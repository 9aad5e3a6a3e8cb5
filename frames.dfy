/** Values the pipeline works on: column labels, cells, rectangular tables,
    and the pandas conversions it calls, as parameters. */
module Frames {
  import opened Text

  datatype Option<+T> = None | Some(value: T)

  /** The outcome of a Python call that may raise an exception. */
  datatype Result<+T> = Ok(value: T) | Raised

  /** A column label: a text header, or a non-text (integer) header. */
  datatype Label = Name(text: string) | Other(key: int)

  /** A cell value: text, a number, a timestamp, or missing (NaN/NaT/None). */
  datatype Cell = Str(s: string) | Num(x: real) | Date(t: int) | Null

  /** A DataFrame: labels in column order and rows aligned with them. */
  datatype Table = Table(header: seq<Label>, rows: seq<seq<Cell>>) {
    predicate WellFormed() {
      forall i :: 0 <= i < |rows| ==> |rows[i]| == |header|
    }
  }

  /** The library behaviour the pipeline relies on but does not define:
      `astype(str)` of a non-text value, `pd.to_datetime(column,
      errors='coerce')` at element k of a column (pandas infers one format per
      column), and `pd.to_numeric(errors='coerce')` of a non-number. */
  datatype Library = Library(
    render: Cell -> string,
    parseDate: (seq<Cell>, nat) -> Option<int>,
    parseNumber: Cell -> Option<real>)

  /** Number of columns carrying label `l`. */
  function Count(h: seq<Label>, l: Label): (n: nat)
    ensures n <= |h|
    ensures n == 0 <==> l !in h
  {
    if h == [] then 0 else (if h[0] == l then 1 else 0) + Count(h[1..], l)
  }

  /** In a header where `l` occurs once, no other position carries it. */
  lemma CountOne(h: seq<Label>, l: Label, i: nat, k: nat)
    requires Count(h, l) == 1 && i < |h| && k < |h| && h[i] == l && h[k] == l
    ensures i == k
  {
    if i != 0 && k != 0 {
      CountOne(h[1..], l, i - 1, k - 1);
    }
  }

  /** A label at some position is counted. */
  lemma CountAt(h: seq<Label>, l: Label, i: nat)
    requires i < |h| && h[i] == l
    ensures Count(h, l) >= 1
  {
    assert h[i] in h;
  }

  /** A label that at most one position carries is counted at most once. */
  lemma {:induction false} CountAtMostOne(h: seq<Label>, l: Label)
    requires forall i, k :: 0 <= i < |h| && 0 <= k < |h| && h[i] == l && h[k] == l ==> i == k
    ensures Count(h, l) <= 1
  {
    if h != [] {
      var t := h[1..];
      forall i, k | 0 <= i < |t| && 0 <= k < |t| && t[i] == l && t[k] == l ensures i == k {
        assert h[i + 1] == l && h[k + 1] == l;
      }
      CountAtMostOne(t, l);
      forall k | 0 <= k < |t| ensures h[0] == l ==> t[k] != l {
        assert t[k] == h[k + 1];
      }
    }
  }

  /** Position of the first column labelled `l`. */
  function IndexOf(h: seq<Label>, l: Label): (i: nat)
    requires l in h
    ensures i < |h| && h[i] == l
    ensures forall k :: 0 <= k < i ==> h[k] != l
  {
    if h[0] == l then 0 else 1 + IndexOf(h[1..], l)
  }

  /** The only position carrying `l` is its first. */
  lemma IndexOfOnly(h: seq<Label>, l: Label, i: nat)
    requires Count(h, l) <= 1 && i < |h| && h[i] == l
    ensures IndexOf(h, l) == i
  {
    CountAt(h, l, i);
    CountOne(h, l, i, IndexOf(h, l));
  }

  /** The cells of column j, top to bottom. */
  function Column(t: Table, j: nat): (c: seq<Cell>)
    requires t.WellFormed() && j < |t.header|
    ensures |c| == |t.rows|
    ensures forall i :: 0 <= i < |t.rows| ==> c[i] == t.rows[i][j]
  {
    seq(|t.rows|, i requires 0 <= i < |t.rows| => t.rows[i][j])
  }

  /** `df[l] = values`: every column labelled `l` receives the values, or a
      new column `l` is appended when there is none. */
  function SetColumn(t: Table, l: Label, values: seq<Cell>): (r: Table)
    requires t.WellFormed() && |values| == |t.rows|
    ensures r.WellFormed() && |r.rows| == |t.rows|
    ensures l in t.header ==> r.header == t.header
    ensures l !in t.header ==> r.header == t.header + [l]
    ensures forall i, j :: 0 <= i < |t.rows| && 0 <= j < |t.header| ==>
              r.rows[i][j] == if t.header[j] == l then values[i] else t.rows[i][j]
    ensures l !in t.header ==> forall i :: 0 <= i < |t.rows| ==> r.rows[i][|t.header|] == values[i]
  {
    if l in t.header then
      Table(t.header, seq(|t.rows|, i requires 0 <= i < |t.rows| =>
        seq(|t.header|, j requires 0 <= j < |t.header| =>
          if t.header[j] == l then values[i] else t.rows[i][j])))
    else
      Table(t.header + [l], seq(|t.rows|, i requires 0 <= i < |t.rows| => t.rows[i] + [values[i]]))
  }

  /** `fillna(0)` on one cell. */
  function FillNa(c: Cell): (r: Cell)
    ensures r != Null
    ensures c != Null ==> r == c
    ensures c == Null ==> r == Num(0.0)
  {
    if c == Null then Num(0.0) else c
  }
}

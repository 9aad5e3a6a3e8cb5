/** The pandas operations merge_data relies on: a left join on
    (`employeename`, `date`) with suffixes, and the `rkppic` column filled
    from `duration`, or 0. */
module Joins {
  import opened Text
  import opened Frames

  const Employee: Label := Name("employeename")
  const WorkDate: Label := Name("date")
  const Duration: Label := Name("duration")
  const Rkppic: Label := Name("rkppic")

  /** Positions of the join keys: employee and date on the left (attendance)
      and on the right (overtime). */
  datatype JoinKeys = JoinKeys(le: nat, ld: nat, re: nat, rd: nat)

  predicate KeysIn(a: Table, o: Table, k: JoinKeys) {
    && a.WellFormed() && o.WellFormed()
    && k.le < |a.header| && k.ld < |a.header| && k.re < |o.header| && k.rd < |o.header|
  }

  /** Both tables carry each key exactly once, as pandas requires of the
      `on` columns. */
  predicate Joinable(a: Table, o: Table) {
    && a.WellFormed() && o.WellFormed()
    && Count(a.header, Employee) == 1 && Count(a.header, WorkDate) == 1
    && Count(o.header, Employee) == 1 && Count(o.header, WorkDate) == 1
  }

  function KeysOf(a: Table, o: Table): (k: JoinKeys)
    requires Joinable(a, o)
    ensures KeysIn(a, o, k)
    ensures a.header[k.le] == Employee && a.header[k.ld] == WorkDate
    ensures o.header[k.re] == Employee && o.header[k.rd] == WorkDate
  {
    JoinKeys(IndexOf(a.header, Employee), IndexOf(a.header, WorkDate),
             IndexOf(o.header, Employee), IndexOf(o.header, WorkDate))
  }

  /** Left row i and right row r agree on employee and date. */
  predicate KeyMatch(a: Table, o: Table, k: JoinKeys, i: nat, r: nat)
    requires KeysIn(a, o, k) && i < |a.rows| && r < |o.rows|
  {
    a.rows[i][k.le] == o.rows[r][k.re] && a.rows[i][k.ld] == o.rows[r][k.rd]
  }

  /** The right rows below n that match left row i, in their order. */
  function MatchesBelow(a: Table, o: Table, k: JoinKeys, i: nat, n: nat): (m: seq<nat>)
    requires KeysIn(a, o, k) && i < |a.rows| && n <= |o.rows|
    ensures forall x :: 0 <= x < |m| ==> m[x] < n
    ensures forall x, y :: 0 <= x < y < |m| ==> m[x] < m[y]
    ensures forall r :: 0 <= r < n ==> (r in m <==> KeyMatch(a, o, k, i, r))
  {
    if n == 0 then []
    else MatchesBelow(a, o, k, i, n - 1) + (if KeyMatch(a, o, k, i, n - 1) then [n - 1] else [])
  }

  /** One row of the join: a left row and its matching right row, if any. */
  datatype Pair = Matched(left: nat, right: nat) | Unmatched(left: nat)

  /** What a left join makes of left row i: one pair per matching right row,
      or a single unmatched pair. */
  function PairsFor(a: Table, o: Table, k: JoinKeys, i: nat): (p: seq<Pair>)
    requires KeysIn(a, o, k) && i < |a.rows|
    ensures p != []
    ensures forall x :: 0 <= x < |p| ==> p[x].left == i
  {
    var m := MatchesBelow(a, o, k, i, |o.rows|);
    if m == [] then [Unmatched(i)]
    else seq(|m|, x requires 0 <= x < |m| => Matched(i, m[x]))
  }

  /** The pairs of the first n left rows, in left order. */
  function PairsBelow(a: Table, o: Table, k: JoinKeys, n: nat): (p: seq<Pair>)
    requires KeysIn(a, o, k) && n <= |a.rows|
    ensures forall x :: 0 <= x < |p| ==> p[x].left < n
    ensures forall x :: 0 <= x < |p| && p[x].Matched? ==> p[x].right < |o.rows|
  {
    if n == 0 then []
    else PairsBelow(a, o, k, n - 1) + PairsFor(a, o, k, n - 1)
  }

  /** The rows of the left join, as pairs of row positions. */
  function Pairs(a: Table, o: Table): seq<Pair>
    requires Joinable(a, o)
  {
    PairsBelow(a, o, KeysOf(a, o), |a.rows|)
  }

  /** Pair p belongs to the join of left row p.left: either it names a
      matching right row, or it is unmatched and no right row matches. */
  predicate Belongs(a: Table, o: Table, k: JoinKeys, p: Pair)
    requires KeysIn(a, o, k)
  {
    && p.left < |a.rows|
    && (p.Matched? ==> p.right < |o.rows| && KeyMatch(a, o, k, p.left, p.right))
    && (p.Unmatched? ==> forall r :: 0 <= r < |o.rows| ==> !KeyMatch(a, o, k, p.left, r))
  }

  lemma PairsForUnmatched(a: Table, o: Table, k: JoinKeys, i: nat, p: Pair)
    requires KeysIn(a, o, k) && i < |a.rows| && MatchesBelow(a, o, k, i, |o.rows|) == []
    ensures p in PairsFor(a, o, k, i) <==> p.left == i && Belongs(a, o, k, p)
  {
    assert PairsFor(a, o, k, i) == [Unmatched(i)];
    assert forall r :: 0 <= r < |o.rows| ==> !KeyMatch(a, o, k, i, r);
  }

  lemma PairsForMatched(a: Table, o: Table, k: JoinKeys, i: nat, p: Pair)
    requires KeysIn(a, o, k) && i < |a.rows| && MatchesBelow(a, o, k, i, |o.rows|) != []
    ensures p in PairsFor(a, o, k, i) <==> p.left == i && Belongs(a, o, k, p)
  {
    var m := MatchesBelow(a, o, k, i, |o.rows|);
    var ps := PairsFor(a, o, k, i);
    assert |ps| == |m| && forall x :: 0 <= x < |m| ==> ps[x] == Matched(i, m[x]);
    if p.Unmatched? {
      assert m[0] in m;
      assert KeyMatch(a, o, k, i, m[0]);
      assert p !in ps;
    } else if p in ps {
      var x :| 0 <= x < |ps| && ps[x] == p;
      assert m[x] in m;
    }
  }

  /** Left row i yields exactly the pairs of row i that belong. */
  lemma PairsForExact(a: Table, o: Table, k: JoinKeys, i: nat, p: Pair)
    requires KeysIn(a, o, k) && i < |a.rows|
    ensures p in PairsFor(a, o, k, i) <==> p.left == i && Belongs(a, o, k, p)
  {
    if MatchesBelow(a, o, k, i, |o.rows|) == [] {
      PairsForUnmatched(a, o, k, i, p);
    } else {
      PairsForMatched(a, o, k, i, p);
    }
  }

  /** The left join holds exactly the pairs that belong: every attendance row
      once for each overtime row with the same key, or once unmatched. */
  lemma {:induction false} PairsExact(a: Table, o: Table, k: JoinKeys, n: nat, p: Pair)
    requires KeysIn(a, o, k) && n <= |a.rows|
    ensures p in PairsBelow(a, o, k, n) <==> p.left < n && Belongs(a, o, k, p)
  {
    if n != 0 {
      PairsExact(a, o, k, n - 1, p);
      PairsForExact(a, o, k, n - 1, p);
      var front, last := PairsBelow(a, o, k, n - 1), PairsFor(a, o, k, n - 1);
      assert PairsBelow(a, o, k, n) == front + last;
      assert p in front + last <==> p in front || p in last;
    }
  }

  /** Pairs in join order: by left row, then by right row. */
  predicate Before(p: Pair, q: Pair) {
    p.left < q.left || (p.left == q.left && p.Matched? && q.Matched? && p.right < q.right)
  }

  /** Pairs in join order: by left row, then by right row; so no pair
      occurs twice. */
  predicate InJoinOrder(p: seq<Pair>) {
    forall x, y :: 0 <= x < y < |p| ==> Before(p[x], p[y])
  }

  lemma PairsForOrder(a: Table, o: Table, k: JoinKeys, i: nat)
    requires KeysIn(a, o, k) && i < |a.rows|
    ensures InJoinOrder(PairsFor(a, o, k, i))
  {
  }

  /** The join keeps left order, and within a left row the right order. */
  lemma {:induction false} PairsOrder(a: Table, o: Table, k: JoinKeys, n: nat)
    requires KeysIn(a, o, k) && n <= |a.rows|
    ensures InJoinOrder(PairsBelow(a, o, k, n))
  {
    if n != 0 {
      PairsOrder(a, o, k, n - 1);
      PairsOrderStep(a, o, k, n);
    }
  }

  lemma PairsOrderStep(a: Table, o: Table, k: JoinKeys, n: nat)
    requires KeysIn(a, o, k) && 0 < n <= |a.rows| && InJoinOrder(PairsBelow(a, o, k, n - 1))
    ensures InJoinOrder(PairsBelow(a, o, k, n))
  {
    PairsForOrder(a, o, k, n - 1);
    OrderConcat(PairsBelow(a, o, k, n - 1), PairsFor(a, o, k, n - 1), n - 1);
  }

  lemma OrderConcat(front: seq<Pair>, last: seq<Pair>, i: nat)
    requires InJoinOrder(front) && InJoinOrder(last)
    requires forall x :: 0 <= x < |front| ==> front[x].left < i
    requires forall x :: 0 <= x < |last| ==> last[x].left == i
    ensures InJoinOrder(front + last)
  {
    var c := front + last;
    forall x, y | 0 <= x < y < |c| ensures Before(c[x], c[y]) {
      if y < |front| {
        assert c[x] == front[x] && c[y] == front[y];
      } else if x < |front| {
        assert c[x] == front[x] && c[y] == last[y - |front|];
      } else {
        assert c[x] == last[x - |front|] && c[y] == last[y - |front|];
      }
    }
  }

  /** No two overtime rows share an (employee, date) key. */
  predicate UniqueRightKeys(o: Table, k: JoinKeys)
    requires o.WellFormed() && k.re < |o.header| && k.rd < |o.header|
  {
    forall r, r' :: 0 <= r < r' < |o.rows| ==>
      o.rows[r][k.re] != o.rows[r'][k.re] || o.rows[r][k.rd] != o.rows[r'][k.rd]
  }

  lemma {:induction false} MatchesOfUnique(a: Table, o: Table, k: JoinKeys, i: nat, r: nat, n: nat)
    requires KeysIn(a, o, k) && UniqueRightKeys(o, k) && i < |a.rows| && r < |o.rows| && n <= |o.rows|
    requires KeyMatch(a, o, k, i, r)
    ensures MatchesBelow(a, o, k, i, n) == if r < n then [r] else []
  {
    if n != 0 {
      MatchesOfUnique(a, o, k, i, r, n - 1);
      MatchesOfUniqueStep(a, o, k, i, r, n);
    }
  }

  lemma MatchesOfUniqueStep(a: Table, o: Table, k: JoinKeys, i: nat, r: nat, n: nat)
    requires KeysIn(a, o, k) && UniqueRightKeys(o, k) && i < |a.rows| && r < |o.rows| && 0 < n <= |o.rows|
    requires KeyMatch(a, o, k, i, r)
    requires MatchesBelow(a, o, k, i, n - 1) == if r < n - 1 then [r] else []
    ensures MatchesBelow(a, o, k, i, n) == if r < n then [r] else []
  {
    var prev := MatchesBelow(a, o, k, i, n - 1);
    if n - 1 == r {
      assert MatchesBelow(a, o, k, i, n) == [] + [r];
    } else {
      OnlyMatch(a, o, k, i, r, n - 1);
      assert MatchesBelow(a, o, k, i, n) == prev + [];
    }
  }

  lemma OnlyMatch(a: Table, o: Table, k: JoinKeys, i: nat, r: nat, s: nat)
    requires KeysIn(a, o, k) && UniqueRightKeys(o, k) && i < |a.rows| && r < |o.rows| && s < |o.rows|
    requires KeyMatch(a, o, k, i, r)
    ensures KeyMatch(a, o, k, i, s) ==> s == r
  {
    if s < r {
      assert o.rows[s][k.re] != o.rows[r][k.re] || o.rows[s][k.rd] != o.rows[r][k.rd];
    } else if r < s {
      assert o.rows[r][k.re] != o.rows[s][k.re] || o.rows[r][k.rd] != o.rows[s][k.rd];
    }
  }

  /** With unique overtime keys each attendance row yields one pair. */
  lemma {:induction false} PairsLength(a: Table, o: Table, k: JoinKeys, n: nat)
    requires KeysIn(a, o, k) && n <= |a.rows| && UniqueRightKeys(o, k)
    ensures |PairsBelow(a, o, k, n)| == n
  {
    if n != 0 {
      PairsLength(a, o, k, n - 1);
      var m := MatchesBelow(a, o, k, n - 1, |o.rows|);
      if m != [] {
        assert m[0] in m;
        MatchesOfUnique(a, o, k, n - 1, m[0], |o.rows|);
      }
    }
  }

  /** pandas' suffixing of an overlapping label: `f"{label}{suffix}"`. */
  function Suffixed(l: Label, suffix: string): (r: Label)
    ensures r.Name?
    ensures l.Name? ==> r.text == l.text + suffix
    ensures l.Other? ==> r.text == IntToString(l.key) + suffix
  {
    match l
    case Name(s) => Name(s + suffix)
    case Other(k) => Name(IntToString(k) + suffix)
  }

  /** The right columns the join carries over: all but the keys, in order. */
  function RightColumns(o: Table, n: nat): (cs: seq<nat>)
    requires n <= |o.header|
    ensures forall x :: 0 <= x < |cs| ==> cs[x] < n && o.header[cs[x]] != Employee && o.header[cs[x]] != WorkDate
    ensures forall x, y :: 0 <= x < y < |cs| ==> cs[x] < cs[y]
    ensures forall k {:trigger k in cs} :: 0 <= k < n ==> (k in cs <==> o.header[k] != Employee && o.header[k] != WorkDate)
  {
    if n == 0 then []
    else RightColumns(o, n - 1) + (if o.header[n - 1] != Employee && o.header[n - 1] != WorkDate then [n - 1] else [])
  }

  function RightLabels(o: Table): (ls: seq<Label>)
    ensures var cs := RightColumns(o, |o.header|);
      |ls| == |cs| && forall x :: 0 <= x < |cs| ==> ls[x] == o.header[cs[x]]
  {
    var cs := RightColumns(o, |o.header|);
    seq(|cs|, x requires 0 <= x < |cs| => o.header[cs[x]])
  }

  /** Columns of the join: the left labels, then the carried right labels; a
      label on both sides gets suffix '' on the left, `_overtime` on the right. */
  function MergedHeader(a: Table, o: Table): (h: seq<Label>)
    ensures |h| == |a.header| + |RightLabels(o)|
  {
    var rl := RightLabels(o);
    seq(|a.header|, j requires 0 <= j < |a.header| =>
      if a.header[j] in rl then Suffixed(a.header[j], "") else a.header[j])
    + seq(|rl|, x requires 0 <= x < |rl| =>
      if rl[x] in a.header then Suffixed(rl[x], "_overtime") else rl[x])
  }

  /** One output row: the left row, then the carried right cells, missing when
      the pair is unmatched. */
  function JoinedRow(a: Table, o: Table, p: Pair): (row: seq<Cell>)
    requires a.WellFormed() && o.WellFormed() && p.left < |a.rows|
    requires p.Matched? ==> p.right < |o.rows|
    ensures |row| == |a.header| + |RightColumns(o, |o.header|)|
  {
    var cs := RightColumns(o, |o.header|);
    a.rows[p.left] + seq(|cs|, x requires 0 <= x < |cs| =>
      if p.Matched? then o.rows[p.right][cs[x]] else Null)
  }

  /** `pd.merge(a, o, on=['employeename', 'date'], how='left', suffixes=('', '_overtime'))`. */
  function Joined(a: Table, o: Table): (m: Table)
    requires Joinable(a, o)
    ensures m.WellFormed() && |m.rows| == |Pairs(a, o)|
  {
    var ps := Pairs(a, o);
    Table(MergedHeader(a, o), seq(|ps|, x requires 0 <= x < |ps| => JoinedRow(a, o, ps[x])))
  }

  function Zeros(n: nat): (r: seq<Cell>)
    ensures |r| == n && forall i :: 0 <= i < n ==> r[i] == Num(0.0)
  {
    seq(n, i => Num(0.0))
  }

  function FillNaColumn(col: seq<Cell>): (r: seq<Cell>)
    ensures |r| == |col| && forall i :: 0 <= i < |col| ==> r[i] == FillNa(col[i])
  {
    seq(|col|, i requires 0 <= i < |col| => FillNa(col[i]))
  }

  /** `merged_df['rkppic'] = merged_df['duration'].fillna(0)`, or 0 when there
      is no `duration`; a duplicated `duration` selects several columns, which
      cannot be assigned to one, and raises. */
  function WithRkppic(m: Table): (r: Option<Table>)
    requires m.WellFormed()
    ensures r.None? <==> Count(m.header, Duration) > 1
  {
    if Count(m.header, Duration) > 1 then None
    else if Duration in m.header then
      Some(SetColumn(m, Rkppic, FillNaColumn(Column(m, IndexOf(m.header, Duration)))))
    else Some(SetColumn(m, Rkppic, Zeros(|m.rows|)))
  }

  /** Row x of the join is the attendance row of its pair followed by the
      carried cells of the matching overtime row, or by missing cells when no
      overtime row matches. */
  lemma JoinedRowContent(a: Table, o: Table, x: nat)
    requires Joinable(a, o) && x < |Pairs(a, o)|
    ensures var p := Pairs(a, o)[x];
      var row := Joined(a, o).rows[x];
      var cs := RightColumns(o, |o.header|);
      && Belongs(a, o, KeysOf(a, o), p)
      && |row| == |a.header| + |cs|
      && (forall j :: 0 <= j < |a.header| ==> row[j] == a.rows[p.left][j])
      && (forall y :: 0 <= y < |cs| ==> row[|a.header| + y] == if p.Matched? then o.rows[p.right][cs[y]] else Null)
  {
    var p := Pairs(a, o)[x];
    PairBelongs(a, o, x);
    JoinedRowCells(a, o, p);
    assert Joined(a, o).rows[x] == JoinedRow(a, o, p);
  }

  lemma PairBelongs(a: Table, o: Table, x: nat)
    requires Joinable(a, o) && x < |Pairs(a, o)|
    ensures Belongs(a, o, KeysOf(a, o), Pairs(a, o)[x])
  {
    var p := Pairs(a, o)[x];
    assert p in Pairs(a, o);
    PairsExact(a, o, KeysOf(a, o), |a.rows|, p);
  }

  lemma JoinedRowCells(a: Table, o: Table, p: Pair)
    requires a.WellFormed() && o.WellFormed() && p.left < |a.rows|
    requires p.Matched? ==> p.right < |o.rows|
    ensures var row := JoinedRow(a, o, p);
      var cs := RightColumns(o, |o.header|);
      && (forall j :: 0 <= j < |a.header| ==> row[j] == a.rows[p.left][j])
      && (forall y :: 0 <= y < |cs| ==> row[|a.header| + y] == if p.Matched? then o.rows[p.right][cs[y]] else Null)
  {
  }

  /** The suffix '' leaves a text label as it is, and turns a non-text label
      into text that starts with a digit or '-'. */
  lemma SuffixedEmpty(l: Label)
    ensures l.Name? ==> Suffixed(l, "") == l
    ensures l.Other? ==> Suffixed(l, "").text[0] == '-' || '0' <= Suffixed(l, "").text[0] <= '9'
  {
    if l.Name? {
      assert l.text + "" == l.text;
    }
  }

  /** The labels of the join: a left label keeps its text, carried right
      labels follow in order, and a right label that is also a left label
      gets `_overtime` appended. */
  lemma MergedHeaderLabels(a: Table, o: Table)
    ensures var h := MergedHeader(a, o);
      && (forall j :: 0 <= j < |a.header| && a.header[j].Name? ==> h[j] == a.header[j])
      && (forall j :: 0 <= j < |a.header| && a.header[j] !in RightLabels(o) ==> h[j] == a.header[j])
      && (forall y :: 0 <= y < |RightLabels(o)| && RightLabels(o)[y] !in a.header ==>
            h[|a.header| + y] == RightLabels(o)[y])
      && (forall y :: 0 <= y < |RightLabels(o)| && RightLabels(o)[y] in a.header ==>
            h[|a.header| + y] == Suffixed(RightLabels(o)[y], "_overtime"))
      && Employee !in RightLabels(o) && WorkDate !in RightLabels(o)
  {
    var h := MergedHeader(a, o);
    var rl := RightLabels(o);
    forall j | 0 <= j < |a.header| && a.header[j].Name? ensures h[j] == a.header[j] {
      SuffixedEmpty(a.header[j]);
    }
  }

  /** Without a left `duration`, the merged `duration` columns are exactly the
      positions of the carried right `duration` columns. */
  lemma DurationInMerged(a: Table, o: Table, q: nat)
    requires Duration !in a.header && q < |MergedHeader(a, o)|
    ensures var h := MergedHeader(a, o);
      var rl := RightLabels(o);
      h[q] == Duration <==> q >= |a.header| && rl[q - |a.header|] == Duration
  {
    var h := MergedHeader(a, o);
    var rl := RightLabels(o);
    MergedHeaderLabels(a, o);
    if q < |a.header| {
      SuffixedEmpty(a.header[q]);
      assert Duration.text[0] == 'd';
    } else {
      var y := q - |a.header|;
      if rl[y] in a.header {
        assert |h[q].text| >= 9 > |Duration.text|;
      }
    }
  }

  /** What `rkppic` is filled with in row i of m. */
  function RkppicValue(m: Table, i: nat): (c: Cell)
    requires m.WellFormed() && i < |m.rows|
    ensures c != Null
  {
    if Duration in m.header then FillNa(m.rows[i][IndexOf(m.header, Duration)]) else Num(0.0)
  }

  /** Filling `rkppic` puts the filled `duration`, or 0, in every column
      labelled `rkppic` (a new last one when there is none) and leaves every
      other cell as it was. */
  lemma RkppicCells(m: Table)
    requires m.WellFormed() && Count(m.header, Duration) <= 1
    ensures var r := WithRkppic(m).value;
      && r.WellFormed() && |r.rows| == |m.rows|
      && r.header == (if Rkppic in m.header then m.header else m.header + [Rkppic])
      && (forall i, j :: 0 <= i < |m.rows| && 0 <= j < |m.header| ==>
            r.rows[i][j] == if m.header[j] == Rkppic then RkppicValue(m, i) else m.rows[i][j])
      && (Rkppic !in m.header ==> forall i :: 0 <= i < |m.rows| ==> r.rows[i][|m.header|] == RkppicValue(m, i))
  {
  }

  /** A label carried only through the columns cs of a header oh that has
      it at most once occurs at most once. */
  lemma CarriedOnce(h: seq<Label>, n: nat, oh: seq<Label>, cs: seq<nat>, l: Label)
    requires |h| == n + |cs| && forall y :: 0 <= y < |cs| ==> cs[y] < |oh|
    requires forall x, y :: 0 <= x < y < |cs| ==> cs[x] < cs[y]
    requires forall q :: 0 <= q < |h| ==> (h[q] == l <==> q >= n && oh[cs[q - n]] == l)
    requires Count(oh, l) <= 1
    ensures Count(h, l) <= 1
  {
    forall q1, q2 | 0 <= q1 < |h| && 0 <= q2 < |h| && h[q1] == l && h[q2] == l ensures q1 == q2 {
      var y1, y2 := q1 - n, q2 - n;
      CountAt(oh, l, cs[y1]);
      CountOne(oh, l, cs[y1], cs[y2]);
    }
    CountAtMostOne(h, l);
  }

  /** Without a left `duration` and with at most one right one, the join has
      a `duration` column exactly when the overtime table has one. */
  lemma DurationColumn(a: Table, o: Table)
    requires a.WellFormed() && o.WellFormed() && Duration !in a.header && Count(o.header, Duration) <= 1
    ensures Count(MergedHeader(a, o), Duration) <= 1
    ensures Duration in MergedHeader(a, o) <==> Duration in o.header
  {
    var h := MergedHeader(a, o);
    var cs := RightColumns(o, |o.header|);
    var n := |a.header|;
    forall q | 0 <= q < |h| ensures h[q] == Duration <==> q >= n && o.header[cs[q - n]] == Duration {
      DurationInMerged(a, o, q);
    }
    CarriedOnce(h, n, o.header, cs, Duration);
    if Duration in o.header {
      DurationCarried(a, o);
    }
  }

  /** The carried overtime `duration` lands at its place in the join. */
  lemma DurationAtPosition(a: Table, o: Table, y: nat)
    requires Duration !in a.header
    requires y < |RightColumns(o, |o.header|)| && o.header[RightColumns(o, |o.header|)[y]] == Duration
    ensures |a.header| + y < |MergedHeader(a, o)| && MergedHeader(a, o)[|a.header| + y] == Duration
  {
    DurationInMerged(a, o, |a.header| + y);
  }

  /** A right `duration` is carried into the join. */
  lemma DurationCarried(a: Table, o: Table)
    requires a.WellFormed() && o.WellFormed() && Duration !in a.header && Duration in o.header
    ensures Duration in MergedHeader(a, o)
  {
    var cs := RightColumns(o, |o.header|);
    var c := IndexOf(o.header, Duration);
    assert Duration != Employee && Duration != WorkDate;
    assert c in cs;
    var y :| 0 <= y < |cs| && cs[y] == c;
    DurationInMerged(a, o, |a.header| + y);
  }

  /** Each row of the join carries as `rkppic` the filled `duration` of the
      overtime row it is paired with, and 0 when it has none or the overtime
      table has no `duration`. */
  lemma JoinRkppicCarried(a: Table, o: Table, x: nat)
    requires Joinable(a, o) && Duration !in a.header && Count(o.header, Duration) <= 1
    requires Duration in o.header && x < |Pairs(a, o)|
    ensures WithRkppic(Joined(a, o)).Some?
    ensures var r := WithRkppic(Joined(a, o)).value;
      var p := Pairs(a, o)[x];
      forall j :: 0 <= j < |r.header| && r.header[j] == Rkppic ==>
        r.rows[x][j] == FillNa(if p.Matched? then o.rows[p.right][IndexOf(o.header, Duration)] else Null)
  {
    var m := Joined(a, o);
    assert m.header == MergedHeader(a, o);
    DurationColumn(a, o);
    var cs := RightColumns(o, |o.header|);
    var c := IndexOf(o.header, Duration);
    assert Duration != Employee && Duration != WorkDate;
    assert c in cs;
    var y :| 0 <= y < |cs| && cs[y] == c;
    DurationAtPosition(a, o, y);
    JoinedRightCell(a, o, x, y);
    RkppicFromColumn(m, x, |a.header| + y, m.rows[x][|a.header| + y]);
  }

  /** With no `duration` on either side, every `rkppic` cell of the join is 0. */
  lemma JoinRkppicZero(a: Table, o: Table, x: nat)
    requires Joinable(a, o) && Duration !in a.header && Duration !in o.header
    requires x < |Pairs(a, o)|
    ensures WithRkppic(Joined(a, o)).Some?
    ensures var r := WithRkppic(Joined(a, o)).value;
      forall j :: 0 <= j < |r.header| && r.header[j] == Rkppic ==> r.rows[x][j] == Num(0.0)
  {
    var m := Joined(a, o);
    assert m.header == MergedHeader(a, o);
    DurationColumn(a, o);
    RkppicWithout(m, x);
  }

  /** Cell y of the carried part of join row x. */
  lemma JoinedRightCell(a: Table, o: Table, x: nat, y: nat)
    requires Joinable(a, o) && x < |Pairs(a, o)| && y < |RightColumns(o, |o.header|)|
    ensures var p := Pairs(a, o)[x];
      |a.header| + y < |Joined(a, o).rows[x]| &&
      Joined(a, o).rows[x][|a.header| + y] ==
        if p.Matched? then o.rows[p.right][RightColumns(o, |o.header|)[y]] else Null
  {
    JoinedRowContent(a, o, x);
  }

  /** When the only `duration` column is q, `rkppic` holds its filled value. */
  lemma RkppicFromColumn(m: Table, x: nat, q: nat, v: Cell)
    requires m.WellFormed() && Count(m.header, Duration) <= 1 && x < |m.rows|
    requires q < |m.header| && m.header[q] == Duration && m.rows[x][q] == v
    ensures WithRkppic(m).Some?
    ensures var r := WithRkppic(m).value;
      forall j :: 0 <= j < |r.header| && r.header[j] == Rkppic ==> r.rows[x][j] == FillNa(v)
  {
    IndexOfOnly(m.header, Duration, q);
    RkppicCells(m);
  }

  /** Without a `duration` column, `rkppic` holds 0. */
  lemma RkppicWithout(m: Table, x: nat)
    requires m.WellFormed() && Duration !in m.header && x < |m.rows|
    ensures WithRkppic(m).Some?
    ensures var r := WithRkppic(m).value;
      forall j :: 0 <= j < |r.header| && r.header[j] == Rkppic ==> r.rows[x][j] == Num(0.0)
  {
    RkppicCells(m);
  }
}

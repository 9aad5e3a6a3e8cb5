/** calculate_summary (app.py:141-210): per attendance employee, the first
    job position, the number of work shifts, and the overtime `wtnormal` and
    `duration` totals, numbered 1..N in ascending employee order. */
module Summary {
  import opened Text
  import opened Frames
  import opened Cleaning
  import opened Joins

  const JobPosition: Label := Name("jobposition")
  const Shift: Label := Name("shift")
  const WtNormal: Label := Name("wtnormal")

  /** The shift words count_work_days treats as a working day. */
  const WorkShifts: seq<string> :=
    ["pagi", "siang", "sore", "malam", "shift", "normal", "morning", "evening", "day", "night"]

  /** `any(work in s for work in ws)`. */
  predicate AnyIn(s: string, ws: seq<string>)
    decreases |ws|
  {
    ws != [] && (Contains(s, ws[0]) || AnyIn(s, ws[1..]))
  }

  lemma {:induction false} AnyInIff(s: string, ws: seq<string>)
    ensures AnyIn(s, ws) <==> exists k :: 0 <= k < |ws| && Contains(s, ws[k])
    decreases |ws|
  {
    if ws != [] {
      AnyInIff(s, ws[1..]);
      if exists k :: 0 <= k < |ws[1..]| && Contains(s, ws[1..][k]) {
        var k :| 0 <= k < |ws[1..]| && Contains(s, ws[1..][k]);
        assert ws[k + 1] == ws[1..][k];
      }
      if exists k :: 0 <= k < |ws| && Contains(s, ws[k]) {
        var k :| 0 <= k < |ws| && Contains(s, ws[k]);
        if k > 0 {
          assert ws[1..][k - 1] == ws[k];
        }
      }
    }
  }

  /** `isinstance(shift, str) and any(work in shift.lower() for work in work_shifts)`. */
  predicate IsWorkShift(c: Cell) {
    c.Str? && AnyIn(Lower(c.s), WorkShifts)
  }

  /** The number of work shifts in a sequence of shift cells. */
  function WorkDays(shifts: seq<Cell>): (n: nat)
    ensures n <= |shifts|
  {
    if shifts == [] then 0
    else WorkDays(shifts[..|shifts| - 1]) + (if IsWorkShift(shifts[|shifts| - 1]) then 1 else 0)
  }

  /** count_work_days: one pass over the shifts with a counter. */
  method CountWorkDays(shifts: seq<Cell>) returns (count: nat)
    ensures count == WorkDays(shifts)
  {
    count := 0;
    var i := 0;
    while i < |shifts|
      invariant 0 <= i <= |shifts|
      invariant count == WorkDays(shifts[..i])
    {
      assert shifts[..i + 1][..i] == shifts[..i];
      if IsWorkShift(shifts[i]) {
        count := count + 1;
      }
      i := i + 1;
    }
    assert shifts[..|shifts|] == shifts;
  }

  /** Counting work shifts is additive over concatenation. */
  lemma {:induction false} WorkDaysAppend(a: seq<Cell>, b: seq<Cell>)
    ensures WorkDays(a + b) == WorkDays(a) + WorkDays(b)
    decreases |b|
  {
    if b == [] {
      assert a + b == a;
    } else {
      var b' := b[..|b| - 1];
      assert (a + b)[..|a + b| - 1] == a + b';
      assert (a + b)[|a + b| - 1] == b[|b| - 1];
      WorkDaysAppend(a, b');
    }
  }

  lemma WorkDaysPrefix(c: seq<Cell>, i: nat)
    requires i < |c|
    ensures WorkDays(c[..i + 1]) == WorkDays(c[..i]) + (if IsWorkShift(c[i]) then 1 else 0)
  {
    assert c[..i + 1][..i] == c[..i];
  }

  /** No shift counts exactly when none is a work shift. */
  lemma {:induction false} WorkDaysNone(s: seq<Cell>)
    ensures WorkDays(s) == 0 <==> forall i :: 0 <= i < |s| ==> !IsWorkShift(s[i])
  {
    if s != [] {
      var p := s[..|s| - 1];
      WorkDaysNone(p);
      assert forall i :: 0 <= i < |p| ==> p[i] == s[i];
    }
  }

  /** All shifts count exactly when every one is a work shift. */
  lemma {:induction false} WorkDaysAll(s: seq<Cell>)
    ensures WorkDays(s) == |s| <==> forall i :: 0 <= i < |s| ==> IsWorkShift(s[i])
  {
    if s != [] {
      var p := s[..|s| - 1];
      WorkDaysAll(p);
      assert forall i :: 0 <= i < |p| ==> p[i] == s[i];
    }
  }

  lemma KeywordShift(s: string, k: nat)
    requires k < |WorkShifts| && s == WorkShifts[k]
    ensures IsWorkShift(Str(s))
  {
    assert NoUpper(s);
    LowerOfNoUpper(s);
    assert StartsWith(s, WorkShifts[k]);
    AnyInIff(s, WorkShifts);
  }

  /** Every shift word starts with one of these letters. */
  const Initials: seq<char> := ['p', 's', 'm', 'n', 'e', 'd']

  lemma InitialsOfWorkShifts(k: nat)
    requires k < |WorkShifts|
    ensures WorkShifts[k] != [] && WorkShifts[k][0] in Initials
  {
  }

  /** A text that contains a word contains its first letter. */
  lemma {:induction false} ContainsFirst(s: string, w: string)
    requires w != [] && Contains(s, w)
    ensures w[0] in s
    decreases |s|
  {
    if StartsWith(s, w) {
      assert s[0] == w[0];
    } else {
      ContainsFirst(s[1..], w);
      assert s[1..] == s[1..];
    }
  }

  /** Text without any of the initial letters names no work shift. */
  lemma NoInitialNoShift(s: string)
    requires NoUpper(s) && forall i :: 0 <= i < |s| ==> s[i] !in Initials
    ensures !IsWorkShift(Str(s))
  {
    LowerOfNoUpper(s);
    AnyInIff(s, WorkShifts);
    forall k | 0 <= k < |WorkShifts| ensures !Contains(s, WorkShifts[k]) {
      InitialsOfWorkShifts(k);
      if Contains(s, WorkShifts[k]) {
        ContainsFirst(s, WorkShifts[k]);
      }
    }
  }

  lemma OffIsNoShift(s: string)
    requires s == "off" || s == "libur"
    ensures !IsWorkShift(Str(s))
  {
    NoInitialNoShift(s);
  }

  /** Five shifts of which the first, third and fifth are work shifts. */
  lemma WorkDaysOfFive(c: seq<Cell>)
    requires |c| == 5 && IsWorkShift(c[0]) && !IsWorkShift(c[1]) && IsWorkShift(c[2])
    requires !IsWorkShift(c[3]) && IsWorkShift(c[4])
    ensures WorkDays(c) == 3
  {
    assert |c[..0]| == 0;
    WorkDaysPrefix(c, 0);
    WorkDaysPrefix(c, 1);
    WorkDaysPrefix(c, 2);
    WorkDaysPrefix(c, 3);
    WorkDaysPrefix(c, 4);
    assert c[..5] == c;
  }

  lemma ExampleShifts(p: string, f: string, s: string, l: string, m: string)
    requires p == "pagi" && f == "off" && s == "siang" && l == "libur" && m == "malam"
    ensures IsWorkShift(Str(p)) && !IsWorkShift(Str(f)) && IsWorkShift(Str(s))
    ensures !IsWorkShift(Str(l)) && IsWorkShift(Str(m))
  {
    KeywordShift(p, 0);
    KeywordShift(s, 1);
    KeywordShift(m, 3);
    OffIsNoShift(f);
    OffIsNoShift(l);
  }

  /** ["pagi", "off", "siang", "libur", "malam"] has three work days. */
  lemma WorkDaysExample(p: string, f: string, s: string, l: string, m: string)
    requires p == "pagi" && f == "off" && s == "siang" && l == "libur" && m == "malam"
    ensures WorkDays([Str(p), Str(f), Str(s), Str(l), Str(m)]) == 3
  {
    ExampleShifts(p, f, s, l, m);
    WorkDaysOfFive([Str(p), Str(f), Str(s), Str(l), Str(m)]);
  }

  /** The order `groupby` sorts keys in: numbers, then timestamps, then text,
      each by value. A cleaned column never mixes kinds, so the order between
      kinds only makes the order total. */
  function Rank(c: Cell): nat {
    match c
    case Num(_) => 0
    case Date(_) => 1
    case Str(_) => 2
    case Null => 3
  }

  predicate CellLess(c: Cell, d: Cell) {
    || Rank(c) < Rank(d)
    || (c.Num? && d.Num? && c.x < d.x)
    || (c.Date? && d.Date? && c.t < d.t)
    || (c.Str? && d.Str? && StrLess(c.s, d.s))
  }

  lemma CellLessIrreflexive(c: Cell)
    ensures !CellLess(c, c)
  {
    if c.Str? {
      StrLessIrreflexive(c.s);
    }
  }

  lemma CellLessTransitive(c: Cell, d: Cell, e: Cell)
    requires CellLess(c, d) && CellLess(d, e)
    ensures CellLess(c, e)
  {
    if c.Str? && d.Str? && e.Str? {
      StrLessTransitive(c.s, d.s, e.s);
    }
  }

  lemma CellLessTotal(c: Cell, d: Cell)
    requires c != d
    ensures CellLess(c, d) || CellLess(d, c)
  {
    if c.Str? && d.Str? {
      StrLessTotal(c.s, d.s);
    }
  }

  /** Strictly ascending keys. */
  predicate Ascending(ks: seq<Cell>) {
    forall i, j :: 0 <= i < j < |ks| ==> CellLess(ks[i], ks[j])
  }

  /** Ascending keys are distinct. */
  lemma AscendingDistinct(ks: seq<Cell>)
    requires Ascending(ks)
    ensures forall i, j :: 0 <= i < j < |ks| ==> ks[i] != ks[j]
  {
    forall i, j | 0 <= i < j < |ks| ensures ks[i] != ks[j] {
      CellLessIrreflexive(ks[i]);
    }
  }

  /** A key below every key of an ascending sequence can go in front. */
  lemma ConsAscending(c: Cell, t: seq<Cell>)
    requires Ascending(t) && forall d :: d in t ==> CellLess(c, d)
    ensures Ascending([c] + t)
  {
    var r := [c] + t;
    forall i, j | 0 <= i < j < |r| ensures CellLess(r[i], r[j]) {
      assert r[j] == t[j - 1];
      if i == 0 {
        assert t[j - 1] in t;
      } else {
        assert r[i] == t[i - 1];
      }
    }
  }

  /** A key below the first key of an ascending sequence is below all. */
  lemma BelowHead(c: Cell, ks: seq<Cell>)
    requires Ascending(ks) && ks != [] && CellLess(c, ks[0])
    ensures forall d :: d in ks ==> CellLess(c, d)
  {
    forall d | d in ks ensures CellLess(c, d) {
      var j :| 0 <= j < |ks| && ks[j] == d;
      if j > 0 {
        CellLessTransitive(c, ks[0], d);
      }
    }
  }

  /** Adds key c to ascending keys, keeping them ascending. */
  function Insert(ks: seq<Cell>, c: Cell): (r: seq<Cell>)
    requires Ascending(ks)
    ensures Ascending(r)
    ensures forall d :: d in r <==> d in ks || d == c
  {
    if ks == [] then [c]
    else if c == ks[0] then ks
    else if CellLess(c, ks[0]) then
      BelowHead(c, ks);
      ConsAscending(c, ks);
      [c] + ks
    else
      CellLessTotal(c, ks[0]);
      var t := Insert(ks[1..], c);
      assert forall d :: d in ks[1..] ==> CellLess(ks[0], d) by {
        forall d | d in ks[1..] ensures CellLess(ks[0], d) {
          var j :| 0 <= j < |ks[1..]| && ks[1..][j] == d;
          assert ks[j + 1] == d;
        }
      }
      ConsAscending(ks[0], t);
      assert ks == [ks[0]] + ks[1..];
      [ks[0]] + t
  }

  /** The keys of `groupby(column)`: its distinct non-missing values, sorted. */
  function GroupKeys(col: seq<Cell>): (ks: seq<Cell>)
    ensures Ascending(ks)
    ensures forall d :: d in ks <==> d in col && d != Null
  {
    if col == [] then []
    else
      var p, c := col[..|col| - 1], col[|col| - 1];
      assert col == p + [c];
      if c == Null then GroupKeys(p) else Insert(GroupKeys(p), c)
  }

  /** The cells of column vc in the rows whose key in column ec is k, in row
      order: one group of `groupby`. */
  function Group(ec: seq<Cell>, vc: seq<Cell>, k: Cell): (g: seq<Cell>)
    requires |ec| == |vc|
    ensures |g| <= |ec|
  {
    if ec == [] then []
    else Group(ec[..|ec| - 1], vc[..|vc| - 1], k) + (if ec[|ec| - 1] == k then [vc[|vc| - 1]] else [])
  }

  /** A group holds exactly the cells of the rows with its key. */
  lemma {:induction false} GroupMembers(ec: seq<Cell>, vc: seq<Cell>, k: Cell, v: Cell)
    requires |ec| == |vc|
    ensures v in Group(ec, vc, k) <==> exists i :: 0 <= i < |ec| && ec[i] == k && vc[i] == v
  {
    if ec != [] {
      var n := |ec| - 1;
      GroupMembers(ec[..n], vc[..n], k, v);
      if exists i :: 0 <= i < n && ec[..n][i] == k && vc[..n][i] == v {
        var i :| 0 <= i < n && ec[..n][i] == k && vc[..n][i] == v;
        assert ec[i] == k && vc[i] == v;
      }
      if exists i :: 0 <= i < |ec| && ec[i] == k && vc[i] == v {
        var i :| 0 <= i < |ec| && ec[i] == k && vc[i] == v;
        if i < n {
          assert ec[..n][i] == k && vc[..n][i] == v;
        }
      }
    }
  }

  /** The positions of the rows whose key is k, in increasing order. */
  function KeyRows(ec: seq<Cell>, k: Cell): (rs: seq<nat>)
    ensures forall x :: 0 <= x < |rs| ==> rs[x] < |ec| && ec[rs[x]] == k
    ensures forall x, y :: 0 <= x < y < |rs| ==> rs[x] < rs[y]
    ensures forall i :: 0 <= i < |ec| && ec[i] == k ==> i in rs
  {
    if ec == [] then []
    else
      var n := |ec| - 1;
      var p := KeyRows(ec[..n], k);
      assert forall i :: 0 <= i < n ==> ec[..n][i] == ec[i];
      p + (if ec[n] == k then [n] else [])
  }

  /** A group holds one cell per row with its key, in row order: the x-th
      cell of the group is from the x-th such row. */
  lemma {:induction false} GroupRows(ec: seq<Cell>, vc: seq<Cell>, k: Cell)
    requires |ec| == |vc|
    ensures var g, rs := Group(ec, vc, k), KeyRows(ec, k);
      |g| == |rs| && forall x :: 0 <= x < |g| ==> g[x] == vc[rs[x]]
  {
    if ec != [] {
      var n := |ec| - 1;
      GroupRows(ec[..n], vc[..n], k);
      var rp := KeyRows(ec[..n], k);
      assert forall x :: 0 <= x < |rp| ==> vc[..n][rp[x]] == vc[rp[x]];
    }
  }

  /** The indices below n of the rows with key k. */
  function KeyIndices(ec: seq<Cell>, k: Cell, n: nat): set<nat>
    requires n <= |ec|
  {
    set i: nat | i < n && ec[i] == k
  }

  lemma KeyIndicesStep(ec: seq<Cell>, k: Cell, n: nat)
    requires n < |ec|
    ensures n !in KeyIndices(ec, k, n)
    ensures KeyIndices(ec, k, n + 1) == KeyIndices(ec, k, n) + (if ec[n] == k then {n} else {})
  {
  }

  lemma KeyIndicesPrefix(ec: seq<Cell>, k: Cell, n: nat)
    requires n <= |ec|
    ensures KeyIndices(ec[..n], k, n) == KeyIndices(ec, k, n)
  {
    assert forall i :: 0 <= i < n ==> ec[..n][i] == ec[i];
  }

  /** A group has as many cells as there are rows with its key. */
  lemma {:induction false} GroupSize(ec: seq<Cell>, vc: seq<Cell>, k: Cell)
    requires |ec| == |vc|
    ensures |Group(ec, vc, k)| == |KeyIndices(ec, k, |ec|)|
  {
    if ec != [] {
      var n := |ec| - 1;
      GroupSize(ec[..n], vc[..n], k);
      KeyIndicesPrefix(ec, k, n);
      KeyIndicesStep(ec, k, n);
      var t := if ec[n] == k then [vc[n]] else [];
      assert Group(ec, vc, k) == Group(ec[..n], vc[..n], k) + t;
    }
  }

  /** A key with no row has an empty group. */
  lemma {:induction false} GroupEmpty(ec: seq<Cell>, vc: seq<Cell>, k: Cell)
    requires |ec| == |vc|
    ensures Group(ec, vc, k) == [] <==> k !in ec
  {
    if ec != [] {
      var n := |ec| - 1;
      GroupEmpty(ec[..n], vc[..n], k);
      if ec[n] != k {
        assert k in ec <==> k in ec[..n] by {
          assert ec == ec[..n] + [ec[n]];
        }
      } else {
        assert ec[n] in ec;
      }
    }
  }

  /** GroupBy.first: the first non-missing cell, or missing. */
  function FirstNonNull(vs: seq<Cell>): (c: Cell)
    ensures c != Null ==> c in vs
    ensures c == Null <==> forall i :: 0 <= i < |vs| ==> vs[i] == Null
  {
    if vs == [] then Null
    else if vs[0] != Null then vs[0]
    else
      var c := FirstNonNull(vs[1..]);
      assert forall i :: 0 < i < |vs| ==> vs[i] == vs[1..][i - 1];
      c
  }

  /** The first non-missing cell comes after missing cells only. */
  lemma {:induction false} FirstNonNullAt(vs: seq<Cell>) returns (i: nat)
    requires FirstNonNull(vs) != Null
    ensures i < |vs| && vs[i] == FirstNonNull(vs)
    ensures forall j :: 0 <= j < i ==> vs[j] == Null
  {
    if vs[0] != Null {
      i := 0;
    } else {
      var i' := FirstNonNullAt(vs[1..]);
      i := i' + 1;
      assert forall j :: 0 < j <= i' ==> vs[j] == vs[1..][j - 1];
    }
  }

  /** `sum()` of a group: the numbers in it, missing values skipped. */
  function SumNumbers(vs: seq<Cell>): real {
    if vs == [] then 0.0
    else SumNumbers(vs[..|vs| - 1]) + (if vs[|vs| - 1].Num? then vs[|vs| - 1].x else 0.0)
  }

  /** Summing is additive over concatenation. */
  lemma {:induction false} SumNumbersAppend(a: seq<Cell>, b: seq<Cell>)
    ensures SumNumbers(a + b) == SumNumbers(a) + SumNumbers(b)
    decreases |b|
  {
    if b == [] {
      assert a + b == a;
    } else {
      var b' := b[..|b| - 1];
      assert (a + b)[..|a + b| - 1] == a + b';
      assert (a + b)[|a + b| - 1] == b[|b| - 1];
      SumNumbersAppend(a, b');
    }
  }

  /** Cells without numbers sum to 0, and non-negative numbers to a
      non-negative total. */
  lemma {:induction false} SumNumbersBounds(vs: seq<Cell>)
    ensures (forall i :: 0 <= i < |vs| ==> !vs[i].Num?) ==> SumNumbers(vs) == 0.0
    ensures (forall i :: 0 <= i < |vs| && vs[i].Num? ==> vs[i].x >= 0.0) ==> SumNumbers(vs) >= 0.0
  {
    if vs != [] {
      var p := vs[..|vs| - 1];
      SumNumbersBounds(p);
      assert forall i :: 0 <= i < |p| ==> p[i] == vs[i];
    }
  }

  /** FirstNonNull of a sequence extended at the back. */
  lemma {:induction false} FirstNonNullSnoc(vs: seq<Cell>, v: Cell)
    ensures FirstNonNull(vs + [v]) == if FirstNonNull(vs) != Null then FirstNonNull(vs) else v
  {
    if vs == [] {
      assert [v][1..] == [];
    } else {
      assert (vs + [v])[0] == vs[0];
      assert (vs + [v])[1..] == vs[1..] + [v];
      FirstNonNullSnoc(vs[1..], v);
    }
  }

  /** GroupBy.first of a group: missing exactly when every row of the key is
      missing there, and otherwise the cell of the first row of the key that
      is not missing. */
  lemma {:induction false} FirstOfGroup(ec: seq<Cell>, vc: seq<Cell>, k: Cell)
    requires |ec| == |vc|
    ensures var f := FirstNonNull(Group(ec, vc, k));
      && (f == Null <==> forall i :: 0 <= i < |ec| && ec[i] == k ==> vc[i] == Null)
      && (f != Null ==> exists i :: && 0 <= i < |ec| && ec[i] == k && vc[i] == f
                                    && forall j :: 0 <= j < i && ec[j] == k ==> vc[j] == Null)
  {
    if ec != [] {
      var n := |ec| - 1;
      var ep, vp := ec[..n], vc[..n];
      FirstOfGroup(ep, vp, k);
      var gp := Group(ep, vp, k);
      var fp := FirstNonNull(gp);
      var f := FirstNonNull(Group(ec, vc, k));
      assert forall i :: 0 <= i < n ==> ep[i] == ec[i] && vp[i] == vc[i];
      if ec[n] == k {
        FirstNonNullSnoc(gp, vc[n]);
      } else {
        assert Group(ec, vc, k) == gp;
      }
      if fp != Null {
        var i :| && 0 <= i < n && ep[i] == k && vp[i] == fp
                 && forall j :: 0 <= j < i && ep[j] == k ==> vp[j] == Null;
        assert f == fp;
        assert ec[i] == k && vc[i] == f;
      } else if f != Null {
        assert ec[n] == k && vc[n] == f;
      }
    }
  }

  /** One row of the summary table: `no`, `employeename`, `jobposition`,
      `dwork`, `wtnormal`, `rkppic`. */
  datatype SummaryRow = SummaryRow(
    no: nat, employee: Cell, jobposition: Cell, dwork: nat, wtnormal: real, rkppic: real)

  /** The cells of the first column labelled l. */
  function ColumnOf(t: Table, l: Label): (c: seq<Cell>)
    requires t.WellFormed() && l in t.header
    ensures |c| == |t.rows|
  {
    Column(t, IndexOf(t.header, l))
  }

  /** The conditions under which calculate_summary raises on cleaned frames:
      the attendance group-by needs `employeename`, `jobposition` and `shift`
      once each (a missing one is a KeyError, a repeated one a grouper or
      column-count error), and the overtime group-by, run only when
      `wtnormal` or `duration` is present, needs `employeename` once and each
      summed column at most once. */
  predicate SummaryRaises(a: Table, o: Table) {
    || Count(a.header, Employee) != 1
    || Count(a.header, JobPosition) != 1
    || Count(a.header, Shift) != 1
    || ((WtNormal in o.header || Duration in o.header)
        && (Count(o.header, Employee) != 1 || Count(o.header, WtNormal) > 1 || Count(o.header, Duration) > 1))
  }

  predicate SummaryReady(a: Table, o: Table) {
    a.WellFormed() && o.WellFormed() && !SummaryRaises(a, o)
  }

  /** The overtime `sum` of column l for employee k, after the left merge
      and fillna(0): 0 when the column or the employee is absent. */
  function OvertimeTotal(o: Table, l: Label, k: Cell): real
    requires o.WellFormed()
  {
    if l in o.header && Employee in o.header then SumNumbers(Group(ColumnOf(o, Employee), ColumnOf(o, l), k))
    else 0.0
  }

  /** The summary row numbered n for the attendance group with key k. */
  function RowFor(a: Table, o: Table, k: Cell, n: nat): SummaryRow
    requires SummaryReady(a, o)
  {
    var e := ColumnOf(a, Employee);
    SummaryRow(
      n, k,
      FillNa(FirstNonNull(Group(e, ColumnOf(a, JobPosition), k))),
      WorkDays(Group(e, ColumnOf(a, Shift), k)),
      OvertimeTotal(o, WtNormal, k),
      OvertimeTotal(o, Duration, k))
  }

  /** The summary of cleaned frames: one row per attendance group, in key
      order, numbered from 1. */
  function SummaryOf(a: Table, o: Table): (rows: seq<SummaryRow>)
    requires SummaryReady(a, o)
    ensures var ks := GroupKeys(ColumnOf(a, Employee));
      && |rows| == |ks|
      && forall i :: 0 <= i < |rows| ==> rows[i].no == i + 1 && rows[i].employee == ks[i]
  {
    var ks := GroupKeys(ColumnOf(a, Employee));
    seq(|ks|, i requires 0 <= i < |ks| => RowFor(a, o, ks[i], i + 1))
  }

  /** calculate_summary as a value; None stands for every exception it
      catches, and otherwise the result is the summary of the cleaned
      frames. */
  function Summary(lib: Library, a0: Table, o0: Table): (r: Option<seq<SummaryRow>>)
    requires a0.WellFormed() && o0.WellFormed()
    ensures r.Some? <==>
              BothClean(lib, a0, o0) && !SummaryRaises(CleanTable(lib, a0).value, CleanTable(lib, o0).value)
    ensures r.Some? ==> r.value == SummaryOf(CleanTable(lib, a0).value, CleanTable(lib, o0).value)
  {
    match CleanTable(lib, a0)
    case Raised => None
    case Ok(a) =>
      match CleanTable(lib, o0)
      case Raised => None
      case Ok(o) =>
        if SummaryRaises(a, o) then None else Some(SummaryOf(a, o))
  }

  /** The summary has one row per distinct non-missing attendance employee,
      in ascending order, numbered 1..N; an employee who appears only in
      overtime gets no row. */
  lemma SummaryEmployees(a: Table, o: Table)
    requires SummaryReady(a, o)
    ensures var e := ColumnOf(a, Employee);
      var rows := SummaryOf(a, o);
      && (forall i :: 0 <= i < |rows| ==> rows[i].no == i + 1)
      && (forall i, j :: 0 <= i < j < |rows| ==> CellLess(rows[i].employee, rows[j].employee))
      && (forall c :: (exists i :: 0 <= i < |rows| && rows[i].employee == c) <==> c in e && c != Null)
  {
    var ks := GroupKeys(ColumnOf(a, Employee));
    var rows := SummaryOf(a, o);
    forall c ensures (exists i :: 0 <= i < |rows| && rows[i].employee == c) <==> c in ks {
      if c in ks {
        var i :| 0 <= i < |ks| && ks[i] == c;
        assert rows[i].employee == c;
      }
    }
  }

  /** `jobposition` is the first non-missing job position among the
      employee's attendance rows, or 0 when all of them are missing. */
  lemma SummaryJobPosition(a: Table, o: Table, x: nat)
    requires SummaryReady(a, o) && x < |SummaryOf(a, o)|
    ensures var e, jp := ColumnOf(a, Employee), ColumnOf(a, JobPosition);
      var r := SummaryOf(a, o)[x];
      && ((forall i :: 0 <= i < |e| && e[i] == r.employee ==> jp[i] == Null) ==> r.jobposition == Num(0.0))
      && ((exists i :: 0 <= i < |e| && e[i] == r.employee && jp[i] != Null) ==>
            exists i :: && 0 <= i < |e| && e[i] == r.employee && jp[i] != Null && jp[i] == r.jobposition
                        && forall j :: 0 <= j < i && e[j] == r.employee ==> jp[j] == Null)
  {
    FirstOfGroup(ColumnOf(a, Employee), ColumnOf(a, JobPosition), SummaryOf(a, o)[x].employee);
  }

  /** `dwork` counts the work shifts among the employee's attendance rows: it
      is the number of the employee's rows with a work shift, at most the
      number of the employee's rows, and 0 exactly when none of them is a
      work shift. */
  lemma SummaryWorkDays(a: Table, o: Table, x: nat)
    requires SummaryReady(a, o) && x < |SummaryOf(a, o)|
    ensures var e, sh := ColumnOf(a, Employee), ColumnOf(a, Shift);
      var r := SummaryOf(a, o)[x];
      && r.dwork == WorkDays(Group(e, sh, r.employee))
      && r.dwork == |WorkIndices(e, sh, r.employee, |e|)|
      && r.dwork <= |KeyIndices(e, r.employee, |e|)|
      && (r.dwork == 0 <==> forall i :: 0 <= i < |e| && e[i] == r.employee ==> !IsWorkShift(sh[i]))
  {
    var e, sh := ColumnOf(a, Employee), ColumnOf(a, Shift);
    var r := SummaryOf(a, o)[x];
    assert r == RowFor(a, o, r.employee, x + 1);
    GroupWorkDays(e, sh, r.employee);
    GroupWorkDaysCount(e, sh, r.employee);
    GroupSize(e, sh, r.employee);
  }

  /** The work days of a group are 0 exactly when no row of its key has a
      work shift. */
  lemma GroupWorkDays(e: seq<Cell>, sh: seq<Cell>, k: Cell)
    requires |e| == |sh|
    ensures WorkDays(Group(e, sh, k)) == 0 <==> forall i :: 0 <= i < |e| && e[i] == k ==> !IsWorkShift(sh[i])
  {
    var g := Group(e, sh, k);
    WorkDaysNone(g);
    forall v ensures v in g <==> exists i :: 0 <= i < |e| && e[i] == k && sh[i] == v {
      GroupMembers(e, sh, k, v);
    }
    if forall i :: 0 <= i < |e| && e[i] == k ==> !IsWorkShift(sh[i]) {
      forall j | 0 <= j < |g| ensures !IsWorkShift(g[j]) {
        assert g[j] in g;
      }
    }
    if WorkDays(g) == 0 {
      forall i | 0 <= i < |e| && e[i] == k ensures !IsWorkShift(sh[i]) {
        assert sh[i] in g;
        var j :| 0 <= j < |g| && g[j] == sh[i];
      }
    }
  }

  /** The indices below n of the rows with key k and a work shift. */
  function WorkIndices(e: seq<Cell>, sh: seq<Cell>, k: Cell, n: nat): set<nat>
    requires n <= |e| == |sh|
  {
    set i: nat | i < n && e[i] == k && IsWorkShift(sh[i])
  }

  lemma WorkIndicesStep(e: seq<Cell>, sh: seq<Cell>, k: Cell, n: nat)
    requires n < |e| == |sh|
    ensures n !in WorkIndices(e, sh, k, n)
    ensures WorkIndices(e, sh, k, n + 1)
         == WorkIndices(e, sh, k, n) + (if e[n] == k && IsWorkShift(sh[n]) then {n} else {})
  {
  }

  lemma WorkIndicesPrefix(e: seq<Cell>, sh: seq<Cell>, k: Cell, n: nat)
    requires n <= |e| == |sh|
    ensures WorkIndices(e[..n], sh[..n], k, n) == WorkIndices(e, sh, k, n)
  {
    assert forall i :: 0 <= i < n ==> e[..n][i] == e[i] && sh[..n][i] == sh[i];
  }

  /** The work days of a group are the number of rows with its key whose
      shift is a work shift. */
  lemma {:induction false} GroupWorkDaysCount(e: seq<Cell>, sh: seq<Cell>, k: Cell)
    requires |e| == |sh|
    ensures WorkDays(Group(e, sh, k)) == |WorkIndices(e, sh, k, |e|)|
  {
    if e != [] {
      var n := |e| - 1;
      GroupWorkDaysCount(e[..n], sh[..n], k);
      WorkIndicesPrefix(e, sh, k, n);
      WorkIndicesStep(e, sh, k, n);
      var g := Group(e[..n], sh[..n], k);
      var t := if e[n] == k then [sh[n]] else [];
      assert Group(e, sh, k) == g + t;
      WorkDaysAppend(g, t);
      assert t != [] ==> t[..0] == [];
    }
  }

  /** `wtnormal` and `rkppic` are the sums of the employee's overtime
      `wtnormal` and `duration`, 0 when the column is absent, and 0 when
      the employee has no overtime row. */
  lemma SummaryOvertime(a: Table, o: Table, x: nat)
    requires SummaryReady(a, o) && x < |SummaryOf(a, o)|
    ensures var r := SummaryOf(a, o)[x];
      && (WtNormal in o.header ==>
            r.wtnormal == SumNumbers(Group(ColumnOf(o, Employee), ColumnOf(o, WtNormal), r.employee)))
      && (Duration in o.header ==>
            r.rkppic == SumNumbers(Group(ColumnOf(o, Employee), ColumnOf(o, Duration), r.employee)))
      && (WtNormal !in o.header ==> r.wtnormal == 0.0)
      && (Duration !in o.header ==> r.rkppic == 0.0)
      && ((Employee !in o.header || r.employee !in ColumnOf(o, Employee)) ==> r.wtnormal == 0.0 && r.rkppic == 0.0)
  {
    var k := SummaryOf(a, o)[x].employee;
    if Employee in o.header && k !in ColumnOf(o, Employee) {
      if WtNormal in o.header {
        GroupEmpty(ColumnOf(o, Employee), ColumnOf(o, WtNormal), k);
      }
      if Duration in o.header {
        GroupEmpty(ColumnOf(o, Employee), ColumnOf(o, Duration), k);
      }
    }
  }

  /** calculate_summary(attendance_df, overtime_df): both caller frames are
      cleaned in place, then the summary rows are built. */
  method CalculateSummary(lib: Library, att: Frame, ot: Frame) returns (r: Option<seq<SummaryRow>>)
    requires att.Valid() && ot.Valid()
    modifies att, ot
    ensures r == Summary(lib, old(att.Snapshot()), old(ot.Snapshot()))
    ensures BothClean(lib, old(att.Snapshot()), old(ot.Snapshot())) ==>
              (att.Snapshot() == CleanTable(lib, old(att.Snapshot())).value
               && ot.Snapshot() == CleanTable(lib, old(ot.Snapshot())).value)
  {
    var ok := CleanBoth(lib, att, ot);
    if !ok {
      return None;
    }
    var a, o := att.Snapshot(), ot.Snapshot();
    if SummaryRaises(a, o) {
      return None;
    }
    r := Some(SummaryOf(a, o));
  }
}

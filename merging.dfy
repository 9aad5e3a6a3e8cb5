/** merge_data (app.py:113-139): both frames are cleaned again, then
    attendance is left-joined to overtime on (`employeename`, `date`) and
    `rkppic` is filled from `duration`, or 0. */
module Merging {
  import opened Text
  import opened Frames
  import opened Cleaning
  import opened Joins

  /** merge_data as a value; None stands for every exception it catches:
      a clean that raises, a join key missing or duplicated on either side,
      or a duplicated `duration` in the join. */
  function Merge(lib: Library, a0: Table, o0: Table): (r: Option<Table>)
    requires a0.WellFormed() && o0.WellFormed()
    ensures r.Some? <==>
              && BothClean(lib, a0, o0)
              && Joinable(CleanTable(lib, a0).value, CleanTable(lib, o0).value)
              && Count(MergedHeader(CleanTable(lib, a0).value, CleanTable(lib, o0).value), Duration) <= 1
  {
    match CleanTable(lib, a0)
    case Raised => None
    case Ok(a) =>
      match CleanTable(lib, o0)
      case Raised => None
      case Ok(o) =>
        if !Joinable(a, o) then None else WithRkppic(Joined(a, o))
  }

  /** With keys present once on each side, no `duration` in attendance and at
      most one in overtime, merge_data returns a frame. */
  lemma MergeSucceeds(lib: Library, a0: Table, o0: Table)
    requires BothClean(lib, a0, o0)
    requires Joinable(CleanTable(lib, a0).value, CleanTable(lib, o0).value)
    requires Duration !in CleanTable(lib, a0).value.header
    requires Count(CleanTable(lib, o0).value.header, Duration) <= 1
    ensures Merge(lib, a0, o0).Some?
  {
    DurationColumn(CleanTable(lib, a0).value, CleanTable(lib, o0).value);
  }

  /** The merged rows are the pairs of the left join: each cleaned attendance
      row once for every overtime row with the same key, or once unmatched,
      in attendance order; with unique overtime keys there is one row per
      attendance row. */
  lemma MergeRows(lib: Library, a0: Table, o0: Table)
    requires a0.WellFormed() && o0.WellFormed() && Merge(lib, a0, o0).Some?
    ensures var a := CleanTable(lib, a0).value;
      var o := CleanTable(lib, o0).value;
      var ps := Pairs(a, o);
      && |Merge(lib, a0, o0).value.rows| == |ps|
      && Merge(lib, a0, o0).value.header
         == (if Rkppic in MergedHeader(a, o) then MergedHeader(a, o) else MergedHeader(a, o) + [Rkppic])
      && InJoinOrder(ps)
      && (forall p :: p in ps <==> Belongs(a, o, KeysOf(a, o), p))
      && (UniqueRightKeys(o, KeysOf(a, o)) ==> |ps| == |a0.rows|)
  {
    var a := CleanTable(lib, a0).value;
    var o := CleanTable(lib, o0).value;
    var k := KeysOf(a, o);
    var m := Joined(a, o);
    RkppicCells(m);
    PairsOrder(a, o, k, |a.rows|);
    forall p ensures p in Pairs(a, o) <==> Belongs(a, o, k, p) {
      PairsExact(a, o, k, |a.rows|, p);
    }
    if UniqueRightKeys(o, k) {
      PairsLength(a, o, k, |a.rows|);
    }
  }

  /** A merged row starts with the cleaned attendance row of its pair: every
      attendance column other than `rkppic` is carried as it is. */
  lemma MergeKeepsAttendance(lib: Library, a0: Table, o0: Table, x: nat, j: nat)
    requires a0.WellFormed() && o0.WellFormed() && Merge(lib, a0, o0).Some?
    requires x < |Pairs(CleanTable(lib, a0).value, CleanTable(lib, o0).value)|
    requires j < |a0.header| && CleanTable(lib, a0).value.header[j] != Rkppic
    ensures var a := CleanTable(lib, a0).value;
      var p := Pairs(a, CleanTable(lib, o0).value)[x];
      var r := Merge(lib, a0, o0).value;
      && p.left < |a.rows| && x < |r.rows| && j < |r.rows[x]|
      && r.rows[x][j] == a.rows[p.left][j]
  {
    var a := CleanTable(lib, a0).value;
    var o := CleanTable(lib, o0).value;
    var m := Joined(a, o);
    assert m.header == MergedHeader(a, o);
    JoinedLeftCell(a, o, x, j);
    MergedLeftLabel(a, o, j);
    RkppicCells(m);
  }

  /** Cell j < |a.header| of join row x is the left cell of its pair. */
  lemma JoinedLeftCell(a: Table, o: Table, x: nat, j: nat)
    requires Joinable(a, o) && x < |Pairs(a, o)| && j < |a.header|
    ensures var p := Pairs(a, o)[x];
      && p.left < |a.rows| && j < |Joined(a, o).rows[x]|
      && Joined(a, o).rows[x][j] == a.rows[p.left][j]
  {
    JoinedRowContent(a, o, x);
  }

  /** A cleaned left label that is not `rkppic` is not `rkppic` in the join. */
  lemma MergedLeftLabel(a: Table, o: Table, j: nat)
    requires j < |a.header| && a.header[j] != Rkppic
    ensures j < |MergedHeader(a, o)| && MergedHeader(a, o)[j] != Rkppic
  {
    MergedHeaderLabels(a, o);
    SuffixedEmpty(a.header[j]);
    if a.header[j].Other? {
      assert Rkppic.text[0] == 'r';
    }
  }

  /** With no `duration` in attendance and at most one in overtime, every
      `rkppic` cell of a merged row holds the overtime `duration` of its
      matching row with missing values as 0, and 0 when the row is unmatched. */
  lemma MergeRkppicCarried(lib: Library, a0: Table, o0: Table, x: nat)
    requires BothClean(lib, a0, o0)
    requires Joinable(CleanTable(lib, a0).value, CleanTable(lib, o0).value)
    requires Duration !in CleanTable(lib, a0).value.header
    requires Duration in CleanTable(lib, o0).value.header
    requires Count(CleanTable(lib, o0).value.header, Duration) <= 1
    requires x < |Pairs(CleanTable(lib, a0).value, CleanTable(lib, o0).value)|
    ensures Merge(lib, a0, o0).Some?
    ensures var o := CleanTable(lib, o0).value;
      var p := Pairs(CleanTable(lib, a0).value, o)[x];
      var r := Merge(lib, a0, o0).value;
      && Rkppic in r.header
      && forall j :: 0 <= j < |r.header| && r.header[j] == Rkppic ==>
           r.rows[x][j] == FillNa(if p.Matched? then o.rows[p.right][IndexOf(o.header, Duration)] else Null)
  {
    JoinRkppicCarried(CleanTable(lib, a0).value, CleanTable(lib, o0).value, x);
    RkppicCells(Joined(CleanTable(lib, a0).value, CleanTable(lib, o0).value));
  }

  /** With `duration` on neither side, `rkppic` is 0 on every merged row. */
  lemma MergeRkppicZero(lib: Library, a0: Table, o0: Table, x: nat)
    requires BothClean(lib, a0, o0)
    requires Joinable(CleanTable(lib, a0).value, CleanTable(lib, o0).value)
    requires Duration !in CleanTable(lib, a0).value.header
    requires Duration !in CleanTable(lib, o0).value.header
    requires x < |Pairs(CleanTable(lib, a0).value, CleanTable(lib, o0).value)|
    ensures Merge(lib, a0, o0).Some?
    ensures var r := Merge(lib, a0, o0).value;
      && Rkppic in r.header
      && forall j :: 0 <= j < |r.header| && r.header[j] == Rkppic ==> r.rows[x][j] == Num(0.0)
  {
    JoinRkppicZero(CleanTable(lib, a0).value, CleanTable(lib, o0).value, x);
    RkppicCells(Joined(CleanTable(lib, a0).value, CleanTable(lib, o0).value));
  }

  /** The join compares cleaned keys: two text employee names match exactly
      when they agree after lower-casing and trimming, so "John Doe" matches
      " john doe". */
  lemma MergeKeysIgnoreCase(lib: Library, a0: Table, o0: Table, i: nat, r: nat, s: string, u: string)
    requires BothClean(lib, a0, o0)
    requires Joinable(CleanTable(lib, a0).value, CleanTable(lib, o0).value)
    requires i < |a0.rows| && r < |o0.rows|
    requires a0.rows[i][KeysOf(CleanTable(lib, a0).value, CleanTable(lib, o0).value).le] == Str(s)
    requires o0.rows[r][KeysOf(CleanTable(lib, a0).value, CleanTable(lib, o0).value).re] == Str(u)
    ensures var a := CleanTable(lib, a0).value;
      var o := CleanTable(lib, o0).value;
      var k := KeysOf(a, o);
      KeyMatch(a, o, k, i, r) <==> Strip(Lower(s)) == Strip(Lower(u)) && a.rows[i][k.ld] == o.rows[r][k.rd]
  {
    var a := CleanTable(lib, a0).value;
    var o := CleanTable(lib, o0).value;
    var k := KeysOf(a, o);
    assert IsObjectColumn(a0, k.le) && IsObjectColumn(o0, k.re);
    CleanCellMatches(lib, s, u);
  }

  /** `merged_df['rkppic'] = ...` on the join; false when it raises. */
  method AssignRkppic(merged: Frame) returns (ok: bool)
    requires merged.Valid()
    modifies merged
    ensures ok <==> WithRkppic(old(merged.Snapshot())).Some?
    ensures ok ==> merged.Valid() && merged.Snapshot() == WithRkppic(old(merged.Snapshot())).value
  {
    var m := merged.Snapshot();
    if Count(m.header, Duration) > 1 {
      return false;
    }
    if Duration in m.header {
      merged.AssignColumn(Rkppic, FillNaColumn(Column(m, IndexOf(m.header, Duration))));
    } else {
      merged.AssignColumn(Rkppic, Zeros(|m.rows|));
    }
    ok := true;
  }

  /** merge_data(attendance_df, overtime_df): both caller frames are cleaned
      in place, the join is a new frame, and `rkppic` is assigned into it. */
  method MergeData(lib: Library, att: Frame, ot: Frame) returns (r: Option<Frame>)
    requires att.Valid() && ot.Valid()
    modifies att, ot
    ensures r.Some? <==> Merge(lib, old(att.Snapshot()), old(ot.Snapshot())).Some?
    ensures r.Some? ==>
              (fresh(r.value) && r.value.Valid()
               && r.value.Snapshot() == Merge(lib, old(att.Snapshot()), old(ot.Snapshot())).value)
    ensures BothClean(lib, old(att.Snapshot()), old(ot.Snapshot())) ==>
              (att.Snapshot() == CleanTable(lib, old(att.Snapshot())).value
               && ot.Snapshot() == CleanTable(lib, old(ot.Snapshot())).value)
  {
    var ok := CleanBoth(lib, att, ot);
    if !ok {
      return None;
    }
    var a, o := att.Snapshot(), ot.Snapshot();
    if !Joinable(a, o) {
      return None;
    }
    var merged := new Frame(Joined(a, o));
    ok := AssignRkppic(merged);
    if !ok {
      return None;
    }
    r := Some(merged);
  }
}

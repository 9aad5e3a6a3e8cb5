/** process_attendance_data and process_overtime_data (app.py:31-111):
    cleaning, alias renaming, the required-column check, date coercion with
    the rows whose date fails dropped, and numeric coercion of the overtime
    amounts. */
module Processing {
  import opened Text
  import opened Frames
  import opened Cleaning

  /** The header aliases of the attendance sheet. */
  const AttendanceAliases: map<Label, Label> := map[
    Name("employee") := Name("employeename"),
    Name("name") := Name("employeename"),
    Name("empname") := Name("employeename"),
    Name("position") := Name("jobposition"),
    Name("job") := Name("jobposition"),
    Name("workdate") := Name("date"),
    Name("tanggal") := Name("date")]

  /** The header aliases of the overtime sheet. */
  const OvertimeAliases: map<Label, Label> := map[
    Name("employee") := Name("employeename"),
    Name("name") := Name("employeename"),
    Name("empname") := Name("employeename"),
    Name("workdate") := Name("date"),
    Name("tanggal") := Name("date"),
    Name("durasi") := Name("duration"),
    Name("wt") := Name("wtnormal"),
    Name("normal") := Name("wtnormal")]

  const AttendanceRequired: seq<Label> := [Name("employeename"), Name("date"), Name("shift")]
  const OvertimeRequired: seq<Label> := [Name("employeename"), Name("date")]

  /** `column_mapping.get(col, col)`. */
  function RenameLabel(aliases: map<Label, Label>, l: Label): Label {
    if l in aliases then aliases[l] else l
  }

  /** `[column_mapping.get(col, col) for col in df.columns]`: the header keeps
      its length and order, an alias is replaced by its canonical name and
      every other label is kept. */
  function RenameHeader(aliases: map<Label, Label>, h: seq<Label>): (r: seq<Label>)
    ensures |r| == |h|
    ensures forall j :: 0 <= j < |h| && h[j] in aliases ==> r[j] == aliases[h[j]]
    ensures forall j :: 0 <= j < |h| && h[j] !in aliases ==> r[j] == h[j]
  {
    seq(|h|, j requires 0 <= j < |h| => RenameLabel(aliases, h[j]))
  }

  /** No canonical name is itself an alias. */
  predicate Canonical(aliases: map<Label, Label>) {
    forall l :: l in aliases ==> aliases[l] !in aliases
  }

  lemma AttendanceAliasesCanonical()
    ensures Canonical(AttendanceAliases)
  {
  }

  lemma OvertimeAliasesCanonical()
    ensures Canonical(OvertimeAliases)
  {
  }

  /** With canonical aliases, a renamed header holds no alias any more, and
      renaming it again changes nothing. */
  lemma RenameHeaderIdempotent(aliases: map<Label, Label>, h: seq<Label>)
    requires Canonical(aliases)
    ensures forall j :: 0 <= j < |h| ==> RenameHeader(aliases, h)[j] !in aliases
    ensures RenameHeader(aliases, RenameHeader(aliases, h)) == RenameHeader(aliases, h)
  {
  }

  /** The canonical names are clean, so renaming keeps a clean header clean. */
  lemma RenameKeepsClean(aliases: map<Label, Label>, h: seq<Label>)
    requires forall l :: l in aliases ==> IsCleanLabel(aliases[l])
    requires forall j :: 0 <= j < |h| ==> IsCleanLabel(h[j])
    ensures forall j :: 0 <= j < |h| ==> IsCleanLabel(RenameHeader(aliases, h)[j])
  {
  }

  /** `xs` is `ys` with some elements left out, the rest in their order. */
  predicate IsSubsequence<T(==)>(xs: seq<T>, ys: seq<T>) {
    if xs == [] then true
    else if ys == [] then false
    else if xs[0] == ys[0] then IsSubsequence(xs[1..], ys[1..])
    else IsSubsequence(xs, ys[1..])
  }

  /** `[col for col in required_cols if col not in df.columns]`: exactly the
      required labels the header lacks, in the order they are required. */
  function MissingColumns(h: seq<Label>, required: seq<Label>): (r: seq<Label>)
    ensures forall l :: l in r <==> l in required && l !in h
    ensures IsSubsequence(r, required)
  {
    if required == [] then []
    else if required[0] !in h then [required[0]] + MissingColumns(h, required[1..])
    else MissingColumns(h, required[1..])
  }

  lemma AttendanceMissing(h: seq<Label>)
    ensures MissingColumns(h, AttendanceRequired) != [] <==>
              Name("employeename") !in h || Name("date") !in h || Name("shift") !in h
  {
    var r := MissingColumns(h, AttendanceRequired);
    if Name("employeename") !in h { assert Name("employeename") in r; }
    if Name("date") !in h { assert Name("date") in r; }
    if Name("shift") !in h { assert Name("shift") in r; }
    if r != [] { assert r[0] in r; }
  }

  lemma OvertimeMissing(h: seq<Label>)
    ensures MissingColumns(h, OvertimeRequired) != [] <==>
              Name("employeename") !in h || Name("date") !in h
  {
    var r := MissingColumns(h, OvertimeRequired);
    if Name("employeename") !in h { assert Name("employeename") in r; }
    if Name("date") !in h { assert Name("date") in r; }
    if r != [] { assert r[0] in r; }
  }

  /** `pd.to_datetime(column, errors='coerce')` at element k: missing values
      stay missing, timestamps stay as they are, anything else is parsed by
      the library and becomes missing when it does not parse. */
  function ToDatetime(lib: Library, col: seq<Cell>, k: nat): (r: Option<int>)
    requires k < |col|
    ensures col[k] == Null ==> r == None
    ensures col[k].Date? ==> r == Some(col[k].t)
  {
    match col[k]
    case Null => None
    case Date(d) => Some(d)
    case _ => lib.parseDate(col, k)
  }

  function DateCell(d: Option<int>): (c: Cell)
    ensures c.Date? || c == Null
    ensures c == Null <==> d == None
  {
    if d.Some? then Date(d.value) else Null
  }

  /** `pd.to_datetime(column, errors='coerce')` as the new column. */
  function ParsedDates(lib: Library, col: seq<Cell>): (r: seq<Cell>)
    ensures |r| == |col|
    ensures forall i :: 0 <= i < |col| ==> r[i] == DateCell(ToDatetime(lib, col, i))
  {
    seq(|col|, i requires 0 <= i < |col| => DateCell(ToDatetime(lib, col, i)))
  }

  /** `df['date'] = pd.to_datetime(df['date'], errors='coerce')` when one
      column is labelled `date`: that column is replaced by timestamps or
      missing values, nothing else changes. */
  function ConvertDates(lib: Library, t: Table, j: nat): (r: Table)
    requires t.WellFormed() && j < |t.header| && t.header[j] == Name("date")
    requires Count(t.header, Name("date")) == 1
    ensures r.WellFormed() && r.header == t.header && |r.rows| == |t.rows|
    ensures forall i :: 0 <= i < |t.rows| ==> r.rows[i][j] == DateCell(ToDatetime(lib, Column(t, j), i))
    ensures forall i, k :: 0 <= i < |t.rows| && 0 <= k < |t.header| && k != j ==> r.rows[i][k] == t.rows[i][k]
  {
    forall k | 0 <= k < |t.header| && t.header[k] == Name("date") ensures k == j {
      CountOne(t.header, Name("date"), j, k);
    }
    SetColumn(t, Name("date"), ParsedDates(lib, Column(t, j)))
  }

  /** The rows among the first n whose cell j is not missing, by index. */
  function KeptIndices(rows: seq<seq<Cell>>, j: nat, n: nat): (idx: seq<nat>)
    requires n <= |rows| && forall i :: 0 <= i < |rows| ==> j < |rows[i]|
    ensures forall m :: 0 <= m < |idx| ==> idx[m] < n
    ensures forall m, m' :: 0 <= m < m' < |idx| ==> idx[m] < idx[m']
    ensures forall i :: 0 <= i < n ==> (i in idx <==> rows[i][j] != Null)
  {
    if n == 0 then []
    else KeptIndices(rows, j, n - 1) + (if rows[n - 1][j] != Null then [n - 1] else [])
  }

  /** `df.dropna(subset=['date'])`: exactly the rows whose cell j is present,
      in their original order. */
  function DropNull(t: Table, j: nat): (r: Table)
    requires t.WellFormed() && j < |t.header|
    ensures r.WellFormed() && r.header == t.header
    ensures var idx := KeptIndices(t.rows, j, |t.rows|);
              |r.rows| == |idx| && forall m :: 0 <= m < |idx| ==> r.rows[m] == t.rows[idx[m]]
    ensures forall i :: 0 <= i < |r.rows| ==> r.rows[i][j] != Null
  {
    var idx := KeptIndices(t.rows, j, |t.rows|);
    Table(t.header, seq(|idx|, m requires 0 <= m < |idx| => t.rows[idx[m]]))
  }

  /** Dropping the missing dates keeps every row when none is missing. */
  lemma DropNullKeepsAll(t: Table, j: nat)
    requires t.WellFormed() && j < |t.header|
    requires forall i :: 0 <= i < |t.rows| ==> t.rows[i][j] != Null
    ensures DropNull(t, j) == t
  {
    KeptAll(t.rows, j, |t.rows|);
  }

  lemma {:induction false} KeptAll(rows: seq<seq<Cell>>, j: nat, n: nat)
    requires n <= |rows| && forall i :: 0 <= i < |rows| ==> j < |rows[i]|
    requires forall i :: 0 <= i < n ==> rows[i][j] != Null
    ensures KeptIndices(rows, j, n) == seq(n, i => i)
  {
    if n != 0 {
      KeptAll(rows, j, n - 1);
    }
  }

  /** `pd.to_numeric(errors='coerce').fillna(0)` on one cell: numbers are kept,
      missing becomes 0, anything else is parsed and becomes 0 when it does
      not parse. */
  function CoerceCell(lib: Library, c: Cell): (r: Cell)
    ensures r.Num?
    ensures c.Num? ==> r == c
    ensures c == Null ==> r == Num(0.0)
    ensures !c.Num? && c != Null ==> r == Num(if lib.parseNumber(c).Some? then lib.parseNumber(c).value else 0.0)
  {
    match c
    case Num(_) => c
    case Null => Num(0.0)
    case _ => Num(if lib.parseNumber(c).Some? then lib.parseNumber(c).value else 0.0)
  }

  function Coerced(lib: Library, col: seq<Cell>): (r: seq<Cell>)
    ensures |r| == |col|
    ensures forall i :: 0 <= i < |col| ==> r[i] == CoerceCell(lib, col[i])
  {
    seq(|col|, i requires 0 <= i < |col| => CoerceCell(lib, col[i]))
  }

  /** `if l in df.columns: df[l] = pd.to_numeric(df[l], errors='coerce').fillna(0)`:
      an absent column adds nothing, a single one is coerced cell by cell,
      and a duplicated one makes to_numeric raise. */
  function CoerceColumn(lib: Library, t: Table, l: Label): (r: Result<Table>)
    requires t.WellFormed()
    ensures r.Raised? <==> Count(t.header, l) > 1
    ensures l !in t.header ==> r == Ok(t)
    ensures r.Ok? ==> r.value.WellFormed() && r.value.header == t.header && |r.value.rows| == |t.rows|
    ensures r.Ok? ==> forall i, k :: 0 <= i < |t.rows| && 0 <= k < |t.header| ==>
              r.value.rows[i][k] == if t.header[k] == l then CoerceCell(lib, t.rows[i][k]) else t.rows[i][k]
  {
    if l !in t.header then Ok(t)
    else if Count(t.header, l) > 1 then Raised
    else
      var j := IndexOf(t.header, l);
      forall k | 0 <= k < |t.header| && t.header[k] == l ensures k == j {
        CountOne(t.header, l, j, k);
      }
      Ok(SetColumn(t, l, Coerced(lib, Column(t, j))))
  }

  /** The cleaned table with its header renamed through the aliases. */
  function Renamed(lib: Library, t: Table, aliases: map<Label, Label>): (r: Table)
    requires t.WellFormed() && !RaisesOnClean(t)
    ensures r.WellFormed() && |r.rows| == |t.rows|
    ensures r.header == RenameHeader(aliases, CleanHeader(t.header))
    ensures r.rows == CleanTable(lib, t).value.rows
  {
    var c := CleanTable(lib, t).value;
    Table(RenameHeader(aliases, c.header), c.rows)
  }

  /** The date step: a duplicated `date` label makes to_datetime raise, which
      is caught and reported as None; otherwise the dates are converted and
      the rows without one dropped. */
  function DateStep(lib: Library, t: Table): (r: Option<Table>)
    requires t.WellFormed() && Name("date") in t.header
    ensures r.None? <==> Count(t.header, Name("date")) > 1
    ensures r.Some? ==> r.value.WellFormed() && r.value.header == t.header
  {
    if Count(t.header, Name("date")) > 1 then None
    else
      var j := IndexOf(t.header, Name("date"));
      Some(DropNull(ConvertDates(lib, t, j), j))
  }

  /** What a processor leaves in the caller's frame when it does not raise:
      the cleaned and renamed table, with its dates converted when it got as
      far as that. */
  function LeftBehind(lib: Library, t: Table, aliases: map<Label, Label>, required: seq<Label>): (r: Table)
    requires t.WellFormed() && !RaisesOnClean(t)
    ensures r.WellFormed() && r.header == RenameHeader(aliases, CleanHeader(t.header))
  {
    var n := Renamed(lib, t, aliases);
    if MissingColumns(n.header, required) != [] || Name("date") !in n.header || Count(n.header, Name("date")) > 1 then n
    else ConvertDates(lib, n, IndexOf(n.header, Name("date")))
  }

  /** The part both processors share: clean, rename, check the required
      columns (None when one is missing), then convert the dates and drop
      the rows without one. */
  function Prepared(lib: Library, t: Table, aliases: map<Label, Label>, required: seq<Label>): (r: Result<Option<Table>>)
    requires t.WellFormed() && Name("date") in required
    ensures r.Raised? <==> RaisesOnClean(t)
    ensures !RaisesOnClean(t) ==> var h := RenameHeader(aliases, CleanHeader(t.header));
              (r == Ok(None) <==> MissingColumns(h, required) != [] || Count(h, Name("date")) > 1)
    ensures r.Ok? && r.value.Some? ==> r.value.value.WellFormed()
    ensures r.Ok? && r.value.Some? ==> r.value.value.header == RenameHeader(aliases, CleanHeader(t.header))
  {
    if RaisesOnClean(t) then Raised
    else
      var n := Renamed(lib, t, aliases);
      if MissingColumns(n.header, required) != [] then Ok(None)
      else Ok(DateStep(lib, n))
  }

  /** process_attendance_data as a value: the exception of clean_dataframe,
      None when a required column is missing or the date conversion fails,
      or the processed table. */
  function ProcessAttendance(lib: Library, t: Table): (r: Result<Option<Table>>)
    requires t.WellFormed()
    ensures r.Raised? <==> RaisesOnClean(t)
  {
    Prepared(lib, t, AttendanceAliases, AttendanceRequired)
  }

  /** process_overtime_data as a value: as for attendance, then `duration`
      and `wtnormal` are coerced to numbers, which raises on a duplicated
      label. */
  function ProcessOvertime(lib: Library, t: Table): (r: Result<Option<Table>>)
    requires t.WellFormed()
    ensures RaisesOnClean(t) ==> r.Raised?
    ensures !RaisesOnClean(t) ==> var h := RenameHeader(OvertimeAliases, CleanHeader(t.header));
              && (r == Ok(None) <==> MissingColumns(h, OvertimeRequired) != [] || Count(h, Name("date")) > 1)
              && (r.Raised? <==> MissingColumns(h, OvertimeRequired) == [] && Count(h, Name("date")) <= 1
                                 && (Count(h, Name("duration")) > 1 || Count(h, Name("wtnormal")) > 1))
    ensures r.Ok? && r.value.Some? ==> r.value.value.WellFormed()
    ensures r.Ok? && r.value.Some? ==> var p := r.value.value;
              forall i, k :: 0 <= i < |p.rows| && 0 <= k < |p.header| ==>
                (p.header[k] == Name("duration") || p.header[k] == Name("wtnormal")) ==> p.rows[i][k].Num?
  {
    match Prepared(lib, t, OvertimeAliases, OvertimeRequired)
    case Raised => Raised
    case Ok(None) => Ok(None)
    case Ok(Some(d)) =>
      match CoerceAmounts(lib, d)
      case Raised => Raised
      case Ok(f) => Ok(Some(f))
  }

  /** The two numeric coercions, `duration` then `wtnormal`: they raise
      exactly when one of the two labels is duplicated, keep the header, and
      leave a number in every cell of either column. */
  function CoerceAmounts(lib: Library, d: Table): (r: Result<Table>)
    requires d.WellFormed()
    ensures r.Raised? <==> Count(d.header, Name("duration")) > 1 || Count(d.header, Name("wtnormal")) > 1
    ensures r.Ok? ==> r.value.WellFormed() && r.value.header == d.header && |r.value.rows| == |d.rows|
    ensures r.Ok? ==> var f := r.value;
              forall i, k :: 0 <= i < |f.rows| && 0 <= k < |f.header| ==>
                (f.header[k] == Name("duration") || f.header[k] == Name("wtnormal")) ==> f.rows[i][k].Num?
  {
    match CoerceColumn(lib, d, Name("duration"))
    case Raised => Raised
    case Ok(e) =>
      match CoerceColumn(lib, e, Name("wtnormal"))
      case Raised => Raised
      case Ok(f) =>
        AmountsCoerced(lib, d, e, f);
        Ok(f)
  }

  /** Coercing `duration` and then `wtnormal` leaves a number in every cell of
      either column. */
  lemma AmountsCoerced(lib: Library, d: Table, e: Table, f: Table)
    requires d.WellFormed() && CoerceColumn(lib, d, Name("duration")) == Ok(e)
    requires e.WellFormed() && CoerceColumn(lib, e, Name("wtnormal")) == Ok(f)
    ensures f.WellFormed()
    ensures forall i, k :: 0 <= i < |f.rows| && 0 <= k < |f.header| ==>
              (f.header[k] == Name("duration") || f.header[k] == Name("wtnormal")) ==> f.rows[i][k].Num?
  {
    assert Name("duration") != Name("wtnormal") by { assert "duration"[0] != "wtnormal"[0]; }
  }

  /** Attendance processing yields None exactly when, after cleaning and
      renaming, `employeename`, `date` or `shift` is missing or `date` is
      duplicated. */
  lemma AttendanceNone(lib: Library, t: Table)
    requires t.WellFormed() && !RaisesOnClean(t)
    ensures var h := RenameHeader(AttendanceAliases, CleanHeader(t.header));
      ProcessAttendance(lib, t) == Ok(None) <==>
        Name("employeename") !in h || Name("date") !in h || Name("shift") !in h
        || Count(h, Name("date")) > 1
  {
    AttendanceMissing(RenameHeader(AttendanceAliases, CleanHeader(t.header)));
  }

  /** Overtime processing yields None exactly when, after cleaning and
      renaming, `employeename` or `date` is missing or `date` is duplicated;
      it raises exactly when cleaning raises or, past those checks,
      `duration` or `wtnormal` is duplicated. */
  lemma OvertimeOutcome(lib: Library, t: Table)
    requires t.WellFormed() && !RaisesOnClean(t)
    ensures var h := RenameHeader(OvertimeAliases, CleanHeader(t.header));
      && (ProcessOvertime(lib, t) == Ok(None) <==>
            Name("employeename") !in h || Name("date") !in h || Count(h, Name("date")) > 1)
      && (ProcessOvertime(lib, t).Raised? <==>
            Name("employeename") in h && Count(h, Name("date")) == 1
            && (Count(h, Name("duration")) > 1 || Count(h, Name("wtnormal")) > 1))
  {
    var h := RenameHeader(OvertimeAliases, CleanHeader(t.header));
    OvertimeMissing(h);
  }

  /** After the date step, exactly the rows whose date parses are kept, in
      their order, each with the parsed timestamp in place of its date and
      every other cell as it was. */
  lemma DateStepRows(lib: Library, n: Table)
    requires n.WellFormed() && Name("date") in n.header && Count(n.header, Name("date")) == 1
    ensures var j := IndexOf(n.header, Name("date"));
      var p := DateStep(lib, n).value;
      var idx := KeptIndices(ConvertDates(lib, n, j).rows, j, |n.rows|);
      && p.header == n.header
      && |p.rows| == |idx|
      && (forall m, m' :: 0 <= m < m' < |idx| ==> idx[m] < idx[m'])
      && (forall i :: 0 <= i < |n.rows| ==> (i in idx <==> ToDatetime(lib, Column(n, j), i).Some?))
      && (forall m :: 0 <= m < |idx| ==> p.rows[m][j] == Date(ToDatetime(lib, Column(n, j), idx[m]).value))
      && (forall m, k :: 0 <= m < |idx| && 0 <= k < |n.header| && k != j ==> p.rows[m][k] == n.rows[idx[m]][k])
  {
    var j := IndexOf(n.header, Name("date"));
    var c := ConvertDates(lib, n, j);
    var p := DateStep(lib, n).value;
    var idx := KeptIndices(c.rows, j, |n.rows|);
    assert p == DropNull(c, j);
    forall i | 0 <= i < |n.rows| ensures (i in idx <==> ToDatetime(lib, Column(n, j), i).Some?) {
      assert c.rows[i][j] == DateCell(ToDatetime(lib, Column(n, j), i));
    }
    forall m | 0 <= m < |idx| ensures p.rows[m][j] == Date(ToDatetime(lib, Column(n, j), idx[m]).value) {
      assert p.rows[m] == c.rows[idx[m]];
      assert c.rows[idx[m]][j] == DateCell(ToDatetime(lib, Column(n, j), idx[m]));
    }
    forall m, k | 0 <= m < |idx| && 0 <= k < |n.header| && k != j ensures p.rows[m][k] == n.rows[idx[m]][k] {
      assert p.rows[m] == c.rows[idx[m]];
    }
  }

  /** Every canonical name of the overtime and attendance aliases is clean. */
  lemma CanonicalNamesClean()
    ensures forall l :: l in AttendanceAliases ==> IsCleanLabel(AttendanceAliases[l])
    ensures forall l :: l in OvertimeAliases ==> IsCleanLabel(OvertimeAliases[l])
  {
    CleanNameOf("employeename");
    CleanNameOf("jobposition");
    CleanNameOf("date");
    CleanNameOf("duration");
    CleanNameOf("wtnormal");
  }

  lemma CleanNameOf(s: string)
    requires s in {"employeename", "jobposition", "date", "duration", "wtnormal"}
    ensures IsCleanName(s)
  {
  }

  /** A column whose cells are all drawn from another table's column is an
      object column only if that one is. */
  lemma ObjectFromDrawn(p: Table, q: Table, k: nat, idx: seq<nat>)
    requires p.WellFormed() && q.WellFormed() && k < |p.header| && k < |q.header| && |idx| == |p.rows|
    requires forall m :: 0 <= m < |idx| ==> idx[m] < |q.rows| && p.rows[m][k] == q.rows[idx[m]][k]
    requires IsObjectColumn(p, k)
    ensures IsObjectColumn(q, k)
  {
    if exists m :: 0 <= m < |p.rows| && p.rows[m][k].Str? {
      var m :| 0 <= m < |p.rows| && p.rows[m][k].Str?;
      assert q.rows[idx[m]][k].Str?;
    } else {
      var m1 :| 0 <= m1 < |p.rows| && p.rows[m1][k].Num?;
      var m2 :| 0 <= m2 < |p.rows| && p.rows[m2][k].Date?;
      assert q.rows[idx[m1]][k].Num? && q.rows[idx[m2]][k].Date?;
    }
  }

  /** Keeping a selection of a clean table's rows keeps it clean. */
  lemma CleanRowsDrawn(p: Table, q: Table, idx: seq<nat>)
    requires IsCleanTable(q) && p.WellFormed() && p.header == q.header && |idx| == |p.rows|
    requires forall m :: 0 <= m < |idx| ==> idx[m] < |q.rows| && p.rows[m] == q.rows[idx[m]]
    ensures IsCleanTable(p)
  {
    forall k | 0 <= k < |p.header| && IsObjectColumn(p, k)
      ensures forall m :: 0 <= m < |p.rows| ==> CleanText(p.rows[m][k])
    {
      ObjectFromDrawn(p, q, k, idx);
    }
  }

  /** Replacing one column of a clean table by a column that holds no text
      and does not mix numbers with timestamps keeps it clean. */
  lemma CleanColumnReplaced(p: Table, q: Table, j: nat)
    requires IsCleanTable(q) && p.WellFormed() && p.header == q.header && |p.rows| == |q.rows|
    requires j < |p.header| && !IsObjectColumn(p, j)
    requires forall i, k :: 0 <= i < |p.rows| && 0 <= k < |p.header| && k != j ==> p.rows[i][k] == q.rows[i][k]
    ensures IsCleanTable(p)
  {
    var idx := seq(|p.rows|, i => i);
    forall k | 0 <= k < |p.header| && IsObjectColumn(p, k)
      ensures forall m :: 0 <= m < |p.rows| ==> CleanText(p.rows[m][k])
    {
      ObjectFromDrawn(p, q, k, idx);
    }
  }

  /** A clean table whose header is renamed through the aliases stays clean. */
  lemma RenamedClean(lib: Library, t: Table, aliases: map<Label, Label>)
    requires t.WellFormed() && !RaisesOnClean(t)
    requires forall l :: l in aliases ==> IsCleanLabel(aliases[l])
    ensures IsCleanTable(Renamed(lib, t, aliases))
  {
    var c := CleanTable(lib, t).value;
    var n := Renamed(lib, t, aliases);
    CleanTableIsClean(lib, t);
    RenameKeepsClean(aliases, c.header);
    forall k | 0 <= k < |n.header| && IsObjectColumn(n, k)
      ensures forall m :: 0 <= m < |n.rows| ==> CleanText(n.rows[m][k])
    {
      ObjectFromDrawn(n, c, k, seq(|n.rows|, i => i));
    }
  }

  /** The date step keeps a clean table clean. */
  lemma DateStepClean(lib: Library, n: Table)
    requires IsCleanTable(n) && Name("date") in n.header && Count(n.header, Name("date")) == 1
    ensures IsCleanTable(DateStep(lib, n).value)
  {
    var j := IndexOf(n.header, Name("date"));
    var c := ConvertDates(lib, n, j);
    assert !IsObjectColumn(c, j);
    CleanColumnReplaced(c, n, j);
    var p := DropNull(c, j);
    CleanRowsDrawn(p, c, KeptIndices(c.rows, j, |c.rows|));
  }

  /** Numeric coercion keeps a clean table clean. */
  lemma CoerceClean(lib: Library, t: Table, l: Label)
    requires IsCleanTable(t) && CoerceColumn(lib, t, l).Ok?
    ensures IsCleanTable(CoerceColumn(lib, t, l).value)
  {
    if l in t.header {
      var j := IndexOf(t.header, l);
      var p := CoerceColumn(lib, t, l).value;
      forall k | 0 <= k < |p.header| && t.header[k] == l ensures !IsObjectColumn(p, k) {}
      forall k | 0 <= k < |p.header| && IsObjectColumn(p, k)
        ensures forall m :: 0 <= m < |p.rows| ==> CleanText(p.rows[m][k])
      {
        assert t.header[k] != l;
        ObjectFromDrawn(p, t, k, seq(|p.rows|, i => i));
      }
    }
  }

  /** A processed attendance table is clean, so cleaning it again in
      merge_data or calculate_summary changes nothing unless a label is
      duplicated. */
  lemma AttendanceClean(lib: Library, t: Table)
    requires t.WellFormed() && ProcessAttendance(lib, t).Ok? && ProcessAttendance(lib, t).value.Some?
    ensures IsCleanTable(ProcessAttendance(lib, t).value.value)
  {
    CanonicalNamesClean();
    RenamedClean(lib, t, AttendanceAliases);
    DateStepClean(lib, Renamed(lib, t, AttendanceAliases));
  }

  /** A processed overtime table is clean. */
  lemma OvertimeClean(lib: Library, t: Table)
    requires t.WellFormed() && ProcessOvertime(lib, t).Ok? && ProcessOvertime(lib, t).value.Some?
    ensures IsCleanTable(ProcessOvertime(lib, t).value.value)
  {
    CanonicalNamesClean();
    var n := Renamed(lib, t, OvertimeAliases);
    RenamedClean(lib, t, OvertimeAliases);
    DateStepClean(lib, n);
    var d := DateStep(lib, n).value;
    CoerceClean(lib, d, Name("duration"));
    CoerceClean(lib, CoerceColumn(lib, d, Name("duration")).value, Name("wtnormal"));
  }

  /** `df[l] = pd.to_numeric(df[l], errors='coerce').fillna(0)` on a frame,
      when `l` is a column of it. */
  method CoerceInPlace(lib: Library, df: Frame, l: Label) returns (raised: bool)
    requires df.Valid()
    modifies df
    ensures df.Valid()
    ensures raised == CoerceColumn(lib, old(df.Snapshot()), l).Raised?
    ensures raised ==> unchanged(df)
    ensures !raised ==> df.Snapshot() == CoerceColumn(lib, old(df.Snapshot()), l).value
  {
    raised := false;
    if l in df.header {
      if Count(df.header, l) > 1 {
        raised := true;
        return;
      }
      var j := IndexOf(df.header, l);
      df.AssignColumn(l, Coerced(lib, Column(df.Snapshot(), j)));
    }
  }

  /** Lines 104-109 on a frame: `duration`, then `wtnormal`, coerced in
      place. */
  method CoerceAmountsInPlace(lib: Library, df: Frame) returns (raised: bool)
    requires df.Valid()
    modifies df
    ensures raised == CoerceAmounts(lib, old(df.Snapshot())).Raised?
    ensures !raised ==> df.Valid() && df.Snapshot() == CoerceAmounts(lib, old(df.Snapshot())).value
  {
    ghost var d := df.Snapshot();
    raised := CoerceInPlace(lib, df, Name("duration"));
    if raised {
      return;
    }
    ghost var e := df.Snapshot();
    raised := CoerceInPlace(lib, df, Name("wtnormal"));
    if !raised {
      assert df.Snapshot() == CoerceColumn(lib, e, Name("wtnormal")).value;
    }
  }

  /** The shared part of both processors on a frame: the caller's frame is
      cleaned, renamed and has its dates converted in place; dropna then
      yields a new frame. */
  method PrepareData(lib: Library, df: Frame, aliases: map<Label, Label>, required: seq<Label>)
    returns (r: Result<Option<Frame>>)
    requires df.Valid() && Name("date") in required
    modifies df
    ensures df.Valid()
    ensures RaisesOnClean(old(df.Snapshot())) ==> df.header == CleanHeader(old(df.header))
    ensures !RaisesOnClean(old(df.Snapshot())) ==>
      df.Snapshot() == LeftBehind(lib, old(df.Snapshot()), aliases, required)
    ensures r.Raised? <==> Prepared(lib, old(df.Snapshot()), aliases, required).Raised?
    ensures r.Ok? ==> (r.value.None? <==> Prepared(lib, old(df.Snapshot()), aliases, required).value.None?)
    ensures r.Ok? && r.value.Some? ==>
      && fresh(r.value.value) && r.value.value.Valid()
      && r.value.value.Snapshot() == Prepared(lib, old(df.Snapshot()), aliases, required).value.value
  {
    var raised := df.CleanDataframe(lib);
    if raised {
      return Raised;
    }
    df.header := RenameHeader(aliases, df.header);
    if MissingColumns(df.header, required) != [] {
      return Ok(None);
    }
    if Count(df.header, Name("date")) > 1 {
      return Ok(None);
    }
    var j := IndexOf(df.header, Name("date"));
    df.AssignColumn(Name("date"), ParsedDates(lib, Column(df.Snapshot(), j)));
    var out := new Frame(DropNull(df.Snapshot(), j));
    return Ok(Some(out));
  }

  /** process_attendance_data(df). */
  method ProcessAttendanceData(lib: Library, df: Frame) returns (r: Result<Option<Frame>>)
    requires df.Valid()
    modifies df
    ensures df.Valid()
    ensures RaisesOnClean(old(df.Snapshot())) ==> df.header == CleanHeader(old(df.header))
    ensures !RaisesOnClean(old(df.Snapshot())) ==>
      df.Snapshot() == LeftBehind(lib, old(df.Snapshot()), AttendanceAliases, AttendanceRequired)
    ensures r.Raised? <==> ProcessAttendance(lib, old(df.Snapshot())).Raised?
    ensures r.Ok? ==> (r.value.None? <==> ProcessAttendance(lib, old(df.Snapshot())).value.None?)
    ensures r.Ok? && r.value.Some? ==>
      && fresh(r.value.value) && r.value.value.Valid()
      && r.value.value.Snapshot() == ProcessAttendance(lib, old(df.Snapshot())).value.value
  {
    r := PrepareData(lib, df, AttendanceAliases, AttendanceRequired);
  }

  /** process_overtime_data(df): as for attendance, then the amounts of the
      new frame are coerced to numbers. */
  method ProcessOvertimeData(lib: Library, df: Frame) returns (r: Result<Option<Frame>>)
    requires df.Valid()
    modifies df
    ensures df.Valid()
    ensures RaisesOnClean(old(df.Snapshot())) ==> df.header == CleanHeader(old(df.header))
    ensures !RaisesOnClean(old(df.Snapshot())) ==>
      df.Snapshot() == LeftBehind(lib, old(df.Snapshot()), OvertimeAliases, OvertimeRequired)
    ensures r.Raised? <==> ProcessOvertime(lib, old(df.Snapshot())).Raised?
    ensures r.Ok? ==> (r.value.None? <==> ProcessOvertime(lib, old(df.Snapshot())).value.None?)
    ensures r.Ok? && r.value.Some? ==>
      && fresh(r.value.value) && r.value.value.Valid()
      && r.value.value.Snapshot() == ProcessOvertime(lib, old(df.Snapshot())).value.value
  {
    ghost var t0 := df.Snapshot();
    r := PrepareData(lib, df, OvertimeAliases, OvertimeRequired);
    if r.Ok? && r.value.Some? {
      var raised := CoerceAmountsInPlace(lib, r.value.value);
      if raised {
        return Raised;
      }
    }
  }
}

/** clean_column_name and clean_dataframe (app.py:14-29): header and text
    normalisation, as values and as the in-place update of a DataFrame. */
module Cleaning {
  import opened Text
  import opened Frames

  /** A header text as clean_column_name leaves it. */
  predicate IsCleanName(s: string) {
    NoUpper(s) && ' ' !in s && '/' !in s && Stripped(s)
  }

  predicate IsCleanLabel(l: Label) {
    l.Other? || IsCleanName(l.text)
  }

  /** clean_column_name: a text header is lower-cased, loses every ' ' and
      '/', and is stripped; any other header is returned as it is. */
  function CleanColumnName(l: Label): (r: Label)
    ensures l.Other? ==> r == l
    ensures l.Name? ==> r.Name? && IsCleanName(r.text)
  {
    match l
    case Other(_) => l
    case Name(s) =>
      var a := RemoveAll(Lower(s), ' ');
      var b := RemoveAll(a, '/');
      RemoveAllNoUpper(Lower(s), ' ');
      RemoveAllNoUpper(a, '/');
      RemoveAllFacts(Lower(s), ' ');
      RemoveAllFacts(a, '/');
      StripNoUpper(b);
      StripChars(b, ' ');
      StripChars(b, '/');
      Name(Strip(b))
  }

  /** A header that is already clean is left as it is. */
  lemma CleanNameFixpoint(l: Label)
    requires IsCleanLabel(l)
    ensures CleanColumnName(l) == l
  {
    if l.Name? {
      var s := l.text;
      LowerOfNoUpper(s);
      RemoveAllFacts(s, ' ');
      RemoveAllFacts(s, '/');
      StripOfStripped(s);
    }
  }

  /** clean_column_name is idempotent. */
  lemma CleanColumnNameIdempotent(l: Label)
    ensures CleanColumnName(CleanColumnName(l)) == CleanColumnName(l)
  {
    CleanNameFixpoint(CleanColumnName(l));
  }

  /** The four steps of clean_column_name, one at a time; the last, strip(),
      changes nothing when the text has no whitespace at either end. */
  lemma CleanColumnNameSteps(s: string, lowered: string, spaced: string, slashed: string)
    requires Lower(s) == lowered
    requires RemoveAll(lowered, ' ') == spaced
    requires RemoveAll(spaced, '/') == slashed
    ensures CleanColumnName(Name(s)) == Name(Strip(slashed))
    ensures Stripped(slashed) ==> CleanColumnName(Name(s)) == Name(slashed)
  {
    if Stripped(slashed) {
      StripOfStripped(slashed);
    }
  }

  lemma WtNormalLowered(s: string)
    requires s == "WT/Normal"
    ensures Lower(s) == "wt/normal"
  {
  }

  lemma WtNormalUnslashed(s: string)
    requires s == "wt/normal"
    ensures RemoveAll(s, ' ') == s
    ensures RemoveAll(s, '/') == "wtnormal"
    ensures Stripped(RemoveAll(s, '/'))
  {
    var a, b := "wt", "normal";
    assert s == a + ['/'] + b;
    assert ' ' !in a && ' ' !in b && '/' !in a && '/' !in b;
    RemoveAllOne(a, b, '/');
    RemoveAllFacts(s, ' ');
    assert "wtnormal"[0] == 'w' && "wtnormal"[7] == 'l';
  }

  /** The spreadsheet header "WT/Normal" becomes `wtnormal`. */
  lemma CleanColumnNameWtNormal(s: string)
    requires s == "WT/Normal"
    ensures CleanColumnName(Name(s)) == Name("wtnormal")
  {
    var lowered := Lower(s);
    WtNormalLowered(s);
    WtNormalUnslashed(lowered);
    CleanColumnNameSteps(s, lowered, RemoveAll(lowered, ' '), RemoveAll(lowered, '/'));
  }

  lemma EmployeeNameLowered(s: string)
    requires s == "Employee Name"
    ensures Lower(s) == "employee name"
  {
  }

  lemma EmployeeNameUnspaced(s: string)
    requires s == "employee name"
    ensures RemoveAll(s, ' ') == "employeename"
  {
    var a, b := "employee", "name";
    assert s == a + [' '] + b;
    RemoveAllOne(a, b, ' ');
  }

  lemma EmployeeNameUnslashed(s: string)
    requires s == "employeename"
    ensures RemoveAll(s, '/') == s
    ensures Stripped(s)
  {
    RemoveAllFacts(s, '/');
    assert s[0] == 'e' && s[|s| - 1] == 'e';
  }

  /** The spreadsheet header "Employee Name" becomes `employeename`. */
  lemma CleanColumnNameEmployeeName(s: string)
    requires s == "Employee Name"
    ensures CleanColumnName(Name(s)) == Name("employeename")
  {
    var lowered := Lower(s);
    EmployeeNameLowered(s);
    EmployeeNameUnspaced(lowered);
    var spaced := RemoveAll(lowered, ' ');
    EmployeeNameUnslashed(spaced);
    CleanColumnNameSteps(s, lowered, spaced, RemoveAll(spaced, '/'));
  }

  /** `df.columns = [clean_column_name(col) for col in df.columns]`. */
  function CleanHeader(h: seq<Label>): (r: seq<Label>)
    ensures |r| == |h|
    ensures forall j :: 0 <= j < |h| ==> r[j] == CleanColumnName(h[j])
  {
    seq(|h|, j requires 0 <= j < |h| => CleanColumnName(h[j]))
  }

  /** A column pandas stores with dtype `object`: it holds text, or mixes
      numbers with timestamps. All-number, all-timestamp and all-missing
      columns have a numeric or datetime dtype. */
  predicate IsObjectColumn(t: Table, j: nat)
    requires t.WellFormed() && j < |t.header|
  {
    || (exists i :: 0 <= i < |t.rows| && t.rows[i][j].Str?)
    || ((exists i :: 0 <= i < |t.rows| && t.rows[i][j].Num?)
        && (exists i :: 0 <= i < |t.rows| && t.rows[i][j].Date?))
  }

  /** `df.select_dtypes(include=['object'])`, as one flag per column. */
  function ObjectColumns(t: Table): (r: seq<bool>)
    requires t.WellFormed()
    ensures |r| == |t.header|
    ensures forall j :: 0 <= j < |t.header| ==> r[j] == IsObjectColumn(t, j)
  {
    seq(|t.header|, j requires 0 <= j < |t.header| => IsObjectColumn(t, j))
  }

  /** `astype(str)`: text stays as it is, anything else is rendered. */
  function AsText(lib: Library, c: Cell): string {
    if c.Str? then c.s else lib.render(c)
  }

  /** Text as it leaves `.str.lower().str.strip()`. */
  predicate CleanText(c: Cell) {
    c.Str? && NoUpper(c.s) && Stripped(c.s)
  }

  /** `astype(str).str.lower().str.strip()` on one cell. */
  function CleanCell(lib: Library, c: Cell): (r: Cell)
    ensures CleanText(r)
    ensures c.Str? ==> r == Str(Strip(Lower(c.s)))
  {
    StripNoUpper(Lower(AsText(lib, c)));
    Str(Strip(Lower(AsText(lib, c))))
  }

  /** Text already lower-cased and trimmed is left as it is. */
  lemma CleanCellFixpoint(lib: Library, c: Cell)
    requires CleanText(c)
    ensures CleanCell(lib, c) == c
  {
    LowerOfNoUpper(c.s);
    StripOfStripped(c.s);
  }

  /** Two texts become the same cell exactly when they agree after
      lower-casing and trimming; in particular texts that differ only in the
      case of their letters do. */
  lemma CleanCellMatches(lib: Library, s: string, u: string)
    ensures CleanCell(lib, Str(s)) == CleanCell(lib, Str(u)) <==> Strip(Lower(s)) == Strip(Lower(u))
    ensures |s| == |u| && (forall i :: 0 <= i < |s| ==> SameLetter(s[i], u[i])) ==>
              CleanCell(lib, Str(s)) == CleanCell(lib, Str(u))
  {
    LowerEqualIff(s, u);
  }

  lemma JohnDoeLowered()
    ensures Lower("John Doe") == "john doe"
    ensures Lower(" john doe") == " john doe"
  {
  }

  lemma JohnDoeStripped()
    ensures Strip(" john doe") == "john doe"
    ensures Strip("john doe") == "john doe"
  {
    StripOfStripped("john doe");
    assert LeadingSpace(" john doe"[1..]) == 0;
    assert LeadingSpace(" john doe") == 1;
    assert TrailingSpace(" john doe") == 0;
  }

  /** "John Doe" and " john doe" name the same employee once cleaned. */
  lemma CleanCellJohnDoe(lib: Library)
    ensures CleanCell(lib, Str("John Doe")) == CleanCell(lib, Str(" john doe")) == Str("john doe")
  {
    JohnDoeLowered();
    JohnDoeStripped();
  }

  /** clean_dataframe raises when a column it converts is selected by a label
      that more than one column carries: `df[col]` is then a DataFrame, which
      has no `.str`. */
  predicate RaisesOnClean(t: Table)
    requires t.WellFormed()
  {
    exists j :: 0 <= j < |t.header| && IsObjectColumn(t, j)
      && Count(CleanHeader(t.header), CleanHeader(t.header)[j]) > 1
  }

  lemma RaisesAt(t: Table, j: nat)
    requires t.WellFormed() && j < |t.header| && IsObjectColumn(t, j)
    requires Count(CleanHeader(t.header), CleanHeader(t.header)[j]) > 1
    ensures RaisesOnClean(t)
  {
  }

  /** No object column before j carries a duplicated cleaned label. */
  predicate UniqueObjectLabelsBefore(t: Table, j: nat)
    requires t.WellFormed() && j <= |t.header|
  {
    var h := CleanHeader(t.header);
    forall k :: 0 <= k < j && IsObjectColumn(t, k) ==> Count(h, h[k]) <= 1
  }

  lemma UniqueObjectLabelsStep(t: Table, j: nat)
    requires t.WellFormed() && j < |t.header| && UniqueObjectLabelsBefore(t, j)
    requires IsObjectColumn(t, j) ==> Count(CleanHeader(t.header), CleanHeader(t.header)[j]) <= 1
    ensures UniqueObjectLabelsBefore(t, j + 1)
  {
  }

  lemma NoRaise(t: Table)
    requires t.WellFormed() && UniqueObjectLabelsBefore(t, |t.header|)
    ensures !RaisesOnClean(t)
  {
  }

  /** `astype(str).str.lower().str.strip()` as the conversion the loop
      applies to each cell of a column. */
  function CellCleaner(lib: Library): Cell -> Cell {
    c => CleanCell(lib, c)
  }

  /** Column j of every row passed through the cell conversion f. */
  function CleanColumnAt(f: Cell -> Cell, rows: seq<seq<Cell>>, j: nat): (r: seq<seq<Cell>>)
    requires forall i :: 0 <= i < |rows| ==> j < |rows[i]|
    ensures |r| == |rows|
    ensures forall i :: 0 <= i < |rows| ==> r[i] == rows[i][j := f(rows[i][j])]
  {
    seq(|rows|, i requires 0 <= i < |rows| => rows[i][j := f(rows[i][j])])
  }

  /** clean_dataframe as a value: the cleaned header, and every cell of an
      object column turned into lower-cased, trimmed text, all other columns
      untouched; or the exception. */
  function CleanTable(lib: Library, t: Table): (r: Result<Table>)
    requires t.WellFormed()
    ensures r.Raised? <==> RaisesOnClean(t)
    ensures r.Ok? ==> r.value.WellFormed() && r.value.header == CleanHeader(t.header)
    ensures r.Ok? ==> |r.value.rows| == |t.rows|
    ensures r.Ok? ==> forall i, j :: 0 <= i < |t.rows| && 0 <= j < |t.header| ==>
              r.value.rows[i][j] == if IsObjectColumn(t, j) then CleanCell(lib, t.rows[i][j]) else t.rows[i][j]
  {
    if RaisesOnClean(t) then Raised
    else
      var objs := ObjectColumns(t);
      Ok(Table(CleanHeader(t.header), seq(|t.rows|, i requires 0 <= i < |t.rows| =>
        seq(|t.header|, j requires 0 <= j < |t.header| =>
          if objs[j] then CleanCell(lib, t.rows[i][j]) else t.rows[i][j]))))
  }

  /** The rows after clean_dataframe's loop has converted, through f, the
      columns among the first j that `objs` flags as object columns. */
  function CleanPrefix(f: Cell -> Cell, rows: seq<seq<Cell>>, objs: seq<bool>, j: nat): (r: seq<seq<Cell>>)
    requires j <= |objs| && forall i :: 0 <= i < |rows| ==> |rows[i]| == |objs|
    ensures |r| == |rows|
    ensures forall i :: 0 <= i < |r| ==> |r[i]| == |objs|
  {
    if j == 0 then rows
    else if objs[j - 1] then CleanColumnAt(f, CleanPrefix(f, rows, objs, j - 1), j - 1)
    else CleanPrefix(f, rows, objs, j - 1)
  }

  /** After j steps, exactly the flagged columns before j are converted. */
  lemma {:induction false} CleanPrefixCell(f: Cell -> Cell, rows: seq<seq<Cell>>, objs: seq<bool>, j: nat, i: nat, k: nat)
    requires j <= |objs| && forall i :: 0 <= i < |rows| ==> |rows[i]| == |objs|
    requires i < |rows| && k < |objs|
    ensures CleanPrefix(f, rows, objs, j)[i][k] == if k < j && objs[k] then f(rows[i][k]) else rows[i][k]
  {
    if j != 0 {
      CleanPrefixCell(f, rows, objs, j - 1, i, k);
    }
  }

  /** Once every column is visited, the rows are those of CleanTable. */
  lemma CleanPrefixComplete(lib: Library, t: Table)
    requires t.WellFormed() && !RaisesOnClean(t)
    ensures CleanPrefix(CellCleaner(lib), t.rows, ObjectColumns(t), |t.header|) == CleanTable(lib, t).value.rows
  {
    var objs := ObjectColumns(t);
    var p := CleanPrefix(CellCleaner(lib), t.rows, objs, |t.header|);
    var c := CleanTable(lib, t).value.rows;
    forall i | 0 <= i < |t.rows| ensures p[i] == c[i] {
      forall k | 0 <= k < |t.header| ensures p[i][k] == c[i][k] {
        CleanPrefixCell(CellCleaner(lib), t.rows, objs, |t.header|, i, k);
      }
    }
  }

  /** A table as clean_dataframe leaves it: clean labels, and only clean text
      in object columns. */
  predicate IsCleanTable(t: Table) {
    && t.WellFormed()
    && (forall j :: 0 <= j < |t.header| ==> IsCleanLabel(t.header[j]))
    && (forall j :: 0 <= j < |t.header| && IsObjectColumn(t, j) ==>
          forall i :: 0 <= i < |t.rows| ==> CleanText(t.rows[i][j]))
  }

  /** Cleaning a clean table changes nothing, unless a duplicated label makes
      it raise. */
  lemma CleanFixpoint(lib: Library, t: Table)
    requires IsCleanTable(t)
    ensures CleanHeader(t.header) == t.header
    ensures !RaisesOnClean(t) ==> CleanTable(lib, t) == Ok(t)
  {
    forall j | 0 <= j < |t.header| ensures CleanColumnName(t.header[j]) == t.header[j] {
      CleanNameFixpoint(t.header[j]);
    }
    if !RaisesOnClean(t) {
      var c := CleanTable(lib, t).value;
      assert c.header == t.header;
      forall i | 0 <= i < |t.rows| ensures c.rows[i] == t.rows[i] {
        forall j | 0 <= j < |t.header| ensures c.rows[i][j] == t.rows[i][j] {
          if IsObjectColumn(t, j) { CleanCellFixpoint(lib, t.rows[i][j]); }
        }
      }
      assert c.rows == t.rows;
      assert c == t;
    }
  }

  /** A column of the cleaned table is an object column only if it was one
      before: columns that were not are copied unchanged. */
  lemma ObjectColumnOrigin(lib: Library, t: Table, j: nat)
    requires t.WellFormed() && CleanTable(lib, t).Ok? && j < |t.header|
    requires IsObjectColumn(CleanTable(lib, t).value, j)
    ensures IsObjectColumn(t, j)
  {
  }

  /** What clean_dataframe returns is a clean table that cleans without raising. */
  lemma CleanTableIsClean(lib: Library, t: Table)
    requires t.WellFormed() && CleanTable(lib, t).Ok?
    ensures IsCleanTable(CleanTable(lib, t).value)
    ensures !RaisesOnClean(CleanTable(lib, t).value)
  {
    var c := CleanTable(lib, t).value;
    forall j | 0 <= j < |c.header| && IsObjectColumn(c, j)
      ensures IsObjectColumn(t, j)
      ensures forall i :: 0 <= i < |c.rows| ==> CleanText(c.rows[i][j])
    {
      ObjectColumnOrigin(lib, t, j);
    }
    forall j | 0 <= j < |c.header| ensures IsCleanLabel(c.header[j]) {}
    CleanFixpoint(lib, c);
  }

  /** clean_dataframe is idempotent: the second clean in merge_data and
      calculate_summary of a frame already cleaned changes nothing. */
  lemma CleanTableIdempotent(lib: Library, t: Table)
    requires t.WellFormed() && CleanTable(lib, t).Ok?
    ensures CleanTable(lib, CleanTable(lib, t).value) == CleanTable(lib, t)
  {
    CleanTableIsClean(lib, t);
    CleanFixpoint(lib, CleanTable(lib, t).value);
  }

  /** Where clean_dataframe's loop stops: at a shared object label, where
      it raises, or after the last column, with CleanTable's rows. */
  lemma CleanLoopOutcome(lib: Library, t0: Table, rs: seq<seq<Cell>>, j: nat, raised: bool)
    requires t0.WellFormed() && j <= |t0.header|
    requires rs == CleanPrefix(CellCleaner(lib), t0.rows, ObjectColumns(t0), j) && UniqueObjectLabelsBefore(t0, j)
    requires raised ==> j < |t0.header| && ObjectColumns(t0)[j]
    requires raised ==> Count(CleanHeader(t0.header), CleanHeader(t0.header)[j]) > 1
    requires !raised ==> j == |t0.header|
    ensures Table(CleanHeader(t0.header), rs).WellFormed() && |rs| == |t0.rows|
    ensures raised == CleanTable(lib, t0).Raised?
    ensures !raised ==> Table(CleanHeader(t0.header), rs) == CleanTable(lib, t0).value
  {
    if raised {
      RaisesAt(t0, j);
    } else {
      NoRaise(t0);
      CleanPrefixComplete(lib, t0);
    }
  }

  /** A pandas DataFrame object, whose columns and cells are updated in place. */
  class Frame {
    var header: seq<Label>
    var rows: seq<seq<Cell>>

    function Snapshot(): Table
      reads this
    {
      Table(header, rows)
    }

    predicate Valid()
      reads this
    {
      Snapshot().WellFormed()
    }

    constructor (t: Table)
      requires t.WellFormed()
      ensures Valid() && Snapshot() == t
    {
      header := t.header;
      rows := t.rows;
    }

    /** clean_dataframe(df): renames the columns first, then converts the
        object columns one at a time; when it raises, the header is already
        cleaned. */
    method CleanDataframe(lib: Library) returns (raised: bool)
      requires Valid()
      modifies this
      ensures Valid()
      ensures header == CleanHeader(old(header)) && |rows| == |old(rows)|
      ensures raised == CleanTable(lib, old(Snapshot())).Raised?
      ensures !raised ==> Snapshot() == CleanTable(lib, old(Snapshot())).value
    {
      var t0 := Snapshot();
      var h := CleanHeader(t0.header);
      var objs := ObjectColumns(t0);
      var rs := t0.rows;
      var j := 0;
      raised := false;
      while j < |h|
        invariant 0 <= j <= |h| == |t0.header|
        invariant rs == CleanPrefix(CellCleaner(lib), t0.rows, objs, j)
        invariant UniqueObjectLabelsBefore(t0, j)
      {
        if objs[j] {
          if Count(h, h[j]) > 1 {
            raised := true;
            break;
          }
          rs := CleanColumnAt(CellCleaner(lib), rs, j);
          assert rs == CleanPrefix(CellCleaner(lib), t0.rows, objs, j + 1);
        }
        UniqueObjectLabelsStep(t0, j);
        j := j + 1;
      }
      CleanLoopOutcome(lib, t0, rs, j, raised);
      header, rows := h, rs;
    }

    /** `df[l] = values`. */
    method AssignColumn(l: Label, values: seq<Cell>)
      requires Valid() && |values| == |rows|
      modifies this
      ensures Valid() && Snapshot() == SetColumn(old(Snapshot()), l, values)
    {
      var t := SetColumn(Snapshot(), l, values);
      header := t.header;
      rows := t.rows;
    }
  }

  /** Both inputs go through clean_dataframe without raising. */
  predicate BothClean(lib: Library, a0: Table, o0: Table) {
    && a0.WellFormed() && o0.WellFormed()
    && CleanTable(lib, a0).Ok? && CleanTable(lib, o0).Ok?
  }

  /** The two clean_dataframe calls that open merge_data and
      calculate_summary, on the caller's frames (the same frame may be passed
      twice); false when one raises. */
  method CleanBoth(lib: Library, att: Frame, ot: Frame) returns (ok: bool)
    requires att.Valid() && ot.Valid()
    modifies att, ot
    ensures att.Valid() && ot.Valid()
    ensures ok <==> BothClean(lib, old(att.Snapshot()), old(ot.Snapshot()))
    ensures ok ==> att.Snapshot() == CleanTable(lib, old(att.Snapshot())).value
    ensures ok ==> ot.Snapshot() == CleanTable(lib, old(ot.Snapshot())).value
  {
    ghost var a0 := att.Snapshot();
    var raised := att.CleanDataframe(lib);
    if raised {
      return false;
    }
    if att == ot {
      CleanTableIdempotent(lib, a0);
    }
    raised := ot.CleanDataframe(lib);
    ok := !raised;
  }
}

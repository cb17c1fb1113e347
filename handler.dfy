/** The validation-and-filtering pipeline of the upload handler
    `handle_excel_file`: the file-name gate, the required-header check, the
    whitespace strip of the categorical columns, the drop of rows without a
    usable STATUSDATE, the choice of the latest day and the diagnostic
    counts. `Process` is the pipeline as one function of its inputs;
    `HandleExcelFile` runs it step by step over an array of rows, the way the
    handler mutates its data frame, and is proved to compute `Process`. */
module Handler {
  import opened Sequences
  import opened Text
  import opened Frame

  /** What one upload ends in. `Daily` carries the latest day, the rows of
      that day, the number of rows the file had and the number of rows
      dropped for lacking a status date. */
  datatype Outcome =
    | BadExtension
    | MissingHeaders(missing: seq<Column>)
    | NoValidDates
    | Daily(latest: Date, rows: seq<Row>, totalInitial: nat, dropped: nat)

  // ---------------------------------------------------------------------
  // The pure steps
  // ---------------------------------------------------------------------

  /** The file-name gate: only `.xls` and `.xlsx`, compared case-sensitively. */
  predicate IsExcelName(fileName: string)
  {
    EndsWith(fileName, ".xls") || EndsWith(fileName, ".xlsx")
  }

  /** A name passes the gate exactly when it is some stem followed by one of
      the two extensions. */
  lemma IsExcelNameIff(fileName: string)
    ensures IsExcelName(fileName) <==>
      (exists stem :: fileName == stem + ".xls") || (exists stem :: fileName == stem + ".xlsx")
  {
    EndsWithIffConcat(fileName, ".xls");
    EndsWithIffConcat(fileName, ".xlsx");
  }

  /** The gate compares case-sensitively and looks only at the very end of
      the name. */
  lemma IsExcelNameExamples()
    ensures IsExcelName("laporan.xlsx") && IsExcelName("laporan.xls")
    ensures !IsExcelName("laporan.XLSX") && !IsExcelName("laporan.xls.csv")
  {
    assert "laporan.xlsx"[7..] == ".xlsx";
    assert "laporan.xls"[7..] == ".xls";
    assert "laporan.XLSX"[8..] != ".xls" && "laporan.XLSX"[7..] != ".xlsx";
    assert "laporan.xls.csv"[11..] != ".xls" && "laporan.xls.csv"[10..] != ".xlsx";
  }

  /** The required headers absent from the columns, in the order of
      `required`. */
  function FindMissingHeaders(required: seq<Column>, columns: seq<Column>): (m: seq<Column>)
    ensures forall h :: h in m <==> h in required && h !in columns
    ensures SubsequenceOf(m, required)
    ensures NoDuplicates(required) ==> NoDuplicates(m)
    ensures m == [] <==> forall i :: 0 <= i < |required| ==> required[i] in columns
  {
    var p := (h: Column) => h !in columns;
    FilterMembership(required, p);
    FilterIsSubsequence(required, p);
    FilterEmpty(required, p);
    FilterNoDuplicates(required, p);
    Filter(required, p)
  }

  /** The six required headers are distinct, so a missing-header report
      never names a header twice. */
  lemma RequiredHeadersDistinct()
    ensures NoDuplicates(RequiredHeaders)
  {
  }

  /** `dropna(subset=['STATUSDATE'])`: the rows with a parsed status date, in
      their original order, each kept as often as it occurs. */
  function KeepDated(rows: seq<Row>): (r: seq<Row>)
    ensures |r| <= |rows|
    ensures forall x :: x in r <==> x in rows && HasDate(x)
    ensures forall i :: 0 <= i < |r| ==> HasDate(r[i])
    ensures SubsequenceOf(r, rows)
    ensures r == [] <==> forall i :: 0 <= i < |rows| ==> !HasDate(rows[i])
  {
    FilterMembership(rows, HasDate);
    FilterIsSubsequence(rows, HasDate);
    FilterEmpty(rows, HasDate);
    Filter(rows, HasDate)
  }

  /** `df['STATUSDATE'].dt.date.max()` over rows that all have a date. */
  function LatestDate(rows: seq<Row>): (d: Date)
    requires rows != []
    requires forall i :: 0 <= i < |rows| ==> rows[i].statusDate.Some?
    ensures forall i :: 0 <= i < |rows| ==> rows[i].statusDate.value.date <= d
    ensures exists i :: 0 <= i < |rows| && rows[i].statusDate.value.date == d
  {
    var first := rows[0].statusDate.value.date;
    if |rows| == 1 then first
    else
      var rest := LatestDate(rows[1..]);
      assert forall i :: 1 <= i < |rows| ==> rows[i] == rows[1..][i - 1];
      if first >= rest then first else rest
  }

  /** The row's status date falls on calendar day `d`. */
  predicate IsOnDate(r: Row, d: Date)
  {
    r.statusDate.Some? && r.statusDate.value.date == d
  }

  /** The boolean-mask selection `df[df['STATUSDATE'].dt.date == d]`: every
      row of day `d`, as often as it occurs, in its original order. */
  function OnDate(rows: seq<Row>, d: Date): (r: seq<Row>)
    ensures forall x :: x in r <==> x in rows && IsOnDate(x, d)
    ensures SubsequenceOf(r, rows)
  {
    var p := (x: Row) => IsOnDate(x, d);
    FilterMembership(rows, p);
    FilterIsSubsequence(rows, p);
    Filter(rows, p)
  }

  /** `dropna` keeps every copy of a dated row and no copy of an undated
      one, so a repeated row is kept as often as it occurs. */
  lemma KeepDatedMultiset(rows: seq<Row>)
    ensures forall x :: multiset(KeepDated(rows))[x] == if HasDate(x) then multiset(rows)[x] else 0
  {
    FilterMultiset(rows, HasDate);
  }

  /** The number of rows `dropna` keeps is the number of positions of the
      frame whose row has a parsed status date. */
  lemma KeepDatedCount(rows: seq<Row>)
    ensures |KeepDated(rows)| == |set i | 0 <= i < |rows| && HasDate(rows[i])|
  {
    FilterCountsPositions(rows, HasDate);
    assert PassingPositions(rows, HasDate, |rows|) == set i | 0 <= i < |rows| && HasDate(rows[i]);
  }

  /** The mask keeps every copy of a row of day `d` and no copy of any other
      row. */
  lemma OnDateMultiset(rows: seq<Row>, d: Date)
    ensures forall x :: multiset(OnDate(rows, d))[x] == if IsOnDate(x, d) then multiset(rows)[x] else 0
  {
    var p := (x: Row) => IsOnDate(x, d);
    FilterMultiset(rows, p);
  }

  /** What the handler reports about a frame that passed both checks, from
      its rows after the strip loop and the number of rows the file had. */
  function Summarize(cleaned: seq<Row>, totalInitial: nat): Outcome
  {
    var dated := KeepDated(cleaned);
    if dated == [] then NoValidDates
    else
      var latest := LatestDate(dated);
      Daily(latest, OnDate(dated, latest), totalInitial, |cleaned| - |dated|)
  }

  /** The whole pipeline of the handler, from the uploaded file's name, its
      columns and its rows to the outcome it reports. */
  function Process(fileName: string, columns: seq<Column>, rows: seq<Row>): Outcome
  {
    if !IsExcelName(fileName) then BadExtension
    else
      var missing := FindMissingHeaders(RequiredHeaders, columns);
      if missing != [] then MissingHeaders(missing)
      else Summarize(Cleaned(rows, columns), |rows|)
  }

  // ---------------------------------------------------------------------
  // Facts about the steps
  // ---------------------------------------------------------------------

  /** Deleting in two stages is deleting once. */
  lemma {:induction false} SubsequenceTransitive<T>(a: seq<T>, b: seq<T>, c: seq<T>)
    requires SubsequenceOf(a, b) && SubsequenceOf(b, c)
    ensures SubsequenceOf(a, c)
    decreases |c|
  {
    if a != [] {
      assert b != [] && c != [];
      if SubsequenceOf(b, c[1..]) {
        SubsequenceTransitive(a, b, c[1..]);
      } else {
        assert b[0] == c[0] && SubsequenceOf(b[1..], c[1..]);
        if a[0] == b[0] && SubsequenceOf(a[1..], b[1..]) {
          SubsequenceTransitive(a[1..], b[1..], c[1..]);
        } else {
          SubsequenceTransitive(a, b[1..], c[1..]);
        }
      }
    }
  }

  /** Once every required header is present, the guard `if col in
      df.columns` of the strip loop holds for all four categorical columns. */
  lemma HeadersPresentStripsAll(columns: seq<Column>)
    requires FindMissingHeaders(RequiredHeaders, columns) == []
    ensures StripSet(columns) == set c | c in CategoricalColumns
  {
    assert RequiredHeaders[1] == "STO" && RequiredHeaders[3] == "STATUS";
    assert RequiredHeaders[4] == "ERRORCODE" && RequiredHeaders[5] == "SUBERRORCODE";
  }

  /** The cleaned frame is built row by row from the front. */
  lemma CleanedCons(rows: seq<Row>, columns: seq<Column>)
    requires rows != []
    ensures Cleaned(rows, columns) == [CleanRow(rows[0], StripSet(columns))] + Cleaned(rows[1..], columns)
  {
  }

  /** Stripping and dropping undated rows commute: the rows that survive the
      drop are the cleaned forms of exactly the input rows with a status
      date, in their original order. */
  lemma {:induction false} DropAfterClean(rows: seq<Row>, columns: seq<Column>)
    ensures KeepDated(Cleaned(rows, columns)) == Cleaned(KeepDated(rows), columns)
  {
    if rows != [] {
      DropAfterClean(rows[1..], columns);
      var head := CleanRow(rows[0], StripSet(columns));
      var cs := Cleaned(rows, columns);
      CleanedCons(rows, columns);
      assert cs[0] == head && cs[1..] == Cleaned(rows[1..], columns);
      var kept := Filter(rows, HasDate);
      if HasDate(rows[0]) {
        assert kept == [rows[0]] + Filter(rows[1..], HasDate);
        CleanedCons(kept, columns);
        assert kept[1..] == Filter(rows[1..], HasDate);
      } else {
        assert kept == Filter(rows[1..], HasDate);
      }
    }
  }

  /** The file-name gate comes first: a name without `.xls` or `.xlsx` at its
      end is rejected whatever the file holds, and only such a name is. */
  lemma ProcessBadExtension(fileName: string, columns: seq<Column>, rows: seq<Row>)
    ensures Process(fileName, columns, rows) == BadExtension <==> !IsExcelName(fileName)
  {
  }

  /** A missing required header stops the pipeline with exactly the missing
      headers, in the required order and without repetition; it is reported
      exactly when the name passed the gate and some header is absent. */
  lemma ProcessMissingHeaders(fileName: string, columns: seq<Column>, rows: seq<Row>)
    ensures Process(fileName, columns, rows).MissingHeaders? <==>
      IsExcelName(fileName) && exists i :: 0 <= i < |RequiredHeaders| && RequiredHeaders[i] !in columns
    ensures Process(fileName, columns, rows).MissingHeaders? ==>
      var m := Process(fileName, columns, rows).missing;
      m != [] && SubsequenceOf(m, RequiredHeaders) && NoDuplicates(m)
      && forall h :: h in m <==> h in RequiredHeaders && h !in columns
  {
    RequiredHeadersDistinct();
  }

  /** When headers are missing, the rows play no part: no cleaning, date
      filtering or day selection influences the outcome. */
  lemma ProcessMissingHeadersIgnoresRows(fileName: string, columns: seq<Column>, rows: seq<Row>, other: seq<Row>)
    ensures Process(fileName, columns, rows).MissingHeaders? ==>
      Process(fileName, columns, other) == Process(fileName, columns, rows)
  {
  }

  /** "No valid date" is reported exactly when the file passed both checks
      and not one of its rows has a parsed status date. */
  lemma ProcessNoValidDates(fileName: string, columns: seq<Column>, rows: seq<Row>)
    ensures Process(fileName, columns, rows) == NoValidDates <==>
      IsExcelName(fileName)
      && (forall i :: 0 <= i < |RequiredHeaders| ==> RequiredHeaders[i] in columns)
      && (forall i :: 0 <= i < |rows| ==> !HasDate(rows[i]))
  {
    CleanedKeepsDates(rows, columns);
  }

  /** A daily report is produced exactly when the file passed both checks and
      at least one row has a parsed status date. */
  lemma ProcessDailyIff(fileName: string, columns: seq<Column>, rows: seq<Row>)
    ensures Process(fileName, columns, rows).Daily? <==>
      IsExcelName(fileName)
      && (forall i :: 0 <= i < |RequiredHeaders| ==> RequiredHeaders[i] in columns)
      && (exists i :: 0 <= i < |rows| && HasDate(rows[i]))
  {
    ProcessMissingHeaders(fileName, columns, rows);
    ProcessNoValidDates(fileName, columns, rows);
  }

  /** The diagnostic counts: the initial count is the file's row count, the
      dropped count is the number of positions whose row has no status date
      and is never negative, and 1 <= daily rows <= rows after the drop <=
      initial rows. */
  lemma ProcessDailyCounts(fileName: string, columns: seq<Column>, rows: seq<Row>)
    ensures Process(fileName, columns, rows).Daily? ==>
      var o := Process(fileName, columns, rows);
      o.totalInitial == |rows|
      && o.dropped == |rows| - |KeepDated(rows)|
      && |KeepDated(rows)| == |set i | 0 <= i < |rows| && HasDate(rows[i])|
      && 0 <= o.dropped
      && 1 <= |o.rows| <= o.totalInitial - o.dropped <= o.totalInitial
  {
    if Process(fileName, columns, rows).Daily? {
      var cs := Cleaned(rows, columns);
      var dated := KeepDated(cs);
      assert IsExcelName(fileName) && FindMissingHeaders(RequiredHeaders, columns) == [];
      assert dated != [];
      var latest := LatestDate(dated);
      var daily := OnDate(dated, latest);
      assert Process(fileName, columns, rows) == Daily(latest, daily, |rows|, |cs| - |dated|);
      DropAfterClean(rows, columns);
      assert |dated| == |KeepDated(rows)|;
      SubsequenceLength(daily, dated);
      LatestDayNonEmpty(dated);
      KeepDatedCount(rows);
    }
  }

  /** The latest day always has at least one row. */
  lemma LatestDayNonEmpty(dated: seq<Row>)
    requires dated != []
    requires forall i :: 0 <= i < |dated| ==> dated[i].statusDate.Some?
    ensures OnDate(dated, LatestDate(dated)) != []
  {
    var latest := LatestDate(dated);
    var i :| 0 <= i < |dated| && dated[i].statusDate.value.date == latest;
    assert dated[i] in OnDate(dated, latest);
  }

  /** A subsequence is never longer than the sequence it came from. */
  lemma {:induction false} SubsequenceLength<T>(a: seq<T>, b: seq<T>)
    requires SubsequenceOf(a, b)
    ensures |a| <= |b|
    decreases |b|
  {
    if a != [] {
      if a[0] == b[0] && SubsequenceOf(a[1..], b[1..]) {
        SubsequenceLength(a[1..], b[1..]);
      } else {
        SubsequenceLength(a, b[1..]);
      }
    }
  }

  /** The latest day is the largest calendar day among the input rows that
      have a status date, and one of them falls on it. */
  lemma ProcessDailyLatest(fileName: string, columns: seq<Column>, rows: seq<Row>)
    ensures Process(fileName, columns, rows).Daily? ==>
      var latest := Process(fileName, columns, rows).latest;
      (forall i :: 0 <= i < |rows| && HasDate(rows[i]) ==> rows[i].statusDate.value.date <= latest)
      && (exists i :: 0 <= i < |rows| && IsOnDate(rows[i], latest))
  {
    if Process(fileName, columns, rows).Daily? {
      var cs := Cleaned(rows, columns);
      var dated := KeepDated(cs);
      var latest := LatestDate(dated);
      CleanedKeepsDates(rows, columns);
      forall i | 0 <= i < |rows| && HasDate(rows[i])
        ensures rows[i].statusDate.value.date <= latest
      {
        assert cs[i] in dated;
      }
      var k :| 0 <= k < |dated| && dated[k].statusDate.value.date == latest;
      assert dated[k] in cs;
      var i :| 0 <= i < |cs| && cs[i] == dated[k];
      assert IsOnDate(rows[i], latest);
    }
  }

  /** A row is in the daily report exactly when it survived the drop and its
      calendar day is the latest day; the report keeps the rows' order. */
  lemma ProcessDailyRows(fileName: string, columns: seq<Column>, rows: seq<Row>)
    ensures Process(fileName, columns, rows).Daily? ==>
      var o := Process(fileName, columns, rows);
      var survivors := KeepDated(Cleaned(rows, columns));
      (forall r :: r in survivors ==> (r in o.rows <==> IsOnDate(r, o.latest)))
      && (forall r :: r in o.rows ==> r in survivors)
      && SubsequenceOf(o.rows, Cleaned(rows, columns))
  {
    if Process(fileName, columns, rows).Daily? {
      var cs := Cleaned(rows, columns);
      var o := Process(fileName, columns, rows);
      SubsequenceTransitive(o.rows, KeepDated(cs), cs);
    }
  }

  /** The daily rows hold every copy of a cleaned row of the latest day and
      no copy of any other row: a row repeated in the file is reported as
      often as it occurs. */
  lemma ProcessDailyRowMultiset(fileName: string, columns: seq<Column>, rows: seq<Row>)
    ensures Process(fileName, columns, rows).Daily? ==>
      var o := Process(fileName, columns, rows);
      var survivors := KeepDated(Cleaned(rows, columns));
      (forall x :: multiset(o.rows)[x] == if IsOnDate(x, o.latest) then multiset(survivors)[x] else 0)
      && (forall x :: multiset(o.rows)[x] == if IsOnDate(x, o.latest) then multiset(Cleaned(rows, columns))[x] else 0)
  {
    if Process(fileName, columns, rows).Daily? {
      var cs := Cleaned(rows, columns);
      var survivors := KeepDated(cs);
      var latest := LatestDate(survivors);
      OnDateMultiset(survivors, latest);
      KeepDatedMultiset(cs);
    }
  }

  /** A sequence holding every copy of a cleaned row of day `d` and nothing
      else has as many rows as the frame has positions on day `d`. */
  lemma DayCount(rows: seq<Row>, columns: seq<Column>, d: Date, daily: seq<Row>)
    requires forall x :: multiset(daily)[x] == if IsOnDate(x, d) then multiset(Cleaned(rows, columns))[x] else 0
    ensures |daily| == |set i | 0 <= i < |rows| && IsOnDate(rows[i], d)|
  {
    var cs := Cleaned(rows, columns);
    var q := (x: Row) => IsOnDate(x, d);
    FilterMultiset(cs, q);
    assert multiset(daily) == multiset(Filter(cs, q));
    assert |daily| == |multiset(daily)| == |multiset(Filter(cs, q))| == |Filter(cs, q)|;
    FilterCountsPositions(cs, q);
    CleanedChangesOnlyCategorical(rows, columns);
    assert PassingPositions(cs, q, |cs|) == set i | 0 <= i < |rows| && IsOnDate(rows[i], d);
  }

  /** The number of daily rows is the number of positions of the file whose
      row falls on the latest day. */
  lemma ProcessDailyRowCount(fileName: string, columns: seq<Column>, rows: seq<Row>)
    ensures Process(fileName, columns, rows).Daily? ==>
      var o := Process(fileName, columns, rows);
      |o.rows| == |set i | 0 <= i < |rows| && IsOnDate(rows[i], o.latest)|
  {
    if Process(fileName, columns, rows).Daily? {
      var o := Process(fileName, columns, rows);
      ProcessDailyRowMultiset(fileName, columns, rows);
      DayCount(rows, columns, o.latest, o.rows);
    }
  }

  // ---------------------------------------------------------------------
  // The steps that change the frame in place
  // ---------------------------------------------------------------------

  /** Stripping no column leaves a row as it was. */
  lemma CleanRowNothing(r: Row)
    ensures CleanRow(r, {}) == r
  {
    assert CleanRow(r, {}).cells == r.cells;
  }

  /** One pass of the strip loop, `df[col] = df[col].astype(str).str.strip()`:
      the cell of `col` is stripped in every row, and nothing else changes. */
  method StripColumn(rows: array<Row>, col: Column)
    modifies rows
    ensures forall j :: 0 <= j < rows.Length ==> rows[j] == StripCell(old(rows[j]), col)
  {
    ghost var s := rows[..];
    for i := 0 to rows.Length
      invariant forall j :: 0 <= j < i ==> rows[j] == StripCell(s[j], col)
      invariant forall j :: i <= j < rows.Length ==> rows[j] == s[j]
    {
      rows[i] := StripCell(rows[i], col);
    }
  }

  /** The loop `for col in [...]: if col in df.columns: df[col] = ...strip()`:
      afterwards every row is its cleaned form. */
  method StripCategoricalColumns(rows: array<Row>, columns: seq<Column>)
    modifies rows
    ensures rows[..] == Cleaned(old(rows[..]), columns)
  {
    ghost var done: set<Column> := {};
    forall j | 0 <= j < rows.Length ensures rows[j] == CleanRow(rows[j], done) {
      CleanRowNothing(rows[j]);
    }
    for k := 0 to |CategoricalColumns|
      invariant done == set c | c in CategoricalColumns[..k] && c in columns
      invariant forall j :: 0 <= j < rows.Length ==> rows[j] == CleanRow(old(rows[j]), done)
    {
      var col := CategoricalColumns[k];
      assert col !in CategoricalColumns[..k];
      if col in columns {
        StripColumn(rows, col);
        forall j | 0 <= j < rows.Length ensures rows[j] == CleanRow(old(rows[j]), done + {col}) {
          StripCellExtends(old(rows[j]), done, col);
        }
        done := done + {col};
      }
      assert CategoricalColumns[..k + 1] == CategoricalColumns[..k] + [col];
    }
    assert CategoricalColumns[..|CategoricalColumns|] == CategoricalColumns;
    assert done == StripSet(columns);
  }

  /** `df.dropna(subset=['STATUSDATE'], inplace=True)`: the rows with a
      status date are moved, in order, to the front of the array, and their
      number is the frame's new length. */
  method DropMissingDates(rows: array<Row>) returns (n: nat)
    modifies rows
    ensures n <= rows.Length
    ensures rows[..n] == KeepDated(old(rows[..]))
  {
    ghost var s := rows[..];
    n := 0;
    for i := 0 to rows.Length
      invariant n <= i
      invariant rows[..n] == KeepDated(s[..i])
      invariant forall j :: i <= j < rows.Length ==> rows[j] == s[j]
    {
      assert s[..i + 1] == s[..i] + [s[i]];
      FilterConcat(s[..i], [s[i]], HasDate);
      FilterSingleton(s[i], HasDate);
      ghost var kept := rows[..n];
      if HasDate(rows[i]) {
        rows[n] := rows[i];
        n := n + 1;
        assert rows[..n] == kept + [s[i]];
      } else {
        assert rows[..n] == kept;
      }
    }
    assert s[..rows.Length] == s;
  }

  /** The strip loop followed by the in-place `dropna`: the cleaned rows that
      have a status date end up, in order, in the first `n` slots. */
  method CleanAndDrop(rows: array<Row>, columns: seq<Column>) returns (n: nat)
    modifies rows
    ensures n <= rows.Length
    ensures rows[..n] == KeepDated(Cleaned(old(rows[..]), columns))
  {
    StripCategoricalColumns(rows, columns);
    n := DropMissingDates(rows);
  }

  /** The steps after both checks, on the array in place: strip, drop the
      undated rows, pick the latest day and count. */
  method SummarizeFrame(rows: array<Row>, columns: seq<Column>) returns (outcome: Outcome, n: nat)
    modifies rows
    ensures n <= rows.Length && rows[..n] == KeepDated(Cleaned(old(rows[..]), columns))
    ensures outcome == Summarize(Cleaned(old(rows[..]), columns), rows.Length)
  {
    var before := rows.Length;
    n := CleanAndDrop(rows, columns);
    var dated := rows[..n];
    if n == 0 {
      outcome := NoValidDates;
    } else {
      var latest := LatestDate(dated);
      var daily := OnDate(dated, latest);
      outcome := Daily(latest, daily, before, before - n);
    }
  }

  /** The handler: every check and step in the order the source runs them,
      on a frame held in an array that the steps update in place. `n` is the
      frame's length when the handler returns. A file refused by either
      check is left exactly as it was; otherwise the frame is the cleaned
      rows that have a status date, in order. */
  method HandleExcelFile(fileName: string, columns: seq<Column>, rows: array<Row>)
    returns (outcome: Outcome, n: nat)
    modifies rows
    ensures outcome == Process(fileName, columns, old(rows[..]))
    ensures n <= rows.Length
    ensures outcome.BadExtension? || outcome.MissingHeaders? ==> n == rows.Length && rows[..] == old(rows[..])
    ensures outcome.NoValidDates? || outcome.Daily? ==> rows[..n] == KeepDated(Cleaned(old(rows[..]), columns))
  {
    if !IsExcelName(fileName) {
      return BadExtension, rows.Length;
    }
    var missing := FindMissingHeaders(RequiredHeaders, columns);
    if missing != [] {
      return MissingHeaders(missing), rows.Length;
    }
    outcome, n := SummarizeFrame(rows, columns);
  }
}

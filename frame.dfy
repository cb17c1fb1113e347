/** The spreadsheet as the handler sees it after `pd.read_excel`: a list of
    column names and a sequence of rows. Every cell is already text; the
    STATUSDATE column is carried as the outcome of `pd.to_datetime(...,
    errors='coerce')`, which is absent (NaT) when the cell cannot be read as
    a date. */
module Frame {
  import opened Text

  datatype Option<T> = None | Some(value: T)

  type Column = string

  /** A calendar day, counted from an arbitrary epoch: what `.dt.date`
      keeps of a timestamp. */
  type Date = int

  /** A parsed STATUSDATE: its calendar day and the time within that day. */
  datatype Timestamp = Timestamp(date: Date, timeOfDay: nat)

  /** One spreadsheet row: its text cells by column, and its parsed status
      date. */
  datatype Row = Row(cells: map<Column, string>, statusDate: Option<Timestamp>)

  /** The headers a file must carry, in the order they are reported. */
  const RequiredHeaders: seq<Column> :=
    ["SCORDERNO", "STO", "STATUSDATE", "STATUS", "ERRORCODE", "SUBERRORCODE"]

  /** The categorical columns whose cells are whitespace-stripped. */
  const CategoricalColumns: seq<Column> := ["STO", "STATUS", "ERRORCODE", "SUBERRORCODE"]

  /** The row's STATUSDATE parsed. */
  predicate HasDate(r: Row)
  {
    r.statusDate.Some?
  }

  /** The categorical columns the strip loop actually touches: those the
      frame has. */
  function StripSet(columns: seq<Column>): set<Column>
  {
    set c | c in CategoricalColumns && c in columns
  }

  /** The cell of `col`, stripped, when the row has one. */
  function StripCell(r: Row, col: Column): Row
  {
    if col in r.cells then r.(cells := r.cells[col := Strip(r.cells[col])]) else r
  }

  /** The row with the cells of every column in `cols` stripped. */
  function CleanRow(r: Row, cols: set<Column>): Row
  {
    r.(cells := map c | c in r.cells :: if c in cols then Strip(r.cells[c]) else r.cells[c])
  }

  /** The frame after the strip loop: row by row, the categorical cells are
      stripped. */
  function Cleaned(rows: seq<Row>, columns: seq<Column>): seq<Row>
  {
    seq(|rows|, i requires 0 <= i < |rows| => CleanRow(rows[i], StripSet(columns)))
  }

  /** The strip step changes the four categorical cells and nothing else: no
      other cell, not the status date, not the set of columns of a row, not
      the number or order of the rows. */
  lemma CleanedChangesOnlyCategorical(rows: seq<Row>, columns: seq<Column>)
    ensures |Cleaned(rows, columns)| == |rows|
    ensures forall i :: 0 <= i < |rows| ==>
      var r, r' := rows[i], Cleaned(rows, columns)[i];
      r'.statusDate == r.statusDate && r'.cells.Keys == r.cells.Keys
      && forall c :: c in r.cells ==>
        r'.cells[c] == if c in CategoricalColumns && c in columns then Strip(r.cells[c]) else r.cells[c]
  {
  }

  /** Stripping one more column extends the set of stripped columns. */
  lemma StripCellExtends(r: Row, cols: set<Column>, col: Column)
    requires col !in cols
    ensures StripCell(CleanRow(r, cols), col) == CleanRow(r, cols + {col})
  {
    var a, b := StripCell(CleanRow(r, cols), col), CleanRow(r, cols + {col});
    assert a.cells.Keys == b.cells.Keys;
    forall c | c in a.cells ensures a.cells[c] == b.cells[c] {
    }
    assert a.cells == b.cells;
  }

  /** Stripping the cells is a fixed point: cleaning a cleaned frame again
      changes nothing. */
  lemma CleanedIdempotent(rows: seq<Row>, columns: seq<Column>)
    ensures Cleaned(Cleaned(rows, columns), columns) == Cleaned(rows, columns)
  {
    var once := Cleaned(rows, columns);
    var twice := Cleaned(once, columns);
    forall i | 0 <= i < |rows| ensures twice[i] == once[i] {
      var r := rows[i];
      forall c | c in r.cells && c in StripSet(columns)
        ensures Strip(Strip(r.cells[c])) == Strip(r.cells[c])
      {
        StripIdempotent(r.cells[c]);
      }
      assert twice[i].cells == once[i].cells;
    }
  }

  /** Stripping leaves the status dates, so it keeps exactly the rows that
      have one. */
  lemma CleanedKeepsDates(rows: seq<Row>, columns: seq<Column>)
    ensures forall i :: 0 <= i < |rows| ==> (HasDate(Cleaned(rows, columns)[i]) <==> HasDate(rows[i]))
  {
  }
}

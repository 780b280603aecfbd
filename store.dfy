/**
 * The dataset store: the table of rows held in the CSV file, how it is
 * loaded and validated (`load_data`), and the two writes the controller
 * makes to it, the point update of one ID's label (`save_label`) and the
 * clearing of every label (the Reset action).
 */
module Store {
  import opened Wrappers

  /** A cell as pandas reads it from the CSV file; `None` is NaN (an empty cell). */
  type Cell = Option<string>

  /** A label is unset when it is NaN or the empty string; any other token counts as set. */
  predicate IsUnset(lbl: Cell)
  {
    lbl.None? || lbl.value == ""
  }

  /** The empty-string label that load_data synthesises and Reset writes. */
  const Blank: Cell := Some("")

  /** The two answers the annotator can give, and the tokens written for them. */
  datatype Answer = Yes | No

  function Token(a: Answer): (t: Cell)
    ensures !IsUnset(t)
  {
    match a
    case Yes => Some("Yes")
    case No => Some("No")
  }

  // ---------------------------------------------------------------------------
  // The file as pandas sees it, and load_data
  // ---------------------------------------------------------------------------

  /** One CSV record: a cell for each column name. */
  type Record = map<string, Cell>

  /** A parsed CSV file: its header and its records, in file order. */
  datatype Frame = Frame(columns: seq<string>, records: seq<Record>)

  /** Every record has exactly one cell per column of the header. */
  predicate WellFormed(f: Frame)
  {
    forall k :: 0 <= k < |f.records| ==> f.records[k].Keys == set c | c in f.columns
  }

  /** What reading the file gives: it is absent, pandas cannot parse it, or a frame. */
  datatype FileState = Absent | Malformed | Parsed(frame: Frame)

  /** Why load_data gives up; each case is reported with its own message. */
  datatype LoadError = NotFound | ParseError | MissingColumns(missing: seq<string>) | WriteFailed

  const LabelColumn := "Label"
  const RequiredColumns: seq<string> := ["ID", "Prompts", "Responses"]

  /** The required columns absent from `columns`. */
  function Missing(required: seq<string>, columns: seq<string>): (m: seq<string>)
    ensures forall c :: c in m <==> c in required && c !in columns
    ensures |m| <= |required|
  {
    if required == [] then []
    else (if required[0] in columns then [] else [required[0]]) + Missing(required[1..], columns)
  }

  /** A frame the controller can work on: the three required columns and Label. */
  predicate HasSchema(f: Frame)
  {
    WellFormed(f) && LabelColumn in f.columns && forall c :: c in RequiredColumns ==> c in f.columns
  }

  /** The frame with a Label column appended and set to the empty string in every record. */
  function WithLabelColumn(f: Frame): Frame
  {
    Frame(f.columns + [LabelColumn],
          seq(|f.records|, k requires 0 <= k < |f.records| => f.records[k][LabelColumn := Blank]))
  }

  /**
   * load_data: fails when the file is absent or unreadable or lacks a required
   * column; otherwise returns the frame, first adding a blank Label column and
   * rewriting the file when Label is absent (a failure of that rewrite is
   * caught like any other and also makes the load fail).
   */
  function Load(file: FileState, writeOk: bool): (r: Result<Frame, LoadError>)
    ensures r == Failure(NotFound) <==> file.Absent?
    ensures r == Failure(ParseError) <==> file.Malformed?
    ensures r.Success? <==>
      file.Parsed? && (forall c :: c in RequiredColumns ==> c in file.frame.columns) &&
      (LabelColumn in file.frame.columns || writeOk)
    ensures file.Parsed? ==>
      (r.Failure? && r.error.MissingColumns? <==>
        exists c :: c in RequiredColumns && c !in file.frame.columns)
    ensures r.Failure? && r.error.MissingColumns? ==>
      r.error.missing == Missing(RequiredColumns, file.frame.columns)
    ensures r == Failure(WriteFailed) <==>
      file.Parsed? && LabelColumn !in file.frame.columns && !writeOk &&
      forall c :: c in RequiredColumns ==> c in file.frame.columns
    ensures r.Success? ==>
      file.Parsed? && LabelColumn in r.value.columns &&
      forall c :: c in RequiredColumns ==> c in r.value.columns
    ensures r.Success? && LabelColumn in file.frame.columns ==> r.value == file.frame
    ensures r.Success? && LabelColumn !in file.frame.columns ==>
      r.value.columns == file.frame.columns + [LabelColumn] &&
      |r.value.records| == |file.frame.records| &&
      forall k :: 0 <= k < |r.value.records| ==>
        r.value.records[k].Keys == file.frame.records[k].Keys + {LabelColumn} &&
        r.value.records[k][LabelColumn] == Blank &&
        forall c :: c in file.frame.records[k] && c != LabelColumn ==>
          c in r.value.records[k] && r.value.records[k][c] == file.frame.records[k][c]
  {
    match file
    case Absent => Failure(NotFound)
    case Malformed => Failure(ParseError)
    case Parsed(f) =>
      var missing := Missing(RequiredColumns, f.columns);
      if missing != [] then
        assert missing[0] in RequiredColumns && missing[0] !in f.columns;
        Failure(MissingColumns(missing))
      else if LabelColumn in f.columns then Success(f)
      else if writeOk then Success(WithLabelColumn(f))
      else Failure(WriteFailed)
  }

  /** A successful load of a well-formed file gives a frame the controller can use. */
  lemma LoadedHasSchema(file: FileState, writeOk: bool)
    requires file.Parsed? && WellFormed(file.frame) && Load(file, writeOk).Success?
    ensures HasSchema(Load(file, writeOk).value)
  {
  }

  /**
   * A cell after `to_csv` and `read_csv`: the empty string is written as an
   * empty field, and an empty field is read back as NaN.  Other cells come
   * back as written; that holds for the cells this program writes (`''`,
   * `Yes`, `No`) and for cells `read_csv` produced, but not for strings such
   * as "NA" or "null", which `read_csv` would also read as NaN.
   */
  function ReadBack(c: Cell): (d: Cell)
    ensures IsUnset(d) <==> IsUnset(c)
    ensures d != Blank
  {
    if c == Blank then None else c
  }

  /** The frame a later `read_csv` sees after this frame was written with `to_csv`. */
  function Reread(f: Frame): (g: Frame)
    ensures g.columns == f.columns && |g.records| == |f.records|
    ensures forall k :: 0 <= k < |g.records| ==> g.records[k].Keys == f.records[k].Keys
  {
    Frame(f.columns,
          seq(|f.records|, k requires 0 <= k < |f.records| =>
            map c | c in f.records[k] :: ReadBack(f.records[k][c])))
  }

  /**
   * The schema upgrade is written once: reading the upgraded file back and
   * loading it again succeeds whatever a write would do, because it needs no
   * write and adds no column.  The reloaded frame has the Label column with
   * every label NaN (unset), every other cell as the first read gave it
   * (empty fields as NaN), and further reloads change nothing more.
   */
  lemma UpgradeIsStable(f: Frame, writeOk: bool, writeOk': bool)
    requires LabelColumn !in f.columns && Load(Parsed(f), writeOk).Success?
    ensures var h := Reread(Load(Parsed(f), writeOk).value);
      Load(Parsed(h), writeOk') == Success(h) &&
      h.columns == f.columns + [LabelColumn] &&
      |h.records| == |f.records| &&
      (forall k :: 0 <= k < |h.records| ==>
        LabelColumn in h.records[k] && h.records[k][LabelColumn] == None &&
        forall c :: c in f.records[k] && c != LabelColumn ==>
          c in h.records[k] && h.records[k][c] == ReadBack(f.records[k][c])) &&
      Reread(h) == h
  {
    var g := Load(Parsed(f), writeOk).value;
    var h := Reread(g);
    forall k | 0 <= k < |h.records|
      ensures Reread(h).records[k] == h.records[k]
    {
      assert Reread(h).records[k].Keys == h.records[k].Keys;
    }
  }

  // ---------------------------------------------------------------------------
  // The rows the controller works on
  // ---------------------------------------------------------------------------

  /** A row of the table: its ID, prompt, response and label cells. */
  datatype Row = Row(id: Cell, prompt: Cell, response: Cell, lbl: Cell)

  /** The rows of a frame that has the schema, in file order (the frame's index). */
  function RowsOf(f: Frame): (rows: seq<Row>)
    requires HasSchema(f)
    ensures |rows| == |f.records|
    ensures forall k :: 0 <= k < |rows| ==>
      "ID" in f.records[k] && "Prompts" in f.records[k] && "Responses" in f.records[k] &&
      rows[k] == Row(f.records[k]["ID"], f.records[k]["Prompts"], f.records[k]["Responses"], f.records[k][LabelColumn])
  {
    assert "ID" in RequiredColumns && "Prompts" in RequiredColumns && "Responses" in RequiredColumns;
    seq(|f.records|, k requires 0 <= k < |f.records| =>
      Row(f.records[k]["ID"], f.records[k]["Prompts"], f.records[k]["Responses"], f.records[k][LabelColumn]))
  }

  /** A row after its file was written and read back: each cell goes through `ReadBack`. */
  function RereadRow(r: Row): (s: Row)
    ensures IsUnset(s.lbl) <==> IsUnset(r.lbl)
    ensures s.lbl != Blank
  {
    Row(ReadBack(r.id), ReadBack(r.prompt), ReadBack(r.response), ReadBack(r.lbl))
  }

  /**
   * Reading a written frame back keeps the schema, and its rows are the old
   * rows read back cell by cell.
   */
  lemma RowsOfReread(f: Frame)
    requires HasSchema(f)
    ensures HasSchema(Reread(f))
    ensures |RowsOf(Reread(f))| == |RowsOf(f)|
    ensures forall k :: 0 <= k < |RowsOf(f)| ==> RowsOf(Reread(f))[k] == RereadRow(RowsOf(f)[k])
  {
  }

  /** When load_data had to add the Label column, every row it returns is unlabeled. */
  lemma UpgradedRowsAreUnset(f: Frame, writeOk: bool)
    requires WellFormed(f) && LabelColumn !in f.columns && Load(Parsed(f), writeOk).Success?
    ensures HasSchema(Load(Parsed(f), writeOk).value)
    ensures var rows := RowsOf(Load(Parsed(f), writeOk).value);
      |rows| == |f.records| && forall k :: 0 <= k < |rows| ==> IsUnset(rows[k].lbl)
  {
  }

  /** pandas' `df['ID'] == item_id`: NaN equals nothing, not even NaN. */
  predicate SameId(a: Cell, b: Cell)
  {
    a.Some? && a == b
  }

  /** The table after save_label(id, lbl): every row with that ID gets the label. */
  function WithLabel(rows: seq<Row>, id: Cell, lbl: Cell): (r: seq<Row>)
    ensures |r| == |rows|
  {
    seq(|rows|, k requires 0 <= k < |rows| =>
      if SameId(rows[k].id, id) then rows[k].(lbl := lbl) else rows[k])
  }

  /** The table after Reset: every label is the empty string. */
  function Cleared(rows: seq<Row>): (r: seq<Row>)
    ensures |r| == |rows|
  {
    seq(|rows|, k requires 0 <= k < |rows| => rows[k].(lbl := Blank))
  }

  /**
   * save_label changes the label of exactly the rows whose ID matches, and no
   * other cell; an ID that matches no row leaves the table as it was.
   */
  lemma WithLabelChangesOnlyMatches(rows: seq<Row>, id: Cell, lbl: Cell)
    ensures forall k :: 0 <= k < |rows| ==>
      WithLabel(rows, id, lbl)[k].id == rows[k].id &&
      WithLabel(rows, id, lbl)[k].prompt == rows[k].prompt &&
      WithLabel(rows, id, lbl)[k].response == rows[k].response &&
      WithLabel(rows, id, lbl)[k].lbl == (if SameId(rows[k].id, id) then lbl else rows[k].lbl)
    ensures (forall k :: 0 <= k < |rows| ==> !SameId(rows[k].id, id)) ==> WithLabel(rows, id, lbl) == rows
  {
  }

  /** Reset clears every label and touches no other cell; clearing twice is clearing once. */
  lemma ClearedProperties(rows: seq<Row>)
    ensures forall k :: 0 <= k < |rows| ==>
      IsUnset(Cleared(rows)[k].lbl) &&
      Cleared(rows)[k] == rows[k].(lbl := Blank)
    ensures Cleared(Cleared(rows)) == Cleared(rows)
  {
  }
}

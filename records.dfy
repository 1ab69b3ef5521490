/**
 * The archive table and the cell updates of the Status tab (desarquivar /
 * rearquivar one record) and of the move tab (new Local / Estante /
 * Prateleira for every selected record), app.py.
 */
module Records {
  import opened Wrappers
  import opened Text
  import opened Codec

  /** A DataFrame cell: text, or the NaN pandas writes into the other rows of a column it creates. */
  datatype Cell = Str(s: string) | Nan

  /** The DataFrame: its number of rows and, per column label, the column's cells in row order. */
  datatype Table = Table(size: nat, cols: map<Column, seq<Cell>>)

  /**
   * Column labels: the ten the tabs read or write by name, and `Other` for
   * every remaining label of the sheet (never one of the ten).
   */
  datatype Column =
    | IdCol | StatusCol
    | RetrievalByCol | RetrievalDateCol | RetrievalNoteCol
    | ArchivalByCol | ArchivalDateCol
    | LocalCol | ShelfCol | LevelCol
    | Other(name: string)

  /** The label of the column in the sheet. */
  function Label(c: Column): string {
    match c
    case IdCol => "ID"
    case StatusCol => "Status"
    case RetrievalByCol => "Respons\U{00E1}vel Desarquivamento"
    case RetrievalDateCol => "Data Desarquivamento"
    case RetrievalNoteCol => "Observa\U{00E7}\U{00E3}o Desarquivamento"
    case ArchivalByCol => "Respons\U{00E1}vel Arquivamento"
    case ArchivalDateCol => "Data Arquivamento"
    case LocalCol => "Local"
    case ShelfCol => "Estante"
    case LevelCol => "Prateleira"
    case Other(name) => name
  }

  const Retrieved: string := "DESARQUIVADO"
  const Archived: string := "ARQUIVADO"

  /** Every column has one cell per row. */
  ghost predicate WellFormed(t: Table) {
    forall c | c in t.cols :: |t.cols[c]| == t.size
  }

  /** `str(cell)` */
  function CellText(c: Cell): string {
    match c
    case Str(s) => s
    case Nan => "nan"
  }

  /** A column of n equal cells. */
  function Repeat(v: Cell, n: nat): (column: seq<Cell>)
    ensures |column| == n && forall k | 0 <= k < n :: column[k] == v
  {
    if n == 0 then [] else Repeat(v, n - 1) + [v]
  }

  /**
   * `df.at[i, c] = v`: row i of column c becomes v; a column that did not
   * exist is created, holding NaN in every other row.
   */
  function SetAt(t: Table, i: int, c: Column, v: Cell): (r: Table)
    requires WellFormed(t) && 0 <= i < t.size
    ensures WellFormed(r) && r.size == t.size
    ensures forall d :: d in r.cols <==> d in t.cols || d == c
    ensures r.cols[c][i] == v
    ensures forall k | 0 <= k < t.size && k != i :: r.cols[c][k] == if c in t.cols then t.cols[c][k] else Nan
    ensures forall d | d in t.cols && d != c :: r.cols[d] == t.cols[d]
  {
    var column := if c in t.cols then t.cols[c] else Repeat(Nan, t.size);
    Table(t.size, t.cols[c := column[i := v]])
  }

  /** Column c of t, or a new column of `fill` cells when t has none. */
  function ColumnOr(t: Table, c: Column, fill: Cell): (column: seq<Cell>)
    requires WellFormed(t)
    ensures |column| == t.size
  {
    if c in t.cols then t.cols[c] else Repeat(fill, t.size)
  }

  /**
   * Column c of r holds v in row i and, in every other row, what t held there,
   * or `fill` when t had no such column.
   */
  ghost predicate Written(t: Table, r: Table, c: Column, i: int, v: Cell, fill: Cell)
    requires WellFormed(t) && 0 <= i < t.size
  {
    c in r.cols && r.cols[c] == ColumnOr(t, c, fill)[i := v]
  }

  /** `df[c] = v`: the column holds v in every row. */
  function Fill(t: Table, c: Column, v: Cell): (r: Table)
    requires WellFormed(t)
    ensures WellFormed(r) && r.size == t.size && r.cols.Keys == t.cols.Keys + {c}
    ensures forall k | 0 <= k < t.size :: r.cols[c][k] == v
    ensures forall d | d in t.cols && d != c :: r.cols[d] == t.cols[d]
  {
    Table(t.size, t.cols[c := Repeat(v, t.size)])
  }

  /** `df[df["ID"] == id].index[0]`: the first row whose ID cell is exactly `id`. */
  function FindRow(ids: seq<Cell>, id: string): (r: Option<nat>)
    ensures r.Some? ==> r.value < |ids| && ids[r.value] == Str(id)
    ensures forall k | 0 <= k < |ids| && (r.None? || k < r.value) :: ids[k] != Str(id)
  {
    if ids == [] then None
    else if ids[0] == Str(id) then Some(0)
    else
      match FindRow(ids[1..], id)
      case None => None
      case Some(i) => Some(i + 1)
  }

  /** `str(df.at[i, "Status"]).strip().upper()` */
  function StatusText(cell: Cell): string {
    Normalize(CellText(cell))
  }

  datatype StatusError =
    | NoInput                      // the ID field is empty: nothing is shown
    | NotFound(id: string)         // no row has this ID
    | NoResponsible                // the responsible person is blank
    | AlreadyRetrieved(id: string) // desarquivar on a record already DESARQUIVADO

  /** The columns the Status tab reads. */
  ghost predicate StatusReady(t: Table) {
    WellFormed(t) && IdCol in t.cols && StatusCol in t.cols
  }

  /**
   * The Status tab's checks before it changes anything, in the order it makes
   * them; on success, the row the operation applies to. The typed ID is
   * stripped and upper-cased once it is non-empty.
   */
  function LocateForStatus(t: Table, idInput: string, responsible: string, retrieving: bool): (r: Result<nat, StatusError>)
    requires StatusReady(t)
    ensures r == Failure(NoInput) <==> idInput == []
    ensures idInput != [] ==> r == Locate(t, Normalize(idInput), responsible, retrieving)
  {
    if idInput == [] then Failure(NoInput) else Locate(t, Normalize(idInput), responsible, retrieving)
  }

  /** The checks once the ID is normalised. */
  function Locate(t: Table, id: string, responsible: string, retrieving: bool): (r: Result<nat, StatusError>)
    requires StatusReady(t)
    ensures r != Failure(NoInput)
    ensures r.Success? ==>
      && FindRow(t.cols[IdCol], id) == Some(r.value)
      && Strip(responsible) != []
      && (retrieving ==> StatusText(t.cols[StatusCol][r.value]) != Retrieved)
  {
    match FindRow(t.cols[IdCol], id)
    case None => Failure(NotFound(id))
    case Some(i) =>
      if Strip(responsible) == [] then Failure(NoResponsible)
      else if retrieving && StatusText(t.cols[StatusCol][i]) == Retrieved then Failure(AlreadyRetrieved(id))
      else Success(i)
  }

  /**
   * Each rejection happens exactly in its case: an unknown ID, a blank
   * responsible, and, for desarquivar only, a record whose status reads
   * DESARQUIVADO after strip and upper-casing.
   */
  lemma StatusRejections(t: Table, id: string, responsible: string, retrieving: bool)
    requires StatusReady(t)
    ensures var r := Locate(t, id, responsible, retrieving);
      var found := FindRow(t.cols[IdCol], id);
      && (r == Failure(NotFound(id)) <==> found.None?)
      && (r == Failure(NoResponsible) <==> found.Some? && Strip(responsible) == [])
      && (r == Failure(AlreadyRetrieved(id)) <==>
            found.Some? && Strip(responsible) != [] && retrieving
            && StatusText(t.cols[StatusCol][found.value]) == Retrieved)
  {
    var r := Locate(t, id, responsible, retrieving);
    match FindRow(t.cols[IdCol], id)
    case None =>
      assert r == Failure(NotFound(id));
    case Some(i) =>
      if Strip(responsible) == [] {
        assert r == Failure(NoResponsible);
      } else if retrieving && StatusText(t.cols[StatusCol][i]) == Retrieved {
        assert r == Failure(AlreadyRetrieved(id));
      } else {
        assert r == Success(i);
      }
  }

  /** The cells desarquivar writes into row i; `note` is the already stripped note. */
  function Retrieve(t: Table, i: int, responsible: string, date: string, note: string): Table
    requires WellFormed(t) && 0 <= i < t.size
  {
    var t1 := SetAt(t, i, StatusCol, Str(Retrieved));
    var t2 := SetAt(t1, i, RetrievalByCol, Str(responsible));
    var t3 := SetAt(t2, i, RetrievalDateCol, Str(date));
    var t4 := if RetrievalNoteCol in t3.cols then t3 else Fill(t3, RetrievalNoteCol, Str(""));
    SetAt(t4, i, RetrievalNoteCol, Str(note))
  }

  /** The first three writes of rearquivar: Status and the archival responsible and date. */
  function ArchivalCells(t: Table, i: int, responsible: string, date: string): Table
    requires WellFormed(t) && 0 <= i < t.size
  {
    var t1 := SetAt(t, i, StatusCol, Str(Archived));
    var t2 := SetAt(t1, i, ArchivalByCol, Str(responsible));
    SetAt(t2, i, ArchivalDateCol, Str(date))
  }

  /** The cells rearquivar writes into row i; the retrieval cells are cleared only where their column exists. */
  function Rearchive(t: Table, i: int, responsible: string, date: string): Table
    requires WellFormed(t) && 0 <= i < t.size
  {
    var t3 := ArchivalCells(t, i, responsible, date);
    var t4 := ClearIfPresent(t3, i, RetrievalByCol);
    var t5 := ClearIfPresent(t4, i, RetrievalDateCol);
    ClearIfPresent(t5, i, RetrievalNoteCol)
  }

  /** Row i of column c becomes empty text when the table has that column; no column is created. */
  function ClearIfPresent(t: Table, i: int, c: Column): (r: Table)
    requires WellFormed(t) && 0 <= i < t.size
    ensures WellFormed(r) && r.size == t.size
    ensures forall d :: d in r.cols <==> d in t.cols
    ensures forall d | d in t.cols && d != c :: r.cols[d] == t.cols[d]
    ensures c in t.cols ==> r.cols[c] == t.cols[c][i := Str("")]
  {
    if c in t.cols then SetAt(t, i, c, Str("")) else t
  }

  /** The columns desarquivar writes. */
  predicate WrittenByRetrieve(d: Column) {
    d == StatusCol || d == RetrievalByCol || d == RetrievalDateCol || d == RetrievalNoteCol
  }

  /** The columns rearquivar writes or clears. */
  predicate TouchedByRearchive(d: Column) {
    d == StatusCol || d == ArchivalByCol || d == ArchivalDateCol
      || d == RetrievalByCol || d == RetrievalDateCol || d == RetrievalNoteCol
  }

  /**
   * Desarquivar adds at most the four columns it writes and leaves every
   * other column as it was.
   */
  lemma RetrieveKeeps(t: Table, i: int, responsible: string, date: string, note: string)
    requires WellFormed(t) && 0 <= i < t.size
    ensures var r := Retrieve(t, i, responsible, date, note);
      && WellFormed(r) && r.size == t.size
      && (forall d :: d in r.cols <==> d in t.cols || WrittenByRetrieve(d))
      && forall d | d in t.cols && !WrittenByRetrieve(d) :: r.cols[d] == t.cols[d]
  {
    var t1 := SetAt(t, i, StatusCol, Str(Retrieved));
    var t2 := SetAt(t1, i, RetrievalByCol, Str(responsible));
    var t3 := SetAt(t2, i, RetrievalDateCol, Str(date));
    var t4 := if RetrievalNoteCol in t3.cols then t3 else Fill(t3, RetrievalNoteCol, Str(""));
    assert forall d | d in t.cols && !WrittenByRetrieve(d) :: t4.cols[d] == t.cols[d];
  }

  /**
   * Desarquivar sets Status, responsible, date and note of row i and no
   * other row of those columns; of the columns it creates, the responsible
   * and date columns are NaN and the note column is empty in other rows.
   */
  lemma RetrieveWrites(t: Table, i: int, responsible: string, date: string, note: string)
    requires WellFormed(t) && 0 <= i < t.size
    ensures var r := Retrieve(t, i, responsible, date, note);
      && Written(t, r, StatusCol, i, Str(Retrieved), Nan)
      && Written(t, r, RetrievalByCol, i, Str(responsible), Nan)
      && Written(t, r, RetrievalDateCol, i, Str(date), Nan)
      && Written(t, r, RetrievalNoteCol, i, Str(note), Str(""))
  {
    var t1 := SetAt(t, i, StatusCol, Str(Retrieved));
    var t2 := SetAt(t1, i, RetrievalByCol, Str(responsible));
    var t3 := SetAt(t2, i, RetrievalDateCol, Str(date));
    var t4 := if RetrievalNoteCol in t3.cols then t3 else Fill(t3, RetrievalNoteCol, Str(""));
    var r := SetAt(t4, i, RetrievalNoteCol, Str(note));
    assert r.cols[StatusCol] == t1.cols[StatusCol];
    assert r.cols[RetrievalByCol] == t2.cols[RetrievalByCol];
    assert r.cols[RetrievalDateCol] == t3.cols[RetrievalDateCol];
    assert t4.cols[RetrievalNoteCol] == ColumnOr(t, RetrievalNoteCol, Str(""));
  }

  /**
   * Rearquivar adds at most the Status and archival columns, creates no
   * retrieval column, and leaves every other column as it was.
   */
  lemma RearchiveKeeps(t: Table, i: int, responsible: string, date: string)
    requires WellFormed(t) && 0 <= i < t.size
    ensures var r := Rearchive(t, i, responsible, date);
      && WellFormed(r) && r.size == t.size
      && (forall d :: d in r.cols <==> d in t.cols || d == StatusCol || d == ArchivalByCol || d == ArchivalDateCol)
      && forall d | d in t.cols && !TouchedByRearchive(d) :: r.cols[d] == t.cols[d]
  {
    var t1 := SetAt(t, i, StatusCol, Str(Archived));
    var t2 := SetAt(t1, i, ArchivalByCol, Str(responsible));
    var t3 := SetAt(t2, i, ArchivalDateCol, Str(date));
    var t4 := ClearIfPresent(t3, i, RetrievalByCol);
    var t5 := ClearIfPresent(t4, i, RetrievalDateCol);
    assert forall d | d in t.cols && !TouchedByRearchive(d) :: t5.cols[d] == t.cols[d];
  }

  /** Rearquivar sets Status and the archival responsible and date of row i and no other row of those columns. */
  lemma RearchiveWrites(t: Table, i: int, responsible: string, date: string)
    requires WellFormed(t) && 0 <= i < t.size
    ensures var r := Rearchive(t, i, responsible, date);
      && Written(t, r, StatusCol, i, Str(Archived), Nan)
      && Written(t, r, ArchivalByCol, i, Str(responsible), Nan)
      && Written(t, r, ArchivalDateCol, i, Str(date), Nan)
  {
    var t3 := ArchivalCells(t, i, responsible, date);
    ArchivalCellsWrites(t, i, responsible, date);
    ClearsKeep(t3, i, StatusCol);
    ClearsKeep(t3, i, ArchivalByCol);
    ClearsKeep(t3, i, ArchivalDateCol);
  }

  /** Clearing the three retrieval cells leaves any other column as it was. */
  lemma ClearsKeep(t: Table, i: int, c: Column)
    requires WellFormed(t) && 0 <= i < t.size && c in t.cols
    requires c != RetrievalByCol && c != RetrievalDateCol && c != RetrievalNoteCol
    ensures var t4 := ClearIfPresent(t, i, RetrievalByCol);
      var t5 := ClearIfPresent(t4, i, RetrievalDateCol);
      var r := ClearIfPresent(t5, i, RetrievalNoteCol);
      c in r.cols && r.cols[c] == t.cols[c]
  {
  }

  lemma ArchivalCellsWrites(t: Table, i: int, responsible: string, date: string)
    requires WellFormed(t) && 0 <= i < t.size
    ensures var t3 := ArchivalCells(t, i, responsible, date);
      && Written(t, t3, StatusCol, i, Str(Archived), Nan)
      && Written(t, t3, ArchivalByCol, i, Str(responsible), Nan)
      && Written(t, t3, ArchivalDateCol, i, Str(date), Nan)
  {
    var t1 := SetAt(t, i, StatusCol, Str(Archived));
    var t2 := SetAt(t1, i, ArchivalByCol, Str(responsible));
    var t3 := SetAt(t2, i, ArchivalDateCol, Str(date));
    assert t3.cols[StatusCol] == t1.cols[StatusCol];
    assert t3.cols[ArchivalByCol] == t2.cols[ArchivalByCol];
  }

  /** Rearquivar empties row i of each retrieval column the table has and no other row of it. */
  lemma RearchiveClears(t: Table, i: int, responsible: string, date: string)
    requires WellFormed(t) && 0 <= i < t.size
    ensures var r := Rearchive(t, i, responsible, date);
      && (RetrievalByCol in t.cols ==> r.cols[RetrievalByCol] == t.cols[RetrievalByCol][i := Str("")])
      && (RetrievalDateCol in t.cols ==> r.cols[RetrievalDateCol] == t.cols[RetrievalDateCol][i := Str("")])
      && (RetrievalNoteCol in t.cols ==> r.cols[RetrievalNoteCol] == t.cols[RetrievalNoteCol][i := Str("")])
  {
    if RetrievalByCol in t.cols {
      RearchiveClearsOne(t, i, responsible, date, RetrievalByCol);
    }
    if RetrievalDateCol in t.cols {
      RearchiveClearsOne(t, i, responsible, date, RetrievalDateCol);
    }
    if RetrievalNoteCol in t.cols {
      RearchiveClearsOne(t, i, responsible, date, RetrievalNoteCol);
    }
  }

  lemma RearchiveClearsOne(t: Table, i: int, responsible: string, date: string, c: Column)
    requires WellFormed(t) && 0 <= i < t.size
    requires c == RetrievalByCol || c == RetrievalDateCol || c == RetrievalNoteCol
    requires c in t.cols
    ensures Rearchive(t, i, responsible, date).cols[c] == t.cols[c][i := Str("")]
  {
    var t3 := ArchivalCells(t, i, responsible, date);
    ArchivalCellsFrame(t, i, responsible, date);
    assert t3.cols[c] == t.cols[c];
    var t4 := ClearIfPresent(t3, i, RetrievalByCol);
    var t5 := ClearIfPresent(t4, i, RetrievalDateCol);
    var r := ClearIfPresent(t5, i, RetrievalNoteCol);
    if c == RetrievalByCol {
      assert t4.cols[c] == t.cols[c][i := Str("")];
      assert r.cols[c] == t5.cols[c] == t4.cols[c];
    } else if c == RetrievalDateCol {
      assert t4.cols[c] == t3.cols[c];
      assert r.cols[c] == t5.cols[c];
    } else {
      assert t5.cols[c] == t4.cols[c] == t3.cols[c];
    }
  }

  lemma ArchivalCellsFrame(t: Table, i: int, responsible: string, date: string)
    requires WellFormed(t) && 0 <= i < t.size
    ensures var t3 := ArchivalCells(t, i, responsible, date);
      && WellFormed(t3) && t3.size == t.size
      && forall d | d in t.cols && d != StatusCol && d != ArchivalByCol && d != ArchivalDateCol ::
           d in t3.cols && t3.cols[d] == t.cols[d]
  {
  }

  lemma RetrievedIsNormal()
    ensures Normalize(Retrieved) == Retrieved
  {
    assert forall k | 0 <= k < |Retrieved| :: IsIdChar(Retrieved[k]);
    NormalizeIdChars(Retrieved);
  }

  /** Once desarquivar succeeds, the same request is rejected as already retrieved. */
  lemma RetrieveTwiceRejected(t: Table, idInput: string, responsible: string, date: string, note: string)
    requires StatusReady(t)
    requires LocateForStatus(t, idInput, responsible, true).Success?
    ensures var r := Retrieve(t, LocateForStatus(t, idInput, responsible, true).value, responsible, date, note);
      StatusReady(r) && LocateForStatus(r, idInput, responsible, true) == Failure(AlreadyRetrieved(Normalize(idInput)))
  {
    var i := LocateForStatus(t, idInput, responsible, true).value;
    var r := Retrieve(t, i, responsible, date, note);
    RetrieveKeeps(t, i, responsible, date, note);
    RetrieveWrites(t, i, responsible, date, note);
    assert r.cols[IdCol] == t.cols[IdCol];
    RetrievedIsNormal();
    assert StatusText(r.cols[StatusCol][i]) == Retrieved;
  }

  /**
   * Desarquivar then rearquivar of one record: the record is ARQUIVADO
   * again, with the new archival responsible and date and its three
   * retrieval cells empty.
   */
  lemma RetrieveThenRearchiveRow(t: Table, i: int, by1: string, date1: string, note: string, by2: string, date2: string)
    requires WellFormed(t) && 0 <= i < t.size
    ensures var r := Rearchive(Retrieve(t, i, by1, date1, note), i, by2, date2);
      && WellFormed(r) && r.size == t.size
      && r.cols[StatusCol][i] == Str(Archived)
      && r.cols[RetrievalByCol][i] == Str("")
      && r.cols[RetrievalDateCol][i] == Str("")
      && r.cols[RetrievalNoteCol][i] == Str("")
      && r.cols[ArchivalByCol][i] == Str(by2)
      && r.cols[ArchivalDateCol][i] == Str(date2)
  {
    var m := Retrieve(t, i, by1, date1, note);
    RetrieveKeeps(t, i, by1, date1, note);
    RearchiveKeeps(m, i, by2, date2);
    RearchiveWrites(m, i, by2, date2);
    RearchiveClears(m, i, by2, date2);
  }

  /** Every cell of t outside row i is still in r. */
  ghost predicate SameOutside(t: Table, r: Table, i: int)
    requires WellFormed(t) && WellFormed(r) && r.size == t.size
  {
    forall d | d in t.cols ::
      d in r.cols && forall k | 0 <= k < t.size && k != i :: r.cols[d][k] == t.cols[d][k]
  }

  lemma SetAtOutside(t: Table, i: int, c: Column, v: Cell)
    requires WellFormed(t) && 0 <= i < t.size
    ensures SameOutside(t, SetAt(t, i, c, v), i)
  {
  }

  lemma SameOutsideTrans(a: Table, b: Table, c: Table, i: int)
    requires WellFormed(a) && WellFormed(b) && WellFormed(c) && b.size == a.size && c.size == a.size
    requires SameOutside(a, b, i) && SameOutside(b, c, i)
    ensures SameOutside(a, c, i)
  {
  }

  /** Desarquivar changes no cell outside row i. */
  lemma RetrieveOutside(t: Table, i: int, responsible: string, date: string, note: string)
    requires WellFormed(t) && 0 <= i < t.size
    ensures var r := Retrieve(t, i, responsible, date, note);
      WellFormed(r) && r.size == t.size && SameOutside(t, r, i)
  {
    var t1 := SetAt(t, i, StatusCol, Str(Retrieved));
    var t2 := SetAt(t1, i, RetrievalByCol, Str(responsible));
    var t3 := SetAt(t2, i, RetrievalDateCol, Str(date));
    var t4 := if RetrievalNoteCol in t3.cols then t3 else Fill(t3, RetrievalNoteCol, Str(""));
    var r := SetAt(t4, i, RetrievalNoteCol, Str(note));
    SetAtOutside(t, i, StatusCol, Str(Retrieved));
    SetAtOutside(t1, i, RetrievalByCol, Str(responsible));
    SetAtOutside(t2, i, RetrievalDateCol, Str(date));
    SetAtOutside(t4, i, RetrievalNoteCol, Str(note));
    SameOutsideTrans(t, t1, t2, i);
    SameOutsideTrans(t, t2, t3, i);
    assert SameOutside(t3, t4, i);
    SameOutsideTrans(t, t3, t4, i);
    SameOutsideTrans(t, t4, r, i);
  }

  /** Rearquivar changes no cell outside row i. */
  lemma RearchiveOutside(t: Table, i: int, responsible: string, date: string)
    requires WellFormed(t) && 0 <= i < t.size
    ensures var r := Rearchive(t, i, responsible, date);
      WellFormed(r) && r.size == t.size && SameOutside(t, r, i)
  {
    var t1 := SetAt(t, i, StatusCol, Str(Archived));
    var t2 := SetAt(t1, i, ArchivalByCol, Str(responsible));
    var t3 := SetAt(t2, i, ArchivalDateCol, Str(date));
    var t4 := ClearIfPresent(t3, i, RetrievalByCol);
    var t5 := ClearIfPresent(t4, i, RetrievalDateCol);
    var r := ClearIfPresent(t5, i, RetrievalNoteCol);
    SetAtOutside(t, i, StatusCol, Str(Archived));
    SetAtOutside(t1, i, ArchivalByCol, Str(responsible));
    SetAtOutside(t2, i, ArchivalDateCol, Str(date));
    ClearOutside(t3, i, RetrievalByCol);
    ClearOutside(t4, i, RetrievalDateCol);
    ClearOutside(t5, i, RetrievalNoteCol);
    SameOutsideTrans(t, t1, t2, i);
    SameOutsideTrans(t, t2, t3, i);
    SameOutsideTrans(t, t3, t4, i);
    SameOutsideTrans(t, t4, t5, i);
    SameOutsideTrans(t, t5, r, i);
  }

  lemma ClearOutside(t: Table, i: int, c: Column)
    requires WellFormed(t) && 0 <= i < t.size
    ensures SameOutside(t, ClearIfPresent(t, i, c), i)
  {
    if c in t.cols {
      SetAtOutside(t, i, c, Str(""));
    }
  }

  /**
   * Desarquivar then rearquivar of one record changes no other record's
   * cell and no cell outside the status columns.
   */
  lemma RetrieveThenRearchiveFrame(t: Table, i: int, by1: string, date1: string, note: string, by2: string, date2: string)
    requires WellFormed(t) && 0 <= i < t.size
    ensures var r := Rearchive(Retrieve(t, i, by1, date1, note), i, by2, date2);
      && WellFormed(r) && r.size == t.size
      && SameOutside(t, r, i)
      && (forall d | d in t.cols && !TouchedByRearchive(d) :: r.cols[d] == t.cols[d])
  {
    var m := Retrieve(t, i, by1, date1, note);
    RetrieveKeeps(t, i, by1, date1, note);
    RetrieveOutside(t, i, by1, date1, note);
    RearchiveKeeps(m, i, by2, date2);
    RearchiveOutside(m, i, by2, date2);
    SameOutsideTrans(t, m, Rearchive(m, i, by2, date2), i);
  }

  /** `df["ID"].astype(str).str.upper()` of one cell */
  function RowId(cell: Cell): string {
    Upper(CellText(cell))
  }

  /** `df["ID"].astype(str).str.upper()`: the upper-cased ID of every row. */
  function UpperIds(idColumn: seq<Cell>): (ups: seq<string>)
    ensures |ups| == |idColumn| && forall k | 0 <= k < |idColumn| :: ups[k] == RowId(idColumn[k])
  {
    seq(|idColumn|, k requires 0 <= k < |idColumn| => RowId(idColumn[k]))
  }

  /**
   * `df[ups.isin(keys)].index` for the upper-cased IDs `ups`: the rows whose
   * upper-cased ID is in `keys`, in increasing order, each once.
   */
  function MatchingRows(ups: seq<string>, keys: seq<string>): (rows: seq<nat>)
    ensures forall j | 0 <= j < |rows| :: rows[j] < |ups| && ups[rows[j]] in keys
    ensures forall j, j' | 0 <= j < j' < |rows| :: rows[j] < rows[j']
    ensures forall k | 0 <= k < |ups| && ups[k] in keys :: k in rows
  {
    if ups == [] then []
    else
      var rest := MatchingRows(ups[1..], keys);
      ShiftedRows(ups, keys, rest);
      if ups[0] in keys then
        ConsRows(ups, keys, Shift(rest));
        [0] + Shift(rest)
      else Shift(rest)
  }

  /** Row 0, when it matches, goes in front of the matching rows after it. */
  lemma ConsRows(ups: seq<string>, keys: seq<string>, shifted: seq<nat>)
    requires ups != [] && ups[0] in keys
    requires forall j | 0 <= j < |shifted| :: 1 <= shifted[j] < |ups| && ups[shifted[j]] in keys
    requires forall j, j' | 0 <= j < j' < |shifted| :: shifted[j] < shifted[j']
    requires forall k | 1 <= k < |ups| && ups[k] in keys :: k in shifted
    ensures var rows := [0] + shifted;
      && (forall j | 0 <= j < |rows| :: rows[j] < |ups| && ups[rows[j]] in keys)
      && (forall j, j' | 0 <= j < j' < |rows| :: rows[j] < rows[j'])
      && forall k | 0 <= k < |ups| && ups[k] in keys :: k in rows
  {
    var rows := [0] + shifted;
    assert forall j | 1 <= j < |rows| :: rows[j] == shifted[j - 1];
  }

  /** Every row index plus one. */
  function Shift(rows: seq<nat>): (r: seq<nat>)
    ensures |r| == |rows| && forall j | 0 <= j < |rows| :: r[j] == rows[j] + 1
  {
    seq(|rows|, j requires 0 <= j < |rows| => rows[j] + 1)
  }

  /** The matching rows of `ups[1..]`, each plus one, are the matching rows of ups after row 0. */
  lemma ShiftedRows(ups: seq<string>, keys: seq<string>, rest: seq<nat>)
    requires ups != []
    requires forall j | 0 <= j < |rest| :: rest[j] < |ups| - 1 && ups[1..][rest[j]] in keys
    requires forall j, j' | 0 <= j < j' < |rest| :: rest[j] < rest[j']
    requires forall k | 0 <= k < |ups| - 1 && ups[1..][k] in keys :: k in rest
    ensures var shifted := Shift(rest);
      && (forall j | 0 <= j < |shifted| :: 1 <= shifted[j] < |ups| && ups[shifted[j]] in keys)
      && (forall j, j' | 0 <= j < j' < |shifted| :: shifted[j] < shifted[j'])
      && forall k | 1 <= k < |ups| && ups[k] in keys :: k in shifted
  {
    var shifted := Shift(rest);
    forall k | 1 <= k < |ups| && ups[k] in keys
      ensures k in shifted
    {
      assert ups[1..][k - 1] == ups[k];
      var j :| 0 <= j < |rest| && rest[j] == k - 1;
      assert shifted[j] == k;
    }
  }

  /** Two key lists that select the same rows give the same row indices. */
  lemma {:induction false} MatchingRowsSameSelection(ups: seq<string>, a: seq<string>, b: seq<string>)
    requires forall k | 0 <= k < |ups| :: ups[k] in a <==> ups[k] in b
    ensures MatchingRows(ups, a) == MatchingRows(ups, b)
  {
    if ups != [] {
      assert forall k | 1 <= k < |ups| :: ups[1..][k - 1] == ups[k];
      MatchingRowsSameSelection(ups[1..], a, b);
    }
  }

  /**
   * `encontrados`: the upper-cased ID of every row whose upper-cased ID is
   * requested, in row order; one entry per matching row.
   */
  function FoundIds(idColumn: seq<Cell>, ids: seq<string>): (found: seq<string>)
    ensures |found| <= |idColumn|
    ensures forall x :: x in found <==> x in ids && exists k :: 0 <= k < |idColumn| && RowId(idColumn[k]) == x
    ensures var ups := UpperIds(idColumn);
      var rows := MatchingRows(ups, ids);
      |found| == |rows| && forall j | 0 <= j < |found| :: found[j] == ups[rows[j]]
  {
    var ups := UpperIds(idColumn);
    assert forall x :: x in ups <==> exists k :: 0 <= k < |idColumn| && RowId(idColumn[k]) == x by {
      forall x ensures x in ups <==> exists k :: 0 <= k < |idColumn| && RowId(idColumn[k]) == x {
        if x in ups {
          var k :| 0 <= k < |ups| && ups[k] == x;
          assert RowId(idColumn[k]) == x;
        }
      }
    }
    Selected(ups, ids)
  }

  /** `df_ids_upper[df_ids_upper["ID_UP"].isin(keys)]["ID_UP"].tolist()` on the column `ups`. */
  function Selected(ups: seq<string>, keys: seq<string>): (found: seq<string>)
    ensures |found| <= |ups|
    ensures forall x :: x in found <==> x in keys && x in ups
    ensures var rows := MatchingRows(ups, keys);
      |found| == |rows| && forall j | 0 <= j < |found| :: found[j] == ups[rows[j]]
  {
    if ups == [] then []
    else
      var rest := Selected(ups[1..], keys);
      FoundRowsStep(ups, keys, rest);
      SelectedMembers(ups, keys, rest);
      if ups[0] in keys then [ups[0]] + rest else rest
  }

  lemma SelectedMembers(ups: seq<string>, keys: seq<string>, rest: seq<string>)
    requires ups != []
    requires forall x :: x in rest <==> x in keys && x in ups[1..]
    ensures var found := if ups[0] in keys then [ups[0]] + rest else rest;
      forall x :: x in found <==> x in keys && x in ups
  {
    assert ups == [ups[0]] + ups[1..];
  }

  /** Row k of `ups[1..]` is row k + 1 of ups. */
  lemma ShiftedFound(ups: seq<string>, restRows: seq<nat>, rest: seq<string>)
    requires ups != [] && |rest| == |restRows|
    requires forall j | 0 <= j < |restRows| :: restRows[j] < |ups| - 1
    requires forall j | 0 <= j < |rest| :: rest[j] == ups[1..][restRows[j]]
    ensures forall j | 0 <= j < |rest| :: Shift(restRows)[j] < |ups| && rest[j] == ups[Shift(restRows)[j]]
  {
  }

  /** One step of FoundIds follows one step of MatchingRows. */
  lemma FoundRowsStep(ups: seq<string>, ids: seq<string>, rest: seq<string>)
    requires ups != []
    requires var rows := MatchingRows(ups[1..], ids);
      |rest| == |rows| && forall j | 0 <= j < |rest| :: rest[j] == ups[1..][rows[j]]
    ensures var found := if ups[0] in ids then [ups[0]] + rest else rest;
      var rows := MatchingRows(ups, ids);
      |found| == |rows| && forall j | 0 <= j < |found| :: found[j] == ups[rows[j]]
  {
    var restRows := MatchingRows(ups[1..], ids);
    ShiftedFound(ups, restRows, rest);
    if ups[0] in ids {
      assert MatchingRows(ups, ids) == [0] + Shift(restRows);
      ConsFound(ups, Shift(restRows), rest);
    } else {
      assert MatchingRows(ups, ids) == Shift(restRows);
    }
  }

  lemma ConsFound(ups: seq<string>, shifted: seq<nat>, rest: seq<string>)
    requires ups != [] && |rest| == |shifted|
    requires forall j | 0 <= j < |shifted| :: shifted[j] < |ups| && rest[j] == ups[shifted[j]]
    ensures var found := [ups[0]] + rest;
      var rows := [0] + shifted;
      |found| == |rows| && forall j | 0 <= j < |found| :: found[j] == ups[rows[j]]
  {
    var found := [ups[0]] + rest;
    var rows := [0] + shifted;
    forall j | 0 <= j < |found|
      ensures found[j] == ups[rows[j]]
    {
      if j > 0 {
        assert found[j] == rest[j - 1] && rows[j] == shifted[j - 1];
      }
    }
  }

  /** `faltando`: the requested IDs no row has, in request order. */
  function MissingIds(ids: seq<string>, found: seq<string>): (missing: seq<string>)
    ensures |missing| <= |ids|
    ensures forall x :: x in missing <==> x in ids && x !in found
  {
    if ids == [] then []
    else
      var rest := MissingIds(ids[1..], found);
      assert ids == [ids[0]] + ids[1..];
      if ids[0] !in found then [ids[0]] + rest else rest
  }

  /** A requested ID is reported missing exactly when no row's upper-cased ID is that ID. */
  lemma MissingMeansAbsent(idColumn: seq<Cell>, ids: seq<string>, x: string)
    ensures x in MissingIds(ids, FoundIds(idColumn, ids)) <==>
      x in ids && forall k | 0 <= k < |idColumn| :: RowId(idColumn[k]) != x
  {
  }

  /** `df.loc[idxs, c] = v` for the rows whose upper-cased ID is in `keys`; a new column is NaN elsewhere. */
  function SetWhere(t: Table, keys: seq<string>, c: Column, v: Cell): (r: Table)
    requires WellFormed(t) && IdCol in t.cols
    ensures WellFormed(r) && r.size == t.size
    ensures forall d :: d in r.cols <==> d in t.cols || d == c
    ensures Moved(t, r, keys, c, v)
    ensures forall d | d in t.cols && d != c :: r.cols[d] == t.cols[d]
  {
    var ids := t.cols[IdCol];
    Table(t.size, t.cols[c := seq(t.size, k requires 0 <= k < t.size =>
      if RowId(ids[k]) in keys then v else if c in t.cols then t.cols[c][k] else Nan)])
  }

  /** The move confirmation: nothing when no ID was found, else the three location cells of every found row. */
  function MoveTable(t: Table, ids: seq<string>, local: string, shelf: string, level: string): Table
    requires WellFormed(t) && IdCol in t.cols
  {
    var found := FoundIds(t.cols[IdCol], ids);
    if found == [] then t
    else
      var t1 := SetWhere(t, found, LocalCol, Str(local));
      var t2 := SetWhere(t1, found, ShelfCol, Str(shelf));
      SetWhere(t2, found, LevelCol, Str(level))
  }

  /** Column c of r holds v in the selected rows and what t held (or NaN) in the others. */
  ghost predicate Moved(t: Table, r: Table, ids: seq<string>, c: Column, v: Cell)
    requires WellFormed(t) && WellFormed(r) && r.size == t.size && IdCol in t.cols
  {
    && c in r.cols
    && forall k | 0 <= k < t.size :: r.cols[c][k] ==
         if RowId(t.cols[IdCol][k]) in ids then v else if c in t.cols then t.cols[c][k] else Nan
  }

  /** A row's ID is among the found IDs exactly when it was requested. */
  lemma FoundSelectsRequested(t: Table, ids: seq<string>)
    requires WellFormed(t) && IdCol in t.cols
    ensures forall k | 0 <= k < t.size ::
      RowId(t.cols[IdCol][k]) in FoundIds(t.cols[IdCol], ids) <==> RowId(t.cols[IdCol][k]) in ids
  {
    var found := FoundIds(t.cols[IdCol], ids);
    forall k | 0 <= k < t.size
      ensures RowId(t.cols[IdCol][k]) in found <==> RowId(t.cols[IdCol][k]) in ids
    {
      assert RowId(t.cols[IdCol][k]) in ids ==> exists j :: 0 <= j < |t.cols[IdCol]| && RowId(t.cols[IdCol][j]) == RowId(t.cols[IdCol][k]);
    }
  }

  /**
   * The move adds at most the three location columns and leaves every
   * other column as it was; when no requested ID is found, nothing changes.
   */
  lemma MoveKeeps(t: Table, ids: seq<string>, local: string, shelf: string, level: string)
    requires WellFormed(t) && IdCol in t.cols
    ensures var r := MoveTable(t, ids, local, shelf, level);
      && WellFormed(r) && r.size == t.size
      && (FoundIds(t.cols[IdCol], ids) == [] ==> r == t)
      && (FoundIds(t.cols[IdCol], ids) != [] ==>
            forall d :: d in r.cols <==> d in t.cols || d == LocalCol || d == ShelfCol || d == LevelCol)
      && forall d | d in t.cols && d != LocalCol && d != ShelfCol && d != LevelCol :: r.cols[d] == t.cols[d]
  {
  }

  /**
   * Re-selecting rows by the found IDs selects exactly the rows whose ID
   * was requested: those get the new Local, Estante and Prateleira, whatever
   * their Status, and the other rows keep their location cells.
   */
  lemma MoveWrites(t: Table, ids: seq<string>, local: string, shelf: string, level: string)
    requires WellFormed(t) && IdCol in t.cols
    requires FoundIds(t.cols[IdCol], ids) != []
    ensures var r := MoveTable(t, ids, local, shelf, level);
      && WellFormed(r) && r.size == t.size
      && Moved(t, r, ids, LocalCol, Str(local))
      && Moved(t, r, ids, ShelfCol, Str(shelf))
      && Moved(t, r, ids, LevelCol, Str(level))
  {
    var found := FoundIds(t.cols[IdCol], ids);
    FoundSelectsRequested(t, ids);
    MoveBySelection(t, found, ids, local, shelf, level);
  }

  /** The three location writes, for any key list that selects the same rows as the requested IDs. */
  lemma MoveBySelection(t: Table, found: seq<string>, ids: seq<string>, local: string, shelf: string, level: string)
    requires WellFormed(t) && IdCol in t.cols
    requires forall k | 0 <= k < t.size :: RowId(t.cols[IdCol][k]) in found <==> RowId(t.cols[IdCol][k]) in ids
    ensures var t1 := SetWhere(t, found, LocalCol, Str(local));
      var t2 := SetWhere(t1, found, ShelfCol, Str(shelf));
      var r := SetWhere(t2, found, LevelCol, Str(level));
      && WellFormed(r) && r.size == t.size
      && Moved(t, r, ids, LocalCol, Str(local))
      && Moved(t, r, ids, ShelfCol, Str(shelf))
      && Moved(t, r, ids, LevelCol, Str(level))
  {
    var t1 := SetWhere(t, found, LocalCol, Str(local));
    var t2 := SetWhere(t1, found, ShelfCol, Str(shelf));
    var r := SetWhere(t2, found, LevelCol, Str(level));
    assert t2.cols[IdCol] == t1.cols[IdCol] == t.cols[IdCol];
    assert r.cols[LocalCol] == t1.cols[LocalCol];
    assert r.cols[ShelfCol] == t2.cols[ShelfCol];
    assert LevelCol in t.cols ==> t2.cols[LevelCol] == t.cols[LevelCol];
    assert ShelfCol in t.cols ==> t1.cols[ShelfCol] == t.cols[ShelfCol];
  }

  /** The record table, updated in place like the app's DataFrame. */
  class RecordTable {
    var size: nat
    var cols: map<Column, seq<Cell>>

    ghost predicate Valid()
      reads this
    {
      WellFormed(Table(size, cols)) && IdCol in cols
    }

    constructor (t: Table)
      requires WellFormed(t) && IdCol in t.cols
      ensures Valid() && size == t.size && cols == t.cols
    {
      size := t.size;
      cols := t.cols;
    }

    /** `df.at[i, c] = v` */
    method At(i: int, c: Column, v: Cell)
      requires WellFormed(Table(size, cols)) && 0 <= i < size
      modifies this
      ensures Table(size, cols) == SetAt(old(Table(size, cols)), i, c, v)
    {
      var column := if c in cols then cols[c] else Repeat(Nan, size);
      cols := cols[c := column[i := v]];
    }

    /** `df[c] = v` */
    method FillColumn(c: Column, v: Cell)
      requires WellFormed(Table(size, cols))
      modifies this
      ensures Table(size, cols) == Fill(old(Table(size, cols)), c, v)
    {
      cols := cols[c := Repeat(v, size)];
    }

    /** The Status tab with "Desarquivar" ticked; the table is untouched when a check fails. */
    method Desarquivar(idInput: string, responsible: string, date: string, note: string)
      returns (r: Result<nat, StatusError>)
      requires Valid() && StatusCol in cols
      modifies this
      ensures Valid()
      ensures r == LocateForStatus(old(Table(size, cols)), idInput, responsible, true)
      ensures r.Failure? ==> size == old(size) && cols == old(cols)
      ensures r.Success? ==> Table(size, cols) == Retrieve(old(Table(size, cols)), r.value, responsible, date, Strip(note))
    {
      r := LocateForStatus(Table(size, cols), idInput, responsible, true);
      if r.Failure? {
        return;
      }
      var i := r.value;
      At(i, StatusCol, Str(Retrieved));
      At(i, RetrievalByCol, Str(responsible));
      At(i, RetrievalDateCol, Str(date));
      if RetrievalNoteCol !in cols {
        FillColumn(RetrievalNoteCol, Str(""));
      }
      At(i, RetrievalNoteCol, Str(Strip(note)));
    }

    /** The Status tab with "Rearquivar" ticked: no check of the current status. */
    method Rearquivar(idInput: string, responsible: string, date: string)
      returns (r: Result<nat, StatusError>)
      requires Valid() && StatusCol in cols
      modifies this
      ensures Valid()
      ensures r == LocateForStatus(old(Table(size, cols)), idInput, responsible, false)
      ensures r.Failure? ==> size == old(size) && cols == old(cols)
      ensures r.Success? ==> Table(size, cols) == Rearchive(old(Table(size, cols)), r.value, responsible, date)
    {
      r := LocateForStatus(Table(size, cols), idInput, responsible, false);
      if r.Failure? {
        return;
      }
      var i := r.value;
      At(i, StatusCol, Str(Archived));
      At(i, ArchivalByCol, Str(responsible));
      At(i, ArchivalDateCol, Str(date));
      if RetrievalByCol in cols {
        At(i, RetrievalByCol, Str(""));
      }
      if RetrievalDateCol in cols {
        At(i, RetrievalDateCol, Str(""));
      }
      if RetrievalNoteCol in cols {
        At(i, RetrievalNoteCol, Str(""));
      }
    }

    /** "Confirmar Movimentação": returns how many rows were moved. */
    method Move(ids: seq<string>, local: string, shelf: string, level: string) returns (moved: nat)
      requires Valid()
      modifies this
      ensures Valid()
      ensures moved == |FoundIds(old(cols)[IdCol], ids)|
      ensures moved == |MatchingRows(UpperIds(old(cols)[IdCol]), FoundIds(old(cols)[IdCol], ids))|
      ensures Table(size, cols) == MoveTable(old(Table(size, cols)), ids, local, shelf, level)
    {
      var found := FoundIds(cols[IdCol], ids);
      FoundSelectsRequested(Table(size, cols), ids);
      MatchingRowsSameSelection(UpperIds(cols[IdCol]), found, ids);
      moved := |found|;
      if found == [] {
        return;
      }
      var t1 := SetWhere(Table(size, cols), found, LocalCol, Str(local));
      var t2 := SetWhere(t1, found, ShelfCol, Str(shelf));
      var t3 := SetWhere(t2, found, LevelCol, Str(level));
      cols := t3.cols;
    }
  }
}

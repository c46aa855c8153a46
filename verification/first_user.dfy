/**
  `loadContractorsFromExcel(mode)` of test-first-user.js: fixed columns
  0..3 (the header row is never consulted), a hard-coded 'Security'
  department, an early return in 'single' mode and an error when nothing
  qualifies. Whether the configured file exists is an input.
 */
module FirstUser {
  import opened Outcomes
  import opened Ascii
  import opened Cells
  import opened FilterMaps
  import opened Contractors

  const CodeColumn: int := 0
  const FirstNameColumn: int := 1
  const LastNameColumn: int := 2
  const DepartmentColumn: int := 3

  /** The department stored on every record, whatever the casing in the sheet. */
  const StoredDepartment: string := "Security"

  const SingleMode: string := "single"
  const AllMode: string := "all"

  /** What the loader returns: one record object, or the array of all of them. */
  datatype Loaded = One(contractor: Record) | All(contractors: seq<Record>)

  /** Cells 0..3 are all truthy and the trimmed cell 3, lower-cased, is "security". */
  predicate Qualifies(row: Row) {
    && Truthy(At(row, CodeColumn)) && Truthy(At(row, FirstNameColumn))
    && Truthy(At(row, LastNameColumn)) && Truthy(At(row, DepartmentColumn))
    && ToLower(TrimmedText(At(row, DepartmentColumn))) == SecurityDepartment
  }

  /** One iteration of the row loop. */
  function RowRecord(row: Row): (r: Option<Record>)
    ensures r.Some? <==> Qualifies(row)
    ensures r.Some? ==> WellFormed(r.value) && r.value.department == StoredDepartment
    ensures r.Some? ==> r.value.code == TrimmedText(At(row, CodeColumn))
    ensures r.Some? ==> r.value.firstName == TrimmedText(At(row, FirstNameColumn))
    ensures r.Some? ==> r.value.lastName == TrimmedText(At(row, LastNameColumn))
  {
    if && Truthy(At(row, CodeColumn)) && Truthy(At(row, FirstNameColumn))
       && Truthy(At(row, LastNameColumn)) && Truthy(At(row, DepartmentColumn))
    then
      var department := TrimmedText(At(row, DepartmentColumn));
      if ToLower(department) == SecurityDepartment then
        Some(MakeRecord(TrimmedText(At(row, CodeColumn)), TrimmedText(At(row, FirstNameColumn)),
                        TrimmedText(At(row, LastNameColumn)), StoredDepartment))
      else None
    else None
  }

  /** Every qualifying record, in row order: the array built when the loop runs to the end. */
  function Qualifying(rows: seq<Row>): (r: seq<Record>)
    ensures |r| <= |rows|
  {
    FilterMap(rows, RowRecord)
  }

  /** The full scan finds nothing exactly when no row qualifies. */
  lemma QualifyingEmptyIffNone(rows: seq<Row>)
    ensures Qualifying(rows) == [] <==> forall i :: 0 <= i < |rows| ==> !Qualifies(rows[i])
  {
    NothingPushedIffNone(rows, RowRecord);
  }

  /** The 'single' scan: stops at the first qualifying row and looks no further. */
  function FirstQualifying(rows: seq<Row>): (r: Option<Record>)
    ensures r.Some? ==> WellFormed(r.value) && r.value.department == StoredDepartment
    decreases |rows|
  {
    if rows == [] then None
    else if RowRecord(rows[0]).Some? then RowRecord(rows[0])
    else FirstQualifying(rows[1..])
  }

  /** The early-exit scan returns the first record of the full scan, and nothing when the full scan is empty. */
  lemma {:induction false} FirstQualifyingIsHeadOfQualifying(rows: seq<Row>)
    ensures FirstQualifying(rows) == if Qualifying(rows) == [] then None else Some(Qualifying(rows)[0])
    decreases |rows|
  {
    if rows != [] {
      FirstQualifyingIsHeadOfQualifying(rows[1..]);
      assert Qualifying(rows) == Emit(RowRecord(rows[0])) + Qualifying(rows[1..]);
    }
  }

  /** Rows after the first qualifying one are never scanned: appending rows cannot change the answer. */
  lemma {:induction false} FirstQualifyingIgnoresLaterRows(rows: seq<Row>, later: seq<Row>)
    requires FirstQualifying(rows).Some?
    ensures FirstQualifying(rows + later) == FirstQualifying(rows)
    decreases |rows|
  {
    var longer := rows + later;
    assert longer[0] == rows[0];
    if RowRecord(rows[0]).None? {
      assert longer[1..] == rows[1..] + later;
      FirstQualifyingIgnoresLaterRows(rows[1..], later);
      assert FirstQualifying(longer) == FirstQualifying(longer[1..]);
    }
  }

  /**
    `loadContractorsFromExcel(mode)`: "Excel file not found" before anything
    is read; otherwise the scan of the data rows below the header.
   */
  function LoadContractors(fileExists: bool, table: Table, mode: string): (r: Result<Loaded, LoadError>)
    ensures r == Failure(FileNotFound) <==> !fileExists
    ensures fileExists ==> r == ScanRows(DataRows(table), mode)
  {
    if !fileExists then Failure(FileNotFound) else ScanRows(DataRows(table), mode)
  }

  /**
    The row loop and the final choice: in 'single' mode the first
    qualifying record, in 'all' mode every one, in any other mode the first
    one; "No Security contractors found" when nothing qualifies, whatever
    the mode.
   */
  function ScanRows(data: seq<Row>, mode: string): (r: Result<Loaded, LoadError>)
    ensures r.Failure? <==> Qualifying(data) == []
    ensures r.Failure? ==> r.error == NoSecurityContractors
    ensures r.Success? ==> (r.value.All? <==> mode == AllMode)
    ensures r.Success? && r.value.All? ==> r.value.contractors != []
    ensures r.Success? && r.value.All? ==> forall k :: 0 <= k < |r.value.contractors| ==>
              WellFormed(r.value.contractors[k]) && r.value.contractors[k].department == StoredDepartment
    ensures r.Success? && r.value.One? ==> WellFormed(r.value.contractor) && r.value.contractor.department == StoredDepartment
  {
    FirstQualifyingIsHeadOfQualifying(data);
    QualifyingRecordsAreSecurity(data);
    if mode == SingleMode then
      match FirstQualifying(data)
      case Some(c) => Success(One(c))
      case None => Failure(NoSecurityContractors)
    else
      var contractors := Qualifying(data);
      if |contractors| == 0 then Failure(NoSecurityContractors)
      else if mode == AllMode then Success(All(contractors))
      else Success(One(contractors[0]))
  }

  lemma QualifyingRecordsAreSecurity(rows: seq<Row>)
    ensures forall k :: 0 <= k < |Qualifying(rows)| ==>
              WellFormed(Qualifying(rows)[k]) && Qualifying(rows)[k].department == StoredDepartment
  {
    FilterMapKeeps(rows, RowRecord, (r: Record) => WellFormed(r) && r.department == StoredDepartment);
  }

  /** Whatever the mode, "No Security contractors found" is thrown exactly when no data row qualifies. */
  lemma NoSecurityErrorIffNoQualifyingRow(table: Table, mode: string)
    ensures LoadContractors(true, table, mode) == Failure(NoSecurityContractors)
            <==> forall i :: 1 <= i < |table| ==> !Qualifies(table[i])
  {
    FilterMapEmptyIffNone(table, RowRecord);
  }

  /** Any mode other than 'all' returns what 'single' returns: the record of the first qualifying data row. */
  lemma OtherModesAgreeWithSingle(fileExists: bool, table: Table, mode: string)
    requires mode != AllMode
    ensures LoadContractors(fileExists, table, mode) == LoadContractors(fileExists, table, SingleMode)
  {
    FirstQualifyingIsHeadOfQualifying(DataRows(table));
  }

  /** In 'single' mode the answer is the record of the first qualifying data row `i`. */
  lemma SingleModeReturnsFirstQualifyingRow(table: Table, i: int)
    requires 1 <= i < |table| && Qualifies(table[i])
    requires forall j :: 1 <= j < i ==> !Qualifies(table[j])
    ensures LoadContractors(true, table, SingleMode) == Success(One(RowRecord(table[i]).value))
  {
    FilterMapFirst(table, RowRecord, i);
    FirstQualifyingIsHeadOfQualifying(DataRows(table));
  }

  /** In 'single' mode, rows after the first qualifying one cannot change the result. */
  lemma SingleModeIgnoresLaterRows(table: Table, later: seq<Row>)
    requires LoadContractors(true, table, SingleMode).Success?
    ensures LoadContractors(true, table + later, SingleMode) == LoadContractors(true, table, SingleMode)
  {
    assert table != [];
    DataRowsAppend(table, later);
    SingleScanIgnoresLaterRows(DataRows(table), later);
  }

  lemma SingleScanIgnoresLaterRows(data: seq<Row>, later: seq<Row>)
    requires ScanRows(data, SingleMode).Success?
    ensures ScanRows(data + later, SingleMode) == ScanRows(data, SingleMode)
  {
    FirstQualifyingIgnoresLaterRows(data, later);
  }

  /**
    In 'all' mode the array holds one record per qualifying data row, in
    row order, each built from its own row; the header row is never used.
   */
  lemma AllModeReturnsEveryQualifyingRow(table: Table)
    requires LoadContractors(true, table, AllMode).Success?
    ensures var cs := LoadContractors(true, table, AllMode).value.contractors;
            var rows := RowNumbers(table, RowRecord);
            && |rows| == |cs|
            && (forall k :: 0 <= k < |rows| ==> 1 <= rows[k] < |table| && RowRecord(table[rows[k]]) == Some(cs[k]))
            && (forall k, l :: 0 <= k < l < |rows| ==> rows[k] < rows[l])
            && (forall i :: 1 <= i < |table| ==> (Qualifies(table[i]) <==> i in rows))
  {
    var rows := RowNumbers(table, RowRecord);
    assert IsRowNumbering(table, RowRecord, rows);
  }
}

/**
  `loadContractorsFromExcel` and `createFirstUser` of
  user-creation-automation.js: columns resolved from the header row, every
  data row visited in order, Security rows appended to the automator's
  contractor list.
 */
module UserCreation {
  import opened Outcomes
  import opened Ascii
  import opened Cells
  import opened Columns
  import opened FilterMaps
  import opened Contractors

  /** The code column is always the first one; it is never looked up. */
  const CodeColumn: int := 0

  /** The four column indices; any but `code` may be `NotFound`. */
  datatype ColumnMap = ColumnMap(code: int, firstName: int, lastName: int, department: int)

  /** The column map of the header row: code fixed at 0, the others looked up, each in range or `NotFound`. */
  function ResolveColumns(headers: Row): (m: ColumnMap)
    ensures m.code == CodeColumn
    ensures NotFound <= m.firstName < |headers| && NotFound <= m.lastName < |headers|
    ensures NotFound <= m.department < |headers|
  {
    ColumnMap(
      CodeColumn,
      FindColumnIndex(headers, FirstNameNames),
      FindColumnIndex(headers, LastNameNames),
      FindColumnIndex(headers, DepartmentNames))
  }

  /** None of the three looked-up columns is missing. */
  predicate Resolved(m: ColumnMap) {
    m.firstName != NotFound && m.lastName != NotFound && m.department != NotFound
  }

  /** The presence test, on the raw cells before any trimming. */
  predicate HasRequiredData(row: Row, m: ColumnMap) {
    Truthy(At(row, m.code)) && Truthy(At(row, m.firstName)) && Truthy(At(row, m.lastName))
  }

  /** The trimmed department text, lower-cased, is exactly "security". */
  predicate InSecurity(row: Row, m: ColumnMap) {
    ToLower(TrimmedText(At(row, m.department))) == SecurityDepartment
  }

  /** The rule that decides whether a data row becomes a contractor. */
  predicate Qualifies(row: Row, m: ColumnMap) {
    HasRequiredData(row, m) && InSecurity(row, m)
  }

  /**
    One iteration of the row loop: a record exactly for a qualifying row,
    holding the trimmed cell texts. The `|| 'Security'` fallback of the
    department is never taken, because a qualifying department is never empty.
   */
  function RowRecord(row: Row, m: ColumnMap): (r: Option<Record>)
    ensures r.Some? <==> Qualifies(row, m)
    ensures r.Some? ==> WellFormed(r.value)
    ensures r.Some? ==> r.value.code == TrimmedText(At(row, m.code))
    ensures r.Some? ==> r.value.firstName == TrimmedText(At(row, m.firstName))
    ensures r.Some? ==> r.value.lastName == TrimmedText(At(row, m.lastName))
    ensures r.Some? ==> r.value.department == TrimmedText(At(row, m.department)) != []
  {
    if Truthy(At(row, m.code)) && Truthy(At(row, m.firstName)) && Truthy(At(row, m.lastName)) then
      var department := TrimmedText(At(row, m.department));
      if ToLower(department) == SecurityDepartment then
        assert |department| == |SecurityDepartment|;
        var stored := if department == [] then "Security" else department;
        Some(MakeRecord(TrimmedText(At(row, m.code)), TrimmedText(At(row, m.firstName)),
                        TrimmedText(At(row, m.lastName)), stored))
      else None
    else None
  }

  /** The records the loop pushes for `rows`, in row order. */
  function Extract(rows: seq<Row>, m: ColumnMap): (r: seq<Record>)
    ensures |r| <= |rows|
  {
    FilterMap(rows, RecordOf(m))
  }

  lemma ExtractWellFormed(rows: seq<Row>, m: ColumnMap)
    ensures forall k :: 0 <= k < |Extract(rows, m)| ==> WellFormed(Extract(rows, m)[k])
  {
    FilterMapKeeps(rows, RecordOf(m), (r: Record) => WellFormed(r));
  }

  /**
    `loadContractorsFromExcel`, with the automator's list `contractors` as
    it stood before the call. It throws when a looked-up column is missing;
    otherwise it appends and returns the whole list.
   */
  function LoadContractors(contractors: seq<Record>, table: Table): (r: Result<seq<Record>, LoadError>)
    ensures r.Failure? <==> !Resolved(ResolveColumns(Headers(table)))
    ensures r.Failure? ==> r.error == RequiredColumnsNotFound
    ensures r.Success? ==> contractors <= r.value
    ensures r.Success? ==> |r.value| <= |contractors| + |DataRows(table)|
    ensures r.Success? ==> forall k :: |contractors| <= k < |r.value| ==> WellFormed(r.value[k])
    ensures r.Success? ==> var m := ResolveColumns(Headers(table));
                           var rows := SourceRows(table, m);
                           && |r.value| == |contractors| + |rows|
                           && forall k :: 0 <= k < |rows| ==> r.value[|contractors| + k] == RowRecord(table[rows[k]], m).value
  {
    var m := ResolveColumns(Headers(table));
    if !Resolved(m) then Failure(RequiredColumnsNotFound)
    else
      var added := Extract(DataRows(table), m);
      ExtractWellFormed(DataRows(table), m);
      var rows := SourceRows(table, m);
      Success(contractors + added)
  }

  /** The record the loop builds for `row`, as a function of the row alone. */
  function RecordOf(m: ColumnMap): Row -> Option<Record> {
    (row: Row) => RowRecord(row, m)
  }

  /**
    `rows` are the table row numbers the appended records come from:
    increasing, never the header row 0, and listing exactly the qualifying
    data rows, the k-th of them giving the k-th record.
   */
  ghost predicate NumbersRecords(table: Table, m: ColumnMap, rows: seq<nat>) {
    && |rows| == |Extract(DataRows(table), m)|
    && (forall k :: 0 <= k < |rows| ==> 1 <= rows[k] < |table|)
    && (forall k :: 0 <= k < |rows| ==> RowRecord(table[rows[k]], m) == Some(Extract(DataRows(table), m)[k]))
    && (forall k, l :: 0 <= k < l < |rows| ==> rows[k] < rows[l])
    && (forall i :: 1 <= i < |table| ==> (Qualifies(table[i], m) <==> i in rows))
  }

  /** The row numbers behind `Extract`, in the order the records were appended. */
  function SourceRows(table: Table, m: ColumnMap): (rows: seq<nat>)
    ensures NumbersRecords(table, m, rows)
  {
    var rows := RowNumbers(table, RecordOf(m));
    NumberingOfRecords(table, m, rows);
    rows
  }

  /** A numbering of the values of `RecordOf(m)`, restated in terms of the loader's own rule. */
  lemma NumberingOfRecords(table: Table, m: ColumnMap, rows: seq<nat>)
    requires IsRowNumbering(table, RecordOf(m), rows)
    ensures NumbersRecords(table, m, rows)
  {
    var f := RecordOf(m);
    forall k | 0 <= k < |rows|
      ensures RowRecord(table[rows[k]], m) == Some(Extract(DataRows(table), m)[k])
    {
      assert f(table[rows[k]]) == RowRecord(table[rows[k]], m);
    }
    forall i | 1 <= i < |table|
      ensures Qualifies(table[i], m) <==> i in rows
    {
      assert f(table[i]) == RowRecord(table[i], m);
    }
  }

  /** When the columns do not resolve, no data row is looked at: the rows cannot change the outcome. */
  lemma FailureIgnoresDataRows(contractors: seq<Record>, headers: Row, rows1: seq<Row>, rows2: seq<Row>)
    requires !Resolved(ResolveColumns(headers))
    ensures LoadContractors(contractors, [headers] + rows1) == LoadContractors(contractors, [headers] + rows2)
    ensures LoadContractors(contractors, [headers] + rows1) == Failure(RequiredColumnsNotFound)
  {
  }

  /**
    The list is appended to, not replaced: loading the same table a second
    time appends the same records again, so loading is not idempotent as
    soon as one row qualifies.
   */
  lemma {:induction false} RepeatedLoadAppendsAgain(table: Table)
    requires LoadContractors([], table).Success?
    ensures var once := LoadContractors([], table).value;
            LoadContractors(once, table) == Success(once + once)
    ensures (exists i :: 1 <= i < |table| && Qualifies(table[i], ResolveColumns(Headers(table))))
            ==> LoadContractors(LoadContractors([], table).value, table) != LoadContractors([], table)
  {
    var m := ResolveColumns(Headers(table));
    var once := LoadContractors([], table).value;
    assert once == Extract(DataRows(table), m);
    if exists i :: 1 <= i < |table| && Qualifies(table[i], m) {
      var i :| 1 <= i < |table| && Qualifies(table[i], m);
      var rows := SourceRows(table, m);
      assert i in rows;
      assert |once| > 0;
      assert |once + once| > |once|;
    }
  }

  /** `createFirstUser`: the first loaded contractor, or "No contractors loaded" when the list is empty. */
  function CreateFirstUser(contractors: seq<Record>): (r: Result<Record, LoadError>)
    ensures r.Failure? <==> contractors == []
    ensures r.Failure? ==> r.error == NoContractorsLoaded
    ensures r.Success? ==> r.value == contractors[0]
  {
    if |contractors| == 0 then Failure(NoContractorsLoaded) else Success(contractors[0])
  }

  /** Row `i` is the first data row that qualifies. */
  predicate FirstQualifyingRow(table: Table, m: ColumnMap, i: int) {
    && 1 <= i < |table| && Qualifies(table[i], m)
    && forall j :: 1 <= j < i ==> !Qualifies(table[j], m)
  }

  /** The first record of the extraction comes from the first qualifying data row. */
  lemma FirstRecordFromFirstQualifyingRow(table: Table, m: ColumnMap, i: int)
    requires FirstQualifyingRow(table, m, i)
    ensures Extract(DataRows(table), m) != []
    ensures Extract(DataRows(table), m)[0] == RowRecord(table[i], m).value
  {
    var f := RecordOf(m);
    forall j | 1 <= j < i ensures f(table[j]).None? {
      assert !Qualifies(table[j], m);
    }
    assert f(table[i]) == RowRecord(table[i], m);
    FilterMapFirst(table, f, i);
  }

  /** After a load into an empty list, `createFirstUser` uses the record of the first qualifying data row. */
  lemma FirstUserAfterLoad(table: Table, i: int)
    requires LoadContractors([], table).Success?
    requires FirstQualifyingRow(table, ResolveColumns(Headers(table)), i)
    ensures CreateFirstUser(LoadContractors([], table).value)
            == Success(RowRecord(table[i], ResolveColumns(Headers(table))).value)
  {
    var m := ResolveColumns(Headers(table));
    assert LoadContractors([], table).value == Extract(DataRows(table), m);
    FirstRecordFromFirstQualifyingRow(table, m, i);
  }

  /** Nothing is extracted exactly when no data row qualifies. */
  lemma ExtractEmptyIffNoneQualify(table: Table, m: ColumnMap)
    ensures Extract(DataRows(table), m) == []
            <==> forall j :: 1 <= j < |table| ==> !Qualifies(table[j], m)
  {
    FilterMapEmptyIffNone(table, RecordOf(m));
  }

  /** After a load into an empty list, `createFirstUser` fails exactly when no data row qualifies. */
  lemma NoFirstUserAfterEmptyLoad(table: Table)
    requires LoadContractors([], table).Success?
    ensures CreateFirstUser(LoadContractors([], table).value).Failure?
            <==> forall j :: 1 <= j < |table| ==> !Qualifies(table[j], ResolveColumns(Headers(table)))
  {
    var m := ResolveColumns(Headers(table));
    assert LoadContractors([], table).value == Extract(DataRows(table), m);
    ExtractEmptyIffNoneQualify(table, m);
  }
}

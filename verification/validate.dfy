/**
  `validateExcelFile` of validate-excel.js: a read-only pass over the sheet
  that resolves the columns like the loaders do, counts data rows, valid
  rows and Security rows, keeps up to three sample users and counts the
  potential issues. The script only returns `true` or `false` and logs the
  rest; here the logged figures are the `Report`, and `None` is `false`.
 */
module Validation {
  import opened Outcomes
  import opened Ascii
  import opened Cells
  import opened Columns
  import opened FilterMaps
  import opened Contractors
  import UserCreation

  /** The most sample users listed. */
  const MaxSamples: nat := 3

  /** A sample user as logged: a contractor record without the password. */
  datatype SampleUser = SampleUser(
    code: string,
    fullName: string,
    firstName: string,
    lastName: string,
    department: string,
    username: string)

  /** The figures the script logs. */
  datatype Report = Report(
    totalRows: nat,
    validRows: nat,
    securityContractors: nat,
    sampleUsers: seq<SampleUser>,
    issueCount: nat)

  /** `hasCode`: the header cell of column 0 is truthy. */
  predicate HasCode(headers: Row) {
    Truthy(At(headers, UserCreation.CodeColumn))
  }

  /** A valid row has a code, and a first and a last name in columns that were found. */
  predicate ValidRow(row: Row, cols: UserCreation.ColumnMap) {
    && Truthy(At(row, cols.code))
    && (cols.firstName >= 0 && Truthy(At(row, cols.firstName)))
    && (cols.lastName >= 0 && Truthy(At(row, cols.lastName)))
  }

  /** The trimmed department text, or the empty string when the column is missing or the cell falsy. */
  function DepartmentText(row: Row, cols: UserCreation.ColumnMap): (d: string)
    ensures cols.department < 0 ==> d == []
    ensures cols.department >= 0 ==> d == TrimmedText(At(row, cols.department))
  {
    if cols.department >= 0 && Truthy(At(row, cols.department)) then Trim(Stringify(At(row, cols.department)))
    else []
  }

  /** A valid row whose department text, lower-cased, is "security". */
  predicate SecurityRow(row: Row, cols: UserCreation.ColumnMap) {
    ValidRow(row, cols) && ToLower(DepartmentText(row, cols)) == SecurityDepartment
  }

  /** The sample user built for a Security row, holding the trimmed cell texts. */
  function SampleRow(row: Row, cols: UserCreation.ColumnMap): (r: Option<SampleUser>)
    ensures r.Some? <==> SecurityRow(row, cols)
    ensures r.Some? ==> r.value.department != [] && ToLower(r.value.department) == SecurityDepartment
    ensures r.Some? ==> NoSpace(r.value.username) && NoUpper(r.value.username)
  {
    if SecurityRow(row, cols) then
      var code := Trim(Stringify(At(row, cols.code)));
      var firstName := Trim(Stringify(At(row, cols.firstName)));
      var lastName := Trim(Stringify(At(row, cols.lastName)));
      var department := DepartmentText(row, cols);
      assert |department| == |ToLower(department)|;
      Some(SampleUser(code, firstName + " " + lastName, firstName, lastName, department,
                      Username(code, firstName, lastName)))
    else None
  }

  function ValidOf(cols: UserCreation.ColumnMap): Row -> bool {
    (row: Row) => ValidRow(row, cols)
  }

  function SecurityOf(cols: UserCreation.ColumnMap): Row -> bool {
    (row: Row) => SecurityRow(row, cols)
  }

  function SampleOf(cols: UserCreation.ColumnMap): Row -> Option<SampleUser> {
    (row: Row) => SampleRow(row, cols)
  }

  /** One point per kind of issue: a missing column, a row missing required data, no Security row. */
  function IssueCount(missingColumns: bool, validRows: nat, totalRows: nat, securityContractors: nat): (n: nat)
    ensures n <= 3
    ensures n == 0 <==> !missingColumns && totalRows <= validRows && securityContractors != 0
  {
    (if missingColumns then 1 else 0)
    + (if validRows < totalRows then 1 else 0)
    + (if securityContractors == 0 then 1 else 0)
  }

  /** Some required column is missing, the code column included. */
  predicate MissingColumns(headers: Row) {
    !HasCode(headers) || !UserCreation.Resolved(UserCreation.ResolveColumns(headers))
  }

  /** The sheet the script reports no issue for: all columns found, every data row valid, one Security row at least. */
  predicate NoIssues(table: Table)
    requires table != []
  {
    var cols := UserCreation.ResolveColumns(table[0]);
    && !MissingColumns(table[0])
    && (forall i :: 1 <= i < |table| ==> ValidRow(table[i], cols))
    && (exists i :: 1 <= i < |table| && SecurityRow(table[i], cols))
  }

  /**
    The figures of a non-empty sheet, stated over the data rows as a whole:
    the reference the row loop of the script is checked against.
   */
  function ReportOf(table: Table): (rep: Report)
    requires table != []
    ensures rep.totalRows == |table| - 1
    ensures rep.securityContractors <= rep.validRows <= rep.totalRows
    ensures |rep.sampleUsers| == if rep.securityContractors < MaxSamples then rep.securityContractors else MaxSamples
    ensures rep.issueCount <= 3
    ensures rep.issueCount == 0 <==> NoIssues(table)
  {
    var cols := UserCreation.ResolveColumns(table[0]);
    var data := DataRows(table);
    var validRows := Count(data, ValidOf(cols));
    var securityContractors := Count(data, SecurityOf(cols));
    CountMonotone(data, SecurityOf(cols), ValidOf(cols));
    CountIsFilterMapLength(data, SecurityOf(cols), SampleOf(cols));
    NoIssuesIffCounts(table);
    Report(|table| - 1, validRows, securityContractors,
           Take(FilterMap(data, SampleOf(cols)), MaxSamples),
           IssueCount(MissingColumns(table[0]), validRows, |table| - 1, securityContractors))
  }

  /** The row quantifiers of `NoIssues` are the two counts of the report. */
  lemma NoIssuesIffCounts(table: Table)
    requires table != []
    ensures var cols := UserCreation.ResolveColumns(table[0]);
            var data := DataRows(table);
            NoIssues(table) <==> (&& !MissingColumns(table[0])
                                  && Count(data, ValidOf(cols)) == |data|
                                  && Count(data, SecurityOf(cols)) != 0)
  {
    var cols := UserCreation.ResolveColumns(table[0]);
    AllValidIffFullCount(table, cols);
    SomeSecurityIffPositiveCount(table, cols);
  }

  lemma AllValidIffFullCount(table: Table, cols: UserCreation.ColumnMap)
    requires table != []
    ensures (forall i :: 1 <= i < |table| ==> ValidRow(table[i], cols))
            <==> Count(DataRows(table), ValidOf(cols)) == |DataRows(table)|
  {
    var data := DataRows(table);
    CountFullIffAll(data, ValidOf(cols));
    if forall j :: 0 <= j < |data| ==> ValidOf(cols)(data[j]) {
      forall i | 1 <= i < |table| ensures ValidRow(table[i], cols) {
        assert ValidOf(cols)(data[i - 1]);
      }
    }
  }

  lemma SomeSecurityIffPositiveCount(table: Table, cols: UserCreation.ColumnMap)
    requires table != []
    ensures (exists i :: 1 <= i < |table| && SecurityRow(table[i], cols))
            <==> Count(DataRows(table), SecurityOf(cols)) != 0
  {
    var data := DataRows(table);
    CountZeroIffNone(data, SecurityOf(cols));
    if exists i :: 1 <= i < |table| && SecurityRow(table[i], cols) {
      var i :| 1 <= i < |table| && SecurityRow(table[i], cols);
      assert SecurityOf(cols)(data[i - 1]);
    }
  }

  /**
    `validateExcelFile`: `false` (None) when the file is missing or the sheet
    has no rows at all; otherwise one pass over the data rows yields the
    report, whatever the headers hold.
   */
  method ValidateExcelFile(fileExists: bool, table: Table) returns (r: Option<Report>)
    ensures r.None? <==> !fileExists || table == []
    ensures r.Some? ==> table != [] && r.value == ReportOf(table)
  {
    if !fileExists {
      return None;
    }
    if |table| == 0 {
      return None;
    }
    var headers := Headers(table);
    var cols := UserCreation.ResolveColumns(headers);
    var hasCode := HasCode(headers);
    var tally := AnalyseRows(table, cols);
    var missingColumns := !hasCode || !UserCreation.Resolved(cols);
    var issueCount := IssueCount(missingColumns, tally.validRows, tally.totalRows, tally.securityContractors);
    r := Some(Report(tally.totalRows, tally.validRows, tally.securityContractors, tally.sampleUsers, issueCount));
  }

  /** The running figures of the row loop. */
  datatype Tally = Tally(totalRows: nat, validRows: nat, securityContractors: nat, sampleUsers: seq<SampleUser>)

  /** The figures for `rows`, stated over the rows as a whole. */
  function TallyOf(rows: seq<Row>, cols: UserCreation.ColumnMap): Tally {
    Tally(|rows|, Count(rows, ValidOf(cols)), Count(rows, SecurityOf(cols)),
          Take(FilterMap(rows, SampleOf(cols)), MaxSamples))
  }

  /**
    One iteration of the row loop: count the row; if it is valid count it
    as valid, and if its department is Security count it and keep its
    sample while fewer than three are kept.
   */
  function Step(t: Tally, row: Row, cols: UserCreation.ColumnMap): (r: Tally)
    ensures r.totalRows == t.totalRows + 1
    ensures t.validRows <= r.validRows <= t.validRows + 1
    ensures t.securityContractors <= r.securityContractors <= t.securityContractors + 1
    ensures t.sampleUsers <= r.sampleUsers
    ensures |t.sampleUsers| >= MaxSamples ==> r.sampleUsers == t.sampleUsers
  {
    var counted := t.(totalRows := t.totalRows + 1);
    if !ValidRow(row, cols) then counted
    else
      var valid := counted.(validRows := counted.validRows + 1);
      var department := DepartmentText(row, cols);
      if ToLower(department) != SecurityDepartment then valid
      else
        var security := valid.(securityContractors := valid.securityContractors + 1);
        if |security.sampleUsers| < MaxSamples then
          security.(sampleUsers := security.sampleUsers + [SampleRow(row, cols).value])
        else security
  }

  /** One iteration carries the figures of the rows seen so far to those of one more row. */
  lemma StepExtendsTally(seen: seq<Row>, row: Row, cols: UserCreation.ColumnMap)
    ensures Step(TallyOf(seen, cols), row, cols) == TallyOf(seen + [row], cols)
  {
    StepCounts(TallyOf(seen, cols), row, cols);
    StepValid(seen, row, cols);
    StepSecurity(seen, row, cols);
    StepSamples(seen, row, cols);
  }

  /** How one iteration moves the three counters. */
  lemma StepCounts(t: Tally, row: Row, cols: UserCreation.ColumnMap)
    ensures Step(t, row, cols).totalRows == t.totalRows + 1
    ensures Step(t, row, cols).validRows == t.validRows + if ValidRow(row, cols) then 1 else 0
    ensures Step(t, row, cols).securityContractors == t.securityContractors + if SecurityRow(row, cols) then 1 else 0
  {
  }

  /** One iteration keeps the valid count equal to the number of valid rows seen. */
  lemma StepValid(seen: seq<Row>, row: Row, cols: UserCreation.ColumnMap)
    ensures Step(TallyOf(seen, cols), row, cols).validRows == Count(seen + [row], ValidOf(cols))
  {
    StepCounts(TallyOf(seen, cols), row, cols);
    CountSnoc(seen, row, ValidOf(cols));
    assert ValidOf(cols)(row) == ValidRow(row, cols);
  }

  /** One iteration keeps the Security count equal to the number of Security rows seen. */
  lemma StepSecurity(seen: seq<Row>, row: Row, cols: UserCreation.ColumnMap)
    ensures Step(TallyOf(seen, cols), row, cols).securityContractors == Count(seen + [row], SecurityOf(cols))
  {
    StepCounts(TallyOf(seen, cols), row, cols);
    CountSnoc(seen, row, SecurityOf(cols));
    assert SecurityOf(cols)(row) == SecurityRow(row, cols);
  }

  /** One iteration keeps the samples equal to the first three Security rows seen. */
  lemma StepSamples(seen: seq<Row>, row: Row, cols: UserCreation.ColumnMap)
    ensures Step(TallyOf(seen, cols), row, cols).sampleUsers == TallyOf(seen + [row], cols).sampleUsers
  {
    var pushed := FilterMap(seen, SampleOf(cols));
    FilterMapSnoc(seen, row, SampleOf(cols));
    assert SampleOf(cols)(row) == SampleRow(row, cols);
    TakeSnoc(pushed, Emit(SampleRow(row, cols)), MaxSamples);
  }

  /** The row loop of `validateExcelFile`, over every row below the header. */
  method AnalyseRows(table: Table, cols: UserCreation.ColumnMap) returns (tally: Tally)
    requires table != []
    ensures tally == TallyOf(DataRows(table), cols)
  {
    tally := Tally(0, 0, 0, []);
    var i := 1;
    while i < |table|
      invariant 1 <= i <= |table|
      invariant tally == TallyOf(table[1..i], cols)
    {
      SliceSnoc(table, 1, i);
      StepExtendsTally(table[1..i], table[i], cols);
      tally := Step(tally, table[i], cols);
      i := i + 1;
    }
    assert table[1..i] == DataRows(table);
  }

  /** A first or last name column that is not found makes every row invalid: two issues once there is a data row. */
  lemma UnresolvedNameMeansNoValidRows(table: Table)
    requires table != []
    requires var cols := UserCreation.ResolveColumns(table[0]);
             cols.firstName == NotFound || cols.lastName == NotFound
    ensures ReportOf(table).validRows == 0
    ensures |table| > 1 ==> ReportOf(table).issueCount >= 2
  {
    CountZeroIffNone(DataRows(table), ValidOf(UserCreation.ResolveColumns(table[0])));
  }

  /** A department column that is not found means no Security row: the missing column and the empty count are both issues. */
  lemma UnresolvedDepartmentMeansNoSecurity(table: Table)
    requires table != []
    requires UserCreation.ResolveColumns(table[0]).department == NotFound
    ensures ReportOf(table).securityContractors == 0
    ensures ReportOf(table).sampleUsers == []
    ensures ReportOf(table).issueCount >= 2
  {
    CountZeroIffNone(DataRows(table), SecurityOf(UserCreation.ResolveColumns(table[0])));
  }

  /** The validator's sample for a row is the loader's record for it, less the password. */
  function Preview(rec: Record): (s: SampleUser)
    ensures s.code == rec.code && s.username == rec.username && s.department == rec.department
  {
    SampleUser(rec.code, rec.fullName, rec.firstName, rec.lastName, rec.department, rec.username)
  }

  function Previews(recs: seq<Record>): (ps: seq<SampleUser>)
    ensures |ps| == |recs|
    ensures forall k :: 0 <= k < |recs| ==> ps[k] == Preview(recs[k])
  {
    seq(|recs|, k requires 0 <= k < |recs| => Preview(recs[k]))
  }

  /**
    Row by row, the validator and user-creation-automation.js agree: a row
    is valid exactly when the loader finds its required data, it is a
    Security row exactly when the loader keeps it, and the sample is the
    loader's record without the password — whether or not the columns resolve.
   */
  lemma RowAgreesWithLoader(row: Row, cols: UserCreation.ColumnMap)
    requires cols.code == UserCreation.CodeColumn
    requires cols.firstName >= NotFound && cols.lastName >= NotFound && cols.department >= NotFound
    ensures ValidRow(row, cols) <==> UserCreation.HasRequiredData(row, cols)
    ensures SecurityRow(row, cols) <==> UserCreation.Qualifies(row, cols)
    ensures SampleRow(row, cols) == if SecurityRow(row, cols) then Some(Preview(UserCreation.RowRecord(row, cols).value)) else None
  {
  }

  lemma SamplesArePreviews(rows: seq<Row>, cols: UserCreation.ColumnMap)
    requires cols.code == UserCreation.CodeColumn
    requires cols.firstName >= NotFound && cols.lastName >= NotFound && cols.department >= NotFound
    ensures FilterMap(rows, SampleOf(cols)) == Previews(UserCreation.Extract(rows, cols))
  {
    var f := UserCreation.RecordOf(cols);
    var g := SampleOf(cols);
    forall k | 0 <= k < |rows|
      ensures g(rows[k]) == if f(rows[k]).Some? then Some(Preview(f(rows[k]).value)) else None
    {
      RowAgreesWithLoader(rows[k], cols);
      assert f(rows[k]) == UserCreation.RowRecord(rows[k], cols);
      assert g(rows[k]) == SampleRow(rows[k], cols);
    }
    FilterMapThen(rows, f, g, Preview);
  }

  /**
    The Security count is the number of contractors the user-creation
    loader would add for the same sheet, and the samples are its first
    records, less the password.
   */
  lemma ValidatorAgreesWithLoader(table: Table)
    requires table != []
    ensures var cols := UserCreation.ResolveColumns(table[0]);
            var recs := UserCreation.Extract(DataRows(table), cols);
            && ReportOf(table).securityContractors == |recs|
            && ReportOf(table).sampleUsers == Take(Previews(recs), MaxSamples)
  {
    var cols := UserCreation.ResolveColumns(table[0]);
    var data := DataRows(table);
    SamplesArePreviews(data, cols);
    CountIsFilterMapLength(data, SecurityOf(cols), SampleOf(cols));
  }

  /**
    "No issues found! Ready to process N users": with no issue reported,
    the user-creation loader succeeds on the same sheet and loads exactly
    N > 0 contractors, so `createFirstUser` has a user to create.
   */
  lemma NoIssuesMeansReady(table: Table)
    requires table != [] && ReportOf(table).issueCount == 0
    ensures UserCreation.LoadContractors([], table).Success?
    ensures |UserCreation.LoadContractors([], table).value| == ReportOf(table).securityContractors > 0
    ensures UserCreation.CreateFirstUser(UserCreation.LoadContractors([], table).value).Success?
  {
    var cols := UserCreation.ResolveColumns(table[0]);
    assert UserCreation.LoadContractors([], table).value == UserCreation.Extract(DataRows(table), cols);
    ValidatorAgreesWithLoader(table);
  }
}

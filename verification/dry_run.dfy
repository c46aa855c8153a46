/**
  `loadContractorsFromExcel` of dry-run-automation.js: the user-creation
  loader preceded by a file-existence check, with per-row skips that only
  log. Whether the file exists is an input; reading it is not modelled.
 */
module DryRun {
  import opened Outcomes
  import opened Cells
  import opened FilterMaps
  import opened Contractors
  import UserCreation

  /**
    A missing file is reported before anything is parsed; an existing one is
    loaded exactly as user-creation-automation.js loads it.
   */
  function LoadContractors(fileExists: bool, contractors: seq<Record>, table: Table)
    : (r: Result<seq<Record>, LoadError>)
    ensures r == Failure(FileNotFound) <==> !fileExists
    ensures fileExists ==> r == UserCreation.LoadContractors(contractors, table)
  {
    if !fileExists then Failure(FileNotFound)
    else UserCreation.LoadContractors(contractors, table)
  }

  /**
    Skipped rows are never errors: once the file exists and the columns
    resolve, loading succeeds, and with no qualifying row it returns the
    list unchanged (possibly empty).
   */
  lemma SkippedRowsAreNotErrors(contractors: seq<Record>, table: Table)
    requires UserCreation.Resolved(UserCreation.ResolveColumns(Headers(table)))
    ensures LoadContractors(true, contractors, table).Success?
    ensures (forall i :: 1 <= i < |table| ==> !UserCreation.Qualifies(table[i], UserCreation.ResolveColumns(Headers(table))))
            ==> LoadContractors(true, contractors, table) == Success(contractors)
  {
    var m := UserCreation.ResolveColumns(Headers(table));
    var added := UserCreation.Extract(DataRows(table), m);
    assert UserCreation.LoadContractors(contractors, table) == Success(contractors + added);
    if forall i :: 1 <= i < |table| ==> !UserCreation.Qualifies(table[i], m) {
      UserCreation.ExtractEmptyIffNoneQualify(table, m);
      assert contractors + added == contractors;
    }
  }
}

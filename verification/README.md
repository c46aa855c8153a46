# Contractor extraction, modelled in Dafny

The NAE_CONTRACTORS scripts read the first sheet of a contractor
spreadsheet as rows of loosely typed cells, with row 0 as the header row.
They keep the rows whose department is "security" and turn each kept row
into a contractor record whose username (and password) is
`code_first_last`, lower-cased, with each run of whitespace replaced by `_`.
This project models the part of the scripts that decides which rows become
which records. It covers:

- **Column resolver.** `findColumnIndex` finds the leftmost header whose
  normalised text contains one of a list of candidate names. The copies in
  user-creation-automation.js and dry-run-automation.js (class methods) and
  validate-excel.js (a top-level function) have identical bodies, so they
  are modelled once (`Columns.FindColumnIndex`).
- **User-creation loader.** `loadContractorsFromExcel` in
  user-creation-automation.js resolves the first-name, last-name and
  department columns, and fails when one of them is missing. It then
  appends one record per qualifying data row to the automator's list.
  `createFirstUser` takes the head of that list.
- **Dry-run loader.** The dry-run copy of the loader (dry-run-automation.js)
  adds a check that the file exists.
- **Fixed-column loader.** `loadContractorsFromExcel(mode)` in
  test-first-user.js reads fixed columns 0..3. It stops at the first
  qualifying row in `'single'` mode and fails when no row qualifies.
- **Validator.** `validateExcelFile` in validate-excel.js makes a read-only
  pass over the sheet. It counts data rows, valid rows and Security rows,
  keeps at most three sample users and counts potential issues.

Modules:

- `Outcomes`: `Option` and `Result`.
- `Ascii`: lower-casing, trimming, substring search, and the whitespace-run
  replacement used by the username.
- `Cells`: cells, rows and JavaScript truthiness.
- `FilterMaps`: the "scan rows, push a value for some of them" pattern.
  It also provides counting, `Take`, and the numbering of the rows that
  produced each pushed value.
- `Columns`: the column resolver.
- `Contractors`: the record, the username rule and the errors.
- `UserCreation`, `DryRun`, `FirstUser`, `Validation`: one module per script.

Behaviour to note:

- **Blank names.** The presence test uses the raw cell's truthiness before
  trimming. A cell holding only spaces therefore passes, and the record
  stores an empty code or name.
- **Empty result.** Only test-first-user.js throws when no row qualifies.
  The user-creation and dry-run loaders return the list unchanged. The
  validator counts an issue.
- **Department fallback.** The `department || 'Security'` fallback in the
  user-creation and dry-run loaders can never fire, because a kept row's
  department always lower-cases to "security" and so is never empty
  (`UserCreation.RowRecord`). test-first-user.js always stores
  `'Security'`.
- **Validator result.** The validator only returns `true`/`false` and logs
  its figures. The model returns `None` for `false` and a `Report` of the
  logged figures for `true`.

## Model

| member | source | states |
|---|---|---|
| Columns.FindColumnIndex | user-creation-automation.js:14-22 | the result is -1 exactly when no header matches; otherwise it is a matching column with no matching column before it (the dry-run and validate-excel copies are the same) |
| Columns.FindColumnIndexIsLeftmost | validate-excel.js:156-164 | any matching column with no match to its left is the index returned, so the first match wins |
| Columns.FalsyHeaderMatchesNothing | dry-run-automation.js:188-196 | an empty or missing header normalises to '' and matches no non-empty candidate name |
| Columns.HeaderText | user-creation-automation.js:16 | a falsy header reads as ''; a truthy one reads as its lower-cased text with the whitespace at both ends dropped (`Ascii.IsTrimOf`), which has no capital letter |
| Columns.ContainsSomeIffAny | user-creation-automation.js:17 | `some(name => header.includes(name))` holds exactly when one of the candidate names is contained in the header text |
| Ascii.ToLower | user-creation-automation.js:59 | lower-casing keeps the length, maps each character on its own and leaves no capital |
| Ascii.ToLowerAppend | user-creation-automation.js:61 | lower-casing a concatenation lower-cases each piece |
| Ascii.TrimStart | user-creation-automation.js:53 | the result is a suffix of the input that starts with a non-space, and everything dropped is whitespace |
| Ascii.TrimEnd | user-creation-automation.js:53 | the result is a prefix of the input that ends with a non-space, and everything dropped is whitespace |
| Ascii.Trim | user-creation-automation.js:53-56 | the result is a slice of the input with only whitespace before and after it, and it neither starts nor ends with a space (`IsTrimOf`) |
| Ascii.TrimOfUnique | user-creation-automation.js:53-56 | at most one string is a trim of a given text in the sense of `IsTrimOf`, so that predicate determines the value of `trim` |
| Ascii.TrimIsTheTrim | user-creation-automation.js:53-56 | a string is a trim of the text exactly when it is the result of `Trim` |
| Ascii.TrimEmptyIffBlank | user-creation-automation.js:56 | trimming yields '' exactly when the text is all whitespace |
| Ascii.ContainsIffOccurs | user-creation-automation.js:17 | `includes` holds exactly when the candidate occurs at some offset of the header text |
| Ascii.UnderscoreSpaceRuns | user-creation-automation.js:61 | replacing whitespace runs by '_' leaves no whitespace, adds no capital and never lengthens the text |
| Ascii.UnderscoreSpaceRunsKeepsVisible | user-creation-automation.js:61 | the replacement keeps every character that is neither whitespace nor '_', in order |
| Ascii.UnderscoreSpaceRunsIdentity | user-creation-automation.js:61 | text without whitespace is left unchanged |
| Ascii.UnderscoreSpaceRunsIdempotent | user-creation-automation.js:61 | applying the replacement twice is the same as applying it once |
| Ascii.TrimStartBeforeVisible | user-creation-automation.js:61 | a whitespace run ends at the first visible character: dropping leading whitespace never passes it |
| Ascii.UnderscoreSpaceRunsSplit | user-creation-automation.js:61 | a visible character is kept in place, and the text on each side of it is replaced independently, so no run crosses it |
| Ascii.UnderscoreSpaceRunsOfBlank | user-creation-automation.js:61 | a non-empty run of whitespace on its own becomes exactly one '_' |
| Ascii.NatToStringValue | validate-excel.js:84 | the decimal digits of a natural number read back as that number |
| Ascii.IntToStringValue | validate-excel.js:84 | the decimal form of an integer, minus sign included, reads back as that integer |
| Ascii.IntToString | validate-excel.js:84 | a numeric cell stringifies to non-empty text with no whitespace or capital, signed exactly when negative |
| Cells.At | user-creation-automation.js:52 | indexing a row outside its bounds, -1 included, reads an empty cell |
| Cells.TrimmedText | user-creation-automation.js:56 | a falsy cell gives the empty department text; a truthy one gives its text with the whitespace at both ends dropped (`Ascii.IsTrimOf`) |
| Cells.Truthy | user-creation-automation.js:52 | JavaScript truthiness of a cell: an empty cell, '' and 0 are falsy |
| Cells.Stringify | user-creation-automation.js:53 | `toString()` of a truthy cell is non-empty text |
| Cells.Headers | user-creation-automation.js:33 | the header row is row 0, or no headers for an empty sheet |
| Ascii.Contains | user-creation-automation.js:17 | `includes`, as a left-to-right scan of start positions; `Ascii.ContainsIffOccurs` gives its meaning |
| Columns.ContainsSome | user-creation-automation.js:17 | `some` over the candidate names, in list order; `Columns.ContainsSomeIffAny` gives its meaning |
| Contractors.Username | user-creation-automation.js:61 | the username has no whitespace and no capital letter, is no longer than the joined parts, and keeps every visible character of the lower-cased join; its value is given by `UsernameJoinsParts` |
| Contractors.UsernameJoinsParts | user-creation-automation.js:61 | the username is code, first and last name, each lower-cased with every whitespace run replaced by one '_', joined by two '_' |
| Contractors.LowerOfJoined | user-creation-automation.js:61 | lower-casing the joined parts is joining the lower-cased parts |
| Contractors.RunsOfJoined | user-creation-automation.js:61 | the run replacement of the joined parts is the joined replacements of the parts, since '_' is not whitespace |
| Contractors.UsernameOfPlainParts | test-first-user.js:461 | for lower-case parts without whitespace, the username is exactly code_first_last |
| Contractors.MakeRecord | user-creation-automation.js:63-71 | the pushed record has fullName 'first last', the derived username, and a password equal to it |
| Contractors.WellFormedCredentials | test-first-user.js:463-466 | every stored record's password is its username, free of whitespace and capitals |
| UserCreation.RowRecord | user-creation-automation.js:51-72 | a row yields a record exactly when code, first and last name are truthy and the trimmed department lower-cases to "security"; the record holds the trimmed texts and a non-empty department, so the 'Security' fallback is never taken |
| UserCreation.ResolveColumns | user-creation-automation.js:33-37 | the code column is 0 and each looked-up column is a header index or -1 |
| UserCreation.Extract | user-creation-automation.js:50-74 | the loop pushes at most one record per data row; which records, from which rows, is given by `SourceRows` |
| UserCreation.LoadContractors | user-creation-automation.js:33-77 | fails with "Required columns not found" exactly when a looked-up column is -1; otherwise the earlier list is kept as a prefix and followed by exactly one record per qualifying data row, in row order, each the record built from its row and well formed |
| UserCreation.ExtractWellFormed | user-creation-automation.js:63-71 | every record the loop pushes is well formed |
| UserCreation.SourceRows | user-creation-automation.js:50-73 | the pushed records come, in increasing row order, from exactly the qualifying data rows, header excluded, one record per row built from that row |
| UserCreation.NumberingOfRecords | user-creation-automation.js:50-59 | the row numbering of the generic scan, restated in terms of the loader's own qualifying rule |
| UserCreation.FailureIgnoresDataRows | user-creation-automation.js:45-47 | when a column does not resolve, the data rows make no difference and the result is the columns error |
| UserCreation.RepeatedLoadAppendsAgain | user-creation-automation.js:63 | a second load of the same sheet appends the same records again, so loading is not idempotent once a row qualifies |
| UserCreation.CreateFirstUser | user-creation-automation.js:286-293 | fails with "No contractors loaded" exactly when the list is empty, otherwise uses its first record |
| UserCreation.FirstRecordFromFirstQualifyingRow | user-creation-automation.js:50-64 | the first record loaded is the record of the first qualifying data row |
| UserCreation.FirstUserAfterLoad | user-creation-automation.js:286-292 | after a load into an empty list, the first user created is built from the first qualifying data row |
| UserCreation.ExtractEmptyIffNoneQualify | user-creation-automation.js:50-73 | nothing is pushed exactly when no data row qualifies |
| UserCreation.NoFirstUserAfterEmptyLoad | user-creation-automation.js:286-289 | after a load into an empty list, createFirstUser fails exactly when no data row qualifies |
| DryRun.LoadContractors | dry-run-automation.js:106-184 | a missing file fails with "Excel file not found" before anything else; otherwise the result is that of the user-creation loader |
| DryRun.SkippedRowsAreNotErrors | dry-run-automation.js:146-177 | once the columns resolve, skipped rows never cause an error, and with no qualifying row the list comes back unchanged |
| FirstUser.RowRecord | test-first-user.js:451-467 | a row yields a record exactly when cells 0..3 are truthy and cell 3, trimmed and lower-cased, is "security"; the stored department is always 'Security' |
| FirstUser.Qualifying | test-first-user.js:451-475 | the full scan pushes at most one record per row |
| FirstUser.QualifyingEmptyIffNone | test-first-user.js:451-479 | the full scan pushes nothing exactly when no row qualifies |
| FirstUser.FirstQualifying | test-first-user.js:469-472 | the early return of 'single' mode yields a well-formed record with department 'Security' |
| FirstUser.FirstQualifyingIsHeadOfQualifying | test-first-user.js:469-472 | the early return of 'single' mode gives the first record the full scan would push, and nothing when that scan pushes none |
| FirstUser.FirstQualifyingIgnoresLaterRows | test-first-user.js:469-472 | rows after the first qualifying one are never looked at |
| FirstUser.LoadContractors | test-first-user.js:437-449 | a missing file fails with "Excel file not found" and nothing else does; otherwise the result is the scan of the data rows |
| FirstUser.ScanRows | test-first-user.js:451-482 | "No Security contractors found" exactly when no data row qualifies; 'all' and only 'all' returns the array, which is non-empty; every record returned is well formed with department 'Security' |
| FirstUser.QualifyingRecordsAreSecurity | test-first-user.js:463-466 | every record pushed is well formed and has department 'Security' |
| FirstUser.NoSecurityErrorIffNoQualifyingRow | test-first-user.js:477-479 | in every mode the error is thrown exactly when no data row qualifies |
| FirstUser.OtherModesAgreeWithSingle | test-first-user.js:482 | any mode other than 'all' gives what 'single' gives |
| FirstUser.SingleModeReturnsFirstQualifyingRow | test-first-user.js:469-472 | 'single' mode returns the record of the first qualifying data row |
| FirstUser.SingleModeIgnoresLaterRows | test-first-user.js:469-472 | in 'single' mode, appending rows to a sheet that already has a qualifying row does not change the result |
| FirstUser.SingleScanIgnoresLaterRows | test-first-user.js:451-472 | the 'single' scan over data rows is unchanged by rows appended after a qualifying one |
| FirstUser.AllModeReturnsEveryQualifyingRow | test-first-user.js:451-482 | 'all' mode returns one record per qualifying data row, in increasing row order, each built from its own row, the header excluded |
| Validation.HasCode | validate-excel.js:51 | the code column counts as present when header 0 is truthy |
| Validation.ValidRow | validate-excel.js:72-74 | a row is valid when its code is truthy and the first and last name columns were found and hold truthy cells |
| Validation.IssueCount | validate-excel.js:126-141 | at most three issues, and none exactly when no column is missing, every row is valid and some row is Security |
| Validation.DepartmentText | validate-excel.js:77-78 | the department text is '' when the column is missing, and otherwise the trimmed cell text |
| Validation.SampleRow | validate-excel.js:72-101 | a sample exists exactly for a valid Security row; its department lower-cases to "security" and its username has no whitespace or capital |
| Validation.ReportOf | validate-excel.js:63-145 | the data rows are counted; Security rows are at most the valid rows, which are at most all rows; there are min(Security rows, 3) samples; at most 3 issues; no issue exactly when every column is found, every row is valid and some row is Security |
| Validation.NoIssuesIffCounts | validate-excel.js:126-145 | the "no issues" outcome is the conjunction of found columns, a full valid count and a non-zero Security count |
| Validation.AllValidIffFullCount | validate-excel.js:133-136 | every data row is valid exactly when the valid count equals the row count |
| Validation.SomeSecurityIffPositiveCount | validate-excel.js:138-141 | some data row is a Security row exactly when the Security count is non-zero |
| Validation.ValidateExcelFile | validate-excel.js:5-153 | returns false (None) exactly when the file is missing or the sheet has no rows; otherwise the figures of the one pass are the report of the sheet |
| Validation.AnalyseRows | validate-excel.js:63-102 | the row loop's running figures equal the whole-sheet counts and the first three samples |
| Validation.Step | validate-excel.js:68-101 | an iteration counts the row, adds at most one to the valid and Security counts, only appends samples, and appends none once three are kept |
| Validation.StepExtendsTally | validate-excel.js:68-102 | one loop iteration carries the figures of the rows seen to those of one more row |
| Validation.StepCounts | validate-excel.js:70-81 | an iteration counts the row, counts it as valid exactly when it is valid, and counts it as Security exactly when it is a Security row |
| Validation.StepValid | validate-excel.js:72-76 | after an iteration, the valid count is the number of valid rows seen |
| Validation.StepSecurity | validate-excel.js:80-81 | after an iteration, the Security count is the number of Security rows seen |
| Validation.StepSamples | validate-excel.js:90-100 | after an iteration, the samples are the first three Security rows seen |
| Validation.UnresolvedNameMeansNoValidRows | validate-excel.js:72-74 | a first or last name column that is not found leaves no valid row and, once there is a data row, gives two issues at least |
| Validation.UnresolvedDepartmentMeansNoSecurity | validate-excel.js:77-80 | a department column that is not found leaves no Security row and no sample, and gives two issues at least |
| Validation.RowAgreesWithLoader | validate-excel.js:72-100 | row by row, the validator's valid and Security tests are the user-creation loader's tests, and a sample is the loader's record without the password |
| Validation.SamplesArePreviews | validate-excel.js:91-98 | the samples pushed are the user-creation loader's records without passwords, in order |
| Validation.ValidatorAgreesWithLoader | validate-excel.js:106 | the Security count is the number of contractors user-creation would load, and the samples are its first three |
| Validation.NoIssuesMeansReady | validate-excel.js:143-145 | with no issue reported, the user-creation loader succeeds on the same sheet, loading as many contractors as the Security count (at least one), and createFirstUser has a user |

## Left out

- Reading the workbook (`XLSX.readFile`, `sheet_to_json`) is not modelled. The sheet is an input `Table`. A read failure, which the loaders rethrow and the validator turns into `false`, is not modelled.
- The file-existence check (`fs.existsSync`) is a boolean input. The user-creation loader has no such check.
- Cell values are an empty cell, text or an integer. Floating-point numbers, booleans and dates are not modelled, so `toString()` of those is left out. A missing row (a hole in the sheet) is modelled as an empty row: every cell of it reads as empty, as in the scripts.
- Lower-casing and whitespace are ASCII only. Non-ASCII case mapping and the Unicode whitespace matched by `trim` and `\s` are left out.
- Console output, emoji logs, the readline prompts and the `main` functions only report or ask, so they are left out. The validator's logged figures are returned as a `Report`.
- The Selenium browser automation is left out, because it drives a remote web application. This covers `createUser`, form filling, frames, waits, the mock driver of the dry run and stealth.js. `createFirstUser` is modelled only up to its choice of record.
- `findExcelFile` in validate-excel.js searches the directory and is left out.
- Ascii.UnderscoreSpaceRuns: the function's own contract only states the absence of whitespace, the length bound and what happens to capitals. That each whitespace run becomes exactly one `_` is stated by `UnderscoreSpaceRunsSplit` and `UnderscoreSpaceRunsOfBlank`.
- FilterMaps.Count: the function only bounds the count by the length. Its meaning is given by `CountZeroIffNone`, `CountFullIffAll`, `CountSnoc` and `CountMonotone`.

/**
  The contractor record every loader builds, the username/password
  derivation they share, and the errors they throw.
 */
module Contractors {
  import opened Ascii

  /** The object pushed onto the contractor list. `password` always equals `username`. */
  datatype Record = Record(
    code: string,
    fullName: string,
    firstName: string,
    lastName: string,
    department: string,
    username: string,
    password: string)

  /** The errors thrown while loading, by their message. */
  datatype LoadError =
    | FileNotFound            // "Excel file not found: ..."
    | RequiredColumnsNotFound // "Required columns not found. Need: First Name, Last Name, Department"
    | NoSecurityContractors   // "No Security contractors found"
    | NoContractorsLoaded     // "No contractors loaded"

  /** The lower-cased department a row must carry to be kept. */
  const SecurityDepartment: string := "security"

  /**
    `` `${code}_${firstName}_${lastName}`.toLowerCase().replace(/\s+/g, '_') ``:
    free of whitespace and capitals, no longer than the joined parts, and
    carrying exactly their characters other than whitespace and `_`.
   */
  function Username(code: string, firstName: string, lastName: string): (u: string)
    ensures NoSpace(u) && NoUpper(u)
    ensures |u| <= |code| + |firstName| + |lastName| + 2
    ensures Visible(u) == Visible(ToLower(code + "_" + firstName + "_" + lastName))
  {
    var joined := ToLower(code + "_" + firstName + "_" + lastName);
    UnderscoreSpaceRunsKeepsVisible(joined);
    UnderscoreSpaceRuns(joined)
  }

  /**
    The username is the three parts, each lower-cased and with its
    whitespace runs replaced by one `_`, joined by the two `_` separators.
    A run never crosses a separator, since `_` is not whitespace.
   */
  lemma UsernameJoinsParts(code: string, firstName: string, lastName: string)
    ensures Username(code, firstName, lastName)
            == UnderscoreSpaceRuns(ToLower(code)) + "_" + UnderscoreSpaceRuns(ToLower(firstName))
               + "_" + UnderscoreSpaceRuns(ToLower(lastName))
  {
    LowerOfJoined(code, firstName, lastName);
    RunsOfJoined(ToLower(code), ToLower(firstName), ToLower(lastName));
  }

  lemma LowerOfJoined(code: string, firstName: string, lastName: string)
    ensures ToLower(code + "_" + firstName + "_" + lastName)
            == ToLower(code) + "_" + ToLower(firstName) + "_" + ToLower(lastName)
  {
    ToLowerAppend(code + "_" + firstName + "_", lastName);
    ToLowerAppend(code + "_" + firstName, "_");
    ToLowerAppend(code + "_", firstName);
    ToLowerAppend(code, "_");
    assert ToLower("_") == "_";
  }

  lemma RunsOfJoined(c: string, f: string, l: string)
    ensures UnderscoreSpaceRuns(c + "_" + f + "_" + l)
            == UnderscoreSpaceRuns(c) + "_" + UnderscoreSpaceRuns(f) + "_" + UnderscoreSpaceRuns(l)
  {
    var tail := f + "_" + l;
    assert c + "_" + f + "_" + l == c + ['_'] + tail;
    UnderscoreSpaceRunsSplit(c, '_', tail);
    UnderscoreSpaceRunsSplit(f, '_', l);
  }

  /** Names already in lower case and free of whitespace pass through unchanged, joined by `_`. */
  lemma UsernameOfPlainParts(code: string, firstName: string, lastName: string)
    requires NoSpace(code) && NoSpace(firstName) && NoSpace(lastName)
    requires NoUpper(code) && NoUpper(firstName) && NoUpper(lastName)
    ensures Username(code, firstName, lastName) == code + "_" + firstName + "_" + lastName
  {
    var joined := code + "_" + firstName + "_" + lastName;
    assert NoUpper(joined) && NoSpace(joined);
    assert ToLower(joined) == joined;
    UnderscoreSpaceRunsIdentity(joined);
  }

  /** The invariant every stored record satisfies, whichever loader built it. */
  predicate WellFormed(r: Record) {
    && r.fullName == r.firstName + " " + r.lastName
    && r.username == Username(r.code, r.firstName, r.lastName)
    && r.password == r.username
  }

  /** The record literal of the loaders, with its derived fields. */
  function MakeRecord(code: string, firstName: string, lastName: string, department: string): (r: Record)
    ensures WellFormed(r)
    ensures r.code == code && r.firstName == firstName && r.lastName == lastName
    ensures r.department == department
  {
    var username := Username(code, firstName, lastName);
    Record(code, firstName + " " + lastName, firstName, lastName, department, username, username)
  }

  /** Stored credentials contain no whitespace and no capital letter, and the password is the username. */
  lemma WellFormedCredentials(r: Record)
    requires WellFormed(r)
    ensures NoSpace(r.username) && NoUpper(r.username)
    ensures r.password == r.username
  {
  }
}

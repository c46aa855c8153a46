/**
  The column resolver `findColumnIndex`. The three script copies have
  identical bodies (two class methods, in user-creation-automation.js and
  dry-run-automation.js, and a top-level function in validate-excel.js) and
  are modelled once here.
 */
module Columns {
  import opened Ascii
  import opened Cells
  import opened FilterMaps

  /** The index the resolver reports when no header matches. */
  const NotFound: int := -1

  const FirstNameNames: seq<string> := ["first name", "firstname", "forename"]
  const LastNameNames: seq<string> := ["last name", "lastname", "surname"]
  const DepartmentNames: seq<string> := ["department", "dept"]

  /** `headers[i] ? headers[i].toString().toLowerCase().trim() : ''`. */
  function HeaderText(c: Cell): (s: string)
    ensures !Truthy(c) ==> s == []
    ensures Truthy(c) ==> IsTrimOf(s, ToLower(Stringify(c)))
    ensures NoUpper(s)
  {
    if Truthy(c) then
      var t := Trim(ToLower(Stringify(c)));
      assert forall i :: 0 <= i < |t| ==> t[i] in ToLower(Stringify(c)) by {
        TrimIsSlice(ToLower(Stringify(c)));
      }
      t
    else []
  }

  lemma TrimIsSlice(s: string)
    ensures forall i :: 0 <= i < |Trim(s)| ==> Trim(s)[i] in s
  {
    var r := Trim(s);
    var k :| SurroundedByBlanks(r, s, k);
    forall i | 0 <= i < |r| ensures r[i] in s {
      assert r[i] == s[k + i];
    }
  }

  /** `possibleNames.some(name => text.includes(name))`, tried in list order. */
  predicate ContainsSome(text: string, names: seq<string>) {
    names != [] && (Contains(text, names[0]) || ContainsSome(text, names[1..]))
  }

  /** `some` holds exactly when one of the candidates is contained in the text. */
  lemma {:induction false} ContainsSomeIffAny(text: string, names: seq<string>)
    ensures ContainsSome(text, names) <==> exists k :: 0 <= k < |names| && Contains(text, names[k])
    decreases |names|
  {
    if names != [] {
      ContainsSomeIffAny(text, names[1..]);
      if exists k :: 0 <= k < |names| && Contains(text, names[k]) {
        var k :| 0 <= k < |names| && Contains(text, names[k]);
        if k > 0 {
          assert names[1..][k - 1] == names[k];
        }
      }
      if exists k :: 0 <= k < |names[1..]| && Contains(text, names[1..][k]) {
        var k :| 0 <= k < |names[1..]| && Contains(text, names[1..][k]);
        assert names[1..][k] == names[k + 1];
      }
    }
  }

  /** The header cell, once normalised, contains one of the candidate names. */
  predicate Matches(header: Cell, names: seq<string>) {
    ContainsSome(HeaderText(header), names)
  }

  function MatchesOf(names: seq<string>): Cell -> bool {
    (header: Cell) => Matches(header, names)
  }

  /**
    `findColumnIndex(headers, possibleNames)`: the leftmost header whose
    normalised text contains some candidate, or -1.
   */
  function FindColumnIndex(headers: Row, names: seq<string>): (r: int)
    ensures NotFound <= r < |headers|
    ensures r == NotFound <==> forall j :: 0 <= j < |headers| ==> !Matches(headers[j], names)
    ensures 0 <= r ==> Matches(headers[r], names)
    ensures 0 <= r ==> forall j :: 0 <= j < r ==> !Matches(headers[j], names)
  {
    FirstFrom(headers, MatchesOf(names), 0)
  }

  /** Leftmost-match is a full characterisation: any matching column with no match before it is the answer. */
  lemma FindColumnIndexIsLeftmost(headers: Row, names: seq<string>, k: nat)
    requires k < |headers| && Matches(headers[k], names)
    requires forall j :: 0 <= j < k ==> !Matches(headers[j], names)
    ensures FindColumnIndex(headers, names) == k
  {
  }

  /** No candidate is contained in the empty string unless a candidate is itself empty. */
  lemma {:induction false} EmptyTextContainsNone(names: seq<string>)
    requires forall k :: 0 <= k < |names| ==> names[k] != []
    ensures !ContainsSome([], names)
    decreases |names|
  {
    if names != [] {
      EmptyTextContainsNone(names[1..]);
    }
  }

  /** A missing or falsy header normalises to '' and so matches no non-empty candidate. */
  lemma FalsyHeaderMatchesNothing(header: Cell, names: seq<string>)
    requires !Truthy(header)
    requires forall k :: 0 <= k < |names| ==> names[k] != []
    ensures !Matches(header, names)
  {
    EmptyTextContainsNone(names);
  }
}

/**
  The JavaScript string operations the loaders rely on, restricted to ASCII:
  `toLowerCase`, `trim`, `includes`, `replace(/\s+/g, '_')` and the decimal
  `toString` of an integer.
 */
module Ascii {

  /** The ASCII members of JavaScript's `\s` class, which are also what `trim` strips. */
  predicate IsSpace(c: char) {
    c == ' ' || c == '\t' || c == '\n' || c == '\r' || c == '\U{000B}' || c == '\U{000C}'
  }

  predicate IsUpper(c: char) {
    'A' <= c <= 'Z'
  }

  predicate NoSpace(s: string) {
    forall i :: 0 <= i < |s| ==> !IsSpace(s[i])
  }

  predicate NoUpper(s: string) {
    forall i :: 0 <= i < |s| ==> !IsUpper(s[i])
  }

  function LowerChar(c: char): (d: char)
    ensures !IsUpper(d)
    ensures IsSpace(d) <==> IsSpace(c)
    ensures !IsUpper(c) ==> d == c
  {
    if IsUpper(c) then (c as int + 32) as char else c
  }

  /** `s.toLowerCase()`, character by character. */
  function ToLower(s: string): (r: string)
    ensures |r| == |s|
    ensures forall i :: 0 <= i < |s| ==> r[i] == LowerChar(s[i])
    ensures NoUpper(r)
  {
    if s == [] then [] else [LowerChar(s[0])] + ToLower(s[1..])
  }

  /** Lower-casing works piecewise on a concatenation. */
  lemma ToLowerAppend(a: string, b: string)
    ensures ToLower(a + b) == ToLower(a) + ToLower(b)
  {
    var l, r := ToLower(a + b), ToLower(a) + ToLower(b);
    forall i | 0 <= i < |l| ensures l[i] == r[i] {
      if i < |a| {
        assert (a + b)[i] == a[i];
      } else {
        assert (a + b)[i] == b[i - |a|];
      }
    }
  }

  /** Leading whitespace removed: `r` is the longest suffix of `s` that does not start with a space. */
  function TrimStart(s: string): (r: string)
    ensures |r| <= |s| && r == s[|s| - |r|..]
    ensures forall i :: 0 <= i < |s| - |r| ==> IsSpace(s[i])
    ensures r != [] ==> !IsSpace(r[0])
  {
    if s != [] && IsSpace(s[0]) then TrimStart(s[1..]) else s
  }

  /** Trailing whitespace removed: `r` is the longest prefix of `s` that does not end with a space. */
  function TrimEnd(s: string): (r: string)
    ensures |r| <= |s| && r == s[..|r|]
    ensures forall i :: |r| <= i < |s| ==> IsSpace(s[i])
    ensures r != [] ==> !IsSpace(r[|r| - 1])
  {
    if s != [] && IsSpace(s[|s| - 1]) then TrimEnd(s[..|s| - 1]) else s
  }

  /** `s.trim()`: a slice of `s` obtained by dropping whitespace at both ends only. */
  function Trim(s: string): (r: string)
    ensures |r| <= |s|
    ensures r != [] ==> !IsSpace(r[0]) && !IsSpace(r[|r| - 1])
    ensures IsTrimOf(r, s)
  {
    var t := TrimStart(s);
    var r := TrimEnd(t);
    TrimSliceWitness(s, |s| - |t|, r);
    r
  }

  /**
    `r` is what trimming `s` must give: the slice of `s` at some offset `k`
    with nothing but whitespace before and after it, neither starting nor
    ending with a space.
   */
  ghost predicate IsTrimOf(r: string, s: string) {
    && (exists k :: SurroundedByBlanks(r, s, k))
    && (r != [] ==> !IsSpace(r[0]) && !IsSpace(r[|r| - 1]))
  }

  /** `r` sits in `s` at offset `k`, with only whitespace on either side. */
  predicate SurroundedByBlanks(r: string, s: string, k: int) {
    0 <= k && k + |r| <= |s| && r == s[k..k + |r|] && NoneVisible(s[..k]) && NoneVisible(s[k + |r|..])
  }

  lemma TrimSliceWitness(s: string, k: int, r: string)
    requires 0 <= k <= |s| && NoneVisible(s[..k])
    requires |r| <= |s| - k && r == s[k..][..|r|] && NoneVisible(s[k..][|r|..])
    ensures SurroundedByBlanks(r, s, k)
  {
    assert s[k..][..|r|] == s[k..k + |r|];
    assert s[k..][|r|..] == s[k + |r|..];
  }

  /** Two results that both meet `IsTrimOf` for the same input are equal: the predicate pins down `trim`. */
  lemma TrimOfUnique(r1: string, r2: string, s: string)
    requires IsTrimOf(r1, s) && IsTrimOf(r2, s)
    ensures r1 == r2
  {
    var k1 :| SurroundedByBlanks(r1, s, k1);
    var k2 :| SurroundedByBlanks(r2, s, k2);
    if r1 != [] && r2 != [] {
      StartsAtFirstVisible(r1, r2, s, k1, k2);
      StartsAtFirstVisible(r2, r1, s, k2, k1);
      EndsAtLastVisible(r1, r2, s, k1, k2);
      EndsAtLastVisible(r2, r1, s, k2, k1);
    } else if r1 != [] {
      NonBlankSliceNotBlank(r1, s, k1, k2);
    } else if r2 != [] {
      NonBlankSliceNotBlank(r2, s, k2, k1);
    }
  }

  /** A slice starting at a visible character starts no later than any slice with only blanks before it. */
  lemma StartsAtFirstVisible(r1: string, r2: string, s: string, k1: int, k2: int)
    requires r1 != [] && !IsSpace(r1[0]) && SurroundedByBlanks(r1, s, k1) && SurroundedByBlanks(r2, s, k2)
    ensures k2 <= k1
  {
    BlankBefore(s, k2);
    assert s[k1] == r1[0];
  }

  /** A slice ending at a visible character ends no later than any slice with only blanks after it. */
  lemma EndsAtLastVisible(r1: string, r2: string, s: string, k1: int, k2: int)
    requires r1 != [] && !IsSpace(r1[|r1| - 1]) && SurroundedByBlanks(r1, s, k1) && SurroundedByBlanks(r2, s, k2)
    ensures k1 + |r1| <= k2 + |r2|
  {
    BlankFrom(s, k2 + |r2|);
    assert s[k1 + |r1| - 1] == r1[|r1| - 1];
  }

  /** A string holding a visible character is not blank around any empty slice. */
  lemma NonBlankSliceNotBlank(r1: string, s: string, k1: int, k2: int)
    requires r1 != [] && !IsSpace(r1[0]) && SurroundedByBlanks(r1, s, k1)
    ensures !SurroundedByBlanks([], s, k2)
  {
    assert s[k1] == r1[0];
    if 0 <= k2 <= |s| {
      BlankBefore(s, k2);
      BlankFrom(s, k2);
    }
  }

  lemma BlankBefore(s: string, k: int)
    requires 0 <= k <= |s|
    ensures NoneVisible(s[..k]) ==> forall i :: 0 <= i < k ==> IsSpace(s[i])
  {
    forall i | 0 <= i < k ensures s[..k][i] == s[i] { }
  }

  lemma BlankFrom(s: string, k: int)
    requires 0 <= k <= |s|
    ensures NoneVisible(s[k..]) ==> forall i :: k <= i < |s| ==> IsSpace(s[i])
  {
    forall i | k <= i < |s| ensures s[k..][i - k] == s[i] { }
  }

  /** `IsTrimOf` holds of exactly one result, the one `Trim` returns. */
  lemma TrimIsTheTrim(r: string, s: string)
    ensures IsTrimOf(r, s) <==> r == Trim(s)
  {
    if IsTrimOf(r, s) {
      TrimOfUnique(r, Trim(s), s);
    }
  }

  /** Trimming yields the empty string exactly when the input is blank. */
  lemma TrimEmptyIffBlank(s: string)
    ensures Trim(s) == [] <==> NoneVisible(s)
  {
    var t := TrimStart(s);
    if t != [] {
      assert t[0] == s[|s| - |t|];
    }
  }

  /** Every character of `s` is whitespace (vacuously true of the empty string). */
  predicate NoneVisible(s: string) {
    forall i :: 0 <= i < |s| ==> IsSpace(s[i])
  }

  /** `sub` occurs in `s` starting at position `i`. */
  predicate OccursAt(s: string, sub: string, i: nat) {
    i + |sub| <= |s| && s[i..i + |sub|] == sub
  }

  /** `s.includes(sub)`, scanning the start positions of `s` from the left. */
  predicate Contains(s: string, sub: string)
    decreases |s|
  {
    sub <= s || (s != [] && Contains(s[1..], sub))
  }

  /** `includes` holds exactly when there is a position at which `sub` occurs. */
  lemma {:induction false} ContainsIffOccurs(s: string, sub: string)
    ensures Contains(s, sub) <==> exists i: nat :: i <= |s| && OccursAt(s, sub, i)
    decreases |s|
  {
    if sub <= s {
      assert OccursAt(s, sub, 0);
    } else if s == [] {
    } else {
      ContainsIffOccurs(s[1..], sub);
      if exists i: nat :: i <= |s| && OccursAt(s, sub, i) {
        var i: nat :| i <= |s| && OccursAt(s, sub, i);
        assert i != 0;
        OccursInTail(s, sub, i);
      }
      if Contains(s[1..], sub) {
        var i: nat :| i <= |s[1..]| && OccursAt(s[1..], sub, i);
        OccursInTail(s, sub, i + 1);
      }
    }
  }

  /** An occurrence past the first character is an occurrence in the tail, one position earlier. */
  lemma OccursInTail(s: string, sub: string, i: nat)
    requires s != [] && 1 <= i
    ensures OccursAt(s, sub, i) <==> OccursAt(s[1..], sub, i - 1)
  {
    if i + |sub| <= |s| {
      assert s[1..][i - 1..i - 1 + |sub|] == s[i..i + |sub|];
    }
  }

  /**
    `s.replace(/\s+/g, '_')`: every maximal run of whitespace becomes one
    underscore; every other character is kept in place.
   */
  function UnderscoreSpaceRuns(s: string): (r: string)
    ensures |r| <= |s|
    ensures NoSpace(r)
    ensures NoUpper(s) ==> NoUpper(r)
    decreases |s|
  {
    if s == [] then []
    else if IsSpace(s[0]) then
      var rest := TrimStart(s[1..]);
      assert rest == s[|s| - |rest|..];
      NoUpperSuffix(s, |s| - |rest|);
      var tail := UnderscoreSpaceRuns(rest);
      CleanConcat("_", tail);
      "_" + tail
    else
      var tail := UnderscoreSpaceRuns(s[1..]);
      NoUpperSuffix(s, 1);
      CleanConcat([s[0]], tail);
      [s[0]] + tail
  }

  lemma NoUpperSuffix(s: string, k: nat)
    requires k <= |s|
    ensures NoUpper(s) ==> NoUpper(s[k..])
  {
    if NoUpper(s) {
      forall i | 0 <= i < |s| - k ensures !IsUpper(s[k..][i]) {
        assert s[k..][i] == s[k + i];
      }
    }
  }

  /** Joining two strings keeps them free of whitespace and of capitals. */
  lemma CleanConcat(a: string, b: string)
    ensures NoSpace(a) && NoSpace(b) ==> NoSpace(a + b)
    ensures NoUpper(a) && NoUpper(b) ==> NoUpper(a + b)
  {
  }

  /** The characters of `s` that are neither whitespace nor `_`, in order. */
  function Visible(s: string): string {
    if s == [] then []
    else if IsSpace(s[0]) || s[0] == '_' then Visible(s[1..])
    else [s[0]] + Visible(s[1..])
  }

  lemma {:induction false} VisibleAppend(a: string, b: string)
    ensures Visible(a + b) == Visible(a) + Visible(b)
    decreases |a|
  {
    if a == [] {
      assert a + b == b;
    } else {
      assert (a + b)[1..] == a[1..] + b;
      VisibleAppend(a[1..], b);
    }
  }

  lemma {:induction false} VisibleTrimStart(s: string)
    ensures Visible(TrimStart(s)) == Visible(s)
    decreases |s|
  {
    if s != [] && IsSpace(s[0]) {
      VisibleTrimStart(s[1..]);
    }
  }

  /** The replacement neither loses nor invents a character other than whitespace and `_`. */
  lemma {:induction false} UnderscoreSpaceRunsKeepsVisible(s: string)
    ensures Visible(UnderscoreSpaceRuns(s)) == Visible(s)
    decreases |s|
  {
    if s == [] {
    } else if IsSpace(s[0]) {
      var rest := TrimStart(s[1..]);
      UnderscoreSpaceRunsKeepsVisible(rest);
      VisibleTrimStart(s[1..]);
      VisibleAppend("_", UnderscoreSpaceRuns(rest));
    } else {
      UnderscoreSpaceRunsKeepsVisible(s[1..]);
      VisibleAppend([s[0]], UnderscoreSpaceRuns(s[1..]));
    }
  }

  /** A string without whitespace is left exactly as it is. */
  lemma {:induction false} UnderscoreSpaceRunsIdentity(s: string)
    requires NoSpace(s)
    ensures UnderscoreSpaceRuns(s) == s
    decreases |s|
  {
    if s != [] {
      UnderscoreSpaceRunsIdentity(s[1..]);
    }
  }

  /** Applying the replacement a second time changes nothing. */
  lemma UnderscoreSpaceRunsIdempotent(s: string)
    ensures UnderscoreSpaceRuns(UnderscoreSpaceRuns(s)) == UnderscoreSpaceRuns(s)
  {
    UnderscoreSpaceRunsIdentity(UnderscoreSpaceRuns(s));
  }

  /** Leading whitespace is dropped only up to the first visible character. */
  lemma {:induction false} TrimStartBeforeVisible(a: string, c: char, b: string)
    requires !IsSpace(c)
    ensures TrimStart(a + [c] + b) == TrimStart(a) + [c] + b
    decreases |a|
  {
    if a == [] {
      assert a + [c] + b == [c] + b;
    } else {
      assert (a + [c] + b)[0] == a[0];
      assert (a + [c] + b)[1..] == a[1..] + [c] + b;
      if IsSpace(a[0]) {
        TrimStartBeforeVisible(a[1..], c, b);
      }
    }
  }

  /**
    A visible character separates the replacement: the runs on its left and
    on its right are replaced independently, and the character itself stays.
   */
  lemma {:induction false} UnderscoreSpaceRunsSplit(a: string, c: char, b: string)
    requires !IsSpace(c)
    ensures UnderscoreSpaceRuns(a + [c] + b) == UnderscoreSpaceRuns(a) + [c] + UnderscoreSpaceRuns(b)
    decreases |a|
  {
    var s := a + [c] + b;
    if a == [] {
      assert s == [c] + b;
      UnderscoreSpaceRunsOfVisibleHead(s);
    } else {
      assert s[0] == a[0];
      assert s[1..] == a[1..] + [c] + b;
      if IsSpace(a[0]) {
        var rest := TrimStart(a[1..]);
        TrimStartBeforeVisible(a[1..], c, b);
        UnderscoreSpaceRunsOfSpaceHead(s);
        UnderscoreSpaceRunsOfSpaceHead(a);
        UnderscoreSpaceRunsSplit(rest, c, b);
        JoinAround("_", UnderscoreSpaceRuns(rest), c, UnderscoreSpaceRuns(b));
      } else {
        UnderscoreSpaceRunsOfVisibleHead(s);
        UnderscoreSpaceRunsOfVisibleHead(a);
        UnderscoreSpaceRunsSplit(a[1..], c, b);
        JoinAround([a[0]], UnderscoreSpaceRuns(a[1..]), c, UnderscoreSpaceRuns(b));
      }
    }
  }

  lemma JoinAround(h: string, x: string, c: char, y: string)
    ensures h + (x + [c] + y) == (h + x) + [c] + y
  {
  }

  lemma UnderscoreSpaceRunsOfVisibleHead(s: string)
    requires s != [] && !IsSpace(s[0])
    ensures UnderscoreSpaceRuns(s) == [s[0]] + UnderscoreSpaceRuns(s[1..])
  {
  }

  lemma UnderscoreSpaceRunsOfSpaceHead(s: string)
    requires s != [] && IsSpace(s[0])
    ensures UnderscoreSpaceRuns(s) == "_" + UnderscoreSpaceRuns(TrimStart(s[1..]))
  {
  }

  /** A non-empty run of whitespace, alone, becomes exactly one underscore. */
  lemma UnderscoreSpaceRunsOfBlank(s: string)
    requires s != [] && NoneVisible(s)
    ensures UnderscoreSpaceRuns(s) == "_"
  {
    UnderscoreSpaceRunsOfSpaceHead(s);
    BlankTrimsToNothing(s[1..]);
  }

  lemma {:induction false} BlankTrimsToNothing(s: string)
    requires NoneVisible(s)
    ensures TrimStart(s) == []
    decreases |s|
  {
    if s != [] {
      BlankTrimsToNothing(s[1..]);
    }
  }

  /** The value of one decimal digit character. */
  function DigitValue(c: char): int {
    c as int - '0' as int
  }

  /** The number a string of decimal digits denotes, most significant digit first. */
  function DigitsValue(s: string): int {
    if s == [] then 0 else DigitsValue(s[..|s| - 1]) * 10 + DigitValue(s[|s| - 1])
  }

  /** `Number(s)` of an integer's decimal form: an optional minus sign before the digits. */
  function SignedValue(s: string): int {
    if s != [] && s[0] == '-' then -DigitsValue(s[1..]) else DigitsValue(s)
  }

  function DigitChar(d: nat): (c: char)
    requires d < 10
    ensures '0' <= c <= '9'
    ensures DigitValue(c) == d
  {
    ('0' as int + d) as char
  }

  /** Reading the digits back gives the number that was written. */
  lemma {:induction false} NatToStringValue(n: nat)
    ensures DigitsValue(NatToString(n)) == n
    decreases n
  {
    var s := NatToString(n);
    if n < 10 {
      assert s[..|s| - 1] == [];
    } else {
      NatToStringValue(n / 10);
      assert s[..|s| - 1] == NatToString(n / 10);
    }
  }

  /** Reading the decimal form of an integer back, sign included, gives the integer. */
  lemma IntToStringValue(i: int)
    ensures SignedValue(IntToString(i)) == i
  {
    var s := IntToString(i);
    if i < 0 {
      assert s[1..] == NatToString(-i);
      NatToStringValue(-i);
    } else {
      NatToStringValue(i);
    }
  }

  /** Decimal digits of `n`, most significant first, without leading zeros. */
  function NatToString(n: nat): (r: string)
    ensures r != []
    ensures forall i :: 0 <= i < |r| ==> '0' <= r[i] <= '9'
    ensures r[0] == '0' <==> n == 0
    decreases n
  {
    if n < 10 then [DigitChar(n)] else NatToString(n / 10) + [DigitChar(n % 10)]
  }

  /** `String(i)` for an integer: optional minus sign followed by the digits. */
  function IntToString(i: int): (r: string)
    ensures r != [] && NoSpace(r) && NoUpper(r)
    ensures r[0] == '-' <==> i < 0
  {
    if i < 0 then "-" + NatToString(-i) else NatToString(i)
  }
}

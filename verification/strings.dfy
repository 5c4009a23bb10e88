/** The string operations the parser relies on: ASCII lower-casing (`str.lower`),
    substring membership (`day in col`) and decimal formatting of integers
    (`astype(str)` on an integer column). */
module Strings {
  import opened Results

  // ---------------------------------------------------------------------------
  // Lower-casing
  // ---------------------------------------------------------------------------

  predicate IsUpper(c: char) {
    'A' <= c <= 'Z'
  }

  /** The ASCII lower-case form of one character; everything but A-Z is kept. */
  function LowerChar(c: char): (r: char)
    ensures !IsUpper(r)
  {
    if IsUpper(c) then (c as int + 32) as char else c
  }

  predicate IsLowerCase(s: string) {
    forall i :: 0 <= i < |s| ==> !IsUpper(s[i])
  }

  /** `s.lower()`, restricted to ASCII letters. */
  function Lower(s: string): (r: string)
    ensures |r| == |s|
    ensures IsLowerCase(r)
    ensures forall i :: 0 <= i < |s| ==> r[i] == LowerChar(s[i])
  {
    seq(|s|, i requires 0 <= i < |s| => LowerChar(s[i]))
  }

  /** Two characters that are the same letter up to ASCII case. */
  predicate SameLetterIgnoringCase(a: char, b: char) {
    || a == b
    || (IsUpper(a) && b as int == a as int + 32)
    || (IsUpper(b) && a as int == b as int + 32)
  }

  /** Two strings that spell the same text up to ASCII case, position by position. */
  predicate EqualIgnoringCase(s: string, u: string) {
    |s| == |u| && forall i :: 0 <= i < |s| ==> SameLetterIgnoringCase(s[i], u[i])
  }

  /** A string that is already lower case is left alone. */
  lemma LowerOfLowerCase(s: string)
    requires IsLowerCase(s)
    ensures Lower(s) == s
  {
  }

  /** Lower-casing twice is lower-casing once. */
  lemma LowerIdempotent(s: string)
    ensures Lower(Lower(s)) == Lower(s)
  {
    LowerOfLowerCase(Lower(s));
  }

  /** Lower-casing identifies exactly the strings that differ only in case. */
  lemma LowerEqualIffEqualIgnoringCase(s: string, u: string)
    ensures Lower(s) == Lower(u) <==> EqualIgnoringCase(s, u)
  {
    if Lower(s) == Lower(u) {
      assert |s| == |u|;
      forall i | 0 <= i < |s|
        ensures SameLetterIgnoringCase(s[i], u[i])
      {
        assert Lower(s)[i] == Lower(u)[i];
      }
    }
    if EqualIgnoringCase(s, u) {
      forall i | 0 <= i < |s|
        ensures Lower(s)[i] == Lower(u)[i]
      {
        assert SameLetterIgnoringCase(s[i], u[i]);
      }
    }
  }

  /** The lower-case form is the only lower-case string equal to `s` up to case. */
  lemma LowerUnique(s: string, u: string)
    requires IsLowerCase(u) && EqualIgnoringCase(s, u)
    ensures u == Lower(s)
  {
    forall i | 0 <= i < |s|
      ensures u[i] == Lower(s)[i]
    {
      assert SameLetterIgnoringCase(s[i], u[i]);
    }
  }

  // ---------------------------------------------------------------------------
  // Substring membership
  // ---------------------------------------------------------------------------

  /** The characters of `sub` from position `k` on sit in `s` from offset `i + k` on. */
  predicate MatchesFrom(s: string, sub: string, i: nat, k: nat)
    decreases |sub| - k
  {
    k >= |sub| || (i + k < |s| && s[i + k] == sub[k] && MatchesFrom(s, sub, i, k + 1))
  }

  /** `sub` occurs in `s` at offset `i` or later: the naive left-to-right search. */
  predicate OccursFrom(s: string, sub: string, i: nat)
    decreases |s| - i
  {
    MatchesFrom(s, sub, i, 0) || (i < |s| && OccursFrom(s, sub, i + 1))
  }

  /** Python's `sub in s` for strings: `sub` occurs somewhere in `s`. */
  predicate Contains(s: string, sub: string) {
    OccursFrom(s, sub, 0)
  }

  /** `sub` occurs in `s` starting at position `i`. */
  predicate OccursAt(s: string, sub: string, i: int) {
    0 <= i && i + |sub| <= |s| && s[i..i + |sub|] == sub
  }

  lemma {:induction false} MatchesFromIff(s: string, sub: string, i: nat, k: nat)
    requires k <= |sub| && i + k <= |s|
    ensures MatchesFrom(s, sub, i, k) <==>
      (i + |sub| <= |s| && forall j :: k <= j < |sub| ==> s[i + j] == sub[j])
    decreases |sub| - k
  {
    if k < |sub| && i + k < |s| {
      MatchesFromIff(s, sub, i, k + 1);
    }
  }

  lemma MatchesFromZeroIff(s: string, sub: string, i: nat)
    requires i <= |s|
    ensures MatchesFrom(s, sub, i, 0) <==> OccursAt(s, sub, i)
  {
    MatchesFromIff(s, sub, i, 0);
    if OccursAt(s, sub, i) {
      forall j | 0 <= j < |sub|
        ensures s[i + j] == sub[j]
      {
        assert s[i..i + |sub|][j] == s[i + j];
      }
    }
  }

  lemma {:induction false} OccursFromIff(s: string, sub: string, i: nat)
    requires i <= |s|
    ensures OccursFrom(s, sub, i) <==> exists j :: i <= j && OccursAt(s, sub, j)
    decreases |s| - i
  {
    MatchesFromZeroIff(s, sub, i);
    if i < |s| {
      OccursFromIff(s, sub, i + 1);
      if exists j :: i <= j && OccursAt(s, sub, j) {
        var j :| i <= j && OccursAt(s, sub, j);
        if j > i {
          assert i + 1 <= j;
        }
      }
    }
  }

  /** The search agrees with "there is a position where `sub` occurs". */
  lemma ContainsIffOccurs(s: string, sub: string)
    ensures Contains(s, sub) <==> exists i :: OccursAt(s, sub, i)
  {
    OccursFromIff(s, sub, 0);
  }

  /** An occurrence at a known position makes `sub in s` true. */
  lemma ContainsAt(s: string, sub: string, i: int)
    requires OccursAt(s, sub, i)
    ensures Contains(s, sub)
  {
    ContainsIffOccurs(s, sub);
  }

  /** A string holding a character that `s` lacks does not occur in `s`. */
  lemma MissingCharacter(s: string, sub: string, j: int)
    requires 0 <= j < |sub| && sub[j] !in s
    ensures !Contains(s, sub)
  {
    ContainsIffOccurs(s, sub);
  }

  // ---------------------------------------------------------------------------
  // Decimal formatting of integers
  // ---------------------------------------------------------------------------

  predicate IsDigit(c: char) {
    '0' <= c <= '9'
  }

  predicate AllDigits(s: string) {
    forall i :: 0 <= i < |s| ==> IsDigit(s[i])
  }

  function DigitChar(d: nat): (c: char)
    requires d < 10
    ensures IsDigit(c)
  {
    ('0' as int + d) as char
  }

  function DigitValue(c: char): (d: nat)
    requires IsDigit(c)
    ensures d < 10
  {
    c as int - '0' as int
  }

  /** The decimal digits of `n`, most significant first, without leading zeros. */
  function NatToString(n: nat): (r: string)
    ensures |r| > 0 && AllDigits(r)
    ensures r[0] == '0' ==> n == 0 && |r| == 1
    decreases n
  {
    if n < 10 then [DigitChar(n)] else NatToString(n / 10) + [DigitChar(n % 10)]
  }

  /** `str(i)` for a Python integer: an optional minus sign, then the digits. */
  function IntToString(i: int): (r: string)
    ensures |r| > 0
  {
    if i < 0 then "-" + NatToString(-i) else NatToString(i)
  }

  /** The number a string of decimal digits denotes. */
  function DigitsValue(s: string): nat
    requires AllDigits(s)
  {
    if |s| == 0 then 0 else 10 * DigitsValue(s[..|s| - 1]) + DigitValue(s[|s| - 1])
  }

  /** Reads back the form `IntToString` produces: an optional minus sign
      followed by at least one digit. */
  function ParseInt(s: string): Option<int> {
    if |s| > 0 && s[0] == '-' then
      if |s| > 1 && AllDigits(s[1..]) then Some(-(DigitsValue(s[1..]) as int)) else None
    else if |s| > 0 && AllDigits(s) then Some(DigitsValue(s) as int)
    else None
  }

  lemma {:induction false} DigitsValueOfNatToString(n: nat)
    ensures DigitsValue(NatToString(n)) == n
    decreases n
  {
    if n >= 10 {
      var prefix := NatToString(n / 10);
      var s := prefix + [DigitChar(n % 10)];
      assert s[..|s| - 1] == prefix;
      DigitsValueOfNatToString(n / 10);
    }
  }

  lemma ParseNegativeToString(i: int)
    requires i < 0
    ensures ParseInt(IntToString(i)) == Some(i)
  {
    var digits := NatToString(-i);
    var s := "-" + digits;
    assert IntToString(i) == s;
    assert s[1..] == digits;
    assert |s| > 1 && s[0] == '-' && AllDigits(s[1..]);
    DigitsValueOfNatToString(-i);
  }

  lemma ParseNonNegativeToString(i: int)
    requires i >= 0
    ensures ParseInt(IntToString(i)) == Some(i)
  {
    var s := NatToString(i);
    assert IntToString(i) == s;
    assert IsDigit(s[0]) && s[0] != '-';
    DigitsValueOfNatToString(i);
  }

  /** Formatting an integer and reading it back gives the integer. */
  lemma ParseIntToString(i: int)
    ensures ParseInt(IntToString(i)) == Some(i)
  {
    if i < 0 {
      ParseNegativeToString(i);
    } else {
      ParseNonNegativeToString(i);
    }
  }

  /** Formatting is injective: different integers print differently. */
  lemma IntToStringInjective(i: int, j: int)
    requires IntToString(i) == IntToString(j)
    ensures i == j
  {
    ParseIntToString(i);
    ParseIntToString(j);
  }
}

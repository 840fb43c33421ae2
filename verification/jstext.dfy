/**
 * The JavaScript string primitives the page relies on: `String.prototype.trim`,
 * `toLowerCase`, `includes`, the case-insensitive comparison of a regular
 * expression with the `i` flag, and `String(n)` for integers.
 *
 * Case mapping is ASCII only; `trim` removes exactly the ECMAScript WhiteSpace
 * and LineTerminator code points.
 */
module JsText {

  datatype Option<T> = None | Some(value: T)

  // ---------------------------------------------------------------------------
  // trim
  // ---------------------------------------------------------------------------

  /** The code points `trim` strips: ECMAScript WhiteSpace and LineTerminator. */
  predicate IsJsWhitespace(c: char) {
    c == ' ' || c == '\t' || c == '\n' || c == '\U{B}' || c == '\U{C}' || c == '\r'
    || c == '\U{A0}' || c == '\U{1680}' || ('\U{2000}' <= c <= '\U{200A}')
    || c == '\U{2028}' || c == '\U{2029}' || c == '\U{202F}' || c == '\U{205F}'
    || c == '\U{3000}' || c == '\U{FEFF}'
  }

  /** Drops leading whitespace. */
  function TrimStart(s: string): string {
    if s != [] && IsJsWhitespace(s[0]) then TrimStart(s[1..]) else s
  }

  /** Drops trailing whitespace. */
  function TrimEnd(s: string): string {
    if s != [] && IsJsWhitespace(s[|s| - 1]) then TrimEnd(s[..|s| - 1]) else s
  }

  /** What `TrimStart` leaves is a suffix that starts with a character other than whitespace, and all it drops is whitespace. */
  lemma {:induction false} TrimStartSpec(s: string)
    ensures var r := TrimStart(s);
      && |r| <= |s|
      && (forall i :: 0 <= i < |r| ==> r[i] == s[|s| - |r| + i])
      && (forall i :: 0 <= i < |s| - |r| ==> IsJsWhitespace(s[i]))
      && (r == [] || !IsJsWhitespace(r[0]))
  {
    if s != [] && IsJsWhitespace(s[0]) {
      TrimStartSpec(s[1..]);
      var r := TrimStart(s[1..]);
      forall i | 0 <= i < |r|
        ensures r[i] == s[|s| - |r| + i]
      {
        assert r[i] == s[1..][|s| - 1 - |r| + i];
      }
      forall i | 0 <= i < |s| - |r|
        ensures IsJsWhitespace(s[i])
      {
        if i > 0 {
          assert s[i] == s[1..][i - 1];
        }
      }
    }
  }

  /** What `TrimEnd` leaves is a prefix that ends with a character other than whitespace, and all it drops is whitespace. */
  lemma {:induction false} TrimEndSpec(s: string)
    ensures var r := TrimEnd(s);
      && |r| <= |s|
      && (forall i :: 0 <= i < |r| ==> r[i] == s[i])
      && (forall i :: |r| <= i < |s| ==> IsJsWhitespace(s[i]))
      && (r == [] || !IsJsWhitespace(r[|r| - 1]))
  {
    if s != [] && IsJsWhitespace(s[|s| - 1]) {
      TrimEndSpec(s[..|s| - 1]);
      var r := TrimEnd(s[..|s| - 1]);
      forall i | 0 <= i < |r|
        ensures r[i] == s[i]
      {
        assert r[i] == s[..|s| - 1][i];
      }
      forall i | |r| <= i < |s|
        ensures IsJsWhitespace(s[i])
      {
        if i < |s| - 1 {
          assert s[i] == s[..|s| - 1][i];
        }
      }
    }
  }

  function Trim(s: string): string {
    TrimEnd(TrimStart(s))
  }

  /** `!s.trim()`: the string is empty once trimmed. */
  predicate IsBlank(s: string) {
    Trim(s) == []
  }

  /** A string is blank exactly when every one of its characters is whitespace. */
  lemma BlankIffAllWhitespace(s: string)
    ensures IsBlank(s) <==> forall i :: 0 <= i < |s| ==> IsJsWhitespace(s[i])
  {
    var t := TrimStart(s);
    TrimStartSpec(s);
    TrimEndSpec(t);
    if !forall i :: 0 <= i < |s| ==> IsJsWhitespace(s[i]) {
      var i :| 0 <= i < |s| && !IsJsWhitespace(s[i]);
      assert |t| > 0 && !IsJsWhitespace(t[0]);
      assert TrimEnd(t) != [];
    }
  }

  /** A string with a character that is not whitespace is not blank. */
  lemma NotBlankWitness(s: string, i: nat)
    requires i < |s| && !IsJsWhitespace(s[i])
    ensures !IsBlank(s)
  {
    BlankIffAllWhitespace(s);
  }

  // ---------------------------------------------------------------------------
  // toLowerCase and case-insensitive comparison
  // ---------------------------------------------------------------------------

  function LowerChar(c: char): char {
    if 'A' <= c <= 'Z' then (c as int - 'A' as int + 'a' as int) as char else c
  }

  /** `s.toLowerCase()`, character by character. */
  function Lower(s: string): (r: string)
    ensures |r| == |s|
    ensures forall i :: 0 <= i < |s| ==> r[i] == LowerChar(s[i])
  {
    seq(|s|, i requires 0 <= i < |s| => LowerChar(s[i]))
  }

  /** Lower-casing commutes with taking a slice. */
  lemma LowerSlice(s: string, i: nat, j: nat)
    requires i <= j <= |s|
    ensures Lower(s)[i..j] == Lower(s[i..j])
  {
    var a, b := Lower(s)[i..j], Lower(s[i..j]);
    assert |a| == j - i == |b|;
    forall k | 0 <= k < j - i
      ensures a[k] == b[k]
    {
      calc {
        a[k];
        Lower(s)[i + k];
        LowerChar(s[i + k]);
        { assert s[i..j][k] == s[i + k]; }
        LowerChar(s[i..j][k]);
        b[k];
      }
    }
  }

  /** `s.includes(sub)`: `sub` occurs in `s` at some index. */
  predicate OccursAt(s: string, sub: string, i: nat) {
    i + |sub| <= |s| && s[i..i + |sub|] == sub
  }

  predicate Includes(s: string, sub: string) {
    exists i: nat :: i <= |s| && OccursAt(s, sub, i)
  }

  /**
   * The query matches `s` at index `i` when compared without regard to case,
   * as a regular expression with the `i` flag compares a literal.
   */
  predicate MatchesAt(s: string, q: string, i: nat) {
    i + |q| <= |s| && forall k :: 0 <= k < |q| ==> LowerChar(s[i + k]) == LowerChar(q[k])
  }

  /** Equal when compared without regard to case. */
  predicate SameUpToCase(a: string, b: string) {
    |a| == |b| && forall k :: 0 <= k < |a| ==> LowerChar(a[k]) == LowerChar(b[k])
  }

  lemma SameUpToCaseIff(a: string, b: string)
    ensures SameUpToCase(a, b) <==> Lower(a) == Lower(b)
  {
  }

  /** Lower-casing both sides and using `includes` finds the case-insensitive matches. */
  lemma IncludesLowerIffMatch(s: string, q: string)
    ensures Includes(Lower(s), Lower(q)) <==> exists i: nat :: MatchesAt(s, q, i)
  {
    if Includes(Lower(s), Lower(q)) {
      var i: nat :| i <= |Lower(s)| && OccursAt(Lower(s), Lower(q), i);
      OccursIffMatch(s, q, i);
    }
    if exists i: nat :: MatchesAt(s, q, i) {
      var i: nat :| MatchesAt(s, q, i);
      OccursIffMatch(s, q, i);
      assert i <= |Lower(s)| && OccursAt(Lower(s), Lower(q), i);
    }
  }

  lemma OccursIffMatch(s: string, q: string, i: nat)
    ensures OccursAt(Lower(s), Lower(q), i) <==> MatchesAt(s, q, i)
  {
    if i + |q| <= |s| {
      LowerSlice(s, i, i + |q|);
    }
  }

  /** A match inside a prefix is a match in the whole string. */
  lemma MatchesAtPrefix(s: string, t: string, q: string, i: nat)
    requires MatchesAt(s, q, i)
    ensures MatchesAt(s + t, q, i)
  {
    assert (s + t)[i..i + |q|] == s[i..i + |q|];
  }

  /** A match in a suffix is a match in the whole string, shifted. */
  lemma MatchesAtSuffix(s: string, t: string, q: string, i: nat)
    ensures MatchesAt(s + t, q, |s| + i) <==> MatchesAt(t, q, i)
  {
    if |s| + i + |q| <= |s + t| {
      assert (s + t)[|s| + i..|s| + i + |q|] == t[i..i + |q|];
    }
  }

  // ---------------------------------------------------------------------------
  // String(n) for integers
  // ---------------------------------------------------------------------------

  predicate IsDigit(c: char) {
    '0' <= c <= '9'
  }

  function DigitChar(d: nat): (c: char)
    requires d < 10
    ensures IsDigit(c)
  {
    ('0' as int + d) as char
  }

  /** Decimal digits of `n`, most significant first, without leading zeros. */
  function NatToString(n: nat): (r: string)
    ensures |r| >= 1
    ensures forall i :: 0 <= i < |r| ==> IsDigit(r[i])
    ensures r[0] == '0' ==> n == 0 && r == "0"
  {
    if n < 10 then [DigitChar(n)] else NatToString(n / 10) + [DigitChar(n % 10)]
  }

  function DigitValue(c: char): nat
    requires IsDigit(c)
  {
    c as int - '0' as int
  }

  /** The value of a string of decimal digits. */
  function ParseNat(s: string): nat
    requires forall i :: 0 <= i < |s| ==> IsDigit(s[i])
  {
    if s == [] then 0 else ParseNat(s[..|s| - 1]) * 10 + DigitValue(s[|s| - 1])
  }

  /** The decimal digits read back as the number they were written from. */
  lemma {:induction false} ParseNatToString(n: nat)
    ensures ParseNat(NatToString(n)) == n
  {
    var r := NatToString(n);
    if n >= 10 {
      ParseNatToString(n / 10);
      assert r[..|r| - 1] == NatToString(n / 10);
    }
  }

  /** `String(n)` for an integer value: an optional minus sign, then the digits of its magnitude. */
  function IntToString(n: int): (r: string)
    ensures |r| >= 1
    ensures n < 0 <==> r[0] == '-'
    ensures forall i :: 0 <= i < |r| ==> !IsJsWhitespace(r[i])
    ensures var digits := if n < 0 then r[1..] else r;
      && (forall i :: 0 <= i < |digits| ==> IsDigit(digits[i]))
      && ParseNat(digits) == (if n < 0 then -n else n)
      && digits != [] && (digits[0] == '0' ==> digits == "0")
  {
    var d := NatToString(if n < 0 then -n else n);
    ParseNatToString(if n < 0 then -n else n);
    if n < 0 then SignedDigits(d) else d
  }

  /** A minus sign in front of `d`: what follows the sign is `d` again. */
  function SignedDigits(d: string): (r: string)
    ensures |r| == |d| + 1 && r[0] == '-' && r[1..] == d
  {
    "-" + d
  }
}

/**
 * The JavaScript string operations the helpers rely on, restricted to what
 * the application feeds them: ASCII lower-casing of hex addresses,
 * `String.prototype.substring` with its index clamping, and the decimal
 * rendering of an integral Number inside a template literal.
 */
module Text {
  import opened Wrappers

  /** An ASCII upper-case letter. */
  predicate IsUpper(c: char) {
    'A' <= c <= 'Z'
  }

  /** No character of `s` is an ASCII upper-case letter. */
  predicate IsLowerCase(s: string) {
    forall i :: 0 <= i < |s| ==> !IsUpper(s[i])
  }

  /** `x` and `y` are the same character up to ASCII case. */
  predicate SameLetter(x: char, y: char) {
    || x == y
    || (IsUpper(x) && y as int == x as int + 32)
    || (IsUpper(y) && x as int == y as int + 32)
  }

  /** Equality of strings up to ASCII case, position by position. */
  predicate EqualIgnoringCase(a: string, b: string) {
    |a| == |b| && forall i :: 0 <= i < |a| ==> SameLetter(a[i], b[i])
  }

  function LowerChar(c: char): char {
    if IsUpper(c) then (c as int + 32) as char else c
  }

  /** `toLowerCase` on an ASCII string. */
  function Lower(s: string): (r: string)
    ensures IsLowerCase(r)
    ensures EqualIgnoringCase(r, s)
  {
    seq(|s|, i requires 0 <= i < |s| => LowerChar(s[i]))
  }

  /** Two strings lower-case to the same string exactly when they agree up to case. */
  lemma LowerEqualIff(a: string, b: string)
    ensures Lower(a) == Lower(b) <==> EqualIgnoringCase(a, b)
  {
    if Lower(a) == Lower(b) {
      forall i | 0 <= i < |a|
        ensures SameLetter(a[i], b[i])
      {
        assert LowerChar(a[i]) == Lower(a)[i] == Lower(b)[i] == LowerChar(b[i]);
      }
    }
    if EqualIgnoringCase(a, b) {
      forall i | 0 <= i < |a|
        ensures Lower(a)[i] == Lower(b)[i]
      {
        assert SameLetter(a[i], b[i]);
      }
    }
  }

  /** Lower-casing leaves a string alone exactly when it has no upper-case letter. */
  lemma LowerFixedIff(s: string)
    ensures Lower(s) == s <==> IsLowerCase(s)
  {
    if IsLowerCase(s) {
      forall i | 0 <= i < |s|
        ensures Lower(s)[i] == s[i]
      {
        assert !IsUpper(s[i]);
      }
    }
  }

  /** Lower-casing is idempotent. */
  lemma LowerIdempotent(s: string)
    ensures Lower(Lower(s)) == Lower(s)
  {
    LowerFixedIff(Lower(s));
  }

  /** Element-wise lower-casing of a list of addresses (`voters.map(v => v.toLowerCase())`). */
  function LowerAll(vs: seq<string>): (r: seq<string>)
    ensures |r| == |vs|
    ensures forall i :: 0 <= i < |vs| ==> IsLowerCase(r[i]) && EqualIgnoringCase(r[i], vs[i])
  {
    seq(|vs|, i requires 0 <= i < |vs| => Lower(vs[i]))
  }

  /** Every entry of `vs` is free of upper-case letters. */
  predicate AllLowerCase(vs: seq<string>) {
    forall i :: 0 <= i < |vs| ==> IsLowerCase(vs[i])
  }

  /** Lower-casing a list of addresses leaves it alone exactly when it is already lower-case. */
  lemma LowerAllFixedIff(vs: seq<string>)
    ensures LowerAll(vs) == vs <==> AllLowerCase(vs)
  {
    if AllLowerCase(vs) {
      forall i | 0 <= i < |vs|
        ensures LowerAll(vs)[i] == vs[i]
      {
        LowerFixedIff(vs[i]);
      }
    }
    if LowerAll(vs) == vs {
      forall i | 0 <= i < |vs|
        ensures IsLowerCase(vs[i])
      {
        assert LowerAll(vs)[i] == vs[i];
      }
    }
  }

  /** An index argument of `substring` moved into `[0, len]`. */
  function Clamp(n: int, len: nat): nat {
    if n < 0 then 0 else if n > len then len else n
  }

  /**
   * `s.substring(a, b)`: both indices are clamped into `[0, |s|]` and, when
   * the first ends up after the second, they are swapped.
   */
  function Substring(s: string, a: int, b: int): string {
    var lo := Clamp(a, |s|);
    var hi := Clamp(b, |s|);
    s[Min(lo, hi)..Max(lo, hi)]
  }

  /**
   * The order of the two indices of `substring` does not matter. In the two
   * calls of `truncate` the clamped start never lies after the clamped end,
   * so there the swap never takes effect.
   */
  lemma SubstringSymmetric(s: string, a: int, b: int)
    ensures Substring(s, a, b) == Substring(s, b, a)
  {
  }

  /** `s.substring(0, n)` is the prefix of `s` of length `n`, kept inside `[0, |s|]`. */
  lemma SubstringHead(s: string, n: int)
    ensures Substring(s, 0, n) == s[..Clamp(n, |s|)]
    ensures |Substring(s, 0, n)| == Max(0, Min(n, |s|))
  {
  }

  /** `s.substring(s.length - n, s.length)` is the suffix of `s` of length `n`, kept inside `[0, |s|]`. */
  lemma SubstringTail(s: string, n: int)
    ensures Substring(s, |s| - n, |s|) == s[|s| - Clamp(n, |s|)..]
    ensures |Substring(s, |s| - n, |s|)| == Max(0, Min(n, |s|))
  {
  }

  predicate IsDigit(c: char) {
    '0' <= c <= '9'
  }

  function DigitChar(d: int): (c: char)
    requires 0 <= d < 10
  {
    ('0' as int + d) as char
  }

  /** The number a string of decimal digits denotes. */
  function DigitsValue(s: string): int
    requires forall i :: 0 <= i < |s| ==> IsDigit(s[i])
  {
    if |s| == 0 then 0
    else DigitsValue(s[..|s| - 1]) * 10 + (s[|s| - 1] as int - '0' as int)
  }

  /** The decimal digits of a natural number, as `String(n)` renders them. */
  function NatToString(n: nat): (r: string)
    ensures |r| >= 1
    ensures forall i :: 0 <= i < |r| ==> IsDigit(r[i])
    ensures |r| > 1 ==> r[0] != '0'
    ensures DigitsValue(r) == n
    decreases n
  {
    if n < 10 then [DigitChar(n)]
    else
      var prefix := NatToString(n / 10);
      var r := prefix + [DigitChar(n % 10)];
      assert r[..|r| - 1] == prefix;
      r
  }

  /**
   * `String(n)` for an integral Number `n` with `|n| < 10^21`, which covers
   * every day and year `formatDate` prints: a minus sign, then the digits of
   * `|n|`. Larger magnitudes print with an exponent in JavaScript.
   */
  function IntToString(n: int): string {
    if n < 0 then "-" + NatToString(-n) else NatToString(n)
  }

  /** Reads back a string of the shape `IntToString` produces. */
  function ParseInt(s: string): Option<int> {
    if |s| > 0 && s[0] == '-' && (forall i :: 1 <= i < |s| ==> IsDigit(s[i])) then
      Some(-DigitsValue(s[1..]))
    else if forall i :: 0 <= i < |s| ==> IsDigit(s[i]) then
      Some(DigitsValue(s))
    else None
  }

  /** Rendering an integer and reading it back gives the same integer. */
  lemma IntToStringRoundTrip(n: int)
    ensures ParseInt(IntToString(n)) == Some(n)
  {
    if n < 0 {
      var digits := NatToString(-n);
      assert IntToString(n)[1..] == digits;
    }
  }

  /** Distinct integers render as distinct strings. */
  lemma IntToStringInjective(a: int, b: int)
    requires IntToString(a) == IntToString(b)
    ensures a == b
  {
    IntToStringRoundTrip(a);
    IntToStringRoundTrip(b);
  }
}

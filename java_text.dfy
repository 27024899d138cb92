/**
 * The pieces of java.lang the core relies on, over ASCII text:
 * String.toLowerCase and String.equalsIgnoreCase, Long.parseLong and
 * Integer.parseInt in radix 10, and long division, which truncates toward zero.
 */
module JavaText {
  import opened Wrappers

  const LONG_MIN: int := -0x8000_0000_0000_0000
  const LONG_MAX: int := 0x7FFF_FFFF_FFFF_FFFF
  const INT_MIN: int := -0x8000_0000
  const INT_MAX: int := 0x7FFF_FFFF

  // ---------------------------------------------------------------------
  // Case mapping

  function LowerChar(c: char): char {
    if 'A' <= c <= 'Z' then (c as int + 32) as char else c
  }

  function UpperChar(c: char): char {
    if 'a' <= c <= 'z' then (c as int - 32) as char else c
  }

  /**
   * String.toLowerCase on ASCII text: no capital letter is left, every
   * character still matches its original ignoring case, and a character
   * that was not a capital is kept as it was.
   */
  function Lower(s: string): (r: string)
    ensures |r| == |s|
    ensures forall i :: 0 <= i < |r| ==> !('A' <= r[i] <= 'Z')
    ensures forall i :: 0 <= i < |s| ==> CharsMatchIgnoringCase(r[i], s[i])
    ensures forall i :: 0 <= i < |s| && !('A' <= s[i] <= 'Z') ==> r[i] == s[i]
  {
    seq(|s|, i requires 0 <= i < |s| => LowerChar(s[i]))
  }

  /** The per-character test of String.regionMatches with ignoreCase set. */
  predicate CharsMatchIgnoringCase(a: char, b: char) {
    a == b || UpperChar(a) == UpperChar(b) || LowerChar(UpperChar(a)) == LowerChar(UpperChar(b))
  }

  /** String.equalsIgnoreCase: equal lengths, and every position matches up to case. */
  predicate EqualsIgnoreCase(a: string, b: string) {
    |a| == |b| && (a == [] || (CharsMatchIgnoringCase(a[0], b[0]) && EqualsIgnoreCase(a[1..], b[1..])))
  }

  lemma CharsMatchIffSameLower(a: char, b: char)
    ensures CharsMatchIgnoringCase(a, b) <==> LowerChar(a) == LowerChar(b)
  {
  }

  /** equalsIgnoreCase agrees with comparing the lower-cased forms. */
  lemma {:induction false} EqualsIgnoreCaseIffSameLower(a: string, b: string)
    ensures EqualsIgnoreCase(a, b) <==> Lower(a) == Lower(b)
  {
    if |a| == |b| && a != [] {
      EqualsIgnoreCaseIffSameLower(a[1..], b[1..]);
      CharsMatchIffSameLower(a[0], b[0]);
      assert Lower(a) == [LowerChar(a[0])] + Lower(a[1..]);
      assert Lower(b) == [LowerChar(b[0])] + Lower(b[1..]);
    }
  }

  /** Lower-casing twice changes nothing more. */
  lemma LowerIdempotent(s: string)
    ensures Lower(Lower(s)) == Lower(s)
  {
  }

  // ---------------------------------------------------------------------
  // Decimal parsing

  predicate IsDigit(c: char) {
    '0' <= c <= '9'
  }

  predicate AllDigits(s: string) {
    forall i :: 0 <= i < |s| ==> IsDigit(s[i])
  }

  /** The number a run of decimal digits denotes, most significant first. */
  function DigitsValue(s: string): nat
    requires AllDigits(s)
  {
    if s == [] then 0 else DigitsValue(s[..|s| - 1]) * 10 + (s[|s| - 1] as int - '0' as int)
  }

  /**
   * Long.parseLong (lo, hi = LONG_MIN, LONG_MAX) and Integer.parseInt
   * (INT_MIN, INT_MAX) in radix 10: an optional sign, then one or more
   * digits, and a value inside the type's range; anything else throws
   * NumberFormatException, which is None here.
   */
  function ParseDecimal(s: string, lo: int, hi: int): (r: Option<int>)
    ensures r.Some? ==> lo <= r.value <= hi
  {
    var start := if |s| > 0 && (s[0] == '-' || s[0] == '+') then 1 else 0;
    var digits := s[start..];
    if digits == [] || !AllDigits(digits) then None
    else
      var v: int := if start == 1 && s[0] == '-' then 0 - DigitsValue(digits) as int else DigitsValue(digits);
      if lo <= v <= hi then Some(v) else None
  }

  /** Long.parseLong on a value that may be null (null throws too). */
  function ParseLong(s: Option<string>): Option<int> {
    match s
    case None => None
    case Some(t) => ParseDecimal(t, LONG_MIN, LONG_MAX)
  }

  /** Integer.parseInt on a value that may be null (null throws too). */
  function ParseInt(s: Option<string>): Option<int> {
    match s
    case None => None
    case Some(t) => ParseDecimal(t, INT_MIN, INT_MAX)
  }

  /** The decimal digits of a natural number, without leading zeros. */
  function NatToDigits(n: nat): (s: string)
    ensures s != [] && AllDigits(s)
  {
    var d := [(('0' as int) + n % 10) as char];
    if n < 10 then d else NatToDigits(n / 10) + d
  }

  /** Long.toString: a '-' for negative numbers, then the digits. */
  function DecimalString(n: int): string {
    if n < 0 then "-" + NatToDigits(-n) else NatToDigits(n)
  }

  lemma {:induction false} DigitsValueOfNatToDigits(n: nat)
    ensures DigitsValue(NatToDigits(n)) == n
  {
    var s := NatToDigits(n);
    if n >= 10 {
      DigitsValueOfNatToDigits(n / 10);
      assert s[..|s| - 1] == NatToDigits(n / 10);
    }
  }

  /** Parsing the decimal text of any number in range gives that number back. */
  lemma ParseDecimalString(n: int, lo: int, hi: int)
    requires lo <= n <= hi
    ensures ParseDecimal(DecimalString(n), lo, hi) == Some(n)
  {
    var m: nat := if n < 0 then -n else n;
    var digits := NatToDigits(m);
    DigitsValueOfNatToDigits(m);
    var s := DecimalString(n);
    if n < 0 {
      assert s == "-" + digits && s[0] == '-';
      assert s[1..] == digits;
      assert DigitsValue(digits) == -n;
    } else {
      assert s == digits && s[0] != '-' && s[0] != '+';
      assert s[0..] == digits;
    }
  }

  // ---------------------------------------------------------------------
  // Division

  /**
   * Java's long division by 1000 (milliseconds to whole seconds), which
   * truncates toward zero where Dafny's '/' rounds down.
   */
  function MillisToSecs(ms: int): (secs: int)
    ensures ms >= 0 ==> 0 <= 1000 * secs <= ms < 1000 * secs + 1000
    ensures ms < 0 ==> 1000 * secs - 1000 < ms <= 1000 * secs <= 0
  {
    if ms >= 0 then ms / 1000 else -((-ms) / 1000)
  }

  /** Truncating division by 1000 never turns a larger time into fewer seconds. */
  lemma MillisToSecsMonotone(a: int, b: int)
    requires a <= b
    ensures MillisToSecs(a) <= MillisToSecs(b)
  {
  }

  /** The (long) cast of a product: truncation toward zero. */
  function TruncateToLong(x: real): (n: int)
    ensures x >= 0.0 ==> n as real <= x < n as real + 1.0
    ensures x < 0.0 ==> n as real - 1.0 < x <= n as real
  {
    if x >= 0.0 then x.Floor else -((-x).Floor)
  }
}

/**
 * The C++ integer types the core uses, the implicit conversions between
 * them, and decimal text (std::to_string / std::stoi).
 */
module Numeric {
  import opened Outcomes

  const TWO_31: int := 0x8000_0000
  const TWO_32: int := 0x1_0000_0000

  /** C++ `unsigned int`: the key type of an Enum's label table. */
  type UInt32 = n: int | 0 <= n < 0x1_0000_0000

  /** C++ `int`. */
  type Int32 = n: int | -0x8000_0000 <= n < 0x8000_0000

  /** C++ `size_t`: type hashes and registry keys. */
  type SizeT = n: int | 0 <= n < 0x1_0000_0000_0000_0000

  /** `(size_t)-1`, the value HashFromApiName returns for an unknown name. */
  const SIZE_MAX: SizeT := 0xFFFF_FFFF_FFFF_FFFF

  /** The implicit conversion `int` -> `unsigned int` (reduction modulo 2^32). */
  function ToUInt32(i: Int32): (u: UInt32)
    ensures 0 <= i ==> u == i
    ensures i < 0 ==> u == i + TWO_32
  {
    i % 0x1_0000_0000
  }

  /** The implicit conversion `unsigned int` -> `int` (two's complement). */
  function ToInt32(u: UInt32): (i: Int32)
    ensures ToUInt32(i) == u
    ensures u < TWO_31 ==> i == u
  {
    if u < 0x8000_0000 then u else u - 0x1_0000_0000
  }

  /** `int` -> `unsigned int` -> `int` is the identity. */
  lemma ToInt32OfToUInt32(i: Int32)
    ensures ToInt32(ToUInt32(i)) == i
  {
  }

  predicate IsDigit(c: char) {
    '0' <= c <= '9'
  }

  predicate AllDigits(s: string) {
    forall i :: 0 <= i < |s| ==> IsDigit(s[i])
  }

  function DigitChar(d: int): (c: char)
    requires 0 <= d < 10
    ensures IsDigit(c) && c as int - '0' as int == d
  {
    (d + '0' as int) as char
  }

  /** The value of a string of decimal digits, most significant first. */
  function DigitsValue(s: string): nat
    requires AllDigits(s)
  {
    if s == [] then 0 else DigitsValue(s[..|s| - 1]) * 10 + (s[|s| - 1] as int - '0' as int)
  }

  /** std::to_string on a non-negative integer: its decimal text without leading zeros. */
  function NatToString(n: nat): (s: string)
    ensures |s| > 0 && AllDigits(s)
  {
    (if n < 10 then "" else NatToString(n / 10)) + [DigitChar(n % 10)]
  }

  /** std::to_string on an int: a minus sign for negatives, then the digits of the magnitude. */
  function IntToString(i: int): string {
    if i < 0 then "-" + NatToString(-(i as int)) else NatToString(i)
  }

  /**
   * std::stoi, restricted to whole strings: an optional sign followed by at
   * least one digit, whose value fits in an int; None where stoi throws.
   */
  function ParseInt(s: string): (r: Option<Int32>)
    ensures r.Some? ==> |s| > 0
    ensures 0 < |s| && AllDigits(s) && DigitsValue(s) < TWO_31 ==> r == Some(DigitsValue(s))
  {
    var negative := |s| > 0 && s[0] == '-';
    var digits := if |s| > 0 && (s[0] == '-' || s[0] == '+') then s[1..] else s;
    if |digits| == 0 || !AllDigits(digits) then None
    else
      var magnitude: int := DigitsValue(digits);
      var v := if negative then -magnitude else magnitude;
      if -TWO_31 <= v < TWO_31 then Some(v) else None
  }

  /** Reading back the decimal text of a number gives the number. */
  lemma {:induction false} DigitsValueOfNatToString(n: nat)
    ensures DigitsValue(NatToString(n)) == n
  {
    var s := NatToString(n);
    var prefix := if n < 10 then "" else NatToString(n / 10);
    assert s == prefix + [DigitChar(n % 10)];
    assert s[..|s| - 1] == prefix;
    if n >= 10 {
      DigitsValueOfNatToString(n / 10);
    }
  }

  /** The decimal text of distinct numbers differs. */
  lemma NatToStringInjective(m: nat, n: nat)
    requires NatToString(m) == NatToString(n)
    ensures m == n
  {
    DigitsValueOfNatToString(m);
    DigitsValueOfNatToString(n);
  }

  /** Int -> String -> Int: parsing the decimal text of an int gives the int back. */
  lemma IntToStringRoundTrip(i: Int32)
    ensures ParseInt(IntToString(i)) == Some(i)
  {
    if i < 0 {
      NegativeRoundTrip(i);
    } else {
      DigitsValueOfNatToString(i);
    }
  }

  /** The negative half of IntToStringRoundTrip: a minus sign, then the magnitude's digits. */
  lemma NegativeRoundTrip(i: Int32)
    requires i < 0
    ensures ParseInt(IntToString(i)) == Some(i)
  {
    var m: nat := -(i as int);
    var t := NatToString(m);
    var s := IntToString(i);
    DigitsValueOfNatToString(m);
    assert s == "-" + t;
    assert s[0] == '-' && s[1..] == t;
    assert AllDigits(t) && |t| > 0 && DigitsValue(t) == m;
  }
}

/**
 * Decimal text of integers: Python's `str(int)`, `str.zfill` and a plain
 * ASCII reading of signed decimal numerals.
 */
module Decimal {
  import opened Chars
  import opened Wrappers

  function DigitValue(c: char): (d: nat)
    requires IsDigit(c)
    ensures d < 10
  {
    (c as int) - ('0' as int)
  }

  function DigitChar(d: nat): (c: char)
    requires d < 10
    ensures IsDigit(c) && DigitValue(c) == d
  {
    ((('0' as int) + d) as char)
  }

  /** The number a string of decimal digits denotes; leading zeros are allowed. */
  function Value(s: string): nat
    requires AllDigits(s)
  {
    if s == [] then 0 else Value(s[..|s| - 1]) * 10 + DigitValue(s[|s| - 1])
  }

  function Pow10(k: nat): nat {
    if k == 0 then 1 else 10 * Pow10(k - 1)
  }

  /** Python's `str(n)` for a non-negative integer: shortest decimal numeral. */
  function NatToString(n: nat): (r: string)
    ensures DigitWord(r) && Value(r) == n
    ensures r[0] == '0' ==> n == 0 && |r| == 1
    decreases n
  {
    if n < 10 then [DigitChar(n)]
    else
      var prefix := NatToString(n / 10);
      var r := prefix + [DigitChar(n % 10)];
      assert r[..|r| - 1] == prefix;
      r
  }

  /** Appending a digit to a positive number appends it to its numeral. */
  lemma NatToStringPush(n: nat, d: nat)
    requires n >= 1 && d < 10
    ensures NatToString(10 * n + d) == NatToString(n) + [DigitChar(d)]
  {
    assert (10 * n + d) / 10 == n && (10 * n + d) % 10 == d;
  }

  /** Python's `str(i)`: a leading `-` for a negative number, then its magnitude. */
  function IntToString(i: int): (r: string)
    ensures |r| >= 1
    ensures AllDigits(r) <==> i >= 0
    ensures i >= 0 ==> Value(r) == i
    ensures i < 0 ==> r[0] == '-' && DigitWord(r[1..]) && Value(r[1..]) == -i
    ensures forall k :: 0 <= k < |r| ==> IsDigit(r[k]) || (k == 0 && r[k] == '-')
    ensures '.' !in r
    ensures r[0] == '0' ==> i == 0 && |r| == 1
    ensures i < 0 ==> r[1] != '0'
  {
    if i < 0 then
      var r := "-" + NatToString(-i);
      assert !IsDigit(r[0]);
      assert r[1..] == NatToString(-i);
      r
    else NatToString(i)
  }

  lemma {:induction false} NatToStringLength(n: nat, k: nat)
    requires k >= 1 && n < Pow10(k)
    ensures |NatToString(n)| <= k
    decreases n
  {
    if n >= 10 {
      assert n / 10 < Pow10(k - 1);
      NatToStringLength(n / 10, k - 1);
    }
  }

  function Zeros(k: nat): (z: string)
    ensures |z| == k && AllDigits(z)
    ensures forall i :: 0 <= i < k ==> z[i] == '0'
  {
    seq(k, _ => '0')
  }

  lemma {:induction false} ValueOfZeros(k: nat)
    ensures Value(Zeros(k)) == 0
  {
    if k > 0 {
      assert Zeros(k)[..k - 1] == Zeros(k - 1);
      ValueOfZeros(k - 1);
    }
  }

  /** Leading zeros do not change the value of a numeral. */
  lemma {:induction false} ValueIgnoresLeadingZeros(k: nat, s: string)
    requires AllDigits(s)
    ensures AllDigits(Zeros(k) + s) && Value(Zeros(k) + s) == Value(s)
    decreases |s|
  {
    if s == [] {
      assert Zeros(k) + s == Zeros(k);
      ValueOfZeros(k);
    } else {
      var t := Zeros(k) + s;
      assert t[..|t| - 1] == Zeros(k) + s[..|s| - 1];
      ValueIgnoresLeadingZeros(k, s[..|s| - 1]);
    }
  }

  predicate HasSign(s: string) {
    |s| > 0 && (s[0] == '+' || s[0] == '-')
  }

  /**
   * Python's `s.zfill(width)`: zeros on the left up to `width` characters,
   * put after a leading sign when there is one.
   */
  function ZFill(s: string, width: nat): (r: string)
    ensures |r| == if |s| >= width then |s| else width
    ensures AllDigits(s) ==> AllDigits(r) && Value(r) == Value(s)
  {
    if |s| >= width then s
    else
      var pad := Zeros(width - |s|);
      if HasSign(s) then [s[0]] + pad + s[1..]
      else
        if AllDigits(s) then ValueIgnoresLeadingZeros(width - |s|, s); pad + s else pad + s
  }

  /** Without a sign, `zfill` only adds zeros in front: the original is a suffix. */
  lemma ZFillPadsLeft(s: string, width: nat)
    requires !HasSign(s)
    ensures var r := ZFill(s, width); r[|r| - |s|..] == s && forall i :: 0 <= i < |r| - |s| ==> r[i] == '0'
  {
  }

  /** With a sign, `zfill` keeps the sign in front and pads the magnitude. */
  lemma ZFillKeepsSign(s: string, width: nat)
    requires HasSign(s)
    ensures var r := ZFill(s, width); |r| > 0 && r[0] == s[0] && r[|r| - (|s| - 1)..] == s[1..]
    ensures var r := ZFill(s, width); forall i :: 1 <= i < |r| - (|s| - 1) ==> r[i] == '0'
    ensures var r := ZFill(s, width);
      AllDigits(s[1..]) ==> AllDigits(r[1..]) && Value(r[1..]) == Value(s[1..])
  {
    var r := ZFill(s, width);
    if |s| < width {
      assert r[1..] == Zeros(width - |s|) + s[1..];
      if AllDigits(s[1..]) {
        ValueIgnoresLeadingZeros(width - |s|, s[1..]);
      }
    }
  }

  /**
   * An ASCII signed decimal numeral: an optional `+` or `-` followed by one
   * or more digits, leading zeros allowed.
   */
  predicate IsDecimalNumeral(s: string) {
    DigitWord(s) || (HasSign(s) && DigitWord(s[1..]))
  }

  /** Reads an ASCII signed decimal numeral as the integer it denotes. */
  function ParseDecimal(s: string): (r: Option<int>)
    ensures r.Some? <==> IsDecimalNumeral(s)
    ensures r.Some? && DigitWord(s) ==> r.value == Value(s)
    ensures r.Some? && HasSign(s) ==> r.value == if s[0] == '-' then -(Value(s[1..]) as int) else Value(s[1..])
  {
    if DigitWord(s) then Some(Value(s))
    else if HasSign(s) && DigitWord(s[1..]) then
      Some(if s[0] == '-' then -(Value(s[1..]) as int) else Value(s[1..]))
    else None
  }

  /** Reading back what `str(i)` writes gives `i`. */
  lemma IntToStringParses(i: int)
    ensures ParseDecimal(IntToString(i)) == Some(i)
  {
  }
}

/**
 * Decimal numerals: Python's `str(n)` for integers, the `02d` zero padding of
 * format specifications, and the digit reading that inverts them.
 */
module Decimal {
  import opened Wrappers

  predicate IsDigit(c: char) {
    '0' <= c <= '9'
  }

  predicate AllDigits(s: string) {
    forall i :: 0 <= i < |s| ==> IsDigit(s[i])
  }

  function DigitChar(d: nat): (c: char)
    requires d < 10
    ensures IsDigit(c)
  {
    ('0' as int + d) as char
  }

  function DigitValue(c: char): (d: nat)
    requires IsDigit(c)
    ensures d < 10
  {
    c as int - '0' as int
  }

  /** The number a string of decimal digits denotes, most significant digit first. */
  function FromDigits(s: string): nat
    requires AllDigits(s)
  {
    if s == [] then 0 else FromDigits(s[..|s| - 1]) * 10 + DigitValue(s[|s| - 1])
  }

  /** Python's `str(n)` for a non-negative integer. */
  function NatToString(n: nat): (s: string)
    ensures |s| >= 1 && AllDigits(s)
    ensures |s| > 1 ==> s[0] != '0'
  {
    if n < 10 then [DigitChar(n)] else NatToString(n / 10) + [DigitChar(n % 10)]
  }

  /** Python's `str(i)` for any integer. */
  function IntToString(i: int): string {
    if i < 0 then "-" + NatToString(-i) else NatToString(i)
  }

  /** Reads a canonical optionally-signed decimal numeral; the partner of `IntToString`. */
  function ParseInt(s: string): Option<int> {
    if |s| >= 2 && s[0] == '-' && AllDigits(s[1..]) then Some(-(FromDigits(s[1..]) as int))
    else if |s| >= 1 && AllDigits(s) then Some(FromDigits(s))
    else None
  }

  function Zeros(k: nat): (z: string)
    ensures |z| == k && AllDigits(z)
    ensures forall i :: 0 <= i < k ==> z[i] == '0'
  {
    if k == 0 then [] else ['0'] + Zeros(k - 1)
  }

  /** Left-pads `s` with zeros to at least `width` characters, as the `0<width>d` format does. */
  function PadZeros(s: string, width: nat): (r: string)
    ensures |r| == if |s| >= width then |s| else width
    ensures r == Zeros(|r| - |s|) + s
  {
    if |s| >= width then s else Zeros(width - |s|) + s
  }

  function Pow10(k: nat): nat {
    if k == 0 then 1 else 10 * Pow10(k - 1)
  }

  lemma {:induction false} FromDigitsOfNatToString(n: nat)
    ensures FromDigits(NatToString(n)) == n
  {
    if n >= 10 {
      var s := NatToString(n);
      FromDigitsOfNatToString(n / 10);
      assert s[..|s| - 1] == NatToString(n / 10);
    }
  }

  /** Leading zeros do not change the value. */
  lemma {:induction false} FromDigitsLeadingZeros(k: nat, s: string)
    requires AllDigits(s)
    ensures FromDigits(Zeros(k) + s) == FromDigits(s)
    decreases |s|
  {
    if s == [] {
      ZerosValue(k);
      assert Zeros(k) + s == Zeros(k);
    } else {
      var z := Zeros(k) + s;
      assert z[..|z| - 1] == Zeros(k) + s[..|s| - 1];
      FromDigitsLeadingZeros(k, s[..|s| - 1]);
    }
  }

  lemma {:induction false} ZerosValue(k: nat)
    ensures FromDigits(Zeros(k)) == 0
  {
    if k > 0 {
      var p := Zeros(k)[..k - 1];
      assert forall i :: 0 <= i < k - 1 ==> p[i] == '0';
      assert p == Zeros(k - 1);
      ZerosValue(k - 1);
    }
  }

  /** A zero-padded numeral still reads back as the number it was made from. */
  lemma PaddedRoundTrip(n: nat, width: nat)
    ensures AllDigits(PadZeros(NatToString(n), width))
    ensures FromDigits(PadZeros(NatToString(n), width)) == n
  {
    var s := NatToString(n);
    FromDigitsLeadingZeros(|PadZeros(s, width)| - |s|, s);
    FromDigitsOfNatToString(n);
  }

  /** A number below `10^k` has at most `k` digits. */
  lemma {:induction false} NatToStringLength(n: nat, k: nat)
    requires 1 <= k && n < Pow10(k)
    ensures |NatToString(n)| <= k
  {
    if n >= 10 {
      NatToStringLength(n / 10, k - 1);
    }
  }

  /** `str(i)` parses back to `i`, so distinct integers get distinct strings. */
  lemma IntToStringRoundTrip(i: int)
    ensures ParseInt(IntToString(i)) == Some(i)
  {
    var s := IntToString(i);
    if i < 0 {
      var digits := NatToString(-i);
      assert s == "-" + digits;
      assert s[1..] == digits;
      FromDigitsOfNatToString(-i);
    } else {
      var digits := NatToString(i);
      assert s == digits;
      assert s[0] != '-' by { assert IsDigit(s[0]); }
      FromDigitsOfNatToString(i);
    }
  }
}

/**
 * Decimal rendering of non-negative integers, as Python's `str(n)` and
 * `str.zfill(width)` produce it, and its inverse.
 */
module Decimal {

  predicate IsDigit(c: char) {
    '0' <= c <= '9'
  }

  predicate AllDigits(s: string) {
    forall i :: 0 <= i < |s| ==> IsDigit(s[i])
  }

  function DigitChar(d: nat): (c: char)
    requires d < 10
    ensures IsDigit(c)
  {
    (48 + d) as char
  }

  function DigitValue(c: char): (d: nat)
    requires IsDigit(c)
    ensures d < 10
  {
    (c as int) - 48
  }

  /** `str(n)`: the decimal digits of n, most significant first, without leading zeros. */
  function Str(n: nat): (s: string)
    ensures 1 <= |s|
    ensures AllDigits(s)
    ensures n >= 10 ==> s[0] != '0'
    decreases n
  {
    if n < 10 then [DigitChar(n)] else Str(n / 10) + [DigitChar(n % 10)]
  }

  /** The value of a string of decimal digits (leading zeros allowed). */
  function Parse(s: string): nat
    requires AllDigits(s)
    decreases |s|
  {
    if s == [] then 0 else Parse(s[..|s| - 1]) * 10 + DigitValue(s[|s| - 1])
  }

  function Pow10(k: nat): (p: nat)
    ensures p >= 1
  {
    if k == 0 then 1 else 10 * Pow10(k - 1)
  }

  function Zeros(k: nat): (z: string)
    ensures |z| == k && AllDigits(z)
    ensures forall i :: 0 <= i < k ==> z[i] == '0'
  {
    if k == 0 then [] else ['0'] + Zeros(k - 1)
  }

  /** `s.zfill(width)` for a string without a sign: pads with '0' on the left up to width. */
  function ZFill(s: string, width: nat): (r: string)
  {
    if |s| >= width then s else Zeros(width - |s|) + s
  }

  /** Parsing undoes rendering: `int(str(n)) == n`. */
  lemma {:induction false} ParseStr(n: nat)
    ensures Parse(Str(n)) == n
    decreases n
  {
    if n >= 10 {
      var s := Str(n);
      assert s == Str(n / 10) + [DigitChar(n % 10)];
      assert s[..|s| - 1] == Str(n / 10);
      ParseStr(n / 10);
    }
  }

  /** Leading zeros do not change the value. */
  lemma {:induction false} ParseZeros(k: nat, s: string)
    requires AllDigits(s)
    ensures AllDigits(Zeros(k) + s)
    ensures Parse(Zeros(k) + s) == Parse(s)
    decreases |s|
  {
    var t := Zeros(k) + s;
    assert AllDigits(t) by {
      forall i | 0 <= i < |t| ensures IsDigit(t[i]) {
        if i < k { assert t[i] == Zeros(k)[i]; } else { assert t[i] == s[i - k]; }
      }
    }
    if s == [] {
      assert t == Zeros(k);
      ParseOfZeros(k);
    } else {
      var s' := s[..|s| - 1];
      assert t[..|t| - 1] == Zeros(k) + s';
      ParseZeros(k, s');
    }
  }

  lemma {:induction false} ParseOfZeros(k: nat)
    ensures Parse(Zeros(k)) == 0
  {
    if k > 0 {
      var z := Zeros(k);
      assert z[..k - 1] == Zeros(k - 1) by {
        assert z == Zeros(k - 1) + ['0'] by { ZerosSnoc(k - 1); }
      }
      ParseOfZeros(k - 1);
    }
  }

  lemma {:induction false} ZerosSnoc(k: nat)
    ensures Zeros(k + 1) == Zeros(k) + ['0']
  {
    if k > 0 {
      ZerosSnoc(k - 1);
    }
  }

  /** A number below 10^k needs at most k digits. */
  lemma {:induction false} StrLength(n: nat, k: nat)
    requires 1 <= k && n < Pow10(k)
    ensures |Str(n)| <= k
    decreases n
  {
    if n >= 10 {
      assert Pow10(1) == 10;
      assert n / 10 < Pow10(k - 1);
      StrLength(n / 10, k - 1);
    }
  }

  /** Padding keeps the digits and the value, and reaches the width. */
  lemma ZFillStr(n: nat, width: nat)
    ensures AllDigits(ZFill(Str(n), width))
    ensures |ZFill(Str(n), width)| == if |Str(n)| >= width then |Str(n)| else width
    ensures Parse(ZFill(Str(n), width)) == n
  {
    ParseStr(n);
    if |Str(n)| < width {
      ParseZeros(width - |Str(n)|, Str(n));
    }
  }
}

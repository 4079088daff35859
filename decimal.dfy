/**
  Decimal rendering of non-negative integers, as Python's format
  specifications `{n}` and `{n:0Wd}` produce it: the digits of `n` without
  leading zeros, and the same digits left-padded with '0' to width `W`.
*/
module Decimal {

  predicate IsDigit(c: char) {
    '0' <= c <= '9'
  }

  predicate AllDigits(s: string) {
    forall i :: 0 <= i < |s| ==> IsDigit(s[i])
  }

  function DigitChar(d: nat): (c: char)
    requires d < 10
    ensures IsDigit(c) && c as int - '0' as int == d
  {
    ('0' as int + d) as char
  }

  function DigitValue(c: char): nat
    requires IsDigit(c)
  {
    c as int - '0' as int
  }

  /** The number a string of decimal digits denotes (most significant digit first). */
  function Value(s: string): nat
    requires AllDigits(s)
  {
    if s == [] then 0 else Value(s[..|s| - 1]) * 10 + DigitValue(s[|s| - 1])
  }

  function Pow10(k: nat): (p: nat)
    ensures p >= 1
  {
    if k == 0 then 1 else 10 * Pow10(k - 1)
  }

  /** `str(n)` / `f"{n}"` for a non-negative integer. */
  function Show(n: nat): (s: string)
    ensures |s| >= 1 && AllDigits(s)
    ensures |s| > 1 ==> s[0] != '0'
  {
    if n < 10 then [DigitChar(n)] else Show(n / 10) + [DigitChar(n % 10)]
  }

  function Zeros(k: nat): (s: string)
    ensures |s| == k && forall i :: 0 <= i < k ==> s[i] == '0'
  {
    if k == 0 then [] else Zeros(k - 1) + ['0']
  }

  function Max(a: nat, b: nat): nat {
    if a < b then b else a
  }

  /** `f"{n:0{width}d}"` for a non-negative integer: never truncates, pads on the left with '0'. */
  function Pad(n: nat, width: nat): (s: string)
    ensures AllDigits(s) && Value(s) == n
    ensures |s| == Max(width, |Show(n)|)
    ensures s[|s| - |Show(n)|..] == Show(n)
  {
    var digits := Show(n);
    var fill := if width > |digits| then width - |digits| else 0;
    ShowValue(n);
    LeadingZeros(fill, digits);
    Zeros(fill) + digits
  }

  /** Reading back the digits of `Show(n)` gives `n`. */
  lemma {:induction false} ShowValue(n: nat)
    ensures Value(Show(n)) == n
  {
    if n >= 10 {
      var s := Show(n);
      assert s[..|s| - 1] == Show(n / 10);
      ShowValue(n / 10);
    }
  }

  /** `Show` is one-to-one: distinct numbers get distinct strings. */
  lemma ShowInjective(m: nat, n: nat)
    requires Show(m) == Show(n)
    ensures m == n
  {
    ShowValue(m);
    ShowValue(n);
  }

  /** Leading zeros do not change the value of a digit string. */
  lemma {:induction false} LeadingZeros(k: nat, s: string)
    requires AllDigits(s)
    ensures AllDigits(Zeros(k) + s) && Value(Zeros(k) + s) == Value(s)
  {
    if s == [] {
      assert Zeros(k) + s == Zeros(k);
      ZerosValue(k);
    } else {
      var t := Zeros(k) + s;
      assert t[..|t| - 1] == Zeros(k) + s[..|s| - 1];
      LeadingZeros(k, s[..|s| - 1]);
    }
  }

  lemma {:induction false} ZerosValue(k: nat)
    ensures Value(Zeros(k)) == 0
  {
    if k > 0 {
      assert Zeros(k)[..k - 1] == Zeros(k - 1);
      ZerosValue(k - 1);
    }
  }

  /** `n` has at most `k` digits exactly when `n < 10^k`. */
  lemma {:induction false} ShowLength(n: nat, k: nat)
    requires k >= 1
    ensures |Show(n)| <= k <==> n < Pow10(k)
  {
    if n >= 10 {
      if k == 1 {
        assert Pow10(1) == 10;
      } else {
        ShowLength(n / 10, k - 1);
      }
    } else {
      PowAtLeastTen(k);
    }
  }

  lemma {:induction false} PowAtLeastTen(k: nat)
    requires k >= 1
    ensures Pow10(k) >= 10
  {
    if k > 1 {
      PowAtLeastTen(k - 1);
    }
  }

  /** A padded field has exactly the requested width precisely when the number fits in it. */
  lemma PadWidth(n: nat, width: nat)
    requires width >= 1
    ensures |Pad(n, width)| == width <==> n < Pow10(width)
  {
    ShowLength(n, width);
  }

  /** Below 100, a width-2 field is the tens digit and the units digit. */
  lemma PadTwo(n: nat)
    requires n < 100
    ensures Pad(n, 2) == [DigitChar(n / 10), DigitChar(n % 10)]
  {
    if n >= 10 {
      assert Show(n) == Show(n / 10) + [DigitChar(n % 10)];
    }
    assert Zeros(1) == Zeros(0) + ['0'];
  }

  /** Below 1000, a width-3 field is the hundreds, tens and units digits. */
  lemma PadThree(n: nat)
    requires n < 1000
    ensures Pad(n, 3) == [DigitChar(n / 100), DigitChar(n / 10 % 10), DigitChar(n % 10)]
  {
    if n >= 100 {
      ThreeDigits(n);
    } else {
      ShortInThree(n);
    }
  }

  lemma ThreeDigits(n: nat)
    requires 100 <= n < 1000
    ensures Pad(n, 3) == [DigitChar(n / 100), DigitChar(n / 10 % 10), DigitChar(n % 10)]
  {
    var q := n / 10;
    assert q / 10 == n / 100 && 10 <= q < 100;
    assert Show(q) == [DigitChar(q / 10), DigitChar(q % 10)];
    assert Show(n) == Show(q) + [DigitChar(n % 10)];
  }

  lemma ShortInThree(n: nat)
    requires n < 100
    ensures Pad(n, 3) == [DigitChar(n / 100), DigitChar(n / 10 % 10), DigitChar(n % 10)]
  {
    assert n / 100 == 0 && n / 10 % 10 == n / 10;
    assert Zeros(1) == ['0'];
    if n >= 10 {
      assert Show(n) == [DigitChar(n / 10), DigitChar(n % 10)];
      assert Pad(n, 3) == Zeros(1) + Show(n);
    } else {
      assert Zeros(2) == ['0', '0'];
      assert Pad(n, 3) == Zeros(2) + Show(n);
    }
  }
}

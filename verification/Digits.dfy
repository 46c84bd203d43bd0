/** Strings of decimal digits, the naturals they write and the powers of ten that scale them. */
module Digits {

  predicate IsDigit(c: char) {
    '0' <= c <= '9'
  }

  predicate AllDigits(s: string) {
    forall i :: 0 <= i < |s| ==> IsDigit(s[i])
  }

  function DigitValue(c: char): (d: nat)
    requires IsDigit(c)
    ensures d < 10
  {
    c as int - '0' as int
  }

  /** The natural a digit string writes; the empty string writes zero. */
  function Number(s: string): nat
    requires AllDigits(s)
  {
    if s == "" then 0 else 10 * Number(s[..|s| - 1]) + DigitValue(s[|s| - 1])
  }

  function Ten(n: nat): (p: nat)
    ensures 1 <= p
  {
    if n == 0 then 1 else 10 * Ten(n - 1)
  }

  function Zeros(n: nat): (s: string)
    ensures |s| == n && AllDigits(s)
    ensures forall i :: 0 <= i < n ==> s[i] == '0'
  {
    if n == 0 then "" else Zeros(n - 1) + "0"
  }

  lemma {:induction false} NumberOfZeros(n: nat)
    ensures Number(Zeros(n)) == 0
  {
    if n > 0 {
      NumberOfZeros(n - 1);
      assert Zeros(n)[..n - 1] == Zeros(n - 1);
    }
  }

  /** Zeros in front change nothing. */
  lemma {:induction false} PadLeft(n: nat, s: string)
    requires AllDigits(s)
    ensures AllDigits(Zeros(n) + s) && Number(Zeros(n) + s) == Number(s)
  {
    if s == "" {
      NumberOfZeros(n);
      assert Zeros(n) + s == Zeros(n);
    } else {
      PadLeft(n, s[..|s| - 1]);
      assert (Zeros(n) + s)[..n + |s| - 1] == Zeros(n) + s[..|s| - 1];
    }
  }

  function TimesTens(x: nat, n: nat): nat {
    if n == 0 then x else 10 * TimesTens(x, n - 1)
  }

  /** Zeros behind multiply by ten each. */
  lemma {:induction false} PadRight(s: string, n: nat)
    requires AllDigits(s)
    ensures AllDigits(s + Zeros(n)) && Number(s + Zeros(n)) == TimesTens(Number(s), n)
  {
    if n == 0 {
      assert s + Zeros(n) == s;
    } else {
      PadRight(s, n - 1);
      assert (s + Zeros(n))[..|s| + n - 1] == s + Zeros(n - 1);
    }
  }

  lemma {:induction false} NumberBelow(s: string)
    requires AllDigits(s)
    ensures Number(s) < Ten(|s|)
  {
    if s != "" {
      NumberBelow(s[..|s| - 1]);
    }
  }

  /** A digit string without a leading zero is at least as large as its length allows. */
  lemma {:induction false} NumberAtLeast(s: string)
    requires AllDigits(s) && s != "" && s[0] != '0'
    ensures Ten(|s| - 1) <= Number(s)
  {
    if |s| > 1 {
      NumberAtLeast(s[..|s| - 1]);
    }
  }

  /** Among strings of one length the number determines the string. */
  lemma {:induction false} NumberInjective(a: string, b: string)
    requires AllDigits(a) && AllDigits(b) && |a| == |b|
    requires Number(a) == Number(b)
    ensures a == b
  {
    if a != "" {
      var n := |a| - 1;
      NumberInjective(a[..n], b[..n]);
      assert a == a[..n] + [a[n]] && b == b[..n] + [b[n]];
    }
  }

  lemma {:induction false} TenMonotone(a: nat, b: nat)
    requires a <= b
    ensures Ten(a) <= Ten(b)
  {
    if a < b {
      TenMonotone(a, b - 1);
    }
  }

  /** `x` times ten to the power `e`. */
  function Shift(x: real, e: int): real
    decreases if e < 0 then -e else e
  {
    if e == 0 then x else if e > 0 then 10.0 * Shift(x, e - 1) else Shift(x, e + 1) / 10.0
  }

  lemma {:induction false} ShiftAdd(x: real, a: int, b: int)
    ensures Shift(Shift(x, a), b) == Shift(x, a + b)
    decreases if b < 0 then -b else b
  {
    if b > 0 {
      ShiftAdd(x, a, b - 1);
    } else if b < 0 {
      ShiftAdd(x, a, b + 1);
    }
  }

  lemma {:induction false} ShiftInjective(x: real, y: real, e: int)
    requires Shift(x, e) == Shift(y, e)
    ensures x == y
    decreases if e < 0 then -e else e
  {
    if e > 0 {
      ShiftInjective(x, y, e - 1);
    } else if e < 0 {
      ShiftInjective(x, y, e + 1);
    }
  }

  lemma {:induction false} ShiftSign(x: real, e: int)
    requires x >= 0.0
    ensures Shift(x, e) >= 0.0 && (Shift(x, e) == 0.0 <==> x == 0.0)
    decreases if e < 0 then -e else e
  {
    if e > 0 {
      ShiftSign(x, e - 1);
    } else if e < 0 {
      ShiftSign(x, e + 1);
    }
  }

  lemma {:induction false} ShiftNatural(x: nat, n: nat)
    ensures Shift(x as real, n) == TimesTens(x, n) as real
  {
    if n > 0 {
      ShiftNatural(x, n - 1);
    }
  }
}

/** Numbers as sequences of digits, most significant first. */
module Radix {
  import opened IntMath

  function Pow(b: nat, n: nat): (r: nat)
    ensures b > 0 ==> r > 0
  {
    if n == 0 then 1 else b * Pow(b, n - 1)
  }

  lemma {:induction false} PowAdd(b: nat, m: nat, n: nat)
    ensures Pow(b, m + n) == Pow(b, m) * Pow(b, n)
    decreases m
  {
    if m > 0 {
      PowAdd(b, m - 1, n);
      assert b * (Pow(b, m - 1) * Pow(b, n)) == b * Pow(b, m - 1) * Pow(b, n);
    }
  }

  lemma {:induction false} PowMul(b: nat, m: nat, n: nat)
    ensures Pow(Pow(b, m), n) == Pow(b, m * n)
    decreases n
  {
    if n == 0 {
      assert m * n == 0;
    } else {
      PowMul(b, m, n - 1);
      PowAdd(b, m, m * (n - 1));
      assert m + m * (n - 1) == m * n;
    }
  }

  lemma {:induction false} PowBaseMonotone(a: nat, b: nat, n: nat)
    requires a <= b
    ensures Pow(a, n) <= Pow(b, n)
    decreases n
  {
    if n > 0 {
      PowBaseMonotone(a, b, n - 1);
      MulMonotone(Pow(a, n - 1), Pow(b, n - 1), a);
      MulMonotone(a, b, Pow(b, n - 1));
    }
  }

  lemma {:induction false} PowMonotone(b: nat, m: nat, n: nat)
    requires b >= 1 && m <= n
    ensures Pow(b, m) <= Pow(b, n)
    decreases n
  {
    if m < n {
      PowMonotone(b, m, n - 1);
      MulMonotone(1, b, Pow(b, n - 1));
    }
  }

  // ---------------------------------------------------------------------------
  // Values and digits
  // ---------------------------------------------------------------------------

  type Digits = seq<nat>

  predicate AreDigits(s: Digits, b: nat) { forall i :: 0 <= i < |s| ==> s[i] < b }

  /** The number that digits in base b denote. */
  function Num(s: Digits, b: nat): nat {
    if s == [] then 0 else Num(s[..|s| - 1], b) * b + s[|s| - 1]
  }

  /** No superfluous zero in front. */
  predicate Canonical(s: Digits, b: nat) { AreDigits(s, b) && (s != [] ==> s[0] != 0) }

  function Quot(n: nat, b: nat): (q: nat)
    requires b >= 2
    ensures n > 0 ==> q < n
  {
    QuotientSmaller(n, b);
    n / b
  }

  function Rem(n: nat, b: nat): (r: nat)
    requires b >= 2
    ensures r < b && n == Quot(n, b) * b + r
  {
    QuotientSmaller(n, b);
    n % b
  }

  lemma QuotientSmaller(n: nat, b: nat)
    requires b >= 2
    ensures 0 <= n / b && (n > 0 ==> n / b < n) && 0 <= n % b < b && n == n / b * b + n % b
  {
    DivShrinks(n, b);
    if n > 0 && n / b >= n { MulMonotone(2, b, n); }
  }

  function DigitsOf(n: nat, b: nat): Digits
    requires b >= 2
  {
    if n == 0 then [] else DigitsOf(Quot(n, b), b) + [Rem(n, b)]
  }

  lemma {:induction false} DigitsDenote(n: nat, b: nat)
    requires b >= 2
    ensures Num(DigitsOf(n, b), b) == n && Canonical(DigitsOf(n, b), b)
    decreases n
  {
    hide Quot, Rem;
    if n > 0 {
      DigitsDenote(Quot(n, b), b);
      hide Num;
      OneMoreDigit(DigitsOf(Quot(n, b), b), Rem(n, b), n, b);
    }
  }

  lemma OneMoreDigit(front: Digits, r: nat, n: nat, b: nat)
    requires Canonical(front, b) && r < b && n > 0 && n == Num(front, b) * b + r
    ensures Canonical(front + [r], b) && Num(front + [r], b) == n
  {
    hide Num;
    NumAppend(front, r, b);
    if front == [] { EmptyNum(b); }
  }

  lemma NumAppend(s: Digits, x: nat, b: nat)
    ensures Num(s + [x], b) == Num(s, b) * b + x
  {
    assert (s + [x])[..|s|] == s;
  }

  lemma EmptyNum(b: nat)
    ensures Num([], b) == 0
  {
  }

  /** Digits without leading zeros are determined by the number. */
  lemma {:induction false} DigitsAreUnique(s: Digits, b: nat)
    requires b >= 2 && Canonical(s, b)
    ensures DigitsOf(Num(s, b), b) == s
    decreases |s|
  {
    if s != [] {
      var front, last := s[..|s| - 1], s[|s| - 1];
      DigitsAreUnique(front, b);
      DivideExactly(Num(s, b), b, Num(front, b), last);
      assert Quot(Num(s, b), b) == Num(front, b) && Rem(Num(s, b), b) == last;
      assert s == front + [last];
      NonZero(s, b);
    }
  }

  lemma {:induction false} NonZero(s: Digits, b: nat)
    requires b >= 1 && s != [] && s[0] != 0
    ensures Num(s, b) > 0
    decreases |s|
  {
    if |s| > 1 {
      NonZero(s[..|s| - 1], b);
      MulMonotone(1, Num(s[..|s| - 1], b), b);
    }
  }

  lemma {:induction false} NumBound(s: Digits, b: nat)
    requires AreDigits(s, b)
    ensures Num(s, b) < Pow(b, |s|)
    decreases |s|
  {
    if s != [] {
      NumBound(s[..|s| - 1], b);
      DigitBound(Num(s[..|s| - 1], b), Pow(b, |s| - 1), b, s[|s| - 1]);
    }
  }

  lemma DigitBound(n: nat, p: nat, b: nat, x: nat)
    requires n < p && x < b
    ensures n * b + x < b * p
  {
    MulMonotone(n + 1, p, b);
    assert (n + 1) * b == n * b + b;
  }

  lemma {:induction false} NumSplit(s: Digits, t: Digits, b: nat)
    ensures Num(s + t, b) == Num(s, b) * Pow(b, |t|) + Num(t, b)
    decreases |t|
  {
    if t == [] {
      assert s + t == s;
    } else {
      var front := t[..|t| - 1];
      NumSplit(s, front, b);
      assert (s + t)[..|s + t| - 1] == s + front;
      ShiftedSum(Num(s, b), Pow(b, |front|), Num(front, b), b);
    }
  }

  lemma ShiftedSum(p: nat, m: nat, n: nat, b: nat)
    ensures (p * m + n) * b == p * (b * m) + n * b
  {
    assert p * m * b == p * (b * m);
  }

  lemma {:induction false} ZerosDenoteZero(s: Digits, b: nat)
    requires forall i :: 0 <= i < |s| ==> s[i] == 0
    ensures Num(s, b) == 0
    decreases |s|
  {
    if s != [] { ZerosDenoteZero(s[..|s| - 1], b); }
  }

  /** Leading zeros do not count. */
  lemma SkipZeros(s: Digits, k: nat, b: nat)
    requires b >= 2 && AreDigits(s, b) && k <= |s| && (forall i :: 0 <= i < k ==> s[i] == 0)
    requires k < |s| ==> s[k] != 0
    ensures DigitsOf(Num(s, b), b) == s[k..]
  {
    assert s == s[..k] + s[k..];
    NumSplit(s[..k], s[k..], b);
    ZerosDenoteZero(s[..k], b);
    assert Num(s[..k], b) * Pow(b, |s[k..]|) == 0;
    DigitsAreUnique(s[k..], b);
  }
}

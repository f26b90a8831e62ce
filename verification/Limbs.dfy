/**
 Numbers as sequences of 32-bit limbs, least significant first: what such a sequence stands for,
 and how that value changes when one limb does.
 */
module Limbs {
  import opened IntMath

  const BASE := 0x1_0000_0000

  type Word = x: int | 0 <= x < BASE

  /** The weight of limb i. */
  function Limb(i: nat): (r: nat)
    ensures 1 <= r
  {
    if i == 0 then 1 else BASE * Limb(i - 1)
  }

  /** The value of the first n limbs. */
  ghost function Val(s: seq<Word>, n: nat): nat
    requires n <= |s|
  {
    if n == 0 then 0 else Val(s, n - 1) + s[n - 1] * Limb(n - 1)
  }

  lemma ValStep(s: seq<Word>, n: nat)
    requires n < |s|
    ensures Val(s, n + 1) == Val(s, n) + s[n] * Limb(n) && Limb(n + 1) == BASE * Limb(n)
  {
  }

  lemma {:induction false} ValBound(s: seq<Word>, n: nat)
    requires n <= |s|
    ensures Val(s, n) < Limb(n)
    decreases n
  {
    if n > 0 {
      ValBound(s, n - 1);
      MulMonotone(s[n - 1], BASE - 1, Limb(n - 1));
    }
  }

  /** Limbs that agree from i on contribute the same. */
  lemma {:induction false} ValTail(s: seq<Word>, t: seq<Word>, i: nat, n: nat)
    requires i <= n <= |s| && n <= |t| && forall k :: i <= k < n ==> s[k] == t[k]
    ensures Val(s, n) - Val(s, i) == Val(t, n) - Val(t, i)
    decreases n
  {
    if i < n { ValTail(s, t, i, n - 1); }
  }

  lemma ValAgree(s: seq<Word>, t: seq<Word>, n: nat)
    requires n <= |s| && n <= |t| && forall k :: 0 <= k < n ==> s[k] == t[k]
    ensures Val(s, n) == Val(t, n)
  {
    ValTail(s, t, 0, n);
  }

  /** Adding to one limb adds that much of its weight. */
  lemma ValUpdate(s: seq<Word>, t: seq<Word>, j: nat, n: nat)
    requires j < n <= |s| && |t| == |s| && forall k :: 0 <= k < n && k != j ==> s[k] == t[k]
    ensures Val(t, n) == Val(s, n) + (t[j] - s[j]) * Limb(j)
  {
    ValAgree(s, t, j);
    ValTail(s, t, j + 1, n);
    ValStep(s, j);
    ValStep(t, j);
  }

  lemma {:induction false} ZeroVal(s: seq<Word>, n: nat)
    requires n <= |s| && forall k :: 0 <= k < n ==> s[k] == 0
    ensures Val(s, n) == 0
    decreases n
  {
    if n > 0 { ZeroVal(s, n - 1); }
  }

  lemma {:induction false} LimbIsPow2(i: nat)
    ensures Limb(i) == Pow2(32 * i)
    decreases i
  {
    if i > 0 {
      LimbIsPow2(i - 1);
      Pow2Add(32, 32 * (i - 1));
      Pow2Of32();
    }
  }

  lemma LimbAdd(i: nat, j: nat)
    ensures Limb(i + j) == Limb(i) * Limb(j)
  {
    LimbIsPow2(i);
    LimbIsPow2(j);
    LimbIsPow2(i + j);
    Pow2Add(32 * i, 32 * j);
  }

  // ---------------------------------------------------------------------------
  // Bitwise or
  // ---------------------------------------------------------------------------

  function Or(a: nat, b: nat): nat
    decreases a + b
  {
    if a == 0 then b else if b == 0 then a
    else (if a % 2 == 1 || b % 2 == 1 then 1 else 0) + 2 * Or(a / 2, b / 2)
  }

  /** The or of numbers without a common bit is their sum. */
  lemma {:induction false} OrAdds(a: nat, b: nat, k: nat)
    requires a % Pow2(k) == 0 && b < Pow2(k)
    ensures Or(a, b) == a + b && Or(b, a) == a + b
    decreases k
  {
    if k > 0 && a != 0 && b != 0 {
      var m := Pow2(k - 1);
      assert a % (2 * m) == 0;
      HalfMultiple(a, m);
      OrAdds(a / 2, b / 2, k - 1);
    }
  }

  lemma HalfMultiple(a: nat, m: nat)
    requires m > 0 && a % (2 * m) == 0
    ensures a % 2 == 0 && (a / 2) % m == 0
  {
    var q := a / (2 * m);
    assert a == 2 * m * q;
    assert a == 2 * (m * q);
    assert a / 2 == m * q;
    DivideExactly(a / 2, m, q, 0);
  }
}

/**
 The 256-bit unsigned integers of src/arith_uint256.h and src/arith_uint256.cpp: eight 32-bit
 limbs that the operators update in place.  Every operator is proved to compute its
 mathematical function modulo 2^256 (Limb(WIDTH)).  Intermediate 64-bit sums and products are
 proved not to wrap.
 */
module ArithUint256 {
  import opened IntMath
  import opened Limbs

  const WIDTH: nat := 8
  const UINT64 := BASE * BASE

  // ---------------------------------------------------------------------------
  // Carries
  // ---------------------------------------------------------------------------

  /** Writing limb i and passing the carry on keeps the sum. */
  lemma CarryStep(s: seq<Word>, t: seq<Word>, i: nat, carry: nat, y: nat, x: int)
    requires i < |s| == |t| && (forall k :: 0 <= k < i ==> s[k] == t[k]) && t[i] == (carry + y) % BASE
    requires Val(s, i) + carry * Limb(i) == x
    ensures Val(t, i + 1) + (carry + y) / BASE * Limb(i + 1) == x + y * Limb(i)
  {
    var n := carry + y;
    ValAgree(s, t, i);
    ValStep(t, i);
    calc {
      t[i] * Limb(i) + n / BASE * (BASE * Limb(i));
      { MulRegroup(n / BASE, BASE, Limb(i)); }
      t[i] * Limb(i) + n / BASE * BASE * Limb(i);
      { Distribute(t[i], n / BASE * BASE, Limb(i)); }
      n * Limb(i);
      { Distribute(carry, y, Limb(i)); }
      carry * Limb(i) + y * Limb(i);
    }
  }

  lemma MulRegroup(a: int, b: int, c: int)
    ensures a * (b * c) == a * b * c
  {
  }

  lemma Distribute(a: int, b: int, c: int)
    ensures (a + b) * c == a * c + b * c
  {
  }

  /** What is left after all limbs is the sum modulo 2^256. */
  lemma LastCarry(s: seq<Word>, carry: int, x: int)
    requires |s| == WIDTH && Val(s, WIDTH) + carry * Limb(WIDTH) == x
    ensures Val(s, WIDTH) == x % Limb(WIDTH)
  {
    hide Limb, Val;
    ValBound(s, WIDTH);
    DivideExactly(x, Limb(WIDTH), carry, Val(s, WIDTH));
  }

  class Uint256 {
    const pn: array<Word>

    ghost predicate Valid() { pn.Length == WIDTH }

    ghost function Value(): nat
      requires Valid()
      reads pn
    {
      Val(pn[..], WIDTH)
    }

    constructor ()
      ensures Valid() && fresh(pn) && Value() == 0
    {
      hide Limb;
      pn := new Word[WIDTH](_ => 0);
      new;
      ZeroVal(pn[..], WIDTH);
    }

    constructor Copy(b: Uint256)
      requires b.Valid()
      ensures Valid() && fresh(pn) && pn[..] == b.pn[..]
    {
      pn := new Word[WIDTH](i requires 0 <= i < WIDTH && b.Valid() reads b.pn => b.pn[i]);
    }

    constructor FromUint64(b: nat)
      requires b < UINT64
      ensures Valid() && fresh(pn) && Value() == b
    {
      hide Limb;
      pn := new Word[WIDTH](i => if i == 0 then b % BASE else if i == 1 then b / BASE else 0);
      new;
      LowLimbs(pn[..]);
    }

    // ----- addition and subtraction -------------------------------------------

    method AddAssign(b: Uint256)
      requires Valid() && b.Valid()
      modifies pn
      ensures Value() == (old(Value()) + old(b.Value())) % Limb(WIDTH)
    {
      hide Limb, Val;
      ghost var a0, b0 := pn[..], b.pn[..];
      EmptyVal(a0);
      EmptyVal(b0);
      var carry := 0;
      for i := 0 to WIDTH
        invariant 0 <= carry <= 1
        invariant forall k :: i <= k < WIDTH ==> pn[k] == a0[k] && b.pn[k] == b0[k]
        invariant Val(pn[..], i) + carry * Limb(i) == Val(a0, i) + Val(b0, i)
      {
        ghost var s := pn[..];
        var n := carry + pn[i] + b.pn[i];
        assert n < UINT64;
        pn[i] := n % BASE;
        CarryStep(s, pn[..], i, carry, a0[i] as int + b0[i] as int, Val(a0, i) + Val(b0, i));
        ValStep(a0, i);
        ValStep(b0, i);
        Distribute(a0[i], b0[i], Limb(i));
        carry := n / BASE;
      }
      LastCarry(pn[..], carry, Val(a0, WIDTH) + Val(b0, WIDTH));
    }

    method Complement() returns (r: Uint256)
      requires Valid()
      ensures r.Valid() && fresh(r) && fresh(r.pn) && r.Value() == Limb(WIDTH) - 1 - Value()
    {
      hide Limb, Val;
      r := new Uint256();
      EmptyVal(pn[..]);
      EmptyVal(r.pn[..]);
      for i := 0 to WIDTH
        invariant r.Valid() && fresh(r) && fresh(r.pn)
        invariant Val(r.pn[..], i) == Limb(i) - 1 - Val(pn[..], i)
      {
        ghost var s := r.pn[..];
        r.pn[i] := BASE - 1 - pn[i];
        ComplementStep(pn[..], s, r.pn[..], i);
      }
    }

    method Increment()
      requires Valid()
      modifies pn
      ensures Value() == (old(Value()) + 1) % Limb(WIDTH)
    {
      hide Limb, Val;
      ghost var a0 := pn[..];
      EmptyVal(a0);
      var i := 0;
      ghost var s := pn[..];
      pn[i] := (pn[i] + 1) % BASE;
      CarryStep(s, pn[..], 0, 1, a0[0], 1);
      ValStep(a0, 0);
      IncrementCarry(a0[0], pn[0]);
      while pn[i] == 0 && i < WIDTH - 1
        invariant 0 <= i < WIDTH
        invariant forall k :: i < k < WIDTH ==> pn[k] == a0[k]
        invariant Val(pn[..], i + 1) + (if pn[i] == 0 then 1 else 0) * Limb(i + 1) == Val(a0, i + 1) + 1
        decreases WIDTH - i
      {
        i := i + 1;
        s := pn[..];
        pn[i] := (pn[i] + 1) % BASE;
        CarryStep(s, pn[..], i, 1, a0[i], Val(a0, i) + 1);
        ValStep(a0, i);
        IncrementCarry(a0[i], pn[i]);
      }
      IncrementDone(a0, pn[..], i);
    }

    method Negate() returns (r: Uint256)
      requires Valid()
      ensures r.Valid() && fresh(r) && fresh(r.pn) && r.Value() == (Limb(WIDTH) - Value()) % Limb(WIDTH)
    {
      hide Limb, Val;
      r := Complement();
      r.Increment();
    }

    method SubAssign(b: Uint256)
      requires Valid() && b.Valid()
      modifies pn
      ensures Value() == (old(Value()) - old(b.Value())) % Limb(WIDTH)
    {
      hide Limb, Val;
      ghost var a0 := pn[..];
      ghost var x, y, m := Value(), b.Value(), Limb(WIDTH);
      ValBound(b.pn[..], WIDTH);
      var negated := b.Negate();
      AddAssign(negated);
      SubtractModulo(x, y, m);
    }

    // ----- multiplication by a word ---------------------------------------------

    method MulWordAssign(b32: Word)
      requires Valid()
      modifies pn
      ensures Value() == old(Value()) * b32 % Limb(WIDTH)
    {
      hide Limb, Val;
      ghost var a0 := pn[..];
      EmptyVal(a0);
      var carry := 0;
      for i := 0 to WIDTH
        invariant 0 <= carry < BASE
        invariant forall k :: i <= k < WIDTH ==> pn[k] == a0[k]
        invariant Val(pn[..], i) + carry * Limb(i) == Val(a0, i) * b32
      {
        ghost var s := pn[..];
        var n := carry + b32 * pn[i];
        WordProduct(b32, pn[i], carry);
        assert n < UINT64;
        pn[i] := n % BASE;
        CarryStep(s, pn[..], i, carry, b32 * a0[i], Val(a0, i) * b32);
        ValStep(a0, i);
        MulStep(Val(a0, i), a0[i], b32, Limb(i));
        carry := n / BASE;
      }
      LastCarry(pn[..], carry, Val(a0, WIDTH) * b32);
    }

    // ----- multiplication -------------------------------------------------------

    /** Schoolbook multiplication; a number multiplied by itself in place becomes zero. */
    method MulAssign(b: Uint256)
      requires Valid() && b.Valid()
      modifies pn
      ensures Value() == if b.pn == pn then 0 else old(Value()) * old(b.Value()) % Limb(WIDTH)
    {
      hide Limb, Val;
      ghost var a0 := pn[..];
      var a := new Uint256.Copy(this);
      Clear();
      ghost var b0 := b.pn[..];
      EmptyVal(a0);
      ZeroVal(pn[..], WIDTH);
      ghost var lost: int := 0;
      for j := 0 to WIDTH
        invariant a.Valid() && a.pn[..] == a0
        invariant if b.pn == pn then forall k :: 0 <= k < WIDTH ==> pn[k] == 0 else b.pn[..] == b0
        invariant b.pn != pn ==> Val(pn[..], WIDTH) + lost * Limb(WIDTH) == Val(a0, j) * Val(b0, WIDTH)
      {
        ghost var u := pn[..];
        ghost var carry := AddRow(a.pn[j], j, b);
        if b.pn != pn {
          lost := RowAdded(u, pn[..], a0, b0, j, carry, lost);
        }
      }
      if b.pn == pn {
        ZeroVal(pn[..], WIDTH);
      } else {
        LastCarry(pn[..], lost, Val(a0, WIDTH) * Val(b0, WIDTH));
      }
    }

    /** The inner loop: adds a word times b, shifted by j limbs. */
    method AddRow(w: Word, j: nat, b: Uint256) returns (ghost lastCarry: nat)
      requires Valid() && b.Valid() && j < WIDTH
      requires b.pn == pn ==> forall k :: 0 <= k < WIDTH ==> pn[k] == 0
      modifies pn
      ensures b.pn == pn ==> forall k :: 0 <= k < WIDTH ==> pn[k] == 0
      ensures b.pn != pn ==>
        Value() + lastCarry * Limb(WIDTH) == old(Value()) + w * Val(b.pn[..], WIDTH - j) * Limb(j)
    {
      hide Limb, Val, RowSum;
      ghost var u, b0 := pn[..], b.pn[..];
      RowStart(u, b0, w, j);
      var carry: nat := 0;
      for i := 0 to WIDTH - j
        invariant carry < BASE && forall k :: i + j <= k < WIDTH ==> pn[k] == u[k]
        invariant b.pn[..] == b0
        invariant b.pn == pn ==> carry == 0
        invariant Val(pn[..], i + j) + carry * Limb(i + j) == RowSum(u, b0, w, i, j)
      {
        ghost var s := pn[..];
        var n := MultiplyAdd(w, b.pn[i], pn[i + j], carry);
        pn[i + j] := n % BASE;
        RowStep(s, pn[..], u, b0, w, i, j, carry);
        carry := n / BASE;
        if b.pn == pn {
          assert pn[..] == s;
        }
      }
      lastCarry := carry;
      RowEnd(u, b0, w, j);
    }

    // ----- comparison -----------------------------------------------------------

    method CompareTo(b: Uint256) returns (c: int)
      requires Valid() && b.Valid()
      ensures c == if Value() < b.Value() then -1 else if Value() > b.Value() then 1 else 0
    {
      hide Limb, Val;
      var i := WIDTH;
      while i > 0
        invariant 0 <= i <= WIDTH
        invariant forall k :: i <= k < WIDTH ==> pn[k] == b.pn[k]
      {
        i := i - 1;
        if pn[i] < b.pn[i] {
          TopLimbDecides(pn[..], b.pn[..], i);
          return -1;
        }
        if pn[i] > b.pn[i] {
          TopLimbDecides(b.pn[..], pn[..], i);
          return 1;
        }
      }
      ValAgree(pn[..], b.pn[..], WIDTH);
      return 0;
    }

    // ----- shifts ---------------------------------------------------------------

    method Clear()
      requires Valid()
      modifies pn
      ensures forall j :: 0 <= j < WIDTH ==> pn[j] == 0
    {
      for i := 0 to WIDTH
        invariant forall j :: 0 <= j < i ==> pn[j] == 0
      {
        pn[i] := 0;
      }
    }

    method ShiftLeftAssign(shift: nat)
      requires Valid()
      modifies pn
      ensures Value() == old(Value()) * Pow2(shift) % Limb(WIDTH)
    {
      hide Limb, Val, Pow2, Or, Lo, Hi;
      ghost var a0 := pn[..];
      var a := new Uint256.Copy(this);
      Clear();
      var k, s := shift / 32, shift % 32;
      ghost var lost: nat := 0;
      EmptyVal(a0);
      ZeroVal(pn[..], WIDTH);
      for i := 0 to WIDTH
        invariant a.Valid() && a.pn[..] == a0
        invariant RoomAbove(pn[..], i + k, s)
        invariant Val(pn[..], WIDTH) + lost * Limb(WIDTH) == Val(a0, i) * Pow2(shift)
      {
        ghost var u := pn[..];
        SplitWord(a.pn[i], s);
        if i + k + 1 < WIDTH && s != 0 {
          OrAdds(0, Hi(a.pn[i], s), 32);
          pn[i + k + 1] := Or(pn[i + k + 1], Hi(a.pn[i], s));
        }
        if i + k < WIDTH {
          OrAdds(Lo(a.pn[i], s), pn[i + k], s);
          pn[i + k] := Or(pn[i + k], Lo(a.pn[i], s));
        }
        assert Spread(u, pn[..], a0[i], s, i + k);
        lost := ShiftLeftStep(u, pn[..], a0, i, shift, lost);
      }
      LastCarry(pn[..], lost, Val(a0, WIDTH) * Pow2(shift));
    }

    method ShiftRightAssign(shift: nat)
      requires Valid()
      modifies pn
      ensures Value() == old(Value()) / Pow2(shift)
    {
      hide Limb, Val, Pow2, Or, Lo, Hi;
      ghost var a0 := pn[..];
      var a := new Uint256.Copy(this);
      Clear();
      var k, s := shift / 32, shift % 32;
      ghost var rest := 0;
      EmptyVal(a0);
      ZeroVal(pn[..], WIDTH);
      for i := 0 to WIDTH
        invariant a.Valid() && a.pn[..] == a0
        invariant RoomAbove(pn[..], i - k - 1, 32 - s)
        invariant Val(pn[..], WIDTH) * Pow2(shift) + rest == Val(a0, i)
        invariant if i <= k then Val(pn[..], WIDTH) == 0 else 0 <= rest < Pow2(shift)
      {
        ghost var u := pn[..];
        SplitWord(a.pn[i], 32 - s);
        if i - k - 1 >= 0 && s != 0 {
          OrAdds(Lo(a.pn[i], 32 - s), pn[i - k - 1], 32 - s);
          pn[i - k - 1] := Or(pn[i - k - 1], Lo(a.pn[i], 32 - s));
        }
        if i - k >= 0 {
          OrAdds(0, Hi(a.pn[i], 32 - s), 32);
          pn[i - k] := Or(pn[i - k], Hi(a.pn[i], 32 - s));
        }
        assert Spread(u, pn[..], a0[i], 32 - s, i - k - 1);
        rest := ShiftRightStep(u, pn[..], a0, i, shift, rest);
      }
      ShiftRightDone(pn[..], a0, shift, rest);
    }

    // ----- the number of bits -----------------------------------------------------

    method Bits() returns (n: nat)
      requires Valid()
      ensures IsBits(Value(), n) && n <= 32 * WIDTH
    {
      hide Limb, Val, Pow2, IsBits;
      var pos := WIDTH;
      while pos > 0
        invariant 0 <= pos <= WIDTH && forall k :: pos <= k < WIDTH ==> pn[k] == 0
      {
        pos := pos - 1;
        if pn[pos] != 0 {
          var bits := 31;
          Pow2Of32();
          while bits > 0
            invariant 0 <= bits <= 31 && pn[pos] < Pow2(bits + 1)
          {
            BitIsSet(pn[pos], bits);
            if pn[pos] / Pow2(bits) % 2 == 1 {
              TopBit(pn[..], pos, bits);
              return 32 * pos + bits + 1;
            }
            bits := bits - 1;
          }
          TopBit(pn[..], pos, 0);
          return 32 * pos + 1;
        }
      }
      ZeroVal(pn[..], WIDTH);
      NoBits();
      return 0;
    }

    // ----- division ---------------------------------------------------------------

    method SetBit(n: nat)
      requires Valid() && n < 32 * WIDTH && LowBitsClear(pn[..], n + 1)
      modifies pn
      ensures Value() == old(Value()) + Pow2(n) && LowBitsClear(pn[..], n)
    {
      hide Limb, Val, Pow2, Or;
      ghost var u := pn[..];
      var w, b := n / 32, n % 32;
      RoomForBit(u, n);
      pn[w] := Or(pn[w], Pow2(b));
      ValUpdate(u, pn[..], w, WIDTH);
      LimbIsPow2(w);
      Pow2Add(b, 32 * w);
    }

    /** Long division; dividing by zero fails, with the number already cleared. */
    method DivAssign(b: Uint256) returns (ok: bool)
      requires Valid() && b.Valid()
      modifies pn
      ensures ok == (old(b.Value()) != 0)
      ensures Value() == if ok then old(Value()) / old(b.Value()) else 0
    {
      hide Limb, Val, Pow2, IsBits, LowBitsClear, Dividing;
      ghost var n0, d0 := Value(), b.Value();
      var div := new Uint256.Copy(b);
      var num := new Uint256.Copy(this);
      Clear();
      ZeroVal(pn[..], WIDTH);
      var numBits := num.Bits();
      var divBits := div.Bits();
      BitsCompare(n0, numBits, d0, divBits);
      if divBits == 0 { return false; }
      if divBits > numBits { return true; }
      var shift: int := numBits - divBits;
      div.ShiftLeftAssign(shift);
      Align(n0, numBits, d0, divBits);
      ClearIsClear(pn[..], shift + 1);
      while shift >= 0
        invariant -1 <= shift < 32 * WIDTH && num.Valid() && div.Valid()
        invariant fresh(num.pn) && fresh(div.pn) && num.pn != div.pn
        invariant LowBitsClear(pn[..], shift + 1)
        invariant Dividing(n0, d0, num.Value(), Value(), div.Value(), shift)
      {
        DivideStep(n0, d0, num.Value(), Value(), div.Value(), shift);
        var c := num.CompareTo(div);
        if c >= 0 {
          SubtractSmaller(num.pn[..], div.pn[..]);
          num.SubAssign(div);
          SetBit(shift);
        } else {
          LessClear(pn[..], shift);
        }
        div.ShiftRightAssign(1);
        shift := shift - 1;
      }
      DivideDone(n0, d0, num.Value(), Value(), div.Value());
      return true;
    }
  }

  lemma LowLimbs(s: seq<Word>)
    requires |s| == WIDTH && forall k :: 2 <= k < WIDTH ==> s[k] == 0
    ensures Val(s, WIDTH) == s[0] + s[1] * BASE
  {
    hide Limb, Val;
    EmptyVal(s);
    ValStep(s, 0);
    ValStep(s, 1);
    var t := seq(WIDTH, i => 0);
    ValTail(s, t, 2, WIDTH);
    ZeroVal(t, 2);
    ZeroVal(t, WIDTH);
  }

  lemma EmptyVal(s: seq<Word>)
    ensures Val(s, 0) == 0 && Limb(0) == 1
  {
  }

  lemma ComplementStep(a: seq<Word>, s: seq<Word>, t: seq<Word>, i: nat)
    requires i < |a| && i < |s| == |t| && (forall k :: 0 <= k < i ==> s[k] == t[k]) && t[i] == BASE - 1 - a[i]
    requires Val(s, i) == Limb(i) - 1 - Val(a, i)
    ensures Val(t, i + 1) == Limb(i + 1) - 1 - Val(a, i + 1)
  {
    ValAgree(s, t, i);
    assert (BASE - 1 - a[i]) * Limb(i) == BASE * Limb(i) - Limb(i) - a[i] * Limb(i);
  }

  lemma IncrementCarry(a: Word, r: Word)
    requires r == (a + 1) % BASE
    ensures (1 + a) / BASE == (if r == 0 then 1 else 0) && r == (1 + a) % BASE
  {
  }

  lemma IncrementDone(a: seq<Word>, t: seq<Word>, i: nat)
    requires |a| == |t| == WIDTH && i < WIDTH && (forall k :: i < k < WIDTH ==> t[k] == a[k])
    requires t[i] != 0 || i == WIDTH - 1
    requires Val(t, i + 1) + (if t[i] == 0 then 1 else 0) * Limb(i + 1) == Val(a, i + 1) + 1
    ensures Val(t, WIDTH) == (Val(a, WIDTH) + 1) % Limb(WIDTH)
  {
    hide Limb, Val;
    if t[i] != 0 {
      ValTail(a, t, i + 1, WIDTH);
      LastCarry(t, 0, Val(a, WIDTH) + 1);
    } else {
      LastCarry(t, 1, Val(a, WIDTH) + 1);
    }
  }

  lemma SubtractModulo(x: nat, y: nat, m: nat)
    requires y < m
    ensures (x + (m - y) % m) % m == (x - y) % m
  {
    if y == 0 {
      DivideExactly(m, m, 1, 0);
    } else {
      DivideExactly(m - y, m, 0, m - y);
      AddModulus(x - y, m);
    }
  }

  lemma AddModulus(x: int, m: nat)
    requires m > 0
    ensures (x + m) % m == x % m
  {
    Distribute(x / m, 1, m);
    DivideExactly(x + m, m, x / m + 1, x % m);
  }

  lemma SubtractSmaller(s: seq<Word>, t: seq<Word>)
    requires |s| == |t| == WIDTH && Val(s, WIDTH) >= Val(t, WIDTH)
    ensures (Val(s, WIDTH) - Val(t, WIDTH)) % Limb(WIDTH) == Val(s, WIDTH) - Val(t, WIDTH)
  {
    hide Limb, Val;
    ValBound(s, WIDTH);
    DivideExactly(Val(s, WIDTH) - Val(t, WIDTH), Limb(WIDTH), 0, Val(s, WIDTH) - Val(t, WIDTH));
  }

  lemma WordProduct(a: Word, b: Word, carry: nat)
    requires carry <= 2 * (BASE - 1)
    ensures carry + a * b < UINT64 && 0 <= (carry + a * b) / BASE < BASE
  {
    MulMonotone(a, BASE - 1, b);
    MulMonotone(b, BASE - 1, BASE - 1);
  }

  lemma MulStep(v: int, a: int, b: int, l: int)
    ensures (v + a * l) * b == v * b + b * a * l
  {
    assert a * l * b == b * a * l;
  }

  /** Limbs below the highest difference do not matter. */
  lemma TopLimbDecides(s: seq<Word>, t: seq<Word>, i: nat)
    requires |s| == |t| == WIDTH && i < WIDTH && s[i] < t[i] && (forall k :: i < k < WIDTH ==> s[k] == t[k])
    ensures Val(s, WIDTH) < Val(t, WIDTH)
  {
    hide Limb, Val;
    ValTail(s, t, i + 1, WIDTH);
    ValStep(s, i);
    ValStep(t, i);
    ValBound(s, i);
    MulMonotone(s[i] + 1, t[i], Limb(i));
    Distribute(s[i], 1, Limb(i));
  }

  // ---------------------------------------------------------------------------
  // Shifting a word across two limbs
  // ---------------------------------------------------------------------------

  /** a >> (32 - s) */
  function Hi(a: Word, s: nat): nat
    requires s <= 32
  {
    hide Pow2;
    DivShrinks(a, Pow2(32 - s));
    a / Pow2(32 - s)
  }

  /** a << s in 32 bits */
  function Lo(a: Word, s: nat): nat {
    a * Pow2(s) % BASE
  }

  lemma SplitWord(a: Word, s: nat)
    requires s <= 32
    ensures Hi(a, s) * BASE + Lo(a, s) == a * Pow2(s) && 0 <= Hi(a, s) < Pow2(s)
    ensures 0 <= Lo(a, s) <= BASE - Pow2(s) && Lo(a, s) % Pow2(s) == 0
    ensures s == 0 ==> Hi(a, s) == 0 && Lo(a, s) == a
    ensures s == 32 ==> Hi(a, s) == a && Lo(a, s) == 0
    ensures Pow2(32) == BASE && Pow2(0) == 1
  {
    Pow2Of32();
    Pow2Zero();
    Pow2Add(32 - s, s);
    hide Pow2;
    SplitBy(a, Pow2(32 - s), Pow2(s), BASE);
    if s == 0 { DivideExactly(a, BASE, 0, a); }
    if s == 32 { DivideExactly(a * BASE, BASE, a, 0); }
  }

  lemma SplitBy(a: nat, p: nat, t: nat, m: nat)
    requires p >= 1 && t >= 1 && p * t == m && a < m
    ensures a / p * m + a * t % m == a * t && 0 <= a / p < t && 0 <= a * t % m <= m - t && a * t % m % t == 0
  {
    var q, r := a / p, a % p;
    assert a * t == q * m + r * t by {
      Distribute(q * p, r, t);
      MulRegroup(q, p, t);
    }
    MulMonotone(r, p - 1, t);
    Distribute(p, -1, t);
    DivideExactly(a * t, m, q, r * t);
    DivideExactly(r * t, t, r, 0);
    if q >= t { MulMonotone(t, q, p); }
  }

  lemma Pow2Zero()
    ensures Pow2(0) == 1
  {
  }

  /** Nothing above limb j, and only the lowest s bits in it. */
  ghost predicate RoomAbove(u: seq<Word>, j: int, s: nat) {
    (forall k :: 0 <= k < |u| && k > j ==> u[k] == 0) && (0 <= j < |u| ==> u[j] < Pow2(s))
  }

  /** The two halves of a shifted word were added to limbs j and j + 1, as far as those exist. */
  ghost predicate Spread(u: seq<Word>, t: seq<Word>, a: Word, s: nat, j: int)
    requires s <= 32
  {
    && |t| == |u|
    && (forall k :: 0 <= k < |u| && k != j && k != j + 1 ==> t[k] == u[k])
    && (0 <= j < |u| ==> t[j] == u[j] + Lo(a, s))
    && (0 <= j + 1 < |u| ==> t[j + 1] == u[j + 1] + Hi(a, s))
  }

  lemma SpreadValue(u: seq<Word>, t: seq<Word>, a: Word, s: nat, j: int)
    requires s <= 32 && |u| == WIDTH && Spread(u, t, a, s, j)
    ensures Val(t, WIDTH) == Val(u, WIDTH) +
      (if 0 <= j < WIDTH then Lo(a, s) * Limb(j) else 0) +
      (if 0 <= j + 1 < WIDTH then Hi(a, s) * Limb(j + 1) else 0)
  {
    hide Limb, Val, Lo, Hi;
    var v := if 0 <= j < WIDTH then u[j := t[j]] else u;
    if 0 <= j < WIDTH { ValUpdate(u, v, j, WIDTH); }
    if 0 <= j + 1 < WIDTH { ValUpdate(v, t, j + 1, WIDTH); } else { ValAgree(v, t, WIDTH); }
  }

  /** Both halves together weigh as much as the shifted word. */
  lemma SpreadWeight(a: Word, s: nat, j: nat)
    requires s <= 32
    ensures Lo(a, s) * Limb(j) + Hi(a, s) * Limb(j + 1) == a * Pow2(s) * Limb(j)
  {
    SplitWord(a, s);
    assert Limb(j + 1) == BASE * Limb(j);
    hide Limb, Lo, Hi, Pow2;
    MulRegroup(Hi(a, s), BASE, Limb(j));
    Distribute(Hi(a, s) * BASE, Lo(a, s), Limb(j));
  }

  lemma ShiftWeight(shift: nat, i: nat)
    ensures Pow2(shift) == Pow2(shift % 32) * Limb(shift / 32)
    ensures Pow2(shift) * Limb(i) == Pow2(shift % 32) * Limb(i + shift / 32)
  {
    hide Pow2, Limb;
    var k, s := shift / 32, shift % 32;
    LimbIsPow2(k);
    Pow2Add(s, 32 * k);
    LimbAdd(k, i);
    MulRegroup(Pow2(s), Limb(k), Limb(i));
  }

  lemma ShiftLeftStep(u: seq<Word>, t: seq<Word>, a0: seq<Word>, i: nat, shift: nat, lost: nat) returns (lost': nat)
    requires |u| == |a0| == WIDTH && i < WIDTH && Spread(u, t, a0[i], shift % 32, i + shift / 32)
    requires Val(u, WIDTH) + lost * Limb(WIDTH) == Val(a0, i) * Pow2(shift)
    ensures Val(t, WIDTH) + lost' * Limb(WIDTH) == Val(a0, i + 1) * Pow2(shift)
  {
    hide Limb, Val, Pow2, Lo, Hi, Spread;
    var a, k, s, j := a0[i], shift / 32, shift % 32, i + shift / 32;
    SpreadValue(u, t, a, s, j);
    SpreadWeight(a, s, j);
    ValStep(a0, i);
    SplitWord(a, s);
    ShiftedTerm(Val(a0, i), a, i, shift);
    if j + 1 < WIDTH {
      lost' := lost;
    } else if j + 1 == WIDTH {
      lost' := lost + Hi(a, s);
      Distribute(lost, Hi(a, s), Limb(WIDTH));
    } else {
      LimbAdd(j - WIDTH, WIDTH);
      var more := a * Pow2(s) * Limb(j - WIDTH);
      MulRegroup(a * Pow2(s), Limb(j - WIDTH), Limb(WIDTH));
      lost' := lost + more;
      Distribute(lost, more, Limb(WIDTH));
    }
  }

  lemma ShiftedTerm(v: nat, a: Word, i: nat, shift: nat)
    ensures (v + a * Limb(i)) * Pow2(shift) == v * Pow2(shift) + a * Pow2(shift % 32) * Limb(i + shift / 32)
  {
    ShiftWeight(shift, i);
    hide Limb, Pow2;
    Distribute(v, a * Limb(i), Pow2(shift));
    assert a * Limb(i) * Pow2(shift) == a * (Pow2(shift) * Limb(i));
    MulRegroup(a, Pow2(shift % 32), Limb(i + shift / 32));
  }

  lemma ShiftRightStep(u: seq<Word>, t: seq<Word>, a0: seq<Word>, i: nat, shift: nat, rest: int) returns (rest': int)
    requires |u| == |a0| == WIDTH && i < WIDTH && Spread(u, t, a0[i], 32 - shift % 32, i - shift / 32 - 1)
    requires Val(u, WIDTH) * Pow2(shift) + rest == Val(a0, i)
    requires if i <= shift / 32 then Val(u, WIDTH) == 0 else 0 <= rest < Pow2(shift)
    ensures Val(t, WIDTH) * Pow2(shift) + rest' == Val(a0, i + 1)
    ensures if i + 1 <= shift / 32 then Val(t, WIDTH) == 0 else 0 <= rest' < Pow2(shift)
  {
    hide Limb, Val, Pow2, Lo, Hi, Spread;
    var a, k, s, j := a0[i], shift / 32, shift % 32, i - shift / 32 - 1;
    SpreadValue(u, t, a, 32 - s, j);
    ValStep(a0, i);
    if i < k {
      rest' := Val(a0, i + 1);
    } else if i == k {
      EmptyVal(t);
      rest' := rest + a % Pow2(s) * Limb(k);
      LowestWord(a, s, k, shift);
      ValBound(a0, k);
    } else {
      rest' := rest;
      SpreadWeight(a, 32 - s, j);
      MovedDown(a, i, shift);
      Distribute(Val(u, WIDTH), a * Pow2(32 - s) * Limb(j), Pow2(shift));
    }
  }

  /** The word that straddles the point: its high part stays, its low part is cut off. */
  lemma LowestWord(a: Word, s: nat, k: nat, shift: nat)
    requires s == shift % 32 && k == shift / 32
    ensures Hi(a, 32 - s) * Pow2(shift) + a % Pow2(s) * Limb(k) == a * Limb(k)
    ensures 0 <= a % Pow2(s) * Limb(k) <= Pow2(shift) - Limb(k)
  {
    hide Limb, Pow2;
    ShiftWeight(shift, 0);
    CutBelow(a, Pow2(s), Limb(k));
  }

  lemma CutBelow(a: nat, p: nat, l: nat)
    requires p >= 1
    ensures a / p * (p * l) + a % p * l == a * l && 0 <= a % p * l <= p * l - l
  {
    MulRegroup(a / p, p, l);
    Distribute(a / p * p, a % p, l);
    MulMonotone(a % p, p - 1, l);
    Distribute(p, -1, l);
  }

  lemma MovedDown(a: Word, i: nat, shift: nat)
    requires i > shift / 32
    ensures a * Pow2(32 - shift % 32) * Limb(i - shift / 32 - 1) * Pow2(shift) == a * Limb(i)
  {
    var k, s, j := shift / 32, shift % 32, i - shift / 32 - 1;
    ShiftWeight(shift, j);
    Pow2Add(32 - s, s);
    Pow2Of32();
    assert Limb(j + k + 1) == BASE * Limb(j + k);
    hide Limb, Pow2;
    calc {
      a * Pow2(32 - s) * Limb(j) * Pow2(shift);
      { MulRegroup(a * Pow2(32 - s), Limb(j), Pow2(shift)); }
      a * Pow2(32 - s) * (Limb(j) * Pow2(shift));
      a * Pow2(32 - s) * (Pow2(s) * Limb(j + k));
      { MulRegroup(a * Pow2(32 - s), Pow2(s), Limb(j + k)); MulRegroup(a, Pow2(32 - s), Pow2(s)); }
      a * BASE * Limb(j + k);
      { MulRegroup(a, BASE, Limb(j + k)); }
      a * Limb(i);
    }
  }

  lemma ShiftRightDone(t: seq<Word>, a0: seq<Word>, shift: nat, rest: int)
    requires |t| == |a0| == WIDTH && Val(t, WIDTH) * Pow2(shift) + rest == Val(a0, WIDTH)
    requires if WIDTH <= shift / 32 then Val(t, WIDTH) == 0 else 0 <= rest < Pow2(shift)
    ensures Val(t, WIDTH) == Val(a0, WIDTH) / Pow2(shift)
  {
    hide Limb, Val, Pow2;
    ValBound(a0, WIDTH);
    if WIDTH <= shift / 32 {
      LimbIsPow2(WIDTH);
      Pow2Monotone(32 * WIDTH, shift);
    }
    DivideExactly(Val(a0, WIDTH), Pow2(shift), Val(t, WIDTH), rest);
  }

  // ---------------------------------------------------------------------------
  // Counting bits
  // ---------------------------------------------------------------------------

  /** The position of the highest set bit plus one, or zero for zero. */
  ghost predicate IsBits(v: nat, n: nat) {
    if n == 0 then v == 0 else Pow2(n - 1) <= v < Pow2(n)
  }

  lemma NoBits()
    ensures IsBits(0, 0)
  {
  }

  lemma BitIsSet(w: Word, b: nat)
    requires w < Pow2(b + 1)
    ensures w / Pow2(b) % 2 == 1 <==> w >= Pow2(b)
  {
    Pow2Step(b + 1);
    hide Pow2;
    if w >= Pow2(b) {
      DivideExactly(w, Pow2(b), 1, w - Pow2(b));
    } else {
      DivideExactly(w, Pow2(b), 0, w);
    }
  }

  lemma TopBit(s: seq<Word>, pos: nat, b: nat)
    requires |s| == WIDTH && pos < WIDTH && forall k :: pos < k < WIDTH ==> s[k] == 0
    requires b < 32 && s[pos] < Pow2(b + 1) && (b > 0 ==> s[pos] >= Pow2(b)) && s[pos] != 0
    ensures IsBits(Val(s, WIDTH), 32 * pos + b + 1)
  {
    Pow2Zero();
    hide Limb, Val, Pow2;
    assert s[pos] >= Pow2(b);
    var t := seq(WIDTH, k => 0);
    ValTail(s, t, pos + 1, WIDTH);
    ZeroVal(t, pos + 1);
    ZeroVal(t, WIDTH);
    ValStep(s, pos);
    ValBound(s, pos);
    LimbIsPow2(pos);
    Pow2Add(b, 32 * pos);
    Pow2Add(b + 1, 32 * pos);
    MulMonotone(Pow2(b), s[pos], Limb(pos));
    MulMonotone(s[pos] as int + 1, Pow2(b + 1), Limb(pos));
    Distribute(s[pos], 1, Limb(pos));
  }

  // ---------------------------------------------------------------------------
  // Long division
  // ---------------------------------------------------------------------------

  /** The lowest n bits are zero. */
  ghost predicate LowBitsClear(s: seq<Word>, n: nat) {
    && (forall k :: 0 <= k < |s| && 32 * (k + 1) <= n ==> s[k] == 0)
    && (n / 32 < |s| ==> s[n / 32] % Pow2(n % 32) == 0)
  }

  lemma ClearIsClear(s: seq<Word>, n: nat)
    requires forall k :: 0 <= k < |s| ==> s[k] == 0
    ensures LowBitsClear(s, n)
  {
    hide Pow2;
    DivideExactly(0, Pow2(n % 32), 0, 0);
  }

  /** Bit n is free, and no lower one is set. */
  lemma RoomForBit(s: seq<Word>, n: nat)
    requires |s| == WIDTH && n < 32 * WIDTH && LowBitsClear(s, n + 1)
    ensures Or(s[n / 32], Pow2(n % 32)) == s[n / 32] + Pow2(n % 32) < BASE
    ensures (s[n / 32] + Pow2(n % 32)) % Pow2(n % 32) == 0 && s[n / 32] % Pow2(n % 32) == 0
    ensures forall k :: 0 <= k < n / 32 ==> s[k] == 0
  {
    hide Pow2, Or;
    var w, b := n / 32, n % 32;
    assert s[w] % Pow2(b + 1) == 0 by {
      if b == 31 { DivideExactly(0, Pow2(b + 1), 0, 0); }
    }
    WordRoom(s[w], b);
  }

  lemma WordRoom(a: Word, b: nat)
    requires b < 32 && a % Pow2(b + 1) == 0
    ensures Or(a, Pow2(b)) == a + Pow2(b) < BASE && (a + Pow2(b)) % Pow2(b) == 0 && a % Pow2(b) == 0
  {
    Pow2Step(b + 1);
    hide Pow2, Or;
    OrAdds(a, Pow2(b), b + 1);
    Pow2Of32();
    Pow2Add(b + 1, 31 - b);
    MultipleBelow(a, Pow2(b + 1), Pow2(31 - b));
    HalvedMultiple(a, Pow2(b));
  }

  lemma MultipleBelow(a: nat, p: nat, c: nat)
    requires p > 0 && a % p == 0 && a < p * c
    ensures a <= p * c - p
  {
    var q := a / p;
    if q >= c { MulMonotone(c, q, p); }
    MulMonotone(q, c - 1, p);
    Distribute(c, -1, p);
  }

  lemma HalvedMultiple(a: nat, p: nat)
    requires p > 0 && a % (2 * p) == 0
    ensures a % p == 0 && (a + p) % p == 0
  {
    var q := a / (2 * p);
    MulRegroup(q, 2, p);
    DivideExactly(a, p, q * 2, 0);
    Distribute(q * 2, 1, p);
    DivideExactly(a + p, p, q * 2 + 1, 0);
  }

  lemma LessClear(s: seq<Word>, n: nat)
    requires |s| == WIDTH && n < 32 * WIDTH && LowBitsClear(s, n + 1)
    ensures LowBitsClear(s, n)
  {
    hide Pow2, Or;
    RoomForBit(s, n);
  }

  lemma BitsCompare(n: nat, nb: nat, d: nat, db: nat)
    requires IsBits(n, nb) && IsBits(d, db)
    ensures db == 0 <==> d == 0
    ensures db > nb ==> n / d == 0
  {
    if db > nb {
      Pow2Monotone(nb, db - 1);
      Pow2Zero();
      hide Pow2;
      DivideExactly(n, d, 0, n);
    }
  }

  /** After the shift the divisor lines up with the number: it fits, and twice it is larger. */
  lemma Align(n: nat, nb: nat, d: nat, db: nat)
    requires IsBits(n, nb) && IsBits(d, db) && 0 < db <= nb <= 32 * WIDTH
    ensures Dividing(n, d, n, 0, d * Pow2(nb - db) % Limb(WIDTH), nb - db)
  {
    hide Pow2, Limb;
    Pow2Add(db - 1, nb - db + 1);
    MulMonotone(Pow2(db - 1), d, Pow2(nb - db + 1));
    Pow2Add(db, nb - db);
    MulMonotone(d, Pow2(db), Pow2(nb - db));
    if d * Pow2(nb - db) >= Pow2(nb) { MulMonotone(d + 1, Pow2(db), Pow2(nb - db)); Distribute(d, 1, Pow2(nb - db)); }
    Pow2Monotone(nb, 32 * WIDTH);
    LimbIsPow2(WIDTH);
    DivideExactly(d * Pow2(nb - db), Limb(WIDTH), 0, d * Pow2(nb - db));
  }

  /**
   The state of the long division before the bits from shift down are decided: r is the remainder
   so far, q the quotient, and v the shifted divisor.
   */
  ghost predicate Dividing(n: nat, d: nat, r: nat, q: nat, v: nat, shift: int)
    requires shift >= -1
  {
    r + q * d == n && r < d * Pow2(shift + 1) && (shift >= 0 ==> v == d * Pow2(shift))
  }

  lemma DivideStep(n: nat, d: nat, r: nat, q: nat, v: nat, shift: nat)
    requires Dividing(n, d, r, q, v, shift)
    ensures r >= v ==> Dividing(n, d, r - v, q + Pow2(shift), v / Pow2(1), shift - 1)
    ensures r < v ==> Dividing(n, d, r, q, v / Pow2(1), shift - 1)
  {
    Pow2Step(shift + 1);
    hide Pow2;
    HalfStep(d, v, shift);
    DivideRound(n, d, r, q, Pow2(shift));
  }

  lemma DivideRound(n: nat, d: nat, r: nat, q: nat, p: nat)
    requires r + q * d == n && r < d * (2 * p)
    ensures r - d * p + (q + p) * d == n && r - d * p < d * p
  {
    Distribute(q, p, d);
    assert d * (2 * p) == 2 * (d * p);
  }

  lemma HalfStep(d: nat, v: nat, shift: nat)
    requires v == d * Pow2(shift)
    ensures v / Pow2(1) >= 0 && (shift > 0 ==> v / Pow2(1) == d * Pow2(shift - 1))
  {
    Pow2Step(shift);
    assert Pow2(1) == 2;
    if shift > 0 {
      hide Pow2;
      assert d * (2 * Pow2(shift - 1)) == d * Pow2(shift - 1) * 2;
      DivideExactly(v, 2, d * Pow2(shift - 1), 0);
    }
  }

  lemma DivideDone(n: nat, d: nat, r: nat, q: nat, v: nat)
    requires Dividing(n, d, r, q, v, -1) && d > 0
    ensures q == n / d
  {
    Pow2Zero();
    hide Pow2;
    DivideExactly(n, d, q, r);
  }

  // ---------------------------------------------------------------------------
  // Multiplication
  // ---------------------------------------------------------------------------

  /** What the limbs below i + j stand for after i limbs of a row, carry included. */
  ghost function RowSum(u: seq<Word>, b0: seq<Word>, w: Word, i: nat, j: nat): int
    requires i <= |b0| && i + j <= |u|
  {
    Val(u, i + j) + w * Val(b0, i) * Limb(j)
  }

  /** One product of two words with two words added: it fits 64 bits. */
  function MultiplyAdd(w: Word, x: Word, y: Word, carry: nat): (n: nat)
    requires carry < BASE
    ensures n < UINT64 && n / BASE < BASE && n == carry + (y as int + w as int * x)
    ensures x == 0 && y == 0 && carry == 0 ==> n == 0
  {
    WordProduct(w, x, carry + y);
    carry + y + w as int * x
  }

  lemma RowStart(u: seq<Word>, b0: seq<Word>, w: Word, j: nat)
    requires j <= |u|
    ensures RowSum(u, b0, w, 0, j) == Val(u, j)
  {
  }

  lemma RowEnd(u: seq<Word>, b0: seq<Word>, w: Word, j: nat)
    requires |u| == |b0| == WIDTH && j <= WIDTH
    ensures RowSum(u, b0, w, WIDTH - j, j) == Val(u, WIDTH) + w * Val(b0, WIDTH - j) * Limb(j)
  {
  }

  lemma RowStep(s: seq<Word>, t: seq<Word>, u: seq<Word>, b0: seq<Word>, w: Word, i: nat, j: nat, carry: nat)
    requires i < |b0| && i + j < |u| == |s| == |t| && carry < BASE
    requires (forall k :: 0 <= k < i + j ==> s[k] == t[k]) && t[i + j] == MultiplyAdd(w, b0[i], u[i + j], carry) % BASE
    requires Val(s, i + j) + carry * Limb(i + j) == RowSum(u, b0, w, i, j)
    ensures Val(t, i + j + 1) + MultiplyAdd(w, b0[i], u[i + j], carry) / BASE * Limb(i + j + 1) == RowSum(u, b0, w, i + 1, j)
  {
    hide Limb, Val, MultiplyAdd;
    var y: int := u[i + j] as int + w as int * b0[i];
    assert MultiplyAdd(w, b0[i], u[i + j], carry) == carry + y;
    CarryStep(s, t, i + j, carry, y, RowSum(u, b0, w, i, j));
    ValStep(u, i + j);
    ValStep(b0, i);
    LimbAdd(i, j);
    RowTerm(w, Val(b0, i), b0[i], Limb(i), Limb(j));
    Distribute(u[i + j], w as int * b0[i], Limb(i + j));
  }

  lemma RowTerm(w: int, v: int, x: int, li: int, lj: int)
    ensures w * (v + x * li) * lj == w * v * lj + w * x * (li * lj)
  {
    assert w * (v + x * li) == w * v + w * x * li;
    Distribute(w * v, w * x * li, lj);
    MulRegroup(w * x, li, lj);
  }

  lemma RowAdded(u: seq<Word>, t: seq<Word>, a0: seq<Word>, b0: seq<Word>, j: nat, carry: int, lost: int)
    returns (lost': int)
    requires |u| == |t| == |a0| == |b0| == WIDTH && j < WIDTH
    requires Val(u, WIDTH) + lost * Limb(WIDTH) == Val(a0, j) * Val(b0, WIDTH)
    requires Val(t, WIDTH) + carry * Limb(WIDTH) == Val(u, WIDTH) + a0[j] * Val(b0, WIDTH - j) * Limb(j)
    ensures Val(t, WIDTH) + lost' * Limb(WIDTH) == Val(a0, j + 1) * Val(b0, WIDTH)
  {
    hide Limb, Val;
    var high := HighPart(b0, WIDTH - j);
    ValStep(a0, j);
    LimbAdd(WIDTH - j, j);
    lost' := lost + carry + a0[j] * high;
    RowTotal(Val(u, WIDTH), Val(t, WIDTH), lost, carry, Val(a0, j), a0[j], Limb(j), Val(b0, WIDTH - j), high, Limb(WIDTH - j));
  }

  lemma RowTotal(vu: int, vt: int, lost: int, carry: int, v: int, w: int, lj: int, low: int, high: int, l: int)
    requires vu + lost * (l * lj) == v * (low + high * l) && vt + carry * (l * lj) == vu + w * low * lj
    ensures vt + (lost + carry + w * high) * (l * lj) == (v + w * lj) * (low + high * l)
  {
    var m := l * lj;
    Distribute(lost + carry, w * high, m);
    Distribute(lost, carry, m);
    Distribute(v, w * lj, low + high * l);
    RowTerm(lj, low, high, l, w);
    assert w * lj * (low + high * l) == w * low * lj + w * high * m by {
      assert w * lj * (low + high * l) == lj * (low + high * l) * w;
      assert lj * low * w == w * low * lj;
      assert lj * high * (l * w) == w * high * (l * lj);
    }
  }

  /** The limbs from n on, as a multiple of their lowest weight. */
  lemma {:induction false} HighPart(s: seq<Word>, n: nat) returns (high: nat)
    requires |s| == WIDTH && n <= WIDTH
    ensures Val(s, WIDTH) == Val(s, n) + high * Limb(n)
    decreases WIDTH - n
  {
    hide Limb, Val;
    if n == WIDTH {
      high := 0;
    } else {
      var h := HighPart(s, n + 1);
      ValStep(s, n);
      high := s[n] + h * BASE;
      MulRegroup(h, BASE, Limb(n));
      Distribute(s[n], h * BASE, Limb(n));
    }
  }
}

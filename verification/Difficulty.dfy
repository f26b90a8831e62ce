/**
 Compact targets, block proof and the retarget rule: SetCompact and GetCompact of
 src/arith_uint256.cpp, GetBlockProof of src/chain.cpp and CalculateDogecoinNextWorkRequired of
 src/dogecoin.cpp, on the limb arithmetic of ArithUint256.
 */
module Difficulty {
  import opened IntMath
  import opened Limbs
  import opened ArithUint256

  const WORD_BITS := 0x80_0000      // the mantissa has 23 bits; the next one is the sign
  const SIZE_UNIT := 0x100_0000     // the top byte is the size

  // ---------------------------------------------------------------------------
  // The compact format
  // ---------------------------------------------------------------------------

  function SizeOf(c: nat): nat { c / SIZE_UNIT }

  function WordOf(c: nat): nat { c % WORD_BITS }

  predicate SignOf(c: nat) { c / WORD_BITS % 2 == 1 }

  /** The mantissa as far as it counts: a small size cuts off low bytes. */
  function MantissaOf(c: nat): (m: nat)
    ensures m < WORD_BITS
  {
    if SizeOf(c) <= 3 then
      DivShrinks(WordOf(c), Pow2(8 * (3 - SizeOf(c))));
      WordOf(c) / Pow2(8 * (3 - SizeOf(c)))
    else WordOf(c)
  }

  /** The number that a compact value denotes, without any limit. */
  function Decoded(c: nat): nat {
    if SizeOf(c) <= 3 then MantissaOf(c) else MantissaOf(c) * Pow2(8 * (SizeOf(c) - 3))
  }

  /** Some compact numbers. */
  lemma KnownCompacts()
    ensures Decoded(0x0112_3456) == 0x12 && Decoded(0x0212_3456) == 0x1234 && Decoded(0x0312_3456) == 0x12_3456
    ensures Decoded(0x0412_3456) == 0x1234_5600 && Decoded(0x0500_9234) == 0x9234_0000
    ensures SignOf(0x0492_3456) && Decoded(0x0492_3456) == 0x1234_5600 && SignOf(0x01fe_dcba) && Decoded(0x01fe_dcba) == 0x7e
    ensures !SignOf(0x0412_3456) && Decoded(0x1e0f_ffff) == 0xf_ffff * Pow2(216)
  {
    assert Pow2(8) == 0x100;
    Pow2Add(8, 8);
  }

  method Assign(x: Uint256, v: nat)
    requires x.Valid() && v < UINT64
    modifies x.pn
    ensures x.Value() == v
  {
    hide Limb, Val;
    x.Clear();
    x.pn[0] := v % BASE;
    x.pn[1] := v / BASE;
    LowLimbs(x.pn[..]);
  }

  /** The overflow flag is set exactly when the denoted number does not fit; otherwise the value is exact. */
  method SetCompact(x: Uint256, nCompact: Word) returns (negative: bool, overflow: bool)
    requires x.Valid()
    modifies x.pn
    ensures x.Value() == Decoded(nCompact) % Limb(WIDTH)
    ensures overflow <==> Decoded(nCompact) >= Limb(WIDTH)
    ensures negative <==> MantissaOf(nCompact) != 0 && SignOf(nCompact)
  {
    hide Limb, Val, Pow2;
    var nSize, nWord := nCompact / SIZE_UNIT, nCompact % WORD_BITS;
    CompactFits(nCompact);
    if nSize <= 3 {
      nWord := nWord / Pow2(8 * (3 - nSize));
      Assign(x, nWord);
    } else {
      Assign(x, nWord);
      x.ShiftLeftAssign(8 * (nSize - 3));
    }
    negative := nWord != 0 && nCompact / WORD_BITS % 2 == 1;
    overflow := nWord != 0 && (nSize > 34 || (nWord > 0xff && nSize > 33) || (nWord > 0xffff && nSize > 32));
  }

  /** The size limits in the overflow test are exact. */
  lemma CompactFits(c: Word)
    ensures Decoded(c) >= Limb(WIDTH) <==>
      var m, n := MantissaOf(c), SizeOf(c);
      m != 0 && (n > 34 || (m > 0xff && n > 33) || (m > 0xffff && n > 32))
    ensures SizeOf(c) <= 3 ==> Decoded(c) % Limb(WIDTH) == Decoded(c)
  {
    hide Limb, Pow2;
    var m, n := MantissaOf(c), SizeOf(c);
    LimbIsPow2(WIDTH);
    if n <= 3 {
      SmallFits(m);
    } else {
      ScaledFits(m, n);
    }
  }

  lemma SmallFits(m: nat)
    requires m <= WORD_BITS
    ensures m < Limb(WIDTH) && m % Limb(WIDTH) == m
  {
    hide Limb, Pow2;
    LimbIsPow2(WIDTH);
    SmallPowers();
    Pow2Monotone(24, 32 * WIDTH);
    DivideExactly(m, Limb(WIDTH), 0, m);
  }

  lemma SmallPowers()
    ensures Pow2(0) == 1 && Pow2(1) == 2 && Pow2(7) == 0x80 && Pow2(8) == 0x100 && Pow2(15) == 0x8000 && Pow2(16) == 0x10000
    ensures Pow2(23) == WORD_BITS && Pow2(24) == SIZE_UNIT
  {
    assert Pow2(8) == 256;
    Pow2Add(8, 8);
    Pow2Add(8, 16);
    Pow2Step(24);
    Pow2Step(16);
  }

  lemma ScaledFits(m: nat, n: nat)
    requires m < WORD_BITS && n > 3
    ensures m * Pow2(8 * (n - 3)) >= Limb(WIDTH) <==>
      m != 0 && (n > 34 || (m > 0xff && n > 33) || (m > 0xffff && n > 32))
  {
    hide Limb, Pow2;
    LimbIsPow2(WIDTH);
    SmallPowers();
    var shift := 8 * (n - 3);
    if n > 34 {
      Pow2Monotone(256, shift);
      if m != 0 { MulMonotone(1, m, Pow2(shift)); }
    } else if n == 34 {
      FitsBelow(m, 8, shift);
    } else if n == 33 {
      FitsBelow(m, 16, shift);
    } else {
      FitsBelow(m, 24, 232);
      Pow2Monotone(shift, 232);
      assert m * Pow2(shift) <= m * Pow2(232) by { MulMonotone(Pow2(shift), Pow2(232), m); }
    }
  }

  lemma FitsBelow(m: nat, room: nat, shift: nat)
    requires room + shift == 256
    ensures m * Pow2(shift) >= Limb(WIDTH) <==> m >= Pow2(room)
  {
    hide Limb, Pow2;
    LimbIsPow2(WIDTH);
    Pow2Add(room, shift);
    if m >= Pow2(room) {
      MulMonotone(Pow2(room), m, Pow2(shift));
    } else {
      MulMonotone(m + 1, Pow2(room), Pow2(shift));
      Distribute(m, 1, Pow2(shift));
    }
  }

  // ---------------------------------------------------------------------------
  // Rounding
  // ---------------------------------------------------------------------------

  /** Bytes that the compact form of a number with n bits drops. */
  function Dropped(n: nat): nat { if n / 8 <= 2 then 0 else n / 8 - 2 }

  /** What is left of a number with n bits in compact form: low bytes become zero. */
  function Rounded(v: nat, n: nat): nat { v / Pow2(8 * Dropped(n)) * Pow2(8 * Dropped(n)) }

  /** Rounding only lowers a number, by less than a 2^-15 part. */
  lemma RoundingLoss(v: nat, n: nat)
    requires IsBits(v, n)
    ensures Rounded(v, n) <= v && (v > 0 ==> (v - Rounded(v, n)) * 0x8000 < v)
    ensures n <= 23 ==> Rounded(v, n) == v
  {
    SmallPowers();
    hide Pow2;
    var e := 8 * Dropped(n);
    assert v == Rounded(v, n) + v % Pow2(e);
    if v > 0 && e > 0 {
      Pow2Add(e, 15);
      Pow2Monotone(e + 15, n - 1);
      MulMonotone(v % Pow2(e), Pow2(e) - 1, 0x8000);
    }
  }

  /** A larger number rounds to no less. */
  lemma RoundingIsMonotone(v: nat, n: nat, w: nat, k: nat)
    requires IsBits(v, n) && IsBits(w, k) && v <= w
    ensures Rounded(v, n) <= Rounded(w, k)
  {
    hide Pow2;
    RoundingLoss(v, n);
    MoreBits(v, n, w, k);
    var e := 8 * Dropped(k);
    if Dropped(n) == Dropped(k) {
      QuotientMonotone(v, w, Pow2(e));
      MulMonotone(v / Pow2(e), w / Pow2(e), Pow2(e));
    } else {
      Pow2Monotone(n, k - 1);
      TopBitStays(w, k);
    }
  }

  lemma MoreBits(v: nat, n: nat, w: nat, k: nat)
    requires IsBits(v, n) && IsBits(w, k) && v <= w
    ensures n <= k
  {
    if n > k { Pow2Monotone(k, n - 1); }
  }

  lemma QuotientMonotone(v: nat, w: nat, p: nat)
    requires v <= w && p > 0
    ensures v / p <= w / p
  {
    if v / p > w / p { MulMonotone(w / p + 1, v / p, p); Distribute(w / p, 1, p); }
  }

  lemma TopBitStays(w: nat, k: nat)
    requires IsBits(w, k) && k > 0
    ensures Pow2(k - 1) <= Rounded(w, k) <= w
  {
    hide Pow2;
    var e := 8 * Dropped(k);
    assert e <= k - 1;
    Pow2Add(k - 1 - e, e);
    ScaleDown(w, k, e);
    MulMonotone(Pow2(k - 1 - e), w / Pow2(e), Pow2(e));
    assert w == Rounded(w, k) + w % Pow2(e);
  }

  /** A rounded number survives the compact form unchanged. */
  lemma RoundingIsIdempotent(v: nat, n: nat)
    requires IsBits(v, n)
    ensures IsBits(Rounded(v, n), n) && Rounded(Rounded(v, n), n) == Rounded(v, n)
  {
    hide Pow2;
    var p := Pow2(8 * Dropped(n));
    if n == 0 {
      DivideExactly(0, p, 0, 0);
    } else {
      TopBitStays(v, n);
    }
    DivideExactly(v / p * p, p, v / p, 0);
  }

  // ---------------------------------------------------------------------------
  // Encoding
  // ---------------------------------------------------------------------------

  method GetLow64(x: Uint256) returns (r: nat)
    requires x.Valid()
    ensures r == x.Value() % UINT64
  {
    hide Limb, Val, Or;
    ghost var high := LowAndHigh(x.pn[..]);
    DivideExactly(x.pn[1] * BASE, BASE, x.pn[1], 0);
    Pow2Of32();
    OrAdds(x.pn[1] * BASE, x.pn[0], 32);
    r := Or(x.pn[0], x.pn[1] * BASE);
    DivideExactly(x.Value(), UINT64, high, r);
  }

  lemma LowAndHigh(s: seq<Word>) returns (high: nat)
    requires |s| == WIDTH
    ensures Val(s, WIDTH) == s[0] + s[1] * BASE + high * UINT64
  {
    EmptyVal(s);
    ValStep(s, 0);
    ValStep(s, 1);
    assert Limb(2) == UINT64;
    hide Limb, Val;
    high := HighPart(s, 2);
  }

  /** The result denotes the number rounded; the sign bit is free for the sign. */
  method GetCompact(x: Uint256, fNegative: bool) returns (c: Word)
    requires x.Valid()
    ensures forall n :: IsBits(x.Value(), n) ==> Decoded(c) == Rounded(x.Value(), n)
    ensures SignOf(c) <==> fNegative && WordOf(c) != 0
  {
    hide Limb, Val, Pow2, IsBits, Rounded, Decoded, Or, TopBytes, SizeOf, WordOf, SignOf;
    var bits := x.Bits();
    ghost var v := x.Value();
    SameBits(v, bits);
    var nSize := (bits + 7) / 8;
    MantissaIsSmall(v, bits);
    var nCompact: nat;
    if nSize <= 3 {
      var low := GetLow64(x);
      nCompact := low * Pow2(8 * (3 - nSize)) % BASE;
    } else {
      var bn := new Uint256.Copy(x);
      bn.ShiftRightAssign(8 * (nSize - 3));
      var low := GetLow64(bn);
      nCompact := low % BASE;
    }
    assert nCompact == TopBytes(v, nSize) by { TopBytesOf(v, nSize); }
    Normalised(v, bits);
    if nCompact / WORD_BITS % 2 == 1 {
      nCompact := nCompact / 256;
      nSize := nSize + 1;
    }
    assert nCompact < WORD_BITS;
    assert nSize < 256;
    c := Pack(nSize, nCompact, fNegative);
    DecodesRounded(c, v, bits);
  }

  lemma {:induction false} SameBits(v: nat, n: nat)
    requires IsBits(v, n)
    ensures forall k :: IsBits(v, k) ==> k == n
  {
    forall k | IsBits(v, k) ensures k == n {
      MoreBits(v, k, v, n);
      MoreBits(v, n, v, k);
    }
  }

  /** The three highest bytes of an n-byte number. */
  function TopBytes(v: nat, n: nat): int {
    if n <= 3 then v * Pow2(8 * (3 - n)) else v / Pow2(8 * (n - 3))
  }

  lemma MantissaIsSmall(v: nat, bits: nat)
    requires IsBits(v, bits)
    ensures var n := (bits + 7) / 8;
      && 0 <= TopBytes(v, n) < SIZE_UNIT < BASE
      && (n <= 3 ==> v % UINT64 == v && TopBytes(v, n) % BASE == TopBytes(v, n))
      && (n > 3 ==> TopBytes(v, n) % UINT64 == TopBytes(v, n) && TopBytes(v, n) % BASE == TopBytes(v, n))
  {
    SmallPowers();
    hide Pow2, TopBytes, IsBits;
    var n := (bits + 7) / 8;
    TopBytesRange(v, bits);
    if bits > 0 { Pow2Monotone(bits + 24 - 8 * n, 24); }
    FitsWord(TopBytes(v, n));
    if n <= 3 {
      BitsBelow(v, bits, 24);
      FitsWord(v);
    }
  }

  lemma FitsWord(m: nat)
    requires m < SIZE_UNIT
    ensures m % UINT64 == m && m % BASE == m
  {
  }

  lemma BitsBelow(v: nat, bits: nat, k: nat)
    requires IsBits(v, bits) && bits <= k
    ensures v < Pow2(k)
  {
    Pow2Monotone(bits, k);
  }

  /** Size and mantissa after the sign bit is freed. */
  function FinalSize(bits: nat): nat { if bits == 0 then 0 else bits / 8 + 1 }

  function FinalWord(v: nat, bits: nat): int {
    var n := (bits + 7) / 8;
    if bits % 8 == 0 && bits > 0 then TopBytes(v, n) / 256 else TopBytes(v, n)
  }

  lemma TopBytesOf(v: nat, n: nat)
    ensures TopBytes(v, n) == if n <= 3 then v * Pow2(8 * (3 - n)) else v / Pow2(8 * (n - 3))
  {
  }

  /** The sign position is taken exactly when the number fills its bytes. */
  lemma Normalised(v: nat, bits: nat)
    requires IsBits(v, bits) && bits <= 32 * WIDTH
    ensures var n := (bits + 7) / 8;
      && (TopBytes(v, n) / WORD_BITS % 2 == 1 <==> bits % 8 == 0 && bits > 0)
      && 0 <= FinalWord(v, bits) < WORD_BITS
      && FinalSize(bits) == (if bits % 8 == 0 && bits > 0 then n + 1 else n) < 256
  {
    hide Pow2, TopBytes, IsBits;
    var n := (bits + 7) / 8;
    MantissaIsSmall(v, bits);
    TopBytesRange(v, bits);
    SmallPowers();
    var m := TopBytes(v, n);
    if bits == 8 * n && bits > 0 {
      DivideExactly(m, WORD_BITS, 1, m - WORD_BITS);
    } else {
      if bits > 0 { Pow2Monotone(bits + 24 - 8 * n, 23); }
      DivideExactly(m, WORD_BITS, 0, m);
    }
  }

  lemma TopBytesRange(v: nat, bits: nat)
    requires IsBits(v, bits)
    ensures var n := (bits + 7) / 8;
      if bits == 0 then TopBytes(v, n) == 0 else Pow2(bits - 1 + 24 - 8 * n) <= TopBytes(v, n) < Pow2(bits + 24 - 8 * n)
  {
    hide Pow2;
    var n := (bits + 7) / 8;
    if bits == 0 {
      assert 0 * Pow2(24) == 0;
    } else if n <= 3 {
      ScaleUp(v, bits, 8 * (3 - n));
    } else {
      ScaleDown(v, bits, 8 * (n - 3));
    }
  }

  lemma ScaleUp(v: nat, bits: nat, e: nat)
    requires bits > 0 && IsBits(v, bits)
    ensures Pow2(bits - 1 + e) <= v * Pow2(e) < Pow2(bits + e)
  {
    hide Pow2;
    Pow2Add(bits - 1, e);
    Pow2Add(bits, e);
    MulMonotone(Pow2(bits - 1), v, Pow2(e));
    MulMonotone(v + 1, Pow2(bits), Pow2(e));
    Distribute(v, 1, Pow2(e));
  }

  lemma ScaleDown(v: nat, bits: nat, e: nat)
    requires bits > e && IsBits(v, bits)
    ensures Pow2(bits - 1 - e) <= v / Pow2(e) < Pow2(bits - e)
  {
    hide Pow2;
    Pow2Add(bits - 1 - e, e);
    Pow2Add(bits - e, e);
    QuotientBounds(v, Pow2(bits - 1 - e), Pow2(bits - e), Pow2(e));
  }

  lemma QuotientBounds(v: nat, lo: nat, hi: nat, p: nat)
    requires p > 0 && lo * p <= v < hi * p
    ensures lo <= v / p < hi
  {
    if v / p < lo { MulMonotone(v / p + 1, lo, p); Distribute(v / p, 1, p); }
    if v / p >= hi { MulMonotone(hi, v / p, p); }
  }

  /** Puts size, mantissa and sign together. */
  method Pack(nSize: nat, nWord: nat, fNegative: bool) returns (c: Word)
    requires nSize < 256 && nWord < WORD_BITS
    ensures SizeOf(c) == nSize && WordOf(c) == nWord && (SignOf(c) <==> fNegative && nWord != 0)
  {
    SmallPowers();
    hide Pow2, Or, SizeOf, WordOf, SignOf;
    DivideExactly(nSize * SIZE_UNIT, SIZE_UNIT, nSize, 0);
    OrAdds(nSize * SIZE_UNIT, nWord, 24);
    PackedParts(nSize, nWord, false);
    c := Or(nWord, nSize * SIZE_UNIT);
    if fNegative && c % WORD_BITS != 0 {
      OrBit(c, 23);
      PackedParts(nSize, nWord, true);
      c := Or(c, WORD_BITS);
    }
  }

  lemma PackedParts(nSize: nat, nWord: nat, sign: bool)
    requires nSize < 256 && nWord < WORD_BITS
    ensures var c := nSize * SIZE_UNIT + nWord + if sign then WORD_BITS else 0;
      && c < BASE && SizeOf(c) == nSize && WordOf(c) == nWord == c % WORD_BITS && SignOf(c) == sign
      && (!sign ==> c / WORD_BITS % 2 == 0)
  {
    var bit := if sign then 1 else 0;
    var c := nSize * SIZE_UNIT + nWord + bit * WORD_BITS;
    DivideExactly(c, SIZE_UNIT, nSize, nWord + bit * WORD_BITS);
    DivideExactly(c, WORD_BITS, 2 * nSize + bit, nWord);
  }

  lemma {:induction false} OrBit(x: nat, k: nat)
    requires x / Pow2(k) % 2 == 0
    ensures Or(x, Pow2(k)) == x + Pow2(k)
    decreases k
  {
    if x == 0 || k == 0 {
    } else {
      HalfQuotient(x, Pow2(k - 1));
      OrBit(x / 2, k - 1);
    }
  }

  lemma HalfQuotient(x: nat, p: nat)
    requires p > 0
    ensures x / 2 / p == x / (2 * p)
  {
    var q, r := x / (2 * p), x % (2 * p);
    assert q * (2 * p) == 2 * (q * p);
    DivideExactly(x / 2, p, q, r / 2);
  }

  lemma DecodesRounded(c: nat, v: nat, bits: nat)
    requires IsBits(v, bits) && SizeOf(c) == FinalSize(bits) && WordOf(c) == FinalWord(v, bits)
    ensures Decoded(c) == Rounded(v, bits)
  {
    hide Pow2, TopBytes, SizeOf, WordOf, IsBits;
    var n, k := (bits + 7) / 8, FinalSize(bits);
    SmallPowers();
    TopBytesOf(v, n);
    if k <= 3 {
      SmallDecodes(v, bits);
      DivideExactly(v, 1, v, 0);
    } else if bits % 8 == 0 {
      DivideTwice(v, Pow2(8 * (n - 3)), 256);
      Pow2Add(8 * (n - 3), 8);
    }
  }

  lemma DivideTwice(v: nat, p: nat, q: nat)
    requires p > 0 && q > 0
    ensures p * q > 0 && v / p / q == v / (p * q)
  {
    var a, b := v / p, v / p / q;
    var r := (a % q) * p + v % p;
    assert v == b * (p * q) + r by {
      assert a == b * q + a % q;
      Distribute(b * q, a % q, p);
      assert b * q * p == b * (p * q);
    }
    MulMonotone(a % q, q - 1, p);
    Distribute(q, -1, p);
    DivideExactly(v, p * q, b, r);
  }

  lemma SmallDecodes(v: nat, bits: nat)
    requires IsBits(v, bits) && FinalSize(bits) <= 3
    ensures FinalWord(v, bits) / Pow2(8 * (3 - FinalSize(bits))) == v
  {
    SmallPowers();
    hide Pow2;
    var n, k := (bits + 7) / 8, FinalSize(bits);
    TopBytesOf(v, n);
    if bits % 8 == 0 && bits > 0 {
      Pow2Add(8 * (3 - k), 8);
      MulRegroup(v, Pow2(8 * (3 - k)), 256);
      DivideExactly(TopBytes(v, n), 256, v * Pow2(8 * (3 - k)), 0);
    }
    DivideExactly(v * Pow2(8 * (3 - k)), Pow2(8 * (3 - k)), v, 0);
  }

  // ---------------------------------------------------------------------------
  // The work of a block
  // ---------------------------------------------------------------------------

  method EqualTo(x: Uint256, b: nat) returns (equal: bool)
    requires x.Valid() && b < UINT64
    ensures equal == (x.Value() == b)
  {
    hide Limb, Val;
    ghost var high := LowAndHigh(x.pn[..]);
    var i := WIDTH;
    while i > 2
      invariant 2 <= i <= WIDTH && forall k :: i <= k < WIDTH ==> x.pn[k] == 0
    {
      i := i - 1;
      if x.pn[i] != 0 {
        HighLimbWeighs(x.pn[..], i);
        return false;
      }
    }
    LowLimbs(x.pn[..]);
    if x.pn[1] != b / BASE { return false; }
    if x.pn[0] != b % BASE { return false; }
    return true;
  }

  lemma HighLimbWeighs(s: seq<Word>, i: nat)
    requires |s| == WIDTH && 2 <= i < WIDTH && s[i] != 0
    ensures Val(s, WIDTH) >= UINT64
  {
    assert Limb(2) == UINT64;
    hide Limb, Val;
    var high := HighPart(s, i + 1);
    ValStep(s, i);
    LimbAdd(i - 2, 2);
    MulMonotone(1, Limb(i - 2), UINT64);
    MulMonotone(1, s[i], Limb(i));
    MulMonotone(0, high, Limb(i + 1));
    assert 0 * Limb(i + 1) == 0;
  }

  ghost predicate ValidTarget(nBits: Word) {
    !(MantissaOf(nBits) != 0 && SignOf(nBits)) && 0 < Decoded(nBits) < Limb(WIDTH)
  }

  /** The expected number of hashes: exactly floor(2^256 / (target + 1)), computed without 2^256. */
  method GetBlockProof(nBits: Word) returns (r: Uint256)
    ensures r.Valid() && fresh(r) && fresh(r.pn)
    ensures r.Value() == if ValidTarget(nBits) then Limb(WIDTH) / (Decoded(nBits) + 1) else 0
  {
    hide Limb, Val, Decoded, MantissaOf, SignOf;
    var bnTarget := new Uint256();
    var fNegative, fOverflow := SetCompact(bnTarget, nBits);
    var isZero := EqualTo(bnTarget, 0);
    ghost var t := bnTarget.Value();
    SmallModulo(Decoded(nBits), Limb(WIDTH));
    if fNegative || fOverflow || isZero {
      r := new Uint256();
      return;
    }
    ProofArithmetic(nBits);
    r := bnTarget.Complement();
    var one := new Uint256.FromUint64(1);
    bnTarget.AddAssign(one);
    var ok := r.DivAssign(bnTarget);
    assert ok;
    r.AddAssign(one);
  }

  lemma SmallModulo(x: nat, m: nat)
    requires m > 0
    ensures x < m ==> x % m == x
  {
    if x < m { DivideExactly(x, m, 0, x); }
  }

  /** A compact target is never all ones, so target + 1 does not wrap; neither does the final + 1. */
  lemma ProofArithmetic(nBits: Word)
    requires 0 < Decoded(nBits) < Limb(WIDTH)
    ensures var t, m := Decoded(nBits), Limb(WIDTH);
      && (t + 1) % m == t + 1
      && (m - 1 - t) / (t + 1) + 1 == m / (t + 1)
      && ((m - 1 - t) / (t + 1) + 1) % m == m / (t + 1)
  {
    hide Limb, Decoded;
    var t, m := Decoded(nBits), Limb(WIDTH);
    NotAllOnes(nBits);
    SmallModulo(t + 1, m);
    var q, r := (m - 1 - t) / (t + 1), (m - 1 - t) % (t + 1);
    Distribute(q, 1, t + 1);
    DivideExactly(m, t + 1, q + 1, r);
    MulMonotone(2, t + 1, q + 1);
    SmallModulo(q + 1, m);
  }

  lemma NotAllOnes(c: Word)
    requires Decoded(c) < Limb(WIDTH)
    ensures Decoded(c) + 1 < Limb(WIDTH)
  {
    hide Limb, Pow2, MantissaOf;
    LimbIsEven(WIDTH);
    if SizeOf(c) <= 3 {
      SmallFits(MantissaOf(c) + 1);
    } else {
      EvenPower(MantissaOf(c), 8 * (SizeOf(c) - 3));
    }
  }

  lemma LimbIsEven(i: nat)
    requires i > 0
    ensures Limb(i) % 2 == 0
  {
    assert Limb(i) == 2 * (0x8000_0000 * Limb(i - 1));
  }

  lemma EvenPower(m: nat, e: nat)
    requires e > 0
    ensures m * Pow2(e) % 2 == 0
  {
    assert m * (2 * Pow2(e - 1)) == 2 * (m * Pow2(e - 1));
  }

  // ---------------------------------------------------------------------------
  // Retargeting
  // ---------------------------------------------------------------------------

  /** Division as C++ has it: toward zero. */
  function TruncDiv(a: int, b: int): int
    requires b > 0
  {
    if a >= 0 then a / b else -(-a / b)
  }

  datatype Params = Params(retargetTimespan: nat, digishield: bool)

  function MinTimespan(p: Params, height: int): int {
    var r := p.retargetTimespan;
    if p.digishield then r - r / 4 else if height > 10000 then r / 4 else if height > 5000 then r / 8 else r / 16
  }

  function MaxTimespan(p: Params): int {
    if p.digishield then p.retargetTimespan + p.retargetTimespan / 2 else p.retargetTimespan * 4
  }

  /** The timespan after the amplitude filter and the limits. */
  function Modulated(p: Params, height: int, actual: int): (t: int)
    ensures MinTimespan(p, height) <= t <= MaxTimespan(p)
  {
    var t := if p.digishield then p.retargetTimespan + TruncDiv(actual - p.retargetTimespan, 8) else actual;
    if t < MinTimespan(p, height) then MinTimespan(p, height)
    else if t > MaxTimespan(p) then MaxTimespan(p) else t
  }

  /** The next target before it is made compact, in unbounded arithmetic. */
  function NextTarget(p: Params, height: int, old_: nat, actual: int, limit: nat): (r: int)
    requires p.retargetTimespan > 0
  {
    var r := old_ * Modulated(p, height, actual) / p.retargetTimespan;
    if r > limit then limit else r
  }

  /** The same as the code computes it: the timespan in 32 bits, the product in 256. */
  ghost function NextTarget256(p: Params, height: int, old_: nat, actual: int, limit: nat): (r: int)
    requires p.retargetTimespan > 0
  {
    var r := Product256(old_, Modulated(p, height, actual)) / p.retargetTimespan;
    if r > limit then limit else r
  }

  ghost function Product256(old_: nat, t: int): (r: nat) {
    hide Limb;
    old_ % Limb(WIDTH) * (t % BASE) % Limb(WIDTH)
  }

  method ModulateTimespan(p: Params, height: int, actual: int) returns (t: int)
    ensures t == Modulated(p, height, actual)
  {
    t := actual;
    var nMin, nMax;
    var span := p.retargetTimespan;
    if p.digishield {
      t := span + TruncDiv(t - span, 8);
      nMin, nMax := span - span / 4, span + span / 2;
    } else if height > 10000 {
      nMin, nMax := span / 4, span * 4;
    } else if height > 5000 {
      nMin, nMax := span / 8, span * 4;
    } else {
      nMin, nMax := span / 16, span * 4;
    }
    if t < nMin { t := nMin; } else if t > nMax { t := nMax; }
  }

  /** The next compact target is the next target rounded. */
  method CalculateNextWork(p: Params, height: int, nBits: Word, actual: int, limit: Uint256) returns (c: Word)
    requires limit.Valid() && 0 < p.retargetTimespan < UINT64
    ensures NextTarget256(p, height, Decoded(nBits), actual, limit.Value()) >= 0 && !SignOf(c)
    ensures forall n :: IsBits(NextTarget256(p, height, Decoded(nBits), actual, limit.Value()), n) ==>
      Decoded(c) == Rounded(NextTarget256(p, height, Decoded(nBits), actual, limit.Value()), n)
  {
    hide Limb, Val, Decoded, MantissaOf, SignOf, WordOf, SizeOf, Pow2, IsBits, Rounded, Modulated;
    var t := ModulateTimespan(p, height, actual);
    var bnNew := new Uint256();
    var negative, overflow := SetCompact(bnNew, nBits);
    bnNew.MulWordAssign(t % BASE);
    assert bnNew.Value() == Product256(Decoded(nBits), t);
    hide Product256;
    var span := new Uint256.FromUint64(p.retargetTimespan);
    var ok := bnNew.DivAssign(span);
    assert ok;
    DivShrinks(Product256(Decoded(nBits), t), p.retargetTimespan);
    var order := bnNew.CompareTo(limit);
    if order > 0 { bnNew := new Uint256.Copy(limit); }
    ghost var next := NextTarget256(p, height, Decoded(nBits), actual, limit.Value());
    assert bnNew.Value() == next;
    c := GetCompact(bnNew, false);
    assert bnNew.Value() == next == NextTarget256(p, height, Decoded(nBits), actual, limit.Value());
  }

  /** Old targets up to the limit leave room for the largest timespan. */
  ghost predicate NoWrap(p: Params, limit: nat) { limit * MaxTimespan(p) < Limb(WIDTH) }

  /** No old target up to the limit wraps, whatever time passed. */
  ghost predicate NeverWraps(p: Params, height: int, limit: nat) {
    forall old_: nat, actual: int :: old_ <= limit ==>
      Product256(old_, Modulated(p, height, actual)) == old_ * Modulated(p, height, actual)
  }

  /** The retarget products are exact if and only if the largest one is. */
  lemma NoWrapExactly(p: Params, height: int, limit: nat)
    requires limit < Limb(WIDTH) && MaxTimespan(p) < BASE
    ensures NeverWraps(p, height, limit) <==> NoWrap(p, limit)
  {
    hide Limb, Product256, Modulated, MaxTimespan;
    if NoWrap(p, limit) {
      forall old_: nat, actual: int | old_ <= limit
        ensures Product256(old_, Modulated(p, height, actual)) == old_ * Modulated(p, height, actual)
      {
        ProductIsExact(p, height, old_, actual, limit);
      }
    } else {
      var actual := LongestTime(p, height);
      WhenExact(limit, MaxTimespan(p));
      assert Product256(limit, Modulated(p, height, actual)) != limit * Modulated(p, height, actual);
    }
  }

  lemma WhenExact(old_: nat, t: int)
    requires old_ < Limb(WIDTH) && 0 <= t < BASE
    ensures Product256(old_, t) == old_ * t <==> old_ * t < Limb(WIDTH)
  {
    hide Limb;
    MulMonotone(0, t, old_);
    SmallModulo(old_, Limb(WIDTH));
    SmallModulo(t, BASE);
    SmallModulo(old_ * t, Limb(WIDTH));
  }

  lemma ProductIsExact(p: Params, height: int, old_: nat, actual: int, limit: nat)
    requires limit < Limb(WIDTH) && MaxTimespan(p) < BASE && NoWrap(p, limit) && old_ <= limit
    ensures Product256(old_, Modulated(p, height, actual)) == old_ * Modulated(p, height, actual)
  {
    hide Limb, Product256;
    var t := Modulated(p, height, actual);
    assert 0 <= t <= MaxTimespan(p);
    MulMonotone(t, MaxTimespan(p), old_);
    MulMonotone(old_, limit, MaxTimespan(p));
    WhenExact(old_, t);
  }

  /** Enough time passes to reach the largest timespan, also through the amplitude filter. */
  lemma LongestTime(p: Params, height: int) returns (actual: int)
    ensures Modulated(p, height, actual) == MaxTimespan(p)
  {
    actual := 9 * p.retargetTimespan;
  }

  /** Then the code computes the unbounded rule. */
  lemma NothingWraps(p: Params, height: int, old_: nat, actual: int, limit: nat)
    requires 0 < p.retargetTimespan && MaxTimespan(p) < BASE && NoWrap(p, limit) && old_ <= limit
    ensures NextTarget256(p, height, old_, actual, limit) == NextTarget(p, height, old_, actual, limit)
  {
    hide Limb, Product256;
    MulMonotone(1, MaxTimespan(p), limit);
    ProductIsExact(p, height, old_, actual, limit);
  }

  /** The parameters of the main and the test network, before and with Digishield. */
  lemma NetworksDoNotWrap(p: Params, height: int)
    requires p == Params(4 * 60 * 60, false) || p == Params(60, true)
    ensures NeverWraps(p, height, Pow2(236) - 1)
  {
    SmallPowers();
    hide Limb, Pow2, NeverWraps;
    LimbIsPow2(WIDTH);
    Pow2Add(16, 236);
    Pow2Monotone(252, 256);
    Pow2Monotone(236, 256);
    MulMonotone(Pow2(236) - 1, Pow2(236), MaxTimespan(p));
    MulMonotone(MaxTimespan(p), Pow2(16), Pow2(236));
    NoWrapExactly(p, height, Pow2(236) - 1);
  }

  /**
   The regression test network has a far higher limit, but from height 10 a timespan of one with
   Digishield; before, no height is a multiple of its interval.
   */
  lemma RegtestDoesNotWrap(height: int)
    ensures NeverWraps(Params(1, true), height, Pow2(255) - 1)
  {
    hide Limb, Pow2, NeverWraps;
    LimbIsPow2(WIDTH);
    Pow2Monotone(255, 256);
    NoWrapExactly(Params(1, true), height, Pow2(255) - 1);
  }

  /** More time never makes the next target harder, also after rounding. */
  lemma NextTargetIsMonotone(p: Params, height: int, old_: nat, a1: int, a2: int, limit: nat, n1: nat, n2: nat)
    requires p.retargetTimespan > 0 && a1 <= a2
    ensures 0 <= NextTarget(p, height, old_, a1, limit) <= NextTarget(p, height, old_, a2, limit) <= limit
    ensures
      var x1, x2 := NextTarget(p, height, old_, a1, limit), NextTarget(p, height, old_, a2, limit);
      IsBits(x1, n1) && IsBits(x2, n2) ==> Rounded(x1, n1) <= Rounded(x2, n2) <= limit
  {
    hide IsBits, Rounded;
    var t1, t2, r := Modulated(p, height, a1), Modulated(p, height, a2), p.retargetTimespan;
    FilterIsMonotone(p, height, a1, a2);
    MulMonotone(0, t1, old_);
    MulMonotone(t1, t2, old_);
    DivShrinks(old_ * t1, r);
    QuotientMonotone(old_ * t1, old_ * t2, r);
    var x1, x2 := NextTarget(p, height, old_, a1, limit), NextTarget(p, height, old_, a2, limit);
    if IsBits(x1, n1) && IsBits(x2, n2) {
      RoundingIsMonotone(x1, n1, x2, n2);
      RoundingLoss(x2, n2);
    }
  }

  /**
   The amplitude filter: eight seconds more or less change the timespan by one, rounded toward the
   regular timespan, within a quarter below and a half above it.
   */
  lemma FilterLaw(span: nat, height: int, actual: int)
    ensures var t := Modulated(Params(span, true), height, actual);
      && span - span / 4 <= t <= span + span / 2
      && (span <= actual ==>
            0 <= t - span && 8 * (t - span) <= actual - span && (t < span + span / 2 ==> actual - span < 8 * (t - span) + 8))
      && (actual <= span ==>
            0 <= span - t && 8 * (span - t) <= span - actual && (span - span / 4 < t ==> span - actual < 8 * (span - t) + 8))
  {
  }

  lemma FilterIsExact(span: nat, height: int, k: int)
    requires -(span / 4) <= k <= span / 2
    ensures Modulated(Params(span, true), height, span + 8 * k) == span + k
  {
  }

  /** Before Digishield nothing is filtered, and the lower limit depends on the height. */
  lemma LimitsBefore(height: int, actual: int)
    ensures var t := Modulated(Params(14400, false), height, actual);
      var least := if height > 10000 then 3600 else if height > 5000 then 1800 else 900;
      t == if actual < least then least else if actual > 57600 then 57600 else actual
  {
  }

  /** Two minutes instead of one raise the target by seven sixtieths. */
  lemma SlowBlock(height: int, old_: nat, limit: nat)
    ensures NextTarget(Params(60, true), height, old_, 120, limit) ==
      if old_ * 67 / 60 > limit then limit else old_ * 67 / 60
  {
    FilterLaw(60, height, 120);
  }

  lemma FilterIsMonotone(p: Params, height: int, a1: int, a2: int)
    requires a1 <= a2
    ensures 0 <= Modulated(p, height, a1) <= Modulated(p, height, a2)
  {
  }

  /** Digishield moves the target by at most a quarter down and a half up in one block. */
  lemma DigishieldBounds(p: Params, height: int, old_: nat, actual: int)
    requires p.retargetTimespan > 0 && p.digishield
    ensures var x := old_ * Modulated(p, height, actual) / p.retargetTimespan;
      3 * old_ - 4 < 4 * x && 2 * x <= 3 * old_
  {
    var t, r := Modulated(p, height, actual), p.retargetTimespan;
    MulMonotone(3 * r, 4 * t, old_);
    MulMonotone(2 * t, 3 * r, old_);
    TimesTarget(old_, t, r);
    QuotientBetween(old_ * t, old_, r);
  }

  lemma QuotientBetween(y: int, v: nat, r: nat)
    requires r > 0 && 3 * v * r <= 4 * y && 2 * y <= 3 * v * r
    ensures 3 * v - 4 < 4 * (y / r) && 2 * (y / r) <= 3 * v
  {
    var x := y / r;
    assert y == x * r + y % r;
    BoundsOfQuotient(x, y % r, v, r);
  }

  lemma BoundsOfQuotient(x: int, e: int, v: nat, r: nat)
    requires 0 <= e < r && 3 * v * r <= 4 * (x * r + e) && 2 * (x * r + e) <= 3 * v * r
    ensures 3 * v - 4 < 4 * x && 2 * x <= 3 * v
  {
    Distribute(4 * x, 4, r);
    Distribute(3 * v, 1, r);
    assert 4 * x * r == 4 * (x * r) && 2 * x * r == 2 * (x * r);
    if 4 * x <= 3 * v - 4 { MulMonotone(4 * x + 4, 3 * v, r); }
    if 2 * x > 3 * v { MulMonotone(3 * v + 1, 2 * x, r); }
  }

  lemma TimesTarget(v: int, t: int, r: int)
    ensures 3 * r * v == 3 * v * r && 4 * t * v == 4 * (v * t) && 2 * t * v == 2 * (v * t)
  {
  }
}

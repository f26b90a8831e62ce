/**
 Serialization of a transaction's unspent outputs, CCoins in src/coins.h and src/coins.cpp: a
 header code, a bit mask that leaves out trailing zero bytes, the outputs and the height.
 */
module CoinsCodec {
  import opened Common
  import opened IntMath
  import opened Compressor

  datatype Coins = Coins(fCoinBase: bool, vout: seq<TxOut>, nHeight: int, nVersion: int)

  /** Output i exists and is unspent. */
  predicate Has(v: seq<TxOut>, i: nat) { i < |v| && !IsNull(v[i]) }

  /**
   What can be stored: no spent output at the end, so at least one unspent; all of them in range,
   and not so many that the 32-bit header code overflows.
   */
  ghost predicate Storable(c: Coins) {
    && 0 < |c.vout| <= UINT32 - 13 && !IsNull(c.vout[|c.vout| - 1]) && IsInt32(c.nHeight) && IsInt32(c.nVersion)
    && forall i :: 0 <= i < |c.vout| ==> c.vout[i] == NULL_OUT || InRange(c.vout[i])
  }

  // ---------------------------------------------------------------------------
  // Bits of a byte
  // ---------------------------------------------------------------------------

  function FromBits(bits: seq<bool>): (n: nat) {
    if bits == [] then 0 else (if bits[0] then 1 else 0) + 2 * FromBits(bits[1..])
  }

  function ToBits(n: nat, k: nat): (bits: seq<bool>)
    ensures |bits| == k
  {
    if k == 0 then [] else [n % 2 == 1] + ToBits(n / 2, k - 1)
  }

  lemma {:induction false} BitsRoundTrip(bits: seq<bool>)
    ensures ToBits(FromBits(bits), |bits|) == bits && FromBits(bits) < Pow2(|bits|)
    decreases |bits|
  {
    if bits != [] {
      BitsRoundTrip(bits[1..]);
      assert bits == [bits[0]] + bits[1..];
      assert FromBits(bits) / 2 == FromBits(bits[1..]);
    }
  }

  lemma {:induction false} ZeroBits(bits: seq<bool>)
    ensures FromBits(bits) == 0 <==> forall i :: 0 <= i < |bits| ==> !bits[i]
    decreases |bits|
  {
    if bits != [] {
      ZeroBits(bits[1..]);
      assert forall i :: 0 < i < |bits| ==> bits[i] == bits[1..][i - 1];
    }
  }

  // ---------------------------------------------------------------------------
  // The mask
  // ---------------------------------------------------------------------------

  function MaskBits(v: seq<TxOut>, b: nat): seq<bool> { seq(8, i requires 0 <= i < 8 => Has(v, 2 + 8 * b + i)) }

  function MaskByte(v: seq<TxOut>, b: nat): (r: Byte) {
    BitsRoundTrip(MaskBits(v, b));
    EightBits();
    FromBits(MaskBits(v, b))
  }

  /** The first of eight outputs is worth one, the last one 128. */
  lemma MaskWeights(v: seq<TxOut>, b: nat)
    ensures var i := 2 + 8 * b;
      MaskByte(v, b) as int == One(Has(v, i)) + 2 * One(Has(v, i + 1)) + 4 * One(Has(v, i + 2)) + 8 * One(Has(v, i + 3)) +
        16 * One(Has(v, i + 4)) + 32 * One(Has(v, i + 5)) + 64 * One(Has(v, i + 6)) + 128 * One(Has(v, i + 7))
  {
    hide Has, FromBits;
    Weights(MaskBits(v, b));
  }

  lemma Weights(bits: seq<bool>)
    requires |bits| == 8
    ensures FromBits(bits) == One(bits[0]) + 2 * One(bits[1]) + 4 * One(bits[2]) + 8 * One(bits[3]) +
      16 * One(bits[4]) + 32 * One(bits[5]) + 64 * One(bits[6]) + 128 * One(bits[7])
  {
    Horner(bits);
    Horner(bits[4..]);
    assert FromBits(bits[4..][4..]) == 0;
    hide FromBits;
  }

  lemma Horner(bits: seq<bool>)
    requires |bits| >= 4
    ensures FromBits(bits) == One(bits[0]) + 2 * One(bits[1]) + 4 * One(bits[2]) + 8 * One(bits[3]) + 16 * FromBits(bits[4..])
  {
    assert bits[1..][1..] == bits[2..] && bits[2..][1..] == bits[3..] && bits[3..][1..] == bits[4..];
  }

  lemma EightBits()
    ensures Pow2(8) == 256
  {
  }

  lemma MaskByteBits(v: seq<TxOut>, b: nat)
    ensures ToBits(MaskByte(v, b), 8) == MaskBits(v, b)
    ensures MaskByte(v, b) != 0 <==> exists i :: 2 + 8 * b <= i < 10 + 8 * b && Has(v, i)
  {
    hide FromBits, ToBits, Pow2, Has;
    var bits := MaskBits(v, b);
    BitsRoundTrip(bits);
    ZeroBits(bits);
    if i :| 2 + 8 * b <= i < 10 + 8 * b && Has(v, i) { assert bits[i - 2 - 8 * b]; }
    if k :| 0 <= k < 8 && bits[k] { assert Has(v, 2 + 8 * b + k); }
  }

  /** Mask bytes that are not zero, from byte b up to byte n. */
  function NonzeroBytes(v: seq<TxOut>, b: nat, n: nat): nat
    decreases n - b
  {
    if b >= n then 0 else (if MaskByte(v, b) != 0 then 1 else 0) + NonzeroBytes(v, b + 1, n)
  }

  function MaskBytes(v: seq<TxOut>, b: nat, n: nat): Bytes
    decreases n - b
  {
    if b >= n then [] else [MaskByte(v, b)] + MaskBytes(v, b + 1, n)
  }

  function AllBits(v: seq<TxOut>, b: nat, n: nat): seq<bool>
    decreases n - b
  {
    if b >= n then [] else MaskBits(v, b) + AllBits(v, b + 1, n)
  }

  /** The mask has this size: its last byte is not zero, and everything after it is. */
  ghost predicate IsMaskSize(v: seq<TxOut>, n: nat) {
    (n > 0 ==> MaskByte(v, n - 1) != 0) && forall i :: 2 + 8 * n <= i ==> !Has(v, i)
  }

  /** Counts mask bytes and nonzero ones, as far as there are outputs. */
  method CalcMaskSize(v: seq<TxOut>) returns (nBytes: nat, nNonzeroBytes: nat)
    ensures IsMaskSize(v, nBytes) && nNonzeroBytes == NonzeroBytes(v, 0, nBytes)
  {
    hide MaskByte;
    nBytes, nNonzeroBytes := 0, 0;
    var b := 0;
    while 2 + b * 8 < |v|
      invariant 0 <= nBytes <= b && nNonzeroBytes == NonzeroBytes(v, 0, nBytes)
      invariant nBytes > 0 ==> MaskByte(v, nBytes - 1) != 0
      invariant forall i :: 2 + 8 * nBytes <= i < 2 + 8 * b ==> !Has(v, i)
    {
      var fZero := true;
      var i := 0;
      while i < 8 && 2 + b * 8 + i < |v|
        invariant 0 <= i <= 8
        invariant fZero <==> forall k :: 2 + 8 * b <= k < 2 + 8 * b + i ==> !Has(v, k)
      {
        if !IsNull(v[2 + b * 8 + i]) {
          assert Has(v, 2 + 8 * b + i);
          fZero := false;
        }
        i := i + 1;
      }
      MaskByteBits(v, b);
      if !fZero {
        OneMoreByte(v, nBytes, b);
        nBytes, nNonzeroBytes := b + 1, nNonzeroBytes + 1;
      }
      b := b + 1;
    }
  }

  lemma OneMoreByte(v: seq<TxOut>, n: nat, b: nat)
    requires n <= b && MaskByte(v, b) != 0 && forall i :: 2 + 8 * n <= i < 2 + 8 * b ==> !Has(v, i)
    ensures NonzeroBytes(v, 0, b + 1) == NonzeroBytes(v, 0, n) + 1
  {
    hide MaskByte;
    CountUpTo(v, 0, n, b);
  }

  lemma {:induction false} CountUpTo(v: seq<TxOut>, a: nat, n: nat, b: nat)
    requires a <= n <= b && MaskByte(v, b) != 0 && forall i :: 2 + 8 * n <= i < 2 + 8 * b ==> !Has(v, i)
    ensures NonzeroBytes(v, a, b + 1) == NonzeroBytes(v, a, n) + 1
    decreases b - a
  {
    hide MaskByte, Has;
    if a < n {
      CountUpTo(v, a + 1, n, b);
    } else if a < b {
      MaskByteBits(v, a);
      CountUpTo(v, a + 1, n + 1, b);
    } else {
      assert NonzeroBytes(v, b + 1, b + 1) == 0;
    }
  }

  /** Reads mask bytes until k of them were not zero. */
  function ReadMask(s: Bytes, k: nat): Option<(seq<bool>, Bytes)>
    decreases |s|
  {
    if k == 0 then Some(([], s)) else if s == [] then None else
      match ReadMask(s[1..], if s[0] != 0 then k - 1 else k)
      case None => None
      case Some((bits, rest)) => Some((ToBits(s[0], 8) + bits, rest))
  }

  /** Exactly the written mask bytes are consumed. */
  lemma {:induction false} MaskRoundTrip(v: seq<TxOut>, b: nat, n: nat, t: Bytes)
    requires b <= n && (n > 0 ==> MaskByte(v, n - 1) != 0)
    ensures ReadMask(MaskBytes(v, b, n) + t, NonzeroBytes(v, b, n)) == Some((AllBits(v, b, n), t))
    decreases n - b
  {
    hide MaskByte, MaskBits, ToBits, ReadMask;
    if b == n {
      assert MaskBytes(v, b, n) + t == t;
      ReadNothing(t);
    } else {
      MaskRoundTrip(v, b + 1, n, t);
      MaskByteBits(v, b);
      NonzeroLast(v, b, n);
      var first, s := MaskByte(v, b), MaskBytes(v, b + 1, n) + t;
      assert MaskBytes(v, b, n) + t == [first] + s;
      ReadOneByte(first, s, NonzeroBytes(v, b, n));
    }
  }

  lemma ReadNothing(t: Bytes)
    ensures ReadMask(t, 0) == Some(([], t))
  {
  }

  lemma ReadOneByte(x: Byte, s: Bytes, k: nat)
    requires k > 0 && ReadMask(s, if x != 0 then k - 1 else k).Some?
    ensures
      var (bits, rest) := ReadMask(s, if x != 0 then k - 1 else k).value;
      ReadMask([x] + s, k) == Some((ToBits(x, 8) + bits, rest))
  {
    hide ToBits;
    assert ([x] + s)[1..] == s;
  }

  lemma {:induction false} NonzeroLast(v: seq<TxOut>, b: nat, n: nat)
    requires b < n && MaskByte(v, n - 1) != 0
    ensures NonzeroBytes(v, b, n) > 0
    decreases n - b
  {
    hide MaskByte;
    if b + 1 < n { NonzeroLast(v, b + 1, n); }
  }

  lemma {:induction false} AllBitsAt(v: seq<TxOut>, b: nat, n: nat)
    requires b <= n
    ensures |AllBits(v, b, n)| == 8 * (n - b)
    ensures forall i :: 0 <= i < 8 * (n - b) ==> AllBits(v, b, n)[i] == Has(v, 2 + 8 * b + i)
    decreases n - b
  {
    hide Has;
    if b < n {
      AllBitsAt(v, b + 1, n);
      var bits := AllBits(v, b, n);
      forall i | 0 <= i < 8 * (n - b) ensures bits[i] == Has(v, 2 + 8 * b + i) {
        if i < 8 {
          assert bits[i] == MaskBits(v, b)[i];
        } else {
          assert bits[i] == AllBits(v, b + 1, n)[i - 8];
        }
      }
    }
  }

  // ---------------------------------------------------------------------------
  // The outputs
  // ---------------------------------------------------------------------------

  ghost predicate OutsOk(v: seq<TxOut>) { forall i :: 0 <= i < |v| ==> v[i] == NULL_OUT || InRange(v[i]) }

  function WriteOuts(c: Curve, v: seq<TxOut>): Bytes
    requires OutsOk(v)
  {
    if v == [] then [] else (if IsNull(v[0]) then [] else WriteOut(c, v[0])) + WriteOuts(c, v[1..])
  }

  function ReadOuts(c: Curve, s: Bytes, avail: seq<bool>): Option<(seq<TxOut>, Bytes)>
    decreases |avail|
  {
    if avail == [] then Some(([], s))
    else if avail[0] then
      match ReadOut(c, s)
      case None => None
      case Some((o, t)) => Push(o, ReadOuts(c, t, avail[1..]))
    else Push(NULL_OUT, ReadOuts(c, s, avail[1..]))
  }

  function Push(o: TxOut, r: Option<(seq<TxOut>, Bytes)>): Option<(seq<TxOut>, Bytes)> {
    match r
    case None => None
    case Some((v, t)) => Some(([o] + v, t))
  }

  /** Flags that say which outputs of v there are, possibly with more flags that are all false. */
  ghost predicate Describes(avail: seq<bool>, v: seq<TxOut>) {
    |avail| >= |v| && forall i :: 0 <= i < |avail| ==> avail[i] == Has(v, i)
  }

  /** The outputs followed by spent ones. */
  function Padded(v: seq<TxOut>, n: nat): seq<TxOut>
    requires n >= |v|
  {
    v + seq(n - |v|, _ => NULL_OUT)
  }

  lemma {:induction false} OutsRoundTrip(c: Curve, v: seq<TxOut>, avail: seq<bool>, t: Bytes)
    requires CurveOk(c) && OutsOk(v) && Describes(avail, v)
    ensures ReadOuts(c, WriteOuts(c, v) + t, avail) == Some((Padded(v, |avail|), t))
    decreases |avail|
  {
    hide ReadOut, WriteOut, CurveOk;
    if avail == [] {
      assert WriteOuts(c, v) + t == t && Padded(v, 0) == [];
    } else if v == [] {
      OutsRoundTrip(c, v, avail[1..], t);
      assert Padded(v, |avail|) == [NULL_OUT] + Padded(v, |avail| - 1);
    } else {
      var rest := v[1..];
      assert Describes(avail[1..], rest) by {
        assert forall i :: 0 <= i < |avail| - 1 ==> avail[1..][i] == avail[i + 1] == Has(v, i + 1);
      }
      OutsRoundTrip(c, rest, avail[1..], t);
      assert Padded(v, |avail|) == [v[0]] + Padded(rest, |avail| - 1);
      assert avail[0] == Has(v, 0);
      if avail[0] {
        OneOut(c, v, t);
      } else {
        assert WriteOuts(c, v) == WriteOuts(c, rest);
      }
    }
  }

  lemma OneOut(c: Curve, v: seq<TxOut>, t: Bytes)
    requires CurveOk(c) && OutsOk(v) && v != [] && !IsNull(v[0])
    ensures ReadOut(c, WriteOuts(c, v) + t) == Some((v[0], WriteOuts(c, v[1..]) + t))
  {
    hide ReadOut, WriteOut, CurveOk;
    var w := WriteOuts(c, v[1..]);
    assert WriteOuts(c, v) + t == WriteOut(c, v[0]) + (w + t);
    OutRoundTrip(c, v[0], w + t);
  }

  /** Cleanup: cuts off spent outputs at the end. */
  function Trim(v: seq<TxOut>): seq<TxOut> {
    if v != [] && IsNull(v[|v| - 1]) then Trim(v[..|v| - 1]) else v
  }

  lemma {:induction false} TrimPadding(v: seq<TxOut>, n: nat)
    requires n >= |v| && |v| > 0 && !IsNull(v[|v| - 1])
    ensures Trim(Padded(v, n)) == v
    decreases n
  {
    if n == |v| {
      assert Padded(v, n) == v;
    } else {
      TrimPadding(v, n - 1);
      assert Padded(v, n)[..n - 1] == Padded(v, n - 1);
    }
  }

  // ---------------------------------------------------------------------------
  // The whole record
  // ---------------------------------------------------------------------------

  function One(b: bool): nat { if b then 1 else 0 }

  /** The header code: flags for coinbase and the first two outputs, and the number of nonzero mask bytes. */
  function HeaderCode(coinbase: bool, first: bool, second: bool, nonzero: nat): nat
    requires first || second || nonzero > 0
  {
    8 * (nonzero - (if first || second then 0 else 1)) + One(coinbase) + 2 * One(first) + 4 * One(second)
  }

  /** Some header codes: the second output only; a coinbase with two mask bytes; the first output only. */
  lemma KnownHeaders()
    ensures HeaderCode(false, false, true, 0) == 4 && HeaderCode(true, false, false, 2) == 9
    ensures HeaderCode(false, true, false, 0) == 2 && HeaderCode(true, true, true, 3) == 31
  {
  }

  lemma HeaderRoundTrip(coinbase: bool, first: bool, second: bool, nonzero: nat)
    requires first || second || nonzero > 0
    ensures var code := HeaderCode(coinbase, first, second, nonzero);
      && (code % 2 == 1 <==> coinbase) && (code / 2 % 2 == 1 <==> first) && (code / 4 % 2 == 1 <==> second)
      && code / 8 + (if code / 2 % 4 != 0 then 0 else 1) == nonzero
  {
    HeaderDigits(nonzero - (if first || second then 0 else 1), One(coinbase), One(first), One(second));
  }

  lemma HeaderDigits(high: nat, a: nat, b: nat, c: nat)
    requires a <= 1 && b <= 1 && c <= 1
    ensures var code := 8 * high + a + 2 * b + 4 * c;
      && code % 2 == a && code / 2 % 2 == b && code / 4 % 2 == c && code / 8 == high
      && (code / 2 % 4 == 0 <==> b == 0 && c == 0)
  {
    var code := 8 * high + a + 2 * b + 4 * c;
    DivideExactly(code, 2, 4 * high + b + 2 * c, a);
    DivideExactly(code / 2, 4, high, b + 2 * c);
    DivideExactly(code / 2, 2, 2 * high + c, b);
    DivideExactly(code, 4, 2 * high + c, a + 2 * b);
    DivideExactly(code / 4, 2, high, c);
    DivideExactly(code, 8, high, a + 2 * b + 4 * c);
  }

  ghost function Serialized(c: Curve, r: Coins, maskSize: nat): Bytes
    requires Storable(r) && IsMaskSize(r.vout, maskSize)
  {
    SomeOutput(r, maskSize);
    SignedVarInt(r.nVersion)
    + VarInt(HeaderCode(r.fCoinBase, Has(r.vout, 0), Has(r.vout, 1), NonzeroBytes(r.vout, 0, maskSize)))
    + MaskBytes(r.vout, 0, maskSize) + WriteOuts(c, r.vout) + SignedVarInt(r.nHeight)
  }

  /** The assertion of the serializer: something is unspent. */
  lemma SomeOutput(r: Coins, n: nat)
    requires Storable(r) && IsMaskSize(r.vout, n)
    ensures Has(r.vout, 0) || Has(r.vout, 1) || NonzeroBytes(r.vout, 0, n) > 0
    ensures OutsOk(r.vout) && |r.vout| <= 2 + 8 * n
  {
    hide MaskByte;
    var last := |r.vout| - 1;
    assert Has(r.vout, last);
    if n > 0 { NonzeroLast(r.vout, 0, n); }
  }

  /** The header code of storable coins fits 32 bits. */
  lemma CodeFits(r: Coins, n: nat)
    requires Storable(r) && IsMaskSize(r.vout, n)
    ensures Has(r.vout, 0) || Has(r.vout, 1) || NonzeroBytes(r.vout, 0, n) > 0
    ensures HeaderCode(r.fCoinBase, Has(r.vout, 0), Has(r.vout, 1), NonzeroBytes(r.vout, 0, n)) < UINT32
  {
    SomeOutput(r, n);
    AtMostAll(r.vout, 0, n);
    if n > 0 { LastMaskByte(r.vout, n - 1); }
  }

  lemma {:induction false} AtMostAll(v: seq<TxOut>, b: nat, n: nat)
    requires b <= n
    ensures NonzeroBytes(v, b, n) <= n - b
    decreases n - b
  {
    hide MaskByte;
    if b < n { AtMostAll(v, b + 1, n); }
  }

  /** A mask byte that is not zero stands for some output. */
  lemma LastMaskByte(v: seq<TxOut>, b: nat)
    requires MaskByte(v, b) != 0
    ensures 2 + 8 * b < |v|
  {
    ZeroBits(MaskBits(v, b));
    if 2 + 8 * b >= |v| {
      forall i | 0 <= i < |MaskBits(v, b)| ensures !MaskBits(v, b)[i] { assert MaskBits(v, b)[i] == Has(v, 2 + 8 * b + i); }
    }
  }

  function Deserialized(c: Curve, s: Bytes): Option<(Coins, Bytes)> {
    match ReadSigned(s)
    case None => None
    case Some((version, s1)) =>
      match ReadInt(s1, UINT32)
      case None => None
      case Some((code, s2)) =>
        match ReadMask(s2, code / 8 + (if code / 2 % 4 != 0 then 0 else 1))
        case None => None
        case Some((bits, s3)) => ReadBody(c, version, code % 2 == 1, [code / 2 % 2 == 1, code / 4 % 2 == 1] + bits, s3)
  }

  function ReadBody(c: Curve, version: int, coinbase: bool, avail: seq<bool>, s: Bytes): Option<(Coins, Bytes)> {
    match ReadOuts(c, s, avail)
    case None => None
    case Some((outs, t)) =>
      match ReadSigned(t)
      case None => None
      case Some((height, rest)) => Some((Coins(coinbase, Trim(outs), height, version), rest))
  }

  lemma BodyRoundTrip(c: Curve, version: int, r: Coins, n: nat, bits: seq<bool>, t: Bytes)
    requires CurveOk(c) && Storable(r) && IsMaskSize(r.vout, n) && bits == AllBits(r.vout, 0, n)
    ensures OutsOk(r.vout)
    ensures
      var got := ReadBody(c, version, r.fCoinBase, [Has(r.vout, 0), Has(r.vout, 1)] + bits,
                          WriteOuts(c, r.vout) + (SignedVarInt(r.nHeight) + t));
      && got.Some? && got.value.1 == t
      && got.value.0.(nHeight := 0) == Coins(r.fCoinBase, r.vout, 0, version)
      && (got.value.0.nHeight == r.nHeight <==> r.nHeight >= 0)
  {
    hide ReadOuts, WriteOuts, ReadSigned, SignedVarInt, Trim, MaskByte, CurveOk;
    SomeOutput(r, n);
    var v, avail := r.vout, [Has(r.vout, 0), Has(r.vout, 1)] + bits;
    AllBitsAt(v, 0, n);
    assert Describes(avail, v) by {
      forall i | 0 <= i < |avail| ensures avail[i] == Has(v, i) {
        if i >= 2 { assert avail[i] == bits[i - 2]; }
      }
    }
    OutsRoundTrip(c, v, avail, SignedVarInt(r.nHeight) + t);
    SignedRoundTrip(r.nHeight, t);
    TrimPadding(v, |avail|);
  }

  /**
   Everything that can be stored is read back unchanged, and nothing more is consumed; except that
   a negative version or height is not.
   */
  lemma CoinsRoundTrip(c: Curve, r: Coins, n: nat, t: Bytes)
    requires CurveOk(c) && Storable(r) && IsMaskSize(r.vout, n)
    ensures
      var got := Deserialized(c, Serialized(c, r, n) + t);
      got.Some? && got.value.1 == t && (got.value.0 == r <==> r.nVersion >= 0 && r.nHeight >= 0)
  {
    hide ReadBody, WriteOuts, ReadSigned, ReadInt, SignedVarInt, VarInt, MaskByte, CurveOk, HeaderCode, ReadMask,
         MaskBytes, AllBits;
    SomeOutput(r, n);
    var v := r.vout;
    var code := HeaderCode(r.fCoinBase, Has(v, 0), Has(v, 1), NonzeroBytes(v, 0, n));
    var s3 := WriteOuts(c, v) + (SignedVarInt(r.nHeight) + t);
    var s2 := MaskBytes(v, 0, n) + s3;
    var s1 := VarInt(code) + s2;
    assert Serialized(c, r, n) + t == SignedVarInt(r.nVersion) + s1;
    SignedRoundTrip(r.nVersion, s1);
    CodeFits(r, n);
    IntRoundTrip(code, UINT32, s2);
    HeaderRoundTrip(r.fCoinBase, Has(v, 0), Has(v, 1), NonzeroBytes(v, 0, n));
    MaskRoundTrip(v, 0, n, s3);
    var version := ReadSigned(SignedVarInt(r.nVersion) + s1).value.0;
    BodyRoundTrip(c, version, r, n, AllBits(v, 0, n), t);
  }

  // ---------------------------------------------------------------------------
  // The code
  // ---------------------------------------------------------------------------

  method Serialize(c: Curve, r: Coins) returns (s: Bytes)
    requires Storable(r)
    ensures exists maskSize :: IsMaskSize(r.vout, maskSize) && s == Serialized(c, r, maskSize)
  {
    hide MaskByte, HeaderCode, SignedVarInt, VarInt, WriteOut;
    var nMaskSize, nMaskCode := CalcMaskSize(r.vout);
    SomeOutput(r, nMaskSize);
    CodeFits(r, nMaskSize);
    var fFirst := |r.vout| > 0 && !IsNull(r.vout[0]);
    var fSecond := |r.vout| > 1 && !IsNull(r.vout[1]);
    assert fFirst || fSecond || nMaskCode > 0;
    var nCode := HeaderCode(r.fCoinBase, fFirst, fSecond, nMaskCode);
    var version := WriteVarInt(r.nVersion, 4);
    var header := WriteVarInt(nCode, 4);
    Unsigned(nCode);
    var mask: Bytes := [];
    for b := 0 to nMaskSize
      invariant mask + MaskBytes(r.vout, b, nMaskSize) == MaskBytes(r.vout, 0, nMaskSize)
    {
      mask := mask + [MaskByte(r.vout, b)];
    }
    var outs := WriteOutputs(c, r.vout);
    var height := WriteVarInt(r.nHeight, 4);
    s := version + header + mask + outs + height;
    assert IsMaskSize(r.vout, nMaskSize) && s == Serialized(c, r, nMaskSize);
  }

  method WriteOutputs(c: Curve, v: seq<TxOut>) returns (outs: Bytes)
    requires OutsOk(v)
    ensures outs == WriteOuts(c, v)
  {
    hide WriteOut;
    outs := [];
    for i := 0 to |v|
      invariant outs + WriteOuts(c, v[i..]) == WriteOuts(c, v)
    {
      assert v[i..][1..] == v[i + 1..];
      if !IsNull(v[i]) {
        var o := WriteTxOut(c, v[i]);
        outs := outs + o;
      }
    }
  }

  lemma Unsigned(n: nat)
    ensures SignedVarInt(n) == VarInt(n)
  {
  }

  function Prepend<A>(xs: seq<A>, r: Option<(seq<A>, Bytes)>): Option<(seq<A>, Bytes)> {
    match r
    case None => None
    case Some((ys, t)) => Some((xs + ys, t))
  }

  method ReadMaskBytes(s: Bytes, k0: nat) returns (r: Option<(seq<bool>, Bytes)>)
    ensures r == ReadMask(s, k0)
  {
    hide ToBits;
    var nMaskCode, p, vAvail: seq<bool> := k0, 0, [];
    PrependNothing(ReadMask(s, k0));
    assert s[0..] == s;
    while nMaskCode > 0 && p < |s|
      invariant 0 <= p <= |s| && nMaskCode >= 0
      invariant Prepend(vAvail, ReadMask(s[p..], nMaskCode)) == ReadMask(s, k0)
      decreases |s| - p
    {
      var chAvail := s[p];
      assert s[p..][1..] == s[p + 1..];
      ghost var was := vAvail;
      vAvail := vAvail + ToBits(chAvail, 8);
      if chAvail != 0 { nMaskCode := nMaskCode - 1; }
      p := p + 1;
      PrependTwice(was, ToBits(chAvail, 8), ReadMask(s[p..], nMaskCode));
    }
    assert vAvail + [] == vAvail;
    return if nMaskCode == 0 then Some((vAvail, s[p..])) else None;
  }

  lemma PrependNothing<A>(r: Option<(seq<A>, Bytes)>)
    ensures Prepend([], r) == r
  {
    if r.Some? { assert [] + r.value.0 == r.value.0; }
  }

  lemma PrependTwice<A>(xs: seq<A>, ys: seq<A>, r: Option<(seq<A>, Bytes)>)
    ensures Prepend(xs + ys, r) == Prepend(xs, Prepend(ys, r))
  {
    if r.Some? { assert xs + ys + r.value.0 == xs + (ys + r.value.0); }
  }

  method ReadOutputs(c: Curve, s: Bytes, vAvail: seq<bool>) returns (r: Option<(seq<TxOut>, Bytes)>)
    ensures r == ReadOuts(c, s, vAvail)
  {
    hide ReadOut;
    var rest, vout: seq<TxOut> := s, [];
    PrependNothing(ReadOuts(c, s, vAvail));
    assert vAvail[0..] == vAvail;
    for i := 0 to |vAvail|
      invariant Prepend(vout, ReadOuts(c, rest, vAvail[i..])) == ReadOuts(c, s, vAvail)
    {
      assert vAvail[i..][1..] == vAvail[i + 1..];
      var o := NULL_OUT;
      if vAvail[i] {
        var got := ReadTxOut(c, rest);
        if got.None? { return None; }
        o, rest := got.value.0, got.value.1;
      }
      PrependTwice(vout, [o], ReadOuts(c, rest, vAvail[i + 1..]));
      vout := vout + [o];
    }
    assert vout + [] == vout;
    return Some((vout, rest));
  }

  method Cleanup(v: seq<TxOut>) returns (r: seq<TxOut>)
    ensures r == Trim(v)
  {
    r := v;
    while |r| > 0 && IsNull(r[|r| - 1])
      invariant Trim(r) == Trim(v)
    {
      r := r[..|r| - 1];
    }
  }

  method Unserialize(c: Curve, s: Bytes) returns (r: Option<(Coins, Bytes)>)
    ensures r == Deserialized(c, s)
  {
    hide ReadInt, ReadMask, ReadOuts, Trim;
    var version := ReadSignedInt(s);
    if version.None? { return None; }
    var header := ReadVarInt(version.value.1, UINT32);
    if header.None? { return None; }
    var nCode := header.value.0;
    var nMaskCode := nCode / 8 + if nCode / 2 % 4 != 0 then 0 else 1;
    var mask := ReadMaskBytes(header.value.1, nMaskCode);
    if mask.None? { return None; }
    var vAvail := [nCode / 2 % 2 == 1, nCode / 4 % 2 == 1] + mask.value.0;
    var outs := ReadOutputs(c, mask.value.1, vAvail);
    if outs.None? { return None; }
    var height := ReadSignedInt(outs.value.1);
    if height.None? { return None; }
    var vout := Cleanup(outs.value.0);
    return Some((Coins(nCode % 2 == 1, vout, height.value.0, version.value.0), height.value.1));
  }

  method ReadSignedInt(s: Bytes) returns (r: Option<(int, Bytes)>)
    ensures r == ReadSigned(s)
  {
    hide ReadInt;
    var got := ReadVarInt(s, UINT32);
    if got.None? { return None; }
    var n := got.value.0;
    return Some((if n < 0x8000_0000 then n else n - UINT32, got.value.1));
  }
}

/**
 Compact serialization of transaction outputs: variable-length integers of src/serialize.h, and
 amount and script compression of src/compressor.cpp and src/compressor.h.  Readers consume a
 prefix of a byte stream and return the rest; None is the end-of-data error.
 */
module Compressor {
  import opened Common
  import opened IntMath

  const UINT32 := 0x1_0000_0000
  const UINT64 := 0x1_0000_0000_0000_0000

  // ---------------------------------------------------------------------------
  // Variable-length integers
  // ---------------------------------------------------------------------------

  /** Bytes with the continuation bit; each level of nesting is worth one more. */
  function Continued(m: nat): (r: Bytes)
    ensures |r| >= 1
  {
    (if m <= 0x7F then [] else Continued(m / 128 - 1)) + [m % 128 + 128]
  }

  function VarInt(n: nat): (r: Bytes)
    ensures |r| >= 1
  {
    (if n <= 0x7F then [] else Continued(n / 128 - 1)) + [n % 128]
  }

  /** The code for a signed integer stops at once for a negative one. */
  function SignedVarInt(n: int): Bytes { if n < 0 then [n % 128] else VarInt(n) }

  function ReadVar(s: Bytes, n: nat): Option<(nat, Bytes)>
    decreases |s|
  {
    if s == [] then None
    else if s[0] >= 128 then ReadVar(s[1..], n * 128 + s[0] as nat % 128 + 1)
    else Some((n * 128 + s[0] as nat, s[1..]))
  }

  lemma {:induction false} ReadContinued(m: nat, t: Bytes)
    ensures ReadVar(Continued(m) + t, 0) == ReadVar(t, m + 1)
    decreases m
  {
    var last: Bytes := [m % 128 + 128];
    if m <= 0x7F {
      assert Continued(m) == last;
      ReadMarked(m % 128, t, 0);
    } else {
      var n := m / 128 - 1;
      assert Continued(m) + t == Continued(n) + (last + t);
      ReadContinued(n, last + t);
      ReadMarked(m % 128, t, n + 1);
    }
  }

  /** A marked byte adds seven bits and one. */
  lemma ReadMarked(d: nat, t: Bytes, n: nat)
    requires d < 128
    ensures ReadVar([d + 128] + t, n) == ReadVar(t, n * 128 + d + 1)
  {
    var s: Bytes := [d + 128];
    assert (s + t)[1..] == t && (s + t)[0] == d + 128;
  }

  /** A written number is read back, and nothing more is consumed. */
  lemma VarIntRoundTrip(n: nat, t: Bytes)
    ensures ReadVar(VarInt(n) + t, 0) == Some((n, t))
  {
    var last: Bytes := [n % 128];
    assert (last + t)[1..] == t;
    if n <= 0x7F {
      assert VarInt(n) == last;
    } else {
      ReadContinued(n / 128 - 1, last + t);
      assert VarInt(n) + t == Continued(n / 128 - 1) + (last + t);
    }
  }

  /** An unsigned integer is read modulo its width. */
  function ReadInt(s: Bytes, m: nat): Option<(nat, Bytes)>
    requires m > 0
  {
    match ReadVar(s, 0)
    case None => None
    case Some((n, t)) => Some((n % m, t))
  }

  lemma IntRoundTrip(n: nat, m: nat, t: Bytes)
    requires n < m
    ensures ReadInt(VarInt(n) + t, m) == Some((n, t))
  {
    hide VarInt, ReadVar;
    VarIntRoundTrip(n, t);
    DivideExactly(n, m, 0, n);
  }

  predicate IsInt32(n: int) { -0x8000_0000 <= n < 0x8000_0000 }

  /** A signed 32-bit integer wraps to a negative one. */
  function ReadSigned(s: Bytes): Option<(int, Bytes)> {
    match ReadInt(s, UINT32)
    case None => None
    case Some((n, t)) => Some((if n < 0x8000_0000 then n else n - UINT32, t))
  }

  /** For a signed integer the round trip works exactly when it is not negative. */
  lemma SignedRoundTrip(n: int, t: Bytes)
    requires IsInt32(n)
    ensures ReadSigned(SignedVarInt(n) + t).Some?
    ensures ReadSigned(SignedVarInt(n) + t).value.1 == t
    ensures ReadSigned(SignedVarInt(n) + t).value.0 == n <==> n >= 0
  {
    if n >= 0 {
      IntRoundTrip(n, UINT32, t);
    } else {
      var s: Bytes := [n % 128];
      assert SignedVarInt(n) == s && (s + t)[1..] == t && (s + t)[0] == n % 128;
    }
  }

  /** The code's temporary buffer: k bytes are enough for k times seven bits. */
  lemma {:induction false} ContinuedLength(m: nat, k: nat)
    requires k >= 1 && m < Pow2(7 * k)
    ensures |Continued(m)| <= k
    decreases m
  {
    if m > 0x7F {
      assert Pow2(7) == 128;
      if k == 1 { assert false; }
      Pow2Add(7, 7 * (k - 1));
      ContinuedLength(m / 128 - 1, k - 1);
    }
  }

  lemma VarIntLength(n: nat)
    ensures n < UINT32 ==> |VarInt(n)| <= 5
    ensures n < UINT64 ==> |VarInt(n)| <= 10
  {
    SevenBits();
    hide Continued;
    if 0x7F < n < UINT32 { ContinuedLength(n / 128 - 1, 4); }
    if 0x7F < n < UINT64 { ContinuedLength(n / 128 - 1, 9); }
  }

  lemma OneGroup()
    ensures Pow2(7) == 128
  {
  }

  lemma SevenBits()
    ensures Pow2(28) == 0x1000_0000 && Pow2(63) == 0x8000_0000_0000_0000
  {
    hide Pow2;
    OneGroup();
    Pow2Add(7, 7);
    Pow2Add(14, 14);
    Pow2Add(28, 28);
    Pow2Add(56, 7);
  }

  /** The byte for the lowest seven bits; only the last byte of an encoding has no mark. */
  function Marked(n: int, len: nat): Byte { n % 128 + if len > 0 then 128 else 0 }

  /** The bit patterns of some numbers. */
  lemma KnownVarInts()
    ensures VarInt(0) == [0x00] && VarInt(0x7f) == [0x7f] && VarInt(0x80) == [0x80, 0x00]
    ensures VarInt(0x1234) == [0xa3, 0x34] && VarInt(0xffff) == [0x82, 0xfe, 0x7f] && VarInt(0x123456) == [0xc7, 0xe7, 0x56]
  {
    assert Continued(0) == [0x80] && Continued(35) == [0xa3] && Continued(2) == [0x82] && Continued(71) == [0xc7];
    assert Continued(510) == [0x82, 0xfe] && Continued(9319) == [0xc7, 0xe7];
  }

  /** What is still to be produced while some bytes are in the buffer. */
  function Head(n: int, len: nat): Bytes {
    if n < 0 then [Marked(n, len)] else if len > 0 then Continued(n) else VarInt(n)
  }

  /** The buffer holds the end of the encoding, last byte first. */
  ghost predicate Buffered(tmp: array<Byte>, len: nat, tail: Bytes)
    reads tmp
  {
    len == |tail| <= tmp.Length && forall k :: 0 <= k < len ==> tmp[k] == tail[len - 1 - k]
  }

  /** Fills a buffer of just as many bytes as the type can need, from the low end, and writes it back to front. */
  method WriteVarInt(n0: int, size: nat) returns (r: Bytes)
    requires (size == 4 && n0 < UINT32) || (size == 8 && n0 < UINT64)
    ensures r == SignedVarInt(n0)
  {
    hide SignedVarInt;
    EncodingFits(n0);
    var tmp := new Byte[(size * 8 + 6) / 7];
    var len := FillBuffer(tmp, n0);
    ghost var all := SignedVarInt(n0);
    r := [];
    while len > 0
      invariant 0 <= len <= |all| && Buffered(tmp, |all|, all) && r == all[..|all| - len]
    {
      len := len - 1;
      r := r + [tmp[len]];
    }
  }

  lemma EncodingFits(n: int)
    ensures n < UINT32 ==> |SignedVarInt(n)| <= 5
    ensures n < UINT64 ==> |SignedVarInt(n)| <= 10
  {
    if n >= 0 { VarIntLength(n); }
  }

  method FillBuffer(tmp: array<Byte>, n0: int) returns (len: nat)
    requires |SignedVarInt(n0)| <= tmp.Length
    modifies tmp
    ensures Buffered(tmp, len, SignedVarInt(n0)) && len > 0
  {
    hide Continued, VarInt, Marked, Head;
    ghost var tail: Bytes := [];
    var n;
    n, len := n0, 0;
    HeadStart(n0);
    while n > 0x7F
      invariant Buffered(tmp, len, tail) && Head(n, len) + tail == SignedVarInt(n0)
      decreases n
    {
      HeadStep(n, len, tail);
      tmp[len] := Marked(n, len);
      tail := [Marked(n, len)] + tail;
      n := n / 128 - 1;
      len := len + 1;
    }
    HeadEnd(n, len);
    tmp[len] := Marked(n, len);
    tail := [Marked(n, len)] + tail;
    len := len + 1;
  }

  lemma HeadStart(n: int)
    ensures Head(n, 0) + [] == SignedVarInt(n)
  {
  }

  lemma HeadStep(n: int, len: nat, tail: Bytes)
    requires n > 0x7F
    ensures Head(n, len) + tail == Head(n / 128 - 1, len + 1) + ([Marked(n, len)] + tail)
    ensures |Head(n, len)| >= 1
  {
  }

  lemma HeadEnd(n: int, len: nat)
    requires n <= 0x7F
    ensures Head(n, len) == [Marked(n, len)]
  {
  }

  ghost predicate SameModulo(a: Option<(nat, Bytes)>, b: Option<(nat, Bytes)>, m: nat)
    requires m > 0
  {
    if a.Some? && b.Some? then a.value.1 == b.value.1 && a.value.0 % m == b.value.0 % m else a == b
  }

  /** Reading on from congruent numbers gives congruent numbers. */
  lemma {:induction false} ReadVarModulo(s: Bytes, n: nat, k: nat, m: nat)
    requires m > 0 && n % m == k % m
    ensures SameModulo(ReadVar(s, n), ReadVar(s, k), m)
    decreases |s|
  {
    if s != [] {
      var c := s[0] as nat;
      if c >= 128 {
        LinearModulo(n, k, c % 128 + 1, m);
        ReadVarModulo(s[1..], n * 128 + c % 128 + 1, k * 128 + c % 128 + 1, m);
      } else {
        LinearModulo(n, k, c, m);
      }
    }
  }

  lemma LinearModulo(n: nat, k: nat, c: nat, m: nat)
    requires m > 0 && n % m == k % m
    ensures (n * 128 + c) % m == (k * 128 + c) % m
  {
    var d, r := n / m - k / m, k * 128 + c;
    assert n - k == d * m by { assert n == n / m * m + n % m && k == k / m * m + k % m; }
    assert n * 128 + c == (128 * d + r / m) * m + r % m by {
      assert 128 * (d * m) == 128 * d * m;
      assert r == r / m * m + r % m;
    }
    DivideExactly(n * 128 + c, m, 128 * d + r / m, r % m);
  }

  lemma ModuloTwice(x: nat, m: nat)
    requires m > 0
    ensures x % m % m == x % m && (x % m + 1) % m == (x + 1) % m && (x % m + 1) % m % m == (x + 1) % m
  {
    var q, r := x / m, x % m;
    DivideExactly(r, m, 0, r);
    var y := r + 1;
    assert x + 1 == (q + y / m) * m + y % m by { assert (q + y / m) * m == q * m + y / m * m; }
    DivideExactly(x + 1, m, q + y / m, y % m);
    DivideExactly(y % m, m, 0, y % m);
  }

  method ReadVarInt(s: Bytes, m: nat) returns (r: Option<(nat, Bytes)>)
    requires m > 0
    ensures r == ReadInt(s, m)
  {
    var n: nat, p := 0, 0;
    while p < |s|
      invariant 0 <= p <= |s| && SameModulo(ReadVar(s[p..], n), ReadVar(s, 0), m)
    {
      var ch := s[p];
      assert s[p..][1..] == s[p + 1..];
      ghost var next := n * 128 + ch as nat % 128 + if ch >= 128 then 1 else 0;
      ModuloTwice(n * 128 + ch as nat % 128, m);
      n := (n * 128 + ch as nat % 128) % m;
      p := p + 1;
      if ch >= 128 { n := (n + 1) % m; }
      ReadVarModulo(s[p..], next, n, m);
      if ch < 128 { return Some((n, s[p..])); }
    }
    return None;
  }

  // ---------------------------------------------------------------------------
  // Amounts
  // ---------------------------------------------------------------------------

  const MAX_MONEY: nat := 1_000_000_000_000_000_000

  /** The code for a number n and the number e of zeros cut off from it, at most nine. */
  function Code(n: nat, e: nat): nat
    requires n > 0 && e <= 9 && (n % 10 == 0 ==> e == 9)
  {
    if e < 9 then 1 + (n / 10 * 9 + n % 10 - 1) * 10 + e else 1 + (n - 1) * 10 + 9
  }

  function ExponentOf(x: nat): (e: nat)
    requires x > 0
    ensures e <= 9
  {
    (x - 1) % 10
  }

  function NumberOf(x: nat): (n: nat)
    requires x > 0
    ensures n > 0
  {
    var y := (x - 1) / 10;
    if ExponentOf(x) < 9 then y / 9 * 10 + y % 9 + 1 else y + 1
  }

  lemma CodeIsReadable(n: nat, e: nat)
    requires n > 0 && e <= 9 && (n % 10 == 0 ==> e == 9)
    ensures Code(n, e) > 0 && ExponentOf(Code(n, e)) == e && NumberOf(Code(n, e)) == n
  {
    if e < 9 {
      var y := n / 10 * 9 + n % 10 - 1;
      DivideExactly(Code(n, e) - 1, 10, y, e);
      DivideExactly(y, 9, n / 10, n % 10 - 1);
    } else {
      DivideExactly(Code(n, e) - 1, 10, n - 1, 9);
    }
  }

  lemma EveryCodeIsReadable(x: nat)
    requires x > 0
    ensures NumberOf(x) % 10 == 0 ==> ExponentOf(x) == 9
    ensures Code(NumberOf(x), ExponentOf(x)) == x
  {
    var y := (x - 1) / 10;
    if ExponentOf(x) < 9 {
      DivideExactly(NumberOf(x), 10, y / 9, y % 9 + 1);
    }
  }

  function Compressed(n: nat, e: nat): nat
    requires n > 0 && e <= 9
    decreases 9 - e
  {
    if n % 10 == 0 && e < 9 then Compressed(n / 10, e + 1) else Code(n, e)
  }

  function CompressAmount(n: nat): nat { if n == 0 then 0 else Compressed(n, 0) }

  function Tens(e: nat): nat { if e == 0 then 1 else 10 * Tens(e - 1) }

  function DecompressAmount(x: nat): nat { if x == 0 then 0 else NumberOf(x) * Tens(ExponentOf(x)) }

  lemma {:induction false} CompressedRoundTrip(n: nat, e: nat)
    requires n > 0 && e <= 9
    ensures Compressed(n, e) >= 1 && DecompressAmount(Compressed(n, e)) == n * Tens(e)
    decreases 9 - e
  {
    hide Code, NumberOf, ExponentOf;
    if n % 10 == 0 && e < 9 {
      CompressedRoundTrip(n / 10, e + 1);
      TenTimes(n / 10, Tens(e));
    } else {
      CodeIsReadable(n, e);
    }
  }

  lemma TenTimes(n: nat, p: nat)
    ensures n * (10 * p) == 10 * n * p && n * (10 * p) == 10 * (n * p)
  {
  }

  lemma AmountRoundTrip(n: nat)
    ensures DecompressAmount(CompressAmount(n)) == n
  {
    hide DecompressAmount, Compressed;
    if n > 0 { CompressedRoundTrip(n, 0); } else { ZeroAmount(); }
  }

  lemma ZeroAmount()
    ensures DecompressAmount(0) == 0
  {
  }

  /** The codes of some amounts: one unit, a cent, one coin, 50 and 21 million coins. */
  lemma KnownAmounts()
    ensures CompressAmount(0) == 0 && CompressAmount(1) == 1 && CompressAmount(1_000_000) == 7
    ensures CompressAmount(100_000_000) == 9 && CompressAmount(5_000_000_000) == 0x32
    ensures CompressAmount(2_100_000_000_000_000) == 0x1406f40
  {
    hide Code;
    StripTens(1, 6, 0);
    StripTens(1, 8, 0);
    StripTens(5, 9, 0);
    StripTens(2_100_000, 9, 0);
    KnownTens();
    KnownCodes();
  }

  lemma KnownTens()
    ensures Tens(6) == 1_000_000 && Tens(8) == 100_000_000 && Tens(9) == 1_000_000_000
  {
    assert Tens(3) == 1000;
    assert Tens(6) == 1000 * Tens(3);
  }

  lemma KnownCodes()
    ensures Compressed(1, 0) == 1 && Compressed(1, 6) == 7 && Compressed(1, 8) == 9 && Compressed(5, 9) == 0x32
    ensures Compressed(2_100_000, 9) == 0x1406f40
  {
  }

  /** Every number is the compression of one amount: nothing is wasted. */
  lemma EveryCodeIsAnAmount(x: nat)
    ensures CompressAmount(DecompressAmount(x)) == x
  {
    hide Code, NumberOf, ExponentOf;
    if x > 0 {
      StripTens(NumberOf(x), ExponentOf(x), 0);
      EveryCodeIsReadable(x);
    }
  }

  lemma {:induction false} StripTens(n: nat, e: nat, f: nat)
    requires n > 0 && e + f <= 9
    ensures n * Tens(e) > 0 && Compressed(n * Tens(e), f) == Compressed(n, e + f)
    decreases e
  {
    hide Code;
    if e > 0 {
      StripTens(n, e - 1, f + 1);
      TenTimes(n, Tens(e - 1));
      OneTen(n * Tens(e - 1), f);
    }
  }

  lemma OneTen(m: nat, f: nat)
    requires m > 0 && f < 9
    ensures Compressed(10 * m, f) == Compressed(m, f + 1)
  {
    assert 10 * m % 10 == 0 && 10 * m / 10 == m;
  }

  /** Compression never needs more than 64 bits for a valid amount. */
  lemma AmountFits(n: nat)
    requires n <= MAX_MONEY
    ensures CompressAmount(n) < UINT64
  {
    if n > 0 { CompressedIsSmall(n, 0); }
  }

  lemma {:induction false} CompressedIsSmall(n: nat, e: nat)
    requires n > 0 && e <= 9
    ensures Compressed(n, e) <= 10 * n + 8
    decreases 9 - e
  {
    if n % 10 == 0 && e < 9 { CompressedIsSmall(n / 10, e + 1); }
  }

  method CompressAmount64(n0: nat) returns (x: nat)
    requires n0 < UINT64
    ensures x == CompressAmount(n0) % UINT64
  {
    if n0 == 0 { return 0; }
    var n: nat, e: nat := n0, 0;
    while n % 10 == 0 && e < 9
      invariant 0 < n && e <= 9 && Compressed(n, e) == Compressed(n0, 0)
      decreases 9 - e
    {
      n := n / 10;
      e := e + 1;
    }
    if e < 9 {
      var d := n % 10;
      assert 1 <= d <= 9;
      n := n / 10;
      return (1 + (n * 9 + d - 1) * 10 + e) % UINT64;
    } else {
      return (1 + (n - 1) * 10 + 9) % UINT64;
    }
  }

  method DecompressAmount64(x0: nat) returns (n: nat)
    requires x0 < UINT64
    ensures n == DecompressAmount(x0) % UINT64
  {
    if x0 == 0 { return 0; }
    var x := x0 - 1;
    var e := x % 10;
    x := x / 10;
    if e < 9 {
      var d := x % 9 + 1;
      x := x / 9;
      n := x * 10 + d;
    } else {
      n := x + 1;
    }
    assert n == NumberOf(x0) && e == ExponentOf(x0) && n < UINT64;
    n := TimesTens(n, e);
  }

  method TimesTens(n0: nat, e0: nat) returns (n: nat)
    requires n0 < UINT64
    ensures n == n0 * Tens(e0) % UINT64
  {
    n := n0;
    var e := e0;
    while e > 0
      invariant 0 <= e <= e0 && n < UINT64 && n * Tens(e) % UINT64 == n0 * Tens(e0) % UINT64
      decreases e
    {
      TimesTenModulo(n, Tens(e - 1), UINT64);
      n := n * 10 % UINT64;
      e := e - 1;
    }
  }

  lemma TimesTenModulo(n: nat, p: nat, m: nat)
    requires m > 0
    ensures n * (10 * p) % m == n * 10 % m * p % m
  {
    var q, r := n * 10 / m, n * 10 % m;
    assert n * (10 * p) == (q * m + r) * p == q * p * m + r * p;
    DivideExactly(n * (10 * p), m, q * p + r * p / m, r * p % m) by {
      assert (q * p + r * p / m) * m == q * p * m + r * p / m * m;
    }
  }

  // ---------------------------------------------------------------------------
  // Scripts
  // ---------------------------------------------------------------------------

  const MAX_SCRIPT_SIZE := 10000
  const OP_RETURN: Byte := 0x6a
  const OP_DUP: Byte := 0x76
  const OP_EQUAL: Byte := 0x87
  const OP_EQUALVERIFY: Byte := 0x88
  const OP_HASH160: Byte := 0xa9
  const OP_CHECKSIG: Byte := 0xac

  /** What is needed of the curve: which uncompressed keys are valid, and how to restore one. */
  datatype Curve = Curve(isFullyValid: Bytes -> bool, decompress: Bytes -> Option<Bytes>)

  /** A valid key is determined by its x coordinate and the parity of y. */
  ghost predicate CurveOk(c: Curve) {
    forall key :: |key| == 65 && key[0] == 4 && c.isFullyValid(key) ==>
      c.decompress([2 + key[64] % 2] + key[1..33]) == Some(key)
  }

  predicate IsToKeyID(s: Bytes) {
    |s| == 25 && s[0] == OP_DUP && s[1] == OP_HASH160 && s[2] == 20 && s[23] == OP_EQUALVERIFY && s[24] == OP_CHECKSIG
  }

  predicate IsToScriptID(s: Bytes) { |s| == 23 && s[0] == OP_HASH160 && s[1] == 20 && s[22] == OP_EQUAL }

  predicate IsToShortKey(s: Bytes) { |s| == 35 && s[0] == 33 && s[34] == OP_CHECKSIG && (s[1] == 2 || s[1] == 3) }

  predicate IsToLongKey(c: Curve, s: Bytes) {
    |s| == 67 && s[0] == 65 && s[66] == OP_CHECKSIG && s[1] == 4 && c.isFullyValid(s[1..66])
  }

  function Compress(c: Curve, s: Bytes): Option<Bytes> {
    if IsToKeyID(s) then Some([0] + s[3..23])
    else if IsToScriptID(s) then Some([1] + s[2..22])
    else if IsToShortKey(s) then Some([s[1]] + s[2..34])
    else if IsToLongKey(c, s) then Some([4 + s[65] % 2] + s[2..34])
    else None
  }

  function GetSpecialSize(n: nat): nat { if n <= 1 then 20 else if n <= 5 then 32 else 0 }

  /** Rebuilds a special script; a key that cannot be restored leaves the script as it was (empty). */
  function Decompress(c: Curve, n: nat, v: Bytes): Bytes
    requires n < 6 && |v| == GetSpecialSize(n)
  {
    if n == 0 then [OP_DUP, OP_HASH160, 20] + v + [OP_EQUALVERIFY, OP_CHECKSIG]
    else if n == 1 then [OP_HASH160, 20] + v + [OP_EQUAL]
    else if n <= 3 then [33, n] + v + [OP_CHECKSIG]
    else match c.decompress([n - 2] + v)
         case None => []
         case Some(key) => [65] + key + [OP_CHECKSIG]
  }

  function WriteScript(c: Curve, s: Bytes): Bytes {
    match Compress(c, s)
    case Some(v) => v
    case None => VarInt((|s| + 6) % UINT32) + s
  }

  function Take(s: Bytes, n: nat): Option<(Bytes, Bytes)> {
    if |s| < n then None else Some((s[..n], s[n..]))
  }

  function ReadScript(c: Curve, s: Bytes): Option<(Bytes, Bytes)> {
    match ReadInt(s, UINT32)
    case None => None
    case Some((n, t)) => ReadScriptBytes(c, n, t)
  }

  function ReadScriptBytes(c: Curve, n: nat, t: Bytes): Option<(Bytes, Bytes)> {
    if n < 6 then
      match Take(t, GetSpecialSize(n))
      case None => None
      case Some((v, rest)) => Some((Decompress(c, n, v), rest))
    else if n - 6 > MAX_SCRIPT_SIZE then
      match Take(t, n - 6)
      case None => None
      case Some((_, rest)) => Some(([OP_RETURN], rest))
    else Take(t, n - 6)
  }

  lemma TakeFront(v: Bytes, t: Bytes)
    ensures Take(v + t, |v|) == Some((v, t))
  {
    assert (v + t)[..|v|] == v && (v + t)[|v|..] == t;
  }

  lemma ReadSmall(x: Byte, t: Bytes)
    requires x < 128
    ensures ReadInt([x] + t, UINT32) == Some((x as nat, t))
  {
    assert ([x] + t)[1..] == t;
  }

  /** A special script is rebuilt from its number and the following bytes. */
  lemma SpecialRoundTrip(c: Curve, s: Bytes)
    requires CurveOk(c) && Compress(c, s).Some?
    ensures var v := Compress(c, s).value;
      |v| > 0 && v[0] < 6 && |v| == 1 + GetSpecialSize(v[0]) && Decompress(c, v[0], v[1..]) == s
  {
    var v := Compress(c, s).value;
    if IsToKeyID(s) {
      assert v[1..] == s[3..23];
      assert s == [OP_DUP, OP_HASH160, 20] + s[3..23] + [OP_EQUALVERIFY, OP_CHECKSIG];
    } else if IsToScriptID(s) {
      assert v[1..] == s[2..22];
      assert s == [OP_HASH160, 20] + s[2..22] + [OP_EQUAL];
    } else if IsToShortKey(s) {
      assert v[1..] == s[2..34];
      assert s == [33, s[1]] + s[2..34] + [OP_CHECKSIG];
    } else {
      LongKeyRoundTrip(c, s);
    }
  }

  lemma LongKeyRoundTrip(c: Curve, s: Bytes)
    requires CurveOk(c) && IsToLongKey(c, s)
    ensures Decompress(c, 4 + s[65] as nat % 2, s[2..34]) == s
  {
    var key := s[1..66];
    assert key[1..33] == s[2..34] && key[64] == s[65] && key[0] == 4;
    assert s == [65] + key + [OP_CHECKSIG];
  }

  /** What the six special numbers stand for, byte by byte. */
  lemma SpecialNumbers(c: Curve, v: Bytes, w: Bytes)
    requires |v| == 20 && |w| == 32
    ensures Decompress(c, 0, v) == [0x76, 0xa9, 0x14] + v + [0x88, 0xac]
    ensures Decompress(c, 1, v) == [0xa9, 0x14] + v + [0x87]
    ensures Decompress(c, 2, w) == [0x21, 0x02] + w + [0xac] && Decompress(c, 3, w) == [0x21, 0x03] + w + [0xac]
    ensures c.decompress([2] + w).Some? ==> Decompress(c, 4, w) == [0x41] + c.decompress([2] + w).value + [0xac]
    ensures c.decompress([3] + w).Some? ==> Decompress(c, 5, w) == [0x41] + c.decompress([3] + w).value + [0xac]
  {
  }

  /** Every script within the size limit survives. */
  lemma ScriptRoundTrip(c: Curve, s: Bytes, t: Bytes)
    requires CurveOk(c) && |s| <= MAX_SCRIPT_SIZE
    ensures ReadScript(c, WriteScript(c, s) + t) == Some((s, t))
  {
    hide CurveOk, Decompress, ReadInt, VarInt;
    match Compress(c, s) {
      case Some(v) =>
        SpecialRoundTrip(c, s);
        var rest := v[1..] + t;
        assert v + t == [v[0]] + rest;
        ReadSmall(v[0], rest);
        TakeFront(v[1..], t);
      case None =>
        assert VarInt(|s| + 6) + s + t == VarInt(|s| + 6) + (s + t);
        IntRoundTrip(|s| + 6, UINT32, s + t);
        TakeFront(s, t);
    }
  }

  // ---------------------------------------------------------------------------
  // Outputs
  // ---------------------------------------------------------------------------

  datatype TxOut = TxOut(nValue: int, script: Bytes)

  const NULL_OUT := TxOut(-1, [])

  predicate IsNull(o: TxOut) { o.nValue == -1 }

  /** In-range amount and a script that is not too long. */
  predicate InRange(o: TxOut) { 0 <= o.nValue <= MAX_MONEY && |o.script| <= MAX_SCRIPT_SIZE }

  /** Amounts are signed; compression works on their 64 bits. */
  function ToUint64(v: int): nat { v % UINT64 }

  function ToInt64(n: nat): int { if n < 0x8000_0000_0000_0000 then n else n - UINT64 }

  function WriteOut(c: Curve, o: TxOut): Bytes {
    VarInt(CompressAmount(ToUint64(o.nValue)) % UINT64) + WriteScript(c, o.script)
  }

  function ReadOut(c: Curve, s: Bytes): Option<(TxOut, Bytes)> {
    match ReadInt(s, UINT64)
    case None => None
    case Some((x, t)) =>
      match ReadScript(c, t)
      case None => None
      case Some((script, rest)) => Some((TxOut(ToInt64(DecompressAmount(x) % UINT64), script), rest))
  }

  /** An output in range survives in 64-bit arithmetic: nothing wraps on the way. */
  lemma OutRoundTrip(c: Curve, o: TxOut, t: Bytes)
    requires CurveOk(c) && InRange(o)
    ensures ReadOut(c, WriteOut(c, o) + t) == Some((o, t))
  {
    hide CompressAmount, DecompressAmount, ReadScript, WriteScript, VarInt, ReadInt, CurveOk;
    var x, w := CompressAmount(o.nValue), WriteScript(c, o.script);
    AmountFits(o.nValue);
    assert WriteOut(c, o) + t == VarInt(x) + (w + t);
    IntRoundTrip(x, UINT64, w + t);
    ScriptRoundTrip(c, o.script, t);
    AmountRoundTrip(o.nValue);
  }

  method WriteTxOut(c: Curve, o: TxOut) returns (s: Bytes)
    ensures s == WriteOut(c, o)
  {
    hide CompressAmount, VarInt, Compress;
    var nVal := CompressAmount64(ToUint64(o.nValue));
    s := WriteVarInt(nVal, 8);
    var compr := Compress(c, o.script);
    if compr.Some? { return s + compr.value; }
    var nSize := WriteVarInt((|o.script| + 6) % UINT32, 4);
    assert s + nSize + o.script == s + (nSize + o.script);
    return s + nSize + o.script;
  }

  method ReadTxOut(c: Curve, s: Bytes) returns (r: Option<(TxOut, Bytes)>)
    ensures r == ReadOut(c, s)
  {
    hide DecompressAmount, ReadVar, ReadScriptBytes;
    var nVal := ReadVarInt(s, UINT64);
    if nVal.None? { return None; }
    var nValue := DecompressAmount64(nVal.value.0);
    var nSize := ReadVarInt(nVal.value.1, UINT32);
    if nSize.None? { return None; }
    var script := ReadScriptBytes(c, nSize.value.0, nSize.value.1);
    if script.None? { return None; }
    return Some((TxOut(ToInt64(nValue), script.value.0), script.value.1));
  }
}

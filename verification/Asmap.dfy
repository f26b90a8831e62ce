/**
 The ASMap bytecode of src/asmap.cpp: a bit string that maps a network address to the
 number of an autonomous system.

 A map is a sequence of variable-length instructions.  `SanityCheckASMap` scans it once from
 left to right with a stack of pending jump targets; `InterpretASMap` follows jumps through
 it for one address and has an `assert(false)` for every malformed situation.

 The specification is a recursive-descent grammar, `Parse`, that turns the bits into a
 decision tree, and the evaluation `Lookup` of such a tree.  The linear scan accepts exactly
 the maps of the grammar, and on those the interpreter returns what the tree returns.
 */
module Asmap {
  import opened Common
  import opened IntMath

  type Bits = seq<bool>

  const U32 := 0x1_0000_0000
  const INVALID := 0xFFFF_FFFF

  const TYPE_BIT_SIZES: seq<nat> := [0, 0, 1]
  const ASN_BIT_SIZES: seq<nat> := SizesFrom(15, 10)    // 15 .. 24
  const MATCH_BIT_SIZES: seq<nat> := SizesFrom(1, 8)    // 1 .. 8
  const JUMP_BIT_SIZES: seq<nat> := SizesFrom(5, 26)    // 5 .. 30

  function SizesFrom(lo: nat, n: nat): seq<nat> {
    seq(n, i requires 0 <= i < n => lo + i)
  }

  // ---------------------------------------------------------------------------
  // Variable-length numbers
  // ---------------------------------------------------------------------------

  /** The n bits from pos on, most significant first. */
  function Mantissa(m: Bits, pos: nat, n: nat): (v: nat)
    requires pos + n <= |m|
    ensures v < Pow2(n)
    decreases n
  {
    if n == 0 then 0
    else (if m[pos] then Pow2(n - 1) else 0) + Mantissa(m, pos + 1, n - 1)
  }

  datatype Number = Truncated | Number(val: nat, next: nat)

  /**
   A number is a unary choice of a size class followed by a mantissa of that size; the last
   class needs no terminating zero, and each skipped class shifts the value range up.
   */
  function Decode(m: Bits, pos: nat, minval: nat, sizes: seq<nat>): (d: Number)
    requires pos <= |m|
    ensures d.Number? ==> pos <= d.next <= |m| && minval <= d.val < minval + Span(sizes)
    ensures d.Number? && |sizes| > 1 ==> pos < d.next
    decreases |m| - pos
  {
    if |sizes| == 0 then Truncated
    else if |sizes| == 1 then DecodeMantissa(m, pos, minval, sizes[0])
    else if pos == |m| then Truncated
    else if m[pos] then Decode(m, pos + 1, minval + Pow2(sizes[0]), sizes[1..])
    else DecodeMantissa(m, pos + 1, minval, sizes[0])
  }

  function DecodeMantissa(m: Bits, pos: nat, minval: nat, size: nat): (d: Number)
    requires pos <= |m|
    ensures d.Number? ==> pos <= d.next <= |m| && minval <= d.val < minval + Pow2(size)
  {
    if pos + size > |m| then Truncated
    else Number(minval + Mantissa(m, pos, size), pos + size)
  }

  /** How many values a list of size classes can express. */
  function Span(sizes: seq<nat>): nat {
    if |sizes| == 0 then 0 else Pow2(sizes[0]) + Span(sizes[1..])
  }

  lemma {:induction false} SpanOfConsecutiveSizes(sizes: seq<nat>, lo: nat)
    requires |sizes| > 0
    requires forall i :: 0 <= i < |sizes| ==> sizes[i] == lo + i
    ensures Span(sizes) + Pow2(lo) == Pow2(lo + |sizes|)
    decreases |sizes|
  {
    if |sizes| > 1 { SpanOfConsecutiveSizes(sizes[1..], lo + 1); }
  }

  lemma Pow2Of31()
    ensures Pow2(31) == 0x8000_0000
  {
    assert Pow2(8) == 0x100;
    assert Pow2(16) == 0x1_0000;
    assert Pow2(24) == 0x100_0000;
  }

  lemma TypeRange()
    ensures Span(TYPE_BIT_SIZES) == 4
  {
    assert TYPE_BIT_SIZES[1..] == [0, 1] && [0, 1][1..] == [1];
    assert Span([1]) == 2;
  }

  lemma MatchRange()
    ensures 2 + Span(MATCH_BIT_SIZES) == 512
  {
    SpanOfConsecutiveSizes(MATCH_BIT_SIZES, 1);
    assert Pow2(9) == 512 && Pow2(1) == 2;
  }

  /** Every operand stays far below the INVALID marker. */
  lemma OperandRange(sizes: seq<nat>, lo: nat)
    requires 0 < |sizes| && lo + |sizes| <= 31
    requires forall i :: 0 <= i < |sizes| ==> sizes[i] == lo + i
    ensures 17 + Span(sizes) < INVALID
  {
    SpanOfConsecutiveSizes(sizes, lo);
    Pow2Monotone(lo + |sizes|, 31);
    Pow2Of31();
  }

  /** The inner loop of DecodeBits: reads a mantissa bit by bit. */
  method ReadMantissa(m: Bits, start: nat, base: nat, size: nat) returns (val: nat, pos: nat)
    requires start <= |m| && base + Pow2(size) <= INVALID
    ensures start <= pos <= |m|
    ensures match DecodeMantissa(m, start, base, size)
            case Truncated => val == INVALID
            case Number(v, next) => val == v && pos == next && v < INVALID
  {
    hide Pow2;
    val, pos := base, start;
    var b := 0;
    while b < size
      invariant 0 <= b <= size && pos == start + b <= |m|
      invariant val + Pow2(size - b) <= base + Pow2(size)
      invariant start + size <= |m| ==>
        val + Mantissa(m, pos, size - b) == base + Mantissa(m, start, size)
    {
      if pos == |m| { return INVALID, pos; }
      Pow2Step(size - b);
      ghost var atBit := pos;
      var add := if m[pos] then Pow2(size - 1 - b) else 0;
      assert val + add < U32;
      val := (val + add) % U32;
      pos := pos + 1;
      b := b + 1;
      if start + size <= |m| {
        assert Mantissa(m, atBit, size - b + 1) == add + Mantissa(m, pos, size - b);
      }
    }
    Pow2Step(0);
  }

  /** The reader of the source: a cursor, 32-bit arithmetic and an in-band failure value. */
  method DecodeBits(m: Bits, start: nat, minval: nat, sizes: seq<nat>) returns (val: nat, pos: nat)
    requires start <= |m|
    requires minval + Span(sizes) <= INVALID
    ensures start <= pos <= |m|
    ensures match Decode(m, start, minval, sizes)
            case Truncated => val == INVALID
            case Number(v, next) => val == v && pos == next && v < INVALID
  {
    val, pos := minval, start;
    var k := 0;
    while k < |sizes|
      invariant 0 <= k <= |sizes| && start <= pos <= |m|
      invariant val + Span(sizes[k..]) == minval + Span(sizes)
      invariant Decode(m, pos, val, sizes[k..]) == Decode(m, start, minval, sizes)
    {
      assert sizes[k..][1..] == sizes[k + 1..];
      if k + 1 == |sizes| {
        val, pos := ReadMantissa(m, pos, val, sizes[k]);
        return;
      }
      if pos == |m| { break; }
      var bit := m[pos];
      pos := pos + 1;
      if !bit {
        val, pos := ReadMantissa(m, pos, val, sizes[k]);
        return;
      }
      val := (val + Pow2(sizes[k])) % U32;
      k := k + 1;
    }
    return INVALID, pos;
  }

  // ---------------------------------------------------------------------------
  // Instructions
  // ---------------------------------------------------------------------------

  /** The number of binary digits of x. */
  function CountBits(x: nat): (n: nat)
    ensures x < Pow2(n)
    ensures x > 0 ==> n > 0 && Pow2(n - 1) <= x
  {
    if x == 0 then 0 else 1 + CountBits(x / 2)
  }

  /** A match operand is a one bit followed by the address bits to compare with. */
  function Pattern(operand: nat): (p: Bits)
    requires operand > 0
    ensures |p| == CountBits(operand) - 1
  {
    var len := CountBits(operand) - 1;
    seq(len, i requires 0 <= i < len => operand / Pow2(len - 1 - i) % 2 == 1)
  }

  datatype Instruction =
    | Bad
    | Return(asn: nat, next: nat)
    | Jump(distance: nat, next: nat)
    | Match(pattern: Bits, next: nat)
    | Default(asn: nat, next: nat)

  function Fetch(m: Bits, pos: nat): (i: Instruction)
    requires pos <= |m|
    ensures !i.Bad? ==> pos < i.next <= |m|
  {
    match Decode(m, pos, 0, TYPE_BIT_SIZES)
    case Truncated => Bad
    case Number(opcode, at) => Operand(m, opcode, at)
  }

  function Operand(m: Bits, opcode: nat, at: nat): (i: Instruction)
    requires at <= |m|
    ensures !i.Bad? ==> at < i.next <= |m|
  {
    if opcode == 0 || opcode == 3 then
      match Decode(m, at, 1, ASN_BIT_SIZES)
      case Truncated => Bad
      case Number(asn, next) => if opcode == 0 then Return(asn, next) else Default(asn, next)
    else if opcode == 1 then
      match Decode(m, at, 17, JUMP_BIT_SIZES)
      case Truncated => Bad
      case Number(distance, next) => Jump(distance, next)
    else
      match Decode(m, at, 2, MATCH_BIT_SIZES)
      case Truncated => Bad
      case Number(operand, next) => Match(Pattern(operand), next)
  }

  // ---------------------------------------------------------------------------
  // The grammar of well-formed maps and the trees they denote
  // ---------------------------------------------------------------------------

  datatype Tree =
    | Leaf(asn: nat)
    | Branch(zero: Tree, one: Tree)
    | Test(pattern: Bits, then_: Tree)
    | Fallback(asn: nat, in_: Tree)

  /** What the instruction before the current one forbids. */
  datatype Context = AfterJump | AfterMatch(short: bool) | AfterDefault

  datatype Parsed = Reject | Accept(tree: Tree, end: nat)

  /** The tree never looks at more than n address bits. */
  predicate Fits(t: Tree, n: nat) {
    match t
    case Leaf(_) => true
    case Branch(zero, one) => n > 0 && Fits(zero, n - 1) && Fits(one, n - 1)
    case Test(pattern, next) => |pattern| <= n && Fits(next, n - |pattern|)
    case Fallback(_, next) => Fits(next, n)
  }

  /**
   Recursive descent.  A jump is followed by the zero subtree, which must end exactly at the
   jump target, and then by the one subtree.  Two defaults in a row, a default before a
   return, and two short matches in a row are not canonical.
   */
  function Parse(m: Bits, pos: nat, bits: nat, ctx: Context): (r: Parsed)
    requires pos <= |m|
    ensures r.Accept? ==> pos < r.end <= |m| && Fits(r.tree, bits)
    decreases |m| - pos
  {
    match Fetch(m, pos)
    case Bad => Reject
    case Return(asn, next) =>
      if ctx.AfterDefault? then Reject else Accept(Leaf(asn), next)
    case Jump(distance, next) =>
      if bits == 0 then Reject else
      var zero := Parse(m, next, bits - 1, AfterJump);
      if zero.Reject? || zero.end != next + distance then Reject else
      var one := Parse(m, zero.end, bits - 1, AfterJump);
      if one.Reject? then Reject else Accept(Branch(zero.tree, one.tree), one.end)
    case Match(pattern, next) =>
      if |pattern| < 8 && ctx.AfterMatch? && ctx.short then Reject
      else if bits < |pattern| then Reject else
      var rest := Parse(m, next, bits - |pattern|, AfterMatch(|pattern| < 8));
      if rest.Reject? then Reject else Accept(Test(pattern, rest.tree), rest.end)
    case Default(asn, next) =>
      if ctx.AfterDefault? then Reject else
      var rest := Parse(m, next, bits, AfterDefault);
      if rest.Reject? then Reject else Accept(Fallback(asn, rest.tree), rest.end)
  }

  /** Only zero bits up to the end of the last byte. */
  predicate Padding(m: Bits, pos: nat)
    requires pos <= |m|
  {
    |m| - pos <= 7 && forall i :: pos <= i < |m| ==> !m[i]
  }

  predicate WellFormed(m: Bits, bits: nat) {
    var r := Parse(m, 0, bits, AfterJump);
    r.Accept? && Padding(m, r.end)
  }

  function TreeOf(m: Bits, bits: nat): (t: Tree)
    requires WellFormed(m, bits)
    ensures Fits(t, bits)
  {
    Parse(m, 0, bits, AfterJump).tree
  }

  /** What a decision tree answers for the remaining address bits, given the current default. */
  function Lookup(t: Tree, ip: Bits, default: nat): nat
    requires Fits(t, |ip|)
  {
    match t
    case Leaf(asn) => asn
    case Branch(zero, one) => Lookup(if ip[0] then one else zero, ip[1..], default)
    case Test(pattern, next) =>
      if pattern <= ip then Lookup(next, ip[|pattern|..], default) else default
    case Fallback(asn, next) => Lookup(next, ip, asn)
  }

  // ---------------------------------------------------------------------------
  // The interpreter
  // ---------------------------------------------------------------------------

  method DecodeType(m: Bits, start: nat) returns (opcode: nat, pos: nat)
    requires start <= |m|
    ensures start <= pos <= |m| && (opcode < 4 || opcode == INVALID)
    ensures Fetch(m, start) == if opcode == INVALID then Bad else Operand(m, opcode, pos)
  {
    TypeRange();
    opcode, pos := DecodeBits(m, start, 0, TYPE_BIT_SIZES);
  }

  method DecodeASN(m: Bits, start: nat) returns (asn: nat, pos: nat)
    requires start <= |m|
    ensures start <= pos <= |m|
    ensures Operand(m, 0, start) == if asn == INVALID then Bad else Return(asn, pos)
    ensures Operand(m, 3, start) == if asn == INVALID then Bad else Default(asn, pos)
  {
    OperandRange(ASN_BIT_SIZES, 15);
    asn, pos := DecodeBits(m, start, 1, ASN_BIT_SIZES);
  }

  method DecodeMatch(m: Bits, start: nat) returns (operand: nat, pos: nat)
    requires start <= |m|
    ensures start <= pos <= |m| && operand > 0
    ensures Operand(m, 2, start) == if operand == INVALID then Bad else Match(Pattern(operand), pos)
  {
    MatchRange();
    operand, pos := DecodeBits(m, start, 2, MATCH_BIT_SIZES);
  }

  method DecodeJump(m: Bits, start: nat) returns (distance: nat, pos: nat)
    requires start <= |m|
    ensures start <= pos <= |m|
    ensures Operand(m, 1, start) == if distance == INVALID then Bad else Jump(distance, pos)
  {
    OperandRange(JUMP_BIT_SIZES, 5);
    distance, pos := DecodeBits(m, start, 17, JUMP_BIT_SIZES);
  }

  /** The code at pos parses, and its tree gives the answer on the remaining address bits. */
  predicate Denotes(m: Bits, pos: nat, rest: Bits, ctx: Context, default: nat, answer: nat) {
    pos <= |m| &&
    var r := Parse(m, pos, |rest|, ctx);
    r.Accept? && Lookup(r.tree, rest, default) == answer
  }

  lemma StepJump(m: Bits, pos: nat, rest: Bits, ctx: Context, default: nat, answer: nat)
    requires Denotes(m, pos, rest, ctx, default, answer) && Fetch(m, pos).Jump?
    ensures var i := Fetch(m, pos);
            rest != [] && i.distance < |m| - i.next &&
            Denotes(m, if rest[0] then i.next + i.distance else i.next, rest[1..], AfterJump, default, answer)
  {
    hide Fetch;
    var i := Fetch(m, pos);
    var zero := Parse(m, i.next, |rest| - 1, AfterJump);
    var one := Parse(m, zero.end, |rest| - 1, AfterJump);
    assert Parse(m, pos, |rest|, ctx) == Accept(Branch(zero.tree, one.tree), one.end);
  }

  lemma StepMatch(m: Bits, pos: nat, rest: Bits, ctx: Context, default: nat, answer: nat)
    requires Denotes(m, pos, rest, ctx, default, answer) && Fetch(m, pos).Match?
    ensures var i := Fetch(m, pos);
            |i.pattern| <= |rest| &&
            if i.pattern <= rest
            then i.next < |m| && Denotes(m, i.next, rest[|i.pattern|..], AfterMatch(|i.pattern| < 8), default, answer)
            else default == answer
  {
    hide Fetch;
  }

  lemma StepReturn(m: Bits, pos: nat, rest: Bits, ctx: Context, default: nat, answer: nat)
    requires Denotes(m, pos, rest, ctx, default, answer) && Fetch(m, pos).Return?
    ensures Fetch(m, pos).asn == answer
  {
    hide Fetch;
  }

  lemma StepDefault(m: Bits, pos: nat, rest: Bits, ctx: Context, default: nat, answer: nat)
    requires Denotes(m, pos, rest, ctx, default, answer) && Fetch(m, pos).Default?
    ensures var i := Fetch(m, pos); i.next < |m| && Denotes(m, i.next, rest, AfterDefault, i.asn, answer)
  {
    hide Fetch;
  }

  lemma NeverBad(m: Bits, pos: nat, rest: Bits, ctx: Context, default: nat, answer: nat)
    requires Denotes(m, pos, rest, ctx, default, answer)
    ensures pos < |m| && !Fetch(m, pos).Bad?
  {
    hide Fetch;
  }

  lemma StartOfMap(m: Bits, ip: Bits)
    requires WellFormed(m, |ip|)
    ensures |m| > 0 && Denotes(m, 0, ip, AfterJump, 0, Lookup(TreeOf(m, |ip|), ip, 0))
  {
    hide Fetch;
  }

  /** Compares the leading remaining address bits with a match operand, consuming them. */
  method CompareBits(ip: Bits, bits: nat, operand: nat) returns (matched: bool, left: nat)
    requires operand > 0 && bits <= |ip| && |Pattern(operand)| <= bits
    ensures matched == (Pattern(operand) <= ip[|ip| - bits..])
    ensures matched ==> left == bits - |Pattern(operand)|
  {
    var matchlen := CountBits(operand) - 1;
    left := bits;
    for bit := 0 to matchlen
      invariant left == bits - bit
      invariant Pattern(operand)[..bit] <= ip[|ip| - bits..]
    {
      if ip[|ip| - left] != (operand / Pow2(matchlen - 1 - bit) % 2 == 1) {
        assert Pattern(operand)[bit] != ip[|ip| - bits..][bit];
        return false, left;
      }
      left := left - 1;
    }
    assert Pattern(operand)[..matchlen] == Pattern(operand);
    matched := true;
  }

  datatype Outcome = Answer(asn: nat) | AssertionFailed

  /**
   Follows the bytecode for one address.  AssertionFailed stands for reaching the
   `assert(false)` at the end; a well-formed map never does, and gives the tree's answer.
   */
  method InterpretASMap(m: Bits, ip: Bits) returns (r: Outcome)
    ensures |ip| < 256 && WellFormed(m, |ip|) ==> r == Answer(Lookup(TreeOf(m, |ip|), ip, 0))
  {
    hide Fetch, Operand, Parse, Lookup, Pattern, CountBits, Denotes, WellFormed, TreeOf;
    ghost var sound := |ip| < 256 && WellFormed(m, |ip|);
    ghost var answer := if sound then Lookup(TreeOf(m, |ip|), ip, 0) else 0;
    ghost var ctx := AfterJump;
    var pos, default := 0, 0;
    var bits: nat := |ip| % 256;
    assert ip[0..] == ip;
    if sound { StartOfMap(m, ip); }
    while pos != |m|
      invariant pos <= |m| && bits <= |ip|
      invariant sound ==> pos < |m| && Denotes(m, pos, ip[|ip| - bits..], ctx, default, answer)
      decreases |m| - pos
    {
      ghost var start, rest := pos, ip[|ip| - bits..];
      if sound { NeverBad(m, pos, rest, ctx, default, answer); }
      var opcode;
      opcode, pos := DecodeType(m, pos);
      if opcode == 0 {
        var asn;
        asn, pos := DecodeASN(m, pos);
        if asn == INVALID { break; }
        if sound { StepReturn(m, start, rest, ctx, default, answer); }
        return Answer(asn);
      } else if opcode == 1 {
        var jump;
        jump, pos := DecodeJump(m, pos);
        if jump == INVALID { break; }
        if sound { StepJump(m, start, rest, ctx, default, answer); }
        if bits == 0 { break; }
        if jump >= |m| - pos { break; }
        if ip[|ip| - bits] { pos := pos + jump; }
        bits := bits - 1;
        assert rest[1..] == ip[|ip| - bits..];
        ctx := AfterJump;
      } else if opcode == 2 {
        var operand;
        operand, pos := DecodeMatch(m, pos);
        if operand == INVALID { break; }
        if sound { StepMatch(m, start, rest, ctx, default, answer); }
        if bits < CountBits(operand) - 1 { break; }
        var matched;
        matched, bits := CompareBits(ip, bits, operand);
        if !matched { return Answer(default); }
        assert rest[|Pattern(operand)|..] == ip[|ip| - bits..];
        ctx := AfterMatch(|Pattern(operand)| < 8);
      } else if opcode == 3 {
        var asn;
        asn, pos := DecodeASN(m, pos);
        if asn == INVALID { break; }
        if sound { StepDefault(m, start, rest, ctx, default, answer); }
        default := asn;
        ctx := AfterDefault;
      } else {
        break;
      }
    }
    return AssertionFailed;
  }

  // ---------------------------------------------------------------------------
  // The verifier
  // ---------------------------------------------------------------------------

  datatype Pending = Pending(offset: nat, bits: nat)

  /**
   What is left to accept in the middle of the scan: the code at pos parses up to the innermost
   pending target, whose subtree parses up to the next target, and so on to the padding.
   */
  predicate Resume(m: Bits, pos: nat, bits: nat, ctx: Context, jumps: seq<Pending>)
    requires pos <= |m|
    decreases |jumps|
  {
    var r := Parse(m, pos, bits, ctx);
    r.Accept? &&
    if jumps == [] then Padding(m, r.end)
    else
      var top := jumps[|jumps| - 1];
      r.end == top.offset && Resume(m, r.end, top.bits, AfterJump, jumps[..|jumps| - 1])
  }

  lemma TargetPassed(m: Bits, pos: nat, bits: nat, ctx: Context, jumps: seq<Pending>)
    requires pos <= |m| && jumps != [] && jumps[|jumps| - 1].offset <= pos
    ensures !Resume(m, pos, bits, ctx, jumps)
  {
    hide Fetch;
  }

  lemma ScanReturn(m: Bits, pos: nat, bits: nat, ctx: Context, jumps: seq<Pending>)
    requires pos <= |m| && Fetch(m, pos).Return?
    ensures var next := Fetch(m, pos).next;
            Resume(m, pos, bits, ctx, jumps) ==
            (!ctx.AfterDefault? &&
             if jumps == [] then Padding(m, next)
             else
               var top := jumps[|jumps| - 1];
               next == top.offset && Resume(m, next, top.bits, AfterJump, jumps[..|jumps| - 1]))
  {
    hide Fetch;
  }

  /** A jump splits the parse in two: the first half pends on the target of the second. */
  lemma ScanJump(m: Bits, pos: nat, bits: nat, ctx: Context, jumps: seq<Pending>)
    requires pos <= |m| && Fetch(m, pos).Jump?
    ensures var i := Fetch(m, pos);
            var target := i.next + i.distance;
            Resume(m, pos, bits, ctx, jumps) ==
            (bits > 0 && target <= |m| &&
             Resume(m, i.next, bits - 1, AfterJump, jumps + [Pending(target, bits - 1)]))
    ensures var target := Fetch(m, pos).next + Fetch(m, pos).distance;
            jumps != [] && target >= jumps[|jumps| - 1].offset ==> !Resume(m, pos, bits, ctx, jumps)
  {
    hide Fetch;
    var i := Fetch(m, pos);
    if bits > 0 {
      var zero := Parse(m, i.next, bits - 1, AfterJump);
      var deeper := jumps + [Pending(i.next + i.distance, bits - 1)];
      assert deeper[|deeper| - 1] == Pending(i.next + i.distance, bits - 1);
      assert deeper[..|deeper| - 1] == jumps;
      if zero.Accept? && zero.end == i.next + i.distance {
        var one := Parse(m, zero.end, bits - 1, AfterJump);
        var whole := Parse(m, pos, bits, ctx);
        assert whole == if one.Reject? then Reject else Accept(Branch(zero.tree, one.tree), one.end);
      }
    }
  }

  lemma ScanMatch(m: Bits, pos: nat, bits: nat, ctx: Context, jumps: seq<Pending>)
    requires pos <= |m| && Fetch(m, pos).Match?
    ensures var i := Fetch(m, pos);
            Resume(m, pos, bits, ctx, jumps) ==
            (!(|i.pattern| < 8 && ctx.AfterMatch? && ctx.short) && |i.pattern| <= bits &&
             Resume(m, i.next, bits - |i.pattern|, AfterMatch(|i.pattern| < 8), jumps))
  {
    hide Fetch;
  }

  lemma ScanDefault(m: Bits, pos: nat, bits: nat, ctx: Context, jumps: seq<Pending>)
    requires pos <= |m| && Fetch(m, pos).Default?
    ensures Resume(m, pos, bits, ctx, jumps) ==
            (!ctx.AfterDefault? && Resume(m, Fetch(m, pos).next, bits, AfterDefault, jumps))
  {
    hide Fetch;
  }

  lemma ScanBad(m: Bits, pos: nat, bits: nat, ctx: Context, jumps: seq<Pending>)
    requires pos <= |m| && (pos == |m| || Fetch(m, pos).Bad?)
    ensures !Resume(m, pos, bits, ctx, jumps)
  {
    hide Fetch;
  }

  /** The padding loop after the last return. */
  method CheckPadding(m: Bits, start: nat) returns (ok: bool)
    requires start <= |m|
    ensures ok == Padding(m, start)
  {
    if |m| - start > 7 { return false; }
    var pos := start;
    while pos != |m|
      invariant start <= pos <= |m|
      invariant forall i :: start <= i < pos ==> !m[i]
      decreases |m| - pos
    {
      if m[pos] { return false; }
      pos := pos + 1;
    }
    return true;
  }

  /** The previous opcode and the flag of the scan, as one value. */
  function ScanContext(prev: nat, hadIncompleteMatch: bool): Context {
    if prev == 2 then AfterMatch(hadIncompleteMatch) else if prev == 3 then AfterDefault else AfterJump
  }

  /**
   The linear scan.  Offsets are kept in 32 bits, so the equivalence is for maps below 2^32
   bits; the scan accepts exactly the maps of the grammar.
   */
  method SanityCheckASMap(m: Bits, nbits: nat) returns (ok: bool)
    ensures |m| < U32 ==> ok == WellFormed(m, nbits)
  {
    hide Fetch, Operand, Parse, Resume, Pattern, CountBits;
    var jumps: seq<Pending> := [];
    var pos: nat, bits: nat, prev: nat := 0, nbits, 1;
    var hadIncompleteMatch := false;
    StartOfScan(m, nbits);
    while pos != |m|
      invariant pos <= |m| && 1 <= prev <= 3
      invariant |m| < U32 ==>
        WellFormed(m, nbits) == Resume(m, pos, bits, ScanContext(prev, hadIncompleteMatch), jumps)
      decreases |m| - pos
    {
      ghost var start, ctx := pos, ScanContext(prev, hadIncompleteMatch);
      if jumps != [] && pos % U32 >= jumps[|jumps| - 1].offset {
        if |m| < U32 { TargetPassed(m, pos, bits, ctx, jumps); }
        return false;
      }
      var opcode;
      opcode, pos := DecodeType(m, pos);
      if opcode == 0 {
        var asn;
        asn, pos := DecodeASN(m, pos);
        if asn == INVALID { ScanBad(m, start, bits, ctx, jumps); return false; }
        ScanReturn(m, start, bits, ctx, jumps);
        if prev == 3 { return false; }
        if jumps == [] {
          ok := CheckPadding(m, pos);
          return;
        }
        if pos % U32 != jumps[|jumps| - 1].offset { return false; }
        bits := jumps[|jumps| - 1].bits;
        jumps := jumps[..|jumps| - 1];
        prev := 1;
      } else if opcode == 1 {
        var jump;
        jump, pos := DecodeJump(m, pos);
        if jump == INVALID { ScanBad(m, start, bits, ctx, jumps); return false; }
        ScanJump(m, start, bits, ctx, jumps);
        if jump > |m| - pos { return false; }
        if bits == 0 { return false; }
        bits := bits - 1;
        var target := (pos + jump) % U32;
        if jumps != [] && target >= jumps[|jumps| - 1].offset { return false; }
        jumps := jumps + [Pending(target, bits)];
        prev := 1;
      } else if opcode == 2 {
        var operand;
        operand, pos := DecodeMatch(m, pos);
        if operand == INVALID { ScanBad(m, start, bits, ctx, jumps); return false; }
        ScanMatch(m, start, bits, ctx, jumps);
        var matchlen := CountBits(operand) - 1;
        if prev != 2 { hadIncompleteMatch := false; }
        if matchlen < 8 && hadIncompleteMatch { return false; }
        hadIncompleteMatch := matchlen < 8;
        if bits < matchlen { return false; }
        bits := bits - matchlen;
        prev := 2;
      } else if opcode == 3 {
        var asn;
        asn, pos := DecodeASN(m, pos);
        if asn == INVALID { ScanBad(m, start, bits, ctx, jumps); return false; }
        ScanDefault(m, start, bits, ctx, jumps);
        if prev == 3 { return false; }
        prev := 3;
      } else {
        ScanBad(m, start, bits, ctx, jumps);
        return false;
      }
    }
    ScanBad(m, pos, bits, ScanContext(prev, hadIncompleteMatch), jumps);
    return false;
  }

  lemma StartOfScan(m: Bits, nbits: nat)
    ensures WellFormed(m, nbits) == Resume(m, 0, nbits, AfterJump, [])
  {
    hide Fetch;
  }

  /** The two programs together: a map that passes the scan answers every address. */
  method LoadAndLookup(m: Bits, ip: Bits) returns (accepted: bool, r: Outcome)
    requires |m| < U32 && |ip| == 128
    ensures accepted == WellFormed(m, 128)
    ensures accepted ==> r == Answer(Lookup(TreeOf(m, 128), ip, 0))
  {
    accepted := SanityCheckASMap(m, 128);
    r := InterpretASMap(m, ip);
  }

  // ---------------------------------------------------------------------------
  // Every canonical tree has a map
  // ---------------------------------------------------------------------------

  function Binary(v: nat, n: nat): (e: Bits)
    requires v < Pow2(n)
    ensures |e| == n
    decreases n
  {
    if n == 0 then []
    else if v >= Pow2(n - 1) then [true] + Binary(v - Pow2(n - 1), n - 1)
    else [false] + Binary(v, n - 1)
  }

  lemma {:induction false} MantissaOfBinary(m: Bits, pos: nat, v: nat, n: nat)
    requires v < Pow2(n) && At(m, pos, Binary(v, n))
    ensures Mantissa(m, pos, n) == v
    decreases n
  {
    if n > 0 {
      var high := v >= Pow2(n - 1);
      var rest := if high then v - Pow2(n - 1) else v;
      assert Binary(v, n) == [high] + Binary(rest, n - 1);
      AtSplit(m, pos, [high], Binary(rest, n - 1));
      assert m[pos] == m[pos..pos + 1][0];
      MantissaOfBinary(m, pos + 1, rest, n - 1);
    }
  }

  function Encode(v: nat, minval: nat, sizes: seq<nat>): Bits
    requires minval <= v < minval + Span(sizes)
    decreases |sizes|, v
  {
    if |sizes| == 1 then assert Span(sizes[1..]) == 0; Binary(v - minval, sizes[0])
    else if v < minval + Pow2(sizes[0]) then [false] + Binary(v - minval, sizes[0])
    else [true] + Encode(v, minval + Pow2(sizes[0]), sizes[1..])
  }

  lemma {:induction false} DecodeOfEncode(m: Bits, pos: nat, v: nat, minval: nat, sizes: seq<nat>)
    requires minval <= v < minval + Span(sizes)
    requires At(m, pos, Encode(v, minval, sizes))
    ensures Decode(m, pos, minval, sizes) == Number(v, pos + |Encode(v, minval, sizes)|)
    decreases |sizes|
  {
    if |sizes| == 1 {
      assert Span(sizes[1..]) == 0;
      MantissaOfBinary(m, pos, v - minval, sizes[0]);
    } else if v < minval + Pow2(sizes[0]) {
      AtSplit(m, pos, [false], Binary(v - minval, sizes[0]));
      assert m[pos] == m[pos..pos + 1][0];
      MantissaOfBinary(m, pos + 1, v - minval, sizes[0]);
    } else {
      var rest := Encode(v, minval + Pow2(sizes[0]), sizes[1..]);
      AtSplit(m, pos, [true], rest);
      assert m[pos] == m[pos..pos + 1][0];
      DecodeOfEncode(m, pos + 1, v, minval + Pow2(sizes[0]), sizes[1..]);
    }
  }

  /** The match operand for a pattern: the pattern's bits after a leading one. */
  function OperandOf(p: Bits): (x: nat)
    ensures x > 0
  {
    if p == [] then 1
    else 2 * OperandOf(p[..|p| - 1]) + (if p[|p| - 1] then 1 else 0)
  }

  lemma {:induction false} OperandSize(p: Bits)
    ensures CountBits(OperandOf(p)) == |p| + 1
  {
    if p == [] {
      assert CountBits(1) == 1 + CountBits(0);
    } else {
      OperandSize(p[..|p| - 1]);
      assert OperandOf(p) / 2 == OperandOf(p[..|p| - 1]);
    }
  }

  lemma {:induction false} HalveTwice(x: nat, k: nat)
    ensures x / 2 / Pow2(k) == x / Pow2(k + 1)
  {
    var d := Pow2(k);
    var q := x / 2 / d;
    assert x / 2 == q * d + x / 2 % d;
    assert x == q * (2 * d) + (2 * (x / 2 % d) + x % 2);
    DivideExactly(x, 2 * d, q, 2 * (x / 2 % d) + x % 2);
  }

  lemma {:induction false} PatternOfOperand(p: Bits)
    ensures Pattern(OperandOf(p)) == p
  {
    OperandSize(p);
    if p != [] {
      var front, x := p[..|p| - 1], OperandOf(p);
      PatternOfOperand(front);
      assert x / 2 == OperandOf(front);
      forall i | 0 <= i < |p| ensures Pattern(x)[i] == p[i] {
        if i < |p| - 1 {
          HalveTwice(x, |p| - 2 - i);
          assert Pattern(x)[i] == Pattern(x / 2)[i] == front[i];
        } else {
          assert x / Pow2(0) == x;
        }
      }
    }
  }

  /** What a tree must satisfy to have an encoding that the scan accepts. */
  predicate Canonical(t: Tree, ctx: Context) {
    match t
    case Leaf(asn) => !ctx.AfterDefault? && IsAsn(asn)
    case Branch(zero, one) =>
      Canonical(zero, AfterJump) && Canonical(one, AfterJump) &&
      |EncodeTree(zero)| < 17 + Span(JUMP_BIT_SIZES)
    case Test(pattern, next) =>
      2 <= OperandOf(pattern) < 2 + Span(MATCH_BIT_SIZES) &&
      !(|pattern| < 8 && ctx.AfterMatch? && ctx.short) &&
      Canonical(next, AfterMatch(|pattern| < 8))
    case Fallback(asn, next) => !ctx.AfterDefault? && IsAsn(asn) && Canonical(next, AfterDefault)
  }

  predicate IsAsn(asn: nat) { 1 <= asn < 1 + Span(ASN_BIT_SIZES) }

  function EncodeAsn(asn: nat): Bits { if IsAsn(asn) then Encode(asn, 1, ASN_BIT_SIZES) else [] }

  function EncodeTree(t: Tree): Bits {
    match t
    case Leaf(asn) => [false] + EncodeAsn(asn)
    case Branch(zero, one) =>
      var z := EncodeTree(zero);
      [true, false] +
      (if 17 <= |z| < 17 + Span(JUMP_BIT_SIZES) then Encode(|z|, 17, JUMP_BIT_SIZES) else []) +
      (z + EncodeTree(one))
    case Test(pattern, next) =>
      var x := OperandOf(pattern);
      [true, true, false] +
      (if 2 <= x < 2 + Span(MATCH_BIT_SIZES) then Encode(x, 2, MATCH_BIT_SIZES) else []) +
      EncodeTree(next)
    case Fallback(asn, next) => [true, true, true] + EncodeAsn(asn) + EncodeTree(next)
  }

  lemma DecodeOpcode(m: Bits, pos: nat)
    ensures At(m, pos, [false]) ==> Decode(m, pos, 0, TYPE_BIT_SIZES) == Number(0, pos + 1)
    ensures At(m, pos, [true, false]) ==> Decode(m, pos, 0, TYPE_BIT_SIZES) == Number(1, pos + 2)
    ensures At(m, pos, [true, true, false]) ==> Decode(m, pos, 0, TYPE_BIT_SIZES) == Number(2, pos + 3)
    ensures At(m, pos, [true, true, true]) ==> Decode(m, pos, 0, TYPE_BIT_SIZES) == Number(3, pos + 3)
  {
    TypeRange();
    assert Encode(0, 0, TYPE_BIT_SIZES) == [false];
    assert TYPE_BIT_SIZES[1..] == [0, 1] && [0, 1][1..] == [1];
    assert Encode(1, 0, TYPE_BIT_SIZES) == [true, false];
    assert Binary(0, 1) == [false] && Binary(1, 1) == [true];
    assert Encode(2, 0, TYPE_BIT_SIZES) == [true, true, false];
    assert Encode(3, 0, TYPE_BIT_SIZES) == [true, true, true];
    if At(m, pos, [false]) { DecodeOfEncode(m, pos, 0, 0, TYPE_BIT_SIZES); }
    if At(m, pos, [true, false]) { DecodeOfEncode(m, pos, 1, 0, TYPE_BIT_SIZES); }
    if At(m, pos, [true, true, false]) { DecodeOfEncode(m, pos, 2, 0, TYPE_BIT_SIZES); }
    if At(m, pos, [true, true, true]) { DecodeOfEncode(m, pos, 3, 0, TYPE_BIT_SIZES); }
  }

  lemma {:induction false} EncodeLength(v: nat, minval: nat, sizes: seq<nat>, least: nat)
    requires minval <= v < minval + Span(sizes)
    requires forall i :: 0 <= i < |sizes| ==> least <= sizes[i]
    ensures |Encode(v, minval, sizes)| >= least + (if |sizes| > 1 then 1 else 0)
    decreases |sizes|
  {
    if |sizes| > 1 && v >= minval + Pow2(sizes[0]) {
      EncodeLength(v, minval + Pow2(sizes[0]), sizes[1..], least);
    }
  }

  /** The shortest subtree has 17 bits, which is the shortest jump. */
  lemma {:induction false} TreeLength(t: Tree, ctx: Context)
    requires Canonical(t, ctx)
    ensures |EncodeTree(t)| >= 17
  {
    hide Encode, Span, OperandOf;
    match t
    case Leaf(asn) => EncodeLength(asn, 1, ASN_BIT_SIZES, 15);
    case Branch(zero, one) => TreeLength(one, AfterJump);
    case Test(pattern, next) => TreeLength(next, AfterMatch(|pattern| < 8));
    case Fallback(_, next) => TreeLength(next, AfterDefault);
  }

  lemma FetchLeaf(m: Bits, pos: nat, asn: nat)
    requires IsAsn(asn) && At(m, pos, [false] + EncodeAsn(asn))
    ensures Fetch(m, pos) == Return(asn, pos + 1 + |EncodeAsn(asn)|)
  {
    hide Decode, Encode, SizesFrom, Span;
    AtSplit(m, pos, [false], EncodeAsn(asn));
    DecodeOpcode(m, pos);
    DecodeOfEncode(m, pos + 1, asn, 1, ASN_BIT_SIZES);
  }

  lemma FetchFallback(m: Bits, pos: nat, asn: nat)
    requires IsAsn(asn) && At(m, pos, [true, true, true] + EncodeAsn(asn))
    ensures Fetch(m, pos) == Default(asn, pos + 3 + |EncodeAsn(asn)|)
  {
    hide Decode, Encode, SizesFrom, Span;
    AtSplit(m, pos, [true, true, true], EncodeAsn(asn));
    DecodeOpcode(m, pos);
    DecodeOfEncode(m, pos + 3, asn, 1, ASN_BIT_SIZES);
  }

  lemma FetchTest(m: Bits, pos: nat, p: Bits)
    requires 2 <= OperandOf(p) < 2 + Span(MATCH_BIT_SIZES)
    requires At(m, pos, [true, true, false] + Encode(OperandOf(p), 2, MATCH_BIT_SIZES))
    ensures Fetch(m, pos) == Match(p, pos + 3 + |Encode(OperandOf(p), 2, MATCH_BIT_SIZES)|)
  {
    hide Decode, Encode, SizesFrom, Span, OperandOf, Pattern;
    AtSplit(m, pos, [true, true, false], Encode(OperandOf(p), 2, MATCH_BIT_SIZES));
    DecodeOpcode(m, pos);
    DecodeOfEncode(m, pos + 3, OperandOf(p), 2, MATCH_BIT_SIZES);
    PatternOfOperand(p);
  }

  lemma FetchBranch(m: Bits, pos: nat, d: nat)
    requires 17 <= d < 17 + Span(JUMP_BIT_SIZES)
    requires At(m, pos, [true, false] + Encode(d, 17, JUMP_BIT_SIZES))
    ensures Fetch(m, pos) == Jump(d, pos + 2 + |Encode(d, 17, JUMP_BIT_SIZES)|)
  {
    hide Decode, Encode, SizesFrom, Span;
    AtSplit(m, pos, [true, false], Encode(d, 17, JUMP_BIT_SIZES));
    DecodeOpcode(m, pos);
    DecodeOfEncode(m, pos + 2, d, 17, JUMP_BIT_SIZES);
  }

  /** A jump over exactly the zero subtree, then both subtrees. */
  lemma BranchLayout(m: Bits, pos: nat, zero: Tree, one: Tree) returns (next: nat)
    requires Canonical(Branch(zero, one), AfterJump) && At(m, pos, EncodeTree(Branch(zero, one)))
    ensures pos <= |m| && Fetch(m, pos) == Jump(|EncodeTree(zero)|, next)
    ensures At(m, next, EncodeTree(zero)) && At(m, next + |EncodeTree(zero)|, EncodeTree(one))
    ensures next + |EncodeTree(zero)| + |EncodeTree(one)| == pos + |EncodeTree(Branch(zero, one))| <= |m|
  {
    hide Fetch, Encode, Span, At;
    var z, o := EncodeTree(zero), EncodeTree(one);
    TreeLength(zero, AfterJump);
    var head := [true, false] + Encode(|z|, 17, JUMP_BIT_SIZES);
    AtSplit(m, pos, head, z + o);
    next := pos + |head|;
    AtSplit(m, next, z, o);
    FetchBranch(m, pos, |z|);
    AtEnd(m, next + |z|, o);
  }

  lemma AtEnd(m: Bits, pos: nat, e: Bits)
    requires At(m, pos, e)
    ensures pos + |e| <= |m|
  {
  }

  lemma ParseJump(m: Bits, pos: nat, bits: nat, ctx: Context, zero: Tree, one: Tree, mid: nat, end: nat)
    requires pos <= |m| && bits > 0 && Fetch(m, pos).Jump?
    requires mid == Fetch(m, pos).next + Fetch(m, pos).distance <= |m|
    requires Parse(m, Fetch(m, pos).next, bits - 1, AfterJump) == Accept(zero, mid)
    requires Parse(m, mid, bits - 1, AfterJump) == Accept(one, end)
    ensures Parse(m, pos, bits, ctx) == Accept(Branch(zero, one), end)
  {
    hide Fetch;
  }

  lemma ParseOther(m: Bits, pos: nat, bits: nat, ctx: Context)
    requires pos <= |m|
    ensures var i := Fetch(m, pos);
            var r := Parse(m, pos, bits, ctx);
            && (i.Return? && !ctx.AfterDefault? ==> r == Accept(Leaf(i.asn), i.next))
            && (i.Default? && !ctx.AfterDefault? ==>
                  var rest := Parse(m, i.next, bits, AfterDefault);
                  rest.Accept? ==> r == Accept(Fallback(i.asn, rest.tree), rest.end))
            && (i.Match? && !(|i.pattern| < 8 && ctx.AfterMatch? && ctx.short) && |i.pattern| <= bits ==>
                  var rest := Parse(m, i.next, bits - |i.pattern|, AfterMatch(|i.pattern| < 8));
                  rest.Accept? ==> r == Accept(Test(i.pattern, rest.tree), rest.end))
  {
    hide Fetch;
  }

  /** Round trip: parsing the encoding of a canonical tree gives the tree back. */
  lemma {:induction false} ParseOfEncode(m: Bits, pos: nat, t: Tree, bits: nat, ctx: Context)
    requires Canonical(t, ctx) && Fits(t, bits)
    requires pos <= |m| && At(m, pos, EncodeTree(t))
    ensures Parse(m, pos, bits, ctx) == Accept(t, pos + |EncodeTree(t)|)
    decreases t
  {
    hide Fetch, Parse, Encode, OperandOf, Span, IsAsn, At;
    ParseOther(m, pos, bits, ctx);
    match t
    case Leaf(asn) =>
      FetchLeaf(m, pos, asn);
    case Branch(zero, one) =>
      var next := BranchLayout(m, pos, zero, one);
      var mid := next + |EncodeTree(zero)|;
      ParseOfEncode(m, next, zero, bits - 1, AfterJump);
      ParseOfEncode(m, mid, one, bits - 1, AfterJump);
      ParseJump(m, pos, bits, ctx, zero, one, mid, mid + |EncodeTree(one)|);
    case Test(pattern, next) =>
      var head := [true, true, false] + Encode(OperandOf(pattern), 2, MATCH_BIT_SIZES);
      AtSplit(m, pos, head, EncodeTree(next));
      FetchTest(m, pos, pattern);
      ParseOfEncode(m, pos + |head|, next, bits - |pattern|, AfterMatch(|pattern| < 8));
    case Fallback(asn, next) =>
      var head := [true, true, true] + EncodeAsn(asn);
      AtSplit(m, pos, head, EncodeTree(next));
      FetchFallback(m, pos, asn);
      ParseOfEncode(m, pos + |head|, next, bits, AfterDefault);
  }

  /** Every canonical tree is the meaning of a well-formed map, whatever the zero padding. */
  lemma EveryTreeHasAMap(t: Tree, bits: nat, padding: nat)
    requires Canonical(t, AfterJump) && Fits(t, bits) && padding <= 7
    ensures var m := EncodeTree(t) + seq(padding, _ => false);
            WellFormed(m, bits) && TreeOf(m, bits) == t
  {
    hide Parse, EncodeTree, Canonical, Fits;
    var m := EncodeTree(t) + seq(padding, _ => false);
    assert m[0..|EncodeTree(t)|] == EncodeTree(t);
    ParseOfEncode(m, 0, t, bits, AfterJump);
  }

  // ---------------------------------------------------------------------------
  // The format in literals
  // ---------------------------------------------------------------------------

  lemma OperandFormats()
    ensures TYPE_BIT_SIZES == [0, 0, 1] && MATCH_BIT_SIZES == [1, 2, 3, 4, 5, 6, 7, 8]
    ensures ASN_BIT_SIZES == [15, 16, 17, 18, 19, 20, 21, 22, 23, 24]
    ensures JUMP_BIT_SIZES ==
      [5, 6, 7, 8, 9, 10, 11, 12, 13, 14, 15, 16, 17, 18, 19, 20, 21, 22, 23, 24, 25, 26, 27, 28, 29, 30]
    ensures Span(TYPE_BIT_SIZES) == 4 && 2 + Span(MATCH_BIT_SIZES) == 512
    ensures Span(ASN_BIT_SIZES) == 0x200_0000 - 0x8000 && 17 + Span(JUMP_BIT_SIZES) == 17 + 0x8000_0000 - 0x20
  {
    TypeRange();
    MatchRange();
    hide Span, Pow2;
    SpanOfConsecutiveSizes(ASN_BIT_SIZES, 15);
    SpanOfConsecutiveSizes(JUMP_BIT_SIZES, 5);
    Powers();
  }

  lemma Powers()
    ensures Pow2(5) == 0x20 && Pow2(15) == 0x8000 && Pow2(25) == 0x200_0000 && Pow2(31) == 0x8000_0000
  {
    assert Pow2(5) == 32;
    hide Pow2;
    Pow2Add(5, 5);
    Pow2Add(10, 5);
    Pow2Add(15, 10);
    Pow2Of31();
  }

  /** Bits are read most significant first: one more bit doubles what was read. */
  lemma {:induction false} MantissaAppend(m: Bits, pos: nat, n: nat)
    requires pos + n + 1 <= |m|
    ensures Mantissa(m, pos, n + 1) == 2 * Mantissa(m, pos, n) + (if m[pos + n] then 1 else 0)
    decreases n
  {
    if n > 0 { MantissaAppend(m, pos + 1, n - 1); }
  }

  /** The four instructions, each with an operand of its smallest class. */
  lemma InstructionForms(m: Bits, pos: nat)
    ensures At(m, pos, [false] + [false]) && pos + 17 <= |m| ==>
      Fetch(m, pos) == Return(1 + Mantissa(m, pos + 2, 15), pos + 17)
    ensures At(m, pos, [true, false] + [false]) && pos + 8 <= |m| ==>
      Fetch(m, pos) == Jump(17 + Mantissa(m, pos + 3, 5), pos + 8)
    ensures At(m, pos, [true, true, false] + [false]) && pos + 5 <= |m| ==>
      Fetch(m, pos) == Match([m[pos + 4]], pos + 5)
    ensures At(m, pos, [true, true, true] + [false]) && pos + 19 <= |m| ==>
      Fetch(m, pos) == Default(1 + Mantissa(m, pos + 4, 15), pos + 19)
  {
    hide Fetch, Mantissa, Pattern, At;
    if At(m, pos, [false] + [false]) && pos + 17 <= |m| { ReturnForm(m, pos); }
    if At(m, pos, [true, false] + [false]) && pos + 8 <= |m| { JumpForm(m, pos); }
    if At(m, pos, [true, true, false] + [false]) && pos + 5 <= |m| { MatchForm(m, pos); }
    if At(m, pos, [true, true, true] + [false]) && pos + 19 <= |m| { DefaultForm(m, pos); }
  }

  lemma ReturnForm(m: Bits, pos: nat)
    requires At(m, pos, [false] + [false]) && pos + 17 <= |m|
    ensures Fetch(m, pos) == Return(1 + Mantissa(m, pos + 2, 15), pos + 17)
  {
    hide Decode, SizesFrom, Mantissa;
    AtSplit(m, pos, [false], [false]);
    DecodeOpcode(m, pos);
    FirstClass(m, pos + 1);
  }

  lemma JumpForm(m: Bits, pos: nat)
    requires At(m, pos, [true, false] + [false]) && pos + 8 <= |m|
    ensures Fetch(m, pos) == Jump(17 + Mantissa(m, pos + 3, 5), pos + 8)
  {
    hide Decode, SizesFrom, Mantissa;
    AtSplit(m, pos, [true, false], [false]);
    DecodeOpcode(m, pos);
    FirstClass(m, pos + 2);
  }

  lemma MatchForm(m: Bits, pos: nat)
    requires At(m, pos, [true, true, false] + [false]) && pos + 5 <= |m|
    ensures Fetch(m, pos) == Match([m[pos + 4]], pos + 5)
  {
    hide Decode, SizesFrom, Mantissa, Pattern;
    AtSplit(m, pos, [true, true, false], [false]);
    DecodeOpcode(m, pos);
    FirstClass(m, pos + 3);
    OneBitPattern(m, pos + 4);
  }

  lemma DefaultForm(m: Bits, pos: nat)
    requires At(m, pos, [true, true, true] + [false]) && pos + 19 <= |m|
    ensures Fetch(m, pos) == Default(1 + Mantissa(m, pos + 4, 15), pos + 19)
  {
    hide Decode, SizesFrom, Mantissa;
    AtSplit(m, pos, [true, true, true], [false]);
    DecodeOpcode(m, pos);
    FirstClass(m, pos + 3);
  }

  lemma FirstClass(m: Bits, at: nat)
    requires At(m, at, [false])
    ensures at + 16 <= |m| ==> Decode(m, at, 1, ASN_BIT_SIZES) == Number(1 + Mantissa(m, at + 1, 15), at + 16)
    ensures at + 6 <= |m| ==> Decode(m, at, 17, JUMP_BIT_SIZES) == Number(17 + Mantissa(m, at + 1, 5), at + 6)
    ensures at + 2 <= |m| ==> Decode(m, at, 2, MATCH_BIT_SIZES) == Number(2 + Mantissa(m, at + 1, 1), at + 2)
  {
    hide Mantissa, Pow2;
    assert m[at..at + 1][0] == false;
  }

  lemma OneBitPattern(m: Bits, at: nat)
    requires at < |m|
    ensures Pattern(2 + Mantissa(m, at, 1)) == [m[at]]
  {
    assert Pow2(0) == 1;
    var x := 2 + Mantissa(m, at, 1);
    assert CountBits(x) == 2;
  }

  lemma EncodeFirst(v: nat, minval: nat, sizes: seq<nat>)
    requires |sizes| > 1 && minval <= v < minval + Pow2(sizes[0])
    ensures v < minval + Span(sizes) && Encode(v, minval, sizes) == [false] + Binary(v - minval, sizes[0])
  {
    hide Pow2, Binary;
  }

  lemma ShortestAsn()
    ensures IsAsn(1) && EncodeAsn(1) == [false] + Binary(0, 15)
  {
    hide Span, Binary, Pow2, Encode;
    EncodeFirst(1, 1, ASN_BIT_SIZES);
  }

  /** The shortest map: seventeen zero bits answer 1 for every address. */
  lemma ShortestMap(bits: nat, padding: nat)
    requires padding <= 7
    ensures EncodeTree(Leaf(1)) == seq(17, _ => false)
    ensures var m := seq(17 + padding, _ => false); WellFormed(m, bits) && TreeOf(m, bits) == Leaf(1)
  {
    hide EncodeAsn, WellFormed, TreeOf, IsAsn, Binary;
    ShortestAsn();
    ZeroBits(15);
    assert EncodeTree(Leaf(1)) == [false] + ([false] + seq(15, _ => false));
    assert seq(17 + padding, _ => false) == EncodeTree(Leaf(1)) + seq(padding, _ => false);
    EveryTreeHasAMap(Leaf(1), bits, padding);
  }

  lemma {:induction false} ZeroBits(n: nat)
    ensures Binary(0, n) == seq(n, _ => false)
    decreases n
  {
    if n > 0 { ZeroBits(n - 1); }
  }
}

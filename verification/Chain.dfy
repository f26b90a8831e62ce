/**
 The block tree and the active chain, src/chain.cpp and src/chain.h.  Blocks link to their
 predecessor and, for speed, to one far ancestor (the skip pointer); the active chain is a vector
 indexed by height.  Every fast operation is proved to agree with walking the predecessor links.
 */
module Chain {
  import opened IntMath

  // ---------------------------------------------------------------------------
  // Skip heights
  // ---------------------------------------------------------------------------

  /** Bitwise and. */
  function And(a: nat, b: nat): nat
    decreases a
  {
    if a == 0 || b == 0 then 0
    else (if a % 2 == 1 && b % 2 == 1 then 1 else 0) + 2 * And(a / 2, b / 2)
  }

  lemma {:induction false} AndShrinks(a: nat, b: nat)
    ensures And(a, b) <= a && And(a, b) <= b
    decreases a
  {
    if a != 0 && b != 0 { AndShrinks(a / 2, b / 2); }
  }

  function InvertLowestOne(n: nat): nat { if n == 0 then 0 else And(n, n - 1) }

  lemma Inverted(n: nat)
    requires n > 0
    ensures InvertLowestOne(n) < n
  {
    AndShrinks(n, n - 1);
  }

  /** Exactly the lowest one becomes a zero. */
  lemma {:induction false} LowestOneCleared(n: nat) returns (k: nat)
    requires n > 0
    ensures n == InvertLowestOne(n) + Pow2(k) && InvertLowestOne(n) % Pow2(k + 1) == 0
    decreases n
  {
    if n % 2 == 1 {
      k := 0;
      AndSelf(n / 2);
      assert And(n, n - 1) == 2 * And(n / 2, n / 2);
    } else {
      k := LowestOneCleared(n / 2);
      var m := InvertLowestOne(n / 2);
      assert InvertLowestOne(n) == 2 * m;
      DoubledMultiple(m, Pow2(k + 1));
      k := k + 1;
    }
  }

  lemma {:induction false} AndSelf(a: nat)
    ensures And(a, a) == a
    decreases a
  {
    if a != 0 { AndSelf(a / 2); }
  }

  lemma DoubledMultiple(m: nat, p: nat)
    requires p > 0 && m % p == 0
    ensures 2 * m % (2 * p) == 0
  {
    var q := m / p;
    assert 2 * m == q * (2 * p);
    DivideExactly(2 * m, 2 * p, q, 0);
  }

  function GetSkipHeight(height: int): int {
    if height < 2 then 0
    else if height % 2 == 1 then InvertLowestOne(InvertLowestOne(height - 1)) + 1
    else InvertLowestOne(height)
  }

  /** A skip pointer really goes back. */
  lemma SkipGoesBack(height: int)
    requires height >= 1
    ensures 0 <= GetSkipHeight(height) < height
  {
    hide InvertLowestOne;
    if height >= 2 {
      if height % 2 == 1 {
        Inverted(height - 1);
        if InvertLowestOne(height - 1) > 0 {
          Inverted(InvertLowestOne(height - 1));
        } else {
          ZeroStaysZero();
        }
      } else {
        Inverted(height);
      }
    }
  }

  /** For an even height the lowest one is cleared, for an odd one the two lowest ones above the last bit. */
  lemma SkipClearsOnes(height: int) returns (j: nat, k: nat)
    requires height >= 2
    ensures height % 2 == 0 ==>
      height == GetSkipHeight(height) + Pow2(j) && GetSkipHeight(height) % Pow2(j + 1) == 0
    ensures height % 2 == 1 ==>
      var rest := GetSkipHeight(height) - 1;
      && rest >= 0
      && if rest == 0 && height - 1 == Pow2(j) then true
         else height - 1 == rest + Pow2(k) + Pow2(j) && j < k && rest % Pow2(k + 1) == 0
  {
    hide InvertLowestOne;
    k := 0;
    if height % 2 == 0 {
      j := LowestOneCleared(height);
    } else {
      j := LowestOneCleared(height - 1);
      var once := InvertLowestOne(height - 1);
      if once == 0 {
        ZeroStaysZero();
      } else {
        k := LowestOneCleared(once);
        HigherOne(once, InvertLowestOne(once), j, k);
      }
    }
  }

  /** What is left is a multiple of twice the cleared power, so its lowest one is higher. */
  lemma HigherOne(n: nat, rest: nat, j: nat, k: nat)
    requires n % Pow2(j + 1) == 0 && n == rest + Pow2(k) && rest % Pow2(k + 1) == 0
    ensures j < k
  {
    hide Pow2;
    if k <= j {
      MultipleOfLower(n, j + 1, k + 1);
      Pow2Step(k + 1);
      DivideExactly(n, Pow2(k + 1), rest / Pow2(k + 1), Pow2(k));
    }
  }

  lemma MultipleOfLower(n: nat, a: nat, b: nat)
    requires b <= a && n % Pow2(a) == 0
    ensures n % Pow2(b) == 0
  {
    hide Pow2;
    Pow2Add(a - b, b);
    var q, m, p := n / Pow2(a), Pow2(a - b), Pow2(b);
    assert q * (m * p) == q * m * p;
    DivideExactly(n, p, q * m, 0);
  }

  lemma ZeroStaysZero()
    ensures InvertLowestOne(0) == 0
  {
  }

  // ---------------------------------------------------------------------------
  // Blocks
  // ---------------------------------------------------------------------------

  class Block {
    const pprev: Block?
    const nHeight: int
    const nTime: int
    const nTimeMax: int
    var pskip: Block?

    constructor (prev: Block?, time: int)
      ensures pprev == prev && nTime == time && pskip == null
      ensures nHeight == if prev == null then 0 else prev.nHeight + 1
      ensures nTimeMax == if prev == null then time else if prev.nTimeMax < time then time else prev.nTimeMax
    {
      pprev, nTime, pskip := prev, time, null;
      nHeight := if prev == null then 0 else prev.nHeight + 1;
      nTimeMax := if prev == null then time else if prev.nTimeMax < time then time else prev.nTimeMax;
    }
  }

  /** A block and everything before it is numbered consistently, down to a first block. */
  ghost predicate Linked(b: Block)
    decreases if b.nHeight < 0 then 0 else b.nHeight
  {
    && b.nHeight >= 0 && (b.pprev == null <==> b.nHeight == 0)
    && (b.pprev == null ==> b.nTimeMax == b.nTime)
    && (b.pprev != null ==>
          && b.pprev.nHeight == b.nHeight - 1
          && b.nTimeMax == (if b.pprev.nTimeMax < b.nTime then b.nTime else b.pprev.nTimeMax)
          && Linked(b.pprev))
  }

  /** What walking the predecessor links finds at a height. */
  ghost function Ancestor(b: Block, height: int): Block?
    requires Linked(b)
    decreases b.nHeight
  {
    if height < 0 || height > b.nHeight then null
    else if height == b.nHeight then b
    else Ancestor(b.pprev, height)
  }

  lemma {:induction false} AncestorFacts(b: Block, height: int)
    requires Linked(b) && 0 <= height <= b.nHeight
    ensures var a := Ancestor(b, height); a != null && a.nHeight == height && Linked(a)
    decreases b.nHeight
  {
    if height < b.nHeight { AncestorFacts(b.pprev, height); }
  }

  /** An ancestor's ancestors are the block's own. */
  lemma {:induction false} AncestorOfAncestor(b: Block, h: int, k: int)
    requires Linked(b) && 0 <= h <= b.nHeight && k <= h
    ensures var a := Ancestor(b, h); a != null && Linked(a) && Ancestor(a, k) == Ancestor(b, k)
    decreases b.nHeight
  {
    AncestorFacts(b, h);
    if h < b.nHeight { AncestorOfAncestor(b.pprev, h, k); }
  }

  // ---------------------------------------------------------------------------
  // The block index
  // ---------------------------------------------------------------------------

  class BlockIndex {
    var blocks: set<Block>

    /** Closed under predecessors; a skip pointer is missing or goes to the ancestor at the skip height. */
    ghost predicate Valid()
      reads this, blocks
    {
      forall b :: b in blocks ==> BlockOk(b)
    }

    ghost predicate BlockOk(b: Block)
      reads this, b
    {
      && Linked(b) && (b.pprev != null ==> b.pprev in blocks)
      && (b.pskip != null ==> b.nHeight > 0 && b.pskip in blocks && b.pskip == Ancestor(b, GetSkipHeight(b.nHeight)))
    }

    constructor ()
      ensures Valid() && blocks == {}
    {
      blocks := {};
    }

    /** Follows skip pointers, and finds what the predecessor links would. */
    method GetAncestor(b: Block, height: int) returns (r: Block?)
      requires Valid() && b in blocks
      ensures r == Ancestor(b, height) && (r != null ==> r in blocks)
    {
      hide GetSkipHeight, Linked;
      assert BlockOk(b);
      StartsAtSelf(b);
      if height > b.nHeight || height < 0 { return null; }
      var walk, heightWalk := b, b.nHeight;
      while heightWalk > height
        invariant walk in blocks && BlockOk(walk) && walk.nHeight == heightWalk && 0 <= height <= heightWalk
        invariant Ancestor(walk, height) == Ancestor(b, height)
      {
        var heightSkip := GetSkipHeight(heightWalk);
        var heightSkipPrev := GetSkipHeight(heightWalk - 1);
        SkipGoesBack(heightWalk);
        if walk.pskip != null &&
           (heightSkip == height || (heightSkip > height && !(heightSkipPrev < heightSkip - 2 && heightSkipPrev >= height))) {
          AncestorOfAncestor(walk, heightSkip, height);
          AncestorFacts(walk, heightSkip);
          assert BlockOk(walk.pskip);
          walk, heightWalk := walk.pskip, heightSkip;
        } else {
          StepBack(walk, height);
          assert walk.pprev != null;
          assert BlockOk(walk.pprev);
          walk, heightWalk := walk.pprev, heightWalk - 1;
        }
      }
      StartsAtSelf(walk);
      return walk;
    }

    method BuildSkip(b: Block)
      requires Valid() && Linked(b) && (b.pprev != null ==> b.pprev in blocks) && b !in blocks
      modifies b`pskip
      ensures Valid() && (b.pskip == if b.pprev == null then old(b.pskip) else Ancestor(b, GetSkipHeight(b.nHeight)))
      ensures b.pprev != null ==> b.pskip in blocks
    {
      hide GetSkipHeight;
      if b.pprev != null {
        SkipGoesBack(b.nHeight);
        AncestorFacts(b, GetSkipHeight(b.nHeight));
        b.pskip := GetAncestor(b.pprev, GetSkipHeight(b.nHeight));
      }
    }

    /** Adds a block after a known one, with its skip pointer. */
    method AddToBlockIndex(prev: Block?, time: int) returns (b: Block)
      requires Valid() && (prev != null ==> prev in blocks)
      modifies this
      ensures Valid() && fresh(b) && blocks == old(blocks) + {b} && b.pprev == prev
      ensures prev != null ==> b.pskip == Ancestor(b, GetSkipHeight(b.nHeight)) != null
    {
      hide GetSkipHeight;
      b := new Block(prev, time);
      if prev != null { assert BlockOk(prev); }
      assert Linked(b);
      BuildSkip(b);
      if prev != null {
        SkipGoesBack(b.nHeight);
      }
      blocks := blocks + {b};
    }
  }

  lemma StartsAtSelf(b: Block)
    requires Linked(b)
    ensures b.nHeight >= 0 && Ancestor(b, b.nHeight) == b && forall h :: h < 0 || h > b.nHeight ==> Ancestor(b, h) == null
  {
  }

  lemma StepBack(b: Block, h: int)
    requires Linked(b) && 0 <= h < b.nHeight
    ensures b.pprev != null && Linked(b.pprev) && b.pprev.nHeight == b.nHeight - 1
    ensures Ancestor(b, h) == Ancestor(b.pprev, h)
  {
  }

  // ---------------------------------------------------------------------------
  // The active chain
  // ---------------------------------------------------------------------------

  const MAX_LOCATOR_SZ := 101

  /** Entry h is the ancestor of the last entry at height h. */
  ghost predicate IsChain(v: seq<Block?>) {
    v != [] ==>
      var tip := v[|v| - 1];
      tip != null && Linked(tip) && tip.nHeight == |v| - 1 && forall h :: 0 <= h < |v| ==> v[h] == Ancestor(tip, h)
  }

  /** A block of the chain: the entries up to it are its ancestors. */
  lemma OnChain(v: seq<Block?>, h: nat)
    requires IsChain(v) && h < |v|
    ensures v[h] != null && Linked(v[h]) && v[h].nHeight == h
    ensures forall k :: 0 <= k <= h ==> v[k] == Ancestor(v[h], k)
  {
    hide Linked, Ancestor;
    var tip := v[|v| - 1];
    AncestorFacts(tip, h);
    forall k | 0 <= k <= h ensures v[k] == Ancestor(v[h], k) {
      AncestorOfAncestor(tip, h, k);
    }
  }

  /** vector::resize: cuts off the end, or fills up with null. */
  function Resized(v: seq<Block?>, n: nat): (r: seq<Block?>)
    ensures |r| == n && forall i :: 0 <= i < n ==> r[i] == if i < |v| then v[i] else null
  {
    if n <= |v| then v[..n] else v + seq(n - |v|, _ => null)
  }

  class ActiveChain {
    var vChain: seq<Block?>

    ghost predicate Valid()
      reads this
    {
      IsChain(vChain)
    }

    constructor ()
      ensures Valid() && vChain == []
    {
      vChain := [];
    }

    function Tip(): Block?
      reads this
    {
      if vChain == [] then null else vChain[|vChain| - 1]
    }

    function At(height: int): Block?
      reads this
    {
      if height < 0 || height >= |vChain| then null else vChain[height]
    }

    predicate Contains(b: Block)
      reads this
    {
      At(b.nHeight) == b
    }

    /** Stops at the first entry that is right already: the rest below it is right too. */
    method SetTip(b: Block?)
      requires Valid() && (b != null ==> Linked(b))
      modifies this
      ensures Valid() && Tip() == b
      ensures forall h :: 0 <= h < |vChain| ==> b != null && vChain[h] == Ancestor(b, h)
    {
      hide Linked, Ancestor, IsChain;
      if b == null {
        vChain := [];
        EmptyChain();
        return;
      }
      StartsAtSelf(b);
      ghost var was := vChain;
      vChain := Resized(vChain, b.nHeight + 1);
      var walk: Block? := b;
      ghost var h := b.nHeight;
      while walk != null && vChain[walk.nHeight] != walk
        invariant -1 <= h <= b.nHeight && |vChain| == b.nHeight + 1
        invariant if walk == null then h == -1 else h == walk.nHeight && h >= 0 && Linked(walk) && walk == Ancestor(b, h)
        invariant forall k :: h < k <= b.nHeight ==> vChain[k] == Ancestor(b, k)
        invariant forall k :: 0 <= k <= h ==> vChain[k] == if k < |was| then was[k] else null
        decreases h
      {
        vChain := vChain[walk.nHeight := walk];
        PrevOf(b, h);
        walk := walk.pprev;
        h := h - 1;
      }
      if walk != null {
        OnChain(was, h);
        forall k | 0 <= k <= h ensures vChain[k] == Ancestor(b, k) {
          AncestorOfAncestor(b, h, k);
        }
      }
      ChainOf(b, vChain);
    }

    /** The highest block that the chain and the branch of b have in common, if any. */
    method FindFork(index: BlockIndex, b: Block?) returns (r: Block?)
      requires Valid() && index.Valid() && (b != null ==> b in index.blocks)
      ensures r == null <==> b == null || forall h :: 0 <= h <= b.nHeight ==> !IsCommon(b, h)
      ensures r != null ==> b != null && IsCommon(b, r.nHeight) && r == Ancestor(b, r.nHeight) &&
                            (forall h :: r.nHeight < h <= b.nHeight ==> !IsCommon(b, h))
    {
      hide Linked, Ancestor, IsChain;
      if b == null { return null; }
      assert index.BlockOk(b);
      StartsAtSelf(b);
      r := b;
      if b.nHeight > |vChain| - 1 {
        r := index.GetAncestor(b, |vChain| - 1);
        if |vChain| > 0 { AncestorFacts(b, |vChain| - 1); }
      }
      ghost var h := if r == null then -1 else r.nHeight;
      while r != null && !Contains(r)
        invariant -1 <= h <= b.nHeight
        invariant if r == null then h == -1 else r in index.blocks && r.nHeight == h && h >= 0 && r == Ancestor(b, h)
        invariant forall k :: h < k <= b.nHeight ==> !IsCommon(b, k)
        decreases h
      {
        assert index.BlockOk(r);
        PrevOf(b, h);
        r := r.pprev;
        h := h - 1;
      }
      if r != null { assert IsCommon(b, r.nHeight) && 0 <= r.nHeight <= b.nHeight; }
    }

    /** Binary search for the first block whose running maximum of times reaches a time: the first with that time. */
    method FindEarliestAtLeast(time: int) returns (r: Block?)
      requires Valid()
      ensures r == null <==> forall h :: 0 <= h < |vChain| ==> TimeAt(vChain, h) < time
      ensures r != null ==>
        Contains(r) && r.nTime >= time && forall h :: 0 <= h < r.nHeight ==> TimeAt(vChain, h) < time
    {
      hide Linked, Ancestor, IsChain, TimeMaxAt;
      TimesOfChain(vChain);
      var lo, hi := 0, |vChain|;
      while lo < hi
        invariant 0 <= lo <= hi <= |vChain|
        invariant forall h :: 0 <= h < lo ==> TimeMaxAt(vChain, h) < time
        invariant forall h :: hi <= h < |vChain| ==> TimeMaxAt(vChain, h) >= time
      {
        var mid := (lo + hi) / 2;
        OnChain(vChain, mid);
        MaxIsStored(vChain, mid);
        if vChain[mid].nTimeMax < time { lo := mid + 1; } else { hi := mid; }
      }
      if lo == |vChain| { return null; }
      OnChain(vChain, lo);
      FirstReached(vChain, lo, time);
      assert TimeAt(vChain, lo) >= time;
      return vChain[lo];
    }

    /**
     Block hashes from b (or the tip) back to the first block, in steps that grow exponentially:
     each an ancestor, ever lower, and few enough for any peer.
     */
    method GetLocator(index: BlockIndex, start: Block?) returns (have: seq<Block>)
      requires Valid() && index.Valid() && (start != null ==> start in index.blocks)
      requires forall b :: b in vChain && b != null ==> b in index.blocks
      ensures var first := if start == null then Tip() else start;
        if first == null then have == []
        else IsLocator(first, have) && (first.nHeight < 0x4000_0000 ==> |have| <= 41 < MAX_LOCATOR_SZ)
    {
      hide Linked, Ancestor, IsChain, Pow2, IsLocator, IsPartial, StepAfter, TotalSteps;
      have := [];
      var nStep := 1;
      var walk := if start == null then Tip() else start;
      if walk == null { return; }
      ghost var first := walk;
      TipIsListed(vChain);
      assert index.BlockOk(first);
      StartsAtSelf(first);
      LocatorStart(first);
      var more := true;
      while more
        invariant walk != null && walk in index.blocks && 0 <= walk.nHeight <= first.nHeight
        invariant walk == Ancestor(first, walk.nHeight)
        invariant more ==> IsPartial(first, have, walk.nHeight) && nStep == StepAfter(|have|)
        invariant more ==> walk.nHeight == HeightAt(first.nHeight, |have|)
        invariant !more ==> IsLocator(first, have) && (first.nHeight < 0x4000_0000 ==> |have| <= 41)
        invariant more ==> |have| == 0 || TotalSteps(|have| - 1) < first.nHeight
        decreases more, walk.nHeight
      {
        LocatorPush(first, have, walk);
        LocatorSize(|have|, first.nHeight);
        have := have + [walk];
        if walk.nHeight == 0 {
          LocatorEnd(first, have);
          more := false;
        } else {
          assert index.BlockOk(walk);
          StepsGrow(|have|);
          var nHeight := if walk.nHeight - nStep > 0 then walk.nHeight - nStep else 0;
          AncestorOfAncestor(first, walk.nHeight, nHeight);
          AncestorFacts(first, nHeight);
          LowerPartial(first, have, walk.nHeight, nHeight);
          if Contains(walk) {
            OnChain(vChain, walk.nHeight);
            walk := At(nHeight);
          } else {
            walk := index.GetAncestor(walk, nHeight);
          }
          if |have| > 10 { nStep := nStep * 2; }
          LocatorSize(|have|, first.nHeight);
          assert first.nHeight < 0x4000_0000 ==> nStep <= 0x4000_0000;
        }
      }
    }

    /** The branch of b and the chain have the same block at a height. */
    ghost predicate IsCommon(b: Block, h: int)
      reads this
    {
      Linked(b) && 0 <= h < |vChain| && vChain[h] == Ancestor(b, h)
    }
  }

  /** Strictly lower and lower ancestors of first, all above a height. */
  ghost predicate IsPartial(first: Block, have: seq<Block>, height: int) {
    && Linked(first)
    && (have == [] ==> height == first.nHeight)
    && (have != [] ==> have[0] == first)
    && AncestorsAbove(first, have, height) && Descending(have) && OnSchedule(first, have)
  }

  ghost predicate AncestorsAbove(first: Block, have: seq<Block>, height: int)
    requires Linked(first)
  {
    forall i :: 0 <= i < |have| ==> height < have[i].nHeight <= first.nHeight && have[i] == Ancestor(first, have[i].nHeight)
  }

  predicate Descending(have: seq<Block>) { forall i, j :: 0 <= i < j < |have| ==> have[j].nHeight < have[i].nHeight }

  predicate OnSchedule(first: Block, have: seq<Block>) {
    forall i :: 0 <= i < |have| ==> have[i].nHeight == HeightAt(first.nHeight, i)
  }

  /** The height of entry i: eleven steps of one, then steps that double, and never below the first block. */
  function HeightAt(height: int, i: nat): int {
    if height - TotalSteps(i) > 0 then height - TotalSteps(i) else 0
  }

  /** A complete locator ends with the first block. */
  ghost predicate IsLocator(first: Block, have: seq<Block>) {
    IsPartial(first, have, -1) && have != [] && have[|have| - 1].nHeight == 0
  }

  /** The step to take after n entries, and the sum of the steps before. */
  function StepAfter(n: nat): (r: nat)
    ensures r >= 1
  {
    if n <= 10 then 1 else Pow2(n - 10)
  }

  function TotalSteps(n: nat): nat { if n <= 10 then n else 9 + Pow2(n - 10) }

  lemma EmptyChain()
    ensures IsChain([])
  {
  }

  lemma ChainOf(b: Block, v: seq<Block?>)
    requires Linked(b) && |v| == b.nHeight + 1 && forall k :: 0 <= k <= b.nHeight ==> v[k] == Ancestor(b, k)
    ensures IsChain(v) && v[|v| - 1] == b
  {
    StartsAtSelf(b);
  }

  /** The predecessor of an ancestor is the next ancestor. */
  lemma PrevOf(b: Block, h: int)
    requires Linked(b) && 0 <= h <= b.nHeight
    ensures Ancestor(b, h) != null && Linked(Ancestor(b, h))
    ensures h == 0 ==> Ancestor(b, h).pprev == null
    ensures h > 0 ==>
      var p := Ancestor(b, h).pprev;
      p == Ancestor(b, h - 1) && p != null && p.nHeight == h - 1 && Linked(p)
  {
    AncestorFacts(b, h);
    if h > 0 {
      AncestorOfAncestor(b, h, h - 1);
      var a := Ancestor(b, h);
      StepBack(a, h - 1);
      StartsAtSelf(a.pprev);
    }
  }

  lemma TipIsListed(v: seq<Block?>)
    ensures v != [] ==> v[|v| - 1] in v
  {
  }

  lemma LocatorStart(first: Block)
    requires Linked(first)
    ensures IsPartial(first, [], first.nHeight) && StepAfter(0) == 1 && TotalSteps(0) == 0
  {
  }

  lemma LocatorPush(first: Block, have: seq<Block>, b: Block)
    requires IsPartial(first, have, b.nHeight) && b == Ancestor(first, b.nHeight) && 0 <= b.nHeight <= first.nHeight
    requires b.nHeight == HeightAt(first.nHeight, |have|)
    ensures IsPartial(first, have + [b], b.nHeight - 1)
  {
    hide Linked, HeightAt, AncestorsAbove, Descending, OnSchedule;
    if have == [] { StartsAtSelf(first); }
    PushAncestor(first, have, b);
    PushLower(first, have, b);
    PushOnSchedule(first, have, b);
  }

  lemma PushAncestor(first: Block, have: seq<Block>, b: Block)
    requires Linked(first) && AncestorsAbove(first, have, b.nHeight)
    requires b == Ancestor(first, b.nHeight) && b.nHeight <= first.nHeight
    ensures AncestorsAbove(first, have + [b], b.nHeight - 1)
  {
    hide Linked, Ancestor;
  }

  lemma PushLower(first: Block, have: seq<Block>, b: Block)
    requires Linked(first) && AncestorsAbove(first, have, b.nHeight) && Descending(have)
    ensures Descending(have + [b])
  {
    hide Linked, Ancestor;
  }

  lemma PushOnSchedule(first: Block, have: seq<Block>, b: Block)
    requires OnSchedule(first, have) && b.nHeight == HeightAt(first.nHeight, |have|)
    ensures OnSchedule(first, have + [b])
  {
    hide HeightAt;
  }

  lemma LocatorEnd(first: Block, have: seq<Block>)
    requires have != [] && have[|have| - 1].nHeight == 0 && IsPartial(first, have, -1)
    ensures IsLocator(first, have)
  {
  }

  lemma LowerPartial(first: Block, have: seq<Block>, height: int, lower: int)
    requires IsPartial(first, have, height - 1) && have != [] && lower < height
    ensures IsPartial(first, have, lower)
  {
    hide Linked, Ancestor, Descending, OnSchedule;
  }

  /** After n entries, and with n of them being above the height reached so far. */
  lemma StepsGrow(n: nat)
    requires n >= 1
    ensures TotalSteps(n) == TotalSteps(n - 1) + StepAfter(n - 1)
    ensures StepAfter(n) == if n > 10 then 2 * StepAfter(n - 1) else StepAfter(n - 1)
  {
    if n == 11 { assert Pow2(1) == 2; }
  }

  lemma LocatorSize(n: nat, height: nat)
    requires n > 0 ==> TotalSteps(n - 1) < height
    ensures height < 0x4000_0000 ==> n + 1 <= 41 && StepAfter(n) <= 0x4000_0000
  {
    if height < 0x4000_0000 {
      BigPower();
      if n >= 41 { Pow2Monotone(30, n - 11); }
      if 10 < n <= 40 { Pow2Monotone(n - 10, 30); }
    }
  }

  lemma BigPower()
    ensures Pow2(30) == 0x4000_0000
  {
    assert Pow2(10) == 1024;
    Pow2Add(10, 10);
    Pow2Add(10, 20);
  }

  // ---------------------------------------------------------------------------
  // Times along the chain
  // ---------------------------------------------------------------------------

  ghost function TimeAt(v: seq<Block?>, h: nat): int
    requires h < |v|
  {
    if v[h] == null then 0 else v[h].nTime
  }

  ghost function TimeMaxAt(v: seq<Block?>, h: nat): int
    requires h < |v|
  {
    if v[h] == null then 0 else v[h].nTimeMax
  }

  lemma MaxIsStored(v: seq<Block?>, h: nat)
    requires h < |v| && v[h] != null
    ensures TimeMaxAt(v, h) == v[h].nTimeMax
  {
  }

  /** nTimeMax is the running maximum of nTime. */
  lemma MaxStep(v: seq<Block?>, h: nat)
    requires IsChain(v) && h < |v|
    ensures h == 0 ==> TimeMaxAt(v, h) == TimeAt(v, h)
    ensures h > 0 ==> TimeMaxAt(v, h) == if TimeMaxAt(v, h - 1) < TimeAt(v, h) then TimeAt(v, h) else TimeMaxAt(v, h - 1)
  {
    hide IsChain;
    OnChain(v, h);
    if h > 0 {
      OnChain(v, h - 1);
      PrevOf(v[h], h);
    }
  }

  lemma {:induction false} MaxGrows(v: seq<Block?>, g: nat, h: nat)
    requires IsChain(v) && g <= h < |v|
    ensures TimeMaxAt(v, g) <= TimeMaxAt(v, h) && TimeAt(v, g) <= TimeMaxAt(v, h)
    decreases h
  {
    hide IsChain, TimeMaxAt, TimeAt;
    MaxStep(v, h);
    if g < h { MaxGrows(v, g, h - 1); }
  }

  lemma TimesOfChain(v: seq<Block?>)
    requires IsChain(v)
    ensures forall g, h :: 0 <= g <= h < |v| ==> TimeMaxAt(v, g) <= TimeMaxAt(v, h)
    ensures forall h :: 0 <= h < |v| ==> TimeAt(v, h) <= TimeMaxAt(v, h)
  {
    hide IsChain, TimeMaxAt, TimeAt;
    forall g, h | 0 <= g <= h < |v| ensures TimeMaxAt(v, g) <= TimeMaxAt(v, h) { MaxGrows(v, g, h); }
    forall h | 0 <= h < |v| ensures TimeAt(v, h) <= TimeMaxAt(v, h) { MaxGrows(v, h, h); }
  }

  /** Where the maximum first reaches a time, the block itself does. */
  lemma FirstReached(v: seq<Block?>, h: nat, time: int)
    requires IsChain(v) && h < |v| && TimeMaxAt(v, h) >= time && (h > 0 ==> TimeMaxAt(v, h - 1) < time)
    ensures TimeAt(v, h) >= time
  {
    hide IsChain, TimeMaxAt, TimeAt;
    MaxStep(v, h);
  }
}

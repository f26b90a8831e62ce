/**
 The cuckoo cache of src/cuckoocache.h: eight possible slots per element, lazy garbage
 collection by a discardable flag per slot, and two epochs of live entries.  Hashes are an
 arbitrary function of the element; masking with a power of two minus one is a remainder.
 */
module Cuckoo {
  import opened IntMath

  // ---------------------------------------------------------------------------
  // Live slots of an epoch
  // ---------------------------------------------------------------------------

  /** Slots that must be kept and whose epoch flag is as given. */
  function Live(recent: seq<bool>, collected: seq<bool>, flag: bool): set<nat>
    requires |recent| == |collected|
  {
    set i: nat | i < |recent| && recent[i] == flag && !collected[i]
  }

  function Max(a: nat, b: nat): nat { if a < b then b else a }

  function One(b: bool): nat { if b then 1 else 0 }

  /** Changing the flags of one slot: what the slot counted before and after. */
  lemma FlagChange(r: seq<bool>, c: seq<bool>, r': seq<bool>, c': seq<bool>, i: nat, flag: bool)
    requires |r| == |c| == |r'| == |c'| && i < |r| && r' == r[i := r'[i]] && c' == c[i := c'[i]]
    ensures |Live(r', c', flag)| - One(r'[i] == flag && !c'[i]) == |Live(r, c, flag)| - One(r[i] == flag && !c[i])
  {
    var rest, rest' := Live(r, c, flag) - {i}, Live(r', c', flag) - {i};
    forall k: nat ensures k in rest <==> k in rest' {
      if k < |r| && k != i { assert r'[k] == r[k] && c'[k] == c[k]; }
    }
    assert rest' == rest;
    hide Live;
    SizeWithout(Live(r, c, flag), i);
    SizeWithout(Live(r', c', flag), i);
  }

  lemma SizeWithout(s: set<nat>, i: nat)
    ensures |s - {i}| == |s| - One(i in s)
  {
    if i !in s { assert s - {i} == s; }
  }

  // ---------------------------------------------------------------------------
  // Epochs
  // ---------------------------------------------------------------------------

  const UINT32: nat := 0x1_0000_0000
  const INVALID: nat := UINT32 - 1     // never the number of a slot

  /** 45 percent of the slots, in 32-bit arithmetic, and at least one. */
  function EpochSize(size: nat): (r: nat)
    ensures r >= 1
  {
    var r := 45 * size % UINT32 / 100;
    if r < 1 then 1 else r
  }

  function Slack(epochSize: nat): (r: nat)
    ensures r >= 1
  {
    if epochSize / 16 < 1 then 1 else epochSize / 16
  }

  /** The multiplication stays within 32 bits exactly for at most 2^26 slots. */
  lemma EpochSizeIsExact(depth: nat)
    requires depth <= 31
    ensures EpochSize(Pow2(depth)) == (if 45 * Pow2(depth) / 100 < 1 then 1 else 45 * Pow2(depth) / 100) <==> depth <= 26
  {
    Pow2Monotone(depth, 31);
    TwentySixBits();
    hide Pow2;
    if depth <= 26 {
      Pow2Monotone(depth, 26);
    } else {
      Pow2Monotone(27, depth);
    }
    WrapsAbove(Pow2(depth));
  }

  lemma WrapsAbove(size: nat)
    requires size <= 0x8000_0000
    ensures size <= 0x400_0000 ==> 45 * size % UINT32 == 45 * size
    ensures size >= 0x800_0000 ==> 45 * size % UINT32 < 45 * size - 100
  {
  }

  lemma TwentySixBits()
    ensures Pow2(26) == 0x400_0000 && Pow2(27) == 0x800_0000 && Pow2(31) == 0x8000_0000
  {
    assert Pow2(13) == 0x2000;
    Pow2Add(13, 13);
    Pow2Step(27);
    Pow2Add(26, 5);
    assert Pow2(5) == 32;
  }

  /** Within that range, both epochs with their slack fit the table. */
  lemma EpochsFit(depth: nat)
    requires 2 <= depth <= 26
    ensures 2 * (EpochSize(Pow2(depth)) + Slack(EpochSize(Pow2(depth)))) <= Pow2(depth)
  {
    TwentySixBits();
    Pow2Monotone(depth, 26);
    SmallTables();
    hide Pow2;
    if depth > 4 { Pow2Monotone(5, depth); }
    FitsTwice(Pow2(depth));
  }

  lemma FitsTwice(size: nat)
    requires size == 4 || size == 8 || size == 16 || 32 <= size <= 0x400_0000
    ensures 2 * (EpochSize(size) + Slack(EpochSize(size))) <= size
  {
    assert 45 * size % UINT32 == 45 * size;
  }

  lemma SmallTables()
    ensures Pow2(2) == 4 && Pow2(3) == 8 && Pow2(4) == 16 && Pow2(5) == 32
  {
  }

  // ---------------------------------------------------------------------------
  // The cache
  // ---------------------------------------------------------------------------

  /** No slot is recent any more, and those that were not may be discarded. */
  ghost predicate Aged(r: seq<bool>, c: seq<bool>, r': seq<bool>, c': seq<bool>) {
    |r| == |c| == |r'| == |c'| && forall k :: 0 <= k < |r| ==> !r'[k] && c'[k] == (c[k] || !r[k])
  }

  /** The flags after ageing: what was not recent may be discarded, too. */
  ghost predicate AgedFlags(r: seq<bool>, c: seq<bool>, c': seq<bool>) {
    |r| == |c| == |c'| && forall k :: 0 <= k < |c| ==> c'[k] == (c[k] || !r[k])
  }

  type Hash<!E> = (nat, E) -> nat

  /** The eight slots of an element. */
  function Locs<E>(hash: Hash<E>, size: nat, e: E): (r: seq<nat>)
    requires size > 0
    ensures |r| == 8 && forall k :: 0 <= k < 8 ==> r[k] < size
  {
    [Slot(hash(0, e), size), Slot(hash(1, e), size), Slot(hash(2, e), size), Slot(hash(3, e), size),
     Slot(hash(4, e), size), Slot(hash(5, e), size), Slot(hash(6, e), size), Slot(hash(7, e), size)]
  }

  function Slot(h: nat, size: nat): (r: nat)
    requires size > 0
    ensures r < size
  {
    h % size
  }

  /** Every slot that must be kept holds an element that belongs there. */
  ghost predicate Placed<E>(hash: Hash<E>, table: seq<E>, collected: seq<bool>) {
    && |table| == |collected| && |table| > 0
    && forall i :: 0 <= i < |table| && !collected[i] ==> i in Locs(hash, |table|, table[i])
  }

  /** std::find, as an index; eight when there is none. */
  function Find(locs: seq<nat>, x: nat): (k: nat)
    ensures k <= |locs| && (k < |locs| ==> locs[k] == x) && (k == |locs| <==> x !in locs) && x !in locs[..k]
  {
    if locs == [] then 0 else if locs[0] == x then 0 else 1 + Find(locs[1..], x)
  }

  /** The slot to swap with: after the last one; at first there is none, and it is the second. */
  function NextLoc(locs: seq<nat>, last: nat): (r: nat)
    requires |locs| == 8
    ensures last in locs ==> exists k :: 0 <= k < 8 && locs[k] == last && last !in locs[..k] && r == locs[(k + 1) % 8]
    ensures last !in locs ==> r == locs[1]
  {
    locs[(1 + Find(locs, last)) % 8]
  }

  class Cache<E(==, 0)> {
    const hash: Hash<E>
    const size: nat
    const depthLimit: nat
    const epochSize: nat
    var table: seq<E>
    var collected: seq<bool>          // may be discarded
    var recent: seq<bool>             // epoch_flags: inserted in the current epoch
    var counter: nat                  // epoch_heuristic_counter

    function Current(): nat
      requires |recent| == |collected|
      reads this
    {
      |Live(recent, collected, true)|
    }

    function Previous(): nat
      requires |recent| == |collected|
      reads this
    {
      |Live(recent, collected, false)|
    }

    ghost predicate Valid()
      reads this
    {
      && |table| == |collected| == |recent| == size && size > 0 && depthLimit > 0 && epochSize > 0
      && Placed(hash, table, collected)
      && Current() + counter <= epochSize + Slack(epochSize)
      && Previous() <= epochSize + Slack(epochSize)
    }

    /** Rounds the size down to a power of two; every slot is free. */
    constructor (depth: nat, h: Hash<E>, empty: E)
      requires 1 <= depth <= 31
      ensures Valid() && size == Pow2(depth) && epochSize == EpochSize(size) && Current() == Previous() == 0
    {
      hash, depthLimit, size, epochSize := h, depth, Pow2(depth), EpochSize(Pow2(depth));
      table := seq(Pow2(depth), _ => empty);
      collected := seq(Pow2(depth), _ => true);
      recent := seq(Pow2(depth), _ => false);
      counter := EpochSize(Pow2(depth));
      new;
      assert Live(recent, collected, true) == {} && Live(recent, collected, false) == {};
    }

    // ----- epochs -----------------------------------------------------------------

    /** Ages the entries when the current epoch is full: live entries never exceed two epochs. */
    method EpochCheck()
      requires Valid()
      modifies this`collected, this`recent, this`counter
      ensures Valid() && Current() + counter < epochSize + Slack(epochSize)
      ensures (recent == old(recent) && collected == old(collected)) ||
              (old(counter) == 0 && old(Current()) >= epochSize && Aged(old(recent), old(collected), recent, collected))
    {
      hide Live, Placed;
      if counter != 0 {
        counter := counter - 1;
        return;
      }
      var unused := CountUnused();
      if unused >= epochSize {
        AgeEntries();
        counter := epochSize;
      } else {
        counter := Max(1, Max(epochSize / 16, epochSize - unused));
      }
    }

    method CountUnused() returns (n: nat)
      requires |recent| == |collected| == size
      ensures n == Current()
    {
      n := 0;
      for i := 0 to size
        invariant n == |LiveBelow(recent, collected, i)|
      {
        OneFurther(recent, collected, i);
        if recent[i] && !collected[i] { n := n + 1; }
      }
      assert LiveBelow(recent, collected, size) == Live(recent, collected, true);
    }

    /** The previous epoch may be discarded; the current one becomes the previous one. */
    method AgeEntries()
      requires |recent| == |collected| == |table| == size && Placed(hash, table, collected)
      modifies this`collected, this`recent
      ensures |recent| == |collected| == size && Placed(hash, table, collected)
      ensures Current() == 0 && Previous() == old(Current())
      ensures Aged(old(recent), old(collected), recent, collected)
    {
      hide Locs;
      ghost var r, c := recent, collected;
      for i := 0 to size
        invariant |recent| == |collected| == size
        invariant forall k :: 0 <= k < i ==> !recent[k] && collected[k] == (c[k] || !r[k])
        invariant forall k :: i <= k < size ==> recent[k] == r[k] && collected[k] == c[k]
      {
        if recent[i] {
          recent := recent[i := false];
        } else {
          collected := collected[i := true];
        }
      }
      assert Live(recent, collected, true) == {};
      assert Live(recent, collected, false) == Live(r, c, true);
    }

    // ----- insertion and lookup -----------------------------------------------------

    /**
     Inserts an element.  If it is in one of its slots it is kept there.  Otherwise the table,
     as a multiset, loses exactly one element for it: one that could be discarded, or, when the
     search runs out of depth, the last one that was moved (which may be e itself).  Unless it is
     the one that is lost, it ends up in one of its slots.  The flags are those after the epoch check.
     */
    method Insert(e0: E) returns (ghost lost: E, ghost present: bool, ghost flags: seq<bool>)
      requires Valid()
      modifies this
      ensures Valid() && Current() <= epochSize + Slack(epochSize)
      ensures present <==> exists loc :: loc in Locs(hash, size, e0) && old(table)[loc] == e0
      ensures present ==> table == old(table) && exists loc :: loc in Locs(hash, size, e0) && Kept(e0, loc)
      ensures !present ==> multiset(table) + multiset{lost} == multiset(old(table)) + multiset{e0}
      ensures !present && lost != e0 ==> lost in old(table)
      ensures !present ==> lost == e0 || HasHome(e0)
      ensures flags == old(collected) || AgedFlags(old(recent), old(collected), flags)
      ensures !present && HasFree(Locs(hash, size, e0), flags) ==>
        HasHome(e0) && OneReplaced(old(table), table, e0, Locs(hash, size, e0), flags)
    {
      hide Live, Placed, Locs;
      lost, present := e0, false;
      EpochCheck();
      flags := collected;
      var k := 0;
      var locs := Locs(hash, size, e0);
      while k < 8
        invariant 0 <= k <= 8 && forall j :: 0 <= j < k ==> table[locs[j]] != e0
      {
        if table[locs[k]] == e0 {
          present := true;
          Keep(locs[k], true);
          assert locs[k] in locs && Kept(e0, locs[k]);
          return;
        }
        k := k + 1;
      }
      ghost var t := table;
      forall loc | loc in locs ensures t[loc] != e0 {
        var j :| 0 <= j < 8 && locs[j] == loc;
      }
      lost := Place(e0);
      if lost != e0 { WhoIsLost(t, table, e0, lost); }
    }

    /** The element is in one of its slots, which is not to be discarded. */
    ghost predicate HasHome(e: E)
      requires |table| == |collected| == size && size > 0
      reads this
    {
      exists loc :: loc in Locs(hash, size, e) && table[loc] == e && !collected[loc]
    }

    ghost predicate Kept(e: E, loc: nat)
      requires |table| == |collected| == |recent|
      reads this
    {
      loc < |table| && table[loc] == e && !collected[loc] && recent[loc]
    }

    /** please_keep, and a new epoch flag. */
    method Keep(loc: nat, flag: bool)
      requires |table| == |collected| == |recent| == size && loc < size && Placed(hash, table, collected)
      requires loc in Locs(hash, size, table[loc])
      modifies this`collected, this`recent
      ensures |recent| == size && Placed(hash, table, collected)
      ensures collected == old(collected)[loc := false] && recent[loc] == flag
      ensures Current() + One(old(recent[loc] && !collected[loc])) == old(Current()) + One(flag)
      ensures Previous() + One(old(!recent[loc] && !collected[loc])) == old(Previous()) + One(!flag)
    {
      hide Live, Locs;
      FlagChange(recent, collected, recent[loc := flag], collected[loc := false], loc, true);
      FlagChange(recent, collected, recent[loc := flag], collected[loc := false], loc, false);
      collected := collected[loc := false];
      recent := recent[loc := flag];
    }

    /** The search for a slot that may be discarded; the element in hand keeps its epoch flag. */
    method Place(e0: E) returns (ghost lost: E)
      requires Valid() && Current() + counter < epochSize + Slack(epochSize)
      modifies this`table, this`collected, this`recent
      ensures Valid() && multiset(table) + multiset{lost} == multiset(old(table)) + multiset{e0}
      ensures lost == e0 || HasHome(e0)
      ensures HasFree(Locs(hash, size, e0), old(collected)) ==>
        HasHome(e0) && OneReplaced(old(table), table, e0, Locs(hash, size, e0), old(collected))
    {
      hide Live, Placed, Locs, Slack;
      ghost var total, current, previous := multiset(table) + multiset{e0}, Current(), Previous();
      var e, lastEpoch, lastLoc := e0, true, INVALID;
      var locs := Locs(hash, size, e);
      for depth := 0 to depthLimit
        invariant |table| == |collected| == |recent| == size && Placed(hash, table, collected)
        invariant locs == Locs(hash, size, e) && collected == old(collected)
        invariant multiset(table) + multiset{e} == total
        invariant Current() + One(lastEpoch) == current + 1 && Previous() + One(!lastEpoch) == previous
        invariant depth > 0 ==> lastLoc in locs && !HasFree(Locs(hash, size, e0), old(collected))
        invariant depth == 0 ==> e == e0 && table == old(table)
        invariant e == e0 || HasHome(e0)
      {
        var free := FreeSlot(locs);
        if free < 8 {
          lost := table[locs[free]];
          assert locs[free] in locs;
          StoreFree(e, locs[free]);
          Keep(locs[free], lastEpoch);
          return;
        }
        lastLoc := NextLoc(locs, lastLoc);
        e, lastEpoch := SwapWith(lastLoc, e, lastEpoch);
        locs := Locs(hash, size, e);
      }
      lost := e;
    }

    /** The first of the slots that may be discarded, or eight. */
    method FreeSlot(locs: seq<nat>) returns (k: nat)
      requires |locs| == 8 && |collected| == size && forall j :: 0 <= j < 8 ==> locs[j] < size
      ensures k <= 8 && (k < 8 ==> collected[locs[k]]) && forall j :: 0 <= j < k ==> !collected[locs[j]]
    {
      k := 0;
      while k < 8 && !collected[locs[k]]
        invariant 0 <= k <= 8 && forall j :: 0 <= j < k ==> !collected[locs[j]]
      {
        k := k + 1;
      }
    }

    method StoreFree(e: E, loc: nat)
      requires |table| == |collected| == |recent| == size && loc < size && collected[loc] && Placed(hash, table, collected)
      modifies this`table
      ensures table == old(table)[loc := e] && Placed(hash, table, collected)
      ensures multiset(table) + multiset{old(table)[loc]} == multiset(old(table)) + multiset{e}
    {
      hide Locs;
      Exchange(table, loc, e);
      table := table[loc := e];
    }

    /** Puts the element in hand where another one is, and takes that one. */
    method SwapWith(loc: nat, e: E, epoch: bool) returns (e': E, epoch': bool)
      requires |table| == |collected| == |recent| == size && loc < size && !collected[loc]
      requires Placed(hash, table, collected) && loc in Locs(hash, size, e)
      modifies this`table, this`recent
      ensures |table| == |recent| == size && Placed(hash, table, collected)
      ensures table == old(table)[loc := e] && e' == old(table)[loc]
      ensures recent[loc] == epoch && loc in Locs(hash, size, e')
      ensures multiset(table) + multiset{e'} == multiset(old(table)) + multiset{e}
      ensures Current() + One(epoch') == old(Current()) + One(epoch)
      ensures Previous() + One(!epoch') == old(Previous()) + One(!epoch)
    {
      hide Live, Locs;
      e', epoch' := table[loc], recent[loc];
      Exchange(table, loc, e);
      FlagChange(recent, collected, recent[loc := epoch], collected, loc, true);
      FlagChange(recent, collected, recent[loc := epoch], collected, loc, false);
      table := table[loc := e];
      recent := recent[loc := epoch];
    }

    /** Looks an element up, and may mark it as discardable; discardable elements are still found. */
    method Contains(e: E, erase: bool) returns (found: bool)
      requires Valid()
      modifies this`collected
      ensures Valid() && (found <==> exists loc :: loc in Locs(hash, size, e) && table[loc] == e)
      ensures !(found && erase) ==> collected == old(collected)
      ensures found && erase ==> exists loc :: loc in Locs(hash, size, e) && table[loc] == e && collected == old(collected)[loc := true]
    {
      hide Live, Locs, Placed;
      var locs := Locs(hash, size, e);
      var k := 0;
      while k < 8
        invariant 0 <= k <= 8 && forall j :: 0 <= j < k ==> table[locs[j]] != e
      {
        if table[locs[k]] == e {
          assert locs[k] in locs;
          if erase { AllowErase(locs[k]); }
          return true;
        }
        k := k + 1;
      }
      return false;
    }

    method AllowErase(loc: nat)
      requires Valid() && loc < size
      modifies this`collected
      ensures Valid() && collected == old(collected)[loc := true]
    {
      hide Live, Locs;
      FlagChange(recent, collected, recent, collected[loc := true], loc, true);
      FlagChange(recent, collected, recent, collected[loc := true], loc, false);
      collected := collected[loc := true];
    }
  }

  /** Some of the slots may be discarded. */
  predicate HasFree(locs: seq<nat>, collected: seq<bool>) {
    exists k :: 0 <= k < |locs| && locs[k] < |collected| && collected[locs[k]]
  }

  /** Only one of the slots changed, one to be discarded: no other element was moved. */
  ghost predicate OneReplaced<E>(t: seq<E>, t': seq<E>, e: E, locs: seq<nat>, collected: seq<bool>) {
    exists loc :: loc in locs && loc < |t| == |collected| && collected[loc] && t' == t[loc := e]
  }

  lemma WhoIsLost<E>(t: seq<E>, t': seq<E>, e: E, lost: E)
    requires multiset(t') + multiset{lost} == multiset(t) + multiset{e} && lost != e
    ensures e in t' && lost in t
  {
    assert (multiset(t) + multiset{e})[e] == multiset(t)[e] + 1;
    assert (multiset(t') + multiset{lost})[e] == multiset(t')[e];
    assert (multiset(t') + multiset{lost})[lost] == multiset(t')[lost] + 1;
    assert (multiset(t) + multiset{e})[lost] == multiset(t)[lost];
    assert e in multiset(t') && lost in multiset(t);
  }

  lemma Exchange<E>(t: seq<E>, i: nat, x: E)
    requires i < |t|
    ensures multiset(t[i := x]) + multiset{t[i]} == multiset(t) + multiset{x}
  {
  }

  function LiveBelow(recent: seq<bool>, collected: seq<bool>, n: nat): set<nat>
    requires |recent| == |collected| && n <= |recent|
  {
    set i: nat | i < n && recent[i] && !collected[i]
  }

  lemma OneFurther(r: seq<bool>, c: seq<bool>, n: nat)
    requires |r| == |c| && n < |r|
    ensures |LiveBelow(r, c, n + 1)| == |LiveBelow(r, c, n)| + One(r[n] && !c[n])
  {
    var s := LiveBelow(r, c, n);
    assert LiveBelow(r, c, n + 1) == if r[n] && !c[n] then s + {n} else s;
  }

  // ---------------------------------------------------------------------------
  // Whole runs
  // ---------------------------------------------------------------------------

  datatype Op<E> = Insertion(e: E) | Lookup(e: E, erase: bool)

  /** After any run, what must be kept is where it belongs, and each epoch stays within its limit. */
  method Run<E(==, 0)>(depth: nat, h: Hash<E>, empty: E, ops: seq<Op<E>>) returns (c: Cache<E>)
    requires 1 <= depth <= 31
    ensures Placed(c.hash, c.table, c.collected) && |c.recent| == |c.collected| == c.size == Pow2(depth)
    ensures c.Current() <= EpochSize(c.size) + Slack(EpochSize(c.size))
    ensures c.Current() + c.Previous() <= 2 * (EpochSize(c.size) + Slack(EpochSize(c.size)))
  {
    hide Live, Placed, Locs, Pow2;
    c := new Cache<E>(depth, h, empty);
    for i := 0 to |ops|
      invariant fresh(c) && c.Valid() && c.size == Pow2(depth) && c.epochSize == EpochSize(c.size)
    {
      match ops[i] {
        case Insertion(e) => ghost var lost, present, flags := c.Insert(e);
        case Lookup(e, erase) => var found := c.Contains(e, erase);
      }
    }
  }
}

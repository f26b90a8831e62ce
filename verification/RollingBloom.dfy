/**
 The rolling bloom filter of src/bloom.cpp: every position holds a two-bit generation number,
 spread over the same bit of two neighbouring 64-bit words, and generations are wiped with
 word-wide masks.  The filter never forgets any of the last nElements keys.
 */
module RollingBloom {

  type Key = seq<bv8>
  type Bit = bv6
  type Hash = (nat, Key) -> bv32

  // ---------------------------------------------------------------------------
  // Positions
  // ---------------------------------------------------------------------------

  predicate IsSet(x: bv64, b: Bit) { (x >> b) & 1 == 1 }

  /** The generation number at bit b of words e and e + 1; zero means unset. */
  function GenAt(s: seq<bv64>, e: nat, b: Bit): (g: nat)
    requires e + 1 < |s|
    ensures g < 4
  {
    (if IsSet(s[e], b) then 1 else 0) + (if IsSet(s[e + 1], b) then 2 else 0)
  }

  function BitOf(h: bv32): Bit { (h & 0x3F) as bv6 }

  /** The first of the two words for a hash: the position with its lowest bit cleared. */
  function WordOf(h: bv32, size: nat): (e: nat)
    requires size > 0 && size % 2 == 0
    ensures e + 1 < size && e % 2 == 0
  {
    LowerOfPair(Modulo(HighBits(h), size), size)
  }

  function LowerOfPair(pos: nat, size: nat): (e: nat)
    requires pos < size && size % 2 == 0
    ensures e + 1 < size && e % 2 == 0
  {
    pos - pos % 2
  }

  function HighBits(h: bv32): nat { (h >> 6) as nat }

  function Modulo(x: nat, m: nat): (r: nat)
    requires m > 0
    ensures r < m
  {
    x % m
  }

  /** How many generations ago a generation number was current; there are three, in a cycle. */
  function AgeOf(current: nat, g: nat): nat { (current - g) % 3 }

  /** The position of a hash was set at most age generations ago. */
  predicate SetWithin(s: seq<bv64>, h: bv32, current: nat, age: nat)
    requires |s| > 0 && |s| % 2 == 0
  {
    var g := GenAt(s, WordOf(h, |s|), BitOf(h));
    g != 0 && AgeOf(current, g) <= age
  }

  ghost predicate KeyWithin(s: seq<bv64>, hash: Hash, nHashFuncs: nat, key: Key, current: nat, age: nat)
    requires |s| > 0 && |s| % 2 == 0
  {
    forall n :: 0 <= n < nHashFuncs ==> SetWithin(s, hash(n, key), current, age)
  }

  // ---------------------------------------------------------------------------
  // Word operations, bit by bit
  // ---------------------------------------------------------------------------

  /** Replaces one bit of a word. */
  function Replaced(x: bv64, b: Bit, value: bool): bv64 {
    (x & !(1 << b)) | ((if value then 1 else 0) << b)
  }

  lemma ReplacedBit(x: bv64, b: Bit, value: bool, c: Bit)
    ensures IsSet(Replaced(x, b, value), c) == if c == b then value else IsSet(x, c)
  {
    hide IsSet, Replaced;
    if c == b { SameBit(x, b, value); } else { OtherBit(x, b, value, c); }
  }

  lemma SameBit(x: bv64, b: Bit, value: bool)
    ensures IsSet(Replaced(x, b, value), b) == value
  {
  }

  lemma OtherBit(x: bv64, b: Bit, value: bool, c: Bit)
    requires c != b
    ensures IsSet(Replaced(x, b, value), c) == IsSet(x, c)
  {
  }

  function And(x: bv64, y: bv64): bv64 { x & y }

  function Or(x: bv64, y: bv64): bv64 { x | y }

  /** x ^ -(uint64_t)on: all bits flipped, or none. */
  function Flipped(x: bv64, on: bool): bv64 {
    x ^ (if on then 0xffff_ffff_ffff_ffff else 0)
  }

  lemma AndBit(x: bv64, y: bv64, b: Bit)
    ensures IsSet(And(x, y), b) == (IsSet(x, b) && IsSet(y, b))
  {
  }

  lemma OrBit(x: bv64, y: bv64, b: Bit)
    ensures IsSet(Or(x, y), b) == (IsSet(x, b) || IsSet(y, b))
  {
  }

  lemma FlippedBit(x: bv64, on: bool, b: Bit)
    ensures IsSet(Flipped(x, on), b) == (IsSet(x, b) != on)
  {
  }

  /** Ones wherever the two words do not spell the generation whose bits are on1 and on2. */
  function WipeMask(p1: bv64, p2: bv64, on1: bool, on2: bool): bv64 {
    Or(Flipped(p1, on1), Flipped(p2, on2))
  }

  lemma WipedBit(p1: bv64, p2: bv64, on1: bool, on2: bool, b: Bit)
    ensures var m := WipeMask(p1, p2, on1, on2);
      && IsSet(And(p1, m), b) == (IsSet(p1, b) && (IsSet(p1, b) != on1 || IsSet(p2, b) != on2))
      && IsSet(And(p2, m), b) == (IsSet(p2, b) && (IsSet(p1, b) != on1 || IsSet(p2, b) != on2))
  {
    hide IsSet, And, Or, Flipped;
    var m := WipeMask(p1, p2, on1, on2);
    AndBit(p1, m, b);
    AndBit(p2, m, b);
    OrBit(Flipped(p1, on1), Flipped(p2, on2), b);
    FlippedBit(p1, on1, b);
    FlippedBit(p2, on2, b);
  }

  // ---------------------------------------------------------------------------
  // Whole arrays of words
  // ---------------------------------------------------------------------------

  /** Every position keeps its generation, except that a position of generation gen is cleared. */
  ghost predicate Wiped(s: seq<bv64>, t: seq<bv64>, gen: nat, upto: nat) {
    && |t| == |s|
    && forall e: nat, b: Bit :: e % 2 == 0 && e + 1 < |s| ==>
         GenAt(t, e, b) == if e < upto && GenAt(s, e, b) == gen then 0 else GenAt(s, e, b)
  }

  /** Position (e, b) has the generation gen, and nothing else changed. */
  ghost predicate Marked(s: seq<bv64>, t: seq<bv64>, e: nat, b: Bit, gen: nat) {
    && |t| == |s|
    && forall e': nat, b': Bit :: e' % 2 == 0 && e' + 1 < |s| ==>
         GenAt(t, e', b') == if e' == e && b' == b then gen else GenAt(s, e', b')
  }

  lemma WipeStep(s: seq<bv64>, u: seq<bv64>, t: seq<bv64>, gen: nat, p: nat)
    requires p % 2 == 0 && p + 1 < |s| && 1 <= gen <= 3 && Wiped(s, u, gen, p)
    requires var m := WipeMask(u[p], u[p + 1], gen % 2 == 1, gen / 2 == 1);
      t == u[p := And(u[p], m)][p + 1 := And(u[p + 1], m)]
    ensures Wiped(s, t, gen, p + 2)
  {
    hide IsSet, WipeMask, And;
    forall e: nat, b: Bit | e % 2 == 0 && e + 1 < |s|
      ensures GenAt(t, e, b) == if e < p + 2 && GenAt(s, e, b) == gen then 0 else GenAt(s, e, b)
    {
      assert GenAt(u, e, b) == if e < p && GenAt(s, e, b) == gen then 0 else GenAt(s, e, b);
      if e == p {
        WipedBit(u[p], u[p + 1], gen % 2 == 1, gen / 2 == 1, b);
      }
    }
  }

  lemma MarkStep(s: seq<bv64>, t: seq<bv64>, e: nat, b: Bit, gen: nat)
    requires e % 2 == 0 && e + 1 < |s| && 1 <= gen <= 3
    requires t == s[e := Replaced(s[e], b, gen % 2 == 1)][e + 1 := Replaced(s[e + 1], b, gen / 2 == 1)]
    ensures Marked(s, t, e, b, gen)
  {
    hide IsSet, Replaced;
    forall e': nat, b': Bit | e' % 2 == 0 && e' + 1 < |s|
      ensures GenAt(t, e', b') == if e' == e && b' == b then gen else GenAt(s, e', b')
    {
      if e' == e {
        ReplacedBit(s[e], b, gen % 2 == 1, b');
        ReplacedBit(s[e + 1], b, gen / 2 == 1, b');
      }
    }
  }

  /** Marking a position now cannot make a key older. */
  lemma MarkKeepsKeys(s: seq<bv64>, t: seq<bv64>, e: nat, b: Bit, gen: nat, hash: Hash, k: nat, key: Key, age: nat)
    requires |s| > 0 && |s| % 2 == 0 && Marked(s, t, e, b, gen) && 1 <= gen <= 3
    requires KeyWithin(s, hash, k, key, gen, age)
    ensures KeyWithin(t, hash, k, key, gen, age)
  {
    hide GenAt, WordOf, BitOf;
    forall n | 0 <= n < k ensures SetWithin(t, hash(n, key), gen, age) {
      assert SetWithin(s, hash(n, key), gen, age);
    }
  }

  /** A new generation: what is at most one generation old is now at most two, and is not wiped. */
  lemma WipeAgesKeys(s: seq<bv64>, t: seq<bv64>, old_: nat, gen: nat, hash: Hash, k: nat, key: Key, age: nat)
    requires |s| > 0 && |s| % 2 == 0 && Wiped(s, t, gen, |s|) && 1 <= old_ <= 3 && age <= 1
    requires gen == if old_ == 3 then 1 else old_ + 1
    requires KeyWithin(s, hash, k, key, old_, age)
    ensures KeyWithin(t, hash, k, key, gen, age + 1)
  {
    hide GenAt, WordOf, BitOf;
    forall n | 0 <= n < k ensures SetWithin(t, hash(n, key), gen, age + 1) {
      assert SetWithin(s, hash(n, key), old_, age);
    }
  }

  // ---------------------------------------------------------------------------
  // The filter
  // ---------------------------------------------------------------------------

  function NextOf(gen: nat): nat { if gen == 3 then 1 else gen + 1 }

  /** How many generations ago entry i of a history of len entries was made. */
  function EntryAge(i: int, len: nat, thisGeneration: nat, perGeneration: nat): nat {
    if i >= len - thisGeneration then 0
    else if i >= len - thisGeneration - perGeneration then 1
    else 2
  }

  /** All keys of the current and the two previous generations are recorded. */
  ghost predicate Remembers(s: seq<bv64>, hash: Hash, k: nat, gen: nat, history: seq<Key>, thisGen: nat, perGen: nat)
    requires |s| > 0 && |s| % 2 == 0
  {
    forall i :: 0 <= i < |history| && |history| - thisGen - 2 * perGen <= i ==>
      KeyWithin(s, hash, k, history[i], gen, EntryAge(i, |history|, thisGen, perGen))
  }

  /** One of the last n entries of the history. */
  predicate IsRecent(key: Key, history: seq<Key>, n: nat) {
    exists i :: 0 <= i < |history| && |history| - n <= i && history[i] == key
  }

  class RollingBloomFilter {
    const nHashFuncs: nat
    const nEntriesPerGeneration: nat
    const data: array<bv64>
    var nEntriesThisGeneration: nat
    var nGeneration: nat
    var hash: Hash                    // depends on a random tweak

    ghost var inserted: seq<Key>      // everything since the last reset

    ghost predicate Valid()
      reads this, data
    {
      && data.Length > 0 && data.Length % 2 == 0 && nEntriesPerGeneration > 0
      && 1 <= nGeneration <= 3 && nEntriesThisGeneration <= nEntriesPerGeneration
      && nEntriesThisGeneration <= |inserted|
      && Remembers(data[..], hash, nHashFuncs, nGeneration, inserted, nEntriesThisGeneration, nEntriesPerGeneration)
    }

    constructor (nElements: nat, hashFuncs: nat, wordPairs: nat, tweaked: Hash)
      requires nElements >= 1 && wordPairs >= 1
      ensures Valid() && fresh(data) && inserted == [] && 2 * nEntriesPerGeneration >= nElements
    {
      nHashFuncs, nEntriesPerGeneration := hashFuncs, (nElements + 1) / 2;
      data := new bv64[2 * wordPairs](_ => 0);
      nEntriesThisGeneration, nGeneration, hash, inserted := 0, 1, tweaked, [];
    }

    method Reset(tweaked: Hash)
      requires Valid()
      modifies this, data
      ensures Valid() && inserted == [] && hash == tweaked && nGeneration == 1 && nEntriesThisGeneration == 0
      ensures forall i :: 0 <= i < data.Length ==> data[i] == 0
    {
      hide KeyWithin;
      hash, nEntriesThisGeneration, nGeneration, inserted := tweaked, 0, 1, [];
      for i := 0 to data.Length
        invariant forall j :: 0 <= j < i ==> data[j] == 0
        modifies data
      {
        data[i] := 0;
      }
    }

    /** Starts the next generation. */
    method NextGeneration()
      requires Valid() && nEntriesThisGeneration == nEntriesPerGeneration
      modifies this`nEntriesThisGeneration, this`nGeneration, data
      ensures Valid() && nEntriesThisGeneration == 0 && nGeneration == NextOf(old(nGeneration))
      ensures Wiped(old(data[..]), data[..], nGeneration, data.Length)
    {
      hide Wiped, Remembers;
      ghost var s := data[..];
      ghost var old_ := nGeneration;
      nEntriesThisGeneration, nGeneration := 0, nGeneration + 1;
      if nGeneration == 4 { nGeneration := 1; }
      NothingWiped(s, nGeneration);
      var p := 0;
      while p < data.Length
        invariant 0 <= p <= data.Length && p % 2 == 0 && Wiped(s, data[..], nGeneration, p)
        modifies data
      {
        ghost var u := data[..];
        var p1, p2 := data[p], data[p + 1];
        var mask := WipeMask(p1, p2, nGeneration % 2 == 1, nGeneration / 2 == 1);
        data[p] := And(p1, mask);
        data[p + 1] := And(p2, mask);
        WipeStep(s, u, data[..], nGeneration, p);
        p := p + 2;
      }
      WipeAges(s, data[..], old_, nGeneration, hash, nHashFuncs, inserted, nEntriesPerGeneration);
    }

    /** Records a key; it and every key of the last two generations stay recorded. */
    method Insert(key: Key)
      requires Valid()
      modifies this`nEntriesThisGeneration, this`nGeneration, this`inserted, data
      ensures Valid() && inserted == old(inserted) + [key] && nEntriesThisGeneration >= 1
      ensures old(nEntriesThisGeneration) < nEntriesPerGeneration ==>
        nGeneration == old(nGeneration) && OnlyKey(old(data[..]), data[..], hash, nHashFuncs, key, nGeneration)
      ensures old(nEntriesThisGeneration) == nEntriesPerGeneration ==>
        exists s :: nGeneration == NextOf(old(nGeneration)) && Wiped(old(data[..]), s, nGeneration, data.Length) &&
                    OnlyKey(s, data[..], hash, nHashFuncs, key, nGeneration)
    {
      hide Remembers, KeyWithin, Marked, Wiped, OnlyKey;
      if nEntriesThisGeneration == nEntriesPerGeneration { NextGeneration(); }
      nEntriesThisGeneration := nEntriesThisGeneration + 1;
      ghost var before, past, start := inserted, nEntriesThisGeneration - 1, data[..];
      EmptyKey(data[..], hash, key, nGeneration);
      for n := 0 to nHashFuncs
        invariant Remembers(data[..], hash, nHashFuncs, nGeneration, before, past, nEntriesPerGeneration)
        invariant KeyWithin(data[..], hash, n, key, nGeneration, 0) && OnlyKey(start, data[..], hash, n, key, nGeneration)
        modifies data
      {
        ghost var s := data[..];
        var h := hash(n, key);
        var bit, word := BitOf(h), WordOf(h, data.Length);
        data[word] := Replaced(data[word], bit, nGeneration % 2 == 1);
        data[word + 1] := Replaced(data[word + 1], bit, nGeneration / 2 == 1);
        MarkStep(s, data[..], word, bit, nGeneration);
        MarkRemembers(s, data[..], word, bit, nGeneration, hash, nHashFuncs, before, past, nEntriesPerGeneration);
        MarkKeepsKeys(s, data[..], word, bit, nGeneration, hash, n, key, 0);
        MarkNext(s, data[..], hash, n, key, nGeneration);
        OneMorePosition(start, s, data[..], hash, n, key, nGeneration);
      }
      inserted := inserted + [key];
      OneMore(data[..], hash, nHashFuncs, nGeneration, before, key, past, nEntriesPerGeneration);
    }

    /** True for every key that is recorded in all its positions; so for all recent keys. */
    method Contains(key: Key) returns (found: bool)
      requires Valid()
      ensures found <==> KeyWithin(data[..], hash, nHashFuncs, key, nGeneration, 2)
      ensures IsRecent(key, inserted, nEntriesThisGeneration + 2 * nEntriesPerGeneration) ==> found
    {
      hide IsSet, GenAt, BitOf, WordOf, Remembers;
      RecentAreRecorded(data[..], hash, nHashFuncs, nGeneration, inserted, nEntriesThisGeneration, nEntriesPerGeneration, key);
      for n := 0 to nHashFuncs
        invariant KeyWithin(data[..], hash, n, key, nGeneration, 2)
      {
        var h := hash(n, key);
        var bit, word := BitOf(h), WordOf(h, data.Length);
        EitherBit(data[..], word, bit);
        if !IsSet(Or(data[word], data[word + 1]), bit) {
          assert !SetWithin(data[..], hash(n, key), nGeneration, 2);
          return false;
        }
        assert SetWithin(data[..], hash(n, key), nGeneration, 2);
      }
      return true;
    }
  }

  lemma NothingWiped(s: seq<bv64>, gen: nat)
    ensures Wiped(s, s, gen, 0)
  {
  }

  lemma EitherBit(s: seq<bv64>, e: nat, b: Bit)
    requires e + 1 < |s|
    ensures IsSet(Or(s[e], s[e + 1]), b) <==> GenAt(s, e, b) != 0
  {
    hide IsSet, Or;
    OrBit(s[e], s[e + 1], b);
  }

  lemma EmptyKey(s: seq<bv64>, hash: Hash, key: Key, gen: nat)
    requires |s| > 0 && |s| % 2 == 0
    ensures KeyWithin(s, hash, 0, key, gen, 0) && OnlyKey(s, s, hash, 0, key, gen)
  {
  }

  /** One of the first n positions of a key. */
  ghost predicate IsPosition(hash: Hash, size: nat, n: nat, key: Key, e: nat, b: Bit)
    requires size > 0 && size % 2 == 0
  {
    exists k :: 0 <= k < n && WordOf(hash(k, key), size) == e && BitOf(hash(k, key)) == b
  }

  /** The first n positions of the key got the generation gen, and nothing else changed. */
  ghost predicate OnlyKey(s: seq<bv64>, t: seq<bv64>, hash: Hash, n: nat, key: Key, gen: nat) {
    && |t| == |s| > 0 && |s| % 2 == 0
    && forall e: nat, b: Bit :: e % 2 == 0 && e + 1 < |s| ==>
         GenAt(t, e, b) == if IsPosition(hash, |s|, n, key, e, b) then gen else GenAt(s, e, b)
  }

  lemma OneMorePosition(start: seq<bv64>, s: seq<bv64>, t: seq<bv64>, hash: Hash, n: nat, key: Key, gen: nat)
    requires OnlyKey(start, s, hash, n, key, gen)
    requires Marked(s, t, WordOf(hash(n, key), |s|), BitOf(hash(n, key)), gen)
    ensures OnlyKey(start, t, hash, n + 1, key, gen)
  {
    hide GenAt, WordOf, BitOf;
    forall e: nat, b: Bit | e % 2 == 0 && e + 1 < |start|
      ensures GenAt(t, e, b) == if IsPosition(hash, |start|, n + 1, key, e, b) then gen else GenAt(start, e, b)
    {
      NextPosition(hash, |start|, n, key, e, b);
    }
  }

  lemma NextPosition(hash: Hash, size: nat, n: nat, key: Key, e: nat, b: Bit)
    requires size > 0 && size % 2 == 0
    ensures IsPosition(hash, size, n + 1, key, e, b) <==>
      IsPosition(hash, size, n, key, e, b) || (WordOf(hash(n, key), size) == e && BitOf(hash(n, key)) == b)
  {
    hide WordOf, BitOf;
  }

  /** A full generation becomes the previous one. */
  lemma WipeAges(s: seq<bv64>, t: seq<bv64>, old_: nat, gen: nat, hash: Hash, k: nat, history: seq<Key>, perGen: nat)
    requires |s| > 0 && |s| % 2 == 0 && Wiped(s, t, gen, |s|) && 1 <= old_ <= 3
    requires gen == if old_ == 3 then 1 else old_ + 1
    requires Remembers(s, hash, k, old_, history, perGen, perGen)
    ensures Remembers(t, hash, k, gen, history, 0, perGen)
  {
    hide KeyWithin;
    forall i | 0 <= i < |history| && |history| - 2 * perGen <= i
      ensures KeyWithin(t, hash, k, history[i], gen, EntryAge(i, |history|, 0, perGen))
    {
      WipeAgesKeys(s, t, old_, gen, hash, k, history[i], EntryAge(i, |history|, perGen, perGen));
    }
  }

  lemma MarkRemembers(s: seq<bv64>, t: seq<bv64>, e: nat, b: Bit, gen: nat, hash: Hash, k: nat, history: seq<Key>,
                      thisGen: nat, perGen: nat)
    requires |s| > 0 && |s| % 2 == 0 && Marked(s, t, e, b, gen) && 1 <= gen <= 3
    requires Remembers(s, hash, k, gen, history, thisGen, perGen)
    ensures Remembers(t, hash, k, gen, history, thisGen, perGen)
  {
    hide KeyWithin;
    forall i | 0 <= i < |history| && |history| - thisGen - 2 * perGen <= i
      ensures KeyWithin(t, hash, k, history[i], gen, EntryAge(i, |history|, thisGen, perGen))
    {
      MarkKeepsKeys(s, t, e, b, gen, hash, k, history[i], EntryAge(i, |history|, thisGen, perGen));
    }
  }

  lemma MarkNext(s: seq<bv64>, t: seq<bv64>, hash: Hash, n: nat, key: Key, gen: nat)
    requires |s| > 0 && |s| % 2 == 0 && 1 <= gen <= 3
    requires Marked(s, t, WordOf(hash(n, key), |s|), BitOf(hash(n, key)), gen)
    requires KeyWithin(t, hash, n, key, gen, 0)
    ensures KeyWithin(t, hash, n + 1, key, gen, 0)
  {
    hide GenAt, WordOf, BitOf;
    assert SetWithin(t, hash(n, key), gen, 0);
  }

  lemma OneMore(s: seq<bv64>, hash: Hash, k: nat, gen: nat, history: seq<Key>, key: Key, thisGen: nat, perGen: nat)
    requires |s| > 0 && |s| % 2 == 0 && Remembers(s, hash, k, gen, history, thisGen, perGen)
    requires KeyWithin(s, hash, k, key, gen, 0)
    ensures Remembers(s, hash, k, gen, history + [key], thisGen + 1, perGen)
  {
    hide KeyWithin;
    var longer := history + [key];
    forall i | 0 <= i < |longer| && |longer| - (thisGen + 1) - 2 * perGen <= i
      ensures KeyWithin(s, hash, k, longer[i], gen, EntryAge(i, |longer|, thisGen + 1, perGen))
    {
      if i < |history| {
        assert KeyWithin(s, hash, k, history[i], gen, EntryAge(i, |history|, thisGen, perGen));
      }
    }
  }

  lemma RecentAreRecorded(s: seq<bv64>, hash: Hash, k: nat, gen: nat, history: seq<Key>, thisGen: nat, perGen: nat,
                          key: Key)
    requires |s| > 0 && |s| % 2 == 0 && Remembers(s, hash, k, gen, history, thisGen, perGen)
    ensures IsRecent(key, history, thisGen + 2 * perGen) ==> KeyWithin(s, hash, k, key, gen, 2)
  {
    if IsRecent(key, history, thisGen + 2 * perGen) {
      var i :| 0 <= i < |history| && |history| - (thisGen + 2 * perGen) <= i && history[i] == key;
      assert KeyWithin(s, hash, k, history[i], gen, EntryAge(i, |history|, thisGen, perGen));
    }
  }

  /** Whatever is inserted, in whatever order: each of the last nElements keys is found. */
  method InsertAllThenProbe(nElements: nat, hashFuncs: nat, wordPairs: nat, tweaked: Hash, keys: seq<Key>, probe: Key)
    returns (found: bool)
    requires nElements >= 1 && wordPairs >= 1
    ensures IsRecent(probe, keys, nElements) ==> found
  {
    hide KeyWithin;
    var filter := new RollingBloomFilter(nElements, hashFuncs, wordPairs, tweaked);
    for i := 0 to |keys|
      invariant filter.Valid() && fresh(filter) && fresh(filter.data)
      invariant filter.inserted == keys[..i] && 2 * filter.nEntriesPerGeneration >= nElements
    {
      filter.Insert(keys[i]);
    }
    assert keys[..|keys|] == keys;
    found := filter.Contains(probe);
    if IsRecent(probe, keys, nElements) {
      var i :| 0 <= i < |keys| && |keys| - nElements <= i && keys[i] == probe;
      assert filter.inserted[i] == probe;
    }
  }
}

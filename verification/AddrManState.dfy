/**
 The address manager of src/addrman.cpp: known peer addresses in two hashed bucket tables with
 a random-order index and reference counts.

 Five structures refer to each other: the entries by id, the ids by address, the random order,
 the "new" table (an entry may sit in up to eight slots) and the "tried" table (one slot).  The
 invariant is the debug routine `Check_`; every operation keeps it, and no internal assertion
 of the source can fail.  Key-dependent hashing is a parameter.
 */
module AddrManState {

  type NetAddr = nat
  datatype Service = Service(addr: NetAddr, port: nat)

  const NEW_BUCKETS := 1024
  const TRIED_BUCKETS := 256
  const BUCKET_SIZE := 64
  const MAX_REFS := 8
  const HORIZON := 30 * 24 * 60 * 60
  const RETRIES := 3
  const MAX_FAILURES := 10
  const MIN_FAIL := 7 * 24 * 60 * 60

  /** The key, and the keyed hashes behind the bucket functions, before reduction. */
  datatype Hashing = Hashing(
    key: nat,
    triedHash: Service -> nat,
    newHash: (NetAddr, NetAddr) -> nat,
    positionHash: (bool, nat, Service) -> nat)
  {
    function TriedBucket(s: Service): nat { triedHash(s) % TRIED_BUCKETS }
    function NewBucket(addr: NetAddr, source: NetAddr): nat { newHash(addr, source) % NEW_BUCKETS }
    function Position(inNew: bool, bucket: nat, s: Service): nat { positionHash(inNew, bucket, s) % BUCKET_SIZE }

    function TriedSlot(s: Service): Slot { (TriedBucket(s), Position(false, TriedBucket(s), s)) }
    function NewSlot(bucket: nat, s: Service): Slot { (bucket, Position(true, bucket, s)) }
  }

  datatype AddrInfo = AddrInfo(
    service: Service, time: int, services: set<nat>, source: NetAddr,
    lastTry: int, lastCountAttempt: int, lastSuccess: int, attempts: int,
    refCount: int, inTried: bool, randomPos: int)
  {
    predicate IsTerrible(now: int) {
      if lastTry != 0 && lastTry >= now - 60 then false
      else if time > now + 10 * 60 then true
      else if time == 0 || now - time > HORIZON then true
      else if lastSuccess == 0 && attempts >= RETRIES then true
      else now - lastSuccess > MIN_FAIL && attempts >= MAX_FAILURES
    }
  }

  /**
   Never terrible within a minute of a try; otherwise terrible are times more than ten minutes ahead
   or thirty days old, three failures without any success, and ten failures in a week.
   */
  lemma TerribleRules(i: AddrInfo, now: int)
    ensures i.IsTerrible(now) <==>
      && !(i.lastTry != 0 && i.lastTry >= now - 60)
      && (i.time > now + 600 || i.time == 0 || i.time < now - 2592000 ||
          (i.lastSuccess == 0 && i.attempts >= 3) || (i.lastSuccess < now - 604800 && i.attempts >= 10))
  {
  }

  /** What is announced about a peer. */
  datatype Address = Address(service: Service, time: int, services: set<nat>)

  type Slot = (int, int)
  type Table = map<Slot, int>   // the occupied slots only

  datatype State = State(
    info: map<int, AddrInfo>, addr: map<NetAddr, int>, random: seq<int>,
    nTried: int, tried: Table, nNew: int, new_: Table, idCount: int)

  // ---------------------------------------------------------------------------
  // The invariant
  // ---------------------------------------------------------------------------

  function SlotsOf(t: Table, n: int): set<Slot> {
    set sl | sl in t && t[sl] == n
  }

  function TriedIds(info: map<int, AddrInfo>): set<int> { set n | n in info && info[n].inTried }
  function NewIds(info: map<int, AddrInfo>): set<int> { set n | n in info && !info[n].inTried }

  /** Ids and addresses are in one-to-one correspondence. */
  predicate IdsOk(s: State) {
    && s.idCount >= 0
    && (forall n :: n in s.info ==>
          0 <= n < s.idCount && s.info[n].service.addr in s.addr && s.addr[s.info[n].service.addr] == n)
    && (forall a :: a in s.addr ==> s.addr[a] in s.info && s.info[s.addr[a]].service.addr == a)
  }

  /** The random order lists every id once, and every id knows its place. */
  predicate RandomOk(s: State) {
    && |s.random| == |s.info|
    && (forall i :: 0 <= i < |s.random| ==> s.random[i] in s.info && s.info[s.random[i]].randomPos == i)
    && (forall n :: n in s.info ==>
          0 <= s.info[n].randomPos < |s.random| && s.random[s.info[n].randomPos] == n)
  }

  predicate TriedOk(h: Hashing, s: State) {
    && (forall sl :: sl in s.tried ==>
          s.tried[sl] in s.info && s.info[s.tried[sl]].inTried && sl == h.TriedSlot(s.info[s.tried[sl]].service))
    && (forall n :: n in s.info && s.info[n].inTried ==>
          var sl := h.TriedSlot(s.info[n].service); sl in s.tried && s.tried[sl] == n)
  }

  predicate NewOk(h: Hashing, s: State) {
    forall sl :: sl in s.new_ ==>
      && s.new_[sl] in s.info && !s.info[s.new_[sl]].inTried
      && 0 <= sl.0 < NEW_BUCKETS && sl == h.NewSlot(sl.0, s.info[s.new_[sl]].service)
  }

  /** Reference counts are slot counts; only loose entries may have none. */
  predicate RefOk(s: State, n: int, loose: set<int>)
    requires n in s.info
  {
    var i := s.info[n];
    && i.refCount == |SlotsOf(s.new_, n)| <= MAX_REFS
    && (i.inTried ==> i.refCount == 0)
    && (n in loose ==> i.refCount == 0 && !i.inTried)
    && (n !in loose && !i.inTried ==> i.refCount > 0)
  }

  predicate RefsOk(s: State, loose: set<int>) {
    && (forall n :: n in loose ==> n in s.info)
    && forall n :: n in s.info ==> RefOk(s, n, loose)
  }

  predicate TimesOk(s: State) {
    forall n :: n in s.info ==>
      && s.info[n].lastTry >= 0 && s.info[n].lastSuccess >= 0
      && (s.info[n].inTried ==> s.info[n].lastSuccess != 0)
  }

  predicate CountsOk(s: State, uncounted: int) {
    && s.nTried == |TriedIds(s.info)|
    && s.nNew + uncounted == |NewIds(s.info)|
  }

  /**
   The invariant, also in the middle of an operation: the ids in loose belong to no slot yet,
   and nNew is behind by the number of uncounted entries.
   */
  predicate Inv(h: Hashing, s: State, loose: set<int>, uncounted: int) {
    && IdsOk(s) && RandomOk(s) && TriedOk(h, s) && NewOk(h, s)
    && RefsOk(s, loose) && TimesOk(s) && CountsOk(s, uncounted)
  }

  // ---------------------------------------------------------------------------
  // Elementary changes
  // ---------------------------------------------------------------------------

  /** Swapping two places of the random order. */
  function Swapped(s: State, i: nat, j: nat): (r: State)
    requires i < |s.random| && j < |s.random| && s.random[i] in s.info && s.random[j] in s.info
    ensures r.info.Keys == s.info.Keys && |r.random| == |s.random|
  {
    var a, b := s.random[i], s.random[j];
    if i == j then s
    else
      var info1 := s.info[a := s.info[a].(randomPos := j)];
      s.(info := info1[b := info1[b].(randomPos := i)], random := s.random[i := b][j := a])
  }

  /** Two states that differ in the random order only. */
  predicate SameButOrder(s: State, t: State) {
    && t == s.(info := t.info, random := t.random)
    && t.info.Keys == s.info.Keys && |t.random| == |s.random|
    && forall n :: n in s.info ==> SameEntry(s.info[n], t.info[n])
  }

  predicate SameEntry(a: AddrInfo, b: AddrInfo) { b == a.(randomPos := b.randomPos) }

  lemma OrderKeepsIds(s: State, t: State)
    requires IdsOk(s) && TimesOk(s) && SameButOrder(s, t)
    ensures IdsOk(t) && TimesOk(t)
  {
    forall n | n in t.info
      ensures 0 <= n < t.idCount && t.info[n].service.addr in t.addr && t.addr[t.info[n].service.addr] == n
      ensures t.info[n].lastTry >= 0 && t.info[n].lastSuccess >= 0 && (t.info[n].inTried ==> t.info[n].lastSuccess != 0)
    {
      assert n in s.info && SameEntry(s.info[n], t.info[n]);
    }
    forall a | a in t.addr ensures t.addr[a] in t.info && t.info[t.addr[a]].service.addr == a {
      assert s.addr[a] in s.info && SameEntry(s.info[s.addr[a]], t.info[s.addr[a]]);
    }
  }

  lemma OrderKeepsTables(h: Hashing, s: State, t: State)
    requires TriedOk(h, s) && NewOk(h, s) && SameButOrder(s, t)
    ensures TriedOk(h, t) && NewOk(h, t)
  {
    forall n | n in t.info ensures t.info[n].inTried == s.info[n].inTried && t.info[n].service == s.info[n].service {
      assert n in s.info && SameEntry(s.info[n], t.info[n]);
    }
  }

  lemma OrderKeepsRefs(s: State, t: State, loose: set<int>)
    requires RefsOk(s, loose) && SameButOrder(s, t)
    ensures RefsOk(t, loose)
  {
    forall n | n in t.info ensures RefOk(t, n, loose) {
      assert n in s.info && SameEntry(s.info[n], t.info[n]) && RefOk(s, n, loose);
    }
  }

  lemma OrderDoesNotMatter(h: Hashing, s: State, t: State, loose: set<int>, uncounted: int)
    requires Inv(h, s, loose, uncounted) && SameButOrder(s, t) && RandomOk(t)
    ensures Inv(h, t, loose, uncounted)
  {
    hide IdsOk, TimesOk, TriedOk, NewOk, RefsOk, RandomOk;
    OrderKeepsIds(s, t);
    OrderKeepsTables(h, s, t);
    OrderKeepsRefs(s, t, loose);
    forall n | n in s.info ensures s.info[n].inTried == t.info[n].inTried { assert SameEntry(s.info[n], t.info[n]); }
    SameIds(s.info, t.info);
  }

  lemma SameIds(a: map<int, AddrInfo>, b: map<int, AddrInfo>)
    requires a.Keys == b.Keys && forall n :: n in a ==> a[n].inTried == b[n].inTried
    ensures TriedIds(a) == TriedIds(b) && NewIds(a) == NewIds(b)
  {
    forall n ensures n in TriedIds(a) <==> n in TriedIds(b) { }
    forall n ensures n in NewIds(a) <==> n in NewIds(b) { }
  }

  /** Two entries exchange their places, and nothing else changes. */
  lemma SwapFacts(s: State, i: nat, j: nat)
    requires RandomOk(s) && i < |s.random| && j < |s.random| && i != j
    ensures var t, a, b := Swapped(s, i, j), s.random[i], s.random[j];
      && a != b && t.random == s.random[i := b][j := a] && t == s.(info := t.info, random := t.random)
      && t.info[a] == s.info[a].(randomPos := j) && t.info[b] == s.info[b].(randomPos := i)
      && (forall n :: n in s.info && n != a && n != b ==> t.info[n] == s.info[n])
  {
  }

  lemma SwapEntry(s: State, i: nat, j: nat, n: int)
    requires RandomOk(s) && i < |s.random| && j < |s.random| && i != j && n in s.info
    ensures var t := Swapped(s, i, j);
      SameEntry(s.info[n], t.info[n]) && 0 <= t.info[n].randomPos < |t.random| && t.random[t.info[n].randomPos] == n
  {
    SwapFacts(s, i, j);
    hide Swapped;
    var at := s.info[n].randomPos;
    assert s.random[at] == n;
  }

  lemma SwapPlace(s: State, i: nat, j: nat, k: nat)
    requires RandomOk(s) && i < |s.random| && j < |s.random| && i != j && k < |s.random|
    ensures var t := Swapped(s, i, j);
      t.random[k] in t.info && t.info[t.random[k]].randomPos == k
  {
    SwapFacts(s, i, j);
    hide Swapped;
    if k != i && k != j {
      var n := s.random[k];
      assert s.info[n].randomPos == k && n != s.random[i] && n != s.random[j];
    }
  }

  lemma SwapOrder(s: State, i: nat, j: nat)
    requires RandomOk(s) && i < |s.random| && j < |s.random|
    ensures RandomOk(Swapped(s, i, j)) && SameButOrder(s, Swapped(s, i, j))
  {
    if i != j {
      SwapFacts(s, i, j);
      hide Swapped, SameEntry;
      var t := Swapped(s, i, j);
      assert |t.info| == |t.info.Keys| && |s.info| == |s.info.Keys|;
      forall n | n in s.info
        ensures SameEntry(s.info[n], t.info[n])
        ensures 0 <= t.info[n].randomPos < |t.random| && t.random[t.info[n].randomPos] == n
      {
        SwapEntry(s, i, j, n);
      }
      forall k | 0 <= k < |t.random|
        ensures t.random[k] in t.info && t.info[t.random[k]].randomPos == k
      {
        SwapPlace(s, i, j, k);
      }
    }
  }

  lemma SwapKeepsService(s: State, i: nat, j: nat, n: int)
    requires RandomOk(s) && i < |s.random| && j < |s.random| && n in s.info
    ensures Swapped(s, i, j).info[n].service == s.info[n].service
  {
  }

  lemma SwapInv(h: Hashing, s: State, i: nat, j: nat, loose: set<int>, uncounted: int)
    requires Inv(h, s, loose, uncounted) && i < |s.random| && j < |s.random|
    ensures Inv(h, Swapped(s, i, j), loose, uncounted) && SameButOrder(s, Swapped(s, i, j))
  {
    hide IdsOk, TriedOk, NewOk, RefsOk, TimesOk, CountsOk, SameButOrder;
    SwapOrder(s, i, j);
    OrderDoesNotMatter(h, s, Swapped(s, i, j), loose, uncounted);
  }

  /** Forgetting a loose entry that is last in the random order. */
  function WithoutLast(s: State, n: int): State
    requires n in s.info && s.random != []
  {
    s.(info := s.info - {n}, addr := s.addr - {s.info[n].service.addr},
       random := s.random[..|s.random| - 1], nNew := s.nNew - 1)
  }

  lemma WithoutLastRefs(s: State, n: int, loose: set<int>)
    requires RefsOk(s, loose) && n in loose && s.random != []
    ensures RefsOk(WithoutLast(s, n), loose - {n})
  {
    var t := WithoutLast(s, n);
    forall k | k in t.info ensures RefOk(t, k, loose - {n}) { assert RefOk(s, k, loose); }
  }

  /** A loose entry is in no table. */
  lemma LooseIsNowhere(h: Hashing, s: State, loose: set<int>, n: int)
    requires TriedOk(h, s) && RefsOk(s, loose) && n in loose
    ensures forall sl :: sl in s.tried ==> s.tried[sl] != n
    ensures forall sl :: sl in s.new_ ==> s.new_[sl] != n
  {
    assert RefOk(s, n, loose);
    assert SlotsOf(s.new_, n) == {};
    assert forall sl :: sl in s.new_ ==> sl !in SlotsOf(s.new_, n);
  }

  lemma WithoutLastCounts(s: State, n: int, uncounted: int)
    requires CountsOk(s, uncounted) && n in s.info && !s.info[n].inTried && s.random != []
    ensures CountsOk(WithoutLast(s, n), uncounted)
  {
    var t := WithoutLast(s, n);
    assert TriedIds(t.info) == TriedIds(s.info);
    assert NewIds(t.info) == NewIds(s.info) - {n};
  }

  lemma WithoutLastOrder(s: State, n: int)
    requires RandomOk(s) && n in s.info && s.info[n].randomPos == |s.random| - 1
    ensures RandomOk(WithoutLast(s, n))
  {
    var t := WithoutLast(s, n);
    assert t.info.Keys == s.info.Keys - {n} && |t.info| == |t.info.Keys| && |s.info| == |s.info.Keys|;
  }

  lemma WithoutLastInv(h: Hashing, s: State, n: int, loose: set<int>, uncounted: int)
    requires Inv(h, s, loose, uncounted) && n in loose && s.info[n].randomPos == |s.random| - 1
    ensures Inv(h, WithoutLast(s, n), loose - {n}, uncounted)
  {
    hide RefsOk, CountsOk, RandomOk, TriedOk, NewOk;
    LooseIsLoose(s, loose, n);
    assert s.random != [] by { OrderIndex(s, n); }
    WithoutLastOrder(s, n);
    WithoutLastRefs(s, n, loose);
    WithoutLastCounts(s, n, uncounted);
    LooseIsNowhere(h, s, loose, n);
    WithoutLastTables(h, s, n);
  }

  lemma WithoutLastTables(h: Hashing, s: State, n: int)
    requires TriedOk(h, s) && NewOk(h, s) && n in s.info && !s.info[n].inTried && s.random != []
    requires forall k :: k in s.new_ ==> s.new_[k] != n
    requires forall k :: k in s.tried ==> s.tried[k] != n
    ensures TriedOk(h, WithoutLast(s, n)) && NewOk(h, WithoutLast(s, n))
  {
  }

  lemma LooseIsLoose(s: State, loose: set<int>, n: int)
    requires RefsOk(s, loose) && n in loose
    ensures n in s.info && !s.info[n].inTried && s.info[n].refCount == 0
  {
    assert RefOk(s, n, loose);
  }

  lemma OrderIndex(s: State, n: int)
    requires RandomOk(s) && n in s.info
    ensures 0 <= s.info[n].randomPos < |s.random| && s.random[s.info[n].randomPos] == n
    ensures s.random[|s.random| - 1] in s.info
  {
  }

  /** Deleting an entry: it changes places with the last one, which is dropped. */
  function Deleted(s: State, n: int): State
    requires RandomOk(s) && n in s.info
  {
    var last := |s.random| - 1;
    var t := Swapped(s, s.info[n].randomPos, last);
    WithoutLast(t, n)
  }

  lemma DeleteInv(h: Hashing, s: State, n: int, loose: set<int>, uncounted: int)
    requires Inv(h, s, loose, uncounted) && n in loose
    ensures n in s.info && RandomOk(s)
    ensures Inv(h, Deleted(s, n), loose - {n}, uncounted)
    ensures Deleted(s, n).info.Keys == s.info.Keys - {n} && Deleted(s, n).new_ == s.new_
    ensures Deleted(s, n).tried == s.tried && Deleted(s, n).idCount == s.idCount
    ensures forall k :: k in s.info && k != n ==> SameEntry(s.info[k], Deleted(s, n).info[k])
  {
    hide IdsOk, TriedOk, NewOk, TimesOk, CountsOk, RefsOk, RandomOk, Swapped, SameEntry, WithoutLast;
    LooseIsLoose(s, loose, n);
    DeletedKeeps(s, n);
    OrderIndex(s, n);
    MovedToLast(s, n);
    var last := |s.random| - 1;
    SwapInv(h, s, s.info[n].randomPos, last, loose, uncounted);
    WithoutLastInv(h, Swapped(s, s.info[n].randomPos, last), n, loose, uncounted);
  }

  lemma MovedToLast(s: State, n: int)
    requires RandomOk(s) && n in s.info
    ensures var t := Swapped(s, s.info[n].randomPos, |s.random| - 1);
      n in t.info && t.info[n].randomPos == |t.random| - 1
  {
  }

  lemma DeletedKeeps(s: State, n: int)
    requires RandomOk(s) && n in s.info
    ensures Deleted(s, n).info.Keys == s.info.Keys - {n} && Deleted(s, n).new_ == s.new_
    ensures Deleted(s, n).tried == s.tried && Deleted(s, n).idCount == s.idCount
    ensures forall k :: k in s.info && k != n ==> SameEntry(s.info[k], Deleted(s, n).info[k])
  {
    OrderIndex(s, n);
  }

  /** Giving up one slot of the new table. */
  function Unlinked(s: State, sl: Slot): State
    requires sl in s.new_ && s.new_[sl] in s.info
  {
    var n := s.new_[sl];
    s.(info := s.info[n := s.info[n].(refCount := s.info[n].refCount - 1)], new_ := s.new_ - {sl})
  }

  lemma UnlinkSlots(t: Table, sl: Slot, k: int)
    requires sl in t
    ensures SlotsOf(t - {sl}, k) == SlotsOf(t, k) - {sl}
    ensures k != t[sl] ==> SlotsOf(t - {sl}, k) == SlotsOf(t, k)
    ensures |SlotsOf(t, t[sl])| > 0 && |SlotsOf(t - {sl}, t[sl])| == |SlotsOf(t, t[sl])| - 1
  {
    assert SlotsOf(t - {sl}, k) == SlotsOf(t, k) - {sl};
    assert SlotsOf(t - {sl}, t[sl]) == SlotsOf(t, t[sl]) - {sl};
    assert sl in SlotsOf(t, t[sl]);
  }

  /** An entry with a slot is not loose. */
  lemma SlotMeansReferenced(s: State, sl: Slot, loose: set<int>)
    requires RefsOk(s, loose) && sl in s.new_ && s.new_[sl] in s.info
    ensures s.new_[sl] !in loose && s.info[s.new_[sl]].refCount > 0
  {
    var n := s.new_[sl];
    assert RefOk(s, n, loose);
    UnlinkSlots(s.new_, sl, n);
  }

  lemma UnlinkRefs(s: State, sl: Slot, loose: set<int>)
    requires RefsOk(s, loose) && sl in s.new_ && s.new_[sl] in s.info && !s.info[s.new_[sl]].inTried
    ensures var n := s.new_[sl];
            RefsOk(Unlinked(s, sl), if s.info[n].refCount == 1 then loose + {n} else loose)
  {
    var n, t := s.new_[sl], Unlinked(s, sl);
    var loose' := if s.info[n].refCount == 1 then loose + {n} else loose;
    SlotMeansReferenced(s, sl, loose);
    forall k | k in t.info ensures RefOk(t, k, loose') {
      assert RefOk(s, k, loose);
      UnlinkSlots(s.new_, sl, k);
    }
  }

  /** The same entry at the same place, with other statistics or another reference count. */
  predicate SamePlace(a: AddrInfo, b: AddrInfo) {
    && a.service == b.service && a.inTried == b.inTried && a.randomPos == b.randomPos
    && b.lastTry >= 0 && b.lastSuccess >= 0 && (b.inTried ==> b.lastSuccess != 0)
  }

  function Updated(s: State, n: int, i: AddrInfo, table: Table): State {
    s.(info := s.info[n := i], new_ := table)
  }

  lemma UpdateIds(s: State, n: int, i: AddrInfo, table: Table)
    requires IdsOk(s) && n in s.info && SamePlace(s.info[n], i)
    ensures IdsOk(Updated(s, n, i, table))
  {
  }

  lemma UpdateOrder(s: State, n: int, i: AddrInfo, table: Table)
    requires RandomOk(s) && n in s.info && SamePlace(s.info[n], i)
    ensures RandomOk(Updated(s, n, i, table))
  {
    var t := Updated(s, n, i, table);
    assert t.info.Keys == s.info.Keys && |t.info| == |t.info.Keys| && |s.info| == |s.info.Keys|;
  }

  lemma UpdateTried(h: Hashing, s: State, n: int, i: AddrInfo, table: Table)
    requires TriedOk(h, s) && TimesOk(s) && n in s.info && SamePlace(s.info[n], i)
    ensures TriedOk(h, Updated(s, n, i, table)) && TimesOk(Updated(s, n, i, table))
  {
  }

  lemma UpdateCounts(s: State, n: int, i: AddrInfo, table: Table, uncounted: int)
    requires CountsOk(s, uncounted) && n in s.info && SamePlace(s.info[n], i)
    ensures CountsOk(Updated(s, n, i, table), uncounted)
  {
    var t := Updated(s, n, i, table);
    assert TriedIds(t.info) == TriedIds(s.info) && NewIds(t.info) == NewIds(s.info);
  }

  /** Such an update leaves everything but the new table and the reference counts alone. */
  lemma UpdateFrame(h: Hashing, s: State, n: int, i: AddrInfo, table: Table,
                         loose: set<int>, loose': set<int>, uncounted: int)
    requires Inv(h, s, loose, uncounted) && n in s.info && SamePlace(s.info[n], i)
    requires NewOk(h, Updated(s, n, i, table)) && RefsOk(Updated(s, n, i, table), loose')
    ensures Inv(h, Updated(s, n, i, table), loose', uncounted)
  {
    hide IdsOk, RandomOk, TriedOk, TimesOk, CountsOk, RefsOk, NewOk;
    UpdateIds(s, n, i, table);
    UpdateOrder(s, n, i, table);
    UpdateTried(h, s, n, i, table);
    UpdateCounts(s, n, i, table, uncounted);
  }

  lemma TimesAt(s: State, n: int)
    requires TimesOk(s) && n in s.info
    ensures SamePlace(s.info[n], s.info[n]) && forall count :: SamePlace(s.info[n], s.info[n].(refCount := count))
  {
  }

  lemma EntryAt(h: Hashing, s: State, a: NetAddr)
    requires Inv(h, s, {}, 0) && a in s.addr
    ensures s.addr[a] >= 0 && s.addr[a] in s.info && s.info[s.addr[a]].service.addr == a
    ensures SamePlace(s.info[s.addr[a]], s.info[s.addr[a]])
  {
    TimesAt(s, s.addr[a]);
  }

  lemma UnlinkInv(h: Hashing, s: State, sl: Slot, loose: set<int>, uncounted: int)
    requires Inv(h, s, loose, uncounted) && sl in s.new_
    ensures s.new_[sl] in s.info && s.new_[sl] !in loose && s.info[s.new_[sl]].refCount > 0
    ensures var n := s.new_[sl];
            Inv(h, Unlinked(s, sl), if s.info[n].refCount == 1 then loose + {n} else loose, uncounted)
  {
    hide IdsOk, RandomOk, TriedOk, TimesOk, CountsOk, RefsOk;
    var n := s.new_[sl];
    SlotMeansReferenced(s, sl, loose);
    UnlinkRefs(s, sl, loose);
    TimesAt(s, n);
    UpdateFrame(h, s, n, s.info[n].(refCount := s.info[n].refCount - 1), s.new_ - {sl}, loose,
                     if s.info[n].refCount == 1 then loose + {n} else loose, uncounted);
  }

  /** Taking a free slot of the new table. */
  function Linked(s: State, sl: Slot, n: int): State
    requires n in s.info
  {
    s.(info := s.info[n := s.info[n].(refCount := s.info[n].refCount + 1)], new_ := s.new_[sl := n])
  }

  lemma LinkSlots(t: Table, sl: Slot, n: int, k: int)
    requires sl !in t
    ensures k != n ==> SlotsOf(t[sl := n], k) == SlotsOf(t, k)
    ensures |SlotsOf(t[sl := n], n)| == |SlotsOf(t, n)| + 1
  {
    assert SlotsOf(t[sl := n], n) == SlotsOf(t, n) + {sl};
    if k != n { assert SlotsOf(t[sl := n], k) == SlotsOf(t, k); }
  }

  lemma LinkRefs(s: State, sl: Slot, n: int, loose: set<int>)
    requires RefsOk(s, loose) && sl !in s.new_ && n in s.info
    requires !s.info[n].inTried && s.info[n].refCount < MAX_REFS
    ensures RefsOk(Linked(s, sl, n), loose - {n})
  {
    var t := Linked(s, sl, n);
    forall k | k in t.info ensures RefOk(t, k, loose - {n}) {
      assert RefOk(s, k, loose);
      LinkSlots(s.new_, sl, n, k);
    }
  }

  lemma LinkInv(h: Hashing, s: State, sl: Slot, n: int, loose: set<int>, uncounted: int)
    requires Inv(h, s, loose, uncounted) && sl !in s.new_ && n in s.info
    requires !s.info[n].inTried && s.info[n].refCount < MAX_REFS
    requires 0 <= sl.0 < NEW_BUCKETS && sl == h.NewSlot(sl.0, s.info[n].service)
    ensures Inv(h, Linked(s, sl, n), loose - {n}, uncounted)
  {
    hide IdsOk, RandomOk, TriedOk, TimesOk, CountsOk, RefsOk;
    LinkRefs(s, sl, n, loose);
    TimesAt(s, n);
    UpdateFrame(h, s, n, s.info[n].(refCount := s.info[n].refCount + 1), s.new_[sl := n], loose, loose - {n}, uncounted);
  }

  /** Updating the statistics of an entry. */
  lemma TouchInv(h: Hashing, s: State, n: int, i: AddrInfo, loose: set<int>, uncounted: int)
    requires Inv(h, s, loose, uncounted) && n in s.info && SamePlace(s.info[n], i)
    requires i.refCount == s.info[n].refCount
    ensures Inv(h, s.(info := s.info[n := i]), loose, uncounted)
  {
    hide IdsOk, RandomOk, TriedOk, TimesOk, CountsOk;
    var t := Updated(s, n, i, s.new_);
    assert RefsOk(t, loose) by {
      forall k | k in t.info ensures RefOk(t, k, loose) { assert RefOk(s, k, loose); }
    }
    UpdateFrame(h, s, n, i, s.new_, loose, loose, uncounted);
  }

  /** A new entry, not yet counted and in no slot. */
  function Created(s: State, i: AddrInfo): State {
    var n := s.idCount;
    s.(info := s.info[n := i.(randomPos := |s.random|)], addr := s.addr[i.service.addr := n],
       random := s.random + [n], idCount := n + 1)
  }

  predicate Pristine(i: AddrInfo) {
    i.refCount == 0 && !i.inTried && i.lastTry == 0 && i.lastSuccess == 0
  }

  lemma CreateRefs(h: Hashing, s: State, i: AddrInfo, loose: set<int>)
    requires IdsOk(s) && NewOk(h, s) && RefsOk(s, loose) && Pristine(i)
    ensures RefsOk(Created(s, i), loose + {s.idCount})
  {
    var n, t := s.idCount, Created(s, i);
    assert n !in s.info;
    assert SlotsOf(s.new_, n) == {};
    forall k | k in t.info ensures RefOk(t, k, loose + {n}) {
      if k != n { assert RefOk(s, k, loose); }
    }
  }

  lemma CreateCounts(s: State, i: AddrInfo, uncounted: int)
    requires IdsOk(s) && CountsOk(s, uncounted) && Pristine(i)
    ensures CountsOk(Created(s, i), uncounted + 1)
  {
    var n, t := s.idCount, Created(s, i);
    assert n !in s.info;
    assert TriedIds(t.info) == TriedIds(s.info);
    assert NewIds(t.info) == NewIds(s.info) + {n};
  }

  lemma CreateInv(h: Hashing, s: State, i: AddrInfo, loose: set<int>, uncounted: int)
    requires Inv(h, s, loose, uncounted) && Pristine(i) && i.service.addr !in s.addr
    ensures Inv(h, Created(s, i), loose + {s.idCount}, uncounted + 1)
  {
    hide RefsOk, CountsOk, RandomOk, TriedOk, NewOk, TimesOk;
    assert s.idCount !in s.info;
    CreateRefs(h, s, i, loose);
    CreateCounts(s, i, uncounted);
    CreateOrder(s, i);
    CreateTables(h, s, i);
  }

  lemma CreateTables(h: Hashing, s: State, i: AddrInfo)
    requires TriedOk(h, s) && NewOk(h, s) && TimesOk(s) && s.idCount !in s.info && Pristine(i)
    ensures TriedOk(h, Created(s, i)) && NewOk(h, Created(s, i)) && TimesOk(Created(s, i))
  {
  }

  lemma OneMoreEntry(info: map<int, AddrInfo>, n: int, i: AddrInfo)
    requires n !in info
    ensures |info[n := i]| == |info| + 1
  {
    assert info[n := i].Keys == info.Keys + {n};
  }

  lemma CreateOrder(s: State, i: AddrInfo)
    requires RandomOk(s) && s.idCount !in s.info
    ensures RandomOk(Created(s, i))
  {
    var n, t := s.idCount, Created(s, i);
    OneMoreEntry(s.info, n, t.info[n]);
    forall j | 0 <= j < |t.random| ensures t.random[j] in t.info && t.info[t.random[j]].randomPos == j {
      if j < |s.random| { assert t.random[j] == s.random[j] != n; }
    }
    forall k | k in t.info ensures 0 <= t.info[k].randomPos < |t.random| && t.random[t.info[k].randomPos] == k {
      if k != n { assert t.info[k] == s.info[k]; }
    }
  }

  /** nNew catches up with, or falls behind, the entries it counts. */
  lemma CountInv(h: Hashing, s: State, d: int, loose: set<int>, uncounted: int)
    requires Inv(h, s, loose, uncounted)
    ensures Inv(h, s.(nNew := s.nNew + d), loose, uncounted - d)
  {
    var t := s.(nNew := s.nNew + d);
    assert RefsOk(t, loose) by {
      forall k | k in t.info ensures RefOk(t, k, loose) { assert RefOk(s, k, loose); }
    }
  }

  /** Moving an entry between the tables, while it holds no slot. */
  function Moved(s: State, n: int, toTried: bool, table: Table): State
    requires n in s.info
  {
    s.(info := s.info[n := s.info[n].(inTried := toTried)], tried := table,
       nTried := s.nTried + (if toTried then 1 else -1))
  }

  lemma MovedRefs(s: State, n: int, toTried: bool, table: Table, loose: set<int>)
    requires RefsOk(s, loose) && n in s.info && s.info[n].refCount == 0
    ensures RefsOk(Moved(s, n, toTried, table), if toTried then loose - {n} else loose + {n})
  {
    var t := Moved(s, n, toTried, table);
    var loose' := if toTried then loose - {n} else loose + {n};
    forall k | k in t.info ensures RefOk(t, k, loose') { assert RefOk(s, k, loose); }
  }

  lemma MovedCounts(s: State, n: int, toTried: bool, table: Table, uncounted: int)
    requires CountsOk(s, uncounted) && n in s.info && s.info[n].inTried == !toTried
    ensures CountsOk(Moved(s, n, toTried, table), if toTried then uncounted - 1 else uncounted + 1)
  {
    var t := Moved(s, n, toTried, table);
    if toTried {
      OneMoreAndLess(TriedIds(s.info), TriedIds(t.info), NewIds(s.info), NewIds(t.info), n);
    } else {
      OneMoreAndLess(NewIds(s.info), NewIds(t.info), TriedIds(s.info), TriedIds(t.info), n);
    }
  }

  lemma OneMoreAndLess(a: set<int>, a': set<int>, b: set<int>, b': set<int>, n: int)
    requires n !in a && n in a' && (forall k :: k != n ==> (k in a <==> k in a'))
    requires n in b && n !in b' && (forall k :: k != n ==> (k in b <==> k in b'))
    ensures |a'| == |a| + 1 && |b'| == |b| - 1
  {
    forall k ensures k in a' <==> k in a + {n} { if k != n { assert k in a <==> k in a'; } }
    forall k ensures k in b' <==> k in b - {n} { if k != n { assert k in b <==> k in b'; } }
    assert a' == a + {n};
    assert b' == b - {n};
  }

  lemma MovedOrder(s: State, n: int, toTried: bool, table: Table)
    requires RandomOk(s) && n in s.info
    ensures RandomOk(Moved(s, n, toTried, table))
  {
    var t := Moved(s, n, toTried, table);
    assert t.info.Keys == s.info.Keys && |t.info| == |t.info.Keys| && |s.info| == |s.info.Keys|;
  }

  lemma MovedIds(s: State, n: int, toTried: bool, table: Table)
    requires IdsOk(s) && TimesOk(s) && n in s.info && (toTried ==> s.info[n].lastSuccess != 0)
    ensures IdsOk(Moved(s, n, toTried, table)) && TimesOk(Moved(s, n, toTried, table))
  {
  }

  /** Taking an entry out of the tried table. */
  lemma EvictInv(h: Hashing, s: State, sl: Slot, loose: set<int>, uncounted: int)
    requires Inv(h, s, loose, uncounted) && sl in s.tried
    ensures s.tried[sl] in s.info && s.tried[sl] !in loose && s.info[s.tried[sl]].refCount == 0
    ensures s.info[s.tried[sl]].inTried
    ensures Inv(h, Moved(s, s.tried[sl], false, s.tried - {sl}), loose + {s.tried[sl]}, uncounted + 1)
  {
    var n := s.tried[sl];
    assert n in s.info && s.info[n].inTried;
    hide RandomOk, CountsOk, RefsOk, TriedOk, NewOk, IdsOk, TimesOk;
    MovedIds(s, n, false, s.tried - {sl});
    TriedIsUnreferenced(s, n, loose);
    MovedRefs(s, n, false, s.tried - {sl}, loose);
    MovedCounts(s, n, false, s.tried - {sl}, uncounted);
    MovedOrder(s, n, false, s.tried - {sl});
    NoNewSlots(s, n, loose);
    EvictTables(h, s, sl);
  }

  lemma EvictTables(h: Hashing, s: State, sl: Slot)
    requires TriedOk(h, s) && NewOk(h, s) && sl in s.tried
    requires s.tried[sl] in s.info && forall k :: k in s.new_ ==> s.new_[k] != s.tried[sl]
    ensures TriedOk(h, Moved(s, s.tried[sl], false, s.tried - {sl}))
    ensures NewOk(h, Moved(s, s.tried[sl], false, s.tried - {sl}))
  {
  }

  lemma TriedIsUnreferenced(s: State, n: int, loose: set<int>)
    requires RefsOk(s, loose) && n in s.info && s.info[n].inTried
    ensures s.info[n].refCount == 0 && n !in loose
  {
    assert RefOk(s, n, loose);
  }

  lemma NoNewSlots(s: State, n: int, loose: set<int>)
    requires RefsOk(s, loose) && n in s.info && s.info[n].refCount == 0
    ensures forall sl :: sl in s.new_ ==> s.new_[sl] != n
  {
    assert RefOk(s, n, loose);
    assert SlotsOf(s.new_, n) == {};
    assert forall sl :: sl in s.new_ ==> sl !in SlotsOf(s.new_, n);
  }

  /** Putting a loose entry into its free slot of the tried table. */
  lemma PromoteInv(h: Hashing, s: State, n: int, loose: set<int>, uncounted: int)
    requires Inv(h, s, loose, uncounted) && n in loose && n in s.info && s.info[n].lastSuccess != 0
    requires h.TriedSlot(s.info[n].service) !in s.tried
    ensures Inv(h, Moved(s, n, true, s.tried[h.TriedSlot(s.info[n].service) := n]), loose - {n}, uncounted - 1)
  {
    hide RandomOk, CountsOk, RefsOk, TriedOk, NewOk, IdsOk, TimesOk;
    var sl := h.TriedSlot(s.info[n].service);
    MovedIds(s, n, true, s.tried[sl := n]);
    LooseIsLoose(s, loose, n);
    MovedRefs(s, n, true, s.tried[sl := n], loose);
    MovedCounts(s, n, true, s.tried[sl := n], uncounted);
    MovedOrder(s, n, true, s.tried[sl := n]);
    NoNewSlots(s, n, loose);
    LooseIsNowhere(h, s, loose, n);
    PromoteTables(h, s, n);
  }

  lemma PromoteTables(h: Hashing, s: State, n: int)
    requires TriedOk(h, s) && NewOk(h, s) && n in s.info && h.TriedSlot(s.info[n].service) !in s.tried
    requires forall k :: k in s.new_ ==> s.new_[k] != n
    requires forall k :: k in s.tried ==> s.tried[k] != n
    ensures TriedOk(h, Moved(s, n, true, s.tried[h.TriedSlot(s.info[n].service) := n]))
    ensures NewOk(h, Moved(s, n, true, s.tried[h.TriedSlot(s.info[n].service) := n]))
  {
  }

  // ---------------------------------------------------------------------------
  // The debug check
  // ---------------------------------------------------------------------------

  /** The conditions of `Check_`, in its order; the numbers are its error codes. */
  predicate CheckPasses(h: Hashing, s: State) {
    && |s.random| == s.nTried + s.nNew                                                       // -7
    && (forall n :: n in s.info ==>
          var i := s.info[n];
          && (i.inTried ==> i.lastSuccess != 0 && i.refCount == 0)                           // -1, -2
          && (!i.inTried ==> 0 < i.refCount <= MAX_REFS)                                     // -3, -4
          && i.service.addr in s.addr && s.addr[i.service.addr] == n                         // -5
          && 0 <= i.randomPos < |s.random| && s.random[i.randomPos] == n                     // -14
          && i.lastTry >= 0 && i.lastSuccess >= 0)                                           // -6, -8
    && |TriedIds(s.info)| == s.nTried && |NewIds(s.info)| == s.nNew                          // -9, -10
    && (forall sl :: sl in s.tried ==>
          && s.tried[sl] in TriedIds(s.info)                                                 // -11
          && sl == h.TriedSlot(s.info[s.tried[sl]].service))                                 // -17, -18
    && (forall sl :: sl in s.new_ ==>
          && s.new_[sl] in NewIds(s.info)                                                    // -12
          && sl.1 == h.Position(true, if sl.0 >= 0 then sl.0 else 0, s.info[s.new_[sl]].service))  // -19
    // each tried id is in exactly one slot, each new id in as many as its reference count
    && (forall n :: n in TriedIds(s.info) ==> |SlotsOf(s.tried, n)| == 1)                    // -11, -13
    && (forall n :: n in NewIds(s.info) ==> |SlotsOf(s.new_, n)| == s.info[n].refCount)      // -12, -15
    && h.key != 0                                                                            // -16
  }

  /** A consistent state passes, unless the key is null. */
  lemma InvImpliesCheck(h: Hashing, s: State)
    requires Inv(h, s, {}, 0)
    ensures CheckPasses(h, s) <==> h.key != 0
  {
    hide SlotsOf;
    EntriesPartition(s.info);
    EntryCounts(h, s);
    forall n | n in TriedIds(s.info) ensures |SlotsOf(s.tried, n)| == 1 { OneTriedSlot(h, s, n); }
  }

  lemma EntriesPartition(info: map<int, AddrInfo>)
    ensures |TriedIds(info)| + |NewIds(info)| == |info|
  {
    assert TriedIds(info) + NewIds(info) == info.Keys;
    assert |TriedIds(info) + NewIds(info)| == |TriedIds(info)| + |NewIds(info)|;
  }

  lemma EntryCounts(h: Hashing, s: State)
    requires RefsOk(s, {})
    ensures forall n :: n in s.info ==>
      && s.info[n].refCount == |SlotsOf(s.new_, n)|
      && (s.info[n].inTried ==> s.info[n].refCount == 0)
      && (!s.info[n].inTried ==> 0 < s.info[n].refCount <= MAX_REFS)
  {
    forall n | n in s.info
      ensures && s.info[n].refCount == |SlotsOf(s.new_, n)|
              && (s.info[n].inTried ==> s.info[n].refCount == 0)
              && (!s.info[n].inTried ==> 0 < s.info[n].refCount <= MAX_REFS)
    {
      assert RefOk(s, n, {});
    }
  }

  lemma OneTriedSlot(h: Hashing, s: State, n: int)
    requires TriedOk(h, s) && n in TriedIds(s.info)
    ensures |SlotsOf(s.tried, n)| == 1
  {
    assert SlotsOf(s.tried, n) == {h.TriedSlot(s.info[n].service)};
  }

  // ---------------------------------------------------------------------------
  // Facts the operations use
  // ---------------------------------------------------------------------------

  lemma EntryReferences(h: Hashing, s: State, n: int)
    requires Inv(h, s, {}, 0) && n in s.info && !s.info[n].inTried
    ensures 0 < s.info[n].refCount <= MAX_REFS && SlotsOf(s.new_, n) != {}
  {
    assert RefOk(s, n, {});
  }

  lemma ReferencesAreSlots(h: Hashing, s: State, n: int, loose: set<int>, uncounted: int)
    requires Inv(h, s, loose, uncounted) && n in s.info && SlotsOf(s.new_, n) == {}
    ensures s.info[n].refCount == 0
  {
    assert RefOk(s, n, loose);
  }

  lemma SlotIsHashed(h: Hashing, s: State, sl: Slot, loose: set<int>, uncounted: int)
    requires Inv(h, s, loose, uncounted) && sl in s.new_
    ensures s.new_[sl] in s.info && !s.info[s.new_[sl]].inTried
    ensures 0 <= sl.0 < NEW_BUCKETS && sl == h.NewSlot(sl.0, s.info[s.new_[sl]].service)
  {
    assert NewOk(h, s);
  }

  lemma IdsAreNatural(h: Hashing, s: State, loose: set<int>, uncounted: int)
    requires Inv(h, s, loose, uncounted)
    ensures s.idCount >= 0 && -1 !in loose && -1 !in s.info && s.idCount !in s.info
  {
    assert IdsOk(s);
  }

  lemma OrderIsInjective(s: State, i: int, j: int)
    requires RandomOk(s) && 0 <= i < j < |s.random|
    ensures s.random[i] != s.random[j]
  {
    assert s.info[s.random[i]].randomPos == i && s.info[s.random[j]].randomPos == j;
  }
}

/**
 The operations of the address manager, src/addrman.cpp, on the mutable object.

 Snapshot() is the abstract state; every elementary operation is tied to a function of
 AddrManState, whose lemmas show that the invariant is kept.  Random numbers are arbitrary, the
 clock is a parameter.
 */
module AddrMan {
  import opened AddrManState
  import opened IntMath

  const GETADDR_MAX_PCT := 23
  const GETADDR_MAX := 2500

  /** The occupied slots of a table. */
  ghost function Occupied(a: array2<int>): Table
    reads a
  {
    map b, i | 0 <= b < a.Length0 && 0 <= i < a.Length1 && a[b, i] != -1 :: (b, i) := a[b, i]
  }

  /** References and the place in the random order aside, nothing changed. */
  predicate SameButReferences(a: AddrInfo, b: AddrInfo) { b == a.(refCount := b.refCount, randomPos := b.randomPos) }

  /** Apart from some entries of its own, an operation loses at most one victim, adds none and changes none. */
  ghost predicate Others(before: map<int, AddrInfo>, after: map<int, AddrInfo>, victim: int, own: set<int>) {
    && (forall k :: k in before && k !in own && k != victim ==> k in after)
    && (forall k :: k in after && k !in own ==> k in before && SameButReferences(before[k], after[k]))
  }

  /** What a slot holds, or -1. */
  function At(t: Table, sl: Slot): int { if sl in t then t[sl] else -1 }

  function Without(t: Table, id: int): Table { map sl | sl in t && t[sl] != id :: t[sl] }

  /** The slot of the new table is free, or what is there may be replaced by an entry with so many references. */
  predicate Yields(info: map<int, AddrInfo>, there: int, refCount: int, now: int) {
    there == -1 ||
    (there in info && (info[there].IsTerrible(now) || (info[there].refCount > 1 && refCount == 0)))
  }

  lemma OthersAfterOwn(before: map<int, AddrInfo>, between: map<int, AddrInfo>, after: map<int, AddrInfo>, victim: int,
                       id: int, info: AddrInfo)
    requires between == before[id := info] && Others(between, after, victim, {id})
    ensures Others(before, after, victim, {id})
  {
    hide SameButReferences;
  }

  /** An entry changes tables while the rest of the new table makes room for it. */
  lemma OthersAfterMove(before: map<int, AddrInfo>, between: map<int, AddrInfo>, after: map<int, AddrInfo>, victim: int,
                        id: int, info: AddrInfo, n: int)
    requires Others(before[id := info], between, victim, {}) && id != victim && id in between
    requires after == between[id := between[id].(refCount := n)]
    ensures Others(before, after, victim, {id}) && SameButReferences(info, after[id])
  {
  }

  class AddrMan {
    const hashing: Hashing
    const isRoutable: NetAddr -> bool
    const vvNew: array2<int>
    const vvTried: array2<int>
    ghost const Repr: set<object>

    var nIdCount: int
    var mapInfo: map<int, AddrInfo>
    var mapAddr: map<NetAddr, int>
    var vRandom: seq<int>
    var nTried: int
    var nNew: int
    var nLastGood: int

    ghost predicate Shaped()
      reads this
    {
      && Repr == {this, vvNew, vvTried} && vvNew != vvTried
      && vvNew.Length0 == NEW_BUCKETS && vvNew.Length1 == BUCKET_SIZE
      && vvTried.Length0 == TRIED_BUCKETS && vvTried.Length1 == BUCKET_SIZE
    }

    ghost function Snapshot(): State
      reads this, vvNew, vvTried
    {
      State(mapInfo, mapAddr, vRandom, nTried, Occupied(vvTried), nNew, Occupied(vvNew), nIdCount)
    }

    /** In the middle of an operation. */
    ghost predicate Pending(loose: set<int>, uncounted: int)
      reads this, vvNew, vvTried
    {
      Shaped() && Inv(hashing, Snapshot(), loose, uncounted)
    }

    ghost predicate Valid()
      reads this, vvNew, vvTried
    {
      Pending({}, 0)
    }

    constructor (h: Hashing, routable: NetAddr -> bool)
      ensures Valid() && fresh(Repr) && hashing == h && isRoutable == routable
      ensures mapInfo == map[]
    {
      hashing, isRoutable := h, routable;
      var new_ := new int[NEW_BUCKETS, BUCKET_SIZE]((_, _) => -1);
      var tried := new int[TRIED_BUCKETS, BUCKET_SIZE]((_, _) => -1);
      vvNew, vvTried, Repr := new_, tried, {this, new_, tried};
      nIdCount, mapInfo, mapAddr, vRandom, nTried, nNew, nLastGood := 0, map[], map[], [], 0, 0, 1;
      new;
      assert Occupied(vvNew) == map[] && Occupied(vvTried) == map[];
      assert TriedIds(map[]) == {} && NewIds(map[]) == {};
    }

    // ----- elementary operations -------------------------------------------

    method SetNew(b: nat, i: nat, n: int)
      requires Shaped() && b < NEW_BUCKETS && i < BUCKET_SIZE
      modifies vvNew
      ensures vvNew[b, i] == n
      ensures Occupied(vvNew) == if n == -1 then old(Occupied(vvNew)) - {(b, i)} else old(Occupied(vvNew))[(b, i) := n]
    {
      vvNew[b, i] := n;
    }

    method SetTried(b: nat, i: nat, n: int)
      requires Shaped() && b < TRIED_BUCKETS && i < BUCKET_SIZE
      modifies vvTried
      ensures vvTried[b, i] == n
      ensures Occupied(vvTried) == if n == -1 then old(Occupied(vvTried)) - {(b, i)} else old(Occupied(vvTried))[(b, i) := n]
    {
      vvTried[b, i] := n;
    }

    method SwapRandom(pos1: nat, pos2: nat)
      requires RandomOk(Snapshot()) && pos1 < |vRandom| && pos2 < |vRandom|
      modifies this`mapInfo, this`vRandom
      ensures Snapshot() == Swapped(old(Snapshot()), pos1, pos2)
    {
      if pos1 == pos2 { return; }
      var id1, id2 := vRandom[pos1], vRandom[pos2];
      assert id1 in mapInfo && id2 in mapInfo;
      mapInfo := mapInfo[id1 := mapInfo[id1].(randomPos := pos2)];
      mapInfo := mapInfo[id2 := mapInfo[id2].(randomPos := pos1)];
      vRandom := vRandom[pos1 := id2];
      vRandom := vRandom[pos2 := id1];
    }

    /** All entries but one keep their data; their place in the random order may change. */
    ghost predicate Keeps(before: map<int, AddrInfo>, except: int)
      reads this
    {
      forall k :: k in before && k != except ==>
        k in mapInfo && SameEntry(before[k], mapInfo[k])
    }

    method Delete(id: int, ghost loose: set<int>, ghost uncounted: int)
      requires Pending(loose, uncounted) && id in loose
      modifies this`mapInfo, this`mapAddr, this`vRandom, this`nNew
      ensures Pending(loose - {id}, uncounted) && Keeps(old(mapInfo), id)
      ensures mapInfo.Keys == old(mapInfo).Keys - {id} && nIdCount == old(nIdCount)
    {
      hide Inv, RandomOk, Swapped, SameEntry;
      ghost var s0 := Snapshot();
      DeleteInv(hashing, Snapshot(), id, loose, uncounted);
      LooseEntry(loose, uncounted, id);
      assert id in mapInfo && !mapInfo[id].inTried && mapInfo[id].refCount == 0;
      var info := mapInfo[id];
      SwapKeepsService(s0, info.randomPos, |vRandom| - 1, id);
      SwapRandom(info.randomPos, |vRandom| - 1);
      vRandom := vRandom[..|vRandom| - 1];
      mapAddr := mapAddr - {info.service.addr};
      mapInfo := mapInfo - {id};
      nNew := nNew - 1;
      assert Snapshot() == Deleted(s0, id);
    }

    lemma LooseEntry(loose: set<int>, uncounted: int, id: int)
      requires Pending(loose, uncounted) && id in loose
      ensures id in mapInfo && !mapInfo[id].inTried && mapInfo[id].refCount == 0
      ensures RandomOk(Snapshot()) && 0 <= mapInfo[id].randomPos < |vRandom|
    {
      LooseIsLoose(Snapshot(), loose, id);
    }

    /** Gives up one slot of the new table. */
    method Unlink(b: nat, i: nat, ghost loose: set<int>, ghost uncounted: int)
      requires Pending(loose, uncounted) && b < NEW_BUCKETS && i < BUCKET_SIZE && vvNew[b, i] != -1
      modifies this`mapInfo, vvNew
      ensures var id := old(vvNew[b, i]);
              && id in old(mapInfo) && id !in loose && old(mapInfo[id]).refCount > 0
              && mapInfo == old(mapInfo)[id := old(mapInfo[id]).(refCount := old(mapInfo[id]).refCount - 1)]
              && Pending(if mapInfo[id].refCount == 0 then loose + {id} else loose, uncounted)
      ensures Occupied(vvNew) == old(Occupied(vvNew)) - {(b, i)} && vvNew[b, i] == -1
    {
      hide Inv;
      var id := vvNew[b, i];
      assert (b, i) in Occupied(vvNew);
      UnlinkInv(hashing, Snapshot(), (b, i), loose, uncounted);
      mapInfo := mapInfo[id := mapInfo[id].(refCount := mapInfo[id].refCount - 1)];
      SetNew(b, i, -1);
    }

    method ClearNew(b: nat, i: nat, ghost loose: set<int>, ghost uncounted: int)
      requires Pending(loose, uncounted) && b < NEW_BUCKETS && i < BUCKET_SIZE
      modifies this`mapInfo, this`mapAddr, this`vRandom, this`nNew, vvNew
      ensures Pending(loose, uncounted) && Keeps(old(mapInfo), old(vvNew[b, i]))
      ensures Others(old(mapInfo), mapInfo, old(vvNew[b, i]), {})
      ensures Occupied(vvNew) == old(Occupied(vvNew)) - {(b, i)}
      ensures old(vvNew[b, i]) !in loose
      ensures LosesReference(old(mapInfo), old(vvNew[b, i]))
    {
      hide Inv;
      if vvNew[b, i] != -1 {
        var id := vvNew[b, i];
        Unlink(b, i, loose, uncounted);
        if mapInfo[id].refCount == 0 {
          assert loose + {id} - {id} == loose;
          Delete(id, loose + {id}, uncounted);
        }
      } else {
        assert (b, i) !in Occupied(vvNew);
        NoNegativeIds(loose, uncounted);
      }
    }

    /** An entry, if any, has one reference less, and is gone with its last one. */
    ghost predicate LosesReference(before: map<int, AddrInfo>, id: int)
      reads this
    {
      id != -1 ==>
        && id in before && before[id].refCount > 0 && (id in mapInfo <==> before[id].refCount > 1)
        && (id in mapInfo ==> mapInfo[id].refCount == before[id].refCount - 1)
    }

    lemma NoNegativeIds(loose: set<int>, uncounted: int)
      requires Pending(loose, uncounted)
      ensures -1 !in loose && -1 !in mapInfo
    {
      hide Inv;
      IdsAreNatural(hashing, Snapshot(), loose, uncounted);
    }

    /** Takes a free slot of the new table. */
    method Link(b: nat, i: nat, id: int, ghost loose: set<int>, ghost uncounted: int)
      requires Pending(loose, uncounted) && b < NEW_BUCKETS && i < BUCKET_SIZE && vvNew[b, i] == -1
      requires id in mapInfo && !mapInfo[id].inTried && mapInfo[id].refCount < MAX_REFS
      requires i == hashing.Position(true, b, mapInfo[id].service)
      modifies this`mapInfo, vvNew
      ensures Pending(loose - {id}, uncounted)
      ensures mapInfo == old(mapInfo)[id := old(mapInfo[id]).(refCount := old(mapInfo[id]).refCount + 1)]
      ensures Occupied(vvNew) == old(Occupied(vvNew))[(b, i) := id]
    {
      hide Inv;
      NoNegativeIds(loose, uncounted);
      assert (b, i) !in Occupied(vvNew);
      LinkInv(hashing, Snapshot(), (b, i), id, loose, uncounted);
      mapInfo := mapInfo[id := mapInfo[id].(refCount := mapInfo[id].refCount + 1)];
      SetNew(b, i, id);
    }

    // ----- moving an entry to the tried table --------------------------------

    /** No slot before this bucket refers to the entry. */
    ghost predicate CleanUpTo(id: int, bucket: int)
      reads vvNew
    {
      forall sl :: sl in Occupied(vvNew) && Occupied(vvNew)[sl] == id ==> sl.0 >= bucket
    }

    ghost function LooseIfUnreferenced(id: int): set<int>
      requires id in mapInfo
      reads this
    {
      if mapInfo[id].refCount == 0 then {id} else {}
    }

    /** One round of the first loop of MakeTried. */
    method ClearBucket(id: int, bucket: nat)
      requires id in mapInfo && Pending(LooseIfUnreferenced(id), 0) && bucket < NEW_BUCKETS && CleanUpTo(id, bucket)
      modifies this`mapInfo, vvNew
      ensures id in mapInfo && Pending(LooseIfUnreferenced(id), 0) && CleanUpTo(id, bucket + 1)
      ensures mapInfo == old(mapInfo)[id := old(mapInfo[id]).(refCount := mapInfo[id].refCount)]
      ensures Without(Occupied(vvNew), id) == Without(old(Occupied(vvNew)), id)
    {
      hide Inv, Occupied, Without;
      var pos := hashing.Position(true, bucket, mapInfo[id].service);
      if vvNew[bucket, pos] == id {
        NoNegativeIds(LooseIfUnreferenced(id), 0);
        WithoutSlot(Occupied(vvNew), (bucket, pos), id) by { SlotHolds(bucket, pos); }
        Unlink(bucket, pos, LooseIfUnreferenced(id), 0);
        assert {} + {id} == {id};
      }
      NotInBucket(id, bucket, pos, LooseIfUnreferenced(id));
    }

    /** The first loop of MakeTried: removes the entry from all new buckets. */
    method RemoveFromNew(id: int)
      requires Valid() && id in mapInfo && !mapInfo[id].inTried
      modifies this`mapInfo, vvNew
      ensures Pending({id}, 0) && Occupied(vvNew) == Without(old(Occupied(vvNew)), id)
      ensures mapInfo == old(mapInfo)[id := old(mapInfo[id]).(refCount := 0)]
    {
      hide Inv, Occupied, CleanUpTo, Without;
      HasReferences(id);
      CleanFromStart(id);
      for bucket := 0 to NEW_BUCKETS
        invariant id in mapInfo && Pending(LooseIfUnreferenced(id), 0)
        invariant mapInfo == old(mapInfo)[id := old(mapInfo[id]).(refCount := mapInfo[id].refCount)]
        invariant CleanUpTo(id, bucket) && Without(Occupied(vvNew), id) == Without(old(Occupied(vvNew)), id)
      {
        ClearBucket(id, bucket);
      }
      NoSlotsLeft(id, LooseIfUnreferenced(id));
    }

    lemma WithoutSlot(t: Table, sl: Slot, id: int)
      requires At(t, sl) == id
      ensures Without(t - {sl}, id) == Without(t, id)
    {
    }

    lemma SlotHolds(b: nat, i: nat)
      requires Shaped() && b < NEW_BUCKETS && i < BUCKET_SIZE
      ensures At(Occupied(vvNew), (b, i)) == vvNew[b, i]
    {
    }

    lemma CleanFromStart(id: int)
      ensures CleanUpTo(id, 0)
    {
    }

    lemma HasReferences(id: int)
      requires Valid() && id in mapInfo && !mapInfo[id].inTried
      ensures mapInfo[id].refCount > 0
    {
      hide Inv;
      EntryReferences(hashing, Snapshot(), id);
    }

    lemma NotInBucket(id: int, bucket: nat, pos: nat, loose: set<int>)
      requires Pending(loose, 0) && id in mapInfo && bucket < NEW_BUCKETS && pos < BUCKET_SIZE
      requires pos == hashing.Position(true, bucket, mapInfo[id].service)
      requires CleanUpTo(id, bucket) && vvNew[bucket, pos] != id
      ensures CleanUpTo(id, bucket + 1)
    {
      hide Inv;
      var s := Snapshot();
      forall sl | sl in s.new_ && s.new_[sl] == id ensures sl.0 >= bucket + 1 {
        SlotIsHashed(hashing, s, sl, loose, 0);
      }
    }

    lemma NoSlotsLeft(id: int, loose: set<int>)
      requires Pending(loose, 0) && id in mapInfo && CleanUpTo(id, NEW_BUCKETS)
      ensures mapInfo[id].refCount == 0 && Without(Occupied(vvNew), id) == Occupied(vvNew)
    {
      hide Inv;
      var s := Snapshot();
      forall sl | sl in s.new_ ensures s.new_[sl] != id { SlotIsHashed(hashing, s, sl, loose, 0); }
      assert SlotsOf(s.new_, id) == {};
      ReferencesAreSlots(hashing, s, id, loose, 0);
    }

    /** What holds the tried slot of a service. */
    ghost function TriedAt(service: Service): int
      reads vvTried
    {
      At(Occupied(vvTried), hashing.TriedSlot(service))
    }

    /** The slot of the new table for an address that was announced by a source. */
    function NewSlotFor(service: Service, source: NetAddr): Slot {
      hashing.NewSlot(hashing.NewBucket(service.addr, source), service)
    }

    ghost function NewAt(service: Service, source: NetAddr): int
      reads vvNew
    {
      At(Occupied(vvNew), NewSlotFor(service, source))
    }

    /** The new table after an entry left it and an evicted one, if any, took its slot. */
    ghost function Exchanged(t: Table, before: map<int, AddrInfo>, id: int, evicted: int): Table
      requires evicted != -1 ==> evicted in before
    {
      if evicted == -1 then Without(t, id)
      else Without(t, id)[NewSlotFor(before[evicted].service, before[evicted].source) := evicted]
    }

    /** The entry, if any, left the tried table and is in the new one, otherwise unchanged. */
    ghost predicate IsBackInNew(before: map<int, AddrInfo>, evicted: int)
      reads this
    {
      evicted != -1 ==>
        && evicted in before && before[evicted].inTried && evicted in mapInfo
        && SameButReferences(before[evicted].(inTried := false), mapInfo[evicted])
    }

    /**
     Moves an entry from the new table to the tried table.  What is in its way goes back to the
     new table, where it may replace an entry, but never a tried one.
     */
    method MakeTried(id: int) returns (ghost victim: int, ghost evicted: int)
      requires Valid() && id in mapInfo && !mapInfo[id].inTried && mapInfo[id].lastSuccess != 0
      modifies this`mapInfo, this`mapAddr, this`vRandom, this`nNew, this`nTried, vvNew, vvTried
      ensures Valid() && id in mapInfo && evicted == old(TriedAt(mapInfo[id].service))
      ensures mapInfo[id] == old(mapInfo[id]).(refCount := 0, inTried := true, randomPos := mapInfo[id].randomPos)
      ensures IsBackInNew(old(mapInfo), evicted)
      ensures victim in old(mapInfo) ==> !old(mapInfo[victim]).inTried && victim != id
      ensures Others(old(mapInfo), mapInfo, victim, {id, evicted}) && LosesReference(old(mapInfo), victim)
      ensures Occupied(vvTried) == old(Occupied(vvTried))[hashing.TriedSlot(mapInfo[id].service) := id]
      ensures Occupied(vvNew) == Exchanged(old(Occupied(vvNew)), old(mapInfo), id, evicted)
    {
      hide Inv, Occupied, Without;
      victim := -1;
      NoNegativeIds({}, 0);
      RemoveFromNew(id);
      CountInv(hashing, Snapshot(), -1, {id}, 0);
      nNew := nNew - 1;
      assert mapInfo[id].refCount == 0;

      var kBucket := hashing.TriedBucket(mapInfo[id].service);
      var kPos := hashing.Position(false, kBucket, mapInfo[id].service);
      OccupantOf(kBucket, kPos);
      evicted := vvTried[kBucket, kPos];
      assert Occupied(vvTried) == old(Occupied(vvTried));
      if vvTried[kBucket, kPos] != -1 {
        victim := EvictFrom(kBucket, kPos, id);
      }
      assert vvTried[kBucket, kPos] == -1;
      Promote(kBucket, kPos, id);
    }

    lemma OccupantOf(b: nat, i: nat)
      requires Shaped() && b < TRIED_BUCKETS && i < BUCKET_SIZE
      ensures vvTried[b, i] == At(Occupied(vvTried), (b, i))
    {
    }

    /** The entry in a tried slot goes back to the new table, replacing what is there. */
    method EvictFrom(b: nat, i: nat, ghost id: int) returns (ghost victim: int)
      requires Pending({id}, 1) && b < TRIED_BUCKETS && i < BUCKET_SIZE && vvTried[b, i] != -1
      modifies this`mapInfo, this`mapAddr, this`vRandom, this`nNew, this`nTried, vvNew, vvTried
      ensures Pending({id}, 1) && vvTried[b, i] == -1
      ensures id in old(mapInfo) && id in mapInfo && SameEntry(old(mapInfo[id]), mapInfo[id])
      ensures id != old(vvTried[b, i]) && IsBackInNew(old(mapInfo), old(vvTried[b, i]))
      ensures victim in old(mapInfo) ==> !old(mapInfo[victim]).inTried && victim != id
      ensures Others(old(mapInfo), mapInfo, victim, {old(vvTried[b, i])}) && LosesReference(old(mapInfo), victim)
      ensures Occupied(vvTried) == old(Occupied(vvTried)) - {(b, i)}
      ensures var info := old(mapInfo[vvTried[b, i]]);
        Occupied(vvNew) == old(Occupied(vvNew))[NewSlotFor(info.service, info.source) := old(vvTried[b, i])]
    {
      hide Inv, Occupied, Others, SameButReferences, NewSlotFor;
      var evict := vvTried[b, i];
      TakeFromTried(b, i, id);
      LooseEntry({id, evict}, 2, id);
      ghost var info := mapInfo[evict];
      ghost var between;
      victim, between := ReturnToNew(evict, id);
      OthersAfterMove(old(mapInfo), between, mapInfo, victim, evict, info, mapInfo[evict].refCount);
    }

    /** An entry without a slot takes its slot in the new table. */
    method ReturnToNew(evict: int, ghost id: int) returns (ghost victim: int, ghost between: map<int, AddrInfo>)
      requires Pending({id, evict}, 2) && evict != id && id in mapInfo && evict in mapInfo
      modifies this`mapInfo, this`mapAddr, this`vRandom, this`nNew, vvNew
      ensures Pending({id}, 1) && id in mapInfo && SameEntry(old(mapInfo[id]), mapInfo[id])
      ensures victim != id && victim != evict && (victim in old(mapInfo) ==> !old(mapInfo[victim]).inTried)
      ensures Others(old(mapInfo), between, victim, {}) && evict in between && evict in mapInfo
      ensures mapInfo == between[evict := between[evict].(refCount := mapInfo[evict].refCount)]
      ensures LosesReference(old(mapInfo), victim)
      ensures var info := old(mapInfo[evict]);
        Occupied(vvNew) == old(Occupied(vvNew))[NewSlotFor(info.service, info.source) := evict]
    {
      hide Inv, Occupied, Others, SameEntry;
      // find which new bucket it belongs to
      var uBucket := hashing.NewBucket(mapInfo[evict].service.addr, mapInfo[evict].source);
      var uPos := hashing.Position(true, uBucket, mapInfo[evict].service);
      victim := vvNew[uBucket, uPos];
      if victim != -1 { InNewTable(uBucket, uPos, {id, evict}, 2); }
      NoNegativeIds({id, evict}, 2);
      ClearNew(uBucket, uPos, {id, evict}, 2);
      between := mapInfo;
      SameService(old(mapInfo[evict]), mapInfo[evict]);
      FreeSlot(uBucket, uPos);
      LooseEntry({id, evict}, 2, evict);
      Link(uBucket, uPos, evict, {id, evict}, 2);
      assert {id, evict} - {evict} == {id};
      CountInv(hashing, Snapshot(), 1, {id}, 2);
      nNew := nNew + 1;
    }

    lemma SameService(a: AddrInfo, b: AddrInfo)
      requires SameEntry(a, b)
      ensures a.service == b.service
    {
    }

    lemma FreeSlot(b: nat, i: nat)
      requires Shaped() && b < NEW_BUCKETS && i < BUCKET_SIZE && (b, i) !in Occupied(vvNew)
      ensures vvNew[b, i] == -1
    {
    }

    method TakeFromTried(b: nat, i: nat, ghost id: int)
      requires Pending({id}, 1) && b < TRIED_BUCKETS && i < BUCKET_SIZE && vvTried[b, i] != -1
      modifies this`mapInfo, this`nTried, vvTried
      ensures var evict := old(vvTried[b, i]);
              && evict in old(mapInfo) && evict != id && id in mapInfo && old(mapInfo[evict]).inTried
              && mapInfo == old(mapInfo)[evict := old(mapInfo[evict]).(inTried := false)]
              && Pending({id, evict}, 2)
      ensures vvTried[b, i] == -1 && Occupied(vvTried) == old(Occupied(vvTried)) - {(b, i)}
    {
      hide Inv;
      var evict := vvTried[b, i];
      assert (b, i) in Occupied(vvTried);
      EvictInv(hashing, Snapshot(), (b, i), {id}, 1);
      LooseEntry({id}, 1, id);
      assert {id} + {evict} == {id, evict};
      mapInfo := mapInfo[evict := mapInfo[evict].(inTried := false)];
      SetTried(b, i, -1);
      nTried := nTried - 1;
    }

    method Promote(b: nat, i: nat, id: int)
      requires Pending({id}, 1) && id in mapInfo && mapInfo[id].lastSuccess != 0
      requires b < TRIED_BUCKETS && i < BUCKET_SIZE && (b, i) == hashing.TriedSlot(mapInfo[id].service)
      requires vvTried[b, i] == -1
      modifies this`mapInfo, this`nTried, vvTried
      ensures Valid() && mapInfo == old(mapInfo)[id := old(mapInfo[id]).(inTried := true)]
      ensures Occupied(vvTried) == old(Occupied(vvTried))[(b, i) := id]
    {
      hide Inv;
      NoNegativeIds({id}, 1);
      assert (b, i) !in Occupied(vvTried);
      ghost var s0 := Snapshot();
      PromoteInv(hashing, s0, id, {id}, 1);
      assert {id} - {id} == {};
      SetTried(b, i, id);
      nTried := nTried + 1;
      mapInfo := mapInfo[id := mapInfo[id].(inTried := true)];
      assert Snapshot() == Moved(s0, id, true, s0.tried[(b, i) := id]);
    }

    // ----- public operations -------------------------------------------------

    /** Replaces the statistics of an entry. */
    method Touch(id: int, i: AddrInfo)
      requires Valid() && id in mapInfo && SamePlace(mapInfo[id], i) && i.refCount == mapInfo[id].refCount
      modifies this`mapInfo
      ensures Valid() && mapInfo == old(mapInfo)[id := i]
    {
      hide Inv;
      TouchInv(hashing, Snapshot(), id, i, {}, 0);
      mapInfo := mapInfo[id := i];
    }

    /** The entry for an address; it exists and its times are in order. */
    lemma Known(a: NetAddr)
      requires Valid() && a in mapAddr
      ensures mapAddr[a] in mapInfo && mapInfo[mapAddr[a]].service.addr == a
      ensures SamePlace(mapInfo[mapAddr[a]], mapInfo[mapAddr[a]]) && mapAddr[a] != -1
    {
      hide Inv;
      EntryAt(hashing, Snapshot(), a);
    }

    /** There is an entry for exactly this address and port. */
    ghost predicate Has(service: Service)
      reads this
    {
      service.addr in mapAddr && mapAddr[service.addr] in mapInfo && mapInfo[mapAddr[service.addr]].service == service
    }

    /** A failure counts once between two successful connections to anyone. */
    method Attempt(service: Service, countFailure: bool, nTime: int)
      requires Valid() && nTime >= 0
      modifies this`mapInfo
      ensures Valid()
      ensures old(Has(service)) ==>
        var id := mapAddr[service.addr];
        var was := old(mapInfo)[id];
        var counts := countFailure && was.lastCountAttempt < nLastGood;
        mapInfo == old(mapInfo)[id := was.(lastTry := nTime,
                                           lastCountAttempt := if counts then nTime else was.lastCountAttempt,
                                           attempts := if counts then was.attempts + 1 else was.attempts)]
      ensures !old(Has(service)) ==> mapInfo == old(mapInfo)
    {
      hide Inv;
      if service.addr !in mapAddr { return; }
      Known(service.addr);
      var id := mapAddr[service.addr];
      var info := mapInfo[id];
      if info.service != service { return; }
      info := info.(lastTry := nTime);
      if countFailure && info.lastCountAttempt < nLastGood {
        info := info.(lastCountAttempt := nTime, attempts := info.attempts + 1);
      }
      Touch(id, info);
    }

    /** Refreshes a time that is more than twenty minutes old. */
    method Connected(service: Service, nTime: int)
      requires Valid()
      modifies this`mapInfo
      ensures Valid()
      ensures old(Has(service)) ==>
        var id := mapAddr[service.addr];
        var was := old(mapInfo)[id];
        mapInfo == old(mapInfo)[id := was.(time := if nTime - was.time > 20 * 60 then nTime else was.time)]
      ensures !old(Has(service)) ==> mapInfo == old(mapInfo)
    {
      hide Inv;
      if service.addr !in mapAddr { return; }
      Known(service.addr);
      var id := mapAddr[service.addr];
      var info := mapInfo[id];
      if info.service != service { return; }
      if nTime - info.time > 20 * 60 { Touch(id, info.(time := nTime)); }
    }

    method SetServices(service: Service, services: set<nat>)
      requires Valid()
      modifies this`mapInfo
      ensures Valid()
      ensures old(Has(service)) ==>
        var id := mapAddr[service.addr];
        mapInfo == old(mapInfo)[id := old(mapInfo)[id].(services := services)]
      ensures !old(Has(service)) ==> mapInfo == old(mapInfo)
    {
      hide Inv;
      if service.addr !in mapAddr { return; }
      Known(service.addr);
      var id := mapAddr[service.addr];
      if mapInfo[id].service != service { return; }
      Touch(id, mapInfo[id].(services := services));
    }

    /** The search of Good_ for a bucket of an entry, from a random start; it always succeeds. */
    method FindBucket(id: int, start: nat) returns (bucket: int)
      requires Valid() && id in mapInfo && !mapInfo[id].inTried && start < NEW_BUCKETS
      ensures bucket != -1 && InBucket(id, bucket)
    {
      hide Inv;
      bucket := -1;
      ghost var target := SomeBucket(id);
      var n := 0;
      while n < NEW_BUCKETS && bucket == -1
        invariant 0 <= n <= NEW_BUCKETS
        invariant if bucket == -1 then n <= (target - start) % NEW_BUCKETS else InBucket(id, bucket)
        decreases NEW_BUCKETS - n, bucket == -1
      {
        var b := (n + start) % NEW_BUCKETS;
        if vvNew[b, hashing.Position(true, b, mapInfo[id].service)] == id {
          bucket := b;
        } else {
          assert b != target;
          n := n + 1;
        }
      }
    }

    ghost predicate InBucket(id: int, b: int)
      requires Shaped() && id in mapInfo
      reads this, vvNew
    {
      0 <= b < NEW_BUCKETS && vvNew[b, hashing.Position(true, b, mapInfo[id].service)] == id
    }

    lemma SomeBucket(id: int) returns (b: int)
      requires Valid() && id in mapInfo && !mapInfo[id].inTried
      ensures 0 <= b < NEW_BUCKETS && InBucket(id, b)
    {
      hide Inv;
      var s := Snapshot();
      EntryReferences(hashing, s, id);
      var sl :| sl in SlotsOf(s.new_, id);
      SlotIsHashed(hashing, s, sl, {}, 0);
      b := sl.0;
    }

    /**
     A connection succeeded: the exact entry, if known, ends up in the tried table.  Only an entry
     that was not there yet can push another one out of it.
     */
    method Good(service: Service, nTime: int) returns (ghost victim: int, ghost evicted: int)
      requires Valid() && nTime > 0
      modifies Repr
      ensures Valid() && nLastGood == nTime
      ensures old(Has(service)) ==>
        var id := old(mapAddr)[service.addr];
        && id in mapInfo
        && mapInfo[id] == old(mapInfo)[id].(lastSuccess := nTime, lastTry := nTime, attempts := 0, inTried := true,
                                            refCount := mapInfo[id].refCount, randomPos := mapInfo[id].randomPos)
        && evicted == (if old(mapInfo)[id].inTried then -1 else old(TriedAt(service)))
        && IsBackInNew(old(mapInfo), evicted)
        && (victim in old(mapInfo) ==> !old(mapInfo)[id].inTried && !old(mapInfo[victim]).inTried && victim != id)
        && Others(old(mapInfo), mapInfo, victim, {id, evicted}) && LosesReference(old(mapInfo), victim)
        && Occupied(vvTried) == old(Occupied(vvTried))[hashing.TriedSlot(service) := id]
        && Occupied(vvNew) == Exchanged(old(Occupied(vvNew)), old(mapInfo), id, evicted)
      ensures !old(Has(service)) ==> Snapshot() == old(Snapshot())
    {
      hide Inv, Occupied, Without;
      NoNegativeIds({}, 0);
      victim, evicted := -1, -1;
      nLastGood := nTime;
      if service.addr !in mapAddr { return; }
      Known(service.addr);
      var id := mapAddr[service.addr];
      if mapInfo[id].service != service { return; }
      Touch(id, mapInfo[id].(lastSuccess := nTime, lastTry := nTime, attempts := 0));
      if mapInfo[id].inTried {
        AlreadyTried(id);
        return;
      }
      var start: nat :| start < NEW_BUCKETS;
      var _ := FindBucket(id, start);
      victim, evicted := MakeTried(id);
    }

    /** A tried entry holds its slot, and none of the new table. */
    lemma AlreadyTried(id: int)
      requires Valid() && id in mapInfo && mapInfo[id].inTried
      ensures Occupied(vvTried) == Occupied(vvTried)[hashing.TriedSlot(mapInfo[id].service) := id]
      ensures Occupied(vvNew) == Exchanged(Occupied(vvNew), mapInfo, id, -1)
    {
      hide Occupied;
      var s := Snapshot();
      assert TriedOk(hashing, s) && NewOk(hashing, s);
    }

    method Create(a: Address, source: NetAddr) returns (id: int)
      requires Valid() && a.service.addr !in mapAddr
      modifies this`mapInfo, this`mapAddr, this`vRandom, this`nIdCount
      ensures Pending({id}, 1) && id !in old(mapInfo) && id != -1 && id in mapInfo
      ensures mapInfo == old(mapInfo)[id := mapInfo[id]] && mapInfo[id].service == a.service
      ensures SameEntry(AddrInfo(a.service, a.time, a.services, source, 0, 0, 0, 0, 0, false, -1), mapInfo[id])
      ensures SamePlace(mapInfo[id], mapInfo[id])
    {
      hide Inv;
      NextIdIsNew();
      var info := AddrInfo(a.service, a.time, a.services, source, 0, 0, 0, 0, 0, false, -1);
      CreateInv(hashing, Snapshot(), info, {}, 0);
      assert {} + {nIdCount} == {nIdCount};
      id := nIdCount;
      nIdCount := nIdCount + 1;
      mapInfo := mapInfo[id := info];
      mapAddr := mapAddr[a.service.addr := id];
      mapInfo := mapInfo[id := mapInfo[id].(randomPos := |vRandom|)];
      vRandom := vRandom + [id];
      assert mapInfo == old(mapInfo)[id := info.(randomPos := |old(vRandom)|)];
    }

    lemma NextIdIsNew()
      requires Valid()
      ensures nIdCount >= 0 && nIdCount !in mapInfo
    {
      hide Inv;
      IdsAreNatural(hashing, Snapshot(), {}, 0);
    }

    /** One more reference gets through for exactly one of 2^refCount equally likely numbers. */
    method StochasticTest(refCount: nat) returns (pass: bool, drawn: nat)
      ensures drawn < Pow2(refCount) && (pass <==> drawn == 0)
    {
      var factor := 1;
      for n := 0 to refCount
        invariant factor == Pow2(n)
      {
        factor := factor * 2;
      }
      drawn := 0;
      if factor > 1 {
        drawn :| drawn < factor;
      }
      return drawn == 0, drawn;
    }

    /** The bucket step of Add_: places the entry, or forgets it if it has no place at all. */
    method Place(id: int, source: NetAddr, now: int, ghost loose: set<int>) returns (ghost victim: int)
      requires loose == {} || loose == {id}
      requires Pending(loose, 0) && id in mapInfo && !mapInfo[id].inTried && mapInfo[id].refCount < MAX_REFS
      requires id !in loose ==> mapInfo[id].refCount > 0
      modifies this`mapInfo, this`mapAddr, this`vRandom, this`nNew, vvNew
      ensures Valid()
      ensures victim != id && (victim in old(mapInfo) ==> !old(mapInfo[victim]).inTried)
      ensures Others(old(mapInfo), mapInfo, victim, {id}) && (id !in loose ==> id in mapInfo)
      ensures id in mapInfo ==> SameButReferences(old(mapInfo[id]), mapInfo[id])
      ensures
        var sl, refs := NewSlotFor(old(mapInfo[id]).service, source), old(mapInfo[id]).refCount;
        var there := old(NewAt(mapInfo[id].service, source));
        && (there == id ==> Snapshot() == old(Snapshot()) && victim == -1)
        && (there != id && Yields(old(mapInfo), there, refs, now) ==>
              && id in mapInfo && mapInfo[id].refCount == refs + 1 && Occupied(vvNew) == old(Occupied(vvNew))[sl := id]
              && victim == there && LosesReference(old(mapInfo), there))
        && (there != id && !Yields(old(mapInfo), there, refs, now) ==>
              && Occupied(vvNew) == old(Occupied(vvNew)) && victim == -1
              && if refs == 0 then id !in mapInfo else mapInfo == old(mapInfo))
    {
      hide Inv, Occupied;
      victim := -1;
      NoNegativeIds(loose, 0);
      if loose == {id} { LooseEntry(loose, 0, id); }
      var uBucket := hashing.NewBucket(mapInfo[id].service.addr, source);
      var uPos := hashing.Position(true, uBucket, mapInfo[id].service);
      var there := vvNew[uBucket, uPos];
      SlotHolds(uBucket, uPos);
      if there == id {
        if loose == {id} { LooseHasNoSlot(id, uBucket, uPos); }
        return;
      }
      var insert := there == -1;
      if !insert {
        InNewTable(uBucket, uPos, loose, 0);
        insert := mapInfo[there].IsTerrible(now) || (mapInfo[there].refCount > 1 && mapInfo[id].refCount == 0);
      }
      if insert {
        victim := there;
        ClearNew(uBucket, uPos, loose, 0);
        FreeSlot(uBucket, uPos);
        Link(uBucket, uPos, id, loose, 0);
        assert loose - {id} == {};
      } else if mapInfo[id].refCount == 0 {
        assert loose - {id} == {};
        Delete(id, loose, 0);
      }
    }

    lemma LooseHasNoSlot(id: int, b: nat, i: nat)
      requires Pending({id}, 0) && b < NEW_BUCKETS && i < BUCKET_SIZE
      ensures vvNew[b, i] != id
    {
      hide Inv, Occupied;
      NoNegativeIds({id}, 0);
      LooseEntry({id}, 0, id);
      LooseSlots(id, b, i);
    }

    lemma LooseSlots(id: int, b: nat, i: nat)
      requires Pending({id}, 0) && b < NEW_BUCKETS && i < BUCKET_SIZE && id != -1
      ensures vvNew[b, i] != id
    {
      LooseIsNowhere(hashing, Snapshot(), {id}, id);
      assert vvNew[b, i] != -1 ==> (b, i) in Occupied(vvNew);
    }

    lemma InNewTable(b: nat, i: nat, loose: set<int>, uncounted: int)
      requires Pending(loose, uncounted) && b < NEW_BUCKETS && i < BUCKET_SIZE && vvNew[b, i] != -1
      ensures vvNew[b, i] in mapInfo && !mapInfo[vvNew[b, i]].inTried
    {
      hide Inv;
      assert (b, i) in Occupied(vvNew);
      SlotIsHashed(hashing, Snapshot(), (b, i), loose, uncounted);
    }

    /** A recent enough announcement updates the time; services only accumulate. */
    function Refreshed(i: AddrInfo, a: Address, penalty: int, now: int): AddrInfo {
      var interval := if now - a.time < 24 * 60 * 60 then 60 * 60 else 24 * 60 * 60;
      var update := a.time != 0 && (i.time == 0 || i.time < a.time - interval - penalty);
      i.(time := if !update then i.time else if a.time - penalty > 0 then a.time - penalty else 0,
         services := i.services + a.services)
    }

    /** A known time is replaced only if it lags by more than an hour, or a day for a peer not seen within one. */
    lemma RefreshRules(i: AddrInfo, a: Address, penalty: int, now: int)
      ensures var r := Refreshed(i, a, penalty, now);
        var announced := if a.time - penalty > 0 then a.time - penalty else 0;
        && r == i.(time := r.time, services := i.services + a.services)
        && (a.time == 0 ==> r.time == i.time) && (a.time != 0 && i.time == 0 ==> r.time == announced)
        && (a.time != 0 && i.time != 0 && a.time > now - 86400 ==>
              r.time == if a.time - penalty - i.time > 3600 then announced else i.time)
        && (a.time != 0 && i.time != 0 && a.time <= now - 86400 ==>
              r.time == if a.time - penalty - i.time > 86400 then announced else i.time)
    {
    }

    /** The announcement is newer than what is known, and the entry may have another slot. */
    predicate HasNews(a: Address, i: AddrInfo) {
      a.time != 0 && (i.time == 0 || a.time > i.time) && !i.inTried && i.refCount < MAX_REFS
    }

    /** A known address: refreshes the entry and decides whether it may get another slot. */
    method Refresh(id: int, a: Address, penalty: int, now: int) returns (again: bool, drawn: nat)
      requires Valid() && id in mapInfo && SamePlace(mapInfo[id], mapInfo[id])
      modifies this`mapInfo
      ensures Valid() && mapInfo == old(mapInfo)[id := Refreshed(old(mapInfo)[id], a, penalty, now)]
      ensures again <==> HasNews(a, mapInfo[id]) && drawn == 0
      ensures HasNews(a, mapInfo[id]) ==> 0 < mapInfo[id].refCount && drawn < Pow2(mapInfo[id].refCount)
    {
      hide Inv;
      drawn := 0;
      var info := mapInfo[id];
      var online := now - a.time < 24 * 60 * 60;
      var interval := if online then 60 * 60 else 24 * 60 * 60;
      if a.time != 0 && (info.time == 0 || info.time < a.time - interval - penalty) {
        info := info.(time := if a.time - penalty > 0 then a.time - penalty else 0);
      }
      info := info.(services := info.services + a.services);
      Touch(id, info);
      if a.time == 0 || (info.time != 0 && a.time <= info.time) { return false, drawn; }
      if info.inTried { return false, drawn; }
      if info.refCount == MAX_REFS { return false, drawn; }
      ReferenceRange(id);
      again, drawn := StochasticTest(info.refCount);
    }

    lemma ReferenceRange(id: int)
      requires Valid() && id in mapInfo && !mapInfo[id].inTried
      ensures 0 < mapInfo[id].refCount <= MAX_REFS
    {
      hide Inv;
      EntryReferences(hashing, Snapshot(), id);
    }

    /**
     An address was announced.  Only new addresses are reported as added; at most one entry is
     forgotten to make room, and never one of the tried table.
     */
    method Add(a: Address, source: NetAddr, timePenalty: int, now: int) returns (isNew: bool, ghost victim: int, drawn: nat)
      requires Valid()
      modifies Repr
      ensures Valid()
      ensures isNew == (isRoutable(a.service.addr) && a.service.addr !in old(mapAddr))
      ensures victim in old(mapInfo) ==> !old(mapInfo[victim]).inTried
      ensures !isRoutable(a.service.addr) ==> Snapshot() == old(Snapshot())
      ensures Occupied(vvTried) == old(Occupied(vvTried))
      ensures isNew ==> (a.service.addr in mapAddr <==> Yields(old(mapInfo), old(NewAt(a.service, source)), 0, now))
      ensures isNew && a.service.addr !in mapAddr ==>
        Others(old(mapInfo), mapInfo, victim, {}) && victim == -1 && Occupied(vvNew) == old(Occupied(vvNew))
      ensures isNew && a.service.addr in mapAddr ==>
        var id := mapAddr[a.service.addr];
        && id !in old(mapInfo) && id in mapInfo && Others(old(mapInfo), mapInfo, victim, {id})
        && mapInfo[id] == Announced(a, source, timePenalty).(refCount := 1, randomPos := mapInfo[id].randomPos)
        && victim == old(NewAt(a.service, source)) && LosesReference(old(mapInfo), victim)
        && Occupied(vvNew) == old(Occupied(vvNew))[NewSlotFor(a.service, source) := id]
      ensures isRoutable(a.service.addr) && !isNew ==>
        var id := old(mapAddr)[a.service.addr];
        && id in old(mapInfo) && id in mapInfo && victim != id && Others(old(mapInfo), mapInfo, victim, {id})
        && var info := Refreshed(old(mapInfo)[id], a, if a.service.addr == source then 0 else timePenalty, now);
           var there := old(NewAt(info.service, source));
           && (HasNews(a, info) ==> drawn < Pow2(info.refCount))
           && if HasNews(a, info) && drawn == 0 && there != id && Yields(old(mapInfo), there, info.refCount, now) then
                && mapInfo[id] == info.(refCount := info.refCount + 1, randomPos := mapInfo[id].randomPos)
                && victim == there && LosesReference(old(mapInfo), victim)
                && Occupied(vvNew) == old(Occupied(vvNew))[NewSlotFor(info.service, source) := id]
              else mapInfo == old(mapInfo)[id := info] && victim == -1 && Occupied(vvNew) == old(Occupied(vvNew))
    {
      hide Inv, Occupied, Others;
      isNew, victim, drawn := false, -1, 0;
      NoNegativeIds({}, 0);
      if !isRoutable(a.service.addr) { return; }
      var penalty := if a.service.addr == source then 0 else timePenalty;
      if a.service.addr in mapAddr {
        Known(a.service.addr);
        var id := mapAddr[a.service.addr];
        var again;
        again, drawn := Refresh(id, a, penalty, now);
        ghost var between := mapInfo;
        if again {
          victim := Place(id, source, now, {});
        } else {
          NothingElse(mapInfo, id);
        }
        OthersAfterOwn(old(mapInfo), between, mapInfo, victim, id, between[id]);
      } else {
        isNew := true;
        victim := AddNew(a, source, timePenalty, now);
      }
    }

    lemma NothingElse(info: map<int, AddrInfo>, id: int)
      requires id in info
      ensures Others(info, info, -1, {id}) && SameButReferences(info[id], info[id])
    {
    }

    /** An address that is not listed gets an entry, which stays only if it finds a place. */
    method AddNew(a: Address, source: NetAddr, timePenalty: int, now: int) returns (ghost victim: int)
      requires Valid() && a.service.addr !in mapAddr
      modifies Repr
      ensures Valid() && (victim in old(mapInfo) ==> !old(mapInfo[victim]).inTried)
      ensures Occupied(vvTried) == old(Occupied(vvTried))
      ensures a.service.addr in mapAddr <==> Yields(old(mapInfo), old(NewAt(a.service, source)), 0, now)
      ensures a.service.addr !in mapAddr ==>
        Others(old(mapInfo), mapInfo, victim, {}) && victim == -1 && Occupied(vvNew) == old(Occupied(vvNew))
      ensures a.service.addr in mapAddr ==>
        var id := mapAddr[a.service.addr];
        && id !in old(mapInfo) && id in mapInfo && Others(old(mapInfo), mapInfo, victim, {id})
        && mapInfo[id] == Announced(a, source, timePenalty).(refCount := 1, randomPos := mapInfo[id].randomPos)
        && victim == old(NewAt(a.service, source)) && LosesReference(old(mapInfo), victim)
        && Occupied(vvNew) == old(Occupied(vvNew))[NewSlotFor(a.service, source) := id]
    {
      hide Inv, Occupied, Others, NewSlotFor, NewAt;
      var penalty := if a.service.addr == source then 0 else timePenalty;
      Unknown(a.service.addr);
      KnownThere(a.service, source);
      var id := Create(a, source);
      var info := mapInfo[id].(time := if a.time - penalty > 0 then a.time - penalty else 0);
      TouchPending(id, info);
      CountInv(hashing, Snapshot(), 1, {id}, 1);
      nNew := nNew + 1;
      ghost var between := mapInfo;
      assert between == old(mapInfo)[id := info];
      assert SameButReferences(Announced(a, source, timePenalty), info);
      ghost var there := NewAt(a.service, source);
      assert there == old(NewAt(a.service, source)) && there != id;
      assert Yields(between, there, 0, now) <==> Yields(old(mapInfo), there, 0, now);
      victim := Place(id, source, now, {id});
      assert id in mapInfo <==> Yields(between, there, 0, now);
      OthersAfterOwn(old(mapInfo), between, mapInfo, victim, id, info);
      assert victim in old(mapInfo) ==> between[victim] == old(mapInfo)[victim];
      WhereNewIs(old(mapInfo), mapInfo, victim, id, a.service.addr);
      Addresses();
      if id in mapInfo { assert mapInfo[id].service.addr == a.service.addr; }
      if a.service.addr in mapAddr { assert mapAddr[a.service.addr] == id; }
    }

    /** What holds a slot of the new table is an entry. */
    lemma KnownThere(service: Service, source: NetAddr)
      requires Valid()
      ensures NewAt(service, source) != -1 ==> NewAt(service, source) in mapInfo
    {
      hide Occupied;
      assert NewOk(hashing, Snapshot());
    }

    /** The address is listed exactly if the new entry is there. */
    lemma WhereNewIs(before: map<int, AddrInfo>, after: map<int, AddrInfo>, victim: int, id: int, addr: NetAddr)
      requires Others(before, after, victim, {id}) && id !in before
      requires forall k :: k in before ==> before[k].service.addr != addr
      ensures forall k :: k in after && k != id ==> after[k].service.addr != addr
      ensures id !in after ==> Others(before, after, victim, {})
    {
    }

    /** No entry has an address that is not listed. */
    lemma Unknown(a: NetAddr)
      requires Valid() && a !in mapAddr
      ensures forall k :: k in mapInfo ==> mapInfo[k].service.addr != a
    {
    }

    /** Addresses and entries belong together one to one. */
    lemma Addresses()
      requires Valid()
      ensures forall k :: k in mapInfo ==> mapInfo[k].service.addr in mapAddr && mapAddr[mapInfo[k].service.addr] == k
      ensures forall a :: a in mapAddr ==> mapAddr[a] in mapInfo && mapInfo[mapAddr[a]].service.addr == a
    {
    }

    /** The entry of a new address, without references. */
    function Announced(a: Address, source: NetAddr, timePenalty: int): AddrInfo {
      AddrInfo(a.service, Penalised(a, source, timePenalty), a.services, source, 0, 0, 0, 0, 0, false, -1)
    }

    /** A self-announcement is not penalised; a time never becomes negative. */
    function Penalised(a: Address, source: NetAddr, timePenalty: int): int {
      var t := a.time - if a.service.addr == source then 0 else timePenalty;
      if t > 0 then t else 0
    }

    method TouchPending(id: int, i: AddrInfo)
      requires Pending({id}, 1) && id in mapInfo && SamePlace(mapInfo[id], i) && i.refCount == mapInfo[id].refCount
      modifies this`mapInfo
      ensures Pending({id}, 1) && mapInfo == old(mapInfo)[id := i]
    {
      hide Inv;
      TouchInv(hashing, Snapshot(), id, i, {id}, 1);
      mapInfo := mapInfo[id := i];
    }

    /** Shuffles a prefix of the random order and returns its entries of good quality. */
    method GetAddr(now: int) returns (vAddr: seq<Address>, ghost ids: seq<int>)
      requires Valid()
      modifies this`mapInfo, this`vRandom
      ensures Valid() && SameButOrder(old(Snapshot()), Snapshot())
      ensures |vAddr| == |ids| <= GETADDR_MAX && 100 * |ids| <= GETADDR_MAX_PCT * |vRandom|
      ensures AllAnnounced(mapInfo, vAddr, ids, now)
      ensures forall j, k :: 0 <= j < k < |ids| ==> ids[j] != ids[k]
      ensures |ids| == Limit(|vRandom|) || forall k :: k in mapInfo && !mapInfo[k].IsTerrible(now) ==> k in ids
    {
      hide Inv, SameButOrder, Announces, AllAnnounced, Covered;
      var nNodes := GETADDR_MAX_PCT * |vRandom| / 100;
      if nNodes > GETADDR_MAX { nNodes := GETADDR_MAX; }
      assert nNodes == Limit(|vRandom|);
      vAddr, ids := [], [];
      ghost var places: seq<int> := [];   // where in the random order each result is
      OrderIsReflexive(Snapshot());
      NothingAnnounced(mapInfo, now);
      var n := 0;
      while n < |vRandom|
        invariant Valid() && SameButOrder(old(Snapshot()), Snapshot()) && n <= |vRandom|
        invariant |vAddr| == |ids| == |places| <= nNodes && |vRandom| == |old(vRandom)|
        invariant AllAnnounced(mapInfo, vAddr, ids, now) && Covered(mapInfo, vRandom[..n], ids, now)
        invariant forall j :: 0 <= j < |places| ==> 0 <= places[j] < n && vRandom[places[j]] == ids[j]
        invariant forall j, k :: 0 <= j < k < |places| ==> places[j] < places[k]
      {
        if |vAddr| >= nNodes {
          DistinctPlaces(ids, places);
          return;
        }
        var pos :| n <= pos < |vRandom|;
        ghost var before := Snapshot();
        Shuffle(n, pos);
        OrderIsTransitive(old(Snapshot()), before, Snapshot());
        StillAnnounced(before, Snapshot(), vAddr, ids, now);
        StillCovered(before, Snapshot(), vRandom[..n], ids, now);
        CoverOne(mapInfo, vRandom, n, ids, now);
        var info := mapInfo[vRandom[n]];
        if !info.IsTerrible(now) {
          AnnounceOne(mapInfo, vAddr, ids, vRandom[n], now);
          vAddr := vAddr + [Address(info.service, info.time, info.services)];
          ids, places := ids + [vRandom[n]], places + [n];
        }
        n := n + 1;
      }
      DistinctPlaces(ids, places);
      CoverAll(ids, now);
    }

    /** At the end of the random order every entry of good quality was found. */
    lemma CoverAll(ids: seq<int>, now: int)
      requires Valid() && Covered(mapInfo, vRandom[..|vRandom|], ids, now)
      ensures forall k :: k in mapInfo && !mapInfo[k].IsTerrible(now) ==> k in ids
    {
      assert vRandom[..|vRandom|] == vRandom;
      assert RandomOk(Snapshot());
      forall k | k in mapInfo && !mapInfo[k].IsTerrible(now) ensures k in ids {
        assert vRandom[mapInfo[k].randomPos] == k;
      }
    }

    /** One exchange of the shuffle. */
    method Shuffle(n: nat, pos: nat)
      requires Valid() && n <= pos < |vRandom|
      modifies this`mapInfo, this`vRandom
      ensures Valid() && |vRandom| == |old(vRandom)| && vRandom[..n] == old(vRandom)[..n] && vRandom[n] in mapInfo
      ensures SameButOrder(old(Snapshot()), Snapshot())
    {
      hide Inv, RandomOk;
      OrderOf();
      SwapInv(hashing, Snapshot(), n, pos, {}, 0);
      SwapRandom(n, pos);
      OrderOf();
      assert vRandom[..n] == old(vRandom)[..n];
    }

    lemma OrderOf()
      requires Valid()
      ensures RandomOk(Snapshot()) && forall i :: 0 <= i < |vRandom| ==> vRandom[i] in mapInfo
    {
    }

    lemma DistinctPlaces(ids: seq<int>, places: seq<int>)
      requires Valid() && |ids| == |places|
      requires forall j :: 0 <= j < |places| ==> 0 <= places[j] < |vRandom| && vRandom[places[j]] == ids[j]
      requires forall j, k :: 0 <= j < k < |places| ==> places[j] < places[k]
      ensures forall j, k :: 0 <= j < k < |ids| ==> ids[j] != ids[k]
    {
      OrderOf();
      hide Inv, RandomOk;
      forall j, k | 0 <= j < k < |ids| ensures ids[j] != ids[k] {
        OrderIsInjective(Snapshot(), places[j], places[k]);
      }
    }
  }

  predicate Announces(a: Address, i: AddrInfo, now: int) {
    a == Address(i.service, i.time, i.services) && !i.IsTerrible(now)
  }

  /** The results are those entries, and none of them is of bad quality. */
  predicate AllAnnounced(info: map<int, AddrInfo>, vAddr: seq<Address>, ids: seq<int>, now: int) {
    && |vAddr| == |ids|
    && forall j :: 0 <= j < |ids| ==> ids[j] in info && Announces(vAddr[j], info[ids[j]], now)
  }

  /** The number of addresses to return at most. */
  function Limit(n: nat): nat {
    var part := GETADDR_MAX_PCT * n / 100;
    if part > GETADDR_MAX then GETADDR_MAX else part
  }

  /** The entries of good quality among these are all in the result. */
  ghost predicate Covered(info: map<int, AddrInfo>, order: seq<int>, ids: seq<int>, now: int) {
    forall j :: 0 <= j < |order| && order[j] in info && !info[order[j]].IsTerrible(now) ==> order[j] in ids
  }

  lemma StillCovered(s: State, t: State, order: seq<int>, ids: seq<int>, now: int)
    requires SameButOrder(s, t) && Covered(s.info, order, ids, now)
    ensures Covered(t.info, order, ids, now)
  {
    forall j | 0 <= j < |order| && order[j] in t.info && !t.info[order[j]].IsTerrible(now) ensures order[j] in ids {
      var id := order[j];
      assert id in t.info.Keys;
      assert id in s.info;
      assert SameEntry(s.info[id], t.info[id]);
    }
  }

  lemma CoverOne(info: map<int, AddrInfo>, random: seq<int>, n: nat, ids: seq<int>, now: int)
    requires n < |random| && random[n] in info && Covered(info, random[..n], ids, now)
    ensures Covered(info, random[..n + 1], ids + [random[n]], now)
    ensures info[random[n]].IsTerrible(now) ==> Covered(info, random[..n + 1], ids, now)
  {
    var whole := random[..n + 1];
    forall j | 0 <= j < n && whole[j] in info && !info[whole[j]].IsTerrible(now) ensures whole[j] in ids {
      assert whole[j] == random[..n][j];
    }
  }

  lemma NothingAnnounced(info: map<int, AddrInfo>, now: int)
    ensures AllAnnounced(info, [], [], now) && Covered(info, [], [], now)
  {
  }

  lemma AnnounceOne(info: map<int, AddrInfo>, vAddr: seq<Address>, ids: seq<int>, id: int, now: int)
    requires AllAnnounced(info, vAddr, ids, now) && id in info && !info[id].IsTerrible(now)
    ensures AllAnnounced(info, vAddr + [Address(info[id].service, info[id].time, info[id].services)], ids + [id], now)
  {
  }

  lemma StillAnnounced(s: State, t: State, vAddr: seq<Address>, ids: seq<int>, now: int)
    requires SameButOrder(s, t) && AllAnnounced(s.info, vAddr, ids, now)
    ensures AllAnnounced(t.info, vAddr, ids, now)
  {
    forall j | 0 <= j < |ids| ensures ids[j] in t.info && Announces(vAddr[j], t.info[ids[j]], now) {
      assert ids[j] in s.info && Announces(vAddr[j], s.info[ids[j]], now);
      var id := ids[j];
      assert id in s.info;
      assert SameEntry(s.info[id], t.info[id]);
    }
  }

  lemma OrderIsReflexive(s: State)
    ensures SameButOrder(s, s)
  {
  }

  lemma OrderIsTransitive(s: State, t: State, u: State)
    requires SameButOrder(s, t) && SameButOrder(t, u)
    ensures SameButOrder(s, u)
  {
  }

  // ---------------------------------------------------------------------------
  // Whole runs
  // ---------------------------------------------------------------------------

  datatype Op =
    | Add(a: Address, source: NetAddr, penalty: int, now: int)
    | Good(service: Service, nTime: int)
    | Attempt(service: Service, countFailure: bool, nTime: int)
    | Connected(service: Service, nTime: int)
    | SetServices(service: Service, services: set<nat>)
    | GetAddr(now: int)

  /** Connection times are positive, attempt times not negative. */
  predicate TimeOk(op: Op) {
    (op.Good? ==> op.nTime > 0) && (op.Attempt? ==> op.nTime >= 0)
  }

  /** From a fresh manager, every sequence of operations ends in a state that passes Check_, unless the key is null. */
  method Run(h: Hashing, routable: NetAddr -> bool, ops: seq<Op>) returns (m: AddrMan)
    requires forall i :: 0 <= i < |ops| ==> TimeOk(ops[i])
    ensures m.Valid() && (CheckPasses(h, m.Snapshot()) <==> h.key != 0)
  {
    hide Inv, CheckPasses;
    m := new AddrMan(h, routable);
    for i := 0 to |ops|
      invariant m.Valid() && fresh(m.Repr) && m.hashing == h
    {
      match ops[i]
      case Add(a, source, penalty, now) => var _, _, _ := m.Add(a, source, penalty, now);
      case Good(service, nTime) => ghost var _, _ := m.Good(service, nTime);
      case Attempt(service, countFailure, nTime) => m.Attempt(service, countFailure, nTime);
      case Connected(service, nTime) => m.Connected(service, nTime);
      case SetServices(service, services) => m.SetServices(service, services);
      case GetAddr(now) => var _, _ := m.GetAddr(now);
    }
    InvImpliesCheck(h, m.Snapshot());
  }
}

/**
 Saving and loading the address manager, src/addrman.h: the tried table, the address index and
 the random order are not written but rebuilt, ids are renumbered and each new bucket is a list
 of entry numbers without positions.  Loading what was saved loses nothing: both tables come
 back slot by slot, with the same entries and reference counts.

 The iteration order of the id map is arbitrary here.  The model covers the current format
 version and bucket count.
 */
module AddrManStore {
  import opened AddrManState
  import opened Common

  /** The part of an entry that is written. */
  datatype Record = Record(
    service: Service, time: int, services: set<nat>, source: NetAddr, lastSuccess: int, attempts: int)

  datatype Saved = Saved(nNew: int, nTried: int, new_: seq<Record>, tried: seq<Record>, buckets: seq<seq<int>>)

  function Save(i: AddrInfo): Record {
    Record(i.service, i.time, i.services, i.source, i.lastSuccess, i.attempts)
  }

  /** A freshly read entry. */
  function Load(r: Record, randomPos: int): AddrInfo {
    AddrInfo(r.service, r.time, r.services, r.source, 0, 0, r.lastSuccess, r.attempts, 0, false, randomPos)
  }

  // ---------------------------------------------------------------------------
  // Enumerations
  // ---------------------------------------------------------------------------

  predicate NoDuplicates(q: seq<int>) {
    forall i, j :: 0 <= i < j < |q| ==> q[i] != q[j]
  }

  function Elements(q: seq<int>): set<int> { set i | 0 <= i < |q| :: q[i] }

  lemma {:induction false} ElementCount(q: seq<int>)
    requires NoDuplicates(q)
    ensures |Elements(q)| == |q|
  {
    if q != [] {
      var front := q[..|q| - 1];
      ElementCount(front);
      assert Elements(q) == Elements(front) + {q[|q| - 1]};
      assert q[|q| - 1] !in Elements(front);
    }
  }

  lemma AppendElement(q: seq<int>, x: int)
    requires NoDuplicates(q) && x !in Elements(q)
    ensures NoDuplicates(q + [x]) && Elements(q + [x]) == Elements(q) + {x}
  {
    forall y ensures y in Elements(q + [x]) <==> y in Elements(q) + {x} {
      if y in Elements(q) {
        var i :| 0 <= i < |q| && q[i] == y;
        assert (q + [x])[i] == y;
      }
      if y == x { assert (q + [x])[|q|] == x; }
    }
    forall i, j | 0 <= i < j < |q + [x]| ensures (q + [x])[i] != (q + [x])[j] {
      if j == |q| { assert q[i] in Elements(q); }
    }
  }

  // ---------------------------------------------------------------------------
  // What a saved file says about a state
  // ---------------------------------------------------------------------------

  /** The slot an entry would have in a bucket holds that entry. */
  predicate InBucket(h: Hashing, s: State, bucket: nat, n: int)
    requires n in s.info
  {
    var sl := h.NewSlot(bucket, s.info[n].service);
    sl in s.new_ && s.new_[sl] == n
  }

  /** The list of a bucket: the entries in it, each once. */
  predicate BucketListed(h: Hashing, s: State, ids: seq<int>, bucket: nat, list: seq<int>) {
    && NoDuplicates(list)
    && (forall m :: 0 <= m < |list| ==>
          0 <= list[m] < |ids| && ids[list[m]] in s.info && InBucket(h, s, bucket, ids[list[m]]))
    && (forall k :: 0 <= k < |ids| && ids[k] in s.info && InBucket(h, s, bucket, ids[k]) ==> k in Elements(list))
  }

  predicate RecordsOf(s: State, ids: seq<int>, records: seq<Record>) {
    && |records| == |ids|
    && forall k :: 0 <= k < |ids| ==> ids[k] in s.info && records[k] == Save(s.info[ids[k]])
  }

  /** d is what saving s writes, where ids and tids are the entries in the order written. */
  ghost predicate Describes(h: Hashing, s: State, d: Saved, ids: seq<int>, tids: seq<int>) {
    && d.nNew == s.nNew == |ids| && d.nTried == s.nTried == |tids|
    && NoDuplicates(ids) && Elements(ids) == NewIds(s.info)
    && NoDuplicates(tids) && Elements(tids) == TriedIds(s.info)
    && RecordsOf(s, ids, d.new_) && RecordsOf(s, tids, d.tried)
    && |d.buckets| == NEW_BUCKETS
    && forall b :: 0 <= b < NEW_BUCKETS ==> BucketListed(h, s, ids, b, d.buckets[b])
  }

  // ---------------------------------------------------------------------------
  // Saving
  // ---------------------------------------------------------------------------

  /** One of the two loops over the id map: the entries of one table, and their numbers. */
  method Collect(h: Hashing, s: State, tried: bool) returns (ids: seq<int>, records: seq<Record>, number: map<int, int>)
    requires Inv(h, s, {}, 0)
    ensures NoDuplicates(ids) && Elements(ids) == if tried then TriedIds(s.info) else NewIds(s.info)
    ensures |ids| == if tried then s.nTried else s.nNew
    ensures RecordsOf(s, ids, records)
    ensures Numbered(ids, number)
  {
    hide Inv, Elements, NoDuplicates, RecordsOf, Numbered;
    ghost var wanted := if tried then TriedIds(s.info) else NewIds(s.info);
    ids, records, number := [], [], map[];
    var rest := s.info.Keys;
    CountOf(h, s);
    NothingCollected(s, wanted);
    while rest != {}
      invariant rest <= s.info.Keys
      invariant NoDuplicates(ids) && Elements(ids) == wanted - rest
      invariant RecordsOf(s, ids, records) && Numbered(ids, number)
      decreases |rest|
    {
      ghost var some := Inhabited(rest);
      var n :| n in rest;
      WhichTable(h, s, n);
      Renumber(ids, number, n, wanted, rest);
      number := number[n := |ids|];
      if (if tried then s.info[n].inTried else s.info[n].refCount != 0) {
        ElementCount(ids);
        ProperSubset(Elements(ids), wanted, n);
        assert |ids| != (if tried then s.nTried else s.nNew);
        CollectOne(s, ids, records, n);
        ids, records := ids + [n], records + [Save(s.info[n])];
      }
      SetStep(wanted, rest, n);
      rest := rest - {n};
    }
    ElementCount(ids);
    assert wanted - {} == wanted;
  }

  predicate Numbered(ids: seq<int>, number: map<int, int>) {
    forall k :: 0 <= k < |ids| ==> ids[k] in number && number[ids[k]] == k
  }

  lemma NothingCollected(s: State, wanted: set<int>)
    requires wanted <= s.info.Keys
    ensures NoDuplicates([]) && Elements([]) == wanted - s.info.Keys
    ensures RecordsOf(s, [], []) && Numbered([], map[])
  {
    assert wanted - s.info.Keys == {};
  }

  lemma Renumber(ids: seq<int>, number: map<int, int>, n: int, wanted: set<int>, rest: set<int>)
    requires Numbered(ids, number) && Elements(ids) == wanted - rest && n in rest
    ensures Numbered(ids, number[n := |ids|]) && Numbered(ids + [n], number[n := |ids|])
    ensures n !in Elements(ids)
  {
    forall k | 0 <= k < |ids| ensures ids[k] != n { assert ids[k] in Elements(ids); }
  }

  lemma CollectOne(s: State, ids: seq<int>, records: seq<Record>, n: int)
    requires NoDuplicates(ids) && n !in Elements(ids) && RecordsOf(s, ids, records) && n in s.info
    ensures NoDuplicates(ids + [n]) && Elements(ids + [n]) == Elements(ids) + {n}
    ensures RecordsOf(s, ids + [n], records + [Save(s.info[n])])
  {
    AppendElement(ids, n);
  }

  lemma SetStep(wanted: set<int>, rest: set<int>, n: int)
    requires n in rest
    ensures wanted - (rest - {n}) == if n in wanted then wanted - rest + {n} else wanted - rest
  {
  }

  lemma CountOf(h: Hashing, s: State)
    requires Inv(h, s, {}, 0)
    ensures s.nTried == |TriedIds(s.info)| && s.nNew == |NewIds(s.info)|
  {
    assert CountsOk(s, 0);
  }

  lemma WhichTable(h: Hashing, s: State, n: int)
    requires Inv(h, s, {}, 0) && n in s.info
    ensures s.info[n].refCount != 0 <==> !s.info[n].inTried
  {
    assert RefOk(s, n, {});
  }

  lemma Inhabited(a: set<int>) returns (x: int)
    requires a != {}
    ensures x in a
  {
    EmptyOrNot(a);
    x :| x in a;
  }

  lemma EmptyOrNot(a: set<int>)
    ensures a == {} || exists y :: y in a
  {
    if forall y :: y !in a { assert a == {}; }
  }

  lemma ProperSubset(a: set<int>, b: set<int>, x: int)
    requires a <= b && x in b && x !in a
    ensures |a| < |b|
  {
    SubsetSize(a, b - {x});
  }

  /** The loop over one bucket. */
  method ListBucket(h: Hashing, s: State, ids: seq<int>, number: map<int, int>, bucket: nat) returns (list: seq<int>)
    requires Inv(h, s, {}, 0) && bucket < NEW_BUCKETS
    requires NoDuplicates(ids) && Elements(ids) == NewIds(s.info)
    requires Numbered(ids, number)
    ensures BucketListed(h, s, ids, bucket, list)
  {
    hide Inv;
    list := [];
    for i := 0 to BUCKET_SIZE
      invariant ListedUpTo(h, s, ids, bucket, list, i)
    {
      if (bucket, i) in s.new_ {
        SlotIsHashed(h, s, (bucket, i), {}, 0);
        var n := s.new_[(bucket, i)];
        assert n in Elements(ids);
        ghost var k :| 0 <= k < |ids| && ids[k] == n;
        ListOne(h, s, ids, bucket, list, i, k);
        list := list + [number[n]];
      } else {
        ListNone(h, s, ids, bucket, list, i);
      }
    }
    ListedAll(h, s, ids, bucket, list);
  }

  /** The list after the first slots of a bucket. */
  predicate ListedUpTo(h: Hashing, s: State, ids: seq<int>, bucket: nat, list: seq<int>, hi: int) {
    && NoDuplicates(list)
    && (forall m :: 0 <= m < |list| ==>
          && 0 <= list[m] < |ids| && ids[list[m]] in s.info && InBucket(h, s, bucket, ids[list[m]])
          && h.Position(true, bucket, s.info[ids[list[m]]].service) < hi)
    && (forall k :: 0 <= k < |ids| && ids[k] in s.info && InBucket(h, s, bucket, ids[k])
                    && h.Position(true, bucket, s.info[ids[k]].service) < hi
          ==> k in Elements(list))
  }

  lemma ListOne(h: Hashing, s: State, ids: seq<int>, bucket: nat, list: seq<int>, i: nat, k: int)
    requires ListedUpTo(h, s, ids, bucket, list, i) && NoDuplicates(ids)
    requires 0 <= k < |ids| && ids[k] in s.info && (bucket, i) == h.NewSlot(bucket, s.info[ids[k]].service)
    requires (bucket, i) in s.new_ && s.new_[(bucket, i)] == ids[k]
    ensures ListedUpTo(h, s, ids, bucket, list + [k], i + 1)
  {
    forall m | 0 <= m < |list| ensures list[m] != k {
      assert h.Position(true, bucket, s.info[ids[list[m]]].service) < i;
    }
    AppendElement(list, k);
    forall q | 0 <= q < |ids| && ids[q] in s.info && InBucket(h, s, bucket, ids[q]) &&
               h.Position(true, bucket, s.info[ids[q]].service) < i + 1
      ensures q in Elements(list + [k])
    {
      if h.Position(true, bucket, s.info[ids[q]].service) == i {
        assert ids[q] == ids[k];
        assert q == k;
      }
    }
  }

  lemma ListNone(h: Hashing, s: State, ids: seq<int>, bucket: nat, list: seq<int>, i: nat)
    requires ListedUpTo(h, s, ids, bucket, list, i) && (bucket, i) !in s.new_
    ensures ListedUpTo(h, s, ids, bucket, list, i + 1)
  {
    forall q | 0 <= q < |ids| && ids[q] in s.info && InBucket(h, s, bucket, ids[q]) &&
               h.Position(true, bucket, s.info[ids[q]].service) < i + 1
      ensures q in Elements(list)
    {
      assert h.NewSlot(bucket, s.info[ids[q]].service) != (bucket, i);
    }
  }

  lemma ListedAll(h: Hashing, s: State, ids: seq<int>, bucket: nat, list: seq<int>)
    requires ListedUpTo(h, s, ids, bucket, list, BUCKET_SIZE)
    ensures BucketListed(h, s, ids, bucket, list)
  {
  }

  method Serialize(h: Hashing, s: State) returns (d: Saved, ghost ids: seq<int>, ghost tids: seq<int>)
    requires Inv(h, s, {}, 0)
    ensures Describes(h, s, d, ids, tids)
  {
    hide Inv, BucketListed;
    var ns, new_, number := Collect(h, s, false);
    var ts, tried, _ := Collect(h, s, true);
    var buckets := [];
    for b := 0 to NEW_BUCKETS
      invariant |buckets| == b
      invariant forall c :: 0 <= c < b ==> BucketListed(h, s, ns, c, buckets[c])
    {
      var list := ListBucket(h, s, ns, number, b);
      buckets := buckets + [list];
    }
    d, ids, tids := Saved(s.nNew, s.nTried, new_, tried, buckets), ns, ts;
  }

  // ---------------------------------------------------------------------------
  // Loading
  // ---------------------------------------------------------------------------

  datatype Loaded = Refused | Loaded(state: State, lostTried: int, lostNew: int)

  /** The stream has as many records and lists as its header says. */
  predicate Readable(d: Saved) {
    d.nNew == |d.new_| && d.nTried == |d.tried| && |d.buckets| == NEW_BUCKETS
  }

  const EMPTY := State(map[], map[], [], 0, map[], 0, map[], 0)

  /** Reading one record under the next id. */
  function Read(t: State, r: Record, inTried: bool): State {
    var n := t.idCount;
    t.(info := t.info[n := Load(r, |t.random|).(inTried := inTried)], addr := t.addr[r.service.addr := n],
       random := t.random + [n], idCount := n + 1)
  }

  /** Ids are numbered in order of reading. */
  ghost predicate Counted(t: State) {
    && t.idCount >= 0 && |t.random| == t.idCount == |t.info|
    && (forall k :: k in t.info <==> 0 <= k < t.idCount)
    && (forall k :: 0 <= k < t.idCount ==> t.random[k] == k && t.info[k].randomPos == k)
  }

  lemma CountedOrder(t: State)
    requires Counted(t)
    ensures RandomOk(t)
  {
  }

  lemma ReadCounted(t: State, r: Record, inTried: bool)
    requires Counted(t)
    ensures Counted(Read(t, r, inTried))
  {
    OneMoreEntry(t.info, t.idCount, Load(r, |t.random|).(inTried := inTried));
  }

  predicate Unreferenced(t: State) {
    forall k :: k in t.info ==> t.info[k].refCount == 0
  }

  /** The first entries of all are there, up to what is only kept in memory and the new slots. */
  ghost predicate EntriesRead(h: Hashing, s: State, all: seq<int>, t: State) {
    && t.idCount <= |all| && Counted(t)
    && (forall k :: 0 <= k < t.idCount ==> all[k] in s.info && IsRead(s.info[all[k]], t.info[k]))
    && (forall k :: 0 <= k < t.idCount ==>
          s.info[all[k]].service.addr in t.addr && t.addr[s.info[all[k]].service.addr] == k)
    && (forall a :: a in t.addr ==> 0 <= t.addr[a] < t.idCount && s.info[all[t.addr[a]]].service.addr == a)
  }

  /** What survives in an entry, with its reference count and place still to be rebuilt. */
  predicate IsRead(a: AddrInfo, b: AddrInfo) {
    b == Load(Save(a), b.randomPos).(inTried := a.inTried, refCount := b.refCount)
  }

  predicate TriedRead(h: Hashing, s: State, all: seq<int>, first: int, t: State)
    requires t.idCount <= |all|
  {
    && 0 <= first
    && (forall sl :: sl in t.tried ==>
          first <= t.tried[sl] < t.idCount && all[t.tried[sl]] in s.info && sl == h.TriedSlot(s.info[all[t.tried[sl]]].service))
    && (forall k :: first <= k < t.idCount && all[k] in s.info ==>
          var sl := h.TriedSlot(s.info[all[k]].service); sl in t.tried && t.tried[sl] == k)
  }

  lemma ReadEntry(h: Hashing, s: State, all: seq<int>, t: State, inTried: bool)
    requires IdsOk(s) && NoDuplicates(all) && EntriesRead(h, s, all, t) && t.idCount < |all|
    requires all[t.idCount] in s.info && s.info[all[t.idCount]].inTried == inTried
    ensures EntriesRead(h, s, all, Read(t, Save(s.info[all[t.idCount]]), inTried))
  {
    var n := t.idCount;
    var r := Save(s.info[all[n]]);
    var u := Read(t, r, inTried);
    ReadCounted(t, r, inTried);
    forall k | 0 <= k < u.idCount
      ensures all[k] in s.info && IsRead(s.info[all[k]], u.info[k])
      ensures s.info[all[k]].service.addr in u.addr && u.addr[s.info[all[k]].service.addr] == k
    {
      if k < n {
        assert all[k] != all[n];
        assert s.info[all[k]].service.addr != r.service.addr;
      }
    }
    forall a | a in u.addr ensures 0 <= u.addr[a] < u.idCount && s.info[all[u.addr[a]]].service.addr == a {
      if a != r.service.addr { assert a in t.addr && u.addr[a] == t.addr[a]; }
    }
  }

  /** The loop over the new records. */
  method LoadNew(h: Hashing, d: Saved, ghost s: State, ghost ids: seq<int>, ghost tids: seq<int>) returns (t: State)
    requires Readable(d)
    ensures Counted(t) && t.idCount == d.nNew && t.tried == map[] && t.new_ == map[] && Unreferenced(t)
    ensures Inv(h, s, {}, 0) && Describes(h, s, d, ids, tids) ==> EntriesRead(h, s, ids + tids, t)
  {
    hide Inv, Describes, EntriesRead, Counted, Read;
    ghost var sound := Inv(h, s, {}, 0) && Describes(h, s, d, ids, tids);
    t := EMPTY;
    NothingRead(h, s, ids + tids);
    for n := 0 to d.nNew
      invariant Counted(t) && t.idCount == n && t.tried == map[] && t.new_ == map[] && Unreferenced(t)
      invariant sound ==> EntriesRead(h, s, ids + tids, t)
    {
      ReadCounted(t, d.new_[n], false);
      ReadFields(t, d.new_[n], false);
      if sound { ReadNth(h, s, d, ids, tids, t); }
      t := Read(t, d.new_[n], false);
    }
  }

  lemma NothingRead(h: Hashing, s: State, all: seq<int>)
    ensures Counted(EMPTY) && EntriesRead(h, s, all, EMPTY)
  {
  }

  lemma ReadFields(t: State, r: Record, inTried: bool)
    ensures var u := Read(t, r, inTried); u.tried == t.tried && u.new_ == t.new_ && u.idCount == t.idCount + 1
    ensures Unreferenced(t) ==> Unreferenced(Read(t, r, inTried))
  {
  }

  /** The next record of the file is that of the next entry. */
  lemma ReadNth(h: Hashing, s: State, d: Saved, ids: seq<int>, tids: seq<int>, t: State)
    requires Inv(h, s, {}, 0) && Describes(h, s, d, ids, tids)
    requires EntriesRead(h, s, ids + tids, t) && 0 <= t.idCount < d.nNew + d.nTried
    ensures var n := t.idCount;
            var r := if n < d.nNew then d.new_[n] else d.tried[n - d.nNew];
            && EntriesRead(h, s, ids + tids, Read(t, r, n >= d.nNew))
            && (ids + tids)[n] in s.info && r.service == s.info[(ids + tids)[n]].service
  {
    hide EntriesRead, Read, BucketListed;
    var n, all := t.idCount, ids + tids;
    AllDistinct(h, s, d, ids, tids);
    assert IdsOk(s);
    if n < d.nNew {
      assert all[n] == ids[n] && ids[n] in Elements(ids);
      assert all[n] in NewIds(s.info);
    } else {
      assert all[n] == tids[n - d.nNew] && tids[n - d.nNew] in Elements(tids);
      assert all[n] in TriedIds(s.info);
    }
    ReadEntry(h, s, all, t, n >= d.nNew);
  }

  lemma AllDistinct(h: Hashing, s: State, d: Saved, ids: seq<int>, tids: seq<int>)
    requires Describes(h, s, d, ids, tids)
    ensures NoDuplicates(ids + tids)
  {
    hide BucketListed, RecordsOf;
    var all := ids + tids;
    forall i, j | 0 <= i < j < |all| ensures all[i] != all[j] {
      if i < |ids| <= j {
        assert ids[i] in Elements(ids) && tids[j - |ids|] in Elements(tids);
        assert all[i] in NewIds(s.info) && all[j] in TriedIds(s.info);
      }
    }
  }

  /** The loop over the tried records: every slot turns out to be free. */
  method LoadTried(h: Hashing, d: Saved, t0: State, ghost s: State, ghost ids: seq<int>, ghost tids: seq<int>)
    returns (t: State, lost: int)
    requires Readable(d) && Counted(t0) && t0.idCount == d.nNew && t0.tried == map[] && t0.new_ == map[] && Unreferenced(t0)
    requires Inv(h, s, {}, 0) && Describes(h, s, d, ids, tids) ==> EntriesRead(h, s, ids + tids, t0)
    ensures Counted(t) && t.new_ == map[] && t.idCount >= d.nNew && Unreferenced(t)
    ensures Inv(h, s, {}, 0) && Describes(h, s, d, ids, tids) ==>
      && lost == 0 && t.idCount == d.nNew + d.nTried
      && EntriesRead(h, s, ids + tids, t) && |ids + tids| == t.idCount
      && TriedRead(h, s, ids + tids, |ids|, t)
  {
    hide Inv, Describes, EntriesRead, Counted, Read, TriedRead;
    ghost var sound := Inv(h, s, {}, 0) && Describes(h, s, d, ids, tids);
    if sound { SizesOf(h, s, d, ids, tids); NoTriedRead(h, s, ids + tids, |ids|, t0); }
    t, lost := t0, 0;
    for n := 0 to d.nTried
      invariant Counted(t) && t.new_ == map[] && t.idCount >= d.nNew && Unreferenced(t)
      invariant sound ==> lost == 0 && t.idCount == d.nNew + n
      invariant sound ==> EntriesRead(h, s, ids + tids, t) && TriedRead(h, s, ids + tids, |ids|, t)
    {
      var r := d.tried[n];
      var sl := h.TriedSlot(r.service);
      if sound { TriedSlotIsFree(h, s, d, ids, tids, t, r); }
      if sl !in t.tried {
        ReadCounted(t, r, true);
        ReadFields(t, r, true);
        var id := t.idCount;
        t := Read(t, r, true);
        CountedFrame(t, t.tried[sl := id]);
        t := t.(tried := t.tried[sl := id]);
      } else {
        lost := lost + 1;
      }
    }
  }

  lemma CountedFrame(t: State, table: Table)
    requires Counted(t)
    ensures Counted(t.(tried := table))
  {
  }

  lemma SizesOf(h: Hashing, s: State, d: Saved, ids: seq<int>, tids: seq<int>)
    requires Describes(h, s, d, ids, tids)
    ensures |ids| == d.nNew && |tids| == d.nTried && |ids + tids| == d.nNew + d.nTried
  {
  }

  lemma NoTriedRead(h: Hashing, s: State, all: seq<int>, first: int, t: State)
    requires t.idCount <= |all| && t.tried == map[] && 0 <= first == t.idCount
    ensures TriedRead(h, s, all, first, t)
  {
  }

  /** Two entries of the tried table never share a slot, so reading finds each slot empty. */
  lemma TriedSlotIsFree(h: Hashing, s: State, d: Saved, ids: seq<int>, tids: seq<int>, t: State, r: Record)
    requires Inv(h, s, {}, 0) && Describes(h, s, d, ids, tids)
    requires d.nNew <= t.idCount < d.nNew + d.nTried && r == d.tried[t.idCount - d.nNew]
    requires EntriesRead(h, s, ids + tids, t) && |ids| == d.nNew && |ids + tids| == d.nNew + d.nTried
    requires TriedRead(h, s, ids + tids, |ids|, t)
    ensures h.TriedSlot(r.service) !in t.tried
    ensures var sl := h.TriedSlot(r.service);
            var u := Read(t, r, true).(tried := t.tried[sl := t.idCount]);
            EntriesRead(h, s, ids + tids, u) && TriedRead(h, s, ids + tids, |ids|, u)
  {
    var n, all, sl := t.idCount, ids + tids, h.TriedSlot(r.service);
    TriedEntry(h, s, d, ids, tids, n);
    ReadNth(h, s, d, ids, tids, t);
    ReadFrame(h, s, all, Read(t, r, true), t.tried[sl := n]);
    hide EntriesRead, Describes, BucketListed;
    assert sl == h.TriedSlot(s.info[all[n]].service);
    AllDistinct(h, s, d, ids, tids);
    forall z | z in t.tried ensures z != sl {
      TriedEntry(h, s, d, ids, tids, t.tried[z]);
      assert s.tried[z] == all[t.tried[z]] != all[n] == s.tried[sl];
    }
    TriedStep(h, s, all, |ids|, t, r);
  }

  lemma TriedStep(h: Hashing, s: State, all: seq<int>, first: int, t: State, r: Record)
    requires t.idCount < |all| && TriedRead(h, s, all, first, t) && first <= t.idCount
    requires all[t.idCount] in s.info && r.service == s.info[all[t.idCount]].service
    requires h.TriedSlot(r.service) !in t.tried
    ensures TriedRead(h, s, all, first, Read(t, r, true).(tried := t.tried[h.TriedSlot(r.service) := t.idCount]))
  {
    var sl, n := h.TriedSlot(r.service), t.idCount;
    var u := Read(t, r, true).(tried := t.tried[sl := n]);
    forall k | first <= k < u.idCount && all[k] in s.info
      ensures var z := h.TriedSlot(s.info[all[k]].service); z in u.tried && u.tried[z] == k
    {
      if k < n {
        var z := h.TriedSlot(s.info[all[k]].service);
        assert z in t.tried && t.tried[z] == k;
      }
    }
  }

  lemma TriedEntry(h: Hashing, s: State, d: Saved, ids: seq<int>, tids: seq<int>, k: int)
    requires Inv(h, s, {}, 0) && Describes(h, s, d, ids, tids) && |ids| == d.nNew && |tids| == d.nTried
    requires d.nNew <= k < d.nNew + d.nTried
    ensures var n := (ids + tids)[k];
            n in s.info && s.info[n].inTried && h.TriedSlot(s.info[n].service) in s.tried &&
            s.tried[h.TriedSlot(s.info[n].service)] == n && d.tried[k - d.nNew].service == s.info[n].service
  {
    hide BucketListed;
    var n := (ids + tids)[k];
    assert n == tids[k - |ids|] && n in Elements(tids);
    assert n in TriedIds(s.info) && TriedOk(h, s);
  }

  lemma ReadFrame(h: Hashing, s: State, all: seq<int>, t: State, table: Table)
    ensures EntriesRead(h, s, all, t) ==> EntriesRead(h, s, all, t.(tried := table))
  {
  }

  // ----- the new table -------------------------------------------------------

  /** The slots rebuilt so far hold the right entries, and reference counts count them. */
  ghost predicate SlotsMatch(s: State, ids: seq<int>, t: State) {
    && (forall sl :: sl in t.new_ ==> sl in s.new_ && 0 <= t.new_[sl] < |ids| && ids[t.new_[sl]] == s.new_[sl])
    && (forall k :: k in t.info ==> t.info[k].refCount == |SlotsOf(t.new_, k)|)
  }

  /** All slots of earlier buckets are back, and those of the first m entries of this one. */
  ghost predicate BucketsBack(h: Hashing, s: State, ids: seq<int>, t: State, b: nat, list: seq<int>, m: nat)
    requires m <= |list|
  {
    && (forall sl :: sl in s.new_ && sl.0 < b ==> sl in t.new_)
    && (forall sl :: sl in t.new_ ==> sl.0 < b || (sl.0 == b && t.new_[sl] in Elements(list[..m])))
    && (forall j :: 0 <= j < m && 0 <= list[j] < |ids| && ids[list[j]] in s.info ==>
          h.NewSlot(b, s.info[ids[list[j]]].service) in t.new_)
  }

  /** The next entry of a bucket finds its slot free and room for one more reference. */
  lemma SlotIsFree(h: Hashing, s: State, ids: seq<int>, t: State, b: nat, list: seq<int>, m: nat)
    requires NoDuplicates(ids) && m < |list| && BucketListed(h, s, ids, b, list)
    requires SlotsMatch(s, ids, t) && BucketsBack(h, s, ids, t, b, list, m) && RefsOk(s, {})
    requires list[m] in t.info
    ensures var sl := h.NewSlot(b, s.info[ids[list[m]]].service);
            sl in s.new_ && s.new_[sl] == ids[list[m]] && sl !in t.new_ && t.info[list[m]].refCount < MAX_REFS
  {
    var k := list[m];
    var n := ids[k];
    var sl := h.NewSlot(b, s.info[n].service);
    assert InBucket(h, s, b, n);
    forall z | z in t.new_ ensures z != sl {
      if z.0 == b {
        var j :| 0 <= j < |list[..m]| && list[..m][j] == t.new_[z];
        assert list[j] != list[m];
        assert s.new_[z] == ids[t.new_[z]] != n == s.new_[sl];
      }
    }
    assert RefOk(s, n, {});
    forall z | z in SlotsOf(t.new_, k) ensures z in SlotsOf(s.new_, n) - {sl} { }
    SubsetSize(SlotsOf(t.new_, k), SlotsOf(s.new_, n) - {sl});
    assert sl in SlotsOf(s.new_, n);
  }

  lemma LinkMatches(s: State, ids: seq<int>, t: State, sl: Slot, k: int)
    requires SlotsMatch(s, ids, t) && sl in s.new_ && sl !in t.new_
    requires 0 <= k < |ids| && k in t.info && ids[k] == s.new_[sl]
    ensures SlotsMatch(s, ids, Linked(t, sl, k))
  {
    var u := Linked(t, sl, k);
    forall q | q in u.info ensures u.info[q].refCount == |SlotsOf(u.new_, q)| {
      LinkSlots(t.new_, sl, k, q);
    }
  }

  lemma LinkAdvances(h: Hashing, s: State, ids: seq<int>, t: State, b: nat, list: seq<int>, m: nat, sl: Slot)
    requires m < |list| && BucketsBack(h, s, ids, t, b, list, m) && list[m] in t.info
    requires 0 <= list[m] < |ids| && ids[list[m]] in s.info && sl == h.NewSlot(b, s.info[ids[list[m]]].service)
    ensures BucketsBack(h, s, ids, Linked(t, sl, list[m]), b, list, m + 1)
  {
    var u := Linked(t, sl, list[m]);
    assert list[..m + 1] == list[..m] + [list[m]];
    assert list[..m + 1][m] == list[m];
    forall z | z in u.new_ ensures z.0 < b || (z.0 == b && u.new_[z] in Elements(list[..m + 1])) {
      if z != sl && !(z.0 < b) {
        assert t.new_[z] in Elements(list[..m]);
        var j :| 0 <= j < |list[..m]| && list[..m][j] == t.new_[z];
        assert list[..m + 1][j] == t.new_[z];
      }
    }
    forall j | 0 <= j < m + 1 && 0 <= list[j] < |ids| && ids[list[j]] in s.info
      ensures h.NewSlot(b, s.info[ids[list[j]]].service) in u.new_
    {
      if j < m { assert h.NewSlot(b, s.info[ids[list[j]]].service) in t.new_; }
    }
  }

  lemma LinkReads(h: Hashing, s: State, all: seq<int>, t: State, sl: Slot, k: int)
    requires Counted(t) && k in t.info
    ensures Counted(Linked(t, sl, k)) && Linked(t, sl, k).tried == t.tried && Linked(t, sl, k).idCount == t.idCount
    ensures EntriesRead(h, s, all, t) ==> EntriesRead(h, s, all, Linked(t, sl, k))
  {
    LinkCounted(t, sl, k);
    hide Counted;
  }

  lemma LinkCounted(t: State, sl: Slot, k: int)
    requires Counted(t) && k in t.info
    ensures Counted(Linked(t, sl, k))
  {
    assert Linked(t, sl, k).info.Keys == t.info.Keys;
    assert |Linked(t, sl, k).info| == |Linked(t, sl, k).info.Keys| && |t.info| == |t.info.Keys|;
  }

  /** A bucket is finished when its list is. */
  lemma BucketFinished(h: Hashing, s: State, ids: seq<int>, t: State, b: nat, list: seq<int>, next: seq<int>)
    requires BucketListed(h, s, ids, b, list) && BucketsBack(h, s, ids, t, b, list, |list|)
    requires NewOk(h, s) && Elements(ids) == NewIds(s.info)
    ensures BucketsBack(h, s, ids, t, b + 1, next, 0)
  {
    forall sl | sl in s.new_ && sl.0 < b + 1 ensures sl in t.new_ {
      if sl.0 == b {
        var n := s.new_[sl];
        assert n in NewIds(s.info);
        var k :| 0 <= k < |ids| && ids[k] == n;
        assert InBucket(h, s, b, n);
        assert k in Elements(list);
        var j :| 0 <= j < |list| && list[j] == k;
        assert h.NewSlot(b, s.info[ids[list[j]]].service) in t.new_;
      }
    }
  }

  /** The loop over one bucket list. */
  method LoadBucket(h: Hashing, d: Saved, t0: State, b: nat, ghost s: State, ghost ids: seq<int>, ghost tids: seq<int>)
    returns (t: State)
    requires Readable(d) && b < NEW_BUCKETS && Counted(t0) && t0.idCount >= d.nNew
    requires Inv(h, s, {}, 0) && Describes(h, s, d, ids, tids) ==>
      EntriesRead(h, s, ids + tids, t0) && SlotsMatch(s, ids, t0) && BucketsBack(h, s, ids, t0, b, d.buckets[b], 0)
    ensures Counted(t) && t.idCount == t0.idCount && t.tried == t0.tried
    ensures Inv(h, s, {}, 0) && Describes(h, s, d, ids, tids) ==>
      EntriesRead(h, s, ids + tids, t) && SlotsMatch(s, ids, t) && BucketsBack(h, s, ids, t, b, d.buckets[b], |d.buckets[b]|)
  {
    hide Inv, Describes, EntriesRead, SlotsMatch, BucketsBack, Linked, Hashing.NewSlot;
    ghost var sound := Inv(h, s, {}, 0) && Describes(h, s, d, ids, tids);
    var list := d.buckets[b];
    t := t0;
    for m := 0 to |list|
      invariant Counted(t) && t.idCount == t0.idCount && t.tried == t0.tried
      invariant sound ==>
        EntriesRead(h, s, ids + tids, t) && SlotsMatch(s, ids, t) && BucketsBack(h, s, ids, t, b, list, m)
    {
      var k := list[m];
      if sound { ListedStep(h, s, d, ids, tids, t, b, m); }
      if 0 <= k < d.nNew {
        var sl := h.NewSlot(b, t.info[k].service);
        if sl !in t.new_ && t.info[k].refCount < MAX_REFS {
          LinkReads(h, s, ids + tids, t, sl, k);
          t := Linked(t, sl, k);
        }
      }
    }
  }

  lemma ListedStep(h: Hashing, s: State, d: Saved, ids: seq<int>, tids: seq<int>, t: State, b: nat, m: nat)
    requires Inv(h, s, {}, 0) && Describes(h, s, d, ids, tids) && Counted(t) && t.idCount >= d.nNew
    requires b < NEW_BUCKETS && m < |d.buckets[b]|
    requires EntriesRead(h, s, ids + tids, t) && SlotsMatch(s, ids, t) && BucketsBack(h, s, ids, t, b, d.buckets[b], m)
    ensures var k := d.buckets[b][m];
            && 0 <= k < d.nNew && k in t.info
            && var sl := h.NewSlot(b, t.info[k].service);
               && sl !in t.new_ && t.info[k].refCount < MAX_REFS
               && SlotsMatch(s, ids, Linked(t, sl, k))
               && BucketsBack(h, s, ids, Linked(t, sl, k), b, d.buckets[b], m + 1)
  {
    var list := d.buckets[b];
    var k := list[m];
    assert BucketListed(h, s, ids, b, list) && RefsOk(s, {});
    assert 0 <= k < |ids| && k in t.info && ids[k] in s.info;
    SameService(h, s, ids, tids, t, k);
    var sl := h.NewSlot(b, t.info[k].service);
    hide Inv, Describes, EntriesRead, SlotsMatch, BucketsBack, Linked, Counted;
    SlotIsFree(h, s, ids, t, b, list, m);
    LinkMatches(s, ids, t, sl, k);
    LinkAdvances(h, s, ids, t, b, list, m, sl);
  }

  lemma SameService(h: Hashing, s: State, ids: seq<int>, tids: seq<int>, t: State, k: int)
    requires EntriesRead(h, s, ids + tids, t) && 0 <= k < |ids| && k < t.idCount
    ensures ids[k] in s.info && t.info[k].service == s.info[ids[k]].service
  {
    assert (ids + tids)[k] == ids[k];
  }

  /** The loop over all buckets. */
  method LoadBuckets(h: Hashing, d: Saved, t0: State, ghost s: State, ghost ids: seq<int>, ghost tids: seq<int>)
    returns (t: State)
    requires Readable(d) && Counted(t0) && t0.idCount >= d.nNew && t0.new_ == map[] && Unreferenced(t0)
    requires Inv(h, s, {}, 0) && Describes(h, s, d, ids, tids) ==> EntriesRead(h, s, ids + tids, t0)
    ensures Counted(t) && t.idCount == t0.idCount && t.tried == t0.tried
    ensures Inv(h, s, {}, 0) && Describes(h, s, d, ids, tids) ==>
      EntriesRead(h, s, ids + tids, t) && SlotsMatch(s, ids, t) && t.new_.Keys == s.new_.Keys
  {
    hide Inv, Describes, EntriesRead, SlotsMatch, BucketsBack, Counted;
    ghost var sound := Inv(h, s, {}, 0) && Describes(h, s, d, ids, tids);
    t := t0;
    if sound { NoSlotsYet(h, s, ids, tids, t0); }
    for b := 0 to NEW_BUCKETS
      invariant Counted(t) && t.idCount == t0.idCount && t.tried == t0.tried
      invariant sound ==> EntriesRead(h, s, ids + tids, t) && SlotsMatch(s, ids, t)
      invariant sound ==> BucketsBack(h, s, ids, t, b, [], 0)
    {
      if sound { NextList(h, s, ids, t, b, d.buckets[b]); }
      t := LoadBucket(h, d, t, b, s, ids, tids);
      if sound { BucketDone(h, s, d, ids, tids, t, b); }
    }
    if sound { AllSlotsBack(h, s, ids, t); }
  }

  lemma NoSlotsYet(h: Hashing, s: State, ids: seq<int>, tids: seq<int>, t: State)
    requires Unreferenced(t) && t.new_ == map[]
    requires Inv(h, s, {}, 0)
    ensures SlotsMatch(s, ids, t) && BucketsBack(h, s, ids, t, 0, [], 0)
  {
    assert NewOk(h, s);
    assert forall k :: SlotsOf(t.new_, k) == {};
  }

  /** Between two buckets it does not matter which list comes next. */
  lemma NextList(h: Hashing, s: State, ids: seq<int>, t: State, b: nat, list: seq<int>)
    requires BucketsBack(h, s, ids, t, b, [], 0)
    ensures BucketsBack(h, s, ids, t, b, list, 0)
  {
    assert list[..0] == [] && Elements([]) == {};
  }

  lemma BucketDone(h: Hashing, s: State, d: Saved, ids: seq<int>, tids: seq<int>, t: State, b: nat)
    requires Inv(h, s, {}, 0) && Describes(h, s, d, ids, tids) && b < NEW_BUCKETS
    requires BucketsBack(h, s, ids, t, b, d.buckets[b], |d.buckets[b]|)
    ensures BucketsBack(h, s, ids, t, b + 1, [], 0)
  {
    assert NewOk(h, s) && BucketListed(h, s, ids, b, d.buckets[b]);
    BucketFinished(h, s, ids, t, b, d.buckets[b], []);
  }

  lemma AllSlotsBack(h: Hashing, s: State, ids: seq<int>, t: State)
    requires Inv(h, s, {}, 0) && SlotsMatch(s, ids, t) && BucketsBack(h, s, ids, t, NEW_BUCKETS, [], 0)
    ensures t.new_.Keys == s.new_.Keys
  {
    assert NewOk(h, s);
    forall sl ensures sl in t.new_.Keys <==> sl in s.new_.Keys { }
  }

  // ----- pruning and the whole load ------------------------------------------

  lemma SwapPlaces(t: State, i: nat, j: nat)
    requires RandomOk(t) && i < |t.random| && j < |t.random|
    ensures Swapped(t, i, j).info[t.random[i]].randomPos == j
  {
  }

  lemma DeletedOrder(t: State, n: int)
    requires RandomOk(t) && n in t.info
    ensures RandomOk(Deleted(t, n)) && Deleted(t, n).info.Keys == t.info.Keys - {n}
  {
    OrderIndex(t, n);
    var last := |t.random| - 1;
    SwapOrder(t, t.info[n].randomPos, last);
    SwapPlaces(t, t.info[n].randomPos, last);
    hide Swapped, RandomOk;
    var u := Swapped(t, t.info[n].randomPos, last);
    WithoutLastOrder(u, n);
    assert WithoutLast(u, n).info.Keys == u.info.Keys - {n};
  }

  predicate AllReferenced(t: State) {
    forall n :: n in t.info ==> t.info[n].inTried || t.info[n].refCount != 0
  }

  /** Drops the new entries without a slot; after loading a saved file there are none. */
  method Prune(t0: State) returns (t: State, lost: int)
    requires RandomOk(t0)
    ensures RandomOk(t) && (AllReferenced(t0) ==> t == t0 && lost == 0)
  {
    hide RandomOk, Deleted;
    t, lost := t0, 0;
    var rest := t0.info.Keys;
    while rest != {}
      invariant RandomOk(t) && rest <= t.info.Keys
      invariant AllReferenced(t0) ==> t == t0 && lost == 0
      decreases |rest|
    {
      ghost var some := Inhabited(rest);
      var n :| n in rest;
      rest := rest - {n};
      if !t.info[n].inTried && t.info[n].refCount == 0 {
        DeletedOrder(t, n);
        t := Deleted(t, n);
        lost := lost + 1;
      }
    }
  }

  /** What a load must bring back: everything but the memory-only times and the random order. */
  ghost predicate Restores(s: State, all: seq<int>, t: State) {
    && NoDuplicates(all) && Elements(all) == s.info.Keys
    && t.idCount == |all| && (forall k :: k in t.info <==> 0 <= k < |all|)
    && (forall k :: 0 <= k < |all| ==>
          all[k] in s.info &&
          t.info[k] == s.info[all[k]].(lastTry := 0, lastCountAttempt := 0, randomPos := t.info[k].randomPos))
    && t.addr.Keys == s.addr.Keys && (forall a :: a in t.addr ==> 0 <= t.addr[a] < |all| && all[t.addr[a]] == s.addr[a])
    && t.tried.Keys == s.tried.Keys && (forall sl :: sl in t.tried ==> 0 <= t.tried[sl] < |all| && all[t.tried[sl]] == s.tried[sl])
    && t.new_.Keys == s.new_.Keys && (forall sl :: sl in t.new_ ==> 0 <= t.new_[sl] < |all| && all[t.new_[sl]] == s.new_[sl])
    && t.nNew == s.nNew && t.nTried == s.nTried && RandomOk(t)
  }

  method Unserialize(h: Hashing, d: Saved, ghost s: State, ghost ids: seq<int>, ghost tids: seq<int>) returns (r: Loaded)
    requires Readable(d)
    ensures r.Refused? <==> d.nNew > NEW_BUCKETS * BUCKET_SIZE || d.nTried > TRIED_BUCKETS * BUCKET_SIZE
    ensures Inv(h, s, {}, 0) && Describes(h, s, d, ids, tids) ==>
      r.Loaded? && r.lostTried == 0 && r.lostNew == 0 && Restores(s, ids + tids, r.state)
  {
    hide Inv, Describes, EntriesRead, SlotsMatch, Counted, TriedRead, Restores, AllReferenced, Unreferenced, RandomOk;
    ghost var sound := Inv(h, s, {}, 0) && Describes(h, s, d, ids, tids);
    if sound { WithinLimits(h, s, d, ids, tids); }
    if d.nNew > NEW_BUCKETS * BUCKET_SIZE { return Refused; }
    if d.nTried > TRIED_BUCKETS * BUCKET_SIZE { return Refused; }
    var t := LoadNew(h, d, s, ids, tids);
    var lostTried, lostNew;
    t, lostTried := LoadTried(h, d, t, s, ids, tids);
    ghost var tables := t;
    t := LoadBuckets(h, d, t, s, ids, tids);
    if sound { TriedFrame(h, s, ids + tids, |ids|, tables, t); }
    CountersFrame(h, s, ids, ids + tids, t, d.nNew, d.nTried - lostTried);
    t := t.(nNew := d.nNew, nTried := d.nTried - lostTried);
    CountedOrder(t);
    if sound { NothingLost(h, s, d, ids, tids, t); }
    t, lostNew := Prune(t);
    r := Loaded(t, lostTried, lostNew);
  }

  lemma TriedFrame(h: Hashing, s: State, all: seq<int>, first: int, t: State, u: State)
    requires t.idCount <= |all| && TriedRead(h, s, all, first, t) && u.tried == t.tried && u.idCount == t.idCount
    ensures TriedRead(h, s, all, first, u)
  {
  }

  /** The two counters play no part in what has been read. */
  lemma CountersFrame(h: Hashing, s: State, ids: seq<int>, all: seq<int>, t: State, a: int, b: int)
    requires Counted(t)
    ensures var u := t.(nNew := a, nTried := b);
            && Counted(u)
            && (EntriesRead(h, s, all, t) ==> EntriesRead(h, s, all, u))
            && (SlotsMatch(s, ids, t) ==> SlotsMatch(s, ids, u))
            && (t.idCount <= |all| && TriedRead(h, s, all, |ids|, t) ==> TriedRead(h, s, all, |ids|, u))
  {
  }

  lemma AllElements(h: Hashing, s: State, d: Saved, ids: seq<int>, tids: seq<int>)
    requires Describes(h, s, d, ids, tids)
    ensures NoDuplicates(ids + tids) && Elements(ids + tids) == s.info.Keys
  {
    AllDistinct(h, s, d, ids, tids);
    var all := ids + tids;
    forall n ensures n in Elements(all) <==> n in s.info {
      if n in Elements(all) {
        var k :| 0 <= k < |all| && all[k] == n;
        if k < |ids| { assert n in Elements(ids); } else { assert tids[k - |ids|] == n && n in Elements(tids); }
      }
      if n in s.info {
        if s.info[n].inTried {
          assert n in Elements(tids);
          var k :| 0 <= k < |tids| && tids[k] == n;
          assert all[|ids| + k] == n;
        } else {
          assert n in Elements(ids);
          var k :| 0 <= k < |ids| && ids[k] == n;
          assert all[k] == n;
        }
      }
    }
  }

  /** An entry has exactly its old slots again, hence its old reference count. */
  lemma SameReferences(h: Hashing, s: State, d: Saved, ids: seq<int>, tids: seq<int>, t: State, k: int)
    requires RefsOk(s, {}) && Describes(h, s, d, ids, tids) && SlotsMatch(s, ids, t) && t.new_.Keys == s.new_.Keys
    requires 0 <= k < |ids + tids| && k in t.info && (ids + tids)[k] in s.info
    ensures t.info[k].refCount == s.info[(ids + tids)[k]].refCount
  {
    hide BucketListed, RecordsOf;
    var all := ids + tids;
    var n := all[k];
    AllDistinct(h, s, d, ids, tids);
    assert RefOk(s, n, {});
    forall sl ensures sl in SlotsOf(t.new_, k) <==> sl in SlotsOf(s.new_, n) {
      if sl in s.new_ { assert sl in t.new_ && all[t.new_[sl]] == ids[t.new_[sl]] == s.new_[sl]; }
    }
    assert SlotsOf(t.new_, k) == SlotsOf(s.new_, n);
  }

  lemma SameEntries(h: Hashing, s: State, d: Saved, ids: seq<int>, tids: seq<int>, t: State)
    requires RefsOk(s, {}) && Describes(h, s, d, ids, tids) && SlotsMatch(s, ids, t) && t.new_.Keys == s.new_.Keys
    requires EntriesRead(h, s, ids + tids, t) && t.idCount == |ids + tids|
    ensures forall k :: 0 <= k < |ids + tids| ==>
      var n := (ids + tids)[k];
      n in s.info && k in t.info &&
      t.info[k] == s.info[n].(lastTry := 0, lastCountAttempt := 0, randomPos := t.info[k].randomPos)
  {
    hide Describes, SlotsMatch;
    var all := ids + tids;
    forall k | 0 <= k < |all|
      ensures all[k] in s.info && k in t.info &&
              t.info[k] == s.info[all[k]].(lastTry := 0, lastCountAttempt := 0, randomPos := t.info[k].randomPos)
    {
      assert IsRead(s.info[all[k]], t.info[k]);
      SameReferences(h, s, d, ids, tids, t, k);
    }
  }

  lemma SameAddresses(h: Hashing, s: State, all: seq<int>, t: State)
    requires IdsOk(s) && EntriesRead(h, s, all, t) && t.idCount == |all| && Elements(all) == s.info.Keys
    ensures t.addr.Keys == s.addr.Keys && forall a :: a in t.addr ==> 0 <= t.addr[a] < |all| && all[t.addr[a]] == s.addr[a]
  {
    forall a | a in t.addr ensures a in s.addr && 0 <= t.addr[a] < |all| && all[t.addr[a]] == s.addr[a] {
      var n := all[t.addr[a]];
      assert n in s.info && s.info[n].service.addr == a;
    }
    forall a ensures a in t.addr.Keys <==> a in s.addr.Keys {
      if a in s.addr {
        var n := s.addr[a];
        assert n in Elements(all);
        var k :| 0 <= k < |all| && all[k] == n;
        assert s.info[all[k]].service.addr in t.addr;
      }
    }
  }

  lemma SameTried(h: Hashing, s: State, d: Saved, ids: seq<int>, tids: seq<int>, t: State)
    requires Inv(h, s, {}, 0) && Describes(h, s, d, ids, tids) && t.idCount == |ids + tids|
    requires TriedRead(h, s, ids + tids, |ids|, t)
    ensures t.tried.Keys == s.tried.Keys
    ensures forall sl :: sl in t.tried ==> 0 <= t.tried[sl] < |ids + tids| && (ids + tids)[t.tried[sl]] == s.tried[sl]
  {
    hide BucketListed, RecordsOf, RefsOk, RandomOk, NewOk, IdsOk;
    var all := ids + tids;
    SizesOf(h, s, d, ids, tids);
    forall sl | sl in t.tried ensures sl in s.tried && all[t.tried[sl]] == s.tried[sl] {
      TriedEntry(h, s, d, ids, tids, t.tried[sl]);
    }
    forall sl | sl in s.tried ensures sl in t.tried {
      var n := s.tried[sl];
      assert n in TriedIds(s.info) && n in Elements(tids);
      var j :| 0 <= j < |tids| && tids[j] == n;
      assert all[|ids| + j] == n && sl == h.TriedSlot(s.info[n].service);
    }
    assert t.tried.Keys == s.tried.Keys;
  }

  lemma Parts(h: Hashing, s: State, d: Saved, ids: seq<int>, tids: seq<int>)
    requires Inv(h, s, {}, 0) && Describes(h, s, d, ids, tids)
    ensures IdsOk(s) && RefsOk(s, {}) && d.nNew == s.nNew && d.nTried == s.nTried
  {
  }

  lemma NumbersRead(h: Hashing, s: State, all: seq<int>, t: State)
    requires EntriesRead(h, s, all, t) && t.idCount == |all|
    ensures forall k :: k in t.info <==> 0 <= k < |all|
  {
  }

  lemma SameNew(s: State, ids: seq<int>, tids: seq<int>, t: State)
    requires SlotsMatch(s, ids, t)
    ensures forall sl :: sl in t.new_ ==>
      sl in s.new_ && 0 <= t.new_[sl] < |ids + tids| && (ids + tids)[t.new_[sl]] == s.new_[sl]
  {
  }

  /** Everything is back, and every new entry has a slot. */
  lemma NothingLost(h: Hashing, s: State, d: Saved, ids: seq<int>, tids: seq<int>, t: State)
    requires Inv(h, s, {}, 0) && Describes(h, s, d, ids, tids)
    requires t.nNew == d.nNew && t.nTried == d.nTried && RandomOk(t) && t.idCount == |ids + tids|
    requires EntriesRead(h, s, ids + tids, t) && TriedRead(h, s, ids + tids, |ids|, t)
    requires SlotsMatch(s, ids, t) && t.new_.Keys == s.new_.Keys
    ensures AllReferenced(t) && Restores(s, ids + tids, t)
  {
    hide Inv, Describes, EntriesRead, TriedRead, SlotsMatch, IdsOk, RefsOk, RandomOk;
    Parts(h, s, d, ids, tids);
    NumbersRead(h, s, ids + tids, t);
    SameNew(s, ids, tids, t);
    AllElements(h, s, d, ids, tids);
    SameEntries(h, s, d, ids, tids, t);
    SameAddresses(h, s, ids + tids, t);
    SameTried(h, s, d, ids, tids, t);
    forall k | k in t.info ensures t.info[k].inTried || t.info[k].refCount != 0 {
      WhichTable(h, s, (ids + tids)[k]);
    }
  }

  // ----- limits ----------------------------------------------------------------

  function Row(b: int, n: nat): set<Slot> { set i | 0 <= i < n :: (b, i) }

  function Grid(rows: nat, n: nat): set<Slot> {
    if rows == 0 then {} else Grid(rows - 1, n) + Row(rows - 1, n)
  }

  lemma {:induction false} RowSize(b: int, n: nat)
    ensures |Row(b, n)| == n
  {
    if n > 0 {
      RowSize(b, n - 1);
      assert Row(b, n) == Row(b, n - 1) + {(b, n - 1)};
      assert (b, n - 1) !in Row(b, n - 1);
    }
  }

  lemma {:induction false} GridSize(rows: nat, n: nat)
    ensures |Grid(rows, n)| <= rows * n
  {
    if rows > 0 {
      assert Grid(rows, n) == Grid(rows - 1, n) + Row(rows - 1, n);
      assert rows * n == (rows - 1) * n + n;
      hide Grid, Row;
      GridSize(rows - 1, n);
      RowSize(rows - 1, n);
      UnionSize(Grid(rows - 1, n), Row(rows - 1, n));
    }
  }

  lemma UnionSize(a: set<Slot>, b: set<Slot>)
    ensures |a + b| <= |a| + |b|
  {
  }

  lemma {:induction false} GridContains(rows: nat, n: nat, sl: Slot)
    requires 0 <= sl.0 < rows && 0 <= sl.1 < n
    ensures sl in Grid(rows, n)
  {
    if sl.0 == rows - 1 {
      assert sl == (rows - 1, sl.1);
    } else {
      GridContains(rows - 1, n, sl);
    }
  }

  /** A table cannot name more entries than it has slots. */
  lemma {:induction false} NamedEntries(a: set<int>, t: Table)
    requires forall n :: n in a ==> SlotsOf(t, n) != {}
    ensures |a| <= |t|
    decreases |a|
  {
    if a != {} {
      var n := Inhabited(a);
      var sl :| sl in SlotsOf(t, n);
      forall k | k in a - {n} ensures SlotsOf(t - {sl}, k) != {} {
        UnlinkSlots(t, sl, k);
      }
      NamedEntries(a - {n}, t - {sl});
      assert (t - {sl}).Keys == t.Keys - {sl};
      assert |(t - {sl})| == |(t - {sl}).Keys| && |t| == |t.Keys|;
    }
  }

  lemma SlotsFit(t: Table, rows: nat, n: nat)
    requires forall sl :: sl in t ==> 0 <= sl.0 < rows && 0 <= sl.1 < n
    ensures |t| <= rows * n
  {
    GridSize(rows, n);
    forall sl | sl in t ensures sl in Grid(rows, n) { GridContains(rows, n, sl); }
    SubsetSize(t.Keys, Grid(rows, n));
    assert |t| == |t.Keys|;
  }

  lemma WithinLimits(h: Hashing, s: State, d: Saved, ids: seq<int>, tids: seq<int>)
    requires Inv(h, s, {}, 0) && Describes(h, s, d, ids, tids)
    ensures d.nNew <= NEW_BUCKETS * BUCKET_SIZE && d.nTried <= TRIED_BUCKETS * BUCKET_SIZE
  {
    hide BucketListed, RecordsOf;
    CountOf(h, s);
    forall n | n in NewIds(s.info) ensures SlotsOf(s.new_, n) != {} { EntryReferences(h, s, n); }
    NamedEntries(NewIds(s.info), s.new_);
    SlotsFit(s.new_, NEW_BUCKETS, BUCKET_SIZE);
    forall n | n in TriedIds(s.info) ensures SlotsOf(s.tried, n) != {} { OneTriedSlot(h, s, n); }
    NamedEntries(TriedIds(s.info), s.tried);
    SlotsFit(s.tried, TRIED_BUCKETS, BUCKET_SIZE);
  }

  // ----- the round trip ----------------------------------------------------------

  /** The numbers of entries that satisfy a condition are as many as the entries. */
  lemma {:induction false} SameSize(all: seq<int>, ks: set<int>, ns: set<int>)
    requires NoDuplicates(all) && (forall k :: k in ks ==> 0 <= k < |all| && all[k] in ns)
    requires forall n :: n in ns ==> exists k :: k in ks && 0 <= k < |all| && all[k] == n
    ensures |ks| == |ns|
    decreases |ns|
  {
    if ns == {} {
      assert ks == {} by { forall k ensures k !in ks { } }
    } else {
      var n := Inhabited(ns);
      var k :| k in ks && 0 <= k < |all| && all[k] == n;
      forall m | m in ns - {n} ensures exists i :: i in ks - {k} && 0 <= i < |all| && all[i] == m {
        var i :| i in ks && 0 <= i < |all| && all[i] == m;
        assert i in ks - {k};
      }
      SameSize(all, ks - {k}, ns - {n});
    }
  }

  lemma NumberOf(all: seq<int>, ids: set<int>, n: int) returns (k: int)
    requires Elements(all) == ids && n in ids
    ensures 0 <= k < |all| && all[k] == n
  {
    k :| 0 <= k < |all| && all[k] == n;
  }

  lemma RestoredIds(h: Hashing, s: State, all: seq<int>, t: State)
    requires IdsOk(s) && Restores(s, all, t)
    ensures IdsOk(t)
  {
    hide RandomOk, Elements;
    forall n | n in t.info
      ensures 0 <= n < t.idCount && t.info[n].service.addr in t.addr && t.addr[t.info[n].service.addr] == n
    {
      var a := s.info[all[n]].service.addr;
      assert a in s.addr && a in t.addr.Keys && all[t.addr[a]] == all[n];
    }
  }

  lemma RestoredTried(h: Hashing, s: State, all: seq<int>, t: State)
    requires TriedOk(h, s) && Restores(s, all, t)
    ensures TriedOk(h, t)
  {
    hide RandomOk, Elements, Hashing.TriedSlot;
    forall n | n in t.info && t.info[n].inTried
      ensures var sl := h.TriedSlot(t.info[n].service); sl in t.tried && t.tried[sl] == n
    {
      var sl := h.TriedSlot(s.info[all[n]].service);
      assert sl in s.tried && sl in t.tried.Keys && all[t.tried[sl]] == all[n];
    }
  }

  lemma RestoredNew(h: Hashing, s: State, all: seq<int>, t: State)
    requires NewOk(h, s) && Restores(s, all, t)
    ensures NewOk(h, t)
  {
    hide RandomOk, Elements, Hashing.NewSlot;
    forall sl | sl in t.new_
      ensures t.new_[sl] in t.info && !t.info[t.new_[sl]].inTried
      ensures 0 <= sl.0 < NEW_BUCKETS && sl == h.NewSlot(sl.0, t.info[t.new_[sl]].service)
    {
      assert sl in s.new_.Keys;
    }
  }

  lemma RestoredRefs(s: State, all: seq<int>, t: State)
    requires RefsOk(s, {}) && Restores(s, all, t)
    ensures RefsOk(t, {})
  {
    hide RandomOk, Elements;
    forall k | k in t.info ensures RefOk(t, k, {}) {
      assert RefOk(s, all[k], {});
      forall sl ensures sl in SlotsOf(t.new_, k) <==> sl in SlotsOf(s.new_, all[k]) {
        if sl in t.new_ { assert sl in t.new_.Keys; }
        if sl in s.new_ { assert sl in t.new_.Keys; }
      }
      assert SlotsOf(t.new_, k) == SlotsOf(s.new_, all[k]);
    }
  }

  lemma RestoredCounts(s: State, all: seq<int>, t: State)
    requires CountsOk(s, 0) && Restores(s, all, t)
    ensures CountsOk(t, 0)
  {
    hide RandomOk;
    forall n | n in TriedIds(s.info) ensures exists k :: k in TriedIds(t.info) && 0 <= k < |all| && all[k] == n {
      var k := NumberOf(all, s.info.Keys, n);
      assert k in TriedIds(t.info);
    }
    SameSize(all, TriedIds(t.info), TriedIds(s.info));
    forall n | n in NewIds(s.info) ensures exists k :: k in NewIds(t.info) && 0 <= k < |all| && all[k] == n {
      var k := NumberOf(all, s.info.Keys, n);
      assert k in NewIds(t.info);
    }
    SameSize(all, NewIds(t.info), NewIds(s.info));
  }

  /** What was loaded satisfies the whole invariant again, and so every condition of Check_. */
  lemma RestoredIsConsistent(h: Hashing, s: State, all: seq<int>, t: State)
    requires Inv(h, s, {}, 0) && Restores(s, all, t)
    ensures Inv(h, t, {}, 0) && (CheckPasses(h, t) <==> h.key != 0)
  {
    RestoredIds(h, s, all, t);
    RestoredTried(h, s, all, t);
    RestoredNew(h, s, all, t);
    RestoredRefs(s, all, t);
    RestoredCounts(s, all, t);
    RestoredTimes(s, all, t);
    hide IdsOk, RandomOk, TriedOk, NewOk, RefsOk, TimesOk, CountsOk, CheckPasses;
    InvImpliesCheck(h, t);
  }

  lemma RestoredTimes(s: State, all: seq<int>, t: State)
    requires TimesOk(s) && Restores(s, all, t)
    ensures TimesOk(t)
  {
    forall n | n in t.info
      ensures t.info[n].lastTry >= 0 && t.info[n].lastSuccess >= 0 && (t.info[n].inTried ==> t.info[n].lastSuccess != 0)
    {
      var k := all[n];
      assert k in s.info;
      assert s.info[k].lastTry >= 0;
      assert s.info[k].lastSuccess >= 0;
    }
  }

  /** Saving a consistent manager and loading the result into a fresh one brings everything back. */
  method SaveAndLoad(h: Hashing, s: State) returns (t: State)
    requires Inv(h, s, {}, 0)
    ensures exists all :: Restores(s, all, t)
    ensures CheckPasses(h, t) <==> h.key != 0
  {
    hide Inv, Restores, CheckPasses;
    var d, ids, tids := Serialize(h, s);
    assert Readable(d);
    var r := Unserialize(h, d, s, ids, tids);
    t := r.state;
    ghost var all := ids + tids;
    assert Restores(s, all, t);
    RestoredIsConsistent(h, s, all, t);
  }
}

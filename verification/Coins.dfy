/**
 The stack of write-back coin caches of src/coins.cpp over the coin database of src/txdb.cpp.

 A cache entry carries two flags: DIRTY (it may differ from the view below) and FRESH (the view
 below has no unspent output for it).  The refinement: whatever is fetched, modified, uncached
 or flushed, the stack behaves like a stack of plain maps from transaction ids to unspent
 coins, and the "FRESH flag misapplied" error of BatchWrite cannot occur.
 */
module Coins {

  type Txid = nat
  type BlockHash = nat   // 0 is the null hash

  datatype TxOut = TxOut(value: int, script: seq<nat>) {
    predicate IsNull() { value == -1 }
  }

  datatype CoinRecord = CoinRecord(coinbase: bool, vout: seq<TxOut>, height: int, version: int) {
    /** No unspent output left. */
    predicate IsPruned() {
      forall i :: 0 <= i < |vout| ==> vout[i].IsNull()
    }
  }

  const CLEARED := CoinRecord(false, [], 0, 0)

  datatype Entry = Entry(coins: CoinRecord, dirty: bool, isFresh: bool)

  type CoinsMap = map<Txid, CoinRecord>
  type Cache = map<Txid, Entry>

  // ---------------------------------------------------------------------------
  // Specification: what a cache over a plain map shows
  // ---------------------------------------------------------------------------

  /** Drops the spent outputs at the end. */
  function Trimmed(vout: seq<TxOut>): (r: seq<TxOut>)
    ensures r <= vout
    ensures forall i :: |r| <= i < |vout| ==> vout[i].IsNull()
    ensures r != [] ==> !r[|r| - 1].IsNull()
  {
    if vout != [] && vout[|vout| - 1].IsNull() then Trimmed(vout[..|vout| - 1]) else vout
  }

  function Cleaned(c: CoinRecord): CoinRecord { c.(vout := Trimmed(c.vout)) }

  method Cleanup(c: CoinRecord) returns (r: CoinRecord)
    ensures r == Cleaned(c)
  {
    r := c;
    while |r.vout| > 0 && r.vout[|r.vout| - 1].IsNull()
      invariant r == c.(vout := r.vout) && Trimmed(r.vout) == Trimmed(c.vout)
      decreases |r.vout|
    {
      r := r.(vout := r.vout[..|r.vout| - 1]);
    }
  }

  /** A record of unspent coins, or none when everything is spent. */
  function Put(v: CoinsMap, k: Txid, c: CoinRecord): CoinsMap {
    if c.IsPruned() then v - {k} else v[k := c]
  }

  /** v shows exactly c for k, where pruned and absent are the same. */
  predicate Shows(v: CoinsMap, k: Txid, c: CoinRecord) {
    if c.IsPruned() then k !in v else k in v && v[k] == c
  }

  /** The unspent coins seen through a cache. */
  function Overlay(below: CoinsMap, c: Cache): CoinsMap {
    map k | k in below.Keys + c.Keys && (k in c ==> !c[k].coins.IsPruned())
      :: if k in c then c[k].coins else below[k]
  }

  function DirtyPart(c: Cache): Cache {
    map k | k in c && c[k].dirty :: c[k]
  }

  /** What the two flags of one entry promise about the view below. */
  predicate EntryOk(below: CoinsMap, k: Txid, e: Entry) {
    (e.isFresh ==> k !in below) && (!e.dirty ==> Shows(below, k, e.coins))
  }

  predicate Consistent(below: CoinsMap, c: Cache) {
    forall k :: k in c ==> EntryOk(below, k, c[k])
  }

  lemma CleanedIsPruned(c: CoinRecord)
    ensures Cleaned(c).IsPruned() == c.IsPruned()
    ensures c.IsPruned() ==> Cleaned(c).vout == []
  {
    var r := Trimmed(c.vout);
    if r != [] { assert !c.vout[|r| - 1].IsNull(); }
  }

  /** Overwriting one entry changes what is seen at that key only. */
  lemma OverlayUpdate(below: CoinsMap, c: Cache, k: Txid, e: Entry)
    ensures Overlay(below, c[k := e]) == Put(Overlay(below, c), k, e.coins)
  {
    var l, r := Overlay(below, c[k := e]), Put(Overlay(below, c), k, e.coins);
    assert forall j :: j in l <==> j in r;
  }

  lemma PutShown(v: CoinsMap, k: Txid, c: CoinRecord)
    requires Shows(v, k, c)
    ensures Put(v, k, c) == v
  {
  }

  /** An entry may be dropped when the view below shows the same. */
  lemma OverlayRemove(below: CoinsMap, c: Cache, k: Txid)
    requires k in c && Shows(below, k, c[k].coins)
    ensures Overlay(below, c - {k}) == Overlay(below, c)
  {
    var l, r := Overlay(below, c - {k}), Overlay(below, c);
    assert forall j :: j in l <==> j in r;
  }

  /** Entries that are not dirty show what is below, so only the dirty ones need writing. */
  lemma OverlayDirtyPart(below: CoinsMap, c: Cache)
    requires Consistent(below, c)
    ensures Overlay(below, DirtyPart(c)) == Overlay(below, c)
  {
    var l, r := Overlay(below, DirtyPart(c)), Overlay(below, c);
    forall j ensures (j in l <==> j in r) && (j in l ==> l[j] == r[j]) {
      if j in c { assert EntryOk(below, j, c[j]); }
    }
  }

  lemma OverlayEmpty(below: CoinsMap)
    requires AllLive(below)
    ensures Overlay(below, map[]) == below
  {
  }

  predicate AllLive(v: CoinsMap) {
    forall k :: k in v ==> !v[k].IsPruned()
  }

  lemma OverlayIsLive(below: CoinsMap, c: Cache)
    requires AllLive(below)
    ensures AllLive(Overlay(below, c))
  {
  }

  function LivePart(m: CoinsMap): (v: CoinsMap)
    ensures AllLive(v)
  {
    map k | k in m && !m[k].IsPruned() :: m[k]
  }

  lemma LivePut(m: CoinsMap, k: Txid, c: CoinRecord)
    ensures LivePart(if c.IsPruned() then m - {k} else m[k := c]) == Put(LivePart(m), k, c)
  {
  }

  /** In the middle of a batch: rest is left of m, and done is what was written so far. */
  predicate IsDone(m: Cache, rest: Cache, done: Cache) {
    && (forall j :: j in rest ==> j in m && rest[j] == m[j])
    && (forall j :: j in done ==> j in m && j !in rest && m[j].dirty && done[j] == m[j])
    && (forall j :: j in m && j !in rest && m[j].dirty ==> j in done)
  }

  lemma DoneStart(m: Cache)
    ensures IsDone(m, m, map[])
  {
  }

  lemma DoneStep(m: Cache, rest: Cache, done: Cache, k: Txid)
    requires IsDone(m, rest, done) && k in rest
    ensures k in m && rest[k] == m[k] && k !in done
    ensures IsDone(m, rest - {k}, if rest[k].dirty then done[k := rest[k]] else done)
  {
  }

  lemma DoneEnd(m: Cache, done: Cache)
    requires IsDone(m, map[], done)
    ensures done == DirtyPart(m)
  {
  }

  // ---------------------------------------------------------------------------
  // The database at the bottom of the stack
  // ---------------------------------------------------------------------------

  class CoinsViewDB {
    var coins: CoinsMap
    var bestBlock: BlockHash

    ghost function View(): (v: CoinsMap)
      reads this
      ensures AllLive(v)
    {
      LivePart(coins)
    }

    constructor ()
      ensures View() == map[] && bestBlock == 0
    {
      coins, bestBlock := map[], 0;
    }

    method GetCoins(txid: Txid) returns (found: bool, c: CoinRecord)
      ensures found ==> Shows(View(), txid, c)
      ensures !found ==> txid !in View()
    {
      found := txid in coins;
      c := if found then coins[txid] else CLEARED;
    }

    method BatchWrite(m: Cache, hashBlock: BlockHash)
      modifies this
      ensures View() == Overlay(old(View()), DirtyPart(m))
      ensures bestBlock == if hashBlock != 0 then hashBlock else old(bestBlock)
    {
      hide Overlay, Put, LivePart, IsDone, DirtyPart, CoinRecord.IsPruned;
      var rest := m;
      ghost var done: Cache := map[];
      OverlayEmpty(View());
      DoneStart(m);
      while rest != map[]
        invariant IsDone(m, rest, done)
        invariant View() == Overlay(old(View()), done)
        invariant bestBlock == old(bestBlock)
        decreases |rest|
      {
        var k :| k in rest;
        DoneStep(m, rest, done, k);
        if rest[k].dirty {
          OverlayUpdate(old(View()), done, k, rest[k]);
          LivePut(coins, k, rest[k].coins);
          if rest[k].coins.IsPruned() {
            coins := coins - {k};
          } else {
            coins := coins[k := rest[k].coins];
          }
          done := done[k := rest[k]];
        }
        rest := rest - {k};
      }
      DoneEnd(m, done);
      if hashBlock != 0 { bestBlock := hashBlock; }
    }
  }

  // ---------------------------------------------------------------------------
  // The cache
  // ---------------------------------------------------------------------------

  /** One entry of a child is written into the cache c above grand; start is what c showed first. */
  lemma MergeIsFaithful(grand: CoinsMap, c: Cache, start: CoinsMap, done: Cache, k: Txid, e: Entry)
    requires Consistent(grand, c) && Overlay(grand, c) == Overlay(start, done)
    requires e.dirty && EntryOk(start, k, e) && k !in done
    ensures k in c && e.isFresh ==> c[k].coins.IsPruned()
    ensures k !in c && e.isFresh && e.coins.IsPruned() ==>
              Overlay(grand, c) == Overlay(start, done[k := e])
    ensures k in c && c[k].isFresh && e.coins.IsPruned() ==>
              Consistent(grand, c - {k}) && Overlay(grand, c - {k}) == Overlay(start, done[k := e])
    ensures var e' := Entry(e.coins, true, if k in c then c[k].isFresh else e.isFresh);
            Consistent(grand, c[k := e']) && Overlay(grand, c[k := e']) == Overlay(start, done[k := e])
  {
    OverlayAt(grand, c, k);
    OverlayAt(start, done, k);
    OverlayUpdate(start, done, k, e);
    hide Overlay;
    if k !in c && e.isFresh && e.coins.IsPruned() { PutShown(Overlay(grand, c), k, e.coins); }
    if k in c && c[k].isFresh && e.coins.IsPruned() {
      OverlayDrop(grand, c, k);
      RemoveConsistent(grand, c, k);
    }
    var e' := Entry(e.coins, true, if k in c then c[k].isFresh else e.isFresh);
    OverlayUpdate(grand, c, k, e');
    UpdateConsistent(grand, c, k, e');
  }

  lemma OverlayAt(below: CoinsMap, c: Cache, k: Txid)
    ensures k in Overlay(below, c) <==> if k in c then !c[k].coins.IsPruned() else k in below
    ensures k in Overlay(below, c) ==> Overlay(below, c)[k] == if k in c then c[k].coins else below[k]
  {
  }

  lemma OverlayDrop(below: CoinsMap, c: Cache, k: Txid)
    requires k in c && k !in below
    ensures Overlay(below, c - {k}) == Overlay(below, c) - {k}
  {
    var l, r := Overlay(below, c - {k}), Overlay(below, c) - {k};
    assert forall j :: j in l <==> j in r;
  }

  lemma RemoveConsistent(below: CoinsMap, c: Cache, k: Txid)
    requires Consistent(below, c)
    ensures Consistent(below, c - {k})
  {
  }

  lemma UpdateConsistent(below: CoinsMap, c: Cache, k: Txid, e: Entry)
    requires Consistent(below, c) && EntryOk(below, k, e)
    ensures Consistent(below, c[k := e])
  {
  }

  /** Caching may add entries but never touches the ones that are there. */
  predicate Unchanged(before: Cache, after: Cache) {
    forall k :: k in before ==> k in after && after[k] == before[k]
  }

  lemma OverlayShows(below: CoinsMap, c: Cache, k: Txid)
    requires k in c
    ensures Shows(Overlay(below, c), k, c[k].coins)
  {
  }

  lemma OverlayAbsent(below: CoinsMap, c: Cache, k: Txid)
    requires k !in c && k !in below
    ensures k !in Overlay(below, c)
  {
  }

  lemma InsertFetched(below: CoinsMap, c: Cache, k: Txid, e: Entry)
    requires Consistent(below, c) && k !in c && Shows(below, k, e.coins)
    requires e.isFresh ==> e.coins.IsPruned()
    ensures Consistent(below, c[k := e]) && Overlay(below, c[k := e]) == Overlay(below, c)
    ensures Unchanged(c, c[k := e])
  {
    OverlayUpdate(below, c, k, e);
    OverlayAt(below, c, k);
    hide Overlay;
    PutShown(Overlay(below, c), k, e.coins);
  }

  lemma ClearedIsPruned()
    ensures CLEARED.IsPruned()
  {
  }

  lemma MarkDirty(below: CoinsMap, c: Cache, k: Txid)
    requires Consistent(below, c) && k in c
    ensures var c' := c[k := c[k].(dirty := true)];
            Consistent(below, c') && Overlay(below, c') == Overlay(below, c)
  {
    OverlayUpdate(below, c, k, c[k].(dirty := true));
    OverlayAt(below, c, k);
    hide Overlay;
    PutShown(Overlay(below, c), k, c[k].coins);
  }

  lemma ReplaceCoins(below: CoinsMap, c: Cache, k: Txid, coins: CoinRecord)
    requires Consistent(below, c) && k in c && c[k].dirty
    ensures Consistent(below, c[k := c[k].(coins := coins)])
  {
  }

  lemma DropFresh(below: CoinsMap, c: Cache, k: Txid)
    requires Consistent(below, c) && k in c && c[k].isFresh
    ensures Consistent(below, c - {k}) && Overlay(below, c - {k}) == Overlay(below, c) - {k}
  {
    OverlayDrop(below, c, k);
  }

  lemma UncacheClean(below: CoinsMap, c: Cache, k: Txid)
    requires Consistent(below, c) && k in c && !c[k].dirty
    ensures Consistent(below, c - {k}) && Overlay(below, c - {k}) == Overlay(below, c)
  {
    OverlayRemove(below, c, k);
  }

  lemma ConsistentAt(below: CoinsMap, c: Cache, k: Txid)
    requires Consistent(below, c) && k in c
    ensures EntryOk(below, k, c[k])
  {
  }

  lemma NothingCached(below: CoinsMap)
    ensures Consistent(below, map[])
  {
  }

  /**
   The loop of BatchWrite: takes over the dirty entries of m one by one, in any order.
   ok is false when it stops on the FRESH-misapplied error.
   */
  method MergeEntries(cache: Cache, m: Cache, ghost grand: CoinsMap) returns (ok: bool, c: Cache)
    requires AllLive(grand)
    ensures Consistent(grand, cache) && Consistent(Overlay(grand, cache), m) ==>
      ok && Consistent(grand, c) && Overlay(grand, c) == Overlay(Overlay(grand, cache), DirtyPart(m))
  {
    hide Overlay, Consistent, IsDone, DirtyPart, AllLive, CoinRecord.IsPruned;
    ghost var start := Overlay(grand, cache);
    ghost var sound := Consistent(grand, cache) && Consistent(start, m);
    var rest := m;
    c := cache;
    ghost var done: Cache := map[];
    OverlayIsLive(grand, cache);
    OverlayEmpty(start);
    DoneStart(m);
    while rest != map[]
      invariant IsDone(m, rest, done)
      invariant sound ==> Consistent(grand, c) && Overlay(grand, c) == Overlay(start, done)
      decreases |rest|
    {
      var k :| k in rest;
      DoneStep(m, rest, done, k);
      var e := rest[k];
      if e.dirty {
        if sound {
          ConsistentAt(start, m, k);
          MergeIsFaithful(grand, c, start, done, k, e);
        }
        if k !in c {
          if !(e.isFresh && e.coins.IsPruned()) {
            c := c[k := Entry(e.coins, true, e.isFresh)];
          }
        } else if e.isFresh && !c[k].coins.IsPruned() {
          return false, c;
        } else if c[k].isFresh && e.coins.IsPruned() {
          c := c - {k};
        } else {
          c := c[k := Entry(e.coins, true, c[k].isFresh)];
        }
        done := done[k := e];
      }
      rest := rest - {k};
    }
    DoneEnd(m, done);
    ok := true;
  }

  class CoinsViewCache {
    const base: CoinsViewCache?   // the cache below, or
    const disk: CoinsViewDB       // the database when there is none
    ghost const Repr: set<object>

    var cacheCoins: Cache
    var hashBlock: BlockHash
    var hasModifier: bool
    var modified: Txid            // the entry the modifier refers to

    /** The structure alone: a chain of caches that ends at the database. */
    ghost predicate Linked()
      reads this, Repr
      decreases Repr
    {
      && this in Repr && disk in Repr
      && (base != null ==>
            base in Repr && base.Repr <= Repr && this !in base.Repr && base.disk == disk && base.Linked())
    }

    ghost predicate Valid()
      reads this, Repr
      decreases Repr
    {
      && Linked()
      && (base != null ==> base.Valid())
      && Consistent(BaseView(), cacheCoins)
      && (hasModifier ==> modified in cacheCoins && cacheCoins[modified].dirty)
    }

    ghost function BaseView(): (v: CoinsMap)
      requires Linked()
      reads this, Repr
      ensures AllLive(v)
      decreases Repr, 0
    {
      if base != null then base.View() else disk.View()
    }

    /** The unspent coins this cache shows. */
    ghost function View(): (v: CoinsMap)
      requires Linked()
      reads this, Repr
      ensures AllLive(v)
      decreases Repr, 1
    {
      OverlayIsLive(BaseView(), cacheCoins);
      Overlay(BaseView(), cacheCoins)
    }

    /** The views of the whole stack, from the database up to this cache. */
    ghost function Views(): (vs: seq<CoinsMap>)
      requires Linked()
      reads this, Repr
      ensures |vs| >= 2 && vs[|vs| - 1] == View() && vs[|vs| - 2] == BaseView()
      decreases Repr, 2
    {
      BaseViews() + [View()]
    }

    ghost function BaseViews(): (vs: seq<CoinsMap>)
      requires Linked()
      reads this, Repr
      ensures |vs| >= 1 && vs[|vs| - 1] == BaseView()
      decreases Repr, 0
    {
      if base != null then base.Views() else [disk.View()]
    }

    ghost function BaseBestBlock(): BlockHash
      requires Linked()
      reads this, Repr
      decreases Repr, 0
    {
      if base != null then base.BestBlock() else disk.bestBlock
    }

    ghost function BestBlock(): BlockHash
      requires Linked()
      reads this, Repr
      decreases Repr, 1
    {
      if hashBlock != 0 then hashBlock else BaseBestBlock()
    }

    /** No modifier is open here or below. */
    ghost predicate Idle()
      requires Linked()
      reads this, Repr
      decreases Repr, 1
    {
      !hasModifier && BaseIdle()
    }

    ghost predicate BaseIdle()
      requires Linked()
      reads this, Repr
      decreases Repr, 0
    {
      base != null ==> base.Idle()
    }

    /** A new cache on the database, or on another cache. */
    constructor OnDisk(db: CoinsViewDB)
      ensures Valid() && Idle() && base == null && disk == db && Repr == {this, db} && hashBlock == 0 && cacheCoins == map[]
      ensures View() == db.View() && BestBlock() == db.bestBlock
    {
      base, disk, Repr := null, db, {this, db};
      cacheCoins, hashBlock, hasModifier, modified := map[], 0, false, 0;
      new;
      OverlayEmpty(db.View());
    }

    constructor OnCache(below: CoinsViewCache)
      requires below.Valid()
      ensures Valid() && !hasModifier && base == below && Repr == {this} + below.Repr && hashBlock == 0
      ensures Views() == below.Views() + [below.View()] && BestBlock() == below.BestBlock()
    {
      base, disk, Repr := below, below.disk, {this} + below.Repr;
      cacheCoins, hashBlock, hasModifier, modified := map[], 0, false, 0;
      new;
      OverlayEmpty(below.View());
    }

    // ----- reading ---------------------------------------------------------

    /** Adds an entry that shows what is below anyway. */
    method Insert(txid: Txid, entry: Entry)
      requires Valid() && txid !in cacheCoins && Shows(BaseView(), txid, entry.coins)
      requires entry.isFresh ==> entry.coins.IsPruned()
      modifies this`cacheCoins
      ensures Valid() && Views() == old(Views()) && BestBlock() == old(BestBlock())
      ensures cacheCoins == old(cacheCoins)[txid := entry] && BaseIdle() == old(BaseIdle())
    {
      hide Overlay, Consistent, Shows, CoinRecord.IsPruned;
      InsertFetched(BaseView(), cacheCoins, txid, entry);
      cacheCoins := cacheCoins[txid := entry];
    }

    /** Brings an entry into this cache, and into those below, without changing any view. */
    method FetchCoins(txid: Txid) returns (found: bool)
      requires Valid()
      modifies Repr
      ensures Valid() && Views() == old(Views()) && BestBlock() == old(BestBlock())
      ensures Unchanged(old(cacheCoins), cacheCoins) && BaseIdle() == old(BaseIdle())
      ensures hasModifier == old(hasModifier) && modified == old(modified) && hashBlock == old(hashBlock)
      ensures found == (txid in cacheCoins)
      ensures found ==> Shows(View(), txid, cacheCoins[txid].coins)
      ensures !found ==> txid !in View()
      decreases Repr, 0
    {
      hide Overlay, Consistent, CoinRecord.IsPruned;
      if txid in cacheCoins { OverlayShows(BaseView(), cacheCoins, txid); return true; }
      var tmp;
      found, tmp := BaseGetCoins(txid);
      if !found { OverlayAbsent(BaseView(), cacheCoins, txid); return; }
      // The view below has at most a pruned record: the entry counts as fresh.
      Insert(txid, Entry(tmp, false, tmp.IsPruned()));
      OverlayShows(BaseView(), cacheCoins, txid);
    }

    method GetCoins(txid: Txid) returns (found: bool, c: CoinRecord)
      requires Valid()
      modifies Repr
      ensures Valid() && Views() == old(Views()) && BestBlock() == old(BestBlock())
      ensures Unchanged(old(cacheCoins), cacheCoins) && BaseIdle() == old(BaseIdle())
      ensures hasModifier == old(hasModifier) && modified == old(modified) && hashBlock == old(hashBlock)
      ensures found ==> Shows(View(), txid, c)
      ensures !found ==> txid !in View()
      decreases Repr, 1
    {
      hide Overlay, Consistent, Shows;
      found := FetchCoins(txid);
      c := if found then cacheCoins[txid].coins else CLEARED;
    }

    method BaseGetCoins(txid: Txid) returns (found: bool, c: CoinRecord)
      requires Valid()
      modifies if base != null then base.Repr else {}
      ensures Valid() && Views() == old(Views()) && BestBlock() == old(BestBlock()) && BaseIdle() == old(BaseIdle())
      ensures found ==> Shows(BaseView(), txid, c)
      ensures !found ==> txid !in BaseView()
      decreases Repr, -1
    {
      hide Overlay, Consistent, Shows;
      if base != null {
        found, c := base.GetCoins(txid);
      } else {
        found, c := disk.GetCoins(txid);
      }
    }

    method GetBestBlock() returns (h: BlockHash)
      requires Valid()
      modifies Repr
      ensures Valid() && Views() == old(Views())
      ensures h == BestBlock() == old(BestBlock()) && hashBlock == h && BaseBestBlock() == old(BaseBestBlock())
      ensures cacheCoins == old(cacheCoins) && hasModifier == old(hasModifier)
      decreases Repr
    {
      hide Overlay, Consistent;
      if hashBlock == 0 {
        if base != null {
          hashBlock := base.GetBestBlock();
        } else {
          hashBlock := disk.bestBlock;
        }
      }
      h := hashBlock;
    }

    method SetBestBlock(h: BlockHash)
      requires Valid()
      modifies this`hashBlock
      ensures Valid() && Views() == old(Views()) && hashBlock == h
    {
      hashBlock := h;
    }

    // ----- modifying -------------------------------------------------------

    /** Opens a modifier on an entry; the view does not change until it is used. */
    method ModifyCoins(txid: Txid)
      requires Valid() && !hasModifier
      modifies Repr
      ensures Valid() && Views() == old(Views()) && BestBlock() == old(BestBlock())
      ensures hasModifier && modified == txid && hashBlock == old(hashBlock) && BaseIdle() == old(BaseIdle())
      ensures Shows(View(), txid, cacheCoins[txid].coins)
      ensures cacheCoins == old(cacheCoins)[txid := cacheCoins[txid]]
      ensures cacheCoins[txid].isFresh <==>
        if txid in old(cacheCoins) then old(cacheCoins)[txid].isFresh else txid !in old(BaseView())
    {
      hide Overlay, Consistent, Shows;
      if txid !in cacheCoins { InsertFromBase(txid); }
      OpenModifier(txid);
    }

    method InsertFromBase(txid: Txid)
      requires Valid() && txid !in cacheCoins
      modifies Repr
      ensures Valid() && Views() == old(Views()) && BestBlock() == old(BestBlock()) && txid in cacheCoins
      ensures hasModifier == old(hasModifier) && hashBlock == old(hashBlock) && BaseIdle() == old(BaseIdle())
      ensures cacheCoins == old(cacheCoins)[txid := cacheCoins[txid]]
      ensures cacheCoins[txid].isFresh <==> txid !in old(BaseView())
    {
      hide Overlay, Consistent, CoinRecord.IsPruned;
      var found, c := BaseGetCoins(txid);
      // Absent or pruned below: the entry is fresh.
      if !found { c := CLEARED; ClearedIsPruned(); }
      Insert(txid, Entry(c, false, !found || c.IsPruned()));
    }

    method OpenModifier(txid: Txid)
      requires Valid() && !hasModifier && txid in cacheCoins
      modifies this`cacheCoins, this`hasModifier, this`modified
      ensures Valid() && Views() == old(Views()) && BestBlock() == old(BestBlock())
      ensures hasModifier && modified == txid && BaseIdle() == old(BaseIdle())
      ensures Shows(View(), txid, cacheCoins[txid].coins)
      ensures cacheCoins == old(cacheCoins)[txid := old(cacheCoins)[txid].(dirty := true)]
    {
      hide Overlay, Consistent, Shows;
      MarkDirty(BaseView(), cacheCoins, txid);
      cacheCoins := cacheCoins[txid := cacheCoins[txid].(dirty := true)];
      hasModifier, modified := true, txid;
      OverlayShows(BaseView(), cacheCoins, txid);
    }

    /**
     Opens a modifier on the outputs of a new transaction without looking below.  A non-coinbase
     entry that is not dirty becomes fresh.  That is right exactly when the view below has no
     unspent output of that transaction, which BIP 30 guarantees.
     */
    method ModifyNewCoins(txid: Txid, coinbase: bool) returns (ok: bool)
      requires Valid() && !hasModifier
      modifies this`cacheCoins, this`hasModifier, this`modified
      ensures ok == (coinbase || txid !in old(cacheCoins) || old(cacheCoins)[txid].coins.IsPruned())
      ensures Linked() && BaseView() == old(BaseView()) && BaseIdle() == old(BaseIdle())
      ensures ok ==> hasModifier && modified == txid
      ensures ok ==>
        var entry := if txid in old(cacheCoins) then old(cacheCoins)[txid] else Entry(CLEARED, false, false);
        cacheCoins == old(cacheCoins)[txid := Entry(CLEARED, true, entry.isFresh || (!coinbase && !entry.dirty))]
      ensures ok ==> View() == old(View()) - {txid}
      ensures ok ==>
        (Valid() <==> coinbase || (txid in old(cacheCoins) && old(cacheCoins)[txid].dirty) || txid !in BaseView())
      ensures !ok ==> Valid() && !hasModifier && View() == old(View())
    {
      hide Overlay;
      if !coinbase && txid in cacheCoins && !cacheCoins[txid].coins.IsPruned() { return false; }
      ok := true;
      var entry := if txid in cacheCoins then cacheCoins[txid] else Entry(CLEARED, false, false);
      var isFresh := entry.isFresh || (!coinbase && !entry.dirty);
      OverlayUpdate(BaseView(), cacheCoins, txid, Entry(CLEARED, true, isFresh));
      ghost var before := cacheCoins;
      cacheCoins := cacheCoins[txid := Entry(CLEARED, true, isFresh)];
      hasModifier, modified := true, txid;
      assert Linked();
      if !isFresh || txid !in BaseView() {
        UpdateConsistent(BaseView(), before, txid, cacheCoins[txid]);
      } else {
        assert !EntryOk(BaseView(), txid, cacheCoins[txid]);
      }
      if entry.isFresh { assert EntryOk(BaseView(), txid, before[txid]); }
    }

    /** Writes through the open modifier. */
    method Assign(c: CoinRecord)
      requires Valid() && hasModifier
      modifies this`cacheCoins
      ensures Valid() && View() == Put(old(View()), modified, c)
      ensures BaseView() == old(BaseView()) && BaseIdle() == old(BaseIdle())
      ensures cacheCoins[modified].coins == c
    {
      hide Overlay, Consistent;
      var entry := cacheCoins[modified];
      OverlayUpdate(BaseView(), cacheCoins, modified, entry.(coins := c));
      ReplaceCoins(BaseView(), cacheCoins, modified, c);
      cacheCoins := cacheCoins[modified := entry.(coins := c)];
    }

    /**
     Closes the modifier: trims the record and forgets it when it is fresh and spent.  Where the
     flags are truthful, the view is what was assigned.
     */
    method ReleaseModifier()
      requires Linked() && hasModifier && modified in cacheCoins
      modifies this`cacheCoins, this`hasModifier
      ensures Linked() && !hasModifier && BaseView() == old(BaseView()) && BaseIdle() == old(BaseIdle())
      ensures var entry, c := old(cacheCoins)[modified], Cleaned(old(cacheCoins)[modified].coins);
        cacheCoins == if entry.isFresh && c.IsPruned() then old(cacheCoins) - {modified}
                      else old(cacheCoins)[modified := entry.(coins := c)]
      ensures old(Valid()) ==> Valid() && View() == Put(old(View()), modified, Cleaned(old(cacheCoins)[modified].coins))
    {
      hide Overlay, Consistent, CoinRecord.IsPruned, Trimmed;
      hasModifier := false;
      var entry := cacheCoins[modified];
      var c := Cleanup(entry.coins);
      if old(Valid()) {
        OverlayUpdate(BaseView(), cacheCoins, modified, entry.(coins := c));
        ReplaceCoins(BaseView(), cacheCoins, modified, c);
      }
      if entry.isFresh && c.IsPruned() {
        if old(Valid()) { DropFresh(BaseView(), cacheCoins, modified); }
        cacheCoins := cacheCoins - {modified};
      } else {
        cacheCoins := cacheCoins[modified := entry.(coins := c)];
      }
    }

    method Uncache(txid: Txid)
      requires Valid() && (hasModifier ==> modified != txid)
      modifies this`cacheCoins
      ensures Valid() && Views() == old(Views())
      ensures var clean := txid in old(cacheCoins) && !old(cacheCoins)[txid].dirty && !old(cacheCoins)[txid].isFresh;
        cacheCoins == if clean then old(cacheCoins) - {txid} else old(cacheCoins)
    {
      hide Overlay, Consistent;
      if txid in cacheCoins && !cacheCoins[txid].dirty && !cacheCoins[txid].isFresh {
        UncacheClean(BaseView(), cacheCoins, txid);
        cacheCoins := cacheCoins - {txid};
      }
    }

    // ----- writing back ----------------------------------------------------

    /** Takes over the dirty entries of a child cache; ok is false on the FRESH-misapplied error. */
    method BatchWrite(m: Cache, newHash: BlockHash) returns (ok: bool)
      requires Valid() && !hasModifier
      modifies this`cacheCoins, this`hashBlock
      ensures Linked() && BaseView() == old(BaseView()) && BaseBestBlock() == old(BaseBestBlock())
      ensures Consistent(old(View()), m) ==>
        ok && Valid() && View() == Overlay(old(View()), DirtyPart(m)) && hashBlock == newHash
    {
      hide Overlay, Consistent, DirtyPart;
      ok, cacheCoins := MergeEntries(cacheCoins, m, BaseView());
      if ok { hashBlock := newHash; }
    }

    /** Hands the cache to the view below, whatever that is. */
    method WriteBelow() returns (ok: bool)
      requires Valid() && (base != null ==> !base.hasModifier)
      modifies if base != null then {base} else {disk}
      ensures ok && Linked() && (base != null ==> base.Valid()) && BaseIdle() == old(BaseIdle())
      ensures BaseViews() == WithTop(old(BaseViews()), old(View()))
      ensures BaseBestBlock() ==
        if hashBlock != 0 then hashBlock else if base != null then old(base.BaseBestBlock()) else old(disk.bestBlock)
    {
      hide Overlay, Consistent, DirtyPart;
      OverlayDirtyPart(BaseView(), cacheCoins);
      if base != null {
        ok := base.BatchWrite(cacheCoins, hashBlock);
        assert base.BaseIdle() == old(base.BaseIdle());
        assert base.BaseViews() == old(base.BaseViews());
        assert base.BestBlock() == if hashBlock != 0 then hashBlock else base.BaseBestBlock();
      } else {
        disk.BatchWrite(cacheCoins, hashBlock);
        ok := true;
      }
    }

    /**
     Pushes the modifications down.  No unspent coin seen through this cache changes, the view
     below becomes the same, and the FRESH-misapplied error does not occur.  The best block
     survives unless this cache never looked it up while the one below holds an unflushed one.
     */
    method Flush() returns (ok: bool)
      requires Valid() && !hasModifier && (base != null ==> !base.hasModifier)
      modifies Repr
      ensures ok && Valid() && !hasModifier && cacheCoins == map[] && hashBlock == old(hashBlock)
      ensures BaseIdle() == old(BaseIdle())
      ensures Views() == old(Views())[|old(Views())| - 2 := old(View())]
      ensures BestBlock() == old(BestBlock()) <==>
        hashBlock != 0 || base == null || old(base.hashBlock) == 0 ||
        old(base.hashBlock) == old(base.BaseBestBlock())
    {
      hide Overlay, Consistent;
      if hashBlock == 0 && base != null {
        assert base.BestBlock() == if base.hashBlock != 0 then base.hashBlock else base.BaseBestBlock();
        assert BestBlock() == BaseBestBlock() == base.BestBlock();
      }
      ok := WriteBelow();
      Clear();
    }

    method Clear()
      requires Linked() && (base != null ==> base.Valid()) && !hasModifier
      modifies this`cacheCoins
      ensures Valid() && cacheCoins == map[] && BaseIdle() == old(BaseIdle())
      ensures Views() == old(BaseViews()) + [old(BaseView())] && BaseBestBlock() == old(BaseBestBlock())
    {
      hide Overlay, Consistent;
      cacheCoins := map[];
      OverlayEmpty(BaseView());
      NothingCached(BaseView());
    }

    // ----- operations on a layer of the stack, counted from the top ---------

    method FetchAt(depth: nat, txid: Txid)
      requires Valid() && Idle()
      modifies Repr
      ensures Valid() && Idle() && Views() == old(Views())
      decreases Repr, 2
    {
      hide Overlay, Consistent, Shows;
      if depth == 0 {
        var _ := FetchCoins(txid);
      } else if base != null {
        base.FetchAt(depth - 1, txid);
      }
    }

    method UncacheAt(depth: nat, txid: Txid)
      requires Valid() && Idle()
      modifies Repr
      ensures Valid() && Idle() && Views() == old(Views())
      decreases Repr, 2
    {
      hide Overlay, Consistent, Shows;
      if depth == 0 {
        Uncache(txid);
      } else if base != null {
        base.UncacheAt(depth - 1, txid);
      }
    }

    method FlushAt(depth: nat)
      requires Valid() && Idle()
      modifies Repr
      ensures Valid() && Idle() && Views() == FlushedAt(old(Views()), depth)
      decreases Repr, 2
    {
      hide Overlay, Consistent, Shows;
      if depth == 0 {
        assert base != null ==> base.Idle();
        var _ := Flush();
      } else if base != null {
        base.FlushAt(depth - 1);
        FlushedBelow(old(base.Views()), old(View()), depth);
      }
    }

    /** Opens a modifier, writes a record through it and closes it. */
    method Replace(txid: Txid, c: CoinRecord)
      requires Valid() && Idle()
      modifies Repr
      ensures Valid() && Idle()
      ensures Views() == WithTop(old(Views()), Put(old(View()), txid, Cleaned(c)))
    {
      hide Overlay, Consistent, Shows, Put, Cleaned;
      ModifyCoins(txid);
      Assign(c);
      ReleaseModifier();
      PutTwice(old(View()), txid, c);
    }

    /** The same for a new transaction, where BIP 30 rules out an unspent older one. */
    method Create(txid: Txid, coinbase: bool, c: CoinRecord) returns (ok: bool)
      requires Valid() && Idle() && (!coinbase ==> txid !in View())
      modifies this
      ensures ok && Valid() && Idle()
      ensures Views() == WithTop(old(Views()), Put(old(View()), txid, Cleaned(c)))
    {
      hide Overlay, Put, Cleaned, Consistent, CoinRecord.IsPruned;
      if !coinbase { NotShown(BaseView(), cacheCoins, txid); }
      ok := ModifyNewCoins(txid, coinbase);
      if ok {
        Assign(c);
        ReleaseModifier();
        PutTwice(old(View()) - {txid}, txid, c);
        PutAfterRemove(old(View()), txid, Cleaned(c));
      }
    }
  }

  // ---------------------------------------------------------------------------
  // The stack of plain maps that the caches refine
  // ---------------------------------------------------------------------------

  function WithTop(vs: seq<CoinsMap>, v: CoinsMap): seq<CoinsMap>
    requires vs != []
  {
    vs[|vs| - 1 := v]
  }

  /** Flushing the layer at some depth copies its map onto the one below. */
  function FlushedAt(vs: seq<CoinsMap>, depth: nat): seq<CoinsMap> {
    if depth + 2 <= |vs| then vs[|vs| - 2 - depth := vs[|vs| - 1 - depth]] else vs
  }

  lemma FlushedBelow(vs: seq<CoinsMap>, top: CoinsMap, depth: nat)
    requires depth > 0
    ensures FlushedAt(vs, depth - 1) + [top] == FlushedAt(vs + [top], depth)
  {
  }

  lemma PutTwice(v: CoinsMap, k: Txid, c: CoinRecord)
    ensures Put(Put(v, k, c), k, Cleaned(c)) == Put(v, k, Cleaned(c))
  {
    CleanedIsPruned(c);
  }

  lemma PutAfterRemove(v: CoinsMap, k: Txid, c: CoinRecord)
    ensures Put(v - {k}, k, c) == Put(v, k, c)
  {
  }

  lemma NotShown(below: CoinsMap, c: Cache, k: Txid)
    requires Consistent(below, c) && k !in Overlay(below, c)
    ensures k in c ==> c[k].coins.IsPruned() && (c[k].dirty || k !in below)
    ensures k !in c ==> k !in below
  {
    OverlayAt(below, c, k);
  }

  datatype Op =
    | Fetch(depth: nat, txid: Txid)
    | Uncache(depth: nat, txid: Txid)
    | Flush(depth: nat)
    | Replace(txid: Txid, coins: CoinRecord)
    | Create(txid: Txid, coinbase: bool, coins: CoinRecord)

  function Step(vs: seq<CoinsMap>, op: Op): (r: seq<CoinsMap>)
    requires vs != []
    ensures |r| == |vs|
  {
    match op
    case Fetch(_, _) => vs
    case Uncache(_, _) => vs
    case Flush(depth) => FlushedAt(vs, depth)
    case Replace(txid, c) => WithTop(vs, Put(vs[|vs| - 1], txid, Cleaned(c)))
    case Create(txid, _, c) => WithTop(vs, Put(vs[|vs| - 1], txid, Cleaned(c)))
  }

  function Steps(vs: seq<CoinsMap>, ops: seq<Op>): (r: seq<CoinsMap>)
    requires vs != []
    ensures |r| == |vs|
  {
    if ops == [] then vs else Step(Steps(vs, ops[..|ops| - 1]), ops[|ops| - 1])
  }

  /** BIP 30 on a whole run: a non-coinbase transaction is never created over unspent coins. */
  predicate Bip30(vs: seq<CoinsMap>, ops: seq<Op>)
    requires vs != []
  {
    forall i :: 0 <= i < |ops| && ops[i].Create? && !ops[i].coinbase ==>
      ops[i].txid !in Top(Steps(vs, ops[..i]))
  }

  function Top(vs: seq<CoinsMap>): CoinsMap { if vs == [] then map[] else vs[|vs| - 1] }

  /** Any run on any stack of caches shows, in every layer, what the plain maps show. */
  method Run(top: CoinsViewCache, ops: seq<Op>)
    requires top.Valid() && top.Idle() && Bip30(top.Views(), ops)
    modifies top.Repr
    ensures top.Valid() && top.Idle()
    ensures top.Views() == Steps(old(top.Views()), ops)
  {
    hide Overlay, Consistent, Put, Cleaned, FlushedAt, WithTop;
    ghost var vs := top.Views();
    for i := 0 to |ops|
      invariant top.Valid() && top.Idle()
      invariant top.Views() == Steps(vs, ops[..i])
    {
      assert ops[..i + 1][..i] == ops[..i];
      match ops[i]
      case Fetch(depth, txid) => top.FetchAt(depth, txid);
      case Uncache(depth, txid) => top.UncacheAt(depth, txid);
      case Flush(depth) => top.FlushAt(depth);
      case Replace(txid, c) => top.Replace(txid, c);
      case Create(txid, coinbase, c) => var _ := top.Create(txid, coinbase, c);
    }
    assert ops[..|ops|] == ops;
  }

  /** A best block can be lost: the top cache never looked it up before its flush. */
  method ForgottenBestBlock() returns (before: BlockHash, after: BlockHash)
    ensures before != after
  {
    var db := new CoinsViewDB();
    var middle := new CoinsViewCache.OnDisk(db);
    middle.SetBestBlock(7);
    before := middle.GetBestBlock();
    var top := new CoinsViewCache.OnCache(middle);
    assert middle.BaseBestBlock() == 0;
    var _ := top.Flush();
    after := top.GetBestBlock();
  }

  /** New coins over unspent older ones, spent before the modifier is closed: the older ones reappear. */
  method SpentCoinsReappear(c: CoinRecord) returns (top: CoinsViewCache, ghost between: CoinsMap)
    requires !c.IsPruned()
    ensures top.Linked() && !top.hasModifier && 1 !in between && Shows(top.View(), 1, c)
  {
    hide Consistent, Trimmed;
    var db := new CoinsViewDB();
    db.BatchWrite(map[1 := Entry(c, true, false)], 7);
    assert 1 in DirtyPart(map[1 := Entry(c, true, false)]);
    assert db.View() == map[1 := c];
    top := new CoinsViewCache.OnDisk(db);
    assert top.cacheCoins == map[];
    var ok := top.ModifyNewCoins(1, false);
    between := top.View();
    assert ok && !top.Valid();
    NothingToTrim();
    top.ReleaseModifier();
    assert top.cacheCoins == map[];
  }

  lemma NothingToTrim()
    ensures Cleaned(CLEARED) == CLEARED && CLEARED.IsPruned()
  {
  }
}

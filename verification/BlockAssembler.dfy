/**
 Block assembly, src/miner.cpp: first single transactions by priority, then packages (a
 transaction with its missing ancestors) by fee rate.

 The fee-rate order, priorities and free-transaction thresholds only decide which candidate
 comes next, so they are arbitrary choices here.  Whatever they are, assembly terminates,
 places every transaction after its ancestors and only once, and keeps the block below its
 weight and signature-operation limits; the side index of modified packages never understates
 what a package still needs; and when the candidates run out, what is left does not fit, except
 for packages that are refused because of outdated totals.
 */
module BlockAssembly {
  import opened Common
  import opened Mempool

  const MAX_BLOCK_WEIGHT := 4000000
  const MAX_BLOCK_SIGOPS := 80000
  const WITNESS_SCALE := 4
  const MAX_CONSECUTIVE_FAILURES := 1000

  /** What the index keeps for a package after some of its transactions went into the block. */
  type ModMap = map<TxId, Totals>

  // ---------------------------------------------------------------------------
  // The index of modified packages
  // ---------------------------------------------------------------------------

  /** The ancestors of a package that are in s. */
  function Taken(p: Pool, d: TxId, s: TxSet): TxSet { p.ancestors(d) * s }

  /**
   The totals of a package from which its ancestors in s were deducted.  Size and signature
   operations are those of the rest; of the fees, the first deduction is the adjusted one and all
   later ones are plain.
   */
  ghost predicate Deducted(p: Pool, d: TxId, e: Totals, s: TxSet) {
    && e.size == Sum(p.size, Remaining(p, d, s)) && e.sigops == Sum(p.sigops, Remaining(p, d, s))
    && (Taken(p, d, s) == {} ==> e.fees == Sum(p.modFee, Remaining(p, d, s)))
    && (Taken(p, d, s) != {} ==> exists first :: FeesDeducted(p, d, e.fees, s, first))
  }

  ghost predicate FeesDeducted(p: Pool, d: TxId, fees: int, s: TxSet, first: TxId) {
    && first in Taken(p, d, s)
    && fees == Sum(p.modFee, p.ancestors(d) + {d}) - p.modFee(first) - Sum(p.fee, Taken(p, d, s) - {first})
  }

  /** Totals from which only the included ancestors in s were deducted, but some, if any is included. */
  ghost predicate DatedBy(p: Pool, d: TxId, e: Totals, s: TxSet, block: TxSet) {
    s <= block && Deducted(p, d, e, s) && (Taken(p, d, s) == {} ==> Taken(p, d, block) == {})
  }

  ghost predicate Dated(p: Pool, d: TxId, e: Totals, block: TxSet) {
    exists s :: DatedBy(p, d, e, s, block)
  }

  /**
   Every entry has lost an ancestor to the block and holds dated totals; those of an entry that
   never failed are up to date.
   */
  ghost predicate EntriesOk(p: Pool, m: ModMap, failed: TxSet, block: TxSet) {
    forall d :: d in m ==>
      d in p.ids && d !in block && !(p.ancestors(d) !! block) && Dated(p, d, m[d], block) &&
      (d !in failed ==> Deducted(p, d, m[d], block))
  }

  ghost predicate EntryCovers(p: Pool, d: TxId, e: Totals, block: TxSet) {
    && d in p.ids && d !in block
    && e.size >= Sum(p.size, Remaining(p, d, block)) && e.sigops >= Sum(p.sigops, Remaining(p, d, block))
  }

  /** No fee was adjusted by the operator. */
  ghost predicate NoFeeDeltas(p: Pool) {
    forall t :: t in p.ids ==> p.fee(t) == p.modFee(t)
  }

  /** The pool's own totals are right for whatever is neither indexed nor failed. */
  ghost predicate Untouched(p: Pool, m: ModMap, failed: TxSet, block: TxSet, added: TxSet) {
    forall t :: t in p.ids && t !in block + added && t !in m && t !in failed ==> p.ancestors(t) !! block
  }

  function Minus(e: Totals, p: Pool, it: TxId, fee: int): Totals {
    Totals(e.size - p.size(it), e.fees - fee, e.sigops - p.sigops(it))
  }

  /** The index after one transaction went in: all its descendants outside the batch are adjusted. */
  ghost predicate AdjustedFor(p: Pool, it: TxId, added: TxSet, m: ModMap, m': ModMap) {
    && (forall d :: d in m' <==> d in m || IsDescendant(p, it, added, d))
    && (forall d :: d in m' ==>
          m'[d] == if !IsDescendant(p, it, added, d) && d in m then m[d]
                   else if d in m then Minus(m[d], p, it, p.fee(it)) else Minus(p.totals(d), p, it, p.modFee(it)))
  }

  predicate IsDescendant(p: Pool, it: TxId, added: TxSet, d: TxId) {
    d in p.ids && it in p.ancestors(d) && d !in added
  }

  lemma RemainingShrinks(p: Pool, d: TxId, block: TxSet, it: TxId, f: TxId -> int)
    requires it !in block
    ensures it in p.ancestors(d) + {d} ==> Sum(f, Remaining(p, d, block)) == f(it) + Sum(f, Remaining(p, d, block + {it}))
    ensures it !in p.ancestors(d) + {d} ==> Remaining(p, d, block) == Remaining(p, d, block + {it})
  {
    if it in p.ancestors(d) + {d} {
      SumRemove(f, Remaining(p, d, block), it);
      assert Remaining(p, d, block) - {it} == Remaining(p, d, block + {it});
    }
  }

  lemma Sizes(p: Pool)
    requires WellFormed(p)
    ensures forall t :: t in p.ids ==> p.size(t) >= 0 && p.sigops(t) >= 0 && 0 <= p.weight(t) <= 4 * p.size(t)
  {
    forall t | t in p.ids ensures p.size(t) >= 0 && p.sigops(t) >= 0 && 0 <= p.weight(t) <= 4 * p.size(t) {
      assert EntryOk(p, t);
    }
  }

  /** Dated totals never understate what is missing. */
  lemma DatedCovers(p: Pool, d: TxId, e: Totals, block: TxSet)
    requires WellFormed(p) && d in p.ids && d !in block && Dated(p, d, e, block)
    ensures EntryCovers(p, d, e, block)
  {
    hide Sum;
    var s :| DatedBy(p, d, e, s, block);
    assert EntryOk(p, d);
    Sizes(p);
    SumMonotone(p.size, Remaining(p, d, block), Remaining(p, d, s));
    SumMonotone(p.sigops, Remaining(p, d, block), Remaining(p, d, s));
  }

  /** One more ancestor is deducted. */
  lemma DeductOne(p: Pool, d: TxId, e: Totals, s: TxSet, it: TxId)
    requires Deducted(p, d, e, s) && it in p.ancestors(d) && it !in s && d !in s && d !in p.ancestors(d)
    ensures Deducted(p, d, Minus(e, p, it, if Taken(p, d, s) == {} then p.modFee(it) else p.fee(it)), s + {it})
  {
    hide Sum;
    RemainingShrinks(p, d, s, it, p.size);
    RemainingShrinks(p, d, s, it, p.sigops);
    var e' := Minus(e, p, it, if Taken(p, d, s) == {} then p.modFee(it) else p.fee(it));
    if Taken(p, d, s) == {} {
      assert Remaining(p, d, s) == p.ancestors(d) + {d};
      assert Taken(p, d, s + {it}) - {it} == {};
      EmptySum(p.fee);
      assert FeesDeducted(p, d, e'.fees, s + {it}, it);
    } else {
      var first :| FeesDeducted(p, d, e.fees, s, first);
      SumAdd(p.fee, Taken(p, d, s) - {first}, it);
      assert Taken(p, d, s) - {first} + {it} == Taken(p, d, s + {it}) - {first};
      assert FeesDeducted(p, d, e'.fees, s + {it}, first);
    }
  }

  lemma EmptySum(f: TxId -> int)
    ensures Sum(f, {}) == 0
  {
  }

  /** Only a package's own ancestors matter. */
  lemma DeductOther(p: Pool, d: TxId, e: Totals, s: TxSet, s': TxSet)
    requires Deducted(p, d, e, s) && Taken(p, d, s) == Taken(p, d, s') && (d in s <==> d in s')
    ensures Deducted(p, d, e, s')
  {
    hide Sum;
    forall x | x in p.ancestors(d) ensures x in s <==> x in s' {
      assert x in Taken(p, d, s) <==> x in Taken(p, d, s');
    }
    assert Remaining(p, d, s) == Remaining(p, d, s');
    if Taken(p, d, s) != {} {
      var first :| FeesDeducted(p, d, e.fees, s, first);
      assert FeesDeducted(p, d, e.fees, s', first);
    }
  }

  lemma CachedExact(p: Pool, d: TxId, s: TxSet)
    requires WellFormed(p) && d in p.ids && d !in s && p.ancestors(d) !! s
    ensures Deducted(p, d, p.totals(d), s)
  {
    hide Sum;
    assert EntryOk(p, d);
    assert Remaining(p, d, s) == p.ancestors(d) + {d};
  }

  /**
   The fees of an entry are right if and only if the adjustments of all deducted ancestors but the
   first cancel out; in general they are off by the sum of those adjustments.
   */
  lemma FeeDrift(p: Pool, d: TxId, e: Totals, s: TxSet, first: TxId)
    requires WellFormed(p) && d in p.ids && d !in s && FeesDeducted(p, d, e.fees, s, first)
    ensures var later := Taken(p, d, s) - {first};
      && e.fees == Sum(p.modFee, Remaining(p, d, s)) + Sum(p.modFee, later) - Sum(p.fee, later)
      && (e.fees == Sum(p.modFee, Remaining(p, d, s)) <==> Sum(p.modFee, later) == Sum(p.fee, later))
  {
    hide Sum;
    assert EntryOk(p, d);
    SumSplit(p.modFee, p.ancestors(d) + {d}, Taken(p, d, s));
    assert p.ancestors(d) + {d} - Taken(p, d, s) == Remaining(p, d, s);
    SumRemove(p.modFee, Taken(p, d, s), first);
  }

  lemma SumJoin(f: TxId -> int, a: TxSet, b: TxSet)
    requires a !! b
    ensures Sum(f, a + b) == Sum(f, a) + Sum(f, b)
  {
    SumSplit(f, a + b, a);
    assert a + b - a == b;
  }

  lemma {:induction false} SumFourfold(f: TxId -> int, g: TxId -> int, s: TxSet)
    requires forall t :: t in s ==> f(t) == 4 * g(t)
    ensures Sum(f, s) == 4 * Sum(g, s)
    decreases |s|
  {
    if s != {} {
      var x :| x in s;
      SumRemove(f, s, x);
      SumRemove(g, s, x);
      SumFourfold(f, g, s - {x});
    }
  }

  lemma FourfoldEach(f: TxId -> int, g: TxId -> int, s: TxSet, x: TxId)
    requires (forall t :: t in s ==> f(t) <= 4 * g(t)) && Sum(f, s) == 4 * Sum(g, s) && x in s
    ensures f(x) == 4 * g(x)
  {
    SumRemove(f, s, x);
    SumRemove(g, s, x);
    SumScaled(f, g, s - {x});
  }

  lemma {:induction false} SumSplit(f: TxId -> int, s: TxSet, part: TxSet)
    requires part <= s
    ensures Sum(f, s) == Sum(f, part) + Sum(f, s - part)
    decreases |part|
  {
    if part == {} {
      assert s - part == s;
    } else {
      var x :| x in part;
      SumRemove(f, s, x);
      SumRemove(f, part, x);
      SumSplit(f, s - {x}, part - {x});
      assert s - {x} - (part - {x}) == s - part;
    }
  }

  /** Without adjustments the fees of every entry are those of the rest it stands for. */
  lemma NoDriftWithoutDeltas(p: Pool, d: TxId, e: Totals, s: TxSet)
    requires WellFormed(p) && NoFeeDeltas(p) && d in p.ids && d !in s && Deducted(p, d, e, s)
    ensures e.fees == Sum(p.modFee, Remaining(p, d, s))
  {
    hide Sum;
    assert EntryOk(p, d);
    if Taken(p, d, s) != {} {
      var first :| FeesDeducted(p, d, e.fees, s, first);
      FeeDrift(p, d, e, s, first);
      SumEqual(p.modFee, p.fee, Taken(p, d, s) - {first});
    }
  }

  lemma {:induction false} SumEqual(f: TxId -> int, g: TxId -> int, s: TxSet)
    requires forall t :: t in s ==> f(t) == g(t)
    ensures Sum(f, s) == Sum(g, s)
    decreases |s|
  {
    if s != {} {
      var x :| x in s;
      SumRemove(f, s, x);
      SumRemove(g, s, x);
      SumEqual(f, g, s - {x});
    }
  }

  lemma AdjustUntouched(p: Pool, it: TxId, added: TxSet, m: ModMap, m': ModMap, failed: TxSet, block: TxSet)
    requires Untouched(p, m, failed, block, added) && AdjustedFor(p, it, added, m, m') && it in added
    ensures Untouched(p, m', failed, block + {it}, added)
  {
  }

  /** The invariant of the loop over the batch: part of it is accounted for. */
  ghost predicate IndexOk(p: Pool, m: ModMap, failed: TxSet, block: TxSet, added: TxSet) {
    EntriesOk(p, m, failed, block) && Untouched(p, m, failed, block, added) && m.Keys !! block + added
  }

  lemma AdjustIndex(p: Pool, it: TxId, base: TxSet, added: TxSet, m: ModMap, m': ModMap, failed: TxSet, block: TxSet)
    requires WellFormed(p) && Closed(p, base) && base <= block <= base + added && it in added && it !in block
    requires added <= p.ids && IndexOk(p, m, failed, block, added) && AdjustedFor(p, it, added, m, m')
    ensures IndexOk(p, m', failed, block + {it}, added)
  {
    hide Deducted, Dated, WellFormed, Closed, AdjustedFor, Untouched;
    AdjustUntouched(p, it, added, m, m', failed, block);
    forall d | d in m'
      ensures d in p.ids && d !in block + {it} + added && !(p.ancestors(d) !! block + {it})
      ensures Dated(p, d, m'[d], block + {it}) && (d !in failed ==> Deducted(p, d, m'[d], block + {it}))
    {
      AdjustKeys(p, it, base, added, m, m', failed, block, d);
      AdjustDated(p, it, added, m, m', failed, block, d);
      if d !in failed { AdjustExact(p, it, added, m, m', failed, block, d); }
    }
  }

  lemma AdjustKeys(p: Pool, it: TxId, base: TxSet, added: TxSet, m: ModMap, m': ModMap, failed: TxSet, block: TxSet,
                   d: TxId)
    requires Closed(p, base) && base <= block <= base + added && it in added && it !in block && d in m'
    requires IndexOk(p, m, failed, block, added) && AdjustedFor(p, it, added, m, m')
    ensures d in p.ids && d !in block + {it} + added && !(p.ancestors(d) !! block + {it})
  {
    hide Deducted, Dated, Untouched;
    if d !in m { assert IsDescendant(p, it, added, d); }
  }

  /** What an adjustment does to one entry. */
  lemma AdjustedEntry(p: Pool, it: TxId, added: TxSet, m: ModMap, m': ModMap, d: TxId)
    requires AdjustedFor(p, it, added, m, m') && d in m' && d in p.ids && d !in added
    ensures it !in p.ancestors(d) ==> d in m && m'[d] == m[d]
    ensures it in p.ancestors(d) ==>
      m'[d] == if d in m then Minus(m[d], p, it, p.fee(it)) else Minus(p.totals(d), p, it, p.modFee(it))
  {
    hide Minus;
    assert it in p.ancestors(d) <==> IsDescendant(p, it, added, d);
  }

  /** One transaction of the batch goes in: a descendant's entry accounts for it. */
  lemma AdjustDated(p: Pool, it: TxId, added: TxSet, m: ModMap, m': ModMap, failed: TxSet, block: TxSet, d: TxId)
    requires WellFormed(p) && it in added && it !in block && d in m' && d in p.ids && d !in block + {it} + added
    requires IndexOk(p, m, failed, block, added) && AdjustedFor(p, it, added, m, m')
    ensures Dated(p, d, m'[d], block + {it})
  {
    AdjustedEntry(p, it, added, m, m', d);
    hide Deducted, Dated, Untouched, AdjustedFor, Minus, WellFormed;
    if d in m {
      DatedStep(p, d, m[d], block, it);
    } else {
      FirstDated(p, d, block, it);
    }
  }

  lemma DatedStep(p: Pool, d: TxId, e: Totals, block: TxSet, it: TxId)
    requires WellFormed(p) && d in p.ids && d !in block && it !in block
    requires Dated(p, d, e, block) && !(p.ancestors(d) !! block)
    ensures Dated(p, d, if it in p.ancestors(d) then Minus(e, p, it, p.fee(it)) else e, block + {it})
  {
    hide DatedBy, Minus;
    assert EntryOk(p, d);
    hide WellFormed, EntryOk;
    var s :| DatedBy(p, d, e, s, block);
    if it in p.ancestors(d) {
      DatedByMore(p, d, e, s, block, it);
    } else {
      DatedByGrows(p, d, e, s, block, it);
    }
  }

  lemma DatedByMore(p: Pool, d: TxId, e: Totals, s: TxSet, block: TxSet, it: TxId)
    requires DatedBy(p, d, e, s, block) && !(p.ancestors(d) !! block)
    requires d !in p.ancestors(d) && d !in block && it in p.ancestors(d) && it !in block
    ensures DatedBy(p, d, Minus(e, p, it, p.fee(it)), s + {it}, block + {it})
  {
    hide Deducted, Minus;
    DeductOne(p, d, e, s, it);
    assert it in Taken(p, d, s + {it});
  }

  lemma DatedByGrows(p: Pool, d: TxId, e: Totals, s: TxSet, block: TxSet, it: TxId)
    requires DatedBy(p, d, e, s, block) && it !in p.ancestors(d)
    ensures DatedBy(p, d, e, s, block + {it})
  {
    hide Deducted;
    assert Taken(p, d, block + {it}) == Taken(p, d, block);
  }

  lemma FirstDated(p: Pool, d: TxId, block: TxSet, it: TxId)
    requires WellFormed(p) && d in p.ids && d !in block && it !in block && it in p.ancestors(d)
    ensures Dated(p, d, Minus(p.totals(d), p, it, p.modFee(it)), block + {it})
  {
    hide Deducted, Minus;
    CachedExact(p, d, {});
    assert EntryOk(p, d);
    hide WellFormed, EntryOk;
    DeductOne(p, d, p.totals(d), {}, it);
    assert it in Taken(p, d, {} + {it});
    assert DatedBy(p, d, Minus(p.totals(d), p, it, p.modFee(it)), {} + {it}, block + {it});
  }

  /** An entry that never failed stays up to date. */
  lemma AdjustExact(p: Pool, it: TxId, added: TxSet, m: ModMap, m': ModMap, failed: TxSet, block: TxSet, d: TxId)
    requires WellFormed(p) && it in added && it !in block && d in m' && d in p.ids && d !in block + {it} + added
    requires IndexOk(p, m, failed, block, added) && AdjustedFor(p, it, added, m, m') && d !in failed
    ensures Deducted(p, d, m'[d], block + {it})
  {
    AdjustedEntry(p, it, added, m, m', d);
    hide Deducted, Dated, AdjustedFor, Minus;
    assert EntryOk(p, d);
    hide WellFormed, EntryOk;
    if d !in m {
      assert p.ancestors(d) !! block;
      CachedExact(p, d, block);
    }
    ExactStep(p, d, if d in m then m[d] else p.totals(d), block, it);
  }

  lemma ExactStep(p: Pool, d: TxId, e: Totals, block: TxSet, it: TxId)
    requires d !in block + {it} && it !in block && d !in p.ancestors(d) && Deducted(p, d, e, block)
    ensures it in p.ancestors(d) ==>
      Deducted(p, d, Minus(e, p, it, if p.ancestors(d) !! block then p.modFee(it) else p.fee(it)), block + {it})
    ensures it !in p.ancestors(d) ==> Deducted(p, d, e, block + {it})
  {
    hide Deducted, Minus;
    if it in p.ancestors(d) {
      DeductOne(p, d, e, block, it);
    } else {
      assert Taken(p, d, block) == Taken(p, d, block + {it});
      DeductOther(p, d, e, block, block + {it});
    }
  }

  /** The inner loop: adjusts every descendant of one transaction. */
  method AdjustDescendants(p: Pool, it: TxId, added: TxSet, m: ModMap) returns (r: ModMap, updated: nat)
    requires it in added
    ensures AdjustedFor(p, it, added, m, r)
  {
    hide PartlyAdjusted, AdjustedFor;
    r, updated := m, 0;
    var rest := set d | d in p.ids && (d == it || it in p.ancestors(d));
    AdjustStart(p, it, added, m);
    while rest != {}
      invariant PartlyAdjusted(p, it, added, m, r, rest)
      invariant forall d :: d in rest ==> d in p.ids && (d == it || it in p.ancestors(d))
      decreases |rest|
    {
      var d :| d in rest;
      AdjustStep(p, it, added, m, r, rest, d);
      if d !in added {
        updated := updated + 1;
        if d !in r {
          r := r[d := Minus(p.totals(d), p, it, p.modFee(it))];
        } else {
          r := r[d := Minus(r[d], p, it, p.fee(it))];
        }
      }
      rest := rest - {d};
    }
    AdjustEnd(p, it, added, m, r);
  }

  lemma AdjustStart(p: Pool, it: TxId, added: TxSet, m: ModMap)
    ensures PartlyAdjusted(p, it, added, m, m, set d | d in p.ids && (d == it || it in p.ancestors(d)))
  {
  }

  lemma AdjustStep(p: Pool, it: TxId, added: TxSet, m: ModMap, r: ModMap, rest: TxSet, d: TxId)
    requires PartlyAdjusted(p, it, added, m, r, rest) && d in rest && d in p.ids && it in added
    requires d == it || it in p.ancestors(d)
    ensures d in added ==> PartlyAdjusted(p, it, added, m, r, rest - {d})
    ensures d !in added ==>
      PartlyAdjusted(p, it, added, m,
                     r[d := if d in r then Minus(r[d], p, it, p.fee(it)) else Minus(p.totals(d), p, it, p.modFee(it))],
                     rest - {d})
  {
    hide Minus;
  }

  lemma AdjustEnd(p: Pool, it: TxId, added: TxSet, m: ModMap, r: ModMap)
    requires PartlyAdjusted(p, it, added, m, r, {})
    ensures AdjustedFor(p, it, added, m, r)
  {
  }

  /** Descendants still in rest are as before. */
  ghost predicate PartlyAdjusted(p: Pool, it: TxId, added: TxSet, m: ModMap, r: ModMap, rest: TxSet) {
    && (forall d :: d in r <==> d in m || (IsDescendant(p, it, added, d) && d !in rest))
    && (forall d :: d in r ==>
          r[d] == if (!IsDescendant(p, it, added, d) || d in rest) && d in m then m[d]
                  else if d in m then Minus(m[d], p, it, p.fee(it)) else Minus(p.totals(d), p, it, p.modFee(it)))
  }

  /** Adjusts the index for a batch that just went into the block. */
  method UpdatePackagesForAdded(p: Pool, added: TxSet, m: ModMap, ghost base: TxSet, ghost failed: TxSet)
    returns (r: ModMap, nDescendantsUpdated: nat)
    requires WellFormed(p) && Closed(p, base) && base !! added && added <= p.ids
    requires IndexOk(p, m, failed, base, added)
    ensures IndexOk(p, r, failed, base + added, {}) && Reaches(p, added, added, m, r) && AtMostOne(p, added, added, m, r)
  {
    hide IndexOk, AdjustedFor, Closed, WellFormed, Reaches, IsPartOf, AtMostOne;
    r, nDescendantsUpdated := m, 0;
    var rest := added;
    ghost var block, part := base, {};
    ReachNone(p, added, m);
    NoneYet(p, added, m);
    PartStart(base, added);
    while rest != {}
      invariant IsPartOf(block, base, part, added, rest)
      invariant IndexOk(p, r, failed, block, added) && Reaches(p, part, added, m, r) && AtMostOne(p, part, added, m, r)
      decreases |rest|
    {
      var it :| it in rest;
      PartStep(block, base, part, added, rest, it);
      var r', updated := AdjustDescendants(p, it, added, r);
      AdjustIndex(p, it, base, added, r, r', failed, block);
      ReachStep(p, part, it, added, m, r, r');
      OneMore(p, part, it, added, m, r, r');
      r, nDescendantsUpdated := r', nDescendantsUpdated + updated;
      block, part, rest := block + {it}, part + {it}, rest - {it};
    }
    PartEnd(block, base, part, added);
    IndexDone(p, r, failed, block, added);
  }

  /** The batch is divided into what is accounted for, as part of the block, and the rest. */
  ghost predicate IsPartOf(block: TxSet, base: TxSet, part: TxSet, added: TxSet, rest: TxSet) {
    base !! added && block == base + part && part + rest == added && part !! rest
  }

  lemma PartStart(base: TxSet, added: TxSet)
    requires base !! added
    ensures IsPartOf(base, base, {}, added, added)
  {
  }

  lemma PartStep(block: TxSet, base: TxSet, part: TxSet, added: TxSet, rest: TxSet, it: TxId)
    requires IsPartOf(block, base, part, added, rest) && it in rest
    ensures IsPartOf(block + {it}, base, part + {it}, added, rest - {it})
    ensures base <= block <= base + added && it in added && it !in block && it !in part
  {
  }

  lemma PartEnd(block: TxSet, base: TxSet, part: TxSet, added: TxSet)
    requires IsPartOf(block, base, part, added, {})
    ensures part == added && block == base + added
  {
  }

  /** Nothing leaves the index, and every descendant of the part outside the batch is in it. */
  ghost predicate Reaches(p: Pool, part: TxSet, added: TxSet, m: ModMap, r: ModMap) {
    && (forall d :: d in m ==> d in r)
    && (forall d :: d in p.ids && d !in added && !(p.ancestors(d) !! part) ==> d in r)
  }

  lemma ReachNone(p: Pool, added: TxSet, m: ModMap)
    ensures Reaches(p, {}, added, m, m)
  {
  }

  lemma ReachStep(p: Pool, part: TxSet, it: TxId, added: TxSet, m: ModMap, r: ModMap, r': ModMap)
    requires Reaches(p, part, added, m, r) && AdjustedFor(p, it, added, r, r')
    ensures Reaches(p, part + {it}, added, m, r')
  {
    forall d | d in p.ids && d !in added && !(p.ancestors(d) !! part + {it}) ensures d in r' {
      if it in p.ancestors(d) { assert IsDescendant(p, it, added, d); }
    }
  }

  /** A batch of one transaction is one adjustment. */
  ghost predicate AtMostOne(p: Pool, part: TxSet, added: TxSet, m: ModMap, r: ModMap) {
    (part == {} ==> r == m) && (forall it :: part == {it} ==> AdjustedFor(p, it, added, m, r))
  }

  lemma NoneYet(p: Pool, added: TxSet, m: ModMap)
    ensures AtMostOne(p, {}, added, m, m)
  {
    hide AdjustedFor;
  }

  lemma OneMore(p: Pool, part: TxSet, it: TxId, added: TxSet, m: ModMap, r: ModMap, r': ModMap)
    requires AtMostOne(p, part, added, m, r) && AdjustedFor(p, it, added, r, r') && it !in part
    ensures AtMostOne(p, part + {it}, added, m, r')
  {
    hide AdjustedFor;
    forall x | part + {it} == {x} ensures AdjustedFor(p, x, added, m, r') {
      assert it in part + {it} && part <= part + {it};
      assert part == {};
    }
  }

  lemma IndexDone(p: Pool, m: ModMap, failed: TxSet, block: TxSet, added: TxSet)
    requires IndexOk(p, m, failed, block, added) && added <= block
    ensures IndexOk(p, m, failed, block, {})
  {
    assert block + added == block + {};
  }

  // ---------------------------------------------------------------------------
  // Ordering a package
  // ---------------------------------------------------------------------------

  function Elements(q: seq<TxId>): TxSet { set i | 0 <= i < |q| :: q[i] }

  predicate SortedByAncestors(p: Pool, q: seq<TxId>) {
    forall i, j :: 0 <= i < j < |q| ==> q[i] != q[j] && CountWithAncestors(p, q[i]) <= CountWithAncestors(p, q[j])
  }

  predicate IsLeast(p: Pool, s: TxSet, t: TxId) {
    t in s && forall u :: u in s ==> CountWithAncestors(p, t) <= CountWithAncestors(p, u)
  }

  /** Everything in q comes before everything in s. */
  predicate Before(p: Pool, q: seq<TxId>, s: TxSet) {
    forall i, u :: 0 <= i < |q| && u in s ==> CountWithAncestors(p, q[i]) <= CountWithAncestors(p, u)
  }

  lemma {:induction false} SomeLeast(p: Pool, s: TxSet) returns (t: TxId)
    requires s != {}
    ensures IsLeast(p, s, t)
    decreases |s|
  {
    t :| t in s;
    if s != {t} {
      assert s - {t} != {};
      var u := SomeLeast(p, s - {t});
      if CountWithAncestors(p, u) < CountWithAncestors(p, t) { t := u; }
    }
  }

  /** Sorts by ancestor count, which is enough for a valid order. */
  method SortForBlock(p: Pool, package: TxSet) returns (q: seq<TxId>)
    ensures Elements(q) == package && SortedByAncestors(p, q)
  {
    hide SortedByAncestors, Elements, IsLeast, Before;
    q := [];
    var rest := package;
    NothingSorted(p);
    while rest != {}
      invariant rest <= package && Elements(q) == package - rest && SortedByAncestors(p, q)
      invariant Before(p, q, rest)
      decreases |rest|
    {
      ghost var least := SomeLeast(p, rest);
      var t :| t in rest && IsLeast(p, rest, t);
      AppendSorted(p, q, t, rest);
      assert package - rest + {t} == package - (rest - {t});
      q := q + [t];
      rest := rest - {t};
    }
    assert package - {} == package;
  }

  lemma NothingSorted(p: Pool)
    ensures SortedByAncestors(p, []) && Elements([]) == {} && forall s :: Before(p, [], s)
  {
  }

  lemma AppendSorted(p: Pool, q: seq<TxId>, t: TxId, rest: TxSet)
    requires SortedByAncestors(p, q) && t !in Elements(q) && Before(p, q, rest) && IsLeast(p, rest, t)
    ensures SortedByAncestors(p, q + [t]) && Elements(q + [t]) == Elements(q) + {t} && Before(p, q + [t], rest - {t})
  {
    forall x ensures x in Elements(q + [t]) <==> x in Elements(q) + {t} {
      if x in Elements(q) {
        var i :| 0 <= i < |q| && q[i] == x;
        assert (q + [t])[i] == x;
      }
      if x == t { assert (q + [t])[|q|] == t; }
    }
    forall i | 0 <= i < |q| ensures q[i] != t { assert q[i] in Elements(q); }
  }

  /** In such an order every transaction comes after its ancestors. */
  lemma SortedPackageIsOrdered(p: Pool, block: TxSet, t: TxId, q: seq<TxId>, i: nat)
    requires WellFormed(p) && Closed(p, block) && t in p.ids && i < |q|
    requires Elements(q) == Remaining(p, t, block) && SortedByAncestors(p, q)
    ensures q[i] in p.ids && q[i] !in block && p.ancestors(q[i]) <= block + Elements(q[..i])
  {
    assert q[i] in Elements(q);
    ClosedPackage(p, block, t);
    var x := q[i];
    forall a | a in p.ancestors(x) ensures a in block + Elements(q[..i]) {
      if a !in block {
        assert a in Elements(q);
        var j :| 0 <= j < |q| && q[j] == a;
        AncestorCountsLess(p, x, a);
        assert j < i;
        assert q[..i][j] == a;
      }
    }
  }

  // ---------------------------------------------------------------------------
  // The assembler
  // ---------------------------------------------------------------------------

  function Fees(p: Pool, q: seq<TxId>): seq<int> { seq(|q|, i requires 0 <= i < |q| => p.fee(q[i])) }

  function Total(q: seq<int>): int {
    if q == [] then 0 else Total(q[..|q| - 1]) + q[|q| - 1]
  }

  /** Each transaction once, after its ancestors. */
  ghost predicate OrderedOnce(p: Pool, q: seq<TxId>) {
    && (forall i, j :: 0 <= i < j < |q| ==> q[i] != q[j])
    && (forall i :: 0 <= i < |q| ==> p.ancestors(q[i]) <= Elements(q[..i]))
  }

  /** One fee per transaction after the coinbase's place, and their total. */
  ghost predicate FeesMatch(p: Pool, q: seq<TxId>, fees: seq<int>, total: int) {
    |fees| == |q| + 1 && fees[1..] == Fees(p, q) && total == Total(fees[1..])
  }

  function Clamp(x: int, low: int, high: int): int { if x < low then low else if x > high then high else x }

  /** How full the block is. */
  datatype Level = Level(weight: int, sigops: int, size: int, sized: bool)

  predicate IsFuller(l: Level, l': Level) {
    l.weight <= l'.weight && l.sigops <= l'.sigops && l.sized == l'.sized && (l.sized ==> l.size <= l'.size)
  }

  /** The transactions of the pool's order that were passed. */
  ghost predicate IsSeen(order: seq<TxId>, mi: nat, seen: TxSet) { mi <= |order| && seen == Elements(order[..mi]) }

  datatype Outcome = Added | TooCheap | NoRoom | NotMinable

  /** Why the selection by priority ended. */
  datatype PriorityEnding = Disabled | Finished | Reached | AllConsidered

  /** Why the selection of packages ended. */
  datatype Ending = NothingLeft | PaysTooLittle | NearlyFull

  class BlockAssembler {
    const pool: Pool
    const includeWitness: bool
    const nBlockMaxWeight: int
    const nBlockMaxSize: int
    const minFee: int -> int          // the minimum fee for a package of a size

    var needSizeAccounting: bool
    var vtx: seq<TxId>                // the block, without the coinbase
    var vTxFees: seq<int>             // with the coinbase
    var inBlock: TxSet
    var nBlockWeight: int
    var nBlockSize: int
    var nBlockSigOps: int
    var nFees: int
    var lastFewTxs: int
    var blockFinished: bool

    /** Each transaction once, after all its ancestors; the counters are the sums. */
    ghost predicate Valid()
      reads this
    {
      && WellFormed(pool) && 4000 <= nBlockMaxWeight <= 3_996_000 && 1000 <= nBlockMaxSize <= 3_999_000
      && inBlock == Elements(vtx) && Closed(pool, inBlock) && OrderedOnce(pool, vtx)
      && nBlockWeight == 4000 + Sum(pool.weight, inBlock)
      && nBlockSigOps == 400 + Sum(pool.sigops, inBlock)
      && (needSizeAccounting ==> nBlockSize == 1000 + Sum(pool.bytes, inBlock)) && (vtx == [] ==> nBlockSize == 1000)
      && FeesMatch(pool, vtx, vTxFees, nFees)
    }

    /** Once anything is in the block it is strictly below its limits; all of it may be mined now. */
    ghost predicate WithinLimits()
      reads this
    {
      && (vtx != [] ==> nBlockWeight < nBlockMaxWeight && nBlockSigOps < MAX_BLOCK_SIGOPS)
      && (needSizeAccounting && vtx != [] ==> nBlockSize < nBlockMaxSize)
      && (forall t :: t in inBlock ==> Minable(t))
    }

    predicate Minable(t: TxId) { pool.isFinal(t) && (includeWitness || !pool.hasWitness(t)) }

    constructor (p: Pool, witness_: bool, maxWeight: int, maxSize: int, fee: int -> int)
      requires WellFormed(p)
      ensures Valid() && WithinLimits() && vtx == [] && inBlock == {} && vTxFees == [-1]
      ensures pool == p && includeWitness == witness_ && minFee == fee
      ensures nBlockMaxWeight == Clamp(maxWeight, 4000, MAX_BLOCK_WEIGHT - 4000)
      ensures nBlockMaxSize == Clamp(maxSize, 1000, MAX_BLOCK_WEIGHT - 1000)
      ensures needSizeAccounting <==> maxSize < MAX_BLOCK_WEIGHT - 1000
    {
      pool, includeWitness, minFee := p, witness_, fee;
      var capped := if maxWeight < MAX_BLOCK_WEIGHT - 4000 then maxWeight else MAX_BLOCK_WEIGHT - 4000;
      nBlockMaxWeight := if capped < 4000 then 4000 else capped;
      var cappedSize := if maxSize < MAX_BLOCK_WEIGHT - 1000 then maxSize else MAX_BLOCK_WEIGHT - 1000;
      var blockMaxSize := if cappedSize < 1000 then 1000 else cappedSize;
      nBlockMaxSize, needSizeAccounting := blockMaxSize, blockMaxSize < MAX_BLOCK_WEIGHT - 1000;
      vtx, vTxFees, inBlock := [], [-1], {};
      nBlockSize, nBlockWeight, nBlockSigOps := 1000, 4000, 400;
      nFees, lastFewTxs, blockFinished := 0, 0, false;
      new;
      assert [-1][1..] == [];
    }

    /** Empties the block, with room for the coinbase. */
    method ResetBlock()
      requires Valid()
      modifies this
      ensures Valid() && WithinLimits() && vtx == [] && vTxFees == [-1] && lastFewTxs == 0 && !blockFinished
      ensures needSizeAccounting == old(needSizeAccounting)
    {
      hide Sum, WellFormed, Elements, Closed, OrderedOnce, FeesMatch;
      vtx, vTxFees, inBlock := [], [-1], {};
      nBlockSize, nBlockWeight, nBlockSigOps := 1000, 4000, 400;
      nFees, lastFewTxs, blockFinished := 0, 0, false;
      EmptyBlock(pool);
    }

    lemma EmptyBlock(p: Pool)
      ensures Elements([]) == {} && Closed(p, {}) && OrderedOnce(p, []) && FeesMatch(p, [], [-1], 0)
      ensures Sum(p.weight, {}) == 0 && Sum(p.sigops, {}) == 0 && Sum(p.bytes, {}) == 0
    {
      assert [-1][1..] == [];
    }

    method AddToBlock(t: TxId)
      requires Valid() && t in pool.ids && t !in inBlock && pool.ancestors(t) <= inBlock
      modifies this`vtx, this`vTxFees, this`inBlock, this`nBlockSize, this`nBlockWeight, this`nBlockSigOps, this`nFees
      ensures Valid() && vtx == old(vtx) + [t] && inBlock == old(inBlock) + {t}
      ensures nBlockWeight == old(nBlockWeight) + pool.weight(t) && nBlockSigOps == old(nBlockSigOps) + pool.sigops(t)
      ensures needSizeAccounting ==> nBlockSize == old(nBlockSize) + pool.bytes(t)
    {
      hide Sum, WellFormed, EntryOk, Elements, OrderedOnce, FeesMatch, Closed;
      SumAdd(pool.weight, inBlock, t);
      SumAdd(pool.sigops, inBlock, t);
      SumAdd(pool.bytes, inBlock, t);
      ClosedAdd(pool, inBlock, t);
      OrderAppend(pool, vtx, t);
      FeesAppend(pool, vtx, vTxFees, nFees, t);
      vtx := vtx + [t];
      vTxFees := vTxFees + [pool.fee(t)];
      if needSizeAccounting { nBlockSize := nBlockSize + pool.bytes(t); }
      nBlockWeight := nBlockWeight + pool.weight(t);
      nBlockSigOps := nBlockSigOps + pool.sigops(t);
      nFees := nFees + pool.fee(t);
      inBlock := inBlock + {t};
    }

    // ----- single transactions by priority -----------------------------------

    method IsStillDependent(t: TxId) returns (dependent: bool)
      ensures dependent == !(pool.parents(t) <= inBlock)
    {
      var rest := pool.parents(t);
      while rest != {}
        invariant rest <= pool.parents(t) && pool.parents(t) - rest <= inBlock
        decreases |rest|
      {
        var parent :| parent in rest;
        if parent !in inBlock { return true; }
        rest := rest - {parent};
      }
      return false;
    }

    method TestForBlock(t: TxId) returns (fits: bool)
      modifies this`lastFewTxs, this`blockFinished
      ensures fits <==> SingleFits(t, Now())
      ensures Now() == old(Now()) && (old(Tracked()) ==> Tracked())
      ensures (old(Valid()) ==> Valid()) && (old(WithinLimits()) ==> WithinLimits())
      ensures
        var overWeight := nBlockWeight + pool.weight(t) >= nBlockMaxWeight;
        var overSize := !overWeight && needSizeAccounting && nBlockSize + pool.bytes(t) >= nBlockMaxSize;
        var overSigOps := !overWeight && !overSize && nBlockSigOps + pool.sigops(t) >= MAX_BLOCK_SIGOPS;
        var full := (overWeight && (nBlockWeight > nBlockMaxWeight - 400 || old(lastFewTxs) > 50)) ||
                    (overSize && (nBlockSize > nBlockMaxSize - 100 || old(lastFewTxs) > 50)) ||
                    (overSigOps && nBlockSigOps > MAX_BLOCK_SIGOPS - 8);
        && (blockFinished <==> old(blockFinished) || full)
        && (lastFewTxs == old(lastFewTxs) + 1 <==>
              !full && ((overWeight && nBlockWeight > nBlockMaxWeight - 4000) ||
                        (overSize && nBlockSize > nBlockMaxSize - 1000)))
        && (lastFewTxs == old(lastFewTxs) || lastFewTxs == old(lastFewTxs) + 1)
    {
      hide Sum, WellFormed, Elements, Closed, OrderedOnce, FeesMatch, Minable;
      if nBlockWeight + pool.weight(t) >= nBlockMaxWeight {
        if nBlockWeight > nBlockMaxWeight - 400 || lastFewTxs > 50 {
          blockFinished := true;
          return false;
        }
        if nBlockWeight > nBlockMaxWeight - 4000 { lastFewTxs := lastFewTxs + 1; }
        return false;
      }
      if needSizeAccounting {
        if nBlockSize + pool.bytes(t) >= nBlockMaxSize {
          if nBlockSize > nBlockMaxSize - 100 || lastFewTxs > 50 {
            blockFinished := true;
            return false;
          }
          if nBlockSize > nBlockMaxSize - 1000 { lastFewTxs := lastFewTxs + 1; }
          return false;
        }
      }
      if nBlockSigOps + pool.sigops(t) >= MAX_BLOCK_SIGOPS {
        if nBlockSigOps > MAX_BLOCK_SIGOPS - 8 { blockFinished := true; }
        return false;
      }
      return pool.isFinal(t);
    }

    /** A single transaction passes the tests at these levels. */
    predicate SingleFits(t: TxId, l: Level) {
      && l.weight + pool.weight(t) < nBlockMaxWeight && l.sigops + pool.sigops(t) < MAX_BLOCK_SIGOPS
      && (l.sized ==> l.size + pool.bytes(t) < nBlockMaxSize) && pool.isFinal(t)
    }

    /** It cannot go into the block, whatever else does. */
    predicate IsOut(t: TxId, l: Level) { (!includeWitness && pool.hasWitness(t)) || !SingleFits(t, l) }

    predicate IsNearlyFull(l: Level) {
      l.weight > nBlockMaxWeight - 4000 || (l.sized && l.size > nBlockMaxSize - 1000) || l.sigops > MAX_BLOCK_SIGOPS - 8
    }

    /** A block is called finished, or failures are counted, only when it is nearly full. */
    ghost predicate Tracked()
      reads this
    {
      (lastFewTxs > 0 || blockFinished) ==> IsNearlyFull(Now())
    }

    /** What is neither queued nor in the block cannot go in; what waits misses a parent. */
    ghost predicate ConsideredAt(queue: TxSet, waiting: TxSet, block: TxSet, l: Level) {
      forall t :: t in pool.ids && t !in block && t !in queue ==>
        if t in waiting then !(pool.parents(t) <= block) else IsOut(t, l)
    }

    ghost predicate Considered(queue: TxSet, waiting: TxSet)
      reads this
    {
      ConsideredAt(queue, waiting, inBlock, Now())
    }

    function PrioritySize(size: nat): int { if nBlockMaxSize < size then nBlockMaxSize else size }

    /** All of these may go in for free, and they leave some of the priority size. */
    ghost predicate IsFree(q: seq<TxId>, size: int, allowFree: TxId -> bool) {
      && (forall i :: 0 <= i < |q| ==> allowFree(q[i]))
      && (q != [] ==> LevelOf(Elements(q), true).size < size)
    }

    /**
     What the selection by priority put into the block, and why it ended: it is disabled; the block
     is nearly full; the last transaction, and no earlier one, used up the priority size or may not
     go in for free; or everything left is out or misses a parent.
     */
    ghost predicate PriorityPart(q: seq<TxId>, size: int, allowFree: TxId -> bool, ending: PriorityEnding) {
      var block := Elements(q);
      var l := LevelOf(block, true);
      match ending
      case Disabled => size == 0 && q == []
      case Finished => IsFree(q, size, allowFree) && IsNearlyFull(l)
      case Reached =>
        q != [] && IsFree(q[..|q| - 1], size, allowFree) && (l.size >= size || !allowFree(q[|q| - 1]))
      case AllConsidered =>
        && IsFree(q, size, allowFree)
        && forall t :: t in pool.ids && t !in block ==> IsOut(t, l) || !(pool.parents(t) <= block)
    }

    /** Adds transactions whose parents are in the block, in any order of priority. */
    method AddPriorityTxs(nBlockPrioritySize: nat, allowFree: TxId -> bool) returns (ending: PriorityEnding)
      requires Valid() && WithinLimits() && vtx == [] && lastFewTxs == 0 && !blockFinished
      modifies this
      ensures Valid() && WithinLimits()
      ensures needSizeAccounting == old(needSizeAccounting)
      ensures PriorityPart(vtx, PrioritySize(nBlockPrioritySize), allowFree, ending)
      ensures ending.Disabled? <==> PrioritySize(nBlockPrioritySize) == 0
    {
      hide Valid, WithinLimits, PriorityPart, Prioritizing;
      var prioritySize := if nBlockMaxSize < nBlockPrioritySize then nBlockMaxSize else nBlockPrioritySize;
      NothingInBlock(allowFree);
      if prioritySize == 0 { return Disabled; }
      var sizeAccounting := needSizeAccounting;
      SwitchAccounting(true);
      var queue, waiting, reached := pool.ids, {}, false;
      StartPriority(prioritySize, allowFree);
      while queue != {} && !blockFinished
        invariant Prioritizing(queue, waiting, prioritySize, allowFree) && !reached
        decreases |pool.ids - inBlock|, |queue|
      {
        var t :| t in queue;
        queue, waiting, reached := ConsiderSingle(t, queue, waiting, prioritySize, allowFree);
        if reached { break; }
      }
      if !reached { EndPriority(prioritySize, allowFree, queue, waiting); }
      ending := if reached then Reached else if blockFinished then Finished else AllConsidered;
      SwitchAccounting(sizeAccounting);
    }

    /** The state of the loop over single transactions. */
    ghost predicate Prioritizing(queue: TxSet, waiting: TxSet, size: int, allowFree: TxId -> bool)
      reads this
    {
      && Valid() && WithinLimits() && needSizeAccounting && Tracked()
      && Disjoint3(pool.ids, queue, waiting, inBlock) && Considered(queue, waiting) && IsFree(vtx, size, allowFree)
    }

    /** Considers one candidate; one that goes in may end the selection, or queues its children again. */
    method ConsiderSingle(t: TxId, queue: TxSet, waiting: TxSet, prioritySize: int, allowFree: TxId -> bool)
      returns (queue': TxSet, waiting': TxSet, reached: bool)
      requires Prioritizing(queue, waiting, prioritySize, allowFree) && t in queue
      modifies this
      ensures reached ==>
        Valid() && WithinLimits() && needSizeAccounting && PriorityPart(vtx, prioritySize, allowFree, Reached)
      ensures !reached ==> Prioritizing(queue', waiting', prioritySize, allowFree)
      ensures !reached ==>
        |pool.ids - inBlock| < old(|pool.ids - inBlock|) || (inBlock == old(inBlock) && |queue'| < |queue|)
    {
      hide Valid, WithinLimits, Disjoint3, ConsideredAt, IsFree, PriorityPart, Now, IsOut, Tracked, SingleFits, IsFuller;
      TakeFrom(pool.ids, queue, waiting, inBlock, t);
      ConsiderOne(queue, waiting, t);
      assert t !in inBlock;
      queue', waiting', reached := queue - {t}, waiting, false;
      if !includeWitness && pool.hasWitness(t) { return; }
      var dependent := IsStillDependent(t);
      if dependent {
        waiting' := waiting + {t};
        return;
      }
      ghost var before, was, level := inBlock, vtx, Now();
      var added := TryAdd(t);
      if !added {
        ConsiderOne(queue, waiting, t);
        return;
      }
      FewerLeft(pool.ids, before, inBlock, t);
      if nBlockSize >= prioritySize || !allowFree(t) {
        EndReached(prioritySize, allowFree, was, t);
        return queue', waiting', true;
      }
      StillFree(prioritySize, allowFree, was, t);
      var children := set c | c in waiting && t in pool.parents(c);
      MoveBack(pool.ids, queue', waiting, inBlock, children);
      ConsiderAgain(queue, waiting, children, before, level, t);
      queue', waiting' := queue' + children, waiting - children;
    }

    lemma StartPriority(size: int, allowFree: TxId -> bool)
      requires Valid() && WithinLimits() && needSizeAccounting
      requires vtx == [] && inBlock == {} && lastFewTxs == 0 && !blockFinished
      ensures Prioritizing(pool.ids, {}, size, allowFree)
    {
      hide Valid, WithinLimits, Sum, IsOut;
      StartQueue(pool.ids);
    }

    /** A candidate leaves the queue. */
    lemma ConsiderOne(queue: TxSet, waiting: TxSet, t: TxId)
      requires Considered(queue, waiting) && t !in waiting
      ensures IsOut(t, Now()) ==> Considered(queue - {t}, waiting)
      ensures !(pool.parents(t) <= inBlock) ==> Considered(queue - {t}, waiting + {t})
      ensures !includeWitness && pool.hasWitness(t) ==> IsOut(t, Now())
    {
      hide SingleFits, Now;
    }

    /** A transaction went in: its children are queued again, and the rest is as it was in a fuller block. */
    lemma ConsiderAgain(queue: TxSet, waiting: TxSet, children: TxSet, before: TxSet, level: Level, t: TxId)
      requires ConsideredAt(queue, waiting, before, level) && t in queue
      requires inBlock == before + {t} && IsFuller(level, Now())
      requires children == set c | c in waiting && t in pool.parents(c)
      ensures Considered(queue - {t} + children, waiting - children)
    {
      hide Now;
      forall x | x in pool.ids && x !in inBlock && x !in queue - {t} + children
        ensures if x in waiting - children then !(pool.parents(x) <= inBlock) else IsOut(x, Now())
      {
        assert x !in before && x !in queue;
      }
    }

    lemma StillFree(size: int, allowFree: TxId -> bool, was: seq<TxId>, t: TxId)
      requires Valid() && needSizeAccounting && vtx == was + [t] && IsFree(was, size, allowFree)
      requires nBlockSize < size && allowFree(t)
      ensures IsFree(vtx, size, allowFree)
    {
      hide Sum, Fees, Total, WellFormed, Elements;
    }

    lemma EndReached(size: int, allowFree: TxId -> bool, was: seq<TxId>, t: TxId)
      requires Valid() && needSizeAccounting && vtx == was + [t] && IsFree(was, size, allowFree)
      requires nBlockSize >= size || !allowFree(t)
      ensures PriorityPart(vtx, size, allowFree, Reached)
    {
      hide Sum, Fees, Total, WellFormed, Elements;
      assert vtx[..|vtx| - 1] == was;
    }

    lemma EndPriority(size: int, allowFree: TxId -> bool, queue: TxSet, waiting: TxSet)
      requires Prioritizing(queue, waiting, size, allowFree)
      ensures Valid() && WithinLimits() && needSizeAccounting
      ensures blockFinished ==> PriorityPart(vtx, size, allowFree, Finished)
      ensures queue == {} ==> PriorityPart(vtx, size, allowFree, AllConsidered)
    {
      hide Sum, Fees, Total, WellFormed, Elements, IsFree, IsOut;
      assert Now() == LevelOf(Elements(vtx), true);
    }

    method SwitchAccounting(on: bool)
      requires Valid() && WithinLimits() && (on ==> needSizeAccounting || vtx == [])
      modifies this`needSizeAccounting
      ensures Valid() && WithinLimits() && needSizeAccounting == on
      ensures vtx == old(vtx)
    {
      hide WellFormed, Fees, Total;
      SumEmpty(pool.bytes);
      needSizeAccounting := on;
    }

    /** Adds a transaction that does not depend on anything outside the block, if it fits. */
    method TryAdd(t: TxId) returns (added: bool)
      requires Valid() && WithinLimits() && t in pool.ids && t !in inBlock && pool.parents(t) <= inBlock
      requires (includeWitness || !pool.hasWitness(t)) && Tracked()
      modifies this
      ensures Valid() && WithinLimits() && needSizeAccounting == old(needSizeAccounting) && Tracked()
      ensures inBlock == if added then old(inBlock) + {t} else old(inBlock)
      ensures vtx == if added then old(vtx) + [t] else old(vtx)
      ensures added <==> SingleFits(t, old(Now()))
      ensures added ==> IsFuller(old(Now()), Now())
      ensures !added ==> Now() == old(Now()) && IsOut(t, Now())
    {
      hide Valid, WithinLimits, Tracked, WellFormed, IsFuller, SingleFits, Now;
      added := TestForBlock(t);
      if added { AddSingle(t); }
    }

    method AddSingle(t: TxId)
      requires Valid() && WithinLimits() && t in pool.ids && t !in inBlock && pool.parents(t) <= inBlock
      requires (includeWitness || !pool.hasWitness(t)) && Tracked() && SingleFits(t, Now())
      modifies this`vtx, this`vTxFees, this`inBlock, this`nBlockSize, this`nBlockWeight, this`nBlockSigOps, this`nFees
      ensures Valid() && WithinLimits() && Tracked() && IsFuller(old(Now()), Now())
      ensures inBlock == old(inBlock) + {t} && vtx == old(vtx) + [t]
    {
      hide Valid, Elements, Sum;
      AboutSingle(t);
      AddToBlock(t);
    }

    lemma AboutSingle(t: TxId)
      requires Valid() && t in pool.ids && pool.parents(t) <= inBlock
      ensures pool.ancestors(t) <= inBlock && pool.weight(t) >= 0 && pool.sigops(t) >= 0 && pool.bytes(t) >= 0
    {
      hide Sum, Elements, OrderedOnce, FeesMatch;
      assert EntryOk(pool, t);
      ParentsSuffice(pool, inBlock, t);
    }

    lemma NothingInBlock(allowFree: TxId -> bool)
      requires Valid() && vtx == []
      ensures inBlock == {} && PriorityPart(vtx, 0, allowFree, Disabled)
    {
    }

    // ----- packages by fee rate -----------------------------------------------

    method TestPackage(packageSize: int, packageSigOps: int) returns (ok: bool)
      ensures ok == (nBlockWeight + WITNESS_SCALE * packageSize < nBlockMaxWeight &&
                     nBlockSigOps + packageSigOps < MAX_BLOCK_SIGOPS)
    {
      if nBlockWeight + WITNESS_SCALE * packageSize >= nBlockMaxWeight { return false; }
      if nBlockSigOps + packageSigOps >= MAX_BLOCK_SIGOPS { return false; }
      return true;
    }

    ghost predicate Passes(package: TxSet)
      reads this
    {
      && (forall t :: t in package ==> Minable(t))
      && (needSizeAccounting && package != {} ==> nBlockSize + Sum(pool.bytes, package) < nBlockMaxSize)
    }

    method TestPackageTransactions(package: TxSet) returns (ok: bool)
      requires WellFormed(pool) && package <= pool.ids
      ensures ok <==> Passes(package)
    {
      hide Sum, Passes, WellFormed, Minable, Split;
      var potential, rest := nBlockSize, package;
      ghost var done: TxSet := {};
      PassesNothing(package);
      while rest != {}
        invariant Split(done, rest, package) && Passes(done)
        invariant needSizeAccounting ==> potential == nBlockSize + Sum(pool.bytes, done)
        decreases |rest|
      {
        var t :| t in rest;
        PassesNext(done, rest, package, t);
        if !pool.isFinal(t) { return false; }
        if !includeWitness && pool.hasWitness(t) { return false; }
        if needSizeAccounting {
          if potential + pool.bytes(t) >= nBlockMaxSize { return false; }
          potential := potential + pool.bytes(t);
        }
        done, rest := done + {t}, rest - {t};
      }
      SplitEnd(done, package);
      return true;
    }

    lemma PassesNothing(package: TxSet)
      ensures Passes({}) && Sum(pool.bytes, {}) == 0 && Split({}, package, package)
    {
    }

    lemma PassesNext(done: TxSet, rest: TxSet, package: TxSet, t: TxId)
      requires WellFormed(pool) && package <= pool.ids && Split(done, rest, package) && Passes(done) && t in rest
      ensures Split(done + {t}, rest - {t}, package) && (Passes(package) ==> Passes(done + {t}))
      ensures Sum(pool.bytes, done + {t}) == Sum(pool.bytes, done) + pool.bytes(t)
      ensures Passes(done + {t}) <==>
        && pool.isFinal(t) && (includeWitness || !pool.hasWitness(t))
        && (needSizeAccounting ==> nBlockSize + Sum(pool.bytes, done) + pool.bytes(t) < nBlockMaxSize)
    {
      hide Sum, WellFormed;
      SumAdd(pool.bytes, done, t);
      PassesPart(done + {t}, package);
      assert t in done + {t};
    }

    /** A package passes only when each part of it does. */
    lemma PassesPart(part: TxSet, package: TxSet)
      requires WellFormed(pool) && package <= pool.ids && part <= package && part != {}
      ensures Passes(package) ==> Passes(part)
    {
      hide Sum;
      forall t | t in package ensures pool.bytes(t) >= 0 { assert EntryOk(pool, t); }
      SumMonotone(pool.bytes, part, package);
    }

    /** Adds a package in a valid order and forgets its members in the index. */
    method AddPackage(t: TxId, packageSize: int, packageSigOps: int, m: ModMap) returns (r: ModMap)
      requires Valid() && WithinLimits() && t in pool.ids && t !in inBlock
      requires packageSize >= Sum(pool.size, Remaining(pool, t, inBlock))
      requires packageSigOps >= Sum(pool.sigops, Remaining(pool, t, inBlock))
      requires nBlockWeight + WITNESS_SCALE * packageSize < nBlockMaxWeight
      requires nBlockSigOps + packageSigOps < MAX_BLOCK_SIGOPS
      requires Passes(Remaining(pool, t, inBlock))
      modifies this
      ensures Valid() && WithinLimits() && needSizeAccounting == old(needSizeAccounting)
      ensures inBlock == old(inBlock) + Remaining(pool, t, old(inBlock)) && old(vtx) <= vtx
      ensures r == m - Remaining(pool, t, old(inBlock))
      ensures IsFuller(old(Now()), Now())
    {
      hide Valid, WithinLimits, Sum, SortedByAncestors, WellFormed, Closed, Elements;
      ghost var base, package := inBlock, Remaining(pool, t, inBlock);
      var sorted := SortForBlock(pool, Remaining(pool, t, inBlock));
      PackageFits(t, packageSize, packageSigOps);
      NothingAdded(sorted);
      r := m;
      assert m - {} == m && inBlock + {} == inBlock && package - {} == package;
      for i := 0 to |sorted|
        invariant Valid() && WithinLimits() && needSizeAccounting == old(needSizeAccounting)
        invariant inBlock == base + Elements(sorted[..i]) && r == m - Elements(sorted[..i]) && old(vtx) <= vtx
        invariant Fits(package - Elements(sorted[..i])) && IsFuller(old(Now()), Now())
      {
        PackageOrder(base, t, sorted, i);
        var x := sorted[i];
        NextInPackage(package, sorted, i);
        AddFitting(x, package - Elements(sorted[..i]));
        r := r - {x};
      }
      assert sorted[..|sorted|] == sorted;
    }

    /** The rest of a package still fits. */
    ghost predicate Fits(rest: TxSet)
      reads this
    {
      && (forall x :: x in rest ==> x in pool.ids && Minable(x))
      && nBlockWeight + Sum(pool.weight, rest) < nBlockMaxWeight
      && nBlockSigOps + Sum(pool.sigops, rest) < MAX_BLOCK_SIGOPS
      && (needSizeAccounting ==> nBlockSize + Sum(pool.bytes, rest) < nBlockMaxSize)
    }

    method AddFitting(x: TxId, ghost rest: TxSet)
      requires Valid() && WithinLimits() && Fits(rest) && x in rest && x !in inBlock && pool.ancestors(x) <= inBlock
      modifies this
      ensures Valid() && WithinLimits() && Fits(rest - {x}) && inBlock == old(inBlock) + {x} && vtx == old(vtx) + [x]
      ensures needSizeAccounting == old(needSizeAccounting)
      ensures IsFuller(old(Now()), Now())
    {
      hide Sum, Elements, Closed, Fees, Total;
      assert EntryOk(pool, x);
      hide EntryOk;
      SumRemove(pool.weight, rest, x);
      SumRemove(pool.sigops, rest, x);
      SumRemove(pool.bytes, rest, x);
      RestIsNotNegative(rest - {x});
      AddToBlock(x);
    }

    lemma RestIsNotNegative(rest: TxSet)
      requires WellFormed(pool) && rest <= pool.ids
      ensures Sum(pool.weight, rest) >= 0 && Sum(pool.sigops, rest) >= 0 && Sum(pool.bytes, rest) >= 0
    {
      Sizes(pool);
      forall t | t in rest ensures pool.bytes(t) >= 0 { assert EntryOk(pool, t); }
      SumMonotone(pool.bytes, {}, rest);
      SumMonotone(pool.weight, {}, rest);
      SumMonotone(pool.sigops, {}, rest);
    }

    lemma PackageFits(t: TxId, packageSize: int, packageSigOps: int)
      requires Valid() && t in pool.ids && t !in inBlock
      requires packageSize >= Sum(pool.size, Remaining(pool, t, inBlock))
      requires packageSigOps >= Sum(pool.sigops, Remaining(pool, t, inBlock))
      requires nBlockWeight + WITNESS_SCALE * packageSize < nBlockMaxWeight
      requires nBlockSigOps + packageSigOps < MAX_BLOCK_SIGOPS
      requires Passes(Remaining(pool, t, inBlock))
      ensures Fits(Remaining(pool, t, inBlock)) && WellFormed(pool) && Closed(pool, inBlock)
    {
      hide Sum, Elements, Fees, Total;
      var rest := Remaining(pool, t, inBlock);
      assert EntryOk(pool, t) && t in rest;
      Sizes(pool);
      SumScaled(pool.weight, pool.size, rest);
    }

    lemma PackageOrder(base: TxSet, t: TxId, sorted: seq<TxId>, i: nat)
      requires WellFormed(pool) && Closed(pool, base) && t in pool.ids && i < |sorted|
      requires Elements(sorted) == Remaining(pool, t, base) && SortedByAncestors(pool, sorted)
      ensures sorted[i] !in base + Elements(sorted[..i]) && pool.ancestors(sorted[i]) <= base + Elements(sorted[..i])
      ensures sorted[i] in Remaining(pool, t, base) - Elements(sorted[..i])
    {
      SortedPackageIsOrdered(pool, base, t, sorted, i);
      assert sorted[i] in Elements(sorted);
      forall j | 0 <= j < i ensures sorted[..i][j] != sorted[i] { }
    }

    lemma NothingAdded(sorted: seq<TxId>)
      ensures Elements(sorted[..0]) == {}
    {
    }

    lemma NextInPackage(package: TxSet, sorted: seq<TxId>, i: nat)
      requires i < |sorted|
      ensures Elements(sorted[..i + 1]) == Elements(sorted[..i]) + {sorted[i]}
      ensures package - Elements(sorted[..i + 1]) == package - Elements(sorted[..i]) - {sorted[i]}
    {
      var front, whole := sorted[..i], sorted[..i + 1];
      forall x ensures x in Elements(whole) <==> x in Elements(front) + {sorted[i]} {
        if x in Elements(front) {
          var j :| 0 <= j < |front| && front[j] == x;
          assert whole[j] == x;
        }
        if x == sorted[i] { assert whole[i] == x; }
      }
    }

    /** Tests one package and adds it; the index then accounts for it. */
    method TryPackage(t: TxId, e: Totals, m: ModMap, ghost failed: TxSet) returns (r: ModMap, fits: bool, added: bool)
      requires Valid() && WithinLimits() && IndexOk(pool, m, failed, inBlock, {}) && EntryCovers(pool, t, e, inBlock)
      modifies this
      ensures Valid() && WithinLimits() && needSizeAccounting == old(needSizeAccounting)
      ensures IndexOk(pool, r, failed, inBlock, {})
      ensures fits <==> old(nBlockWeight) + WITNESS_SCALE * e.size < nBlockMaxWeight &&
                        old(nBlockSigOps) + e.sigops < MAX_BLOCK_SIGOPS
      ensures added <==> fits && old(Passes(Remaining(pool, t, inBlock)))
      ensures inBlock == old(inBlock) + (if added then Remaining(pool, t, old(inBlock)) else {}) && old(vtx) <= vtx
      ensures !added ==> r == m
      ensures !added ==> Now() == old(Now())
      ensures added ==> IsFuller(old(Now()), Now())
      ensures added ==>
        var package := Remaining(pool, t, old(inBlock));
        Reaches(pool, package, package, m - package, r) && AtMostOne(pool, package, package, m - package, r)
    {
      hide Valid, WithinLimits, IndexOk, Passes, Sum, WellFormed, Closed, Reaches, AtMostOne;
      r, added := m, false;
      assert inBlock + {} == inBlock;
      fits := TestPackage(e.size, e.sigops);
      if !fits { return; }
      ghost var base := inBlock;
      var package := Remaining(pool, t, inBlock);
      AboutPackage(t);
      added := TestPackageTransactions(package);
      if !added { return; }
      r := AddPackage(t, e.size, e.sigops, m);
      EraseAdded(pool, m, failed, base, package);
      var n;
      r, n := UpdatePackagesForAdded(pool, package, r, base, failed);
    }

    lemma AboutPackage(t: TxId)
      requires Valid() && t in pool.ids
      ensures WellFormed(pool) && Closed(pool, inBlock) && Remaining(pool, t, inBlock) <= pool.ids
      ensures inBlock !! Remaining(pool, t, inBlock)
    {
      hide Sum, Fees, Total, Elements;
      assert EntryOk(pool, t);
    }

    // ----- nothing that fits is left out ---------------------------------------------

    /** A package would pass all tests at these levels. */
    ghost predicate Room(rest: TxSet, l: Level) {
      && l.weight + WITNESS_SCALE * Sum(pool.size, rest) < nBlockMaxWeight
      && l.sigops + Sum(pool.sigops, rest) < MAX_BLOCK_SIGOPS
      && (forall t :: t in rest ==> Minable(t))
      && (l.sized && rest != {} ==> l.size + Sum(pool.bytes, rest) < nBlockMaxSize)
    }

    ghost function Now(): Level
      reads this
    {
      Level(nBlockWeight, nBlockSigOps, nBlockSize, needSizeAccounting)
    }

    ghost predicate FitsAt(t: TxId, block: TxSet, l: Level) { Room(Remaining(pool, t, block), l) }

    /** The totals of a package without its ancestors in s do not pass. */
    ghost predicate TooBig(t: TxId, s: TxSet, l: Level) {
      || l.weight + WITNESS_SCALE * Sum(pool.size, Remaining(pool, t, s)) >= nBlockMaxWeight
      || l.sigops + Sum(pool.sigops, Remaining(pool, t, s)) >= MAX_BLOCK_SIGOPS
    }

    /** Some, but not all of the included ancestors were deducted, and these totals do not pass. */
    ghost predicate RefusedAsOutdated(t: TxId, s: TxSet, block: TxSet, l: Level) {
      s <= block && Taken(pool, t, s) != {} && Taken(pool, t, s) != Taken(pool, t, block) && TooBig(t, s, l)
    }

    /** How full a block of just these transactions is. */
    ghost function LevelOf(block: TxSet, sized: bool): Level {
      Level(4000 + Sum(pool.weight, block), 400 + Sum(pool.sigops, block), 1000 + Sum(pool.bytes, block), sized)
    }

    ghost predicate UnfitAt(t: TxId, block: TxSet, sized: bool) { !FitsAt(t, block, LevelOf(block, sized)) }

    /** The package did not fit into an earlier part of the block. */
    ghost predicate UnfitBefore(t: TxId, block: TxSet, sized: bool) {
      exists part :: part <= block && UnfitAt(t, part, sized)
    }

    ghost predicate AllUnfitBefore(failed: TxSet, block: TxSet, sized: bool) {
      forall t :: t in failed ==> UnfitBefore(t, block, sized)
    }

    /** The package does not fit; or it did not fit before, and then was refused because of outdated totals. */
    ghost predicate Refused(t: TxId, block: TxSet, l: Level) {
      !FitsAt(t, block, l) || (UnfitBefore(t, block, l.sized) && exists s :: RefusedAsOutdated(t, s, block, l))
    }

    /** Every transaction that was looked at or failed, and that waits in the index no more, is refused. */
    ghost predicate Settled(block: TxSet, l: Level, seen: TxSet, waiting: TxSet, failed: TxSet) {
      forall t :: t in pool.ids && t !in block && t !in waiting && (t in failed || t in seen) ==> Refused(t, block, l)
    }

    /** No transaction of the pool can go in any more. */
    ghost predicate Exhausted()
      reads this
    {
      forall t :: t in pool.ids && t !in inBlock ==> Refused(t, inBlock, Now())
    }

    /** A package outside the block pays less than the minimum for its size, by its dated totals. */
    ghost predicate IsCheap(t: TxId, e: Totals)
      reads this
    {
      t in pool.ids && t !in inBlock && Dated(pool, t, e, inBlock) && e.fees < minFee(e.size)
    }

    /** No ancestor weighs less than four times its size. */
    ghost predicate NoSlack(t: TxId) {
      forall a :: a in pool.ancestors(t) ==> pool.weight(a) == WITNESS_SCALE * pool.size(a)
    }

    /** Without such ancestors, or with at most one, nothing that fits is left. */
    lemma NothingFits(t: TxId)
      requires Valid() && WithinLimits() && Exhausted() && t in pool.ids && t !in inBlock
      requires |pool.ancestors(t)| <= 1 || NoSlack(t)
      ensures !FitsAt(t, inBlock, Now())
    {
      hide FitsAt, TooBig, Valid, WithinLimits, NoSlack, UnfitBefore;
      assert Refused(t, inBlock, Now());
      if |pool.ancestors(t)| <= 1 {
        forall s | s <= inBlock && Taken(pool, t, s) != {} ensures Taken(pool, t, s) == Taken(pool, t, inBlock) {
          var a :| a in Taken(pool, t, s);
          assert |pool.ancestors(t) - {a}| == 0;
        }
      } else {
        FitsBefore(t);
      }
    }

    /** Then a package that fits now has always fitted: what failed once is bound to fail again. */
    lemma FitsBefore(t: TxId)
      requires Valid() && WithinLimits() && t in pool.ids && t !in inBlock && NoSlack(t)
      ensures FitsAt(t, inBlock, Now()) ==> !UnfitBefore(t, inBlock, needSizeAccounting)
    {
      hide FitsAt, Valid, WithinLimits, NoSlack, UnfitAt;
      if FitsAt(t, inBlock, Now()) {
        forall part | part <= inBlock ensures !UnfitAt(t, part, needSizeAccounting) { FitsInPart(t, part); }
      }
    }

    lemma FitsInPart(t: TxId, part: TxSet)
      requires Valid() && WithinLimits() && t in pool.ids && t !in inBlock && NoSlack(t)
      requires FitsAt(t, inBlock, Now()) && part <= inBlock
      ensures !UnfitAt(t, part, needSizeAccounting)
    {
      hide Sum, Elements, Fees, Total, OrderedOnce, FeesMatch;
      assert EntryOk(pool, t);
      hide EntryOk;
      var later := pool.ancestors(t) * (inBlock - part);
      var rest := Remaining(pool, t, inBlock);
      assert Remaining(pool, t, part) == rest + later && rest !! later;
      NotMore(t, pool.weight, part, later);
      NotMore(t, pool.sigops, part, later);
      NotMore(t, pool.bytes, part, later);
      SumJoin(pool.size, rest, later);
      SumJoin(pool.sigops, rest, later);
      SumJoin(pool.bytes, rest, later);
      SumFourfold(pool.weight, pool.size, later);
    }

    ghost predicate TooHeavy(rest: TxSet, weight: int) {
      weight + WITNESS_SCALE * Sum(pool.size, rest) >= nBlockMaxWeight
    }

    /**
     The exact condition: when a part of a package goes in, the rest fails again at every level at
     which the whole failed, if and only if no transaction of that part has slack.
     */
    lemma FailsAgainExactly(rest: TxSet, later: TxSet)
      requires WellFormed(pool) && later <= rest <= pool.ids
      ensures (forall weight: int :: TooHeavy(rest, weight) ==> TooHeavy(rest - later, weight + Sum(pool.weight, later)))
         <==> (forall a :: a in later ==> pool.weight(a) == WITNESS_SCALE * pool.size(a))
    {
      hide Sum;
      Sizes(pool);
      SumSplit(pool.size, rest, later);
      SumScaled(pool.weight, pool.size, later);
      if forall weight: int :: TooHeavy(rest, weight) ==> TooHeavy(rest - later, weight + Sum(pool.weight, later)) {
        assert TooHeavy(rest, nBlockMaxWeight - WITNESS_SCALE * Sum(pool.size, rest));
        forall a | a in later ensures pool.weight(a) == WITNESS_SCALE * pool.size(a) {
          FourfoldEach(pool.weight, pool.size, later, a);
        }
      }
      if forall a :: a in later ==> pool.weight(a) == WITNESS_SCALE * pool.size(a) {
        SumFourfold(pool.weight, pool.size, later);
      }
    }

    /** A part and some more of the block add up to no more than the block. */
    lemma NotMore(t: TxId, f: TxId -> int, part: TxSet, later: TxSet)
      requires Valid() && part <= inBlock && later <= inBlock - part
      requires f == pool.weight || f == pool.sigops || f == pool.bytes
      ensures Sum(f, part) + Sum(f, later) <= Sum(f, inBlock)
    {
      hide Sum, Elements, Fees, Total, OrderedOnce, FeesMatch;
      forall x | x in inBlock ensures f(x) >= 0 { assert EntryOk(pool, x); }
      SumJoin(f, part, later);
      SumMonotone(f, part + later, inBlock);
    }

    lemma RoomShrinks(rest: TxSet, l: Level, l': Level)
      requires IsFuller(l, l') && Room(rest, l')
      ensures Room(rest, l)
    {
      hide Sum;
    }

    /** With up-to-date totals the tests decide whether the package fits. */
    lemma ExactTotalsDecide(t: TxId, e: Totals)
      requires Deducted(pool, t, e, inBlock)
      ensures FitsAt(t, inBlock, Now()) <==>
        && nBlockWeight + WITNESS_SCALE * e.size < nBlockMaxWeight && nBlockSigOps + e.sigops < MAX_BLOCK_SIGOPS
        && Passes(Remaining(pool, t, inBlock))
    {
      hide Sum, FeesDeducted;
    }

    /** A package that fails with dated totals, after it failed with others, is refused. */
    lemma FailedIsRefused(t: TxId, e: Totals)
      requires Dated(pool, t, e, inBlock) && t !in inBlock
      requires Deducted(pool, t, e, inBlock) || UnfitBefore(t, inBlock, needSizeAccounting)
      ensures !Refused(t, inBlock, Now()) ==>
        && nBlockWeight + WITNESS_SCALE * e.size < nBlockMaxWeight && nBlockSigOps + e.sigops < MAX_BLOCK_SIGOPS
        && Passes(Remaining(pool, t, inBlock))
    {
      hide Sum, FeesDeducted, UnfitBefore;
      var s :| DatedBy(pool, t, e, s, inBlock);
      if Deducted(pool, t, e, inBlock) {
        ExactTotalsDecide(t, e);
      } else if Taken(pool, t, s) == Taken(pool, t, inBlock) {
        DeductOther(pool, t, e, s, inBlock);
      } else if TooBig(t, s, Now()) {
        assert RefusedAsOutdated(t, s, inBlock, Now());
      }
    }

    /** A package that fails with up-to-date totals does not fit now. */
    lemma FailsFirst(t: TxId, e: Totals)
      requires Valid() && Deducted(pool, t, e, inBlock)
      ensures !UnfitBefore(t, inBlock, needSizeAccounting) ==>
        && nBlockWeight + WITNESS_SCALE * e.size < nBlockMaxWeight && nBlockSigOps + e.sigops < MAX_BLOCK_SIGOPS
        && Passes(Remaining(pool, t, inBlock))
    {
      hide Sum, FeesDeducted, Elements, Fees, Total, OrderedOnce, FeesMatch, Closed, WellFormed;
      if !UnfitBefore(t, inBlock, needSizeAccounting) { assert !UnfitAt(t, inBlock, needSizeAccounting); }
    }

    lemma FailedBefore(failed: TxSet, t: TxId)
      requires AllUnfitBefore(failed, inBlock, needSizeAccounting) && t in failed
      ensures UnfitBefore(t, inBlock, needSizeAccounting)
    {
      hide UnfitBefore;
    }

    lemma OneMoreFailed(failed: TxSet, t: TxId, block: TxSet, sized: bool)
      requires AllUnfitBefore(failed, block, sized) && UnfitBefore(t, block, sized)
      ensures AllUnfitBefore(failed + {t}, block, sized)
    {
      hide UnfitBefore;
    }

    lemma UnfitStays(failed: TxSet, block: TxSet, block': TxSet, sized: bool)
      requires AllUnfitBefore(failed, block, sized) && block <= block'
      ensures AllUnfitBefore(failed, block', sized)
    {
      hide UnfitAt;
      forall t | t in failed ensures UnfitBefore(t, block', sized) {
        assert UnfitBefore(t, block, sized);
        var part :| part <= block && UnfitAt(t, part, sized);
        assert part <= block';
      }
    }

    lemma SkipSettled(block: TxSet, l: Level, seen: TxSet, waiting: TxSet, failed: TxSet, t: TxId)
      requires Settled(block, l, seen, waiting, failed) && (t in waiting || t in block || t in failed)
      ensures Settled(block, l, seen + {t}, waiting, failed)
    {
      hide Refused;
    }

    lemma FailSettled(block: TxSet, l: Level, seen: TxSet, m: ModMap, failed: TxSet, t: TxId)
      requires Settled(block, l, seen, m.Keys, failed) && Refused(t, block, l)
      ensures Settled(block, l, seen, (m - {t}).Keys, failed + {t})
      ensures Settled(block, l, seen + {t}, m.Keys, failed)
    {
      hide Refused;
    }

    /** What stays outside the index after an addition lost no ancestor to it, and the block only got fuller. */
    lemma AddSettled(block: TxSet, l: Level, l': Level, seen: TxSet, m: ModMap, r: ModMap, failed: TxSet, t: TxId)
      requires Settled(block, l, seen, m.Keys, failed) && IsFuller(l, l')
      requires var package := Remaining(pool, t, block); Reaches(pool, package, package, m - package, r)
      ensures Settled(block + Remaining(pool, t, block), l', seen + {t}, r.Keys, failed)
      ensures Settled(block + Remaining(pool, t, block), l', seen, r.Keys, failed)
    {
      hide Refused;
      var package := Remaining(pool, t, block);
      var block' := block + package;
      forall x | x in pool.ids && x !in block' && x !in r.Keys && (x in failed || x in seen + {t})
        ensures Refused(x, block', l')
      {
        assert t in block' && x !in package && pool.ancestors(x) !! package && x !in m;
        RefusedStays(x, block, block', l, l');
      }
    }

    lemma RefusedStays(x: TxId, block: TxSet, block': TxSet, l: Level, l': Level)
      requires Refused(x, block, l) && IsFuller(l, l') && block <= block'
      requires x !in block' && pool.ancestors(x) !! block' - block
      ensures Refused(x, block', l')
    {
      hide Room, Sum;
      assert Remaining(pool, x, block') == Remaining(pool, x, block);
      assert Taken(pool, x, block') == Taken(pool, x, block);
      if FitsAt(x, block', l') {
        RoomShrinks(Remaining(pool, x, block), l, l');
        UnfitStays({x}, block, block', l.sized);
        assert UnfitBefore(x, block', l.sized);
        var s :| RefusedAsOutdated(x, s, block, l);
        assert RefusedAsOutdated(x, s, block', l');
      }
    }

    lemma AllSettled(order: seq<TxId>, seen: TxSet, failed: TxSet)
      requires Elements(order) == pool.ids && IsSeen(order, |order|, seen)
      requires Settled(inBlock, Now(), seen, {}, failed)
      ensures Exhausted()
    {
      hide Refused, Elements;
      assert order[..|order|] == order;
    }

    lemma SeeNext(order: seq<TxId>, mi: nat, seen: TxSet)
      requires IsSeen(order, mi, seen) && mi < |order|
      ensures IsSeen(order, mi + 1, seen + {order[mi]})
    {
      hide Elements;
      NextInPackage({}, order, mi);
    }

    /** The state of the selection loop. */
    ghost predicate Selecting(order: seq<TxId>, mi: nat, m: ModMap, failed: TxSet, seen: TxSet)
      reads this
    {
      && Valid() && WithinLimits() && IndexOk(pool, m, failed, inBlock, {})
      && Settled(inBlock, Now(), seen, m.Keys, failed) && IsSeen(order, mi, seen)
      && AllUnfitBefore(failed, inBlock, needSizeAccounting)
    }

    ghost function Left(): nat
      reads this
    {
      |pool.ids - inBlock|
    }

    /** SkipMapTxEntry: a candidate of the pool is passed over when the index, the block or a failure covers it. */
    lemma Skip(order: seq<TxId>, mi: nat, m: ModMap, failed: TxSet, seen: TxSet)
      requires Selecting(order, mi, m, failed, seen) && mi < |order|
      requires order[mi] in m || order[mi] in inBlock || order[mi] in failed
      ensures Selecting(order, mi + 1, m, failed, seen + {order[mi]})
    {
      hide Valid, WithinLimits, IndexOk, Settled, IsSeen;
      SeeNext(order, mi, seen);
      SkipSettled(inBlock, Now(), seen, m.Keys, failed, order[mi]);
    }

    lemma StartSelecting(order: seq<TxId>, m: ModMap)
      requires Valid() && WithinLimits() && IndexOk(pool, m, {}, inBlock, {})
      ensures Selecting(order, 0, m, {}, {})
    {
      hide Valid, WithinLimits, IndexOk, Refused;
    }

    lemma DoneSelecting(order: seq<TxId>, failed: TxSet, seen: TxSet)
      requires Selecting(order, |order|, map[], failed, seen) && Elements(order) == pool.ids
      ensures Exhausted()
    {
      hide Valid, WithinLimits, IndexOk, Settled, IsSeen, Elements;
      var nothing: ModMap := map[];
      assert nothing.Keys == {};
      AllSettled(order, seen, failed);
    }

    /**
     Adds packages until no candidate is left, the next one pays too little, or the block is nearly
     full.  When no candidate is left, nothing more goes in.
     */
    method AddPackageTxs(order: seq<TxId>) returns (nPackagesSelected: nat, ending: Ending)
      requires Valid() && WithinLimits() && Elements(order) == pool.ids
      modifies this
      ensures Valid() && WithinLimits() && needSizeAccounting == old(needSizeAccounting)
      ensures old(inBlock) <= inBlock && old(vtx) <= vtx
      ensures ending.NothingLeft? ==> Exhausted()
      ensures ending.PaysTooLittle? ==> exists t, e :: IsCheap(t, e)
      ensures ending.NearlyFull? ==> nBlockWeight > nBlockMaxWeight - 4000
    {
      hide *;
      nPackagesSelected := 0;
      var m := StartIndex(order);
      var failed: TxSet, mi, nConsecutiveFailed := {}, 0, 0;
      ghost var seen: TxSet := {};
      ghost var start, sized := inBlock, needSizeAccounting;
      while mi < |order| || m != map[]
        invariant 0 <= mi <= |order| && start <= inBlock && old(vtx) <= vtx && needSizeAccounting == sized
        invariant Selecting(order, mi, m, failed, seen)
        decreases Left(), |order| - mi + |m|
      {
        if mi < |order| && (order[mi] in m || order[mi] in inBlock || order[mi] in failed) {
          Skip(order, mi, m, failed, seen);
          seen := seen + {order[mi]};
          mi := mi + 1;
          continue;
        }
        var modifiedIsBetter: bool := *;
        var usingModified := mi == |order| || (m != map[] && modifiedIsBetter);
        var outcome: Outcome;
        m, failed, outcome, seen := ConsiderPackage(m, failed, order, mi, usingModified, seen);
        if outcome.TooCheap? {
          EndSelecting(order, mi, m, failed, seen);
          return nPackagesSelected, PaysTooLittle;
        }
        if !usingModified { mi := mi + 1; }
        if outcome.Added? {
          nConsecutiveFailed, nPackagesSelected := 0, nPackagesSelected + 1;
        } else if outcome.NoRoom? {
          nConsecutiveFailed := nConsecutiveFailed + 1;
          if nConsecutiveFailed > MAX_CONSECUTIVE_FAILURES && nBlockWeight > nBlockMaxWeight - 4000 {
            EndSelecting(order, mi, m, failed, seen);
            return nPackagesSelected, NearlyFull;
          }
        }
      }
      ending := NothingLeft;
      EndSelecting(order, mi, m, failed, seen);
      DoneSelecting(order, failed, seen);
    }

    lemma EndSelecting(order: seq<TxId>, mi: nat, m: ModMap, failed: TxSet, seen: TxSet)
      requires Selecting(order, mi, m, failed, seen)
      ensures Valid() && WithinLimits()
    {
      hide Valid, WithinLimits, IndexOk, Settled, IsSeen;
    }

    /** The index for what is in the block already. */
    method StartIndex(order: seq<TxId>) returns (m: ModMap)
      requires Valid() && WithinLimits()
      ensures Selecting(order, 0, m, {}, {})
    {
      hide *;
      EmptyIndex();
      var n;
      m, n := UpdatePackagesForAdded(pool, inBlock, map[], {}, {});
      assert {} + inBlock == inBlock;
      StartSelecting(order, m);
    }

    /** Considers one candidate; a failed one of the index leaves it. */
    method ConsiderPackage(m: ModMap, failed: TxSet, order: seq<TxId>, mi: nat, usingModified: bool, ghost seen: TxSet)
      returns (r: ModMap, failed': TxSet, outcome: Outcome, ghost seen': TxSet)
      requires Selecting(order, mi, m, failed, seen)
      requires mi <= |order| && Elements(order) == pool.ids && (if usingModified then m != map[] else mi < |order|)
      requires mi < |order| ==> order[mi] !in m && order[mi] !in inBlock && order[mi] !in failed
      modifies this
      ensures Selecting(order, if usingModified || outcome.TooCheap? then mi else mi + 1, r, failed', seen')
      ensures needSizeAccounting == old(needSizeAccounting) && old(inBlock) <= inBlock && old(vtx) <= vtx
      ensures outcome.Added? ==> Left() < old(Left())
      ensures outcome.TooCheap? ==> exists t, e :: IsCheap(t, e)
      ensures outcome.NotMinable? || outcome.NoRoom? ==>
        Left() == old(Left()) && (if usingModified then |r| < |m| else r == m)
    {
      hide Valid, WithinLimits, IndexOk, Settled, IsSeen, Sum, EntryCovers, Deducted, Dated, Elements, Remaining, Passes,
           Now, Refused, Reaches, IsFuller, UnfitBefore, AtMostOne, AllUnfitBefore;
      r, failed', seen' := m, failed, seen;
      var t, e := PickPackage(m, failed, order, mi, usingModified);
      if e.fees < minFee(e.size) {
        assert IsCheap(t, e);
        return r, failed', TooCheap, seen';
      }
      ghost var before, level := inBlock, Now();
      if t !in failed { FailsFirst(t, e); } else { FailedBefore(failed, t); }
      FailedIsRefused(t, e);
      var fits, added;
      r, fits, added := TryPackage(t, e, m, failed);
      if !usingModified {
        SeeNext(order, mi, seen);
        seen' := seen + {order[mi]};
      }
      if added {
        FewerAfterPackage(t, before);
        AddSettled(before, level, Now(), seen, m, r, failed, t);
        UnfitStays(failed, before, inBlock, needSizeAccounting);
        return r, failed', Added, seen';
      }
      assert inBlock == before;
      FailSettled(inBlock, Now(), seen, m, failed, t);
      if usingModified {
        DropFailed(pool, m, failed, inBlock, t);
        OneMoreFailed(failed, t, inBlock, needSizeAccounting);
        r, failed' := m - {t}, failed + {t};
      }
      outcome := if fits then NotMinable else NoRoom;
    }

    /** The whole assembly, after any earlier one; the coinbase pays out what the transactions pay in. */
    method CreateNewBlock(nBlockPrioritySize: nat, allowFree: TxId -> bool, order: seq<TxId>)
      returns (priority: PriorityEnding, ending: Ending, ghost first: nat)
      requires Valid() && Elements(order) == pool.ids
      modifies this
      ensures Valid() && WithinLimits() && needSizeAccounting == old(needSizeAccounting)
      ensures vtx != [] ==> nBlockWeight < 3_996_000 && nBlockSigOps < 80_000
      ensures |vTxFees| == |vtx| + 1 && vTxFees[0] == -nFees && Total(vTxFees) == 0
      ensures first <= |vtx| && PriorityPart(vtx[..first], PrioritySize(nBlockPrioritySize), allowFree, priority)
      ensures priority.Disabled? <==> PrioritySize(nBlockPrioritySize) == 0
      ensures ending.NothingLeft? ==> Exhausted()
      ensures ending.PaysTooLittle? ==> exists t, e :: IsCheap(t, e)
      ensures ending.NearlyFull? ==> nBlockWeight > nBlockMaxWeight - 4000
    {
      hide *;
      ResetBlock();
      priority := AddPriorityTxs(nBlockPrioritySize, allowFree);
      ghost var part := vtx;
      first := |vtx|;
      var nPackagesSelected;
      nPackagesSelected, ending := AddPackageTxs(order);
      assert vtx[..first] == part;
      PayCoinbase();
      ConsensusLimits();
    }

    lemma ConsensusLimits()
      requires Valid() && WithinLimits()
      ensures vtx != [] ==> nBlockWeight < 3_996_000 && nBlockSigOps < 80_000
    {
      hide Sum, WellFormed, Elements, Closed, OrderedOnce, FeesMatch, Minable;
    }

    method PayCoinbase()
      requires Valid() && WithinLimits()
      modifies this`vTxFees
      ensures Valid() && WithinLimits() && |vTxFees| == |vtx| + 1 && vTxFees[0] == -nFees && Total(vTxFees) == 0
      ensures old(Exhausted()) ==> Exhausted()
      ensures forall t, e :: old(IsCheap(t, e)) ==> IsCheap(t, e)
      ensures nBlockWeight == old(nBlockWeight)
    {
      hide Sum, WellFormed, Total, Fees, Elements;
      CoinbaseCancels(pool, vtx, vTxFees, nFees);
      vTxFees := vTxFees[0 := -nFees];
    }

    /** The next candidate: the best of the index, or the next one of the pool. */
    method PickPackage(m: ModMap, ghost failed: TxSet, order: seq<TxId>, mi: nat, usingModified: bool)
      returns (t: TxId, e: Totals)
      requires Valid() && IndexOk(pool, m, failed, inBlock, {}) && mi <= |order| && Elements(order) == pool.ids
      requires if usingModified then m != map[] else mi < |order|
      requires mi < |order| ==> order[mi] !in m && order[mi] !in inBlock && order[mi] !in failed
      ensures EntryCovers(pool, t, e, inBlock) && t !in inBlock && t in pool.ids
      ensures if usingModified then t in m else t == order[mi]
      ensures t !in failed ==> Deducted(pool, t, e, inBlock)
      ensures Dated(pool, t, e, inBlock)
    {
      hide Sum, Fees, Total, Deducted;
      if usingModified {
        t :| t in m;
        e := m[t];
      } else {
        t := order[mi];
        e := pool.totals(t);
        assert t in Elements(order);
        CachedExact(pool, t, inBlock);
        assert DatedBy(pool, t, e, inBlock, inBlock);
      }
      assert Dated(pool, t, e, inBlock);
      hide Dated, IndexOk;
      DatedCovers(pool, t, e, inBlock);
    }

    lemma EmptyIndex()
      requires Valid()
      ensures WellFormed(pool) && Closed(pool, {}) && inBlock <= pool.ids && IndexOk(pool, map[], {}, {}, inBlock)
    {
      hide Sum, Fees, Total, Elements;
    }

    lemma FewerAfterPackage(t: TxId, before: TxSet)
      requires t in pool.ids && t !in before && inBlock == before + Remaining(pool, t, before)
      ensures |pool.ids - inBlock| < |pool.ids - before| && before <= inBlock
    {
      assert t in pool.ids - before && t !in pool.ids - inBlock;
      SubsetSize(pool.ids - inBlock, pool.ids - before - {t});
    }
  }

  /** What just went in leaves the index before its descendants are adjusted. */
  lemma EraseAdded(p: Pool, m: ModMap, failed: TxSet, block: TxSet, package: TxSet)
    requires IndexOk(p, m, failed, block, {})
    ensures IndexOk(p, m - package, failed, block, package)
  {
    hide Sum, Dated, Deducted;
  }

  lemma DropFailed(p: Pool, m: ModMap, failed: TxSet, block: TxSet, t: TxId)
    requires IndexOk(p, m, failed, block, {}) && t in m
    ensures IndexOk(p, m - {t}, failed + {t}, block, {}) && |m - {t}| < |m|
  {
    hide Sum, Dated, Deducted;
    assert (m - {t}).Keys == m.Keys - {t};
  }

  /** Queued, waiting and included transactions are different ones. */
  predicate Disjoint3(ids: TxSet, queue: TxSet, waiting: TxSet, block: TxSet) {
    && (forall t :: t in queue ==> t in ids && t !in waiting && t !in block)
    && (forall t :: t in waiting ==> t in ids && t !in block)
  }

  lemma StartQueue(ids: TxSet)
    ensures Disjoint3(ids, ids, {}, {})
  {
  }

  lemma TakeFrom(ids: TxSet, queue: TxSet, waiting: TxSet, block: TxSet, t: TxId)
    requires Disjoint3(ids, queue, waiting, block) && t in queue
    ensures t in ids && t !in block && |queue - {t}| < |queue|
    ensures Disjoint3(ids, queue - {t}, waiting, block) && Disjoint3(ids, queue - {t}, waiting + {t}, block)
    ensures Disjoint3(ids, queue - {t}, waiting, block + {t})
  {
  }

  lemma MoveBack(ids: TxSet, queue: TxSet, waiting: TxSet, block: TxSet, moved: TxSet)
    requires Disjoint3(ids, queue, waiting, block) && moved <= waiting
    ensures Disjoint3(ids, queue + moved, waiting - moved, block)
  {
  }

  predicate Split(done: TxSet, rest: TxSet, all: TxSet) { done + rest == all && done !! rest }

  lemma SplitEnd(done: TxSet, all: TxSet)
    requires Split(done, {}, all)
    ensures done == all
  {
  }

  lemma SumEmpty(f: TxId -> int)
    ensures Sum(f, {}) == 0
  {
  }

  lemma FewerLeft(ids: TxSet, before: TxSet, after: TxSet, t: TxId)
    requires before <= after && t in ids && t !in before && t in after
    ensures |ids - after| < |ids - before|
  {
    SubsetSize(ids - after, ids - before - {t});
  }

  lemma OrderAppend(p: Pool, q: seq<TxId>, t: TxId)
    requires t !in Elements(q) && p.ancestors(t) <= Elements(q) && OrderedOnce(p, q)
    ensures Elements(q + [t]) == Elements(q) + {t} && OrderedOnce(p, q + [t])
  {
    var r := q + [t];
    forall x ensures x in Elements(r) <==> x in Elements(q) + {t} {
      if x in Elements(q) {
        var i :| 0 <= i < |q| && q[i] == x;
        assert r[i] == x;
      }
      if x == t { assert r[|q|] == t; }
    }
    forall i | 0 <= i < |q| ensures q[i] != t { assert q[i] in Elements(q); }
    forall i | 0 <= i < |r| ensures p.ancestors(r[i]) <= Elements(r[..i]) {
      if i < |q| { assert r[..i] == q[..i]; } else { assert r[..i] == q; }
    }
  }

  lemma FeesAppend(p: Pool, q: seq<TxId>, fees: seq<int>, total: int, t: TxId)
    requires FeesMatch(p, q, fees, total)
    ensures FeesMatch(p, q + [t], fees + [p.fee(t)], total + p.fee(t))
  {
    assert (fees + [p.fee(t)])[1..] == fees[1..] + [p.fee(t)];
    assert (fees[1..] + [p.fee(t)])[..|fees| - 1] == fees[1..];
  }

  lemma {:induction false} TotalFromFront(q: seq<int>)
    requires q != []
    ensures Total(q) == q[0] + Total(q[1..])
    decreases |q|
  {
    if |q| > 1 {
      TotalFromFront(q[..|q| - 1]);
      assert q[1..][..|q| - 2] == q[..|q| - 1][1..];
    }
  }

  /** Replacing the coinbase's entry by the negated total makes the fees of the whole block cancel. */
  lemma CoinbaseCancels(p: Pool, q: seq<TxId>, fees: seq<int>, total: int)
    requires FeesMatch(p, q, fees, total)
    ensures FeesMatch(p, q, fees[0 := -total], total) && Total(fees[0 := -total]) == 0
  {
    assert fees[0 := -total][1..] == fees[1..];
    TotalFromFront(fees[0 := -total]);
  }

  // ---------------------------------------------------------------------------
  // Two runs at one pool
  // ---------------------------------------------------------------------------

  /**
   Transaction 3 spends outputs of 1 and 2.  The size of 2 comes from its signature operations,
   so its weight is less than four times as much; the operator adjusted its fee by delta.
   */
  function TwoParents(delta: int): Pool {
    Pool({1, 2, 3}, t => if t == 3 then {1, 2} else {}, t => if t == 3 then {1, 2} else {},
         t => if t == 1 then 250 else if t == 2 then 500 else 300,
         t => if t == 3 then 1200 else 1000,
         t => if t == 2 then 100 else 0,
         t => if t == 1 then 1000 else if t == 2 then 100 else 1500,
         t => if t == 1 then 1000 else if t == 2 then 100 + delta else 1500,
         t => if t == 1 then Totals(250, 1000, 0) else if t == 2 then Totals(500, 100 + delta, 100)
              else Totals(1050, 2600 + delta, 100),
         t => 250, t => false, t => true)
  }

  lemma SumOne(f: TxId -> int, a: TxId)
    ensures Sum(f, {a}) == f(a)
  {
    SumAdd(f, {}, a);
    assert {} + {a} == {a};
  }

  lemma SumTwo(f: TxId -> int, a: TxId, b: TxId)
    requires a != b
    ensures Sum(f, {a, b}) == f(a) + f(b)
  {
    hide Sum;
    SumOne(f, a);
    SumAdd(f, {a}, b);
    assert {a} + {b} == {a, b};
  }

  lemma SumThree(f: TxId -> int)
    ensures Sum(f, {1, 2} + {3}) == f(1) + f(2) + f(3)
  {
    hide Sum;
    SumTwo(f, 1, 2);
    SumAdd(f, {1, 2}, 3);
  }

  lemma TwoParentsWellFormed(delta: int)
    ensures WellFormed(TwoParents(delta))
  {
    hide EntryOk;
    var p := TwoParents(delta);
    forall t | t in p.ids ensures EntryOk(p, t) {
      if t == 3 { ChildOk(delta); } else { ParentOk(delta, t); }
    }
  }

  lemma ChildOk(delta: int)
    ensures EntryOk(TwoParents(delta), 3)
  {
    hide Sum;
    var p := TwoParents(delta);
    SumThree(p.size);
    SumThree(p.sigops);
    SumThree(p.modFee);
    assert 1 in p.parents(3) && 2 in p.parents(3);
    assert ViaParent(p, 3, 1) && ViaParent(p, 3, 2);
  }

  lemma ParentOk(delta: int, t: TxId)
    requires t == 1 || t == 2
    ensures EntryOk(TwoParents(delta), t)
  {
    hide Sum;
    var p := TwoParents(delta);
    SumOne(p.size, t);
    SumOne(p.sigops, t);
    SumOne(p.modFee, t);
    assert p.ancestors(t) + {t} == {t};
  }

  /** An assembler for the pool, with no other limit than the weight, that holds s. */
  ghost predicate Holds(b: BlockAssembler, delta: int, maxWeight: int, s: TxSet)
    reads b
  {
    && b.Valid() && b.WithinLimits() && b.pool == TwoParents(delta) && b.inBlock == s
    && b.nBlockMaxWeight == maxWeight && !b.needSizeAccounting
  }

  method StartTwoParents(delta: int, maxWeight: int) returns (b: BlockAssembler)
    requires 4000 <= maxWeight <= MAX_BLOCK_WEIGHT - 4000
    ensures fresh(b) && Holds(b, delta, maxWeight, {})
  {
    TwoParentsWellFormed(delta);
    b := new BlockAssembler(TwoParents(delta), true, maxWeight, MAX_BLOCK_WEIGHT, size => 0);
  }

  /** A parent goes in by itself when there is room for four times its size. */
  method AddParent(b: BlockAssembler, t: TxId, ghost delta: int, ghost maxWeight: int, ghost s: TxSet, m: ModMap,
                   ghost failed: TxSet) returns (r: ModMap)
    requires Holds(b, delta, maxWeight, s) && IndexOk(b.pool, m, failed, s, {})
    requires (t == 1 || t == 2) && t !in s && s <= {1, 2} && 4000 + 4 * 750 < maxWeight
    modifies b
    ensures Holds(b, delta, maxWeight, s + {t}) && IndexOk(b.pool, r, failed, s + {t}, {})
    ensures AdjustedFor(b.pool, t, {t}, m - {t}, r)
  {
    hide AdjustedFor, IndexOk, Sum, WellFormed, Elements, Fees, Total, OrderedOnce, FeesMatch, Closed;
    ghost var p := b.pool;
    assert Remaining(p, t, s) == {t};
    SumOne(p.size, t);
    SumOne(p.sigops, t);
    SumOne(p.weight, 1);
    SumOne(p.weight, 2);
    SumOne(p.sigops, 1);
    SumOne(p.sigops, 2);
    EmptySum(p.weight);
    EmptySum(p.sigops);
    assert s == {} || s == {1} || s == {2};
    var fits, added;
    r, fits, added := b.TryPackage(t, b.pool.totals(t), m, failed);
  }

  lemma EmptyIndexOk(p: Pool)
    ensures IndexOk(p, map[], {}, {}, {})
  {
  }

  /** The child's entry after a parent went in. */
  lemma ChildIndexed(b: BlockAssembler, delta: int, maxWeight: int, s: TxSet, t: TxId, m: ModMap, r: ModMap)
    requires Holds(b, delta, maxWeight, s) && (t == 1 || t == 2) && AdjustedFor(b.pool, t, {t}, m - {t}, r)
    ensures var p := TwoParents(delta);
      3 in r && r[3] == if 3 in m then Minus(m[3], p, t, p.fee(t)) else Minus(p.totals(3), p, t, p.modFee(t))
  {
    hide BlockAssembler.Valid, BlockAssembler.WithinLimits;
    assert IsDescendant(b.pool, t, {t}, 3);
  }

  lemma ChildCovered(b: BlockAssembler, delta: int, maxWeight: int, s: TxSet, m: ModMap, failed: TxSet)
    requires Holds(b, delta, maxWeight, s) && 3 in m && IndexOk(b.pool, m, failed, s, {})
    ensures b.Valid() && b.WithinLimits() && EntryCovers(b.pool, 3, m[3], b.inBlock) && b.inBlock == s
    ensures IndexOk(b.pool, m - {3}, failed + {3}, s, {}) && b.nBlockMaxWeight == maxWeight && !b.needSizeAccounting
  {
    hide Sum, Elements, Fees, Total, OrderedOnce, FeesMatch, Closed, Dated, Untouched, EntryOk;
    DatedCovers(b.pool, 3, m[3], s);
    DropFailed(b.pool, m, failed, s, 3);
  }

  lemma StillHolds(b: BlockAssembler, delta: int, maxWeight: int, s: TxSet)
    requires b.Valid() && b.WithinLimits() && b.pool == TwoParents(delta) && b.inBlock == s
    requires b.nBlockMaxWeight == maxWeight && !b.needSizeAccounting
    ensures Holds(b, delta, maxWeight, s)
  {
  }

  lemma AboutHolds(b: BlockAssembler, delta: int, maxWeight: int, s: TxSet)
    requires Holds(b, delta, maxWeight, s)
    ensures b.Valid() && b.pool == TwoParents(delta) && b.inBlock == s && b.nBlockMaxWeight == maxWeight
  {
  }

  /** The child fails: its totals leave no room. */
  method FailChild(b: BlockAssembler, ghost delta: int, ghost maxWeight: int, ghost s: TxSet, m: ModMap,
                   ghost failed: TxSet) returns (r: ModMap)
    requires Holds(b, delta, maxWeight, s) && 3 in m && IndexOk(b.pool, m, failed, s, {})
    requires b.nBlockWeight + WITNESS_SCALE * m[3].size >= maxWeight
    modifies b
    ensures Holds(b, delta, maxWeight, s) && r == m - {3} && IndexOk(b.pool, r, failed + {3}, s, {})
  {
    hide Holds, IndexOk, EntryCovers, TwoParents, Remaining, Reaches, AtMostOne, BlockAssembler.Valid,
         BlockAssembler.WithinLimits, BlockAssembler.Passes, BlockAssembler.Now;
    ChildCovered(b, delta, maxWeight, s, m, failed);
    AboutHolds(b, delta, maxWeight, s);
    assert s + {} == s;
    var fits, added;
    r, fits, added := b.TryPackage(3, m[3], m, failed);
    r := m - {3};
    StillHolds(b, delta, maxWeight, s);
  }

  lemma WeightOf(b: BlockAssembler, delta: int, maxWeight: int)
    ensures Holds(b, delta, maxWeight, {1}) ==> b.nBlockWeight == 5000
    ensures Holds(b, delta, maxWeight, {1, 2}) ==> b.nBlockWeight == 6000 && b.nBlockSigOps == 500
  {
    hide Sum, WellFormed, Elements, Fees, Total, OrderedOnce, FeesMatch, Closed;
    var p := TwoParents(delta);
    SumOne(p.weight, 1);
    SumTwo(p.weight, 1, 2);
    SumTwo(p.sigops, 1, 2);
  }

  /** The child alone would fit. */
  lemma ChildFits(b: BlockAssembler)
    requires Holds(b, 0, 8000, {1, 2})
    ensures b.FitsAt(3, b.inBlock, b.Now())
  {
    WeightOf(b, 0, 8000);
    hide Sum, BlockAssembler.Valid, BlockAssembler.WithinLimits;
    assert Remaining(b.pool, 3, {1, 2}) == {3};
    SumOne(b.pool.size, 3);
    SumOne(b.pool.sigops, 3);
  }

  /**
   Once 1 is in, its child fails for want of room for 2 and 3 together.  When 2 has gone in alone,
   the child comes back with 1 counted again, and is refused although there is room for it.
   */
  method OutdatedTotalsRefuse() returns (b: BlockAssembler, refused: Totals)
    ensures b.Valid() && b.pool == TwoParents(0) && b.inBlock == {1, 2}
    ensures refused == Minus(b.pool.totals(3), b.pool, 2, b.pool.modFee(2))
    ensures b.nBlockWeight + WITNESS_SCALE * refused.size >= b.nBlockMaxWeight
    ensures b.FitsAt(3, b.inBlock, b.Now())
  {
    hide Holds, IndexOk, AdjustedFor, TwoParents, Minus, Sum, Remaining, BlockAssembler.Valid, BlockAssembler.FitsAt,
         BlockAssembler.Now;
    b := StartTwoParents(0, 8000);
    EmptyIndexOk(b.pool);
    var m := AddParent(b, 1, 0, 8000, {}, map[], {});
    ghost var p := TwoParents(0);
    assert {} + {1} == {1};
    ChildIndexed(b, 0, 8000, {1}, 1, map[], m);
    WeightOf(b, 0, 8000);
    ChildSizes();
    m := FailChild(b, 0, 8000, {1}, m, {});
    ghost var without := m;
    m := AddParent(b, 2, 0, 8000, {1}, m, {} + {3});
    assert {1} + {2} == {1, 2};
    ChildIndexed(b, 0, 8000, {1, 2}, 2, without, m);
    WeightOf(b, 0, 8000);
    refused := m[3];
    m := FailChild(b, 0, 8000, {1, 2}, m, {} + {3});
    AboutHolds(b, 0, 8000, {1, 2});
    WeightOf(b, 0, 8000);
    ChildFits(b);
  }

  lemma ChildSizes()
    ensures var p := TwoParents(0);
      && Minus(p.totals(3), p, 1, p.modFee(1)).size == 800
      && Minus(p.totals(3), p, 2, p.modFee(2)).size == 550
  {
  }

  /**
   Both parents go in one after the other.  The fees that the index keeps for the child are off by
   exactly the adjustment of the second one's fee.
   */
  method SecondDeductionDrifts(delta: int) returns (b: BlockAssembler, e: Totals)
    ensures b.Valid() && b.pool == TwoParents(delta) && b.inBlock == {1, 2}
    ensures e.fees == Sum(b.pool.modFee, Remaining(b.pool, 3, b.inBlock)) + delta
  {
    hide Holds, IndexOk, AdjustedFor, TwoParents, Minus, Sum, Remaining, BlockAssembler.Valid, BlockAssembler.FitsAt,
         BlockAssembler.Now;
    b := StartTwoParents(delta, 8000);
    EmptyIndexOk(b.pool);
    var m := AddParent(b, 1, delta, 8000, {}, map[], {});
    assert {} + {1} == {1};
    ChildIndexed(b, delta, 8000, {1}, 1, map[], m);
    ghost var before := m;
    m := AddParent(b, 2, delta, 8000, {1}, m, {});
    assert {1} + {2} == {1, 2};
    ChildIndexed(b, delta, 8000, {1, 2}, 2, before, m);
    AboutHolds(b, delta, 8000, {1, 2});
    e := m[3];
    ChildFees(delta);
  }

  lemma ChildFees(delta: int)
    ensures var p := TwoParents(delta);
      Minus(Minus(p.totals(3), p, 1, p.modFee(1)), p, 2, p.fee(2)).fees ==
      Sum(p.modFee, Remaining(p, 3, {1, 2})) + delta
  {
    hide Sum;
    var p := TwoParents(delta);
    assert Remaining(p, 3, {1, 2}) == {3};
    SumOne(p.modFee, 3);
  }
}

/**
 The memory pool as the block assembler sees it: a directed acyclic graph of transactions with
 correct ancestor sets, and sums over sets of transactions.
 */
module Mempool {
  import opened Common

  type TxId = nat
  type TxSet = set<TxId>

  /** The totals that the pool caches for a transaction together with its ancestors. */
  datatype Totals = Totals(size: int, fees: int, sigops: int)

  datatype Pool = Pool(
    ids: TxSet,
    parents: TxId -> TxSet,      // in-pool parents
    ancestors: TxId -> TxSet,    // in-pool ancestors, without the transaction itself
    size: TxId -> int,           // virtual size
    weight: TxId -> int,
    sigops: TxId -> int,
    fee: TxId -> int,
    modFee: TxId -> int,         // fee with the operator's priority adjustment
    totals: TxId -> Totals,
    bytes: TxId -> int,          // serialized size
    hasWitness: TxId -> bool,
    isFinal: TxId -> bool)

  /**
   Ancestors are the transitive closure of parents, the cached totals are right, and a weight is
   at most four times a virtual size.
   */
  ghost predicate WellFormed(p: Pool) {
    forall t :: t in p.ids ==> EntryOk(p, t)
  }

  ghost predicate EntryOk(p: Pool, t: TxId) {
    && p.ancestors(t) <= p.ids && t !in p.ancestors(t) && p.parents(t) <= p.ancestors(t)
    && (forall a :: a in p.ancestors(t) ==> p.ancestors(a) <= p.ancestors(t))
    && (forall a :: a in p.ancestors(t) ==> ViaParent(p, t, a))
    && p.totals(t).size == Sum(p.size, p.ancestors(t) + {t})
    && p.totals(t).sigops == Sum(p.sigops, p.ancestors(t) + {t})
    && p.totals(t).fees == Sum(p.modFee, p.ancestors(t) + {t})
    && 0 <= p.weight(t) <= 4 * p.size(t) && 0 <= p.sigops(t) && 0 <= p.bytes(t)
  }

  ghost predicate ViaParent(p: Pool, t: TxId, a: TxId) {
    exists q :: q in p.parents(t) && (a == q || a in p.ancestors(q))
  }

  // ---------------------------------------------------------------------------
  // Sums
  // ---------------------------------------------------------------------------

  ghost function Sum(f: TxId -> int, s: TxSet): int {
    if s == {} then 0 else var x :| x in s; f(x) + Sum(f, s - {x})
  }

  lemma {:induction false} SumRemove(f: TxId -> int, s: TxSet, x: TxId)
    requires x in s
    ensures Sum(f, s) == f(x) + Sum(f, s - {x})
    decreases |s|
  {
    var y :| y in s && Sum(f, s) == f(y) + Sum(f, s - {y});
    if y != x {
      SumRemove(f, s - {y}, x);
      SumRemove(f, s - {x}, y);
      assert s - {y} - {x} == s - {x} - {y};
    }
  }

  lemma SumAdd(f: TxId -> int, s: TxSet, x: TxId)
    requires x !in s
    ensures Sum(f, s + {x}) == f(x) + Sum(f, s)
  {
    SumRemove(f, s + {x}, x);
    assert s + {x} - {x} == s;
  }

  lemma {:induction false} SumMonotone(f: TxId -> int, a: TxSet, b: TxSet)
    requires a <= b && forall t :: t in b ==> f(t) >= 0
    ensures 0 <= Sum(f, a) <= Sum(f, b)
    decreases |b|
  {
    if b != {} {
      var x :| x in b;
      SumRemove(f, b, x);
      if x in a {
        SumRemove(f, a, x);
        SumMonotone(f, a - {x}, b - {x});
      } else {
        SumMonotone(f, a, b - {x});
      }
    }
  }

  lemma {:induction false} SumScaled(f: TxId -> int, g: TxId -> int, s: TxSet)
    requires forall t :: t in s ==> f(t) <= 4 * g(t)
    ensures Sum(f, s) <= 4 * Sum(g, s)
    decreases |s|
  {
    if s != {} {
      var x :| x in s;
      SumRemove(f, s, x);
      SumRemove(g, s, x);
      SumScaled(f, g, s - {x});
    }
  }

  // ---------------------------------------------------------------------------
  // Ancestor counts order the graph
  // ---------------------------------------------------------------------------

  function CountWithAncestors(p: Pool, t: TxId): nat { |p.ancestors(t)| + 1 }

  /** An ancestor has a smaller count, so sorting by count puts it first. */
  lemma AncestorCountsLess(p: Pool, t: TxId, a: TxId)
    requires WellFormed(p) && t in p.ids && a in p.ancestors(t)
    ensures CountWithAncestors(p, a) < CountWithAncestors(p, t)
  {
    assert EntryOk(p, t) && EntryOk(p, a);
    SubsetSize(p.ancestors(a), p.ancestors(t) - {a});
  }

  // ---------------------------------------------------------------------------
  // Blocks and what is left of a package
  // ---------------------------------------------------------------------------

  ghost predicate Closed(p: Pool, s: TxSet) {
    s <= p.ids && forall t :: t in s ==> p.ancestors(t) <= s
  }

  /** What a transaction still needs once s is in the block. */
  function Remaining(p: Pool, t: TxId, s: TxSet): TxSet { p.ancestors(t) + {t} - s }

  /** A transaction whose parents are all in a closed set has all its ancestors there. */
  lemma ParentsSuffice(p: Pool, s: TxSet, t: TxId)
    requires WellFormed(p) && Closed(p, s) && t in p.ids && p.parents(t) <= s
    ensures p.ancestors(t) <= s
  {
    assert EntryOk(p, t);
    forall a | a in p.ancestors(t) ensures a in s {
      assert ViaParent(p, t, a);
      var q :| q in p.parents(t) && (a == q || a in p.ancestors(q));
    }
  }

  lemma ClosedAdd(p: Pool, s: TxSet, t: TxId)
    requires Closed(p, s) && t in p.ids && p.ancestors(t) <= s
    ensures Closed(p, s + {t})
  {
  }

  /** The package of a transaction, with what is in the block already, is closed. */
  lemma ClosedPackage(p: Pool, s: TxSet, t: TxId)
    requires WellFormed(p) && Closed(p, s) && t in p.ids
    ensures Closed(p, s + Remaining(p, t, s))
  {
    var u := s + Remaining(p, t, s);
    assert forall x :: x in u <==> x in s || x in p.ancestors(t) || x == t;
    hide EntryOk, WellFormed;
    forall x | x in u ensures x in p.ids && p.ancestors(x) <= u {
      if x in s { assert p.ancestors(x) <= s; }
      else if x != t { AncestorsNest(p, t, x); }
    }
  }

  lemma AncestorsNest(p: Pool, t: TxId, a: TxId)
    requires WellFormed(p) && t in p.ids && a in p.ancestors(t)
    ensures a in p.ids && p.ancestors(a) <= p.ancestors(t)
  {
    assert EntryOk(p, t);
  }
}

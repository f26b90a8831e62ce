/**
 The Merkle root of a block, src/consensus/merkle.cpp.

 The root is defined on lists: neighbours are hashed together, the last one with itself when
 the length is odd, until one is left.  The calculator of the source keeps one hash for each one
 bit of the number of leaves seen so far; it computes this root, the branch from a leaf to it,
 and whether two equal neighbours were hashed together.  That last test makes the root binding:
 two lists of the same height that both pass it and have the same root are equal.
 */
module Merkle {
  import opened IntMath

  type PairHash<!T> = (T, T) -> T

  ghost predicate CollisionFree<T(!new)>(H: PairHash<T>) {
    forall a, b, c, d :: H(a, b) == H(c, d) ==> a == c && b == d
  }

  // ---------------------------------------------------------------------------
  // The root of a list
  // ---------------------------------------------------------------------------

  /** The next level of the tree. */
  function Paired<T>(H: PairHash<T>, x: seq<T>): (r: seq<T>)
    ensures |r| == (|x| + 1) / 2
  {
    seq((|x| + 1) / 2, i requires 0 <= i < (|x| + 1) / 2 => H(x[2 * i], if 2 * i + 1 < |x| then x[2 * i + 1] else x[2 * i]))
  }

  function MerkleRoot<T>(H: PairHash<T>, x: seq<T>): T
    requires x != []
    decreases |x|
  {
    if |x| == 1 then x[0] else MerkleRoot(H, Paired(H, x))
  }

  function Level<T>(H: PairHash<T>, x: seq<T>, k: nat): seq<T>
    decreases k
  {
    if k == 0 then x else Level(H, Paired(H, x), k - 1)
  }

  lemma {:induction false} LevelNext<T>(H: PairHash<T>, x: seq<T>, k: nat)
    ensures Level(H, x, k + 1) == Paired(H, Level(H, x, k))
    decreases k
  {
    if k > 0 { LevelNext(H, Paired(H, x), k - 1); }
  }

  /** How often n halves, rounding up, until one node is left. */
  function TreeHeight(n: nat): nat {
    if n <= 1 then 0 else 1 + TreeHeight((n + 1) / 2)
  }

  /** The number of nodes at a level: n divided by 2^k, rounded up. */
  function Width(n: nat, k: nat): nat {
    if k == 0 then n else Width((n + 1) / 2, k - 1)
  }

  lemma {:induction false} LevelWidth<T>(H: PairHash<T>, x: seq<T>, k: nat)
    ensures |Level(H, x, k)| == Width(|x|, k)
    decreases k
  {
    if k > 0 { LevelWidth(H, Paired(H, x), k - 1); }
  }

  lemma {:induction false} RootIsTop<T>(H: PairHash<T>, x: seq<T>)
    requires x != []
    ensures var top := Level(H, x, TreeHeight(|x|)); |top| == 1 && top[0] == MerkleRoot(H, x)
    decreases |x|
  {
    if |x| > 1 { RootIsTop(H, Paired(H, x)); }
  }

  // ---------------------------------------------------------------------------
  // Complete nodes
  // ---------------------------------------------------------------------------

  /** n divided by 2^k, rounded down: the number of complete nodes at a level. */
  function Shr(n: nat, k: nat): nat {
    if k == 0 then n else Shr(n / 2, k - 1)
  }

  lemma {:induction false} ShrNext(n: nat, k: nat)
    ensures Shr(n, k + 1) == Shr(n, k) / 2
    decreases k
  {
    if k > 0 { ShrNext(n / 2, k - 1); }
  }

  /** All nodes of a level are complete, but for at most the last one. */
  lemma {:induction false} CompleteOrLast(n: nat, k: nat)
    ensures Shr(n, k) <= Width(n, k) <= Shr(n, k) + 1
    decreases k
  {
    if k > 0 {
      CompleteOrLast(n / 2, k - 1);
      CompleteOrLast((n + 1) / 2, k - 1);
      if n % 2 == 1 { OneMore(n / 2, k - 1); }
    }
  }

  lemma {:induction false} OneMore(n: nat, k: nat)
    ensures Shr(n, k) <= Shr(n + 1, k) <= Shr(n, k) + 1 && Width(n, k) <= Width(n + 1, k) <= Shr(n, k) + 1
    decreases k
  {
    if k > 0 {
      if n % 2 == 0 {
        OneMore(n / 2, k - 1);
        assert (n + 1) / 2 == n / 2 && (n + 2) / 2 == n / 2 + 1;
      } else {
        OneMore(n / 2, k - 1);
        assert (n + 1) / 2 == n / 2 + 1 == (n + 2) / 2;
      }
    }
  }

  // ---------------------------------------------------------------------------
  // What the duplicate test is for
  // ---------------------------------------------------------------------------

  /** Two complete neighbours are equal. */
  predicate TwinsAt<T(==)>(H: PairHash<T>, x: seq<T>, k: nat, p: nat) {
    var level := Level(H, x, k);
    2 * p + 2 <= Shr(|x|, k) && 2 * p + 1 < |level| && level[2 * p] == level[2 * p + 1]
  }

  ghost predicate IsMutated<T>(H: PairHash<T>, x: seq<T>) { exists k, p :: TwinsAt(H, x, k, p) }

  /** Two neighbours are equal, complete or not. */
  ghost predicate HasTwins<T>(H: PairHash<T>, x: seq<T>)
    decreases |x|
  {
    (exists i :: 0 <= i && 2 * i + 1 < |x| && x[2 * i] == x[2 * i + 1]) || (|x| > 1 && HasTwins(H, Paired(H, x)))
  }

  lemma Injective<T(!new)>(H: PairHash<T>, a: T, b: T, c: T, d: T)
    requires CollisionFree(H) && H(a, b) == H(c, d)
    ensures a == c && b == d
  {
  }

  lemma PairedAt<T>(H: PairHash<T>, x: seq<T>, i: nat)
    requires 2 * i < |x|
    ensures i < |Paired(H, x)|
    ensures Paired(H, x)[i] == H(x[2 * i], if 2 * i + 1 < |x| then x[2 * i + 1] else x[2 * i])
  {
  }

  lemma ChildrenAgree<T(!new)>(H: PairHash<T>, x: seq<T>, q: nat, r: nat)
    requires CollisionFree(H) && 2 * q + 1 < |x| && 2 * r < |x| && Paired(H, x)[q] == Paired(H, x)[r]
    ensures x[2 * q] == x[2 * r] && x[2 * q + 1] == if 2 * r + 1 < |x| then x[2 * r + 1] else x[2 * r]
  {
    PairedAt(H, x, q);
    PairedAt(H, x, r);
    hide Paired, CollisionFree;
    Injective(H, x[2 * q], x[2 * q + 1], x[2 * r], if 2 * r + 1 < |x| then x[2 * r + 1] else x[2 * r]);
  }

  /** The children of a complete node and of an incomplete one. */
  lemma CompleteBelow<T>(H: PairHash<T>, x: seq<T>, k: nat, q: nat, r: nat)
    requires q < Shr(|x|, k + 1) <= r < |Level(H, x, k + 1)|
    ensures 2 * q + 1 < Shr(|x|, k) <= 2 * r + 1 && 2 * r < |Level(H, x, k)| && Shr(|x|, k) <= |Level(H, x, k)|
    ensures Level(H, x, k + 1) == Paired(H, Level(H, x, k))
  {
    hide Level, Shr, Width;
    LevelNext(H, x, k);
    LevelWidth(H, x, k);
    CompleteOrLast(|x|, k);
    ShrNext(|x|, k);
  }

  /** A complete node with the same hash as the incomplete one at the end contains twins. */
  lemma {:induction false} IncompleteTwin<T(!new)>(H: PairHash<T>, x: seq<T>, k: nat, q: nat, r: nat)
    requires CollisionFree(H) && q < Shr(|x|, k) <= r < |Level(H, x, k)| && Level(H, x, k)[q] == Level(H, x, k)[r]
    ensures IsMutated(H, x)
    decreases k
  {
    if k > 0 {
      hide Paired, Level, CollisionFree, Shr;
      CompleteBelow(H, x, k - 1, q, r);
      var below := Level(H, x, k - 1);
      ChildrenAgree(H, below, q, r);
      if 2 * r + 1 < |below| {
        IncompleteTwin(H, x, k - 1, 2 * q + 1, 2 * r + 1);
      } else {
        assert TwinsAt(H, x, k - 1, q);
      }
    }
  }

  /** So the test on complete neighbours finds all equal neighbours. */
  lemma {:induction false} TwinsAreFound<T(!new)>(H: PairHash<T>, x: seq<T>, y: seq<T>, k: nat)
    requires CollisionFree(H) && y == Level(H, x, k) && HasTwins(H, y)
    ensures IsMutated(H, x)
    decreases |y|
  {
    if i :| 0 <= i && 2 * i + 1 < |y| && y[2 * i] == y[2 * i + 1] {
      LevelWidth(H, x, k);
      CompleteOrLast(|x|, k);
      if 2 * i + 2 <= Shr(|x|, k) {
        assert TwinsAt(H, x, k, i);
      } else {
        IncompleteTwin(H, x, k, 2 * i, 2 * i + 1);
      }
    } else {
      LevelNext(H, x, k);
      TwinsAreFound(H, x, Paired(H, y), k + 1);
    }
  }

  lemma PairAgrees<T(!new)>(H: PairHash<T>, a: seq<T>, b: seq<T>, i: nat)
    requires CollisionFree(H) && Paired(H, a) == Paired(H, b) && i < |Paired(H, a)|
    ensures a[2 * i] == b[2 * i]
    ensures 2 * i + 1 < |a| && 2 * i + 1 < |b| ==> a[2 * i + 1] == b[2 * i + 1]
    ensures 2 * i + 1 < |a| && 2 * i + 1 >= |b| ==> a[2 * i] == a[2 * i + 1]
  {
    PairedAt(H, a, i);
    PairedAt(H, b, i);
    hide Paired, CollisionFree;
    Injective(H, a[2 * i], if 2 * i + 1 < |a| then a[2 * i + 1] else a[2 * i],
              b[2 * i], if 2 * i + 1 < |b| then b[2 * i + 1] else b[2 * i]);
  }

  lemma SameLength<T(!new)>(H: PairHash<T>, a: seq<T>, b: seq<T>)
    requires CollisionFree(H) && Paired(H, a) == Paired(H, b) && !HasTwins(H, a)
    ensures |a| <= |b|
  {
    hide CollisionFree;
    if |a| > |b| {
      assert |Paired(H, a)| == (|a| + 1) / 2 == (|b| + 1) / 2;
      PairAgrees(H, a, b, |a| / 2 - 1);
    }
  }

  lemma PairsAgree<T(!new)>(H: PairHash<T>, a: seq<T>, b: seq<T>)
    requires CollisionFree(H) && Paired(H, a) == Paired(H, b) && !HasTwins(H, a) && !HasTwins(H, b)
    ensures a == b
  {
    hide Paired, CollisionFree, HasTwins;
    SameLength(H, a, b);
    SameLength(H, b, a);
    forall j | 0 <= j < |a| ensures a[j] == b[j] {
      assert j / 2 < |Paired(H, a)|;
      PairAgrees(H, a, b, j / 2);
    }
  }

  lemma {:induction false} RootBindsLists<T(!new)>(H: PairHash<T>, a: seq<T>, b: seq<T>)
    requires CollisionFree(H) && a != [] && b != [] && TreeHeight(|a|) == TreeHeight(|b|)
    requires MerkleRoot(H, a) == MerkleRoot(H, b) && !HasTwins(H, a) && !HasTwins(H, b)
    ensures a == b
    decreases |a|
  {
    if |a| > 1 {
      assert |b| > 1;
      RootBindsLists(H, Paired(H, a), Paired(H, b));
      PairsAgree(H, a, b);
    }
  }

  /** The root of a list that passes the test determines the list, among all of the same height that pass it. */
  lemma RootIsBinding<T(!new)>(H: PairHash<T>, a: seq<T>, b: seq<T>)
    requires CollisionFree(H) && a != [] && b != [] && TreeHeight(|a|) == TreeHeight(|b|)
    requires !IsMutated(H, a) && !IsMutated(H, b)
    ensures MerkleRoot(H, a) == MerkleRoot(H, b) <==> a == b
  {
    if HasTwins(H, a) { TwinsAreFound(H, a, a, 0); }
    if HasTwins(H, b) { TwinsAreFound(H, b, b, 0); }
    if MerkleRoot(H, a) == MerkleRoot(H, b) { RootBindsLists(H, a, b); }
  }

  /** Without the test it does not: repeating the last of an odd number changes nothing, and is detected. */
  lemma RepeatedLast<T>(H: PairHash<T>, x: seq<T>)
    requires |x| > 1 && |x| % 2 == 1
    ensures var y := x + [x[|x| - 1]];
      MerkleRoot(H, y) == MerkleRoot(H, x) && TreeHeight(|y|) == TreeHeight(|x|) && IsMutated(H, y)
  {
    var y := x + [x[|x| - 1]];
    assert Paired(H, y) == Paired(H, x);
    assert TwinsAt(H, y, 0, |x| / 2);
  }

  /** Nor does it across heights: two leaves have the root of the one leaf that is their hash. */
  lemma HeightMatters<T>(H: PairHash<T>, a: T, b: T)
    requires a != b
    ensures MerkleRoot(H, [a, b]) == MerkleRoot(H, [H(a, b)]) && !IsMutated(H, [a, b]) && !IsMutated(H, [H(a, b)])
  {
    assert Paired(H, [a, b]) == [H(a, b)];
    forall k: nat, p: nat ensures !TwinsAt(H, [a, b], k, p) && !TwinsAt(H, [H(a, b)], k, p) {
      if k > 0 { ShrSmall(1, k - 1); ShrSmall(0, k - 1); }
    }
  }

  lemma {:induction false} ShrSmall(n: nat, k: nat)
    requires n <= 1
    ensures Shr(n, k) <= 1
    decreases k
  {
    if k > 0 { ShrSmall(n / 2, k - 1); }
  }

  // ---------------------------------------------------------------------------
  // Branches
  // ---------------------------------------------------------------------------

  lemma {:induction false} HasNode(n: nat, pos: nat, k: nat)
    requires pos < n
    ensures Shr(pos, k) < Width(n, k)
    decreases k
  {
    if k > 0 { HasNode((n + 1) / 2, pos / 2, k - 1); }
  }

  /** The neighbour of the node above a leaf; a node without one is its own. */
  function Sibling<T>(H: PairHash<T>, x: seq<T>, pos: nat, k: nat): T
    requires pos < |x|
  {
    LevelWidth(H, x, k);
    HasNode(|x|, pos, k);
    var level, q := Level(H, x, k), Shr(pos, k);
    if q % 2 == 1 then level[q - 1] else if q + 1 < |level| then level[q + 1] else level[q]
  }

  function BranchUpTo<T>(H: PairHash<T>, x: seq<T>, pos: nat, k: nat): (r: seq<T>)
    requires pos < |x|
    ensures |r| == k
  {
    if k == 0 then [] else BranchUpTo(H, x, pos, k - 1) + [Sibling(H, x, pos, k - 1)]
  }

  /** Hashes a leaf up along a branch. */
  function RootFromBranch<T>(H: PairHash<T>, hash: T, branch: seq<T>, index: nat): T
    decreases |branch|
  {
    if branch == [] then hash
    else
      RootFromBranch(H, if index % 2 == 1 then H(branch[0], hash) else H(hash, branch[0]), branch[1..], index / 2)
  }

  method ComputeMerkleRootFromBranch<T>(H: PairHash<T>, leaf: T, vMerkleBranch: seq<T>, nIndex: nat) returns (hash: T)
    ensures hash == RootFromBranch(H, leaf, vMerkleBranch, nIndex)
  {
    hash := leaf;
    var index := nIndex;
    for i := 0 to |vMerkleBranch|
      invariant RootFromBranch(H, hash, vMerkleBranch[i..], index) == RootFromBranch(H, leaf, vMerkleBranch, nIndex)
    {
      var it := vMerkleBranch[i];
      assert vMerkleBranch[i..][1..] == vMerkleBranch[i + 1..];
      if index % 2 == 1 {
        hash := H(it, hash);
      } else {
        hash := H(hash, it);
      }
      index := index / 2;
    }
  }

  lemma {:induction false} FromBranchAppend<T>(H: PairHash<T>, hash: T, branch: seq<T>, y: T, index: nat)
    ensures
      var h, q := RootFromBranch(H, hash, branch, index), Shr(index, |branch|);
      RootFromBranch(H, hash, branch + [y], index) == if q % 2 == 1 then H(y, h) else H(h, y)
    decreases |branch|
  {
    if branch == [] {
      assert (branch + [y])[1..] == [];
    } else {
      assert (branch + [y])[1..] == branch[1..] + [y];
      FromBranchAppend(H, if index % 2 == 1 then H(branch[0], hash) else H(hash, branch[0]), branch[1..], y, index / 2);
    }
  }

  /** The branch of a leaf leads to the node above it on every level. */
  lemma {:induction false} BranchLeadsUp<T>(H: PairHash<T>, x: seq<T>, pos: nat, k: nat)
    requires pos < |x|
    ensures Shr(pos, k) < |Level(H, x, k)|
    ensures RootFromBranch(H, x[pos], BranchUpTo(H, x, pos, k), pos) == Level(H, x, k)[Shr(pos, k)]
    decreases k
  {
    LevelWidth(H, x, k);
    HasNode(|x|, pos, k);
    if k > 0 {
      BranchLeadsUp(H, x, pos, k - 1);
      FromBranchAppend(H, x[pos], BranchUpTo(H, x, pos, k - 1), Sibling(H, x, pos, k - 1), pos);
      LevelNext(H, x, k - 1);
      ShrNext(pos, k - 1);
      PairedAt(H, Level(H, x, k - 1), Shr(pos, k));
    }
  }

  /** The branch of a leaf in a full tree leads to that tree's root. */
  lemma BranchLeadsToRoot<T>(H: PairHash<T>, x: seq<T>, pos: nat)
    requires pos < |x|
    ensures RootFromBranch(H, x[pos], BranchUpTo(H, x, pos, TreeHeight(|x|)), pos) == MerkleRoot(H, x)
  {
    BranchLeadsUp(H, x, pos, TreeHeight(|x|));
    RootIsTop(H, x);
  }

  // ---------------------------------------------------------------------------
  // The calculator: leaves one by one
  // ---------------------------------------------------------------------------

  const MAX_LEAVES := 0x8000_0000

  /** For each one bit of the count, the last complete node of that level. */
  ghost predicate InnerOk<T>(H: PairHash<T>, x: seq<T>, inner: seq<T>, count: nat) {
    |inner| == 32 && forall k :: 0 <= k < 32 && Shr(count, k) % 2 == 1 ==> HoldsNode(H, x, k, Shr(count, k) - 1, inner[k])
  }

  ghost predicate HoldsNode<T>(H: PairHash<T>, x: seq<T>, k: nat, p: int, hash: T) {
    0 <= p < |Level(H, x, k)| && Level(H, x, k)[p] == hash
  }

  /** Two of the complete nodes so far are equal neighbours. */
  ghost predicate SeenTwins<T>(H: PairHash<T>, x: seq<T>, count: nat, next: nat, level: nat) {
    exists k: nat, p: nat :: TwinsAt(H, x, k, p) && (2 * p + 2 <= Shr(count, k) || (k < level && 2 * p + 2 <= Shr(next, k)))
  }

  /** The branch so far, up to the node that contains the leaf. */
  ghost predicate MatchOk<T>(H: PairHash<T>, x: seq<T>, pos: nat, count: nat, matchlevel: int, branch: seq<T>) {
    if pos >= count || pos >= |x| then matchlevel == -1 && branch == []
    else
      && matchlevel >= 0 && Shr(count, matchlevel) % 2 == 1 && Shr(pos, matchlevel) == Shr(count, matchlevel) - 1
      && branch == BranchUpTo(H, x, pos, matchlevel)
  }

  /** The node in hand contains the leaf, or the matching node waits at a higher level. */
  ghost predicate InHand<T>(H: PairHash<T>, x: seq<T>, pos: nat, count: nat, level: nat, node: int, matchlevel: int,
                            matchh: bool, branch: seq<T>) {
    if matchh then pos < |x| && Shr(pos, level) == node && branch == BranchUpTo(H, x, pos, level)
    else
      && MatchOk(H, x, pos, count, matchlevel, branch) && (matchlevel == -1 || matchlevel >= level)
      && (pos == count ==> count == |x|)
  }

  /** Below the lowest one bit of the next count all bits of the count are ones. */
  ghost predicate Carries(count: nat, level: nat) { Shr(count + 1, level) == Shr(count, level) + 1 }

  lemma CarryOn(count: nat, level: nat)
    requires Carries(count, level) && Shr(count + 1, level) % 2 == 0
    ensures Carries(count, level + 1) && Shr(count, level) % 2 == 1 && Shr(count + 1, level + 1) < Shr(count + 1, level)
    ensures Shr(count + 1, level + 1) == Shr(count + 1, level) / 2
  {
    hide Shr;
    ShrNext(count, level);
    ShrNext(count + 1, level);
  }

  lemma {:induction false} CarryEnds(count: nat, level: nat, k: nat)
    requires Carries(count, level) && Shr(count + 1, level) % 2 == 1 && k > level
    ensures Shr(count + 1, k) == Shr(count, k)
    decreases k
  {
    hide Shr;
    ShrNext(count, k - 1);
    ShrNext(count + 1, k - 1);
    if k - 1 > level { CarryEnds(count, level, k - 1); }
  }

  lemma {:induction false} ShrVanishes(n: nat, k: nat)
    requires n < Pow2(k)
    ensures Shr(n, k) == 0
    decreases k
  {
    if k > 0 { ShrVanishes(n / 2, k - 1); }
  }

  lemma {:induction false} ShrGrows(a: nat, b: nat, k: nat)
    requires a <= b
    ensures Shr(a, k) <= Shr(b, k)
    decreases k
  {
    if k > 0 { ShrGrows(a / 2, b / 2, k - 1); }
  }

  /** A node that exists is on one of the levels that the array has. */
  lemma LevelInRange(n: nat, k: nat)
    requires n <= MAX_LEAVES && Shr(n, k) > 0
    ensures k < 32
  {
    if k >= 32 {
      Pow2Of32();
      Pow2Monotone(32, k);
      ShrVanishes(n, k);
    }
  }

  /** Two neighbours, the left one kept and the right one in hand, make the next node. */
  lemma Combine<T>(H: PairHash<T>, x: seq<T>, k: nat, c: nat, left: T, right: T)
    requires c % 2 == 0 && HoldsNode(H, x, k, c - 2, left) && HoldsNode(H, x, k, c - 1, right)
    ensures HoldsNode(H, x, k + 1, c / 2 - 1, H(left, right))
  {
    hide Level, Paired;
    LevelNext(H, x, k);
    PairedAt(H, Level(H, x, k), c / 2 - 1);
  }

  /** The branch grows by the neighbour. */
  lemma NextSibling<T>(H: PairHash<T>, x: seq<T>, pos: nat, k: nat, p: nat, other: nat, hash: T)
    requires pos < |x| && Shr(pos, k) == p && HoldsNode(H, x, k, other, hash)
    requires if p % 2 == 1 then other == p - 1 else other == p + 1 || (other == p && p + 1 == |Level(H, x, k)|)
    ensures BranchUpTo(H, x, pos, k + 1) == BranchUpTo(H, x, pos, k) + [hash] && Shr(pos, k + 1) == p / 2
  {
    hide Level, Shr;
    ShrNext(pos, k);
  }

  /** One round of combining what is kept at a level with what is in hand. */
  method CombineAt<T>(H: PairHash<T>, x: seq<T>, ghost kept: nat, level: nat, ghost c: nat, inner: T, h: T, pos: nat,
                      matchlevel: int, matchh: bool, branch: seq<T>)
    returns (h': T, matchh': bool, branch': seq<T>)
    requires c % 2 == 0 && Shr(kept, level) == c - 1
    requires HoldsNode(H, x, level, c - 2, inner) && HoldsNode(H, x, level, c - 1, h)
    requires InHand(H, x, pos, kept, level, c - 1, matchlevel, matchh, branch)
    ensures h' == H(inner, h) && HoldsNode(H, x, level + 1, c / 2 - 1, h')
    ensures InHand(H, x, pos, kept, level + 1, c / 2 - 1, matchlevel, matchh', branch')
  {
    hide Level, Shr, BranchUpTo, HoldsNode;
    matchh', branch' := matchh, branch;
    if matchh {
      NextSibling(H, x, pos, level, c - 1, c - 2, inner);
      branch' := branch + [inner];
    } else if matchlevel == level {
      NextSibling(H, x, pos, level, c - 2, c - 1, h);
      branch' := branch + [h];
      matchh' := true;
    }
    h' := H(inner, h);
    Combine(H, x, level, c, inner, h);
  }

  /** The state after a number of leaves. */
  ghost predicate Progress<T>(H: PairHash<T>, x: seq<T>, inner: seq<T>, count: nat, pos: nat, matchlevel: int,
                              mutated: bool, branch: seq<T>) {
    && count <= |x| <= MAX_LEAVES && InnerOk(H, x, inner, count) && MatchOk(H, x, pos, count, matchlevel, branch)
    && (mutated <==> SeenTwins(H, x, count, count, 0))
  }

  method AddLeaf<T(==)>(H: PairHash<T>, leaves: seq<T>, inner: array<T>, count: nat, branchpos: nat, matchlevel: int,
                        mutated: bool, branch: seq<T>)
    returns (matchlevel': int, mutated': bool, branch': seq<T>)
    requires count < |leaves| && Progress(H, leaves, inner[..], count, branchpos, matchlevel, mutated, branch)
    modifies inner
    ensures Progress(H, leaves, inner[..], count + 1, branchpos, matchlevel', mutated', branch')
  {
    hide Shr, InnerOk, MatchOk, SeenTwins, HoldsNode, InHand, Carries, LowZeros;
    mutated', branch' := mutated, branch;
    var h, matchh := leaves[count], count == branchpos;
    ghost var next := count + 1;
    StartLeaf(H, leaves, count, branchpos, matchlevel, branch);
    assert |inner[..]| == 32 by { InnerSize(H, leaves, inner[..], count); }
    var level := 0;
    NodeInRange(leaves, count, level);
    while Shr(count + 1, level) % 2 == 0
      invariant 0 <= level < 32 && Carries(count, level) && Shr(next, level) > 0 && inner[..] == old(inner[..])
      invariant HoldsNode(H, leaves, level, Shr(next, level) - 1, h)
      invariant InHand(H, leaves, branchpos, count, level, Shr(next, level) - 1, matchlevel, matchh, branch')
      invariant (mutated' <==> SeenTwins(H, leaves, count, next, level)) && LowZeros(next, level)
      decreases Shr(next, level)
    {
      CarryOn(count, level);
      CarryIs(count, level);
      KeptNode(H, leaves, inner[..], count, level);
      MoreTwins(H, leaves, count, level, inner[level], h);
      mutated' := mutated' || inner[level] == h;
      h, matchh, branch' :=
        CombineAt(H, leaves, count, level, Shr(next, level), inner[level], h, branchpos, matchlevel, matchh, branch');
      OneMoreZero(next, level);
      level := level + 1;
      NodeInRange(leaves, count, level);
    }
    AllTwins(H, leaves, count, level);
    KeepNode(H, leaves, inner[..], count, level, h);
    EndLeaf(H, leaves, branchpos, count, level, matchlevel, matchh, branch');
    inner[level] := h;
    matchlevel' := if matchh then level else matchlevel;
  }

  lemma InnerSize<T>(H: PairHash<T>, x: seq<T>, inner: seq<T>, count: nat)
    requires InnerOk(H, x, inner, count)
    ensures |inner| == 32
  {
  }

  lemma CarryIs(count: nat, level: nat)
    requires Carries(count, level)
    ensures Shr(count + 1, level) == Shr(count, level) + 1
  {
  }

  lemma NodeInRange<T>(x: seq<T>, count: nat, level: nat)
    requires count < |x| <= MAX_LEAVES && (level == 0 || Shr(count + 1, level) > 0)
    ensures level < 32
  {
    if level > 0 { LevelInRange(count + 1, level); }
  }

  lemma StartLeaf<T>(H: PairHash<T>, x: seq<T>, count: nat, pos: nat, matchlevel: int, branch: seq<T>)
    requires count < |x| && MatchOk(H, x, pos, count, matchlevel, branch)
    ensures Carries(count, 0) && Shr(count + 1, 0) == count + 1 && HoldsNode(H, x, 0, count, x[count])
    ensures InHand(H, x, pos, count, 0, count, matchlevel, count == pos, branch)
    ensures SeenTwins(H, x, count, count, 0) <==> SeenTwins(H, x, count, count + 1, 0)
    ensures LowZeros(count + 1, 0)
  {
    hide Shr, TwinsAt;
    assert Shr(count + 1, 0) == count + 1 by { ShrZero(count + 1); }
    ShrZero(count);
  }

  lemma ShrZero(n: nat)
    ensures Shr(n, 0) == n
  {
  }

  ghost predicate LowZeros(n: nat, level: nat) { forall k: nat :: k < level ==> Shr(n, k) % 2 == 0 }

  lemma OneMoreZero(n: nat, level: nat)
    requires LowZeros(n, level) && Shr(n, level) % 2 == 0
    ensures LowZeros(n, level + 1)
  {
  }

  lemma KeptNode<T>(H: PairHash<T>, x: seq<T>, inner: seq<T>, count: nat, level: nat)
    requires InnerOk(H, x, inner, count) && level < 32 && Shr(count, level) % 2 == 1
    ensures HoldsNode(H, x, level, Shr(count, level) - 1, inner[level])
  {
  }

  /** The pair that is combined at this level is the only new one there. */
  lemma MoreTwins<T>(H: PairHash<T>, x: seq<T>, count: nat, level: nat, left: T, right: T)
    requires count < |x| && Carries(count, level) && Shr(count + 1, level) % 2 == 0
    requires HoldsNode(H, x, level, Shr(count + 1, level) - 2, left)
    requires HoldsNode(H, x, level, Shr(count + 1, level) - 1, right)
    ensures SeenTwins(H, x, count, count + 1, level + 1) <==> SeenTwins(H, x, count, count + 1, level) || left == right
  {
    hide Level, Shr;
    var q := Shr(count + 1, level) / 2 - 1;
    ShrGrows(count + 1, |x|, level);
    assert TwinsAt(H, x, level, q) <==> left == right;
    if SeenTwins(H, x, count, count + 1, level + 1) {
      var k: nat, p: nat :| TwinsAt(H, x, k, p) &&
        (2 * p + 2 <= Shr(count, k) || (k < level + 1 && 2 * p + 2 <= Shr(count + 1, k)));
      if k == level && !(2 * p + 2 <= Shr(count, k)) { assert p == q; }
    }
    if left == right { assert TwinsAt(H, x, level, q) && level < level + 1 && 2 * q + 2 <= Shr(count + 1, level); }
  }

  lemma AllTwins<T>(H: PairHash<T>, x: seq<T>, count: nat, level: nat)
    requires Carries(count, level) && Shr(count + 1, level) % 2 == 1
    ensures SeenTwins(H, x, count, count + 1, level) <==> SeenTwins(H, x, count + 1, count + 1, 0)
  {
    hide Shr, TwinsAt;
    var next := count + 1;
    forall k: nat, p: nat | TwinsAt(H, x, k, p)
      ensures (2 * p + 2 <= Shr(count, k) || (k < level && 2 * p + 2 <= Shr(next, k))) <==> 2 * p + 2 <= Shr(next, k)
    {
      ShrGrows(count, next, k);
      if k > level { CarryEnds(count, level, k); }
    }
  }

  lemma KeepNode<T>(H: PairHash<T>, x: seq<T>, inner: seq<T>, count: nat, level: nat, h: T)
    requires InnerOk(H, x, inner, count) && level < 32 && Carries(count, level) && Shr(count + 1, level) % 2 == 1
    requires HoldsNode(H, x, level, Shr(count + 1, level) - 1, h)
    requires LowZeros(count + 1, level)
    ensures InnerOk(H, x, inner[level := h], count + 1)
  {
    hide Shr, HoldsNode;
    var next := count + 1;
    forall k: nat | k < 32 && Shr(next, k) % 2 == 1
      ensures HoldsNode(H, x, k, Shr(next, k) - 1, inner[level := h][k])
    {
      if k > level { CarryEnds(count, level, k); }
    }
  }

  lemma EndLeaf<T>(H: PairHash<T>, x: seq<T>, pos: nat, count: nat, level: nat, matchlevel: int, matchh: bool,
                   branch: seq<T>)
    requires Carries(count, level) && Shr(count + 1, level) % 2 == 1 && count < |x|
    requires InHand(H, x, pos, count, level, Shr(count + 1, level) - 1, matchlevel, matchh, branch)
    ensures MatchOk(H, x, pos, count + 1, if matchh then level else matchlevel, branch)
  {
    hide Shr, BranchUpTo;
    if matchh {
      if pos > count { ShrGrows(count + 1, pos, level); }
    } else if matchlevel > level {
      CarryEnds(count, level, matchlevel);
    }
  }

  // ---------------------------------------------------------------------------
  // The calculator: the sweep over the right edge
  // ---------------------------------------------------------------------------

  lemma {:induction false} WidthNext(n: nat, k: nat)
    ensures Width(n, k + 1) == (Width(n, k) + 1) / 2
    decreases k
  {
    if k > 0 { WidthNext((n + 1) / 2, k - 1); }
  }

  /** The top is the first level with one node. */
  lemma {:induction false} TopLevel(n: nat, k: nat)
    requires n > 0 && Width(n, k) == 1 && (k == 0 || Width(n, k - 1) > 1)
    ensures k == TreeHeight(n)
    decreases k
  {
    if k > 0 {
      OneStaysOne(k - 1);
      TopLevel((n + 1) / 2, k - 1);
    }
  }

  lemma {:induction false} OneStaysOne(k: nat)
    ensures Width(1, k) == 1
    decreases k
  {
    if k > 0 { OneStaysOne(k - 1); }
  }

  lemma {:induction false} ShrOfMultiple(w: nat, k: nat)
    ensures Shr(w * Pow2(k), k) == w && (w * Pow2(k) == Pow2(k) <==> w == 1)
    decreases k
  {
    if k > 0 {
      ShrOfMultiple(w, k - 1);
      assert w * Pow2(k) == 2 * (w * Pow2(k - 1));
    }
  }

  lemma HalfMultiple(w: nat, k: nat)
    requires w % 2 == 0
    ensures w * Pow2(k) == w / 2 * Pow2(k + 1)
  {
    assert w / 2 * (2 * Pow2(k)) == w / 2 * 2 * Pow2(k);
  }

  /** The number of leaves, rounded up to a multiple of 2^k, is at most 2^height. */
  lemma {:induction false} RoundedUp(n: nat, k: nat)
    requires n > 0 && (k == 0 || Width(n, k - 1) > 1)
    ensures Width(n, k) * Pow2(k) <= Pow2(TreeHeight(n))
    decreases n + k
  {
    if n == 1 {
      if k > 0 { OneStaysOne(k - 1); }
      assert Pow2(0) == 1 && Width(1, 0) * Pow2(0) == 1;
    } else if k == 0 {
      RoundedUp((n + 1) / 2, 0);
      assert Pow2(0) == 1 && Width((n + 1) / 2, 0) * Pow2(0) == (n + 1) / 2;
    } else {
      RoundedUp((n + 1) / 2, k - 1);
      TwiceAsMany(Width(n, k), k);
    }
  }

  lemma TwiceAsMany(w: nat, k: nat)
    requires k > 0
    ensures w * Pow2(k) == 2 * (w * Pow2(k - 1))
  {
  }

  /** So the count of the sweep fits 32 bits if and only if there are at most 2^31 leaves. */
  lemma CountFits(n: nat)
    requires n > 0
    ensures Pow2(TreeHeight(n)) < 0x1_0000_0000 <==> n <= MAX_LEAVES
  {
    Pow2Of32();
    Pow2Step(32);
    hide Pow2;
    HeightBound(n, 31);
    if n <= MAX_LEAVES { Pow2Monotone(TreeHeight(n), 31); } else { Pow2Monotone(32, TreeHeight(n)); }
  }

  lemma {:induction false} HeightBound(n: nat, m: nat)
    ensures TreeHeight(n) <= m <==> n <= Pow2(m)
    decreases n
  {
    if n > 1 && m > 0 { HeightBound((n + 1) / 2, m - 1); }
  }

  /** The last node of a level is in hand. */
  ghost predicate AtEdge<T>(H: PairHash<T>, x: seq<T>, level: nat, w: nat, h: T, pos: nat, matchlevel: int, matchh: bool,
                            branch: seq<T>) {
    && x != [] && w == Width(|x|, level) && w > 0 && (level == 0 || Width(|x|, level - 1) > 1)
    && HoldsNode(H, x, level, w - 1, h) && InHand(H, x, pos, |x|, level, w - 1, matchlevel, matchh, branch)
  }

  /** The node in hand has no neighbour, and neither is the matching one waiting at this level. */
  ghost predicate Alone<T>(x: seq<T>, level: nat, w: nat, matchlevel: int, matchh: bool) {
    w % 2 == 1 && w - 1 <= Shr(|x|, level) <= w && (!matchh ==> matchlevel != level)
  }

  lemma StartSweep<T>(H: PairHash<T>, x: seq<T>, inner: seq<T>, level: nat, pos: nat, matchlevel: int, mutated: bool,
                      branch: seq<T>)
    requires x != [] && Progress(H, x, inner, |x|, pos, matchlevel, mutated, branch)
    requires Shr(|x|, level) == Width(|x|, level) && Shr(|x|, level) % 2 == 1 && LowZeros(|x|, level)
    requires (level == 0 || Width(|x|, level - 1) > 1) && level < 32
    ensures AtEdge(H, x, level, Width(|x|, level), inner[level], pos, matchlevel, matchlevel == level, branch)
    ensures Alone(x, level, Width(|x|, level), matchlevel, matchlevel == level)
  {
    hide Shr, Width, HoldsNode, BranchUpTo, SeenTwins;
  }

  lemma CombineAlone<T>(H: PairHash<T>, x: seq<T>, level: nat, w: nat, h: T, pos: nat, matchlevel: int, matchh: bool,
                        branch: seq<T>)
    requires AtEdge(H, x, level, w, h, pos, matchlevel, matchh, branch) && Alone(x, level, w, matchlevel, matchh) && w > 1
    ensures AtEdge(H, x, level + 1, (w + 1) / 2, H(h, h), pos, matchlevel, matchh, if matchh then branch + [h] else branch)
    ensures Shr(|x|, level + 1) == (w + 1) / 2 - 1
  {
    hide Shr, Width, Level, Paired, BranchUpTo;
    WidthNext(|x|, level);
    ShrNext(|x|, level);
    LevelWidth(H, x, level);
    LevelNext(H, x, level);
    PairedAt(H, Level(H, x, level), w / 2);
    if matchh { NextSibling(H, x, pos, level, w - 1, w - 1, h); }
  }

  /** After combining with a kept node the edge is one level higher. */
  lemma EdgeRises<T>(H: PairHash<T>, x: seq<T>, level: nat, w: nat, h': T, pos: nat, matchlevel: int, matchh': bool,
                     branch': seq<T>)
    requires x != [] && w == Width(|x|, level) && w > 1 && w % 2 == 0 && Shr(|x|, level) == w - 1
    requires HoldsNode(H, x, level + 1, w / 2 - 1, h')
    requires InHand(H, x, pos, |x|, level + 1, w / 2 - 1, matchlevel, matchh', branch')
    ensures AtEdge(H, x, level + 1, w / 2, h', pos, matchlevel, matchh', branch')
    ensures Shr(|x|, level + 1) == w / 2 - 1
  {
    hide Shr, Width, HoldsNode, InHand;
    WidthNext(|x|, level);
    ShrNext(|x|, level);
  }

  lemma EdgeAlone<T>(H: PairHash<T>, x: seq<T>, level: nat, w: nat, h: T, pos: nat, matchlevel: int, matchh: bool,
                     branch: seq<T>)
    requires AtEdge(H, x, level, w, h, pos, matchlevel, matchh, branch) && w % 2 == 1 && Shr(|x|, level) == w - 1
    ensures Alone(x, level, w, matchlevel, matchh)
  {
    hide Shr, Width, HoldsNode, BranchUpTo;
  }

  lemma EndSweep<T>(H: PairHash<T>, x: seq<T>, level: nat, h: T, pos: nat, matchlevel: int, matchh: bool, branch: seq<T>)
    requires AtEdge(H, x, level, 1, h, pos, matchlevel, matchh, branch) && Alone(x, level, 1, matchlevel, matchh)
    ensures h == MerkleRoot(H, x) && level == TreeHeight(|x|)
    ensures branch == if pos < |x| then BranchUpTo(H, x, pos, TreeHeight(|x|)) else []
  {
    hide Shr, Width, BranchUpTo, Level, MerkleRoot, TreeHeight;
    TopLevel(|x|, level);
    RootIsTop(H, x);
    if !matchh && matchlevel > level { Vanished(|x|, level, matchlevel); }
  }

  lemma {:induction false} Vanished(n: nat, k: nat, m: nat)
    requires Shr(n, k) <= 1 && m > k
    ensures Shr(n, m) == 0
    decreases m
  {
    ShrNext(n, m - 1);
    if m - 1 > k { Vanished(n, k, m - 1); }
  }

  method Sweep<T>(H: PairHash<T>, leaves: seq<T>, inner: array<T>, branchpos: nat, matchlevel: int, ghost mutated: bool,
                  branch0: seq<T>)
    returns (h: T, branch: seq<T>)
    requires leaves != [] && Progress(H, leaves, inner[..], |leaves|, branchpos, matchlevel, mutated, branch0)
    ensures h == MerkleRoot(H, leaves)
    ensures branch == if branchpos < |leaves| then BranchUpTo(H, leaves, branchpos, TreeHeight(|leaves|)) else []
  {
    hide Shr, Width, AtEdge, Alone, HoldsNode, InHand, MatchOk, SeenTwins, InnerOk, Pow2, LowZeros, MerkleRoot, TreeHeight,
         BranchUpTo;
    ghost var n := |leaves|;
    branch := branch0;
    var count: nat, level: nat := |leaves|, 0;
    SweepStarts(n);
    while Shr(count, level) % 2 == 0
      invariant 0 <= level < 32 && Shr(n, level) == Width(n, level) > 0 && LowZeros(n, level)
      invariant (level == 0 || Width(n, level - 1) > 1) && n == Width(n, level) * Pow2(level)
      decreases Shr(n, level)
    {
      SkipLevel(n, level);
      level := level + 1;
    }
    StartSweep(H, leaves, inner[..], level, branchpos, matchlevel, mutated, branch);
    InnerSize(H, leaves, inner[..], n);
    h := inner[level];
    var matchh := matchlevel == level;
    ghost var w: nat := Width(n, level);
    ShrOfMultiple(w, level);
    RoundedUp(n, level);
    while count != Pow2(level)
      invariant AtEdge(H, leaves, level, w, h, branchpos, matchlevel, matchh, branch)
      invariant Alone(leaves, level, w, matchlevel, matchh)
      invariant count == w * Pow2(level) <= Pow2(TreeHeight(n)) && (count == Pow2(level) <==> w == 1)
      decreases w
    {
      OddEdge(leaves, level, w, matchlevel, matchh);
      CombineAlone(H, leaves, level, w, h, branchpos, matchlevel, matchh, branch);
      NextMultiple(w, level);
      if matchh { branch := branch + [h]; }
      h := H(h, h);
      count := count + Pow2(level);
      level := level + 1;
      w := (w + 1) / 2;
      h, level, matchh, branch, w :=
        Propagate(H, leaves, inner, count, level, w, h, branchpos, matchlevel, mutated, branch0, matchh, branch);
      ShrOfMultiple(w, level);
      CountAtEdge(H, leaves, level, w, h, branchpos, matchlevel, matchh, branch);
    }
    EndSweep(H, leaves, level, h, branchpos, matchlevel, matchh, branch);
  }

  /** Combines the edge with what is kept, as long as it has a neighbour. */
  method Propagate<T>(H: PairHash<T>, leaves: seq<T>, inner: array<T>, count: nat, level0: nat, ghost w0: nat, h0: T,
                      branchpos: nat, matchlevel: int, ghost mutated: bool, ghost kept: seq<T>, matchh0: bool,
                      branch0: seq<T>)
    returns (h: T, level: nat, matchh: bool, branch: seq<T>, ghost w: nat)
    requires Progress(H, leaves, inner[..], |leaves|, branchpos, matchlevel, mutated, kept)
    requires AtEdge(H, leaves, level0, w0, h0, branchpos, matchlevel, matchh0, branch0)
    requires Shr(|leaves|, level0) == w0 - 1 && count == w0 * Pow2(level0)
    ensures AtEdge(H, leaves, level, w, h, branchpos, matchlevel, matchh, branch) && w <= w0
    ensures Alone(leaves, level, w, matchlevel, matchh) && count == w * Pow2(level)
  {
    hide Shr, Width, AtEdge, Alone, HoldsNode, InHand, MatchOk, SeenTwins, InnerOk, Pow2, BranchUpTo;
    h, level, matchh, branch, w := h0, level0, matchh0, branch0, w0;
    ShrOfMultiple(w, level);
    InnerSize(H, leaves, inner[..], |leaves|);
    while Shr(count, level) % 2 == 0
      invariant AtEdge(H, leaves, level, w, h, branchpos, matchlevel, matchh, branch) && w <= w0
      invariant Shr(|leaves|, level) == w - 1 && count == w * Pow2(level) && Shr(count, level) == w
      decreases w
    {
      AboutEdge(H, leaves, level, w, h, branchpos, matchlevel, matchh, branch);
      LevelInRange(|leaves|, level);
      KeptNode(H, leaves, inner[..], |leaves|, level);
      h, matchh, branch := CombineAt(H, leaves, |leaves|, level, w, inner[level], h, branchpos, matchlevel, matchh, branch);
      EdgeRises(H, leaves, level, w, h, branchpos, matchlevel, matchh, branch);
      HalfMultiple(w, level);
      level := level + 1;
      w := w / 2;
      ShrOfMultiple(w, level);
    }
    EdgeAlone(H, leaves, level, w, h, branchpos, matchlevel, matchh, branch);
  }

  lemma AboutEdge<T>(H: PairHash<T>, x: seq<T>, level: nat, w: nat, h: T, pos: nat, matchlevel: int, matchh: bool,
                     branch: seq<T>)
    requires AtEdge(H, x, level, w, h, pos, matchlevel, matchh, branch)
    ensures x != [] && w == Width(|x|, level) && w > 0
    ensures HoldsNode(H, x, level, w - 1, h) && InHand(H, x, pos, |x|, level, w - 1, matchlevel, matchh, branch)
  {
  }

  lemma CountAtEdge<T>(H: PairHash<T>, x: seq<T>, level: nat, w: nat, h: T, pos: nat, matchlevel: int, matchh: bool,
                       branch: seq<T>)
    requires AtEdge(H, x, level, w, h, pos, matchlevel, matchh, branch)
    ensures w * Pow2(level) <= Pow2(TreeHeight(|x|))
  {
    hide Pow2, TreeHeight, Width, HoldsNode, InHand;
    RoundedUp(|x|, level);
  }

  lemma OddEdge<T>(x: seq<T>, level: nat, w: nat, matchlevel: int, matchh: bool)
    requires Alone(x, level, w, matchlevel, matchh)
    ensures w % 2 == 1
  {
  }

  lemma NextMultiple(w: nat, level: nat)
    requires w % 2 == 1
    ensures w * Pow2(level) + Pow2(level) == (w + 1) / 2 * Pow2(level + 1)
  {
    HalfMultiple(w + 1, level);
    assert (w + 1) * Pow2(level) == w * Pow2(level) + Pow2(level);
  }

  lemma SweepStarts(n: nat)
    ensures Shr(n, 0) == Width(n, 0) == n && LowZeros(n, 0) && n == Width(n, 0) * Pow2(0)
  {
    assert Pow2(0) == 1;
  }

  lemma SkipLevel(n: nat, level: nat)
    requires 0 < n <= MAX_LEAVES && Shr(n, level) == Width(n, level) > 0 && Shr(n, level) % 2 == 0 && LowZeros(n, level)
    requires n == Width(n, level) * Pow2(level)
    ensures Shr(n, level + 1) == Width(n, level + 1) > 0 && LowZeros(n, level + 1) && Width(n, level) > 1 && level + 1 < 32
    ensures n == Width(n, level + 1) * Pow2(level + 1) && Shr(n, level + 1) < Shr(n, level)
  {
    hide Shr, Width, Pow2;
    ShrNext(n, level);
    WidthNext(n, level);
    OneMoreZero(n, level);
    HalfMultiple(Width(n, level), level);
    LevelInRange(n, level + 1);
  }

  // ---------------------------------------------------------------------------
  // The whole calculation
  // ---------------------------------------------------------------------------

  /** The root, whether complete neighbours are equal, and the branch of a leaf; the zero is the root of no leaves. */
  method MerkleComputation<T(==)>(H: PairHash<T>, zero: T, leaves: seq<T>, branchpos: nat)
    returns (root: T, mutated: bool, branch: seq<T>)
    requires |leaves| <= MAX_LEAVES
    ensures root == if leaves == [] then zero else MerkleRoot(H, leaves)
    ensures mutated <==> IsMutated(H, leaves)
    ensures branch == if branchpos < |leaves| then BranchUpTo(H, leaves, branchpos, TreeHeight(|leaves|)) else []
  {
    hide Shr, Progress, MerkleRoot, TreeHeight, BranchUpTo, IsMutated;
    root, mutated, branch := zero, false, [];
    StartLeaves(H, leaves, seq(32, _ => zero), branchpos);
    var inner := new T[32](_ => zero);
    assert inner[..] == seq(32, _ => zero);
    if |leaves| == 0 {
      AllLeaves(H, leaves, inner[..], branchpos, -1, mutated, branch);
      return;
    }
    var matchlevel := -1;
    var count := 0;
    while count < |leaves|
      invariant 0 <= count <= |leaves| && Progress(H, leaves, inner[..], count, branchpos, matchlevel, mutated, branch)
    {
      matchlevel, mutated, branch := AddLeaf(H, leaves, inner, count, branchpos, matchlevel, mutated, branch);
      count := count + 1;
    }
    AllLeaves(H, leaves, inner[..], branchpos, matchlevel, mutated, branch);
    root, branch := Sweep(H, leaves, inner, branchpos, matchlevel, mutated, branch);
  }

  lemma StartLeaves<T>(H: PairHash<T>, x: seq<T>, inner: seq<T>, pos: nat)
    requires |inner| == 32 && |x| <= MAX_LEAVES
    ensures Progress(H, x, inner, 0, pos, -1, false, [])
  {
    hide Level, TwinsAt;
    forall k: nat ensures Shr(0, k) == 0 {
      assert Pow2(k) >= 1;
      ShrVanishes(0, k);
    }
  }

  lemma AllLeaves<T>(H: PairHash<T>, x: seq<T>, inner: seq<T>, pos: nat, matchlevel: int, mutated: bool, branch: seq<T>)
    requires Progress(H, x, inner, |x|, pos, matchlevel, mutated, branch)
    ensures mutated <==> IsMutated(H, x)
  {
    hide Level, Shr, InnerOk, MatchOk;
    if SeenTwins(H, x, |x|, |x|, 0) {
      var k: nat, p: nat :| TwinsAt(H, x, k, p);
    }
    if IsMutated(H, x) {
      var k: nat, p: nat :| TwinsAt(H, x, k, p);
      assert 2 * p + 2 <= Shr(|x|, k);
    }
  }

  method ComputeMerkleRoot<T(==)>(H: PairHash<T>, zero: T, leaves: seq<T>) returns (hash: T, mutated: bool)
    requires |leaves| <= MAX_LEAVES
    ensures hash == if leaves == [] then zero else MerkleRoot(H, leaves)
    ensures mutated <==> IsMutated(H, leaves)
  {
    var branch;
    hash, mutated, branch := MerkleComputation(H, zero, leaves, 0xFFFF_FFFF);
  }

  /** The branch leads from the leaf to the root. */
  method ComputeMerkleBranch<T(==)>(H: PairHash<T>, zero: T, leaves: seq<T>, position: nat) returns (ret: seq<T>)
    requires |leaves| <= MAX_LEAVES
    ensures position < |leaves| ==>
      |ret| == TreeHeight(|leaves|) && RootFromBranch(H, leaves[position], ret, position) == MerkleRoot(H, leaves)
    ensures position >= |leaves| ==> ret == []
  {
    var root, mutated;
    root, mutated, ret := MerkleComputation(H, zero, leaves, position);
    if position < |leaves| { BranchLeadsToRoot(H, leaves, position); }
  }
}

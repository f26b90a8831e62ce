/**
 Partial Merkle trees, src/merkleblock.cpp and src/merkleblock.h: the part of a block's Merkle
 tree that proves which of its transactions match a filter.

 The pair hash is a parameter.  Soundness needs it to be collision free: whatever bits and
 hashes are received, if they hash up to the true root, every extracted transaction id is the
 one at the extracted index.  Completeness: an honestly built, packed and unpacked tree gives
 back the root and exactly the matched transactions.
 */
module PartialMerkle {
  import opened Common
  import opened IntMath
  import opened Merkle

  type Hash = nat
  type PairHash = Merkle.PairHash<Hash>

  const NULL_HASH: Hash := 0
  const MAX_TRANSACTIONS := 1000000 / 60   // a serialized transaction has at least 60 bytes

  // ---------------------------------------------------------------------------
  // The shape of the tree
  // ---------------------------------------------------------------------------

  /** pos << height: the first leaf below a node. */
  function FirstLeaf(height: nat, pos: nat): nat {
    if height == 0 then pos else FirstLeaf(height - 1, 2 * pos)
  }

  /** The number of nodes at a height, computed as the source does. */
  function CalcTreeWidth(n: nat, height: nat): nat {
    Shr(n + Pow2(height) - 1, height)
  }

  lemma {:induction false} WidthBelow(n: nat, height: nat)
    requires height > 0
    ensures CalcTreeWidth(n, height) == CalcTreeWidth((n + 1) / 2, height - 1)
  {
    assert (n + Pow2(height) - 1) / 2 == (n + 1) / 2 + Pow2(height - 1) - 1;
  }

  /** Each level is half as wide as the one below it, rounded up. */
  lemma {:induction false} WidthHalves(n: nat, height: nat)
    requires height > 0
    ensures CalcTreeWidth(n, height) == (CalcTreeWidth(n, height - 1) + 1) / 2
    decreases height
  {
    WidthBelow(n, height);
    if height > 1 {
      WidthHalves((n + 1) / 2, height - 1);
      WidthBelow(n, height - 1);
    } else {
      WidthZero(n);
      WidthZero((n + 1) / 2);
    }
  }

  lemma WidthZero(n: nat)
    ensures CalcTreeWidth(n, 0) == n
  {
    assert Pow2(0) == 1;
  }

  lemma {:induction false} FirstLeafDoubles(height: nat, pos: nat)
    ensures FirstLeaf(height, 2 * pos) == 2 * FirstLeaf(height, pos)
    decreases height
  {
    if height > 0 { FirstLeafDoubles(height - 1, 2 * pos); }
  }

  /** A node exists exactly when it has a leaf. */
  lemma {:induction false} NodeHasLeaf(n: nat, height: nat, pos: nat)
    ensures pos < CalcTreeWidth(n, height) <==> FirstLeaf(height, pos) < n
    decreases height
  {
    if height == 0 {
      WidthZero(n);
    } else {
      WidthBelow(n, height);
      NodeHasLeaf((n + 1) / 2, height - 1, pos);
      FirstLeafDoubles(height - 1, pos);
    }
  }

  lemma {:induction false} FirstLeafMonotone(height: nat, p: nat, q: nat)
    requires p < q
    ensures FirstLeaf(height, p) < FirstLeaf(height, q)
    decreases height
  {
    if height > 0 { FirstLeafMonotone(height - 1, 2 * p, 2 * q); }
  }

  /** The height of the tree: the first level with at most one node. */
  method CalcHeight(n: nat) returns (height: nat)
    ensures CalcTreeWidth(n, height) <= 1
    ensures n > 0 ==> CalcTreeWidth(n, height) == 1
    ensures height == TreeHeight(n)
  {
    height := 0;
    WidthZero(n);
    while CalcTreeWidth(n, height) > 1
      invariant n > 0 ==> CalcTreeWidth(n, height) > 0
      invariant TreeHeight(n) == height + TreeHeight(CalcTreeWidth(n, height))
      decreases CalcTreeWidth(n, height)
    {
      height := height + 1;
      WidthHalves(n, height);
    }
  }

  // ---------------------------------------------------------------------------
  // The full tree and the encoding of a selection
  // ---------------------------------------------------------------------------

  datatype Block = Block(txids: seq<Hash>, match_: seq<bool>)

  predicate IsNode(n: nat, height: nat, pos: nat) {
    pos < CalcTreeWidth(n, height)
  }

  /** The left child of a node always exists. */
  lemma LeftChild(n: nat, height: nat, pos: nat)
    requires height > 0 && IsNode(n, height, pos)
    ensures IsNode(n, height - 1, 2 * pos)
  {
    WidthHalves(n, height);
  }

  function CalcHash(H: PairHash, txids: seq<Hash>, height: nat, pos: nat): Hash
    requires IsNode(|txids|, height, pos)
    decreases height
  {
    if height == 0 then WidthZero(|txids|); txids[pos]
    else
      LeftChild(|txids|, height, pos);
      var left := CalcHash(H, txids, height - 1, 2 * pos);
      var right :=
        if IsNode(|txids|, height - 1, 2 * pos + 1) then CalcHash(H, txids, height - 1, 2 * pos + 1)
        else left;
      H(left, right)
  }

  lemma {:induction false} SameWidth(n: nat, height: nat)
    ensures CalcTreeWidth(n, height) == Width(n, height)
    decreases height
  {
    if height == 0 {
      WidthZero(n);
    } else {
      WidthBelow(n, height);
      SameWidth((n + 1) / 2, height - 1);
    }
  }

  /** A node of the tree is the one that repeated pairing of the transaction list gives. */
  lemma {:induction false} CalcHashIsNode(H: PairHash, txids: seq<Hash>, height: nat, pos: nat)
    requires IsNode(|txids|, height, pos)
    ensures pos < |Level(H, txids, height)| && CalcHash(H, txids, height, pos) == Level(H, txids, height)[pos]
    decreases height
  {
    hide CalcTreeWidth, Level, Width, Paired;
    SameWidth(|txids|, height);
    LevelWidth(H, txids, height);
    if height == 0 {
      WidthZero(|txids|);
      LevelZero(H, txids);
    } else {
      LeftChild(|txids|, height, pos);
      SameWidth(|txids|, height - 1);
      LevelWidth(H, txids, height - 1);
      CalcHashIsNode(H, txids, height - 1, 2 * pos);
      if IsNode(|txids|, height - 1, 2 * pos + 1) { CalcHashIsNode(H, txids, height - 1, 2 * pos + 1); }
      LevelNext(H, txids, height - 1);
      PairedAt(H, Level(H, txids, height - 1), pos);
    }
  }

  lemma LevelZero(H: PairHash, x: seq<Hash>)
    ensures Level(H, x, 0) == x
  {
  }

  /** The root of the partial tree is the Merkle root of the block. */
  lemma RootIsMerkleRoot(H: PairHash, txids: seq<Hash>)
    requires txids != []
    ensures IsNode(|txids|, TreeHeight(|txids|), 0)
    ensures CalcHash(H, txids, TreeHeight(|txids|), 0) == MerkleRoot(H, txids)
  {
    RootIsNode(|txids|);
    hide CalcTreeWidth, Level, CalcHash, MerkleRoot, TreeHeight;
    CalcHashIsNode(H, txids, TreeHeight(|txids|), 0);
    RootIsTop(H, txids);
  }

  /** Some leaf of the node is selected. */
  predicate ParentOfMatch(match_: seq<bool>, height: nat, pos: nat) {
    exists p :: FirstLeaf(height, pos) <= p < FirstLeaf(height, pos + 1) && p < |match_| && match_[p]
  }

  /** The flag bits of the depth-first traversal. */
  function NodeBits(b: Block, height: nat, pos: nat): (r: seq<bool>)
    ensures r != []
    decreases height
  {
    var f := ParentOfMatch(b.match_, height, pos);
    if height == 0 || !f then [f]
    else
      [f] + NodeBits(b, height - 1, 2 * pos) +
      (if IsNode(|b.txids|, height - 1, 2 * pos + 1) then NodeBits(b, height - 1, 2 * pos + 1) else [])
  }

  /** The hashes it stores. */
  function NodeHashes(H: PairHash, b: Block, height: nat, pos: nat): seq<Hash>
    requires IsNode(|b.txids|, height, pos)
    decreases height
  {
    if height == 0 || !ParentOfMatch(b.match_, height, pos) then [CalcHash(H, b.txids, height, pos)]
    else
      LeftChild(|b.txids|, height, pos);
      NodeHashes(H, b, height - 1, 2 * pos) +
      (if IsNode(|b.txids|, height - 1, 2 * pos + 1) then NodeHashes(H, b, height - 1, 2 * pos + 1) else [])
  }

  /** The selected transactions below a node, in order. */
  function Selected(b: Block, lo: nat, hi: nat): (r: seq<(Hash, nat)>)
    requires |b.match_| == |b.txids|
    decreases hi - lo
  {
    if lo >= hi || lo >= |b.txids| then []
    else (if b.match_[lo] then [(b.txids[lo], lo)] else []) + Selected(b, lo + 1, hi)
  }

  // ---------------------------------------------------------------------------
  // Extraction
  // ---------------------------------------------------------------------------

  /** What reading a subtree yields: its hash, the two cursors, an error flag, the matches. */
  datatype Reading = Reading(hash: Hash, bits: nat, hashes: nat, bad: bool, matches: seq<(Hash, nat)>)

  function Extract(H: PairHash, n: nat, vBits: seq<bool>, vHash: seq<Hash>,
                   height: nat, pos: nat, bits: nat, hashes: nat): (r: Reading)
    decreases height
  {
    if bits >= |vBits| then Reading(NULL_HASH, bits, hashes, true, [])
    else if height == 0 || !vBits[bits] then
      if hashes >= |vHash| then Reading(NULL_HASH, bits + 1, hashes, true, [])
      else
        Reading(vHash[hashes], bits + 1, hashes + 1, false,
                if height == 0 && vBits[bits] then [(vHash[hashes], pos)] else [])
    else
      var left := Extract(H, n, vBits, vHash, height - 1, 2 * pos, bits + 1, hashes);
      if IsNode(n, height - 1, 2 * pos + 1) then
        var right := Extract(H, n, vBits, vHash, height - 1, 2 * pos + 1, left.bits, left.hashes);
        Reading(H(left.hash, right.hash), right.bits, right.hashes,
                left.bad || right.bad || right.hash == left.hash, left.matches + right.matches)
      else
        Reading(H(left.hash, left.hash), left.bits, left.hashes, left.bad, left.matches)
  }

  /** The tests around the traversal. */
  predicate Accepted(n: nat, vBits: seq<bool>, vHash: seq<Hash>, r: Reading) {
    && 0 < n <= MAX_TRANSACTIONS
    && |vHash| <= n && |vHash| <= |vBits|
    && !r.bad
    && (r.bits + 7) / 8 == (|vBits| + 7) / 8
    && r.hashes == |vHash|
  }

  function ReadTree(H: PairHash, n: nat, vBits: seq<bool>, vHash: seq<Hash>): Reading {
    Extract(H, n, vBits, vHash, TreeHeight(n), 0, 0, 0)
  }

  function Hashes(m: seq<(Hash, nat)>): seq<Hash> { seq(|m|, i requires 0 <= i < |m| => m[i].0) }
  function Indexes(m: seq<(Hash, nat)>): seq<nat> { seq(|m|, i requires 0 <= i < |m| => m[i].1) }

  lemma NoMatches()
    ensures Hashes([]) == [] && Indexes([]) == []
  {
  }

  lemma OneMatch(hash: Hash, pos: nat)
    ensures Hashes([(hash, pos)]) == [hash] && Indexes([(hash, pos)]) == [pos]
  {
  }

  lemma MatchesAppend(m: seq<(Hash, nat)>, k: seq<(Hash, nat)>)
    ensures Hashes(m + k) == Hashes(m) + Hashes(k) && Indexes(m + k) == Indexes(m) + Indexes(k)
  {
  }

  lemma Regroup<T>(a: seq<T>, b: seq<T>, c: seq<T>, d: seq<T>)
    ensures a + b + c + d == a + (b + c + d) && a + b + c == a + (b + c + [])
    ensures a + c + d == a + (c + d) && a + [] + c == a + c
  {
  }

  class PartialMerkleTree {
    const H: PairHash
    var nTransactions: nat
    var vBits: seq<bool>
    var vHash: seq<Hash>
    var fBad: bool

    /** As received: any bits and hashes. */
    constructor Received(H: PairHash, n: nat, bits: seq<bool>, hashes: seq<Hash>)
      ensures this.H == H && nTransactions == n && vBits == bits && vHash == hashes && !fBad
    {
      this.H, nTransactions, vBits, vHash, fBad := H, n, bits, hashes, false;
    }

    /** Built from a block and a selection of its transactions. */
    constructor (H: PairHash, b: Block)
      requires |b.match_| == |b.txids| > 0
      ensures this.H == H && nTransactions == |b.txids| && !fBad
      ensures IsNode(|b.txids|, TreeHeight(|b.txids|), 0)
      ensures vBits == NodeBits(b, TreeHeight(|b.txids|), 0)
      ensures vHash == NodeHashes(H, b, TreeHeight(|b.txids|), 0)
    {
      this.H, nTransactions, vBits, vHash, fBad := H, |b.txids|, [], [], false;
      new;
      hide NodeBits, NodeHashes, CalcTreeWidth;
      var height := CalcHeight(nTransactions);
      TraverseAndBuild(height, 0, b);
    }

    method TraverseAndBuild(height: nat, pos: nat, b: Block)
      requires nTransactions == |b.txids| == |b.match_| && IsNode(nTransactions, height, pos)
      modifies this`vBits, this`vHash
      ensures vBits == old(vBits) + NodeBits(b, height, pos)
      ensures vHash == old(vHash) + NodeHashes(H, b, height, pos)
      decreases height
    {
      hide CalcTreeWidth, CalcHash, ParentOfMatch;
      var parentOfMatch := FindMatch(b.match_, height, pos);
      vBits := vBits + [parentOfMatch];
      if height == 0 || !parentOfMatch {
        vHash := vHash + [CalcHash(H, b.txids, height, pos)];
      } else {
        LeftChild(nTransactions, height, pos);
        TraverseAndBuild(height - 1, pos * 2, b);
        if pos * 2 + 1 < CalcTreeWidth(nTransactions, height - 1) {
          TraverseAndBuild(height - 1, pos * 2 + 1, b);
          Regroup(old(vHash), [], NodeHashes(H, b, height - 1, pos * 2), NodeHashes(H, b, height - 1, pos * 2 + 1));
          Regroup(old(vBits), [true], NodeBits(b, height - 1, pos * 2), NodeBits(b, height - 1, pos * 2 + 1));
        } else {
          Regroup(old(vBits), [true], NodeBits(b, height - 1, pos * 2), []);
          Regroup(old(vHash), [], NodeHashes(H, b, height - 1, pos * 2), []);
        }
      }
    }

    /** Reads one subtree; the cursors and the result vectors come back as values. */
    method TraverseAndExtract(height: nat, pos: nat, nBitsUsed: nat, nHashUsed: nat,
                              vMatch: seq<Hash>, vnIndex: seq<nat>)
      returns (hash: Hash, bitsUsed: nat, hashUsed: nat, matches: seq<Hash>, indexes: seq<nat>)
      modifies this`fBad
      ensures var r := Extract(H, nTransactions, vBits, vHash, height, pos, nBitsUsed, nHashUsed);
              && hash == r.hash && bitsUsed == r.bits && hashUsed == r.hashes
              && fBad == (old(fBad) || r.bad)
              && matches == vMatch + Hashes(r.matches) && indexes == vnIndex + Indexes(r.matches)
      decreases height
    {
      hide CalcTreeWidth, Hashes, Indexes;
      bitsUsed, hashUsed, matches, indexes := nBitsUsed, nHashUsed, vMatch, vnIndex;
      NoMatches();
      if bitsUsed >= |vBits| {
        fBad := true;
        hash := NULL_HASH;
        return;
      }
      var parentOfMatch := vBits[bitsUsed];
      bitsUsed := bitsUsed + 1;
      if height == 0 || !parentOfMatch {
        if hashUsed >= |vHash| {
          fBad := true;
          hash := NULL_HASH;
          return;
        }
        hash := vHash[hashUsed];
        hashUsed := hashUsed + 1;
        if height == 0 && parentOfMatch {
          matches := matches + [hash];
          indexes := indexes + [pos];
          OneMatch(hash, pos);
        }
      } else {
        var left;
        left, bitsUsed, hashUsed, matches, indexes :=
          TraverseAndExtract(height - 1, pos * 2, bitsUsed, hashUsed, matches, indexes);
        var right := left;
        if pos * 2 + 1 < CalcTreeWidth(nTransactions, height - 1) {
          right, bitsUsed, hashUsed, matches, indexes :=
            TraverseAndExtract(height - 1, pos * 2 + 1, bitsUsed, hashUsed, matches, indexes);
          if right == left { fBad := true; }
        }
        hash := H(left, right);
        ghost var l := Extract(H, nTransactions, vBits, vHash, height - 1, pos * 2, nBitsUsed + 1, nHashUsed);
        ghost var r := Extract(H, nTransactions, vBits, vHash, height - 1, pos * 2 + 1, l.bits, l.hashes);
        MatchesAppend(l.matches, r.matches);
        Regroup(vMatch, [], Hashes(l.matches), Hashes(r.matches));
        Regroup(vnIndex, [], Indexes(l.matches), Indexes(r.matches));
      }
    }

    /** Returns the root, or the null hash on failure; vnIndex is appended to, vMatch replaced. */
    method ExtractMatches(vnIndex: seq<nat>) returns (root: Hash, vMatch: seq<Hash>, indexes: seq<nat>)
      modifies this`fBad
      ensures var r := ReadTree(H, nTransactions, vBits, vHash);
              && root == (if !old(fBad) && Accepted(nTransactions, vBits, vHash, r) then r.hash else NULL_HASH)
              && (root != NULL_HASH ==> vMatch == Hashes(r.matches) && indexes == vnIndex + Indexes(r.matches))
    {
      hide Extract, Hashes, Indexes;
      root, vMatch, indexes := NULL_HASH, [], vnIndex;
      if nTransactions == 0 { return; }
      if nTransactions > MAX_TRANSACTIONS { return; }
      if |vHash| > nTransactions { return; }
      if |vBits| < |vHash| { return; }
      var height := CalcHeight(nTransactions);
      var hash, bitsUsed, hashUsed;
      hash, bitsUsed, hashUsed, vMatch, indexes := TraverseAndExtract(height, 0, 0, 0, vMatch, indexes);
      if fBad { return; }
      if (bitsUsed + 7) / 8 != (|vBits| + 7) / 8 { return; }
      if hashUsed != |vHash| { return; }
      root := hash;
    }
  }

  /** The loop that tests whether a selected leaf is below a node. */
  method FindMatch(match_: seq<bool>, height: nat, pos: nat) returns (found: bool)
    ensures found == ParentOfMatch(match_, height, pos)
  {
    found := false;
    var p := FirstLeaf(height, pos);
    while p < FirstLeaf(height, pos + 1) && p < |match_|
      invariant FirstLeaf(height, pos) <= p
      invariant found <==> exists q :: FirstLeaf(height, pos) <= q < p && q < |match_| && match_[q]
      invariant p <= FirstLeaf(height, pos + 1) || p == FirstLeaf(height, pos)
      decreases |match_| - p
    {
      found := found || match_[p];
      p := p + 1;
    }
  }

  // ---------------------------------------------------------------------------
  // Soundness
  // ---------------------------------------------------------------------------

  predicate AllRight(txids: seq<Hash>, matches: seq<(Hash, nat)>) {
    forall i :: 0 <= i < |matches| ==> matches[i].1 < |txids| && matches[i].0 == txids[matches[i].1]
  }

  /** A subtree that was read without error and has the true hash yields only true matches. */
  lemma {:induction false} SubtreeSoundness(H: PairHash, txids: seq<Hash>, vBits: seq<bool>, vHash: seq<Hash>,
                                            height: nat, pos: nat, bits: nat, hashes: nat)
    requires CollisionFree(H) && IsNode(|txids|, height, pos)
    ensures var r := Extract(H, |txids|, vBits, vHash, height, pos, bits, hashes);
            !r.bad && r.hash == CalcHash(H, txids, height, pos) ==> AllRight(txids, r.matches)
    decreases height
  {
    var n := |txids|;
    var r := Extract(H, n, vBits, vHash, height, pos, bits, hashes);
    if height == 0 {
      WidthZero(n);
    } else if bits < |vBits| && vBits[bits] {
      hide CalcTreeWidth;
      LeftChild(n, height, pos);
      var left := Extract(H, n, vBits, vHash, height - 1, 2 * pos, bits + 1, hashes);
      SubtreeSoundness(H, txids, vBits, vHash, height - 1, 2 * pos, bits + 1, hashes);
      if IsNode(n, height - 1, 2 * pos + 1) {
        SubtreeSoundness(H, txids, vBits, vHash, height - 1, 2 * pos + 1, left.bits, left.hashes);
      }
    }
  }

  lemma RootIsNode(n: nat)
    requires n > 0
    ensures IsNode(n, TreeHeight(n), 0)
  {
    NodeHasLeaf(n, TreeHeight(n), 0);
    LeafZero(TreeHeight(n));
  }

  lemma {:induction false} LeafZero(height: nat)
    ensures FirstLeaf(height, 0) == 0
  {
    if height > 0 { LeafZero(height - 1); }
  }

  /** Whatever was received: if it hashes up to the block's root, all its claims are true. */
  lemma Soundness(H: PairHash, txids: seq<Hash>, vBits: seq<bool>, vHash: seq<Hash>)
    requires CollisionFree(H) && txids != []
    ensures var r := ReadTree(H, |txids|, vBits, vHash);
            Accepted(|txids|, vBits, vHash, r) && r.hash == MerkleRoot(H, txids) ==> AllRight(txids, r.matches)
  {
    RootIsMerkleRoot(H, txids);
    hide MerkleRoot;
    SubtreeSoundness(H, txids, vBits, vHash, TreeHeight(|txids|), 0, 0, 0);
  }

  // ---------------------------------------------------------------------------
  // Completeness
  // ---------------------------------------------------------------------------

  predicate Distinct(txids: seq<Hash>) {
    forall i, j :: 0 <= i < j < |txids| ==> txids[i] != txids[j]
  }

  /** Different nodes of one level have different hashes: their first leaves differ. */
  lemma {:induction false} NodesDiffer(H: PairHash, txids: seq<Hash>, height: nat, p: nat, q: nat)
    requires CollisionFree(H) && Distinct(txids) && p < q
    requires IsNode(|txids|, height, p) && IsNode(|txids|, height, q)
    ensures CalcHash(H, txids, height, p) != CalcHash(H, txids, height, q)
    decreases height
  {
    if height == 0 {
      WidthZero(|txids|);
    } else {
      LeftChild(|txids|, height, p);
      LeftChild(|txids|, height, q);
      NodesDiffer(H, txids, height - 1, 2 * p, 2 * q);
    }
  }

  /** The selection below a node is that of its children, one after the other. */
  lemma {:induction false} SelectedSplit(b: Block, lo: nat, mid: nat, hi: nat)
    requires |b.match_| == |b.txids| && lo <= mid <= hi
    ensures Selected(b, lo, hi) == Selected(b, lo, mid) + Selected(b, mid, hi)
    decreases mid - lo
  {
    if lo < mid && lo < |b.txids| { SelectedSplit(b, lo + 1, mid, hi); }
  }

  lemma {:induction false} SelectedNone(b: Block, lo: nat, hi: nat)
    requires |b.match_| == |b.txids|
    requires forall p :: lo <= p < hi && p < |b.match_| ==> !b.match_[p]
    ensures Selected(b, lo, hi) == []
    decreases hi - lo
  {
    if lo < hi { SelectedNone(b, lo + 1, hi); }
  }

  function SelectedBelow(b: Block, height: nat, pos: nat): seq<(Hash, nat)>
    requires |b.match_| == |b.txids|
  {
    Selected(b, FirstLeaf(height, pos), FirstLeaf(height, pos + 1))
  }

  lemma SelectedChildren(b: Block, height: nat, pos: nat)
    requires |b.match_| == |b.txids| && height > 0
    ensures SelectedBelow(b, height, pos) ==
            SelectedBelow(b, height - 1, 2 * pos) + SelectedBelow(b, height - 1, 2 * pos + 1)
    ensures !IsNode(|b.txids|, height - 1, 2 * pos + 1) ==> SelectedBelow(b, height - 1, 2 * pos + 1) == []
  {
    FirstLeafMonotone(height - 1, 2 * pos, 2 * pos + 1);
    FirstLeafMonotone(height - 1, 2 * pos + 1, 2 * pos + 2);
    assert 2 * (pos + 1) == 2 * pos + 2;
    SelectedSplit(b, FirstLeaf(height - 1, 2 * pos), FirstLeaf(height - 1, 2 * pos + 1), FirstLeaf(height - 1, 2 * pos + 2));
    NodeHasLeaf(|b.txids|, height - 1, 2 * pos + 1);
  }

  lemma SelectedHere(b: Block, height: nat, pos: nat)
    requires |b.match_| == |b.txids|
    ensures !ParentOfMatch(b.match_, height, pos) ==> SelectedBelow(b, height, pos) == []
    ensures pos < |b.txids| ==>
      ParentOfMatch(b.match_, 0, pos) == b.match_[pos] &&
      SelectedBelow(b, 0, pos) == if b.match_[pos] then [(b.txids[pos], pos)] else []
  {
    if !ParentOfMatch(b.match_, height, pos) {
      SelectedNone(b, FirstLeaf(height, pos), FirstLeaf(height, pos + 1));
    }
    if pos < |b.txids| {
      assert Selected(b, pos + 1, pos + 1) == [];
    }
  }

  /** Reading an honestly written subtree. */
  lemma {:induction false} SubtreeCompleteness(H: PairHash, b: Block, vBits: seq<bool>, vHash: seq<Hash>,
                                               height: nat, pos: nat, bits: nat, hashes: nat)
    requires CollisionFree(H) && Distinct(b.txids) && |b.match_| == |b.txids|
    requires IsNode(|b.txids|, height, pos)
    requires At(vBits, bits, NodeBits(b, height, pos)) && At(vHash, hashes, NodeHashes(H, b, height, pos))
    ensures Extract(H, |b.txids|, vBits, vHash, height, pos, bits, hashes) ==
            Reading(CalcHash(H, b.txids, height, pos),
                    bits + |NodeBits(b, height, pos)|, hashes + |NodeHashes(H, b, height, pos)|,
                    false, SelectedBelow(b, height, pos))
    decreases height
  {
    hide CalcTreeWidth, SelectedBelow, ParentOfMatch;
    var n := |b.txids|;
    var f := ParentOfMatch(b.match_, height, pos);
    SelectedHere(b, height, pos);
    if height == 0 { WidthZero(n); }
    if height == 0 || !f {
      AtFirst(vBits, bits, f);
      AtFirst(vHash, hashes, CalcHash(H, b.txids, height, pos));
    } else {
      InnerCompleteness(H, b, vBits, vHash, height, pos, bits, hashes);
    }
  }

  lemma AtFirst<T>(m: seq<T>, pos: nat, x: T)
    ensures At(m, pos, [x]) ==> pos < |m| && m[pos] == x
  {
    if At(m, pos, [x]) { assert m[pos..pos + 1][0] == x; }
  }

  /** An inner node is written as a set bit, its left subtree and its right subtree if any. */
  lemma WrittenChildren(H: PairHash, b: Block, vBits: seq<bool>, vHash: seq<Hash>,
                        height: nat, pos: nat, bits: nat, hashes: nat)
    requires height > 0 && IsNode(|b.txids|, height, pos) && ParentOfMatch(b.match_, height, pos)
    requires IsNode(|b.txids|, height - 1, 2 * pos)
    requires At(vBits, bits, NodeBits(b, height, pos)) && At(vHash, hashes, NodeHashes(H, b, height, pos))
    ensures bits < |vBits| && vBits[bits]
    ensures var leftBits, leftHashes := NodeBits(b, height - 1, 2 * pos), NodeHashes(H, b, height - 1, 2 * pos);
            && At(vBits, bits + 1, leftBits) && At(vHash, hashes, leftHashes)
            && if IsNode(|b.txids|, height - 1, 2 * pos + 1) then
                 var rightBits, rightHashes := NodeBits(b, height - 1, 2 * pos + 1), NodeHashes(H, b, height - 1, 2 * pos + 1);
                 && At(vBits, bits + 1 + |leftBits|, rightBits) && At(vHash, hashes + |leftHashes|, rightHashes)
                 && |NodeBits(b, height, pos)| == 1 + |leftBits| + |rightBits|
                 && |NodeHashes(H, b, height, pos)| == |leftHashes| + |rightHashes|
               else
                 |NodeBits(b, height, pos)| == 1 + |leftBits| && NodeHashes(H, b, height, pos) == leftHashes
  {
    hide CalcTreeWidth, ParentOfMatch, At, CalcHash;
    var leftBits, leftHashes := NodeBits(b, height - 1, 2 * pos), NodeHashes(H, b, height - 1, 2 * pos);
    if IsNode(|b.txids|, height - 1, 2 * pos + 1) {
      var rightBits, rightHashes := NodeBits(b, height - 1, 2 * pos + 1), NodeHashes(H, b, height - 1, 2 * pos + 1);
      assert NodeBits(b, height, pos) == [true] + (leftBits + rightBits);
      AtSplit(vBits, bits, [true], leftBits + rightBits);
      AtSplit(vBits, bits + 1, leftBits, rightBits);
      AtSplit(vHash, hashes, leftHashes, rightHashes);
    } else {
      assert NodeBits(b, height, pos) == [true] + leftBits;
      assert NodeHashes(H, b, height, pos) == leftHashes;
      AtSplit(vBits, bits, [true], leftBits);
    }
    AtFirst(vBits, bits, true);
  }

  lemma {:induction false} InnerCompleteness(H: PairHash, b: Block, vBits: seq<bool>, vHash: seq<Hash>,
                                             height: nat, pos: nat, bits: nat, hashes: nat)
    requires CollisionFree(H) && Distinct(b.txids) && |b.match_| == |b.txids|
    requires height > 0 && IsNode(|b.txids|, height, pos) && ParentOfMatch(b.match_, height, pos)
    requires At(vBits, bits, NodeBits(b, height, pos)) && At(vHash, hashes, NodeHashes(H, b, height, pos))
    ensures Extract(H, |b.txids|, vBits, vHash, height, pos, bits, hashes) ==
            Reading(CalcHash(H, b.txids, height, pos),
                    bits + |NodeBits(b, height, pos)|, hashes + |NodeHashes(H, b, height, pos)|,
                    false, SelectedBelow(b, height, pos))
    decreases height, 0
  {
    hide CalcTreeWidth, SelectedBelow, ParentOfMatch, At, NodeBits, NodeHashes, CollisionFree, Distinct;
    var n := |b.txids|;
    LeftChild(n, height, pos);
    SelectedChildren(b, height, pos);
    WrittenChildren(H, b, vBits, vHash, height, pos, bits, hashes);
    SubtreeCompleteness(H, b, vBits, vHash, height - 1, 2 * pos, bits + 1, hashes);
    if IsNode(n, height - 1, 2 * pos + 1) {
      SubtreeCompleteness(H, b, vBits, vHash, height - 1, 2 * pos + 1,
                          bits + 1 + |NodeBits(b, height - 1, 2 * pos)|, hashes + |NodeHashes(H, b, height - 1, 2 * pos)|);
      NodesDiffer(H, b.txids, height - 1, 2 * pos, 2 * pos + 1);
    } else {
      assert SelectedBelow(b, height - 1, 2 * pos) + [] == SelectedBelow(b, height - 1, 2 * pos);
    }
  }

  // ---------------------------------------------------------------------------
  // Size bounds
  // ---------------------------------------------------------------------------

  /** At most one stored hash per leaf below the node. */
  lemma {:induction false} HashesPerLeaf(H: PairHash, b: Block, height: nat, pos: nat)
    requires IsNode(|b.txids|, height, pos)
    ensures FirstLeaf(height, pos) + |NodeHashes(H, b, height, pos)| <= |b.txids|
    ensures FirstLeaf(height, pos) + |NodeHashes(H, b, height, pos)| <= FirstLeaf(height, pos + 1)
    decreases height
  {
    hide CalcTreeWidth, ParentOfMatch, CalcHash;
    NodeHasLeaf(|b.txids|, height, pos);
    FirstLeafMonotone(height, pos, pos + 1);
    if height > 0 && ParentOfMatch(b.match_, height, pos) {
      LeftChild(|b.txids|, height, pos);
      HashesPerLeaf(H, b, height - 1, 2 * pos);
      FirstLeafMonotone(height - 1, 2 * pos + 1, 2 * pos + 2);
      assert 2 * (pos + 1) == 2 * pos + 2;
      if IsNode(|b.txids|, height - 1, 2 * pos + 1) { HashesPerLeaf(H, b, height - 1, 2 * pos + 1); }
    }
  }

  /** At most one stored hash, plus one per level for each match. */
  lemma {:induction false} HashesPerMatch(H: PairHash, b: Block, height: nat, pos: nat)
    requires |b.match_| == |b.txids| && IsNode(|b.txids|, height, pos)
    ensures |NodeHashes(H, b, height, pos)| <= 1 + |SelectedBelow(b, height, pos)| * height
    decreases height
  {
    if height > 0 && ParentOfMatch(b.match_, height, pos) {
      hide CalcTreeWidth, CalcHash, SelectedBelow;
      LeftChild(|b.txids|, height, pos);
      SelectedChildren(b, height, pos);
      MatchIsSelected(b, height, pos);
      var l, r := |SelectedBelow(b, height - 1, 2 * pos)|, |SelectedBelow(b, height - 1, 2 * pos + 1)|;
      HashesPerMatch(H, b, height - 1, 2 * pos);
      if IsNode(|b.txids|, height - 1, 2 * pos + 1) { HashesPerMatch(H, b, height - 1, 2 * pos + 1); }
      OnePerLevel(l, r, height);
    }
  }

  lemma OnePerLevel(l: nat, r: nat, height: nat)
    requires l + r > 0 && height > 0
    ensures (1 + l * (height - 1)) + (1 + r * (height - 1)) <= 1 + (l + r) * height
  {
    assert (l + r) * height == l * (height - 1) + r * (height - 1) + (l + r);
  }

  lemma MatchIsSelected(b: Block, height: nat, pos: nat)
    requires |b.match_| == |b.txids| && ParentOfMatch(b.match_, height, pos)
    ensures SelectedBelow(b, height, pos) != []
  {
    var lo, hi := FirstLeaf(height, pos), FirstLeaf(height, pos + 1);
    var p :| lo <= p < hi && p < |b.match_| && b.match_[p];
    SelectedSplit(b, lo, p, hi);
    assert Selected(b, p, hi) != [];
  }

  /** The two bounds on the number of stored hashes, for a whole block. */
  lemma EncodedHashes(H: PairHash, b: Block)
    requires |b.match_| == |b.txids| > 0
    ensures IsNode(|b.txids|, TreeHeight(|b.txids|), 0)
    ensures var height := TreeHeight(|b.txids|);
            var stored := |NodeHashes(H, b, height, 0)|;
            stored <= |b.txids| && stored <= 1 + |Selected(b, 0, |b.txids|)| * height
  {
    var n, height := |b.txids|, TreeHeight(|b.txids|);
    RootIsNode(n);
    hide NodeHashes, CalcTreeWidth;
    LeafZero(height);
    HashesPerLeaf(H, b, height, 0);
    HashesPerMatch(H, b, height, 0);
    RootCoversAll(n);
    SelectedBeyond(b, 0, n, FirstLeaf(height, 1));
  }

  /** The traversed inner nodes that have only a left child. */
  function OnlyChildren(b: Block, height: nat, pos: nat): nat {
    if height == 0 || !ParentOfMatch(b.match_, height, pos) then 0
    else if IsNode(|b.txids|, height - 1, 2 * pos + 1) then
      OnlyChildren(b, height - 1, 2 * pos) + OnlyChildren(b, height - 1, 2 * pos + 1)
    else 1 + OnlyChildren(b, height - 1, 2 * pos)
  }

  /**
   The comment in the source bounds the flag bits by twice the number of hashes minus one.
   That holds exactly when no node with a single child is entered.
   */
  lemma {:induction false} FlagBitCount(H: PairHash, b: Block, height: nat, pos: nat)
    requires IsNode(|b.txids|, height, pos)
    ensures |NodeBits(b, height, pos)| == 2 * |NodeHashes(H, b, height, pos)| - 1 + OnlyChildren(b, height, pos)
    ensures |NodeBits(b, height, pos)| <= 2 * |NodeHashes(H, b, height, pos)| - 1 <==> OnlyChildren(b, height, pos) == 0
    decreases height
  {
    if height > 0 && ParentOfMatch(b.match_, height, pos) {
      hide CalcTreeWidth, CalcHash, ParentOfMatch;
      LeftChild(|b.txids|, height, pos);
      FlagBitCount(H, b, height - 1, 2 * pos);
      if IsNode(|b.txids|, height - 1, 2 * pos + 1) { FlagBitCount(H, b, height - 1, 2 * pos + 1); }
    }
  }

  lemma MatchAt(match_: seq<bool>, height: nat, pos: nat, p: nat)
    requires FirstLeaf(height, pos) <= p < FirstLeaf(height, pos + 1) && p < |match_| && match_[p]
    ensures ParentOfMatch(match_, height, pos)
  {
  }

  /** Three transactions with the last one selected need four bits for two hashes. */
  lemma FlagBitsExceedComment(H: PairHash, b: Block)
    requires |b.txids| == 3 && b.match_ == [false, false, true]
    ensures IsNode(3, 2, 0) && OnlyChildren(b, 2, 0) == 1
    ensures |NodeBits(b, 2, 0)| == 2 * |NodeHashes(H, b, 2, 0)|
  {
    NodeHasLeaf(3, 2, 0);
    NodeHasLeaf(3, 1, 1);
    NodeHasLeaf(3, 0, 3);
    assert FirstLeaf(1, 1) == 2 && FirstLeaf(1, 2) == 4 && FirstLeaf(2, 0) == 0 && FirstLeaf(2, 1) == 4;
    assert FirstLeaf(1, 0) == 0;
    MatchAt(b.match_, 1, 1, 2);
    MatchAt(b.match_, 2, 0, 2);
    assert !ParentOfMatch(b.match_, 1, 0);
    FlagBitCount(H, b, 2, 0);
  }

  // ---------------------------------------------------------------------------
  // Flag bytes
  // ---------------------------------------------------------------------------

  /** Eight bits, least significant first. */
  type FlagByte = bv8

  predicate BitOf(x: FlagByte, k: nat)
    requires k < 8
  {
    x & (1 << k) != 0
  }

  lemma SetBit(x: FlagByte, k: nat, j: nat)
    requires k < 8 && j < 8
    ensures BitOf(x | (1 << k), j) == (j == k || BitOf(x, j))
  {
  }

  /** The first of the eight is worth one, the last one 128. */
  lemma BitWeights(x: FlagByte)
    ensures x as int == (if BitOf(x, 0) then 1 else 0) + (if BitOf(x, 1) then 2 else 0) +
      (if BitOf(x, 2) then 4 else 0) + (if BitOf(x, 3) then 8 else 0) + (if BitOf(x, 4) then 16 else 0) +
      (if BitOf(x, 5) then 32 else 0) + (if BitOf(x, 6) then 64 else 0) + (if BitOf(x, 7) then 128 else 0)
  {
  }

  method PackBits(vBits: seq<bool>) returns (vBytes: seq<FlagByte>)
    ensures |vBytes| == (|vBits| + 7) / 8
    ensures forall p :: 0 <= p < 8 * |vBytes| ==> BitOf(vBytes[p / 8], p % 8) == (p < |vBits| && vBits[p])
  {
    vBytes := seq((|vBits| + 7) / 8, _ => 0 as FlagByte);
    for p := 0 to |vBits|
      invariant |vBytes| == (|vBits| + 7) / 8
      invariant forall q :: 0 <= q < 8 * |vBytes| ==> BitOf(vBytes[q / 8], q % 8) == (q < p && vBits[q])
    {
      ghost var before := vBytes;
      if vBits[p] {
        vBytes := vBytes[p / 8 := vBytes[p / 8] | (1 << (p % 8))];
      }
      forall q | 0 <= q < 8 * |vBytes|
        ensures BitOf(vBytes[q / 8], q % 8) == (q < p + 1 && vBits[q])
      {
        SetBit(before[p / 8], p % 8, q % 8);
      }
    }
  }

  method UnpackBits(vBytes: seq<FlagByte>) returns (vBits: seq<bool>)
    ensures |vBits| == 8 * |vBytes|
    ensures forall p :: 0 <= p < |vBits| ==> vBits[p] == BitOf(vBytes[p / 8], p % 8)
  {
    vBits := [];
    for p := 0 to 8 * |vBytes|
      invariant |vBits| == p
      invariant forall q :: 0 <= q < p ==> vBits[q] == BitOf(vBytes[q / 8], q % 8)
    {
      vBits := vBits + [vBytes[p / 8] & (1 << (p % 8)) != 0];
    }
  }

  // ---------------------------------------------------------------------------
  // The whole path: build, pack, unpack, extract
  // ---------------------------------------------------------------------------

  /** The written tree, with at most seven padding bits, is accepted and read back exactly. */
  lemma Completeness(H: PairHash, b: Block, vBits: seq<bool>)
    requires CollisionFree(H) && Distinct(b.txids) && |b.match_| == |b.txids|
    requires 0 < |b.txids| <= MAX_TRANSACTIONS && IsNode(|b.txids|, TreeHeight(|b.txids|), 0)
    requires At(vBits, 0, NodeBits(b, TreeHeight(|b.txids|), 0))
    requires |vBits| < |NodeBits(b, TreeHeight(|b.txids|), 0)| + 8 && |vBits| % 8 == 0
    ensures var height := TreeHeight(|b.txids|);
            var vHash := NodeHashes(H, b, height, 0);
            var r := ReadTree(H, |b.txids|, vBits, vHash);
            && Accepted(|b.txids|, vBits, vHash, r)
            && r.hash == MerkleRoot(H, b.txids)
            && r.matches == Selected(b, 0, |b.txids|)
  {
    hide NodeBits, NodeHashes, CalcTreeWidth, Extract, MerkleRoot, CalcHash, TreeHeight, FirstLeaf, Selected;
    RootIsMerkleRoot(H, b.txids);
    var n, height := |b.txids|, TreeHeight(|b.txids|);
    var vHash := NodeHashes(H, b, height, 0);
    assert vHash[0..0 + |vHash|] == vHash;
    SubtreeCompleteness(H, b, vBits, vHash, height, 0, 0, 0);
    HashesPerLeaf(H, b, height, 0);
    LeafZero(height);
    BitsCoverHashes(H, b, height, 0);
    RootCoversAll(n);
    SelectedBeyond(b, 0, n, FirstLeaf(height, 1));
  }

  /** Every stored hash has a bit of its own. */
  lemma {:induction false} BitsCoverHashes(H: PairHash, b: Block, height: nat, pos: nat)
    requires IsNode(|b.txids|, height, pos)
    ensures |NodeHashes(H, b, height, pos)| <= |NodeBits(b, height, pos)|
    decreases height
  {
    if height > 0 && ParentOfMatch(b.match_, height, pos) {
      hide CalcTreeWidth, CalcHash, ParentOfMatch;
      LeftChild(|b.txids|, height, pos);
      BitsCoverHashes(H, b, height - 1, 2 * pos);
      if IsNode(|b.txids|, height - 1, 2 * pos + 1) { BitsCoverHashes(H, b, height - 1, 2 * pos + 1); }
    }
  }

  lemma {:induction false} RootCoversAll(n: nat)
    ensures FirstLeaf(TreeHeight(n), 1) >= n
  {
    if n > 1 {
      RootCoversAll((n + 1) / 2);
      FirstLeafDoubles(TreeHeight((n + 1) / 2), 1);
    }
  }

  lemma {:induction false} SelectedBeyond(b: Block, lo: nat, n: nat, hi: nat)
    requires |b.match_| == |b.txids| == n <= hi && lo <= n
    ensures Selected(b, lo, hi) == Selected(b, lo, n)
  {
    SelectedSplit(b, lo, n, hi);
    assert Selected(b, n, hi) == [];
  }

  /** An honest proof, sent as bytes and received by someone who knows only the header's root. */
  method SendAndReceive(H: PairHash, b: Block) returns (root: Hash, vMatch: seq<Hash>, vnIndex: seq<nat>)
    requires |b.match_| == |b.txids| && 0 < |b.txids| <= MAX_TRANSACTIONS
    requires CollisionFree(H) && Distinct(b.txids)
    ensures root == MerkleRoot(H, b.txids)
    ensures root != NULL_HASH ==>
      vMatch == Hashes(Selected(b, 0, |b.txids|)) && vnIndex == Indexes(Selected(b, 0, |b.txids|))
  {
    hide NodeBits, NodeHashes, CalcTreeWidth, Extract, Hashes, Indexes, CalcHash, Selected, BitOf,
         MerkleRoot;
    var sent := new PartialMerkleTree(H, b);
    var vBytes := PackBits(sent.vBits);
    var vBits := UnpackBits(vBytes);
    assert vBits[0..0 + |sent.vBits|] == sent.vBits;
    Completeness(H, b, vBits);
    var received := new PartialMerkleTree.Received(H, |b.txids|, vBits, sent.vHash);
    root, vMatch, vnIndex := received.ExtractMatches([]);
    assert [] + vnIndex == vnIndex;
  }
}

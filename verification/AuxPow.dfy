/**
 Merged mining, src/auxpow.cpp: when a parent block's work counts for an auxiliary block.  Hash is
 an arbitrary function of two 32-byte strings; a statement that needs it to be free of collisions
 produces the collision.
 */
module AuxPow {
  import opened Common
  import opened IntMath
  import Merkle

  type U256 = s: Bytes | |s| == 32 witness seq(32, _ => 0)
  type PairHash = (U256, U256) -> U256

  const UINT32 := 0x1_0000_0000
  const HEADER: Bytes := [0xfa, 0xbe, 0x6d, 0x6d]

  // ---------------------------------------------------------------------------
  // Merkle branches
  // ---------------------------------------------------------------------------

  function PairUp(H: PairHash, hash: U256, sibling: U256, index: int): U256 {
    if index % 2 == 1 then H(sibling, hash) else H(hash, sibling)
  }

  /** The root of a tree with the given leaf, siblings and position. */
  function BranchRoot(H: PairHash, hash: U256, branch: seq<U256>, index: int): U256
    decreases |branch|
  {
    if branch == [] then hash else BranchRoot(H, PairUp(H, hash, branch[0], index), branch[1..], index / 2)
  }

  function CheckedRoot(H: PairHash, hash: U256, branch: seq<U256>, index: int): U256 {
    if index == -1 then seq(32, _ => 0) else BranchRoot(H, hash, branch, index)
  }

  method CheckMerkleBranch(H: PairHash, hash: U256, branch: seq<U256>, index: int) returns (r: U256)
    ensures r == CheckedRoot(H, hash, branch, index)
  {
    if index == -1 { return seq(32, _ => 0); }
    var nIndex := index;
    r := hash;
    for i := 0 to |branch|
      invariant BranchRoot(H, r, branch[i..], nIndex) == BranchRoot(H, hash, branch, index)
    {
      assert branch[i..][1..] == branch[i + 1..];
      if nIndex % 2 == 1 { r := H(branch[i], r); } else { r := H(r, branch[i]); }
      nIndex := nIndex / 2;
    }
  }

  lemma {:induction false} BranchRootIsShared(H: PairHash, hash: U256, branch: seq<U256>, index: nat)
    ensures BranchRoot(H, hash, branch, index) == Merkle.RootFromBranch(H, hash, branch, index)
    decreases |branch|
  {
    if branch != [] { BranchRootIsShared(H, PairUp(H, hash, branch[0], index), branch[1..], index / 2); }
  }

  /** The branch of a leaf in a full tree leads to that tree's root. */
  lemma LeafReachesRoot(H: PairHash, x: seq<U256>, pos: nat)
    requires pos < |x|
    ensures CheckedRoot(H, x[pos], Merkle.BranchUpTo(H, x, pos, Merkle.TreeHeight(|x|)), pos) == Merkle.MerkleRoot(H, x)
  {
    hide *;
    BranchRootIsShared(H, x[pos], Merkle.BranchUpTo(H, x, pos, Merkle.TreeHeight(|x|)), pos);
    Merkle.BranchLeadsToRoot(H, x, pos);
    NotNull(H, x[pos], Merkle.BranchUpTo(H, x, pos, Merkle.TreeHeight(|x|)), pos);
  }

  lemma NotNull(H: PairHash, hash: U256, branch: seq<U256>, index: nat)
    ensures CheckedRoot(H, hash, branch, index) == BranchRoot(H, hash, branch, index)
  {
  }

  /** Two different pairs with the same hash. */
  datatype Collision = Collision(a: U256, b: U256, c: U256, d: U256)

  predicate IsCollision(H: PairHash, x: Collision) {
    (x.a, x.b) != (x.c, x.d) && H(x.a, x.b) == H(x.c, x.d)
  }

  /** Different leaves at the same position of trees of the same height and root give a collision. */
  lemma {:induction false} SameRootCollides(H: PairHash, h1: U256, b1: seq<U256>, h2: U256, b2: seq<U256>, index: int)
    returns (x: Collision)
    requires |b1| == |b2| && h1 != h2 && BranchRoot(H, h1, b1, index) == BranchRoot(H, h2, b2, index)
    ensures IsCollision(H, x)
    decreases |b1|
  {
    var p1, p2 := PairUp(H, h1, b1[0], index), PairUp(H, h2, b2[0], index);
    if p1 == p2 {
      x := if index % 2 == 1 then Collision(b1[0], h1, b2[0], h2) else Collision(h1, b1[0], h2, b2[0]);
    } else {
      x := SameRootCollides(H, p1, b1[1..], p2, b2[1..], index / 2);
    }
  }

  // ---------------------------------------------------------------------------
  // The slot of a chain
  // ---------------------------------------------------------------------------

  /** One step of the linear congruential generator, in unbounded arithmetic. */
  function Lcg(x: int): int { x * 1103515245 + 12345 }

  /** The slot for a nonce and a chain: unbounded, then modulo the number of slots. */
  function ExpectedIndex(nonce: int, chainId: int, h: nat): int { Mod(Lcg(Lcg(nonce) + chainId), Pow2(h)) }

  function Mod(x: int, m: nat): int
    requires m > 0
  {
    x % m
  }

  /** The same computed with every intermediate result cut to w bits. */
  function ExpectedIndexIn(w: nat, nonce: int, chainId: int, h: nat): int {
    var r1 := Mod(Lcg(Mod(nonce, Pow2(w))), Pow2(w));
    var r2 := Mod(r1 + chainId, Pow2(w));
    Mod(Mod(Lcg(r2), Pow2(w)), Pow2(h))
  }

  /** The first slots of a chain with the id 98 in the largest tree. */
  lemma KnownSlots()
    ensures ExpectedIndex(0, 98, 30) == 29760568 && ExpectedIndex(1, 98, 30) == 73971361
  {
    assert Pow2(10) == 1024;
    Pow2Add(10, 10);
    Pow2Add(10, 20);
  }

  lemma DropMultiple(x: int, q: int, m: nat)
    requires m > 0
    ensures (x + q * m) % m == x % m
  {
    assert (x / m + q) * m == x / m * m + q * m;
    DivideExactly(x + q * m, m, x / m + q, x % m);
  }

  lemma LcgModulo(x: int, m: nat)
    requires m > 0
    ensures Lcg(x % m) % m == Lcg(x) % m
  {
    var q := x / m;
    assert Lcg(x) == Lcg(x % m) + 1103515245 * q * m by { assert x == q * m + x % m; }
    DropMultiple(Lcg(x % m), 1103515245 * q, m);
  }

  lemma AddModulo(x: int, y: int, m: nat)
    requires m > 0
    ensures (x % m + y) % m == (x + y) % m
  {
    assert x + y == x % m + y + x / m * m;
    DropMultiple(x % m + y, x / m, m);
  }

  lemma NestedModulo(x: int, w: nat, h: nat)
    requires h <= w
    ensures x % Pow2(w) % Pow2(h) == x % Pow2(h)
  {
    hide Pow2;
    Pow2Add(w - h, h);
    ModuloOfMultiple(x, Pow2(w - h), Pow2(h), Pow2(w));
  }

  lemma ModuloOfMultiple(x: int, a: nat, b: nat, m: nat)
    requires a > 0 && b > 0 && m == a * b
    ensures m > 0 && x % m % b == x % b
  {
    var q, r := x / m, x % m;
    assert x == q * m + r;
    assert q * (a * b) == q * a * b;
    DropMultiple(r, q * a, b);
  }

  /** Overflow does not matter: any width that holds the slot number gives the same slot. */
  lemma WidthDoesNotMatter(w: nat, nonce: int, chainId: int, h: nat)
    requires h <= w
    ensures ExpectedIndexIn(w, nonce, chainId, h) == ExpectedIndex(nonce, chainId, h)
  {
    hide Pow2, Lcg;
    var m := Pow2(w);
    LcgModulo(nonce, m);
    AddModulo(Lcg(nonce), chainId, m);
    LcgModulo(Lcg(nonce) + chainId, m);
    NestedModulo(Lcg(Lcg(nonce) + chainId), w, h);
  }

  /** The code: 32 bits, at most 30 levels. */
  method GetExpectedIndex(nNonce: nat, nChainId: int, h: nat) returns (r: int)
    requires nNonce < UINT32 && h <= 30
    ensures r == ExpectedIndex(nNonce, nChainId, h)
  {
    Pow2Of32();
    hide Pow2;
    WidthDoesNotMatter(32, nNonce, nChainId, h);
    assert Mod(nNonce, UINT32) == nNonce;
    hide Lcg;
    var rand := nNonce;
    rand := NextRandom(rand);
    rand := (rand + nChainId) % UINT32;
    rand := NextRandom(rand);
    hide Mod;
    r := SlotOf(rand, h);
  }

  function SlotOf(rand: nat, h: nat): (r: int)
    ensures r == Mod(rand, Pow2(h))
  {
    rand % Pow2(h)
  }

  function NextRandom(rand: nat): (r: nat)
    requires rand < UINT32
    ensures r == Mod(Lcg(rand), UINT32) < UINT32
  {
    (rand * 1103515245 + 12345) % UINT32
  }

  // ---------------------------------------------------------------------------
  // The commitment in the parent's coinbase
  // ---------------------------------------------------------------------------

  predicate OccursAt(s: Bytes, pat: Bytes, i: int) {
    0 <= i && i + |pat| <= |s| && s[i..i + |pat|] == pat
  }

  ghost predicate Occurs(s: Bytes, pat: Bytes) { exists i :: OccursAt(s, pat, i) }

  /** std::search: the first occurrence from a position on, or the end. */
  method Search(s: Bytes, pat: Bytes, from: nat) returns (r: nat)
    requires from <= |s| && pat != []
    ensures from <= r <= |s| && (r < |s| ==> OccursAt(s, pat, r))
    ensures forall i :: from <= i < r ==> !OccursAt(s, pat, i)
    ensures r == |s| ==> forall i :: from <= i ==> !OccursAt(s, pat, i)
  {
    r := from;
    while r < |s| && !OccursAt(s, pat, r)
      invariant from <= r <= |s| && forall i :: from <= i < r ==> !OccursAt(s, pat, i)
    {
      r := r + 1;
    }
  }

  function Le32(b: Bytes): (r: nat)
    requires |b| == 4
    ensures r < UINT32
  {
    b[0] as nat + 0x100 * (b[1] as nat) + 0x1_0000 * (b[2] as nat) + 0x100_0000 * (b[3] as nat)
  }

  function Reversed(s: Bytes): (r: Bytes)
    ensures |r| == |s| && forall i :: 0 <= i < |s| ==> r[i] == s[|s| - 1 - i]
  {
    seq(|s|, i requires 0 <= i < |s| => s[|s| - 1 - i])
  }

  /**
   The script commits at position p to a root of a tree of height h: the root stands there for
   the first time; the merged mining header, if there is one, stands nowhere but just before it,
   and otherwise p is small; the number of slots and a nonce follow, and the nonce selects the slot.
   */
  ghost predicate Commits(script: Bytes, root: Bytes, p: int, h: nat, chainId: int, index: int) {
    && OccursAt(script, root, p) && |root| == 32 && (forall i :: 0 <= i < p ==> !OccursAt(script, root, i))
    && (if Occurs(script, HEADER) then HeaderOnlyAt(script, p - 4) else p <= 20)
    && p + 40 <= |script|
    && Le32(script[p + 32..p + 36]) == Pow2(h)
    && index == ExpectedIndex(Le32(script[p + 36..p + 40]), chainId, h)
  }

  ghost predicate HeaderOnlyAt(script: Bytes, p: int) {
    OccursAt(script, HEADER, p) && forall i :: OccursAt(script, HEADER, i) ==> i == p
  }

  datatype Proof = Proof(
    nIndex: int,                   // of the coinbase in the parent block
    merkleBranch: seq<U256>,
    chainIndex: int,               // of the auxiliary block in the chain tree
    chainBranch: seq<U256>,
    txHash: U256,
    hasInput: bool,
    script: Bytes,                 // of the coinbase's first input
    parentRoot: U256,
    parentChainId: int)

  ghost predicate Accepts(H: PairHash, p: Proof, hashAuxBlock: U256, chainId: int, strict: bool) {
    && p.nIndex == 0 && !(strict && p.parentChainId == chainId) && |p.chainBranch| <= 30
    && CheckedRoot(H, p.txHash, p.merkleBranch, p.nIndex) == p.parentRoot && p.hasInput
    && exists pos :: Commits(p.script, Reversed(CheckedRoot(H, hashAuxBlock, p.chainBranch, p.chainIndex)), pos,
                             |p.chainBranch|, chainId, p.chainIndex)
  }

  method Check(H: PairHash, p: Proof, hashAuxBlock: U256, chainId: int, strict: bool) returns (ok: bool)
    ensures ok <==> Accepts(H, p, hashAuxBlock, chainId, strict)
  {
    hide OccursAt, CheckedRoot, Le32, ExpectedIndex, Pow2;
    if p.nIndex != 0 { return false; }
    if strict && p.parentChainId == chainId { return false; }
    if |p.chainBranch| > 30 { return false; }
    var rootHash := CheckMerkleBranch(H, hashAuxBlock, p.chainBranch, p.chainIndex);
    var root := Reversed(rootHash);
    var parent := CheckMerkleBranch(H, p.txHash, p.merkleBranch, p.nIndex);
    if parent != p.parentRoot { return false; }
    if !p.hasInput { return false; }
    ok := CheckScript(p.script, root, |p.chainBranch|, chainId, p.chainIndex);
  }

  method CheckScript(script: Bytes, root: Bytes, h: nat, chainId: int, index: int) returns (ok: bool)
    requires |root| == 32 && h <= 30
    ensures ok <==> exists pos :: Commits(script, root, pos, h, chainId, index)
  {
    hide Le32, ExpectedIndex, Pow2, OccursAt;
    OccurrenceFits(script, root);
    OccurrenceFits(script, HEADER);
    var pcHead := Search(script, HEADER, 0);
    var pc := Search(script, root, 0);
    if pc == |script| { return false; }
    OnlyPosition(script, root, pc, h, chainId, index);
    if pcHead != |script| {
      var again := Search(script, HEADER, pcHead + 1);
      if again != |script| { return false; }
      if pcHead + |HEADER| != pc { return false; }
      assert HeaderOnlyAt(script, pc - 4);
    } else {
      assert !Occurs(script, HEADER);
      if pc > 20 { return false; }
    }
    if |script| - (pc + 32) < 8 { return false; }
    var nSize := Le32(script[pc + 32..pc + 36]);
    if nSize != Pow2(h) { return false; }
    var nNonce := Le32(script[pc + 36..pc + 40]);
    var expected := GetExpectedIndex(nNonce, chainId, h);
    if index != expected { return false; }
    assert Commits(script, root, pc, h, chainId, index);
    return true;
  }

  lemma OccurrenceFits(s: Bytes, pat: Bytes)
    ensures forall i :: OccursAt(s, pat, i) ==> 0 <= i && i + |pat| <= |s|
  {
  }

  /** A commitment can only be at the first occurrence. */
  lemma OnlyPosition(script: Bytes, root: Bytes, pc: nat, h: nat, chainId: int, index: int)
    requires OccursAt(script, root, pc) && forall i :: 0 <= i < pc ==> !OccursAt(script, root, i)
    ensures forall pos :: Commits(script, root, pos, h, chainId, index) ==> pos == pc
  {
    hide Le32, ExpectedIndex, Pow2;
  }

  // ---------------------------------------------------------------------------
  // The same work counts once
  // ---------------------------------------------------------------------------

  lemma {:induction false} Pow2Injective(a: nat, b: nat)
    requires Pow2(a) == Pow2(b)
    ensures a == b
  {
    if a < b { Pow2Monotone(a + 1, b); }
    if b < a { Pow2Monotone(b + 1, a); }
  }

  lemma ReversedInjective(s: Bytes, t: Bytes)
    requires Reversed(s) == Reversed(t)
    ensures s == t
  {
    assert |s| == |t|;
    forall i | 0 <= i < |s| ensures s[i] == t[i] {
      assert Reversed(s)[|s| - 1 - i] == Reversed(t)[|s| - 1 - i];
    }
  }

  /** With the header, the script alone fixes the root, the height and the slot. */
  lemma ScriptFixesCommitment(script: Bytes, r1: Bytes, p1: int, h1: nat, i1: int, r2: Bytes, p2: int, h2: nat, i2: int,
                              chainId: int)
    requires Occurs(script, HEADER)
    requires Commits(script, r1, p1, h1, chainId, i1) && Commits(script, r2, p2, h2, chainId, i2)
    ensures r1 == r2 && h1 == h2 && i1 == i2 && i1 >= 0
  {
    hide Le32, Pow2, Lcg;
    assert p1 == p2;
    Pow2Injective(h1, h2);
  }

  /** Two auxiliary blocks accepted for the same coinbase script and chain would give a hash collision. */
  lemma OneBlockPerCoinbase(H: PairHash, p1: Proof, b1: U256, p2: Proof, b2: U256, chainId: int, strict: bool)
    returns (x: Collision)
    requires Accepts(H, p1, b1, chainId, strict) && Accepts(H, p2, b2, chainId, strict)
    requires p1.script == p2.script && Occurs(p1.script, HEADER) && b1 != b2
    ensures IsCollision(H, x)
  {
    hide Commits, Occurs, BranchRoot;
    var root1 := CheckedRoot(H, b1, p1.chainBranch, p1.chainIndex);
    var root2 := CheckedRoot(H, b2, p2.chainBranch, p2.chainIndex);
    var pos1 :| Commits(p1.script, Reversed(root1), pos1, |p1.chainBranch|, chainId, p1.chainIndex);
    var pos2 :| Commits(p2.script, Reversed(root2), pos2, |p2.chainBranch|, chainId, p2.chainIndex);
    ScriptFixesCommitment(p1.script, Reversed(root1), pos1, |p1.chainBranch|, p1.chainIndex,
                          Reversed(root2), pos2, |p2.chainBranch|, p2.chainIndex, chainId);
    ReversedInjective(root1, root2);
    x := SameRootCollides(H, b1, p1.chainBranch, b2, p2.chainBranch, p1.chainIndex);
  }

  /** What is accepted is the first transaction of the parent block, or else there is a hash collision. */
  lemma AcceptedIsCoinbase(H: PairHash, p: Proof, block: U256, chainId: int, strict: bool, txids: seq<U256>)
    returns (x: Collision)
    requires Accepts(H, p, block, chainId, strict) && txids != [] && p.parentRoot == Merkle.MerkleRoot(H, txids)
    requires |p.merkleBranch| == Merkle.TreeHeight(|txids|)
    ensures p.txHash == txids[0] || IsCollision(H, x)
    ensures p.hasInput && |p.chainBranch| <= 30 && (strict ==> p.parentChainId != chainId)
  {
    hide Merkle.MerkleRoot, Merkle.TreeHeight, Merkle.BranchUpTo, BranchRoot, Commits;
    var branch := Merkle.BranchUpTo(H, txids, 0, Merkle.TreeHeight(|txids|));
    LeafReachesRoot(H, txids, 0);
    x := Collision(block, block, block, block);
    if p.txHash != txids[0] { x := SameRootCollides(H, p.txHash, p.merkleBranch, txids[0], branch, 0); }
  }

  /** Of a tree that the script commits to, only the leaf in the slot of the chain is accepted, or there is a collision. */
  lemma AcceptedIsInSlot(H: PairHash, p: Proof, block: U256, chainId: int, strict: bool, leaves: seq<U256>)
    returns (x: Collision, pos: int)
    requires Accepts(H, p, block, chainId, strict) && |leaves| == Pow2(|p.chainBranch|)
    requires CheckedRoot(H, block, p.chainBranch, p.chainIndex) == Merkle.MerkleRoot(H, leaves)
    ensures 0 <= p.chainIndex < |leaves| && (block == leaves[p.chainIndex] || IsCollision(H, x))
    ensures 0 <= pos && pos + 40 <= |p.script| && OccursAt(p.script, Reversed(Merkle.MerkleRoot(H, leaves)), pos)
    ensures p.chainIndex == ExpectedIndex(Le32(p.script[pos + 36..pos + 40]), chainId, |p.chainBranch|)
  {
    hide Merkle.MerkleRoot, Merkle.TreeHeight, Merkle.BranchUpTo, BranchRoot, Pow2, Lcg, Le32;
    var h := |p.chainBranch|;
    pos :| Commits(p.script, Reversed(CheckedRoot(H, block, p.chainBranch, p.chainIndex)), pos, h, chainId, p.chainIndex);
    FullHeight(h);
    LeafReachesRoot(H, leaves, p.chainIndex);
    x := Collision(block, block, block, block);
    if block != leaves[p.chainIndex] {
      x := SameRootCollides(H, block, p.chainBranch, leaves[p.chainIndex],
                            Merkle.BranchUpTo(H, leaves, p.chainIndex, h), p.chainIndex);
    }
  }

  lemma {:induction false} FullHeight(h: nat)
    ensures Merkle.TreeHeight(Pow2(h)) == h
    decreases h
  {
    if h > 0 { FullHeight(h - 1); }
  }

  /** The script of a coinbase that commits to a root with the header, a size and a nonce. */
  function Commitment(root: U256, size: Bytes, nonce: Bytes): Bytes {
    [0xfa, 0xbe, 0x6d, 0x6d] + Reversed(root) + size + nonce
  }

  /**
   An honest proof: the coinbase is the first transaction of the parent block, the auxiliary block a
   leaf of a full tree in its expected slot, and the script commits to that tree's root.  It is
   accepted unless the bytes of the root repeat the header or start too early in the script.
   */
  lemma HonestProof(H: PairHash, p: Proof, txids: seq<U256>, leaves: seq<U256>, size: Bytes, nonce: Bytes, h: nat,
                    chainId: int, strict: bool)
    requires txids != [] && |leaves| == Pow2(h) && h <= 30 && 0 <= p.chainIndex < |leaves|
    requires p.nIndex == 0 && p.txHash == txids[0] && p.hasInput && !(strict && p.parentChainId == chainId)
    requires p.merkleBranch == Merkle.BranchUpTo(H, txids, 0, Merkle.TreeHeight(|txids|))
    requires p.parentRoot == Merkle.MerkleRoot(H, txids) && p.chainBranch == Merkle.BranchUpTo(H, leaves, p.chainIndex, h)
    requires |size| == 4 && Le32(size) == Pow2(h) && |nonce| == 4
    requires p.chainIndex == ExpectedIndex(Le32(nonce), chainId, h)
    requires p.script == Commitment(Merkle.MerkleRoot(H, leaves), size, nonce)
    ensures Accepts(H, p, leaves[p.chainIndex], chainId, strict) <==>
      && HeaderOnlyAt(p.script, 0)
      && (forall i :: 0 <= i < 4 ==> !OccursAt(p.script, Reversed(Merkle.MerkleRoot(H, leaves)), i))
  {
    hide Merkle.BranchUpTo, Merkle.MerkleRoot, Merkle.TreeHeight, CheckedRoot, ExpectedIndex, Pow2, Le32;
    FullHeight(h);
    LeafReachesRoot(H, txids, 0);
    LeafReachesRoot(H, leaves, p.chainIndex);
    CommitmentParts(Merkle.MerkleRoot(H, leaves), size, nonce);
    hide Commitment;
    var root := Reversed(Merkle.MerkleRoot(H, leaves));
    if HeaderOnlyAt(p.script, 0) && forall i :: 0 <= i < 4 ==> !OccursAt(p.script, root, i) {
      assert Commits(p.script, root, 4, h, chainId, p.chainIndex);
    }
  }

  lemma CommitmentParts(root: U256, size: Bytes, nonce: Bytes)
    requires |size| == 4 && |nonce| == 4
    ensures var script := Commitment(root, size, nonce);
      && |script| == 44 && OccursAt(script, HEADER, 0) && OccursAt(script, Reversed(root), 4)
      && script[36..40] == size && script[40..44] == nonce
  {
  }

  /** Without the header one script can commit to two roots: here at positions 0 and 8. */
  lemma LegacyScriptCommitsTwice(script: Bytes, chainId: int)
    requires script == seq(48, i => if i == 32 || i == 40 then 1 else 0)
    ensures Commits(script, script[0..32], 0, 0, chainId, 0) && Commits(script, script[8..40], 8, 0, chainId, 0)
    ensures script[0..32] != script[8..40] && !Occurs(script, HEADER)
  {
    forall i ensures !OccursAt(script, HEADER, i) {
      if 0 <= i && i + 4 <= 48 { assert script[i..i + 4][0] == script[i] != HEADER[0]; }
    }
    var second := script[8..40];
    assert second[24] == script[32] == 1 && script[0..32][24] == script[24] == 0;
    forall i | 0 <= i < 8 ensures !OccursAt(script, second, i) {
      assert script[i..i + 32][24] == script[i + 24] == 0;
    }
    assert Pow2(0) == 1;
    assert script[32..36] == [1, 0, 0, 0] && script[40..44] == [1, 0, 0, 0];
    OnlySlot(Le32(script[36..40]), chainId);
    OnlySlot(Le32(script[44..48]), chainId);
  }

  /** Then one and the same proof is accepted for two different blocks, whatever the hash. */
  lemma LegacyProofServesTwo(H: PairHash, p: Proof, chainId: int, strict: bool) returns (b1: U256, b2: U256)
    requires p.script == seq(48, i => if i == 32 || i == 40 then 1 else 0) && p.chainBranch == [] && p.chainIndex == 0
    requires p.nIndex == 0 && p.hasInput && !(strict && p.parentChainId == chainId)
    requires p.parentRoot == CheckedRoot(H, p.txHash, p.merkleBranch, 0)
    ensures b1 != b2 && Accepts(H, p, b1, chainId, strict) && Accepts(H, p, b2, chainId, strict)
  {
    LegacyScriptCommitsTwice(p.script, chainId);
    hide Commits;
    b1, b2 := Reversed(p.script[0..32]), Reversed(p.script[8..40]);
    ReversedTwice(p.script[0..32]);
    ReversedTwice(p.script[8..40]);
    assert Commits(p.script, Reversed(CheckedRoot(H, b1, [], 0)), 0, 0, chainId, 0);
    assert Commits(p.script, Reversed(CheckedRoot(H, b2, [], 0)), 8, 0, chainId, 0);
  }

  lemma ReversedTwice(s: Bytes)
    ensures Reversed(Reversed(s)) == s
  {
  }

  lemma OnlySlot(nonce: nat, chainId: int)
    ensures ExpectedIndex(nonce, chainId, 0) == 0
  {
    hide Lcg;
    assert Pow2(0) == 1;
  }
}

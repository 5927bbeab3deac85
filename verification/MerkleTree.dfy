/** The append-only Merkle tree behind membership and jurisdiction.

    The root is built level by level.  A level of odd length is completed with ZERO,
    at every level: an absent node is ZERO and not the hash of an empty subtree, so a
    root commits to the number of leaves up to one trailing ZERO and no further. */
module MerkleTree {
  import opened Field
  import opened SparseTree
  import opened Wrappers

  // ------------------------------------------------------- levels and the root

  function Node(level: seq<Fr>, i: nat): Fr {
    if i < |level| then level[i] else ZERO
  }

  function NextLevel(h: Hasher, level: seq<Fr>): (next: seq<Fr>)
    ensures |next| == (|level| + 1) / 2
    ensures forall i :: 0 <= i < |next| ==> next[i] == h.two(Node(level, 2 * i), Node(level, 2 * i + 1))
  {
    if level == [] then []
    else if |level| == 1 then [h.two(level[0], ZERO)]
    else
      var rest := NextLevel(h, level[2..]);
      assert forall i :: 0 <= i < |rest| ==> Node(level[2..], 2 * i) == Node(level, 2 * (i + 1));
      assert forall i :: 0 <= i < |rest| ==> Node(level[2..], 2 * i + 1) == Node(level, 2 * (i + 1) + 1);
      [h.two(level[0], level[1])] + rest
  }

  function LevelAt(h: Hasher, leaves: seq<Fr>, d: nat): (level: seq<Fr>)
    ensures leaves != [] ==> level != []
    decreases d
  {
    if d == 0 then leaves else LevelAt(h, NextLevel(h, leaves), d - 1)
  }

  function RootOf(h: Hasher, leaves: seq<Fr>, depth: nat): Fr {
    if leaves == [] then EmptyHash(h, depth) else LevelAt(h, leaves, depth)[0]
  }

  // ------------------------------------------------------------------ proofs

  datatype MerkleProof = MerkleProof(path: seq<Fr>, pathIndices: seq<nat>)

  predicate Shaped(p: MerkleProof, depth: nat) {
    |p.path| == |p.pathIndices| == depth
  }

  /** The other child of the parent of `i`: `i ^ 1`. */
  function Flip(i: nat): nat {
    if i % 2 == 0 then i + 1 else i - 1
  }

  function ProofPath(h: Hasher, leaves: seq<Fr>, index: nat, depth: nat): (r: seq<Fr>)
    ensures |r| == depth
    decreases depth
  {
    if depth == 0 then []
    else [Node(leaves, Flip(index))] + ProofPath(h, NextLevel(h, leaves), index / 2, depth - 1)
  }

  function IndexBits(index: nat, depth: nat): (r: seq<nat>)
    ensures |r| == depth
  {
    if depth == 0 then [] else [index % 2] + IndexBits(index / 2, depth - 1)
  }

  /** The index an arbitrary sequence of path indices spells; the verifier takes any
      non-zero entry for "right". */
  function Spelled(indices: seq<nat>): nat {
    if indices == [] then 0 else (if indices[0] == 0 then 0 else 1) + 2 * Spelled(indices[1..])
  }

  predicate Accepts(h: Hasher, leaf: Fr, p: MerkleProof, root: Fr)
    requires |p.path| == |p.pathIndices|
  {
    Fold(h, leaf, p.path, p.pathIndices) == root
  }

  function ProofOf(h: Hasher, leaves: seq<Fr>, index: nat, depth: nat): MerkleProof {
    MerkleProof(ProofPath(h, leaves, index, depth), IndexBits(index, depth))
  }

  lemma ParentOf(h: Hasher, leaves: seq<Fr>, index: nat)
    requires index < |leaves|
    ensures index / 2 < |NextLevel(h, leaves)|
    ensures NextLevel(h, leaves)[index / 2] == Step(h, leaves[index], Node(leaves, Flip(index)), index % 2)
  {
    assert Node(leaves, index) == leaves[index];
  }

  /** Where the honest path leads: to node `index >> depth` of the top level. */
  lemma {:induction false} HonestPathClimbs(h: Hasher, leaves: seq<Fr>, index: nat, depth: nat)
    requires index < |leaves|
    ensures Shr(index, depth) < |LevelAt(h, leaves, depth)|
    ensures Fold(h, leaves[index], ProofPath(h, leaves, index, depth), IndexBits(index, depth)) ==
            LevelAt(h, leaves, depth)[Shr(index, depth)]
    decreases depth
  {
    if depth > 0 {
      var next := NextLevel(h, leaves);
      var path, bits := ProofPath(h, leaves, index, depth), IndexBits(index, depth);
      assert path[0] == Node(leaves, Flip(index)) && path[1..] == ProofPath(h, next, index / 2, depth - 1);
      assert bits[0] == index % 2 && bits[1..] == IndexBits(index / 2, depth - 1);
      hide NextLevel, ProofPath, IndexBits, Fold, Step, Flip, Node;
      ParentOf(h, leaves, index);
      FoldFromBottom(h, leaves[index], path, bits);
      HonestPathClimbs(h, next, index / 2, depth - 1);
    }
  }

  lemma {:induction false} ShrVanishes(x: nat, n: nat)
    ensures Shr(x, n) == 0 <==> x < Pow2(n)
  {
    if n > 0 {
      ShrVanishes(x / 2, n - 1);
    }
  }

  /** Completeness: every leaf within the depth has an accepted proof. */
  lemma HonestProofAccepted(h: Hasher, leaves: seq<Fr>, index: nat, depth: nat)
    requires index < |leaves| && index < Pow2(depth)
    ensures Accepts(h, leaves[index], ProofOf(h, leaves, index, depth), RootOf(h, leaves, depth))
  {
    HonestPathClimbs(h, leaves, index, depth);
    ShrVanishes(index, depth);
  }

  /** Beyond the depth the root still exists but no longer covers the leaf: the proof
      is accepted exactly when two nodes of the top level happen to be equal. */
  lemma OverflowingProofAcceptedIff(h: Hasher, leaves: seq<Fr>, index: nat, depth: nat)
    requires index < |leaves|
    ensures Shr(index, depth) < |LevelAt(h, leaves, depth)|
    ensures Accepts(h, leaves[index], ProofOf(h, leaves, index, depth), RootOf(h, leaves, depth)) <==>
            LevelAt(h, leaves, depth)[Shr(index, depth)] == LevelAt(h, leaves, depth)[0]
  {
    HonestPathClimbs(h, leaves, index, depth);
  }

  lemma {:induction false} IndexBitsSpell(index: nat, depth: nat)
    ensures Spelled(IndexBits(index, depth)) == index % Pow2(depth)
    ensures index < Pow2(depth) ==> Spelled(IndexBits(index, depth)) == index
  {
    if depth > 0 {
      IndexBitsSpell(index / 2, depth - 1);
      assert IndexBits(index, depth)[1..] == IndexBits(index / 2, depth - 1);
      HalveMod(index, depth);
    }
  }

  // --------------------------------------------------------------- soundness

  /** What an accepted proof at index `i` may open. */
  predicate Genuine(leaves: seq<Fr>, i: nat, leaf: Fr) {
    || (i < |leaves| && leaf == leaves[i])
    || (i == |leaves| && |leaves| % 2 == 1 && leaf == ZERO)
  }

  /** Climbs along the claimed path and returns the lowest level at which it leaves the
      tree: two different pairs with one hash, or a hash that equals the padding. */
  function FindBreak(h: Hasher, leaves: seq<Fr>, leaf: Fr, path: seq<Fr>, indices: seq<nat>): Break
    requires |path| == |indices|
    decreases |path|
  {
    if path == [] then ZeroPreimage(ZERO, ZERO)
    else
      var j := Spelled(indices[1..]);
      var next := NextLevel(h, leaves);
      var claimed := Ordered(leaf, path[0], indices[0]);
      var up := Step(h, leaf, path[0], indices[0]);
      if !Genuine(next, j, up) then FindBreak(h, next, up, path[1..], indices[1..])
      else if j == |next| then ZeroPreimage(claimed.0, claimed.1)
      else Collision(claimed.0, claimed.1, Node(leaves, 2 * j), Node(leaves, 2 * j + 1))
  }

  lemma ClaimedPairDiffers(leaves: seq<Fr>, leaf: Fr, sibling: Fr, index: nat, j: nat)
    requires j < (|leaves| + 1) / 2
    requires !Genuine(leaves, 2 * j + (if index == 0 then 0 else 1), leaf)
    ensures Ordered(leaf, sibling, index) != (Node(leaves, 2 * j), Node(leaves, 2 * j + 1))
  {
  }

  /** The level at which the climbing path rejoins the tree shows the break. */
  lemma RejoiningBreaks(h: Hasher, leaves: seq<Fr>, leaf: Fr, sibling: Fr, index: nat, j: nat)
    requires !Genuine(leaves, 2 * j + (if index == 0 then 0 else 1), leaf)
    requires Genuine(NextLevel(h, leaves), j, Step(h, leaf, sibling, index))
    ensures var (l, r) := Ordered(leaf, sibling, index);
            if j == |NextLevel(h, leaves)| then Breaks(h, ZeroPreimage(l, r))
            else Breaks(h, Collision(l, r, Node(leaves, 2 * j), Node(leaves, 2 * j + 1)))
  {
    if j < |NextLevel(h, leaves)| {
      ClaimedPairDiffers(leaves, leaf, sibling, index, j);
    }
  }

  lemma OneLevelUp(h: Hasher, leaves: seq<Fr>, leaf: Fr, path: seq<Fr>, indices: seq<nat>)
    requires leaves != [] && |path| == |indices| > 0
    requires Fold(h, leaf, path, indices) == LevelAt(h, leaves, |path|)[0]
    ensures Fold(h, Step(h, leaf, path[0], indices[0]), path[1..], indices[1..]) ==
            LevelAt(h, NextLevel(h, leaves), |path| - 1)[0]
  {
    FoldFromBottom(h, leaf, path, indices);
  }

  lemma {:induction false} ForgeryBreaksHash(h: Hasher, leaves: seq<Fr>, leaf: Fr, path: seq<Fr>, indices: seq<nat>)
    requires leaves != [] && |path| == |indices|
    requires Fold(h, leaf, path, indices) == LevelAt(h, leaves, |path|)[0]
    requires !Genuine(leaves, Spelled(indices), leaf)
    ensures Breaks(h, FindBreak(h, leaves, leaf, path, indices))
    decreases |path|
  {
    if path == [] {
      assert false;
    } else {
      var j := Spelled(indices[1..]);
      var up := Step(h, leaf, path[0], indices[0]);
      OneLevelUp(h, leaves, leaf, path, indices);
      if !Genuine(NextLevel(h, leaves), j, up) {
        ForgeryBreaksHash(h, NextLevel(h, leaves), up, path[1..], indices[1..]);
      } else {
        RejoiningBreaks(h, leaves, leaf, path[0], indices[0], j);
      }
    }
  }

  /** Soundness against arbitrary proofs: what is opened at index i is the leaf stored
      there, or the padding ZERO just after an odd number of leaves; anything else
      hands out a break of the hash. */
  lemma AcceptedProofIsGenuine(h: Hasher, leaves: seq<Fr>, depth: nat, leaf: Fr, p: MerkleProof)
    requires leaves != [] && Shaped(p, depth)
    requires Accepts(h, leaf, p, RootOf(h, leaves, depth))
    ensures Genuine(leaves, Spelled(p.pathIndices), leaf) ||
            Breaks(h, FindBreak(h, leaves, leaf, p.path, p.pathIndices))
  {
    if !Genuine(leaves, Spelled(p.pathIndices), leaf) {
      ForgeryBreaksHash(h, leaves, leaf, p.path, p.pathIndices);
    }
  }

  /** What acceptance beyond the depth means: the leaf coincides with the one stored at the
      index its path really spells, or the proof breaks the hash. */
  lemma OverflowingLeafCoincides(h: Hasher, leaves: seq<Fr>, index: nat, depth: nat)
    requires Pow2(depth) <= index < |leaves|
    requires Accepts(h, leaves[index], ProofOf(h, leaves, index, depth), RootOf(h, leaves, depth))
    ensures || leaves[index] == leaves[index % Pow2(depth)]
            || Breaks(h, FindBreak(h, leaves, leaves[index], ProofPath(h, leaves, index, depth), IndexBits(index, depth)))
  {
    IndexBitsSpell(index, depth);
    AcceptedProofIsGenuine(h, leaves, depth, leaves[index], ProofOf(h, leaves, index, depth));
  }

  /** The slot of a sparse tree that path indices name. */
  function SlotOf(indices: seq<nat>): (bits: Bits)
    ensures |bits| == |indices|
  {
    if indices == [] then [] else SlotOf(indices[..|indices| - 1]) + [indices[|indices| - 1] != 0]
  }

  /** The verifier only looks at whether an index is zero. */
  lemma {:induction false} FoldAtSlot(h: Hasher, leaf: Fr, path: seq<Fr>, indices: seq<nat>)
    requires |path| == |indices|
    ensures Fold(h, leaf, path, indices) == Fold(h, leaf, path, Indices(SlotOf(indices)))
    decreases |path|
  {
    if path != [] {
      var n := |path| - 1;
      FoldAtSlot(h, leaf, path[..n], indices[..n]);
      assert Indices(SlotOf(indices))[..n] == Indices(SlotOf(indices[..n]));
    }
  }

  /** The break an accepted proof gives away: the empty tree is the empty sparse tree. */
  function ForgeryOf(h: Hasher, leaves: seq<Fr>, leaf: Fr, p: MerkleProof): Break
    requires |p.path| == |p.pathIndices|
  {
    if leaves == [] then FindCollision(h, map[], leaf, p.path, SlotOf(p.pathIndices), |p.path|)
    else FindBreak(h, leaves, leaf, p.path, p.pathIndices)
  }

  /** Before anything is inserted, no proof opens a non-zero leaf. */
  lemma EmptyTreeOpensOnlyZero(h: Hasher, depth: nat, leaf: Fr, p: MerkleProof)
    requires Shaped(p, depth) && leaf != ZERO && Accepts(h, leaf, p, RootOf(h, [], depth))
    ensures Collides(h, ForgeryOf(h, [], leaf, p))
  {
    FoldAtSlot(h, leaf, p.path, p.pathIndices);
    EmptySubtree(h, map[], depth, depth, []);
    OpeningSound(h, map[], leaf, p.path, SlotOf(p.pathIndices));
  }

  /** Revocation: no proof opens a non-zero leaf at a zeroed index. */
  lemma ZeroedIndexAdmitsOnlyZero(h: Hasher, leaves: seq<Fr>, depth: nat, index: nat, leaf: Fr, p: MerkleProof)
    requires index < |leaves| && Shaped(p, depth) && Spelled(p.pathIndices) == index && leaf != ZERO
    requires Accepts(h, leaf, p, RootOf(h, leaves[index := ZERO], depth))
    ensures Breaks(h, FindBreak(h, leaves[index := ZERO], leaf, p.path, p.pathIndices))
  {
    AcceptedProofIsGenuine(h, leaves[index := ZERO], depth, leaf, p);
  }

  /** Replaying the honest proof of leaf `i` of `a` against `b`. */
  function Replay(h: Hasher, a: seq<Fr>, b: seq<Fr>, i: nat, depth: nat): Break
    requires i < |a|
  {
    FindBreak(h, b, a[i], ProofPath(h, a, i, depth), IndexBits(i, depth))
  }

  /** Equal, or equal after one ZERO is dropped that follows an odd number of leaves. */
  predicate SameUpToPadding(a: seq<Fr>, b: seq<Fr>) {
    || a == b
    || (|a| % 2 == 1 && b == a + [ZERO])
    || (|b| % 2 == 1 && a == b + [ZERO])
  }

  lemma ReplayedLeafIsGenuine(h: Hasher, a: seq<Fr>, b: seq<Fr>, depth: nat, i: nat)
    requires b != [] && i < |a| <= Pow2(depth)
    requires RootOf(h, a, depth) == RootOf(h, b, depth)
    ensures Genuine(b, i, a[i]) || Breaks(h, Replay(h, a, b, i, depth))
  {
    HonestProofAccepted(h, a, i, depth);
    IndexBitsSpell(i, depth);
    AcceptedProofIsGenuine(h, b, depth, a[i], ProofOf(h, a, i, depth));
  }

  /** The root determines the leaves up to one padding ZERO. */
  lemma RootDeterminesLeaves(h: Hasher, a: seq<Fr>, b: seq<Fr>, depth: nat)
    requires a != [] && b != [] && |a| <= Pow2(depth) && |b| <= Pow2(depth)
    requires RootOf(h, a, depth) == RootOf(h, b, depth)
    ensures || SameUpToPadding(a, b)
            || (exists i | 0 <= i < |a| :: Breaks(h, Replay(h, a, b, i, depth)))
            || (exists i | 0 <= i < |b| :: Breaks(h, Replay(h, b, a, i, depth)))
  {
    if && (forall i | 0 <= i < |a| :: !Breaks(h, Replay(h, a, b, i, depth)))
       && (forall i | 0 <= i < |b| :: !Breaks(h, Replay(h, b, a, i, depth)))
    {
      forall i | 0 <= i < |a| ensures Genuine(b, i, a[i]) {
        ReplayedLeafIsGenuine(h, a, b, depth, i);
      }
      forall i | 0 <= i < |b| ensures Genuine(a, i, b[i]) {
        ReplayedLeafIsGenuine(h, b, a, depth, i);
      }
      GenuineBothWays(a, b);
    }
  }

  lemma GenuineBothWays(a: seq<Fr>, b: seq<Fr>)
    requires forall i | 0 <= i < |a| :: Genuine(b, i, a[i])
    requires forall i | 0 <= i < |b| :: Genuine(a, i, b[i])
    ensures SameUpToPadding(a, b)
  {
    if |a| > |b| {
      assert Genuine(b, |a| - 1, a[|a| - 1]);
      assert a == b + [ZERO];
    } else if |a| < |b| {
      assert Genuine(a, |b| - 1, b[|b| - 1]);
      assert b == a + [ZERO];
    }
  }

  /** ... and no further: the padding ZERO really is invisible in the root. */
  lemma PaddingIsInvisible(h: Hasher, a: seq<Fr>, b: seq<Fr>, depth: nat)
    requires a != [] && b != [] && SameUpToPadding(a, b) && depth > 0
    ensures RootOf(h, a, depth) == RootOf(h, b, depth)
  {
    assert forall i :: Node(a, i) == Node(b, i);
    assert NextLevel(h, a) == NextLevel(h, b);
  }

  // --------------------------------------------------------------- the class

  datatype IndexError = IndexOutOfBounds(index: nat, size: nat)

  /** One pass of the level loop, shared by `compute_root_from_leaves` and `proof`. */
  method HashLevel(h: Hasher, level: seq<Fr>) returns (next: seq<Fr>)
    ensures next == NextLevel(h, level)
  {
    var len := |level|;
    next := [];
    var i := 0;
    while i < len
      invariant i % 2 == 0 && i <= len + 1 && |next| == i / 2
      invariant forall k :: 0 <= k < |next| ==> next[k] == NextLevel(h, level)[k]
    {
      var left := level[i];
      var right := if i + 1 < len then level[i + 1] else ZERO;
      assert h.two(left, right) == NextLevel(h, level)[i / 2];
      next := next + [h.two(left, right)];
      i := i + 2;
    }
  }

  lemma {:induction false} LevelAtTop(h: Hasher, leaves: seq<Fr>, d: nat)
    ensures LevelAt(h, leaves, d + 1) == NextLevel(h, LevelAt(h, leaves, d))
    decreases d
  {
    if d > 0 {
      LevelAtTop(h, NextLevel(h, leaves), d - 1);
    }
  }

  /** Entry `d` of a proof is the sibling of node `index >> d` in level `d`, or ZERO
      when that level has no such node. */
  function Entry(h: Hasher, leaves: seq<Fr>, index: nat, d: nat): Fr {
    Node(LevelAt(h, leaves, d), Flip(Shr(index, d)))
  }

  lemma EntryBelow(h: Hasher, leaves: seq<Fr>, index: nat, d: nat)
    requires d > 0
    ensures Entry(h, leaves, index, d) == Entry(h, NextLevel(h, leaves), index / 2, d - 1)
  {
    hide NextLevel, Node, Flip;
  }

  lemma {:induction false} ProofEntry(h: Hasher, leaves: seq<Fr>, index: nat, depth: nat, d: nat)
    requires d < depth
    ensures ProofPath(h, leaves, index, depth)[d] == Entry(h, leaves, index, d)
    ensures IndexBits(index, depth)[d] == Shr(index, d) % 2
    decreases d
  {
    hide NextLevel, Node, Flip;
    if d > 0 {
      var next := NextLevel(h, leaves);
      EntryBelow(h, leaves, index, d);
      ProofEntry(h, next, index / 2, depth - 1, d - 1);
      hide LevelAt, Entry;
    }
  }

  lemma EntriesMakeProof(h: Hasher, leaves: seq<Fr>, index: nat, depth: nat, p: MerkleProof)
    requires Shaped(p, depth)
    requires forall k :: 0 <= k < depth ==> p.path[k] == Entry(h, leaves, index, k)
    requires forall k :: 0 <= k < depth ==> p.pathIndices[k] == Shr(index, k) % 2
    ensures p == ProofOf(h, leaves, index, depth)
  {
    hide ProofPath, IndexBits, Entry, Shr;
    forall k | 0 <= k < depth
      ensures p.path[k] == ProofPath(h, leaves, index, depth)[k] && p.pathIndices[k] == IndexBits(index, depth)[k]
    {
      ProofEntry(h, leaves, index, depth, k);
    }
    assert p.path == ProofPath(h, leaves, index, depth) && p.pathIndices == IndexBits(index, depth);
  }

  /** The level loop of `proof`. */
  method BuildProof(h: Hasher, leaves: seq<Fr>, index: nat, depth: nat) returns (p: MerkleProof)
    ensures p == ProofOf(h, leaves, index, depth)
  {
    var path := new Fr[depth];
    var pathIndices := new nat[depth];
    var level := leaves;
    assert LevelAt(h, leaves, 0) == leaves;
    hide LevelAt, NextLevel, Shr, Flip;
    for d := 0 to depth
      invariant level == LevelAt(h, leaves, d)
      invariant forall k :: 0 <= k < d ==> path[k] == Entry(h, leaves, index, k)
      invariant forall k :: 0 <= k < d ==> pathIndices[k] == Shr(index, k) % 2
    {
      var idx := Shr(index, d);
      var sibling := Flip(idx);
      path[d] := if sibling < |level| then level[sibling] else ZERO;
      pathIndices[d] := idx % 2;
      LevelAtTop(h, leaves, d);
      level := HashLevel(h, level);
    }
    p := MerkleProof(path[..], pathIndices[..]);
    EntriesMakeProof(h, leaves, index, depth, p);
  }

  class Tree {
    const h: Hasher
    const depth: nat
    var leaves: seq<Fr>

    constructor (h: Hasher, depth: nat)
      ensures this.h == h && this.depth == depth && leaves == []
    {
      this.h := h;
      this.depth := depth;
      leaves := [];
    }

    method Insert(leaf: Fr)
      modifies this
      ensures leaves == old(leaves) + [leaf]
    {
      leaves := leaves + [leaf];
    }

    method SetLeaf(index: nat, value: Fr) returns (r: Result<(), IndexError>)
      modifies this
      ensures index < |old(leaves)| ==> r == Ok(()) && leaves == old(leaves)[index := value]
      ensures index >= |old(leaves)| ==>
                r == Err(IndexOutOfBounds(index, |old(leaves)|)) && leaves == old(leaves)
    {
      if index >= |leaves| {
        return Err(IndexOutOfBounds(index, |leaves|));
      }
      leaves := leaves[index := value];
      r := Ok(());
    }

    method ZeroLeaf(index: nat) returns (r: Result<(), IndexError>)
      modifies this
      ensures index < |old(leaves)| ==> r == Ok(()) && leaves == old(leaves)[index := ZERO]
      ensures index >= |old(leaves)| ==>
                r == Err(IndexOutOfBounds(index, |old(leaves)|)) && leaves == old(leaves)
    {
      r := SetLeaf(index, ZERO);
    }

    method ComputeRoot() returns (root: Fr)
      ensures root == RootOf(h, leaves, depth)
    {
      if leaves == [] {
        root := ZERO;
        for k := 0 to depth
          invariant root == EmptyHash(h, k)
        {
          root := h.two(root, root);
        }
        return;
      }
      var level := leaves;
      for k := 0 to depth
        invariant level != [] && LevelAt(h, level, depth - k) == LevelAt(h, leaves, depth)
      {
        level := HashLevel(h, level);
      }
      root := level[0];
    }

    method Proof(index: nat) returns (r: Result<MerkleProof, IndexError>)
      ensures index >= |leaves| ==> r == Err(IndexOutOfBounds(index, |leaves|))
      ensures index < |leaves| ==> r == Ok(ProofOf(h, leaves, index, depth))
    {
      if index >= |leaves| {
        return Err(IndexOutOfBounds(index, |leaves|));
      }
      var p := BuildProof(h, leaves, index, depth);
      r := Ok(p);
    }
  }

  /** `verify_merkle_proof`. */
  method VerifyMerkleProof(h: Hasher, leaf: Fr, p: MerkleProof, root: Fr) returns (ok: bool)
    requires |p.path| == |p.pathIndices|
    ensures ok <==> Accepts(h, leaf, p, root)
  {
    var cur := FoldPath(h, leaf, p.path, p.pathIndices);
    ok := cur == root;
  }
}

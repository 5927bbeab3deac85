/** The sparse Merkle tree of sanctioned wallets.

    A slot is a little-endian bit string of length `depth` (20 in the service).  A
    present slot holds 1, an absent one reads as 0.  `Full` is the reference
    meaning of a node; everything the service computes is proved against it. */
module SparseTree {
  import opened Arithmetic
  import opened Field
  import opened Wrappers

  type Bits = seq<bool>
  type Leaves = map<Bits, Fr>

  // ---------------------------------------------------------------- key bits

  predicate Bit(x: nat, i: nat) { Shr(x, i) % 2 == 1 }

  function KeyBits(x: nat, depth: nat): (bits: Bits)
    ensures |bits| == depth
  {
    seq(depth, i requires i >= 0 => Bit(x, i))
  }

  /** Byte `j` of the 32-byte little-endian representation. */
  function LeByte(x: nat, j: nat): (b: nat)
    ensures b < 256
  {
    Shr(x, 8 * j) % 256
  }

  lemma ByteBit(x: nat, i: nat)
    ensures Shr(LeByte(x, i / 8), i % 8) % 2 == 1 <==> Bit(x, i)
  {
    var q := Shr(x, 8 * (i / 8));
    ShrAdd(x, 8 * (i / 8), i % 8);
    assert 8 * (i / 8) + i % 8 == i;
    ShiftWithinByte(q, i % 8);
  }

  lemma {:induction false} ShiftWithinByte(q: nat, k: nat)
    requires k < 8
    ensures Shr(q % 256, k) % 2 == Shr(q, k) % 2
  {
    LowBit(q, k, 8);
  }

  /** Dropping the bits at and above position `n` leaves bit `k < n` alone. */
  lemma {:induction false} LowBit(q: nat, k: nat, n: nat)
    requires k < n
    ensures Shr(q % Pow2(n), k) % 2 == Shr(q, k) % 2
    decreases k
  {
    HalveMod(q, n);
    if k > 0 {
      LowBit(q / 2, k - 1, n - 1);
    }
  }

  function Pow2(n: nat): (p: nat)
    ensures p > 0
  {
    if n == 0 then 1 else 2 * Pow2(n - 1)
  }

  lemma HalveMod(q: nat, n: nat)
    requires n > 0
    ensures (q % Pow2(n)) / 2 == (q / 2) % Pow2(n - 1)
    ensures (q % Pow2(n)) % 2 == q % 2
  {
    var m := Pow2(n - 1);
    var a, b := (q / 2) / m, (q / 2) % m;
    assert q == 2 * m * a + (2 * b + q % 2);
    Quotient(q, 2 * m, a, 2 * b + q % 2);
  }

  function Number(bits: Bits): nat {
    if bits == [] then 0 else (if bits[0] then 1 else 0) + 2 * Number(bits[1..])
  }

  /** `bits` are the `depth` low bits of `x`. */
  predicate Spells(bits: Bits, x: nat, depth: nat) { |bits| == depth && Number(bits) == x % Pow2(depth) }

  lemma {:induction false} NumberIsInjective(a: Bits, b: Bits)
    requires |a| == |b| && Number(a) == Number(b)
    ensures a == b
  {
    if a != [] {
      NumberIsInjective(a[1..], b[1..]);
      assert a == [a[0]] + a[1..] && b == [b[0]] + b[1..];
    }
  }

  /** The key bits spell the key modulo 2^depth. */
  lemma {:induction false} KeyBitsSpellLowBits(x: nat, depth: nat)
    ensures Number(KeyBits(x, depth)) == x % Pow2(depth)
  {
    if depth > 0 {
      KeyBitsSpellLowBits(x / 2, depth - 1);
      assert KeyBits(x, depth)[1..] == KeyBits(x / 2, depth - 1);
      HalveMod(x, depth);
    }
  }

  /** `key_bits`: bit `i` is picked out of byte `i / 8`. */
  method ComputeKeyBits(key: Fr, depth: nat) returns (bits: Bits)
    requires depth <= 256
    ensures bits == KeyBits(key, depth)
  {
    var leBytes := seq(32, j requires j >= 0 => LeByte(key, j));
    var buffer := new bool[depth];
    for i := 0 to depth
      invariant forall k :: 0 <= k < i ==> buffer[k] == Bit(key, k)
    {
      ByteBit(key, i);
      buffer[i] := Shr(leBytes[i / 8], i % 8) % 2 == 1;
    }
    bits := buffer[..];
  }

  // ------------------------------------------------------- nodes of the tree

  predicate WellFormed(leaves: Leaves, depth: nat) {
    forall bits :: bits in leaves ==> |bits| == depth && leaves[bits] == ONE
  }

  function LeafAt(leaves: Leaves, bits: Bits): Fr {
    if bits in leaves then leaves[bits] else ZERO
  }

  /** Reference: the hash of the subtree of all slots whose high bits are `high`,
      recursing over every slot with no shortcut. */
  function Full(h: Hasher, leaves: Leaves, level: nat, high: Bits): Fr {
    if level == 0 then LeafAt(leaves, high)
    else h.two(Full(h, leaves, level - 1, [false] + high), Full(h, leaves, level - 1, [true] + high))
  }

  function Root(h: Hasher, leaves: Leaves, depth: nat): Fr {
    Full(h, leaves, depth, [])
  }

  function EmptyHash(h: Hasher, level: nat): Fr {
    if level == 0 then ZERO else h.two(EmptyHash(h, level - 1), EmptyHash(h, level - 1))
  }

  function Reverse(s: Bits): (r: Bits)
    ensures |r| == |s|
  {
    seq(|s|, i requires 0 <= i < |s| => s[|s| - 1 - i])
  }

  predicate Under(bits: Bits, prefix: Bits, depth: nat)
    requires |prefix| <= depth == |bits|
  {
    forall i :: 0 <= i < |prefix| ==> bits[depth - 1 - i] == prefix[i]
  }

  predicate HasLeavesUnder(leaves: Leaves, prefix: Bits, depth: nat)
    requires WellFormed(leaves, depth) && |prefix| <= depth
  {
    exists bits :: bits in leaves && Under(bits, prefix, depth)
  }

  /** `subtree_hash_at_level`: the prefix is top down, empty subtrees are cut off. */
  function SubtreeHash(h: Hasher, leaves: Leaves, emptyHashes: seq<Fr>, depth: nat, level: nat, prefix: Bits): Fr
    requires WellFormed(leaves, depth) && level + |prefix| == depth && |emptyHashes| == depth + 1
    decreases level
  {
    if level == 0 then LeafAt(leaves, Reverse(prefix))
    else if !HasLeavesUnder(leaves, prefix, depth) then emptyHashes[level]
    else
      h.two(SubtreeHash(h, leaves, emptyHashes, depth, level - 1, prefix + [false]),
            SubtreeHash(h, leaves, emptyHashes, depth, level - 1, prefix + [true]))
  }

  predicate EmptyTable(h: Hasher, emptyHashes: seq<Fr>, depth: nat) {
    |emptyHashes| == depth + 1 && forall i :: 0 <= i <= depth ==> emptyHashes[i] == EmptyHash(h, i)
  }

  lemma {:induction false} EmptySubtree(h: Hasher, leaves: Leaves, depth: nat, level: nat, high: Bits)
    requires WellFormed(leaves, depth) && level + |high| == depth
    requires !HasLeavesUnder(leaves, Reverse(high), depth)
    ensures Full(h, leaves, level, high) == EmptyHash(h, level)
    decreases level
  {
    if level == 0 {
      assert forall i :: 0 <= i < depth ==> Reverse(high)[i] == high[depth - 1 - i];
      assert high in leaves ==> Under(high, Reverse(high), depth);
    } else {
      forall b: bool ensures !HasLeavesUnder(leaves, Reverse([b] + high), depth) {
        assert forall bits :: bits in leaves && Under(bits, Reverse([b] + high), depth) ==>
            Under(bits, Reverse(high), depth) by {
          assert forall i :: 0 <= i < |high| ==> Reverse([b] + high)[i] == Reverse(high)[i];
        }
      }
      EmptySubtree(h, leaves, depth, level - 1, [false] + high);
      EmptySubtree(h, leaves, depth, level - 1, [true] + high);
    }
  }

  lemma ReverseFacts(prefix: Bits, b: bool)
    ensures Reverse(Reverse(prefix)) == prefix && Reverse(prefix + [b]) == [b] + Reverse(prefix)
  {
  }

  /** The pruned recursion computes the unpruned one, at every level and prefix. */
  lemma {:induction false} PruningIsExact(h: Hasher, leaves: Leaves, emptyHashes: seq<Fr>, depth: nat, level: nat, prefix: Bits)
    requires WellFormed(leaves, depth) && level + |prefix| == depth && EmptyTable(h, emptyHashes, depth)
    ensures SubtreeHash(h, leaves, emptyHashes, depth, level, prefix) == Full(h, leaves, level, Reverse(prefix))
    decreases level
  {
    hide Reverse, HasLeavesUnder, LeafAt, EmptyHash;
    if level > 0 {
      ReverseFacts(prefix, false);
      ReverseFacts(prefix, true);
      if !HasLeavesUnder(leaves, prefix, depth) {
        EmptySubtree(h, leaves, depth, level, Reverse(prefix));
      } else {
        PruningIsExact(h, leaves, emptyHashes, depth, level - 1, prefix + [false]);
        PruningIsExact(h, leaves, emptyHashes, depth, level - 1, prefix + [true]);
      }
    }
  }

  // ------------------------------------------------------------------ proofs

  datatype SmtProof = SmtProof(path: seq<Fr>, pathIndices: seq<nat>, leafValue: Fr)

  datatype CryptoError = WalletIsSanctioned | InvalidSmtPathIndices | RootMismatch

  predicate Shaped(p: SmtProof, depth: nat) {
    |p.path| == |p.pathIndices| == depth
  }

  function Indices(bits: Bits): (r: seq<nat>)
    ensures |r| == |bits|
  {
    seq(|bits|, i requires 0 <= i < |bits| => if bits[i] then 1 else 0)
  }

  function Sibling(h: Hasher, leaves: Leaves, bits: Bits, i: nat): Fr
    requires i < |bits|
  {
    Full(h, leaves, i, [!bits[i]] + bits[i + 1..])
  }

  function SiblingPath(h: Hasher, leaves: Leaves, bits: Bits): (r: seq<Fr>)
    ensures |r| == |bits|
  {
    seq(|bits|, i requires 0 <= i < |bits| => Sibling(h, leaves, bits, i))
  }

  /** A wallet's slot: its hash modulo 2^depth. */
  function Slot(h: Hasher, wallet: Fr, depth: nat): (bits: Bits)
    ensures |bits| == depth && Spells(bits, h.one(wallet), depth)
  {
    KeyBitsSpellLowBits(h.one(wallet), depth);
    KeyBits(h.one(wallet), depth)
  }

  /** The slot is the only bit string that spells the hash. */
  lemma SlotIsUnique(h: Hasher, wallet: Fr, depth: nat, bits: Bits)
    requires Spells(bits, h.one(wallet), depth)
    ensures bits == Slot(h, wallet, depth)
  {
    NumberIsInjective(bits, Slot(h, wallet, depth));
  }

  /** Two wallets share a slot exactly when their hashes agree modulo 2^depth. */
  lemma SameSlotIff(h: Hasher, v: Fr, w: Fr, depth: nat)
    ensures Slot(h, v, depth) == Slot(h, w, depth) <==> h.one(v) % Pow2(depth) == h.one(w) % Pow2(depth)
  {
    var a, b := Slot(h, v, depth), Slot(h, w, depth);
    assert Number(a) == h.one(v) % Pow2(depth) && Number(b) == h.one(w) % Pow2(depth);
    hide Slot, Pow2, Number;
    if Number(a) == Number(b) {
      NumberIsInjective(a, b);
    }
  }

  function Verify(h: Hasher, depth: nat, wallet: Fr, p: SmtProof, root: Fr): Result<(), CryptoError>
    requires Shaped(p, depth)
  {
    if p.leafValue != ZERO then Err(WalletIsSanctioned)
    else if p.pathIndices != Indices(Slot(h, wallet, depth)) then Err(InvalidSmtPathIndices)
    else if Fold(h, p.leafValue, p.path, p.pathIndices) != root then Err(RootMismatch)
    else Ok(())
  }

  /** A node is the hash of the child on the path and that child's sibling. */
  lemma NodeSplits(h: Hasher, leaves: Leaves, bits: Bits, n: nat)
    requires n < |bits|
    ensures Full(h, leaves, n + 1, bits[n + 1..]) ==
            Step(h, Full(h, leaves, n, bits[n..]), Sibling(h, leaves, bits, n), Indices(bits)[n])
  {
    assert bits[n..] == [bits[n]] + bits[n + 1..];
  }

  /** Folding the honest siblings climbs the tree. */
  lemma {:induction false} HonestFold(h: Hasher, leaves: Leaves, bits: Bits, n: nat)
    requires n <= |bits|
    ensures Fold(h, LeafAt(leaves, bits), SiblingPath(h, leaves, bits)[..n], Indices(bits)[..n]) ==
            Full(h, leaves, n, bits[n..])
  {
    if n == 0 {
      assert bits[0..] == bits;
    } else {
      HonestFold(h, leaves, bits, n - 1);
      FoldPrefix(h, LeafAt(leaves, bits), SiblingPath(h, leaves, bits), Indices(bits), n - 1);
      NodeSplits(h, leaves, bits, n - 1);
    }
  }

  lemma HonestFoldReachesRoot(h: Hasher, leaves: Leaves, bits: Bits)
    ensures Fold(h, LeafAt(leaves, bits), SiblingPath(h, leaves, bits), Indices(bits)) == Root(h, leaves, |bits|)
  {
    var n := |bits|;
    HonestFold(h, leaves, bits, n);
    assert SiblingPath(h, leaves, bits)[..n] == SiblingPath(h, leaves, bits);
    assert Indices(bits)[..n] == Indices(bits) && bits[n..] == [];
  }

  /** Walks down from level `n` and returns the first level where the pair the
      verifier hashed is not the pair of children in the tree. */
  function FindCollision(h: Hasher, leaves: Leaves, leaf: Fr, path: seq<Fr>, bits: Bits, n: nat): Break
    requires |path| == |bits| && n <= |bits|
  {
    if n == 0 then ZeroPreimage(ZERO, ZERO)
    else
      var claimed := Ordered(Fold(h, leaf, path[..n - 1], Indices(bits)[..n - 1]), path[n - 1], Indices(bits)[n - 1]);
      var actual := Ordered(Full(h, leaves, n - 1, bits[n - 1..]), Sibling(h, leaves, bits, n - 1), Indices(bits)[n - 1]);
      if claimed != actual then Collision(claimed.0, claimed.1, actual.0, actual.1)
      else FindCollision(h, leaves, leaf, path, bits, n - 1)
  }

  lemma {:induction false} ForgedLeafCollides(h: Hasher, leaves: Leaves, leaf: Fr, path: seq<Fr>, bits: Bits, n: nat)
    requires |path| == |bits| && n <= |bits|
    requires Fold(h, leaf, path[..n], Indices(bits)[..n]) == Full(h, leaves, n, bits[n..])
    requires leaf != LeafAt(leaves, bits)
    ensures Collides(h, FindCollision(h, leaves, leaf, path, bits, n))
  {
    assert bits[0..] == bits;
    if n == 0 {
      assert false;
    } else {
      FoldPrefix(h, leaf, path, Indices(bits), n - 1);
      NodeSplits(h, leaves, bits, n - 1);
      var cur, node := Fold(h, leaf, path[..n - 1], Indices(bits)[..n - 1]), Full(h, leaves, n - 1, bits[n - 1..]);
      if Ordered(cur, path[n - 1], Indices(bits)[n - 1]) ==
         Ordered(node, Sibling(h, leaves, bits, n - 1), Indices(bits)[n - 1]) {
        ForgedLeafCollides(h, leaves, leaf, path, bits, n - 1);
      }
    }
  }

  /** Opening soundness: a path that reaches the root from slot `bits` opens the
      value stored there, or the extractor returns a collision. */
  lemma OpeningSound(h: Hasher, leaves: Leaves, leaf: Fr, path: seq<Fr>, bits: Bits)
    requires |path| == |bits|
    requires Fold(h, leaf, path, Indices(bits)) == Root(h, leaves, |bits|)
    ensures leaf == LeafAt(leaves, bits) ||
            Collides(h, FindCollision(h, leaves, leaf, path, bits, |bits|))
  {
    var n := |bits|;
    assert path[..n] == path && Indices(bits)[..n] == Indices(bits) && bits[n..] == [];
    if leaf != LeafAt(leaves, bits) {
      ForgedLeafCollides(h, leaves, leaf, path, bits, n);
    }
  }

  function HonestProof(h: Hasher, leaves: Leaves, bits: Bits): SmtProof {
    SmtProof(SiblingPath(h, leaves, bits), Indices(bits), ZERO)
  }

  /** Exclusion is provable exactly for unoccupied slots: the service's proof is
      accepted when the slot is free, and any accepted proof for an occupied slot
      is turned into a collision. */
  lemma ExclusionProvableIffAbsent(h: Hasher, leaves: Leaves, depth: nat, wallet: Fr)
    requires WellFormed(leaves, depth)
    ensures Slot(h, wallet, depth) !in leaves ==>
              Verify(h, depth, wallet, HonestProof(h, leaves, Slot(h, wallet, depth)), Root(h, leaves, depth)) == Ok(())
    ensures Slot(h, wallet, depth) in leaves ==>
              forall p | Shaped(p, depth) && Verify(h, depth, wallet, p, Root(h, leaves, depth)) == Ok(()) ::
                Collides(h, FindCollision(h, leaves, ZERO, p.path, Slot(h, wallet, depth), depth))
  {
    var bits := Slot(h, wallet, depth);
    if bits !in leaves {
      HonestFoldReachesRoot(h, leaves, bits);
    } else {
      forall p | Shaped(p, depth) && Verify(h, depth, wallet, p, Root(h, leaves, depth)) == Ok(())
        ensures Collides(h, FindCollision(h, leaves, ZERO, p.path, bits, depth))
      {
        OpeningSound(h, leaves, ZERO, p.path, bits);
      }
    }
  }

  // ------------------------------------------- the root commits to the slots

  /** Two trees whose occupied slots differ at `bits` and whose roots agree give a
      collision: open the first tree at `bits` and replay that path on the second. */
  lemma RootBindsSlot(h: Hasher, a: Leaves, b: Leaves, depth: nat, bits: Bits)
    requires WellFormed(a, depth) && WellFormed(b, depth) && |bits| == depth
    requires Root(h, a, depth) == Root(h, b, depth)
    requires bits in a <==> bits !in b
    ensures Collides(h, FindCollision(h, b, LeafAt(a, bits), SiblingPath(h, a, bits), bits, depth))
  {
    HonestFoldReachesRoot(h, a, bits);
    OpeningSound(h, b, LeafAt(a, bits), SiblingPath(h, a, bits), bits);
  }

  /** Equal roots: equal trees, or some slot where they differ yields a collision. */
  lemma RootDeterminesSlots(h: Hasher, a: Leaves, b: Leaves, depth: nat)
    requires WellFormed(a, depth) && WellFormed(b, depth)
    requires Root(h, a, depth) == Root(h, b, depth)
    ensures a == b ||
            exists bits | bits in a.Keys + b.Keys ::
              |bits| == depth && (bits in a <==> bits !in b) &&
              Collides(h, FindCollision(h, b, LeafAt(a, bits), SiblingPath(h, a, bits), bits, depth))
  {
    if a.Keys == b.Keys {
      assert forall bits :: bits in a ==> a[bits] == b[bits];
    } else {
      var bits :| bits in a.Keys + b.Keys && (bits in a <==> bits !in b);
      RootBindsSlot(h, a, b, depth, bits);
    }
  }

  /** Inserting and then removing a wallet restores the tree when its slot was free.
      When the slot was taken, the root can only come back through a collision. */
  lemma InsertRemoveRestores(h: Hasher, leaves: Leaves, depth: nat, wallet: Fr)
    requires WellFormed(leaves, depth)
    ensures var bits := Slot(h, wallet, depth);
            var after := leaves[bits := ONE] - {bits};
            && (bits !in leaves ==> after == leaves)
            && (bits in leaves && Root(h, after, depth) == Root(h, leaves, depth) ==>
                  Collides(h, FindCollision(h, leaves, ZERO, SiblingPath(h, after, bits), bits, depth)))
  {
    var bits := Slot(h, wallet, depth);
    var after := leaves[bits := ONE] - {bits};
    if bits in leaves && Root(h, after, depth) == Root(h, leaves, depth) {
      RootBindsSlot(h, after, leaves, depth, bits);
    }
  }

  // --------------------------------------------------------------- the class

  /** `empty_subtree_hashes`. */
  method EmptySubtreeHashes(h: Hasher, depth: nat) returns (r: seq<Fr>)
    ensures EmptyTable(h, r, depth)
  {
    var table := new Fr[depth + 1];
    table[0] := ZERO;
    for i := 1 to depth + 1
      invariant forall k :: 0 <= k < i ==> table[k] == EmptyHash(h, k)
    {
      var below := table[i - 1];
      table[i] := h.two(below, below);
    }
    r := table[..];
  }

  class SparseMerkleTree {
    const h: Hasher
    const depth: nat
    const emptyHashes: seq<Fr>
    var leaves: Leaves

    ghost predicate Valid()
      reads this
    {
      depth <= 256 && WellFormed(leaves, depth) && EmptyTable(h, emptyHashes, depth)
    }

    constructor (h: Hasher, depth: nat)
      requires depth <= 256
      ensures Valid() && this.h == h && this.depth == depth && leaves == map[]
    {
      var table := EmptySubtreeHashes(h, depth);
      this.h := h;
      this.depth := depth;
      emptyHashes := table;
      leaves := map[];
    }

    method Insert(wallet: Fr)
      requires Valid()
      modifies this
      ensures Valid() && leaves == old(leaves)[Slot(h, wallet, depth) := ONE]
      ensures exists bits :: Spells(bits, h.one(wallet), depth) && leaves == old(leaves)[bits := ONE]
    {
      hide Spells;
      var bits := ComputeKeyBits(h.one(wallet), depth);
      leaves := leaves[bits := ONE];
    }

    method Remove(wallet: Fr) returns (present: bool)
      requires Valid()
      modifies this
      ensures Valid() && leaves == old(leaves) - {Slot(h, wallet, depth)}
      ensures present <==> Slot(h, wallet, depth) in old(leaves)
      ensures exists bits :: Spells(bits, h.one(wallet), depth) && leaves == old(leaves) - {bits} && (present <==> bits in old(leaves))
    {
      hide Spells;
      var bits := ComputeKeyBits(h.one(wallet), depth);
      present := bits in leaves;
      leaves := leaves - {bits};
    }

    method ComputeRoot() returns (root: Fr)
      requires Valid()
      ensures root == Root(h, leaves, depth)
    {
      PruningIsExact(h, leaves, emptyHashes, depth, depth, []);
      assert Reverse([]) == [];
      root := SubtreeHash(h, leaves, emptyHashes, depth, depth, []);
    }

    /** `sibling_path`: the prefix of level `i` is the path from the root with its
        last turn flipped. */
    method ComputeSiblingPath(bits: Bits) returns (path: seq<Fr>)
      requires Valid() && |bits| == depth
      ensures path == SiblingPath(h, leaves, bits)
    {
      var buffer := new Fr[depth];
      for i := 0 to depth
        invariant forall k :: 0 <= k < i ==> buffer[k] == Sibling(h, leaves, bits, k)
      {
        var prefix: Bits := [];
        for j := depth downto i + 1
          invariant prefix == Reverse(bits[j..])
        {
          prefix := prefix + [bits[j]];
        }
        prefix := prefix + [!bits[i]];
        assert Reverse(prefix) == [!bits[i]] + bits[i + 1..];
        PruningIsExact(h, leaves, emptyHashes, depth, i, prefix);
        buffer[i] := SubtreeHash(h, leaves, emptyHashes, depth, i, prefix);
      }
      path := buffer[..];
    }

    method ExclusionProof(wallet: Fr) returns (r: Result<SmtProof, CryptoError>)
      requires Valid()
      ensures r == if Slot(h, wallet, depth) in leaves then Err(WalletIsSanctioned)
                   else Ok(HonestProof(h, leaves, Slot(h, wallet, depth)))
      ensures r.Ok? ==> Shaped(r.value, depth) &&
                        Verify(h, depth, wallet, r.value, Root(h, leaves, depth)) == Ok(())
      ensures exists bits :: Spells(bits, h.one(wallet), depth) && (r.Ok? <==> bits !in leaves) &&
                             (r.Ok? ==> r.value.pathIndices == Indices(bits) && r.value.leafValue == ZERO)
    {
      hide Spells;
      var bits := ComputeKeyBits(h.one(wallet), depth);
      if bits in leaves {
        return Err(WalletIsSanctioned);
      }
      var path := ComputeSiblingPath(bits);
      var indices := new nat[depth];
      for i := 0 to depth
        invariant forall k :: 0 <= k < i ==> indices[k] == Indices(bits)[k]
      {
        indices[i] := if bits[i] then 1 else 0;
      }
      ExclusionProvableIffAbsent(h, leaves, depth, wallet);
      assert indices[..] == Indices(bits);
      r := Ok(SmtProof(path, indices[..], ZERO));
    }
  }

  /** `verify_smt_exclusion`. */
  method VerifySmtExclusion(h: Hasher, depth: nat, wallet: Fr, p: SmtProof, root: Fr) returns (r: Result<(), CryptoError>)
    requires depth <= 256 && Shaped(p, depth)
    ensures r == Verify(h, depth, wallet, p, root)
    ensures r == Err(WalletIsSanctioned) <==> p.leafValue != ZERO
    ensures exists bits :: Spells(bits, h.one(wallet), depth) &&
              (r == Err(InvalidSmtPathIndices) <==> p.leafValue == ZERO && p.pathIndices != Indices(bits))
    ensures r == Err(RootMismatch) ==> Fold(h, ZERO, p.path, p.pathIndices) != root
    ensures r == Ok(()) ==> Fold(h, ZERO, p.path, p.pathIndices) == root
  {
    hide Spells;
    ghost var slot := Slot(h, wallet, depth);
    assert Spells(slot, h.one(wallet), depth);
    if p.leafValue != ZERO {
      return Err(WalletIsSanctioned);
    }
    var expected := ComputeKeyBits(h.one(wallet), depth);
    for i := 0 to depth
      invariant forall k :: 0 <= k < i ==> p.pathIndices[k] == Indices(expected)[k]
    {
      if p.pathIndices[i] != if expected[i] then 1 else 0 {
        assert p.pathIndices[i] != Indices(expected)[i];
        return Err(InvalidSmtPathIndices);
      }
    }
    assert p.pathIndices == Indices(expected);
    var cur := FoldPath(h, p.leafValue, p.path, p.pathIndices);
    if cur != root {
      return Err(RootMismatch);
    }
    r := Ok(());
  }
}

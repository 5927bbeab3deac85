/** Building the published sanctions tree from a list of wallets. */
module Sanctions {
  import opened Convert
  import opened Field
  import opened SparseTree
  import opened Text
  import opened Wrappers

  predicate AllWallets(wallets: seq<string>) { forall i :: 0 <= i < |wallets| ==> WalletToFr(wallets[i]).Some? }

  function Slots(h: Hasher, depth: nat, wallets: seq<string>): set<Bits> {
    set i | 0 <= i < |wallets| && WalletToFr(wallets[i]).Some? :: Slot(h, WalletToFr(wallets[i]).value, depth)
  }

  function Occupied(slots: set<Bits>): Leaves { map b | b in slots :: ONE }

  /** `build_sanctions_tree`: the first malformed wallet aborts the build. */
  method BuildSanctionsTree(h: Hasher, depth: nat, wallets: seq<string>)
    returns (r: Option<(SparseMerkleTree, seq<Byte>)>)
    requires depth <= 256
    ensures r.Some? <==> AllWallets(wallets)
    ensures r.Some? ==> fresh(r.value.0) && r.value.0.leaves == Occupied(Slots(h, depth, wallets)) &&
                        r.value.1 == FrToBytes(Root(h, Occupied(Slots(h, depth, wallets)), depth))
  {
    hide Slot, WalletToFr, FrToBytes, Root, Slots, Occupied;
    var tree := new SparseMerkleTree(h, depth);
    NothingOccupied(h, depth, wallets);
    for i := 0 to |wallets|
      invariant tree.Valid() && fresh(tree) && tree.h == h && tree.depth == depth
      invariant AllWallets(wallets[..i]) && tree.leaves == Occupied(Slots(h, depth, wallets[..i]))
    {
      var fr := WalletToFr(wallets[i]);
      if fr.None? {
        return None;
      }
      tree.Insert(fr.value);
      SlotsSnoc(h, depth, wallets, i);
      OccupiedSnoc(Slots(h, depth, wallets[..i]), Slot(h, fr.value, depth));
    }
    assert wallets[..|wallets|] == wallets;
    var root := tree.ComputeRoot();
    r := Some((tree, FrToBytes(root)));
  }

  lemma NothingOccupied(h: Hasher, depth: nat, wallets: seq<string>)
    ensures Occupied(Slots(h, depth, wallets[..0])) == map[]
  {
  }

  lemma OccupiedSnoc(slots: set<Bits>, bits: Bits)
    ensures Occupied(slots + {bits}) == Occupied(slots)[bits := ONE]
  {
  }

  lemma SlotsSnoc(h: Hasher, depth: nat, wallets: seq<string>, i: nat)
    requires i < |wallets| && WalletToFr(wallets[i]).Some?
    ensures Slots(h, depth, wallets[..i + 1]) == Slots(h, depth, wallets[..i]) + {Slot(h, WalletToFr(wallets[i]).value, depth)}
  {
    hide Slot, WalletToFr;
    var a, b := wallets[..i + 1], wallets[..i];
    assert a[i] == wallets[i] && forall k :: 0 <= k < i ==> a[k] == b[k];
    forall x | x in Slots(h, depth, b) ensures x in Slots(h, depth, a) {
      var k :| 0 <= k < |b| && WalletToFr(b[k]).Some? && x == Slot(h, WalletToFr(b[k]).value, depth);
      assert x == Slot(h, WalletToFr(a[k]).value, depth);
    }
    assert Slot(h, WalletToFr(a[i]).value, depth) in Slots(h, depth, a);
  }

  /** The root depends on the set of wallets only: reordering or repeating the list does
      not change it. */
  lemma RootIgnoresOrder(h: Hasher, depth: nat, xs: seq<string>, ys: seq<string>)
    requires forall w :: w in xs <==> w in ys
    ensures Slots(h, depth, xs) == Slots(h, depth, ys)
    ensures Root(h, Occupied(Slots(h, depth, xs)), depth) == Root(h, Occupied(Slots(h, depth, ys)), depth)
  {
    SlotsIncluded(h, depth, xs, ys);
    SlotsIncluded(h, depth, ys, xs);
  }

  lemma SlotsIncluded(h: Hasher, depth: nat, xs: seq<string>, ys: seq<string>)
    requires forall w :: w in xs ==> w in ys
    ensures Slots(h, depth, xs) <= Slots(h, depth, ys)
  {
    hide Slot, WalletToFr;
    forall x | x in Slots(h, depth, xs) ensures x in Slots(h, depth, ys) {
      var i :| 0 <= i < |xs| && WalletToFr(xs[i]).Some? && x == Slot(h, WalletToFr(xs[i]).value, depth);
      assert xs[i] in ys;
      var j :| 0 <= j < |ys| && ys[j] == xs[i];
      assert x == Slot(h, WalletToFr(ys[j]).value, depth);
    }
  }

  /** Whose slot a list occupies: exactly the wallets whose hash agrees modulo 2^depth with
      that of a listed one. */
  lemma OccupiedIffHashListed(h: Hasher, depth: nat, xs: seq<string>, wallet: Fr)
    ensures Slot(h, wallet, depth) in Slots(h, depth, xs) <==>
            exists i :: 0 <= i < |xs| && WalletToFr(xs[i]).Some? &&
              h.one(WalletToFr(xs[i]).value) % Pow2(depth) == h.one(wallet) % Pow2(depth)
  {
    hide WalletToFr, Slot;
    forall i | 0 <= i < |xs| && WalletToFr(xs[i]).Some?
      ensures Slot(h, WalletToFr(xs[i]).value, depth) == Slot(h, wallet, depth) <==>
              h.one(WalletToFr(xs[i]).value) % Pow2(depth) == h.one(wallet) % Pow2(depth)
    {
      SameSlotIff(h, WalletToFr(xs[i]).value, wallet, depth);
    }
  }

  /** Two lists with the same published root occupy the same slots, or the two trees
      yield a collision. */
  lemma RootBindsList(h: Hasher, depth: nat, xs: seq<string>, ys: seq<string>)
    requires Root(h, Occupied(Slots(h, depth, xs)), depth) == Root(h, Occupied(Slots(h, depth, ys)), depth)
    ensures var a, b := Occupied(Slots(h, depth, xs)), Occupied(Slots(h, depth, ys));
            Slots(h, depth, xs) == Slots(h, depth, ys) ||
            exists bits | bits in a.Keys + b.Keys ::
              |bits| == depth && (bits in a <==> bits !in b) &&
              Collides(h, FindCollision(h, b, LeafAt(a, bits), SiblingPath(h, a, bits), bits, depth))
  {
    var a, b := Occupied(Slots(h, depth, xs)), Occupied(Slots(h, depth, ys));
    assert a.Keys == Slots(h, depth, xs) && b.Keys == Slots(h, depth, ys);
    hide Slots, FindCollision, Root, SiblingPath;
    SlotsHaveDepth(h, depth, xs);
    SlotsHaveDepth(h, depth, ys);
    RootDeterminesSlots(h, a, b, depth);
  }

  lemma SlotsHaveDepth(h: Hasher, depth: nat, xs: seq<string>)
    ensures WellFormed(Occupied(Slots(h, depth, xs)), depth)
  {
  }
}

/** The issuer's credential state: the handlers that change it, the file it is saved
    to, and the proofs it hands out. */
module Issuer {
  import opened Convert
  import opened Field
  import opened MerkleTree
  import opened Text
  import opened Wrappers
  import S = SparseTree

  type Wallet = seq<Byte>

  datatype Credential = Credential(wallet: Wallet, leafIndex: nat, jurisdiction: string, issuedAt: nat, revoked: bool)

  type Credentials = map<Wallet, Credential>

  function WalletLeaf(h: Hasher, wallet: Wallet): Fr { h.one(BytesToFr(wallet)) }

  function LeafOf(h: Hasher, c: Credential): Fr { if c.revoked then ZERO else WalletLeaf(h, c.wallet) }

  /** `order[i]` is the wallet of leaf `i`; every credential has exactly one leaf, and the
      leaf is the wallet's hash or, once revoked, ZERO. */
  predicate Indexed(h: Hasher, leaves: seq<Fr>, creds: Credentials, order: seq<Wallet>) {
    && |order| == |leaves|
    && (forall i :: 0 <= i < |order| ==>
          && order[i] in creds
          && creds[order[i]].wallet == order[i]
          && creds[order[i]].leafIndex == i
          && leaves[i] == LeafOf(h, creds[order[i]]))
    && (forall w :: w in creds ==> w in order)
  }

  lemma {:induction false} DistinctCount(order: seq<Wallet>, keys: set<Wallet>)
    requires forall i, j :: 0 <= i < j < |order| ==> order[i] != order[j]
    requires forall w :: w in keys <==> w in order
    ensures |keys| == |order|
    decreases |order|
  {
    if order == [] {
      assert keys == {};
    } else {
      var n := |order| - 1;
      var rest := keys - {order[n]};
      forall w ensures w in rest <==> w in order[..n] {
        assert w in order <==> w in order[..n] || w == order[n];
      }
      DistinctCount(order[..n], rest);
    }
  }

  lemma IndexedCount(h: Hasher, leaves: seq<Fr>, creds: Credentials, order: seq<Wallet>)
    requires Indexed(h, leaves, creds, order)
    ensures |creds| == |leaves|
  {
    DistinctCount(order, creds.Keys);
  }

  lemma IndexedAdd(h: Hasher, leaves: seq<Fr>, creds: Credentials, order: seq<Wallet>, c: Credential)
    requires Indexed(h, leaves, creds, order) && c.wallet !in creds && c.leafIndex == |leaves|
    ensures Indexed(h, leaves + [LeafOf(h, c)], creds[c.wallet := c], order + [c.wallet])
  {
    var order' := order + [c.wallet];
    assert order'[|order|] == c.wallet;
    forall w | w in creds[c.wallet := c] ensures w in order' {
      if w in creds {
        var i :| 0 <= i < |order| && order[i] == w;
        assert order'[i] == w;
      }
    }
  }

  lemma IndexedRevoke(h: Hasher, leaves: seq<Fr>, creds: Credentials, order: seq<Wallet>, w: Wallet)
    requires Indexed(h, leaves, creds, order) && w in creds
    ensures creds[w].leafIndex < |leaves| && leaves[creds[w].leafIndex] == LeafOf(h, creds[w])
    ensures creds[w].wallet == w
    ensures Indexed(h, leaves[creds[w].leafIndex := ZERO], creds[w := creds[w].(revoked := true)], order)
  {
    var i :| 0 <= i < |order| && order[i] == w;
  }

  // ---------------------------------------------------------------- handlers

  datatype ServiceError = InvalidHex | DuplicateWallet | WalletNotFound | AlreadyRevoked | WalletRevoked | PersistFailed

  const JURISDICTION_ID: Fr := 1

  /** The jurisdiction tree holds its one leaf and is not the membership tree. */
  ghost predicate Jurisdictional(jurisdiction: Tree, membership: Tree)
    reads jurisdiction
  {
    jurisdiction != membership && jurisdiction.leaves == [jurisdiction.h.one(JURISDICTION_ID)]
  }

  class IssuerState {
    const h: Hasher
    const depth: nat
    const membership: Tree
    const sanctions: S.SparseMerkleTree
    const jurisdiction: Tree
    var credentials: Credentials
    var lastPublishSlot: nat
    var registered: bool
    var rootsDirty: bool
    ghost var order: seq<Wallet>

    ghost predicate Valid()
      reads this, membership, sanctions, jurisdiction
    {
      && membership.h == h && membership.depth == depth && sanctions.h == h && sanctions.depth == depth
      && sanctions.Valid() && Jurisdictional(jurisdiction, membership)
      && jurisdiction.h == h && jurisdiction.depth == depth
      && Indexed(h, membership.leaves, credentials, order)
    }

    constructor (h: Hasher, depth: nat)
      requires depth <= 256
      ensures Valid() && fresh(membership) && fresh(sanctions) && fresh(jurisdiction) && this.h == h && this.depth == depth
      ensures credentials == map[] && !registered && !rootsDirty && lastPublishSlot == 0
      ensures membership.leaves == [] && sanctions.leaves == map[] && jurisdiction.leaves == [h.one(JURISDICTION_ID)]
    {
      var m := new Tree(h, depth);
      var s := new S.SparseMerkleTree(h, depth);
      var j := new Tree(h, depth);
      j.Insert(h.one(JURISDICTION_ID));
      this.h, this.depth := h, depth;
      membership, sanctions, jurisdiction := m, s, j;
      credentials, registered, rootsDirty, lastPublishSlot, order := map[], false, false, 0, [];
    }

    /** `issue_credential`, and `add_wallet` with jurisdiction "UNKNOWN".  A failed save is
        reported but the credential stays. */
    method IssueCredential(hex: string, jurisdiction: string, now: nat, saves: bool) returns (r: Result<nat, ServiceError>)
      requires Valid()
      modifies this, membership
      ensures Valid() && sanctions.leaves == old(sanctions.leaves) && registered == old(registered)
      ensures lastPublishSlot == old(lastPublishSlot)
      ensures WalletBytes(hex).None? ==> r == Err(InvalidHex)
      ensures WalletBytes(hex).Some? && WalletBytes(hex).value in old(credentials) ==> r == Err(DuplicateWallet)
      ensures WalletBytes(hex).None? || WalletBytes(hex).value in old(credentials) ==>
                credentials == old(credentials) && membership.leaves == old(membership.leaves) && rootsDirty == old(rootsDirty)
      ensures WalletBytes(hex).Some? && WalletBytes(hex).value !in old(credentials) ==>
                && (r == if saves then Ok(|old(credentials)|) else Err(PersistFailed))
                && rootsDirty
                && membership.leaves == old(membership.leaves) + [h.one(BytesToFr(WalletBytes(hex).value))]
                && credentials == old(credentials)[WalletBytes(hex).value :=
                     Credential(WalletBytes(hex).value, |old(membership.leaves)|, jurisdiction, now, false)]
    {
      hide WalletBytes, BytesToFr, Indexed;
      var bytes := WalletBytes(hex);
      if bytes.None? {
        return Err(InvalidHex);
      }
      var w := bytes.value;
      if w in credentials {
        return Err(DuplicateWallet);
      }
      IndexedCount(h, membership.leaves, credentials, order);
      var leafIndex := |credentials|;
      var c := Credential(w, leafIndex, jurisdiction, now, false);
      IndexedAdd(h, membership.leaves, credentials, order, c);
      membership.Insert(h.one(BytesToFr(w)));
      rootsDirty := true;
      credentials := credentials[w := c];
      order := order + [w];
      if !saves {
        return Err(PersistFailed);
      }
      r := Ok(leafIndex);
    }

    /** `revoke_credential`: zero the leaf, lift the sanction, mark the record; if the save
        fails, put everything back. */
    method RevokeCredential(hex: string, saves: bool) returns (r: Result<(), ServiceError>)
      requires Valid()
      modifies this, membership, sanctions
      ensures Valid() && registered == old(registered) && lastPublishSlot == old(lastPublishSlot)
      ensures r.Err? ==> credentials == old(credentials) && membership.leaves == old(membership.leaves) &&
                         sanctions.leaves == old(sanctions.leaves) && rootsDirty == old(rootsDirty)
      ensures WalletBytes(hex).None? ==> r == Err(InvalidHex)
      ensures WalletBytes(hex).Some? && WalletBytes(hex).value !in old(credentials) ==> r == Err(WalletNotFound)
      ensures WalletBytes(hex).Some? && WalletBytes(hex).value in old(credentials) ==>
                if old(credentials)[WalletBytes(hex).value].revoked then r == Err(AlreadyRevoked)
                else r == if saves then Ok(()) else Err(PersistFailed)
      ensures r.Ok? ==>
                var w := WalletBytes(hex).value;
                var c := old(credentials)[w];
                && credentials == old(credentials)[w := c.(revoked := true)] && rootsDirty
                && c.leafIndex < |old(membership.leaves)|
                && membership.leaves == old(membership.leaves)[c.leafIndex := ZERO]
                && sanctions.leaves == old(sanctions.leaves) - {S.Slot(h, BytesToFr(w), depth)}
    {
      hide WalletBytes, BytesToFr, Indexed, S.Slot, S.WellFormed, S.EmptyTable;
      var bytes := WalletBytes(hex);
      if bytes.None? {
        return Err(InvalidHex);
      }
      var w := bytes.value;
      if w !in credentials {
        return Err(WalletNotFound);
      }
      var cred := credentials[w];
      if cred.revoked {
        return Err(AlreadyRevoked);
      }
      IndexedRevoke(h, membership.leaves, credentials, order, w);
      var leafIndex, wasDirty, fr := cred.leafIndex, rootsDirty, BytesToFr(w);
      var zeroed := membership.ZeroLeaf(leafIndex);
      var lifted := sanctions.Remove(fr);
      credentials := credentials[w := cred.(revoked := true)];
      rootsDirty := true;
      if !saves {
        var reset := membership.SetLeaf(leafIndex, h.one(fr));
        if lifted {
          sanctions.Insert(fr);
        }
        credentials := credentials[w := credentials[w].(revoked := false)];
        rootsDirty := wasDirty;
        SlotRestored(old(sanctions.leaves), depth, S.Slot(h, fr, depth));
        assert membership.leaves == old(membership.leaves);
        assert sanctions.leaves == old(sanctions.leaves);
        assert credentials == old(credentials);
        return Err(PersistFailed);
      }
      r := Ok(());
    }

    /** `get_proof`: a live credential's proof opens its own leaf under the current root. */
    method MembershipProof(w: Wallet) returns (r: Result<MerkleProof, ServiceError>)
      requires Valid()
      ensures w !in credentials ==> r == Err(WalletNotFound)
      ensures w in credentials && credentials[w].revoked ==> r == Err(WalletRevoked)
      ensures w in credentials && !credentials[w].revoked ==>
                && r.Ok? && Shaped(r.value, depth) && |membership.leaves| > 0
                && (credentials[w].leafIndex < S.Pow2(depth) ==>
                      Accepts(h, h.one(BytesToFr(w)), r.value, RootOf(h, membership.leaves, depth)))
    {
      if w !in credentials {
        return Err(WalletNotFound);
      }
      if credentials[w].revoked {
        return Err(WalletRevoked);
      }
      IndexedRevoke(h, membership.leaves, credentials, order, w);
      hide Indexed, RootOf, Accepts, ProofOf, BytesToFr;
      var p := membership.Proof(credentials[w].leafIndex);
      var index := credentials[w].leafIndex;
      ProofShape(h, membership.leaves, index, depth);
      if index < S.Pow2(depth) {
        HonestProofAccepted(h, membership.leaves, index, depth);
      }
      r := Ok(p.value);
    }

    /** `get_jurisdiction_proof`: a live credential's holder gets the proof of the one
        jurisdiction leaf, which is accepted at every depth. */
    method JurisdictionProof(w: Wallet) returns (r: Result<MerkleProof, ServiceError>)
      requires Valid()
      ensures w !in credentials ==> r == Err(WalletNotFound)
      ensures w in credentials && credentials[w].revoked ==> r == Err(WalletRevoked)
      ensures w in credentials && !credentials[w].revoked ==>
                && r.Ok? && Shaped(r.value, depth)
                && Accepts(h, h.one(JURISDICTION_ID), r.value, RootOf(h, jurisdiction.leaves, depth))
    {
      if w !in credentials {
        return Err(WalletNotFound);
      }
      if credentials[w].revoked {
        return Err(WalletRevoked);
      }
      hide Indexed, RootOf, Accepts, ProofOf;
      var p := jurisdiction.Proof(0);
      ProofShape(h, jurisdiction.leaves, 0, depth);
      HonestProofAccepted(h, jurisdiction.leaves, 0, depth);
      r := Ok(p.value);
    }
  }

  /** Removing a slot and putting it back if it was there changes nothing. */
  lemma SlotRestored(leaves: S.Leaves, depth: nat, bits: S.Bits)
    requires S.WellFormed(leaves, depth)
    ensures (if bits in leaves then (leaves - {bits})[bits := ONE] else leaves - {bits}) == leaves
  {
  }

  lemma ProofShape(h: Hasher, leaves: seq<Fr>, index: nat, depth: nat)
    ensures Shaped(ProofOf(h, leaves, index, depth), depth)
  {
  }

  /** Who can prove membership: any proof accepted for a wallet's leaf means that some live
      credential has this very leaf, or the hash is broken.  A revoked or unknown wallet
      is thus provable only through a live one whose bytes hash to the same leaf. */
  lemma MembershipMeansLive(h: Hasher, leaves: seq<Fr>, creds: Credentials, order: seq<Wallet>, depth: nat,
                            w: Wallet, p: MerkleProof)
    requires Indexed(h, leaves, creds, order) && Shaped(p, depth)
    requires WalletLeaf(h, w) != ZERO && Accepts(h, WalletLeaf(h, w), p, RootOf(h, leaves, depth))
    ensures || Breaks(h, ForgeryOf(h, leaves, WalletLeaf(h, w), p))
            || exists v :: v in creds && !creds[v].revoked && WalletLeaf(h, v) == WalletLeaf(h, w)
  {
    hide FindBreak, S.FindCollision, RootOf, Accepts, WalletLeaf, Spelled;
    if leaves == [] {
      EmptyTreeOpensOnlyZero(h, depth, WalletLeaf(h, w), p);
    } else {
      AcceptedProofIsGenuine(h, leaves, depth, WalletLeaf(h, w), p);
      var i := Spelled(p.pathIndices);
      if Genuine(leaves, i, WalletLeaf(h, w)) {
        var v := order[i];
        assert v in creds && leaves[i] == LeafOf(h, creds[v]);
      }
    }
  }
}

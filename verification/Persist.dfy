/** Saving the issuer's state and rebuilding it.  The file holds the credential records
    and the registered flag; the membership tree is rebuilt from the records.  JSON and
    the file system are not modelled: the persisted value is the record itself. */
module Persist {
  import opened Field
  import opened Issuer

  datatype Persisted = Persisted(credentials: seq<Credential>, registered: bool)

  // ----------------------------------------------------------------- sorting

  predicate Sorted(s: seq<Credential>) { forall i, j :: 0 <= i < j < |s| ==> s[i].leafIndex <= s[j].leafIndex }

  function Insert(s: seq<Credential>, c: Credential): seq<Credential> {
    if s == [] || s[|s| - 1].leafIndex <= c.leafIndex then s + [c]
    else Insert(s[..|s| - 1], c) + [s[|s| - 1]]
  }

  /** A stable sort by leaf index, as `sort_by_key` promises. */
  function Sort(s: seq<Credential>): seq<Credential> {
    if s == [] then [] else Insert(Sort(s[..|s| - 1]), s[|s| - 1])
  }

  lemma {:induction false} InsertPermutes(s: seq<Credential>, c: Credential)
    ensures multiset(Insert(s, c)) == multiset(s) + multiset{c}
    decreases |s|
  {
    if s != [] && s[|s| - 1].leafIndex > c.leafIndex {
      InsertPermutes(s[..|s| - 1], c);
      assert s == s[..|s| - 1] + [s[|s| - 1]];
    }
  }

  lemma {:induction false} InsertSorts(s: seq<Credential>, c: Credential)
    requires Sorted(s)
    ensures Sorted(Insert(s, c))
    decreases |s|
  {
    if s != [] && s[|s| - 1].leafIndex > c.leafIndex {
      var n := |s| - 1;
      InsertSorts(s[..n], c);
      InsertPermutes(s[..n], c);
      var t := Insert(s[..n], c);
      forall i | 0 <= i < |t| ensures t[i].leafIndex <= s[n].leafIndex {
        assert t[i] in multiset(t);
        assert t[i] in multiset(s[..n]) || t[i] == c;
        assert t[i] in s[..n] || t[i] == c;
      }
    }
  }

  lemma {:induction false} SortSorts(s: seq<Credential>)
    ensures Sorted(Sort(s)) && multiset(Sort(s)) == multiset(s)
    decreases |s|
  {
    if s != [] {
      var n := |s| - 1;
      SortSorts(s[..n]);
      InsertSorts(Sort(s[..n]), s[n]);
      InsertPermutes(Sort(s[..n]), s[n]);
      assert s == s[..n] + [s[n]];
    }
  }

  predicate Strict(s: seq<Credential>) { forall i, j :: 0 <= i < j < |s| ==> s[i].leafIndex < s[j].leafIndex }

  predicate Numbered(t: seq<Credential>) { forall i :: 0 <= i < |t| ==> t[i].leafIndex == i }

  lemma {:induction false} OneOfEach(s: seq<Credential>, c: Credential)
    requires Strict(s)
    ensures multiset(s)[c] == if c in s then 1 else 0
    decreases |s|
  {
    if s != [] {
      var n := |s| - 1;
      OneOfEach(s[..n], c);
      assert s == s[..n] + [s[n]];
    }
  }

  lemma CountsTwice(s: seq<Credential>, i: nat, j: nat)
    requires i < j < |s| && s[i] == s[j]
    ensures multiset(s)[s[i]] >= 2
  {
    assert s == s[..j] + s[j..];
    assert s[..j][i] == s[i] && s[j..][0] == s[i];
    assert s[i] in multiset(s[..j]) && s[i] in multiset(s[j..]);
  }

  /** A strictly increasing sequence of n indices below n is 0, 1, ..., n - 1. */
  lemma {:induction false} StrictIsNumbered(s: seq<Credential>, bound: nat)
    requires Strict(s) && forall i :: 0 <= i < |s| ==> s[i].leafIndex < bound
    ensures |s| <= bound && (|s| == bound ==> Numbered(s))
    decreases |s|
  {
    if s != [] {
      var n := |s| - 1;
      StrictIsNumbered(s[..n], s[n].leafIndex);
      if |s| == bound {
        assert forall i :: 0 <= i < n ==> s[..n][i].leafIndex == i;
      }
    }
  }

  lemma SortedArrangementIsStrict(s: seq<Credential>, t: seq<Credential>)
    requires Sorted(s) && Numbered(t) && multiset(s) == multiset(t)
    ensures Strict(s) && |s| == |t|
    ensures forall i :: 0 <= i < |s| ==> s[i] in t
  {
    assert |multiset(s)| == |s| && |multiset(t)| == |t|;
    forall i | 0 <= i < |s| ensures s[i] in t {
      assert s[i] in multiset(s);
    }
    forall i, j | 0 <= i < j < |s| ensures s[i].leafIndex < s[j].leafIndex {
      OneOfEach(t, s[i]);
      if s[i] == s[j] {
        CountsTwice(s, i, j);
      }
    }
  }

  /** Sorting any arrangement of records numbered 0, 1, 2, ... puts them in that order. */
  lemma SortedArrangementIsNumbered(s: seq<Credential>, t: seq<Credential>)
    requires Sorted(s) && Numbered(t) && multiset(s) == multiset(t)
    ensures s == t
  {
    SortedArrangementIsStrict(s, t);
    hide Sorted, Strict;
    forall i | 0 <= i < |s| ensures s[i].leafIndex < |t| && s[i] == t[s[i].leafIndex] {
      assert s[i] in t;
    }
    StrictIsNumbered(s, |t|);
  }

  // ------------------------------------------------------------ save and load

  /** `e` lists the map's records, each once, in any order. */
  ghost predicate Enumerates(creds: Credentials, e: seq<Credential>) {
    forall c: Credential :: multiset(e)[c] == if c.wallet in creds && creds[c.wallet] == c then 1 else 0
  }

  function Listing(creds: Credentials, order: seq<Wallet>): (r: seq<Credential>)
    requires forall i :: 0 <= i < |order| ==> order[i] in creds
    ensures |r| == |order| && forall i :: 0 <= i < |r| ==> r[i] == creds[order[i]]
  {
    seq(|order|, i requires 0 <= i < |order| => creds[order[i]])
  }

  function LeavesOf(h: Hasher, s: seq<Credential>): (r: seq<Fr>)
    ensures |r| == |s| && forall i :: 0 <= i < |s| ==> r[i] == LeafOf(h, s[i])
  {
    if s == [] then [] else LeavesOf(h, s[..|s| - 1]) + [LeafOf(h, s[|s| - 1])]
  }

  function RecordsOf(s: seq<Credential>): Credentials {
    if s == [] then map[] else RecordsOf(s[..|s| - 1])[s[|s| - 1].wallet := s[|s| - 1]]
  }

  function WalletsOf(s: seq<Credential>): (r: seq<Wallet>)
    ensures |r| == |s| && forall i :: 0 <= i < |s| ==> r[i] == s[i].wallet
  {
    seq(|s|, i requires 0 <= i < |s| => s[i].wallet)
  }

  /** `save`, with the order in which the map yields its records as a parameter: the file
      holds every record exactly as often as it was yielded, ordered by leaf index. */
  method Save(enumeration: seq<Credential>, registered: bool) returns (p: Persisted)
    ensures Sorted(p.credentials) && multiset(p.credentials) == multiset(enumeration)
    ensures p.registered == registered
  {
    SortSorts(enumeration);
    p := Persisted(Sort(enumeration), registered);
  }

  /** `load`: sort again, then insert leaf by leaf and record by record. */
  method Load(h: Hasher, depth: nat, p: Persisted) returns (st: IssuerState)
    requires depth <= 256
    ensures fresh(st) && fresh(st.membership) && fresh(st.sanctions) && fresh(st.jurisdiction) && st.h == h && st.depth == depth
    ensures st.registered == p.registered && !st.rootsDirty && st.lastPublishSlot == 0 && st.sanctions.leaves == map[]
    ensures st.membership.leaves == LeavesOf(h, Sort(p.credentials))
    ensures st.credentials == RecordsOf(Sort(p.credentials))
    ensures Indexed(h, st.membership.leaves, st.credentials, WalletsOf(Sort(p.credentials))) ==> st.Valid()
  {
    hide Sort, LeavesOf, RecordsOf, Indexed, WalletLeaf;
    LoadNothing(h, Sort(p.credentials));
    st := new IssuerState(h, depth);
    st.registered := p.registered;
    var sorted := Sort(p.credentials);
    var credentials: Credentials := map[];
    for i := 0 to |sorted|
      invariant fresh(st) && fresh(st.membership) && fresh(st.sanctions) && fresh(st.jurisdiction) && st.membership.h == h && st.membership.depth == depth
      invariant st.sanctions.h == h && st.sanctions.depth == depth && st.sanctions.Valid() && st.sanctions.leaves == map[]
      invariant st.registered == p.registered && !st.rootsDirty && st.lastPublishSlot == 0
      invariant Jurisdictional(st.jurisdiction, st.membership) && st.jurisdiction.h == h && st.jurisdiction.depth == depth
      invariant st.membership.leaves == LeavesOf(h, sorted[..i])
      invariant credentials == RecordsOf(sorted[..i])
    {
      var cred := sorted[i];
      LoadStep(h, sorted, i);
      var fr := if cred.revoked then ZERO else WalletLeaf(h, cred.wallet);
      st.membership.Insert(fr);
      credentials := credentials[cred.wallet := cred];
    }
    assert sorted[..|sorted|] == sorted;
    st.credentials := credentials;
    st.order := WalletsOf(sorted);
  }

  lemma LoadNothing(h: Hasher, s: seq<Credential>)
    ensures LeavesOf(h, s[..0]) == [] && RecordsOf(s[..0]) == map[]
  {
  }

  lemma LoadStep(h: Hasher, s: seq<Credential>, i: nat)
    requires i < |s|
    ensures LeavesOf(h, s[..i + 1]) == LeavesOf(h, s[..i]) + [LeafOf(h, s[i])]
    ensures RecordsOf(s[..i + 1]) == RecordsOf(s[..i])[s[i].wallet := s[i]]
  {
    assert s[..i + 1][..i] == s[..i];
  }

  // -------------------------------------------------------------- round trip

  lemma ListingIsNumbered(h: Hasher, leaves: seq<Fr>, creds: Credentials, order: seq<Wallet>, e: seq<Credential>)
    requires Indexed(h, leaves, creds, order) && Enumerates(creds, e)
    ensures multiset(e) == multiset(Listing(creds, order))
    ensures Numbered(Listing(creds, order))
  {
    var l := Listing(creds, order);
    forall c: Credential ensures multiset(e)[c] == multiset(l)[c] {
      OneOfEach(l, c);
      if c.wallet in creds && creds[c.wallet] == c {
        var i :| 0 <= i < |order| && order[i] == c.wallet;
        assert l[i] == c;
      }
    }
  }

  /** However the map is enumerated and the file ordered, sorting restores the order of
      the leaves. */
  lemma SortRestoresOrder(h: Hasher, leaves: seq<Fr>, creds: Credentials, order: seq<Wallet>, e: seq<Credential>,
                          s: seq<Credential>)
    requires Indexed(h, leaves, creds, order) && Enumerates(creds, e) && multiset(s) == multiset(e)
    ensures Sort(s) == Listing(creds, order)
  {
    ListingIsNumbered(h, leaves, creds, order, e);
    SortSorts(s);
    hide Sort, Sorted, Listing, Indexed, Enumerates;
    SortedArrangementIsNumbered(Sort(s), Listing(creds, order));
  }

  function Restrict(creds: Credentials, order: seq<Wallet>): Credentials { map w | w in order && w in creds :: creds[w] }

  lemma {:induction false} RecordsOfListing(creds: Credentials, order: seq<Wallet>)
    requires forall i :: 0 <= i < |order| ==> order[i] in creds && creds[order[i]].wallet == order[i]
    ensures RecordsOf(Listing(creds, order)) == Restrict(creds, order)
    decreases |order|
  {
    if order != [] {
      var n := |order| - 1;
      RecordsOfListing(creds, order[..n]);
      assert Listing(creds, order)[..n] == Listing(creds, order[..n]);
      assert forall w :: w in order <==> w in order[..n] || w == order[n];
      assert Restrict(creds, order) == Restrict(creds, order[..n])[order[n] := creds[order[n]]];
    }
  }

  lemma RecordsRestored(h: Hasher, leaves: seq<Fr>, creds: Credentials, order: seq<Wallet>)
    requires Indexed(h, leaves, creds, order)
    ensures RecordsOf(Listing(creds, order)) == creds
    ensures LeavesOf(h, Listing(creds, order)) == leaves
    ensures WalletsOf(Listing(creds, order)) == order
  {
    hide RecordsOf;
    RecordsOfListing(creds, order);
    assert Restrict(creds, order) == creds;
  }

  /** Save then load restores the records, the flag and the membership leaves, hence the
      membership root, for every state the issuer can reach and every map order. */
  method SaveThenLoad(st: IssuerState, enumeration: seq<Credential>) returns (st': IssuerState)
    requires st.Valid() && Enumerates(st.credentials, enumeration)
    ensures fresh(st') && st'.Valid() && st'.h == st.h && st'.depth == st.depth
    ensures st'.credentials == st.credentials && st'.registered == st.registered
    ensures st'.membership.leaves == st.membership.leaves && st'.jurisdiction.leaves == st.jurisdiction.leaves
  {
    hide Indexed, Sort, Sorted, LeavesOf, RecordsOf, WalletsOf, Listing, Enumerates;
    var p := Save(enumeration, st.registered);
    SortRestoresOrder(st.h, st.membership.leaves, st.credentials, st.order, enumeration, p.credentials);
    RecordsRestored(st.h, st.membership.leaves, st.credentials, st.order);
    st' := Load(st.h, st.depth, p);
  }
}

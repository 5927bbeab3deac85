/** The BN254 scalar field as the trees use it, and the two Poseidon2 arities
    they call.  Nothing is known about the hash functions: every statement about
    a tree is quantified over the `Hasher` it is built with. */
module Field {

  const MODULUS: nat := 21888242871839275222246405745257275088548364400416034343698204186575808495617

  type Fr = x: int | 0 <= x < MODULUS

  const ZERO: Fr := 0
  const ONE: Fr := 1

  /** `poseidon2_hash` of one field element and of two. */
  datatype Hasher = Hasher(one: Fr -> Fr, two: (Fr, Fr) -> Fr)

  /** Evidence that the two-input hash is broken.  The tree lemmas return it from
      functions of the tree and of the offending proof, because over a finite field
      the bare existence of a collision says nothing. */
  datatype Break =
    | Collision(l: Fr, r: Fr, l': Fr, r': Fr)
    | ZeroPreimage(l: Fr, r: Fr)

  predicate Breaks(h: Hasher, b: Break) {
    match b
    case Collision(l, r, l', r') => (l, r) != (l', r') && h.two(l, r) == h.two(l', r')
    case ZeroPreimage(l, r) => h.two(l, r) == ZERO
  }

  /** Two different pairs with one hash. */
  predicate Collides(h: Hasher, b: Break) { b.Collision? && Breaks(h, b) }

  /** The pair a verifier hashes at one level: a zero index puts the running value
      on the left, any other index puts it on the right. */
  function Ordered(cur: Fr, sibling: Fr, index: nat): (Fr, Fr) {
    if index == 0 then (cur, sibling) else (sibling, cur)
  }

  function Step(h: Hasher, cur: Fr, sibling: Fr, index: nat): Fr {
    var (l, r) := Ordered(cur, sibling, index);
    h.two(l, r)
  }

  /** The value both verifiers reach from `leaf` along a path read bottom up. */
  function Fold(h: Hasher, leaf: Fr, path: seq<Fr>, indices: seq<nat>): Fr
    requires |path| == |indices|
  {
    if path == [] then leaf
    else
      var n := |path| - 1;
      Step(h, Fold(h, leaf, path[..n], indices[..n]), path[n], indices[n])
  }

  lemma FoldPrefix(h: Hasher, leaf: Fr, path: seq<Fr>, indices: seq<nat>, n: nat)
    requires |path| == |indices| && n < |path|
    ensures Fold(h, leaf, path[..n + 1], indices[..n + 1]) ==
            Step(h, Fold(h, leaf, path[..n], indices[..n]), path[n], indices[n])
  {
    assert path[..n + 1][..n] == path[..n];
    assert indices[..n + 1][..n] == indices[..n];
  }

  /** A path can also be consumed from the bottom. */
  lemma {:induction false} FoldFromBottom(h: Hasher, leaf: Fr, path: seq<Fr>, indices: seq<nat>)
    requires |path| == |indices| > 0
    ensures Fold(h, leaf, path, indices) ==
            Fold(h, Step(h, leaf, path[0], indices[0]), path[1..], indices[1..])
    decreases |path|
  {
    var n := |path| - 1;
    if n == 0 {
      assert path[..0] == [] && indices[..0] == [];
    } else {
      FoldFromBottom(h, leaf, path[..n], indices[..n]);
      assert path[..n][1..] == path[1..][..n - 1];
      assert indices[..n][1..] == indices[1..][..n - 1];
    }
  }

  /** The loop of both verifiers. */
  method FoldPath(h: Hasher, leaf: Fr, path: seq<Fr>, indices: seq<nat>) returns (cur: Fr)
    requires |path| == |indices|
    ensures cur == Fold(h, leaf, path, indices)
  {
    cur := leaf;
    for i := 0 to |path|
      invariant cur == Fold(h, leaf, path[..i], indices[..i])
    {
      FoldPrefix(h, leaf, path, indices, i);
      var (l, r) := if indices[i] == 0 then (cur, path[i]) else (path[i], cur);
      cur := h.two(l, r);
    }
    assert path[..|path|] == path && indices[..|path|] == indices;
  }

  /** Right shift. */
  function Shr(x: nat, n: nat): nat {
    if n == 0 then x else Shr(x / 2, n - 1)
  }

  lemma {:induction false} ShrAdd(x: nat, m: nat, n: nat)
    ensures Shr(x, m + n) == Shr(Shr(x, m), n)
    decreases m
  {
    if m > 0 {
      ShrAdd(x / 2, m - 1, n);
    }
  }
}

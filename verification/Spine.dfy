/**
 The structural core: digests, the canonicalizing node fold `nary_mr`, the
 grouping fold over a frontier, and the skeleton-pinned inclusion verifier.
 */
module Spine {
  import opened Base

  newtype byte = b: int | 0 <= b < 256
  type Bytes = seq<byte>

  /**
   A digest is a term, so that a hasher may be any function at all (every lemma
   about what honest proofs do holds for any hasher), and so that the free hasher
   below, which never collides, is one of them.
   */
  datatype Digest = HashOf(data: Bytes) | NodeOf(children: seq<Digest>)

  datatype Hasher = Hasher(
    hash: Bytes -> Digest,
    leaf: Bytes -> Digest,
    node: seq<Digest> -> Digest,
    empty: Digest)

  const NULL_PAYLOAD: Bytes := [110, 117, 108, 108]

  /** The null constant: the hash of the four bytes `null`. */
  function Null(h: Hasher): Digest { h.hash(NULL_PAYLOAD) }

  predicate AllSame(ds: seq<Digest>) {
    forall i, j :: 0 <= i < j < |ds| ==> ds[i] == ds[j]
  }

  /** Promotion of a lone child, collapse of equal children, node hash otherwise. */
  function NaryMr(h: Hasher, children: seq<Digest>): Digest {
    if |children| == 0 then h.empty
    else if |children| == 1 || AllSame(children) then children[0]
    else h.node(children)
  }

  function MapSeq<T, U>(xs: seq<T>, f: T -> U): (r: seq<U>)
    ensures |r| == |xs|
    ensures forall i :: 0 <= i < |xs| ==> r[i] == f(xs[i])
  {
    seq(|xs|, i requires 0 <= i < |xs| => f(xs[i]))
  }

  // ------------------------------------------------------------------ grouping fold

  /** Groups the rightmost `k` items until at most `k` are left, then merges those. */
  function Fold<T>(items: seq<T>, k: Arity, merge: seq<T> -> T): T
    requires |items| > 0
    decreases |items|
  {
    if |items| == 1 then items[0]
    else if |items| <= k then merge(items)
    else Fold(items[..|items| - k] + [merge(items[|items| - k..])], k, merge)
  }

  method FoldFrontier<T>(frontier: seq<T>, k: Arity, merge: seq<T> -> T) returns (root: T)
    requires |frontier| > 0
    ensures root == Fold(frontier, k, merge)
  {
    var items := frontier;
    if |items| == 1 {
      return items[0];
    }
    while |items| > k
      invariant |items| >= 2
      invariant Fold(frontier, k, merge) == Fold(items, k, merge)
      decreases |items|
    {
      var split := |items| - k;
      var merged := merge(items[split..]);
      items := items[..split] + [merged];
    }
    root := merge(items);
  }

  ghost predicate Commutes<T(!new), U>(merge: seq<T> -> T, merge': seq<U> -> U, phi: T -> U) {
    forall xs: seq<T> :: |xs| >= 2 ==> phi(merge(xs)) == merge'(MapSeq(xs, phi))
  }

  /** A map that commutes with merging commutes with the fold. */
  lemma {:induction false} FoldMap<T(!new), U>(
      items: seq<T>, k: Arity, merge: seq<T> -> T, merge': seq<U> -> U, phi: T -> U)
    requires |items| > 0 && Commutes(merge, merge', phi)
    ensures phi(Fold(items, k, merge)) == Fold(MapSeq(items, phi), k, merge')
    decreases |items|
  {
    FoldUnfold(items, k, merge);
    FoldUnfold(MapSeq(items, phi), k, merge');
    if |items| > k {
      var head, group := items[..|items| - k], items[|items| - k..];
      assert phi(merge(group)) == merge'(MapSeq(group, phi));
      hide *;
      FoldMap(head + [merge(group)], k, merge, merge', phi);
      MapGroup(items, |items| - k, merge(group), phi);
    }
  }

  lemma FoldUnfold<T>(items: seq<T>, k: Arity, merge: seq<T> -> T)
    requires |items| > 0
    ensures Fold(items, k, merge) ==
              if |items| == 1 then items[0]
              else if |items| <= k then merge(items)
              else Fold(items[..|items| - k] + [merge(items[|items| - k..])], k, merge)
  {
  }

  lemma MapGroup<T, U>(items: seq<T>, split: nat, merged: T, phi: T -> U)
    requires split <= |items|
    ensures MapSeq(items[..split] + [merged], phi) == MapSeq(items, phi)[..split] + [phi(merged)]
    ensures MapSeq(items[split..], phi) == MapSeq(items, phi)[split..]
  {
  }

  // ------------------------------------------------------------------ proofs

  datatype SkeletonStep = SkeletonStep(position: nat, siblingCount: nat)

  datatype ProofStep = ProofStep(siblings: seq<Digest>, position: nat) {
    function Shape(): SkeletonStep { SkeletonStep(position, |siblings|) }
  }

  function StepShapes(path: seq<ProofStep>): (r: seq<SkeletonStep>)
    ensures |r| == |path|
    ensures forall i :: 0 <= i < |path| ==> r[i] == path[i].Shape()
  {
    seq(|path|, i requires 0 <= i < |path| => path[i].Shape())
  }

  function Insert(siblings: seq<Digest>, position: nat, d: Digest): (r: seq<Digest>)
    requires position <= |siblings|
    ensures |r| == |siblings| + 1 && r[position] == d
  {
    siblings[..position] + [d] + siblings[position..]
  }

  function Remove(ds: seq<Digest>, position: nat): (r: seq<Digest>)
    requires position < |ds|
    ensures |r| == |ds| - 1
  {
    ds[..position] + ds[position + 1..]
  }

  lemma InsertRemove(ds: seq<Digest>, p: nat)
    requires p < |ds|
    ensures Insert(Remove(ds, p), p, ds[p]) == ds
  {
  }

  /** A step a verifier folds: it hashes, its position is in range, its width is bounded. */
  predicate Admissible(s: ProofStep) {
    0 < |s.siblings| <= 256 && s.position <= |s.siblings|
  }

  function Parent(h: Hasher, d: Digest, s: ProofStep): Digest
    requires s.position <= |s.siblings|
  {
    NaryMr(h, Insert(s.siblings, s.position, d))
  }

  predicate AllAdmissible(path: seq<ProofStep>) {
    forall i :: 0 <= i < |path| ==> Admissible(path[i])
  }

  /** The digest a path leads to, from the leaf up. */
  function Climb(h: Hasher, d: Digest, path: seq<ProofStep>): Digest
    requires AllAdmissible(path)
    decreases |path|
  {
    if path == [] then d else Climb(h, Parent(h, d, path[0]), path[1..])
  }

  lemma {:induction false} ClimbConcat(h: Hasher, d: Digest, a: seq<ProofStep>, b: seq<ProofStep>)
    requires AllAdmissible(a) && AllAdmissible(b)
    ensures AllAdmissible(a + b)
    ensures Climb(h, d, a + b) == Climb(h, Climb(h, d, a), b)
    decreases |a|
  {
    if a == [] {
      assert a + b == b;
    } else {
      ClimbConcat(h, Parent(h, d, a[0]), a[1..], b);
      assert (a + b)[1..] == a[1..] + b;
    }
  }

  /** The trailing steps of the path have exactly the shape the skeleton demands. */
  predicate PathStructure(skeleton: seq<SkeletonStep>, path: seq<ProofStep>) {
    |path| >= |skeleton| && StepShapes(path[|path| - |skeleton|..]) == skeleton
  }

  function ReconstructRoot(
      h: Hasher, leaf: Digest, skeleton: seq<SkeletonStep>, path: seq<ProofStep>): Option<Digest>
  {
    if |path| <= 256 && PathStructure(skeleton, path) && AllAdmissible(path)
    then Some(Climb(h, leaf, path)) else None
  }

  lemma ClimbOne(h: Hasher, d: Digest, s: ProofStep)
    requires Admissible(s)
    ensures Climb(h, d, []) == d && Climb(h, d, [s]) == Parent(h, d, s)
  {
    assert [s][1..] == [];
  }

  /** The inner loop: the sibling list with the current digest put in its place. */
  method InsertCurrent(siblings: seq<Digest>, position: nat, current: Digest) returns (children: seq<Digest>)
    requires position <= |siblings|
    ensures children == Insert(siblings, position, current)
  {
    children := [];
    for i := 0 to |siblings|
      invariant children == if i <= position then siblings[..i] else Insert(siblings, position, current)[..i + 1]
    {
      if i == position {
        children := children + [current];
      }
      children := children + [siblings[i]];
    }
    if position == |siblings| {
      children := children + [current];
    }
  }

  /** The loop form of the verifier's reconstruction. */
  method ReconstructInclusionRoot(
      h: Hasher, leafHash: Digest, skeleton: seq<SkeletonStep>, path: seq<ProofStep>)
    returns (root: Option<Digest>)
    ensures root == ReconstructRoot(h, leafHash, skeleton, path)
  {
    if |path| > 256 || !PathStructure(skeleton, path) {
      return None;
    }
    var current := leafHash;
    hide Climb, Insert, NaryMr;
    ClimbOne(h, leafHash, ProofStep([leafHash], 0));
    for n := 0 to |path|
      invariant AllAdmissible(path[..n])
      invariant current == Climb(h, leafHash, path[..n])
    {
      var step := path[n];
      if |step.siblings| > 256 || step.siblings == [] || step.position > |step.siblings| {
        return None;
      }
      var children := InsertCurrent(step.siblings, step.position, current);
      assert path[..n + 1] == path[..n] + [step];
      ClimbConcat(h, leafHash, path[..n], [step]);
      ClimbOne(h, current, step);
      current := NaryMr(h, children);
    }
    assert path[..|path|] == path;
    root := Some(current);
  }

  predicate VerifyInclusion(
      h: Hasher, leafHash: Digest, skeleton: seq<SkeletonStep>, path: seq<ProofStep>, root: Digest)
  {
    ReconstructRoot(h, leafHash, skeleton, path) == Some(root)
  }
}

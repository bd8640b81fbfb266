/**
 What an accepted proof proves, for a hasher without collisions.  Equal children
 collapse to their value, so an accepted proof is the honest one exactly when it
 collapses where the honest one does.
 */
module Soundness {
  import opened Base
  import opened Topology
  import opened Spine
  import opened Shapes
  import opened Mountain
  import opened Blocks
  import opened Consistency

  /** The node hash has no collisions. */
  ghost predicate CollisionFree(h: Hasher) {
    forall a: seq<Digest>, b: seq<Digest> ::
      |a| >= 2 && |b| >= 2 && h.node(a) == h.node(b) ==> a == b
  }

  /** No node hash is one of its own children. */
  ghost predicate NoFixpoint(h: Hasher) {
    forall a: seq<Digest> :: |a| >= 2 ==> h.node(a) !in a
  }

  function FreeNode(ds: seq<Digest>): Digest { NodeOf(ds) }
  function FreeHash(d: Bytes): Digest { HashOf(d) }

  const FreeHasher: Hasher := Hasher(FreeHash, FreeHash, FreeNode, HashOf([]))

  /** The free hasher meets both hypotheses, so they are consistent. */
  lemma FreeHasherIsSound()
    ensures CollisionFree(FreeHasher) && NoFixpoint(FreeHasher)
  {
    forall a: seq<Digest>, b: seq<Digest> | FreeHasher.node(a) == FreeHasher.node(b)
      ensures a == b
    {
      assert NodeOf(a) == NodeOf(b);
    }
    forall a: seq<Digest>
      ensures FreeHasher.node(a) !in a
    {
      forall j | 0 <= j < |a|
        ensures a[j] != NodeOf(a)
      {
        assert a[j] < NodeOf(a);
      }
    }
  }

  lemma NaryMrInjective(h: Hasher, a: seq<Digest>, b: seq<Digest>)
    requires CollisionFree(h) && |a| >= 2 && |b| >= 2
    requires NaryMr(h, a) == NaryMr(h, b) && AllSame(a) == AllSame(b)
    requires AllSame(a) ==> |a| == |b|
    ensures a == b
  {
    if AllSame(a) {
      forall i | 0 <= i < |a|
        ensures a[i] == b[i]
      {
        assert a[i] == a[0] && b[i] == b[0];
      }
    }
  }

  /** The same child list comes from the same digest and siblings at a position. */
  lemma InsertInjective(s: seq<Digest>, t: seq<Digest>, p: nat, d: Digest, e: Digest)
    requires p <= |s| && p <= |t| && Insert(s, p, d) == Insert(t, p, e)
    ensures s == t && d == e
  {
    var a := Insert(s, p, d);
    assert |s| == |t|;
    assert s == Remove(a, p) == t;
  }

  // ------------------------------------------------------------------ climbs

  /** Two climbs collapse at the same steps. */
  ghost predicate SameClimb(h: Hasher, d: Digest, p: seq<ProofStep>, e: Digest, q: seq<ProofStep>)
    requires AllAdmissible(p) && AllAdmissible(q) && |p| == |q|
    decreases |p|
  {
    p == [] ||
    (AllSame(Insert(p[0].siblings, p[0].position, d)) == AllSame(Insert(q[0].siblings, q[0].position, e)) &&
     SameClimb(h, Parent(h, d, p[0]), p[1..], Parent(h, e, q[0]), q[1..]))
  }

  /** A climb's root determines the digest it starts from and all its siblings. */
  lemma {:induction false} ClimbInjective(h: Hasher, d: Digest, p: seq<ProofStep>, e: Digest, q: seq<ProofStep>)
    requires CollisionFree(h) && AllAdmissible(p) && AllAdmissible(q)
    requires StepShapes(p) == StepShapes(q) && |p| == |q| && SameClimb(h, d, p, e, q)
    requires Climb(h, d, p) == Climb(h, e, q)
    ensures d == e && p == q
    decreases |p|
  {
    hide NaryMr, CollisionFree, AllSame;
    if p != [] {
      assert forall i :: 0 <= i < |p| ==> StepShapes(p)[i] == StepShapes(q)[i];
      assert p[0].Shape() == q[0].Shape();
      assert StepShapes(p[1..]) == StepShapes(p)[1..] && StepShapes(q[1..]) == StepShapes(q)[1..];
      ClimbInjective(h, Parent(h, d, p[0]), p[1..], Parent(h, e, q[0]), q[1..]);
      NaryMrInjective(h, Insert(p[0].siblings, p[0].position, d), Insert(q[0].siblings, q[0].position, e));
      InsertInjective(p[0].siblings, q[0].siblings, p[0].position, d, e);
      assert p == [p[0]] + p[1..] && q == [q[0]] + q[1..];
    }
  }

  // ------------------------------------------------------------------ bags

  /** Two evaluations of a shape collapse at the same nodes. */
  ghost predicate SameBag(h: Hasher, a: seq<Digest>, b: seq<Digest>, s: Shape) {
    s.Inner? ==>
      AllSame(EvalAll(h, a, s.children)) == AllSame(EvalAll(h, b, s.children)) &&
      forall c :: c in s.children ==> SameBag(h, a, b, c)
  }

  lemma {:induction false} BagInjective(h: Hasher, a: seq<Digest>, b: seq<Digest>, s: Shape, i: nat)
    requires CollisionFree(h) && Hashing(s) && SameBag(h, a, b, s) && Holds(s, i)
    requires Eval(h, a, s) == Eval(h, b, s)
    ensures At(a, i) == At(b, i)
    decreases s
  {
    hide NaryMr, CollisionFree, AllSame;
    if s.Inner? {
      var cs := s.children;
      var j := Branch(cs, i);
      assert cs[j] in cs;
      NaryMrInjective(h, EvalAll(h, a, cs), EvalAll(h, b, cs));
      assert EvalAll(h, a, cs)[j] == EvalAll(h, b, cs)[j];
      BagInjective(h, a, b, cs[j], i);
    }
  }

  /** Equal bags, collapsing alike, come from equal peaks. */
  lemma PeaksInjective(h: Hasher, k: Arity, a: seq<Digest>, b: seq<Digest>)
    requires CollisionFree(h) && |a| == |b| > 0
    requires SameBag(h, a, b, BagShape(k, |a|)) && BagPeaks(h, a, k) == BagPeaks(h, b, k)
    ensures a == b
  {
    hide CollisionFree, SameBag, BagShape, Eval, Holds;
    forall i | 0 <= i < |a|
      ensures a[i] == b[i]
    {
      BagHolds(k, |a|, i);
      BagInjective(h, a, b, BagShape(k, |a|), i);
    }
  }

  // ------------------------------------------------------------------ soundness

  /** The claimed proof collapses at the nodes where the honest one does. */
  ghost predicate CollapsesAlike(h: Hasher, k: Arity, cells: seq<Digest>, m: nat, n: nat, p: ConsistencyProof)
    requires 0 < m < n
  {
    var honest := HonestProof(h, k, cells, m, n);
    && |p.newPeaks| == |honest.newPeaks| > 0
    && |p.peakPath| == |honest.peakPath| && AllAdmissible(p.peakPath) && AllAdmissible(honest.peakPath)
    && SameBag(h, p.newPeaks, honest.newPeaks, BagShape(k, |p.newPeaks|))
    && SameClimb(h, p.boundaryHash, p.peakPath, honest.boundaryHash, honest.peakPath)
  }

  lemma {:induction false} SameClimbRefl(h: Hasher, d: Digest, p: seq<ProofStep>)
    requires AllAdmissible(p)
    ensures SameClimb(h, d, p, d, p)
    decreases |p|
  {
    if p != [] {
      SameClimbRefl(h, Parent(h, d, p[0]), p[1..]);
    }
  }

  lemma {:induction false} SameBagRefl(h: Hasher, a: seq<Digest>, s: Shape)
    ensures SameBag(h, a, a, s)
    decreases s
  {
    if s.Inner? {
      forall c | c in s.children
        ensures SameBag(h, a, a, c)
      {
        SameBagRefl(h, a, c);
      }
    }
  }

  /**
   Soundness of consistency: a proof accepted against the genuine new root is the
   honest proof, so its old root is the genuine one, exactly when it collapses alike.
   */
  lemma ConsistencySound(
      h: Hasher, k: Arity, cells: seq<Digest>, m: nat, n: nat, p: ConsistencyProof, oldRoot: Digest)
    requires CollisionFree(h) && 0 < m < n <= U64_MAX
    requires VerifyConsistency(h, m, n, k, p, oldRoot, MemberRoot(h, k, cells, n))
    ensures p == HonestProof(h, k, cells, m, n) <==> CollapsesAlike(h, k, cells, m, n, p)
    ensures CollapsesAlike(h, k, cells, m, n, p) ==> oldRoot == MemberRoot(h, k, cells, m)
  {
    hide CollisionFree, Frontier, BagPeaks, Climb, SameBag, SameClimb, Block, PathStep, AllAdmissible, MountainOf,
         BagShape;
    ConsistencyComplete(h, k, cells, m, n);
    var honest := HonestProof(h, k, cells, m, n);
    AcceptedShape(h, k, m, n, p);
    AcceptedShape(h, k, m, n, honest);
    FrontierTiles(k, n);
    if CollapsesAlike(h, k, cells, m, n, p) {
      PeaksInjective(h, k, p.newPeaks, honest.newPeaks);
      ClimbInjective(h, p.boundaryHash, p.peakPath, honest.boundaryHash, honest.peakPath);
    } else if p == honest {
      SameBagRefl(h, p.newPeaks, BagShape(k, |p.newPeaks|));
      SameClimbRefl(h, p.boundaryHash, p.peakPath);
    }
  }

  /** What acceptance fixes about a consistency proof's shape. */
  lemma AcceptedShape(h: Hasher, k: Arity, m: nat, n: nat, p: ConsistencyProof)
    requires 0 < m < n && ReconstructRoots(h, m, n, k, p).Some?
    ensures |p.newPeaks| == |Frontier(k, n)| > p.splitIndex
    ensures ClimbSkeleton(k, m, n, p.splitIndex) == Some(StepShapes(p.peakPath))
    ensures p.splitIndex == MountainOf(k, n, Last(k, m).left)
    ensures AllAdmissible(p.peakPath)
    ensures Climb(h, p.boundaryHash, p.peakPath) == p.newPeaks[p.splitIndex]
  {
    hide Frontier, BagPeaks, Climb, MountainOf;
    assert p.peakPath[0..] == p.peakPath;
  }

  function Copies(d: Digest, count: nat): (r: seq<Digest>)
    ensures |r| == count
    ensures forall i :: 0 <= i < count ==> r[i] == d
  {
    seq(count, _ => d)
  }

  /** A proof whose every digest is `d`: one climb step, one peak. */
  function UniformProof(d: Digest, k: Arity): ConsistencyProof {
    ConsistencyProof(d, [ProofStep(Copies(d, k - 1), 0)], [d], 0)
  }

  /** Every node of a uniform proof collapses, so it claims its digest as both roots. */
  lemma UniformAccepted(h: Hasher, k: Arity, d: Digest)
    ensures VerifyConsistency(h, 1, k, k, UniformProof(d, k), d, d)
  {
    SmallFrontiers(k);
    UniformClimbs(h, k, d);
    UniformPeaks(d, k);
    BagOfOne(h, k, d);
    hide *;
    UniformSteps(h, k, d);
  }

  /** What the verifier derives from sizes 1 and `k`, and that a one-step climb with that shape is enough. */
  lemma UniformSteps(h: Hasher, k: Arity, d: Digest)
    requires Frontier(k, 1) == [Coord(0, 0)] && Frontier(k, k) == [Coord(0, 1)]
    requires Last(k, 1) == Coord(0, 0) && MountainOf(k, k, 0) == 0 && HeightOf(k, k, 0) == 1 && Digit(k, 0, 0) == 0
    requires ReconstructRoot(h, d, [SkeletonStep(0, k - 1)], UniformProof(d, k).peakPath) == Some(d)
    requires OldPeaks(UniformProof(d, k)) == [d] && BagPeaks(h, [d], k) == d
    ensures VerifyConsistency(h, 1, k, k, UniformProof(d, k), d, d)
  {
    hide Frontier, Last, MountainOf, HeightOf, Digit, ReconstructRoot, OldPeaks, BagPeaks, Copies;
    assert DigitSteps(k, 0, 0, 1) == [SkeletonStep(0, k - 1)];
  }

  lemma UniformClimbs(h: Hasher, k: Arity, d: Digest)
    ensures ReconstructRoot(h, d, [SkeletonStep(0, k - 1)], UniformProof(d, k).peakPath) == Some(d)
  {
    UniformParent(h, k, d);
    ReconstructOne(h, d, ProofStep(Copies(d, k - 1), 0));
    hide *;
    UniformPath(d, k);
  }

  lemma UniformPath(d: Digest, k: Arity)
    ensures var s := ProofStep(Copies(d, k - 1), 0);
            Admissible(s) && s.Shape() == SkeletonStep(0, k - 1) && UniformProof(d, k).peakPath == [s]
  {
  }

  lemma ReconstructOne(h: Hasher, d: Digest, s: ProofStep)
    requires Admissible(s)
    ensures ReconstructRoot(h, d, [s.Shape()], [s]) == Some(Parent(h, d, s))
  {
    ClimbOne(h, d, s);
    hide Parent, Climb;
    assert [s][0..] == [s] && StepShapes([s]) == [s.Shape()];
  }

  lemma UniformParent(h: Hasher, k: Arity, d: Digest)
    ensures Parent(h, d, ProofStep(Copies(d, k - 1), 0)) == d
  {
    var ds := Insert(Copies(d, k - 1), 0, d);
    assert |ds| == k && ds[0] == d && AllSame(ds);
  }

  lemma UniformPeaks(d: Digest, k: Arity)
    ensures OldPeaks(UniformProof(d, k)) == [d]
  {
    var s := ProofStep(Copies(d, k - 1), 0);
    assert [s][1..] == [] && LeftOfStep(s) == [];
    assert LeftOf([s]) == LeftOf([]) + [];
  }

  lemma SmallRoots(h: Hasher, k: Arity, cells: seq<Digest>)
    ensures MemberRoot(h, k, cells, 1) == At(cells, 0)
    ensures |cells| >= k ==> MemberRoot(h, k, cells, k) == NaryMr(h, cells[..k])
  {
    SmallFrontiers(k);
    hide Frontier, Block, NaryMr;
    BagOfOne(h, k, At(cells, 0));
    BagOfOne(h, k, Block(h, k, cells, Coord(0, 1)));
    BlockLeaf(h, k, cells, 0);
    assert Peaks(h, k, cells, 1) == [At(cells, 0)];
    assert Peaks(h, k, cells, k) == [Block(h, k, cells, Coord(0, 1))];
    if |cells| >= k {
      BlockUnfold(h, k, cells, Coord(0, 1));
      LeafChildren(k, 0);
      forall j | 0 <= j < k
        ensures BlockAll(h, k, cells, Leaves(0, k))[j] == cells[..k][j]
      {
        BlockLeaf(h, k, cells, j);
      }
      assert BlockAll(h, k, cells, Leaves(0, k)) == cells[..k];
    }
  }

  /**
   The condition is needed.  Over the first `k` cells a climb whose digests are all the
   new root collapses to it, so the new root is accepted in the place of the old one,
   which is cell 0 and differs from it as soon as the cells are not all equal.
   */
  lemma CollapseForgesOldRoot(h: Hasher, k: Arity, cells: seq<Digest>)
    ensures var root := MemberRoot(h, k, cells, k);
            VerifyConsistency(h, 1, k, k, UniformProof(root, k), root, root)
    ensures MemberRoot(h, k, cells, 1) == At(cells, 0)
    ensures NoFixpoint(h) && |cells| >= k && !AllSame(cells[..k]) ==>
              MemberRoot(h, k, cells, k) != MemberRoot(h, k, cells, 1)
  {
    UniformAccepted(h, k, MemberRoot(h, k, cells, k));
    SmallRoots(h, k, cells);
    hide MemberRoot, VerifyConsistency;
    if NoFixpoint(h) && |cells| >= k && !AllSame(cells[..k]) {
      NodeIsFresh(h, cells[..k], 0);
    }
  }

  /** No node of a bag's evaluation collapses. */
  ghost predicate NoCollapseBag(h: Hasher, peaks: seq<Digest>, s: Shape) {
    s.Inner? ==> !AllSame(EvalAll(h, peaks, s.children)) && forall c :: c in s.children ==> NoCollapseBag(h, peaks, c)
  }

  ghost predicate NoCollapseIn(h: Hasher, k: Arity, p: ConsistencyProof) {
    && AllAdmissible(p.peakPath) && NoCollapse(h, p.boundaryHash, p.peakPath)
    && |p.newPeaks| > 0 && NoCollapseBag(h, p.newPeaks, BagShape(k, |p.newPeaks|))
  }

  lemma {:induction false} BothPlainClimb(h: Hasher, d: Digest, p: seq<ProofStep>, e: Digest, q: seq<ProofStep>)
    requires AllAdmissible(p) && AllAdmissible(q) && |p| == |q| && NoCollapse(h, d, p) && NoCollapse(h, e, q)
    ensures SameClimb(h, d, p, e, q)
    decreases |p|
  {
    if p != [] {
      BothPlainClimb(h, Parent(h, d, p[0]), p[1..], Parent(h, e, q[0]), q[1..]);
    }
  }

  lemma {:induction false} BothPlainBag(h: Hasher, a: seq<Digest>, b: seq<Digest>, s: Shape)
    requires NoCollapseBag(h, a, s) && NoCollapseBag(h, b, s)
    ensures SameBag(h, a, b, s)
    decreases s
  {
    if s.Inner? {
      forall c | c in s.children
        ensures SameBag(h, a, b, c)
      {
        BothPlainBag(h, a, b, c);
      }
    }
  }

  /**
   Where no node collapses, neither in what the proof evaluates nor in what the log
   does, an accepted proof is the honest one and its old root genuine.
   */
  lemma PlainConsistencySound(
      h: Hasher, k: Arity, cells: seq<Digest>, m: nat, n: nat, p: ConsistencyProof, oldRoot: Digest)
    requires CollisionFree(h) && 0 < m < n <= U64_MAX
    requires VerifyConsistency(h, m, n, k, p, oldRoot, MemberRoot(h, k, cells, n))
    requires NoCollapseIn(h, k, p) && NoCollapseIn(h, k, HonestProof(h, k, cells, m, n))
    ensures p == HonestProof(h, k, cells, m, n) && oldRoot == MemberRoot(h, k, cells, m)
  {
    hide CollisionFree, Frontier, BagPeaks, Climb, SameBag, SameClimb, NoCollapse, NoCollapseBag, Block, PathStep,
         AllAdmissible, MountainOf, BagShape;
    ConsistencyComplete(h, k, cells, m, n);
    var honest := HonestProof(h, k, cells, m, n);
    AcceptedShape(h, k, m, n, p);
    AcceptedShape(h, k, m, n, honest);
    BothPlainClimb(h, p.boundaryHash, p.peakPath, honest.boundaryHash, honest.peakPath);
    BothPlainBag(h, p.newPeaks, honest.newPeaks, BagShape(k, |p.newPeaks|));
    ConsistencySound(h, k, cells, m, n, p, oldRoot);
  }

  /**
   Whatever collapses on the way, the old root claimed is the bag of the old peaks the proof
   implies; where that bag collapses as the genuine one does, it is genuine exactly if the
   peaks are.
   */
  lemma OldRootByPeaks(
      h: Hasher, k: Arity, cells: seq<Digest>, m: nat, n: nat, p: ConsistencyProof, oldRoot: Digest, newRoot: Digest)
    requires CollisionFree(h) && 0 < m < n <= U64_MAX && VerifyConsistency(h, m, n, k, p, oldRoot, newRoot)
    ensures p.splitIndex <= |p.newPeaks| && |OldPeaks(p)| == |Peaks(h, k, cells, m)| > 0
    ensures SameBag(h, OldPeaks(p), Peaks(h, k, cells, m), BagShape(k, |OldPeaks(p)|)) ==>
              (oldRoot == MemberRoot(h, k, cells, m) <==> OldPeaks(p) == Peaks(h, k, cells, m))
  {
    hide CollisionFree, Frontier, BagPeaks, Climb, SameBag, Block, PathStep, AllAdmissible, MountainOf, BagShape;
    ConsistencyComplete(h, k, cells, m, n);
    var honest := HonestProof(h, k, cells, m, n);
    AcceptedShape(h, k, m, n, p);
    AcceptedShape(h, k, m, n, honest);
    SameLefts(p.peakPath, honest.peakPath);
    if SameBag(h, OldPeaks(p), Peaks(h, k, cells, m), BagShape(k, |OldPeaks(p)|)) &&
       oldRoot == MemberRoot(h, k, cells, m) {
      PeaksInjective(h, k, OldPeaks(p), Peaks(h, k, cells, m));
    }
  }

  /** Paths of the same shapes have as many left siblings. */
  lemma {:induction false} SameLefts(p: seq<ProofStep>, q: seq<ProofStep>)
    requires StepShapes(p) == StepShapes(q)
    ensures |LeftOf(p)| == |LeftOf(q)|
    decreases |p|
  {
    assert |p| == |StepShapes(p)| == |q|;
    if p != [] {
      assert StepShapes(p)[0] == StepShapes(q)[0] && p[0].Shape() == q[0].Shape();
      assert StepShapes(p[1..]) == StepShapes(p)[1..] && StepShapes(q[1..]) == StepShapes(q)[1..];
      SameLefts(p[1..], q[1..]);
    }
  }

  // ------------------------------------------------------------------ a genuine old root without agreement

  /** The first `k` blocks of one step up, and a proof that climbs them first and then stays where it is. */
  function TopDigests(h: Hasher, k: Arity, cells: seq<Digest>): (r: seq<Digest>)
    ensures |r| == k
  {
    BlockAll(h, k, cells, Children(k, Coord(0, 2)))
  }

  function EarlyProof(h: Hasher, k: Arity, cells: seq<Digest>): ConsistencyProof {
    var root := Block(h, k, cells, Coord(0, 2));
    ConsistencyProof(At(cells, 0), [ProofStep(TopDigests(h, k, cells)[1..], 0), ProofStep(Copies(root, k - 1), 0)],
      [root], 0)
  }

  /**
   Agreement is not needed for the old root.  Over `k * k` cells whose first `k` are
   equal, the honest climb collapses at its first step; one that does not, and collapses
   at its second instead, is accepted too, and claims the genuine old root.
   */
  lemma OldRootWithoutAgreement(h: Hasher, k: Arity, cells: seq<Digest>)
    requires forall i :: 0 <= i < k ==> At(cells, i) == At(cells, 0)
    ensures var n, p := Times(k, k), EarlyProof(h, k, cells);
            1 < n && VerifyConsistency(h, 1, n, k, p, MemberRoot(h, k, cells, 1), MemberRoot(h, k, cells, n)) &&
            (!AllSame(TopDigests(h, k, cells)) ==> !CollapsesAlike(h, k, cells, 1, n, p))
  {
    SquareFrontier(k);
    SmallFrontiers(k);
    SmallRoots(h, k, cells);
    EarlyClimbs(h, k, cells);
    EarlyOldPeaks(h, k, cells);
    HonestCollapses(h, k, cells);
    SquareRoot(h, k, cells);
    BagOfOne(h, k, Block(h, k, cells, Coord(0, 2)));
    BagOfOne(h, k, At(cells, 0));
    hide *;
    EarlyAccepted(h, k, cells);
    if CollapsesAlike(h, k, cells, 1, Times(k, k), EarlyProof(h, k, cells)) {
      FirstStepsAlike(h, k, cells, 1, Times(k, k), EarlyProof(h, k, cells));
    }
  }

  /** The frontier of `k * k` leaves, and where leaf 0 is in it. */
  lemma SquareFrontier(k: Arity)
    ensures Times(k, k) > 1 && Frontier(k, Times(k, k)) == [Coord(0, 2)]
    ensures MountainOf(k, Times(k, k), 0) == 0 && HeightOf(k, Times(k, k), 0) == 2
    ensures Digit(k, 0, 0) == 0 && Digit(k, 0, 1) == 0
  {
    hide Times, Quot, MountainOf, Frontier;
    SmallFrontiers(k);
    FrontierAt(k, Times(k, k), k, 0);
    assert UpAll(k, Frontier(k, k)) == [Coord(0, 2)];
    TimesGap(k, 1, k);
    PowSucc(k, 1);
    QuotUnique(k, 0, 0);
    MountainUnique(k, Times(k, k), 0, 0);
  }

  lemma SquareRoot(h: Hasher, k: Arity, cells: seq<Digest>)
    ensures MemberRoot(h, k, cells, Times(k, k)) == Block(h, k, cells, Coord(0, 2))
  {
    SquareFrontier(k);
    hide Block, Frontier, Times;
    BagOfOne(h, k, Block(h, k, cells, Coord(0, 2)));
    assert Peaks(h, k, cells, Times(k, k)) == [Block(h, k, cells, Coord(0, 2))];
  }

  lemma EarlyClimbs(h: Hasher, k: Arity, cells: seq<Digest>)
    requires forall i :: 0 <= i < k ==> At(cells, i) == At(cells, 0)
    ensures var p := EarlyProof(h, k, cells);
            ReconstructRoot(h, p.boundaryHash, [SkeletonStep(0, k - 1), SkeletonStep(0, k - 1)], p.peakPath)
              == Some(Block(h, k, cells, Coord(0, 2)))
    ensures Insert(TopDigests(h, k, cells)[1..], 0, At(cells, 0)) == TopDigests(h, k, cells)
  {
    var root, tops := Block(h, k, cells, Coord(0, 2)), TopDigests(h, k, cells);
    hide *;
    EarlyParts(h, k, cells);
    FirstBlock(h, k, cells);
    BlockUnfold(h, k, cells, Coord(0, 2));
    UniformParent(h, k, root);
    InsertFirst(tops, At(cells, 0));
    TwoSteps(h, tops, Copies(root, k - 1), At(cells, 0));
  }

  lemma InsertFirst(ds: seq<Digest>, d: Digest)
    requires |ds| > 0 && ds[0] == d
    ensures Insert(ds[1..], 0, d) == ds
  {
  }

  lemma TwoSteps(h: Hasher, tops: seq<Digest>, copies: seq<Digest>, d: Digest)
    requires 2 <= |tops| <= 256 && |copies| == |tops| - 1 && Insert(tops[1..], 0, d) == tops
    requires Parent(h, NaryMr(h, tops), ProofStep(copies, 0)) == NaryMr(h, tops)
    ensures var s := SkeletonStep(0, |tops| - 1);
            ReconstructRoot(h, d, [s, s], [ProofStep(tops[1..], 0), ProofStep(copies, 0)]) == Some(NaryMr(h, tops))
  {
    hide NaryMr, ReconstructRoot;
    ReconstructTwo(h, d, ProofStep(tops[1..], 0), ProofStep(copies, 0));
  }

  lemma EarlyParts(h: Hasher, k: Arity, cells: seq<Digest>)
    ensures var root, tops, p := Block(h, k, cells, Coord(0, 2)), TopDigests(h, k, cells), EarlyProof(h, k, cells);
            |tops| == k && |Copies(root, k - 1)| == k - 1 && tops == BlockAll(h, k, cells, Children(k, Coord(0, 2))) &&
            p.boundaryHash == At(cells, 0) && p.peakPath == [ProofStep(tops[1..], 0), ProofStep(Copies(root, k - 1), 0)]
  {
    hide Block, BlockAll, Children;
  }

  lemma FirstBlock(h: Hasher, k: Arity, cells: seq<Digest>)
    requires forall i :: 0 <= i < k ==> At(cells, i) == At(cells, 0)
    ensures TopDigests(h, k, cells)[0] == At(cells, 0) && Child(k, Coord(0, 2), 0) == Coord(0, 1)
  {
    PowSucc(k, 0);
    hide Block;
    BlockConstant(h, k, cells, Coord(0, 1), At(cells, 0));
  }

  lemma ReconstructTwo(h: Hasher, d: Digest, s: ProofStep, t: ProofStep)
    requires Admissible(s) && Admissible(t)
    ensures ReconstructRoot(h, d, [s.Shape(), t.Shape()], [s, t]) == Some(Parent(h, Parent(h, d, s), t))
  {
    ClimbOne(h, Parent(h, d, s), t);
    assert [s, t][1..] == [t];
    assert Climb(h, d, [s, t]) == Climb(h, Parent(h, d, s), [t]);
    hide Parent, Climb;
    assert [s, t][0..] == [s, t] && StepShapes([s, t]) == [s.Shape(), t.Shape()];
  }

  lemma EarlyOldPeaks(h: Hasher, k: Arity, cells: seq<Digest>)
    ensures OldPeaks(EarlyProof(h, k, cells)) == [At(cells, 0)]
  {
    hide Block, Copies;
    var path := EarlyProof(h, k, cells).peakPath;
    assert LeftOfStep(path[0]) == [] && LeftOfStep(path[1]) == [];
    assert path[1..] == [path[1]] && path[1..][1..] == [];
    assert LeftOf(path[1..]) == LeftOf([]) + [];
    assert LeftOf(path) == LeftOf(path[1..]) + [];
  }

  /** What the verifier derives from sizes 1 and `k * k`, and that a two-step climb with those shapes is enough. */
  lemma EarlyAccepted(h: Hasher, k: Arity, cells: seq<Digest>)
    requires Frontier(k, 1) == [Coord(0, 0)] && Frontier(k, Times(k, k)) == [Coord(0, 2)] && Times(k, k) > 1
    requires Last(k, 1) == Coord(0, 0) && MountainOf(k, Times(k, k), 0) == 0 && HeightOf(k, Times(k, k), 0) == 2
    requires Digit(k, 0, 0) == 0 && Digit(k, 0, 1) == 0
    requires var p := EarlyProof(h, k, cells);
             ReconstructRoot(h, p.boundaryHash, [SkeletonStep(0, k - 1), SkeletonStep(0, k - 1)], p.peakPath)
               == Some(Block(h, k, cells, Coord(0, 2))) &&
             OldPeaks(p) == [At(cells, 0)] && BagPeaks(h, [At(cells, 0)], k) == At(cells, 0)
    requires MemberRoot(h, k, cells, 1) == At(cells, 0)
    requires MemberRoot(h, k, cells, Times(k, k)) == Block(h, k, cells, Coord(0, 2))
           == BagPeaks(h, [Block(h, k, cells, Coord(0, 2))], k)
    ensures VerifyConsistency(h, 1, Times(k, k), k, EarlyProof(h, k, cells),
                              MemberRoot(h, k, cells, 1), MemberRoot(h, k, cells, Times(k, k)))
  {
    hide Frontier, Last, MountainOf, HeightOf, Digit, ReconstructRoot, OldPeaks, BagPeaks, Copies, Block, MemberRoot,
         Times, TopDigests;
    assert DigitSteps(k, 0, 0, 2) == [SkeletonStep(0, k - 1), SkeletonStep(0, k - 1)];
  }

  /** The honest first step over equal cells collapses. */
  lemma HonestCollapses(h: Hasher, k: Arity, cells: seq<Digest>)
    requires forall i :: 0 <= i < k ==> At(cells, i) == At(cells, 0)
    ensures Times(k, k) > 1
    ensures var p := HonestProof(h, k, cells, 1, Times(k, k));
            p.boundaryHash == At(cells, 0) && |p.peakPath| == 2 && p.peakPath[0].position <= |p.peakPath[0].siblings| &&
            AllSame(Insert(p.peakPath[0].siblings, p.peakPath[0].position, p.boundaryHash))
  {
    SquareFrontier(k);
    SmallFrontiers(k);
    BlockLeaf(h, k, cells, 0);
    LeafBlocks(h, k, cells);
    hide Frontier, Last, MountainOf, HeightOf, Digit, Block, Times, Anc, Children, AllSame;
    var ds := BlockAll(h, k, cells, Children(k, Anc(k, 0, 1)));
    assert Insert(Remove(ds, 0), 0, ds[0]) == ds;
  }

  lemma LeafBlocks(h: Hasher, k: Arity, cells: seq<Digest>)
    requires forall i :: 0 <= i < k ==> At(cells, i) == At(cells, 0)
    ensures var ds := BlockAll(h, k, cells, Children(k, Anc(k, 0, 1))); ds[0] == At(cells, 0) && AllSame(ds)
  {
    QuotUnique(k, 0, 0);
    assert Anc(k, 0, 1) == Coord(0, 1);
    LeafChildren(k, 0);
    hide Anc, Children;
    forall j | 0 <= j < k
      ensures Block(h, k, cells, Leaves(0, k)[j]) == At(cells, 0)
    {
      BlockLeaf(h, k, cells, j);
    }
  }

  lemma FirstStepsAlike(h: Hasher, k: Arity, cells: seq<Digest>, m: nat, n: nat, p: ConsistencyProof)
    requires 0 < m < n && CollapsesAlike(h, k, cells, m, n, p) && |p.peakPath| > 0
    ensures var q := HonestProof(h, k, cells, m, n);
            |q.peakPath| > 0 && Admissible(p.peakPath[0]) && Admissible(q.peakPath[0]) &&
            (AllSame(Insert(p.peakPath[0].siblings, p.peakPath[0].position, p.boundaryHash)) <==>
             AllSame(Insert(q.peakPath[0].siblings, q.peakPath[0].position, q.boundaryHash)))
  {
    hide SameBag, Block, BagShape, PathStep;
  }

  lemma BlockLeaf(h: Hasher, k: Arity, cells: seq<Digest>, i: nat)
    ensures Block(h, k, cells, Coord(i, 0)) == At(cells, i)
  {
  }

  lemma SmallFrontiers(k: Arity)
    ensures Frontier(k, 1) == [Coord(0, 0)] && Frontier(k, k) == [Coord(0, 1)]
    ensures Last(k, 1) == Coord(0, 0) && MountainOf(k, k, 0) == 0 && HeightOf(k, k, 0) == 1
    ensures Digit(k, 0, 0) == 0
  {
    hide Times, Quot, MountainOf;
    FrontierAt(k, 1, 0, 1);
    FrontierAt(k, k, 1, 0);
    assert UpAll(k, Frontier(k, 1)) == [Coord(0, 1)];
    PowSucc(k, 0);
    MountainUnique(k, k, 0, 0);
    FrontierInit(k, 1);
  }

  /**
   Soundness of inclusion: a path of exactly the skeleton's length, accepted against
   the genuine root, is the honest path for the genuine cell exactly when it
   collapses alike.
   */
  lemma InclusionSound(
      h: Hasher, k: Arity, cells: seq<Digest>, n: nat, i: nat, leaf: Digest, path: seq<ProofStep>)
    requires CollisionFree(h) && i < n <= U64_MAX && |path| == |Skeleton(k, n, i)|
    requires VerifyInclusion(h, leaf, Skeleton(k, n, i), path, MemberRoot(h, k, cells, n))
    ensures var honest := InclusionPath(h, k, cells, n, i);
            |honest| == |path| && AllAdmissible(honest) && AllAdmissible(path) &&
            (SameClimb(h, leaf, path, At(cells, i), honest) <==> leaf == At(cells, i) && path == honest)
  {
    hide CollisionFree, Skeleton, InclusionPath, MemberRoot, SameClimb, Climb;
    InclusionVerifies(h, k, cells, n, i);
    var honest := InclusionPath(h, k, cells, n, i);
    assert path[0..] == path && honest[0..] == honest;
    if SameClimb(h, leaf, path, At(cells, i), honest) {
      ClimbInjective(h, leaf, path, At(cells, i), honest);
    } else if leaf == At(cells, i) && path == honest {
      SameClimbRefl(h, leaf, path);
    }
  }

  // ------------------------------------------------------------------ uniqueness

  /** No step of the climb collapses. */
  ghost predicate NoCollapse(h: Hasher, d: Digest, p: seq<ProofStep>)
    requires AllAdmissible(p)
    decreases |p|
  {
    p == [] ||
    (!AllSame(Insert(p[0].siblings, p[0].position, d)) && NoCollapse(h, Parent(h, d, p[0]), p[1..]))
  }

  function Positions(p: seq<ProofStep>): (r: seq<nat>)
    ensures |r| == |p|
    ensures forall i :: 0 <= i < |p| ==> r[i] == p[i].position
  {
    seq(|p|, i requires 0 <= i < |p| => p[i].position)
  }

  /** Non-collapsing paths to one root are told apart by their positions alone. */
  lemma {:induction false} PositionsDeterminePath(h: Hasher, d: Digest, p: seq<ProofStep>, e: Digest, q: seq<ProofStep>)
    requires CollisionFree(h) && AllAdmissible(p) && AllAdmissible(q)
    requires NoCollapse(h, d, p) && NoCollapse(h, e, q)
    requires Positions(p) == Positions(q) && Climb(h, d, p) == Climb(h, e, q)
    ensures d == e && p == q
    decreases |p|
  {
    hide NaryMr, CollisionFree, AllSame;
    assert |p| == |Positions(p)| == |Positions(q)| == |q|;
    if p != [] {
      assert Positions(p)[0] == Positions(q)[0];
      assert Positions(p[1..]) == Positions(p)[1..] && Positions(q[1..]) == Positions(q)[1..];
      PositionsDeterminePath(h, Parent(h, d, p[0]), p[1..], Parent(h, e, q[0]), q[1..]);
      NaryMrInjective(h, Insert(p[0].siblings, p[0].position, d), Insert(q[0].siblings, q[0].position, e));
      InsertInjective(p[0].siblings, q[0].siblings, p[0].position, d, e);
      assert p == [p[0]] + p[1..] && q == [q[0]] + q[1..];
    }
  }

  /** With no subtree prefix there is at most one accepting path that does not collapse. */
  lemma InclusionUnique(
      h: Hasher, leaf: Digest, skeleton: seq<SkeletonStep>, p: seq<ProofStep>, q: seq<ProofStep>, root: Digest)
    requires CollisionFree(h) && |p| == |q| == |skeleton|
    requires VerifyInclusion(h, leaf, skeleton, p, root) && VerifyInclusion(h, leaf, skeleton, q, root)
    requires NoCollapse(h, leaf, p) && NoCollapse(h, leaf, q)
    ensures p == q
  {
    hide CollisionFree, NoCollapse, Climb;
    assert p[0..] == p && q[0..] == q;
    forall i | 0 <= i < |p|
      ensures Positions(p)[i] == Positions(q)[i]
    {
      assert StepShapes(p)[i] == StepShapes(q)[i];
    }
    PositionsDeterminePath(h, leaf, p, leaf, q);
  }

  /** With a prefix of any length, accepting paths that do not collapse differ exactly if their positions do. */
  lemma PathsByPosition(
      h: Hasher, leaf: Digest, skeleton: seq<SkeletonStep>, p: seq<ProofStep>, q: seq<ProofStep>, root: Digest)
    requires CollisionFree(h)
    requires VerifyInclusion(h, leaf, skeleton, p, root) && VerifyInclusion(h, leaf, skeleton, q, root)
    requires NoCollapse(h, leaf, p) && NoCollapse(h, leaf, q)
    ensures p == q <==> Positions(p) == Positions(q)
  {
    hide CollisionFree, NoCollapse, Climb;
    assert p[0..] == p && q[0..] == q;
    if Positions(p) == Positions(q) {
      PositionsDeterminePath(h, leaf, p, leaf, q);
    }
  }

  /**
   So with a subtree prefix uniqueness fails: a leaf that occurs twice under the root is
   reached by two accepting paths, neither of which collapses.
   */
  lemma PrefixNotUnique()
    ensures var x, y := HashOf([1]), HashOf([2]);
            var root := NodeOf([x, y, x]);
            var p, q := [ProofStep([y, x], 0)], [ProofStep([x, y], 2)];
            VerifyInclusion(FreeHasher, x, [], p, root) && VerifyInclusion(FreeHasher, x, [], q, root) &&
            NoCollapse(FreeHasher, x, p) && NoCollapse(FreeHasher, x, q) && p != q
  {
    var h, x, y := FreeHasher, HashOf([1]), HashOf([2]);
    var ds := [x, y, x];
    assert !AllSame(ds) by { assert ds[0] != ds[1]; }
    assert NaryMr(h, ds) == FreeNode(ds) == NodeOf(ds);
    var p, q := [ProofStep([y, x], 0)], [ProofStep([x, y], 2)];
    assert Insert([y, x], 0, x) == ds && Insert([x, y], 2, x) == ds;
    assert Climb(h, x, p) == Climb(h, Parent(h, x, p[0]), []);
    assert Climb(h, x, q) == Climb(h, Parent(h, x, q[0]), []);
    assert p[|p|..] == [] && q[|q|..] == [];
    assert StepShapes([]) == [];
  }

  // ------------------------------------------------------------------ tampering

  /** Changing one child changes the parent, whether or not either list collapses. */
  lemma NaryMrOneChild(h: Hasher, a: seq<Digest>, b: seq<Digest>, j: nat)
    requires CollisionFree(h) && NoFixpoint(h) && |a| == |b| >= 2 && j < |a|
    requires forall i :: 0 <= i < |a| && i != j ==> a[i] == b[i]
    requires NaryMr(h, a) == NaryMr(h, b)
    ensures a == b
  {
    var o := if j == 0 then 1 else 0;
    assert a[o] == b[o];
    NodeIsFresh(h, a, o);
    NodeIsFresh(h, b, o);
    if AllSame(a) && AllSame(b) {
      assert a[j] == a[o] && b[j] == b[o];
    }
  }

  lemma NodeIsFresh(h: Hasher, ds: seq<Digest>, i: nat)
    requires NoFixpoint(h) && |ds| >= 2 && i < |ds|
    ensures h.node(ds) != ds[i]
    ensures AllSame(ds) ==> ds[0] == ds[i]
  {
    assert h.node(ds) !in ds;
  }

  /** A different leaf climbs to a different root along the same path. */
  lemma {:induction false} LeafTamper(h: Hasher, d: Digest, e: Digest, p: seq<ProofStep>)
    requires CollisionFree(h) && NoFixpoint(h) && AllAdmissible(p)
    requires Climb(h, d, p) == Climb(h, e, p)
    ensures d == e
    decreases |p|
  {
    hide NaryMr, CollisionFree, NoFixpoint;
    if p != [] {
      var s, j := p[0].siblings, p[0].position;
      LeafTamper(h, Parent(h, d, p[0]), Parent(h, e, p[0]), p[1..]);
      NaryMrOneChild(h, Insert(s, j, d), Insert(s, j, e), j);
      InsertInjective(s, s, j, d, e);
    }
  }

  /** A path in which one sibling of one step was changed leads to a different root. */
  lemma SiblingTamper(h: Hasher, d: Digest, p: seq<ProofStep>, t: nat, g: nat, x: Digest)
    requires CollisionFree(h) && NoFixpoint(h) && AllAdmissible(p)
    requires t < |p| && g < |p[t].siblings| && x != p[t].siblings[g]
    ensures var q := p[t := ProofStep(p[t].siblings[g := x], p[t].position)];
            AllAdmissible(q) && StepShapes(q) == StepShapes(p) && Climb(h, d, p) != Climb(h, d, q)
  {
    hide NaryMr, CollisionFree, NoFixpoint, Climb;
    var s := ProofStep(p[t].siblings[g := x], p[t].position);
    var q := p[t := s];
    var low, high := p[..t], p[t + 1..];
    var e := Climb(h, d, low);
    assert p == low + ([p[t]] + high) && q == low + ([s] + high);
    ClimbConcat(h, d, low, [p[t]] + high);
    ClimbConcat(h, d, low, [s] + high);
    ClimbFirst(h, e, p[t], high);
    ClimbFirst(h, e, s, high);
    if Climb(h, d, p) == Climb(h, d, q) {
      LeafTamper(h, Parent(h, e, p[t]), Parent(h, e, s), high);
      SiblingChild(p[t].siblings, p[t].position, e, g, x);
      var c := if g < p[t].position then g else g + 1;
      NaryMrOneChild(h, Insert(p[t].siblings, p[t].position, e), Insert(s.siblings, s.position, e), c);
      assert false;
    }
  }

  lemma ClimbFirst(h: Hasher, d: Digest, s: ProofStep, rest: seq<ProofStep>)
    requires Admissible(s) && AllAdmissible(rest)
    ensures AllAdmissible([s] + rest) && Climb(h, d, [s] + rest) == Climb(h, Parent(h, d, s), rest)
  {
    hide NaryMr;
    assert ([s] + rest)[1..] == rest;
  }

  lemma SiblingChild(s: seq<Digest>, p: nat, d: Digest, g: nat, x: Digest)
    requires p <= |s| && g < |s|
    ensures var c := if g < p then g else g + 1;
            Insert(s[g := x], p, d) == Insert(s, p, d)[c := x] && Insert(s, p, d)[c] == s[g]
  {
  }

  /** A shape that holds each of its tips in one place only. */
  ghost predicate Once(s: Shape, i: nat) {
    match s
    case Tip(t) => t == i
    case Inner(cs) => exists j: nat :: OnlyIn(cs, j, i) && Once(cs[j], i)
  }

  lemma {:induction false} FoldOnce(items: seq<Shape>, k: Arity, t: nat, i: nat)
    requires OnlyIn(items, t, i) && Once(items[t], i)
    ensures Once(Fold(items, k, MkInner), i)
    decreases |items|
  {
    if 1 < |items| <= k {
      assert Once(Inner(items), i);
    } else if |items| > k {
      var split := |items| - k;
      var group := items[split..];
      var rest := items[..split] + [Inner(group)];
      if t < split {
        GroupLacks(items, split, i);
        FoldOnce(rest, k, t, i);
      } else {
        assert OnlyIn(group, t - split, i) && Once(group[t - split], i);
        assert Holds(group[t - split], i);
        assert OnlyIn(rest, split, i);
        FoldOnce(rest, k, split, i);
      }
    }
  }

  /** Changing the digest of one tip changes the digest of the shape. */
  lemma {:induction false} TipTamper(h: Hasher, a: seq<Digest>, i: nat, x: Digest, s: Shape)
    requires CollisionFree(h) && NoFixpoint(h) && Hashing(s) && Once(s, i) && i < |a|
    requires Eval(h, a, s) == Eval(h, a[i := x], s)
    ensures a[i] == x
    decreases s
  {
    hide NaryMr, CollisionFree, NoFixpoint;
    if s.Inner? {
      var cs, b := s.children, a[i := x];
      var j: nat :| OnlyIn(cs, j, i) && Once(cs[j], i);
      forall u | 0 <= u < |cs| && u != j
        ensures Eval(h, a, cs[u]) == Eval(h, b, cs[u])
      {
        EvalCongruent(h, a, b, cs[u]);
      }
      NaryMrOneChild(h, EvalAll(h, a, cs), EvalAll(h, b, cs), j);
      assert EvalAll(h, a, cs)[j] == EvalAll(h, b, cs)[j];
      assert cs[j] in cs;
      TipTamper(h, a, i, x, cs[j]);
    }
  }

  lemma PeakTamper(h: Hasher, k: Arity, peaks: seq<Digest>, i: nat, x: Digest)
    requires CollisionFree(h) && NoFixpoint(h) && i < |peaks| && peaks[i] != x
    ensures BagPeaks(h, peaks[i := x], k) != BagPeaks(h, peaks, k)
  {
    hide CollisionFree, NoFixpoint, Eval, Holds, Once, Hashing, Fold;
    var tips := PeakTips(|peaks|);
    BagHolds(k, |peaks|, i);
    assert OnlyIn(tips, i, i) && Once(tips[i], i) by {
      TipsOnce(|peaks|, i);
    }
    FoldOnce(tips, k, i, i);
    if BagPeaks(h, peaks[i := x], k) == BagPeaks(h, peaks, k) {
      TipTamper(h, peaks, i, x, BagShape(k, |peaks|));
      assert false;
    }
  }

  lemma TipsOnce(count: nat, i: nat)
    requires i < count
    ensures OnlyIn(PeakTips(count), i, i) && Once(PeakTips(count)[i], i)
  {
  }

  /** A single digest, or the split index, of a consistency proof replaced by another. */
  datatype Edit =
    | EditBoundary(d: Digest)
    | EditSibling(step: nat, sibling: nat, d: Digest)
    | EditPeak(peak: nat, d: Digest)
    | EditSplit(split: nat)

  predicate Changes(p: ConsistencyProof, e: Edit) {
    match e
    case EditBoundary(d) => d != p.boundaryHash
    case EditSibling(t, g, d) => t < |p.peakPath| && g < |p.peakPath[t].siblings| && d != p.peakPath[t].siblings[g]
    case EditPeak(i, d) => i < |p.newPeaks| && d != p.newPeaks[i]
    case EditSplit(s) => s != p.splitIndex
  }

  function Edited(p: ConsistencyProof, e: Edit): ConsistencyProof
    requires Changes(p, e)
  {
    match e
    case EditBoundary(d) => p.(boundaryHash := d)
    case EditSibling(t, g, d) =>
      p.(peakPath := p.peakPath[t := ProofStep(p.peakPath[t].siblings[g := d], p.peakPath[t].position)])
    case EditPeak(i, d) => p.(newPeaks := p.newPeaks[i := d])
    case EditSplit(s) => p.(splitIndex := s)
  }

  /** No single edit of an accepted consistency proof is accepted against the same new root. */
  lemma ConsistencyTamper(
      h: Hasher, k: Arity, m: nat, n: nat, p: ConsistencyProof, oldRoot: Digest, newRoot: Digest,
      e: Edit, oldRoot': Digest)
    requires CollisionFree(h) && NoFixpoint(h)
    requires VerifyConsistency(h, m, n, k, p, oldRoot, newRoot) && Changes(p, e)
    ensures !VerifyConsistency(h, m, n, k, Edited(p, e), oldRoot', newRoot)
  {
    hide CollisionFree, NoFixpoint, Frontier, BagPeaks, Climb, MountainOf, AllAdmissible;
    AcceptedShape(h, k, m, n, p);
    var q := Edited(p, e);
    if VerifyConsistency(h, m, n, k, q, oldRoot', newRoot) {
      AcceptedShape(h, k, m, n, q);
      match e
      case EditBoundary(d) => LeafTamper(h, p.boundaryHash, d, p.peakPath);
      case EditSibling(t, g, d) => SiblingTamper(h, p.boundaryHash, p.peakPath, t, g, d);
      case EditPeak(i, d) => PeakTamper(h, k, p.newPeaks, i, d);
      case EditSplit(s) =>
    }
  }

  /** No accepted inclusion proof is accepted for another leaf, or after one sibling changed. */
  lemma InclusionTamper(
      h: Hasher, leaf: Digest, skeleton: seq<SkeletonStep>, p: seq<ProofStep>, root: Digest,
      leaf': Digest, t: nat, g: nat, x: Digest)
    requires CollisionFree(h) && NoFixpoint(h) && VerifyInclusion(h, leaf, skeleton, p, root)
    ensures leaf' != leaf ==> !VerifyInclusion(h, leaf', skeleton, p, root)
    ensures t < |p| && g < |p[t].siblings| && x != p[t].siblings[g] ==>
              !VerifyInclusion(h, leaf, skeleton, p[t := ProofStep(p[t].siblings[g := x], p[t].position)], root)
  {
    hide CollisionFree, NoFixpoint, Climb, PathStructure, AllAdmissible;
    if VerifyInclusion(h, leaf', skeleton, p, root) {
      LeafTamper(h, leaf, leaf', p);
    }
    if t < |p| && g < |p[t].siblings| && x != p[t].siblings[g] {
      SiblingTamper(h, leaf, p, t, g, x);
    }
  }
}

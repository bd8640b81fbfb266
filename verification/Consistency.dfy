/**
 Consistency proofs of the append-only log: the old tree's last peak is included in
 one mountain of the new tree, and both roots are bagged from what the proof carries.
 */
module Consistency {
  import opened Base
  import opened Topology
  import opened Spine
  import opened Shapes
  import opened Mountain
  import opened Blocks

  datatype ConsistencyProof = ConsistencyProof(
    boundaryHash: Digest, peakPath: seq<ProofStep>, newPeaks: seq<Digest>, splitIndex: nat)

  function Min(a: nat, b: nat): nat { if a < b then a else b }

  function LeftOfStep(s: ProofStep): seq<Digest> { s.siblings[..Min(s.position, |s.siblings|)] }

  /** The left siblings along a path, highest step first. */
  function LeftOf(path: seq<ProofStep>): seq<Digest> {
    if path == [] then [] else LeftOf(path[1..]) + LeftOfStep(path[0])
  }

  /** The old frontier a proof implies. */
  function OldPeaks(p: ConsistencyProof): seq<Digest>
    requires p.splitIndex <= |p.newPeaks|
  {
    p.newPeaks[..p.splitIndex] + LeftOf(p.peakPath) + [p.boundaryHash]
  }

  function Last(k: Arity, n: nat): (c: Coord)
    requires n > 0
    ensures c.left < n
  {
    FrontierInit(k, n);
    Frontier(k, n)[|Frontier(k, n)| - 1]
  }

  /** The skeleton slice the boundary's climb is pinned to, when the split is right. */
  function ClimbSkeleton(k: Arity, m: nat, n: nat, split: nat): Option<seq<SkeletonStep>>
    requires 0 < m < n
  {
    FrontierInit(k, m);
    var b := Last(k, m);
    var f := MountainOf(k, n, b.left);
    if split == f && b.height <= HeightOf(k, n, b.left)
    then Some(DigitSteps(k, b.left, b.height, HeightOf(k, n, b.left)))
    else None
  }

  /** Both roots a consistency proof claims, or nothing when it is ill-formed. */
  function ReconstructRoots(h: Hasher, m: nat, n: nat, k: nat, p: ConsistencyProof): (r: Option<(Digest, Digest)>)
    ensures r.Some? ==> 0 < m < n && 2 <= k <= 256 && |p.newPeaks| == |Frontier(k, n)| && p.splitIndex < |p.newPeaks|
  {
    if !(0 < m < n) || !(2 <= k <= 256) || |p.newPeaks| != |Frontier(k, n)| then None else
    var climb := ClimbSkeleton(k, m, n, p.splitIndex);
    if climb.None? || p.splitIndex >= |p.newPeaks| || |p.peakPath| != |climb.value| then None else
    var recovered := ReconstructRoot(h, p.boundaryHash, climb.value, p.peakPath);
    if recovered != Some(p.newPeaks[p.splitIndex]) then None
    else Some((BagPeaks(h, OldPeaks(p), k), BagPeaks(h, p.newPeaks, k)))
  }

  predicate VerifyConsistency(
      h: Hasher, m: nat, n: nat, k: nat, p: ConsistencyProof, oldRoot: Digest, newRoot: Digest)
  {
    ReconstructRoots(h, m, n, k, p) == Some((oldRoot, newRoot))
  }

  /** Loop form of the verifier's reconstruction. */
  method ReconstructConsistencyRoots(h: Hasher, oldSize: nat, newSize: nat, arity: nat, p: ConsistencyProof)
    returns (roots: Option<(Digest, Digest)>)
    requires oldSize <= U64_MAX && newSize <= U64_MAX
    ensures roots == ReconstructRoots(h, oldSize, newSize, arity, p)
    ensures !(0 < oldSize < newSize && 2 <= arity <= 256) ==> roots.None?
  {
    hide Frontier, MountainOf, Aligned, ReconstructRoot, BagPeaks, Quot, SkeletonTo, BagShape;
    if oldSize == 0 || oldSize >= newSize || !(2 <= arity <= 256) {
      return None;
    }
    var k: Arity := arity;
    var oldCoords := FrontierForSize(oldSize, k);
    var newCoords := FrontierForSize(newSize, k);
    FrontierInit(k, oldSize);
    var boundary := oldCoords[|oldCoords| - 1];
    if |p.newPeaks| != |newCoords| || p.splitIndex >= |newCoords| {
      return None;
    }
    var mountain := newCoords[p.splitIndex];
    MountainUnique(k, newSize, boundary.left, p.splitIndex);
    if boundary.left < mountain.left || boundary.left >= mountain.left + Pow(k, mountain.height) {
      return None;
    }
    if mountain.height < boundary.height {
      return None;
    }
    var fullSkeleton := MountainSkeleton(k, newSize, boundary.left);
    var climb := fullSkeleton.value[boundary.height..mountain.height];
    assert climb == DigitSteps(k, boundary.left, boundary.height, mountain.height);
    if |p.peakPath| != |climb| {
      return None;
    }
    var recovered := ReconstructInclusionRoot(h, p.boundaryHash, climb, p.peakPath);
    if recovered != Some(p.newPeaks[p.splitIndex]) {
      return None;
    }
    var oldPeaks := p.newPeaks[..p.splitIndex];
    var n: nat := |p.peakPath|;
    while n > 0
      invariant n <= |p.peakPath|
      invariant oldPeaks == p.newPeaks[..p.splitIndex] + LeftOf(p.peakPath[n..])
    {
      n := n - 1;
      var step := p.peakPath[n];
      assert p.peakPath[n..][1..] == p.peakPath[n + 1..];
      oldPeaks := oldPeaks + step.siblings[..Min(step.position, |step.siblings|)];
    }
    assert p.peakPath[0..] == p.peakPath;
    roots := Some((BagPeaks(h, oldPeaks + [p.boundaryHash], k), BagPeaks(h, p.newPeaks, k)));
  }

  // ------------------------------------------------------------------ completeness

  /** The proof an honest log gives for `m` against `n`. */
  function HonestProof(h: Hasher, k: Arity, cells: seq<Digest>, m: nat, n: nat): ConsistencyProof
    requires 0 < m < n
  {
    FrontierInit(k, m);
    var b := Last(k, m);
    BoundaryFits(k, m, n);
    ConsistencyProof(
      Block(h, k, cells, b),
      PeakPath(h, k, cells, b.left, b.height, HeightOf(k, n, b.left)),
      Peaks(h, k, cells, n),
      MountainOf(k, n, b.left))
  }

  /** An aligned subtree inside `n` leaves lies inside one mountain. */
  lemma {:induction false} MountainCovers(k: Arity, n: nat, c: Coord)
    requires Aligned(k, c) && End(k, c) <= n
    ensures c.left < n && c.height <= HeightOf(k, n, c.left)
    decreases n
  {
    hide Times, Quot, UpAll, Leaves;
    MountainContains(k, n, c.left);
    if c.height > 0 {
      DownUp(k, c);
      UpEnd(k, Down(k, c));
      TimesGap(k, Quot(k, n) + 1, End(k, Down(k, c)));
      TimesSucc(k, Quot(k, n));
      MountainCovers(k, Quot(k, n), Down(k, c));
      MountainContains(k, Quot(k, n), Quot(k, c.left));
    }
  }

  lemma BoundaryFits(k: Arity, m: nat, n: nat)
    requires 0 < m < n
    ensures Last(k, m).left < m && Aligned(k, Last(k, m)) && End(k, Last(k, m)) == m
    ensures Last(k, m).height <= HeightOf(k, n, Last(k, m).left)
  {
    hide Frontier, Aligned, MountainOf;
    FrontierInit(k, m);
    FrontierTiles(k, m);
    MountainCovers(k, n, Last(k, m));
  }

  lemma {:induction false} LeftOfSnoc(path: seq<ProofStep>, s: ProofStep)
    ensures LeftOf(path + [s]) == LeftOfStep(s) + LeftOf(path)
  {
    if path != [] {
      assert (path + [s])[1..] == path[1..] + [s];
      LeftOfSnoc(path[1..], s);
    } else {
      assert LeftOf([s][1..]) == [];
    }
  }

  /** The left siblings of an honest climb are the blocks left of the path. */
  lemma {:induction false} LeftOfPeakPath(h: Hasher, k: Arity, cells: seq<Digest>, i: nat, lo: nat, hi: nat)
    requires lo <= hi
    ensures BlockAll(h, k, cells, LeftSibs(k, i, hi))
         == LeftOf(PeakPath(h, k, cells, i, lo, hi)) + BlockAll(h, k, cells, LeftSibs(k, i, lo))
    decreases hi - lo
  {
    hide Block, Anc, Digit, Children;
    if lo < hi {
      LeftOfPeakPath(h, k, cells, i, lo, hi - 1);
      PeakPathSnoc(h, k, cells, i, lo, hi);
      var s := PathStep(h, k, cells, i, hi - 1);
      LeftOfSnoc(PeakPath(h, k, cells, i, lo, hi - 1), s);
      assert LeftOfStep(s) == BlockAll(h, k, cells, LeftSibsAt(k, i, hi - 1));
    }
  }

  /** Completeness: the honest proof reconstructs exactly both genuine roots. */
  lemma ConsistencyComplete(h: Hasher, k: Arity, cells: seq<Digest>, m: nat, n: nat)
    requires 0 < m < n <= U64_MAX
    ensures ReconstructRoots(h, m, n, k, HonestProof(h, k, cells, m, n))
         == Some((MemberRoot(h, k, cells, m), MemberRoot(h, k, cells, n)))
    ensures OldPeaks(HonestProof(h, k, cells, m, n)) == Peaks(h, k, cells, m)
  {
    hide Frontier, Block, MountainOf, Aligned, BagPeaks, PathStep, Climb, LeftSibs, Anc, NumDigits, SkeletonTo;
    FrontierInit(k, m);
    BoundaryFits(k, m, n);
    var b := Last(k, m);
    var p := HonestProof(h, k, cells, m, n);
    var hi := HeightOf(k, n, b.left);
    MountainIsAnc(k, n, b.left);
    AlignedIsAnc(k, b, b.left);
    PeakPathClimbs(h, k, cells, b.left, b.height, hi);
    LeftOfPeakPath(h, k, cells, b.left, b.height, hi);
    LeftSibsAligned(k, b, b.height);
    FrontierFromPath(k, n, b.left);
    SkeletonLength(k, n, b.left);
    DigitsOfWord(k, n);
    assert p.peakPath[0..] == p.peakPath;
    assert OldPeaks(p) == Peaks(h, k, cells, m);
  }
}

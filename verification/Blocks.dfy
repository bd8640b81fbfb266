/**
 What an honest log commits to.  `Block` is the reference value of a perfect
 subtree over the log's cells; member roots, inclusion paths and consistency
 proofs are all stated in terms of it.
 */
module Blocks {
  import opened Base
  import opened Topology
  import opened Spine
  import opened Shapes
  import opened Mountain

  /** The k-ary fold of the cells under `c`. */
  function Block(h: Hasher, k: Arity, cells: seq<Digest>, c: Coord): Digest
    decreases c.height
  {
    if c.height == 0 then At(cells, c.left)
    else NaryMr(h, seq(k, j requires 0 <= j < k => Block(h, k, cells, Child(k, c, j))))
  }

  function BlockAll(h: Hasher, k: Arity, cells: seq<Digest>, cs: seq<Coord>): (r: seq<Digest>)
    ensures |r| == |cs|
    ensures forall j :: 0 <= j < |cs| ==> r[j] == Block(h, k, cells, cs[j])
  {
    seq(|cs|, j requires 0 <= j < |cs| => Block(h, k, cells, cs[j]))
  }

  lemma BlockUnfold(h: Hasher, k: Arity, cells: seq<Digest>, c: Coord)
    requires c.height > 0
    ensures Block(h, k, cells, c) == NaryMr(h, BlockAll(h, k, cells, Children(k, c)))
  {
    hide NaryMr, Child;
    assert seq(k, j requires 0 <= j < k => Block(h, k, cells, Child(k, c, j)))
        == BlockAll(h, k, cells, Children(k, c));
  }

  /** A subtree's children lie inside it. */
  lemma ChildInside(k: Arity, c: Coord, j: nat)
    requires c.height > 0 && j < k
    ensures c.left <= Child(k, c, j).left && End(k, Child(k, c, j)) <= End(k, c)
    ensures Child(k, c, j).height < c.height
    ensures Aligned(k, c) ==> Aligned(k, Child(k, c, j))
  {
    var p := Pow(k, c.height - 1);
    TimesGap(p, j + 1, k);
    TimesSucc(p, j);
    TimesComm(p, k);
    if Aligned(k, c) {
      ChildAligned(k, c, j);
    }
  }

  lemma {:induction false} ChildAligned(k: Arity, c: Coord, j: nat)
    requires c.height > 0 && j < k && Aligned(k, c)
    ensures Aligned(k, Child(k, c, j))
    decreases c.height
  {
    hide Times, Quot;
    if c.height > 1 {
      DownUp(k, c);
      UpChild(k, Down(k, c), j);
      ChildAligned(k, Down(k, c), j);
      UpDown(k, Child(k, Down(k, c), j));
    }
  }

  /** A block depends only on the cells it spans. */
  lemma {:induction false} BlockCongruent(h: Hasher, k: Arity, cells: seq<Digest>, cells': seq<Digest>, c: Coord)
    requires forall i :: c.left <= i < End(k, c) ==> At(cells, i) == At(cells', i)
    ensures Block(h, k, cells, c) == Block(h, k, cells', c)
    decreases c.height
  {
    hide NaryMr, Child, At, Aligned;
    if c.height > 0 {
      forall j | 0 <= j < k
        ensures Block(h, k, cells, Child(k, c, j)) == Block(h, k, cells', Child(k, c, j))
      {
        ChildInside(k, c, j);
        BlockCongruent(h, k, cells, cells', Child(k, c, j));
      }
      BlockUnfold(h, k, cells, c);
      BlockUnfold(h, k, cells', c);
      assert BlockAll(h, k, cells, Children(k, c)) == BlockAll(h, k, cells', Children(k, c));
    }
  }

  /** A block of equal cells collapses to their common value. */
  lemma {:induction false} BlockConstant(h: Hasher, k: Arity, cells: seq<Digest>, c: Coord, v: Digest)
    requires forall i :: c.left <= i < End(k, c) ==> At(cells, i) == v
    ensures Block(h, k, cells, c) == v
    decreases c.height
  {
    hide Child, At, Aligned;
    if c.height > 0 {
      forall j | 0 <= j < k
        ensures Block(h, k, cells, Child(k, c, j)) == v
      {
        ChildInside(k, c, j);
        BlockConstant(h, k, cells, Child(k, c, j), v);
      }
      BlockUnfold(h, k, cells, c);
    } else {
      assert Pow(k, 0) == 1;
    }
  }

  /** The frontier peaks of `n` cells, and the member root they bag to. */
  function Peaks(h: Hasher, k: Arity, cells: seq<Digest>, n: nat): seq<Digest> {
    BlockAll(h, k, cells, Frontier(k, n))
  }

  function MemberRoot(h: Hasher, k: Arity, cells: seq<Digest>, n: nat): Digest {
    BagPeaks(h, Peaks(h, k, cells, n), k)
  }

  /** Later cells change neither the peaks nor the root of an earlier size. */
  lemma PeaksPermanent(h: Hasher, k: Arity, cells: seq<Digest>, more: seq<Digest>, n: nat)
    requires n <= |cells|
    ensures Peaks(h, k, cells + more, n) == Peaks(h, k, cells, n)
    ensures MemberRoot(h, k, cells + more, n) == MemberRoot(h, k, cells, n)
  {
    hide Block, Frontier, BagPeaks, End;
    var f := Frontier(k, n);
    FrontierTiles(k, n);
    forall j | 0 <= j < |f|
      ensures Block(h, k, cells + more, f[j]) == Block(h, k, cells, f[j])
    {
      TilesOrdered(k, f, n, j, j);
      BlockCongruent(h, k, cells + more, cells, f[j]);
    }
    assert Peaks(h, k, cells + more, n) == Peaks(h, k, cells, n);
  }

  // ------------------------------------------------------------------ paths

  /** The step that lifts the path of leaf `i` from height `g` to `g + 1`. */
  function PathStep(h: Hasher, k: Arity, cells: seq<Digest>, i: nat, g: nat): ProofStep {
    ProofStep(Remove(BlockAll(h, k, cells, Children(k, Anc(k, i, g + 1))), Digit(k, i, g)), Digit(k, i, g))
  }

  function PeakPath(h: Hasher, k: Arity, cells: seq<Digest>, i: nat, lo: nat, hi: nat): (r: seq<ProofStep>)
    requires lo <= hi
    ensures |r| == hi - lo
    ensures forall g :: 0 <= g < hi - lo ==> r[g] == PathStep(h, k, cells, i, lo + g)
  {
    seq(hi - lo, g requires 0 <= g => PathStep(h, k, cells, i, lo + g))
  }

  lemma PeakPathSnoc(h: Hasher, k: Arity, cells: seq<Digest>, i: nat, lo: nat, hi: nat)
    requires lo < hi
    ensures PeakPath(h, k, cells, i, lo, hi)
         == PeakPath(h, k, cells, i, lo, hi - 1) + [PathStep(h, k, cells, i, hi - 1)]
  {
    hide PathStep;
  }

  /** The path climbs from the block at height `lo` to the block at height `hi`. */
  lemma {:induction false} PeakPathClimbs(h: Hasher, k: Arity, cells: seq<Digest>, i: nat, lo: nat, hi: nat)
    requires lo <= hi
    ensures AllAdmissible(PeakPath(h, k, cells, i, lo, hi))
    ensures Climb(h, Block(h, k, cells, Anc(k, i, lo)), PeakPath(h, k, cells, i, lo, hi))
         == Block(h, k, cells, Anc(k, i, hi))
    ensures StepShapes(PeakPath(h, k, cells, i, lo, hi)) == DigitSteps(k, i, lo, hi)
    decreases hi - lo
  {
    hide Block, NaryMr, Climb, Children, Anc, Digit;
    var start := Block(h, k, cells, Anc(k, i, lo));
    if lo == hi {
      ClimbNone(h, start);
    } else {
      PeakPathClimbs(h, k, cells, i, lo, hi - 1);
      PeakPathSnoc(h, k, cells, i, lo, hi);
      var top := Anc(k, i, hi);
      AncChild(k, i, hi - 1);
      BlockUnfold(h, k, cells, top);
      LastStep(h, BlockAll(h, k, cells, Children(k, top)), Digit(k, i, hi - 1), start,
        PeakPath(h, k, cells, i, lo, hi - 1));
    }
  }

  /** Prove to the peak, then bag. */
  function InclusionPath(h: Hasher, k: Arity, cells: seq<Digest>, n: nat, i: nat): seq<ProofStep>
    requires i < n
  {
    MountainContains(k, n, i);
    BagHolds(k, |Frontier(k, n)|, MountainOf(k, n, i));
    PeakPath(h, k, cells, i, 0, HeightOf(k, n, i))
      + PathTo(h, Peaks(h, k, cells, n), BagShape(k, |Frontier(k, n)|), MountainOf(k, n, i))
  }

  lemma ShapesConcat(a: seq<ProofStep>, b: seq<ProofStep>)
    ensures StepShapes(a + b) == StepShapes(a) + StepShapes(b)
  {
  }

  /** The subtree holding `i` in the frontier is the ancestor of `i` at that height. */
  lemma MountainIsAnc(k: Arity, n: nat, i: nat)
    requires i < n
    ensures MountainOf(k, n, i) < |Frontier(k, n)|
    ensures Frontier(k, n)[MountainOf(k, n, i)] == Anc(k, i, HeightOf(k, n, i))
  {
    hide Anc, Aligned;
    MountainContains(k, n, i);
    FrontierTiles(k, n);
    AlignedIsAnc(k, Frontier(k, n)[MountainOf(k, n, i)], i);
  }

  /**
   A path whose first part climbs inside the leaf's mountain and whose second part
   lifts that peak through the bag verifies against the canonical skeleton.
   */
  lemma InclusionVerifies(h: Hasher, k: Arity, cells: seq<Digest>, n: nat, i: nat)
    requires i < n <= U64_MAX
    ensures SkeletonFor(k, n, i) == Some(Skeleton(k, n, i))
    ensures StepShapes(InclusionPath(h, k, cells, n, i)) == Skeleton(k, n, i)
    ensures VerifyInclusion(h, At(cells, i), Skeleton(k, n, i), InclusionPath(h, k, cells, n, i),
                            MemberRoot(h, k, cells, n))
  {
    hide NaryMr, Climb, Children, Digit, Frontier, MountainOf, FoldDepth, PathTo, SkeletonTo, BagShape, Holds, Hashing,
         Eval;
    hide NumDigits;
    var f, hi := MountainOf(k, n, i), HeightOf(k, n, i);
    MountainIsAnc(k, n, i);
    PeakPathClimbs(h, k, cells, i, 0, hi);
    var peaks := Peaks(h, k, cells, n);
    var bag := BagShape(k, |peaks|);
    BagHolds(k, |peaks|, f);
    PathLeadsToRoot(h, peaks, bag, f);
    var low, high := PeakPath(h, k, cells, i, 0, hi), PathTo(h, peaks, bag, f);
    ClimbConcat(h, At(cells, i), low, high);
    ShapesConcat(low, high);
    SkeletonLength(k, n, i);
    DigitsOfWord(k, n);
    assert Anc(k, i, 0) == Coord(i, 0);
    assert (low + high)[0..] == low + high;
  }

  lemma {:induction false} HeightMonotone(k: Arity, n: nat, m: nat, i: nat)
    requires i < n <= m
    ensures HeightOf(k, n, i) <= HeightOf(k, m, i)
    decreases n
  {
    hide Times, Quot, UpAll, Leaves;
    QuotMono(k, i, n);
    QuotMono(k, n, m);
    QuotMono(k, i, m);
    MountainContains(k, n, i);
    MountainContains(k, m, i);
    if Quot(k, i) < Quot(k, n) {
      MountainContains(k, Quot(k, n), Quot(k, i));
      MountainContains(k, Quot(k, m), Quot(k, i));
      HeightMonotone(k, Quot(k, n), Quot(k, m), Quot(k, i));
    }
  }

  /**
   Durable witnesses: the part of a proof below the leaf's peak never changes, so
   the old prefix joined to the new suffix verifies against the later root.
   */
  lemma WitnessSurvives(h: Hasher, k: Arity, cells: seq<Digest>, n: nat, m: nat, i: nat)
    requires i < n <= m <= U64_MAX
    ensures HeightOf(k, n, i) <= HeightOf(k, m, i)
    ensures HeightOf(k, n, i) <= |InclusionPath(h, k, cells, n, i)|
    ensures HeightOf(k, n, i) <= |InclusionPath(h, k, cells, m, i)|
    ensures var old_ := InclusionPath(h, k, cells, n, i)[..HeightOf(k, n, i)];
            var new_ := InclusionPath(h, k, cells, m, i)[HeightOf(k, n, i)..];
            VerifyInclusion(h, At(cells, i), Skeleton(k, m, i), old_ + new_, MemberRoot(h, k, cells, m))
  {
    hide PathStep, VerifyInclusion, Skeleton, MemberRoot, BagShape, PathTo, Holds, MountainOf, Frontier, Peaks;
    HeightMonotone(k, n, m, i);
    InclusionVerifies(h, k, cells, m, i);
    var g := HeightOf(k, n, i);
    var p, q := InclusionPath(h, k, cells, n, i), InclusionPath(h, k, cells, m, i);
    assert p[..g] == PeakPath(h, k, cells, i, 0, g) == q[..g];
    assert q == p[..g] + q[g..];
  }
}

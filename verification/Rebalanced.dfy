/**
 The mutable tree's shape: perfect subtrees over the frontier, folded by grouping the
 rightmost `k`.  It commits to the same roots, by the same paths, as the log's bag.
 */
module Rebalanced {
  import opened Base
  import opened Topology
  import opened Spine
  import opened Shapes
  import opened Mountain
  import opened Blocks

  /** A perfect k-ary subtree whose first leaf is `c.left`. */
  function Perfect(k: Arity, c: Coord): Shape
    decreases c.height
  {
    if c.height == 0 then Tip(c.left)
    else Inner(seq(k, j requires 0 <= j < k => Perfect(k, Child(k, c, j))))
  }

  function Perfects(k: Arity, cs: seq<Coord>): (r: seq<Shape>)
    ensures |r| == |cs|
    ensures forall i :: 0 <= i < |cs| ==> r[i] == Perfect(k, cs[i])
  {
    seq(|cs|, i requires 0 <= i < |cs| => Perfect(k, cs[i]))
  }

  lemma PerfectUnfold(k: Arity, c: Coord)
    requires c.height > 0
    ensures Perfect(k, c) == Inner(Perfects(k, Children(k, c)))
  {
    hide Child;
    assert seq(k, j requires 0 <= j < k => Perfect(k, Child(k, c, j))) == Perfects(k, Children(k, c));
  }

  /** The shape over `n` leaves; there is none over no leaves or outside the arity range. */
  function Build(n: nat, k: nat): (s: Option<Shape>)
    ensures s.Some? <==> 2 <= k <= 256 && n > 0
  {
    if 2 <= k <= 256 && n > 0 then Some(ShapeOf(k, n)) else None
  }

  function ShapeOf(k: Arity, n: nat): Shape
    requires n > 0
  {
    FrontierInit(k, n);
    Fold(Perfects(k, Frontier(k, n)), k, MkInner)
  }

  /** The loop form: decompose, map, fold. */
  method BuildShape(size: nat, k: nat) returns (s: Option<Shape>)
    requires size <= U64_MAX
    ensures s == Build(size, k)
  {
    hide Frontier, Perfect, Fold;
    if !(2 <= k <= 256) || size == 0 {
      return None;
    }
    var ar: Arity := k;
    var coords := FrontierForSize(size, ar);
    FrontierInit(ar, size);
    var folded := FoldFrontier(Perfects(ar, coords), ar, MkInner);
    s := Some(folded);
  }

  // ------------------------------------------------------------------ intervals

  function Leftmost(s: Shape): nat {
    match s
    case Tip(i) => i
    case Inner(cs) => if |cs| == 0 then 0 else Leftmost(cs[0])
  }

  function Rightmost(s: Shape): nat {
    match s
    case Tip(i) => i
    case Inner(cs) => if |cs| == 0 then 0 else Rightmost(cs[|cs| - 1])
  }

  predicate Covers(s: Shape, i: nat) { Leftmost(s) <= i <= Rightmost(s) }

  /** Hashing nodes over tips that run without a gap, left to right. */
  ghost predicate Contiguous(s: Shape) {
    s.Inner? ==>
      && 2 <= |s.children| <= 256
      && (forall c :: c in s.children ==> Contiguous(c))
      && Abut(s.children)
  }

  ghost predicate Abut(cs: seq<Shape>) {
    forall i, j :: 0 <= i < j < |cs| && j == i + 1 ==> Leftmost(cs[j]) == Rightmost(cs[i]) + 1
  }

  /** Shapes that abut, taken together. */
  lemma {:induction false} AbutOrder(cs: seq<Shape>, i: nat, j: nat)
    requires Abut(cs) && i <= j < |cs| && (forall c :: c in cs ==> Leftmost(c) <= Rightmost(c))
    ensures Leftmost(cs[i]) <= Leftmost(cs[j]) && Rightmost(cs[i]) <= Rightmost(cs[j])
    ensures i < j ==> Rightmost(cs[i]) < Leftmost(cs[j])
    decreases j - i
  {
    if i < j {
      AbutOrder(cs, i, j - 1);
      assert cs[j] in cs && cs[j - 1] in cs;
    }
  }

  lemma {:induction false} Interval(s: Shape)
    requires Contiguous(s)
    ensures Leftmost(s) <= Rightmost(s)
    decreases s
  {
    if s.Inner? {
      forall c | c in s.children
        ensures Leftmost(c) <= Rightmost(c)
      {
        Interval(c);
      }
      AbutOrder(s.children, 0, |s.children| - 1);
    }
  }

  /** A child's interval is a proper part of its parent's, and apart from its siblings'. */
  lemma ChildInterval(s: Shape, j: nat)
    requires Contiguous(s) && s.Inner? && j < |s.children|
    ensures Contiguous(s.children[j])
    ensures Leftmost(s) <= Leftmost(s.children[j]) <= Rightmost(s.children[j]) <= Rightmost(s)
    ensures Leftmost(s) < Leftmost(s.children[j]) || Rightmost(s.children[j]) < Rightmost(s)
    ensures forall g :: 0 <= g < |s.children| && g != j ==>
              Rightmost(s.children[g]) < Leftmost(s.children[j]) || Rightmost(s.children[j]) < Leftmost(s.children[g])
  {
    var cs := s.children;
    assert cs[j] in cs;
    forall c | c in cs
      ensures Leftmost(c) <= Rightmost(c)
    {
      Interval(c);
    }
    AbutOrder(cs, 0, j);
    AbutOrder(cs, j, |cs| - 1);
    AbutOrder(cs, 0, |cs| - 1);
    forall g | 0 <= g < |cs| && g != j
      ensures Rightmost(cs[g]) < Leftmost(cs[j]) || Rightmost(cs[j]) < Leftmost(cs[g])
    {
      if g < j {
        AbutOrder(cs, g, j);
      } else {
        AbutOrder(cs, j, g);
      }
    }
  }

  /** Covering a position is holding its tip, so position tests find the one child that does. */
  lemma {:induction false} CoversIsHolds(s: Shape, i: nat)
    requires Contiguous(s)
    ensures Covers(s, i) <==> Holds(s, i)
    decreases s
  {
    if s.Inner? {
      var cs := s.children;
      forall j | 0 <= j < |cs|
        ensures Covers(cs[j], i) <==> Holds(cs[j], i)
        ensures Covers(cs[j], i) ==> Covers(s, i)
      {
        ChildInterval(s, j);
        assert cs[j] in cs;
        CoversIsHolds(cs[j], i);
      }
      if Covers(s, i) {
        CoveredBy(cs, i, |cs| - 1);
      }
    }
  }

  lemma {:induction false} CoveredBy(cs: seq<Shape>, i: nat, j: nat)
    requires Abut(cs) && j < |cs| && Leftmost(cs[0]) <= i <= Rightmost(cs[j])
    ensures exists g :: 0 <= g <= j && Covers(cs[g], i)
    decreases j
  {
    if Leftmost(cs[j]) <= i {
      assert Covers(cs[j], i);
    } else {
      CoveredBy(cs, i, j - 1);
    }
  }

  lemma ContiguousHashes(s: Shape)
    requires Contiguous(s)
    ensures Hashing(s)
  {
  }

  /** Adjacent subtrees give adjacent shapes. */
  lemma {:induction false} PerfectSpan(k: Arity, c: Coord)
    ensures Contiguous(Perfect(k, c))
    ensures Leftmost(Perfect(k, c)) == c.left && Rightmost(Perfect(k, c)) == End(k, c) - 1
    decreases c.height
  {
    hide Times, Child, Contiguous;
    if c.height > 0 {
      PerfectUnfold(k, c);
      var cs := Children(k, c);
      forall j | 0 <= j < k
        ensures Contiguous(Perfect(k, cs[j]))
        ensures Leftmost(Perfect(k, cs[j])) == cs[j].left && Rightmost(Perfect(k, cs[j])) == End(k, cs[j]) - 1
      {
        ChildHeight(k, c, j);
        PerfectSpan(k, cs[j]);
      }
      ChildrenAbut(k, c);
      InnerContiguous(Perfects(k, cs));
    } else {
      TipContiguous(c.left);
      assert End(k, c) == c.left + 1;
    }
  }

  lemma TipContiguous(i: nat)
    ensures Contiguous(Tip(i))
  {
  }

  lemma InnerContiguous(cs: seq<Shape>)
    requires 2 <= |cs| <= 256 && Abut(cs) && forall i :: 0 <= i < |cs| ==> Contiguous(cs[i])
    ensures Contiguous(Inner(cs))
  {
  }

  lemma ChildHeight(k: Arity, c: Coord, j: nat)
    requires c.height > 0
    ensures Child(k, c, j).height == c.height - 1
  {
  }

  lemma ChildrenAbut(k: Arity, c: Coord)
    requires c.height > 0
    ensures forall i, j :: 0 <= i < j < k && j == i + 1 ==> Children(k, c)[j].left == End(k, Children(k, c)[i])
    ensures Children(k, c)[0].left == c.left && End(k, Children(k, c)[k - 1]) == End(k, c)
  {
    var p := Pow(k, c.height - 1);
    PowSucc(k, c.height - 1);
    TimesComm(k, p);
    TimesSucc(p, k - 1);
    forall i, j | 0 <= i < j < k && j == i + 1
      ensures Children(k, c)[j].left == End(k, Children(k, c)[i])
    {
      TimesSucc(p, i);
    }
  }

  /** Grouping keeps shapes contiguous and end to end. */
  lemma {:induction false} FoldContiguous(items: seq<Shape>, k: Arity)
    requires |items| > 0 && Abut(items) && forall i :: 0 <= i < |items| ==> Contiguous(items[i])
    ensures Contiguous(Fold(items, k, MkInner))
    ensures Leftmost(Fold(items, k, MkInner)) == Leftmost(items[0])
    ensures Rightmost(Fold(items, k, MkInner)) == Rightmost(items[|items| - 1])
    decreases |items|
  {
    FoldUnfold(items, k, MkInner);
    if |items| > k {
      var split := |items| - k;
      var group := items[split..];
      InnerContiguous(group);
      var rest := items[..split] + [MkInner(group)];
      assert Abut(rest) by { assert items[split - 1] == rest[split - 1] && group[0] == items[split]; }
      hide Contiguous, Fold, Abut;
      FoldContiguous(rest, k);
    } else if |items| > 1 {
      InnerContiguous(items);
    }
  }

  lemma ShapeSpans(k: Arity, n: nat)
    requires n > 0
    ensures Contiguous(ShapeOf(k, n)) && Leftmost(ShapeOf(k, n)) == 0 && Rightmost(ShapeOf(k, n)) == n - 1
  {
    hide Frontier, Perfect, Contiguous, Fold, Aligned;
    var cs := Frontier(k, n);
    FrontierInit(k, n);
    FrontierTiles(k, n);
    forall i | 0 <= i < |cs|
      ensures Contiguous(Perfect(k, cs[i]))
      ensures Leftmost(Perfect(k, cs[i])) == cs[i].left && Rightmost(Perfect(k, cs[i])) == End(k, cs[i]) - 1
    {
      PerfectSpan(k, cs[i]);
    }
    FoldContiguous(Perfects(k, cs), k);
  }

  // ------------------------------------------------------------------ one commitment

  /** A perfect shape evaluates to its block. */
  lemma {:induction false} PerfectIsBlock(h: Hasher, k: Arity, cells: seq<Digest>, c: Coord)
    ensures Eval(h, cells, Perfect(k, c)) == Block(h, k, cells, c)
    decreases c.height
  {
    hide NaryMr, Child, At;
    if c.height > 0 {
      PerfectUnfold(k, c);
      BlockUnfold(h, k, cells, c);
      var cs := Children(k, c);
      forall j | 0 <= j < k
        ensures Eval(h, cells, Perfect(k, cs[j])) == Block(h, k, cells, cs[j])
      {
        ChildHeight(k, c, j);
        PerfectIsBlock(h, k, cells, cs[j]);
      }
      assert EvalAll(h, cells, Perfects(k, cs)) == BlockAll(h, k, cells, cs);
    }
  }

  /** The mutable tree's bag: the fold of the peaks themselves. */
  method RebalancedBag(h: Hasher, peaks: seq<Digest>, k: Arity) returns (root: Digest)
    ensures root == BagPeaks(h, peaks, k)
  {
    hide Eval, Fold;
    if peaks == [] {
      return h.empty;
    }
    BagIsFold(h, peaks, k);
    root := FoldFrontier(peaks, k, Mr(h));
  }

  /**
   One commitment: evaluating the mutable tree's shape, bagging the log's peaks, and
   folding the peaks directly give the same root.
   */
  lemma SameCommitment(h: Hasher, k: Arity, cells: seq<Digest>, n: nat)
    requires n > 0
    ensures Eval(h, cells, ShapeOf(k, n)) == MemberRoot(h, k, cells, n)
    ensures |Peaks(h, k, cells, n)| > 0 && MemberRoot(h, k, cells, n) == Fold(Peaks(h, k, cells, n), k, Mr(h))
  {
    hide Eval, Fold, Frontier, Perfect, Block;
    FrontierInit(k, n);
    var cs := Frontier(k, n);
    EvalFold(h, cells, Perfects(k, cs), k);
    forall i | 0 <= i < |cs|
      ensures Eval(h, cells, Perfect(k, cs[i])) == Block(h, k, cells, cs[i])
    {
      PerfectIsBlock(h, k, cells, cs[i]);
    }
    assert EvalAll(h, cells, Perfects(k, cs)) == Peaks(h, k, cells, n);
    BagIsFold(h, Peaks(h, k, cells, n), k);
  }

  function SubstWith(gs: seq<Shape>): Shape -> Shape { (s: Shape) => Subst(gs, s) }

  /** The shape is the bag with each peak opened up into its perfect subtree. */
  lemma ShapeIsOpenedBag(k: Arity, n: nat)
    requires n > 0
    ensures |Frontier(k, n)| > 0 && ShapeOf(k, n) == Subst(Perfects(k, Frontier(k, n)), BagShape(k, |Frontier(k, n)|))
  {
    hide Frontier, Perfect, Fold;
    FrontierInit(k, n);
    var gs := Perfects(k, Frontier(k, n));
    var phi := SubstWith(gs);
    forall xs: seq<Shape> | |xs| >= 2
      ensures phi(MkInner(xs)) == MkInner(MapSeq(xs, phi))
    {
      assert MapSeq(xs, phi) == SubstAll(gs, xs);
    }
    FoldMap(PeakTips(|gs|), k, MkInner, MkInner, phi);
    assert MapSeq(PeakTips(|gs|), phi) == gs;
  }

  /** Inside a perfect subtree the path leaves each node by a base-k digit. */
  lemma {:induction false} PerfectSkeleton(k: Arity, i: nat, h: nat)
    ensures Holds(Perfect(k, Anc(k, i, h)), i)
    ensures SkeletonTo(Perfect(k, Anc(k, i, h)), i) == DigitSteps(k, i, 0, h)
    decreases h
  {
    hide Times, Child, Contiguous, Anc, Digit, Perfect;
    var c := Anc(k, i, h);
    PerfectSpan(k, c);
    AncContains(k, i, h);
    CoversIsHolds(Perfect(k, c), i);
    if h > 0 {
      PerfectSkeleton(k, i, h - 1);
      PerfectUnfold(k, c);
      AncChild(k, i, h - 1);
      var cs := Perfects(k, Children(k, c));
      PerfectBranch(k, i, h);
      SkeletonUnfold(cs, i);
      DigitsSnoc(k, i, h);
    } else {
      assert c == Coord(i, 0) by { AncLeaf(k, i); }
      PerfectLeaf(k, i);
    }
  }

  lemma AncLeaf(k: Arity, i: nat)
    ensures Anc(k, i, 0) == Coord(i, 0)
  {
  }

  lemma PerfectLeaf(k: Arity, i: nat)
    ensures Perfect(k, Coord(i, 0)) == Tip(i) && SkeletonTo(Tip(i), i) == [] == DigitSteps(k, i, 0, 0)
  {
  }

  lemma DigitsSnoc(k: Arity, i: nat, h: nat)
    requires h > 0
    ensures DigitSteps(k, i, 0, h) == DigitSteps(k, i, 0, h - 1) + [SkeletonStep(Digit(k, i, h - 1), k - 1)]
  {
  }

  lemma PerfectBranch(k: Arity, i: nat, h: nat)
    requires h > 0 && Holds(Inner(Perfects(k, Children(k, Anc(k, i, h)))), i)
    requires Holds(Perfect(k, Anc(k, i, h - 1)), i)
    ensures Branch(Perfects(k, Children(k, Anc(k, i, h))), i) == Digit(k, i, h - 1)
  {
    hide Times, Child, Contiguous, Anc, Digit, Perfect, Holds;
    var c := Anc(k, i, h);
    var cs, d := Perfects(k, Children(k, c)), Digit(k, i, h - 1);
    AncChild(k, i, h - 1);
    PerfectUnfold(k, c);
    PerfectSpan(k, c);
    var j := Branch(cs, i);
    ChildInterval(Perfect(k, c), d);
    ChildInterval(Perfect(k, c), j);
    CoversIsHolds(cs[d], i);
    CoversIsHolds(cs[j], i);
  }

  /** Both topologies pin a leaf's proof to the same skeleton. */
  lemma SameSkeleton(k: Arity, n: nat, i: nat)
    requires i < n
    ensures Holds(ShapeOf(k, n), i) && SkeletonTo(ShapeOf(k, n), i) == Skeleton(k, n, i)
  {
    hide Frontier, Perfect, MountainOf, BagShape, SkeletonTo, Holds, Anc, DigitSteps, Subst;
    ShapeIsOpenedBag(k, n);
    MountainIsAnc(k, n, i);
    var f := MountainOf(k, n, i);
    var gs := Perfects(k, Frontier(k, n));
    PerfectsOnly(k, n, i);
    BagHolds(k, |gs|, f);
    SkeletonSubst(gs, BagShape(k, |gs|), f, i);
    PerfectSkeleton(k, i, HeightOf(k, n, i));
  }

  lemma PerfectsOnly(k: Arity, n: nat, i: nat)
    requires i < n
    ensures OnlyIn(Perfects(k, Frontier(k, n)), MountainOf(k, n, i), i)
  {
    hide Frontier, Perfect, MountainOf, Contiguous, Holds;
    MountainContains(k, n, i);
    var gs := Perfects(k, Frontier(k, n));
    forall u | 0 <= u < |gs|
      ensures Holds(gs[u], i) <==> u == MountainOf(k, n, i)
    {
      MountainUnique(k, n, i, u);
      PerfectSpan(k, Frontier(k, n)[u]);
      CoversIsHolds(gs[u], i);
    }
  }

  /** The descent by position tests, pushing one step per inner node crossed. */
  method DescendSkeleton(node: Shape, index: nat, out: seq<SkeletonStep>) returns (steps: seq<SkeletonStep>)
    requires Contiguous(node) && Holds(node, index)
    ensures steps == out + Reverse(SkeletonTo(node, index))
    decreases node
  {
    hide Contiguous;
    match node
    case Tip(_) => steps := out;
    case Inner(children) =>
      var position := FirstCovering(node, children, index);
      assert Contiguous(children[position]) by { ChildInterval(node, position); }
      SkeletonUnfold(children, index);
      ReverseSnoc(SkeletonTo(children[position], index), SkeletonStep(position, |children| - 1));
      steps := DescendSkeleton(children[position], index, out + [SkeletonStep(position, |children| - 1)]);
  }

  /** The first child whose interval covers the position: the one that holds the tip. */
  method FirstCovering(node: Shape, children: seq<Shape>, index: nat) returns (position: nat)
    requires node == Inner(children) && Contiguous(node) && Holds(node, index)
    ensures position < |children| && position == Branch(children, index)
  {
    hide Contiguous, Covers;
    forall j | 0 <= j < |children|
      ensures Covers(children[j], index) <==> Holds(children[j], index)
    {
      ChildInterval(node, j);
      CoversIsHolds(children[j], index);
    }
    position := 0;
    while !Covers(children[position], index)
      invariant position < |children| && forall g :: 0 <= g < position ==> !Holds(children[g], index)
      decreases |children| - position
    {
      var j :| 0 <= j < |children| && Holds(children[j], index);
      position := position + 1;
    }
  }

  /** The mutable tree's skeleton is the log's. */
  method RebalancedSkeleton(size: nat, k: nat, index: nat) returns (r: Option<seq<SkeletonStep>>)
    requires size <= U64_MAX
    ensures r == SkeletonFor(k, size, index)
  {
    hide Contiguous, Holds, SkeletonTo, Skeleton;
    if index >= size {
      return None;
    }
    var shape := BuildShape(size, k);
    if shape.None? {
      return None;
    }
    ShapeSpans(k, size);
    SameSkeleton(k, size, index);
    var steps := DescendSkeleton(shape.value, index, []);
    assert steps == Reverse(SkeletonTo(shape.value, index));
    ReverseTwice(SkeletonTo(shape.value, index));
    r := Some(Reverse(steps));
  }
}

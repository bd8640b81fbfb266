/**
 The append-only commitment: how frontier peaks bag into one root, the inclusion
 skeleton that pins a proof, and the digests of perfect subtrees.
 */
module Mountain {
  import opened Base
  import opened Topology
  import opened Spine
  import opened Shapes

  // ------------------------------------------------------------------ the bag

  function PeakTips(count: nat): (r: seq<Shape>)
    ensures |r| == count
    ensures forall i :: 0 <= i < count ==> r[i] == Tip(i)
  {
    seq(count, i requires 0 <= i => Tip(i))
  }

  function BagShape(k: Arity, count: nat): Shape
    requires count > 0
  {
    Fold(PeakTips(count), k, MkInner)
  }

  /** Bags a frontier's peaks into the member root. */
  function BagPeaks(h: Hasher, peaks: seq<Digest>, k: Arity): Digest {
    if |peaks| == 0 then h.empty else Eval(h, peaks, BagShape(k, |peaks|))
  }

  function Mr(h: Hasher): seq<Digest> -> Digest { (ds: seq<Digest>) => NaryMr(h, ds) }

  function EvalWith(h: Hasher, tips: seq<Digest>): Shape -> Digest { (s: Shape) => Eval(h, tips, s) }

  /** Evaluating the bag shape is folding the digests directly. */
  lemma EvalFold(h: Hasher, tips: seq<Digest>, items: seq<Shape>, k: Arity)
    requires |items| > 0
    ensures Eval(h, tips, Fold(items, k, MkInner)) == Fold(EvalAll(h, tips, items), k, Mr(h))
  {
    var phi := EvalWith(h, tips);
    forall xs: seq<Shape> | |xs| >= 2
      ensures phi(MkInner(xs)) == Mr(h)(MapSeq(xs, phi))
    {
      assert MapSeq(xs, phi) == EvalAll(h, tips, xs);
    }
    FoldMap(items, k, MkInner, Mr(h), phi);
    assert MapSeq(items, phi) == EvalAll(h, tips, items);
  }

  lemma BagOfOne(h: Hasher, k: Arity, d: Digest)
    ensures BagPeaks(h, [d], k) == d
  {
  }

  lemma BagIsFold(h: Hasher, peaks: seq<Digest>, k: Arity)
    requires |peaks| > 0
    ensures BagPeaks(h, peaks, k) == Fold(peaks, k, Mr(h))
  {
    EvalFold(h, peaks, PeakTips(|peaks|), k);
    assert EvalAll(h, peaks, PeakTips(|peaks|)) == peaks;
  }

  /** The fold's inner nodes have between two and `k` children over the given items. */
  lemma {:induction false} FoldHashing(items: seq<Shape>, k: Arity, n: nat)
    requires |items| > 0
    requires forall s :: s in items ==> Hashing(s) && TipsBelow(s, n)
    ensures Hashing(Fold(items, k, MkInner)) && TipsBelow(Fold(items, k, MkInner), n)
    decreases |items|
  {
    if |items| > k {
      FoldHashing(items[..|items| - k] + [Inner(items[|items| - k..])], k, n);
    }
  }

  lemma {:induction false} FoldHolds(items: seq<Shape>, k: Arity, t: nat, i: nat)
    requires OnlyIn(items, t, i)
    ensures Holds(Fold(items, k, MkInner), i)
    ensures |SkeletonTo(Fold(items, k, MkInner), i)|
         == |SkeletonTo(items[t], i)| + FoldDepth(k, |items|, t)
    decreases |items|
  {
    FoldUnfold(items, k, MkInner);
    DepthUnfold(k, |items|, t);
    hide *;
    if |items| > k {
      var split := |items| - k;
      Grouped(items, split, t, i);
      FoldHolds(items[..split] + [MkInner(items[split..])], k, if t < split then t else split, i);
    } else if |items| > 1 {
      MkInnerIs(items);
      GroupHolds(items, t, i);
    }
  }

  lemma MkInnerIs(cs: seq<Shape>)
    ensures MkInner(cs) == Inner(cs)
  {
  }

  /** After grouping a tail, tip `i` is in the group or where it was. */
  lemma Grouped(items: seq<Shape>, split: nat, t: nat, i: nat)
    requires OnlyIn(items, t, i) && split <= |items|
    ensures var rest, t' := items[..split] + [MkInner(items[split..])], if t < split then t else split;
            OnlyIn(rest, t', i) && Holds(items[t], i) && Holds(rest[t'], i) &&
            |SkeletonTo(rest[t'], i)| == |SkeletonTo(items[t], i)| + (if t < split then 0 else 1)
  {
    var rest := items[..split] + [Inner(items[split..])];
    assert Holds(items[t], i);
    if t < split {
      GroupLacks(items, split, i);
      assert rest[t] == items[t];
    } else {
      GroupHolds(items[split..], t - split, i);
      assert rest[split] == Inner(items[split..]);
    }
    hide SkeletonTo, Holds;
  }

  lemma DepthUnfold(k: Arity, count: nat, j: nat)
    requires j < count
    ensures FoldDepth(k, count, j) ==
              if count == 1 then 0
              else if count <= k then 1
              else if j < count - k then FoldDepth(k, count - k + 1, j)
              else 1 + FoldDepth(k, count - k + 1, count - k)
  {
  }

  lemma GroupHolds(items: seq<Shape>, t: nat, i: nat)
    requires OnlyIn(items, t, i)
    ensures Holds(Inner(items), i)
    ensures |SkeletonTo(Inner(items), i)| == |SkeletonTo(items[t], i)| + 1
  {
    assert Holds(items[t], i);
    SkeletonUnfold(items, i);
  }

  lemma GroupLacks(items: seq<Shape>, split: nat, i: nat)
    requires split <= |items|
    requires forall u :: split <= u < |items| ==> !Holds(items[u], i)
    ensures !Holds(Inner(items[split..]), i)
  {
  }

  /** How many bag nodes lie above item `j` of `count`. */
  function FoldDepth(k: Arity, count: nat, j: nat): nat
    requires j < count
    decreases count
  {
    if count == 1 then 0
    else if count <= k then 1
    else if j < count - k then FoldDepth(k, count - k + 1, j)
    else 1 + FoldDepth(k, count - k + 1, count - k)
  }

  lemma {:induction false} LastDepth(k: Arity, count: nat, d: nat)
    requires 0 < count <= 1 + Times(k - 1, d)
    ensures FoldDepth(k, count, count - 1) <= d
    decreases count
  {
    if count > k {
      LastDepth(k, count - k + 1, d - 1);
    }
  }

  lemma {:induction false} DepthBound(k: Arity, count: nat, j: nat, d: nat)
    requires j < count && j <= Times(k - 1, d)
    ensures FoldDepth(k, count, j) <= d + 1
    decreases count
  {
    if count > k {
      if j < count - k {
        DepthBound(k, count - k + 1, j, d);
      } else {
        LastDepth(k, count - k + 1, d);
      }
    }
  }

  // ------------------------------------------------------------------ the skeleton

  function NumDigits(k: Arity, n: nat): nat
    decreases n
  {
    if n == 0 then 0 else 1 + NumDigits(k, Quot(k, n))
  }

  lemma {:induction false} FrontierSize(k: Arity, n: nat)
    ensures |Frontier(k, n)| <= Times(k - 1, NumDigits(k, n))
    decreases n
  {
    hide Times, Quot;
    if n > 0 {
      FrontierSize(k, Quot(k, n));
      TimesSucc(k - 1, NumDigits(k, Quot(k, n)));
    }
  }

  /** Mountains far to the right are low: index and height trade off. */
  lemma {:induction false} MountainIndex(k: Arity, n: nat, i: nat)
    requires i < n
    ensures MountainOf(k, n, i) < |Frontier(k, n)|
    ensures var f := MountainOf(k, n, i);
            Frontier(k, n)[f].height <= NumDigits(k, n) &&
            f <= Times(k - 1, NumDigits(k, n) - Frontier(k, n)[f].height)
    decreases n
  {
    hide Times, Quot;
    QuotMono(k, i, n);
    MountainContains(k, n, i);
    if Quot(k, i) == Quot(k, n) {
      FrontierSize(k, Quot(k, n));
      TimesSucc(k - 1, NumDigits(k, Quot(k, n)));
    } else {
      MountainIndex(k, Quot(k, n), Quot(k, i));
    }
  }

  function Two(b: nat): nat { if b == 0 then 1 else 2 * Two(b - 1) }

  lemma {:induction false} TwoSum(a: nat, b: nat)
    ensures Two(a + b) == Two(a) * Two(b)
  {
    if b > 0 {
      TwoSum(a, b - 1);
    }
  }

  lemma {:induction false} DigitsBound(k: Arity, n: nat, b: nat)
    requires n < Two(b)
    ensures NumDigits(k, n) <= b
    decreases b
  {
    if n > 0 {
      var q := Quot(k, n);
      TimesIs(k, q);
      TimesGap(q, 2, k);
      TimesIs(q, k);
      TimesIs(q, 2);
      assert k * q == q * k;
      DigitsBound(k, q, b - 1);
    }
  }

  lemma TwoWord()
    ensures Two(64) == U64_MAX + 1
  {
    assert Two(4) == 16;
    hide Two;
    Doubling(4, 16);
    Doubling(8, 256);
    Doubling(16, 0x1_0000);
    Doubling(32, 0x1_0000_0000);
  }

  lemma Doubling(b: nat, v: nat)
    requires Two(b) == v
    ensures Two(b + b) == v * v
  {
    TwoSum(b, b);
  }

  lemma DigitsOfWord(k: Arity, n: nat)
    requires n <= U64_MAX
    ensures NumDigits(k, n) <= 64
  {
    hide *;
    TwoWord();
    DigitsBound(k, n, 64);
  }

  /** The steps inside the mountain: one base-k digit of the leaf index each. */
  function DigitSteps(k: Arity, i: nat, lo: nat, hi: nat): (r: seq<SkeletonStep>)
    requires lo <= hi
    ensures |r| == hi - lo
  {
    seq(hi - lo, g requires 0 <= g => SkeletonStep(Digit(k, i, lo + g), k - 1))
  }

  function HeightOf(k: Arity, n: nat, i: nat): nat
    requires i < n
  {
    MountainContains(k, n, i);
    Frontier(k, n)[MountainOf(k, n, i)].height
  }

  /** The inclusion skeleton of leaf `i` in a log of `n` leaves. */
  function Skeleton(k: Arity, n: nat, i: nat): seq<SkeletonStep>
    requires i < n
  {
    MountainContains(k, n, i);
    BagHolds(k, |Frontier(k, n)|, MountainOf(k, n, i));
    DigitSteps(k, i, 0, HeightOf(k, n, i))
      + SkeletonTo(BagShape(k, |Frontier(k, n)|), MountainOf(k, n, i))
  }

  lemma BagHolds(k: Arity, count: nat, f: nat)
    requires f < count
    ensures var s := BagShape(k, count);
            Holds(s, f) && Hashing(s) && TipsBelow(s, count) &&
            |SkeletonTo(s, f)| == FoldDepth(k, count, f)
  {
    var tips := PeakTips(count);
    FoldHashing(tips, k, count);
    FoldHolds(tips, k, f, f);
  }

  /** A skeleton never has more than `floor(log_k n) + 2` steps. */
  lemma SkeletonLength(k: Arity, n: nat, i: nat)
    requires i < n
    ensures |Skeleton(k, n, i)| <= NumDigits(k, n) + 1
  {
    hide Times, Quot;
    MountainIndex(k, n, i);
    var f := MountainOf(k, n, i);
    BagHolds(k, |Frontier(k, n)|, f);
    DepthBound(k, |Frontier(k, n)|, f, NumDigits(k, n) - HeightOf(k, n, i));
  }

  function SkeletonFor(k: nat, treeSize: nat, index: nat): Option<seq<SkeletonStep>> {
    if 2 <= k <= 256 && index < treeSize then Some(Skeleton(k, treeSize, index)) else None
  }

  function Reverse<T>(xs: seq<T>): (r: seq<T>)
    ensures |r| == |xs|
  {
    if xs == [] then [] else Reverse(xs[1..]) + [xs[0]]
  }

  lemma {:induction false} ReverseSnoc<T>(xs: seq<T>, x: T)
    ensures Reverse(xs + [x]) == [x] + Reverse(xs)
  {
    if xs == [] {
      assert [x][1..] == [];
    } else {
      assert (xs + [x])[1..] == xs[1..] + [x];
      ReverseSnoc(xs[1..], x);
    }
  }

  /** Walks from the root of the bag to a peak, pushing one step per node crossed. */
  method DescendBag(node: Shape, target: nat, out: seq<SkeletonStep>)
    returns (found: bool, steps: seq<SkeletonStep>)
    ensures found == Holds(node, target)
    ensures found ==> steps == out + Reverse(SkeletonTo(node, target))
    ensures !found ==> steps == out
  {
    match node
    case Tip(idx) =>
      found, steps := idx == target, out;
    case Inner(children) =>
      var position := 0;
      while position < |children| && !Holds(children[position], target)
        invariant position <= |children|
        invariant forall g :: 0 <= g < position ==> !Holds(children[g], target)
      {
        position := position + 1;
      }
      if position == |children| {
        return false, out;
      }
      assert Branch(children, target) == position;
      ReverseSnoc(SkeletonTo(children[position], target), SkeletonStep(position, |children| - 1));
      found, steps := DescendBag(children[position], target, out + [SkeletonStep(position, |children| - 1)]);
  }

  /** The low digits of an offset into an aligned subtree are those of the leaf index. */
  lemma {:induction false} OffsetDigits(k: Arity, c: Coord, i: nat, offset: nat, g: nat)
    requires Aligned(k, c) && Contains(k, c, i) && i == c.left + offset && g < c.height
    ensures Digit(k, offset, g) == Digit(k, i, g)
    decreases g
  {
    hide Times, Quot;
    DownUp(k, c);
    UpContains(k, Down(k, c), i);
    var q := Quot(k, offset);
    TimesAdd(k, Quot(k, c.left), q);
    QuotUnique(k, Quot(k, c.left) + q, Rem(k, offset));
    if g > 0 {
      OffsetDigits(k, Down(k, c), Quot(k, i), q, g - 1);
    }
  }

  /** `offset / k^g`, the quotient left after taking `g` digits. */
  function Drop(k: Arity, offset: nat, g: nat): nat {
    if g == 0 then offset else Quot(k, Drop(k, offset, g - 1))
  }

  lemma {:induction false} DropDigit(k: Arity, offset: nat, g: nat)
    ensures Rem(k, Drop(k, offset, g)) == Digit(k, offset, g)
  {
    hide Times, Quot;
    if g > 0 {
      DropShift(k, offset, g);
      DropDigit(k, Quot(k, offset), g - 1);
    }
  }

  lemma {:induction false} DropShift(k: Arity, offset: nat, g: nat)
    requires g > 0
    ensures Drop(k, offset, g) == Drop(k, Quot(k, offset), g - 1)
  {
    if g > 1 {
      DropShift(k, offset, g - 1);
    }
  }

  /** Loop form of the skeleton: locate the mountain, take digits, descend the bag. */
  method MountainSkeleton(k: nat, treeSize: nat, index: nat) returns (r: Option<seq<SkeletonStep>>)
    requires treeSize <= U64_MAX
    ensures r == SkeletonFor(k, treeSize, index)
  {
    hide Contains, Aligned, Quot, Times, MountainOf, Frontier, BagShape, Holds, SkeletonTo;
    if !(2 <= k <= 256) {
      return None;
    }
    var ar: Arity := k;
    var coords := FrontierForSize(treeSize, ar);
    if coords == [] {
      FrontierTiles(ar, treeSize);
      return None;
    }
    var f := FindMountain(ar, treeSize, coords, index);
    if f.None? {
      return None;
    }
    var steps := OffsetSteps(ar, coords[f.value], index);
    var shape := BagShape(ar, |coords|);
    BagHolds(ar, |coords|, f.value);
    var found, down := DescendBag(shape, f.value, []);
    assert down == Reverse(SkeletonTo(shape, f.value));
    ReverseTwice(SkeletonTo(shape, f.value));
    r := Some(steps + Reverse(down));
  }

  /** The digit loop: the low digits of the offset into the mountain. */
  method OffsetSteps(k: Arity, c: Coord, index: nat) returns (steps: seq<SkeletonStep>)
    requires Contains(k, c, index) && Aligned(k, c)
    ensures steps == DigitSteps(k, index, 0, c.height)
  {
    hide Times, Quot, Aligned, Digit;
    steps := [];
    var offset := index - c.left;
    ghost var start := offset;
    for g := 0 to c.height
      invariant offset == Drop(k, start, g)
      invariant steps == DigitSteps(k, index, 0, g)
    {
      OffsetDigits(k, c, index, start, g);
      DropDigit(k, start, g);
      QuotIs(k, offset);
      steps := steps + [SkeletonStep(offset % k, k - 1)];
      offset := offset / k;
    }
  }

  lemma {:induction false} ReverseTwice<T>(xs: seq<T>)
    ensures Reverse(Reverse(xs)) == xs
  {
    if xs != [] {
      ReverseSnoc(Reverse(xs[1..]), xs[0]);
      ReverseTwice(xs[1..]);
    }
  }

  /** The first frontier subtree that holds `index`, if any. */
  method FindMountain(k: Arity, n: nat, coords: seq<Coord>, index: nat) returns (f: Option<nat>)
    requires coords == Frontier(k, n)
    ensures f.None? <==> index >= n
    ensures f.Some? ==> f.value < |coords| && f.value == MountainOf(k, n, index)
    ensures f.Some? ==> Contains(k, coords[f.value], index) && Aligned(k, coords[f.value])
  {
    FrontierTiles(k, n);
    for g := 0 to |coords|
      invariant forall u :: 0 <= u < g ==> !Contains(k, coords[u], index)
    {
      if coords[g].left <= index < coords[g].left + Pow(k, coords[g].height) {
        TilesOrdered(k, coords, n, g, g);
        MountainUnique(k, n, index, g);
        return Some(g);
      }
    }
    if index < n {
      MountainContains(k, n, index);
    }
    f := None;
  }

  /** A shape over equal tips collapses to their value. */
  lemma {:induction false} EvalConstant(h: Hasher, tips: seq<Digest>, s: Shape, v: Digest)
    requires Hashing(s) && TipsBelow(s, |tips|) && forall i :: 0 <= i < |tips| ==> tips[i] == v
    ensures Eval(h, tips, s) == v
    decreases s
  {
    if s.Inner? {
      forall c | c in s.children
        ensures Eval(h, tips, c) == v
      {
        EvalConstant(h, tips, c, v);
      }
      hide Eval, Hashing, TipsBelow;
      var ds := EvalAll(h, tips, s.children);
      forall j | 0 <= j < |ds|
        ensures ds[j] == v
      {
        assert s.children[j] in s.children;
      }
      EvalInner(h, tips, s);
    }
  }

  lemma EvalInner(h: Hasher, tips: seq<Digest>, s: Shape)
    requires s.Inner?
    ensures Eval(h, tips, s) == NaryMr(h, EvalAll(h, tips, s.children))
  {
  }

  lemma BagConstant(h: Hasher, k: Arity, peaks: seq<Digest>, v: Digest)
    requires |peaks| > 0 && forall i :: 0 <= i < |peaks| ==> peaks[i] == v
    ensures BagPeaks(h, peaks, k) == v
  {
    BagHolds(k, |peaks|, 0);
    hide Eval, BagShape, Holds, Hashing, TipsBelow;
    EvalConstant(h, peaks, BagShape(k, |peaks|), v);
  }
}

/**
 One algorithm's tree over the shared store: the frontier carry, node reads, proof
 generation, and the two ways a frontier is read back.
 */
module Engine {
  import opened Base
  import opened Topology
  import opened Spine
  import opened Shapes
  import opened Mountain
  import opened Blocks
  import opened Consistency
  import opened Epochs
  import opened Storage

  datatype LogKind = Flat | SubtreeKind

  datatype Error =
    | Corrupted(alg: nat)
    | StorageFailed
    | UnknownAlgorithm(alg: nat)
    | DuplicateAlgorithm(alg: nat)
    | FrozenAlgorithm(alg: nat)
    | AlgorithmActive(alg: nat)
    | NoActiveAlgorithms
    | KindConflict
    | CapacityExceeded
    | IndexOutOfBounds
    | BadArity
    | OrphanedMetadata(alg: nat)
    | UnknownMetadata(alg: nat)
    | ResumeTargetNotFresh

  datatype Result<+T> = Ok(value: T) | Err(error: Error)

  /** One algorithm's continuation state. */
  datatype AlgView = AlgView(hasher: Hasher, epochs: seq<Epoch>, frontier: seq<Digest>, coords: seq<Coord>)

  function ComputeRoot(view: AlgView, k: Arity): Digest { BagPeaks(view.hasher, view.frontier, k) }

  // ------------------------------------------------------------------ what a view means

  /** The view holds the frontier of the algorithm's own tree over `cells`. */
  ghost predicate ViewOk(k: Arity, view: AlgView, cells: seq<Digest>) {
    var t := TreeSize(view.epochs, |cells|);
    && WellFormed(view.epochs, |cells|)
    && t <= |cells|
    && view.coords == Frontier(k, t)
    && view.frontier == Peaks(view.hasher, k, cells, t)
    && forall i :: 0 <= i < |cells| && !ActiveAt(view.epochs, i) ==> cells[i] == Null(view.hasher)
  }

  /** The aligned subtree one level up. */
  function Above(k: Arity, c: Coord): Coord { Anc(k, c.left, c.height + 1) }

  /**
   Subtrees a log that started from a sealed frontier of `base` leaves can know: those
   whose parent was not yet complete then.  With `base == 0` that is every subtree.
   */
  predicate Known(k: Arity, base: nat, c: Coord) { End(k, Above(k, c)) > base }

  /** A subtree of the algorithm's tree. */
  predicate InTree(k: Arity, view: AlgView, n: nat, base: nat, c: Coord) {
    Aligned(k, c) && End(k, c) <= TreeSize(view.epochs, n) && Known(k, base, c)
  }

  /** Some epoch meets the subtree's range; an empty epoch strictly inside counts too. */
  predicate Touched(k: Arity, view: AlgView, c: Coord) { ActiveRange(view.epochs, c.left, End(k, c)) }

  ghost predicate HoldsActive(k: Arity, es: seq<Epoch>, c: Coord) {
    exists i :: Contains(k, c, i) && ActiveAt(es, i)
  }

  /** A subtree that holds an active cell and yet folds to null: the carry does not store it. */
  ghost predicate Masked(k: Arity, view: AlgView, cells: seq<Digest>, c: Coord) {
    c.height > 0 && HoldsActive(k, view.epochs, c) && Block(view.hasher, k, cells, c) == Null(view.hasher)
  }

  /** What must be stored: every touched subtree that is not masked. */
  ghost predicate MustStore(k: Arity, view: AlgView, cells: seq<Digest>, c: Coord) {
    Touched(k, view, c) && !Masked(k, view, cells, c)
  }

  /** The stored nodes of one algorithm are values of its subtrees, and none that matters is missing. */
  ghost predicate NodesOk(
      k: Arity, nodes: map<NodeKey, Digest>, alg: nat, view: AlgView, cells: seq<Digest>, base: nat)
  {
    && (forall c: Coord :: NodeKey(alg, c) in nodes ==>
          Aligned(k, c) && End(k, c) <= TreeSize(view.epochs, |cells|) &&
          nodes[NodeKey(alg, c)] == Block(view.hasher, k, cells, c))
    && (forall c: Coord :: InTree(k, view, |cells|, base, c) && MustStore(k, view, cells, c) ==>
          NodeKey(alg, c) in nodes)
  }

  // ------------------------------------------------------------------ reads

  /** A node read: null off the algorithm's activity, the stored node, or corruption. */
  function GetNodeHash(nodes: map<NodeKey, Digest>, view: AlgView, alg: nat, c: Coord, k: Arity): Result<Digest> {
    if End(k, c) > U64_MAX || !Touched(k, view, c) then Ok(Null(view.hasher))
    else if NodeKey(alg, c) in nodes then Ok(nodes[NodeKey(alg, c)])
    else Err(Corrupted(alg))
  }

  /** The read, when it succeeds, returns the subtree's value. */
  ghost predicate Truthful(
      nodes: map<NodeKey, Digest>, view: AlgView, alg: nat, k: Arity, cells: seq<Digest>, c: Coord)
  {
    var r := GetNodeHash(nodes, view, alg, c, k);
    r.Ok? ==> r.value == Block(view.hasher, k, cells, c)
  }

  predicate Readable(nodes: map<NodeKey, Digest>, view: AlgView, alg: nat, k: Arity, c: Coord) {
    GetNodeHash(nodes, view, alg, c, k).Ok?
  }

  /** No read returns a wrong value, whatever the store is missing. */
  lemma ReadsAreTruthful(
      k: Arity, nodes: map<NodeKey, Digest>, alg: nat, view: AlgView, cells: seq<Digest>, base: nat, c: Coord)
    requires ViewOk(k, view, cells) && NodesOk(k, nodes, alg, view, cells, base)
    requires End(k, c) <= |cells| <= U64_MAX
    ensures Truthful(nodes, view, alg, k, cells, c)
  {
    hide Aligned, Block, Anc, Touched;
    if !Touched(k, view, c) {
      UntouchedBlock(k, view, cells, c);
    }
  }

  /** Every known aligned subtree of the tree reads back, unless it is masked. */
  lemma ReadsSucceed(
      k: Arity, nodes: map<NodeKey, Digest>, alg: nat, view: AlgView, cells: seq<Digest>, base: nat, c: Coord)
    requires ViewOk(k, view, cells) && NodesOk(k, nodes, alg, view, cells, base)
    requires InTree(k, view, |cells|, base, c) && |cells| <= U64_MAX
    ensures !Masked(k, view, cells, c) ==> Readable(nodes, view, alg, k, c)
  {
    hide Aligned, Block, Anc, Touched, Masked;
  }

  /** Where an algorithm's present stretch begins: its last epoch, or the seal if that is later. */
  function Since(es: seq<Epoch>, base: nat): nat {
    if |es| > 0 && es[|es| - 1].start > base then es[|es| - 1].start else base
  }

  /** No stored subtree of more than one leaf that was completed after `since` is null. */
  ghost predicate Lean(k: Arity, nodes: map<NodeKey, Digest>, alg: nat, h: Hasher, since: nat) {
    forall c: Coord :: NodeKey(alg, c) in nodes && c.height > 0 && End(k, c) > since ==>
           nodes[NodeKey(alg, c)] != Null(h)
  }

  /** Never reopened, and nothing of it sealed away. */
  predicate OneEpoch(es: seq<Epoch>, base: nat) { |es| == 1 && es[0].start >= base }

  /**
   A read of a subtree completed in the present stretch fails exactly if it is masked: it
   holds an active cell and yet folds to null.
   */
  lemma ReadsExactly(
      k: Arity, nodes: map<NodeKey, Digest>, alg: nat, view: AlgView, cells: seq<Digest>, base: nat, c: Coord)
    requires ViewOk(k, view, cells) && NodesOk(k, nodes, alg, view, cells, base) && |cells| <= U64_MAX
    requires Lean(k, nodes, alg, view.hasher, Since(view.epochs, base))
    requires Aligned(k, c) && Since(view.epochs, base) < End(k, c) <= TreeSize(view.epochs, |cells|)
    ensures Readable(nodes, view, alg, k, c) <==> !Masked(k, view, cells, c)
  {
    if HoldsActive(k, view.epochs, c) {
      ActiveTouches(k, view, c);
    }
    AboveHolds(k, c);
    hide Aligned, Block, Anc, HoldsActive, Touched;
    ReadsSucceed(k, nodes, alg, view, cells, base, c);
  }

  /** With one epoch nothing before it is touched, so this covers its whole tree. */
  lemma OneEpochReads(
      k: Arity, nodes: map<NodeKey, Digest>, alg: nat, view: AlgView, cells: seq<Digest>, base: nat, c: Coord)
    requires ViewOk(k, view, cells) && NodesOk(k, nodes, alg, view, cells, base) && |cells| <= U64_MAX
    requires OneEpoch(view.epochs, base) && Lean(k, nodes, alg, view.hasher, Since(view.epochs, base))
    requires Aligned(k, c) && End(k, c) <= TreeSize(view.epochs, |cells|)
    ensures Readable(nodes, view, alg, k, c) <==> !Masked(k, view, cells, c)
  {
    if HoldsActive(k, view.epochs, c) {
      ActiveTouches(k, view, c);
    }
    if End(k, c) > Since(view.epochs, base) {
      ReadsExactly(k, nodes, alg, view, cells, base, c);
    }
    hide Aligned, Block, HoldsActive, ViewOk, NodesOk, Lean;
  }

  lemma ActiveTouches(k: Arity, view: AlgView, c: Coord)
    requires HoldsActive(k, view.epochs, c)
    ensures Touched(k, view, c)
  {
  }

  /** The subtree one level up reaches at least as far. */
  lemma AboveHolds(k: Arity, c: Coord)
    requires Aligned(k, c)
    ensures End(k, c) <= End(k, Above(k, c))
  {
    hide Aligned, Anc;
    AncContains(k, c.left, c.height + 1);
    Nested(k, c, Above(k, c), c.left);
  }

  lemma UntouchedCell(k: Arity, view: AlgView, c: Coord, i: nat)
    requires !Touched(k, view, c) && Contains(k, c, i)
    ensures !ActiveAt(view.epochs, i)
  {
  }

  lemma UntouchedBlock(k: Arity, view: AlgView, cells: seq<Digest>, c: Coord)
    requires !Touched(k, view, c) && End(k, c) <= |cells|
    requires forall i :: 0 <= i < |cells| && !ActiveAt(view.epochs, i) ==> cells[i] == Null(view.hasher)
    ensures Block(view.hasher, k, cells, c) == Null(view.hasher)
  {
    hide Block, Touched, ActiveAt;
    forall i | c.left <= i < End(k, c)
      ensures At(cells, i) == Null(view.hasher)
    {
      UntouchedCell(k, view, c, i);
    }
    BlockConstant(view.hasher, k, cells, c, Null(view.hasher));
  }

  /** Reads a list of subtrees, left to right. */
  method ReadPeaks(
      nodes: map<NodeKey, Digest>, view: AlgView, alg: nat, coords: seq<Coord>, k: Arity, ghost cells: seq<Digest>)
    returns (r: Result<seq<Digest>>)
    ensures r.Ok? <==> forall c :: c in coords ==> Readable(nodes, view, alg, k, c)
    ensures r.Ok? ==>
              |r.value| == |coords| &&
              forall j :: 0 <= j < |coords| ==> GetNodeHash(nodes, view, alg, coords[j], k) == Ok(r.value[j])
    ensures r.Ok? && (forall c :: c in coords ==> Truthful(nodes, view, alg, k, cells, c)) ==>
              r.value == BlockAll(view.hasher, k, cells, coords)
  {
    hide Block, Touched;
    var peaks: seq<Digest> := [];
    for n := 0 to |coords|
      invariant |peaks| == n
      invariant forall j :: 0 <= j < n ==> GetNodeHash(nodes, view, alg, coords[j], k) == Ok(peaks[j])
    {
      assert coords[n] in coords;
      var hash := GetNodeHash(nodes, view, alg, coords[n], k);
      if hash.Err? {
        return Err(hash.error);
      }
      peaks := peaks + [hash.value];
    }
    assert forall j :: 0 <= j < |coords| ==> coords[j] in coords;
    r := Ok(peaks);
  }

  /** The subtrees hanging off the path of leaf `i` between two heights. */
  ghost predicate OffPath(k: Arity, i: nat, lo: nat, hi: nat, c: Coord) {
    exists g: nat, j: nat :: lo <= g < hi && IsSibling(k, i, g, j, c)
  }

  /** `c` is child `j`, off the path of leaf `i`, of the subtree above height `g`. */
  predicate IsSibling(k: Arity, i: nat, g: nat, j: nat, c: Coord) {
    j < k && j != Digit(k, i, g) && c == Child(k, Anc(k, i, g + 1), j)
  }

  /** Reads the siblings of one step: every child of `top` but the one on the path. */
  method ReadSiblings(
      nodes: map<NodeKey, Digest>, view: AlgView, alg: nat, top: Coord, childIdx: nat, k: Arity,
      ghost cells: seq<Digest>)
    returns (r: Result<seq<Digest>>)
    requires top.height > 0 && childIdx < k
    requires forall j: nat :: j < k && j != childIdx ==> Truthful(nodes, view, alg, k, cells, Child(k, top, j))
    ensures r.Ok? ==> r.value == Remove(BlockAll(view.hasher, k, cells, Children(k, top)), childIdx)
    ensures r.Ok? <==> forall j: nat :: j < k && j != childIdx ==> Readable(nodes, view, alg, k, Child(k, top, j))
  {
    hide Block, GetNodeHash, Times, Remove, Readable;
    var siblings: seq<Digest> := [];
    ghost var all := BlockAll(view.hasher, k, cells, Children(k, top));
    for j := 0 to k
      invariant siblings == if j <= childIdx then all[..j] else Remove(all, childIdx)[..j - 1]
      invariant forall g: nat :: g < j && g != childIdx ==> Readable(nodes, view, alg, k, Child(k, top, g))
    {
      RemoveNext(all, childIdx, j);
      if j != childIdx {
        var left := top.left + j * Pow(k, top.height - 1);
        TimesIs(Pow(k, top.height - 1), j);
        assert Pow(k, top.height - 1) * j == j * Pow(k, top.height - 1);
        assert Coord(left, top.height - 1) == Child(k, top, j);
        ReadableIs(nodes, view, alg, k, Child(k, top, j));
        var hash := GetNodeHash(nodes, view, alg, Coord(left, top.height - 1), k);
        if hash.Err? {
          return Err(hash.error);
        }
        siblings := siblings + [hash.value];
      }
    }
    assert Remove(all, childIdx)[..k - 1] == Remove(all, childIdx);
    r := Ok(siblings);
  }

  lemma RemoveNext(ds: seq<Digest>, p: nat, j: nat)
    requires p < |ds| && j < |ds|
    ensures j < p ==> ds[..j] + [ds[j]] == ds[..j + 1] && ds[..j + 1] == Remove(ds, p)[..j + 1]
    ensures j > p ==> Remove(ds, p)[..j - 1] + [ds[j]] == Remove(ds, p)[..j]
    ensures Remove(ds, p)[..p] == ds[..p]
  {
  }

  /** The descent from a mountain towards a target, one step per level, root to leaf. */
  method BisectionPath(
      nodes: map<NodeKey, Digest>, view: AlgView, alg: nat, top: Coord, target: nat, targetHeight: nat, k: Arity,
      ghost cells: seq<Digest>)
    returns (r: Result<seq<ProofStep>>)
    requires targetHeight <= top.height && top == Anc(k, target, top.height)
    requires forall c :: OffPath(k, target, targetHeight, top.height, c) ==> Truthful(nodes, view, alg, k, cells, c)
    ensures r.Ok? ==> r.value == PeakPath(view.hasher, k, cells, target, targetHeight, top.height)
    ensures r.Ok? <==> forall c :: OffPath(k, target, targetHeight, top.height, c) ==> Readable(nodes, view, alg, k, c)
  {
    hide Block, Truthful, Readable, PathStep, Digit, Anc, Times, OffPath, Children;
    var path: seq<ProofStep> := [];
    var curr := top;
    OffPathNone(k, target, top.height);
    while curr.height > targetHeight
      invariant targetHeight <= curr.height <= top.height && curr == Anc(k, target, curr.height)
      invariant path == PeakPath(view.hasher, k, cells, target, curr.height, top.height)
      invariant forall c :: OffPath(k, target, curr.height, top.height, c) ==> Readable(nodes, view, alg, k, c)
      decreases curr.height
    {
      ghost var g := curr.height - 1;
      var capacity := Pow(k, curr.height - 1);
      ChildIndex(k, target, g);
      var childIdx := (target - curr.left) / capacity;
      OffPathStep(k, target, targetHeight, g, top.height, curr);
      var siblings := ReadSiblings(nodes, view, alg, curr, childIdx, k, cells);
      if siblings.Err? {
        return Err(siblings.error);
      }
      path := [ProofStep(siblings.value, childIdx)] + path;
      StepIs(view.hasher, k, cells, target, g);
      AncChild(k, target, g);
      TimesIs(capacity, childIdx);
      curr := Coord(curr.left + childIdx * capacity, curr.height - 1);
      OffPathSplit(k, target, g, top.height);
    }
    r := Ok(path);
  }

  lemma StepIs(h: Hasher, k: Arity, cells: seq<Digest>, i: nat, g: nat)
    ensures PathStep(h, k, cells, i, g)
         == ProofStep(Remove(BlockAll(h, k, cells, Children(k, Anc(k, i, g + 1))), Digit(k, i, g)), Digit(k, i, g))
  {
  }

  lemma OffPathSplit(k: Arity, i: nat, g: nat, hi: nat)
    requires g < hi
    ensures forall c :: OffPath(k, i, g, hi, c) <==>
              OffPath(k, i, g + 1, hi, c) ||
              exists j: nat :: IsSibling(k, i, g, j, c)
  {
    hide IsSibling;
    forall c
      ensures OffPath(k, i, g, hi, c) <==>
              OffPath(k, i, g + 1, hi, c) ||
              exists j: nat :: IsSibling(k, i, g, j, c)
    {
    }
  }

  lemma OffPathNone(k: Arity, i: nat, hi: nat)
    ensures forall c :: !OffPath(k, i, hi, hi, c)
  {
  }

  lemma OffPathStep(k: Arity, i: nat, lo: nat, g: nat, hi: nat, top: Coord)
    requires lo <= g < hi && top == Anc(k, i, g + 1)
    ensures forall j: nat :: j < k && j != Digit(k, i, g) ==> OffPath(k, i, lo, hi, Child(k, top, j))
  {
    hide Digit, Anc, Child;
    forall j: nat | j < k && j != Digit(k, i, g)
      ensures OffPath(k, i, lo, hi, Child(k, top, j))
    {
      assert IsSibling(k, i, g, j, Child(k, top, j));
    }
  }

  /** The child index the descent computes by division is the digit. */
  lemma ChildIndex(k: Arity, i: nat, g: nat)
    ensures Anc(k, i, g + 1).left <= i
    ensures (i - Anc(k, i, g + 1).left) / Pow(k, g) == Digit(k, i, g)
  {
    hide Anc, Digit, Times, Quot;
    AncChild(k, i, g);
    AncContains(k, i, g);
    AncContains(k, i, g + 1);
    var top, low := Anc(k, i, g + 1), Anc(k, i, g);
    QuotIs(Pow(k, g), i - top.left);
    QuotUnique(Pow(k, g), Digit(k, i, g), i - low.left);
  }

  // ------------------------------------------------------------------ proof generation

  /** Every subtree an inclusion proof reads. */
  ghost predicate InclusionReads(k: Arity, n: nat, i: nat, c: Coord)
    requires i < n
  {
    c in Frontier(k, n) || OffPath(k, i, 0, HeightOf(k, n, i), c)
  }

  method InclusionProof(
      nodes: map<NodeKey, Digest>, view: AlgView, alg: nat, index: nat, treeSize: nat, globalSize: nat, k: Arity,
      ghost cells: seq<Digest>)
    returns (r: Result<Option<seq<ProofStep>>>)
    requires treeSize <= U64_MAX
    requires index < treeSize <= TreeSize(view.epochs, globalSize) ==>
               forall c :: InclusionReads(k, treeSize, index, c) ==> Truthful(nodes, view, alg, k, cells, c)
    ensures !(index < treeSize <= TreeSize(view.epochs, globalSize)) ==> r == Ok(None)
    ensures index < treeSize <= TreeSize(view.epochs, globalSize) ==>
              (r.Ok? ==> r.value == Some(InclusionPath(view.hasher, k, cells, treeSize, index))) &&
              (r.Ok? <==> forall c :: InclusionReads(k, treeSize, index, c) ==> Readable(nodes, view, alg, k, c))
  {
    hide Frontier, MountainOf, OffPath, Truthful, Readable, Block, BagShape, PathStep, Anc, Holds;
    if treeSize == 0 || index >= treeSize || treeSize > TreeSize(view.epochs, globalSize) {
      return Ok(None);
    }
    var coords := FrontierForSize(treeSize, k);
    var f := FindMountain(k, treeSize, coords, index);
    MountainIsAnc(k, treeSize, index);
    var top := coords[f.value];
    var path := BisectionPath(nodes, view, alg, top, index, 0, k, cells);
    if path.Err? {
      return Err(path.error);
    }
    var peaks := ReadPeaks(nodes, view, alg, coords, k, cells);
    if peaks.Err? {
      return Err(peaks.error);
    }
    BagHolds(k, |coords|, f.value);
    var bag := BagPath(peaks.value, f.value, view.hasher, k);
    r := Ok(Some(path.value + bag));
  }

  /** The steps that lift one peak through the bag, from an explicit descent. */
  method BagPath(peaks: seq<Digest>, f: nat, h: Hasher, k: Arity) returns (steps: seq<ProofStep>)
    requires f < |peaks|
    ensures Holds(BagShape(k, |peaks|), f)
    ensures steps == PathTo(h, peaks, BagShape(k, |peaks|), f)
  {
    BagHolds(k, |peaks|, f);
    var found, down := DescendBagPath(BagShape(k, |peaks|), f, peaks, h, []);
    assert down == Reverse(PathTo(h, peaks, BagShape(k, |peaks|), f));
    ReverseTwice(PathTo(h, peaks, BagShape(k, |peaks|), f));
    steps := Reverse(down);
  }

  method DescendBagPath(node: Shape, f: nat, peaks: seq<Digest>, h: Hasher, out: seq<ProofStep>)
    returns (found: bool, steps: seq<ProofStep>)
    ensures found == Holds(node, f)
    ensures found ==> steps == out + Reverse(PathTo(h, peaks, node, f))
    ensures !found ==> steps == out
  {
    hide Eval;
    match node
    case Tip(idx) =>
      found, steps := idx == f, out;
    case Inner(children) =>
      var position := 0;
      while position < |children| && !Holds(children[position], f)
        invariant position <= |children|
        invariant forall g :: 0 <= g < position ==> !Holds(children[g], f)
      {
        position := position + 1;
      }
      if position == |children| {
        return false, out;
      }
      assert Branch(children, f) == position;
      var step := ProofStep(Remove(EvalAll(h, peaks, children), position), position);
      ReverseSnoc(PathTo(h, peaks, children[position], f), step);
      found, steps := DescendBagPath(children[position], f, peaks, h, out + [step]);
  }

  /** Every subtree a consistency proof reads. */
  ghost predicate ConsistencyReads(k: Arity, m: nat, n: nat, c: Coord)
    requires 0 < m < n
  {
    BoundaryFits(k, m, n);
    c == Last(k, m) || c in Frontier(k, n) ||
    OffPath(k, Last(k, m).left, Last(k, m).height, HeightOf(k, n, Last(k, m).left), c)
  }

  method ConsistencyProofFor(
      nodes: map<NodeKey, Digest>, view: AlgView, alg: nat, oldSize: nat, newSize: nat, globalSize: nat, k: Arity,
      ghost cells: seq<Digest>)
    returns (r: Result<Option<ConsistencyProof>>)
    requires newSize <= U64_MAX
    requires 0 < oldSize < newSize <= TreeSize(view.epochs, globalSize) ==>
               forall c :: ConsistencyReads(k, oldSize, newSize, c) ==> Truthful(nodes, view, alg, k, cells, c)
    ensures !(0 < oldSize < newSize <= TreeSize(view.epochs, globalSize)) ==> r == Ok(None)
    ensures 0 < oldSize < newSize <= TreeSize(view.epochs, globalSize) ==>
              (r.Ok? ==> r.value == Some(HonestProof(view.hasher, k, cells, oldSize, newSize))) &&
              (r.Ok? <==> forall c :: ConsistencyReads(k, oldSize, newSize, c) ==> Readable(nodes, view, alg, k, c))
  {
    hide Frontier, MountainOf, OffPath, Readable, Block, PathStep, Anc, Aligned, Touched, Contains;
    if oldSize == 0 || oldSize >= newSize || newSize > TreeSize(view.epochs, globalSize) {
      return Ok(None);
    }
    var oldCoords := FrontierForSize(oldSize, k);
    FrontierInit(k, oldSize);
    BoundaryFits(k, oldSize, newSize);
    var boundary := oldCoords[|oldCoords| - 1];
    assert boundary == Last(k, oldSize) && ConsistencyReads(k, oldSize, newSize, boundary);
    var start := GetNodeHash(nodes, view, alg, boundary, k);
    if start.Err? {
      assert !Readable(nodes, view, alg, k, boundary) by { ReadableIs(nodes, view, alg, k, boundary); }
      return Err(start.error);
    }
    ReadableIs(nodes, view, alg, k, boundary);
    var newCoords := FrontierForSize(newSize, k);
    var f := FindMountain(k, newSize, newCoords, boundary.left);
    MountainIsAnc(k, newSize, boundary.left);
    var top := newCoords[f.value];
    if top.height < boundary.height {
      return Ok(None);
    }
    hide Truthful, GetNodeHash;
    var path := BisectionPath(nodes, view, alg, top, boundary.left, boundary.height, k, cells);
    if path.Err? {
      return Err(path.error);
    }
    var peaks := ReadPeaks(nodes, view, alg, newCoords, k, cells);
    if peaks.Err? {
      return Err(peaks.error);
    }
    r := Ok(Some(ConsistencyProof(start.value, path.value, peaks.value, f.value)));
  }

  lemma ReadableIs(nodes: map<NodeKey, Digest>, view: AlgView, alg: nat, k: Arity, c: Coord)
    ensures Readable(nodes, view, alg, k, c) <==> GetNodeHash(nodes, view, alg, c, k).Ok?
  {
  }

  /** The member root at an earlier size. */
  method RootForAt(nodes: map<NodeKey, Digest>, view: AlgView, alg: nat, size: nat, k: Arity, ghost cells: seq<Digest>)
    returns (r: Result<Digest>)
    requires EffectiveSize(view.epochs, size) <= U64_MAX
    requires forall c :: c in Frontier(k, EffectiveSize(view.epochs, size)) ==> Truthful(nodes, view, alg, k, cells, c)
    ensures r.Ok? ==> r.value == MemberRoot(view.hasher, k, cells, EffectiveSize(view.epochs, size))
    ensures r.Ok? <==> forall c :: c in Frontier(k, EffectiveSize(view.epochs, size)) ==>
            Readable(nodes, view, alg, k, c)
  {
    hide Truthful, Readable, Block;
    var algSize := EffectiveSize(view.epochs, size);
    if algSize == 0 {
      assert Peaks(view.hasher, k, cells, 0) == [];
      return Ok(view.hasher.empty);
    }
    var coords := FrontierForSize(algSize, k);
    var peaks := ReadPeaks(nodes, view, alg, coords, k, cells);
    if peaks.Err? {
      return Err(peaks.error);
    }
    r := Ok(BagPeaks(view.hasher, peaks.value, k));
  }

  // ------------------------------------------------------------------ the carry

  /** The node writes of the merges above height `s`, lowest first. */
  function CarryWrites(h: Hasher, k: Arity, alg: nat, cells: seq<Digest>, n: nat, s: nat): seq<NodeWrite> {
    if s == 0 then []
    else
      var c := Completed(k, n, s);
      CarryWrites(h, k, alg, cells, n, s - 1)
        + (if Block(h, k, cells, c) == Null(h) then [] else [NodeWrite(NodeKey(alg, c), Block(h, k, cells, c))])
  }

  /**
   Pushes one digest and performs the merges the schedule mandates.  Each stack entry
   stays the value of its subtree over the extended cells.
   */
  method Carry(
      view: AlgView, alg: nat, digest: Digest, count: nat, k: Arity, outNodes: seq<NodeWrite>, ghost cells: seq<Digest>)
    returns (r: Result<(AlgView, seq<NodeWrite>)>)
    requires |cells| == count + 1 && cells[count] == digest
    requires view.coords == Frontier(k, count)
    requires view.frontier == Peaks(view.hasher, k, cells, count)
    ensures r.Ok?
    ensures r.value.0 == view.(frontier := Peaks(view.hasher, k, cells, count + 1), coords := Frontier(k, count + 1))
    ensures r.value.1 == outNodes + CarryWrites(view.hasher, k, alg, cells, count, Merges(k, count))
  {
    hide Frontier, Block, NaryMr, Times, Quot, Merges, Completed, Partial;
    var h := view.hasher;
    var frontier, coords := view.frontier + [digest], view.coords + [Coord(count, 0)];
    var out := outNodes;
    var merges := ReductionCount(count, k);
    PushedLeaf(h, k, cells, count);
    for s := 0 to merges
      invariant coords == Partial(k, count, s)
      invariant frontier == BlockAll(h, k, cells, Partial(k, count, s))
      invariant out == outNodes + CarryWrites(h, k, alg, cells, count, s)
    {
      PartialStep(k, count, s);
      ghost var c := Completed(k, count, s + 1);
      if |frontier| < k || |coords| < k {
        return Err(Corrupted(alg));
      }
      var children := frontier[|frontier| - k..];
      var childCoords := coords[|coords| - k..];
      BlockUnfold(h, k, cells, c);
      assert children == BlockAll(h, k, cells, Children(k, c));
      var parent := NaryMr(h, children);
      FirstChild(k, c);
      var at := Coord(childCoords[0].left, childCoords[0].height + 1);
      assert at == c;
      if parent != Null(h) {
        out := out + [NodeWrite(NodeKey(alg, at), parent)];
      }
      frontier := frontier[..|frontier| - k] + [parent];
      coords := coords[..|coords| - k] + [at];
    }
    PartialDone(k, count);
    r := Ok((view.(frontier := frontier, coords := coords), out));
  }

  lemma FirstChild(k: Arity, c: Coord)
    requires c.height > 0
    ensures Children(k, c)[0] == Coord(c.left, c.height - 1)
  {
  }

  lemma PushedLeaf(h: Hasher, k: Arity, cells: seq<Digest>, n: nat)
    requires n < |cells|
    ensures Partial(k, n, 0) == Frontier(k, n) + [Coord(n, 0)]
    ensures BlockAll(h, k, cells, Partial(k, n, 0)) == Peaks(h, k, cells, n) + [cells[n]]
  {
    hide Frontier;
    var st := Partial(k, n, 0);
    forall i | 0 <= i < |st|
      ensures BlockAll(h, k, cells, st)[i] == (Peaks(h, k, cells, n) + [cells[n]])[i]
    {
    }
  }

  lemma {:induction false} CarryWritesAre(h: Hasher, k: Arity, alg: nat, cells: seq<Digest>, n: nat, s: nat)
    requires s <= Merges(k, n)
    ensures forall w :: w in CarryWrites(h, k, alg, cells, n, s) ==>
              w.key.alg == alg && Aligned(k, w.key.at) && End(k, w.key.at) == n + 1 &&
              w.hash == Block(h, k, cells, w.key.at) != Null(h)
    ensures forall g :: 0 < g <= s && Block(h, k, cells, Completed(k, n, g)) != Null(h) ==>
              NodeWrite(NodeKey(alg, Completed(k, n, g)), Block(h, k, cells, Completed(k, n, g)))
                in CarryWrites(h, k, alg, cells, n, s)
  {
    hide Block, Completed, Merges, Aligned, Times, Quot;
    if s > 0 {
      CarryWritesAre(h, k, alg, cells, n, s - 1);
      CompletedEnd(k, n, s);
    }
  }
}

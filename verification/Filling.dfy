/**
 Filling: rebuilding one algorithm's tree from the real leaves and checking it against
 what was sealed.  The true data is always accepted, and whatever is accepted rebuilds
 the sealed member root.
 */
module Filling {
  import opened Base
  import opened Topology
  import opened Spine
  import opened Mountain
  import opened Blocks
  import opened Epochs
  import opened NullRuns
  import opened Ledger
  import Rebalanced
  import Soundness
  import opened Shapes

  datatype FillKind = Eml | Emt

  datatype FillError =
    | LeafCountMismatch
    | ExtentsDoNotCoverSize
    | UnknownAlgorithm
    | MissingHasher(alg: nat)
    | BindingRootMismatch

  datatype FilledTree = FilledTree(alg: nat, size: nat, kind: FillKind, root: Digest)

  datatype Result<+T> = Ok(value: T) | Err(error: FillError)

  /** What constructing a seal checks: the arity and the peak counts. */
  ghost predicate WellSealed(s: Sealed) {
    && 2 <= s.arity <= 256 && s.size <= U64_MAX
    && forall i :: 0 <= i < |s.frontiers| ==> |s.frontiers[i].peaks| == |Frontier(s.arity, s.size)|
  }

  /** Both kinds bag by grouping the rightmost `k`. */
  method Bag(kind: FillKind, h: Hasher, peaks: seq<Digest>, k: Arity) returns (root: Digest)
    ensures root == BagPeaks(h, peaks, k)
  {
    match kind
    case Eml => root := BagPeaks(h, peaks, k);
    case Emt => root := Rebalanced.RebalancedBag(h, peaks, k);
  }

  // ------------------------------------------------------------------ a perfect block from its leaves

  /** The subtrees of height `g` side by side from `left`. */
  function Row(k: Arity, left: nat, g: nat, count: nat): (r: seq<Coord>)
    ensures |r| == count
    ensures forall i :: 0 <= i < count ==> r[i] == Coord(left + Times(Pow(k, g), i), g)
  {
    seq(count, i requires 0 <= i => Coord(left + Times(Pow(k, g), i), g))
  }

  /** The `j`-th child of a subtree in the row above. */
  lemma RowChild(k: Arity, left: nat, g: nat, i: nat, j: nat)
    ensures left + Times(Pow(k, g), Times(k, i) + j) == left + Times(Pow(k, g + 1), i) + Times(Pow(k, g), j)
  {
    hide Pow;
    var p := Pow(k, g);
    PowSucc(k, g);
    TimesAdd(p, Times(k, i), j);
    TimesAssoc(p, k, i);
    TimesComm(p, k);
  }

  /** `k` neighbours in a row are the children of one subtree of the row above. */
  lemma RowGroup(k: Arity, left: nat, g: nat, count: nat, i: nat)
    requires Times(k, i) + k <= count
    ensures Row(k, left, g, count)[Times(k, i)..Times(k, i) + k]
            == Children(k, Coord(left + Times(Pow(k, g + 1), i), g + 1))
  {
    hide Pow, Times;
    var group := Row(k, left, g, count)[Times(k, i)..Times(k, i) + k];
    var parent := Coord(left + Times(Pow(k, g + 1), i), g + 1);
    forall j | 0 <= j < k
      ensures group[j] == Children(k, parent)[j]
    {
      RowChild(k, left, g, i, j);
      assert group[j] == Row(k, left, g, count)[Times(k, i) + j];
    }
  }

  /** One pass: every chunk of `k` digests merged. */
  method MergeLevel(
      h: Hasher, k: Arity, level: seq<Digest>, ghost cells: seq<Digest>, ghost left: nat, ghost g: nat,
      ghost count: nat)
    returns (next: seq<Digest>)
    requires level == BlockAll(h, k, cells, Row(k, left, g, Times(k, count)))
    ensures next == BlockAll(h, k, cells, Row(k, left, g + 1, count))
  {
    hide Block, NaryMr, Times, Pow;
    next := [];
    var at := 0;
    while at < |level|
      invariant |next| <= count && at == Times(k, |next|)
      invariant forall i :: 0 <= i < |next| ==>
                next[i] == Block(h, k, cells, Coord(left + Times(Pow(k, g + 1), i), g + 1))
      decreases |level| - at
    {
      ghost var i := |next|;
      TimesGap(k, count, i);
      TimesGap(k, i + 1, count);
      TimesSucc(k, i);
      RowGroup(k, left, g, Times(k, count), i);
      ghost var parent := Coord(left + Times(Pow(k, g + 1), i), g + 1);
      BlockUnfold(h, k, cells, parent);
      var stop := if at + k <= |level| then at + k else |level|;
      assert level[at..stop] == BlockAll(h, k, cells, Children(k, parent));
      next := next + [NaryMr(h, level[at..stop])];
      at := at + k;
    }
    TimesGap(k, |next| + 1, count);
    TimesSucc(k, |next|);
  }

  /** The bottom-up merge of a block of real leaves is the block's value. */
  method SubtreeRoot(
      h: Hasher, leaves: seq<Bytes>, k: Arity, ghost cells: seq<Digest>, ghost left: nat, ghost height: nat)
    returns (root: Digest)
    requires |leaves| == Pow(k, height)
    requires forall i :: 0 <= i < |leaves| ==> At(cells, left + i) == h.leaf(leaves[i])
    ensures root == Block(h, k, cells, Coord(left, height))
  {
    hide Block, NaryMr, Times, Pow;
    var level: seq<Digest> := [];
    for i := 0 to |leaves|
      invariant |level| == i && forall j :: 0 <= j < i ==> level[j] == h.leaf(leaves[j])
    {
      level := level + [h.leaf(leaves[i])];
    }
    LeafRow(h, k, cells, left, leaves, level);
    PowSucc(k, 0);
    ghost var g := 0;
    while |level| > 1
      invariant g <= height && level == BlockAll(h, k, cells, Row(k, left, g, Pow(k, height - g)))
      decreases |level|
    {
      if g < height {
        LevelUp(k, height - g);
      }
      level := MergeLevel(h, k, level, cells, left, g, Pow(k, height - g - 1));
      g := g + 1;
    }
    if g < height {
      LevelUp(k, height - g);
    }
    RowFirst(k, left, g, Pow(k, height - g));
    root := level[0];
  }

  lemma LeafRow(h: Hasher, k: Arity, cells: seq<Digest>, left: nat, leaves: seq<Bytes>, level: seq<Digest>)
    requires |level| == |leaves| && forall i :: 0 <= i < |leaves| ==> level[i] == h.leaf(leaves[i])
    requires forall i :: 0 <= i < |leaves| ==> At(cells, left + i) == h.leaf(leaves[i])
    ensures level == BlockAll(h, k, cells, Row(k, left, 0, |leaves|))
  {
    hide Times;
    PowSucc(k, 0);
    forall i | 0 <= i < |leaves|
      ensures Row(k, left, 0, |leaves|)[i] == Coord(left + i, 0)
    {
      TimesIs(1, i);
    }
  }

  /** Above one digest there is a level to merge, `k` times as wide as the next. */
  lemma LevelUp(k: Arity, h: nat)
    requires h > 0
    ensures Pow(k, h) == Times(k, Pow(k, h - 1)) && Pow(k, h - 1) < Pow(k, h) && Pow(k, h) > 1
  {
    PowSucc(k, h - 1);
    TimesComm(k, Pow(k, h - 1));
    TimesGap(Pow(k, h - 1), 1, k);
  }

  lemma RowFirst(k: Arity, left: nat, g: nat, count: nat)
    requires count > 0
    ensures Row(k, left, g, count)[0] == Coord(left, g)
  {
  }

  // ------------------------------------------------------------------ the partition

  /** The collapse runs (height at least 1), or with `single` the promoted leaves (height 0). */
  function Keep(cs: seq<Coord>, single: bool): seq<Coord> {
    if |cs| == 0 then [] else (if (cs[0].height == 0) == single then [cs[0]] else []) + Keep(cs[1..], single)
  }

  lemma {:induction false} KeepConcat(a: seq<Coord>, b: seq<Coord>, single: bool)
    ensures Keep(a + b, single) == Keep(a, single) + Keep(b, single)
    decreases |a|
  {
    if |a| == 0 {
      assert a + b == b;
    } else {
      assert (a + b)[1..] == a[1..] + b;
      KeepConcat(a[1..], b, single);
      Regroup(if (a[0].height == 0) == single then [a[0]] else [], Keep(a[1..], single), Keep(b, single));
    }
  }

  lemma Regroup(a: seq<Coord>, b: seq<Coord>, c: seq<Coord>)
    ensures a + (b + c) == (a + b) + c
  {
  }

  lemma {:induction false} KeepUniform(cs: seq<Coord>, single: bool)
    requires forall c :: c in cs ==> (c.height == 0) == single
    ensures Keep(cs, single) == cs && Keep(cs, !single) == []
  {
    if |cs| > 0 {
      KeepUniform(cs[1..], single);
    }
  }

  /** Collapse runs, then promoted leaves: together, in this order, they are the frontier. */
  lemma RunsThenSingles(k: Arity, n: nat)
    ensures Keep(Frontier(k, n), false) + Keep(Frontier(k, n), true) == Frontier(k, n)
  {
    hide Times, Quot, Keep;
    var q, r := Quot(k, n), Rem(k, n);
    FrontierAt(k, n, q, r);
    hide Frontier;
    var high, low := UpAll(k, Frontier(k, q)), Leaves(Times(k, q), r);
    KeepUniform(high, false);
    KeepUniform(low, true);
    KeepConcat(high, low, false);
    KeepConcat(high, low, true);
    assert high + [] == high && [] + low == low;
  }

  ghost predicate ByLeft(cs: seq<Coord>) {
    forall i, j :: 0 <= i < j < |cs| ==> cs[i].left < cs[j].left
  }

  function Insert(c: Coord, cs: seq<Coord>): (r: seq<Coord>)
    ensures multiset(r) == multiset{c} + multiset(cs)
  {
    if |cs| == 0 || c.left <= cs[0].left then
      [c] + cs
    else
      assert cs == [cs[0]] + cs[1..];
      [cs[0]] + Insert(c, cs[1..])
  }

  /** Sorting by left edge. */
  function SortByLeft(cs: seq<Coord>): (r: seq<Coord>)
    ensures multiset(r) == multiset(cs)
  {
    if |cs| == 0 then
      []
    else
      assert cs == [cs[0]] + cs[1..];
      Insert(cs[0], SortByLeft(cs[1..]))
  }

  lemma {:induction false} InsertedByLeft(c: Coord, cs: seq<Coord>)
    requires forall i, j :: 0 <= i < j < |cs| ==> cs[i].left <= cs[j].left
    ensures var r := Insert(c, cs);
            (forall i, j :: 0 <= i < j < |r| ==> r[i].left <= r[j].left) && (|cs| > 0 ==> r[0] in [c, cs[0]])
  {
    if |cs| > 0 && c.left > cs[0].left {
      InsertedByLeft(c, cs[1..]);
    }
  }

  /** The sort puts the same subtrees in order of their left edges. */
  lemma {:induction false} SortedByLeft(cs: seq<Coord>)
    ensures var r := SortByLeft(cs);
            multiset(r) == multiset(cs) && forall i, j :: 0 <= i < j < |r| ==> r[i].left <= r[j].left
  {
    if |cs| > 0 {
      SortedByLeft(cs[1..]);
      InsertedByLeft(cs[0], SortByLeft(cs[1..]));
    }
  }

  lemma {:induction false} SortedStays(cs: seq<Coord>)
    requires ByLeft(cs)
    ensures SortByLeft(cs) == cs
  {
    if |cs| > 0 {
      SortedStays(cs[1..]);
      assert |cs| > 1 ==> cs[0].left < cs[1].left;
      assert cs == [cs[0]] + cs[1..];
    }
  }

  lemma FrontierByLeft(k: Arity, n: nat)
    ensures ByLeft(Frontier(k, n))
  {
    hide Frontier, Aligned;
    FrontierTiles(k, n);
    forall i, j | 0 <= i < j < |Frontier(k, n)|
      ensures Frontier(k, n)[i].left < Frontier(k, n)[j].left
    {
      TilesOrdered(k, Frontier(k, n), n, i, j);
    }
  }

  /** The committed partition is the frontier, and the coverage check never fails. */
  method CommittedPartition(size: nat, k: Arity) returns (r: Result<seq<Coord>>)
    requires size <= U64_MAX
    ensures r == Ok(Frontier(k, size))
  {
    hide Frontier, Aligned, Keep;
    var canonical := FrontierForSize(size, k);
    RunsThenSingles(k, size);
    FrontierByLeft(k, size);
    SortedStays(canonical);
    var partition := SortByLeft(Keep(canonical, false) + Keep(canonical, true));
    FrontierTiles(k, size);
    var covered := 0;
    for n := 0 to |partition|
      invariant covered == if n == 0 then 0 else End(k, partition[n - 1])
    {
      Adjacent(k, partition, size, n);
      covered := covered + Pow(k, partition[n].height);
    }
    if covered != size {
      return Err(ExtentsDoNotCoverSize);
    }
    r := Ok(partition);
  }

  lemma Adjacent(k: Arity, cs: seq<Coord>, n: nat, i: nat)
    requires Tiles(k, cs, n) && i < |cs|
    ensures cs[i].left == if i == 0 then 0 else End(k, cs[i - 1])
  {
    hide Aligned;
    if i > 0 {
      var j := i - 1;
      assert i == j + 1;
    }
  }

  // ------------------------------------------------------------------ the check

  predicate AllHashed(fs: seq<SealedFrontier>, hashers: map<nat, Hasher>) {
    forall i :: 0 <= i < |fs| ==> fs[i].alg in hashers
  }

  /** Every member root, bagged from the sealed peaks; needs every algorithm's hasher. */
  function MemberRoots(fs: seq<SealedFrontier>, hashers: map<nat, Hasher>, k: Arity): (r: seq<Digest>)
    requires AllHashed(fs, hashers)
    ensures |r| == |fs|
    ensures forall i :: 0 <= i < |fs| ==> r[i] == BagPeaks(hashers[fs[i].alg], fs[i].peaks, k)
  {
    seq(|fs|, i requires 0 <= i < |fs| => BagPeaks(hashers[fs[i].alg], fs[i].peaks, k))
  }

  method AllMemberRoots(fs: seq<SealedFrontier>, hashers: map<nat, Hasher>, kind: FillKind, k: Arity)
    returns (r: Result<seq<Digest>>)
    ensures r.Ok? <==> AllHashed(fs, hashers)
    ensures r.Ok? ==> r.value == MemberRoots(fs, hashers, k)
    ensures r.Err? ==> r.error.MissingHasher?
  {
    var roots: seq<Digest> := [];
    for n := 0 to |fs|
      invariant |roots| == n && forall i :: 0 <= i < n ==>
                  fs[i].alg in hashers && roots[i] == BagPeaks(hashers[fs[i].alg], fs[i].peaks, k)
    {
      if fs[n].alg !in hashers {
        return Err(MissingHasher(fs[n].alg));
      }
      var root := Bag(kind, hashers[fs[n].alg], fs[n].peaks, k);
      roots := roots + [root];
    }
    r := Ok(roots);
  }

  /** The position of an algorithm's frontier in a seal. */
  ghost predicate FrontierAtIndex(s: Sealed, alg: nat, i: nat) { i < |s.frontiers| && s.frontiers[i].alg == alg }

  ghost predicate OnlyAt(s: Sealed, alg: nat, i: nat) { forall j: nat :: FrontierAtIndex(s, alg, j) ==> j == i }

  /** Replacing one child of the combined root by another digest changes the root. */
  lemma OneMember(h: Hasher, roots: seq<Digest>, i: nat, d: Digest, t: Timeline, n: nat, k: Arity)
    requires i < |roots|
    ensures d == roots[i] ==> CombinedRoot(h, roots[i := d], t, n, k) == CombinedRoot(h, roots, t, n, k)
    ensures Soundness.CollisionFree(h) && Soundness.NoFixpoint(h) &&
            CombinedRoot(h, roots[i := d], t, n, k) == CombinedRoot(h, roots, t, n, k)
            ==> d == roots[i]
  {
    hide AllNullRuns, Serialize, Soundness.CollisionFree, Soundness.NoFixpoint;
    assert roots[i := roots[i]] == roots;
    var extra := if |AllNullRuns(k, t, n)| == 0 then [] else [h.hash(Serialize(AllNullRuns(k, t, n), n, k))];
    var a, b := roots + extra, roots[i := d] + extra;
    if Soundness.CollisionFree(h) && Soundness.NoFixpoint(h) && NaryMr(h, a) == NaryMr(h, b) {
      if |a| >= 2 {
        Soundness.NaryMrOneChild(h, a, b, i);
      }
      assert a[i] == roots[i] && b[i] == d;
    }
  }

  /** The cells an algorithm active everywhere has over these leaves. */
  function LeafCells(h: Hasher, data: seq<Bytes>): (r: seq<Digest>)
    ensures |r| == |data| && forall i :: 0 <= i < |data| ==> r[i] == h.leaf(data[i])
  {
    seq(|data|, i requires 0 <= i < |data| => h.leaf(data[i]))
  }

  /** Every component's subtree root over its leaves: the peaks of the from-scratch tree. */
  method ComponentRoots(h: Hasher, data: seq<Bytes>, partition: seq<Coord>, k: Arity) returns (roots: seq<Digest>)
    requires partition == Frontier(k, |data|)
    ensures roots == Peaks(h, k, LeafCells(h, data), |data|)
  {
    hide Frontier, Aligned, Block;
    roots := [];
    FrontierTiles(k, |data|);
    for n := 0 to |partition|
      invariant |roots| == n && forall i :: 0 <= i < n ==> roots[i] == Block(h, k, LeafCells(h, data), partition[i])
    {
      var c := partition[n];
      TilesOrdered(k, partition, |data|, n, n);
      var root := SubtreeRoot(h, data[c.left..c.left + Pow(k, c.height)], k, LeafCells(h, data), c.left, c.height);
      roots := roots + [root];
    }
  }

  /**
   Fill, over a slice of at most `HALF` items.  It succeeds if the rebuilt member root is
   the sealed one; and only then, if the hasher has no collisions and the seal lists the
   algorithm once.
   */
  method Fill(
      sealed: Sealed, alg: nat, hasher: Hasher, data: seq<Bytes>, kind: FillKind, hashers: map<nat, Hasher>,
      ghost i: nat)
    returns (r: Result<FilledTree>)
    requires WellSealed(sealed) && |data| <= HALF
    requires (exists j :: FrontierAtIndex(sealed, alg, j)) ==> FrontierAtIndex(sealed, alg, i)
    ensures r.Ok? ==>
              FrontierAtIndex(sealed, alg, i) && |data| == sealed.size &&
              r.value == FilledTree(alg, sealed.size, kind,
                MemberRoot(hasher, sealed.arity, LeafCells(hasher, data), |data|))
    ensures r.Ok? && OnlyAt(sealed, alg, i) && Soundness.CollisionFree(hasher) && Soundness.NoFixpoint(hasher) ==>
              alg in hashers && r.value.root == BagPeaks(hashers[alg], sealed.frontiers[i].peaks, sealed.arity)
    ensures FrontierAtIndex(sealed, alg, i) && |data| == sealed.size && AllHashed(sealed.frontiers, hashers) &&
            (forall j: nat :: FrontierAtIndex(sealed, alg, j) ==>
               MemberRoot(hasher, sealed.arity, LeafCells(hasher, data), |data|)
               == BagPeaks(hashers[alg], sealed.frontiers[j].peaks, sealed.arity))
            ==> r.Ok?
    ensures r == Err(UnknownAlgorithm) <==> !FrontierAtIndex(sealed, alg, i)
    ensures r == Err(LeafCountMismatch) <==> FrontierAtIndex(sealed, alg, i) && |data| != sealed.size
    ensures r.Err? && r.error.MissingHasher? <==>
            FrontierAtIndex(sealed, alg, i) && |data| == sealed.size && !AllHashed(sealed.frontiers, hashers)
    ensures r != Err(ExtentsDoNotCoverSize)
  {
    hide Frontier, Block, BagPeaks, CombinedRoot, Peaks, Soundness.CollisionFree, Soundness.NoFixpoint;
    var k: Arity := sealed.arity;
    var found := FindFrontier(sealed, alg);
    if found.None? {
      return Err(UnknownAlgorithm);
    }
    if |data| != sealed.size {
      return Err(LeafCountMismatch);
    }
    var partition := CommittedPartition(sealed.size, k);
    var components := ComponentRoots(hasher, data, partition.value, k);
    var memberRoot := Bag(kind, hasher, components, k);
    var members := AllMemberRoots(sealed.frontiers, hashers, kind, k);
    if members.Err? {
      return Err(members.error);
    }
    var committed := FoldCombinedRoot(hasher, members.value, sealed.timeline, sealed.size, k);
    var replaced := ReplaceMember(sealed, alg, members.value, memberRoot);
    var rebuilt := FoldCombinedRoot(hasher, replaced, sealed.timeline, sealed.size, k);
    if OnlyAt(sealed, alg, i) {
      OneMember(hasher, members.value, i, memberRoot, sealed.timeline, sealed.size, k);
    }
    if rebuilt.value != committed.value {
      return Err(BindingRootMismatch);
    }
    r := Ok(FilledTree(alg, sealed.size, kind, memberRoot));
  }

  method FindFrontier(s: Sealed, alg: nat) returns (i: Option<nat>)
    ensures i.Some? ==> FrontierAtIndex(s, alg, i.value)
    ensures i.None? ==> forall j :: !FrontierAtIndex(s, alg, j)
  {
    for n := 0 to |s.frontiers|
      invariant forall j :: 0 <= j < n ==> s.frontiers[j].alg != alg
    {
      if s.frontiers[n].alg == alg {
        return Some(n);
      }
    }
    i := None;
  }

  /** The committed member roots with the filled algorithm's replaced. */
  method ReplaceMember(s: Sealed, alg: nat, roots: seq<Digest>, root: Digest) returns (r: seq<Digest>)
    requires |roots| == |s.frontiers|
    ensures |r| == |roots|
    ensures forall j :: 0 <= j < |r| ==> r[j] == if s.frontiers[j].alg == alg then root else roots[j]
    ensures forall i: nat :: FrontierAtIndex(s, alg, i) && OnlyAt(s, alg, i) ==> r == roots[i := root]
    ensures (forall j: nat :: FrontierAtIndex(s, alg, j) ==> roots[j] == root) ==> r == roots
  {
    r := [];
    for n := 0 to |roots|
      invariant |r| == n && forall j :: 0 <= j < n ==> r[j] == if s.frontiers[j].alg == alg then root else roots[j]
    {
      r := r + [if s.frontiers[n].alg == alg then root else roots[n]];
    }
    forall i: nat | FrontierAtIndex(s, alg, i) && OnlyAt(s, alg, i)
      ensures r == roots[i := root]
    {
      forall j: nat | j < |r|
        ensures r[j] == roots[i := root][j]
      {
        assert FrontierAtIndex(s, alg, j) <==> s.frontiers[j].alg == alg;
      }
    }
    if forall j: nat :: FrontierAtIndex(s, alg, j) ==> roots[j] == root {
      forall j: nat | j < |r|
        ensures r[j] == roots[j]
      {
        assert FrontierAtIndex(s, alg, j) <==> s.frontiers[j].alg == alg;
      }
    }
  }

  /** The seal of a log with entries satisfies what constructing a seal checks. */
  lemma SealIsWellSealed(s: State, k: Arity)
    requires StateOk(s) && s.size > 0
    ensures WellSealed(SealedOf(s, k))
  {
    hide IsActive, Frontier, Block, MemberOk, TimelineOf;
    SealedEntries(s.members, Ids(s.members.Keys), k, s.size);
  }

  /**
   The true data of an algorithm that was active at every position and is still open is
   accepted against the log's own seal: the seal holds a frontier for it, and that
   frontier bags to the root of the tree built from the data alone.
   */
  lemma TrueDataReproduces(s: State, k: Arity, alg: nat, data: seq<Bytes>) returns (i: nat)
    requires StateOk(s) && s.size > 0 && alg in s.members && IsActive(s.members[alg].epochs) && |data| == s.size
    requires forall j :: 0 <= j < s.size ==> At(s.members[alg].cells, j) == s.members[alg].hasher.leaf(data[j])
    ensures var h, sealed := s.members[alg].hasher, SealedOf(s, k);
            WellSealed(sealed) && FrontierAtIndex(sealed, alg, i) && OnlyAt(sealed, alg, i) && |data| == sealed.size &&
            MemberRoot(h, k, LeafCells(h, data), |data|) == BagPeaks(h, sealed.frontiers[i].peaks, k)
  {
    SealIsWellSealed(s, k);
    var m := s.members[alg];
    assert MemberOk(m, s.size);
    assert m.cells == LeafCells(m.hasher, data) by {
      hide *;
      CellsAre(m.hasher, data, m.cells);
    }
    hide IsActive, Peaks, BagPeaks, MemberOk, WellSealed;
    SealedEntries(s.members, Ids(s.members.Keys), k, s.size);
    i :| 0 <= i < |SealedOf(s, k).frontiers| && SealedOf(s, k).frontiers[i].alg == alg;
  }

  lemma CellsAre(h: Hasher, data: seq<Bytes>, cells: seq<Digest>)
    requires |cells| == |data| && forall j :: 0 <= j < |data| ==> At(cells, j) == h.leaf(data[j])
    ensures cells == LeafCells(h, data)
  {
  }
}

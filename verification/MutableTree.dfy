/**
 The mutable tree: cells overwritten in place, and per algorithm a cache of every
 node's digest keyed by the interval of positions it covers.
 */
module MutableTree {
  import opened Base
  import opened Topology
  import opened Spine
  import opened Shapes
  import opened Mountain
  import opened Blocks
  import opened Rebalanced
  import Soundness

  datatype Cell = Cell(payload: Bytes, metadata: Bytes)

  datatype Error = InvalidArity | DuplicateAlgorithm | IndexGap | EmptySeal

  datatype Result<+T> = Ok(value: T) | Err(error: Error)

  type Key = (nat, nat)
  type Cache = map<Key, Digest>

  /** The closed interval of positions a node covers. */
  function KeyOf(s: Shape): Key { (Leftmost(s), Rightmost(s)) }

  /** The keys of all nodes of a shape. */
  function Keys(s: Shape): set<Key> {
    match s
    case Tip(_) => {KeyOf(s)}
    case Inner(cs) => {KeyOf(s)} + KeysOfAll(cs)
  }

  function KeysOfAll(cs: seq<Shape>): (r: set<Key>)
    ensures forall x :: x in r <==> exists j :: 0 <= j < |cs| && x in Keys(cs[j])
  {
    if |cs| == 0 then {} else
      var first, rest := Keys(cs[0]), KeysOfAll(cs[1..]);
      assert forall x :: x in rest ==> exists j :: 0 <= j < |cs| && x in Keys(cs[j]) by {
        forall x | x in rest
          ensures exists j :: 0 <= j < |cs| && x in Keys(cs[j])
        {
          var j :| 0 <= j < |cs[1..]| && x in Keys(cs[1..][j]);
          assert x in Keys(cs[j + 1]);
        }
      }
      assert forall j :: 1 <= j < |cs| ==> cs[j] == cs[1..][j - 1];
      first + rest
  }

  /** The cache holds the evaluation of every node of the shape. */
  ghost predicate Cached(cache: Cache, h: Hasher, ds: seq<Digest>, s: Shape) {
    && KeyOf(s) in cache && cache[KeyOf(s)] == Eval(h, ds, s)
    && (s.Inner? ==> forall c :: c in s.children ==> Cached(cache, h, ds, c))
  }

  ghost predicate SameOn(a: Cache, b: Cache, keys: set<Key>) {
    forall x :: x in keys ==> (x in a <==> x in b) && (x in a ==> a[x] == b[x])
  }

  ghost predicate SameOutside(a: Cache, b: Cache, keys: set<Key>) {
    forall x :: x !in keys ==> (x in a <==> x in b) && (x in a ==> a[x] == b[x])
  }

  /** Every key of a shape is an interval within the shape's own. */
  lemma {:induction false} KeysInside(s: Shape)
    requires Contiguous(s)
    ensures KeyOf(s) in Keys(s)
    ensures forall x :: x in Keys(s) ==> Leftmost(s) <= x.0 <= x.1 <= Rightmost(s)
    decreases s
  {
    Interval(s);
    if s.Inner? {
      forall j | 0 <= j < |s.children|
        ensures forall x :: x in Keys(s.children[j]) ==> Leftmost(s) <= x.0 <= x.1 <= Rightmost(s)
      {
        ChildInterval(s, j);
        KeysInside(s.children[j]);
      }
    }
  }

  /** The keys of different children do not meet, nor those of a child the parent's own. */
  lemma KeysApart(s: Shape, j: nat)
    requires Contiguous(s) && s.Inner? && j < |s.children|
    ensures KeyOf(s) !in Keys(s.children[j])
    ensures forall g :: 0 <= g < |s.children| && g != j ==> Keys(s.children[g]) !! Keys(s.children[j])
  {
    hide Contiguous, Keys;
    ChildInterval(s, j);
    KeysInside(s.children[j]);
    forall g | 0 <= g < |s.children| && g != j
      ensures Keys(s.children[g]) !! Keys(s.children[j])
    {
      ChildInterval(s, g);
      KeysInside(s.children[g]);
    }
  }

  /** A node of a shape: the shape itself, or a node of one of its children. */
  predicate NodeIn(s: Shape, t: Shape) {
    t == s || (s.Inner? && exists j :: 0 <= j < |s.children| && NodeIn(s.children[j], t))
  }

  lemma {:induction false} NodeKeyIn(s: Shape, t: Shape)
    requires NodeIn(s, t)
    ensures KeyOf(t) in Keys(s)
    decreases s
  {
    if t != s {
      var j :| 0 <= j < |s.children| && NodeIn(s.children[j], t);
      NodeKeyIn(s.children[j], t);
    }
  }

  /** The interval names the node: no two nodes of one shape share a key. */
  lemma {:induction false} KeyNamesNode(s: Shape, t: Shape, u: Shape)
    requires Contiguous(s) && NodeIn(s, t) && NodeIn(s, u) && KeyOf(t) == KeyOf(u)
    ensures t == u
    decreases s
  {
    hide Keys, Contiguous;
    if t == s && u != s {
      var j :| 0 <= j < |s.children| && NodeIn(s.children[j], u);
      NodeKeyIn(s.children[j], u);
      KeysApart(s, j);
    } else if u == s && t != s {
      var j :| 0 <= j < |s.children| && NodeIn(s.children[j], t);
      NodeKeyIn(s.children[j], t);
      KeysApart(s, j);
    } else if t != s && u != s {
      var i :| 0 <= i < |s.children| && NodeIn(s.children[i], t);
      var j :| 0 <= j < |s.children| && NodeIn(s.children[j], u);
      NodeKeyIn(s.children[i], t);
      NodeKeyIn(s.children[j], u);
      KeysApart(s, j);
      assert i == j;
      ChildInterval(s, j);
      KeyNamesNode(s.children[j], t, u);
    }
  }

  /** What is cached stays cached while its own keys are not written. */
  lemma {:induction false} CachedFrame(a: Cache, b: Cache, h: Hasher, ds: seq<Digest>, s: Shape)
    requires Contiguous(s) && Cached(a, h, ds, s) && SameOn(a, b, Keys(s))
    ensures Cached(b, h, ds, s)
    decreases s
  {
    hide Eval;
    KeysInside(s);
    if s.Inner? {
      forall c | c in s.children
        ensures Cached(b, h, ds, c)
      {
        var j :| 0 <= j < |s.children| && s.children[j] == c;
        assert forall x :: x in Keys(c) ==> x in Keys(s);
        CachedFrame(a, b, h, ds, c);
      }
    }
  }

  /** A shape that does not hold a tip does not notice its digest. */
  lemma {:induction false} CachedElsewhere(cache: Cache, h: Hasher, ds: seq<Digest>, s: Shape, i: nat, d: Digest)
    requires Cached(cache, h, ds, s) && i < |ds| && !Holds(s, i)
    ensures Cached(cache, h, ds[i := d], s) && Eval(h, ds[i := d], s) == Eval(h, ds, s)
    decreases s
  {
    EvalCongruent(h, ds, ds[i := d], s);
    if s.Inner? {
      forall c | c in s.children
        ensures Cached(cache, h, ds[i := d], c)
      {
        var j :| 0 <= j < |s.children| && s.children[j] == c;
        CachedElsewhere(cache, h, ds, c, i, d);
      }
    }
  }

  /** A cell's digest: its payload's, or null while this algorithm has not hashed it. */
  function Digests(h: Hasher, cells: seq<Cell>, hashed: set<nat>): (r: seq<Digest>)
    ensures |r| == |cells|
    ensures forall i :: 0 <= i < |cells| ==> r[i] == if i in hashed then h.leaf(cells[i].payload) else Null(h)
  {
    seq(|cells|, i requires 0 <= i < |cells| => if i in hashed then h.leaf(cells[i].payload) else Null(h))
  }

  function Everywhere(n: nat): (r: set<nat>)
    ensures forall i: nat :: i in r <==> i < n
  {
    if n == 0 then {} else Everywhere(n - 1) + {n - 1}
  }

  /** The raw leaf digest; positions past the end are null. */
  function RawLeaf(cells: seq<Cell>, h: Hasher, pos: nat): Digest {
    if pos < |cells| then h.leaf(cells[pos].payload) else Null(h)
  }

  function RawLeaves(cells: seq<Cell>, h: Hasher): nat -> Digest { (pos: nat) => RawLeaf(cells, h, pos) }

  function NullLeaves(h: Hasher): nat -> Digest { (pos: nat) => Null(h) }

  /** What one algorithm's materialization must be, over the cells it has hashed. */
  ghost predicate Materialized(root: Option<Digest>, cache: Cache, k: Arity, h: Hasher, ds: seq<Digest>) {
    if |ds| == 0 then root == None && cache == map[]
    else
      var shape := ShapeOf(k, |ds|);
      root == Some(Eval(h, ds, shape)) && Cached(cache, h, ds, shape) && cache.Keys == Keys(shape)
  }

  // ------------------------------------------------------------------ one algorithm

  class AlgState {
    var root: Option<Digest>
    var cache: Cache

    constructor ()
    {
      root, cache := None, map[];
    }

    ghost predicate Valid(k: Arity, h: Hasher, ds: seq<Digest>)
      reads this
    {
      Materialized(root, cache, k, h, ds)
    }

    /** The materialization is of these cells, as far as they are hashed. */
    ghost predicate Reflects(k: Arity, h: Hasher, cells: seq<Cell>, hashed: set<nat>)
      reads this
    {
      Valid(k, h, Digests(h, cells, hashed))
    }

    /** What a changed cell does to one algorithm. */
    method Refresh(
        cells: seq<Cell>, k: Arity, h: Hasher, index: nat, appended: bool, ghost before: seq<Cell>,
        ghost hashed: set<nat>)
      requires |cells| <= U64_MAX && Reflects(k, h, before, hashed)
      requires !appended ==> index < |cells| == |before| && cells == before[index := cells[index]]
      modifies this
      ensures Reflects(k, h, cells, if appended then Everywhere(|cells|) else hashed + {index})
    {
      hide Materialized, Digests, Everywhere;
      if appended {
        RecomputeFull(cells, k, h);
      } else {
        var _ := RecomputePath(cells, k, h, index, Digests(h, before, hashed));
        Overwritten(h, before, cells, hashed, index);
      }
    }

    /** Evaluates a whole subtree, caching every node. */
    method EvalSubtree(h: Hasher, node: Shape, leaf: nat -> Digest, ghost ds: seq<Digest>) returns (digest: Digest)
      requires Contiguous(node) && forall i :: Holds(node, i) ==> leaf(i) == At(ds, i)
      modifies this`cache
      ensures digest == Eval(h, ds, node) && Cached(cache, h, ds, node)
      ensures SameOutside(old(cache), cache, Keys(node))
      ensures cache.Keys == old(cache.Keys) + Keys(node)
      decreases node
    {
      hide NaryMr, Contiguous;
      match node
      case Tip(pos) =>
        digest := leaf(pos);
        cache := cache[KeyOf(node) := digest];
      case Inner(children) =>
        var digests := EvalChildren(h, node, children, leaf, ds);
        digest := NaryMr(h, digests);
        ghost var before := cache;
        cache := cache[KeyOf(node) := digest];
        AddTop(old(cache), before, cache, h, ds, node);
    }

    method EvalChildren(h: Hasher, node: Shape, children: seq<Shape>, leaf: nat -> Digest, ghost ds: seq<Digest>)
      returns (digests: seq<Digest>)
      requires node == Inner(children) && Contiguous(node) && forall i :: Holds(node, i) ==> leaf(i) == At(ds, i)
      modifies this`cache
      ensures digests == EvalAll(h, ds, children)
      ensures forall c :: c in children ==> Cached(cache, h, ds, c)
      ensures SameOutside(old(cache), cache, KeysOfAll(children))
      ensures cache.Keys == old(cache.Keys) + KeysOfAll(children)
      decreases node, 0
    {
      hide Contiguous, Eval, Cached, Keys, KeysOfAll;
      digests := [];
      for n := 0 to |children|
        invariant digests == EvalAll(h, ds, children[..n])
        invariant forall g :: 0 <= g < n ==> Cached(cache, h, ds, children[g])
        invariant SameOutside(old(cache), cache, KeysOfAll(children[..n]))
        invariant cache.Keys == old(cache.Keys) + KeysOfAll(children[..n])
      {
        ChildInterval(node, n);
        forall i | Holds(children[n], i)
          ensures Holds(node, i)
        {
        }
        ghost var before := cache;
        var digest := EvalSubtree(h, children[n], leaf, ds);
        forall g | 0 <= g < n
          ensures Cached(cache, h, ds, children[g])
        {
          ChildInterval(node, g);
          KeysApart(node, g);
          CachedFrame(before, cache, h, ds, children[g]);
        }
        KeysSnoc(children, n);
        assert children[..n + 1] == children[..n] + [children[n]];
        digests := digests + [digest];
      }
      assert children[..|children|] == children;
    }

    /**
     Recomputes the digests on the path to `index` over the new cell digest, reading
     everything off the path from the cache; `recomputed` counts the inner nodes.
     */
    method EvalOnPath(h: Hasher, node: Shape, index: nat, d: Digest, ghost ds: seq<Digest>)
      returns (digest: Digest, recomputed: nat)
      requires Contiguous(node) && Holds(node, index) && index < |ds| && Cached(cache, h, ds, node)
      modifies this`cache
      ensures digest == Eval(h, ds[index := d], node) && Cached(cache, h, ds[index := d], node)
      ensures SameOutside(old(cache), cache, Keys(node)) && cache.Keys == old(cache.Keys)
      ensures recomputed == |SkeletonTo(node, index)|
      decreases node
    {
      hide NaryMr, Contiguous;
      match node
      case Tip(_) =>
        digest, recomputed := d, 0;
        cache := cache[KeyOf(node) := digest];
      case Inner(children) =>
        CachedParts(cache, h, ds, node);
        HalfStart(cache, h, ds, ds[index := d], children);
        var digests, below := EvalPathChildren(h, node, children, index, d, ds, ds[index := d]);
        HalfDone(cache, h, ds, ds[index := d], children);
        digest := NaryMr(h, digests);
        ghost var before := cache;
        cache := cache[KeyOf(node) := digest];
        AddTop(old(cache), before, cache, h, ds[index := d], node);
        SkeletonUnfold(children, index);
        recomputed := below + 1;
    }

    /** The loop over a node's children: the one on the path is recomputed, the rest are read. */
    method EvalPathChildren(
        h: Hasher, node: Shape, children: seq<Shape>, index: nat, d: Digest, ghost ds: seq<Digest>,
        ghost ds': seq<Digest>)
      returns (digests: seq<Digest>, recomputed: nat)
      requires node == Inner(children) && Contiguous(node) && Holds(node, index)
      requires index < |ds| && ds' == ds[index := d] && HalfCached(cache, h, ds, ds', children, 0)
      modifies this`cache
      ensures digests == EvalAll(h, ds', children) && HalfCached(cache, h, ds, ds', children, |children|)
      ensures SameOutside(old(cache), cache, KeysOfAll(children)) && cache.Keys == old(cache.Keys)
      ensures recomputed == |SkeletonTo(children[Branch(children, index)], index)|
      decreases node, 0, 1
    {
      ghost var on := Branch(children, index);
      hide *;
      digests, recomputed := [], 0;
      OutsideSame(cache, KeysOfAll(children));
      ResolvedNone(h, ds', ds', children, on);
      for n := 0 to |children|
        invariant |digests| == n && Resolved(digests, h, ds', ds', children, on)
        invariant HalfCached(cache, h, ds, ds', children, n)
        invariant SameOutside(old(cache), cache, KeysOfAll(children)) && cache.Keys == old(cache.Keys)
        invariant n > on ==> recomputed == |SkeletonTo(children[on], index)|
      {
        ghost var before := cache;
        HalfAt(cache, h, ds, ds', children, n);
        var digest, below := EvalPathChild(h, node, children, index, d, n, ds, ds');
        HalfNext(before, cache, h, ds, ds', children, n);
        if Covers(children[n], index) {
          recomputed := below;
        }
        OutsideTrans(old(cache), before, cache, KeysOfAll(children));
        ResolvedNext(digests, digest, h, ds', ds', children, on);
        digests := digests + [digest];
      }
      ResolvedAll(digests, h, ds', ds', children, on);
    }

    /** One child of a node on the path: recomputed if it covers the index, read otherwise. */
    method EvalPathChild(
        h: Hasher, node: Shape, children: seq<Shape>, index: nat, d: Digest, n: nat, ghost ds: seq<Digest>,
        ghost ds': seq<Digest>)
      returns (digest: Digest, below: nat)
      requires node == Inner(children) && Contiguous(node) && Holds(node, index)
      requires index < |ds| && ds' == ds[index := d] && n < |children| && Cached(cache, h, ds, children[n])
      modifies this`cache
      ensures digest == Eval(h, ds', children[n]) && Cached(cache, h, ds', children[n])
      ensures forall g :: 0 <= g < |children| && g != n && Cached(old(cache), h, ds, children[g]) ==>
                Cached(cache, h, ds, children[g])
      ensures forall g :: 0 <= g < |children| && g != n && Cached(old(cache), h, ds', children[g]) ==>
                Cached(cache, h, ds', children[g])
      ensures SameOutside(old(cache), cache, KeysOfAll(children)) && cache.Keys == old(cache.Keys)
      ensures Covers(children[n], index) <==> n == Branch(children, index)
      ensures Covers(children[n], index) ==> below == |SkeletonTo(children[n], index)|
      decreases node, 0, 0
    {
      hide Contiguous, Eval, Cached, Keys, KeysOfAll, Holds, SkeletonTo, Branch;
      var child := children[n];
      ChildInterval(node, n);
      CoversIsHolds(child, index);
      OnlyBranch(node, children, index, n);
      below := 0;
      if Covers(child, index) {
        digest, below := EvalOnPath(h, child, index, d, ds);
        ChildKeys(children, n);
        forall g | 0 <= g < |children| && g != n
          ensures Cached(old(cache), h, ds, children[g]) ==> Cached(cache, h, ds, children[g])
          ensures Cached(old(cache), h, ds', children[g]) ==> Cached(cache, h, ds', children[g])
        {
          ChildFrame(old(cache), cache, h, ds, node, children, n, g);
          ChildFrame(old(cache), cache, h, ds[index := d], node, children, n, g);
        }
      } else {
        CachedElsewhere(cache, h, ds, child, index, d);
        CachedKey(cache, h, ds', child);
        digest := cache[KeyOf(child)];
      }
    }

    /** Rebuilds the whole materialization, over every cell. */
    method RecomputeFull(cells: seq<Cell>, k: Arity, h: Hasher)
      requires |cells| <= U64_MAX
      modifies this
      ensures Reflects(k, h, cells, Everywhere(|cells|))
    {
      hide Eval, Cached, Keys, Contiguous, ShapeOf;
      cache := map[];
      var shape := BuildShape(|cells|, k);
      if shape.None? {
        root := None;
      } else {
        ShapeSpans(k, |cells|);
        ghost var ds := Digests(h, cells, Everywhere(|cells|));
        LeavesAgree(shape.value, |cells|, ds, RawLeaves(cells, h));
        var digest := EvalSubtree(h, shape.value, RawLeaves(cells, h), ds);
        root := Some(digest);
      }
    }

    /** Every position null: the state before any cell is hashed under a new algorithm. */
    method SeedNull(cells: seq<Cell>, k: Arity, h: Hasher)
      requires |cells| <= U64_MAX
      modifies this
      ensures Valid(k, h, Digests(h, cells, {}))
    {
      hide Eval, Cached, Keys, Contiguous, ShapeOf;
      cache := map[];
      var shape := BuildShape(|cells|, k);
      if shape.None? {
        root := None;
      } else {
        ShapeSpans(k, |cells|);
        ghost var ds := Digests(h, cells, {});
        LeavesAgree(shape.value, |cells|, ds, NullLeaves(h));
        var digest := EvalSubtree(h, shape.value, NullLeaves(h), ds);
        root := Some(digest);
      }
    }

    /** Null everywhere, then the one cell's path. */
    method AddSeeded(cells: seq<Cell>, k: Arity, h: Hasher, index: nat) returns (recomputed: nat)
      requires |cells| <= U64_MAX && index < |cells|
      modifies this
      ensures Reflects(k, h, cells, {index}) && recomputed == |Skeleton(k, |cells|, index)|
    {
      hide Materialized, Digests, Skeleton;
      SeedNull(cells, k, h);
      recomputed := RecomputePath(cells, k, h, index, Digests(h, cells, {}));
      HashedOne(h, cells, {}, index);
      assert {} + {index} == {index};
    }

    /** Recomputes one cell's ancestor path; the result is what a full rebuild would give. */
    method RecomputePath(cells: seq<Cell>, k: Arity, h: Hasher, index: nat, ghost ds: seq<Digest>)
      returns (recomputed: nat)
      requires |cells| == |ds| <= U64_MAX && index < |ds| && Valid(k, h, ds)
      modifies this
      ensures Valid(k, h, ds[index := RawLeaf(cells, h, index)])
      ensures recomputed == |Skeleton(k, |cells|, index)|
    {
      hide Eval, Cached, Keys, Contiguous, ShapeOf, SkeletonTo, Skeleton, Holds;
      var shape := BuildShape(|cells|, k);
      ShapeSpans(k, |cells|);
      SameSkeleton(k, |cells|, index);
      var digest;
      digest, recomputed := EvalOnPath(h, shape.value, index, RawLeaf(cells, h, index), ds);
      root := Some(digest);
    }
  }

  lemma LeavesAgree(s: Shape, n: nat, ds: seq<Digest>, leaf: nat -> Digest)
    requires Contiguous(s) && Rightmost(s) < n == |ds| && forall i :: 0 <= i < n ==> leaf(i) == ds[i]
    ensures forall i :: Holds(s, i) ==> leaf(i) == At(ds, i)
  {
    hide Contiguous, Holds;
    forall i | Holds(s, i)
      ensures leaf(i) == At(ds, i)
    {
      CoversIsHolds(s, i);
    }
  }

  /** The children's digests found so far: over `ds'`, and off the path over `ds` as well. */
  ghost predicate Resolved(
      digests: seq<Digest>, h: Hasher, ds: seq<Digest>, ds': seq<Digest>, cs: seq<Shape>, position: nat)
  {
    |digests| <= |cs| && forall g :: 0 <= g < |digests| ==>
      digests[g] == Eval(h, ds', cs[g]) && (g != position ==> digests[g] == Eval(h, ds, cs[g]))
  }

  lemma ResolvedNext(
      digests: seq<Digest>, d: Digest, h: Hasher, ds: seq<Digest>, ds': seq<Digest>, cs: seq<Shape>, position: nat)
    requires Resolved(digests, h, ds, ds', cs, position) && |digests| < |cs| && d == Eval(h, ds', cs[|digests|])
    requires |digests| != position ==> d == Eval(h, ds, cs[|digests|])
    ensures Resolved(digests + [d], h, ds, ds', cs, position)
  {
    hide Eval;
  }

  lemma ResolvedAll(digests: seq<Digest>, h: Hasher, ds: seq<Digest>, ds': seq<Digest>, cs: seq<Shape>, position: nat)
    requires Resolved(digests, h, ds, ds', cs, position) && |digests| == |cs|
    ensures digests == EvalAll(h, ds', cs)
    ensures forall g :: 0 <= g < |cs| && g != position ==> digests[g] == Eval(h, ds, cs[g])
  {
    hide Eval;
  }

  lemma ResolvedNone(h: Hasher, ds: seq<Digest>, ds': seq<Digest>, cs: seq<Shape>, position: nat)
    ensures Resolved([], h, ds, ds', cs, position)
  {
  }

  /** The first `n` shapes are cached over the new digests, the others over the old. */
  ghost predicate HalfCached(cache: Cache, h: Hasher, ds: seq<Digest>, ds': seq<Digest>, cs: seq<Shape>, n: nat) {
    n <= |cs| && forall g :: 0 <= g < |cs| ==> Cached(cache, h, if g < n then ds' else ds, cs[g])
  }

  lemma HalfStart(cache: Cache, h: Hasher, ds: seq<Digest>, ds': seq<Digest>, cs: seq<Shape>)
    requires forall g :: 0 <= g < |cs| ==> Cached(cache, h, ds, cs[g])
    ensures HalfCached(cache, h, ds, ds', cs, 0)
  {
    hide Cached;
  }

  lemma HalfAt(cache: Cache, h: Hasher, ds: seq<Digest>, ds': seq<Digest>, cs: seq<Shape>, n: nat)
    requires HalfCached(cache, h, ds, ds', cs, n) && n < |cs|
    ensures Cached(cache, h, ds, cs[n])
  {
    hide Cached;
  }

  lemma HalfNext(a: Cache, b: Cache, h: Hasher, ds: seq<Digest>, ds': seq<Digest>, cs: seq<Shape>, n: nat)
    requires HalfCached(a, h, ds, ds', cs, n) && n < |cs| && Cached(b, h, ds', cs[n])
    requires forall g :: 0 <= g < |cs| && g != n && Cached(a, h, ds, cs[g]) ==> Cached(b, h, ds, cs[g])
    requires forall g :: 0 <= g < |cs| && g != n && Cached(a, h, ds', cs[g]) ==> Cached(b, h, ds', cs[g])
    ensures HalfCached(b, h, ds, ds', cs, n + 1)
  {
    hide Cached;
  }

  lemma HalfDone(cache: Cache, h: Hasher, ds: seq<Digest>, ds': seq<Digest>, cs: seq<Shape>)
    requires HalfCached(cache, h, ds, ds', cs, |cs|)
    ensures forall c :: c in cs ==> Cached(cache, h, ds', c)
  {
    hide Cached;
  }

  lemma OutsideSame(a: Cache, keys: set<Key>)
    ensures SameOutside(a, a, keys)
  {
  }

  lemma OutsideTrans(a: Cache, b: Cache, c: Cache, keys: set<Key>)
    requires SameOutside(a, b, keys) && SameOutside(b, c, keys)
    ensures SameOutside(a, c, keys)
  {
  }

  lemma CachedParts(cache: Cache, h: Hasher, ds: seq<Digest>, node: Shape)
    requires Cached(cache, h, ds, node)
    ensures KeyOf(node) in cache
    ensures node.Inner? ==> forall g :: 0 <= g < |node.children| ==> Cached(cache, h, ds, node.children[g])
  {
    hide Eval;
  }

  lemma CachedKey(cache: Cache, h: Hasher, ds: seq<Digest>, node: Shape)
    requires Cached(cache, h, ds, node)
    ensures KeyOf(node) in cache && cache[KeyOf(node)] == Eval(h, ds, node)
  {
    hide Eval;
  }

  lemma ChildKeys(cs: seq<Shape>, n: nat)
    requires n < |cs|
    ensures Keys(cs[n]) <= KeysOfAll(cs)
  {
    hide Keys;
  }

  /** Writing under one child leaves every other child cached. */
  lemma ChildFrame(a: Cache, b: Cache, h: Hasher, ds: seq<Digest>, node: Shape, cs: seq<Shape>, n: nat, g: nat)
    requires node == Inner(cs) && Contiguous(node) && n < |cs| && g < |cs| && g != n
    requires SameOutside(a, b, Keys(cs[n]))
    ensures Cached(a, h, ds, cs[g]) ==> Cached(b, h, ds, cs[g])
  {
    hide Keys, Contiguous, Cached, Eval;
    KeysApart(node, n);
    ChildInterval(node, g);
    if Cached(a, h, ds, cs[g]) {
      CachedFrame(a, b, h, ds, cs[g]);
    }
  }

  /** Exactly one child holds the index. */
  lemma OnlyBranch(node: Shape, cs: seq<Shape>, index: nat, n: nat)
    requires node == Inner(cs) && Contiguous(node) && Holds(node, index) && n < |cs|
    ensures Holds(cs[n], index) <==> n == Branch(cs, index)
  {
    hide Contiguous, Covers;
    var b := Branch(cs, index);
    ChildInterval(node, n);
    ChildInterval(node, b);
    CoversIsHolds(cs[n], index);
    CoversIsHolds(cs[b], index);
    Apart(cs[n], cs[b], index);
  }

  lemma Apart(s: Shape, t: Shape, i: nat)
    requires Rightmost(s) < Leftmost(t) || Rightmost(t) < Leftmost(s) || s == t
    ensures Covers(s, i) && Covers(t, i) ==> s == t
  {
  }

  lemma KeysSnoc(cs: seq<Shape>, n: nat)
    requires n < |cs|
    ensures KeysOfAll(cs[..n + 1]) == KeysOfAll(cs[..n]) + Keys(cs[n])
    ensures KeysOfAll(cs[..0]) == {}
  {
    hide Keys;
    forall x
      ensures x in KeysOfAll(cs[..n + 1]) <==> x in KeysOfAll(cs[..n]) + Keys(cs[n])
    {
      if x in KeysOfAll(cs[..n]) {
        var j :| 0 <= j < n && x in Keys(cs[..n][j]);
        assert x in Keys(cs[..n + 1][j]);
      }
      if x in Keys(cs[n]) {
        assert x in Keys(cs[..n + 1][n]);
      }
      if x in KeysOfAll(cs[..n + 1]) {
        var j :| 0 <= j < n + 1 && x in Keys(cs[..n + 1][j]);
        if j < n {
          assert x in Keys(cs[..n][j]);
        }
      }
    }
  }

  /** Writing a node's own digest over its cached children caches the node. */
  lemma AddTop(start: Cache, before: Cache, after: Cache, h: Hasher, ds: seq<Digest>, node: Shape)
    requires node.Inner? && Contiguous(node) && after == before[KeyOf(node) := Eval(h, ds, node)]
    requires forall c :: c in node.children ==> Cached(before, h, ds, c)
    ensures Cached(after, h, ds, node)
    ensures SameOutside(start, before, KeysOfAll(node.children)) ==> SameOutside(start, after, Keys(node))
    ensures before.Keys == start.Keys + KeysOfAll(node.children) ==> after.Keys == start.Keys + Keys(node)
  {
    hide Eval, Keys, Contiguous, KeysOfAll, Cached;
    forall c | c in node.children
      ensures Cached(after, h, ds, c)
    {
      AddChild(before, after, h, ds, node, c);
    }
    CachedTop(after, h, ds, node);
    KeysInner(node);
  }

  lemma AddChild(before: Cache, after: Cache, h: Hasher, ds: seq<Digest>, node: Shape, c: Shape)
    requires node.Inner? && Contiguous(node) && c in node.children && Cached(before, h, ds, c)
    requires after == before[KeyOf(node) := Eval(h, ds, node)]
    ensures Cached(after, h, ds, c)
  {
    hide Eval, Keys, Contiguous, KeysOfAll, Cached;
    var j :| 0 <= j < |node.children| && node.children[j] == c;
    KeysApart(node, j);
    ChildInterval(node, j);
    CachedFrame(before, after, h, ds, c);
  }

  lemma CachedTop(cache: Cache, h: Hasher, ds: seq<Digest>, node: Shape)
    requires node.Inner? && KeyOf(node) in cache && cache[KeyOf(node)] == Eval(h, ds, node)
    requires forall c :: c in node.children ==> Cached(cache, h, ds, c)
    ensures Cached(cache, h, ds, node)
  {
    hide Eval;
  }

  lemma KeysInner(node: Shape)
    requires node.Inner?
    ensures Keys(node) == {KeyOf(node)} + KeysOfAll(node.children)
  {
  }

  // ------------------------------------------------------------------ proofs from the cache

  /** The descent: siblings are read from the cache, the path's own digests are recomputed. */
  method Descend(h: Hasher, node: Shape, index: nat, cache: Cache, leaf: Digest, ghost ds: seq<Digest>)
    returns (digest: Digest, path: seq<ProofStep>)
    requires Contiguous(node) && Holds(node, index) && index < |ds| && Cached(cache, h, ds, node)
    ensures digest == Eval(h, ds[index := leaf], node)
    ensures path == PathTo(h, ds, node, index)
    decreases node
  {
    hide NaryMr, Contiguous;
    match node
    case Tip(_) => digest, path := leaf, [];
    case Inner(children) =>
      var position := FirstCovering(node, children, index);
      assert children[position] in children;
      ChildInterval(node, position);
      var below;
      digest, below := Descend(h, children[position], index, cache, leaf, ds);
      var digests := ChildDigests(h, node, children, index, cache, position, digest, leaf, ds, ds[index := leaf]);
      path := below + [ProofStep(Remove(digests, position), position)];
      RemoveSame(digests, EvalAll(h, ds, children), position);
      digest := NaryMr(h, digests);
  }

  method ChildDigests(
      h: Hasher, node: Shape, children: seq<Shape>, index: nat, cache: Cache, position: nat, onPath: Digest,
      leaf: Digest, ghost ds: seq<Digest>, ghost ds': seq<Digest>)
    returns (digests: seq<Digest>)
    requires node == Inner(children) && Contiguous(node) && Holds(node, index) && index < |ds| &&
             Cached(cache, h, ds, node)
    requires position < |children| && position == Branch(children, index)
    requires ds' == ds[index := leaf] && onPath == Eval(h, ds', children[position])
    ensures digests == EvalAll(h, ds', children)
    ensures forall g :: 0 <= g < |children| && g != position ==> digests[g] == Eval(h, ds, children[g])
  {
    CachedParts(cache, h, ds, node);
    hide *;
    digests := [];
    ResolvedNone(h, ds, ds', children, position);
    for n := 0 to |children|
      invariant |digests| == n && Resolved(digests, h, ds, ds', children, position)
    {
      var digest := onPath;
      if n != position {
        OnlyBranch(node, children, index, n);
        CachedElsewhere(cache, h, ds, children[n], index, leaf);
        CachedKey(cache, h, ds, children[n]);
        digest := cache[KeyOf(children[n])];
      }
      ResolvedNext(digests, digest, h, ds, ds', children, position);
      digests := digests + [digest];
    }
    ResolvedAll(digests, h, ds, ds', children, position);
  }

  lemma RemoveSame(a: seq<Digest>, b: seq<Digest>, p: nat)
    requires |a| == |b| && p < |a| && forall g :: 0 <= g < |a| && g != p ==> a[g] == b[g]
    ensures Remove(a, p) == Remove(b, p)
  {
  }

  /**
   The generated path verifies for the digest the tree has materialized at the cell, and
   under a collision-free hasher for no other.
   */
  lemma CellProof(h: Hasher, k: Arity, ds: seq<Digest>, index: nat, leaf: Digest)
    requires index < |ds| <= U64_MAX
    ensures Holds(ShapeOf(k, |ds|), index)
    ensures var path := PathTo(h, ds, ShapeOf(k, |ds|), index);
            (leaf == ds[index] ==>
              VerifyInclusion(h, leaf, Skeleton(k, |ds|, index), path, Eval(h, ds, ShapeOf(k, |ds|)))) &&
            (Soundness.CollisionFree(h) && Soundness.NoFixpoint(h) && leaf != ds[index] ==>
              !VerifyInclusion(h, leaf, Skeleton(k, |ds|, index), path, Eval(h, ds, ShapeOf(k, |ds|))))
  {
    hide ShapeOf, Eval, Skeleton, SkeletonTo, Contiguous, Holds, Hashing, Climb, PathTo, NumDigits;
    hide Soundness.CollisionFree, Soundness.NoFixpoint;
    var shape := ShapeOf(k, |ds|);
    ShapeSpans(k, |ds|);
    ContiguousHashes(shape);
    SameSkeleton(k, |ds|, index);
    PathLeadsToRoot(h, ds, shape, index);
    SkeletonLength(k, |ds|, index);
    DigitsOfWord(k, |ds|);
    var path := PathTo(h, ds, shape, index);
    assert path[0..] == path;
    if Soundness.CollisionFree(h) && Soundness.NoFixpoint(h) && leaf != ds[index] &&
      Climb(h, leaf, path) == Climb(h, ds[index], path) {
      Soundness.LeafTamper(h, leaf, ds[index], path);
    }
  }

  // ------------------------------------------------------------------ the tree

  datatype SealedTree = SealedTree(size: nat, arity: nat, frontiers: map<nat, seq<Digest>>)

  class Cmt {
    const k: Arity
    var cells: seq<Cell>
    var hashers: map<nat, Hasher>
    var states: map<nat, AlgState>
    /** Per algorithm, the positions whose payload it has hashed. */
    ghost var hashed: map<nat, set<nat>>
    ghost var owned: set<AlgState>

    ghost function DigestsOf(id: nat): seq<Digest>
      reads this
      requires id in hashers && id in hashed
    {
      Digests(hashers[id], cells, hashed[id])
    }

    ghost predicate Valid()
      reads this, owned
    {
      && |cells| <= U64_MAX
      && hashers.Keys == states.Keys == hashed.Keys
      && (forall id :: id in states ==> states[id] in owned)
      && (forall a, b :: a in states && b in states && a != b ==> states[a] != states[b])
      && forall id :: id in states ==> states[id].Reflects(k, hashers[id], cells, hashed[id])
    }

    constructor (k: Arity)
      ensures Valid() && this.k == k && cells == [] && hashers == map[] && owned == {}
    {
      this.k, cells, hashers, states, hashed, owned := k, [], map[], map[], map[], {};
    }

    /** An empty tree, for an arity in range. */
    static method New(arity: nat) returns (r: Result<Cmt>)
      ensures r.Ok? <==> 2 <= arity <= 256
      ensures r.Err? ==> r.error == InvalidArity
      ensures r.Ok? ==>
              fresh(r.value) && r.value.Valid() && r.value.k == arity && r.value.cells == [] && r.value.hashers == map[]
    {
      if !(2 <= arity <= 256) {
        return Err(InvalidArity);
      }
      var tree := new Cmt(arity);
      r := Ok(tree);
    }

    /** A new algorithm's state joins the others. */
    method Install(id: nat, hasher: Hasher, state: AlgState, ghost on: set<nat>)
      requires Valid() && id !in hashers && state !in owned && state.Reflects(k, hasher, cells, on)
      modifies this
      ensures Valid() && cells == old(cells) && owned == old(owned) + {state}
      ensures hashers == old(hashers)[id := hasher] && hashed == old(hashed)[id := on]
    {
      hide AlgState.Reflects;
      hashers, states := hashers[id := hasher], states[id := state];
      hashed, owned := hashed[id := on], owned + {state};
    }

    method RegisterAlgorithm(id: nat, hasher: Hasher) returns (r: Result<()>)
      requires Valid()
      modifies this
      ensures Valid() && cells == old(cells)
      ensures r == if id in old(hashers) then Err(DuplicateAlgorithm) else Ok(())
      ensures r.Ok? ==> hashers == old(hashers)[id := hasher] && hashed == old(hashed)[id := Everywhere(|cells|)]
      ensures r.Err? ==> unchanged(this)
      ensures fresh(owned - old(owned))
    {
      hide AlgState.Reflects, Everywhere;
      if id in hashers {
        return Err(DuplicateAlgorithm);
      }
      var state := new AlgState();
      state.RecomputeFull(cells, k, hasher);
      Install(id, hasher, state, Everywhere(|cells|));
      r := Ok(());
    }

    /** Hashes one cell under a new algorithm; every other position is null to it. */
    method AddAlgorithmAt(id: nat, index: nat, hasher: Hasher) returns (r: Result<nat>)
      requires Valid()
      modifies this
      ensures Valid() && cells == old(cells)
      ensures r.Ok? <==> id !in old(hashers) && index < |cells|
      ensures r.Ok? ==> hashers == old(hashers)[id := hasher] && hashed == old(hashed)[id := {index}]
      ensures r.Ok? ==> r.value == |Skeleton(k, |cells|, index)|
      ensures r.Err? ==> unchanged(this)
      ensures r == Err(DuplicateAlgorithm) <==> id in old(hashers)
      ensures fresh(owned - old(owned))
    {
      hide AlgState.Reflects, Skeleton;
      if id in hashers {
        return Err(DuplicateAlgorithm);
      }
      if index >= |cells| {
        return Err(IndexGap);
      }
      var state := new AlgState();
      var recomputed := state.AddSeeded(cells, k, hasher, index);
      Install(id, hasher, state, {index});
      r := Ok(recomputed);
    }

    /** Overwrites a cell, recomputing its path everywhere, or appends one, rebuilding everything. */
    method Set(index: nat, payload: Bytes, metadata: Bytes) returns (r: Result<()>)
      requires Valid() && |cells| < U64_MAX
      modifies this, owned
      ensures Valid() && hashers == old(hashers) && states == old(states) && owned == old(owned)
      ensures r.Ok? <==> index <= |old(cells)|
      ensures r.Ok? ==>
                |cells| == (if index == |old(cells)| then index + 1 else |old(cells)|) &&
                cells[index] == Cell(payload, metadata) &&
                forall i :: 0 <= i < |old(cells)| && i != index ==> cells[i] == old(cells)[i]
      ensures r.Ok? ==> hashed.Keys == old(hashed).Keys && forall id :: id in hashed ==>
                hashed[id] == if index == |old(cells)| then Everywhere(|cells|) else old(hashed)[id] + {index}
      ensures r.Err? ==> cells == old(cells) && hashed == old(hashed)
    {
      hide AlgState.Reflects, Everywhere;
      if index > |cells| {
        return Err(IndexGap);
      }
      var appended := index == |cells|;
      ghost var before := cells;
      ghost var now := map id | id in hashed :: if appended then Everywhere(|cells| + 1) else hashed[id] + {index};
      if appended {
        cells := cells + [Cell(payload, metadata)];
      } else {
        cells := cells[index := Cell(payload, metadata)];
      }
      RefreshAll(index, appended, before, hashed, now);
      hashed := now;
      r := Ok(());
    }

    /** The loop over the registered algorithms after a cell has changed. */
    method RefreshAll(
        index: nat, appended: bool, ghost before: seq<Cell>, ghost was: map<nat, set<nat>>,
        ghost now: map<nat, set<nat>>)
      requires |cells| <= U64_MAX &&
               (!appended ==> index < |cells| == |before| && cells == before[index := cells[index]])
      requires hashers.Keys == states.Keys == was.Keys == now.Keys
      requires forall id :: id in states ==> states[id] in owned
      requires forall a, b :: a in states && b in states && a != b ==> states[a] != states[b]
      requires forall id :: id in states ==> states[id].Reflects(k, hashers[id], before, was[id])
      requires forall id :: id in states ==> now[id] == if appended then Everywhere(|cells|) else was[id] + {index}
      modifies owned
      ensures forall id :: id in states ==> states[id].Reflects(k, hashers[id], cells, now[id])
    {
      hide *;
      var todo := states.Keys;
      while todo != {}
        invariant todo <= states.Keys
        invariant forall id :: id in states ==> if id in todo then states[id].Reflects(k, hashers[id], before, was[id])
                                                else states[id].Reflects(k, hashers[id], cells, now[id])
        decreases |todo|
      {
        var id :| id in todo;
        var state := states[id];
        todo := todo - {id};
        state.Refresh(cells, k, hashers[id], index, appended, before, was[id]);
      }
    }

    /** The root is the member root over the digests this algorithm has materialized. */
    method Root(id: nat) returns (root: Option<Digest>)
      requires Valid()
      ensures root.Some? <==> id in states && |cells| > 0
      ensures root.Some? ==>
              id in hashers && id in hashed && root.value == MemberRoot(hashers[id], k, DigestsOf(id), |cells|)
    {
      hide Cached, Keys, Eval, MemberRoot;
      if id !in states {
        return None;
      }
      if |cells| > 0 {
        SameCommitment(hashers[id], k, DigestsOf(id), |cells|);
      }
      root := states[id].root;
    }

    /**
     An inclusion proof.  It carries the raw leaf digest, and so verifies for a cell the
     algorithm has hashed; for one it has not, only if that digest is null.
     */
    method InclusionProof(id: nat, index: nat) returns (r: Option<(Digest, seq<ProofStep>)>)
      requires Valid()
      ensures r.Some? <==> index < |cells| && id in hashers
      ensures r.Some? ==> id in hashed && r.value.0 == hashers[id].leaf(cells[index].payload)
      ensures r.Some? ==>
                var root := MemberRoot(hashers[id], k, DigestsOf(id), |cells|);
                (r.value.0 == DigestsOf(id)[index] ==>
                  VerifyInclusion(hashers[id], r.value.0, Skeleton(k, |cells|, index), r.value.1, root)) &&
                (Soundness.CollisionFree(hashers[id]) && Soundness.NoFixpoint(hashers[id]) &&
                  r.value.0 != DigestsOf(id)[index] ==>
                  !VerifyInclusion(hashers[id], r.value.0, Skeleton(k, |cells|, index), r.value.1, root))
      ensures r.Some? && index in hashed[id] ==> r.value.0 == DigestsOf(id)[index]
    {
      hide Cached, Keys, Eval, MemberRoot, Contiguous, ShapeOf, Holds, PathTo, Skeleton, VerifyInclusion;
      if index >= |cells| || id !in hashers {
        return None;
      }
      var h := hashers[id];
      ghost var ds := DigestsOf(id);
      var shape := BuildShape(|cells|, k);
      ShapeSpans(k, |cells|);
      SameCommitment(h, k, ds, |cells|);
      var leaf := RawLeaf(cells, h, index);
      CellProof(h, k, ds, index, leaf);
      var _, path := Descend(h, shape.value, index, states[id].cache, leaf, ds);
      r := Some((leaf, path));
    }

    /** Membership of null: given only where the cell's own digest is the null constant. */
    method NonMembershipProof(id: nat, index: nat) returns (r: Option<(Digest, seq<ProofStep>)>)
      requires Valid()
      ensures r.Some? <==>
              index < |cells| && id in hashers && hashers[id].leaf(cells[index].payload) == Null(hashers[id])
      ensures r.Some? ==>
                id in hashed && r.value.0 == Null(hashers[id]) &&
                VerifyInclusion(hashers[id], r.value.0, Skeleton(k, |cells|, index), r.value.1,
                                MemberRoot(hashers[id], k, DigestsOf(id), |cells|))
    {
      hide MemberRoot, Skeleton, VerifyInclusion, AlgState.Reflects;
      var proof := InclusionProof(id, index);
      if proof.None? || proof.value.0 != Null(hashers[id]) {
        return None;
      }
      r := proof;
    }

    /** These are the algorithm's frontier peaks, and they bag to its live root. */
    ghost predicate SealsTo(id: nat, peaks: seq<Digest>)
      reads this, owned
    {
      && id in hashers && id in hashed && id in states && states[id] in owned
      && peaks == Peaks(hashers[id], k, DigestsOf(id), |cells|)
      && states[id].root == Some(BagPeaks(hashers[id], peaks, k))
    }

    /** One algorithm's part of the seal. */
    method SealOne(id: nat, coords: seq<Coord>) returns (peaks: seq<Digest>)
      requires Valid() && id in states && cells != [] && coords == Frontier(k, |cells|)
      ensures SealsTo(id, peaks)
    {
      hide Cached, Keys, Eval, Contiguous, ShapeOf, Peaks, Frontier, BagPeaks;
      peaks := PeakDigests(states[id].cache, hashers[id], k, |cells|, coords, DigestsOf(id));
      SameCommitment(hashers[id], k, DigestsOf(id), |cells|);
    }

    /** Seals every algorithm's frontier peaks; they bag to its live root. */
    method Seal() returns (r: Result<SealedTree>)
      requires Valid()
      ensures r.Err? <==> cells == []
      ensures r.Ok? ==> r.value.size == |cells| && r.value.arity == k && r.value.frontiers.Keys == states.Keys
      ensures r.Ok? ==> forall id :: id in states ==>
                SealsTo(id, r.value.frontiers[id])
    {
      hide AlgState.Reflects, SealsTo, Frontier;
      if cells == [] {
        return Err(EmptySeal);
      }
      var coords := FrontierForSize(|cells|, k);
      var frontiers: map<nat, seq<Digest>> := map[];
      var todo := states.Keys;
      while todo != {}
        invariant todo <= states.Keys && frontiers.Keys == states.Keys - todo
        invariant forall id :: id in frontiers ==> SealsTo(id, frontiers[id])
        decreases |todo|
      {
        var id :| id in todo;
        todo := todo - {id};
        var peaks := SealOne(id, coords);
        frontiers := frontiers[id := peaks];
      }
      r := Ok(SealedTree(|cells|, k, frontiers));
    }
  }

  /**
   What a caller sees of a write: the proof asked for next carries the payload just written
   and verifies against the root, which is over the old digests with that one put in its
   place; after an append, over every cell's own.
   */
  method SetThenProve(tree: Cmt, index: nat, payload: Bytes, metadata: Bytes, id: nat)
    returns (r: Option<(Digest, seq<ProofStep>, Digest)>)
    requires tree.Valid() && |tree.cells| < U64_MAX
    modifies tree, tree.owned
    ensures r.Some? <==> index <= old(|tree.cells|) && id in old(tree.hashers)
    ensures r.Some? ==>
              tree.Valid() && index < |tree.cells| && id in tree.hashers && id in tree.hashed &&
              tree.hashers == old(tree.hashers)
    ensures r.Some? ==>
              var (leaf, path, root) := r.value;
              var h, n := tree.hashers[id], |tree.cells|;
              leaf == h.leaf(payload) && VerifyInclusion(h, leaf, Skeleton(tree.k, n, index), path, root)
    ensures r.Some? && index < old(|tree.cells|) ==>
              r.value.2 == MemberRoot(tree.hashers[id], tree.k,
                old(tree.DigestsOf(id))[index := tree.hashers[id].leaf(payload)], |tree.cells|)
    ensures r.Some? && index == old(|tree.cells|) ==>
              r.value.2 == MemberRoot(tree.hashers[id], tree.k, Leaves(tree.hashers[id], tree.cells), |tree.cells|)
  {
    hide AlgState.Reflects, MemberRoot, Skeleton, VerifyInclusion, Soundness.CollisionFree, Soundness.NoFixpoint;
    ghost var before, was := tree.cells, tree.hashed;
    var written := tree.Set(index, payload, metadata);
    if written.Err? || id !in tree.hashers {
      return None;
    }
    ghost var h := tree.hashers[id];
    var root := tree.Root(id);
    var proof := tree.InclusionProof(id, index);
    if index < |before| {
      assert tree.DigestsOf(id) == Digests(h, before, was[id])[index := h.leaf(payload)];
    } else {
      assert tree.DigestsOf(id) == Leaves(h, tree.cells);
    }
    r := Some((proof.value.0, proof.value.1, root.value));
  }

  /** Every cell's own digest. */
  function Leaves(h: Hasher, cells: seq<Cell>): (r: seq<Digest>)
    ensures |r| == |cells| && forall i :: 0 <= i < |cells| ==> r[i] == h.leaf(cells[i].payload)
  {
    seq(|cells|, i requires 0 <= i < |cells| => h.leaf(cells[i].payload))
  }

  lemma HashedOne(h: Hasher, cells: seq<Cell>, hashed: set<nat>, index: nat)
    requires index < |cells|
    ensures Digests(h, cells, hashed)[index := RawLeaf(cells, h, index)] == Digests(h, cells, hashed + {index})
  {
  }

  lemma Overwritten(h: Hasher, before: seq<Cell>, cells: seq<Cell>, hashed: set<nat>, index: nat)
    requires index < |before| && |cells| == |before| && cells == before[index := cells[index]]
    ensures Digests(h, before, hashed)[index := RawLeaf(cells, h, index)] == Digests(h, cells, hashed + {index})
  {
  }

  /** The peaks of the frontier, read from the cache by the interval each one covers. */
  method PeakDigests(cache: Cache, h: Hasher, k: Arity, n: nat, coords: seq<Coord>, ghost ds: seq<Digest>)
    returns (peaks: seq<Digest>)
    requires n > 0 && n == |ds| && coords == Frontier(k, n) && Cached(cache, h, ds, ShapeOf(k, n))
    ensures peaks == Peaks(h, k, ds, n)
  {
    hide Cached, Eval, ShapeOf, Frontier, Block, Perfect;
    peaks := [];
    for g := 0 to |coords|
      invariant |peaks| == g && forall u :: 0 <= u < g ==> peaks[u] == Block(h, k, ds, coords[u])
    {
      PeakCached(cache, h, k, n, g, ds);
      var key := (coords[g].left, coords[g].left + Pow(k, coords[g].height) - 1);
      peaks := peaks + [cache[key]];
    }
  }

  lemma PeakCached(cache: Cache, h: Hasher, k: Arity, n: nat, g: nat, ds: seq<Digest>)
    requires n > 0 && g < |Frontier(k, n)| && Cached(cache, h, ds, ShapeOf(k, n))
    ensures var c := Frontier(k, n)[g];
            var key := (c.left, c.left + Pow(k, c.height) - 1);
            key in cache && cache[key] == Block(h, k, ds, c)
  {
    hide Frontier, Block, Perfect, Fold, Eval, Cached;
    FrontierInit(k, n);
    var c := Frontier(k, n)[g];
    FoldNodes(cache, h, ds, Perfects(k, Frontier(k, n)), k);
    PerfectSpan(k, c);
    PerfectIsBlock(h, k, ds, c);
    CachedKey(cache, h, ds, Perfect(k, c));
  }

  /** Whatever was folded is still a node of the fold. */
  lemma {:induction false} FoldNodes(cache: Cache, h: Hasher, ds: seq<Digest>, items: seq<Shape>, k: Arity)
    requires |items| > 0 && Cached(cache, h, ds, Fold(items, k, MkInner))
    ensures forall g :: 0 <= g < |items| ==> Cached(cache, h, ds, items[g])
    decreases |items|
  {
    hide Eval, Cached;
    FoldUnfold(items, k, MkInner);
    if |items| > k {
      var split := |items| - k;
      var group := items[split..];
      var rest := items[..split] + [MkInner(group)];
      FoldNodes(cache, h, ds, rest, k);
      assert rest[split] == Inner(group);
      CachedParts(cache, h, ds, Inner(group));
      forall g | 0 <= g < |items|
        ensures Cached(cache, h, ds, items[g])
      {
        if g < split {
          assert rest[g] == items[g];
        } else {
          assert group[g - split] == items[g];
        }
      }
    } else if |items| > 1 {
      CachedParts(cache, h, ds, Inner(items));
    }
  }
}

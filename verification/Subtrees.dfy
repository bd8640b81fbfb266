/**
 Structured appends: a caller's subtree is one item of the log, and a proof of one of
 its leaves is a prefix of extra steps in front of the item's own proof.
 */
module Subtrees {
  import opened Base
  import opened Topology
  import opened Spine
  import opened Shapes
  import opened Mountain
  import opened Blocks

  datatype Subtree = Leaf(data: Bytes) | Node(children: seq<Subtree>)

  function Evaluate(h: Hasher, t: Subtree): Digest {
    match t
    case Leaf(data) => h.leaf(data)
    case Node(cs) => NaryMr(h, EvaluateAll(h, cs))
  }

  function EvaluateAll(h: Hasher, cs: seq<Subtree>): (r: seq<Digest>)
    ensures |r| == |cs|
    ensures forall j :: 0 <= j < |cs| ==> r[j] == Evaluate(h, cs[j])
  {
    seq(|cs|, j requires 0 <= j < |cs| => Evaluate(h, cs[j]))
  }

  function CountLeaves(t: Subtree): nat {
    match t
    case Leaf(_) => 1
    case Node(cs) => CountAll(cs)
  }

  function CountAll(cs: seq<Subtree>): nat {
    if |cs| == 0 then 0 else CountLeaves(cs[0]) + CountAll(cs[1..])
  }

  /** The leaves, left to right. */
  function LeavesOf(t: Subtree): (r: seq<Bytes>)
    ensures |r| == CountLeaves(t)
  {
    match t
    case Leaf(data) => [data]
    case Node(cs) => LeavesOfAll(cs)
  }

  function LeavesOfAll(cs: seq<Subtree>): (r: seq<Bytes>)
    ensures |r| == CountAll(cs)
  {
    if |cs| == 0 then [] else LeavesOf(cs[0]) + LeavesOfAll(cs[1..])
  }

  datatype Place = Place(child: nat, offset: nat)

  /** The child that holds leaf `i` of a node, and the leaf's index in it. */
  function Locate(cs: seq<Subtree>, i: nat): (p: Option<Place>)
    ensures p.Some? <==> i < CountAll(cs)
    ensures p.Some? ==> p.value.child < |cs| && p.value.offset < CountLeaves(cs[p.value.child])
  {
    if |cs| == 0 then None
    else if i < CountLeaves(cs[0]) then Some(Place(0, i))
    else
      var p := Locate(cs[1..], i - CountLeaves(cs[0]));
      if p.None? then None else Some(Place(p.value.child + 1, p.value.offset))
  }

  lemma {:induction false} LocateLeaf(cs: seq<Subtree>, i: nat)
    requires i < CountAll(cs)
    ensures var p := Locate(cs, i).value; LeavesOfAll(cs)[i] == LeavesOf(cs[p.child])[p.offset]
  {
    if i >= CountLeaves(cs[0]) {
      LocateLeaf(cs[1..], i - CountLeaves(cs[0]));
    }
  }

  /** The step a node with several children adds; a lone child is promoted without one. */
  function StepAt(h: Hasher, cs: seq<Subtree>, child: nat): seq<ProofStep>
    requires child < |cs|
  {
    if |cs| > 1 then [ProofStep(Remove(EvaluateAll(h, cs), child), child)] else []
  }

  function PathWithin(h: Hasher, t: Subtree, i: nat): (r: Option<seq<ProofStep>>)
    ensures r.Some? <==> i < CountLeaves(t)
    decreases t
  {
    match t
    case Leaf(_) => if i == 0 then Some([]) else None
    case Node(cs) =>
      var p := Locate(cs, i);
      if p.None? then None
      else Some(PathWithin(h, cs[p.value.child], p.value.offset).value + StepAt(h, cs, p.value.child))
  }

  function Later(p: Option<Place>, n: nat): Option<Place> {
    if p.None? then None else Some(Place(p.value.child + n, p.value.offset))
  }

  lemma PathNode(h: Hasher, cs: seq<Subtree>, i: nat, n: nat, offset: nat)
    requires n < |cs|
    ensures Locate(cs, i).None? ==> PathWithin(h, Node(cs), i) == None
    ensures Locate(cs, i) == Some(Place(n, offset)) && |cs| > 1 ==>
              PathWithin(h, Node(cs), i)
              == Some(PathWithin(h, cs[n], offset).value + [ProofStep(Remove(EvaluateAll(h, cs), n), n)])
    ensures Locate(cs, i) == Some(Place(n, offset)) && |cs| == 1 ==>
              PathWithin(h, Node(cs), i) == PathWithin(h, cs[n], offset)
  {
    hide Remove, CountAll;
    if Locate(cs, i) == Some(Place(n, offset)) && |cs| == 1 {
      assert PathWithin(h, cs[n], offset).value + [] == PathWithin(h, cs[n], offset).value;
    }
  }

  lemma LocateNext(cs: seq<Subtree>, n: nat, i: nat)
    requires n < |cs|
    ensures Later(Locate(cs[n..], i), n) ==
              if i < CountLeaves(cs[n]) then Some(Place(n, i))
              else Later(Locate(cs[n + 1..], i - CountLeaves(cs[n])), n + 1)
  {
    assert cs[n..][0] == cs[n] && cs[n..][1..] == cs[n + 1..];
    hide CountLeaves, CountAll;
  }

  lemma LocateNone(h: Hasher, cs: seq<Subtree>, i: nat, rest: nat)
    ensures Locate(cs[|cs|..], rest) == None && Later(None, |cs|) == None
    ensures Locate(cs, i).None? ==> PathWithin(h, Node(cs), i) == None
  {
  }

  lemma LaterSome(p: Option<Place>, n: nat)
    ensures p.Some? ==> Later(p, n).Some?
    ensures Later(p, 0) == p
  {
  }

  /** The recursive path generator. */
  method WithinSubtreePath(h: Hasher, t: Subtree, leafIndex: nat) returns (r: Option<seq<ProofStep>>)
    ensures r == PathWithin(h, t, leafIndex)
    decreases t, 1
  {
    match t
    case Leaf(_) => r := if leafIndex == 0 then Some([]) else None;
    case Node(children) => r := WithinNode(h, t, children, leafIndex);
  }

  /** The scan over the children, keeping a running leaf count. */
  method WithinNode(h: Hasher, t: Subtree, children: seq<Subtree>, leafIndex: nat) returns (r: Option<seq<ProofStep>>)
    requires t == Node(children)
    ensures r == PathWithin(h, Node(children), leafIndex)
    decreases t, 0
  {
    hide *;
    var cumulative := 0;
    assert children[0..] == children;
    LaterSome(Locate(children, leafIndex), 0);
    for n := 0 to |children|
      invariant cumulative <= leafIndex
      invariant Locate(children, leafIndex) == Later(Locate(children[n..], leafIndex - cumulative), n)
    {
      LocateNext(children, n, leafIndex - cumulative);
      var here := CountLeaves(children[n]);
      if leafIndex < cumulative + here {
        PathNode(h, children, leafIndex, n, leafIndex - cumulative);
        var path := WithinSubtreePath(h, children[n], leafIndex - cumulative);
        if |children| > 1 {
          var hashes := EvaluateEach(h, children);
          return Some(path.value + [ProofStep(Remove(hashes, n), n)]);
        }
        return path;
      }
      cumulative := cumulative + here;
    }
    LocateNone(h, children, leafIndex, leafIndex - cumulative);
    r := None;
  }

  method EvaluateEach(h: Hasher, children: seq<Subtree>) returns (hashes: seq<Digest>)
    ensures hashes == EvaluateAll(h, children)
  {
    hide Evaluate;
    hashes := [];
    for c := 0 to |children|
      invariant hashes == EvaluateAll(h, children)[..c]
    {
      hashes := hashes + [Evaluate(h, children[c])];
    }
  }

  /** The path climbs from the leaf to the subtree's root, over steps a verifier admits. */
  lemma {:induction false} WithinClimbs(h: Hasher, t: Subtree, i: nat)
    requires i < CountLeaves(t) && AllAdmissible(PathWithin(h, t, i).value)
    ensures Climb(h, h.leaf(LeavesOf(t)[i]), PathWithin(h, t, i).value) == Evaluate(h, t)
    decreases t
  {
    hide NaryMr, Remove, Climb, Locate, CountAll;
    match t
    case Leaf(data) => ClimbNone(h, h.leaf(data));
    case Node(cs) =>
      var p := Locate(cs, i).value;
      var low := PathWithin(h, cs[p.child], p.offset).value;
      var leaf := h.leaf(LeavesOf(t)[i]);
      assert PathWithin(h, t, i).value == low + StepAt(h, cs, p.child);
      LocateLeaf(cs, i);
      AdmissibleParts(low, StepAt(h, cs, p.child));
      WithinClimbs(h, cs[p.child], p.offset);
      if |cs| > 1 {
        var ds := EvaluateAll(h, cs);
        var step := ProofStep(Remove(ds, p.child), p.child);
        assert Admissible(step) by { assert [step][0] == step; }
        LastStep(h, ds, p.child, leaf, low);
      } else {
        assert low + [] == low;
        LonePromoted(h, EvaluateAll(h, cs));
      }
  }

  lemma AdmissibleParts(a: seq<ProofStep>, b: seq<ProofStep>)
    ensures AllAdmissible(a + b) <==> AllAdmissible(a) && AllAdmissible(b)
  {
    if AllAdmissible(a + b) {
      assert forall i :: 0 <= i < |a| ==> a[i] == (a + b)[i];
      assert forall i :: 0 <= i < |b| ==> b[i] == (a + b)[|a| + i];
    }
  }

  lemma LonePromoted(h: Hasher, ds: seq<Digest>)
    requires |ds| == 1
    ensures NaryMr(h, ds) == ds[0]
  {
  }

  /**
   A leaf of an appended subtree is proved by the path within the item followed by the
   item's path in the log.  The verifier takes it exactly when no node is too wide and
   the whole path is not too long.
   */
  lemma SubtreeProofVerifies(h: Hasher, k: Arity, cells: seq<Digest>, n: nat, index: nat, t: Subtree, i: nat)
    requires index < n <= U64_MAX && i < CountLeaves(t) && At(cells, index) == Evaluate(h, t)
    ensures var within := PathWithin(h, t, i).value;
            var path := within + InclusionPath(h, k, cells, n, index);
            VerifyInclusion(h, h.leaf(LeavesOf(t)[i]), Skeleton(k, n, index), path, MemberRoot(h, k, cells, n))
            <==> |path| <= 256 && AllAdmissible(within)
  {
    hide Skeleton, InclusionPath, MemberRoot, Climb, PathWithin, LeavesOf;
    InclusionVerifies(h, k, cells, n, index);
    var within, log := PathWithin(h, t, i).value, InclusionPath(h, k, cells, n, index);
    assert AllAdmissible(log);
    AdmissibleParts(within, log);
    assert (within + log)[|within|..] == log == log[0..];
    if AllAdmissible(within) {
      WithinClimbs(h, t, i);
      ClimbConcat(h, h.leaf(LeavesOf(t)[i]), within, log);
    }
  }
}

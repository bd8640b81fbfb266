/**
 Hashing trees over numbered tips: the bag of an append-only log (tips are peak
 indices) and the proof spine of a mutable tree (tips are leaf positions).
 */
module Shapes {
  import opened Base
  import opened Spine

  datatype Shape = Tip(index: nat) | Inner(children: seq<Shape>)

  function MkInner(children: seq<Shape>): Shape { Inner(children) }

  /** Every inner node hashes: it has between 2 and 256 children. */
  predicate Hashing(s: Shape) {
    s.Inner? ==> 2 <= |s.children| <= 256 && forall c :: c in s.children ==> Hashing(c)
  }

  /** Reading beyond the end yields an arbitrary digest; no proof relies on which. */
  function At(ds: seq<Digest>, i: nat): Digest { if i < |ds| then ds[i] else HashOf([]) }

  /** The digest of a shape whose tip `i` has digest `tips[i]`. */
  function Eval(h: Hasher, tips: seq<Digest>, s: Shape): Digest {
    match s
    case Tip(i) => At(tips, i)
    case Inner(cs) => NaryMr(h, EvalAll(h, tips, cs))
  }

  function EvalAll(h: Hasher, tips: seq<Digest>, cs: seq<Shape>): (r: seq<Digest>)
    ensures |r| == |cs|
    ensures forall j :: 0 <= j < |cs| ==> r[j] == Eval(h, tips, cs[j])
  {
    seq(|cs|, j requires 0 <= j < |cs| => Eval(h, tips, cs[j]))
  }

  predicate Holds(s: Shape, i: nat) {
    match s
    case Tip(t) => t == i
    case Inner(cs) => exists j :: 0 <= j < |cs| && Holds(cs[j], i)
  }

  /** The first child that holds tip `i`. */
  function Branch(cs: seq<Shape>, i: nat): (j: nat)
    requires exists j :: 0 <= j < |cs| && Holds(cs[j], i)
    ensures j < |cs| && Holds(cs[j], i)
    ensures forall g :: 0 <= g < j ==> !Holds(cs[g], i)
  {
    if Holds(cs[0], i) then 0 else 1 + Branch(cs[1..], i)
  }

  /** The proof path from tip `i` to the root of the shape. */
  function PathTo(h: Hasher, tips: seq<Digest>, s: Shape, i: nat): seq<ProofStep>
    requires Holds(s, i)
  {
    match s
    case Tip(_) => []
    case Inner(cs) =>
      var j := Branch(cs, i);
      PathTo(h, tips, cs[j], i) + [ProofStep(Remove(EvalAll(h, tips, cs), j), j)]
  }

  /** The skeleton from tip `i` to the root of the shape. */
  function SkeletonTo(s: Shape, i: nat): seq<SkeletonStep>
    requires Holds(s, i)
  {
    match s
    case Tip(_) => []
    case Inner(cs) =>
      var j := Branch(cs, i);
      SkeletonTo(cs[j], i) + [SkeletonStep(j, |cs| - 1)]
  }

  /** A generated path leads from the tip to the root and has the skeleton's shape. */
  lemma {:induction false} PathLeadsToRoot(h: Hasher, tips: seq<Digest>, s: Shape, i: nat)
    requires Holds(s, i) && Hashing(s)
    ensures AllAdmissible(PathTo(h, tips, s, i))
    ensures Climb(h, At(tips, i), PathTo(h, tips, s, i)) == Eval(h, tips, s)
    ensures StepShapes(PathTo(h, tips, s, i)) == SkeletonTo(s, i)
    decreases s
  {
    hide NaryMr, Remove, Insert, Climb;
    if s.Inner? {
      var cs := s.children;
      var j := Branch(cs, i);
      assert cs[j] in cs;
      PathLeadsToRoot(h, tips, cs[j], i);
      LastStep(h, EvalAll(h, tips, cs), j, At(tips, i), PathTo(h, tips, cs[j], i));
    } else {
      ClimbNone(h, At(tips, i));
    }
  }

  lemma ClimbNone(h: Hasher, d: Digest)
    ensures Climb(h, d, []) == d
  {
  }

  /** One more step, whose siblings are the node's other children. */
  lemma LastStep(h: Hasher, ds: seq<Digest>, j: nat, d: Digest, path: seq<ProofStep>)
    requires 2 <= |ds| <= 257 && j < |ds| && AllAdmissible(path) && Climb(h, d, path) == ds[j]
    ensures var step := ProofStep(Remove(ds, j), j);
            AllAdmissible(path + [step]) && Climb(h, d, path + [step]) == NaryMr(h, ds)
  {
    hide NaryMr;
    var step := ProofStep(Remove(ds, j), j);
    InsertRemove(ds, j);
    ClimbConcat(h, d, path, [step]);
    assert Climb(h, ds[j], [step]) == Climb(h, Parent(h, ds[j], step), []);
  }

  /** A shape only reads the digests of its own tips. */
  lemma {:induction false} EvalCongruent(h: Hasher, tips: seq<Digest>, tips': seq<Digest>, s: Shape)
    requires forall i :: Holds(s, i) ==> At(tips, i) == At(tips', i)
    ensures Eval(h, tips, s) == Eval(h, tips', s)
    decreases s
  {
    if s.Inner? {
      forall j | 0 <= j < |s.children|
        ensures Eval(h, tips, s.children[j]) == Eval(h, tips', s.children[j])
      {
        assert forall i :: Holds(s.children[j], i) ==> Holds(s, i);
        EvalCongruent(h, tips, tips', s.children[j]);
      }
      assert EvalAll(h, tips, s.children) == EvalAll(h, tips', s.children);
    } else {
      assert Holds(s, s.index);
    }
  }

  // ------------------------------------------------------------------ substitution

  /** Replaces tip `i` by the shape `gs[i]`. */
  function Subst(gs: seq<Shape>, s: Shape): Shape {
    match s
    case Tip(i) => if i < |gs| then gs[i] else s
    case Inner(cs) => Inner(SubstAll(gs, cs))
  }

  function SubstAll(gs: seq<Shape>, cs: seq<Shape>): (r: seq<Shape>)
    ensures |r| == |cs|
    ensures forall j :: 0 <= j < |cs| ==> r[j] == Subst(gs, cs[j])
  {
    seq(|cs|, j requires 0 <= j < |cs| => Subst(gs, cs[j]))
  }

  /** Every tip index is below `n`. */
  predicate TipsBelow(s: Shape, n: nat) {
    match s
    case Tip(i) => i < n
    case Inner(cs) => forall c :: c in cs ==> TipsBelow(c, n)
  }

  /** Evaluating a substituted shape is evaluating over the digests of the replacements. */
  lemma {:induction false} EvalSubst(h: Hasher, tips: seq<Digest>, gs: seq<Shape>, s: Shape)
    requires TipsBelow(s, |gs|)
    ensures Eval(h, tips, Subst(gs, s)) == Eval(h, EvalAll(h, tips, gs), s)
    decreases s
  {
    if s.Inner? {
      forall j | 0 <= j < |s.children|
        ensures Eval(h, tips, Subst(gs, s.children[j])) == Eval(h, EvalAll(h, tips, gs), s.children[j])
      {
        assert s.children[j] in s.children;
        EvalSubst(h, tips, gs, s.children[j]);
      }
      assert EvalAll(h, tips, SubstAll(gs, s.children)) == EvalAll(h, EvalAll(h, tips, gs), s.children);
    }
  }

  /** Tip `i` is found in replacement `t` and in no other. */
  ghost predicate OnlyIn(gs: seq<Shape>, t: nat, i: nat) {
    t < |gs| && forall u :: 0 <= u < |gs| ==> (Holds(gs[u], i) <==> u == t)
  }

  lemma {:induction false} HoldsSubst(gs: seq<Shape>, s: Shape, t: nat, i: nat)
    requires OnlyIn(gs, t, i) && TipsBelow(s, |gs|)
    ensures Holds(Subst(gs, s), i) <==> Holds(s, t)
    decreases s
  {
    if s.Inner? {
      var rs := SubstAll(gs, s.children);
      forall j | 0 <= j < |s.children|
        ensures Holds(rs[j], i) <==> Holds(s.children[j], t)
      {
        assert s.children[j] in s.children;
        HoldsSubst(gs, s.children[j], t, i);
      }
    }
  }

  /** Both shapes leave the node by the same child. */
  lemma BranchSubst(gs: seq<Shape>, cs: seq<Shape>, t: nat, i: nat)
    requires OnlyIn(gs, t, i) && TipsBelow(Inner(cs), |gs|)
    requires Holds(Inner(cs), t)
    ensures Holds(Inner(SubstAll(gs, cs)), i)
    ensures Branch(SubstAll(gs, cs), i) == Branch(cs, t)
  {
    HoldsSubst(gs, Inner(cs), t, i);
    var rs := SubstAll(gs, cs);
    var j, j' := Branch(cs, t), Branch(rs, i);
    assert cs[j] in cs && cs[j'] in cs;
    HoldsSubst(gs, cs[j], t, i);
    HoldsSubst(gs, cs[j'], t, i);
  }

  /** The path into a substituted shape: inside the tip's replacement, then outside it. */
  lemma {:induction false} SkeletonSubst(gs: seq<Shape>, s: Shape, t: nat, i: nat)
    requires OnlyIn(gs, t, i) && TipsBelow(s, |gs|) && Holds(s, t)
    ensures Holds(gs[t], i) && Holds(Subst(gs, s), i)
    ensures SkeletonTo(Subst(gs, s), i) == SkeletonTo(gs[t], i) + SkeletonTo(s, t)
    decreases s
  {
    assert Holds(gs[t], i);
    if s.Inner? {
      var cs := s.children;
      var j := Branch(cs, t);
      assert cs[j] in cs;
      assert Subst(gs, s) == Inner(SubstAll(gs, cs));
      hide *;
      BranchSubst(gs, cs, t, i);
      SkeletonSubst(gs, cs[j], t, i);
      SkeletonUnfold(cs, t);
      SkeletonUnfold(SubstAll(gs, cs), i);
      Assoc(SkeletonTo(gs[t], i), SkeletonTo(cs[j], t), [SkeletonStep(j, |cs| - 1)]);
    }
  }

  lemma SkeletonUnfold(cs: seq<Shape>, i: nat)
    requires Holds(Inner(cs), i)
    ensures var j := Branch(cs, i);
            Holds(cs[j], i) && SkeletonTo(Inner(cs), i) == SkeletonTo(cs[j], i) + [SkeletonStep(j, |cs| - 1)]
  {
  }
}

/**
 What a combined root binds: every member root under it, and when every algorithm was
 active.
 */
module Binding {
  import opened Base
  import opened Topology
  import opened Spine
  import opened Epochs
  import opened NullRuns
  import opened Ledger
  import Soundness

  /** No two inputs have one data hash. */
  ghost predicate HashInjective(h: Hasher) {
    forall a: Bytes, b: Bytes :: h.hash(a) == h.hash(b) ==> a == b
  }

  /** Ids and sizes are 64-bit words, and the entries are in id order. */
  ghost predicate WordTimeline(t: Timeline, n: nat) {
    SortedIds(t) && n <= U64_MAX && |t| <= U64_MAX && forall i :: 0 <= i < |t| ==> t[i].id <= U64_MAX
  }

  /** What a root folds. */
  ghost function Folded(h: Hasher, roots: seq<Digest>, t: Timeline, n: nat, k: Arity): seq<Digest> {
    roots + if SomeInactive(t, n) then [h.hash(SerializeNullRuns(t, n, k))] else []
  }

  /** The fold hashes: it neither promotes a lone child nor collapses equal ones. */
  ghost predicate Hashes(ds: seq<Digest>) { |ds| > 1 && !AllSame(ds) }

  /** A combined root fixes what it folds. */
  lemma RootFixesFold(
      h: Hasher, ra: seq<Digest>, ta: Timeline, m: nat, j: Arity, rb: seq<Digest>, tb: Timeline, n: nat, k: Arity)
    requires Soundness.CollisionFree(h)
    requires Hashes(Folded(h, ra, ta, m, j)) && Hashes(Folded(h, rb, tb, n, k))
    requires CombinedRoot(h, ra, ta, m, j) == CombinedRoot(h, rb, tb, n, k)
    ensures Folded(h, ra, ta, m, j) == Folded(h, rb, tb, n, k)
  {
    CombinedIs(h, ra, ta, m, j);
    CombinedIs(h, rb, tb, n, k);
    hide CombinedRoot, SomeInactive, SerializeNullRuns;
    assert ra + [] == ra && rb + [] == rb;
  }

  /**
   Over equally many member roots a combined root binds each of them, and with them the
   whole activation: arity and size if any position was inactive, and the activity of
   every algorithm in both timelines.
   */
  lemma CombinedRootBinds(
      h: Hasher, ra: seq<Digest>, ta: Timeline, m: nat, j: Arity, rb: seq<Digest>, tb: Timeline, n: nat, k: Arity)
    requires Soundness.CollisionFree(h) && HashInjective(h) && WordTimeline(ta, m) && WordTimeline(tb, n)
    requires |ra| == |rb| && Hashes(Folded(h, ra, ta, m, j)) && Hashes(Folded(h, rb, tb, n, k))
    requires CombinedRoot(h, ra, ta, m, j) == CombinedRoot(h, rb, tb, n, k)
    ensures ra == rb && (SomeInactive(ta, m) <==> SomeInactive(tb, n))
    ensures SomeInactive(ta, m) ==> m == n && j == k
    ensures forall x: nat, y: nat, p: nat :: x < |ta| && y < |tb| && ta[x].id == tb[y].id && p < m && p < n ==>
              (ActiveAt(ta[x].epochs, p) <==> ActiveAt(tb[y].epochs, p))
  {
    RootFixesFold(h, ra, ta, m, j, rb, tb, n, k);
    SameParts(h, ra, ta, m, j, rb, tb, n, k);
    if SomeInactive(ta, m) {
      BytesFix(ta, m, j, tb, n, k);
    }
    hide CombinedRoot, Folded, Hashes, SerializeNullRuns, ActiveAt, WordTimeline;
    forall x: nat, y: nat, p: nat | x < |ta| && y < |tb| && ta[x].id == tb[y].id && p < m && p < n
      ensures ActiveAt(ta[x].epochs, p) <==> ActiveAt(tb[y].epochs, p)
    {
      if SomeInactive(ta, m) {
        WordParts(ta, m);
        WordParts(tb, n);
        BytesBindActivity(k, ta, tb, n, x, y, p);
      }
    }
  }

  lemma WordParts(t: Timeline, n: nat)
    requires WordTimeline(t, n)
    ensures SortedIds(t) && n <= U64_MAX && |t| <= U64_MAX && forall i :: 0 <= i < |t| ==> t[i].id <= U64_MAX
  {
  }

  lemma SameParts(
      h: Hasher, ra: seq<Digest>, ta: Timeline, m: nat, j: Arity, rb: seq<Digest>, tb: Timeline, n: nat, k: Arity)
    requires HashInjective(h) && |ra| == |rb| && Folded(h, ra, ta, m, j) == Folded(h, rb, tb, n, k)
    ensures ra == rb && (SomeInactive(ta, m) <==> SomeInactive(tb, n))
    ensures SomeInactive(ta, m) ==> SerializeNullRuns(ta, m, j) == SerializeNullRuns(tb, n, k)
  {
    hide SomeInactive, SerializeNullRuns;
    var a, b := Folded(h, ra, ta, m, j), Folded(h, rb, tb, n, k);
    assert ra == a[..|ra|] && rb == b[..|rb|];
    if SomeInactive(ta, m) {
      assert a[|ra|] == h.hash(SerializeNullRuns(ta, m, j)) && b[|rb|] == h.hash(SerializeNullRuns(tb, n, k));
    }
  }

  lemma BytesFix(a: Timeline, m: nat, j: Arity, b: Timeline, n: nat, k: Arity)
    requires WordTimeline(a, m) && WordTimeline(b, n) && SerializeNullRuns(a, m, j) == SerializeNullRuns(b, n, k)
    ensures m == n && j == k
  {
    BoundIsWord();
    TimelineEncodable(j, a, m);
    TimelineEncodable(k, b, n);
    AlreadySorted(j, a, m);
    AlreadySorted(k, b, n);
    hide Bound, Encodable, AllNullRuns, Collected, Serialize;
    SerializeInjective(AllNullRuns(j, a, m), m, j, AllNullRuns(k, b, n), n, k);
  }

  // ------------------------------------------------------------------ two logs with one combined root

  /** The two members were active at the same positions below `n`. */
  ghost predicate ActiveAlike(a: Member, b: Member, n: nat) {
    forall p: nat :: p < n ==> (ActiveAt(a.epochs, p) <==> ActiveAt(b.epochs, p))
  }

  /** Registered by size `n`, and so in the timeline committed there. */
  predicate RegisteredBy(m: Member, n: nat) { |m.epochs| > 0 && m.epochs[0].start <= n }

  /**
   Two logs with the same combined root of size `n` have the same member roots there, one
   by one, and the same activity below it of every algorithm both had registered.
   */
  lemma LogBinds(h: Hasher, s: State, a: nat, t: State, b: nat, k: Arity, n: nat)
    requires Soundness.CollisionFree(h) && HashInjective(h) && StateOk(s) && StateOk(t) && 0 < n <= s.size &&
             n <= t.size
    requires a in s.members && b in t.members && s.members[a].hasher == h == t.members[b].hasher
    requires WordTimeline(TimelineAt(s, n), n) && WordTimeline(TimelineAt(t, n), n)
    requires var ra, rb := RootsOf(s.members, Ids(s.members.Keys), k, n), RootsOf(t.members, Ids(t.members.Keys), k, n);
             |ra| == |rb| && Hashes(Folded(h, ra, TimelineAt(s, n), n, k)) &&
               Hashes(Folded(h, rb, TimelineAt(t, n), n, k))
    requires CombinedAt(s, k, a, n) == CombinedAt(t, k, b, n)
    ensures RootsOf(s.members, Ids(s.members.Keys), k, n) == RootsOf(t.members, Ids(t.members.Keys), k, n)
    ensures forall id ::
              id in s.members && id in t.members && RegisteredBy(s.members[id], n) && RegisteredBy(t.members[id], n)
              ==> ActiveAlike(s.members[id], t.members[id], n)
  {
    var ra, rb := RootsOf(s.members, Ids(s.members.Keys), k, n), RootsOf(t.members, Ids(t.members.Keys), k, n);
    var ta, tb := TimelineAt(s, n), TimelineAt(t, n);
    hide *;
    CombinedAtIs(s, k, a, n);
    CombinedAtIs(t, k, b, n);
    CombinedRootBinds(h, ra, ta, n, k, rb, tb, n, k);
    forall id | id in s.members && id in t.members && RegisteredBy(s.members[id], n) && RegisteredBy(t.members[id], n)
      ensures ActiveAlike(s.members[id], t.members[id], n)
    {
      var x := EntryOf(s, n, id);
      var y := EntryOf(t, n, id);
      AlikeFrom(s.members[id], ta[x].epochs, t.members[id], tb[y].epochs, n);
    }
  }

  lemma CombinedAtIs(s: State, k: Arity, id: nat, n: nat)
    requires id in s.members && n > 0
    ensures CombinedAt(s, k, id, n) ==
            CombinedRoot(s.members[id].hasher, RootsOf(s.members, Ids(s.members.Keys), k, n), TimelineAt(s, n), n, k)
  {
    hide CombinedRoot, RootsOf, Ids, TimelineAt;
  }

  /** The committed entry of a registered algorithm has its activity. */
  lemma EntryOf(s: State, n: nat, id: nat) returns (x: nat)
    requires StateOk(s) && n <= s.size && id in s.members && RegisteredBy(s.members[id], n)
    ensures x < |TimelineAt(s, n)| && TimelineAt(s, n)[x].id == id
    ensures forall p: nat :: p < n ==> (ActiveAt(TimelineAt(s, n)[x].epochs, p) <==> ActiveAt(s.members[id].epochs, p))
  {
    var t := TimelineAt(s, n);
    TimelineEntries(s.members, Ids(s.members.Keys), n);
    assert MemberOk(s.members[id], s.size);
    hide TimelineOf, Ids, ActiveAt, StateOk;
    SnapshotActivity(s.members[id].epochs, n, s.size);
    assert EpochsAt(s.members[id].epochs, n).Some?;
    x := Find(t, id);
  }

  lemma {:induction false} Find(t: Timeline, id: nat) returns (x: nat)
    requires Lookup(t, id).Some?
    ensures x < |t| && t[x].id == id && Lookup(t, id) == Some(t[x].epochs)
    decreases |t|
  {
    var last := |t| - 1;
    if t[last].id == id {
      x := last;
    } else {
      x := Find(t[..last], id);
    }
  }

  lemma AlikeFrom(a: Member, ea: seq<Epoch>, b: Member, eb: seq<Epoch>, n: nat)
    requires forall p: nat :: p < n ==> (ActiveAt(ea, p) <==> ActiveAt(a.epochs, p))
    requires forall p: nat :: p < n ==> (ActiveAt(eb, p) <==> ActiveAt(b.epochs, p))
    requires forall p: nat :: p < n ==> (ActiveAt(ea, p) <==> ActiveAt(eb, p))
    ensures ActiveAlike(a, b, n)
  {
    hide ActiveAt;
  }
}

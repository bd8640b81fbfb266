/**
 The log as its history sees it: per algorithm a timeline and the cells it has
 committed.  Every step of the program is one step here, and what is permanent along
 every run is proved here.
 */
module Ledger {
  import opened Base
  import opened Spine
  import opened Mountain
  import opened Blocks
  import opened Subtrees
  import opened Epochs
  import opened NullRuns

  const CAPACITY: nat := 0x8000_0000_0000

  /** One algorithm: cell `i` is the item's digest if the algorithm was active at `i`, else null. */
  datatype Member = Member(hasher: Hasher, epochs: seq<Epoch>, cells: seq<Digest>)

  datatype State = State(members: map<nat, Member>, size: nat)

  datatype Item = LeafItem(data: Bytes) | TreeItem(tree: Subtree)

  datatype Step = Append(item: Item) | Add(alg: nat, hasher: Hasher) | Freeze(alg: nat) | Reopen(alg: nat)

  function ItemDigest(h: Hasher, item: Item): Digest {
    match item
    case LeafItem(data) => h.leaf(data)
    case TreeItem(t) => Evaluate(h, t)
  }

  function Nulls(h: Hasher, n: nat): (r: seq<Digest>)
    ensures |r| == n
    ensures forall i :: 0 <= i < n ==> r[i] == Null(h)
  {
    seq(n, _ => Null(h))
  }

  /** The state check of each step. */
  predicate Enabled(s: State, step: Step) {
    match step
    case Append(_) => s.size < CAPACITY && exists id :: id in s.members && IsActive(s.members[id].epochs)
    case Add(id, _) => id !in s.members
    case Freeze(id) => id in s.members && IsActive(s.members[id].epochs)
    case Reopen(id) => id in s.members && !IsActive(s.members[id].epochs)
  }

  function AppendTo(m: Member, item: Item): Member {
    m.(cells := m.cells + [if IsActive(m.epochs) then ItemDigest(m.hasher, item) else Null(m.hasher)])
  }

  function After(s: State, step: Step): State
    requires Enabled(s, step)
  {
    match step
    case Append(item) => State(map id | id in s.members :: AppendTo(s.members[id], item), s.size + 1)
    case Add(id, h) => s.(members := s.members[id := Member(h, [Epoch(s.size, OPEN)], Nulls(h, s.size))])
    case Freeze(id) =>
      var m := s.members[id];
      s.(members := s.members[id := m.(epochs := CloseAt(m.epochs, s.size))])
    case Reopen(id) =>
      var m := s.members[id];
      s.(members := s.members[id := m.(epochs := m.epochs + [Epoch(s.size, OPEN)])])
  }

  ghost predicate MemberOk(m: Member, n: nat) {
    && WellFormed(m.epochs, n) && |m.cells| == n
    && forall i :: 0 <= i < n && !ActiveAt(m.epochs, i) ==> m.cells[i] == Null(m.hasher)
  }

  ghost predicate StateOk(s: State) {
    s.size <= CAPACITY && forall id :: id in s.members ==> MemberOk(s.members[id], s.size)
  }

  /** What one step may do to a member: extend its cells, and evolve its timeline. */
  ghost predicate Grows(m: Member, n: nat, m': Member, n': nat) {
    && m'.hasher == m.hasher && n <= n' <= n + 1
    && |m.cells| == n && |m'.cells| == n' && m'.cells[..n] == m.cells
    && |m.epochs| > 0 && Evolves(m.epochs, n, m'.epochs)
    && (m'.epochs == m.epochs || (n' == n && IsActive(m.epochs) && m'.epochs == CloseAt(m.epochs, n)) ||
        (n' == n && !IsActive(m.epochs) && m'.epochs == m.epochs + [Epoch(n, OPEN)]))
  }

  lemma EvolvesSelf(es: seq<Epoch>, n: nat)
    requires |es| > 0
    ensures Evolves(es, n, es)
  {
  }

  lemma AppendOk(m: Member, n: nat, item: Item)
    requires MemberOk(m, n) && n + 1 < OPEN
    ensures MemberOk(AppendTo(m, item), n + 1) && Grows(m, n, AppendTo(m, item), n + 1)
  {
    EvolvesSelf(m.epochs, n);
    if IsActive(m.epochs) {
      LastOpen(m.epochs, n);
    }
  }

  lemma AddOk(h: Hasher, n: nat)
    requires n < OPEN
    ensures MemberOk(Member(h, [Epoch(n, OPEN)], Nulls(h, n)), n)
  {
  }

  /** Every step keeps the state in order and only ever extends what is there. */
  lemma StepOk(s: State, step: Step)
    requires StateOk(s) && Enabled(s, step)
    ensures StateOk(After(s, step)) && s.size <= After(s, step).size
    ensures s.members.Keys <= After(s, step).members.Keys
    ensures forall id :: id in s.members ==>
              Grows(s.members[id], s.size, After(s, step).members[id], After(s, step).size)
  {
    hide MemberOk, Grows, WellFormed;
    var t := After(s, step);
    assert CAPACITY + 1 < OPEN;
    forall id | id in t.members
      ensures MemberOk(t.members[id], t.size)
      ensures id in s.members ==> Grows(s.members[id], s.size, t.members[id], t.size)
    {
      if id !in s.members {
        AddOk(step.hasher, s.size);
      } else {
        assert MemberOk(s.members[id], s.size);
        MemberStep(s, step, id);
      }
    }
  }

  lemma MemberStep(s: State, step: Step, id: nat)
    requires Enabled(s, step) && id in s.members && MemberOk(s.members[id], s.size) && s.size + 1 < OPEN
    ensures var t := After(s, step);
            MemberOk(t.members[id], t.size) && Grows(s.members[id], s.size, t.members[id], t.size)
  {
    var m := s.members[id];
    EvolvesSelf(m.epochs, s.size);
    match step
    case Append(item) => AppendOk(m, s.size, item);
    case Add(_, _) =>
    case Freeze(a) =>
      if a == id {
        SameBelow(m.epochs, CloseAt(m.epochs, s.size), s.size);
      }
    case Reopen(a) =>
      if a == id {
        ReopenBelow(m.epochs, m.epochs + [Epoch(s.size, OPEN)], s.size);
      }
  }

  /** The second state holds one more cell of every algorithm, the rest being as it was. */
  ghost predicate OneMoreCell(s: State, s': State) {
    && s'.size == s.size + 1 && s'.members.Keys == s.members.Keys
    && forall id :: id in s.members ==>
         var m, m' := s.members[id], s'.members[id];
         m'.hasher == m.hasher && m'.epochs == m.epochs && |m.cells| == s.size && |m'.cells| == s'.size &&
           m'.cells[..s.size] == m.cells
  }

  /** The new cell of an open algorithm is the hash of the data, of any other null. */
  ghost predicate LeafCommitted(s: State, s': State, data: Bytes) {
    && OneMoreCell(s, s')
    && forall id :: id in s.members ==>
         var m := s.members[id];
         s'.members[id].cells[s.size]
           == if IsActive(m.epochs) then m.hasher.leaf(data) else m.hasher.hash(NULL_PAYLOAD)
  }

  /** It is the digest of the whole tree. */
  ghost predicate TreeCommitted(s: State, s': State, tree: Subtree) {
    && OneMoreCell(s, s')
    && forall id :: id in s.members ==>
         var m := s.members[id];
         s'.members[id].cells[s.size]
           == if IsActive(m.epochs) then Evaluate(m.hasher, tree) else m.hasher.hash(NULL_PAYLOAD)
  }

  /** With the log's own proof of its last cell the leaf verifies. */
  ghost predicate LeafProved(m: Member, k: Arity, n: nat, data: Bytes) {
    n > 0 &&
    VerifyInclusion(m.hasher, m.hasher.leaf(data), Skeleton(k, n, n - 1), InclusionPath(m.hasher, k, m.cells, n, n - 1),
                    MemberRoot(m.hasher, k, m.cells, n))
  }

  /** So does every leaf of a tree, its path inside the tree put before that proof. */
  ghost predicate TreeProved(m: Member, k: Arity, n: nat, tree: Subtree) {
    n > 0 &&
    forall i :: 0 <= i < CountLeaves(tree) ==>
      var within := PathWithin(m.hasher, tree, i).value;
      var path := within + InclusionPath(m.hasher, k, m.cells, n, n - 1);
      AllAdmissible(within) && |path| <= 256 ==>
        VerifyInclusion(m.hasher, m.hasher.leaf(LeavesOf(tree)[i]), Skeleton(k, n, n - 1), path,
                        MemberRoot(m.hasher, k, m.cells, n))
  }

  lemma LeafIsCommitted(s: State, k: Arity, data: Bytes)
    requires StateOk(s) && Enabled(s, Append(LeafItem(data)))
    ensures var s' := After(s, Append(LeafItem(data)));
            s'.size == s.size + 1 && LeafCommitted(s, s', data) &&
              forall id :: id in s'.members && IsActive(s'.members[id].epochs) ==>
                LeafProved(s'.members[id], k, s'.size, data)
  {
    hide WellFormed, IsActive, InclusionPath, Skeleton, MemberRoot, VerifyInclusion;
    var s' := After(s, Append(LeafItem(data)));
    forall id | id in s'.members && IsActive(s'.members[id].epochs)
      ensures LeafProved(s'.members[id], k, s'.size, data)
    {
      assert MemberOk(s.members[id], s.size);
      InclusionVerifies(s.members[id].hasher, k, s'.members[id].cells, s'.size, s.size);
    }
  }

  lemma TreeIsCommitted(s: State, k: Arity, tree: Subtree)
    requires StateOk(s) && Enabled(s, Append(TreeItem(tree)))
    ensures var s' := After(s, Append(TreeItem(tree)));
            s'.size == s.size + 1 && TreeCommitted(s, s', tree) &&
              forall id :: id in s'.members && IsActive(s'.members[id].epochs) ==>
                TreeProved(s'.members[id], k, s'.size, tree)
  {
    hide WellFormed, IsActive, InclusionPath, Skeleton, MemberRoot, VerifyInclusion, PathWithin, LeavesOf, Evaluate;
    var s' := After(s, Append(TreeItem(tree)));
    forall id | id in s'.members && IsActive(s'.members[id].epochs)
      ensures TreeProved(s'.members[id], k, s'.size, tree)
    {
      assert MemberOk(s.members[id], s.size);
      var m := s'.members[id];
      forall i | 0 <= i < CountLeaves(tree) {
        SubtreeProofVerifies(m.hasher, k, m.cells, s'.size, s.size, tree, i);
      }
    }
  }

  // ------------------------------------------------------------------ the committed views

  lemma TopExists(ids: set<nat>)
    requires ids != {}
    ensures exists m :: m in ids && forall x :: x in ids ==> x <= m
    decreases |ids|
  {
    var a :| a in ids;
    if ids != {a} {
      var rest := ids - {a};
      assert rest != {};
      TopExists(rest);
      var m :| m in rest && forall x :: x in rest ==> x <= m;
      var top := if m < a then a else m;
      assert top in ids;
      forall x | x in ids
        ensures x <= top
      {
        if x != a {
          assert x in rest;
        }
      }
    }
  }

  ghost function Top(ids: set<nat>): (m: nat)
    requires ids != {}
    ensures m in ids && forall x :: x in ids ==> x <= m
  {
    TopExists(ids);
    var m :| m in ids && forall x :: x in ids ==> x <= m;
    m
  }

  ghost predicate Ascending(ids: seq<nat>) {
    forall i, j :: 0 <= i < j < |ids| ==> ids[i] < ids[j]
  }

  /** Algorithm ids in ascending order. */
  ghost function Ids(ids: set<nat>): (r: seq<nat>)
    ensures Ascending(r) && forall x :: x in r <==> x in ids
    decreases |ids|
  {
    if ids == {} then [] else Ids(ids - {Top(ids)}) + [Top(ids)]
  }

  /** The timeline committed at size `n`. */
  function TimelineOf(members: map<nat, Member>, ids: seq<nat>, n: nat): Timeline
    requires forall x :: x in ids ==> x in members
  {
    if |ids| == 0 then []
    else
      var id := ids[|ids| - 1];
      TimelineOf(members, ids[..|ids| - 1], n) + Snapshot(id, members[id].epochs, n)
  }

  function Snapshot(id: nat, es: seq<Epoch>, n: nat): Timeline {
    if EpochsAt(es, n).Some? then [Entry(id, EpochsAt(es, n).value)] else []
  }

  /** A member's own root at size `n`. */
  function RootAt(m: Member, k: Arity, n: nat): Digest {
    MemberRoot(m.hasher, k, m.cells, EffectiveSize(m.epochs, n))
  }

  /** The member roots of the algorithms active at position `n - 1`. */
  function RootsOf(members: map<nat, Member>, ids: seq<nat>, k: Arity, n: nat): seq<Digest>
    requires n > 0 && forall x :: x in ids ==> x in members
  {
    if |ids| == 0 then []
    else
      var m := members[ids[|ids| - 1]];
      RootsOf(members, ids[..|ids| - 1], k, n) + (if ActiveAt(m.epochs, n - 1) then [RootAt(m, k, n)] else [])
  }

  ghost function TimelineAt(s: State, n: nat): Timeline { TimelineOf(s.members, Ids(s.members.Keys), n) }

  /** The combined root at size `n` under algorithm `id`'s hash. */
  ghost function CombinedAt(s: State, k: Arity, id: nat, n: nat): Digest
    requires id in s.members
  {
    var h := s.members[id].hasher;
    if n == 0 then h.empty
    else CombinedRoot(h, RootsOf(s.members, Ids(s.members.Keys), k, n), TimelineAt(s, n), n, k)
  }

  // ------------------------------------------------------------------ permanence

  /** A step changes neither the activity nor the effective size of an earlier size. */
  lemma PastTimeline(m: Member, n: nat, m': Member, n': nat, size: nat)
    requires WellFormed(m.epochs, n) && Grows(m, n, m', n') && size <= n < OPEN
    ensures forall i :: 0 <= i < size ==> (ActiveAt(m'.epochs, i) <==> ActiveAt(m.epochs, i))
    ensures EffectiveSize(m'.epochs, size) == EffectiveSize(m.epochs, size) <= size
    ensures m'.epochs[0].start == m.epochs[0].start
  {
    hide CloseAt;
    if m'.epochs != m.epochs {
      var es, es' := m.epochs, m'.epochs;
      if IsActive(es) {
        SameBelow(es, es', n);
        CloseEnds(es, n, size);
      } else {
        ReopenBelow(es, es', n);
        ReopenEnds(es, n, size);
      }
    }
    EffectiveBound(m.epochs, size);
  }

  lemma CloseEnds(es: seq<Epoch>, n: nat, size: nat)
    requires |es| > 0 && IsActive(es) && size <= n < OPEN
    ensures MaxEndBelow(CloseAt(es, n), size) == MaxEndBelow(es, size)
    ensures CloseAt(es, n)[0].start == es[0].start
  {
    assert CloseAt(es, n)[..|es| - 1] == es[..|es| - 1];
  }

  lemma ReopenEnds(es: seq<Epoch>, n: nat, size: nat)
    requires |es| > 0 && size <= n < OPEN
    ensures MaxEndBelow(es + [Epoch(n, OPEN)], size) == MaxEndBelow(es, size)
  {
    assert (es + [Epoch(n, OPEN)])[..|es|] == es;
  }

  lemma EffectiveBound(es: seq<Epoch>, size: nat)
    ensures EffectiveSize(es, size) <= size
  {
    MaxEndSize(es, size);
  }

  /** A member's root at a past size never changes. */
  lemma PastRoot(m: Member, n: nat, m': Member, n': nat, k: Arity, size: nat)
    requires MemberOk(m, n) && Grows(m, n, m', n') && size <= n < OPEN
    ensures RootAt(m', k, size) == RootAt(m, k, size)
  {
    hide MemberRoot, EffectiveSize, Evolves;
    PastTimeline(m, n, m', n', size);
    assert m'.cells == m.cells + m'.cells[n..];
    PeaksPermanent(m.hasher, k, m.cells, m'.cells[n..], EffectiveSize(m.epochs, size));
  }

  /** Two timelines with the same algorithms and the same activity below `n`. */
  ghost predicate SameActivity(a: Timeline, b: Timeline, n: nat) {
    |a| == |b| && forall i :: 0 <= i < |a| ==>
      a[i].id == b[i].id && forall p :: 0 <= p < n ==> (ActiveAt(a[i].epochs, p) <==> ActiveAt(b[i].epochs, p))
  }

  lemma {:induction false} SameRuns(k: Arity, a: Timeline, b: Timeline, n: nat)
    requires SameActivity(a, b, n)
    ensures Collected(k, a, n) == Collected(k, b, n) && AllNullRuns(k, a, n) == AllNullRuns(k, b, n)
  {
    hide NullRunsOf, ActiveAt;
    if |a| > 0 {
      RunsAreActivity(k, a[0].epochs, b[0].epochs, n);
      SameRuns(k, a[1..], b[1..], n);
    }
  }

  /** Every old member stands as before at sizes up to `n`. */
  ghost predicate Extends(s: State, t: State) {
    s.members.Keys <= t.members.Keys && s.size <= t.size < OPEN && StateOk(s) &&
    forall id :: id in s.members ==> Grows(s.members[id], s.size, t.members[id], t.size)
  }

  lemma {:induction false} SameTimeline(s: State, t: State, ids: seq<nat>, n: nat)
    requires Extends(s, t) && n <= s.size && (forall x :: x in ids ==> x in s.members)
    ensures SameActivity(TimelineOf(s.members, ids, n), TimelineOf(t.members, ids, n), n)
  {
    hide ActiveAt, EpochsAt, WellFormed, Evolves, StateOk;
    if |ids| > 0 {
      var id := ids[|ids| - 1];
      assert id in ids;
      SameTimeline(s, t, ids[..|ids| - 1], n);
      SameSnapshot(s, t, id, n);
    }
  }

  lemma SameSnapshot(s: State, t: State, id: nat, n: nat)
    requires Extends(s, t) && n <= s.size && id in s.members
    ensures SameActivity(Snapshot(id, s.members[id].epochs, n), Snapshot(id, t.members[id].epochs, n), n)
  {
    hide ActiveAt, EpochsFrom, WellFormed, Evolves;
    var m, m' := s.members[id], t.members[id];
    assert MemberOk(m, s.size);
    PastTimeline(m, s.size, m', t.size, n);
    SnapshotStarts(m.epochs, n);
    SnapshotStarts(m'.epochs, n);
    SnapshotBelow(m.epochs, s.size, n);
    GrownWellFormed(m, s.size, m', t.size);
    SnapshotBelow(m'.epochs, t.size, n);
  }

  lemma GrownWellFormed(m: Member, n: nat, m': Member, n': nat)
    requires WellFormed(m.epochs, n) && Grows(m, n, m', n') && n' < OPEN
    ensures WellFormed(m'.epochs, n')
  {
    if m'.epochs != m.epochs {
      if IsActive(m.epochs) {
        SameBelow(m.epochs, m'.epochs, n);
      } else {
        ReopenBelow(m.epochs, m'.epochs, n);
      }
    }
  }

  lemma SnapshotStarts(es: seq<Epoch>, n: nat)
    requires |es| > 0
    ensures EpochsAt(es, n).Some? <==> es[0].start <= n
  {
  }

  lemma SnapshotBelow(es: seq<Epoch>, total: nat, n: nat)
    requires WellFormed(es, total) && n <= total < OPEN
    ensures forall p :: 0 <= p < n ==> (ActiveAt(EpochsFrom(es, n), p) <==> ActiveAt(es, p))
  {
    hide ActiveAt, EpochsFrom, WellFormed;
    SnapshotActivity(es, n, total);
  }

  lemma {:induction false} SameRoots(s: State, t: State, ids: seq<nat>, k: Arity, n: nat)
    requires Extends(s, t) && 0 < n <= s.size && (forall x :: x in ids ==> x in s.members)
    ensures RootsOf(t.members, ids, k, n) == RootsOf(s.members, ids, k, n)
  {
    hide ActiveAt, RootAt, Evolves, WellFormed;
    if |ids| > 0 {
      var id := ids[|ids| - 1];
      assert id in ids;
      SameRoots(s, t, ids[..|ids| - 1], k, n);
      var m, m' := s.members[id], t.members[id];
      assert MemberOk(m, s.size);
      PastTimeline(m, s.size, m', t.size, n);
      PastRoot(m, s.size, m', t.size, k, n);
    }
  }

  lemma IdsUnfold(ids: set<nat>)
    requires ids != {}
    ensures Ids(ids) == Ids(ids - {Top(ids)}) + [Top(ids)]
  {
  }

  /** Ids with a larger one added: it comes last, or behind the same largest id. */
  lemma IdsInsert(ids: set<nat>, x: nat)
    requires x !in ids
    ensures var top := Top(ids + {x});
            Ids(ids + {x}) == Ids(ids + {x} - {top}) + [top] &&
            (top == x ==> ids + {x} - {top} == ids) &&
            (top != x ==>
               top in ids && ids + {x} - {top} == (ids - {top}) + {x} && Ids(ids) == Ids(ids - {top}) + [top])
  {
    hide Ids;
    var top := Top(ids + {x});
    IdsUnfold(ids + {x});
    if top != x {
      assert Top(ids) == top;
      IdsUnfold(ids);
    }
  }

  lemma TimelineSnoc(members: map<nat, Member>, ids: seq<nat>, x: nat, n: nat)
    requires (forall y :: y in ids ==> y in members) && x in members
    ensures TimelineOf(members, ids + [x], n) == TimelineOf(members, ids, n) + Snapshot(x, members[x].epochs, n)
  {
    hide Snapshot;
    assert (ids + [x])[..|ids|] == ids;
  }

  lemma RootsSnoc(members: map<nat, Member>, ids: seq<nat>, x: nat, k: Arity, n: nat)
    requires (forall y :: y in ids ==> y in members) && x in members && n > 0
    ensures RootsOf(members, ids + [x], k, n) == RootsOf(members, ids, k, n) +
              (if ActiveAt(members[x].epochs, n - 1) then [RootAt(members[x], k, n)] else [])
  {
    hide ActiveAt, RootAt;
    assert (ids + [x])[..|ids|] == ids;
  }

  /** An algorithm that began after `n` leaves no trace in what is committed at `n`. */
  lemma {:induction false} LateTimeline(members: map<nat, Member>, ids: set<nat>, x: nat, start: nat, n: nat)
    requires x !in ids && ids + {x} <= members.Keys
    requires members[x].epochs == [Epoch(start, OPEN)] && n < start
    ensures TimelineOf(members, Ids(ids + {x}), n) == TimelineOf(members, Ids(ids), n)
    decreases |ids|
  {
    LateAbsent(members, x, start, n);
    hide *;
    var top := Top(ids + {x});
    IdsInsert(ids, x);
    TimelineSnoc(members, Ids(ids + {x} - {top}), top, n);
    if top == x {
      assert TimelineOf(members, Ids(ids), n) + [] == TimelineOf(members, Ids(ids), n);
    } else {
      LateTimeline(members, ids - {top}, x, start, n);
      TimelineSnoc(members, Ids(ids - {top}), top, n);
    }
  }

  lemma {:induction false} LateRoots(members: map<nat, Member>, ids: set<nat>, x: nat, start: nat, k: Arity, n: nat)
    requires x !in ids && ids + {x} <= members.Keys && n > 0
    requires members[x].epochs == [Epoch(start, OPEN)] && n < start
    ensures RootsOf(members, Ids(ids + {x}), k, n) == RootsOf(members, Ids(ids), k, n)
    decreases |ids|
  {
    LateAbsent(members, x, start, n);
    hide *;
    var top := Top(ids + {x});
    IdsInsert(ids, x);
    RootsSnoc(members, Ids(ids + {x} - {top}), top, k, n);
    if top == x {
      assert RootsOf(members, Ids(ids), k, n) + [] == RootsOf(members, Ids(ids), k, n);
    } else {
      LateRoots(members, ids - {top}, x, start, k, n);
      RootsSnoc(members, Ids(ids - {top}), top, k, n);
    }
  }

  lemma LateAbsent(members: map<nat, Member>, x: nat, start: nat, n: nat)
    requires x in members && members[x].epochs == [Epoch(start, OPEN)] && n < start
    ensures Snapshot(x, members[x].epochs, n) == [] && (n > 0 ==> !ActiveAt(members[x].epochs, n - 1))
  {
  }

  /**
   Past roots are permanent: no step changes a committed root of an earlier size, nor,
   unless it registers an algorithm, the root of the present size.
   */
  lemma PastCombined(s: State, step: Step, k: Arity, id: nat, n: nat)
    requires StateOk(s) && Enabled(s, step) && id in s.members
    requires n <= s.size && (n < s.size || !step.Add? || n == 0)
    ensures id in After(s, step).members
    ensures RootAt(After(s, step).members[id], k, n) == RootAt(s.members[id], k, n)
    ensures CombinedAt(After(s, step), k, id, n) == CombinedAt(s, k, id, n)
  {
    hide RootAt, Evolves, MemberOk, AllNullRuns, TimelineOf, RootsOf, Ids, WellFormed;
    StepOk(s, step);
    var t := After(s, step);
    assert CAPACITY < OPEN;
    assert MemberOk(s.members[id], s.size);
    assert Extends(s, t);
    PastRoot(s.members[id], s.size, t.members[id], t.size, k, n);
    assert t.members[id].hasher == s.members[id].hasher;
    if n > 0 {
      hide Grows, CombinedRoot;
      SameCombined(s, t, Ids(s.members.Keys), k, t.members[id].hasher, n);
      if step.Add? {
        LateTimeline(t.members, s.members.Keys, step.alg, s.size, n);
        LateRoots(t.members, s.members.Keys, step.alg, s.size, k, n);
        assert t.members.Keys == s.members.Keys + {step.alg};
      } else {
        assert t.members.Keys == s.members.Keys;
      }
    }
  }

  lemma SameCombined(s: State, t: State, ids: seq<nat>, k: Arity, h: Hasher, n: nat)
    requires Extends(s, t) && 0 < n <= s.size && (forall x :: x in ids ==> x in s.members)
    ensures CombinedRoot(h, RootsOf(s.members, ids, k, n), TimelineOf(s.members, ids, n), n, k)
         == CombinedRoot(h, RootsOf(t.members, ids, k, n), TimelineOf(t.members, ids, n), n, k)
  {
    hide Grows, StateOk, AllNullRuns, TimelineOf, RootsOf;
    SameTimeline(s, t, ids, n);
    SameRoots(s, t, ids, k, n);
    SameRuns(k, TimelineOf(s.members, ids, n), TimelineOf(t.members, ids, n), n);
  }

  // ------------------------------------------------------------------ runs

  predicate EnabledAll(s: State, steps: seq<Step>)
    decreases |steps|
  {
    |steps| == 0 || (Enabled(s, steps[0]) && EnabledAll(After(s, steps[0]), steps[1..]))
  }

  /** The state after a run of steps. */
  function AfterAll(s: State, steps: seq<Step>): State
    requires EnabledAll(s, steps)
    decreases |steps|
  {
    if |steps| == 0 then s else AfterAll(After(s, steps[0]), steps[1..])
  }

  const Genesis: State := State(map[], 0)

  lemma {:induction false} RunOk(s: State, steps: seq<Step>)
    requires StateOk(s) && EnabledAll(s, steps)
    ensures StateOk(AfterAll(s, steps)) && s.size <= AfterAll(s, steps).size
    ensures s.members.Keys <= AfterAll(s, steps).members.Keys
    decreases |steps|
  {
    hide StateOk, Enabled, After;
    if |steps| > 0 {
      StepOk(s, steps[0]);
      RunOk(After(s, steps[0]), steps[1..]);
    }
  }

  /** Past roots are permanent along every run. */
  lemma {:induction false} PastRootsPermanent(s: State, steps: seq<Step>, k: Arity, id: nat, n: nat)
    requires StateOk(s) && EnabledAll(s, steps) && id in s.members
    requires n < s.size || (n == s.size && forall i :: 0 <= i < |steps| ==> !steps[i].Add?)
    ensures id in AfterAll(s, steps).members
    ensures RootAt(AfterAll(s, steps).members[id], k, n) == RootAt(s.members[id], k, n)
    ensures CombinedAt(AfterAll(s, steps), k, id, n) == CombinedAt(s, k, id, n)
    decreases |steps|
  {
    hide StateOk, Enabled, After, RootAt, CombinedAt;
    if |steps| > 0 {
      StepOk(s, steps[0]);
      PastCombined(s, steps[0], k, id, n);
      PastRootsPermanent(After(s, steps[0]), steps[1..], k, id, n);
    }
  }

  // ------------------------------------------------------------------ live and historical

  /**
   The present size read historically is the tree size of the live view, except for an
   algorithm reopened at this size after a gap, which the historical read still sees at
   its last freeze.
   */
  lemma LiveMatchesHistorical(es: seq<Epoch>, n: nat)
    requires WellFormed(es, n) && 0 < n < OPEN
    ensures EffectiveSize(es, n) == TreeSize(es, n)
       <==> n <= FirstActivation(es) || ActiveAt(es, n - 1) || TreeSize(es, n) < n
    ensures ActiveAt(es, n - 1) ==> TreeSize(es, n) == n
  {
    hide ActiveAt;
    MaxEndSize(es, n);
    if !IsActive(es) {
      EndsOrdered(es);
      MaxEndTop(es[..|es| - 1], n, es[|es| - 1].end);
      ClosedBelow(es, n, n - 1);
    }
  }

  // ------------------------------------------------------------------ timelines along runs

  /** A timeline over some of the algorithms, in id order. */
  ghost predicate Covers(t: Timeline, members: map<nat, Member>, ids: seq<nat>, n: nat)
    requires forall x :: x in ids ==> x in members
  {
    && SortedIds(t)
    && (forall i :: 0 <= i < |t| ==>
          t[i].id in ids && EpochsAt(members[t[i].id].epochs, n) == Some(t[i].epochs))
    && (forall x :: x in members ==> Lookup(t, x) == if x in ids then EpochsAt(members[x].epochs, n) else None)
  }

  lemma CoversNext(t: Timeline, members: map<nat, Member>, ids: seq<nat>, last: nat, n: nat)
    requires (forall x :: x in ids ==> x in members && x < last) && last in members && Covers(t, members, ids, n)
    ensures Covers(t + Snapshot(last, members[last].epochs, n), members, ids + [last], n)
  {
    hide EpochsAt;
    var e := EpochsAt(members[last].epochs, n);
    if e.Some? {
      assert (t + [Entry(last, e.value)])[..|t|] == t;
    } else {
      assert t + [] == t;
    }
  }

  /** Snapshots hold exactly the algorithms registered by then. */
  lemma {:induction false} TimelineEntries(members: map<nat, Member>, ids: seq<nat>, n: nat)
    requires Ascending(ids) && (forall x :: x in ids ==> x in members)
    ensures Covers(TimelineOf(members, ids, n), members, ids, n)
  {
    hide EpochsAt, Snapshot, Covers;
    if |ids| > 0 {
      var init, last := ids[..|ids| - 1], ids[|ids| - 1];
      TimelineEntries(members, init, n);
      assert ids == init + [last];
      CoversNext(TimelineOf(members, init, n), members, init, last, n);
    } else {
      assert Covers([], members, [], n) by { NoneCovered(members, n); }
    }
  }

  lemma NoneCovered(members: map<nat, Member>, n: nat)
    ensures Covers([], members, [], n)
  {
  }

  lemma SnapshotWellFormed(es: seq<Epoch>, total: nat, n: nat)
    requires WellFormed(es, total) && n <= total < OPEN
    ensures EpochsAt(es, n).Some? ==> WellFormed(EpochsAt(es, n).value, n)
  {
    hide EpochsAt, WellFormed, ActiveAt;
    SnapshotActivity(es, n, total);
  }

  lemma TimelineValid(s: State, n: nat)
    requires StateOk(s) && n <= s.size
    ensures ValidTimeline(TimelineAt(s, n), n)
  {
    hide EpochsAt, WellFormed, TimelineOf, Ids;
    TimelineEntries(s.members, Ids(s.members.Keys), n);
    forall i | 0 <= i < |TimelineAt(s, n)|
      ensures WellFormed(TimelineAt(s, n)[i].epochs, n)
    {
      var id := TimelineAt(s, n)[i].id;
      assert MemberOk(s.members[id], s.size);
      SnapshotWellFormed(s.members[id].epochs, s.size, n);
    }
  }

  /** Along a run timelines evolve, and new algorithms begin where the run began or later. */
  lemma {:induction false} RunEvolves(s: State, steps: seq<Step>, id: nat)
    requires StateOk(s) && EnabledAll(s, steps) && id in AfterAll(s, steps).members
    ensures id in s.members ==>
              |s.members[id].epochs| > 0 &&
              Evolves(s.members[id].epochs, s.size, AfterAll(s, steps).members[id].epochs)
    ensures id !in s.members ==>
              |AfterAll(s, steps).members[id].epochs| > 0 &&
              AfterAll(s, steps).members[id].epochs[0].start >= s.size
    decreases |steps|
  {
    hide MemberOk, Evolves, After, Enabled;
    if |steps| == 0 {
      if id in s.members {
        MemberEpochs(s, id);
        EvolvesSelf(s.members[id].epochs, s.size);
      }
    } else {
      var t := After(s, steps[0]);
      StepOk(s, steps[0]);
      RunEvolves(t, steps[1..], id);
      if id in s.members {
        MemberEpochs(s, id);
        MemberEpochs(t, id);
        EvolvesTransitive(s.members[id].epochs, s.size, t.members[id].epochs, t.size,
          AfterAll(s, steps).members[id].epochs);
      } else if id in t.members {
        NewMember(s, steps[0], id);
        EvolvedStart(t.members[id].epochs, t.size, AfterAll(s, steps).members[id].epochs);
      }
    }
  }

  lemma MemberEpochs(s: State, id: nat)
    requires StateOk(s) && id in s.members
    ensures WellFormed(s.members[id].epochs, s.size) && |s.members[id].epochs| > 0
  {
  }

  lemma NewMember(s: State, step: Step, id: nat)
    requires Enabled(s, step) && id in After(s, step).members && id !in s.members
    ensures After(s, step).members[id].epochs == [Epoch(s.size, OPEN)] && After(s, step).size == s.size
  {
  }

  lemma EvolvedStart(a: seq<Epoch>, m: nat, b: seq<Epoch>)
    requires |a| > 0 && Evolves(a, m, b)
    ensures |b| > 0 && b[0].start == a[0].start
  {
    SamePrefix(a, m, b);
  }

  /** Any two timelines committed along one run are accepted as an evolution. */
  lemma CommittedEvolves(s: State, steps: seq<Step>, m: nat, n: nat)
    requires StateOk(s) && EnabledAll(s, steps)
    requires m <= s.size && m <= n <= AfterAll(s, steps).size
    ensures VerifyEvolution(TimelineAt(s, m), m, TimelineAt(AfterAll(s, steps), n), n)
  {
    hide MemberOk, Evolves, EpochsAt, WellFormed, TimelineOf, Ids, EnabledAll;
    RunOk(s, steps);
    var t := AfterAll(s, steps);
    hide AfterAll, StateOk;
    var a, b := TimelineAt(s, m), TimelineAt(t, n);
    TimelineValid(s, m);
    TimelineValid(t, n);
    TimelineEntries(s.members, Ids(s.members.Keys), m);
    TimelineEntries(t.members, Ids(t.members.Keys), n);
    forall i | 0 <= i < |a|
      ensures |a[i].epochs| > 0
      ensures var now := Lookup(b, a[i].id); now.Some? && Evolves(a[i].epochs, m, now.value)
    {
      var id := a[i].id;
      RunEvolves(s, steps, id);
      MemberEpochs(s, id);
      MemberEpochs(t, id);
      SnapshotsEvolve(s.members[id].epochs, s.size, t.members[id].epochs, t.size, m, n);
      SnapshotNonempty(s.members[id].epochs, m);
    }
    forall i | 0 <= i < |b| && Lookup(a, b[i].id).None?
      ensures |b[i].epochs| > 0 && b[i].epochs[0].start >= m
    {
      var id := b[i].id;
      MemberEpochs(t, id);
      SnapshotNonempty(t.members[id].epochs, n);
      RunEvolves(s, steps, id);
      if id in s.members {
        MemberEpochs(s, id);
        SnapshotNonempty(s.members[id].epochs, m);
        EvolvedStart(s.members[id].epochs, s.size, t.members[id].epochs);
      }
    }
    LookupOld(s, m);
  }

  lemma LookupOld(s: State, m: nat)
    ensures forall x :: x !in s.members ==> Lookup(TimelineAt(s, m), x) == None
  {
    hide EpochsAt;
    TimelineEntries(s.members, Ids(s.members.Keys), m);
    forall x | x !in s.members
      ensures Lookup(TimelineAt(s, m), x) == None
    {
      LookupIs(TimelineAt(s, m), x);
    }
  }

  lemma SnapshotNonempty(es: seq<Epoch>, n: nat)
    requires |es| > 0
    ensures EpochsAt(es, n).Some? <==> es[0].start <= n
    ensures EpochsAt(es, n).Some? ==> |EpochsAt(es, n).value| > 0 && EpochsAt(es, n).value[0].start == es[0].start
  {
  }

  // ------------------------------------------------------------------ sorted ids

  /** Without its last, largest id. */
  lemma AscendingInit(a: seq<nat>)
    requires Ascending(a) && |a| > 0
    ensures var init, last := a[..|a| - 1], a[|a| - 1];
            Ascending(init) && a == init + [last] && last in a &&
            forall z :: (z in init <==> z in a && z != last) && (z in a ==> z <= last)
  {
    var init, last := a[..|a| - 1], a[|a| - 1];
    assert a == init + [last];
    forall z | z in a
      ensures z <= last && (z == last || z in init)
    {
      var i :| 0 <= i < |a| && a[i] == z;
    }
  }

  /** Sorting is canonical: ascending lists of the same ids are equal. */
  lemma {:induction false} AscendingUnique(a: seq<nat>, b: seq<nat>)
    requires Ascending(a) && Ascending(b) && forall x :: x in a <==> x in b
    ensures a == b
    decreases |a|
  {
    hide Ascending;
    if |b| > 0 {
      assert b[0] in b;
    }
    if |a| > 0 {
      assert a[0] in b;
      AscendingInit(a);
      AscendingInit(b);
      AscendingUnique(a[..|a| - 1], b[..|b| - 1]);
    }
  }

  /** The ids among `ids` that were active at position `n - 1`. */
  function ActiveIds(members: map<nat, Member>, ids: seq<nat>, n: nat): (r: seq<nat>)
    requires n > 0 && forall x :: x in ids ==> x in members
    ensures forall x :: x in r <==> x in ids && ActiveAt(members[x].epochs, n - 1)
  {
    if |ids| == 0 then []
    else
      var id := ids[|ids| - 1];
      ActiveIds(members, ids[..|ids| - 1], n) + (if ActiveAt(members[id].epochs, n - 1) then [id] else [])
  }

  function RootMap(members: map<nat, Member>, ids: seq<nat>, k: Arity, n: nat): (r: seq<Digest>)
    requires forall x :: x in ids ==> x in members
    ensures |r| == |ids| && forall i :: 0 <= i < |ids| ==> r[i] == RootAt(members[ids[i]], k, n)
  {
    seq(|ids|, i requires 0 <= i < |ids| => RootAt(members[ids[i]], k, n))
  }

  lemma {:induction false} RootsAreActive(members: map<nat, Member>, ids: seq<nat>, k: Arity, n: nat)
    requires n > 0 && forall x :: x in ids ==> x in members
    ensures RootsOf(members, ids, k, n) == RootMap(members, ActiveIds(members, ids, n), k, n)
  {
    hide ActiveAt, RootAt;
    if |ids| > 0 {
      RootsAreActive(members, ids[..|ids| - 1], k, n);
    }
  }

  // ------------------------------------------------------------------ sealing

  datatype SealedFrontier = SealedFrontier(alg: nat, peaks: seq<Digest>)

  datatype Sealed = Sealed(size: nat, arity: nat, frontiers: seq<SealedFrontier>, timeline: Timeline)

  /** The peaks of the algorithms still open. */
  function SealedFrontiers(members: map<nat, Member>, ids: seq<nat>, k: Arity, n: nat): seq<SealedFrontier>
    requires forall x :: x in ids ==> x in members
  {
    if |ids| == 0 then []
    else
      var id := ids[|ids| - 1];
      var m := members[id];
      SealedFrontiers(members, ids[..|ids| - 1], k, n)
        + (if IsActive(m.epochs) then [SealedFrontier(id, Peaks(m.hasher, k, m.cells, n))] else [])
  }

  ghost function SealedOf(s: State, k: Arity): Sealed {
    if s.size == 0 then Sealed(0, k, [], [])
    else Sealed(s.size, k, SealedFrontiers(s.members, Ids(s.members.Keys), k, s.size), TimelineAt(s, s.size))
  }

  /** What a seal carries over: the algorithms still open, if anything was appended. */
  function Carried(s: State): State {
    State(map id | id in s.members && s.size > 0 && IsActive(s.members[id].epochs) :: s.members[id], s.size)
  }

  lemma CarriedOk(s: State)
    requires StateOk(s)
    ensures StateOk(Carried(s))
  {
    hide MemberOk;
  }

  /** One appended leaf, and the single-leaf subtree a resumed log appends in its place. */
  function FlatSteps(data: seq<Bytes>): (r: seq<Step>)
    ensures |r| == |data|
    ensures forall i :: 0 <= i < |data| ==> r[i] == Append(LeafItem(data[i]))
  {
    seq(|data|, i requires 0 <= i < |data| => Append(LeafItem(data[i])))
  }

  function TreeSteps(data: seq<Bytes>): (r: seq<Step>)
    ensures |r| == |data|
    ensures forall i :: 0 <= i < |data| ==> r[i] == Append(TreeItem(Leaf(data[i])))
  {
    seq(|data|, i requires 0 <= i < |data| => Append(TreeItem(Leaf(data[i]))))
  }

  /** Two states that agree on every algorithm the second one has. */
  ghost predicate Agrees(s: State, t: State) {
    s.size == t.size && t.members.Keys <= s.members.Keys && forall id :: id in t.members ==>
      t.members[id] == s.members[id]
  }

  /**
   Sealing then resuming simulates never sealing: the resumed log, given the same items
   as single-leaf subtrees, has the same cells, hence the same member root at every size.
   */
  lemma {:induction false} ResumeSimulates(s: State, t: State, data: seq<Bytes>, k: Arity)
    requires Agrees(s, t) && EnabledAll(t, TreeSteps(data))
    ensures EnabledAll(s, FlatSteps(data))
    ensures Agrees(AfterAll(s, FlatSteps(data)), AfterAll(t, TreeSteps(data)))
    ensures AfterAll(t, TreeSteps(data)).members.Keys == t.members.Keys
    ensures forall id, n :: id in t.members ==>
              RootAt(AfterAll(t, TreeSteps(data)).members[id], k, n)
                == RootAt(AfterAll(s, FlatSteps(data)).members[id], k, n)
    decreases |data|
  {
    hide RootAt;
    if |data| > 0 {
      hide *;
      var a, b := Append(LeafItem(data[0])), Append(TreeItem(Leaf(data[0])));
      assert FlatSteps(data) == [a] + FlatSteps(data[1..]);
      assert TreeSteps(data) == [b] + TreeSteps(data[1..]);
      RunUnfold(t, b, TreeSteps(data[1..]));
      SameItem(data[0]);
      OpenExists(s, t, a, b);
      RunUnfold(s, a, FlatSteps(data[1..]));
      ResumeSimulates(After(s, a), After(t, b), data[1..], k);
    }
  }

  lemma RunUnfold(s: State, step: Step, rest: seq<Step>)
    ensures EnabledAll(s, [step] + rest) <==> Enabled(s, step) && EnabledAll(After(s, step), rest)
    ensures EnabledAll(s, [step] + rest) ==> AfterAll(s, [step] + rest) == AfterAll(After(s, step), rest)
  {
    assert ([step] + rest)[1..] == rest;
  }

  lemma SameItem(data: Bytes)
    ensures forall h: Hasher :: ItemDigest(h, LeafItem(data)) == ItemDigest(h, TreeItem(Leaf(data)))
  {
  }

  lemma OpenExists(s: State, t: State, a: Step, b: Step)
    requires Agrees(s, t) && Enabled(t, b) && a.Append? && b.Append?
    requires forall h: Hasher :: ItemDigest(h, a.item) == ItemDigest(h, b.item)
    ensures Enabled(s, a) && Agrees(After(s, a), After(t, b)) && After(t, b).members.Keys == t.members.Keys
  {
    var id :| id in t.members && IsActive(t.members[id].epochs);
    assert id in s.members;
  }

  /** At the present size every registered algorithm has an entry: its own timeline. */
  lemma {:induction false} TimelineFull(members: map<nat, Member>, ids: seq<nat>, n: nat)
    requires forall x :: x in ids ==> x in members && WellFormed(members[x].epochs, n)
    requires n < OPEN
    ensures |TimelineOf(members, ids, n)| == |ids|
    ensures forall i :: 0 <= i < |ids| ==> TimelineOf(members, ids, n)[i] == Entry(ids[i], members[ids[i]].epochs)
  {
    hide WellFormed, EpochsAt;
    if |ids| > 0 {
      var id := ids[|ids| - 1];
      assert id in ids;
      TimelineFull(members, ids[..|ids| - 1], n);
      SnapshotNow(members[id].epochs, n);
    }
  }

  lemma SealedSnoc(members: map<nat, Member>, ids: seq<nat>, x: nat, k: Arity, n: nat)
    requires (forall y :: y in ids ==> y in members) && x in members
    ensures SealedFrontiers(members, ids + [x], k, n) == SealedFrontiers(members, ids, k, n) +
              (if IsActive(members[x].epochs)
               then [SealedFrontier(x, Peaks(members[x].hasher, k, members[x].cells, n))] else [])
  {
    hide IsActive, Peaks;
    assert (ids + [x])[..|ids|] == ids;
  }

  /** Exactly the open algorithms among `ids`, in order, each with its peaks. */
  ghost predicate SealsAll(fs: seq<SealedFrontier>, members: map<nat, Member>, ids: seq<nat>, k: Arity, n: nat) {
    && (forall x :: x in ids ==> x in members)
    && (forall i :: 0 <= i < |fs| ==>
          fs[i].alg in ids && IsActive(members[fs[i].alg].epochs) &&
          fs[i].peaks == Peaks(members[fs[i].alg].hasher, k, members[fs[i].alg].cells, n))
    && (forall i, j :: 0 <= i < j < |fs| ==> fs[i].alg < fs[j].alg)
    && (forall x :: x in ids && IsActive(members[x].epochs) ==> exists i :: 0 <= i < |fs| && fs[i].alg == x)
  }

  lemma SealsNext(fs: seq<SealedFrontier>, members: map<nat, Member>, ids: seq<nat>, last: nat, k: Arity, n: nat)
    requires SealsAll(fs, members, ids, k, n) && last in members && forall x :: x in ids ==> x < last
    ensures SealsAll(fs + (if IsActive(members[last].epochs)
                           then [SealedFrontier(last, Peaks(members[last].hasher, k, members[last].cells, n))] else []),
                     members, ids + [last], k, n)
  {
    hide IsActive, Peaks;
    var m := members[last];
    var gs := fs + (if IsActive(m.epochs) then [SealedFrontier(last, Peaks(m.hasher, k, m.cells, n))] else []);
    forall x | x in ids + [last] && IsActive(members[x].epochs)
      ensures exists i :: 0 <= i < |gs| && gs[i].alg == x
    {
      if x == last {
        assert gs[|fs|].alg == x;
      } else {
        var i :| 0 <= i < |fs| && fs[i].alg == x;
        assert gs[i].alg == x;
      }
    }
  }

  lemma {:induction false} SealedEntries(members: map<nat, Member>, ids: seq<nat>, k: Arity, n: nat)
    requires Ascending(ids) && (forall x :: x in ids ==> x in members)
    ensures SealsAll(SealedFrontiers(members, ids, k, n), members, ids, k, n)
  {
    hide IsActive, Peaks;
    if |ids| > 0 {
      var init, last := ids[..|ids| - 1], ids[|ids| - 1];
      SealedEntries(members, init, k, n);
      assert ids == init + [last];
      hide SealsAll;
      SealsNext(SealedFrontiers(members, init, k, n), members, init, last, k, n);
    }
  }
}

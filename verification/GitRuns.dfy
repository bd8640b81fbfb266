/**
 Runs of the git backend: every write it makes, in any order it may make them, with the
 process dying or the power failing after any of them, and the store opened again.
 */
module GitRuns {
  import opened Base
  import opened Storage
  import opened GitTree
  import opened GitCheckpoint

  // ------------------------------------------------------------------ the step relation

  /** No instance, one that has applied nothing, or one at a place in the history. */
  datatype Handle = Closed | Fresh | At(place: nat)

  datatype World = World(d: Disk, h: History, handle: Handle)

  datatype Event =
    | WriteObject(o: Object)
    | SyncObject(o: Object)
    | MoveStaging(tree: Object, store: Store)
    | SyncStaging
    | CreateCkpt(g: nat)
    | SyncCkpt(g: nat)
    | DeleteCkpt(g: nat, keep: nat)
    | ResetStaging(g: nat)
    | Open(handle: Handle)
    | Die
    | PowerLoss(lost: Disk)

  /** An empty repository. */
  function Start(tornTaken: bool): World { World(EmptyDisk(tornTaken), History([], [], map[]), Closed) }

  /** The newest listed checkpoint. */
  ghost predicate Last(d: Disk, g: nat) { Listed(d, g) && forall u: nat :: Listed(d, u) ==> u <= g }

  /** The generation the next checkpoint takes. */
  ghost predicate NextGen(d: Disk, g: nat) {
    (g == 1 && forall u: nat :: !Listed(d, u)) || (g > 0 && Last(d, g - 1))
  }

  ghost predicate Placing(w: World) { w.handle.At? && w.handle.place < |w.h.trees| }

  ghost function Tip(w: World): Object
    requires Placing(w)
  {
    w.h.trees[w.handle.place]
  }

  /** The newest checkpoint already names the tip: a checkpoint returns at once. */
  ghost predicate NamesTip(w: World) {
    Placing(w) && exists g: nat :: Last(w.d, g) && w.d.ckpts[g].now == Points(Tip(w))
  }

  /** What the program has established when it makes each write. */
  ghost predicate Enabled(w: World, e: Event, k: Arity) {
    match e
    case WriteObject(_) => true
    case SyncObject(o) => o in w.d.objects
    case MoveStaging(t, s) => w.handle != Closed && TreeOk(s, t, k) && s.count <= U64_MAX && Reachable(t) <= w.d.objects
    case SyncStaging => true
    case CreateCkpt(g) =>
      Placing(w) && NextGen(w.d, g) && Free(w.d, g) && !NamesTip(w) &&
      Reachable(Tip(w)) <= w.d.durable && w.d.staging.maybe == {Points(Tip(w))}
    case SyncCkpt(g) => Listed(w.d, g)
    case DeleteCkpt(g, keep) =>
      g in w.d.ckpts && g < keep && w.handle.At? && Kept(w.d, w.h, keep) && w.h.place[keep] == w.handle.place
    case ResetStaging(g) => w.handle == Closed && Last(w.d, g)
    case Open(handle) => w.handle == Closed && Opens(w, handle)
    case Die => true
    case PowerLoss(lost) => Crash(w.d, lost)
  }

  /** What opening finds on the disk as it is: nothing, or a staging tree with all it names. */
  ghost predicate Opens(w: World, handle: Handle) {
    match handle
    case Closed => false
    case Fresh => w.d.staging.now == Absent && forall g: nat :: !Listed(w.d, g)
    case At(i) =>
      i < |w.h.trees| && w.d.staging.now == Points(w.h.trees[i]) && Reachable(w.h.trees[i]) <= w.d.objects &&
      forall g: nat :: Alive(w.d, w.h, g) ==> w.h.place[g] <= i
  }

  function After(w: World, e: Event): World {
    match e
    case WriteObject(o) => w.(d := w.d.(objects := w.d.objects + {o}))
    case SyncObject(o) => w.(d := w.d.(durable := w.d.durable + {o}))
    case MoveStaging(t, s) =>
      World(w.d.(staging := Written(w.d.staging, Points(t))), Extend(w.h, t, s), At(|w.h.trees|))
    case SyncStaging => w.(d := w.d.(staging := Synced(w.d.staging)))
    case CreateCkpt(g) =>
      if w.handle.At? && w.handle.place < |w.h.trees|
      then World(w.d.(ckpts := w.d.ckpts[g := Created(w.h.trees[w.handle.place])]), Placed(w.h, g, w.handle.place),
        w.handle)
      else w
    case SyncCkpt(g) => if g in w.d.ckpts then w.(d := w.d.(ckpts := w.d.ckpts[g := Synced(w.d.ckpts[g])])) else w
    case DeleteCkpt(g, _) => if g in w.d.ckpts then w.(d := w.d.(ckpts := w.d.ckpts[g := Deleted(w.d.ckpts[g])])) else w
    case ResetStaging(g) =>
      if g in w.d.ckpts then w.(d := w.d.(staging := Written(w.d.staging, w.d.ckpts[g].now))) else w
    case Open(handle) => w.(handle := handle)
    case Die => w.(handle := Closed)
    case PowerLoss(lost) => World(lost, w.h, Closed)
  }

  ghost predicate EnabledAll(w: World, es: seq<Event>, k: Arity)
    decreases |es|
  {
    |es| == 0 || (Enabled(w, es[0], k) && EnabledAll(After(w, es[0]), es[1..], k))
  }

  function AfterAll(w: World, es: seq<Event>): World
    decreases |es|
  {
    if |es| == 0 then w else AfterAll(After(w, es[0]), es[1..])
  }

  lemma {:induction false} RunConcat(w: World, a: seq<Event>, b: seq<Event>, k: Arity)
    ensures EnabledAll(w, a + b, k) <==> EnabledAll(w, a, k) && EnabledAll(AfterAll(w, a), b, k)
    ensures AfterAll(w, a + b) == AfterAll(AfterAll(w, a), b)
    decreases |a|
  {
    hide Enabled, After;
    if |a| == 0 {
      assert a + b == b;
    } else {
      assert (a + b)[1..] == a[1..] + b;
      RunConcat(After(w, a[0]), a[1..], b, k);
    }
  }

  lemma RunOne(w: World, e: Event, k: Arity)
    ensures EnabledAll(w, [e], k) <==> Enabled(w, e, k)
    ensures AfterAll(w, [e]) == After(w, e)
  {
    hide Enabled, After;
    assert [e][1..] == [];
  }

  /** One more event. */
  lemma RunSnoc(w: World, es: seq<Event>, e: Event, k: Arity)
    requires EnabledAll(w, es, k) && Enabled(AfterAll(w, es), e, k)
    ensures EnabledAll(w, es + [e], k) && AfterAll(w, es + [e]) == After(AfterAll(w, es), e)
  {
    RunConcat(w, es, [e], k);
    RunOne(AfterAll(w, es), e, k);
  }

  /** The events lead from one world to the other. */
  ghost predicate Runs(w: World, es: seq<Event>, w': World, k: Arity) { EnabledAll(w, es, k) && AfterAll(w, es) == w' }

  lemma RunsNone(w: World, k: Arity)
    ensures Runs(w, [], w, k)
  {
  }

  lemma RunsSnoc(w: World, es: seq<Event>, w': World, e: Event, k: Arity)
    requires Runs(w, es, w', k) && Enabled(w', e, k)
    ensures Runs(w, es + [e], After(w', e), k)
  {
    hide Enabled, After;
    RunSnoc(w, es, e, k);
  }

  lemma RunsConcat(w: World, a: seq<Event>, w': World, b: seq<Event>, w'': World, k: Arity)
    requires Runs(w, a, w', k) && Runs(w', b, w'', k)
    ensures Runs(w, a + b, w'', k)
  {
    hide Enabled, After;
    RunConcat(w, a, b, k);
  }

  // ------------------------------------------------------------------ what every step keeps

  /** An open instance is where the disk says, with everything its tree names. */
  ghost predicate HandleOk(w: World) {
    match w.handle
    case Closed => true
    case Fresh => w.d.staging.now == Absent && forall g: nat :: !Alive(w.d, w.h, g)
    case At(i) =>
      i < |w.h.trees| && w.d.staging.now == Points(w.h.trees[i]) && Reachable(w.h.trees[i]) <= w.d.objects &&
      forall g: nat :: Alive(w.d, w.h, g) ==> w.h.place[g] <= i
  }

  ghost predicate Sound(w: World, p: int, k: Arity) { Safe(w.d, w.h, p, k) && HandleOk(w) }

  lemma StartGood(tornTaken: bool, k: Arity)
    ensures Sound(Start(tornTaken), -1, k)
  {
  }

  /** Every step keeps the disk safe, for every place that has to stay recoverable. */
  lemma StepGood(w: World, e: Event, p: int, k: Arity)
    requires Sound(w, p, k) && Enabled(w, e, k)
    ensures Sound(After(w, e), p, k)
  {
    hide *;
    match e
    case WriteObject(o) => WriteGood(w, o, p, k);
    case SyncObject(o) => SyncGood(w, o, p, k);
    case MoveStaging(t, s) => MoveGood(w, t, s, p, k);
    case SyncStaging => SyncStagingGood(w, p, k);
    case CreateCkpt(g) => CreateGood(w, g, p, k);
    case SyncCkpt(g) => SyncCkptGood(w, g, p, k);
    case DeleteCkpt(g, keep) => DeleteGood(w, g, keep, p, k);
    case ResetStaging(g) => ResetGood(w, g, p, k);
    case Open(handle) => OpenGood(w, handle, p, k);
    case Die => DieGood(w, p, k);
    case PowerLoss(lost) => PowerLossGood(w, lost, p, k);
  }

  lemma WriteGood(w: World, o: Object, p: int, k: Arity)
    requires Sound(w, p, k)
    ensures Sound(After(w, WriteObject(o)), p, k)
  {
    SafeWrite(w.d, o, w.h, p, k);
    SameRefs(w.d, w.d.(objects := w.d.objects + {o}), w.h, p);
    hide Safe, Reachable, Alive;
  }

  lemma SyncGood(w: World, o: Object, p: int, k: Arity)
    requires Sound(w, p, k) && Enabled(w, SyncObject(o), k)
    ensures Sound(After(w, SyncObject(o)), p, k)
  {
    SafeWrite(w.d, o, w.h, p, k);
    SameRefs(w.d, w.d.(durable := w.d.durable + {o}), w.h, p);
    hide Safe, Reachable, Alive;
  }

  lemma MoveGood(w: World, t: Object, s: Store, p: int, k: Arity)
    requires Sound(w, p, k) && Enabled(w, MoveStaging(t, s), k)
    ensures Sound(After(w, MoveStaging(t, s)), p, k)
  {
    var h' := Extend(w.h, t, s);
    SafeBound(w.d, w.h, p, k);
    SafeExtend(w.d, w.h, p, k, t, s);
    AliveExtend(w.d, w.h, t, s);
    hide Safe, Reachable, Alive, TreeOk;
    SafeSetStaging(w.d, h', p, k, t, |w.h.trees|);
    SameRefs(w.d, w.d.(staging := Written(w.d.staging, Points(t))), h', p);
  }

  lemma SyncStagingGood(w: World, p: int, k: Arity)
    requires Sound(w, p, k)
    ensures Sound(After(w, SyncStaging), p, k)
  {
    SafeSyncStaging(w.d, w.h, p, k);
    SameRefs(w.d, w.d.(staging := Synced(w.d.staging)), w.h, p);
    hide Safe, Reachable, Alive;
  }

  lemma CreateGood(w: World, g: nat, p: int, k: Arity)
    requires Sound(w, p, k) && Enabled(w, CreateCkpt(g), k)
    ensures Sound(After(w, CreateCkpt(g)), p, k)
  {
    var a, t := w.handle.place, Tip(w);
    NextAbove(w, g, p, k);
    FreeIsVacant(w.d, w.h, p, k, g);
    AlivePlace(w.d, w.h, g, a);
    hide Safe, Reachable, Alive, NamesTip, NextGen;
    SafePlace(w.d, w.h, p, k, g, a);
    var h' := Placed(w.h, g, a);
    SafeCreate(w.d, h', p, k, g, t, a);
    AliveCreate(w.d, h', g, t);
  }

  lemma AliveCreate(d: Disk, h: History, g: nat, t: Object)
    ensures forall u: nat :: u != g ==> (Alive(d.(ckpts := d.ckpts[g := Created(t)]), h, u) <==> Alive(d, h, u))
  {
  }

  /** Every ref that may survive is below the next generation, at an earlier state than the tip. */
  lemma NextTorn(d: Disk, h: History, p: int, k: Arity, g: nat)
    requires Safe(d, h, p, k) && NextGen(d, g)
    ensures g in d.ckpts ==> d.ckpts[g].now == Torn
    ensures Free(d, g) <==> g in d.ckpts ==> !d.tornTaken
  {
    hide Safe, Reachable, Alive;
    if forall u: nat :: !Listed(d, u) {
      NoneListed(d, h, p, k);
    } else {
      NewestIsLast(d, h, p, k, g - 1);
    }
  }

  lemma NextAbove(w: World, g: nat, p: int, k: Arity)
    requires Sound(w, p, k) && Placing(w) && NextGen(w.d, g)
    ensures forall u: nat :: Alive(w.d, w.h, u) ==> u < g
    ensures !NamesTip(w) ==> forall u: nat :: Alive(w.d, w.h, u) ==> w.h.place[u] < w.handle.place
  {
    hide Safe, Reachable, Alive;
    if forall u: nat :: !Listed(w.d, u) {
      NoneListed(w.d, w.h, p, k);
    } else {
      var last: nat := g - 1;
      NewestIsLast(w.d, w.h, p, k, last);
      ListedReads(w.d, w.h, p, k, last);
    }
  }

  lemma SyncCkptGood(w: World, g: nat, p: int, k: Arity)
    requires Sound(w, p, k) && Enabled(w, SyncCkpt(g), k)
    ensures Sound(After(w, SyncCkpt(g)), p, k)
  {
    SafeSyncCkpt(w.d, w.h, p, k, g);
    AliveSync(w.d, w.h, g);
    hide Safe, Reachable, Alive;
  }

  lemma AliveSync(d: Disk, h: History, g: nat)
    requires g in d.ckpts && d.ckpts[g].now.Points? && Alive(d, h, g)
    ensures forall u: nat :: Alive(d.(ckpts := d.ckpts[g := Synced(d.ckpts[g])]), h, u) ==> Alive(d, h, u)
  {
  }

  lemma DeleteGood(w: World, g: nat, keep: nat, p: int, k: Arity)
    requires Sound(w, p, k) && Enabled(w, DeleteCkpt(g, keep), k)
    ensures Sound(After(w, DeleteCkpt(g, keep)), p, k)
  {
    hide Safe, Reachable, Alive, Kept;
    KeptThere(w.d, w.h, keep);
    AtLeastPromised(w.d, w.h, p, k, w.handle.place);
    SafeDelete(w.d, w.h, p, k, g, keep);
    AliveDelete(w.d, w.d.(ckpts := w.d.ckpts[g := Deleted(w.d.ckpts[g])]), w.h, g);
  }

  lemma KeptThere(d: Disk, h: History, g: nat)
    requires Kept(d, h, g)
    ensures g in d.ckpts && g in h.place
  {
  }

  lemma ResetGood(w: World, g: nat, p: int, k: Arity)
    requires Sound(w, p, k) && Enabled(w, ResetStaging(g), k)
    ensures Sound(After(w, ResetStaging(g)), p, k)
  {
    NewestIsLast(w.d, w.h, p, k, g);
    ListedReads(w.d, w.h, p, k, g);
    PlaceBound(w.d, w.h, g);
    hide Safe, Reachable, Alive;
    SafeSetStaging(w.d, w.h, p, k, w.h.trees[w.h.place[g]], w.h.place[g]);
  }

  lemma PlaceBound(d: Disk, h: History, g: nat)
    requires Alive(d, h, g)
    ensures g in h.place && h.place[g] < |h.trees|
  {
  }

  lemma OpenGood(w: World, handle: Handle, p: int, k: Arity)
    requires Sound(w, p, k) && Enabled(w, Open(handle), k)
    ensures Sound(After(w, Open(handle)), p, k)
  {
    assert Safe(w.d, w.h, p, k) && Opens(w, handle) by {
      hide Safe, Opens;
    }
    hide Safe, Reachable, Alive, Listed, Sound, Enabled;
    if handle == Fresh {
      NoneListed(w.d, w.h, p, k);
    }
    assert HandleOk(w.(handle := handle));
    GoodIs(w.(handle := handle), p, k);
  }

  lemma GoodIs(w: World, p: int, k: Arity)
    requires Safe(w.d, w.h, p, k) && HandleOk(w)
    ensures Sound(w, p, k)
  {
    hide Safe, HandleOk;
  }

  lemma DieGood(w: World, p: int, k: Arity)
    requires Sound(w, p, k)
    ensures Sound(After(w, Die), p, k)
  {
    hide Safe;
  }

  lemma PowerLossGood(w: World, lost: Disk, p: int, k: Arity)
    requires Sound(w, p, k) && Enabled(w, PowerLoss(lost), k)
    ensures Sound(After(w, PowerLoss(lost)), p, k)
  {
    CrashKeeps(w.d, lost, w.h, p, k);
    hide Safe, Crash;
  }

  lemma {:induction false} RunGood(w: World, es: seq<Event>, p: int, k: Arity)
    requires Sound(w, p, k) && EnabledAll(w, es, k)
    ensures Sound(AfterAll(w, es), p, k)
    decreases |es|
  {
    hide Sound, Enabled, After;
    if |es| > 0 {
      StepGood(w, es[0], p, k);
      RunGood(After(w, es[0]), es[1..], p, k);
    }
  }

  // ------------------------------------------------------------------ durability over runs

  /**
   Place `p` or a later one is what is open, and what opening finds: the newest listed
   checkpoint is there, with every object it names safe from a power loss.
   */
  ghost predicate Found(w: World, p: nat) {
    && w.handle != Fresh && (w.handle.At? ==> w.handle.place >= p)
    && exists g: nat :: Last(w.d, g) && g in w.h.place && p <= w.h.place[g] < |w.h.trees| &&
                        w.d.ckpts[g].now == Points(w.h.trees[w.h.place[g]]) &&
                        Reachable(w.h.trees[w.h.place[g]]) <= w.d.durable
  }

  /** However the run goes on, whatever fails and whenever, `p` or a later state is found. */
  ghost predicate Durable(w: World, p: nat, k: Arity) {
    forall es: seq<Event> :: EnabledAll(w, es, k) ==> Found(AfterAll(w, es), p)
  }

  lemma {:induction false} TopExists(gs: set<nat>)
    requires gs != {}
    ensures exists m :: m in gs && forall x :: x in gs ==> x <= m
    decreases |gs|
  {
    var g :| g in gs;
    var rest := gs - {g};
    if rest == {} {
      assert gs == {g};
    } else {
      TopExists(rest);
      var m :| m in rest && forall x :: x in rest ==> x <= m;
      var top := if g > m then g else m;
      forall x | x in gs
        ensures x <= top
      {
        assert x == g || x in rest;
      }
    }
  }

  lemma LastExists(d: Disk, g: nat)
    requires Listed(d, g)
    ensures exists u: nat :: Last(d, u)
  {
    var gs := set u | u in d.ckpts && Listed(d, u);
    assert g in gs;
    TopExists(gs);
    var m :| m in gs && forall x :: x in gs ==> x <= m;
    forall u: nat | Listed(d, u)
      ensures u <= m
    {
      assert u in gs;
    }
    assert Last(d, m);
  }

  lemma KeptIsFound(w: World, p: nat, k: Arity)
    requires Sound(w, p, k)
    ensures Found(w, p)
  {
    hide Reachable, HistoryOk, NoOlder;
    var keep :| Kept(w.d, w.h, keep) && w.h.place[keep] >= p;
    ListedAbove(w.d, w.h, keep);
    LastExists(w.d, keep);
    var g: nat :| Last(w.d, g);
    NewestIsLast(w.d, w.h, p, k, g);
    ListedReads(w.d, w.h, p, k, g);
    assert Alive(w.d, w.h, g);
  }

  /** The newest checkpoint is synced: its state, or a later one, is found in every run from here. */
  lemma SyncedIsDurable(w: World, g: nat, k: Arity)
    requires Sound(w, -1, k) && Last(w.d, g) && Kept(w.d, w.h, g)
    ensures Durable(w, w.h.place[g], k)
  {
    var p := w.h.place[g];
    Promise(w.d, w.h, -1, k, g, p);
    assert Sound(w, p, k) by {
      hide Safe;
    }
    hide *;
    forall es: seq<Event> | EnabledAll(w, es, k)
      ensures Found(AfterAll(w, es), p)
    {
      RunGood(w, es, p, k);
      KeptIsFound(AfterAll(w, es), p, k);
    }
  }

  /** What a power loss may leave: only synced checkpoints, staging torn. */
  function OnlySynced(d: Disk): Disk {
    Disk(d.durable, d.durable, Ref(Torn, {Torn}),
         map g | g in d.ckpts && Absent !in d.ckpts[g].maybe ::
           var v := if d.ckpts[g].maybe == {d.ckpts[g].now} then d.ckpts[g].now else Torn; Ref(v, {v}),
         d.tornTaken)
  }

  lemma OnlySyncedMay(d: Disk, h: History, k: Arity)
    requires Safe(d, h, -1, k) && Torn in d.staging.maybe
    ensures Crash(d, OnlySynced(d))
    ensures forall u: nat :: Listed(OnlySynced(d), u) ==> Kept(d, h, u)
  {
    hide HistoryOk, Reachable, NoOlder;
    forall g | g in d.ckpts
      ensures CkptOk(d, h, g)
      ensures Absent !in d.ckpts[g].maybe && d.ckpts[g].maybe != {d.ckpts[g].now} ==> Torn in d.ckpts[g].maybe
    {
      assert CkptOk(d, h, g);
    }
  }

  /** Every kept ref but the newest one stands for an earlier state than the newest. */
  lemma KeptEarlier(d: Disk, h: History, g: nat, k: Arity)
    requires Safe(d, h, -1, k) && Last(d, g) && !Kept(d, h, g)
    ensures g in h.place && forall u: nat :: Kept(d, h, u) ==> h.place[u] < h.place[g]
  {
    NewestIsLast(d, h, -1, k, g);
    hide Reachable, HistoryOk, NoOlder, CkptOk;
    forall u: nat | Kept(d, h, u)
      ensures h.place[u] < h.place[g]
    {
      assert Alive(d, h, u) && Alive(d, h, g);
    }
  }

  /**
   The newest checkpoint names the tip but is not synced: one more batch and a power loss
   leave no listed checkpoint at its state or a later one, and staging torn.
   */
  lemma UnsyncedIsLost(w: World, g: nat, t: Object, s: Store, k: Arity) returns (es: seq<Event>)
    requires Sound(w, -1, k) && Last(w.d, g) && !Kept(w.d, w.h, g) && Enabled(w, MoveStaging(t, s), k)
    ensures EnabledAll(w, es, k) && g in w.h.place
    ensures var w' := AfterAll(w, es);
            w'.handle == Closed && w'.d.staging.now == Torn &&
            (forall u: nat :: Listed(w'.d, u) ==> u in w.h.place && w.h.place[u] < w.h.place[g]) &&
              w'.h.place == w.h.place
  {
    var moved := After(w, MoveStaging(t, s));
    var lost := OnlySynced(moved.d);
    es := [MoveStaging(t, s), PowerLoss(lost)];
    StepGood(w, MoveStaging(t, s), -1, k);
    GoodIsSafe(moved, -1, k);
    GoodIsSafe(w, -1, k);
    KeptSame(w, t, s, k);
    hide *;
    OnlySyncedMay(moved.d, moved.h, k);
    KeptEarlier(w.d, w.h, g, k);
    LossIs(moved, lost, k);
    RunTwo(w, MoveStaging(t, s), PowerLoss(lost), k);
    KeptPlaced(w.d, w.h);
    TornStaging(moved.d);
  }

  lemma GoodIsSafe(w: World, p: int, k: Arity)
    requires Sound(w, p, k)
    ensures Safe(w.d, w.h, p, k)
  {
    hide Safe, HandleOk;
  }

  lemma LossIs(w: World, lost: Disk, k: Arity)
    requires Crash(w.d, lost)
    ensures Enabled(w, PowerLoss(lost), k) && After(w, PowerLoss(lost)) == World(lost, w.h, Closed)
  {
    hide Crash;
  }

  lemma TornStaging(d: Disk)
    ensures OnlySynced(d).staging.now == Torn
  {
  }

  lemma KeptPlaced(d: Disk, h: History)
    ensures forall u: nat :: Kept(d, h, u) ==> u in h.place
  {
  }

  lemma KeptSame(w: World, t: Object, s: Store, k: Arity)
    requires Sound(w, -1, k) && Enabled(w, MoveStaging(t, s), k)
    ensures var moved := After(w, MoveStaging(t, s));
            Torn in moved.d.staging.maybe && moved.h.place == w.h.place &&
            forall u: nat :: Kept(moved.d, moved.h, u) ==> Kept(w.d, w.h, u)
  {
    SafeBound(w.d, w.h, -1, k);
    hide Safe, HandleOk, Reachable, TreeOk;
  }

  lemma RunTwo(w: World, a: Event, b: Event, k: Arity)
    requires Enabled(w, a, k) && Enabled(After(w, a), b, k)
    ensures EnabledAll(w, [a, b], k) && AfterAll(w, [a, b]) == After(After(w, a), b)
  {
    RunOne(w, a, k);
    RunSnoc(w, [a], b, k);
    assert [a] + [b] == [a, b];
  }

  /**
   Where a checkpoint returns, its state (or a later one) is found in every run from there
   if and only if the newest checkpoint ref has been synced.
   */
  lemma DurableIffSynced(w: World, g: nat, k: Arity)
    requires Sound(w, -1, k) && Placing(w) && Last(w.d, g) && w.d.ckpts[g].now == Points(Tip(w))
    ensures g in w.h.place && w.h.place[g] < |w.h.trees| && w.h.trees[w.h.place[g]] == Tip(w)
    ensures Durable(w, w.h.place[g], k) <==> w.d.ckpts[g].maybe == {w.d.ckpts[g].now}
  {
    NewestPlaced(w, g, k);
    hide Safe, Reachable, TreeOk;
    if Kept(w.d, w.h, g) {
      SyncedIsDurable(w, g, k);
    } else {
      var s := w.h.stores[w.handle.place];
      var es := UnsyncedIsLost(w, g, Tip(w), s, k);
      hide Durable, Last, Kept;
      NotFound(w, es, w.h.place[g], k);
    }
  }

  lemma NewestPlaced(w: World, g: nat, k: Arity)
    requires Sound(w, -1, k) && Placing(w) && Last(w.d, g) && w.d.ckpts[g].now == Points(Tip(w))
    ensures g in w.h.place && w.h.place[g] < |w.h.trees| == |w.h.stores| && w.h.trees[w.h.place[g]] == Tip(w)
    ensures Kept(w.d, w.h, g) <==> w.d.ckpts[g].maybe == {w.d.ckpts[g].now}
    ensures Enabled(w, MoveStaging(Tip(w), w.h.stores[w.handle.place]), k)
  {
    hide Reachable, TreeOk, NoOlder;
    assert CkptOk(w.d, w.h, g);
  }

  lemma NotFound(w: World, es: seq<Event>, p: nat, k: Arity)
    requires EnabledAll(w, es, k)
    requires forall u: nat :: Listed(AfterAll(w, es).d, u) ==>
             u in AfterAll(w, es).h.place && AfterAll(w, es).h.place[u] < p
    ensures !Durable(w, p, k)
  {
    hide EnabledAll, AfterAll;
    assert !Found(AfterAll(w, es), p);
  }

  // ------------------------------------------------------------------ a torn checkpoint ref

  /** The next checkpoint's generation is taken, by a torn ref no listing shows. */
  ghost predicate Blocked(d: Disk) { exists g: nat :: NextGen(d, g) && !Free(d, g) }

  /** It can be only if the ref library takes a torn ref for a taken one. */
  lemma NeverBlocked(d: Disk, h: History, p: int, k: Arity)
    requires Safe(d, h, p, k) && !d.tornTaken
    ensures !Blocked(d)
  {
    hide Safe, Free, NextGen;
    forall g: nat | NextGen(d, g)
      ensures Free(d, g)
    {
      NextTorn(d, h, p, k, g);
    }
  }

  /** What a power loss may leave: everything as it is, but the ref of generation `g` torn. */
  function TornAt(d: Disk, g: nat): Disk {
    Disk(d.objects, d.objects, Ref(d.staging.now, {d.staging.now}),
         map u | u in d.ckpts && (u == g || d.ckpts[u].now != Absent) ::
           var v := if u == g then Torn else d.ckpts[u].now; Ref(v, {v}),
         d.tornTaken)
  }

  /**
   Whenever a checkpoint creates its ref and an earlier one is listed, a power loss before
   the sync can leave the ref torn, and staging ahead and complete; the store is then
   blocked exactly if the ref library takes a torn ref for a taken one.
   */
  lemma TornBlocks(w: World, g: nat, k: Arity)
    requires Sound(w, -1, k) && Enabled(w, CreateCkpt(g), k) && g > 1
    ensures var created := After(w, CreateCkpt(g));
            var torn := After(created, PowerLoss(TornAt(created.d, g)));
            Enabled(created, PowerLoss(TornAt(created.d, g)), k) && TornAhead(torn, g - 1) &&
            (Blocked(torn.d) <==> w.d.tornTaken)
  {
    var created := After(w, CreateCkpt(g));
    CreatedIs(w, g, k);
    StepGood(w, CreateCkpt(g), -1, k);
    LastPlaced(w, g - 1, g, k);
    RefsIn(created.d, created.h, k);
    hide *;
    TornMay(created.d, g);
    TornIs(w, created, g, k);
    TornBlocked(After(created, PowerLoss(TornAt(created.d, g))), g - 1);
  }

  /**
   Above the newest checkpoint `g`, which is synced, stands a torn ref; staging is ahead of
   the checkpoint and complete.
   */
  ghost predicate TornAhead(w: World, g: nat) {
    && w.handle == Closed && Last(w.d, g) && Kept(w.d, w.h, g)
    && g + 1 in w.d.ckpts && w.d.ckpts[g + 1].now == Torn
    && w.d.staging.now.Points? && w.d.staging.now != w.d.ckpts[g].now && Reachable(w.d.staging.now.tree) <= w.d.objects
  }

  lemma TornBlocked(w: World, g: nat)
    requires TornAhead(w, g)
    ensures Blocked(w.d) <==> w.d.tornTaken
  {
    hide Reachable, Kept, Listed;
    assert NextGen(w.d, g + 1);
  }

  lemma CreatedIs(w: World, g: nat, k: Arity)
    requires Enabled(w, CreateCkpt(g), k)
    ensures Placing(w) && Free(w.d, g) && w.d.staging.maybe == {Points(Tip(w))} && Reachable(Tip(w)) <= w.d.durable
    ensures After(w, CreateCkpt(g))
         == World(w.d.(ckpts := w.d.ckpts[g := Created(Tip(w))]), Placed(w.h, g, w.handle.place), w.handle)
    ensures g in After(w, CreateCkpt(g)).d.ckpts && Torn in After(w, CreateCkpt(g)).d.ckpts[g].maybe
  {
    hide Reachable, NamesTip, NextGen;
  }

  lemma TornIs(w: World, created: World, g: nat, k: Arity)
    requires Placing(w) && Free(w.d, g) && w.d.staging.maybe == {Points(Tip(w))} && Reachable(Tip(w)) <= w.d.durable
    requires created == World(w.d.(ckpts := w.d.ckpts[g := Created(Tip(w))]), Placed(w.h, g, w.handle.place), w.handle)
    requires created.d.durable <= created.d.objects && created.d.staging.now in created.d.staging.maybe
    requires g > 1 && Last(w.d, g - 1) && g - 1 in w.h.place && w.h.place[g - 1] < |w.h.trees|
    requires w.d.ckpts[g - 1].now == Points(w.h.trees[w.h.place[g - 1]]) != Points(Tip(w))
    requires Crash(created.d, TornAt(created.d, g))
    ensures Enabled(created, PowerLoss(TornAt(created.d, g)), k)
    ensures var torn := After(created, PowerLoss(TornAt(created.d, g)));
            TornAhead(torn, g - 1) && torn.d.tornTaken == w.d.tornTaken
  {
    TornListed(w.d, created.d, g);
    hide Crash, TornAt, Listed, Reachable;
  }

  lemma TornMay(d: Disk, g: nat)
    requires d.durable <= d.objects && d.staging.now in d.staging.maybe && g in d.ckpts && Torn in d.ckpts[g].maybe
    requires forall u :: u in d.ckpts ==> d.ckpts[u].now in d.ckpts[u].maybe
    ensures Crash(d, TornAt(d, g))
  {
  }

  lemma TornListed(d: Disk, d': Disk, g: nat)
    requires Free(d, g) && g > 1 && Last(d, g - 1)
    requires d'.ckpts.Keys == d.ckpts.Keys + {g} && forall u :: u in d.ckpts && u != g ==> d'.ckpts[u] == d.ckpts[u]
    ensures var lost := TornAt(d', g);
            Last(lost, g - 1) && lost.ckpts[g - 1] == Ref(d.ckpts[g - 1].now, {d.ckpts[g - 1].now}) &&
            g in lost.ckpts && lost.ckpts[g].now == Torn &&
            lost.staging.now == d'.staging.now && lost.objects == d'.objects && lost.tornTaken == d'.tornTaken
  {
    assert forall u: nat :: Listed(TornAt(d', g), u) <==> Listed(d, u);
  }

  lemma RefsIn(d: Disk, h: History, k: Arity)
    requires Safe(d, h, -1, k)
    ensures d.durable <= d.objects && d.staging.now in d.staging.maybe
    ensures forall g :: g in d.ckpts ==> d.ckpts[g].now in d.ckpts[g].maybe
  {
    hide HistoryOk, Reachable, NoOlder;
    forall g | g in d.ckpts
      ensures d.ckpts[g].now in d.ckpts[g].maybe
    {
      assert CkptOk(d, h, g);
    }
  }

  lemma LastPlaced(w: World, last: nat, g: nat, k: Arity)
    requires Sound(w, -1, k) && Enabled(w, CreateCkpt(g), k) && g > 1 && last == g - 1
    ensures Last(w.d, last) && last in w.h.place && w.h.place[last] < |w.h.trees|
    ensures w.d.ckpts[last].now == Points(w.h.trees[w.h.place[last]]) != Points(Tip(w))
  {
    hide Reachable, HistoryOk, NoOlder;
    assert CkptOk(w.d, w.h, last);
  }

  /**
   Blocked above a synced checkpoint by a torn ref that counts as taken, the store stays
   so: no checkpoint is created in any run.
   */
  lemma {:induction false} StuckForever(w: World, g: nat, es: seq<Event>, k: Arity)
    requires Sound(w, -1, k) && Stuck(w, g) && EnabledAll(w, es, k)
    ensures Stuck(AfterAll(w, es), g) && forall e :: e in es ==> !e.CreateCkpt?
    decreases |es|
  {
    hide Sound, Enabled, After, Stuck;
    if |es| > 0 {
      StuckStep(w, g, es[0], k);
      StepGood(w, es[0], -1, k);
      StuckForever(After(w, es[0]), g, es[1..], k);
      assert es == [es[0]] + es[1..];
    }
  }

  ghost predicate Stuck(w: World, g: nat) {
    && Last(w.d, g) && Kept(w.d, w.h, g) && w.d.ckpts[g].now == Points(w.h.trees[w.h.place[g]])
    && g + 1 in w.d.ckpts && w.d.ckpts[g + 1] == Ref(Torn, {Torn}) && w.d.tornTaken
  }

  lemma StuckStep(w: World, g: nat, e: Event, k: Arity)
    requires Sound(w, -1, k) && Stuck(w, g) && Enabled(w, e, k)
    ensures Stuck(After(w, e), g) && !e.CreateCkpt?
  {
    hide Safe, HandleOk, Reachable, TreeOk;
    var w' := After(w, e);
    if e.CreateCkpt? {
      OnlyNext(w.d, g, e.g);
    } else {
      if e.DeleteCkpt? {
        KeptListed(w, e.keep, k);
      }
      if e.PowerLoss? {
        ListedAfterLoss(w, e.lost, g, k);
      }
      StuckRefs(w, e, g, k);
      StuckCarry(w, w', g);
    }
  }

  lemma StuckRefs(w: World, e: Event, g: nat, k: Arity)
    requires Stuck(w, g) && Enabled(w, e, k) && !e.CreateCkpt? && (e.DeleteCkpt? ==> e.keep <= g)
    requires e.PowerLoss? ==> forall u: nat :: Listed(e.lost, u) ==> u <= g
    ensures var w' := After(w, e);
            && w.h.trees <= w'.h.trees && w'.h.place == w.h.place
            && g in w'.d.ckpts && w'.d.ckpts[g] == w.d.ckpts[g] && g + 1 in w'.d.ckpts &&
               w'.d.ckpts[g + 1] == w.d.ckpts[g + 1] && w'.d.tornTaken == w.d.tornTaken
            && forall u: nat :: Listed(w'.d, u) ==> u <= g || Listed(w.d, u)
  {
    hide Reachable, TreeOk;
    assert w.d.ckpts[g].maybe == {w.d.ckpts[g].now} && w.d.ckpts[g + 1].maybe == {Torn};
    if e.PowerLoss? {
      RefsAfterLoss(w.d, e.lost, g);
      RefsAfterLoss(w.d, e.lost, g + 1);
    }
    hide Crash;
  }

  lemma StuckCarry(w: World, w': World, g: nat)
    requires Stuck(w, g) && w.h.trees <= w'.h.trees && w'.h.place == w.h.place
    requires g in w'.d.ckpts && w'.d.ckpts[g] == w.d.ckpts[g] && g + 1 in w'.d.ckpts &&
             w'.d.ckpts[g + 1] == w.d.ckpts[g + 1] && w'.d.tornTaken == w.d.tornTaken
    requires forall u: nat :: Listed(w'.d, u) ==> u <= g || Listed(w.d, u)
    ensures Stuck(w', g)
  {
  }

  lemma ListedAfterLoss(w: World, lost: Disk, g: nat, k: Arity)
    requires Sound(w, -1, k) && Last(w.d, g) && Crash(w.d, lost)
    ensures forall u: nat :: Listed(lost, u) ==> u <= g
  {
    NewestIsLast(w.d, w.h, -1, k, g);
    hide Reachable, HistoryOk, NoOlder, HandleOk;
    forall u: nat | Listed(lost, u)
      ensures u <= g
    {
      assert u in w.d.ckpts && CkptOk(w.d, w.h, u);
      assert Alive(w.d, w.h, u);
    }
  }

  lemma RefsAfterLoss(d: Disk, lost: Disk, g: nat)
    requires Crash(d, lost) && g in d.ckpts && d.ckpts[g].maybe == {d.ckpts[g].now} && d.ckpts[g].now != Absent
    ensures g in lost.ckpts && lost.ckpts[g] == d.ckpts[g]
  {
  }

  lemma OnlyNext(d: Disk, g: nat, u: nat)
    requires Last(d, g)
    ensures NextGen(d, u) ==> u == g + 1
  {
  }

  lemma KeptListed(w: World, g: nat, k: Arity)
    requires Sound(w, -1, k) && Kept(w.d, w.h, g)
    ensures Listed(w.d, g)
  {
    hide Reachable, HistoryOk, NoOlder;
    assert CkptOk(w.d, w.h, g);
  }

  // ------------------------------------------------------------------ what opening the store finds

  /** Staging names a tree all of whose objects read. */
  ghost predicate Intact(d: Disk) { d.staging.now.Points? && Reachable(d.staging.now.tree) <= d.objects }

  ghost predicate NewestIs(d: Disk, v: Val) { exists g: nat :: Last(d, g) && d.ckpts[g].now == v }

  /** The newest listed checkpoint, if any, has been synced. */
  ghost predicate NewestSynced(d: Disk) { forall g: nat :: Last(d, g) ==> d.ckpts[g].maybe == {d.ckpts[g].now} }

  /** The newest listed checkpoint was created and not synced since. */
  ghost predicate NewestCreated(d: Disk) {
    exists g: nat :: Last(d, g) && d.ckpts[g] == Created(d.ckpts[g].now.tree)
  }

  /** Such a ref is not synced; after a power loss every ref is. */
  lemma UnsyncedOrLost(d: Disk)
    ensures NewestCreated(d) ==> !NewestSynced(d)
    ensures forall lost: Disk :: Crash(d, lost) ==> NewestSynced(lost)
  {
  }

  /** Where, if anywhere, a sync or a ref update fails. */
  datatype Fault = NoFault | FailObjects | FailStaging | FailRef | FailCkpt

  /**
   When opening succeeds.  With a checkpoint: a complete staging is at it, or nothing fails
   and the checkpoint that a staging ahead of it needs is not blocked; any other staging is
   put back, which takes a ref update and its sync.
   */
  ghost predicate Recovers(d: Disk, fault: Fault, k: Arity) {
    if exists g: nat :: Listed(d, g) then
      if Intact(d) then NewestIs(d, d.staging.now) || (fault == NoFault && !Blocked(d))
      else fault != FailRef && fault != FailStaging
    else
      d.staging.now == Absent || ReadSnap(d.objects, d.staging.now, k).Good?
  }

  /** Recovery makes a checkpoint of its own: staging is complete and ahead of the newest. */
  ghost predicate Ahead(d: Disk) {
    Intact(d) && !NewestIs(d, d.staging.now) && exists g: nat :: Listed(d, g)
  }

  /** The tree recovery opens, if any: staging if it is complete, else the newest checkpoint. */
  ghost predicate Recovered(d: Disk, tip: Option<Object>) {
    if Intact(d) || ((forall g: nat :: !Listed(d, g)) && d.staging.now.Points?) then tip == Some(d.staging.now.tree)
    else if exists g: nat :: Listed(d, g) then tip.Some? && NewestIs(d, Points(tip.value))
    else tip == None
  }

  /** Recovery has something whole to open: a checkpoint, a complete staging tree, or nothing at all. */
  ghost predicate Complete(d: Disk) { (exists g: nat :: Listed(d, g)) || Intact(d) || d.staging.now == Absent }

  /**
   If a torn ref counts as taken, one above a synced checkpoint makes opening fail, whatever
   else fails, and keeps any checkpoint from being created in every run from there.
   */
  lemma TornNeverOpens(w: World, g: nat, es: seq<Event>, fault: Fault, k: Arity)
    requires Sound(w, -1, k) && TornAhead(w, g) && w.d.tornTaken
    ensures !Recovers(w.d, fault, k)
    ensures EnabledAll(w, es, k) ==> forall e :: e in es ==> !e.CreateCkpt?
  {
    TornIsStuck(w, g, k);
    TornBlocked(w, g);
    hide Sound, Reachable, EnabledAll, Stuck, Kept, Blocked;
    assert !NewestIs(w.d, w.d.staging.now);
    if EnabledAll(w, es, k) {
      StuckForever(w, g, es, k);
    }
  }

  lemma TornIsStuck(w: World, g: nat, k: Arity)
    requires Sound(w, -1, k) && TornAhead(w, g) && w.d.tornTaken
    ensures Stuck(w, g)
  {
    hide Reachable, HistoryOk, NoOlder, HandleOk;
    assert CkptOk(w.d, w.h, g) && CkptOk(w.d, w.h, g + 1);
  }

  // ------------------------------------------------------------------ opening after every run

  lemma {:induction false} TornTakenStays(w: World, es: seq<Event>, k: Arity)
    requires EnabledAll(w, es, k)
    ensures AfterAll(w, es).d.tornTaken == w.d.tornTaken
    decreases |es|
  {
    if |es| > 0 {
      TornTakenStep(w, es[0], k);
      hide Enabled, After;
      TornTakenStays(After(w, es[0]), es[1..], k);
    }
  }

  lemma TornTakenStep(w: World, e: Event, k: Arity)
    requires Enabled(w, e, k)
    ensures After(w, e).d.tornTaken == w.d.tornTaken
  {
    hide Reachable, TreeOk, NamesTip, NextGen, Opens;
  }

  /** If a torn ref is no obstacle, a store with a checkpoint opens unless a write fails. */
  lemma ListedOpens(d: Disk, h: History, p: int, k: Arity, g: nat)
    requires Safe(d, h, p, k) && !d.tornTaken && Listed(d, g)
    ensures Recovers(d, NoFault, k)
  {
    NeverBlocked(d, h, p, k);
  }

  /** Once some checkpoint is synced, such a store opens after every run, whatever failed and was lost in it. */
  lemma KeptOpens(w: World, g: nat, es: seq<Event>, k: Arity)
    requires Sound(w, -1, k) && Kept(w.d, w.h, g) && !w.d.tornTaken && EnabledAll(w, es, k)
    ensures Recovers(AfterAll(w, es).d, NoFault, k)
  {
    var p := w.h.place[g];
    Promise(w.d, w.h, -1, k, g, p);
    assert Sound(w, p, k) by {
      hide Safe;
    }
    hide *;
    RunGood(w, es, p, k);
    TornTakenStays(w, es, k);
    KeptIsFound(AfterAll(w, es), p, k);
    GoodIsSafe(AfterAll(w, es), p, k);
    var last := FoundLast(AfterAll(w, es), p);
    ListedOpens(AfterAll(w, es).d, AfterAll(w, es).h, p, k, last);
  }

  lemma FoundLast(w: World, p: nat) returns (g: nat)
    requires Found(w, p)
    ensures Listed(w.d, g)
  {
    hide Reachable, Listed;
    g :| Last(w.d, g) && g in w.h.place;
  }

  /** The store opens after every run from here, as long as no write fails while it does. */
  ghost predicate OpensAfterAll(w: World, k: Arity) {
    forall es: seq<Event> :: EnabledAll(w, es, k) ==> Recovers(AfterAll(w, es).d, NoFault, k)
  }

  /**
   If a torn ref is no obstacle, a store in use opens after every run if and only if some
   checkpoint is synced.
   */
  lemma OpensIffKept(w: World, k: Arity)
    requires Sound(w, -1, k) && Placing(w) && !w.d.tornTaken
    ensures OpensAfterAll(w, k) <==> exists g: nat :: Kept(w.d, w.h, g)
  {
    hide Sound, EnabledAll, AfterAll, Recovers, Kept, Placing;
    if g: nat :| Kept(w.d, w.h, g) {
      forall es: seq<Event> | EnabledAll(w, es, k)
        ensures Recovers(AfterAll(w, es).d, NoFault, k)
      {
        KeptOpens(w, g, es, k);
      }
    } else {
      var es := NoneKeptIsLost(w, k);
    }
  }

  /** Without one, a batch and a power loss leave nothing to open. */
  lemma NoneKeptIsLost(w: World, k: Arity) returns (es: seq<Event>)
    requires Sound(w, -1, k) && Placing(w) && forall g: nat :: !Kept(w.d, w.h, g)
    ensures EnabledAll(w, es, k) && !Recovers(AfterAll(w, es).d, NoFault, k)
  {
    var e := StayMove(w, k);
    var moved := After(w, e);
    var lost := OnlySynced(moved.d);
    es := [e, PowerLoss(lost)];
    StepGood(w, e, -1, k);
    KeptSame(w, e.tree, e.store, k);
    hide *;
    GoodIsSafe(moved, -1, k);
    OnlySyncedMay(moved.d, moved.h, k);
    LossIs(moved, lost, k);
    RunTwo(w, e, PowerLoss(lost), k);
    TornStaging(moved.d);
    NothingThere(lost, k);
  }

  lemma StayMove(w: World, k: Arity) returns (e: Event)
    requires Sound(w, -1, k) && Placing(w)
    ensures e.MoveStaging? && Enabled(w, e, k)
  {
    hide Reachable, TreeOk, NoOlder, CkptOk;
    e := MoveStaging(Tip(w), w.h.stores[w.handle.place]);
  }

  lemma NothingThere(d: Disk, k: Arity)
    requires (forall g: nat :: !Listed(d, g)) && d.staging.now == Torn
    ensures !Recovers(d, NoFault, k)
  {
  }
}

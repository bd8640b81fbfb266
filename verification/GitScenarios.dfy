/**
 Two power losses, through the git store's own operations: a checkpoint that returned on a
 ref nobody synced is lost, and a torn ref blocks recovery or does not, as the ref library
 takes it.
 */
module GitScenarios {
  import opened Base
  import opened Storage
  import opened GitLayout
  import opened GitTree
  import opened GitBuild
  import opened GitCheckpoint
  import opened GitRuns
  import opened GitStore

  /** The `n`-th batch: one subtree of which nothing is stored. */
  function Batch(n: nat): seq<WriteOp> { [AppendSubtree(n, [])] }

  /** After `n` such batches. */
  function Batches(n: nat): Store { EmptyStore.(count := n) }

  lemma BatchOk(n: nat)
    requires n < 3
    ensures (forall op :: op in Batch(n) ==> OpFits(op)) && KindRun(Batches(n), Batch(n))
    ensures ApplyEach(Batches(n), Batch(n)) == Some(Batches(n + 1)) && MetasOk(Batches(n + 1))
    ensures Batches(0) == EmptyStore && Batches(n).count == n && Batches(n + 1).count <= U64_MAX
  {
    assert Batch(n)[1..] == [];
    assert Legal(Batches(n), Batch(n)[0]) && Effect(Batches(n), Batch(n)[0]) == Batches(n + 1);
  }

  /** A tree is built for one count. */
  lemma CountOf(s: Store, s': Store, t: Object, k: Arity)
    requires TreeOk(s, t, k) && TreeOk(s', t, k) && s.count <= U64_MAX && s'.count <= U64_MAX
    ensures s.count == s'.count
  {
    MetaEntry(s, t, k);
    MetaEntry(s', t, k);
    MetaRoundTrip(k, s.count);
    MetaRoundTrip(k, s'.count);
  }

  lemma StartRecovers(tornTaken: bool, k: Arity)
    ensures var d := EmptyDisk(tornTaken);
            Recovers(d, NoFault, k) && Complete(d) && d.ckpts == map[] && (forall g: nat :: !Listed(d, g)) &&
            (forall tip :: Recovered(d, tip) ==> tip == None) && d.tornTaken == tornTaken &&
            Start(tornTaken) == World(d, History([], [], map[]), Closed)
  {
  }

  lemma ExtendIs(h: History, t: Object, s: Store)
    ensures Extend(h, t, s).trees == h.trees + [t] && Extend(h, t, s).stores == h.stores + [s] &&
            Extend(h, t, s).place == h.place
  {
  }

  // ------------------------------------------------------------------ two states, the second not synced

  /** A new store with the first batch applied. */
  method OneState(k: Arity, tornTaken: bool) returns (g: GitStorage, ghost es: seq<Event>)
    ensures Runs(Start(tornTaken), es, g.W(), k)
    ensures fresh(g) && fresh(g.repo) && g.arity == k && g.Valid() && g.observedTip.Some? && g.at == 0
    ensures |g.h.trees| == 1 && g.h.stores == [Batches(1)] && g.repo.disk.ckpts == map[]
  {
    var repo := new Repo(tornTaken);
    StartGood(tornTaken, k);
    StartRecovers(tornTaken, k);
    hide *;
    BatchOk(0);
    ghost var more, w';
    var r;
    r, es, w' := GitStorage.New(repo, k, NoFault, {}, History([], [], map[]));
    g := r.value;
    g.Parts();
    g.CurrentIs();
    ghost var h := g.h;
    g.WIs();
    var a;
    a, more := g.Apply(Batch(0), false);
    RunsConcat(Start(tornTaken), es, w', more, g.W(), k);
    es := es + more;
    g.Parts();
    g.CurrentIs();
    ExtendIs(h, g.observedTip.value, g.Current());
  }

  /** The first generation is checkpointed, at the first state. */
  ghost predicate OneMade(w: World) {
    && w.d.ckpts.Keys == {1} && Last(w.d, 1) && Kept(w.d, w.h, 1) && w.h.place[1] == 0
    && |w.h.trees| > 0 && w.d.ckpts[1].now == Points(w.h.trees[0])
  }

  lemma NoneMade(w: World)
    requires w.d.ckpts == map[]
    ensures !NamesTip(w) && !Blocked(w.d) && forall d: Disk :: NextOnly(w.d, d) ==> d.ckpts.Keys <= {1}
  {
  }

  lemma FirstMade(w: World, k: Arity)
    requires Sound(w, -1, k) && w.d.ckpts.Keys <= {1} && LastKeptAt(w, 0)
    ensures OneMade(w)
  {
    hide Reachable, HistoryOk, NoOlder;
    var g: nat :| Last(w.d, g) && Kept(w.d, w.h, g) && g in w.h.place && w.h.place[g] == 0;
    assert g == 1 && CkptOk(w.d, w.h, 1);
  }

  /** With a second state on top, the next checkpoint is due and takes generation 2. */
  lemma SecondDue(w: World, k: Arity)
    requires OneMade(w) && w.handle == At(1) && |w.h.trees| == 2 && w.h.trees[0] != w.h.trees[1]
    ensures !NamesTip(w) && !Blocked(w.d) && forall d: Disk :: NextOnly(w.d, d) ==> d.ckpts.Keys <= {1, 2}
  {
  }

  lemma MadeCarries(w: World, w': World)
    requires OneMade(w) && w'.d.ckpts == w.d.ckpts && w'.h.place == w.h.place && w.h.trees <= w'.h.trees
    ensures OneMade(w')
  {
    assert forall g: nat :: Listed(w.d, g) <==> Listed(w'.d, g);
  }

  lemma StatesDiffer(w: World, k: Arity)
    requires Sound(w, -1, k) && w.h.stores == [Batches(1), Batches(2)]
    ensures |w.h.trees| == 2 && w.h.trees[0] != w.h.trees[1]
  {
    hide Reachable, TreeOk, CkptOk, NoOlder, HandleOk;
    if w.h.trees[0] == w.h.trees[1] {
      CountOf(w.h.stores[0], w.h.stores[1], w.h.trees[0], k);
      assert false;
    }
  }

  /**
   The store after two batches: the first is checkpointed; the second's checkpoint failed
   on its last sync, when its ref was already created.
   */
  ghost predicate TwoStates(w: World) {
    && w.handle == At(1) && w.h.stores == [Batches(1), Batches(2)]
    && |w.h.trees| == 2 && w.h.trees[0] != w.h.trees[1]
    && w.d.ckpts.Keys == {1, 2} && Last(w.d, 2) && Kept(w.d, w.h, 1) && w.h.place[1] == 0
    && w.d.ckpts[1].now == Points(w.h.trees[0]) && w.d.ckpts[2] == Created(w.h.trees[1])
  }

  lemma SecondMade(w: World, w': World)
    requires OneMade(w) && RefsStay(w, w') && w'.h.trees == w.h.trees && w'.h.stores == w.h.stores
    requires NamesTip(w') && NewestCreated(w'.d) && w'.d.ckpts.Keys <= {1, 2} && w'.handle == At(1)
    requires w.h.stores == [Batches(1), Batches(2)] && |w.h.trees| == 2 && w.h.trees[0] != w.h.trees[1]
    ensures TwoStates(w')
  {
    assert w'.d.ckpts[1] == w.d.ckpts[1];
    var g: nat :| Last(w'.d, g) && w'.d.ckpts[g].now == Points(Tip(w'));
    assert g == 2;
  }

  /** The first state applied and checkpointed, and the second applied. */
  method SecondApplied(k: Arity, tornTaken: bool) returns (g: GitStorage, ghost es: seq<Event>)
    ensures Runs(Start(tornTaken), es, g.W(), k)
    ensures fresh(g) && fresh(g.repo) && g.arity == k && g.Valid() && g.observedTip.Some? && g.at == 1
    ensures g.h.stores == [Batches(1), Batches(2)] && OneMade(g.W())
  {
    g, es := OneState(k, tornTaken);
    hide *;
    BatchOk(1);
    g.WIs();
    NoneMade(g.W());
    ghost var before, more, p := g.W(), [], 0;
    var r;
    r, more, p := g.Checkpoint(NoFault, {});
    RunsConcat(Start(tornTaken), es, before, more, g.W(), k);
    es := es + more;
    g.Parts();
    g.WIs();
    FirstMade(g.W(), k);
    g.CurrentIs();
    ghost var h, w := g.h, g.W();
    g.WIs();
    var a;
    a, more := g.Apply(Batch(1), false);
    RunsConcat(Start(tornTaken), es, w, more, g.W(), k);
    es := es + more;
    g.Parts();
    g.CurrentIs();
    ExtendIs(h, g.observedTip.value, g.Current());
    g.WIs();
    MadeCarries(w, g.W());
  }

  /**
   There on two ways: the program's own checkpoint fails on its last sync, or it dies
   before, and the checkpoint that recovery then makes fails so and the store is opened again.
   */
  method TwoBatches(k: Arity, tornTaken: bool, reopened: bool) returns (g: GitStorage, ghost es: seq<Event>)
    ensures Runs(Start(tornTaken), es, g.W(), k)
    ensures fresh(g) && fresh(g.repo) && g.arity == k && g.Valid() && g.observedTip.Some? && TwoStates(g.W())
  {
    g, es := SecondApplied(k, tornTaken);
    hide *;
    g.WIs();
    g.Parts();
    StatesDiffer(g.W(), k);
    SecondDue(g.W(), k);
    ghost var w, more, p := g.W(), [], 0;
    if reopened {
      g, more := FailedRecovery(g);
    } else {
      var r;
      r, more, p := g.Checkpoint(FailCkpt, {});
    }
    RunsConcat(Start(tornTaken), es, w, more, g.W(), k);
    es := es + more;
    g.WIs();
    SecondMade(w, g.W());
  }

  lemma AheadNow(w: World, k: Arity)
    requires Sound(w, -1, k) && OneMade(w) && w.handle == At(1) && |w.h.trees| == 2 && w.h.trees[0] != w.h.trees[1]
    ensures Ahead(w.d) && Intact(w.d) && !Recovers(w.d, FailCkpt, k)
  {
    hide Safe, Reachable;
    assert Listed(w.d, 1);
  }

  lemma StillSound(w: World, es: seq<Event>, w': World, k: Arity)
    requires Sound(w, -1, k) && Runs(w, es, w', k)
    ensures Sound(w', -1, k)
  {
    hide Sound, EnabledAll, AfterAll;
    RunGood(w, es, -1, k);
  }

  lemma OpensThere(d: Disk, fault: Fault, k: Arity)
    requires UnsyncedTip(d)
    ensures Recovers(d, fault, k) && Complete(d) && Intact(d) && NewestIs(d, d.staging.now)
    ensures forall tip :: Recovered(d, tip) ==> tip.Some? && d.staging.now == Points(tip.value)
  {
    hide Reachable;
  }

  lemma TipNamed(g: GitStorage)
    requires g.Valid() && g.observedTip.Some? && UnsyncedTip(g.repo.disk)
    ensures NamesTip(g.W()) && NewestCreated(g.repo.disk)
  {
    g.Parts();
    hide Reachable, Sound, TipCached;
  }

  lemma StaysBetween(w: World, w': World, w'': World)
    requires RefsStay(w.(handle := Closed), w') && w''.d == w'.d && w''.h == w'.h
    ensures RefsStay(w, w'')
  {
  }

  /** The program dies; recovery makes the checkpoint that is due, fails on its last sync, and is run again. */
  method FailedRecovery(g: GitStorage) returns (again: GitStorage, ghost es: seq<Event>)
    requires g.Valid() && g.observedTip.Some? && OneMade(g.W()) && g.at == 1
    requires |g.h.trees| == 2 && g.h.trees[0] != g.h.trees[1] && !NamesTip(g.W()) && !Blocked(g.repo.disk)
    modifies g.repo
    ensures fresh(again) && again.repo == g.repo && again.arity == g.arity && again.Valid() && again.observedTip.Some?
    ensures Runs(old(g.W()), es, again.W(), g.arity) && again.at == 1
    ensures again.h.trees == g.h.trees && again.h.stores == g.h.stores
    ensures NamesTip(again.W()) && NewestCreated(again.repo.disk)
    ensures RefsStay(old(g.W()), again.W()) && NextOnly(old(g.repo.disk), again.repo.disk)
  {
    hide *;
    var repo := g.repo;
    ghost var w, more, w1, w2 := g.W(), [], g.W(), g.W();
    g.WIs();
    g.Parts();
    AheadNow(w, g.arity);
    DieIs(w, g.arity);
    RunOneIs(w, Die, g.arity);
    StillSound(w, [Die], w.(handle := Closed), g.arity);
    es := [Die];
    var r;
    r, more, w1 := GitStorage.New(repo, g.arity, FailCkpt, {}, g.h);
    RunsConcat(w, es, w.(handle := Closed), more, w1, g.arity);
    es := es + more;
    StillSound(w, es, w1, g.arity);
    OpensThere(repo.disk, NoFault, g.arity);
    r, more, w2 := GitStorage.New(repo, g.arity, NoFault, {}, w1.h);
    again := r.value;
    RunsConcat(w, es, w1, more, w2, g.arity);
    es := es + more;
    again.WIs();
    again.Parts();
    TipNamed(again);
    StaysBetween(w, w1, w2);
  }

  // ------------------------------------------------------------------ a checkpoint that returned and was lost

  /** The run returned: nothing happened. */
  lemma NothingRan(w: World, w': World, k: Arity)
    requires Runs(w, [], w', k)
    ensures w == w'
  {
  }

  /** A power loss that keeps only what is synced, after one more batch. */
  lemma OnlyFirstLeft(w: World, w': World, k: Arity)
    requires TwoStates(w) && Sound(w', -1, k) && w'.d.ckpts == w.d.ckpts && w'.h.place == w.h.place &&
             w.h.trees <= w'.h.trees
    requires Torn in w'.d.staging.maybe
    ensures Crash(w'.d, OnlySynced(w'.d)) && Sound(World(OnlySynced(w'.d), w'.h, Closed), -1, k)
    ensures var lost := OnlySynced(w'.d);
            Recovers(lost, NoFault, k) && Complete(lost) && forall tip :: Recovered(lost, tip) ==>
              tip == Some(w.h.trees[0])
  {
    GoodIsSafe(w', -1, k);
    OnlySyncedMay(w'.d, w'.h, k);
    FirstKept(w, w'.d);
    hide *;
    LossIs(w', OnlySynced(w'.d), k);
    StepGood(w', PowerLoss(OnlySynced(w'.d)), -1, k);
    OneLeft(OnlySynced(w'.d), w.h.trees[0], k);
  }

  lemma FirstKept(w: World, d: Disk)
    requires TwoStates(w) && d.ckpts == w.d.ckpts
    ensures OnlySynced(d).ckpts == map[1 := Ref(Points(w.h.trees[0]), {Points(w.h.trees[0])})]
    ensures OnlySynced(d).staging.now == Torn && |w.h.trees| > 0
  {
    hide Reachable;
    assert Absent in w.d.ckpts[2].maybe;
  }

  /** Staging torn and one checkpoint: that is what opening finds. */
  lemma OneLeft(d: Disk, t: Object, k: Arity)
    requires d.ckpts == map[1 := Ref(Points(t), {Points(t)})] && d.staging.now == Torn
    ensures Recovers(d, NoFault, k) && Complete(d) && forall tip :: Recovered(d, tip) ==> tip == Some(t)
  {
    assert Last(d, 1);
  }

  lemma SecondNamed(w: World)
    requires TwoStates(w)
    ensures w.h.stores == [Batches(1), Batches(2)] && w.handle == At(1)
    ensures NamesTip(w) && |w.h.trees| == |w.h.stores| == 2
  {
    assert w.d.ckpts[2].now == Points(Tip(w));
  }

  lemma WrittenTears(r: Ref, v: Val)
    ensures Torn in Written(r, v).maybe
  {
  }

  /** The third batch applied after the checkpoint returned: the refs are still those of two states. */
  method ReturnsThenApplies(k: Arity, tornTaken: bool, reopened: bool)
    returns (g: GitStorage, returned: Result<nat>, ghost w: World, ghost es: seq<Event>)
    ensures Runs(Start(tornTaken), es, g.W(), k)
    ensures fresh(g) && fresh(g.repo) && g.arity == k && g.Valid() && TwoStates(w) && returned == Result.Ok(2)
    ensures var w' := g.W();
            w'.d.ckpts == w.d.ckpts && w'.h.place == w.h.place && w.h.trees <= w'.h.trees &&
              w.h.stores <= w'.h.stores &&
            Torn in w'.d.staging.maybe
  {
    g, es := TwoBatches(k, tornTaken, reopened);
    hide *;
    BatchOk(1);
    BatchOk(2);
    w := g.W();
    g.WIs();
    g.Parts();
    SecondNamed(w);
    g.CurrentIs();
    ghost var none, more, p;
    returned, none, p := g.Checkpoint(NoFault, {});
    NothingRan(w, g.W(), k);
    g.Parts();
    g.CurrentIs();
    g.WIs();
    ghost var h, before := g.h, g.repo.disk.staging;
    var a;
    a, more := g.Apply(Batch(2), false);
    RunsConcat(Start(tornTaken), es, w, more, g.W(), k);
    es := es + more;
    g.WIs();
    ExtendIs(h, g.observedTip.value, g.Current());
    WrittenTears(before, Points(g.observedTip.value));
  }

  lemma CountAt(g: GitStorage, i: nat)
    requires g.Valid() && g.observedTip.Some? && i < |g.h.trees| == |g.h.stores| && g.h.trees[i] == g.observedTip.value
    ensures g.count == g.h.stores[i].count
  {
    g.Parts();
    assert HistoryOk(g.h, g.arity);
    hide *;
    CountOf(g.h.stores[i], g.h.stores[g.at], g.observedTip.value, g.arity);
  }

  /**
   A checkpoint of two batches returns; a power loss after a third leaves only the first:
   the checkpoint returned was the one whose last sync had failed.
   */
  method ReturnedAndLost(k: Arity, tornTaken: bool, reopened: bool)
    returns (returned: Result<nat>, again: GitStorage, ghost es: seq<Event>)
    ensures returned == Result.Ok(2) && again.Valid() && again.count == 1
    ensures Runs(Start(tornTaken), es, again.W(), k)
  {
    var g;
    ghost var w;
    g, returned, w, es := ReturnsThenApplies(k, tornTaken, reopened);
    hide *;
    g.Parts();
    OnlyFirstLeft(w, g.W(), k);
    SecondNamed(w);
    g.WIs();
    var repo := g.repo;
    LossIs(g.W(), OnlySynced(repo.disk), k);
    RunsSnoc(Start(tornTaken), es, g.W(), PowerLoss(OnlySynced(repo.disk)), k);
    es := es + [PowerLoss(OnlySynced(repo.disk))];
    repo.PowerLoss(OnlySynced(repo.disk));
    ghost var middle, more, w' := World(repo.disk, g.h, Closed), [], w;
    var r;
    r, more, w' := GitStorage.New(repo, k, NoFault, {}, g.h);
    again := r.value;
    RunsConcat(Start(tornTaken), es, middle, more, again.W(), k);
    es := es + more;
    BatchOk(1);
    CountAt(again, 0);
  }

  // ------------------------------------------------------------------ a torn ref

  lemma TornLeft(w: World, k: Arity)
    requires TwoStates(w) && Sound(w, -1, k)
    ensures var lost := TornAt(w.d, 2);
            Crash(w.d, lost) && Sound(World(lost, w.h, Closed), -1, k) && TornAhead(World(lost, w.h, Closed), 1)
  {
    GoodIsSafe(w, -1, k);
    RefsIn(w.d, w.h, k);
    AtIs(w, k);
    SecondCreated(w);
    TornRefs(w);
    hide *;
    TornMay(w.d, 2);
    LossIs(w, TornAt(w.d, 2), k);
    StepGood(w, PowerLoss(TornAt(w.d, 2)), -1, k);
    TornThere(w, World(TornAt(w.d, 2), w.h, Closed));
  }

  lemma AtIs(w: World, k: Arity)
    requires TwoStates(w) && Sound(w, -1, k)
    ensures w.d.staging.now == Points(w.h.trees[1]) && Reachable(w.h.trees[1]) <= w.d.objects
  {
    hide Safe, Reachable;
  }

  lemma SecondCreated(w: World)
    requires TwoStates(w)
    ensures 2 in w.d.ckpts && Torn in w.d.ckpts[2].maybe && |w.h.trees| == 2
  {
  }

  lemma TornRefs(w: World)
    requires TwoStates(w)
    ensures TornAt(w.d, 2).ckpts == map[1 := Ref(Points(w.h.trees[0]), {Points(w.h.trees[0])}), 2 := Ref(Torn, {Torn})]
    ensures w.h.trees[0] != w.h.trees[1] && 1 in w.h.place && w.h.place[1] == 0
    ensures TornAt(w.d, 2).staging.now == w.d.staging.now && TornAt(w.d, 2).objects == w.d.objects
  {
    hide Reachable;
  }

  lemma TornThere(w: World, w': World)
    requires |w.h.trees| == 2 && w.h.trees[0] != w.h.trees[1] && 1 in w.h.place && w.h.place[1] == 0
    requires w'.h == w.h && w'.handle == Closed
    requires w'.d.ckpts == map[1 := Ref(Points(w.h.trees[0]), {Points(w.h.trees[0])}), 2 := Ref(Torn, {Torn})]
    requires w'.d.staging.now == Points(w.h.trees[1]) && Reachable(w.h.trees[1]) <= w'.d.objects
    ensures TornAhead(w', 1)
  {
    hide Reachable;
    assert Last(w'.d, 1) && NextGen(w'.d, 2);
  }

  /**
   The power fails during the second checkpoint, after its ref was written and before it was
   synced, and leaves the ref torn.  If a torn ref counts as taken the store does not open;
   if not, it opens with both batches.
   */
  method TornRef(k: Arity, tornTaken: bool) returns (found: Option<nat>, ghost w: World, ghost es: seq<Event>)
    ensures Runs(Start(tornTaken), es, w, k) && TornAhead(w, 1) && w.h.stores == [Batches(1), Batches(2)]
    ensures found == if tornTaken then None else Some(2)
  {
    var g;
    g, es := TwoBatches(k, tornTaken, false);
    hide *;
    g.Parts();
    SecondNamed(g.W());
    TornLeft(g.W(), k);
    AtIs(g.W(), k);
    TornRefs(g.W());
    g.WIs();
    var repo := g.repo;
    LossIs(g.W(), TornAt(repo.disk, 2), k);
    RunsSnoc(Start(tornTaken), es, g.W(), PowerLoss(TornAt(repo.disk, 2)), k);
    es := es + [PowerLoss(TornAt(repo.disk, 2))];
    repo.PowerLoss(TornAt(repo.disk, 2));
    w := World(repo.disk, g.h, Closed);
    RunOf(tornTaken, es, w, k);
    if tornTaken {
      TornNeverOpens(w, 1, [], NoFault, k);
    } else {
      TornOpens(w, k);
    }
    var r, _, w' := GitStorage.New(repo, k, NoFault, {}, g.h);
    if r.Ok? {
      BatchOk(1);
      BatchOk(2);
      CountAt(r.value, 1);
      found := Some(r.value.count);
    } else {
      found := None;
    }
  }

  lemma RunOf(tornTaken: bool, es: seq<Event>, w: World, k: Arity)
    requires Runs(Start(tornTaken), es, w, k)
    ensures w.d.tornTaken == tornTaken
  {
    hide EnabledAll, AfterAll;
    TornTakenStays(Start(tornTaken), es, k);
  }

  lemma TornOpens(w: World, k: Arity)
    requires Sound(w, -1, k) && TornAhead(w, 1) && !w.d.tornTaken
    ensures Recovers(w.d, NoFault, k) && Complete(w.d)
    ensures forall tip :: Recovered(w.d, tip) ==> tip.Some? && w.d.staging.now == Points(tip.value)
  {
    GoodIsSafe(w, -1, k);
    hide Sound, Safe, Reachable, Kept;
    ListedOpens(w.d, w.h, -1, k, 1);
  }
}

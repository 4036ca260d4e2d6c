/** From one index sync to the next: the work lists, progress, and what is left to do. */
module SyncRuns {
  import opened Wrappers
  import opened Normalize
  import opened IndexSync
  import opened IndexSyncPages
  import opened IndexSyncSerials
  import opened IndexSyncStore

  // ---------- The work lists ----------

  /** New names and names whose serial has risen upstream. */
  function Outdated(serials: map<Name, int>, remote: map<Name, int>): set<Name> {
    set x | x in remote && (x !in serials || serials[x] < remote[x])
  }

  function Stale(serials: map<Name, int>, remote: map<Name, int>): set<Name> {
    serials.Keys - remote.Keys
  }

  /** Byte order, as sort.Strings has it. */
  predicate NameLeq(a: Name, b: Name) {
    a == [] || (b != [] && (a[0] < b[0] || (a[0] == b[0] && NameLeq(a[1..], b[1..]))))
  }

  lemma {:induction false} NameOrder(a: Name, b: Name, c: Name)
    ensures NameLeq(a, b) || NameLeq(b, a)
    ensures NameLeq(a, b) && NameLeq(b, c) ==> NameLeq(a, c)
  {
    if a != [] && b != [] {
      NameOrder(a[1..], b[1..], if c == [] then [] else c[1..]);
    }
  }

  /** a comes no later than b exactly if it is a prefix of b or smaller where they first differ. */
  lemma {:induction false} NameLeqIff(a: Name, b: Name)
    ensures NameLeq(a, b) <==> a <= b || exists i :: 0 <= i < |a| && i < |b| && a[..i] == b[..i] && a[i] < b[i]
  {
    if a != [] && b != [] {
      NameLeqIff(a[1..], b[1..]);
      if a[0] == b[0] {
        forall i | 0 < i < |a| && i < |b|
          ensures a[..i] == b[..i] <==> a[1..][..i - 1] == b[1..][..i - 1]
        {
          assert a[..i] == [a[0]] + a[1..][..i - 1] && b[..i] == [b[0]] + b[1..][..i - 1];
        }
        assert a <= b <==> a[1..] <= b[1..];
        if i :| 0 <= i < |a[1..]| && i < |b[1..]| && a[1..][..i] == b[1..][..i] && a[1..][i] < b[1..][i] {
          assert a[..i + 1] == b[..i + 1] && a[i + 1] < b[i + 1];
        }
        if i :| 0 <= i < |a| && i < |b| && a[..i] == b[..i] && a[i] < b[i] {
          assert a[1..][..i - 1] == b[1..][..i - 1] && a[1..][i - 1] < b[1..][i - 1];
        }
      } else {
        assert a[..0] == b[..0];
        if i :| 0 < i < |a| && i < |b| && a[..i] == b[..i] {
          assert a[..i][0] == b[..i][0];
        }
      }
    }
  }

  /** names lists s once each, in order. */
  ghost predicate ListsSorted(names: seq<Name>, s: set<Name>) {
    && (forall x :: x in names <==> x in s)
    && (forall i, j :: 0 <= i < j < |names| ==> names[i] != names[j] && NameLeq(names[i], names[j]))
  }

  lemma {:induction false} SomeFirst(s: set<Name>) returns (x: Name)
    requires s != {}
    ensures x in s && forall y :: y in s ==> NameLeq(x, y)
    decreases |s|
  {
    x :| x in s;
    NameOrder(x, x, x);
    if s != {x} {
      var y := SomeFirst(s - {x});
      forall z | z in s ensures NameLeq(if NameLeq(x, y) then x else y, z) {
        NameOrder(x, y, z);
      }
      x := if NameLeq(x, y) then x else y;
    }
  }

  method SortNames(s: set<Name>) returns (names: seq<Name>)
    ensures ListsSorted(names, s)
  {
    names := [];
    var rest := s;
    while rest != {}
      invariant ListsSorted(names, s - rest) && rest <= s
      invariant forall x, y :: x in names && y in rest ==> NameLeq(x, y)
    {
      ghost var _ := SomeFirst(rest);
      var x :| x in rest && forall y :: y in rest ==> NameLeq(x, y);
      names := names + [x];
      rest := rest - {x};
    }
  }

  method Categorize(remote: map<Name, int>, local: map<Name, int>) returns (toProcess: seq<Name>, removed: seq<Name>)
    ensures forall x :: x in toProcess <==> x in remote && (x !in local || local[x] < remote[x])
    ensures forall x :: x in removed <==> x in local && x !in remote
    ensures ListsSorted(toProcess, Outdated(local, remote))
    ensures ListsSorted(removed, Stale(local, remote))
  {
    var outdated: set<Name> := {};
    var unread := remote.Keys;
    while unread != {}
      invariant unread <= remote.Keys && outdated == Outdated(local, remote) - unread
    {
      var name :| name in unread;
      if name !in local || local[name] < remote[name] {
        outdated := outdated + {name};
      }
      unread := unread - {name};
    }
    toProcess := SortNames(outdated);
    var stale: set<Name> := {};
    unread := local.Keys;
    while unread != {}
      invariant unread <= local.Keys && stale == Stale(local, remote) - unread
    {
      var name :| name in unread;
      if name !in remote {
        stale := stale + {name};
      }
      unread := unread - {name};
    }
    removed := SortNames(stale);
  }

  // ---------- Every sync finishes ----------

  function Work(w: Phase): nat
    requires w.Running? ==> w.k <= ACTIONS
  {
    match w
    case Running(k) => 4 + ACTIONS - k
    case Counting(_) => 3
    case Releasing => 2
    case Leaving => 1
    case Gone => 0
  }

  function TotalWork(ws: seq<Phase>): nat
    requires forall i :: 0 <= i < |ws| && ws[i].Running? ==> ws[i].k <= ACTIONS
  {
    if ws == [] then 0 else Work(ws[0]) + TotalWork(ws[1..])
  }

  lemma {:induction false} WorkUpdate(ws: seq<Phase>, i: nat, w: Phase)
    requires forall j :: 0 <= j < |ws| && ws[j].Running? ==> ws[j].k <= ACTIONS
    requires i < |ws| && (w.Running? ==> w.k <= ACTIONS)
    ensures TotalWork(ws[i := w]) == TotalWork(ws) - Work(ws[i]) + Work(w)
  {
    if i == 0 {
      assert ws[i := w][1..] == ws[1..];
    } else {
      assert ws[i := w][1..] == ws[1..][i - 1 := w];
      WorkUpdate(ws[1..], i - 1, w);
    }
  }

  lemma {:induction false} WorkAppend(ws: seq<Phase>, w: Phase)
    requires forall j :: 0 <= j < |ws| && ws[j].Running? ==> ws[j].k <= ACTIONS
    requires w.Running? ==> w.k <= ACTIONS
    ensures TotalWork(ws + [w]) == TotalWork(ws) + Work(w)
  {
    if ws == [] {
      assert ws + [w] == [w] && [w][1..] == [];
    } else {
      assert (ws + [w])[1..] == ws[1..] + [w];
      WorkAppend(ws[1..], w);
    }
  }

  /** A bound on the steps a sync still takes. */
  function Remaining(job: Job, s: State): int
    requires WellFormed(job, s)
  {
    var unlaunched, removals := |job.todo| - |s.workers|, 3 * |job.removed|;
    TotalWork(s.workers) + match s.main
      case Looping => 14 * unlaunched + removals + 3
      case Acquiring => 14 * unlaunched + removals + 2
      case Spawning => 14 * unlaunched + removals + 1
      case Waiting => removals + 2
      case Removing(j, k) => removals - 3 * j - k + 1
      case Finished => 0
  }

  lemma WorkerShrinks(job: Job, s: State, i: nat)
    requires ValidJob(job) && WellFormed(job, s) && Enabled(job, s, WorkerStep(i))
    ensures WellFormed(job, ApplyWorker(job, s, i))
    ensures Remaining(job, ApplyWorker(job, s, i)) < Remaining(job, s)
  {
    var after := ApplyWorker(job, s, i);
    assert after.workers == s.workers[i := after.workers[i]] && after.main == s.main;
    assert Work(after.workers[i]) < Work(s.workers[i]);
    WorkUpdate(s.workers, i, after.workers[i]);
  }

  lemma MainShrinks(job: Job, s: State, cancelled: bool)
    requires ValidJob(job) && WellFormed(job, s) && Enabled(job, s, MainStep(cancelled))
    ensures WellFormed(job, ApplyMain(job, s, cancelled))
    ensures Remaining(job, ApplyMain(job, s, cancelled)) < Remaining(job, s)
  {
    if s.main == Spawning {
      WorkAppend(s.workers, Running(0));
    }
  }

  lemma StepShrinks(job: Job, s: State, e: Event)
    requires ValidJob(job) && WellFormed(job, s) && Enabled(job, s, e)
    ensures 0 <= Remaining(job, Apply(job, s, e)) < Remaining(job, s)
  {
    match e
    case WorkerStep(i) => WorkerShrinks(job, s, i);
    case MainStep(cancelled) => MainShrinks(job, s, cancelled);
  }

  lemma {:induction false} SomeWorker(ws: seq<Phase>, p: Phase -> bool) returns (i: nat)
    requires CountIf(ws, p) > 0
    ensures i < |ws| && p(ws[i])
  {
    if p(ws[0]) {
      i := 0;
    } else {
      i := SomeWorker(ws[1..], p);
      i := i + 1;
    }
  }

  /** A loop blocked on the semaphore or the wait group has a worker that can step. */
  lemma SomethingEnabled(job: Job, s: State) returns (e: Event)
    requires PoolInv(job, s) && job.capacity > 0 && s.main != Finished
    ensures Enabled(job, s, e) && e != MainStep(true)
  {
    if s.main == Acquiring && s.tokens >= job.capacity {
      var i := SomeWorker(s.workers, Holds);
      e := WorkerStep(i);
    } else if s.main == Waiting && s.wg != 0 {
      var i := SomeWorker(s.workers, Live);
      e := WorkerStep(i);
    } else {
      e := MainStep(false);
    }
  }

  lemma {:induction false} BehaviorShrinks(job: Job, d: Store, ss: seq<State>, n: nat)
    requires Behavior(job, d, ss) && n < |ss|
    ensures PoolInv(job, ss[n]) && 0 <= Remaining(job, ss[n]) <= Remaining(job, Init(d)) - n
  {
    BehaviorKeepsPool(job, d, ss, n);
    if n > 0 {
      BehaviorShrinks(job, d, ss, n - 1);
      assert Next(job, ss[n - 1], ss[n - 1 + 1]);
      var e :| Enabled(job, ss[n - 1], e) && ss[n] == Apply(job, ss[n - 1], e);
      StepShrinks(job, ss[n - 1], e);
    }
  }

  /** Main result: no schedule deadlocks or runs for ever. Every run is bounded in length,
      and one that has not finished can go on. */
  lemma EverySyncFinishes(job: Job, d: Store, ss: seq<State>)
    requires Behavior(job, d, ss) && job.capacity > 0
    ensures |ss| <= 14 * |job.todo| + 3 * |job.removed| + 4
    ensures ss[|ss| - 1].main != Finished ==> exists s' :: Behavior(job, d, ss + [s'])
  {
    BehaviorShrinks(job, d, ss, |ss| - 1);
    var last := ss[|ss| - 1];
    if last.main != Finished {
      var e := SomethingEnabled(job, last);
      var longer := ss + [Apply(job, last, e)];
      forall n | 0 <= n < |longer| - 1 ensures Next(job, longer[n], longer[n + 1]) {
        if n < |ss| - 1 {
          assert Next(job, ss[n], ss[n + 1]);
        }
      }
      assert Behavior(job, d, longer);
    }
  }

  /** The loop launches m names and then stops. */
  predicate Launches(s: State, m: nat) {
    && |s.workers| <= m
    && (s.main.Acquiring? || s.main.Spawning? ==> |s.workers| < m)
    && (s.main.Waiting? || s.main.Removing? || s.main.Finished? ==> |s.workers| == m)
  }

  /** An unfinished run can be carried to the end, and cancelled after any number of names. */
  lemma {:induction false} RunToEnd(job: Job, d: Store, ss: seq<State>, m: nat) returns (done: seq<State>)
    requires Behavior(job, d, ss) && job.capacity > 0 && Launches(ss[|ss| - 1], m) && m <= |job.todo|
    ensures Behavior(job, d, done) && done[|done| - 1].main == Finished
    ensures |done[|done| - 1].workers| == m
    decreases 14 * |job.todo| + 3 * |job.removed| + 4 - |ss|
  {
    var last := ss[|ss| - 1];
    EverySyncFinishes(job, d, ss);
    if last.main == Finished {
      done := ss;
    } else {
      BehaviorKeepsPool(job, d, ss, |ss| - 1);
      var e := SomethingEnabled(job, last);
      if last.main == Looping && |last.workers| == m {
        e := MainStep(true);
      }
      EverySyncFinishes(job, d, ss + [Apply(job, last, e)]);
      done := RunToEnd(job, d, ss + [Apply(job, last, e)], m);
    }
  }

  /** A sync may be cancelled after any number m of names: it still waits for the m workers and
      does the removals. */
  lemma CancelStopsAnywhere(job: Job, d: Store, m: nat) returns (ss: seq<State>)
    requires ValidJob(job) && job.capacity > 0 && m <= |job.todo|
    ensures Behavior(job, d, ss) && ss[|ss| - 1].main == Finished && |ss[|ss| - 1].workers| == m
    ensures ss[|ss| - 1].processed + ss[|ss| - 1].errors == m
  {
    assert Behavior(job, d, [Init(d)]);
    ss := RunToEnd(job, d, [Init(d)], m);
    PoolSafety(job, d, ss, |ss| - 1);
  }

  // ---------- What one sync leaves to do ----------

  /** The job a sync derives from the remote list and the serials it starts with. */
  ghost predicate WorksOn(job: Job, serials: map<Name, int>) {
    && ListsSorted(job.todo, Outdated(serials, job.remote))
    && ListsSorted(job.removed, Stale(serials, job.remote))
  }

  lemma WorkListsAreValid(job: Job, serials: map<Name, int>)
    requires WorksOn(job, serials)
    ensures ValidJob(job)
  {
    assert forall i :: 0 <= i < |job.todo| ==> job.todo[i] in job.todo;
    assert forall i :: 0 <= i < |job.removed| ==> job.removed[i] in job.removed;
  }

  function RemovedOk(job: Job): set<Name> {
    set i | 0 <= i < |job.removed| && job.rmSerial(job.removed[i]) :: job.removed[i]
  }

  /** The serials table of a finished sync, name by name. */
  lemma FinalSerials(job: Job, d: Store, ss: seq<State>, x: Name)
    requires Behavior(job, d, ss) && ss[|ss| - 1].main == Finished
    ensures |ss[|ss| - 1].workers| <= |job.todo|
    ensures var ok := x in Successes(job, ss[|ss| - 1].workers);
            Get(ss[|ss| - 1].store.serials, x) ==
               if x in RemovedOk(job) then None else if ok then Get(job.remote, x) else Get(d.serials, x)
  {
    BehaviorKeepsSerial(job, d, ss, |ss| - 1, x);
  }

  lemma OutdatedAfter(job: Job, d: Store, ss: seq<State>)
    requires Behavior(job, d, ss) && ss[|ss| - 1].main == Finished && WorksOn(job, d.serials)
    ensures |ss[|ss| - 1].workers| <= |job.todo|
    ensures Outdated(ss[|ss| - 1].store.serials, job.remote)
            == Outdated(d.serials, job.remote) - Successes(job, ss[|ss| - 1].workers)
  {
    BehaviorKeepsPool(job, d, ss, |ss| - 1);
    forall x | x in job.remote
      ensures x in Outdated(ss[|ss| - 1].store.serials, job.remote) <==>
              x in Outdated(d.serials, job.remote) && x !in Successes(job, ss[|ss| - 1].workers)
    {
      FinalSerials(job, d, ss, x);
    }
  }

  lemma StaleAfter(job: Job, d: Store, ss: seq<State>)
    requires Behavior(job, d, ss) && ss[|ss| - 1].main == Finished && WorksOn(job, d.serials)
    ensures Stale(ss[|ss| - 1].store.serials, job.remote) == Stale(d.serials, job.remote) - RemovedOk(job)
  {
    BehaviorKeepsPool(job, d, ss, |ss| - 1);
    forall x | x !in job.remote
      ensures x in ss[|ss| - 1].store.serials <==> x in d.serials && x !in RemovedOk(job)
    {
      FinalSerials(job, d, ss, x);
    }
  }

  /** Main result: a sync lowers the number of outdated names by exactly the number it
      counts as processed, and the number of stale ones by exactly its deletions. */
  lemma LowersWorkBySuccesses(job: Job, d: Store, ss: seq<State>)
    requires Behavior(job, d, ss) && ss[|ss| - 1].main == Finished && WorksOn(job, d.serials)
    ensures var s := ss[|ss| - 1];
            && |Outdated(s.store.serials, job.remote)| == |Outdated(d.serials, job.remote)| - s.processed
            && |Stale(s.store.serials, job.remote)| == |Stale(d.serials, job.remote)| - |RemovedOk(job)|
  {
    BehaviorKeepsPool(job, d, ss, |ss| - 1);
    OutdatedAfter(job, d, ss);
    StaleAfter(job, d, ss);
    DropSize(Outdated(d.serials, job.remote), Successes(job, ss[|ss| - 1].workers));
    DropSize(Stale(d.serials, job.remote), RemovedOk(job));
  }

  lemma DropSize(all: set<Name>, part: set<Name>)
    requires part <= all
    ensures |all - part| == |all| - |part|
  {
    assert all == (all - part) + part;
  }

  /** In every reachable state, crashed or not, the serial of a name that stays remote is
      the one the sync started with or the remote one, and never lower than before. */
  lemma SerialsNeverDrop(job: Job, d: Store, ss: seq<State>, n: nat, x: Name)
    requires Behavior(job, d, ss) && n < |ss| && WorksOn(job, d.serials)
    requires x in job.remote && x in d.serials
    ensures x in ss[n].store.serials && ss[n].store.serials[x] >= d.serials[x]
    ensures ss[n].store.serials[x] == d.serials[x] || ss[n].store.serials[x] == job.remote[x]
  {
    BehaviorKeepsSerial(job, d, ss, n, x);
    if i :| 0 <= i < |job.todo| && job.todo[i] == x {
      assert x in job.todo;
    }
  }

  /** Nor does a crash leave more to do than there was. */
  lemma WorkNeverGrows(job: Job, d: Store, ss: seq<State>, n: nat)
    requires Behavior(job, d, ss) && n < |ss| && WorksOn(job, d.serials)
    ensures Outdated(ss[n].store.serials, job.remote) <= Outdated(d.serials, job.remote)
    ensures Stale(ss[n].store.serials, job.remote) <= Stale(d.serials, job.remote)
  {
    forall x | x in Outdated(ss[n].store.serials, job.remote) ensures x in Outdated(d.serials, job.remote) {
      if x in d.serials {
        SerialsNeverDrop(job, d, ss, n, x);
      }
    }
    forall x | x in Stale(ss[n].store.serials, job.remote) ensures x in d.serials {
      BehaviorKeepsSerial(job, d, ss, n, x);
    }
  }

  // ---------- From one sync to the next ----------

  lemma NoMembers(names: seq<Name>)
    ensures names == [] || exists x :: x in names
  {
    if names != [] {
      assert names[0] in names;
    }
  }

  /** When no work is left no schedule of a further sync changes any file or serial. */
  lemma NothingLeftNothingDone(job: Job, d: Store, ss: seq<State>, n: nat)
    requires Behavior(job, d, ss) && n < |ss| && WorksOn(job, d.serials)
    requires Outdated(d.serials, job.remote) == {} && Stale(d.serials, job.remote) == {}
    ensures ss[n].store == d
  {
    NoMembers(job.todo);
    NoMembers(job.removed);
    BehaviorKeepsStore(job, d, ss, n);
    SyncFirstMatches(job, d, 0);
    if !ss[n].main.Removing? && !ss[n].main.Finished? {
      MatchesIsUnique(job, d, ss[n].store, SyncFirst(job, d, 0), []);
    }
  }

  /** A complete sync without faults leaves nothing outdated or stale, and the next sync
      against the same list changes nothing. */
  lemma CleanSyncConverges(job: Job, d: Store, ss: seq<State>, next: Job, ss': seq<State>, n: nat)
    requires Behavior(job, d, ss) && ss[|ss| - 1].main == Finished && WorksOn(job, d.serials)
    requires |ss[|ss| - 1].workers| == |job.todo|
    requires forall x :: job.stop(x) >= ACTIONS && job.rmSerial(x)
    requires next.remote == job.remote && WorksOn(next, ss[|ss| - 1].store.serials)
    requires Behavior(next, ss[|ss| - 1].store, ss') && n < |ss'|
    ensures ss'[n].store == ss[|ss| - 1].store
  {
    var s := ss[|ss| - 1];
    BehaviorKeepsPool(job, d, ss, |ss| - 1);
    OutdatedAfter(job, d, ss);
    StaleAfter(job, d, ss);
    forall x | x in Outdated(d.serials, job.remote) ensures x in Successes(job, s.workers) {
      var i :| 0 <= i < |job.todo| && job.todo[i] == x;
      assert Counted(s.workers[i]);
    }
    forall x | x in Stale(d.serials, job.remote) ensures x in RemovedOk(job) {
      var i :| 0 <= i < |job.removed| && job.removed[i] == x;
      assert job.rmSerial(job.removed[i]);
    }
    NothingLeftNothingDone(next, s.store, ss', n);
  }

  /** One sync of a history; run may end anywhere, which is a crash. */
  datatype Sync = Sync(job: Job, run: seq<State>)

  ghost predicate SyncFrom(d: Store, sync: Sync) {
    Behavior(sync.job, d, sync.run) && WorksOn(sync.job, d.serials)
  }

  function After(sync: Sync): Store
    requires sync.run != []
  {
    sync.run[|sync.run| - 1].store
  }

  /** Every sync starts from what the one before it left, finished or crashed. */
  ghost predicate History(d: Store, h: seq<Sync>)
    decreases |h|
  {
    h == [] || (SyncFrom(d, h[0]) && History(After(h[0]), h[1..]))
  }

  ghost function End(d: Store, h: seq<Sync>): Store
    requires History(d, h)
    decreases |h|
  {
    if h == [] then d else End(After(h[0]), h[1..])
  }

  /** Main result: over any syncs, whatever the remote serials do in between, the serial of
      a name that stays remote never drops. */
  lemma {:induction false} HistoryKeepsSerials(d: Store, h: seq<Sync>, x: Name)
    requires History(d, h) && x in d.serials
    requires forall i :: 0 <= i < |h| ==> x in h[i].job.remote
    ensures x in End(d, h).serials && End(d, h).serials[x] >= d.serials[x]
    decreases |h|
  {
    if h != [] {
      SerialsNeverDrop(h[0].job, d, h[0].run, |h[0].run| - 1, x);
      assert forall i :: 0 <= i < |h[1..]| ==> h[1..][i] == h[i + 1];
      HistoryKeepsSerials(After(h[0]), h[1..], x);
    }
  }

  function WorkLeft(serials: map<Name, int>, remote: map<Name, int>): nat {
    |Outdated(serials, remote)| + |Stale(serials, remote)|
  }

  predicate Finishes(sync: Sync)
    requires sync.run != []
  {
    sync.run[|sync.run| - 1].main == Finished
  }

  /** What a finished sync reports as done. */
  function Gain(sync: Sync): nat
    requires sync.run != []
  {
    if Finishes(sync) then sync.run[|sync.run| - 1].processed + |RemovedOk(sync.job)| else 0
  }

  ghost function Gains(d: Store, h: seq<Sync>): nat
    requires History(d, h)
    decreases |h|
  {
    if h == [] then 0 else Gain(h[0]) + Gains(After(h[0]), h[1..])
  }

  /** The syncs that finish and succeed at something. */
  ghost function Fruitful(d: Store, h: seq<Sync>): nat
    requires History(d, h)
    decreases |h|
  {
    if h == [] then 0 else (if Gain(h[0]) > 0 then 1 else 0) + Fruitful(After(h[0]), h[1..])
  }

  lemma SizeOfPart(part: set<Name>, all: set<Name>)
    requires part <= all
    ensures |part| <= |all|
  {
    DropSize(all, part);
  }

  lemma SyncPays(d: Store, sync: Sync)
    requires SyncFrom(d, sync)
    ensures var left := WorkLeft(After(sync).serials, sync.job.remote) + Gain(sync);
            && left <= WorkLeft(d.serials, sync.job.remote)
            && (Finishes(sync) ==> left == WorkLeft(d.serials, sync.job.remote))
  {
    var remote, now := sync.job.remote, After(sync).serials;
    if Finishes(sync) {
      LowersWorkBySuccesses(sync.job, d, sync.run);
    } else {
      WorkNeverGrows(sync.job, d, sync.run, |sync.run| - 1);
      SizeOfPart(Outdated(now, remote), Outdated(d.serials, remote));
      SizeOfPart(Stale(now, remote), Stale(d.serials, remote));
    }
  }

  ghost predicate FixedRemote(h: seq<Sync>, remote: map<Name, int>) {
    forall i :: 0 <= i < |h| ==> h[i].job.remote == remote
  }

  ghost predicate AllFinish(d: Store, h: seq<Sync>)
    requires History(d, h)
    decreases |h|
  {
    h == [] || (Finishes(h[0]) && AllFinish(After(h[0]), h[1..]))
  }

  /** Against a fixed remote list no name joins the work lists. */
  lemma {:induction false} HistoryShrinks(d: Store, h: seq<Sync>, remote: map<Name, int>)
    requires History(d, h) && FixedRemote(h, remote)
    ensures Outdated(End(d, h).serials, remote) <= Outdated(d.serials, remote)
    ensures Stale(End(d, h).serials, remote) <= Stale(d.serials, remote)
    decreases |h|
  {
    if h != [] {
      WorkNeverGrows(h[0].job, d, h[0].run, |h[0].run| - 1);
      HistoryShrinks(After(h[0]), h[1..], remote);
    }
  }

  /** Main result: .. and their number falls by at least what the finished syncs report, and
      by exactly that if all finish. */
  lemma {:induction false} HistoryPays(d: Store, h: seq<Sync>, remote: map<Name, int>)
    requires History(d, h) && FixedRemote(h, remote)
    ensures WorkLeft(End(d, h).serials, remote) + Gains(d, h) <= WorkLeft(d.serials, remote)
    ensures AllFinish(d, h) ==> WorkLeft(End(d, h).serials, remote) + Gains(d, h) == WorkLeft(d.serials, remote)
    decreases |h|
  {
    if h != [] {
      SyncPays(d, h[0]);
      HistoryPays(After(h[0]), h[1..], remote);
    }
  }

  lemma {:induction false} FruitfulGains(d: Store, h: seq<Sync>)
    requires History(d, h)
    ensures Fruitful(d, h) <= Gains(d, h)
    decreases |h|
  {
    if h != [] {
      FruitfulGains(After(h[0]), h[1..]);
    }
  }

  /** Main result: once as many syncs as there were names to update or remove have succeeded
      at something, with any crashes and failures in between, both work lists are empty and
      no schedule of a further sync changes anything. */
  lemma HistoryConverges(d: Store, h: seq<Sync>, remote: map<Name, int>)
    requires History(d, h) && FixedRemote(h, remote)
    requires Fruitful(d, h) >= WorkLeft(d.serials, remote)
    ensures Outdated(End(d, h).serials, remote) == {} && Stale(End(d, h).serials, remote) == {}
    ensures forall sync, n :: SyncFrom(End(d, h), sync) && sync.job.remote == remote && 0 <= n < |sync.run| ==>
              sync.run[n].store == End(d, h)
  {
    HistoryPays(d, h, remote);
    FruitfulGains(d, h);
    forall sync, n | SyncFrom(End(d, h), sync) && sync.job.remote == remote && 0 <= n < |sync.run|
      ensures sync.run[n].store == End(d, h)
    {
      NothingLeftNothingDone(sync.job, End(d, h), sync.run, n);
    }
  }

  // ---------- A respelled project ----------

  /** Main result: when a name to process has the directory of a name to remove, there is a
      complete sync, with no fault in either, that deletes what it has just written, raises the
      serial, and leaves the next sync nothing to do about it. */
  lemma ClashLosesThePage(job: Job, d: Store, x: Name, r: Name, slot: Slot) returns (ss: seq<State>)
    requires WorksOn(job, d.serials) && job.capacity > 0 && OwnsDir(job, x)
    requires x in Outdated(d.serials, job.remote) && r in Stale(d.serials, job.remote)
    requires NormalizeName(x) == NormalizeName(r)
    requires job.stop(x) >= ACTIONS && Deletes(job, r, slot)
    ensures Behavior(job, d, ss) && ss[|ss| - 1].main == Finished && |ss[|ss| - 1].workers| == |job.todo|
    ensures !Backed(job, ss[|ss| - 1].store.site, x)
    ensures x !in Outdated(ss[|ss| - 1].store.serials, job.remote)
  {
    WorkListsAreValid(job, d.serials);
    assert Behavior(job, d, [Init(d)]);
    ss := RunToEnd(job, d, [Init(d)], |job.todo|);
    assert x in job.todo && r in job.removed;
    var i :| 0 <= i < |job.todo| && job.todo[i] == x;
    var k :| 0 <= k < |job.removed| && job.removed[k] == r;
    BackedIffSpared(job, d, ss, i);
    assert !Spared(job, x);
  }

  /** So when the remote list spells foo-bar what the serials table spells foo_bar. */
  lemma RespellingLosesThePage(job: Job, d: Store) returns (ss: seq<State>)
    requires WorksOn(job, d.serials) && job.capacity > 0 && OwnsDir(job, "foo-bar")
    requires "foo-bar" in job.remote && "foo-bar" !in d.serials && "foo_bar" in d.serials && "foo_bar" !in job.remote
    requires job.stop("foo-bar") >= ACTIONS && Deletes(job, "foo_bar", Html)
    ensures Behavior(job, d, ss) && ss[|ss| - 1].main == Finished
    ensures !Backed(job, ss[|ss| - 1].store.site, "foo-bar")
    ensures "foo-bar" !in Outdated(ss[|ss| - 1].store.serials, job.remote)
  {
    ss := ClashLosesThePage(job, d, "foo-bar", "foo_bar", Html);
  }
}

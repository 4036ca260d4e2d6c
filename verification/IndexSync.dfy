/** One index sync as a transition system (syncer/index.go:45-184): a main loop that
    spawns workers over a semaphore and a wait group, the workers' writes and database
    step, and the removals that follow. */
module IndexSync {
  import opened Normalize

  /** The files written for a package: three pages in its simple directory and its JSON. */
  datatype Slot = Html | V1Html | V1Json | Metadata

  /** A file is generated from one fetch of one package, or left torn by a failed write. */
  datatype Content = Page(name: Name, fetch: int) | Torn

  /** What survives a crash: the files, by normalized name, and the serials table, by name. */
  datatype Store = Store(site: map<(Name, Slot), Content>, serials: map<Name, int>)

  /** A worker performs ACTIONS actions: fetch and parse, four writes, the serial. */
  const ACTIONS := 6

  /** The work lists of one sync and the outcomes of its actions: worker x fails at action
      stop(x), if that is below ACTIONS, and tears(x) says whether a failing write leaves a
      torn file behind. */
  datatype Job = Job(
    remote: map<Name, int>, todo: seq<Name>, removed: seq<Name>, capacity: nat,
    fetched: Name -> int, stop: Name -> nat, tears: Name -> bool,
    rmPages: Name -> set<Slot>, rmJson: Name -> bool, rmSerial: Name -> bool)

  /** Each name once; names to process are remote and removed names are not. */
  ghost predicate ValidJob(job: Job) {
    && (forall i, j :: 0 <= i < j < |job.todo| ==> job.todo[i] != job.todo[j])
    && (forall i, j :: 0 <= i < j < |job.removed| ==> job.removed[i] != job.removed[j])
    && (forall i :: 0 <= i < |job.todo| ==> job.todo[i] in job.remote)
    && (forall i :: 0 <= i < |job.removed| ==> job.removed[i] !in job.remote)
  }

  // ---------- What one worker does to the store ----------

  function ActionOf(slot: Slot): (k: nat)
    ensures 1 <= k <= 4
  {
    match slot
    case Html => 1
    case V1Html => 2
    case V1Json => 3
    case Metadata => 4
  }

  function SlotAt(k: nat): (slot: Slot)
    requires 1 <= k <= 4
    ensures ActionOf(slot) == k
  {
    if k == 1 then Html else if k == 2 then V1Html else if k == 3 then V1Json else Metadata
  }

  /** Action k of worker x succeeds. */
  function Act(job: Job, d: Store, x: Name, k: nat): Store
    requires k < ACTIONS && x in job.remote
  {
    if k == 0 then d
    else if k <= 4 then d.(site := d.site[(NormalizeName(x), SlotAt(k)) := Page(x, job.fetched(x))])
    else d.(serials := d.serials[x := job.remote[x]])
  }

  /** Action stop(x) of worker x fails. */
  function Fail(job: Job, d: Store, x: Name): Store {
    if 1 <= job.stop(x) <= 4 && job.tears(x)
    then d.(site := d.site[(NormalizeName(x), SlotAt(job.stop(x))) := Torn])
    else d
  }

  // ---------- Processing one by one ----------

  function Acts(job: Job, d: Store, x: Name, k: nat): Store
    requires k <= ACTIONS && x in job.remote
  {
    if k == 0 then d else Act(job, Acts(job, d, x, k - 1), x, k - 1)
  }

  function SyncOne(job: Job, d: Store, x: Name): Store
    requires x in job.remote
  {
    if job.stop(x) >= ACTIONS then Acts(job, d, x, ACTIONS) else Fail(job, Acts(job, d, x, job.stop(x)), x)
  }

  /** The first m names, processed in order without concurrency. */
  function SyncFirst(job: Job, d: Store, m: nat): Store
    requires ValidJob(job) && m <= |job.todo|
  {
    if m == 0 then d else SyncOne(job, SyncFirst(job, d, m - 1), job.todo[m - 1])
  }

  /** Step k of removing name r: its pages, its JSON, its serial. */
  function RemoveStep(job: Job, d: Store, r: Name, k: nat): Store {
    var n := NormalizeName(r);
    if k == 0 then d.(site := d.site - set slot | slot in job.rmPages(r) && slot != Metadata :: (n, slot))
    else if k == 1 then (if job.rmJson(r) then d.(site := d.site - {(n, Metadata)}) else d)
    else (if job.rmSerial(r) then d.(serials := d.serials - {r}) else d)
  }

  /** The first j names removed, and k steps of the next. */
  function RemoveFirst(job: Job, d: Store, j: nat, k: nat): Store
    requires j <= |job.removed| && k <= 2 && (k > 0 ==> j < |job.removed|)
    decreases j, k
  {
    if k > 0 then RemoveStep(job, RemoveFirst(job, d, j, k - 1), job.removed[j], k - 1)
    else if j > 0 then RemoveStep(job, RemoveFirst(job, d, j - 1, 2), job.removed[j - 1], 2)
    else d
  }

  // ---------- The machine ----------

  /** Running(k): about to perform action k, or, when k is ACTIONS, about to return. */
  datatype Phase = Running(k: nat) | Counting(ok: bool) | Releasing | Leaving | Gone

  datatype Main = Looping | Acquiring | Spawning | Waiting | Removing(j: nat, k: nat) | Finished

  /** workers[i] processes todo[i]; wg is the wait group's counter, tokens the semaphore's use. */
  datatype State = State(
    store: Store, workers: seq<Phase>, main: Main, tokens: int, wg: int, processed: nat, errors: nat)

  datatype Event = MainStep(cancelled: bool) | WorkerStep(i: nat)

  function Init(d: Store): State {
    State(d, [], Looping, 0, 0, 0, 0)
  }

  predicate Enabled(job: Job, s: State, e: Event) {
    match e
    case MainStep(_) =>
      (match s.main
       case Acquiring => s.tokens < job.capacity
       case Waiting => s.wg == 0
       case Finished => false
       case _ => true)
    case WorkerStep(i) => i < |s.workers| && s.workers[i] != Gone
  }

  /** The loop's program order keeps this; a Removing counter stays within the list. */
  predicate WellFormed(job: Job, s: State) {
    && |s.workers| <= |job.todo|
    && (s.main == Acquiring || s.main == Spawning ==> |s.workers| < |job.todo|)
    && (s.main.Removing? ==> s.main.j <= |job.removed| && s.main.k <= 2 && (s.main.k > 0 ==> s.main.j < |job.removed|))
    && (forall i :: 0 <= i < |s.workers| && s.workers[i].Running? ==> s.workers[i].k <= ACTIONS)
  }

  function ApplyMain(job: Job, s: State, cancelled: bool): (after: State)
    requires WellFormed(job, s) && Enabled(job, s, MainStep(cancelled))
    ensures WellFormed(job, after)
  {
    match s.main
    case Looping =>
      if cancelled || |s.workers| == |job.todo| then s.(main := Waiting)
      else s.(wg := s.wg + 1, main := Acquiring)
    case Acquiring => s.(tokens := s.tokens + 1, main := Spawning)
    case Spawning => s.(workers := s.workers + [Running(0)], main := Looping)
    case Waiting => s.(main := Removing(0, 0))
    case Removing(j, k) =>
      if j == |job.removed| then s.(main := Finished)
      else s.(store := RemoveStep(job, s.store, job.removed[j], k),
              main := if k == 2 then Removing(j + 1, 0) else Removing(j, k + 1))
    case Finished => s
  }

  function ApplyWorker(job: Job, s: State, i: nat): (after: State)
    requires ValidJob(job) && WellFormed(job, s) && Enabled(job, s, WorkerStep(i))
    ensures WellFormed(job, after) && |after.workers| == |s.workers| && after.main == s.main
    ensures after.workers == s.workers[i := after.workers[i]]
  {
    var x := job.todo[i];
    match s.workers[i]
    case Running(k) =>
      if k == ACTIONS then s.(workers := s.workers[i := Counting(true)])
      else if k < job.stop(x) then s.(store := Act(job, s.store, x, k), workers := s.workers[i := Running(k + 1)])
      else s.(store := Fail(job, s.store, x), workers := s.workers[i := Counting(false)])
    case Counting(ok) =>
      s.(processed := s.processed + (if ok then 1 else 0), errors := s.errors + (if ok then 0 else 1),
         workers := s.workers[i := Releasing])
    case Releasing => s.(tokens := s.tokens - 1, workers := s.workers[i := Leaving])
    case Leaving => s.(wg := s.wg - 1, workers := s.workers[i := Gone])
    case Gone => s
  }

  function Apply(job: Job, s: State, e: Event): (after: State)
    requires ValidJob(job) && WellFormed(job, s) && Enabled(job, s, e)
    ensures WellFormed(job, after)
  {
    match e
    case MainStep(cancelled) => ApplyMain(job, s, cancelled)
    case WorkerStep(i) => ApplyWorker(job, s, i)
  }

  /** The states of a run; a crash is a run that goes no further. */
  ghost predicate Behavior(job: Job, d: Store, ss: seq<State>) {
    && ValidJob(job) && ss != [] && ss[0] == Init(d)
    && forall n :: 0 <= n < |ss| - 1 ==> Next(job, ss[n], ss[n + 1])
  }

  ghost predicate Next(job: Job, s: State, s': State)
    requires ValidJob(job)
  {
    WellFormed(job, s) && exists e :: Enabled(job, s, e) && s' == Apply(job, s, e)
  }

  // ---------- Counting workers ----------

  function CountIf(ws: seq<Phase>, p: Phase -> bool): nat {
    if ws == [] then 0 else (if p(ws[0]) then 1 else 0) + CountIf(ws[1..], p)
  }

  lemma {:induction false} CountUpdate(ws: seq<Phase>, i: nat, w: Phase, p: Phase -> bool)
    requires i < |ws|
    ensures CountIf(ws[i := w], p) == CountIf(ws, p) - (if p(ws[i]) then 1 else 0) + (if p(w) then 1 else 0)
  {
    if i == 0 {
      assert ws[i := w][1..] == ws[1..];
    } else {
      assert ws[i := w][1..] == ws[1..][i - 1 := w];
      CountUpdate(ws[1..], i - 1, w, p);
    }
  }

  lemma {:induction false} CountAppend(ws: seq<Phase>, w: Phase, p: Phase -> bool)
    ensures CountIf(ws + [w], p) == CountIf(ws, p) + (if p(w) then 1 else 0)
  {
    if ws == [] {
      assert ws + [w] == [w] && [w][1..] == [];
    } else {
      assert (ws + [w])[1..] == ws[1..] + [w];
      CountAppend(ws[1..], w, p);
    }
  }

  lemma {:induction false} CountBounds(ws: seq<Phase>, p: Phase -> bool, q: Phase -> bool)
    requires forall w :: p(w) ==> q(w)
    ensures CountIf(ws, p) <= CountIf(ws, q) <= |ws|
    ensures CountIf(ws, q) == 0 ==> forall i :: 0 <= i < |ws| ==> !q(ws[i])
    ensures CountIf(ws, q) == |ws| <==> forall i :: 0 <= i < |ws| ==> q(ws[i])
  {
    if ws != [] {
      CountBounds(ws[1..], p, q);
      assert forall i :: 1 <= i < |ws| ==> ws[i] == ws[1..][i - 1];
    }
  }

  /** The worker holds a token of the semaphore. */
  predicate Holds(w: Phase) {
    w.Running? || w.Counting? || w.Releasing?
  }

  predicate Live(w: Phase) {
    w != Gone
  }

  predicate Counted(w: Phase) {
    w.Releasing? || w.Leaving? || w.Gone?
  }

  /** The names whose success has been counted. */
  function Successes(job: Job, ws: seq<Phase>): set<Name>
    requires |ws| <= |job.todo|
  {
    set i | 0 <= i < |ws| && Counted(ws[i]) && job.stop(job.todo[i]) >= ACTIONS :: job.todo[i]
  }

  /** The counters say what the workers' phases say. */
  ghost predicate Counters(job: Job, s: State)
    requires |s.workers| <= |job.todo|
  {
    && s.tokens == CountIf(s.workers, Holds) + (if s.main == Spawning then 1 else 0)
    && s.tokens <= job.capacity
    && s.wg == CountIf(s.workers, Live) + (if s.main == Acquiring || s.main == Spawning then 1 else 0)
    && s.processed + s.errors == CountIf(s.workers, Counted)
    && s.processed == |Successes(job, s.workers)|
  }

  ghost predicate Phases(job: Job, s: State)
    requires |s.workers| <= |job.todo|
  {
    && (forall i :: 0 <= i < |s.workers| ==>
          && (s.workers[i].Running? ==> s.workers[i].k <= job.stop(job.todo[i]))
          && (s.workers[i].Counting? ==> s.workers[i].ok == (job.stop(job.todo[i]) >= ACTIONS)))
    && (s.main.Removing? || s.main.Finished? ==> forall i :: 0 <= i < |s.workers| ==> s.workers[i] == Gone)
  }

  ghost predicate PoolInv(job: Job, s: State) {
    WellFormed(job, s) && Counters(job, s) && Phases(job, s)
  }

  lemma MainKeepsPool(job: Job, s: State, cancelled: bool)
    requires ValidJob(job) && PoolInv(job, s) && Enabled(job, s, MainStep(cancelled))
    ensures PoolInv(job, Apply(job, s, MainStep(cancelled)))
  {
    if s.main == Spawning {
      SpawnKeepsCounters(job, s);
    } else if s.main == Waiting {
      CountBounds(s.workers, Live, Live);
    }
  }

  lemma SpawnKeepsCounters(job: Job, s: State)
    requires ValidJob(job) && PoolInv(job, s) && s.main == Spawning
    ensures Counters(job, ApplyMain(job, s, false))
  {
    CountAppend(s.workers, Running(0), Holds);
    CountAppend(s.workers, Running(0), Live);
    CountAppend(s.workers, Running(0), Counted);
    assert Successes(job, s.workers + [Running(0)]) == Successes(job, s.workers);
  }

  lemma WorkerKeepsCounters(job: Job, s: State, i: nat)
    requires ValidJob(job) && PoolInv(job, s) && Enabled(job, s, WorkerStep(i))
    ensures Counters(job, ApplyWorker(job, s, i))
  {
    var w := ApplyWorker(job, s, i).workers[i];
    assert Counted(w) && !Counted(s.workers[i]) <==> s.workers[i].Counting?;
    assert Holds(w) != Holds(s.workers[i]) <==> s.workers[i].Releasing?;
    CountUpdate(s.workers, i, w, Holds);
    CountUpdate(s.workers, i, w, Live);
    CountUpdate(s.workers, i, w, Counted);
    SuccessCount(job, s.workers, i, w);
  }

  lemma SuccessCount(job: Job, ws: seq<Phase>, i: nat, w: Phase)
    requires ValidJob(job) && i < |ws| <= |job.todo| && (Counted(ws[i]) ==> Counted(w))
    ensures |Successes(job, ws[i := w])| ==
            |Successes(job, ws)| + (if Counted(w) && !Counted(ws[i]) && job.stop(job.todo[i]) >= ACTIONS then 1 else 0)
  {
    SuccessesStep(job, ws, i, w);
    if Counted(ws[i]) && job.stop(job.todo[i]) >= ACTIONS {
      assert Successes(job, ws) + {job.todo[i]} == Successes(job, ws);
    }
  }

  lemma WorkerKeepsPhases(job: Job, s: State, i: nat)
    requires ValidJob(job) && PoolInv(job, s) && Enabled(job, s, WorkerStep(i))
    ensures Phases(job, ApplyWorker(job, s, i))
  {
    var after := ApplyWorker(job, s, i);
    assert forall j :: 0 <= j < |s.workers| && j != i ==> after.workers[j] == s.workers[j];
  }

  lemma WorkerKeepsPool(job: Job, s: State, i: nat)
    requires ValidJob(job) && PoolInv(job, s) && Enabled(job, s, WorkerStep(i))
    ensures PoolInv(job, Apply(job, s, WorkerStep(i)))
  {
    WorkerKeepsCounters(job, s, i);
    WorkerKeepsPhases(job, s, i);
  }

  lemma SuccessesStep(job: Job, ws: seq<Phase>, i: nat, w: Phase)
    requires ValidJob(job) && i < |ws| <= |job.todo| && (Counted(ws[i]) ==> Counted(w))
    ensures Successes(job, ws[i := w]) ==
            Successes(job, ws) + (if Counted(w) && job.stop(job.todo[i]) >= ACTIONS then {job.todo[i]} else {})
    ensures !Counted(ws[i]) ==> job.todo[i] !in Successes(job, ws)
    ensures Counted(ws[i]) && job.stop(job.todo[i]) >= ACTIONS ==> job.todo[i] in Successes(job, ws)
  {
    var now := ws[i := w];
    assert now[i] == w;
    forall x | x in Successes(job, ws) ensures x in Successes(job, now) {
      var j :| 0 <= j < |ws| && Counted(ws[j]) && job.stop(job.todo[j]) >= ACTIONS && job.todo[j] == x;
      assert Counted(now[j]);
    }
  }

  lemma StepKeepsPool(job: Job, s: State, e: Event)
    requires ValidJob(job) && PoolInv(job, s) && Enabled(job, s, e)
    ensures PoolInv(job, Apply(job, s, e))
  {
    match e
    case MainStep(cancelled) => MainKeepsPool(job, s, cancelled);
    case WorkerStep(i) => WorkerKeepsPool(job, s, i);
  }

  lemma {:induction false} BehaviorKeepsPool(job: Job, d: Store, ss: seq<State>, n: nat)
    requires Behavior(job, d, ss) && n < |ss|
    ensures PoolInv(job, ss[n])
  {
    if n > 0 {
      BehaviorKeepsPool(job, d, ss, n - 1);
      assert Next(job, ss[n - 1], ss[n - 1 + 1]);
      var e :| Enabled(job, ss[n - 1], e) && ss[n] == Apply(job, ss[n - 1], e);
      StepKeepsPool(job, ss[n - 1], e);
    }
  }

  /** Main result on the pool: in every reachable state the workers still holding a token
      are within the semaphore's capacity and within the wait group's count, and once Wait
      has returned none is live and every launched name has been counted once. */
  lemma PoolSafety(job: Job, d: Store, ss: seq<State>, n: nat)
    requires Behavior(job, d, ss) && n < |ss|
    ensures CountIf(ss[n].workers, Holds) <= ss[n].tokens <= job.capacity
    ensures CountIf(ss[n].workers, Holds) <= CountIf(ss[n].workers, Live) <= ss[n].wg
    ensures ss[n].main.Removing? || ss[n].main.Finished? ==>
              && CountIf(ss[n].workers, Live) == 0
              && ss[n].processed + ss[n].errors == |ss[n].workers|
  {
    var s := ss[n];
    BehaviorKeepsPool(job, d, ss, n);
    CountBounds(s.workers, Holds, Live);
    CountBounds(s.workers, Counted, Counted);
    if s.main.Removing? || s.main.Finished? {
      NoneLive(s.workers);
    }
  }

  lemma {:induction false} NoneLive(ws: seq<Phase>)
    requires forall i :: 0 <= i < |ws| ==> ws[i] == Gone
    ensures CountIf(ws, Live) == 0
  {
    if ws != [] {
      NoneLive(ws[1..]);
    }
  }
}

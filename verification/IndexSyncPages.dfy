/** What an index sync does to one package's files, over every interleaving. Only names that
    share the package's directory matter. */
module IndexSyncPages {
  import opened Wrappers
  import opened Normalize
  import opened IndexSync
  import opened IndexSyncSerials

  /** No other name to process has x's directory. */
  ghost predicate OwnsDir(job: Job, x: Name) {
    forall i :: 0 <= i < |job.todo| && job.todo[i] != x ==> NormalizeName(job.todo[i]) != NormalizeName(x)
  }

  /** What a slot of x's directory holds when worker x is in phase w and it held was at first. */
  function SlotAfter(job: Job, x: Name, w: Phase, slot: Slot, was: Option<Content>): Option<Content> {
    var k := ActionOf(slot);
    if (if w.Running? then w.k else job.stop(x)) > k then Some(Page(x, job.fetched(x)))
    else if !w.Running? && job.stop(x) == k && job.tears(x) then Some(Torn)
    else was
  }

  /** Removing name r deletes the slot of its directory. */
  predicate Deletes(job: Job, r: Name, slot: Slot) {
    if slot == Metadata then job.rmJson(r) else slot in job.rmPages(r)
  }

  /** The step of a removal that deletes the slot. */
  function StepOf(slot: Slot): nat {
    if slot == Metadata then 1 else 0
  }

  /** The removal of removed[r] has got past the slot. */
  predicate Past(job: Job, s: State, r: nat, slot: Slot) {
    r < RemovalsDone(job, s) || (s.main.Removing? && r == s.main.j && s.main.k > StepOf(slot))
  }

  ghost predicate DeletedSlot(job: Job, s: State, n: Name, slot: Slot) {
    exists r :: 0 <= r < |job.removed| && NormalizeName(job.removed[r]) == n
                && Deletes(job, job.removed[r], slot) && Past(job, s, r, slot)
  }

  /** The slot as the progress of x's worker and of the removals has it. */
  ghost predicate SlotFits(job: Job, d: Store, s: State, x: Name, slot: Slot)
    requires |s.workers| <= |job.todo|
  {
    var now, was := Get(s.store.site, (NormalizeName(x), slot)), Get(d.site, (NormalizeName(x), slot));
    if DeletedSlot(job, s, NormalizeName(x), slot) then now == None
    else
      && (forall i :: 0 <= i < |s.workers| && job.todo[i] == x ==> now == SlotAfter(job, x, s.workers[i], slot, was))
      && ((forall i :: 0 <= i < |s.workers| ==> job.todo[i] != x) ==> now == was)
  }

  lemma PastNext(job: Job, s: State, cancelled: bool, r: nat, slot: Slot)
    requires ValidJob(job) && PoolInv(job, s) && s.main.Removing? && s.main.j < |job.removed|
    ensures Past(job, ApplyMain(job, s, cancelled), r, slot)
            <==> Past(job, s, r, slot) || (r == s.main.j && s.main.k == StepOf(slot))
  {
  }

  lemma DeletedNext(job: Job, s: State, cancelled: bool, n: Name, slot: Slot)
    requires ValidJob(job) && PoolInv(job, s) && s.main.Removing? && s.main.j < |job.removed|
    ensures var r := job.removed[s.main.j];
            DeletedSlot(job, ApplyMain(job, s, cancelled), n, slot)
            <==> DeletedSlot(job, s, n, slot)
                 || (NormalizeName(r) == n && s.main.k == StepOf(slot) && Deletes(job, r, slot))
  {
    var after := ApplyMain(job, s, cancelled);
    forall r: nat ensures Past(job, after, r, slot)
                          <==> Past(job, s, r, slot) || (r == s.main.j && s.main.k == StepOf(slot)) {
      PastNext(job, s, cancelled, r, slot);
    }
    if r :| 0 <= r < |job.removed| && NormalizeName(job.removed[r]) == n
            && Deletes(job, job.removed[r], slot) && Past(job, s, r, slot) {
      assert Past(job, after, r, slot);
    }
    var now := job.removed[s.main.j];
    if NormalizeName(now) == n && s.main.k == StepOf(slot) && Deletes(job, now, slot) {
      assert Past(job, after, s.main.j, slot);
    }
  }

  lemma RemovalKeepsSlot(job: Job, d: Store, s: State, cancelled: bool, x: Name, slot: Slot)
    requires ValidJob(job) && PoolInv(job, s) && s.main.Removing? && s.main.j < |job.removed|
    requires SlotFits(job, d, s, x, slot)
    ensures SlotFits(job, d, ApplyMain(job, s, cancelled), x, slot)
  {
    DeletedNext(job, s, cancelled, NormalizeName(x), slot);
  }

  lemma NothingPast(job: Job, s: State, n: Name, slot: Slot)
    requires !s.main.Removing? && !s.main.Finished?
    ensures !DeletedSlot(job, s, n, slot)
  {
  }

  lemma LoopKeepsSlot(job: Job, d: Store, s: State, cancelled: bool, x: Name, slot: Slot)
    requires ValidJob(job) && PoolInv(job, s) && Enabled(job, s, MainStep(cancelled))
    requires !s.main.Removing? && SlotFits(job, d, s, x, slot)
    ensures SlotFits(job, d, ApplyMain(job, s, cancelled), x, slot)
  {
    var after := ApplyMain(job, s, cancelled);
    NothingPast(job, s, NormalizeName(x), slot);
    assert !DeletedSlot(job, after, NormalizeName(x), slot);
    assert forall i :: 0 <= i < |s.workers| ==> after.workers[i] == s.workers[i];
  }

  lemma WorkerKeepsSlot(job: Job, d: Store, s: State, i: nat, x: Name, slot: Slot)
    requires ValidJob(job) && PoolInv(job, s) && Enabled(job, s, WorkerStep(i)) && OwnsDir(job, x)
    requires SlotFits(job, d, s, x, slot)
    ensures SlotFits(job, d, ApplyWorker(job, s, i), x, slot)
  {
    var after := ApplyWorker(job, s, i);
    NothingPast(job, s, NormalizeName(x), slot);
    NothingPast(job, after, NormalizeName(x), slot);
    assert forall j :: 0 <= j < |s.workers| && j != i ==> after.workers[j] == s.workers[j];
    if job.todo[i] == x {
      assert Get(after.store.site, (NormalizeName(x), slot))
          == SlotAfter(job, x, after.workers[i], slot, Get(d.site, (NormalizeName(x), slot))) by {
        OwnSlotStep(job, d, s, i, slot);
      }
    }
  }

  lemma ActSlot(job: Job, d: Store, x: Name, k: nat, slot: Slot)
    requires k < ACTIONS && x in job.remote
    ensures Get(Act(job, d, x, k).site, (NormalizeName(x), slot)) ==
            if ActionOf(slot) == k then Some(Page(x, job.fetched(x))) else Get(d.site, (NormalizeName(x), slot))
  {
    if 1 <= k <= 4 {
      assert SlotAt(k) == slot <==> ActionOf(slot) == k;
    }
  }

  lemma FailSlot(job: Job, d: Store, x: Name, slot: Slot)
    ensures Get(Fail(job, d, x).site, (NormalizeName(x), slot)) ==
            if ActionOf(slot) == job.stop(x) && job.tears(x) then Some(Torn) else Get(d.site, (NormalizeName(x), slot))
  {
    if 1 <= job.stop(x) <= 4 {
      assert SlotAt(job.stop(x)) == slot <==> ActionOf(slot) == job.stop(x);
    }
  }

  lemma OwnSlotStep(job: Job, d: Store, s: State, i: nat, slot: Slot)
    requires ValidJob(job) && PoolInv(job, s) && Enabled(job, s, WorkerStep(i))
    requires var x := job.todo[i];
             Get(s.store.site, (NormalizeName(x), slot))
             == SlotAfter(job, x, s.workers[i], slot, Get(d.site, (NormalizeName(x), slot)))
    ensures var x, after := job.todo[i], ApplyWorker(job, s, i);
            Get(after.store.site, (NormalizeName(x), slot))
            == SlotAfter(job, x, after.workers[i], slot, Get(d.site, (NormalizeName(x), slot)))
  {
    var x, w := job.todo[i], s.workers[i];
    FailSlot(job, s.store, x, slot);
    if w.Running? && w.k < ACTIONS {
      ActSlot(job, s.store, x, w.k, slot);
    }
  }

  /** Main result: in every reachable state each of a package's files is what its worker's
      progress and the removals make of it, if no other name to process shares its directory. */
  lemma {:induction false} BehaviorKeepsSlot(job: Job, d: Store, ss: seq<State>, n: nat, x: Name, slot: Slot)
    requires Behavior(job, d, ss) && n < |ss| && OwnsDir(job, x)
    ensures PoolInv(job, ss[n]) && SlotFits(job, d, ss[n], x, slot)
  {
    BehaviorKeepsPool(job, d, ss, n);
    if n == 0 {
      NothingPast(job, ss[0], NormalizeName(x), slot);
    } else {
      BehaviorKeepsSlot(job, d, ss, n - 1, x, slot);
      assert Next(job, ss[n - 1], ss[n - 1 + 1]);
      var e :| Enabled(job, ss[n - 1], e) && ss[n] == Apply(job, ss[n - 1], e);
      StepKeepsSlot(job, d, ss[n - 1], e, x, slot);
    }
  }

  lemma StepKeepsSlot(job: Job, d: Store, s: State, e: Event, x: Name, slot: Slot)
    requires ValidJob(job) && PoolInv(job, s) && Enabled(job, s, e) && OwnsDir(job, x)
    requires SlotFits(job, d, s, x, slot)
    ensures PoolInv(job, Apply(job, s, e)) && SlotFits(job, d, Apply(job, s, e), x, slot)
  {
    StepKeepsPool(job, s, e);
    match e
    case WorkerStep(i) => WorkerKeepsSlot(job, d, s, i, x, slot);
    case MainStep(cancelled) =>
      if !s.main.Removing? {
        LoopKeepsSlot(job, d, s, cancelled, x, slot);
      } else if s.main.j < |job.removed| {
        RemovalKeepsSlot(job, d, s, cancelled, x, slot);
      }
  }

  // ---------- Serials never get ahead of pages ----------

  /** No removal deletes a file of x's directory. */
  ghost predicate Spared(job: Job, x: Name) {
    forall r, slot :: 0 <= r < |job.removed| && NormalizeName(job.removed[r]) == NormalizeName(x) ==>
      !Deletes(job, job.removed[r], slot)
  }

  /** All files of x's directory are generated from fetch f of x. */
  ghost predicate FromFetch(site: map<(Name, Slot), Content>, x: Name, f: int) {
    forall slot :: Get(site, (NormalizeName(x), slot)) == Some(Page(x, f))
  }

  /** .. of this sync. */
  ghost predicate Backed(job: Job, site: map<(Name, Slot), Content>, x: Name) {
    FromFetch(site, x, job.fetched(x))
  }

  // ---------- The order of the writes ----------

  /** What a file of x's directory holds. */
  function FileOf(d: Store, x: Name, slot: Slot): Option<Content> {
    Get(d.site, (NormalizeName(x), slot))
  }

  /** x's file is the one this sync generates. */
  ghost predicate IsNew(job: Job, now: Store, x: Name, slot: Slot) {
    FileOf(now, x, slot) == Some(Page(x, job.fetched(x)))
  }

  ghost predicate IsOldNewOrTorn(job: Job, d: Store, now: Store, x: Name, slot: Slot) {
    FileOf(now, x, slot) == FileOf(d, x, slot) || IsNew(job, now, x, slot)
    || (FileOf(now, x, slot) == Some(Torn) && job.tears(x))
  }

  lemma SlotStates(job: Job, d: Store, s: State, x: Name, slot: Slot)
    requires |s.workers| <= |job.todo| && SlotFits(job, d, s, x, slot)
    requires !DeletedSlot(job, s, NormalizeName(x), slot)
    ensures IsOldNewOrTorn(job, d, s.store, x, slot)
  {
    if i :| 0 <= i < |s.workers| && job.todo[i] == x {
      assert FileOf(s.store, x, slot) == SlotAfter(job, x, s.workers[i], slot, FileOf(d, x, slot));
    }
  }

  /** In every reachable state, crashed or not, each file is as it was, this sync's, or torn by
      a write that tears. One that is not as it was has all those before it from this sync's
      fetch: index.html, then index.v1_html, then index.v1_json, then the JSON. So when one is
      not written, every later one is as it was. */
  lemma WriteOrder(job: Job, d: Store, ss: seq<State>, n: nat, x: Name)
    requires Behavior(job, d, ss) && n < |ss| && OwnsDir(job, x) && Spared(job, x)
    ensures forall slot :: IsOldNewOrTorn(job, d, ss[n].store, x, slot)
    ensures var now := ss[n].store;
            && (FileOf(now, x, V1Html) != FileOf(d, x, V1Html) ==> IsNew(job, now, x, Html))
            && (FileOf(now, x, V1Json) != FileOf(d, x, V1Json) ==>
                  IsNew(job, now, x, Html) && IsNew(job, now, x, V1Html))
            && (FileOf(now, x, Metadata) != FileOf(d, x, Metadata) ==>
                  IsNew(job, now, x, Html) && IsNew(job, now, x, V1Html) && IsNew(job, now, x, V1Json))
  {
    BehaviorKeepsSlot(job, d, ss, n, x, Html);
    BehaviorKeepsSlot(job, d, ss, n, x, V1Html);
    BehaviorKeepsSlot(job, d, ss, n, x, V1Json);
    BehaviorKeepsSlot(job, d, ss, n, x, Metadata);
    forall slot ensures !DeletedSlot(job, ss[n], NormalizeName(x), slot) {
    }
    forall slot ensures IsOldNewOrTorn(job, d, ss[n].store, x, slot) {
      BehaviorKeepsSlot(job, d, ss, n, x, slot);
      SlotStates(job, d, ss[n], x, slot);
    }
  }

  lemma RaisedIsWritten(job: Job, d: Store, s: State, x: Name, slot: Slot)
    requires |s.workers| <= |job.todo| && SlotFits(job, d, s, x, slot) && RaisedIn(job, s, x)
    requires !DeletedSlot(job, s, NormalizeName(x), slot)
    ensures Get(s.store.site, (NormalizeName(x), slot)) == Some(Page(x, job.fetched(x)))
  {
    var i :| 0 <= i < |s.workers| && job.todo[i] == x && Raised(job, x, s.workers[i]);
    assert SlotAfter(job, x, s.workers[i], slot, Get(d.site, (NormalizeName(x), slot)))
        == Some(Page(x, job.fetched(x)));
  }

  /** Main result: in every reachable state, crashed or not, a remote name whose serial this
      sync has raised has every one of its files from this sync's fetch, unless the removal of
      a name with its directory deletes one. */
  lemma SerialsNeverAhead(job: Job, d: Store, ss: seq<State>, n: nat, x: Name)
    requires Behavior(job, d, ss) && n < |ss| && OwnsDir(job, x)
    requires x in job.remote && Spared(job, x)
    requires Get(ss[n].store.serials, x) != Get(d.serials, x)
    ensures Backed(job, ss[n].store.site, x) && Get(ss[n].store.serials, x) == Get(job.remote, x)
  {
    BehaviorKeepsSerial(job, d, ss, n, x);
    forall slot ensures Get(ss[n].store.site, (NormalizeName(x), slot)) == Some(Page(x, job.fetched(x))) {
      BehaviorKeepsSlot(job, d, ss, n, x, slot);
      RaisedIsWritten(job, d, ss[n], x, slot);
    }
  }

  /** Main result: a sync that ends with x processed leaves x with its files if and only if no
      removal of a name with its directory deletes one; its serial is raised either way, so a
      name that lost a file is not fetched again. */
  lemma BackedIffSpared(job: Job, d: Store, ss: seq<State>, i: nat)
    requires Behavior(job, d, ss) && ss[|ss| - 1].main == Finished && i < |ss[|ss| - 1].workers|
    requires |ss[|ss| - 1].workers| <= |job.todo| && job.stop(job.todo[i]) >= ACTIONS && OwnsDir(job, job.todo[i])
    ensures Backed(job, ss[|ss| - 1].store.site, job.todo[i]) <==> Spared(job, job.todo[i])
    ensures Get(ss[|ss| - 1].store.serials, job.todo[i]) == Get(job.remote, job.todo[i])
  {
    var s, x := ss[|ss| - 1], job.todo[i];
    BehaviorKeepsSerial(job, d, ss, |ss| - 1, x);
    assert Raised(job, x, s.workers[i]);
    assert RaisedIn(job, s, x);
    forall slot
      ensures !DeletedSlot(job, s, NormalizeName(x), slot) ==>
                Get(s.store.site, (NormalizeName(x), slot)) == Some(Page(x, job.fetched(x)))
      ensures DeletedSlot(job, s, NormalizeName(x), slot) ==> Get(s.store.site, (NormalizeName(x), slot)) == None
    {
      BehaviorKeepsSlot(job, d, ss, |ss| - 1, x, slot);
      if !DeletedSlot(job, s, NormalizeName(x), slot) {
        RaisedIsWritten(job, d, s, x, slot);
      }
    }
    if r, slot :| 0 <= r < |job.removed| && NormalizeName(job.removed[r]) == NormalizeName(x)
                  && Deletes(job, job.removed[r], slot) {
      assert Past(job, s, r, slot);
      assert DeletedSlot(job, s, NormalizeName(x), slot);
      assert Get(s.store.site, (NormalizeName(x), slot)) == None;
    }
  }
}

/** What an index sync leaves on disk, over every interleaving. */
module IndexSyncStore {
  import opened Wrappers
  import opened Normalize
  import opened IndexSync
  import opened IndexSyncPages
  import opened IndexSyncSerials

  /** No two names to process share a directory. */
  ghost predicate Separate(job: Job) {
    forall i, j :: 0 <= i < j < |job.todo| ==> NormalizeName(job.todo[i]) != NormalizeName(job.todo[j])
  }

  // ---------- The store as a function of the workers' progress ----------

  function SerialAfter(job: Job, x: Name, w: Phase, was: Option<int>): Option<int> {
    if Raised(job, x, w) then Get(job.remote, x) else was
  }

  /** The slots and the serial of todo[i] are as its worker's progress says. */
  ghost predicate OwnMatches(job: Job, d: Store, now: Store, i: nat, w: Phase)
    requires i < |job.todo|
  {
    var x := job.todo[i];
    && (forall slot :: Get(now.site, (NormalizeName(x), slot)) ==
                       SlotAfter(job, x, w, slot, Get(d.site, (NormalizeName(x), slot))))
    && Get(now.serials, x) == SerialAfter(job, x, w, Get(d.serials, x))
  }

  function NamesOf(job: Job, m: nat): set<Name>
    requires m <= |job.todo|
  {
    set i | 0 <= i < m :: job.todo[i]
  }

  function DirsOf(job: Job, m: nat): set<Name>
    requires m <= |job.todo|
  {
    set i | 0 <= i < m :: NormalizeName(job.todo[i])
  }

  /** Nothing outside the launched names has changed. */
  ghost predicate RestMatches(job: Job, d: Store, now: Store, m: nat)
    requires m <= |job.todo|
  {
    && (forall n, slot :: n !in DirsOf(job, m) ==> Get(now.site, (n, slot)) == Get(d.site, (n, slot)))
    && (forall x :: x !in NamesOf(job, m) ==> Get(now.serials, x) == Get(d.serials, x))
  }

  ghost predicate Matches(job: Job, d: Store, now: Store, ws: seq<Phase>)
    requires |ws| <= |job.todo|
  {
    (forall i :: 0 <= i < |ws| ==> OwnMatches(job, d, now, i, ws[i])) && RestMatches(job, d, now, |ws|)
  }

  /** The workers' progress determines the store. */
  lemma MatchesIsUnique(job: Job, d: Store, a: Store, b: Store, ws: seq<Phase>)
    requires |ws| <= |job.todo| && Matches(job, d, a, ws) && Matches(job, d, b, ws)
    ensures a == b
  {
    forall n, slot ensures Get(a.site, (n, slot)) == Get(b.site, (n, slot)) {
      if i :| 0 <= i < |ws| && NormalizeName(job.todo[i]) == n {
        assert OwnMatches(job, d, a, i, ws[i]) && OwnMatches(job, d, b, i, ws[i]);
      }
    }
    forall x ensures Get(a.serials, x) == Get(b.serials, x) {
      if i :| 0 <= i < |ws| && job.todo[i] == x {
        assert OwnMatches(job, d, a, i, ws[i]) && OwnMatches(job, d, b, i, ws[i]);
      }
    }
    SameMap(a.serials, b.serials);
    forall key ensures Get(a.site, key) == Get(b.site, key) {
      assert key == (key.0, key.1);
    }
    SameMap(a.site, b.site);
  }

  lemma SameMap<K, V>(a: map<K, V>, b: map<K, V>)
    requires forall k :: Get(a, k) == Get(b, k)
    ensures a == b
  {
    forall k ensures k in a <==> k in b {
      assert Get(a, k) == Get(b, k);
    }
    forall k | k in a ensures a[k] == b[k] {
      assert Get(a, k) == Get(b, k);
    }
  }

  // ---------- Workers write disjoint parts of the store ----------

  /** before and after differ at most in todo[i]'s slots and serial. */
  ghost predicate OnlyOwn(job: Job, before: Store, after: Store, i: nat)
    requires i < |job.todo|
  {
    && (forall n, slot :: n != NormalizeName(job.todo[i]) ==> Get(after.site, (n, slot)) == Get(before.site, (n, slot)))
    && (forall x :: x != job.todo[i] ==> Get(after.serials, x) == Get(before.serials, x))
  }

  lemma ActMatches(job: Job, d: Store, before: Store, i: nat, k: nat)
    requires ValidJob(job) && Separate(job) && i < |job.todo| && k < ACTIONS
    requires OwnMatches(job, d, before, i, Running(k))
    ensures OwnMatches(job, d, Act(job, before, job.todo[i], k), i, Running(k + 1))
    ensures OnlyOwn(job, before, Act(job, before, job.todo[i], k), i)
  {
    forall slot ensures ActionOf(slot) == k ==> 1 <= k <= 4 && slot == SlotAt(k) {
    }
  }

  /** One step of worker i touches only its own part of the store, and as its new phase says. */
  lemma WorkerStepOwn(job: Job, d: Store, s: State, i: nat)
    requires ValidJob(job) && Separate(job) && PoolInv(job, s) && Enabled(job, s, WorkerStep(i))
    requires OwnMatches(job, d, s.store, i, s.workers[i])
    ensures OnlyOwn(job, s.store, ApplyWorker(job, s, i).store, i)
    ensures OwnMatches(job, d, ApplyWorker(job, s, i).store, i, ApplyWorker(job, s, i).workers[i])
  {
    var x, w := job.todo[i], s.workers[i];
    if w.Running? && w.k < ACTIONS && w.k < job.stop(x) {
      ActMatches(job, d, s.store, i, w.k);
    } else if w.Running? && w.k < ACTIONS {
    } else {
    }
  }

  lemma WorkerStepMatches(job: Job, d: Store, s: State, i: nat)
    requires ValidJob(job) && Separate(job) && PoolInv(job, s) && Enabled(job, s, WorkerStep(i))
    requires Matches(job, d, s.store, s.workers)
    ensures Matches(job, d, ApplyWorker(job, s, i).store, ApplyWorker(job, s, i).workers)
  {
    assert OwnMatches(job, d, s.store, i, s.workers[i]);
    WorkerStepOwn(job, d, s, i);
  }

  lemma SpawnMatches(job: Job, d: Store, now: Store, ws: seq<Phase>)
    requires ValidJob(job) && Separate(job) && |ws| < |job.todo| && Matches(job, d, now, ws)
    ensures Matches(job, d, now, ws + [Running(0)])
  {
    var m := |ws|;
    assert forall i :: 0 <= i < m ==> NormalizeName(job.todo[i]) != NormalizeName(job.todo[m]);
    assert OwnMatches(job, d, now, m, Running(0));
    forall i | 0 <= i < m ensures OwnMatches(job, d, now, i, (ws + [Running(0)])[i]) {
      assert OwnMatches(job, d, now, i, ws[i]);
    }
  }

  // ---------- Serializability ----------

  function AllGone(m: nat): seq<Phase> {
    seq(m, i => Gone)
  }

  lemma {:induction false} ActsMatch(job: Job, d: Store, now: Store, i: nat, k: nat)
    requires ValidJob(job) && Separate(job) && i < |job.todo| && k <= ACTIONS && OwnMatches(job, d, now, i, Running(0))
    ensures OwnMatches(job, d, Acts(job, now, job.todo[i], k), i, Running(k))
    ensures OnlyOwn(job, now, Acts(job, now, job.todo[i], k), i)
  {
    if k > 0 {
      ActsMatch(job, d, now, i, k - 1);
      ActMatches(job, d, Acts(job, now, job.todo[i], k - 1), i, k - 1);
    }
  }

  lemma SyncOneMatches(job: Job, d: Store, now: Store, i: nat)
    requires ValidJob(job) && Separate(job) && i < |job.todo| && OwnMatches(job, d, now, i, Running(0))
    ensures OwnMatches(job, d, SyncOne(job, now, job.todo[i]), i, Gone)
    ensures OnlyOwn(job, now, SyncOne(job, now, job.todo[i]), i)
  {
    var x := job.todo[i];
    if job.stop(x) >= ACTIONS {
      ActsMatch(job, d, now, i, ACTIONS);
    } else {
      ActsMatch(job, d, now, i, job.stop(x));
    }
  }

  lemma SyncNextMatches(job: Job, d: Store, before: Store, m: nat)
    requires ValidJob(job) && Separate(job) && m < |job.todo| && Matches(job, d, before, AllGone(m))
    ensures Matches(job, d, SyncOne(job, before, job.todo[m]), AllGone(m + 1))
  {
    var ws := AllGone(m) + [Running(0)];
    SpawnMatches(job, d, before, AllGone(m));
    assert OwnMatches(job, d, before, m, ws[m]);
    SyncOneMatches(job, d, before, m);
    assert ws[m := Gone] == AllGone(m + 1);
  }

  lemma SyncFirstNext(job: Job, d: Store, m: nat)
    requires ValidJob(job) && Separate(job) && m < |job.todo| && Matches(job, d, SyncFirst(job, d, m), AllGone(m))
    ensures Matches(job, d, SyncFirst(job, d, m + 1), AllGone(m + 1))
  {
    SyncNextMatches(job, d, SyncFirst(job, d, m), m);
  }

  /** Processing one by one ends where every finished interleaving must. */
  lemma {:induction false} SyncFirstMatches(job: Job, d: Store, m: nat)
    requires ValidJob(job) && Separate(job) && m <= |job.todo|
    ensures Matches(job, d, SyncFirst(job, d, m), AllGone(m))
  {
    if m == 0 {
    } else {
      SyncFirstMatches(job, d, m - 1);
      SyncFirstNext(job, d, m - 1);
    }
  }

  /** The store in every reachable state. */
  ghost predicate StoreInv(job: Job, d: Store, s: State)
    requires ValidJob(job) && WellFormed(job, s)
  {
    match s.main
    case Removing(j, k) => s.store == RemoveFirst(job, SyncFirst(job, d, |s.workers|), j, k)
    case Finished => s.store == RemoveFirst(job, SyncFirst(job, d, |s.workers|), |job.removed|, 0)
    case _ => Matches(job, d, s.store, s.workers)
  }

  lemma WaitMatches(job: Job, d: Store, s: State)
    requires ValidJob(job) && Separate(job) && PoolInv(job, s) && s.main == Waiting && s.wg == 0
    requires Matches(job, d, s.store, s.workers)
    ensures s.store == SyncFirst(job, d, |s.workers|)
  {
    CountBounds(s.workers, Live, Live);
    assert s.workers == AllGone(|s.workers|);
    SyncFirstMatches(job, d, |s.workers|);
    MatchesIsUnique(job, d, s.store, SyncFirst(job, d, |s.workers|), s.workers);
  }

  lemma MainKeepsStore(job: Job, d: Store, s: State, cancelled: bool)
    requires ValidJob(job) && Separate(job) && PoolInv(job, s)
    requires Enabled(job, s, MainStep(cancelled)) && StoreInv(job, d, s)
    ensures StoreInv(job, d, ApplyMain(job, s, cancelled))
  {
    if s.main == Spawning {
      SpawnMatches(job, d, s.store, s.workers);
    } else if s.main == Waiting {
      WaitMatches(job, d, s);
    }
  }

  lemma WorkerKeepsStore(job: Job, d: Store, s: State, i: nat)
    requires ValidJob(job) && Separate(job) && PoolInv(job, s) && Enabled(job, s, WorkerStep(i)) && StoreInv(job, d, s)
    ensures StoreInv(job, d, ApplyWorker(job, s, i))
  {
    assert !s.main.Removing? && !s.main.Finished?;
    WorkerStepMatches(job, d, s, i);
  }

  lemma StepKeepsStore(job: Job, d: Store, s: State, e: Event)
    requires ValidJob(job) && Separate(job) && PoolInv(job, s) && Enabled(job, s, e) && StoreInv(job, d, s)
    ensures StoreInv(job, d, Apply(job, s, e))
  {
    match e
    case WorkerStep(i) => WorkerKeepsStore(job, d, s, i);
    case MainStep(cancelled) => MainKeepsStore(job, d, s, cancelled);
  }

  lemma {:induction false} BehaviorKeepsStore(job: Job, d: Store, ss: seq<State>, n: nat)
    requires Behavior(job, d, ss) && Separate(job) && n < |ss|
    ensures PoolInv(job, ss[n]) && StoreInv(job, d, ss[n])
  {
    BehaviorKeepsPool(job, d, ss, n);
    if n > 0 {
      BehaviorKeepsStore(job, d, ss, n - 1);
      assert Next(job, ss[n - 1], ss[n - 1 + 1]);
      var e :| Enabled(job, ss[n - 1], e) && ss[n] == Apply(job, ss[n - 1], e);
      StepKeepsStore(job, d, ss[n - 1], e);
    }
  }

  /** Main result: every interleaving that reaches the removals has left exactly the store
      of processing the launched names one by one in sorted order, and every finished sync
      that of the removals after it. */
  lemma Serializable(job: Job, d: Store, ss: seq<State>, n: nat)
    requires Behavior(job, d, ss) && Separate(job) && n < |ss|
    ensures var s := ss[n];
            && |s.workers| <= |job.todo|
            && (s.main == Removing(0, 0) ==> s.store == SyncFirst(job, d, |s.workers|))
            && (s.main == Finished ==>
                  s.store == RemoveFirst(job, SyncFirst(job, d, |s.workers|), |job.removed|, 0))
  {
    BehaviorKeepsStore(job, d, ss, n);
  }

  // ---------- Why the names to process must not share a directory ----------

  lemma {:induction false} ActsSlot(job: Job, d: Store, x: Name, k: nat, n: Name, slot: Slot)
    requires k <= ACTIONS && x in job.remote
    ensures Get(Acts(job, d, x, k).site, (n, slot)) ==
            if n == NormalizeName(x) && k > ActionOf(slot) then Some(Page(x, job.fetched(x)))
            else Get(d.site, (n, slot))
  {
    if k > 0 {
      ActsSlot(job, d, x, k - 1, n, slot);
      if 1 <= k - 1 <= 4 {
        assert SlotAt(k - 1) == slot <==> ActionOf(slot) == k - 1;
      }
    }
  }

  lemma {:induction false} ActsSerial(job: Job, d: Store, x: Name, k: nat, y: Name)
    requires k <= ACTIONS && x in job.remote
    ensures Get(Acts(job, d, x, k).serials, y) ==
            if y == x && k == ACTIONS then Get(job.remote, x) else Get(d.serials, y)
  {
    if k > 0 {
      ActsSerial(job, d, x, k - 1, y);
    }
  }

  /** A package synced without faults owns its directory and its serial. */
  lemma SyncedStore(job: Job, d: Store, x: Name)
    requires x in job.remote && job.stop(x) >= ACTIONS
    ensures forall n, slot :: Get(SyncOne(job, d, x).site, (n, slot)) ==
              if n == NormalizeName(x) then Some(Page(x, job.fetched(x))) else Get(d.site, (n, slot))
    ensures forall y :: Get(SyncOne(job, d, x).serials, y) == if y == x then Get(job.remote, x) else Get(d.serials, y)
  {
    forall n, slot ensures Get(SyncOne(job, d, x).site, (n, slot)) ==
                           if n == NormalizeName(x) then Some(Page(x, job.fetched(x))) else Get(d.site, (n, slot)) {
      ActsSlot(job, d, x, ACTIONS, n, slot);
    }
    forall y ensures Get(SyncOne(job, d, x).serials, y) == if y == x then Get(job.remote, x) else Get(d.serials, y) {
      ActsSerial(job, d, x, ACTIONS, y);
    }
  }

  /** Two packages can be synced in either order with the same result if and only if their
      names normalize differently. */
  lemma CommuteIffSeparate(job: Job, d: Store, x: Name, y: Name)
    requires x in job.remote && y in job.remote && x != y
    requires job.stop(x) >= ACTIONS && job.stop(y) >= ACTIONS
    ensures SyncOne(job, SyncOne(job, d, x), y) == SyncOne(job, SyncOne(job, d, y), x)
            <==> NormalizeName(x) != NormalizeName(y)
  {
    var xy, yx := SyncOne(job, SyncOne(job, d, x), y), SyncOne(job, SyncOne(job, d, y), x);
    SyncedStore(job, d, x);
    SyncedStore(job, d, y);
    SyncedStore(job, SyncOne(job, d, x), y);
    SyncedStore(job, SyncOne(job, d, y), x);
    if NormalizeName(x) != NormalizeName(y) {
      forall key ensures Get(xy.site, key) == Get(yx.site, key) {
        assert key == (key.0, key.1);
      }
      SameMap(xy.site, yx.site);
      SameMap(xy.serials, yx.serials);
    } else {
      assert Get(xy.site, (NormalizeName(x), Html)) == Some(Page(y, job.fetched(y)));
      assert Get(yx.site, (NormalizeName(x), Html)) == Some(Page(x, job.fetched(x)));
    }
  }
}

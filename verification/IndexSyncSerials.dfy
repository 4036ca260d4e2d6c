/** What an index sync does to the serials table, over every interleaving. Serials are keyed
    by the name itself, so names that share a directory do not matter here. */
module IndexSyncSerials {
  import opened Wrappers
  import opened Normalize
  import opened IndexSync

  function Get<K, V>(m: map<K, V>, k: K): Option<V> {
    if k in m then Some(m[k]) else None
  }

  /** Worker x has raised its serial. */
  predicate Raised(job: Job, x: Name, w: Phase) {
    (if w.Running? then w.k else job.stop(x)) >= ACTIONS
  }

  ghost predicate RaisedIn(job: Job, s: State, x: Name)
    requires |s.workers| <= |job.todo|
  {
    exists i :: 0 <= i < |s.workers| && job.todo[i] == x && Raised(job, x, s.workers[i])
  }

  /** The number of names whose removal is over. */
  function RemovalsDone(job: Job, s: State): nat {
    if s.main.Removing? then s.main.j else if s.main.Finished? then |job.removed| else 0
  }

  ghost predicate DeletedIn(job: Job, s: State, x: Name)
    requires RemovalsDone(job, s) <= |job.removed|
  {
    exists r :: 0 <= r < RemovalsDone(job, s) && job.removed[r] == x && job.rmSerial(x)
  }

  /** x's serial, as the progress of the workers and of the removals has it. */
  ghost predicate SerialFits(job: Job, d: Store, s: State, x: Name)
    requires WellFormed(job, s)
  {
    Get(s.store.serials, x) ==
    if DeletedIn(job, s, x) then None else if RaisedIn(job, s, x) then Get(job.remote, x) else Get(d.serials, x)
  }

  lemma MainKeepsSerial(job: Job, d: Store, s: State, cancelled: bool, x: Name)
    requires ValidJob(job) && PoolInv(job, s) && Enabled(job, s, MainStep(cancelled)) && SerialFits(job, d, s, x)
    ensures SerialFits(job, d, ApplyMain(job, s, cancelled), x)
  {
    var after := ApplyMain(job, s, cancelled);
    if DeletedIn(job, s, x) {
      var r :| 0 <= r < RemovalsDone(job, s) && job.removed[r] == x && job.rmSerial(x);
      assert 0 <= r < RemovalsDone(job, after);
    }
    if s.main.Removing? && s.main.j < |job.removed| && s.main.k == 2 && x == job.removed[s.main.j] && job.rmSerial(x) {
      assert DeletedIn(job, after, x);
    }
  }

  lemma WorkerKeepsSerial(job: Job, d: Store, s: State, i: nat, x: Name)
    requires ValidJob(job) && PoolInv(job, s) && Enabled(job, s, WorkerStep(i)) && SerialFits(job, d, s, x)
    ensures SerialFits(job, d, ApplyWorker(job, s, i), x)
  {
    var after := ApplyWorker(job, s, i);
    if x != job.todo[i] {
      if RaisedIn(job, s, x) {
        var j :| 0 <= j < |s.workers| && job.todo[j] == x && Raised(job, x, s.workers[j]);
        assert Raised(job, x, after.workers[j]);
      }
      if RaisedIn(job, after, x) {
        var j :| 0 <= j < |s.workers| && job.todo[j] == x && Raised(job, x, after.workers[j]);
        assert Raised(job, x, s.workers[j]);
      }
    }
  }

  /** Main result: in every reachable state a name's serial is gone if its removal has
      deleted it, the remote one if its worker has raised it, and else what it was. */
  lemma {:induction false} BehaviorKeepsSerial(job: Job, d: Store, ss: seq<State>, n: nat, x: Name)
    requires Behavior(job, d, ss) && n < |ss|
    ensures PoolInv(job, ss[n]) && SerialFits(job, d, ss[n], x)
  {
    BehaviorKeepsPool(job, d, ss, n);
    if n > 0 {
      BehaviorKeepsSerial(job, d, ss, n - 1, x);
      assert Next(job, ss[n - 1], ss[n - 1 + 1]);
      var e :| Enabled(job, ss[n - 1], e) && ss[n] == Apply(job, ss[n - 1], e);
      match e
      case MainStep(cancelled) => MainKeepsSerial(job, d, ss[n - 1], cancelled, x);
      case WorkerStep(i) => WorkerKeepsSerial(job, d, ss[n - 1], i, x);
    }
  }
}

/** When the execution loop stops over failed downloads (syncer/cache.go:160-191), against
    the documented rule, which counts consecutive failures. */
module DownloadErrors {
  import opened TierAssignment
  import opened CacheModel

  predicate Downloads(a: Assignment) {
    a.target != NONE && !a.file.local
  }

  predicate Fails(io: Io, retries: nat, a: Assignment) {
    Downloads(a) && Fetched(io, a.file.path, 0, retries).None?
  }

  /** The downloads of the plan that fail. */
  function Failed(io: Io, retries: nat, plan: seq<Assignment>): nat {
    if plan == [] then 0 else (if Fails(io, retries, plan[0]) then 1 else 0) + Failed(io, retries, plan[1..])
  }

  /** The execution loop without a threshold. */
  function Perform(io: Io, retries: nat, e: Exec, plan: seq<Assignment>): (after: Exec)
    requires AllPlaced(plan, |e.disk|)
    ensures |after.disk| == |e.disk|
    decreases |plan|
  {
    if plan == [] then e else Perform(io, retries, ExecOne(io, retries, e, plan[0]), plan[1..])
  }

  /** The first k assignments are the shortest prefix with which errors reaches the threshold, or
      all there are. */
  ghost predicate StopsAt(io: Io, retries: nat, plan: seq<Assignment>, errors: nat, threshold: int, k: nat) {
    && k <= |plan|
    && (forall m :: 0 <= m < k ==> errors + Failed(io, retries, plan[..m]) < threshold)
    && (k < |plan| ==> errors + Failed(io, retries, plan[..k]) >= threshold)
  }

  /** The place where the loop stops, looked for from the prefix of length from on. */
  function StopFrom(io: Io, retries: nat, plan: seq<Assignment>, errors: nat, threshold: int, from: nat): (k: nat)
    requires from <= |plan| && forall m :: 0 <= m < from ==> errors + Failed(io, retries, plan[..m]) < threshold
    ensures StopsAt(io, retries, plan, errors, threshold, k)
    decreases |plan| - from
  {
    if from == |plan| || errors + Failed(io, retries, plan[..from]) >= threshold then from
    else StopFrom(io, retries, plan, errors, threshold, from + 1)
  }

  /** The one place where the loop stops. */
  function StopPoint(io: Io, retries: nat, plan: seq<Assignment>, errors: nat, threshold: int): (k: nat)
    ensures StopsAt(io, retries, plan, errors, threshold, k)
    ensures forall l: nat :: StopsAt(io, retries, plan, errors, threshold, l) ==> l == k
  {
    StopFrom(io, retries, plan, errors, threshold, 0)
  }

  lemma FailedPrefix(io: Io, retries: nat, plan: seq<Assignment>, m: nat)
    requires m < |plan|
    ensures Failed(io, retries, plan[..m + 1])
            == (if Fails(io, retries, plan[0]) then 1 else 0) + Failed(io, retries, plan[1..][..m])
  {
    assert plan[..m + 1][1..] == plan[1..][..m];
  }

  lemma StopsAfterFirst(io: Io, retries: nat, plan: seq<Assignment>, errors: nat, threshold: int, k: nat)
    requires StopsAt(io, retries, plan, errors, threshold, k) && k > 0
    ensures StopsAt(io, retries, plan[1..], errors + (if Fails(io, retries, plan[0]) then 1 else 0), threshold, k - 1)
  {
    forall m | 0 <= m < k - 1
      ensures errors + (if Fails(io, retries, plan[0]) then 1 else 0) + Failed(io, retries, plan[1..][..m]) < threshold
    {
      FailedPrefix(io, retries, plan, m);
    }
    FailedPrefix(io, retries, plan, k - 1);
  }

  lemma {:induction false} PerformsTo(cfg: Config, io: Io, e: Exec, plan: seq<Assignment>, k: nat)
    requires AllPlaced(plan, |e.disk|) && StopsAt(io, cfg.retries, plan, e.errors, cfg.errorThreshold, k)
    ensures AllPlaced(plan[..k], |e.disk|)
    ensures Execute(cfg, io, e, plan) == Perform(io, cfg.retries, e, plan[..k])
    decreases |plan|
  {
    if k > 0 {
      var after := ExecOne(io, cfg.retries, e, plan[0]);
      assert e.errors + Failed(io, cfg.retries, plan[..0]) < cfg.errorThreshold;
      StopsAfterFirst(io, cfg.retries, plan, e.errors, cfg.errorThreshold, k);
      PerformsTo(cfg, io, after, plan[1..], k - 1);
      assert plan[..k][1..] == plan[1..][..k - 1];
    }
  }

  /** Main result: the loop carries out exactly the shortest prefix of the plan with
      threshold-many failed downloads, or all of it, and nothing after. */
  lemma ErrorsAreTotal(cfg: Config, io: Io, e: Exec, plan: seq<Assignment>)
    requires AllPlaced(plan, |e.disk|)
    ensures var k := StopPoint(io, cfg.retries, plan, e.errors, cfg.errorThreshold);
            AllPlaced(plan[..k], |e.disk|) && Execute(cfg, io, e, plan) == Perform(io, cfg.retries, e, plan[..k])
  {
    PerformsTo(cfg, io, e, plan, StopPoint(io, cfg.retries, plan, e.errors, cfg.errorThreshold));
  }

  // ---------- The documented rule ----------

  /** The failed downloads since the last one that succeeded. */
  function Streak(io: Io, retries: nat, plan: seq<Assignment>): nat {
    if plan == [] then 0
    else
      var last, before := plan[|plan| - 1], plan[..|plan| - 1];
      if Fails(io, retries, last) then Streak(io, retries, before) + 1
      else if Downloads(last) then 0
      else Streak(io, retries, before)
  }

  /** Where a loop that counts consecutive failures stops. */
  ghost predicate StreakStopsAt(io: Io, retries: nat, plan: seq<Assignment>, threshold: int, k: nat) {
    && k <= |plan|
    && (forall m :: 0 <= m < k ==> Streak(io, retries, plan[..m]) < threshold)
    && (k < |plan| ==> Streak(io, retries, plan[..k]) >= threshold)
  }

  function StreakFrom(io: Io, retries: nat, plan: seq<Assignment>, threshold: int, from: nat): (l: nat)
    requires from <= |plan| && forall m :: 0 <= m < from ==> Streak(io, retries, plan[..m]) < threshold
    ensures StreakStopsAt(io, retries, plan, threshold, l)
    decreases |plan| - from
  {
    if from == |plan| || Streak(io, retries, plan[..from]) >= threshold then from
    else StreakFrom(io, retries, plan, threshold, from + 1)
  }

  /** The one place where it stops. */
  function StreakPoint(io: Io, retries: nat, plan: seq<Assignment>, threshold: int): (l: nat)
    ensures StreakStopsAt(io, retries, plan, threshold, l)
    ensures forall m: nat :: StreakStopsAt(io, retries, plan, threshold, m) ==> m == l
  {
    StreakFrom(io, retries, plan, threshold, 0)
  }

  /** No download succeeds after one that failed. */
  ghost predicate Unbroken(io: Io, retries: nat, plan: seq<Assignment>) {
    forall i, j :: 0 <= i < j < |plan| && Fails(io, retries, plan[i]) && Downloads(plan[j]) ==>
      Fails(io, retries, plan[j])
  }

  lemma {:induction false} FailedSnoc(io: Io, retries: nat, plan: seq<Assignment>)
    requires plan != []
    ensures Failed(io, retries, plan) ==
            Failed(io, retries, plan[..|plan| - 1]) + (if Fails(io, retries, plan[|plan| - 1]) then 1 else 0)
  {
    if |plan| == 1 {
      assert plan[1..] == [] && plan[..0] == [];
    } else {
      FailedSnoc(io, retries, plan[1..]);
      assert plan[1..][..|plan| - 2] == plan[..|plan| - 1][1..];
    }
  }

  lemma {:induction false} NoneFailed(io: Io, retries: nat, plan: seq<Assignment>)
    ensures Failed(io, retries, plan) == 0 <==> forall i :: 0 <= i < |plan| ==> !Fails(io, retries, plan[i])
  {
    if plan != [] {
      NoneFailed(io, retries, plan[1..]);
      assert forall i :: 1 <= i < |plan| ==> plan[i] == plan[1..][i - 1];
    }
  }

  lemma UnbrokenSnoc(io: Io, retries: nat, plan: seq<Assignment>)
    requires plan != []
    ensures var last, before := plan[|plan| - 1], plan[..|plan| - 1];
            Unbroken(io, retries, plan) <==>
            Unbroken(io, retries, before)
            && (Downloads(last) && !Fails(io, retries, last) ==> Failed(io, retries, before) == 0)
  {
    var last, before := plan[|plan| - 1], plan[..|plan| - 1];
    NoneFailed(io, retries, before);
    if Unbroken(io, retries, plan) && Downloads(last) && !Fails(io, retries, last) {
      forall i | 0 <= i < |before| ensures !Fails(io, retries, before[i]) {
        assert before[i] == plan[i];
      }
    }
    if Unbroken(io, retries, before)
       && (Downloads(last) && !Fails(io, retries, last) ==> Failed(io, retries, before) == 0) {
      forall i, j | 0 <= i < j < |plan| && Fails(io, retries, plan[i]) && Downloads(plan[j])
        ensures Fails(io, retries, plan[j])
      {
        assert plan[i] == before[i];
        assert j < |plan| - 1 ==> plan[j] == before[j];
      }
    }
  }

  lemma {:induction false} StreakIsFewer(io: Io, retries: nat, plan: seq<Assignment>)
    ensures Streak(io, retries, plan) <= Failed(io, retries, plan)
    ensures Streak(io, retries, plan) == Failed(io, retries, plan) <==> Unbroken(io, retries, plan)
    decreases |plan|
  {
    if plan != [] {
      FailedSnoc(io, retries, plan);
      UnbrokenSnoc(io, retries, plan);
      StreakIsFewer(io, retries, plan[..|plan| - 1]);
    }
  }

  lemma ReachedExactly(io: Io, retries: nat, plan: seq<Assignment>, threshold: int, k: nat)
    requires StopsAt(io, retries, plan, 0, threshold, k) && 0 < k < |plan|
    ensures Failed(io, retries, plan[..k]) == threshold
  {
    FailedSnoc(io, retries, plan[..k]);
    assert plan[..k][..k - 1] == plan[..k - 1];
  }

  /** Main result: the code's rule stops no later than the documented one, and they stop at
      the same place exactly when the plan runs to its end or no download before the code's
      stop succeeds after one that failed. */
  lemma RulesAgreeIff(io: Io, retries: nat, plan: seq<Assignment>, threshold: int)
    ensures var k, l := StopPoint(io, retries, plan, 0, threshold), StreakPoint(io, retries, plan, threshold);
            && k <= l
            && (k == l <==> k == |plan| || Unbroken(io, retries, plan[..k]))
  {
    var k := StopPoint(io, retries, plan, 0, threshold);
    forall m | 0 <= m < k ensures Streak(io, retries, plan[..m]) < threshold {
      StreakIsFewer(io, retries, plan[..m]);
    }
    StreakIsFewer(io, retries, plan[..k]);
    if 0 < k < |plan| {
      ReachedExactly(io, retries, plan, threshold, k);
    }
  }

  /** Every plan in which a download succeeds between two that fail has a threshold at which
      the rules part, unless the second failure ends the plan. */
  lemma RulesPart(io: Io, retries: nat, plan: seq<Assignment>, i: nat, j: nat, k: nat)
    requires i < j < k < |plan| - 1
    requires Fails(io, retries, plan[i]) && Fails(io, retries, plan[k])
    requires Downloads(plan[j]) && !Fails(io, retries, plan[j])
    ensures var threshold := Failed(io, retries, plan[..k + 1]);
            StopPoint(io, retries, plan, 0, threshold) == k + 1 < StreakPoint(io, retries, plan, threshold)
  {
    var threshold := Failed(io, retries, plan[..k + 1]);
    forall m | 0 <= m < k + 1 ensures Failed(io, retries, plan[..m]) < threshold {
      FailedGrows(io, retries, plan, m, k);
    }
    assert StopsAt(io, retries, plan, 0, threshold, k + 1);
    RulesAgreeIff(io, retries, plan, threshold);
    var done := plan[..k + 1];
    assert done[i] == plan[i] && done[j] == plan[j];
  }

  lemma {:induction false} FailedGrows(io: Io, retries: nat, plan: seq<Assignment>, m: nat, k: nat)
    requires m <= k < |plan| && Fails(io, retries, plan[k])
    ensures Failed(io, retries, plan[..m]) < Failed(io, retries, plan[..k + 1])
  {
    FailedSnoc(io, retries, plan[..k + 1]);
    assert plan[..k + 1][..k] == plan[..k];
    FailedIsMonotone(io, retries, plan, m, k);
  }

  lemma {:induction false} FailedIsMonotone(io: Io, retries: nat, plan: seq<Assignment>, m: nat, k: nat)
    requires m <= k <= |plan|
    ensures Failed(io, retries, plan[..m]) <= Failed(io, retries, plan[..k])
    decreases k
  {
    if m < k {
      FailedIsMonotone(io, retries, plan, m, k - 1);
      FailedSnoc(io, retries, plan[..k]);
      assert plan[..k][..k - 1] == plan[..k - 1];
    }
  }
}

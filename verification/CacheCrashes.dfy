/** Histories of cache runs, some of them killed: what a kill can break, and how long it
    stays broken (syncer/cache.go:54-289). */
module CacheCrashes {
  import opened TierAssignment
  import opened CacheModel
  import opened CacheConsistency
  import opened DownloadErrors

  /** Where a run is killed. seen: the files phase A has got to. n: the iterations that are
      over; betweenActions: the next one has changed the disk but not yet the table. left: the
      unknown rows that phase E has yet to delete. A kill between the system calls of a move
      is one between the actions of an iteration whose move fails at the next call. */
  datatype Kill =
    | InInventory(seen: set<Path>)
    | InExecution(n: nat, betweenActions: bool)
    | InCleanup(left: set<Path>)

  ghost predicate ValidKill(cfg: Config, w: World, inp: RunInput, order: seq<Candidate>, kill: Kill) {
    && ValidInput(cfg, w, inp)
    && (!kill.InInventory? ==> inp.popular.Some? && IsRanking(order, CandidatesAt(cfg, w, inp)))
    && (kill.InExecution? ==> kill.n <= |order| && (kill.betweenActions ==> kill.n < |order|))
  }

  /** w' is what the killed run leaves; the remote_sizes table does not matter here. */
  ghost predicate Killed(cfg: Config, w: World, inp: RunInput, order: seq<Candidate>, kill: Kill, w': World)
    requires ValidKill(cfg, w, inp, order, kill)
  {
    match kill
    case InInventory(seen) =>
      w'.disk == w.disk && w'.rows == w.rows + Restrict(InventoryOf(w.disk, w.rows, inp.walk), seen)
    case InExecution(n, betweenActions) =>
      var e := ExecutedTo(cfg, w, inp, order, n);
      if betweenActions then
        && e.errors < cfg.errorThreshold && w'.rows == e.rows
        && w'.disk == Next(cfg, inp, e, w, order, n).disk
      else w'.disk == e.disk && w'.rows == e.rows
    case InCleanup(left) =>
      var e := Executed(cfg, w, inp, order);
      w'.disk == e.disk && w'.rows == Restrict(e.rows, e.inventory.Keys + left)
  }

  function Next(cfg: Config, inp: RunInput, e: Exec, w: World, order: seq<Candidate>, n: nat): Exec
    requires Ranks(cfg, w, inp, order)
    requires n < |order| && |e.disk| == |w.disk|
  {
    PlanIsPlaced(cfg, w, inp, order);
    ExecOne(inp.io, cfg.retries, e, Assign(order, cfg.limits)[n])
  }

  /** A kill between a's two actions leaves a row that points away from its file: after a move,
      after the eviction of one of several copies, and after a download over a row whose file
      had gone. */
  ghost predicate Harms(io: Io, retries: nat, e: Exec, a: Assignment)
    requires WellPlaced(a, |e.disk|) && (a.file.path in e.rows ==> e.rows[a.file.path].tier < |e.disk|)
  {
    var p := a.file.path;
    if a.target == NONE then
      a.file.local && io.remove(p) && exists u :: 0 <= u < |e.disk| && u != a.file.tier && p in e.disk[u]
    else if !a.file.local then
      && Fetched(io, p, 0, retries).Some?
      && p in e.rows && e.rows[p].tier != a.target && p !in e.disk[e.rows[p].tier]
    else a.file.tier != a.target && MoveOk(e.disk, p, a.file.tier, io.move(p))
  }

  lemma BreaksIffHarms(io: Io, retries: nat, e: Exec, plan: seq<Assignment>, p: Path)
    requires plan != [] && PlanFits(e, plan) && PathAgrees(e, p)
    ensures BackedAt(ExecOne(io, retries, e, plan[0]).disk, e.rows, p)
            <==> !(plan[0].file.path == p && Harms(io, retries, e, plan[0]))
  {
    var a, disk := plan[0], ExecOne(io, retries, e, plan[0]).disk;
    if p != a.file.path {
      IterationFrame(io, retries, e, a, p);
    } else if a.target == NONE && a.file.local && io.remove(p) {
      assert forall u :: 0 <= u < |e.disk| && u != a.file.tier ==> disk[u] == e.disk[u];
      assert p !in disk[a.file.tier];
    } else if a.target != NONE && !a.file.local && Fetched(io, p, 0, retries).Some? {
      assert p in disk[a.target];
    } else if a.target != NONE && a.file.local && a.file.tier != a.target
              && MoveOk(e.disk, p, a.file.tier, io.move(p)) {
      assert p in disk[a.target] && p !in disk[a.file.tier];
    }
  }

  /** The kill falls between the actions of the iteration that handles p, and harms it. */
  ghost predicate Harmed(cfg: Config, w: World, inp: RunInput, order: seq<Candidate>, kill: Kill, p: Path)
    requires ValidKill(cfg, w, inp, order, kill)
  {
    kill.InExecution? && kill.betweenActions &&
    var e, a := ExecutedTo(cfg, w, inp, order, kill.n), Assign(order, cfg.limits)[kill.n];
    && a.file.path == p
    && WellPlaced(a, |e.disk|) && (a.file.path in e.rows ==> e.rows[a.file.path].tier < |e.disk|)
    && Harms(inp.io, cfg.retries, e, a)
  }

  /** Main result: killing a run at any point makes p's row point away from its file exactly if
      it falls between the disk action and the statement of the iteration that handles p, and
      that iteration is harmful. */
  lemma KillBreaksIff(cfg: Config, w: World, inp: RunInput, order: seq<Candidate>, kill: Kill, w': World, p: Path)
    requires ValidKill(cfg, w, inp, order, kill) && Killed(cfg, w, inp, order, kill, w')
    requires BackedAt(w.disk, w.rows, p)
    ensures BackedAt(w'.disk, w'.rows, p) <==> !Harmed(cfg, w, inp, order, kill, p)
  {
    match kill
    case InInventory(seen) =>
      InventoryEstablishesAt(cfg, w, inp, p);
    case InExecution(n, betweenActions) =>
      var e, rest := ExecutedTo(cfg, w, inp, order, n), Assign(order, cfg.limits)[n..];
      LoopReachesAt(cfg, w, inp, order, n, p);
      if betweenActions {
        assert rest[0] == Assign(order, cfg.limits)[n];
        BreaksIffHarms(inp.io, cfg.retries, e, rest, p);
      }
    case InCleanup(left) =>
      ExecutionKeepsAt(cfg, w, inp, order, p);
  }

  // ---------- Histories ----------

  /** How a run ends. */
  datatype Ending = Returned | KilledIn(order: seq<Candidate>, kill: Kill)

  ghost predicate Step(cfg: Config, w: World, inp: RunInput, w': World, ending: Ending) {
    match ending
    case Returned => RunStep(cfg, w, inp, w')
    case KilledIn(order, kill) => ValidKill(cfg, w, inp, order, kill) && Killed(cfg, w, inp, order, kill, w')
  }

  ghost predicate HarmedIn(cfg: Config, w: World, inp: RunInput, ending: Ending, p: Path) {
    && ending.KilledIn? && ValidKill(cfg, w, inp, ending.order, ending.kill)
    && Harmed(cfg, w, inp, ending.order, ending.kill, p)
  }

  ghost predicate History(cfg: Config, ws: seq<World>, inps: seq<RunInput>, endings: seq<Ending>) {
    && |ws| == |inps| + 1 == |endings| + 1
    && forall i :: 0 <= i < |inps| ==> Step(cfg, ws[i], inps[i], ws[i + 1], endings[i])
  }

  /** Main result: over any sequence of runs, failed or killed anywhere or neither, only a file
      on which a harmful kill fell can have a row that points away from it. After a run that
      returns nil the row of any other file says where the file is. */
  lemma {:induction false} HistoryKeeps(cfg: Config, ws: seq<World>, inps: seq<RunInput>, endings: seq<Ending>,
                                        i: nat, p: Path)
    requires History(cfg, ws, inps, endings) && i < |ws| && BackedAt(ws[0].disk, ws[0].rows, p)
    requires forall j :: 0 <= j < i ==> !HarmedIn(cfg, ws[j], inps[j], endings[j], p)
    ensures BackedAt(ws[i].disk, ws[i].rows, p)
    ensures i > 0 && endings[i - 1].Returned? && RunOk(inps[i - 1]) && p in ws[i].rows ==>
              p in ws[i].disk[ws[i].rows[p].tier]
  {
    if i > 0 {
      var w, inp, ending := ws[i - 1], inps[i - 1], endings[i - 1];
      HistoryKeeps(cfg, ws, inps, endings, i - 1, p);
      assert Step(cfg, w, inp, ws[i - 1 + 1], ending);
      if ending.Returned? {
        RunKeepsAt(cfg, w, inp, ws[i], p);
      } else {
        assert !HarmedIn(cfg, w, inp, ending, p);
        KillBreaksIff(cfg, w, inp, ending.order, ending.kill, ws[i], p);
      }
    }
  }

  // ---------- How long a wrong row lives ----------

  /** p's row points to a tier without the file while another tier has it. */
  ghost predicate Misplaced(disk: Disk, rows: map<Path, LocalFile>, p: Path) {
    && p in rows && rows[p].tier < |disk| && p !in disk[rows[p].tier]
    && exists t :: 0 <= t < |disk| && p in disk[t]
  }

  /** p's entries and copies are the same in both states. */
  ghost predicate SameAt(e: Exec, e': Exec, p: Path) {
    && |e.disk| == |e'.disk| && (forall t :: 0 <= t < |e.disk| ==> (p in e.disk[t] <==> p in e'.disk[t]))
    && (p in e.rows <==> p in e'.rows) && (p in e.rows ==> e.rows[p] == e'.rows[p])
    && (p in e.inventory <==> p in e'.inventory)
  }

  lemma {:induction false} PerformFrame(io: Io, retries: nat, e: Exec, plan: seq<Assignment>, p: Path)
    requires AllPlaced(plan, |e.disk|) && forall i :: 0 <= i < |plan| ==> plan[i].file.path != p
    ensures SameAt(e, Perform(io, retries, e, plan), p)
    decreases |plan|
  {
    if plan != [] {
      IterationFrame(io, retries, e, plan[0], p);
      PerformFrame(io, retries, ExecOne(io, retries, e, plan[0]), plan[1..], p);
    }
  }

  ghost predicate Evicts(plan: seq<Assignment>, p: Path) {
    exists i :: 0 <= i < |plan| && plan[i].file.path == p && plan[i].target == NONE
  }

  ghost predicate DistinctFiles(plan: seq<Assignment>) {
    forall i, j :: 0 <= i < j < |plan| ==> plan[i].file.path != plan[j].file.path
  }

  /** p's assignment takes the file to be where its row says. */
  ghost predicate Trusts(plan: seq<Assignment>, p: Path, tier: int) {
    forall i :: 0 <= i < |plan| && plan[i].file.path == p ==> plan[i].file.local && plan[i].file.tier == tier
  }

  lemma {:induction false} PerformKeepsMisplaced(io: Io, retries: nat, e: Exec, plan: seq<Assignment>, p: Path)
    requires AllPlaced(plan, |e.disk|) && DistinctFiles(plan) && Misplaced(e.disk, e.rows, p)
    requires Trusts(plan, p, e.rows[p].tier) && p in e.inventory
    ensures var after := Perform(io, retries, e, plan);
            && (forall t :: 0 <= t < |e.disk| ==> (p in after.disk[t] <==> p in e.disk[t]))
            && if Evicts(plan, p) then p !in after.rows && p !in after.inventory else SameAt(e, after, p)
    decreases |plan|
  {
    if plan != [] {
      var next, rest := ExecOne(io, retries, e, plan[0]), plan[1..];
      assert forall i :: 0 <= i < |rest| ==> rest[i] == plan[i + 1];
      if plan[0].file.path == p {
        PerformFrame(io, retries, next, rest, p);
        assert Evicts(plan, p) <==> plan[0].target == NONE;
      } else {
        IterationFrame(io, retries, e, plan[0], p);
        PerformKeepsMisplaced(io, retries, next, rest, p);
        if Evicts(plan, p) {
          var i :| 0 <= i < |plan| && plan[i].file.path == p && plan[i].target == NONE;
          assert rest[i - 1] == plan[i];
        }
      }
    }
  }

  /** The part of the plan that the loop gets to. */
  ghost function CarriedOut(cfg: Config, inp: RunInput, order: seq<Candidate>): seq<Assignment> {
    Assign(order, cfg.limits)[..StopPoint(inp.io, cfg.retries, Assign(order, cfg.limits), 0, cfg.errorThreshold)]
  }

  lemma PlanTrustsRow(cfg: Config, w: World, inp: RunInput, order: seq<Candidate>, p: Path, k: nat)
    requires Ranks(cfg, w, inp, order) && k <= |order|
    requires p in w.rows && p in Visited(inp.walk)
    ensures var s, done := Started(w, inp), Assign(order, cfg.limits)[..k];
            && DistinctFiles(done) && Trusts(done, p, w.rows[p].tier)
            && p in s.inventory && p in s.rows && s.rows[p] == w.rows[p]
  {
  }

  lemma MisplacedSurvivesLoop(cfg: Config, w: World, inp: RunInput, order: seq<Candidate>, p: Path)
    requires Ranks(cfg, w, inp, order)
    requires Misplaced(w.disk, w.rows, p) && p in Visited(inp.walk)
    ensures var s, e := Started(w, inp), Executed(cfg, w, inp, order);
            && (forall t :: 0 <= t < |w.disk| ==> (p in e.disk[t] <==> p in w.disk[t]))
            && if Evicts(CarriedOut(cfg, inp, order), p) then p !in e.rows && p !in e.inventory
               else p in e.inventory && p in e.rows && e.rows[p] == w.rows[p]
  {
    var plan := Assign(order, cfg.limits);
    PlanIsPlaced(cfg, w, inp, order);
    ErrorsAreTotal(cfg, inp.io, Started(w, inp), plan);
    PlanTrustsRow(cfg, w, inp, order, p, |CarriedOut(cfg, inp, order)|);
    PerformKeepsMisplaced(inp.io, cfg.retries, Started(w, inp), CarriedOut(cfg, inp, order), p);
  }

  /** Main result: phase A believes a wrong row, so it outlives every run that sees the file,
      until an iteration evicts the file the row names; no run repairs the row or moves the file. */
  lemma MisplacedStays(cfg: Config, w: World, inp: RunInput, order: seq<Candidate>, p: Path)
    requires ValidInput(cfg, w, inp) && (inp.popular.Some? ==> IsRanking(order, CandidatesAt(cfg, w, inp)))
    requires Misplaced(w.disk, w.rows, p) && p in Visited(inp.walk)
    ensures var w' := RunEffect(cfg, w, inp, order);
            && (p in w'.rows <==> inp.popular.None? || !Evicts(CarriedOut(cfg, inp, order), p))
            && (p in w'.rows ==> w'.rows[p] == w.rows[p] && Misplaced(w'.disk, w'.rows, p))
  {
    if inp.popular.Some? {
      MisplacedSurvivesLoop(cfg, w, inp, order, p);
      var e := Executed(cfg, w, inp, order);
      StillMisplaced(w.disk, w.rows, e.disk, RunEffect(cfg, w, inp, order).rows, p);
    } else {
      StillMisplaced(w.disk, w.rows, w.disk, Started(w, inp).rows, p);
    }
  }

  lemma StillMisplaced(disk: Disk, rows: map<Path, LocalFile>, disk': Disk, rows': map<Path, LocalFile>, p: Path)
    requires Misplaced(disk, rows, p) && |disk| == |disk'|
    requires forall t :: 0 <= t < |disk| ==> (p in disk'[t] <==> p in disk[t])
    ensures p in rows' && rows'[p] == rows[p] ==> Misplaced(disk', rows', p)
  {
    var t :| 0 <= t < |disk| && p in disk[t];
    assert p in disk'[t];
  }
}

/** The database, the inventory and the disk agree, over all runs and all failures. */
module CacheConsistency {
  import opened Wrappers
  import opened CacheModel

  /** A row's tier holds the file if the file is on disk anywhere. */
  ghost predicate RowsBacked(disk: Disk, rows: map<Path, LocalFile>) {
    && (forall p :: p in rows ==> rows[p].tier < |disk|)
    && (forall p, t :: p in rows && 0 <= t < |disk| && p in disk[t] ==> p in disk[rows[p].tier])
  }

  /** p's row, if it has one, is backed. */
  ghost predicate BackedAt(disk: Disk, rows: map<Path, LocalFile>, p: Path) {
    p in rows ==>
      rows[p].tier < |disk| && forall t :: 0 <= t < |disk| && p in disk[t] ==> p in disk[rows[p].tier]
  }

  lemma BackedAtEach(disk: Disk, rows: map<Path, LocalFile>)
    ensures RowsBacked(disk, rows) <==> forall p :: BackedAt(disk, rows, p)
  {
    if forall p :: BackedAt(disk, rows, p) {
      assert forall p :: p in rows ==> BackedAt(disk, rows, p);
    }
  }

  /** Every row's file is where the row says. */
  ghost predicate RowsOnDisk(disk: Disk, rows: map<Path, LocalFile>) {
    forall p :: p in rows ==> rows[p].tier < |disk| && p in disk[rows[p].tier]
  }

  /** The plan still to be executed, as it stands to the inventory. */
  ghost predicate PlanFits(e: Exec, plan: seq<Assignment>) {
    && AllPlaced(plan, |e.disk|)
    && (forall i, j :: 0 <= i < j < |plan| ==> plan[i].file.path != plan[j].file.path)
    && (forall i :: 0 <= i < |plan| ==>
          var c := plan[i].file;
          && (c.local <==> c.path in e.inventory)
          && (c.local ==> e.inventory[c.path] == LocalFile(c.size, c.tier)))
  }

  /** p's inventory entry, if it has one, is its row. */
  ghost predicate EntryIsRow(e: Exec, p: Path) {
    p in e.inventory ==> p in e.rows && e.rows[p] == e.inventory[p]
  }

  /** p's row, inventory entry and copies on disk agree. */
  ghost predicate PathAgrees(e: Exec, p: Path) {
    && BackedAt(e.disk, e.rows, p) && EntryIsRow(e, p)
    && (p in e.inventory ==> p in e.disk[e.rows[p].tier])
  }

  /** What holds before every iteration of the execution loop. */
  ghost predicate LoopInv(e: Exec, plan: seq<Assignment>) {
    (forall p :: PathAgrees(e, p)) && PlanFits(e, plan)
  }

  /** An iteration touches no path but its own. */
  lemma IterationFrame(io: Io, retries: nat, e: Exec, a: Assignment, q: Path)
    requires WellPlaced(a, |e.disk|) && q != a.file.path
    ensures var after := ExecOne(io, retries, e, a);
            && (forall t :: 0 <= t < |e.disk| ==> (q in after.disk[t] <==> q in e.disk[t]))
            && (q in after.rows <==> q in e.rows) && (q in e.rows ==> after.rows[q] == e.rows[q])
            && (q in after.inventory <==> q in e.inventory)
            && (q in e.inventory ==> after.inventory[q] == e.inventory[q])
  {
  }

  /** Every iteration keeps a path's agreement, whichever of its actions fail. */
  lemma IterationKeepsAt(io: Io, retries: nat, e: Exec, plan: seq<Assignment>, p: Path)
    requires plan != [] && PlanFits(e, plan) && PathAgrees(e, p)
    ensures PathAgrees(ExecOne(io, retries, e, plan[0]), p)
  {
    if p != plan[0].file.path {
      IterationFrame(io, retries, e, plan[0], p);
    }
  }

  lemma IterationKeeps(io: Io, retries: nat, e: Exec, plan: seq<Assignment>)
    requires plan != [] && LoopInv(e, plan)
    ensures LoopInv(ExecOne(io, retries, e, plan[0]), plan[1..])
  {
    forall p ensures PathAgrees(ExecOne(io, retries, e, plan[0]), p) {
      IterationKeepsAt(io, retries, e, plan, p);
    }
  }

  /** After n iterations, or fewer if the loop has stopped, p still agrees and the rest of the
      plan still fits. */
  lemma {:induction false} ExecuteKeepsAt(cfg: Config, io: Io, e: Exec, plan: seq<Assignment>, n: nat, p: Path)
    requires PlanFits(e, plan) && PathAgrees(e, p) && n <= |plan|
    ensures AllPlaced(plan[..n], |e.disk|)
    ensures PathAgrees(Execute(cfg, io, e, plan[..n]), p) && PlanFits(Execute(cfg, io, e, plan[..n]), plan[n..])
    decreases n
  {
    if n > 0 && e.errors < cfg.errorThreshold {
      IterationKeepsAt(io, cfg.retries, e, plan, p);
      ExecuteKeepsAt(cfg, io, ExecOne(io, cfg.retries, e, plan[0]), plan[1..], n - 1, p);
      assert plan[..n][1..] == plan[1..][..n - 1] && plan[1..][n - 1..] == plan[n..];
    } else {
      assert forall i :: 0 <= i < |plan[n..]| ==> plan[n..][i] == plan[n + i];
    }
  }

  lemma {:induction false} ExecuteKeepsEntry(cfg: Config, io: Io, e: Exec, plan: seq<Assignment>, p: Path)
    requires PlanFits(e, plan) && EntryIsRow(e, p)
    ensures EntryIsRow(Execute(cfg, io, e, plan), p)
    decreases |plan|
  {
    if plan != [] && e.errors < cfg.errorThreshold {
      ExecuteKeepsEntry(cfg, io, ExecOne(io, cfg.retries, e, plan[0]), plan[1..], p);
    }
  }

  /** Phase A establishes it. */
  lemma InventoryEstablishesAt(cfg: Config, w: World, inp: RunInput, p: Path)
    requires ValidInput(cfg, w, inp) && BackedAt(w.disk, w.rows, p)
    ensures PathAgrees(Started(w, inp), p)
  {
    if p in Started(w, inp).inventory {
      assert p in w.disk[Hottest(inp.walk, p)];
    }
  }

  lemma RankingFits(cfg: Config, w: World, inp: RunInput, order: seq<Candidate>)
    requires Ranks(cfg, w, inp, order)
    ensures PlanFits(Started(w, inp), Assign(order, cfg.limits))
  {
    PlanIsPlaced(cfg, w, inp, order);
  }

  lemma LoopStarts(cfg: Config, w: World, inp: RunInput, order: seq<Candidate>)
    requires Ranks(cfg, w, inp, order)
    requires RowsBacked(w.disk, w.rows)
    ensures LoopInv(Started(w, inp), Assign(order, cfg.limits))
  {
    RankingFits(cfg, w, inp, order);
  }

  /** The loop after n iterations, for one path. */
  lemma LoopReachesAt(cfg: Config, w: World, inp: RunInput, order: seq<Candidate>, n: nat, p: Path)
    requires Ranks(cfg, w, inp, order)
    requires n <= |order| && BackedAt(w.disk, w.rows, p)
    ensures PathAgrees(ExecutedTo(cfg, w, inp, order, n), p)
    ensures PlanFits(ExecutedTo(cfg, w, inp, order, n), Assign(order, cfg.limits)[n..])
  {
    InventoryEstablishesAt(cfg, w, inp, p);
    RankingFits(cfg, w, inp, order);
    ExecuteKeepsAt(cfg, inp.io, Started(w, inp), Assign(order, cfg.limits), n, p);
  }

  lemma ExecutionKeepsAt(cfg: Config, w: World, inp: RunInput, order: seq<Candidate>, p: Path)
    requires Ranks(cfg, w, inp, order)
    requires BackedAt(w.disk, w.rows, p)
    ensures PathAgrees(Executed(cfg, w, inp, order), p)
  {
    LoopReachesAt(cfg, w, inp, order, |order|, p);
    assert Assign(order, cfg.limits)[..|order|] == Assign(order, cfg.limits);
  }

  /** A run that returns nil leaves local_sizes equal to the inventory, from any table. */
  lemma RowsEqualInventory(cfg: Config, w: World, inp: RunInput, order: seq<Candidate>)
    requires Ranks(cfg, w, inp, order) && RunOk(inp)
    ensures RunEffect(cfg, w, inp, order).rows == Executed(cfg, w, inp, order).inventory
  {
    RankingFits(cfg, w, inp, order);
    var e := Executed(cfg, w, inp, order);
    forall p ensures EntryIsRow(e, p) {
      ExecuteKeepsEntry(cfg, inp.io, Started(w, inp), Assign(order, cfg.limits), p);
    }
    MirroredRows(e);
  }

  lemma MirroredRows(e: Exec)
    requires forall p :: EntryIsRow(e, p)
    ensures Restrict(e.rows, e.inventory.Keys) == e.inventory
  {
    assert forall p :: p in e.inventory ==> EntryIsRow(e, p);
  }

  /** A run keeps a path's row backed, whatever the other rows say, and one that returns nil
      leaves the file where its row says. */
  lemma RunKeepsAt(cfg: Config, w: World, inp: RunInput, w': World, p: Path)
    requires RunStep(cfg, w, inp, w') && BackedAt(w.disk, w.rows, p)
    ensures BackedAt(w'.disk, w'.rows, p)
    ensures RunOk(inp) && p in w'.rows ==> p in w'.disk[w'.rows[p].tier]
  {
    if inp.popular.None? {
      InventoryEstablishesAt(cfg, w, inp, p);
    } else {
      var order :| IsRanking(order, CandidatesAt(cfg, w, inp)) && w' == RunEffect(cfg, w, inp, order);
      ExecutionKeepsAt(cfg, w, inp, order, p);
    }
  }

  lemma RunKeeps(cfg: Config, w: World, inp: RunInput, w': World)
    requires RunStep(cfg, w, inp, w') && RowsBacked(w.disk, w.rows)
    ensures InRange(cfg, w') && RowsBacked(w'.disk, w'.rows)
    ensures RunOk(inp) ==> RowsOnDisk(w'.disk, w'.rows)
  {
    BackedAtEach(w.disk, w.rows);
    BackedAtEach(w'.disk, w'.rows);
    forall p
      ensures BackedAt(w'.disk, w'.rows, p)
      ensures RunOk(inp) && p in w'.rows ==> p in w'.disk[w'.rows[p].tier]
    {
      RunKeepsAt(cfg, w, inp, w', p);
    }
  }

  // ---------- Recorded sizes ----------

  /** A recorded size survives the run; a recorded 404 goes exactly if the run gets to clean the
      table and finds it older than its lifetime. */
  lemma RemoteRowAfterRun(cfg: Config, w: World, inp: RunInput, w': World, p: Path)
    requires RunStep(cfg, w, inp, w') && p in w.remote
    ensures w.remote[p].size.Some? ==> p in w'.remote
    ensures w.remote[p].size.None? ==>
              (p !in w'.remote <==> RunOk(inp) && w.remote[p].recordedAt < inp.end - inp.ttl.value)
    ensures p in w'.remote ==> w'.remote[p] == w.remote[p]
  {
  }

  ghost predicate Runs(cfg: Config, ws: seq<World>, inps: seq<RunInput>) {
    |ws| == |inps| + 1 && forall i :: 0 <= i < |inps| ==> RunStep(cfg, ws[i], inps[i], ws[i + 1])
  }

  /** Over any runs a recorded size is never asked for again, although the documentation gives
      it a lifetime. */
  lemma {:induction false} SizesNeverExpire(cfg: Config, ws: seq<World>, inps: seq<RunInput>, i: nat, p: Path, n: nat)
    requires Runs(cfg, ws, inps) && i < |ws|
    requires p in ws[0].remote && ws[0].remote[p].size == Some(n)
    ensures p in ws[i].remote && ws[i].remote[p] == ws[0].remote[p]
    ensures forall head :: Resolve(ws[i].remote, head, p) == Found(n)
  {
    if i > 0 {
      SizesNeverExpire(cfg, ws, inps, i - 1, p, n);
      assert RunStep(cfg, ws[i - 1], inps[i - 1], ws[i - 1 + 1]);
      RemoteRowAfterRun(cfg, ws[i - 1], inps[i - 1], ws[i], p);
    }
  }
}

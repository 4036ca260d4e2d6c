/** What a run does to each file, read off its plan and the outcomes of its actions alone
    (syncer/cache.go:162-233). */
module CacheOutcomes {
  import opened Wrappers
  import opened TierAssignment
  import opened CacheModel
  import opened CacheConsistency
  import opened CacheRanking
  import opened DownloadErrors
  import opened CacheCrashes

  function Lookup<V>(m: map<Path, V>, p: Path): Option<V> {
    if p in m then Some(m[p]) else None
  }

  // ---------- One assignment ----------

  /** Every attempt at downloading p fails. */
  ghost predicate Unavailable(io: Io, p: Path, retries: nat) {
    forall i :: 0 <= i < retries ==> io.fetch(p, i).None?
  }

  /** The first attempt that succeeds leaves n bytes. */
  ghost predicate Arrives(io: Io, p: Path, retries: nat, n: nat) {
    exists i :: 0 <= i < retries && io.fetch(p, i) == Some(n) && forall j :: 0 <= j < i ==> io.fetch(p, j).None?
  }

  /** p gets to its new tier, by a rename or a copy. */
  ghost predicate GetsThere(disk: Disk, p: Path, src: nat, io: MoveIo)
    requires src < |disk|
  {
    io.mkdirOk && p in disk[src] && (io.renameOk || io.copyOk)
  }

  /** .. and leaves the old one. */
  ghost predicate Leaves(disk: Disk, p: Path, src: nat, io: MoveIo)
    requires src < |disk|
  {
    io.mkdirOk && p in disk[src] && (io.renameOk || (io.copyOk && io.removeOk))
  }

  ghost predicate SameEntries(e: Exec, after: Exec, p: Path) {
    Lookup(after.rows, p) == Lookup(e.rows, p) && Lookup(after.inventory, p) == Lookup(e.inventory, p)
  }

  /** The row and the inventory entry of a's file in after, when a is carried out from e. An
      evicted file loses both whether or not its removal succeeds. */
  ghost predicate Books(io: Io, retries: nat, e: Exec, a: Assignment, after: Exec)
    requires WellPlaced(a, |e.disk|)
  {
    var c, p := a.file, a.file.path;
    if a.target == NONE && c.local then
      p !in after.rows && p !in after.inventory
    else if a.target != NONE && !c.local && !Unavailable(io, p, retries) then
      && Lookup(after.rows, p) == Some(LocalFile(c.size, a.target))
      && Lookup(after.inventory, p) == Some(LocalFile(c.size, a.target))
    else if a.target != NONE && c.local && c.tier != a.target && Leaves(e.disk, p, c.tier, io.move(p)) then
      && Lookup(after.rows, p) == (if p in e.rows then Some(LocalFile(e.rows[p].size, a.target)) else None)
      && Lookup(after.inventory, p) == Some(LocalFile(c.size, a.target))
    else
      SameEntries(e, after, p)
  }

  /** The copy of a's file in tier t of after. */
  ghost predicate Files(io: Io, retries: nat, e: Exec, a: Assignment, after: Exec, t: nat)
    requires WellPlaced(a, |e.disk|) && t < |e.disk| == |after.disk|
  {
    var c, p := a.file, a.file.path;
    var was, now := Lookup(e.disk[t], p), Lookup(after.disk[t], p);
    if a.target == NONE then
      now == if c.local && t == c.tier && io.remove(p) then None else was
    else if !c.local then
      if t == a.target && !Unavailable(io, p, retries) then now.Some? && Arrives(io, p, retries, now.value)
      else now == was
    else if c.tier == a.target then now == was
    else if t == a.target && GetsThere(e.disk, p, c.tier, io.move(p)) then now == Lookup(e.disk[c.tier], p)
    else now == if t == c.tier && Leaves(e.disk, p, c.tier, io.move(p)) then None else was
  }

  ghost predicate Did(io: Io, retries: nat, e: Exec, a: Assignment, after: Exec)
    requires WellPlaced(a, |e.disk|)
  {
    && |after.disk| == |e.disk| && Books(io, retries, e, a, after)
    && forall t :: 0 <= t < |e.disk| ==> Files(io, retries, e, a, after, t)
  }

  lemma {:induction false} FetchedIs(io: Io, p: Path, from: nat, retries: nat)
    requires forall j :: 0 <= j < from ==> io.fetch(p, j).None?
    ensures Fetched(io, p, from, retries).None? <==> Unavailable(io, p, retries)
    ensures Fetched(io, p, from, retries).Some? ==> Arrives(io, p, retries, Fetched(io, p, from, retries).value)
    decreases retries - from
  {
    if from < retries && io.fetch(p, from).None? {
      FetchedIs(io, p, from + 1, retries);
    }
  }

  lemma OneDoes(io: Io, retries: nat, e: Exec, a: Assignment)
    requires WellPlaced(a, |e.disk|)
    ensures Did(io, retries, e, a, ExecOne(io, retries, e, a))
  {
    FetchedIs(io, a.file.path, 0, retries);
  }

  // ---------- The whole plan ----------

  /** Nothing about p differs. */
  ghost predicate Untouched(e: Exec, after: Exec, p: Path) {
    && |after.disk| == |e.disk| && SameEntries(e, after, p)
    && forall t :: 0 <= t < |e.disk| ==> Lookup(after.disk[t], p) == Lookup(e.disk[t], p)
  }

  lemma OneFrame(io: Io, retries: nat, e: Exec, a: Assignment, p: Path)
    requires WellPlaced(a, |e.disk|) && p != a.file.path
    ensures Untouched(e, ExecOne(io, retries, e, a), p)
  {
  }

  lemma DidLater(io: Io, retries: nat, e: Exec, e': Exec, a: Assignment, after: Exec)
    requires WellPlaced(a, |e.disk|) && Untouched(e, e', a.file.path) && Did(io, retries, e', a, after)
    ensures Did(io, retries, e, a, after)
  {
    forall t | 0 <= t < |e.disk| ensures Files(io, retries, e, a, after, t) {
      assert Files(io, retries, e', a, after, t);
    }
  }

  lemma DidAndStays(io: Io, retries: nat, e: Exec, a: Assignment, after: Exec, later: Exec)
    requires WellPlaced(a, |e.disk|) && Did(io, retries, e, a, after) && Untouched(after, later, a.file.path)
    ensures Did(io, retries, e, a, later)
  {
    forall t | 0 <= t < |e.disk| ensures Files(io, retries, e, a, later, t) {
      assert Files(io, retries, e, a, after, t);
    }
  }

  lemma {:induction false} PerformLeaves(io: Io, retries: nat, e: Exec, plan: seq<Assignment>, p: Path)
    requires AllPlaced(plan, |e.disk|) && forall i :: 0 <= i < |plan| ==> plan[i].file.path != p
    ensures Untouched(e, Perform(io, retries, e, plan), p)
    decreases |plan|
  {
    if plan != [] {
      OneFrame(io, retries, e, plan[0], p);
      PerformLeaves(io, retries, ExecOne(io, retries, e, plan[0]), plan[1..], p);
    }
  }

  lemma {:induction false} PerformDoes(io: Io, retries: nat, e: Exec, plan: seq<Assignment>, i: nat)
    requires AllPlaced(plan, |e.disk|) && DistinctFiles(plan) && i < |plan|
    ensures Did(io, retries, e, plan[i], Perform(io, retries, e, plan))
    decreases |plan|
  {
    var after := ExecOne(io, retries, e, plan[0]);
    if i == 0 {
      OneDoes(io, retries, e, plan[0]);
      PerformLeaves(io, retries, after, plan[1..], plan[0].file.path);
      DidAndStays(io, retries, e, plan[0], after, Perform(io, retries, e, plan));
    } else {
      PerformDoes(io, retries, after, plan[1..], i - 1);
      OneFrame(io, retries, e, plan[0], plan[i].file.path);
      DidLater(io, retries, e, after, plan[i], Perform(io, retries, e, plan));
    }
  }

  lemma {:induction false} PerformCounts(io: Io, retries: nat, e: Exec, plan: seq<Assignment>)
    requires AllPlaced(plan, |e.disk|)
    ensures Perform(io, retries, e, plan).errors == e.errors + Failed(io, retries, plan)
    decreases |plan|
  {
    if plan != [] {
      PerformCounts(io, retries, ExecOne(io, retries, e, plan[0]), plan[1..]);
    }
  }

  /** A download counts as failed if all its attempts do. */
  lemma FailsIff(io: Io, retries: nat, a: Assignment)
    ensures Fails(io, retries, a) <==> a.target != NONE && !a.file.local && Unavailable(io, a.file.path, retries)
  {
    FetchedIs(io, a.file.path, 0, retries);
  }

  /** Main result: whatever fails, every assignment the loop gets to does to its file what its
      outcomes say, and nothing else changes. */
  lemma PlanDoes(cfg: Config, io: Io, e: Exec, plan: seq<Assignment>)
    requires AllPlaced(plan, |e.disk|) && DistinctFiles(plan)
    ensures var k, after := StopPoint(io, cfg.retries, plan, e.errors, cfg.errorThreshold), Execute(cfg, io, e, plan);
            && (forall i :: 0 <= i < k ==> Did(io, cfg.retries, e, plan[i], after))
            && (forall p :: (forall i :: 0 <= i < k ==> plan[i].file.path != p) ==> Untouched(e, after, p))
            && after.errors == e.errors + Failed(io, cfg.retries, plan[..k])
  {
    var k, after := StopPoint(io, cfg.retries, plan, e.errors, cfg.errorThreshold), Execute(cfg, io, e, plan);
    ErrorsAreTotal(cfg, io, e, plan);
    forall i | 0 <= i < k ensures Did(io, cfg.retries, e, plan[i], after) {
      PerformDoes(io, cfg.retries, e, plan[..k], i);
    }
    forall p | forall i :: 0 <= i < k ==> plan[i].file.path != p ensures Untouched(e, after, p) {
      PerformLeaves(io, cfg.retries, e, plan[..k], p);
    }
    PerformCounts(io, cfg.retries, e, plan[..k]);
  }

  // ---------- The whole run ----------

  /** What a run takes its files to be, before it does anything to them. */
  lemma StartIs(w: World, inp: RunInput, p: Path)
    requires ValidWalk(inp.walk, w.disk)
    ensures var s := Started(w, inp);
            && s.disk == w.disk && s.errors == 0
            && if Walked(inp, p) then
                 && p in s.rows && p in s.inventory && s.rows[p] == s.inventory[p]
                 && IsEntry(w, inp, p, s.rows[p].size, s.rows[p].tier)
               else p !in s.inventory && Lookup(s.rows, p) == Lookup(w.rows, p)
  {
    EntryIs(w, inp, p);
  }

  /** The row of p, given as Some(row) or None, after a run that returns nil: a is the carried
      out assignment of p. */
  ghost predicate RowFollows(cfg: Config, w: World, inp: RunInput, a: Assignment, row: Option<LocalFile>)
    requires WellPlaced(a, |w.disk|)
  {
    var c, p := a.file, a.file.path;
    if a.target == NONE then row == None
    else if !c.local then
      row == if Unavailable(inp.io, p, cfg.retries) then None else Some(LocalFile(c.size, a.target))
    else
      var moves := c.tier != a.target && Leaves(w.disk, p, c.tier, inp.io.move(p));
      row == Some(LocalFile(c.size, if moves then a.target else c.tier))
  }

  lemma RunDoes(cfg: Config, w: World, inp: RunInput, order: seq<Candidate>)
    requires Ranks(cfg, w, inp, order)
    ensures AllPlaced(Assign(order, cfg.limits), |w.disk|) && |CarriedOut(cfg, inp, order)| <= |order|
    ensures forall i :: 0 <= i < |CarriedOut(cfg, inp, order)| ==>
              Did(inp.io, cfg.retries, Started(w, inp), Assign(order, cfg.limits)[i], Executed(cfg, w, inp, order))
    ensures forall p :: (forall i :: 0 <= i < |CarriedOut(cfg, inp, order)| ==> order[i].path != p) ==>
              Untouched(Started(w, inp), Executed(cfg, w, inp, order), p)
  {
    PlanIsPlaced(cfg, w, inp, order);
    PlanDoes(cfg, inp.io, Started(w, inp), Assign(order, cfg.limits));
  }

  /** Main result: the table after a run that returns nil, for a file whose assignment the run
      gets to, whatever fails. */
  lemma RowAfterRun(cfg: Config, w: World, inp: RunInput, order: seq<Candidate>, i: nat)
    requires Ranks(cfg, w, inp, order) && RunOk(inp) && i < |CarriedOut(cfg, inp, order)|
    ensures i < |order| && WellPlaced(Assign(order, cfg.limits)[i], |w.disk|)
    ensures RowFollows(cfg, w, inp, Assign(order, cfg.limits)[i],
                       Lookup(RunEffect(cfg, w, inp, order).rows, order[i].path))
  {
    RunDoes(cfg, w, inp, order);
    RowsEqualInventory(cfg, w, inp, order);
    RankingFits(cfg, w, inp, order);
    var e, a := Executed(cfg, w, inp, order), Assign(order, cfg.limits)[i];
    assert Did(inp.io, cfg.retries, Started(w, inp), a, e);
  }

  /** .. and for any other file: its row stays or is made if the walk lists it, and goes if not. */
  lemma OtherRowAfterRun(cfg: Config, w: World, inp: RunInput, order: seq<Candidate>, p: Path)
    requires Ranks(cfg, w, inp, order) && RunOk(inp)
    requires forall i :: 0 <= i < |CarriedOut(cfg, inp, order)| && i < |order| ==> order[i].path != p
    ensures var rows := RunEffect(cfg, w, inp, order).rows;
            && (p in rows <==> Walked(inp, p))
            && (p in rows ==> IsEntry(w, inp, p, rows[p].size, rows[p].tier))
  {
    RunDoes(cfg, w, inp, order);
    RowsEqualInventory(cfg, w, inp, order);
    StartIs(w, inp, p);
    assert Untouched(Started(w, inp), Executed(cfg, w, inp, order), p);
  }

  /** A run that returns an error for want of the votes has only made rows for the files it
      found; one that returns it later has done all but clean the two tables. */
  lemma RowAfterFailedRun(cfg: Config, w: World, inp: RunInput, order: seq<Candidate>, p: Path)
    requires ValidInput(cfg, w, inp) && !RunOk(inp)
    requires inp.popular.Some? ==> IsRanking(order, CandidatesAt(cfg, w, inp))
    ensures var w' := RunEffect(cfg, w, inp, order);
            if inp.popular.Some? then w'.disk == Executed(cfg, w, inp, order).disk
                                      && w'.rows == Executed(cfg, w, inp, order).rows
            else
              && w'.disk == w.disk && w'.remote == w.remote
              && if Walked(inp, p) then p in w'.rows && IsEntry(w, inp, p, w'.rows[p].size, w'.rows[p].tier)
                 else Lookup(w'.rows, p) == Lookup(w.rows, p)
  {
    StartIs(w, inp, p);
  }
}

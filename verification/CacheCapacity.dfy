/** How much the tiers hold while a run executes, and what they hold when nothing fails. */
module CacheCapacity {
  import opened TierAssignment
  import opened CacheModel
  import opened CacheConsistency

  // ---------- Sums over sets of paths ----------

  ghost function Total(s: set<Path>, size: Path -> nat): nat {
    if s == {} then 0 else var p :| p in s; size(p) + Total(s - {p}, size)
  }

  lemma {:induction false} TotalSplit(s: set<Path>, p: Path, size: Path -> nat)
    requires p in s
    ensures Total(s, size) == size(p) + Total(s - {p}, size)
    decreases |s|
  {
    var q :| q in s && Total(s, size) == size(q) + Total(s - {q}, size);
    if q != p {
      TotalSplit(s - {q}, p, size);
      TotalSplit(s - {p}, q, size);
      assert s - {q} - {p} == s - {p} - {q};
    }
  }

  lemma {:induction false} TotalUnion(a: set<Path>, b: set<Path>, size: Path -> nat)
    ensures Total(a, size) <= Total(a + b, size) <= Total(a, size) + Total(b, size)
    ensures a !! b ==> Total(a + b, size) == Total(a, size) + Total(b, size)
    decreases |b|
  {
    if b == {} {
      assert a + b == a;
    } else {
      var p :| p in b;
      TotalUnion(a, b - {p}, size);
      TotalSplit(b, p, size);
      if p in a {
        assert a + (b - {p}) == a + b;
      } else {
        TotalSplit(a + b, p, size);
        assert a + b - {p} == a + (b - {p});
      }
    }
  }

  lemma TotalWithin(part: set<Path>, a: set<Path>, b: set<Path>, size: Path -> nat)
    requires part <= a + b
    ensures Total(part, size) <= Total(a, size) + Total(b, size)
  {
    TotalUnion(part, a + b, size);
    assert part + (a + b) == a + b;
    TotalUnion(a, b, size);
  }

  lemma {:induction false} TotalSame(s: set<Path>, f: Path -> nat, g: Path -> nat)
    requires forall p :: p in s ==> f(p) == g(p)
    ensures Total(s, f) == Total(s, g)
    decreases |s|
  {
    if s != {} {
      var p :| p in s;
      TotalSame(s - {p}, f, g);
      TotalSplit(s, p, f);
      TotalSplit(s, p, g);
    }
  }

  /** The bytes a tier holds. */
  ghost function Bytes(files: map<Path, nat>): nat {
    Total(files.Keys, p => if p in files then files[p] else 0)
  }

  // ---------- Files have one size ----------

  /** Package files are immutable: every copy, row, HEAD answer and download agrees on the size. */
  ghost predicate TrueDisk(size: Path -> nat, disk: Disk) {
    forall t, p :: 0 <= t < |disk| && p in disk[t] ==> disk[t][p] == size(p)
  }

  ghost predicate TrueIo(size: Path -> nat, io: Io) {
    forall p, i :: io.fetch(p, i).Some? ==> io.fetch(p, i).value == size(p)
  }

  lemma TrueBytes(size: Path -> nat, disk: Disk, t: nat)
    requires t < |disk| && TrueDisk(size, disk)
    ensures Bytes(disk[t]) == Total(disk[t].Keys, size)
  {
    TotalSame(disk[t].Keys, p => if p in disk[t] then disk[t][p] else 0, size);
  }

  lemma {:induction false} FetchedIsTrue(size: Path -> nat, io: Io, p: Path, from: nat, retries: nat)
    requires TrueIo(size, io)
    ensures Fetched(io, p, from, retries).Some? ==> Fetched(io, p, from, retries).value == size(p)
    decreases retries - from
  {
    if from < retries && io.fetch(p, from).None? {
      FetchedIsTrue(size, io, p, from + 1, retries);
    }
  }

  // ---------- What the plan gives each tier ----------

  function PlacedIn(plan: seq<Assignment>, t: int): set<Path> {
    set i | 0 <= i < |plan| && plan[i].target == t :: plan[i].file.path
  }

  /** Where the candidate is. */
  function Home(c: Candidate): int {
    if c.local then c.tier else NONE
  }

  /** The bytes the plan puts in a tier are the usage of the placement. */
  lemma {:induction false} PlacedTotal(plan: seq<Assignment>, size: Path -> nat, sizes: seq<nat>, a: seq<int>, t: int)
    requires |plan| == |sizes| == |a|
    requires forall i, j :: 0 <= i < j < |plan| ==> plan[i].file.path != plan[j].file.path
    requires forall i :: 0 <= i < |plan| ==> sizes[i] == size(plan[i].file.path) && a[i] == plan[i].target
    ensures Total(PlacedIn(plan, t), size) == Usage(sizes, a, t)
  {
    if plan != [] {
      PlacedTotal(plan[1..], size, sizes[1..], a[1..], t);
      var p := plan[0].file.path;
      assert p !in PlacedIn(plan[1..], t);
      if plan[0].target == t {
        TotalSplit(PlacedIn(plan, t), p, size);
        assert PlacedIn(plan, t) - {p} == PlacedIn(plan[1..], t);
      } else {
        assert PlacedIn(plan, t) == PlacedIn(plan[1..], t);
      }
    }
  }

  lemma PlacedWithinLimit(order: seq<Candidate>, limits: seq<nat>, size: Path -> nat, t: nat)
    requires t < |limits|
    requires forall i, j :: 0 <= i < j < |order| ==> order[i].path != order[j].path
    requires forall i :: 0 <= i < |order| ==> order[i].size == size(order[i].path)
    ensures Total(PlacedIn(Assign(order, limits), t), size) <= limits[t]
  {
    PlacedTotal(Assign(order, limits), size, Sizes(order), FirstFit(Sizes(order), limits), t);
    FirstFitIsFeasible(Sizes(order), limits);
  }

  // ---------- Peak usage ----------

  lemma IterationStaysTrue(size: Path -> nat, io: Io, retries: nat, e: Exec, a: Assignment)
    requires WellPlaced(a, |e.disk|) && TrueDisk(size, e.disk) && TrueIo(size, io)
    ensures TrueDisk(size, ExecOne(io, retries, e, a).disk)
  {
    FetchedIsTrue(size, io, a.file.path, 0, retries);
  }

  lemma {:induction false} ExecuteStaysTrue(cfg: Config, io: Io, size: Path -> nat, e: Exec, plan: seq<Assignment>)
    requires AllPlaced(plan, |e.disk|) && TrueDisk(size, e.disk) && TrueIo(size, io)
    ensures TrueDisk(size, Execute(cfg, io, e, plan).disk)
    decreases |plan|
  {
    if plan != [] && e.errors < cfg.errorThreshold {
      IterationStaysTrue(size, io, cfg.retries, e, plan[0]);
      ExecuteStaysTrue(cfg, io, size, ExecOne(io, cfg.retries, e, plan[0]), plan[1..]);
    }
  }

  lemma {:induction false} ExecuteGrows(cfg: Config, io: Io, e: Exec, plan: seq<Assignment>, t: nat)
    requires AllPlaced(plan, |e.disk|) && t < |e.disk|
    ensures Execute(cfg, io, e, plan).disk[t].Keys <= e.disk[t].Keys + PlacedIn(plan, t)
    decreases |plan|
  {
    if plan != [] && e.errors < cfg.errorThreshold {
      ExecuteGrows(cfg, io, ExecOne(io, cfg.retries, e, plan[0]), plan[1..], t);
    }
  }

  /** A file that appears on disk was popular, is within the file size limit, and is in
      the tier the plan gave it. */
  lemma NewFilesWereWanted(cfg: Config, w: World, inp: RunInput, order: seq<Candidate>, p: Path, t: nat)
    requires Ranks(cfg, w, inp, order)
    requires t < |w.disk| && p in Executed(cfg, w, inp, order).disk[t]
    requires forall u :: 0 <= u < |w.disk| ==> p !in w.disk[u]
    ensures p in PathsOf(inp.popular.value)
    ensures Resolve(w.remote, inp.head, p).Found? && Resolve(w.remote, inp.head, p).size <= cfg.filesizeLimit
    ensures exists i :: 0 <= i < |order| && order[i].path == p && Assign(order, cfg.limits)[i].target == t
  {
    var plan := Assign(order, cfg.limits);
    PlanIsPlaced(cfg, w, inp, order);
    ExecuteGrows(cfg, inp.io, Started(w, inp), plan, t);
    var i :| 0 <= i < |plan| && plan[i].target == t && plan[i].file.path == p;
    assert plan[i].file == order[i];
  }

  /** Main result: after any number n of iterations, with any failures, copies left
      behind or early stop, a tier holds at most what it held before plus its limit. */
  lemma PeakUsage(cfg: Config, io: Io, size: Path -> nat, e: Exec, order: seq<Candidate>, n: nat, t: nat)
    requires n <= |order| && t < |e.disk| == |cfg.limits|
    requires AllPlaced(Assign(order, cfg.limits), |e.disk|) && TrueDisk(size, e.disk) && TrueIo(size, io)
    requires forall i, j :: 0 <= i < j < |order| ==> order[i].path != order[j].path
    requires forall i :: 0 <= i < |order| ==> order[i].size == size(order[i].path)
    ensures Bytes(Execute(cfg, io, e, Assign(order, cfg.limits)[..n]).disk[t]) <= Bytes(e.disk[t]) + cfg.limits[t]
  {
    var plan := Assign(order, cfg.limits);
    var after := Execute(cfg, io, e, plan[..n]);
    ExecuteGrows(cfg, io, e, plan[..n], t);
    ExecuteStaysTrue(cfg, io, size, e, plan[..n]);
    assert PlacedIn(plan[..n], t) <= PlacedIn(plan, t);
    TotalWithin(after.disk[t].Keys, e.disk[t].Keys, PlacedIn(plan, t), size);
    PlacedWithinLimit(order, cfg.limits, size, t);
    TrueBytes(size, e.disk, t);
    TrueBytes(size, after.disk, t);
  }

  // ---------- A run in which nothing fails ----------

  ghost predicate NothingFails(cfg: Config, io: Io) {
    && cfg.errorThreshold > 0
    && forall p: Path ::
         && io.remove(p)
         && io.move(p).mkdirOk
         && (io.move(p).renameOk || (io.move(p).copyOk && io.move(p).removeOk))
         && Fetched(io, p, 0, cfg.retries).Some?
  }

  /** The local files still to be handled that tier t holds. */
  function LocalIn(plan: seq<Assignment>, t: int): set<Path> {
    set i | 0 <= i < |plan| && plan[i].file.local && plan[i].file.tier == t :: plan[i].file.path
  }

  function PlanPaths(plan: seq<Assignment>): set<Path> {
    set i | 0 <= i < |plan| :: plan[i].file.path
  }

  lemma IterationRefines(cfg: Config, io: Io, e: Exec, plan: seq<Assignment>, done: seq<set<Path>>, t: nat)
    requires plan != [] && LoopInv(e, plan) && NothingFails(cfg, io)
    requires t < |e.disk| == |done|
    requires forall u :: 0 <= u < |done| ==> e.disk[u].Keys == done[u] + LocalIn(plan, u) && done[u] !! LocalIn(plan, u)
    ensures var p := plan[0].file.path;
            && ExecOne(io, cfg.retries, e, plan[0]).disk[t].Keys ==
               done[t] + (if plan[0].target == t then {p} else {}) + LocalIn(plan[1..], t)
            && p !in LocalIn(plan[1..], t) && LocalIn(plan[1..], t) <= LocalIn(plan, t)
  {
    var c := plan[0].file;
    assert PathAgrees(e, c.path);
    assert c.path !in LocalIn(plan[1..], t);
    assert c.local && c.tier == t <==> c.path in LocalIn(plan, t);
    assert LocalIn(plan, t) == LocalIn(plan[1..], t) + if c.local && c.tier == t then {c.path} else {};
  }

  /** done, once the plan's first file is where it goes. */
  function Advance(done: seq<set<Path>>, a: Assignment): (done': seq<set<Path>>)
    ensures |done'| == |done|
    ensures forall u :: 0 <= u < |done| ==> done'[u] == done[u] + if a.target == u then {a.file.path} else {}
  {
    seq(|done|, u requires 0 <= u < |done| => done[u] + if a.target == u then {a.file.path} else {})
  }

  lemma AdvanceRefines(cfg: Config, io: Io, e: Exec, plan: seq<Assignment>, done: seq<set<Path>>)
    requires plan != [] && LoopInv(e, plan) && NothingFails(cfg, io) && |e.disk| == |done|
    requires forall u :: 0 <= u < |done| ==> e.disk[u].Keys == done[u] + LocalIn(plan, u) && done[u] !! LocalIn(plan, u)
    ensures var after, done' := ExecOne(io, cfg.retries, e, plan[0]), Advance(done, plan[0]);
            forall u :: 0 <= u < |done| ==>
              after.disk[u].Keys == done'[u] + LocalIn(plan[1..], u) && done'[u] !! LocalIn(plan[1..], u)
  {
    forall u | 0 <= u < |done|
      ensures ExecOne(io, cfg.retries, e, plan[0]).disk[u].Keys == Advance(done, plan[0])[u] + LocalIn(plan[1..], u)
      ensures Advance(done, plan[0])[u] !! LocalIn(plan[1..], u)
    {
      IterationRefines(cfg, io, e, plan, done, u);
    }
  }

  /** After n iterations tier t holds done, what the plan has put there so far and the local
      files of t that it has yet to get to. */
  lemma {:induction false} ExecuteRefines(cfg: Config, io: Io, e: Exec, plan: seq<Assignment>,
                                          done: seq<set<Path>>, n: nat, t: nat)
    requires LoopInv(e, plan) && NothingFails(cfg, io) && e.errors == 0 && t < |e.disk| == |done| && n <= |plan|
    requires forall u :: 0 <= u < |done| ==> e.disk[u].Keys == done[u] + LocalIn(plan, u) && done[u] !! LocalIn(plan, u)
    ensures AllPlaced(plan[..n], |e.disk|)
    ensures Execute(cfg, io, e, plan[..n]).disk[t].Keys == done[t] + PlacedIn(plan[..n], t) + LocalIn(plan[n..], t)
    decreases n
  {
    if n == 0 {
      assert plan[..0] == [] && plan[0..] == plan;
    } else {
      IterationKeeps(io, cfg.retries, e, plan);
      IterationLists(cfg, io, e, plan);
      AdvanceRefines(cfg, io, e, plan, done);
      ExecuteRefines(cfg, io, ExecOne(io, cfg.retries, e, plan[0]), plan[1..], Advance(done, plan[0]), n - 1, t);
      ExecuteShift(cfg, io, e, plan, n, t);
    }
  }

  lemma ExecuteShift(cfg: Config, io: Io, e: Exec, plan: seq<Assignment>, n: nat, t: int)
    requires 0 < n <= |plan| && AllPlaced(plan, |e.disk|) && e.errors < cfg.errorThreshold
    ensures AllPlaced(plan[..n], |e.disk|) && AllPlaced(plan[1..][..n - 1], |e.disk|)
    ensures Execute(cfg, io, e, plan[..n]) == Execute(cfg, io, ExecOne(io, cfg.retries, e, plan[0]), plan[1..][..n - 1])
    ensures plan[1..][n - 1..] == plan[n..]
    ensures PlacedIn(plan[..n], t) ==
            (if plan[0].target == t then {plan[0].file.path} else {}) + PlacedIn(plan[1..][..n - 1], t)
  {
    assert plan[..n][1..] == plan[1..][..n - 1];
  }

  /** The inventory lists a's file exactly in the tier the plan gives it. */
  ghost predicate Listed(inventory: map<Path, LocalFile>, a: Assignment) {
    && (a.file.path in inventory <==> a.target != NONE)
    && (a.target != NONE ==>
          inventory[a.file.path].size == a.file.size && inventory[a.file.path].tier == a.target)
  }

  lemma {:induction false} ExecuteFrame(cfg: Config, io: Io, e: Exec, plan: seq<Assignment>, q: Path)
    requires AllPlaced(plan, |e.disk|) && q !in PlanPaths(plan)
    ensures var after := Execute(cfg, io, e, plan).inventory;
            (q in after <==> q in e.inventory) && (q in e.inventory ==> after[q] == e.inventory[q])
    decreases |plan|
  {
    if plan != [] && e.errors < cfg.errorThreshold {
      assert plan[0].file.path in PlanPaths(plan);
      IterationFrame(io, cfg.retries, e, plan[0], q);
      ExecuteFrame(cfg, io, ExecOne(io, cfg.retries, e, plan[0]), plan[1..], q);
    }
  }

  lemma IterationLists(cfg: Config, io: Io, e: Exec, plan: seq<Assignment>)
    requires plan != [] && LoopInv(e, plan) && NothingFails(cfg, io) && e.errors == 0
    ensures Listed(ExecOne(io, cfg.retries, e, plan[0]).inventory, plan[0])
    ensures ExecOne(io, cfg.retries, e, plan[0]).errors == 0
  {
    assert PathAgrees(e, plan[0].file.path);
  }

  lemma {:induction false} ExecuteLists(cfg: Config, io: Io, e: Exec, plan: seq<Assignment>, i: nat)
    requires LoopInv(e, plan) && NothingFails(cfg, io) && e.errors == 0 && i < |plan|
    ensures Listed(Execute(cfg, io, e, plan).inventory, plan[i])
    decreases |plan|
  {
    var after := ExecOne(io, cfg.retries, e, plan[0]);
    IterationKeeps(io, cfg.retries, e, plan);
    IterationLists(cfg, io, e, plan);
    if i == 0 {
      assert forall j :: 0 <= j < |plan[1..]| ==> plan[1..][j] == plan[j + 1];
      ExecuteFrame(cfg, io, after, plan[1..], plan[0].file.path);
    } else {
      ExecuteLists(cfg, io, after, plan[1..], i - 1);
    }
  }

  lemma LocalInIs(e: Exec, plan: seq<Assignment>, p: Path, t: nat)
    requires PlanFits(e, plan) && (p in e.inventory ==> p in PlanPaths(plan))
    ensures p in LocalIn(plan, t) <==> p in e.inventory && e.inventory[p].tier == t
  {
    if p in PlanPaths(plan) {
      var i :| 0 <= i < |plan| && plan[i].file.path == p;
    }
  }

  lemma InventoryInPlan(cfg: Config, w: World, inp: RunInput, order: seq<Candidate>)
    requires Ranks(cfg, w, inp, order)
    ensures forall p :: p in CandidatesAt(cfg, w, inp) ==> p in PlanPaths(Assign(order, cfg.limits))
    ensures forall p :: p in InventoryOf(w.disk, w.rows, inp.walk) ==> p in PlanPaths(Assign(order, cfg.limits))
  {
    var plan := Assign(order, cfg.limits);
    forall p | p in CandidatesAt(cfg, w, inp) ensures p in PlanPaths(plan) {
      assert p in Paths(order);
      var i :| 0 <= i < |order| && Paths(order)[i] == p;
      assert plan[i].file.path == p;
    }
    forall p | p in InventoryOf(w.disk, w.rows, inp.walk) ensures p in CandidatesAt(cfg, w, inp) {
    }
  }

  /** The copies in tier t that the plan knows nothing of: those of files the inventory has
      elsewhere, and those the walk did not list. A move leaves one when its source stays. */
  function Spare(disk: Disk, plan: seq<Assignment>, t: nat): set<Path>
    requires t < |disk|
  {
    disk[t].Keys - LocalIn(plan, t)
  }

  lemma StartedHoldsLocals(cfg: Config, w: World, inp: RunInput, order: seq<Candidate>, t: nat)
    requires Ranks(cfg, w, inp, order) && RowsBacked(w.disk, w.rows) && t < |w.disk|
    ensures LocalIn(Assign(order, cfg.limits), t) <= w.disk[t].Keys
  {
    var plan := Assign(order, cfg.limits);
    LoopStarts(cfg, w, inp, order);
    forall p | p in LocalIn(plan, t) ensures p in w.disk[t] {
      assert PathAgrees(Started(w, inp), p);
    }
  }

  /** Main result: when nothing fails, after n iterations each tier holds exactly the files
      placed in it so far, its own that are still to be handled, and its spare copies. */
  lemma ExecutionHolds(cfg: Config, w: World, inp: RunInput, order: seq<Candidate>, n: nat, t: nat)
    requires Ranks(cfg, w, inp, order) && RowsBacked(w.disk, w.rows) && NothingFails(cfg, inp.io)
    requires n <= |order| && t < |w.disk|
    ensures var plan := Assign(order, cfg.limits);
            ExecutedTo(cfg, w, inp, order, n).disk[t].Keys
            == Spare(w.disk, plan, t) + PlacedIn(plan[..n], t) + LocalIn(plan[n..], t)
  {
    var plan := Assign(order, cfg.limits);
    LoopStarts(cfg, w, inp, order);
    var done: seq<set<Path>> := seq(|w.disk|, u requires 0 <= u < |w.disk| => Spare(w.disk, plan, u));
    forall u | 0 <= u < |w.disk| ensures w.disk[u].Keys == done[u] + LocalIn(plan, u) {
      StartedHoldsLocals(cfg, w, inp, order, u);
    }
    ExecuteRefines(cfg, inp.io, Started(w, inp), plan, done, n, t);
  }

  /** The tiers hold exactly what the plan gives them and the spare copies of disk, and the
      inventory lists what the plan gives them. */
  ghost predicate Settled(e: Exec, plan: seq<Assignment>, disk: Disk) {
    && |e.disk| == |disk|
    && (forall t :: 0 <= t < |disk| ==> e.disk[t].Keys == PlacedIn(plan, t) + Spare(disk, plan, t))
    && (forall i :: 0 <= i < |plan| ==> Listed(e.inventory, plan[i]))
    && (forall p :: p in e.inventory ==> p in PlanPaths(plan))
  }

  lemma ExecutionSettles(cfg: Config, w: World, inp: RunInput, order: seq<Candidate>)
    requires Ranks(cfg, w, inp, order) && RowsBacked(w.disk, w.rows) && NothingFails(cfg, inp.io)
    ensures Settled(Executed(cfg, w, inp, order), Assign(order, cfg.limits), w.disk)
  {
    var plan := Assign(order, cfg.limits);
    var s := Started(w, inp);
    LoopStarts(cfg, w, inp, order);
    assert plan[..|plan|] == plan && plan[|plan|..] == [];
    forall t | 0 <= t < |w.disk|
      ensures Executed(cfg, w, inp, order).disk[t].Keys == PlacedIn(plan, t) + Spare(w.disk, plan, t)
    {
      ExecutionHolds(cfg, w, inp, order, |order|, t);
    }
    forall i | 0 <= i < |plan| ensures Listed(Executed(cfg, w, inp, order).inventory, plan[i]) {
      ExecuteLists(cfg, inp.io, s, plan, i);
    }
    InventoryInPlan(cfg, w, inp, order);
    forall p | p !in PlanPaths(plan) ensures p !in Executed(cfg, w, inp, order).inventory {
      ExecuteFrame(cfg, inp.io, s, plan, p);
    }
  }

  /** The execution loop of a run in which nothing fails and every size is the file's own. */
  ghost predicate Unfailing(cfg: Config, w: World, inp: RunInput, order: seq<Candidate>, size: Path -> nat) {
    && Ranks(cfg, w, inp, order) && RowsBacked(w.disk, w.rows)
    && NothingFails(cfg, inp.io) && TrueDisk(size, w.disk) && TrueIo(size, inp.io)
    && forall i :: 0 <= i < |order| ==> order[i].size == size(order[i].path)
  }

  /** The bytes the placement leaves free in a tier. */
  lemma RoomLeft(order: seq<Candidate>, limits: seq<nat>, size: Path -> nat, t: nat)
    requires t < |limits|
    requires forall i, j :: 0 <= i < j < |order| ==> order[i].path != order[j].path
    requires forall i :: 0 <= i < |order| ==> order[i].size == size(order[i].path)
    ensures Total(PlacedIn(Assign(order, limits), t), size) + Left(Sizes(order), limits)[t] == limits[t]
  {
    PlacedTotal(Assign(order, limits), size, Sizes(order), FirstFit(Sizes(order), limits), t);
    Conservation(Sizes(order), limits, t);
  }

  /** Main result: when nothing fails, the tiers end up holding exactly the files they were
      given and their spare copies, and a tier ends within its limit if and only if its
      spare copies of other files fit in the room that the placement leaves. */
  lemma ExecutionRefinesPlan(cfg: Config, w: World, inp: RunInput, order: seq<Candidate>, size: Path -> nat)
    requires Unfailing(cfg, w, inp, order, size)
    ensures var e, plan := Executed(cfg, w, inp, order), Assign(order, cfg.limits);
            && Settled(e, plan, w.disk) && TrueDisk(size, e.disk)
            && forall t :: 0 <= t < |e.disk| ==>
                 (Bytes(e.disk[t]) <= cfg.limits[t] <==>
                  Total(Spare(w.disk, plan, t) - PlacedIn(plan, t), size) <= Left(Sizes(order), cfg.limits)[t])
  {
    var e, plan := Executed(cfg, w, inp, order), Assign(order, cfg.limits);
    ExecutionSettles(cfg, w, inp, order);
    PlanIsPlaced(cfg, w, inp, order);
    ExecuteStaysTrue(cfg, inp.io, size, Started(w, inp), plan);
    forall t | 0 <= t < |e.disk|
      ensures Bytes(e.disk[t]) <= cfg.limits[t] <==>
              Total(Spare(w.disk, plan, t) - PlacedIn(plan, t), size) <= Left(Sizes(order), cfg.limits)[t]
    {
      var placed, spare := PlacedIn(plan, t), Spare(w.disk, plan, t);
      RoomLeft(order, cfg.limits, size, t);
      TrueBytes(size, e.disk, t);
      TotalUnion(placed, spare - placed, size);
      assert placed + (spare - placed) == placed + spare;
    }
  }

  // ---------- A run that starts with one copy of each file ----------

  /** Each path is in at most one tier. */
  ghost predicate OneCopy(disk: Disk) {
    forall t, u :: 0 <= t < u < |disk| ==> disk[t].Keys !! disk[u].Keys
  }

  /** With one copy of each file, phase A finds it where it is. */
  lemma InventoryIsExact(w: World, walk: seq<seq<Path>>, p: Path, t: nat)
    requires CompleteWalk(walk, w.disk) && RowsBacked(w.disk, w.rows) && OneCopy(w.disk) && t < |w.disk|
    ensures var inv := InventoryOf(w.disk, w.rows, walk);
            p in w.disk[t] <==> p in inv && inv[p].tier == t
  {
    if p in w.disk[t] {
      assert p in walk[t];
    }
    if p in Visited(walk) {
      var h := Hottest(walk, p);
      assert p in w.disk[h];
      assert p in w.rows ==> p in w.disk[w.rows[p].tier];
    }
  }

  lemma NothingSpare(cfg: Config, w: World, inp: RunInput, order: seq<Candidate>, t: nat)
    requires Ranks(cfg, w, inp, order)
    requires RowsBacked(w.disk, w.rows) && OneCopy(w.disk) && CompleteWalk(inp.walk, w.disk) && t < |w.disk|
    ensures Spare(w.disk, Assign(order, cfg.limits), t) == {}
  {
    var plan := Assign(order, cfg.limits);
    RankingFits(cfg, w, inp, order);
    InventoryInPlan(cfg, w, inp, order);
    forall p | p in w.disk[t] ensures p in LocalIn(plan, t) {
      InventoryIsExact(w, inp.walk, p, t);
      LocalInIs(Started(w, inp), plan, p, t);
    }
  }

  lemma SettledOnce(e: Exec, plan: seq<Assignment>, disk: Disk)
    requires Settled(e, plan, disk) && forall t :: 0 <= t < |disk| ==> Spare(disk, plan, t) == {}
    requires forall i, j :: 0 <= i < j < |plan| ==> plan[i].file.path != plan[j].file.path
    ensures OneCopy(e.disk)
  {
    forall p, t, u | 0 <= t < |e.disk| && 0 <= u < |e.disk| && p in e.disk[t] && p in e.disk[u] ensures t == u {
      assert p in PlacedIn(plan, t) && p in PlacedIn(plan, u);
    }
  }

  /** It ends with one copy of each, and within every limit. */
  lemma OneCopyStays(cfg: Config, w: World, inp: RunInput, order: seq<Candidate>, size: Path -> nat)
    requires Unfailing(cfg, w, inp, order, size) && OneCopy(w.disk) && CompleteWalk(inp.walk, w.disk)
    ensures var e := Executed(cfg, w, inp, order);
            OneCopy(e.disk) && forall t :: 0 <= t < |e.disk| ==> Bytes(e.disk[t]) <= cfg.limits[t]
  {
    var e, plan := Executed(cfg, w, inp, order), Assign(order, cfg.limits);
    ExecutionRefinesPlan(cfg, w, inp, order, size);
    forall t | 0 <= t < |w.disk|
      ensures Spare(w.disk, plan, t) == {} && Total(Spare(w.disk, plan, t) - PlacedIn(plan, t), size) == 0
    {
      NothingSpare(cfg, w, inp, order, t);
    }
    SettledOnce(e, plan, w.disk);
  }
}

/** A second run over the same votes and sizes has nothing left to do. */
module CacheFixpoint {
  import opened Wrappers
  import opened TierAssignment
  import opened Scoring
  import opened CacheModel
  import opened CacheConsistency
  import opened CacheCapacity

  /** The execution loop does nothing for a: no download, no move, no eviction. */
  predicate Idle(a: Assignment) {
    if a.target == NONE then !a.file.local else a.file.local && a.file.tier == a.target
  }

  lemma {:induction false} IdleExecute(cfg: Config, io: Io, e: Exec, plan: seq<Assignment>)
    requires AllPlaced(plan, |e.disk|) && forall i :: 0 <= i < |plan| ==> Idle(plan[i])
    ensures Execute(cfg, io, e, plan) == e
    decreases |plan|
  {
    if plan != [] && e.errors < cfg.errorThreshold {
      IdleExecute(cfg, io, e, plan[1..]);
    }
  }

  ghost predicate AllIdle(order: seq<Candidate>, limits: seq<nat>) {
    forall j :: 0 <= j < |order| ==> Idle(Assign(order, limits)[j])
  }

  // ---------- Sizes are what upstream says ----------

  /** Every HEAD is answered, and a file that exists has its one size. */
  ghost predicate TrueHead(size: Path -> nat, head: Path -> HeadResult) {
    forall p :: !head(p).HeadError? && (head(p).Found? ==> head(p).size == size(p))
  }

  ghost predicate TrueRows(size: Path -> nat, rows: map<Path, LocalFile>) {
    forall p :: p in rows ==> rows[p].size == size(p)
  }

  /** The recorded sizes are what a HEAD would answer. */
  ghost predicate TrueRemote(head: Path -> HeadResult, remote: map<Path, RemoteRow>) {
    forall p :: p in remote ==> Resolve(remote, head, p) == head(p)
  }

  /** Every candidate has its true size, and the score its votes and that size give. */
  lemma CandidatesAreTrue(cfg: Config, w: World, inp: RunInput, size: Path -> nat)
    requires ValidInput(cfg, w, inp) && inp.popular.Some?
    requires TrueDisk(size, w.disk) && TrueRows(size, w.rows)
    requires TrueHead(size, inp.head) && TrueRemote(inp.head, w.remote)
    ensures var cands := CandidatesAt(cfg, w, inp);
            forall p :: p in cands ==>
              cands[p].size == size(p) && cands[p].score == Score(VoteCount(VotesOf(inp.popular.value), p), size(p))
  {
    var inv := InventoryOf(w.disk, w.rows, inp.walk);
    forall p | p in inv ensures inv[p].size == size(p) {
      assert p in w.disk[Hottest(inp.walk, p)];
    }
  }

  lemma OrderIsTrue(cfg: Config, w: World, inp: RunInput, order: seq<Candidate>, size: Path -> nat)
    requires Ranks(cfg, w, inp, order)
    requires TrueDisk(size, w.disk) && TrueRows(size, w.rows)
    requires TrueHead(size, inp.head) && TrueRemote(inp.head, w.remote)
    ensures forall i :: 0 <= i < |order| ==> order[i].size == size(order[i].path)
    ensures forall i :: 0 <= i < |order| ==>
              order[i].score == Score(VoteCount(VotesOf(inp.popular.value), order[i].path), size(order[i].path))
  {
    CandidatesAreTrue(cfg, w, inp, size);
  }

  // ---------- The state a failure-free run leaves ----------

  /** A run that returns nil, in which nothing fails and every size is true. */
  ghost predicate FaultFree(cfg: Config, w: World, inp: RunInput, order: seq<Candidate>, size: Path -> nat) {
    && Ranks(cfg, w, inp, order) && RunOk(inp)
    && RowsBacked(w.disk, w.rows) && CompleteWalk(inp.walk, w.disk)
    && NothingFails(cfg, inp.io) && TrueDisk(size, w.disk) && TrueIo(size, inp.io) && TrueRows(size, w.rows)
    && TrueHead(size, inp.head) && TrueRemote(inp.head, w.remote)
  }

  lemma FaultFreeIsUnfailing(cfg: Config, w: World, inp: RunInput, order: seq<Candidate>, size: Path -> nat)
    requires FaultFree(cfg, w, inp, order, size)
    ensures Unfailing(cfg, w, inp, order, size)
  {
    OrderIsTrue(cfg, w, inp, order, size);
  }

  lemma SettledExec(cfg: Config, w: World, inp: RunInput, order: seq<Candidate>, size: Path -> nat)
    requires FaultFree(cfg, w, inp, order, size)
    ensures var e := Executed(cfg, w, inp, order);
            Settled(e, Assign(order, cfg.limits), w.disk) && TrueDisk(size, e.disk) && TrueRows(size, e.inventory)
  {
    OrderIsTrue(cfg, w, inp, order, size);
    ExecutionRefinesPlan(cfg, w, inp, order, size);
  }

  lemma SettledWorld(cfg: Config, w: World, inp: RunInput, order: seq<Candidate>, size: Path -> nat)
    requires FaultFree(cfg, w, inp, order, size)
    ensures var w' := RunEffect(cfg, w, inp, order);
            && Settled(Exec(w'.disk, w'.rows, w'.rows, 0), Assign(order, cfg.limits), w.disk)
            && TrueDisk(size, w'.disk) && TrueRows(size, w'.rows) && TrueRemote(inp.head, w'.remote)
  {
    SettledExec(cfg, w, inp, order, size);
    RowsEqualInventory(cfg, w, inp, order);
    var w', e := RunEffect(cfg, w, inp, order), Executed(cfg, w, inp, order);
    assert w'.disk == e.disk && w'.rows == e.inventory;
  }

  /** The assignment evicts its file from one tier of disk, but another has a copy too. */
  ghost predicate LeavesCopy(disk: Disk, a: Assignment) {
    && a.target == NONE && a.file.local
    && exists u :: 0 <= u < |disk| && u != a.file.tier && a.file.path in disk[u]
  }

  ghost predicate NothingLeft(disk: Disk, plan: seq<Assignment>) {
    forall i :: 0 <= i < |plan| ==> !LeavesCopy(disk, plan[i])
  }

  lemma OnceIsNotLeft(e: Exec, plan: seq<Assignment>, i: nat)
    requires PlanFits(e, plan) && i < |plan| && PathAgrees(e, plan[i].file.path) && OneCopy(e.disk)
    ensures !LeavesCopy(e.disk, plan[i])
  {
  }

  lemma OneCopyLeavesNothing(cfg: Config, w: World, inp: RunInput, order: seq<Candidate>)
    requires Ranks(cfg, w, inp, order) && RowsBacked(w.disk, w.rows) && OneCopy(w.disk)
    ensures NothingLeft(w.disk, Assign(order, cfg.limits))
  {
    var e, plan := Started(w, inp), Assign(order, cfg.limits);
    LoopStarts(cfg, w, inp, order);
    forall i | 0 <= i < |plan| ensures !LeavesCopy(w.disk, plan[i]) {
      OnceIsNotLeft(e, plan, i);
    }
  }

  lemma ListedIsVisited(w: World, plan: seq<Assignment>, disk: Disk, walk: seq<seq<Path>>, p: Path)
    requires Settled(Exec(w.disk, w.rows, w.rows, 0), plan, disk) && CompleteWalk(walk, w.disk)
    requires AllPlaced(plan, |w.disk|) && p in w.rows
    ensures p in Visited(walk)
  {
    var i :| 0 <= i < |plan| && plan[i].file.path == p;
    assert Listed(w.rows, plan[i]);
    assert p in PlacedIn(plan, plan[i].target);
    assert p in walk[plan[i].target];
  }

  lemma LeftIsVisited(w: World, plan: seq<Assignment>, disk: Disk, walk: seq<seq<Path>>, i: nat)
    requires Settled(Exec(w.disk, w.rows, w.rows, 0), plan, disk) && CompleteWalk(walk, w.disk)
    requires forall j, k :: 0 <= j < k < |plan| ==> plan[j].file.path != plan[k].file.path
    requires i < |plan| && LeavesCopy(disk, plan[i])
    ensures plan[i].file.path in Visited(walk) && plan[i].file.path !in w.rows
  {
    var p := plan[i].file.path;
    var u :| 0 <= u < |disk| && u != plan[i].file.tier && p in disk[u];
    assert p in Spare(disk, plan, u);
    assert p in w.disk[u] && p in walk[u];
    assert Listed(w.rows, plan[i]);
  }

  // ---------- Two rankings of the same files ----------

  function PathSet(order: seq<Candidate>): set<Path> {
    set p | p in Paths(order)
  }

  /** The files that both orders list come in the same relative order. */
  ghost predicate SameRanks(order: seq<Candidate>, order': seq<Candidate>) {
    KeepBy(Paths(order'), Paths(order'), PathSet(order)) == KeepBy(Paths(order), Paths(order), PathSet(order'))
  }

  lemma {:induction false} KeptAt<T>(xs: seq<T>, keys: seq<Path>, s: set<Path>, j: nat) returns (i: nat)
    requires |xs| == |keys| && j < |KeepBy(keys, keys, s)|
    ensures |KeepBy(xs, keys, s)| == |KeepBy(keys, keys, s)| && i < |xs|
    ensures keys[i] == KeepBy(keys, keys, s)[j] && xs[i] == KeepBy(xs, keys, s)[j]
  {
    KeptLength(xs, keys, s);
    if keys[0] in s && j == 0 {
      i := 0;
    } else {
      i := KeptAt(xs[1..], keys[1..], s, if keys[0] in s then j - 1 else j);
      i := i + 1;
    }
  }

  lemma {:induction false} KeptLength<T>(xs: seq<T>, keys: seq<Path>, s: set<Path>)
    requires |xs| == |keys|
    ensures |KeepBy(xs, keys, s)| == |KeepBy(keys, keys, s)|
  {
    if xs != [] {
      KeptLength(xs[1..], keys[1..], s);
    }
  }

  lemma {:induction false} KeepAll(keys: seq<Path>, s: set<Path>)
    requires forall i :: 0 <= i < |keys| ==> keys[i] in s
    ensures KeepBy(keys, keys, s) == keys
  {
    if keys != [] {
      KeepAll(keys[1..], s);
    }
  }

  /** When order' only drops unplaced files of order, every file keeps its tier. */
  lemma SameTiers(order: seq<Candidate>, order': seq<Candidate>, limits: seq<nat>, j: nat) returns (i: nat)
    requires SameRanks(order, order') && j < |order'|
    requires PathSet(order') <= PathSet(order)
    requires forall i :: 0 <= i < |order| && order[i].path !in PathSet(order') ==>
               Assign(order, limits)[i].target == NONE
    requires forall c, c' :: c in order && c' in order' && c.path == c'.path ==> c.size == c'.size
    ensures i < |order| && order[i].path == order'[j].path
    ensures Assign(order, limits)[i].target == Assign(order', limits)[j].target
  {
    var keys, s, sizes := Paths(order), PathSet(order'), Sizes(order);
    KeepAll(Paths(order'), PathSet(order));
    KeptLength(sizes, keys, s);
    forall k | 0 <= k < |order'| ensures Sizes(order')[k] == KeepBy(sizes, keys, s)[k] {
      var l := KeptAt(sizes, keys, s, k);
      assert order[l] in order && order'[k] in order';
    }
    assert Sizes(order') == KeepBy(sizes, keys, s);
    DropUnplaced(sizes, limits, keys, s);
    i := KeptAt(FirstFit(sizes, limits), keys, s, j);
  }

  // ---------- The second run ----------

  /** The two runs of the fixpoint theorem: from w, nothing fails in the first, and the
      second sees the same votes and sizes. Its own actions may all fail. */
  ghost predicate Follows(cfg: Config, w: World, inp: RunInput, order: seq<Candidate>,
                          inp': RunInput, size: Path -> nat) {
    && FaultFree(cfg, w, inp, order, size)
    && CompleteWalk(inp'.walk, RunEffect(cfg, w, inp, order).disk) && RunOk(inp')
    && inp'.popular == inp.popular && inp'.head == inp.head
  }

  /** .. and the second ranks its candidates as order'. */
  ghost predicate Repeats(cfg: Config, w: World, inp: RunInput, order: seq<Candidate>,
                          inp': RunInput, order': seq<Candidate>, size: Path -> nat) {
    && Follows(cfg, w, inp, order, inp', size)
    && IsRanking(order', CandidatesAt(cfg, RunEffect(cfg, w, inp, order), inp'))
  }

  lemma SecondIsValid(cfg: Config, w: World, inp: RunInput, order: seq<Candidate>, inp': RunInput, size: Path -> nat)
    requires Follows(cfg, w, inp, order, inp', size)
    ensures ValidInput(cfg, RunEffect(cfg, w, inp, order), inp')
  {
    RunKeeps(cfg, w, inp, RunEffect(cfg, w, inp, order));
  }

  /** Phase A of the second run finds what the first placed or left behind; all sizes are
      still true. */
  lemma SecondStart(cfg: Config, w: World, inp: RunInput, order: seq<Candidate>,
                    inp': RunInput, size: Path -> nat)
    requires Follows(cfg, w, inp, order, inp', size)
    ensures var w', plan := RunEffect(cfg, w, inp, order), Assign(order, cfg.limits);
            && (forall p :: p in w'.rows ==> p in Visited(inp'.walk) && p in PathSet(order))
            && (forall i :: 0 <= i < |order| ==> Listed(w'.rows, plan[i]))
            && (forall i :: 0 <= i < |order| ==>
                  (LeavesCopy(w.disk, plan[i]) <==> order[i].path in Visited(inp'.walk) && plan[i].target == NONE))
            && TrueRemote(inp.head, w'.remote) && TrueDisk(size, w'.disk) && TrueRows(size, w'.rows)
  {
    var w', plan := RunEffect(cfg, w, inp, order), Assign(order, cfg.limits);
    SettledWorld(cfg, w, inp, order, size);
    PlanIsPlaced(cfg, w, inp, order);
    SettledPaths(Exec(w'.disk, w'.rows, w'.rows, 0), order, cfg.limits, w.disk);
    forall p | p in w'.rows ensures p in Visited(inp'.walk) {
      ListedIsVisited(w', plan, w.disk, inp'.walk, p);
    }
    forall i | 0 <= i < |order|
      ensures LeavesCopy(w.disk, plan[i]) <==> order[i].path in Visited(inp'.walk) && plan[i].target == NONE
    {
      assert Listed(w'.rows, plan[i]);
      if LeavesCopy(w.disk, plan[i]) {
        LeftIsVisited(w', plan, w.disk, inp'.walk, i);
      } else if order[i].path in Visited(inp'.walk) && plan[i].target == NONE {
        var j := SecondStranger(cfg, w, inp, order, inp', size, order[i].path);
      }
    }
  }

  /** order lists every file of disk, as a local one. */
  ghost predicate ListsDisk(disk: Disk, order: seq<Candidate>) {
    forall p, t :: 0 <= t < |disk| && p in disk[t] ==> p in PathSet(order) && order[IndexOf(order, p)].local
  }

  lemma DiskIsRanked(cfg: Config, w: World, inp: RunInput, order: seq<Candidate>)
    requires Ranks(cfg, w, inp, order) && CompleteWalk(inp.walk, w.disk)
    ensures ListsDisk(w.disk, order)
  {
    PathsAreCandidates(order, CandidatesAt(cfg, w, inp));
    forall p, t | 0 <= t < |w.disk| && p in w.disk[t] ensures p in InventoryOf(w.disk, w.rows, inp.walk) {
      assert p in inp.walk[t];
    }
  }

  /** A file that phase A finds on disk without a row is one that left a copy. */
  lemma StrangerWasLeft(w: World, walk: seq<seq<Path>>, order: seq<Candidate>, limits: seq<nat>, disk: Disk, p: Path)
      returns (i: nat)
    requires Settled(Exec(w.disk, w.rows, w.rows, 0), Assign(order, limits), disk) && ValidWalk(walk, w.disk)
    requires ListsDisk(disk, order)
    requires p in Visited(walk) && p !in w.rows
    ensures i < |order| && order[i].path == p && LeavesCopy(disk, Assign(order, limits)[i])
  {
    var plan := Assign(order, limits);
    var t :| 0 <= t < |walk| && p in walk[t];
    forall j | 0 <= j < |plan| && plan[j].file.path == p ensures plan[j].target == NONE {
      assert Listed(w.rows, plan[j]);
    }
    assert p in Spare(disk, plan, t);
    i := IndexOf(order, p);
  }

  lemma SecondStranger(cfg: Config, w: World, inp: RunInput, order: seq<Candidate>,
                       inp': RunInput, size: Path -> nat, p: Path) returns (i: nat)
    requires Follows(cfg, w, inp, order, inp', size)
    requires p in Visited(inp'.walk) && p !in RunEffect(cfg, w, inp, order).rows
    ensures i < |order| && order[i].path == p && LeavesCopy(w.disk, Assign(order, cfg.limits)[i])
  {
    SettledWorld(cfg, w, inp, order, size);
    DiskIsRanked(cfg, w, inp, order);
    i := StrangerWasLeft(RunEffect(cfg, w, inp, order), inp'.walk, order, cfg.limits, w.disk, p);
  }

  lemma SettledPaths(e: Exec, order: seq<Candidate>, limits: seq<nat>, disk: Disk)
    requires Settled(e, Assign(order, limits), disk)
    ensures forall p :: p in e.inventory ==> p in PathSet(order)
  {
    var plan := Assign(order, limits);
    forall p | p in e.inventory ensures p in PathSet(order) {
      var i :| 0 <= i < |plan| && plan[i].file.path == p;
      assert Paths(order)[i] == p;
    }
  }

  /** cands' is what a run that ranked cands as order, and placed every file of disk as planned,
      leaves for the next run to rank. */
  ghost predicate Continues(order: seq<Candidate>, cands: map<Path, Candidate>, limits: seq<nat>, disk: Disk,
                            cands': map<Path, Candidate>) {
    && Lists(order, cands)
    && (forall p :: p in cands' ==>
          && p in cands && cands'[p].path == p
          && cands'[p].size == cands[p].size && cands'[p].score == cands[p].score)
    && (forall i :: 0 <= i < |order| ==> Continued(Assign(order, limits)[i], disk, cands'))
  }

  /** A file that was placed is local, where it was placed; of the others those are local of
      which a copy was left. */
  ghost predicate Continued(a: Assignment, disk: Disk, cands': map<Path, Candidate>) {
    var p := a.file.path;
    if a.target != NONE then p in cands' && cands'[p].local && cands'[p].tier == a.target
    else p in cands' && cands'[p].local <==> LeavesCopy(disk, a)
  }

  lemma PathsAreCandidates(order: seq<Candidate>, cands: map<Path, Candidate>)
    requires Lists(order, cands)
    ensures PathSet(order) == cands.Keys
  {
    forall p | p in cands ensures p in PathSet(order) {
      assert p in Paths(order);
    }
  }

  /** The second run's candidates were all candidates of the first. */
  lemma NoNewCandidates(cfg: Config, w: World, inp: RunInput, order: seq<Candidate>,
                        inp': RunInput, size: Path -> nat, p: Path)
    requires Follows(cfg, w, inp, order, inp', size)
    requires p in CandidatesAt(cfg, RunEffect(cfg, w, inp, order), inp')
    ensures p in CandidatesAt(cfg, w, inp)
  {
    SecondStart(cfg, w, inp, order, inp', size);
    PathsAreCandidates(order, CandidatesAt(cfg, w, inp));
    if p !in RunEffect(cfg, w, inp, order).rows {
      if p in Visited(inp'.walk) {
        var i := SecondStranger(cfg, w, inp, order, inp', size, p);
      } else {
        assert p in PathsOf(inp.popular.value) && inp.head(p).Found? && inp.head(p).size <= cfg.filesizeLimit;
        assert Resolve(w.remote, inp.head, p) == inp.head(p);
      }
    }
  }

  lemma SecondContinues(cfg: Config, w: World, inp: RunInput, order: seq<Candidate>, inp': RunInput, size: Path -> nat)
    requires Follows(cfg, w, inp, order, inp', size)
    ensures ValidInput(cfg, RunEffect(cfg, w, inp, order), inp')
    ensures Continues(order, CandidatesAt(cfg, w, inp), cfg.limits, w.disk,
                      CandidatesAt(cfg, RunEffect(cfg, w, inp, order), inp'))
  {
    var w' := RunEffect(cfg, w, inp, order);
    SecondIsValid(cfg, w, inp, order, inp', size);
    SecondStart(cfg, w, inp, order, inp', size);
    CandidatesAreTrue(cfg, w, inp, size);
    CandidatesAreTrue(cfg, w', inp', size);
    forall p | p in CandidatesAt(cfg, w', inp') ensures p in CandidatesAt(cfg, w, inp) {
      NoNewCandidates(cfg, w, inp, order, inp', size, p);
    }
    forall i | 0 <= i < |order| ensures Continued(Assign(order, cfg.limits)[i], w.disk, CandidatesAt(cfg, w', inp')) {
      assert Listed(w'.rows, Assign(order, cfg.limits)[i]);
    }
  }

  /** When the files keep their relative order, exactly those are not left alone of which the
      first run left a copy, and they are evicted. */
  lemma ContinuedIdleAt(order: seq<Candidate>, cands: map<Path, Candidate>, limits: seq<nat>, disk: Disk,
                        order': seq<Candidate>, cands': map<Path, Candidate>, j: nat) returns (i: nat)
    requires Continues(order, cands, limits, disk, cands') && Lists(order', cands') && SameRanks(order, order')
    requires j < |order'|
    ensures i < |order| && order[i].path == order'[j].path
    ensures var a, a' := Assign(order, limits)[i], Assign(order', limits)[j];
            (Idle(a') <==> !LeavesCopy(disk, a)) && a'.target == a.target
  {
    PathsAreCandidates(order, cands);
    PathsAreCandidates(order', cands');
    forall k | 0 <= k < |order| && order[k].path !in PathSet(order') ensures Assign(order, limits)[k].target == NONE {
      assert Continued(Assign(order, limits)[k], disk, cands');
    }
    i := SameTiers(order, order', limits, j);
    assert Continued(Assign(order, limits)[i], disk, cands');
  }

  lemma ContinuedIsIdle(order: seq<Candidate>, cands: map<Path, Candidate>, limits: seq<nat>, disk: Disk,
                        order': seq<Candidate>, cands': map<Path, Candidate>)
    requires Continues(order, cands, limits, disk, cands') && Lists(order', cands') && SameRanks(order, order')
    ensures AllIdle(order', limits) <==> NothingLeft(disk, Assign(order, limits))
  {
    var plan, plan' := Assign(order, limits), Assign(order', limits);
    if NothingLeft(disk, plan) {
      forall j | 0 <= j < |order'| ensures Idle(plan'[j]) {
        var i := ContinuedIdleAt(order, cands, limits, disk, order', cands', j);
      }
    } else {
      var i :| 0 <= i < |plan| && LeavesCopy(disk, plan[i]);
      assert Continued(plan[i], disk, cands');
      PathsAreCandidates(order', cands');
      var j := IndexOf(order', order[i].path);
      var k := ContinuedIdleAt(order, cands, limits, disk, order', cands', j);
      assert k == i && !Idle(plan'[j]);
    }
  }

  lemma IdleStart(w: World, inp: RunInput)
    requires ValidWalk(inp.walk, w.disk) && InventoryOf(w.disk, w.rows, inp.walk) == w.rows
    ensures Started(w, inp) == Exec(w.disk, w.rows, w.rows, 0)
  {
    assert w.rows + w.rows == w.rows;
  }

  lemma IdleExecuted(cfg: Config, w: World, inp: RunInput, order: seq<Candidate>)
    requires Ranks(cfg, w, inp, order) && RunOk(inp)
    requires InventoryOf(w.disk, w.rows, inp.walk) == w.rows
    requires AllIdle(order, cfg.limits)
    ensures Executed(cfg, w, inp, order) == Exec(w.disk, w.rows, w.rows, 0)
  {
    PlanIsPlaced(cfg, w, inp, order);
    IdleStart(w, inp);
    IdleExecute(cfg, inp.io, Exec(w.disk, w.rows, w.rows, 0), Assign(order, cfg.limits));
  }

  lemma IdleFinish(e: Exec, remote: map<Path, RemoteRow>, ttl: Option<nat>, end: int)
    requires e.rows == e.inventory
    ensures Finish(e, remote, ttl, end).disk == e.disk && Finish(e, remote, ttl, end).rows == e.rows
  {
    assert Restrict(e.rows, e.inventory.Keys) == e.rows;
  }

  lemma IdleRun(cfg: Config, w: World, inp: RunInput, order: seq<Candidate>)
    requires Ranks(cfg, w, inp, order) && RunOk(inp)
    requires InventoryOf(w.disk, w.rows, inp.walk) == w.rows
    requires AllIdle(order, cfg.limits)
    ensures RunEffect(cfg, w, inp, order).disk == w.disk && RunEffect(cfg, w, inp, order).rows == w.rows
  {
    IdleExecuted(cfg, w, inp, order);
    IdleFinish(Executed(cfg, w, inp, order), RemoteAt(w, inp), inp.ttl, inp.end);
  }

  lemma NoStrangers(cfg: Config, w: World, inp: RunInput, order: seq<Candidate>,
                    inp': RunInput, size: Path -> nat, p: Path)
    requires Follows(cfg, w, inp, order, inp', size) && NothingLeft(w.disk, Assign(order, cfg.limits))
    requires p in Visited(inp'.walk)
    ensures p in RunEffect(cfg, w, inp, order).rows
  {
    if p !in RunEffect(cfg, w, inp, order).rows {
      var i := SecondStranger(cfg, w, inp, order, inp', size, p);
      assert false;
    }
  }

  lemma InventoryIsRows(w: World, walk: seq<seq<Path>>)
    requires ValidWalk(walk, w.disk) && Visited(walk) == w.rows.Keys
    ensures InventoryOf(w.disk, w.rows, walk) == w.rows
  {
  }

  /** Phase A of the second run finds the rows the first left, and nothing else. */
  lemma NextInventory(cfg: Config, w: World, inp: RunInput, order: seq<Candidate>,
                      inp': RunInput, size: Path -> nat)
    requires Follows(cfg, w, inp, order, inp', size) && NothingLeft(w.disk, Assign(order, cfg.limits))
    ensures var w' := RunEffect(cfg, w, inp, order); InventoryOf(w'.disk, w'.rows, inp'.walk) == w'.rows
  {
    SecondStart(cfg, w, inp, order, inp', size);
    var w' := RunEffect(cfg, w, inp, order);
    forall p | p in Visited(inp'.walk) ensures p in w'.rows {
      NoStrangers(cfg, w, inp, order, inp', size, p);
    }
    assert Visited(inp'.walk) == w'.rows.Keys;
    InventoryIsRows(w', inp'.walk);
  }

  /** Main result: when the second run ranks the files as the first did, it downloads, moves
      and evicts nothing if and only if the first evicted no file of which another tier has a
      copy too. */
  lemma SecondRunIsIdle(cfg: Config, w: World, inp: RunInput, order: seq<Candidate>,
                        inp': RunInput, order': seq<Candidate>, size: Path -> nat)
    requires Repeats(cfg, w, inp, order, inp', order', size) && SameRanks(order, order')
    ensures AllIdle(order', cfg.limits) <==> NothingLeft(w.disk, Assign(order, cfg.limits))
    ensures var w' := RunEffect(cfg, w, inp, order);
            && ValidInput(cfg, w', inp')
            && var w'' := RunEffect(cfg, w', inp', order');
               NothingLeft(w.disk, Assign(order, cfg.limits)) ==> w''.disk == w'.disk && w''.rows == w'.rows
  {
    var w' := RunEffect(cfg, w, inp, order);
    SecondContinues(cfg, w, inp, order, inp', size);
    ContinuedIsIdle(order, CandidatesAt(cfg, w, inp), cfg.limits, w.disk, order', CandidatesAt(cfg, w', inp'));
    if NothingLeft(w.disk, Assign(order, cfg.limits)) {
      NextInventory(cfg, w, inp, order, inp', size);
      IdleRun(cfg, w', inp', order');
    }
  }

  /** Otherwise it evicts exactly the files of which such a copy was left, and does nothing else. */
  lemma SecondRunEvicts(cfg: Config, w: World, inp: RunInput, order: seq<Candidate>,
                        inp': RunInput, order': seq<Candidate>, size: Path -> nat, i: nat, j: nat)
    requires Repeats(cfg, w, inp, order, inp', order', size) && SameRanks(order, order')
    requires i < |order| && j < |order'| && order[i].path == order'[j].path
    ensures var a, a' := Assign(order, cfg.limits)[i], Assign(order', cfg.limits)[j];
            && (Idle(a') <==> !LeavesCopy(w.disk, a))
            && (!Idle(a') ==> a'.target == NONE && a'.file.local)
  {
    var cands' := CandidatesAt(cfg, RunEffect(cfg, w, inp, order), inp');
    SecondContinues(cfg, w, inp, order, inp', size);
    var k := ContinuedIdleAt(order, CandidatesAt(cfg, w, inp), cfg.limits, w.disk, order', cands', j);
    assert k == i;
  }

  // ---------- When the rank order is forced ----------

  ghost predicate Descends(ps: seq<Path>, score: Path -> real) {
    forall i, j :: 0 <= i < j < |ps| ==> score(ps[i]) > score(ps[j])
  }

  lemma {:induction false} KeepElements(ps: seq<Path>, s: set<Path>, p: Path)
    ensures p in KeepBy(ps, ps, s) <==> p in ps && p in s
  {
    if ps != [] {
      KeepElements(ps[1..], s, p);
    }
  }

  /** Elements that are kept keep their order. */
  lemma {:induction false} KeptInOrder(ps: seq<Path>, s: set<Path>, j: nat, k: nat) returns (i: nat, l: nat)
    requires j < k < |KeepBy(ps, ps, s)|
    ensures i < l < |ps| && ps[i] == KeepBy(ps, ps, s)[j] && ps[l] == KeepBy(ps, ps, s)[k]
  {
    if ps[0] in s && j == 0 {
      i := 0;
      l := KeptAt(ps[1..], ps[1..], s, k - 1);
    } else {
      var d := if ps[0] in s then 1 else 0;
      i, l := KeptInOrder(ps[1..], s, j - d, k - d);
      i := i + 1;
    }
    l := l + 1;
  }

  lemma KeepDescends(ps: seq<Path>, s: set<Path>, score: Path -> real)
    requires Descends(ps, score)
    ensures Descends(KeepBy(ps, ps, s), score)
  {
    var kept := KeepBy(ps, ps, s);
    forall j, k | 0 <= j < k < |kept| ensures score(kept[j]) > score(kept[k]) {
      var i, l := KeptInOrder(ps, s, j, k);
    }
  }

  lemma {:induction false} DescendingIsUnique(a: seq<Path>, b: seq<Path>, score: Path -> real)
    requires Descends(a, score) && Descends(b, score)
    requires forall p :: p in a <==> p in b
    ensures a == b
  {
    assert a != [] ==> a[0] in b;
    assert b != [] ==> b[0] in a;
    if a != [] {
      assert a[0] == b[0];
      forall p ensures p in a[1..] <==> p in b[1..] {
        assert p in a[1..] ==> p in b && p != a[0];
        assert p in b[1..] ==> p in a && p != b[0];
      }
      DescendingIsUnique(a[1..], b[1..], score);
      assert a == [a[0]] + a[1..] && b == [b[0]] + b[1..];
    }
  }

  lemma RanksAreForced(order: seq<Candidate>, order': seq<Candidate>)
    requires forall i, j :: 0 <= i < j < |order| ==> order[i].score > order[j].score
    requires forall i, j :: 0 <= i < j < |order'| ==>
               order'[i].score >= order'[j].score && order'[i].path != order'[j].path
    requires PathSet(order') <= PathSet(order)
    requires forall i, j :: 0 <= i < |order| && 0 <= j < |order'| && order[i].path == order'[j].path ==>
               order[i].score == order'[j].score
    requires forall i, j :: 0 <= i < j < |order| ==> order[i].path != order[j].path
    ensures SameRanks(order, order')
  {
    var score := (p: Path) => if p in PathSet(order) then order[IndexOf(order, p)].score else 0.0;
    forall i | 0 <= i < |order| ensures score(order[i].path) == order[i].score {
      assert Paths(order)[i] in PathSet(order);
    }
    forall j | 0 <= j < |order'| ensures exists i :: 0 <= i < |order| && order[i].path == order'[j].path {
      assert Paths(order')[j] in PathSet(order');
      assert order[IndexOf(order, order'[j].path)].path == order'[j].path;
    }
    KeepDescends(Paths(order), PathSet(order'), score);
    KeepDescends(Paths(order'), PathSet(order), score);
    forall p ensures p in KeepBy(Paths(order'), Paths(order'), PathSet(order)) <==>
                     p in KeepBy(Paths(order), Paths(order), PathSet(order')) {
      KeepElements(Paths(order'), PathSet(order), p);
      KeepElements(Paths(order), PathSet(order'), p);
    }
    DescendingIsUnique(KeepBy(Paths(order'), Paths(order'), PathSet(order)),
                       KeepBy(Paths(order), Paths(order), PathSet(order')), score);
  }

  function IndexOf(order: seq<Candidate>, p: Path): (i: nat)
    requires p in PathSet(order)
    ensures i < |order| && order[i].path == p
  {
    if order[0].path == p then 0
    else
      assert p in PathSet(order[1..]) by {
        var i :| 0 <= i < |order| && Paths(order)[i] == p;
        assert Paths(order[1..])[i - 1] == p;
      }
      IndexOf(order[1..], p) + 1
  }

  // ---------- There is always such an order ----------

  /** The candidates cands in the order that order lists their paths. */
  function SameOrder(order: seq<Candidate>, cands: map<Path, Candidate>): (order': seq<Candidate>)
    requires cands.Keys <= PathSet(order) && forall p :: p in cands ==> cands[p].path == p
    ensures Paths(order') == KeepBy(Paths(order), Paths(order), cands.Keys)
    ensures forall j :: 0 <= j < |order'| ==> order'[j].path in cands && order'[j] == cands[order'[j].path]
  {
    var kept := KeepBy(Paths(order), Paths(order), cands.Keys);
    assert forall j :: 0 <= j < |kept| ==> kept[j] in cands by {
      forall j | 0 <= j < |kept| ensures kept[j] in cands {
        KeepElements(Paths(order), cands.Keys, kept[j]);
      }
    }
    seq(|kept|, j requires 0 <= j < |kept| => cands[kept[j]])
  }

  lemma SameOrderRanks(order: seq<Candidate>, cands: map<Path, Candidate>, limits: seq<nat>, disk: Disk,
                       cands': map<Path, Candidate>)
    requires IsRanking(order, cands) && Continues(order, cands, limits, disk, cands') && cands'.Keys <= PathSet(order)
    ensures IsRanking(SameOrder(order, cands'), cands') && SameRanks(order, SameOrder(order, cands'))
  {
    var ps, s := Paths(order), cands'.Keys;
    var order' := SameOrder(order, cands');
    forall j, k | 0 <= j < k < |order'|
      ensures order'[j].path != order'[k].path && order'[j].score >= order'[k].score
    {
      var i, l := KeptInOrder(ps, s, j, k);
      assert Paths(order')[j] == order[i].path && Paths(order')[k] == order[l].path;
    }
    forall p ensures p in Paths(order') <==> p in s {
      KeepElements(ps, s, p);
      assert p in s ==> p in PathSet(order);
    }
    assert PathSet(order') == s;
    KeepAll(Paths(order'), PathSet(order));
  }

  /** Whatever the first run ranked, the second can rank its candidates alike, and is then idle
      under the same condition. */
  lemma SomeOrderIsIdle(cfg: Config, w: World, inp: RunInput, order: seq<Candidate>,
                        inp': RunInput, size: Path -> nat) returns (order': seq<Candidate>)
    requires Follows(cfg, w, inp, order, inp', size)
    ensures Repeats(cfg, w, inp, order, inp', order', size) && SameRanks(order, order')
    ensures AllIdle(order', cfg.limits) <==> NothingLeft(w.disk, Assign(order, cfg.limits))
  {
    var cands, cands' := CandidatesAt(cfg, w, inp), CandidatesAt(cfg, RunEffect(cfg, w, inp, order), inp');
    SecondContinues(cfg, w, inp, order, inp', size);
    PathsAreCandidates(order, cands);
    SameOrderRanks(order, cands, cfg.limits, w.disk, cands');
    order' := SameOrder(order, cands');
    ContinuedIsIdle(order, cands, cfg.limits, w.disk, order', cands');
  }

  /** With pairwise distinct scores the sort has no choice, and the condition is the
      same whatever the sort does. */
  lemma DistinctScoresIdle(cfg: Config, w: World, inp: RunInput, order: seq<Candidate>,
                           inp': RunInput, order': seq<Candidate>, size: Path -> nat)
    requires Repeats(cfg, w, inp, order, inp', order', size)
    requires forall i, j :: 0 <= i < j < |order| ==> order[i].score != order[j].score
    ensures AllIdle(order', cfg.limits) <==> NothingLeft(w.disk, Assign(order, cfg.limits))
  {
    var cands, cands' := CandidatesAt(cfg, w, inp), CandidatesAt(cfg, RunEffect(cfg, w, inp, order), inp');
    SecondContinues(cfg, w, inp, order, inp', size);
    PathsAreCandidates(order, cands);
    PathsAreCandidates(order', cands');
    RanksAreForced(order, order');
    ContinuedIsIdle(order, cands, cfg.limits, w.disk, order', cands');
  }
}

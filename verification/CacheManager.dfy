/** The cache run as the source executes it, step by step, against its specification. */
module CacheManager {
  import opened Wrappers
  import opened TierAssignment
  import opened Scoring
  import opened CacheModel
  import opened CacheCapacity
  import opened CacheRanking
  import opened SizeDb
  import opened Votes

  class Manager {
    const cfg: Config
    const db: SizeTables
    const votes: VoteTable
    var disk: Disk

    constructor (cfg: Config, db: SizeTables, votes: VoteTable, disk: Disk)
      ensures this.cfg == cfg && this.db == db && this.votes == votes && this.disk == disk
    {
      this.cfg, this.db, this.votes, this.disk := cfg, db, votes, disk;
    }

    ghost function State(): World
      reads this, db
    {
      World(disk, db.localSizes, db.remoteSizes)
    }

    // ---------- Phase A ----------

    /** What the walk does with one file; a file already seen in a hotter tier is skipped.
        rows is the table phase A started from. */
    method VisitFile(relPath: Path, tierIdx: nat, inventory: map<Path, LocalFile>, ghost rows: map<Path, LocalFile>)
      returns (after: map<Path, LocalFile>)
      requires tierIdx < |disk| && relPath in disk[tierIdx]
      requires db.localSizes == rows + inventory
      modifies db`localSizes
      ensures after == if relPath in inventory then inventory
                       else inventory[relPath := EntryFor(rows, relPath, disk[tierIdx][relPath], tierIdx)]
      ensures db.localSizes == rows + after
    {
      if relPath in inventory {
        return inventory;
      }
      if relPath in db.localSizes {
        return inventory[relPath := db.localSizes[relPath]];
      }
      var size := disk[tierIdx][relPath];
      db.SetLocalSize(relPath, size, tierIdx);
      return inventory[relPath := LocalFile(size, tierIdx)];
    }

    /** The walk of one tier, after the hotter ones. */
    method WalkTier(walk: seq<seq<Path>>, tierIdx: nat, start: map<Path, LocalFile>, ghost rows: map<Path, LocalFile>)
      returns (inventory: map<Path, LocalFile>)
      requires ValidWalk(walk, disk) && tierIdx < |walk|
      requires start == Restrict(InventoryOf(disk, rows, walk), Visited(walk[..tierIdx]))
      requires db.localSizes == rows + start
      modifies db`localSizes
      ensures inventory == Restrict(InventoryOf(disk, rows, walk), Visited(walk[..tierIdx + 1]))
      ensures db.localSizes == rows + inventory
    {
      inventory := start;
      ghost var full, seen := InventoryOf(disk, rows, walk), Visited(walk[..tierIdx]);
      for i := 0 to |walk[tierIdx]|
        invariant seen == Visited(walk[..tierIdx]) + Elements(walk[tierIdx][..i])
        invariant inventory == Restrict(full, seen) && db.localSizes == rows + inventory
      {
        var relPath := walk[tierIdx][i];
        VisitedNext(walk, tierIdx, i);
        VisitExtends(disk, rows, walk, tierIdx, i, seen);
        inventory := VisitFile(relPath, tierIdx, inventory, rows);
        seen := seen + {relPath};
      }
      VisitedTier(walk, tierIdx);
    }

    method InventoryLocal(walk: seq<seq<Path>>) returns (inventory: map<Path, LocalFile>)
      requires ValidWalk(walk, disk)
      modifies db`localSizes
      ensures inventory == InventoryOf(disk, old(db.localSizes), walk)
      ensures db.localSizes == old(db.localSizes) + inventory
    {
      inventory := map[];
      ghost var rows := db.localSizes;
      for tierIdx := 0 to |walk|
        invariant inventory == Restrict(InventoryOf(disk, rows, walk), Visited(walk[..tierIdx]))
        invariant db.localSizes == rows + inventory
      {
        inventory := WalkTier(walk, tierIdx, inventory, rows);
      }
      assert walk[..|walk|] == walk;
    }

    // ---------- Phase B ----------

    method ResolveRemoteSize(p: Path, head: Path -> HeadResult, clock: Path -> int) returns (r: HeadResult)
      modifies db`remoteSizes
      ensures p !in old(db.remoteSizes) ==> r == head(p)
      ensures p in old(db.remoteSizes) ==>
                r == match old(db.remoteSizes)[p].size { case None => NotFound case Some(n) => Found(n) }
      ensures r == Resolve(old(db.remoteSizes), head, p)
      ensures db.remoteSizes == RemoteAfter({p}, {}, old(db.remoteSizes), head, clock)
    {
      if p in db.remoteSizes {
        match db.remoteSizes[p].size
        case None => r := NotFound;
        case Some(n) => r := Found(n);
      } else {
        r := head(p);
        match r
        case HeadError =>
        case NotFound => db.SetRemoteSize(p, None, clock(p));
        case Found(n) => db.SetRemoteSize(p, Some(n), clock(p));
      }
    }

    method FindMissing(popular: seq<PopularFile>, inventory: map<Path, LocalFile>, head: Path -> HeadResult,
                       clock: Path -> int)
      returns (missing: seq<(Path, nat)>)
      requires DistinctPaths(popular)
      modifies db`remoteSizes
      ensures db.remoteSizes == RemoteAfter(PathsOf(popular), inventory.Keys, old(db.remoteSizes), head, clock)
      ensures ListsMap(missing,
                MissingOf(PathsOf(popular), inventory.Keys, old(db.remoteSizes), head, cfg.filesizeLimit))
    {
      missing := [];
      ghost var remote, inv := db.remoteSizes, inventory.Keys;
      ghost var seen: set<Path> := {};
      ghost var m: map<Path, nat> := map[];
      for i := 0 to |popular|
        invariant seen == PathsOf(popular[..i])
        invariant m == MissingOf(seen, inv, remote, head, cfg.filesizeLimit) && ListsMap(missing, m)
        invariant db.remoteSizes == RemoteAfter(seen, inv, remote, head, clock)
      {
        var p := popular[i].path;
        ResolveStep(seen, inv, remote, head, clock, p);
        MissingStep(seen, inv, remote, head, cfg.filesizeLimit, p);
        if p !in inventory {
          var r := ResolveRemoteSize(p, head, clock);
          if r.Found? && r.size <= cfg.filesizeLimit {
            ListsMapAppend(missing, m, p, r.size);
            missing := missing + [(p, r.size)];
            m := m[p := r.size];
          }
        }
        seen := seen + {p};
      }
      assert popular[..|popular|] == popular;
    }

    // ---------- Phase D, execution ----------

    method Download(io: Io, p: Path, t: nat) returns (ok: bool)
      requires t < |disk|
      modifies this`disk
      ensures ok <==> exists i :: 0 <= i < cfg.retries && io.fetch(p, i).Some?
      ensures |disk| == |old(disk)| && forall u :: 0 <= u < |disk| && u != t ==> disk[u] == old(disk)[u]
      ensures forall i :: 0 <= i < cfg.retries && io.fetch(p, i).Some?
                          && (forall j :: 0 <= j < i ==> io.fetch(p, j).None?) ==>
                disk[t] == old(disk)[t][p := io.fetch(p, i).value]
      ensures ok == Fetched(io, p, 0, cfg.retries).Some?
      ensures disk == if ok then Put(old(disk), t, p, Fetched(io, p, 0, cfg.retries).value) else old(disk)
    {
      ok := false;
      var attempt := 0;
      while attempt < cfg.retries
        invariant attempt <= cfg.retries && disk == old(disk) && !ok
        invariant forall j :: 0 <= j < attempt ==> io.fetch(p, j).None?
        invariant Fetched(io, p, 0, cfg.retries) == Fetched(io, p, attempt, cfg.retries)
      {
        var body := io.fetch(p, attempt);
        if body.Some? {
          disk := Put(disk, t, p, body.value);
          ok := true;
          return;
        }
        attempt := attempt + 1;
      }
    }

    method MoveFile(p: Path, src: nat, dst: nat, io: MoveIo) returns (ok: bool)
      requires src < |disk| && dst < |disk|
      modifies this`disk
      ensures ok <==> io.mkdirOk && p in old(disk)[src] && (io.renameOk || (io.copyOk && io.removeOk))
      ensures |disk| == |old(disk)|
      ensures io.mkdirOk && p in old(disk)[src] && (io.renameOk || io.copyOk) && src != dst ==>
                p in disk[dst] && disk[dst][p] == old(disk)[src][p] && (p !in disk[src] <==> ok)
      ensures !(io.mkdirOk && p in old(disk)[src] && (io.renameOk || io.copyOk)) ==> disk == old(disk)
      ensures forall u, q :: 0 <= u < |disk| && !(q == p && (u == src || u == dst)) ==>
                (q in disk[u] <==> q in old(disk)[u]) && (q in disk[u] ==> disk[u][q] == old(disk)[u][q])
      ensures ok == MoveOk(old(disk), p, src, io)
      ensures disk == MoveDisk(old(disk), p, src, dst, io)
    {
      if !io.mkdirOk || p !in disk[src] {
        return false;
      }
      if io.renameOk {
        disk := Drop(Put(disk, dst, p, disk[src][p]), src, p);
        return true;
      }
      if !io.copyOk {
        return false;
      }
      disk := Put(disk, dst, p, disk[src][p]);
      if !io.removeOk {
        return false;
      }
      disk := Drop(disk, src, p);
      return true;
    }

    method ExecutePlan(io: Io, plan: seq<Assignment>, start: map<Path, LocalFile>)
      returns (inventory: map<Path, LocalFile>, downloadErrors: nat)
      requires AllPlaced(plan, |disk|)
      modifies this`disk, db`localSizes
      ensures |disk| == |old(disk)|
      ensures Exec(disk, db.localSizes, inventory, downloadErrors)
              == Execute(cfg, io, Exec(old(disk), old(db.localSizes), start, 0), plan)
    {
      inventory, downloadErrors := start, 0;
      ghost var whole := Execute(cfg, io, Exec(disk, db.localSizes, start, 0), plan);
      for i := 0 to |plan|
        invariant |disk| == |old(disk)|
        invariant Execute(cfg, io, Exec(disk, db.localSizes, inventory, downloadErrors), plan[i..]) == whole
      {
        if downloadErrors >= cfg.errorThreshold {
          return;
        }
        ghost var before := Exec(disk, db.localSizes, inventory, downloadErrors);
        var a := plan[i];
        assert plan[i..][0] == a && plan[i..][1..] == plan[i + 1..];
        if a.target == NONE {
          if a.file.local {
            if io.remove(a.file.path) {
              disk := Drop(disk, a.file.tier, a.file.path);
            }
            db.DeleteLocalSize(a.file.path);
            inventory := inventory - {a.file.path};
          }
        } else if !a.file.local {
          var ok := Download(io, a.file.path, a.target);
          if ok {
            inventory := inventory[a.file.path := LocalFile(a.file.size, a.target)];
            db.SetLocalSize(a.file.path, a.file.size, a.target);
          } else {
            downloadErrors := downloadErrors + 1;
          }
        } else if a.file.tier != a.target {
          var ok := MoveFile(a.file.path, a.file.tier, a.target, io.move(a.file.path));
          if ok {
            inventory := inventory[a.file.path := LocalFile(a.file.size, a.target)];
            db.UpdateLocalSizeTier(a.file.path, a.target);
          }
        }
        assert Exec(disk, db.localSizes, inventory, downloadErrors) == ExecOne(io, cfg.retries, before, a);
      }
    }

    // ---------- The run ----------

    /** Phases B and C of a run from w. */
    method Rank(inp: RunInput, inventory: map<Path, LocalFile>, ghost w: World) returns (ranked: seq<Candidate>)
      requires ValidInput(cfg, w, inp) && inp.popular.Some?
      requires inventory == InventoryOf(w.disk, w.rows, inp.walk) && db.remoteSizes == w.remote
      modifies db`remoteSizes
      ensures db.remoteSizes == RemoteAt(w, inp)
      ensures IsRanking(ranked, CandidatesAt(cfg, w, inp))
    {
      ghost var m := MissingOf(PathsOf(inp.popular.value), inventory.Keys, w.remote, inp.head, cfg.filesizeLimit);
      var votes := CountVotes(inp.popular.value);
      var missing := FindMissing(inp.popular.value, inventory, inp.head, inp.clock);
      var all := BuildCandidates(inventory, missing, votes, m);
      ranked := SortByScore(all, CandidatesOf(inventory, m, votes));
    }

    method Place(ranked: seq<Candidate>) returns (plan: seq<Assignment>)
      ensures plan == Assign(ranked, cfg.limits)
    {
      var placement, _ := AssignTiers(Sizes(ranked), cfg.limits);
      var targets := placement[..];
      plan := seq(|ranked|, i requires 0 <= i < |ranked| => Assignment(ranked[i], targets[i]));
    }

    /** Both passes of phase D. */
    method Fill(io: Io, ranked: seq<Candidate>, start: map<Path, LocalFile>)
      returns (inventory: map<Path, LocalFile>, ghost errors: nat)
      requires AllPlaced(Assign(ranked, cfg.limits), |disk|)
      modifies this`disk, db`localSizes
      ensures |disk| == |old(disk)|
      ensures Exec(disk, db.localSizes, inventory, errors)
              == Execute(cfg, io, Exec(old(disk), old(db.localSizes), start, 0), Assign(ranked, cfg.limits))
    {
      var plan := Place(ranked);
      inventory, errors := ExecutePlan(io, plan, start);
    }

    /** Phase E; ok is false when the lifetime of remote sizes does not parse. */
    method Clean(inventory: map<Path, LocalFile>, ttl: Option<nat>, end: int, ghost errors: nat) returns (ok: bool)
      modifies db
      ensures ok == ttl.Some?
      ensures State() == Finish(Exec(disk, old(db.localSizes), inventory, errors), old(db.remoteSizes), ttl, end)
    {
      if ttl.None? {
        return false;
      }
      db.CleanRemoteSizes(end - ttl.value);
      db.CleanLocalSizes(inventory.Keys);
      return true;
    }

    /** Phases B to E of a run from w, whose phase A found inventory. */
    method Update(inp: RunInput, inventory: map<Path, LocalFile>, votesBefore: int, ghost w: World)
      returns (ok: bool, ghost order: seq<Candidate>)
      requires ValidInput(cfg, w, inp) && inp.popular.Some?
      requires disk == w.disk && db.remoteSizes == w.remote
      requires Exec(disk, db.localSizes, inventory, 0) == Started(w, inp)
      modifies this`disk, db, votes
      ensures ok == RunOk(inp) && votes.votes == VotesFrom(old(votes.votes), votesBefore)
      ensures IsRanking(order, CandidatesAt(cfg, w, inp)) && State() == RunEffect(cfg, w, inp, order)
    {
      var ranked := Rank(inp, inventory, w);
      order := ranked;
      PlanIsPlaced(cfg, w, inp, order);
      var kept, errors := Fill(inp.io, ranked, inventory);
      assert Exec(disk, db.localSizes, kept, errors) == Executed(cfg, w, inp, order);
      votes.DeleteOldVotes(votesBefore);
      ok := Clean(kept, inp.ttl, inp.end, errors);
    }

    /** ok is false where the source returns an error; inp is what the run meets, with the answer
        of its popularity query, and order what its sort chooses. Votes older than
        req.votesBefore are deleted by any run that gets to phase E. */
    method Run(req: Request) returns (ok: bool, ghost inp: RunInput, ghost order: seq<Candidate>)
      requires InRange(cfg, State()) && ValidWalk(req.walk, disk)
      modifies this`disk, db, votes
      ensures inp == InputOf(req, inp.popular) && ValidInput(cfg, old(State()), inp)
      ensures inp.popular.Some? <==> req.since.Some? && req.queryOk
      ensures inp.popular.Some? ==> Answers(inp.popular.value, old(votes.votes), req.since.value, req.minVotes)
      ensures ok == RunOk(inp)
      ensures votes.votes ==
              if inp.popular.Some? then VotesFrom(old(votes.votes), req.votesBefore) else old(votes.votes)
      ensures inp.popular.Some? ==> IsRanking(order, CandidatesAt(cfg, old(State()), inp))
      ensures inp.popular.Some? ==> forall i :: 0 <= i < |order| ==>
                ScoredByCount(order[i], old(votes.votes), req.since.value, req.minVotes)
      ensures State() == RunEffect(cfg, old(State()), inp, order)
    {
      ghost var w, table := State(), votes.votes;
      var inventory := InventoryLocal(req.walk);
      if req.since.None? || !req.queryOk {
        return false, InputOf(req, None), [];
      }
      var popular := votes.QueryPopular(req.since.value, req.minVotes);
      var known := InputOf(req, Some(popular));
      inp := known;
      ok, order := Update(known, inventory, req.votesBefore, w);
      forall i | 0 <= i < |order| ensures ScoredByCount(order[i], table, req.since.value, req.minVotes) {
        ScoresAreCounts(cfg, w, inp, order, i, table, req.since.value, req.minVotes);
      }
    }
  }

  /** What a run is given: since is None when the vote window does not parse, and queryOk says
      whether the popularity query succeeds. */
  datatype Request = Request(
    walk: seq<seq<Path>>, since: Option<int>, queryOk: bool, minVotes: int, head: Path -> HeadResult,
    io: Io, ttl: Option<nat>, clock: Path -> int, end: int, votesBefore: int)

  function InputOf(req: Request, popular: Option<seq<PopularFile>>): RunInput {
    RunInput(req.walk, popular, req.head, req.io, req.ttl, req.clock, req.end)
  }

  /** A file that a run brings to the disk has the votes it takes, in the table and in the vote
      window, is within the file size limit, and is in the tier the plan gave it. */
  lemma NewFilesHadVotes(cfg: Config, w: World, req: Request, popular: seq<PopularFile>, table: set<Vote>,
                         order: seq<Candidate>, p: Path, t: nat)
    requires var inp := InputOf(req, Some(popular));
             ValidInput(cfg, w, inp) && IsRanking(order, CandidatesAt(cfg, w, inp))
    requires req.since.Some? && Answers(popular, table, req.since.value, req.minVotes)
    requires t < |w.disk| && p in Executed(cfg, w, InputOf(req, Some(popular)), order).disk[t]
    requires forall u :: 0 <= u < |w.disk| ==> p !in w.disk[u]
    ensures |set v | v in table && v.file == p && v.at >= req.since.value| >= req.minVotes
    ensures Resolve(w.remote, req.head, p).Found? && Resolve(w.remote, req.head, p).size <= cfg.filesizeLimit
    ensures exists i :: 0 <= i < |order| && order[i].path == p && Assign(order, cfg.limits)[i].target == t
  {
    NewFilesWereWanted(cfg, w, InputOf(req, Some(popular)), order, p, t);
    AnsweredVotes(popular, table, req.since.value, req.minVotes, p);
  }

  // ---------- Phase A: what has been walked ----------

  function Elements(s: seq<Path>): set<Path> {
    set p | p in s
  }

  lemma VisitedNext(walk: seq<seq<Path>>, t: nat, i: nat)
    requires t < |walk| && i < |walk[t]|
    ensures walk[t][i] in Visited(walk)
    ensures walk[t][i] !in Visited(walk[..t]) ==> Hottest(walk, walk[t][i]) == t
    ensures Elements(walk[t][..i + 1]) == Elements(walk[t][..i]) + {walk[t][i]}
  {
    assert walk[t][..i + 1] == walk[t][..i] + [walk[t][i]];
    assert walk[t][i] in walk[t];
    var h := Hottest(walk, walk[t][i]);
    if t < h {
      NoneHotter(walk, walk[t][i], t);
    }
    assert h < t ==> walk[..t][h] == walk[h];
  }

  /** Visiting a file extends the inventory to what the files seen so far specify. */
  lemma VisitExtends(disk: Disk, rows: map<Path, LocalFile>, walk: seq<seq<Path>>, t: nat, i: nat, seen: set<Path>)
    requires ValidWalk(walk, disk) && t < |walk| && i < |walk[t]|
    requires walk[t][i] in Visited(walk[..t]) ==> walk[t][i] in seen
    ensures var full, p := InventoryOf(disk, rows, walk), walk[t][i];
            var inv := Restrict(full, seen);
            Restrict(full, seen + {p}) == if p in inv then inv else inv[p := EntryFor(rows, p, disk[t][p], t)]
  {
    var full, p := InventoryOf(disk, rows, walk), walk[t][i];
    VisitedNext(walk, t, i);
    if p in seen {
      assert seen + {p} == seen;
    } else {
    }
  }

  lemma VisitedTier(walk: seq<seq<Path>>, t: nat)
    requires t < |walk|
    ensures Visited(walk[..t + 1]) == Visited(walk[..t]) + Elements(walk[t])
    ensures walk[t][..|walk[t]|] == walk[t]
  {
    assert walk[..t + 1] == walk[..t] + [walk[t]];
    assert walk[..t + 1][t] == walk[t];
    assert forall u :: 0 <= u < t ==> walk[..t + 1][u] == walk[..t][u];
  }

  // ---------- Phases B and C on values ----------

  /** missing lists the entries of m, each once. */
  ghost predicate ListsMap(missing: seq<(Path, nat)>, m: map<Path, nat>) {
    && (forall i, j :: 0 <= i < j < |missing| ==> missing[i].0 != missing[j].0)
    && (forall i :: 0 <= i < |missing| ==> missing[i].0 in m && m[missing[i].0] == missing[i].1)
    && (forall p :: p in m ==> (p, m[p]) in missing)
  }

  lemma ListsMapAppend(missing: seq<(Path, nat)>, m: map<Path, nat>, p: Path, size: nat)
    requires ListsMap(missing, m) && p !in m
    ensures ListsMap(missing + [(p, size)], m[p := size])
  {
    var after := missing + [(p, size)];
    assert after[|missing|] == (p, size);
    forall q | q in m ensures (q, m[q]) in after {
      assert (q, m[q]) in missing;
    }
  }

  /** Resolving the popular files one at a time, each against the table the previous left. */
  lemma ResolveStep(seen: set<Path>, inv: set<Path>, remote: map<Path, RemoteRow>, head: Path -> HeadResult,
                    clock: Path -> int, p: Path)
    requires p !in seen
    ensures var table := RemoteAfter(seen, inv, remote, head, clock);
            && Resolve(table, head, p) == Resolve(remote, head, p)
            && RemoteAfter(seen + {p}, inv, remote, head, clock)
               == (if p in inv then table else RemoteAfter({p}, {}, table, head, clock))
  {
    var table, after := RemoteAfter(seen, inv, remote, head, clock), RemoteAfter(seen + {p}, inv, remote, head, clock);
    assert p in table <==> p in remote;
    var step := RemoteAfter({p}, {}, table, head, clock);
    if p !in inv {
      assert after.Keys == step.Keys;
      forall q | q in after ensures after[q] == step[q] {
      }
    } else {
      assert after.Keys == table.Keys;
      forall q | q in after ensures after[q] == table[q] {
      }
    }
  }

  lemma MissingStep(seen: set<Path>, inv: set<Path>, remote: map<Path, RemoteRow>, head: Path -> HeadResult,
                    limit: nat, p: Path)
    requires p !in seen
    ensures var m, r := MissingOf(seen, inv, remote, head, limit), Resolve(remote, head, p);
            && p !in m
            && MissingOf(seen + {p}, inv, remote, head, limit)
               == if p !in inv && r.Found? && r.size <= limit then m[p := r.size] else m
  {
    var m, after := MissingOf(seen, inv, remote, head, limit), MissingOf(seen + {p}, inv, remote, head, limit);
    forall q | q != p ensures q in after <==> q in m {
    }
  }

  method CountVotes(popular: seq<PopularFile>) returns (votes: map<Path, nat>)
    ensures votes == VotesOf(popular)
  {
    votes := map[];
    for i := 0 to |popular|
      invariant votes == VotesOf(popular[..i])
    {
      assert popular[..i + 1][..i] == popular[..i];
      votes := votes[popular[i].path := popular[i].votes];
    }
    assert popular[..|popular|] == popular;
  }

  lemma ListsAppend(all: seq<Candidate>, cands: map<Path, Candidate>, keys: set<Path>, p: Path)
    requires Lists(all, Restrict(cands, keys)) && p in cands && p !in keys && cands[p].path == p
    ensures Lists(all + [cands[p]], Restrict(cands, keys + {p}))
  {
    var after := all + [cands[p]];
    assert Paths(after) == Paths(all) + [p];
    forall q | q in Restrict(cands, keys + {p}) ensures q in Paths(after) {
      if q == p {
        assert Paths(after)[|all|] == p;
      } else {
        assert q in Restrict(cands, keys);
        assert q in Paths(all);
      }
    }
  }

  method BuildCandidates(inventory: map<Path, LocalFile>, missing: seq<(Path, nat)>, votes: map<Path, nat>,
                         ghost m: map<Path, nat>) returns (all: seq<Candidate>)
    requires ListsMap(missing, m) && m.Keys !! inventory.Keys
    ensures Lists(all, CandidatesOf(inventory, m, votes))
  {
    all := AddLocal(inventory, votes, m);
    ghost var cands := CandidatesOf(inventory, m, votes);
    ghost var listed := inventory.Keys;
    for i := 0 to |missing|
      invariant forall k :: i <= k < |missing| ==> missing[k].0 !in listed
      invariant forall k :: 0 <= k < i ==> missing[k].0 in listed
      invariant inventory.Keys <= listed && Lists(all, Restrict(cands, listed))
    {
      var (p, size) := missing[i];
      ListsAppend(all, cands, listed, p);
      all := all + [Candidate(p, size, Score(VoteCount(votes, p), size), false, -1)];
      listed := listed + {p};
    }
  }

  /** The candidates the inventory gives, in any order. */
  method AddLocal(inventory: map<Path, LocalFile>, votes: map<Path, nat>, ghost m: map<Path, nat>)
    returns (all: seq<Candidate>)
    ensures Lists(all, Restrict(CandidatesOf(inventory, m, votes), inventory.Keys))
  {
    all := [];
    ghost var cands := CandidatesOf(inventory, m, votes);
    var unread := inventory.Keys;
    while unread != {}
      invariant unread <= inventory.Keys && Lists(all, Restrict(cands, inventory.Keys - unread))
    {
      var p :| p in unread;
      ListsAppend(all, cands, inventory.Keys - unread, p);
      assert inventory.Keys - unread + {p} == inventory.Keys - (unread - {p});
      var lf := inventory[p];
      all := all + [Candidate(p, lf.size, Score(VoteCount(votes, p), lf.size), true, lf.tier)];
      unread := unread - {p};
    }
  }

  lemma {:induction false} SomeMaximum(cs: seq<Candidate>) returns (k: nat)
    requires cs != []
    ensures k < |cs| && forall j :: 0 <= j < |cs| ==> cs[j].score <= cs[k].score
  {
    if |cs| == 1 {
      k := 0;
    } else {
      k := SomeMaximum(cs[1..]);
      assert forall j :: 1 <= j < |cs| ==> cs[j] == cs[1..][j - 1];
      k := if cs[k + 1].score >= cs[0].score then k + 1 else 0;
    }
  }

  lemma PathsRemove(rest: seq<Candidate>, k: nat, p: Path)
    requires k < |rest| && p in Paths(rest) && p != rest[k].path
    ensures p in Paths(rest[..k] + rest[k + 1..])
  {
    var after := rest[..k] + rest[k + 1..];
    var i :| 0 <= i < |rest| && Paths(rest)[i] == p;
    assert after[if i < k then i else i - 1] == rest[i];
    assert Paths(after)[if i < k then i else i - 1] == p;
  }

  lemma ListsRemove(rest: seq<Candidate>, cands: map<Path, Candidate>, keys: set<Path>, k: nat)
    requires k < |rest| && Lists(rest, Restrict(cands, keys))
    ensures Lists(rest[..k] + rest[k + 1..], Restrict(cands, keys - {rest[k].path}))
  {
    var after := rest[..k] + rest[k + 1..];
    assert forall i :: 0 <= i < |after| ==> after[i] == rest[if i < k then i else i + 1];
    forall p | p in Restrict(cands, keys - {rest[k].path}) ensures p in Paths(after) {
      assert p in Restrict(cands, keys);
      PathsRemove(rest, k, p);
    }
  }

  ghost predicate Falling(sorted: seq<Candidate>) {
    forall i, j :: 0 <= i < j < |sorted| ==> sorted[i].score >= sorted[j].score
  }

  ghost predicate AllAbove(sorted: seq<Candidate>, rest: seq<Candidate>) {
    forall i, j :: 0 <= i < |sorted| && 0 <= j < |rest| ==> sorted[i].score >= rest[j].score
  }

  /** A candidate goes from the unsorted list to the end of the sorted one. */
  lemma ListsMove(sorted: seq<Candidate>, rest: seq<Candidate>, cands: map<Path, Candidate>, keys: set<Path>, k: nat)
    requires keys <= cands.Keys && k < |rest|
    requires Lists(rest, Restrict(cands, keys)) && Lists(sorted, Restrict(cands, cands.Keys - keys))
    ensures Lists(rest[..k] + rest[k + 1..], Restrict(cands, keys - {rest[k].path}))
    ensures Lists(sorted + [rest[k]], Restrict(cands, cands.Keys - (keys - {rest[k].path})))
  {
    var p := rest[k].path;
    ListsRemove(rest, cands, keys, k);
    ListsAppend(sorted, cands, cands.Keys - keys, p);
    assert cands.Keys - keys + {p} == cands.Keys - (keys - {p});
  }

  /** Highest score first; which of several equal scores comes first is left open, as it
      is by the source's unstable sort over a map's iteration order. */
  method SortByScore(all: seq<Candidate>, ghost cands: map<Path, Candidate>) returns (sorted: seq<Candidate>)
    requires Lists(all, cands)
    ensures IsRanking(sorted, cands)
  {
    sorted := [];
    var rest := all;
    ghost var keys := cands.Keys;
    assert Restrict(cands, keys) == cands;
    while rest != []
      invariant keys <= cands.Keys
      invariant Lists(rest, Restrict(cands, keys)) && Lists(sorted, Restrict(cands, cands.Keys - keys))
      invariant Falling(sorted) && AllAbove(sorted, rest)
      decreases |rest|
    {
      ghost var _ := SomeMaximum(rest);
      var k :| 0 <= k < |rest| && forall j :: 0 <= j < |rest| ==> rest[j].score <= rest[k].score;
      ListsMove(sorted, rest, cands, keys, k);
      keys := keys - {rest[k].path};
      sorted := sorted + [rest[k]];
      rest := rest[..k] + rest[k + 1..];
    }
    NothingListed(cands, keys);
  }

  lemma NothingListed(cands: map<Path, Candidate>, keys: set<Path>)
    requires keys <= cands.Keys && Lists([], Restrict(cands, keys))
    ensures Restrict(cands, cands.Keys - keys) == cands
  {
    assert forall p :: p in Restrict(cands, keys) ==> p in Paths([]);
    assert forall p :: p in keys ==> p in Restrict(cands, keys);
  }
}

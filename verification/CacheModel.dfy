/** What one cache run does, as functions of the state it starts from and of the
    outcomes of its disk and network actions (syncer/cache.go, db/sizedb.go). */
module CacheModel {
  import opened Wrappers
  import opened TierAssignment
  import opened Scoring

  type Path = string

  /** For every tier, hottest first, the complete files in its directory with their sizes. */
  type Disk = seq<map<Path, nat>>

  /** An inventory entry, and a row of the local_sizes table. */
  datatype LocalFile = LocalFile(size: nat, tier: nat)

  /** A row of the remote_sizes table; None records a 404. */
  datatype RemoteRow = RemoteRow(size: Option<nat>, recordedAt: int)

  datatype PopularFile = PopularFile(path: Path, votes: nat)
  datatype Candidate = Candidate(path: Path, size: nat, score: real, local: bool, tier: int)
  datatype Assignment = Assignment(file: Candidate, target: int)

  datatype Config = Config(limits: seq<nat>, filesizeLimit: nat, retries: nat, errorThreshold: int)

  /** What survives from one run to the next. */
  datatype World = World(disk: Disk, rows: map<Path, LocalFile>, remote: map<Path, RemoteRow>)

  // ---------- Outcomes of actions outside the program ----------

  datatype HeadResult = HeadError | NotFound | Found(size: nat)

  /** The outcomes of the system calls one move may make. */
  datatype MoveIo = MoveIo(mkdirOk: bool, renameOk: bool, copyOk: bool, removeOk: bool)

  /** fetch(p, i) is the number of bytes attempt i at downloading p leaves in place, if it succeeds. */
  datatype Io = Io(remove: Path -> bool, fetch: (Path, nat) -> Option<nat>, move: Path -> MoveIo)

  /** popular is None when the vote window does not parse or the query fails;
      ttl is None when the remote-size lifetime does not parse. clock(p) is the time at which
      p's HEAD answer is recorded, end the time phase E reads. */
  datatype RunInput = RunInput(
    walk: seq<seq<Path>>, popular: Option<seq<PopularFile>>, head: Path -> HeadResult,
    io: Io, ttl: Option<nat>, clock: Path -> int, end: int)

  // ---------- Phase A: inventory ----------

  ghost predicate ValidWalk(walk: seq<seq<Path>>, disk: Disk) {
    |walk| == |disk| && forall t, p :: 0 <= t < |walk| && p in walk[t] ==> p in disk[t]
  }

  ghost predicate CompleteWalk(walk: seq<seq<Path>>, disk: Disk) {
    ValidWalk(walk, disk) && forall t, p :: 0 <= t < |disk| && p in disk[t] ==> p in walk[t]
  }

  function Visited(walk: seq<seq<Path>>): set<Path> {
    set t, p | 0 <= t < |walk| && p in walk[t] :: p
  }

  /** The first tier whose walk lists p. */
  function Hottest(walk: seq<seq<Path>>, p: Path): (t: nat)
    requires p in Visited(walk)
    ensures t < |walk| && p in walk[t]
  {
    if p in walk[0] then 0
    else
      assert p in Visited(walk[1..]) by {
        var t :| 0 <= t < |walk| && p in walk[t];
        assert p in walk[1..][t - 1];
      }
      Hottest(walk[1..], p) + 1
  }

  lemma {:induction false} NoneHotter(walk: seq<seq<Path>>, p: Path, u: nat)
    requires p in Visited(walk) && u < Hottest(walk, p)
    ensures p !in walk[u]
  {
    if u > 0 {
      assert walk[1..][Hottest(walk, p) - 1] == walk[Hottest(walk, p)];
      NoneHotter(walk[1..], p, u - 1);
    }
  }

  /** The inventory entry of a file first seen in tier t: a file that has a row keeps it, tier included. */
  function EntryFor(rows: map<Path, LocalFile>, p: Path, size: nat, t: nat): LocalFile {
    if p in rows then rows[p] else LocalFile(size, t)
  }

  function InventoryOf(disk: Disk, rows: map<Path, LocalFile>, walk: seq<seq<Path>>): map<Path, LocalFile>
    requires ValidWalk(walk, disk)
  {
    map p | p in Visited(walk) :: EntryFor(rows, p, disk[Hottest(walk, p)][p], Hottest(walk, p))
  }

  // ---------- Phase B: popular files that are not local ----------

  function PathsOf(popular: seq<PopularFile>): set<Path> {
    set pf | pf in popular :: pf.path
  }

  ghost predicate DistinctPaths(popular: seq<PopularFile>) {
    forall i, j :: 0 <= i < j < |popular| ==> popular[i].path != popular[j].path
  }

  function VotesOf(popular: seq<PopularFile>): map<Path, nat> {
    if popular == [] then map[]
    else VotesOf(popular[..|popular| - 1])[popular[|popular| - 1].path := popular[|popular| - 1].votes]
  }

  function Resolve(remote: map<Path, RemoteRow>, head: Path -> HeadResult, p: Path): HeadResult {
    if p in remote then
      match remote[p].size
      case None => NotFound
      case Some(n) => Found(n)
    else head(p)
  }

  predicate IsMissing(popular: set<Path>, inventory: set<Path>, r: HeadResult, limit: nat, p: Path) {
    p in popular && p !in inventory && r.Found? && r.size <= limit
  }

  function MissingOf(popular: set<Path>, inventory: set<Path>, remote: map<Path, RemoteRow>,
                     head: Path -> HeadResult, limit: nat): map<Path, nat> {
    map p | p in popular && IsMissing(popular, inventory, Resolve(remote, head, p), limit, p) ::
      Resolve(remote, head, p).size
  }

  /** Every HEAD answer is recorded, a 404 as a row without a size; errors are not. */
  function RemoteAfter(popular: set<Path>, inventory: set<Path>, remote: map<Path, RemoteRow>,
                       head: Path -> HeadResult, clock: Path -> int): map<Path, RemoteRow> {
    remote + map p | p in popular && p !in inventory && p !in remote && !head(p).HeadError? ::
      RemoteRow(if head(p).Found? then Some(head(p).size) else None, clock(p))
  }

  // ---------- Phase C: candidates and their order ----------

  function VoteCount(votes: map<Path, nat>, p: Path): nat {
    if p in votes then votes[p] else 0
  }

  function CandidatesOf(inventory: map<Path, LocalFile>, missing: map<Path, nat>, votes: map<Path, nat>)
      : map<Path, Candidate> {
    map p | p in inventory.Keys + missing.Keys ::
      if p in inventory
      then Candidate(p, inventory[p].size, Score(VoteCount(votes, p), inventory[p].size), true, inventory[p].tier)
      else Candidate(p, missing[p], Score(VoteCount(votes, p), missing[p]), false, -1)
  }

  function Paths(order: seq<Candidate>): (ps: seq<Path>)
    ensures |ps| == |order| && forall i :: 0 <= i < |order| ==> ps[i] == order[i].path
  {
    seq(|order|, i requires 0 <= i < |order| => order[i].path)
  }

  /** order lists every candidate exactly once. */
  ghost predicate Lists(order: seq<Candidate>, cands: map<Path, Candidate>) {
    && (forall i, j :: 0 <= i < j < |order| ==> order[i].path != order[j].path)
    && (forall i :: 0 <= i < |order| ==> order[i].path in cands && order[i] == cands[order[i].path])
    && (forall p {:trigger p in Paths(order)} :: p in cands ==> p in Paths(order))
  }

  /** .. and by descending score, ties in any order. */
  ghost predicate IsRanking(order: seq<Candidate>, cands: map<Path, Candidate>) {
    Lists(order, cands) && forall i, j :: 0 <= i < j < |order| ==> order[i].score >= order[j].score
  }

  // ---------- Phase D: assignment and execution ----------

  function Sizes(order: seq<Candidate>): (sizes: seq<nat>)
    ensures |sizes| == |order| && forall i :: 0 <= i < |order| ==> sizes[i] == order[i].size
  {
    seq(|order|, i requires 0 <= i < |order| => order[i].size)
  }

  function Assign(order: seq<Candidate>, limits: seq<nat>): (plan: seq<Assignment>)
    ensures |plan| == |order|
    ensures forall i :: 0 <= i < |order| ==> plan[i] == Assignment(order[i], FirstFit(Sizes(order), limits)[i])
  {
    seq(|order|, i requires 0 <= i < |order| => Assignment(order[i], FirstFit(Sizes(order), limits)[i]))
  }

  /** The state the execution loop works on. */
  datatype Exec = Exec(disk: Disk, rows: map<Path, LocalFile>, inventory: map<Path, LocalFile>, errors: nat)

  /** The bytes left by the first of the attempts from, .., retries - 1 that succeeds. */
  function Fetched(io: Io, p: Path, from: nat, retries: nat): Option<nat>
    decreases retries - from
  {
    if from >= retries then None
    else if io.fetch(p, from).Some? then io.fetch(p, from)
    else Fetched(io, p, from + 1, retries)
  }

  function Put(disk: Disk, t: nat, p: Path, size: nat): Disk
    requires t < |disk|
  {
    var files: map<Path, nat> := disk[t][p := size];
    disk[t := files]
  }

  function Drop(disk: Disk, t: nat, p: Path): Disk
    requires t < |disk|
  {
    disk[t := disk[t] - {p}]
  }

  predicate CanMove(disk: Disk, p: Path, src: nat, io: MoveIo)
    requires src < |disk|
  {
    io.mkdirOk && p in disk[src] && (io.renameOk || io.copyOk)
  }

  /** A rename, or a copy whose source may fail to go away. */
  function MoveDisk(disk: Disk, p: Path, src: nat, dst: nat, io: MoveIo): (after: Disk)
    requires src < |disk| && dst < |disk|
    ensures |after| == |disk|
  {
    if !CanMove(disk, p, src, io) then disk
    else
      var copied := Put(disk, dst, p, disk[src][p]);
      if io.renameOk || io.removeOk then Drop(copied, src, p) else copied
  }

  predicate MoveOk(disk: Disk, p: Path, src: nat, io: MoveIo)
    requires src < |disk|
  {
    CanMove(disk, p, src, io) && (io.renameOk || io.removeOk)
  }

  predicate WellPlaced(a: Assignment, tiers: nat) {
    && (a.target == NONE || 0 <= a.target < tiers)
    && (a.file.local ==> 0 <= a.file.tier < tiers)
  }

  function Evict(io: Io, e: Exec, c: Candidate): Exec
    requires 0 <= c.tier < |e.disk|
  {
    Exec(if io.remove(c.path) then Drop(e.disk, c.tier, c.path) else e.disk,
         e.rows - {c.path}, e.inventory - {c.path}, e.errors)
  }

  function Fetch(io: Io, retries: nat, e: Exec, c: Candidate, t: nat): Exec
    requires t < |e.disk|
  {
    var body := Fetched(io, c.path, 0, retries);
    if body.None? then e.(errors := e.errors + 1)
    else
      Exec(Put(e.disk, t, c.path, body.value),
           e.rows[c.path := LocalFile(c.size, t)], e.inventory[c.path := LocalFile(c.size, t)], e.errors)
  }

  function Relocate(io: Io, e: Exec, c: Candidate, t: nat): Exec
    requires 0 <= c.tier < |e.disk| && t < |e.disk|
  {
    var disk := MoveDisk(e.disk, c.path, c.tier, t, io.move(c.path));
    if !MoveOk(e.disk, c.path, c.tier, io.move(c.path)) then e.(disk := disk)
    else
      Exec(disk, if c.path in e.rows then e.rows[c.path := e.rows[c.path].(tier := t)] else e.rows,
           e.inventory[c.path := LocalFile(c.size, t)], e.errors)
  }

  /** One iteration of the execution loop. */
  function ExecOne(io: Io, retries: nat, e: Exec, a: Assignment): (after: Exec)
    requires WellPlaced(a, |e.disk|)
    ensures |after.disk| == |e.disk|
  {
    if a.target == NONE then (if a.file.local then Evict(io, e, a.file) else e)
    else if !a.file.local then Fetch(io, retries, e, a.file, a.target)
    else if a.file.tier == a.target then e
    else Relocate(io, e, a.file, a.target)
  }

  ghost predicate AllPlaced(plan: seq<Assignment>, tiers: nat) {
    forall i :: 0 <= i < |plan| ==> WellPlaced(plan[i], tiers)
  }

  /** The execution loop, which stops once the total of download errors reaches the threshold. */
  function Execute(cfg: Config, io: Io, e: Exec, plan: seq<Assignment>): (after: Exec)
    requires AllPlaced(plan, |e.disk|)
    ensures |after.disk| == |e.disk|
    decreases |plan|
  {
    if plan == [] || e.errors >= cfg.errorThreshold then e
    else Execute(cfg, io, ExecOne(io, cfg.retries, e, plan[0]), plan[1..])
  }

  // ---------- Phase E and the whole run ----------

  function Restrict<V>(m: map<Path, V>, keys: set<Path>): map<Path, V> {
    map p | p in m && p in keys :: m[p]
  }

  /** Only rows that record a 404 expire. */
  function CleanRemote(remote: map<Path, RemoteRow>, cutoff: int): map<Path, RemoteRow> {
    map p | p in remote && !(remote[p].size.None? && remote[p].recordedAt < cutoff) :: remote[p]
  }

  ghost predicate InRange(cfg: Config, w: World) {
    |w.disk| == |cfg.limits| && forall p :: p in w.rows ==> w.rows[p].tier < |w.disk|
  }

  ghost predicate ValidInput(cfg: Config, w: World, inp: RunInput) {
    && InRange(cfg, w)
    && ValidWalk(inp.walk, w.disk)
    && (inp.popular.Some? ==> DistinctPaths(inp.popular.value))
  }

  function CandidatesAt(cfg: Config, w: World, inp: RunInput): map<Path, Candidate>
    requires ValidWalk(inp.walk, w.disk) && inp.popular.Some?
  {
    var inventory := InventoryOf(w.disk, w.rows, inp.walk);
    var popular := PathsOf(inp.popular.value);
    CandidatesOf(inventory, MissingOf(popular, inventory.Keys, w.remote, inp.head, cfg.filesizeLimit),
                 VotesOf(inp.popular.value))
  }

  function Started(w: World, inp: RunInput): Exec
    requires ValidWalk(inp.walk, w.disk)
  {
    var inventory := InventoryOf(w.disk, w.rows, inp.walk);
    Exec(w.disk, w.rows + inventory, inventory, 0)
  }

  /** The run from w gets as far as phase C and ranks its candidates as order. */
  ghost predicate Ranks(cfg: Config, w: World, inp: RunInput, order: seq<Candidate>) {
    ValidInput(cfg, w, inp) && inp.popular.Some? && IsRanking(order, CandidatesAt(cfg, w, inp))
  }

  lemma PlanIsPlaced(cfg: Config, w: World, inp: RunInput, order: seq<Candidate>)
    requires Ranks(cfg, w, inp, order)
    ensures AllPlaced(Assign(order, cfg.limits), |w.disk|)
  {
    FirstFitInRange(Sizes(order), cfg.limits);
  }

  /** The execution loop of a run that ranked its candidates as order. */
  function Executed(cfg: Config, w: World, inp: RunInput, order: seq<Candidate>): Exec
    requires Ranks(cfg, w, inp, order)
  {
    PlanIsPlaced(cfg, w, inp, order);
    Execute(cfg, inp.io, Started(w, inp), Assign(order, cfg.limits))
  }

  /** The state of the execution loop after n iterations, or when it stopped before that. */
  function ExecutedTo(cfg: Config, w: World, inp: RunInput, order: seq<Candidate>, n: nat): (e: Exec)
    requires Ranks(cfg, w, inp, order)
    requires n <= |order|
    ensures |e.disk| == |w.disk|
  {
    PlanIsPlaced(cfg, w, inp, order);
    Execute(cfg, inp.io, Started(w, inp), Assign(order, cfg.limits)[..n])
  }

  /** The tables a run leaves behind; one that cannot parse the remote-size lifetime
      stops before it cleans them. */
  function Finish(e: Exec, remote: map<Path, RemoteRow>, ttl: Option<nat>, end: int): World {
    if ttl.None? then World(e.disk, e.rows, remote)
    else World(e.disk, Restrict(e.rows, e.inventory.Keys), CleanRemote(remote, end - ttl.value))
  }

  /** The remote_sizes table once the sizes of the popular files are resolved. */
  function RemoteAt(w: World, inp: RunInput): map<Path, RemoteRow>
    requires ValidWalk(inp.walk, w.disk) && inp.popular.Some?
  {
    RemoteAfter(PathsOf(inp.popular.value), InventoryOf(w.disk, w.rows, inp.walk).Keys, w.remote, inp.head, inp.clock)
  }

  /** A run that fails to read the votes stops after phase A. */
  function RunEffect(cfg: Config, w: World, inp: RunInput, order: seq<Candidate>): World
    requires ValidInput(cfg, w, inp)
    requires inp.popular.Some? ==> IsRanking(order, CandidatesAt(cfg, w, inp))
  {
    if inp.popular.None? then World(w.disk, Started(w, inp).rows, w.remote)
    else Finish(Executed(cfg, w, inp, order), RemoteAt(w, inp), inp.ttl, inp.end)
  }

  predicate RunOk(inp: RunInput) {
    inp.popular.Some? && inp.ttl.Some?
  }

  /** w' is what some run from w may leave, whatever order it gave equal scores. */
  ghost predicate RunStep(cfg: Config, w: World, inp: RunInput, w': World) {
    && ValidInput(cfg, w, inp)
    && exists order ::
         && (inp.popular.Some? ==> IsRanking(order, CandidatesAt(cfg, w, inp)))
         && w' == RunEffect(cfg, w, inp, order)
  }
}

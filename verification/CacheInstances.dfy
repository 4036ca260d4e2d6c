/** Runs that show what the cache does not promise. Every file is one byte. */
module CacheInstances {
  import opened Wrappers
  import opened TierAssignment
  import opened Scoring
  import opened CacheModel
  import opened CacheConsistency
  import opened CacheCapacity
  import opened CacheFixpoint
  import opened CacheOccupancy

  function OneByte(): Path -> nat {
    p => 1
  }

  /** Every action succeeds. */
  function Flawless(): Io {
    Io(p => true, (p, i) => Some(1), p => MoveIo(true, true, true, true))
  }

  function Input(walk: seq<seq<Path>>, popular: seq<PopularFile>): RunInput {
    RunInput(walk, Some(popular), p => Found(1), Flawless(), Some(0), p => 0, 0)
  }

  lemma PairRanks(c: Candidate, d: Candidate)
    requires c.path != d.path && c.score >= d.score
    ensures IsRanking([c, d], map[c.path := c, d.path := d])
  {
    assert Paths([c, d])[0] == c.path && Paths([c, d])[1] == d.path;
  }

  // ---------- The limit is exceeded while files are exchanged ----------

  function FullTier(b: Path): World {
    World([map[b := 1]], map[b := LocalFile(1, 0)], map[])
  }

  function Newcomer(a: Path): Candidate {
    Candidate(a, 1, Score(1, 1), false, -1)
  }

  function Resident(b: Path, tier: nat): Candidate {
    Candidate(b, 1, Score(0, 1), true, tier)
  }

  lemma ExchangeCandidates(cfg: Config, a: Path, b: Path)
    requires a != b && cfg.filesizeLimit >= 1
    ensures ValidWalk([[b]], FullTier(b).disk)
    ensures CandidatesAt(cfg, FullTier(b), Input([[b]], [PopularFile(a, 1)]))
            == map[a := Newcomer(a), b := Resident(b, 0)]
  {
    var w, popular := FullTier(b), [PopularFile(a, 1)];
    assert [[b]][0] == [b] && b in [[b]][0];
    assert Visited([[b]]) == {b} && PathsOf(popular) == {a};
    assert popular[..0] == [] && VotesOf(popular) == map[a := 1];
    assert InventoryOf(w.disk, w.rows, [[b]]) == w.rows;
    var missing := MissingOf({a}, {b}, w.remote, p => Found(1), cfg.filesizeLimit);
    assert missing == map[a := 1];
    assert CandidatesOf(w.rows, missing, map[a := 1]) == map[a := Newcomer(a), b := Resident(b, 0)];
  }

  lemma ExchangeRanks(a: Path, b: Path)
    requires a != b
    ensures IsRanking([Newcomer(a), Resident(b, 0)], map[a := Newcomer(a), b := Resident(b, 0)])
  {
    ScoreMonotone(0, 1, 1, 1);
    PairRanks(Newcomer(a), Resident(b, 0));
  }

  lemma OneFits()
    ensures FirstFit([1, 1], [1]) == [0, NONE]
  {
    var sizes: seq<nat>, rest: seq<nat> := [1, 1], [0];
    assert sizes[1..] == [1] && [1][1..] == [] && Charge(1, [1], 0) == rest;
    assert FirstFit([1], rest) == [NONE] + FirstFit([], rest);
  }

  lemma ExchangePlan(a: Path, b: Path)
    ensures Assign([Newcomer(a), Resident(b, 0)], [1]) == [Assignment(Newcomer(a), 0), Assignment(Resident(b, 0), NONE)]
  {
    assert Sizes([Newcomer(a), Resident(b, 0)]) == [1, 1];
    OneFits();
  }

  lemma ExchangeHeld(a: Path, b: Path)
    ensures var plan := [Assignment(Newcomer(a), 0), Assignment(Resident(b, 0), NONE)];
            Held(FullTier(b).disk, plan, OneByte(), 0, 0) == 1 && Held(FullTier(b).disk, plan, OneByte(), 1, 0) == 2
  {
    var plan := [Assignment(Newcomer(a), 0), Assignment(Resident(b, 0), NONE)];
    var stay := StayPut(plan);
    assert plan[..0] == [] && plan[0..] == plan && plan[1..] == [plan[1]] && plan[..1] == [plan[0]];
    assert StayPut([plan[1]]) == [stay[1]];
    OneFile(plan[0]);
    OneFile(stay[1]);
    assert PlanSizes(stay) == [1, 1] && Targets(stay) == [NONE, 0];
    assert [1, 1][1..] == [1] && [NONE, 0][1..] == [0] && Usage([1], [0], 0) == 1;
    assert plan[1].file.local && b in LocalIn(plan, 0);
    assert Spare(FullTier(b).disk, plan, 0) == {};
  }

  lemma OneFile(a: Assignment)
    requires a.file.size == 1 && a.target == 0
    ensures PlacedBytes([a], 0) == 1
  {
    assert PlanSizes([a]) == [1] && Targets([a]) == [0];
    assert [1][1..] == [] && [0][1..] == [];
  }

  lemma ExchangeIsFaultFree(cfg: Config, a: Path, b: Path)
    requires a != b && cfg == Config([1], 1, 1, 1)
    ensures FaultFree(cfg, FullTier(b), Input([[b]], [PopularFile(a, 1)]), [Newcomer(a), Resident(b, 0)], OneByte())
  {
    ExchangeCandidates(cfg, a, b);
    ExchangeRanks(a, b);
  }

  /** A run without faults that starts within the limit exceeds it: a newly popular file is
      fetched before the one ranked below it makes room. */
  lemma LimitIsExceeded(a: Path, b: Path) returns (cfg: Config, w: World, inp: RunInput, order: seq<Candidate>)
    requires a != b
    ensures FaultFree(cfg, w, inp, order, OneByte()) && |order| == 2 && |w.disk| == 1
    ensures Bytes(ExecutedTo(cfg, w, inp, order, 0).disk[0]) <= cfg.limits[0]
    ensures Bytes(ExecutedTo(cfg, w, inp, order, 1).disk[0]) > cfg.limits[0]
  {
    cfg, w, inp := Config([1], 1, 1, 1), FullTier(b), Input([[b]], [PopularFile(a, 1)]);
    order := [Newcomer(a), Resident(b, 0)];
    ExchangePlan(a, b);
    ExchangeHeld(a, b);
    ExchangeIsFaultFree(cfg, a, b);
    FaultFreeIsUnfailing(cfg, w, inp, order, OneByte());
    OccupancyIs(cfg, w, inp, order, OneByte(), 0, 0);
    OccupancyIs(cfg, w, inp, order, OneByte(), 1, 0);
  }

  // ---------- A settled cache is rearranged when ties fall the other way ----------

  function TwoTiers(a: Path, b: Path): World {
    World([map[a := 1], map[b := 1]], map[a := LocalFile(1, 0), b := LocalFile(1, 1)], map[])
  }

  lemma TiedInventory(a: Path, b: Path)
    requires a != b
    ensures ValidWalk([[a], [b]], TwoTiers(a, b).disk)
    ensures InventoryOf(TwoTiers(a, b).disk, TwoTiers(a, b).rows, [[a], [b]]) == TwoTiers(a, b).rows
  {
    var walk := [[a], [b]];
    assert walk[0] == [a] && walk[1] == [b] && a in walk[0] && b in walk[1];
    assert Visited(walk) == {a, b};
  }

  lemma TiedPair(a: Path, b: Path)
    requires a != b
    ensures CandidatesOf(TwoTiers(a, b).rows, map[], map[]) == map[a := Resident(a, 0), b := Resident(b, 1)]
  {
  }

  lemma TiedCandidates(cfg: Config, a: Path, b: Path, remote: map<Path, RemoteRow>)
    requires a != b
    ensures ValidWalk([[a], [b]], TwoTiers(a, b).disk)
    ensures CandidatesAt(cfg, TwoTiers(a, b).(remote := remote), Input([[a], [b]], []))
            == map[a := Resident(a, 0), b := Resident(b, 1)]
  {
    TiedInventory(a, b);
    TiedPair(a, b);
    assert PathsOf([]) == {};
  }

  lemma TwoOnes()
    ensures FirstFit([1, 1], [1, 1]) == [0, 1]
  {
    var sizes: seq<nat>, rest: seq<nat> := [1, 1], [0, 1];
    assert sizes[1..] == [1] && [1][1..] == [] && Charge(1, [1, 1], 0) == rest;
    assert FirstFit([1], rest) == [1] + FirstFit([], Charge(1, rest, 1));
  }

  lemma PairPlan(c: Candidate, d: Candidate)
    requires c.size == 1 && d.size == 1
    ensures Assign([c, d], [1, 1]) == [Assignment(c, 0), Assignment(d, 1)]
  {
    assert Sizes([c, d]) == [1, 1];
    TwoOnes();
  }

  lemma TiedRankings(a: Path, b: Path)
    requires a != b
    ensures var ca, cb := Resident(a, 0), Resident(b, 1);
            && IsRanking([ca, cb], map[a := ca, b := cb]) && IsRanking([cb, ca], map[a := ca, b := cb])
            && Assign([ca, cb], [1, 1]) == [Assignment(ca, 0), Assignment(cb, 1)]
            && Assign([cb, ca], [1, 1]) == [Assignment(cb, 0), Assignment(ca, 1)]
  {
    var ca, cb := Resident(a, 0), Resident(b, 1);
    PairRanks(ca, cb);
    PairRanks(cb, ca);
    assert map[b := cb, a := ca] == map[a := ca, b := cb];
    PairPlan(ca, cb);
    PairPlan(cb, ca);
  }

  lemma TiedWorld(a: Path, b: Path)
    requires a != b
    ensures var w, inp := TwoTiers(a, b), Input([[a], [b]], []);
            && CompleteWalk(inp.walk, w.disk) && RowsBacked(w.disk, w.rows)
            && TrueDisk(OneByte(), w.disk) && TrueRows(OneByte(), w.rows)
  {
    assert [[a], [b]][0] == [a] && [[a], [b]][1] == [b];
  }

  lemma TiedIsFaultFree(cfg: Config, a: Path, b: Path)
    requires a != b && cfg == Config([1, 1], 1, 1, 1)
    ensures FaultFree(cfg, TwoTiers(a, b), Input([[a], [b]], []), [Resident(a, 0), Resident(b, 1)], OneByte())
  {
    TiedWorld(a, b);
    TiedCandidates(cfg, a, b, map[]);
    TiedRankings(a, b);
  }

  /** Two runs without faults over the same votes and sizes, the second of which moves both
      files, because its sort puts two equal scores the other way round. */
  lemma TiesMayMove(a: Path, b: Path)
      returns (cfg: Config, w: World, inp: RunInput, order: seq<Candidate>, order': seq<Candidate>)
    requires a != b
    ensures Repeats(cfg, w, inp, order, inp, order', OneByte()) && |order'| == 2
    ensures forall j :: 0 <= j < 2 ==> !Idle(Assign(order', cfg.limits)[j])
  {
    cfg, w, inp := Config([1, 1], 1, 1, 1), TwoTiers(a, b), Input([[a], [b]], []);
    order, order' := [Resident(a, 0), Resident(b, 1)], [Resident(b, 1), Resident(a, 0)];
    TiedWorld(a, b);
    TiedRankings(a, b);
    TiedIsFaultFree(cfg, a, b);
    TiedRunIsIdle(cfg, a, b);
    var w' := RunEffect(cfg, w, inp, order);
    TiedCandidates(cfg, a, b, w'.remote);
    assert w' == TwoTiers(a, b).(remote := w'.remote);
  }

  lemma TiedRunIsIdle(cfg: Config, a: Path, b: Path)
    requires a != b && cfg == Config([1, 1], 1, 1, 1)
    ensures var w, inp, order := TwoTiers(a, b), Input([[a], [b]], []), [Resident(a, 0), Resident(b, 1)];
            && ValidInput(cfg, w, inp) && IsRanking(order, CandidatesAt(cfg, w, inp))
            && RunEffect(cfg, w, inp, order).disk == w.disk && RunEffect(cfg, w, inp, order).rows == w.rows
  {
    TiedIsFaultFree(cfg, a, b);
    TiedInventory(a, b);
    TiedRankings(a, b);
    IdleRun(cfg, TwoTiers(a, b), Input([[a], [b]], []), [Resident(a, 0), Resident(b, 1)]);
  }

  // ---------- A second copy stays ----------

  /** What a promotion of a leaves whose copy is made and whose source is not removed. */
  function TwoCopies(a: Path): World {
    World([map[a := 1], map[a := 1]], map[a := LocalFile(1, 0)], map[])
  }

  lemma TwoCopiesStart(a: Path, popular: seq<PopularFile>)
    ensures var w, inp := TwoCopies(a), Input([[a], [a]], popular);
            && CompleteWalk(inp.walk, w.disk) && RowsBacked(w.disk, w.rows)
            && TrueDisk(OneByte(), w.disk) && TrueRows(OneByte(), w.rows)
            && InventoryOf(w.disk, w.rows, inp.walk) == w.rows
  {
    var walk := [[a], [a]];
    assert walk[0] == [a] && walk[1] == [a] && a in walk[0] && a in walk[1];
    assert Visited(walk) == {a};
  }

  lemma PairOfVotes(a: Path, b: Path)
    requires a != b
    ensures VotesOf([PopularFile(a, 1), PopularFile(b, 1)]) == map[a := 1, b := 1]
    ensures PathsOf([PopularFile(a, 1), PopularFile(b, 1)]) == {a, b}
  {
    var popular := [PopularFile(a, 1), PopularFile(b, 1)];
    assert popular[..1] == [PopularFile(a, 1)] && popular[..1][..0] == [];
    assert VotesOf(popular[..1]) == map[a := 1];
    assert popular[0] in popular && popular[1] in popular;
  }

  function Favourite(a: Path): Candidate {
    Candidate(a, 1, Score(1, 1), true, 0)
  }

  lemma OverflowCandidates(cfg: Config, a: Path, b: Path)
    requires a != b && cfg.filesizeLimit >= 1
    ensures ValidWalk([[a], [a]], TwoCopies(a).disk)
    ensures CandidatesAt(cfg, TwoCopies(a), Input([[a], [a]], [PopularFile(a, 1), PopularFile(b, 1)]))
            == map[a := Favourite(a), b := Newcomer(b)]
  {
    var w, inp := TwoCopies(a), Input([[a], [a]], [PopularFile(a, 1), PopularFile(b, 1)]);
    TwoCopiesStart(a, [PopularFile(a, 1), PopularFile(b, 1)]);
    PairOfVotes(a, b);
    var missing := MissingOf({a, b}, {a}, w.remote, inp.head, cfg.filesizeLimit);
    assert missing == map[b := 1];
    assert CandidatesOf(w.rows, missing, map[a := 1, b := 1]) == map[a := Favourite(a), b := Newcomer(b)];
  }

  lemma OverflowLeft()
    ensures Left([1, 1], [1, 1]) == [0, 0]
  {
    var sizes: seq<nat>, rest: seq<nat>, none: seq<nat> := [1, 1], [0, 1], [0, 0];
    assert sizes[1..] == [1] && [1][1..] == [] && Charge(1, [1, 1], 0) == rest && Charge(1, rest, 1) == none;
    assert Left([1], rest) == Left([], none);
  }

  /** The copy in tier 1 is spare, and b has the room. */
  lemma OverflowSpare(a: Path, b: Path)
    requires a != b
    ensures var plan := [Assignment(Favourite(a), 0), Assignment(Newcomer(b), 1)];
            Total(Spare(TwoCopies(a).disk, plan, 1) - PlacedIn(plan, 1), OneByte()) == 1
  {
    var plan := [Assignment(Favourite(a), 0), Assignment(Newcomer(b), 1)];
    assert plan[1].target == 1 && plan[1].file.path == b;
    assert LocalIn(plan, 1) == {} && PlacedIn(plan, 1) == {b};
    assert Spare(TwoCopies(a).disk, plan, 1) - PlacedIn(plan, 1) == {a};
    TotalSplit({a}, a, OneByte());
    assert {a} - {a} == {};
  }

  lemma OverflowIsFaultFree(cfg: Config, a: Path, b: Path)
    requires a != b && cfg == Config([1, 1], 1, 1, 1)
    ensures FaultFree(cfg, TwoCopies(a), Input([[a], [a]], [PopularFile(a, 1), PopularFile(b, 1)]),
                      [Favourite(a), Newcomer(b)], OneByte())
  {
    TwoCopiesStart(a, [PopularFile(a, 1), PopularFile(b, 1)]);
    OverflowCandidates(cfg, a, b);
    PairRanks(Favourite(a), Newcomer(b));
  }

  lemma OverflowStarts(a: Path, t: nat)
    requires t < 2
    ensures Bytes(TwoCopies(a).disk[t]) == 1
  {
    TwoCopiesStart(a, []);
    TrueBytes(OneByte(), TwoCopies(a).disk, t);
    TotalSplit({a}, a, OneByte());
    assert TwoCopies(a).disk[t].Keys == {a} && {a} - {a} == {};
  }

  lemma OverflowEnds(cfg: Config, w: World, inp: RunInput, order: seq<Candidate>, a: Path, b: Path)
    requires a != b && Unfailing(cfg, w, inp, order, OneByte())
    requires cfg.limits == [1, 1] && w == TwoCopies(a) && order == [Favourite(a), Newcomer(b)]
    ensures Bytes(Executed(cfg, w, inp, order).disk[1]) > cfg.limits[1]
  {
    var plan := Assign(order, cfg.limits);
    assert plan == [Assignment(Favourite(a), 0), Assignment(Newcomer(b), 1)] by {
      PairPlan(Favourite(a), Newcomer(b));
    }
    assert Total(Spare(w.disk, plan, 1) - PlacedIn(plan, 1), OneByte()) == 1 by {
      OverflowSpare(a, b);
    }
    assert Left(Sizes(order), cfg.limits)[1] == 0 by {
      OverflowLeft();
      assert Sizes(order) == [1, 1];
    }
    ExecutionRefinesPlan(cfg, w, inp, order, OneByte());
  }

  /** A run without faults that starts with every tier within its limit ends with one above
      it: the placement does not count a second copy of a file. */
  lemma SpareCopyOverflows(a: Path, b: Path) returns (cfg: Config, w: World, inp: RunInput, order: seq<Candidate>)
    requires a != b
    ensures FaultFree(cfg, w, inp, order, OneByte()) && |w.disk| == 2
    ensures forall t :: 0 <= t < 2 ==> Bytes(w.disk[t]) <= cfg.limits[t]
    ensures Bytes(Executed(cfg, w, inp, order).disk[1]) > cfg.limits[1]
  {
    cfg, w := Config([1, 1], 1, 1, 1), TwoCopies(a);
    inp := Input([[a], [a]], [PopularFile(a, 1), PopularFile(b, 1)]);
    order := [Favourite(a), Newcomer(b)];
    OverflowIsFaultFree(cfg, a, b);
    FaultFreeIsUnfailing(cfg, w, inp, order, OneByte());
    OverflowEnds(cfg, w, inp, order, a, b);
    forall t | 0 <= t < 2 ensures Bytes(w.disk[t]) == 1 {
      OverflowStarts(a, t);
    }
  }

  lemma LeftoverCandidates(cfg: Config, a: Path)
    ensures ValidWalk([[a], [a]], TwoCopies(a).disk)
    ensures CandidatesAt(cfg, TwoCopies(a), Input([[a], [a]], [])) == map[a := Resident(a, 0)]
  {
    TwoCopiesStart(a, []);
    assert PathsOf([]) == {};
  }

  lemma LeftoverPlan(c: Candidate)
    requires c.size == 1
    ensures Assign([c], [0, 0]) == [Assignment(c, NONE)]
  {
    assert Sizes([c]) == [1];
    assert [1][1..] == [] && HottestFit(1, [0, 0]) == NONE;
    assert FirstFit([1], [0, 0]) == [NONE] + FirstFit([], [0, 0]);
  }

  lemma LeftoverIsFaultFree(cfg: Config, a: Path)
    requires cfg == Config([0, 0], 1, 1, 1)
    ensures FaultFree(cfg, TwoCopies(a), Input([[a], [a]], []), [Resident(a, 0)], OneByte())
  {
    TwoCopiesStart(a, []);
    LeftoverCandidates(cfg, a);
    assert Paths([Resident(a, 0)])[0] == a;
  }

  lemma LeftoverDisk(cfg: Config, a: Path)
    requires cfg == Config([0, 0], 1, 1, 1)
    ensures var w, inp, order := TwoCopies(a), Input([[a], [a]], []), [Resident(a, 0)];
            && Ranks(cfg, w, inp, order)
            && RunEffect(cfg, w, inp, order).disk == [map[], map[a := 1]]
  {
    var w, inp, order := TwoCopies(a), Input([[a], [a]], []), [Resident(a, 0)];
    LeftoverIsFaultFree(cfg, a);
    LeftoverPlan(Resident(a, 0));
    var plan, e := Assign(order, cfg.limits), Started(w, inp);
    assert plan[1..] == [];
    assert Execute(cfg, inp.io, e, plan) == ExecOne(inp.io, cfg.retries, e, plan[0]);
    assert w.disk[0] - {a} == map[];
  }

  lemma LeftoverWalk(a: Path)
    ensures CompleteWalk([[], [a]], [map[], map[a := 1]])
  {
    assert [[], [a]][0] == [] && [[], [a]][1] == [a];
  }

  lemma LeftoverFollows(cfg: Config, a: Path)
    requires cfg == Config([0, 0], 1, 1, 1)
    ensures Follows(cfg, TwoCopies(a), Input([[a], [a]], []), [Resident(a, 0)], Input([[], [a]], []), OneByte())
  {
    LeftoverIsFaultFree(cfg, a);
    LeftoverDisk(cfg, a);
    LeftoverWalk(a);
  }

  lemma LeftoverLeaves(a: Path)
    ensures LeavesCopy(TwoCopies(a).disk, Assign([Resident(a, 0)], [0, 0])[0])
  {
    LeftoverPlan(Resident(a, 0));
    assert a in TwoCopies(a).disk[1];
  }

  /** Two runs without faults over the same votes and sizes, the second of which is not idle:
      it evicts the copy that the first, which evicted the other, left without a row. */
  lemma LeftoverIsEvicted(a: Path)
      returns (cfg: Config, w: World, inp: RunInput, order: seq<Candidate>, inp': RunInput, order': seq<Candidate>)
    ensures Repeats(cfg, w, inp, order, inp', order', OneByte()) && SameRanks(order, order')
    ensures NothingFails(cfg, inp'.io) && !AllIdle(order', cfg.limits)
  {
    cfg, w, inp, order := Config([0, 0], 1, 1, 1), TwoCopies(a), Input([[a], [a]], []), [Resident(a, 0)];
    inp' := Input([[], [a]], []);
    LeftoverFollows(cfg, a);
    LeftoverLeaves(a);
    order' := SomeOrderIsIdle(cfg, w, inp, order, inp', OneByte());
  }
}

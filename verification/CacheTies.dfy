/** Whether a run rearranges a settled cache when scores tie (syncer/cache.go:117-157): the
    order of equal scores is arbitrary, so the question is whether every order is idle. */
module CacheTies {
  import opened TierAssignment
  import opened CacheModel
  import opened CacheCapacity
  import opened CacheFixpoint

  ghost predicate ValidCandidates(cands: map<Path, Candidate>, limits: seq<nat>) {
    forall p :: p in cands ==> cands[p].path == p && (cands[p].local ==> 0 <= cands[p].tier < |limits|)
  }

  function SizeOf(cands: map<Path, Candidate>): Path -> nat {
    p => if p in cands then cands[p].size else 0
  }

  /** The candidates of ps that are in tier t. */
  function HomeIn(cands: map<Path, Candidate>, ps: set<Path>, t: int): set<Path> {
    set p | p in ps && p in cands && cands[p].local && cands[p].tier == t
  }

  /** The local files are within the limits as they lie. */
  ghost predicate LocalsFit(cands: map<Path, Candidate>, limits: seq<nat>) {
    forall t :: 0 <= t < |limits| ==> Total(HomeIn(cands, cands.Keys, t), SizeOf(cands)) <= limits[t]
  }

  lemma PartFits(cands: map<Path, Candidate>, limits: seq<nat>, ps: set<Path>, t: nat)
    requires LocalsFit(cands, limits) && t < |limits|
    ensures Total(HomeIn(cands, ps, t), SizeOf(cands)) <= limits[t]
  {
    TotalUnion(HomeIn(cands, ps, t), HomeIn(cands, cands.Keys, t), SizeOf(cands));
    assert HomeIn(cands, ps, t) + HomeIn(cands, cands.Keys, t) == HomeIn(cands, cands.Keys, t);
  }

  ghost function RoomIn(cands: map<Path, Candidate>, limits: seq<nat>, ps: set<Path>, t: nat): nat
    requires LocalsFit(cands, limits) && t < |limits|
  {
    PartFits(cands, limits, ps, t);
    limits[t] - Total(HomeIn(cands, ps, t), SizeOf(cands))
  }

  /** The room left when the candidates of ps take up their homes. */
  ghost function RoomBeside(cands: map<Path, Candidate>, limits: seq<nat>, ps: set<Path>): (room: seq<nat>)
    requires LocalsFit(cands, limits)
    ensures |room| == |limits|
    ensures forall t :: 0 <= t < |limits| ==> room[t] == limits[t] - Total(HomeIn(cands, ps, t), SizeOf(cands))
  {
    seq(|limits|, t requires 0 <= t < |limits| => RoomIn(cands, limits, ps, t))
  }

  function Above(cands: map<Path, Candidate>, score: real): set<Path> {
    set p | p in cands && cands[p].score > score
  }

  /** The local files fit as they lie, and the room beside the higher-scored ones would send
      every candidate to where it is. Neither mentions an order. */
  ghost predicate Undisturbed(cands: map<Path, Candidate>, limits: seq<nat>) {
    && LocalsFit(cands, limits)
    && forall p :: p in cands ==>
         HottestFit(cands[p].size, RoomBeside(cands, limits, Above(cands, cands[p].score))) == Home(cands[p])
  }

  lemma IdleIsHome(a: Assignment)
    requires a.file.local ==> 0 <= a.file.tier
    ensures Idle(a) <==> a.target == Home(a.file)
  {
  }

  // ---------- First fit, one file further ----------

  lemma {:induction false} FirstFitAt(sizes: seq<nat>, limits: seq<nat>, j: nat)
    requires j < |sizes|
    ensures FirstFit(sizes, limits)[j] == HottestFit(sizes[j], Left(sizes[..j], limits))
  {
    if j > 0 {
      FirstFitAt(sizes[1..], Charge(sizes[0], limits, HottestFit(sizes[0], limits)), j - 1);
      assert sizes[..j][1..] == sizes[1..][..j - 1];
    }
  }

  lemma {:induction false} LeftNext(sizes: seq<nat>, limits: seq<nat>, j: nat)
    requires j < |sizes|
    ensures var left := Left(sizes[..j], limits);
            Left(sizes[..j + 1], limits) == Charge(sizes[j], left, HottestFit(sizes[j], left))
  {
    if j == 0 {
      assert sizes[..1][1..] == [] && sizes[..0] == [];
    } else {
      LeftNext(sizes[1..], Charge(sizes[0], limits, HottestFit(sizes[0], limits)), j - 1);
      assert sizes[..j][1..] == sizes[1..][..j - 1] && sizes[..j + 1][1..] == sizes[1..][..j];
    }
  }

  lemma RoomNext(cands: map<Path, Candidate>, limits: seq<nat>, ps: set<Path>, p: Path)
    requires ValidCandidates(cands, limits) && LocalsFit(cands, limits) && p in cands && p !in ps
    ensures var room, t := RoomBeside(cands, limits, ps), Home(cands[p]);
            && (t != NONE ==> cands[p].size <= room[t])
            && RoomBeside(cands, limits, ps + {p}) == Charge(cands[p].size, room, t)
  {
    var room, next, t := RoomBeside(cands, limits, ps), RoomBeside(cands, limits, ps + {p}), Home(cands[p]);
    forall u | 0 <= u < |limits|
      ensures next[u] == room[u] - if u == t then cands[p].size else 0
    {
      if u == t {
        TotalSplit(HomeIn(cands, ps + {p}, u), p, SizeOf(cands));
        assert HomeIn(cands, ps + {p}, u) - {p} == HomeIn(cands, ps, u);
      } else {
        assert HomeIn(cands, ps + {p}, u) == HomeIn(cands, ps, u);
      }
    }
  }

  lemma RoomShrinks(cands: map<Path, Candidate>, limits: seq<nat>, ps: set<Path>, qs: set<Path>)
    requires LocalsFit(cands, limits) && ps <= qs
    ensures forall t :: 0 <= t < |limits| ==> RoomBeside(cands, limits, qs)[t] <= RoomBeside(cands, limits, ps)[t]
  {
    forall t | 0 <= t < |limits| ensures RoomBeside(cands, limits, qs)[t] <= RoomBeside(cands, limits, ps)[t] {
      TotalUnion(HomeIn(cands, ps, t), HomeIn(cands, qs, t), SizeOf(cands));
      assert HomeIn(cands, ps, t) + HomeIn(cands, qs, t) == HomeIn(cands, qs, t);
    }
  }

  // ---------- A ranking whose files all stay at home ----------

  lemma PathSetNext(order: seq<Candidate>, j: nat)
    requires j < |order|
    ensures PathSet(order[..j + 1]) == PathSet(order[..j]) + {order[j].path}
    ensures (forall i :: 0 <= i < j ==> order[i].path != order[j].path) ==> order[j].path !in PathSet(order[..j])
  {
    assert Paths(order[..j + 1]) == Paths(order[..j]) + [order[j].path];
  }

  /** The first j files stay at home. */
  ghost predicate HomeUpTo(order: seq<Candidate>, limits: seq<nat>, j: nat)
    requires j <= |order|
  {
    forall i :: 0 <= i < j ==> FirstFit(Sizes(order), limits)[i] == Home(order[i])
  }

  lemma LeftIsRoomNext(cands: map<Path, Candidate>, limits: seq<nat>, order: seq<Candidate>, j: nat)
    requires ValidCandidates(cands, limits) && LocalsFit(cands, limits) && Lists(order, cands) && j < |order|
    requires Left(Sizes(order)[..j], limits) == RoomBeside(cands, limits, PathSet(order[..j]))
    requires FirstFit(Sizes(order), limits)[j] == Home(order[j])
    ensures Left(Sizes(order)[..j + 1], limits) == RoomBeside(cands, limits, PathSet(order[..j + 1]))
  {
    LeftNext(Sizes(order), limits, j);
    FirstFitAt(Sizes(order), limits, j);
    PathSetNext(order, j);
    RoomNext(cands, limits, PathSet(order[..j]), order[j].path);
  }

  /** While the first j files stay at home, the room left is the room beside them. */
  lemma {:induction false} LeftIsRoom(cands: map<Path, Candidate>, limits: seq<nat>, order: seq<Candidate>, j: nat)
    requires ValidCandidates(cands, limits) && LocalsFit(cands, limits) && Lists(order, cands) && j <= |order|
    requires HomeUpTo(order, limits, j)
    ensures Left(Sizes(order)[..j], limits) == RoomBeside(cands, limits, PathSet(order[..j]))
  {
    if j == 0 {
      assert PathSet(order[..0]) == {};
    } else {
      LeftIsRoom(cands, limits, order, j - 1);
      LeftIsRoomNext(cands, limits, order, j - 1);
    }
  }

  /** The higher-scored candidates come before j; what else does ties with it. */
  lemma AboveIsBefore(cands: map<Path, Candidate>, order: seq<Candidate>, j: nat)
    requires IsRanking(order, cands) && j < |order|
    ensures Above(cands, order[j].score) <= PathSet(order[..j])
    ensures (j > 0 ==> order[j - 1].score > order[j].score) ==> Above(cands, order[j].score) == PathSet(order[..j])
  {
    forall p | p in Above(cands, order[j].score) ensures p in PathSet(order[..j]) {
      assert p in Paths(order);
      var i :| 0 <= i < |order| && Paths(order)[i] == p;
      assert Paths(order[..j])[i] == p;
    }
    if j > 0 ==> order[j - 1].score > order[j].score {
      forall p | p in PathSet(order[..j]) ensures p in Above(cands, order[j].score) {
        var i :| 0 <= i < j && Paths(order[..j])[i] == p;
        assert order[i].score >= order[j - 1].score;
      }
    }
  }

  /** An undisturbed candidate stays at home wherever its ties come in the order. */
  lemma StaysHome(cands: map<Path, Candidate>, limits: seq<nat>, order: seq<Candidate>, j: nat)
    requires ValidCandidates(cands, limits) && Undisturbed(cands, limits)
    requires IsRanking(order, cands) && j < |order|
    requires HomeUpTo(order, limits, j)
    ensures FirstFit(Sizes(order), limits)[j] == Home(order[j])
  {
    var c, before := order[j], PathSet(order[..j]);
    FirstFitAt(Sizes(order), limits, j);
    LeftIsRoom(cands, limits, order, j);
    AboveIsBefore(cands, order, j);
    RoomShrinks(cands, limits, Above(cands, c.score), before);
    PathSetNext(order, j);
    RoomNext(cands, limits, before, c.path);
    assert HottestFit(c.size, RoomBeside(cands, limits, Above(cands, c.score))) == Home(c);
  }

  lemma HomeNext(order: seq<Candidate>, limits: seq<nat>, j: nat)
    requires j < |order| && HomeUpTo(order, limits, j) && FirstFit(Sizes(order), limits)[j] == Home(order[j])
    ensures HomeUpTo(order, limits, j + 1)
  {
  }

  lemma {:induction false} AllStayHome(cands: map<Path, Candidate>, limits: seq<nat>, order: seq<Candidate>, j: nat)
    requires ValidCandidates(cands, limits) && Undisturbed(cands, limits)
    requires IsRanking(order, cands) && j <= |order|
    ensures HomeUpTo(order, limits, j)
  {
    if j > 0 {
      AllStayHome(cands, limits, order, j - 1);
      StaysHome(cands, limits, order, j - 1);
      HomeNext(order, limits, j - 1);
    }
  }

  lemma UndisturbedIsIdle(cands: map<Path, Candidate>, limits: seq<nat>, order: seq<Candidate>)
    requires ValidCandidates(cands, limits) && Undisturbed(cands, limits) && IsRanking(order, cands)
    ensures AllIdle(order, limits)
  {
    AllStayHome(cands, limits, order, |order|);
    forall j | 0 <= j < |order| ensures Idle(Assign(order, limits)[j]) {
      IdleIsHome(Assign(order, limits)[j]);
    }
  }

  // ---------- The converse ----------

  lemma IdleStaysHome(cands: map<Path, Candidate>, limits: seq<nat>, order: seq<Candidate>)
    requires ValidCandidates(cands, limits) && Lists(order, cands) && AllIdle(order, limits)
    ensures forall j :: 0 <= j < |order| ==> FirstFit(Sizes(order), limits)[j] == Home(order[j])
  {
    forall j | 0 <= j < |order| ensures FirstFit(Sizes(order), limits)[j] == Home(order[j]) {
      IdleIsHome(Assign(order, limits)[j]);
    }
  }

  lemma IdleFits(cands: map<Path, Candidate>, limits: seq<nat>, order: seq<Candidate>)
    requires ValidCandidates(cands, limits) && Lists(order, cands) && AllIdle(order, limits)
    ensures LocalsFit(cands, limits)
  {
    var plan := Assign(order, limits);
    IdleStaysHome(cands, limits, order);
    forall t | 0 <= t < |limits| ensures Total(HomeIn(cands, cands.Keys, t), SizeOf(cands)) <= limits[t] {
      PlacedWithinLimit(order, limits, SizeOf(cands), t);
      forall p ensures p in HomeIn(cands, cands.Keys, t) <==> p in PlacedIn(plan, t) {
        if p in cands {
          assert p in Paths(order);
          var i :| 0 <= i < |order| && Paths(order)[i] == p;
          assert plan[i].file.path == p;
        }
      }
      assert HomeIn(cands, cands.Keys, t) == PlacedIn(plan, t);
    }
  }

  /** A candidate that leads its ties meets exactly the room beside the higher-scored ones. */
  lemma LeaderIsUndisturbed(cands: map<Path, Candidate>, limits: seq<nat>, order: seq<Candidate>, j: nat)
    requires ValidCandidates(cands, limits) && LocalsFit(cands, limits)
    requires IsRanking(order, cands) && AllIdle(order, limits)
    requires j < |order| && (j > 0 ==> order[j - 1].score > order[j].score)
    ensures HottestFit(order[j].size, RoomBeside(cands, limits, Above(cands, order[j].score))) == Home(order[j])
  {
    IdleStaysHome(cands, limits, order);
    FirstFitAt(Sizes(order), limits, j);
    LeftIsRoom(cands, limits, order, j);
    AboveIsBefore(cands, order, j);
  }

  // ---------- Rankings exist, led by any candidate among its ties ----------

  lemma PathsOfConcat(a: seq<Candidate>, c: Candidate, b: seq<Candidate>, p: Path)
    ensures p in Paths(a + [c] + b) <==> p in Paths(a) || p == c.path || p in Paths(b)
  {
    assert Paths(a + [c] + b) == Paths(a) + [c.path] + Paths(b);
  }

  /** The candidates that come after p when p leads its ties. */
  function After(cands: map<Path, Candidate>, p: Path): set<Path>
    requires p in cands
  {
    cands.Keys - Above(cands, cands[p].score) - {p}
  }

  lemma ConcatCovers(cands: map<Path, Candidate>, hi: seq<Candidate>, p: Path, lo: seq<Candidate>, q: Path)
    requires p in cands && q in cands && cands[p].path == p
    requires Lists(hi, Restrict(cands, Above(cands, cands[p].score))) && Lists(lo, Restrict(cands, After(cands, p)))
    ensures q in Paths(hi + [cands[p]] + lo)
  {
    PathsOfConcat(hi, cands[p], lo, q);
    if q in Above(cands, cands[p].score) {
      assert q in Restrict(cands, Above(cands, cands[p].score));
    } else if q != p {
      assert q in Restrict(cands, After(cands, p));
    }
  }

  lemma ListsConcat(cands: map<Path, Candidate>, hi: seq<Candidate>, p: Path, lo: seq<Candidate>)
    requires p in cands && cands[p].path == p
    requires Lists(hi, Restrict(cands, Above(cands, cands[p].score))) && Lists(lo, Restrict(cands, After(cands, p)))
    ensures Lists(hi + [cands[p]] + lo, cands)
  {
    var order := hi + [cands[p]] + lo;
    forall q | q in cands ensures q in Paths(order) {
      ConcatCovers(cands, hi, p, lo, q);
    }
    forall i, j | 0 <= i < j < |order| ensures order[i].path != order[j].path {
      if i < |hi| && j >= |hi| {
        assert order[i].path in Above(cands, cands[p].score) && order[j].path !in Above(cands, cands[p].score);
      } else if i == |hi| {
        assert order[j].path in After(cands, p);
      }
    }
  }

  lemma RankingConcat(cands: map<Path, Candidate>, hi: seq<Candidate>, p: Path, lo: seq<Candidate>)
    requires p in cands && cands[p].path == p
    requires IsRanking(hi, Restrict(cands, Above(cands, cands[p].score)))
    requires IsRanking(lo, Restrict(cands, After(cands, p)))
    ensures IsRanking(hi + [cands[p]] + lo, cands)
    ensures forall i :: 0 <= i < |hi| ==> hi[i].score > cands[p].score
  {
    ListsConcat(cands, hi, p, lo);
  }

  lemma {:induction false} SomeRanking(cands: map<Path, Candidate>) returns (order: seq<Candidate>)
    requires forall q :: q in cands ==> cands[q].path == q
    ensures IsRanking(order, cands)
    decreases cands.Keys, 1
  {
    if cands == map[] {
      order := [];
    } else {
      var p :| p in cands;
      var j;
      order, j := RankingLedBy(cands, p);
    }
  }

  lemma {:induction false} RankingLedBy(cands: map<Path, Candidate>, p: Path) returns (order: seq<Candidate>, j: nat)
    requires p in cands && forall q :: q in cands ==> cands[q].path == q
    ensures IsRanking(order, cands) && j < |order| && order[j] == cands[p]
    ensures j > 0 ==> order[j - 1].score > order[j].score
    decreases cands.Keys, 0
  {
    var above := Above(cands, cands[p].score);
    assert p !in above && above < cands.Keys;
    var hi := SomeRanking(Restrict(cands, above));
    var lo := SomeRanking(Restrict(cands, After(cands, p)));
    RankingConcat(cands, hi, p, lo);
    order, j := hi + [cands[p]] + lo, |hi|;
  }

  // ---------- The exact condition ----------

  ghost predicate EveryOrderIdle(cands: map<Path, Candidate>, limits: seq<nat>) {
    forall order :: IsRanking(order, cands) ==> AllIdle(order, limits)
  }

  /** Main result: whatever the sort does with ties, a run leaves every file where it is, if
      and only if its candidates are undisturbed. */
  lemma EveryOrderIdleIff(cands: map<Path, Candidate>, limits: seq<nat>)
    requires ValidCandidates(cands, limits)
    ensures EveryOrderIdle(cands, limits) <==> Undisturbed(cands, limits)
  {
    if Undisturbed(cands, limits) {
      forall order | IsRanking(order, cands) ensures AllIdle(order, limits) {
        UndisturbedIsIdle(cands, limits, order);
      }
    }
    if EveryOrderIdle(cands, limits) {
      var order := SomeRanking(cands);
      IdleFits(cands, limits, order);
      forall p | p in cands
        ensures HottestFit(cands[p].size, RoomBeside(cands, limits, Above(cands, cands[p].score))) == Home(cands[p])
      {
        var led, j := RankingLedBy(cands, p);
        LeaderIsUndisturbed(cands, limits, led, j);
      }
    }
  }

  /** Main result: after a failure-free run, the next run over the same votes and sizes does
      nothing whatever the sort does with ties, if and only if the first left no copy of a
      file it evicted, and for each candidate the hottest tier with room beside the strictly
      higher-scored local files is the one it is in, or none if it is not local. */
  lemma SecondRunIdleIff(cfg: Config, w: World, inp: RunInput, order: seq<Candidate>, inp': RunInput, size: Path -> nat)
    requires Follows(cfg, w, inp, order, inp', size)
    ensures ValidInput(cfg, RunEffect(cfg, w, inp, order), inp')
    ensures var cands := CandidatesAt(cfg, RunEffect(cfg, w, inp, order), inp');
            && (NothingLeft(w.disk, Assign(order, cfg.limits)) ==> LocalsFit(cands, cfg.limits))
            && (EveryOrderIdle(cands, cfg.limits) <==>
                && NothingLeft(w.disk, Assign(order, cfg.limits))
                && forall p :: p in cands ==> var room := RoomBeside(cands, cfg.limits, Above(cands, cands[p].score));
                     HottestFit(cands[p].size, room) == Home(cands[p]))
  {
    var w' := RunEffect(cfg, w, inp, order);
    var cands := CandidatesAt(cfg, w', inp');
    SecondIsValid(cfg, w, inp, order, inp', size);
    var order' := SomeOrderIsIdle(cfg, w, inp, order, inp', size);
    if AllIdle(order', cfg.limits) {
      IdleFits(cands, cfg.limits, order');
    }
    EveryOrderIdleIff(cands, cfg.limits);
  }
}

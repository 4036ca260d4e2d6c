/** What a run ranks, and what it learns of remote sizes, read off the disk, the tables and
    the answers from upstream (syncer/cache.go:64-133, 241-314). */
module CacheRanking {
  import opened Wrappers
  import opened Scoring
  import opened CacheModel
  import opened Votes

  ghost predicate Walked(inp: RunInput, p: Path) {
    exists t :: 0 <= t < |inp.walk| && p in inp.walk[t]
  }

  ghost predicate IsPopular(inp: RunInput, p: Path)
    requires inp.popular.Some?
  {
    exists i :: 0 <= i < |inp.popular.value| && inp.popular.value[i].path == p
  }

  /** A recorded size counts without a HEAD; so does a recorded 404, which gives none. */
  ghost predicate RemoteSizeIs(w: World, inp: RunInput, p: Path, n: nat) {
    if p in w.remote then w.remote[p].size == Some(n) else inp.head(p) == Found(n)
  }

  /** What a run takes a file on disk to be: what its row says, or else what the hottest tier
      that lists it holds. */
  ghost predicate IsEntry(w: World, inp: RunInput, p: Path, size: nat, tier: int)
    requires ValidWalk(inp.walk, w.disk)
  {
    if p in w.rows then size == w.rows[p].size && tier == w.rows[p].tier
    else
      && 0 <= tier < |inp.walk| && p in inp.walk[tier] && size == w.disk[tier][p]
      && forall u :: 0 <= u < tier ==> p !in inp.walk[u]
  }

  lemma EntryIs(w: World, inp: RunInput, p: Path)
    requires ValidWalk(inp.walk, w.disk)
    ensures var inv := InventoryOf(w.disk, w.rows, inp.walk);
            (p in inv <==> Walked(inp, p)) && (p in inv ==> IsEntry(w, inp, p, inv[p].size, inv[p].tier))
  {
    if p in Visited(inp.walk) {
      var h := Hottest(inp.walk, p);
      forall u | 0 <= u < h ensures p !in inp.walk[u] {
        NoneHotter(inp.walk, p, u);
      }
    }
  }

  /** Main result: the candidates are the files that the walk lists, and the popular ones it
      does not list whose recorded size, or else a HEAD, is within the limit. */
  lemma CandidatesAre(cfg: Config, w: World, inp: RunInput, p: Path)
    requires ValidInput(cfg, w, inp) && inp.popular.Some?
    ensures var cands := CandidatesAt(cfg, w, inp);
            && (p in cands <==>
                  (Walked(inp, p)
                   || (IsPopular(inp, p) && exists n: nat :: RemoteSizeIs(w, inp, p, n) && n <= cfg.filesizeLimit)))
            && (p in cands ==>
                  var c := cands[p];
                  && c.path == p && (c.local <==> Walked(inp, p))
                  && if c.local then IsEntry(w, inp, p, c.size, c.tier)
                     else RemoteSizeIs(w, inp, p, c.size) && c.tier == -1)
  {
    EntryIs(w, inp, p);
    assert p in PathsOf(inp.popular.value) <==> IsPopular(inp, p) by {
      if i :| 0 <= i < |inp.popular.value| && inp.popular.value[i].path == p {
        assert inp.popular.value[i] in inp.popular.value;
      }
    }
    var r := Resolve(w.remote, inp.head, p);
    forall n: nat ensures RemoteSizeIs(w, inp, p, n) <==> r == Found(n) {
    }
    assert r.Found? ==> RemoteSizeIs(w, inp, p, r.size);
  }

  // ---------- The order ----------

  /** The number of p's rows in the vote window, or none if there are too few. */
  ghost function CountedVotes(table: set<Vote>, p: Path, since: int, minVotes: int): nat {
    var n := |set v | v in table && v.file == p && v.at >= since|;
    if n >= minVotes then n else 0
  }

  /** c's score is 2^20 times its votes per byte, of at least 2 GiB and a byte more. */
  ghost predicate ScoredByCount(c: Candidate, table: set<Vote>, since: int, minVotes: int) {
    var m := if c.size < 2147483648 then 2147483648 else c.size;
    c.score * (m + 1) as real == CountedVotes(table, c.path, since, minVotes) as real * 1048576.0
  }

  lemma CountIs(popular: seq<PopularFile>, table: set<Vote>, since: int, minVotes: int, p: Path)
    requires Answers(popular, table, since, minVotes)
    ensures VoteCount(VotesOf(popular), p) == CountedVotes(table, p, since, minVotes)
  {
    AnsweredVotes(popular, table, since, minVotes, p);
  }

  lemma CandidateScore(cfg: Config, w: World, inp: RunInput, order: seq<Candidate>, i: nat)
    requires Ranks(cfg, w, inp, order) && i < |order|
    ensures order[i].score == Score(VoteCount(VotesOf(inp.popular.value), order[i].path), order[i].size)
  {
    var cands := CandidatesAt(cfg, w, inp);
    assert order[i] == cands[order[i].path];
  }

  lemma ScoreCounts(c: Candidate, table: set<Vote>, since: int, minVotes: int)
    requires c.score == Score(CountedVotes(table, c.path, since, minVotes), c.size)
    ensures ScoredByCount(c, table, since, minVotes)
  {
    ScoreIs(CountedVotes(table, c.path, since, minVotes), c.size);
  }

  /** Main result: that is so for every file a run ranks. */
  lemma ScoresAreCounts(cfg: Config, w: World, inp: RunInput, order: seq<Candidate>, i: nat,
                        table: set<Vote>, since: int, minVotes: int)
    requires Ranks(cfg, w, inp, order) && i < |order| && Answers(inp.popular.value, table, since, minVotes)
    ensures ScoredByCount(order[i], table, since, minVotes)
  {
    CountIs(inp.popular.value, table, since, minVotes, order[i].path);
    CandidateScore(cfg, w, inp, order, i);
    ScoreCounts(order[i], table, since, minVotes);
  }

  lemma ScoredOrder(s: real, t: real, a: nat, b: nat, m: nat, k: nat)
    requires s * m as real == a as real * 1048576.0 && t * k as real == b as real * 1048576.0
    requires s >= t && m > 0 && k > 0
    ensures a * k >= b * m
  {
    assert s * m as real * k as real >= t * m as real * k as real by {
      assert (s - t) * (m as real * k as real) >= 0.0;
    }
    assert a as real * k as real >= b as real * m as real;
    assert (a * k) as real == a as real * k as real && (b * m) as real == b as real * m as real;
  }

  /** c has at least as many votes per byte as d. */
  ghost predicate NotLessWanted(c: Candidate, d: Candidate, table: set<Vote>, since: int, minVotes: int) {
    var m := if c.size < 2147483648 then 2147483648 else c.size;
    var k := if d.size < 2147483648 then 2147483648 else d.size;
    CountedVotes(table, c.path, since, minVotes) * (k + 1) >= CountedVotes(table, d.path, since, minVotes) * (m + 1)
  }

  /** Main result: the files of a run's ranking have ever fewer votes per byte. */
  lemma RankedByCounts(cfg: Config, w: World, inp: RunInput, order: seq<Candidate>, i: nat, j: nat,
                       table: set<Vote>, since: int, minVotes: int)
    requires Ranks(cfg, w, inp, order) && i < j < |order| && Answers(inp.popular.value, table, since, minVotes)
    ensures NotLessWanted(order[i], order[j], table, since, minVotes)
  {
    ScoresAreCounts(cfg, w, inp, order, i, table, since, minVotes);
    ScoresAreCounts(cfg, w, inp, order, j, table, since, minVotes);
    CountedOrder(order[i], order[j], table, since, minVotes);
  }

  lemma CountedOrder(c: Candidate, d: Candidate, table: set<Vote>, since: int, minVotes: int)
    requires ScoredByCount(c, table, since, minVotes) && ScoredByCount(d, table, since, minVotes) && c.score >= d.score
    ensures NotLessWanted(c, d, table, since, minVotes)
  {
    ScoredOrder(c.score, d.score,
                CountedVotes(table, c.path, since, minVotes), CountedVotes(table, d.path, since, minVotes),
                (if c.size < 2147483648 then 2147483648 else c.size) + 1,
                (if d.size < 2147483648 then 2147483648 else d.size) + 1);
  }

  // ---------- What is recorded of remote sizes ----------

  /** Main result: a run records an answer for exactly the popular files that it does not find
      on disk or recorded and whose HEAD does not fail; a 404 that is older than its lifetime
      when the table is cleaned goes again. */
  lemma NewRemoteRows(cfg: Config, w: World, inp: RunInput, w': World, p: Path)
    requires RunStep(cfg, w, inp, w') && p !in w.remote
    ensures inp.popular.None? ==> p !in w'.remote
    ensures inp.popular.Some? ==>
              var asked := IsPopular(inp, p) && !Walked(inp, p);
              var row := match inp.head(p)
                case HeadError => None
                case NotFound =>
                  if inp.ttl.Some? && inp.clock(p) < inp.end - inp.ttl.value then None
                  else Some(RemoteRow(None, inp.clock(p)))
                case Found(n) => Some(RemoteRow(Some(n), inp.clock(p)));
              (if p in w'.remote then Some(w'.remote[p]) else None) == if asked then row else None
  {
    if inp.popular.Some? {
      EntryIs(w, inp, p);
      assert p in PathsOf(inp.popular.value) <==> IsPopular(inp, p) by {
        if i :| 0 <= i < |inp.popular.value| && inp.popular.value[i].path == p {
          assert inp.popular.value[i] in inp.popular.value;
        }
      }
    }
  }
}

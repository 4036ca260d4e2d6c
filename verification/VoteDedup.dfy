/** Concurrent vote workers over one table (server/server.go:71-86, db/votes.go:12-33):
    each runs a SELECT and then, if it counted nothing, an INSERT, in any interleaving. */
module VoteDedup {
  import opened Wrappers
  import opened CacheModel
  import opened Votes

  /** window and voteWindow are the configured dedup_window and vote_window in seconds;
      drift bounds the seconds between the two clock readings of one RecordVote. */
  datatype Params = Params(window: nat, drift: nat, voteWindow: nat)

  datatype Worker = Idle | Decided(vote: Vote, cutoff: int, insert: bool)

  /** logs[i] is every vote worker i has sent an INSERT for, kept[i] those of the table's votes
      that it put there; purgedAt is the latest clock reading of a purge. */
  datatype State = State(
    votes: set<Vote>, workers: seq<Worker>, logs: seq<set<Vote>>, kept: seq<set<Vote>>, purgedAt: Option<int>)

  datatype Event =
    | Select(worker: nat, file: Path, prefix: string, now: int, later: int)
    | Insert(worker: nat)
    | Purge(now: int)
    | Restart

  /** The clock may run backwards, but not behind a purge. */
  predicate Enabled(pr: Params, s: State, e: Event) {
    match e
    case Select(i, _, _, now, later) =>
      && i < |s.workers| && s.workers[i].Idle?
      && later <= now + pr.drift
      && (s.purgedAt.Some? ==> later >= s.purgedAt.value)
    case Insert(i) => i < |s.workers| && s.workers[i].Decided?
    case Purge(_) => true
    case Restart => true
  }

  predicate WellFormed(s: State) {
    |s.logs| == |s.kept| == |s.workers|
  }

  function Apply(pr: Params, s: State, e: Event): (after: State)
    requires WellFormed(s) && Enabled(pr, s, e)
    ensures WellFormed(after) && |after.workers| == |s.workers|
  {
    match e
    case Select(i, file, prefix, now, later) =>
      var cutoff := later - pr.window;
      var insert := Recent(s.votes, file, prefix, cutoff) == {};
      s.(workers := s.workers[i := Decided(Vote(file, prefix, now), cutoff, insert)])
    case Insert(i) =>
      var w := s.workers[i];
      // a duplicate key makes the INSERT fail, which leaves the table as it is
      if w.insert then
        s.(votes := s.votes + {w.vote}, logs := s.logs[i := s.logs[i] + {w.vote}],
           kept := if w.vote in s.votes then s.kept else s.kept[i := s.kept[i] + {w.vote}],
           workers := s.workers[i := Idle])
      else s.(workers := s.workers[i := Idle])
    case Purge(now) =>
      s.(votes := VotesFrom(s.votes, now - pr.voteWindow),
         kept := seq(|s.kept|, i requires 0 <= i < |s.kept| => VotesFrom(s.kept[i], now - pr.voteWindow)),
         purgedAt := Some(if s.purgedAt.Some? && s.purgedAt.value > now then s.purgedAt.value else now))
    case Restart => s.(workers := seq(|s.workers|, i => Idle))
  }

  /** A worker that is not interrupted leaves the table that RecordVote does. */
  lemma SelectThenInsert(pr: Params, s: State, i: nat, file: Path, prefix: string, now: int, later: int)
    requires WellFormed(s) && Enabled(pr, s, Select(i, file, prefix, now, later))
    ensures Enabled(pr, Apply(pr, s, Select(i, file, prefix, now, later)), Insert(i))
    ensures Apply(pr, Apply(pr, s, Select(i, file, prefix, now, later)), Insert(i)).votes ==
            if exists v :: v in s.votes && v.file == file && v.prefix == prefix && v.at > later - pr.window
            then s.votes else s.votes + {Vote(file, prefix, now)}
  {
    RecentIff(s.votes, file, prefix, later - pr.window);
  }

  function Boot(n: nat): (s: State)
    ensures WellFormed(s) && |s.workers| == n
  {
    State({}, seq(n, i => Idle), seq(n, i => {}), seq(n, i => {}), None)
  }

  ghost predicate Allowed(pr: Params, s: State, es: seq<Event>)
    requires WellFormed(s)
    decreases |es|
  {
    es == [] || (Enabled(pr, s, es[0]) && Allowed(pr, Apply(pr, s, es[0]), es[1..]))
  }

  ghost function Run(pr: Params, s: State, es: seq<Event>): (after: State)
    requires WellFormed(s) && Allowed(pr, s, es)
    ensures WellFormed(after) && |after.workers| == |s.workers|
    decreases |es|
  {
    if es == [] then s else Run(pr, Apply(pr, s, es[0]), es[1..])
  }

  // ---------- One worker never votes twice in a window ----------

  function Min(a: int, b: int): int {
    if a <= b then a else b
  }

  /** The length of time in which one worker sends at most one vote of a key. A purge
      forgets votes older than the vote window. */
  function Span(pr: Params): int {
    Min(pr.window, pr.voteWindow + 1) - pr.drift
  }

  /** .. and in which the table holds at most one of its votes of a key. */
  function TableSpan(pr: Params): int {
    pr.window - pr.drift
  }

  ghost predicate WorkerInv(pr: Params, s: State, i: nat)
    requires WellFormed(s) && i < |s.workers|
  {
    && Apart(Span(pr), s.logs[i])
    && (forall v :: v in s.logs[i] && v !in s.votes ==> s.purgedAt.Some? && v.at < s.purgedAt.value - pr.voteWindow)
    && (s.workers[i].Decided? && s.workers[i].insert ==>
          forall v :: v in s.logs[i] && SameKey(v, s.workers[i].vote) ==> v.at + Span(pr) <= s.workers[i].vote.at)
  }

  ghost predicate KeptInv(pr: Params, s: State, i: nat)
    requires WellFormed(s) && i < |s.workers|
  {
    && s.kept[i] <= s.votes && Apart(TableSpan(pr), s.kept[i])
    && (s.workers[i].Decided? && s.workers[i].insert ==>
          forall v :: v in s.kept[i] && SameKey(v, s.workers[i].vote) ==> v.at + TableSpan(pr) <= s.workers[i].vote.at)
  }

  ghost predicate Inv(pr: Params, s: State) {
    && WellFormed(s)
    && (forall i :: 0 <= i < |s.workers| ==> WorkerInv(pr, s, i) && KeptInv(pr, s, i))
    && Covered(s.votes, s.logs) && Covered(s.votes, s.kept)
  }

  lemma StepKeepsKept(pr: Params, s: State, e: Event, i: nat)
    requires Inv(pr, s) && Enabled(pr, s, e) && i < |s.workers|
    ensures KeptInv(pr, Apply(pr, s, e), i)
  {
    assert KeptInv(pr, s, i);
    if e.Select? && e.worker == i {
      forall v | v in s.kept[i] && SameKey(v, Vote(e.file, e.prefix, e.now))
                 && Recent(s.votes, e.file, e.prefix, e.later - pr.window) == {}
        ensures v.at + TableSpan(pr) <= e.now
      {
        assert v !in Recent(s.votes, e.file, e.prefix, e.later - pr.window);
      }
    }
  }

  lemma StepKeepsWorker(pr: Params, s: State, e: Event, i: nat)
    requires Inv(pr, s) && Enabled(pr, s, e) && i < |s.workers|
    ensures WorkerInv(pr, Apply(pr, s, e), i)
  {
    assert WorkerInv(pr, s, i);
    if e.Select? && e.worker == i {
      forall v | v in s.logs[i] && SameKey(v, Vote(e.file, e.prefix, e.now))
                 && Recent(s.votes, e.file, e.prefix, e.later - pr.window) == {}
        ensures v.at + Span(pr) <= e.now
      {
        assert v in s.votes ==> v !in Recent(s.votes, e.file, e.prefix, e.later - pr.window);
      }
    }
  }

  lemma StepKeepsCovers(pr: Params, s: State, e: Event)
    requires Inv(pr, s) && Enabled(pr, s, e)
    ensures Covered(Apply(pr, s, e).votes, Apply(pr, s, e).logs) && Covered(Apply(pr, s, e).votes, Apply(pr, s, e).kept)
  {
    var after := Apply(pr, s, e);
    forall v | v in after.votes
      ensures exists i :: 0 <= i < |after.logs| && v in after.logs[i]
      ensures exists i :: 0 <= i < |after.kept| && v in after.kept[i]
    {
      if v in s.votes {
        var i :| 0 <= i < |s.logs| && v in s.logs[i];
        var j :| 0 <= j < |s.kept| && v in s.kept[j];
        assert v in after.logs[i] && v in after.kept[j];
      } else {
        assert v in after.logs[e.worker] && v in after.kept[e.worker];
      }
    }
  }

  lemma StepKeepsInv(pr: Params, s: State, e: Event)
    requires Inv(pr, s) && Enabled(pr, s, e)
    ensures Inv(pr, Apply(pr, s, e))
  {
    forall i | 0 <= i < |s.workers| ensures WorkerInv(pr, Apply(pr, s, e), i) && KeptInv(pr, Apply(pr, s, e), i) {
      StepKeepsWorker(pr, s, e, i);
      StepKeepsKept(pr, s, e, i);
    }
    StepKeepsCovers(pr, s, e);
  }

  lemma {:induction false} RunKeepsInv(pr: Params, s: State, es: seq<Event>)
    requires Inv(pr, s) && Allowed(pr, s, es)
    ensures Inv(pr, Run(pr, s, es))
    decreases |es|
  {
    if es != [] {
      StepKeepsInv(pr, s, es[0]);
      RunKeepsInv(pr, Apply(pr, s, es[0]), es[1..]);
    }
  }

  // ---------- The window bound ----------

  /** The votes of one key in the half-open window (from, to]. */
  function InWindow(votes: set<Vote>, file: Path, prefix: string, from: int, to: int): set<Vote> {
    set v | v in votes && v.file == file && v.prefix == prefix && from < v.at <= to
  }

  /** Every vote any worker has recorded, purged since or not. */
  function Recorded(s: State): set<Vote> {
    set i, v | 0 <= i < |s.logs| && v in s.logs[i] :: v
  }

  ghost predicate Covered(s: set<Vote>, logs: seq<set<Vote>>) {
    forall v :: v in s ==> exists i :: 0 <= i < |logs| && v in logs[i]
  }

  lemma RestIsCovered(s: set<Vote>, logs: seq<set<Vote>>)
    requires |logs| > 0 && Covered(s, logs)
    ensures Covered(s - logs[0], logs[1..])
  {
    forall v | v in s - logs[0] ensures exists i :: 0 <= i < |logs[1..]| && v in logs[1..][i] {
      var i :| 0 <= i < |logs| && v in logs[i];
      assert logs[1..][i - 1] == logs[i];
    }
  }

  lemma AtMostOne(s: set<Vote>)
    requires forall u, v :: u in s && v in s ==> u == v
    ensures |s| <= 1
  {
    if s != {} {
      var v :| v in s;
      assert s == {v};
    }
  }

  /** Each of the logs shares at most one vote with s. */
  ghost predicate SharesOne(s: set<Vote>, logs: seq<set<Vote>>) {
    forall i :: 0 <= i < |logs| ==> |s * logs[i]| <= 1
  }

  lemma RestSharesOne(s: set<Vote>, logs: seq<set<Vote>>)
    requires |logs| > 0 && SharesOne(s, logs)
    ensures SharesOne(s - logs[0], logs[1..])
  {
    forall i | 0 <= i < |logs[1..]| ensures |(s - logs[0]) * logs[1..][i]| <= 1 {
      Subset((s - logs[0]) * logs[1..][i], s * logs[i + 1]);
    }
  }

  lemma SplitSize(s: set<Vote>, part: set<Vote>)
    ensures |s| == |s * part| + |s - part|
  {
    assert s == s * part + (s - part);
  }

  /** If together they cover it, s is no bigger than their number. */
  lemma {:induction false} OneEach(s: set<Vote>, logs: seq<set<Vote>>)
    requires Covered(s, logs) && SharesOne(s, logs)
    ensures |s| <= |logs|
  {
    if |logs| == 0 {
      assert s == {};
    } else {
      RestIsCovered(s, logs);
      RestSharesOne(s, logs);
      OneEach(s - logs[0], logs[1..]);
      SplitSize(s, logs[0]);
      assert |s * logs[0]| <= 1;
    }
  }

  /** One vote of the key for every second of (from, from + len]. */
  function EverySecond(file: Path, prefix: string, from: int, len: nat): (s: set<Vote>)
    ensures forall v :: v in s <==> v.file == file && v.prefix == prefix && from < v.at <= from + len
  {
    if len == 0 then {} else EverySecond(file, prefix, from, len - 1) + {Vote(file, prefix, from + len)}
  }

  lemma {:induction false} SecondsBound(file: Path, prefix: string, from: int, len: nat)
    ensures |EverySecond(file, prefix, from, len)| == len
  {
    if len > 0 {
      SecondsBound(file, prefix, from, len - 1);
    }
  }

  /** The table's primary key allows one vote of a key a second, so a window of a single
      second bounds every worker whatever the parameters. */
  function Reach(span: int): (reach: nat)
    ensures reach > 0
  {
    if span > 1 then span else 1
  }

  /** logs accounts for all, and no log has two votes of a key closer than span. */
  ghost predicate Spread(all: set<Vote>, logs: seq<set<Vote>>, span: int) {
    Covered(all, logs) && forall i :: 0 <= i < |logs| ==> Apart(span, logs[i])
  }

  lemma WindowHoldsAtMost(all: set<Vote>, logs: seq<set<Vote>>, span: int,
                          file: Path, prefix: string, from: int, len: nat)
    requires Spread(all, logs, span) && len <= Reach(span)
    ensures |InWindow(all, file, prefix, from, from + len)| <= Min(|logs|, len)
  {
    var found := InWindow(all, file, prefix, from, from + len);
    forall i | 0 <= i < |logs| ensures |found * logs[i]| <= 1 {
      assert Apart(span, logs[i]);
      AtMostOne(found * logs[i]);
    }
    assert Covered(found, logs);
    OneEach(found, logs);
    SecondsBound(file, prefix, from, len);
    Subset(found, EverySecond(file, prefix, from, len));
  }

  /** Main result: in every state n workers can reach, a window as long as Span, the dedup
      window less what drift and purges take from it, holds at most one vote per worker and
      one per second of one file and prefix, even counting purged votes. The clock need not
      be monotone, except that no SELECT reads it behind a purge. */
  lemma WindowBound(pr: Params, n: nat, es: seq<Event>, file: Path, prefix: string, from: int, len: nat)
    requires Allowed(pr, Boot(n), es) && len <= Reach(Span(pr))
    ensures var s := Run(pr, Boot(n), es);
            |InWindow(Recorded(s), file, prefix, from, from + len)| <= Min(n, len) && s.votes <= Recorded(s)
  {
    RunKeepsInv(pr, Boot(n), es);
    var s := Run(pr, Boot(n), es);
    forall i | 0 <= i < n ensures Apart(Span(pr), s.logs[i]) {
      assert WorkerInv(pr, s, i);
    }
    WindowHoldsAtMost(Recorded(s), s.logs, Span(pr), file, prefix, from, len);
  }

  // ---------- When the promise of one vote per window holds ----------

  /** What the documentation promises: votes of one key are at least the window apart. */
  ghost predicate OncePerWindow(pr: Params, votes: set<Vote>) {
    Apart(pr.window, votes)
  }

  ghost predicate AlwaysOncePerWindow(pr: Params, n: nat) {
    forall es :: Allowed(pr, Boot(n), es) ==> OncePerWindow(pr, Recorded(Run(pr, Boot(n), es)))
  }

  lemma {:induction false} RunSnoc(pr: Params, s: State, es: seq<Event>, e: Event)
    requires WellFormed(s) && Allowed(pr, s, es) && Enabled(pr, Run(pr, s, es), e)
    ensures Allowed(pr, s, es + [e]) && Run(pr, s, es + [e]) == Apply(pr, Run(pr, s, es), e)
    decreases |es|
  {
    if es == [] {
      var rest := [e][1..];
      assert es + [e] == [e] && rest == [];
      assert Allowed(pr, Apply(pr, s, e), rest) && Run(pr, Apply(pr, s, e), rest) == Apply(pr, s, e);
    } else {
      assert (es + [e])[0] == es[0] && (es + [e])[1..] == es[1..] + [e];
      RunSnoc(pr, Apply(pr, s, es[0]), es[1..], e);
    }
  }

  /** A run that records two votes of one key less than the window apart breaks the promise. */
  lemma TwoVotesBreak(pr: Params, n: nat, es: seq<Event>, at: int, i: nat, j: nat)
    requires Allowed(pr, Boot(n), es) && 0 < at < pr.window && i < n && j < n
    requires Vote("f", "p", 0) in Run(pr, Boot(n), es).logs[i]
    requires Vote("f", "p", at) in Run(pr, Boot(n), es).logs[j]
    ensures !AlwaysOncePerWindow(pr, n)
  {
    var s := Run(pr, Boot(n), es);
    assert Vote("f", "p", 0) in Recorded(s) && Vote("f", "p", at) in Recorded(s);
    assert !OncePerWindow(pr, Recorded(s));
  }

  /** Two workers both count before either inserts. */
  lemma TwoWorkersRace(pr: Params, n: nat)
    requires n >= 2 && pr.window >= 2
    ensures !AlwaysOncePerWindow(pr, n)
  {
    var e1, e2, e3, e4 := Select(0, "f", "p", 0, 0), Select(1, "f", "p", 1, 1), Insert(0), Insert(1);
    RunSnoc(pr, Boot(n), [], e1);
    RunSnoc(pr, Boot(n), [] + [e1], e2);
    RunSnoc(pr, Boot(n), [] + [e1] + [e2], e3);
    RunSnoc(pr, Boot(n), [] + [e1] + [e2] + [e3], e4);
    TwoVotesBreak(pr, n, [] + [e1] + [e2] + [e3] + [e4], 1, 0, 1);
  }

  /** The run in which worker 0 votes at 0 and stands ready to vote again. */
  lemma VotedAtZero(pr: Params, n: nat) returns (es: seq<Event>)
    requires n >= 1
    ensures Allowed(pr, Boot(n), es)
    ensures var s := Run(pr, Boot(n), es);
            && s.votes == {Vote("f", "p", 0)} && s.logs[0] == {Vote("f", "p", 0)}
            && s.workers[0] == Idle && s.purgedAt == None
    ensures forall i :: 0 <= i < |es| ==> !es[i].Purge?
  {
    RunSnoc(pr, Boot(n), [], Select(0, "f", "p", 0, 0));
    RunSnoc(pr, Boot(n), [] + [Select(0, "f", "p", 0, 0)], Insert(0));
    es := [] + [Select(0, "f", "p", 0, 0)] + [Insert(0)];
  }

  /** A purge inside the dedup window makes even one worker forget. */
  lemma PurgeForgets(pr: Params, n: nat)
    requires n >= 1 && pr.window > pr.voteWindow + 1
    ensures !AlwaysOncePerWindow(pr, n)
  {
    var t := pr.voteWindow + 1;
    var es := VotedAtZero(pr, n);
    var e1, e2, e3 := Purge(t), Select(0, "f", "p", t, t), Insert(0);
    RunSnoc(pr, Boot(n), es, e1);
    assert Run(pr, Boot(n), es + [e1]).votes == {};
    RunSnoc(pr, Boot(n), es + [e1], e2);
    RunSnoc(pr, Boot(n), es + [e1] + [e2], e3);
    TwoVotesBreak(pr, n, es + [e1] + [e2] + [e3], t, 0, 0);
  }

  /** A second that passes between the two clock readings is missing from the window. */
  lemma DriftForgets(pr: Params, n: nat)
    requires n >= 1 && pr.window >= 2 && pr.drift >= 1
    ensures !AlwaysOncePerWindow(pr, n)
  {
    var es := VotedAtZero(pr, n);
    var e1, e2 := Select(0, "f", "p", pr.window - 1, pr.window), Insert(0);
    assert Recent(Run(pr, Boot(n), es).votes, "f", "p", 0) == {};
    RunSnoc(pr, Boot(n), es, e1);
    RunSnoc(pr, Boot(n), es + [e1], e2);
    TwoVotesBreak(pr, n, es + [e1] + [e2], pr.window - 1, 0, 0);
  }

  /** Main result: the documented promise holds in every run exactly when one worker runs,
      reads the clock once, and purges never reach into the dedup window; or when the
      window is too short to separate two seconds. */
  lemma PromiseHoldsIff(pr: Params, n: nat)
    requires n >= 1
    ensures AlwaysOncePerWindow(pr, n) <==>
            pr.window <= 1 || (n == 1 && pr.drift == 0 && pr.window <= pr.voteWindow + 1)
  {
    if pr.window >= 2 {
      if n >= 2 {
        TwoWorkersRace(pr, n);
      } else if pr.drift >= 1 {
        DriftForgets(pr, n);
      } else if pr.window > pr.voteWindow + 1 {
        PurgeForgets(pr, n);
      } else {
        forall es | Allowed(pr, Boot(n), es) ensures OncePerWindow(pr, Recorded(Run(pr, Boot(n), es))) {
          RunKeepsInv(pr, Boot(n), es);
          assert WorkerInv(pr, Run(pr, Boot(n), es), 0);
        }
      }
    }
  }

  // ---------- How popular one prefix can make a file ----------

  /** The most votes one prefix can give a file in len seconds: in each full Reach one per
      worker, and in what is left one per worker or second. */
  function Most(reach: nat, n: nat, len: nat): nat
    requires reach > 0
    decreases len
  {
    if len <= reach then Min(n, len) else Min(n, reach) + Most(reach, n, len - reach)
  }

  lemma DivisionStep(a: nat, d: nat)
    requires 0 < d <= a
    ensures a / d == (a - d) / d + 1 && a % d == (a - d) % d
  {
    var q, r := (a - d) / d, (a - d) % d;
    assert a - d == q * d + r;
    assert a == a / d * d + a % d;
    assert (a / d - q - 1) * d == r - a % d by {
      assert (a / d - q - 1) * d == a / d * d - q * d - d;
    }
    FarFromZero(a / d - q - 1, d);
  }

  lemma FarFromZero(k: int, d: int)
    requires d > 0
    ensures k >= 1 ==> k * d >= d
    ensures k <= -1 ==> k * d <= -d
  {
  }

  lemma {:induction false} MostInClosedForm(reach: nat, n: nat, len: nat)
    requires reach > 0 && len > 0
    ensures Most(reach, n, len) == (len - 1) / reach * Min(n, reach) + Min(n, (len - 1) % reach + 1)
    decreases len
  {
    if len > reach {
      MostInClosedForm(reach, n, len - reach);
      DivisionStep(len - 1, reach);
      OneMore((len - 1 - reach) / reach, Min(n, reach));
    }
  }

  lemma OneMore(q: int, k: int)
    ensures (q + 1) * k == q * k + k
  {
  }

  lemma {:induction false} MostGrows(reach: nat, n: nat, a: nat, b: nat)
    requires reach > 0 && a <= b
    ensures Most(reach, n, a) <= Most(reach, n, b)
    decreases b
  {
    if reach < a {
      MostGrows(reach, n, a - reach, b - reach);
    } else if reach < b {
      assert Min(n, a) <= Min(n, reach);
    }
  }

  /** Cutting an interval into windows. */
  lemma {:induction false} IntervalBound(all: set<Vote>, logs: seq<set<Vote>>, span: int,
                                         file: Path, prefix: string, from: int, len: nat)
    requires Spread(all, logs, span)
    ensures |InWindow(all, file, prefix, from, from + len)| <= Most(Reach(span), |logs|, len)
    decreases len
  {
    var reach := Reach(span);
    if len <= reach {
      WindowHoldsAtMost(all, logs, span, file, prefix, from, len);
    } else {
      WindowHoldsAtMost(all, logs, span, file, prefix, from, reach);
      IntervalBound(all, logs, span, file, prefix, from + reach, len - reach);
      assert from + reach + (len - reach) == from + len;
      CutWindow(all, file, prefix, from, from + reach, from + len);
    }
  }

  lemma CutWindow(all: set<Vote>, file: Path, prefix: string, from: int, mid: int, to: int)
    ensures |InWindow(all, file, prefix, from, to)|
            <= |InWindow(all, file, prefix, from, mid)| + |InWindow(all, file, prefix, mid, to)|
  {
    var first, rest := InWindow(all, file, prefix, from, mid), InWindow(all, file, prefix, mid, to);
    Subset(InWindow(all, file, prefix, from, to), first + rest);
    assert |first + rest| == |first| + |rest| - |first * rest|;
  }

  /** The most votes of one prefix that the table can hold in [since, now]. */
  function PrefixShare(pr: Params, n: nat, since: int, now: int): nat
    requires since <= now
  {
    Most(Reach(TableSpan(pr)), n, now - since + 1)
  }

  lemma OnePrefix(pr: Params, s: State, file: Path, prefix: string, since: int, now: int)
    requires Inv(pr, s) && since <= now
    ensures |InWindow(s.votes, file, prefix, since - 1, now)| <= PrefixShare(pr, |s.workers|, since, now)
  {
    forall i | 0 <= i < |s.kept| ensures Apart(TableSpan(pr), s.kept[i]) {
      assert KeptInv(pr, s, i);
    }
    IntervalBound(s.votes, s.kept, TableSpan(pr), file, prefix, since - 1, now - since + 1);
  }

  lemma {:induction false} Subset(a: set<Vote>, b: set<Vote>)
    requires a <= b
    ensures |a| <= |b|
    decreases |a|
  {
    if a != {} {
      var v :| v in a;
      Subset(a - {v}, b - {v});
    }
  }

  function Prefixes(votes: set<Vote>): set<string> {
    set v | v in votes :: v.prefix
  }

  function ByPrefix(votes: set<Vote>, p: string): set<Vote> {
    set v | v in votes && v.prefix == p
  }

  lemma PrefixesWithout(votes: set<Vote>, p: string)
    ensures Prefixes(votes - ByPrefix(votes, p)) == Prefixes(votes) - {p}
    ensures p in Prefixes(votes) ==> |Prefixes(votes)| == |Prefixes(votes) - {p}| + 1
  {
    forall q | q in Prefixes(votes) - {p} ensures q in Prefixes(votes - ByPrefix(votes, p)) {
      var v :| v in votes && v.prefix == q;
      assert v in votes - ByPrefix(votes, p);
    }
  }

  lemma {:induction false} SumOverPrefixes(votes: set<Vote>, share: nat)
    requires forall p :: |ByPrefix(votes, p)| <= share
    ensures |votes| <= |Prefixes(votes)| * share
    decreases |votes|
  {
    if votes != {} {
      var v :| v in votes;
      var p := v.prefix;
      var mine := ByPrefix(votes, p);
      var rest := votes - mine;
      forall q ensures |ByPrefix(rest, q)| <= share {
        Subset(ByPrefix(rest, q), ByPrefix(votes, q));
      }
      SumOverPrefixes(rest, share);
      PrefixesWithout(votes, p);
      assert votes == mine + rest;
      assert |Prefixes(votes)| * share == (|Prefixes(votes)| - 1) * share + share;
    }
  }

  /** Main result: a file that QueryPopular counts votes times was asked for by at least
      votes / share prefixes, so k prefixes alone can give it at most k * share votes. */
  lemma PopularityBound(pr: Params, n: nat, es: seq<Event>, file: Path, since: int, now: int)
    requires Allowed(pr, Boot(n), es) && since <= now
    requires forall v :: v in Run(pr, Boot(n), es).votes ==> v.at <= now
    ensures var counted := Since(Run(pr, Boot(n), es).votes, file, since);
            |counted| <= |Prefixes(counted)| * PrefixShare(pr, n, since, now)
  {
    RunKeepsInv(pr, Boot(n), es);
    var s := Run(pr, Boot(n), es);
    var counted := Since(s.votes, file, since);
    forall p ensures |ByPrefix(counted, p)| <= PrefixShare(pr, n, since, now) {
      OnePrefix(pr, s, file, p, since, now);
      assert ByPrefix(counted, p) == InWindow(s.votes, file, p, since - 1, now);
    }
    SumOverPrefixes(counted, PrefixShare(pr, n, since, now));
  }

  // ---------- The bound is attained ----------

  /** A worker that has counted and will insert a vote. */
  datatype Pending = Pending(worker: nat, at: int)

  /** The workers of q stand ready to insert, in the order of their times, and everything
      already in the table is older. */
  ghost predicate Queued(prefix: string, s: State, q: seq<Pending>, count: nat) {
    && WellFormed(s) && s.purgedAt == None && |s.votes| == count
    && (forall k :: 0 <= k < |q| ==>
          && q[k].worker < |s.workers| && q[k].at >= 0
          && s.workers[q[k].worker].Decided? && s.workers[q[k].worker].insert
          && s.workers[q[k].worker].vote == Vote("f", prefix, q[k].at))
    && (forall k, l :: 0 <= k < l < |q| ==> q[k].worker != q[l].worker && q[k].at < q[l].at)
    && (forall v :: v in s.votes ==> v.file == "f" && v.prefix == prefix && v.at >= 0)
    && (forall v, k :: v in s.votes && 0 <= k < |q| ==> v.at < q[k].at)
  }

  lemma InsertFirst(prefix: string, pr: Params, s: State, q: seq<Pending>, count: nat)
    requires Queued(prefix, s, q, count) && q != []
    ensures Enabled(pr, s, Insert(q[0].worker))
    ensures var after := Apply(pr, s, Insert(q[0].worker));
            && Queued(prefix, after, q[1..], count + 1) && after.workers[q[0].worker] == Idle
            && after.votes == s.votes + {Vote("f", prefix, q[0].at)}
  {
    assert forall k :: 0 <= k < |q[1..]| ==> q[1..][k] == q[k + 1];
    assert Vote("f", prefix, q[0].at) !in s.votes;
  }

  lemma SelectNext(prefix: string, pr: Params, s: State, q: seq<Pending>, count: nat, i: nat, at: int)
    requires Queued(prefix, s, q, count) && i < |s.workers| && s.workers[i] == Idle && at >= 0
    requires forall v :: v in s.votes ==> v.at + Reach(TableSpan(pr)) <= at
    requires forall k :: 0 <= k < |q| ==> q[k].at < at
    ensures Enabled(pr, s, Select(i, "f", prefix, at, at + pr.drift))
    ensures Queued(prefix, Apply(pr, s, Select(i, "f", prefix, at, at + pr.drift)), q + [Pending(i, at)], count)
  {
    assert Recent(s.votes, "f", prefix, at + pr.drift - pr.window) == {};
  }

  /** q's times are the seconds at which Most grows past count. */
  ghost predicate Greedy(pr: Params, n: nat, q: seq<Pending>, count: nat) {
    && (forall k :: 0 <= k < |q| ==>
          && q[k].at >= 0 && q[k].at < q[0].at + Reach(TableSpan(pr))
          && Most(Reach(TableSpan(pr)), n, q[k].at) == count + k
          && Most(Reach(TableSpan(pr)), n, q[k].at + 1) == count + k + 1)
  }

  /** A run of requests for one file from one prefix. */
  ghost predicate OnlyKey(es: seq<Event>, file: Path, prefix: string) {
    forall i :: 0 <= i < |es| ==> es[i].Insert? || (es[i].Select? && es[i].file == file && es[i].prefix == prefix)
  }

  ghost predicate Reaches(prefix: string, pr: Params, n: nat, es: seq<Event>, q: seq<Pending>, count: nat) {
    Allowed(pr, Boot(n), es) && OnlyKey(es, "f", prefix) && Queued(prefix, Run(pr, Boot(n), es), q, count)
  }

  /** Workers 0 to m - 1, each a second after the one before. */
  function Round(m: nat): seq<Pending> {
    seq(m, (k: nat) => Pending(k, k))
  }

  lemma RoundIsGreedy(pr: Params, n: nat, m: nat)
    requires m <= n && m <= Reach(TableSpan(pr))
    ensures Greedy(pr, n, Round(m), 0)
  {
  }

  /** Worker k counts a second after worker k - 1. */
  lemma RoundNext(prefix: string, pr: Params, n: nat, es: seq<Event>, k: nat)
    requires k < n && Reaches(prefix, pr, n, es, Round(k), 0) && Run(pr, Boot(n), es).workers[k] == Idle
    ensures Reaches(prefix, pr, n, es + [Select(k, "f", prefix, k, k + pr.drift)], Round(k + 1), 0)
    ensures Run(pr, Boot(n), es + [Select(k, "f", prefix, k, k + pr.drift)])
            == Apply(pr, Run(pr, Boot(n), es), Select(k, "f", prefix, k, k + pr.drift))
  {
    SelectNext(prefix, pr, Run(pr, Boot(n), es), Round(k), 0, k, k);
    RunSnoc(pr, Boot(n), es, Select(k, "f", prefix, k, k + pr.drift));
    assert Round(k) + [Pending(k, k)] == Round(k + 1);
  }

  /** The first m workers count before any of them inserts. */
  lemma {:induction false} FirstRound(prefix: string, pr: Params, n: nat, m: nat) returns (es: seq<Event>)
    requires m <= n
    ensures Reaches(prefix, pr, n, es, Round(m), 0)
    ensures forall i :: m <= i < n ==> Run(pr, Boot(n), es).workers[i] == Idle
  {
    if m == 0 {
      es := [];
    } else {
      es := FirstRound(prefix, pr, n, m - 1);
      RoundNext(prefix, pr, n, es, m - 1);
      es := es + [Select(m - 1, "f", prefix, m - 1, m - 1 + pr.drift)];
    }
  }

  lemma MostStep(reach: nat, n: nat, at: nat)
    requires reach > 0
    ensures Most(reach, n, at + reach) == Most(reach, n, at) + Min(n, reach)
  {
  }

  lemma GreedyTurn(pr: Params, n: nat, q: seq<Pending>, count: nat)
    requires Greedy(pr, n, q, count) && |q| == Min(n, Reach(TableSpan(pr))) > 0
    requires forall k, l :: 0 <= k < l < |q| ==> q[k].at < q[l].at
    ensures Greedy(pr, n, q[1..] + [Pending(q[0].worker, q[0].at + Reach(TableSpan(pr)))], count + 1)
  {
    var q' := q[1..] + [Pending(q[0].worker, q[0].at + Reach(TableSpan(pr)))];
    assert q'[|q| - 1].at == q[0].at + Reach(TableSpan(pr)) && q'[0].at > q[0].at;
    MostStep(Reach(TableSpan(pr)), n, q[0].at);
    MostStep(Reach(TableSpan(pr)), n, q[0].at + 1);
    assert forall k :: 0 <= k < |q| - 1 ==> q'[k] == q[k + 1];
  }

  /** An idle worker counts, late enough to find nothing. */
  lemma ReachesNext(prefix: string, pr: Params, n: nat, es: seq<Event>, q: seq<Pending>, count: nat, i: nat, at: int)
    requires Reaches(prefix, pr, n, es, q, count) && i < n && Run(pr, Boot(n), es).workers[i] == Idle && at >= 0
    requires forall v :: v in Run(pr, Boot(n), es).votes ==> v.at + Reach(TableSpan(pr)) <= at
    requires forall k :: 0 <= k < |q| ==> q[k].at < at
    ensures Reaches(prefix, pr, n, es + [Select(i, "f", prefix, at, at + pr.drift)], q + [Pending(i, at)], count)
  {
    SelectNext(prefix, pr, Run(pr, Boot(n), es), q, count, i, at);
    RunSnoc(pr, Boot(n), es, Select(i, "f", prefix, at, at + pr.drift));
  }

  /** The first worker of the queue inserts, and counts again as soon as it may. */
  lemma Turn(prefix: string, pr: Params, n: nat, es: seq<Event>, q: seq<Pending>, count: nat)
      returns (es': seq<Event>, q': seq<Pending>)
    requires Reaches(prefix, pr, n, es, q, count) && Greedy(pr, n, q, count)
    requires |q| == Min(n, Reach(TableSpan(pr))) > 0
    ensures q' == q[1..] + [Pending(q[0].worker, q[0].at + Reach(TableSpan(pr)))]
    ensures Reaches(prefix, pr, n, es', q', count + 1) && Greedy(pr, n, q', count + 1)
  {
    var i, at := q[0].worker, q[0].at + Reach(TableSpan(pr));
    InsertFirst(prefix, pr, Run(pr, Boot(n), es), q, count);
    RunSnoc(pr, Boot(n), es, Insert(i));
    assert Reaches(prefix, pr, n, es + [Insert(i)], q[1..], count + 1);
    ReachesNext(prefix, pr, n, es + [Insert(i)], q[1..], count + 1, i, at);
    GreedyTurn(pr, n, q, count);
    es', q' := es + [Insert(i)] + [Select(i, "f", prefix, at, at + pr.drift)], q[1..] + [Pending(i, at)];
  }

  /** When no turn's vote would come before len, the votes so far are the most there can be. */
  lemma GreedyStops(pr: Params, n: nat, q: seq<Pending>, count: nat, len: nat)
    requires Greedy(pr, n, q, count) && |q| == Min(n, Reach(TableSpan(pr))) > 0
    requires q[|q| - 1].at < len <= q[0].at + Reach(TableSpan(pr))
    ensures Most(Reach(TableSpan(pr)), n, len) == count + |q|
  {
    var reach, at := Reach(TableSpan(pr)), q[0].at;
    assert Most(reach, n, at + reach) == Min(n, reach) + Most(reach, n, at);
    MostGrows(reach, n, len, at + reach);
    MostGrows(reach, n, q[|q| - 1].at + 1, len);
  }

  /** Turns are taken as long as their votes come before len. */
  lemma {:induction false} Turns(prefix: string, pr: Params, n: nat, es: seq<Event>,
                                 q: seq<Pending>, count: nat, len: nat)
      returns (es': seq<Event>, q': seq<Pending>, count': nat)
    requires Reaches(prefix, pr, n, es, q, count) && Greedy(pr, n, q, count)
    requires |q| == Min(n, Reach(TableSpan(pr))) > 0 && q[|q| - 1].at < len
    ensures Reaches(prefix, pr, n, es', q', count') && |q'| == |q| && q'[|q| - 1].at < len
    ensures Most(Reach(TableSpan(pr)), n, len) == count' + |q|
    decreases len - q[0].at
  {
    if q[0].at + Reach(TableSpan(pr)) < len {
      es', q' := Turn(prefix, pr, n, es, q, count);
      es', q', count' := Turns(prefix, pr, n, es', q', count + 1, len);
    } else {
      GreedyStops(pr, n, q, count, len);
      es', q', count' := es, q, count;
    }
  }

  /** Everyone inserts. */
  lemma {:induction false} Drain(prefix: string, pr: Params, n: nat, es: seq<Event>,
                                 q: seq<Pending>, count: nat, len: nat)
      returns (es': seq<Event>)
    requires Reaches(prefix, pr, n, es, q, count) && forall k :: 0 <= k < |q| ==> q[k].at < len
    requires forall v :: v in Run(pr, Boot(n), es).votes ==> v.at < len
    ensures Reaches(prefix, pr, n, es', [], count + |q|) && forall v :: v in Run(pr, Boot(n), es').votes ==> v.at < len
    decreases |q|
  {
    if q == [] {
      es' := es;
    } else {
      InsertFirst(prefix, pr, Run(pr, Boot(n), es), q, count);
      RunSnoc(pr, Boot(n), es, Insert(q[0].worker));
      es' := Drain(prefix, pr, n, es + [Insert(q[0].worker)], q[1..], count + 1, len);
    }
  }

  /** The bound is attained, by any number of workers and over any length of time. */
  lemma MostIsAttained(prefix: string, pr: Params, n: nat, len: nat) returns (es: seq<Event>)
    requires n > 0 && len > 0
    ensures Reaches(prefix, pr, n, es, [], Most(Reach(TableSpan(pr)), n, len))
    ensures forall v :: v in Run(pr, Boot(n), es).votes ==> v.at < len
  {
    var m := Min(n, Reach(TableSpan(pr)));
    if len <= m {
      es := FirstRound(prefix, pr, n, len);
      es := Drain(prefix, pr, n, es, Round(len), 0, len);
    } else {
      var q, count;
      es := FirstRound(prefix, pr, n, m);
      RoundIsGreedy(pr, n, m);
      es, q, count := Turns(prefix, pr, n, es, Round(m), 0, len);
      assert forall k :: 0 <= k < |q| - 1 ==> q[k].at < q[|q| - 1].at;
      es := Drain(prefix, pr, n, es, q, count, len);
    }
  }

  /** After some run, a query made at now, not before any vote, lists file although a single
      prefix has voted for it in the vote window. */
  ghost predicate MadePopular(pr: Params, n: nat, es: seq<Event>, now: int, file: Path, minVotes: int) {
    && Allowed(pr, Boot(n), es)
    && var votes := Run(pr, Boot(n), es).votes;
       && (forall v :: v in votes ==> v.at <= now)
       && |Prefixes(Since(votes, file, now - pr.voteWindow))| == 1
       && file in Popular(votes, now - pr.voteWindow, minVotes)
  }

  ghost predicate OnePrefixCan(pr: Params, n: nat, minVotes: int) {
    exists es, now, file :: MadePopular(pr, n, es, now, file, minVotes)
  }

  lemma OnePrefixAttains(pr: Params, n: nat, minVotes: int) returns (es: seq<Event>)
    requires n > 0 && minVotes <= Most(Reach(TableSpan(pr)), n, pr.voteWindow + 1)
    ensures MadePopular(pr, n, es, pr.voteWindow, "f", minVotes)
  {
    es := MostIsAttained("p", pr, n, pr.voteWindow + 1);
    MostGrows(Reach(TableSpan(pr)), n, 1, pr.voteWindow + 1);
    var votes := Run(pr, Boot(n), es).votes;
    assert Since(votes, "f", 0) == votes;
    var v :| v in votes;
    assert Prefixes(votes) == {"p"};
  }

  lemma OnePrefixIsBounded(pr: Params, n: nat, es: seq<Event>, now: int, file: Path, minVotes: int)
    requires MadePopular(pr, n, es, now, file, minVotes)
    ensures minVotes <= Most(Reach(TableSpan(pr)), n, pr.voteWindow + 1)
  {
    PopularityBound(pr, n, es, file, now - pr.voteWindow, now);
    OnlyOnce(|Prefixes(Since(Run(pr, Boot(n), es).votes, file, now - pr.voteWindow))|,
             PrefixShare(pr, n, now - pr.voteWindow, now));
  }

  lemma OnlyOnce(k: nat, share: nat)
    requires k == 1
    ensures k * share == share
  {
  }

  /** Main result: one prefix alone can make a file popular exactly when the minimum is no
      more than Most allows the vote window, although the documentation counts distinct prefixes. */
  lemma OnePrefixSufficesIff(pr: Params, n: nat, minVotes: int)
    requires n > 0
    ensures OnePrefixCan(pr, n, minVotes) <==> minVotes <= Most(Reach(TableSpan(pr)), n, pr.voteWindow + 1)
  {
    if OnePrefixCan(pr, n, minVotes) {
      var es, now, file :| MadePopular(pr, n, es, now, file, minVotes);
      OnePrefixIsBounded(pr, n, es, now, file, minVotes);
    }
    if minVotes <= Most(Reach(TableSpan(pr)), n, pr.voteWindow + 1) {
      var es := OnePrefixAttains(pr, n, minVotes);
    }
  }

  /** For one worker: a vote each time the dedup window less the drift has passed, or each
      second if that is shorter. */
  lemma OneWorkerSufficesIff(pr: Params, minVotes: int)
    ensures OnePrefixCan(pr, 1, minVotes) <==> minVotes <= pr.voteWindow / Reach(TableSpan(pr)) + 1
  {
    OnePrefixSufficesIff(pr, 1, minVotes);
    OneEachReach(Reach(TableSpan(pr)), pr.voteWindow + 1);
  }

  lemma {:induction false} OneEachReach(reach: nat, len: nat)
    requires reach > 0 && len > 0
    ensures Most(reach, 1, len) == (len - 1) / reach + 1
    decreases len
  {
    if len > reach {
      OneEachReach(reach, len - reach);
      DivisionStep(len - 1, reach);
    }
  }

  // ---------- Purges change no answer ----------

  /** The same run without its purges. */
  function Unpurged(es: seq<Event>): seq<Event> {
    if es == [] then []
    else (if es[0].Purge? then [] else [es[0]]) + Unpurged(es[1..])
  }

  /** b is a with the purged votes still in the table. */
  ghost predicate OnlyPurged(pr: Params, a: State, b: State) {
    && WellFormed(a) && WellFormed(b) && a.workers == b.workers && a.logs == b.logs && b.purgedAt == None
    && a.votes <= b.votes
    && forall v :: v in b.votes && v !in a.votes ==> a.purgedAt.Some? && v.at < a.purgedAt.value - pr.voteWindow
  }

  lemma {:induction false} RunHidesPurges(pr: Params, a: State, b: State, es: seq<Event>)
    requires pr.window <= pr.voteWindow + 1 && OnlyPurged(pr, a, b) && Allowed(pr, a, es)
    ensures Allowed(pr, b, Unpurged(es)) && OnlyPurged(pr, Run(pr, a, es), Run(pr, b, Unpurged(es)))
    decreases |es|
  {
    if es != [] {
      var a' := Apply(pr, a, es[0]);
      if es[0].Purge? {
        assert Unpurged(es) == Unpurged(es[1..]);
        RunHidesPurges(pr, a', b, es[1..]);
      } else {
        assert Unpurged(es)[0] == es[0] && Unpurged(es)[1..] == Unpurged(es[1..]);
        RunHidesPurges(pr, a', Apply(pr, b, es[0]), es[1..]);
      }
    }
  }

  lemma PurgeKeepsPopular(pr: Params, a: State, b: State, now: int, minVotes: int)
    requires OnlyPurged(pr, a, b) && (a.purgedAt.Some? ==> now >= a.purgedAt.value)
    ensures Popular(a.votes, now - pr.voteWindow, minVotes) == Popular(b.votes, now - pr.voteWindow, minVotes)
  {
    PopularSame(a.votes, b.votes, now - pr.voteWindow, minVotes);
  }

  /** Main result: deleting old votes changes neither a worker's decision nor the answer of
      any popularity query made, by the clock, at or after the last purge. */
  lemma PurgeIsInvisible(pr: Params, n: nat, es: seq<Event>, now: int, minVotes: int)
    requires pr.window <= pr.voteWindow + 1 && Allowed(pr, Boot(n), es)
    requires var s := Run(pr, Boot(n), es); s.purgedAt.Some? ==> now >= s.purgedAt.value
    ensures Allowed(pr, Boot(n), Unpurged(es))
    ensures var s, full := Run(pr, Boot(n), es), Run(pr, Boot(n), Unpurged(es));
            && s.workers == full.workers && s.logs == full.logs
            && Popular(s.votes, now - pr.voteWindow, minVotes) == Popular(full.votes, now - pr.voteWindow, minVotes)
  {
    RunHidesPurges(pr, Boot(n), Boot(n), es);
    PurgeKeepsPopular(pr, Run(pr, Boot(n), es), Run(pr, Boot(n), Unpurged(es)), now, minVotes);
  }

  /** No popularity query made, by the clock, at or after the last purge can tell the table
      from one that was never purged. */
  ghost predicate PurgesInvisible(pr: Params, n: nat) {
    forall es, now, minVotes :: SameAnswer(pr, n, es, now, minVotes)
  }

  ghost predicate SameAnswer(pr: Params, n: nat, es: seq<Event>, now: int, minVotes: int) {
    Allowed(pr, Boot(n), es) && !(Run(pr, Boot(n), es).purgedAt.Some? && now < Run(pr, Boot(n), es).purgedAt.value) ==>
      && Allowed(pr, Boot(n), Unpurged(es))
      && Popular(Run(pr, Boot(n), es).votes, now - pr.voteWindow, minVotes)
         == Popular(Run(pr, Boot(n), Unpurged(es)).votes, now - pr.voteWindow, minVotes)
  }

  function VoteAt(t: int): seq<Event> {
    [Select(0, "f", "p", t, t), Insert(0)]
  }

  /** Another vote of worker 0, at t. */
  lemma VoteAgain(pr: Params, n: nat, es: seq<Event>, t: int)
    requires n >= 1 && Allowed(pr, Boot(n), es)
    requires var s := Run(pr, Boot(n), es); s.workers[0] == Idle && (s.purgedAt.Some? ==> t >= s.purgedAt.value)
    ensures Allowed(pr, Boot(n), es + VoteAt(t))
    ensures var after := Run(pr, Boot(n), es + VoteAt(t));
            && after.votes == AfterVote(Run(pr, Boot(n), es).votes, Vote("f", "p", t), t - pr.window)
            && after.purgedAt == Run(pr, Boot(n), es).purgedAt
  {
    RunSnoc(pr, Boot(n), es, Select(0, "f", "p", t, t));
    RunSnoc(pr, Boot(n), es + [Select(0, "f", "p", t, t)], Insert(0));
    assert es + [Select(0, "f", "p", t, t)] + [Insert(0)] == es + VoteAt(t);
  }

  lemma {:induction false} UnpurgedConcat(a: seq<Event>, b: seq<Event>)
    ensures Unpurged(a + b) == Unpurged(a) + Unpurged(b)
  {
    if a == [] {
      assert a + b == b;
    } else {
      assert (a + b)[0] == a[0] && (a + b)[1..] == a[1..] + b;
      UnpurgedConcat(a[1..], b);
    }
  }

  lemma UnpurgedAround(first: seq<Event>, purge: Event, last: seq<Event>)
    requires purge.Purge? && Unpurged(first) == first && Unpurged(last) == last
    ensures Unpurged(first + [purge] + last) == first + last
  {
    UnpurgedConcat(first + [purge], last);
    UnpurgedConcat(first, [purge]);
    assert [purge][1..] == [] && Unpurged([purge]) == [];
    assert first + [] == first;
  }

  lemma {:induction false} UnpurgedIsSame(es: seq<Event>)
    requires forall i :: 0 <= i < |es| ==> !es[i].Purge?
    ensures Unpurged(es) == es
  {
    if es != [] {
      UnpurgedIsSame(es[1..]);
    }
  }

  /** The table with the second vote alone lists the file from second 1 on, the table with the
      first alone does not. */
  lemma OnlyTheNewVoteCounts(t: nat)
    requires t > 0
    ensures Popular({Vote("f", "p", t)}, 1, 1) != Popular({Vote("f", "p", 0)}, 1, 1)
  {
    var purged, full := {Vote("f", "p", t)}, {Vote("f", "p", 0)};
    assert Vote("f", "p", t) in Since(purged, "f", 1);
    assert Since(purged, "f", 1) == purged;
    assert "f" in FilesSince(purged, 1) && "f" !in FilesSince(full, 1);
    assert "f" in Popular(purged, 1, 1) && "f" !in Popular(full, 1, 1);
  }

  lemma VotesWithPurge(pr: Params, n: nat, start: seq<Event>, t: nat)
    requires n >= 1 && t == pr.voteWindow + 1 < pr.window && Allowed(pr, Boot(n), start)
    requires var s := Run(pr, Boot(n), start);
             s.votes == {Vote("f", "p", 0)} && s.workers[0] == Idle && s.purgedAt == None
    ensures Allowed(pr, Boot(n), start + [Purge(t)] + VoteAt(t))
    ensures var s := Run(pr, Boot(n), start + [Purge(t)] + VoteAt(t));
            s.votes == {Vote("f", "p", t)} && s.purgedAt == Some(t)
  {
    RunSnoc(pr, Boot(n), start, Purge(t));
    VoteAgain(pr, n, start + [Purge(t)], t);
  }

  lemma VotesWithoutPurge(pr: Params, n: nat, start: seq<Event>, t: nat)
    requires n >= 1 && t == pr.voteWindow + 1 < pr.window && Allowed(pr, Boot(n), start)
    requires var s := Run(pr, Boot(n), start);
             s.votes == {Vote("f", "p", 0)} && s.workers[0] == Idle && s.purgedAt == None
    ensures Allowed(pr, Boot(n), start + VoteAt(t)) && Run(pr, Boot(n), start + VoteAt(t)).votes == {Vote("f", "p", 0)}
  {
    VoteAgain(pr, n, start, t);
  }

  /** A file asked for at 0 and again just as its vote has been purged has a vote to be counted;
      without the purge the dedup window suppresses it. */
  lemma PurgeIsSeen(pr: Params, n: nat)
    requires n >= 1 && pr.window > pr.voteWindow + 1
    ensures !PurgesInvisible(pr, n)
  {
    var t := pr.voteWindow + 1;
    var start := VotedAtZero(pr, n);
    VotesWithPurge(pr, n, start, t);
    VotesWithoutPurge(pr, n, start, t);
    UnpurgedIsSame(start);
    UnpurgedIsSame(VoteAt(t));
    UnpurgedAround(start, Purge(t), VoteAt(t));
    OnlyTheNewVoteCounts(t);
    OneDifference(pr, n, start + [Purge(t)] + VoteAt(t), start + VoteAt(t), t);
  }

  lemma OneDifference(pr: Params, n: nat, es: seq<Event>, full: seq<Event>, now: int)
    requires Allowed(pr, Boot(n), es) && Allowed(pr, Boot(n), full) && Unpurged(es) == full
    requires Run(pr, Boot(n), es).purgedAt == Some(now)
    requires Popular(Run(pr, Boot(n), es).votes, now - pr.voteWindow, 1)
             != Popular(Run(pr, Boot(n), full).votes, now - pr.voteWindow, 1)
    ensures !PurgesInvisible(pr, n)
  {
    assert !SameAnswer(pr, n, es, now, 1);
  }

  /** Main result: purges never change an answer if and only if the dedup window does not
      reach further back than the purges leave votes. */
  lemma PurgeIsInvisibleIff(pr: Params, n: nat)
    requires n >= 1
    ensures PurgesInvisible(pr, n) <==> pr.window <= pr.voteWindow + 1
  {
    if pr.window <= pr.voteWindow + 1 {
      forall es, now, minVotes ensures SameAnswer(pr, n, es, now, minVotes) {
        if Allowed(pr, Boot(n), es)
           && !(Run(pr, Boot(n), es).purgedAt.Some? && now < Run(pr, Boot(n), es).purgedAt.value) {
          PurgeIsInvisible(pr, n, es, now, minVotes);
        }
      }
    } else {
      PurgeIsSeen(pr, n);
    }
  }
}

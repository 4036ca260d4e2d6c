/** Votes of one file and prefix have nothing to do with any other's, so every prefix that
    asks for a file can give it as many votes as if it were alone. */
module VoteKeys {
  import opened Wrappers
  import opened CacheModel
  import opened Votes
  import opened VoteDedup

  function OfKey(votes: set<Vote>, file: Path, prefix: string): set<Vote> {
    set v | v in votes && v.file == file && v.prefix == prefix
  }

  // ---------- Leaving out every other key's requests ----------

  /** The run without the requests of other keys, the workers in held being about to finish one. */
  function ForKey(es: seq<Event>, file: Path, prefix: string, held: set<nat>): seq<Event> {
    if es == [] then []
    else
      match es[0]
      case Select(i, f, p, _, _) =>
        if f == file && p == prefix then [es[0]] + ForKey(es[1..], file, prefix, held)
        else ForKey(es[1..], file, prefix, held + {i})
      case Insert(i) =>
        if i in held then ForKey(es[1..], file, prefix, held - {i})
        else [es[0]] + ForKey(es[1..], file, prefix, held)
      case Purge(_) => [es[0]] + ForKey(es[1..], file, prefix, held)
      case Restart => [es[0]] + ForKey(es[1..], file, prefix, {})
  }

  ghost predicate HasKey(w: Worker, file: Path, prefix: string) {
    w.Decided? ==> w.vote.file == file && w.vote.prefix == prefix
  }

  /** b is what a is without the votes and requests of other keys. */
  ghost predicate Projects(a: State, b: State, file: Path, prefix: string, held: set<nat>) {
    && WellFormed(a) && WellFormed(b) && |a.workers| == |b.workers| && a.purgedAt == b.purgedAt
    && b.votes == OfKey(a.votes, file, prefix)
    && forall i :: 0 <= i < |a.workers| ==>
         if i in held then a.workers[i].Decided? && !HasKey(a.workers[i], file, prefix) && b.workers[i].Idle?
         else a.workers[i] == b.workers[i] && HasKey(a.workers[i], file, prefix)
  }

  lemma RecentOfKey(a: set<Vote>, b: set<Vote>, file: Path, prefix: string, cutoff: int)
    requires b == OfKey(a, file, prefix)
    ensures Recent(a, file, prefix, cutoff) == Recent(b, file, prefix, cutoff)
  {
  }

  /** A step of the key's own is one of b. */
  lemma OwnStep(pr: Params, a: State, b: State, e: Event, file: Path, prefix: string, held: set<nat>)
    requires Projects(a, b, file, prefix, held) && Enabled(pr, a, e)
    requires e.Select? ==> e.file == file && e.prefix == prefix
    requires e.Insert? ==> e.worker !in held
    ensures Enabled(pr, b, e)
    ensures Projects(Apply(pr, a, e), Apply(pr, b, e), file, prefix, if e.Restart? then {} else held)
  {
    if e.Select? {
      RecentOfKey(a.votes, b.votes, file, prefix, e.later - pr.window);
    }
  }

  /** A step of another key's request is none of b. */
  lemma OtherStep(pr: Params, a: State, b: State, e: Event, file: Path, prefix: string, held: set<nat>)
    requires Projects(a, b, file, prefix, held) && Enabled(pr, a, e)
    requires (e.Select? && !(e.file == file && e.prefix == prefix)) || (e.Insert? && e.worker in held)
    ensures Projects(Apply(pr, a, e), b, file, prefix, if e.Select? then held + {e.worker} else held - {e.worker})
  {
  }

  lemma {:induction false} RunProjects(pr: Params, a: State, b: State, es: seq<Event>,
                                       file: Path, prefix: string, held: set<nat>)
    requires Projects(a, b, file, prefix, held) && Allowed(pr, a, es)
    ensures Allowed(pr, b, ForKey(es, file, prefix, held))
    ensures Run(pr, b, ForKey(es, file, prefix, held)).votes == OfKey(Run(pr, a, es).votes, file, prefix)
    decreases |es|
  {
    if es != [] {
      var e, rest, a' := es[0], es[1..], Apply(pr, a, es[0]);
      if (e.Select? && !(e.file == file && e.prefix == prefix)) || (e.Insert? && e.worker in held) {
        OtherStep(pr, a, b, e, file, prefix, held);
        RunProjects(pr, a', b, rest, file, prefix, if e.Select? then held + {e.worker} else held - {e.worker});
      } else {
        var held' := if e.Restart? then {} else held;
        OwnStep(pr, a, b, e, file, prefix, held);
        RunProjects(pr, a', Apply(pr, b, e), rest, file, prefix, held');
        assert ForKey(es, file, prefix, held) == [e] + ForKey(rest, file, prefix, held');
      }
    }
  }

  /** Main result: leaving out of any run all requests of other files and prefixes leaves the
      votes of this one as they were. */
  lemma KeysAreIndependent(pr: Params, n: nat, es: seq<Event>, file: Path, prefix: string)
    requires Allowed(pr, Boot(n), es)
    ensures Allowed(pr, Boot(n), ForKey(es, file, prefix, {}))
    ensures Run(pr, Boot(n), ForKey(es, file, prefix, {})).votes
            == set v | v in Run(pr, Boot(n), es).votes && v.file == file && v.prefix == prefix
  {
    RunProjects(pr, Boot(n), Boot(n), es, file, prefix, {});
  }

  // ---------- Adding another key's requests ----------

  lemma {:induction false} RunConcat(pr: Params, s: State, a: seq<Event>, b: seq<Event>)
    requires WellFormed(s) && Allowed(pr, s, a) && Allowed(pr, Run(pr, s, a), b)
    ensures Allowed(pr, s, a + b) && Run(pr, s, a + b) == Run(pr, Run(pr, s, a), b)
    decreases |a|
  {
    if a == [] {
      assert a + b == b;
    } else {
      assert (a + b)[0] == a[0] && (a + b)[1..] == a[1..] + b;
      RunConcat(pr, Apply(pr, s, a[0]), a[1..], b);
    }
  }

  /** a is b with rest, the votes of other keys, in the table. */
  ghost predicate OnTop(a: State, b: State, file: Path, prefix: string, rest: set<Vote>) {
    && WellFormed(a) && WellFormed(b) && a.workers == b.workers && a.purgedAt == b.purgedAt == None
    && a.votes == rest + b.votes && b.votes == OfKey(b.votes, file, prefix) && OfKey(rest, file, prefix) == {}
    && forall i :: 0 <= i < |a.workers| ==> HasKey(a.workers[i], file, prefix)
  }

  lemma StepOnTop(pr: Params, a: State, b: State, e: Event, file: Path, prefix: string, rest: set<Vote>)
    requires OnTop(a, b, file, prefix, rest) && Enabled(pr, b, e) && OnlyKey([e], file, prefix)
    ensures Enabled(pr, a, e) && OnTop(Apply(pr, a, e), Apply(pr, b, e), file, prefix, rest)
  {
    assert [e][0] == e;
    assert b.votes == OfKey(a.votes, file, prefix) by {
      assert forall v :: v in rest ==> v !in OfKey(rest, file, prefix);
    }
    if e.Select? {
      RecentOfKey(a.votes, b.votes, file, prefix, e.later - pr.window);
    }
  }

  lemma {:induction false} RunOnTop(pr: Params, a: State, b: State, es: seq<Event>,
                                    file: Path, prefix: string, rest: set<Vote>)
    requires OnTop(a, b, file, prefix, rest) && Allowed(pr, b, es) && OnlyKey(es, file, prefix)
    ensures Allowed(pr, a, es) && OnTop(Run(pr, a, es), Run(pr, b, es), file, prefix, rest)
    decreases |es|
  {
    if es != [] {
      assert [es[0]][0] == es[0];
      StepOnTop(pr, a, b, es[0], file, prefix, rest);
      RunOnTop(pr, Apply(pr, a, es[0]), Apply(pr, b, es[0]), es[1..], file, prefix, rest);
    }
  }

  // ---------- How popular k prefixes can make a file ----------

  function PrefixNo(j: nat): (p: string)
    ensures |p| == j
  {
    seq(j, i => 'p')
  }

  /** Every worker is idle, and the table holds share votes of each of k prefixes, of one file
      and before len. */
  ghost predicate Filled(s: State, n: nat, k: nat, share: nat, len: nat) {
    && s.workers == Boot(n).workers && s.purgedAt == None && |s.logs| == |s.kept| == n
    && |s.votes| == k * share && (forall v :: v in s.votes ==> v.file == "f" && 0 <= v.at < len && |v.prefix| < k)
    && Prefixes(s.votes) == set j | 0 <= j < k :: PrefixNo(j)
  }

  lemma FillOne(pr: Params, n: nat, len: nat, k: nat, s: State) returns (es: seq<Event>)
    requires n > 0 && len > 0 && Filled(s, n, k, Most(Reach(TableSpan(pr)), n, len), len)
    ensures Allowed(pr, s, es) && Filled(Run(pr, s, es), n, k + 1, Most(Reach(TableSpan(pr)), n, len), len)
  {
    var p, share := PrefixNo(k), Most(Reach(TableSpan(pr)), n, len);
    var own := MostIsAttained(p, pr, n, len);
    var b := Run(pr, Boot(n), own);
    assert OfKey(s.votes, "f", p) == {};
    RunOnTop(pr, s, Boot(n), own, "f", p, s.votes);
    var after := Run(pr, s, own);
    RunConcat(pr, s, own, [Restart]);
    es := own + [Restart];
    assert Run(pr, after, [Restart]) == Apply(pr, after, Restart);
    AddPrefix(s.votes, b.votes, k, share);
    MostGrows(Reach(TableSpan(pr)), n, 1, len);
  }

  lemma AddPrefix(rest: set<Vote>, own: set<Vote>, k: nat, share: nat)
    requires |rest| == k * share && |own| == share > 0
    requires (forall v :: v in rest ==> |v.prefix| < k) && forall v :: v in own ==> v.prefix == PrefixNo(k)
    requires Prefixes(rest) == set j | 0 <= j < k :: PrefixNo(j)
    ensures |rest + own| == (k + 1) * share
    ensures Prefixes(rest + own) == set j | 0 <= j < k + 1 :: PrefixNo(j)
  {
    assert rest !! own;
    var v :| v in own;
    assert Prefixes(own) == {PrefixNo(k)} by {
      assert v.prefix in Prefixes(own);
    }
    assert Prefixes(rest + own) == Prefixes(rest) + Prefixes(own);
    assert (k + 1) * share == k * share + share;
  }

  lemma {:induction false} FillAll(pr: Params, n: nat, len: nat, k: nat) returns (es: seq<Event>)
    requires n > 0 && len > 0
    ensures Allowed(pr, Boot(n), es)
    ensures Filled(Run(pr, Boot(n), es), n, k, Most(Reach(TableSpan(pr)), n, len), len)
  {
    if k == 0 {
      es := [];
    } else {
      es := FillAll(pr, n, len, k - 1);
      var more := FillOne(pr, n, len, k - 1, Run(pr, Boot(n), es));
      RunConcat(pr, Boot(n), es, more);
      es := es + more;
    }
  }

  lemma {:induction false} PrefixCount(k: nat)
    ensures |set j | 0 <= j < k :: PrefixNo(j)| == k
  {
    if k > 0 {
      PrefixCount(k - 1);
      var before := set j | 0 <= j < k - 1 :: PrefixNo(j);
      assert (set j | 0 <= j < k :: PrefixNo(j)) == before + {PrefixNo(k - 1)};
      assert forall p :: p in before ==> |p| < k - 1;
    }
  }

  /** After some run, file has minVotes rows in the vote window of a query made at now, not
      before any vote, and they are of k prefixes. */
  ghost predicate VotedBy(pr: Params, n: nat, es: seq<Event>, now: int, file: Path, minVotes: int, k: nat) {
    && Allowed(pr, Boot(n), es)
    && var votes := Run(pr, Boot(n), es).votes;
       var counted := set v | v in votes && v.file == file && v.at >= now - pr.voteWindow;
       && (forall v :: v in votes ==> v.at <= now)
       && |Prefixes(counted)| == k && |counted| >= minVotes
  }

  ghost predicate PrefixesCan(pr: Params, n: nat, minVotes: int, k: nat) {
    exists es, now, file :: VotedBy(pr, n, es, now, file, minVotes, k)
  }

  /** Main result: k prefixes can give a file a number of votes exactly if it is at most k
      times what one can; none gets in another's way. */
  lemma PrefixesSufficeIff(pr: Params, n: nat, minVotes: int, k: nat)
    requires n > 0
    ensures PrefixesCan(pr, n, minVotes, k) <==> minVotes <= k * Most(Reach(TableSpan(pr)), n, pr.voteWindow + 1)
  {
    if PrefixesCan(pr, n, minVotes, k) {
      var es, now, file :| VotedBy(pr, n, es, now, file, minVotes, k);
      PopularityBound(pr, n, es, file, now - pr.voteWindow, now);
    }
    if minVotes <= k * Most(Reach(TableSpan(pr)), n, pr.voteWindow + 1) {
      var es := FillAll(pr, n, pr.voteWindow + 1, k);
      var votes := Run(pr, Boot(n), es).votes;
      assert votes == set v | v in votes && v.file == "f" && v.at >= pr.voteWindow - pr.voteWindow;
      PrefixCount(k);
      assert VotedBy(pr, n, es, pr.voteWindow, "f", minVotes, k);
    }
  }
}

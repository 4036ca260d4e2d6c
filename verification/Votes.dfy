/** The votes table (db/votes.go): one row per file, network prefix and second. */
module Votes {
  import opened CacheModel

  datatype Vote = Vote(file: Path, prefix: string, at: int)

  /** What the SELECT of RecordVote counts. */
  function Recent(votes: set<Vote>, file: Path, prefix: string, cutoff: int): set<Vote> {
    set v | v in votes && v.file == file && v.prefix == prefix && v.at > cutoff
  }

  function Since(votes: set<Vote>, file: Path, since: int): set<Vote> {
    set v | v in votes && v.file == file && v.at >= since
  }

  function FilesSince(votes: set<Vote>, since: int): set<Path> {
    set v | v in votes && v.at >= since :: v.file
  }

  /** The groups of QueryPopular: every file with at least minVotes votes in the window. */
  function Popular(votes: set<Vote>, since: int, minVotes: int): map<Path, nat> {
    map f | f in FilesSince(votes, since) && |Since(votes, f, since)| >= minVotes :: |Since(votes, f, since)|
  }

  predicate SameKey(u: Vote, v: Vote) {
    u.file == v.file && u.prefix == v.prefix
  }

  /** Votes of one key are at least span apart. */
  ghost predicate Apart(span: int, votes: set<Vote>) {
    forall u, v :: u in votes && v in votes && SameKey(u, v) && u != v ==>
      u.at >= v.at + span || v.at >= u.at + span
  }

  /** The table after a request for v whose SELECT used cutoff. */
  function AfterVote(votes: set<Vote>, v: Vote, cutoff: int): set<Vote> {
    if Recent(votes, v.file, v.prefix, cutoff) == {} then votes + {v} else votes
  }

  function VotesFrom(votes: set<Vote>, before: int): set<Vote> {
    set v | v in votes && v.at >= before
  }

  lemma RecentIff(votes: set<Vote>, file: Path, prefix: string, cutoff: int)
    ensures Recent(votes, file, prefix, cutoff) != {} <==>
            exists v :: v in votes && v.file == file && v.prefix == prefix && v.at > cutoff
  {
    if v :| v in votes && v.file == file && v.prefix == prefix && v.at > cutoff {
      assert v in Recent(votes, file, prefix, cutoff);
    }
  }

  lemma OlderIsApart(votes: set<Vote>, v: Vote, cutoff: int, window: nat)
    requires Recent(votes, v.file, v.prefix, cutoff) == {}
    ensures Apart(window, votes) && v.at >= cutoff + window ==> Apart(window, votes + {v})
    ensures v.at > cutoff ==> v in Recent(votes + {v}, v.file, v.prefix, cutoff)
  {
    forall u | u in votes && SameKey(u, v) ensures u.at <= cutoff {
      assert u !in Recent(votes, v.file, v.prefix, cutoff);
    }
  }

  lemma PopularSame(a: set<Vote>, b: set<Vote>, since: int, minVotes: int)
    requires forall v: Vote :: v.at >= since ==> (v in a <==> v in b)
    ensures Popular(a, since, minVotes) == Popular(b, since, minVotes)
  {
    forall f ensures Since(a, f, since) == Since(b, f, since) {
    }
    assert FilesSince(a, since) == FilesSince(b, since);
  }

  ghost predicate Descending(results: seq<PopularFile>) {
    forall i, j :: 0 <= i < j < |results| ==> results[i].votes >= results[j].votes
  }

  ghost predicate Above(results: seq<PopularFile>, rows: map<Path, nat>) {
    forall i, p :: 0 <= i < |results| && p in rows ==> results[i].votes >= rows[p]
  }

  /** results is what the popularity query may answer over votes: once each, most votes first,
      the files with enough rows since the bound, with the number of those rows. */
  ghost predicate Answers(results: seq<PopularFile>, votes: set<Vote>, since: int, minVotes: int) {
    && (forall i, j :: 0 <= i < j < |results| ==>
          results[i].path != results[j].path && results[i].votes >= results[j].votes)
    && (forall i :: 0 <= i < |results| ==>
          && results[i].votes == |set v | v in votes && v.file == results[i].path && v.at >= since|
          && results[i].votes > 0 && results[i].votes >= minVotes)
    && (forall v :: v in votes && v.at >= since
                    && |set u | u in votes && u.file == v.file && u.at >= since| >= minVotes ==>
          exists i :: 0 <= i < |results| && results[i].path == v.file)
  }

  lemma {:induction false} VotesAt(results: seq<PopularFile>, i: nat)
    requires DistinctPaths(results) && i < |results|
    ensures results[i].path in VotesOf(results) && VotesOf(results)[results[i].path] == results[i].votes
  {
    if i < |results| - 1 {
      VotesAt(results[..|results| - 1], i);
    }
  }

  lemma {:induction false} PathsAreVoted(results: seq<PopularFile>)
    ensures PathsOf(results) == VotesOf(results).Keys
  {
    if results != [] {
      var before := results[..|results| - 1];
      PathsAreVoted(before);
      assert results == before + [results[|results| - 1]];
    }
  }

  lemma PopularAnswers(results: seq<PopularFile>, votes: set<Vote>, since: int, minVotes: int)
    requires DistinctPaths(results) && Descending(results)
    requires VotesOf(results) == Popular(votes, since, minVotes)
    ensures Answers(results, votes, since, minVotes)
  {
    forall i | 0 <= i < |results|
      ensures results[i].votes == |set v | v in votes && v.file == results[i].path && v.at >= since|
      ensures results[i].votes > 0 && results[i].votes >= minVotes
    {
      VotesAt(results, i);
      var counted := set v | v in votes && v.file == results[i].path && v.at >= since;
      assert counted == Since(votes, results[i].path, since);
      var v :| v in votes && v.at >= since && v.file == results[i].path;
      assert v in counted;
    }
    PathsAreVoted(results);
    forall v | v in votes && v.at >= since && |set u | u in votes && u.file == v.file && u.at >= since| >= minVotes
      ensures exists i :: 0 <= i < |results| && results[i].path == v.file
    {
      assert Since(votes, v.file, since) == set u | u in votes && u.file == v.file && u.at >= since;
      assert v.file in Popular(votes, since, minVotes);
      assert v.file in PathsOf(results);
    }
  }

  /** The votes an answer gives a file: the number of its rows since the bound, or none if
      there are too few. */
  lemma AnsweredVotes(results: seq<PopularFile>, votes: set<Vote>, since: int, minVotes: int, p: Path)
    requires Answers(results, votes, since, minVotes)
    ensures DistinctPaths(results)
    ensures var n := |set v | v in votes && v.file == p && v.at >= since|;
            && (p in PathsOf(results) <==> n > 0 && n >= minVotes)
            && VoteCount(VotesOf(results), p) == if n >= minVotes then n else 0
  {
    var counted := set v | v in votes && v.file == p && v.at >= since;
    PathsAreVoted(results);
    forall v | v in counted ensures |counted| >= minVotes ==> exists i :: 0 <= i < |results| && results[i].path == p {
      assert counted == set u | u in votes && u.file == v.file && u.at >= since;
    }
    if i :| 0 <= i < |results| && results[i].path == p {
      VotesAt(results, i);
    }
  }

  class VoteTable {
    var votes: set<Vote>

    constructor ()
      ensures votes == {}
    {
      votes := {};
    }

    /** The clock is read twice, first for the vote's time and then for the cutoff. The vote is
        added exactly if the same prefix has no younger vote for the same file. If both
        readings agree, votes a window apart stay so. Afterwards the key counts as voted:
        the same request changes nothing. */
    method RecordVote(file: Path, prefix: string, now: int, later: int, window: nat)
      modifies this
      ensures votes == if exists v :: v in old(votes) && v.file == file && v.prefix == prefix && v.at > later - window
                       then old(votes) else old(votes) + {Vote(file, prefix, now)}
      ensures votes == AfterVote(old(votes), Vote(file, prefix, now), later - window)
      ensures now == later && Apart(window, old(votes)) ==> Apart(window, votes)
      ensures now > later - window ==> Recent(votes, file, prefix, later - window) != {}
      ensures now > later - window ==> AfterVote(votes, Vote(file, prefix, now), later - window) == votes
    {
      var cutoff := later - window;
      var count := |Recent(votes, file, prefix, cutoff)|;
      RecentIff(votes, file, prefix, cutoff);
      if count == 0 {
        OlderIsApart(votes, Vote(file, prefix, now), cutoff, window);
        votes := votes + {Vote(file, prefix, now)};
      }
    }

    /** No query of the votes since before or later, and no dedup decision with a cutoff just
        below it or later, can tell the difference. */
    method DeleteOldVotes(before: int)
      modifies this
      ensures forall v :: v in votes <==> v in old(votes) && v.at >= before
      ensures votes == VotesFrom(old(votes), before)
      ensures forall since, minVotes :: since >= before ==>
                Popular(votes, since, minVotes) == Popular(old(votes), since, minVotes)
      ensures forall file, prefix, cutoff :: cutoff >= before - 1 ==>
                Recent(votes, file, prefix, cutoff) == Recent(old(votes), file, prefix, cutoff)
    {
      forall since, minVotes | since >= before
        ensures Popular(VotesFrom(votes, before), since, minVotes) == Popular(votes, since, minVotes)
      {
        PopularSame(VotesFrom(votes, before), votes, since, minVotes);
      }
      votes := VotesFrom(votes, before);
    }

    /** Lists every popular file once with its count, most votes first. */
    method QueryPopular(since: int, minVotes: int) returns (results: seq<PopularFile>)
      ensures Answers(results, votes, since, minVotes)
    {
      results := MostVotesFirst(Popular(votes, since, minVotes));
      PopularAnswers(results, votes, since, minVotes);
    }
  }

  /** The rows of a query in descending order of count; ties in any order. */
  method MostVotesFirst(groups: map<Path, nat>) returns (results: seq<PopularFile>)
    ensures DistinctPaths(results) && VotesOf(results) == groups
    ensures Descending(results)
  {
    results := [];
    var rows := groups;
    while rows != map[]
      invariant rows.Keys !! VotesOf(results).Keys && VotesOf(results) + rows == groups
      invariant DistinctPaths(results) && PathsOf(results) == VotesOf(results).Keys
      invariant Descending(results) && Above(results, rows)
      decreases rows.Keys
    {
      ghost var _ := SomeLargest(rows);
      var p :| p in rows && forall q :: q in rows ==> rows[q] <= rows[p];
      MoveEntry(VotesOf(results), rows, p);
      StayOrdered(results, rows, p);
      results := results + [PopularFile(p, rows[p])];
      rows := rows - {p};
    }
  }

  lemma StayOrdered(results: seq<PopularFile>, rows: map<Path, nat>, p: Path)
    requires Descending(results) && Above(results, rows)
    requires p in rows && forall q :: q in rows ==> rows[q] <= rows[p]
    ensures Descending(results + [PopularFile(p, rows[p])]) && Above(results + [PopularFile(p, rows[p])], rows - {p})
  {
  }

  lemma MoveEntry(done: map<Path, nat>, rows: map<Path, nat>, p: Path)
    requires p in rows && done.Keys !! rows.Keys
    ensures done[p := rows[p]] + (rows - {p}) == done + rows
    ensures done[p := rows[p]].Keys !! (rows - {p}).Keys
    ensures (rows - {p}).Keys == rows.Keys - {p}
  {
    var l, r := done[p := rows[p]] + (rows - {p}), done + rows;
    assert l.Keys == r.Keys;
    forall q | q in l ensures l[q] == r[q] {
    }
  }

  lemma {:induction false} SomeLargest(rows: map<Path, nat>) returns (p: Path)
    requires rows != map[]
    ensures p in rows && forall q :: q in rows ==> rows[q] <= rows[p]
    decreases |rows|
  {
    p :| p in rows;
    var rest := rows - {p};
    assert forall q :: q in rows && q != p ==> q in rest;
    if rest != map[] {
      var q := SomeLargest(rest);
      if rows[q] > rows[p] {
        p := q;
      }
    }
  }
}

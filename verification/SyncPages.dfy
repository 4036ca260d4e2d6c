/** What convergence is for: over histories of syncs, names that are up to date have all their
    files from one fetch. */
module SyncPages {
  import opened Wrappers
  import opened Normalize
  import opened IndexSync
  import opened IndexSyncPages
  import opened IndexSyncSerials
  import opened SyncRuns

  /** All files of x's directory are generated from one and the same fetch of x. */
  ghost predicate Whole(site: map<(Name, Slot), Content>, x: Name) {
    exists f :: FromFetch(site, x, f)
  }

  /** x's serial is at most v, the latest the remote list has shown, and if it is v the files
      are whole, unless hurt. */
  ghost predicate Tracks(d: Store, x: Name, v: int, hurt: bool) {
    x in d.serials ==> d.serials[x] <= v && (d.serials[x] == v ==> (Whole(d.site, x) <==> !hurt))
  }

  ghost predicate Sound(d: Store, x: Name, v: int) {
    Tracks(d, x, v, false)
  }

  /** x shares its directory with no name that the sync processes or removes. */
  ghost predicate Alone(job: Job, x: Name) {
    OwnsDir(job, x)
    && forall r :: 0 <= r < |job.removed| && job.removed[r] != x ==> NormalizeName(job.removed[r]) != NormalizeName(x)
  }

  /** The latest serial of x that the remote list has shown. */
  function Shown(job: Job, x: Name, v: int): int {
    if x in job.remote then job.remote[x] else v
  }

  /** The sync removes x and has deleted one of its files. */
  ghost predicate Strips(job: Job, s: State, x: Name) {
    x !in job.remote && exists slot :: DeletedSlot(job, s, NormalizeName(x), slot)
  }

  lemma KeptSlots(job: Job, d: Store, ss: seq<State>, n: nat, x: Name)
    requires Behavior(job, d, ss) && n < |ss| && OwnsDir(job, x) && x !in job.todo
    requires forall slot :: !DeletedSlot(job, ss[n], NormalizeName(x), slot)
    ensures Whole(ss[n].store.site, x) <==> Whole(d.site, x)
  {
    forall slot ensures Get(ss[n].store.site, (NormalizeName(x), slot)) == Get(d.site, (NormalizeName(x), slot)) {
      BehaviorKeepsSlot(job, d, ss, n, x, slot);
      assert forall i :: 0 <= i < |ss[n].workers| ==> job.todo[i] in job.todo;
    }
    forall f ensures FromFetch(ss[n].store.site, x, f) <==> FromFetch(d.site, x, f) {
    }
  }

  /** In every reachable state a removal that has deleted or changed the JSON has deleted the
      pages it can, and one that has deleted the serial has deleted all the files it can. */
  lemma RemovalOrder(job: Job, d: Store, ss: seq<State>, n: nat, x: Name)
    requires Behavior(job, d, ss) && n < |ss| && Alone(job, x) && x !in job.remote
    ensures var now := ss[n].store;
            && (FileOf(now, x, Metadata) != FileOf(d, x, Metadata) ==>
                  forall slot <- job.rmPages(x) | slot != Metadata :: FileOf(now, x, slot) == None)
            && (Get(now.serials, x) != Get(d.serials, x) ==>
                  && (forall slot <- job.rmPages(x) | slot != Metadata :: FileOf(now, x, slot) == None)
                  && (job.rmJson(x) ==> FileOf(now, x, Metadata) == None))
  {
    var s := ss[n];
    BehaviorKeepsSerial(job, d, ss, n, x);
    BehaviorKeepsSlot(job, d, ss, n, x, Metadata);
    assert forall i :: 0 <= i < |s.workers| ==> job.todo[i] != x;
    if FileOf(s.store, x, Metadata) != FileOf(d, x, Metadata) {
      var r :| 0 <= r < |job.removed| && NormalizeName(job.removed[r]) == NormalizeName(x)
               && Deletes(job, job.removed[r], Metadata) && Past(job, s, r, Metadata);
      PastDeletes(job, d, ss, n, x, r);
    }
    if Get(s.store.serials, x) != Get(d.serials, x) {
      var r :| 0 <= r < RemovalsDone(job, s) && job.removed[r] == x;
      PastDeletes(job, d, ss, n, x, r);
    }
  }

  lemma PastDeletes(job: Job, d: Store, ss: seq<State>, n: nat, x: Name, r: nat)
    requires Behavior(job, d, ss) && n < |ss| && OwnsDir(job, x)
    requires r < |job.removed| && job.removed[r] == x && Past(job, ss[n], r, Metadata)
    ensures forall slot :: Deletes(job, x, slot) ==> FileOf(ss[n].store, x, slot) == None
  {
    forall slot | Deletes(job, x, slot) ensures FileOf(ss[n].store, x, slot) == None {
      BehaviorKeepsSlot(job, d, ss, n, x, slot);
      assert Past(job, ss[n], r, slot);
      assert DeletedSlot(job, ss[n], NormalizeName(x), slot);
    }
  }

  lemma StrippedIsNotWhole(job: Job, d: Store, ss: seq<State>, n: nat, x: Name)
    requires Behavior(job, d, ss) && n < |ss| && OwnsDir(job, x) && Strips(job, ss[n], x)
    ensures !Whole(ss[n].store.site, x)
  {
    var slot :| DeletedSlot(job, ss[n], NormalizeName(x), slot);
    BehaviorKeepsSlot(job, d, ss, n, x, slot);
    forall f ensures !FromFetch(ss[n].store.site, x, f) {
      assert Get(ss[n].store.site, (NormalizeName(x), slot)) != Some(Page(x, f));
    }
  }

  /** Whether x is hurt if it was before: a raised or deleted serial heals, a removal that has
      deleted a file and left the serial hurts. */
  ghost predicate HurtAfter(job: Job, d: Store, s: State, x: Name, hurt: bool) {
    Get(s.store.serials, x) == Get(d.serials, x) && (hurt || Strips(job, s, x))
  }

  lemma ListedTracks(job: Job, d: Store, ss: seq<State>, n: nat, x: Name, v: int, hurt: bool)
    requires Behavior(job, d, ss) && n < |ss| && WorksOn(job, d.serials) && Alone(job, x)
    requires Tracks(d, x, v, hurt) && x in job.remote && v <= job.remote[x]
    ensures Tracks(ss[n].store, x, job.remote[x], HurtAfter(job, d, ss[n], x, hurt))
  {
    BehaviorKeepsSerial(job, d, ss, n, x);
    if Get(ss[n].store.serials, x) != Get(d.serials, x) {
      SerialsNeverAhead(job, d, ss, n, x);
      assert FromFetch(ss[n].store.site, x, job.fetched(x));
    } else if x in d.serials && d.serials[x] == job.remote[x] {
      KeptSlots(job, d, ss, n, x);
    }
  }

  lemma AwayTracks(job: Job, d: Store, ss: seq<State>, n: nat, x: Name, v: int, hurt: bool)
    requires Behavior(job, d, ss) && n < |ss| && WorksOn(job, d.serials) && Alone(job, x)
    requires Tracks(d, x, v, hurt) && x !in job.remote
    ensures Get(ss[n].store.serials, x) in {None, Get(d.serials, x)}
    ensures Tracks(ss[n].store, x, v, HurtAfter(job, d, ss[n], x, hurt))
  {
    assert x !in job.todo;
    assert !RaisedIn(job, ss[n], x) by {
      BehaviorKeepsSerial(job, d, ss, n, x);
      assert forall i :: 0 <= i < |ss[n].workers| ==> job.todo[i] in job.todo;
    }
    BehaviorKeepsSerial(job, d, ss, n, x);
    if Strips(job, ss[n], x) {
      StrippedIsNotWhole(job, d, ss, n, x);
    } else {
      KeptSlots(job, d, ss, n, x);
    }
  }

  ghost predicate Injective(names: set<Name>) {
    forall a, b :: a in names && b in names && NormalizeName(a) == NormalizeName(b) ==> a == b
  }

  /** Every name the syncs meet is in names. */
  ghost predicate Within(d: Store, h: seq<Sync>, names: set<Name>) {
    d.serials.Keys <= names && forall i :: 0 <= i < |h| ==> h[i].job.remote.Keys <= names
  }

  lemma WithinIsAlone(d: Store, job: Job, names: set<Name>, x: Name)
    requires WorksOn(job, d.serials) && Injective(names) && x in names
    requires d.serials.Keys <= names && job.remote.Keys <= names
    ensures Alone(job, x)
  {
    forall i | 0 <= i < |job.todo| ensures job.todo[i] in names {
      assert job.todo[i] in job.todo;
    }
    forall r | 0 <= r < |job.removed| ensures job.removed[r] in names {
      assert job.removed[r] in job.removed;
    }
  }

  lemma WithinNext(d: Store, h: seq<Sync>, names: set<Name>)
    requires h != [] && SyncFrom(d, h[0]) && Within(d, h, names)
    ensures Within(After(h[0]), h[1..], names)
  {
    forall y | y in After(h[0]).serials ensures y in names {
      BehaviorKeepsSerial(h[0].job, d, h[0].run, |h[0].run| - 1, y);
    }
    assert forall i :: 0 <= i < |h[1..]| ==> h[1..][i] == h[i + 1];
  }

  /** The remote list never shows x at a lower serial than before. */
  ghost predicate NeverFalls(h: seq<Sync>, x: Name, v: int)
    decreases |h|
  {
    h == [] || ((x in h[0].job.remote ==> v <= h[0].job.remote[x]) && NeverFalls(h[1..], x, Shown(h[0].job, x, v)))
  }

  ghost function LastShown(h: seq<Sync>, x: Name, v: int): int
    decreases |h|
  {
    if h == [] then v else LastShown(h[1..], x, Shown(h[0].job, x, v))
  }

  ghost predicate Ran(h: seq<Sync>) {
    forall i :: 0 <= i < |h| ==> h[i].run != []
  }

  /** Every one of the syncs leaves x's serial at v. */
  ghost predicate Steady(h: seq<Sync>, x: Name, v: int)
    requires Ran(h)
  {
    forall i :: 0 <= i < |h| ==> Get(After(h[i]).serials, x) == Some(v)
  }

  ghost predicate StripsAt(h: seq<Sync>, x: Name, i: nat)
    requires Ran(h) && i < |h|
  {
    Strips(h[i].job, h[i].run[|h[i].run| - 1], x)
  }

  /** A sync from whose list x was missing deleted one of its files, and x's serial has been v
      from then on: neither that sync nor a later one deleted it. */
  ghost predicate Stranded(h: seq<Sync>, x: Name, v: int)
    requires Ran(h)
  {
    exists i :: 0 <= i < |h| && StripsAt(h, x, i) && Steady(h[i..], x, v)
  }

  lemma {:induction false} HistoryRan(d: Store, h: seq<Sync>)
    requires History(d, h)
    ensures Ran(h)
    decreases |h|
  {
    if h != [] {
      HistoryRan(After(h[0]), h[1..]);
      assert forall i :: 1 <= i < |h| ==> h[i] == h[1..][i - 1];
    }
  }

  lemma SteadyNext(h: seq<Sync>, x: Name, v: int)
    requires h != [] && Ran(h) && Ran(h[1..])
    ensures Steady(h, x, v) <==> Get(After(h[0]).serials, x) == Some(v) && Steady(h[1..], x, v)
  {
    assert forall i :: 1 <= i < |h| ==> h[i] == h[1..][i - 1];
    assert forall i :: 0 <= i < |h[1..]| ==> h[1..][i] == h[i + 1];
  }

  lemma StrandedTail(h: seq<Sync>, x: Name, v: int, i: nat)
    requires h != [] && Ran(h) && Ran(h[1..]) && 0 < i < |h|
    ensures StripsAt(h, x, i) && Steady(h[i..], x, v) <==> StripsAt(h[1..], x, i - 1) && Steady(h[1..][i - 1..], x, v)
  {
    assert h[1..][i - 1..] == h[i..];
  }

  lemma StrandedNext(h: seq<Sync>, x: Name, v: int)
    requires h != [] && Ran(h) && Ran(h[1..])
    ensures Stranded(h, x, v) <==> (StripsAt(h, x, 0) && Steady(h, x, v)) || Stranded(h[1..], x, v)
  {
    assert h[0..] == h;
    if i :| 0 <= i < |h| && StripsAt(h, x, i) && Steady(h[i..], x, v) {
      if i > 0 {
        StrandedTail(h, x, v, i);
      }
    }
    if i :| 0 <= i < |h[1..]| && StripsAt(h[1..], x, i) && Steady(h[1..][i..], x, v) {
      StrandedTail(h, x, v, i + 1);
    }
  }

  lemma FirstTracks(d: Store, h: seq<Sync>, x: Name, v: int, hurt: bool, names: set<Name>)
    requires h != [] && SyncFrom(d, h[0]) && Within(d, h, names) && Injective(names) && x in names
    requires (x in h[0].job.remote ==> v <= h[0].job.remote[x]) && Tracks(d, x, v, hurt)
    ensures var job, s := h[0].job, h[0].run[|h[0].run| - 1];
            && Tracks(s.store, x, Shown(job, x, v), HurtAfter(job, d, s, x, hurt))
            && (x !in job.remote ==> Get(s.store.serials, x) in {None, Get(d.serials, x)})
  {
    WithinIsAlone(d, h[0].job, names, x);
    if x in h[0].job.remote {
      ListedTracks(h[0].job, d, h[0].run, |h[0].run| - 1, x, v, hurt);
    } else {
      AwayTracks(h[0].job, d, h[0].run, |h[0].run| - 1, x, v, hurt);
    }
  }

  /** Over any syncs, finished or crashed, whatever fails in them, a name at the latest serial
      is whole exactly if it is not stranded there and was not from the start. */
  lemma {:induction false} HistoryTracks(d: Store, h: seq<Sync>, x: Name, v: int, hurt: bool, names: set<Name>)
    requires History(d, h) && Within(d, h, names) && Injective(names) && x in names
    requires NeverFalls(h, x, v) && Tracks(d, x, v, hurt)
    ensures Ran(h)
    ensures var r := LastShown(h, x, v);
            Tracks(End(d, h), x, r, Stranded(h, x, r) || (hurt && Get(d.serials, x) == Some(r) && Steady(h, x, r)))
    decreases |h|
  {
    HistoryRan(d, h);
    if h != [] {
      var r, now := LastShown(h, x, v), HurtAfter(h[0].job, d, h[0].run[|h[0].run| - 1], x, hurt);
      FirstTracks(d, h, x, v, hurt, names);
      WithinNext(d, h, names);
      HistoryTracks(After(h[0]), h[1..], x, Shown(h[0].job, x, v), now, names);
      SteadyNext(h, x, r);
      StrandedNext(h, x, r);
    }
  }

  lemma {:induction false} LastIsRemote(h: seq<Sync>, x: Name, v: int)
    requires h != [] && x in h[|h| - 1].job.remote
    ensures LastShown(h, x, v) == h[|h| - 1].job.remote[x]
    decreases |h|
  {
    if |h| > 1 {
      LastIsRemote(h[1..], x, Shown(h[0].job, x, v));
    } else {
      assert h[1..] == [];
    }
  }

  /** Main result: after any syncs, finished or crashed, a name that the last of them does not
      leave outdated has all its files from one fetch, if and only if it has not been through
      a removal that deleted a file while its serial outlived that removal and all later ones. */
  lemma UpToDateIsWhole(d: Store, h: seq<Sync>, x: Name, v: int, names: set<Name>)
    requires History(d, h) && h != [] && Within(d, h, names) && Injective(names)
    requires x in h[|h| - 1].job.remote && NeverFalls(h, x, v) && Sound(d, x, v)
    requires x !in Outdated(End(d, h).serials, h[|h| - 1].job.remote)
    ensures Ran(h)
    ensures Whole(End(d, h).site, x) <==> !Stranded(h, x, h[|h| - 1].job.remote[x])
  {
    HistoryTracks(d, h, x, v, false, names);
    LastIsRemote(h, x, v);
  }

  /** When a removal deletes a file of x and fails to delete its serial, and x is then listed
      again as it was, the next sync, however it goes, does nothing about it. */
  lemma ReturnLosesThePage(job: Job, d: Store, x: Name, slot: Slot) returns (ss: seq<State>)
    requires WorksOn(job, d.serials) && job.capacity > 0 && Alone(job, x)
    requires x in Stale(d.serials, job.remote) && Deletes(job, x, slot) && !job.rmSerial(x)
    ensures Behavior(job, d, ss) && ss[|ss| - 1].main == Finished && |ss[|ss| - 1].workers| == |job.todo|
    ensures forall next :: SyncFrom(ss[|ss| - 1].store, next) && Alone(next.job, x)
                           && Get(next.job.remote, x) == Get(d.serials, x) ==>
              !Whole(After(next).site, x) && x !in Outdated(After(next).serials, next.job.remote)
  {
    WorkListsAreValid(job, d.serials);
    assert Behavior(job, d, [Init(d)]);
    ss := RunToEnd(job, d, [Init(d)], |job.todo|);
    var s := ss[|ss| - 1];
    assert x in job.removed;
    var r :| 0 <= r < |job.removed| && job.removed[r] == x;
    assert Past(job, s, r, slot);
    assert DeletedSlot(job, s, NormalizeName(x), slot);
    assert Strips(job, s, x);
    FinalSerials(job, d, ss, x);
    AwayTracks(job, d, ss, |ss| - 1, x, d.serials[x], !Whole(d.site, x));
    forall next | SyncFrom(s.store, next) && Alone(next.job, x) && Get(next.job.remote, x) == Get(d.serials, x)
      ensures !Whole(After(next).site, x) && x !in Outdated(After(next).serials, next.job.remote)
    {
      ListedTracks(next.job, s.store, next.run, |next.run| - 1, x, d.serials[x], true);
      BehaviorKeepsSerial(next.job, s.store, next.run, |next.run| - 1, x);
    }
  }

  lemma {:induction false} FixedNeverFalls(h: seq<Sync>, remote: map<Name, int>, x: Name)
    requires FixedRemote(h, remote) && x in remote
    ensures NeverFalls(h, x, remote[x]) && LastShown(h, x, remote[x]) == remote[x]
    decreases |h|
  {
    if h != [] {
      FixedNeverFalls(h[1..], remote, x);
    }
  }

  /** Main result: once as many syncs against a fixed list have succeeded at something as there
      was work, every name of the list is stored whole, at its remote serial. */
  lemma ConvergedIsWhole(d: Store, h: seq<Sync>, remote: map<Name, int>, names: set<Name>, x: Name)
    requires History(d, h) && FixedRemote(h, remote) && Within(d, h, names) && Injective(names)
    requires remote.Keys <= names && x in remote && Sound(d, x, remote[x])
    requires Fruitful(d, h) >= WorkLeft(d.serials, remote)
    ensures x in End(d, h).serials && End(d, h).serials[x] == remote[x] && Whole(End(d, h).site, x)
  {
    HistoryConverges(d, h, remote);
    FixedNeverFalls(h, remote, x);
    HistoryTracks(d, h, x, remote[x], false, names);
    assert !Stranded(h, x, remote[x]);
    assert x !in Outdated(End(d, h).serials, remote);
  }
}

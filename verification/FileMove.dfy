/** One file being moved between tiers while a request scans the tiers for it
    (syncer/cache.go:316-353, server/handler_packages.go:74-80). */
module FileMove {
  import opened CacheModel

  datatype Copy = Absent | Partial | Complete

  /** The system call the mover makes next. */
  datatype Pc = Idle | Mkdir | Rename | Open | CreateTemp | Copying | Publish | RemoveSource

  /** The tier a request will stat next, the tier whose file it is about to open by name
      again, or how it was answered. */
  datatype Reader = Scanning(next: nat) | Opening(tier: nat) | Served(tier: nat) | Answered404 | FellThrough

  /** copies[t] is what tier t's directory holds under the file's name; tmp is the mover's temp file. */
  datatype State = State(copies: seq<Copy>, tmp: Copy, pc: Pc, src: nat, dst: nat, reader: Reader)

  /** More: io.Copy has copied some of the file but not all of it. */
  datatype Outcome = Ok | Fail | More

  datatype Event = Start(src: nat, dst: nat) | Act(outcome: Outcome) | Crash | Stat | OpenHit

  /** A move may start from a tier without the file: the run takes the tier from the file's row. */
  predicate Enabled(s: State, e: Event) {
    match e
    case Start(src, dst) =>
      s.pc == Idle && src < |s.copies| && dst < |s.copies| && src != dst
    case Act(outcome) => s.pc != Idle && (outcome == More ==> s.pc == Copying)
    case Crash => true
    case Stat => s.reader.Scanning? && s.reader.next < |s.copies|
    case OpenHit => s.reader.Opening? && s.reader.tier < |s.copies|
  }

  /** The answer when the open of tier t's file finds copy. */
  function Opened(copy: Copy, t: nat): Reader {
    if copy == Absent then Answered404 else Served(t)
  }

  predicate WellFormed(s: State) {
    s.pc != Idle ==> s.src < |s.copies| && s.dst < |s.copies|
  }

  function Apply(s: State, e: Event): (after: State)
    requires WellFormed(s) && Enabled(s, e)
    ensures WellFormed(after) && |after.copies| == |s.copies|
  {
    match e
    case Start(src, dst) => s.(pc := Mkdir, src := src, dst := dst)
    case Act(outcome) => Move(s, outcome)
    case Crash => s.(pc := Idle)
    case Stat =>
      var t := s.reader.next;
      if s.copies[t] != Absent then s.(reader := Opening(t))
      else s.(reader := if t + 1 == |s.copies| then FellThrough else Scanning(t + 1))
    case OpenHit =>
      var t := s.reader.tier;
      s.(reader := Opened(s.copies[t], t))
  }

  /** The mover's next system call. A rename puts the file in its new place and takes it
      from the old one in one step; so does publishing the finished temp file. */
  function Move(s: State, outcome: Outcome): (after: State)
    requires WellFormed(s) && s.pc != Idle && (outcome == More ==> s.pc == Copying)
    ensures WellFormed(after) && |after.copies| == |s.copies|
  {
    match s.pc
    case Mkdir => s.(pc := if outcome == Ok then Rename else Idle)
    case Rename =>
      if outcome == Ok && s.copies[s.src] != Absent
      then s.(pc := Idle, copies := s.copies[s.dst := s.copies[s.src]][s.src := Absent])
      else s.(pc := Open)
    case Open => s.(pc := if outcome == Ok && s.copies[s.src] != Absent then CreateTemp else Idle)
    case CreateTemp => if outcome == Ok then s.(pc := Copying, tmp := Partial) else s.(pc := Idle)
    case Copying =>
      if outcome == More then s
      else if outcome == Ok then s.(pc := Publish, tmp := s.copies[s.src])
      else s.(pc := Idle, tmp := Absent)
    case Publish =>
      if outcome == Ok then s.(pc := RemoveSource, copies := s.copies[s.dst := s.tmp], tmp := Absent)
      else s.(pc := Idle)
    case RemoveSource => s.(pc := Idle, copies := if outcome == Ok then s.copies[s.src := Absent] else s.copies)
    case Idle => s
  }

  ghost predicate Allowed(s: State, es: seq<Event>)
    requires WellFormed(s)
    decreases |es|
  {
    es == [] || (Enabled(s, es[0]) && Allowed(Apply(s, es[0]), es[1..]))
  }

  ghost function Run(s: State, es: seq<Event>): (after: State)
    requires WellFormed(s) && Allowed(s, es)
    ensures WellFormed(after) && |after.copies| == |s.copies|
    decreases |es|
  {
    if es == [] then s else Run(Apply(s, es[0]), es[1..])
  }

  // ---------- What every step keeps ----------

  /** No reader can see a partial file, and a complete one is always there. */
  ghost predicate Good(s: State) {
    && WellFormed(s)
    && (forall t :: 0 <= t < |s.copies| ==> s.copies[t] != Partial)
    && (exists t :: 0 <= t < |s.copies| && s.copies[t] == Complete)
    && (s.pc != Idle ==> s.src != s.dst)
    && (s.pc.CreateTemp? || s.pc.Copying? || s.pc.Publish? || s.pc.RemoveSource? ==> s.copies[s.src] == Complete)
    && (s.pc == Publish ==> s.tmp == Complete)
    && (s.pc == RemoveSource ==> s.copies[s.dst] == Complete)
  }

  lemma StepStaysGood(s: State, e: Event)
    requires Good(s) && Enabled(s, e)
    ensures Good(Apply(s, e))
  {
    var after := Apply(s, e);
    var t :| 0 <= t < |s.copies| && s.copies[t] == Complete;
    assert after.copies[t] == Complete || (s.pc != Idle && after.copies[s.dst] == Complete);
  }

  /** Main result: whatever fails, crashes or interleaves, the file is never torn and never gone. */
  lemma {:induction false} NeverTornNeverGone(s: State, es: seq<Event>)
    requires Good(s) && Allowed(s, es)
    ensures Good(Run(s, es))
    decreases |es|
  {
    if es != [] {
      StepStaysGood(s, es[0]);
      NeverTornNeverGone(Apply(s, es[0]), es[1..]);
    }
  }

  // ---------- The scan against demotions ----------

  ghost predicate OnlyDemotions(es: seq<Event>) {
    forall i :: 0 <= i < |es| && es[i].Start? ==> es[i].src < es[i].dst
  }

  /** A complete copy lies ahead of the scan, and the move in progress cannot take it behind. */
  ghost predicate CopyAhead(s: State) {
    && (s.pc != Idle ==> s.src < s.dst)
    && s.reader != FellThrough
    && (s.reader.Scanning? ==> exists t :: s.reader.next <= t < |s.copies| && s.copies[t] == Complete)
  }

  lemma StepKeepsCopyAhead(s: State, e: Event)
    requires Good(s) && CopyAhead(s) && Enabled(s, e) && (e.Start? ==> e.src < e.dst)
    ensures CopyAhead(Apply(s, e))
  {
    var after := Apply(s, e);
    if s.reader.Scanning? {
      var t :| s.reader.next <= t < |s.copies| && s.copies[t] == Complete;
      if after.copies[t] != Complete {
        assert t == s.src && after.copies[s.dst] == Complete;
      }
    }
  }

  /** Any number of demotions, in any interleaving, never make the scan miss the file and
      send the request upstream. */
  lemma {:induction false} ScanFindsDemoted(s: State, es: seq<Event>)
    requires Good(s) && CopyAhead(s) && Allowed(s, es) && OnlyDemotions(es)
    ensures Run(s, es).reader != FellThrough
    decreases |es|
  {
    if es != [] {
      StepStaysGood(s, es[0]);
      StepKeepsCopyAhead(s, es[0]);
      ScanFindsDemoted(Apply(s, es[0]), es[1..]);
    }
  }

  // ---------- The scan against a promotion ----------

  /** The file is in tier src alone, nothing moves, and a request arrives. */
  function Request(tiers: nat, src: nat): State
    requires src < tiers
  {
    State(seq(tiers, t => if t == src then Complete else Absent), Absent, Idle, 0, 0, Scanning(0))
  }

  function Stats(n: nat): seq<Event> {
    seq(n, i => Stat)
  }

  lemma {:induction false} ScanPassesAbsent(s: State, n: nat)
    requires WellFormed(s) && s.reader.Scanning? && n > 0 && s.reader.next + n <= |s.copies|
    requires forall t :: s.reader.next <= t < s.reader.next + n ==> s.copies[t] == Absent
    ensures Allowed(s, Stats(n))
    ensures var stop := s.reader.next + n;
            Run(s, Stats(n)) == s.(reader := if stop == |s.copies| then FellThrough else Scanning(stop))
    decreases n
  {
    var after := Apply(s, Stat);
    if n == 1 {
      assert Stats(1)[1..] == [];
      assert Run(after, []) == after;
    } else {
      assert Stats(n)[1..] == Stats(n - 1);
      ScanPassesAbsent(after, n - 1);
    }
  }

  lemma {:induction false} RunConcat(s: State, a: seq<Event>, b: seq<Event>)
    requires WellFormed(s) && Allowed(s, a) && Allowed(Run(s, a), b)
    ensures Allowed(s, a + b) && Run(s, a + b) == Run(Run(s, a), b)
    decreases |a|
  {
    if a == [] {
      assert a + b == b;
    } else {
      assert (a + b)[0] == a[0] && (a + b)[1..] == a[1..] + b;
      RunConcat(Apply(s, a[0]), a[1..], b);
    }
  }

  lemma RunThree(s: State, a: Event, b: Event, c: Event) returns (after: State)
    requires WellFormed(s) && Enabled(s, a) && Enabled(Apply(s, a), b) && Enabled(Apply(Apply(s, a), b), c)
    ensures Allowed(s, [a, b, c]) && Run(s, [a, b, c]) == after == Apply(Apply(Apply(s, a), b), c)
  {
    var s1 := Apply(s, a);
    var s2 := Apply(s1, b);
    after := Apply(s2, c);
    RunConcat(s1, [b], [c]);
    RunConcat(s, [a], [b] + [c]);
    assert [a] + ([b] + [c]) == [a, b, c];
  }

  /** The scan passes dst, the file is renamed from src back to dst, and the scan goes on. */
  lemma PromotionIsMissed(tiers: nat, src: nat, dst: nat) returns (es: seq<Event>)
    requires dst < src < tiers
    ensures Allowed(Request(tiers, src), es) && Run(Request(tiers, src), es).reader == FellThrough
    ensures forall i :: 0 <= i < |es| && es[i].Start? ==> es[i] == Start(src, dst)
  {
    var s := Request(tiers, src);
    ScanPassesAbsent(s, dst + 1);
    var passed := Run(s, Stats(dst + 1));
    var move := [Start(src, dst), Act(Ok), Act(Ok)];
    var moved := RunThree(passed, move[0], move[1], move[2]);
    RunConcat(s, Stats(dst + 1), move);
    ScanPassesAbsent(moved, tiers - dst - 1);
    RunConcat(s, Stats(dst + 1) + move, Stats(tiers - dst - 1));
    es := Stats(dst + 1) + move + Stats(tiers - dst - 1);
  }

  /** Some interleaving with moves from src to dst makes the scan miss the file. */
  ghost predicate CanMiss(tiers: nat, src: nat, dst: nat)
    requires src < tiers
  {
    exists es: seq<Event> ::
      && Allowed(Request(tiers, src), es) && Run(Request(tiers, src), es).reader == FellThrough
      && forall i :: 0 <= i < |es| && es[i].Start? ==> es[i] == Start(src, dst)
  }

  /** Main result: a move can make the scan miss a cached file, and so send its request
      upstream, exactly when it is a promotion. */
  lemma MissedIffPromotion(tiers: nat, src: nat, dst: nat)
    requires src < tiers && dst < tiers && src != dst
    ensures CanMiss(tiers, src, dst) <==> dst < src
  {
    var s := Request(tiers, src);
    assert s.copies[src] == Complete;
    if dst < src {
      var es := PromotionIsMissed(tiers, src, dst);
    }
    if CanMiss(tiers, src, dst) && src < dst {
      var es: seq<Event> :| Allowed(s, es) && Run(s, es).reader == FellThrough
                && forall i :: 0 <= i < |es| && es[i].Start? ==> es[i] == Start(src, dst);
      ScanFindsDemoted(s, es);
    }
  }

  // ---------- A copy that goes away between the stat and the open ----------

  /** The state after the first n events. */
  ghost function At(s: State, es: seq<Event>, n: nat): State
    requires WellFormed(s) && Allowed(s, es) && n <= |es|
    decreases n
  {
    if n == 0 then s else At(Apply(s, es[0]), es[1..], n - 1)
  }

  /** The stat at event i finds the file in a tier that no longer has it at the open, event j. */
  ghost predicate LosesHit(s: State, es: seq<Event>, i: nat, j: nat)
    requires WellFormed(s) && Allowed(s, es) && i < j < |es|
  {
    && es[i] == Stat && At(s, es, i).reader.Scanning?
    && var t := At(s, es, i).reader.next;
       && t < |s.copies| && |At(s, es, i).copies| == |At(s, es, j).copies| == |s.copies|
       && At(s, es, i).copies[t] != Absent
       && es[j] == OpenHit && At(s, es, j).copies[t] == Absent
  }

  /** The open at event j finds the file gone. */
  ghost predicate FailsAt(s: State, es: seq<Event>, t: nat, j: nat)
    requires WellFormed(s) && Allowed(s, es) && j < |es|
  {
    es[j] == OpenHit && t < |At(s, es, j).copies| && At(s, es, j).copies[t] == Absent
  }

  lemma {:induction false} AnswerStays(s: State, es: seq<Event>)
    requires WellFormed(s) && Allowed(s, es) && !s.reader.Scanning? && !s.reader.Opening?
    ensures Run(s, es).reader == s.reader && forall j :: 0 <= j < |es| ==> es[j] != OpenHit && es[j] != Stat
    decreases |es|
  {
    if es != [] {
      AnswerStays(Apply(s, es[0]), es[1..]);
      assert forall j :: 1 <= j < |es| ==> es[j] == es[1..][j - 1];
    }
  }

  lemma {:induction false} OpenFailsIff(s: State, es: seq<Event>)
    requires WellFormed(s) && Allowed(s, es) && s.reader.Opening? && s.reader.tier < |s.copies|
    ensures Run(s, es).reader == Answered404 <==> exists j :: 0 <= j < |es| && FailsAt(s, es, s.reader.tier, j)
    ensures forall j :: 0 <= j < |es| ==> es[j] != Stat
    decreases |es|
  {
    if es != [] {
      var after, rest, t := Apply(s, es[0]), es[1..], s.reader.tier;
      assert forall j :: 1 <= j < |es| ==> es[j] == rest[j - 1];
      assert forall j :: 1 <= j < |es| ==> (FailsAt(s, es, t, j) <==> FailsAt(after, rest, t, j - 1));
      if es[0] == OpenHit {
        AnswerStays(after, rest);
        assert FailsAt(s, es, t, 0) <==> s.copies[t] == Absent;
      } else {
        OpenFailsIff(after, rest);
        if j :| 0 <= j < |rest| && FailsAt(after, rest, t, j) {
          assert FailsAt(s, es, t, j + 1);
        }
      }
    }
  }

  /** Main result: a request is answered 404 if and only if the tier its stat hit has lost
      the file by the time of the open. */
  lemma {:induction false} NotFoundIffHitIsLost(s: State, es: seq<Event>)
    requires WellFormed(s) && Allowed(s, es) && s.reader.Scanning?
    ensures Run(s, es).reader == Answered404 <==> exists i, j :: 0 <= i < j < |es| && LosesHit(s, es, i, j)
    decreases |es|
  {
    if es != [] {
      var after, rest := Apply(s, es[0]), es[1..];
      forall i, j | 0 < i < j < |es| ensures LosesHit(s, es, i, j) <==> LosesHit(after, rest, i - 1, j - 1) {
      }
      if after.reader.Scanning? {
        NotFoundIffHitIsLost(after, rest);
        if i, j :| 0 <= i < j < |rest| && LosesHit(after, rest, i, j) {
          assert LosesHit(s, es, i + 1, j + 1);
        }
        forall j | 0 < j < |es| ensures !LosesHit(s, es, 0, j) {
          assert At(s, es, 0) == s;
        }
      } else if after.reader.Opening? {
        HitDecides(s, es);
      } else {
        AnswerStays(after, rest);
      }
    }
  }

  lemma HitDecides(s: State, es: seq<Event>)
    requires WellFormed(s) && Allowed(s, es) && s.reader.Scanning? && es != [] && Apply(s, es[0]).reader.Opening?
    ensures Run(s, es).reader == Answered404 <==> exists i, j :: 0 <= i < j < |es| && LosesHit(s, es, i, j)
  {
    var after, rest, t := Apply(s, es[0]), es[1..], s.reader.next;
    OpenFailsIff(after, rest);
    assert forall j :: 1 <= j < |es| ==> es[j] == rest[j - 1];
    forall j | 0 < j < |es| ensures LosesHit(s, es, 0, j) <==> FailsAt(after, rest, t, j - 1) {
      AtKeepsTiers(s, es, j);
    }
    if j :| 0 <= j < |rest| && FailsAt(after, rest, t, j) {
      assert LosesHit(s, es, 0, j + 1);
    }
    if i, j :| 0 <= i < j < |es| && LosesHit(s, es, i, j) {
      assert i == 0;
    }
  }

  lemma {:induction false} AtKeepsTiers(s: State, es: seq<Event>, n: nat)
    requires WellFormed(s) && Allowed(s, es) && n <= |es|
    ensures |At(s, es, n).copies| == |s.copies|
    decreases n
  {
    if n > 0 {
      AtKeepsTiers(Apply(s, es[0]), es[1..], n - 1);
    }
  }

  /** The request stats src and hits, the file is renamed away, and the open fails. */
  lemma MoveBeforeOpen(tiers: nat, src: nat, dst: nat) returns (es: seq<Event>)
    requires src < tiers && dst < tiers && src != dst
    ensures Allowed(Request(tiers, src), es) && Run(Request(tiers, src), es).reader == Answered404
    ensures forall i :: 0 <= i < |es| && es[i].Start? ==> es[i] == Start(src, dst)
  {
    var s := Request(tiers, src);
    var scan := Stats(src);
    if src > 0 {
      ScanPassesAbsent(s, src);
    } else {
      assert scan == [];
    }
    var passed := Run(s, scan);
    RunConcat(s, scan, [Stat]);
    var hit := Apply(passed, Stat);
    var move := [Start(src, dst), Act(Ok), Act(Ok)];
    var _ := RunThree(hit, move[0], move[1], move[2]);
    RunConcat(s, scan + [Stat], move);
    RunConcat(s, scan + [Stat] + move, [OpenHit]);
    es := scan + [Stat] + move + [OpenHit];
  }

  // ---------- The moves the cache run assumes ----------

  function Presence(disk: Disk, p: Path): seq<Copy> {
    seq(|disk|, t requires 0 <= t < |disk| => if p in disk[t] then Complete else Absent)
  }

  /** The directories look as the cache run's account of a move leaves them. */
  ghost predicate IsMoveOutcome(copies: seq<Copy>, disk: Disk, p: Path, src: nat, dst: nat)
    requires src < |disk| && dst < |disk|
  {
    exists io :: copies == Presence(MoveDisk(disk, p, src, dst, io), p)
  }

  /** How far the move from disk has got. */
  ghost predicate Progress(s: State, disk: Disk, p: Path, src: nat, dst: nat)
    requires src < |disk| && dst < |disk|
  {
    var before := Presence(disk, p);
    if s.pc == Idle then
      || s.copies == before
      || (p in disk[src] && (s.copies == before[dst := Complete] || s.copies == before[dst := Complete][src := Absent]))
    else
      && s.src == src && s.dst == dst
      && (s.pc == Publish ==> s.tmp == Complete)
      && (s.pc.CreateTemp? || s.pc.Copying? || s.pc.Publish? || s.pc.RemoveSource? ==> p in disk[src])
      && s.copies == if s.pc == RemoveSource then before[dst := Complete] else before
  }

  lemma {:induction false} MoveProgress(s: State, es: seq<Event>, disk: Disk, p: Path, src: nat, dst: nat)
    requires src < |disk| && dst < |disk| && src != dst
    requires WellFormed(s) && Progress(s, disk, p, src, dst) && Allowed(s, es)
    requires forall i :: 0 <= i < |es| ==> !es[i].Start?
    ensures Progress(Run(s, es), disk, p, src, dst)
    decreases |es|
  {
    if es != [] {
      MoveProgress(Apply(s, es[0]), es[1..], disk, p, src, dst);
    }
  }

  lemma MoveDiskOutcomes(disk: Disk, p: Path, src: nat, dst: nat)
    requires src < |disk| && dst < |disk| && src != dst
    ensures var before := Presence(disk, p);
            && IsMoveOutcome(before, disk, p, src, dst)
            && (p in disk[src] ==>
                  && IsMoveOutcome(before[dst := Complete], disk, p, src, dst)
                  && IsMoveOutcome(before[dst := Complete][src := Absent], disk, p, src, dst))
  {
    var before := Presence(disk, p);
    assert before == Presence(MoveDisk(disk, p, src, dst, MoveIo(false, false, false, false)), p);
    if p in disk[src] {
      assert before[dst := Complete] == Presence(MoveDisk(disk, p, src, dst, MoveIo(true, false, true, false)), p);
      assert before[dst := Complete][src := Absent]
          == Presence(MoveDisk(disk, p, src, dst, MoveIo(true, true, true, true)), p);
    }
  }

  /** Every state the mover passes through, crashes included, is one of the outcomes the
      cache run's specification gives a move. */
  lemma MoveStepsRefineMove(disk: Disk, p: Path, src: nat, dst: nat, reader: Reader, es: seq<Event>)
    requires src < |disk| && dst < |disk| && src != dst
    requires Allowed(State(Presence(disk, p), Absent, Mkdir, src, dst, reader), es)
    requires forall i :: 0 <= i < |es| ==> !es[i].Start?
    ensures IsMoveOutcome(Run(State(Presence(disk, p), Absent, Mkdir, src, dst, reader), es).copies, disk, p, src, dst)
  {
    MoveProgress(State(Presence(disk, p), Absent, Mkdir, src, dst, reader), es, disk, p, src, dst);
    MoveDiskOutcomes(disk, p, src, dst);
  }

  /** es takes the mover from s to now. */
  ghost predicate Takes(s: State, es: seq<Event>, now: State) {
    && WellFormed(s) && WellFormed(now) && Allowed(s, es) && Run(s, es) == now
    && forall i :: 0 <= i < |es| ==> !es[i].Start?
  }

  lemma TakesOn(s: State, es: seq<Event>, now: State, ok: bool) returns (es': seq<Event>, now': State)
    requires Takes(s, es, now) && now.pc != Idle
    ensures now' == Move(now, if ok then Ok else Fail) && Takes(s, es', now')
  {
    var e := Act(if ok then Ok else Fail);
    RunConcat(s, es, [e]);
    assert Allowed(Apply(now, e), []) && Run(now, [e]) == Apply(now, e);
    es', now' := es + [e], Apply(now, e);
  }

  /** The copy that replaces a rename, up to the removal of its source. */
  lemma CopyIsReached(s: State, es: seq<Event>, now: State, io: MoveIo) returns (es': seq<Event>, now': State)
    requires Takes(s, es, now) && now.pc == Open
    ensures Takes(s, es', now') && now'.pc == Idle
    ensures now'.copies ==
            if !io.copyOk || now.copies[now.src] == Absent then now.copies
            else if io.removeOk then now.copies[now.dst := now.copies[now.src]][now.src := Absent]
            else now.copies[now.dst := now.copies[now.src]]
  {
    es', now' := TakesOn(s, es, now, io.copyOk);
    if now'.pc == CreateTemp {
      es', now' := TakesOn(s, es', now', true);
      es', now' := TakesOn(s, es', now', true);
      es', now' := TakesOn(s, es', now', true);
      es', now' := TakesOn(s, es', now', io.removeOk);
    }
  }

  /** And every one of those outcomes is where the mover may end. */
  lemma MoveOutcomesAreReached(disk: Disk, p: Path, src: nat, dst: nat, reader: Reader, io: MoveIo)
      returns (es: seq<Event>)
    requires src < |disk| && dst < |disk| && src != dst
    ensures var s := State(Presence(disk, p), Absent, Mkdir, src, dst, reader);
            && Allowed(s, es) && (forall i :: 0 <= i < |es| ==> !es[i].Start?)
            && Run(s, es).pc == Idle && Run(s, es).copies == Presence(MoveDisk(disk, p, src, dst, io), p)
  {
    var s := State(Presence(disk, p), Absent, Mkdir, src, dst, reader);
    var now;
    es, now := TakesOn(s, [], s, io.mkdirOk);
    if now.pc == Rename {
      es, now := TakesOn(s, es, now, io.renameOk);
      if now.pc == Open {
        es, now := CopyIsReached(s, es, now, io);
      }
    }
  }

  // ---------- The scan as the handler runs it ----------

  /** atStat[t] and atOpen[t] are what a stat and an open of tier t's file would find when
      the handler makes the call. */
  method ServePackages(atStat: seq<Copy>, atOpen: seq<Copy>) returns (answer: Reader)
    requires |atStat| == |atOpen|
    ensures answer == FellThrough <==> forall t :: 0 <= t < |atStat| ==> atStat[t] == Absent
    ensures answer != FellThrough ==>
              exists t :: 0 <= t < |atStat| && IsFirst(atStat, t) && answer == Opened(atOpen[t], t)
  {
    for t := 0 to |atStat|
      invariant forall u :: 0 <= u < t ==> atStat[u] == Absent
    {
      if atStat[t] != Absent {
        assert IsFirst(atStat, t);
        return Opened(atOpen[t], t);
      }
    }
    return FellThrough;
  }

  /** t is the hottest tier in which the file was found. */
  ghost predicate IsFirst(copies: seq<Copy>, t: nat)
    requires t < |copies|
  {
    copies[t] != Absent && forall u :: 0 <= u < t ==> copies[u] == Absent
  }
}

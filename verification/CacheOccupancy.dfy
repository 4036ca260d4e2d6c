/** How full a tier gets while a plan is carried out, when nothing fails. */
module CacheOccupancy {
  import opened TierAssignment
  import opened CacheModel
  import opened CacheCapacity

  function PlanSizes(plan: seq<Assignment>): (sizes: seq<nat>)
    ensures |sizes| == |plan| && forall i :: 0 <= i < |plan| ==> sizes[i] == plan[i].file.size
  {
    seq(|plan|, i requires 0 <= i < |plan| => plan[i].file.size)
  }

  function Targets(plan: seq<Assignment>): (targets: seq<int>)
    ensures |targets| == |plan| && forall i :: 0 <= i < |plan| ==> targets[i] == plan[i].target
  {
    seq(|plan|, i requires 0 <= i < |plan| => plan[i].target)
  }

  /** The plan that leaves every file where it is. */
  function StayPut(plan: seq<Assignment>): (stay: seq<Assignment>)
    ensures |stay| == |plan|
    ensures forall i :: 0 <= i < |plan| ==> stay[i] == Assignment(plan[i].file, Home(plan[i].file))
  {
    seq(|plan|, i requires 0 <= i < |plan| => Assignment(plan[i].file, Home(plan[i].file)))
  }

  /** The bytes the plan puts in tier t. */
  function PlacedBytes(plan: seq<Assignment>, t: int): nat {
    Usage(PlanSizes(plan), Targets(plan), t)
  }

  /** The bytes the plan says tier t of disk holds after n iterations: what the first n put
      there, the later ones' files that are there to begin with, and the spare copies that
      have not been written over. */
  ghost function Held(disk: Disk, plan: seq<Assignment>, size: Path -> nat, n: nat, t: nat): nat
    requires n <= |plan| && t < |disk|
  {
    PlacedBytes(plan[..n], t) + PlacedBytes(StayPut(plan[n..]), t)
    + Total(Spare(disk, plan, t) - PlacedIn(plan[..n], t), size)
  }

  ghost predicate DistinctAndTrue(plan: seq<Assignment>, size: Path -> nat) {
    && (forall i, j :: 0 <= i < j < |plan| ==> plan[i].file.path != plan[j].file.path)
    && (forall i :: 0 <= i < |plan| ==> plan[i].file.size == size(plan[i].file.path))
  }

  lemma StayersAreLocals(plan: seq<Assignment>, t: nat)
    ensures PlacedIn(StayPut(plan), t) == LocalIn(plan, t)
  {
    forall p ensures p in PlacedIn(StayPut(plan), t) <==> p in LocalIn(plan, t) {
      if p in PlacedIn(StayPut(plan), t) {
        var i :| 0 <= i < |plan| && StayPut(plan)[i].target == t && StayPut(plan)[i].file.path == p;
        assert plan[i].file.local && plan[i].file.tier == t && plan[i].file.path == p;
      }
      if p in LocalIn(plan, t) {
        var i :| 0 <= i < |plan| && plan[i].file.local && plan[i].file.tier == t && plan[i].file.path == p;
        assert StayPut(plan)[i].target == t && StayPut(plan)[i].file.path == p;
      }
    }
  }

  lemma LaterLocals(plan: seq<Assignment>, n: nat, t: nat)
    requires n <= |plan|
    ensures LocalIn(plan[n..], t) <= LocalIn(plan, t)
  {
    forall p | p in LocalIn(plan[n..], t) ensures p in LocalIn(plan, t) {
      var i :| 0 <= i < |plan[n..]| && plan[n..][i].file.local && plan[n..][i].file.tier == t
               && plan[n..][i].file.path == p;
      assert plan[n + i] == plan[n..][i];
    }
  }

  lemma HeldApart(plan: seq<Assignment>, n: nat, t: nat)
    requires n <= |plan| && forall i, j :: 0 <= i < j < |plan| ==> plan[i].file.path != plan[j].file.path
    ensures PlacedIn(plan[..n], t) !! LocalIn(plan[n..], t)
  {
    forall p | p in PlacedIn(plan[..n], t) ensures p !in LocalIn(plan[n..], t) {
      var i :| 0 <= i < n && plan[..n][i].target == t && plan[..n][i].file.path == p;
      assert forall j :: 0 <= j < |plan[n..]| ==> plan[n..][j] == plan[n + j];
      assert plan[i].file.path == p;
    }
  }

  lemma PlacedBytesIs(plan: seq<Assignment>, size: Path -> nat, t: nat)
    requires DistinctAndTrue(plan, size)
    ensures PlacedBytes(plan, t) == Total(PlacedIn(plan, t), size)
  {
    PlacedTotal(plan, size, PlanSizes(plan), Targets(plan), t);
  }

  lemma PartIsTrue(plan: seq<Assignment>, size: Path -> nat, n: nat)
    requires DistinctAndTrue(plan, size) && n <= |plan|
    ensures DistinctAndTrue(plan[..n], size) && DistinctAndTrue(StayPut(plan[n..]), size)
  {
    assert forall i :: 0 <= i < |plan[n..]| ==> plan[n..][i] == plan[n + i];
  }

  lemma HeldIs(disk: Disk, plan: seq<Assignment>, size: Path -> nat, n: nat, t: nat)
    requires DistinctAndTrue(plan, size) && n <= |plan| && t < |disk|
    ensures Held(disk, plan, size, n, t)
            == Total(Spare(disk, plan, t) + PlacedIn(plan[..n], t) + LocalIn(plan[n..], t), size)
  {
    var placed, locals, spare := PlacedIn(plan[..n], t), LocalIn(plan[n..], t), Spare(disk, plan, t);
    PartIsTrue(plan, size, n);
    PlacedBytesIs(plan[..n], size, t);
    PlacedBytesIs(StayPut(plan[n..]), size, t);
    StayersAreLocals(plan[n..], t);
    LaterLocals(plan, n, t);
    HeldApart(plan, n, t);
    TotalUnion(placed, locals, size);
    TotalUnion(placed + locals, spare - placed, size);
    assert placed + locals + (spare - placed) == spare + placed + locals;
  }

  /** Main result: the bytes in tier t after n iterations, from the plan and the start alone. */
  lemma OccupancyIs(cfg: Config, w: World, inp: RunInput, order: seq<Candidate>, size: Path -> nat, n: nat, t: nat)
    requires Unfailing(cfg, w, inp, order, size) && n <= |order| && t < |w.disk|
    ensures Bytes(ExecutedTo(cfg, w, inp, order, n).disk[t]) == Held(w.disk, Assign(order, cfg.limits), size, n, t)
  {
    var plan := Assign(order, cfg.limits);
    ExecutionHolds(cfg, w, inp, order, n, t);
    PlanIsPlaced(cfg, w, inp, order);
    ExecuteStaysTrue(cfg, inp.io, size, Started(w, inp), plan[..n]);
    TrueBytes(size, ExecutedTo(cfg, w, inp, order, n).disk, t);
    HeldIs(w.disk, plan, size, n, t);
  }

  /** Main result: a tier stays within its limit throughout the execution if and only if for
      no n the files placed in it by the first n assignments, its own files handled later and
      its spare copies are together more than the limit. */
  lemma WithinLimitIff(cfg: Config, w: World, inp: RunInput, order: seq<Candidate>, size: Path -> nat, t: nat)
    requires Unfailing(cfg, w, inp, order, size) && t < |w.disk|
    ensures (forall n :: 0 <= n <= |order| ==> Bytes(ExecutedTo(cfg, w, inp, order, n).disk[t]) <= cfg.limits[t])
            <==> (forall n :: 0 <= n <= |order| ==>
                    Held(w.disk, Assign(order, cfg.limits), size, n, t) <= cfg.limits[t])
  {
    forall n | 0 <= n <= |order|
      ensures Bytes(ExecutedTo(cfg, w, inp, order, n).disk[t]) == Held(w.disk, Assign(order, cfg.limits), size, n, t)
    {
      OccupancyIs(cfg, w, inp, order, size, n, t);
    }
  }
}

/** The assignment pass: walk the ranked files once and put each file into the
    hottest tier that still has room for it (syncer/cache.go:135-157). */
module TierAssignment {

  /** The assigned tier of a file that is evicted or skipped. */
  const NONE := -1

  // ---------- What one placement means ----------

  /** t is the hottest tier with room for size, or NONE when there is none. */
  ghost predicate IsHottestFit(size: nat, remaining: seq<nat>, t: int) {
    if t == NONE then forall u :: 0 <= u < |remaining| ==> remaining[u] < size
    else 0 <= t < |remaining| && size <= remaining[t] && forall u :: 0 <= u < t ==> remaining[u] < size
  }

  function HottestFit(size: nat, remaining: seq<nat>): (t: int)
    ensures IsHottestFit(size, remaining, t)
  {
    if remaining == [] then NONE
    else if size <= remaining[0] then 0
    else
      var u := HottestFit(size, remaining[1..]);
      if u == NONE then NONE else u + 1
  }

  function Charge(size: nat, remaining: seq<nat>, t: int): (left: seq<nat>)
    requires t == NONE || (0 <= t < |remaining| && size <= remaining[t])
    ensures |left| == |remaining|
  {
    if t == NONE then remaining else remaining[t := remaining[t] - size]
  }

  // ---------- The whole pass ----------

  function FirstFit(sizes: seq<nat>, remaining: seq<nat>): (a: seq<int>)
    ensures |a| == |sizes|
  {
    if sizes == [] then []
    else
      var t := HottestFit(sizes[0], remaining);
      [t] + FirstFit(sizes[1..], Charge(sizes[0], remaining, t))
  }

  /** The room left in every tier when the pass is over. */
  function Left(sizes: seq<nat>, remaining: seq<nat>): (left: seq<nat>)
    ensures |left| == |remaining|
  {
    if sizes == [] then remaining
    else Left(sizes[1..], Charge(sizes[0], remaining, HottestFit(sizes[0], remaining)))
  }

  // ---------- The declarative specification ----------

  function Usage(sizes: seq<nat>, a: seq<int>, t: int): nat
    requires |a| == |sizes|
  {
    if sizes == [] then 0
    else (if a[0] == t then sizes[0] else 0) + Usage(sizes[1..], a[1..], t)
  }

  /** A placement of the files that respects every tier's limit. */
  ghost predicate Feasible(sizes: seq<nat>, limits: seq<nat>, a: seq<int>) {
    && |a| == |sizes|
    && (forall i :: 0 <= i < |a| ==> a[i] == NONE || 0 <= a[i] < |limits|)
    && (forall t :: 0 <= t < |limits| ==> Usage(sizes, a, t) <= limits[t])
  }

  /** Hotter tiers first, NONE after every tier. */
  function Rank(t: int, tiers: nat): int {
    if t == NONE then tiers else t
  }

  /** The first file on which a and b differ is hotter in a. */
  ghost predicate LexBelow(a: seq<int>, b: seq<int>, tiers: nat)
    requires |a| == |b|
  {
    exists i :: 0 <= i < |a| && a[..i] == b[..i] && Rank(a[i], tiers) < Rank(b[i], tiers)
  }

  ghost predicate LexLeast(sizes: seq<nat>, limits: seq<nat>, a: seq<int>) {
    && Feasible(sizes, limits, a)
    && forall b :: Feasible(sizes, limits, b) && b != a ==> LexBelow(a, b, |limits|)
  }

  // ---------- Conservation and feasibility ----------

  /** What is used plus what is left is the limit, in every tier. */
  lemma {:induction false} Conservation(sizes: seq<nat>, limits: seq<nat>, t: nat)
    requires t < |limits|
    ensures Usage(sizes, FirstFit(sizes, limits), t) + Left(sizes, limits)[t] == limits[t]
  {
    if sizes != [] {
      var u := HottestFit(sizes[0], limits);
      Conservation(sizes[1..], Charge(sizes[0], limits, u), t);
      assert FirstFit(sizes, limits)[1..] == FirstFit(sizes[1..], Charge(sizes[0], limits, u));
    }
  }

  lemma {:induction false} FirstFitInRange(sizes: seq<nat>, limits: seq<nat>)
    ensures forall i :: 0 <= i < |sizes| ==>
              FirstFit(sizes, limits)[i] == NONE || 0 <= FirstFit(sizes, limits)[i] < |limits|
  {
    if sizes != [] {
      FirstFitInRange(sizes[1..], Charge(sizes[0], limits, HottestFit(sizes[0], limits)));
    }
  }

  lemma FirstFitIsFeasible(sizes: seq<nat>, limits: seq<nat>)
    ensures Feasible(sizes, limits, FirstFit(sizes, limits))
  {
    FirstFitInRange(sizes, limits);
    forall t | 0 <= t < |limits| ensures Usage(sizes, FirstFit(sizes, limits), t) <= limits[t] {
      Conservation(sizes, limits, t);
    }
  }

  // ---------- Lexicographic optimality ----------

  /** What is left of a feasible placement once its first file is charged is feasible. */
  lemma FeasibleTail(sizes: seq<nat>, limits: seq<nat>, b: seq<int>)
    requires sizes != [] && Feasible(sizes, limits, b)
    ensures b[0] != NONE ==> sizes[0] <= limits[b[0]]
    ensures Feasible(sizes[1..], Charge(sizes[0], limits, b[0]), b[1..])
  {
    forall t | 0 <= t < |limits|
      ensures Usage(sizes, b, t) == (if b[0] == t then sizes[0] else 0) + Usage(sizes[1..], b[1..], t) <= limits[t]
    {
    }
  }

  lemma LexBelowCons(t: int, a: seq<int>, b: seq<int>, tiers: nat)
    requires |a| == |b| && LexBelow(a, b, tiers)
    ensures LexBelow([t] + a, [t] + b, tiers)
  {
    var i :| 0 <= i < |a| && a[..i] == b[..i] && Rank(a[i], tiers) < Rank(b[i], tiers);
    assert ([t] + a)[..i + 1] == [t] + a[..i] && ([t] + b)[..i + 1] == [t] + b[..i];
    assert ([t] + a)[i + 1] == a[i] && ([t] + b)[i + 1] == b[i];
  }

  lemma {:induction false} FirstFitBeatsFeasible(sizes: seq<nat>, limits: seq<nat>, b: seq<int>)
    requires Feasible(sizes, limits, b) && b != FirstFit(sizes, limits)
    ensures LexBelow(FirstFit(sizes, limits), b, |limits|)
  {
    if sizes != [] {
      var t := HottestFit(sizes[0], limits);
      FeasibleTail(sizes, limits, b);
      assert b == [b[0]] + b[1..];
      if b[0] == t {
        var rest := Charge(sizes[0], limits, t);
        FirstFitBeatsFeasible(sizes[1..], rest, b[1..]);
        LexBelowCons(t, FirstFit(sizes[1..], rest), b[1..], |limits|);
      } else {
        HotterIsBelow(FirstFit(sizes, limits), b, |limits|);
      }
    }
  }

  lemma HotterIsBelow(a: seq<int>, b: seq<int>, tiers: nat)
    requires |a| == |b| > 0 && Rank(a[0], tiers) < Rank(b[0], tiers)
    ensures LexBelow(a, b, tiers)
  {
    assert a[..0] == b[..0];
  }

  lemma LexBelowAsymmetric(a: seq<int>, b: seq<int>, tiers: nat)
    requires |a| == |b| && LexBelow(a, b, tiers)
    ensures !LexBelow(b, a, tiers)
  {
    var i :| 0 <= i < |a| && a[..i] == b[..i] && Rank(a[i], tiers) < Rank(b[i], tiers);
    forall j | 0 <= j < |a| ensures b[..j] != a[..j] || Rank(a[j], tiers) <= Rank(b[j], tiers) {
      if j < i {
        assert a[..i][j] == b[..i][j];
      } else if i < j {
        assert a[..j][i] != b[..j][i];
      }
    }
  }

  /** Main result: the array loop computes the lexicographically least feasible
      placement, and no other placement is. */
  lemma FirstFitIsTheLeast(sizes: seq<nat>, limits: seq<nat>, a: seq<int>)
    ensures LexLeast(sizes, limits, a) <==> a == FirstFit(sizes, limits)
  {
    var ff := FirstFit(sizes, limits);
    FirstFitIsFeasible(sizes, limits);
    forall b | Feasible(sizes, limits, b) && b != ff ensures LexBelow(ff, b, |limits|) {
      FirstFitBeatsFeasible(sizes, limits, b);
    }
    if LexLeast(sizes, limits, a) && a != ff {
      LexBelowAsymmetric(a, ff, |limits|);
    }
  }

  // ---------- Wasted room ----------

  lemma {:induction false} LeftShrinks(sizes: seq<nat>, limits: seq<nat>)
    ensures forall t :: 0 <= t < |limits| ==> Left(sizes, limits)[t] <= limits[t]
  {
    if sizes != [] {
      LeftShrinks(sizes[1..], Charge(sizes[0], limits, HottestFit(sizes[0], limits)));
    }
  }

  lemma {:induction false} SkippedTierIsTight(sizes: seq<nat>, limits: seq<nat>, i: nat, t: nat)
    requires i < |sizes| && t < |limits| && t < Rank(FirstFit(sizes, limits)[i], |limits|)
    ensures Left(sizes, limits)[t] < sizes[i]
  {
    var rest := Charge(sizes[0], limits, HottestFit(sizes[0], limits));
    if i == 0 {
      LeftShrinks(sizes[1..], rest);
    } else {
      SkippedTierIsTight(sizes[1..], rest, i - 1, t);
    }
  }

  /** A tier that file i passed over, whether i landed in a colder one or nowhere,
      ends with more than limit - size in use. */
  lemma WasteBound(sizes: seq<nat>, limits: seq<nat>, i: nat, t: nat)
    requires i < |sizes| && t < |limits| && t < Rank(FirstFit(sizes, limits)[i], |limits|)
    ensures Usage(sizes, FirstFit(sizes, limits), t) + sizes[i] > limits[t]
  {
    SkippedTierIsTight(sizes, limits, i, t);
    Conservation(sizes, limits, t);
  }

  // ---------- Dropping files that were not placed ----------

  /** The elements of xs whose key is in s, in order; keys[i] is the key of xs[i]. */
  function KeepBy<K, T>(xs: seq<T>, keys: seq<K>, s: set<K>): (r: seq<T>)
    requires |xs| == |keys|
  {
    if xs == [] then []
    else (if keys[0] in s then [xs[0]] else []) + KeepBy(xs[1..], keys[1..], s)
  }

  /** Leaving any unplaced files out of the list changes neither the tier of any
      other file nor the room left. */
  lemma {:induction false} DropUnplaced<K>(sizes: seq<nat>, limits: seq<nat>, keys: seq<K>, s: set<K>)
    requires |keys| == |sizes|
    requires forall i :: 0 <= i < |sizes| && keys[i] !in s ==> FirstFit(sizes, limits)[i] == NONE
    ensures FirstFit(KeepBy(sizes, keys, s), limits) == KeepBy(FirstFit(sizes, limits), keys, s)
    ensures Left(KeepBy(sizes, keys, s), limits) == Left(sizes, limits)
  {
    if sizes != [] {
      var a := FirstFit(sizes, limits);
      var rest := Charge(sizes[0], limits, a[0]);
      assert a[1..] == FirstFit(sizes[1..], rest);
      assert forall i :: 0 <= i < |sizes[1..]| ==> keys[1..][i] == keys[i + 1] && a[1..][i] == a[i + 1];
      DropUnplaced(sizes[1..], rest, keys[1..], s);
      var kept := KeepBy(sizes[1..], keys[1..], s);
      if keys[0] in s {
        assert KeepBy(sizes, keys, s) == [sizes[0]] + kept;
        assert KeepBy(sizes, keys, s)[1..] == kept;
      } else {
        assert KeepBy(sizes, keys, s) == kept && rest == limits;
      }
    }
  }

  // ---------- The loop ----------

  lemma HottestFitIsUnique(size: nat, remaining: seq<nat>, t: int)
    requires IsHottestFit(size, remaining, t)
    ensures t == HottestFit(size, remaining)
  {
  }

  /** The inner loop: charges the first tier with room for size, if there is one. */
  method PlaceFile(size: nat, remaining: array<nat>) returns (choice: int)
    modifies remaining
    ensures choice == HottestFit(size, old(remaining[..]))
    ensures remaining[..] == Charge(size, old(remaining[..]), choice)
  {
    choice := NONE;
    var t := 0;
    while t < remaining.Length
      invariant 0 <= t <= remaining.Length && choice == NONE && remaining[..] == old(remaining[..])
      invariant forall u :: 0 <= u < t ==> remaining[u] < size
    {
      if size <= remaining[t] {
        HottestFitIsUnique(size, remaining[..], t);
        remaining[t] := remaining[t] - size;
        choice := t;
        return;
      }
      t := t + 1;
    }
    HottestFitIsUnique(size, remaining[..], NONE);
  }

  /** left is what remains once the first i files are placed. */
  ghost predicate Resumes(sizes: seq<nat>, limits: seq<nat>, i: nat, left: seq<nat>) {
    && i <= |sizes|
    && FirstFit(sizes[i..], left) == FirstFit(sizes, limits)[i..]
    && Left(sizes[i..], left) == Left(sizes, limits)
  }

  lemma Resume(sizes: seq<nat>, limits: seq<nat>, i: nat, left: seq<nat>)
    requires i < |sizes| && Resumes(sizes, limits, i, left)
    ensures var t := HottestFit(sizes[i], left);
            FirstFit(sizes, limits)[i] == t && Resumes(sizes, limits, i + 1, Charge(sizes[i], left, t))
  {
    var whole := FirstFit(sizes, limits);
    assert sizes[i..][0] == sizes[i] && sizes[i..][1..] == sizes[i + 1..];
    assert whole[i..][0] == whole[i] && whole[i..][1..] == whole[i + 1..];
  }

  method CopyLimits(limits: seq<nat>) returns (remaining: array<nat>)
    ensures fresh(remaining) && remaining[..] == limits
  {
    remaining := new nat[|limits|];
    for t := 0 to |limits|
      invariant remaining[..t] == limits[..t]
    {
      remaining[t] := limits[t];
    }
  }

  /** The pass as the source runs it, over the array of remaining capacities. */
  method AssignTiers(sizes: seq<nat>, limits: seq<nat>) returns (placement: array<int>, remaining: array<nat>)
    ensures fresh(placement) && fresh(remaining)
    ensures placement[..] == FirstFit(sizes, limits)
    ensures remaining[..] == Left(sizes, limits)
  {
    remaining := CopyLimits(limits);
    placement := new int[|sizes|];
    ghost var whole := FirstFit(sizes, limits);
    for i := 0 to |sizes|
      invariant placement[..i] == whole[..i] && Resumes(sizes, limits, i, remaining[..])
    {
      Resume(sizes, limits, i, remaining[..]);
      placement[i] := PlaceFile(sizes[i], remaining);
    }
  }
}

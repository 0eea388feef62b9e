/** From the operations that use a value to its interval vector, and the interference of two such vectors. */
module Useranges {
  import opened UseIntervals

  /** An operation's use of a value: the operation's number, and how it accesses the value. */
  datatype UseSite = UseSite(operation: nat, isRead: bool, isWrite: bool)

  /** Doubled ids: even for a use that only reads, odd otherwise. */
  function ComputeId(use: UseSite): (id: nat)
    ensures id / 2 == use.operation && (id % 2 == 0 <==> use.isRead && !use.isWrite)
  {
    var doubled := (use.operation + 1) * 2 - 1;
    if use.isRead && !use.isWrite then doubled - 1 else doubled
  }

  predicate InOrder(uses: seq<UseSite>) {
    forall i, j :: 0 <= i < j < |uses| ==> uses[i].operation < uses[j].operation
  }

  /** In use at a position, or between two successive positions that are at most two apart. */
  ghost predicate Occupied(uses: seq<UseSite>, t: nat) {
    exists i :: 0 <= i < |uses| && OccupiedAt(uses, i, t)
  }

  predicate OccupiedAt(uses: seq<UseSite>, i: nat, t: nat)
    requires i < |uses|
  {
    || t == ComputeId(uses[i])
    || (i > 0 && ComputeId(uses[i - 1]) <= t <= ComputeId(uses[i]) <= ComputeId(uses[i - 1]) + 2)
  }

  lemma IdsIncrease(uses: seq<UseSite>, i: nat, j: nat)
    requires InOrder(uses) && i < j < |uses|
    ensures ComputeId(uses[i]) < ComputeId(uses[j])
  {
  }

  /** What the first `n` uses amount to: closed intervals and an open one. */
  ghost predicate Gathered(uses: seq<UseSite>, n: nat, intervals: seq<UseInterval>, start: nat, last: nat) {
    && 0 < n <= |uses| && last == ComputeId(uses[n - 1])
    && SortedDisjoint(intervals + [UseInterval(start, last)]) && Spaced(intervals + [UseInterval(start, last)])
    && forall t :: InUse(intervals + [UseInterval(start, last)], t) <==> Occupied(uses[..n], t)
  }

  lemma OccupiedNext(uses: seq<UseSite>, n: nat, t: nat)
    requires 0 < n < |uses|
    ensures Occupied(uses[..n + 1], t) <==>
            || Occupied(uses[..n], t) || t == ComputeId(uses[n])
            || ComputeId(uses[n - 1]) <= t <= ComputeId(uses[n]) <= ComputeId(uses[n - 1]) + 2
  {
    var some, more := uses[..n], uses[..n + 1];
    assert forall i :: 0 <= i < n ==> OccupiedAt(more, i, t) == OccupiedAt(some, i, t);
    assert OccupiedAt(more, n, t) == OccupiedAt(uses, n, t);
  }

  lemma GatherNext(uses: seq<UseSite>, n: nat, intervals: seq<UseInterval>, start: nat, last: nat)
    requires InOrder(uses) && Gathered(uses, n, intervals, start, last) && n < |uses|
    ensures
      var current := ComputeId(uses[n]);
      if current - last > 2 then Gathered(uses, n + 1, intervals + [UseInterval(start, last)], current, current)
      else Gathered(uses, n + 1, intervals, start, current)
  {
    var current := ComputeId(uses[n]);
    IdsIncrease(uses, n - 1, n);
    var open := UseInterval(start, last);
    assert (intervals + [open])[|intervals|] == open;
    if current - last > 2 {
      forall t
        ensures InUse(intervals + [open] + [UseInterval(current, current)], t) <==> Occupied(uses[..n + 1], t)
      {
        InUseSnoc(intervals + [open], UseInterval(current, current), t);
        OccupiedNext(uses, n, t);
      }
    } else {
      var grown := UseInterval(start, current);
      forall i | 0 <= i < |intervals|
        ensures intervals[i].NonEmpty() && intervals[i].Before(grown) && intervals[i].end + 2 < start
      {
        assert (intervals + [open])[i] == intervals[i];
      }
      assert SortedDisjoint(intervals + [grown]) by {
        assert forall i, j :: 0 <= i < j < |intervals| ==>
          (intervals + [open])[i] == intervals[i] && (intervals + [open])[j] == intervals[j];
      }
      assert Spaced(intervals + [grown]) by {
        assert forall i, j :: 0 <= i < j < |intervals| ==>
          (intervals + [open])[i] == intervals[i] && (intervals + [open])[j] == intervals[j];
      }
      forall t
        ensures InUse(intervals + [grown], t) <==> Occupied(uses[..n + 1], t)
      {
        InUseSnoc(intervals, grown, t);
        InUseSnoc(intervals, open, t);
        OccupiedNext(uses, n, t);
      }
    }
  }

  /** Joins the positions of the uses that lie at most two apart. */
  method ComputeInterval(uses: seq<UseSite>) returns (intervals: seq<UseInterval>)
    requires uses != [] && InOrder(uses)
    ensures SortedDisjoint(intervals) && Spaced(intervals)
    ensures forall t :: InUse(intervals, t) <==> Occupied(uses, t)
  {
    var start := ComputeId(uses[0]);
    var last := start;
    intervals := [];
    FirstGathered(uses);
    for n := 1 to |uses|
      invariant Gathered(uses, n, intervals, start, last)
    {
      GatherNext(uses, n, intervals, start, last);
      IdsIncrease(uses, n - 1, n);
      var current := ComputeId(uses[n]);
      if current - last > 2 {
        intervals := intervals + [UseInterval(start, last)];
        start := current;
      }
      last := current;
    }
    assert uses[..|uses|] == uses;
    intervals := intervals + [UseInterval(start, last)];
  }

  lemma FirstGathered(uses: seq<UseSite>)
    requires uses != []
    ensures Gathered(uses, 1, [], ComputeId(uses[0]), ComputeId(uses[0]))
  {
    var id := ComputeId(uses[0]);
    forall t
      ensures InUse([] + [UseInterval(id, id)], t) <==> Occupied(uses[..1], t)
    {
      InUseSnoc([], UseInterval(id, id), t);
      assert OccupiedAt(uses[..1], 0, t) <==> t == id;
    }
  }

  // ---------------------------------------------------------------- interference

  /** Everything in front of one of the two cursors has been found not to be shared. */
  ghost predicate ApartSoFar(a: seq<UseInterval>, b: seq<UseInterval>, ia: nat, ib: nat) {
    && ia <= |a| && ib <= |b|
    && forall i, j :: 0 <= i < |a| && 0 <= j < |b| && (i < ia || j < ib) ==> !a[i].IsOverlapping(b[j])
  }

  lemma SharedMeansOverlapping(a: seq<UseInterval>, b: seq<UseInterval>)
    requires SortedDisjoint(a) && SortedDisjoint(b)
    ensures (exists t :: InUse(a, t) && InUse(b, t)) <==>
            exists i, j :: 0 <= i < |a| && 0 <= j < |b| && a[i].IsOverlapping(b[j])
  {
    if exists t :: InUse(a, t) && InUse(b, t) {
      var t :| InUse(a, t) && InUse(b, t);
      var i :| 0 <= i < |a| && a[i].Contains(t);
      var j :| 0 <= j < |b| && b[j].Contains(t);
      assert a[i].IsOverlapping(b[j]);
    }
    if i, j :| 0 <= i < |a| && 0 <= j < |b| && a[i].IsOverlapping(b[j]) {
      var t := if a[i].start < b[j].start then b[j].start else a[i].start;
      assert a[i].Contains(t) && b[j].Contains(t);
      assert InUse(a, t) && InUse(b, t);
    }
  }

  /** Values without a common alias interfere exactly if some position belongs to both useranges. */
  method RangesInterfere(a: seq<UseInterval>, b: seq<UseInterval>) returns (interfere: bool)
    requires SortedDisjoint(a) && SortedDisjoint(b)
    ensures interfere <==> exists t :: InUse(a, t) && InUse(b, t)
  {
    var iterA, iterB := 0, 0;
    SharedMeansOverlapping(a, b);
    while iterA < |a| && iterB < |b|
      invariant ApartSoFar(a, b, iterA, iterB)
      decreases |a| - iterA + |b| - iterB
    {
      if a[iterA].Before(b[iterB]) {
        iterA := iterA + 1;
      } else if a[iterA].After(b[iterB]) {
        iterB := iterB + 1;
      } else {
        assert a[iterA].IsOverlapping(b[iterB]);
        return true;
      }
    }
    return false;
  }
}

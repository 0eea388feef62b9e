/** Intersection and merging of interval vectors. */
module IntervalMerging {
  import opened Sequences
  import opened UseIntervals
  import opened IntervalAlgebra

  function Max(x: nat, y: nat): nat {
    if x < y then y else x
  }

  function Min(x: nat, y: nat): nat {
    if x < y then x else y
  }

  lemma InUseAround(a: seq<UseInterval>, k: nat, t: nat)
    requires k < |a|
    ensures InUse(a, t) <==> InUse(a[..k], t) || a[k].Contains(t) || InUse(a[k + 1..], t)
  {
    assert a == a[..k] + ([a[k]] + a[k + 1..]);
    InUseSplit(a[..k], [a[k]] + a[k + 1..], t);
    InUseCons(a[k], a[k + 1..], t);
  }

  // ---------------------------------------------------------------- intersection

  /** Before the cursor stands only what is in both; nothing that is in both was dropped. */
  ghost predicate IntersectState(orig: seq<UseInterval>, b: seq<UseInterval>, a: seq<UseInterval>, ia: nat, ib: nat) {
    && ia <= |a| && ib <= |b| && SortedDisjoint(a) && SortedDisjoint(b)
    && (ib > 0 && ia < |a| ==> b[ib - 1].end < a[ia].start)
    && (forall t: nat :: InUse(a, t) ==> InUse(orig, t))
    && (forall t: nat :: InUse(orig, t) && InUse(b, t) ==> InUse(a, t))
    && (forall t: nat :: InUse(a[..ia], t) ==> InUse(b, t))
  }

  /** A position inside the cursor's interval that is in `b` is in `b[ib]` or behind it. */
  lemma CursorMeets(b: seq<UseInterval>, x: UseInterval, ib: nat, t: nat)
    requires SortedDisjoint(b) && ib <= |b| && (ib > 0 ==> b[ib - 1].end < x.start)
    requires x.Contains(t) && InUse(b, t)
    ensures ib < |b| && (b[ib].Contains(t) || b[ib].end < t)
  {
    assert ib > 0 ==> forall j :: 0 <= j < ib - 1 ==> b[j].Before(b[ib - 1]);
    var j :| 0 <= j < |b| && b[j].Contains(t);
    assert ib < j ==> b[ib].Before(b[j]);
  }

  lemma IntersectErase(orig: seq<UseInterval>, b: seq<UseInterval>, a: seq<UseInterval>, ia: nat, ib: nat)
    requires IntersectState(orig, b, a, ia, ib) && ia < |a| && (ib == |b| || a[ia].Before(b[ib]))
    ensures IntersectState(orig, b, a[..ia] + a[ia + 1..], ia, ib)
  {
    var after := a[..ia] + a[ia + 1..];
    assert after[..ia] == a[..ia];
    assert ia + 1 < |a| ==> a[ia].Before(a[ia + 1]);
    forall t: nat
      ensures InUse(after, t) ==> InUse(orig, t)
      ensures InUse(orig, t) && InUse(b, t) ==> InUse(after, t)
    {
      InUseAround(a, ia, t);
      InUseSplit(a[..ia], a[ia + 1..], t);
      if a[ia].Contains(t) && InUse(b, t) {
        CursorMeets(b, a[ia], ib, t);
      }
    }
  }

  function Overlap(x: UseInterval, y: UseInterval): UseInterval {
    UseInterval(Max(x.start, y.start), Min(x.end, y.end))
  }

  /** The part of `x` behind `y`. */
  function Behind(x: UseInterval, y: UseInterval): UseInterval {
    UseInterval(y.end + 1, x.end)
  }

  /** The overlap with `b[ib]` stays; what lies behind it is split off and comes next. */
  lemma IntersectOverlap(orig: seq<UseInterval>, b: seq<UseInterval>, a: seq<UseInterval>, ia: nat, ib: nat)
    requires IntersectState(orig, b, a, ia, ib) && ia < |a| && ib < |b| && a[ia].IsOverlapping(b[ib])
    ensures var x, y := a[ia], b[ib];
            var overlap := Overlap(x, y);
            if x.end > y.end
            then IntersectState(orig, b, a[..ia] + [overlap, Behind(x, y)] + a[ia + 1..], ia + 1, ib + 1)
            else IntersectState(orig, b, a[ia := overlap], ia + 1, ib)
  {
    var x, y := a[ia], b[ib];
    var overlap := Overlap(x, y);
    var pieces := if x.end > y.end then [overlap, Behind(x, y)] else [overlap];
    var after := a[..ia] + pieces + a[ia + 1..];
    UpdateIsSplice(a, ia, overlap);
    SplicePrefix(a, ia, pieces, a[ia + 1..]);
    assert x.NonEmpty() && y.NonEmpty() && (ia + 1 < |a| ==> x.Before(a[ia + 1]));
    SplicedIsSorted(a, ia, pieces);
    forall t: nat
      ensures InUse(after, t) ==> InUse(orig, t)
      ensures InUse(orig, t) && InUse(b, t) ==> InUse(after, t)
      ensures InUse(after[..ia + 1], t) ==> InUse(b, t)
    {
      InUseAround(a, ia, t);
      InUseSplit(a[..ia] + pieces, a[ia + 1..], t);
      InUseSplit(a[..ia], pieces, t);
      InUseSplit(a[..ia], [overlap], t);
      OverlapPoints(x, y, t);
      if x.Contains(t) && InUse(b, t) {
        CursorMeets(b, x, ib, t);
      }
    }
  }

  lemma OverlapPoints(x: UseInterval, y: UseInterval, t: nat)
    requires x.IsOverlapping(y)
    ensures var overlap := Overlap(x, y);
            var pieces := if x.end > y.end then [overlap, Behind(x, y)] else [overlap];
            && (InUse(pieces, t) ==> x.Contains(t))
            && (x.Contains(t) && (y.Contains(t) || y.end < t) ==> InUse(pieces, t))
            && (InUse([overlap], t) ==> y.Contains(t))
  {
    var overlap := Overlap(x, y);
    InUseCons(overlap, [Behind(x, y)], t);
    InUseCons(overlap, [], t);
    InUseCons(Behind(x, y), [], t);
    assert [overlap] == [overlap] + [];
    assert [Behind(x, y)] == [Behind(x, y)] + [];
    assert [overlap, Behind(x, y)] == [overlap] + [Behind(x, y)];
  }

  lemma SplicedIsSorted(a: seq<UseInterval>, k: nat, pieces: seq<UseInterval>)
    requires k < |a| && SortedDisjoint(a) && SortedDisjoint(pieces)
    requires forall p :: 0 <= p < |pieces| ==> a[k].start <= pieces[p].start && pieces[p].end <= a[k].end
    ensures SortedDisjoint(a[..k] + pieces + a[k + 1..])
  {
    var after, n := a[..k] + pieces + a[k + 1..], |pieces|;
    forall i | 0 <= i < |after|
      ensures after[i] == if i < k then a[i] else if i < k + n then pieces[i - k] else a[i - n + 1]
    {
    }
    forall i, j | 0 <= i < j < |after|
      ensures after[i].Before(after[j])
    {
      if i < k && j >= k + n { assert a[i].Before(a[j - n + 1]); }
      else if i < k && j >= k { assert a[i].Before(a[k]); }
      else if k <= i < k + n <= j { assert a[k].Before(a[j - n + 1]); }
      else if i >= k + n { assert a[i - n + 1].Before(a[j - n + 1]); }
    }
  }

  /** The positions in both vectors, sorted and disjoint. */
  method IntervalIntersect(orig: seq<UseInterval>, b: seq<UseInterval>) returns (a: seq<UseInterval>)
    requires SortedDisjoint(orig) && SortedDisjoint(b)
    ensures SortedDisjoint(a)
    ensures forall t: nat :: InUse(a, t) <==> InUse(orig, t) && InUse(b, t)
  {
    a := orig;
    var iterA: nat, iterB: nat := 0, 0;
    while iterA < |a|
      invariant IntersectState(orig, b, a, iterA, iterB)
      decreases |b| - iterB, |a| - iterA
    {
      a, iterA, iterB := IntersectRound(a, iterA, b, iterB, orig);
    }
    assert a[..iterA] == a;
  }

  method IntersectRound(a: seq<UseInterval>, iterA: nat, b: seq<UseInterval>, iterB: nat, ghost orig: seq<UseInterval>)
    returns (newA: seq<UseInterval>, newIterA: nat, newIterB: nat)
    requires IntersectState(orig, b, a, iterA, iterB) && iterA < |a|
    ensures IntersectState(orig, b, newA, newIterA, newIterB)
    ensures (newIterB == iterB + 1 && iterB < |b|) || (newIterB == iterB && |newA| - newIterA < |a| - iterA)
  {
    var x := a[iterA];
    if iterB == |b| || x.Before(b[iterB]) {
      IntersectErase(orig, b, a, iterA, iterB);
      return a[..iterA] + a[iterA + 1..], iterA, iterB;
    } else if x.After(b[iterB]) {
      return a, iterA, iterB + 1;
    } else {
      IntersectOverlap(orig, b, a, iterA, iterB);
      var y := b[iterB];
      var overlap := Overlap(x, y);
      if x.end > y.end {
        return a[..iterA] + [overlap, Behind(x, y)] + a[iterA + 1..], iterA + 1, iterB + 1;
      } else {
        return a[iterA := overlap], iterA + 1, iterB;
      }
    }
  }

  // ---------------------------------------------------------------- merging

  /** In one of the vectors, or the one id between two positions that are. */
  ghost predicate Bridged(a: seq<UseInterval>, b: seq<UseInterval>, t: nat) {
    || InEither(a, b, t)
    || (t > 0 && InEither(a, b, t - 1) && InEither(a, b, t + 1))
  }

  ghost predicate InEither(a: seq<UseInterval>, b: seq<UseInterval>, t: nat) {
    InUse(a, t) || InUse(b, t)
  }

  /** An interval that starts and ends in one of the vectors and contains only bridged positions. */
  ghost predicate Sound(orig: seq<UseInterval>, b: seq<UseInterval>, u: UseInterval) {
    && u.NonEmpty() && InEither(orig, b, u.start) && InEither(orig, b, u.end)
    && forall t: nat :: u.Contains(t) ==> Bridged(orig, b, t)
  }

  ghost predicate AllSound(orig: seq<UseInterval>, b: seq<UseInterval>, a: seq<UseInterval>) {
    forall k :: 0 <= k < |a| ==> Sound(orig, b, a[k])
  }

  function Hull(x: UseInterval, y: UseInterval): UseInterval {
    UseInterval(Min(x.start, y.start), Max(x.end, y.end))
  }

  /** Joining two contiguous intervals adds at most the one id between them. */
  lemma HullIsSound(orig: seq<UseInterval>, b: seq<UseInterval>, x: UseInterval, y: UseInterval)
    requires Sound(orig, b, x) && Sound(orig, b, y) && x.IsContiguous(y)
    ensures Sound(orig, b, Hull(x, y))
    ensures forall t: nat :: x.Contains(t) || y.Contains(t) ==> Hull(x, y).Contains(t)
  {
    var h := Hull(x, y);
    forall t: nat | h.Contains(t)
      ensures Bridged(orig, b, t)
    {
      if !x.Contains(t) && !y.Contains(t) {
        assert t > 0 && (t - 1 == x.end || t - 1 == y.end) && (t + 1 == x.start || t + 1 == y.start);
      }
    }
  }

  /** `mergeWith`: the hull of contiguous intervals, and no change otherwise. */
  method MergeWith(x: UseInterval, other: UseInterval) returns (merged: bool, y: UseInterval)
    ensures merged == x.IsContiguous(other) && y == if merged then Hull(x, other) else x
  {
    if !x.IsContiguous(other) {
      return false, x;
    }
    return true, UseInterval(Min(x.start, other.start), Max(x.end, other.end));
  }

  /** An interval and the next index, after taking in the following intervals while they are contiguous. */
  function Absorbed(interval: seq<UseInterval>, it: UseInterval, next: nat): (UseInterval, nat)
    requires next <= |interval|
    decreases |interval| - next
  {
    if next < |interval| && it.IsContiguous(interval[next])
    then Absorbed(interval, UseInterval(it.start, Max(it.end, interval[next].end)), next + 1)
    else (it, next)
  }

  function MergedAt(interval: seq<UseInterval>, iter: nat, toMerge: UseInterval): seq<UseInterval>
    requires iter < |interval|
  {
    var hull := if interval[iter].IsContiguous(toMerge) then Hull(interval[iter], toMerge) else interval[iter];
    var (it, next) := Absorbed(interval, hull, iter + 1);
    interval[..iter] + [it] + (if next <= |interval| then interval[next..] else [])
  }

  /** Merges `toMerge` into the interval at the cursor and takes in the following intervals as long as
      they are contiguous with the result. */
  method MergeAndEraseContiguousIntervals(interval: seq<UseInterval>, iter: nat, toMerge: UseInterval,
                                          ghost orig: seq<UseInterval>, ghost b: seq<UseInterval>)
    returns (after: seq<UseInterval>)
    requires iter < |interval| && SortedDisjoint(interval[iter..]) && interval[iter].IsContiguous(toMerge)
    requires AllSound(orig, b, interval) && Sound(orig, b, toMerge)
    ensures iter < |after| <= |interval| && after[..iter] == interval[..iter]
    ensures SortedDisjoint(after[iter..]) && AllSound(orig, b, after)
    ensures forall t: nat :: InUse(interval, t) || toMerge.Contains(t) ==> InUse(after, t)
    ensures after == MergedAt(interval, iter, toMerge)
  {
    var merged, it := MergeWith(interval[iter], toMerge);
    HullIsSound(orig, b, interval[iter], toMerge);
    var next := iter + 1;
    ghost var rest := interval[iter..];
    while next < |interval| && it.IsContiguous(interval[next])
      invariant iter < next <= |interval|
      invariant it.start <= interval[iter].start && Sound(orig, b, it)
      invariant Absorbed(interval, it, next) == Absorbed(interval, Hull(interval[iter], toMerge), iter + 1)
      invariant forall t: nat :: InUse(interval[iter..next], t) || toMerge.Contains(t) ==> it.Contains(t)
    {
      assert rest[0].Before(rest[next - iter]);
      HullIsSound(orig, b, it, interval[next]);
      assert interval[iter..next + 1] == interval[iter..next] + [interval[next]];
      forall t: nat | InUse(interval[iter..next + 1], t)
        ensures InUse(interval[iter..next], t) || interval[next].Contains(t)
      {
        InUseSnoc(interval[iter..next], interval[next], t);
      }
      if it.end < interval[next].end {
        it := UseInterval(it.start, interval[next].end);
      }
      next := next + 1;
    }
    after := interval[..iter] + [it] + interval[next..];
    MergedVector(interval, iter, next, it, toMerge, after);
  }

  lemma MergedVector(interval: seq<UseInterval>, iter: nat, next: nat, it: UseInterval, toMerge: UseInterval,
                     after: seq<UseInterval>)
    requires iter < next <= |interval| && SortedDisjoint(interval[iter..])
    requires after == interval[..iter] + [it] + interval[next..]
    requires it.NonEmpty() && it.start <= interval[iter].start
    requires next < |interval| ==> !it.IsContiguous(interval[next])
    requires forall t: nat :: InUse(interval[iter..next], t) || toMerge.Contains(t) ==> it.Contains(t)
    ensures SortedDisjoint(after[iter..])
    ensures forall t: nat :: InUse(interval, t) || toMerge.Contains(t) ==> InUse(after, t)
  {
    var rest := interval[iter..];
    assert after[iter..] == [it] + interval[next..];
    assert forall k :: next <= k < |interval| ==> interval[k] == rest[k - iter];
    forall k | next <= k < |interval|
      ensures it.Before(interval[k])
    {
      assert rest[0].Before(rest[next - iter]) && (next < k ==> rest[next - iter].Before(rest[k - iter]));
    }
    forall t: nat | InUse(interval, t) || toMerge.Contains(t)
      ensures InUse(after, t)
    {
      assert interval == interval[..iter] + interval[iter..next] + interval[next..];
      InUseSplit(interval[..iter] + interval[iter..next], interval[next..], t);
      InUseSplit(interval[..iter], interval[iter..next], t);
      InUseSplit(interval[..iter] + [it], interval[next..], t);
      InUseSnoc(interval[..iter], it, t);
    }
  }

  /** What was merged so far is covered, nothing unsound was added, and the rest is still sorted. */
  ghost predicate MergeState(orig: seq<UseInterval>, b: seq<UseInterval>, a: seq<UseInterval>, ia: nat, ib: nat) {
    && ia <= |a| && ib <= |b| && SortedDisjoint(a[ia..]) && SortedDisjoint(b) && AllSound(orig, b, a)
    && forall t: nat :: InUse(orig, t) || InUse(b[..ib], t) ==> InUse(a, t)
  }

  lemma BIsSound(orig: seq<UseInterval>, b: seq<UseInterval>, ib: nat)
    requires SortedDisjoint(b) && ib < |b|
    ensures Sound(orig, b, b[ib])
  {
    assert b[ib].Contains(b[ib].start) && b[ib].Contains(b[ib].end);
    assert forall t: nat :: b[ib].Contains(t) ==> InUse(b, t);
  }

  /** What one round does to the vector and the two cursors. */
  function MergeStep(a: seq<UseInterval>, ia: nat, b: seq<UseInterval>, ib: nat): (seq<UseInterval>, nat, nat)
    requires ia < |a| && ib < |b|
  {
    var x, y := a[ia], b[ib];
    if x.Before(y) then
      if x.IsContiguous(y) then (MergedAt(a, ia, y), ia + 1, ib + 1) else (a, ia + 1, ib)
    else if x.After(y) then
      if y.IsContiguous(x) then (a[ia := Hull(x, y)], ia, ib + 1) else (a[..ia] + [y] + a[ia..], ia, ib + 1)
    else (MergedAt(a, ia, y), ia, ib + 1)
  }

  /** The whole merge, from the given cursors on. */
  function Merged(a: seq<UseInterval>, ia: nat, b: seq<UseInterval>, ib: nat): seq<UseInterval>
    requires ib <= |b|
    decreases |b| - ib, |a| - ia
  {
    if ia < |a| && ib < |b| then
      var (newA, newIa, newIb) := MergeStep(a, ia, b, ib);
      Merged(newA, newIa, b, newIb)
    else a + b[ib..]
  }

  /** One round of the merge: some interval of `b` is taken, or the cursor moves on. */
  method MergeRound(a: seq<UseInterval>, iterA: nat, b: seq<UseInterval>, iterB: nat, ghost orig: seq<UseInterval>)
    returns (newA: seq<UseInterval>, newIterA: nat, newIterB: nat)
    requires MergeState(orig, b, a, iterA, iterB) && iterA < |a| && iterB < |b|
    ensures MergeState(orig, b, newA, newIterA, newIterB)
    ensures newIterB == iterB + 1 || (newIterB == iterB && newIterA == iterA + 1 && newA == a)
    ensures (newA, newIterA, newIterB) == MergeStep(a, iterA, b, iterB)
  {
    var x, y := a[iterA], b[iterB];
    if x.Before(y) {
      if x.IsContiguous(y) {
        newA := MergeAtCursor(a, iterA, b, iterB, orig);
        return newA, iterA + 1, iterB + 1;
      }
      assert a[iterA..][1..] == a[iterA + 1..];
      return a, iterA + 1, iterB;
    } else if x.After(y) {
      newA := PutInFront(a, iterA, b, iterB, orig);
      return newA, iterA, iterB + 1;
    } else {
      newA := MergeAtCursor(a, iterA, b, iterB, orig);
      return newA, iterA, iterB + 1;
    }
  }

  /** Merges `b[iterB]` into the contiguous interval at the cursor. */
  method MergeAtCursor(a: seq<UseInterval>, iterA: nat, b: seq<UseInterval>, iterB: nat, ghost orig: seq<UseInterval>)
    returns (newA: seq<UseInterval>)
    requires MergeState(orig, b, a, iterA, iterB) && iterA < |a| && iterB < |b| && a[iterA].IsContiguous(b[iterB])
    ensures newA == MergedAt(a, iterA, b[iterB]) && iterA < |newA|
    ensures MergeState(orig, b, newA, iterA, iterB + 1) && MergeState(orig, b, newA, iterA + 1, iterB + 1)
  {
    BIsSound(orig, b, iterB);
    newA := MergeAndEraseContiguousIntervals(a, iterA, b[iterB], orig, b);
    MergeTookB(orig, b, a, newA, iterB, b[iterB]);
    assert newA[iterA..][1..] == newA[iterA + 1..];
  }

  /** Joins `b[iterB]` to the front of the cursor's interval, or puts it in front of it. */
  method PutInFront(a: seq<UseInterval>, iterA: nat, b: seq<UseInterval>, iterB: nat, ghost orig: seq<UseInterval>)
    returns (newA: seq<UseInterval>)
    requires MergeState(orig, b, a, iterA, iterB) && iterA < |a| && iterB < |b| && a[iterA].After(b[iterB])
    ensures newA == if b[iterB].IsContiguous(a[iterA]) then a[iterA := Hull(a[iterA], b[iterB])]
                    else a[..iterA] + [b[iterB]] + a[iterA..]
    ensures MergeState(orig, b, newA, iterA, iterB + 1)
  {
    BIsSound(orig, b, iterB);
    assert a[iterA..][0] == a[iterA];
    if b[iterB].IsContiguous(a[iterA]) {
      var merged, h := MergeWith(a[iterA], b[iterB]);
      HullIsSound(orig, b, a[iterA], b[iterB]);
      newA := a[iterA := h];
      UpdateIsSplice(a, iterA, h);
      PutAtCursor(orig, b, a, iterA, [h], b[iterB], newA);
    } else {
      newA := a[..iterA] + [b[iterB]] + a[iterA..];
      InsertIsSplice(a, iterA, b[iterB]);
      PutAtCursor(orig, b, a, iterA, [b[iterB], a[iterA]], b[iterB], newA);
    }
    MergeTookB(orig, b, a, newA, iterB, b[iterB]);
  }

  lemma MergeTookB(orig: seq<UseInterval>, b: seq<UseInterval>, a: seq<UseInterval>, after: seq<UseInterval>, ib: nat,
                   y: UseInterval)
    requires ib < |b| && y == b[ib]
    requires forall t: nat :: InUse(orig, t) || InUse(b[..ib], t) ==> InUse(a, t)
    requires forall t: nat :: InUse(a, t) || y.Contains(t) ==> InUse(after, t)
    ensures forall t: nat :: InUse(orig, t) || InUse(b[..ib + 1], t) ==> InUse(after, t)
  {
    assert b[..ib + 1] == b[..ib] + [y];
    forall t: nat | InUse(b[..ib + 1], t)
      ensures InUse(after, t)
    {
      InUseSnoc(b[..ib], y, t);
    }
  }

  /** `b[ib]` is joined to the front of the cursor's interval or put in front of it. */
  lemma PutAtCursor(orig: seq<UseInterval>, b: seq<UseInterval>, a: seq<UseInterval>, ia: nat, pieces: seq<UseInterval>,
                    y: UseInterval, after: seq<UseInterval>)
    requires ia < |a| && SortedDisjoint(a[ia..]) && AllSound(orig, b, a) && a[ia].After(y) && y.NonEmpty()
    requires pieces == [Hull(a[ia], y)] || pieces == [y, a[ia]]
    requires Sound(orig, b, pieces[0]) && after == a[..ia] + pieces + a[ia + 1..]
    ensures SortedDisjoint(after[ia..]) && AllSound(orig, b, after)
    ensures forall t: nat :: InUse(a, t) || y.Contains(t) ==> InUse(after, t)
  {
    var rest := a[ia..];
    assert after[ia..] == pieces + rest[1..];
    assert rest[0] == a[ia];
    forall t: nat | InUse(a, t) || y.Contains(t)
      ensures InUse(after, t)
    {
      InUseAround(a, ia, t);
      InUseSplit(a[..ia] + pieces, a[ia + 1..], t);
      InUseSplit(a[..ia], pieces, t);
      assert a[ia].Contains(t) || y.Contains(t) ==> pieces[0].Contains(t) || pieces[|pieces| - 1].Contains(t);
    }
    forall k | 0 <= k < |after|
      ensures Sound(orig, b, after[k])
    {
      if k >= ia + |pieces| {
        assert after[k] == a[k - |pieces| + 1];
      }
    }
  }

  // ---------------------------------------------------------------- when everything is merged

  /** Non-empty intervals with more than `gap` ids from each end to the next start. */
  predicate ApartBy(v: seq<UseInterval>, gap: nat) {
    && (forall i :: 0 <= i < |v| ==> v[i].NonEmpty())
    && forall i, j :: 0 <= i < j < |v| ==> v[i].end + gap < v[j].start
  }

  /** If the cursor passes the interval it merges `b[ib]` into, that interval does not reach the next one of `b`. */
  predicate PassesCleanly(a: seq<UseInterval>, ia: nat, b: seq<UseInterval>, ib: nat, gap: nat)
    requires ia < |a| && ib < |b|
  {
    a[ia].Before(b[ib]) && a[ia].IsContiguous(b[ib]) && ib + 1 < |b| ==>
      MergedAt(a, ia, b[ib])[ia].end + gap < b[ib + 1].start
  }

  /** No round from the given cursors on passes an interval that reaches the next one of `b`. */
  predicate MergesCleanly(a: seq<UseInterval>, ia: nat, b: seq<UseInterval>, ib: nat, gap: nat)
    requires ib <= |b|
    decreases |b| - ib, |a| - ia
  {
    ia < |a| && ib < |b| ==>
      && PassesCleanly(a, ia, b, ib, gap)
      && var (newA, newIa, newIb) := MergeStep(a, ia, b, ib);
      MergesCleanly(newA, newIa, b, newIb, gap)
  }

  lemma {:induction false} AbsorbedShape(interval: seq<UseInterval>, it: UseInterval, next: nat)
    requires next <= |interval|
    ensures
      var (u, n) := Absorbed(interval, it, next);
      && next <= n <= |interval| && u.start == it.start && it.end <= u.end
      && (n < |interval| ==> !u.IsContiguous(interval[n]))
    decreases |interval| - next
  {
    if next < |interval| && it.IsContiguous(interval[next]) {
      AbsorbedShape(interval, UseInterval(it.start, Max(it.end, interval[next].end)), next + 1);
    }
  }

  /** The merged interval begins where the first of its parts does, and what lies in front of it stays. */
  lemma MergedShape(a: seq<UseInterval>, ia: nat, y: UseInterval)
    requires ia < |a| && a[ia].IsContiguous(y)
    ensures
      var m := MergedAt(a, ia, y);
      && ia < |m| && m[..ia] == a[..ia] && m[ia].start == Min(a[ia].start, y.start) && a[ia].end <= m[ia].end
  {
    AbsorbedShape(a, Hull(a[ia], y), ia + 1);
  }

  lemma PartsApart(v: seq<UseInterval>, n: nat, gap: nat)
    requires ApartBy(v, gap) && n <= |v|
    ensures ApartBy(v[..n], gap) && ApartBy(v[n..], gap)
  {
  }

  lemma JoinedApart(v: seq<UseInterval>, w: seq<UseInterval>, gap: nat)
    requires ApartBy(v, gap) && ApartBy(w, gap)
    requires v != [] && w != [] ==> v[|v| - 1].end + gap < w[0].start
    ensures ApartBy(v + w, gap)
  {
    forall i, j | 0 <= i < |v| && 0 <= j < |w|
      ensures v[i].end + gap < w[j].start
    {
      assert i < |v| - 1 ==> v[i].end + gap < v[|v| - 1].start;
      assert 0 < j ==> w[0].end + gap < w[j].start;
    }
  }

  /** Replacing the intervals from `ia` to `n` by one that keeps its distance. */
  lemma SplicedApart(a: seq<UseInterval>, ia: nat, n: nat, u: UseInterval, gap: nat)
    requires ApartBy(a, gap) && ia <= n <= |a| && u.NonEmpty()
    requires ia > 0 ==> a[ia - 1].end + gap < u.start
    requires n < |a| ==> u.end + gap < a[n].start
    ensures ApartBy(a[..ia] + [u] + a[n..], gap)
  {
    PartsApart(a, ia, gap);
    PartsApart(a, n, gap);
    JoinedApart(a[..ia], [u], gap);
    JoinedApart(a[..ia] + [u], a[n..], gap);
  }

  lemma MergedApart(a: seq<UseInterval>, ia: nat, y: UseInterval, gap: nat)
    requires gap <= 2 && ApartBy(a, gap) && ia < |a| && a[ia].IsContiguous(y)
    requires ia > 0 ==> a[ia - 1].end + gap < y.start
    ensures ApartBy(MergedAt(a, ia, y), gap)
  {
    AbsorbedShape(a, Hull(a[ia], y), ia + 1);
    var (u, n) := Absorbed(a, Hull(a[ia], y), ia + 1);
    assert n < |a| ==> a[ia].end + gap < a[n].start <= a[n].end;
    SplicedApart(a, ia, n, u, gap);
  }

  /** One round leaves what lies in front of the cursor, and never moves the cursor's interval back. */
  lemma StepShape(a: seq<UseInterval>, ia: nat, b: seq<UseInterval>, ib: nat)
    requires ia < |a| && ib < |b| && b[ib].NonEmpty()
    ensures
      var (newA, newIa, newIb) := MergeStep(a, ia, b, ib);
      && ia <= newIa <= ia + 1 && ia < |newA| && newIb <= |b|
      && newA[..ia] == a[..ia] && newA[ia].start <= a[ia].start
      && (b[ib].start < a[ia].start <= a[ia].end ==> newIa == ia && newIb == ib + 1 && newA[ia].start <= b[ib].start)
  {
    if a[ia].IsContiguous(b[ib]) {
      MergedShape(a, ia, b[ib]);
    }
  }

  lemma {:induction false} FrontStays(a: seq<UseInterval>, ia: nat, b: seq<UseInterval>, ib: nat)
    requires ia <= |a| && ib <= |b| && forall k :: 0 <= k < |b| ==> b[k].NonEmpty()
    ensures
      var m := Merged(a, ia, b, ib);
      && ia <= |m| && m[..ia] == a[..ia] && (ia < |a| ==> ia < |m| && m[ia].start <= a[ia].start)
    decreases |b| - ib, |a| - ia
  {
    if ia < |a| && ib < |b| {
      StepShape(a, ia, b, ib);
      var (newA, newIa, newIb) := MergeStep(a, ia, b, ib);
      FrontStays(newA, newIa, b, newIb);
      var m := Merged(a, ia, b, ib);
      assert m[..ia] == m[..newIa][..ia] && newA[..newIa][..ia] == newA[..ia];
      assert newIa == ia + 1 ==> m[ia] == m[..newIa][ia] && newA[ia] == newA[..newIa][ia];
    }
  }

  /** Once the cursor has passed an interval that reaches the next one of `b`, the two are never merged. */
  lemma PassedIsMissed(a: seq<UseInterval>, ia: nat, b: seq<UseInterval>, ib: nat, gap: nat)
    requires gap <= 2 && ApartBy(b, gap) && 0 < ia <= |a| && ib < |b| && b[ib].start <= a[ia - 1].end + gap
    requires ia < |a| ==> a[ia - 1].end + 2 < a[ia].start <= a[ia].end
    ensures !ApartBy(Merged(a, ia, b, ib), gap)
  {
    var m := Merged(a, ia, b, ib);
    if ia == |a| {
      assert m[ia - 1] == a[ia - 1] && m[ia] == b[ib];
    } else {
      StepShape(a, ia, b, ib);
      var (newA, newIa, newIb) := MergeStep(a, ia, b, ib);
      FrontStays(newA, newIa, b, newIb);
      assert m[ia - 1] == m[..ia][ia - 1] && newA[..ia][ia - 1] == a[..ia][ia - 1] == a[ia - 1];
    }
  }

  /** Everything is apart so far, and the interval that the cursor passed last does not reach `b[ib]`. */
  predicate CleanState(a: seq<UseInterval>, ia: nat, b: seq<UseInterval>, ib: nat, gap: nat) {
    && gap <= 2 && ApartBy(a, gap) && ApartBy(b, gap) && ia <= |a| && ib <= |b|
    && (0 < ia && ib < |b| ==> a[ia - 1].end + gap < b[ib].start)
  }

  lemma StepIsClean(a: seq<UseInterval>, ia: nat, b: seq<UseInterval>, ib: nat, gap: nat)
    requires CleanState(a, ia, b, ib, gap) && ia < |a| && ib < |b| && PassesCleanly(a, ia, b, ib, gap)
    ensures var (newA, newIa, newIb) := MergeStep(a, ia, b, ib); CleanState(newA, newIa, b, newIb, gap)
  {
    var x, y := a[ia], b[ib];
    assert ib + 1 < |b| ==> y.end + gap < b[ib + 1].start;
    if x.IsContiguous(y) {
      MergedShape(a, ia, y);
      MergedApart(a, ia, y, gap);
      var m := MergedAt(a, ia, y);
      assert ia > 0 ==> m[ia - 1] == m[..ia][ia - 1] && a[..ia][ia - 1] == a[ia - 1];
    }
    if x.After(y) {
      PutIsApart(a, ia, y, gap);
    }
  }

  lemma PutIsApart(a: seq<UseInterval>, ia: nat, y: UseInterval, gap: nat)
    requires gap <= 2 && ApartBy(a, gap) && ia < |a| && y.NonEmpty() && a[ia].After(y)
    requires ia > 0 ==> a[ia - 1].end + gap < y.start
    ensures y.IsContiguous(a[ia]) ==> ApartBy(a[ia := Hull(a[ia], y)], gap)
    ensures !y.IsContiguous(a[ia]) ==> ApartBy(a[..ia] + [y] + a[ia..], gap)
  {
    if y.IsContiguous(a[ia]) {
      SplicedApart(a, ia, ia + 1, Hull(a[ia], y), gap);
      UpdateIsSplice(a, ia, Hull(a[ia], y));
    } else {
      SplicedApart(a, ia, ia, y, gap);
    }
  }

  /** From clean vectors and cursors, everything ends up apart if and only if no round passes too early. */
  lemma {:induction false} MergedApartExactly(a: seq<UseInterval>, ia: nat, b: seq<UseInterval>, ib: nat, gap: nat)
    requires CleanState(a, ia, b, ib, gap)
    ensures ApartBy(Merged(a, ia, b, ib), gap) <==> MergesCleanly(a, ia, b, ib, gap)
    decreases |b| - ib, |a| - ia
  {
    if ia < |a| && ib < |b| {
      var (newA, newIa, newIb) := MergeStep(a, ia, b, ib);
      if PassesCleanly(a, ia, b, ib, gap) {
        StepIsClean(a, ia, b, ib, gap);
        MergedApartExactly(newA, newIa, b, newIb, gap);
      } else {
        AbsorbedShape(a, Hull(a[ia], b[ib]), ia + 1);
        var (u, n) := Absorbed(a, Hull(a[ia], b[ib]), ia + 1);
        assert n < |a| ==> a[ia].end + gap < a[n].start <= a[n].end;
        PassedIsMissed(newA, newIa, b, newIb, gap);
      }
    } else {
      PartsApart(b, ib, gap);
      JoinedApart(a, b[ib..], gap);
    }
  }

  /** Merging sorted disjoint vectors gives a sorted disjoint one if and only if no round passes too early. */
  lemma MergedSortedExactly(a: seq<UseInterval>, b: seq<UseInterval>)
    requires SortedDisjoint(a) && SortedDisjoint(b)
    ensures SortedDisjoint(Merged(a, 0, b, 0)) <==> MergesCleanly(a, 0, b, 0, 0)
  {
    MergedApartExactly(a, 0, b, 0, 0);
  }

  /** For vectors in normal form: everything overlapping and contiguous is merged under the same condition. */
  lemma MergedSpacedExactly(a: seq<UseInterval>, b: seq<UseInterval>)
    requires SortedDisjoint(a) && Spaced(a) && SortedDisjoint(b) && Spaced(b)
    ensures SortedDisjoint(Merged(a, 0, b, 0)) && Spaced(Merged(a, 0, b, 0)) <==> MergesCleanly(a, 0, b, 0, 2)
  {
    MergedApartExactly(a, 0, b, 0, 2);
    assert ApartBy(Merged(a, 0, b, 0), 2) <==> SortedDisjoint(Merged(a, 0, b, 0)) && Spaced(Merged(a, 0, b, 0));
  }

  // ---------------------------------------------------------------- the whole merge

  /** The union of both vectors, and of the other positions only such whose two neighbours are in it; sorted,
      disjoint and in normal form exactly when no round passes too early. */
  method IntervalMerge(orig: seq<UseInterval>, b: seq<UseInterval>) returns (a: seq<UseInterval>)
    requires SortedDisjoint(orig) && SortedDisjoint(b)
    ensures forall t: nat :: InEither(orig, b, t) ==> InUse(a, t)
    ensures forall t: nat :: InUse(a, t) ==> Bridged(orig, b, t)
    ensures a == Merged(orig, 0, b, 0)
    ensures SortedDisjoint(a) <==> MergesCleanly(orig, 0, b, 0, 0)
    ensures Spaced(orig) && Spaced(b) ==> (SortedDisjoint(a) && Spaced(a) <==> MergesCleanly(orig, 0, b, 0, 2))
  {
    a := orig;
    var iterA: nat, iterB: nat := 0, 0;
    StartMerge(orig, b);
    while iterA < |a| && iterB < |b|
      invariant MergeState(orig, b, a, iterA, iterB)
      invariant Merged(a, iterA, b, iterB) == Merged(orig, 0, b, 0)
      decreases |b| - iterB, |a| - iterA
    {
      a, iterA, iterB := MergeRound(a, iterA, b, iterB, orig);
    }
    EndMerge(orig, b, a, iterA, iterB);
    a := a + b[iterB..];
    MergedSortedExactly(orig, b);
    if Spaced(orig) && Spaced(b) {
      MergedSpacedExactly(orig, b);
    }
  }

  lemma StartMerge(orig: seq<UseInterval>, b: seq<UseInterval>)
    requires SortedDisjoint(orig) && SortedDisjoint(b)
    ensures MergeState(orig, b, orig, 0, 0)
  {
    assert orig[0..] == orig;
    forall k | 0 <= k < |orig|
      ensures Sound(orig, b, orig[k])
    {
      assert orig[k].Contains(orig[k].start) && orig[k].Contains(orig[k].end);
      assert forall t: nat :: orig[k].Contains(t) ==> InUse(orig, t);
    }
  }

  lemma EndMerge(orig: seq<UseInterval>, b: seq<UseInterval>, a: seq<UseInterval>, ia: nat, ib: nat)
    requires MergeState(orig, b, a, ia, ib)
    ensures forall t: nat :: InEither(orig, b, t) ==> InUse(a + b[ib..], t)
    ensures forall t: nat :: InUse(a + b[ib..], t) ==> Bridged(orig, b, t)
  {
    assert b == b[..ib] + b[ib..];
    forall t: nat
      ensures InEither(orig, b, t) ==> InUse(a + b[ib..], t)
      ensures InUse(a + b[ib..], t) ==> Bridged(orig, b, t)
    {
      InUseSplit(a, b[ib..], t);
      InUseSplit(b[..ib], b[ib..], t);
      if InUse(a, t) {
        var k :| 0 <= k < |a| && a[k].Contains(t);
        assert Sound(orig, b, a[k]);
      }
    }
  }

  /** The cursor passes an interval that has just bridged its neighbours, so the result overlaps itself. */
  lemma MergeCanOverlap()
    ensures
      var a, b := [UseInterval(0, 0), UseInterval(4, 9)], [UseInterval(2, 2), UseInterval(8, 8)];
      && SortedDisjoint(a) && Spaced(a) && SortedDisjoint(b) && Spaced(b)
      && !MergesCleanly(a, 0, b, 0, 0) && !MergesCleanly(a, 0, b, 0, 2) && !SortedDisjoint(Merged(a, 0, b, 0))
  {
    var a, b := [UseInterval(0, 0), UseInterval(4, 9)], [UseInterval(2, 2), UseInterval(8, 8)];
    assert Absorbed(a, UseInterval(0, 9), 2) == (UseInterval(0, 9), 2);
    assert Absorbed(a, UseInterval(0, 2), 1) == (UseInterval(0, 9), 2);
    assert MergedAt(a, 0, b[0])[0] == UseInterval(0, 9);
    assert !PassesCleanly(a, 0, b, 0, 0) && !PassesCleanly(a, 0, b, 0, 2);
    MergedSortedExactly(a, b);
  }
}

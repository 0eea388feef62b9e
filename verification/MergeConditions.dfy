/** When merging vectors in normal form merges everything, as a condition on the two vectors alone. */
module MergeConditions {
  import opened IntervalMerging
  import opened UseIntervals

  /** `b[j]` continues `a[k]` without overlapping it, and reaches the later interval `a[m]`. */
  predicate Bridges(a: seq<UseInterval>, b: seq<UseInterval>, k: nat, m: nat, j: nat)
    requires k < m < |a| && j < |b|
  {
    a[k].end < b[j].start <= a[k].end + 2 && a[m].start <= b[j].end + 2
  }

  /** Whenever an interval of `b` bridges a gap of `a`, what it reaches does not reach the next interval of `b`. */
  predicate MergesFully(a: seq<UseInterval>, b: seq<UseInterval>) {
    forall k, m, j :: 0 <= k < m < |a| && 0 <= j < |b| - 1 && Bridges(a, b, k, m, j) ==> a[m].end + 2 < b[j + 1].start
  }

  /** `b[j]` bridges a gap of `a` and what it reaches goes on to `b[j + 1]`. */
  predicate Snag(a: seq<UseInterval>, b: seq<UseInterval>, k: nat, m: nat, j: nat) {
    k < m < |a| && j < |b| - 1 && Bridges(a, b, k, m, j) && a[m].end + 2 >= b[j + 1].start
  }

  // ---------------------------------------------------------------- what an interval takes in

  /** Equal tails are absorbed alike. */
  lemma {:induction false} AbsorbedAlike(a: seq<UseInterval>, p: nat, w: seq<UseInterval>, q: nat, it: UseInterval)
    requires p <= |a| && q <= |w| && a[p..] == w[q..]
    ensures
      var (u, i), (v, j) := Absorbed(a, it, p), Absorbed(w, it, q);
      && u == v && p <= i <= |a| && q <= j <= |w| && i - p == j - q && a[i..] == w[j..]
    decreases |a| - p
  {
    if p < |a| {
      assert a[p..][0] == w[q..][0] && a[p..][1..] == a[p + 1..] && w[q..][1..] == w[q + 1..];
      if it.IsContiguous(a[p]) {
        AbsorbedAlike(a, p + 1, w, q + 1, UseInterval(it.start, Max(it.end, a[p].end)));
      }
    }
  }

  /** In a vector with room between its intervals, exactly those are absorbed that the first one reaches. */
  lemma {:induction false} AbsorbedExactly(w: seq<UseInterval>, it: UseInterval, q: nat)
    requires ApartBy(w, 2) && q <= |w| && forall l :: q <= l < |w| ==> it.start <= w[l].end
    ensures
      var (u, j) := Absorbed(w, it, q);
      && q <= j <= |w| && u.start == it.start && it.end <= u.end && (j < |w| ==> u.end + 2 < w[j].start)
      && (u.end == it.end || (q < j && u.end == w[j - 1].end))
      && (forall l :: q <= l < j ==> w[l].start <= it.end + 2 && w[l].end <= u.end)
      && (forall l :: j <= l < |w| ==> it.end + 2 < w[l].start)
    decreases |w| - q
  {
    if q < |w| && it.IsContiguous(w[q]) {
      AbsorbedExactly(w, UseInterval(it.start, Max(it.end, w[q].end)), q + 1);
    } else {
      assert forall l :: q < l < |w| ==> w[q].end + 2 < w[l].start;
    }
  }

  // ---------------------------------------------------------------- the interval at the cursor

  /** The interval at the cursor ends like an original one or like the last one taken from `b`; it is still the
      original one, and then `b[ib]` begins behind the one before, or begins in what was taken from `b`. */
  ghost predicate Current(orig: seq<UseInterval>, b: seq<UseInterval>, ib: nat, n: nat, x: UseInterval) {
    && x.NonEmpty() && n <= |orig| && ib <= |b|
    && (n > 0 ==> orig[n - 1].end <= x.end) && (n < |orig| ==> x.end + 2 < orig[n].start)
    && ((n > 0 && x.end == orig[n - 1].end) || (ib > 0 && x.end == b[ib - 1].end))
    && ((n > 0 && x == orig[n - 1]) || (ib > 0 && x.start <= b[ib - 1].end))
    && (n > 1 && x == orig[n - 1] && ib < |b| ==> orig[n - 2].end < b[ib].start)
  }

  /** Behind the cursor's interval stand the original intervals from `n` on. */
  ghost predicate StandsFor(orig: seq<UseInterval>, a: seq<UseInterval>, ia: nat, b: seq<UseInterval>, ib: nat,
                            n: nat)
  {
    && ia <= |a| && ib <= |b|
    && if ia == |a| then n == |orig| + 1
       else n <= |orig| && a[ia + 1..] == orig[n..] && Current(orig, b, ib, n, a[ia])
  }

  /** Snags that are still ahead of the cursors stay ahead. */
  ghost predicate StaysAhead(orig: seq<UseInterval>, b: seq<UseInterval>, ib: nat, n: nat, newIb: nat, n': nat) {
    forall k: nat, m: nat, j: nat :: Snag(orig, b, k, m, j) && n <= k + 1 && ib <= j ==> n' <= k + 1 && newIb <= j
  }

  /** The merged vector at and behind the cursor, in terms of the original intervals. */
  lemma MergedParts(orig: seq<UseInterval>, a: seq<UseInterval>, ia: nat, b: seq<UseInterval>, ib: nat, n: nat,
                    y: UseInterval) returns (n': nat)
    requires ApartBy(orig, 2) && ia < |a| && StandsFor(orig, a, ia, b, ib, n) && a[ia].IsContiguous(y)
    ensures
      var m, end := MergedAt(a, ia, y), Max(a[ia].end, y.end);
      && n <= n' <= |orig| && ia < |m| && m[ia + 1..] == orig[n'..]
      && m[ia].start == Min(a[ia].start, y.start) && end <= m[ia].end
      && (n' < |orig| ==> m[ia].end + 2 < orig[n'].start)
      && (m[ia].end == end || (n < n' && m[ia].end == orig[n' - 1].end))
      && (forall l :: n <= l < n' ==> orig[l].start <= end + 2 && orig[l].end <= m[ia].end)
      && (forall l :: n' <= l < |orig| ==> end + 2 < orig[l].start)
  {
    var hull := Hull(a[ia], y);
    AbsorbedAlike(a, ia + 1, orig, n, hull);
    assert forall l :: n < l < |orig| ==> orig[n].end + 2 < orig[l].start;
    AbsorbedExactly(orig, hull, n);
    n' := Absorbed(orig, hull, n).1;
    var i := Absorbed(a, hull, ia + 1).1;
    assert MergedAt(a, ia, y)[ia + 1..] == a[i..];
  }

  // ---------------------------------------------------------------- one round

  /** One round keeps the correspondence and the snags ahead, unless it runs into one. */
  ghost predicate RoundKeeps(orig: seq<UseInterval>, a: seq<UseInterval>, ia: nat, b: seq<UseInterval>, ib: nat, n: nat,
                             n': nat)
    requires ia < |a| && ib < |b|
  {
    var (newA, newIa, newIb) := MergeStep(a, ia, b, ib);
    if PassesCleanly(a, ia, b, ib, 2)
    then StandsFor(orig, newA, newIa, b, newIb, n') && StaysAhead(orig, b, ib, n, newIb, n')
    else exists k: nat, m: nat :: Snag(orig, b, k, m, ib)
  }

  /** The cursor's interval lies in front of `b[ib]` and does not touch it. */
  lemma RoundBefore(orig: seq<UseInterval>, a: seq<UseInterval>, ia: nat, b: seq<UseInterval>, ib: nat, n: nat)
    requires ApartBy(orig, 2) && ApartBy(b, 2) && ia < |a| && ib < |b| && StandsFor(orig, a, ia, b, ib, n)
    requires a[ia].Before(b[ib]) && !a[ia].IsContiguous(b[ib])
    ensures RoundKeeps(orig, a, ia, b, ib, n, n + 1)
  {
    if ia + 1 < |a| {
      assert a[ia + 1..][0] == orig[n..][0] && a[ia + 1..][1..] == a[ia + 2..] && orig[n..][1..] == orig[n + 1..];
    }
    forall k: nat, m: nat, j: nat | Snag(orig, b, k, m, j) && n <= k + 1 && ib <= j
      ensures n + 1 <= k + 1
    {
      assert ib < j ==> b[ib].end + 2 < b[j].start;
    }
  }

  /** `b[ib]` touches the end of the cursor's interval: the cursor passes what both take in. */
  lemma TouchedBehind(orig: seq<UseInterval>, a: seq<UseInterval>, ia: nat, b: seq<UseInterval>, ib: nat, n: nat)
    returns (n': nat)
    requires ApartBy(orig, 2) && ApartBy(b, 2) && ia < |a| && ib < |b| && StandsFor(orig, a, ia, b, ib, n)
    requires a[ia].Before(b[ib]) && a[ia].IsContiguous(b[ib])
    ensures if PassesCleanly(a, ia, b, ib, 2)
            then StandsFor(orig, MergedAt(a, ia, b[ib]), ia + 1, b, ib + 1, n')
                 && StaysAhead(orig, b, ib, n, ib + 1, n')
            else exists k: nat, m: nat :: Snag(orig, b, k, m, ib)
  {
    var y := b[ib];
    var next := MergedParts(orig, a, ia, b, ib, n, y);
    n' := next + 1;
    var m := MergedAt(a, ia, y);
    assert ib > 0 ==> b[ib - 1].end + 2 < y.start;
    assert n > 0 && a[ia].end == orig[n - 1].end;
    if ia + 1 < |m| {
      assert m[ia + 1..][0] == orig[next..][0] && m[ia + 1..][1..] == m[ia + 2..] && orig[next..][1..] == orig[n'..];
    }
    if !PassesCleanly(a, ia, b, ib, 2) {
      assert y.end + 2 < b[ib + 1].start;
      assert Snag(orig, b, n - 1, next - 1, ib);
    } else {
      forall k: nat, l: nat, j: nat | Snag(orig, b, k, l, j) && n <= k + 1 && ib <= j
        ensures n' <= k + 1 && ib + 1 <= j
      {
        assert ib + 1 < j ==> b[ib + 1].end + 2 < b[j].start;
        assert n - 1 < k ==> orig[n - 1].end + 2 < orig[k].start;
      }
    }
  }

  lemma RoundBridge(orig: seq<UseInterval>, a: seq<UseInterval>, ia: nat, b: seq<UseInterval>, ib: nat, n: nat)
    returns (n': nat)
    requires ApartBy(orig, 2) && ApartBy(b, 2) && ia < |a| && ib < |b| && StandsFor(orig, a, ia, b, ib, n)
    requires a[ia].Before(b[ib]) && a[ia].IsContiguous(b[ib])
    ensures RoundKeeps(orig, a, ia, b, ib, n, n')
  {
    n' := TouchedBehind(orig, a, ia, b, ib, n);
  }

  /** An interval of `b` in front of the cursor's interval: that one is an original one, and no snag begins here. */
  lemma InFront(orig: seq<UseInterval>, b: seq<UseInterval>, ib: nat, n: nat, x: UseInterval)
    requires ApartBy(orig, 2) && ApartBy(b, 2) && ib < |b| && Current(orig, b, ib, n, x) && x.After(b[ib])
    ensures n > 0 && x == orig[n - 1] && StaysAhead(orig, b, ib, n, ib + 1, n)
  {
    assert ib > 0 ==> b[ib - 1].end + 2 < b[ib].start;
    forall k: nat, m: nat, j: nat | Snag(orig, b, k, m, j) && n <= k + 1 && ib <= j
      ensures ib + 1 <= j
    {
      assert n - 1 < k ==> orig[n - 1].end + 2 < orig[k].start;
    }
  }

  lemma RoundJoin(orig: seq<UseInterval>, a: seq<UseInterval>, ia: nat, b: seq<UseInterval>, ib: nat, n: nat)
    requires ApartBy(orig, 2) && ApartBy(b, 2) && ia < |a| && ib < |b| && StandsFor(orig, a, ia, b, ib, n)
    requires a[ia].After(b[ib]) && b[ib].IsContiguous(a[ia])
    ensures RoundKeeps(orig, a, ia, b, ib, n, n)
  {
    InFront(orig, b, ib, n, a[ia]);
    assert a[ia := Hull(a[ia], b[ib])][ia + 1..] == a[ia + 1..];
  }

  lemma RoundPut(orig: seq<UseInterval>, a: seq<UseInterval>, ia: nat, b: seq<UseInterval>, ib: nat, n: nat)
    requires ApartBy(orig, 2) && ApartBy(b, 2) && ia < |a| && ib < |b| && StandsFor(orig, a, ia, b, ib, n)
    requires a[ia].After(b[ib]) && !b[ib].IsContiguous(a[ia])
    ensures n > 0 && RoundKeeps(orig, a, ia, b, ib, n, n - 1)
  {
    InFront(orig, b, ib, n, a[ia]);
    var more := a[..ia] + [b[ib]] + a[ia..];
    assert more[ia + 1..] == a[ia..] == [a[ia]] + a[ia + 1..];
    assert orig[n - 1..] == [orig[n - 1]] + orig[n..];
    assert n > 1 ==> orig[n - 2].end + 2 < orig[n - 1].start;
  }

  /** The cursor's interval and `b[ib]` overlap: both take in what they reach, and the cursor stays. */
  lemma Overlapped(orig: seq<UseInterval>, a: seq<UseInterval>, ia: nat, b: seq<UseInterval>, ib: nat, n: nat)
    returns (n': nat)
    requires ApartBy(orig, 2) && ApartBy(b, 2) && ia < |a| && ib < |b| && StandsFor(orig, a, ia, b, ib, n)
    requires a[ia].IsOverlapping(b[ib])
    ensures StandsFor(orig, MergedAt(a, ia, b[ib]), ia, b, ib + 1, n') && StaysAhead(orig, b, ib, n, ib + 1, n')
  {
    var y := b[ib];
    n' := MergedParts(orig, a, ia, b, ib, n, y);
    assert ib > 0 ==> b[ib - 1].end + 2 < y.start;
    assert n > 0 && a[ia].end == orig[n - 1].end;
    assert ib + 1 < |b| ==> y.end + 2 < b[ib + 1].start;
    assert n' > n ==> orig[n - 1].end + 2 < orig[n' - 1].start;
    assert forall k :: 0 <= k < n' - 1 ==> orig[k].end + 2 < orig[n' - 1].start;
    forall k: nat, m: nat, j: nat | Snag(orig, b, k, m, j) && n <= k + 1 && ib <= j
      ensures n' <= k + 1 && ib + 1 <= j
    {
      assert n - 1 < k ==> orig[n - 1].end + 2 < orig[k].start;
      assert ib + 1 < j ==> b[ib + 1].end + 2 < b[j].start;
    }
  }

  lemma RoundOverlap(orig: seq<UseInterval>, a: seq<UseInterval>, ia: nat, b: seq<UseInterval>, ib: nat, n: nat)
    returns (n': nat)
    requires ApartBy(orig, 2) && ApartBy(b, 2) && ia < |a| && ib < |b| && StandsFor(orig, a, ia, b, ib, n)
    requires a[ia].IsOverlapping(b[ib])
    ensures RoundKeeps(orig, a, ia, b, ib, n, n')
  {
    n' := Overlapped(orig, a, ia, b, ib, n);
  }

  lemma OneRound(orig: seq<UseInterval>, a: seq<UseInterval>, ia: nat, b: seq<UseInterval>, ib: nat, n: nat)
    returns (n': nat)
    requires ApartBy(orig, 2) && ApartBy(b, 2) && ia < |a| && ib < |b| && StandsFor(orig, a, ia, b, ib, n)
    ensures RoundKeeps(orig, a, ia, b, ib, n, n')
  {
    if a[ia].Before(b[ib]) {
      if a[ia].IsContiguous(b[ib]) {
        n' := RoundBridge(orig, a, ia, b, ib, n);
      } else {
        RoundBefore(orig, a, ia, b, ib, n);
        n' := n + 1;
      }
    } else if !a[ia].After(b[ib]) {
      n' := RoundOverlap(orig, a, ia, b, ib, n);
    } else if b[ib].IsContiguous(a[ia]) {
      RoundJoin(orig, a, ia, b, ib, n);
      n' := n;
    } else {
      RoundPut(orig, a, ia, b, ib, n);
      n' := n - 1;
    }
  }

  // ---------------------------------------------------------------- the whole merge

  lemma {:induction false} CleanUpToSnags(orig: seq<UseInterval>, a: seq<UseInterval>, ia: nat, b: seq<UseInterval>,
                                          ib: nat, n: nat)
    requires ApartBy(orig, 2) && ApartBy(b, 2) && StandsFor(orig, a, ia, b, ib, n)
    ensures !MergesCleanly(a, ia, b, ib, 2) ==> exists k: nat, m: nat, j: nat :: Snag(orig, b, k, m, j)
    ensures MergesCleanly(a, ia, b, ib, 2) ==>
              forall k: nat, m: nat, j: nat :: Snag(orig, b, k, m, j) ==> k + 1 < n || j < ib
    decreases |b| - ib, |a| - ia
  {
    if ia < |a| && ib < |b| {
      var n' := OneRound(orig, a, ia, b, ib, n);
      if PassesCleanly(a, ia, b, ib, 2) {
        var (newA, newIa, newIb) := MergeStep(a, ia, b, ib);
        CleanUpToSnags(orig, newA, newIa, b, newIb, n');
      }
    }
  }

  /** Merging vectors in normal form merges all overlapping and contiguous intervals if and only if no interval of
      `b` that bridges a gap of `a` reaches, with what it bridges to, the next interval of `b`. */
  lemma MergedFullyExactly(a: seq<UseInterval>, b: seq<UseInterval>)
    requires SortedDisjoint(a) && Spaced(a) && SortedDisjoint(b) && Spaced(b)
    ensures SortedDisjoint(Merged(a, 0, b, 0)) && Spaced(Merged(a, 0, b, 0)) <==> MergesFully(a, b)
  {
    MergedSpacedExactly(a, b);
    assert ApartBy(a, 2) && ApartBy(b, 2);
    NoSnags(a, b);
    CleanUpToSnags(a, a, 0, b, 0, 1);
  }

  lemma NoSnags(a: seq<UseInterval>, b: seq<UseInterval>)
    ensures MergesFully(a, b) <==> forall k: nat, m: nat, j: nat :: !Snag(a, b, k, m, j)
  {
    if MergesFully(a, b) {
      forall k: nat, m: nat, j: nat
        ensures !Snag(a, b, k, m, j)
      {
      }
    } else {
      var k, m, j :| 0 <= k < m < |a| && 0 <= j < |b| - 1 && Bridges(a, b, k, m, j) && a[m].end + 2 >= b[j + 1].start;
      assert Snag(a, b, k, m, j);
    }
  }
}

/** Subtraction, intersection and merging of interval vectors with two moving cursors. */
module IntervalAlgebra {
  import opened Sequences
  import opened UseIntervals

  lemma InUseSplit(v: seq<UseInterval>, w: seq<UseInterval>, t: nat)
    ensures InUse(v + w, t) <==> InUse(v, t) || InUse(w, t)
  {
    var whole := v + w;
    if InUse(v, t) {
      var i :| 0 <= i < |v| && v[i].Contains(t);
      assert whole[i].Contains(t);
    }
    if InUse(w, t) {
      var i :| 0 <= i < |w| && w[i].Contains(t);
      assert whole[|v| + i].Contains(t);
    }
  }

  lemma InUseCons(u: UseInterval, w: seq<UseInterval>, t: nat)
    ensures InUse([u] + w, t) <==> u.Contains(t) || InUse(w, t)
  {
    InUseSplit([u], w, t);
    assert InUse([u], t) <==> u.Contains(t) by {
      assert [u][0] == u;
    }
  }

  // ---------------------------------------------------------------- subtraction

  /** Where the part of `a[i]` starts that the intervals of `b` before `j` leave over at its end. */
  function TailStart(a: seq<UseInterval>, b: seq<UseInterval>, i: nat, j: nat): nat
    requires i < |a| && j <= |b|
  {
    if j > 0 && b[j - 1].end >= a[i].start then b[j - 1].end + 1 else a[i].start
  }

  /** `b[j]` takes all that is left of `a[i]`. */
  predicate Swallows(a: seq<UseInterval>, b: seq<UseInterval>, i: nat, j: nat)
    requires i < |a| && j < |b|
  {
    b[j].start <= TailStart(a, b, i, j) <= a[i].end <= b[j].end
  }

  /** No interval of `b` swallows one of `a` and goes on into the next one. */
  predicate SubtractsCleanly(a: seq<UseInterval>, b: seq<UseInterval>) {
    forall i, j :: 0 <= i < |a| - 1 && 0 <= j < |b| && Swallows(a, b, i, j) ==> b[j].end < a[i + 1].start
  }

  /** The pairs with an interval of `b` before `ib` are clean. */
  predicate CleanBelow(a: seq<UseInterval>, b: seq<UseInterval>, ib: nat) {
    forall i, j :: 0 <= i < |a| - 1 && 0 <= j < ib && j < |b| && Swallows(a, b, i, j) ==> b[j].end < a[i + 1].start
  }

  /** No interval of `b` meets the piece. */
  ghost predicate PieceDone(b: seq<UseInterval>, u: UseInterval) {
    forall j :: 0 <= j < |b| ==> !u.IsOverlapping(b[j])
  }

  /** The piece lies in front of all intervals of `b` from `ib` on. */
  ghost predicate PieceBehind(b: seq<UseInterval>, u: UseInterval, ib: nat) {
    forall j :: ib <= j < |b| ==> u.Before(b[j])
  }

  /** While nothing was lost: in front of the cursor nothing of `b` is left; at the cursor stands the
      tail of `orig[n - 1]`, if there is one, and then the pieces cut off before it and `orig[n..]`. */
  ghost predicate SubtractState(orig: seq<UseInterval>, b: seq<UseInterval>, pre: seq<UseInterval>,
                                tail: seq<UseInterval>, cut: seq<UseInterval>, n: nat, ib: nat)
  {
    && SortedDisjoint(orig) && SortedDisjoint(b)
    && n <= |orig| && ib <= |b| && |tail| <= 1 && |tail| <= n
    && (forall k :: 0 <= k < |pre| ==> PieceDone(b, pre[k]))
    && (forall k :: 0 <= k < |cut| ==> cut[k].NonEmpty() && PieceDone(b, cut[k]) && PieceBehind(b, cut[k], ib))
    && (tail != [] ==> tail[0] == UseInterval(TailStart(orig, b, n - 1, ib), orig[n - 1].end) && tail[0].NonEmpty())
    && (ib > 0 && n < |orig| ==> b[ib - 1].end < orig[n].start)
    && (ib > 0 && tail != [] ==> b[ib - 1].end < orig[n - 1].end)
    && (ib < |b| ==> forall i :: 0 <= i < n - |tail| ==> orig[i].end <= b[ib].end && !Swallows(orig, b, i, ib))
    && CleanBelow(orig, b, ib)
  }

  lemma TailIsAheadOfB(orig: seq<UseInterval>, b: seq<UseInterval>, pre: seq<UseInterval>, tail: seq<UseInterval>,
                       cut: seq<UseInterval>, n: nat, ib: nat)
    requires SubtractState(orig, b, pre, tail, cut, n, ib) && tail != []
    ensures forall j :: 0 <= j < ib ==> b[j].Before(tail[0])
  {
    forall j | 0 <= j < ib
      ensures b[j].Before(tail[0])
    {
      assert j < ib - 1 ==> b[j].Before(b[ib - 1]);
    }
  }

  /** The cursor moves past a piece that lies in front of `b[ib]`. */
  lemma PassBefore(orig: seq<UseInterval>, b: seq<UseInterval>, pre: seq<UseInterval>, tail: seq<UseInterval>,
                   cut: seq<UseInterval>, n: nat, ib: nat)
    requires SubtractState(orig, b, pre, tail, cut, n, ib) && ib < |b|
    requires tail != [] ==> tail[0].Before(b[ib])
    ensures tail != [] ==> SubtractState(orig, b, pre + tail, [], cut, n, ib)
    ensures tail == [] && cut != [] ==> SubtractState(orig, b, pre + [cut[0]], [], cut[1..], n, ib)
  {
    if tail != [] {
      TailIsAheadOfB(orig, b, pre, tail, cut, n, ib);
      forall j | 0 <= j < |b|
        ensures !tail[0].IsOverlapping(b[j])
      {
        assert j > ib ==> b[ib].Before(b[j]);
      }
    }
  }

  /** `b[ib]` lies in front of the tail. */
  lemma SkipB(orig: seq<UseInterval>, b: seq<UseInterval>, pre: seq<UseInterval>, tail: seq<UseInterval>,
              cut: seq<UseInterval>, n: nat, ib: nat)
    requires SubtractState(orig, b, pre, tail, cut, n, ib) && ib < |b| && tail != [] && tail[0].After(b[ib])
    ensures SubtractState(orig, b, pre, tail, cut, n, ib + 1)
  {
    NextB(orig, b, n, ib);
    assert ib > 0 ==> b[ib - 1].Before(b[ib]);
    assert n < |orig| ==> orig[n - 1].Before(orig[n]);
  }

  /** Pairs with `b[ib]` are clean once every interval of `orig` that it reaches was passed or ends behind it. */
  lemma NextB(orig: seq<UseInterval>, b: seq<UseInterval>, n: nat, ib: nat)
    requires SortedDisjoint(orig) && SortedDisjoint(b) && n <= |orig| && ib < |b| && CleanBelow(orig, b, ib)
    requires forall i :: 0 <= i < n - 1 ==> orig[i].end <= b[ib].end && !Swallows(orig, b, i, ib)
    requires n > 0 && b[ib].end < orig[n - 1].end
    ensures CleanBelow(orig, b, ib + 1)
    ensures ib + 1 < |b| ==>
              forall i :: 0 <= i < n - 1 ==> orig[i].end <= b[ib + 1].end && !Swallows(orig, b, i, ib + 1)
  {
    forall i | 0 <= i < |orig|
      ensures !Swallows(orig, b, i, ib)
    {
      if i >= n {
        assert orig[n - 1].Before(orig[i]);
      }
    }
    if ib + 1 < |b| {
      assert b[ib].Before(b[ib + 1]) && b[ib + 1].NonEmpty();
      forall i | 0 <= i < n - 1
        ensures orig[i].end <= b[ib + 1].end && !Swallows(orig, b, i, ib + 1)
      {
        assert orig[i].end <= b[ib].end;
      }
    }
  }

  /** `b[ib]` takes the front of the tail. */
  lemma TrimFront(orig: seq<UseInterval>, b: seq<UseInterval>, pre: seq<UseInterval>, tail: seq<UseInterval>,
                  cut: seq<UseInterval>, n: nat, ib: nat)
    requires SubtractState(orig, b, pre, tail, cut, n, ib) && ib < |b| && tail != []
    requires tail[0].IsOverlapping(b[ib]) && tail[0].start >= b[ib].start && tail[0].end > b[ib].end
    ensures SubtractState(orig, b, pre, [UseInterval(b[ib].end + 1, tail[0].end)], cut, n, ib + 1)
  {
    NextB(orig, b, n, ib);
    assert n < |orig| ==> orig[n - 1].Before(orig[n]);
  }

  /** `b[ib]` takes the end of the tail and may reach further. */
  lemma TrimEnd(orig: seq<UseInterval>, b: seq<UseInterval>, pre: seq<UseInterval>, tail: seq<UseInterval>,
                cut: seq<UseInterval>, n: nat, ib: nat)
    requires SubtractState(orig, b, pre, tail, cut, n, ib) && ib < |b| && tail != []
    requires tail[0].IsOverlapping(b[ib]) && tail[0].end <= b[ib].end && tail[0].start < b[ib].start
    ensures SubtractState(orig, b, pre + [UseInterval(tail[0].start, b[ib].start - 1)], [], cut, n, ib)
  {
    TailIsAheadOfB(orig, b, pre, tail, cut, n, ib);
    var left := UseInterval(tail[0].start, b[ib].start - 1);
    forall j | 0 <= j < |b|
      ensures !left.IsOverlapping(b[j])
    {
      assert j > ib ==> b[ib].Before(b[j]);
    }
  }

  /** `b[ib]` lies inside the tail: the right piece is the new tail, the left one is cut off. */
  lemma CutOut(orig: seq<UseInterval>, b: seq<UseInterval>, pre: seq<UseInterval>, tail: seq<UseInterval>,
               cut: seq<UseInterval>, n: nat, ib: nat)
    requires SubtractState(orig, b, pre, tail, cut, n, ib) && ib < |b| && tail != []
    requires tail[0].start < b[ib].start && tail[0].end > b[ib].end
    ensures SubtractState(orig, b, pre, [UseInterval(b[ib].end + 1, tail[0].end)],
                          [UseInterval(tail[0].start, b[ib].start - 1)] + cut, n, ib + 1)
  {
    TailIsAheadOfB(orig, b, pre, tail, cut, n, ib);
    NextB(orig, b, n, ib);
    assert n < |orig| ==> orig[n - 1].Before(orig[n]);
    var left := UseInterval(tail[0].start, b[ib].start - 1);
    forall j | 0 <= j < |b|
      ensures !left.IsOverlapping(b[j])
      ensures j > ib ==> left.Before(b[j])
    {
      assert j > ib ==> b[ib].Before(b[j]);
    }
  }

  /** `b[ib]` takes the whole tail and does not reach the next interval. */
  lemma EraseTail(orig: seq<UseInterval>, b: seq<UseInterval>, pre: seq<UseInterval>, tail: seq<UseInterval>,
                  cut: seq<UseInterval>, n: nat, ib: nat)
    requires SubtractState(orig, b, pre, tail, cut, n, ib) && ib < |b| && tail != []
    requires b[ib].start <= tail[0].start && tail[0].end <= b[ib].end
    requires n < |orig| ==> b[ib].end < orig[n].start
    ensures SubtractState(orig, b, pre, [], cut, n, ib + 1)
  {
    assert ib + 1 < |b| ==> b[ib].Before(b[ib + 1]);
    forall i | 0 <= i < |orig| - 1 && Swallows(orig, b, i, ib)
      ensures b[ib].end < orig[i + 1].start
    {
      if i > n - 1 {
        assert orig[n - 1].Before(orig[i]) && (i > n ==> orig[n].Before(orig[i]));
      }
    }
  }

  /** With nothing else at the cursor, the next original interval is its own tail. */
  lemma FreshTail(orig: seq<UseInterval>, b: seq<UseInterval>, pre: seq<UseInterval>, n: nat, ib: nat)
    requires SubtractState(orig, b, pre, [], [], n, ib) && n < |orig|
    ensures SubtractState(orig, b, pre, [orig[n]], [], n + 1, ib)
  {
    assert n + 1 < |orig| ==> orig[n].Before(orig[n + 1]);
  }

  /** When a cursor has reached its end, nothing of `b` is left, and no pair was unclean. */
  lemma SubtractDone(orig: seq<UseInterval>, b: seq<UseInterval>, pre: seq<UseInterval>, tail: seq<UseInterval>,
                     cut: seq<UseInterval>, n: nat, ib: nat, t: nat)
    requires SubtractState(orig, b, pre, tail, cut, n, ib)
    requires ib == |b| || (tail == [] && cut == [] && n == |orig|)
    ensures SubtractsCleanly(orig, b)
    ensures InUse(b, t) ==> !InUse(pre + tail + cut + orig[n..], t)
  {
    var a := pre + tail + cut + orig[n..];
    assert ib < |b| ==> forall j :: ib < j < |b| ==> b[ib].Before(b[j]);
    forall k, j | 0 <= k < |a| && 0 <= j < |b|
      ensures !a[k].IsOverlapping(b[j])
    {
      if |pre| <= k < |pre| + |tail| {
        TailIsAheadOfB(orig, b, pre, tail, cut, n, ib);
      } else if |pre| + |tail| + |cut| <= k {
        var m := n + (k - |pre| - |tail| - |cut|);
        assert a[k] == orig[m];
        assert (j < ib - 1 ==> b[j].Before(b[ib - 1])) && (m > n ==> orig[n].Before(orig[m]));
      } else if k < |pre| {
        assert a[k] == pre[k];
      } else {
        assert a[k] == cut[k - |pre| - |tail|];
      }
    }
  }

  /** The cursor's interval was replaced by pieces that lack only points of `u`. */
  ghost predicate TakesOnly(a: seq<UseInterval>, u: UseInterval, after: seq<UseInterval>) {
    forall t: nat :: (InUse(after, t) ==> InUse(a, t)) && (InUse(a, t) && !u.Contains(t) ==> InUse(after, t))
  }

  lemma ReplaceTakesOnly(a: seq<UseInterval>, k: nat, pieces: seq<UseInterval>, u: UseInterval)
    requires k < |a|
    requires forall p :: 0 <= p < |pieces| ==> a[k].start <= pieces[p].start && pieces[p].end <= a[k].end
    requires forall t: nat :: a[k].Contains(t) && !u.Contains(t) ==> InUse(pieces, t)
    ensures TakesOnly(a, u, a[..k] + pieces + a[k + 1..])
  {
    var after := a[..k] + pieces + a[k + 1..];
    assert a == a[..k] + [a[k]] + a[k + 1..];
    forall t: nat
      ensures (InUse(after, t) ==> InUse(a, t)) && (InUse(a, t) && !u.Contains(t) ==> InUse(after, t))
    {
      InUseSplit(a[..k] + pieces, a[k + 1..], t);
      InUseSplit(a[..k], pieces, t);
      InUseSplit(a[..k] + [a[k]], a[k + 1..], t);
      InUseSplit(a[..k], [a[k]], t);
      assert InUse([a[k]], t) <==> a[k].Contains(t) by {
        assert [a[k]][0] == a[k];
      }
    }
  }

  /** Nothing outside `b` was taken, and nothing was added. */
  ghost predicate Between(orig: seq<UseInterval>, b: seq<UseInterval>, a: seq<UseInterval>) {
    forall t: nat :: (InUse(a, t) ==> InUse(orig, t)) && (InUse(orig, t) && !InUse(b, t) ==> InUse(a, t))
  }

  lemma StaysBetween(orig: seq<UseInterval>, b: seq<UseInterval>, a: seq<UseInterval>, ib: nat, after: seq<UseInterval>)
    requires Between(orig, b, a) && ib < |b| && TakesOnly(a, b[ib], after)
    ensures Between(orig, b, after)
  {
    forall t: nat | InUse(orig, t) && !InUse(b, t)
      ensures InUse(after, t)
    {
      assert !b[ib].Contains(t);
    }
  }

  /** `t` should have been subtracted, but its interval of `b` was passed and `t` is still there. */
  ghost predicate LostPoint(b: seq<UseInterval>, a: seq<UseInterval>, ib: nat, t: nat) {
    InUse(a, t) && exists j :: 0 <= j < ib && j < |b| && b[j].Contains(t)
  }

  lemma LostForGood(b: seq<UseInterval>, a: seq<UseInterval>, ib: nat, t: nat, after: seq<UseInterval>)
    requires SortedDisjoint(b) && ib < |b| && LostPoint(b, a, ib, t) && TakesOnly(a, b[ib], after)
    ensures LostPoint(b, after, ib, t) && LostPoint(b, after, ib + 1, t)
  {
    var j :| 0 <= j < ib && b[j].Contains(t);
    assert b[j].Before(b[ib]);
  }

  /** The proof state of the subtraction: the parts of `a` around the cursor, or a lost point. */
  datatype Progress = Progress(pre: seq<UseInterval>, tail: seq<UseInterval>, cut: seq<UseInterval>, n: nat)
                    | Lost(t: nat)

  ghost predicate Follows(p: Progress, orig: seq<UseInterval>, b: seq<UseInterval>, a: seq<UseInterval>, ia: nat,
                          ib: nat)
  {
    && SortedDisjoint(b) && ia <= |a| && ib <= |b| && Between(orig, b, a)
    && match p
       case Lost(t) => LostPoint(b, a, ib, t) && !SubtractsCleanly(orig, b)
       case Progress(pre, tail, cut, n) =>
         && SubtractState(orig, b, pre, tail, cut, n, ib)
         && a == pre + tail + cut + orig[n..] && ia == |pre|
         && (tail == [] && cut == [] ==> n == |orig|)
  }

  /** Takes the next original interval as tail if nothing else stands at the cursor. */
  ghost function Normalized(p: Progress, orig: seq<UseInterval>): Progress {
    if p.Progress? && p.tail == [] && p.cut == [] && p.n < |orig| then Progress(p.pre, [orig[p.n]], [], p.n + 1) else p
  }

  lemma NormalizedFollows(p: Progress, orig: seq<UseInterval>, b: seq<UseInterval>, a: seq<UseInterval>, ia: nat,
                          ib: nat)
    requires ia <= |a| && ib <= |b| && Between(orig, b, a) && p.Progress?
    requires SubtractState(orig, b, p.pre, p.tail, p.cut, p.n, ib)
    requires a == p.pre + p.tail + p.cut + orig[p.n..] && ia == |p.pre|
    ensures Follows(Normalized(p, orig), orig, b, a, ia, ib)
  {
    if p.tail == [] && p.cut == [] && p.n < |orig| {
      FreshTail(orig, b, p.pre, p.n, ib);
      assert orig[p.n..] == [orig[p.n]] + orig[p.n + 1..];
    }
  }

  /** In an orderly state an interval at the cursor that is not in front of `b[ib]` is the tail. */
  lemma CursorIsTail(p: Progress, orig: seq<UseInterval>, b: seq<UseInterval>, a: seq<UseInterval>, ia: nat, ib: nat)
    requires Follows(p, orig, b, a, ia, ib) && ia < |a| && ib < |b| && p.Progress?
    ensures p.tail != [] || p.cut != []
    ensures a[ia] == if p.tail != [] then p.tail[0] else p.cut[0]
    ensures p.tail == [] ==> a[ia].Before(b[ib])
    ensures p.tail != [] ==> a[..ia] == p.pre && a[ia + 1..] == p.cut + orig[p.n..]
  {
    var Progress(pre, tail, cut, n) := p;
    EmptyInBetween(pre, tail, cut, orig[n..]);
    if tail != [] {
      assert tail == [tail[0]] && a == pre + [tail[0]] + (cut + orig[n..]);
      AroundElement(pre, tail[0], cut + orig[n..]);
    }
  }

  ghost predicate Tracked(orig: seq<UseInterval>, b: seq<UseInterval>, a: seq<UseInterval>, ia: nat, ib: nat) {
    exists p :: Follows(p, orig, b, a, ia, ib)
  }

  /** `++iterA`, the interval at the cursor lies in front of `b[ib]`. */
  lemma StepOverA(p: Progress, orig: seq<UseInterval>, b: seq<UseInterval>, a: seq<UseInterval>, ia: nat, ib: nat)
    returns (q: Progress)
    requires Follows(p, orig, b, a, ia, ib) && ia < |a| && ib < |b| && a[ia].Before(b[ib])
    ensures Follows(q, orig, b, a, ia + 1, ib)
  {
    if p.Lost? {
      q := p;
    } else {
      var Progress(pre, tail, cut, n) := p;
      CursorIsTail(p, orig, b, a, ia, ib);
      PassBefore(orig, b, pre, tail, cut, n, ib);
      var r := if tail != [] then Progress(pre + tail, [], cut, n) else Progress(pre + [cut[0]], [], cut[1..], n);
      EmptyInBetween(pre, tail, cut, orig[n..]);
      NormalizedFollows(r, orig, b, a, ia + 1, ib);
      q := Normalized(r, orig);
    }
  }

  /** `++iterB`, `b[ib]` lies in front of the interval at the cursor. */
  lemma StepOverB(p: Progress, orig: seq<UseInterval>, b: seq<UseInterval>, a: seq<UseInterval>, ia: nat, ib: nat)
    requires Follows(p, orig, b, a, ia, ib) && ia < |a| && ib < |b| && a[ia].After(b[ib])
    ensures Follows(p, orig, b, a, ia, ib + 1)
  {
    if p.Progress? {
      CursorIsTail(p, orig, b, a, ia, ib);
      SkipB(orig, b, p.pre, p.tail, p.cut, p.n, ib);
    }
  }

  /** The interval at the cursor keeps only what lies behind `b[ib]`. */
  lemma StepTrimFront(p: Progress, orig: seq<UseInterval>, b: seq<UseInterval>, a: seq<UseInterval>, ia: nat, ib: nat)
    returns (q: Progress)
    requires Follows(p, orig, b, a, ia, ib) && ia < |a| && ib < |b|
    requires a[ia].IsOverlapping(b[ib]) && a[ia].start >= b[ib].start && a[ia].end > b[ib].end
    ensures Follows(q, orig, b, a[ia := UseInterval(b[ib].end + 1, a[ia].end)], ia, ib + 1)
  {
    var right := UseInterval(b[ib].end + 1, a[ia].end);
    var after := a[ia := right];
    assert after == a[..ia] + [right] + a[ia + 1..] && [right][0] == right;
    ReplaceTakesOnly(a, ia, [right], b[ib]);
    StaysBetween(orig, b, a, ib, after);
    if p.Lost? {
      LostForGood(b, a, ib, p.t, after);
      q := p;
    } else {
      CursorIsTail(p, orig, b, a, ia, ib);
      TrimFront(orig, b, p.pre, p.tail, p.cut, p.n, ib);
      q := p.(tail := [right]);
      assert after == q.pre + q.tail + q.cut + orig[q.n..];
    }
  }

  /** The interval at the cursor keeps only what lies in front of `b[ib]`. */
  lemma StepTrimEnd(p: Progress, orig: seq<UseInterval>, b: seq<UseInterval>, a: seq<UseInterval>, ia: nat, ib: nat)
    returns (q: Progress)
    requires Follows(p, orig, b, a, ia, ib) && ia < |a| && ib < |b|
    requires a[ia].IsOverlapping(b[ib]) && a[ia].end <= b[ib].end && a[ia].start < b[ib].start
    ensures Follows(q, orig, b, a[ia := UseInterval(a[ia].start, b[ib].start - 1)], ia + 1, ib)
  {
    var left := UseInterval(a[ia].start, b[ib].start - 1);
    var after := a[ia := left];
    assert after == a[..ia] + [left] + a[ia + 1..] && [left][0] == left;
    ReplaceTakesOnly(a, ia, [left], b[ib]);
    StaysBetween(orig, b, a, ib, after);
    if p.Lost? {
      LostForGood(b, a, ib, p.t, after);
      q := p;
    } else {
      CursorIsTail(p, orig, b, a, ia, ib);
      TrimEnd(orig, b, p.pre, p.tail, p.cut, p.n, ib);
      var r := Progress(p.pre + [left], [], p.cut, p.n);
      assert after == r.pre + r.tail + r.cut + orig[r.n..];
      NormalizedFollows(r, orig, b, after, ia + 1, ib);
      q := Normalized(r, orig);
    }
  }

  /** `b[ib]` lies inside the interval at the cursor: the right piece goes in front of the left one. */
  lemma StepSplit(p: Progress, orig: seq<UseInterval>, b: seq<UseInterval>, a: seq<UseInterval>, ia: nat, ib: nat)
    returns (q: Progress)
    requires Follows(p, orig, b, a, ia, ib) && ia < |a| && ib < |b|
    requires a[ia].start < b[ib].start && a[ia].end > b[ib].end
    ensures var pieces := [UseInterval(b[ib].end + 1, a[ia].end), UseInterval(a[ia].start, b[ib].start - 1)];
            Follows(q, orig, b, a[..ia] + pieces + a[ia + 1..], ia, ib + 1)
  {
    var right, left := UseInterval(b[ib].end + 1, a[ia].end), UseInterval(a[ia].start, b[ib].start - 1);
    var after := a[..ia] + [right, left] + a[ia + 1..];
    assert [right, left][0] == right && [right, left][1] == left;
    ReplaceTakesOnly(a, ia, [right, left], b[ib]);
    StaysBetween(orig, b, a, ib, after);
    if p.Lost? {
      LostForGood(b, a, ib, p.t, after);
      q := p;
    } else {
      CursorIsTail(p, orig, b, a, ia, ib);
      CutOut(orig, b, p.pre, p.tail, p.cut, p.n, ib);
      q := p.(tail := [right], cut := [left] + p.cut);
      assert after == q.pre + q.tail + q.cut + orig[q.n..];
    }
  }

  /** `b[ib]` covers the interval at the cursor: if it reaches into the next one, a point is lost. */
  lemma StepErase(p: Progress, orig: seq<UseInterval>, b: seq<UseInterval>, a: seq<UseInterval>, ia: nat, ib: nat)
    returns (q: Progress)
    requires Follows(p, orig, b, a, ia, ib) && ia < |a| && ib < |b|
    requires a[ia].IsOverlapping(b[ib]) && b[ib].start <= a[ia].start && a[ia].end <= b[ib].end
    ensures Follows(q, orig, b, a[..ia] + a[ia + 1..], ia, ib + 1)
  {
    var after := a[..ia] + a[ia + 1..];
    assert after == a[..ia] + [] + a[ia + 1..];
    ReplaceTakesOnly(a, ia, [], b[ib]);
    StaysBetween(orig, b, a, ib, after);
    if p.Lost? {
      LostForGood(b, a, ib, p.t, after);
      q := p;
    } else {
      var Progress(pre, tail, cut, n) := p;
      CursorIsTail(p, orig, b, a, ia, ib);
      assert after == pre + [] + cut + orig[n..];
      if n < |orig| && orig[n].start <= b[ib].end {
        var t := orig[n].start;
        assert Swallows(orig, b, n - 1, ib) && orig[n - 1].Before(orig[n]);
        assert after[|pre| + |cut|] == orig[n] && orig[n].Contains(t);
        assert b[ib].Contains(t);
        q := Lost(t);
      } else {
        EraseTail(orig, b, pre, tail, cut, n, ib);
        NormalizedFollows(Progress(pre, [], cut, n), orig, b, after, ia, ib + 1);
        q := Normalized(Progress(pre, [], cut, n), orig);
      }
    }
  }

  /** One round of the subtraction. */
  method SubtractRound(a: seq<UseInterval>, iterA: nat, b: seq<UseInterval>, iterB: nat, ghost orig: seq<UseInterval>)
    returns (newA: seq<UseInterval>, newIterA: nat, newIterB: nat)
    requires Tracked(orig, b, a, iterA, iterB) && iterA < |a| && iterB < |b|
    ensures Tracked(orig, b, newA, newIterA, newIterB) && newIterA <= |newA| && newIterB <= |b|
    ensures newIterB == iterB + 1 || (newIterB == iterB && newIterA == iterA + 1 && |newA| == |a|)
  {
    var x, y := a[iterA], b[iterB];
    ghost var p :| Follows(p, orig, b, a, iterA, iterB);
    if x.Before(y) {
      ghost var q := StepOverA(p, orig, b, a, iterA, iterB);
      return a, iterA + 1, iterB;
    } else if x.After(y) {
      StepOverB(p, orig, b, a, iterA, iterB);
      return a, iterA, iterB + 1;
    }
    newA, newIterA, newIterB := SubtractOverlap(a, iterA, b, iterB, orig);
  }

  /** The cursors' intervals overlap: takes `b[iterB]` out of `a[iterA]`. */
  method SubtractOverlap(a: seq<UseInterval>, iterA: nat, b: seq<UseInterval>, iterB: nat, ghost orig: seq<UseInterval>)
    returns (newA: seq<UseInterval>, newIterA: nat, newIterB: nat)
    requires Tracked(orig, b, a, iterA, iterB) && iterA < |a| && iterB < |b| && a[iterA].IsOverlapping(b[iterB])
    ensures Tracked(orig, b, newA, newIterA, newIterB) && newIterA <= |newA| && newIterB <= |b|
    ensures newIterB == iterB + 1 || (newIterB == iterB && newIterA == iterA + 1 && |newA| == |a|)
  {
    ghost var p :| Follows(p, orig, b, a, iterA, iterB);
    if a[iterA].start >= b[iterB].start && a[iterA].end > b[iterB].end {
      ghost var q := StepTrimFront(p, orig, b, a, iterA, iterB);
      return a[iterA := UseInterval(b[iterB].end + 1, a[iterA].end)], iterA, iterB + 1;
    } else if a[iterA].end <= b[iterB].end && a[iterA].start < b[iterB].start {
      ghost var q := StepTrimEnd(p, orig, b, a, iterA, iterB);
      return a[iterA := UseInterval(a[iterA].start, b[iterB].start - 1)], iterA + 1, iterB;
    } else if a[iterA].start < b[iterB].start && a[iterA].end > b[iterB].end {
      ghost var q := StepSplit(p, orig, b, a, iterA, iterB);
      var pieces := [UseInterval(b[iterB].end + 1, a[iterA].end), UseInterval(a[iterA].start, b[iterB].start - 1)];
      return a[..iterA] + pieces + a[iterA + 1..], iterA, iterB + 1;
    } else {
      ghost var q := StepErase(p, orig, b, a, iterA, iterB);
      return a[..iterA] + a[iterA + 1..], iterA, iterB + 1;
    }
  }

  /** `a` minus `b`, in any order. The subtraction is exact exactly when no interval of `b` swallows
      one of `a` and goes on into the next; otherwise some point of `b` stays. */
  method IntervalSubtract(orig: seq<UseInterval>, b: seq<UseInterval>) returns (a: seq<UseInterval>)
    requires SortedDisjoint(orig) && SortedDisjoint(b)
    ensures Between(orig, b, a)
    ensures SubtractsCleanly(orig, b) <==> forall t: nat :: InUse(a, t) <==> InUse(orig, t) && !InUse(b, t)
  {
    a := orig;
    var iterA: nat, iterB: nat := 0, 0;
    StartSubtract(orig, b);
    while iterA < |a| && iterB < |b|
      invariant Tracked(orig, b, a, iterA, iterB)
      invariant iterA <= |a| && iterB <= |b|
      decreases |b| - iterB, |a| - iterA
    {
      a, iterA, iterB := SubtractRound(a, iterA, b, iterB, orig);
    }
    SubtractEnd(orig, b, a, iterA, iterB);
  }

  lemma StartSubtract(orig: seq<UseInterval>, b: seq<UseInterval>)
    requires SortedDisjoint(orig) && SortedDisjoint(b)
    ensures Tracked(orig, b, orig, 0, 0)
  {
    var start := Progress([], [], [], 0);
    assert orig == start.pre + start.tail + start.cut + orig[0..];
    NormalizedFollows(start, orig, b, orig, 0, 0);
  }

  lemma SubtractEnd(orig: seq<UseInterval>, b: seq<UseInterval>, a: seq<UseInterval>, ia: nat, ib: nat)
    requires SortedDisjoint(orig) && Tracked(orig, b, a, ia, ib) && (ia == |a| || ib == |b|)
    ensures Between(orig, b, a)
    ensures SubtractsCleanly(orig, b) <==> forall t: nat :: InUse(a, t) <==> InUse(orig, t) && !InUse(b, t)
  {
    var p :| Follows(p, orig, b, a, ia, ib);
    if p.Progress? {
      forall t: nat
        ensures InUse(a, t) <==> InUse(orig, t) && !InUse(b, t)
      {
        SubtractDone(orig, b, p.pre, p.tail, p.cut, p.n, ib, t);
      }
      SubtractDone(orig, b, p.pre, p.tail, p.cut, p.n, ib, 0);
    } else {
      assert InUse(a, p.t) && InUse(b, p.t);
    }
  }

  /** It is enough that every interval of `b` lies inside one interval of `a`. */
  lemma InsideSubtractsCleanly(a: seq<UseInterval>, b: seq<UseInterval>)
    requires SortedDisjoint(a)
    requires forall j :: 0 <= j < |b| ==> exists i :: 0 <= i < |a| && a[i].start <= b[j].start && b[j].end <= a[i].end
    ensures SubtractsCleanly(a, b)
  {
    forall i, j | 0 <= i < |a| - 1 && 0 <= j < |b| && Swallows(a, b, i, j)
      ensures b[j].end < a[i + 1].start
    {
      var k :| 0 <= k < |a| && a[k].start <= b[j].start && b[j].end <= a[k].end;
      assert k > i ==> a[i].Before(a[k]);
      assert k <= i ==> a[k] == a[i] || a[k].Before(a[i]);
    }
  }

  /** An interval that covers the first interval of `a` and runs into the second is not subtracted there. */
  lemma SubtractionCanLoseAPoint()
    ensures var a, b := [UseInterval(0, 1), UseInterval(5, 6)], [UseInterval(0, 5)];
            SortedDisjoint(a) && SortedDisjoint(b) && !SubtractsCleanly(a, b)
  {
    var a, b := [UseInterval(0, 1), UseInterval(5, 6)], [UseInterval(0, 5)];
    assert Swallows(a, b, 0, 0);
  }
}

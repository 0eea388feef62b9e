/** A slice of a concatenation, rewritten to slice only the operands it needs. */
module ConcatSlice {
  import opened ConcatFold
  import opened Options
  import opened RowMajor
  import opened Sequences
  import opened SliceFold

  datatype Selection = Selection(first: nat, last: nat, front: int)

  datatype Outcome = NoMatch | Rewrite(first: nat, last: nat, starts: seq<int>, limits: seq<int>)

  /** The first operand that reaches past `start`, or the number of operands. */
  predicate IsFirstNeeded(sizes: seq<nat>, start: nat, first: nat) {
    && first <= |sizes| && Offset(sizes, first) <= start
    && (first < |sizes| ==> start < Offset(sizes, first + 1))
  }

  /** One past the last operand that begins before `limit`, or the number of operands if none does. */
  predicate IsLastNeeded(sizes: seq<nat>, limit: nat, last: nat) {
    && last <= |sizes|
    && (if 0 < limit && sizes != []
        then 0 < last && Offset(sizes, last - 1) < limit && (last < |sizes| ==> limit <= Offset(sizes, last))
        else last == |sizes|)
  }

  predicate Static(sizes: seq<Option<nat>>) {
    forall j :: 0 <= j < |sizes| ==> sizes[j].Some?
  }

  function Known(sizes: seq<Option<nat>>): (known: seq<nat>)
    requires Static(sizes)
    ensures |known| == |sizes| && forall j :: 0 <= j < |sizes| ==> known[j] == sizes[j].value
  {
    seq(|sizes|, j requires 0 <= j < |sizes| => sizes[j].value)
  }

  /** What the scan over the operands in `sizes`, of `n` in all, knows of the first needed one. */
  predicate ScannedFirst(sizes: seq<nat>, start: nat, n: nat, first: nat, front: int, concatSize: int) {
    if first < |sizes|
    then Offset(sizes, first) <= start < Offset(sizes, first + 1) && front == Offset(sizes, first)
    else first == n && Sum(sizes) <= start && front == concatSize
  }

  predicate ScannedLast(sizes: seq<nat>, limit: nat, n: nat, last: nat) {
    if 0 < limit && sizes != []
    then 0 < last <= |sizes| && Offset(sizes, last - 1) < limit && (last < |sizes| ==> limit <= Offset(sizes, last))
    else last == n
  }

  lemma {:induction false} OffsetOfPrefix(sizes: seq<nat>, size: nat, j: nat)
    requires j <= |sizes|
    ensures Offset(sizes + [size], j) == Offset(sizes, j)
    decreases j
  {
    if j > 0 {
      OffsetOfPrefix(sizes, size, j - 1);
    }
  }

  lemma ScanFirst(sizes: seq<nat>, size: nat, start: nat, n: nat, first: nat, front: int, concatSize: int)
    requires ScannedFirst(sizes, start, n, first, front, concatSize) && |sizes| < n
    ensures
      var found := Sum(sizes) + size > start && first == n;
      ScannedFirst(sizes + [size], start, n, if found then |sizes| else first, if found then Sum(sizes) else front,
                   concatSize)
  {
    OffsetOfPrefix(sizes, size, |sizes|);
    if first < |sizes| {
      OffsetOfPrefix(sizes, size, first);
      OffsetOfPrefix(sizes, size, first + 1);
    }
  }

  lemma ScanLast(sizes: seq<nat>, size: nat, limit: nat, n: nat, last: nat)
    requires ScannedLast(sizes, limit, n, last) && |sizes| < n
    ensures ScannedLast(sizes + [size], limit, n, if Sum(sizes) < limit then |sizes| + 1 else last)
  {
    OffsetOfPrefix(sizes, size, |sizes|);
    if 0 < limit && sizes != [] {
      OffsetOfPrefix(sizes, size, last - 1);
      OffsetOfPrefix(sizes, size, last);
    }
  }

  /** Which operands a slice along the axis needs; nothing if some size is unknown. */
  method SelectOperands(sizes: seq<Option<nat>>, concatSize: int, sliceStart: nat, sliceLimit: nat)
    returns (selection: Option<Selection>)
    ensures selection.Some? <==> Static(sizes)
    ensures selection.Some? ==>
              var s := selection.value;
              && IsFirstNeeded(Known(sizes), sliceStart, s.first)
              && IsLastNeeded(Known(sizes), sliceLimit, s.last)
              && s.front == if s.first < |sizes| then Offset(Known(sizes), s.first) else concatSize
  {
    var runningSize := 0;
    var frontOffset := concatSize;
    var subsetStart: nat, subsetEnd: nat := |sizes|, |sizes|;
    ghost var seen: seq<nat> := [];
    var it := 0;
    while it < |sizes|
      invariant |seen| == it <= |sizes| && runningSize == Sum(seen)
      invariant forall j :: 0 <= j < it ==> sizes[j] == Some(seen[j])
      invariant ScannedFirst(seen, sliceStart, |sizes|, subsetStart, frontOffset, concatSize)
      invariant ScannedLast(seen, sliceLimit, |sizes|, subsetEnd)
    {
      if sizes[it].None? {
        return None;
      }
      var dimSize := sizes[it].value;
      ScanFirst(seen, dimSize, sliceStart, |sizes|, subsetStart, frontOffset, concatSize);
      ScanLast(seen, dimSize, sliceLimit, |sizes|, subsetEnd);
      OffsetOfPrefix(seen, dimSize, |seen|);
      if runningSize + dimSize > sliceStart && subsetStart == |sizes| {
        subsetStart := it;
        frontOffset := runningSize;
      }
      if runningSize < sliceLimit {
        subsetEnd := it + 1;
      }
      runningSize := runningSize + dimSize;
      seen := seen + [dimSize];
      it := it + 1;
    }
    assert Known(sizes) == seen;
    return Some(Selection(subsetStart, subsetEnd, frontOffset));
  }

  lemma NeededUnique(sizes: seq<nat>, start: nat, limit: nat, first: nat, first': nat, last: nat, last': nat)
    requires IsFirstNeeded(sizes, start, first) && IsFirstNeeded(sizes, start, first')
    requires IsLastNeeded(sizes, limit, last) && IsLastNeeded(sizes, limit, last')
    ensures first == first' && last == last'
  {
    if first < first' {
      OffsetMonotone(sizes, first + 1, first');
    } else if first' < first {
      OffsetMonotone(sizes, first' + 1, first);
    }
    if last < last' {
      OffsetMonotone(sizes, last, last' - 1);
    } else if last' < last {
      OffsetMonotone(sizes, last', last - 1);
    }
  }

  function Shifted(bounds: seq<int>, axis: nat, front: int): seq<int>
    requires axis < |bounds|
  {
    bounds[axis := bounds[axis] - front]
  }

  /** The rewrite with the moved bounds; no match on a dynamic size, when all operands are needed or none is, and when
      several are needed of a concatenation that has other uses. */
  method SimplifyConcatSlice(sizes: seq<Option<nat>>, concatSize: int, axis: nat, starts: seq<nat>,
                             limits: seq<nat>, oneUse: bool)
    returns (outcome: Outcome)
    requires axis < |starts| == |limits|
    ensures !Static(sizes) ==> outcome.NoMatch?
    ensures Static(sizes) ==>
              forall first: nat, last: nat ::
                && IsFirstNeeded(Known(sizes), starts[axis], first)
                && IsLastNeeded(Known(sizes), limits[axis], last) ==>
                  if (first == 0 && last == |sizes|) || first == last || (first + 1 < last && !oneUse) then
                    outcome.NoMatch?
                  else
                    var front := if first < |sizes| then Offset(Known(sizes), first) else concatSize;
                    outcome == Rewrite(first, last, Shifted(starts, axis, front), Shifted(limits, axis, front))
  {
    var selection := SelectOperands(sizes, concatSize, starts[axis], limits[axis]);
    if selection.None? {
      return NoMatch;
    }
    var Selection(subsetStart, subsetEnd, frontOffset) := selection.value;
    forall first: nat, last: nat |
      && IsFirstNeeded(Known(sizes), starts[axis], first)
      && IsLastNeeded(Known(sizes), limits[axis], last)
      ensures first == subsetStart && last == subsetEnd
    {
      NeededUnique(Known(sizes), starts[axis], limits[axis], first, subsetStart, last, subsetEnd);
    }
    var subsetSize := subsetEnd - subsetStart;
    if subsetSize == |sizes| {
      return NoMatch;
    }
    if subsetSize == 0 {
      return NoMatch;
    }
    if subsetSize > 1 && !oneUse {
      return NoMatch;
    }
    return Rewrite(subsetStart, subsetEnd, Shifted(starts, axis, frontOffset), Shifted(limits, axis, frontOffset));
  }

  // ---------------------------------------------------------------- when the chosen range is one

  /** The chosen operands cover the slice. */
  lemma NeededCovers(sizes: seq<nat>, start: nat, limit: nat, first: nat, last: nat)
    requires IsFirstNeeded(sizes, start, first) && IsLastNeeded(sizes, limit, last)
    requires start <= limit <= Sum(sizes)
    ensures Offset(sizes, first) <= start
    ensures limit <= Offset(sizes, last)
    ensures start < limit ==> first < last
  {
    if start < limit && last <= first {
      OffsetMonotone(sizes, last, first);
    }
  }

  /** Whether an operand without elements along the axis stands at a position. */
  predicate EmptyOperandAt(sizes: seq<nat>, a: nat) {
    exists k :: 0 <= k < |sizes| && Offset(sizes, k) == a && sizes[k] == 0
  }

  /** The range runs backwards exactly for an empty slice placed at an operand of size zero. */
  lemma BackwardsExactly(sizes: seq<nat>, start: nat, limit: nat, first: nat, last: nat)
    requires IsFirstNeeded(sizes, start, first) && IsLastNeeded(sizes, limit, last)
    requires start <= limit <= Sum(sizes)
    ensures last < first <==> start == limit && 0 < start && EmptyOperandAt(sizes, start)
  {
    NeededCovers(sizes, start, limit, first, last);
    if last < first {
      OffsetMonotone(sizes, last + 1, first);
      assert Offset(sizes, last) == start && sizes[last] == 0;
    } else if start == limit && 0 < start && EmptyOperandAt(sizes, start) {
      var k :| 0 <= k < |sizes| && Offset(sizes, k) == start && sizes[k] == 0;
      EmptyOperandInBetween(sizes, start, k, first, last);
    }
  }

  /** An empty slice placed at an empty operand: the range begins at operand 2 and ends in front of operand 1. The
      pattern, which only compares the two ends, rewrites all the same. */
  lemma RangeCanBeReversed()
    ensures IsFirstNeeded([2, 0, 2], 2, 2) && IsLastNeeded([2, 0, 2], 2, 1)
    ensures Shifted([2], 0, Offset([2, 0, 2], 2)) == [0]
    ensures forall first: nat, last: nat ::
              IsFirstNeeded([2, 0, 2], 2, first) && IsLastNeeded([2, 0, 2], 2, last) ==> first == 2 && last == 1
  {
    var sizes: seq<nat> := [2, 0, 2];
    assert Offset(sizes, 1) == 2 && Offset(sizes, 2) == 2 && Offset(sizes, 3) == 4;
    forall first: nat, last: nat | IsFirstNeeded(sizes, 2, first) && IsLastNeeded(sizes, 2, last)
      ensures first == 2 && last == 1
    {
      NeededUnique(sizes, 2, 2, first, 2, last, 1);
    }
  }

  lemma EmptyOperandInBetween(sizes: seq<nat>, start: nat, k: nat, first: nat, last: nat)
    requires IsFirstNeeded(sizes, start, first) && IsLastNeeded(sizes, start, last)
    requires 0 < start && k < |sizes| && Offset(sizes, k) == start && sizes[k] == 0
    ensures last <= k < first
  {
    if k < last {
      OffsetMonotone(sizes, k, last - 1);
    }
    if first <= k {
      OffsetMonotone(sizes, first + 1, k + 1);
    }
  }

  // ---------------------------------------------------------------- meaning

  lemma {:induction false} OffsetOfRange(sizes: seq<nat>, first: nat, last: nat, j: nat)
    requires first <= last <= |sizes| && j <= last - first
    ensures Offset(sizes[first..last], j) == Offset(sizes, first + j) - Offset(sizes, first)
    decreases j
  {
    if j > 0 {
      OffsetOfRange(sizes, first, last, j - 1);
    }
  }

  lemma RangeSum(sizes: seq<nat>, first: nat, last: nat)
    requires first <= last <= |sizes|
    ensures Offset(sizes, last) == Offset(sizes, first) + Sum(sizes[first..last])
  {
    OffsetOfRange(sizes, first, last, last - first);
  }

  lemma LocateInRange(sizes: seq<nat>, first: nat, last: nat, a: nat)
    requires first <= last <= |sizes| && Offset(sizes, first) <= a < Offset(sizes, last)
    ensures a < Sum(sizes) && a - Offset(sizes, first) < Sum(sizes[first..last])
    ensures
      var k := Locate(sizes[first..last], a - Offset(sizes, first));
      && first + k < last && Locate(sizes, a) == first + k
      && Offset(sizes[first..last], k) == Offset(sizes, first + k) - Offset(sizes, first)
      && LocalCoordinate(sizes, a) == LocalCoordinate(sizes[first..last], a - Offset(sizes, first))
  {
    OffsetMonotone(sizes, last, |sizes|);
    OffsetOfRange(sizes, first, last, last - first);
    var k := Locate(sizes[first..last], a - Offset(sizes, first));
    OffsetOfRange(sizes, first, last, k);
    OffsetOfRange(sizes, first, last, k + 1);
    LocateUnique(sizes, a, first + k);
  }

  lemma SubConcat<T>(operands: seq<Tensor<T>>, axis: nat, first: nat, last: nat)
    requires Concatenable(operands, axis) && first < last <= |operands|
    ensures Concatenable(operands[first..last], axis)
    ensures AxisSizes(operands[first..last], axis) == AxisSizes(operands, axis)[first..last]
    ensures ConcatShape(operands[first..last], axis)
         == ConcatShape(operands, axis)[axis := Sum(AxisSizes(operands, axis)[first..last])]
  {
    var part := operands[first..last];
    forall j | 0 <= j < |part|
      ensures AgreesOffAxis(part[j], part[0].shape, axis)
    {
      assert part[j] == operands[first + j];
      assert AgreesOffAxis(operands[first], operands[0].shape, axis);
    }
    assert AxisSizes(part, axis) == AxisSizes(operands, axis)[first..last];
    SameOffAxis(operands[first], operands[0].shape, axis, Sum(AxisSizes(part, axis)));
  }

  lemma SameOffAxis<T>(t: Tensor<T>, shape: seq<nat>, axis: nat, n: nat)
    requires AgreesOffAxis(t, shape, axis)
    ensures t.shape[axis := n] == shape[axis := n]
  {
    var one, two := t.shape[axis := n], shape[axis := n];
    forall d | 0 <= d < |shape|
      ensures one[d] == two[d]
    {
      if d < axis {
        assert t.shape[..axis][d] == shape[..axis][d];
      } else if d > axis {
        assert t.shape[axis + 1..][d - axis - 1] == shape[axis + 1..][d - axis - 1];
      }
    }
  }

  lemma SameOperandIndex(sizes: seq<nat>, axis: nat, first: nat, last: nat, whole: seq<nat>, part: seq<nat>)
    requires first <= last <= |sizes| && axis < |whole|
    requires Offset(sizes, first) <= whole[axis] < Offset(sizes, last)
    requires part == whole[axis := whole[axis] - Offset(sizes, first)]
    ensures whole[axis] < Sum(sizes) && part[axis] < Sum(sizes[first..last])
    ensures Locate(sizes, whole[axis]) == first + Locate(sizes[first..last], part[axis])
    ensures OperandIndex(sizes, axis, whole) == OperandIndex(sizes[first..last], axis, part)
  {
    LocateInRange(sizes, first, last, whole[axis]);
    UpdateTwice(whole, axis, part[axis], LocalCoordinate(sizes, whole[axis]));
  }

  lemma ConcatAtOperand<T>(operands: seq<Tensor<T>>, axis: nat, index: seq<nat>, t: Tensor<T>, i: seq<nat>)
    requires Concatenable(operands, axis) && InBounds(ConcatShape(operands, axis), index)
    requires index[axis] < Sum(AxisSizes(operands, axis))
    requires t == operands[Locate(AxisSizes(operands, axis), index[axis])]
    requires i == OperandIndex(AxisSizes(operands, axis), axis, index)
    ensures t.Valid() && InBounds(t.shape, i) && ConcatAt(operands, axis, index) == ElementAt(t, i)
  {
    OperandIndexInBounds(operands, axis, index);
  }

  /** Both find an element in the same operand, at the same place. */
  lemma PlaceInSubConcat<T>(operands: seq<Tensor<T>>, axis: nat, first: nat, last: nat, whole: seq<nat>,
                            part: seq<nat>) returns (t: Tensor<T>, i: seq<nat>)
    requires Concatenable(operands, axis) && first < last <= |operands| && Concatenable(operands[first..last], axis)
    requires axis < |whole|
    requires Offset(AxisSizes(operands, axis), first) <= whole[axis] < Offset(AxisSizes(operands, axis), last)
    requires part == whole[axis := whole[axis] - Offset(AxisSizes(operands, axis), first)]
    ensures whole[axis] < Sum(AxisSizes(operands, axis)) && part[axis] < Sum(AxisSizes(operands[first..last], axis))
    ensures t == operands[Locate(AxisSizes(operands, axis), whole[axis])]
    ensures t == operands[first..last][Locate(AxisSizes(operands[first..last], axis), part[axis])]
    ensures i == OperandIndex(AxisSizes(operands, axis), axis, whole)
    ensures i == OperandIndex(AxisSizes(operands[first..last], axis), axis, part)
  {
    SubConcat(operands, axis, first, last);
    var sizes := AxisSizes(operands, axis);
    SameOperandIndex(sizes, axis, first, last, whole, part);
    SliceAt(operands, first, last, Locate(sizes[first..last], part[axis]), Locate(sizes, whole[axis]));
    t, i := operands[Locate(sizes, whole[axis])], OperandIndex(sizes, axis, whole);
  }

  lemma SliceAt<T>(s: seq<T>, first: nat, last: nat, k: nat, l: nat)
    requires first <= last <= |s| && k < last - first && l == first + k
    ensures s[first..last][k] == s[l]
  {
  }

  /** An element of the chosen range is the same element of the whole concatenation. */
  lemma ElementOfSubConcat<T>(operands: seq<Tensor<T>>, axis: nat, first: nat, last: nat, whole: seq<nat>,
                              part: seq<nat>)
    requires Concatenable(operands, axis) && first < last <= |operands|
    requires InBounds(ConcatShape(operands, axis), whole)
    requires Concatenable(operands[first..last], axis) && InBounds(ConcatShape(operands[first..last], axis), part)
    requires Offset(AxisSizes(operands, axis), first) <= whole[axis] < Offset(AxisSizes(operands, axis), last)
    requires part == whole[axis := whole[axis] - Offset(AxisSizes(operands, axis), first)]
    ensures ConcatAt(operands, axis, whole) == ConcatAt(operands[first..last], axis, part)
  {
    var t, i := PlaceInSubConcat(operands, axis, first, last, whole, part);
    ConcatAtOperand(operands, axis, whole, t, i);
    ConcatAtOperand(operands[first..last], axis, part, t, i);
  }

  function Moved(bounds: seq<nat>, axis: nat, front: nat): (m: seq<nat>)
    requires axis < |bounds| && front <= bounds[axis]
    ensures m == Shifted(bounds, axis, front)
  {
    bounds[axis := bounds[axis] - front]
  }

  lemma MovedSliceBounds(shape: seq<nat>, starts: seq<nat>, limits: seq<nat>, strides: seq<nat>, axis: nat,
                         front: nat, n: nat)
    requires SliceBounds(shape, starts, limits, strides) && axis < |shape|
    requires front <= starts[axis] && limits[axis] <= front + n
    ensures SliceBounds(shape[axis := n], Moved(starts, axis, front), Moved(limits, axis, front), strides)
    ensures SliceShape(Moved(starts, axis, front), Moved(limits, axis, front), strides)
         == SliceShape(starts, limits, strides)
  {
  }

  lemma MovedBounds<T>(operands: seq<Tensor<T>>, axis: nat, starts: seq<nat>, limits: seq<nat>, strides: seq<nat>,
                       first: nat, last: nat)
    requires Concatenable(operands, axis) && first < last <= |operands|
    requires SliceBounds(ConcatShape(operands, axis), starts, limits, strides)
    requires Offset(AxisSizes(operands, axis), first) <= starts[axis]
    requires limits[axis] <= Offset(AxisSizes(operands, axis), last)
    ensures Concatenable(operands[first..last], axis)
    ensures
      var front := Offset(AxisSizes(operands, axis), first);
      && SliceBounds(ConcatShape(operands[first..last], axis), Moved(starts, axis, front), Moved(limits, axis, front),
                     strides)
      && SliceShape(Moved(starts, axis, front), Moved(limits, axis, front), strides)
         == SliceShape(starts, limits, strides)
  {
    var sizes := AxisSizes(operands, axis);
    SubConcat(operands, axis, first, last);
    RangeSum(sizes, first, last);
    MovedSliceBounds(ConcatShape(operands, axis), starts, limits, strides, axis, Offset(sizes, first),
                     Sum(sizes[first..last]));
  }

  lemma MovedSource(shape: seq<nat>, starts: seq<nat>, limits: seq<nat>, strides: seq<nat>, index: seq<nat>,
                    axis: nat, front: nat)
    requires SliceBounds(shape, starts, limits, strides) && InBounds(SliceShape(starts, limits, strides), index)
    requires axis < |shape| && front <= starts[axis]
    ensures starts[axis] <= SliceSource(starts, strides, index)[axis] < limits[axis]
    ensures SliceSource(Moved(starts, axis, front), strides, index)
         == SliceSource(starts, strides, index)[axis := SliceSource(starts, strides, index)[axis] - front]
  {
    SliceSourceInBounds(shape, starts, limits, strides, index);
    CoordinateIsProduct(starts[axis], strides[axis], index[axis]);
    CoordinateIsProduct(starts[axis] - front, strides[axis], index[axis]);
  }

  /** An element of a slice of a concatenation. */
  lemma SlicedConcatAt<T>(operands: seq<Tensor<T>>, axis: nat, starts: seq<nat>, limits: seq<nat>, strides: seq<nat>,
                          f: nat)
    requires Concatenable(operands, axis) && SliceBounds(ConcatShape(operands, axis), starts, limits, strides)
    requires f < Size(SliceShape(starts, limits, strides))
    ensures InBounds(SliceShape(starts, limits, strides), Unlinear(SliceShape(starts, limits, strides), f))
    ensures
      var source := SliceSource(starts, strides, Unlinear(SliceShape(starts, limits, strides), f));
      && InBounds(ConcatShape(operands, axis), source)
      && Sliced(Concatenated(operands, axis).data, ConcatShape(operands, axis), starts, limits, strides)[f]
         == ConcatAt(operands, axis, source)
  {
    var result := SliceShape(starts, limits, strides);
    LinearOfUnlinear(result, f);
    SlicedAt(Concatenated(operands, axis).data, ConcatShape(operands, axis), starts, limits, strides,
             Unlinear(result, f));
    ConcatenatedAt(operands, axis, SliceSource(starts, strides, Unlinear(result, f)));
  }

  /** Slicing the chosen range with the moved bounds gives the slice of the whole concatenation. */
  lemma RewriteKeepsMeaning<T>(operands: seq<Tensor<T>>, axis: nat, starts: seq<nat>, limits: seq<nat>,
                               strides: seq<nat>, first: nat, last: nat)
    requires Concatenable(operands, axis)
    requires SliceBounds(ConcatShape(operands, axis), starts, limits, strides)
    requires IsFirstNeeded(AxisSizes(operands, axis), starts[axis], first)
    requires IsLastNeeded(AxisSizes(operands, axis), limits[axis], last)
    requires first < last
    ensures Concatenable(operands[first..last], axis)
    ensures Offset(AxisSizes(operands, axis), first) <= starts[axis]
    ensures
      var front := Offset(AxisSizes(operands, axis), first);
      var part := operands[first..last];
      && SliceBounds(ConcatShape(part, axis), Moved(starts, axis, front), Moved(limits, axis, front), strides)
      && Sliced(Concatenated(part, axis).data, ConcatShape(part, axis), Moved(starts, axis, front),
                Moved(limits, axis, front), strides)
         == Sliced(Concatenated(operands, axis).data, ConcatShape(operands, axis), starts, limits, strides)
  {
    NeededCovers(AxisSizes(operands, axis), starts[axis], limits[axis], first, last);
    MovedBounds(operands, axis, starts, limits, strides, first, last);
    var front := Offset(AxisSizes(operands, axis), first);
    var part := operands[first..last];
    var result := SliceShape(starts, limits, strides);
    forall f | 0 <= f < Size(result)
      ensures Sliced(Concatenated(part, axis).data, ConcatShape(part, axis), Moved(starts, axis, front),
                     Moved(limits, axis, front), strides)[f]
           == Sliced(Concatenated(operands, axis).data, ConcatShape(operands, axis), starts, limits, strides)[f]
    {
      ElementKept(operands, axis, starts, limits, strides, first, last, f);
    }
  }

  lemma ElementKept<T>(operands: seq<Tensor<T>>, axis: nat, starts: seq<nat>, limits: seq<nat>, strides: seq<nat>,
                       first: nat, last: nat, f: nat)
    requires Concatenable(operands, axis) && first < last <= |operands|
    requires SliceBounds(ConcatShape(operands, axis), starts, limits, strides)
    requires Offset(AxisSizes(operands, axis), first) <= starts[axis]
    requires limits[axis] <= Offset(AxisSizes(operands, axis), last)
    requires Concatenable(operands[first..last], axis)
    requires
      var front := Offset(AxisSizes(operands, axis), first);
      && SliceBounds(ConcatShape(operands[first..last], axis), Moved(starts, axis, front), Moved(limits, axis, front),
                     strides)
      && SliceShape(Moved(starts, axis, front), Moved(limits, axis, front), strides)
         == SliceShape(starts, limits, strides)
    requires f < Size(SliceShape(starts, limits, strides))
    ensures
      var front := Offset(AxisSizes(operands, axis), first);
      var part := operands[first..last];
      Sliced(Concatenated(part, axis).data, ConcatShape(part, axis), Moved(starts, axis, front),
             Moved(limits, axis, front), strides)[f]
      == Sliced(Concatenated(operands, axis).data, ConcatShape(operands, axis), starts, limits, strides)[f]
  {
    var front := Offset(AxisSizes(operands, axis), first);
    var part := operands[first..last];
    var result := SliceShape(starts, limits, strides);
    var index := Unlinear(result, f);
    SlicedConcatAt(operands, axis, starts, limits, strides, f);
    SlicedConcatAt(part, axis, Moved(starts, axis, front), Moved(limits, axis, front), strides, f);
    MovedSource(ConcatShape(operands, axis), starts, limits, strides, index, axis, front);
    ElementOfSubConcat(operands, axis, first, last, SliceSource(starts, strides, index),
                       SliceSource(Moved(starts, axis, front), strides, index));
  }
}

/** Folding of `concatenate`: copying one stretch of every operand per outer row. */
module ConcatFold {
  import opened IndexArithmetic
  import opened Options
  import opened RowMajor
  import opened Sequences

  datatype Tensor<T> = Tensor(shape: seq<nat>, data: seq<T>) {
    predicate Valid() { |data| == Size(shape) }
  }

  predicate AgreesOffAxis<T>(t: Tensor<T>, shape: seq<nat>, axis: nat) {
    && t.Valid() && |t.shape| == |shape| && axis < |shape|
    && t.shape[..axis] == shape[..axis] && t.shape[axis + 1..] == shape[axis + 1..]
  }

  /** Well-formed operands that agree in every dimension but the axis. */
  predicate Concatenable<T>(operands: seq<Tensor<T>>, axis: nat) {
    && operands != [] && axis < |operands[0].shape|
    && forall j :: 0 <= j < |operands| ==> AgreesOffAxis(operands[j], operands[0].shape, axis)
  }

  function AxisSizes<T>(operands: seq<Tensor<T>>, axis: nat): (sizes: seq<nat>)
    requires Concatenable(operands, axis)
    ensures |sizes| == |operands|
  {
    seq(|operands|, j requires 0 <= j < |operands| => operands[j].shape[axis])
  }

  /** Where operand `j` begins along the axis. */
  function Offset(sizes: seq<nat>, j: nat): nat
    requires j <= |sizes|
  {
    if j == 0 then 0 else Offset(sizes, j - 1) + sizes[j - 1]
  }

  function Sum(sizes: seq<nat>): nat {
    Offset(sizes, |sizes|)
  }

  lemma {:induction false} OffsetMonotone(sizes: seq<nat>, i: nat, j: nat)
    requires i <= j <= |sizes|
    ensures Offset(sizes, i) <= Offset(sizes, j)
    decreases j
  {
    if i < j {
      OffsetMonotone(sizes, i, j - 1);
    }
  }

  /** The operand, among the first `n`, that holds coordinate `a` of the axis. */
  function LocateIn(sizes: seq<nat>, a: nat, n: nat): (k: nat)
    requires n <= |sizes| && a < Offset(sizes, n)
    ensures k < n && Offset(sizes, k) <= a < Offset(sizes, k + 1)
  {
    if Offset(sizes, n - 1) <= a then n - 1 else LocateIn(sizes, a, n - 1)
  }

  function Locate(sizes: seq<nat>, a: nat): (k: nat)
    requires a < Sum(sizes)
    ensures k < |sizes| && Offset(sizes, k) <= a < Offset(sizes, k + 1)
  {
    LocateIn(sizes, a, |sizes|)
  }

  lemma LocateUnique(sizes: seq<nat>, a: nat, k: nat)
    requires a < Sum(sizes) && k < |sizes| && Offset(sizes, k) <= a < Offset(sizes, k + 1)
    ensures Locate(sizes, a) == k
  {
    var l := Locate(sizes, a);
    if l < k {
      OffsetMonotone(sizes, l + 1, k);
    } else if k < l {
      OffsetMonotone(sizes, k + 1, l);
    }
  }

  function ConcatShape<T>(operands: seq<Tensor<T>>, axis: nat): seq<nat>
    requires Concatenable(operands, axis)
  {
    operands[0].shape[axis := Sum(AxisSizes(operands, axis))]
  }

  /** The coordinate inside its operand of coordinate `a` of the axis. */
  function LocalCoordinate(sizes: seq<nat>, a: nat): nat
    requires a < Sum(sizes)
  {
    a - Offset(sizes, Locate(sizes, a))
  }

  /** The multi-index inside its operand of an index of the result. */
  function OperandIndex(sizes: seq<nat>, axis: nat, index: seq<nat>): (i: seq<nat>)
    requires axis < |index| && index[axis] < Sum(sizes)
  {
    index[axis := LocalCoordinate(sizes, index[axis])]
  }

  lemma OperandIndexInBounds<T>(operands: seq<Tensor<T>>, axis: nat, index: seq<nat>)
    requires Concatenable(operands, axis) && InBounds(ConcatShape(operands, axis), index)
    ensures index[axis] < Sum(AxisSizes(operands, axis))
    ensures
      var sizes := AxisSizes(operands, axis);
      InBounds(operands[Locate(sizes, index[axis])].shape, OperandIndex(sizes, axis, index))
  {
    var sizes := AxisSizes(operands, axis);
    assert index[axis] < ConcatShape(operands, axis)[axis];
    var k := Locate(sizes, index[axis]);
    var shape, i := operands[k].shape, OperandIndex(sizes, axis, index);
    forall d | 0 <= d < |shape|
      ensures i[d] < shape[d]
    {
      if d < axis {
        assert shape[..axis][d] == operands[0].shape[..axis][d];
      } else if d > axis {
        assert shape[axis + 1..][d - axis - 1] == operands[0].shape[axis + 1..][d - axis - 1];
      }
      assert index[d] < ConcatShape(operands, axis)[d];
    }
  }

  function ElementAt<T>(t: Tensor<T>, index: seq<nat>): T
    requires t.Valid() && InBounds(t.shape, index)
  {
    LinearInSize(t.shape, index);
    t.data[Linear(t.shape, index)]
  }

  /** The concatenation by its multi-index definition. */
  function ConcatAt<T>(operands: seq<Tensor<T>>, axis: nat, index: seq<nat>): T
    requires Concatenable(operands, axis) && InBounds(ConcatShape(operands, axis), index)
  {
    OperandIndexInBounds(operands, axis, index);
    var sizes := AxisSizes(operands, axis);
    ElementAt(operands[Locate(sizes, index[axis])], OperandIndex(sizes, axis, index))
  }

  function Concatenated<T>(operands: seq<Tensor<T>>, axis: nat): (r: Tensor<T>)
    requires Concatenable(operands, axis)
    ensures r.Valid() && r.shape == ConcatShape(operands, axis)
  {
    var shape := ConcatShape(operands, axis);
    Tensor(shape, seq(Size(shape), f requires 0 <= f < Size(shape) =>
      LinearOfUnlinear(shape, f); ConcatAt(operands, axis, Unlinear(shape, f))))
  }

  lemma ConcatenatedAt<T>(operands: seq<Tensor<T>>, axis: nat, index: seq<nat>)
    requires Concatenable(operands, axis) && InBounds(ConcatShape(operands, axis), index)
    ensures Linear(ConcatShape(operands, axis), index) < |Concatenated(operands, axis).data|
    ensures Concatenated(operands, axis).data[Linear(ConcatShape(operands, axis), index)]
         == ConcatAt(operands, axis, index)
  {
    UnlinearOfLinear(ConcatShape(operands, axis), index);
  }

  // ---------------------------------------------------------------- flat stretches

  /** How many rows there are, how long a row is along the axis, and how many elements a coordinate has. */
  function Outer<T>(operands: seq<Tensor<T>>, axis: nat): nat
    requires Concatenable(operands, axis)
  {
    Size(operands[0].shape[..axis])
  }

  function Width<T>(operands: seq<Tensor<T>>, axis: nat): nat
    requires Concatenable(operands, axis)
  {
    Sum(AxisSizes(operands, axis))
  }

  function Inner<T>(operands: seq<Tensor<T>>, axis: nat): nat
    requires Concatenable(operands, axis)
  {
    Size(operands[0].shape[axis + 1..])
  }

  /** Where operand `j` begins in a row. */
  function Begin<T>(operands: seq<Tensor<T>>, axis: nat, j: nat): nat
    requires Concatenable(operands, axis) && j <= |operands|
  {
    Offset(AxisSizes(operands, axis), j)
  }

  lemma AroundInBounds(shape: seq<nat>, axis: nat, before: seq<nat>, a: nat, behind: seq<nat>)
    requires axis < |shape| && a < shape[axis]
    requires InBounds(shape[..axis], before) && InBounds(shape[axis + 1..], behind)
    ensures InBounds(shape, before + [a] + behind) && (before + [a] + behind)[axis] == a
  {
    var index := before + [a] + behind;
    forall d | 0 <= d < |shape|
      ensures index[d] < shape[d]
    {
      if d < axis {
        assert index[d] == before[d] < shape[..axis][d];
      } else if d > axis {
        assert index[d] == behind[d - axis - 1] < shape[axis + 1..][d - axis - 1];
      }
    }
  }

  /** A multi-index given by the flat positions before and behind the axis and the coordinate on it. */
  function Assembled(shape: seq<nat>, axis: nat, i: nat, a: nat, g: nat): (index: seq<nat>)
    requires axis < |shape| && i < Size(shape[..axis]) && a < shape[axis] && g < Size(shape[axis + 1..])
    ensures InBounds(shape, index) && index[axis] == a
  {
    LinearOfUnlinear(shape[..axis], i);
    LinearOfUnlinear(shape[axis + 1..], g);
    AroundInBounds(shape, axis, Unlinear(shape[..axis], i), a, Unlinear(shape[axis + 1..], g));
    Unlinear(shape[..axis], i) + [a] + Unlinear(shape[axis + 1..], g)
  }

  /** Shapes that differ in the axis only assemble the same index but for the axis. */
  lemma AssembledUpdate(shape: seq<nat>, inner: seq<nat>, axis: nat, i: nat, at: nat, a: nat, g: nat)
    requires axis < |shape| == |inner| && shape[..axis] == inner[..axis] && shape[axis + 1..] == inner[axis + 1..]
    requires i < Size(shape[..axis]) && at < shape[axis] && a < inner[axis] && g < Size(shape[axis + 1..])
    ensures Assembled(inner, axis, i, a, g) == Assembled(shape, axis, i, at, g)[axis := a]
  {
  }

  /** The flat position in row `i`, of `n` times `s` elements, of element `g` at coordinate `a`. */
  function FlatOf(i: nat, n: nat, s: nat, a: nat, g: nat): nat {
    FlatAt(i, Times(n, s), a, s, g)
  }

  /** The flat position in the result, and in operand `j`, of element `g` at a coordinate of row `i`. */
  function PlaceInResult<T>(operands: seq<Tensor<T>>, axis: nat, i: nat, at: nat, g: nat): nat
    requires Concatenable(operands, axis)
  {
    FlatOf(i, Width(operands, axis), Inner(operands, axis), at, g)
  }

  function PlaceInOperand<T>(operands: seq<Tensor<T>>, axis: nat, i: nat, j: nat, a: nat, g: nat): nat
    requires Concatenable(operands, axis) && j < |operands|
  {
    FlatOf(i, operands[j].shape[axis], Inner(operands, axis), a, g)
  }

  lemma AssembledFlat(shape: seq<nat>, axis: nat, i: nat, a: nat, g: nat)
    requires axis < |shape| && i < Size(shape[..axis]) && a < shape[axis] && g < Size(shape[axis + 1..])
    ensures Linear(shape, Assembled(shape, axis, i, a, g)) == FlatOf(i, shape[axis], Size(shape[axis + 1..]), a, g)
  {
    var index := Assembled(shape, axis, i, a, g);
    LinearOfUnlinear(shape[..axis], i);
    LinearOfUnlinear(shape[axis + 1..], g);
    LinearAround(shape, axis, index);
    assert index[..axis] == Unlinear(shape[..axis], i) && index[axis + 1..] == Unlinear(shape[axis + 1..], g);
  }

  lemma ConcatShapeSlices<T>(operands: seq<Tensor<T>>, axis: nat)
    requires Concatenable(operands, axis)
    ensures ConcatShape(operands, axis)[..axis] == operands[0].shape[..axis]
    ensures ConcatShape(operands, axis)[axis + 1..] == operands[0].shape[axis + 1..]
    ensures ConcatShape(operands, axis)[axis] == Width(operands, axis)
  {
  }

  lemma OffsetInSum(sizes: seq<nat>, j: nat, a: nat, at: nat)
    requires j < |sizes| && a < sizes[j] && at == Offset(sizes, j) + a
    ensures at < Sum(sizes) && Locate(sizes, at) == j && LocalCoordinate(sizes, at) == a
  {
    OffsetMonotone(sizes, j + 1, |sizes|);
    LocateUnique(sizes, at, j);
  }

  lemma IndexInOperand(sizes: seq<nat>, axis: nat, j: nat, a: nat, whole: seq<nat>)
    requires j < |sizes| && a < sizes[j] && axis < |whole| && whole[axis] == Offset(sizes, j) + a
    ensures whole[axis] < Sum(sizes) && Locate(sizes, whole[axis]) == j
    ensures OperandIndex(sizes, axis, whole) == whole[axis := a]
  {
    OffsetInSum(sizes, j, a, whole[axis]);
  }

  /** Where operand `j` holds the elements of the result at coordinate `Offset + a`. */
  lemma ElementOfOperand<T>(operands: seq<Tensor<T>>, axis: nat, j: nat, a: nat, whole: seq<nat>, part: seq<nat>,
                            f: nat, e: nat)
    requires Concatenable(operands, axis) && j < |operands| && a < operands[j].shape[axis]
    requires InBounds(ConcatShape(operands, axis), whole) && InBounds(operands[j].shape, part)
    requires whole[axis] == Begin(operands, axis, j) + a && part == whole[axis := a]
    requires f == Linear(ConcatShape(operands, axis), whole) && e == Linear(operands[j].shape, part)
    ensures f < |Concatenated(operands, axis).data| && e < |operands[j].data|
    ensures Concatenated(operands, axis).data[f] == operands[j].data[e]
  {
    ConcatenatedAt(operands, axis, whole);
    IndexInOperand(AxisSizes(operands, axis), axis, j, a, whole);
    LinearInSize(operands[j].shape, part);
  }

  /** Multi-indices of the result and of operand `j` that differ in the axis only, and their flat positions. */
  lemma MatchingPositions<T>(operands: seq<Tensor<T>>, axis: nat, i: nat, j: nat, a: nat, at: nat, g: nat)
    returns (whole: seq<nat>, part: seq<nat>)
    requires Concatenable(operands, axis) && j < |operands| && a < operands[j].shape[axis]
    requires at == Begin(operands, axis, j) + a
    requires i < Outer(operands, axis) && g < Inner(operands, axis)
    ensures InBounds(ConcatShape(operands, axis), whole) && InBounds(operands[j].shape, part)
    ensures whole[axis] == at && part == whole[axis := a]
    ensures Linear(ConcatShape(operands, axis), whole) == PlaceInResult(operands, axis, i, at, g)
    ensures Linear(operands[j].shape, part) == PlaceInOperand(operands, axis, i, j, a, g)
  {
    ConcatShapeSlices(operands, axis);
    OffsetInSum(AxisSizes(operands, axis), j, a, at);
    whole := Assembled(ConcatShape(operands, axis), axis, i, at, g);
    part := Assembled(operands[j].shape, axis, i, a, g);
    AssembledUpdate(ConcatShape(operands, axis), operands[j].shape, axis, i, at, a, g);
    AssembledFlat(ConcatShape(operands, axis), axis, i, at, g);
    AssembledFlat(operands[j].shape, axis, i, a, g);
  }

  // ---------------------------------------------------------------- the copying loops

  lemma StretchDigits(h: nat, n: nat, s: nat) returns (a: nat, g: nat)
    requires h < Times(n, s)
    ensures a < n && g < s && h == Times(a, s) + g
  {
    TimesQuotient(h, n, s);
    a, g := h / s, h % s;
  }

  lemma FlatOfStretch(i: nat, n: nat, s: nat, o: nat, a: nat, at: nat, g: nat, p: nat)
    requires at == o + a && p == FlatOf(i, n, s, o, 0) + (Times(a, s) + g)
    ensures FlatOf(i, n, s, at, g) == p
  {
    TimesAdd(o, a, s);
  }

  /** Coordinate and element that position `h` of a stretch has. */
  lemma StretchPlaces<T>(operands: seq<Tensor<T>>, axis: nat, i: nat, j: nat, h: nat, p: nat, q: nat)
    returns (a: nat, at: nat, g: nat)
    requires Concatenable(operands, axis) && j < |operands|
    requires h < Times(operands[j].shape[axis], Inner(operands, axis))
    requires p == PlaceInResult(operands, axis, i, Begin(operands, axis, j), 0) + h
    requires q == PlaceInOperand(operands, axis, i, j, 0, 0) + h
    ensures a < operands[j].shape[axis] && g < Inner(operands, axis) && at == Begin(operands, axis, j) + a
    ensures p == PlaceInResult(operands, axis, i, at, g) && q == PlaceInOperand(operands, axis, i, j, a, g)
  {
    var s := Inner(operands, axis);
    a, g := StretchDigits(h, operands[j].shape[axis], s);
    at := Begin(operands, axis, j) + a;
    FlatOfStretch(i, Width(operands, axis), s, Begin(operands, axis, j), a, at, g, p);
    FlatOfStretch(i, operands[j].shape[axis], s, 0, a, a, g, q);
  }

  /** The element count of an operand, divided by the rows, is the length of its stretch. */
  lemma StretchLength<T>(operands: seq<Tensor<T>>, axis: nat, j: nat)
    requires Concatenable(operands, axis) && j < |operands|
    ensures |operands[j].data|
         == Times(Outer(operands, axis), Times(operands[j].shape[axis], Inner(operands, axis)))
  {
    var shape := operands[j].shape;
    SizeSplit(shape, axis);
    DropOne(shape, axis);
  }

  /** Element `h` of the stretch of operand `j` in row `i`: position `p` of the result, `q` of the operand. */
  lemma StretchAt<T>(operands: seq<Tensor<T>>, axis: nat, i: nat, j: nat, h: nat, p: nat, q: nat, result: seq<T>)
    requires Concatenable(operands, axis) && j < |operands| && i < Outer(operands, axis)
    requires h < Times(operands[j].shape[axis], Inner(operands, axis))
    requires p == PlaceInResult(operands, axis, i, Begin(operands, axis, j), 0) + h
    requires q == PlaceInOperand(operands, axis, i, j, 0, 0) + h
    requires result == Concatenated(operands, axis).data
    ensures p < |result| && q < |operands[j].data| && result[p] == operands[j].data[q]
  {
    var a, at, g := StretchPlaces(operands, axis, i, j, h, p, q);
    var whole, part := MatchingPositions(operands, axis, i, j, a, at, g);
    ElementOfOperand(operands, axis, j, a, whole, part, p, q);
  }

  lemma StretchFits<T>(operands: seq<Tensor<T>>, axis: nat, i: nat, j: nat)
    requires Concatenable(operands, axis) && j < |operands| && i < Outer(operands, axis)
    ensures
      var b := Times(operands[j].shape[axis], Inner(operands, axis));
      && PlaceInOperand(operands, axis, i, j, 0, 0) + b <= |operands[j].data|
      && PlaceInResult(operands, axis, i, Begin(operands, axis, j), 0) + b
         == PlaceInResult(operands, axis, i, Begin(operands, axis, j + 1), 0) <= |Concatenated(operands, axis).data|
  {
    var s, n := Inner(operands, axis), operands[j].shape[axis];
    StretchLength(operands, axis, j);
    WholeResult(operands, axis);
    OffsetMonotone(AxisSizes(operands, axis), j + 1, |operands|);
    StretchInRows(i, Outer(operands, axis), Width(operands, axis), s, Begin(operands, axis, j), n);
    StretchInRows(i, Outer(operands, axis), n, s, 0, n);
  }

  /** A stretch of `n` coordinates from `o` on ends inside its row, and so inside all rows. */
  lemma StretchInRows(i: nat, top: nat, sum: nat, s: nat, o: nat, n: nat)
    requires i < top && o + n <= sum
    ensures FlatOf(i, sum, s, o, 0) + Times(n, s) == FlatOf(i, sum, s, o + n, 0) <= FlatOf(top, sum, s, 0, 0)
  {
    TimesAdd(o, n, s);
    TimesAdd(o + n, sum - (o + n), s);
    TimesFit(i, top, Times(sum, s));
  }

  lemma StretchInResult<T>(operands: seq<Tensor<T>>, axis: nat, i: nat, j: nat, f: nat, e: nat, stretch: seq<T>,
                           h: nat, result: seq<T>)
    requires Concatenable(operands, axis) && j < |operands| && i < Outer(operands, axis)
    requires f == PlaceInResult(operands, axis, i, Begin(operands, axis, j), 0)
    requires e == PlaceInOperand(operands, axis, i, j, 0, 0) && e + |stretch| <= |operands[j].data|
    requires stretch == operands[j].data[e..e + |stretch|]
    requires h < |stretch| == Times(operands[j].shape[axis], Inner(operands, axis))
    requires result == Concatenated(operands, axis).data
    ensures f + h < |result| && stretch[h] == result[f + h]
  {
    StretchAt(operands, axis, i, j, h, f + h, e + h, result);
  }

  /** The stretch of operand `j` in row `i` stands in the result from `f` on. */
  lemma StretchStands<T>(operands: seq<Tensor<T>>, axis: nat, i: nat, j: nat, f: nat, e: nat, stretch: seq<T>,
                         result: seq<T>)
    requires Concatenable(operands, axis) && j < |operands| && i < Outer(operands, axis)
    requires f == PlaceInResult(operands, axis, i, Begin(operands, axis, j), 0)
    requires e == PlaceInOperand(operands, axis, i, j, 0, 0) && e + |stretch| <= |operands[j].data|
    requires stretch == operands[j].data[e..e + |stretch|]
    requires |stretch| == Times(operands[j].shape[axis], Inner(operands, axis))
    requires result == Concatenated(operands, axis).data && f + |stretch| <= |result|
    ensures forall h :: 0 <= h < |stretch| ==> stretch[h] == result[f + h]
  {
    forall h | 0 <= h < |stretch|
      ensures stretch[h] == result[f + h]
    {
      StretchInResult(operands, axis, i, j, f, e, stretch, h, result);
    }
  }

  /** Appending the stretch of operand `j` keeps the values a prefix of the concatenation. */
  lemma StretchExtends<T>(operands: seq<Tensor<T>>, axis: nat, i: nat, j: nat, values: seq<T>, stretch: seq<T>,
                          result: seq<T>)
    requires Concatenable(operands, axis) && j < |operands| && i < Outer(operands, axis)
    requires |values| == PlaceInResult(operands, axis, i, Begin(operands, axis, j), 0)
    requires result == Concatenated(operands, axis).data && values <= result
    requires |stretch| == Times(operands[j].shape[axis], Inner(operands, axis))
    requires
      var e := PlaceInOperand(operands, axis, i, j, 0, 0);
      e + |stretch| <= |operands[j].data| && stretch == operands[j].data[e..e + |stretch|]
    ensures |values| + |stretch| == PlaceInResult(operands, axis, i, Begin(operands, axis, j + 1), 0)
    ensures values + stretch <= result
  {
    StretchFits(operands, axis, i, j);
    StretchStands(operands, axis, i, j, |values|, PlaceInOperand(operands, axis, i, j, 0, 0), stretch, result);
    RowExtends(result, values, stretch);
  }

  lemma NextRow(i: nat, n: nat, s: nat)
    ensures FlatOf(i, n, s, n, 0) == FlatOf(i + 1, n, s, 0, 0)
  {
  }

  lemma WholeResult<T>(operands: seq<Tensor<T>>, axis: nat)
    requires Concatenable(operands, axis)
    ensures |Concatenated(operands, axis).data|
         == PlaceInResult(operands, axis, Outer(operands, axis), 0, 0)
  {
    var shape := ConcatShape(operands, axis);
    SizeSplit(shape, axis);
    assert shape[..axis] == operands[0].shape[..axis];
    DropOne(shape, axis);
    assert shape[axis + 1..] == operands[0].shape[axis + 1..];
  }

  /** The product of the dimensions in front of the axis. */
  method TopSize(shape: seq<nat>, axis: nat) returns (topSize: nat)
    requires axis <= |shape|
    ensures topSize == Size(shape[..axis])
  {
    topSize := 1;
    assert shape[..0] == [];
    for i := 0 to axis
      invariant topSize == Size(shape[..i])
    {
      SizeSplit(shape[..i + 1], i);
      assert shape[..i + 1][..i] == shape[..i] && shape[..i + 1][i..] == [shape[i]];
      assert [shape[i]][1..] == [] && Size([shape[i]]) == Times(shape[i], 1);
      TimesIsProduct(shape[i], 1);
      TimesIsProduct(topSize, shape[i]);
      topSize := topSize * shape[i];
    }
  }

  /** The flat values: for every row, the stretch of each operand in turn. */
  method FoldConcatenate<T>(operands: seq<Tensor<T>>, axis: nat, shape: seq<nat>) returns (folded: Option<seq<T>>)
    requires Concatenable(operands, axis) && shape == ConcatShape(operands, axis)
    ensures folded.None? <==> Size(shape) > FOLD_OP_ELT_LIMIT
    ensures folded.Some? ==> folded.value == Concatenated(operands, axis).data
  {
    var topSize := TopSize(shape, axis);
    if Size(shape) > FOLD_OP_ELT_LIMIT {
      return None;
    }
    assert shape[..axis] == operands[0].shape[..axis];
    var values: seq<T> := [];
    for i := 0 to topSize
      invariant |values| == PlaceInResult(operands, axis, i, 0, 0) && values <= Concatenated(operands, axis).data
    {
      values := AppendRow(operands, axis, topSize, i, values, Concatenated(operands, axis).data);
      NextRow(i, Width(operands, axis), Inner(operands, axis));
    }
    WholeResult(operands, axis);
    return Some(values);
  }

  method AppendRow<T>(operands: seq<Tensor<T>>, axis: nat, topSize: nat, i: nat, before: seq<T>, ghost result: seq<T>)
    returns (values: seq<T>)
    requires Concatenable(operands, axis) && topSize == Outer(operands, axis) && i < topSize
    requires |before| == PlaceInResult(operands, axis, i, 0, 0)
    requires result == Concatenated(operands, axis).data && before <= result
    ensures |values| == PlaceInResult(operands, axis, i, Width(operands, axis), 0) && values <= result
  {
    values := before;
    for j := 0 to |operands|
      invariant |values| == PlaceInResult(operands, axis, i, Begin(operands, axis, j), 0) && values <= result
    {
      StretchBounds(operands, axis, i, j);
      StretchFits(operands, axis, i, j);
      var bottomSize := |operands[j].data| / topSize;
      var begin := i * bottomSize;
      StretchExtends(operands, axis, i, j, values, operands[j].data[begin..begin + bottomSize], result);
      values := values + operands[j].data[begin..begin + bottomSize];
    }
  }

  lemma StretchBounds<T>(operands: seq<Tensor<T>>, axis: nat, i: nat, j: nat)
    requires Concatenable(operands, axis) && j < |operands| && i < Outer(operands, axis)
    ensures
      var bottomSize := |operands[j].data| / Outer(operands, axis);
      && bottomSize == Times(operands[j].shape[axis], Inner(operands, axis))
      && i * bottomSize == PlaceInOperand(operands, axis, i, j, 0, 0)
  {
    var b := Times(operands[j].shape[axis], Inner(operands, axis));
    StretchLength(operands, axis, j);
    var top := Outer(operands, axis);
    TimesIsProduct(top, b);
    TimesIsProduct(i, b);
    DivMod(|operands[j].data|, top, b, 0);
  }
}

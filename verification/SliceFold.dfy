/** Folding of `slice` by a recursion that appends one row after the other. */
module SliceFold {
  import opened IndexArithmetic
  import opened Options
  import opened RowMajor
  import opened Sequences

  /** The bounds of a slice as the operation's verifier demands them. */
  predicate SliceBounds(shape: seq<nat>, starts: seq<nat>, limits: seq<nat>, strides: seq<nat>) {
    && |starts| == |limits| == |strides| == |shape|
    && forall i :: 0 <= i < |shape| ==> starts[i] <= limits[i] <= shape[i] && strides[i] > 0
  }

  /** The number of selected coordinates in one dimension. */
  function Steps(start: nat, limit: nat, stride: nat): nat
    requires start <= limit && stride > 0
  {
    (limit - start + stride - 1) / stride
  }

  lemma StepsExact(start: nat, limit: nat, stride: nat, k: nat)
    requires start <= limit && stride > 0
    ensures start + k * stride < limit <==> k < Steps(start, limit, stride)
  {
    var n := Steps(start, limit, stride);
    var rest := (limit - start + stride - 1) % stride;
    assert limit - start + stride - 1 == stride * n + rest;
    if k < n {
      MulMonotone(stride, k + 1, n);
      MulDistributes(stride, k, 1);
    } else {
      MulMonotone(stride, n, k);
    }
  }

  /** The coordinate after `k` steps. */
  function Coordinate(start: nat, stride: nat, k: nat): (c: nat)
    ensures start <= c
  {
    if k == 0 then start else Coordinate(start, stride, k - 1) + stride
  }

  lemma {:induction false} CoordinateIsProduct(start: nat, stride: nat, k: nat)
    ensures Coordinate(start, stride, k) == start + k * stride
    decreases k
  {
    if k > 0 {
      CoordinateIsProduct(start, stride, k - 1);
      MulDistributes(stride, k - 1, 1);
    }
  }

  /** The steps that stay below the limit are exactly the first `Steps` ones. */
  lemma StepsExactly(start: nat, limit: nat, stride: nat, k: nat)
    requires start <= limit && stride > 0
    ensures Coordinate(start, stride, k) < limit <==> k < Steps(start, limit, stride)
  {
    CoordinateIsProduct(start, stride, k);
    StepsExact(start, limit, stride, k);
  }

  function SliceShape(starts: seq<nat>, limits: seq<nat>, strides: seq<nat>): (s: seq<nat>)
    requires |starts| == |limits| == |strides|
    requires forall i :: 0 <= i < |starts| ==> starts[i] <= limits[i] && strides[i] > 0
    ensures |s| == |starts|
  {
    seq(|starts|, i requires 0 <= i < |starts| => Steps(starts[i], limits[i], strides[i]))
  }

  /** The operand's coordinate selected by each coordinate of the result. */
  function SliceSource(starts: seq<nat>, strides: seq<nat>, index: seq<nat>): (s: seq<nat>)
    requires |starts| == |strides| == |index|
    ensures |s| == |index|
  {
    seq(|index|, i requires 0 <= i < |index| => Coordinate(starts[i], strides[i], index[i]))
  }

  lemma SliceSourceInBounds(shape: seq<nat>, starts: seq<nat>, limits: seq<nat>, strides: seq<nat>, index: seq<nat>)
    requires SliceBounds(shape, starts, limits, strides) && InBounds(SliceShape(starts, limits, strides), index)
    ensures InBounds(shape, SliceSource(starts, strides, index))
    ensures forall i :: 0 <= i < |shape| ==> starts[i] <= SliceSource(starts, strides, index)[i] < limits[i]
  {
    forall i | 0 <= i < |shape|
      ensures starts[i] <= SliceSource(starts, strides, index)[i] < limits[i]
    {
      assert index[i] < SliceShape(starts, limits, strides)[i];
      StepsExactly(starts[i], limits[i], strides[i], index[i]);
    }
  }

  function SliceFlat(shape: seq<nat>, starts: seq<nat>, limits: seq<nat>, strides: seq<nat>, f: nat): (g: nat)
    requires SliceBounds(shape, starts, limits, strides) && f < Size(SliceShape(starts, limits, strides))
    ensures g < Size(shape)
  {
    var result := SliceShape(starts, limits, strides);
    LinearOfUnlinear(result, f);
    var source := SliceSource(starts, strides, Unlinear(result, f));
    SliceSourceInBounds(shape, starts, limits, strides, Unlinear(result, f));
    LinearInSize(shape, source);
    Linear(shape, source)
  }

  /** The slice by its multi-index definition, of the tensor that begins at `base` in `values`. */
  function SlicedFrom<T>(values: seq<T>, base: nat, shape: seq<nat>, starts: seq<nat>, limits: seq<nat>,
                         strides: seq<nat>): (r: seq<T>)
    requires SliceBounds(shape, starts, limits, strides) && base + Size(shape) <= |values|
    ensures |r| == Size(SliceShape(starts, limits, strides))
    ensures forall f :: 0 <= f < |r| ==> r[f] == values[base + SliceFlat(shape, starts, limits, strides, f)]
  {
    var result := SliceShape(starts, limits, strides);
    seq(Size(result), f requires 0 <= f < Size(result) =>
      values[base + SliceFlat(shape, starts, limits, strides, f)])
  }

  function Sliced<T>(values: seq<T>, shape: seq<nat>, starts: seq<nat>, limits: seq<nat>, strides: seq<nat>):
    (r: seq<T>)
    requires SliceBounds(shape, starts, limits, strides) && |values| == Size(shape)
  {
    SlicedFrom(values, 0, shape, starts, limits, strides)
  }

  /** Element by element: the result at `index` is the operand at `start + index * stride`. */
  lemma SlicedAt<T>(values: seq<T>, shape: seq<nat>, starts: seq<nat>, limits: seq<nat>, strides: seq<nat>,
                    index: seq<nat>)
    requires SliceBounds(shape, starts, limits, strides) && |values| == Size(shape)
    requires InBounds(SliceShape(starts, limits, strides), index)
    ensures Linear(SliceShape(starts, limits, strides), index) < |Sliced(values, shape, starts, limits, strides)|
    ensures InBounds(shape, SliceSource(starts, strides, index))
    ensures Linear(shape, SliceSource(starts, strides, index)) < |values|
    ensures Sliced(values, shape, starts, limits, strides)[Linear(SliceShape(starts, limits, strides), index)]
         == values[Linear(shape, SliceSource(starts, strides, index))]
  {
    UnlinearOfLinear(SliceShape(starts, limits, strides), index);
    SliceSourceInBounds(shape, starts, limits, strides, index);
    LinearInSize(shape, SliceSource(starts, strides, index));
  }

  // ---------------------------------------------------------------- rows

  lemma BoundsOfRow(shape: seq<nat>, starts: seq<nat>, limits: seq<nat>, strides: seq<nat>)
    requires SliceBounds(shape, starts, limits, strides) && shape != []
    ensures SliceBounds(shape[1..], starts[1..], limits[1..], strides[1..])
    ensures SliceShape(starts, limits, strides)
         == [Steps(starts[0], limits[0], strides[0])] + SliceShape(starts[1..], limits[1..], strides[1..])
    ensures Size(SliceShape(starts, limits, strides))
         == Times(Steps(starts[0], limits[0], strides[0]), Size(SliceShape(starts[1..], limits[1..], strides[1..])))
  {
    var whole, rest := SliceShape(starts, limits, strides), SliceShape(starts[1..], limits[1..], strides[1..]);
    assert whole[1..] == rest;
    assert whole == [whole[0]] + rest;
  }

  lemma SliceFlatOf(shape: seq<nat>, starts: seq<nat>, limits: seq<nat>, strides: seq<nat>, f: nat, index: seq<nat>)
    requires SliceBounds(shape, starts, limits, strides) && InBounds(SliceShape(starts, limits, strides), index)
    requires f == Linear(SliceShape(starts, limits, strides), index)
    ensures f < Size(SliceShape(starts, limits, strides))
    ensures SliceFlat(shape, starts, limits, strides, f) == Linear(shape, SliceSource(starts, strides, index))
  {
    UnlinearOfLinear(SliceShape(starts, limits, strides), index);
  }

  lemma InBoundsCons(n: nat, shape: seq<nat>, k: nat, index: seq<nat>)
    requires k < n && InBounds(shape, index)
    ensures InBounds([n] + shape, [k] + index)
  {
  }

  lemma RowSource(starts: seq<nat>, strides: seq<nat>, k: nat, inner: seq<nat>)
    requires |starts| == |strides| == |inner| + 1
    ensures SliceSource(starts, strides, [k] + inner)[0] == Coordinate(starts[0], strides[0], k)
    ensures SliceSource(starts, strides, [k] + inner)[1..] == SliceSource(starts[1..], strides[1..], inner)
  {
    ConsParts(k, inner);
  }

  /** The multi-index of element `g` of row `k` of the result, which is its element `at`. */
  lemma RowIndex(shape: seq<nat>, starts: seq<nat>, limits: seq<nat>, strides: seq<nat>, k: nat, g: nat, at: nat)
    requires SliceBounds(shape, starts, limits, strides) && shape != []
    requires k < Steps(starts[0], limits[0], strides[0])
    requires SliceBounds(shape[1..], starts[1..], limits[1..], strides[1..])
    requires g < Size(SliceShape(starts[1..], limits[1..], strides[1..]))
    requires at == Times(k, Size(SliceShape(starts[1..], limits[1..], strides[1..]))) + g
    ensures
      var whole, rest := SliceShape(starts, limits, strides), SliceShape(starts[1..], limits[1..], strides[1..]);
      && InBounds(rest, Unlinear(rest, g)) && Linear(rest, Unlinear(rest, g)) == g
      && InBounds(whole, [k] + Unlinear(rest, g)) && Linear(whole, [k] + Unlinear(rest, g)) == at
  {
    BoundsOfRow(shape, starts, limits, strides);
    var rest := SliceShape(starts[1..], limits[1..], strides[1..]);
    LinearOfUnlinear(rest, g);
    LinearCons(Steps(starts[0], limits[0], strides[0]), rest, k, Unlinear(rest, g));
    InBoundsCons(Steps(starts[0], limits[0], strides[0]), rest, k, Unlinear(rest, g));
  }

  lemma RowSourceFlat(shape: seq<nat>, starts: seq<nat>, strides: seq<nat>, k: nat, inner: seq<nat>)
    requires |shape| == |starts| == |strides| == |inner| + 1
    ensures Linear(shape, SliceSource(starts, strides, [k] + inner))
         == Times(Coordinate(starts[0], strides[0], k), Size(shape[1..]))
            + Linear(shape[1..], SliceSource(starts[1..], strides[1..], inner))
  {
    RowSource(starts, strides, k, inner);
  }

  /** Element `g` of row `k` is found in the operand's row `start + k * stride`. */
  lemma SliceFlatOfRow(shape: seq<nat>, starts: seq<nat>, limits: seq<nat>, strides: seq<nat>, k: nat, g: nat, at: nat)
    requires SliceBounds(shape, starts, limits, strides) && shape != []
    requires k < Steps(starts[0], limits[0], strides[0])
    requires SliceBounds(shape[1..], starts[1..], limits[1..], strides[1..])
    requires g < Size(SliceShape(starts[1..], limits[1..], strides[1..]))
    requires at == Times(k, Size(SliceShape(starts[1..], limits[1..], strides[1..]))) + g
    ensures at < Size(SliceShape(starts, limits, strides))
    ensures SliceFlat(shape, starts, limits, strides, at)
         == Times(Coordinate(starts[0], strides[0], k), Size(shape[1..]))
            + SliceFlat(shape[1..], starts[1..], limits[1..], strides[1..], g)
  {
    var rest := SliceShape(starts[1..], limits[1..], strides[1..]);
    var inner := Unlinear(rest, g);
    RowIndex(shape, starts, limits, strides, k, g, at);
    SliceFlatOf(shape, starts, limits, strides, at, [k] + inner);
    SliceFlatOf(shape[1..], starts[1..], limits[1..], strides[1..], g, inner);
    RowSourceFlat(shape, starts, strides, k, inner);
  }

  function RowBegin(base: nat, row: nat, inner: nat): nat {
    base + Times(row, inner)
  }

  /** Where the operand's row for row `k` of the result begins. */
  function RowBase(base: nat, start: nat, stride: nat, inner: nat, k: nat): nat {
    RowBegin(base, Coordinate(start, stride, k), inner)
  }

  lemma RowInOperand(base: nat, shape: seq<nat>, starts: seq<nat>, limits: seq<nat>, strides: seq<nat>, k: nat)
    requires SliceBounds(shape, starts, limits, strides) && shape != []
    requires k < Steps(starts[0], limits[0], strides[0])
    ensures RowBase(base, starts[0], strides[0], Size(shape[1..]), k) + Size(shape[1..]) <= base + Size(shape)
  {
    StepsExactly(starts[0], limits[0], strides[0], k);
    TimesFit(Coordinate(starts[0], strides[0], k), shape[0], Size(shape[1..]));
  }

  /** The first `k` rows of the slice, each the slice of one row of the operand. */
  function SliceRows<T>(values: seq<T>, base: nat, shape: seq<nat>, starts: seq<nat>, limits: seq<nat>,
                        strides: seq<nat>, k: nat): (rows: seq<T>)
    requires SliceBounds(shape, starts, limits, strides) && shape != []
    requires base + Size(shape) <= |values| && k <= Steps(starts[0], limits[0], strides[0])
  {
    if k == 0 then []
    else
      RowInOperand(base, shape, starts, limits, strides, k - 1);
      SliceRows(values, base, shape, starts, limits, strides, k - 1)
      + SlicedFrom(values, RowBase(base, starts[0], strides[0], Size(shape[1..]), k - 1), shape[1..], starts[1..],
                   limits[1..], strides[1..])
  }

  lemma SlicedElement<T>(values: seq<T>, base: nat, shape: seq<nat>, starts: seq<nat>, limits: seq<nat>,
                         strides: seq<nat>, f: nat, p: nat)
    requires SliceBounds(shape, starts, limits, strides) && base + Size(shape) <= |values|
    requires f < Size(SliceShape(starts, limits, strides))
    requires p == base + SliceFlat(shape, starts, limits, strides, f)
    ensures p < |values| && SlicedFrom(values, base, shape, starts, limits, strides)[f] == values[p]
  {
  }

  lemma ElementOfRow<T>(values: seq<T>, base: nat, shape: seq<nat>, starts: seq<nat>, limits: seq<nat>,
                        strides: seq<nat>, k: nat, at: nat, g: nat)
    requires SliceBounds(shape, starts, limits, strides) && shape != []
    requires SliceBounds(shape[1..], starts[1..], limits[1..], strides[1..])
    requires k < Steps(starts[0], limits[0], strides[0])
    requires base + Size(shape) <= |values|
    requires RowBase(base, starts[0], strides[0], Size(shape[1..]), k) + Size(shape[1..]) <= |values|
    requires g < Size(SliceShape(starts[1..], limits[1..], strides[1..]))
    requires at == Times(k, Size(SliceShape(starts[1..], limits[1..], strides[1..]))) + g
    ensures at < |SlicedFrom(values, base, shape, starts, limits, strides)|
    ensures SlicedFrom(values, base, shape, starts, limits, strides)[at]
         == SlicedFrom(values, RowBase(base, starts[0], strides[0], Size(shape[1..]), k), shape[1..], starts[1..],
                       limits[1..], strides[1..])[g]
  {
    SliceFlatOfRow(shape, starts, limits, strides, k, g, at);
    var p := base + SliceFlat(shape, starts, limits, strides, at);
    SlicedElement(values, base, shape, starts, limits, strides, at, p);
    SlicedElement(values, RowBase(base, starts[0], strides[0], Size(shape[1..]), k), shape[1..], starts[1..],
                  limits[1..], strides[1..], g, p);
  }

  /** Row `k` stands in the slice behind `k` rows. */
  lemma RowAfterRows<T>(values: seq<T>, base: nat, shape: seq<nat>, starts: seq<nat>, limits: seq<nat>,
                        strides: seq<nat>, k: nat, before: seq<T>)
    requires SliceBounds(shape, starts, limits, strides) && shape != []
    requires base + Size(shape) <= |values| && k < Steps(starts[0], limits[0], strides[0])
    requires |before| == Times(k, Size(SliceShape(starts[1..], limits[1..], strides[1..])))
    requires before <= SlicedFrom(values, base, shape, starts, limits, strides)
    ensures RowBase(base, starts[0], strides[0], Size(shape[1..]), k) + Size(shape[1..]) <= |values|
    ensures SliceBounds(shape[1..], starts[1..], limits[1..], strides[1..])
    ensures
      var row := SlicedFrom(values, RowBase(base, starts[0], strides[0], Size(shape[1..]), k), shape[1..], starts[1..],
                            limits[1..], strides[1..]);
      && |before + row| == Times(k + 1, Size(SliceShape(starts[1..], limits[1..], strides[1..])))
      && before + row <= SlicedFrom(values, base, shape, starts, limits, strides)
  {
    BoundsOfRow(shape, starts, limits, strides);
    RowInOperand(base, shape, starts, limits, strides, k);
    var n := Size(SliceShape(starts[1..], limits[1..], strides[1..]));
    var whole := SlicedFrom(values, base, shape, starts, limits, strides);
    TimesFit(k, Steps(starts[0], limits[0], strides[0]), n);
    var row := SlicedFrom(values, RowBase(base, starts[0], strides[0], Size(shape[1..]), k), shape[1..], starts[1..],
                          limits[1..], strides[1..]);
    forall g | 0 <= g < n
      ensures |before| + g < |whole| && row[g] == whole[|before| + g]
    {
      ElementOfRow(values, base, shape, starts, limits, strides, k, |before| + g, g);
    }
    RowExtends(whole, before, row);
  }

  /** The rows, one after the other, are the slice. */
  lemma {:induction false} RowsOfSlice<T>(values: seq<T>, base: nat, shape: seq<nat>, starts: seq<nat>,
                                          limits: seq<nat>, strides: seq<nat>, k: nat)
    requires SliceBounds(shape, starts, limits, strides) && shape != []
    requires base + Size(shape) <= |values| && k <= Steps(starts[0], limits[0], strides[0])
    ensures |SliceRows(values, base, shape, starts, limits, strides, k)|
         == Times(k, Size(SliceShape(starts[1..], limits[1..], strides[1..])))
    ensures SliceRows(values, base, shape, starts, limits, strides, k)
         <= SlicedFrom(values, base, shape, starts, limits, strides)
    decreases k
  {
    if k > 0 {
      RowsOfSlice(values, base, shape, starts, limits, strides, k - 1);
      RowAfterRows(values, base, shape, starts, limits, strides, k - 1,
                   SliceRows(values, base, shape, starts, limits, strides, k - 1));
    }
  }

  lemma AllRowsOfSlice<T>(values: seq<T>, base: nat, shape: seq<nat>, starts: seq<nat>, limits: seq<nat>,
                          strides: seq<nat>)
    requires SliceBounds(shape, starts, limits, strides) && shape != [] && base + Size(shape) <= |values|
    ensures SliceRows(values, base, shape, starts, limits, strides, Steps(starts[0], limits[0], strides[0]))
         == SlicedFrom(values, base, shape, starts, limits, strides)
  {
    BoundsOfRow(shape, starts, limits, strides);
    RowsOfSlice(values, base, shape, starts, limits, strides, Steps(starts[0], limits[0], strides[0]));
  }

  /** The number of elements behind each dimension. */
  predicate RowSizes(shape: seq<nat>, sizes: seq<nat>) {
    |sizes| == |shape| && forall i :: 0 <= i < |shape| ==> sizes[i] == Size(shape[i + 1..])
  }

  lemma RowSizesTail(shape: seq<nat>, sizes: seq<nat>)
    requires RowSizes(shape, sizes) && shape != []
    ensures sizes[0] == Size(shape[1..]) && RowSizes(shape[1..], sizes[1..])
  {
    forall i | 0 <= i < |shape| - 1
      ensures sizes[1..][i] == Size(shape[1..][i + 1..])
    {
      assert shape[1..][i + 1..] == shape[i + 2..];
    }
  }

  lemma LastBase(base: nat, start: nat, stride: nat, k: nat)
    ensures Size([]) == 1 && RowBase(base, start, stride, 1, k) == base + Coordinate(start, stride, k)
  {
    TimesIsProduct(Coordinate(start, stride, k), 1);
  }

  /** In the last dimension a row of the operand is a single element. */
  lemma RowOfLastDimension<T>(values: seq<T>, base: nat, shape: seq<nat>, starts: seq<nat>, limits: seq<nat>,
                              strides: seq<nat>, k: nat)
    requires SliceBounds(shape, starts, limits, strides) && |shape| == 1
    requires base + Size(shape) <= |values| && k < Steps(starts[0], limits[0], strides[0])
    ensures base + Coordinate(starts[0], strides[0], k) < |values|
    ensures SliceRows(values, base, shape, starts, limits, strides, k + 1)
         == SliceRows(values, base, shape, starts, limits, strides, k)
            + [values[base + Coordinate(starts[0], strides[0], k)]]
  {
    assert shape[1..] == [] && starts[1..] == [] && limits[1..] == [] && strides[1..] == [];
    RowInOperand(base, shape, starts, limits, strides, k);
    LastBase(base, starts[0], strides[0], k);
    RowsNext(values, base, shape, starts, limits, strides, k, base + Coordinate(starts[0], strides[0], k));
    OneElement(values, base + Coordinate(starts[0], strides[0], k));
  }

  lemma RowsNext<T>(values: seq<T>, base: nat, shape: seq<nat>, starts: seq<nat>, limits: seq<nat>, strides: seq<nat>,
                    k: nat, at: nat)
    requires SliceBounds(shape, starts, limits, strides) && shape != []
    requires base + Size(shape) <= |values| && k < Steps(starts[0], limits[0], strides[0])
    requires at == RowBase(base, starts[0], strides[0], Size(shape[1..]), k)
    ensures at + Size(shape[1..]) <= |values| && SliceBounds(shape[1..], starts[1..], limits[1..], strides[1..])
    ensures SliceRows(values, base, shape, starts, limits, strides, k + 1)
         == SliceRows(values, base, shape, starts, limits, strides, k)
            + SlicedFrom(values, at, shape[1..], starts[1..], limits[1..], strides[1..])
  {
    RowInOperand(base, shape, starts, limits, strides, k);
    BoundsOfRow(shape, starts, limits, strides);
  }

  lemma OneElement<T>(values: seq<T>, base: nat)
    requires base < |values|
    ensures SliceBounds([], [], [], []) && Size([]) == 1
    ensures SlicedFrom(values, base, [], [], [], []) == [values[base]]
  {
    assert SliceShape([], [], []) == [];
    assert SliceFlat([], [], [], [], 0) == 0;
  }

  /** The innermost dimension, copied one element at a time. */
  method SliceLastDimension<T>(values: seq<T>, base: nat, ghost shape: seq<nat>, starts: seq<nat>, limits: seq<nat>,
                               strides: seq<nat>, outValues: seq<T>)
    returns (out: seq<T>)
    requires SliceBounds(shape, starts, limits, strides) && |shape| == 1
    requires base + Size(shape) <= |values|
    ensures out == outValues + SlicedFrom(values, base, shape, starts, limits, strides)
  {
    out := outValues;
    ghost var steps := Steps(starts[0], limits[0], strides[0]);
    ghost var k: nat := 0;
    var i := starts[0];
    while i < limits[0]
      invariant i == Coordinate(starts[0], strides[0], k) && k <= steps
      invariant out == outValues + SliceRows(values, base, shape, starts, limits, strides, k)
      decreases steps - k
    {
      StepsExactly(starts[0], limits[0], strides[0], k);
      RowOfLastDimension(values, base, shape, starts, limits, strides, k);
      out := out + [values[base + i]];
      i := i + strides[0];
      k := k + 1;
    }
    StepsExactly(starts[0], limits[0], strides[0], k);
    AllRowsOfSlice(values, base, shape, starts, limits, strides);
  }

  /** Appends the selected elements of the tensor at `base`, one row of the operand at a time. */
  method SliceElements<T>(values: seq<T>, base: nat, ghost shape: seq<nat>, sizes: seq<nat>, starts: seq<nat>,
                          limits: seq<nat>, strides: seq<nat>, outValues: seq<T>)
    returns (out: seq<T>)
    requires SliceBounds(shape, starts, limits, strides) && RowSizes(shape, sizes)
    requires base + Size(shape) <= |values|
    ensures starts == [] ==> out == outValues
    ensures starts != [] ==> out == outValues + SlicedFrom(values, base, shape, starts, limits, strides)
    decreases |starts|
  {
    if |starts| == 0 {
      return outValues;
    }
    if |starts| == 1 {
      out := SliceLastDimension(values, base, shape, starts, limits, strides, outValues);
      return;
    }
    out := outValues;
    ghost var steps := Steps(starts[0], limits[0], strides[0]);
    ghost var k: nat := 0;
    var start := starts[0];
    RowSizesTail(shape, sizes);
    while start < limits[0]
      invariant start == Coordinate(starts[0], strides[0], k) && k <= steps
      invariant out == outValues + SliceRows(values, base, shape, starts, limits, strides, k)
      decreases steps - k
    {
      StepsExactly(starts[0], limits[0], strides[0], k);
      RowInOperand(base, shape, starts, limits, strides, k);
      TimesIsProduct(start, sizes[0]);
      var begin := base + start * sizes[0];
      AppendAssociates(outValues, SliceRows(values, base, shape, starts, limits, strides, k),
                       SlicedFrom(values, begin, shape[1..], starts[1..], limits[1..], strides[1..]));
      out := SliceElements(values, begin, shape[1..], sizes[1..], starts[1..], limits[1..], strides[1..], out);
      start := start + strides[0];
      k := k + 1;
    }
    StepsExactly(starts[0], limits[0], strides[0], k);
    AllRowsOfSlice(values, base, shape, starts, limits, strides);
  }

  /** Dividing the element count by each dimension in turn leaves the sizes of the rows. */
  method ComputeRowSizes(shape: seq<nat>) returns (sizes: seq<nat>)
    requires Size(shape) != 0
    ensures RowSizes(shape, sizes)
  {
    var count := Size(shape);
    sizes := [];
    assert shape[0..] == shape;
    for i := 0 to |shape|
      invariant |sizes| == i && count == Size(shape[i..]) && count != 0
      invariant forall j :: 0 <= j < i ==> sizes[j] == Size(shape[j + 1..])
    {
      DropOne(shape, i);
      TimesPositive(shape[i], Size(shape[i + 1..]));
      TimesIsProduct(shape[i], Size(shape[i + 1..]));
      DivMod(count, shape[i], Size(shape[i + 1..]), 0);
      count := count / shape[i];
      sizes := sizes + [count];
    }
  }

  /** A slice that leaves the shape as it is selects every element. */
  lemma WholeSliceIsIdentity<T>(values: seq<T>, shape: seq<nat>, starts: seq<nat>, limits: seq<nat>,
                                strides: seq<nat>)
    requires SliceBounds(shape, starts, limits, strides) && |values| == Size(shape)
    requires SliceShape(starts, limits, strides) == shape
    ensures Sliced(values, shape, starts, limits, strides) == values
  {
    var r := Sliced(values, shape, starts, limits, strides);
    forall f | 0 <= f < |values|
      ensures r[f] == values[f]
    {
      var index := Unlinear(shape, f);
      LinearOfUnlinear(shape, f);
      SliceSourceInBounds(shape, starts, limits, strides, index);
      forall i | 0 <= i < |shape|
        ensures Coordinate(starts[i], strides[i], index[i]) == index[i]
      {
        CoordinateIsProduct(starts[i], strides[i], index[i]);
        assert SliceShape(starts, limits, strides)[i] == shape[i];
        StepsExact(starts[i], limits[i], strides[i], shape[i] - 1);
        MulMonotone(shape[i] - 1, 1, strides[i]);
        if shape[i] > 1 && strides[i] > 1 {
          MulMonotone(shape[i] - 1, 2, strides[i]);
        }
      }
      assert SliceSource(starts, strides, index) == index;
    }
  }

  /** The constant folder: nothing when the operand is too large, else the slice. */
  method FoldSlice<T>(values: seq<T>, shape: seq<nat>, starts: seq<nat>, limits: seq<nat>, strides: seq<nat>)
    returns (folded: Option<seq<T>>)
    requires SliceBounds(shape, starts, limits, strides) && |values| == Size(shape)
    ensures folded.None? <==> SliceShape(starts, limits, strides) != shape && Size(shape) > FOLD_OP_ELT_LIMIT
    ensures folded.Some? ==> folded.value == Sliced(values, shape, starts, limits, strides)
  {
    if SliceShape(starts, limits, strides) == shape {
      WholeSliceIsIdentity(values, shape, starts, limits, strides);
      return Some(values);
    }
    if |values| == 0 {
      NothingToSlice(shape, starts, limits, strides);
      return Some([]);
    }
    assert |SliceShape(starts, limits, strides)| == |shape|;
    var sizes := ComputeRowSizes(shape);
    if |values| > FOLD_OP_ELT_LIMIT {
      return None;
    }
    var out := SliceElements(values, 0, shape, sizes, starts, limits, strides, []);
    return Some(out);
  }

  lemma NothingToSlice(shape: seq<nat>, starts: seq<nat>, limits: seq<nat>, strides: seq<nat>)
    requires SliceBounds(shape, starts, limits, strides) && Size(shape) == 0
    ensures Size(SliceShape(starts, limits, strides)) == 0
  {
    if Size(SliceShape(starts, limits, strides)) > 0 {
      var source := Unlinear(SliceShape(starts, limits, strides), 0);
      LinearOfUnlinear(SliceShape(starts, limits, strides), 0);
      SliceSourceInBounds(shape, starts, limits, strides, source);
      LinearInSize(shape, SliceSource(starts, strides, source));
    }
  }
}

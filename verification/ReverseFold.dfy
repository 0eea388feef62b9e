/** Folding of `reverse` by swapping windows in place. */
module ReverseFold {
  import opened IndexArithmetic
  import opened Options
  import opened RowMajor
  import opened Sequences

  /** The multi-index with coordinate `d` counted from the other end. */
  function MirrorAt(shape: seq<nat>, index: seq<nat>, d: nat): (m: seq<nat>)
    requires InBounds(shape, index) && d < |shape|
    ensures InBounds(shape, m)
  {
    index[d := shape[d] - 1 - index[d]]
  }

  function MirrorFlat(shape: seq<nat>, d: nat, f: nat): (m: nat)
    requires d < |shape| && f < Size(shape)
    ensures m < Size(shape)
  {
    LinearOfUnlinear(shape, f);
    LinearInSize(shape, MirrorAt(shape, Unlinear(shape, f), d));
    Linear(shape, MirrorAt(shape, Unlinear(shape, f), d))
  }

  /** The tensor with dimension `d` mirrored. */
  function Mirrored<T>(shape: seq<nat>, d: nat, t: seq<T>): (m: seq<T>)
    requires d < |shape| && |t| == Size(shape)
    ensures |m| == |t| && forall f :: 0 <= f < |t| ==> m[f] == t[MirrorFlat(shape, d, f)]
  {
    seq(|t|, f requires 0 <= f < |t| => t[MirrorFlat(shape, d, f)])
  }

  function MirroredAll<T>(shape: seq<nat>, dims: seq<nat>, t: seq<T>): (m: seq<T>)
    requires |t| == Size(shape) && forall i :: 0 <= i < |dims| ==> dims[i] < |shape|
    ensures |m| == |t|
  {
    if dims == [] then t else Mirrored(shape, dims[|dims| - 1], MirroredAll(shape, dims[..|dims| - 1], t))
  }

  lemma MirrorAtTwice(shape: seq<nat>, index: seq<nat>, d: nat)
    requires d < |shape| && InBounds(shape, index)
    ensures MirrorAt(shape, MirrorAt(shape, index, d), d) == index
  {
    var back := MirrorAt(shape, MirrorAt(shape, index, d), d);
    forall i | 0 <= i < |index|
      ensures back[i] == index[i]
    {
    }
  }

  lemma MirrorTwice(shape: seq<nat>, d: nat, f: nat)
    requires d < |shape| && f < Size(shape)
    ensures MirrorFlat(shape, d, MirrorFlat(shape, d, f)) == f
  {
    LinearOfUnlinear(shape, f);
    var index := Unlinear(shape, f);
    UnlinearOfLinear(shape, MirrorAt(shape, index, d));
    MirrorAtTwice(shape, index, d);
  }

  lemma MirroredAt<T>(shape: seq<nat>, d: nat, t: seq<T>, index: seq<nat>)
    requires d < |shape| && |t| == Size(shape) && InBounds(shape, index)
    ensures Linear(shape, index) < |t| && Linear(shape, MirrorAt(shape, index, d)) < |t|
    ensures Mirrored(shape, d, t)[Linear(shape, index)] == t[Linear(shape, MirrorAt(shape, index, d))]
  {
    UnlinearOfLinear(shape, index);
    LinearInSize(shape, MirrorAt(shape, index, d));
  }

  // ---------------------------------------------------------------- the swap arithmetic

  /** A multi-index and its mirror image, as block, window and rest. */
  lemma MirrorAround(shape: seq<nat>, d: nat, index: seq<nat>)
    returns (block: nat, w: nat, low: nat)
    requires d < |shape| && InBounds(shape, index)
    ensures w < shape[d] && low < Size(shape[d + 1..]) && Size(shape[d..]) == Times(shape[d], Size(shape[d + 1..]))
    ensures Linear(shape, index) == FlatAt(block, Size(shape[d..]), w, Size(shape[d + 1..]), low)
    ensures Linear(shape, MirrorAt(shape, index, d))
         == FlatAt(block, Size(shape[d..]), shape[d] - w - 1, Size(shape[d + 1..]), low)
  {
    var mirror := MirrorAt(shape, index, d);
    assert mirror[d + 1..] == index[d + 1..] && mirror[..d] == index[..d];
    LinearAround(shape, d, index);
    LinearAround(shape, d, mirror);
    block, w, low := Linear(shape[..d], index[..d]), index[d], Linear(shape[d + 1..], index[d + 1..]);
  }

  /** The mirror image of a position changes only the window, and lies behind it if the mirrored window does. */
  lemma SwapPartner(shape: seq<nat>, d: nat, f: nat, stride: nat, size: nat, block: nat, w: nat, low: nat)
    requires d < |shape| && f < Size(shape) && stride == Size(shape[d..]) && size == Size(shape[d + 1..])
    requires w < shape[d] && low < size && f == FlatAt(block, stride, w, size, low)
    ensures MirrorFlat(shape, d, f) == FlatAt(block, stride, shape[d] - w - 1, size, low)
    ensures w < shape[d] - w - 1 <==> f < MirrorFlat(shape, d, f)
  {
    LinearOfUnlinear(shape, f);
    var b', w', l' := MirrorAround(shape, d, Unlinear(shape, f));
    FlatAtUnique(stride, shape[d], size, block, w, low, b', w', l');
    FlatAtOrder(block, stride, size, low, w, shape[d] - w - 1);
  }

  /** The block, the window and the place in the window of a flat position. */
  method SplitIndex(index: nat, stride: nat, numWindows: nat, windowSize: nat)
    returns (blockNumber: nat, windowNumber: nat, rest: nat)
    requires stride == Times(numWindows, windowSize) && stride > 0
    ensures windowNumber < numWindows && rest < windowSize
    ensures index == FlatAt(blockNumber, stride, windowNumber, windowSize, rest)
  {
    FlatAtDigits(index, stride, numWindows, windowSize);
    blockNumber, windowNumber, rest := index / stride, (index % stride) / windowSize, index % windowSize;
  }

  method JoinIndex(blockNumber: nat, stride: nat, windowNumber: nat, windowSize: nat, rest: nat) returns (index: nat)
    ensures index == FlatAt(blockNumber, stride, windowNumber, windowSize, rest)
  {
    TimesIsProduct(blockNumber, stride);
    TimesIsProduct(windowNumber, windowSize);
    index := blockNumber * stride + windowNumber * windowSize + rest;
  }

  /** Every pair whose smaller position lies below `k` was swapped. */
  ghost predicate SwappedBelow<T>(shape: seq<nat>, d: nat, was: seq<T>, now: seq<T>, k: nat)
    requires d < |shape| && |was| == |now| == Size(shape)
  {
    forall f :: 0 <= f < |was| ==>
                  now[f] == if f < k || MirrorFlat(shape, d, f) < k then was[MirrorFlat(shape, d, f)] else was[f]
  }

  lemma SwapNext<T>(shape: seq<nat>, d: nat, was: seq<T>, now: seq<T>, k: nat)
    requires d < |shape| && |was| == |now| == Size(shape) && k < |was|
    requires SwappedBelow(shape, d, was, now, k)
    ensures var m := MirrorFlat(shape, d, k);
            && (k < m ==> SwappedBelow(shape, d, was, now[k := now[m]][m := now[k]], k + 1))
            && (m <= k ==> SwappedBelow(shape, d, was, now, k + 1))
  {
    var m := MirrorFlat(shape, d, k);
    MirrorTwice(shape, d, k);
    var next := if k < m then now[k := now[m]][m := now[k]] else now;
    forall f | 0 <= f < |was|
      ensures next[f] == if f < k + 1 || MirrorFlat(shape, d, f) < k + 1 then was[MirrorFlat(shape, d, f)] else was[f]
    {
      MirrorTwice(shape, d, f);
    }
  }

  /** Whether a position is swapped, and with which: with its mirror image, if that lies behind it. */
  method FindPartner(index: nat, ghost shape: seq<nat>, ghost dim: nat, stride: nat, numWindows: nat, windowSize: nat)
    returns (swap: bool, reversedIndex: nat)
    requires dim < |shape| && index < Size(shape) && stride == Size(shape[dim..]) > 0
    requires numWindows == shape[dim] && windowSize == Size(shape[dim + 1..])
    requires stride == Times(numWindows, windowSize)
    ensures swap <==> index < MirrorFlat(shape, dim, index)
    ensures swap ==> reversedIndex == MirrorFlat(shape, dim, index)
  {
    var blockNumber, windowNumber, rest := SplitIndex(index, stride, numWindows, windowSize);
    SwapPartner(shape, dim, index, stride, windowSize, blockNumber, windowNumber, rest);
    var reversedWindowNumber := numWindows - windowNumber - 1;
    if windowNumber >= reversedWindowNumber {
      return false, index;
    }
    reversedIndex := JoinIndex(blockNumber, stride, reversedWindowNumber, windowSize, rest);
    return true, reversedIndex;
  }

  method Swap<T>(a: array<T>, i: nat, j: nat)
    requires i < a.Length && j < a.Length
    modifies a
    ensures a[..] == old(a[..])[i := old(a[j])][j := old(a[i])]
  {
    a[i], a[j] := a[j], a[i];
  }

  /** Reverses the windows of dimension `dim` within every block. */
  method ReverseDimension<T>(result: array<T>, shape: seq<nat>, stride: seq<nat>, dim: nat)
    requires result.Length == Size(shape) > 0 && dim < |shape| && |stride| == |shape| + 1
    requires forall i :: 0 <= i <= |shape| ==> stride[i] == Size(shape[i..])
    modifies result
    ensures result[..] == Mirrored(shape, dim, old(result[..]))
  {
    var numElements := result.Length;
    var numWindows := shape[dim];
    WindowSize(shape, dim);
    var windowSize := stride[dim] / numWindows;
    ghost var was := result[..];
    for index := 0 to numElements
      invariant SwappedBelow(shape, dim, was, result[..], index)
    {
      SwapNext(shape, dim, was, result[..], index);
      var swap, reversedIndex := FindPartner(index, shape, dim, stride[dim], numWindows, windowSize);
      if swap {
        Swap(result, index, reversedIndex);
      }
    }
  }

  lemma WindowSize(shape: seq<nat>, dim: nat)
    requires dim < |shape| && Size(shape) > 0
    ensures shape[dim] > 0 && Size(shape[dim..]) / shape[dim] == Size(shape[dim + 1..])
    ensures Size(shape[dim..]) == Times(shape[dim], Size(shape[dim + 1..])) > 0
  {
    SizesPositive(shape);
    DropOne(shape, dim);
    SizesPositiveFrom(shape, dim);
    QuotientOfProduct(shape[dim], Size(shape[dim + 1..]));
  }

  lemma QuotientOfProduct(n: nat, m: nat)
    requires n > 0
    ensures Times(n, m) / n == m
  {
    TimesIsProduct(n, m);
    DivMod(n * m, n, m, 0);
  }

  /** The strides: how many elements the dimensions from `i` on have. */
  method Strides(shape: seq<nat>) returns (stride: seq<nat>)
    requires forall i :: 0 <= i < |shape| ==> shape[i] > 0
    ensures |stride| == |shape| + 1
    ensures forall i :: 0 <= i <= |shape| ==> stride[i] == Size(shape[i..])
  {
    stride := [Size(shape)];
    assert shape[0..] == shape;
    for i := 0 to |shape|
      invariant |stride| == i + 1
      invariant forall j :: 0 <= j <= i ==> stride[j] == Size(shape[j..])
    {
      DropOne(shape, i);
      QuotientOfProduct(shape[i], Size(shape[i + 1..]));
      stride := stride + [stride[i] / shape[i]];
    }
  }

  /** The tensor with all listed dimensions mirrored, unless it is empty or too large to fold. */
  method FoldReverse<T>(values: seq<T>, shape: seq<nat>, dims: seq<nat>) returns (folded: Option<seq<T>>)
    requires |values| == Size(shape) && forall i :: 0 <= i < |dims| ==> dims[i] < |shape|
    ensures folded == if 0 < |values| <= FOLD_OP_ELT_LIMIT then Some(MirroredAll(shape, dims, values)) else None
  {
    if |values| == 0 || |values| > FOLD_OP_ELT_LIMIT {
      return None;
    }
    SizesPositive(shape);
    var result := new T[|values|](i requires 0 <= i < |values| => values[i]);
    assert result[..] == values;
    var stride := Strides(shape);
    for k := 0 to |dims|
      invariant result[..] == MirroredAll(shape, dims[..k], values)
    {
      Snoc(dims, k);
      ReverseDimension(result, shape, stride, dims[k]);
    }
    TakeAll(dims);
    return Some(result[..]);
  }

  // ---------------------------------------------------------------- meaning

  /** The multi-index with every listed coordinate counted from the other end. */
  function MirrorIn(shape: seq<nat>, dims: seq<nat>, index: seq<nat>): (m: seq<nat>)
    requires InBounds(shape, index)
    ensures InBounds(shape, m)
    ensures forall i :: 0 <= i < |shape| ==> m[i] == if i in dims then shape[i] - 1 - index[i] else index[i]
  {
    seq(|shape|, i requires 0 <= i < |shape| => if i in dims then shape[i] - 1 - index[i] else index[i])
  }

  /** Mirroring distinct dimensions one after the other mirrors exactly the listed coordinates. */
  lemma {:induction false} MirroredAllAt<T>(shape: seq<nat>, dims: seq<nat>, t: seq<T>, index: seq<nat>)
    requires |t| == Size(shape) && InBounds(shape, index) && Distinct(dims)
    requires forall i :: 0 <= i < |dims| ==> dims[i] < |shape|
    ensures Linear(shape, index) < |t| && Linear(shape, MirrorIn(shape, dims, index)) < |t|
    ensures MirroredAll(shape, dims, t)[Linear(shape, index)] == t[Linear(shape, MirrorIn(shape, dims, index))]
    decreases |dims|
  {
    LinearInSize(shape, index);
    LinearInSize(shape, MirrorIn(shape, dims, index));
    if dims == [] {
      assert MirrorIn(shape, dims, index) == index;
    } else {
      SplitLast(dims);
      var n := |dims| - 1;
      var d, front := dims[n], dims[..n];
      MirroredAt(shape, d, MirroredAll(shape, front, t), index);
      MirroredAllAt(shape, front, t, MirrorAt(shape, index, d));
      MirrorInSnoc(shape, front, d, index);
    }
  }

  lemma MirrorInSnoc(shape: seq<nat>, front: seq<nat>, d: nat, index: seq<nat>)
    requires InBounds(shape, index) && d < |shape| && d !in front
    ensures MirrorIn(shape, front, MirrorAt(shape, index, d)) == MirrorIn(shape, front + [d], index)
  {
    forall i | 0 <= i < |shape|
      ensures MirrorIn(shape, front, MirrorAt(shape, index, d))[i] == MirrorIn(shape, front + [d], index)[i]
    {
      assert i in front + [d] <==> i in front || i == d;
    }
  }

  lemma MirrorInTwice(shape: seq<nat>, dims: seq<nat>, index: seq<nat>)
    requires InBounds(shape, index)
    ensures MirrorIn(shape, dims, MirrorIn(shape, dims, index)) == index
  {
  }

  /** Folding a reverse of a reverse gives back the tensor. */
  lemma MirroredAllTwice<T>(shape: seq<nat>, dims: seq<nat>, t: seq<T>)
    requires |t| == Size(shape) && Distinct(dims) && forall i :: 0 <= i < |dims| ==> dims[i] < |shape|
    ensures MirroredAll(shape, dims, MirroredAll(shape, dims, t)) == t
  {
    var once := MirroredAll(shape, dims, t);
    forall f | 0 <= f < |t|
      ensures MirroredAll(shape, dims, once)[f] == t[f]
    {
      LinearOfUnlinear(shape, f);
      var index := Unlinear(shape, f);
      MirroredAllAt(shape, dims, once, index);
      MirroredAllAt(shape, dims, t, MirrorIn(shape, dims, index));
      MirrorInTwice(shape, dims, index);
    }
  }
}

/** Row-major layout: multi-indices, flat positions and the bijection between them. */
module RowMajor {
  import opened IndexArithmetic
  import opened Sequences

  /** Larger results are not folded. */
  const FOLD_OP_ELT_LIMIT: nat := 65536

  function Size(shape: seq<nat>): nat {
    if shape == [] then 1 else Times(shape[0], Size(shape[1..]))
  }

  predicate InBounds(shape: seq<nat>, index: seq<nat>) {
    |index| == |shape| && forall i :: 0 <= i < |shape| ==> index[i] < shape[i]
  }

  /** The flat position of a multi-index; the last dimension varies fastest. */
  function Linear(shape: seq<nat>, index: seq<nat>): nat
    requires |index| == |shape|
  {
    if shape == [] then 0 else Times(index[0], Size(shape[1..])) + Linear(shape[1..], index[1..])
  }

  lemma LinearCons(n: nat, shape: seq<nat>, k: nat, index: seq<nat>)
    requires |index| == |shape|
    ensures Linear([n] + shape, [k] + index) == Times(k, Size(shape)) + Linear(shape, index)
  {
    ConsParts(n, shape);
    ConsParts(k, index);
  }

  /** The multi-index of a flat position. */
  function Unlinear(shape: seq<nat>, f: nat): (index: seq<nat>)
    requires f < Size(shape)
    ensures |index| == |shape|
  {
    if shape == [] then []
    else
      var rest := Size(shape[1..]);
      TimesQuotient(f, shape[0], rest);
      [f / rest] + Unlinear(shape[1..], f % rest)
  }

  /** The number of elements is the product of the dimensions. */
  lemma SizeIsProduct(shape: seq<nat>)
    requires shape != []
    ensures Size(shape) == shape[0] * Size(shape[1..])
  {
    TimesIsProduct(shape[0], Size(shape[1..]));
  }

  lemma {:induction false} LinearInSize(shape: seq<nat>, index: seq<nat>)
    requires InBounds(shape, index)
    ensures Linear(shape, index) < Size(shape)
    decreases |shape|
  {
    if shape != [] {
      LinearInSize(shape[1..], index[1..]);
      TimesFit(index[0], shape[0], Size(shape[1..]));
    }
  }

  /** `Unlinear` inverts `Linear` and stays in bounds. */
  lemma {:induction false} LinearOfUnlinear(shape: seq<nat>, f: nat)
    requires f < Size(shape)
    ensures InBounds(shape, Unlinear(shape, f))
    ensures Linear(shape, Unlinear(shape, f)) == f
    decreases |shape|
  {
    if shape != [] {
      var rest := Size(shape[1..]);
      TimesQuotient(f, shape[0], rest);
      LinearOfUnlinear(shape[1..], f % rest);
      ConsParts(f / rest, Unlinear(shape[1..], f % rest));
    }
  }

  lemma {:induction false} UnlinearOfLinear(shape: seq<nat>, index: seq<nat>)
    requires InBounds(shape, index)
    ensures Linear(shape, index) < Size(shape)
    ensures Unlinear(shape, Linear(shape, index)) == index
    decreases |shape|
  {
    LinearInSize(shape, index);
    if shape != [] {
      LinearInSize(shape[1..], index[1..]);
      UnlinearOfLinear(shape[1..], index[1..]);
      TimesDigits(Linear(shape, index), Size(shape[1..]), index[0], Linear(shape[1..], index[1..]));
    }
  }

  lemma LinearInjective(shape: seq<nat>, i: seq<nat>, j: seq<nat>)
    requires InBounds(shape, i) && InBounds(shape, j) && Linear(shape, i) == Linear(shape, j)
    ensures i == j
  {
    UnlinearOfLinear(shape, i);
    UnlinearOfLinear(shape, j);
  }

  /** Splitting a shape in front of dimension `d`. */
  lemma {:induction false} SizeSplit(shape: seq<nat>, d: nat)
    requires d <= |shape|
    ensures Size(shape) == Times(Size(shape[..d]), Size(shape[d..]))
    decreases d
  {
    if d == 0 {
      TakeAll(shape);
      assert shape[0..] == shape;
    } else {
      SizeSplit(shape[1..], d - 1);
      TailSlices(shape, d);
      TimesAssociates(shape[0], Size(shape[1..][..d - 1]), Size(shape[d..]));
    }
  }

  lemma TailSlices(s: seq<nat>, d: nat)
    requires 0 < d <= |s|
    ensures s[..d] != [] && s[..d][0] == s[0] && s[..d][1..] == s[1..][..d - 1] && s[1..][d - 1..] == s[d..]
  {
  }

  lemma {:induction false} LinearSplit(shape: seq<nat>, index: seq<nat>, d: nat)
    requires |index| == |shape| && d <= |shape|
    ensures Linear(shape, index)
         == Times(Linear(shape[..d], index[..d]), Size(shape[d..])) + Linear(shape[d..], index[d..])
    decreases d
  {
    if d == 0 {
      TakeAll(shape);
      assert shape[0..] == shape && index[0..] == index;
    } else {
      LinearSplit(shape[1..], index[1..], d - 1);
      SizeSplit(shape[1..], d - 1);
      TailSlices(shape, d);
      TailSlices(index, d);
      var high, low := Size(shape[1..][..d - 1]), Size(shape[d..]);
      TimesAssociates(index[0], high, low);
      TimesAdd(Times(index[0], high), Linear(shape[1..][..d - 1], index[1..][..d - 1]), low);
    }
  }

  lemma {:induction false} InBoundsSlices(shape: seq<nat>, index: seq<nat>, d: nat)
    requires InBounds(shape, index) && d <= |shape|
    ensures InBounds(shape[..d], index[..d]) && InBounds(shape[d..], index[d..])
  {
  }

  /** The flat position as the block in front of dimension `d`, the coordinate, and the rest behind it. */
  lemma LinearAround(shape: seq<nat>, d: nat, index: seq<nat>)
    requires d < |shape| && InBounds(shape, index)
    ensures Size(shape[d..]) == Times(shape[d], Size(shape[d + 1..]))
    ensures Linear(shape[d + 1..], index[d + 1..]) < Size(shape[d + 1..])
    ensures Linear(shape, index)
         == FlatAt(Linear(shape[..d], index[..d]), Size(shape[d..]), index[d], Size(shape[d + 1..]),
                   Linear(shape[d + 1..], index[d + 1..]))
  {
    DropOne(shape, d);
    DropOne(index, d);
    LinearSplit(shape, index, d);
    InBoundsSlices(shape, index, d + 1);
    LinearInSize(shape[d + 1..], index[d + 1..]);
  }

  lemma DropOne(s: seq<nat>, d: nat)
    requires d < |s|
    ensures s[d..] != [] && s[d..][0] == s[d] && s[d..][1..] == s[d + 1..]
  {
  }

  lemma {:induction false} SizesPositiveFrom(shape: seq<nat>, d: nat)
    requires Size(shape) > 0 && d <= |shape|
    ensures Size(shape[d..]) > 0
    decreases d
  {
    if d == 0 {
      assert shape[0..] == shape;
    } else {
      TimesPositive(shape[0], Size(shape[1..]));
      SizesPositiveFrom(shape[1..], d - 1);
      assert shape[1..][d - 1..] == shape[d..];
    }
  }

  lemma {:induction false} SizesPositive(shape: seq<nat>)
    requires Size(shape) > 0
    ensures forall i :: 0 <= i < |shape| ==> shape[i] > 0
    decreases |shape|
  {
    if shape != [] {
      TimesPositive(shape[0], Size(shape[1..]));
      SizesPositive(shape[1..]);
    }
  }
}

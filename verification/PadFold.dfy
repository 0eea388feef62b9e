/** Folding of `pad` with an odometer over the input indices. */
module PadFold {
  import opened IndexArithmetic
  import opened Options
  import opened RowMajor

  /** Padding of one tensor: edges and gaps between neighbours, per dimension. */
  datatype Padding = Padding(low: seq<nat>, high: seq<nat>, interior: seq<nat>)

  predicate FitsRank(p: Padding, rank: nat) {
    |p.low| == |p.high| == |p.interior| == rank
  }

  /** The result shape of the operation. */
  predicate PaddedShape(p: Padding, inShape: seq<nat>, outShape: seq<nat>) {
    && FitsRank(p, |inShape|) && |outShape| == |inShape|
    && forall i :: 0 <= i < |inShape| ==> outShape[i] == p.low[i] + Spread(inShape[i], p.interior[i]) + p.high[i]
  }

  function Spread(n: nat, interior: nat): nat {
    if n == 0 then 0 else (n - 1) * (interior + 1) + 1
  }

  /** Where the input element at `k` goes. */
  function Target(p: Padding, k: seq<nat>): (t: seq<nat>)
    requires FitsRank(p, |k|)
    ensures |t| == |k| && forall i :: 0 <= i < |k| ==> t[i] == p.low[i] + k[i] * (p.interior[i] + 1)
  {
    seq(|k|, i requires 0 <= i < |k| => p.low[i] + k[i] * (p.interior[i] + 1))
  }

  /** Coordinate `x` of the result holds an input element of a dimension with `n` elements. */
  predicate OnInput(x: nat, low: nat, interior: nat, n: nat) {
    x >= low && (x - low) % (interior + 1) == 0 && (x - low) / (interior + 1) < n
  }

  predicate HoldsInput(p: Padding, inShape: seq<nat>, index: seq<nat>)
    requires FitsRank(p, |inShape|) && |index| == |inShape|
  {
    forall i :: 0 <= i < |inShape| ==> OnInput(index[i], p.low[i], p.interior[i], inShape[i])
  }

  function InputIndex(p: Padding, inShape: seq<nat>, index: seq<nat>): (k: seq<nat>)
    requires FitsRank(p, |inShape|) && |index| == |inShape| && HoldsInput(p, inShape, index)
    ensures InBounds(inShape, k)
  {
    seq(|inShape|, i requires 0 <= i < |inShape| =>
      assert OnInput(index[i], p.low[i], p.interior[i], inShape[i]);
      (index[i] - p.low[i]) / (p.interior[i] + 1))
  }

  /** The element of the padded tensor at a multi-index. */
  function PadAt<T>(p: Padding, inShape: seq<nat>, input: seq<T>, value: T, index: seq<nat>): T
    requires FitsRank(p, |inShape|) && |index| == |inShape| && |input| == Size(inShape)
  {
    if HoldsInput(p, inShape, index) then
      LinearInSize(inShape, InputIndex(p, inShape, index));
      input[Linear(inShape, InputIndex(p, inShape, index))]
    else value
  }

  lemma TargetInBounds(p: Padding, inShape: seq<nat>, outShape: seq<nat>, k: seq<nat>)
    requires PaddedShape(p, inShape, outShape) && InBounds(inShape, k)
    ensures InBounds(outShape, Target(p, k))
  {
    forall i | 0 <= i < |k|
      ensures Target(p, k)[i] < outShape[i]
    {
      MulMonotone(p.interior[i] + 1, k[i], inShape[i] - 1);
    }
  }

  /** The target of `k` is the one result index that holds input element `k`. */
  lemma TargetHoldsInput(p: Padding, inShape: seq<nat>, k: seq<nat>)
    requires FitsRank(p, |inShape|) && InBounds(inShape, k)
    ensures HoldsInput(p, inShape, Target(p, k)) && InputIndex(p, inShape, Target(p, k)) == k
  {
    forall i | 0 <= i < |k|
      ensures OnInput(Target(p, k)[i], p.low[i], p.interior[i], inShape[i])
      ensures (Target(p, k)[i] - p.low[i]) / (p.interior[i] + 1) == k[i]
    {
      DivMod(k[i] * (p.interior[i] + 1), p.interior[i] + 1, k[i], 0);
    }
  }

  lemma InputIndexTarget(p: Padding, inShape: seq<nat>, index: seq<nat>)
    requires FitsRank(p, |inShape|) && |index| == |inShape| && HoldsInput(p, inShape, index)
    ensures Target(p, InputIndex(p, inShape, index)) == index
  {
    var k := InputIndex(p, inShape, index);
    forall i | 0 <= i < |index|
      ensures Target(p, k)[i] == index[i]
    {
      assert OnInput(index[i], p.low[i], p.interior[i], inShape[i]);
    }
  }

  // ---------------------------------------------------------------- the odometer

  /** Coordinates behind `i` have run out: they are at their maximum and start again at zero. */
  lemma {:induction false} LastAndFirst(shape: seq<nat>, last: seq<nat>, first: seq<nat>)
    requires InBounds(shape, last) && InBounds(shape, first)
    requires forall j :: 0 <= j < |shape| ==> last[j] == shape[j] - 1 && first[j] == 0
    ensures Size(shape) > 0 && Linear(shape, last) == Size(shape) - 1 && Linear(shape, first) == 0
    decreases |shape|
  {
    if shape != [] {
      LastAndFirst(shape[1..], last[1..], first[1..]);
      TimesPositive(shape[0], Size(shape[1..]));
    }
  }

  lemma RunOut(shape: seq<nat>, was: seq<nat>, now: seq<nat>, i: nat)
    requires InBounds(shape, was) && InBounds(shape, now) && i < |shape|
    requires forall j :: i < j < |shape| ==> was[j] == shape[j] - 1 && now[j] == 0
    ensures Linear(shape[i + 1..], was[i + 1..]) == Size(shape[i + 1..]) - 1
    ensures Linear(shape[i + 1..], now[i + 1..]) == 0
  {
    LastAndFirst(shape[i + 1..], was[i + 1..], now[i + 1..]);
  }

  lemma OdometerStep(shape: seq<nat>, was: seq<nat>, now: seq<nat>, i: nat)
    requires InBounds(shape, was) && InBounds(shape, now) && i < |shape|
    requires now[..i] == was[..i] && now[i] == was[i] + 1
    requires forall j :: i < j < |shape| ==> was[j] == shape[j] - 1 && now[j] == 0
    ensures Linear(shape, now) == Linear(shape, was) + 1
  {
    RunOut(shape, was, now, i);
    var block, stride, size := Linear(shape[..i], was[..i]), Size(shape[i..]), Size(shape[i + 1..]);
    assert Linear(shape, was) == FlatAt(block, stride, was[i], size, size - 1) by {
      LinearAround(shape, i, was);
    }
    assert Linear(shape, now) == FlatAt(block, stride, was[i] + 1, size, 0) by {
      LinearAround(shape, i, now);
    }
    FlatAtNext(block, stride, was[i], size);
  }

  /** Moves to the next multi-index in row-major order, and from the last one to the first. */
  method NextIndex(index: array<nat>, shape: seq<nat>)
    requires InBounds(shape, index[..])
    modifies index
    ensures InBounds(shape, index[..])
    ensures Linear(shape, old(index[..])) + 1 < Size(shape) ==>
              Linear(shape, index[..]) == Linear(shape, old(index[..])) + 1
    ensures Linear(shape, old(index[..])) + 1 == Size(shape) ==> Linear(shape, index[..]) == 0
  {
    ghost var was := index[..];
    var i := index.Length - 1;
    while i >= 0
      invariant -1 <= i < index.Length
      invariant InBounds(shape, index[..])
      invariant index[..i + 1] == was[..i + 1]
      invariant forall j :: i < j < index.Length ==> was[j] == shape[j] - 1 && index[j] == 0
    {
      assert index[i] == index[..i + 1][i] == was[i];
      index[i] := index[i] + 1;
      if index[i] < shape[i] {
        assert index[..i] == was[..i + 1][..i];
        OdometerStep(shape, was, index[..], i);
        LinearInSize(shape, index[..]);
        return;
      }
      index[i] := 0;
      i := i - 1;
      assert index[..i + 1] == was[..i + 2][..i + 1];
    }
    LastAndFirst(shape, was, index[..]);
  }

  // ---------------------------------------------------------------- filling the result

  /** One more dimension of the sum and of the product. */
  lemma TargetStep(outShape: seq<nat>, t: seq<nat>, i: nat)
    requires i < |outShape| == |t|
    ensures Linear(outShape[i..], t[i..]) == Linear(outShape[i + 1..], t[i + 1..]) + t[i] * Size(outShape[i + 1..])
    ensures Size(outShape[i..]) == Size(outShape[i + 1..]) * outShape[i]
  {
    DropOne(outShape, i);
    DropOne(t, i);
    TimesIsProduct(t[i], Size(outShape[i + 1..]));
    TimesIsProduct(outShape[i], Size(outShape[i + 1..]));
  }

  /** The flat result position of the input element at `index`. */
  method TargetPosition(index: array<nat>, p: Padding, outShape: seq<nat>) returns (resultIdx: nat)
    requires FitsRank(p, index.Length) && |outShape| == index.Length
    ensures resultIdx == Linear(outShape, Target(p, index[..]))
  {
    resultIdx := 0;
    var idxMultiplyer := 1;
    ghost var t := Target(p, index[..]);
    for i := index.Length downto 0
      invariant resultIdx == Linear(outShape[i..], t[i..])
      invariant idxMultiplyer == Size(outShape[i..])
    {
      TargetStep(outShape, t, i);
      resultIdx := resultIdx + (p.low[i] + index[i] * (p.interior[i] + 1)) * idxMultiplyer;
      idxMultiplyer := idxMultiplyer * outShape[i];
    }
    assert outShape[0..] == outShape && t[0..] == t;
  }

  /** The result after the first `n` input elements were copied. */
  ghost predicate CopiedBelow<T>(p: Padding, inShape: seq<nat>, outShape: seq<nat>, input: seq<T>, value: T,
                                 result: seq<T>, n: nat)
    requires FitsRank(p, |inShape|) && |outShape| == |inShape| && |input| == Size(inShape) && |result| == Size(outShape)
  {
    forall index :: InBounds(outShape, index) ==>
                      Linear(outShape, index) < |result|
                      && result[Linear(outShape, index)] == CopiedAt(p, inShape, input, value, index, n)
  }

  function CopiedAt<T>(p: Padding, inShape: seq<nat>, input: seq<T>, value: T, index: seq<nat>, n: nat): T
    requires FitsRank(p, |inShape|) && |index| == |inShape| && |input| == Size(inShape)
  {
    if HoldsInput(p, inShape, index) && Linear(inShape, InputIndex(p, inShape, index)) < n then
      LinearInSize(inShape, InputIndex(p, inShape, index));
      input[Linear(inShape, InputIndex(p, inShape, index))]
    else value
  }

  lemma CopyNext<T>(p: Padding, inShape: seq<nat>, outShape: seq<nat>, input: seq<T>, value: T, result: seq<T>,
                    n: nat, k: seq<nat>)
    requires PaddedShape(p, inShape, outShape) && |input| == Size(inShape) && |result| == Size(outShape)
    requires CopiedBelow(p, inShape, outShape, input, value, result, n)
    requires InBounds(inShape, k) && Linear(inShape, k) == n < |input|
    ensures Linear(outShape, Target(p, k)) < |result|
    ensures CopiedBelow(p, inShape, outShape, input, value, result[Linear(outShape, Target(p, k)) := input[n]], n + 1)
  {
    var t := Target(p, k);
    TargetInBounds(p, inShape, outShape, k);
    LinearInSize(outShape, t);
    TargetHoldsInput(p, inShape, k);
    var after := result[Linear(outShape, t) := input[n]];
    forall index | InBounds(outShape, index)
      ensures Linear(outShape, index) < |after|
      ensures after[Linear(outShape, index)] == CopiedAt(p, inShape, input, value, index, n + 1)
    {
      LinearInSize(outShape, index);
      if Linear(outShape, index) == Linear(outShape, t) {
        LinearInjective(outShape, index, t);
      } else if HoldsInput(p, inShape, index) && Linear(inShape, InputIndex(p, inShape, index)) == n {
        LinearInjective(inShape, InputIndex(p, inShape, index), k);
        InputIndexTarget(p, inShape, index);
      }
    }
  }

  /** The padded tensor, unless it is too large to fold. */
  method FoldPad<T>(input: seq<T>, value: T, inShape: seq<nat>, p: Padding, outShape: seq<nat>)
    returns (folded: Option<seq<T>>)
    requires |input| == Size(inShape) && PaddedShape(p, inShape, outShape)
    ensures folded.None? <==> Size(outShape) > FOLD_OP_ELT_LIMIT
    ensures folded.Some? ==> |folded.value| == Size(outShape)
    ensures folded.Some? ==>
              forall index :: InBounds(outShape, index) ==>
                                Linear(outShape, index) < |folded.value|
                                && folded.value[Linear(outShape, index)] == PadAt(p, inShape, input, value, index)
  {
    var numResults := Size(outShape);
    if numResults > FOLD_OP_ELT_LIMIT {
      return None;
    }
    var result := new T[numResults](i => value);
    var index := new nat[|inShape|](i => 0);
    StartCopy(p, inShape, outShape, input, value, result[..], index[..]);
    for operandIdx := 0 to |input|
      invariant CopiedBelow(p, inShape, outShape, input, value, result[..], operandIdx)
      invariant operandIdx < |input| ==> InBounds(inShape, index[..]) && Linear(inShape, index[..]) == operandIdx
    {
      CopyNext(p, inShape, outShape, input, value, result[..], operandIdx, index[..]);
      var resultIdx := TargetPosition(index, p, outShape);
      ghost var was := result[..];
      result[resultIdx] := input[operandIdx];
      assert result[..] == was[resultIdx := input[operandIdx]];
      NextIndex(index, inShape);
    }
    EndCopy(p, inShape, outShape, input, value, result[..]);
    return Some(result[..]);
  }

  lemma StartCopy<T>(p: Padding, inShape: seq<nat>, outShape: seq<nat>, input: seq<T>, value: T, result: seq<T>,
                     index: seq<nat>)
    requires PaddedShape(p, inShape, outShape) && |input| == Size(inShape) && |result| == Size(outShape)
    requires forall i :: 0 <= i < |result| ==> result[i] == value
    requires |index| == |inShape| && forall i :: 0 <= i < |index| ==> index[i] == 0
    ensures CopiedBelow(p, inShape, outShape, input, value, result, 0)
    ensures |input| > 0 ==> InBounds(inShape, index) && Linear(inShape, index) == 0
  {
    forall index | InBounds(outShape, index)
      ensures Linear(outShape, index) < |result|
    {
      LinearInSize(outShape, index);
    }
    if |input| > 0 {
      SizesPositive(inShape);
      LastAndFirst(inShape, seq(|inShape|, i requires 0 <= i < |inShape| => inShape[i] - 1), index);
    }
  }

  lemma EndCopy<T>(p: Padding, inShape: seq<nat>, outShape: seq<nat>, input: seq<T>, value: T, result: seq<T>)
    requires PaddedShape(p, inShape, outShape) && |input| == Size(inShape) && |result| == Size(outShape)
    requires CopiedBelow(p, inShape, outShape, input, value, result, |input|)
    ensures forall index :: InBounds(outShape, index) ==>
                              Linear(outShape, index) < |result|
                              && result[Linear(outShape, index)] == PadAt(p, inShape, input, value, index)
  {
    forall index | InBounds(outShape, index)
      ensures Linear(outShape, index) < |result|
      ensures result[Linear(outShape, index)] == PadAt(p, inShape, input, value, index)
    {
      assert result[Linear(outShape, index)] == CopiedAt(p, inShape, input, value, index, |input|);
      if HoldsInput(p, inShape, index) {
        LinearInSize(inShape, InputIndex(p, inShape, index));
      }
    }
  }

  /** Every input element appears in the result exactly once, and every other element is the value. */
  lemma PadKeepsInput<T>(p: Padding, inShape: seq<nat>, outShape: seq<nat>, input: seq<T>, value: T, k: seq<nat>)
    requires PaddedShape(p, inShape, outShape) && |input| == Size(inShape) && InBounds(inShape, k)
    ensures InBounds(outShape, Target(p, k)) && Linear(inShape, k) < |input|
    ensures PadAt(p, inShape, input, value, Target(p, k)) == input[Linear(inShape, k)]
    ensures forall index :: (InBounds(outShape, index) && HoldsInput(p, inShape, index)
                             && InputIndex(p, inShape, index) == k) ==> index == Target(p, k)
  {
    TargetInBounds(p, inShape, outShape, k);
    TargetHoldsInput(p, inShape, k);
    LinearInSize(inShape, k);
    forall index | InBounds(outShape, index) && HoldsInput(p, inShape, index) && InputIndex(p, inShape, index) == k
      ensures index == Target(p, k)
    {
      InputIndexTarget(p, inShape, index);
    }
  }
}

/** The program emitted for the minimum broadcast shapes of `k` shape buffers. */
module MinimumBroadcast {
  import opened BroadcastColumns

  function MaxRank(shapes: seq<seq<nat>>): (m: nat)
    ensures forall i :: 0 <= i < |shapes| ==> |shapes[i]| <= m
  {
    if shapes == [] then 0
    else
      var k := |shapes| - 1;
      if |shapes[k]| > MaxRank(shapes[..k]) then |shapes[k]| else MaxRank(shapes[..k])
  }

  /** The groups of adjacent dimensions that the shapes are reduced to, the last one first. */
  function Groups(shapes: seq<seq<nat>>): seq<Column> {
    Collapse(Columns(shapes, MaxRank(shapes)))
  }

  /** `results` are the groups again, each shape cut off in front of its first size that is not one. */
  ghost predicate MinimumShapes(shapes: seq<seq<nat>>, results: seq<seq<nat>>) {
    var g := Groups(shapes);
    && |results| == |shapes| && Wide(g, |shapes|)
    && forall i :: 0 <= i < |results| ==>
                     && |results[i]| <= |g|
                     && (results[i] == [] || results[i][0] != 1)
                     && forall j :: 0 <= j < |g| ==> SizeAt(results[i], j + 1) == OwnSize(g[j], i)
  }

  // ---------------------------------------------------------------- columns of shapes

  lemma {:induction false} CommonSizeIsOwn(shapes: seq<seq<nat>>, v: nat)
    requires v > 0
    ensures CommonSize(shapes, v) == 1 <==> forall i :: 0 <= i < |shapes| ==> SizeAt(shapes[i], v) == 1
    ensures !Clash(shapes, v) ==>
              forall i :: 0 <= i < |shapes| && SizeAt(shapes[i], v) != 1 ==>
                SizeAt(shapes[i], v) == CommonSize(shapes, v)
    decreases |shapes|
  {
    if shapes != [] {
      var k := |shapes| - 1;
      CommonSizeIsOwn(shapes[..k], v);
      assert forall i :: 0 <= i < k ==> shapes[..k][i] == shapes[i];
      if !Clash(shapes, v) {
        assert !Clash(shapes[..k], v);
        if SizeAt(shapes[k], v) != 1 {
          forall i | 0 <= i < k && SizeAt(shapes[i], v) != 1
            ensures SizeAt(shapes[i], v) == SizeAt(shapes[k], v)
          {
          }
        }
      }
    }
  }

  /** The clash flag of one more shape. */
  lemma ClashSnoc(shapes: seq<seq<nat>>, s: seq<nat>, v: nat)
    requires v > 0
    ensures Clash(shapes + [s], v)
       <==> Clash(shapes, v)
            || (CommonSize(shapes, v) != 1 && SizeAt(s, v) != 1 && CommonSize(shapes, v) != SizeAt(s, v))
  {
    var longer, k := shapes + [s], |shapes|;
    CommonSizeIsOwn(shapes, v);
    if Clash(shapes, v) {
      var i, j :| 0 <= i < j < k && SizeAt(shapes[i], v) != 1 && SizeAt(shapes[j], v) != 1
                  && SizeAt(shapes[i], v) != SizeAt(shapes[j], v);
      assert longer[i] == shapes[i] && longer[j] == shapes[j];
    } else {
      assert forall i :: 0 <= i < k ==> longer[i] == shapes[i];
      if CommonSize(shapes, v) != 1 && SizeAt(s, v) != 1 && CommonSize(shapes, v) != SizeAt(s, v) {
        var i :| 0 <= i < k && SizeAt(shapes[i], v) != 1;
        assert SizeAt(longer[i], v) != SizeAt(longer[k], v);
      }
    }
  }

  lemma ColumnsAreProper(shapes: seq<seq<nat>>, n: nat)
    ensures Proper(Columns(shapes, n), |shapes|)
  {
    forall j | 0 <= j < n
      ensures ProperColumn(Columns(shapes, n)[j], |shapes|)
    {
      CommonSizeIsOwn(shapes, j + 1);
      var c := ColumnAt(shapes, j + 1);
      assert forall i :: 0 <= i < |shapes| ==> c.own[i] == (SizeAt(shapes[i], j + 1) != 1);
    }
  }

  lemma ColumnBeyondRank(shapes: seq<seq<nat>>, v: nat)
    requires v > MaxRank(shapes)
    ensures CommonSize(shapes, v) == 1 && !Clash(shapes, v)
  {
    CommonSizeIsOwn(shapes, v);
  }

  /** Where a shape takes part in a group it is longer than the group's place. */
  ghost predicate Fits(g: seq<Column>, shapes: seq<seq<nat>>) {
    forall j, i :: 0 <= j < |g| && 0 <= i < |shapes| && i < |g[j].own| && g[j].own[i] ==> j < |shapes[i]|
  }

  lemma AbsorbFits(g: seq<Column>, c: Column, shapes: seq<seq<nat>>)
    requires Fits(g, shapes)
    requires forall i :: 0 <= i < |shapes| && i < |c.own| && c.own[i] ==> |g| < |shapes[i]|
    ensures Fits(Absorb(g, c), shapes)
  {
  }

  /** A shape takes part in a group only if it is long enough to store the group's size. */
  lemma {:induction false} GroupsFit(shapes: seq<seq<nat>>, n: nat)
    ensures var g := Collapse(Columns(shapes, n));
            |g| <= n && Proper(g, |shapes|) && Fits(g, shapes)
  {
    ColumnsAreProper(shapes, n);
    CollapsedGroups(Columns(shapes, n), |shapes|);
    if n > 0 {
      GroupsFit(shapes, n - 1);
      assert Columns(shapes, n)[..n - 1] == Columns(shapes, n - 1);
      AbsorbFits(Collapse(Columns(shapes, n - 1)), ColumnAt(shapes, n), shapes);
    }
  }

  // ---------------------------------------------------------------- the emitted program

  ghost predicate Holds(buffers: seq<array<nat>>, values: seq<seq<nat>>)
    reads buffers
  {
    |buffers| == |values| && forall i :: 0 <= i < |buffers| ==> buffers[i][..] == values[i]
  }

  ghost predicate Apart(buffers: seq<array<nat>>) {
    forall i, j :: 0 <= i < |buffers| && 0 <= j < |buffers| && i != j ==> buffers[i] != buffers[j]
  }

  /** Every group says whether shape `i` takes part in it. */
  predicate Describes(g: seq<Column>, i: nat) {
    forall j :: 0 <= j < |g| ==> i < |g[j].own|
  }

  /** The size of shape `i` in group `j`, one beyond the groups. */
  function GroupSize(g: seq<Column>, i: nat, j: int): nat
    requires Describes(g, i)
  {
    if 0 <= j < |g| then OwnSize(g[j], i) else 1
  }

  /** A result buffer after the given groups were stored from its end; the rest is one. */
  function Stored(g: seq<Column>, i: nat, rank: nat): (s: seq<nat>)
    requires Describes(g, i)
    ensures |s| == rank && forall p :: 0 <= p < rank ==> s[p] == GroupSize(g, i, rank - 1 - p)
  {
    seq(rank, p requires 0 <= p < rank => GroupSize(g, i, rank - 1 - p))
  }

  ghost predicate StoredAll(results: seq<array<nat>>, g: seq<Column>, ranks: seq<nat>)
    reads results
  {
    && |results| == |ranks|
    && forall i :: 0 <= i < |results| ==> Describes(g, i) && results[i][..] == Stored(g, i, ranks[i])
  }

  /** One more shape: its size is the common one from now on, unless it is one. */
  lemma ColumnSoFar(values: seq<seq<nat>>, i: nat, v: nat)
    requires v > 0 && i < |values|
    ensures
      var size, common := SizeAt(values[i], v), CommonSize(values[..i], v);
      && CommonSize(values[..i + 1], v) == (if size != 1 then size else common)
      && (Clash(values[..i + 1], v) <==> Clash(values[..i], v) || (common != 1 && size != 1 && common != size))
  {
    assert values[..i + 1] == values[..i] + [values[i]] && values[..i + 1][..i] == values[..i];
    ClashSnoc(values[..i], values[i], v);
  }

  /** Looks at every shape `v` places from its end. */
  method ClassifyColumn(shapes: seq<array<nat>>, v: nat, ghost values: seq<seq<nat>>)
    returns (noBroadcasting: seq<bool>, sameSize: nat, clash: bool)
    requires v > 0 && Holds(shapes, values)
    ensures ColumnAt(values, v) == Column(sameSize, noBroadcasting)
    ensures clash <==> Clash(values, v)
  {
    noBroadcasting, sameSize, clash := [], 1, false;
    for i := 0 to |shapes|
      invariant sameSize == CommonSize(values[..i], v)
      invariant clash <==> Clash(values[..i], v)
      invariant |noBroadcasting| == i
      invariant forall j :: 0 <= j < i ==> noBroadcasting[j] == (SizeAt(values[j], v) != 1)
    {
      var currentSize := 1;
      if shapes[i].Length >= v {
        currentSize := shapes[i][shapes[i].Length - v];
      }
      assert currentSize == SizeAt(values[i], v);
      noBroadcasting := noBroadcasting + [currentSize != 1];
      var newSameSize := if currentSize != 1 then currentSize else sameSize;
      clash := clash || (sameSize != 1 && sameSize != newSameSize);
      ColumnSoFar(values, i, v);
      sameSize := newSameSize;
    }
    assert values[..|shapes|] == values;
  }

  /** Ends a group: stores its size from the end of every shape that takes part in it. */
  method StoreDimension(results: seq<array<nat>>, ranks: seq<nat>, prev: seq<bool>, runningProduct: nat,
                        newOffset: nat, v: nat, ghost g: seq<Column>)
    requires Apart(results) && StoredAll(results, g, ranks) && |prev| == |ranks|
    requires newOffset == |g| + 1 <= v - 1
    requires forall i :: 0 <= i < |ranks| && prev[i] ==> newOffset <= ranks[i]
    modifies results
    ensures StoredAll(results, g + [Column(runningProduct, prev)], ranks)
  {
    ghost var longer := g + [Column(runningProduct, prev)];
    forall i | 0 <= i < |ranks|
      ensures Describes(longer, i)
    {
      assert results[i][..] == Stored(g, i, ranks[i]);
    }
    for i := 0 to |results|
      invariant forall j :: 0 <= j < i ==> results[j][..] == Stored(longer, j, ranks[j])
      invariant forall j :: i <= j < |results| ==> results[j][..] == Stored(g, j, ranks[j])
    {
      var wasInBounds := ranks[i] - v >= -1;
      assert results[i][..] == Stored(g, i, ranks[i]);
      if wasInBounds || prev[i] {
        var outputDimension := ranks[i] - newOffset;
        results[i][outputDimension] := if prev[i] then runningProduct else 1;
      }
      assert results[i][..] == Stored(longer, i, ranks[i]);
    }
  }

  // ---------------------------------------------------------------- running groups

  /** What the loop carries: the last group is still open, its size is the running product. */
  ghost predicate Carries(g: seq<Column>, k: nat, prev: seq<bool>, runningProduct: nat, offset: nat) {
    && |prev| == k
    && if g == [] then runningProduct == 1 && offset == 0 && forall i :: 0 <= i < k ==> !prev[i]
       else offset == |g| - 1 && g[|g| - 1] == Column(runningProduct, prev) && runningProduct != 1
  }

  /** How the loop decides what to do with a column agrees with how the columns are collapsed. */
  lemma CarriesNext(g: seq<Column>, c: Column, k: nat, prev: seq<bool>, runningProduct: nat, offset: nat)
    requires Carries(g, k, prev, runningProduct, offset) && ProperColumn(c, k)
    ensures c.size == 1 ==> Absorb(g, c) == g && Carries(g, k, prev, runningProduct * c.size, offset)
    ensures c.size != 1 && c.own == prev ==> Carries(Absorb(g, c), k, prev, runningProduct * c.size, offset)
    ensures c.size != 1 && c.own != prev ==> Absorb(g, c) == g + [c] && Carries(Absorb(g, c), k, c.own, c.size, |g|)
  {
    if c.size != 1 && g != [] {
      NonUnitProduct(runningProduct, c.size);
    }
  }

  /** The last group of the first `n` columns, and each group before it, has room in its shapes. */
  lemma OpenGroupFits(shapes: seq<seq<nat>>, n: nat, prev: seq<bool>, runningProduct: nat, offset: nat)
    requires Carries(Collapse(Columns(shapes, n)), |shapes|, prev, runningProduct, offset)
    ensures runningProduct != 1 ==> offset + 1 <= n
    ensures forall i :: 0 <= i < |shapes| && prev[i] ==> offset + 1 <= |shapes[i]|
  {
    GroupsFit(shapes, n);
  }

  /** Closes the open group, if there is one. */
  method CloseGroup(results: seq<array<nat>>, ranks: seq<nat>, prev: seq<bool>, runningProduct: nat, offset: nat,
                    v: nat, ghost g: seq<Column>) returns (newOffset: nat)
    requires Apart(results) && Carries(g, |ranks|, prev, runningProduct, offset)
    requires StoredAll(results, g[..offset], ranks)
    requires runningProduct != 1 ==> offset + 1 <= v - 1
    requires forall i :: 0 <= i < |ranks| && prev[i] ==> offset + 1 <= ranks[i]
    modifies results
    ensures StoredAll(results, g, ranks) && newOffset == |g|
  {
    newOffset := offset;
    if runningProduct != 1 {
      newOffset := offset + 1;
      StoreDimension(results, ranks, prev, runningProduct, newOffset, v, g[..offset]);
      assert g == g[..offset] + [Column(runningProduct, prev)];
    } else {
      assert g[..offset] == g;
    }
  }

  /** The state of the main loop: `g` are the groups so far, and all but the open one are stored. */
  ghost predicate LoopState(g: seq<Column>, results: seq<array<nat>>, ranks: seq<nat>,
                            prev: seq<bool>, runningProduct: nat, offset: nat)
    reads results
  {
    Carries(g, |ranks|, prev, runningProduct, offset) && StoredAll(results, g[..offset], ranks)
  }

  /** The facts about column `v` that one round of the loop relies on. */
  lemma NextColumn(values: seq<seq<nat>>, v: nat, prev: seq<bool>, runningProduct: nat, offset: nat)
    requires v > 0
    requires Carries(Collapse(Columns(values, v - 1)), |values|, prev, runningProduct, offset)
    ensures Collapse(Columns(values, v)) == Absorb(Collapse(Columns(values, v - 1)), ColumnAt(values, v))
    ensures ProperColumn(ColumnAt(values, v), |values|)
    ensures runningProduct != 1 ==> offset + 1 <= v - 1
    ensures forall i :: 0 <= i < |values| && prev[i] ==> offset + 1 <= |values[i]|
  {
    ColumnsAreProper(values, v);
    assert ProperColumn(Columns(values, v)[v - 1], |values|);
    assert Columns(values, v)[..v - 1] == Columns(values, v - 1);
    OpenGroupFits(values, v - 1, prev, runningProduct, offset);
  }

  /** Closes the open group or extends it by column `c`, which lies `v` places from the end. */
  method AbsorbColumn(results: seq<array<nat>>, ranks: seq<nat>, maxRank: nat, v: nat, sameSize: nat,
                      noBroadcasting: seq<bool>, prev: seq<bool>, runningProduct: nat, offset: nat,
                      ghost g: seq<Column>)
    returns (nextPrev: seq<bool>, nextProduct: nat, nextOffset: nat)
    requires v > 0 && Apart(results) && ProperColumn(Column(sameSize, noBroadcasting), |ranks|)
    requires LoopState(g, results, ranks, prev, runningProduct, offset)
    requires runningProduct != 1 ==> offset + 1 <= v - 1
    requires forall i :: 0 <= i < |ranks| && prev[i] ==> offset + 1 <= ranks[i]
    modifies results
    ensures v > maxRank ==> StoredAll(results, g, ranks)
    ensures v <= maxRank ==>
              LoopState(Absorb(g, Column(sameSize, noBroadcasting)), results, ranks, nextPrev, nextProduct, nextOffset)
  {
    ghost var c := Column(sameSize, noBroadcasting);
    CarriesNext(g, c, |ranks|, prev, runningProduct, offset);
    nextPrev := if sameSize == 1 then prev else noBroadcasting;
    var differentBroadcastingSet := prev != nextPrev;
    if v > maxRank || differentBroadcastingSet {
      nextOffset := CloseGroup(results, ranks, prev, runningProduct, offset, v, g);
      nextProduct := sameSize;
      assert (g + [c])[..|g|] == g;
    } else {
      nextOffset, nextProduct := offset, runningProduct * sameSize;
      assert Absorb(g, c)[..offset] == g[..offset];
    }
  }

  /** One round of the main loop, for the column `v` places from the end. */
  method ProcessColumn(shapes: seq<array<nat>>, results: seq<array<nat>>, ranks: seq<nat>, maxRank: nat, v: nat,
                       prev: seq<bool>, runningProduct: nat, offset: nat, ghost values: seq<seq<nat>>)
    returns (nextPrev: seq<bool>, nextProduct: nat, nextOffset: nat, clash: bool)
    requires v > 0 && Holds(shapes, values) && |ranks| == |values| && Apart(results)
    requires forall i :: 0 <= i < |ranks| ==> ranks[i] == |values[i]|
    requires LoopState(Collapse(Columns(values, v - 1)), results, ranks, prev, runningProduct, offset)
    modifies results
    ensures clash <==> Clash(values, v)
    ensures v > maxRank ==> StoredAll(results, Collapse(Columns(values, v - 1)), ranks)
    ensures v <= maxRank ==> LoopState(Collapse(Columns(values, v)), results, ranks, nextPrev, nextProduct, nextOffset)
  {
    NextColumn(values, v, prev, runningProduct, offset);
    var noBroadcasting, sameSize;
    noBroadcasting, sameSize, clash := ClassifyColumn(shapes, v, values);
    nextPrev, nextProduct, nextOffset :=
      AbsorbColumn(results, ranks, maxRank, v, sameSize, noBroadcasting, prev, runningProduct, offset,
                   Collapse(Columns(values, v - 1)));
  }

  // ---------------------------------------------------------------- leading ones

  function TrimOnes(s: seq<nat>): seq<nat> {
    if s != [] && s[0] == 1 then TrimOnes(s[1..]) else s
  }

  method CountLeadingOnes(extents: array<nat>) returns (count: nat)
    ensures count <= extents.Length && TrimOnes(extents[..]) == extents[count..]
  {
    count := 0;
    var allOnes := true;
    for idx := 0 to extents.Length
      invariant 0 <= count <= idx
      invariant allOnes ==> count == idx
      invariant TrimOnes(extents[..]) == TrimOnes(extents[count..])
      invariant !allOnes ==> count < idx && extents[count] != 1
    {
      allOnes := allOnes && extents[idx] == 1;
      if allOnes {
        assert extents[count..][1..] == extents[count + 1..];
        count := count + 1;
      }
    }
    assert extents[..] == extents[0..];
  }

  method RemoveLeadingOnes(extents: array<nat>) returns (result: array<nat>)
    ensures fresh(result) && result[..] == TrimOnes(extents[..])
  {
    var leadingOnes := CountLeadingOnes(extents);
    var newRank := extents.Length - leadingOnes;
    result := new nat[newRank];
    for idx := 0 to newRank
      invariant forall p :: 0 <= p < idx ==> result[p] == extents[p + leadingOnes]
    {
      result[idx] := extents[idx + leadingOnes];
    }
  }

  lemma {:induction false} TrimKeepsSizes(s: seq<nat>, v: nat)
    requires v > 0
    ensures SizeAt(TrimOnes(s), v) == SizeAt(s, v)
    ensures |TrimOnes(s)| <= |s| && (TrimOnes(s) == [] || TrimOnes(s)[0] != 1)
    decreases |s|
  {
    if s != [] && s[0] == 1 {
      TrimKeepsSizes(s[1..], v);
    }
  }

  /** Trimming the stored groups gives the minimum shapes. */
  lemma TrimmedIsMinimum(g: seq<Column>, i: nat, rank: nat)
    requires Describes(g, i)
    requires forall j :: 0 <= j < |g| && g[j].own[i] ==> j < rank
    ensures var r := TrimOnes(Stored(g, i, rank));
            && |r| <= |g| && (r == [] || r[0] != 1)
            && forall j :: 0 <= j < |g| ==> SizeAt(r, j + 1) == OwnSize(g[j], i)
  {
    var s := Stored(g, i, rank);
    var r := TrimOnes(s);
    forall j | 0 <= j < |g|
      ensures SizeAt(r, j + 1) == OwnSize(g[j], i)
    {
      TrimKeepsSizes(s, j + 1);
    }
    TrimKeepsSizes(s, 1);
    if |r| > |g| {
      TrimKeepsSizes(s, |r|);
    }
  }

  // ---------------------------------------------------------------- whole program

  method NewOnes(n: nat) returns (a: array<nat>)
    ensures fresh(a) && a.Length == n && a[..] == Stored([], 0, n)
  {
    a := new nat[n];
    for i := 0 to n
      invariant forall p :: 0 <= p < i ==> a[p] == 1
    {
      a[i] := 1;
    }
  }

  /** One more result buffer of ones. */
  method AppendOnes(results: seq<array<nat>>, ghost ranks: seq<nat>, rank: nat) returns (more: seq<array<nat>>)
    requires Apart(results) && StoredAll(results, [], ranks)
    ensures |more| == |results| + 1 && more == results + [more[|results|]] && fresh(more[|results|])
    ensures Apart(more) && StoredAll(more, [], ranks + [rank])
  {
    var ones := NewOnes(rank);
    assert Stored([], |results|, rank) == Stored([], 0, rank);
    more := results + [ones];
  }

  lemma MaxRankSoFar(values: seq<seq<nat>>, i: nat)
    requires i < |values|
    ensures values[..0] == [] && values[..|values|] == values
    ensures MaxRank(values[..i + 1]) == if |values[i]| > MaxRank(values[..i]) then |values[i]| else MaxRank(values[..i])
  {
    assert values[..i + 1][..i] == values[..i];
  }

  /** The ranks, the greatest rank, and one result buffer of ones for each shape. */
  method Prepare(shapes: seq<array<nat>>, ghost values: seq<seq<nat>>)
    returns (ranks: seq<nat>, maxRank: nat, results: seq<array<nat>>)
    requires |shapes| > 0 && Holds(shapes, values)
    ensures |ranks| == |values| && forall i :: 0 <= i < |ranks| ==> ranks[i] == |values[i]|
    ensures maxRank == MaxRank(values)
    ensures fresh(results) && Apart(results) && StoredAll(results, [], ranks)
  {
    ranks, results := [], [];
    maxRank := 0;
    for i := 0 to |shapes|
      invariant |ranks| == i && forall j :: 0 <= j < i ==> ranks[j] == |values[j]|
      invariant maxRank == MaxRank(values[..i])
      invariant fresh(results) && Apart(results) && StoredAll(results, [], ranks)
    {
      var rank := shapes[i].Length;
      MaxRankSoFar(values, i);
      assert values[i] == shapes[i][..];
      maxRank := if i > 0 && rank <= maxRank then maxRank else rank;
      results := AppendOnes(results, ranks, rank);
      ranks := ranks + [rank];
    }
    assert values[..|shapes|] == values;
  }

  /** Some column before `v` clashes. */
  ghost predicate ClashBelow(values: seq<seq<nat>>, v: nat) {
    exists u :: 0 < u < v && Clash(values, u)
  }

  lemma ClashBelowNext(values: seq<seq<nat>>, v: nat)
    requires v > 0
    ensures ClashBelow(values, v + 1) <==> ClashBelow(values, v) || Clash(values, v)
    ensures v > MaxRank(values) + 1 ==> (ClashBelow(values, v) <==> !Compatible(values))
  {
    if v > MaxRank(values) + 1 && !ClashBelow(values, v) {
      forall u | u > 0
        ensures !Clash(values, u)
      {
        if u >= v {
          ColumnBeyondRank(values, u);
        }
      }
    }
  }

  /** The main loop over all columns and one more. */
  method CollapseColumns(shapes: seq<array<nat>>, results: seq<array<nat>>, ranks: seq<nat>, maxRank: nat,
                         ghost values: seq<seq<nat>>) returns (isInvalid: bool)
    requires Holds(shapes, values) && |ranks| == |values| && Apart(results)
    requires forall i, j :: 0 <= i < |shapes| && 0 <= j < |results| ==> shapes[i] != results[j]
    requires forall i :: 0 <= i < |ranks| ==> ranks[i] == |values[i]|
    requires maxRank == MaxRank(values) && StoredAll(results, [], ranks)
    modifies results
    ensures isInvalid <==> !Compatible(values)
    ensures StoredAll(results, Groups(values), ranks)
  {
    var prev: seq<bool>, runningProduct: nat, offset: nat := seq(|ranks|, i => false), 1, 0;
    isInvalid := false;
    for v := 1 to maxRank + 2
      invariant isInvalid <==> ClashBelow(values, v)
      invariant v <= maxRank + 1 ==>
                  LoopState(Collapse(Columns(values, v - 1)), results, ranks, prev, runningProduct, offset)
      invariant v == maxRank + 2 ==> StoredAll(results, Groups(values), ranks)
    {
      var clash;
      prev, runningProduct, offset, clash :=
        ProcessColumn(shapes, results, ranks, maxRank, v, prev, runningProduct, offset, values);
      ClashBelowNext(values, v);
      isInvalid := isInvalid || clash;
    }
    ClashBelowNext(values, maxRank + 2);
  }

  ghost function Values(shapes: seq<array<nat>>): (values: seq<seq<nat>>)
    reads shapes
    ensures Holds(shapes, values)
  {
    seq(|shapes|, i requires 0 <= i < |shapes| reads shapes => shapes[i][..])
  }

  /** Trims every buffer, and takes the given shapes instead if they cannot be broadcast. */
  method SelectShapes(shapes: seq<array<nat>>, buffers: seq<array<nat>>, isInvalid: bool)
    returns (results: seq<array<nat>>)
    requires |shapes| == |buffers|
    ensures |results| == |shapes|
    ensures isInvalid ==> results == shapes
    ensures !isInvalid ==> forall j :: 0 <= j < |results| ==> results[j][..] == TrimOnes(buffers[j][..])
  {
    results := [];
    for i := 0 to |shapes|
      invariant |results| == i
      invariant isInvalid ==> results == shapes[..i]
      invariant !isInvalid ==> forall j :: 0 <= j < i ==> results[j][..] == TrimOnes(buffers[j][..])
    {
      var trimmed := RemoveLeadingOnes(buffers[i]);
      results := results + [if isInvalid then shapes[i] else trimmed];
    }
  }

  lemma TrimmedAreMinimum(values: seq<seq<nat>>, ranks: seq<nat>, results: seq<seq<nat>>)
    requires |results| == |values| == |ranks| && forall i :: 0 <= i < |ranks| ==> ranks[i] == |values[i]|
    requires forall j :: 0 <= j < |results| ==>
               Describes(Groups(values), j) && results[j] == TrimOnes(Stored(Groups(values), j, ranks[j]))
    ensures MinimumShapes(values, results)
  {
    var g := Groups(values);
    GroupsFit(values, MaxRank(values));
    forall i | 0 <= i < |results|
      ensures |results[i]| <= |g| && (results[i] == [] || results[i][0] != 1)
      ensures forall j :: 0 <= j < |g| ==> SizeAt(results[i], j + 1) == OwnSize(g[j], i)
    {
      TrimmedIsMinimum(g, i, ranks[i]);
    }
  }

  /** The trimmed buffers are the minimum shapes once all groups are stored. */
  method TrimShapes(shapes: seq<array<nat>>, buffers: seq<array<nat>>, ranks: seq<nat>, isInvalid: bool,
                    ghost values: seq<seq<nat>>) returns (results: seq<array<nat>>)
    requires |shapes| == |buffers| == |values| == |ranks| && forall i :: 0 <= i < |ranks| ==> ranks[i] == |values[i]|
    requires StoredAll(buffers, Groups(values), ranks)
    ensures isInvalid ==> results == shapes
    ensures !isInvalid ==> MinimumShapes(values, Values(results))
  {
    results := SelectShapes(shapes, buffers, isInvalid);
    if !isInvalid {
      TrimmedAreMinimum(values, ranks, Values(results));
    }
  }

  /** The minimum broadcast shapes if the shapes can be broadcast, and the given shapes otherwise. */
  method MinimumBroadcastShapes(shapes: seq<array<nat>>) returns (results: seq<array<nat>>)
    requires |shapes| > 0
    ensures Compatible(Values(shapes)) ==> MinimumShapes(Values(shapes), Values(results))
    ensures !Compatible(Values(shapes)) ==> results == shapes
  {
    ghost var values := Values(shapes);
    var ranks, maxRank, buffers := Prepare(shapes, values);
    var isInvalid := CollapseColumns(shapes, buffers, ranks, maxRank, values);
    results := TrimShapes(shapes, buffers, ranks, isInvalid, values);
  }

  // ---------------------------------------------------------------- what the result means

  function RightAligned(shape: seq<nat>, n: nat): (s: seq<nat>)
    ensures |s| == n && forall j :: 0 <= j < n ==> s[j] == SizeAt(shape, j + 1)
  {
    seq(n, j requires 0 <= j < n => SizeAt(shape, j + 1))
  }

  lemma {:induction false} RightAlignedCount(shape: seq<nat>, n: nat)
    requires |shape| <= n
    ensures Product(RightAligned(shape, n)) == Product(shape)
    decreases n
  {
    if n > 0 {
      var s := RightAligned(shape, n);
      if |shape| < n {
        RightAlignedCount(shape, n - 1);
        assert s[..n - 1] == RightAligned(shape, n - 1);
      } else {
        RightAlignedCount(shape[1..], n - 1);
        assert s[..n - 1] == RightAligned(shape[1..], n - 1);
        ProductFront(shape);
      }
    } else {
      assert shape == [] == RightAligned(shape, n);
    }
  }

  /** In compatible shapes every size is one or the common size of its column. */
  lemma CompatibleSizes(shapes: seq<seq<nat>>, n: nat, i: nat)
    requires Compatible(shapes) && i < |shapes|
    ensures RightAligned(shapes[i], n) == OwnSizes(Columns(shapes, n), i)
  {
    forall j | 0 <= j < n
      ensures RightAligned(shapes[i], n)[j] == OwnSizes(Columns(shapes, n), i)[j]
    {
      CommonSizeIsOwn(shapes, j + 1);
    }
  }

  lemma MinimumShapesAgree(shapes: seq<seq<nat>>, results: seq<seq<nat>>, v: nat)
    requires MinimumShapes(shapes, results) && v > 0
    ensures !Clash(results, v)
  {
    var g := Groups(shapes);
    forall i | 0 <= i < |results|
      ensures SizeAt(results[i], v) == if v <= |g| then OwnSize(g[v - 1], i) else 1
    {
      if v <= |g| {
        assert SizeAt(results[i], (v - 1) + 1) == OwnSize(g[v - 1], i);
      }
    }
  }

  lemma ColumnIsGroup(shapes: seq<seq<nat>>, results: seq<seq<nat>>, c: Column, j: nat)
    requires MinimumShapes(shapes, results) && j < |Groups(shapes)| && c == Groups(shapes)[j]
    requires ProperColumn(c, |shapes|) && c.size != 1
    ensures ColumnAt(results, j + 1) == c
  {
    CommonSizeIsOwn(results, j + 1);
    var own := ColumnAt(results, j + 1).own;
    forall i | 0 <= i < |results|
      ensures own[i] == c.own[i]
    {
      assert SizeAt(results[i], j + 1) == OwnSize(c, i);
    }
    assert own == c.own;
    var i :| 0 <= i < |shapes| && c.own[i];
    assert SizeAt(results[i], j + 1) == OwnSize(c, i);
  }

  /** The columns of the minimum shapes are the groups: in every column a size is one or the
      common size, no column is all ones, and neighbours have different broadcast sets. */
  lemma MinimumShapesColumns(shapes: seq<seq<nat>>, results: seq<seq<nat>>)
    requires MinimumShapes(shapes, results)
    ensures var g := Groups(shapes);
            && Compatible(results) && Columns(results, |g|) == g
            && (forall j :: 0 <= j < |g| ==> g[j].size != 1)
            && (forall j :: 0 < j < |g| ==> g[j - 1].own != g[j].own)
  {
    var g, n := Groups(shapes), MaxRank(shapes);
    ColumnsAreProper(shapes, n);
    CollapsedGroups(Columns(shapes, n), |shapes|);
    forall v | v > 0
      ensures !Clash(results, v)
    {
      MinimumShapesAgree(shapes, results, v);
    }
    forall j | 0 <= j < |g|
      ensures ColumnAt(results, j + 1) == g[j]
    {
      assert ProperColumn(g[j], |shapes|);
      ColumnIsGroup(shapes, results, g[j], j);
    }
  }

  /** No shape changes its number of elements, and neither does the broadcast of all shapes. */
  lemma MinimumShapesCounts(shapes: seq<seq<nat>>, results: seq<seq<nat>>, i: nat)
    requires Compatible(shapes) && MinimumShapes(shapes, results) && i < |shapes|
    ensures Product(results[i]) == Product(shapes[i])
    ensures Product(Sizes(Columns(results, |Groups(shapes)|))) == Product(Sizes(Columns(shapes, MaxRank(shapes))))
  {
    var g, n := Groups(shapes), MaxRank(shapes);
    ColumnsAreProper(shapes, n);
    CollapseKeepsCounts(Columns(shapes, n), |shapes|, i);
    MinimumShapesColumns(shapes, results);
    CompatibleSizes(shapes, n, i);
    CompatibleSizes(results, |g|, i);
    RightAlignedCount(shapes[i], n);
    RightAlignedCount(results[i], |g|);
  }

  /** For every flat index of the broadcast result, shape `i` supplies the same element whether
      the broadcast is taken over the given shapes or over the minimum shapes. */
  lemma MinimumShapesAddressSameData(shapes: seq<seq<nat>>, results: seq<seq<nat>>, i: nat, f: nat)
    requires Compatible(shapes) && MinimumShapes(shapes, results) && i < |shapes|
    requires f < Product(Sizes(Columns(shapes, MaxRank(shapes))))
    ensures var n, m := MaxRank(shapes), |Groups(shapes)|;
            && PositiveSizes(Columns(shapes, n)) && PositiveSizes(Columns(results, m))
            && Address(RightAligned(results[i], m), Sizes(Columns(results, m)), f)
            == Address(RightAligned(shapes[i], n), Sizes(Columns(shapes, n)), f)
  {
    var n, m := MaxRank(shapes), |Groups(shapes)|;
    PositiveProduct(Sizes(Columns(shapes, n)));
    assert forall j :: 0 <= j < n ==> Sizes(Columns(shapes, n))[j] == Columns(shapes, n)[j].size;
    ColumnsAreProper(shapes, n);
    CollapseKeepsAddress(Columns(shapes, n), |shapes|, i, f);
    MinimumShapesColumns(shapes, results);
    CompatibleSizes(shapes, n, i);
    CompatibleSizes(results, m, i);
  }

  lemma {:induction false} PositiveProduct(s: seq<nat>)
    requires Product(s) > 0
    ensures forall j :: 0 <= j < |s| ==> s[j] > 0
    decreases |s|
  {
    if s != [] {
      PositiveProduct(s[..|s| - 1]);
    }
  }
}

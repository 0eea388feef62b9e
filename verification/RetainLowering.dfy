/** The code a retain is lowered to: for every retained memref, a pass over what is left of the allocs. */
module RetainLowering {
  import opened BufferProgram
  import opened DeallocationEnding
  import opened Options

  /** The buffer pointer of an alloc; zero for null. */
  function BufferPointer(alloc: Option<nat>): nat {
    match alloc
    case None => 0
    case Some(b) => b
  }

  /** Allocs that are null or have a non-zero buffer, all different. */
  predicate ProperAllocs(allocs: seq<Option<nat>>) {
    && DistinctAllocs(allocs)
    && forall i :: 0 <= i < |allocs| ==> allocs[i] != Some(0)
  }

  /** An alloc that no memref among the first `j` has taken. */
  function Remaining(allocs: seq<Option<nat>>, retained: seq<nat>, j: nat, i: nat): Option<nat>
    requires i < |allocs| && j <= |retained|
  {
    if allocs[i].Some? && allocs[i].value in retained[..j] then None else allocs[i]
  }

  /** The emitted state: the allocs that remain and their buffers, after `j` memrefs. */
  ghost predicate Left(allocs: seq<Option<nat>>, retained: seq<nat>, j: nat, remaining: seq<Option<nat>>,
                       buffers: seq<nat>)
  {
    && j <= |retained| && |remaining| == |buffers| == |allocs|
    && forall i :: 0 <= i < |allocs| ==>
         remaining[i] == Remaining(allocs, retained, j, i) && buffers[i] == BufferPointer(remaining[i])
  }

  lemma RemainingStep(allocs: seq<Option<nat>>, retained: seq<nat>, j: nat, i: nat)
    requires i < |allocs| && j < |retained|
    ensures Remaining(allocs, retained, j + 1, i)
         == if Remaining(allocs, retained, j, i) == Some(retained[j]) then None
            else Remaining(allocs, retained, j, i)
  {
    assert retained[..j + 1] == retained[..j] + [retained[j]];
  }

  /** In the middle of the pass of memref `j`: the first `i` allocs have been compared. */
  ghost predicate Comparing(allocs: seq<Option<nat>>, retained: seq<nat>, j: nat, i: nat, remaining: seq<Option<nat>>,
                            buffers: seq<nat>, result: Option<nat>)
  {
    && j < |retained| && i <= |allocs| && |remaining| == |buffers| == |allocs|
    && (forall k :: 0 <= k < |allocs| ==>
          remaining[k] == Remaining(allocs, retained, if k < i then j + 1 else j, k)
          && buffers[k] == BufferPointer(remaining[k]))
    && result == (if exists k :: 0 <= k < i && Remaining(allocs, retained, j, k) == Some(retained[j])
                  then Some(retained[j]) else None)
  }

  lemma CompareStep(allocs: seq<Option<nat>>, retained: seq<nat>, j: nat, i: nat, remaining: seq<Option<nat>>,
                    buffers: seq<nat>, result: Option<nat>)
    requires ProperAllocs(allocs) && Comparing(allocs, retained, j, i, remaining, buffers, result) && i < |allocs|
    ensures
      if retained[j] == buffers[i]
      then Comparing(allocs, retained, j, i + 1, remaining[i := None], buffers[i := 0], remaining[i])
      else Comparing(allocs, retained, j, i + 1, remaining, buffers, result)
  {
    RemainingStep(allocs, retained, j, i);
    if retained[j] == buffers[i] {
      if remaining[i].Some? {
        assert Remaining(allocs, retained, j, i) == Some(retained[j]);
      } else {
        assert forall k :: 0 <= k < i + 1 ==> Remaining(allocs, retained, j, k) != Some(0);
      }
    } else {
      assert Remaining(allocs, retained, j, i) != Some(retained[j]);
    }
  }

  /** The result of a whole pass is what the retain promises for the memref. */
  lemma PassResult(allocs: seq<Option<nat>>, retained: seq<nat>, j: nat, remaining: seq<Option<nat>>,
                   buffers: seq<nat>, result: Option<nat>)
    requires Comparing(allocs, retained, j, |allocs|, remaining, buffers, result)
    ensures result == Retained(retained, allocs, j) && Left(allocs, retained, j + 1, remaining, buffers)
  {
    if Some(retained[j]) in allocs && retained[j] !in retained[..j] {
      var k :| 0 <= k < |allocs| && allocs[k] == Some(retained[j]);
      assert Remaining(allocs, retained, j, k) == Some(retained[j]);
    }
  }

  /** Compares one retained memref with every alloc that is left, and removes the match. */
  method MatchRetained(allocs: seq<Option<nat>>, ghost retained: seq<nat>, ghost j: nat, retainedBuffer: nat,
                       remaining0: seq<Option<nat>>, buffers0: seq<nat>)
    returns (remaining: seq<Option<nat>>, buffers: seq<nat>, result: Option<nat>)
    requires ProperAllocs(allocs) && j < |retained| && retainedBuffer == retained[j]
    requires Left(allocs, retained, j, remaining0, buffers0)
    ensures Left(allocs, retained, j + 1, remaining, buffers) && result == Retained(retained, allocs, j)
  {
    remaining, buffers, result := remaining0, buffers0, None;
    for i := 0 to |allocs|
      invariant Comparing(allocs, retained, j, i, remaining, buffers, result)
    {
      CompareStep(allocs, retained, j, i, remaining, buffers, result);
      if retainedBuffer == buffers[i] {
        remaining, buffers, result := remaining[i := None], buffers[i := 0], remaining[i];
      }
    }
    PassResult(allocs, retained, j, remaining, buffers, result);
  }

  /** What the emitted code returns, and what it frees, in order. */
  datatype Lowered = Lowered(results: seq<Option<nat>>, freed: seq<nat>)

  /** The lowered code computes the results of the retain and frees what it frees, each buffer once. */
  ghost predicate Lowers(retained: seq<nat>, allocs: seq<Option<nat>>, lowered: Lowered) {
    && |lowered.results| == |retained|
    && (forall j :: 0 <= j < |retained| ==> lowered.results[j] == Retained(retained, allocs, j))
    && (forall b :: b in lowered.freed <==> b in Unretained(retained, allocs))
    && (forall i, j :: 0 <= i < j < |lowered.freed| ==> lowered.freed[i] != lowered.freed[j])
  }

  /** Buffers that are left over, each once, in the order of the allocs. */
  ghost predicate FreesLeft(allocs: seq<Option<nat>>, retained: seq<nat>, n: nat, freed: seq<nat>) {
    && n <= |allocs|
    && (forall b :: b in freed <==> Some(b) in allocs[..n] && b !in retained)
    && forall i, j :: 0 <= i < j < |freed| ==> freed[i] != freed[j]
  }

  lemma FreeStep(allocs: seq<Option<nat>>, retained: seq<nat>, n: nat, freed: seq<nat>)
    requires ProperAllocs(allocs) && FreesLeft(allocs, retained, n, freed) && n < |allocs|
    ensures
      var left := Remaining(allocs, retained, |retained|, n);
      FreesLeft(allocs, retained, n + 1, if left.Some? then freed + [left.value] else freed)
  {
    assert allocs[..n + 1] == allocs[..n] + [allocs[n]] && retained[..|retained|] == retained;
    if allocs[n].Some? {
      assert allocs[n] !in allocs[..n];
    }
  }

  /**
   * The emitted code: a pass over the allocs for every retained memref, then a free for every buffer that is left.
   * Several memrefs with several allocs are left to a library call.
   */
  method RewriteRetain(retained: seq<nat>, allocs: seq<Option<nat>>) returns (lowered: Option<Lowered>)
    requires ProperAllocs(allocs) && allocs != []
    ensures lowered.None? <==> |retained| != 1 && |allocs| != 1
    ensures lowered.Some? ==> Lowers(retained, allocs, lowered.value)
  {
    if |retained| != 1 && |allocs| != 1 {
      return None;
    }
    var remaining, buffers := allocs, [];
    for i := 0 to |allocs|
      invariant |buffers| == i && forall k :: 0 <= k < i ==> buffers[k] == BufferPointer(allocs[k])
    {
      buffers := buffers + [BufferPointer(allocs[i])];
    }
    var results: seq<Option<nat>> := [];
    for j := 0 to |retained|
      invariant |results| == j && Left(allocs, retained, j, remaining, buffers)
      invariant forall k :: 0 <= k < j ==> results[k] == Retained(retained, allocs, k)
    {
      var result;
      remaining, buffers, result := MatchRetained(allocs, retained, j, retained[j], remaining, buffers);
      results := results + [result];
    }
    var freed: seq<nat> := [];
    for i := 0 to |allocs|
      invariant FreesLeft(allocs, retained, i, freed)
    {
      FreeStep(allocs, retained, i, freed);
      NonZeroIffLeft(allocs, retained, remaining, buffers, i);
      if buffers[i] != 0 {
        freed := freed + [remaining[i].value];
      }
    }
    assert allocs[..|allocs|] == allocs;
    UnretainedMembers(allocs, retained);
    return Some(Lowered(results, freed));
  }

  lemma NonZeroIffLeft(allocs: seq<Option<nat>>, retained: seq<nat>, remaining: seq<Option<nat>>, buffers: seq<nat>,
                       i: nat)
    requires ProperAllocs(allocs) && Left(allocs, retained, |retained|, remaining, buffers) && i < |allocs|
    ensures buffers[i] != 0 <==> remaining[i].Some?
    ensures remaining[i] == Remaining(allocs, retained, |retained|, i)
  {
  }

  lemma UnretainedMembers(allocs: seq<Option<nat>>, retained: seq<nat>)
    ensures forall b :: b in Unretained(retained, allocs) <==> Some(b) in allocs && b !in retained
  {
    forall b
      ensures b in Unretained(retained, allocs) <==> Some(b) in allocs && b !in retained
    {
      assert forall a :: a in allocs && a.Some? && a.value == b ==> a == Some(b);
    }
  }

  // ---------------------------------------------------------------- what that means for the allocs

  /** Result `k`, and no other, is buffer `b`. */
  ghost predicate OnlyResult(lowered: Lowered, b: nat, k: nat) {
    k < |lowered.results| && forall j :: 0 <= j < |lowered.results| ==> (lowered.results[j] == Some(b) <==> j == k)
  }

  /** Free number `k`, and no other, takes buffer `b`. */
  ghost predicate OnlyFree(lowered: Lowered, b: nat, k: nat) {
    k < |lowered.freed| && forall j :: 0 <= j < |lowered.freed| ==> (lowered.freed[j] == b <==> j == k)
  }

  /** Every alloc leaves the code exactly once: it is one result, that of a memref with its buffer, or one free. */
  lemma EveryAllocOnce(retained: seq<nat>, allocs: seq<Option<nat>>, lowered: Lowered, b: nat)
    requires Some(b) in allocs && Lowers(retained, allocs, lowered)
    ensures
      if b in retained
      then b !in lowered.freed && exists k: nat :: OnlyResult(lowered, b, k) && k < |retained| && retained[k] == b
      else Some(b) !in lowered.results && exists k: nat :: OnlyFree(lowered, b, k)
  {
    RetainOnce(retained, allocs, b);
    if b in retained {
      var k :| 0 <= k < |retained| && HandsOutAt(retained, allocs, b, k);
      assert Retained(retained, allocs, k) == Some(b);
      assert OnlyResult(lowered, b, k) && retained[k] == b;
    } else {
      var k :| 0 <= k < |lowered.freed| && lowered.freed[k] == b;
      assert OnlyFree(lowered, b, k);
    }
  }

  /** In a state that holds these buffers and allocs, the lowered code has the effect of the retain. */
  lemma LoweringRefinesRetain(s: State, indicators: seq<Value>, retained: seq<Value>, allocs: seq<Value>,
                              lowered: Lowered)
    requires forall k :: 0 <= k < |retained| ==> retained[k] in s.env
    requires forall k :: 0 <= k < |allocs| ==> allocs[k] in s.own
    requires |indicators| == |retained| && DistinctAllocs(AllocsOf(s.own, allocs))
    requires Lowers(BuffersOf(s.env, retained), AllocsOf(s.own, allocs), lowered)
    ensures
      var t := RunRetain(s, indicators, retained, allocs);
      && t.live == s.live - (set b | b in lowered.freed)
      && (t.ok ==> forall k :: 0 <= k < |indicators| ==>
            indicators[k] in t.own && t.own[indicators[k]] == lowered.results[k])
  {
    var buffers, held := BuffersOf(s.env, retained), AllocsOf(s.own, allocs);
    var dead := Unretained(buffers, held);
    assert dead == (set b | b in lowered.freed);
    var u := s.(live := s.live - dead, ok := s.ok && dead <= s.live);
    HoldAllExtends(u, indicators, buffers, held);
    if HoldAll(u, indicators, buffers, held).ok {
      HoldAllResults(u, indicators, buffers, held);
    }
  }

  lemma {:induction false} HoldAllResults(s: State, vs: seq<Value>, buffers: seq<nat>, allocs: seq<Option<nat>>)
    requires |vs| <= |buffers| && HoldAll(s, vs, buffers, allocs).ok
    ensures forall k :: 0 <= k < |vs| ==>
              vs[k] in HoldAll(s, vs, buffers, allocs).own
              && HoldAll(s, vs, buffers, allocs).own[vs[k]] == Retained(buffers, allocs, k)
    decreases |vs|
  {
    if vs != [] {
      HoldAllResults(s, vs[..|vs| - 1], buffers, allocs);
    }
  }
}

/** The deallocator: the state it keeps while it rewrites a block, and the loops that do it. */
module Deallocate {
  import opened BufferProgram
  import opened Deallocation
  import opened DeallocationSteps
  import opened Options
  import opened Sequences
  import opened ValueClasses

  datatype TransformResult = TransformResult(inserted: seq<Op>, acquired: seq<Value>, released: set<Value>)

  class Deallocator {
    var aliasOverapprox: Classes
    var ownershipIndicator: map<Value, Value>
    var nextValue: Value

    function Known(): Pass
      reads this
    {
      Pass(aliasOverapprox, ownershipIndicator, nextValue)
    }

    constructor (firstValue: Value)
      ensures Known() == Pass(map[], map[], firstValue)
    {
      aliasOverapprox, ownershipIndicator, nextValue := map[], map[], firstValue;
    }

    method SetOwnershipIndicator(owned: Value, indicator: Value)
      modifies this
      ensures Known() == SetIndicator(old(Known()), owned, indicator)
    {
      ownershipIndicator := ownershipIndicator[owned := indicator];
      aliasOverapprox := Union(aliasOverapprox, owned, indicator);
    }

    method CreateValue() returns (v: Value)
      modifies this
      ensures v == old(nextValue) && Known() == old(Known()).(next := v + 1)
    {
      v := nextValue;
      nextValue := v + 1;
    }

    /** A new indicator for a memref, which the caller then owns. */
    method CreateIndicator(memref: Value) returns (indicator: Value)
      modifies this
      ensures indicator == old(nextValue)
      ensures Known() == SetIndicator(old(Known()), memref, indicator).(next := indicator + 1)
    {
      indicator := CreateValue();
      SetOwnershipIndicator(memref, indicator);
    }

    method OwnInputs(args: seq<Value>) returns (owned: seq<Value>)
      modifies this
      ensures OwnArguments(old(Known()), args) == OpResult(Known(), [], owned, {})
    {
      owned := [];
      ghost var before := Known();
      TakeAll(args);
      for i := 0 to |args|
        invariant OwnArguments(before, args[..i]) == OpResult(Known(), [], owned, {})
      {
        Snoc(args, i);
        var indicator := CreateIndicator(args[i]);
        owned := owned + [indicator];
      }
    }

    method OwnAll(allocs: seq<Value>) returns (inserted: seq<Op>, acquired: seq<Value>)
      modifies this
      ensures OwnAllocs(old(Known()), allocs) == OpResult(Known(), inserted, acquired, {})
    {
      inserted, acquired := [], [];
      ghost var before := Known();
      TakeAll(allocs);
      for i := 0 to |allocs|
        invariant OwnAllocs(before, allocs[..i]) == OpResult(Known(), inserted, acquired, {})
      {
        Snoc(allocs, i);
        var indicator := CreateIndicator(allocs[i]);
        inserted, acquired := inserted + [Own(indicator, allocs[i])], acquired + [indicator];
      }
    }

    method ReleaseAll(defs: seq<Op>, frees: seq<Value>) returns (released: Option<set<Value>>)
      ensures released == FreedIndicators(defs, ownershipIndicator, frees)
    {
      var found: set<Value> := {};
      TakeAll(frees);
      for i := 0 to |frees|
        invariant FreedIndicators(defs, ownershipIndicator, frees[..i]) == Some(found)
      {
        Snoc(frees, i);
        var indicator := FindIndicator(defs, ownershipIndicator, frees[i]);
        if indicator.None? {
          NoIndicatorFails(defs, ownershipIndicator, frees, i + 1);
          return None;
        }
        found := found + {indicator.value};
      }
      return Some(found);
    }

    method AliasAll(ty: ElementTypes, results: seq<Value>, operands: seq<Value>)
      modifies this
      ensures Known() == old(Known()).(aliases := AliasResults(ty, old(aliasOverapprox), results, operands))
    {
      ghost var before := Known();
      TakeAll(results);
      for i := 0 to |results|
        invariant Known() == before.(aliases := AliasResults(ty, before.aliases, results[..i], operands))
      {
        Snoc(results, i);
        ghost var inner := Known();
        TakeAll(operands);
        for j := 0 to |operands|
          invariant Known() == inner.(aliases := AliasOperands(ty, inner.aliases, results[i], operands[..j]))
        {
          Snoc(operands, j);
          if ty(results[i]) == ty(operands[j]) {
            aliasOverapprox := Union(aliasOverapprox, results[i], operands[j]);
          }
        }
      }
    }

    method TransformOp(ty: ElementTypes, defs: seq<Op>, op: Op) returns (result: Option<TransformResult>)
      modifies this
      ensures
        match result
        case None => Deallocation.TransformOp(ty, old(Known()), defs, op) == None
        case Some(r) =>
          Deallocation.TransformOp(ty, old(Known()), defs, op)
          == Some(OpResult(Known(), r.inserted, r.acquired, r.released))
    {
      if op.Memory? && (op.allocs != [] || op.frees != []) {
        var inserted, acquired := OwnAll(op.allocs);
        var released := ReleaseAll(defs, op.frees);
        if released.None? {
          return None;
        }
        return Some(TransformResult(inserted, acquired, released.value));
      }
      AliasAll(ty, op.Results(), op.Operands());
      return Some(TransformResult([], [], {}));
    }

    /** Takes released indicators from the owned ones; foreign ones go to the parent, each at most once. */
    method Release(owned: seq<Value>, released: set<Value>, gone: set<Value>)
      returns (ok: bool, left: seq<Value>, passedOn: set<Value>)
      ensures var foreign := gone - (set v | v in owned); ok <==> foreign * released == {}
      ensures ok ==> left == Removed(owned, gone) && passedOn == released + (gone - (set v | v in owned))
    {
      ok, left, passedOn := true, owned, released;
      var todo := gone;
      RemovedNothing(owned);
      assert gone - todo == {};
      while todo != {}
        invariant todo <= gone
        invariant left == Removed(owned, gone - todo)
        invariant passedOn == released + ((gone - todo) - (set v | v in owned))
        invariant ((gone - todo) - (set v | v in owned)) * released == {}
        decreases todo
      {
        var v :| v in todo;
        ghost var done := gone - todo;
        todo := todo - {v};
        assert gone - todo == done + {v};
        if v !in left {
          assert v !in owned;
          if v in passedOn {
            assert v in (gone - (set w | w in owned)) * released;
            return false, left, passedOn;
          }
          passedOn := passedOn + {v};
          RemovedForeign(owned, done, v);
        } else {
          left := Removed(left, {v});
          RemovedAgain(owned, done, v);
        }
      }
      assert gone - todo == gone;
    }

    method TransformOps(ty: ElementTypes, inputs: seq<Value>, ops: seq<Op>) returns (result: Option<Progress>)
      modifies this
      ensures result == AddOps(ty, Progress(old(Known()), [], inputs, {}), ops)
      ensures result.Some? ==> result.value.pass == Known()
    {
      var out: seq<Op>, owned: seq<Value>, released: set<Value> := [], inputs, {};
      ghost var start := Progress(Known(), [], inputs, {});
      TakeAll(ops);
      for i := 0 to |ops|
        invariant AddOps(ty, start, ops[..i]) == Some(Progress(Known(), out, owned, released))
      {
        Snoc(ops, i);
        ghost var before := Progress(Known(), out, owned, released);
        var opResult := TransformOp(ty, out, ops[i]);
        if opResult.None? {
          FailedStaysFailed(ty, start, ops, i + 1);
          return None;
        }
        var r := opResult.value;
        var ok, left, passedOn := Release(owned, released, r.released);
        if !ok {
          assert AddOp(ty, before, ops[i]) == None;
          FailedStaysFailed(ty, start, ops, i + 1);
          return None;
        }
        out, owned, released := out + [ops[i]] + r.inserted, left + r.acquired, passedOn;
      }
      return Some(Progress(Known(), out, owned, released));
    }

    /** Walks back from the terminator while nothing may alias `v`. */
    method FindInsertionPoint(ops: seq<Op>, v: Value) returns (n: nat)
      ensures n == InsertionPoint(ops, aliasOverapprox, v)
    {
      n := |ops|;
      while n > 0 && !DoesAlias(ops[n - 1], aliasOverapprox, v)
        invariant n <= |ops| && forall k :: n <= k < |ops| ==> !DoesAlias(ops[k], aliasOverapprox, v)
      {
        n := n - 1;
      }
      InsertionPointUnique(ops, aliasOverapprox, v, n);
    }

    method RetainNonEscaping(ops: seq<Op>, yielded: seq<Value>, owned: seq<Value>) returns (out: seq<Op>)
      ensures out == RetainEarly(ops, aliasOverapprox, yielded, owned)
    {
      out := ops;
      TakeAll(owned);
      for i := 0 to |owned|
        invariant out == RetainEarly(ops, aliasOverapprox, yielded, owned[..i])
      {
        Snoc(owned, i);
        if !Escapes(aliasOverapprox, yielded, owned[i]) {
          var n := FindInsertionPoint(out, owned[i]);
          out := out[..n] + [Retain([], [], [owned[i]])] + out[n..];
        }
      }
    }

    method PlaceAndJoin(acquired: seq<Value>, yielded: seq<Value>, group: seq<Value>) returns (placed: seq<Value>)
      requires |acquired| == |yielded| && forall v :: v in group ==> v in yielded
      modifies this
      ensures placed == PlaceResults(acquired, yielded, group, old(nextValue))
      ensures Known() == old(Known()).(aliases := JoinResults(old(aliasOverapprox), group, old(nextValue)),
                                       next := old(nextValue) + |group|)
    {
      placed := acquired;
      ghost var before := Known();
      TakeAll(group);
      for i := 0 to |group|
        invariant placed == PlaceResults(acquired, yielded, group[..i], before.next)
        invariant Known() == before.(aliases := JoinResults(before.aliases, group[..i], before.next),
                                     next := before.next + i)
      {
        Snoc(group, i);
        var retained := CreateValue();
        aliasOverapprox := Union(aliasOverapprox, retained, group[i]);
        placed := placed[IndexOf(yielded, group[i]) := retained];
      }
    }

    /** The retain of one class, or none if one owned indicator meets one yielded memref. */
    method RetainClass(c: Classes, yielded: seq<Value>, owned: seq<Value>, leader: Value, before: seq<Op>,
                       placed: seq<Value>)
      returns (ops: seq<Op>, acquired: seq<Value>)
      requires |placed| == |yielded|
      modifies this
      ensures |acquired| == |yielded| && ownershipIndicator == old(ownershipIndicator)
      ensures Ending(ops, acquired, nextValue, aliasOverapprox)
           == EndGroup(c, yielded, owned, leader, Ending(before, placed, old(nextValue), old(aliasOverapprox)))
    {
      var group, ownedGroup := GroupOf(c, yielded, leader), GroupOf(c, owned, leader);
      if |ownedGroup| == 1 && |group| == 1 {
        return before, placed[IndexOf(yielded, group[0]) := ownedGroup[0]];
      }
      ops := before + [Retain(Fresh(nextValue, |group|), group, ownedGroup)];
      acquired := PlaceAndJoin(placed, yielded, group);
    }

    /** One retain per class, unless one owned indicator meets one yielded memref. */
    method RetainPerClass(yielded: seq<Value>, owned: seq<Value>, noAlloc: Value)
      returns (ops: seq<Op>, acquired: seq<Value>)
      requires nextValue == noAlloc + 1
      modifies this
      ensures BlockEnding(old(aliasOverapprox), yielded, owned, noAlloc)
           == Ending(ops, acquired, nextValue, aliasOverapprox)
      ensures ownershipIndicator == old(ownershipIndicator)
    {
      var c := aliasOverapprox;
      var leaders := Leaders(c, yielded);
      ops, acquired := [], Repeated(noAlloc, |yielded|);
      ghost var start := Ending(ops, acquired, nextValue, c);
      TakeAll(leaders);
      for i := 0 to |leaders|
        invariant |acquired| == |yielded| && ownershipIndicator == old(ownershipIndicator)
        invariant EndGroups(c, yielded, owned, leaders[..i], start) == Ending(ops, acquired, nextValue, aliasOverapprox)
      {
        Snoc(leaders, i);
        ops, acquired := RetainClass(c, yielded, owned, leaders[i], ops, acquired);
      }
    }

    /** The retains, the places they hand out, and the null indicator where one is left over. */
    method Finish(g: Progress, yielded: seq<Value>) returns (result: BlockResult)
      requires g.pass == Known()
      modifies this
      ensures result == FinishBlock(g, yielded) && result.pass == Known()
    {
      var early := RetainNonEscaping(g.ops, yielded, g.owned);
      var noAlloc := CreateValue();
      var retains, acquired := RetainPerClass(yielded, g.owned, noAlloc);
      var nulls := if noAlloc in acquired then [Null(noAlloc)] else [];
      result := BlockResult(early + nulls + retains, acquired, g.released, Known());
    }

    method TransformBlock(ty: ElementTypes, args: seq<Value>, ops: seq<Op>, yielded: seq<Value>, ownsInputs: bool)
      returns (result: Option<BlockResult>)
      modifies this
      ensures result == TransformedBlock(ty, old(Known()), args, ops, yielded, ownsInputs)
      ensures result.Some? ==> result.value.pass == Known()
    {
      var inputs: seq<Value> := [];
      if ownsInputs {
        inputs := OwnInputs(args);
      }
      var transformed := TransformOps(ty, inputs, ops);
      if transformed.None? {
        return None;
      }
      var finished := Finish(transformed.value, yielded);
      return Some(finished);
    }
  }

  lemma {:induction false} FailedStaysFailed(ty: ElementTypes, g: Progress, ops: seq<Op>, i: nat)
    requires i <= |ops| && AddOps(ty, g, ops[..i]) == None
    ensures AddOps(ty, g, ops) == None
    decreases |ops| - i
  {
    if i == |ops| {
      assert ops[..i] == ops;
    } else {
      Snoc(ops, i);
      FailedStaysFailed(ty, g, ops, i + 1);
    }
  }

  lemma {:induction false} RemovedAgain(vs: seq<Value>, gone: set<Value>, v: Value)
    ensures Removed(Removed(vs, gone), {v}) == Removed(vs, gone + {v})
    decreases |vs|
  {
    if vs != [] {
      RemovedAgain(vs[..|vs| - 1], gone, v);
      var left, last := Removed(vs[..|vs| - 1], gone), vs[|vs| - 1];
      if last !in gone {
        assert (left + [last])[..|left|] == left;
      }
    }
  }

  lemma {:induction false} RemovedForeign(vs: seq<Value>, gone: set<Value>, v: Value)
    requires v !in vs
    ensures Removed(vs, gone + {v}) == Removed(vs, gone)
    decreases |vs|
  {
    if vs != [] {
      RemovedForeign(vs[..|vs| - 1], gone, v);
    }
  }

  lemma {:induction false} NoIndicatorFails(defs: seq<Op>, inds: map<Value, Value>, frees: seq<Value>, i: nat)
    requires i <= |frees| && FreedIndicators(defs, inds, frees[..i]) == None
    ensures FreedIndicators(defs, inds, frees) == None
    decreases |frees| - i
  {
    if i == |frees| {
      assert frees[..i] == frees;
    } else {
      Snoc(frees, i);
      NoIndicatorFails(defs, inds, frees, i + 1);
    }
  }
}

/** Blocks on which the pass leaks a buffer or frees one too early, and one that a careless view does not harm. */
module DeallocationLimits {
  import opened BufferProgram
  import opened Deallocation
  import opened DeallocationEnding
  import opened DeallocationExactness
  import opened DeallocationSafety
  import opened DeallocationSteps
  import opened DeallocationSuccess
  import opened DeallocationTracking
  import opened Options
  import opened ValueClasses

  const NOTHING := State(map[], map[], {}, 0, true)
  const NO_PASS := Pass(map[], map[], 2)
  const AFTER_ALLOC := Pass(map[0 := 0, 2 := 0], map[0 := 2], 3)
  const ALLOC := Memory([0], [])

  lemma AddOpsSnoc(ty: ElementTypes, g: Progress, ops: seq<Op>, op: Op)
    ensures AddOps(ty, g, ops + [op])
         == match AddOps(ty, g, ops) { case None => None case Some(h) => AddOp(ty, h, op) }
  {
    assert (ops + [op])[..|ops|] == ops;
  }

  /** An operation that releases nothing. */
  lemma AddsResult(ty: ElementTypes, g: Progress, op: Op, r: OpResult)
    requires TransformOp(ty, g.pass, g.ops, op) == Some(r) && r.released == {} && g.released == {}
    ensures AddOp(ty, g, op) == Some(Progress(r.pass, g.ops + [op] + r.inserted, g.owned + r.acquired, {}))
  {
    RemovedNothing(g.owned);
    assert Removed(g.owned, r.released) == g.owned;
    var foreign := r.released - (set v | v in g.owned);
    assert foreign == {} && foreign * g.released == {} && g.released + foreign == {};
  }

  /** The block that allocates memref 0, so far: its indicator is 2. */
  lemma AllocAdded(ty: ElementTypes)
    ensures AddOps(ty, BlockStart(NO_PASS, [], false), [ALLOC])
         == Some(Progress(AFTER_ALLOC, [ALLOC, Own(2, 0)], [2], {}))
  {
    var g := BlockStart(NO_PASS, [], false);
    var r := OpResult(AFTER_ALLOC, [Own(2, 0)], [2], {});
    assert [0][..0] == [];
    assert Union(map[], 0, 2) == map[0 := 0, 2 := 0];
    assert OwnAllocs(NO_PASS, [0]) == r;
    assert TransformOp(ty, NO_PASS, [], ALLOC) == Some(r);
    AddsResult(ty, g, ALLOC, r);
    assert g.ops + [ALLOC] + r.inserted == [ALLOC, Own(2, 0)] && g.owned + r.acquired == [2];
    AddOpsSnoc(ty, g, [], ALLOC);
    assert [] + [ALLOC] == [ALLOC];
  }

  function OneType(v: Value): nat { 0 }

  lemma AllocRuns(oracle: Oracle)
    ensures Run([ALLOC], NOTHING, oracle) == State(map[0 := 0], map[], {0}, 1, true)
  {
    assert [0][..0] == [] && [ALLOC][..0] == [];
    assert FreeAll(NOTHING, []) == NOTHING;
    assert AllocAll(NOTHING, [0]) == NOTHING.Alloc(0);
  }

  lemma EmptyEntry()
    ensures Enters(BlockStart(NO_PASS, [], false), NOTHING, {})
  {
  }

  lemma AllocLegal(yielded: seq<Value>)
    requires forall k :: 0 <= k < |yielded| ==> yielded[k] == 0
    ensures LegalBlock([ALLOC], 2, {}) && RunsLegally([ALLOC], yielded, NOTHING, map[])
    ensures TypedBlock(OneType, [ALLOC], Entry(NOTHING, [], {}), map[])
  {
    AllocRuns(map[]);
    assert [ALLOC][..0] == [];
  }

  lemma NoFreesTraced(ops: seq<Op>)
    requires forall i :: 0 <= i < |ops| ==> ops[i].Memory? ==> ops[i].frees == []
    ensures Traced({}, ops)
  {
  }

  lemma NothingKnown()
    ensures EntryMemrefs(NO_PASS, [], false) == {}
  {
  }

  /** One alloc, yielded twice: a legal block, but nobody frees the buffer or gets to own it. */
  lemma DuplicateYieldLeaks()
    ensures Enters(BlockStart(NO_PASS, [], false), NOTHING, {})
    ensures LegalBlock([ALLOC], 2, {}) && RunsLegally([ALLOC], [0, 0], NOTHING, map[])
    ensures TypedBlock(OneType, [ALLOC], Entry(NOTHING, [], {}), map[])
    ensures TransformedBlock(OneType, NO_PASS, [], [ALLOC], [0, 0], false).Some?
    ensures
      var r := TransformedBlock(OneType, NO_PASS, [], [ALLOC], [0, 0], false).value;
      && 0 in Run(r.ops, NOTHING, map[]).live && HandedNowhere(Run(r.ops, NOTHING, map[]), r.acquired, 0)
  {
    EmptyEntry();
    AllocRuns(map[]);
    AllocAdded(OneType);
    AllocLegal([0, 0]);
    NoFreesTraced([ALLOC]);
    NothingKnown();
    DeallocatedBlockIsSafe(OneType, NO_PASS, [], [ALLOC], [0, 0], false, NOTHING, {}, map[]);
    var f := Run([ALLOC], NOTHING, map[]);
    assert FirstWith(f.env, [0, 0], 0, 0) && [0, 0][1] == [0, 0][0];
    assert Lost(f.env, [0, 0], 0);
    assert OwnedHere(Entry(NOTHING, [], {}), 0);
  }

  // ---------------------------------------------------------------- a realloc

  /** An alloc, a use of it, a realloc, and a use of the new memref. */
  function Realloc(): seq<Op> { [ALLOC] + [Opaque([], [0])] + [Memory([1], [0])] + [Opaque([], [1])] }

  lemma ReallocRuns(oracle: Oracle)
    ensures Run(Realloc(), NOTHING, oracle) == State(map[0 := 0, 1 := 1], map[], {1}, 2, true)
  {
    AllocRuns(oracle);
    var s := State(map[0 := 0], map[], {0}, 1, true);
    assert [0][..0] == [] && [1][..0] == [];
    assert FreeAll(s, [0]) == s.(live := {});
    assert AllocAll(s.(live := {}), [1]) == State(map[0 := 0, 1 := 1], map[], {1}, 2, true);
    RunSnoc([ALLOC], Opaque([], [0]), NOTHING, oracle);
    RunSnoc([ALLOC] + [Opaque([], [0])], Memory([1], [0]), NOTHING, oracle);
    RunSnoc([ALLOC] + [Opaque([], [0])] + [Memory([1], [0])], Opaque([], [1]), NOTHING, oracle);
  }

  lemma ReallocLegal()
    ensures LegalBlock(Realloc(), 2, {}) && RunsLegally(Realloc(), [], NOTHING, map[])
    ensures TypedBlock(OneType, Realloc(), Entry(NOTHING, [], {}), map[])
    ensures Traced({}, Realloc())
  {
    ReallocRuns(map[]);
    var ops := Realloc();
    assert ops[0] == ALLOC && ops[1] == Opaque([], [0]) && ops[2] == Memory([1], [0]) && ops[3] == Opaque([], [1]);
    assert Root(ops[..2], 0) == 0 by {
      assert ops[..2][..1] == [ALLOC] && [ALLOC][..0] == [];
      assert Root([ALLOC], 0) == 0;
    }
    assert ops[..2][0] == ALLOC && AllocatedIn(ops[..2], 0);
  }

  /** The pass releases the indicator of the old memref and frees the new buffer: nothing is left at the end. */
  lemma ReallocIsTransformed()
    ensures TransformedBlock(OneType, NO_PASS, [], Realloc(), [], false).Some?
    ensures
      var r := TransformedBlock(OneType, NO_PASS, [], Realloc(), [], false).value;
      r.released == {} && Run(r.ops, NOTHING, map[]).ok && 1 !in Run(r.ops, NOTHING, map[]).live
  {
    EmptyEntry();
    ReallocRuns(map[]);
    ReallocLegal();
    NothingKnown();
    DeallocatedBlockIsSafe(OneType, NO_PASS, [], Realloc(), [], false, NOTHING, {}, map[]);
    assert OwnedHere(Entry(NOTHING, [], {}), 1);
  }

  // ---------------------------------------------------------------- a view of another element type

  function TwoTypes(v: Value): nat { if v == 1 then 1 else 0 }

  const VIEW := View(1, 0)
  const USE := Opaque([], [1])
  const LAST := Opaque([], [0])
  const VIEWED := State(map[0 := 0, 1 := 0], map[2 := Some(0)], {0}, 1, true)

  lemma ViewAliasesNothing(c: Classes)
    ensures AliasResults(TwoTypes, c, VIEW.Results(), VIEW.Operands()) == c
  {
    assert VIEW.Results() == [1] && VIEW.Operands() == [0] && [1][..0] == [] && [0][..0] == [];
    assert AliasOperands(TwoTypes, c, 1, []) == c && AliasOperands(TwoTypes, c, 1, [0]) == c;
    assert AliasResults(TwoTypes, c, [], [0]) == c;
  }

  /** The view and the uses add nothing, not even to the alias classes. */
  lemma NothingAdded(g: Progress, op: Op)
    requires g.released == {} && op in [VIEW, USE, LAST]
    ensures AddOp(TwoTypes, g, op) == Some(g.(ops := g.ops + [op]))
  {
    if op == VIEW {
      ViewAliasesNothing(g.pass.aliases);
    } else {
      assert op.Results() == [];
    }
    AddsResult(TwoTypes, g, op, OpResult(g.pass, [], [], {}));
    assert g.ops + [op] + [] == g.ops + [op] && g.owned + [] == g.owned;
  }

  lemma OpAdded(ops: seq<Op>, done: seq<Op>, op: Op)
    requires op in [VIEW, USE, LAST]
    requires AddOps(TwoTypes, BlockStart(NO_PASS, [], false), ops) == Some(Progress(AFTER_ALLOC, done, [2], {}))
    ensures AddOps(TwoTypes, BlockStart(NO_PASS, [], false), ops + [op])
         == Some(Progress(AFTER_ALLOC, done + [op], [2], {}))
  {
    NothingAdded(Progress(AFTER_ALLOC, done, [2], {}), op);
    AddOpsSnoc(TwoTypes, BlockStart(NO_PASS, [], false), ops, op);
  }

  /** The alloc, its view of another element type, and a use of the view. */
  function UsedView(): seq<Op> { [ALLOC] + [VIEW] + [USE] }

  function UsedViewOwned(): seq<Op> { [ALLOC, Own(2, 0)] + [VIEW] + [USE] }

  lemma ViewAdded()
    ensures AddOps(TwoTypes, BlockStart(NO_PASS, [], false), UsedView())
         == Some(Progress(AFTER_ALLOC, UsedViewOwned(), [2], {}))
  {
    AllocAdded(TwoTypes);
    OpAdded([ALLOC], [ALLOC, Own(2, 0)], VIEW);
    OpAdded([ALLOC] + [VIEW], [ALLOC, Own(2, 0)] + [VIEW], USE);
  }

  lemma UsedViewRuns(oracle: Oracle)
    ensures Run(UsedView(), NOTHING, oracle) == VIEWED.(own := map[])
    ensures Run(UsedViewOwned(), NOTHING, oracle) == VIEWED
  {
    AllocRuns(oracle);
    RunSnoc([ALLOC], VIEW, NOTHING, oracle);
    RunSnoc([ALLOC] + [VIEW], USE, NOTHING, oracle);
    RunSnoc([ALLOC], Own(2, 0), NOTHING, oracle);
    assert [ALLOC] + [Own(2, 0)] == [ALLOC, Own(2, 0)];
    RunSnoc([ALLOC, Own(2, 0)], VIEW, NOTHING, oracle);
    RunSnoc([ALLOC, Own(2, 0)] + [VIEW], USE, NOTHING, oracle);
  }

  lemma UsedViewLegal()
    ensures LegalBlock(UsedView(), 2, {}) && LegalBlock(UsedView() + [LAST], 2, {})
    ensures Traced({}, UsedView()) && Traced({}, UsedView() + [LAST])
  {
    NoFreesTraced(UsedView());
    NoFreesTraced(UsedView() + [LAST]);
    assert VIEW.Results() == [1] && ALLOC.Results() == [0] && USE.Results() == [] && LAST.Results() == [];
  }

  /** Nothing ties the view to the alloc, so the retain would go in front of the view's use. */
  lemma UseIsTooLate()
    ensures !FreesInTime(Progress(AFTER_ALLOC, UsedViewOwned(), [2], {}), [], VIEWED)
  {
    var ops, c := UsedViewOwned(), AFTER_ALLOC.aliases;
    assert ops[2] == VIEW && ops[3] == USE && ops[..3] == [ALLOC, Own(2, 0)] + [VIEW];
    assert !DoesAlias(USE, c, 2) && Equivalent(c, 2, VIEW.Operands()[0]);
    assert InsertionPoint(ops[..3], c, 2) == 3 && InsertionPoint(ops, c, 2) == 3;
    assert USE.Operands()[0] == 1 && !Spares(ops[3], VIEWED.env, VIEWED.own, 0);
    assert !FreedInTime(Progress(AFTER_ALLOC, ops, [2], {}), [], VIEWED, 2, 0);
  }

  /** An alloc that is only used through a view of another element type is freed before that use. */
  lemma ViewOfOtherTypeFreesTooEarly()
    ensures Enters(BlockStart(NO_PASS, [], false), NOTHING, {}) && LegalBlock(UsedView(), 2, {})
    ensures RunsLegally(UsedView(), [], NOTHING, map[])
    ensures TransformedBlock(TwoTypes, NO_PASS, [], UsedView(), [], false).Some?
    ensures
      var r := TransformedBlock(TwoTypes, NO_PASS, [], UsedView(), [], false).value;
      !Run(r.ops, NOTHING, map[]).ok
  {
    EmptyEntry();
    ViewAdded();
    UsedViewLegal();
    NothingKnown();
    UsedViewRuns(map[]);
    UseIsTooLate();
    var reached := DeallocatedBlockRunsExactly(TwoTypes, NO_PASS, [], UsedView(), [], false, NOTHING, {}, map[]);
  }

  /** A use of the alloc itself keeps the retain behind the view's use. */
  lemma LastIsInTime()
    ensures FreesInTime(Progress(AFTER_ALLOC, UsedViewOwned() + [LAST], [2], {}), [], VIEWED)
  {
    var ops := UsedViewOwned() + [LAST];
    assert ops[|ops| - 1] == LAST && LAST.Operands()[0] == 0 && DoesAlias(LAST, AFTER_ALLOC.aliases, 2);
  }

  lemma LastRuns(oracle: Oracle)
    ensures Run(UsedView() + [LAST], NOTHING, oracle) == VIEWED.(own := map[])
    ensures Run(UsedViewOwned() + [LAST], NOTHING, oracle) == VIEWED
  {
    UsedViewRuns(oracle);
    RunSnoc(UsedView(), LAST, NOTHING, oracle);
    RunSnoc(UsedViewOwned(), LAST, NOTHING, oracle);
  }

  /** With a use of the alloc itself behind it, the same view does no harm. */
  lemma ViewOfOtherTypeCanBeSafe()
    ensures RunsLegally(UsedView() + [LAST], [], NOTHING, map[]) && !Typed(TwoTypes, VIEW, map[])
    ensures TransformedBlock(TwoTypes, NO_PASS, [], UsedView() + [LAST], [], false).Some?
    ensures
      var r := TransformedBlock(TwoTypes, NO_PASS, [], UsedView() + [LAST], [], false).value;
      Run(r.ops, NOTHING, map[]).ok
  {
    EmptyEntry();
    ViewAdded();
    OpAdded(UsedView(), UsedViewOwned(), LAST);
    UsedViewLegal();
    NothingKnown();
    LastRuns(map[]);
    LastIsInTime();
    var reached :=
      DeallocatedBlockRunsExactly(TwoTypes, NO_PASS, [], UsedView() + [LAST], [], false, NOTHING, {}, map[]);
  }
}

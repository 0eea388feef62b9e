/** Transforming operation after operation keeps the block's view of memory. */
module DeallocationSteps {
  import opened BufferProgram
  import opened Deallocation
  import opened DeallocationTracking
  import opened Options
  import opened Sequences

  predicate SameMemory(s: State, t: State) {
    t == s.(own := t.own)
  }

  // ---------------------------------------------------------------- the source does not see indicators

  lemma {:induction false} FreeAllSame(s: State, t: State, ms: seq<Value>)
    requires SameMemory(s, t)
    ensures SameMemory(FreeAll(s, ms), FreeAll(t, ms))
    decreases |ms|
  {
    if ms != [] {
      FreeAllSame(s, t, ms[..|ms| - 1]);
    }
  }

  lemma {:induction false} AllocAllSame(s: State, t: State, ms: seq<Value>)
    requires SameMemory(s, t)
    ensures SameMemory(AllocAll(s, ms), AllocAll(t, ms))
    decreases |ms|
  {
    if ms != [] {
      AllocAllSame(s, t, ms[..|ms| - 1]);
    }
  }

  lemma {:induction false} BindResultsSame(s: State, t: State, results: seq<Value>, operands: seq<Value>,
                                           oracle: Oracle)
    requires SameMemory(s, t)
    ensures SameMemory(BindResults(s, results, operands, oracle), BindResults(t, results, operands, oracle))
    decreases |results|
  {
    if results != [] {
      BindResultsSame(s, t, results[..|results| - 1], operands, oracle);
    }
  }

  lemma ExecSame(op: Op, s: State, t: State, oracle: Oracle)
    requires op.Source() && SameMemory(s, t)
    ensures SameMemory(Exec(op, s, oracle), Exec(op, t, oracle))
  {
    match op {
      case Memory(allocs, frees) =>
        FreeAllSame(s, t, frees);
        AllocAllSame(FreeAll(s, frees), FreeAll(t, frees), allocs);
      case View(_, _) =>
      case Opaque(results, operands) =>
        assert s.AllTouchable(operands) == t.AllTouchable(operands) by {
          assert forall k :: 0 <= k < |operands| ==> s.Touchable(operands[k]) == t.Touchable(operands[k]);
        }
        BindResultsSame(s, t, results, operands, oracle);
    }
  }

  // ---------------------------------------------------------------- memory operations

  lemma {:induction false} AllocAllNew(s: State, ms: seq<Value>)
    requires AllocAll(s, ms).ok
    ensures forall m :: m in ms ==> m !in s.env
    decreases |ms|
  {
    if ms != [] {
      AllocAllNew(s, ms[..|ms| - 1]);
      AllocAllExtends(s, ms[..|ms| - 1]);
    }
  }

  lemma {:induction false} OwnAllocsIndicators(p: Pass, allocs: seq<Value>, m: Value)
    requires m !in allocs
    ensures m in OwnAllocs(p, allocs).pass.indicators <==> m in p.indicators
    ensures m in p.indicators ==> OwnAllocs(p, allocs).pass.indicators[m] == p.indicators[m]
    decreases |allocs|
  {
    if allocs != [] {
      OwnAllocsIndicators(p, allocs[..|allocs| - 1], m);
    }
  }

  lemma {:induction false} FreedIndicatorsSame(defs: seq<Op>, inds: map<Value, Value>, more: map<Value, Value>,
                                               frees: seq<Value>)
    requires forall f :: f in frees ==>
               (Root(defs, f) in inds <==> Root(defs, f) in more)
               && (Root(defs, f) in inds ==> more[Root(defs, f)] == inds[Root(defs, f)])
    ensures FreedIndicators(defs, inds, frees) == FreedIndicators(defs, more, frees)
    decreases |frees|
  {
    if frees != [] {
      FreedIndicatorsSame(defs, inds, more, frees[..|frees| - 1]);
      assert frees[|frees| - 1] in frees;
    }
  }

  /** The indicators of allocs that the same operation makes play no part in its frees. */
  lemma FreesBeforeAllocs(p: Pass, defs: seq<Op>, s: State, start: State, oracle: Oracle, op: Op)
    requires op.Memory? && s.ok && Run(defs, start, oracle) == s && Exec(op, s, oracle).ok
    ensures FreeAll(s, op.frees).ok
    ensures FreedIndicators(defs, OwnAllocs(p, op.allocs).pass.indicators, op.frees)
         == FreedIndicators(defs, p.indicators, op.frees)
  {
    var t := FreeAll(s, op.frees);
    AllocAllExtends(t, op.allocs);
    AllocAllNew(t, op.allocs);
    FreeAllExtends(s, op.frees);
    FreeAllNamed(s, op.frees);
    forall f | f in op.frees
      ensures Root(defs, f) !in op.allocs
    {
      RootAgrees(defs, start, oracle, f);
    }
    forall f | f in op.frees
      ensures Root(defs, f) in p.indicators <==> Root(defs, f) in OwnAllocs(p, op.allocs).pass.indicators
      ensures Root(defs, f) in p.indicators ==>
                OwnAllocs(p, op.allocs).pass.indicators[Root(defs, f)] == p.indicators[Root(defs, f)]
    {
      OwnAllocsIndicators(p, op.allocs, Root(defs, f));
    }
    FreedIndicatorsSame(defs, p.indicators, OwnAllocs(p, op.allocs).pass.indicators, op.frees);
  }

  lemma MemoryAccounted(p: Pass, owned: seq<Value>, defs: seq<Op>, s: State, e: Entry, oracle: Oracle, op: Op,
                        gone: set<Value>)
    requires op.Memory? && Accounts(p, owned, s, e) && Run(defs, e.start, oracle) == s
    requires Exec(op, s, oracle).ok
    requires forall k :: 0 <= k < |op.allocs| ==> op.allocs[k] < p.next
    requires forall f :: f in op.frees ==> Root(defs, f) !in e.borrowed
    requires FreedIndicators(defs, OwnAllocs(p, op.allocs).pass.indicators, op.frees) == Some(gone)
    ensures forall v :: v in gone ==> v in owned
    ensures
      var r := OwnAllocs(p, op.allocs);
      var t := Run(r.inserted, Exec(op, s, oracle), oracle);
      && p.next <= r.pass.next && SameMemory(Exec(op, s, oracle), t) && AllOwn(r.inserted)
      && Accounts(r.pass, Removed(owned, gone) + r.acquired, t, e)
      && (Covered(p.aliases, owned, s) ==> Covered(r.pass.aliases, Removed(owned, gone) + r.acquired, t))
  {
    FreesBeforeAllocs(p, defs, s, e.start, oracle, op);
    FreesRelease(defs, p, owned, s, e, oracle, op.frees, gone);
    var t := FreeAll(s, op.frees);
    ReleaseAccounted(p, owned, s, e, gone, t);
    var g := Stage(p, Removed(owned, gone), t);
    StagesAccounted(g, op.allocs, e);
    if Covered(p.aliases, owned, s) {
      StagesCovered(g, op.allocs, e);
    }
    StagesPass(g, op.allocs);
    StagesRun(g, op.allocs, oracle);
  }

  // ---------------------------------------------------------------- one operation

  /** What one operation of the source must be like. */
  ghost predicate LegalOp(op: Op, next: Value, borrowed: set<Value>, defs: seq<Op>) {
    && op.Source()
    && (forall k :: 0 <= k < |op.Results()| ==> op.Results()[k] < next)
    && (op.Memory? ==> forall f :: f in op.frees ==> Root(defs, f) !in borrowed)
  }

  /** Whichever operation it is, the pass, the owned indicators and the state move on together. */
  lemma OpAccounted(ty: ElementTypes, g: Progress, op: Op, h: Progress, s: State, e: Entry, oracle: Oracle)
    requires Accounts(g.pass, g.owned, s, e) && Run(g.ops, e.start, oracle) == s && g.released == {}
    requires AddOp(ty, g, op) == Some(h) && Exec(op, s, oracle).ok
    requires LegalOp(op, g.pass.next, e.borrowed, g.ops)
    ensures Accounts(h.pass, h.owned, Run(h.ops, e.start, oracle), e) && h.released == {} && g.pass.next <= h.pass.next
    ensures SameMemory(Exec(op, s, oracle), Run(h.ops, e.start, oracle))
    ensures AllOwn(TransformOp(ty, g.pass, g.ops, op).value.inserted)
  {
    var r := TransformOp(ty, g.pass, g.ops, op).value;
    RunThrough(g.ops, op, r.inserted, e.start, oracle);
    if op.Memory? && (op.allocs != [] || op.frees != []) {
      assert op.Results() == op.allocs;
      MemoryAccounted(g.pass, g.owned, g.ops, s, e, oracle, op, r.released);
      assert r.released - (set v | v in g.owned) == {};
    } else {
      RemovedNothing(g.owned);
      assert h.owned == g.owned && r.inserted == [];
      NoMemoryAccounted(ty, g.pass, g.owned, op, s, e, oracle);
    }
  }

  lemma NoMemoryAccounted(ty: ElementTypes, p: Pass, owned: seq<Value>, op: Op, s: State, e: Entry, oracle: Oracle)
    requires Accounts(p, owned, s, e) && Exec(op, s, oracle).ok && op.Source()
    requires forall k :: 0 <= k < |op.Results()| ==> op.Results()[k] < p.next
    requires op.Memory? ==> op.allocs == [] && op.frees == []
    ensures Accounts(p.(aliases := AliasResults(ty, p.aliases, op.Results(), op.Operands())), owned,
                     Exec(op, s, oracle), e)
  {
    var c := AliasResults(ty, p.aliases, op.Results(), op.Operands());
    AliasResultsJoins(ty, p.aliases, op.Results(), op.Operands());
    if op.Memory? {
      assert op.Results() == [] && Exec(op, s, oracle) == s;
    } else {
      NamingAccounted(p, c, owned, s, e, op, oracle);
    }
  }

  /** An operation with agreeing element types keeps the classes covering. */
  lemma OpCovered(ty: ElementTypes, g: Progress, op: Op, h: Progress, s: State, e: Entry, oracle: Oracle)
    requires Tracks(g.pass, g.owned, s, e) && Run(g.ops, e.start, oracle) == s && g.released == {}
    requires AddOp(ty, g, op) == Some(h) && Exec(op, s, oracle).ok
    requires LegalOp(op, g.pass.next, e.borrowed, g.ops)
    requires Typed(ty, op, oracle) && ForeignElsewhere(oracle, e)
    ensures Covered(h.pass.aliases, h.owned, Run(h.ops, e.start, oracle))
  {
    var r := TransformOp(ty, g.pass, g.ops, op).value;
    RunThrough(g.ops, op, r.inserted, e.start, oracle);
    if op.Memory? && (op.allocs != [] || op.frees != []) {
      assert op.Results() == op.allocs;
      MemoryAccounted(g.pass, g.owned, g.ops, s, e, oracle, op, r.released);
      assert r.released - (set v | v in g.owned) == {};
    } else {
      RemovedNothing(g.owned);
      assert h.owned == g.owned && r.inserted == [];
      if op.Memory? {
        assert op.Results() == [] && Exec(op, s, oracle) == s;
      } else {
        TypedNamesLinked(ty, g.pass, g.owned, s, e, op, oracle);
        NamesCoveredExactly(ty, g.pass, g.owned, s, e, op, oracle);
      }
    }
  }

  lemma {:induction false} RemovedNothing(vs: seq<Value>)
    ensures Removed(vs, {}) == vs
    decreases |vs|
  {
    if vs != [] {
      RemovedNothing(vs[..|vs| - 1]);
    }
  }

  // ---------------------------------------------------------------- all operations

  ghost predicate LegalBlock(ops: seq<Op>, next: Value, borrowed: set<Value>) {
    forall i :: 0 <= i < |ops| ==> LegalOp(ops[i], next, borrowed, ops[..i])
  }

  /** Views and opaque results have the element type of what they refer to, or none of the block's buffers. */
  ghost predicate TypedBlock(ty: ElementTypes, ops: seq<Op>, e: Entry, oracle: Oracle) {
    ForeignElsewhere(oracle, e) && forall i :: 0 <= i < |ops| ==> Typed(ty, ops[i], oracle)
  }

  lemma {:induction false} RootThroughOwns(defs: seq<Op>, owns: seq<Op>, v: Value)
    requires AllOwn(owns)
    ensures Root(defs + owns, v) == Root(defs, v)
    decreases |owns|
  {
    if owns == [] {
      assert defs + owns == defs;
    } else {
      assert (defs + owns)[..|defs + owns| - 1] == defs + owns[..|owns| - 1];
      RootThroughOwns(defs, owns[..|owns| - 1], v);
    }
  }

  /** The transformed operations so far: the source's and declarations of ownership. */
  predicate SourceAndOwns(ops: seq<Op>) {
    forall k :: 0 <= k < |ops| ==> ops[k].Source() || ops[k].Own?
  }

  ghost predicate SameRoots(ops: seq<Op>, defs: seq<Op>) {
    forall v :: Root(ops, v) == Root(defs, v)
  }

  /** How far a block has been transformed: `f` is the source's state, `s` the state of the new operations. */
  ghost predicate Advanced(h: Progress, ops: seq<Op>, e: Entry, f: State, s: State) {
    && Accounts(h.pass, h.owned, s, e) && h.released == {}
    && SameMemory(f, s) && SourceAndOwns(h.ops) && SameRoots(ops, h.ops)
  }

  lemma AdvancedStep(ty: ElementTypes, m: Progress, op: Op, h: Progress, ops: seq<Op>, e: Entry, f: State, s: State,
                     oracle: Oracle)
    requires Advanced(m, ops, e, f, s) && Run(m.ops, e.start, oracle) == s
    requires AddOp(ty, m, op) == Some(h) && Exec(op, f, oracle).ok
    requires LegalOp(op, m.pass.next, e.borrowed, m.ops)
    ensures Advanced(h, ops + [op], e, Exec(op, f, oracle), Run(h.ops, e.start, oracle))
    ensures m.pass.next <= h.pass.next
  {
    ExecSame(op, f, s, oracle);
    OpAccounted(ty, m, op, h, s, e, oracle);
    ShapeGrows(ops, m.ops, op, TransformOp(ty, m.pass, m.ops, op).value.inserted);
  }

  /** After all operations the owned indicators account for the owned buffers, and the memory is the source's. */
  lemma {:induction false} OpsAccounted(ty: ElementTypes, g: Progress, ops: seq<Op>, h: Progress, e: Entry,
                                        oracle: Oracle)
    requires Advanced(g, [], e, e.start, e.start) && g.ops == []
    requires AddOps(ty, g, ops) == Some(h) && LegalBlock(ops, g.pass.next, e.borrowed)
    requires Run(ops, e.start, oracle).ok
    ensures Advanced(h, ops, e, Run(ops, e.start, oracle), Run(h.ops, e.start, oracle))
    ensures g.pass.next <= h.pass.next
    decreases |ops|
  {
    if ops != [] {
      SplitLast(ops);
      var init, op := ops[..|ops| - 1], ops[|ops| - 1];
      var m := AddOps(ty, g, init).value;
      var f := Run(init, e.start, oracle);
      ExecExtends(op, f, oracle);
      LegalPrefix(ops, g.pass.next, e.borrowed);
      OpsAccounted(ty, g, init, m, e, oracle);
      LegalLater(op, g.pass.next, m.pass.next, e.borrowed, init, m.ops);
      AdvancedStep(ty, m, op, h, init, e, f, Run(m.ops, e.start, oracle), oracle);
    }
  }

  /** With agreeing element types the alias classes cover what has happened at run time. */
  lemma {:induction false} OpsCovered(ty: ElementTypes, g: Progress, ops: seq<Op>, h: Progress, e: Entry,
                                      oracle: Oracle)
    requires Advanced(g, [], e, e.start, e.start) && g.ops == [] && Covered(g.pass.aliases, g.owned, e.start)
    requires AddOps(ty, g, ops) == Some(h) && LegalBlock(ops, g.pass.next, e.borrowed)
    requires Run(ops, e.start, oracle).ok && TypedBlock(ty, ops, e, oracle)
    ensures Covered(h.pass.aliases, h.owned, Run(h.ops, e.start, oracle))
    decreases |ops|
  {
    if ops != [] {
      SplitLast(ops);
      var init, op := ops[..|ops| - 1], ops[|ops| - 1];
      var m := AddOps(ty, g, init).value;
      var f, s := Run(init, e.start, oracle), Run(m.ops, e.start, oracle);
      ExecExtends(op, f, oracle);
      LegalPrefix(ops, g.pass.next, e.borrowed);
      TypedPrefix(ty, ops, e, oracle);
      OpsCovered(ty, g, init, m, e, oracle);
      OpsAccounted(ty, g, init, m, e, oracle);
      LegalLater(op, g.pass.next, m.pass.next, e.borrowed, init, m.ops);
      ExecSame(op, f, s, oracle);
      OpCovered(ty, m, op, h, s, e, oracle);
    }
  }

  lemma TypedPrefix(ty: ElementTypes, ops: seq<Op>, e: Entry, oracle: Oracle)
    requires TypedBlock(ty, ops, e, oracle) && ops != []
    ensures TypedBlock(ty, ops[..|ops| - 1], e, oracle) && Typed(ty, ops[|ops| - 1], oracle)
  {
    assert forall i :: 0 <= i < |ops| - 1 ==> ops[..|ops| - 1][i] == ops[i];
  }

  lemma LegalPrefix(ops: seq<Op>, next: Value, borrowed: set<Value>)
    requires LegalBlock(ops, next, borrowed) && ops != []
    ensures LegalBlock(ops[..|ops| - 1], next, borrowed)
    ensures LegalOp(ops[|ops| - 1], next, borrowed, ops[..|ops| - 1])
  {
    var init := ops[..|ops| - 1];
    forall i | 0 <= i < |init|
      ensures LegalOp(init[i], next, borrowed, init[..i])
    {
      assert init[..i] == ops[..i];
      assert LegalOp(ops[i], next, borrowed, ops[..i]);
    }
  }

  lemma LegalLater(op: Op, next: Value, later: Value, borrowed: set<Value>, ops: seq<Op>, defs: seq<Op>)
    requires LegalOp(op, next, borrowed, ops) && next <= later && SameRoots(ops, defs)
    ensures LegalOp(op, later, borrowed, defs)
  {
  }

  lemma ShapeGrows(ops: seq<Op>, defs: seq<Op>, op: Op, owns: seq<Op>)
    requires SourceAndOwns(defs) && SameRoots(ops, defs) && op.Source() && AllOwn(owns)
    ensures SourceAndOwns(defs + [op] + owns) && SameRoots(ops + [op], defs + [op] + owns)
  {
    forall v
      ensures Root(ops + [op], v) == Root(defs + [op] + owns, v)
    {
      RootThroughOwns(defs + [op], owns, v);
      assert (defs + [op])[..|defs|] == defs && (ops + [op])[..|ops|] == ops;
    }
  }
}

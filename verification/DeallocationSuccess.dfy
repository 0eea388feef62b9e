/** Exactly when the operations of a block can be transformed, and what a block passes on to its parent. */
module DeallocationSuccess {
  import opened BufferProgram
  import opened Deallocation
  import opened DeallocationSteps
  import opened DeallocationTracking
  import opened Options
  import opened Sequences

  ghost predicate AllocatedIn(ops: seq<Op>, m: Value) {
    exists k :: 0 <= k < |ops| && ops[k].Memory? && m in ops[k].allocs
  }

  /** Every memref that the operation frees goes back to one with an indicator at the entry, or to an earlier alloc. */
  ghost predicate TracedOp(known: set<Value>, before: seq<Op>, op: Op) {
    op.Memory? ==> forall f :: f in op.frees ==> Root(before, f) in known || AllocatedIn(before, Root(before, f))
  }

  ghost predicate Traced(known: set<Value>, ops: seq<Op>) {
    forall i :: 0 <= i < |ops| ==> TracedOp(known, ops[..i], ops[i])
  }

  // ---------------------------------------------------------------- which memrefs have an indicator

  lemma {:induction false} OwnAllocsKeys(p: Pass, allocs: seq<Value>, m: Value)
    ensures m in OwnAllocs(p, allocs).pass.indicators <==> m in p.indicators || m in allocs
    decreases |allocs|
  {
    if allocs != [] {
      OwnAllocsKeys(p, allocs[..|allocs| - 1], m);
      SplitLast(allocs);
    }
  }

  lemma {:induction false} OwnArgumentsKeys(p: Pass, args: seq<Value>, m: Value)
    ensures m in OwnArguments(p, args).pass.indicators <==> m in p.indicators || m in args
    decreases |args|
  {
    if args != [] {
      OwnArgumentsKeys(p, args[..|args| - 1], m);
      SplitLast(args);
    }
  }

  lemma AddOpKeys(ty: ElementTypes, g: Progress, op: Op, h: Progress, m: Value)
    requires AddOp(ty, g, op) == Some(h)
    ensures m in h.pass.indicators <==> m in g.pass.indicators || (op.Memory? && m in op.allocs)
  {
    if op.Memory? {
      OwnAllocsKeys(g.pass, op.allocs, m);
    }
  }

  lemma AllocatedSnoc(ops: seq<Op>, op: Op, m: Value)
    ensures AllocatedIn(ops + [op], m) <==> AllocatedIn(ops, m) || (op.Memory? && m in op.allocs)
  {
    var longer := ops + [op];
    assert longer[|ops|] == op && forall k :: 0 <= k < |ops| ==> longer[k] == ops[k];
  }

  /** Behind the operations, the memrefs with an indicator are those from the entry and the allocs. */
  lemma {:induction false} AddOpsKeys(ty: ElementTypes, g: Progress, ops: seq<Op>, h: Progress, m: Value)
    requires AddOps(ty, g, ops) == Some(h)
    ensures m in h.pass.indicators <==> m in g.pass.indicators || AllocatedIn(ops, m)
    decreases |ops|
  {
    if ops != [] {
      SplitLast(ops);
      var init, op := ops[..|ops| - 1], ops[|ops| - 1];
      var mid := AddOps(ty, g, init).value;
      AddOpsKeys(ty, g, init, mid, m);
      AddOpKeys(ty, mid, op, h, m);
      AllocatedSnoc(init, op, m);
    }
  }

  // ---------------------------------------------------------------- one operation

  lemma {:induction false} FreedExactly(defs: seq<Op>, inds: map<Value, Value>, frees: seq<Value>)
    ensures FreedIndicators(defs, inds, frees).Some? <==> forall f :: f in frees ==> Root(defs, f) in inds
    decreases |frees|
  {
    if frees != [] {
      FreedExactly(defs, inds, frees[..|frees| - 1]);
      assert frees[|frees| - 1] in frees;
      SplitLast(frees);
    }
  }

  /** An operation is transformed if and only if every memref that it frees has an indicator. */
  lemma OpSucceeds(ty: ElementTypes, g: Progress, op: Op, s: State, e: Entry, oracle: Oracle)
    requires Accounts(g.pass, g.owned, s, e) && Run(g.ops, e.start, oracle) == s && g.released == {}
    requires Exec(op, s, oracle).ok && LegalOp(op, g.pass.next, e.borrowed, g.ops)
    ensures AddOp(ty, g, op).Some?
       <==> (op.Memory? ==> forall f :: f in op.frees ==> Root(g.ops, f) in g.pass.indicators)
  {
    if op.Memory? && (op.allocs != [] || op.frees != []) {
      assert op.Results() == op.allocs;
      FreesBeforeAllocs(g.pass, g.ops, s, e.start, oracle, op);
      FreedExactly(g.ops, g.pass.indicators, op.frees);
      var freed := FreedIndicators(g.ops, OwnAllocs(g.pass, op.allocs).pass.indicators, op.frees);
      if freed.Some? {
        MemoryAccounted(g.pass, g.owned, g.ops, s, e, oracle, op, freed.value);
        assert freed.value - (set v | v in g.owned) == {};
      }
    }
  }

  // ---------------------------------------------------------------- all operations

  lemma TracedSnoc(known: set<Value>, ops: seq<Op>)
    requires ops != []
    ensures
      var init, op := ops[..|ops| - 1], ops[|ops| - 1];
      Traced(known, ops) <==> Traced(known, init) && TracedOp(known, init, op)
  {
    var init := ops[..|ops| - 1];
    assert forall i :: 0 <= i < |init| ==> init[..i] == ops[..i] && init[i] == ops[i];
  }

  /** An operation is traced if and only if every memref it frees has an indicator in front of it. */
  lemma TracedHere(ty: ElementTypes, g: Progress, before: seq<Op>, h: Progress, op: Op, known: set<Value>)
    requires AddOps(ty, g, before) == Some(h) && SameRoots(before, h.ops) && known == g.pass.indicators.Keys
    ensures TracedOp(known, before, op)
       <==> (op.Memory? ==> forall f :: f in op.frees ==> Root(h.ops, f) in h.pass.indicators)
  {
    if op.Memory? {
      forall f | f in op.frees
        ensures Root(h.ops, f) in h.pass.indicators
           <==> Root(before, f) in known || AllocatedIn(before, Root(before, f))
      {
        AddOpsKeys(ty, g, before, h, Root(before, f));
      }
    }
  }

  /** In a legal run, the operations are transformed if and only if each of them is traced. */
  lemma {:induction false} OpsSucceed(ty: ElementTypes, g: Progress, ops: seq<Op>, e: Entry, oracle: Oracle)
    requires Advanced(g, [], e, e.start, e.start) && g.ops == []
    requires LegalBlock(ops, g.pass.next, e.borrowed) && Run(ops, e.start, oracle).ok
    ensures AddOps(ty, g, ops).Some? <==> Traced(g.pass.indicators.Keys, ops)
    decreases |ops|
  {
    if ops != [] {
      SplitLast(ops);
      var init, op := ops[..|ops| - 1], ops[|ops| - 1];
      var f := Run(init, e.start, oracle);
      ExecExtends(op, f, oracle);
      LegalPrefix(ops, g.pass.next, e.borrowed);
      OpsSucceed(ty, g, init, e, oracle);
      TracedSnoc(g.pass.indicators.Keys, ops);
      if m :| AddOps(ty, g, init) == Some(m) {
        OpsAccounted(ty, g, init, m, e, oracle);
        var s := Run(m.ops, e.start, oracle);
        LegalLater(op, g.pass.next, m.pass.next, e.borrowed, init, m.ops);
        ExecSame(op, f, s, oracle);
        OpSucceeds(ty, m, op, s, e, oracle);
        TracedHere(ty, g, init, m, op, g.pass.indicators.Keys);
      }
    }
  }

  // ---------------------------------------------------------------- what is passed on to the parent

  /** The operation frees a memref that goes back to one whose indicator is `v` at the entry. */
  ghost predicate ReleasesFrom(known: map<Value, Value>, before: seq<Op>, op: Op, v: Value) {
    op.Memory? && exists f :: f in op.frees && Root(before, f) in known && known[Root(before, f)] == v
  }

  ghost predicate SomeReleases(known: map<Value, Value>, ops: seq<Op>, v: Value) {
    exists i :: 0 <= i < |ops| && ReleasesFrom(known, ops[..i], ops[i], v)
  }

  lemma SomeReleasesSnoc(known: map<Value, Value>, ops: seq<Op>, op: Op, v: Value)
    ensures SomeReleases(known, ops + [op], v) <==> SomeReleases(known, ops, v) || ReleasesFrom(known, ops, op, v)
  {
    var longer := ops + [op];
    assert longer[..|ops|] == ops && longer[|ops|] == op;
    assert forall i :: 0 <= i < |ops| ==> longer[..i] == ops[..i] && longer[i] == ops[i];
  }

  /** Since the entry, only new indicators were added. */
  ghost predicate OnlyNew(known: map<Value, Value>, first: Value, now: map<Value, Value>) {
    && (forall m :: m in known ==> m in now && now[m] == known[m])
    && forall m :: m in now && m !in known ==> first <= now[m]
  }

  lemma {:induction false} OwnAllocsNew(p: Pass, allocs: seq<Value>, known: map<Value, Value>, first: Value)
    requires OnlyNew(known, first, p.indicators) && first <= p.next && forall a :: a in allocs ==> a !in known
    ensures
      var r := OwnAllocs(p, allocs);
      && OnlyNew(known, first, r.pass.indicators) && p.next <= r.pass.next
      && forall v :: v in r.acquired ==> first <= v
    decreases |allocs|
  {
    if allocs != [] {
      SplitLast(allocs);
      OwnAllocsNew(p, allocs[..|allocs| - 1], known, first);
    }
  }

  lemma {:induction false} FreedContains(defs: seq<Op>, inds: map<Value, Value>, frees: seq<Value>, v: Value)
    requires FreedIndicators(defs, inds, frees).Some?
    ensures v in FreedIndicators(defs, inds, frees).value
       <==> exists f :: f in frees && Root(defs, f) in inds && inds[Root(defs, f)] == v
    decreases |frees|
  {
    if frees != [] {
      SplitLast(frees);
      FreedContains(defs, inds, frees[..|frees| - 1], v);
      assert frees[|frees| - 1] in frees;
    }
  }

  /** The block in the middle of the transformation, as the parent's indicator `v` sees it. */
  ghost predicate Outside(g: Progress, known: map<Value, Value>, first: Value, h: Progress, ops: seq<Op>, v: Value) {
    && OnlyNew(known, first, h.pass.indicators) && first <= h.pass.next && v !in h.owned
    && SourceAndOwns(h.ops) && SameRoots(ops, h.ops)
    && (v in h.released <==> v in g.released || SomeReleases(known, ops, v))
  }

  lemma {:induction false} OwnsInserted(p: Pass, allocs: seq<Value>)
    ensures AllOwn(OwnAllocs(p, allocs).inserted)
    decreases |allocs|
  {
    if allocs != [] {
      OwnsInserted(p, allocs[..|allocs| - 1]);
    }
  }

  lemma ReleasedByOp(ty: ElementTypes, m: Progress, op: Op, h: Progress, known: map<Value, Value>, first: Value,
                     ops: seq<Op>, v: Value)
    requires OnlyNew(known, first, m.pass.indicators) && first <= m.pass.next && SameRoots(ops, m.ops)
    requires AddOp(ty, m, op) == Some(h) && v !in m.owned && v < first
    requires op.Memory? ==> forall a :: a in op.allocs ==> a !in known
    ensures OnlyNew(known, first, h.pass.indicators) && first <= h.pass.next && v !in h.owned
    ensures v in h.released <==> v in m.released || ReleasesFrom(known, ops, op, v)
  {
    if op.Memory? && (op.allocs != [] || op.frees != []) {
      OwnAllocsNew(m.pass, op.allocs, known, first);
      FreedContains(m.ops, OwnAllocs(m.pass, op.allocs).pass.indicators, op.frees, v);
    }
  }

  /** What a block passes on: the parent's indicators of the memrefs that its operations free. */
  lemma {:induction false} ReleasedExactly(ty: ElementTypes, g: Progress, ops: seq<Op>, h: Progress, v: Value)
    requires AddOps(ty, g, ops) == Some(h) && g.ops == [] && v !in g.owned && v < g.pass.next
    requires forall k :: 0 <= k < |ops| ==> ops[k].Source()
    requires forall m :: m in g.pass.indicators ==> !AllocatedIn(ops, m)
    ensures Outside(g, g.pass.indicators, g.pass.next, h, ops, v)
    decreases |ops|
  {
    if ops != [] {
      SplitLast(ops);
      var init, op := ops[..|ops| - 1], ops[|ops| - 1];
      var known, first := g.pass.indicators, g.pass.next;
      var m := AddOps(ty, g, init).value;
      forall a
        ensures AllocatedIn(ops, a) <==> AllocatedIn(init, a) || (op.Memory? && a in op.allocs)
      {
        AllocatedSnoc(init, op, a);
      }
      ReleasedExactly(ty, g, init, m, v);
      ReleasedByOp(ty, m, op, h, known, first, init, v);
      SomeReleasesSnoc(known, init, op, v);
      OwnsInserted(m.pass, op.Results());
      ShapeGrows(init, m.ops, op, TransformOp(ty, m.pass, m.ops, op).value.inserted);
    }
  }

  lemma {:induction false} OwnArgumentsNew(p: Pass, args: seq<Value>)
    ensures var r := OwnArguments(p, args); p.next <= r.pass.next && forall v :: v in r.acquired ==> p.next <= v
    decreases |args|
  {
    if args != [] {
      OwnArgumentsNew(p, args[..|args| - 1]);
    }
  }

  /** The same for the transformed block: a parent's indicator is passed on if and only if an operation frees a memref
      that goes back to one with this indicator. */
  lemma BlockReleasesExactly(ty: ElementTypes, p: Pass, args: seq<Value>, ops: seq<Op>, yielded: seq<Value>,
                             ownsInputs: bool, r: BlockResult, v: Value)
    requires TransformedBlock(ty, p, args, ops, yielded, ownsInputs) == Some(r) && v < p.next
    requires forall k :: 0 <= k < |ops| ==> ops[k].Source()
    requires forall m :: m in BlockStart(p, args, ownsInputs).pass.indicators ==> !AllocatedIn(ops, m)
    ensures v in r.released <==> SomeReleases(BlockStart(p, args, ownsInputs).pass.indicators, ops, v)
  {
    var g := BlockStart(p, args, ownsInputs);
    OwnArgumentsNew(p, args);
    ReleasedExactly(ty, g, ops, AddOps(ty, g, ops).value, v);
  }
}

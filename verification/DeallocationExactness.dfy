/** Exactly when a transformed block frees no buffer too early. */
module DeallocationExactness {
  import opened BufferProgram
  import opened Deallocation
  import opened DeallocationEnding
  import opened DeallocationRetains
  import opened DeallocationSafety
  import opened DeallocationSteps
  import opened DeallocationSuccess
  import opened DeallocationTracking
  import opened Options

  /**
   * Buffer `b` of the owned indicator `v` is not freed too early: if a yielded memref names `b`, the class of `v`
   * keeps it, and if the class yields nothing, no operation behind the insertion point of `v` touches `b`.
   */
  ghost predicate FreedInTime(g: Progress, yielded: seq<Value>, s: State, v: Value, b: nat) {
    && (Names(s.env, yielded, b) ==> Kept(g, yielded, s.env, v, b))
    && (Escapes(g.pass.aliases, yielded, v) || TailSpared(g.ops, g.pass.aliases, v, s, b))
  }

  /** No owned buffer is freed too early; `s` is the state behind the operations of the block. */
  ghost predicate FreesInTime(g: Progress, yielded: seq<Value>, s: State) {
    forall v, b :: v in g.owned && v in s.own && s.own[v] == Some(b) ==> FreedInTime(g, yielded, s, v, b)
  }

  lemma YieldedIsNamed(env: map<Value, nat>, yielded: seq<Value>, b: nat)
    ensures Names(env, yielded, b) <==> exists i :: 0 <= i < |yielded| && yielded[i] in env && env[yielded[i]] == b
  {
    if Names(env, yielded, b) {
      var m :| m in yielded && m in env && env[m] == b;
      var i :| 0 <= i < |yielded| && yielded[i] == m;
    }
    if i :| 0 <= i < |yielded| && yielded[i] in env && env[yielded[i]] == b {
      assert yielded[i] in yielded;
    }
  }

  /** Behind early retains that come in time, the yielded memrefs are live if and only if no buffer is freed too
      early. */
  lemma YieldsLiveExactly(g: Progress, yielded: seq<Value>, s: State, t: State, acquired: seq<Value>)
    requires (forall v :: v in g.owned ==> v in s.own) && s.AllTouchable(yielded)
    requires AccountedEnd(g, yielded, s, t, acquired) && AllInTime(g.ops, g.pass.aliases, yielded, g.owned, s)
    ensures t.AllTouchable(yielded) <==> FreesInTime(g, yielded, s)
  {
    if t.AllTouchable(yielded) {
      forall v, b | v in g.owned && v in s.own && s.own[v] == Some(b)
        ensures FreedInTime(g, yielded, s, v, b)
      {
        assert OwnedEnd(g, yielded, s, t, acquired, v, b);
        YieldedIsNamed(s.env, yielded, b);
        assert RetainedInTime(g.ops, g.pass.aliases, yielded, v, s);
        if i :| 0 <= i < |yielded| && yielded[i] in s.env && s.env[yielded[i]] == b {
          assert t.Touchable(yielded[i]);
        }
      }
    }
    if FreesInTime(g, yielded, s) {
      forall i | 0 <= i < |yielded|
        ensures t.Touchable(yielded[i])
      {
        assert s.Touchable(yielded[i]);
        YieldIsLive(g, yielded, s, t, acquired, i);
      }
    }
  }

  lemma YieldIsLive(g: Progress, yielded: seq<Value>, s: State, t: State, acquired: seq<Value>, i: nat)
    requires AccountedEnd(g, yielded, s, t, acquired) && FreesInTime(g, yielded, s)
    requires i < |yielded| && s.Touchable(yielded[i])
    ensures s.env[yielded[i]] in t.live
  {
    var b := s.env[yielded[i]];
    YieldedIsNamed(s.env, yielded, b);
    if Holds(g.owned, s.own, b) {
      var v :| v in g.owned && v in s.own && s.own[v] == Some(b);
      assert OwnedEnd(g, yielded, s, t, acquired, v, b) && FreedInTime(g, yielded, s, v, b);
    }
  }

  lemma FinishedRunsExactly(g: Progress, yielded: seq<Value>, start: State, oracle: Oracle, e: Entry, s: State)
    requires Sane(start) && SourceAndOwns(g.ops) && Run(g.ops, start, oracle) == s
    requires Accounts(g.pass, g.owned, s, e) && s.AllTouchable(yielded)
    ensures
      var r := FinishBlock(g, yielded);
      var t := Run(r.ops, start, oracle);
      && (t.ok && t.AllTouchable(yielded) <==> FreesInTime(g, yielded, s))
      && (t.ok ==> AccountedEnd(g, yielded, s, t, r.acquired))
  {
    if AllInTime(g.ops, g.pass.aliases, yielded, g.owned, s) {
      FinishedIsAccounted(g, yielded, start, oracle, e, s);
      var r := FinishBlock(g, yielded);
      YieldsLiveExactly(g, yielded, s, Run(r.ops, start, oracle), r.acquired);
    } else {
      EarlyRunFails(g, yielded, start, oracle, e, s);
    }
  }

  /** What fails behind the early retains fails in the end. */
  lemma FailedEarly(g: Progress, yielded: seq<Value>, start: State, oracle: Oracle, x: Exit)
    requires x == Exit(g.pass.aliases, yielded, g.owned, x.s, g.pass.next)
    requires !Run(RetainEarly(g.ops, g.pass.aliases, yielded, g.owned), start, oracle).ok
    ensures !Run(FinishBlock(g, yielded).ops, start, oracle).ok
  {
    FinishedOps(g, yielded, x);
    var early := RetainEarly(g.ops, g.pass.aliases, yielded, g.owned);
    var needed := x.reserved in EndingOf(x).acquired;
    NullRuns(early, needed, x.reserved, start, oracle);
    var front := early + (if needed then [Null(x.reserved)] else []);
    RunConcat(front, EndingOf(x).ops, start, oracle);
    RunExtends(EndingOf(x).ops, Run(front, start, oracle), oracle);
  }

  lemma EarlyRunFails(g: Progress, yielded: seq<Value>, start: State, oracle: Oracle, e: Entry, s: State)
    requires Sane(start) && SourceAndOwns(g.ops) && Run(g.ops, start, oracle) == s
    requires Accounts(g.pass, g.owned, s, e) && !AllInTime(g.ops, g.pass.aliases, yielded, g.owned, s)
    ensures !Run(FinishBlock(g, yielded).ops, start, oracle).ok && !FreesInTime(g, yielded, s)
  {
    RetainEarlyRuns(g.ops, g.pass.aliases, yielded, g.owned, g.owned, start, oracle, s);
    FailedEarly(g, yielded, start, oracle, ExitOf(g, yielded, s));
    var v :| v in g.owned && !RetainedInTime(g.ops, g.pass.aliases, yielded, v, s);
    assert !FreedInTime(g, yielded, s, v, s.own[v].value);
  }

  /** Whatever the element types and alias classes: the transformed block touches no dead buffer and yields live
      memrefs if and only if no owned buffer is freed too early. Unless it touches a dead buffer, it accounts for
      every owned buffer, class by class. */
  lemma DeallocatedBlockRunsExactly(ty: ElementTypes, p: Pass, args: seq<Value>, ops: seq<Op>, yielded: seq<Value>,
                                    ownsInputs: bool, start: State, borrowed: set<Value>, oracle: Oracle)
    returns (h: Progress)
    requires Admits(BlockStart(p, args, ownsInputs), start, borrowed)
    requires LegalBlock(ops, BlockStart(p, args, ownsInputs).pass.next, borrowed)
    requires RunsLegally(ops, yielded, start, oracle)
    requires Traced(EntryMemrefs(p, args, ownsInputs), ops)
    ensures AddOps(ty, BlockStart(p, args, ownsInputs), ops) == Some(h)
    ensures TransformedBlock(ty, p, args, ops, yielded, ownsInputs).Some?
    ensures
      var r := TransformedBlock(ty, p, args, ops, yielded, ownsInputs).value;
      var s, t := Run(h.ops, start, oracle), Run(r.ops, start, oracle);
      && r.released == {} && SameMemory(Run(ops, start, oracle), s)
      && (t.ok && t.AllTouchable(yielded) <==> FreesInTime(h, yielded, s))
      && (t.ok ==> AccountedEnd(h, yielded, s, t, r.acquired))
      && forall b :: b in s.live ==>
           (OwnedHere(Entry(start, BlockStart(p, args, ownsInputs).owned, borrowed), b) <==> Holds(h.owned, s.own, b))
  {
    var e := Entry(start, BlockStart(p, args, ownsInputs).owned, borrowed);
    TransformedExactly(ty, p, args, ops, yielded, ownsInputs, start, borrowed, oracle);
    h := AddOps(ty, BlockStart(p, args, ownsInputs), ops).value;
    BlockAccounted(ty, p, args, ops, yielded, ownsInputs, start, borrowed, oracle, h);
    FinishedRunsExactly(h, yielded, start, oracle, e, Run(h.ops, start, oracle));
  }

  /** Alias classes that cover the end of the block free nothing too early. */
  lemma CoveredFreesInTime(ty: ElementTypes, p: Pass, args: seq<Value>, ops: seq<Op>, yielded: seq<Value>,
                           ownsInputs: bool, start: State, borrowed: set<Value>, oracle: Oracle)
    returns (h: Progress)
    requires Admits(BlockStart(p, args, ownsInputs), start, borrowed)
    requires LegalBlock(ops, BlockStart(p, args, ownsInputs).pass.next, borrowed)
    requires RunsLegally(ops, yielded, start, oracle)
    requires EndCovered(ty, p, args, ops, ownsInputs, start, oracle)
    ensures AddOps(ty, BlockStart(p, args, ownsInputs), ops) == Some(h)
    ensures FreesInTime(h, yielded, Run(h.ops, start, oracle))
  {
    CoveredBlockIsSafe(ty, p, args, ops, yielded, ownsInputs, start, borrowed, oracle);
    TransformedExactly(ty, p, args, ops, yielded, ownsInputs, start, borrowed, oracle);
    h := DeallocatedBlockRunsExactly(ty, p, args, ops, yielded, ownsInputs, start, borrowed, oracle);
  }
}

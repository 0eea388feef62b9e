/** A transformed block frees or hands out each buffer it owns exactly once, and touches no dead one. */
module DeallocationSafety {
  import opened BufferProgram
  import opened Deallocation
  import opened DeallocationEnding
  import opened DeallocationRetains
  import opened DeallocationSteps
  import opened DeallocationSuccess
  import opened DeallocationTracking
  import opened Options
  import opened Sequences
  import opened ValueClasses

  /**
   * How a block is entered. The indicators passed in are distinct and hold distinct live buffers or null; an
   * argument whose indicator is null is borrowed.
   */
  ghost predicate Admits(g: Progress, start: State, borrowed: set<Value>) {
    && start.ok && ValidClasses(g.pass.aliases) && Bounded(g.pass, start)
    && OwnsApart(g.owned, start) && Indicated(g.pass, g.owned, start, borrowed) && Sane(start)
  }

  /** The alias classes also cover every memref that shares a buffer with an indicator passed in. */
  ghost predicate Enters(g: Progress, start: State, borrowed: set<Value>) {
    Admits(g, start, borrowed) && Covered(g.pass.aliases, g.owned, start)
  }

  /** A run of the source that breaks no rule and yields live memrefs. */
  ghost predicate RunsLegally(ops: seq<Op>, yielded: seq<Value>, start: State, oracle: Oracle) {
    Run(ops, start, oracle).ok && Run(ops, start, oracle).AllTouchable(yielded)
  }

  ghost predicate HandsOut(t: State, acquired: seq<Value>, i: nat, b: nat) {
    i < |acquired| && acquired[i] in t.own && t.own[acquired[i]] == Some(b)
  }

  /** Place `i`, and no other, hands out buffer `b`. */
  ghost predicate HandsOutOnly(t: State, acquired: seq<Value>, i: nat, b: nat) {
    i < |acquired| && forall j :: 0 <= j < |acquired| ==> (HandsOut(t, acquired, j, b) <==> j == i)
  }

  /** Buffer `b` is either freed and not handed out, or live and handed out at one place. */
  ghost predicate ExactlyOnce(t: State, acquired: seq<Value>, b: nat) {
    if b in t.live then exists i :: HandsOutOnly(t, acquired, i, b)
    else forall j :: 0 <= j < |acquired| ==> !HandsOut(t, acquired, j, b)
  }

  /** The state in front of the ending: the early retains are in place, and a null indicator if one is needed. */
  function ExitOf(g: Progress, yielded: seq<Value>, s: State): Exit
    requires forall v :: v in g.owned ==> v in s.own
  {
    var c, noAlloc := g.pass.aliases, g.pass.next;
    var early := s.(live := s.live - EarlyFreed(c, yielded, g.owned, s.own));
    Exit(c, yielded, g.owned,
         if noAlloc in BlockEnding(c, yielded, g.owned, noAlloc).acquired then early.Hold(noAlloc, None) else early,
         noAlloc)
  }

  function EndingOf(x: Exit): (e: Ending)
    ensures |e.acquired| == |x.yielded|
  {
    BlockEnding(x.c, x.yielded, x.owned, x.reserved)
  }

  /** The exit state differs from the state `s` in the freed buffers and the null indicator only. */
  lemma ExitState(g: Progress, yielded: seq<Value>, s: State, e: Entry)
    requires Accounts(g.pass, g.owned, s, e)
    ensures
      var x := ExitOf(g, yielded, s);
      && x.s.ok && (forall v :: v in x.s.own ==> v <= g.pass.next)
      && (g.pass.next in x.s.own ==> x.s.own[g.pass.next] == None)
      && x.s.env == s.env && (forall v :: v in g.owned ==> v in x.s.own && x.s.own[v] == s.own[v])
      && x.s.live == s.live - EarlyFreed(x.c, x.yielded, x.owned, s.own)
  {
    assert g.pass.next !in s.own && g.pass.next !in g.owned;
  }

  lemma EarlyFreedSame(c: Classes, yielded: seq<Value>, owned: seq<Value>, own: map<Value, Option<nat>>,
                       more: map<Value, Option<nat>>)
    requires forall v :: v in owned ==> v in own && v in more && more[v] == own[v]
    ensures EarlyFreed(c, yielded, owned, own) == EarlyFreed(c, yielded, owned, more)
  {
  }

  lemma ExitPrepared(g: Progress, yielded: seq<Value>, s: State, e: Entry)
    requires Accounts(g.pass, g.owned, s, e) && s.AllTouchable(yielded)
    ensures
      var x := ExitOf(g, yielded, s);
      && Prepared(x) && (forall v :: v in x.s.own ==> v <= g.pass.next)
      && (g.pass.next in x.s.own ==> x.s.own[g.pass.next] == None)
      && x.s.env == s.env && (forall v :: v in g.owned ==> v in x.s.own && x.s.own[v] == s.own[v])
      && x.s.live == s.live - EarlyFreed(x.c, x.yielded, x.owned, x.s.own)
  {
    ExitState(g, yielded, s, e);
    var x := ExitOf(g, yielded, s);
    EarlyFreedSame(x.c, yielded, g.owned, s.own, x.s.own);
    assert forall i :: 0 <= i < |yielded| ==> s.Touchable(yielded[i]);
    assert HeldApart(x.owned, x.s.own);
  }

  lemma AllYield(x: Exit)
    ensures forall l :: l in Leaders(x.c, x.yielded) ==> Yields(x, l)
  {
    LeadersLead(x.c, x.yielded);
    forall l | l in Leaders(x.c, x.yielded)
      ensures Yields(x, l)
    {
      var v :| v in x.yielded && Leader(x.c, v) == l;
      var i :| 0 <= i < |x.yielded| && x.yielded[i] == v;
      assert InClass(x, i, l);
    }
  }

  /** The ending runs from the state behind the early retains. */
  lemma EndingEnds(x: Exit, oracle: Oracle)
    requires Prepared(x) && forall v :: v in x.s.own ==> v <= x.reserved
    requires x.reserved in x.s.own ==> x.s.own[x.reserved] == None
    ensures Ended(x, Leaders(x.c, x.yielded), EndingOf(x), Run(EndingOf(x).ops, x.s, oracle))
  {
    LeadersDistinct(x.c, x.yielded);
    AllYield(x);
    EndGroupsEnds(x, Leaders(x.c, x.yielded), NothingPlaced(|x.yielded|, x.reserved, x.c), oracle);
  }

  lemma FinishedOps(g: Progress, yielded: seq<Value>, x: Exit)
    requires x == Exit(g.pass.aliases, yielded, g.owned, x.s, g.pass.next)
    ensures FinishBlock(g, yielded).acquired == EndingOf(x).acquired
    ensures FinishBlock(g, yielded).ops
         == RetainEarly(g.ops, g.pass.aliases, yielded, g.owned)
            + (if x.reserved in EndingOf(x).acquired then [Null(x.reserved)] else []) + EndingOf(x).ops
  {
  }

  lemma NullRuns(ops: seq<Op>, needed: bool, v: Value, s: State, oracle: Oracle)
    ensures Run(ops + (if needed then [Null(v)] else []), s, oracle)
         == if needed then Run(ops, s, oracle).Hold(v, None) else Run(ops, s, oracle)
  {
    RunSnoc(ops, Null(v), s, oracle);
    assert ops + [] == ops;
  }

  /** When no early retain comes too early, the finished block runs like its ending from the exit. */
  lemma BlockRuns(g: Progress, yielded: seq<Value>, start: State, oracle: Oracle, e: Entry, s: State, x: Exit)
    requires Sane(start) && SourceAndOwns(g.ops) && Run(g.ops, start, oracle) == s
    requires Accounts(g.pass, g.owned, s, e) && AllInTime(g.ops, g.pass.aliases, yielded, g.owned, s)
    requires x == ExitOf(g, yielded, s)
    ensures Run(FinishBlock(g, yielded).ops, start, oracle) == Run(EndingOf(x).ops, x.s, oracle)
    ensures FinishBlock(g, yielded).acquired == EndingOf(x).acquired
  {
    RetainEarlyRuns(g.ops, g.pass.aliases, yielded, g.owned, g.owned, start, oracle, s);
    FinishedOps(g, yielded, x);
    var early := RetainEarly(g.ops, g.pass.aliases, yielded, g.owned);
    var needed := x.reserved in EndingOf(x).acquired;
    NullRuns(early, needed, x.reserved, start, oracle);
    RunConcat(early + (if needed then [Null(x.reserved)] else []), EndingOf(x).ops, start, oracle);
  }

  // ---------------------------------------------------------------- each owned buffer once

  /** The class of `v` keeps buffer `b` of `v` alive: by handing `v` over, or by yielding a memref that names `b`. */
  ghost predicate Kept(g: Progress, yielded: seq<Value>, env: map<Value, nat>, v: Value, b: nat) {
    var c, l := g.pass.aliases, Leader(g.pass.aliases, v);
    Escapes(c, yielded, v) && (HandsOver(c, yielded, g.owned, l) || Names(env, GroupOf(c, yielded, l), b))
  }

  ghost predicate HandedNowhere(t: State, acquired: seq<Value>, b: nat) {
    forall j :: 0 <= j < |acquired| ==> !HandsOut(t, acquired, j, b)
  }

  /**
   * The buffer is freed, or live and handed out at one place, unless the first memref with it among `group` occurs
   * there again; then it leaks.
   */
  ghost predicate OnceUnlessLost(env: map<Value, nat>, group: seq<Value>, t: State, acquired: seq<Value>, b: nat) {
    && (ExactlyOnce(t, acquired, b) <==> !Lost(env, group, b))
    && (Lost(env, group, b) ==> b in t.live && HandedNowhere(t, acquired, b))
  }

  /** What becomes of buffer `b` of the owned indicator `v`. */
  ghost predicate OwnedEnd(g: Progress, yielded: seq<Value>, s: State, t: State, acquired: seq<Value>, v: Value, b: nat)
  {
    && (b in t.live <==> Kept(g, yielded, s.env, v, b))
    && OnceUnlessLost(s.env, GroupOf(g.pass.aliases, yielded, Leader(g.pass.aliases, v)), t, acquired, b)
  }

  /**
   * How the finished block ends that reaches `s` in front of its retains: owned buffers are accounted for class by
   * class, all others are untouched, and nothing else is handed out.
   */
  ghost predicate AccountedEnd(g: Progress, yielded: seq<Value>, s: State, t: State, acquired: seq<Value>) {
    && t.ok && t.env == s.env && t.live <= s.live
    && |acquired| == |yielded| && (forall i :: 0 <= i < |acquired| ==> acquired[i] in t.own)
    && (forall v, b :: v in g.owned && v in s.own && s.own[v] == Some(b) ==>
          OwnedEnd(g, yielded, s, t, acquired, v, b))
    && (forall b :: b in s.live && !Holds(g.owned, s.own, b) ==> b in t.live)
    && forall i, b :: 0 <= i < |acquired| && HandsOut(t, acquired, i, b) ==> b in t.live && Holds(g.owned, s.own, b)
  }

  /** All classes of yielded memrefs have ended. */
  ghost predicate AllEnded(x: Exit, e: Ending, t: State) {
    Prepared(x) && Ended(x, Leaders(x.c, x.yielded), e, t)
  }

  /** A buffer is handed out by the class of the indicator that holds it. */
  lemma GivenInClass(x: Exit, e: Ending, t: State, v: Value, b: nat, j: nat)
    requires AllEnded(x, e, t) && v in x.owned && x.s.own[v] == Some(b)
    requires j < |x.yielded| && HandsOut(t, e.acquired, j, b)
    ensures InClass(x, j, Leader(x.c, v)) && Gives(x, e, t, j, b)
  {
    assert x.yielded[j] in x.yielded;
    assert GivesOwned(x, e, t, j);
    assert Gives(x, e, t, j, b);
  }

  lemma NoneHandedOut(x: Exit, e: Ending, t: State, v: Value, b: nat)
    requires AllEnded(x, e, t) && v in x.owned && x.s.own[v] == Some(b) && NoneGives(x, e, t, Leader(x.c, v), b)
    ensures HandedNowhere(t, e.acquired, b)
  {
    forall j | 0 <= j < |x.yielded|
      ensures !HandsOut(t, e.acquired, j, b)
    {
      if HandsOut(t, e.acquired, j, b) {
        GivenInClass(x, e, t, v, b, j);
      }
    }
  }

  lemma NotYieldedNotLost(x: Exit, leader: Value, b: nat)
    requires NoneYields(x, leader, b)
    ensures !LostIn(x, leader, b)
  {
    var group := GroupOf(x.c, x.yielded, leader);
    forall k | 0 <= k < |group|
      ensures !FirstWith(x.s.env, group, k, b)
    {
      assert group[k] in group;
      var i :| 0 <= i < |x.yielded| && x.yielded[i] == group[k];
      assert InClass(x, i, leader);
    }
  }

  lemma OnlyPlaceOfAll(x: Exit, e: Ending, t: State, v: Value, i: nat, b: nat)
    requires AllEnded(x, e, t) && v in x.owned && x.s.own[v] == Some(b)
    requires OnlyGives(x, e, t, Leader(x.c, v), i, b)
    ensures HandsOutOnly(t, e.acquired, i, b)
  {
    forall j | 0 <= j < |x.yielded|
      ensures HandsOut(t, e.acquired, j, b) <==> j == i
    {
      if HandsOut(t, e.acquired, j, b) {
        GivenInClass(x, e, t, v, b, j);
      }
      assert InClass(x, j, Leader(x.c, v)) ==> (Gives(x, e, t, j, b) <==> j == i);
    }
  }

  lemma EscapingOnce(x: Exit, e: Ending, t: State, v: Value, b: nat)
    requires AllEnded(x, e, t) && v in x.owned && x.s.own[v] == Some(b) && Escapes(x.c, x.yielded, v)
    ensures OnceUnlessLost(x.s.env, GroupOf(x.c, x.yielded, Leader(x.c, v)), t, e.acquired, b)
  {
    var l := Leader(x.c, v);
    var k :| 0 <= k < |x.yielded| && Equivalent(x.c, x.yielded[k], v);
    assert x.yielded[k] in x.yielded;
    assert Settled(x, e, t, v);
    if b !in t.live {
      NoneHandedOut(x, e, t, v, b);
      NotYieldedNotLost(x, l, b);
    } else if LostIn(x, l, b) {
      NoneHandedOut(x, e, t, v, b);
      assert forall i :: HandsOutOnly(t, e.acquired, i, b) ==> HandsOut(t, e.acquired, i, b);
    } else {
      var i :| OnlyGives(x, e, t, l, i, b);
      OnlyPlaceOfAll(x, e, t, v, i, b);
    }
  }

  lemma StayingOnce(x: Exit, e: Ending, t: State, v: Value, b: nat)
    requires AllEnded(x, e, t) && v in x.owned && x.s.own[v] == Some(b) && !Escapes(x.c, x.yielded, v)
    requires b !in x.s.live
    ensures b !in t.live && OnceUnlessLost(x.s.env, GroupOf(x.c, x.yielded, Leader(x.c, v)), t, e.acquired, b)
  {
    assert forall j :: 0 <= j < |x.yielded| ==> !InClass(x, j, Leader(x.c, v)) by {
      assert forall j :: 0 <= j < |x.yielded| ==> !Equivalent(x.c, x.yielded[j], v);
    }
    NoneHandedOut(x, e, t, v, b);
    NotYieldedNotLost(x, Leader(x.c, v), b);
  }

  /** A class of yielded memrefs ends, and its owned indicators escape. */
  lemma EscapesByLeader(c: Classes, yielded: seq<Value>, v: Value)
    ensures Escapes(c, yielded, v) <==> Leader(c, v) in Leaders(c, yielded)
  {
    LeadersLead(c, yielded);
    if Escapes(c, yielded, v) {
      var k :| 0 <= k < |yielded| && Equivalent(c, yielded[k], v);
      assert yielded[k] in yielded;
    }
    if Leader(c, v) in Leaders(c, yielded) {
      var y :| y in yielded && Leader(c, y) == Leader(c, v);
      var k :| 0 <= k < |yielded| && yielded[k] == y;
      assert Equivalent(c, yielded[k], v);
    }
  }

  /** An owned buffer is live in the end exactly if its class keeps it. */
  lemma LiveIfKept(g: Progress, yielded: seq<Value>, s: State, x: Exit, e: Ending, t: State, v: Value, b: nat)
    requires AllEnded(x, e, t) && x.c == g.pass.aliases && x.yielded == yielded && x.owned == g.owned
    requires x.s.env == s.env && b in s.live && v in g.owned && x.s.own[v] == Some(b)
    requires x.s.live == s.live - EarlyFreed(x.c, x.yielded, x.owned, x.s.own)
    ensures b in t.live <==> Kept(g, yielded, s.env, v, b)
    ensures b in x.s.live <==> Escapes(x.c, yielded, v)
  {
    EscapesByLeader(x.c, yielded, v);
    assert forall w :: w in x.owned && x.s.own[w] == Some(b) ==> w == v;
    assert HeldIn(x, Leader(x.c, v), b) && forall l :: HeldIn(x, l, b) ==> l == Leader(x.c, v);
    assert b in EarlyFreed(x.c, x.yielded, x.owned, x.s.own) <==> !Escapes(x.c, yielded, v);
  }

  lemma OwnedEnds(g: Progress, yielded: seq<Value>, s: State, x: Exit, e: Ending, t: State, v: Value, b: nat)
    requires AllEnded(x, e, t) && x.c == g.pass.aliases && x.yielded == yielded && x.owned == g.owned
    requires x.s.env == s.env && b in s.live && v in g.owned && x.s.own[v] == Some(b)
    requires x.s.live == s.live - EarlyFreed(x.c, x.yielded, x.owned, x.s.own)
    ensures OwnedEnd(g, yielded, s, t, e.acquired, v, b)
  {
    LiveIfKept(g, yielded, s, x, e, t, v, b);
    if Escapes(x.c, yielded, v) {
      EscapingOnce(x, e, t, v, b);
    } else {
      StayingOnce(x, e, t, v, b);
    }
  }

  /** A buffer that is gone in the end was held by an owned indicator. */
  lemma GoneWasHeld(x: Exit, ending: Ending, t: State, live: set<nat>, b: nat)
    requires AllEnded(x, ending, t) && b in live && b !in t.live
    requires x.s.live == live - EarlyFreed(x.c, x.yielded, x.owned, x.s.own)
    ensures Holds(x.owned, x.s.own, b)
  {
    if b in x.s.live {
      var l :| l in Leaders(x.c, x.yielded) && ClassFrees(x, l, b);
    }
  }

  /** What a place hands out is held by an owned indicator. */
  lemma GivenWasHeld(x: Exit, ending: Ending, t: State, i: nat, b: nat)
    requires AllEnded(x, ending, t) && i < |x.yielded| && HandsOut(t, ending.acquired, i, b)
    ensures Holds(x.owned, x.s.own, b)
  {
    assert x.yielded[i] in x.yielded;
    assert GivesOwned(x, ending, t, i) && Gives(x, ending, t, i, b);
  }

  lemma PlaceIsDefined(x: Exit, ending: Ending, t: State, i: nat)
    requires AllEnded(x, ending, t) && i < |x.yielded|
    requires x.reserved in ending.acquired ==> x.reserved in x.s.own
    ensures ending.acquired[i] in t.own
  {
    assert x.yielded[i] in x.yielded;
    assert GivesOwned(x, ending, t, i);
  }

  lemma HoldsSame(owned: seq<Value>, own: map<Value, Option<nat>>, more: map<Value, Option<nat>>, b: nat)
    requires forall v :: v in owned ==> v in own && v in more && more[v] == own[v]
    ensures Holds(owned, own, b) <==> Holds(owned, more, b)
  {
  }

  lemma EndIsAccounted(g: Progress, yielded: seq<Value>, s: State, e: Entry, x: Exit, ending: Ending, t: State)
    requires Accounts(g.pass, g.owned, s, e) && s.AllTouchable(yielded) && x == ExitOf(g, yielded, s)
    requires AllEnded(x, ending, t) && ending == EndingOf(x)
    ensures AccountedEnd(g, yielded, s, t, ending.acquired)
  {
    ExitPrepared(g, yielded, s, e);
    forall v, b | v in g.owned && v in s.own && s.own[v] == Some(b)
      ensures OwnedEnd(g, yielded, s, t, ending.acquired, v, b)
    {
      OwnedEnds(g, yielded, s, x, ending, t, v, b);
    }
    forall b | b in s.live && b !in t.live
      ensures Holds(g.owned, s.own, b)
    {
      GoneWasHeld(x, ending, t, s.live, b);
      HoldsSame(g.owned, s.own, x.s.own, b);
    }
    forall i | 0 <= i < |yielded|
      ensures ending.acquired[i] in t.own
    {
      PlaceIsDefined(x, ending, t, i);
    }
    forall i, b | 0 <= i < |yielded| && HandsOut(t, ending.acquired, i, b)
      ensures b in t.live && Holds(g.owned, s.own, b)
    {
      GivenWasHeld(x, ending, t, i, b);
      HoldsSame(g.owned, s.own, x.s.own, b);
      var v :| v in g.owned && v in s.own && s.own[v] == Some(b);
      assert OwnedEnd(g, yielded, s, t, ending.acquired, v, b);
    }
  }

  lemma FinishedIsAccounted(g: Progress, yielded: seq<Value>, start: State, oracle: Oracle, e: Entry, s: State)
    requires Sane(start) && SourceAndOwns(g.ops) && Run(g.ops, start, oracle) == s
    requires Accounts(g.pass, g.owned, s, e) && s.AllTouchable(yielded)
    requires AllInTime(g.ops, g.pass.aliases, yielded, g.owned, s)
    ensures
      var r := FinishBlock(g, yielded);
      AccountedEnd(g, yielded, s, Run(r.ops, start, oracle), r.acquired)
  {
    var x := ExitOf(g, yielded, s);
    ExitPrepared(g, yielded, s, e);
    EndingEnds(x, oracle);
    BlockRuns(g, yielded, start, oracle, e, s, x);
    EndIsAccounted(g, yielded, s, e, x, EndingOf(x), Run(EndingOf(x).ops, x.s, oracle));
  }

  // ---------------------------------------------------------------- with classes that cover the end

  /**
   * How the end state `t` of the transformed block compares with the end state `f` of the source: no step was
   * illegal, memrefs mean the same, yielded memrefs are live, foreign buffers are untouched, and a buffer that the
   * block owns is freed or handed out, exactly once, unless the first yielded memref with that buffer is yielded
   * again; then it leaks.
   */
  ghost predicate SafeEnd(f: State, t: State, e: Entry, yielded: seq<Value>, acquired: seq<Value>) {
    && t.ok && t.env == f.env && t.live <= f.live && t.AllTouchable(yielded)
    && |acquired| == |yielded| && (forall i :: 0 <= i < |acquired| ==> acquired[i] in t.own)
    && (forall b :: b in f.live && !OwnedHere(e, b) ==> b in t.live)
    && (forall b :: b in f.live && OwnedHere(e, b) ==> OnceUnlessLost(f.env, yielded, t, acquired, b))
    && forall i, b :: 0 <= i < |acquired| && HandsOut(t, acquired, i, b) ==> b in t.live && OwnedHere(e, b)
  }

  lemma TrackedInTime(g: Progress, yielded: seq<Value>, s: State, e: Entry)
    requires SourceAndOwns(g.ops) && Tracks(g.pass, g.owned, s, e)
    ensures AllInTime(g.ops, g.pass.aliases, yielded, g.owned, s)
  {
    CoveredInTime(g.ops, g.pass.aliases, yielded, g.owned, s);
  }

  /** Covering classes keep what is yielded. */
  lemma NamedIsKept(g: Progress, yielded: seq<Value>, s: State, e: Entry, v: Value, b: nat)
    requires Tracks(g.pass, g.owned, s, e) && v in g.owned && s.own[v] == Some(b) && Names(s.env, yielded, b)
    ensures Kept(g, yielded, s.env, v, b)
  {
    var m :| m in yielded && m in s.env && s.env[m] == b;
    assert Equivalent(g.pass.aliases, m, v);
    var k :| 0 <= k < |yielded| && yielded[k] == m;
    assert Equivalent(g.pass.aliases, yielded[k], v);
    assert m in GroupOf(g.pass.aliases, yielded, Leader(g.pass.aliases, v));
  }

  /** The first memref with buffer `b` of a class that has all of them is the first of all. */
  lemma FirstOfAll(c: Classes, env: map<Value, nat>, vs: seq<Value>, leader: Value, b: nat, places: seq<nat>, k: nat)
    requires forall i :: 0 <= i < |vs| && vs[i] in env && env[vs[i]] == b ==> Leader(c, vs[i]) == leader
    requires PlacesOf(c, vs, leader, places) && k < |places|
    ensures FirstWith(env, GroupOf(c, vs, leader), k, b) <==> FirstWith(env, vs, places[k], b)
  {
    var group := GroupOf(c, vs, leader);
    assert vs[places[k]] == group[k];
    if FirstWith(env, group, k, b) {
      forall h | 0 <= h < places[k]
        ensures !(vs[h] in env && env[vs[h]] == b)
      {
        if Leader(c, vs[h]) == leader {
          var m :| 0 <= m < |places| && places[m] == h;
          assert m < k && vs[places[m]] == group[m];
        }
      }
    }
    assert forall h :: 0 <= h < k ==> places[h] < places[k] && vs[places[h]] == group[h];
  }

  /** If all memrefs with buffer `b` are in one class, `b` is lost in the block when it is lost in the class. */
  lemma LostInClass(c: Classes, env: map<Value, nat>, vs: seq<Value>, leader: Value, b: nat)
    requires forall i :: 0 <= i < |vs| && vs[i] in env && env[vs[i]] == b ==> Leader(c, vs[i]) == leader
    ensures Lost(env, vs, b) <==> Lost(env, GroupOf(c, vs, leader), b)
  {
    var group := GroupOf(c, vs, leader);
    var places := GroupPlaces(c, vs, leader);
    if Lost(env, group, b) {
      var k, m :| 0 <= k < m < |group| && group[m] == group[k] && FirstWith(env, group, k, b);
      FirstOfAll(c, env, vs, leader, b, places, k);
      assert vs[places[m]] == vs[places[k]] && places[k] < places[m];
    }
    if Lost(env, vs, b) {
      LostToClass(c, env, vs, leader, b, places);
    }
  }

  lemma LostToClass(c: Classes, env: map<Value, nat>, vs: seq<Value>, leader: Value, b: nat, places: seq<nat>)
    requires forall i :: 0 <= i < |vs| && vs[i] in env && env[vs[i]] == b ==> Leader(c, vs[i]) == leader
    requires PlacesOf(c, vs, leader, places) && Lost(env, vs, b)
    ensures Lost(env, GroupOf(c, vs, leader), b)
  {
    var group := GroupOf(c, vs, leader);
    var i, j :| 0 <= i < j < |vs| && vs[j] == vs[i] && FirstWith(env, vs, i, b);
    var k :| 0 <= k < |places| && places[k] == i;
    var m :| 0 <= m < |places| && places[m] == j;
    FirstOfAll(c, env, vs, leader, b, places, k);
    assert k < m && group[m] == group[k];
  }

  lemma OwnedSafely(g: Progress, yielded: seq<Value>, s: State, e: Entry, t: State, acquired: seq<Value>, b: nat)
    requires Tracks(g.pass, g.owned, s, e) && AccountedEnd(g, yielded, s, t, acquired)
    requires b in s.live && OwnedHere(e, b)
    ensures OnceUnlessLost(s.env, yielded, t, acquired, b) && (Names(s.env, yielded, b) ==> b in t.live)
  {
    var v :| v in g.owned && v in s.own && s.own[v] == Some(b);
    assert OwnedEnd(g, yielded, s, t, acquired, v, b);
    forall i | 0 <= i < |yielded| && yielded[i] in s.env && s.env[yielded[i]] == b
      ensures Leader(g.pass.aliases, yielded[i]) == Leader(g.pass.aliases, v)
    {
      assert Equivalent(g.pass.aliases, yielded[i], v);
    }
    LostInClass(g.pass.aliases, s.env, yielded, Leader(g.pass.aliases, v), b);
    if Names(s.env, yielded, b) {
      NamedIsKept(g, yielded, s, e, v, b);
    }
  }

  lemma EndIsSafe(g: Progress, yielded: seq<Value>, s: State, e: Entry, t: State, acquired: seq<Value>)
    requires Tracks(g.pass, g.owned, s, e) && s.AllTouchable(yielded) && AccountedEnd(g, yielded, s, t, acquired)
    ensures SafeEnd(s, t, e, yielded, acquired)
  {
    forall b | b in s.live && OwnedHere(e, b)
      ensures OnceUnlessLost(s.env, yielded, t, acquired, b) && (Names(s.env, yielded, b) ==> b in t.live)
    {
      OwnedSafely(g, yielded, s, e, t, acquired, b);
    }
    forall i | 0 <= i < |yielded|
      ensures t.Touchable(yielded[i])
    {
      assert s.Touchable(yielded[i]) && yielded[i] in yielded;
      assert Names(s.env, yielded, s.env[yielded[i]]);
    }
  }

  lemma EntryAccounted(g: Progress, start: State, borrowed: set<Value>)
    requires Admits(g, start, borrowed)
    ensures Accounts(g.pass, g.owned, start, Entry(start, g.owned, borrowed))
  {
  }

  lemma NothingAdvanced(g: Progress, e: Entry)
    requires Accounts(g.pass, g.owned, e.start, e) && g.ops == [] && g.released == {}
    ensures Advanced(g, [], e, e.start, e.start)
  {
  }

  /** The block in front of its terminator: nothing is released, and the owned indicators account for everything. */
  lemma BlockAccounted(ty: ElementTypes, p: Pass, args: seq<Value>, ops: seq<Op>, yielded: seq<Value>, ownsInputs: bool,
                       start: State, borrowed: set<Value>, oracle: Oracle, h: Progress)
    requires Admits(BlockStart(p, args, ownsInputs), start, borrowed)
    requires LegalBlock(ops, BlockStart(p, args, ownsInputs).pass.next, borrowed)
    requires RunsLegally(ops, yielded, start, oracle)
    requires AddOps(ty, BlockStart(p, args, ownsInputs), ops) == Some(h)
    ensures
      var s := Run(h.ops, start, oracle);
      && Advanced(h, ops, Entry(start, BlockStart(p, args, ownsInputs).owned, borrowed), Run(ops, start, oracle), s)
      && s.AllTouchable(yielded)
  {
    var g := BlockStart(p, args, ownsInputs);
    var e := Entry(start, g.owned, borrowed);
    EntryAccounted(g, start, borrowed);
    NothingAdvanced(g, e);
    OpsAccounted(ty, g, ops, h, e, oracle);
    SameTouchable(Run(ops, start, oracle), Run(h.ops, start, oracle), yielded);
  }

  /** The memrefs that have an indicator when the block is entered. */
  function EntryMemrefs(p: Pass, args: seq<Value>, ownsInputs: bool): set<Value> {
    p.indicators.Keys + if ownsInputs then set a | a in args else {}
  }

  lemma EntryHasIndicators(p: Pass, args: seq<Value>, ownsInputs: bool)
    ensures BlockStart(p, args, ownsInputs).pass.indicators.Keys == EntryMemrefs(p, args, ownsInputs)
  {
    if ownsInputs {
      forall m
        ensures m in BlockStart(p, args, ownsInputs).pass.indicators <==> m in EntryMemrefs(p, args, ownsInputs)
      {
        OwnArgumentsKeys(p, args, m);
      }
    }
  }

  /** The pass succeeds on a legal block if and only if every memref that the block frees goes back to one that has an
      indicator at the entry or that an earlier operation allocates. */
  lemma TransformedExactly(ty: ElementTypes, p: Pass, args: seq<Value>, ops: seq<Op>, yielded: seq<Value>,
                           ownsInputs: bool, start: State, borrowed: set<Value>, oracle: Oracle)
    requires Admits(BlockStart(p, args, ownsInputs), start, borrowed)
    requires LegalBlock(ops, BlockStart(p, args, ownsInputs).pass.next, borrowed)
    requires RunsLegally(ops, yielded, start, oracle)
    ensures TransformedBlock(ty, p, args, ops, yielded, ownsInputs).Some?
       <==> Traced(EntryMemrefs(p, args, ownsInputs), ops)
  {
    var g := BlockStart(p, args, ownsInputs);
    var e := Entry(start, g.owned, borrowed);
    EntryAccounted(g, start, borrowed);
    NothingAdvanced(g, e);
    EntryHasIndicators(p, args, ownsInputs);
    OpsSucceed(ty, g, ops, e, oracle);
  }

  /** The alias classes behind the operations of the block cover what has happened. */
  ghost predicate EndCovered(ty: ElementTypes, p: Pass, args: seq<Value>, ops: seq<Op>, ownsInputs: bool,
                             start: State, oracle: Oracle)
  {
    match AddOps(ty, BlockStart(p, args, ownsInputs), ops)
    case None => false
    case Some(h) => Covered(h.pass.aliases, h.owned, Run(h.ops, start, oracle))
  }

  /** If the alias classes cover the end of the block, a legal run of the source gives a safe run of the transformed
      block, and nothing is released. */
  lemma CoveredBlockIsSafe(ty: ElementTypes, p: Pass, args: seq<Value>, ops: seq<Op>, yielded: seq<Value>,
                           ownsInputs: bool, start: State, borrowed: set<Value>, oracle: Oracle)
    requires Admits(BlockStart(p, args, ownsInputs), start, borrowed)
    requires LegalBlock(ops, BlockStart(p, args, ownsInputs).pass.next, borrowed)
    requires RunsLegally(ops, yielded, start, oracle)
    requires EndCovered(ty, p, args, ops, ownsInputs, start, oracle)
    ensures TransformedBlock(ty, p, args, ops, yielded, ownsInputs).Some?
    ensures
      var r := TransformedBlock(ty, p, args, ops, yielded, ownsInputs).value;
      && r.released == {}
      && SafeEnd(Run(ops, start, oracle), Run(r.ops, start, oracle),
                 Entry(start, BlockStart(p, args, ownsInputs).owned, borrowed), yielded, r.acquired)
  {
    var e := Entry(start, BlockStart(p, args, ownsInputs).owned, borrowed);
    var h := AddOps(ty, BlockStart(p, args, ownsInputs), ops).value;
    BlockAccounted(ty, p, args, ops, yielded, ownsInputs, start, borrowed, oracle, h);
    var s, r := Run(h.ops, start, oracle), FinishBlock(h, yielded);
    TrackedInTime(h, yielded, s, e);
    FinishedIsAccounted(h, yielded, start, oracle, e, s);
    EndIsSafe(h, yielded, s, e, Run(r.ops, start, oracle), r.acquired);
    SafeForSource(Run(ops, start, oracle), s, Run(r.ops, start, oracle), e, yielded, r.acquired);
  }

  /** So it is when views and opaque results have the element type of what they refer to, and what the block frees
      is traced. */
  lemma DeallocatedBlockIsSafe(ty: ElementTypes, p: Pass, args: seq<Value>, ops: seq<Op>, yielded: seq<Value>,
                               ownsInputs: bool, start: State, borrowed: set<Value>, oracle: Oracle)
    requires Enters(BlockStart(p, args, ownsInputs), start, borrowed)
    requires LegalBlock(ops, BlockStart(p, args, ownsInputs).pass.next, borrowed)
    requires RunsLegally(ops, yielded, start, oracle)
    requires TypedBlock(ty, ops, Entry(start, BlockStart(p, args, ownsInputs).owned, borrowed), oracle)
    requires Traced(EntryMemrefs(p, args, ownsInputs), ops)
    ensures TransformedBlock(ty, p, args, ops, yielded, ownsInputs).Some?
    ensures
      var r := TransformedBlock(ty, p, args, ops, yielded, ownsInputs).value;
      && r.released == {}
      && SafeEnd(Run(ops, start, oracle), Run(r.ops, start, oracle),
                 Entry(start, BlockStart(p, args, ownsInputs).owned, borrowed), yielded, r.acquired)
  {
    var g := BlockStart(p, args, ownsInputs);
    var e := Entry(start, g.owned, borrowed);
    TransformedExactly(ty, p, args, ops, yielded, ownsInputs, start, borrowed, oracle);
    var h := AddOps(ty, g, ops).value;
    EntryAccounted(g, start, borrowed);
    NothingAdvanced(g, e);
    OpsCovered(ty, g, ops, h, e, oracle);
    CoveredBlockIsSafe(ty, p, args, ops, yielded, ownsInputs, start, borrowed, oracle);
  }

  lemma SameTouchable(f: State, s: State, yielded: seq<Value>)
    requires SameMemory(f, s) && f.AllTouchable(yielded)
    ensures s.AllTouchable(yielded)
  {
    forall k | 0 <= k < |yielded|
      ensures s.Touchable(yielded[k])
    {
      assert f.Touchable(yielded[k]);
    }
  }

  lemma SafeForSource(f: State, s: State, t: State, e: Entry, yielded: seq<Value>, acquired: seq<Value>)
    requires SameMemory(f, s) && SafeEnd(s, t, e, yielded, acquired)
    ensures SafeEnd(f, t, e, yielded, acquired)
  {
  }

  /** When no memref is yielded twice, no buffer is lost: every owned buffer is accounted for exactly once. */
  lemma DistinctYieldsLoseNothing(f: State, t: State, e: Entry, yielded: seq<Value>, acquired: seq<Value>)
    requires SafeEnd(f, t, e, yielded, acquired) && Distinct(yielded)
    ensures forall b :: b in f.live && OwnedHere(e, b) ==> ExactlyOnce(t, acquired, b)
  {
    forall b
      ensures !Lost(f.env, yielded, b)
    {
    }
  }
}

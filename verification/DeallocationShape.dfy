/** What a transformed block looks like: its own operations in order, and the operations that are added. */
module DeallocationShape {
  import opened BufferProgram
  import opened Deallocation
  import opened DeallocationEnding
  import opened DeallocationSuccess
  import opened DeallocationTracking
  import opened Options
  import opened Sequences
  import opened ValueClasses

  // ---------------------------------------------------------------- the block's own operations

  /** The operations that the pass has not added. */
  function SourceOps(ops: seq<Op>): seq<Op> {
    if ops == [] then []
    else SourceOps(ops[..|ops| - 1]) + if ops[|ops| - 1].Source() then [ops[|ops| - 1]] else []
  }

  predicate NoneFromSource(ops: seq<Op>) {
    forall k :: 0 <= k < |ops| ==> !ops[k].Source()
  }

  lemma {:induction false} NothingFromSource(ops: seq<Op>)
    requires NoneFromSource(ops)
    ensures SourceOps(ops) == []
    decreases |ops|
  {
    if ops != [] {
      NothingFromSource(ops[..|ops| - 1]);
    }
  }

  lemma {:induction false} SourceOpsConcat(a: seq<Op>, b: seq<Op>)
    ensures SourceOps(a + b) == SourceOps(a) + SourceOps(b)
    decreases |b|
  {
    if b == [] {
      assert a + b == a;
    } else {
      SourceOpsConcat(a, b[..|b| - 1]);
      assert (a + b)[..|a + b| - 1] == a + b[..|b| - 1];
    }
  }

  /** Added operations leave the source's alone. */
  lemma SourceOpsAround(a: seq<Op>, added: seq<Op>, b: seq<Op>)
    requires NoneFromSource(added)
    ensures SourceOps(a + added + b) == SourceOps(a + b)
  {
    SourceOpsConcat(a + added, b);
    SourceOpsConcat(a, added);
    SourceOpsConcat(a, b);
    NothingFromSource(added);
  }

  lemma {:induction false} RetainsKeepSource(ops: seq<Op>, c: Classes, yielded: seq<Value>, owned: seq<Value>)
    ensures SourceOps(RetainEarly(ops, c, yielded, owned)) == SourceOps(ops)
    decreases |owned|
  {
    if owned != [] {
      var before, v := RetainEarly(ops, c, yielded, owned[..|owned| - 1]), owned[|owned| - 1];
      RetainsKeepSource(ops, c, yielded, owned[..|owned| - 1]);
      if !Escapes(c, yielded, v) {
        var n := InsertionPoint(before, c, v);
        SourceOpsAround(before[..n], [Retain([], [], [v])], before[n..]);
        assert before[..n] + before[n..] == before;
      }
    }
  }

  lemma AddOpAppends(ty: ElementTypes, g: Progress, op: Op, h: Progress) returns (inserted: seq<Op>)
    requires AddOp(ty, g, op) == Some(h)
    ensures h.ops == g.ops + [op] + inserted && NoneFromSource(inserted)
  {
    inserted := TransformOp(ty, g.pass, g.ops, op).value.inserted;
    OwnsInserted(g.pass, op.Results());
  }

  lemma AddOpKeepsOps(ty: ElementTypes, g: Progress, op: Op, h: Progress)
    requires AddOp(ty, g, op) == Some(h) && op.Source()
    ensures SourceOps(h.ops) == SourceOps(g.ops) + [op]
  {
    var inserted := AddOpAppends(ty, g, op, h);
    SourceOpsConcat(g.ops + [op], inserted);
    SnocParts(g.ops, op);
    NothingFromSource(inserted);
  }

  /** The operations so far, without what was added, are the source's. */
  lemma {:induction false} AddOpsKeepsOps(ty: ElementTypes, g: Progress, ops: seq<Op>, h: Progress)
    requires AddOps(ty, g, ops) == Some(h) && g.ops == [] && forall k :: 0 <= k < |ops| ==> ops[k].Source()
    ensures SourceOps(h.ops) == ops
    decreases |ops|
  {
    if ops != [] {
      SplitLast(ops);
      var m := AddOps(ty, g, ops[..|ops| - 1]).value;
      AddOpsKeepsOps(ty, g, ops[..|ops| - 1], m);
      AddOpKeepsOps(ty, m, ops[|ops| - 1], h);
    }
  }

  lemma {:induction false} EndingRetains(c: Classes, yielded: seq<Value>, owned: seq<Value>, leaders: seq<Value>,
                                         e: Ending)
    requires |e.acquired| == |yielded| && e.ops == []
    ensures forall op :: op in EndGroups(c, yielded, owned, leaders, e).ops ==> op.Retain?
    decreases |leaders|
  {
    if leaders != [] {
      EndingRetains(c, yielded, owned, leaders[..|leaders| - 1], e);
    }
  }

  lemma EndingAddsOnly(c: Classes, yielded: seq<Value>, owned: seq<Value>, noAlloc: Value)
    ensures NoneFromSource(BlockEnding(c, yielded, owned, noAlloc).ops)
  {
    EndingRetains(c, yielded, owned, Leaders(c, yielded), NothingPlaced(|yielded|, noAlloc, c));
    var ops := BlockEnding(c, yielded, owned, noAlloc).ops;
    assert forall k :: 0 <= k < |ops| ==> ops[k] in ops;
  }

  lemma FinishKeepsOps(g: Progress, yielded: seq<Value>)
    ensures SourceOps(FinishBlock(g, yielded).ops) == SourceOps(g.ops)
  {
    var c, noAlloc := g.pass.aliases, g.pass.next;
    var early, e := RetainEarly(g.ops, c, yielded, g.owned), BlockEnding(c, yielded, g.owned, noAlloc);
    var nulls := if noAlloc in e.acquired then [Null(noAlloc)] else [];
    RetainsKeepSource(g.ops, c, yielded, g.owned);
    EndingAddsOnly(c, yielded, g.owned, noAlloc);
    SourceOpsConcat(early + nulls, e.ops);
    SourceOpsConcat(early, nulls);
    NothingFromSource(nulls);
    NothingFromSource(e.ops);
  }

  /** The transformed block has the operations of the block, in their order, and others only between them. */
  lemma TransformedKeepsOps(ty: ElementTypes, p: Pass, args: seq<Value>, ops: seq<Op>, yielded: seq<Value>,
                            ownsInputs: bool, r: BlockResult)
    requires TransformedBlock(ty, p, args, ops, yielded, ownsInputs) == Some(r)
    requires forall k :: 0 <= k < |ops| ==> ops[k].Source()
    ensures SourceOps(r.ops) == ops
  {
    var g := AddOps(ty, BlockStart(p, args, ownsInputs), ops).value;
    AddOpsKeepsOps(ty, BlockStart(p, args, ownsInputs), ops, g);
    FinishKeepsOps(g, yielded);
  }

  // ---------------------------------------------------------------- the null indicator

  lemma {:induction false} RetainsAddRetains(ops: seq<Op>, c: Classes, yielded: seq<Value>, owned: seq<Value>, op: Op)
    requires op in RetainEarly(ops, c, yielded, owned)
    ensures op in ops || op.Retain?
    decreases |owned|
  {
    if owned != [] {
      var before, v := RetainEarly(ops, c, yielded, owned[..|owned| - 1]), owned[|owned| - 1];
      if op in before {
        RetainsAddRetains(ops, c, yielded, owned[..|owned| - 1], op);
      }
    }
  }

  /** The block gets a null indicator if and only if some yielded memref is handed out with it. */
  lemma NullOnlyIfHandedOut(g: Progress, yielded: seq<Value>, op: Op)
    requires op.Null? && op !in g.ops
    ensures var r := FinishBlock(g, yielded); op in r.ops <==> op == Null(g.pass.next) && g.pass.next in r.acquired
  {
    var c, noAlloc := g.pass.aliases, g.pass.next;
    EndingRetains(c, yielded, g.owned, Leaders(c, yielded), NothingPlaced(|yielded|, noAlloc, c));
    if op in RetainEarly(g.ops, c, yielded, g.owned) {
      RetainsAddRetains(g.ops, c, yielded, g.owned, op);
    }
  }

  // ---------------------------------------------------------------- the retains of the classes

  /** The retain of one class. */
  predicate IsClassRetain(c: Classes, yielded: seq<Value>, owned: seq<Value>, leader: Value, op: Op) {
    op.Retain? && op.retained == GroupOf(c, yielded, leader) && op.allocs == GroupOf(c, owned, leader)
  }

  /** The operations are retains of classes that hand nothing over directly, and all of these have one. */
  ghost predicate ClassRetains(c: Classes, yielded: seq<Value>, owned: seq<Value>, leaders: seq<Value>, ops: seq<Op>) {
    && (forall op :: op in ops ==> RetainsSome(c, yielded, owned, leaders, op))
    && forall l :: l in leaders && !HandsOver(c, yielded, owned, l) ==> Retains(c, yielded, owned, ops, l)
  }

  ghost predicate RetainsSome(c: Classes, yielded: seq<Value>, owned: seq<Value>, leaders: seq<Value>, op: Op) {
    exists l :: l in leaders && !HandsOver(c, yielded, owned, l) && IsClassRetain(c, yielded, owned, l, op)
  }

  ghost predicate Retains(c: Classes, yielded: seq<Value>, owned: seq<Value>, ops: seq<Op>, leader: Value) {
    exists op :: op in ops && IsClassRetain(c, yielded, owned, leader, op)
  }

  lemma RetainsSomeMore(c: Classes, yielded: seq<Value>, owned: seq<Value>, leaders: seq<Value>, leader: Value, op: Op)
    requires RetainsSome(c, yielded, owned, leaders, op)
          || (!HandsOver(c, yielded, owned, leader) && IsClassRetain(c, yielded, owned, leader, op))
    ensures RetainsSome(c, yielded, owned, leaders + [leader], op)
  {
    Appended(leaders, [leader]);
  }

  lemma RetainsMore(c: Classes, yielded: seq<Value>, owned: seq<Value>, ops: seq<Op>, added: seq<Op>, leader: Value)
    requires Retains(c, yielded, owned, ops, leader) || Retains(c, yielded, owned, added, leader)
    ensures Retains(c, yielded, owned, ops + added, leader)
  {
    Appended(ops, added);
  }

  lemma ClassRetainsNext(c: Classes, yielded: seq<Value>, owned: seq<Value>, leaders: seq<Value>, ops: seq<Op>,
                         leader: Value, added: seq<Op>)
    requires ClassRetains(c, yielded, owned, leaders, ops)
    requires if HandsOver(c, yielded, owned, leader) then added == []
             else |added| == 1 && IsClassRetain(c, yielded, owned, leader, added[0])
    ensures ClassRetains(c, yielded, owned, leaders + [leader], ops + added)
  {
    forall op | op in ops + added
      ensures RetainsSome(c, yielded, owned, leaders + [leader], op)
    {
      Appended(ops, added);
      RetainsSomeMore(c, yielded, owned, leaders, leader, op);
    }
    forall l | l in leaders + [leader] && !HandsOver(c, yielded, owned, l)
      ensures Retains(c, yielded, owned, ops + added, l)
    {
      Appended(leaders, [leader]);
      assert l !in leaders ==> added[0] in added && Retains(c, yielded, owned, added, l);
      RetainsMore(c, yielded, owned, ops, added, l);
    }
  }

  /** What one class adds: a retain, or nothing if its only indicator goes to its only yielded memref. */
  lemma GroupAdds(c: Classes, yielded: seq<Value>, owned: seq<Value>, leader: Value, e: Ending) returns (added: seq<Op>)
    requires |e.acquired| == |yielded|
    ensures EndGroup(c, yielded, owned, leader, e).ops == e.ops + added
    ensures if HandsOver(c, yielded, owned, leader) then added == []
            else |added| == 1 && IsClassRetain(c, yielded, owned, leader, added[0])
  {
    var group, ownedGroup := GroupOf(c, yielded, leader), GroupOf(c, owned, leader);
    added := if HandsOver(c, yielded, owned, leader) then [] else [Retain(Fresh(e.next, |group|), group, ownedGroup)];
  }

  /** Exactly the classes that hand nothing over directly get a retain. */
  lemma {:induction false} ClassRetainsExactly(c: Classes, yielded: seq<Value>, owned: seq<Value>,
                                               leaders: seq<Value>, e: Ending)
    requires |e.acquired| == |yielded| && e.ops == []
    ensures ClassRetains(c, yielded, owned, leaders, EndGroups(c, yielded, owned, leaders, e).ops)
    decreases |leaders|
  {
    if leaders != [] {
      var init, last := leaders[..|leaders| - 1], leaders[|leaders| - 1];
      ClassRetainsExactly(c, yielded, owned, init, e);
      SplitLast(leaders);
      var m := EndGroups(c, yielded, owned, init, e);
      var added := GroupAdds(c, yielded, owned, last, m);
      ClassRetainsNext(c, yielded, owned, init, m.ops, last, added);
    }
  }

  lemma {:induction false} NoGroup(c: Classes, vs: seq<Value>, leader: Value)
    requires forall j :: 0 <= j < |vs| ==> Leader(c, vs[j]) != leader
    ensures GroupOf(c, vs, leader) == []
    decreases |vs|
  {
    if vs != [] {
      NoGroup(c, vs[..|vs| - 1], leader);
    }
  }

  /** A value without another one of its class makes up its group. */
  lemma {:induction false} SingleGroup(c: Classes, vs: seq<Value>, i: nat)
    requires i < |vs| && forall j :: 0 <= j < |vs| && j != i ==> !Equivalent(c, vs[j], vs[i])
    ensures GroupOf(c, vs, Leader(c, vs[i])) == [vs[i]]
    decreases |vs|
  {
    var init := vs[..|vs| - 1];
    if i < |init| {
      SingleGroup(c, init, i);
    } else {
      NoGroup(c, init, Leader(c, vs[i]));
    }
  }

  /** Another class changes nothing where a class hands over. */
  lemma OtherGroupElsewhere(c: Classes, yielded: seq<Value>, owned: seq<Value>, leader: Value, e: Ending, i: nat)
    requires |e.acquired| == |yielded| && i < |yielded| && Leader(c, yielded[i]) != leader
    ensures EndGroup(c, yielded, owned, leader, e).acquired[i] == e.acquired[i]
  {
    var group := GroupOf(c, yielded, leader);
    assert yielded[i] !in group;
    if HandsOver(c, yielded, owned, leader) {
      assert group[0] in group;
      assert IndexOf(yielded, group[0]) != i;
    } else {
      PlacedElsewhere(e.acquired, yielded, group, e.next, i);
    }
  }

  lemma OwnGroupHandsOver(c: Classes, yielded: seq<Value>, owned: seq<Value>, leader: Value, e: Ending, i: nat,
                          v: Value)
    requires |e.acquired| == |yielded| && i < |yielded| && IndexOf(yielded, yielded[i]) == i
    requires GroupOf(c, yielded, leader) == [yielded[i]] && GroupOf(c, owned, leader) == [v]
    ensures EndGroup(c, yielded, owned, leader, e).acquired[i] == v
  {
  }

  lemma {:induction false} HandedOverLater(c: Classes, yielded: seq<Value>, owned: seq<Value>, leaders: seq<Value>,
                                           e: Ending, i: nat, v: Value)
    requires |e.acquired| == |yielded| && i < |yielded| && Leader(c, yielded[i]) in leaders && Distinct(leaders)
    requires GroupOf(c, yielded, Leader(c, yielded[i])) == [yielded[i]]
    requires GroupOf(c, owned, Leader(c, yielded[i])) == [v] && IndexOf(yielded, yielded[i]) == i
    ensures EndGroups(c, yielded, owned, leaders, e).acquired[i] == v
    decreases |leaders|
  {
    var init, last := leaders[..|leaders| - 1], leaders[|leaders| - 1];
    var m := EndGroups(c, yielded, owned, init, e);
    SplitLast(leaders);
    if last == Leader(c, yielded[i]) {
      OwnGroupHandsOver(c, yielded, owned, last, m, i, v);
    } else {
      HandedOverLater(c, yielded, owned, init, e, i, v);
      OtherGroupElsewhere(c, yielded, owned, last, m, i);
    }
  }

  /** A retain never takes the indicator of a class that hands it over. */
  lemma NoRetainTakes(c: Classes, yielded: seq<Value>, owned: seq<Value>, leaders: seq<Value>, op: Op, v: Value)
    requires RetainsSome(c, yielded, owned, leaders, op) && HandsOver(c, yielded, owned, Leader(c, v))
    ensures v !in op.allocs
  {
  }

  lemma AloneHandsOver(c: Classes, yielded: seq<Value>, owned: seq<Value>, i: nat, k: nat)
    requires i < |yielded| && k < |owned| && Equivalent(c, owned[k], yielded[i])
    requires forall j :: 0 <= j < |yielded| && j != i ==> !Equivalent(c, yielded[j], yielded[i])
    requires forall j :: 0 <= j < |owned| && j != k ==> !Equivalent(c, owned[j], owned[k])
    ensures GroupOf(c, yielded, Leader(c, yielded[i])) == [yielded[i]] && IndexOf(yielded, yielded[i]) == i
    ensures GroupOf(c, owned, Leader(c, yielded[i])) == [owned[k]]
  {
    SingleGroup(c, yielded, i);
    SingleGroup(c, owned, k);
    assert Equivalent(c, yielded[IndexOf(yielded, yielded[i])], yielded[i]);
  }

  /** A yielded memref and an owned indicator that are alone in their class: the indicator is handed out with the memref
      as it is, and no retain takes it. */
  lemma HandedOverDirectly(c: Classes, yielded: seq<Value>, owned: seq<Value>, noAlloc: Value, i: nat, k: nat)
    requires i < |yielded| && k < |owned| && Equivalent(c, owned[k], yielded[i])
    requires forall j :: 0 <= j < |yielded| && j != i ==> !Equivalent(c, yielded[j], yielded[i])
    requires forall j :: 0 <= j < |owned| && j != k ==> !Equivalent(c, owned[j], owned[k])
    ensures BlockEnding(c, yielded, owned, noAlloc).acquired[i] == owned[k]
    ensures forall op :: op in BlockEnding(c, yielded, owned, noAlloc).ops ==> op.Retain? && owned[k] !in op.allocs
  {
    var leaders, start := Leaders(c, yielded), NothingPlaced(|yielded|, noAlloc, c);
    AloneHandsOver(c, yielded, owned, i, k);
    LeadersDistinct(c, yielded);
    HandedOverLater(c, yielded, owned, leaders, start, i, owned[k]);
    ClassRetainsExactly(c, yielded, owned, leaders, start);
    forall op | op in BlockEnding(c, yielded, owned, noAlloc).ops
      ensures op.Retain? && owned[k] !in op.allocs
    {
      assert RetainsSome(c, yielded, owned, leaders, op);
      NoRetainTakes(c, yielded, owned, leaders, op, owned[k]);
    }
  }

  // ---------------------------------------------------------------- the classes behind a retain

  /** The memref that a result stands for. */
  function ResultOf(group: seq<Value>, first: Value, x: Value): Value {
    if first <= x < first + |group| then group[x - first] else x
  }

  lemma NewIsAlone(c: Classes, x: Value, y: Value)
    requires ValidClasses(c) && y !in c
    ensures Equivalent(c, x, y) <==> x == y
  {
  }

  /** The classes and values in front of a retain: its results are new. */
  ghost predicate ResultsAreNew(c: Classes, group: seq<Value>, first: Value) {
    ValidClasses(c) && (forall v :: v in c ==> v < first) && forall v :: v in group ==> v < first
  }

  lemma ResultOfSnoc(init: seq<Value>, last: Value, first: Value, r: Value, x: Value)
    requires r == first + |init|
    ensures ResultOf(init + [last], first, x) == if x == r then last else ResultOf(init, first, x)
  {
  }

  lemma {:induction false} ResultAlone(c: Classes, init: seq<Value>, first: Value, r: Value, x: Value)
    requires ResultsAreNew(c, init, first) && r == first + |init|
    ensures Equivalent(JoinResults(c, init, first), x, r) <==> x == r
    decreases |init|, 1
  {
    JoinResultsExactly(c, init, first, x, r);
    NewIsAlone(c, ResultOf(init, first, x), r);
    assert x < first || r <= x || ResultOf(init, first, x) in init;
  }

  lemma {:induction false} ResultNear(c: Classes, init: seq<Value>, first: Value, last: Value, x: Value)
    requires ResultsAreNew(c, init, first) && last < first
    ensures Equivalent(JoinResults(c, init, first), x, last) <==> Equivalent(c, ResultOf(init, first, x), last)
    decreases |init|, 1
  {
    JoinResultsExactly(c, init, first, x, last);
  }

  lemma JoinOne(c: Classes, group: seq<Value>, first: Value, init: seq<Value>, last: Value, r: Value)
    requires ResultsAreNew(c, group, first) && group == init + [last] && r == first + |init|
    ensures JoinResults(c, group, first) == Union(JoinResults(c, init, first), r, last)
    ensures ResultsAreNew(c, init, first) && last < first
  {
    SnocParts(init, last);
    Appended(init, [last]);
    assert last in group && r == first + |group| - 1;
  }

  /** Every result of a retain joins the class of its memref, and nothing else changes. */
  lemma {:induction false} JoinResultsExactly(c: Classes, group: seq<Value>, first: Value, x: Value, y: Value)
    requires ResultsAreNew(c, group, first)
    ensures ValidClasses(JoinResults(c, group, first))
    ensures Equivalent(JoinResults(c, group, first), x, y)
       <==> Equivalent(c, ResultOf(group, first, x), ResultOf(group, first, y))
    decreases |group|, 0
  {
    if group != [] {
      var init, last := group[..|group| - 1], group[|group| - 1];
      var r := first + |init|;
      SplitLast(group);
      JoinOne(c, group, first, init, last, r);
      JoinResultsExactly(c, init, first, x, y);
      UnionJoins(JoinResults(c, init, first), r, last);
      UnionExactly(JoinResults(c, init, first), r, last, x, y);
      ResultAlone(c, init, first, r, x);
      ResultAlone(c, init, first, r, y);
      ResultNear(c, init, first, last, x);
      ResultNear(c, init, first, last, y);
      ResultOfSnoc(init, last, first, r, x);
      ResultOfSnoc(init, last, first, r, y);
    }
  }

  ghost predicate ResultJoined(d: Classes, first: Value, next: Value, op: Op, k: nat)
    requires op.Retain? && k < |op.indicators|
  {
    k < |op.retained| && first <= op.indicators[k] < next && Equivalent(d, op.indicators[k], op.retained[k])
  }

  /** The results of a retain are values from `first` on, in front of `next`, each in the class of its memref. */
  ghost predicate RetainJoined(d: Classes, first: Value, next: Value, op: Op) {
    op.Retain? ==> forall k :: 0 <= k < |op.indicators| ==> ResultJoined(d, first, next, op, k)
  }

  /** The classes `d` and the next value `next` behind retains: old values are in one class as in `c`. */
  ghost predicate RetainsJoined(c: Classes, first: Value, ops: seq<Op>, d: Classes, next: Value) {
    && ValidClasses(d) && first <= next && (forall v :: v in d ==> v < next)
    && (forall x: Value, y: Value :: x < first && y < first ==> (Equivalent(d, x, y) <==> Equivalent(c, x, y)))
    && forall op :: op in ops ==> RetainJoined(d, first, next, op)
  }

  lemma {:induction false} JoinedKeys(c: Classes, group: seq<Value>, first: Value, next: Value)
    requires ResultsAreNew(c, group, first) && next == first + |group|
    ensures forall v :: v in JoinResults(c, group, first) ==> v < next
    decreases |group|
  {
    if group != [] {
      var init, last := group[..|group| - 1], group[|group| - 1];
      SplitLast(group);
      JoinOne(c, group, first, init, last, next - 1);
      JoinedKeys(c, init, first, next - 1);
    }
  }

  /** Joining new results leaves the classes of the old values alone. */
  lemma OldStayJoined(c: Classes, group: seq<Value>, first: Value, x: Value, y: Value)
    requires ResultsAreNew(c, group, first) && x < first && y < first
    ensures Equivalent(JoinResults(c, group, first), x, y) <==> Equivalent(c, x, y)
  {
    JoinResultsExactly(c, group, first, x, y);
  }

  lemma OldRetainJoined(c: Classes, group: seq<Value>, first: Value, next: Value, later: Value, op: Op)
    requires ResultsAreNew(c, group, next) && RetainJoined(c, first, next, op) && next <= later
    requires op.Retain? ==> forall v :: v in op.retained ==> v < next
    ensures RetainJoined(JoinResults(c, group, next), first, later, op)
  {
    if op.Retain? {
      forall k | 0 <= k < |op.indicators|
        ensures ResultJoined(JoinResults(c, group, next), first, later, op, k)
      {
        assert ResultJoined(c, first, next, op, k);
        var result := op.indicators[k];
        assert op.retained[k] in op.retained;
        OldStayJoined(c, group, next, result, op.retained[k]);
      }
    }
  }

  lemma ResultOfFresh(group: seq<Value>, next: Value, k: nat)
    requires k < |group| && group[k] < next
    ensures ResultOf(group, next, Fresh(next, |group|)[k]) == group[k] == ResultOf(group, next, group[k])
  {
  }

  lemma NewRetainJoined(c: Classes, group: seq<Value>, first: Value, next: Value, later: Value, allocs: seq<Value>)
    requires ResultsAreNew(c, group, next) && first <= next && later == next + |group|
    ensures RetainJoined(JoinResults(c, group, next), first, later, Retain(Fresh(next, |group|), group, allocs))
  {
    var inds := Fresh(next, |group|);
    forall k | 0 <= k < |group|
      ensures Equivalent(JoinResults(c, group, next), inds[k], group[k])
    {
      assert group[k] in group;
      ResultOfFresh(group, next, k);
      JoinResultsExactly(c, group, next, inds[k], group[k]);
    }
  }

  /** What the retains keep of the yielded memrefs. */
  ghost predicate RetainsYielded(yielded: seq<Value>, ops: seq<Op>) {
    forall op, v :: op in ops && op.Retain? && v in op.retained ==> v in yielded
  }

  lemma OldRetainsJoined(c: Classes, first: Value, yielded: seq<Value>, ops: seq<Op>, d: Classes, next: Value,
                         group: seq<Value>, later: Value)
    requires RetainsJoined(c, first, ops, d, next) && ResultsAreNew(d, group, next) && next <= later
    requires RetainsYielded(yielded, ops) && forall v :: v in yielded ==> v < first
    ensures forall op :: op in ops ==> RetainJoined(JoinResults(d, group, next), first, later, op)
    ensures forall x: Value, y: Value :: x < first && y < first ==>
              (Equivalent(JoinResults(d, group, next), x, y) <==> Equivalent(c, x, y))
  {
    forall op | op in ops
      ensures RetainJoined(JoinResults(d, group, next), first, later, op)
    {
      assert op.Retain? ==> forall v :: v in op.retained ==> v in yielded;
      OldRetainJoined(d, group, first, next, later, op);
    }
    forall x: Value, y: Value | x < first && y < first
      ensures Equivalent(JoinResults(d, group, next), x, y) <==> Equivalent(c, x, y)
    {
      OldStayJoined(d, group, next, x, y);
    }
  }

  lemma OneMoreRetain(c: Classes, first: Value, yielded: seq<Value>, ops: seq<Op>, d: Classes, next: Value,
                      group: seq<Value>, allocs: seq<Value>, later: Value)
    requires RetainsJoined(c, first, ops, d, next) && later == next + |group|
    requires RetainsYielded(yielded, ops) && forall v :: v in yielded ==> v < first
    requires forall v :: v in group ==> v in yielded
    ensures
      var added := Retain(Fresh(next, |group|), group, allocs);
      && RetainsJoined(c, first, ops + [added], JoinResults(d, group, next), later)
      && RetainsYielded(yielded, ops + [added])
  {
    var added := Retain(Fresh(next, |group|), group, allocs);
    Appended(ops, [added]);
    JoinedKeys(d, group, next, later);
    JoinResultsExactly(d, group, next, 0, 0);
    OldRetainsJoined(c, first, yielded, ops, d, next, group, later);
    NewRetainJoined(d, group, first, next, later, allocs);
  }

  lemma GroupJoined(c: Classes, first: Value, yielded: seq<Value>, owned: seq<Value>, leader: Value, e: Ending,
                    e': Ending)
    requires |e.acquired| == |yielded| && RetainsJoined(c, first, e.ops, e.aliases, e.next)
    requires RetainsYielded(yielded, e.ops) && forall v :: v in yielded ==> v < first
    requires e' == EndGroup(c, yielded, owned, leader, e)
    ensures RetainsJoined(c, first, e'.ops, e'.aliases, e'.next) && RetainsYielded(yielded, e'.ops)
  {
    if !HandsOver(c, yielded, owned, leader) {
      var group, ownedGroup := GroupOf(c, yielded, leader), GroupOf(c, owned, leader);
      OneMoreRetain(c, first, yielded, e.ops, e.aliases, e.next, group, ownedGroup, e.next + |group|);
    }
  }

  lemma {:induction false} GroupsJoined(c: Classes, first: Value, yielded: seq<Value>, owned: seq<Value>,
                                        leaders: seq<Value>, e: Ending)
    requires |e.acquired| == |yielded| && RetainsJoined(c, first, e.ops, e.aliases, e.next)
    requires RetainsYielded(yielded, e.ops) && forall v :: v in yielded ==> v < first
    ensures
      var e' := EndGroups(c, yielded, owned, leaders, e);
      RetainsJoined(c, first, e'.ops, e'.aliases, e'.next) && RetainsYielded(yielded, e'.ops)
    decreases |leaders|
  {
    if leaders != [] {
      var init, last := leaders[..|leaders| - 1], leaders[|leaders| - 1];
      GroupsJoined(c, first, yielded, owned, init, e);
      var m := EndGroups(c, yielded, owned, init, e);
      GroupJoined(c, first, yielded, owned, last, m, EndGroup(c, yielded, owned, last, m));
    }
  }

  lemma EndingJoined(c: Classes, yielded: seq<Value>, owned: seq<Value>, noAlloc: Value, first: Value)
    requires ValidClasses(c) && (forall v :: v in c ==> v < noAlloc) && forall v :: v in yielded ==> v < noAlloc
    requires first == noAlloc + 1
    ensures
      var e := BlockEnding(c, yielded, owned, noAlloc);
      RetainsJoined(c, first, e.ops, e.aliases, e.next)
  {
    assert RetainsJoined(c, first, [], c, first);
    GroupsJoined(c, first, yielded, owned, Leaders(c, yielded), NothingPlaced(|yielded|, noAlloc, c));
  }

  /** What the pass remembers behind the block: indicators as before, each result of a final retain in the class of its
      memref, and the classes of all other values as before. */
  lemma FinishedPass(g: Progress, yielded: seq<Value>, first: Value)
    requires ValidClasses(g.pass.aliases) && (forall v :: v in g.pass.aliases ==> v < g.pass.next)
    requires (forall v :: v in yielded ==> v < g.pass.next) && first == g.pass.next + 1
    ensures
      var r := FinishBlock(g, yielded);
      var retains := BlockEnding(g.pass.aliases, yielded, g.owned, g.pass.next).ops;
      && r.pass.indicators == g.pass.indicators && r.released == g.released
      && RetainsJoined(g.pass.aliases, first, retains, r.pass.aliases, r.pass.next)
  {
    EndingJoined(g.pass.aliases, yielded, g.owned, g.pass.next, first);
  }
}

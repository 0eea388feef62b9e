/** Freeing an owned buffer early: the operations behind the insertion point never miss it. */
module DeallocationRetains {
  import opened BufferProgram
  import opened Deallocation
  import opened DeallocationTracking
  import opened Options
  import opened Sequences
  import opened ValueClasses

  // ---------------------------------------------------------------- bounds

  /** Every buffer that is named or held has been handed out before. */
  ghost predicate Sane(s: State) {
    && (forall m :: m in s.env ==> s.env[m] < s.next)
    && (forall v :: v in s.own && s.own[v].Some? ==> s.own[v].value < s.next)
  }

  lemma {:induction false} AllocAllSane(s: State, ms: seq<Value>)
    requires Sane(s)
    ensures Sane(AllocAll(s, ms))
    decreases |ms|
  {
    if ms != [] {
      AllocAllSane(s, ms[..|ms| - 1]);
    }
  }

  lemma {:induction false} BindResultsSane(s: State, results: seq<Value>, operands: seq<Value>, oracle: Oracle)
    requires Sane(s)
    ensures Sane(BindResults(s, results, operands, oracle)) && BindResults(s, results, operands, oracle).next == s.next
    decreases |results|
  {
    if results != [] {
      BindResultsSane(s, results[..|results| - 1], operands, oracle);
    }
  }

  lemma ExecSane(op: Op, s: State, oracle: Oracle)
    requires Sane(s) && PlainOp(op)
    ensures Sane(Exec(op, s, oracle))
    ensures forall v :: v in Exec(op, s, oracle).own ==> v in s.own || v in op.Results()
  {
    match op {
      case Memory(allocs, frees) =>
        FreeAllExtends(s, frees);
        AllocAllSane(FreeAll(s, frees), allocs);
        AllocAllExtends(FreeAll(s, frees), allocs);
      case View(_, _) =>
      case Opaque(results, operands) =>
        BindResultsSane(s, results, operands, oracle);
        BindResultsExtends(s, results, operands, oracle);
      case Own(_, _) =>
      case Retain(_, _, _) =>
    }
  }

  lemma {:induction false} RunSane(ops: seq<Op>, s: State, oracle: Oracle)
    requires Sane(s) && forall k :: 0 <= k < |ops| ==> PlainOp(ops[k])
    ensures Sane(Run(ops, s, oracle))
    decreases |ops|
  {
    if ops != [] {
      RunSane(ops[..|ops| - 1], s, oracle);
      ExecSane(ops[|ops| - 1], Run(ops[..|ops| - 1], s, oracle), oracle);
    }
  }

  /** An indicator that no operation of a stretch defines was there before. */
  lemma {:induction false} HeldBefore(ops: seq<Op>, s: State, oracle: Oracle, v: Value)
    requires Sane(s) && forall k :: 0 <= k < |ops| ==> PlainOp(ops[k]) && v !in ops[k].Results()
    requires v in Run(ops, s, oracle).own
    ensures v in s.own
    decreases |ops|
  {
    if ops != [] {
      var init := ops[..|ops| - 1];
      RunSane(init, s, oracle);
      ExecSane(ops[|ops| - 1], Run(init, s, oracle), oracle);
      HeldBefore(init, s, oracle, v);
    }
  }

  // ---------------------------------------------------------------- one early retain

  /** The source's operations, declarations of ownership, and retains that free one of `done`. */
  predicate EarlyShape(ops: seq<Op>, done: seq<Value>) {
    forall k :: 0 <= k < |ops| ==>
      PlainOp(ops[k]) && (ops[k].Retain? ==> |ops[k].allocs| == 1 && ops[k].allocs[0] in done)
  }

  lemma RetainOne(s: State, v: Value)
    requires v in s.own && s.ok && (s.own[v].Some? ==> s.own[v].value in s.live)
    ensures RunRetain(s, [], [], [v]) == match s.own[v] { case None => s case Some(b) => Without(s, b) }
  {
    var held := AllocsOf(s.own, [v]);
    assert held == [s.own[v]];
    match s.own[v] {
      case None =>
        assert Unretained(BuffersOf(s.env, []), held) == {};
      case Some(b) =>
        assert BuffersOf(s.env, []) == [];
        assert held[0] == Some(b);
        assert Unretained([], held) == {b};
    }
  }

  ghost predicate SparedFrom(ops: seq<Op>, n: nat, end: State, b: nat) {
    forall k :: n <= k < |ops| ==> Spares(ops[k], end.env, end.own, b)
  }

  /** No operation behind the insertion point of `v` touches buffer `b`. */
  ghost predicate TailSpared(ops: seq<Op>, c: Classes, v: Value, end: State, b: nat) {
    SparedFrom(ops, InsertionPoint(ops, c, v), end, b)
  }

  ghost predicate Holding(owned: seq<Value>, v: Value, s: State) {
    && v in owned && HeldApart(owned, s.own)
    && (s.own[v].Some? ==> s.own[v].value in s.live)
  }

  function Freed(s: State, v: Value): State
    requires v in s.own
  {
    match s.own[v]
    case None => s
    case Some(b) => Without(s, b)
  }

  /** A retain of `v` in front of operations that do not define it frees the buffer of `v` if they spare it, and
      makes the run fail otherwise. */
  lemma RetainInFront(z: seq<Op>, owned: seq<Value>, v: Value, mid: State, oracle: Oracle, end: State)
    requires Sane(mid) && Run(z, mid, oracle) == end && end.ok && Holding(owned, v, end)
    requires forall k :: 0 <= k < |z| ==> PlainOp(z[k]) && v !in z[k].Results()
    ensures
      var spared := end.own[v].Some? ==> SparedFrom(z, 0, end, end.own[v].value);
      var t := Run(z, RunRetain(mid, [], [], [v]), oracle);
      if spared then t == Freed(end, v) else !t.ok
  {
    RunExtends(z, mid, oracle);
    HeldBefore(z, mid, oracle, v);
    RetainOne(mid, v);
    if end.own[v].Some? {
      var b := end.own[v].value;
      if SparedFrom(z, 0, end, b) {
        RunWithout(z, mid, oracle, b, end);
      } else {
        RunFaults(z, mid, oracle, b, end);
      }
    }
  }

  /** The operations in front of the insertion point of `v` and those behind it. */
  lemma PartsAtPoint(ops: seq<Op>, c: Classes, v: Value, start: State, oracle: Oracle) returns (a: seq<Op>, z: seq<Op>)
    ensures a == ops[..InsertionPoint(ops, c, v)] && z == ops[InsertionPoint(ops, c, v)..]
    ensures forall k :: 0 <= k < |z| ==> v !in z[k].Results()
    ensures Run(ops, start, oracle) == Run(z, Run(a, start, oracle), oracle)
    ensures Run(InsertRetain(ops, c, v), start, oracle)
         == Run(z, RunRetain(Run(a, start, oracle), [], [], [v]), oracle)
  {
    var n := InsertionPoint(ops, c, v);
    a, z := ops[..n], ops[n..];
    assert ops == a + z;
    RunConcat(a, z, start, oracle);
    TailAvoids(z, c, v);
    RunThroughRetain(a, v, z, start, oracle);
  }

  lemma SparedTail(ops: seq<Op>, n: nat, end: State, b: nat)
    requires n <= |ops|
    ensures SparedFrom(ops[n..], 0, end, b) <==> SparedFrom(ops, n, end, b)
  {
    if SparedFrom(ops[n..], 0, end, b) {
      forall k | n <= k < |ops|
        ensures Spares(ops[k], end.env, end.own, b)
      {
        assert ops[k] == ops[n..][k - n];
      }
    }
  }

  /** Freeing the buffer of `v` at its insertion point instead of at the end changes nothing else if no later
      operation touches the buffer, and makes the run fail otherwise. */
  lemma InsertRetainRuns(ops: seq<Op>, c: Classes, owned: seq<Value>, v: Value, start: State, oracle: Oracle,
                         end: State)
    requires Sane(start) && (forall k :: 0 <= k < |ops| ==> PlainOp(ops[k])) && Run(ops, start, oracle) == end && end.ok
    requires Holding(owned, v, end)
    ensures
      var spared := end.own[v].Some? ==> TailSpared(ops, c, v, end, end.own[v].value);
      var t := Run(InsertRetain(ops, c, v), start, oracle);
      if spared then t == Freed(end, v) else !t.ok
  {
    var a, z := PartsAtPoint(ops, c, v, start, oracle);
    RunSane(a, start, oracle);
    RetainInFront(z, owned, v, Run(a, start, oracle), oracle, end);
    if end.own[v].Some? {
      SparedTail(ops, InsertionPoint(ops, c, v), end, end.own[v].value);
    }
  }

  /** An additional retain never makes a failing run succeed. */
  lemma InsertRetainBelow(ops: seq<Op>, c: Classes, v: Value, start: State, oracle: Oracle)
    requires forall k :: 0 <= k < |ops| ==> PlainOp(ops[k])
    ensures Below(Run(InsertRetain(ops, c, v), start, oracle), Run(ops, start, oracle))
  {
    var a, z := PartsAtPoint(ops, c, v, start, oracle);
    var mid := Run(a, start, oracle);
    RetainOnlyFrees(mid, v);
    RunBelow(z, RunRetain(mid, [], [], [v]), mid, oracle);
  }

  lemma RetainOnlyFrees(s: State, v: Value)
    ensures Below(RunRetain(s, [], [], [v]), s)
  {
    RetainExtends(s, [], [], [v]);
  }

  lemma TailAvoids(ops: seq<Op>, c: Classes, v: Value)
    requires forall k :: 0 <= k < |ops| ==> !DoesAlias(ops[k], c, v)
    ensures forall k :: 0 <= k < |ops| ==> v !in ops[k].Results()
  {
    forall k | 0 <= k < |ops|
      ensures v !in ops[k].Results()
    {
      assert !DoesAlias(ops[k], c, v);
      assert forall i :: 0 <= i < |ops[k].Results()| ==> !Equivalent(c, v, ops[k].Results()[i]);
    }
  }

  lemma RunThroughRetain(a: seq<Op>, v: Value, z: seq<Op>, start: State, oracle: Oracle)
    ensures Run(a + [Retain([], [], [v])] + z, start, oracle)
         == Run(z, RunRetain(Run(a, start, oracle), [], [], [v]), oracle)
  {
    RunThrough(a, Retain([], [], [v]), z, start, oracle);
  }

  // ---------------------------------------------------------------- all early retains

  /** The buffers of the owned indicators that do not escape. */
  function EarlyFreed(c: Classes, yielded: seq<Value>, owned: seq<Value>, own: map<Value, Option<nat>>): set<nat>
    requires forall v :: v in owned ==> v in own
  {
    set v | v in owned && !Escapes(c, yielded, v) && own[v].Some? :: own[v].value
  }

  lemma EarlyFreedStep(c: Classes, yielded: seq<Value>, owned: seq<Value>, own: map<Value, Option<nat>>)
    requires owned != [] && forall v :: v in owned ==> v in own
    ensures
      var init, v := owned[..|owned| - 1], owned[|owned| - 1];
      EarlyFreed(c, yielded, owned, own)
      == if Escapes(c, yielded, v) || own[v].None? then EarlyFreed(c, yielded, init, own)
         else EarlyFreed(c, yielded, init, own) + {own[v].value}
  {
    var init, v := owned[..|owned| - 1], owned[|owned| - 1];
    assert forall w :: w in owned <==> w in init || w == v;
  }

  lemma InsertKeepsShape(ops: seq<Op>, c: Classes, done: seq<Value>, v: Value)
    requires EarlyShape(ops, done)
    ensures EarlyShape(InsertRetain(ops, c, v), done + [v])
  {
    var more := InsertRetain(ops, c, v);
    var n := InsertionPoint(ops, c, v);
    forall k | 0 <= k < |more|
      ensures PlainOp(more[k]) && (more[k].Retain? ==> |more[k].allocs| == 1 && more[k].allocs[0] in done + [v])
    {
      if k < n {
        assert more[k] == ops[k];
      } else if k > n {
        assert more[k] == ops[k - 1];
      }
    }
  }

  // ---------------------------------------------------------------- insertion points do not move

  lemma SameClassAliases(op: Op, c: Classes, v: Value, w: Value)
    requires Equivalent(c, v, w)
    ensures DoesAlias(op, c, v) <==> DoesAlias(op, c, w)
  {
  }

  lemma SameClassPoint(ops: seq<Op>, c: Classes, v: Value, w: Value)
    requires Equivalent(c, v, w)
    ensures InsertionPoint(ops, c, v) == InsertionPoint(ops, c, w)
  {
    var n := InsertionPoint(ops, c, v);
    forall k | 0 <= k < |ops|
      ensures DoesAlias(ops[k], c, v) <==> DoesAlias(ops[k], c, w)
    {
      SameClassAliases(ops[k], c, v, w);
    }
    InsertionPointUnique(ops, c, w, n);
  }

  lemma RetainAliases(c: Classes, v: Value, w: Value)
    ensures DoesAlias(Retain([], [], [w]), c, v) <==> Equivalent(c, v, w)
  {
    var op := Retain([], [], [w]);
    assert op.Operands() == [w] && op.Results() == [];
    assert op.Operands()[0] == w;
  }

  lemma InsertedAt(ops: seq<Op>, c: Classes, w: Value, k: nat)
    requires k <= |ops|
    ensures
      var m, more := InsertionPoint(ops, c, w), InsertRetain(ops, c, w);
      && |more| == |ops| + 1
      && more[k] == if k < m then ops[k] else if k == m then Retain([], [], [w]) else ops[k - 1]
  {
  }

  /** Where the insertion point of `v` is once a retain of `w` was inserted. */
  function PointAfter(ops: seq<Op>, c: Classes, w: Value, v: Value): nat {
    var n, m := InsertionPoint(ops, c, v), InsertionPoint(ops, c, w);
    if Equivalent(c, v, w) || m < n then n + 1 else n
  }

  lemma NoAliasBehind(ops: seq<Op>, c: Classes, w: Value, v: Value, k: nat)
    requires PointAfter(ops, c, w, v) <= k <= |ops|
    ensures k < |InsertRetain(ops, c, w)| && !DoesAlias(InsertRetain(ops, c, w)[k], c, v)
  {
    InsertedAt(ops, c, w, k);
    RetainAliases(c, v, w);
    if Equivalent(c, v, w) {
      SameClassPoint(ops, c, v, w);
    }
  }

  /** The place of a retain of the class of `v` is the insertion point of `v` too. */
  lemma SameClassInFront(ops: seq<Op>, c: Classes, w: Value, v: Value)
    requires Equivalent(c, v, w)
    ensures PointAfter(ops, c, w, v) == InsertionPoint(ops, c, w) + 1 <= |InsertRetain(ops, c, w)|
    ensures DoesAlias(InsertRetain(ops, c, w)[InsertionPoint(ops, c, w)], c, v)
  {
    SameClassPoint(ops, c, v, w);
    InsertedAt(ops, c, w, InsertionPoint(ops, c, w));
    RetainAliases(c, v, w);
  }

  lemma InsertedInFront(ops: seq<Op>, m: nat, op: Op, n: nat)
    requires m <= |ops| && 0 < n <= |ops|
    ensures (ops[..m] + [op] + ops[m..])[if m < n then n else n - 1] == ops[n - 1]
  {
  }

  lemma OtherClassInFront(ops: seq<Op>, c: Classes, w: Value, v: Value)
    requires !Equivalent(c, v, w) && InsertionPoint(ops, c, v) > 0
    ensures 0 < PointAfter(ops, c, w, v) <= |InsertRetain(ops, c, w)|
    ensures InsertRetain(ops, c, w)[PointAfter(ops, c, w, v) - 1] == ops[InsertionPoint(ops, c, v) - 1]
  {
    InsertedInFront(ops, InsertionPoint(ops, c, w), Retain([], [], [w]), InsertionPoint(ops, c, v));
  }

  lemma AliasInFront(ops: seq<Op>, c: Classes, w: Value, v: Value)
    requires PointAfter(ops, c, w, v) > 0
    ensures PointAfter(ops, c, w, v) <= |InsertRetain(ops, c, w)|
    ensures DoesAlias(InsertRetain(ops, c, w)[PointAfter(ops, c, w, v) - 1], c, v)
  {
    if Equivalent(c, v, w) {
      SameClassInFront(ops, c, w, v);
    } else {
      OtherClassInFront(ops, c, w, v);
    }
  }

  /** The insertion point of `v` moves along with a retain inserted in front of it, or of its own class. */
  lemma InsertionPointAfter(ops: seq<Op>, c: Classes, w: Value, v: Value)
    ensures InsertionPoint(InsertRetain(ops, c, w), c, v) == PointAfter(ops, c, w, v)
  {
    var more := InsertRetain(ops, c, w);
    InsertedAt(ops, c, w, 0);
    forall k | PointAfter(ops, c, w, v) <= k < |more|
      ensures !DoesAlias(more[k], c, v)
    {
      NoAliasBehind(ops, c, w, v, k);
    }
    if PointAfter(ops, c, w, v) > 0 {
      AliasInFront(ops, c, w, v);
    }
    InsertionPointUnique(more, c, v, PointAfter(ops, c, w, v));
  }

  /** An operation inserted at `m` moves a tail behind it along, and does not matter if it spares the buffer. */
  lemma SparedInserted(ops: seq<Op>, m: nat, op: Op, n: nat, n': nat, end: State, b: nat)
    requires m <= |ops| && n <= |ops| && Spares(op, end.env, end.own, b)
    requires if m < n then n' == n + 1 else if n < m then n' == n else n' == n || n' == n + 1
    ensures SparedFrom(ops[..m] + [op] + ops[m..], n', end, b) <==> SparedFrom(ops, n, end, b)
  {
    var more := ops[..m] + [op] + ops[m..];
    assert forall k :: 0 <= k < m ==> more[k] == ops[k];
    assert forall k :: m <= k < |ops| ==> more[k + 1] == ops[k];
    if SparedFrom(more, n', end, b) {
      forall k | n <= k < |ops|
        ensures Spares(ops[k], end.env, end.own, b)
      {
        assert Spares(more[if k < m then k else k + 1], end.env, end.own, b);
      }
    }
    if SparedFrom(ops, n, end, b) {
      forall k | n' <= k < |more|
        ensures Spares(more[k], end.env, end.own, b)
      {
        assert more[k] == if k < m then ops[k] else if k == m then op else ops[k - 1];
      }
    }
  }

  /** A retain of another buffer does not matter to what the tail of `v` touches. */
  lemma TailThroughRetain(ops: seq<Op>, c: Classes, w: Value, v: Value, end: State, b: nat)
    requires w in end.own ==> end.own[w] != Some(b)
    ensures TailSpared(InsertRetain(ops, c, w), c, v, end, b) <==> TailSpared(ops, c, v, end, b)
  {
    InsertionPointAfter(ops, c, w, v);
    if Equivalent(c, v, w) {
      SameClassPoint(ops, c, v, w);
    }
    SparedInserted(ops, InsertionPoint(ops, c, w), Retain([], [], [w]), InsertionPoint(ops, c, v),
                   PointAfter(ops, c, w, v), end, b);
  }

  lemma {:induction false} TailThroughRetains(ops: seq<Op>, c: Classes, yielded: seq<Value>, owned: seq<Value>,
                                              v: Value, end: State, b: nat)
    requires forall w :: w in owned && w in end.own ==> end.own[w] != Some(b)
    ensures TailSpared(RetainEarly(ops, c, yielded, owned), c, v, end, b) <==> TailSpared(ops, c, v, end, b)
    decreases |owned|
  {
    if owned != [] {
      var init, w := owned[..|owned| - 1], owned[|owned| - 1];
      TailThroughRetains(ops, c, yielded, init, v, end, b);
      if !Escapes(c, yielded, w) {
        TailThroughRetain(RetainEarly(ops, c, yielded, init), c, w, v, end, b);
      }
    }
  }

  // ---------------------------------------------------------------- all early retains at once

  ghost predicate RetainedInTime(ops: seq<Op>, c: Classes, yielded: seq<Value>, v: Value, end: State)
    requires v in end.own
  {
    !Escapes(c, yielded, v) && end.own[v].Some? ==> TailSpared(ops, c, v, end, end.own[v].value)
  }

  /** No early retain comes before an operation that touches its buffer. */
  ghost predicate AllInTime(ops: seq<Op>, c: Classes, yielded: seq<Value>, owned: seq<Value>, end: State)
    requires forall v :: v in owned ==> v in end.own
  {
    forall v :: v in owned ==> RetainedInTime(ops, c, yielded, v, end)
  }

  /** Without the buffers that the early retains free, if all of them come in time; else failed. */
  ghost predicate FreedEarly(ops: seq<Op>, c: Classes, yielded: seq<Value>, owned: seq<Value>, end: State, t: State)
    requires forall v :: v in owned ==> v in end.own
  {
    if AllInTime(ops, c, yielded, owned, end) then t == end.(live := end.live - EarlyFreed(c, yielded, owned, end.own))
    else !t.ok
  }

  /** With all early retains in place the block runs as before, and exactly their buffers are gone, if they all
      come in time; if not, the block fails. */
  lemma {:induction false} RetainEarlyRuns(ops: seq<Op>, c: Classes, yielded: seq<Value>, owned: seq<Value>,
                                           all: seq<Value>, start: State, oracle: Oracle, end: State)
    requires Sane(start) && EarlyShape(ops, []) && Run(ops, start, oracle) == end && end.ok
    requires owned <= all && OwnsApart(all, end)
    ensures EarlyShape(RetainEarly(ops, c, yielded, owned), owned) && forall v :: v in owned ==> v in end.own
    ensures FreedEarly(ops, c, yielded, owned, end, Run(RetainEarly(ops, c, yielded, owned), start, oracle))
    decreases |owned|
  {
    if owned != [] {
      var init, v := owned[..|owned| - 1], owned[|owned| - 1];
      SplitLast(owned);
      assert v == all[|owned| - 1] && init == all[..|owned| - 1];
      RetainEarlyRuns(ops, c, yielded, init, all, start, oracle, end);
      if Escapes(c, yielded, v) {
        FreedEarlyAlso(ops, c, yielded, owned, end, Run(RetainEarly(ops, c, yielded, init), start, oracle));
      } else {
        InsertKeepsShape(RetainEarly(ops, c, yielded, init), c, init, v);
        OneMoreRetain(ops, c, yielded, owned, all, start, oracle, end);
      }
    }
  }

  lemma InTimeSnoc(ops: seq<Op>, c: Classes, yielded: seq<Value>, owned: seq<Value>, end: State)
    requires owned != [] && forall v :: v in owned ==> v in end.own
    ensures
      var init, v := owned[..|owned| - 1], owned[|owned| - 1];
      AllInTime(ops, c, yielded, owned, end)
      <==> AllInTime(ops, c, yielded, init, end) && RetainedInTime(ops, c, yielded, v, end)
  {
    var init, v := owned[..|owned| - 1], owned[|owned| - 1];
    assert forall w :: w in owned <==> w in init || w == v;
  }

  /** An indicator that escapes gets no early retain. */
  lemma FreedEarlyAlso(ops: seq<Op>, c: Classes, yielded: seq<Value>, owned: seq<Value>, end: State, t: State)
    requires owned != [] && (forall v :: v in owned ==> v in end.own) && Escapes(c, yielded, owned[|owned| - 1])
    requires FreedEarly(ops, c, yielded, owned[..|owned| - 1], end, t)
    ensures FreedEarly(ops, c, yielded, owned, end, t)
  {
    EarlyFreedStep(c, yielded, owned, end.own);
    InTimeSnoc(ops, c, yielded, owned, end);
  }

  lemma OneMoreRetain(ops: seq<Op>, c: Classes, yielded: seq<Value>, owned: seq<Value>, all: seq<Value>,
                      start: State, oracle: Oracle, end: State)
    requires owned != [] && owned <= all && OwnsApart(all, end) && end.ok && !Escapes(c, yielded, owned[|owned| - 1])
    requires Sane(start) && EarlyShape(RetainEarly(ops, c, yielded, owned[..|owned| - 1]), owned[..|owned| - 1])
    requires forall v :: v in owned ==> v in end.own
    requires
      var init := owned[..|owned| - 1];
      FreedEarly(ops, c, yielded, init, end, Run(RetainEarly(ops, c, yielded, init), start, oracle))
    ensures FreedEarly(ops, c, yielded, owned, end, Run(RetainEarly(ops, c, yielded, owned), start, oracle))
  {
    var init, v := owned[..|owned| - 1], owned[|owned| - 1];
    var before := RetainEarly(ops, c, yielded, init);
    SplitLast(owned);
    NotFreedYet(c, yielded, init, v, all, end.own);
    InTimeSnoc(ops, c, yielded, owned, end);
    if AllInTime(ops, c, yielded, init, end) {
      var mid := end.(live := end.live - EarlyFreed(c, yielded, init, end.own));
      InsertRetainRuns(before, c, all, v, start, oracle, mid);
      FreedTogether(c, yielded, owned, end);
      if end.own[v].Some? {
        TailThroughRetains(ops, c, yielded, init, v, end, end.own[v].value);
        SameTail(before, c, v, end, mid, end.own[v].value);
      }
    } else {
      InsertRetainBelow(before, c, v, start, oracle);
    }
  }

  lemma SameTail(ops: seq<Op>, c: Classes, v: Value, s: State, t: State, b: nat)
    requires s.env == t.env && s.own == t.own
    ensures TailSpared(ops, c, v, s, b) <==> TailSpared(ops, c, v, t, b)
  {
  }

  lemma FreedTogether(c: Classes, yielded: seq<Value>, owned: seq<Value>, end: State)
    requires owned != [] && (forall v :: v in owned ==> v in end.own) && !Escapes(c, yielded, owned[|owned| - 1])
    ensures
      var init, v := owned[..|owned| - 1], owned[|owned| - 1];
      Freed(end.(live := end.live - EarlyFreed(c, yielded, init, end.own)), v)
      == end.(live := end.live - EarlyFreed(c, yielded, owned, end.own))
  {
    EarlyFreedStep(c, yielded, owned, end.own);
  }

  /** Covering alias classes put every early retain in time. */
  lemma CoveredInTime(ops: seq<Op>, c: Classes, yielded: seq<Value>, owned: seq<Value>, end: State)
    requires EarlyShape(ops, []) && HeldApart(owned, end.own) && Covered(c, owned, end)
    ensures AllInTime(ops, c, yielded, owned, end)
  {
    forall v | v in owned && end.own[v].Some?
      ensures TailSpared(ops, c, v, end, end.own[v].value)
    {
      forall k | InsertionPoint(ops, c, v) <= k < |ops|
        ensures Spares(ops[k], end.env, end.own, end.own[v].value)
      {
        AvoidedIsSpared(ops[k], c, owned, v, end, end.own[v].value);
      }
    }
  }

  /** An operation that aliases no value of the owner's class does not touch the owner's buffer. */
  lemma AvoidedIsSpared(op: Op, c: Classes, owned: seq<Value>, v: Value, end: State, b: nat)
    requires (op.Source() || op.Own?) && Covered(c, owned, end)
    requires v in owned && v in end.own && end.own[v] == Some(b) && !DoesAlias(op, c, v)
    ensures Spares(op, end.env, end.own, b)
  {
    if op.Source() {
      forall i | 0 <= i < |op.Operands()| && op.Operands()[i] in end.env
        ensures end.env[op.Operands()[i]] != b
      {
        assert !Equivalent(c, v, op.Operands()[i]);
      }
    }
  }

  lemma NotFreedYet(c: Classes, yielded: seq<Value>, init: seq<Value>, v: Value, all: seq<Value>,
                    own: map<Value, Option<nat>>)
    requires HeldApart(all, own) && init + [v] <= all
    ensures v in all && v !in init && (forall w :: w in init ==> w in all)
    ensures own[v].Some? ==> own[v].value !in EarlyFreed(c, yielded, init, own)
    ensures own[v].Some? ==> forall w :: w in init && w in own ==> own[w] != own[v]
  {
    assert all[|init|] == v && forall k :: 0 <= k < |init| ==> all[k] == init[k];
  }
}

/** Straight-line blocks over memrefs and ownership indicators, and what running them does to memory. */
module BufferProgram {
  import opened Options

  type Value = nat

  /**
   * The operations of a block. `Memory` is any operation with allocation or free effects (alloc, dealloc,
   * realloc), `View` one of the view operations, `Opaque` any other operation on memrefs.
   */
  datatype Op =
    | Memory(allocs: seq<Value>, frees: seq<Value>)
    | View(result: Value, source: Value)
    | Opaque(results: seq<Value>, operands: seq<Value>)
    | Own(indicator: Value, memref: Value)
    | Null(indicator: Value)
    | Retain(indicators: seq<Value>, retained: seq<Value>, allocs: seq<Value>)
  {
    function Results(): seq<Value> {
      match this
      case Memory(allocs, _) => allocs
      case View(result, _) => [result]
      case Opaque(results, _) => results
      case Own(indicator, _) => [indicator]
      case Null(indicator) => [indicator]
      case Retain(indicators, _, _) => indicators
    }

    function Operands(): seq<Value> {
      match this
      case Memory(_, frees) => frees
      case View(_, source) => [source]
      case Opaque(_, operands) => operands
      case Own(_, memref) => [memref]
      case Null(_) => []
      case Retain(_, retained, allocs) => retained + allocs
    }

    predicate Source() { Memory? || View? || Opaque? }
  }

  /** Which buffer an opaque result refers to at run time. */
  datatype Origin = FromOperand(k: nat) | Foreign(buffer: nat)
  type Oracle = map<Value, Origin>

  /**
   * A state: the buffer behind every memref, the contents of every indicator, the live buffers, the next unused
   * buffer, and whether every step so far was legal. Buffers are never used twice.
   */
  datatype State = State(env: map<Value, nat>, own: map<Value, Option<nat>>, live: set<nat>, next: nat, ok: bool) {
    predicate Touchable(m: Value) { m in env && env[m] in live }

    predicate AllTouchable(ms: seq<Value>) { forall k :: 0 <= k < |ms| ==> Touchable(ms[k]) }

    /** Defines a memref; defining a value twice is no program. */
    function Bind(m: Value, b: nat): State {
      this.(env := env[m := b], ok := ok && m !in env)
    }

    function Hold(v: Value, b: Option<nat>): State {
      this.(own := own[v := b], ok := ok && v !in own)
    }

    function Alloc(m: Value): State {
      Bind(m, next).(live := live + {next}, next := next + 1)
    }

    /** Frees the buffer of a memref; freeing a dead buffer is a fault. */
    function Free(m: Value): State {
      if m in env then this.(live := live - {env[m]}, ok := ok && env[m] in live) else this.(ok := false)
    }

    function Fault(): State { this.(ok := false) }
  }

  function AllocAll(s: State, ms: seq<Value>): State {
    if ms == [] then s else AllocAll(s, ms[..|ms| - 1]).Alloc(ms[|ms| - 1])
  }

  function FreeAll(s: State, ms: seq<Value>): State {
    if ms == [] then s else FreeAll(s, ms[..|ms| - 1]).Free(ms[|ms| - 1])
  }

  /** The buffer of an opaque result, if its origin makes sense. */
  function ResultBuffer(env: map<Value, nat>, next: nat, r: Value, operands: seq<Value>, oracle: Oracle): Option<nat> {
    if r !in oracle then None
    else
      match oracle[r]
      case FromOperand(k) => if k < |operands| && operands[k] in env then Some(env[operands[k]]) else None
      case Foreign(b) => if b < next then Some(b) else None
  }

  function BindResults(s: State, results: seq<Value>, operands: seq<Value>, oracle: Oracle): State {
    if results == [] then s
    else
      var t := BindResults(s, results[..|results| - 1], operands, oracle);
      var r := results[|results| - 1];
      match ResultBuffer(s.env, s.next, r, operands, oracle)
      case None => t.Fault()
      case Some(b) => t.Bind(r, b)
  }

  // ---------------------------------------------------------------- retain

  /** What a retain returns for retained memref `j`: the alloc it derives from, once. */
  function Retained(buffers: seq<nat>, allocs: seq<Option<nat>>, j: nat): Option<nat>
    requires j < |buffers|
  {
    if Some(buffers[j]) in allocs && buffers[j] !in buffers[..j] then Some(buffers[j]) else None
  }

  /** The allocs that no retained memref derives from. */
  function Unretained(buffers: seq<nat>, allocs: seq<Option<nat>>): set<nat> {
    set a | a in allocs && a.Some? && a.value !in buffers :: a.value
  }

  predicate DistinctAllocs(allocs: seq<Option<nat>>) {
    forall i, j :: 0 <= i < j < |allocs| && allocs[i].Some? ==> allocs[i] != allocs[j]
  }

  function BuffersOf(env: map<Value, nat>, ms: seq<Value>): (buffers: seq<nat>)
    requires forall k :: 0 <= k < |ms| ==> ms[k] in env
    ensures |buffers| == |ms| && forall k :: 0 <= k < |ms| ==> buffers[k] == env[ms[k]]
  {
    seq(|ms|, k requires 0 <= k < |ms| => env[ms[k]])
  }

  function AllocsOf(own: map<Value, Option<nat>>, vs: seq<Value>): (allocs: seq<Option<nat>>)
    requires forall k :: 0 <= k < |vs| ==> vs[k] in own
    ensures |allocs| == |vs| && forall k :: 0 <= k < |vs| ==> allocs[k] == own[vs[k]]
  {
    seq(|vs|, k requires 0 <= k < |vs| => own[vs[k]])
  }

  function HoldAll(s: State, vs: seq<Value>, buffers: seq<nat>, allocs: seq<Option<nat>>): State
    requires |vs| <= |buffers|
  {
    if vs == [] then s
    else HoldAll(s, vs[..|vs| - 1], buffers, allocs).Hold(vs[|vs| - 1], Retained(buffers, allocs, |vs| - 1))
  }

  function RunRetain(s: State, vs: seq<Value>, retained: seq<Value>, allocs: seq<Value>): State {
    if (forall k :: 0 <= k < |retained| ==> retained[k] in s.env)
       && (forall k :: 0 <= k < |allocs| ==> allocs[k] in s.own)
       && |vs| == |retained| && DistinctAllocs(AllocsOf(s.own, allocs))
    then
      var buffers, held := BuffersOf(s.env, retained), AllocsOf(s.own, allocs);
      var dead := Unretained(buffers, held);
      HoldAll(s.(live := s.live - dead, ok := s.ok && dead <= s.live), vs, buffers, held)
    else s.Fault()
  }

  // ---------------------------------------------------------------- runs

  function Exec(op: Op, s: State, oracle: Oracle): State {
    match op
    case Memory(allocs, frees) => AllocAll(FreeAll(s, frees), allocs)
    case View(result, source) => if s.Touchable(source) then s.Bind(result, s.env[source]) else s.Fault()
    case Opaque(results, operands) =>
      if s.AllTouchable(operands) then BindResults(s, results, operands, oracle) else s.Fault()
    case Own(indicator, memref) => if memref in s.env then s.Hold(indicator, Some(s.env[memref])) else s.Fault()
    case Null(indicator) => s.Hold(indicator, None)
    case Retain(indicators, retained, allocs) => RunRetain(s, indicators, retained, allocs)
  }

  function Run(ops: seq<Op>, s: State, oracle: Oracle): State {
    if ops == [] then s else Exec(ops[|ops| - 1], Run(ops[..|ops| - 1], s, oracle), oracle)
  }

  lemma RunSnoc(ops: seq<Op>, op: Op, s: State, oracle: Oracle)
    ensures Run(ops + [op], s, oracle) == Exec(op, Run(ops, s, oracle), oracle)
  {
    assert (ops + [op])[..|ops|] == ops;
  }

  lemma {:induction false} RunConcat(a: seq<Op>, b: seq<Op>, s: State, oracle: Oracle)
    ensures Run(a + b, s, oracle) == Run(b, Run(a, s, oracle), oracle)
    decreases |b|
  {
    if b == [] {
      assert a + b == a;
    } else {
      var init, last := b[..|b| - 1], b[|b| - 1];
      RunConcat(a, init, s, oracle);
      assert a + b == (a + init) + [last];
      RunSnoc(a + init, last, s, oracle);
    }
  }

  lemma RunThrough(a: seq<Op>, op: Op, z: seq<Op>, s: State, oracle: Oracle)
    ensures Run(a + [op] + z, s, oracle) == Run(z, Exec(op, Run(a, s, oracle), oracle), oracle)
  {
    RunSnoc(a, op, s, oracle);
    RunConcat(a + [op], z, s, oracle);
  }

  // ---------------------------------------------------------------- what a legal run keeps

  /** Values keep their meaning, buffers are not reused, and a fault is never forgotten. */
  ghost predicate Extends(s: State, t: State) {
    t.ok ==>
      && s.ok && s.next <= t.next
      && (forall m :: m in s.env ==> m in t.env && t.env[m] == s.env[m])
      && (forall v :: v in s.own ==> v in t.own && t.own[v] == s.own[v])
      && (forall b :: b in t.live ==> b in s.live || s.next <= b)
  }

  lemma ExtendsTransitive(s: State, t: State, u: State)
    requires Extends(s, t) && Extends(t, u)
    ensures Extends(s, u)
  {
  }

  lemma {:induction false} FreeAllExtends(s: State, ms: seq<Value>)
    ensures Extends(s, FreeAll(s, ms))
    ensures FreeAll(s, ms).env == s.env && FreeAll(s, ms).own == s.own && FreeAll(s, ms).next == s.next
    decreases |ms|
  {
    if ms != [] {
      FreeAllExtends(s, ms[..|ms| - 1]);
    }
  }

  lemma {:induction false} FreeAllNamed(s: State, ms: seq<Value>)
    requires FreeAll(s, ms).ok
    ensures forall m :: m in ms ==> m in s.env
    decreases |ms|
  {
    if ms != [] {
      FreeAllNamed(s, ms[..|ms| - 1]);
      FreeAllExtends(s, ms[..|ms| - 1]);
    }
  }

  lemma {:induction false} AllocAllExtends(s: State, ms: seq<Value>)
    ensures Extends(s, AllocAll(s, ms)) && AllocAll(s, ms).own == s.own
    decreases |ms|
  {
    if ms != [] {
      AllocAllExtends(s, ms[..|ms| - 1]);
    }
  }

  lemma {:induction false} BindResultsExtends(s: State, results: seq<Value>, operands: seq<Value>, oracle: Oracle)
    ensures Extends(s, BindResults(s, results, operands, oracle))
    ensures var t := BindResults(s, results, operands, oracle); t.own == s.own && t.live == s.live && t.next == s.next
    decreases |results|
  {
    if results != [] {
      BindResultsExtends(s, results[..|results| - 1], operands, oracle);
    }
  }

  lemma {:induction false} HoldAllExtends(s: State, vs: seq<Value>, buffers: seq<nat>, allocs: seq<Option<nat>>)
    requires |vs| <= |buffers|
    ensures Extends(s, HoldAll(s, vs, buffers, allocs))
    ensures var t := HoldAll(s, vs, buffers, allocs); t.env == s.env && t.live == s.live && t.next == s.next
    decreases |vs|
  {
    if vs != [] {
      HoldAllExtends(s, vs[..|vs| - 1], buffers, allocs);
    }
  }

  lemma ExecExtends(op: Op, s: State, oracle: Oracle)
    ensures Extends(s, Exec(op, s, oracle))
  {
    match op {
      case Memory(allocs, frees) =>
        FreeAllExtends(s, frees);
        AllocAllExtends(FreeAll(s, frees), allocs);
        ExtendsTransitive(s, FreeAll(s, frees), AllocAll(FreeAll(s, frees), allocs));
      case View(_, _) =>
      case Opaque(results, operands) => BindResultsExtends(s, results, operands, oracle);
      case Own(_, _) =>
      case Null(_) =>
      case Retain(vs, retained, allocs) => RetainExtends(s, vs, retained, allocs);
    }
  }

  lemma RetainExtends(s: State, vs: seq<Value>, retained: seq<Value>, allocs: seq<Value>)
    ensures Extends(s, RunRetain(s, vs, retained, allocs))
    ensures var t := RunRetain(s, vs, retained, allocs); t.env == s.env && t.next == s.next
  {
    if (forall k :: 0 <= k < |retained| ==> retained[k] in s.env)
       && (forall k :: 0 <= k < |allocs| ==> allocs[k] in s.own)
       && |vs| == |retained| && DistinctAllocs(AllocsOf(s.own, allocs))
    {
      var buffers, held := BuffersOf(s.env, retained), AllocsOf(s.own, allocs);
      var dead := Unretained(buffers, held);
      HoldAllExtends(s.(live := s.live - dead, ok := s.ok && dead <= s.live), vs, buffers, held);
    }
  }

  lemma {:induction false} RunExtends(ops: seq<Op>, s: State, oracle: Oracle)
    ensures Extends(s, Run(ops, s, oracle))
    decreases |ops|
  {
    if ops != [] {
      var t := Run(ops[..|ops| - 1], s, oracle);
      RunExtends(ops[..|ops| - 1], s, oracle);
      ExecExtends(ops[|ops| - 1], t, oracle);
      ExtendsTransitive(s, t, Run(ops, s, oracle));
    }
  }

  // ---------------------------------------------------------------- running with a buffer freed early

  function Without(s: State, b: nat): State {
    s.(live := s.live - {b})
  }

  /** The operation neither touches nor frees buffer `b`, going by the given meaning of its operands. */
  ghost predicate Spares(op: Op, env: map<Value, nat>, own: map<Value, Option<nat>>, b: nat) {
    match op
    case Own(_, _) => true
    case Null(_) => true
    case Retain(vs, retained, allocs) =>
      vs == [] && retained == [] && forall k :: 0 <= k < |allocs| && allocs[k] in own ==> own[allocs[k]] != Some(b)
    case _ => forall k :: 0 <= k < |op.Operands()| && op.Operands()[k] in env ==> env[op.Operands()[k]] != b
  }

  lemma {:induction false} FreeAllWithout(s: State, ms: seq<Value>, b: nat)
    requires forall k :: 0 <= k < |ms| && ms[k] in s.env ==> s.env[ms[k]] != b
    ensures FreeAll(Without(s, b), ms) == Without(FreeAll(s, ms), b)
    ensures b in FreeAll(s, ms).live <==> b in s.live
    decreases |ms|
  {
    if ms != [] {
      var init, last := ms[..|ms| - 1], ms[|ms| - 1];
      FreeAllWithout(s, init, b);
      FreeAllExtends(s, init);
      assert last in s.env ==> s.env[last] != b;
      var t := FreeAll(s, init);
      if last in t.env {
        assert (t.live - {b}) - {t.env[last]} == (t.live - {t.env[last]}) - {b};
      }
    }
  }

  lemma {:induction false} AllocAllWithout(s: State, ms: seq<Value>, b: nat)
    requires b < s.next
    ensures AllocAll(Without(s, b), ms) == Without(AllocAll(s, ms), b)
    ensures b in AllocAll(s, ms).live <==> b in s.live
    ensures b < AllocAll(s, ms).next
    decreases |ms|
  {
    if ms != [] {
      AllocAllWithout(s, ms[..|ms| - 1], b);
      var t := AllocAll(s, ms[..|ms| - 1]);
      assert (t.live - {b}) + {t.next} == (t.live + {t.next}) - {b};
    }
  }

  lemma {:induction false} BindResultsWithout(s: State, results: seq<Value>, operands: seq<Value>, oracle: Oracle,
                                              b: nat)
    ensures BindResults(Without(s, b), results, operands, oracle)
         == Without(BindResults(s, results, operands, oracle), b)
    decreases |results|
  {
    if results != [] {
      BindResultsWithout(s, results[..|results| - 1], operands, oracle, b);
    }
  }

  lemma RetainWithout(s: State, allocs: seq<Value>, b: nat)
    requires forall k :: 0 <= k < |allocs| && allocs[k] in s.own ==> s.own[allocs[k]] != Some(b)
    ensures RunRetain(Without(s, b), [], [], allocs) == Without(RunRetain(s, [], [], allocs), b)
    ensures b in RunRetain(s, [], [], allocs).live <==> b in s.live
  {
    if (forall k :: 0 <= k < |allocs| ==> allocs[k] in s.own) && DistinctAllocs(AllocsOf(s.own, allocs)) {
      var dead := Unretained(BuffersOf(s.env, []), AllocsOf(s.own, allocs));
      assert b !in dead;
      assert (s.live - {b}) - dead == (s.live - dead) - {b};
      assert dead <= s.live - {b} <==> dead <= s.live;
    }
  }

  lemma ExecWithout(op: Op, s: State, oracle: Oracle, b: nat)
    requires b < s.next && Spares(op, s.env, s.own, b)
    ensures Exec(op, Without(s, b), oracle) == Without(Exec(op, s, oracle), b)
    ensures b in Exec(op, s, oracle).live <==> b in s.live
  {
    match op {
      case Memory(allocs, frees) =>
        assert op.Operands() == frees;
        FreeAllWithout(s, frees, b);
        FreeAllExtends(s, frees);
        AllocAllWithout(FreeAll(s, frees), allocs, b);
      case View(_, source) =>
        assert op.Operands()[0] == source;
      case Opaque(results, operands) =>
        assert op.Operands() == operands;
        assert Without(s, b).AllTouchable(operands) <==> s.AllTouchable(operands) by {
          assert forall k :: 0 <= k < |operands| ==> Without(s, b).Touchable(operands[k]) == s.Touchable(operands[k]);
        }
        BindResultsWithout(s, results, operands, oracle, b);
        BindResultsExtends(s, results, operands, oracle);
      case Own(_, _) =>
      case Null(_) =>
      case Retain(_, _, allocs) => RetainWithout(s, allocs, b);
    }
  }

  /** A stretch of operations that spares `b` runs the same when `b` is already gone. */
  lemma {:induction false} RunWithout(ops: seq<Op>, s: State, oracle: Oracle, b: nat, end: State)
    requires b < s.next && Run(ops, s, oracle).ok && Extends(Run(ops, s, oracle), end) && end.ok
    requires forall k :: 0 <= k < |ops| ==> Spares(ops[k], end.env, end.own, b)
    ensures Run(ops, Without(s, b), oracle) == Without(Run(ops, s, oracle), b)
    ensures b in Run(ops, s, oracle).live <==> b in s.live
    decreases |ops|
  {
    if ops != [] {
      var init, last := ops[..|ops| - 1], ops[|ops| - 1];
      var t := Run(init, s, oracle);
      ExecExtends(last, t, oracle);
      ExtendsTransitive(t, Run(ops, s, oracle), end);
      RunExtends(init, s, oracle);
      RunWithout(init, s, oracle, b, end);
      assert Spares(last, end.env, end.own, b);
      SparesEarlier(last, t, end, b);
      ExecWithout(last, t, oracle, b);
    }
  }

  lemma SparesEarlier(op: Op, s: State, end: State, b: nat)
    requires Extends(s, end) && end.ok && Spares(op, end.env, end.own, b)
    ensures Spares(op, s.env, s.own, b)
  {
  }

  // ---------------------------------------------------------------- missing a buffer that is gone

  lemma {:induction false} FreeAllFaults(s: State, ms: seq<Value>, b: nat)
    requires b !in s.live && exists k :: 0 <= k < |ms| && ms[k] in s.env && s.env[ms[k]] == b
    ensures !FreeAll(s, ms).ok
    decreases |ms|
  {
    var init, last := ms[..|ms| - 1], ms[|ms| - 1];
    FreeAllExtends(s, init);
    FreeAllShrinks(s, init);
    if k :| 0 <= k < |init| && init[k] in s.env && s.env[init[k]] == b {
      FreeAllFaults(s, init, b);
    }
  }

  lemma {:induction false} FreeAllShrinks(s: State, ms: seq<Value>)
    ensures FreeAll(s, ms).live <= s.live
    decreases |ms|
  {
    if ms != [] {
      FreeAllShrinks(s, ms[..|ms| - 1]);
    }
  }

  /** An operation of a block whose early retains are being placed. */
  predicate PlainOp(op: Op) {
    op.Source() || op.Own? || (op.Retain? && op.indicators == [] && op.retained == [])
  }

  /** An operation that touches `b` fails once `b` is gone. */
  lemma TouchFaults(op: Op, s: State, oracle: Oracle, b: nat)
    requires PlainOp(op) && !Spares(op, s.env, s.own, b)
    ensures !Exec(op, Without(s, b), oracle).ok
  {
    var t := Without(s, b);
    match op {
      case Memory(allocs, frees) =>
        assert op.Operands() == frees;
        FreeAllFaults(t, frees, b);
        AllocAllExtends(FreeAll(t, frees), allocs);
      case View(_, source) =>
        assert op.Operands() == [source];
      case Opaque(_, operands) =>
        assert op.Operands() == operands;
        var k :| 0 <= k < |operands| && operands[k] in s.env && s.env[operands[k]] == b;
        assert !t.Touchable(operands[k]);
      case Retain(_, _, allocs) =>
        if forall k :: 0 <= k < |allocs| ==> allocs[k] in s.own {
          var k :| 0 <= k < |allocs| && s.own[allocs[k]] == Some(b);
          var held := AllocsOf(t.own, allocs);
          assert held[k] == Some(b) && b !in BuffersOf(t.env, []);
          assert b in Unretained(BuffersOf(t.env, []), held);
        }
      case Own(_, _) =>
    }
  }

  /** What an operation touches it touches already when it is executed. */
  lemma TouchedThen(op: Op, s: State, oracle: Oracle, end: State, b: nat)
    requires PlainOp(op) && Exec(op, s, oracle).ok && Extends(s, end) && end.ok
    requires !Spares(op, end.env, end.own, b)
    ensures !Spares(op, s.env, s.own, b)
  {
    match op {
      case Memory(allocs, frees) =>
        assert op.Operands() == frees;
        AllocAllExtends(FreeAll(s, frees), allocs);
        FreeAllNamed(s, frees);
        var k :| 0 <= k < |frees| && frees[k] in end.env && end.env[frees[k]] == b;
        assert frees[k] in frees;
      case View(_, source) =>
        assert op.Operands() == [source];
      case Opaque(results, operands) =>
        assert op.Operands() == operands;
        var k :| 0 <= k < |operands| && operands[k] in end.env && end.env[operands[k]] == b;
        assert s.Touchable(operands[k]);
      case Retain(_, _, allocs) =>
        var k :| 0 <= k < |allocs| && allocs[k] in end.own && end.own[allocs[k]] == Some(b);
        assert allocs[k] in s.own;
      case Own(_, _) =>
    }
  }

  /** A stretch of operations one of which touches `b` fails if `b` is already gone. */
  lemma {:induction false} RunFaults(ops: seq<Op>, s: State, oracle: Oracle, b: nat, end: State)
    requires b < s.next && Run(ops, s, oracle).ok && Extends(Run(ops, s, oracle), end) && end.ok
    requires forall k :: 0 <= k < |ops| ==> PlainOp(ops[k])
    requires exists k :: 0 <= k < |ops| && !Spares(ops[k], end.env, end.own, b)
    ensures !Run(ops, Without(s, b), oracle).ok
    decreases |ops|
  {
    var init, last := ops[..|ops| - 1], ops[|ops| - 1];
    var t := Run(init, s, oracle);
    ExecExtends(last, t, oracle);
    ExtendsTransitive(t, Run(ops, s, oracle), end);
    if k :| 0 <= k < |init| && !Spares(init[k], end.env, end.own, b) {
      RunFaults(init, s, oracle, b, end);
      ExecExtends(last, Run(init, Without(s, b), oracle), oracle);
    } else {
      RunWithout(init, s, oracle, b, end);
      TouchedThen(last, t, oracle, end, b);
      TouchFaults(last, t, oracle, b);
    }
  }

  // ---------------------------------------------------------------- fewer live buffers

  /** `t` is `s` with fewer live buffers, unless it has failed. */
  ghost predicate Below(t: State, s: State) {
    t.ok ==> s.ok && t == s.(live := t.live) && t.live <= s.live
  }

  lemma {:induction false} FreeAllBelow(t: State, s: State, ms: seq<Value>)
    requires Below(t, s)
    ensures Below(FreeAll(t, ms), FreeAll(s, ms))
    decreases |ms|
  {
    if ms != [] {
      FreeAllBelow(t, s, ms[..|ms| - 1]);
    }
  }

  lemma {:induction false} AllocAllBelow(t: State, s: State, ms: seq<Value>)
    requires Below(t, s)
    ensures Below(AllocAll(t, ms), AllocAll(s, ms))
    decreases |ms|
  {
    if ms != [] {
      AllocAllBelow(t, s, ms[..|ms| - 1]);
    }
  }

  lemma {:induction false} BindResultsBelow(t: State, s: State, results: seq<Value>, operands: seq<Value>,
                                            oracle: Oracle)
    requires t.ok && Below(t, s)
    ensures Below(BindResults(t, results, operands, oracle), BindResults(s, results, operands, oracle))
    decreases |results|
  {
    if results != [] {
      BindResultsBelow(t, s, results[..|results| - 1], operands, oracle);
    }
  }

  lemma RetainBelow(t: State, s: State, allocs: seq<Value>)
    requires t.ok && Below(t, s)
    ensures Below(RunRetain(t, [], [], allocs), RunRetain(s, [], [], allocs))
  {
    if (forall k :: 0 <= k < |allocs| ==> allocs[k] in s.own) && DistinctAllocs(AllocsOf(s.own, allocs)) {
      var dead := Unretained(BuffersOf(s.env, []), AllocsOf(s.own, allocs));
      assert dead <= t.live ==> dead <= s.live && t.live - dead <= s.live - dead;
    }
  }

  lemma ExecBelow(op: Op, t: State, s: State, oracle: Oracle)
    requires PlainOp(op) && Below(t, s)
    ensures Below(Exec(op, t, oracle), Exec(op, s, oracle))
  {
    ExecExtends(op, t, oracle);
    if t.ok {
      match op {
        case Memory(allocs, frees) =>
          FreeAllBelow(t, s, frees);
          AllocAllBelow(FreeAll(t, frees), FreeAll(s, frees), allocs);
        case View(_, _) =>
        case Opaque(results, operands) =>
          assert forall k :: 0 <= k < |operands| ==> (t.Touchable(operands[k]) ==> s.Touchable(operands[k]));
          BindResultsBelow(t, s, results, operands, oracle);
        case Own(_, _) =>
        case Retain(_, _, allocs) => RetainBelow(t, s, allocs);
      }
    }
  }

  /** Fewer live buffers never make a failing run succeed. */
  lemma {:induction false} RunBelow(ops: seq<Op>, t: State, s: State, oracle: Oracle)
    requires Below(t, s) && forall k :: 0 <= k < |ops| ==> PlainOp(ops[k])
    ensures Below(Run(ops, t, oracle), Run(ops, s, oracle))
    decreases |ops|
  {
    if ops != [] {
      RunBelow(ops[..|ops| - 1], t, s, oracle);
      ExecBelow(ops[|ops| - 1], Run(ops[..|ops| - 1], t, oracle), Run(ops[..|ops| - 1], s, oracle), oracle);
    }
  }
}

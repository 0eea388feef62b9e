/** While a block is transformed, its owned indicators stand for exactly the live buffers it owns. */
module DeallocationTracking {
  import opened BufferProgram
  import opened Deallocation
  import opened Options
  import opened Sequences
  import opened ValueClasses

  /** How a block is entered: the state, the indicators passed in, and the memrefs whose indicator is null. */
  datatype Entry = Entry(start: State, inputs: seq<Value>, borrowed: set<Value>)

  ghost predicate Holds(owned: seq<Value>, own: map<Value, Option<nat>>, b: nat) {
    exists v :: v in owned && v in own && own[v] == Some(b)
  }

  /** The buffers the block is responsible for: those passed in with ownership and those it allocates. */
  ghost predicate OwnedHere(e: Entry, b: nat) {
    e.start.next <= b || Holds(e.inputs, e.start.own, b)
  }

  ghost predicate Bounded(p: Pass, s: State) {
    && (forall m :: m in s.env ==> m < p.next && s.env[m] < s.next)
    && (forall v :: v in s.own ==> v < p.next)
    && (forall b :: b in s.live ==> b < s.next)
  }

  /** The owned indicators are distinct, and so are the buffers they hold. */
  ghost predicate HeldApart(owned: seq<Value>, own: map<Value, Option<nat>>) {
    && Distinct(owned) && (forall v :: v in owned ==> v in own)
    && forall v, w :: v in owned && w in owned && v != w && own[v].Some? ==> own[v] != own[w]
  }

  ghost predicate OwnsApart(owned: seq<Value>, s: State) {
    HeldApart(owned, s.own) && forall v :: v in owned && s.own[v].Some? ==> s.own[v].value in s.live
  }

  /** The alias classes cover what happens at run time. */
  ghost predicate Covered(c: Classes, owned: seq<Value>, s: State) {
    forall m, v :: m in s.env && v in owned && v in s.own && s.own[v] == Some(s.env[m]) ==> Equivalent(c, m, v)
  }

  /** The indicator of a memref holds its buffer, unless that is borrowed; once released, the buffer is dead. */
  ghost predicate Indicated(p: Pass, owned: seq<Value>, s: State, borrowed: set<Value>) {
    forall m :: m in p.indicators ==>
      && m in s.env && p.indicators[m] in s.own
      && (match s.own[p.indicators[m]]
          case None => m in borrowed
          case Some(b) => b == s.env[m] && (p.indicators[m] in owned || b !in s.live))
  }

  /** The owned indicators account for the buffers that the block owns. */
  ghost predicate Accounts(p: Pass, owned: seq<Value>, s: State, e: Entry) {
    && s.ok && e.start.next <= s.next && ValidClasses(p.aliases)
    && Bounded(p, s) && OwnsApart(owned, s)
    && Indicated(p, owned, s, e.borrowed)
    && forall b :: b in s.live ==> (OwnedHere(e, b) <==> Holds(owned, s.own, b))
  }

  ghost predicate Tracks(p: Pass, owned: seq<Value>, s: State, e: Entry) {
    Accounts(p, owned, s, e) && Covered(p.aliases, owned, s)
  }

  // ---------------------------------------------------------------- aliasing operations

  lemma {:induction false} AliasOperandsJoins(ty: ElementTypes, c: Classes, r: Value, operands: seq<Value>)
    requires ValidClasses(c)
    ensures Coarsens(c, AliasOperands(ty, c, r, operands))
    ensures forall k :: 0 <= k < |operands| && ty(r) == ty(operands[k]) ==>
              Equivalent(AliasOperands(ty, c, r, operands), r, operands[k])
    decreases |operands|
  {
    if operands != [] {
      var init, last := operands[..|operands| - 1], operands[|operands| - 1];
      AliasOperandsJoins(ty, c, r, init);
      var d := AliasOperands(ty, c, r, init);
      if ty(r) == ty(last) {
        UnionJoins(d, r, last);
        CoarsensTransitive(c, d, Union(d, r, last));
      }
    }
  }

  lemma {:induction false} AliasResultsJoins(ty: ElementTypes, c: Classes, results: seq<Value>, operands: seq<Value>)
    requires ValidClasses(c)
    ensures Coarsens(c, AliasResults(ty, c, results, operands))
    ensures forall i, k :: 0 <= i < |results| && 0 <= k < |operands| && ty(results[i]) == ty(operands[k]) ==>
              Equivalent(AliasResults(ty, c, results, operands), results[i], operands[k])
    decreases |results|
  {
    if results != [] {
      var init, last := results[..|results| - 1], results[|results| - 1];
      AliasResultsJoins(ty, c, init, operands);
      var d := AliasResults(ty, c, init, operands);
      AliasOperandsJoins(ty, d, last, operands);
      CoarsensTransitive(c, d, AliasOperands(ty, d, last, operands));
    }
  }

  /** The run-time meaning of an opaque or view result agrees with the element types. */
  ghost predicate Typed(ty: ElementTypes, op: Op, oracle: Oracle) {
    match op
    case View(result, source) => ty(result) == ty(source)
    case Opaque(results, operands) =>
      forall i :: 0 <= i < |results| && results[i] in oracle && oracle[results[i]].FromOperand? ==>
        oracle[results[i]].k < |operands| && ty(results[i]) == ty(operands[oracle[results[i]].k])
    case _ => true
  }

  /** Buffers that come from elsewhere are none of the block's. */
  ghost predicate ForeignElsewhere(oracle: Oracle, e: Entry) {
    forall r :: r in oracle && oracle[r].Foreign? ==> !OwnedHere(e, oracle[r].buffer)
  }

  /** Where the buffers of the results of `BindResults` come from. */
  lemma {:induction false} BindResultsMeaning(s: State, results: seq<Value>, operands: seq<Value>, oracle: Oracle)
    requires BindResults(s, results, operands, oracle).ok
    ensures
      var t := BindResults(s, results, operands, oracle);
      && s.ok && t == s.(env := t.env)
      && (forall m :: m in s.env ==> m in t.env && t.env[m] == s.env[m])
      && (forall m :: m in t.env && m !in s.env ==>
            (m in results && ResultBuffer(s.env, s.next, m, operands, oracle) == Some(t.env[m])))
    decreases |results|
  {
    if results != [] {
      BindResultsMeaning(s, results[..|results| - 1], operands, oracle);
    }
  }

  /** New names for known buffers keep the account. */
  lemma NamesAccounted(p: Pass, c: Classes, owned: seq<Value>, s: State, t: State, e: Entry)
    requires Accounts(p, owned, s, e) && t == s.(env := t.env) && ValidClasses(c)
    requires forall m :: m in s.env ==> m in t.env && t.env[m] == s.env[m]
    requires forall m :: m in t.env && m !in s.env ==> m < p.next && t.env[m] < s.next
    ensures Accounts(p.(aliases := c), owned, t, e)
  {
  }

  /** An operation that only names buffers. */
  lemma NamingMeaning(op: Op, s: State, oracle: Oracle)
    requires (op.View? || op.Opaque?) && Exec(op, s, oracle).ok
    ensures
      var t := Exec(op, s, oracle);
      && s.ok && t == s.(env := t.env) && s.AllTouchable(op.Operands())
      && (forall m :: m in s.env ==> m in t.env && t.env[m] == s.env[m])
      && (forall m :: m in t.env && m !in s.env ==> m in op.Results() && Origins(op, s, m, t.env[m], oracle))
  {
    if op.View? {
      assert op.Results()[0] == op.result && op.Operands() == [op.source];
    } else {
      assert op.Results() == op.results;
      BindResultsMeaning(s, op.results, op.operands, oracle);
    }
  }

  /** Where a new name of buffer `b` got it from. */
  ghost predicate Origins(op: Op, s: State, m: Value, b: nat, oracle: Oracle) {
    match op
    case View(_, source) => source in s.env && b == s.env[source]
    case Opaque(_, operands) => ResultBuffer(s.env, s.next, m, operands, oracle) == Some(b)
    case _ => false
  }

  lemma NamingAccounted(p: Pass, c: Classes, owned: seq<Value>, s: State, e: Entry, op: Op, oracle: Oracle)
    requires Accounts(p, owned, s, e) && (op.View? || op.Opaque?) && ValidClasses(c)
    requires Exec(op, s, oracle).ok && forall k :: 0 <= k < |op.Results()| ==> op.Results()[k] < p.next
    ensures Accounts(p.(aliases := c), owned, Exec(op, s, oracle), e)
  {
    NamingMeaning(op, s, oracle);
    NamesAccounted(p, c, owned, s, Exec(op, s, oracle), e);
  }

  // ---------------------------------------------------------------- when the alias classes stay covering

  /** In the class of `r` or of an operand with the element type of `r`. */
  predicate Near(ty: ElementTypes, c: Classes, r: Value, operands: seq<Value>, x: Value) {
    || Equivalent(c, x, r)
    || exists k :: 0 <= k < |operands| && ty(r) == ty(operands[k]) && Equivalent(c, x, operands[k])
  }

  lemma UnionExactly(c: Classes, a: Value, b: Value, x: Value, y: Value)
    requires ValidClasses(c)
    ensures Equivalent(Union(c, a, b), x, y) <==>
            || Equivalent(c, x, y)
            || ((Equivalent(c, x, a) || Equivalent(c, x, b)) && (Equivalent(c, y, a) || Equivalent(c, y, b)))
  {
    UnionLeader(c, a, b, x);
    UnionLeader(c, a, b, y);
  }

  /** One result is joined with its near values, and nothing else is. */
  lemma {:induction false} AliasOperandsExactly(ty: ElementTypes, c: Classes, r: Value, operands: seq<Value>,
                                                x: Value, y: Value)
    requires ValidClasses(c)
    ensures Equivalent(AliasOperands(ty, c, r, operands), x, y) <==>
            Equivalent(c, x, y) || (Near(ty, c, r, operands, x) && Near(ty, c, r, operands, y))
    decreases |operands|
  {
    if operands != [] {
      var init, last := operands[..|operands| - 1], operands[|operands| - 1];
      NearSnoc(ty, c, r, operands, x);
      NearSnoc(ty, c, r, operands, y);
      AliasOperandsExactly(ty, c, r, init, x, y);
      if ty(r) == ty(last) {
        AliasOperandsJoins(ty, c, r, init);
        forall z | z == x || z == y
          ensures Equivalent(AliasOperands(ty, c, r, init), z, r) <==> Near(ty, c, r, init, z)
          ensures Equivalent(AliasOperands(ty, c, r, init), z, last) <==>
                  Equivalent(c, z, last) || (Near(ty, c, r, init, z) && Near(ty, c, r, init, last))
        {
          AliasOperandsExactly(ty, c, r, init, z, r);
          AliasOperandsExactly(ty, c, r, init, z, last);
        }
        UnionExactly(AliasOperands(ty, c, r, init), r, last, x, y);
      }
    }
  }

  lemma NearSnoc(ty: ElementTypes, c: Classes, r: Value, operands: seq<Value>, x: Value)
    requires operands != []
    ensures
      var init, last := operands[..|operands| - 1], operands[|operands| - 1];
      Near(ty, c, r, operands, x) <==> Near(ty, c, r, init, x) || (ty(r) == ty(last) && Equivalent(c, x, last))
  {
    var init, last := operands[..|operands| - 1], operands[|operands| - 1];
    assert forall k :: 0 <= k < |init| ==> init[k] == operands[k];
  }

  /** `x` and `y` are in one class, or some result connects them through operands of its element type. */
  predicate Linked(ty: ElementTypes, c: Classes, results: seq<Value>, operands: seq<Value>, x: Value, y: Value)
    decreases |results|, 0
  {
    if results == [] then Equivalent(c, x, y)
    else
      var init, r := results[..|results| - 1], results[|results| - 1];
      || Linked(ty, c, init, operands, x, y)
      || (Connects(ty, c, init, operands, r, x) && Connects(ty, c, init, operands, r, y))
  }

  predicate Connects(ty: ElementTypes, c: Classes, results: seq<Value>, operands: seq<Value>, r: Value, x: Value)
    decreases |results|, 1
  {
    || Linked(ty, c, results, operands, x, r)
    || exists k :: 0 <= k < |operands| && ty(r) == ty(operands[k]) && Linked(ty, c, results, operands, x, operands[k])
  }

  /** The classes after an operation are exactly the links. */
  lemma {:induction false} AliasResultsExactly(ty: ElementTypes, c: Classes, results: seq<Value>, operands: seq<Value>,
                                               x: Value, y: Value)
    requires ValidClasses(c)
    ensures Equivalent(AliasResults(ty, c, results, operands), x, y) <==> Linked(ty, c, results, operands, x, y)
    decreases |results|, 0
  {
    if results != [] {
      var init, r := results[..|results| - 1], results[|results| - 1];
      var d := AliasResults(ty, c, init, operands);
      AliasResultsJoins(ty, c, init, operands);
      AliasResultsExactly(ty, c, init, operands, x, y);
      ConnectsExactly(ty, c, init, operands, r, x);
      ConnectsExactly(ty, c, init, operands, r, y);
      AliasOperandsExactly(ty, d, r, operands, x, y);
    }
  }

  lemma {:induction false} ConnectsExactly(ty: ElementTypes, c: Classes, results: seq<Value>, operands: seq<Value>,
                                           r: Value, x: Value)
    requires ValidClasses(c)
    ensures Near(ty, AliasResults(ty, c, results, operands), r, operands, x) <==>
            Connects(ty, c, results, operands, r, x)
    decreases |results|, 1
  {
    AliasResultsExactly(ty, c, results, operands, x, r);
    forall k | 0 <= k < |operands|
      ensures Equivalent(AliasResults(ty, c, results, operands), x, operands[k]) <==>
              Linked(ty, c, results, operands, x, operands[k])
    {
      AliasResultsExactly(ty, c, results, operands, x, operands[k]);
    }
  }

  /** Every new name of an owned buffer is linked to the indicator that holds the buffer. */
  ghost predicate NamesLinked(ty: ElementTypes, c: Classes, op: Op, owned: seq<Value>, s: State, t: State) {
    forall m, v :: m in t.env && m !in s.env && v in owned && v in t.own && t.own[v] == Some(t.env[m]) ==>
      Linked(ty, c, op.Results(), op.Operands(), m, v)
  }

  /** After an operation that names buffers the classes still cover what happens at run time if and only if
      every new name of an owned buffer is linked to its owner. */
  lemma NamesCoveredExactly(ty: ElementTypes, p: Pass, owned: seq<Value>, s: State, e: Entry, op: Op, oracle: Oracle)
    requires Tracks(p, owned, s, e) && (op.View? || op.Opaque?) && Exec(op, s, oracle).ok
    ensures Covered(AliasResults(ty, p.aliases, op.Results(), op.Operands()), owned, Exec(op, s, oracle)) <==>
            NamesLinked(ty, p.aliases, op, owned, s, Exec(op, s, oracle))
  {
    var c, t := AliasResults(ty, p.aliases, op.Results(), op.Operands()), Exec(op, s, oracle);
    AliasResultsJoins(ty, p.aliases, op.Results(), op.Operands());
    NamingMeaning(op, s, oracle);
    forall m, v | m in t.env && v in owned && v in t.own && t.own[v] == Some(t.env[m])
      ensures m in s.env ==> Equivalent(c, m, v)
      ensures Equivalent(c, m, v) <==> Linked(ty, p.aliases, op.Results(), op.Operands(), m, v)
    {
      assert m in s.env ==> Equivalent(p.aliases, m, v);
      AliasResultsExactly(ty, p.aliases, op.Results(), op.Operands(), m, v);
    }
  }

  /** One result is linked to an owner if it is in the owner's class or an operand of its element type is. */
  lemma OneResultLinked(ty: ElementTypes, c: Classes, r: Value, operands: seq<Value>, v: Value)
    ensures Linked(ty, c, [r], operands, r, v) <==>
            || Equivalent(c, r, v)
            || exists k :: 0 <= k < |operands| && ty(operands[k]) == ty(r) && Equivalent(c, operands[k], v)
  {
    assert [r][..0] == [];
    assert Connects(ty, c, [], operands, r, v) <==>
           Equivalent(c, v, r)
           || exists k :: 0 <= k < |operands| && ty(r) == ty(operands[k]) && Equivalent(c, v, operands[k]);
  }

  /** A view of an owned buffer stays covered if and only if it has its source's element type or is in the owner's
      class already. */
  lemma ViewCoveredExactly(ty: ElementTypes, p: Pass, owned: seq<Value>, s: State, e: Entry, op: Op, v: Value,
                           oracle: Oracle)
    requires Tracks(p, owned, s, e) && op.View? && Exec(op, s, oracle).ok
    requires v in owned && s.own[v] == Some(s.env[op.source])
    ensures Covered(AliasResults(ty, p.aliases, op.Results(), op.Operands()), owned, Exec(op, s, oracle)) <==>
            ty(op.result) == ty(op.source) || Equivalent(p.aliases, op.result, v)
  {
    var t := Exec(op, s, oracle);
    NamesCoveredExactly(ty, p, owned, s, e, op, oracle);
    OneResultLinked(ty, p.aliases, op.result, [op.source], v);
    assert op.Results() == [op.result] && op.Operands() == [op.source];
    assert Equivalent(p.aliases, op.source, v);
    assert Linked(ty, p.aliases, [op.result], [op.source], op.result, v) <==>
           Equivalent(p.aliases, op.result, v) || ty([op.source][0]) == ty(op.result);
    assert forall w :: w in owned && s.own[w] == Some(s.env[op.source]) ==> w == v;
  }

  /** With agreeing element types the classes stay covering. */
  lemma TypedNamesLinked(ty: ElementTypes, p: Pass, owned: seq<Value>, s: State, e: Entry, op: Op, oracle: Oracle)
    requires Tracks(p, owned, s, e) && (op.View? || op.Opaque?) && Exec(op, s, oracle).ok
    requires Typed(ty, op, oracle) && ForeignElsewhere(oracle, e)
    ensures NamesLinked(ty, p.aliases, op, owned, s, Exec(op, s, oracle))
  {
    var c, t := AliasResults(ty, p.aliases, op.Results(), op.Operands()), Exec(op, s, oracle);
    AliasResultsJoins(ty, p.aliases, op.Results(), op.Operands());
    NamingMeaning(op, s, oracle);
    forall m, v | m in t.env && m !in s.env && v in owned && v in t.own && t.own[v] == Some(t.env[m])
      ensures Linked(ty, p.aliases, op.Results(), op.Operands(), m, v)
    {
      assert Holds(owned, s.own, t.env[m]);
      var k := TypedOrigin(ty, op, s, m, t.env[m], oracle, e);
      var o := op.Operands()[k];
      assert Equivalent(p.aliases, o, v);
      var i :| 0 <= i < |op.Results()| && op.Results()[i] == m;
      assert Equivalent(c, op.Results()[i], o);
      AliasResultsExactly(ty, p.aliases, op.Results(), op.Operands(), m, v);
    }
  }

  /** A new name of a buffer that the block owns has an operand of its element type with that buffer. */
  lemma TypedOrigin(ty: ElementTypes, op: Op, s: State, m: Value, b: nat, oracle: Oracle, e: Entry) returns (k: nat)
    requires Origins(op, s, m, b, oracle) && OwnedHere(e, b) && m in op.Results()
    requires Typed(ty, op, oracle) && ForeignElsewhere(oracle, e)
    ensures k < |op.Operands()| && ty(m) == ty(op.Operands()[k])
    ensures op.Operands()[k] in s.env && s.env[op.Operands()[k]] == b
  {
    if op.View? {
      k := 0;
    } else {
      k := oracle[m].k;
      var i :| 0 <= i < |op.results| && op.results[i] == m;
    }
  }

  // ---------------------------------------------------------------- frees

  /** Following views back leads to a memref with the same buffer. */
  lemma {:induction false} RootAgrees(ops: seq<Op>, start: State, oracle: Oracle, v: Value)
    requires Run(ops, start, oracle).ok
    ensures
      var s := Run(ops, start, oracle);
      if v in s.env then Root(ops, v) in s.env && s.env[Root(ops, v)] == s.env[v] else Root(ops, v) == v
    decreases |ops|
  {
    if ops != [] {
      var init, last := ops[..|ops| - 1], ops[|ops| - 1];
      var t := Run(init, start, oracle);
      ExecExtends(last, t, oracle);
      RootAgrees(init, start, oracle, if last.View? && last.result == v then last.source else v);
    }
  }

  lemma {:induction false} RemovedDistinct(vs: seq<Value>, gone: set<Value>)
    requires Distinct(vs)
    ensures Distinct(Removed(vs, gone))
    decreases |vs|
  {
    if vs != [] {
      RemovedDistinct(vs[..|vs| - 1], gone);
      assert vs[|vs| - 1] !in vs[..|vs| - 1];
    }
  }

  lemma RemovedHolds(owned: seq<Value>, own: map<Value, Option<nat>>, gone: set<Value>, b: nat)
    requires forall v :: v in gone && v in own ==> own[v] != Some(b)
    ensures Holds(Removed(owned, gone), own, b) <==> Holds(owned, own, b)
  {
    if Holds(owned, own, b) {
      var v :| v in owned && v in own && own[v] == Some(b);
      assert v in Removed(owned, gone);
    }
  }

  /** Forgetting the indicators of dead buffers keeps the account. */
  lemma ReleaseAccounted(p: Pass, owned: seq<Value>, s: State, e: Entry, gone: set<Value>, t: State)
    requires Accounts(p, owned, s, e) && t == s.(live := t.live) && t.live <= s.live
    requires forall v :: v in gone ==> v in s.own && s.own[v].Some?
    requires forall v :: v in gone ==> s.own[v].value !in t.live
    requires forall b :: b in s.live && b !in t.live ==> exists v :: v in gone && s.own[v] == Some(b)
    requires forall v :: v in gone ==> v in owned
    ensures Accounts(p, Removed(owned, gone), t, e)
  {
    RemovedDistinct(owned, gone);
    forall v | v in Removed(owned, gone) && t.own[v].Some?
      ensures t.own[v].value in t.live
    {
    }
    forall b | b in t.live
      ensures OwnedHere(e, b) <==> Holds(Removed(owned, gone), t.own, b)
    {
      RemovedHolds(owned, t.own, gone, b);
    }
  }

  /** What freeing a list of memrefs releases: for every freed buffer the indicator that holds it. */
  lemma {:induction false} FreesRelease(defs: seq<Op>, p: Pass, owned: seq<Value>, s: State, e: Entry, oracle: Oracle,
                                        frees: seq<Value>, gone: set<Value>)
    requires Accounts(p, owned, s, e) && Run(defs, e.start, oracle) == s
    requires FreedIndicators(defs, p.indicators, frees) == Some(gone) && FreeAll(s, frees).ok
    requires forall f :: f in frees ==> Root(defs, f) !in e.borrowed
    ensures FreeAll(s, frees) == s.(live := FreeAll(s, frees).live) && FreeAll(s, frees).live <= s.live
    ensures forall v :: v in gone ==> v in owned && v in s.own && s.own[v].Some?
    ensures forall v :: v in gone ==> s.own[v].value !in FreeAll(s, frees).live
    ensures forall b :: b in s.live && b !in FreeAll(s, frees).live ==> exists v :: v in gone && s.own[v] == Some(b)
    decreases |frees|
  {
    if frees != [] {
      var init, f := frees[..|frees| - 1], frees[|frees| - 1];
      var before := FreedIndicators(defs, p.indicators, init).value;
      FreesRelease(defs, p, owned, s, e, oracle, init, before);
      var t := FreeAll(s, init);
      RootAgrees(defs, e.start, oracle, f);
      var v := p.indicators[Root(defs, f)];
      assert gone == before + {v};
      assert s.own[v] == Some(s.env[f]) && s.env[f] in t.live;
      assert FreeAll(s, frees).live == t.live - {s.env[f]};
    }
  }

  // ---------------------------------------------------------------- allocs

  lemma AllocBounded(p: Pass, s: State, a: Value)
    requires Bounded(p, s) && a < p.next
    ensures Bounded(SetIndicator(p, a, p.next).(next := p.next + 1), s.Alloc(a).Hold(p.next, Some(s.next)))
  {
  }

  lemma AllocApart(p: Pass, owned: seq<Value>, s: State, a: Value)
    requires Bounded(p, s) && OwnsApart(owned, s)
    ensures OwnsApart(owned + [p.next], s.Alloc(a).Hold(p.next, Some(s.next)))
  {
    assert p.next !in owned;
    assert forall v :: v in owned && s.own[v].Some? ==> s.own[v].value < s.next;
  }

  lemma AllocIndicated(p: Pass, owned: seq<Value>, s: State, borrowed: set<Value>, a: Value)
    requires Bounded(p, s) && Indicated(p, owned, s, borrowed) && a !in s.env && a < p.next
    ensures Indicated(SetIndicator(p, a, p.next).(next := p.next + 1), owned + [p.next],
                      s.Alloc(a).Hold(p.next, Some(s.next)), borrowed)
  {
  }

  /** A new buffer under a new indicator. */
  lemma AllocAccounted(p: Pass, owned: seq<Value>, s: State, e: Entry, a: Value)
    requires Accounts(p, owned, s, e) && a !in s.env && a < p.next
    ensures Accounts(SetIndicator(p, a, p.next).(next := p.next + 1), owned + [p.next],
                     s.Alloc(a).Hold(p.next, Some(s.next)), e)
  {
    AllocBounded(p, s, a);
    AllocApart(p, owned, s, a);
    AllocIndicated(p, owned, s, e.borrowed, a);
    UnionJoins(p.aliases, a, p.next);
    forall b
      ensures Holds(owned + [p.next], s.own[p.next := Some(s.next)], b) <==> Holds(owned, s.own, b) || b == s.next
    {
      HoldsMore(owned, s.own, p.next, s.next, b);
    }
  }

  lemma AllocCovered(p: Pass, owned: seq<Value>, s: State, e: Entry, a: Value)
    requires Tracks(p, owned, s, e) && a !in s.env && a < p.next
    ensures Covered(Union(p.aliases, a, p.next), owned + [p.next], s.Alloc(a).Hold(p.next, Some(s.next)))
  {
    var v := p.next;
    var t := s.Alloc(a).Hold(v, Some(s.next));
    UnionJoins(p.aliases, a, v);
    forall m, w | m in t.env && w in owned + [v] && w in t.own && t.own[w] == Some(t.env[m])
      ensures Equivalent(Union(p.aliases, a, v), m, w)
    {
      if m != a && w != v {
        assert Equivalent(p.aliases, m, w);
      }
    }
  }

  lemma HoldsMore(owned: seq<Value>, own: map<Value, Option<nat>>, v: Value, new_: nat, b: nat)
    requires v !in own
    ensures Holds(owned + [v], own[v := Some(new_)], b) <==> Holds(owned, own, b) || b == new_
  {
    var more := own[v := Some(new_)];
    if Holds(owned, own, b) {
      var w :| w in owned && w in own && own[w] == Some(b);
      assert w in owned + [v] && more[w] == Some(b);
    }
    assert v in owned + [v] && more[v] == Some(new_);
  }

  predicate AllOwn(ops: seq<Op>) {
    forall k :: 0 <= k < |ops| ==> ops[k].Own?
  }

  /** Declaring ownership and a further alloc do not disturb each other. */
  lemma {:induction false} OwnsCommute(owns: seq<Op>, s: State, oracle: Oracle, a: Value)
    requires AllOwn(owns) && Run(owns, s, oracle).ok && a !in s.env
    ensures Run(owns, s.Alloc(a), oracle) == Run(owns, s, oracle).Alloc(a)
    ensures Run(owns, s, oracle) == s.(own := Run(owns, s, oracle).own)
    decreases |owns|
  {
    if owns != [] {
      var init, last := owns[..|owns| - 1], owns[|owns| - 1];
      ExecExtends(last, Run(init, s, oracle), oracle);
      OwnsCommute(init, s, oracle, a);
    }
  }

  lemma AllocOwned(owns: seq<Op>, s: State, oracle: Oracle, a: Value, v: Value)
    requires AllOwn(owns) && Run(owns, s, oracle).ok && a !in s.env
    ensures Run(owns + [Own(v, a)], s.Alloc(a), oracle) == Run(owns, s, oracle).Alloc(a).Hold(v, Some(s.next))
    ensures Run(owns, s, oracle) == s.(own := Run(owns, s, oracle).own)
  {
    OwnsCommute(owns, s, oracle, a);
    RunSnoc(owns, Own(v, a), s.Alloc(a), oracle);
  }

  /** The pass, the owned indicators and the state, one alloc and its indicator at a time. */
  datatype Stage = Stage(p: Pass, owned: seq<Value>, s: State) {
    function Next(a: Value): Stage {
      Stage(SetIndicator(p, a, p.next).(next := p.next + 1), owned + [p.next], s.Alloc(a).Hold(p.next, Some(s.next)))
    }
  }

  function Stages(g: Stage, allocs: seq<Value>): Stage {
    if allocs == [] then g else Stages(g, allocs[..|allocs| - 1]).Next(allocs[|allocs| - 1])
  }

  lemma {:induction false} StagesPass(g: Stage, allocs: seq<Value>)
    ensures AllOwn(OwnAllocs(g.p, allocs).inserted)
    ensures Stages(g, allocs).p == OwnAllocs(g.p, allocs).pass
    ensures Stages(g, allocs).owned == g.owned + OwnAllocs(g.p, allocs).acquired
    decreases |allocs|
  {
    if allocs == [] {
      assert g.owned + [] == g.owned;
    } else {
      StagesPass(g, allocs[..|allocs| - 1]);
    }
  }

  /** Allocating everything and then declaring ownership comes to the same as one alloc at a time. */
  lemma {:induction false} StagesRun(g: Stage, allocs: seq<Value>, oracle: Oracle)
    requires Stages(g, allocs).s.ok
    ensures Stages(g, allocs).s == Run(OwnAllocs(g.p, allocs).inserted, AllocAll(g.s, allocs), oracle)
    ensures Stages(g, allocs).s == AllocAll(g.s, allocs).(own := Stages(g, allocs).s.own)
    decreases |allocs|
  {
    if allocs != [] {
      var init, a := allocs[..|allocs| - 1], allocs[|allocs| - 1];
      StagesPass(g, init);
      StagesRun(g, init, oracle);
      AllocOwned(OwnAllocs(g.p, init).inserted, AllocAll(g.s, init), oracle, a, OwnAllocs(g.p, init).pass.next);
    }
  }

  lemma {:induction false} StagesAccounted(g: Stage, allocs: seq<Value>, e: Entry)
    requires Accounts(g.p, g.owned, g.s, e) && AllocAll(g.s, allocs).ok
    requires forall k :: 0 <= k < |allocs| ==> allocs[k] < g.p.next
    ensures
      var h := Stages(g, allocs);
      && Accounts(h.p, h.owned, h.s, e) && g.p.next <= h.p.next && h.s == AllocAll(g.s, allocs).(own := h.s.own)
    decreases |allocs|
  {
    if allocs != [] {
      var init, a := allocs[..|allocs| - 1], allocs[|allocs| - 1];
      StagesAccounted(g, init, e);
      var h := Stages(g, init);
      AllocAccounted(h.p, h.owned, h.s, e, a);
    }
  }

  lemma {:induction false} StagesCovered(g: Stage, allocs: seq<Value>, e: Entry)
    requires Tracks(g.p, g.owned, g.s, e) && AllocAll(g.s, allocs).ok
    requires forall k :: 0 <= k < |allocs| ==> allocs[k] < g.p.next
    ensures
      var h := Stages(g, allocs);
      Tracks(h.p, h.owned, h.s, e)
    decreases |allocs|
  {
    if allocs != [] {
      var init, a := allocs[..|allocs| - 1], allocs[|allocs| - 1];
      StagesCovered(g, init, e);
      StagesAccounted(g, init, e);
      var h := Stages(g, init);
      AllocAccounted(h.p, h.owned, h.s, e, a);
      AllocCovered(h.p, h.owned, h.s, e, a);
    }
  }
}

/** The deallocation of one block without nested regions, as functions of the values it threads through. */
module Deallocation {
  import opened BufferProgram
  import opened Options
  import opened ValueClasses

  /** The element type of every memref. */
  type ElementTypes = Value -> nat

  /** What the pass remembers: alias classes, the indicator of each memref, and the next unused value. */
  datatype Pass = Pass(aliases: Classes, indicators: map<Value, Value>, next: Value)

  datatype OpResult = OpResult(pass: Pass, inserted: seq<Op>, acquired: seq<Value>, released: set<Value>)

  /** A block in the middle of being transformed. */
  datatype Progress = Progress(pass: Pass, ops: seq<Op>, owned: seq<Value>, released: set<Value>)

  function SetIndicator(p: Pass, owned: Value, indicator: Value): Pass {
    p.(aliases := Union(p.aliases, owned, indicator), indicators := p.indicators[owned := indicator])
  }

  /** The memref a value is a view of, following views back through the operations in front of it. */
  function Root(defs: seq<Op>, v: Value): Value {
    if defs == [] then v
    else
      var last := defs[|defs| - 1];
      Root(defs[..|defs| - 1], if last.View? && last.result == v then last.source else v)
  }

  function FindIndicator(defs: seq<Op>, indicators: map<Value, Value>, v: Value): Option<Value> {
    var root := Root(defs, v);
    if root in indicators then Some(indicators[root]) else None
  }

  /** One fresh indicator per alloc. */
  function OwnAllocs(p: Pass, allocs: seq<Value>): (r: OpResult)
    ensures |r.acquired| == |r.inserted| == |allocs| && r.released == {}
  {
    if allocs == [] then OpResult(p, [], [], {})
    else
      var r, alloc := OwnAllocs(p, allocs[..|allocs| - 1]), allocs[|allocs| - 1];
      var indicator := r.pass.next;
      OpResult(SetIndicator(r.pass, alloc, indicator).(next := indicator + 1), r.inserted + [Own(indicator, alloc)],
               r.acquired + [indicator], {})
  }

  /** The indicators of the freed memrefs, or none if one of them has no indicator. */
  function FreedIndicators(defs: seq<Op>, indicators: map<Value, Value>, frees: seq<Value>): Option<set<Value>> {
    if frees == [] then Some({})
    else
      match FreedIndicators(defs, indicators, frees[..|frees| - 1])
      case None => None
      case Some(released) =>
        match FindIndicator(defs, indicators, frees[|frees| - 1])
        case None => None
        case Some(v) => Some(released + {v})
  }

  function AliasOperands(ty: ElementTypes, c: Classes, result: Value, operands: seq<Value>): Classes {
    if operands == [] then c
    else
      var d, arg := AliasOperands(ty, c, result, operands[..|operands| - 1]), operands[|operands| - 1];
      if ty(result) == ty(arg) then Union(d, result, arg) else d
  }

  /** Any result may alias any operand of the same element type. */
  function AliasResults(ty: ElementTypes, c: Classes, results: seq<Value>, operands: seq<Value>): Classes {
    if results == [] then c
    else
      AliasOperands(ty, AliasResults(ty, c, results[..|results| - 1], operands), results[|results| - 1], operands)
  }

  function TransformOp(ty: ElementTypes, p: Pass, defs: seq<Op>, op: Op): Option<OpResult> {
    if op.Memory? && (op.allocs != [] || op.frees != []) then
      var r := OwnAllocs(p, op.allocs);
      match FreedIndicators(defs, r.pass.indicators, op.frees)
      case None => None
      case Some(released) => Some(r.(released := released))
    else
      Some(OpResult(p.(aliases := AliasResults(ty, p.aliases, op.Results(), op.Operands())), [], [], {}))
  }

  function Removed(vs: seq<Value>, gone: set<Value>): (left: seq<Value>)
    ensures forall v :: v in left <==> v in vs && v !in gone
  {
    if vs == [] then []
    else
      var left, last := Removed(vs[..|vs| - 1], gone), vs[|vs| - 1];
      if last in gone then left else left + [last]
  }

  /** Transforms one more operation; none when it fails or releases a foreign indicator a second time. */
  function AddOp(ty: ElementTypes, g: Progress, op: Op): Option<Progress> {
    match TransformOp(ty, g.pass, g.ops, op)
    case None => None
    case Some(r) =>
      var foreign := r.released - (set v | v in g.owned);
      if foreign * g.released != {} then None
      else
        Some(Progress(r.pass, g.ops + [op] + r.inserted, Removed(g.owned, r.released) + r.acquired,
                      g.released + foreign))
  }

  function AddOps(ty: ElementTypes, g: Progress, ops: seq<Op>): Option<Progress> {
    if ops == [] then Some(g)
    else
      match AddOps(ty, g, ops[..|ops| - 1])
      case None => None
      case Some(h) => AddOp(ty, h, ops[|ops| - 1])
  }

  /** Fresh indicators for the arguments, which the block then owns. */
  function OwnArguments(p: Pass, args: seq<Value>): (r: OpResult)
    ensures |r.acquired| == |args|
  {
    if args == [] then OpResult(p, [], [], {})
    else
      var r, arg := OwnArguments(p, args[..|args| - 1]), args[|args| - 1];
      var indicator := r.pass.next;
      OpResult(SetIndicator(r.pass, arg, indicator).(next := indicator + 1), [], r.acquired + [indicator], {})
  }

  // ---------------------------------------------------------------- early retains

  predicate DoesAlias(op: Op, c: Classes, v: Value) {
    || (exists k :: 0 <= k < |op.Operands()| && Equivalent(c, v, op.Operands()[k]))
    || (exists k :: 0 <= k < |op.Results()| && Equivalent(c, v, op.Results()[k]))
  }

  /** The earliest place behind every operation that may alias `v`. */
  function InsertionPoint(ops: seq<Op>, c: Classes, v: Value): (n: nat)
    ensures n <= |ops| && (n > 0 ==> DoesAlias(ops[n - 1], c, v))
    ensures forall k :: n <= k < |ops| ==> !DoesAlias(ops[k], c, v)
  {
    PointFrom(ops, c, v, |ops|)
  }

  /** The walk back from a place that only operations which do not alias `v` follow. */
  function PointFrom(ops: seq<Op>, c: Classes, v: Value, i: nat): (n: nat)
    requires i <= |ops| && forall k :: i <= k < |ops| ==> !DoesAlias(ops[k], c, v)
    ensures n <= i && (n > 0 ==> DoesAlias(ops[n - 1], c, v))
    ensures forall k :: n <= k < |ops| ==> !DoesAlias(ops[k], c, v)
    decreases i
  {
    if i == 0 || DoesAlias(ops[i - 1], c, v) then i else PointFrom(ops, c, v, i - 1)
  }

  lemma InsertionPointUnique(ops: seq<Op>, c: Classes, v: Value, n: nat)
    requires n <= |ops| && (n > 0 ==> DoesAlias(ops[n - 1], c, v))
    requires forall k :: n <= k < |ops| ==> !DoesAlias(ops[k], c, v)
    ensures InsertionPoint(ops, c, v) == n
  {
    if InsertionPoint(ops, c, v) > 0 {
      var op := ops[InsertionPoint(ops, c, v) - 1];
      assert DoesAlias(op, c, v);
    }
  }

  predicate Escapes(c: Classes, yielded: seq<Value>, v: Value) {
    exists k :: 0 <= k < |yielded| && Equivalent(c, yielded[k], v)
  }

  function InsertRetain(ops: seq<Op>, c: Classes, v: Value): seq<Op> {
    var n := InsertionPoint(ops, c, v);
    ops[..n] + [Retain([], [], [v])] + ops[n..]
  }

  /** Every owned indicator that does not escape gets a retain of its own, as early as possible. */
  function RetainEarly(ops: seq<Op>, c: Classes, yielded: seq<Value>, owned: seq<Value>): seq<Op> {
    if owned == [] then ops
    else
      var before, v := RetainEarly(ops, c, yielded, owned[..|owned| - 1]), owned[|owned| - 1];
      if Escapes(c, yielded, v) then before else InsertRetain(before, c, v)
  }

  // ---------------------------------------------------------------- one retain per class

  function GroupOf(c: Classes, vs: seq<Value>, leader: Value): (group: seq<Value>)
    ensures forall v :: v in group <==> v in vs && Leader(c, v) == leader
  {
    if vs == [] then []
    else
      var group, last := GroupOf(c, vs[..|vs| - 1], leader), vs[|vs| - 1];
      if Leader(c, last) == leader then group + [last] else group
  }

  /** The leaders of the values, each once, in the order of their first value. */
  function Leaders(c: Classes, vs: seq<Value>): (leaders: seq<Value>)
    ensures forall v :: v in vs ==> Leader(c, v) in leaders
  {
    if vs == [] then []
    else
      var leaders, last := Leaders(c, vs[..|vs| - 1]), Leader(c, vs[|vs| - 1]);
      if last in leaders then leaders else leaders + [last]
  }

  /** The first place of a value, as a search finds it. */
  function IndexOf(vs: seq<Value>, v: Value): (k: nat)
    requires v in vs
    ensures k < |vs| && vs[k] == v && forall j :: 0 <= j < k ==> vs[j] != v
  {
    IndexFrom(vs, v, 0)
  }

  function IndexFrom(vs: seq<Value>, v: Value, i: nat): (k: nat)
    requires v in vs && forall j :: 0 <= j < i && j < |vs| ==> vs[j] != v
    ensures k < |vs| && vs[k] == v && forall j :: 0 <= j < k ==> vs[j] != v
    decreases |vs| - i
  {
    if vs[i] == v then i else IndexFrom(vs, v, i + 1)
  }

  /** The indicators handed out with the yielded memrefs, and the operations that compute them. */
  datatype Ending = Ending(ops: seq<Op>, acquired: seq<Value>, next: Value, aliases: Classes)

  /** Puts the indicators `first`, `first + 1`, ... at the places of the group's values. */
  function PlaceResults(acquired: seq<Value>, yielded: seq<Value>, group: seq<Value>, first: Value): (r: seq<Value>)
    requires |acquired| == |yielded| && forall v :: v in group ==> v in yielded
    ensures |r| == |yielded|
  {
    if group == [] then acquired
    else
      PlaceResults(acquired, yielded, group[..|group| - 1], first)
      [IndexOf(yielded, group[|group| - 1]) := first + |group| - 1]
  }

  function Fresh(first: Value, n: nat): (vs: seq<Value>)
    ensures |vs| == n && forall k :: 0 <= k < n ==> vs[k] == first + k
  {
    seq(n, k => first + k)
  }

  function JoinResults(c: Classes, group: seq<Value>, first: Value): Classes {
    if group == [] then c
    else Union(JoinResults(c, group[..|group| - 1], first), first + |group| - 1, group[|group| - 1])
  }

  /**
   * Hands out the class of one leader: directly when one owned indicator meets one yielded memref, else with a
   * retain. The groups go by the classes `c` from before any of them.
   */
  function EndGroup(c: Classes, yielded: seq<Value>, owned: seq<Value>, leader: Value, e: Ending): (r: Ending)
    requires |e.acquired| == |yielded|
    ensures |r.acquired| == |yielded|
  {
    var group, ownedGroup := GroupOf(c, yielded, leader), GroupOf(c, owned, leader);
    if |ownedGroup| == 1 && |group| == 1 then
      e.(acquired := e.acquired[IndexOf(yielded, group[0]) := ownedGroup[0]])
    else
      Ending(e.ops + [Retain(Fresh(e.next, |group|), group, ownedGroup)],
             PlaceResults(e.acquired, yielded, group, e.next), e.next + |group|,
             JoinResults(e.aliases, group, e.next))
  }

  function EndGroups(c: Classes, yielded: seq<Value>, owned: seq<Value>, leaders: seq<Value>, e: Ending): (r: Ending)
    requires |e.acquired| == |yielded|
    ensures |r.acquired| == |yielded|
  {
    if leaders == [] then e
    else
      EndGroup(c, yielded, owned, leaders[|leaders| - 1],
               EndGroups(c, yielded, owned, leaders[..|leaders| - 1], e))
  }

  // ---------------------------------------------------------------- the block

  datatype BlockResult = BlockResult(ops: seq<Op>, acquired: seq<Value>, released: set<Value>, pass: Pass)

  function BlockStart(p: Pass, args: seq<Value>, ownsInputs: bool): Progress {
    if ownsInputs then
      var r := OwnArguments(p, args);
      Progress(r.pass, [], r.acquired, {})
    else Progress(p, [], [], {})
  }

  function Repeated(v: Value, n: nat): (vs: seq<Value>)
    ensures |vs| == n && forall k :: 0 <= k < n ==> vs[k] == v
  {
    seq(n, k => v)
  }

  /** Nothing is handed out yet: every place holds the null indicator. */
  function NothingPlaced(n: nat, noAlloc: Value, c: Classes): Ending {
    Ending([], Repeated(noAlloc, n), noAlloc + 1, c)
  }

  /** The ending of a block. */
  function BlockEnding(c: Classes, yielded: seq<Value>, owned: seq<Value>, noAlloc: Value): (e: Ending)
    ensures |e.acquired| == |yielded|
  {
    EndGroups(c, yielded, owned, Leaders(c, yielded), NothingPlaced(|yielded|, noAlloc, c))
  }

  /** Early retains, a null indicator if one is needed, and one retain per class of yielded memrefs. */
  function FinishBlock(g: Progress, yielded: seq<Value>): BlockResult {
    var noAlloc := g.pass.next;
    var e := BlockEnding(g.pass.aliases, yielded, g.owned, noAlloc);
    var nulls := if noAlloc in e.acquired then [Null(noAlloc)] else [];
    BlockResult(RetainEarly(g.ops, g.pass.aliases, yielded, g.owned) + nulls + e.ops,
                e.acquired, g.released, Pass(e.aliases, g.pass.indicators, e.next))
  }

  function TransformedBlock(ty: ElementTypes, p: Pass, args: seq<Value>, ops: seq<Op>, yielded: seq<Value>,
                            ownsInputs: bool): Option<BlockResult>
  {
    match AddOps(ty, BlockStart(p, args, ownsInputs), ops)
    case None => None
    case Some(g) => Some(FinishBlock(g, yielded))
  }
}

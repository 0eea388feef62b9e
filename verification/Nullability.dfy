/** Whether an ownership indicator can be null, by a search over a value-flow graph that may have cycles. */
module Nullability {
  import opened BufferProgram
  import opened Deallocation
  import opened DeallocationRetains
  import opened DeallocationTracking
  import opened Options
  import opened Sequences

  // ---------------------------------------------------------------- which memref an indicator owns

  datatype Kind = MemRef | Indicator | Other

  /** A result or block argument with its type. */
  datatype Item = Item(value: Value, kind: Kind)

  /** The positions of a kind in front of position `n`. */
  ghost function Before(vals: seq<Item>, kind: Kind, n: int): (positions: set<int>)
    requires n <= |vals|
  {
    set k | 0 <= k < n && vals[k].kind == kind
  }

  /** `m` is the memref with as many memrefs in front of it as there are indicators in front of value `number`. */
  ghost predicate Owns(vals: seq<Item>, number: nat, m: Value)
    requires number <= |vals|
  {
    exists j :: 0 <= j < |vals| && vals[j] == Item(m, MemRef)
                && |Before(vals, MemRef, j)| == |Before(vals, Indicator, number)|
  }

  /** From one position of the kind to the next, one more stands in front. */
  lemma BeforeNext(vals: seq<Item>, kind: Kind, n: nat, next: nat)
    requires n < next <= |vals| && forall k :: n < k < next ==> vals[k].kind != kind
    ensures |Before(vals, kind, next)| == |Before(vals, kind, n)| + if vals[n].kind == kind then 1 else 0
  {
    var here := if vals[n].kind == kind then {n} else {};
    forall k
      ensures k in Before(vals, kind, next) <==> k in Before(vals, kind, n) + here
    {
    }
    assert Before(vals, kind, next) == Before(vals, kind, n) + here;
    assert Before(vals, kind, n) !! here;
  }

  lemma {:induction false} BeforeRises(vals: seq<Item>, kind: Kind, j: nat, n: nat)
    requires j < n <= |vals| && vals[j].kind == kind
    ensures |Before(vals, kind, j)| < |Before(vals, kind, n)|
    decreases n
  {
    BeforeNext(vals, kind, n - 1, n);
    if j < n - 1 {
      BeforeRises(vals, kind, j, n - 1);
    }
  }

  /** No two memrefs have equally many memrefs in front of them. */
  lemma OwnsOne(vals: seq<Item>, number: nat, j: nat)
    requires number <= |vals| && j < |vals| && vals[j].kind.MemRef?
    requires |Before(vals, MemRef, j)| == |Before(vals, Indicator, number)|
    ensures forall m: Value :: Owns(vals, number, m) <==> m == vals[j].value
  {
    assert vals[j] == Item(vals[j].value, MemRef);
    forall m: Value | Owns(vals, number, m)
      ensures m == vals[j].value
    {
      var i :| 0 <= i < |vals| && vals[i] == Item(m, MemRef)
               && |Before(vals, MemRef, i)| == |Before(vals, Indicator, number)|;
      if i < j {
        BeforeRises(vals, MemRef, i, j);
      } else if j < i {
        BeforeRises(vals, MemRef, j, i);
      }
    }
  }

  lemma OwnsNone(vals: seq<Item>, number: nat)
    requires number <= |vals| && |Before(vals, MemRef, |vals|)| <= |Before(vals, Indicator, number)|
    ensures forall m: Value :: !Owns(vals, number, m)
  {
    forall j | 0 <= j < |vals| && vals[j].kind.MemRef?
      ensures |Before(vals, MemRef, j)| < |Before(vals, Indicator, number)|
    {
      BeforeRises(vals, MemRef, j, |vals|);
    }
  }

  /** Counts the indicators in front of the value and walks along the memrefs as far. */
  method GetOwnedValue(vals: seq<Item>, number: nat) returns (owned: Option<Value>)
    requires number <= |vals|
    ensures forall m: Value :: owned == Some(m) <==> Owns(vals, number, m)
  {
    var num: nat := 0;
    for i := 0 to number
      invariant num == |Before(vals, Indicator, i)|
    {
      BeforeNext(vals, Indicator, i, i + 1);
      if vals[i].kind.Indicator? {
        num := num + 1;
      }
    }
    var i, seen: nat := 0, 0;
    while i < |vals|
      invariant i <= |vals| && seen == |Before(vals, MemRef, i)| <= num
    {
      BeforeNext(vals, MemRef, i, i + 1);
      if vals[i].kind.MemRef? {
        if seen == num {
          OwnsOne(vals, number, i);
          return Some(vals[i].value);
        }
        seen := seen + 1;
      }
      i := i + 1;
    }
    OwnsNone(vals, number);
    return None;
  }

  function Items(vs: seq<Value>, kind: Kind): (vals: seq<Item>)
    ensures |vals| == |vs| && forall k :: 0 <= k < |vs| ==> vals[k] == Item(vs[k], kind)
  {
    seq(|vs|, k requires 0 <= k < |vs| => Item(vs[k], kind))
  }

  /** `at` lists, in order, where the memrefs `args` stand among the values; no other value is a memref. */
  ghost predicate Listing(vals: seq<Item>, args: seq<Value>, at: seq<nat>) {
    && |at| == |args|
    && (forall k :: 0 <= k < |at| ==> at[k] < |vals| && vals[at[k]] == Item(args[k], MemRef))
    && (forall k, l :: 0 <= k < l < |at| ==> at[k] < at[l])
    && forall j :: 0 <= j < |vals| && vals[j].kind.MemRef? ==> exists k :: 0 <= k < |at| && at[k] == j
  }

  lemma NoneBetween(vals: seq<Item>, args: seq<Value>, at: seq<nat>, l: nat, k: nat)
    requires Listing(vals, args, at) && l + 1 == k < |at|
    ensures forall j :: at[l] < j < at[k] ==> !vals[j].kind.MemRef?
  {
    forall j | at[l] < j < at[k]
      ensures !vals[j].kind.MemRef?
    {
      assert forall i :: 0 <= i < |at| ==> at[i] <= at[l] || at[k] <= at[i];
    }
  }

  lemma {:induction false} ListedBefore(vals: seq<Item>, args: seq<Value>, at: seq<nat>, k: nat)
    requires Listing(vals, args, at) && k < |at|
    ensures |Before(vals, MemRef, at[k])| == k
    decreases k
  {
    if k == 0 {
      assert Before(vals, MemRef, at[k]) == {};
    } else {
      ListedBefore(vals, args, at, k - 1);
      NoneBetween(vals, args, at, k - 1, k);
      BeforeNext(vals, MemRef, at[k - 1], at[k]);
    }
  }

  lemma {:induction false} IndicatorsBefore(vals: seq<Item>, indicators: seq<Value>, k: nat)
    requires k <= |indicators| && forall j :: 0 <= j < |vals| ==> !vals[j].kind.Indicator?
    ensures |Before(vals + Items(indicators, Indicator), Indicator, |vals| + k)| == k
    decreases k
  {
    var all := vals + Items(indicators, Indicator);
    if k == 0 {
      assert Before(all, Indicator, |vals|) == {};
    } else {
      IndicatorsBefore(vals, indicators, k - 1);
      BeforeNext(all, Indicator, |vals| + k - 1, |vals| + k);
    }
  }

  /** Indicators appended in the order of the memrefs are paired with them, whatever stands in between. */
  lemma AppendedArePaired(vals: seq<Item>, args: seq<Value>, at: seq<nat>, indicators: seq<Value>, all: seq<Item>,
                          n: nat, k: nat)
    requires Listing(vals, args, at) && k < |indicators| == |args|
    requires all == vals + Items(indicators, Indicator) && n == |vals| + k
    requires forall j :: 0 <= j < |vals| ==> !vals[j].kind.Indicator?
    ensures forall m: Value :: Owns(all, n, m) <==> m == args[k]
  {
    ListedBefore(vals, args, at, k);
    IndicatorsBefore(vals, indicators, k);
    assert Before(all, MemRef, at[k]) == Before(vals, MemRef, at[k]);
    OwnsOne(all, n, at[k]);
  }

  /** Every indicator of the list is null or holds the buffer of the memref it is paired with. */
  ghost predicate Paired(vals: seq<Item>, s: State) {
    forall n :: 0 <= n < |vals| && vals[n].kind.Indicator? ==> PairedAt(vals, n, s)
  }

  ghost predicate PairedAt(vals: seq<Item>, n: nat, s: State)
    requires n < |vals|
  {
    forall m: Value :: Owns(vals, n, m) && vals[n].value in s.own && s.own[vals[n].value].Some? ==>
      m in s.env && s.own[vals[n].value] == Some(s.env[m])
  }

  lemma {:induction false} ArgumentIndicators(p: Pass, args: seq<Value>, k: nat)
    requires k < |args| && Distinct(args)
    ensures
      var r := OwnArguments(p, args);
      args[k] in r.pass.indicators && r.pass.indicators[args[k]] == r.acquired[k]
    decreases |args|
  {
    if k < |args| - 1 {
      ArgumentIndicators(p, args[..|args| - 1], k);
      assert args[|args| - 1] != args[k];
    }
  }

  /** The indicators that the deallocation appends to a block's arguments, of which `args` are the memrefs, own the
      memrefs they are paired with. */
  lemma OwnedArgumentsPaired(p: Pass, vals: seq<Item>, args: seq<Value>, at: seq<nat>, owned: seq<Value>, s: State,
                             borrowed: set<Value>)
    requires Listing(vals, args, at) && forall j :: 0 <= j < |vals| ==> !vals[j].kind.Indicator?
    requires Distinct(args) && Indicated(OwnArguments(p, args).pass, owned, s, borrowed)
    ensures Paired(vals + Items(OwnArguments(p, args).acquired, Indicator), s)
  {
    var inds := OwnArguments(p, args).acquired;
    var all := vals + Items(inds, Indicator);
    forall n | 0 <= n < |all| && all[n].kind.Indicator?
      ensures PairedAt(all, n, s)
    {
      var k := n - |vals|;
      AppendedArePaired(vals, args, at, inds, all, n, k);
      ArgumentIndicators(p, args, k);
      assert all[n].value == inds[k];
    }
  }

  // ---------------------------------------------------------------- definitions

  /** How an indicator comes about; `Flow` takes over the value of one of its predecessors and is value `number` of
      the listed results or arguments. */
  datatype Definition =
    | FromOwn(memref: Value)
    | FromNull
    | FromRetain(allocs: seq<Value>)
    | Flow(predecessors: seq<Value>, vals: seq<Item>, number: nat)
    | Unknown
  {
    predicate Listed() { Flow? ==> number <= |vals| }

    /** The memref whose buffer the indicator holds unless it is null. */
    ghost predicate Names(m: Value)
      requires Listed()
    {
      match this
      case FromOwn(memref) => m == memref
      case Flow(_, vals, number) => Owns(vals, number, m)
      case _ => false
    }

    function Sources(): seq<Value> {
      match this
      case FromRetain(allocs) => allocs
      case Flow(predecessors, _, _) => predecessors
      case _ => []
    }

    /** What the definition itself contributes; a retain may always come out null. */
    function Contribution(): Nullness {
      match this
      case FromOwn(_) => NEVER_NULL
      case FromNull => ALWAYS_NULL
      case FromRetain(_) => ALWAYS_NULL
      case Flow(_, _, _) => UNDEFINED
      case Unknown => SOMETIMES_NULL
    }
  }

  type FlowGraph = map<Value, Definition>

  /** Two flags: the value may be null, the value may be non-null. */
  datatype Nullness = Nullness(null_: bool, nonNull: bool) {
    function Or(other: Nullness): Nullness { Nullness(null_ || other.null_, nonNull || other.nonNull) }
    predicate Covers(other: Nullness) { (other.null_ ==> null_) && (other.nonNull ==> nonNull) }
  }

  const UNDEFINED := Nullness(false, false)
  const ALWAYS_NULL := Nullness(true, false)
  const NEVER_NULL := Nullness(false, true)
  const SOMETIMES_NULL := Nullness(true, true)

  predicate Closed(flow: FlowGraph) {
    forall v :: v in flow ==>
      flow[v].Listed() && forall k :: 0 <= k < |flow[v].Sources()| ==> flow[v].Sources()[k] in flow
  }

  // ---------------------------------------------------------------- paths

  predicate IsFlowPath(flow: FlowGraph, p: seq<Value>) {
    && p != [] && (forall i :: 0 <= i < |p| ==> p[i] in flow)
    && forall i :: 0 <= i < |p| - 1 ==> p[i + 1] in flow[p[i]].Sources()
  }

  ghost predicate Reaches(flow: FlowGraph, v: Value, u: Value) {
    exists p :: IsFlowPath(flow, p) && p[0] == v && p[|p| - 1] == u
  }

  lemma ReachesSelf(flow: FlowGraph, v: Value)
    requires v in flow
    ensures Reaches(flow, v, v)
  {
    assert IsFlowPath(flow, [v]);
  }

  lemma ReachesThrough(flow: FlowGraph, v: Value, a: Value, u: Value)
    requires v in flow && a in flow[v].Sources() && Reaches(flow, a, u)
    ensures Reaches(flow, v, u)
  {
    var p :| IsFlowPath(flow, p) && p[0] == a && p[|p| - 1] == u;
    assert IsFlowPath(flow, [v] + p);
  }

  /** A set that contains the sources of all its values contains everything they reach. */
  lemma {:induction false} ReachStaysInside(flow: FlowGraph, s: set<Value>, p: seq<Value>)
    requires IsFlowPath(flow, p) && p[0] in s
    requires forall w, k :: w in s && w in flow && 0 <= k < |flow[w].Sources()| ==> flow[w].Sources()[k] in s
    ensures p[|p| - 1] in s
    decreases |p|
  {
    if |p| > 1 {
      assert p[1] in flow[p[0]].Sources();
      ReachStaysInside(flow, s, p[1..]);
    }
  }

  // ---------------------------------------------------------------- the search

  /** Everything newly considered is covered, and so are its sources, unless the answer is already the worst. */
  ghost predicate Explored(flow: FlowGraph, news: set<Value>, pending: set<Value>, n: Nullness) {
    n == SOMETIMES_NULL ||
    forall w :: w in news ==>
      && w in flow && n.Covers(flow[w].Contribution())
      && forall k :: 0 <= k < |flow[w].Sources()| ==> flow[w].Sources()[k] in pending
  }

  /** Both flags of an answer are owed to something that is reachable. */
  ghost predicate Witnessed(flow: FlowGraph, v: Value, n: Nullness) {
    && (n.null_ ==> exists u :: Reaches(flow, v, u) && flow[u].Contribution().null_)
    && (n.nonNull ==> exists u :: Reaches(flow, v, u) && flow[u].Contribution().nonNull)
  }

  lemma WitnessedThrough(flow: FlowGraph, v: Value, a: Value, n: Nullness)
    requires v in flow && a in flow[v].Sources() && Witnessed(flow, a, n)
    ensures Witnessed(flow, v, n)
  {
    if n.null_ {
      var u :| Reaches(flow, a, u) && flow[u].Contribution().null_;
      ReachesThrough(flow, v, a, u);
    }
    if n.nonNull {
      var u :| Reaches(flow, a, u) && flow[u].Contribution().nonNull;
      ReachesThrough(flow, v, a, u);
    }
  }

  lemma WitnessedSelf(flow: FlowGraph, v: Value)
    requires v in flow
    ensures Witnessed(flow, v, flow[v].Contribution())
  {
    ReachesSelf(flow, v);
  }

  /** Looks at the sources of `v` that nobody is considering yet, and stops early at the worst answer. */
  method VisitSources(flow: FlowGraph, v: Value, start: Nullness, pending: set<Value>)
    returns (n: Nullness, pendingOut: set<Value>)
    requires Closed(flow) && v in flow && Witnessed(flow, v, start)
    ensures n.Covers(start) && pending <= pendingOut && Witnessed(flow, v, n)
    ensures Explored(flow, pendingOut - pending, pendingOut, n)
    ensures n != SOMETIMES_NULL ==>
              forall k :: 0 <= k < |flow[v].Sources()| ==> flow[v].Sources()[k] in pendingOut
    decreases flow.Keys - pending, 0
  {
    n, pendingOut := start, pending;
    var sources := flow[v].Sources();
    var i := 0;
    while i < |sources|
      invariant i <= |sources| && n.Covers(start) && pending <= pendingOut && Witnessed(flow, v, n)
      invariant Explored(flow, pendingOut - pending, pendingOut, n)
      invariant forall k :: 0 <= k < i ==> sources[k] in pendingOut
    {
      if sources[i] !in pendingOut {
        var m, grown, nonNull := GetAllocNullabilityImpl(flow, sources[i], pendingOut + {sources[i]});
        WitnessedThrough(flow, v, sources[i], m);
        ExploredMore(flow, pending, pendingOut, sources[i], grown, n, m);
        n, pendingOut := n.Or(m), grown;
      }
      if n == SOMETIMES_NULL {
        return;
      }
      i := i + 1;
    }
  }

  lemma ExploredMore(flow: FlowGraph, before: set<Value>, mid: set<Value>, a: Value, after: set<Value>, n: Nullness,
                     m: Nullness)
    requires before <= mid && mid + {a} <= after
    requires Explored(flow, mid - before, mid, n) && Explored(flow, {a} + (after - (mid + {a})), after, m)
    ensures Explored(flow, after - before, after, n.Or(m))
  {
    var k := n.Or(m);
    if k != SOMETIMES_NULL {
      assert n != SOMETIMES_NULL && m != SOMETIMES_NULL;
      forall w | w in after - before
        ensures w in flow && k.Covers(flow[w].Contribution())
        ensures forall i :: 0 <= i < |flow[w].Sources()| ==> flow[w].Sources()[i] in after
      {
        if w in mid {
          assert w in mid - before;
        } else {
          assert w in {a} + (after - (mid + {a}));
        }
      }
    }
  }

  /** The nullness of `v`, given the values that are already being considered further up, and the memref that it
      holds if it is never null. */
  method GetAllocNullabilityImpl(flow: FlowGraph, v: Value, pending: set<Value>)
    returns (n: Nullness, pendingOut: set<Value>, nonNullValue: Option<Value>)
    requires Closed(flow) && v in flow
    ensures pending <= pendingOut && Witnessed(flow, v, n)
    ensures Explored(flow, {v} + (pendingOut - pending), pendingOut, n)
    ensures forall m: Value :: nonNullValue == Some(m) <==> n == NEVER_NULL && flow[v].Names(m)
    decreases flow.Keys - pending, 1
  {
    WitnessedSelf(flow, v);
    nonNullValue := None;
    match flow[v] {
      case FromOwn(memref) => return NEVER_NULL, pending, Some(memref);
      case FromNull => return ALWAYS_NULL, pending, None;
      case FromRetain(allocs) => n, pendingOut := VisitSources(flow, v, ALWAYS_NULL, pending);
      case Flow(predecessors, vals, number) =>
        n, pendingOut := VisitSources(flow, v, UNDEFINED, pending);
        if n == NEVER_NULL {
          nonNullValue := GetOwnedValue(vals, number);
        }
      case Unknown => return SOMETIMES_NULL, pending, None;
    }
  }

  /** Each flag is set if and only if a definition that sets it flows into `v`. */
  ghost predicate IsNullness(flow: FlowGraph, v: Value, n: Nullness)
    requires Closed(flow) && v in flow
  {
    && (n.null_ <==> exists u :: Reaches(flow, v, u) && flow[u].Contribution().null_)
    && (n.nonNull <==> exists u :: Reaches(flow, v, u) && flow[u].Contribution().nonNull)
  }

  /** From nothing pending, the answer is exactly what the reachable definitions contribute. */
  method GetAllocNullability(flow: FlowGraph, v: Value) returns (n: Nullness, nonNullValue: Option<Value>)
    requires Closed(flow) && v in flow
    ensures IsNullness(flow, v, n)
    ensures forall m: Value :: nonNullValue == Some(m) <==> n == NEVER_NULL && flow[v].Names(m)
  {
    var pending;
    n, pending, nonNullValue := GetAllocNullabilityImpl(flow, v, {});
    ReachableCovered(flow, v, pending, n);
  }

  lemma ReachableCovered(flow: FlowGraph, v: Value, pending: set<Value>, n: Nullness)
    requires Closed(flow) && v in flow && Explored(flow, {v} + (pending - {}), pending, n)
    ensures forall u :: Reaches(flow, v, u) ==> n.Covers(flow[u].Contribution())
  {
    forall u | Reaches(flow, v, u)
      ensures n.Covers(flow[u].Contribution())
    {
      var p :| IsFlowPath(flow, p) && p[0] == v && p[|p| - 1] == u;
      if n != SOMETIMES_NULL {
        ReachStaysInside(flow, {v} + pending, p);
        assert u in {v} + (pending - {});
      }
    }
  }

  method AllocIsNull(flow: FlowGraph, v: Value) returns (isNull: bool)
    requires Closed(flow) && v in flow
    ensures isNull <==> IsNullness(flow, v, ALWAYS_NULL)
  {
    var n, nonNull := GetAllocNullability(flow, v);
    isNull := n == ALWAYS_NULL;
  }

  // ---------------------------------------------------------------- all runs

  /** The values defined so far, and whether each is null. */
  type Values = map<Value, bool>

  /** One value gets a new content, as its definition allows; values in loops are defined again and again. */
  ghost predicate Step(flow: FlowGraph, s: Values, t: Values) {
    exists v, isNull :: v in flow && t == s[v := isNull] && MayBecome(flow, s, v, isNull)
  }

  ghost predicate MayBecome(flow: FlowGraph, s: Values, v: Value, isNull: bool)
    requires v in flow
  {
    match flow[v]
    case FromOwn(_) => !isNull
    case FromNull => isNull
    case FromRetain(allocs) => isNull || exists k :: 0 <= k < |allocs| && allocs[k] in s && s[allocs[k]] == isNull
    case Flow(preds, _, _) => exists k :: 0 <= k < |preds| && preds[k] in s && s[preds[k]] == isNull
    case Unknown => true
  }

  ghost predicate IsRun(flow: FlowGraph, run: seq<Values>) {
    && run != [] && run[0] == map[]
    && forall i :: 0 <= i < |run| - 1 ==> Step(flow, run[i], run[i + 1])
  }

  /** Every value reachable from `v` is as the answer says. */
  ghost predicate AsPredicted(flow: FlowGraph, v: Value, n: Nullness, s: Values) {
    forall u :: Reaches(flow, v, u) && u in s ==> if s[u] then n.null_ else n.nonNull
  }

  lemma StepAsPredicted(flow: FlowGraph, v: Value, n: Nullness, s: Values, t: Values)
    requires Closed(flow) && v in flow && Step(flow, s, t) && AsPredicted(flow, v, n, s)
    requires forall u :: Reaches(flow, v, u) ==> n.Covers(flow[u].Contribution())
    ensures AsPredicted(flow, v, n, t)
  {
    var w, isNull :| w in flow && t == s[w := isNull] && MayBecome(flow, s, w, isNull);
    if Reaches(flow, v, w) {
      forall k | 0 <= k < |flow[w].Sources()|
        ensures Reaches(flow, v, flow[w].Sources()[k])
      {
        ReachesFurther(flow, v, w, flow[w].Sources()[k]);
      }
      assert n.Covers(flow[w].Contribution());
    }
  }

  lemma ReachesFurther(flow: FlowGraph, v: Value, w: Value, a: Value)
    requires Reaches(flow, v, w) && w in flow && a in flow[w].Sources() && a in flow
    ensures Reaches(flow, v, a)
  {
    var p :| IsFlowPath(flow, p) && p[0] == v && p[|p| - 1] == w;
    assert IsFlowPath(flow, p + [a]);
  }

  /** In every state of every run: an always-null value is null, a never-null value is not. */
  lemma {:induction false} NullnessSound(flow: FlowGraph, v: Value, n: Nullness, run: seq<Values>)
    requires Closed(flow) && v in flow && IsRun(flow, run) && IsNullness(flow, v, n)
    ensures AsPredicted(flow, v, n, run[|run| - 1])
    ensures v in run[|run| - 1] ==>
              && (n == ALWAYS_NULL ==> run[|run| - 1][v]) && (n == NEVER_NULL ==> !run[|run| - 1][v])
              && n != UNDEFINED
    decreases |run|
  {
    ReachesSelf(flow, v);
    if |run| > 1 {
      var init := run[..|run| - 1];
      NullnessSound(flow, v, n, init);
      assert Step(flow, run[|run| - 2], run[|run| - 2 + 1]);
      StepAsPredicted(flow, v, n, init[|init| - 1], run[|run| - 1]);
    }
  }

  /** A run in which the content that the last definition of a path contributes arrives at its first value. */
  lemma {:induction false} ContentArrives(flow: FlowGraph, p: seq<Value>, isNull: bool) returns (run: seq<Values>)
    requires IsFlowPath(flow, p)
    requires var n := flow[p[|p| - 1]].Contribution(); if isNull then n.null_ else n.nonNull
    ensures IsRun(flow, run) && p[0] in run[|run| - 1] && run[|run| - 1][p[0]] == isNull
    decreases |p|
  {
    var before: seq<Values>;
    if |p| == 1 {
      before := [map[]];
    } else {
      assert p[1] in flow[p[0]].Sources();
      before := ContentArrives(flow, p[1..], isNull);
    }
    var s := before[|before| - 1];
    assert MayBecome(flow, s, p[0], isNull);
    run := OneMoreStep(flow, before, s[p[0] := isNull]);
  }

  lemma OneMoreStep(flow: FlowGraph, before: seq<Values>, t: Values) returns (run: seq<Values>)
    requires IsRun(flow, before) && Step(flow, before[|before| - 1], t)
    ensures IsRun(flow, run) && run[|run| - 1] == t
  {
    run := before + [t];
    forall i | 0 <= i < |run| - 1
      ensures Step(flow, run[i], run[i + 1])
    {
      if i < |before| - 1 {
        assert Step(flow, before[i], before[i + 1]);
      }
    }
  }

  ghost predicate CanBe(flow: FlowGraph, v: Value, isNull: bool) {
    exists run :: IsRun(flow, run) && v in run[|run| - 1] && run[|run| - 1][v] == isNull
  }

  /** A flag is set if and only if some run makes the value null, or not null. */
  lemma NullnessExactly(flow: FlowGraph, v: Value, n: Nullness)
    requires Closed(flow) && v in flow && IsNullness(flow, v, n)
    ensures n.null_ <==> CanBe(flow, v, true)
    ensures n.nonNull <==> CanBe(flow, v, false)
  {
    if n.null_ {
      NullnessAttained(flow, v, n, true);
    }
    if n.nonNull {
      NullnessAttained(flow, v, n, false);
    }
    forall run | IsRun(flow, run) && v in run[|run| - 1]
      ensures if run[|run| - 1][v] then n.null_ else n.nonNull
    {
      NullnessSound(flow, v, n, run);
      ReachesSelf(flow, v);
    }
  }

  lemma NullnessAttained(flow: FlowGraph, v: Value, n: Nullness, isNull: bool)
    requires Closed(flow) && v in flow && IsNullness(flow, v, n) && if isNull then n.null_ else n.nonNull
    ensures CanBe(flow, v, isNull)
  {
    var u :| Reaches(flow, v, u) && if isNull then flow[u].Contribution().null_ else flow[u].Contribution().nonNull;
    var p :| IsFlowPath(flow, p) && p[0] == v && p[|p| - 1] == u;
    var run := ContentArrives(flow, p, isNull);
  }

  // ---------------------------------------------------------------- the rewrites

  /** A retain of null allocs returns nulls and frees nothing. */
  lemma RetainOfNulls(s: State, indicators: seq<Value>, retained: seq<Value>, allocs: seq<Value>)
    requires s.ok && |indicators| == |retained|
    requires forall k :: 0 <= k < |retained| ==> retained[k] in s.env
    requires forall k :: 0 <= k < |allocs| ==> allocs[k] in s.own && s.own[allocs[k]] == None
    ensures RunRetain(s, indicators, retained, allocs) == HoldNulls(s, indicators)
  {
    var buffers, held := BuffersOf(s.env, retained), AllocsOf(s.own, allocs);
    assert Unretained(buffers, held) == {};
    assert s.(live := s.live - {}, ok := s.ok && {} <= s.live) == s;
    HoldAllNulls(s, indicators, buffers, held);
  }

  function HoldNulls(s: State, indicators: seq<Value>): State {
    if indicators == [] then s
    else HoldNulls(s, indicators[..|indicators| - 1]).Hold(indicators[|indicators| - 1], None)
  }

  lemma {:induction false} HoldAllNulls(s: State, vs: seq<Value>, buffers: seq<nat>, held: seq<Option<nat>>)
    requires |vs| <= |buffers| && forall k :: 0 <= k < |held| ==> held[k] == None
    ensures HoldAll(s, vs, buffers, held) == HoldNulls(s, vs)
    decreases |vs|
  {
    if vs != [] {
      HoldAllNulls(s, vs[..|vs| - 1], buffers, held);
    }
  }

  /** A retain of one non-null alloc is a plain free of the memref that the alloc's indicator is paired with. */
  lemma RetainOfNonNull(s: State, vals: seq<Item>, n: nat, m: Value)
    requires n < |vals| && vals[n].kind.Indicator? && Paired(vals, s) && Owns(vals, n, m)
    requires s.ok && vals[n].value in s.own && s.own[vals[n].value].Some? && s.own[vals[n].value].value in s.live
    ensures RunRetain(s, [], [], [vals[n].value]) == s.Free(m)
  {
    assert PairedAt(vals, n, s);
    RetainOne(s, vals[n].value);
  }

  /** What becomes of a retain: nothing new, nulls for its results, or a deallocation of a memref. */
  datatype Simplified = Unchanged | Nulls | Dealloc(memref: Value)

  /** The rewrite of one retain. */
  method SimplifyRetain(flow: FlowGraph, retained: seq<Value>, allocs: seq<Value>) returns (outcome: Simplified)
    requires Closed(flow) && forall k :: 0 <= k < |allocs| ==> allocs[k] in flow
    ensures outcome == Nulls <==> forall k :: 0 <= k < |allocs| ==> IsNullness(flow, allocs[k], ALWAYS_NULL)
    ensures forall m: Value :: outcome == Dealloc(m) <==>
              && retained == [] && |allocs| == 1 && IsNullness(flow, allocs[0], NEVER_NULL)
              && flow[allocs[0]].Names(m)
  {
    var allNull := true;
    for i := 0 to |allocs|
      invariant allNull <==> forall k :: 0 <= k < i ==> IsNullness(flow, allocs[k], ALWAYS_NULL)
    {
      var isNull := AllocIsNull(flow, allocs[i]);
      allNull := allNull && isNull;
    }
    if allNull {
      return Nulls;
    }
    if retained == [] && |allocs| == 1 {
      var n, nonNullValue := GetAllocNullability(flow, allocs[0]);
      if n == NEVER_NULL && nonNullValue.Some? {
        return Dealloc(nonNullValue.value);
      }
    }
    return Unchanged;
  }

  /** A state that agrees with the flow: always-null indicators are null, never-null ones are not, and a non-null
      one holds the live buffer of the memref it is paired with. */
  ghost predicate Agrees(flow: FlowGraph, s: State)
    requires Closed(flow)
  {
    forall v :: v in flow && v in s.own ==>
      && (IsNullness(flow, v, ALWAYS_NULL) ==> s.own[v] == None)
      && (IsNullness(flow, v, NEVER_NULL) ==> s.own[v].Some? && s.own[v].value in s.live)
      && forall m :: s.own[v].Some? && flow[v].Names(m) ==> m in s.env && s.own[v] == Some(s.env[m])
  }

  /** In a state that agrees with the flow the rewritten retain does what the retain does. */
  lemma SimplifiedRetainSame(flow: FlowGraph, s: State, indicators: seq<Value>, retained: seq<Value>,
                             allocs: seq<Value>, outcome: Simplified)
    requires Closed(flow) && Agrees(flow, s) && s.ok && |indicators| == |retained|
    requires forall k :: 0 <= k < |retained| ==> retained[k] in s.env
    requires forall k :: 0 <= k < |allocs| ==> allocs[k] in flow && allocs[k] in s.own
    requires outcome == Nulls ==> forall k :: 0 <= k < |allocs| ==> IsNullness(flow, allocs[k], ALWAYS_NULL)
    requires forall m: Value :: outcome == Dealloc(m) ==>
               && retained == [] && |allocs| == 1 && IsNullness(flow, allocs[0], NEVER_NULL)
               && flow[allocs[0]].Names(m)
    ensures
      match outcome
      case Unchanged => true
      case Nulls => RunRetain(s, indicators, retained, allocs) == HoldNulls(s, indicators)
      case Dealloc(m) => RunRetain(s, indicators, retained, allocs) == s.Free(m)
  {
    match outcome {
      case Unchanged =>
      case Nulls => RetainOfNulls(s, indicators, retained, allocs);
      case Dealloc(m) =>
        RetainOne(s, allocs[0]);
        assert allocs == [allocs[0]] && indicators == [] && retained == [];
    }
  }
}

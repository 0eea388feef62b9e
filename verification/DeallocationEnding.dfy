/** The end of a block: every class of yielded memrefs takes over the owned buffers it needs. */
module DeallocationEnding {
  import opened BufferProgram
  import opened Deallocation
  import opened DeallocationTracking
  import opened Options
  import opened Sequences
  import opened ValueClasses

  // ---------------------------------------------------------------- retain

  /** A retain hands out a held buffer once if a retained memref has it, and lists it as unretained otherwise. */
  lemma RetainOnce(buffers: seq<nat>, allocs: seq<Option<nat>>, b: nat)
    requires Some(b) in allocs
    ensures b in Unretained(buffers, allocs) <==> b !in buffers
    ensures b in buffers ==> exists k :: 0 <= k < |buffers| && HandsOutAt(buffers, allocs, b, k)
  {
    assert b in Unretained(buffers, allocs) <==> b !in buffers by {
      assert forall a :: a in allocs && a.Some? && a.value == b ==> a == Some(b);
    }
    if b in buffers {
      var k := FirstAt(buffers, b);
      assert HandsOutAt(buffers, allocs, b, k);
    }
  }

  /** Retained memref `k`, and no other, returns buffer `b`. */
  ghost predicate HandsOutAt(buffers: seq<nat>, allocs: seq<Option<nat>>, b: nat, k: nat)
    requires k < |buffers|
  {
    forall j :: 0 <= j < |buffers| ==> (Retained(buffers, allocs, j) == Some(b) <==> j == k)
  }

  function FirstAt(buffers: seq<nat>, b: nat): (k: nat)
    requires b in buffers
    ensures k < |buffers| && buffers[k] == b && b !in buffers[..k]
  {
    if buffers[0] == b then 0
    else
      var k := FirstAt(buffers[1..], b);
      assert buffers[..k + 1] == [buffers[0]] + buffers[1..][..k];
      k + 1
  }

  lemma {:induction false} HoldAllMeaning(s: State, first: Value, n: nat, buffers: seq<nat>, allocs: seq<Option<nat>>)
    requires n <= |buffers| && s.ok && forall v :: v in s.own ==> v < first
    ensures
      var t := HoldAll(s, Fresh(first, n), buffers, allocs);
      && t == s.(own := t.own)
      && (forall v :: v in t.own <==> v in s.own || first <= v < first + n)
      && (forall v :: v in s.own ==> t.own[v] == s.own[v])
      && (forall k :: 0 <= k < n ==> t.own[first + k] == Retained(buffers, allocs, k))
    decreases n
  {
    if n > 0 {
      HoldAllMeaning(s, first, n - 1, buffers, allocs);
      assert Fresh(first, n)[..n - 1] == Fresh(first, n - 1);
    }
  }

  // ---------------------------------------------------------------- groups

  lemma {:induction false} GroupDistinct(c: Classes, vs: seq<Value>, leader: Value)
    requires Distinct(vs)
    ensures Distinct(GroupOf(c, vs, leader))
    decreases |vs|
  {
    if vs != [] {
      GroupDistinct(c, vs[..|vs| - 1], leader);
      assert vs[|vs| - 1] !in vs[..|vs| - 1];
    }
  }

  lemma {:induction false} LeadersLead(c: Classes, vs: seq<Value>)
    ensures forall l :: l in Leaders(c, vs) ==> exists v :: v in vs && Leader(c, v) == l
    decreases |vs|
  {
    if vs != [] {
      LeadersLead(c, vs[..|vs| - 1]);
      assert vs[|vs| - 1] in vs;
    }
  }

  lemma {:induction false} LeadersDistinct(c: Classes, vs: seq<Value>)
    ensures Distinct(Leaders(c, vs))
    decreases |vs|
  {
    if vs != [] {
      LeadersDistinct(c, vs[..|vs| - 1]);
    }
  }

  /** No earlier place has the same value. */
  predicate FirstPlace(vs: seq<Value>, i: nat)
    requires i < |vs|
  {
    forall j :: 0 <= j < i ==> vs[j] != vs[i]
  }

  predicate LastPlace(vs: seq<Value>, i: nat)
    requires i < |vs|
  {
    forall j :: i < j < |vs| ==> vs[j] != vs[i]
  }

  /** The first place of a value gets the group's result for its last occurrence. */
  lemma {:induction false} PlacedAt(acquired: seq<Value>, yielded: seq<Value>, group: seq<Value>, first: Value,
                                    i: nat, k: nat)
    requires |acquired| == |yielded| && forall v :: v in group ==> v in yielded
    requires i < |yielded| && k < |group| && yielded[i] == group[k] && FirstPlace(yielded, i) && LastPlace(group, k)
    ensures PlaceResults(acquired, yielded, group, first)[i] == first + k
    decreases |group|
  {
    var init, last := group[..|group| - 1], group[|group| - 1];
    if k < |init| {
      assert group[|group| - 1] != group[k];
      PlacedAt(acquired, yielded, init, first, i, k);
    } else {
      assert IndexOf(yielded, last) == i;
    }
  }

  lemma {:induction false} PlacedElsewhere(acquired: seq<Value>, yielded: seq<Value>, group: seq<Value>, first: Value,
                                           i: nat)
    requires |acquired| == |yielded| && i < |yielded| && (yielded[i] !in group || !FirstPlace(yielded, i))
    requires forall v :: v in group ==> v in yielded
    ensures PlaceResults(acquired, yielded, group, first)[i] == acquired[i]
    decreases |group|
  {
    if group != [] {
      var init, last := group[..|group| - 1], group[|group| - 1];
      PlacedElsewhere(acquired, yielded, init, first, i);
      assert IndexOf(yielded, last) != i;
    }
  }

  lemma {:induction false} LastOccurrence(vs: seq<Value>, v: Value) returns (k: nat)
    requires v in vs
    ensures k < |vs| && vs[k] == v && LastPlace(vs, k)
    decreases |vs|
  {
    if vs[|vs| - 1] == v {
      k := |vs| - 1;
    } else {
      k := LastOccurrence(vs[..|vs| - 1], v);
    }
  }

  // ---------------------------------------------------------------- where a group stands among the yielded

  /** The places of a group: in order, and all places whose value has the leader. */
  ghost predicate PlacesOf(c: Classes, vs: seq<Value>, leader: Value, places: seq<nat>) {
    && |places| == |GroupOf(c, vs, leader)|
    && (forall k :: 0 <= k < |places| ==> places[k] < |vs| && vs[places[k]] == GroupOf(c, vs, leader)[k])
    && (forall k, m :: 0 <= k < m < |places| ==> places[k] < places[m])
    && forall i :: 0 <= i < |vs| && Leader(c, vs[i]) == leader ==> i in places
  }

  lemma {:induction false} GroupPlaces(c: Classes, vs: seq<Value>, leader: Value) returns (places: seq<nat>)
    ensures PlacesOf(c, vs, leader, places)
    decreases |vs|
  {
    if vs == [] {
      places := [];
    } else {
      var init := vs[..|vs| - 1];
      places := GroupPlaces(c, init, leader);
      if Leader(c, vs[|vs| - 1]) == leader {
        places := places + [|vs| - 1];
      }
    }
  }

  /** The first yielded memref with buffer `b` is yielded again. */
  ghost predicate Lost(env: map<Value, nat>, yielded: seq<Value>, b: nat) {
    exists i, j :: 0 <= i < j < |yielded| && yielded[j] == yielded[i] && FirstWith(env, yielded, i, b)
  }

  ghost predicate FirstWith(env: map<Value, nat>, vs: seq<Value>, i: nat, b: nat) {
    && i < |vs| && vs[i] in env && env[vs[i]] == b
    && forall k :: 0 <= k < i ==> !(vs[k] in env && env[vs[k]] == b)
  }

  // ---------------------------------------------------------------- one class

  /** What the ending starts from: classes, yielded memrefs, owned indicators, the state, a reserved value. */
  datatype Exit = Exit(c: Classes, yielded: seq<Value>, owned: seq<Value>, s: State, reserved: Value)

  /** The owned buffers are distinct, those of escaping indicators are live, and yielded memrefs are defined. */
  ghost predicate Prepared(x: Exit) {
    && x.s.ok && HeldApart(x.owned, x.s.own)
    && (forall i :: 0 <= i < |x.yielded| ==> x.yielded[i] in x.s.env)
    && forall v :: v in x.owned && x.s.own[v].Some? && Escapes(x.c, x.yielded, v) ==> x.s.own[v].value in x.s.live
  }

  predicate InClass(x: Exit, i: nat, leader: Value)
    requires i < |x.yielded|
  {
    Leader(x.c, x.yielded[i]) == leader
  }

  ghost predicate Gives(x: Exit, e: Ending, t: State, i: nat, b: nat)
    requires i < |x.yielded| == |e.acquired|
  {
    e.acquired[i] in t.own && t.own[e.acquired[i]] == Some(b)
  }

  /** In the class of `v`, place `i` and no other hands out buffer `b`. */
  ghost predicate OnlyGives(x: Exit, e: Ending, t: State, leader: Value, i: nat, b: nat)
    requires |x.yielded| == |e.acquired|
  {
    && i < |x.yielded| && InClass(x, i, leader)
    && forall j :: 0 <= j < |x.yielded| && InClass(x, j, leader) ==> (Gives(x, e, t, j, b) <==> j == i)
  }

  ghost predicate NoneGives(x: Exit, e: Ending, t: State, leader: Value, b: nat)
    requires |x.yielded| == |e.acquired|
  {
    forall j :: 0 <= j < |x.yielded| && InClass(x, j, leader) ==> !Gives(x, e, t, j, b)
  }

  ghost predicate NoneYields(x: Exit, leader: Value, b: nat) {
    forall j :: 0 <= j < |x.yielded| && InClass(x, j, leader) ==>
      !(x.yielded[j] in x.s.env && x.s.env[x.yielded[j]] == b)
  }

  /** The first memref with buffer `b` that the class yields is yielded again. */
  ghost predicate LostIn(x: Exit, leader: Value, b: nat) {
    Lost(x.s.env, GroupOf(x.c, x.yielded, leader), b)
  }

  /** A held buffer is handed out at one place of its class; or lost there; or dead and not yielded by the class. */
  ghost predicate Settled(x: Exit, e: Ending, t: State, v: Value)
    requires |x.yielded| == |e.acquired| && v in x.s.own
  {
    match x.s.own[v]
    case None => true
    case Some(b) =>
      if b !in t.live then NoneGives(x, e, t, Leader(x.c, v), b) && NoneYields(x, Leader(x.c, v), b)
      else if LostIn(x, Leader(x.c, v), b) then NoneGives(x, e, t, Leader(x.c, v), b)
      else exists i :: OnlyGives(x, e, t, Leader(x.c, v), i, b)
  }

  /** Whatever place `i` hands out is held by an owned indicator of its class. */
  ghost predicate GivesOwned(x: Exit, e: Ending, t: State, i: nat)
    requires i < |x.yielded| == |e.acquired|
  {
    && (e.acquired[i] == x.reserved || e.acquired[i] in t.own)
    && forall b: nat :: Gives(x, e, t, i, b) ==>
         exists v :: v in x.owned && v in x.s.own && x.s.own[v] == Some(b)
                     && Leader(x.c, v) == Leader(x.c, x.yielded[i])
  }

  ghost predicate HeldIn(x: Exit, leader: Value, b: nat) {
    exists v :: v in x.owned && v in x.s.own && x.s.own[v] == Some(b) && Leader(x.c, v) == leader
  }

  ghost predicate Names(env: map<Value, nat>, ms: seq<Value>, b: nat) {
    exists m :: m in ms && m in env && env[m] == b
  }

  /** The class hands its only indicator to its only yielded memref, without a retain. */
  predicate HandsOver(c: Classes, yielded: seq<Value>, owned: seq<Value>, leader: Value) {
    |GroupOf(c, owned, leader)| == 1 && |GroupOf(c, yielded, leader)| == 1
  }

  /** Ending the class frees buffer `b`: the class holds it, and none of the memrefs it yields names it. */
  ghost predicate ClassFrees(x: Exit, leader: Value, b: nat) {
    && !HandsOver(x.c, x.yielded, x.owned, leader) && HeldIn(x, leader, b)
    && !Names(x.s.env, GroupOf(x.c, x.yielded, leader), b)
  }

  /** What ending the class of one leader does. */
  ghost predicate GroupEnded(x: Exit, leader: Value, e: Ending, t: State, e': Ending, t': State)
    requires |x.yielded| == |e.acquired| == |e'.acquired|
  {
    && t'.ok && t' == t.(own := t'.own, live := t'.live) && e.next <= e'.next
    && (forall v :: v in t.own ==> v in t'.own && t'.own[v] == t.own[v])
    && (forall v :: v in t'.own ==> v < e'.next && (v in t.own || e.next <= v))
    && (forall b :: b in t'.live <==> b in t.live && !ClassFrees(x, leader, b))
    && (forall i :: 0 <= i < |x.yielded| && !InClass(x, i, leader) ==> e'.acquired[i] == e.acquired[i])
    && (forall i :: 0 <= i < |x.yielded| && InClass(x, i, leader) ==> GivesOwned(x, e', t', i))
    && forall v :: v in x.owned && Leader(x.c, v) == leader ==> v in x.s.own && Settled(x, e', t', v)
  }

  /** Places whose value has been yielded before keep the reserved indicator. */
  ghost predicate RepeatsReserved(x: Exit, e: Ending)
    requires |x.yielded| == |e.acquired|
  {
    forall i :: 0 <= i < |x.yielded| && !FirstPlace(x.yielded, i) ==> e.acquired[i] == x.reserved
  }

  /** Nothing but indicators and freed buffers has changed since the exit. */
  ghost predicate Continues(x: Exit, e: Ending, t: State) {
    && t.ok && t == x.s.(own := t.own, live := t.live)
    && (forall v :: v in x.s.own ==> v in t.own && t.own[v] == x.s.own[v])
    && (forall v :: v in t.own ==> v < e.next)
  }

  /** The state between two classes. */
  ghost predicate Between(x: Exit, e: Ending, t: State) {
    && |x.yielded| == |e.acquired| && Continues(x, e, t) && x.reserved < e.next
    && (x.reserved in t.own ==> t.own[x.reserved] == None) && RepeatsReserved(x, e)
  }

  /** Two places of a class make its group at least as long. */
  lemma {:induction false} TwoInGroup(c: Classes, vs: seq<Value>, i: nat, j: nat)
    requires i < j < |vs| && Leader(c, vs[i]) == Leader(c, vs[j])
    ensures |GroupOf(c, vs, Leader(c, vs[i]))| >= 2
    decreases |vs|
  {
    if j < |vs| - 1 {
      TwoInGroup(c, vs[..|vs| - 1], i, j);
    } else {
      assert vs[..|vs| - 1][i] in GroupOf(c, vs[..|vs| - 1], Leader(c, vs[i]));
    }
  }

  lemma OnlyOneInGroup(x: Exit, leader: Value, y: Value)
    requires GroupOf(x.c, x.yielded, leader) == [y]
    ensures y in x.yielded && InClass(x, IndexOf(x.yielded, y), leader)
    ensures forall j :: 0 <= j < |x.yielded| && InClass(x, j, leader) ==> j == IndexOf(x.yielded, y)
  {
    assert y in GroupOf(x.c, x.yielded, leader);
    var i := IndexOf(x.yielded, y);
    forall j | 0 <= j < |x.yielded| && InClass(x, j, leader)
      ensures j == i
    {
      assert x.yielded[j] in GroupOf(x.c, x.yielded, leader);
      if i < j {
        TwoInGroup(x.c, x.yielded, i, j);
      }
    }
  }

  lemma EndDirectly(x: Exit, leader: Value, e: Ending, t: State, y: Value, v: Value)
    requires Prepared(x) && Between(x, e, t)
    requires GroupOf(x.c, x.yielded, leader) == [y] && GroupOf(x.c, x.owned, leader) == [v]
    requires forall b :: HeldIn(x, leader, b) ==> b in t.live
    ensures y in x.yielded
    ensures
      var e' := e.(acquired := e.acquired[IndexOf(x.yielded, y) := v]);
      GroupEnded(x, leader, e, t, e', t) && RepeatsReserved(x, e')
  {
    OnlyOneInGroup(x, leader, y);
    assert v in GroupOf(x.c, x.owned, leader);
    var i := IndexOf(x.yielded, y);
    var e' := e.(acquired := e.acquired[i := v]);
    forall w | w in x.owned && Leader(x.c, w) == leader
      ensures w == v
    {
      assert w in GroupOf(x.c, x.owned, leader);
    }
    assert InClass(x, i, leader) && e'.acquired[i] == v;
    if x.s.own[v].Some? {
      var b := x.s.own[v].value;
      assert HeldIn(x, leader, b);
      assert !LostIn(x, leader, b);
      assert OnlyGives(x, e', t, leader, i, b);
    }
    assert GivesOwned(x, e', t, i) && Settled(x, e', t, v);
  }

  // ---------------------------------------------------------------- a retain for one class

  /** The state after the retain of one class. */
  lemma GroupRetainRuns(x: Exit, e: Ending, t: State, group: seq<Value>, ownedGroup: seq<Value>)
    requires Prepared(x) && Continues(x, e, t) && Distinct(ownedGroup)
    requires forall y :: y in group ==> y in x.yielded
    requires forall v :: v in ownedGroup ==> v in x.owned
    requires forall v :: v in ownedGroup && x.s.own[v].Some? ==> x.s.own[v].value in t.live
    ensures forall k :: 0 <= k < |group| ==> group[k] in x.s.env
    ensures forall k :: 0 <= k < |ownedGroup| ==> ownedGroup[k] in x.s.own
    ensures
      var u := RunRetain(t, Fresh(e.next, |group|), group, ownedGroup);
      var buffers, held := BuffersOf(x.s.env, group), AllocsOf(x.s.own, ownedGroup);
      && u.ok && u == t.(own := u.own, live := t.live - Unretained(buffers, held))
      && (forall v :: v in u.own <==> v in t.own || e.next <= v < e.next + |group|)
      && (forall v :: v in t.own ==> u.own[v] == t.own[v])
      && (forall k :: 0 <= k < |group| ==> u.own[e.next + k] == Retained(buffers, held, k))
  {
    forall k | 0 <= k < |group|
      ensures group[k] in x.s.env
    {
      assert group[k] in x.yielded;
    }
    forall k | 0 <= k < |ownedGroup|
      ensures ownedGroup[k] in x.s.own && ownedGroup[k] in x.owned
    {
      assert ownedGroup[k] in ownedGroup;
    }
    var buffers, held := BuffersOf(x.s.env, group), AllocsOf(x.s.own, ownedGroup);
    assert BuffersOf(t.env, group) == buffers && AllocsOf(t.own, ownedGroup) == held;
    assert DistinctAllocs(held) by {
      forall i, j | 0 <= i < j < |held| && held[i].Some?
        ensures held[i] != held[j]
      {
        assert ownedGroup[i] != ownedGroup[j];
      }
    }
    var dead := Unretained(buffers, held);
    assert dead <= t.live by {
      forall b | b in dead
        ensures b in t.live
      {
        var k :| 0 <= k < |held| && held[k] == Some(b);
        assert ownedGroup[k] in ownedGroup;
      }
    }
    HoldAllMeaning(t.(live := t.live - dead), e.next, |group|, buffers, held);
  }

  /** The results of a class's retain are in place. */
  ghost predicate RetainPlaced(x: Exit, leader: Value, e: Ending, e': Ending, u: State) {
    && |x.yielded| == |e.acquired| == |e'.acquired| && Prepared(x) && RepeatsReserved(x, e)
    && (x.reserved in u.own ==> u.own[x.reserved] == None)
    && var group, owned := GroupOf(x.c, x.yielded, leader), GroupOf(x.c, x.owned, leader);
    && (forall k :: 0 <= k < |group| ==> group[k] in x.s.env)
    && (forall k :: 0 <= k < |owned| ==> owned[k] in x.s.own)
    && e'.acquired == PlaceResults(e.acquired, x.yielded, group, e.next)
    && forall k :: 0 <= k < |group| ==>
         && e.next + k in u.own
         && u.own[e.next + k] == Retained(BuffersOf(x.s.env, group), AllocsOf(x.s.own, owned), k)
  }

  /** Which result of the retain the first place of a value gets. */
  lemma PlaceInGroup(x: Exit, leader: Value, e: Ending, e': Ending, u: State, i: nat) returns (k: nat)
    requires RetainPlaced(x, leader, e, e', u) && i < |x.yielded| && InClass(x, i, leader)
    requires FirstPlace(x.yielded, i)
    ensures
      var group, owned := GroupOf(x.c, x.yielded, leader), GroupOf(x.c, x.owned, leader);
      && k < |group| && group[k] == x.yielded[i] && LastPlace(group, k) && e'.acquired[i] in u.own
      && u.own[e'.acquired[i]] == Retained(BuffersOf(x.s.env, group), AllocsOf(x.s.own, owned), k)
  {
    var group := GroupOf(x.c, x.yielded, leader);
    assert x.yielded[i] in group;
    k := LastOccurrence(group, x.yielded[i]);
    PlacedAt(e.acquired, x.yielded, group, e.next, i, k);
    var owned := GroupOf(x.c, x.owned, leader);
    var result := Retained(BuffersOf(x.s.env, group), AllocsOf(x.s.own, owned), k);
    assert e.next + k in u.own && u.own[e.next + k] == result;
  }

  /** A later place of a value gets nothing. */
  lemma RepeatGetsNothing(x: Exit, leader: Value, e: Ending, e': Ending, u: State, i: nat)
    requires RetainPlaced(x, leader, e, e', u) && i < |x.yielded| && !FirstPlace(x.yielded, i)
    ensures e'.acquired[i] == x.reserved && forall b: nat :: !Gives(x, e', u, i, b)
  {
    PlacedElsewhere(e.acquired, x.yielded, GroupOf(x.c, x.yielded, leader), e.next, i);
  }

  lemma RetainGivesOwned(x: Exit, leader: Value, e: Ending, e': Ending, u: State, i: nat)
    requires RetainPlaced(x, leader, e, e', u) && i < |x.yielded| && InClass(x, i, leader)
    ensures GivesOwned(x, e', u, i)
  {
    if !FirstPlace(x.yielded, i) {
      RepeatGetsNothing(x, leader, e, e', u, i);
    } else {
      var k := PlaceInGroup(x, leader, e, e', u, i);
      var owned := GroupOf(x.c, x.owned, leader);
      var held := AllocsOf(x.s.own, owned);
      forall b: nat | Gives(x, e', u, i, b)
        ensures exists v :: v in x.owned && v in x.s.own && x.s.own[v] == Some(b)
                            && Leader(x.c, v) == Leader(x.c, x.yielded[i])
      {
        var m :| 0 <= m < |held| && held[m] == Some(b);
        assert owned[m] in owned;
      }
    }
  }

  lemma RetainSettles(x: Exit, leader: Value, e: Ending, e': Ending, u: State, v: Value)
    requires RetainPlaced(x, leader, e, e', u) && v in x.owned && Leader(x.c, v) == leader
    requires
      var group, owned := GroupOf(x.c, x.yielded, leader), GroupOf(x.c, x.owned, leader);
      x.s.own[v].Some? ==>
        (x.s.own[v].value in u.live
         <==> x.s.own[v].value !in Unretained(BuffersOf(x.s.env, group), AllocsOf(x.s.own, owned)))
    ensures Settled(x, e', u, v)
  {
    var group, owned := GroupOf(x.c, x.yielded, leader), GroupOf(x.c, x.owned, leader);
    var buffers, held := BuffersOf(x.s.env, group), AllocsOf(x.s.own, owned);
    if x.s.own[v].Some? {
      var b := x.s.own[v].value;
      assert v in owned;
      var m :| 0 <= m < |owned| && owned[m] == v;
      assert held[m] == Some(b);
      RetainOnce(buffers, held, b);
      if b in buffers {
        var k :| 0 <= k < |buffers| && HandsOutAt(buffers, held, b, k);
        assert Retained(buffers, held, k) == Some(b);
        LostByPlace(x.s.env, group, b, k);
        OnlyPlace(x, leader, e, e', u, b, k);
      } else {
        NoPlace(x, leader, e, e', u, b);
      }
    }
  }

  lemma LostByPlace(env: map<Value, nat>, group: seq<Value>, b: nat, k: nat)
    requires k < |group| && (forall m :: 0 <= m < |group| ==> group[m] in env) && env[group[k]] == b
    requires b !in BuffersOf(env, group)[..k]
    ensures Lost(env, group, b) <==> !LastPlace(group, k)
  {
    forall m | 0 <= m < k
      ensures env[group[m]] != b
    {
      assert BuffersOf(env, group)[..k][m] == env[group[m]];
    }
    assert FirstWith(env, group, k, b) && forall i :: FirstWith(env, group, i, b) ==> i == k;
  }

  /** Which places of the class hand out a buffer whose retain result is number `k`. */
  lemma GivesByResult(x: Exit, leader: Value, e: Ending, e': Ending, u: State, b: nat, k: nat, j: nat)
    requires RetainPlaced(x, leader, e, e', u) && k < |GroupOf(x.c, x.yielded, leader)|
    requires
      var group, owned := GroupOf(x.c, x.yielded, leader), GroupOf(x.c, x.owned, leader);
      HandsOutAt(BuffersOf(x.s.env, group), AllocsOf(x.s.own, owned), b, k)
    requires j < |x.yielded| && InClass(x, j, leader)
    ensures
      var group := GroupOf(x.c, x.yielded, leader);
      Gives(x, e', u, j, b) <==>
      FirstPlace(x.yielded, j) && x.yielded[j] == group[k] && LastPlace(group, k)
  {
    var group := GroupOf(x.c, x.yielded, leader);
    if !FirstPlace(x.yielded, j) {
      RepeatGetsNothing(x, leader, e, e', u, j);
    } else {
      var l := PlaceInGroup(x, leader, e, e', u, j);
      assert Gives(x, e', u, j, b) <==> l == k;
      if x.yielded[j] == group[k] && LastPlace(group, k) {
        assert group[l] == group[k];
      }
    }
  }

  lemma OnlyPlace(x: Exit, leader: Value, e: Ending, e': Ending, u: State, b: nat, k: nat)
    requires RetainPlaced(x, leader, e, e', u) && k < |GroupOf(x.c, x.yielded, leader)|
    requires
      var group, owned := GroupOf(x.c, x.yielded, leader), GroupOf(x.c, x.owned, leader);
      HandsOutAt(BuffersOf(x.s.env, group), AllocsOf(x.s.own, owned), b, k)
    ensures
      if LastPlace(GroupOf(x.c, x.yielded, leader), k) then exists i :: OnlyGives(x, e', u, leader, i, b)
      else NoneGives(x, e', u, leader, b)
  {
    var group := GroupOf(x.c, x.yielded, leader);
    assert group[k] in group;
    var i := IndexOf(x.yielded, group[k]);
    forall j | 0 <= j < |x.yielded| && InClass(x, j, leader)
      ensures Gives(x, e', u, j, b) <==> LastPlace(group, k) && j == i
    {
      GivesByResult(x, leader, e, e', u, b, k, j);
    }
    if LastPlace(group, k) {
      assert OnlyGives(x, e', u, leader, i, b);
    }
  }

  lemma NoPlace(x: Exit, leader: Value, e: Ending, e': Ending, u: State, b: nat)
    requires RetainPlaced(x, leader, e, e', u)
    requires b !in BuffersOf(x.s.env, GroupOf(x.c, x.yielded, leader))
    ensures NoneGives(x, e', u, leader, b) && NoneYields(x, leader, b)
  {
    var group := GroupOf(x.c, x.yielded, leader);
    var buffers := BuffersOf(x.s.env, group);
    forall j | 0 <= j < |x.yielded| && InClass(x, j, leader)
      ensures !Gives(x, e', u, j, b)
    {
      if !FirstPlace(x.yielded, j) {
        RepeatGetsNothing(x, leader, e, e', u, j);
      } else {
        var k := PlaceInGroup(x, leader, e, e', u, j);
        assert buffers[k] in buffers;
      }
    }
    forall j | 0 <= j < |x.yielded| && InClass(x, j, leader)
      ensures !(x.yielded[j] in x.s.env && x.s.env[x.yielded[j]] == b)
    {
      assert x.yielded[j] in group;
      var m :| 0 <= m < |group| && group[m] == x.yielded[j];
      assert buffers[m] in buffers;
    }
  }

  lemma UnretainedIsFreed(x: Exit, leader: Value, b: nat)
    requires Prepared(x)
    ensures forall k :: 0 <= k < |GroupOf(x.c, x.yielded, leader)| ==> GroupOf(x.c, x.yielded, leader)[k] in x.s.env
    ensures forall k :: 0 <= k < |GroupOf(x.c, x.owned, leader)| ==> GroupOf(x.c, x.owned, leader)[k] in x.s.own
    ensures
      var group, owned := GroupOf(x.c, x.yielded, leader), GroupOf(x.c, x.owned, leader);
      b in Unretained(BuffersOf(x.s.env, group), AllocsOf(x.s.own, owned))
      <==> HeldIn(x, leader, b) && !Names(x.s.env, group, b)
  {
    var group, owned := GroupOf(x.c, x.yielded, leader), GroupOf(x.c, x.owned, leader);
    forall k | 0 <= k < |group|
      ensures group[k] in x.s.env
    {
      assert group[k] in group;
    }
    forall k | 0 <= k < |owned|
      ensures owned[k] in x.s.own && owned[k] in x.owned
    {
      assert owned[k] in owned;
    }
    var buffers, held := BuffersOf(x.s.env, group), AllocsOf(x.s.own, owned);
    HeldMembers(x, leader, b);
    NamedMembers(x.s.env, group, b);
    assert b in Unretained(buffers, held) <==> Some(b) in held && b !in buffers by {
      assert forall a :: a in held && a.Some? && a.value == b ==> a == Some(b);
    }
  }

  lemma HeldMembers(x: Exit, leader: Value, b: nat)
    requires forall k :: 0 <= k < |GroupOf(x.c, x.owned, leader)| ==> GroupOf(x.c, x.owned, leader)[k] in x.s.own
    ensures Some(b) in AllocsOf(x.s.own, GroupOf(x.c, x.owned, leader)) <==> HeldIn(x, leader, b)
  {
    var owned := GroupOf(x.c, x.owned, leader);
    var held := AllocsOf(x.s.own, owned);
    if Some(b) in held {
      var k :| 0 <= k < |held| && held[k] == Some(b);
      assert owned[k] in owned;
    }
    if HeldIn(x, leader, b) {
      var v :| v in x.owned && v in x.s.own && x.s.own[v] == Some(b) && Leader(x.c, v) == leader;
      assert v in owned;
      var k :| 0 <= k < |owned| && owned[k] == v;
      assert held[k] == Some(b);
    }
  }

  lemma NamedMembers(env: map<Value, nat>, ms: seq<Value>, b: nat)
    requires forall k :: 0 <= k < |ms| ==> ms[k] in env
    ensures b in BuffersOf(env, ms) <==> Names(env, ms, b)
  {
    var buffers := BuffersOf(env, ms);
    if b in buffers {
      var k :| 0 <= k < |buffers| && buffers[k] == b;
      assert ms[k] in ms;
    }
    if Names(env, ms, b) {
      var m :| m in ms && m in env && env[m] == b;
      var k :| 0 <= k < |ms| && ms[k] == m;
      assert buffers[k] == b;
    }
  }

  /** The retain of a class runs, places its results and frees what the class frees. */
  lemma RetainRuns(x: Exit, leader: Value, e: Ending, t: State, e': Ending, u: State)
    requires Prepared(x) && Between(x, e, t) && !HandsOver(x.c, x.yielded, x.owned, leader)
    requires forall b :: HeldIn(x, leader, b) ==> b in t.live
    requires
      var group, owned := GroupOf(x.c, x.yielded, leader), GroupOf(x.c, x.owned, leader);
      && e'.acquired == PlaceResults(e.acquired, x.yielded, group, e.next) && e'.next == e.next + |group|
      && u == RunRetain(t, Fresh(e.next, |group|), group, owned)
    ensures RetainPlaced(x, leader, e, e', u)
    ensures u.ok && u == t.(own := u.own, live := u.live)
    ensures forall v :: v in t.own ==> v in u.own && u.own[v] == t.own[v]
    ensures forall v :: v in u.own ==> v < e'.next && (v in t.own || e.next <= v)
    ensures forall b :: b in u.live <==> b in t.live && !ClassFrees(x, leader, b)
    ensures
      var group, owned := GroupOf(x.c, x.yielded, leader), GroupOf(x.c, x.owned, leader);
      forall b :: b in u.live <==> b in t.live && b !in Unretained(BuffersOf(x.s.env, group), AllocsOf(x.s.own, owned))
  {
    var group, owned := GroupOf(x.c, x.yielded, leader), GroupOf(x.c, x.owned, leader);
    GroupDistinct(x.c, x.owned, leader);
    forall v | v in owned && x.s.own[v].Some?
      ensures x.s.own[v].value in t.live
    {
      assert HeldIn(x, leader, x.s.own[v].value);
    }
    GroupRetainRuns(x, e, t, group, owned);
    forall b
      ensures b in u.live <==> b in t.live && !ClassFrees(x, leader, b)
    {
      UnretainedIsFreed(x, leader, b);
    }
  }

  lemma EndByRetain(x: Exit, leader: Value, e: Ending, t: State, e': Ending, u: State)
    requires Prepared(x) && Between(x, e, t) && !HandsOver(x.c, x.yielded, x.owned, leader)
    requires forall b :: HeldIn(x, leader, b) ==> b in t.live
    requires
      var group, owned := GroupOf(x.c, x.yielded, leader), GroupOf(x.c, x.owned, leader);
      && e'.acquired == PlaceResults(e.acquired, x.yielded, group, e.next) && e'.next == e.next + |group|
      && u == RunRetain(t, Fresh(e.next, |group|), group, owned)
    ensures |x.yielded| == |e'.acquired| && GroupEnded(x, leader, e, t, e', u) && RepeatsReserved(x, e')
  {
    RetainRuns(x, leader, e, t, e', u);
    forall i | 0 <= i < |x.yielded| && !InClass(x, i, leader)
      ensures e'.acquired[i] == e.acquired[i]
    {
      PlacedElsewhere(e.acquired, x.yielded, GroupOf(x.c, x.yielded, leader), e.next, i);
    }
    forall i | 0 <= i < |x.yielded| && InClass(x, i, leader)
      ensures GivesOwned(x, e', u, i)
    {
      RetainGivesOwned(x, leader, e, e', u, i);
    }
    forall i | 0 <= i < |x.yielded| && !FirstPlace(x.yielded, i)
      ensures e'.acquired[i] == x.reserved
    {
      RepeatGetsNothing(x, leader, e, e', u, i);
    }
    forall v | v in x.owned && Leader(x.c, v) == leader
      ensures Settled(x, e', u, v)
    {
      if x.s.own[v].Some? {
        assert HeldIn(x, leader, x.s.own[v].value);
      }
      RetainSettles(x, leader, e, e', u, v);
    }
  }

  // ---------------------------------------------------------------- all classes

  /** What is gone is what the classes of the given leaders free. */
  ghost predicate FreedBy(x: Exit, leaders: seq<Value>, t: State) {
    forall b :: b in t.live <==> b in x.s.live && forall l :: l in leaders ==> !ClassFrees(x, l, b)
  }

  /** What holds when the classes of the given leaders have ended. */
  ghost predicate Ended(x: Exit, leaders: seq<Value>, e: Ending, t: State) {
    && Between(x, e, t)
    && FreedBy(x, leaders, t)
    && (forall i :: 0 <= i < |x.yielded| && Leader(x.c, x.yielded[i]) in leaders ==> GivesOwned(x, e, t, i))
    && forall v :: v in x.owned && Leader(x.c, v) in leaders ==> v in x.s.own && Settled(x, e, t, v)
  }

  /** What a place of another class hands out stays the same when one class ends. */
  lemma GivesStays(x: Exit, leader: Value, e: Ending, t: State, e': Ending, t': State, i: nat, b: nat)
    requires Between(x, e, t) && |x.yielded| == |e'.acquired| && GroupEnded(x, leader, e, t, e', t')
    requires i < |x.yielded| && !InClass(x, i, leader) && GivesOwned(x, e, t, i)
    ensures Gives(x, e, t, i, b) == Gives(x, e', t', i, b)
  {
  }

  /** Other classes keep what they have when one class ends. */
  lemma SettledStays(x: Exit, leader: Value, e: Ending, t: State, e': Ending, t': State, v: Value)
    requires Prepared(x) && Between(x, e, t) && |x.yielded| == |e'.acquired| && GroupEnded(x, leader, e, t, e', t')
    requires v in x.owned && Leader(x.c, v) != leader && Settled(x, e, t, v)
    requires forall i :: 0 <= i < |x.yielded| && InClass(x, i, Leader(x.c, v)) ==> GivesOwned(x, e, t, i)
    ensures Settled(x, e', t', v)
  {
    if x.s.own[v].Some? {
      var b, l := x.s.own[v].value, Leader(x.c, v);
      assert b in t.live <==> b in t'.live;
      forall j | 0 <= j < |x.yielded| && InClass(x, j, l)
        ensures Gives(x, e, t, j, b) == Gives(x, e', t', j, b)
      {
        GivesStays(x, leader, e, t, e', t', j, b);
      }
      if b in t.live && !LostIn(x, Leader(x.c, v), b) {
        var i :| OnlyGives(x, e, t, l, i, b);
        assert OnlyGives(x, e', t', l, i, b);
      }
    }
  }

  lemma GivesOwnedStays(x: Exit, leader: Value, e: Ending, t: State, e': Ending, t': State, i: nat)
    requires Between(x, e, t) && |x.yielded| == |e'.acquired| && GroupEnded(x, leader, e, t, e', t')
    requires i < |x.yielded| && !InClass(x, i, leader) && GivesOwned(x, e, t, i)
    ensures GivesOwned(x, e', t', i)
  {
    forall b: nat | Gives(x, e', t', i, b)
      ensures Gives(x, e, t, i, b)
    {
      GivesStays(x, leader, e, t, e', t', i, b);
    }
  }

  lemma EndedStep(x: Exit, leaders: seq<Value>, leader: Value, e: Ending, t: State, e': Ending, t': State)
    requires Prepared(x) && Ended(x, leaders, e, t) && leader !in leaders
    requires |x.yielded| == |e'.acquired| && GroupEnded(x, leader, e, t, e', t') && RepeatsReserved(x, e')
    ensures Ended(x, leaders + [leader], e', t')
  {
    var more := leaders + [leader];
    forall i | 0 <= i < |x.yielded| && Leader(x.c, x.yielded[i]) in more
      ensures GivesOwned(x, e', t', i)
    {
      if !InClass(x, i, leader) {
        GivesOwnedStays(x, leader, e, t, e', t', i);
      }
    }
    forall v | v in x.owned && Leader(x.c, v) in more
      ensures Settled(x, e', t', v)
    {
      if Leader(x.c, v) != leader {
        SettledStays(x, leader, e, t, e', t', v);
      }
    }
    FreedByMore(x, leaders, leader, t, t');
  }

  lemma FreedByMore(x: Exit, leaders: seq<Value>, leader: Value, t: State, u: State)
    requires FreedBy(x, leaders, t) && forall b :: b in u.live <==> b in t.live && !ClassFrees(x, leader, b)
    ensures FreedBy(x, leaders + [leader], u)
  {
    forall b
      ensures (forall l :: l in leaders + [leader] ==> !ClassFrees(x, l, b))
         <==> (forall l :: l in leaders ==> !ClassFrees(x, l, b)) && !ClassFrees(x, leader, b)
    {
      assert leader in leaders + [leader];
    }
  }

  /** The class of the leader has a yielded memref. */
  ghost predicate Yields(x: Exit, leader: Value) {
    exists i :: 0 <= i < |x.yielded| && InClass(x, i, leader)
  }

  /** The buffers of a class that yields are live at the exit, and held by no other indicator. */
  lemma LiveAtExit(x: Exit, leader: Value, b: nat)
    requires Prepared(x) && Yields(x, leader) && HeldIn(x, leader, b)
    ensures b in x.s.live && forall l :: HeldIn(x, l, b) ==> l == leader
  {
    var v :| v in x.owned && v in x.s.own && x.s.own[v] == Some(b) && Leader(x.c, v) == leader;
    var i :| 0 <= i < |x.yielded| && InClass(x, i, leader);
    assert Equivalent(x.c, x.yielded[i], v);
    assert Escapes(x.c, x.yielded, v);
    assert forall w :: w in x.owned && x.s.own[w] == Some(b) ==> w == v;
  }

  /** The buffers of a class that has not ended are still live. */
  lemma StillLive(x: Exit, leaders: seq<Value>, leader: Value, e: Ending, t: State)
    requires Prepared(x) && Ended(x, leaders, e, t) && leader !in leaders && Yields(x, leader)
    ensures forall b :: HeldIn(x, leader, b) ==> b in t.live
  {
    forall b | HeldIn(x, leader, b)
      ensures b in t.live
    {
      LiveAtExit(x, leader, b);
    }
  }

  lemma EndGroupDirectly(x: Exit, leaders: seq<Value>, leader: Value, e: Ending, t: State)
    requires Prepared(x) && Ended(x, leaders, e, t) && leader !in leaders && Yields(x, leader)
    requires HandsOver(x.c, x.yielded, x.owned, leader)
    ensures Ended(x, leaders + [leader], EndGroup(x.c, x.yielded, x.owned, leader, e), t)
  {
    StillLive(x, leaders, leader, e, t);
    var y, v := GroupOf(x.c, x.yielded, leader)[0], GroupOf(x.c, x.owned, leader)[0];
    assert GroupOf(x.c, x.yielded, leader) == [y] && GroupOf(x.c, x.owned, leader) == [v];
    EndDirectly(x, leader, e, t, y, v);
    EndedStep(x, leaders, leader, e, t, EndGroup(x.c, x.yielded, x.owned, leader, e), t);
  }

  lemma EndGroupByRetain(x: Exit, leaders: seq<Value>, leader: Value, e: Ending, t: State, u: State)
    requires Prepared(x) && Ended(x, leaders, e, t) && leader !in leaders && Yields(x, leader)
    requires !HandsOver(x.c, x.yielded, x.owned, leader)
    requires u == RunRetain(t, Fresh(e.next, |GroupOf(x.c, x.yielded, leader)|), GroupOf(x.c, x.yielded, leader),
                            GroupOf(x.c, x.owned, leader))
    ensures Ended(x, leaders + [leader], EndGroup(x.c, x.yielded, x.owned, leader, e), u)
  {
    StillLive(x, leaders, leader, e, t);
    EndByRetain(x, leader, e, t, EndGroup(x.c, x.yielded, x.owned, leader, e), u);
    EndedStep(x, leaders, leader, e, t, EndGroup(x.c, x.yielded, x.owned, leader, e), u);
  }

  function GroupState(x: Exit, leader: Value, e: Ending, t: State): State {
    var group, owned := GroupOf(x.c, x.yielded, leader), GroupOf(x.c, x.owned, leader);
    if |owned| == 1 && |group| == 1 then t else RunRetain(t, Fresh(e.next, |group|), group, owned)
  }

  lemma EndGroupRuns(x: Exit, leader: Value, e: Ending, oracle: Oracle)
    requires |x.yielded| == |e.acquired|
    ensures Run(EndGroup(x.c, x.yielded, x.owned, leader, e).ops, x.s, oracle)
         == GroupState(x, leader, e, Run(e.ops, x.s, oracle))
  {
    var group, owned := GroupOf(x.c, x.yielded, leader), GroupOf(x.c, x.owned, leader);
    var more := EndGroup(x.c, x.yielded, x.owned, leader, e).ops;
    if |owned| == 1 && |group| == 1 {
      assert more == e.ops;
    } else {
      RunRetainLast(e.ops, Fresh(e.next, |group|), group, owned, x.s, oracle);
    }
  }

  lemma RunRetainLast(ops: seq<Op>, vs: seq<Value>, retained: seq<Value>, allocs: seq<Value>, s: State, oracle: Oracle)
    ensures Run(ops + [Retain(vs, retained, allocs)], s, oracle)
         == RunRetain(Run(ops, s, oracle), vs, retained, allocs)
  {
    RunSnoc(ops, Retain(vs, retained, allocs), s, oracle);
  }

  lemma EndGroupEnds(x: Exit, leaders: seq<Value>, leader: Value, e: Ending, t: State)
    requires Prepared(x) && Ended(x, leaders, e, t) && leader !in leaders && Yields(x, leader)
    ensures Ended(x, leaders + [leader], EndGroup(x.c, x.yielded, x.owned, leader, e), GroupState(x, leader, e, t))
  {
    if HandsOver(x.c, x.yielded, x.owned, leader) {
      EndGroupDirectly(x, leaders, leader, e, t);
    } else {
      EndGroupByRetain(x, leaders, leader, e, t, GroupState(x, leader, e, t));
    }
  }

  lemma {:induction false} EndGroupsEnds(x: Exit, leaders: seq<Value>, e: Ending, oracle: Oracle)
    requires Prepared(x) && |x.yielded| == |e.acquired| && e.ops == [] && Distinct(leaders)
    requires (forall v :: v in x.s.own ==> v < e.next) && x.reserved < e.next && RepeatsReserved(x, e)
    requires x.reserved in x.s.own ==> x.s.own[x.reserved] == None
    requires forall l :: l in leaders ==> Yields(x, l)
    ensures
      var e' := EndGroups(x.c, x.yielded, x.owned, leaders, e);
      Ended(x, leaders, e', Run(e'.ops, x.s, oracle))
    decreases |leaders|
  {
    if leaders != [] {
      var init, last := leaders[..|leaders| - 1], leaders[|leaders| - 1];
      EndGroupsEnds(x, init, e, oracle);
      var m := EndGroups(x.c, x.yielded, x.owned, init, e);
      SplitLast(leaders);
      assert last in leaders && last !in init;
      EndGroupRuns(x, last, m, oracle);
      EndGroupEnds(x, init, last, m, Run(m.ops, x.s, oracle));
    }
  }
}

/** Incremental cycle detection with the topological ranks of Pearce and Kelly. */
module GraphCycles {
  import opened Digraphs
  import opened Options
  import opened OrderedSets
  import opened RankOrder
  import opened Sequences

  /** What a reordering needs to know about the two search results. */
  ghost predicate SearchResults(g: Graph, rank: seq<int>, x: int, y: int, back: seq<int>, front: seq<int>)
  {
    && InRange(rank, back) && InRange(rank, front) && InRange(rank, [x, y])
    && (forall i :: i in back ==> i !in front)
    && x in back && y in front
    && (forall i :: i in back ==> rank[y] < rank[i] <= rank[x])
    && (forall i :: i in front ==> rank[y] <= rank[i] < rank[x])
    && (forall e :: e in g && e.0 in front && 0 <= e.1 < |rank|
          ==> rank[e.1] != rank[x] && (rank[e.1] < rank[x] ==> e.1 in front))
    && (forall e :: e in g && e.1 in back && 0 <= e.0 < |rank|
          ==> e.0 in back || e.0 in front || rank[e.0] <= rank[y])
  }

  ghost predicate Within(g: Graph, n: int) {
    forall e :: e in g ==> 0 <= e.0 < n && 0 <= e.1 < n
  }

  ghost predicate RanksGrow(g: Graph, rank: seq<int>)
    requires Within(g, |rank|)
  {
    forall e :: e in g ==> rank[e.0] < rank[e.1]
  }

  lemma ReorderBounds(g: Graph, before: seq<int>, after: seq<int>, x: int, y: int, back: seq<int>, front: seq<int>,
                      i: int)
    requires SearchResults(g, before, x, y, back, front)
    requires IsRanking(before) && SortedByRank(before, back) && SortedByRank(before, front)
    requires Reordered(before, after, back, front)
    requires i in back || i in front
    ensures 0 <= i < |after| && before[y] <= after[i] <= before[x]
    ensures i in back ==> after[i] <= before[i]
    ensures i in front ==> before[i] <= after[i]
  {
    assert i in back + front;
    var source := ReorderedReuses(before, after, back, front, i);
    ReorderedRanks(before, after, back, front);
  }

  lemma SortedListsAreDistinct(rank: seq<int>, back: seq<int>, front: seq<int>)
    requires InRange(rank, back) && InRange(rank, front)
    requires SortedByRank(rank, back) && SortedByRank(rank, front)
    requires forall i :: i in back ==> i !in front
    ensures InRange(rank, back + front) && Distinct(back + front)
  {
    var list := back + front;
    forall i, j | 0 <= i < j < |list|
      ensures list[i] != list[j]
    {
      if i < |back| <= j {
        assert list[i] in back && list[j] in front;
      }
    }
  }

  lemma PlaceInList(back: seq<int>, front: seq<int>, i: int) returns (k: nat)
    requires i in back || i in front
    ensures k < |back + front| && (back + front)[k] == i
    ensures if i in front then |back| <= k else k < |back|
  {
    if i in front {
      var j :| 0 <= j < |front| && front[j] == i;
      k := |back| + j;
    } else {
      k :| 0 <= k < |back| && back[k] == i;
    }
  }

  lemma ReorderPairs(before: seq<int>, after: seq<int>, back: seq<int>, front: seq<int>, i: int, j: int)
    requires InRange(before, back) && InRange(before, front)
    requires SortedByRank(before, back) && SortedByRank(before, front)
    requires InRange(after, back + front) && SortedByRank(after, back + front)
    requires (i in back || i in front) && (j in back || j in front)
    requires forall k :: k in back ==> k !in front
    requires 0 <= i < |before| && 0 <= j < |before| && (before[i] < before[j] || (i in back && j in front))
    requires i in front ==> j in front
    ensures 0 <= i < |after| && 0 <= j < |after| && after[i] < after[j]
  {
    var list := back + front;
    var a := PlaceInList(back, front, i);
    var b := PlaceInList(back, front, j);
  }

  lemma ReorderedEdge(g: Graph, before: seq<int>, after: seq<int>, x: int, y: int,
                      back: seq<int>, front: seq<int>, u: int, v: int)
    requires (u, v) in g && 0 <= u < |before| && 0 <= v < |before|
    requires SearchResults(g, before, x, y, back, front)
    requires IsRanking(before) && SortedByRank(before, back) && SortedByRank(before, front)
    requires (u, v) == (x, y) || before[u] < before[v]
    requires Reordered(before, after, back, front)
    ensures after[u] < after[v]
  {
    if u in back || u in front { ReorderBounds(g, before, after, x, y, back, front, u); }
    if v in back || v in front { ReorderBounds(g, before, after, x, y, back, front, v); }
    var e := (u, v);
    assert u in front ==> before[e.1] != before[x] && (before[e.1] < before[x] ==> e.1 in front);
    assert v in back ==> e.0 in back || e.0 in front || before[e.0] <= before[y];
    if (u in back || u in front) && (v in back || v in front) {
      ReorderedRanks(before, after, back, front);
      ReorderPairs(before, after, back, front, u, v);
    } else if v in back {
      assert before[u] != before[y];
    }
  }

  /** Handing the ranks of both search results out again, ancestors first, makes the ranks grow
      along every edge, the new one included, and moves only ranks between those of `y` and `x`. */
  lemma ReorderRestoresOrder(g: Graph, before: seq<int>, after: seq<int>, x: int, y: int,
                             back: seq<int>, front: seq<int>)
    requires Within(g, |before|)
    requires SearchResults(g, before, x, y, back, front)
    requires IsRanking(before) && SortedByRank(before, back) && SortedByRank(before, front)
    requires forall e :: e in g ==> e == (x, y) || before[e.0] < before[e.1]
    requires Reordered(before, after, back, front)
    ensures IsRanking(after) && RanksGrow(g, after)
    ensures ChangedBetween(before, after, before[y], before[x])
  {
    ReorderedRanks(before, after, back, front);
    forall e | e in g
      ensures after[e.0] < after[e.1]
    {
      ReorderedEdge(g, before, after, x, y, back, front, e.0, e.1);
    }
    forall i | 0 <= i < |before| && after[i] != before[i]
      ensures before[y] <= before[i] <= before[x] && before[y] <= after[i] <= before[x]
    {
      ReorderBounds(g, before, after, x, y, back, front, i);
    }
  }

  ghost function Indices(n: nat): (s: set<int>)
    ensures forall i :: i in s <==> 0 <= i < n
  {
    if n == 0 then {} else Indices(n - 1) + {n - 1}
  }

  ghost function Succ(g: Graph, x: int): (s: set<int>)
    ensures forall y :: y in s <==> (x, y) in g
  {
    set e | e in g && e.0 == x :: e.1
  }

  ghost function Pred(g: Graph, y: int): (s: set<int>)
    ensures forall x :: x in s <==> (x, y) in g
  {
    set e | e in g && e.1 == y :: e.0
  }

  ghost function SuccRows(g: Graph, n: nat): (rows: seq<set<int>>)
    ensures |rows| == n && forall i :: 0 <= i < n ==> rows[i] == Succ(g, i)
  {
    seq(n, i => Succ(g, i))
  }

  ghost function PredRows(g: Graph, n: nat): (rows: seq<set<int>>)
    ensures |rows| == n && forall i :: 0 <= i < n ==> rows[i] == Pred(g, i)
  {
    seq(n, i => Pred(g, i))
  }

  /** The graph without the edges at node `b`. */
  ghost function Without(g: Graph, b: int): Graph {
    set e | e in g && e.0 != b && e.1 != b
  }

  /** The two rows of an edge at `b` name each other. */
  /** The listed nodes are others than `b`, and their rows name `b`. */
  ghost predicate Listed(b: int, listed: set<int>, rows: seq<set<int>>) {
    b !in listed && forall y :: y in listed ==> 0 <= y < |rows| && b in rows[y]
  }

  lemma RowsMirror(g: Graph, n: nat, b: int)
    requires Within(g, n) && 0 <= b < n && (b, b) !in g
    ensures Listed(b, SuccRows(g, n)[b], PredRows(g, n)) && Listed(b, PredRows(g, n)[b], SuccRows(g, n))
    ensures Within(Without(g, b), n)
  {
  }

  /** The rows without node `b`, which only the listed rows and its own name. */
  ghost function Isolated(rows: seq<set<int>>, b: int, listed: set<int>): (r: seq<set<int>>)
    ensures |r| == |rows|
    ensures forall i :: 0 <= i < |rows| ==>
              r[i] == if i == b then {} else if i in listed then rows[i] - {b} else rows[i]
  {
    seq(|rows|, i requires 0 <= i < |rows| => if i == b then {} else if i in listed then rows[i] - {b} else rows[i])
  }

  lemma ErasedIsIsolated(rows: seq<set<int>>, b: int, which: seq<int>, listed: set<int>, after: seq<set<int>>)
    requires 0 <= b < |rows| == |after| && forall y :: y in which <==> y in listed
    requires b !in listed
    requires forall i :: 0 <= i < |rows| ==> after[i] == if i in which then rows[b := {}][i] - {b} else rows[b := {}][i]
    ensures after == Isolated(rows, b, listed)
  {
  }

  lemma RowsAfterIsolation(g: Graph, n: nat, b: int)
    requires Within(g, n) && 0 <= b < n
    ensures Isolated(SuccRows(g, n), b, PredRows(g, n)[b]) == SuccRows(Without(g, b), n)
    ensures Isolated(PredRows(g, n), b, SuccRows(g, n)[b]) == PredRows(Without(g, b), n)
  {
    forall i | 0 <= i < n
      ensures Isolated(SuccRows(g, n), b, PredRows(g, n)[b])[i] == Succ(Without(g, b), i)
      ensures Isolated(PredRows(g, n), b, SuccRows(g, n)[b])[i] == Pred(Without(g, b), i)
    {
    }
  }

  ghost function EmptyRows(n: nat): (rows: seq<set<int>>)
    ensures |rows| == n && forall i :: 0 <= i < n ==> rows[i] == {}
  {
    seq(n, i => {})
  }

  lemma RowsOfEmptyGraph(n: nat)
    ensures SuccRows({}, n) == EmptyRows(n) == PredRows({}, n)
  {
    assert forall i :: Succ({}, i) == {} && Pred({}, i) == {};
  }

  lemma RowsWith(g: Graph, n: nat, x: int, y: int)
    requires 0 <= x < n && 0 <= y < n
    ensures SuccRows(g + {(x, y)}, n) == SuccRows(g, n)[x := SuccRows(g, n)[x] + {y}]
    ensures PredRows(g + {(x, y)}, n) == PredRows(g, n)[y := PredRows(g, n)[y] + {x}]
    ensures Within(g, n) ==> Within(g + {(x, y)}, n)
    ensures (y in SuccRows(g, n)[x] <==> (x, y) in g) && (x in PredRows(g, n)[y] <==> (x, y) in g)
  {
    assert forall i :: Succ(g + {(x, y)}, i) == if i == x then Succ(g, i) + {y} else Succ(g, i);
    assert forall i :: Pred(g + {(x, y)}, i) == if i == y then Pred(g, i) + {x} else Pred(g, i);
  }

  lemma RowsWithout(g: Graph, n: nat, x: int, y: int)
    requires 0 <= x < n && 0 <= y < n
    ensures SuccRows(g - {(x, y)}, n) == SuccRows(g, n)[x := SuccRows(g, n)[x] - {y}]
    ensures PredRows(g - {(x, y)}, n) == PredRows(g, n)[y := PredRows(g, n)[y] - {x}]
    ensures Within(g, n) ==> Within(g - {(x, y)}, n)
    ensures (y in SuccRows(g, n)[x] <==> (x, y) in g) && (x in PredRows(g, n)[y] <==> (x, y) in g)
  {
    assert forall i :: Succ(g - {(x, y)}, i) == if i == x then Succ(g, i) - {y} else Succ(g, i);
    assert forall i :: Pred(g - {(x, y)}, i) == if i == y then Pred(g, i) - {x} else Pred(g, i);
  }

  // ---------------------------------------------------------------- searches as sets of marks

  lemma SearchesGiveResults(g: Graph, rank: seq<int>, x: int, y: int, deltab: seq<int>, deltaf: seq<int>)
    requires Within(g, |rank|) && 0 <= x < |rank| && 0 <= y < |rank| && Distinct(rank)
    requires ForwardFrontier(g, rank, y, rank[x], deltaf, [])
    requires BackwardFrontier(g, rank, x, rank[y], deltaf, deltab, [])
    ensures SearchResults(g, rank, x, y, SortByRank(rank, deltab), SortByRank(rank, deltaf))
  {
  }

  /** What a successful insertion against the ranks does: the ranks grow again along all edges. */
  lemma InsertionRestoresOrder(g: Graph, before: seq<int>, after: seq<int>, x: int, y: int,
                               deltab: seq<int>, deltaf: seq<int>)
    requires Within(g, |before|) && IsRanking(before)
    requires 0 <= x < |before| && 0 <= y < |before|
    requires forall e :: e in g ==> e == (x, y) || before[e.0] < before[e.1]
    requires ForwardFrontier(g, before, y, before[x], deltaf, [])
    requires BackwardFrontier(g, before, x, before[y], deltaf, deltab, [])
    requires Reordered(before, after, SortByRank(before, deltab), SortByRank(before, deltaf))
    ensures IsRanking(after) && RanksGrow(g, after) && ChangedBetween(before, after, before[y], before[x])
  {
    SearchesGiveResults(g, before, x, y, deltab, deltaf);
    SortSorts(before, deltab);
    SortSorts(before, deltaf);
    ReorderRestoresOrder(g, before, after, x, y, SortByRank(before, deltab), SortByRank(before, deltaf));
  }

  ghost predicate ChangedBetween(before: seq<int>, after: seq<int>, low: int, high: int) {
    && |before| == |after|
    && forall i :: 0 <= i < |before| && after[i] != before[i] ==> low <= before[i] <= high && low <= after[i] <= high
  }

  lemma ChangedNowhere(before: seq<int>, after: seq<int>, low: int, high: int)
    requires ChangedBetween(before, after, low, high) && high < low
    ensures before == after
  {
  }

  lemma RanksShowAcyclic(g: Graph, ranks: seq<int>)
    requires Within(g, |ranks|) && RanksGrow(g, ranks)
    ensures Acyclic(g)
  {
    RankedIsAcyclic(g, i => if 0 <= i < |ranks| then ranks[i] else 0);
  }

  lemma LowerRankUnreachable(g: Graph, ranks: seq<int>, x: int, y: int)
    requires Within(g, |ranks|) && RanksGrow(g, ranks)
    requires 0 <= x < |ranks| && 0 <= y < |ranks| && x != y && ranks[y] <= ranks[x]
    ensures !Reaches(g, x, y)
  {
    if Reaches(g, x, y) {
      RankGrows(g, i => if 0 <= i < |ranks| then ranks[i] else 0, x, y);
    }
  }

  ghost function SequencesOf(sets: seq<OrderedSet>): (lists: seq<seq<int>>)
    reads sets
    ensures HoldsLists(sets, lists)
  {
    seq(|sets|, i requires 0 <= i < |sets| reads sets => sets[i].sequence)
  }

  ghost predicate HoldsRow(s: OrderedSet, row: set<int>)
    reads s
  {
    s.Valid() && s.Elements() == row
  }

  /** Set number `i` holds exactly `rows[i]`. */
  ghost predicate HoldsRows(sets: seq<OrderedSet>, rows: seq<set<int>>)
    reads sets
    decreases |sets|
  {
    if sets == [] then rows == []
    else
      var n := |sets| - 1;
      |rows| == n + 1 && HoldsRow(sets[n], rows[n]) && HoldsRows(sets[..n], rows[..n])
  }

  lemma {:induction false} RowsPointwise(sets: seq<OrderedSet>, rows: seq<set<int>>)
    ensures HoldsRows(sets, rows) <==> |sets| == |rows| && forall i :: 0 <= i < |sets| ==> HoldsRow(sets[i], rows[i])
    decreases |sets|
  {
    if sets != [] && |rows| == |sets| {
      var n := |sets| - 1;
      RowsPointwise(sets[..n], rows[..n]);
      assert (forall i :: 0 <= i < n ==> HoldsRow(sets[i], rows[i]))
        <==> (forall i :: 0 <= i < n ==> HoldsRow(sets[..n][i], rows[..n][i]));
    }
  }

  /** The sets are pairwise different objects. */
  ghost predicate Apart(sets: seq<OrderedSet>) {
    forall i, j :: 0 <= i < |sets| && 0 <= j < |sets| && i != j ==> sets[i] != sets[j]
  }

  method InsertInRow(sets: seq<OrderedSet>, k: nat, value: int, ghost rows: seq<set<int>>) returns (inserted: bool)
    requires HoldsRows(sets, rows) && Apart(sets) && k < |sets| == |rows|
    modifies sets[k]
    ensures HoldsRows(sets, rows[k := rows[k] + {value}])
    ensures inserted == (value !in rows[k])
  {
    RowsPointwise(sets, rows);
    inserted := sets[k].Insert(value);
    RowsPointwise(sets, rows[k := rows[k] + {value}]);
  }

  method EraseFromRow(sets: seq<OrderedSet>, k: nat, value: int, ghost rows: seq<set<int>>)
    requires HoldsRows(sets, rows) && Apart(sets) && k < |sets| == |rows| && value in rows[k]
    modifies sets[k]
    ensures HoldsRows(sets, rows[k := rows[k] - {value}])
  {
    RowsPointwise(sets, rows);
    sets[k].Erase(value);
    RowsPointwise(sets, rows[k := rows[k] - {value}]);
  }

  /** Moves the content of one set out, which leaves the set empty. */
  method MoveRow(sets: seq<OrderedSet>, k: nat, ghost rows: seq<set<int>>) returns (content: seq<int>)
    requires HoldsRows(sets, rows) && Apart(sets) && k < |sets| == |rows|
    modifies sets[k]
    ensures HoldsRows(sets, rows[k := {}])
    ensures Distinct(content) && forall v :: v in content <==> v in rows[k]
  {
    RowsPointwise(sets, rows);
    assert HoldsRow(sets[k], rows[k]);
    content := sets[k].sequence;
    assert forall v :: v in content <==> v in rows[k];
    sets[k].Clear();
    RowsPointwise(sets, rows[k := {}]);
  }

  method EraseFromRows(sets: seq<OrderedSet>, which: seq<int>, value: int, ghost rows: seq<set<int>>)
    returns (ghost after: seq<set<int>>)
    requires HoldsRows(sets, rows) && Apart(sets) && |sets| == |rows| && Distinct(which)
    requires forall y :: y in which ==> 0 <= y < |sets| && value in rows[y]
    modifies sets
    ensures HoldsRows(sets, after) && |after| == |rows|
    ensures forall i :: 0 <= i < |rows| ==> after[i] == if i in which then rows[i] - {value} else rows[i]
  {
    after := rows;
    for k := 0 to |which|
      invariant HoldsRows(sets, after) && |after| == |rows|
      invariant forall i :: 0 <= i < |rows| ==> after[i] == if i in which[..k] then rows[i] - {value} else rows[i]
    {
      var y := which[k];
      assert y in which && y !in which[..k] && which[..k + 1] == which[..k] + [y];
      EraseFromRow(sets, y, value, after);
      after := after[y := after[y] - {value}];
    }
    assert which[..|which|] == which;
  }

  /** Takes `b`, whose own row is empty by now, out of the rows that name it. */
  method EraseListed(sets: seq<OrderedSet>, which: seq<int>, b: int, ghost rows: seq<set<int>>, ghost listed: set<int>)
    requires 0 <= b < |sets| == |rows| && HoldsRows(sets, rows[b := {}]) && Apart(sets)
    requires Distinct(which) && (forall y :: y in which <==> y in listed) && Listed(b, listed, rows)
    modifies sets
    ensures HoldsRows(sets, Isolated(rows, b, listed))
  {
    ghost var after := EraseFromRows(sets, which, b, rows[b := {}]);
    ErasedIsIsolated(rows, b, which, listed, after);
  }

  ghost predicate HoldsLists(sets: seq<OrderedSet>, lists: seq<seq<int>>)
    reads sets
  {
    |sets| == |lists| && forall i :: 0 <= i < |sets| ==> sets[i].sequence == lists[i]
  }

  ghost predicate ListsSuccessors(g: Graph, n: nat, succ: seq<seq<int>>) {
    |succ| == n && forall i, j :: 0 <= i < n ==> (j in succ[i] <==> (i, j) in g)
  }

  ghost predicate ListsPredecessors(g: Graph, n: nat, pred: seq<seq<int>>) {
    |pred| == n && forall i, j :: 0 <= j < n ==> (i in pred[j] <==> (i, j) in g)
  }

  /** A forward search from `start`: `delta` is marked, `stack` is still to be visited. */
  ghost predicate ForwardFrontier(g: Graph, rank: seq<int>, start: int, bound: int, delta: seq<int>, stack: seq<int>)
    requires Within(g, |rank|) && 0 <= start < |rank|
  {
    && InRange(rank, delta) && InRange(rank, stack) && Distinct(delta)
    && (forall i :: i in delta ==> rank[start] <= rank[i] < bound && Reaches(g, start, i))
    && (forall i :: i in stack ==> rank[start] <= rank[i] < bound && Reaches(g, start, i))
    && (start in delta || start in stack)
    && (forall e :: e in g && e.0 in delta
          ==> rank[e.1] != bound && (rank[e.1] < bound ==> e.1 in delta || e.1 in stack))
  }

  lemma VisitInRange(g: Graph, rank: seq<int>, delta: seq<int>, n: int, stack: seq<int>, pushed: seq<int>)
    requires Within(g, |rank|)
    requires InRange(rank, delta) && InRange(rank, stack + [n])
    requires forall w :: w in pushed ==> (n, w) in g || (w, n) in g
    ensures InRange(rank, delta + [n]) && InRange(rank, stack + pushed)
  {
    assert (stack + [n])[|stack|] == n;
    forall k | 0 <= k < |stack|
      ensures 0 <= stack[k] < |rank|
    {
      assert (stack + [n])[k] == stack[k];
    }
    forall k | 0 <= k < |pushed|
      ensures 0 <= pushed[k] < |rank|
    {
      assert (n, pushed[k]) in g || (pushed[k], n) in g;
    }
  }

  lemma ForwardVisit(g: Graph, rank: seq<int>, start: int, bound: int, delta: seq<int>, n: int,
                     stack: seq<int>, pushed: seq<int>)
    requires Within(g, |rank|) && 0 <= start < |rank|
    requires ForwardFrontier(g, rank, start, bound, delta, stack + [n]) && n !in delta
    requires forall e :: e in g && rank[e.0] < bound ==> rank[e.0] < rank[e.1]
    requires forall w :: w in pushed ==> (n, w) in g && rank[w] < bound
    requires forall e :: e in g && e.0 == n
               ==> rank[e.1] != bound && (rank[e.1] < bound ==> e.1 in delta + [n] || e.1 in stack + pushed)
    ensures ForwardFrontier(g, rank, start, bound, delta + [n], stack + pushed)
  {
    assert n in stack + [n];
    VisitInRange(g, rank, delta, n, stack, pushed);
    forall w | w in pushed
      ensures rank[start] <= rank[w] < bound && Reaches(g, start, w)
    {
      assert rank[(n, w).0] < rank[(n, w).1];
      ReachesThenEdge(g, start, n, w);
    }
    forall e | e in g && e.0 in delta
      ensures rank[e.1] < bound ==> e.1 in delta + [n] || e.1 in stack + pushed
    {
    }
  }

  /** A node that is marked already needs no second visit. */
  lemma ForwardPop(g: Graph, rank: seq<int>, start: int, bound: int, delta: seq<int>, stack: seq<int>, n: int)
    requires Within(g, |rank|) && 0 <= start < |rank|
    requires ForwardFrontier(g, rank, start, bound, delta, stack + [n]) && n in delta
    ensures ForwardFrontier(g, rank, start, bound, delta, stack)
  {
    Appended(stack, [n]);
    assert forall k :: 0 <= k < |stack| ==> (stack + [n])[k] == stack[k];
  }

  /** A search against the edges from `start`, which does not enter `front`. */
  ghost predicate BackwardFrontier(g: Graph, rank: seq<int>, start: int, bound: int, front: seq<int>,
                                   delta: seq<int>, stack: seq<int>)
    requires Within(g, |rank|) && 0 <= start < |rank|
  {
    && InRange(rank, delta) && InRange(rank, stack) && Distinct(delta)
    && (forall i :: i in delta ==> bound < rank[i] <= rank[start] && i !in front && Reaches(g, i, start))
    && (forall i :: i in stack ==> bound < rank[i] <= rank[start] && i !in front && Reaches(g, i, start))
    && (start in delta || start in stack)
    && (forall e :: e in g && e.1 in delta
          ==> e.0 in delta || e.0 in stack || e.0 in front || rank[e.0] <= bound)
  }

  lemma BackwardVisit(g: Graph, rank: seq<int>, start: int, bound: int, front: seq<int>, delta: seq<int>,
                      n: int, stack: seq<int>, pushed: seq<int>)
    requires Within(g, |rank|) && 0 <= start < |rank|
    requires BackwardFrontier(g, rank, start, bound, front, delta, stack + [n]) && n !in delta
    requires forall e :: e in g && bound < rank[e.1] ==> rank[e.0] < rank[e.1]
    requires forall w :: w in pushed ==> (w, n) in g && bound < rank[w] && w !in front
    requires forall e :: e in g && e.1 == n
               ==> e.0 in delta + [n] || e.0 in stack + pushed || e.0 in front || rank[e.0] <= bound
    ensures BackwardFrontier(g, rank, start, bound, front, delta + [n], stack + pushed)
  {
    assert n in stack + [n];
    VisitInRange(g, rank, delta, n, stack, pushed);
    forall w | w in pushed
      ensures bound < rank[w] <= rank[start] && Reaches(g, w, start)
    {
      assert rank[(w, n).0] < rank[(w, n).1];
      EdgeThenReaches(g, w, n, start);
    }
    forall e | e in g && e.1 in delta
      ensures e.0 in delta + [n] || e.0 in stack + pushed || e.0 in front || rank[e.0] <= bound
    {
    }
  }

  lemma BackwardPop(g: Graph, rank: seq<int>, start: int, bound: int, front: seq<int>, delta: seq<int>,
                    stack: seq<int>, n: int)
    requires Within(g, |rank|) && 0 <= start < |rank|
    requires BackwardFrontier(g, rank, start, bound, front, delta, stack + [n]) && n in delta
    ensures BackwardFrontier(g, rank, start, bound, front, delta, stack)
  {
    Appended(stack, [n]);
    assert forall k :: 0 <= k < |stack| ==> (stack + [n])[k] == stack[k];
  }

  /** One round of a search makes progress: a node has been marked, or the stack has become shorter. */
  ghost predicate Progresses(unseen: set<int>, stack: seq<int>, left: set<int>, rest: seq<int>) {
    left < unseen || (left == unseen && |rest| < |stack|)
  }

  ghost predicate SeenOutside(n: int, delta: seq<int>, unseen: set<int>) {
    forall i :: 0 <= i < n && i !in delta ==> i in unseen
  }

  lemma SeeOneMore(n: int, delta: seq<int>, unseen: set<int>, i: int)
    requires SeenOutside(n, delta, unseen) && 0 <= i < n && i !in delta
    ensures SeenOutside(n, delta + [i], unseen - {i}) && unseen - {i} < unseen
  {
    Appended(delta, [i]);
    assert i in unseen && i !in unseen - {i};
  }

  /** The fields of node `i` are `rank[i]`, `visited[i]`, `ins[i]` and `outs[i]`. */
  class GraphCycles {
    const rank: array<int>
    const visited: array<bool>
    const ins: seq<OrderedSet>
    const outs: seq<OrderedSet>
    var freeNodes: seq<int>
    var deltaf: seq<int>
    var deltab: seq<int>
    var list: seq<int>
    var merged: seq<int>
    var stack: seq<int>
    ghost var edges: Graph

    constructor (numNodes: nat)
      ensures Valid() && fresh(rank) && fresh(visited) && fresh(ins) && fresh(outs)
      ensures edges == {} && freeNodes == [] && Size() == numNodes
    {
      var predecessors, successors := NewAdjacency(numNodes);
      var ranks, marks := NewRanks(numNodes);
      rank, visited := ranks, marks;
      ins, outs, edges := predecessors, successors, {};
      freeNodes, deltaf, deltab, list, merged, stack := [], [], [], [], [], [];
      new;
      RowsOfEmptyGraph(Size());
    }

    // ------------------------------------------------------------ representation

    function Size(): nat {
      rank.Length
    }

    /** The adjacency sets are pairwise different objects. */
    ghost predicate Shape() {
      && visited.Length == |ins| == |outs| == Size()
      && (forall i :: 0 <= i < |ins| ==> ins[i].slot == In(i))
      && (forall i :: 0 <= i < |outs| ==> outs[i].slot == Out(i))
      && Apart(ins) && Apart(outs)
    }

    /** Both adjacency sets of every node mirror the edges. */
    ghost predicate Linked()
      reads this`edges, ins, outs
    {
      && Shape()
      && Within(edges, Size())
      && HoldsRows(ins, PredRows(edges, Size()))
      && HoldsRows(outs, SuccRows(edges, Size()))
    }

    /** Exactly the listed nodes carry the mark of a search. */
    ghost predicate Marked(which: seq<int>)
      reads visited
    {
      forall i :: 0 <= i < visited.Length ==> (visited[i] <==> i in which)
    }

    /** The ranking is a permutation, grows along the edges, and no search left a mark behind. */
    ghost predicate Valid()
      reads this, rank, visited, ins, outs
    {
      && Linked()
      && IsRanking(rank[..])
      && RanksGrow(edges, rank[..])
      && Marked([])
      && InRange(rank[..], freeNodes)
    }

    // ------------------------------------------------------------ searches

    /** The body of the forward search for one node: looks at every successor of `n`. */
    method PushSuccessors(n: int, upperBound: int, ghost succ: seq<seq<int>>)
      returns (found: bool, ghost pushed: seq<int>)
      requires visited.Length == Size() && Within(edges, Size())
      requires HoldsLists(outs, succ) && ListsSuccessors(edges, Size(), succ)
      requires Marked(deltaf) && 0 <= n < Size()
      modifies this`stack
      ensures stack == old(stack) + pushed
      ensures forall w :: w in pushed ==> (n, w) in edges && rank[w] < upperBound
      ensures found ==> exists w :: (n, w) in edges && rank[w] == upperBound
      ensures !found ==> forall e :: e in edges && e.0 == n
                           ==> rank[e.1] != upperBound && (rank[e.1] < upperBound ==> e.1 in deltaf || e.1 in stack)
    {
      pushed := [];
      var out := outs[n].sequence;
      for k := 0 to |out|
        invariant stack == old(stack) + pushed
        invariant forall w :: w in pushed ==> (n, w) in edges && rank[w] < upperBound
        invariant forall w :: w in out[..k]
                    ==> (n, w) in edges && rank[w] != upperBound && (rank[w] < upperBound ==> w in deltaf || w in stack)
      {
        var w := out[k];
        assert w in succ[n] && out[..k + 1] == out[..k] + [w];
        if rank[w] == upperBound {
          return true, pushed;
        }
        if !visited[w] && rank[w] < upperBound {
          stack, pushed := stack + [w], pushed + [w];
        }
      }
      assert out[..|out|] == out;
      forall e | e in edges && e.0 == n
        ensures e.1 in out
      {
        assert e.1 in succ[n];
      }
      return false, pushed;
    }

    /** Marks `n`, which was just popped, and pushes the successors that are still to be visited. */
    method VisitForward(n: int, start: int, upperBound: int, ghost succ: seq<seq<int>>) returns (found: bool)
      requires visited.Length == Size() && Within(edges, Size()) && 0 <= start < Size()
      requires HoldsLists(outs, succ) && ListsSuccessors(edges, Size(), succ)
      requires ForwardFrontier(edges, rank[..], start, upperBound, deltaf, stack + [n])
      requires forall e :: e in edges && rank[e.0] < upperBound ==> rank[e.0] < rank[e.1]
      requires Marked(deltaf) && 0 <= n < Size() && !visited[n]
      modifies this`deltaf, this`stack, visited
      ensures deltaf == old(deltaf) + [n] && Marked(deltaf) && InRange(rank[..], deltaf)
      ensures found ==> exists w :: 0 <= w < Size() && rank[w] == upperBound && Reaches(edges, start, w)
      ensures !found ==> ForwardFrontier(edges, rank[..], start, upperBound, deltaf, stack)
    {
      visited[n] := true;
      deltaf := deltaf + [n];
      ghost var pushed;
      found, pushed := PushSuccessors(n, upperBound, succ);
      if found {
        ghost var w :| (n, w) in edges && rank[w] == upperBound;
        assert n in old(stack) + [n];
        ReachesThenEdge(edges, start, n, w);
      } else {
        ForwardVisit(edges, rank[..], start, upperBound, old(deltaf), n, old(stack), pushed);
      }
    }

    /** Pops a node and visits it unless it is marked. */
    method ForwardStep(start: int, upperBound: int, ghost succ: seq<seq<int>>, ghost unseen: set<int>)
      returns (found: bool, ghost left: set<int>)
      requires visited.Length == Size() && Within(edges, Size()) && 0 <= start < Size()
      requires HoldsLists(outs, succ) && ListsSuccessors(edges, Size(), succ)
      requires stack != [] && ForwardFrontier(edges, rank[..], start, upperBound, deltaf, stack)
      requires forall e :: e in edges && rank[e.0] < upperBound ==> rank[e.0] < rank[e.1]
      requires Marked(deltaf) && SeenOutside(Size(), deltaf, unseen)
      modifies this`deltaf, this`stack, visited
      ensures Marked(deltaf) && InRange(rank[..], deltaf)
      ensures found ==> exists w :: 0 <= w < Size() && rank[w] == upperBound && Reaches(edges, start, w)
      ensures !found ==> ForwardFrontier(edges, rank[..], start, upperBound, deltaf, stack)
      ensures !found ==> SeenOutside(Size(), deltaf, left) && Progresses(unseen, old(stack), left, stack)
    {
      SplitLast(stack);
      var n := stack[|stack| - 1];
      stack := stack[..|stack| - 1];
      if visited[n] {
        ForwardPop(edges, rank[..], start, upperBound, deltaf, stack, n);
        return false, unseen;
      }
      SeeOneMore(Size(), deltaf, unseen, n);
      found := VisitForward(n, start, upperBound, succ);
      left := unseen - {n};
    }

    method ForwardDfs(start: int, upperBound: int, ghost succ: seq<seq<int>>) returns (found: bool)
      requires visited.Length == Size() && Within(edges, Size())
      requires HoldsLists(outs, succ) && ListsSuccessors(edges, Size(), succ)
      requires Marked([]) && 0 <= start < Size() && rank[start] < upperBound
      requires forall e :: e in edges && rank[e.0] < upperBound ==> rank[e.0] < rank[e.1]
      modifies this`deltaf, this`stack, visited
      ensures InRange(rank[..], deltaf) && Marked(deltaf)
      ensures found ==> exists w :: 0 <= w < Size() && rank[w] == upperBound && Reaches(edges, start, w)
      ensures !found ==> ForwardFrontier(edges, rank[..], start, upperBound, deltaf, [])
    {
      ghost var unseen := Indices(Size());
      deltaf, stack := [], [start];
      ReachesSelf(edges, start);
      while stack != []
        invariant ForwardFrontier(edges, rank[..], start, upperBound, deltaf, stack)
        invariant Marked(deltaf) && SeenOutside(Size(), deltaf, unseen)
        decreases unseen, |stack|
      {
        var hit;
        hit, unseen := ForwardStep(start, upperBound, succ, unseen);
        if hit {
          return true;
        }
      }
      return false;
    }

    /** The body of the backward search for one node: looks at every predecessor of `n`. */
    method PushPredecessors(n: int, lowerBound: int, ghost pred: seq<seq<int>>) returns (ghost pushed: seq<int>)
      requires visited.Length == Size() && Within(edges, Size())
      requires HoldsLists(ins, pred) && ListsPredecessors(edges, Size(), pred)
      requires Marked(deltaf + deltab) && 0 <= n < Size()
      modifies this`stack
      ensures stack == old(stack) + pushed
      ensures forall w :: w in pushed ==> (w, n) in edges && lowerBound < rank[w] && w !in deltaf
      ensures forall e :: e in edges && e.1 == n
                ==> e.0 in deltab || e.0 in stack || e.0 in deltaf || rank[e.0] <= lowerBound
    {
      pushed := [];
      var sources := ins[n].sequence;
      for k := 0 to |sources|
        invariant stack == old(stack) + pushed
        invariant forall w :: w in pushed ==> (w, n) in edges && lowerBound < rank[w] && w !in deltaf
        invariant forall w :: w in sources[..k]
                    ==> (w, n) in edges && (w in deltab || w in stack || w in deltaf || rank[w] <= lowerBound)
      {
        var w := sources[k];
        assert w in pred[n] && sources[..k + 1] == sources[..k] + [w];
        if !visited[w] && lowerBound < rank[w] {
          stack, pushed := stack + [w], pushed + [w];
        }
      }
      assert sources[..|sources|] == sources;
      forall e | e in edges && e.1 == n
        ensures e.0 in sources
      {
        assert e.0 in pred[n];
      }
    }

    method VisitBackward(n: int, start: int, lowerBound: int, ghost pred: seq<seq<int>>)
      requires visited.Length == Size() && Within(edges, Size()) && 0 <= start < Size()
      requires HoldsLists(ins, pred) && ListsPredecessors(edges, Size(), pred)
      requires BackwardFrontier(edges, rank[..], start, lowerBound, deltaf, deltab, stack + [n])
      requires forall e :: e in edges && lowerBound < rank[e.1] ==> rank[e.0] < rank[e.1]
      requires Marked(deltaf + deltab) && 0 <= n < Size() && !visited[n]
      modifies this`deltab, this`stack, visited
      ensures deltab == old(deltab) + [n] && Marked(deltaf + deltab)
      ensures BackwardFrontier(edges, rank[..], start, lowerBound, deltaf, deltab, stack)
    {
      visited[n] := true;
      deltab := deltab + [n];
      ghost var pushed := PushPredecessors(n, lowerBound, pred);
      BackwardVisit(edges, rank[..], start, lowerBound, deltaf, old(deltab), n, old(stack), pushed);
    }

    /** Pops a node and visits it unless it is marked. */
    method BackwardStep(start: int, lowerBound: int, ghost pred: seq<seq<int>>, ghost unseen: set<int>)
      returns (ghost left: set<int>)
      requires visited.Length == Size() && Within(edges, Size()) && 0 <= start < Size()
      requires HoldsLists(ins, pred) && ListsPredecessors(edges, Size(), pred)
      requires stack != [] && BackwardFrontier(edges, rank[..], start, lowerBound, deltaf, deltab, stack)
      requires forall e :: e in edges && lowerBound < rank[e.1] ==> rank[e.0] < rank[e.1]
      requires Marked(deltaf + deltab) && SeenOutside(Size(), deltab, unseen)
      modifies this`deltab, this`stack, visited
      ensures BackwardFrontier(edges, rank[..], start, lowerBound, deltaf, deltab, stack)
      ensures Marked(deltaf + deltab) && SeenOutside(Size(), deltab, left)
      ensures Progresses(unseen, old(stack), left, stack)
    {
      SplitLast(stack);
      var n := stack[|stack| - 1];
      stack := stack[..|stack| - 1];
      if visited[n] {
        BackwardPop(edges, rank[..], start, lowerBound, deltaf, deltab, stack, n);
        return unseen;
      }
      SeeOneMore(Size(), deltab, unseen, n);
      VisitBackward(n, start, lowerBound, pred);
      left := unseen - {n};
    }

    method BackwardDfs(start: int, lowerBound: int, ghost pred: seq<seq<int>>)
      requires visited.Length == Size() && Within(edges, Size())
      requires HoldsLists(ins, pred) && ListsPredecessors(edges, Size(), pred)
      requires 0 <= start < Size() && lowerBound < rank[start]
      requires Marked(deltaf) && start !in deltaf
      requires forall e :: e in edges && lowerBound < rank[e.1] ==> rank[e.0] < rank[e.1]
      modifies this`deltab, this`stack, visited
      ensures BackwardFrontier(edges, rank[..], start, lowerBound, deltaf, deltab, [])
      ensures Marked(deltaf + deltab)
    {
      ghost var unseen := Indices(Size());
      ReachesSelf(edges, start);
      deltab, stack := [], [start];
      while stack != []
        invariant BackwardFrontier(edges, rank[..], start, lowerBound, deltaf, deltab, stack)
        invariant Marked(deltaf + deltab) && SeenOutside(Size(), deltab, unseen)
        decreases unseen, |stack|
      {
        unseen := BackwardStep(start, lowerBound, pred, unseen);
      }
    }

    method ClearVisitedBits(which: seq<int>)
      requires visited.Length == Size() && InRange(rank[..], which)
      modifies visited
      ensures forall i :: 0 <= i < Size() ==> visited[i] == (old(visited[i]) && i !in which)
    {
      for k := 0 to |which|
        invariant forall i :: 0 <= i < Size() ==> visited[i] == (old(visited[i]) && i !in which[..k])
      {
        visited[which[k]] := false;
        assert which[..k + 1] == which[..k] + [which[k]];
      }
    }

    // ------------------------------------------------------------ reordering

    /** Replaces the nodes of `src` by their ranks, unmarks them and appends them to `dst`. */
    method MoveToList(src: seq<int>, dst: seq<int>) returns (ranks: seq<int>, moved: seq<int>)
      requires visited.Length == Size() && InRange(rank[..], src)
      modifies visited
      ensures ranks == RanksOf(rank[..], src) && moved == dst + src
      ensures forall i :: 0 <= i < Size() ==> visited[i] == (old(visited[i]) && i !in src)
    {
      ranks, moved := src, dst;
      for k := 0 to |src|
        invariant |ranks| == |src| && ranks[k..] == src[k..] && moved == dst + src[..k]
        invariant forall j :: 0 <= j < k ==> ranks[j] == rank[src[j]]
        invariant forall i :: 0 <= i < Size() ==> visited[i] == (old(visited[i]) && i !in src[..k])
      {
        var w := ranks[k];
        assert w == src[k] && src[..k + 1] == src[..k] + [w];
        ranks := ranks[k := rank[w]];
        visited[w] := false;
        moved := moved + [w];
      }
    }

    /** Lists the nodes of both searches and merges their ranks. */
    method CollectRanks()
      requires visited.Length == Size() && InRange(rank[..], deltab) && InRange(rank[..], deltaf)
      modifies this`deltab, this`deltaf, this`list, this`merged, visited
      ensures list == old(deltab) + old(deltaf)
      ensures merged == Merge(RanksOf(rank[..], old(deltab)), RanksOf(rank[..], old(deltaf)))
      ensures forall i :: 0 <= i < Size() ==> visited[i] == (old(visited[i]) && i !in list)
    {
      list := [];
      deltab, list := MoveToList(deltab, list);
      deltaf, list := MoveToList(deltaf, list);
      merged := MergeRanks(deltab, deltaf);
      Appended(old(deltab), old(deltaf));
    }

    /** Sorts the results of both searches by rank. */
    method SortResults()
      requires Distinct(rank[..])
      requires InRange(rank[..], deltab) && Distinct(deltab)
      requires InRange(rank[..], deltaf) && Distinct(deltaf)
      requires forall i :: i in deltab ==> i !in deltaf
      modifies this`deltab, this`deltaf
      ensures deltab == SortByRank(rank[..], old(deltab)) && deltaf == SortByRank(rank[..], old(deltaf))
      ensures InRange(rank[..], deltab) && InRange(rank[..], deltaf)
      ensures InRange(rank[..], deltab + deltaf) && Distinct(deltab + deltaf)
      ensures forall i :: i in deltab + deltaf <==> i in old(deltab) || i in old(deltaf)
    {
      deltab := SortByRank(rank[..], deltab);
      deltaf := SortByRank(rank[..], deltaf);
      SortSorts(rank[..], old(deltab));
      SortSorts(rank[..], old(deltaf));
      SortedListsAreDistinct(rank[..], deltab, deltaf);
      Appended(deltab, deltaf);
    }

    method Reorder()
      requires visited.Length == Size() && Distinct(rank[..])
      requires InRange(rank[..], deltab) && Distinct(deltab)
      requires InRange(rank[..], deltaf) && Distinct(deltaf)
      requires forall i :: i in deltab ==> i !in deltaf
      modifies this`deltab, this`deltaf, this`list, this`merged, rank, visited
      ensures Reordered(old(rank[..]), rank[..], SortByRank(old(rank[..]), old(deltab)),
                        SortByRank(old(rank[..]), old(deltaf)))
      ensures forall i :: 0 <= i < Size() ==> visited[i] == (old(visited[i]) && i !in old(deltab) && i !in old(deltaf))
    {
      SortResults();
      ghost var back, front := deltab, deltaf;
      CollectRanks();
      AssignRanks();
      ReorderedByLists(old(rank[..]), rank[..], back, front, list, merged);
    }

    /** Gives the listed nodes the merged ranks, in order. */
    method AssignRanks()
      requires |list| == |merged| && InRange(rank[..], list) && Distinct(list)
      modifies rank
      ensures forall k :: 0 <= k < |list| ==> rank[list[k]] == merged[k]
      ensures forall j :: 0 <= j < Size() && j !in list ==> rank[j] == old(rank[j])
    {
      for i := 0 to |list|
        invariant forall k :: 0 <= k < i ==> rank[list[k]] == merged[k]
        invariant forall j :: 0 <= j < Size() && j !in list ==> rank[j] == old(rank[j])
      {
        rank[list[i]] := merged[i];
      }
    }

    // ------------------------------------------------------------ public operations

    method HasEdge(x: int, y: int) returns (present: bool)
      requires Valid() && 0 <= x < Size()
      ensures present == ((x, y) in edges)
    {
      RowsPointwise(outs, SuccRows(edges, Size()));
      assert HoldsRow(outs[x], Succ(edges, x));
      present := outs[x].Contains(y);
    }

    method UnlinkRows(x: int, y: int, ghost succ: seq<set<int>>, ghost pred: seq<set<int>>)
      requires Shape() && HoldsRows(outs, succ) && HoldsRows(ins, pred)
      requires 0 <= x < Size() == |succ| && 0 <= y < Size() == |pred| && y in succ[x] && x in pred[y]
      modifies outs[x], ins[y]
      ensures HoldsRows(outs, succ[x := succ[x] - {y}]) && HoldsRows(ins, pred[y := pred[y] - {x}])
    {
      EraseFromRow(outs, x, y, succ);
      EraseFromRow(ins, y, x, pred);
    }

    method LinkRows(x: int, y: int, ghost succ: seq<set<int>>, ghost pred: seq<set<int>>) returns (inserted: bool)
      requires Shape() && HoldsRows(outs, succ) && HoldsRows(ins, pred)
      requires 0 <= x < Size() == |succ| && 0 <= y < Size() == |pred| && (y in succ[x] <==> x in pred[y])
      modifies outs[x], ins[y]
      ensures HoldsRows(outs, succ[x := succ[x] + {y}]) && HoldsRows(ins, pred[y := pred[y] + {x}])
      ensures inserted == (y !in succ[x])
    {
      inserted := InsertInRow(outs, x, y, succ);
      if inserted {
        var newPredecessor := InsertInRow(ins, y, x, pred);
      } else {
        assert pred[y] + {x} == pred[y];
        assert pred[y := pred[y] + {x}] == pred;
      }
    }

    /** Takes the edge out of both adjacency sets. */
    method Unlink(x: int, y: int)
      requires Linked() && (x, y) in edges
      modifies outs[x], ins[y], this`edges
      ensures Linked() && edges == old(edges) - {(x, y)}
    {
      RowsWithout(edges, Size(), x, y);
      UnlinkRows(x, y, SuccRows(edges, Size()), PredRows(edges, Size()));
      edges := edges - {(x, y)};
    }

    /** Enters the edge into both adjacency sets unless it is there already. */
    method Link(x: int, y: int) returns (inserted: bool)
      requires Linked() && 0 <= x < Size() && 0 <= y < Size()
      modifies outs[x], ins[y], this`edges
      ensures Linked() && edges == old(edges) + {(x, y)}
      ensures inserted == ((x, y) !in old(edges))
    {
      RowsWith(edges, Size(), x, y);
      inserted := LinkRows(x, y, SuccRows(edges, Size()), PredRows(edges, Size()));
      edges := edges + {(x, y)};
    }

    method RemoveEdge(x: int, y: int)
      requires Valid() && (x, y) in edges
      modifies outs[x], ins[y], this`edges
      ensures Valid() && edges == old(edges) - {(x, y)}
    {
      Unlink(x, y);
    }

    lemma ListsMirrorEdges()
      requires Linked()
      ensures ListsSuccessors(edges, Size(), SequencesOf(outs))
      ensures ListsPredecessors(edges, Size(), SequencesOf(ins))
    {
      RowsPointwise(outs, SuccRows(edges, Size()));
      RowsPointwise(ins, PredRows(edges, Size()));
      forall i, j | 0 <= i < Size()
        ensures j in SequencesOf(outs)[i] <==> (i, j) in edges
      {
        assert HoldsRow(outs[i], Succ(edges, i));
        assert j in outs[i].sequence <==> j in outs[i].index.Keys;
      }
      forall i, j | 0 <= j < Size()
        ensures i in SequencesOf(ins)[j] <==> (i, j) in edges
      {
        assert HoldsRow(ins[j], Pred(edges, j));
        assert i in ins[j].sequence <==> i in ins[j].index.Keys;
      }
    }

    /** Searches both ways from a new edge against the ranks and, unless it closes a cycle, reorders. */
    method SearchAndReorder(x: int, y: int, ghost succ: seq<seq<int>>, ghost pred: seq<seq<int>>) returns (cycle: bool)
      requires visited.Length == Size() && Within(edges, Size())
      requires HoldsLists(outs, succ) && ListsSuccessors(edges, Size(), succ)
      requires HoldsLists(ins, pred) && ListsPredecessors(edges, Size(), pred)
      requires IsRanking(rank[..]) && Marked([])
      requires (x, y) in edges && rank[y] < rank[x]
      requires forall e :: e in edges ==> e == (x, y) || rank[e.0] < rank[e.1]
      modifies this`deltab, this`deltaf, this`list, this`merged, this`stack, rank, visited
      ensures Marked([]) && IsRanking(rank[..])
      ensures cycle ==> rank[..] == old(rank[..]) && Reaches(edges, y, x)
      ensures !cycle ==> RanksGrow(edges, rank[..])
      ensures ChangedBetween(old(rank[..]), rank[..], old(rank[y]), old(rank[x]))
    {
      cycle := ForwardDfs(y, rank[x], succ);
      if cycle {
        ghost var w :| 0 <= w < Size() && rank[w] == rank[x] && Reaches(edges, y, w);
        SameRank(rank[..], w, x);
        ClearVisitedBits(deltaf);
      } else {
        BackwardDfs(x, rank[y], pred);
        ReorderFound(x, y);
      }
    }

    /** Reorders what both searches from the edge `x -> y` have found, which restores the order of the ranks. */
    method ReorderFound(x: int, y: int)
      requires visited.Length == Size() && Within(edges, Size()) && IsRanking(rank[..])
      requires 0 <= x < Size() && 0 <= y < Size()
      requires forall e :: e in edges ==> e == (x, y) || rank[e.0] < rank[e.1]
      requires ForwardFrontier(edges, rank[..], y, rank[x], deltaf, [])
      requires BackwardFrontier(edges, rank[..], x, rank[y], deltaf, deltab, [])
      requires Marked(deltaf + deltab)
      modifies this`deltab, this`deltaf, this`list, this`merged, rank, visited
      ensures Marked([]) && IsRanking(rank[..]) && RanksGrow(edges, rank[..])
      ensures ChangedBetween(old(rank[..]), rank[..], old(rank[y]), old(rank[x]))
    {
      ghost var before, back, front := rank[..], deltab, deltaf;
      Reorder();
      InsertionRestoresOrder(edges, before, rank[..], x, y, back, front);
    }

    /** Admits an edge that is already linked: ranks that disagree with it are recomputed. */
    method AdmitEdge(x: int, y: int) returns (cycle: bool)
      requires Linked() && IsRanking(rank[..]) && Marked([]) && (x, y) in edges && x != y
      requires forall e :: e in edges ==> e == (x, y) || rank[e.0] < rank[e.1]
      modifies this`deltab, this`deltaf, this`list, this`merged, this`stack, rank, visited
      ensures Linked() && Marked([]) && IsRanking(rank[..])
      ensures cycle ==> rank[..] == old(rank[..]) && Reaches(edges, y, x)
      ensures !cycle ==> RanksGrow(edges, rank[..])
      ensures ChangedBetween(old(rank[..]), rank[..], old(rank[y]), old(rank[x]))
    {
      if rank[x] <= rank[y] {
        return false;
      }
      ListsMirrorEdges();
      cycle := SearchAndReorder(x, y, SequencesOf(outs), SequencesOf(ins));
    }

    /** Enters an edge between different nodes and restores the order of the ranks if it can. */
    method LinkAndOrder(x: int, y: int) returns (cycle: bool)
      requires Valid() && 0 <= x < Size() && 0 <= y < Size() && x != y
      modifies this`deltab, this`deltaf, this`list, this`merged, this`stack, this`edges, rank, visited, outs[x], ins[y]
      ensures Linked() && Marked([]) && IsRanking(rank[..])
      ensures edges == old(edges) + {(x, y)}
      ensures cycle ==> rank[..] == old(rank[..]) && Reaches(edges, y, x) && (x, y) !in old(edges)
      ensures !cycle ==> RanksGrow(edges, rank[..])
      ensures ChangedBetween(old(rank[..]), rank[..], old(rank[y]), old(rank[x]))
    {
      cycle := false;
      var isNew := Link(x, y);
      UndoEdge(old(edges), x, y);
      if isNew {
        cycle := AdmitEdge(x, y);
      }
    }

    /** Takes a refused edge out again. */
    method Withdraw(x: int, y: int, ghost before: Graph)
      requires Linked() && edges == before + {(x, y)} && (x, y) !in before
      requires IsRanking(rank[..]) && RanksGrow(before, rank[..]) && Marked([]) && InRange(rank[..], freeNodes)
      modifies outs[x], ins[y], this`edges
      ensures Valid() && edges == before
    {
      Unlink(x, y);
      UndoEdge(before, x, y);
    }

    /** Adds the edge and returns true exactly when the graph stays acyclic. */
    method InsertEdge(x: int, y: int) returns (inserted: bool)
      requires Valid() && 0 <= x < Size() && 0 <= y < Size()
      modifies this`deltab, this`deltaf, this`list, this`merged, this`stack, this`edges, rank, visited, outs[x], ins[y]
      ensures Valid()
      ensures inserted <==> Acyclic(old(edges) + {(x, y)})
      ensures edges == if inserted then old(edges) + {(x, y)} else old(edges)
      ensures !inserted ==> rank[..] == old(rank[..])
      ensures ChangedBetween(old(rank[..]), rank[..], old(rank[y]), old(rank[x]))
    {
      if x == y {
        ReachesSelf(edges + {(x, y)}, x);
        return false;
      }
      var cycle := LinkAndOrder(x, y);
      if cycle {
        Withdraw(x, y, old(edges));
      } else {
        RanksShowAcyclic(edges, rank[..]);
      }
      inserted := !cycle;
    }

    /** The search of `IsReachable`, cut at the rank of `y`. */
    method SearchBelow(x: int, y: int, ghost succ: seq<seq<int>>) returns (reachable: bool)
      requires visited.Length == Size() && Within(edges, Size())
      requires HoldsLists(outs, succ) && ListsSuccessors(edges, Size(), succ)
      requires IsRanking(rank[..]) && RanksGrow(edges, rank[..]) && Marked([])
      requires 0 <= x < Size() && 0 <= y < Size() && rank[x] < rank[y]
      modifies this`deltaf, this`stack, visited
      ensures Marked([])
      ensures reachable <==> Reaches(edges, x, y)
    {
      reachable := ForwardDfs(x, rank[y], succ);
      if reachable {
        ghost var w :| 0 <= w < Size() && rank[w] == rank[y] && Reaches(edges, x, w);
        SameRank(rank[..], w, y);
      } else {
        SearchIsComplete(edges, rank[..], x, y, deltaf);
      }
      ClearVisitedBits(deltaf);
    }

    method IsReachable(x: int, y: int) returns (reachable: bool)
      requires Valid() && 0 <= x < Size() && 0 <= y < Size()
      modifies this`deltaf, this`stack, visited
      ensures Valid()
      ensures reachable <==> Reaches(edges, x, y)
    {
      if x == y {
        ReachesSelf(edges, x);
        return true;
      }
      if rank[x] >= rank[y] {
        LowerRankUnreachable(edges, rank[..], x, y);
        return false;
      }
      ListsMirrorEdges();
      reachable := SearchBelow(x, y, SequencesOf(outs));
    }

    method SuccessorsCopy(node: int) returns (copy: seq<int>)
      requires Valid() && 0 <= node < Size()
      ensures Distinct(copy)
      ensures forall w :: w in copy <==> (node, w) in edges
    {
      copy := outs[node].sequence;
      RowsPointwise(outs, SuccRows(edges, Size()));
      assert HoldsRow(outs[node], Succ(edges, node));
    }

    /** Moves the adjacency sets out of node `b`. */
    method MoveRows(b: int, ghost succ: seq<set<int>>, ghost pred: seq<set<int>>)
      returns (out: seq<int>, sources: seq<int>)
      requires Shape() && HoldsRows(outs, succ) && HoldsRows(ins, pred)
      requires 0 <= b < Size() == |succ| == |pred|
      modifies ins[b], outs[b]
      ensures Distinct(out) && forall y :: y in out <==> y in succ[b]
      ensures Distinct(sources) && forall y :: y in sources <==> y in pred[b]
      ensures HoldsRows(outs, succ[b := {}]) && HoldsRows(ins, pred[b := {}])
    {
      out := MoveRow(outs, b, succ);
      sources := MoveRow(ins, b, pred);
    }

    /** Moves the adjacency sets out of node `b` and takes `b` out of the sets of its neighbours. */
    method DetachRows(b: int, ghost succ: seq<set<int>>, ghost pred: seq<set<int>>)
      returns (out: seq<int>, sources: seq<int>)
      requires Shape() && HoldsRows(outs, succ) && HoldsRows(ins, pred)
      requires 0 <= b < Size() == |succ| == |pred|
      requires Listed(b, succ[b], pred) && Listed(b, pred[b], succ)
      modifies ins, outs
      ensures Distinct(out) && forall y :: y in out <==> y in succ[b]
      ensures Distinct(sources) && forall y :: y in sources <==> y in pred[b]
      ensures HoldsRows(outs, Isolated(succ, b, pred[b])) && HoldsRows(ins, Isolated(pred, b, succ[b]))
    {
      out, sources := MoveRows(b, succ, pred);
      EraseListed(ins, out, b, pred, succ[b]);
      EraseListed(outs, sources, b, succ, pred[b]);
    }

    /** Takes every edge at node `b` out of the adjacency sets. */
    method DetachNode(b: int) returns (out: seq<int>, sources: seq<int>)
      requires Linked() && 0 <= b < Size() && (b, b) !in edges
      modifies ins, outs, this`edges
      ensures Linked() && edges == Without(old(edges), b)
      ensures Distinct(out) && forall y :: y in out <==> (b, y) in old(edges)
      ensures Distinct(sources) && forall y :: y in sources <==> (y, b) in old(edges)
    {
      RowsMirror(edges, Size(), b);
      RowsAfterIsolation(edges, Size(), b);
      out, sources := DetachRows(b, SuccRows(edges, Size()), PredRows(edges, Size()));
      edges := Without(edges, b);
    }

    /** Removes node `b` from the graph and hands out its former neighbours. */
    method FreeNode(b: int) returns (out: seq<int>, sources: seq<int>)
      requires Valid() && 0 <= b < Size()
      modifies ins, outs, this`edges, this`freeNodes
      ensures Valid() && edges == Without(old(edges), b) && freeNodes == old(freeNodes) + [b]
      ensures forall y :: y in out <==> (b, y) in old(edges)
      ensures forall y :: y in sources <==> (y, b) in old(edges)
    {
      NoLoops(edges, rank[..]);
      out, sources := DetachNode(b);
      freeNodes := freeNodes + [b];
    }

    method Degree(x: int) returns (degree: nat)
      requires Valid() && 0 <= x < Size()
      ensures degree == |EdgesAt(edges, x)|
    {
      NoLoops(edges, rank[..]);
      DegreeCountsEdges(edges, x);
      RowsPointwise(ins, PredRows(edges, Size()));
      RowsPointwise(outs, SuccRows(edges, Size()));
      assert HoldsRow(ins[x], Pred(edges, x)) && HoldsRow(outs[x], Succ(edges, x));
      var inSize := ins[x].Size();
      var outSize := outs[x].Size();
      degree := inSize + outSize;
    }

    /** Inserts an edge of the acyclic graph `goal`, which is never refused. */
    method InsertWithin(x: int, y: int, ghost goal: Graph)
      requires Valid() && 0 <= x < Size() && 0 <= y < Size()
      requires Acyclic(goal) && edges <= goal && (x, y) in goal
      modifies this`deltab, this`deltaf, this`list, this`merged, this`stack, this`edges, rank, visited, outs[x], ins[y]
      ensures Valid() && edges == old(edges) + {(x, y)}
    {
      SubgraphOfAcyclic(edges + {(x, y)}, goal);
      var inserted := InsertEdge(x, y);
      assert inserted;
    }

    /** Inserts `kept -> y` for every listed `y`. */
    method InsertSuccessors(kept: int, which: seq<int>, ghost goal: Graph)
      requires Valid() && 0 <= kept < Size() && Acyclic(goal) && edges + FromNode(kept, which) <= goal
      requires forall y :: y in which ==> 0 <= y < Size()
      modifies this`deltab, this`deltaf, this`list, this`merged, this`stack, this`edges, rank, visited, ins, outs
      ensures Valid() && edges == old(edges) + FromNode(kept, which)
    {
      ghost var start := edges;
      for k := 0 to |which|
        invariant Valid() && edges == start + FromNode(kept, which[..k])
      {
        OneMoreSuccessor(start, goal, kept, which, k);
        InsertWithin(kept, which[k], goal);
      }
      TakeAll(which);
    }

    /** Inserts `y -> kept` for every listed `y`. */
    method InsertPredecessors(kept: int, which: seq<int>, ghost goal: Graph)
      requires Valid() && 0 <= kept < Size() && Acyclic(goal) && edges + ToNode(kept, which) <= goal
      requires forall y :: y in which ==> 0 <= y < Size()
      modifies this`deltab, this`deltaf, this`list, this`merged, this`stack, this`edges, rank, visited, ins, outs
      ensures Valid() && edges == old(edges) + ToNode(kept, which)
    {
      ghost var start := edges;
      for k := 0 to |which|
        invariant Valid() && edges == start + ToNode(kept, which[..k])
      {
        OneMorePredecessor(start, goal, kept, which, k);
        InsertWithin(which[k], kept, goal);
      }
      TakeAll(which);
    }

    method InsertMoved(kept: int, out: seq<int>, sources: seq<int>, ghost goal: Graph)
      requires Valid() && 0 <= kept < Size() && Acyclic(goal) && Within(goal, Size())
      requires goal == edges + FromNode(kept, out) + ToNode(kept, sources)
      modifies this`deltab, this`deltaf, this`list, this`merged, this`stack, this`edges, rank, visited, ins, outs
      ensures Valid() && edges == goal
    {
      forall y | y in out
        ensures 0 <= y < Size()
      {
        assert (kept, y) in goal;
      }
      forall y | y in sources
        ensures 0 <= y < Size()
      {
        assert (y, kept) in goal;
      }
      InsertSuccessors(kept, out, goal);
      InsertPredecessors(kept, sources, goal);
    }

    /** Merges `gone`, which has no path to or from `kept`, into `kept`. */
    method MergeInto(kept: int, gone: int)
      requires Valid() && 0 <= kept < Size() && 0 <= gone < Size() && kept != gone
      requires !Reaches(edges, kept, gone) && !Reaches(edges, gone, kept)
      modifies this`deltab, this`deltaf, this`list, this`merged, this`stack, this`edges, this`freeNodes
      modifies rank, visited, ins, outs
      ensures Valid() && edges == Contracted(old(edges), kept, gone)
      ensures freeNodes == old(freeNodes) + [gone]
    {
      MergeIsAcyclic(edges, rank[..], kept, gone);
      var out, sources := FreeNode(gone);
      MergedEdges(old(edges), kept, gone, out, sources);
      InsertMoved(kept, out, sources, Contracted(old(edges), kept, gone));
    }

    /** Merges two nodes without a path between them, keeping `b` only if it has more edges. */
    method MergeEnds(a: int, b: int) returns (kept: int)
      requires Valid() && 0 <= a < Size() && 0 <= b < Size() && a != b
      requires !Reaches(edges, a, b) && !Reaches(edges, b, a)
      modifies this`deltab, this`deltaf, this`list, this`merged, this`stack, this`edges, this`freeNodes
      modifies rank, visited, ins, outs
      ensures Valid() && (kept == a || kept == b)
      ensures kept == b <==> |EdgesAt(old(edges), a)| < |EdgesAt(old(edges), b)|
      ensures var gone := if kept == a then b else a;
              edges == Contracted(old(edges), kept, gone) && freeNodes == old(freeNodes) + [gone]
    {
      var degreeA := Degree(a);
      var degreeB := Degree(b);
      var gone;
      kept, gone := a, b;
      if degreeB > degreeA {
        kept, gone := b, a;
      }
      MergeInto(kept, gone);
    }

    /** Takes the edge out and looks for another path; if there is one, the edge goes in again. */
    method RemoveUnlessBridged(a: int, b: int) returns (bridged: bool)
      requires Valid() && (a, b) in edges
      modifies this`deltab, this`deltaf, this`list, this`merged, this`stack, this`edges, rank, visited, outs[a], ins[b]
      ensures Valid() && rank[..] == old(rank[..])
      ensures bridged <==> Reaches(old(edges) - {(a, b)}, a, b)
      ensures edges == if bridged then old(edges) else old(edges) - {(a, b)}
    {
      EndsDiffer(edges, rank[..], a, b);
      RanksShowAcyclic(edges, rank[..]);
      RemoveEdge(a, b);
      bridged := IsReachable(a, b);
      if bridged {
        RedoEdge(old(edges), a, b);
        var restored := InsertEdge(a, b);
        ChangedNowhere(old(rank[..]), rank[..], old(rank[b]), old(rank[a]));
      }
    }

    /** Merges the ends of the edge `a -> b`, keeping the one with more other edges, unless another
        path leads from `a` to `b`. */
    method ContractEdge(a: int, b: int) returns (survivor: Option<int>)
      requires Valid() && (a, b) in edges
      modifies this`deltab, this`deltaf, this`list, this`merged, this`stack, this`edges, this`freeNodes
      modifies rank, visited, ins, outs
      ensures Valid()
      ensures survivor.None? <==> Reaches(old(edges) - {(a, b)}, a, b)
      ensures survivor.None? ==> edges == old(edges) && freeNodes == old(freeNodes) && rank[..] == old(rank[..])
      ensures survivor.Some? ==> survivor.value == a || survivor.value == b
      ensures survivor.Some? ==> var rest := old(edges) - {(a, b)};
                                 survivor.value == b <==> |EdgesAt(rest, a)| < |EdgesAt(rest, b)|
      ensures survivor.Some? ==> var kept := survivor.value;
                                 var gone := if kept == a then b else a;
                                 edges == Contracted(old(edges), kept, gone) && freeNodes == old(freeNodes) + [gone]
    {
      EndsDiffer(edges, rank[..], a, b);
      ContractedWithoutEdge(edges, a, b);
      var bridged := RemoveUnlessBridged(a, b);
      if bridged {
        return None;
      }
      LowerRankUnreachable(edges, rank[..], b, a);
      var kept := MergeEnds(a, b);
      return Some(kept);
    }

    /** Every live node once, and no node before one that it reaches. */
    method AllNodesInPostOrder() returns (order: seq<int>)
      requires Valid()
      ensures Distinct(order)
      ensures forall n :: n in order <==> 0 <= n < Size() && n !in freeNodes
      ensures forall i, j :: 0 <= i < j < |order| ==> !Reaches(edges, order[i], order[j])
    {
      var freeNodesSet := set n | n in freeNodes;
      var allNodes: seq<int> := [];
      for i := 0 to Size()
        invariant Distinct(allNodes)
        invariant forall n :: n in allNodes <==> 0 <= n < i && n !in freeNodes
      {
        if i !in freeNodesSet {
          allNodes := allNodes + [i];
        }
      }
      assert forall k :: 0 <= k < |allNodes| ==> allNodes[k] in allNodes;
      order := SortInPostOrder(rank[..], allNodes);
      ghost var ranks := rank[..];
      forall i, j | 0 <= i < j < |order|
        ensures !Reaches(edges, order[i], order[j])
      {
        LowerRankUnreachable(edges, ranks, order[i], order[j]);
      }
    }
  }

  ghost function FromNode(kept: int, which: seq<int>): Graph {
    set y | y in which :: (kept, y)
  }

  ghost function ToNode(kept: int, which: seq<int>): Graph {
    set y | y in which :: (y, kept)
  }

  lemma EdgesOfPrefix(kept: int, which: seq<int>, k: nat)
    requires k < |which|
    ensures FromNode(kept, which[..k + 1]) == FromNode(kept, which[..k]) + {(kept, which[k])}
    ensures ToNode(kept, which[..k + 1]) == ToNode(kept, which[..k]) + {(which[k], kept)}
    ensures which[k] in which
    ensures FromNode(kept, which[..k + 1]) <= FromNode(kept, which)
    ensures ToNode(kept, which[..k + 1]) <= ToNode(kept, which)
  {
    assert which[..k + 1] == which[..k] + [which[k]];
    forall e
      ensures e in FromNode(kept, which[..k + 1]) <==> e in FromNode(kept, which[..k]) + {(kept, which[k])}
      ensures e in ToNode(kept, which[..k + 1]) <==> e in ToNode(kept, which[..k]) + {(which[k], kept)}
    {
      assert e.1 in which[..k + 1] <==> e.1 in which[..k] || e.1 == which[k];
      assert e.0 in which[..k + 1] <==> e.0 in which[..k] || e.0 == which[k];
    }
    assert forall y :: y in which[..k + 1] ==> y in which;
  }

  lemma OneMoreSuccessor(g: Graph, goal: Graph, kept: int, which: seq<int>, k: nat)
    requires k < |which| && g + FromNode(kept, which) <= goal
    ensures g + FromNode(kept, which[..k + 1]) == g + FromNode(kept, which[..k]) + {(kept, which[k])}
    ensures g + FromNode(kept, which[..k]) <= goal && (kept, which[k]) in goal && which[k] in which
  {
    EdgesOfPrefix(kept, which, k);
    assert (kept, which[k]) in FromNode(kept, which);
  }

  lemma OneMorePredecessor(g: Graph, goal: Graph, kept: int, which: seq<int>, k: nat)
    requires k < |which| && g + ToNode(kept, which) <= goal
    ensures g + ToNode(kept, which[..k + 1]) == g + ToNode(kept, which[..k]) + {(which[k], kept)}
    ensures g + ToNode(kept, which[..k]) <= goal && (which[k], kept) in goal && which[k] in which
  {
    EdgesOfPrefix(kept, which, k);
    assert (which[k], kept) in ToNode(kept, which);
  }

  /** The contracted graph consists of the edges away from `gone` and its edges moved to `kept`. */
  lemma MergedEdges(g: Graph, kept: int, gone: int, out: seq<int>, sources: seq<int>)
    requires !Reaches(g, kept, gone) && !Reaches(g, gone, kept)
    requires forall e :: e in g ==> e.0 != e.1
    requires forall y :: y in out <==> (gone, y) in g
    requires forall y :: y in sources <==> (y, gone) in g
    ensures Contracted(g, kept, gone) == Without(g, gone) + FromNode(kept, out) + ToNode(kept, sources)
  {
    var c := Contracted(g, kept, gone);
    forall u, v | (u, v) in g
      ensures Rename(u, kept, gone) != Rename(v, kept, gone)
      ensures (Rename(u, kept, gone), Rename(v, kept, gone))
           in Without(g, gone) + FromNode(kept, out) + ToNode(kept, sources)
      ensures (Rename(u, kept, gone), Rename(v, kept, gone)) in c
    {
      assert (u, v).0 != (u, v).1;
      ReachesEdge(g, u, v);
      if u == gone {
        assert v in out;
      } else if v == gone {
        assert u in sources;
      }
      var e := (u, v);
      assert e in g && Rename(e.0, kept, gone) != Rename(e.1, kept, gone);
    }
    forall e | e in FromNode(kept, out)
      ensures e in c
    {
      assert (gone, e.1) in g;
    }
    forall e | e in ToNode(kept, sources)
      ensures e in c
    {
      assert (e.0, gone) in g;
    }
    forall e | e in Without(g, gone)
      ensures e in c
    {
      assert (e.0, e.1) in g;
    }
  }

  /** Without a loop at `n`, its neighbours in both directions count its edges. */
  lemma DegreeCountsEdges(g: Graph, n: int)
    requires (n, n) !in g
    ensures |EdgesAt(g, n)| == |Succ(g, n)| + |Pred(g, n)|
  {
    OneEdgePerNeighbour(n, Succ(g, n));
    OneEdgePerNeighbour(n, Pred(g, n));
    var to, from := EdgesTo(n, Succ(g, n)), EdgesFrom(n, Pred(g, n));
    forall e
      ensures e in EdgesAt(g, n) <==> e in to || e in from
      ensures !(e in to && e in from)
    {
      assert e == (e.0, e.1);
    }
    assert EdgesAt(g, n) == to + from && to !! from;
  }

  lemma EndsDiffer(g: Graph, ranks: seq<int>, a: int, b: int)
    requires Within(g, |ranks|) && RanksGrow(g, ranks) && (a, b) in g
    ensures ranks[a] < ranks[b] && a != b
  {
    assert ranks[(a, b).0] < ranks[(a, b).1];
  }

  lemma NoLoops(g: Graph, ranks: seq<int>)
    requires Within(g, |ranks|) && RanksGrow(g, ranks)
    ensures forall e :: e in g ==> e.0 != e.1
    ensures forall x :: (x, x) !in g
  {
    forall e | e in g
      ensures e.0 != e.1
    {
      assert ranks[e.0] < ranks[e.1];
    }
    assert forall x: int :: (x, x).0 == (x, x).1;
  }

  lemma MergeIsAcyclic(g: Graph, ranks: seq<int>, kept: int, gone: int)
    requires Within(g, |ranks|) && RanksGrow(g, ranks) && kept != gone
    requires !Reaches(g, kept, gone) && !Reaches(g, gone, kept)
    ensures Acyclic(Contracted(g, kept, gone)) && forall e :: e in g ==> e.0 != e.1
    ensures 0 <= kept < |ranks| ==> Within(Contracted(g, kept, gone), |ranks|)
  {
    NoLoops(g, ranks);
    RanksShowAcyclic(g, ranks);
    ContractedIsAcyclic(g, kept, gone);
  }

  lemma ContractedWithoutEdge(g: Graph, a: int, b: int)
    ensures Contracted(g - {(a, b)}, a, b) == Contracted(g, a, b)
    ensures Contracted(g - {(a, b)}, b, a) == Contracted(g, b, a)
  {
  }

  function Negated(rank: seq<int>): (r: seq<int>)
    ensures |r| == |rank| && forall i :: 0 <= i < |r| ==> r[i] == -rank[i]
  {
    seq(|rank|, i requires 0 <= i < |rank| => -rank[i])
  }

  /** The nodes in order of falling rank. */
  function SortInPostOrder(rank: seq<int>, toSort: seq<int>): (r: seq<int>)
    requires InRange(rank, toSort) && Distinct(rank) && Distinct(toSort)
    ensures InRange(rank, r) && Distinct(r)
    ensures forall x :: x in r <==> x in toSort
    ensures forall i, j :: 0 <= i < j < |r| ==> rank[r[j]] < rank[r[i]]
  {
    SortSorts(Negated(rank), toSort);
    SortByRank(Negated(rank), toSort)
  }

  lemma UndoEdge(g: Graph, x: int, y: int)
    ensures (x, y) in g ==> g + {(x, y)} == g
    ensures (x, y) !in g ==> g + {(x, y)} - {(x, y)} == g
  {
  }

  lemma RedoEdge(g: Graph, x: int, y: int)
    requires (x, y) in g
    ensures g - {(x, y)} + {(x, y)} == g
  {
  }

  lemma SameRank(ranks: seq<int>, x: int, y: int)
    requires IsRanking(ranks) && 0 <= x < |ranks| && 0 <= y < |ranks| && ranks[x] == ranks[y]
    ensures x == y
  {
  }

  /** A search that was cut at the rank of `y` and ran dry has seen everything below that rank. */
  lemma SearchIsComplete(g: Graph, rank: seq<int>, x: int, y: int, delta: seq<int>)
    requires Within(g, |rank|) && RanksGrow(g, rank) && 0 <= x < |rank| && 0 <= y < |rank|
    requires ForwardFrontier(g, rank, x, rank[y], delta, [])
    ensures !Reaches(g, x, y)
  {
    if Reaches(g, x, y) {
      var p :| IsPath(g, x, p, y);
      var s := iset i | i in delta || (0 <= i < |rank| && rank[y] < rank[i]);
      PathStaysInClosedSet(g, s, x, p, y);
    }
  }

  /** `n` new, empty adjacency sets. */
  method NewSets(n: nat, slotOf: int -> Slot) returns (sets: seq<OrderedSet>)
    ensures |sets| == n && fresh(sets)
    ensures HoldsRows(sets, EmptyRows(n))
    ensures forall i :: 0 <= i < n ==> sets[i].slot == slotOf(i)
  {
    sets := [];
    for i := 0 to n
      invariant |sets| == i && fresh(sets)
      invariant forall j :: 0 <= j < i ==> sets[j].Valid() && sets[j].Elements() == {} && sets[j].slot == slotOf(j)
    {
      var s := new OrderedSet(slotOf(i));
      sets := sets + [s];
    }
    RowsPointwise(sets, EmptyRows(n));
  }

  /** The rank of a new node is its position, and it is not visited. */
  method NewRanks(n: nat) returns (rank: array<int>, visited: array<bool>)
    ensures rank.Length == visited.Length == n && fresh(rank) && fresh(visited)
    ensures IsRanking(rank[..])
    ensures forall i :: 0 <= i < n ==> !visited[i]
  {
    rank := new int[n];
    visited := new bool[n];
    for i := 0 to n
      invariant forall j :: 0 <= j < i ==> rank[j] == j && !visited[j]
    {
      rank[i], visited[i] := i, false;
    }
  }

  method NewAdjacency(n: nat) returns (ins: seq<OrderedSet>, outs: seq<OrderedSet>)
    ensures |ins| == |outs| == n && fresh(ins) && fresh(outs) && Apart(ins) && Apart(outs)
    ensures HoldsRows(ins, EmptyRows(n)) && HoldsRows(outs, EmptyRows(n))
    ensures forall i :: 0 <= i < n ==> ins[i].slot == In(i)
    ensures forall i :: 0 <= i < n ==> outs[i].slot == Out(i)
  {
    ins := NewSets(n, i => In(i));
    outs := NewSets(n, i => Out(i));
  }
}

/** Sorting by rank, merging rank lists and handing out the merged ranks again. */
module RankOrder {
  import opened Sequences

  predicate InRange(rank: seq<int>, s: seq<int>) {
    forall i :: 0 <= i < |s| ==> 0 <= s[i] < |rank|
  }

  predicate SortedByRank(rank: seq<int>, s: seq<int>)
    requires InRange(rank, s)
  {
    forall i, j :: 0 <= i < j < |s| ==> rank[s[i]] < rank[s[j]]
  }

  predicate StrictlyIncreasing(s: seq<int>) {
    forall i, j :: 0 <= i < j < |s| ==> s[i] < s[j]
  }

  /** A ranking of `n` nodes: pairwise different values from `0` to `n - 1`. */
  predicate IsRanking(rank: seq<int>) {
    && Distinct(rank)
    && forall i :: 0 <= i < |rank| ==> 0 <= rank[i] < |rank|
  }

  // ---------------------------------------------------------------- std::sort

  function InsertByRank(rank: seq<int>, s: seq<int>, v: int): (r: seq<int>)
    requires InRange(rank, s) && 0 <= v < |rank|
    ensures InRange(rank, r) && |r| == |s| + 1
    ensures forall x :: x in r <==> x in s || x == v
  {
    if s == [] then [v]
    else if rank[v] < rank[s[0]] then [v] + s
    else
      assert s == [s[0]] + s[1..];
      [s[0]] + InsertByRank(rank, s[1..], v)
  }

  lemma SortedCons(rank: seq<int>, x: int, s: seq<int>)
    requires InRange(rank, s) && 0 <= x < |rank|
    requires SortedByRank(rank, s) && forall y :: y in s ==> rank[x] < rank[y]
    ensures SortedByRank(rank, [x] + s)
  {
    var r := [x] + s;
    forall i, j | 0 <= i < j < |r|
      ensures rank[r[i]] < rank[r[j]]
    {
      assert r[j] == s[j - 1];
    }
  }

  lemma SortedParts(rank: seq<int>, s: seq<int>)
    requires InRange(rank, s) && SortedByRank(rank, s) && s != []
    ensures SortedByRank(rank, s[1..]) && forall y :: y in s[1..] ==> rank[s[0]] < rank[y]
  {
  }

  lemma {:induction false} InsertKeepsSorted(rank: seq<int>, s: seq<int>, v: int)
    requires InRange(rank, s) && 0 <= v < |rank|
    requires Distinct(rank) && SortedByRank(rank, s) && v !in s
    ensures SortedByRank(rank, InsertByRank(rank, s, v))
    decreases |s|
  {
    if s == [] {
    } else {
      SortedParts(rank, s);
      assert s == [s[0]] + s[1..];
      if rank[v] < rank[s[0]] {
        SortedCons(rank, v, s);
      } else {
        InsertKeepsSorted(rank, s[1..], v);
        assert rank[s[0]] < rank[v];
        SortedCons(rank, s[0], InsertByRank(rank, s[1..], v));
      }
    }
  }

  /** The nodes of `s` in order of rising rank. Ranks differ, so the result is unique. */
  function SortByRank(rank: seq<int>, s: seq<int>): (r: seq<int>)
    requires InRange(rank, s)
    ensures InRange(rank, r) && |r| == |s|
    ensures forall x :: x in r <==> x in s
  {
    if s == [] then []
    else
      assert s == [s[0]] + s[1..];
      InsertByRank(rank, SortByRank(rank, s[1..]), s[0])
  }

  lemma {:induction false} SortSorts(rank: seq<int>, s: seq<int>)
    requires InRange(rank, s) && Distinct(rank) && Distinct(s)
    ensures SortedByRank(rank, SortByRank(rank, s))
    decreases |s|
  {
    if s != [] {
      SortSorts(rank, s[1..]);
      InsertKeepsSorted(rank, SortByRank(rank, s[1..]), s[0]);
    }
  }

  // ---------------------------------------------------------------- std::merge

  ghost function Merge(a: seq<int>, b: seq<int>): (m: seq<int>)
    ensures |m| == |a| + |b|
  {
    if a == [] then b
    else if b == [] then a
    else if b[0] < a[0] then [b[0]] + Merge(a, b[1..])
    else [a[0]] + Merge(a[1..], b)
  }

  method MergeRanks(a: seq<int>, b: seq<int>) returns (merged: seq<int>)
    ensures merged == Merge(a, b)
  {
    merged := [];
    var i, j := 0, 0;
    while i < |a| && j < |b|
      invariant 0 <= i <= |a| && 0 <= j <= |b|
      invariant Merge(a, b) == merged + Merge(a[i..], b[j..])
    {
      if b[j] < a[i] {
        assert b[j..][1..] == b[j + 1..];
        merged, j := merged + [b[j]], j + 1;
      } else {
        assert a[i..][1..] == a[i + 1..];
        merged, i := merged + [a[i]], i + 1;
      }
    }
    merged := merged + a[i..] + b[j..];
  }

  lemma {:induction false} MergeMembers(a: seq<int>, b: seq<int>, x: int)
    ensures x in Merge(a, b) <==> x in a || x in b
    decreases |a| + |b|
  {
    if a != [] && b != [] {
      assert a == [a[0]] + a[1..] && b == [b[0]] + b[1..];
      if b[0] < a[0] {
        MergeMembers(a, b[1..], x);
      } else {
        MergeMembers(a[1..], b, x);
      }
    }
  }

  /** The first entry of the rest of a merge is above the head that was taken. */
  lemma HeadIsBelow(head: int, a: seq<int>, b: seq<int>)
    requires forall x :: x in a || x in b ==> head < x
    ensures forall k :: 0 <= k < |Merge(a, b)| ==> head < Merge(a, b)[k]
  {
    forall k | 0 <= k < |Merge(a, b)|
      ensures head < Merge(a, b)[k]
    {
      MergeMembers(a, b, Merge(a, b)[k]);
    }
  }

  lemma IncreasingCons(x: int, s: seq<int>)
    requires StrictlyIncreasing(s) && forall k :: 0 <= k < |s| ==> x < s[k]
    ensures StrictlyIncreasing([x] + s)
  {
  }

  lemma IncreasingTail(s: seq<int>)
    requires StrictlyIncreasing(s) && s != []
    ensures StrictlyIncreasing(s[1..]) && forall x :: x in s[1..] ==> s[0] < x && x in s
    ensures forall x :: x in s ==> s[0] <= x
  {
  }

  lemma {:induction false} MergeIncreases(a: seq<int>, b: seq<int>)
    requires StrictlyIncreasing(a) && StrictlyIncreasing(b)
    requires forall x :: x in a ==> x !in b
    ensures StrictlyIncreasing(Merge(a, b))
    decreases |a| + |b|
  {
    if a != [] && b != [] {
      IncreasingTail(a);
      IncreasingTail(b);
      assert a[0] in a && b[0] in b;
      if b[0] < a[0] {
        MergeIncreases(a, b[1..]);
        HeadIsBelow(b[0], a, b[1..]);
        IncreasingCons(b[0], Merge(a, b[1..]));
      } else {
        MergeIncreases(a[1..], b);
        HeadIsBelow(a[0], a[1..], b);
        IncreasingCons(a[0], Merge(a[1..], b));
      }
    }
  }

  lemma {:induction false} MergeCommutes(a: seq<int>, b: seq<int>)
    requires forall x :: x in a ==> x !in b
    ensures Merge(a, b) == Merge(b, a)
    decreases |a| + |b|
  {
    if a != [] && b != [] {
      assert a[0] in a && b[0] in b;
      if b[0] < a[0] {
        MergeCommutes(a, b[1..]);
      } else {
        MergeCommutes(a[1..], b);
      }
    }
  }

  lemma HeadIsLeast(a: seq<int>, b: seq<int>, k: nat)
    requires StrictlyIncreasing(a) && StrictlyIncreasing(b) && a != [] && b != [] && a[0] <= b[0]
    requires k < |a| + |b| - 1
    ensures a[0] <= Merge(a[1..], b)[k]
  {
    var x := Merge(a[1..], b)[k];
    MergeMembers(a[1..], b, x);
    if x in b {
      var j :| 0 <= j < |b| && b[j] == x;
    }
  }

  /** The `k`-th entry of a list lies at or after position `k` of the merge, and at or before
      position `k` counted after the whole other list. */
  lemma {:induction false} MergePosition(a: seq<int>, b: seq<int>, k: nat)
    requires StrictlyIncreasing(a) && StrictlyIncreasing(b) && k < |a|
    ensures Merge(a, b)[k] <= a[k] <= Merge(a, b)[|b| + k]
    decreases |a| + |b|
  {
    if b != [] {
      IncreasingTail(b);
      if b[0] < a[0] {
        MergePosition(a, b[1..], k);
        ConsParts(b[0], Merge(a, b[1..]));
        if k > 0 {
          MergePosition(a, b[1..], k - 1);
        }
      } else if k > 0 {
        IncreasingTail(a);
        MergePosition(a[1..], b, k - 1);
        assert a[1..][k - 1] == a[k];
      } else {
        HeadIsLeast(a, b, |b| - 1);
      }
    }
  }

  // ---------------------------------------------------------------- handing out the ranks

  function RanksOf(rank: seq<int>, s: seq<int>): (r: seq<int>)
    requires InRange(rank, s)
    ensures |r| == |s| && forall i :: 0 <= i < |s| ==> r[i] == rank[s[i]]
  {
    seq(|s|, i requires 0 <= i < |s| => rank[s[i]])
  }

  /** `after` gives the nodes of `back + front`, in this order, the rising merge of their old
      ranks and leaves every other node alone. */
  ghost predicate Reordered(before: seq<int>, after: seq<int>, back: seq<int>, front: seq<int>)
    requires InRange(before, back) && InRange(before, front)
  {
    var list := back + front;
    var merged := Merge(RanksOf(before, back), RanksOf(before, front));
    && |after| == |before|
    && (forall k :: 0 <= k < |list| ==> after[list[k]] == merged[k])
    && (forall i :: 0 <= i < |before| && i !in list ==> after[i] == before[i])
  }

  lemma ReorderedMerge(before: seq<int>, back: seq<int>, front: seq<int>)
    requires InRange(before, back) && InRange(before, front)
    requires SortedByRank(before, back) && SortedByRank(before, front)
    requires Distinct(before) && forall i :: i in back ==> i !in front
    ensures StrictlyIncreasing(Merge(RanksOf(before, back), RanksOf(before, front)))
    ensures forall k :: 0 <= k < |back| ==> Merge(RanksOf(before, back), RanksOf(before, front))[k] <= before[back[k]]
    ensures forall k :: 0 <= k < |front|
              ==> before[front[k]] <= Merge(RanksOf(before, back), RanksOf(before, front))[|back| + k]
  {
    var rb, rf := RanksOf(before, back), RanksOf(before, front);
    forall x | x in rb
      ensures x !in rf
    {
      var i :| 0 <= i < |back| && rb[i] == x;
      assert back[i] in back;
      forall j | 0 <= j < |front|
        ensures rf[j] != x
      {
        assert front[j] in front;
      }
    }
    MergeIncreases(rb, rf);
    MergeCommutes(rb, rf);
    forall k | 0 <= k < |back|
      ensures Merge(rb, rf)[k] <= before[back[k]]
    {
      MergePosition(rb, rf, k);
    }
    forall k | 0 <= k < |front|
      ensures before[front[k]] <= Merge(rb, rf)[|back| + k]
    {
      MergePosition(rf, rb, k);
    }
  }

  /** Every new rank of a listed node is the old rank of some listed node. */
  lemma ReorderedReuses(before: seq<int>, after: seq<int>, back: seq<int>, front: seq<int>, i: int) returns (j: int)
    requires InRange(before, back) && InRange(before, front)
    requires Reordered(before, after, back, front) && i in back + front
    ensures j in back + front && 0 <= j < |before| && 0 <= i < |after| && after[i] == before[j]
  {
    var rb, rf := RanksOf(before, back), RanksOf(before, front);
    var list, merged := back + front, Merge(rb, rf);
    var k :| 0 <= k < |list| && list[k] == i;
    MergeMembers(rb, rf, merged[k]);
    if merged[k] in rb {
      var m :| 0 <= m < |back| && rb[m] == merged[k];
      j := back[m];
      assert list[m] == j;
    } else {
      var m :| 0 <= m < |front| && rf[m] == merged[k];
      j := front[m];
      assert list[|back| + m] == j;
    }
  }

  /** Reordering lowers ranks in `back`, raises them in `front`, keeps the listed order and ends
      in a ranking again. */
  lemma ReorderedRanks(before: seq<int>, after: seq<int>, back: seq<int>, front: seq<int>)
    requires InRange(before, back) && InRange(before, front)
    requires SortedByRank(before, back) && SortedByRank(before, front)
    requires IsRanking(before) && forall i :: i in back ==> i !in front
    requires Reordered(before, after, back, front)
    ensures InRange(after, back + front) && SortedByRank(after, back + front)
    ensures forall k :: 0 <= k < |back| ==> after[back[k]] <= before[back[k]]
    ensures forall k :: 0 <= k < |front| ==> before[front[k]] <= after[front[k]]
    ensures IsRanking(after)
  {
    var list := back + front;
    var merged := Merge(RanksOf(before, back), RanksOf(before, front));
    ReorderedMerge(before, back, front);
    forall k | 0 <= k < |back|
      ensures after[back[k]] <= before[back[k]]
    {
      assert list[k] == back[k];
    }
    forall k | 0 <= k < |front|
      ensures before[front[k]] <= after[front[k]]
    {
      assert list[|back| + k] == front[k];
    }
    forall i | 0 <= i < |after|
      ensures 0 <= after[i] < |after|
    {
      if i in list {
        var j := ReorderedReuses(before, after, back, front, i);
      }
    }
    forall i, j | 0 <= i < j < |after|
      ensures after[i] != after[j]
    {
      ReorderedKeepsDistinct(before, after, back, front, i, j);
    }
  }

  lemma ReorderedByLists(before: seq<int>, after: seq<int>, back: seq<int>, front: seq<int>, list: seq<int>,
                         merged: seq<int>)
    requires InRange(before, back) && InRange(before, front) && |after| == |before|
    requires list == back + front && merged == Merge(RanksOf(before, back), RanksOf(before, front))
    requires forall k :: 0 <= k < |list| ==> 0 <= list[k] < |after| && after[list[k]] == merged[k]
    requires forall i :: 0 <= i < |before| && i !in list ==> after[i] == before[i]
    ensures Reordered(before, after, back, front)
  {
  }

  /** Two listed nodes get two different ranks of the merge. */
  lemma ListedKeepDistinct(after: seq<int>, list: seq<int>, merged: seq<int>, i: int, j: int)
    requires StrictlyIncreasing(merged) && |merged| == |list| && i in list && j in list && i != j
    requires forall k :: 0 <= k < |list| ==> 0 <= list[k] < |after| && after[list[k]] == merged[k]
    ensures after[i] != after[j]
  {
    var a :| 0 <= a < |list| && list[a] == i;
    var b :| 0 <= b < |list| && list[b] == j;
    assert after[list[a]] == merged[a] && after[list[b]] == merged[b];
  }

  lemma ReorderedKeepsDistinct(before: seq<int>, after: seq<int>, back: seq<int>, front: seq<int>, i: int, j: int)
    requires InRange(before, back) && InRange(before, front)
    requires Distinct(before) && Reordered(before, after, back, front)
    requires StrictlyIncreasing(Merge(RanksOf(before, back), RanksOf(before, front)))
    requires 0 <= i < |after| && 0 <= j < |after| && i != j
    ensures after[i] != after[j]
  {
    var list := back + front;
    if i in list && j in list {
      ListedKeepDistinct(after, list, Merge(RanksOf(before, back), RanksOf(before, front)), i, j);
    } else if i in list {
      var k := ReorderedReuses(before, after, back, front, i);
    } else if j in list {
      var k := ReorderedReuses(before, after, back, front, j);
    }
  }
}

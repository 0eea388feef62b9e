/** Finite directed graphs as sets of edges: paths, reachability, cycles, contraction. */
module Digraphs {

  type Graph = set<(int, int)>

  /** `p` lists the nodes visited after `x` on a walk that ends in `y`. */
  ghost predicate IsPath(g: Graph, x: int, p: seq<int>, y: int)
    decreases |p|
  {
    if p == [] then x == y
    else (x, p[0]) in g && IsPath(g, p[0], p[1..], y)
  }

  ghost predicate Reaches(g: Graph, x: int, y: int) {
    exists p :: IsPath(g, x, p, y)
  }

  /** No edge closes a cycle; a self-loop is the cycle with the empty return path. */
  ghost predicate Acyclic(g: Graph) {
    forall x, y :: (x, y) in g ==> !Reaches(g, y, x)
  }

  /** The graph with `gone` merged into `kept`; an edge between the two disappears. */
  ghost function Contracted(g: Graph, kept: int, gone: int): Graph {
    set e | e in g && Rename(e.0, kept, gone) != Rename(e.1, kept, gone)
      :: (Rename(e.0, kept, gone), Rename(e.1, kept, gone))
  }

  function Rename(x: int, kept: int, gone: int): int {
    if x == gone then kept else x
  }

  lemma {:induction false} PathConcat(g: Graph, x: int, p: seq<int>, y: int, q: seq<int>, z: int)
    requires IsPath(g, x, p, y) && IsPath(g, y, q, z)
    ensures IsPath(g, x, p + q, z)
    decreases |p|
  {
    if p == [] {
      assert p + q == q;
    } else {
      PathConcat(g, p[0], p[1..], y, q, z);
      assert (p + q)[1..] == p[1..] + q;
    }
  }

  lemma ReachesSelf(g: Graph, x: int)
    ensures Reaches(g, x, x)
  {
    assert IsPath(g, x, [], x);
  }

  lemma ReachesTransitive(g: Graph, x: int, y: int, z: int)
    requires Reaches(g, x, y) && Reaches(g, y, z)
    ensures Reaches(g, x, z)
  {
    var p :| IsPath(g, x, p, y);
    var q :| IsPath(g, y, q, z);
    PathConcat(g, x, p, y, q, z);
  }

  lemma ReachesEdge(g: Graph, x: int, y: int)
    requires (x, y) in g
    ensures Reaches(g, x, y)
  {
    assert IsPath(g, y, [y][1..], y);
    assert IsPath(g, x, [y], y);
  }

  lemma ReachesThenEdge(g: Graph, x: int, y: int, z: int)
    requires Reaches(g, x, y) && (y, z) in g
    ensures Reaches(g, x, z)
  {
    ReachesEdge(g, y, z);
    ReachesTransitive(g, x, y, z);
  }

  lemma EdgeThenReaches(g: Graph, x: int, y: int, z: int)
    requires (x, y) in g && Reaches(g, y, z)
    ensures Reaches(g, x, z)
  {
    ReachesEdge(g, x, y);
    ReachesTransitive(g, x, y, z);
  }

  /** A set closed under the edges that leave it contains everything reachable from its members. */
  lemma {:induction false} PathStaysInClosedSet(g: Graph, s: iset<int>, x: int, p: seq<int>, y: int)
    requires forall e :: e in g && e.0 in s ==> e.1 in s
    requires x in s && IsPath(g, x, p, y)
    ensures y in s
    decreases |p|
  {
    if p != [] {
      assert (x, p[0]).1 in s;
      PathStaysInClosedSet(g, s, p[0], p[1..], y);
    }
  }

  lemma {:induction false} PathInSubgraph(g: Graph, h: Graph, x: int, p: seq<int>, y: int)
    requires g <= h && IsPath(g, x, p, y)
    ensures IsPath(h, x, p, y)
    decreases |p|
  {
    if p != [] {
      PathInSubgraph(g, h, p[0], p[1..], y);
    }
  }

  lemma ReachesInSubgraph(g: Graph, h: Graph, x: int, y: int)
    requires g <= h && Reaches(g, x, y)
    ensures Reaches(h, x, y)
  {
    var p :| IsPath(g, x, p, y);
    PathInSubgraph(g, h, x, p, y);
  }

  lemma SubgraphOfAcyclic(g: Graph, h: Graph)
    requires g <= h && Acyclic(h)
    ensures Acyclic(g)
  {
    forall x, y | (x, y) in g
      ensures !Reaches(g, y, x)
    {
      if Reaches(g, y, x) {
        ReachesInSubgraph(g, h, y, x);
      }
    }
  }

  /** Ranks that grow along the edges leaving nodes below `bound` bound the ranks along a path. */
  lemma {:induction false} RankGrowsAlongPath(g: Graph, rank: int -> int, x: int, p: seq<int>, y: int)
    requires forall e :: e in g ==> rank(e.0) < rank(e.1)
    requires IsPath(g, x, p, y)
    ensures rank(x) + |p| <= rank(y)
    decreases |p|
  {
    if p != [] {
      assert rank((x, p[0]).0) < rank((x, p[0]).1);
      RankGrowsAlongPath(g, rank, p[0], p[1..], y);
    }
  }

  lemma RankGrows(g: Graph, rank: int -> int, x: int, y: int)
    requires forall e :: e in g ==> rank(e.0) < rank(e.1)
    requires Reaches(g, x, y)
    ensures x == y || rank(x) < rank(y)
  {
    var p :| IsPath(g, x, p, y);
    RankGrowsAlongPath(g, rank, x, p, y);
  }

  /** A ranking that grows along every edge shows that there is no cycle. */
  lemma RankedIsAcyclic(g: Graph, rank: int -> int)
    requires forall e :: e in g ==> rank(e.0) < rank(e.1)
    ensures Acyclic(g)
  {
    forall x, y | (x, y) in g
      ensures !Reaches(g, y, x)
    {
      assert rank((x, y).0) < rank((x, y).1);
      if Reaches(g, y, x) {
        RankGrows(g, rank, y, x);
      }
    }
  }

  // ---------------------------------------------------------------- contraction

  /** Contraction isolates `gone`, gives `kept` exactly the other edges of both nodes, and leaves
      every edge between other nodes alone. */
  lemma ContractedMeaning(g: Graph, kept: int, gone: int)
    requires kept != gone && forall x :: (x, x) !in g
    ensures forall x :: (x, gone) !in Contracted(g, kept, gone) && (gone, x) !in Contracted(g, kept, gone)
    ensures forall y :: (kept, y) in Contracted(g, kept, gone)
                   <==> y != kept && y != gone && ((kept, y) in g || (gone, y) in g)
    ensures forall x :: (x, kept) in Contracted(g, kept, gone)
                   <==> x != kept && x != gone && ((x, kept) in g || (x, gone) in g)
    ensures forall x, y :: x != kept && x != gone && y != kept && y != gone
                      ==> ((x, y) in Contracted(g, kept, gone) <==> (x, y) in g)
  {
    forall x, y | (x, y) in g && Rename(x, kept, gone) != Rename(y, kept, gone)
      ensures (Rename(x, kept, gone), Rename(y, kept, gone)) in Contracted(g, kept, gone)
    {
      var e := (x, y);
      assert e in g && Rename(e.0, kept, gone) != Rename(e.1, kept, gone);
    }
  }

  /** Every node other than `kept` on a walk of the contracted graph that starts in `kept` was
      already reachable from one of the two merged nodes. */
  lemma {:induction false} PathFromMerged(g: Graph, kept: int, gone: int, p: seq<int>, y: int)
    requires Acyclic(g) && (forall e :: e in g ==> e.0 != e.1)
    requires !Reaches(g, kept, gone) && !Reaches(g, gone, kept)
    requires IsPath(Contracted(g, kept, gone), kept, p, y)
    ensures y != kept ==> y != gone && (Reaches(g, kept, y) || Reaches(g, gone, y))
    ensures p != [] ==> y != kept
    decreases |p|
  {
    if p != [] {
      var c := Contracted(g, kept, gone);
      var q, w := p[..|p| - 1], if |p| == 1 then kept else p[|p| - 2];
      LastStep(c, kept, p, y);
      PathFromMerged(g, kept, gone, q, w);
      var e :| e in g && Rename(e.0, kept, gone) == w && Rename(e.1, kept, gone) == y && w != y;
      if q == [] {
        assert w == kept;
        ReachesEdge(g, e.0, e.1);
      } else {
        assert w != kept;
        assert e.0 == w;
        forall s | s in {kept, gone} && Reaches(g, s, w)
          ensures Reaches(g, s, e.1) && e.1 != kept && e.1 != gone
        {
          ReachesThenEdge(g, s, w, e.1);
        }
      }
    }
  }

  lemma {:induction false} LastStep(g: Graph, x: int, p: seq<int>, y: int)
    requires p != [] && IsPath(g, x, p, y)
    ensures var w := if |p| == 1 then x else p[|p| - 2];
            IsPath(g, x, p[..|p| - 1], w) && (w, y) in g
    decreases |p|
  {
    if |p| > 1 {
      LastStep(g, p[0], p[1..], y);
      assert p[1..][..|p| - 2] == p[..|p| - 1][1..];
    }
  }

  /** A walk of the contracted graph either was a walk before or goes through the merged node. */
  lemma {:induction false} PathOutsideMerged(g: Graph, kept: int, gone: int, x: int, p: seq<int>, y: int)
    requires IsPath(Contracted(g, kept, gone), x, p, y)
    ensures IsPath(g, x, p, y)
            || (Reaches(Contracted(g, kept, gone), x, kept) && Reaches(Contracted(g, kept, gone), kept, y))
    decreases |p|
  {
    var c := Contracted(g, kept, gone);
    if p != [] {
      if x == kept {
        ReachesSelf(c, kept);
      } else if p[0] == kept {
        ReachesEdge(c, x, kept);
        assert IsPath(c, kept, p[1..], y);
      } else {
        assert (x, p[0]) in g;
        PathOutsideMerged(g, kept, gone, p[0], p[1..], y);
        if !IsPath(g, p[0], p[1..], y) {
          EdgeThenReaches(c, x, p[0], kept);
        }
      }
    }
  }

  /** Merging two nodes of an acyclic graph that do not reach each other creates no cycle. */
  lemma ContractedIsAcyclic(g: Graph, kept: int, gone: int)
    requires Acyclic(g) && kept != gone
    requires !Reaches(g, kept, gone) && !Reaches(g, gone, kept)
    ensures Acyclic(Contracted(g, kept, gone))
  {
    var c := Contracted(g, kept, gone);
    forall e | e in g
      ensures e.0 != e.1
    {
      ReachesSelf(g, e.0);
      assert (e.0, e.1) in g;
    }
    forall x, y | (x, y) in c
      ensures !Reaches(c, y, x)
    {
      if Reaches(c, y, x) {
        var p :| IsPath(c, y, p, x);
        PathOutsideMerged(g, kept, gone, y, p, x);
        if x == kept || y == kept { ReachesSelf(c, kept); }
        NoCycleThroughMerged(g, kept, gone, x, y);
      }
    }
  }

  lemma NoCycleThroughMerged(g: Graph, kept: int, gone: int, x: int, y: int)
    requires Acyclic(g) && (forall e :: e in g ==> e.0 != e.1)
    requires !Reaches(g, kept, gone) && !Reaches(g, gone, kept)
    requires (x, y) in Contracted(g, kept, gone)
    ensures !Reaches(Contracted(g, kept, gone), y, kept) || !Reaches(Contracted(g, kept, gone), kept, x)
  {
    var c := Contracted(g, kept, gone);
    if Reaches(c, y, kept) && Reaches(c, kept, x) {
      var p :| IsPath(c, kept, p, x);
      var q :| IsPath(c, y, q, kept);
      assert IsPath(c, y, [y][1..], y) && IsPath(c, x, [y], y);
      PathConcat(c, x, [y], y, q, kept);
      PathConcat(c, kept, p, x, [y] + q, kept);
      PathFromMerged(g, kept, gone, p + ([y] + q), kept);
    }
  }

  /** The edges that begin or end at `n`. */
  ghost function EdgesAt(g: Graph, n: int): Graph {
    set e | e in g && (e.0 == n || e.1 == n)
  }

  ghost function EdgesTo(n: int, targets: set<int>): Graph {
    set y | y in targets :: (n, y)
  }

  ghost function EdgesFrom(n: int, sources: set<int>): Graph {
    set y | y in sources :: (y, n)
  }

  lemma SomeMember<T>(s: set<T>) returns (x: T)
    requires s != {}
    ensures x in s
  {
    x :| x in s;
  }

  lemma OneMoreNeighbour(n: int, others: set<int>, y: int)
    requires y !in others
    ensures |EdgesTo(n, others + {y})| == |EdgesTo(n, others)| + 1
    ensures |EdgesFrom(n, others + {y})| == |EdgesFrom(n, others)| + 1
  {
    assert EdgesTo(n, others + {y}) == EdgesTo(n, others) + {(n, y)};
    assert EdgesFrom(n, others + {y}) == EdgesFrom(n, others) + {(y, n)};
  }

  lemma {:induction false} OneEdgePerNeighbour(n: int, others: set<int>)
    ensures |EdgesTo(n, others)| == |EdgesFrom(n, others)| == |others|
  {
    if others != {} {
      var y := SomeMember(others);
      OneEdgePerNeighbour(n, others - {y});
      OneMoreNeighbour(n, others - {y}, y);
      assert others == others - {y} + {y};
    } else {
      assert EdgesTo(n, others) == {};
      assert EdgesFrom(n, others) == {};
    }
  }
}

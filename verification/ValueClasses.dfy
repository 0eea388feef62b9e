/** Equivalence classes of values, kept as a map from every inserted value to the leader of its class. */
module ValueClasses {
  import opened BufferProgram

  type Classes = map<Value, Value>

  function Leader(c: Classes, v: Value): Value {
    if v in c then c[v] else v
  }

  predicate Equivalent(c: Classes, a: Value, b: Value) {
    Leader(c, a) == Leader(c, b)
  }

  predicate ValidClasses(c: Classes) {
    forall v :: v in c ==> c[v] in c && c[c[v]] == c[v]
  }

  /** Joins the classes of `a` and `b` under the leader of `a`. */
  function Union(c: Classes, a: Value, b: Value): Classes {
    map v | v in c.Keys + {a, b} :: if Leader(c, v) == Leader(c, b) then Leader(c, a) else Leader(c, v)
  }

  /** The classes only grow. */
  ghost predicate Coarsens(c: Classes, d: Classes) {
    ValidClasses(d) && forall x, y :: Equivalent(c, x, y) ==> Equivalent(d, x, y)
  }

  lemma UnionLeader(c: Classes, a: Value, b: Value, v: Value)
    requires ValidClasses(c)
    ensures Leader(Union(c, a, b), v) == if Leader(c, v) == Leader(c, b) then Leader(c, a) else Leader(c, v)
  {
  }

  lemma UnionJoins(c: Classes, a: Value, b: Value)
    requires ValidClasses(c)
    ensures Coarsens(c, Union(c, a, b)) && Equivalent(Union(c, a, b), a, b)
  {
    var d := Union(c, a, b);
    forall x, y | Equivalent(c, x, y)
      ensures Equivalent(d, x, y)
    {
      UnionLeader(c, a, b, x);
      UnionLeader(c, a, b, y);
    }
    forall v | v in d
      ensures d[v] in d && d[d[v]] == d[v]
    {
      UnionLeader(c, a, b, d[v]);
      LeaderOfLeader(c, a);
      LeaderOfLeader(c, v);
    }
    UnionLeader(c, a, b, a);
    UnionLeader(c, a, b, b);
  }

  lemma LeaderOfLeader(c: Classes, v: Value)
    requires ValidClasses(c)
    ensures Leader(c, Leader(c, v)) == Leader(c, v)
  {
  }

  lemma CoarsensTransitive(c: Classes, d: Classes, e: Classes)
    requires Coarsens(c, d) && Coarsens(d, e)
    ensures Coarsens(c, e)
  {
  }
}

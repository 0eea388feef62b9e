/** A deterministic order on the values of a tree of single-block regions. */
module ValueOrder {

  /** One step down the tree: an operation's position in its block, and one of its regions. */
  datatype Step = Step(op: nat, region: nat)

  /** A region is the path that leads to it from the root; no steps stand for no region. */
  type Region = seq<Step>

  datatype Value = BlockArgument(region: Region, number: nat) | Result(region: Region, op: nat, number: nat) {
    predicate Valid() { region != [] }
  }

  function RegionNumber(r: Region): nat
    requires r != []
  {
    r[|r| - 1].region
  }

  function ParentRegion(r: Region): Region
    requires r != []
  {
    r[..|r| - 1]
  }

  /** The position, in its block, of the operation that the region belongs to. */
  function ParentOp(r: Region): nat
    requires r != []
  {
    r[|r| - 1].op
  }

  // ---------------------------------------------------------------- the order

  /** Region numbers decide, from the innermost pair outwards, until the parents meet or one chain ends. */
  predicate RegionLess(a: Region, b: Region) {
    if a == [] || b == [] then b != []
    else if RegionNumber(a) != RegionNumber(b) then RegionNumber(a) < RegionNumber(b)
    else if ParentRegion(a) == ParentRegion(b) then ParentOp(a) < ParentOp(b)
    else RegionLess(ParentRegion(a), ParentRegion(b))
  }

  /** Arguments come first, by number; results of one operation by number, of one block by position. */
  predicate Less(lhs: Value, rhs: Value) {
    if lhs.BlockArgument? != rhs.BlockArgument? then lhs.BlockArgument?
    else if lhs.BlockArgument? then
      if lhs.number != rhs.number then lhs.number < rhs.number
      else lhs.region != rhs.region && RegionLess(lhs.region, rhs.region)
    else if lhs.region != rhs.region then RegionLess(lhs.region, rhs.region)
    else if lhs.op != rhs.op then lhs.op < rhs.op
    else lhs.number < rhs.number
  }

  /** The comparator: decides at the values themselves where it can, and walks up the two region chains otherwise. */
  method Compare(lhs: Value, rhs: Value) returns (less: bool)
    requires lhs.Valid() && rhs.Valid()
    ensures less <==> Less(lhs, rhs)
    ensures lhs.BlockArgument? && rhs.Result? ==> less
    ensures lhs.BlockArgument? && rhs.BlockArgument? && lhs.number < rhs.number ==> less
    ensures lhs.Result? && rhs.Result? && lhs.region == rhs.region && lhs.op < rhs.op ==> less
    ensures lhs.Result? && rhs.Result? && lhs.region == rhs.region && lhs.op == rhs.op && lhs.number < rhs.number ==>
              less
  {
    if lhs == rhs {
      return false;
    }
    if lhs.BlockArgument? != rhs.BlockArgument? {
      return lhs.BlockArgument?;
    }
    var lhsRegion, rhsRegion := lhs.region, rhs.region;
    if lhs.BlockArgument? {
      if lhs.number != rhs.number {
        return lhs.number < rhs.number;
      }
    } else if lhs.region == rhs.region && lhs.op == rhs.op {
      return lhs.number < rhs.number;
    } else if lhsRegion == rhsRegion {
      return lhs.op < rhs.op;
    }
    while lhsRegion != [] && rhsRegion != []
      invariant lhsRegion != rhsRegion && RegionLess(lhsRegion, rhsRegion) == Less(lhs, rhs)
      decreases |lhsRegion|
    {
      if RegionNumber(lhsRegion) != RegionNumber(rhsRegion) {
        return RegionNumber(lhsRegion) < RegionNumber(rhsRegion);
      }
      if ParentRegion(lhsRegion) == ParentRegion(rhsRegion) {
        return ParentOp(lhsRegion) < ParentOp(rhsRegion);
      }
      lhsRegion, rhsRegion := ParentRegion(lhsRegion), ParentRegion(rhsRegion);
    }
    return rhsRegion != [];
  }

  // ---------------------------------------------------------------- which region is less

  /** The region `i` levels up from `r`. */
  function Ancestor(r: Region, i: nat): (a: Region)
    requires i <= |r|
    ensures a == r[..|r| - i]
    decreases i
  {
    if i == 0 then r else Ancestor(ParentRegion(r), i - 1)
  }

  /** Neither chain ends here, the region numbers agree, and the parents differ. */
  predicate Undecided(a: Region, b: Region) {
    a != [] && b != [] && RegionNumber(a) == RegionNumber(b) && ParentRegion(a) != ParentRegion(b)
  }

  /** One chain ends here, or a region number decides, or the order of two operations of one block does. */
  predicate LessHere(a: Region, b: Region) {
    || (a == [] && b != [])
    || (a != [] && b != [] && RegionNumber(a) < RegionNumber(b))
    || (&& a != [] && b != [] && RegionNumber(a) == RegionNumber(b) && ParentRegion(a) == ParentRegion(b)
        && ParentOp(a) < ParentOp(b))
  }

  /** Nothing is decided on the first `n` levels, and level `n` decides. */
  ghost predicate LessAtLevel(a: Region, b: Region, n: nat) {
    && n <= |a| && n <= |b| && LessHere(Ancestor(a, n), Ancestor(b, n))
    && forall i :: 0 <= i < n ==> Undecided(Ancestor(a, i), Ancestor(b, i))
  }

  lemma LevelUp(a: Region, b: Region, n: nat, next: nat)
    requires Undecided(a, b) && next == n + 1
    ensures LessAtLevel(ParentRegion(a), ParentRegion(b), n) <==> LessAtLevel(a, b, next)
  {
    var p, q := ParentRegion(a), ParentRegion(b);
    if LessAtLevel(p, q, n) {
      forall i | 0 <= i < next
        ensures Undecided(Ancestor(a, i), Ancestor(b, i))
      {
        assert i > 0 ==> Undecided(Ancestor(p, i - 1), Ancestor(q, i - 1));
      }
    }
    if LessAtLevel(a, b, next) {
      forall i | 0 <= i < n
        ensures Undecided(Ancestor(p, i), Ancestor(q, i))
      {
        assert Undecided(Ancestor(a, i + 1), Ancestor(b, i + 1));
      }
    }
  }

  /** One region is less than another if and only if, from the inside outwards, the first level that decides says so. */
  lemma {:induction false} RegionLessExactly(a: Region, b: Region)
    ensures RegionLess(a, b) <==> exists n :: LessAtLevel(a, b, n)
    decreases |a|
  {
    if Undecided(a, b) {
      var p, q := ParentRegion(a), ParentRegion(b);
      RegionLessExactly(p, q);
      if n: nat :| LessAtLevel(p, q, n) {
        LevelUp(a, b, n, n + 1);
      }
      if n: nat :| LessAtLevel(a, b, n) {
        assert Ancestor(a, 0) == a && Ancestor(b, 0) == b;
        LevelUp(a, b, n - 1, n);
      }
    } else {
      forall n | LessAtLevel(a, b, n)
        ensures n == 0
      {
        assert Ancestor(a, 0) == a && Ancestor(b, 0) == b;
      }
      assert RegionLess(a, b) ==> LessAtLevel(a, b, 0);
    }
  }

  // ---------------------------------------------------------------- a strict total order

  lemma SameStepSameRegion(a: Region, b: Region)
    requires a != [] && b != [] && ParentRegion(a) == ParentRegion(b)
    requires ParentOp(a) == ParentOp(b) && RegionNumber(a) == RegionNumber(b)
    ensures a == b
  {
    assert a == ParentRegion(a) + [a[|a| - 1]] && b == ParentRegion(b) + [b[|b| - 1]];
  }

  /** Of two different regions exactly one is less. */
  lemma {:induction false} RegionsTotal(a: Region, b: Region)
    ensures a == b ==> !RegionLess(a, b)
    ensures a != b ==> RegionLess(a, b) != RegionLess(b, a)
    decreases |a|
  {
    if a != [] && b != [] && a != b && RegionNumber(a) == RegionNumber(b) {
      if ParentRegion(a) != ParentRegion(b) {
        RegionsTotal(ParentRegion(a), ParentRegion(b));
      } else if ParentOp(a) == ParentOp(b) {
        SameStepSameRegion(a, b);
      }
    }
  }

  lemma {:induction false} RegionsTransitive(a: Region, b: Region, c: Region)
    requires RegionLess(a, b) && RegionLess(b, c)
    ensures RegionLess(a, c)
    decreases |a|
  {
    if a != [] && RegionNumber(a) == RegionNumber(b) == RegionNumber(c) {
      var p, q, r := ParentRegion(a), ParentRegion(b), ParentRegion(c);
      if p != q && q != r {
        RegionsTransitive(p, q, r);
        RegionsTotal(p, q);
      }
    }
  }

  /** No value is less than itself, and of two different values exactly one is less than the other. */
  lemma LessTotal(v: Value, w: Value)
    ensures !Less(v, v)
    ensures v != w ==> Less(v, w) != Less(w, v)
  {
    RegionsTotal(v.region, w.region);
  }

  lemma LessTransitive(u: Value, v: Value, w: Value)
    requires Less(u, v) && Less(v, w)
    ensures Less(u, w)
  {
    RegionsTotal(u.region, v.region);
    if u.region != v.region && v.region != w.region && RegionLess(u.region, v.region)
       && RegionLess(v.region, w.region)
    {
      RegionsTransitive(u.region, v.region, w.region);
    }
  }
}

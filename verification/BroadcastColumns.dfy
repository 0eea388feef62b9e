/** Shapes seen as right-aligned columns, runs of columns with one broadcast set, and the
    addresses of a broadcast. */
module BroadcastColumns {
  import opened IndexArithmetic
  import opened Sequences

  /** A column of the right-aligned shapes: the size the others are broadcast to, and for each
      shape whether it has that size itself. */
  datatype Column = Column(size: nat, own: seq<bool>)

  /** The size of a shape `v` places from its end; shapes are extended with leading ones. */
  function SizeAt(shape: seq<nat>, v: nat): nat
    requires v > 0
  {
    if |shape| < v then 1 else shape[|shape| - v]
  }

  /** The last size of the column that is not one. */
  function CommonSize(shapes: seq<seq<nat>>, v: nat): nat
    requires v > 0
  {
    if shapes == [] then 1
    else
      var k := |shapes| - 1;
      if SizeAt(shapes[k], v) != 1 then SizeAt(shapes[k], v) else CommonSize(shapes[..k], v)
  }

  function ColumnAt(shapes: seq<seq<nat>>, v: nat): (c: Column)
    requires v > 0
    ensures |c.own| == |shapes|
  {
    Column(CommonSize(shapes, v), seq(|shapes|, i requires 0 <= i < |shapes| => SizeAt(shapes[i], v) != 1))
  }

  /** Columns `1` to `n`, the last dimension first. */
  function Columns(shapes: seq<seq<nat>>, n: nat): (cs: seq<Column>)
    ensures |cs| == n
    ensures forall j :: 0 <= j < n ==> cs[j] == ColumnAt(shapes, j + 1)
  {
    if n == 0 then [] else Columns(shapes, n - 1) + [ColumnAt(shapes, n)]
  }

  /** Two shapes disagree: both have a size other than one in the column, and not the same. */
  ghost predicate Clash(shapes: seq<seq<nat>>, v: nat)
    requires v > 0
  {
    exists i, j :: 0 <= i < j < |shapes| && SizeAt(shapes[i], v) != 1 && SizeAt(shapes[j], v) != 1
                   && SizeAt(shapes[i], v) != SizeAt(shapes[j], v)
  }

  /** The shapes can be broadcast together. */
  ghost predicate Compatible(shapes: seq<seq<nat>>) {
    forall v :: v > 0 ==> !Clash(shapes, v)
  }

  /** Columns of size one are dropped and neighbours with one broadcast set are multiplied. */
  function Collapse(cols: seq<Column>): seq<Column> {
    if cols == [] then [] else Absorb(Collapse(cols[..|cols| - 1]), cols[|cols| - 1])
  }

  function Absorb(g: seq<Column>, c: Column): seq<Column> {
    if c.size == 1 then g
    else if g != [] && g[|g| - 1].own == c.own then g[..|g| - 1] + [Column(g[|g| - 1].size * c.size, c.own)]
    else g + [c]
  }

  /** The size that shape `i` itself has in column `c`. */
  function OwnSize(c: Column, i: nat): nat
    requires i < |c.own|
  {
    if c.own[i] then c.size else 1
  }

  ghost predicate Wide(cols: seq<Column>, k: nat) {
    forall j :: 0 <= j < |cols| ==> |cols[j].own| == k
  }

  function OwnSizes(cols: seq<Column>, i: nat): (s: seq<nat>)
    requires forall j :: 0 <= j < |cols| ==> i < |cols[j].own|
    ensures |s| == |cols| && forall j :: 0 <= j < |cols| ==> s[j] == OwnSize(cols[j], i)
  {
    seq(|cols|, j requires 0 <= j < |cols| => OwnSize(cols[j], i))
  }

  function Sizes(cols: seq<Column>): (s: seq<nat>)
    ensures |s| == |cols| && forall j :: 0 <= j < |cols| ==> s[j] == cols[j].size
  {
    seq(|cols|, j requires 0 <= j < |cols| => cols[j].size)
  }

  function Product(s: seq<nat>): nat {
    if s == [] then 1 else Product(s[..|s| - 1]) * s[|s| - 1]
  }

  // ---------------------------------------------------------------- addresses

  /** The coordinates of flat index `f`, fastest dimension first. */
  function Coordinates(dims: seq<nat>, f: nat): (c: seq<nat>)
    requires forall j :: 0 <= j < |dims| ==> dims[j] > 0
    ensures |c| == |dims|
  {
    if dims == [] then [] else [f % dims[0]] + Coordinates(dims[1..], f / dims[0])
  }

  /** The flat index, in a shape with sizes `own`, of the element broadcast to `coordinates`. */
  function Offset(own: seq<nat>, coordinates: seq<nat>): nat
    requires |own| == |coordinates|
  {
    if own == [] then 0
    else (if own[0] == 1 then 0 else coordinates[0]) + own[0] * Offset(own[1..], coordinates[1..])
  }

  /** Where element `f` of the broadcast result comes from. */
  function Address(own: seq<nat>, dims: seq<nat>, f: nat): nat
    requires |own| == |dims| && forall j :: 0 <= j < |dims| ==> dims[j] > 0
  {
    Offset(own, Coordinates(dims, f))
  }

  lemma {:induction false} ProductFront(s: seq<nat>)
    requires s != []
    ensures Product(s) == s[0] * Product(s[1..])
    decreases |s|
  {
    if |s| > 1 {
      var n := |s| - 1;
      ProductFront(s[..n]);
      assert s[..n][1..] == s[1..][..n - 1];
      assert Product(s) == s[0] * Product(s[1..][..n - 1]) * s[n];
      MulAssociates(s[0], Product(s[1..][..n - 1]), s[n]);
    }
  }

  lemma {:induction false} ProductPositive(s: seq<nat>)
    requires forall j :: 0 <= j < |s| ==> s[j] > 0
    ensures Product(s) > 0
    decreases |s|
  {
    if s != [] {
      ProductPositive(s[..|s| - 1]);
    }
  }

  /** Adding a slowest dimension. */
  lemma {:induction false} AddressSnoc(own: seq<nat>, dims: seq<nat>, o: nat, d: nat, f: nat)
    requires |own| == |dims| && d > 0 && forall j :: 0 <= j < |dims| ==> dims[j] > 0
    ensures Product(dims) > 0
    ensures Address(own + [o], dims + [d], f) == Address(own, dims, f) + Product(own) * Digit(o, f / Product(dims), d)
    decreases |own|
  {
    ProductPositive(dims);
    OffsetStep(own + [o], dims + [d], f);
    if own == [] {
      assert (own + [o])[1..] == [] && (dims + [d])[1..] == [];
    } else {
      var q, rest := f / dims[0], Product(dims[1..]);
      AddressSnoc(own[1..], dims[1..], o, d, q);
      assert (own + [o])[1..] == own[1..] + [o] && (dims + [d])[1..] == dims[1..] + [d];
      ProductFront(own);
      ProductFront(dims);
      DivDiv(f, dims[0], rest);
      OffsetStep(own, dims, f);
      var digit := Digit(o, q / rest, d);
      MulDistributes(own[0], Address(own[1..], dims[1..], q), Product(own[1..]) * digit);
      MulAssociates(own[0], Product(own[1..]), digit);
    }
  }

  /** The last coordinate of index `x`, or zero where the shape is broadcast. */
  function Digit(own: nat, x: nat, dim: nat): nat
    requires dim > 0
  {
    if own == 1 then 0 else x % dim
  }

  lemma OffsetStep(own: seq<nat>, dims: seq<nat>, f: nat)
    requires |own| == |dims| > 0 && forall j :: 0 <= j < |dims| ==> dims[j] > 0
    ensures Address(own, dims, f)
         == (if own[0] == 1 then 0 else f % dims[0]) + own[0] * Address(own[1..], dims[1..], f / dims[0])
  {
    var c := Coordinates(dims, f);
    assert c[1..] == Coordinates(dims[1..], f / dims[0]);
  }

  // ---------------------------------------------------------------- collapsing

  /** `k` shapes wide, and a shape has the size of a column only if that size is not one. */
  ghost predicate ProperColumn(c: Column, k: nat) {
    && |c.own| == k
    && (c.size == 1 <==> forall i :: 0 <= i < k ==> !c.own[i])
  }

  ghost predicate Proper(cols: seq<Column>, k: nat) {
    forall j :: 0 <= j < |cols| ==> ProperColumn(cols[j], k)
  }

  lemma NonUnitProduct(a: nat, b: nat)
    requires a != 1 && b != 1
    ensures a * b != 1
  {
    if a > 1 && b > 1 {
      MulMonotone(a, 2, b);
    }
  }

  /** Groups are proper, are never of size one, and neighbours have different broadcast sets. */
  lemma {:induction false} CollapsedGroups(cols: seq<Column>, k: nat)
    requires Proper(cols, k)
    ensures Proper(Collapse(cols), k) && |Collapse(cols)| <= |cols|
    ensures forall j :: 0 <= j < |Collapse(cols)| ==> Collapse(cols)[j].size != 1
    ensures forall j :: 0 < j < |Collapse(cols)| ==> Collapse(cols)[j - 1].own != Collapse(cols)[j].own
    decreases |cols|
  {
    if cols != [] {
      var n := |cols| - 1;
      CollapsedGroups(cols[..n], k);
      var g, c := Collapse(cols[..n]), cols[n];
      if c.size != 1 && g != [] && g[|g| - 1].own == c.own {
        NonUnitProduct(g[|g| - 1].size, c.size);
      }
    }
  }

  lemma CountSnoc(cols: seq<Column>, c: Column, k: nat, i: nat)
    requires Proper(cols, k) && ProperColumn(c, k) && i < k
    ensures Product(Sizes(cols + [c])) == Product(Sizes(cols)) * c.size
    ensures Product(OwnSizes(cols + [c], i)) == Product(OwnSizes(cols, i)) * OwnSize(c, i)
  {
    assert Sizes(cols + [c])[..|cols|] == Sizes(cols);
    assert OwnSizes(cols + [c], i)[..|cols|] == OwnSizes(cols, i);
  }

  lemma MergeKeepsCounts(h: seq<Column>, last: Column, size: nat, k: nat, i: nat)
    requires Proper(h + [last], k) && i < k && last.size != 1 && size != 1
    ensures Proper(h + [Column(last.size * size, last.own)], k)
    ensures Product(Sizes(h + [Column(last.size * size, last.own)])) == Product(Sizes(h + [last])) * size
    ensures Product(OwnSizes(h + [Column(last.size * size, last.own)], i))
         == Product(OwnSizes(h + [last], i)) * (if last.own[i] then size else 1)
  {
    ProperSnoc(h, last, k);
    NonUnitProduct(last.size, size);
    CountSnoc(h, last, k, i);
    CountSnoc(h, Column(last.size * size, last.own), k, i);
    MulAssociates(Product(Sizes(h)), last.size, size);
    MulAssociates(Product(OwnSizes(h, i)), last.size, size);
  }

  lemma ProperSnoc(h: seq<Column>, last: Column, k: nat)
    requires Proper(h + [last], k)
    ensures Proper(h, k) && ProperColumn(last, k)
  {
    assert forall j :: 0 <= j < |h| ==> (h + [last])[j] == h[j];
    assert (h + [last])[|h|] == last;
  }

  lemma AbsorbKeepsCounts(g: seq<Column>, c: Column, k: nat, i: nat)
    requires Proper(g, k) && ProperColumn(c, k) && i < k && Proper(Absorb(g, c), k)
    requires forall j :: 0 <= j < |g| ==> g[j].size != 1
    ensures Product(Sizes(Absorb(g, c))) == Product(Sizes(g)) * c.size
    ensures Product(OwnSizes(Absorb(g, c), i)) == Product(OwnSizes(g, i)) * OwnSize(c, i)
  {
    if c.size != 1 {
      if g != [] && g[|g| - 1].own == c.own {
        SplitLast(g);
        MergeKeepsCounts(g[..|g| - 1], g[|g| - 1], c.size, k, i);
      } else {
        CountSnoc(g, c, k, i);
      }
    }
  }

  /** Collapsing keeps the number of elements of the broadcast and of every shape. */
  lemma {:induction false} CollapseKeepsCounts(cols: seq<Column>, k: nat, i: nat)
    requires Proper(cols, k) && i < k
    ensures Proper(Collapse(cols), k)
    ensures Product(Sizes(Collapse(cols))) == Product(Sizes(cols))
    ensures Product(OwnSizes(Collapse(cols), i)) == Product(OwnSizes(cols, i))
    decreases |cols|
  {
    CollapsedGroups(cols, k);
    if cols != [] {
      var front, c := cols[..|cols| - 1], cols[|cols| - 1];
      assert cols == front + [c];
      CollapseKeepsCounts(front, k, i);
      CollapsedGroups(front, k);
      CountSnoc(front, c, k, i);
      AbsorbKeepsCounts(Collapse(front), c, k, i);
    }
  }

  ghost predicate PositiveSizes(cols: seq<Column>) {
    forall j :: 0 <= j < |cols| ==> cols[j].size > 0
  }

  lemma {:induction false} CollapseKeepsPositive(cols: seq<Column>)
    requires PositiveSizes(cols)
    ensures PositiveSizes(Collapse(cols))
    decreases |cols|
  {
    if cols != [] {
      var n := |cols| - 1;
      CollapseKeepsPositive(cols[..n]);
      var g := Collapse(cols[..n]);
      if g != [] {
        MulPositive(g[|g| - 1].size, cols[n].size);
      }
    }
  }

  /** The address of shape `i` through a list of columns, taken apart at the last column. */
  lemma ColumnSnoc(cols: seq<Column>, c: Column, k: nat, i: nat, f: nat)
    requires Proper(cols, k) && ProperColumn(c, k) && i < k && PositiveSizes(cols + [c])
    ensures PositiveSizes(cols) && Product(Sizes(cols)) > 0 && c.size > 0
    ensures Address(OwnSizes(cols + [c], i), Sizes(cols + [c]), f)
         == Address(OwnSizes(cols, i), Sizes(cols), f)
            + Product(OwnSizes(cols, i)) * (if c.own[i] then (f / Product(Sizes(cols))) % c.size else 0)
  {
    assert forall j :: 0 <= j < |cols| ==> cols[j] == (cols + [c])[j];
    assert c == (cols + [c])[|cols|];
    AddressSnoc(OwnSizes(cols, i), Sizes(cols), OwnSize(c, i), c.size, f);
    assert OwnSizes(cols + [c], i) == OwnSizes(cols, i) + [OwnSize(c, i)];
    assert Sizes(cols + [c]) == Sizes(cols) + [c.size];
  }

  /** Merging two neighbouring columns with one broadcast set moves no element. */
  lemma MergedColumn(g: seq<Column>, a: nat, b: nat, own: seq<bool>, k: nat, i: nat, f: nat)
    requires Proper(g, k) && PositiveSizes(g) && i < k && a > 0 && b > 0
    requires ProperColumn(Column(a, own), k) && ProperColumn(Column(b, own), k)
    requires a != 1 && b != 1
    ensures a * b > 0 && PositiveSizes(g + [Column(a * b, own)]) && PositiveSizes(g + [Column(a, own)])
    ensures ProperColumn(Column(a * b, own), k)
    ensures Product(Sizes(g + [Column(a, own)])) > 0
    ensures Address(OwnSizes(g + [Column(a * b, own)], i), Sizes(g + [Column(a * b, own)]), f)
         == Address(OwnSizes(g + [Column(a, own)], i), Sizes(g + [Column(a, own)]), f)
            + Product(OwnSizes(g + [Column(a, own)], i))
              * (if own[i] then (f / Product(Sizes(g + [Column(a, own)]))) % b else 0)
  {
    MulPositive(a, b);
    NonUnitProduct(a, b);
    ColumnSnoc(g, Column(a, own), k, i, f);
    ColumnSnoc(g, Column(a * b, own), k, i, f);
    CountSnoc(g, Column(a, own), k, i);
    var p, w := Product(Sizes(g)), Product(OwnSizes(g, i));
    MulPositive(p, a);
    if own[i] {
      var x := f / p;
      DivDiv(f, p, a);
      DivDiv(x, a, b);
      MulDistributes(w, x % a, a * ((x / a) % b));
      MulAssociates(w, a, (x / a) % b);
    }
  }

  lemma LastOfProper(g: seq<Column>, k: nat)
    requires Proper(g, k) && PositiveSizes(g) && g != []
    ensures Proper(g[..|g| - 1], k) && PositiveSizes(g[..|g| - 1])
    ensures ProperColumn(g[|g| - 1], k) && g[|g| - 1].size > 0 && g == g[..|g| - 1] + [g[|g| - 1]]
  {
  }

  lemma RestOfOne(w: int, x: int)
    ensures x % 1 == 0 && w * (x % 1) == 0 && w * 0 == 0
  {
  }

  lemma AbsorbMovesNothing(g: seq<Column>, c: Column, k: nat, i: nat, f: nat)
    requires Proper(g, k) && ProperColumn(c, k) && i < k && Proper(Absorb(g, c), k)
    requires PositiveSizes(g) && c.size > 0 && forall j :: 0 <= j < |g| ==> g[j].size != 1
    ensures PositiveSizes(Absorb(g, c)) && Product(Sizes(g)) > 0
    ensures Address(OwnSizes(Absorb(g, c), i), Sizes(Absorb(g, c)), f)
         == Address(OwnSizes(g, i), Sizes(g), f)
            + Product(OwnSizes(g, i)) * (if c.own[i] then (f / Product(Sizes(g))) % c.size else 0)
  {
    ProductPositive(Sizes(g));
    if c.size == 1 {
      RestOfOne(Product(OwnSizes(g, i)), f / Product(Sizes(g)));
    } else if g != [] && g[|g| - 1].own == c.own {
      LastOfProper(g, k);
      var h, last := g[..|g| - 1], g[|g| - 1];
      assert last == Column(last.size, c.own) && last.size != 1;
      MergedColumn(h, last.size, c.size, c.own, k, i, f);
    } else {
      ColumnSnoc(g, c, k, i, f);
    }
  }

  /** Every flat index of the broadcast result addresses the same element of shape `i` through
      the collapsed columns as through the original ones. */
  lemma {:induction false} CollapseKeepsAddress(cols: seq<Column>, k: nat, i: nat, f: nat)
    requires Proper(cols, k) && i < k && PositiveSizes(cols)
    ensures Proper(Collapse(cols), k) && PositiveSizes(Collapse(cols))
    ensures Address(OwnSizes(Collapse(cols), i), Sizes(Collapse(cols)), f) == Address(OwnSizes(cols, i), Sizes(cols), f)
    decreases |cols|
  {
    CollapseKeepsPositive(cols);
    CollapsedGroups(cols, k);
    if cols != [] {
      var front, c := cols[..|cols| - 1], cols[|cols| - 1];
      assert cols == front + [c];
      CollapseKeepsAddress(front, k, i, f);
      CollapseKeepsCounts(front, k, i);
      CollapsedGroups(front, k);
      ColumnSnoc(front, c, k, i, f);
      AbsorbMovesNothing(Collapse(front), c, k, i, f);
    }
  }
}

/** Division with remainder, products and the digits of an index. */
module IndexArithmetic {

  lemma MulAssociates(x: int, y: int, z: int)
    ensures (x * y) * z == x * (y * z)
  {
  }

  lemma MulDistributes(x: int, y: int, z: int)
    ensures x * (y + z) == x * y + x * z
  {
  }

  lemma Regroup(i: int, high: int, low: int, a: int, b: int)
    ensures i * (high * low) + (a * low + b) == (i * high + a) * low + b
  {
    MulAssociates(i, high, low);
    MulDistributes(low, i * high, a);
  }

  lemma MulMonotone(m: int, a: int, b: int)
    requires 0 <= m && a <= b
    ensures m * a <= m * b
  {
  }

  lemma MulPositive(a: int, b: int)
    requires a > 0 && b > 0
    ensures a * b > 0
  {
  }

  lemma QuotientUnique(m: int, q: int, r: int, q': int, r': int)
    requires m * q + r == m * q' + r' && 0 <= r < m && 0 <= r' < m
    ensures q == q' && r == r'
  {
    if q < q' {
      MulMonotone(m, q + 1, q');
      MulDistributes(m, q, 1);
    } else if q' < q {
      MulMonotone(m, q' + 1, q);
      MulDistributes(m, q', 1);
    }
  }

  /** The quotient and remainder of `m * q + r`. */
  lemma DivMod(f: int, m: int, q: int, r: int)
    requires m > 0 && f == m * q + r && 0 <= r < m
    ensures f / m == q && f % m == r
  {
    QuotientUnique(m, q, r, f / m, f % m);
  }

  /** Dividing in two steps, and the remainder it leaves. */
  lemma DivDiv(f: int, a: int, b: int)
    requires a > 0 && b > 0
    ensures a * b > 0
    ensures f / (a * b) == (f / a) / b
    ensures f % (a * b) == f % a + a * ((f / a) % b)
  {
    MulPositive(a, b);
    var q, r := f / a, f % a;
    var q2, r2 := q / b, q % b;
    MulAssociates(a, b, q2);
    MulDistributes(a, b * q2, r2);
    assert f == (a * b) * q2 + (a * r2 + r);
    MulMonotone(a, r2, b - 1);
    MulDistributes(a, b - 1, 1);
    MulMonotone(a, 0, r2);
    DivMod(f, a * b, q2, a * r2 + r);
  }

  // ---------------------------------------------------------------- counting rows

  /** The number of elements in `count` rows: a product, kept apart from the solver's products. */
  function Times(count: nat, row: nat): nat {
    if count == 0 then 0 else Times(count - 1, row) + row
  }

  lemma {:induction false} TimesIsProduct(count: nat, row: nat)
    ensures Times(count, row) == count * row
    decreases count
  {
    if count > 0 {
      TimesIsProduct(count - 1, row);
      MulDistributes(row, count - 1, 1);
    }
  }

  lemma {:induction false} TimesAdd(a: nat, b: nat, row: nat)
    ensures Times(a + b, row) == Times(a, row) + Times(b, row)
    decreases b
  {
    if b > 0 {
      TimesAdd(a, b - 1, row);
    }
  }

  lemma {:induction false} TimesAssociates(a: nat, b: nat, c: nat)
    ensures Times(Times(a, b), c) == Times(a, Times(b, c))
    decreases a
  {
    if a > 0 {
      TimesAssociates(a - 1, b, c);
      TimesAdd(Times(a - 1, b), b, c);
    }
  }

  lemma {:induction false} TimesFit(i: nat, n: nat, row: nat)
    requires i < n
    ensures Times(i, row) + row <= Times(n, row)
    decreases n
  {
    if i < n - 1 {
      TimesFit(i, n - 1, row);
    }
  }

  lemma TimesPositive(count: nat, row: nat)
    ensures Times(count, row) > 0 <==> count > 0 && row > 0
  {
    TimesIsProduct(count, row);
  }

  /** Quotient and remainder of an element in the rows. */
  lemma TimesDigits(f: nat, row: nat, q: nat, r: nat)
    requires r < row && f == Times(q, row) + r
    ensures f / row == q && f % row == r
  {
    TimesIsProduct(q, row);
    DivMod(f, row, q, r);
  }

  lemma DivTimes(f: nat, row: nat)
    requires row > 0
    ensures f / row >= 0 && 0 <= f % row < row && f == Times(f / row, row) + f % row
  {
    TimesIsProduct(f / row, row);
  }

  /** An element of `n` rows lies in one of them. */
  lemma TimesQuotient(f: nat, n: nat, row: nat)
    requires f < Times(n, row)
    ensures row > 0 && n > 0 && f / row < n && f % row < row && f == Times(f / row, row) + f % row
  {
    TimesPositive(n, row);
    DivTimes(f, row);
    if n < f / row {
      TimesFit(n, f / row, row);
    }
  }

  lemma TimesUnique(row: nat, q: nat, r: nat, q': nat, r': nat)
    requires r < row && r' < row && Times(q, row) + r == Times(q', row) + r'
    ensures q == q' && r == r'
  {
    if q < q' {
      TimesFit(q, q', row);
    } else if q' < q {
      TimesFit(q', q, row);
    }
  }

  // ---------------------------------------------------------------- blocks of windows

  /** Element `low` of window `window` of block `block`. */
  function FlatAt(block: nat, stride: nat, window: nat, size: nat, low: nat): nat {
    Times(block, stride) + (Times(window, size) + low)
  }

  /** Block, window and rest of a position are unique. */
  lemma FlatAtUnique(stride: nat, n: nat, size: nat, b: nat, w: nat, l: nat, b': nat, w': nat, l': nat)
    requires stride == Times(n, size) && w < n && w' < n && l < size && l' < size
    requires FlatAt(b, stride, w, size, l) == FlatAt(b', stride, w', size, l')
    ensures b == b' && w == w' && l == l'
  {
    TimesFit(w, n, size);
    TimesFit(w', n, size);
    TimesUnique(stride, b, Times(w, size) + l, b', Times(w', size) + l');
    TimesUnique(size, w, l, w', l');
  }

  lemma FlatAtOrder(block: nat, stride: nat, size: nat, low: nat, v: nat, w: nat)
    requires size > 0
    ensures v < w <==> FlatAt(block, stride, v, size, low) < FlatAt(block, stride, w, size, low)
  {
    if v < w {
      TimesFit(v, w, size);
    } else if w < v {
      TimesFit(w, v, size);
    }
  }

  lemma FlatAtNext(block: nat, stride: nat, window: nat, size: nat)
    requires size > 0
    ensures FlatAt(block, stride, window + 1, size, 0) == FlatAt(block, stride, window, size, size - 1) + 1
  {
  }

  /** Splitting a position by division. */
  lemma FlatAtDigits(f: nat, stride: nat, n: nat, size: nat)
    requires stride == Times(n, size) && stride > 0
    ensures n > 0 && size > 0 && (f % stride) / size < n && f % size < size
    ensures f == FlatAt(f / stride, stride, (f % stride) / size, size, f % size)
  {
    TimesPositive(n, size);
    DivTimes(f, stride);
    WindowDigits(f, f / stride, f % stride, stride, n, size);
  }

  lemma WindowDigits(f: nat, block: nat, inner: nat, stride: nat, n: nat, size: nat)
    requires stride == Times(n, size) && inner < stride && f == Times(block, stride) + inner
    ensures size > 0 && inner / size < n && f % size < size
    ensures f == FlatAt(block, stride, inner / size, size, f % size)
  {
    TimesQuotient(inner, n, size);
    RestOfWindow(f, block, stride, n, size, inner / size, inner % size);
  }

  lemma RestOfWindow(f: nat, block: nat, stride: nat, n: nat, size: nat, w: nat, low: nat)
    requires stride == Times(n, size) && low < size && f == Times(block, stride) + (Times(w, size) + low)
    ensures f % size == low
  {
    var q := Times(block, n) + w;
    TimesAssociates(block, n, size);
    TimesAdd(Times(block, n), w, size);
    assert Times(q, size) == Times(block, stride) + Times(w, size);
    TimesDigits(f, size, q, low);
  }
}

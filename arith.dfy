/** Facts about integer multiplication and Euclidean division that the solver does not
    find on its own when both operands are variables. */
module Arith {

  lemma MulAtLeast(a: int, d: int)
    requires a >= 1 && d > 0
    ensures a * d >= d
  {
  }

  /** Multiplying by a non-negative factor keeps a weak order. */
  lemma MulMonotone(a: int, b: int, c: int)
    requires 0 <= a && b <= c
    ensures a * b <= a * c
  {
    assert a * c - a * b == a * (c - b);
  }

  /** Quotient and remainder are determined by n == q * d + r with 0 <= r < d. */
  lemma DivMod(n: int, d: int, q: int, r: int)
    requires d > 0 && 0 <= r < d && n == q * d + r
    ensures n / d == q && n % d == r
  {
    var q0, r0 := n / d, n % d;
    assert n == q0 * d + r0;
    if q0 > q {
      MulAtLeast(q0 - q, d);
    } else if q0 < q {
      MulAtLeast(q - q0, d);
    }
  }

  /** Reducing a value already below the modulus leaves it as it is. */
  lemma ModOfSmall(n: int, d: int)
    requires 0 <= n && d > 0
    ensures n < d ==> n % d == n
  {
    if n < d {
      DivMod(n, d, 0, n);
    }
  }

  /** Multiplying by a positive factor keeps a strict order. */
  lemma MulStrict(a: int, b: int, d: int)
    requires a < b && d > 0
    ensures a * d + d <= b * d
  {
    MulAtLeast(b - a, d);
  }

  /** A quotient is below m when the dividend is below m * d. */
  lemma DivBelow(n: int, d: int, m: int)
    requires 0 <= n < m * d && d > 0
    ensures n / d < m
  {
    var q := n / d;
    assert q * d <= n;
    if q >= m {
      MulAtLeast(q - m + 1, d);
    }
  }

  /** Quotient and remainder of an offset below m * d, and how they rebuild it. */
  lemma QuotientBelow(n: int, d: int, m: int)
    requires 0 <= n < m * d && d > 0
    ensures 0 <= n / d < m && 0 <= n % d < d && n == (n / d) * d + n % d
  {
    DivBelow(n, d, m);
  }

  /** A block that starts below n * d is one of the first n, and ends by n * d. */
  lemma NextBlock(q: int, n: int, d: int)
    requires d > 0 && 0 <= q && q * d < n * d
    ensures q < n && q * d + d <= n * d
  {
    MulMonotone(d, 0, q);
    DivBelow(q * d, d, n);
    DivMod(q * d, d, q, 0);
    MulStrict(q, n, d);
  }

  /** Cell (y, x) of a row-major grid of width w lies inside the first h rows. */
  lemma RowMajorIndex(w: int, h: int, y: int, x: int)
    requires w > 0 && 0 <= x < w && 0 <= y * w < h * w
    ensures 0 <= y < h && 0 <= y * w + x < h * w
    ensures (y * w + x) / w == y && (y * w + x) % w == x
  {
    if y < 0 {
      MulStrict(y, 0, w);
    }
    if y >= h {
      MulStrict(h - 1, y, w);
    }
    MulStrict(y, h, w);
    DivMod(y * w + x, w, y, x);
  }

  /** The row of index k of a row-major grid of width w with h rows. */
  lemma RowOf(k: int, w: int, h: int)
    requires w > 0 && 0 <= k < h * w
    ensures 0 <= k / w < h && k == (k / w) * w + k % w
  {
    DivBelow(k, w, h);
  }

  /** Index (y, x) of a row-major grid of width w with h rows, and back. */
  lemma RowMajorFits(w: int, h: int, y: int, x: int)
    requires 0 <= x < w && 0 <= y < h
    ensures 0 <= y * w < h * w && 0 <= y * w + x < h * w
    ensures (y * w + x) / w == y && (y * w + x) % w == x
  {
    MulStrict(y, h, w);
    MulMonotone(w, 0, y);
    DivMod(y * w + x, w, y, x);
  }

  /** Splitting an offset below n * d into a block number and a position in the block. */
  lemma BlockSplit(n: int, d: int, q: int, r: int)
    requires 0 <= q < n && 0 <= r < d
    ensures 0 <= q * d + r < n * d
    ensures (q * d + r) / d == q && (q * d + r) % d == r
  {
    MulStrict(q, n, d);
    MulMonotone(d, 0, q);
    DivMod(q * d + r, d, q, r);
  }
}

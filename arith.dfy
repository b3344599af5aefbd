/** Arithmetic facts the solver does not find on its own (products and
    quotients of variables). */
module Arith {

  lemma MulMonotone(a: int, b: int, w: nat)
    requires a <= b
    ensures a * w <= b * w
  {
    assert b * w - a * w == (b - a) * w;
  }

  /** Euclidean division by a positive width has a unique quotient and remainder. */
  lemma DivModUnique(a: int, width: nat, q: int, r: int)
    requires 0 <= r < width && a == q * width + r
    ensures a / width == q && a % width == r
  {
    var q', r' := a / width, a % width;
    assert a == q' * width + r';
    assert (q - q') * width == r' - r;
    if q > q' {
      MulMonotone(1, q - q', width);
    } else if q < q' {
      MulMonotone(1, q' - q, width);
    }
  }

  /** A position below rows * n has a quotient below rows. */
  lemma DivBelow(u: int, n: nat, rows: int)
    requires n > 0 && 0 <= u < rows * n
    ensures 0 <= u / n < rows && 0 <= u % n < n
  {
    var q, r := u / n, u % n;
    assert u == q * n + r;
    if q >= rows {
      MulMonotone(rows, q, n);
    }
    if q < 0 {
      MulMonotone(q, -1, n);
    }
  }

  /** Row-major position a * n + r of row a, column r lies below rows * n. */
  lemma RowMajorBelow(a: int, r: int, rows: int, n: nat)
    requires 0 <= a < rows && 0 <= r < n
    ensures 0 <= a * n + r < rows * n
  {
    MulMonotone(0, a, n);
    MulMonotone(a + 1, rows, n);
  }

  lemma MulKeepsOrder(a: real, b: real, c: real)
    requires c > 0.0
    ensures a <= b ==> a * c <= b * c
    ensures a < b ==> a * c < b * c
  {
    assert b * c - a * c == (b - a) * c;
  }

  lemma DivKeepsOrder(a: real, b: real, c: real)
    requires c > 0.0
    ensures a <= b ==> a / c <= b / c
    ensures a < b ==> a / c < b / c
  {
    assert b / c - a / c == (b - a) / c;
  }

  lemma MulDivCancel(x: real, c: real)
    requires c != 0.0
    ensures x * c / c == x && x / c * c == x
  {
  }
}

/** Facts about multiplication and Euclidean division by a positive divisor. */
module Arith {

  lemma MulMonotone(a: int, b: int, r: int)
    requires a <= b && r >= 0
    ensures a * r <= b * r
  {
    assert b * r - a * r == (b - a) * r;
  }

  /** Coordinate `a` lies in block `c` of width `r` exactly when `a / r == c`. */
  lemma DivBlock(a: int, r: int, c: int)
    requires r >= 1
    ensures c * r <= a <= (c + 1) * r - 1 <==> a / r == c
  {
    var q, m := a / r, a % r;
    assert a == q * r + m && 0 <= m < r;
    assert (c + 1) * r == c * r + r;
    assert (q + 1) * r == q * r + r;
    if c * r <= a <= (c + 1) * r - 1 {
      if q < c {
        MulMonotone(q + 1, c, r);
      } else if q > c {
        MulMonotone(c + 1, q, r);
      }
    }
  }

  lemma DivMonotone(a: int, b: int, n: int)
    requires 0 <= a <= b && n >= 1
    ensures a / n <= b / n
  {
    var qa, qb := a / n, b / n;
    assert a == qa * n + a % n && b == qb * n + b % n;
    assert (qb + 1) * n == qb * n + n;
    if qa > qb {
      MulMonotone(qb + 1, qa, n);
    }
  }

  /** Row `q`, column `k` of rows of width `w` sits at index `q * w + k`. */
  lemma DivModOf(q: int, w: int, k: int)
    requires w >= 1 && 0 <= k < w
    ensures (q * w + k) / w == q && (q * w + k) % w == k
  {
    DivBlock(q * w + k, w, q);
  }
}

/** Integer facts shared by the two programs: row-major index arithmetic and powers. */
module Arith {

  /** If `p` is written as `q * d + r` with `0 <= r < d`, then `q` and `r` are its quotient and
      remainder. This is what lets a flat row-major index be read back as (row, column). */
  lemma DivModUnique(p: int, d: int, q: int, r: int)
    requires d > 0 && 0 <= r < d && p == q * d + r
    ensures p / d == q && p % d == r
  {
    var q', r' := p / d, p % d;
    assert p == q' * d + r';
    assert (q - q') * d == r' - r;
    if q > q' {
      MulAtLeast(q - q', d);
    } else if q < q' {
      MulAtLeast(q' - q, d);
    }
  }

  lemma MulAtLeast(a: int, d: int)
    requires a >= 1 && d > 0
    ensures a * d >= d
  {
    assert a * d == (a - 1) * d + d;
  }

  /** A position below `k * k` lies in one of the first `k` rows of width `k`. */
  lemma QuotientBelow(u: int, k: int)
    requires k >= 1 && 0 <= u < k * k
    ensures 0 <= u / k < k
  {
    if u / k >= k {
      MulAtLeast(u / k - k + 1, k);
    }
  }

  /** Two row-major positions with columns inside the row width are equal only when both rows and
      columns are. */
  lemma RowMajorInjective(r1: int, c1: int, r2: int, c2: int, w: int)
    requires w > 0 && 0 <= c1 < w && 0 <= c2 < w && r1 * w + c1 == r2 * w + c2
    ensures r1 == r2 && c1 == c2
  {
    DivModUnique(r1 * w + c1, w, r1, c1);
    DivModUnique(r2 * w + c2, w, r2, c2);
  }

  /** A row-major position with row below `h` and column below `w` lies below `h * w`. */
  lemma RowMajorBound(r: int, c: int, h: int, w: int)
    requires 0 <= r < h && 0 <= c < w
    ensures 0 <= r * w + c < h * w
  {
    assert r * w + c < (r + 1) * w;
    assert (r + 1) * w <= h * w by {
      assert h * w - (r + 1) * w == (h - r - 1) * w;
    }
  }

  function Pow(b: nat, e: nat): nat
  {
    if e == 0 then 1 else b * Pow(b, e - 1)
  }
}

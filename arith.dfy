/** Facts about multiplication, division and remainder on naturals that the
    index arithmetic of the generators needs. */
module Arith {

  lemma MulMonotone(a: nat, b: nat, c: nat)
    requires a <= b
    ensures a * c <= b * c
  {
    if c > 0 {
      MulMonotone(a, b, c - 1);
      assert a * c == a * (c - 1) + a;
      assert b * c == b * (c - 1) + b;
    }
  }

  /** A multiple of d strictly between -d and d is 0. */
  lemma SmallMultiple(d: nat, m: int)
    requires d > 0 && -(d as int) < d * m < d
    ensures m == 0
  {
    if m >= 1 {
      MulMonotone(1, m, d);
    }
  }

  lemma DivModUnique(x: nat, d: nat, q: nat, r: nat)
    requires d > 0 && r < d && x == d * q + r
    ensures x / d == q && x % d == r
  {
    var q', r' := x / d, x % d;
    assert d * q' + r' == d * q + r;
    assert d * (q - q') == r' - r;
    SmallMultiple(d, q - q');
  }

  /** x % d for x in [0, d) and in [-d, 0). */
  lemma ModInRange(x: int, d: nat)
    requires d > 0 && -(d as int) <= x < d
    ensures x % d == if x < 0 then x + d else x
  {
    var q, r := x / d, x % d;
    assert x == d * q + r;
    if x < 0 {
      assert d * (q + 1) == x - r + d;
      SmallMultiple(d, q + 1);
    } else {
      SmallMultiple(d, q);
    }
  }

  /** Splitting a flat index i = a*cols + b of a row-major layout. */
  lemma RowMajor(a: nat, b: nat, cols: nat)
    requires b < cols
    ensures (a * cols + b) / cols == a && (a * cols + b) % cols == b
  {
    DivModUnique(a * cols + b, cols, a, b);
  }

  /** The flat index a*cols + b is below count*cols, and is its last value
      exactly for the last row and column. */
  lemma RowMajorLast(a: nat, b: nat, count: nat, cols: nat)
    requires a < count && b < cols
    ensures a * cols + b < count * cols
    ensures a * cols + b + 1 == count * cols <==> (a == count - 1 && b == cols - 1)
  {
    MulMonotone(a + 1, count, cols);
    assert (a + 1) * cols == a * cols + cols;
    if a < count - 1 {
      MulMonotone(a + 2, count, cols);
      assert (a + 2) * cols == a * cols + cols + cols;
    }
  }

  lemma MulSucc(a: nat, b: nat)
    ensures (a + 1) * b == a * b + b
  {
  }
}

/** Facts about integer division and remainder shared by the modules of this model. */
module Arith {

  /** The remainder is the only value in [0, m) that differs from a by a multiple of m. */
  lemma ModUnique(a: int, q: int, r: int, m: int)
    requires m > 0 && 0 <= r < m && a == q * m + r
    ensures a % m == r && a / m == q
  {
    var q0, r0 := a / m, a % m;
    assert a == q0 * m + r0;
    if q > q0 {
      MulAtLeast(q - q0, m);
    } else if q < q0 {
      MulAtLeast(q0 - q, m);
    }
  }

  /** A positive multiple of a positive number is at least that number. */
  lemma MulAtLeast(k: int, m: int)
    requires k >= 1 && m > 0
    ensures k * m >= m
  {
  }

  /** Adding m does not change a value modulo m. */
  lemma ModShift(a: int, m: int)
    requires m > 0
    ensures (a + m) % m == a % m
  {
    ModUnique(a, a / m, a % m, m);
    ModUnique(a + m, a / m + 1, a % m, m);
  }

  /** Reducing the left operand of a sum first does not change the sum modulo m. */
  lemma ModAddLeft(a: int, c: int, m: int)
    requires m > 0
    ensures (a % m + c) % m == (a + c) % m
  {
    var q := a / m;
    var r := (a % m + c) % m;
    var q2 := (a % m + c) / m;
    assert a % m + c == q2 * m + r;
    assert a + c == (q + q2) * m + r;
    ModUnique(a + c, q + q2, r, m);
  }

  /** Multiplying by a positive number keeps a strict order. */
  lemma MulLess(a: int, b: int, m: int)
    requires a < b && m > 0
    ensures a * m < b * m
  {
    MulAtLeast(b - a, m);
    assert b * m - a * m == (b - a) * m;
  }

  /** The difference of two multiples of m is a multiple of m. */
  lemma MulDiff(a: int, b: int, m: int)
    ensures a * m - m * b == (a - b) * m
  {
  }

  /** The only multiple of a positive m strictly between -m and m is 0. */
  lemma SmallMultipleIsZero(d: int, m: int)
    requires m > 0 && -m < d * m < m
    ensures d == 0
  {
    if d > 0 {
      MulAtLeast(d, m);
    } else if d < 0 {
      MulAtLeast(-d, m);
    }
  }
}

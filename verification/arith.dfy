/** Small facts about Euclidean `%` and multiplication used by the hash and primality proofs. */
module Arith {

  lemma MulMonoLeft(a: int, b: int, c: int)
    requires 0 <= a <= b && c >= 0
    ensures a * c <= b * c
  {
    assert b * c == a * c + (b - a) * c;
  }

  lemma MulPositive(a: int, b: int)
    requires a >= 1 && b >= 1
    ensures a * b >= a && a * b >= b
  {
    MulMonoLeft(1, b, a);
    MulMonoLeft(1, a, b);
  }

  /** Adding a multiple of m does not change the remainder. */
  lemma ModShift(z: int, q: int, m: int)
    requires m > 0
    ensures (z + q * m) % m == z % m
  {
    var w := z + q * m;
    var k := z / m + q - w / m;
    assert w == (w / m) * m + w % m;
    assert z == (z / m) * m + z % m;
    assert w % m - z % m == k * m;
    if k > 0 {
      MulMonoLeft(1, k, m);
    } else if k < 0 {
      MulMonoLeft(1, -k, m);
    }
  }

  lemma ModAddLeft(x: int, y: int, m: int)
    requires m > 0
    ensures (x % m + y) % m == (x + y) % m
  {
    var q := x / m;
    assert x == q * m + x % m;
    ModShift(x % m + y, q, m);
  }

  lemma ModOfMultiple(a: int, b: int)
    requires b > 0
    ensures (a * b) % b == 0
  {
    ModShift(0, a, b);
  }

  /** `%` is compatible with addition and multiplication. */
  lemma ModAddCongruent(x: int, x': int, y: int, y': int, m: int)
    requires m > 0 && x % m == x' % m && y % m == y' % m
    ensures (x + y) % m == (x' + y') % m
  {
    ModAddLeft(x, y, m);
    ModAddLeft(y, x % m, m);
    ModAddLeft(x', y', m);
    ModAddLeft(y', x' % m, m);
  }

  lemma ModMulCongruent(x: int, x': int, c: int, m: int)
    requires m > 0 && x % m == x' % m
    ensures (x * c) % m == (x' * c) % m
  {
    var d := x' / m - x / m;
    assert x == (x / m) * m + x % m;
    assert x' == (x' / m) * m + x' % m;
    assert x' - x == d * m;
    assert x' * c == x * c + (d * c) * m;
    ModShift(x * c, d * c, m);
  }

  lemma SquareMono(a: int, b: int)
    requires 0 <= a <= b
    ensures a * a <= b * b
  {
    MulMonoLeft(a, b, a);
    MulMonoLeft(a, b, b);
  }

  lemma EvenProduct(e: int, c: int)
    requires e % 2 == 0
    ensures (e * c) % 2 == 0
  {
    var h := e / 2;
    assert e == h * 2;
    assert e * c == (h * c) * 2;
    ModOfMultiple(h * c, 2);
  }

  lemma ModOfSmall(x: int, m: int)
    requires 0 <= x < m
    ensures x % m == x
  {
    ModShift(x, 0, m);
    assert x == (x / m) * m + x % m;
    if x / m != 0 {
      if x / m > 0 {
        MulMonoLeft(1, x / m, m);
      } else {
        MulMonoLeft(1, -(x / m), m);
      }
    }
  }
}

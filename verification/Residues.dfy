/** Integers modulo m: division with remainder, and the ring operations on residues. */
module Residues {

  /** Quotient and remainder are the only pair with these properties. */
  lemma DivModUnique(x: int, m: int, q: int, r: int)
    requires 0 <= r < m && x == q * m + r
    ensures x / m == q && x % m == r
  {
    var k := q - x / m;
    assert k * m == x % m - r by {
      assert x == m * (x / m) + x % m;
      assert k * m == q * m - (x / m) * m;
    }
    assert k >= 1 ==> k * m >= m;
    assert k <= -1 ==> k * m <= -m;
  }

  lemma ModPlusMultiple(x: int, k: int, m: int)
    requires m > 0
    ensures (x + k * m) % m == x % m
  {
    assert x + k * m == (x / m + k) * m + x % m by {
      assert x == m * (x / m) + x % m;
      assert (x / m + k) * m == (x / m) * m + k * m;
    }
    DivModUnique(x + k * m, m, x / m + k, x % m);
  }

  /** Two integers have the same residue when, and only when, they differ by a multiple. */
  lemma SameResidue(x: int, y: int, k: int, m: int)
    requires m > 0 && x - y == k * m
    ensures x % m == y % m
  {
    ModPlusMultiple(y, k, m);
  }

  lemma ModTwice(x: int, m: int)
    requires m > 0
    ensures 0 <= x % m < m && x % m % m == x % m
  {
    DivModUnique(x % m, m, 0, x % m);
  }

  lemma ModSum(x: int, y: int, m: int)
    requires m > 0
    ensures (x % m + y % m) % m == (x + y) % m
    ensures (x % m - y % m) % m == (x - y) % m
  {
    var a, b := x / m, y / m;
    assert x == a * m + x % m && y == b * m + y % m;
    assert (x + y) - (x % m + y % m) == (a + b) * m;
    assert (x - y) - (x % m - y % m) == (a - b) * m;
    SameResidue(x + y, x % m + y % m, a + b, m);
    SameResidue(x - y, x % m - y % m, a - b, m);
  }

  lemma ModProduct(x: int, y: int, m: int)
    requires m > 0
    ensures ((x % m) * (y % m)) % m == (x * y) % m
  {
    var a, b, u, v := x / m, y / m, x % m, y % m;
    assert x == a * m + u && y == b * m + v;
    calc {
      x * y - u * v;
      (a * m + u) * (b * m + v) - u * v;
      (a * m) * (b * m) + (a * m) * v + u * (b * m);
      ((a * m) * b) * m + (a * v) * m + (u * b) * m;
      ((a * m) * b + a * v + u * b) * m;
    }
    SameResidue(x * y, u * v, (a * m) * b + a * v + u * b, m);
  }

  lemma ModProductLeft(x: int, y: int, m: int)
    requires m > 0
    ensures ((x % m) * y) % m == (x * y) % m && (y * (x % m)) % m == (x * y) % m
  {
    ModProduct(x % m, y, m);
    ModProduct(x, y, m);
    ModTwice(x, m);
    assert y * (x % m) == (x % m) * y;
  }

  lemma MulAssociates(x: int, y: int, z: int, m: int)
    requires m > 0
    ensures ((x * y) % m * z) % m == (x * ((y * z) % m)) % m
  {
    ModProductLeft(x * y, z, m);
    ModProductLeft(y * z, x, m);
    assert (x * y) * z == (y * z) * x;
  }
}

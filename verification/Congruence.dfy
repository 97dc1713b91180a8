/** Congruence modulo m, and what follows when m has no zero divisors. */
module Congruence {
  import opened Residues

  type modulus = m: int | m > 1 witness 2

  ghost predicate Cong(m: modulus, a: int, b: int) {
    a % m == b % m
  }

  /** A product is 0 only if a factor is. */
  ghost predicate Domain(m: modulus) {
    forall a: int, b: int :: Cong(m, a * b, 0) ==> Cong(m, a, 0) || Cong(m, b, 0)
  }

  /** d is not the square of a quotient. */
  ghost predicate NoSquare(m: modulus, d: int) {
    forall r: int, s: int :: Cong(m, r * r, d * (s * s)) ==> Cong(m, s, 0)
  }

  lemma Refl(m: modulus, a: int)
    ensures Cong(m, a, a)
  {
  }

  lemma Chain(m: modulus, a: int, b: int, c: int)
    requires Cong(m, a, b) && Cong(m, b, c)
    ensures Cong(m, a, c) && Cong(m, b, a)
  {
  }

  lemma Plus(m: modulus, a: int, a': int, b: int, b': int)
    requires Cong(m, a, a') && Cong(m, b, b')
    ensures Cong(m, a + b, a' + b') && Cong(m, a - b, a' - b')
  {
    ModSum(a, b, m);
    ModSum(a', b', m);
  }

  lemma Times(m: modulus, a: int, a': int, b: int, b': int)
    requires Cong(m, a, a') && Cong(m, b, b')
    ensures Cong(m, a * b, a' * b')
  {
    ModProduct(a, b, m);
    ModProduct(a', b', m);
  }

  lemma Factor(m: modulus, a: int, b: int)
    requires Domain(m) && Cong(m, a * b, 0)
    ensures Cong(m, a, 0) || Cong(m, b, 0)
  {
  }

  lemma TimesZero(m: modulus, a: int, b: int)
    requires Cong(m, a, 0) || Cong(m, b, 0)
    ensures Cong(m, a * b, 0)
  {
    hide Cong;
    Refl(m, a);
    Refl(m, b);
    if Cong(m, a, 0) {
      Times(m, a, 0, b, b);
    } else {
      Times(m, a, a, b, 0);
    }
  }

  lemma Multiple(m: modulus, k: int)
    ensures Cong(m, m * k, 0)
  {
    SameResidue(m * k, 0, k, m);
  }

  /** Small numbers are congruent only if they are the same. */
  lemma Small(m: modulus, a: int, b: int)
    requires 0 <= a < m && 0 <= b < m
    ensures Cong(m, a, b) <==> a == b
  {
    DivModUnique(a, m, 0, a);
    DivModUnique(b, m, 0, b);
  }

  /** a i is a w i j, when w j is 1. */
  lemma CrossOut(m: modulus, a: int, i: int, w: int, j: int)
    requires Cong(m, w * j, 1)
    ensures Cong(m, a * i, (a * w) * (i * j)) && Cong(m, (a * w) * (i * j), a * i)
  {
    hide Cong;
    Refl(m, a * i);
    Times(m, a * i, a * i, w * j, 1);
    Regrouped(a, i, w, j);
    Chain(m, (a * w) * (i * j), a * i, a * i);
  }

  lemma Regrouped(a: int, i: int, w: int, j: int)
    ensures (a * i) * (w * j) == (a * w) * (i * j) && (a * i) * 1 == a * i
  {
    assert (a * i) * (w * j) == a * (i * (w * j));
    assert i * (w * j) == w * (i * j);
  }

  /** a / z and b / w are the same for equal fractions, and only for them. */
  lemma Quotients(m: modulus, a: int, z: int, i: int, b: int, w: int, j: int)
    requires Cong(m, z * i, 1) && Cong(m, w * j, 1)
    ensures Cong(m, a * i, b * j) <==> Cong(m, a * w, b * z)
  {
    hide Cong;
    assert i * z == z * i && j * w == w * j && i * j == j * i && z * w == w * z;
    if Cong(m, a * w, b * z) {
      Refl(m, i * j);
      Times(m, a * w, b * z, i * j, i * j);
      CrossOut(m, a, i, w, j);
      CrossOut(m, b, j, z, i);
      Chain(m, a * i, (a * w) * (i * j), (b * z) * (i * j));
      Chain(m, a * i, (b * z) * (j * i), b * j);
    }
    if Cong(m, a * i, b * j) {
      Refl(m, z * w);
      Times(m, a * i, b * j, z * w, z * w);
      CrossOut(m, a, w, i, z);
      CrossOut(m, b, z, j, w);
      Chain(m, a * w, (a * i) * (w * z), (b * j) * (z * w));
      Chain(m, a * w, (b * j) * (z * w), b * z);
    }
  }
}

/**
  The 32 bytes of a point.  If p has no zero divisors the addition chain of the program inverts, so that the bytes
  depend on the affine point alone; if d is no square, they determine it.
 */
module Encodings {
  import opened Machine
  import opened Limbs
  import opened Residues
  import opened Field25519
  import opened FieldCodec
  import opened FieldPower
  import opened Edwards
  import opened EdwardsLaws
  import opened PointCodec
  import opened Completeness
  import opened Congruence
  import Fermat

  lemma EqIsCong(a: int, b: int)
    ensures Eq(a, b) <==> Cong(P, a, b)
    ensures Eq(a, b) <==> Mod(a) == Mod(b)
  {
  }

  lemma Premises()
    ensures NoZeroDivisors() ==> Domain(P)
    ensures DIsNoSquare() ==> NoSquare(P, CurveD())
  {
    hide Eq, Cong, CurveD;
    if NoZeroDivisors() {
      forall a: int, b: int | Cong(P, a * b, 0) ensures Cong(P, a, 0) || Cong(P, b, 0) {
        EqIsCong(a * b, 0);
        EqIsCong(a, 0);
        EqIsCong(b, 0);
      }
    }
    if DIsNoSquare() {
      forall r: int, s: int | Cong(P, r * r, CurveD() * (s * s)) ensures Cong(P, s, 0) {
        EqIsCong(r * r, CurveD() * (s * s));
        EqIsCong(s, 0);
      }
    }
  }

  /** The power that the program computes is the inverse. */
  lemma Inverse(z: int)
    requires NoZeroDivisors() && 0 < z < P
    ensures FMul(z, FPow(z, P - 2)) == 1
  {
    hide NoZeroDivisors, DIsNoSquare, Domain, NoSquare, FMul, FPow, Pow, Cong, Mod, Eq;
    Premises();
    Fermat.PowerInverts(P, z);
    var w := Pow(z, P - 2);
    EqIsCong(z * w, 1);
    ModOne();
    FPowIsPow(z, P - 2);
    FMulMod(w, z);
    Commutes(w, z);
  }

  // Affine points.

  function AffineX(p: Point): int {
    FMul(p.x, FPow(p.z, P - 2))
  }

  function AffineY(p: Point): int {
    FMul(p.y, FPow(p.z, P - 2))
  }

  /** Both stand for the same affine point. */
  ghost predicate SamePoint(p: Point, q: Point) {
    Eq(p.x * q.z, q.x * p.z) && Eq(p.y * q.z, q.y * p.z)
  }

  lemma InverseCong(z: int)
    requires NoZeroDivisors() && 0 < z < P
    ensures Cong(P, z * FPow(z, P - 2), 1)
  {
    hide NoZeroDivisors, FPow, Cong, Mod, Eq;
    Inverse(z);
    ModOne();
    Lift(z, FPow(z, P - 2));
    EqIsCong(z * FPow(z, P - 2), 1);
  }

  /** A quotient, as a field element, is the same for equal fractions, and only for them. */
  lemma SameQuotient(a: int, z: int, b: int, w: int)
    requires NoZeroDivisors() && 0 < z < P && 0 < w < P
    ensures FMul(a, FPow(z, P - 2)) == FMul(b, FPow(w, P - 2)) <==> Eq(a * w, b * z)
  {
    hide NoZeroDivisors, FPow, FMul, Eq, Mod, Cong;
    var i, j := FPow(z, P - 2), FPow(w, P - 2);
    InverseCong(z);
    InverseCong(w);
    Quotients(P, a, z, i, b, w, j);
    Lift(a, i);
    Lift(b, j);
    EqIsCong(a * i, b * j);
    EqIsCong(a * w, b * z);
  }

  // The curve in affine coordinates.

  /** The curve equation, with the terms in x on one side. */
  ghost predicate OnAffine(m: modulus, d: int, x: int, y: int) {
    Cong(m, (x * x) * (1 + d * (y * y)), y * y - 1)
  }

  /** X Y = Z T and -X^2 + Y^2 = Z^2 + d T^2. */
  ghost predicate OnProjective(m: modulus, d: int, p: Point) {
    Cong(m, p.x * p.y, p.z * p.t) && Cong(m, p.y * p.y - p.x * p.x, p.z * p.z + d * (p.t * p.t))
  }

  /** Divided by Z, T is the product of the coordinates. */
  lemma ScaledT(m: modulus, d: int, p: Point, i: int)
    requires OnProjective(m, d, p) && Cong(m, p.z * i, 1)
    ensures Cong(m, (p.x * i) * (p.y * i), p.t * i)
  {
    hide Cong;
    var t := p.t * i;
    Refl(m, i * i);
    Times(m, p.x * p.y, p.z * p.t, i * i, i * i);
    Exchange(p.x, p.y, i, i);
    Exchange(p.z, p.t, i, i);
    Refl(m, t);
    Times(m, p.z * i, 1, t, t);
    Chain(m, (p.x * i) * (p.y * i), (p.z * i) * t, t);
  }

  lemma ScaledCurve(m: modulus, d: int, p: Point, i: int)
    requires OnProjective(m, d, p) && Cong(m, p.z * i, 1) && Cong(m, (p.x * i) * (p.y * i), p.t * i)
    ensures var x, y := p.x * i, p.y * i; Cong(m, y * y - x * x, 1 + d * ((x * y) * (x * y)))
  {
    hide Cong;
    var x, y, t := p.x * i, p.y * i, p.t * i;
    Refl(m, i * i);
    Refl(m, d);
    Refl(m, t);
    Times(m, p.y * p.y - p.x * p.x, p.z * p.z + d * (p.t * p.t), i * i, i * i);
    ScaledSquares(p.x, p.y, p.z, p.t, d, i);
    Times(m, p.z * i, 1, p.z * i, 1);
    Chain(m, x * y, t, t);
    Times(m, t, x * y, t, x * y);
    Times(m, d, d, t * t, (x * y) * (x * y));
    Plus(m, (p.z * i) * (p.z * i), 1, d * (t * t), d * ((x * y) * (x * y)));
    Chain(m, y * y - x * x, (p.z * i) * (p.z * i) + d * (t * t), 1 + d * ((x * y) * (x * y)));
  }

  lemma ScaledSquares(x: int, y: int, z: int, t: int, d: int, i: int)
    ensures (y * y - x * x) * (i * i) == (y * i) * (y * i) - (x * i) * (x * i)
    ensures (z * z + d * (t * t)) * (i * i) == (z * i) * (z * i) + d * ((t * i) * (t * i))
  {
    Exchange(x, x, i, i);
    Exchange(y, y, i, i);
    Exchange(z, z, i, i);
    Exchange(t, t, i, i);
    var a, b := z * z, t * t;
    assert (a + d * b) * (i * i) == a * (i * i) + d * (b * (i * i));
  }

  lemma Rearranged(m: modulus, d: int, x: int, y: int)
    requires Cong(m, y * y - x * x, 1 + d * ((x * y) * (x * y)))
    ensures OnAffine(m, d, x, y)
  {
    hide Cong;
    var a, b := x * x, y * y;
    Exchange(x, y, x, y);
    Refl(m, a - 1);
    Plus(m, b - a, 1 + d * (a * b), a - 1, a - 1);
    assert a * (1 + d * b) == 1 + d * (a * b) + (a - 1);
    assert b - 1 == b - a + (a - 1);
    Chain(m, b - 1, a * (1 + d * b), a * (1 + d * b));
  }

  /** The same for congruent coordinates. */
  lemma OtherResidues(m: modulus, d: int, x: int, y: int, x': int, y': int)
    requires OnAffine(m, d, x, y) && Cong(m, x', x) && Cong(m, y', y)
    ensures OnAffine(m, d, x', y')
  {
    hide Cong;
    Refl(m, 1);
    Refl(m, d);
    Times(m, x', x, x', x);
    Times(m, y', y, y', y);
    Times(m, d, d, y' * y', y * y);
    Plus(m, 1, 1, d * (y' * y'), d * (y * y));
    Times(m, x' * x', x * x, 1 + d * (y' * y'), 1 + d * (y * y));
    Plus(m, y' * y', y * y, 1, 1);
    Chain(m, (x' * x') * (1 + d * (y' * y')), (x * x) * (1 + d * (y * y)), y * y - 1);
    Chain(m, y' * y' - 1, y * y - 1, y * y - 1);
    Chain(m, (x' * x') * (1 + d * (y' * y')), y * y - 1, y' * y' - 1);
  }

  /** For d no square, 1 + d y^2 does not vanish. */
  lemma FactorOfX(m: modulus, d: int, i: int, y: int)
    requires NoSquare(m, d) && Cong(m, i * i, -1)
    ensures !Cong(m, 1 + d * (y * y), 0)
  {
    hide NoSquare, Cong;
    if Cong(m, 1 + d * (y * y), 0) {
      Refl(m, -1);
      Plus(m, 1 + d * (y * y), 0, -1, -1);
      Refl(m, d * (y * y));
      Chain(m, d * (y * y), -1, -1);
      Chain(m, i * i, -1, d * (y * y));
      RootOfD(m, d, i, y);
      TimesZero(m, y, y);
      TimesZero(m, d, y * y);
      Refl(m, 1);
      Plus(m, 1, 1, d * (y * y), 0);
      Chain(m, 1 + d * (y * y), 1, 1);
      Chain(m, 1, 1 + d * (y * y), 0);
      Small(m, 1, 0);
    }
  }

  lemma RootOfD(m: modulus, d: int, r: int, s: int)
    requires NoSquare(m, d) && Cong(m, r * r, d * (s * s))
    ensures Cong(m, s, 0)
  {
  }

  /** For a given y there are at most two x, opposite to each other. */
  lemma TwoAbscissas(m: modulus, d: int, i: int, x: int, x': int, y: int)
    requires Domain(m) && NoSquare(m, d) && Cong(m, i * i, -1) && 0 <= x < m && 0 <= x' < m
    requires OnAffine(m, d, x, y) && OnAffine(m, d, x', y)
    ensures x == x' || x + x' == m
  {
    hide Domain, NoSquare, Cong;
    var w := 1 + d * (y * y);
    FactorOfX(m, d, i, y);
    Plus(m, (x * x) * w, y * y - 1, (x' * x') * w, y * y - 1);
    DifferenceOfSquares(x, x', w);
    Factor(m, (x - x') * (x + x'), w);
    Factor(m, x - x', x + x');
    Opposite(m, x, x');
  }

  lemma DifferenceOfSquares(x: int, x': int, w: int)
    ensures (x * x) * w - (x' * x') * w == ((x - x') * (x + x')) * w
  {
    assert (x - x') * (x + x') == x * x - x' * x';
  }

  lemma Opposite(m: modulus, x: int, x': int)
    requires 0 <= x < m && 0 <= x' < m && (Cong(m, x - x', 0) || Cong(m, x + x', 0))
    ensures x == x' || x + x' == m
  {
    hide Cong;
    Refl(m, x');
    if Cong(m, x - x', 0) {
      Plus(m, x - x', 0, x', x');
      Small(m, x, x');
    } else if x + x' < m {
      Small(m, x + x', 0);
    } else {
      Refl(m, m);
      Multiple(m, 1);
      Plus(m, x + x', 0, m, 0);
      Small(m, x + x' - m, 0);
    }
  }

  /** What is encoded satisfies the affine curve equation. */
  lemma AffineCurve(p: Point)
    requires NoZeroDivisors() && OnCurve(p) && 0 < p.z < P
    ensures OnAffine(P, CurveD(), AffineX(p), AffineY(p))
  {
    hide NoZeroDivisors, FPow, Eq, Cong, Mod, CurveD, OnAffine;
    var i, d := FPow(p.z, P - 2), CurveD();
    EqIsCong(p.x * p.y, p.z * p.t);
    EqIsCong(p.y * p.y - p.x * p.x, p.z * p.z + d * (p.t * p.t));
    InverseCong(p.z);
    ScaledT(P, d, p, i);
    ScaledCurve(P, d, p, i);
    Rearranged(P, d, p.x * i, p.y * i);
    ModIsCong(p.x * i);
    ModIsCong(p.y * i);
    OtherResidues(P, d, p.x * i, p.y * i, Mod(p.x * i), Mod(p.y * i));
  }

  lemma ModIsCong(a: int)
    ensures Cong(P, Mod(a), a)
  {
    ModTwice(a, P);
  }

  lemma RootExists()
    ensures Cong(P, Fe(I_LIMBS) * Fe(I_LIMBS), -1)
  {
    hide Eq, Cong, Fe, Mod;
    RootOfMinusOne();
    EqIsCong(Fe(I_LIMBS) * Fe(I_LIMBS), -1);
  }

  /** The 32 bytes determine the affine point, and are determined by it. */
  lemma EncodingIsFaithful(p: Point, q: Point)
    requires NoZeroDivisors() && DIsNoSquare() && OnCurve(p) && OnCurve(q) && 0 < p.z < P && 0 < q.z < P
    ensures Encode(p) == Encode(q) <==> SamePoint(p, q)
  {
    hide NoZeroDivisors, DIsNoSquare, Domain, NoSquare, OnCurve, Eq, Cong, FPow, FMul, CurveD, OnAffine, Fe;
    SameQuotient(p.x, p.z, q.x, q.z);
    SameQuotient(p.y, p.z, q.y, q.z);
    FMulRange(p.x, FPow(p.z, P - 2));
    FMulRange(q.x, FPow(q.z, P - 2));
    FMulRange(p.y, FPow(p.z, P - 2));
    FMulRange(q.y, FPow(q.z, P - 2));
    if Encode(p) == Encode(q) {
      SplitEncoding(AffineX(p), AffineY(p), AffineX(q), AffineY(q));
      AffineCurve(p);
      AffineCurve(q);
      Premises();
      RootExists();
      TwoAbscissas(P, CurveD(), Fe(I_LIMBS), AffineX(p), AffineX(q), AffineY(p));
    }
  }

  lemma SplitEncoding(x: int, y: int, x': int, y': int)
    requires 0 <= y < P && 0 <= y' < P && y + (P + 19) * (x % 2) == y' + (P + 19) * (x' % 2)
    ensures y == y' && x % 2 == x' % 2
  {
  }
}

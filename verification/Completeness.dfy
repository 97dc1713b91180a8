/**
  Two statements that rest on number theory, which is taken as a premise: the addition formulas never
  produce a point with Z = 0, and decoding undoes encoding exactly on canonical encodings.
 */
module Completeness {
  import opened Machine
  import opened Options
  import opened Limbs
  import opened Residues
  import opened Field25519
  import opened FieldCodec
  import opened FieldPower
  import opened Edwards
  import opened EdwardsLaws
  import opened PointCodec

  /** p has no zero divisors. */
  ghost predicate NoZeroDivisors() {
    forall a: int, b: int :: Eq(a * b, 0) ==> Eq(a, 0) || Eq(b, 0)
  }

  /** d is not the square of a quotient. */
  ghost predicate DIsNoSquare() {
    forall r: int, s: int :: Eq(r * r, CurveD() * (s * s)) ==> Eq(s, 0)
  }

  /** A point that stands for a point of the curve. */
  ghost predicate Proper(p: Point) {
    OnCurve(p) && !Eq(p.z, 0)
  }

  lemma ZeroProduct(a: int, b: int)
    requires NoZeroDivisors() && Eq(a * b, 0)
    ensures Eq(a, 0) || Eq(b, 0)
  {
  }

  lemma NonZeroProduct(a: int, b: int)
    requires Eq(a, 0) || Eq(b, 0)
    ensures Eq(a * b, 0)
  {
    hide Eq;
    EqRefl(a);
    EqRefl(b);
    if Eq(a, 0) {
      EqMul(a, 0, b, b);
    } else {
      EqMul(a, a, b, 0);
    }
  }

  lemma NotSquare(r: int, s: int)
    requires DIsNoSquare() && Eq(r * r, CurveD() * (s * s))
    ensures Eq(s, 0)
  {
  }

  lemma ProperTimes(a: int, b: int)
    requires NoZeroDivisors() && !Eq(a, 0) && !Eq(b, 0)
    ensures !Eq(a * b, 0)
  {
  }

  /** (Z2 (i X1 + c Y1))^2 is d (T1 (i X2 + Y2))^2, when d T1 T2 is c Z1 Z2 for a sign c and i^2 is -1. */
  lemma SquareOverD(p: Point, q: Point, c: int, i: int)
    requires OnCurve(p) && OnCurve(q) && c * c == 1 && Eq(i * i, -1) && Eq(K(p, q), c * (p.z * q.z))
    ensures var r, s := q.z * (i * p.x + c * p.y), p.t * (i * q.x + q.y);
            Eq(r * r, CurveD() * (s * s))
  {
    hide Eq, CurveD, OnCurve;
    var d := CurveD();
    SideOfSquare(p, i, c);
    SideOfSquare(q, i, 1);
    var u := p.z * p.z + d * (p.t * p.t) + 2 * (i * c) * (p.z * p.t);
    var v := q.z * q.z + d * (q.t * q.t) + 2 * (i * 1) * (q.z * q.t);
    var a, b := i * p.x + c * p.y, i * q.x + 1 * q.y;
    EqRefl(q.z * q.z);
    EqRefl(d * (p.t * p.t));
    EqMul(q.z * q.z, q.z * q.z, a * a, u);
    EqMul(d * (p.t * p.t), d * (p.t * p.t), b * b, v);
    SquareOfProduct(q.z, a);
    SquareOfProduct(p.t, b);
    SidesMeet(p, q, c, i);
    AssociateD(d, p.t * p.t, b * b);
    EqChain((q.z * q.z) * (a * a), (q.z * q.z) * u, (d * (p.t * p.t)) * v);
    EqChain((d * (p.t * p.t)) * (b * b), (d * (p.t * p.t)) * v, (d * (p.t * p.t)) * v);
    EqChain((q.z * q.z) * (a * a), (d * (p.t * p.t)) * v, (d * (p.t * p.t)) * (b * b));
  }

  lemma AssociateD(d: int, x: int, y: int)
    ensures (d * x) * y == d * (x * y)
  {
  }

  /** (i X + c Y)^2 on the curve. */
  lemma SideOfSquare(p: Point, i: int, c: int)
    requires OnCurve(p) && c * c == 1 && Eq(i * i, -1)
    ensures var a := i * p.x + c * p.y;
            Eq(a * a, p.z * p.z + CurveD() * (p.t * p.t) + 2 * (i * c) * (p.z * p.t))
  {
    hide Eq, CurveD;
    var a := i * p.x + c * p.y;
    BinomialSquare(i, p.x, c, p.y);
    EqRefl(p.x * p.x);
    EqRefl(p.y * p.y);
    EqRefl(2 * (i * c));
    EqMul(i * i, -1, p.x * p.x, p.x * p.x);
    EqAdd(p.y * p.y, p.y * p.y, (i * i) * (p.x * p.x), -1 * (p.x * p.x));
    EqMul(2 * (i * c), 2 * (i * c), p.x * p.y, p.z * p.t);
    EqChain(p.y * p.y + (i * i) * (p.x * p.x), p.y * p.y - p.x * p.x, p.z * p.z + CurveD() * (p.t * p.t));
    EqAdd(p.y * p.y + (i * i) * (p.x * p.x), p.z * p.z + CurveD() * (p.t * p.t),
          2 * (i * c) * (p.x * p.y), 2 * (i * c) * (p.z * p.t));
  }

  lemma BinomialSquare(i: int, x: int, c: int, y: int)
    requires c * c == 1
    ensures (i * x + c * y) * (i * x + c * y) == y * y + (i * i) * (x * x) + 2 * (i * c) * (x * y)
  {
    var a, b := i * x, c * y;
    assert (a + b) * (a + b) == a * a + b * b + 2 * (a * b);
    SquareOfProduct(i, x);
    SquareOfProduct(c, y);
    Exchange(i, x, c, y);
  }

  /** Both sides are Z1^2 Z2^2 + d T1^2 Z2^2 + 2 i c Z1 T1 Z2^2. */
  lemma SidesMeet(p: Point, q: Point, c: int, i: int)
    requires c * c == 1 && Eq(K(p, q), c * (p.z * q.z))
    ensures var d := CurveD();
            Eq((q.z * q.z) * (p.z * p.z + d * (p.t * p.t) + 2 * (i * c) * (p.z * p.t)),
               (d * (p.t * p.t)) * (q.z * q.z + d * (q.t * q.t) + 2 * (i * 1) * (q.z * q.t)))
  {
    hide Eq, CurveD;
    var d, k, w := CurveD(), K(p, q), p.z * q.z;
    var base := d * (p.t * p.t) * (q.z * q.z);
    EqRefl(base);
    EqRefl(2 * i * (p.t * q.z));
    EqMul(k, c * w, k, c * w);
    EqMul(k, c * w, 2 * i * (p.t * q.z), 2 * i * (p.t * q.z));
    EqAdd(base, base, k * k, (c * w) * (c * w));
    EqAdd(base + k * k, base + (c * w) * (c * w), k * (2 * i * (p.t * q.z)), (c * w) * (2 * i * (p.t * q.z)));
    LeftSide(p.z, q.z, p.t, d, i, c);
    RightSide(p.t, q.t, q.z, d, i);
    EqChain(base + k * k + k * (2 * i * (p.t * q.z)), base + (c * w) * (c * w) + (c * w) * (2 * i * (p.t * q.z)),
            base + (c * w) * (c * w) + (c * w) * (2 * i * (p.t * q.z)));
  }

  lemma LeftSide(z: int, y: int, t: int, d: int, i: int, c: int)
    requires c * c == 1
    ensures (y * y) * (z * z + d * (t * t) + 2 * (i * c) * (z * t)) ==
            d * (t * t) * (y * y) + (c * (z * y)) * (c * (z * y)) + (c * (z * y)) * (2 * i * (t * y))
  {
    SquareOfProduct(c, z * y);
    SquareOfProduct(z, y);
    var a, b, e := z * z, d * (t * t), 2 * (i * c) * (z * t);
    assert (y * y) * (a + b + e) == (y * y) * a + (y * y) * b + (y * y) * e;
    assert (y * y) * e == (c * (z * y)) * (2 * i * (t * y)) by {
      assert (y * y) * e == 2 * i * c * (z * t) * (y * y);
      Exchange(z, t, y, y);
      assert (c * (z * y)) * (2 * i * (t * y)) == 2 * i * c * ((z * y) * (t * y));
    }
  }

  lemma RightSide(t: int, s: int, y: int, d: int, i: int)
    ensures (d * (t * t)) * (y * y + d * (s * s) + 2 * (i * 1) * (y * s)) ==
            d * (t * t) * (y * y) + (d * (t * s)) * (d * (t * s)) + (d * (t * s)) * (2 * i * (t * y))
  {
    SquareOfScaled(d, t, s);
    var a, b, e := y * y, d * (s * s), 2 * (i * 1) * (y * s);
    assert (d * (t * t)) * (a + b + e) == (d * (t * t)) * a + (d * (t * t)) * b + (d * (t * t)) * e;
    assert (d * (t * t)) * e == (d * (t * s)) * (2 * i * (t * y)) by {
      assert (d * (t * t)) * e == 2 * i * d * ((t * t) * (y * s));
      Exchange(t, t, s, y);
      assert (d * (t * s)) * (2 * i * (t * y)) == 2 * i * d * ((t * s) * (t * y));
    }
  }

  /** If d T1 T2 were plus or minus Z1 Z2, both square roots of -1 would make X2 a multiple of Y2. */
  lemma RootsVanish(p: Point, q: Point, c: int, i: int)
    requires NoZeroDivisors() && DIsNoSquare() && OnCurve(p) && OnCurve(q) && c * c == 1 && Eq(i * i, -1)
    requires Eq(K(p, q), c * (p.z * q.z)) && !Eq(p.t, 0)
    ensures Eq(i * q.x + q.y, 0)
  {
    hide Eq, CurveD, NoZeroDivisors, DIsNoSquare, OnCurve;
    SquareOverD(p, q, c, i);
    NotSquare(q.z * (i * p.x + c * p.y), p.t * (i * q.x + q.y));
    ZeroProduct(p.t, i * q.x + q.y);
  }

  lemma VanishingMeansZeroT(p: Point)
    requires NoZeroDivisors() && Proper(p) && Eq(p.y, 0)
    ensures Eq(p.t, 0)
  {
    hide Eq, CurveD, NoZeroDivisors;
    NonZeroProduct(p.x, p.y);
    EqRefl(p.x * p.y);
    EqRefl(p.z * p.t);
    EqChain(p.x * p.y, p.z * p.t, p.z * p.t);
    EqChain(p.z * p.t, p.x * p.y, 0);
    ZeroProduct(p.z, p.t);
  }

  /** d T1 T2 is never plus or minus Z1 Z2. */
  lemma DenominatorsNonZero(p: Point, q: Point, c: int)
    requires NoZeroDivisors() && DIsNoSquare() && Proper(p) && Proper(q) && (c == 1 || c == -1)
    ensures !Eq(K(p, q), c * (p.z * q.z))
  {
    hide Eq, CurveD, NoZeroDivisors, DIsNoSquare, OnCurve, Fe;
    var i := Fe(I_LIMBS);
    RootOfMinusOne();
    ProperTimes(p.z, q.z);
    SignedNonZero(c, p.z * q.z);
    if Eq(K(p, q), c * (p.z * q.z)) {
      FactorsNonZero(p, q, c);
      RootsVanish(p, q, c, i);
      RootsVanish(p, q, c, -i);
      BothZero(i, q.x, q.y);
      VanishingMeansZeroT(q);
    }
  }

  lemma RootOfMinusOne()
    ensures var i := Fe(I_LIMBS); Eq(i * i, -1) && Eq((-i) * (-i), -1)
  {
    hide Fe, Mod;
    var i := Fe(I_LIMBS);
    SquareOfI();
    Lift(i, i);
    MinusOne();
    assert (-i) * (-i) == i * i;
  }

  lemma SignedNonZero(c: int, w: int)
    requires (c == 1 || c == -1) && !Eq(w, 0)
    ensures !Eq(c * w, 0)
  {
    hide Eq;
    assert c * (c * w) == w;
    EqRefl(c);
    if Eq(c * w, 0) {
      EqMul(c, c, c * w, 0);
    }
  }

  lemma FactorsNonZero(p: Point, q: Point, c: int)
    requires Eq(K(p, q), c * (p.z * q.z)) && !Eq(c * (p.z * q.z), 0)
    ensures !Eq(p.t, 0) && !Eq(q.t, 0)
  {
    hide Eq, CurveD;
    if Eq(p.t, 0) || Eq(q.t, 0) {
      NonZeroProduct(p.t, q.t);
      NonZeroProduct(CurveD(), p.t * q.t);
      EqRefl(c * (p.z * q.z));
      EqChain(K(p, q), c * (p.z * q.z), c * (p.z * q.z));
      EqChain(c * (p.z * q.z), K(p, q), 0);
    }
  }

  lemma BothZero(i: int, x: int, y: int)
    requires NoZeroDivisors() && Eq(i * x + y, 0) && Eq(-i * x + y, 0)
    ensures Eq(y, 0)
  {
    hide Eq, NoZeroDivisors;
    EqAdd(i * x + y, 0, -i * x + y, 0);
    assert i * x + y + (-i * x + y) == 2 * y;
    SmallNonZero();
    ZeroProduct(2, y);
  }

  lemma SmallNonZero()
    ensures !Eq(2, 0) && !Eq(4, 0)
  {
    DivModUnique(2, P, 0, 2);
    DivModUnique(4, P, 0, 4);
    DivModUnique(0, P, 0, 0);
  }

  /** Addition of proper points gives a proper point: the formulas are complete. */
  lemma AddStaysProper(p: Point, q: Point)
    requires NoZeroDivisors() && DIsNoSquare() && Proper(p) && Proper(q)
    ensures Proper(AddPoints(p, q))
  {
    hide Eq, CurveD, Mod, NoZeroDivisors, DIsNoSquare, AddPoints, OnCurve, E, F, G, H;
    AddKeepsCurve(p, q);
    AddForm(p, q);
    DenominatorsNonZero(p, q, 1);
    DenominatorsNonZero(p, q, -1);
    FactorNonZero(p, q);
    ProperTimes(G(p, q), F(p, q));
    SmallNonZero();
    ProperTimes(4, G(p, q) * F(p, q));
    EqMod(4 * (G(p, q) * F(p, q)));
    var z := Mod(4 * (G(p, q) * F(p, q)));
    if Eq(z, 0) {
      EqChain(z, 4 * (G(p, q) * F(p, q)), z);
      EqChain(4 * (G(p, q) * F(p, q)), z, 0);
    }
  }

  lemma FactorNonZero(p: Point, q: Point)
    requires !Eq(K(p, q), 1 * (p.z * q.z)) && !Eq(K(p, q), -1 * (p.z * q.z))
    ensures !Eq(F(p, q), 0) && !Eq(G(p, q), 0)
  {
    hide Eq, CurveD, K;
    var w, k := p.z * q.z, K(p, q);
    EqRefl(w);
    EqRefl(-w);
    if Eq(w - k, 0) {
      EqAdd(w, w, w - k, 0);
    }
    if Eq(w + k, 0) {
      EqAdd(w + k, 0, w, w);
    }
  }

  lemma ZeroIsProper()
    ensures Proper(ZERO)
  {
    hide OnCurve;
    ZeroOnCurve();
    DivModUnique(1, P, 0, 1);
    DivModUnique(0, P, 0, 0);
  }

  // Encoding and decoding.

  /** The number in the lower 255 bits is below p, and one whose square is 1 comes with a clear sign bit. */
  predicate Canonical(b: seq<u8>)
    requires |b| == 32
  {
    LittleEndian(b) % (P + 19) < P && (FMul(DecodeY(b), DecodeY(b)) == 1 ==> b[31] / 0x80 == 0)
  }

  lemma NoRootOfZero(v: int)
    ensures Root(0, v) == Some(0)
  {
    hide FPow;
    ModOfZero();
    var a, c := FPow(v, 3), FPow(FMul(0, FPow(v, 7)), (P - 5) / 8);
    assert 0 * a == 0 && 0 * c == 0;
    assert RootCandidate(0, v) == 0;
    assert FMul(FMul(0, 0), v) == 0;
  }

  lemma ModOfZero()
    ensures Mod(0) == 0 && forall x: int :: FMul(0, x) == 0
  {
    DivModUnique(0, P, 0, 0);
    forall x: int ensures FMul(0, x) == 0 {
      assert 0 * x == 0;
    }
  }

  /** The decoded X is 0 exactly when the square of Y is 1. */
  lemma ZeroX(b: seq<u8>)
    requires |b| == 32 && DecodeNegated(b).Some?
    ensures DecodeNegated(b).value.x == 0 <==> FMul(DecodeY(b), DecodeY(b)) == 1
  {
    hide DecodeNegated, FMul, DecodeY, OnCurve;
    if FMul(DecodeY(b), DecodeY(b)) == 1 {
      DecodesToZero(b);
    } else if DecodeNegated(b).value.x == 0 {
      DecodedPoint(b);
      SquareIsOne(DecodeNegated(b).value);
    }
  }

  lemma DecodesToZero(b: seq<u8>)
    requires |b| == 32 && FMul(DecodeY(b), DecodeY(b)) == 1
    ensures DecodeNegated(b) == Some(Point(0, DecodeY(b), 1, 0))
  {
    hide Fe, Root, DecodeY, FMul, FAdd, FSub;
    var y := DecodeY(b);
    OneMinusOne();
    ModOfZero();
    NoRootOfZero(FAdd(1, FMul(FMul(y, y), Fe(D_LIMBS))));
  }

  lemma OneMinusOne()
    ensures FSub(1, 1) == 0 && FSub(0, 0) == 0
  {
    ModOfZero();
  }

  lemma SquareIsOne(p: Point)
    requires OnCurve(p) && p.z == 1 && p.x == 0
    ensures FMul(p.y, p.y) == 1
  {
    hide Mod, CurveD, Eq;
    assert p.x * p.y == 0 && p.z * p.t == p.t && p.z * p.z == 1 && p.y * p.y - p.x * p.x == p.y * p.y;
    EqRefl(p.t);
    EqChain(0, p.t, p.t);
    NonZeroProduct(p.t, p.t);
    NonZeroProduct(CurveD(), p.t * p.t);
    EqRefl(1);
    EqAdd(1, 1, CurveD() * (p.t * p.t), 0);
    EqChain(p.y * p.y, 1 + CurveD() * (p.t * p.t), 1);
    assert Mod(p.y * p.y) == Mod(1) by {
      assert Eq(p.y * p.y, 1);
      EqIsMod(p.y * p.y, 1);
    }
    ModOne();
  }

  lemma EqIsMod(a: int, b: int)
    requires Eq(a, b)
    ensures Mod(a) == Mod(b)
  {
  }

  function NegatePoint(p: Point): Point {
    Point(FSub(0, p.x), p.y, p.z, FSub(0, p.t))
  }

  lemma SignBit(b: seq<u8>)
    requires |b| == 32
    ensures LittleEndian(b) == LittleEndian(b) % (P + 19) + (P + 19) * (b[31] / 0x80) && LittleEndian(b) % (P + 19) >= 0
  {
    hide Eval, Pow;
    assert b[..31 + 1] == b;
    EvalSnoc(0x100, b, 31);
    EvalDigits(0x100, b[..31]);
    TopWeight();
    var low := LittleEndian(b[..31]) + b[31] % 0x80 * Pow(0x100, 31);
    assert b[31] * Pow(0x100, 31) == b[31] / 0x80 * (P + 19) + b[31] % 0x80 * Pow(0x100, 31);
    MulMonotone(Pow(0x100, 31), b[31] % 0x80, 0x7f);
    DivModUnique(LittleEndian(b), P + 19, b[31] / 0x80, low);
  }

  lemma {:induction false} PowerOfOne(e: nat)
    ensures FPow(1, e) == 1
    decreases e
  {
    hide FMul;
    if e == 0 {
      ModOne();
    } else {
      PowerOfOne(e - 1);
      ModOne();
      FMulLaws(Mod(1), 1, 0);
    }
  }

  /** The decoder also takes some encodings that the standard refuses.  Encoding what was decoded gives
      the bytes back exactly when they are canonical. */
  lemma DecodeThenEncode(b: seq<u8>)
    requires |b| == 32 && DecodeNegated(b).Some?
    ensures var p := DecodeNegated(b).value;
            Encode(NegatePoint(p)) == LittleEndian(b) <==> Canonical(b)
  {
    hide DecodeNegated, FPow, FMul, FSub, Mod, Eval, OnCurve;
    var p := DecodeNegated(b).value;
    DecodedPoint(b);
    ZeroX(b);
    SignBit(b);
    PowerOfOne(P - 2);
    var x := FSub(0, p.x);
    FSubRange(0, p.x);
    ParityFlips(p.x);
    OneIsNeutral(x);
    YInRange(LittleEndian(b) % (P + 19));
    OneIsNeutral(p.y);
  }

  /** Two encodings that the decoder takes and that do not come back: 1 written as p + 1, and 1 with the sign set. */
  lemma NonCanonicalAccepted(b: seq<u8>)
    requires b in {[0xee] + seq(30, _ => 0xff) + [0x7f], [1] + seq(30, _ => 0) + [0x80]}
    ensures DecodeNegated(b).Some? && !Canonical(b)
    ensures Encode(NegatePoint(DecodeNegated(b).value)) != LittleEndian(b)
  {
    hide Eval, Encode, DecodeNegated, Pow;
    TopWeight();
    if b[31] == 0x7f {
      NumberOf(0xee, 0xff, 0x7f);
    } else {
      NumberOf(1, 0, 0x80);
    }
    assert LittleEndian(b) == if b[31] == 0x7f then P + 1 else P + 20;
    DivModUnique(LittleEndian(b), P + 19, b[31] / 0x80, if b[31] == 0x7f then P + 1 else 1);
    DivModUnique(P + 1, P, 1, 1);
    DivModUnique(1, P, 0, 1);
    assert DecodeY(b) == 1 && FMul(1, 1) == 1;
    DecodesToZero(b);
    DecodeThenEncode(b);
  }

  lemma {:induction false} EvalEqual(x: int, n: nat)
    ensures Eval(0x100, seq(n, _ => x)) * 0xff == x * (Pow(0x100, n) - 1)
    decreases n
  {
    if n > 0 {
      EvalEqual(x, n - 1);
      assert seq(n, _ => x)[1..] == seq(n - 1, _ => x);
    }
  }

  lemma NumberOf(lo: u8, mid: u8, hi: u8)
    requires mid == 0 || mid == 0xff
    ensures var b := [lo] + seq(30, _ => mid) + [hi];
            LittleEndian(b) == lo + (if mid == 0 then 0 else Pow(0x100, 31) - 0x100) + hi * Pow(0x100, 31)
  {
    hide Pow, Eval;
    var b, m := [lo] + seq(30, _ => mid) + [hi], seq(30, _ => mid);
    assert b[1..] == m + [hi] && b[1..][..30] == m && b[1..][..30 + 1] == b[1..];
    FirstByte(b);
    EvalSnoc(0x100, b[1..], 30);
    EvalEqual(mid, 30);
    NextPower(30);
    WeighUp(lo, mid, hi, Eval(0x100, m), Pow(0x100, 30));
  }

  lemma FirstByte(b: seq<u8>)
    requires b != []
    ensures Eval(0x100, b) == b[0] + 0x100 * Eval(0x100, b[1..])
  {
  }

  lemma NextPower(n: nat)
    ensures Pow(0x100, n + 1) == 0x100 * Pow(0x100, n)
  {
  }

  lemma WeighUp(lo: u8, mid: u8, hi: u8, e: int, w: int)
    requires (mid == 0 || mid == 0xff) && e * 0xff == mid * (w - 1)
    ensures lo + 0x100 * (e + hi * w) == lo + (if mid == 0 then 0 else 0x100 * w - 0x100) + hi * (0x100 * w)
  {
    if mid == 0 {
      assert e == 0;
    } else {
      assert e == w - 1;
    }
  }

  lemma OneIsNeutral(x: int)
    requires 0 <= x < P
    ensures FMul(x, 1) == x
  {
    DivModUnique(x, P, 0, x);
  }

  lemma YInRange(l: int)
    requires 0 <= l < P + 19
    ensures 0 <= Mod(l) < P && (Mod(l) == l <==> l < P)
    ensures l >= P ==> Mod(l) == l - P
  {
    DivModUnique(l, P, if l < P then 0 else 1, if l < P then l else l - P);
  }
}

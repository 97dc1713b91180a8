/** The addition formulas keep the curve equation and compute the affine addition law. */
module EdwardsLaws {
  import opened Limbs
  import opened Residues
  import opened Field25519
  import opened FieldCodec
  import opened Edwards

  /** Limbs of the curve constant d. */
  const D_LIMBS: seq<int> := [0x78a3, 0x1359, 0x4dca, 0x75eb, 0xd8ab, 0x4141, 0x0a4d, 0x0070,
                              0xe898, 0x7779, 0x4079, 0x8cc7, 0xfe73, 0x2b6f, 0x6cee, 0x5203]

  /** a and b are congruent modulo p. */
  ghost predicate Eq(a: int, b: int) {
    Mod(a) == Mod(b)
  }

  function CurveD(): int {
    Value(D_LIMBS)
  }

  lemma EqAdd(a: int, a': int, b: int, b': int)
    requires Eq(a, a') && Eq(b, b')
    ensures Eq(a + b, a' + b') && Eq(a - b, a' - b')
  {
    ModSum(a, b, P);
    ModSum(a', b', P);
  }

  lemma EqMul(a: int, a': int, b: int, b': int)
    requires Eq(a, a') && Eq(b, b')
    ensures Eq(a * b, a' * b')
  {
    ModProduct(a, b, P);
    ModProduct(a', b', P);
  }

  /** Residues may stand for any integers with those residues. */
  lemma Lift(a: int, b: int)
    ensures FMul(Mod(a), Mod(b)) == Mod(a * b) && FMul(a, b) == Mod(a * b)
    ensures FAdd(Mod(a), Mod(b)) == Mod(a + b) && FSub(Mod(a), Mod(b)) == Mod(a - b)
  {
    ModProduct(a, b, P);
    ModSum(a, b, P);
  }

  /** X * Y = Z * T and -X^2 + Y^2 = Z^2 + d T^2: the point (X / Z, Y / Z) is on the curve and T is
      the product of its coordinates, scaled by Z. */
  ghost predicate OnCurve(p: Point) {
    && Eq(p.x * p.y, p.z * p.t)
    && Eq(p.y * p.y - p.x * p.x, p.z * p.z + CurveD() * (p.t * p.t))
  }

  // The formulas, without reductions.  Each of these is half of the value in the program.

  function E(p: Point, q: Point): int {
    p.x * q.y + p.y * q.x
  }

  function H(p: Point, q: Point): int {
    p.y * q.y + p.x * q.x
  }

  function K(p: Point, q: Point): int {
    CurveD() * (p.t * q.t)
  }

  function F(p: Point, q: Point): int {
    p.z * q.z - K(p, q)
  }

  function G(p: Point, q: Point): int {
    p.z * q.z + K(p, q)
  }

  lemma DoubledConstant()
    ensures Eq(Value(D2_LIMBS), 2 * CurveD())
  {
    hide Eval;
    ConstantsD();
    SameResidue(Value(D2_LIMBS), 2 * Value(D_LIMBS), -1, P);
  }

  lemma ConstantsD()
    ensures Value(D_LIMBS) == 0x5203_6cee_2b6f_fe73_8cc7_4079_7779_e898_0070_0a4d_4141_d8ab_75eb_4dca_1359_78a3
    ensures Value(D2_LIMBS) == 0x2406_d9dc_56df_fce7_198e_80f2_eef3_d130_00e0_149a_8283_b156_ebd6_9b94_26b2_f159
  {
    hide Eval;
    ConstantValue(D2_LIMBS);
    ConstantValue(D_LIMBS);
  }

  lemma AddForm(p: Point, q: Point)
    ensures AddPoints(p, q) == Point(Mod(4 * (E(p, q) * F(p, q))), Mod(4 * (H(p, q) * G(p, q))),
                                     Mod(4 * (G(p, q) * F(p, q))), Mod(4 * (E(p, q) * H(p, q))))
  {
    hide Mod, FMul, FAdd, FSub, CurveD, E, F, G, H, K;
    AddTerms(p, q);
    AddSums(p, q);
    Quadruple(E(p, q), F(p, q));
    Quadruple(H(p, q), G(p, q));
    Quadruple(G(p, q), F(p, q));
    Quadruple(E(p, q), H(p, q));
  }

  lemma Quadruple(x: int, y: int)
    ensures FMul(Mod(2 * x), Mod(2 * y)) == Mod(4 * (x * y))
  {
    hide Mod;
    Lift(2 * x, 2 * y);
    assert (2 * x) * (2 * y) == 4 * (x * y);
  }

  /** The four products that an addition starts with. */
  lemma AddTerms(p: Point, q: Point)
    ensures FMul(FSub(p.y, p.x), FSub(q.y, q.x)) == Mod((p.y - p.x) * (q.y - q.x))
    ensures FMul(FAdd(p.x, p.y), FAdd(q.x, q.y)) == Mod((p.x + p.y) * (q.x + q.y))
    ensures FMul(FMul(p.t, q.t), Fe(D2_LIMBS)) == Mod(2 * K(p, q))
    ensures FAdd(FMul(p.z, q.z), FMul(p.z, q.z)) == Mod(2 * (p.z * q.z))
  {
    hide Mod, Value;
    Lift(p.y - p.x, q.y - q.x);
    Lift(p.x + p.y, q.x + q.y);
    Lift(p.t * q.t, Value(D2_LIMBS));
    Lift(p.z * q.z, p.z * q.z);
    DoubledConstant();
    EqMul(p.t * q.t, p.t * q.t, Value(D2_LIMBS), 2 * CurveD());
    assert p.t * q.t * (2 * CurveD()) == 2 * K(p, q);
  }

  lemma AddSums(p: Point, q: Point)
    ensures var a, b := Mod((p.y - p.x) * (q.y - q.x)), Mod((p.x + p.y) * (q.x + q.y));
            FSub(b, a) == Mod(2 * E(p, q)) && FAdd(b, a) == Mod(2 * H(p, q))
    ensures var c, d := Mod(2 * K(p, q)), Mod(2 * (p.z * q.z));
            FSub(d, c) == Mod(2 * F(p, q)) && FAdd(d, c) == Mod(2 * G(p, q))
  {
    hide Mod, CurveD, K;
    Lift((p.x + p.y) * (q.x + q.y), (p.y - p.x) * (q.y - q.x));
    Lift(2 * (p.z * q.z), 2 * K(p, q));
    SumOfProducts(p.x, p.y, q.x, q.y);
  }

  lemma SumOfProducts(x: int, y: int, u: int, v: int)
    ensures (x + y) * (u + v) - (y - x) * (v - u) == 2 * (x * v + y * u)
    ensures (x + y) * (u + v) + (y - x) * (v - u) == 2 * (y * v + x * u)
  {
  }

  // Polynomial identities over the integers behind the closure proof.

  lemma SquaresOfSums(x: int, y: int, u: int, v: int)
    ensures var e, h := x * v + y * u, y * v + x * u;
            && h * h - e * e == (y * y - x * x) * (v * v - u * u)
            && h * h + e * e == (y * y + x * x) * (v * v + u * u) + 4 * ((x * y) * (u * v))
            && e * h == (x * y) * (v * v + u * u) + (u * v) * (y * y + x * x)
  {
  }

  lemma DifferenceOfSquares(e: int, h: int, w: int, k: int)
    ensures var f, g := w - k, w + k;
            (h * g) * (h * g) - (e * f) * (e * f) ==
            (h * h - e * e) * (w * w + k * k) + 2 * (w * k) * (h * h + e * e)
  {
    SquareOfProduct(h, w + k);
    SquareOfProduct(e, w - k);
    SplitSquares(h * h, e * e, w * w + k * k, 2 * (w * k));
  }

  lemma SquareOfProduct(a: int, b: int)
    ensures (a * b) * (a * b) == (a * a) * (b * b)
  {
  }

  lemma SplitSquares(a: int, b: int, c: int, d: int)
    ensures a * (c + d) - b * (c - d) == (a - b) * c + d * (a + b)
  {
  }

  /** (u1 s2 + u2 s1)^2, where s^2 = m^2 + 4 u^2. */
  lemma SquareOfMixed(u1: int, s1: int, m1: int, u2: int, s2: int, m2: int)
    requires s1 * s1 == m1 * m1 + 4 * (u1 * u1) && s2 * s2 == m2 * m2 + 4 * (u2 * u2)
    ensures var r := u1 * s2 + u2 * s1;
            r * r == (u1 * u1) * (m2 * m2) + (u2 * u2) * (m1 * m1) + 2 * (u1 * u2) * (s1 * s2 + 4 * (u1 * u2))
  {
    var a, b := u1 * s2, u2 * s1;
    assert (a + b) * (a + b) == a * a + b * b + 2 * (a * b);
    SquareOfProduct(u1, s2);
    SquareOfProduct(u2, s1);
    Distribute(u1 * u1, m2 * m2, 4 * (u2 * u2));
    Distribute(u2 * u2, m1 * m1, 4 * (u1 * u1));
    SquareOfProduct(u1, u2);
    Exchange(u1, s2, u2, s1);
    Distribute(2 * (u1 * u2), s1 * s2, 4 * (u1 * u2));
  }

  lemma FourTermIdentity(u: int, a: int, v: int, b: int)
    ensures (u + a) * (v + b) * (u * v + a * b) - (u * v - a * b) * (u * v - a * b) ==
            (u * a) * ((v + b) * (v + b)) + (v * b) * ((u + a) * (u + a))
  {
  }

  /** What is left of the curve equation of a sum once the equations of the addends are factored out. */
  function Bracket(m1: int, n1: int, m2: int, n2: int, w2: int, k2: int): int {
    m1 * m2 * (w2 + k2) - (w2 - k2) * (w2 - k2) - (n1 * (m2 * m2) + n2 * (m1 * m1))
  }

  lemma CurveGap(d: int, x: int, y: int, u: int, v: int, w: int, k: int)
    ensures var e, h, f, g := x * v + y * u, y * v + x * u, w - k, w + k;
            var m1, m2, u1, u2 := y * y - x * x, v * v - u * u, x * y, u * v;
            (h * g) * (h * g) - (e * f) * (e * f) - ((g * f) * (g * f) + d * ((e * h) * (e * h))) ==
            Bracket(m1, d * (u1 * u1), m2, d * (u2 * u2), w * w, k * k)
            + 2 * ((w * k - d * (u1 * u2)) * ((y * y + x * x) * (v * v + u * u) + 4 * (u1 * u2)))
  {
    hide Bracket;
    var e, h, f, g := x * v + y * u, y * v + x * u, w - k, w + k;
    var m1, m2, u1, u2 := y * y - x * x, v * v - u * u, x * y, u * v;
    var s1, s2 := y * y + x * x, v * v + u * u;
    SquaresOfSums(x, y, u, v);
    DifferenceOfSquares(e, h, w, k);
    SumSquares(x, y);
    SumSquares(u, v);
    SquareOfMixed(u1, s1, m1, u2, s2, m2);
    assert g * f == w * w - k * k;
    CollectGap(d, m1, m2, u1 * u1, u2 * u2, u1 * u2, w * w, k * k, w * k, s1 * s2);
  }

  lemma SumSquares(x: int, y: int)
    ensures (y * y + x * x) * (y * y + x * x) == (y * y - x * x) * (y * y - x * x) + 4 * ((x * y) * (x * y))
  {
  }

  lemma CollectGap(d: int, m1: int, m2: int, a: int, b: int, c: int, w2: int, k2: int, wk: int, ss: int)
    ensures m1 * m2 * (w2 + k2) + 2 * wk * (ss + 4 * c) - ((w2 - k2) * (w2 - k2)
            + d * (a * (m2 * m2) + b * (m1 * m1) + 2 * c * (ss + 4 * c))) ==
            Bracket(m1, d * a, m2, d * b, w2, k2) + 2 * ((wk - d * c) * (ss + 4 * c))
  {
    var r := ss + 4 * c;
    assert d * (a * (m2 * m2) + b * (m1 * m1) + 2 * c * r)
           == d * (a * (m2 * m2)) + d * (b * (m1 * m1)) + 2 * ((d * c) * r);
    assert d * (a * (m2 * m2)) == (d * a) * (m2 * m2) && d * (b * (m1 * m1)) == (d * b) * (m1 * m1);
  }

  /** On the curve, d (X Y)^2 is Z^2 times d T^2. */
  lemma ScaledProduct(p: Point)
    requires OnCurve(p)
    ensures Eq(CurveD() * ((p.x * p.y) * (p.x * p.y)), (p.z * p.z) * (CurveD() * (p.t * p.t)))
  {
    hide Eq, CurveD;
    EqRefl(CurveD());
    EqMul(p.x * p.y, p.z * p.t, p.x * p.y, p.z * p.t);
    EqMul(CurveD(), CurveD(), (p.x * p.y) * (p.x * p.y), (p.z * p.t) * (p.z * p.t));
    SquareOfProduct(p.z, p.t);
    Rotate(CurveD(), p.z * p.z, p.t * p.t);
  }

  lemma Rotate(a: int, b: int, c: int)
    ensures a * (b * c) == b * (a * c)
  {
  }

  lemma EqRefl(a: int)
    ensures Eq(a, a)
  {
  }

  lemma EqChain(a: int, b: int, c: int)
    requires Eq(a, b) && Eq(b, c)
    ensures Eq(a, c) && Eq(b, a)
  {
  }

  /** Bracket respects congruence. */
  lemma BracketCongruent(m1: int, m1': int, n1: int, n1': int, m2: int, m2': int, n2: int, n2': int, w2: int, k2: int)
    requires Eq(m1, m1') && Eq(n1, n1') && Eq(m2, m2') && Eq(n2, n2')
    ensures Eq(Bracket(m1, n1, m2, n2, w2, k2), Bracket(m1', n1', m2', n2', w2, k2))
  {
    hide Eq;
    EqRefl(w2 + k2);
    EqRefl((w2 - k2) * (w2 - k2));
    EqMul(m1, m1', m2, m2');
    EqMul(m1 * m2, m1' * m2', w2 + k2, w2 + k2);
    EqMul(m1, m1', m1, m1');
    EqMul(m2, m2', m2, m2');
    EqMul(n1, n1', m2 * m2, m2' * m2');
    EqMul(n2, n2', m1 * m1, m1' * m1');
    EqAdd(n1 * (m2 * m2), n1' * (m2' * m2'), n2 * (m1 * m1), n2' * (m1' * m1'));
    EqAdd(m1 * m2 * (w2 + k2), m1' * m2' * (w2 + k2), (w2 - k2) * (w2 - k2), (w2 - k2) * (w2 - k2));
    EqAdd(m1 * m2 * (w2 + k2) - (w2 - k2) * (w2 - k2), m1' * m2' * (w2 + k2) - (w2 - k2) * (w2 - k2),
          n1 * (m2 * m2) + n2 * (m1 * m1), n1' * (m2' * m2') + n2' * (m1' * m1'));
  }

  /** The bracket of two points on the curve is zero modulo p. */
  lemma BracketVanishes(p: Point, q: Point)
    requires OnCurve(p) && OnCurve(q)
    ensures var d, w, k := CurveD(), p.z * q.z, K(p, q);
            Eq(Bracket(p.y * p.y - p.x * p.x, d * ((p.x * p.y) * (p.x * p.y)),
                       q.y * q.y - q.x * q.x, d * ((q.x * q.y) * (q.x * q.y)), w * w, k * k), 0)
  {
    hide Eq, CurveD;
    var d, w, k := CurveD(), p.z * q.z, K(p, q);
    var u, a, v, b := p.z * p.z, d * (p.t * p.t), q.z * q.z, d * (q.t * q.t);
    ScaledProduct(p);
    ScaledProduct(q);
    BracketCongruent(p.y * p.y - p.x * p.x, u + a, d * ((p.x * p.y) * (p.x * p.y)), u * a,
                     q.y * q.y - q.x * q.x, v + b, d * ((q.x * q.y) * (q.x * q.y)), v * b, w * w, k * k);
    SquareOfProduct(p.z, q.z);
    SquareOfScaled(d, p.t, q.t);
    FourTermIdentity(u, a, v, b);
  }

  lemma SquareOfScaled(d: int, t: int, s: int)
    ensures (d * (t * s)) * (d * (t * s)) == (d * (t * t)) * (d * (s * s))
  {
    SquareOfProduct(d, t * s);
    SquareOfProduct(t, s);
    SquareOfProduct(d, 1);
    Exchange(d, t * t, d, s * s);
  }

  /** The other part of the gap is zero modulo p, because X Y = Z T at both points. */
  lemma CrossTermVanishes(p: Point, q: Point, r: int)
    requires OnCurve(p) && OnCurve(q)
    ensures Eq(2 * (((p.z * q.z) * K(p, q) - CurveD() * ((p.x * p.y) * (q.x * q.y))) * r), 0)
  {
    hide Eq, CurveD;
    var d, w, k, c := CurveD(), p.z * q.z, K(p, q), (p.x * p.y) * (q.x * q.y);
    EqRefl(d);
    EqRefl(w * k);
    EqRefl(2 * r);
    EqMul(p.x * p.y, p.z * p.t, q.x * q.y, q.z * q.t);
    EqMul(d, d, c, (p.z * p.t) * (q.z * q.t));
    Exchange(p.z, p.t, q.z, q.t);
    Rotate(d, w, p.t * q.t);
    EqAdd(w * k, w * k, d * c, w * k);
    EqMul(w * k - d * c, 0, 2 * r, 2 * r);
    Rotate(2, w * k - d * c, r);
  }

  /** The halves of a sum satisfy the curve equation. */
  lemma CurveIdentity(p: Point, q: Point)
    requires OnCurve(p) && OnCurve(q)
    ensures var e, f, g, h := E(p, q), F(p, q), G(p, q), H(p, q);
            Eq((h * g) * (h * g) - (e * f) * (e * f), (g * f) * (g * f) + CurveD() * ((e * h) * (e * h)))
  {
    hide Eq, CurveD, Bracket, OnCurve;
    var e, f, g, h := E(p, q), F(p, q), G(p, q), H(p, q);
    var d, w, k := CurveD(), p.z * q.z, K(p, q);
    var r := (p.y * p.y + p.x * p.x) * (q.y * q.y + q.x * q.x) + 4 * ((p.x * p.y) * (q.x * q.y));
    CurveGap(d, p.x, p.y, q.x, q.y, w, k);
    BracketVanishes(p, q);
    CrossTermVanishes(p, q, r);
    var left, right := (h * g) * (h * g) - (e * f) * (e * f), (g * f) * (g * f) + d * ((e * h) * (e * h));
    EqAdd(left - right - 2 * ((w * k - d * ((p.x * p.y) * (q.x * q.y))) * r), 0,
          2 * ((w * k - d * ((p.x * p.y) * (q.x * q.y))) * r), 0);
    EqRefl(right);
    EqAdd(left - right, 0, right, right);
  }

  /** Addition stays on the curve. */
  lemma AddKeepsCurve(p: Point, q: Point)
    requires OnCurve(p) && OnCurve(q)
    ensures OnCurve(AddPoints(p, q))
  {
    hide Eq, CurveD, E, F, G, H, Mod, AddPoints;
    AddForm(p, q);
    CurveIdentity(p, q);
    var e, f, g, h := E(p, q), F(p, q), G(p, q), H(p, q);
    OnCurveScaled(e * f, h * g, g * f, e * h);
    assert (e * f) * (h * g) == (g * f) * (e * h);
  }

  /** Scaling all four coordinates by 4, and reducing them, matters to neither equation. */
  lemma OnCurveScaled(x: int, y: int, z: int, t: int)
    requires x * y == z * t && Eq(y * y - x * x, z * z + CurveD() * (t * t))
    ensures OnCurve(Point(Mod(4 * x), Mod(4 * y), Mod(4 * z), Mod(4 * t)))
  {
    hide Mod, CurveD;
    var d := CurveD();
    ScaledPair(x, y);
    ScaledPair(z, t);
    ScaledPair(x, x);
    ScaledPair(y, y);
    ScaledPair(z, z);
    ScaledPair(t, t);
    EqMul(d, d, Mod(4 * t) * Mod(4 * t), 16 * (t * t));
    EqMul(16, 16, y * y - x * x, z * z + d * (t * t));
    EqAdd(Mod(4 * y) * Mod(4 * y), 16 * (y * y), Mod(4 * x) * Mod(4 * x), 16 * (x * x));
    EqAdd(Mod(4 * z) * Mod(4 * z), 16 * (z * z), d * (Mod(4 * t) * Mod(4 * t)), d * (16 * (t * t)));
    Rotate(d, 16, t * t);
  }

  lemma ScaledPair(x: int, y: int)
    ensures Eq(Mod(4 * x) * Mod(4 * y), 16 * (x * y))
  {
    assert (4 * x) * (4 * y) == 16 * (x * y);
    ModProduct(4 * x, 4 * y, P);
  }

  /** The sum is the affine one: its coordinates are (x1 y2 + y1 x2) / (1 + d x1 x2 y1 y2) and
      (y1 y2 + x1 x2) / (1 - d x1 x2 y1 y2), with all denominators multiplied out. */
  lemma AddIsAffine(p: Point, q: Point)
    requires OnCurve(p) && OnCurve(q)
    ensures var r, zz := AddPoints(p, q), p.z * q.z;
            var dxy := CurveD() * ((p.x * p.y) * (q.x * q.y));
            && Eq(r.x * (zz * zz + dxy), r.z * ((p.x * q.y + p.y * q.x) * zz))
            && Eq(r.y * (zz * zz - dxy), r.z * ((p.y * q.y + p.x * q.x) * zz))
  {
    hide Eq, CurveD, Mod, AddPoints, E, F, G, H, OnCurve;
    var w, dxy := p.z * q.z, CurveD() * ((p.x * p.y) * (q.x * q.y));
    AddForm(p, q);
    Denominators(p, q);
    CrossMultiply(E(p, q), G(p, q), F(p, q), w, w * w + dxy);
    CrossMultiply(H(p, q), F(p, q), G(p, q), w, w * w - dxy);
    Numerators(p, q);
  }

  lemma Numerators(p: Point, q: Point)
    ensures E(p, q) == p.x * q.y + p.y * q.x && H(p, q) == p.y * q.y + p.x * q.x
  {
  }

  /** On the curve, the denominators of the affine law are Z1 Z2 times the factors g and f. */
  lemma Denominators(p: Point, q: Point)
    requires OnCurve(p) && OnCurve(q)
    ensures var w, dxy := p.z * q.z, CurveD() * ((p.x * p.y) * (q.x * q.y));
            Eq(w * w + dxy, w * G(p, q)) && Eq(w * w - dxy, w * F(p, q))
  {
    hide Eq, CurveD;
    var d, w, k, c := CurveD(), p.z * q.z, K(p, q), (p.x * p.y) * (q.x * q.y);
    EqRefl(w * w);
    EqRefl(d);
    EqMul(p.x * p.y, p.z * p.t, q.x * q.y, q.z * q.t);
    EqMul(d, d, c, (p.z * p.t) * (q.z * q.t));
    Exchange(p.z, p.t, q.z, q.t);
    Rotate(d, w, p.t * q.t);
    EqAdd(w * w, w * w, d * c, w * k);
    Spread(w, k);
  }

  lemma Spread(w: int, k: int)
    ensures w * (w + k) == w * w + w * k && w * (w - k) == w * w - w * k
  {
  }

  lemma CrossMultiply(a: int, b: int, c: int, w: int, n: int)
    requires Eq(n, w * b)
    ensures Eq(Mod(4 * (a * c)) * n, Mod(4 * (b * c)) * (a * w))
    ensures Eq(Mod(4 * (a * c)) * n, Mod(4 * (c * b)) * (a * w))
  {
    hide Mod, Eq;
    EqMod(4 * (a * c));
    EqMod(4 * (b * c));
    EqRefl(a * w);
    EqMul(Mod(4 * (a * c)), 4 * (a * c), n, w * b);
    EqMul(Mod(4 * (b * c)), 4 * (b * c), a * w, a * w);
    Exchange(a, c, w, b);
    Exchange(b, c, a, w);
    assert (4 * (a * c)) * (w * b) == 4 * ((a * c) * (w * b));
    assert (4 * (b * c)) * (a * w) == 4 * ((b * c) * (a * w));
    assert (a * w) * (c * b) == (b * a) * (c * w);
    assert b * c == c * b;
    EqChain(Mod(4 * (b * c)) * (a * w), (4 * (b * c)) * (a * w), (4 * (b * c)) * (a * w));
    EqChain(Mod(4 * (a * c)) * n, (4 * (a * c)) * (w * b), Mod(4 * (b * c)) * (a * w));
  }

  lemma EqMod(a: int)
    ensures Eq(Mod(a), a)
  {
    ModTwice(a, P);
  }

  lemma ZeroOnCurve()
    ensures OnCurve(ZERO)
  {
    hide CurveD, Mod;
    assert CurveD() * (0 * 0) == 0;
  }
}

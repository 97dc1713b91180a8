/** Key pairs and signatures (sections 5.1.5 and 5.1.6 of RFC 8032); and what was signed is accepted. */
module Signing {
  import opened Machine
  import opened Options
  import opened Limbs
  import opened Residues
  import opened Field25519
  import opened FieldCodec
  import opened FieldPower
  import opened Edwards
  import opened EdwardsLaws
  import opened Ladder
  import opened PointCodec
  import opened Completeness
  import opened Congruence
  import opened Encodings
  import opened GroupOrder
  import opened SignOpen
  import opened Acceptance
  import Roots
  import Sha512

  // The negative of a point.

  /** For (x, y) on the curve, adding (-x, y) to z (x, y, 1, x y) gives an E of 0, and H and F that are the same. */
  lemma NegationCancels(m: modulus, d: int, x: int, y: int, z: int, p: Point, n: int)
    requires OnAffine(m, d, x, y) && Cong(m, n, -x)
    requires Cong(m, p.x, x * z) && Cong(m, p.y, y * z) && Cong(m, p.t, (x * y) * z)
    ensures Cong(m, n * p.y + y * p.x, 0)
    ensures Cong(m, y * p.y + n * p.x, z - d * ((n * y) * p.t))
  {
    hide Cong;
    Refl(m, y);
    Refl(m, z);
    Refl(m, d);
    Congruence.Times(m, n, -x, p.y, y * z);
    Congruence.Times(m, y, y, p.x, x * z);
    Plus(m, n * p.y, (-x) * (y * z), y * p.x, y * (x * z));
    assert (-x) * (y * z) + y * (x * z) == 0;
    Congruence.Times(m, y, y, p.y, y * z);
    Congruence.Times(m, n, -x, p.x, x * z);
    Plus(m, y * p.y, y * (y * z), n * p.x, (-x) * (x * z));
    Congruence.Times(m, n, -x, y, y);
    Congruence.Times(m, n * y, (-x) * y, p.t, (x * y) * z);
    Congruence.Times(m, d, d, (n * y) * p.t, ((-x) * y) * ((x * y) * z));
    Plus(m, z, z, d * ((n * y) * p.t), d * (((-x) * y) * ((x * y) * z)));
    CurveTimes(m, d, x, y, z);
    Chain(m, y * p.y + n * p.x, y * (y * z) + (-x) * (x * z), z - d * (((-x) * y) * ((x * y) * z)));
    Chain(m, z - d * ((n * y) * p.t), z - d * (((-x) * y) * ((x * y) * z)), z - d * (((-x) * y) * ((x * y) * z)));
    Chain(m, y * p.y + n * p.x, z - d * (((-x) * y) * ((x * y) * z)), z - d * ((n * y) * p.t));
  }

  lemma CurveTimes(m: modulus, d: int, x: int, y: int, z: int)
    requires OnAffine(m, d, x, y)
    ensures Cong(m, y * (y * z) + (-x) * (x * z), z - d * (((-x) * y) * ((x * y) * z)))
  {
    hide Cong;
    var a, b := x * x, y * y;
    Refl(m, 1 - a);
    Refl(m, z);
    Plus(m, a * (1 + d * b), b - 1, 1 - a, 1 - a);
    Congruence.Times(m, a * (1 + d * b) + (1 - a), b - 1 + (1 - a), z, z);
    LeftTerms(x, y, z);
    RightTerms(d, x, y, z);
    assert a * (1 + d * b) + (1 - a) == 1 + d * (a * b);
    Chain(m, (1 + d * (a * b)) * z, (b - a) * z, (b - a) * z);
  }

  lemma LeftTerms(x: int, y: int, z: int)
    ensures y * (y * z) + (-x) * (x * z) == (y * y - x * x) * z
  {
    assert y * (y * z) == (y * y) * z && x * (x * z) == (x * x) * z;
    assert (-x) * (x * z) == -(x * (x * z));
  }

  lemma RightTerms(d: int, x: int, y: int, z: int)
    ensures z - d * (((-x) * y) * ((x * y) * z)) == (1 + d * ((x * x) * (y * y))) * z
  {
    var w := x * y;
    assert (-x) * y == -w;
    assert (-w) * (w * z) == -((w * w) * z);
    Exchange(x, y, x, y);
    var q := (x * x) * (y * y);
    assert d * (-(q * z)) == -((d * q) * z);
  }

  /** The quotient of a coordinate, times Z, is the coordinate. */
  lemma CoordinatesBack(p: Point)
    requires NoZeroDivisors() && Good(p)
    ensures var x, y := AffineX(p), AffineY(p);
            Cong(P, p.x, x * p.z) && Cong(P, p.y, y * p.z) && Cong(P, p.t, (x * y) * p.z)
  {
    hide NoZeroDivisors, Cong, FPow, Mod, CurveD;
    var i := FPow(p.z, P - 2);
    InverseCong(p.z);
    ModIsCong(p.x * i);
    ModIsCong(p.y * i);
    ModIsCong(p.t * i);
    QuotientBack(P, p.x, p.z, i, AffineX(p));
    QuotientBack(P, p.y, p.z, i, AffineY(p));
    QuotientBack(P, p.t, p.z, i, Mod(p.t * i));
    var d := CurveD();
    GoodIsProjective(p);
    ScaledT(P, d, p, i);
    var x, y := AffineX(p), AffineY(p);
    Congruence.Times(P, x, p.x * i, y, p.y * i);
    Chain(P, x * y, (p.x * i) * (p.y * i), p.t * i);
    Chain(P, Mod(p.t * i), p.t * i, p.t * i);
    Chain(P, x * y, p.t * i, Mod(p.t * i));
    Refl(P, p.z);
    Congruence.Times(P, x * y, Mod(p.t * i), p.z, p.z);
    Chain(P, (x * y) * p.z, Mod(p.t * i) * p.z, p.t);
    Chain(P, (x * y) * p.z, p.t, p.t);
  }

  lemma GoodIsProjective(p: Point)
    requires Good(p)
    ensures OnProjective(P, CurveD(), p)
  {
    hide Cong, Eq, CurveD;
    var d := CurveD();
    EqIsCong(p.x * p.y, p.z * p.t);
    EqIsCong(p.y * p.y - p.x * p.x, p.z * p.z + d * (p.t * p.t));
  }

  lemma QuotientBack(m: modulus, a: int, z: int, i: int, q: int)
    requires Cong(m, z * i, 1) && Cong(m, q, a * i)
    ensures Cong(m, a, q * z) && Cong(m, q * z, a)
  {
    hide Cong;
    Refl(m, z);
    Refl(m, a);
    Congruence.Times(m, q, a * i, z, z);
    Congruence.Times(m, a, a, z * i, 1);
    assert (a * i) * z == a * (z * i) && a * 1 == a;
    Chain(m, q * z, (a * i) * z, a);
    Chain(m, q * z, a, a);
  }

  /** The bytes of a good point give its Y and the lowest bit of its X back. */
  lemma BytesOfEncoding(p: Point)
    requires Good(p)
    ensures Encode(p) >= 0
    ensures var b := LowBytes(Encode(p), 32);
            && LittleEndian(b) == Encode(p) && DecodeY(b) == AffineY(p) && b[31] / 0x80 == AffineX(p) % 2
  {
    hide FPow, FMul, LowBytes, Eval, Pow;
    var x, y := AffineX(p), AffineY(p);
    FMulRange(p.x, FPow(p.z, P - 2));
    FMulRange(p.y, FPow(p.z, P - 2));
    assert Encode(p) == y + (P + 19) * (x % 2);
    RoomForEncoding();
    LowBytesValue(Encode(p), 32);
    var b := LowBytes(Encode(p), 32);
    TopOfBytes(b, y, x % 2);
  }

  lemma RoomForEncoding()
    ensures 2 * (P + 19) == Pow(0x100, 32)
  {
    hide Pow;
    TopWeight();
    PowAdds(0x100, 31, 1);
    PowOne(0x100);
  }

  lemma TopOfBytes(b: seq<u8>, y: int, s: int)
    requires |b| == 32 && 0 <= y < P && 0 <= s <= 1 && LittleEndian(b) == y + (P + 19) * s
    ensures DecodeY(b) == y && b[31] / 0x80 == s
  {
    hide Eval, Pow;
    var w := Pow(0x100, 31);
    TopWeight();
    assert b[..31 + 1] == b;
    EvalSnoc(0x100, b, 31);
    EvalDigits(0x100, b[..31]);
    var low := LittleEndian(b[..31]) + (b[31] % 0x80) * w;
    MulMonotone(w, b[31] % 0x80, 0x7f);
    MulMonotone(w, 0, b[31] % 0x80);
    assert b[31] * w == (b[31] / 0x80) * (P + 19) + (b[31] % 0x80) * w by {
      assert b[31] == 0x80 * (b[31] / 0x80) + b[31] % 0x80;
      Distribute(w, 0x80 * (b[31] / 0x80), b[31] % 0x80);
    }
    DivModUnique(LittleEndian(b), P + 19, b[31] / 0x80, low);
    DivModUnique(LittleEndian(b), P + 19, s, y);
    DivModUnique(y, P, 0, y);
  }

  /** The bytes of a point decode, and to its negative. */
  lemma EncodeThenDecode(p: Point)
    requires NoZeroDivisors() && DIsNoSquare() && Good(p)
    ensures Encode(p) >= 0
    ensures var b := LowBytes(Encode(p), 32);
            && DecodeNegated(b).Some?
            && var n := DecodeNegated(b).value;
               Good(n) && n.z == 1 && n.y == AffineY(p) && Cong(P, n.x, -AffineX(p))
  {
    hide NoZeroDivisors, DIsNoSquare, OnCurve, DecodeNegated, Encode, LowBytes, Cong, OnAffine, FPow, FMul, CurveD;
    hide Domain, NoSquare, Fe, DecodeY;
    BytesOfEncoding(p);
    var b := LowBytes(Encode(p), 32);
    AffineCurve(p);
    FMulRange(p.x, FPow(p.z, P - 2));
    Roots.DecodesExactly(b);
    DecodedPoint(b);
    var n, x := DecodeNegated(b).value, AffineX(p);
    UnitAffine(n);
    Premises();
    RootExists();
    TwoAbscissas(P, CurveD(), Fe(I_LIMBS), n.x, x, n.y);
    assert n.x + x == P || (n.x == 0 && x == 0);
    if n.x + x == P {
      Multiple(P, 1);
      Refl(P, x);
      Plus(P, n.x + x, 0, x, x);
      assert n.x + x - x == n.x && 0 - x == -x;
    } else {
      Refl(P, 0);
    }
  }

  /** A point with Z = 1 on the curve. */
  lemma UnitAffine(n: Point)
    requires OnCurve(n) && n.z == 1
    ensures OnAffine(P, CurveD(), n.x, n.y)
  {
    hide Eq, Cong, CurveD;
    var d := CurveD();
    EqIsCong(n.x * n.y, n.z * n.t);
    EqIsCong(n.y * n.y - n.x * n.x, n.z * n.z + d * (n.t * n.t));
    Refl(P, 1);
    ScaledT(P, d, n, 1);
    ScaledCurve(P, d, n, 1);
    Rearranged(P, d, n.x * 1, n.y * 1);
    assert n.x * 1 == n.x && n.y * 1 == n.y;
  }

  /** The decoded negative of a point cancels it. */
  lemma NegativeCancels(p: Point, n: Point)
    requires NoZeroDivisors() && DIsNoSquare() && Good(p) && Good(n)
    requires n.z == 1 && n.y == AffineY(p) && Cong(P, n.x, -AffineX(p))
    ensures SamePoint(AddPoints(n, p), ZERO)
  {
    hide NoZeroDivisors, DIsNoSquare, OnCurve, Cong, Eq, Mod, CurveD, OnAffine, FPow;
    var x, y, d := AffineX(p), AffineY(p), CurveD();
    AffineCurve(p);
    CoordinatesBack(p);
    NegationCancels(P, d, x, y, p.z, p, n.x);
    GoodIsProjective(n);
    assert Cong(P, n.x * n.y, n.t);
    Refl(P, d);
    Refl(P, p.t);
    Refl(P, p.z);
    Congruence.Times(P, n.x * y, n.t, p.t, p.t);
    Congruence.Times(P, d, d, (n.x * y) * p.t, n.t * p.t);
    Plus(P, p.z, p.z, d * ((n.x * y) * p.t), d * (n.t * p.t));
    Chain(P, H(n, p), p.z - d * ((n.x * y) * p.t), F(n, p));
    SumOfOpposites(n, p);
  }

  lemma SumOfOpposites(p: Point, q: Point)
    requires Cong(P, E(p, q), 0) && Cong(P, H(p, q), F(p, q))
    ensures SamePoint(AddPoints(p, q), ZERO)
  {
    hide Cong, Eq, Mod, CurveD, E, F, G, H;
    AddForm(p, q);
    var r := AddPoints(p, q);
    var e, f, g, h := E(p, q), F(p, q), G(p, q), H(p, q);
    TimesZero(P, e, f);
    TimesZero(P, 4, e * f);
    ModIsCong(4 * (e * f));
    Chain(P, r.x, 4 * (e * f), 0);
    Refl(P, g);
    Refl(P, 4);
    Congruence.Times(P, h, f, g, g);
    Congruence.Times(P, 4, 4, h * g, f * g);
    Commutes(f, g);
    ModIsCong(4 * (h * g));
    ModIsCong(4 * (g * f));
    Chain(P, r.z, 4 * (g * f), 4 * (g * f));
    Chain(P, 4 * (g * f), r.z, r.z);
    Chain(P, r.y, 4 * (h * g), 4 * (g * f));
    Chain(P, r.y, 4 * (g * f), r.z);
    EqIsCong(r.x * 1, 0 * r.z);
    EqIsCong(r.y * 1, 1 * r.z);
  }

  // Multiples.

  lemma Regrouping<G(!new)>(op: (G, G) -> G, a: G, b: G, c: G)
    requires Associative(op)
    ensures op(op(a, b), c) == op(a, op(b, c))
  {
  }

  lemma UnitTimes<G(!new)>(op: (G, G) -> G, e: G, a: G)
    requires Unit(op, e)
    ensures op(e, a) == a && op(a, e) == a
  {
  }

  /** Multiples of an element and of its inverse cancel. */
  lemma {:induction false} InverseTimes<G(!new)>(op: (G, G) -> G, e: G, y: G, x: G, k: nat)
    requires Associative(op) && Unit(op, e) && op(y, x) == e
    ensures op(Ladder.Times(op, e, k, y), Ladder.Times(op, e, k, x)) == e
    decreases k
  {
    hide Ladder.Times, Associative, Unit;
    if k == 0 {
      TimesOne(op, e, x);
      TimesOne(op, e, y);
      UnitTimes(op, e, e);
    } else {
      InverseTimes(op, e, y, x, k - 1);
      TimesOne(op, e, x);
      TimesOne(op, e, y);
      TimesAdds(op, e, k - 1, 1, y);
      TimesAdds(op, e, 1, k - 1, x);
      var a, b := Ladder.Times(op, e, k - 1, y), Ladder.Times(op, e, k - 1, x);
      Regrouping(op, a, y, op(x, b));
      Regrouping(op, y, x, b);
      UnitTimes(op, e, b);
    }
  }

  /** k times n times x. */
  lemma {:induction false} TimesTimes<G(!new)>(op: (G, G) -> G, e: G, k: nat, n: nat, x: G)
    requires Associative(op) && Unit(op, e)
    ensures k * n >= 0 && Ladder.Times(op, e, k * n, x) == Ladder.Times(op, e, k, Ladder.Times(op, e, n, x))
    decreases k
  {
    hide Ladder.Times, Associative, Unit;
    var y := Ladder.Times(op, e, n, x);
    if k == 0 {
      TimesOne(op, e, x);
      TimesOne(op, e, y);
    } else {
      TimesTimes(op, e, k - 1, n, x);
      TimesOne(op, e, y);
      TimesAdds(op, e, (k - 1) * n, n, x);
      TimesAdds(op, e, k - 1, 1, y);
      assert (k - 1) * n + n == k * n;
    }
  }

  /** h times the inverse of d x, and a number that is r + h d modulo the order, times x, give r x. */
  lemma ResponseCancels<G(!new)>(op: (G, G) -> G, e: G, n: nat, x: G, y: G, h: nat, d: nat, r: nat, s: nat)
    requires Associative(op) && Unit(op, e) && n > 0 && HasOrder(op, e, n, x)
    requires op(y, Ladder.Times(op, e, d, x)) == e && r + h * d >= 0 && s % n == (r + h * d) % n
    ensures op(Ladder.Times(op, e, h, y), Ladder.Times(op, e, s, x)) == Ladder.Times(op, e, r, x)
  {
    hide Ladder.Times, HasOrder, Associative, Unit;
    var dx, hd := Ladder.Times(op, e, d, x), h * d;
    TimesTimes(op, e, h, d, x);
    InverseTimes(op, e, y, dx, h);
    Acceptance.Reduced(op, e, n, x, s);
    Acceptance.Reduced(op, e, n, x, r + h * d);
    TimesAdds(op, e, hd, r, x);
    assert hd + r == r + h * d;
    var a, b, c := Ladder.Times(op, e, h, y), Ladder.Times(op, e, h, dx), Ladder.Times(op, e, r, x);
    Regrouping(op, a, b, c);
    UnitTimes(op, e, c);
  }

  // Keys and signatures.

  /** The lowest three bits and the highest one cleared, the one below it set. */
  function Clamped(d: seq<u8>): (r: seq<u8>)
    requires |d| >= 32
    ensures |r| == |d|
  {
    var c := d[0 := d[0] - d[0] % 8];
    c[31 := c[31] % 0x40 + 0x40]
  }

  /** The hash of the seed, with its first half made a scalar. */
  function Expanded(f: Sha512.Functions, seed: seq<u8>): (r: seq<u8>)
    requires |f.k| == 80
    ensures |r| == 64
  {
    Clamped(Sha512.Unload(Sha512.Digest(f, seed)))
  }

  /** A hash modulo the order. */
  function Scalar(f: Sha512.Functions, m: seq<u8>): (r: seq<u8>)
    requires |f.k| == 80
    ensures |r| == 32
  {
    LowBytes(LittleEndian(Sha512.Unload(Sha512.Digest(f, m))) % ORDER, 32)
  }

  /** The bytes of s times the base point. */
  function BaseTimes(s: seq<u8>): (r: seq<u8>)
    requires |s| == 32
    ensures |r| == 32
  {
    var p := Rounds(Base(), s, 0).0;
    EncodeRange(p);
    LowBytes(Encode(p), 32)
  }

  lemma EncodeRange(p: Point)
    ensures 0 <= Encode(p) < Pow(0x100, 32)
  {
    hide FPow, FMul, Pow;
    FMulRange(p.x, FPow(p.z, P - 2));
    FMulRange(p.y, FPow(p.z, P - 2));
    RoomForEncoding();
  }

  lemma NumberRange(s: seq<u8>)
    ensures LittleEndian(s) >= 0
  {
    EvalDigits(0x100, s);
  }

  function PublicKey(f: Sha512.Functions, seed: seq<u8>): (r: seq<u8>)
    requires |f.k| == 80
    ensures |r| == 32
  {
    BaseTimes(Expanded(f, seed)[..32])
  }

  /** What signing yields; the secret key is the seed and the public key. */
  function Signed(f: Sha512.Functions, sk: seq<u8>, m: seq<u8>): (r: seq<u8>)
    requires |f.k| == 80 && |sk| == 64
    ensures |r| == |m| + 64
  {
    var d := Expanded(f, sk[..32]);
    var r := Scalar(f, d[32..] + m);
    var c := BaseTimes(r);
    var h := Scalar(f, c + sk[32..] + m);
    NumberRange(h);
    var s := (LittleEndian(r) + LittleEndian(h) * LittleEndian(d[..32])) % ORDER;
    c + LowBytes(s, 32) + m
  }

  /** A scalar as the standard wants it: 2^254 plus a multiple of 8 below 2^254. */
  lemma ClampedScalar(d: seq<u8>)
    requires |d| >= 32
    ensures var v := LittleEndian(Clamped(d)[..32]);
            v % 8 == 0 && (P + 19) / 2 <= v < P + 19 && Clamped(d)[32..] == d[32..]
  {
    hide Eval, Pow;
    var c := Clamped(d);
    var w := Pow(0x100, 31);
    TopWeight();
    assert c[..31 + 1] == c[..32];
    EvalSnoc(0x100, c, 31);
    EvalDigits(0x100, c[..31]);
    MulMonotone(w, c[31], 0x7f);
    MulMonotone(w, 0x40, c[31]);
    LowestByte(c[..32]);
    EvalCons(c[..32]);
    var rest := LittleEndian(c[..32][1..]);
    assert LittleEndian(c[..32]) == c[0] + 8 * (0x20 * rest) && c[0] == 8 * (d[0] / 8);
    DivModUnique(LittleEndian(c[..32]), 8, d[0] / 8 + 0x20 * rest, 0);
  }

  lemma EvalCons(s: seq<int>)
    requires s != []
    ensures LittleEndian(s) == s[0] + 0x100 * LittleEndian(s[1..])
  {
  }

  // What was signed is accepted.

  lemma BasePointIsGood(s: seq<u8>)
    requires NoZeroDivisors() && DIsNoSquare() && |s| == 32
    ensures Good(Base()) && Good(Rounds(Base(), s, 0).0)
  {
    hide NoZeroDivisors, DIsNoSquare, OnCurve, Rounds, FMul, Fe;
    BaseOnCurve();
    LadderIsGood(Base(), s, 0);
  }

  /** A public key decodes to an inverse of the key as a point. */
  lemma KeyDecodes<G(!new)>(phi: Point -> G, op: (G, G) -> G, e: G, d: seq<u8>)
    requires NoZeroDivisors() && DIsNoSquare() && Represents(Good, phi, op, e) && Tells(phi) && |d| == 32
    ensures LittleEndian(d) >= 0 && DecodeNegated(BaseTimes(d)).Some?
    ensures var n := DecodeNegated(BaseTimes(d)).value;
            Good(n) && op(phi(n), Ladder.Times(op, e, LittleEndian(d), phi(Base()))) == e
  {
    hide NoZeroDivisors, DIsNoSquare, DecodeNegated, Rounds, Encode, LowBytes, AddPoints, Base, SamePoint, Eval, Cong;
    hide Good, Ladder.Times;
    BasePointIsGood(d);
    var p := Rounds(Base(), d, 0).0;
    LadderComputesMultiple(Good, phi, op, e, Base(), d);
    EncodeThenDecode(p);
    var n := DecodeNegated(BaseTimes(d)).value;
    NegativeCancels(p, n);
    assert Good(AddPoints(n, p)) && Good(ZERO);
    assert phi(AddPoints(n, p)) == phi(ZERO);
  }

  /** The commitment and the response of a signature, and the challenge that a verifier computes. */
  lemma SignedParts(f: Sha512.Functions, seed: seq<u8>, m: seq<u8>) returns (d: seq<u8>, r: seq<u8>)
    requires |f.k| == 80 && |seed| == 32
    ensures |d| == |r| == 32 && LittleEndian(d) >= 0 && LittleEndian(r) >= 0 && PublicKey(f, seed) == BaseTimes(d)
    ensures var pk := PublicKey(f, seed);
            var sm := Signed(f, seed + pk, m);
            var h := Challenge(f, sm, pk);
            && sm[..32] == BaseTimes(r) && sm[64..] == m && LittleEndian(h) >= 0
            && LittleEndian(sm[32..64]) == (LittleEndian(r) + LittleEndian(h) * LittleEndian(d)) % ORDER
  {
    hide LowBytes, Eval, Expanded, Scalar, BaseTimes, Challenge;
    var pk := PublicKey(f, seed);
    var sk := seed + pk;
    assert sk[..32] == seed && sk[32..] == pk;
    var x := Expanded(f, seed);
    d, r := x[..32], Scalar(f, x[32..] + m);
    var h := Scalar(f, BaseTimes(r) + pk + m);
    NumberRange(r);
    NumberRange(h);
    NumberRange(d);
    var v := (LittleEndian(r) + LittleEndian(h) * LittleEndian(d)) % ORDER;
    var sm := Signed(f, sk, m);
    assert sm[..32] == BaseTimes(r) && sm[32..64] == LowBytes(v, 32) && sm[64..] == m;
    SameScalar(f, sm, pk);
    ScalarBytes(v);
  }

  /** A signature made with a secret key is accepted under its public key, whatever the seed and the message. */
  lemma GenuineIsAccepted<G(!new)>(phi: Point -> G, op: (G, G) -> G, e: G, f: Sha512.Functions, seed: seq<u8>,
                                   m: seq<u8>)
    requires NoZeroDivisors() && DIsNoSquare() && |f.k| == 80 && |seed| == 32
    requires Represents(Good, phi, op, e) && Tells(phi) && HasOrder(op, e, ORDER, phi(Base()))
    ensures var pk := PublicKey(f, seed);
            Accepted(f, Signed(f, seed + pk, m), pk)
  {
    hide NoZeroDivisors, DIsNoSquare, DecodeNegated, Rounds, Encode, Base, Eval, Recovered, Challenge;
    hide Good, Ladder.Times, HasOrder, Tells, BaseTimes, PublicKey, Signed, Represents;
    var d, r := SignedParts(f, seed, m);
    var pk := PublicKey(f, seed);
    var sm := Signed(f, seed + pk, m);
    KeyDecodes(phi, op, e, d);
    var n, h, s := DecodeNegated(pk).value, Challenge(f, sm, pk), sm[32..64];
    BasePointIsGood(r);
    SumOfMultiplesIsGood(n, h, s);
    SameImage(phi, op, e, n, LittleEndian(d), r, h, s);
    SameEncoding(phi, Recovered(n, h, s), Rounds(Base(), r, 0).0);
    CommitmentBytes(r);
  }

  lemma SameScalar(f: Sha512.Functions, sm: seq<u8>, pk: seq<u8>)
    requires |f.k| == 80 && |sm| >= 64 && |pk| == 32
    ensures Challenge(f, sm, pk) == Scalar(f, sm[..32] + pk + sm[64..])
  {
  }

  lemma ScalarBytes(v: nat)
    requires v < ORDER
    ensures LittleEndian(LowBytes(v, 32)) == v
  {
    hide Eval, Pow, LowBytes;
    RoomForOrder();
    LowBytesValue(v, 32);
  }

  lemma CommitmentBytes(r: seq<u8>)
    requires |r| == 32
    ensures LittleEndian(BaseTimes(r)) == Encode(Rounds(Base(), r, 0).0)
  {
    hide Eval, Pow, LowBytes, Encode, Rounds, Base;
    EncodeRange(Rounds(Base(), r, 0).0);
    LowBytesValue(Encode(Rounds(Base(), r, 0).0), 32);
  }

  /** s is r + h k modulo the order. */
  ghost predicate Answers(s: seq<u8>, r: seq<u8>, h: seq<u8>, k: int) {
    LittleEndian(s) == (LittleEndian(r) + LittleEndian(h) * k) % ORDER
  }

  /** What is recovered with a point that cancels k times the base point stands for r times the base point. */
  lemma SameImage<G(!new)>(phi: Point -> G, op: (G, G) -> G, e: G, n: Point, k: nat, r: seq<u8>, h: seq<u8>,
                           s: seq<u8>)
    requires Represents(Good, phi, op, e) && HasOrder(op, e, ORDER, phi(Base())) && Good(n) && Good(Base())
    requires |r| == |h| == |s| == 32 && Answers(s, r, h, k)
    requires op(phi(n), Ladder.Times(op, e, k, phi(Base()))) == e
    ensures phi(Recovered(n, h, s)) == phi(Rounds(Base(), r, 0).0)
  {
    hide Rounds, Base, Eval, Recovered, Good, Ladder.Times, HasOrder, Represents;
    NumberRange(h);
    NumberRange(r);
    NumberRange(s);
    RecoveredMeaning(Good, phi, op, e, n, h, s);
    LadderComputesMultiple(Good, phi, op, e, Base(), r);
    Structure(phi, op, e);
    var a, c, t := LittleEndian(h), LittleEndian(r), LittleEndian(s);
    assert c + a * k >= 0 && t % ORDER == (c + a * k) % ORDER by {
      NotNegative(a, k, c);
      ModTwice(c + a * k, ORDER);
    }
    ResponseCancels(op, e, ORDER, phi(Base()), phi(n), a, k, c, t);
  }

  /** So the two encode to the same bytes. */
  lemma SameEncoding<G(!new)>(phi: Point -> G, p: Point, q: Point)
    requires NoZeroDivisors() && DIsNoSquare() && Tells(phi) && Good(p) && Good(q) && phi(p) == phi(q)
    ensures Encode(p) == Encode(q)
  {
    hide NoZeroDivisors, DIsNoSquare, Encode, SamePoint, Good;
    SameBytes(p, q);
  }

  lemma SumOfMultiplesIsGood(n: Point, h: seq<u8>, s: seq<u8>)
    requires NoZeroDivisors() && DIsNoSquare() && Good(n) && |h| == |s| == 32
    ensures Good(Recovered(n, h, s))
  {
    hide NoZeroDivisors, DIsNoSquare, Good, Rounds, AddPoints, Base;
    BasePointIsGood(s);
    LadderIsGood(n, h, 0);
    SumIsGood(Rounds(n, h, 0).0, Rounds(Base(), s, 0).0);
  }

  lemma Structure<G(!new)>(phi: Point -> G, op: (G, G) -> G, e: G)
    requires Represents(Good, phi, op, e)
    ensures Associative(op) && Unit(op, e)
  {
  }

  lemma NotNegative(a: nat, b: nat, c: nat)
    ensures c + a * b >= 0
  {
  }

  // The programs.

  lemma {:induction false} LowMask(x: nat, k: nat, n: nat)
    requires k <= n && x < Pow2(n)
    ensures And(x, Pow2(k) - 1, n) == x % Pow2(k)
    decreases k
  {
    if k == 0 {
      AndNothing(x, n);
    } else {
      LowMask(x / 2, k - 1, n - 1);
      HalfOfParts(x, Pow2(k - 1));
    }
  }

  lemma {:induction false} AndNothing(x: nat, n: nat)
    requires x < Pow2(n)
    ensures And(x, 0, n) == 0
    decreases n
  {
    if n > 0 {
      AndNothing(x / 2, n - 1);
    }
  }

  lemma {:induction false} AndOnes(x: nat, n: nat)
    requires x < Pow2(n)
    ensures And(x, Pow2(n) - 1, n) == x
    decreases n
  {
    if n > 0 {
      AndOnes(x / 2, n - 1);
    }
  }

  /** Clearing the lowest k bits. */
  lemma {:induction false} HighMask(x: nat, k: nat, n: nat)
    requires k <= n && x < Pow2(n)
    ensures And(x, Pow2(n) - Pow2(k), n) == x - x % Pow2(k)
    decreases k
  {
    if k == 0 {
      AndOnes(x, n);
    } else {
      HighMask(x / 2, k - 1, n - 1);
      HalfOfParts(x, Pow2(k - 1));
    }
  }

  /** Setting a bit above all others, which may be set. */
  lemma {:induction false} SetBit(x: nat, k: nat)
    requires x < Pow2(k + 1)
    ensures Or(x, Pow2(k), k + 1) == x % Pow2(k) + Pow2(k)
    decreases k
  {
    if k > 0 {
      SetBit(x / 2, k - 1);
      HalfOfParts(x, Pow2(k - 1));
    } else {
      assert x in {0, 1};
    }
  }

  lemma OneBitMore(x: int, y: int, n: nat)
    requires 0 <= x < Pow2(n) && 0 <= y < Pow2(n)
    ensures Or(x, y, n + 1) == Or(x, y, n)
    decreases n
  {
    if n > 0 {
      OneBitMore(x / 2, y / 2, n - 1);
    }
  }

  lemma ClampBytes(x: u8)
    ensures And(x, 248, 8) == x - x % 8 && And(x, 127, 8) == x % 0x80 && 0 <= And(x, 127, 8) < 0x80
    ensures Or(x % 0x80, 64, 8) == x % 0x40 + 0x40
  {
    hide And, Or, Pow2;
    SmallPowers();
    Widths();
    HighMask(x, 3, 8);
    LowMask(x, 7, 8);
    SetBit(x % 0x80, 6);
    OneBitMore(x % 0x80, 64, 7);
    Remainders(x);
  }

  lemma Remainders(x: u8)
    ensures x % 0x80 % 0x40 == x % 0x40 && x % 0x80 < 0x80
  {
  }

  /** The hash of the seed, clamped. */
  method Expand(f: Sha512.Functions, seed: seq<u8>) returns (d: array<u8>)
    requires |f.k| == 80 && |seed| == 32
    ensures fresh(d) && d.Length == 64 && d[..] == Expanded(f, seed)
  {
    hide Sha512.Unload, Sha512.Digest, And, Or;
    d := new u8[64](_ => 0);
    Sha512.CryptoHash(f, d, seed);
    ghost var s := d[..];
    ClampBytes(d[0]);
    ClampBytes(d[31]);
    d[0] := And(d[0], 248, 8);
    d[31] := And(d[31], 127, 8);
    d[31] := Or(d[31], 64, 8);
    assert d[..] == s[0 := s[0] - s[0] % 8][31 := s[31] % 0x40 + 0x40];
  }

  /** The encoding of s times the base point. */
  method PackBaseTimes(s: seq<u8>) returns (t: array<u8>)
    requires |s| == 32
    ensures fresh(t) && t.Length == 32 && t[..] == BaseTimes(s)
  {
    hide Eval, Encode, Rounds, Base, LowBytes, Bounded;
    var p := NewPoint();
    Scalarbase(p, s);
    t := new u8[32](_ => 0);
    Pack(t, p);
    LowBytesUnique(t[..]);
  }

  /** FOR(i,n) out[o + i] = d[i]. */
  method CopyAt(out: array<u8>, o: nat, d: seq<u8>)
    requires o + |d| <= out.Length
    modifies out
    ensures forall k :: 0 <= k < out.Length ==> out[k] == if o <= k < o + |d| then d[k - o] else old(out[k])
  {
    for i := 0 to |d|
      invariant forall k :: 0 <= k < out.Length ==> out[k] == if o <= k < o + i then d[k - o] else old(out[k])
    {
      out[o + i] := d[i];
    }
  }

  /** The random bytes of the seed are handed over. */
  method CryptoSignKeypair(f: Sha512.Functions, seed: seq<u8>, pk: array<u8>, sk: array<u8>)
    requires |f.k| == 80 && |seed| == 32 && pk.Length == 32 && sk.Length == 64 && pk != sk
    modifies pk, sk
    ensures pk[..] == PublicKey(f, seed) && sk[..] == seed + PublicKey(f, seed)
  {
    hide Expanded, BaseTimes;
    CopyAt(sk, 0, seed);
    var d := Expand(f, seed);
    var t := PackBaseTimes(d[..32]);
    CopyAt(pk, 0, t[..]);
    CopyAt(sk, 32, pk[..]);
    assert sk[..] == seed + pk[..];
  }

  /** The response, from the commitment, the key and the message in the buffer, over the key. */
  method Respond(f: Sha512.Functions, sm: array<u8>, n: nat, r: seq<u8>, d: seq<u8>)
    requires |f.k| == 80 && |r| == |d| == 32 && n + 64 < TWO_64 && sm.Length >= n + 64
    requires LittleEndian(r) >= 0 && LittleEndian(d) >= 0
    modifies sm
    ensures var h := Scalar(f, old(sm[..n + 64]));
            LittleEndian(h) >= 0
            && sm[..] == old(sm[..32]) + LowBytes((LittleEndian(r) + LittleEndian(h) * LittleEndian(d)) % ORDER, 32)
                         + old(sm[64..])
  {
    hide Eval, Sha512.Unload, Sha512.Digest, LowBytes;
    var h := HashChallenge(f, sm[..n + 64]);
    NumberRange(h);
    var s := new u8[32](_ => 0);
    ResponseScalar(s, r, h, d);
    LowBytesUnique(s[..]);
    CopyAt(sm, 32, s[..]);
  }

  /** The commitment: its number is the hash of the second half of the expanded seed and the message. */
  method Commit(f: Sha512.Functions, sm: array<u8>, m: seq<u8>, x: seq<u8>) returns (r: seq<u8>)
    requires |f.k| == 80 && |x| == 32 && |m| + 64 < TWO_64 && sm.Length >= |m| + 64
    modifies sm
    ensures r == Scalar(f, x + m) && sm[..] == BaseTimes(r) + x + m + old(sm[|m| + 64..])
  {
    hide Eval, BaseTimes, Sha512.Unload, Sha512.Digest, LowBytes;
    var n := |m|;
    CopyAt(sm, 64, m);
    CopyAt(sm, 32, x);
    assert sm[32..n + 64] == x + m;
    r := HashChallenge(f, sm[32..n + 64]);
    var c := PackBaseTimes(r);
    CopyAt(sm, 0, c[..]);
  }

  method CryptoSign(f: Sha512.Functions, sm: array<u8>, m: seq<u8>, sk: seq<u8>) returns (smlen: u64)
    requires |f.k| == 80 && |sk| == 64 && |m| + 64 < TWO_64 && sm.Length >= |m| + 64
    modifies sm
    ensures smlen == |m| + 64 && sm[..smlen] == Signed(f, sk, m)
  {
    hide Eval, Expanded, BaseTimes, Scalar, LowBytes;
    smlen := |m| + 64;
    var d := Expand(f, sk[..32]);
    var x := d[..];
    var r := Commit(f, sm, m, x[32..]);
    ghost var c := BaseTimes(r);
    CopyAt(sm, 32, sk[32..]);
    ghost var s := sm[..];
    assert s[..smlen] == c + sk[32..] + m;
    NumberRange(r);
    NumberRange(x[..32]);
    Respond(f, sm, |m|, r, x[..32]);
    Replaced(s, c, sk[32..], m, sm[32..64]);
  }

  lemma Replaced(s: seq<u8>, c: seq<u8>, y: seq<u8>, m: seq<u8>, z: seq<u8>)
    requires |c| == |y| == |z| == 32 && |s| >= |m| + 64 && s[..|m| + 64] == c + y + m
    ensures (s[..32] + z + s[64..])[..|m| + 64] == c + z + m
  {
    assert s[..32] == s[..|m| + 64][..32] && s[64..|m| + 64] == s[..|m| + 64][64..];
  }

  /** Signed and opened: the message comes back. */
  method SignThenOpen<G(!new)>(f: Sha512.Functions, seed: seq<u8>, m: seq<u8>, ghost phi: Point -> G,
                               ghost op: (G, G) -> G, ghost e: G)
    returns (rc: int, back: seq<u8>)
    requires NoZeroDivisors() && DIsNoSquare() && |f.k| == 80 && |seed| == 32 && |m| + 64 < TWO_64
    requires Represents(Good, phi, op, e) && Tells(phi) && HasOrder(op, e, ORDER, phi(Base()))
    ensures rc == 0 && back == m
  {
    hide *;
    var pk, sk, sm := new u8[32], new u8[64], new u8[|m| + 64];
    CryptoSignKeypair(f, seed, pk, sk);
    var smlen := CryptoSign(f, sm, m, sk[..]);
    var signed, key := sm[..smlen], pk[..];
    GenuineIsAccepted(phi, op, e, f, seed, m);
    SignedEnds(f, sk[..], m);
    var out := new u8[|m| + 64];
    var mlen;
    rc, mlen := CryptoSignOpen(f, out, signed, key);
    back := out[..mlen];
  }

  lemma SignedEnds(f: Sha512.Functions, sk: seq<u8>, m: seq<u8>)
    requires |f.k| == 80 && |sk| == 64
    ensures Signed(f, sk, m)[64..] == m
  {
    hide Expanded, Scalar, BaseTimes, LowBytes, Eval;
  }
}

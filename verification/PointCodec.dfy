/** Points and their 32-byte form (sections 5.1.2 and 5.1.3 of RFC 8032), and the base point. */
module PointCodec {
  import opened Machine
  import opened Options
  import opened Limbs
  import opened Residues
  import opened Field25519
  import opened FieldCodec
  import opened FieldPower
  import opened Edwards
  import opened EdwardsLaws
  import opened Ladder

  /** A square root of -1. */
  const I_LIMBS: seq<int> := [0xa0b0, 0x4a0e, 0x1b27, 0xc4ee, 0xe478, 0xad2f, 0x1806, 0x2f43,
                              0xd7a7, 0x3dfb, 0x0099, 0x2b4d, 0xdf0b, 0x4fc1, 0x2480, 0x2b83]
  const X_LIMBS: seq<int> := [0xd51a, 0x8f25, 0x2d60, 0xc956, 0xa7b2, 0x9525, 0xc760, 0x692c,
                              0xdc5c, 0xfdd6, 0xe231, 0xc0a4, 0x53fe, 0xcd6e, 0x36d3, 0x2169]
  const Y_LIMBS: seq<int> := [0x6658, 0x6666, 0x6666, 0x6666, 0x6666, 0x6666, 0x6666, 0x6666,
                              0x6666, 0x6666, 0x6666, 0x6666, 0x6666, 0x6666, 0x6666, 0x6666]

  /** The base point, in extended coordinates. */
  function Base(): Point {
    Point(Fe(X_LIMBS), Fe(Y_LIMBS), 1, FMul(Fe(X_LIMBS), Fe(Y_LIMBS)))
  }

  /** u v^3 (u v^7)^((p - 5) / 8). */
  function RootCandidate(u: int, v: int): int {
    FMul(FMul(u, FPow(v, 3)), FPow(FMul(u, FPow(v, 7)), (P - 5) / 8))
  }

  /** A square root of u / v: the candidate x when v x^2 = u, x times the square root of -1 when
      v x^2 = -u, and none otherwise. */
  function Root(u: int, v: int): Option<int> {
    var x := RootCandidate(u, v);
    var w := FMul(FMul(x, x), v);
    if w == u then Some(x)
    else if w == FSub(0, u) then Some(FMul(x, Fe(I_LIMBS)))
    else None
  }

  /** The number in the lower 255 bits, as a field element. */
  function DecodeY(b: seq<u8>): int {
    Mod(LittleEndian(b) % (P + 19))
  }

  /** The negative of the point that the bytes encode. */
  function DecodeNegated(b: seq<u8>): Option<Point>
    requires |b| == 32
  {
    var y := DecodeY(b);
    var u, v := FSub(FMul(y, y), 1), FAdd(1, FMul(FMul(y, y), Fe(D_LIMBS)));
    match Root(u, v)
    case None => None
    case Some(x) =>
      var x' := if x % 2 == b[31] / 0x80 then FSub(0, x) else x;
      Some(Point(x', y, 1, FMul(x', y)))
  }

  /** Y / Z with the lowest bit of X / Z above it. */
  function Encode(p: Point): int {
    var zi := FPow(p.z, P - 2);
    FMul(p.y, zi) + (P + 19) * (FMul(p.x, zi) % 2)
  }

  lemma FPowIsPow(x: int, e: nat)
    ensures FPow(x, e) == Mod(Pow(x, e))
    decreases e
  {
    hide FMul, Mod;
    if e > 0 {
      FPowIsPow(x, e - 1);
      EqMod(Pow(x, e - 1));
      FMulMod(Pow(x, e - 1), x);
    }
  }

  lemma FMulMod(a: int, b: int)
    ensures FMul(Mod(a), b) == Mod(a * b) && FMul(b, Mod(a)) == Mod(a * b)
  {
    ModProductLeft(a, b, P);
  }

  /** The order in which the program multiplies does not matter. */
  lemma CandidatePowers(u: int, v: int)
    ensures var v2 := FMul(v, v);
            FMul(FMul(FMul(FMul(v2, v2), v2), u), v) == FMul(u, FPow(v, 7))
  {
    hide FMul, Mod, Pow;
    Lift(v, v);
    FPowIsPow(v, 7);
    FMulMod(Pow(v, 7), u);
    Lift(v * v, v * v);
    Lift((v * v) * (v * v), v * v);
    var v6 := (v * v) * (v * v) * (v * v);
    FMulMod(v6, u);
    FMulMod(v6 * u, v);
    SeventhPower(u, v);
  }

  lemma SeventhPower(u: int, v: int)
    ensures (v * v) * (v * v) * (v * v) * u * v == Pow(v, 7) * u
  {
    var v2 := v * v;
    assert Pow(v, 1) == v && Pow(v, 2) == v2;
    PowAdds(v, 2, 2);
    PowAdds(v, 4, 2);
    assert Pow(v, 7) == v * Pow(v, 6);
    MoveFactor(v2 * v2 * v2, u, v);
  }

  lemma MoveFactor(a: int, u: int, v: int)
    ensures a * u * v == (v * a) * u
  {
  }

  lemma Cube(v: int)
    ensures Pow(v, 3) == v * (v * v)
  {
    assert Pow(v, 1) == v;
    assert Pow(v, 2) == v * v;
  }

  lemma CandidateScale(u: int, v: int, t: int)
    ensures FMul(FMul(FMul(FMul(t, u), v), v), v) == FMul(FMul(u, FPow(v, 3)), t)
  {
    hide FMul, Mod, Pow;
    Lift(t, u);
    FMulMod(t * u, v);
    FMulMod(t * u * v, v);
    FMulMod(t * u * v * v, v);
    FPowIsPow(v, 3);
    FMulMod(Pow(v, 3), u);
    FMulMod(Pow(v, 3) * u, t);
    ThirdPower(t, u, v);
  }

  lemma ThirdPower(t: int, u: int, v: int)
    ensures t * u * v * v * v == Pow(v, 3) * u * t
  {
    Cube(v);
  }

  /** y^2 - 1 and d y^2 + 1, where one is an array holding 1. */
  method CurveFraction(y: array<i64>, one: array<i64>) returns (num: array<i64>, den: array<i64>)
    requires Bounded(y[..], PRODUCT) && Bounded(one[..], PRODUCT)
    ensures fresh(num) && fresh(den) && num != den && Bounded(num[..], FACTOR) && Bounded(den[..], FACTOR)
    ensures Fe(num[..]) == FSub(FMul(Fe(y[..]), Fe(y[..])), Fe(one[..]))
    ensures Fe(den[..]) == FAdd(Fe(one[..]), FMul(FMul(Fe(y[..]), Fe(y[..])), Fe(D_LIMBS)))
  {
    hide Fe, FMul, FAdd, FSub;
    var d := NewGf(D_LIMBS);
    num := NewZero();
    den := NewZero();
    S(num, y);
    M(den, num, d);
    Z(num, num, one);
    A(den, one, den);
  }

  /** num den^7. */
  method SeventhPowerTimes(num: array<i64>, den: array<i64>) returns (t: array<i64>)
    requires Bounded(num[..], FACTOR) && Bounded(den[..], FACTOR)
    ensures fresh(t) && t.Length == 16 && Bounded(t[..], PRODUCT)
    ensures Fe(t[..]) == FMul(Fe(num[..]), FPow(Fe(den[..]), 7))
  {
    hide Fe, FMul, FPow, Reduced;
    var den2 := NewZero();
    var den4 := NewZero();
    var den6 := NewZero();
    t := NewZero();
    ProductIsFactor();
    S(den2, den);
    S(den4, den2);
    M(den6, den4, den2);
    M(t, den6, num);
    M(t, t, den);
    CandidatePowers(Fe(num[..]), Fe(den[..]));
  }

  lemma ProductIsFactor()
    ensures forall s :: Bounded(s, PRODUCT) ==> Bounded(s, FACTOR)
  {
  }

  /** The root candidate, into x. */
  method CandidateInto(x: array<i64>, num: array<i64>, den: array<i64>)
    requires x.Length == 16 && x != num && x != den
    requires Bounded(num[..], FACTOR) && Bounded(den[..], FACTOR)
    modifies x
    ensures Bounded(x[..], PRODUCT)
    ensures Fe(x[..]) == RootCandidate(Fe(num[..]), Fe(den[..]))
  {
    hide Fe, FMul, FPow, Reduced, Bounded;
    ProductIsFactor();
    var t := SeventhPowerTimes(num, den);
    Pow2523(t, t);
    ghost var w := Fe(t[..]);
    M(t, t, num);
    M(t, t, den);
    M(t, t, den);
    M(x, t, den);
    CandidateScale(Fe(num[..]), Fe(den[..]), w);
  }

  /** 0 exactly when den x^2 = num. */
  method SquareDiffers(x: array<i64>, num: array<i64>, den: array<i64>) returns (r: int)
    requires Bounded(x[..], FACTOR) && Bounded(num[..], FACTOR) && Bounded(den[..], FACTOR)
    ensures r == if FMul(FMul(Fe(x[..]), Fe(x[..])), Fe(den[..])) == Fe(num[..]) then 0 else -1
  {
    hide Fe, FMul;
    var chk := NewZero();
    S(chk, x);
    M(chk, chk, den);
    r := Neq25519(chk, num);
  }

  /** A root of num / den into x; 0 when there is one. */
  method RootInto(x: array<i64>, num: array<i64>, den: array<i64>) returns (differs: int)
    requires x.Length == 16 && x != num && x != den
    requires Bounded(num[..], FACTOR) && Bounded(den[..], FACTOR)
    modifies x
    ensures Bounded(x[..], PRODUCT) && (differs == 0 || differs == -1)
    ensures differs == 0 <==> Root(Fe(num[..]), Fe(den[..])).Some?
    ensures differs == 0 ==> Root(Fe(num[..]), Fe(den[..])) == Some(Fe(x[..]))
  {
    hide Fe, FMul, FSub, Root, RootCandidate, Reduced, Bounded;
    ProductIsFactor();
    CandidateInto(x, num, den);
    differs := SquareDiffers(x, num, den);
    if differs != 0 {
      var i := NewGf(I_LIMBS);
      SmallConstant(i[..]);
      M(x, x, i);
    }
    differs := SquareDiffers(x, num, den);
    FeRange(num[..]);
    RootFound(Fe(num[..]), Fe(den[..]));
  }

  lemma SmallConstant(s: seq<int>)
    requires |s| == 16 && Digits(RADIX, s)
    ensures Bounded(s, PRODUCT)
  {
  }

  method Unpackneg(r: Gf4, p: seq<u8>) returns (rc: int)
    requires r.Distinct() && |p| == 32
    modifies r.x, r.y, r.z, r.t
    ensures rc == 0 || rc == -1
    ensures rc == 0 <==> DecodeNegated(p).Some?
    ensures rc == 0 ==> r.Small() && r.View() == DecodeNegated(p).value
  {
    hide Fe, FMul, FAdd, FSub, Reduced, Root, DecodeY;
    var gf1 := NewGf([1] + seq(15, _ => 0));
    var gf0 := NewGf(seq(16, _ => 0));
    UnitLimbs(gf0[..], gf1[..]);
    Set25519(r.z, gf1);
    Unpack25519(r.y, p);
    UnpackedY(r.y[..], p);
    var num, den := CurveFraction(r.y, r.z);
    var differs := RootInto(r.x, num, den);
    if differs != 0 {
      return -1;
    }
    var parity := Par25519(r.x);
    if parity == p[31] / 0x80 {
      Z(r.x, gf0, r.x);
    }
    M(r.t, r.x, r.y);
    return 0;
  }

  lemma UnpackedY(y: seq<int>, p: seq<u8>)
    requires |y| == 16 && Digits(RADIX, y) && Value(y) == LittleEndian(p) % (P + 19)
    ensures Fe(y) == DecodeY(p) && Bounded(y, PRODUCT)
  {
  }

  /** Trying the candidate and then the candidate times the square root of -1 finds the same root. */
  lemma RootFound(u: int, v: int)
    requires 0 <= u < P
    ensures var x := RootCandidate(u, v);
            var x' := if FMul(FMul(x, x), v) == u then x else FMul(x, Fe(I_LIMBS));
            Root(u, v) == if FMul(FMul(x', x'), v) == u then Some(x') else None
  {
    hide FMul, FSub, Fe, RootCandidate;
    var x := RootCandidate(u, v);
    TimesI(x, v);
    var w := FMul(FMul(x, x), v);
    FMulRange(FMul(x, x), v);
    NegationSwaps(w, u);
  }

  lemma FMulRange(x: int, y: int)
    ensures 0 <= FMul(x, y) < P
  {
    ModRange(x * y);
  }

  lemma FeRange(s: seq<int>)
    ensures 0 <= Fe(s) < P
  {
    ModRange(Value(s));
  }

  lemma SquareOfI()
    ensures FMul(Fe(I_LIMBS), Fe(I_LIMBS)) == P - 1
  {
    hide Eval;
    ConstantValue(I_LIMBS);
    var i := 0x2b83_2480_4fc1_df0b_2b4d_0099_3dfb_d7a7_2f43_1806_ad2f_e478_c4ee_1b27_4a0e_a0b0;
    assert Value(I_LIMBS) == i;
    DivModUnique(i, P, 0, i);
    DivModUnique(i * i, P, (i * i + 1) / P - 1, P - 1);
  }

  /** Multiplying x by a square root of -1 negates v x^2. */
  lemma TimesI(x: int, v: int)
    ensures FMul(FMul(FMul(x, Fe(I_LIMBS)), FMul(x, Fe(I_LIMBS))), v) == FSub(0, FMul(FMul(x, x), v))
  {
    hide Mod, Fe, FMul, FSub;
    var i := Fe(I_LIMBS);
    SquareOfI();
    Lift(i, i);
    Lift(x, i);
    Lift(x * i, x * i);
    FMulMod((x * i) * (x * i), v);
    Lift(x, x);
    FMulMod(x * x, v);
    MinusOne();
    NegateProduct(x, i, v);
  }

  lemma NegateProduct(x: int, i: int, v: int)
    requires Mod(i * i) == P - 1
    ensures Mod((x * i) * (x * i) * v) == FSub(Mod(0), Mod(x * x * v))
  {
    hide Mod;
    Lift(0, x * x * v);
    MinusOne();
    EqRefl(x * x * v);
    EqMul(x * x * v, x * x * v, i * i, -1);
    assert (x * i) * (x * i) * v == (x * x * v) * (i * i);
    assert (x * x * v) * (-1) == 0 - x * x * v;
  }

  lemma MinusOne()
    ensures Mod(-1) == P - 1 && Mod(0) == 0
  {
    DivModUnique(-1, P, -1, P - 1);
    DivModUnique(0, P, 0, 0);
  }

  lemma NegationSwaps(w: int, u: int)
    requires 0 <= u < P && 0 <= w < P
    ensures FSub(0, w) == u <==> w == FSub(0, u)
  {
    hide FSub;
    Negative(w);
    Negative(u);
  }

  lemma Negative(x: int)
    requires 0 <= x < P
    ensures FSub(0, x) == if x == 0 then 0 else P - x
  {
    DivModUnique(-x, P, if x == 0 then 0 else -1, if x == 0 then 0 else P - x);
  }

  /** A root r of u / v satisfies v r^2 = u. */
  lemma RootIsRoot(u: int, v: int)
    requires 0 <= u < P && Root(u, v).Some?
    ensures var r := Root(u, v).value; FMul(FMul(r, r), v) == u && 0 <= r < P
  {
    hide FMul, FSub, Fe;
    RootFound(u, v);
    FMulRange(FMul(u, FPow(v, 3)), FPow(FMul(u, FPow(v, 7)), (P - 5) / 8));
    FMulRange(RootCandidate(u, v), Fe(I_LIMBS));
  }

  /** What decoding yields is on the curve, has Z = 1 and the encoded Y, and its X has the opposite
      of the encoded lowest bit unless it is 0. */
  lemma DecodedPoint(b: seq<u8>)
    requires |b| == 32 && DecodeNegated(b).Some?
    ensures var p := DecodeNegated(b).value;
            && OnCurve(p) && p.z == 1 && p.y == DecodeY(b) && 0 <= p.x < P
            && (p.x == 0 || p.x % 2 != b[31] / 0x80)
  {
    hide Mod, Fe, Root, FMul, FSub, FAdd, DecodeY;
    var y := DecodeY(b);
    var u, v := FSub(FMul(y, y), 1), FAdd(1, FMul(FMul(y, y), Fe(D_LIMBS)));
    FSubRange(FMul(y, y), 1);
    RootIsRoot(u, v);
    var x := Root(u, v).value;
    NegateRoot(x, v);
    FSubRange(0, x);
    ParityFlips(x);
    DecodedOnCurve(x, y);
    DecodedOnCurve(FSub(0, x), y);
  }

  lemma FSubRange(x: int, y: int)
    ensures 0 <= FSub(x, y) < P
  {
    ModRange(x - y);
  }

  lemma NegateRoot(x: int, v: int)
    ensures FMul(FMul(FSub(0, x), FSub(0, x)), v) == FMul(FMul(x, x), v)
  {
    hide Mod;
    FMulMod(0 - x, Mod(0 - x));
    FMulMod(0 - x, 0 - x);
    assert (0 - x) * (0 - x) == x * x;
  }

  lemma ParityFlips(x: int)
    requires 0 <= x < P
    ensures x == 0 ==> FSub(0, x) == 0
    ensures x != 0 ==> FSub(0, x) % 2 != x % 2
  {
    Negative(x);
  }

  /** v x^2 = u, spelled out, is the curve equation. */
  lemma DecodedOnCurve(x: int, y: int)
    requires FMul(FMul(x, x), FAdd(1, FMul(FMul(y, y), Fe(D_LIMBS)))) == FSub(FMul(y, y), 1)
    ensures OnCurve(Point(x, y, 1, FMul(x, y)))
  {
    hide Mod, Value;
    var d := CurveD();
    FMulMod(y * y, Mod(d));
    FMulMod(d, y * y);
    Lift(1, d * (y * y));
    FMulMod(x * x, Mod(1 + d * (y * y)));
    FMulMod(1 + d * (y * y), x * x);
    FMulLaws(Mod(x * x), Mod(1 + d * (y * y)), 0);
    Lift(y * y, 1);
    ModOne();
    assert Eq((1 + d * (y * y)) * (x * x), y * y - 1);
    var t := FMul(x, y);
    EqMod(x * y);
    EqMul(t, x * y, t, x * y);
    EqRefl(d);
    EqMul(d, d, t * t, (x * y) * (x * y));
    SquareOfProduct(x, y);
    assert (1 + d * (y * y)) * (x * x) == x * x + d * ((x * x) * (y * y));
    EqRefl(1);
    EqRefl(x * x);
    EqAdd((1 + d * (y * y)) * (x * x), y * y - 1, x * x, x * x);
    EqAdd((1 + d * (y * y)) * (x * x) - x * x, y * y - 1 - x * x, 1, 1);
    EqAdd(1, 1, d * (t * t), d * ((x * y) * (x * y)));
    EqChain(y * y - x * x, 1 + d * ((x * y) * (x * y)), 1 + d * (t * t));
  }

  lemma ModOne()
    ensures Mod(1) == 1
  {
    DivModUnique(1, P, 0, 1);
  }

  lemma BaseCoordinates()
    ensures Fe(X_LIMBS) == 0x2169_36d3_cd6e_53fe_c0a4_e231_fdd6_dc5c_692c_c760_9525_a7b2_c956_2d60_8f25_d51a
    ensures Fe(Y_LIMBS) == 0x6666_6666_6666_6666_6666_6666_6666_6666_6666_6666_6666_6666_6666_6666_6666_6658
  {
    hide Eval;
    ConstantValue(X_LIMBS);
    ConstantValue(Y_LIMBS);
  }

  /** The base point is on the curve. */
  lemma BaseOnCurve()
    ensures OnCurve(Base())
  {
    hide Fe, Mod, CurveD, FMul;
    BaseCoordinates();
    var x := 0x2169_36d3_cd6e_53fe_c0a4_e231_fdd6_dc5c_692c_c760_9525_a7b2_c956_2d60_8f25_d51a;
    var y := 0x6666_6666_6666_6666_6666_6666_6666_6666_6666_6666_6666_6666_6666_6666_6666_6658;
    var t := 0x6787_5f0f_d78b_7665_66ea_4e8e_64ab_e37d_20f0_9f80_7751_52f5_6dde_8ab3_a5b7_dda3;
    BaseProduct();
    assert CurveD() == 0x5203_6cee_2b6f_fe73_8cc7_4079_7779_e898_0070_0a4d_4141_d8ab_75eb_4dca_1359_78a3 by {
      CurveDValue();
    }
    EqMod(x * y);
    EqRefl(t);
    BaseEquation();
  }

  /** The constants by what section 5.1 of RFC 8032 says of them: d is -121665 / 121666, and the base point is the one
      with Y = 4 / 5 and an even X. */
  lemma StandardConstants()
    ensures P == Pow2(255) - 19
    ensures Eq(121666 * CurveD(), -121665)
    ensures Eq(5 * Base().y, 4) && Base().x % 2 == 0 && 0 < Base().x < P
  {
    hide Fe, Mod, CurveD, FMul, Pow2;
    Widths();
    Pow2Adds(64, 64);
    Pow2Adds(128, 64);
    Pow2Adds(192, 63);
    BaseCoordinates();
    CurveDValue();
    var y := 0x6666_6666_6666_6666_6666_6666_6666_6666_6666_6666_6666_6666_6666_6666_6666_6658;
    var d := 0x5203_6cee_2b6f_fe73_8cc7_4079_7779_e898_0070_0a4d_4141_d8ab_75eb_4dca_1359_78a3;
    SameResidueP(5 * y, 4, 4);
    SameResidueP(121666 * d, -121665, (121666 * d + 121665) / P);
  }

  lemma SameResidueP(a: int, b: int, k: int)
    requires a - b == k * P
    ensures Eq(a, b)
  {
    SameResidue(a, b, k, P);
  }

  lemma CurveDValue()
    ensures CurveD() == 0x5203_6cee_2b6f_fe73_8cc7_4079_7779_e898_0070_0a4d_4141_d8ab_75eb_4dca_1359_78a3
  {
    hide Eval;
    ConstantsD();
  }

  lemma BaseProduct()
    ensures FMul(0x2169_36d3_cd6e_53fe_c0a4_e231_fdd6_dc5c_692c_c760_9525_a7b2_c956_2d60_8f25_d51a,
                 0x6666_6666_6666_6666_6666_6666_6666_6666_6666_6666_6666_6666_6666_6666_6666_6658) ==
            0x6787_5f0f_d78b_7665_66ea_4e8e_64ab_e37d_20f0_9f80_7751_52f5_6dde_8ab3_a5b7_dda3
  {
    var x := 0x2169_36d3_cd6e_53fe_c0a4_e231_fdd6_dc5c_692c_c760_9525_a7b2_c956_2d60_8f25_d51a;
    var y := 0x6666_6666_6666_6666_6666_6666_6666_6666_6666_6666_6666_6666_6666_6666_6666_6658;
    var t := 0x6787_5f0f_d78b_7665_66ea_4e8e_64ab_e37d_20f0_9f80_7751_52f5_6dde_8ab3_a5b7_dda3;
    DivModUnique(x * y, P, (x * y - t) / P, t);
  }

  lemma BaseEquation()
    ensures var x := 0x2169_36d3_cd6e_53fe_c0a4_e231_fdd6_dc5c_692c_c760_9525_a7b2_c956_2d60_8f25_d51a;
            var y := 0x6666_6666_6666_6666_6666_6666_6666_6666_6666_6666_6666_6666_6666_6666_6666_6658;
            var t := 0x6787_5f0f_d78b_7665_66ea_4e8e_64ab_e37d_20f0_9f80_7751_52f5_6dde_8ab3_a5b7_dda3;
            var d := 0x5203_6cee_2b6f_fe73_8cc7_4079_7779_e898_0070_0a4d_4141_d8ab_75eb_4dca_1359_78a3;
            Eq(x * y, 1 * t) && Eq(y * y - x * x, 1 * 1 + d * (t * t))
  {
    var x := 0x2169_36d3_cd6e_53fe_c0a4_e231_fdd6_dc5c_692c_c760_9525_a7b2_c956_2d60_8f25_d51a;
    var y := 0x6666_6666_6666_6666_6666_6666_6666_6666_6666_6666_6666_6666_6666_6666_6666_6658;
    var t := 0x6787_5f0f_d78b_7665_66ea_4e8e_64ab_e37d_20f0_9f80_7751_52f5_6dde_8ab3_a5b7_dda3;
    var d := 0x5203_6cee_2b6f_fe73_8cc7_4079_7779_e898_0070_0a4d_4141_d8ab_75eb_4dca_1359_78a3;
    SameResidue(x * y, t, (x * y - t) / P, P);
    SameResidue(y * y - x * x, 1 + d * (t * t), (y * y - x * x - 1 - d * (t * t)) / P, P);
  }

  method Pack(r: array<u8>, p: Gf4)
    requires r.Length == 32 && p.Distinct() && p.Small()
    modifies r
    ensures LittleEndian(r[..]) == Encode(p.View())
  {
    hide Fe, FMul, FPow, Reduced, Bounded, Xor, Eval;
    ProductIsFactor();
    var tx := NewZero();
    var ty := NewZero();
    var zi := NewZero();
    Inv25519(zi, p.z);
    M(tx, p.x, zi);
    M(ty, p.y, zi);
    WideEnough();
    Pack25519(r, ty);
    ghost var s := r[..];
    FeRange(ty[..]);
    TopByte(s);
    var parity := Par25519(tx);
    SetTopBit(s[31], parity);
    r[31] := Xor(r[31], parity * 0x80 % 0x100, 8);
    EvalUpdate(0x100, s, 31, s[31] + parity * 0x80);
    TopWeight();
    assert r[..] == s[31 := s[31] + parity * 0x80];
  }

  lemma WideEnough()
    ensures forall s :: Bounded(s, PRODUCT) ==> Bounded(s, TWO_62)
  {
  }

  lemma TopWeight()
    ensures 0x80 * Pow(0x100, 31) == P + 19
  {
    hide Pow;
    SquareBase(16);
    Powers();
    PowAdds(0x100, 31, 1);
    PowOne(0x100);
  }

  lemma TopByte(s: seq<u8>)
    requires |s| == 32 && LittleEndian(s) < P
    ensures s[31] < 0x80
  {
    hide Eval, Pow;
    assert s[..31 + 1] == s;
    EvalSnoc(0x100, s, 31);
    EvalDigits(0x100, s[..31]);
    TopWeight();
    if s[31] >= 0x80 {
      MulMonotone(Pow(0x100, 31), 0x80, s[31]);
    }
  }

  /** Setting a bit that is clear by exclusive or. */
  lemma {:induction false} XorTop(x: int, n: nat)
    requires 0 <= x < Pow2(n)
    ensures Xor(x, Pow2(n), n + 1) == x + Pow2(n)
    decreases n
  {
    if n > 0 {
      XorTop(x / 2, n - 1);
      XorHalves(x, Pow2(n), n + 1);
    }
  }

  lemma SetTopBit(x: u8, b: int)
    requires x < 0x80 && 0 <= b <= 1
    ensures Xor(x, b * 0x80 % 0x100, 8) == x + b * 0x80
  {
    hide Xor;
    Widths();
    SmallPowers();
    XorTop(x, 7);
    XorWithZero(x, 8);
  }

  /** Arrays that hold the base point. */
  method NewBase() returns (q: Gf4)
    ensures fresh(q.x) && fresh(q.y) && fresh(q.z) && fresh(q.t)
    ensures q.Distinct() && q.Small() && q.View() == Base()
  {
    hide Fe, FMul, Bounded, Reduced;
    var gf1 := NewGf([1] + seq(15, _ => 0));
    UnitLimbs(seq(16, _ => 0), gf1[..]);
    var x := NewGf(X_LIMBS);
    var y := NewGf(Y_LIMBS);
    SmallConstant(x[..]);
    SmallConstant(y[..]);
    ProductIsFactor();
    var t := NewZero();
    M(t, x, y);
    q := Gf4(x, y, gf1, t);
  }

  method Scalarbase(p: Gf4, s: seq<u8>)
    requires p.Distinct() && |s| == 32
    modifies p.x, p.y, p.z, p.t
    ensures p.Small() && p.View() == Rounds(Base(), s, 0).0
  {
    hide Fe, FMul, Rounds, Bounded, Base;
    var q := NewBase();
    Scalarmult(p, q, s);
  }
}

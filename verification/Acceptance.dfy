/** What it means, for points, that a signature is accepted. */
module Acceptance {
  import opened Machine
  import opened Options
  import opened Limbs
  import opened Residues
  import opened Field25519
  import opened FieldCodec
  import opened Edwards
  import opened EdwardsLaws
  import opened Ladder
  import opened PointCodec
  import opened Completeness
  import opened Encodings
  import opened GroupOrder
  import opened SignOpen
  import Sha512

  /** A point of the curve whose Z is a field element and not 0. */
  ghost predicate Good(p: Point) {
    OnCurve(p) && 0 < p.z < P
  }

  lemma GoodIsProper(p: Point)
    requires Good(p)
    ensures Proper(p)
  {
    hide OnCurve;
    DivModUnique(p.z, P, 0, p.z);
    DivModUnique(0, P, 0, 0);
  }

  lemma SumIsGood(p: Point, q: Point)
    requires NoZeroDivisors() && DIsNoSquare() && Good(p) && Good(q)
    ensures Good(AddPoints(p, q))
  {
    hide NoZeroDivisors, DIsNoSquare, OnCurve, FMul, FAdd, FSub, Fe, Eq;
    GoodIsProper(p);
    GoodIsProper(q);
    AddStaysProper(p, q);
    ZIsResidue(p, q);
    EqRefl(0);
  }

  lemma ZIsResidue(p: Point, q: Point)
    ensures 0 <= AddPoints(p, q).z < P
  {
    hide Mod, CurveD, E, F, G, H;
    AddForm(p, q);
    ModRange(4 * (G(p, q) * F(p, q)));
  }

  /** Every point that the ladder reaches from a good point is good. */
  lemma {:induction false} LadderIsGood(q: Point, s: seq<u8>, i: nat)
    requires NoZeroDivisors() && DIsNoSquare() && Good(q) && |s| == 32 && i <= 256
    ensures Good(Rounds(q, s, i).0) && Good(Rounds(q, s, i).1)
    decreases 256 - i
  {
    hide NoZeroDivisors, DIsNoSquare, OnCurve, AddPoints, Bit;
    if i == 256 {
      ZeroOnCurve();
    } else {
      LadderIsGood(q, s, i + 1);
      var (a, b) := Rounds(q, s, i + 1);
      SumIsGood(a, a);
      SumIsGood(b, b);
      SumIsGood(a, b);
      SumIsGood(b, a);
    }
  }

  lemma RecoveredIsGood(pk: seq<u8>, h: seq<u8>, s: seq<u8>)
    requires NoZeroDivisors() && DIsNoSquare() && |pk| == |h| == |s| == 32 && DecodeNegated(pk).Some?
    ensures Good(Recovered(DecodeNegated(pk).value, h, s))
  {
    hide NoZeroDivisors, DIsNoSquare, OnCurve, DecodeNegated, Rounds, AddPoints, Fe, FMul;
    DecodedPoint(pk);
    BaseOnCurve();
    LadderIsGood(DecodeNegated(pk).value, h, 0);
    LadderIsGood(Base(), s, 0);
    SumIsGood(Rounds(DecodeNegated(pk).value, h, 0).0, Rounds(Base(), s, 0).0);
  }

  /** The signature is accepted exactly when the point that was recovered and the point whose encoding the signature
      starts with are the same: comparing 32 bytes compares points. */
  lemma AcceptedMeansEqual(f: Sha512.Functions, sm: seq<u8>, pk: seq<u8>, r: Point)
    requires NoZeroDivisors() && DIsNoSquare() && |f.k| == 80 && |sm| >= 64 && |pk| == 32
    requires Good(r) && Encode(r) == LittleEndian(sm[..32])
    ensures Accepted(f, sm, pk) <==> DecodeNegated(pk).Some? && SamePoint(RecoveredPoint(f, sm, pk), r)
  {
    hide NoZeroDivisors, DIsNoSquare, OnCurve, DecodeNegated, RecoveredPoint, Encode, SamePoint;
    if DecodeNegated(pk).Some? {
      PointIsGood(f, sm, pk);
      EncodingIsFaithful(RecoveredPoint(f, sm, pk), r);
    }
  }

  lemma PointIsGood(f: Sha512.Functions, sm: seq<u8>, pk: seq<u8>)
    requires NoZeroDivisors() && DIsNoSquare() && |f.k| == 80 && |sm| >= 64 && |pk| == 32 && DecodeNegated(pk).Some?
    ensures Good(RecoveredPoint(f, sm, pk))
  {
    hide NoZeroDivisors, DIsNoSquare, OnCurve, DecodeNegated, Recovered, Challenge, Good;
    RecoveredIsGood(pk, Challenge(f, sm, pk), sm[32..64]);
  }

  // Which responses are accepted.

  /** phi tells exactly the points apart that are different, op can be cancelled, and n is the order of x. */
  ghost predicate Tells<G(!new)>(phi: Point -> G) {
    forall p, q :: Good(p) && Good(q) ==> (phi(p) == phi(q) <==> SamePoint(p, q))
  }

  ghost predicate Cancels<G(!new)>(op: (G, G) -> G) {
    forall a, b, c :: op(a, b) == op(a, c) ==> b == c
  }

  ghost predicate HasOrder<G>(op: (G, G) -> G, e: G, n: nat, x: G) {
    Times(op, e, n, x) == e && forall k :: 0 < k < n ==> Times(op, e, k, x) != e
  }

  lemma {:induction false} TimesWraps<G(!new)>(op: (G, G) -> G, e: G, n: nat, x: G, k: nat, r: nat)
    requires Associative(op) && Unit(op, e) && Times(op, e, n, x) == e
    ensures k * n + r >= 0 && Times(op, e, k * n + r, x) == Times(op, e, r, x)
    decreases k
  {
    hide Times, Associative;
    if k > 0 {
      TimesWraps(op, e, n, x, k - 1, r);
      assert n + ((k - 1) * n + r) == k * n + r;
      TimesAdds(op, e, n, (k - 1) * n + r, x);
    }
  }

  /** Multiples are equal exactly when their numbers are, modulo the order. */
  lemma SameMultiple<G(!new)>(op: (G, G) -> G, e: G, n: nat, x: G, a: nat, b: nat)
    requires Associative(op) && Unit(op, e) && Cancels(op) && n > 0 && HasOrder(op, e, n, x)
    ensures Times(op, e, a, x) == Times(op, e, b, x) <==> a % n == b % n
  {
    hide Times, Associative, Cancels, HasOrder;
    Reduced(op, e, n, x, a);
    Reduced(op, e, n, x, b);
    var r, t := a % n, b % n;
    if r < t {
      Apart(op, e, n, x, r, t);
    } else if t < r {
      Apart(op, e, n, x, t, r);
    }
  }

  lemma Reduced<G(!new)>(op: (G, G) -> G, e: G, n: nat, x: G, a: nat)
    requires Associative(op) && Unit(op, e) && n > 0 && HasOrder(op, e, n, x)
    ensures 0 <= a % n < n && Times(op, e, a, x) == Times(op, e, a % n, x)
  {
    hide Times, Associative, HasOrder;
    OrderIsUnit(op, e, n, x);
    var k, r := a / n, a % n;
    assert a == k * n + r;
    TimesWraps(op, e, n, x, k, r);
  }

  lemma OrderIsUnit<G>(op: (G, G) -> G, e: G, n: nat, x: G)
    requires HasOrder(op, e, n, x)
    ensures Times(op, e, n, x) == e
  {
  }

  lemma Apart<G(!new)>(op: (G, G) -> G, e: G, n: nat, x: G, a: nat, b: nat)
    requires Associative(op) && Unit(op, e) && Cancels(op) && HasOrder(op, e, n, x) && a < b < n
    ensures Times(op, e, a, x) != Times(op, e, b, x)
  {
    hide Times, Associative;
    TimesAdds(op, e, a, b - a, x);
    assert op(Times(op, e, a, x), e) == Times(op, e, a, x);
  }

  /** Two signatures that differ in their responses only.  If the responses are equal modulo the order, both are
      accepted or none is; if both are accepted, the responses are equal modulo the order.  That the response is below
      the order, as section 5.1.7 of RFC 8032 demands, is not checked. */
  lemma ResponseModuloOrder<G(!new)>(phi: Point -> G, op: (G, G) -> G, e: G, f: Sha512.Functions, pk: seq<u8>,
                                     sm: seq<u8>, tm: seq<u8>)
    requires NoZeroDivisors() && DIsNoSquare() && |f.k| == 80 && |pk| == 32 && |sm| == |tm| >= 64
    requires Represents(Good, phi, op, e) && Tells(phi) && Cancels(op) && HasOrder(op, e, ORDER, phi(Base()))
    requires sm[..32] == tm[..32] && sm[64..] == tm[64..]
    ensures LittleEndian(sm[32..64]) % ORDER == LittleEndian(tm[32..64]) % ORDER
            ==> (Accepted(f, sm, pk) <==> Accepted(f, tm, pk))
    ensures Accepted(f, sm, pk) && Accepted(f, tm, pk)
            ==> LittleEndian(sm[32..64]) % ORDER == LittleEndian(tm[32..64]) % ORDER
  {
    hide NoZeroDivisors, DIsNoSquare, OnCurve, DecodeNegated, Recovered, Good, Encode, SamePoint, Eval, Times, Tells;
    hide HasOrder, Challenge, Cancels, Base;
    if DecodeNegated(pk).Some? {
      var h := Challenge(f, sm, pk);
      assert h == Challenge(f, tm, pk) by {
        SameChallenge(f, sm, tm, pk);
      }
      var s, t := sm[32..64], tm[32..64];
      var p, q := RecoveredPoint(f, sm, pk), RecoveredPoint(f, tm, pk);
      SameRecovered(phi, op, e, pk, h, s, t);
      PointIsGood(f, sm, pk);
      PointIsGood(f, tm, pk);
      SameBytes(p, q);
    }
  }

  lemma SameChallenge(f: Sha512.Functions, sm: seq<u8>, tm: seq<u8>, pk: seq<u8>)
    requires |f.k| == 80 && |pk| == 32 && |sm| == |tm| >= 64 && sm[..32] == tm[..32] && sm[64..] == tm[64..]
    ensures Challenge(f, sm, pk) == Challenge(f, tm, pk)
  {
  }

  lemma SameBytes(p: Point, q: Point)
    requires NoZeroDivisors() && DIsNoSquare() && Good(p) && Good(q)
    ensures Encode(p) == Encode(q) <==> SamePoint(p, q)
  {
    hide NoZeroDivisors, DIsNoSquare, OnCurve, Encode, SamePoint;
    EncodingIsFaithful(p, q);
  }

  lemma SameRecovered<G(!new)>(phi: Point -> G, op: (G, G) -> G, e: G, pk: seq<u8>, h: seq<u8>, s: seq<u8>, t: seq<u8>)
    requires NoZeroDivisors() && DIsNoSquare() && |pk| == |h| == |s| == |t| == 32 && DecodeNegated(pk).Some?
    requires Represents(Good, phi, op, e) && Tells(phi) && Cancels(op) && HasOrder(op, e, ORDER, phi(Base()))
    ensures var a := DecodeNegated(pk).value;
            LittleEndian(s) >= 0 && LittleEndian(t) >= 0
            && (SamePoint(Recovered(a, h, s), Recovered(a, h, t))
                <==> LittleEndian(s) % ORDER == LittleEndian(t) % ORDER)
  {
    hide NoZeroDivisors, DIsNoSquare, OnCurve, DecodeNegated, Recovered, Encode, SamePoint, Eval, Times, HasOrder;
    hide Associative, Fe, FMul, Base;
    var a := DecodeNegated(pk).value;
    StartsAreGood(pk);
    RecoveredIsGood(pk, h, s);
    RecoveredIsGood(pk, h, t);
    RecoveredMeaning(Good, phi, op, e, a, h, s);
    RecoveredMeaning(Good, phi, op, e, a, h, t);
    SameMultiple(op, e, ORDER, phi(Base()), LittleEndian(s), LittleEndian(t));
    var p, q := Recovered(a, h, s), Recovered(a, h, t);
    assert phi(p) == phi(q) <==> SamePoint(p, q);
  }

  lemma StartsAreGood(pk: seq<u8>)
    requires |pk| == 32 && DecodeNegated(pk).Some?
    ensures Good(DecodeNegated(pk).value) && Good(Base())
  {
    hide OnCurve, DecodeNegated, Fe, FMul;
    DecodedPoint(pk);
    BaseOnCurve();
  }

  /** The signature with the order added to its response. */
  function WithOrder(sm: seq<u8>): seq<u8>
    requires |sm| >= 64 && LittleEndian(sm[32..64]) >= 0
  {
    sm[..32] + LowBytes(LittleEndian(sm[32..64]) + ORDER, 32) + sm[64..]
  }

  lemma {:induction false} LowBytesValue(v: nat, n: nat)
    requires v < Pow(0x100, n)
    ensures LittleEndian(LowBytes(v, n)) == v
    decreases n
  {
    if n > 0 {
      LowBytesValue(v / 0x100, n - 1);
      assert LowBytes(v, n)[1..] == LowBytes(v / 0x100, n - 1);
    }
  }

  /** Every signature with a response as the standard demands it has a second form, which is accepted exactly when it
      is. */
  lemma SecondForm<G(!new)>(phi: Point -> G, op: (G, G) -> G, e: G, f: Sha512.Functions, pk: seq<u8>, sm: seq<u8>)
    requires NoZeroDivisors() && DIsNoSquare() && |f.k| == 80 && |pk| == 32 && |sm| >= 64
    requires Represents(Good, phi, op, e) && Tells(phi) && Cancels(op) && HasOrder(op, e, ORDER, phi(Base()))
    requires 0 <= LittleEndian(sm[32..64]) < ORDER
    ensures var tm := WithOrder(sm);
            && |tm| == |sm| && LittleEndian(tm[32..64]) == LittleEndian(sm[32..64]) + ORDER && tm != sm
            && (Accepted(f, sm, pk) <==> Accepted(f, tm, pk))
  {
    hide NoZeroDivisors, DIsNoSquare, Accepted, Represents, Tells, Cancels, HasOrder, Eval, LowBytes;
    var v := LittleEndian(sm[32..64]);
    var tm := WithOrder(sm);
    assert v + ORDER < Pow(0x100, 32) by {
      RoomForOrder();
    }
    LowBytesValue(v + ORDER, 32);
    assert tm[32..64] == LowBytes(v + ORDER, 32) && tm[..32] == sm[..32] && tm[64..] == sm[64..];
    ModPlusMultiple(v, 1, ORDER);
    ResponseModuloOrder(phi, op, e, f, pk, sm, tm);
  }

  lemma RoomForOrder()
    ensures 2 * ORDER < Pow(0x100, 32)
  {
    assert Pow(0x100, 4) == 0x1_0000_0000;
    PowAdds(0x100, 4, 4);
    PowAdds(0x100, 8, 8);
    PowAdds(0x100, 16, 16);
  }
}

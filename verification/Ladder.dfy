/** The swap ladder: scalar multiplication of a point by a 32-byte number. */
module Ladder {
  import opened Machine
  import opened Limbs
  import opened Residues
  import opened Field25519
  import opened FieldCodec
  import opened FieldPower
  import opened Edwards
  import opened EdwardsLaws

  /** Bit i of a number given as bytes, least significant byte first. */
  function Bit(s: seq<u8>, i: nat): int
    requires i / 8 < |s|
  {
    s[i / 8] / Pow2(i % 8) % 2
  }

  /** One round: exchange when the bit is set, q := q + p, p := p + p, exchange back. */
  function Round(p: Point, q: Point, b: int): (Point, Point) {
    if b == 1 then (AddPoints(p, q), AddPoints(q, q))
    else (AddPoints(p, p), AddPoints(q, p))
  }

  /** The two points after the rounds for bits 255 down to i. */
  function Rounds(q: Point, s: seq<u8>, i: nat): (Point, Point)
    requires |s| == 32 && i <= 256
    decreases 256 - i
  {
    if i == 256 then (ZERO, q)
    else
      var (a, b) := Rounds(q, s, i + 1);
      Round(a, b, Bit(s, i))
  }

  method Scalarmult(p: Gf4, q: Gf4, s: seq<u8>)
    requires p.Distinct() && q.Distinct() && p.Repr() !! q.Repr() && |s| == 32 && q.Small()
    modifies p.x, p.y, p.z, p.t, q.x, q.y, q.z, q.t
    ensures p.Small() && q.Small()
    ensures (p.View(), q.View()) == Rounds(old(q.View()), s, 0)
  {
    hide Fe, AddPoints, Rounds, Bit, Pow2, Bounded;
    ghost var start := q.View();
    var gf0 := NewGf(seq(16, _ => 0));
    var gf1 := NewGf([1] + seq(15, _ => 0));
    UnitLimbs(gf0[..], gf1[..]);
    Set25519(p.x, gf0);
    Set25519(p.y, gf1);
    Set25519(p.z, gf1);
    Set25519(p.t, gf0);
    RoundsStart(start, s);
    for i := 256 downto 0
      invariant p.Small() && q.Small()
      invariant (p.View(), q.View()) == Rounds(start, s, i)
    {
      var b := s[i / 8] / Pow2(i % 8) % 2;
      RoundsStep(start, s, i, b);
      Cswap(p, q, b);
      AddInPlace(q, p);
      AddInPlace(p, p);
      Cswap(p, q, b);
    }
  }

  lemma UnitLimbs(s: seq<int>, t: seq<int>)
    requires |s| == |t| == 16 && t[0] == 1
    requires (forall k :: 0 <= k < 16 ==> s[k] == 0) && forall k :: 1 <= k < 16 ==> t[k] == 0
    ensures Fe(s) == 0 && Fe(t) == 1 && Bounded(s, PRODUCT) && Bounded(t, PRODUCT)
  {
    EvalZeros(RADIX, s);
    EvalZeros(RADIX, t[1..]);
  }

  lemma RoundsStart(q: Point, s: seq<u8>)
    requires |s| == 32
    ensures Rounds(q, s, 256) == (ZERO, q)
  {
  }

  lemma RoundsStep(q: Point, s: seq<u8>, i: nat, b: int)
    requires |s| == 32 && i < 256 && b == s[i / 8] / Pow2(i % 8) % 2
    ensures 0 <= b <= 1
    ensures Rounds(q, s, i) == (var (u, v) := Rounds(q, s, i + 1); Round(u, v, b))
  {
    hide AddPoints;
  }

  // What the ladder computes, in any structure that the addition formulas represent.

  /** n times x. */
  ghost function Times<G>(op: (G, G) -> G, e: G, n: nat, x: G): G
    decreases n
  {
    if n == 0 then e else op(Times(op, e, n - 1, x), x)
  }

  ghost predicate Associative<G(!new)>(op: (G, G) -> G) {
    forall a, b, c :: op(op(a, b), c) == op(a, op(b, c))
  }

  ghost predicate Unit<G(!new)>(op: (G, G) -> G, e: G) {
    forall a :: op(e, a) == a && op(a, e) == a
  }

  /** phi maps the good points to a structure in which adding them is op. */
  ghost predicate Represents<G(!new)>(good: Point -> bool, phi: Point -> G, op: (G, G) -> G, e: G) {
    && Associative(op) && Unit(op, e)
    && good(ZERO) && phi(ZERO) == e
    && forall p, q :: good(p) && good(q) ==> good(AddPoints(p, q)) && phi(AddPoints(p, q)) == op(phi(p), phi(q))
  }

  lemma {:induction false} TimesAdds<G(!new)>(op: (G, G) -> G, e: G, m: nat, n: nat, x: G)
    requires Associative(op) && Unit(op, e)
    ensures Times(op, e, m + n, x) == op(Times(op, e, m, x), Times(op, e, n, x))
    decreases n
  {
    if n > 0 {
      TimesAdds(op, e, m, n - 1, x);
      assert op(op(Times(op, e, m, x), Times(op, e, n - 1, x)), x)
             == op(Times(op, e, m, x), op(Times(op, e, n - 1, x), x));
    }
  }

  /** The number made of the bits from i up. */
  ghost function Above(s: seq<u8>, i: nat): int
    requires |s| == 32 && i <= 256
  {
    LittleEndian(s[i / 8..]) / Pow2(i % 8)
  }

  lemma AboveStep(s: seq<u8>, i: nat)
    requires |s| == 32 && i < 256
    ensures Above(s, i) == 2 * Above(s, i + 1) + Bit(s, i) && 0 <= Bit(s, i) <= 1
  {
    var j, r := i / 8, i % 8;
    var y := LittleEndian(s[j + 1..]);
    assert s[j..][1..] == s[j + 1..];
    assert LittleEndian(s[j..]) == s[j] + 0x100 * y;
    SmallPowers();
    if r == 7 {
      assert (i + 1) / 8 == j + 1 && (i + 1) % 8 == 0;
      HalveByte(s[j], y, 7);
    } else {
      assert (i + 1) / 8 == j && (i + 1) % 8 == r + 1;
      HalveByte(s[j], y, r);
    }
  }

  lemma NothingAbove(s: seq<u8>)
    requires |s| == 32
    ensures Above(s, 256) == 0
  {
    assert s[32..] == [];
    SmallPowers();
  }

  lemma SmallPowers()
    ensures Pow2(0) == 1 && Pow2(1) == 2 && Pow2(2) == 4 && Pow2(3) == 8
    ensures Pow2(4) == 16 && Pow2(5) == 32 && Pow2(6) == 64 && Pow2(7) == 128
  {
  }

  /** Dropping one bit more from a byte with higher bytes y above it. */
  lemma HalveByte(x: u8, y: int, r: nat)
    requires r <= 7
    ensures r < 7 ==> (x + 0x100 * y) / Pow2(r) == 2 * ((x + 0x100 * y) / Pow2(r + 1)) + x / Pow2(r) % 2
    ensures r == 7 ==> (x + 0x100 * y) / Pow2(r) == 2 * y + x / Pow2(r) % 2
  {
    hide Pow2;
    var d := Pow2(r);
    var c := Pow2(7 - r);
    PowersOfByte(r);
    HigherBytes(x, y, d, 2 * c);
    if r < 7 {
      HigherBytes(x, y, 2 * d, c);
      SplitBit(x, d);
    } else {
      assert x / d / 2 == 0;
    }
  }

  lemma PowersOfByte(r: nat)
    requires r <= 7
    ensures 2 * Pow2(7 - r) * Pow2(r) == 0x100 && Pow2(7 - r) * (2 * Pow2(r)) == 0x100
    ensures r < 7 ==> Pow2(r + 1) == 2 * Pow2(r)
    ensures r == 7 ==> Pow2(r) == 128 && Pow2(7 - r) == 1
  {
    SmallPowers();
  }

  /** Division by a power of two does not mix a byte with the bytes above it. */
  lemma HigherBytes(x: u8, y: int, d: int, c: int)
    requires d > 0 && c * d == 0x100
    ensures (x + 0x100 * y) / d == x / d + c * y
  {
    assert x + 0x100 * y == (x / d + c * y) * d + x % d by {
      assert (c * y) * d == (c * d) * y;
      Distribute(d, x / d, c * y);
    }
    DivModUnique(x + 0x100 * y, d, x / d + c * y, x % d);
  }

  lemma SplitBit(x: int, d: int)
    requires d > 0
    ensures x / d == 2 * (x / (2 * d)) + x / d % 2
  {
    var q, r := x / (2 * d), x % (2 * d);
    assert x == (2 * d) * q + r;
    if r < d {
      DivModUnique(x, d, 2 * q, r);
    } else {
      DivModUnique(x, d, 2 * q + 1, r - d);
    }
  }

  /** After bits 255 to i, the two points are k and k + 1 times q, where k is the number made of the
      bits read so far. */
  lemma {:induction false} LadderInvariant<G(!new)>(good: Point -> bool, phi: Point -> G, op: (G, G) -> G, e: G,
                                                    q: Point, s: seq<u8>, i: nat)
    requires Represents(good, phi, op, e) && good(q) && |s| == 32 && i <= 256
    ensures var (a, b) := Rounds(q, s, i);
            && good(a) && good(b) && Above(s, i) >= 0
            && phi(a) == Times(op, e, Above(s, i), phi(q))
            && phi(b) == Times(op, e, Above(s, i) + 1, phi(q))
    decreases 256 - i
  {
    hide AddPoints, Bit, Round, Times, Unit, Associative, Above;
    if i == 256 {
      NothingAbove(s);
      TimesOne(op, e, phi(q));
    } else {
      LadderInvariant(good, phi, op, e, q, s, i + 1);
      AboveStep(s, i);
      var (a, b) := Rounds(q, s, i + 1);
      LadderStep(good, phi, op, e, a, b, Above(s, i + 1), phi(q), Bit(s, i));
    }
  }

  lemma LadderStep<G(!new)>(good: Point -> bool, phi: Point -> G, op: (G, G) -> G, e: G,
                            a: Point, b: Point, k: nat, x: G, bit: int)
    requires Represents(good, phi, op, e) && good(a) && good(b) && 0 <= bit <= 1
    requires phi(a) == Times(op, e, k, x) && phi(b) == Times(op, e, k + 1, x)
    ensures var (c, d) := Round(a, b, bit);
            && good(c) && good(d)
            && phi(c) == Times(op, e, 2 * k + bit, x) && phi(d) == Times(op, e, 2 * k + bit + 1, x)
  {
    hide AddPoints, Times, Associative, Unit;
    if bit == 1 {
      TimesAdds(op, e, k, k + 1, x);
      TimesAdds(op, e, k + 1, k + 1, x);
      assert k + (k + 1) == 2 * k + bit && (k + 1) + (k + 1) == 2 * k + bit + 1;
    } else {
      TimesAdds(op, e, k, k, x);
      TimesAdds(op, e, k + 1, k, x);
      assert k + k == 2 * k + bit && (k + 1) + k == 2 * k + bit + 1;
    }
  }

  lemma TimesOne<G(!new)>(op: (G, G) -> G, e: G, x: G)
    requires Unit(op, e)
    ensures Times(op, e, 0, x) == e && Times(op, e, 1, x) == x
  {
    assert Times(op, e, 1, x) == op(Times(op, e, 0, x), x);
  }

  /** The ladder computes s times q. */
  lemma LadderComputesMultiple<G(!new)>(good: Point -> bool, phi: Point -> G, op: (G, G) -> G, e: G,
                                        q: Point, s: seq<u8>)
    requires Represents(good, phi, op, e) && good(q) && |s| == 32
    ensures LittleEndian(s) >= 0
    ensures good(Rounds(q, s, 0).0) && phi(Rounds(q, s, 0).0) == Times(op, e, LittleEndian(s), phi(q))
  {
    hide Rounds, Times;
    LadderInvariant(good, phi, op, e, q, s, 0);
    assert s[0..] == s && Above(s, 0) == LittleEndian(s) / 1;
  }

  /** Every point that the ladder visits is on the curve. */
  lemma {:induction false} LadderStaysOnCurve(q: Point, s: seq<u8>, i: nat)
    requires OnCurve(q) && |s| == 32 && i <= 256
    ensures OnCurve(Rounds(q, s, i).0) && OnCurve(Rounds(q, s, i).1)
    decreases 256 - i
  {
    hide OnCurve, AddPoints, Bit;
    if i == 256 {
      ZeroOnCurve();
    } else {
      LadderStaysOnCurve(q, s, i + 1);
      var (a, b) := Rounds(q, s, i + 1);
      AddKeepsCurve(a, a);
      AddKeepsCurve(b, b);
      AddKeepsCurve(a, b);
      AddKeepsCurve(b, a);
    }
  }
}

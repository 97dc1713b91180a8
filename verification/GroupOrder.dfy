/**
  Reduction modulo the order of the base point, 2^252 + 27742317777372353535851937790883648493, on
  64 signed limbs of 8 bits.
 */
module GroupOrder {
  import opened Machine
  import opened Limbs
  import opened Residues
  import opened FieldCodec

  const ORDER := 0x1000_0000_0000_0000_0000_0000_0000_0000_14de_f9de_a2f7_9cd6_5812_631a_5cf5_d3ed
  const TWO_252 := 0x1000_0000_0000_0000_0000_0000_0000_0000_0000_0000_0000_0000_0000_0000_0000_0000
  const DELTA := 0x14de_f9de_a2f7_9cd6_5812_631a_5cf5_d3ed

  /** The bytes of the order. */
  const L: seq<int> := [0xed, 0xd3, 0xf5, 0x5c, 0x1a, 0x63, 0x12, 0x58, 0xd6, 0x9c, 0xf7, 0xa2, 0xde, 0xf9, 0xde, 0x14,
                        0, 0, 0, 0, 0, 0, 0, 0, 0, 0, 0, 0, 0, 0, 0, 0x10]

  /** No limb exceeds n in absolute value. */
  ghost predicate Within(s: seq<int>, n: int) {
    forall k :: 0 <= k < |s| ==> -n <= s[k] <= n
  }

  lemma {:induction false} SixteenBytes(s: seq<int>)
    requires |s| == 16
    ensures LittleEndian(s) ==
            s[0] + 0x100 * (s[1] + 0x100 * (s[2] + 0x100 * (s[3] +
            0x100 * (s[4] + 0x100 * (s[5] + 0x100 * (s[6] + 0x100 * (s[7] +
            0x100 * (s[8] + 0x100 * (s[9] + 0x100 * (s[10] + 0x100 * (s[11] +
            0x100 * (s[12] + 0x100 * (s[13] + 0x100 * (s[14] +
            0x100 * s[15]))))))))))))))
  {
    FourBytes(s);
    FourBytes(s[4..]);
    FourBytes(s[8..]);
    FourBytes(s[12..]);
    assert s[4..][4..] == s[8..] && s[8..][4..] == s[12..] && s[12..][4..] == [];
  }

  lemma FourBytes(s: seq<int>)
    requires |s| >= 4
    ensures LittleEndian(s) == s[0] + 0x100 * (s[1] + 0x100 * (s[2] + 0x100 * (s[3] + 0x100 * LittleEndian(s[4..]))))
  {
    assert s[1..][1..] == s[2..] && s[2..][1..] == s[3..] && s[3..][1..] == s[4..];
    assert LittleEndian(s) == s[0] + 0x100 * LittleEndian(s[1..]);
    assert LittleEndian(s[1..]) == s[1] + 0x100 * LittleEndian(s[2..]);
    assert LittleEndian(s[2..]) == s[2] + 0x100 * LittleEndian(s[3..]);
  }

  /** The order that section 5.1 of RFC 8032 gives. */
  lemma StandardOrder()
    ensures ORDER == Pow2(252) + 27742317777372353535851937790883648493
  {
    hide Pow2;
    Widths();
    Pow2Adds(63, 63);
    Pow2Adds(126, 126);
  }

  lemma OrderValue()
    ensures LittleEndian(L[..16]) == DELTA && LittleEndian(L[..20]) == DELTA
    ensures LittleEndian(L) == ORDER == TWO_252 + DELTA
    ensures 0x10 * Pow(0x100, 31) == TWO_252 && Pow(0x100, 32) == 0x10 * TWO_252
  {
    hide Eval;
    SixteenBytes(L[..16]);
    assert L[..20][..16] == L[..16];
    EvalSplit(0x100, L[..20], 16);
    EvalZeros(0x100, L[..20][16..]);
    EvalSplit(0x100, L, 16);
    SixteenBytes(L[16..]);
    ByteWeights();
  }

  lemma ByteWeights()
    ensures Pow(0x100, 16) == 0x1_0000_0000_0000_0000_0000_0000_0000_0000
    ensures 0x10 * Pow(0x100, 31) == TWO_252 && Pow(0x100, 32) == 0x10 * TWO_252
  {
    hide Pow;
    SquareBase(16);
    SquareBase(8);
    Field25519.Powers();
    PowAdds(0x100, 16, 16);
    PowAdds(0x100, 31, 1);
    PowOne(0x100);
    Eight8();
  }

  lemma Eight8()
    ensures Pow(0x1_0000, 8) == 0x1_0000_0000_0000_0000_0000_0000_0000_0000
  {
    Eight([0, 0, 0, 0, 0, 0, 0, 0]);
  }

  const RAW := 0x40_0000

  /** A bound on the carry into offset n of a fold.  When the limbs are settled, the four zero bytes of
      the order bring it down to almost nothing. */
  function CarryBound(n: int, settled: bool): int {
    if n <= 16 then 0x800_0000
    else if n == 17 then 0x10_0000
    else if n == 18 then (if settled then 0x2000 else 0x8000)
    else if n == 19 then (if settled then 0x40 else 0x8000)
    else (if settled then 2 else 0x8000)
  }

  lemma OrderBytes(n: nat)
    requires n < 32
    ensures 0 <= L[n] < 0x100 && (16 <= n < 20 ==> L[n] == 0)
  {
  }

  lemma ByteMultiple(y: int, b: int)
    requires -RAW <= y <= RAW && 0 <= b < 0x100
    ensures -0x4_0000_0000 <= 16 * y * b <= 0x4_0000_0000 && (b == 0 ==> 16 * y * b == 0)
  {
    if y >= 0 {
      MulMonotone(y, b, 0xff);
      MulMonotone(y, 0, b);
    } else {
      MulMonotone(-y, b, 0xff);
      MulMonotone(-y, 0, b);
    }
    assert 16 * y * b == 16 * (y * b);
  }

  lemma CarryShrinks(n: nat, settled: bool, x: int, c: int, d: int)
    requires n < 20 && -CarryBound(n, settled) <= c <= CarryBound(n, settled)
    requires -RAW <= x <= RAW && (settled && n >= 16 ==> -0x80 <= x <= 0x80)
    requires -0x4_0000_0000 <= d <= 0x4_0000_0000 && (n >= 16 ==> d == 0)
    ensures var v := x + c - d; var k := (v + 128) / 0x100;
            -CarryBound(n + 1, settled) <= k <= CarryBound(n + 1, settled) && -0x80 <= v - k * 0x100 <= 0x80
  {
  }

  /** Limbs i - 31 to i - 12 have been normalised. */
  ghost predicate Settled(s: seq<int>, i: int) {
    |s| == 64 && 32 <= i < 63 && forall k :: i - 31 <= k <= i - 12 ==> -0x80 <= s[k] <= 0x80
  }

  /** How the sum changes while limb i is folded into the limbs from i - 32 up. */
  ghost predicate Folding(s: seq<int>, t: seq<int>, i: int, j: int, carry: int) {
    && |s| == |t| == 64 && 32 <= i < 64 && i - 32 <= j <= i - 12
    && LittleEndian(t) + carry * Pow(0x100, j) ==
       LittleEndian(s) - 16 * s[i] * (Pow(0x100, i - 32) * LittleEndian(L[..j - (i - 32)]))
  }

  lemma FoldStart(s: seq<int>, i: int)
    requires |s| == 64 && 32 <= i < 64
    ensures Folding(s, s, i, i - 32, 0)
  {
    hide Pow;
    assert L[..0] == [];
  }

  lemma FoldStep(s: seq<int>, t: seq<int>, i: int, j: int, carry: int, k: int)
    requires Folding(s, t, i, j, carry) && j < i - 12
    ensures Folding(s, t[j := t[j] + carry - 16 * s[i] * L[j - (i - 32)] - k * 0x100], i, j + 1, k)
  {
    hide Eval, Pow;
    var n := j - (i - 32);
    CarryOut(0x100, t, j, carry, 16 * s[i] * L[n], k);
    EvalSnoc(0x100, L, n);
    PowAdds(0x100, i - 32, n);
    FoldWeights(s[i], L[n], Pow(0x100, i - 32), Pow(0x100, n), LittleEndian(L[..n]));
  }

  lemma FoldWeights(y: int, b: int, p: int, q: int, e: int)
    ensures 16 * y * (p * (e + b * q)) == 16 * y * (p * e) + 16 * y * b * (p * q)
  {
    Distribute(p, e, b * q);
    Distribute(16 * y, p * e, p * (b * q));
    assert p * (b * q) == b * (p * q);
    assert 16 * y * (b * (p * q)) == 16 * y * b * (p * q);
  }

  lemma FoldEnd(s: seq<int>, t: seq<int>, i: int, carry: int)
    requires Folding(s, t, i, i - 12, carry) && t[i] == s[i]
    ensures LittleEndian(t[i - 12 := t[i - 12] + carry][i := 0]) ==
            LittleEndian(s) - 16 * s[i] * Pow(0x100, i - 32) * ORDER
  {
    hide Eval, Pow;
    var u := t[i - 12 := t[i - 12] + carry];
    EvalUpdate(0x100, t, i - 12, t[i - 12] + carry);
    EvalUpdate(0x100, u, i, 0);
    OrderValue();
    PowAdds(0x100, i - 32, 32);
    OrderWeights(s[i], Pow(0x100, i - 32));
  }

  lemma OrderWeights(y: int, p: int)
    ensures 16 * y * (p * DELTA) + y * (p * (0x10 * TWO_252)) == 16 * y * p * ORDER
  {
    assert ORDER == TWO_252 + DELTA;
    assert 16 * y * (p * DELTA) == 16 * y * p * DELTA;
    assert y * (p * (0x10 * TWO_252)) == 16 * y * p * TWO_252;
    Distribute(16 * y * p, TWO_252, DELTA);
  }

  /** Replaces limb i by its multiple of the order: 2^(8 i) is -16 DELTA times 2^(8 (i - 32)). */
  method FoldLimb(x: array<i64>, i: int)
    requires x.Length == 64 && 32 <= i < 64
    requires forall k :: 0 <= k <= i ==> -RAW <= x[k] <= RAW
    requires i < 63 ==> Settled(x[..], i)
    modifies x
    ensures LittleEndian(x[..]) == old(LittleEndian(x[..])) - 16 * old(x[i]) * Pow(0x100, i - 32) * ORDER
    ensures x[i] == 0
    ensures forall k :: i - 32 <= k < i - 12 ==> -0x80 <= x[k] <= 0x80
    ensures if i < 63 then -0xfe <= x[i - 12] <= 0xfe else old(x[51]) - 0x8000 <= x[51] <= old(x[51]) + 0x8000
    ensures forall k :: 0 <= k < 64 && (k < i - 32 || k > i - 12) && k != i ==> x[k] == old(x[k])
  {
    hide Eval, Pow, Folding;
    ghost var s := x[..];
    var carry: i64 := 0;
    FoldStart(s, i);
    var j := i - 32;
    while j < i - 12
      invariant i - 32 <= j <= i - 12
      invariant Folding(s, x[..], i, j, carry)
      invariant -CarryBound(j - (i - 32), i < 63) <= carry <= CarryBound(j - (i - 32), i < 63)
      invariant forall k :: i - 32 <= k < j ==> -0x80 <= x[k] <= 0x80
      invariant forall k :: 0 <= k < 64 && (k < i - 32 || k >= j) ==> x[k] == s[k]
    {
      OrderBytes(j - (i - 32));
      ByteMultiple(s[i], L[j - (i - 32)]);
      CarryShrinks(j - (i - 32), i < 63, s[j], carry, 16 * s[i] * L[j - (i - 32)]);
      ghost var t, c := x[..], carry;
      var product: i64 := 16 * x[i] * L[j - (i - 32)];
      x[j] := x[j] + (carry - product);
      carry := (x[j] + 128) / 0x100;
      x[j] := x[j] - carry * 0x100;
      FoldStep(s, t, i, j, c, carry);
      assert x[..] == t[j := t[j] + c - 16 * s[i] * L[j - (i - 32)] - carry * 0x100];
      j := j + 1;
    }
    FoldEnd(s, x[..], i, carry);
    x[j] := x[j] + carry;
    x[i] := 0;
  }

  /** The lower 32 limbs after all folds. */
  lemma FoldSameResidue(v: int, y: int, p: int, r: int)
    requires v % ORDER == r
    ensures (v - 16 * y * p * ORDER) % ORDER == r
  {
    ModPlusMultiple(v, -(16 * y * p), ORDER);
    assert v + -(16 * y * p) * ORDER == v - 16 * y * p * ORDER;
  }

  /** How far the folds have come when limbs i and above are gone. */
  ghost predicate Folded(s: seq<int>, i: int) {
    && |s| == 64 && 32 <= i <= 64
    && (forall k :: i <= k < 64 ==> s[k] == 0)
    && (forall k :: 0 <= k < i ==> -RAW <= s[k] <= RAW)
    && (forall k :: 51 < k < i ==> -0x20_0000 <= s[k] <= 0x20_0000)
    && (i == 64 ==> forall k :: 0 <= k < 64 ==> -0x20_0000 <= s[k] <= 0x20_0000)
    && (forall k :: i - 32 <= k < i - 12 && i < 64 ==> -0x80 <= s[k] <= 0x80)
    && (forall k :: i - 32 <= k <= 50 && i < 64 ==> -0xfe <= s[k] <= 0xfe)
  }

  /** The first loop of modL: all limbs above 2^256 are replaced by multiples of the order. */
  method FoldAll(x: array<i64>)
    requires x.Length == 64 && Within(x[..], 0x20_0000)
    modifies x
    ensures LittleEndian(x[..]) % ORDER == old(LittleEndian(x[..])) % ORDER
    ensures Folded(x[..], 32)
  {
    hide Eval, Pow;
    ghost var r := LittleEndian(x[..]) % ORDER;
    for i := 64 downto 32
      invariant LittleEndian(x[..]) % ORDER == r
      invariant Folded(x[..], i)
    {
      ghost var v := LittleEndian(x[..]);
      FoldSameResidue(v, x[i], Pow(0x100, i - 32), r);
      FoldLimb(x, i);
    }
  }

  lemma MultipleBound(q: int, b: int)
    requires -16 <= q <= 16 && 0 <= b < 0x100
    ensures -0x1000 <= q * b <= 0x1000
  {
    if q >= 0 {
      MulMonotone(q, b, 0xff);
      MulMonotone(q, 0, b);
    } else {
      MulMonotone(-q, b, 0xff);
      MulMonotone(-q, 0, b);
    }
  }

  /** Limbs before j of v - q * ORDER are in t as digits, and carry goes to limb j. */
  ghost predicate Reducing(v: int, t: seq<int>, q: int, j: int, carry: int) {
    && |t| == 64 && 0 <= j <= 32
    && LittleEndian(t) + carry * Pow(0x100, j) == v - q * LittleEndian(L[..j])
  }

  lemma ReduceStart(t: seq<int>, q: int)
    requires |t| == 64
    ensures Reducing(LittleEndian(t), t, q, 0, 0)
  {
    assert L[..0] == [];
  }

  lemma ReduceStep(v: int, t: seq<int>, q: int, j: int, carry: int, k: int)
    requires Reducing(v, t, q, j, carry) && j < 32
    ensures Reducing(v, t[j := t[j] + carry - q * L[j] - k * 0x100], q, j + 1, k)
  {
    hide Eval, Pow;
    CarryOut(0x100, t, j, carry, q * L[j], k);
    EvalSnoc(0x100, L, j);
    Distribute(q, LittleEndian(L[..j]), L[j] * Pow(0x100, j));
    assert q * (L[j] * Pow(0x100, j)) == q * L[j] * Pow(0x100, j);
  }

  /** The second loop of modL: subtracts the multiple of the order that the top limb suggests. */
  method SubtractTop(x: array<i64>) returns (carry: i64)
    requires x.Length == 64 && forall k :: 0 <= k < 32 ==> -0xfe <= x[k] <= 0xfe
    modifies x
    ensures LittleEndian(x[..]) + carry * Pow(0x100, 32) == old(LittleEndian(x[..])) - old(x[31]) / 0x10 * ORDER
    ensures Digits(0x100, x[..32]) && -0x20 <= carry <= 0x20
    ensures forall k :: 32 <= k < 64 ==> x[k] == old(x[k])
  {
    hide Eval, Pow, Reducing;
    ghost var s := x[..];
    ghost var v, q := LittleEndian(s), s[31] / 0x10;
    carry := 0;
    ReduceStart(s, q);
    for j := 0 to 32
      invariant Reducing(v, x[..], q, j, carry)
      invariant -0x20 <= carry <= 0x20
      invariant forall k :: 0 <= k < j ==> 0 <= x[k] < 0x100
      invariant forall k :: j <= k < 64 ==> x[k] == s[k]
    {
      OrderBytes(j);
      MultipleBound(q, L[j]);
      ghost var t, c := x[..], carry;
      var multiple: i64 := (x[31] / 0x10) * L[j];
      x[j] := x[j] + (carry - multiple);
      carry := x[j] / 0x100;
      x[j] := x[j] % 0x100;
      ReduceStep(v, t, q, j, c, carry);
      assert x[..] == t[j := t[j] + c - q * L[j] - carry * 0x100];
    }
    ReduceEnd(v, x[..], q, carry);
  }

  lemma ReduceEnd(v: int, t: seq<int>, q: int, carry: int)
    requires Reducing(v, t, q, 32, carry)
    ensures LittleEndian(t) + carry * Pow(0x100, 32) == v - q * ORDER
  {
    hide Eval, Pow;
    assert L[..32] == L;
    OrderValue();
  }

  /** With the multiple subtracted, the number lies strictly between minus and plus the order. */
  lemma TopEstimate(s: seq<int>)
    requires |s| == 64 && (forall k :: 0 <= k < 32 ==> -0xfe <= s[k] <= 0xfe) && forall k :: 32 <= k < 64 ==> s[k] == 0
    ensures -ORDER <= LittleEndian(s) - s[31] / 0x10 * ORDER < ORDER
  {
    hide Eval, Pow, Ones;
    EvalSplit(0x100, s, 32);
    EvalZeros(0x100, s[32..]);
    EvalSnoc(0x100, s, 31);
    EvalMagnitude(0x100, s[..31], 0xfe);
    Field25519.OnesTimes(0x100, 31);
    ByteWeights();
    var q, r := s[31] / 0x10, s[31] % 0x10;
    assert s[31] * Pow(0x100, 31) == q * TWO_252 + r * Pow(0x100, 31);
    assert q * ORDER == q * TWO_252 + q * DELTA;
  }

  /** Adding the order back, and dropping the carry out of the top, leaves the canonical residue. */
  lemma FinalCorrection(v: int, carry: int, d: int)
    requires -ORDER <= v < ORDER && 0 <= d < 0x10 * TWO_252 && d + carry * (0x10 * TWO_252) == v
    ensures carry == 0 || carry == -1
    ensures (d - carry * ORDER) % (0x10 * TWO_252) == v % ORDER
  {
    if carry == 0 {
      DivModUnique(d, 0x10 * TWO_252, 0, d);
      DivModUnique(v, ORDER, 0, v);
    } else {
      DivModUnique(v, ORDER, -1, v + ORDER);
      DivModUnique(d + ORDER, 0x10 * TWO_252, 1, v + ORDER);
    }
  }

  /** What the last two loops of modL have to produce. */
  lemma OrderWithdrawn(v: int, s: seq<int>, d: seq<int>, carry: int)
    requires |s| == |d| == 64 && LittleEndian(s) % ORDER == v % ORDER
    requires Digits(0x100, d[..32]) && forall k :: 32 <= k < 64 ==> d[k] == 0
    requires var u := LittleEndian(s) - s[31] / 0x10 * ORDER;
             LittleEndian(d) + carry * Pow(0x100, 32) == u && -ORDER <= u < ORDER
    ensures carry == 0 || carry == -1
    ensures (LittleEndian(d[..32]) - carry * ORDER) % (0x10 * TWO_252) == v % ORDER
  {
    hide Eval, Pow;
    ByteWeights();
    EvalSplit(0x100, d, 32);
    EvalZeros(0x100, d[32..]);
    EvalDigits(0x100, d[..32]);
    var u := LittleEndian(s) - s[31] / 0x10 * ORDER;
    SameResidue(u, LittleEndian(s), -(s[31] / 0x10), ORDER);
    FinalCorrection(u, carry, LittleEndian(d[..32]));
  }

  lemma LimbwiseMultiple(d: seq<int>, w: seq<int>, c: int)
    requires |d| == |w| == 64 && Digits(0x100, d[..32]) && -1 <= c <= 0
    requires forall k :: 0 <= k < 32 ==> w[k] == d[k] - c * L[k]
    ensures LittleEndian(w[..32]) == LittleEndian(d[..32]) - c * ORDER
    ensures forall k :: 0 <= k < 32 ==> 0 <= w[k] < 0x200
  {
    hide Eval;
    EvalLinear(0x100, d[..32], L, w[..32], -c);
    OrderValue();
    forall k | 0 <= k < 32
      ensures 0 <= w[k] < 0x200
    {
      OrderBytes(k);
      assert d[..32][k] == d[k];
    }
  }

  /** The first i bytes are written; limb i holds the carry on top of its own value. */
  ghost predicate Storing(w: seq<int>, x: seq<int>, r: seq<int>, i: int) {
    && |w| == |x| == 64 && |r| >= 32 && 0 <= i <= 32
    && LittleEndian(r[..i]) + Pow(0x100, i) * (x[i] - w[i] + LittleEndian(w[i..32])) == LittleEndian(w[..32])
  }

  lemma StoreStart(w: seq<int>, r: seq<int>)
    requires |w| == 64 && |r| >= 32
    ensures Storing(w, w, r, 0)
  {
    assert w[0..32] == w[..32];
  }

  lemma StoreStep(w: seq<int>, x: seq<int>, r: seq<int>, i: nat)
    requires i < 32 && Storing(w, x, r, i) && x[i + 1] == w[i + 1]
    ensures Storing(w, x[i + 1 := x[i + 1] + x[i] / 0x100], r[i := x[i] % 0x100], i + 1)
  {
    var r', e := r[i := x[i] % 0x100], LittleEndian(w[i + 1..32]);
    assert r'[..i] == r[..i] && w[i..32][1..] == w[i + 1..32];
    assert LittleEndian(w[i..32]) == w[i] + 0x100 * e;
    EvalSnoc(0x100, r', i);
    StoreWeights(x[i], Pow(0x100, i), e);
    assert Pow(0x100, i + 1) == 0x100 * Pow(0x100, i);
  }

  lemma StoreWeights(x: int, p: int, e: int)
    ensures p * (x + 0x100 * e) == x % 0x100 * p + 0x100 * p * (x / 0x100 + e)
  {
    assert x + 0x100 * e == x % 0x100 + 0x100 * (x / 0x100 + e);
    Distribute(p, x % 0x100, 0x100 * (x / 0x100 + e));
  }

  lemma StoreEnd(w: seq<int>, x: seq<int>, r: seq<int>)
    requires Storing(w, x, r, 32) && Digits(0x100, r[..32])
    ensures LittleEndian(r[..32]) == LittleEndian(w[..32]) % (0x10 * TWO_252)
  {
    hide Eval, Pow;
    ByteWeights();
    EvalZeros(0x100, w[32..32]);
    EvalDigits(0x100, r[..32]);
    DivModUnique(LittleEndian(w[..32]), 0x10 * TWO_252, x[32] - w[32], LittleEndian(r[..32]));
  }

  method ModL(r: array<u8>, x: array<i64>)
    requires r.Length >= 32 && x.Length == 64 && (r as object) != x
    requires Within(x[..], 0x20_0000)
    modifies r, x
    ensures LittleEndian(r[..32]) == old(LittleEndian(x[..])) % ORDER
    ensures forall k :: 32 <= k < r.Length ==> r[k] == old(r[k])
  {
    hide Eval, Pow, Storing;
    ghost var v := LittleEndian(x[..]);
    FoldAll(x);
    ghost var s := x[..];
    var carry := SubtractTop(x);
    ghost var d := x[..];
    TopEstimate(s);
    OrderWithdrawn(v, s, d, carry);
    assert forall k :: 0 <= k < 32 ==> d[k] == d[..32][k];
    SubtractMultiple(x, carry);
    LimbwiseMultiple(d, x[..], carry);
    StoreDigits(r, x);
  }

  /** The third loop of modL. */
  method SubtractMultiple(x: array<i64>, c: i64)
    requires x.Length == 64 && -1 <= c <= 0 && forall k :: 0 <= k < 32 ==> 0 <= x[k] < 0x100
    modifies x
    ensures forall k :: 0 <= k < 32 ==> x[k] == old(x[k]) - c * L[k]
    ensures forall k :: 32 <= k < 64 ==> x[k] == old(x[k])
  {
    for j := 0 to 32
      invariant forall k :: 0 <= k < j ==> x[k] == old(x[k]) - c * L[k]
      invariant forall k :: j <= k < 64 ==> x[k] == old(x[k])
    {
      OrderBytes(j);
      MultipleBound(c, L[j]);
      var multiple: i64 := c * L[j];
      x[j] := x[j] - multiple;
    }
  }

  /** The last loop of modL. */
  method StoreDigits(r: array<u8>, x: array<i64>)
    requires r.Length >= 32 && x.Length == 64 && (r as object) != x
    requires forall k :: 0 <= k <= 32 ==> -0x2000 <= x[k] <= 0x2000
    modifies r, x
    ensures LittleEndian(r[..32]) == old(LittleEndian(x[..32])) % (0x10 * TWO_252)
    ensures forall k :: 32 <= k < r.Length ==> r[k] == old(r[k])
  {
    hide Eval, Pow, Storing;
    ghost var w := x[..];
    StoreStart(w, r[..]);
    for i := 0 to 32
      invariant Storing(w, x[..], r[..], i)
      invariant -0x4000 <= x[i] <= 0x4000
      invariant forall k :: i < k < 64 ==> x[k] == w[k]
      invariant forall k :: 32 <= k < r.Length ==> r[k] == old(r[k])
    {
      StoreStep(w, x[..], r[..], i);
      ghost var t, b := x[..], r[..];
      x[i + 1] := x[i + 1] + x[i] / 0x100;
      r[i] := x[i] % 0x100;
      assert x[..] == t[i + 1 := t[i + 1] + t[i] / 0x100] && r[..] == b[i := t[i] % 0x100];
    }
    StoreEnd(w, x[..], r[..]);
  }

  /** The residue modulo the order of a 64-byte number, in the first 32 bytes of the same array. */
  method Reduce(r: array<u8>)
    requires r.Length == 64
    modifies r
    ensures LittleEndian(r[..32]) == old(LittleEndian(r[..])) % ORDER
    ensures forall k :: 32 <= k < 64 ==> r[k] == 0
  {
    hide Eval;
    ghost var s := r[..];
    var x := new i64[64](i requires 0 <= i < 64 reads r => r[i]);
    assert x[..] == s;
    for i := 0 to 64
      invariant x[..] == s
      invariant forall k :: 0 <= k < i ==> r[k] == 0
    {
      r[i] := 0;
    }
    ModL(r, x);
  }

  lemma ByteProduct(x: int, y: int)
    requires 0 <= x < 0x100 && 0 <= y < 0x100
    ensures 0 <= x * y <= 0xfe01
  {
    MulMonotone(x, y, 0xff);
    MulMonotone(x, 0, y);
  }

  /** The second half of a signature: (r + h d) modulo the order, from the product sums of the bytes. */
  method ResponseScalar(out: array<u8>, r: seq<u8>, h: seq<u8>, d: seq<u8>)
    requires out.Length == 32 && |r| == |h| == |d| == 32
    modifies out
    ensures LittleEndian(out[..]) == (LittleEndian(r) + LittleEndian(h) * LittleEndian(d)) % ORDER
  {
    hide Eval, Partial, Pow;
    var x := new i64[64](_ => 0);
    for i := 0 to 32
      invariant forall k :: 0 <= k < i ==> x[k] == r[k]
      invariant forall k :: i <= k < 64 ==> x[k] == 0
    {
      x[i] := r[i];
    }
    ScalarStart(x[..], r, h, d);
    for i := 0 to 32
      invariant LittleEndian(x[..]) == LittleEndian(r) + Partial(0x100, h, d, i, 0)
      invariant forall k :: 0 <= k < 64 ==> 0 <= x[k] <= 0xff + i * 0xfe01
    {
      for j := 0 to 32
        invariant LittleEndian(x[..]) == LittleEndian(r) + Partial(0x100, h, d, i, j)
        invariant forall k :: 0 <= k < i + j ==> 0 <= x[k] <= 0xff + (i + 1) * 0xfe01
        invariant forall k :: i + j <= k < 64 ==> 0 <= x[k] <= 0xff + i * 0xfe01
      {
        ByteProduct(h[i], d[j]);
        ProductStep(0x100, x[..], h, d, i, j);
        var hd: i64 := (h[i] as int) * d[j];
        x[i + j] := x[i + j] + hd;
      }
      PartialRow(0x100, h, d, i);
    }
    assert h[..32] == h;
    PartialAtRow(0x100, h, d, 32);
    ModL(out, x);
    assert out[..32] == out[..];
  }

  lemma ScalarStart(x: seq<int>, r: seq<u8>, h: seq<u8>, d: seq<u8>)
    requires |x| == 64 && |r| == |h| == |d| == 32
    requires (forall k :: 0 <= k < 32 ==> x[k] == r[k]) && forall k :: 32 <= k < 64 ==> x[k] == 0
    ensures LittleEndian(x) == LittleEndian(r) + Partial(0x100, h, d, 0, 0)
  {
    hide Pow;
    EvalSplit(0x100, x, 32);
    EvalZeros(0x100, x[32..]);
    assert x[..32] == r;
    PartialStart(0x100, [], h, d);
  }
}

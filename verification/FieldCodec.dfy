/** Field elements and their 32-byte form: selection, canonical encoding, comparison, decoding. */
module FieldCodec {
  import opened Machine
  import opened Limbs
  import opened Residues
  import opened Field25519

  /** The limbs of p. */
  const PRIME: seq<int> := [0xffed, 0xffff, 0xffff, 0xffff, 0xffff, 0xffff, 0xffff, 0xffff,
                            0xffff, 0xffff, 0xffff, 0xffff, 0xffff, 0xffff, 0xffff, 0x7fff]

  /** The number that bytes represent, least significant first. */
  function LittleEndian(s: seq<int>): int {
    Eval(0x100, s)
  }

  method Sel25519(p: array<i64>, q: array<i64>, b: int)
    requires p.Length == 16 && q.Length == 16 && p != q && 0 <= b <= 1
    modifies p, q
    ensures p[..] == old(if b == 1 then q[..] else p[..])
    ensures q[..] == old(if b == 1 then p[..] else q[..])
  {
    hide Xor, And;
    var c: i64 := -(b - 1) - 1;
    ghost var x, y := p[..], q[..];
    for i := 0 to 16
      invariant forall k :: 0 <= k < i ==> p[k] == (if b == 1 then y[k] else x[k])
      invariant forall k :: 0 <= k < i ==> q[k] == (if b == 1 then x[k] else y[k])
      invariant forall k :: i <= k < 16 ==> p[k] == x[k] && q[k] == y[k]
    {
      ExchangeLimb(p[i], q[i], b);
      var t: i64 := And(c, Xor(p[i], q[i], 63), 63);
      p[i] := Xor(p[i], t, 63);
      q[i] := Xor(q[i], t, 63);
    }
  }

  lemma ExchangeLimb(x: i64, y: i64, b: int)
    requires 0 <= b <= 1
    ensures var t := And(-b, Xor(x, y, 63), 63);
            && -0x8000_0000_0000_0000 <= t < 0x8000_0000_0000_0000
            && (Xor(x, t, 63), Xor(y, t, 63)) == if b == 1 then (y, x) else (x, y)
  {
    hide Xor, And;
    Widths();
    XorFits(x, y, 63);
    AndMask(Xor(x, y, 63), 63);
    MaskedExchange(x, y, b, 63);
  }

  /** Three carry passes turn any limbs below 2^62 into digits. */
  lemma CarriedThrice(s: seq<int>, t: seq<int>, u: seq<int>, w: seq<int>)
    requires Bounded(s, TWO_62)
    requires Carried(Value(s), t) && Carried(Value(t), u) && Carried(Value(u), w)
    ensures Digits(RADIX, w) && Fe(w) == Fe(s) && 0 <= Value(w) < TWO_256
  {
    hide Eval, Mod;
    assert Fe(w) == Fe(s) by {
      CarriedTwice(s, t, u);
      CarriedSameResidue(Value(u), w);
    }
    ValueBelow(s);
    SettledAfterTwo(Value(s), Value(t), Value(u));
    assert Value(u) / TWO_256 == 0;
  }

  lemma ValueBelow(s: seq<int>)
    requires Bounded(s, TWO_62)
    ensures -(0x8000_0000_0000 * TWO_256) <= Value(s) < 0x8000_0000_0000 * TWO_256
  {
    Powers();
    EvalMagnitude(RADIX, s, TWO_62);
  }

  /** Folding the part above 2^256 back twice leaves a number in [0, 2^256). */
  lemma SettledAfterTwo(v: int, v': int, v'': int)
    requires -(0x8000_0000_0000 * TWO_256) <= v < 0x8000_0000_0000 * TWO_256
    requires v' == v % TWO_256 + 38 * (v / TWO_256) && v'' == v' % TWO_256 + 38 * (v' / TWO_256)
    ensures 0 <= v'' < TWO_256
  {
    assert -0x8000_0000_0000 <= v / TWO_256 <= 0x8000_0000_0000;
    assert -1 <= v' / TWO_256 <= 1;
  }

  /** The borrow that limb x of a difference asks of the next limb. */
  function Borrow(x: int): int {
    x / 0x1_0000 % 2
  }

  /** Limbs 0 to i of t - p are in m: those before i are digits, and limb i may still borrow. */
  ghost predicate Subtracting(m: seq<int>, t: seq<int>, i: nat) {
    && i < |m| == |t| == 16
    && (forall k :: 0 <= k < i ==> 0 <= m[k] < RADIX)
    && -RADIX <= m[i] < RADIX
    && Value(m[..i + 1]) == Value(t[..i + 1]) - Value(PRIME[..i + 1])
  }

  lemma SubtractStart(m: seq<int>, t: seq<int>)
    requires |m| == |t| == 16 && Digits(RADIX, t) && m[0] == t[0] - 0xffed
    ensures Subtracting(m, t, 0)
  {
    EvalSnoc(RADIX, m, 0);
    EvalSnoc(RADIX, t, 0);
    EvalSnoc(RADIX, PRIME, 0);
  }

  lemma SubtractStep(m: seq<int>, t: seq<int>, m': seq<int>, i: nat)
    requires 0 < i && Subtracting(m, t, i - 1) && i < 16 && Digits(RADIX, t)
    requires m' == m[i := t[i] - PRIME[i] - Borrow(m[i - 1])][i - 1 := m[i - 1] % RADIX]
    ensures Subtracting(m', t, i)
  {
    hide Eval;
    var d := m[..i + 1][i := t[i] - PRIME[i]];
    var k := -Borrow(m[i - 1]);
    assert d[..i] == m[..i] && m[..i - 1 + 1] == m[..i];
    DifferenceLimb(d, t, i);
    CarryKeepsValue(RADIX, d, i - 1, k);
    BorrowLimb(m[i - 1]);
    assert m'[..i + 1] == d[i := d[i] + k][i - 1 := d[i - 1] - k * RADIX];
  }

  lemma DifferenceLimb(d: seq<int>, t: seq<int>, i: nat)
    requires i < |t| == 16 && |d| == i + 1 && d[i] == t[i] - PRIME[i]
    requires Value(d[..i]) == Value(t[..i]) - Value(PRIME[..i])
    ensures Value(d) == Value(t[..i + 1]) - Value(PRIME[..i + 1])
  {
    hide Eval;
    EvalSnoc(RADIX, d, i);
    EvalSnoc(RADIX, t, i);
    EvalSnoc(RADIX, PRIME, i);
    Distribute(Pow(RADIX, i), t[i], -PRIME[i]);
    assert d[..i + 1] == d;
  }

  lemma BorrowLimb(x: int)
    requires -RADIX <= x < RADIX
    ensures x % RADIX == x + Borrow(x) * RADIX && Borrow(x) == if x < 0 then 1 else 0
  {
  }

  /** The borrow out of the highest limb tells whether t was below p. */
  lemma SubtractEnd(m: seq<int>, t: seq<int>)
    requires Subtracting(m, t, 15) && Digits(RADIX, t)
    ensures Value(m) == Value(t) - P
    ensures Borrow(m[15]) == 0 ==> Digits(RADIX, m) && Value(t) >= P
    ensures Borrow(m[15]) == 1 ==> Value(t) < P
    ensures 0 <= Borrow(m[15]) <= 1
  {
    hide Eval;
    assert m[..15 + 1] == m && t[..15 + 1] == t && PRIME[..15 + 1] == PRIME;
    PrimeValue();
    BorrowLimb(m[15]);
    HighestLimbSign(m);
  }

  /** A number with digits below its highest limb has the sign of that limb. */
  lemma HighestLimbSign(m: seq<int>)
    requires |m| == 16 && Digits(RADIX, m[..15])
    ensures m[15] >= 0 ==> Value(m) >= 0
    ensures m[15] < 0 ==> Value(m) < 0
  {
    hide Eval, Pow;
    assert m[..15 + 1] == m;
    EvalSnoc(RADIX, m, 15);
    EvalDigits(RADIX, m[..15]);
    if m[15] >= 0 {
      MulMonotone(Pow(RADIX, 15), 0, m[15]);
    } else {
      MulMonotone(Pow(RADIX, 15), m[15], -1);
    }
  }

  lemma PrimeValue()
    ensures Value(PRIME) == P
  {
    hide Eval;
    ConstantValue(PRIME);
  }

  /** A constant of sixteen limbs, as one number. */
  lemma ConstantValue(s: seq<int>)
    requires |s| == 16
    ensures Value(s) ==
            (s[0] + RADIX * (s[1] + RADIX * (s[2] + RADIX * (s[3] + RADIX *
             (s[4] + RADIX * (s[5] + RADIX * (s[6] + RADIX * s[7])))))))
            + 0x1_0000_0000_0000_0000_0000_0000_0000_0000 *
            (s[8] + RADIX * (s[9] + RADIX * (s[10] + RADIX * (s[11] + RADIX *
             (s[12] + RADIX * (s[13] + RADIX * (s[14] + RADIX * s[15])))))))
  {
    EvalSplit(RADIX, s, 8);
    Eight(s[..8]);
    Eight(s[8..]);
  }

  /** Eight limbs, written out. */
  lemma Eight(s: seq<int>)
    requires |s| == 8
    ensures Value(s) == s[0] + RADIX * (s[1] + RADIX * (s[2] + RADIX * (s[3] + RADIX * (s[4] +
                        RADIX * (s[5] + RADIX * (s[6] + RADIX * s[7]))))))
    ensures Pow(RADIX, 8) == 0x1_0000_0000_0000_0000_0000_0000_0000_0000
  {
    Four(s);
    Four(s[4..]);
    assert s[4..][4..] == [];
    Powers();
    assert Pow(RADIX, 8) == RADIX * RADIX * RADIX * RADIX * Pow(RADIX, 4);
  }

  lemma Four(s: seq<int>)
    requires |s| >= 4
    ensures Value(s) == s[0] + RADIX * (s[1] + RADIX * (s[2] + RADIX * (s[3] + RADIX * Value(s[4..]))))
  {
    assert s[1..][1..] == s[2..] && s[2..][1..] == s[3..] && s[3..][1..] == s[4..];
    assert Value(s) == s[0] + RADIX * Value(s[1..]);
    assert Value(s[1..]) == s[1] + RADIX * Value(s[2..]);
    assert Value(s[2..]) == s[2] + RADIX * Value(s[3..]);
    assert Value(s[3..]) == s[3] + RADIX * Value(s[4..]);
  }

  /** Subtracts p from t, leaves the difference in m, and exchanges the two unless the difference
      is negative. */
  method SubtractOnce(t: array<i64>, m: array<i64>)
    requires t.Length == 16 && m.Length == 16 && t != m && Digits(RADIX, t[..])
    modifies t, m
    ensures Digits(RADIX, t[..])
    ensures Value(t[..]) == if old(Value(t[..])) >= P then old(Value(t[..])) - P else old(Value(t[..]))
  {
    hide Subtracting, Value;
    ghost var s := t[..];
    m[0] := t[0] - 0xffed;
    SubtractStart(m[..], s);
    for i := 1 to 15
      invariant t[..] == s
      invariant Subtracting(m[..], s, i - 1)
    {
      ghost var d := m[..];
      LimbRange(d, s, i - 1);
      m[i] := t[i] - 0xffff - m[i - 1] / 0x1_0000 % 2;
      m[i - 1] := m[i - 1] % 0x1_0000;
      SubtractStep(d, s, m[..], i);
    }
    ghost var d := m[..];
    LimbRange(d, s, 14);
    m[15] := t[15] - 0x7fff - m[14] / 0x1_0000 % 2;
    var b := m[15] / 0x1_0000 % 2;
    m[14] := m[14] % 0x1_0000;
    SubtractStep(d, s, m[..], 15);
    SubtractEnd(m[..], s);
    Sel25519(t, m, 1 - b);
  }

  lemma LimbRange(m: seq<int>, t: seq<int>, i: nat)
    requires Subtracting(m, t, i)
    ensures i < |m| && -RADIX <= m[i] < RADIX
  {
  }

  method Pack25519(o: array<u8>, n: array<i64>)
    requires o.Length == 32 && Bounded(n[..], TWO_62)
    modifies o
    ensures LittleEndian(o[..]) == Fe(n[..])
  {
    hide Carried, Value, LittleEndian, Mod;
    var t, m := new i64[16](_ => 0), new i64[16](_ => 0);
    for i := 0 to 16
      invariant forall k :: 0 <= k < i ==> t[k] == n[k]
    {
      t[i] := n[i];
    }
    ghost var s := t[..];
    assert s == n[..];
    Car25519(t);
    ghost var s1 := t[..];
    CarriedBounded(s, s1);
    Car25519(t);
    ghost var s2 := t[..];
    CarriedBounded(s1, s2);
    Car25519(t);
    CarriedThrice(s, s1, s2, t[..]);
    ghost var v := Value(t[..]);
    SubtractOnce(t, m);
    SubtractOnce(t, m);
    TwiceSubtracted(v, Value(t[..]));
    StoreLimbs(o, t);
  }

  /** The last loop of packing: every limb becomes two bytes. */
  method StoreLimbs(o: array<u8>, t: array<i64>)
    requires o.Length == 32 && t.Length == 16 && Digits(RADIX, t[..])
    modifies o
    ensures LittleEndian(o[..]) == Value(t[..])
  {
    hide Value, LittleEndian;
    BytesStart(o[..], t[..]);
    for i := 0 to 16
      invariant LittleEndian(o[..2 * i]) == Value(t[..i])
    {
      ghost var before := o[..2 * i];
      o[2 * i] := t[i] % 0x100;
      o[2 * i + 1] := t[i] / 0x100 % 0x100;
      assert o[..2 * i] == before;
      ByteOrder(o[..], t[..], i);
    }
    assert o[..32] == o[..] && t[..16] == t[..];
  }

  lemma ByteOrder(o: seq<int>, w: seq<int>, i: nat)
    requires |o| == 32 && |w| == 16 && i < 16 && LittleEndian(o[..2 * i]) == Value(w[..i])
    requires 0 <= w[i] < RADIX && o[2 * i] == w[i] % 0x100 && o[2 * i + 1] == w[i] / 0x100 % 0x100
    ensures LittleEndian(o[..2 * i + 2]) == Value(w[..i + 1])
  {
    hide LittleEndian, Value;
    BytesStep(o, w, i);
  }

  lemma TwiceSubtracted(v: int, r: int)
    requires 0 <= v < TWO_256
    requires var u := if v >= P then v - P else v; r == if u >= P then u - P else u
    ensures r == Mod(v) && 0 <= r < P
  {
    Powers();
    DivModUnique(v, P, if v >= 2 * P then 2 else if v >= P then 1 else 0, r);
  }

  lemma BytesStart(o: seq<int>, w: seq<int>)
    ensures LittleEndian(o[..0]) == Value(w[..0])
  {
  }

  /** Two bytes make one limb. */
  lemma BytesStep(o: seq<int>, w: seq<int>, i: nat)
    requires |o| == 32 && |w| == 16 && i < 16 && LittleEndian(o[..2 * i]) == Value(w[..i])
    requires o[2 * i] + 0x100 * o[2 * i + 1] == w[i]
    ensures LittleEndian(o[..2 * i + 2]) == Value(w[..i + 1])
  {
    hide Eval;
    EvalSnoc(0x100, o, 2 * i);
    EvalSnoc(0x100, o, 2 * i + 1);
    EvalSnoc(RADIX, w, i);
    SquareBase(i);
    TwoDigits(o[2 * i], o[2 * i + 1], Pow(0x100, 2 * i));
  }

  lemma TwoDigits(x: int, y: int, p: int)
    ensures x * p + y * (0x100 * p) == (x + 0x100 * y) * p
  {
  }

  lemma {:induction false} SquareBase(i: nat)
    ensures Pow(0x100, 2 * i) == Pow(RADIX, i)
    decreases i
  {
    if i > 0 {
      SquareBase(i - 1);
      assert Pow(0x100, 2 * i) == 0x100 * (0x100 * Pow(0x100, 2 * i - 2));
    }
  }

  /** 0 when the bytes agree, -1 when they differ. */
  method Verify32(x: seq<u8>, y: seq<u8>) returns (r: int)
    requires |x| == |y| == 32
    ensures r == if x == y then 0 else -1
  {
    hide Or, Xor;
    var d: u32 := 0;
    for i := 0 to 32
      invariant 0 <= d < 0x100
      invariant d == 0 <==> x[..i] == y[..i]
    {
      CollectDifference(d, x[i], y[i]);
      PrefixesAgree(x, y, i);
      d := Or(d, Xor(x[i], y[i], 8), 8);
    }
    assert x[..32] == x && y[..32] == y;
    r := (d - 1) % TWO_32 / 0x100 % 2 - 1;
  }

  lemma CollectDifference(d: int, a: u8, b: u8)
    requires 0 <= d < 0x100
    ensures var e := Or(d, Xor(a, b, 8), 8); 0 <= e < 0x100 && (e == 0 <==> d == 0 && a == b)
  {
    hide Or, Xor;
    Widths();
    XorFits(a, b, 8);
    XorZero(a, b, 8);
    OrZero(d, Xor(a, b, 8), 8);
  }

  lemma PrefixesAgree(x: seq<u8>, y: seq<u8>, i: nat)
    requires i < |x| && i < |y|
    ensures x[..i + 1] == y[..i + 1] <==> x[..i] == y[..i] && x[i] == y[i]
  {
    assert x[..i + 1] == x[..i] + [x[i]] && y[..i + 1] == y[..i] + [y[i]];
  }

  /** 0 exactly when the two numbers are congruent modulo p. */
  method Neq25519(a: array<i64>, b: array<i64>) returns (r: int)
    requires Bounded(a[..], TWO_62) && Bounded(b[..], TWO_62)
    ensures r == if Fe(a[..]) == Fe(b[..]) then 0 else -1
  {
    var c, d := new u8[32](_ => 0), new u8[32](_ => 0);
    Pack25519(c, a);
    Pack25519(d, b);
    r := Verify32(c[..], d[..]);
    if LittleEndian(c[..]) == LittleEndian(d[..]) {
      DigitsUnique(0x100, c[..], d[..]);
    }
  }

  method Par25519(a: array<i64>) returns (r: int)
    requires Bounded(a[..], TWO_62)
    ensures r == Fe(a[..]) % 2
  {
    hide Value, Eval;
    var d := new u8[32](_ => 0);
    Pack25519(d, a);
    r := d[0] % 2;
    LowestByte(d[..]);
  }

  lemma LowestByte(s: seq<int>)
    requires |s| > 0
    ensures LittleEndian(s) % 2 == s[0] % 2
  {
    assert LittleEndian(s) == s[0] + 0x100 * Eval(0x100, s[1..]);
  }

  method Unpack25519(o: array<i64>, n: seq<u8>)
    requires o.Length == 16 && |n| == 32
    modifies o
    ensures Digits(RADIX, o[..]) && o[15] < 0x8000
    ensures Value(o[..]) == LittleEndian(n) % (P + 19)
  {
    hide Value, LittleEndian;
    BytesStart(n, o[..]);
    for i := 0 to 16
      invariant LittleEndian(n[..2 * i]) == Value(o[..i])
      invariant forall k :: 0 <= k < i ==> 0 <= o[k] < RADIX && o[k] == n[2 * k] + (n[2 * k + 1] as int) * 0x100
    {
      ghost var before := o[..];
      o[i] := n[2 * i] + (n[2 * i + 1] as int) * 0x100;
      assert o[..i] == before[..i];
      BytesStep(n, o[..], i);
    }
    assert n[..32] == n && o[..16] == o[..];
    ghost var s := o[..];
    o[15] := o[15] % 0x8000;
    TopBitCleared(s);
  }

  lemma TopBitCleared(s: seq<int>)
    requires |s| == 16 && Digits(RADIX, s)
    ensures Value(s[15 := s[15] % 0x8000]) == Value(s) % (P + 19)
  {
    hide Eval;
    var t := s[15 := s[15] % 0x8000];
    var q := s[15] / 0x8000;
    Powers();
    EvalUpdate(RADIX, s, 15, s[15] % 0x8000);
    EvalSnoc(RADIX, t, 15);
    EvalDigits(RADIX, t[..15]);
    assert t[..16] == t;
    MulMonotone(Pow(RADIX, 15), t[15], 0x7fff);
    assert Value(s) == q * (P + 19) + Value(t);
    DivModUnique(Value(s), P + 19, q, Value(t));
  }
}

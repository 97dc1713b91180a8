/** The fields of SSH and SFTP messages (section 5 of RFC 4251): the write cursor and the read cursor. */
module Codec {
  import opened Machine

  type bytes = seq<u8>

  const MAX_PACKET := 36000
  const BLOCK := 16
  const OUT_CAP := MAX_PACKET - 5 - BLOCK * 2 - 4

  function Big32(v: u32): (s: bytes)
    ensures |s| == 4
  {
    [v / 0x100_0000, v / 0x1_0000 % 0x100, v / 0x100 % 0x100, v % 0x100]
  }

  function Value32(s: bytes): (v: u32)
    requires |s| == 4
  {
    (s[0] as int) * 0x100_0000 + (s[1] as int) * 0x1_0000 + (s[2] as int) * 0x100 + s[3]
  }

  lemma Value32Inverts(v: u32)
    ensures Value32(Big32(v)) == v
  {
    var q := v / 0x100;
    var r := q / 0x100;
    assert v / 0x1_0000 == r;
    assert v / 0x100_0000 == r / 0x100;
    assert v == 0x100 * q + v % 0x100 && q == 0x100 * r + q % 0x100 && r == 0x100 * (r / 0x100) + r % 0x100;
  }

  /** The most significant byte comes first. */
  lemma BigEndian()
    ensures Big32(0x1234_5678) == [0x12, 0x34, 0x56, 0x78] && Value32([0x12, 0x34, 0x56, 0x78]) == 0x1234_5678
  {
  }

  lemma Big32Inverts(s: bytes)
    requires |s| == 4
    ensures Big32(Value32(s)) == s
  {
    var v := Value32(s);
    assert v / 0x100_0000 == s[0] && v / 0x1_0000 == (s[0] as int) * 0x100 + s[1];
    assert v / 0x100 == (s[0] as int) * 0x1_0000 + (s[1] as int) * 0x100 + s[2];
  }

  function Ascii(s: string): (r: bytes)
    ensures |r| == |s|
  {
    seq<u8>(|s|, k requires 0 <= k < |s| => (s[k] as int) % 0x100)
  }

  function Prefixed(s: bytes): bytes
    requires |s| < TWO_32
  {
    Big32(|s|) + s
  }

  lemma Slices(s: bytes, i: nat, j: nat, k: nat)
    requires i <= j <= k <= |s|
    ensures s[i..k] == s[i..j] + s[j..k]
  {
  }

  // Writing.

  /** A field that does not fit is dropped without a sign. */
  function Append(s: bytes, x: bytes, cap: nat): bytes {
    if |s| + |x| <= cap then s + x else s
  }

  class Writer {
    const p: array<u8>
    const base: nat
    const cap: nat
    var len: nat

    ghost predicate Valid()
      reads this
    {
      base + cap <= p.Length && len <= cap
    }

    ghost function Contents(): (s: bytes)
      reads this, p
      requires Valid()
    {
      p[base..base + len]
    }

    /** Everything in the buffer that this cursor never writes. */
    ghost function Around(): (bytes, bytes)
      reads this, p
      requires Valid()
    {
      (p[..base], p[base + cap..])
    }

    constructor (p: array<u8>, base: nat, cap: nat)
      requires base + cap <= p.Length
      ensures Valid() && Contents() == []
      ensures this.p == p && this.base == base && this.cap == cap
    {
      this.p, this.base, this.cap, this.len := p, base, cap, 0;
    }

    /** memcpy, if there is room. */
    method PutBytes(d: bytes)
      requires Valid()
      modifies this, p
      ensures Valid() && Contents() == Append(old(Contents()), d, cap) && Around() == old(Around())
    {
      if len + |d| <= cap {
        ghost var was := p[..];
        CopyInto(p, base + len, d);
        Stored(p[..], was, base, len, d, cap);
        len := len + |d|;
      }
    }

    method PutU8(v: u32)
      requires Valid()
      modifies this, p
      ensures Valid() && Contents() == Append(old(Contents()), [v % 0x100], cap) && Around() == old(Around())
    {
      PutBytes([v % 0x100]);
    }

    method PutU32(v: u32)
      requires Valid()
      modifies this, p
      ensures Valid() && Contents() == Append(old(Contents()), Big32(v), cap) && Around() == old(Around())
    {
      PutBytes([v / 0x100_0000, v / 0x1_0000 % 0x100, v / 0x100 % 0x100, v % 0x100]);
    }

    method PutU64(v: u64)
      requires Valid()
      modifies this, p
      ensures Valid() && Around() == old(Around())
      ensures Contents() == Append(Append(old(Contents()), Big32(v / TWO_32), cap), Big32(v % TWO_32), cap)
    {
      PutU32(v / TWO_32);
      PutU32(v % TWO_32);
    }

    /** The length and the bytes are two fields: the first can be written and the second dropped. */
    method PutString(d: bytes)
      requires Valid() && |d| < TWO_32
      modifies this, p
      ensures Valid() && Around() == old(Around())
      ensures Contents() == Append(Append(old(Contents()), Big32(|d|), cap), d, cap)
    {
      PutU32(|d|);
      PutBytes(d);
    }
  }

  /** memcpy. */
  method CopyInto(p: array<u8>, o: nat, d: bytes)
    requires o + |d| <= p.Length
    modifies p
    ensures p[..] == old(p[..o]) + d + old(p[o + |d|..])
  {
    for i := 0 to |d|
      invariant forall k :: 0 <= k < p.Length ==> p[k] == if o <= k < o + i then d[k - o] else old(p[k])
    {
      p[o + i] := d[i];
    }
  }

  lemma Stored(now: bytes, was: bytes, base: nat, len: nat, d: bytes, cap: nat)
    requires len + |d| <= cap && base + cap <= |was|
    requires now == was[..base + len] + d + was[base + len + |d|..]
    ensures |now| == |was| && now[base..base + len + |d|] == was[base..base + len] + d
    ensures now[..base] == was[..base] && now[base + cap..] == was[base + cap..]
  {
  }

  /** Writes a field. */
  method Put(w: Writer, f: Field)
    requires w.Valid() && Storable(f)
    modifies w, w.p
    ensures w.Valid() && w.Around() == old(w.Around())
    ensures |old(w.Contents())| + |Encode(f)| <= w.cap ==> w.Contents() == old(w.Contents()) + Encode(f)
  {
    match f
    case U8(b) => w.PutU8(b);
    case U32(v) => w.PutU32(v);
    case U64(v) => w.PutU64(v); Joined(old(w.Contents()), Big32(v / TWO_32), Big32(v % TWO_32));
    case Str(s) => w.PutString(s); Joined(old(w.Contents()), Big32(|s|), s);
  }

  lemma Joined(a: bytes, b: bytes, c: bytes)
    ensures a + b + c == a + (b + c)
  {
  }

  /** Writes fields one after the other; if there is room for all of them, none is dropped. */
  method PutAll(w: Writer, fs: seq<Field>)
    requires w.Valid() && AllStorable(fs) && |w.Contents()| + |EncodeAll(fs)| <= w.cap
    modifies w, w.p
    ensures w.Valid() && w.Around() == old(w.Around())
    ensures w.Contents() == old(w.Contents()) + EncodeAll(fs)
  {
    hide Encode, EncodeAll, Storable;
    EncodeNothing();
    for i := 0 to |fs|
      invariant w.Valid() && w.Around() == old(w.Around())
      invariant w.Contents() == old(w.Contents()) + EncodeAll(fs[..i])
    {
      assert fs[..i + 1] == fs[..i] + [fs[i]] && fs == fs[..i + 1] + fs[i + 1..];
      EncodeSnoc(fs[..i], fs[i]);
      EncodeAppend(fs[..i + 1], fs[i + 1..]);
      Put(w, fs[i]);
    }
    assert fs[..|fs|] == fs;
  }

  lemma EncodeNothing()
    ensures EncodeAll([]) == []
  {
  }

  lemma EncodeSnoc(fs: seq<Field>, f: Field)
    requires AllStorable(fs) && Storable(f)
    ensures AllStorable(fs + [f]) && EncodeAll(fs + [f]) == EncodeAll(fs) + Encode(f)
  {
    hide Encode;
    EncodeAppend(fs, [f]);
    assert [f][1..] == [];
    assert EncodeAll([f]) == Encode(f) + [];
  }

  lemma {:induction false} EncodeAppend(fs: seq<Field>, gs: seq<Field>)
    requires AllStorable(fs) && AllStorable(gs)
    ensures AllStorable(fs + gs) && EncodeAll(fs + gs) == EncodeAll(fs) + EncodeAll(gs)
    decreases |fs|
  {
    hide Encode;
    if fs == [] {
      assert fs + gs == gs;
      EncodeNothing();
    } else {
      EncodeAppend(fs[1..], gs);
      assert (fs + gs)[0] == fs[0] && (fs + gs)[1..] == fs[1..] + gs;
    }
  }

  // Reading.

  /** Where the next field starts, and whether a field was missing. */
  datatype Cursor = Cursor(pos: nat, bad: bool)

  function TakeU8(s: bytes, c: Cursor): (r: (u8, Cursor)) {
    if c.pos + 1 > |s| then (0, c.(bad := true)) else (s[c.pos], c.(pos := c.pos + 1))
  }

  function TakeU32(s: bytes, c: Cursor): (r: (u32, Cursor)) {
    if c.pos + 4 > |s| then (0, c.(bad := true)) else (Value32(s[c.pos..c.pos + 4]), c.(pos := c.pos + 4))
  }

  function TakeU64(s: bytes, c: Cursor): (r: (u64, Cursor)) {
    var (hi, c1) := TakeU32(s, c);
    var (lo, c2) := TakeU32(s, c1);
    ((hi as int) * TWO_32 + lo, c2)
  }

  function TakeString(s: bytes, c: Cursor): (r: (bytes, Cursor)) {
    var (l, c1) := TakeU32(s, c);
    if c1.bad || l > |s| - c1.pos then ([], c1.(bad := true)) else (s[c1.pos..c1.pos + l], c1.(pos := c1.pos + l))
  }

  class Reader {
    const p: bytes
    var pos: nat
    var bad: bool

    ghost function At(): Cursor
      reads this
    {
      Cursor(pos, bad)
    }

    constructor (p: bytes)
      ensures this.p == p && At() == Cursor(0, false)
    {
      this.p, this.pos, this.bad := p, 0, false;
    }

    method GetU8() returns (v: u8)
      modifies this
      ensures (v, At()) == TakeU8(p, old(At()))
    {
      if pos + 1 > |p| {
        bad := true;
        return 0;
      }
      v := p[pos];
      pos := pos + 1;
    }

    method GetU32() returns (v: u32)
      modifies this
      ensures (v, At()) == TakeU32(p, old(At()))
    {
      if pos + 4 > |p| {
        bad := true;
        return 0;
      }
      v := (p[pos] as int) * 0x100_0000 + (p[pos + 1] as int) * 0x1_0000 + (p[pos + 2] as int) * 0x100 + p[pos + 3];
      pos := pos + 4;
    }

    method GetU64() returns (v: u64)
      modifies this
      ensures (v, At()) == TakeU64(p, old(At()))
    {
      var hi := GetU32();
      var lo := GetU32();
      v := (hi as int) * TWO_32 + lo;
    }

    method GetString() returns (s: bytes)
      modifies this
      ensures (s, At()) == TakeString(p, old(At()))
    {
      var l := GetU32();
      if bad || l > |p| - pos {
        bad := true;
        return [];
      }
      s := p[pos..pos + l];
      pos := pos + l;
    }
  }

  // Reading back what was written.

  datatype Field = U8(b: u8) | U32(v: u32) | U64(w: u64) | Str(s: bytes)

  ghost predicate Storable(f: Field) {
    f.Str? ==> |f.s| < TWO_32
  }

  function Encode(f: Field): bytes
    requires Storable(f)
  {
    match f
    case U8(b) => [b]
    case U32(v) => Big32(v)
    case U64(w) => Big32(w / TWO_32) + Big32(w % TWO_32)
    case Str(s) => Big32(|s|) + s
  }

  ghost predicate AllStorable(fs: seq<Field>) {
    forall k :: 0 <= k < |fs| ==> Storable(fs[k])
  }

  function EncodeAll(fs: seq<Field>): bytes
    requires AllStorable(fs)
    decreases |fs|
  {
    if fs == [] then [] else Encode(fs[0]) + EncodeAll(fs[1..])
  }

  /** Reads a field of the kind of f. */
  function Take(f: Field, s: bytes, c: Cursor): (Field, Cursor)
  {
    match f
    case U8(_) => (var (v, d) := TakeU8(s, c); (U8(v), d))
    case U32(_) => (var (v, d) := TakeU32(s, c); (U32(v), d))
    case U64(_) => (var (v, d) := TakeU64(s, c); (U64(v), d))
    case Str(_) => (var (v, d) := TakeString(s, c); (Str(v), d))
  }

  function TakeAll(fs: seq<Field>, s: bytes, c: Cursor): (seq<Field>, Cursor)
    decreases |fs|
  {
    if fs == [] then ([], c)
    else
      var (f, d) := Take(fs[0], s, c);
      var (gs, e) := TakeAll(fs[1..], s, d);
      ([f] + gs, e)
  }

  lemma TakeInverts(f: Field, before: bytes, after: bytes)
    requires Storable(f)
    ensures Take(f, before + Encode(f) + after, Cursor(|before|, false)) == (f, Cursor(|before| + |Encode(f)|, false))
  {
    hide Value32, Big32;
    var s := before + Encode(f) + after;
    var n := |before|;
    match f
    case U8(b) =>
    case U32(v) =>
      assert s[n..n + 4] == Big32(v);
      Value32Inverts(v);
    case U64(w) =>
      assert s[n..n + 4] == Big32(w / TWO_32) && s[n + 4..n + 8] == Big32(w % TWO_32);
      Value32Inverts(w / TWO_32);
      Value32Inverts(w % TWO_32);
    case Str(t) =>
      assert s[n..n + 4] == Big32(|t|) && s[n + 4..n + 4 + |t|] == t;
      Value32Inverts(|t|);
  }

  /** Whatever stands before and after them, the fields written are the fields read. */
  lemma {:induction false} TakeAllInverts(fs: seq<Field>, before: bytes, after: bytes)
    requires AllStorable(fs)
    ensures TakeAll(fs, before + EncodeAll(fs) + after, Cursor(|before|, false))
            == (fs, Cursor(|before| + |EncodeAll(fs)|, false))
    decreases |fs|
  {
    hide Encode, Take;
    var s := before + EncodeAll(fs) + after;
    if fs != [] {
      TakeInverts(fs[0], before, EncodeAll(fs[1..]) + after);
      assert s == before + Encode(fs[0]) + (EncodeAll(fs[1..]) + after);
      TakeAllInverts(fs[1..], before + Encode(fs[0]), after);
      assert s == (before + Encode(fs[0])) + EncodeAll(fs[1..]) + after;
      assert [fs[0]] + fs[1..] == fs;
    }
  }

  /** A field cut short anywhere is noticed, whatever was read before it. */
  lemma TruncationNoticed(f: Field, before: bytes, n: nat)
    requires Storable(f) && n < |Encode(f)|
    ensures Take(f, before + Encode(f)[..n], Cursor(|before|, false)).1.bad
  {
    hide Value32, Big32;
    if f.Str? && n >= 4 {
      assert (before + Encode(f)[..n])[|before|..|before| + 4] == Big32(|f.s|);
      Value32Inverts(|f.s|);
    }
  }

  lemma BadStays(f: Field, s: bytes, c: Cursor)
    requires c.bad
    ensures Take(f, s, c).1.bad
  {
  }

  lemma {:induction false} AllBadStays(fs: seq<Field>, s: bytes, c: Cursor)
    requires c.bad
    ensures TakeAll(fs, s, c).1.bad
    decreases |fs|
  {
    hide Take;
    if fs != [] {
      BadStays(fs[0], s, c);
      AllBadStays(fs[1..], s, Take(fs[0], s, c).1);
    }
  }

  /** So is a list of fields. */
  lemma {:induction false} AllTruncationNoticed(fs: seq<Field>, before: bytes, n: nat)
    requires AllStorable(fs) && n < |EncodeAll(fs)|
    ensures TakeAll(fs, before + EncodeAll(fs)[..n], Cursor(|before|, false)).1.bad
    decreases |fs|
  {
    hide Encode, Take;
    var e, rest := Encode(fs[0]), EncodeAll(fs[1..]);
    var s := before + EncodeAll(fs)[..n];
    if n < |e| {
      assert EncodeAll(fs)[..n] == e[..n];
      TruncationNoticed(fs[0], before, n);
      AllBadStays(fs[1..], s, Take(fs[0], s, Cursor(|before|, false)).1);
    } else {
      var m := n - |e|;
      assert EncodeAll(fs)[..n] == e + rest[..m];
      assert before + (e + rest[..m]) == before + e + rest[..m];
      TakeInverts(fs[0], before, rest[..m]);
      AllTruncationNoticed(fs[1..], before + e, m);
    }
  }

  // Messages, field by field.

  /** Where the k-th field of a list starts. */
  function FieldPlace(fs: seq<Field>, before: bytes, k: nat): nat
    requires AllStorable(fs) && k <= |fs|
  {
    |before| + |EncodeAll(fs[..k])|
  }

  lemma TakeNth(fs: seq<Field>, before: bytes, after: bytes, k: nat)
    requires AllStorable(fs) && k < |fs|
    ensures Take(fs[k], before + EncodeAll(fs) + after, Cursor(FieldPlace(fs, before, k), false))
            == (fs[k], Cursor(FieldPlace(fs, before, k + 1), false))
  {
    hide Encode, EncodeAll, Take, AllStorable;
    var a, f, b := fs[..k], fs[k], fs[k + 1..];
    CutField(fs, k);
    EncodeSnoc(a, f);
    EncodeAppend(a + [f], b);
    var x, y, z := EncodeAll(a), Encode(f), EncodeAll(b);
    assert EncodeAll(fs) == x + y + z;
    FiveParts(before, x, y, z, after);
    TakeInverts(f, before + x, z + after);
    var p, q := FieldPlace(fs, before, k), FieldPlace(fs, before, k + 1);
    assert p == |before + x| && q == |before + x| + |y| by {
      PartLengths(before, x, y);
    }
    assert Take(f, before + x + y + (z + after), Cursor(p, false)) == (f, Cursor(q, false));
  }

  lemma PartLengths(a: bytes, x: bytes, y: bytes)
    ensures |a + x| == |a| + |x| && |x + y| == |x| + |y|
  {
  }

  lemma CutField(fs: seq<Field>, k: nat)
    requires k < |fs|
    ensures fs == fs[..k] + [fs[k]] + fs[k + 1..] && fs[..k + 1] == fs[..k] + [fs[k]]
    ensures AllStorable(fs) ==> AllStorable(fs[..k]) && Storable(fs[k]) && AllStorable(fs[k + 1..])
    ensures AllStorable(fs) ==> AllStorable(fs[..k + 1])
  {
  }

  lemma FiveParts(a: bytes, x: bytes, y: bytes, z: bytes, b: bytes)
    ensures var s := a + (x + y + z) + b;
            s == a + x + (y + z + b) && s == a + x + y + (z + b) && s == a + x + y + z + b
  {
  }

  /** The fields of a list, one after the other. */
  lemma EachField(fs: seq<Field>, before: bytes, after: bytes)
    requires AllStorable(fs)
    ensures forall k :: 0 <= k < |fs| ==>
              Take(fs[k], before + EncodeAll(fs) + after, Cursor(FieldPlace(fs, before, k), false))
              == (fs[k], Cursor(FieldPlace(fs, before, k + 1), false))
    ensures FieldPlace(fs, before, 0) == |before| && FieldPlace(fs, before, |fs|) == |before| + |EncodeAll(fs)|
  {
    hide EncodeAll, Take, FieldPlace;
    forall k | 0 <= k < |fs|
      ensures Take(fs[k], before + EncodeAll(fs) + after, Cursor(FieldPlace(fs, before, k), false))
              == (fs[k], Cursor(FieldPlace(fs, before, k + 1), false))
    {
      TakeNth(fs, before, after, k);
    }
    FieldEnds(fs, before);
  }

  lemma FieldEnds(fs: seq<Field>, before: bytes)
    requires AllStorable(fs)
    ensures FieldPlace(fs, before, 0) == |before| && FieldPlace(fs, before, |fs|) == |before| + |EncodeAll(fs)|
  {
    EncodeNothing();
    assert fs[..0] == [] && fs[..|fs|] == fs;
  }

  lemma TakeStr(t: bytes, before: bytes, after: bytes)
    requires |t| < TWO_32
    ensures var e := Encode(Str(t));
            TakeString(before + e + after, Cursor(|before|, false)) == (t, Cursor(|before| + |e|, false))
  {
    hide TakeString;
    TakeInverts(Str(t), before, after);
  }

  lemma OneField(f: Field, before: bytes, after: bytes)
    requires Storable(f)
    ensures var e := EncodeAll([f]);
            e == Encode(f) && Take(f, before + e + after, Cursor(|before|, false)) == (f, Cursor(|before| + |e|, false))
  {
    hide Encode, Take;
    EncodeNothing();
    EncodeSnoc([], f);
    assert [] + [f] == [f] && [] + Encode(f) == Encode(f);
    TakeInverts(f, before, after);
  }

  /** Where field k of a whole message starts. */
  function FieldAt(fs: seq<Field>, k: nat): Cursor
    requires AllStorable(fs) && k <= |fs|
  {
    Cursor(|EncodeAll(fs[..k])|, false)
  }

  /** A whole message, read field by field. */
  lemma WholeMessage(fs: seq<Field>)
    requires AllStorable(fs)
    ensures forall k :: 0 <= k < |fs| ==> Take(fs[k], EncodeAll(fs), FieldAt(fs, k)) == (fs[k], FieldAt(fs, k + 1))
    ensures FieldAt(fs, 0) == Cursor(0, false) && FieldAt(fs, |fs|) == Cursor(|EncodeAll(fs)|, false)
  {
    hide EncodeAll, Take;
    var s := EncodeAll(fs);
    EachField(fs, [], []);
    assert [] + s + [] == s;
    forall k | 0 <= k < |fs| ensures Take(fs[k], s, FieldAt(fs, k)) == (fs[k], FieldAt(fs, k + 1)) {
      assert FieldPlace(fs, [], k) == FieldAt(fs, k).pos && FieldPlace(fs, [], k + 1) == FieldAt(fs, k + 1).pos;
    }
  }
}

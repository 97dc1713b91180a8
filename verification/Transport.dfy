/**
  The SSH transport (RFC 4253): packets with padding, a sequence number and a MAC for each, one
  keystream for each direction, and the change of keys.  The cipher and the hashes are functions that
  the model is given.
 */
module Transport {
  import opened Machine
  import opened Options
  import opened Codec

  const MAC_LEN := 32

  type digest = s: bytes | |s| == 32 witness seq(32, i => 0)

  /** AES in counter mode as the keystream byte of a key and an initial counter at a position, HMAC-SHA-256 and
      SHA-256. */
  datatype Crypto = Crypto(stream: (bytes, bytes, nat) -> u8, mac: (bytes, bytes) -> digest, hash: bytes -> digest)

  /** What both ends of one direction keep. */
  datatype Half = Half(seqno: u32, encrypted: bool, key: bytes, iv: bytes, pos: nat, macKey: bytes)

  const START := Half(0, false, [], [], 0, [])

  // One packet.

  function XorByte(x: u8, y: u8): u8 {
    Widths();
    XorFits(x, y, 8);
    Xor(x, y, 8)
  }

  /** Encrypts or decrypts, from a position of the keystream. */
  function Crypt(x: Crypto, key: bytes, iv: bytes, pos: nat, s: bytes): (r: bytes)
    ensures |r| == |s|
  {
    seq<u8>(|s|, i requires 0 <= i < |s| => XorByte(s[i], x.stream(key, iv, pos + i)))
  }

  function Padding(n: nat): nat {
    var pad := BLOCK - (5 + n) % BLOCK;
    if pad < 4 then pad + BLOCK else pad
  }

  function Total(n: nat): nat {
    5 + n + Padding(n)
  }

  /** The packet in the clear. */
  function Frame(payload: bytes, pad: bytes): (f: bytes)
    requires |payload| + |pad| < TWO_32 - 5 && |pad| < 0x100
    ensures |f| == 5 + |payload| + |pad|
  {
    Big32(1 + |payload| + |pad|) + [|pad|] + payload + pad
  }

  /** A packet says how long it is, not counting the length word, and how much of it is padding at its end (section 6 of
      RFC 4253). */
  lemma FrameLayout(payload: bytes, pad: bytes)
    requires |payload| + |pad| < TWO_32 - 5 && |pad| < 0x100
    ensures var f := Frame(payload, pad);
            && Value32(f[..4]) == |f| - 4 && f[4] == |pad| && f[5..5 + |payload|] == payload && f[|f| - |pad|..] == pad
  {
    hide Big32, Value32;
    var f := Frame(payload, pad);
    Value32Inverts(1 + |payload| + |pad|);
    assert f[..4] == Big32(1 + |payload| + |pad|);
  }

  /** The packet on the wire. */
  function Seal(x: Crypto, h: Half, frame: bytes): bytes {
    if h.encrypted then Crypt(x, h.key, h.iv, h.pos, frame) + x.mac(h.macKey, Big32(h.seqno) + frame) else frame
  }

  /** A direction after a packet of n bytes, not counting the MAC. */
  function After(h: Half, n: nat): Half {
    h.(seqno := (h.seqno + 1) % TWO_32, pos := if h.encrypted then h.pos + n else h.pos)
  }

  datatype Opening = Opened(payload: bytes, pad: bytes, half: Half, rest: bytes) | Refused

  function BlockOf(encrypted: bool): (b: nat)
    ensures b == 8 || b == 16
  {
    if encrypted then BLOCK else 8
  }

  predicate Aligned(n: nat, encrypted: bool) {
    if encrypted then n % 16 == 0 else n % 8 == 0
  }

  /** The program's test of the length word; the sum is of 32 bits. */
  predicate LengthAccepted(plen: u32, encrypted: bool) {
    plen >= 5 && (plen + 4) % TWO_32 <= MAX_PACKET && Aligned((plen + 4) % TWO_32, encrypted)
  }

  /** How many bytes the program reads after the first block: a signed number of 32 bits. */
  function Rest(plen: u32, encrypted: bool): int {
    Signed(plen) + 4 - BlockOf(encrypted)
  }

  /** The length of a packet that is accepted, as it was read: reading a negative number of bytes reads nothing. */
  function Extent(plen: u32, encrypted: bool): (n: nat)
    ensures LengthAccepted(plen, encrypted) ==> BlockOf(encrypted) <= n <= MAX_PACKET
  {
    BlockOf(encrypted) + if Rest(plen, encrypted) < 0 then 0 else Rest(plen, encrypted)
  }

  function FirstBlock(x: Crypto, h: Half, s: bytes): (r: bytes)
    requires |s| >= BlockOf(h.encrypted)
    ensures |r| == BlockOf(h.encrypted)
  {
    var t := s[..BlockOf(h.encrypted)];
    if h.encrypted then Crypt(x, h.key, h.iv, h.pos, t) else t
  }

  /** A length word with which the program would decrypt a negative number of bytes; the model goes no further. */
  predicate Undefined(plen: u32, encrypted: bool) {
    encrypted && Rest(plen, encrypted) < 0
  }

  /** What the receiver makes of its input.  A packet is refused when its length word is not accepted, when the
      input ends too soon, when the MAC differs or when no payload is left. */
  function Open(x: Crypto, h: Half, s: bytes): Opening {
    if |s| < BlockOf(h.encrypted) then Refused else
    var first := FirstBlock(x, h, s);
    var plen := Value32(first[..4]);
    if !LengthAccepted(plen, h.encrypted) || Undefined(plen, h.encrypted) then Refused else
    var n := Extent(plen, h.encrypted);
    match Body(x, h, s, first, n)
    case None => Refused
    case Some(body) => Unpad(body.0, Signed(plen) - 1 - body.0[4], After(h, n), body.1)
  }

  /** The whole packet in the clear, and the input after it. */
  function Body(x: Crypto, h: Half, s: bytes, first: bytes, n: nat): (r: Option<(bytes, bytes)>)
    requires |first| <= |s| && |first| <= n && n >= 8
    ensures r.Some? ==> |r.value.0| == n
  {
    if h.encrypted then
      if |s| < n + MAC_LEN then None else
      var frame := first + Crypt(x, h.key, h.iv, h.pos + |first|, s[|first|..n]);
      if s[n..n + MAC_LEN] != x.mac(h.macKey, Big32(h.seqno) + frame) then None
      else Some((frame, s[n + MAC_LEN..]))
    else if |s| < n then None
    else Some((s[..n], s[n..]))
  }

  function Unpad(frame: bytes, len: int, h: Half, rest: bytes): Opening
    requires len < 1 || 5 + len <= |frame|
  {
    if len < 1 then Refused else Opened(frame[5..5 + len], frame[5 + len..], h, rest)
  }

  lemma BodyShortens(x: Crypto, h: Half, s: bytes, first: bytes, n: nat)
    requires |first| <= |s| && |first| <= n && n >= 8
    ensures var body := Body(x, h, s, first, n); body.Some? ==> |body.value.1| < |s|
  {
    hide Crypt;
  }

  /** Of the accepted words, all but one say how much there is to read. */
  lemma RestIsSane(plen: u32, encrypted: bool)
    requires LengthAccepted(plen, encrypted)
    ensures 0 <= Rest(plen, encrypted) <= MAX_PACKET - BlockOf(encrypted) <==> plen != TWO_32 - 4
    ensures plen != TWO_32 - 4 ==> Extent(plen, encrypted) == plen + 4 == BlockOf(encrypted) + Rest(plen, encrypted)
    ensures plen == TWO_32 - 4 ==> Rest(plen, encrypted) == -(BlockOf(encrypted) as int)
  {
  }

  /** In the clear, a packet that starts with the one other word is read no further and refused. */
  lemma NegativeRestIsRefused(x: Crypto, h: Half, s: bytes)
    requires !h.encrypted && |s| >= 8 && Value32(s[..4]) == TWO_32 - 4
    ensures LengthAccepted(Value32(s[..4]), false) && Body(x, h, s, s[..8], 8) == Some((s[..8], s[8..]))
    ensures Open(x, h, s) == Refused
  {
    assert s[..8][..4] == s[..4];
  }

  /** The length test is as strict as it looks, except for one length word, whose sum with four is zero. */
  lemma AcceptedLengths(plen: u32, encrypted: bool)
    ensures LengthAccepted(plen, encrypted)
            <==> (5 <= plen <= MAX_PACKET - 4 && Aligned(plen + 4, encrypted)) || plen == TWO_32 - 4
  {
  }

  lemma PaddingFits(n: nat)
    ensures 4 <= Padding(n) < 20 && Total(n) % BLOCK == 0 && Total(n) % 8 == 0
  {
    var r, q := (5 + n) % 16, (5 + n) / 16;
    assert Padding(n) == if r > 12 then 32 - r else 16 - r;
    assert Total(n) == 16 * (q + if r > 12 then 2 else 1);
    MultipleOfBlocks(q + if r > 12 then 2 else 1);
  }

  lemma MultipleOfBlocks(k: int)
    ensures 16 * k % 16 == 0 && 16 * k % 8 == 0
  {
    assert 16 * k == 8 * (2 * k);
  }

  lemma XorTwice(x: u8, y: u8)
    ensures XorByte(XorByte(x, y), y) == x
  {
    Widths();
    XorCancels(x, y, 8);
  }

  lemma CryptInverts(x: Crypto, key: bytes, iv: bytes, pos: nat, s: bytes)
    ensures Crypt(x, key, iv, pos, Crypt(x, key, iv, pos, s)) == s
  {
    hide XorByte;
    forall i | 0 <= i < |s| ensures Crypt(x, key, iv, pos, Crypt(x, key, iv, pos, s))[i] == s[i] {
      XorTwice(s[i], x.stream(key, iv, pos + i));
    }
  }

  /** What is added to byte i is the byte of the keystream at its place. */
  lemma KeystreamIsAdded(x: Crypto, key: bytes, iv: bytes, pos: nat, s: bytes, i: nat)
    requires i < |s|
    ensures XorByte(Crypt(x, key, iv, pos, s)[i], s[i]) == x.stream(key, iv, pos + i)
  {
    hide XorByte;
    XorBack(s[i], x.stream(key, iv, pos + i));
  }

  lemma XorBack(a: u8, b: u8)
    ensures XorByte(XorByte(a, b), a) == b
  {
    hide Xor, Pow2;
    Widths();
    XorSelfInverse(a, b, 8);
    XorCommutes(Xor(a, b, 8), a, 8);
  }

  /** The keystream does not notice in how many calls it is used up. */
  lemma CryptSplits(x: Crypto, key: bytes, iv: bytes, pos: nat, s: bytes, k: nat)
    requires k <= |s|
    ensures Crypt(x, key, iv, pos, s) == Crypt(x, key, iv, pos, s[..k]) + Crypt(x, key, iv, pos + k, s[k..])
  {
    hide XorByte;
    forall i | 0 <= i < |s|
      ensures Crypt(x, key, iv, pos, s)[i] == (Crypt(x, key, iv, pos, s[..k]) + Crypt(x, key, iv, pos + k, s[k..]))[i]
    {
      if i >= k {
        assert s[k..][i - k] == s[i];
      }
    }
  }

  lemma UnpadFrame(payload: bytes, pad: bytes, h: Half, rest: bytes)
    requires 1 <= |payload| <= MAX_PACKET && |pad| < 0x100
    ensures Unpad(Frame(payload, pad), |payload|, h, rest) == Opened(payload, pad, h, rest)
    ensures Frame(payload, pad)[4] == |pad|
  {
    var frame := Frame(payload, pad);
    assert frame[4] == |pad| && frame[5..5 + |payload|] == payload && frame[5 + |payload|..] == pad;
  }

  lemma FirstBlockInverts(x: Crypto, h: Half, frame: bytes, rest: bytes)
    requires |frame| >= BlockOf(h.encrypted)
    ensures |Seal(x, h, frame)| >= |frame|
    ensures FirstBlock(x, h, Seal(x, h, frame) + rest) == frame[..BlockOf(h.encrypted)]
  {
    hide Crypt;
    var blk := BlockOf(h.encrypted);
    var s := Seal(x, h, frame) + rest;
    if h.encrypted {
      CryptSplits(x, h.key, h.iv, h.pos, frame, blk);
      CryptInverts(x, h.key, h.iv, h.pos, frame[..blk]);
      assert s[..blk] == Crypt(x, h.key, h.iv, h.pos, frame[..blk]);
    } else {
      assert s[..blk] == frame[..blk];
    }
  }

  lemma BodyInverts(x: Crypto, h: Half, frame: bytes, rest: bytes)
    requires BlockOf(h.encrypted) <= |frame| && |frame| >= 9
    ensures |Seal(x, h, frame)| >= |frame|
    ensures Body(x, h, Seal(x, h, frame) + rest, frame[..BlockOf(h.encrypted)], |frame|) == Some((frame, rest))
  {
    hide Crypt;
    var n, blk := |frame|, BlockOf(h.encrypted);
    var s := Seal(x, h, frame) + rest;
    if h.encrypted {
      CryptSplits(x, h.key, h.iv, h.pos, frame, blk);
      CryptInverts(x, h.key, h.iv, h.pos + blk, frame[blk..]);
      assert s[blk..n] == Crypt(x, h.key, h.iv, h.pos + blk, frame[blk..]);
      assert frame[..blk] + frame[blk..] == frame;
      assert s[n..n + MAC_LEN] == x.mac(h.macKey, Big32(h.seqno) + frame) && s[n + MAC_LEN..] == rest;
    } else {
      assert s[..n] == frame && s[n..] == rest;
    }
  }

  /** A payload and a padding that a packet can carry. */
  predicate Sendable(payload: bytes, pad: bytes, encrypted: bool) {
    var n := 5 + |payload| + |pad|;
    1 <= |payload| && |pad| < 0x100 && 9 <= n <= MAX_PACKET && Aligned(n, encrypted)
  }

  lemma SealedOpens(x: Crypto, h: Half, payload: bytes, pad: bytes, rest: bytes)
    requires Sendable(payload, pad, h.encrypted)
    ensures var frame := Frame(payload, pad);
            Open(x, h, Seal(x, h, frame) + rest) == Opened(payload, pad, After(h, |frame|), rest)
  {
    hide Unpad, Value32, Seal, Body, FirstBlock;
    var frame := Frame(payload, pad);
    var n := |frame|;
    FirstBlockInverts(x, h, frame, rest);
    BodyInverts(x, h, frame, rest);
    UnpadFrame(payload, pad, After(h, n), rest);
    Value32Inverts(1 + |payload| + |pad|);
    assert frame[..BlockOf(h.encrypted)][..4] == Big32(1 + |payload| + |pad|);
  }

  /** The receiver in the same state as the sender gets the payload, and stays in the same state. */
  lemma OpenInverts(x: Crypto, h: Half, payload: bytes, pad: bytes, rest: bytes)
    requires 1 <= |payload| && |pad| == Padding(|payload|) && Total(|payload|) <= MAX_PACKET
    ensures |pad| < 0x100
    ensures Open(x, h, Seal(x, h, Frame(payload, pad)) + rest)
            == Opened(payload, pad, After(h, Total(|payload|)), rest)
  {
    hide Padding, Open, Seal;
    PaddingFits(|payload|);
    SealedOpens(x, h, payload, pad, rest);
  }

  /** The whole packet that a receiver has read is what was sealed. */
  lemma BodyWasSealed(x: Crypto, h: Half, s: bytes, n: nat)
    requires |s| >= BlockOf(h.encrypted) && BlockOf(h.encrypted) <= n
    ensures var body := Body(x, h, s, FirstBlock(x, h, s), n);
            body.Some? ==> s == Seal(x, h, body.value.0) + body.value.1
                           && body.value.0[..BlockOf(h.encrypted)] == FirstBlock(x, h, s)
  {
    hide Crypt;
    var blk := BlockOf(h.encrypted);
    var body := Body(x, h, s, FirstBlock(x, h, s), n);
    if h.encrypted && body.Some? {
      var frame := body.value.0;
      CryptInverts(x, h.key, h.iv, h.pos, s[..blk]);
      CryptInverts(x, h.key, h.iv, h.pos + blk, s[blk..n]);
      CryptSplits(x, h.key, h.iv, h.pos, frame, blk);
      assert s[..blk] + s[blk..n] == s[..n];
      assert s == s[..n] + s[n..n + MAC_LEN] + s[n + MAC_LEN..];
    }
  }

  lemma FrameOf(frame: bytes, len: nat)
    requires 9 <= |frame| <= MAX_PACKET && 1 <= len && 5 + len <= |frame|
    requires Value32(frame[..4]) == |frame| - 4 && frame[4] as int == |frame| - 5 - len
    ensures frame == Frame(frame[5..5 + len], frame[5 + len..])
  {
    hide Value32, Big32;
    Big32Inverts(frame[..4]);
    assert frame == frame[..4] + [frame[4]] + frame[5..5 + len] + frame[5 + len..];
  }

  /** A receiver takes exactly what a sender in the same state has sealed: its sequence number, its place in the
      keystream and every byte are covered. */
  lemma OpensExactly(x: Crypto, h: Half, s: bytes, payload: bytes, pad: bytes, rest: bytes)
    ensures (exists t :: Open(x, h, s) == Opened(payload, pad, t, rest))
            <==> Sendable(payload, pad, h.encrypted) && s == Seal(x, h, Frame(payload, pad)) + rest
  {
    hide Open, Seal, Frame, Aligned;
    if Sendable(payload, pad, h.encrypted) && s == Seal(x, h, Frame(payload, pad)) + rest {
      SealedOpens(x, h, payload, pad, rest);
    }
    if t :| Open(x, h, s) == Opened(payload, pad, t, rest) {
      OpenedWasSealed(x, h, s);
    }
  }

  lemma OpenedWasSealed(x: Crypto, h: Half, s: bytes)
    ensures var o := Open(x, h, s);
            o.Opened? ==>
              && Sendable(o.payload, o.pad, h.encrypted) && s == Seal(x, h, Frame(o.payload, o.pad)) + o.rest
              && o.half == After(h, 5 + |o.payload| + |o.pad|)
  {
    hide Seal, Frame, Body, FirstBlock, Value32;
    var o := Open(x, h, s);
    if o.Opened? {
      var first := FirstBlock(x, h, s);
      var plen := Value32(first[..4]);
      RestIsSane(plen, h.encrypted);
      var n := Extent(plen, h.encrypted);
      BodyWasSealed(x, h, s, n);
      var frame := Body(x, h, s, first, n).value.0;
      assert first[..4] == frame[..4];
      FrameOf(frame, |o.payload|);
    }
  }

  /** A packet is not taken in the place of another one, unless the MAC is the same for two different messages. */
  lemma OutOfPlaceIsRefused(x: Crypto, h: Half, payload: bytes, pad: bytes, rest: bytes, n: u32)
    requires h.encrypted && Sendable(payload, pad, true) && n != h.seqno
    ensures var frame := Frame(payload, pad);
            && Big32(n) + frame != Big32(h.seqno) + frame
            && (Open(x, h.(seqno := n), Seal(x, h, frame) + rest).Opened?
                ==> x.mac(h.macKey, Big32(n) + frame) == x.mac(h.macKey, Big32(h.seqno) + frame))
  {
    hide Unpad, Value32, Big32, Crypt;
    var frame := Frame(payload, pad);
    var s := Seal(x, h, frame) + rest;
    Value32Inverts(n);
    Value32Inverts(h.seqno);
    assert (Big32(n) + frame)[..4] == Big32(n) && (Big32(h.seqno) + frame)[..4] == Big32(h.seqno);
    FirstBlockInverts(x, h, frame, rest);
    Value32Inverts(1 + |payload| + |pad|);
    assert frame[..16][..4] == Big32(1 + |payload| + |pad|);
    SameFrame(x, h, frame, rest, n);
  }

  lemma SameFrame(x: Crypto, h: Half, frame: bytes, rest: bytes, n: u32)
    requires h.encrypted && |frame| >= 16
    ensures var g := h.(seqno := n);
            && |Seal(x, h, frame) + rest| >= 16
            && FirstBlock(x, g, Seal(x, h, frame) + rest) == frame[..16]
            && (Body(x, g, Seal(x, h, frame) + rest, frame[..16], |frame|).Some?
                ==> x.mac(h.macKey, Big32(n) + frame) == x.mac(h.macKey, Big32(h.seqno) + frame))
  {
    hide Crypt, Big32;
    var s := Seal(x, h, frame) + rest;
    FirstBlockInverts(x, h, frame, rest);
    CryptSplits(x, h.key, h.iv, h.pos, frame, 16);
    CryptInverts(x, h.key, h.iv, h.pos + 16, frame[16..]);
    assert s[16..|frame|] == Crypt(x, h.key, h.iv, h.pos + 16, frame[16..]);
    assert frame[..16] + frame[16..] == frame;
    assert s[|frame|..|frame| + MAC_LEN] == x.mac(h.macKey, Big32(h.seqno) + frame);
  }

  // Whole runs of one direction.

  /** What a key exchange leaves: the shared secret, the exchange hash, and the hash of the first exchange. */
  datatype Keys = Keys(secret: bytes, exchange: digest, session: digest)

  datatype Item = Packet(payload: bytes, pad: bytes) | Switch(keys: Keys)

  datatype Direction = FromClient | ToClient

  ghost predicate Proper(i: Item) {
    match i
    case Packet(payload, pad) => 1 <= |payload| && |pad| == Padding(|payload|) && Total(|payload|) <= MAX_PACKET
    case Switch(k) => |k.secret| < TWO_32
  }

  ghost predicate AllProper(items: seq<Item>) {
    forall k :: 0 <= k < |items| ==> Proper(items[k])
  }

  /** Section 7.2 of RFC 4253. */
  function Derive(x: Crypto, k: Keys, letter: u8): digest
    requires |k.secret| < TWO_32
  {
    x.hash(Big32(|k.secret|) + k.secret + k.exchange + [letter] + k.session)
  }

  /** New keys: a new keystream from its start; the sequence number goes on. */
  function Rekey(x: Crypto, d: Direction, h: Half, k: Keys): Half
    requires |k.secret| < TWO_32
  {
    if d == FromClient then Half(h.seqno, true, Derive(x, k, 67)[..16], Derive(x, k, 65)[..16], 0, Derive(x, k, 69))
    else Half(h.seqno, true, Derive(x, k, 68)[..16], Derive(x, k, 66)[..16], 0, Derive(x, k, 70))
  }

  ghost function Next(x: Crypto, d: Direction, h: Half, i: Item): Half
    requires Proper(i)
  {
    match i
    case Packet(payload, pad) => After(h, Total(|payload|))
    case Switch(k) => Rekey(x, d, h, k)
  }

  ghost function Final(x: Crypto, d: Direction, items: seq<Item>): Half
    requires AllProper(items)
    decreases |items|
  {
    if items == [] then START else Next(x, d, Final(x, d, items[..|items| - 1]), items[|items| - 1])
  }

  ghost function Bytes(x: Crypto, h: Half, i: Item): bytes
    requires Proper(i)
  {
    PaddingFits(if i.Packet? then |i.payload| else 0);
    match i
    case Packet(payload, pad) => Seal(x, h, Frame(payload, pad))
    case Switch(k) => []
  }

  /** Everything sent in one direction. */
  ghost function Wire(x: Crypto, d: Direction, items: seq<Item>): bytes
    requires AllProper(items)
    decreases |items|
  {
    if items == [] then []
    else
      var init, last := items[..|items| - 1], items[|items| - 1];
      Wire(x, d, init) + Bytes(x, Final(x, d, init), last)
  }

  /** Where the receiver changes its keys, and with what. */
  ghost function Plan(items: seq<Item>): (p: seq<Option<Keys>>)
    ensures |p| == |items|
  {
    seq(|items|, i requires 0 <= i < |items| => if items[i].Switch? then Some(items[i].keys) else None)
  }

  datatype Reading = Reading(items: seq<Item>, half: Half, rest: bytes) | Broken

  ghost function ReadNext(x: Crypto, d: Direction, r: Reading, p: Option<Keys>): Reading
    requires p.Some? ==> |p.value.secret| < TWO_32
  {
    match r
    case Broken => Broken
    case Reading(items, h, s) =>
      match p
      case Some(k) => Reading(items + [Switch(k)], Rekey(x, d, h, k), s)
      case None =>
        match Open(x, h, s)
        case Refused => Broken
        case Opened(payload, pad, h', rest) => Reading(items + [Packet(payload, pad)], h', rest)
  }

  ghost predicate UsablePlan(plan: seq<Option<Keys>>) {
    forall k :: 0 <= k < |plan| && plan[k].Some? ==> |plan[k].value.secret| < TWO_32
  }

  /** The receiver over the whole input. */
  ghost function Read(x: Crypto, d: Direction, s: bytes, plan: seq<Option<Keys>>): Reading
    requires UsablePlan(plan)
    decreases |plan|
  {
    if plan == [] then Reading([], START, s)
    else ReadNext(x, d, Read(x, d, s, plan[..|plan| - 1]), plan[|plan| - 1])
  }

  lemma WireSnoc(x: Crypto, d: Direction, items: seq<Item>, i: Item)
    requires AllProper(items) && Proper(i)
    ensures AllProper(items + [i])
    ensures Wire(x, d, items + [i]) == Wire(x, d, items) + Bytes(x, Final(x, d, items), i)
    ensures Final(x, d, items + [i]) == Next(x, d, Final(x, d, items), i)
  {
    hide Bytes, Next, Proper;
    assert (items + [i])[..|items|] == items;
  }

  lemma ReadSnoc(x: Crypto, d: Direction, s: bytes, items: seq<Item>, i: Item)
    requires UsablePlan(Plan(items)) && (i.Switch? ==> |i.keys.secret| < TWO_32)
    ensures UsablePlan(Plan(items + [i]))
    ensures Read(x, d, s, Plan(items + [i]))
            == ReadNext(x, d, Read(x, d, s, Plan(items)), if i.Switch? then Some(i.keys) else None)
  {
    hide ReadNext;
    assert Plan(items + [i])[..|items|] == Plan(items);
  }

  /** Whatever was sent in one direction, through any changes of keys, is what the receiver gets, and both ends
      agree on sequence number, keys and keystream position. */
  lemma {:induction false} ReadsBack(x: Crypto, d: Direction, items: seq<Item>, rest: bytes)
    requires AllProper(items)
    ensures UsablePlan(Plan(items))
    ensures Read(x, d, Wire(x, d, items) + rest, Plan(items)) == Reading(items, Final(x, d, items), rest)
    decreases |items|
  {
    hide Wire, Read, Final, Bytes, Plan, Open, Rekey, After, Total, Proper;
    if items == [] {
      ReadsNothing(x, d, rest);
    } else {
      var init, last := items[..|items| - 1], items[|items| - 1];
      var more := Bytes(x, Final(x, d, init), last) + rest;
      WireSnoc(x, d, init, last);
      ReadsBack(x, d, init, more);
      Joined(Wire(x, d, init), Bytes(x, Final(x, d, init), last), rest);
      ReadsOne(x, d, Wire(x, d, init) + more, init, Final(x, d, init), last, rest);
      assert items == init + [last];
    }
  }

  lemma ReadsNothing(x: Crypto, d: Direction, rest: bytes)
    ensures UsablePlan(Plan([])) && Read(x, d, Wire(x, d, []) + rest, Plan([])) == Reading([], Final(x, d, []), rest)
  {
    assert [] + rest == rest;
  }

  lemma ReadsOne(x: Crypto, d: Direction, s: bytes, items: seq<Item>, h: Half, i: Item, rest: bytes)
    requires Proper(i) && UsablePlan(Plan(items))
    requires Read(x, d, s, Plan(items)) == Reading(items, h, Bytes(x, h, i) + rest)
    ensures UsablePlan(Plan(items + [i]))
    ensures Read(x, d, s, Plan(items + [i])) == Reading(items + [i], Next(x, d, h, i), rest)
  {
    hide Read, Bytes, Plan, Open, Rekey, After, Total, Padding;
    ReadSnoc(x, d, s, items, i);
    if i.Packet? {
      OpenItem(x, h, i, rest);
    } else {
      SwitchIsSilent(x, h, i, rest);
    }
  }

  lemma SwitchIsSilent(x: Crypto, h: Half, i: Item, rest: bytes)
    requires Proper(i) && i.Switch?
    ensures Bytes(x, h, i) + rest == rest
  {
  }

  lemma OpenItem(x: Crypto, h: Half, i: Item, rest: bytes)
    requires Proper(i) && i.Packet?
    ensures Open(x, h, Bytes(x, h, i) + rest) == Opened(i.payload, i.pad, After(h, Total(|i.payload|)), rest)
  {
    hide Open, Seal, After;
    PaddingFits(|i.payload|);
    OpenInverts(x, h, i.payload, i.pad, rest);
  }

  function Packets(items: seq<Item>): nat
    decreases |items|
  {
    if items == [] then 0 else Packets(items[..|items| - 1]) + if items[|items| - 1].Packet? then 1 else 0
  }

  /** The sequence number counts the packets since the connection began, whatever keys they had. */
  lemma {:induction false} SequenceNumber(x: Crypto, d: Direction, items: seq<Item>)
    requires AllProper(items)
    ensures Final(x, d, items).seqno == Packets(items) % TWO_32
    ensures Final(x, d, items).pos % BLOCK == 0
    decreases |items|
  {
    if items != [] {
      var init, last := items[..|items| - 1], items[|items| - 1];
      SequenceNumber(x, d, init);
      CountsOne(x, d, Final(x, d, init), last, Packets(init));
    }
  }

  /** No part of a keystream is used for two packets: between changes of keys, a later packet starts behind all that an
      earlier one used. */
  lemma {:induction false} KeystreamOnce(x: Crypto, d: Direction, items: seq<Item>, i: nat, j: nat)
    requires AllProper(items) && i < j <= |items| && forall k :: i <= k < j ==> items[k].Packet?
    requires Final(x, d, items[..i]).encrypted
    ensures var (a, b) := (Final(x, d, items[..i]), Final(x, d, items[..j]));
            b.encrypted && (b.key, b.iv) == (a.key, a.iv) && b.pos >= a.pos + Total(|items[i].payload|)
    decreases j
  {
    hide Final, Padding;
    var h := Final(x, d, items[..j - 1]);
    assert items[..j] == items[..j - 1] + [items[j - 1]];
    assert Proper(items[j - 1]);
    WireSnoc(x, d, items[..j - 1], items[j - 1]);
    PaddingFits(|items[j - 1].payload|);
    if i < j - 1 {
      KeystreamOnce(x, d, items, i, j - 1);
    }
  }

  lemma CountsOne(x: Crypto, d: Direction, h: Half, i: Item, n: nat)
    requires Proper(i) && h.seqno == n % TWO_32 && h.pos % BLOCK == 0
    ensures Next(x, d, h, i).seqno == (n + if i.Packet? then 1 else 0) % TWO_32
    ensures Next(x, d, h, i).pos % BLOCK == 0
  {
    hide Derive, Padding;
    if i.Packet? {
      PaddingFits(|i.payload|);
    }
  }
}

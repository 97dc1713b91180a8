/** The state of a connection, as the program keeps it, and the methods that send and receive packets. */
module Connection {
  import opened Machine
  import opened Options
  import opened Protocol
  import opened Codec
  import opened NameList
  import opened Transport

  /** The keys of the completed exchanges, in order. */
  function Switches(items: seq<Item>): seq<Keys>
    decreases |items|
  {
    if items == [] then []
    else Switches(items[..|items| - 1]) + if items[|items| - 1].Switch? then [items[|items| - 1].keys] else []
  }

  /** Every exchange uses the hash of the first one as the session identifier. */
  ghost predicate OneSession(keys: seq<Keys>, session: digest) {
    && (keys != [] ==> keys[0].exchange == session)
    && (forall k :: 0 <= k < |keys| ==> keys[k].session == session)
  }

  /** The last packet announced new keys, and they are not yet in use. */
  ghost predicate Awaiting(items: seq<Item>) {
    items != [] && items[|items| - 1].Packet? && Announces(items[|items| - 1].payload)
  }

  predicate Announces(payload: bytes) {
    payload != [] && payload[0] == MSG_NEWKEYS
  }

  /** Keys change after the packets that announce it, and only there. */
  ghost predicate Orderly(items: seq<Item>)
    decreases |items|
  {
    items == []
    || (Orderly(items[..|items| - 1]) && (items[|items| - 1].Switch? <==> Awaiting(items[..|items| - 1])))
  }

  lemma OrderlySnoc(items: seq<Item>, i: Item)
    ensures Orderly(items + [i]) == (Orderly(items) && (i.Switch? <==> Awaiting(items)))
    ensures Awaiting(items + [i]) == (i.Packet? && Announces(i.payload))
  {
    assert (items + [i])[..|items|] == items;
  }

  /** The message number of a packet, or a number of its own for a change of keys. */
  const SWITCH := 0x100

  function Kind(i: Item): int {
    match i
    case Packet(payload, _) => if payload == [] then -1 else payload[0]
    case Switch(_) => SWITCH
  }

  function Kinds(items: seq<Item>): (r: seq<int>)
    ensures |r| == |items|
  {
    seq(|items|, k requires 0 <= k < |items| => Kind(items[k]))
  }

  lemma KindsSnoc(items: seq<Item>, i: Item)
    ensures Kinds(items + [i]) == Kinds(items) + [Kind(i)]
  {
  }

  /** What the packets carry, without the changes of keys. */
  function Payloads(items: seq<Item>): seq<bytes>
    decreases |items|
  {
    if items == [] then []
    else Payloads(items[..|items| - 1])
         + if items[|items| - 1].Packet? then [items[|items| - 1].payload] else []
  }

  lemma PayloadsSnoc(items: seq<Item>, i: Item)
    ensures Payloads(items + [i]) == Payloads(items) + if i.Packet? then [i.payload] else []
  {
    assert (items + [i])[..|items|] == items;
  }

  /** The message number of each payload. */
  function Heads(ps: seq<bytes>): (r: seq<int>)
    ensures |r| == |ps|
  {
    seq(|ps|, k requires 0 <= k < |ps| => if ps[k] == [] then -1 else ps[k][0] as int)
  }

  /** The message numbers among these kinds. */
  function Numbers(kinds: seq<int>): seq<int>
    decreases |kinds|
  {
    if kinds == [] then []
    else Numbers(kinds[..|kinds| - 1]) + if kinds[|kinds| - 1] == SWITCH then [] else [kinds[|kinds| - 1]]
  }

  lemma NumbersSnoc(kinds: seq<int>, k: int)
    ensures Numbers(kinds + [k]) == Numbers(kinds) + if k == SWITCH then [] else [k]
  {
    assert (kinds + [k])[..|kinds|] == kinds;
  }

  /** A history that has grown by items of these kinds: its payloads have grown by payloads of these numbers. */
  lemma {:induction false} PayloadsGrow(before: seq<Item>, after: seq<Item>, kinds: seq<int>)
    requires before <= after && Kinds(after) == Kinds(before) + kinds
    ensures Payloads(before) <= Payloads(after)
    ensures Heads(Payloads(after)[|Payloads(before)|..]) == Numbers(kinds)
    decreases |after|
  {
    hide Payloads;
    if before == after {
      assert kinds == [] && Payloads(after)[|Payloads(before)|..] == [];
    } else {
      var init, last := after[..|after| - 1], after[|after| - 1];
      assert after == init + [last];
      KindsSnoc(init, last);
      var all, k := Kinds(after), kinds[..|kinds| - 1];
      assert all == Kinds(init) + [Kind(last)] == Kinds(before) + kinds;
      assert kinds[|kinds| - 1] == all[|after| - 1] && kinds == k + [Kind(last)];
      assert Kinds(init) == all[..|init|] == Kinds(before) + k;
      PayloadsGrow(before, init, k);
      PayloadsSnoc(init, last);
      NumbersSnoc(k, Kind(last));
      var more := if last.Packet? then [last.payload] else [];
      assert Payloads(after)[|Payloads(before)|..] == Payloads(init)[|Payloads(before)|..] + more;
    }
  }

  /** What a packet takes at most on the wire. */
  const MOST := MAX_PACKET + MAC_LEN

  /** The packet that carries the client's point. */
  predicate IsPoint(p: bytes) {
    p != [] && p[0] == MSG_KEX_ECDH_INIT && !TakeString(p, Cursor(1, false)).1.bad
    && |TakeString(p, Cursor(1, false)).0| == 65
  }

  /** The client's next packet is its point. */
  predicate PointFollows(x: Crypto, h: Half, s: bytes) {
    Open(x, h, s).Opened? && IsPoint(Open(x, h, s).payload)
  }

  /** The receiver reads this payload and goes on in this state. */
  predicate Took(x: Crypto, h: Half, s: bytes, payload: bytes, h': Half, s': bytes) {
    Open(x, h, s).Opened? && Open(x, h, s).payload == payload && Open(x, h, s).half == h' && Open(x, h, s).rest == s'
  }

  predicate NewKeysFollow(x: Crypto, h: Half, s: bytes) {
    Open(x, h, s).Opened? && Announces(Open(x, h, s).payload)
  }

  const VERSION := "SSH-2.0-OYOBYOK_1.1.0"

  /** The result of the Diffie-Hellman step: the server's point and the shared secret as it is hashed. */
  datatype Agreement = Agreement(own: bytes, secret: bytes)

  /** Section 4 of RFC 5656. */
  function ExchangeHash(x: Crypto, vClient: bytes, iClient: bytes, iServer: bytes, hostKey: bytes, point: bytes,
                        a: Agreement): digest
    requires |vClient| < TWO_32 && |iClient| < TWO_32 && |iServer| < TWO_32 && |hostKey| < TWO_32 && |point| < TWO_32
    requires |a.own| < TWO_32 && |a.secret| < TWO_32
  {
    x.hash(Prefixed(vClient) + Prefixed(Ascii(VERSION)) + Prefixed(iClient) + Prefixed(iServer)
           + Prefixed(hostKey) + Prefixed(point) + Prefixed(a.own) + Prefixed(a.secret))
  }

  const KEX := "ecdh-sha2-nistp256"
  const HOST_KEY := "ecdsa-sha2-nistp256"
  const CIPHER := "aes128-ctr"

  const OFFERED := ["ecdh-sha2-nistp256,ext-info-s", HOST_KEY, CIPHER, CIPHER, "hmac-sha2-256", "hmac-sha2-256",
                    "none", "none", "", ""]
  const EXTENSION := ["server-sig-algs", "ssh-ed25519,ecdsa-sha2-nistp256,rsa-sha2-512,rsa-sha2-256,ssh-rsa"]

  predicate Short(texts: seq<string>) {
    forall k :: 0 <= k < |texts| ==> |texts[k]| <= 100
  }

  /** Strings, one after the other. */
  function TextsBytes(texts: seq<string>): bytes
    requires Short(texts)
    decreases |texts|
  {
    if texts == [] then [] else TextsBytes(texts[..|texts| - 1]) + Prefixed(Ascii(texts[|texts| - 1]))
  }

  lemma NoTexts()
    ensures TextsBytes([]) == []
  {
  }

  lemma TextsSnoc(texts: seq<string>, t: string)
    requires Short(texts) && |t| <= 100
    ensures Short(texts + [t]) && TextsBytes(texts + [t]) == TextsBytes(texts) + Prefixed(Ascii(t))
  {
    assert (texts + [t])[..|texts|] == texts;
  }

  /** The server's KEXINIT. */
  function Offer(cookie: bytes): bytes {
    [MSG_KEXINIT] + cookie + TextsBytes(OFFERED) + [0] + Big32(0)
  }

  lemma OfferStarts(cookie: bytes)
    ensures Offer(cookie) != [] && Offer(cookie)[0] == MSG_KEXINIT
  {
    hide TextsBytes;
  }

  /** The client offers the algorithms of the server. */
  function Common(p: bytes): bool {
    var (_, c0) := TakeU8(p, Cursor(0, false));
    var (kex, c1) := TakeString(p, c0.(pos := c0.pos + 16));
    var (hostKey, c2) := TakeString(p, c1);
    var (cipher, c3) := TakeString(p, c2);
    !c3.bad && Ascii(KEX) in Names(kex) && Ascii(HOST_KEY) in Names(hostKey) && Ascii(CIPHER) in Names(cipher)
  }

  /** Everything that is built in the output buffer through a writer of this capacity is small enough to send, and
      small enough for a receiver with the same limit. */
  lemma WriterFits(n: nat)
    requires n <= OUT_CAP
    ensures Total(n) <= MAX_PACKET && LengthAccepted(Total(n) - 4, true) && LengthAccepted(Total(n) - 4, false)
  {
    PaddingFits(n);
  }

  lemma SentOne(x: Crypto, d: Direction, items: seq<Item>, i: Item)
    requires AllProper(items) && Proper(i)
    ensures AllProper(items + [i])
    ensures Wire(x, d, items + [i]) == Wire(x, d, items) + Bytes(x, Final(x, d, items), i)
    ensures Final(x, d, items + [i]) == Next(x, d, Final(x, d, items), i)
    ensures Switches(items + [i]) == Switches(items) + if i.Switch? then [i.keys] else []
  {
    hide Bytes, Next, Proper, Wire, Final;
    WireSnoc(x, d, items, i);
    SwitchesSnoc(items, i);
  }

  lemma GotOne(x: Crypto, d: Direction, s: bytes, items: seq<Item>, i: Item)
    requires UsablePlan(Plan(items)) && (i.Switch? ==> |i.keys.secret| < TWO_32)
    ensures UsablePlan(Plan(items + [i]))
    ensures Read(x, d, s, Plan(items + [i]))
            == ReadNext(x, d, Read(x, d, s, Plan(items)), if i.Switch? then Some(i.keys) else None)
    ensures Switches(items + [i]) == Switches(items) + if i.Switch? then [i.keys] else []
  {
    hide Read, ReadNext, Plan;
    ReadSnoc(x, d, s, items, i);
    SwitchesSnoc(items, i);
  }

  /** One more packet, with this payload. */
  ghost predicate Grown(before: seq<Item>, after: seq<Item>, payload: bytes) {
    && |after| == |before| + 1 && before == after[..|before|] && after[|before|].Packet?
    && after[|before|].payload == payload
  }

  /** Packet k carries this payload. */
  ghost predicate Carries(items: seq<Item>, k: nat, payload: bytes) {
    k < |items| && items[k].Packet? && items[k].payload == payload
  }

  /** One more packet, with this message number. */
  ghost predicate GrownBy(before: seq<Item>, after: seq<Item>, kind: u8) {
    && |after| == |before| + 1 && before == after[..|before|] && after[|before|].Packet?
    && after[|before|].payload != [] && after[|before|].payload[0] == kind
  }

  lemma GrownKinds(before: seq<Item>, after: seq<Item>, payload: bytes)
    requires Grown(before, after, payload)
    ensures Kinds(after) == Kinds(before) + [if payload == [] then -1 else payload[0]]
    ensures Switches(after) == Switches(before)
  {
    hide Switches;
    assert after == before + [after[|before|]];
    KindsSnoc(before, after[|before|]);
    SwitchesSnoc(before, after[|before|]);
  }

  lemma SwitchesSnoc(items: seq<Item>, i: Item)
    ensures Switches(items + [i]) == if i.Switch? then Switches(items) + [i.keys] else Switches(items)
  {
    assert (items + [i])[..|items|] == items;
  }

  /** mbedtls_aes_crypt_ctr, in place: the bytes from o to o + n. */
  method CryptInPlace(x: Crypto, key: bytes, iv: bytes, pos: nat, buf: array<u8>, o: nat, n: nat)
    requires o + n <= buf.Length
    modifies buf
    ensures buf[..o] == old(buf[..o]) && buf[o + n..] == old(buf[o + n..])
    ensures buf[o..o + n] == Crypt(x, key, iv, pos, old(buf[o..o + n]))
  {
    hide XorByte;
    ghost var was := buf[..];
    for i := 0 to n
      invariant buf[..o] == was[..o] && buf[o + i..] == was[o + i..]
      invariant forall k :: o <= k < o + i ==> buf[k] == XorByte(was[k], x.stream(key, iv, pos + k - o))
    {
      assert buf[o + i] == buf[o + i..][0] == was[o + i];
      buf[o + i] := XorByte(buf[o + i], x.stream(key, iv, pos + i));
      assert buf[o + i + 1..] == was[o + i..][1..];
    }
  }

  lemma FrameInPlace(frame: bytes, head: bytes, payload: bytes, pad: nat)
    requires |frame| == 5 + |payload| + pad && |payload| + pad < TWO_32 - 5 && pad < 0x100
    requires head == Big32(1 + |payload| + pad) + [pad] + payload && frame[..5 + |payload|] == head
    ensures frame == Frame(payload, frame[5 + |payload|..])
  {
    assert frame == head + frame[5 + |payload|..];
  }

  class Conn {
    const x: Crypto
    const rng: nat -> u8
    const inbuf: array<u8>
    const outbuf: array<u8>
    var drawn: nat
    var room: nat
    var input: bytes
    var output: bytes
    var seqIn: u32
    var seqOut: u32
    var encrypted: bool
    var keyIn: bytes
    var keyOut: bytes
    var ivIn: bytes
    var ivOut: bytes
    var posIn: nat
    var posOut: nat
    var macIn: bytes
    var macOut: bytes
    var sessionId: digest
    var haveSessionId: bool
    const vClient: bytes
    const hostKey: bytes
    var kexinitServer: Option<bytes>
    ghost const arrived: bytes
    ghost var sent: seq<Item>
    ghost var got: seq<Item>
    /** Something went wrong: the socket took no more, no packet could be opened, or a key exchange was not possible. */
    ghost var failed: bool

    ghost function In(): Half
      reads `seqIn, `encrypted, `keyIn, `ivIn, `posIn, `macIn
    {
      Half(seqIn, encrypted, keyIn, ivIn, posIn, macIn)
    }

    ghost function Out(): Half
      reads `seqOut, `encrypted, `keyOut, `ivOut, `posOut, `macOut
    {
      Half(seqOut, encrypted, keyOut, ivOut, posOut, macOut)
    }

    /** What is on the wire is what was sent. */
    ghost predicate OutValid()
      reads `seqOut, `encrypted, `keyOut, `ivOut, `posOut, `macOut, `sent, `output
    {
      AllProper(sent) && output == Wire(x, ToClient, sent) && Out() == Final(x, ToClient, sent)
    }

    /** What was read is what arrived. */
    ghost predicate InValid()
      reads `seqIn, `encrypted, `keyIn, `ivIn, `posIn, `macIn, `got, `input
    {
      UsablePlan(Plan(got)) && Read(x, FromClient, arrived, Plan(got)) == Reading(got, In(), input)
    }

    /** Both directions changed to the same keys, and all of them belong to one session. */
    ghost predicate KeysValid()
      reads `encrypted, `sent, `got, `sessionId, `haveSessionId
    {
      && Switches(sent) == Switches(got) && OneSession(Switches(sent), sessionId)
      && (encrypted <==> Switches(sent) != []) && (encrypted ==> haveSessionId)
    }

    predicate Sizes() {
      && inbuf.Length == MAX_PACKET && outbuf.Length == MAX_PACKET && inbuf != outbuf
      && |vClient| < 256 && |hostKey| <= 128
    }

    /** The history of both directions explains the whole state. */
    ghost predicate Valid()
      reads `seqIn, `keyIn, `ivIn, `posIn, `macIn, `got, `input
      reads `seqOut, `keyOut, `ivOut, `posOut, `macOut, `sent, `output, `encrypted, `sessionId, `haveSessionId, `failed
    {
      !failed && Sizes() && OutValid() && InValid() && KeysValid() && Orderly(sent)
    }

    constructor (x: Crypto, rng: nat -> u8, input: bytes, room: nat, vClient: bytes, hostKey: bytes)
      requires |vClient| < 256 && |hostKey| <= 128
      ensures Valid() && Calm() && sent == [] && got == [] && arrived == input
      ensures fresh(inbuf) && fresh(outbuf)
    {
      this.x, this.rng, this.input, this.room, this.arrived := x, rng, input, room, input;
      this.inbuf := new u8[MAX_PACKET];
      this.outbuf := new u8[MAX_PACKET];
      this.drawn, this.output, this.seqIn, this.seqOut, this.encrypted := 0, [], 0, 0, false;
      this.keyIn, this.keyOut, this.ivIn, this.ivOut, this.posIn, this.posOut := [], [], [], [], 0, 0;
      this.macIn, this.macOut, this.haveSessionId := [], [], false;
      this.vClient, this.hostKey, this.kexinitServer, this.sessionId := vClient, hostKey, None, seq(32, i => 0);
      this.sent, this.got, this.failed := [], [], false;
    }

    /** No change of keys is due. */
    ghost predicate Calm()
      reads `sent
    {
      !Awaiting(sent)
    }

    /** The socket takes what it has room for. */
    method WriteFull(d: bytes) returns (ok: bool)
      modifies this`output, this`room
      ensures ok == (|d| <= old(room))
      ensures ok ==> output == old(output) + d && room == old(room) - |d|
    {
      ok := |d| <= room;
      var n := if ok then |d| else room;
      output, room := output + d[..n], room - n;
      assert d[..|d|] == d;
    }

    /** The socket gives what has arrived; nothing is asked of it when n is not positive. */
    method ReadFull(buf: array<u8>, o: nat, n: int) returns (ok: bool)
      requires n <= 0 || o + n <= buf.Length
      requires o <= buf.Length
      modifies this`input, buf
      ensures var k := if n < 0 then 0 else n;
              && ok == (k <= |old(input)|)
              && (ok ==> buf[..o] == old(buf[..o]) && buf[o..o + k] == old(input)[..k] && input == old(input)[k..])
    {
      ok := n <= |input|;
      if ok && n > 0 {
        for i := 0 to n
          invariant input == old(input)
          invariant buf[..o] == old(buf[..o]) && buf[o..o + i] == input[..i]
        {
          buf[o + i] := input[i];
        }
        input := input[n..];
      }
    }

    /** esp_fill_random. */
    method FillRandom(buf: array<u8>, o: nat, n: nat)
      requires o + n <= buf.Length
      modifies this`drawn, buf
      ensures buf[..o] == old(buf[..o])
    {
      for i := 0 to n
        invariant buf[..o] == old(buf[..o])
      {
        buf[o + i] := rng(drawn);
        drawn := drawn + 1;
      }
    }

    /** Puts the length words before the payload and random bytes after it. */
    method MakeFrame(len: nat) returns (total: nat)
      requires outbuf.Length == MAX_PACKET && Total(len) <= MAX_PACKET
      modifies this`drawn, outbuf
      ensures total == Total(len)
      ensures var pad := outbuf[5 + len..total];
              |pad| == Padding(len) < 0x100 && outbuf[..total] == Frame(old(outbuf[5..5 + len]), pad)
    {
      hide Frame;
      PaddingFits(len);
      var pad := BLOCK - (5 + len) % BLOCK;
      if pad < 4 {
        pad := pad + BLOCK;
      }
      total := 5 + len + pad;
      ghost var payload := outbuf[5..5 + len];
      var plen: u32 := 1 + len + pad;
      outbuf[0], outbuf[1] := plen / 0x100_0000, plen / 0x1_0000 % 0x100;
      outbuf[2], outbuf[3] := plen / 0x100 % 0x100, plen % 0x100;
      outbuf[4] := pad;
      ghost var head := outbuf[..5 + len];
      assert head == Big32(plen) + [pad] + payload;
      FillRandom(outbuf, 5 + len, pad);
      assert outbuf[..total][..5 + len] == head;
      FrameInPlace(outbuf[..total], head, payload, pad);
      assert outbuf[..total][5 + len..] == outbuf[5 + len..total];
    }

    /** Encrypts the first total bytes of the output buffer, if there are keys, and sends them with their MAC. */
    method Transmit(total: nat) returns (ok: bool)
      requires total <= outbuf.Length
      modifies this`seqOut, this`posOut, this`output, this`room, outbuf
      ensures ok == (total + (if encrypted then MAC_LEN else 0) <= old(room))
      ensures ok ==> output == old(output) + Seal(x, old(Out()), old(outbuf[..total]))
      ensures ok ==> room == old(room) - total - if encrypted then MAC_LEN else 0
      ensures Out() == After(old(Out()), total)
    {
      hide Crypt;
      ghost var frame := outbuf[..total];
      var mac: bytes := [];
      if encrypted {
        mac := x.mac(macOut, Big32(seqOut) + outbuf[..total]);
        assert outbuf[0..total] == outbuf[..total];
        CryptInPlace(x, keyOut, ivOut, posOut, outbuf, 0, total);
        assert outbuf[0..total] == outbuf[..total];
        posOut := posOut + total;
      }
      seqOut := (seqOut + 1) % TWO_32;
      ok := WriteFull(outbuf[..total]);
      if ok && encrypted {
        ok := WriteFull(mac);
      }
      assert old(output) + outbuf[..total] + mac == old(output) + (outbuf[..total] + mac);
    }

    twostate lemma SentPacket(i: Item)
      requires old(Valid()) && old(Calm()) && Proper(i) && i.Packet?
      requires sent == old(sent) + [i] && output == old(output) + Bytes(x, old(Out()), i)
      requires Out() == Next(x, ToClient, old(Out()), i)
      requires got == old(got) && input == old(input) && In() == old(In())
      requires haveSessionId == old(haveSessionId) && sessionId == old(sessionId)
      requires !failed
      ensures Valid()
    {
      hide Read, Wire, Final, Bytes, Next, Proper, Switches, Orderly, Awaiting;
      SentOne(x, ToClient, old(sent), i);
      SwitchesSnoc(old(sent), i);
      OrderlySnoc(old(sent), i);
    }

    /** Frames the first len payload bytes of the output buffer and sends them. */
    method SendFrame(len: nat) returns (ok: bool, ghost pad: bytes)
      requires outbuf.Length == MAX_PACKET && 1 <= len && Total(len) <= MAX_PACKET
      modifies this`seqOut, this`posOut, this`output, this`room, this`drawn, outbuf
      ensures ok == (Total(len) + (if encrypted then MAC_LEN else 0) <= old(room))
      ensures ok ==> room == old(room) - Total(len) - if encrypted then MAC_LEN else 0
      ensures var i := Packet(old(outbuf[5..5 + len]), pad);
              Proper(i) && Out() == Next(x, ToClient, old(Out()), i)
              && (ok ==> output == old(output) + Bytes(x, old(Out()), i))
    {
      hide Frame, Seal, Padding;
      var total := MakeFrame(len);
      pad := outbuf[5 + len..total];
      ok := Transmit(total);
    }

    /** Sends the first len payload bytes of the output buffer as one packet. */
    method SendPacket(len: nat) returns (ok: bool)
      requires Valid() && Calm() && 1 <= len <= MAX_PACKET - 5
      modifies this`seqOut, this`posOut, this`output, this`room, this`drawn, this`sent, this`failed, outbuf
      ensures Total(len) > MAX_PACKET ==> !ok && Valid() && sent == old(sent) && output == old(output)
      ensures Total(len) <= MAX_PACKET ==> ok == (Total(len) + (if encrypted then MAC_LEN else 0) <= old(room))
      ensures Total(len) <= MAX_PACKET ==> failed == !ok
      ensures ok ==> Valid() && Grown(old(sent), sent, old(outbuf[5..5 + len])) && room >= old(room) - MOST
    {
      hide InValid, OutValid, KeysValid, Orderly, Frame, Seal, Padding, Bytes, Next, Proper;
      if Total(len) > MAX_PACKET {
        return false;
      }
      ghost var payload, pad := outbuf[5..5 + len], [];
      ok, pad := SendFrame(len);
      failed := !ok;
      if ok {
        sent := sent + [Packet(payload, pad)];
        SentPacket(Packet(payload, pad));
      }
    }

    /** The first block of a packet, and the length word in it. */
    method ReadLength() returns (ok: bool, plen: u32)
      requires inbuf.Length == MAX_PACKET
      modifies this`posIn, this`input, inbuf
      ensures var s, blk := old(input), BlockOf(encrypted);
              if |s| < blk then !ok else
              var first := FirstBlock(x, old(In()), s);
              plen == Value32(first[..4]) && ok == LengthAccepted(plen, encrypted) && inbuf[..blk] == first
      ensures ok ==> input == old(input)[BlockOf(encrypted)..]
      ensures ok ==> posIn == if encrypted then old(posIn) + BLOCK else old(posIn)
    {
      hide Crypt, XorByte;
      ok, plen := false, 0;
      var blk := if encrypted then BLOCK else 8;
      ok := ReadFull(inbuf, 0, blk);
      if !ok {
        return;
      }
      assert inbuf[0..blk] == inbuf[..blk];
      if encrypted {
        CryptInPlace(x, keyIn, ivIn, posIn, inbuf, 0, blk);
        posIn := posIn + BLOCK;
        assert inbuf[0..blk] == inbuf[..blk];
      }
      plen := (inbuf[0] as int) * 0x100_0000 + (inbuf[1] as int) * 0x1_0000 + (inbuf[2] as int) * 0x100 + inbuf[3];
      assert inbuf[..blk][..4] == [inbuf[0], inbuf[1], inbuf[2], inbuf[3]];
      var sum := (plen + 4) % TWO_32;
      ok := plen >= 5 && sum <= MAX_PACKET && (if encrypted then sum % BLOCK else sum % 8) == 0;
    }

    /** The rest of a packet, so many bytes, and its MAC. */
    method ReadBody(rest: int, ghost n: nat, ghost h: Half, ghost s: bytes) returns (ok: bool)
      requires inbuf.Length == MAX_PACKET && h.encrypted == encrypted && BlockOf(encrypted) <= |s|
      requires h.(pos := posIn) == In() && posIn == if encrypted then h.pos + BLOCK else h.pos
      requires n == BlockOf(encrypted) + (if rest < 0 then 0 else rest) <= MAX_PACKET && (encrypted ==> rest >= 0)
      requires input == s[BlockOf(encrypted)..] && inbuf[..BlockOf(encrypted)] == FirstBlock(x, h, s)
      modifies this`posIn, this`input, inbuf
      ensures var body := Body(x, h, s, FirstBlock(x, h, s), n);
              ok == body.Some? && (ok ==> inbuf[..n] == body.value.0 && input == body.value.1)
      ensures ok ==> posIn == if encrypted then h.pos + n else h.pos
    {
      hide Crypt, XorByte;
      var blk := if encrypted then BLOCK else 8;
      ghost var first := inbuf[..blk];
      ok := ReadFull(inbuf, blk, rest);
      if !ok {
        return;
      }
      assert s[blk..n] == s[blk..][..n - blk] && s[n..] == s[blk..][n - blk..];
      assert inbuf[..n] == inbuf[..blk] + inbuf[blk..n];
      if encrypted {
        CryptInPlace(x, keyIn, ivIn, posIn, inbuf, blk, rest);
        posIn := posIn + rest;
        assert inbuf[..n] == inbuf[..blk] + inbuf[blk..n];
        if |input| < MAC_LEN {
          ok := false;
        } else {
          ok := input[..MAC_LEN] == x.mac(macIn, Big32(seqIn) + inbuf[..blk + rest]);
          assert s[n..n + MAC_LEN] == s[n..][..MAC_LEN] && s[n + MAC_LEN..] == s[n..][MAC_LEN..];
          input := input[MAC_LEN..];
        }
      } else {
        assert s[..n] == s[..blk] + s[blk..n];
      }
    }

    /** One packet, without its history. */
    method ReceivePayload() returns (ok: bool, len: int, ghost pad: bytes)
      requires inbuf.Length == MAX_PACKET
      modifies this`seqIn, this`posIn, this`input, inbuf
      ensures ok <==> Open(x, old(In()), old(input)).Opened?
      ensures ok ==> 1 <= len <= MAX_PACKET - 5 && |input| < |old(input)|
      ensures ok ==> Open(x, old(In()), old(input)) == Opened(inbuf[..len], pad, In(), input)
    {
      hide Body, FirstBlock;
      len, pad := 0, [];
      ghost var h, s := In(), input;
      var plen;
      ok, plen := ReadLength();
      if !ok {
        return;
      }
      RestIsSane(plen, encrypted);
      var rest := Signed(plen) + 4 - if encrypted then BLOCK else 8;
      if encrypted && rest < 0 {
        return false, 0, [];
      }
      ghost var n := Extent(plen, encrypted);
      BodyShortens(x, h, s, FirstBlock(x, h, s), n);
      ok := ReadBody(rest, n, h, s);
      if !ok {
        return;
      }
      seqIn := (seqIn + 1) % TWO_32;
      ghost var frame := inbuf[..n];
      assert frame[4] == inbuf[4];
      len := Signed(plen) - 1 - inbuf[4];
      ok := len >= 1;
      if !ok {
        return;
      }
      ghost var whole := inbuf[..];
      assert whole[..n] == frame && whole[5..5 + len] == inbuf[5..5 + len];
      Inner(whole, n, 5, 5 + len);
      pad := frame[5 + len..];
      MoveDown(len);
    }

    twostate lemma GotPacket(i: Item)
      requires old(Valid()) && i.Packet?
      requires got == old(got) + [i] && Open(x, old(In()), old(input)) == Opened(i.payload, i.pad, In(), input)
      requires sent == old(sent) && output == old(output) && Out() == old(Out())
      requires haveSessionId == old(haveSessionId) && sessionId == old(sessionId)
      requires !failed
      ensures Valid()
    {
      hide Read, Wire, Final, Open, Switches, Plan;
      GotOne(x, FromClient, arrived, old(got), i);
      SwitchesSnoc(old(got), i);
    }

    /** Receives one packet and leaves its payload at the start of the input buffer. */
    method ReadPacket() returns (ok: bool, len: int)
      requires Valid()
      modifies this`seqIn, this`posIn, this`input, this`got, this`failed, inbuf
      ensures (ok <==> Open(x, old(In()), old(input)).Opened?) && failed == !ok
      ensures ok ==> Valid() && 1 <= len <= MAX_PACKET - 5 && |input| < |old(input)|
      ensures ok ==> Grown(old(got), got, inbuf[..len])
      ensures ok ==> Took(x, old(In()), old(input), inbuf[..len], In(), input)
    {
      hide InValid, OutValid, KeysValid, Orderly, Open;
      ghost var pad;
      ok, len, pad := ReceivePayload();
      failed := !ok;
      if ok {
        ghost var i := Packet(inbuf[..len], pad);
        got := got + [i];
        GotPacket(i);
      }
    }

    /** memmove of the payload. */
    method MoveDown(len: nat)
      requires 5 + len <= inbuf.Length
      modifies inbuf
      ensures inbuf[..len] == old(inbuf[5..5 + len])
    {
      ghost var was := inbuf[..];
      for i := 0 to len
        invariant forall k :: 0 <= k < i ==> inbuf[k] == was[k + 5]
        invariant forall k :: i <= k < inbuf.Length ==> inbuf[k] == was[k]
      {
        inbuf[i] := inbuf[i + 5];
      }
    }

    method OutBegin(t: u8) returns (w: Writer)
      requires outbuf.Length == MAX_PACKET
      modifies outbuf
      ensures fresh(w) && Begun(w) && w.Contents() == [t]
    {
      w := new Writer(outbuf, 5, OUT_CAP);
      w.PutU8(t);
    }

    ghost predicate Begun(w: Writer)
      reads w
    {
      w.Valid() && w.p == outbuf && w.base == 5 && w.cap == OUT_CAP
    }

    /** What was written is sent whenever the socket takes it. */
    method OutSend(w: Writer) returns (ok: bool)
      requires Valid() && Calm() && Begun(w) && w.Contents() != []
      modifies this`seqOut, this`posOut, this`output, this`room, this`drawn, this`sent, this`failed, outbuf
      ensures ok == (Total(|old(w.Contents())|) + (if encrypted then MAC_LEN else 0) <= old(room)) && failed == !ok
      ensures ok ==> Valid() && Grown(old(sent), sent, old(w.Contents()))
      ensures (old(room) >= MOST ==> ok) && (ok ==> room >= old(room) - MOST)
      ensures ok ==> (Calm() <==> !Announces(old(w.Contents())))
    {
      WriterFits(w.len);
      assert outbuf[5..5 + w.len] == w.Contents();
      ok := SendPacket(w.len);
    }

    /** Appends strings; all of them fit. */
    method PutTexts(w: Writer, texts: seq<string>)
      requires w.Valid() && Short(texts) && |w.Contents()| + 104 * |texts| <= w.cap
      modifies w, w.p
      ensures w.Valid() && w.Contents() == old(w.Contents()) + TextsBytes(texts) && |TextsBytes(texts)| <= 104 * |texts|
    {
      hide Ascii, Big32, TextsBytes;
      NoTexts();
      assert texts[..0] == [];
      for i := 0 to |texts|
        invariant w.Valid() && Short(texts[..i]) && |TextsBytes(texts[..i])| <= 104 * i
        invariant w.Contents() == old(w.Contents()) + TextsBytes(texts[..i])
      {
        assert texts[..i + 1] == texts[..i] + [texts[i]];
        TextsSnoc(texts[..i], texts[i]);
        w.PutString(Ascii(texts[i]));
      }
      assert texts[..|texts|] == texts;
    }

    method SendDisconnect(why: string) returns (ok: bool)
      requires Valid() && Calm() && |why| <= 100
      modifies this`seqOut, this`posOut, this`output, this`room, this`drawn, this`sent, this`failed, outbuf
      ensures ok ==> Valid() && Calm()
      ensures ok ==> Grown(old(sent), sent, [MSG_DISCONNECT] + Big32(2) + TextsBytes([why, ""]))
    {
      hide InValid, OutValid, KeysValid, Orderly, TextsBytes, Big32;
      var w := OutBegin(MSG_DISCONNECT);
      w.PutU32(2);
      PutTexts(w, [why, ""]);
      ok := OutSend(w);
    }

    method MakeKexInit(cookie: bytes) returns (w: Writer)
      requires outbuf.Length == MAX_PACKET && |cookie| == 16
      modifies outbuf
      ensures fresh(w) && Begun(w) && w.Contents() == Offer(cookie)
    {
      hide TextsBytes, Big32;
      w := OutBegin(MSG_KEXINIT);
      w.PutBytes(cookie);
      PutTexts(w, OFFERED);
      w.PutU8(0);
      w.PutU32(0);
    }

    /** Offers one algorithm of each kind, and keeps the packet for the exchange hash. */
    method SendKexInit(cookie: bytes) returns (ok: bool)
      requires Valid() && Calm() && |cookie| == 16
      modifies this`seqOut, this`posOut, this`output, this`room, this`drawn, this`sent
      modifies this`failed, this`kexinitServer, outbuf
      ensures ok ==> Valid() && Calm() && kexinitServer == Some(Offer(cookie)) && |Offer(cookie)| <= OUT_CAP
      ensures ok ==> Grown(old(sent), sent, Offer(cookie))
      ensures (old(room) >= MOST ==> ok) && (ok ==> room >= old(room) - MOST) && failed == !ok
    {
      hide Grown, InValid, OutValid, KeysValid, Offer;
      var w := MakeKexInit(cookie);
      assert outbuf[5..5 + w.len] == w.Contents();
      kexinitServer := Some(outbuf[5..5 + w.len]);
      OfferStarts(cookie);
      ok := OutSend(w);
    }

    method CheckAlgorithms(p: bytes) returns (ok: bool)
      ensures ok == Common(p)
    {
      hide Ascii, Names;
      NoCommas();
      var r := new Reader(p);
      var t := r.GetU8();
      r.pos := r.pos + 16;
      var kex := r.GetString();
      var hk := r.GetString();
      var enc := r.GetString();
      var hasKex := ListHas(kex, Ascii(KEX));
      var hasKey := ListHas(hk, Ascii(HOST_KEY));
      var hasCipher := ListHas(enc, Ascii(CIPHER));
      ok := !r.bad && hasKex && hasKey && hasCipher;
    }

    twostate lemma Switched(k: Keys)
      requires old(Valid()) && !old(Calm()) && |k.secret| < TWO_32 && haveSessionId && k.session == sessionId
      requires old(Switches(sent)) == [] ==> k.exchange == sessionId
      requires haveSessionId == old(haveSessionId) && sessionId == old(sessionId)
      requires input == old(input) && output == old(output)
      requires In() == Rekey(x, FromClient, old(In()), k) && Out() == Rekey(x, ToClient, old(Out()), k)
      requires sent == old(sent) + [Switch(k)] && got == old(got) + [Switch(k)]
      requires !failed
      ensures Valid() && Calm()
    {
      hide Read, Wire, Final, Derive, Switches, Plan, UsablePlan, AllProper, Orderly, Awaiting;
      SentOne(x, ToClient, old(sent), Switch(k));
      OrderlySnoc(old(sent), Switch(k));
      GotOne(x, FromClient, arrived, old(got), Switch(k));
      assert output + [] == output;
    }

    /** New keys, at the start of a new keystream; the sequence numbers go on. */
    method InstallKeys(k: Keys)
      requires |k.secret| < TWO_32
      modifies this`keyIn, this`keyOut, this`ivIn, this`ivOut, this`posIn, this`posOut, this`macIn, this`macOut
      modifies this`encrypted
      ensures In() == Rekey(x, FromClient, old(In()), k) && Out() == Rekey(x, ToClient, old(Out()), k)
    {
      hide Derive;
      ivIn, ivOut := Derive(x, k, 65)[..16], Derive(x, k, 66)[..16];
      keyIn, keyOut := Derive(x, k, 67)[..16], Derive(x, k, 68)[..16];
      macIn, macOut := Derive(x, k, 69), Derive(x, k, 70);
      posIn, posOut, encrypted := 0, 0, true;
    }

    /** Both directions change to the new keys. */
    method SwitchKeys(k: Keys)
      requires Valid() && !Calm() && |k.secret| < TWO_32 && haveSessionId && k.session == sessionId
      requires Switches(sent) == [] ==> k.exchange == sessionId
      modifies this`keyIn, this`keyOut, this`ivIn, this`ivOut, this`posIn, this`posOut, this`macIn, this`macOut,
               this`encrypted, this`sent, this`got
      ensures Valid() && Calm() && encrypted
      ensures sent == old(sent) + [Switch(k)] && got == old(got) + [Switch(k)]
    {
      hide Switches, OutValid, InValid, KeysValid, Derive, Orderly, Calm;
      InstallKeys(k);
      sent, got := sent + [Switch(k)], got + [Switch(k)];
      Switched(k);
    }

    /** Reads the client's point. */
    method ReadEcdhInit() returns (ok: bool, point: bytes)
      requires Valid()
      modifies this`seqIn, this`posIn, this`input, this`got, this`failed, inbuf
      ensures (ok <==> PointFollows(x, old(In()), old(input))) && failed == !ok
      ensures ok ==> Valid() && GrownBy(old(got), got, MSG_KEX_ECDH_INIT) && |point| == 65 && |input| < |old(input)|
      ensures ok ==> Took(x, old(In()), old(input), got[|old(got)|].payload, In(), input)
      ensures ok ==> TakeString(got[|old(got)|].payload, Cursor(1, false)) == (point, Cursor(70, false))
    {
      hide InValid, OutValid, KeysValid, Orderly, Open, Value32;
      var plen;
      point := [];
      ok, plen := ReadPacket();
      if !ok {
        return;
      }
      ok := inbuf[0] == MSG_KEX_ECDH_INIT;
      failed := !ok;
      if !ok {
        return;
      }
      var r := new Reader(inbuf[..plen]);
      var t := r.GetU8();
      point := r.GetString();
      ok := !r.bad && |point| == 65;
      failed := !ok;
    }

    function ReplyBytes(own: bytes, signature: bytes): bytes
      requires |hostKey| < TWO_32 && |own| < TWO_32 && |signature| < TWO_32
    {
      [MSG_KEX_ECDH_REPLY] + Prefixed(hostKey) + Prefixed(own) + Prefixed(signature)
    }

    method MakeReply(own: bytes, signature: bytes) returns (w: Writer)
      requires outbuf.Length == MAX_PACKET && |own| == 65 && |signature| <= 128 && |hostKey| <= 128
      modifies outbuf
      ensures fresh(w) && Begun(w) && w.Contents() == ReplyBytes(own, signature)
    {
      hide Big32;
      w := OutBegin(MSG_KEX_ECDH_REPLY);
      w.PutString(hostKey);
      w.PutString(own);
      w.PutString(signature);
    }

    /** The server's key, point and signature. */
    method SendReply(own: bytes, signature: bytes) returns (ok: bool)
      requires Valid() && Calm() && |own| == 65 && |signature| <= 128
      modifies this`seqOut, this`posOut, this`output, this`room, this`drawn, this`sent, this`failed, outbuf
      ensures ok ==> Valid() && Calm() && Grown(old(sent), sent, ReplyBytes(own, signature))
      ensures (old(room) >= MOST ==> ok) && (ok ==> room >= old(room) - MOST) && failed == !ok
    {
      hide InValid, OutValid, KeysValid, Orderly, Prefixed;
      var w := MakeReply(own, signature);
      ok := OutSend(w);
    }

    method SendExtInfo() returns (ok: bool)
      requires Valid() && Calm()
      modifies this`seqOut, this`posOut, this`output, this`room, this`drawn, this`sent, this`failed, outbuf
      ensures ok ==> Valid() && Calm() && Grown(old(sent), sent, [MSG_EXT_INFO] + Big32(1) + TextsBytes(EXTENSION))
      ensures (old(room) >= MOST ==> ok) && failed == !ok
    {
      hide InValid, OutValid, KeysValid, Orderly, TextsBytes, Big32;
      var w := OutBegin(MSG_EXT_INFO);
      w.PutU32(1);
      PutTexts(w, EXTENSION);
      ok := OutSend(w);
    }

    /** The client's NEWKEYS. */
    method ReadNewKeys() returns (ok: bool)
      requires Valid()
      modifies this`seqIn, this`posIn, this`input, this`got, this`failed, inbuf
      ensures (ok <==> NewKeysFollow(x, old(In()), old(input))) && failed == !ok
      ensures ok ==> Valid() && GrownBy(old(got), got, MSG_NEWKEYS) && |input| < |old(input)|
    {
      hide InValid, OutValid, KeysValid, Orderly, Open;
      var plen;
      ok, plen := ReadPacket();
      ok := ok && inbuf[0] == MSG_NEWKEYS;
      failed := !ok;
    }

    /** Between key exchanges. */
    ghost predicate Settled()
      reads `encrypted, `haveSessionId, `kexinitServer, `sent
    {
      Calm() && (haveSessionId <==> encrypted) && (kexinitServer.Some? ==> |kexinitServer.value| <= OUT_CAP)
    }

    /** The client's offer is looked at, and the server's is sent unless it was before. */
    method Propose(len: nat, cookie: bytes) returns (ok: bool)
      requires Valid() && Settled() && 1 <= len <= MAX_PACKET - 5 && |cookie| == 16
      modifies this`seqOut, this`posOut, this`output, this`room, this`drawn, this`sent
      modifies this`failed, this`kexinitServer, outbuf
      ensures ok ==> Valid() && Settled() && kexinitServer.Some? && Common(inbuf[..len])
      ensures ok ==> if old(kexinitServer).Some? then kexinitServer == old(kexinitServer) && sent == old(sent)
                     else kexinitServer == Some(Offer(cookie)) && Grown(old(sent), sent, Offer(cookie))
      ensures ok ==> room >= old(room) - MOST
      ensures (old(room) >= MOST ==> (ok <==> Common(inbuf[..len]))) && failed == !ok
    {
      hide InValid, OutValid, KeysValid, Orderly, Common, Offer;
      ok := CheckAlgorithms(inbuf[..len]);
      if !ok {
        var told := SendDisconnect("no common algorithm");
        failed := true;
        return;
      }
      if kexinitServer.None? {
        ok := SendKexInit(cookie);
      }
    }

    /** The offers, up to the client's point. */
    method Negotiate(len: nat, cookie: bytes) returns (ok: bool, point: bytes)
      requires Valid() && Settled() && 1 <= len <= MAX_PACKET - 5 && |cookie| == 16
      modifies this`seqOut, this`posOut, this`output, this`room, this`drawn, this`sent
      modifies this`failed, this`kexinitServer, outbuf
      modifies this`seqIn, this`posIn, this`input, this`got, this`failed, inbuf
      ensures ok ==> Valid() && Settled() && kexinitServer.Some? && |point| == 65 && Common(old(inbuf[..len]))
      ensures ok ==> if old(kexinitServer).Some? then kexinitServer == old(kexinitServer) && sent == old(sent)
                     else kexinitServer == Some(Offer(cookie)) && Grown(old(sent), sent, Offer(cookie))
      ensures ok ==> GrownBy(old(got), got, MSG_KEX_ECDH_INIT) && |input| < |old(input)|
      ensures ok ==> TakeString(got[|old(got)|].payload, Cursor(1, false)) == (point, Cursor(70, false))
      ensures ok ==> room >= old(room) - MOST
      ensures ok ==> Took(x, old(In()), old(input), got[|old(got)|].payload, In(), input)
      ensures old(room) >= MOST ==> (ok <==> Common(old(inbuf[..len])) && PointFollows(x, old(In()), old(input)))
      ensures failed == !ok
    {
      hide InValid, OutValid, KeysValid, Orderly, Common, TakeString, Offer, Open, PointFollows;
      point := [];
      ok := Propose(len, cookie);
      if ok {
        ok, point := ReadEcdhInit();
      }
    }

    /** The reply and the server's NEWKEYS, under the old keys. */
    method Reply(own: bytes, signature: bytes) returns (ok: bool)
      requires Valid() && Calm() && |own| == 65 && |signature| <= 128
      modifies this`seqOut, this`posOut, this`output, this`room, this`drawn, this`sent, this`failed, outbuf
      ensures ok ==> Valid() && !Calm() && Switches(sent) == old(Switches(sent)) && old(sent) <= sent
      ensures ok ==> Kinds(sent) == old(Kinds(sent)) + [MSG_KEX_ECDH_REPLY, MSG_NEWKEYS]
      ensures ok ==> Carries(sent, |old(sent)|, ReplyBytes(own, signature))
      ensures (old(room) >= 2 * MOST ==> ok) && (ok ==> room >= old(room) - 2 * MOST) && failed == !ok
    {
      hide InValid, OutValid, KeysValid, Orderly, Switches, Kinds, Prefixed;
      ok := SendReply(own, signature);
      if !ok {
        return;
      }
      GrownKinds(old(sent), sent, ReplyBytes(own, signature));
      ghost var before := sent;
      var w := OutBegin(MSG_NEWKEYS);
      ok := OutSend(w);
      if ok {
        GrownKinds(before, sent, [MSG_NEWKEYS]);
      }
    }

    /** The reply and the server's NEWKEYS go out, the client's NEWKEYS comes in; all under the old keys. */
    method Announce(own: bytes, signature: bytes) returns (ok: bool)
      requires Valid() && Calm() && |own| == 65 && |signature| <= 128
      modifies this`seqOut, this`posOut, this`output, this`room, this`drawn, this`sent, this`failed, outbuf
      modifies this`seqIn, this`posIn, this`input, this`got, this`failed, inbuf
      ensures ok ==> Valid() && !Calm() && Switches(sent) == old(Switches(sent))
      ensures ok ==> old(got) <= got && old(sent) <= sent && |input| < |old(input)|
      ensures ok ==> Kinds(got) == old(Kinds(got)) + [MSG_NEWKEYS as int]
      ensures ok ==> Kinds(sent) == old(Kinds(sent)) + [MSG_KEX_ECDH_REPLY, MSG_NEWKEYS]
      ensures ok ==> Carries(sent, |old(sent)|, ReplyBytes(own, signature))
      ensures ok ==> room >= old(room) - 2 * MOST
      ensures (old(room) >= 2 * MOST ==> (ok <==> NewKeysFollow(x, old(In()), old(input)))) && failed == !ok
    {
      hide InValid, OutValid, KeysValid, Orderly, Switches, Kinds, Prefixed, Open, NewKeysFollow;
      ok := Reply(own, signature);
      if !ok {
        return;
      }
      ok := ReadNewKeys();
      if ok {
        GrownKinds(old(got), got, got[|old(got)|].payload);
      }
    }

    /** The reply and the change of keys. */
    method Finish(a: Agreement, signature: bytes, k: Keys) returns (ok: bool)
      requires Valid() && Calm() && haveSessionId && k.session == sessionId
      requires |a.own| == 65 && |signature| <= 128 && |k.secret| <= 80
      requires Switches(sent) == [] ==> k.exchange == sessionId
      modifies this`seqOut, this`posOut, this`output, this`room, this`drawn, this`sent
      modifies this`failed, this`kexinitServer, outbuf
      modifies this`seqIn, this`posIn, this`input, this`got, this`failed, inbuf
      modifies this`keyIn, this`keyOut, this`ivIn, this`ivOut, this`macIn, this`macOut, this`encrypted
      ensures ok ==> Valid() && Calm() && encrypted && kexinitServer == None
      ensures ok ==> Switches(sent) == old(Switches(sent)) + [k]
      ensures ok ==> Kinds(got) == old(Kinds(got)) + [MSG_NEWKEYS, SWITCH]
      ensures ok ==> old(got) <= got && old(sent) <= sent && |input| < |old(input)|
      ensures ok ==> Kinds(sent) == old(Kinds(sent)) + [MSG_KEX_ECDH_REPLY, MSG_NEWKEYS, SWITCH]
                                    + if old(encrypted) then [] else [MSG_EXT_INFO]
      ensures ok ==> Carries(sent, |old(sent)|, ReplyBytes(a.own, signature))
      ensures (old(room) >= 3 * MOST ==> (ok <==> NewKeysFollow(x, old(In()), old(input)))) && failed == !ok
    {
      hide InValid, OutValid, KeysValid, Orderly, Switches, Kinds, TextsBytes, Big32, Prefixed, Open, NewKeysFollow;
      hide ReplyBytes, Rekey;
      ok := Announce(a.own, signature);
      if !ok {
        return;
      }
      KindsSnoc(sent, Switch(k));
      KindsSnoc(got, Switch(k));
      SwitchesSnoc(sent, Switch(k));
      var first := !encrypted;
      SwitchKeys(k);
      kexinitServer := None;
      if first {
        ghost var before := sent;
        ok := SendExtInfo();
        if ok {
          GrownKinds(before, sent, [MSG_EXT_INFO] + Big32(1) + TextsBytes(EXTENSION));
        }
      }
    }

    /** The Diffie-Hellman step and the signature succeed for this point, with results that fit. */
    predicate Agrees(ecdh: bytes -> Option<Agreement>, sign: digest -> Option<bytes>, point: bytes, iClient: bytes,
                     iServer: bytes)
    {
      && |iClient| <= MAX_PACKET && |iServer| <= MAX_PACKET && |vClient| < 256 && |hostKey| <= 128 && |point| == 65
      && ecdh(point).Some? && |ecdh(point).value.own| == 65 && |ecdh(point).value.secret| <= 80
      && var signature := sign(x.hash(ExchangeHash(x, vClient, iClient, iServer, hostKey, point, ecdh(point).value)));
         signature.Some? && |signature.value| <= 128
    }

    /** The client's next packets are its point and NEWKEYS, and the steps between them succeed. */
    predicate Exchanges(h: Half, s: bytes, ecdh: bytes -> Option<Agreement>, sign: digest -> Option<bytes>,
                        iClient: bytes, iServer: bytes)
    {
      && PointFollows(x, h, s)
      && Agrees(ecdh, sign, TakeString(Open(x, h, s).payload, Cursor(1, false)).0, iClient, iServer)
      && NewKeysFollow(x, Open(x, h, s).half, Open(x, h, s).rest)
    }

    /** From the client's point to the new keys. */
    method Conclude(point: bytes, kexinitClient: bytes, ecdh: bytes -> Option<Agreement>, sign: digest -> Option<bytes>)
      returns (ok: bool)
      requires Valid() && Settled() && kexinitServer.Some? && |point| == 65 && |kexinitClient| <= MAX_PACKET
      modifies this`seqOut, this`posOut, this`output, this`room, this`drawn, this`sent
      modifies this`failed, this`kexinitServer, outbuf
      modifies this`seqIn, this`posIn, this`input, this`got, this`failed, inbuf
      modifies this`keyIn, this`keyOut, this`ivIn, this`ivOut, this`macIn, this`macOut, this`encrypted
      modifies this`sessionId, this`haveSessionId
      ensures old(haveSessionId) ==> haveSessionId && sessionId == old(sessionId)
      ensures ok ==> Valid() && Settled() && encrypted && kexinitServer == None
      ensures ok ==> old(got) <= got && old(sent) <= sent && |input| < |old(input)|
      ensures ok ==> Kinds(got) == old(Kinds(got)) + [MSG_NEWKEYS, SWITCH]
      ensures ok ==> Kinds(sent) == old(Kinds(sent)) + [MSG_KEX_ECDH_REPLY, MSG_NEWKEYS, SWITCH]
                                    + if old(encrypted) then [] else [MSG_EXT_INFO]
      ensures ok ==> Agrees(ecdh, sign, point, kexinitClient, old(kexinitServer).value)
      ensures ok ==> var a := ecdh(point).value;
                     var h := ExchangeHash(x, vClient, kexinitClient, old(kexinitServer).value, hostKey, point, a);
                     && Switches(sent) == old(Switches(sent)) + [Keys(a.secret, h, sessionId)]
                     && Carries(sent, |old(sent)|, ReplyBytes(a.own, sign(x.hash(h)).value))
      ensures failed == !ok
      ensures old(room) >= 3 * MOST ==>
                (ok <==> && Agrees(ecdh, sign, point, kexinitClient, old(kexinitServer).value)
                         && NewKeysFollow(x, old(In()), old(input)))
    {
      hide InValid, OutValid, KeysValid, Orderly, Kinds, Switches, Prefixed, Open, NewKeysFollow;
      var agreed := ecdh(point);
      if agreed.None? || |agreed.value.own| != 65 || |agreed.value.secret| > 80 {
        failed := true;
        return false;
      }
      var a := agreed.value;
      var h := ExchangeHash(x, vClient, kexinitClient, kexinitServer.value, hostKey, point, a);
      NameSession(h);
      var signature := sign(x.hash(h));
      if signature.None? || |signature.value| > 128 {
        failed := true;
        return false;
      }
      ok := Finish(a, signature.value, Keys(a.secret, h, sessionId));
    }

    /** A key exchange, started by the client's KEXINIT in the input buffer.  The Diffie-Hellman step and the
        signature are functions that may fail. */
    method DoKex(len: nat, cookie: bytes, ecdh: bytes -> Option<Agreement>, sign: digest -> Option<bytes>)
      returns (ok: bool, ghost point: bytes, ghost iServer: bytes)
      requires Valid() && Settled() && 1 <= len <= MAX_PACKET - 5 && |cookie| == 16
      modifies this`seqOut, this`posOut, this`output, this`room, this`drawn, this`sent
      modifies this`failed, this`kexinitServer, outbuf
      modifies this`seqIn, this`posIn, this`input, this`got, this`failed, inbuf
      modifies this`keyIn, this`keyOut, this`ivIn, this`ivOut, this`macIn, this`macOut, this`encrypted
      modifies this`sessionId, this`haveSessionId
      ensures old(haveSessionId) ==> haveSessionId && sessionId == old(sessionId)
      ensures ok ==> Valid() && Settled() && encrypted && kexinitServer == None && Common(old(inbuf[..len]))
      ensures ok ==> old(got) <= got && old(sent) <= sent && |input| < |old(input)|
      ensures ok ==> |got| >= |old(got)| + 3 && got[|old(got)|].Packet?
                     && TakeString(got[|old(got)|].payload, Cursor(1, false)) == (point, Cursor(70, false))
      ensures ok ==> Kinds(got) == old(Kinds(got)) + [MSG_KEX_ECDH_INIT, MSG_NEWKEYS, SWITCH]
      ensures ok ==> Kinds(sent) == old(Kinds(sent)) + (if old(kexinitServer).None? then [MSG_KEXINIT as int] else [])
                                    + [MSG_KEX_ECDH_REPLY, MSG_NEWKEYS, SWITCH]
                                    + if old(encrypted) then [] else [MSG_EXT_INFO]
      ensures ok ==> |point| == 65 && |iServer| <= OUT_CAP
      ensures ok ==> iServer == if old(kexinitServer).Some? then old(kexinitServer).value else Offer(cookie)
      ensures ok ==> ecdh(point).Some? && |ecdh(point).value.own| == 65 && |ecdh(point).value.secret| <= 80
      ensures ok ==> var h := ExchangeHash(x, vClient, old(inbuf[..len]), iServer, hostKey, point, ecdh(point).value);
                     && Switches(sent) == old(Switches(sent)) + [Keys(ecdh(point).value.secret, h, sessionId)]
                     && sign(x.hash(h)).Some? && |sign(x.hash(h)).value| <= 128
                     && Carries(sent, |old(sent)| + if old(kexinitServer).None? then 1 else 0,
                                ReplyBytes(ecdh(point).value.own, sign(x.hash(h)).value))
      ensures ok && old(kexinitServer).None? ==> Carries(sent, |old(sent)|, Offer(cookie))
      ensures failed == !ok
      ensures old(room) >= 4 * MOST ==>
                (ok <==> Common(old(inbuf[..len]))
                         && Exchanges(old(In()), old(input), ecdh, sign, old(inbuf[..len]),
                                      if old(kexinitServer).Some? then old(kexinitServer).value else Offer(cookie)))
    {
      hide InValid, OutValid, KeysValid, Orderly, Common, TakeString, Kinds, Switches, Offer, Prefixed, Open, IsPoint;
      hide NewKeysFollow;
      iServer := [];
      var kexinitClient := inbuf[..len];
      var qc;
      ok, qc := Negotiate(len, cookie);
      point := qc;
      if !ok {
        return;
      }
      iServer := kexinitServer.value;
      if old(kexinitServer).None? {
        OfferStarts(cookie);
        GrownKinds(old(sent), sent, iServer);
      }
      GrownKinds(old(got), got, got[|old(got)|].payload);
      ok := Conclude(qc, kexinitClient, ecdh, sign);
    }

    /** The first exchange names the session. */
    method NameSession(h: digest)
      requires Valid() && Settled()
      modifies this`sessionId, this`haveSessionId
      ensures Valid() && haveSessionId && (Switches(sent) == [] ==> sessionId == h)
      ensures old(haveSessionId) ==> sessionId == old(sessionId)
    {
      hide InValid, OutValid, Switches;
      if !haveSessionId {
        sessionId, haveSessionId := h, true;
      }
    }
  }

  lemma Inner(s: bytes, n: nat, i: nat, j: nat)
    requires i <= j <= n <= |s|
    ensures s[..n][i..j] == s[i..j]
  {
  }

  lemma NoCommas()
    ensures COMMA !in Ascii(KEX) && COMMA !in Ascii(HOST_KEY) && COMMA !in Ascii(CIPHER)
  {
    NoComma(KEX);
    NoComma(HOST_KEY);
    NoComma(CIPHER);
  }

  lemma NoComma(s: string)
    requires forall k :: 0 <= k < |s| ==> s[k] != ',' && s[k] < 'z'
    ensures COMMA !in Ascii(s)
  {
    assert ',' as int == COMMA && 'z' as int < 0x100;
  }
}

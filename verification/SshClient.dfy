/**
  The other side of the SSH connection: how a client writes its messages and reads those of the server, and what the
  hashes of a key exchange cover.  Numbers, letters and names are written out here, so that the server has to agree
  with them.
 */
module SshClient {
  import opened Machine
  import opened Options
  import opened Protocol
  import opened Codec
  import opened NameList
  import opened Stream
  import T = Transport
  import C = Connection
  import H = Channel

  // Hashes.

  /** Everything that the exchange hash covers, in the order of section 4 of RFC 5656. */
  function HashedFields(vClient: bytes, iClient: bytes, iServer: bytes, hostKey: bytes, point: bytes, a: C.Agreement)
    : (fs: seq<Field>)
    requires |vClient| < TWO_32 && |iClient| < TWO_32 && |iServer| < TWO_32 && |hostKey| < TWO_32 && |point| < TWO_32
    requires |a.own| < TWO_32 && |a.secret| < TWO_32
    ensures AllStorable(fs)
  {
    [Str(vClient), Str(Ascii("SSH-2.0-OYOBYOK_1.1.0")), Str(iClient), Str(iServer),
     Str(hostKey), Str(point), Str(a.own), Str(a.secret)]
  }

  lemma StringsBytes(fs: seq<Field>, k: nat)
    requires AllStorable(fs) && k < |fs| && fs[k].Str?
    ensures EncodeAll(fs[..k + 1]) == EncodeAll(fs[..k]) + Prefixed(fs[k].s)
  {
    hide EncodeAll, Big32;
    assert fs[..k + 1] == fs[..k] + [fs[k]];
    EncodeSnoc(fs[..k], fs[k]);
  }

  /** What is hashed reads back as these eight strings, and nothing else is hashed. */
  lemma ExchangeHashCovers(x: T.Crypto, vClient: bytes, iClient: bytes, iServer: bytes, hostKey: bytes, point: bytes,
                           a: C.Agreement)
    requires |vClient| < TWO_32 && |iClient| < TWO_32 && |iServer| < TWO_32 && |hostKey| < TWO_32 && |point| < TWO_32
    requires |a.own| < TWO_32 && |a.secret| < TWO_32
    ensures var fs := HashedFields(vClient, iClient, iServer, hostKey, point, a);
            var t := EncodeAll(fs);
            && C.ExchangeHash(x, vClient, iClient, iServer, hostKey, point, a) == x.hash(t)
            && TakeAll(fs, t, Cursor(0, false)) == (fs, Cursor(|t|, false))
  {
    hide EncodeAll, Prefixed, Ascii, TakeAll;
    var fs := HashedFields(vClient, iClient, iServer, hostKey, point, a);
    EncodeNothing();
    assert fs[..0] == [] && fs[..8] == fs;
    StringsBytes(fs, 0);
    StringsBytes(fs, 1);
    StringsBytes(fs, 2);
    StringsBytes(fs, 3);
    StringsBytes(fs, 4);
    StringsBytes(fs, 5);
    StringsBytes(fs, 6);
    StringsBytes(fs, 7);
    assert [] + Prefixed(vClient) == Prefixed(vClient);
    TakeAllInverts(fs, [], []);
    assert [] + EncodeAll(fs) + [] == EncodeAll(fs);
  }

  /** The secret as a field, the exchange hash, a letter and the session identifier, hashed. */
  function KeyOf(x: T.Crypto, k: T.Keys, letter: char): T.digest
    requires |k.secret| < TWO_32
  {
    x.hash(Encode(Str(k.secret)) + k.exchange + Ascii([letter]) + k.session)
  }

  lemma Letter(x: T.Crypto, k: T.Keys, letter: char, b: u8)
    requires |k.secret| < TWO_32 && letter as int == b
    ensures T.Derive(x, k, b) == KeyOf(x, k, letter)
  {
    assert Ascii([letter]) == [b];
  }

  /** The six keys of section 7.2 of RFC 4253, a letter for each. */
  lemma KeysByLetter(x: T.Crypto, h: T.Half, k: T.Keys)
    requires |k.secret| < TWO_32
    ensures T.Rekey(x, T.FromClient, h, k)
            == T.Half(h.seqno, true, KeyOf(x, k, 'C')[..16], KeyOf(x, k, 'A')[..16], 0, KeyOf(x, k, 'E'))
    ensures T.Rekey(x, T.ToClient, h, k)
            == T.Half(h.seqno, true, KeyOf(x, k, 'D')[..16], KeyOf(x, k, 'B')[..16], 0, KeyOf(x, k, 'F'))
  {
    hide KeyOf, T.Derive;
    Letter(x, k, 'A', 65);
    Letter(x, k, 'B', 66);
    Letter(x, k, 'C', 67);
    Letter(x, k, 'D', 68);
    Letter(x, k, 'E', 69);
    Letter(x, k, 'F', 70);
  }

  /** Two exchanges with the same hash agree in every part, unless the hash has a collision. */
  lemma SameHashSameExchange(x: T.Crypto, fs: seq<Field>, gs: seq<Field>)
    requires AllStorable(fs) && AllStorable(gs)
    requires |fs| == |gs| && forall k :: 0 <= k < |fs| ==> fs[k].Str? && gs[k].Str?
    requires x.hash(EncodeAll(fs)) == x.hash(EncodeAll(gs))
    ensures fs == gs || EncodeAll(fs) != EncodeAll(gs)
  {
    hide EncodeAll, TakeAll;
    if EncodeAll(fs) == EncodeAll(gs) {
      TakeAllInverts(fs, [], []);
      TakeAllInverts(gs, [], []);
      assert [] + EncodeAll(fs) + [] == [] + EncodeAll(gs) + [];
      SameKinds(fs, gs, [] + EncodeAll(fs) + [], Cursor(0, false));
    }
  }

  lemma {:induction false} SameKinds(fs: seq<Field>, gs: seq<Field>, s: bytes, c: Cursor)
    requires |fs| == |gs| && forall k :: 0 <= k < |fs| ==> fs[k].Str? && gs[k].Str?
    ensures TakeAll(fs, s, c) == TakeAll(gs, s, c)
    decreases |fs|
  {
    hide TakeString;
    if fs != [] {
      SameKinds(fs[1..], gs[1..], s, Take(fs[0], s, c).1);
    }
  }

  // Messages of the server.

  datatype Message =
    | Unknown
    | Unimplemented(number: u32)
    | Reply(hostKey: bytes, point: bytes, signature: bytes)
    | NoGlobal
    | Confirmed(recipient: u32, sender: u32, window: u32, limit: u32)
    | NotOpened(recipient: u32, reason: u32, text: bytes, language: bytes)
    | Granted(recipient: u32, more: u32)
    | Carried(recipient: u32, data: bytes)
    | EndOfFile(recipient: u32)
    | Closed(recipient: u32)
    | Succeeded(recipient: u32)
    | Failed(recipient: u32)

  /** A message by its number (RFC 4253, 4254 and 5656). */
  function ReadBody(kind: u8, s: bytes, c: Cursor): (Message, Cursor) {
    if kind == 31 then
      var (a, c1) := TakeString(s, c);
      var (b, c2) := TakeString(s, c1);
      var (d, c3) := TakeString(s, c2);
      (Reply(a, b, d), c3)
    else if kind == 82 then (NoGlobal, c)
    else
      var (n, c1) := TakeU32(s, c);
      if kind == 3 then (Unimplemented(n), c1)
      else if kind == 96 then (EndOfFile(n), c1)
      else if kind == 97 then (Closed(n), c1)
      else if kind == 99 then (Succeeded(n), c1)
      else if kind == 100 then (Failed(n), c1)
      else if kind == 94 then
        var (d, c2) := TakeString(s, c1);
        (Carried(n, d), c2)
      else
        var (m, c2) := TakeU32(s, c1);
        if kind == 93 then (Granted(n, m), c2)
        else if kind == 91 then
          var (w, c3) := TakeU32(s, c2);
          var (l, c4) := TakeU32(s, c3);
          (Confirmed(n, m, w, l), c4)
        else if kind == 92 then
          var (t, c3) := TakeString(s, c2);
          var (l, c4) := TakeString(s, c3);
          (NotOpened(n, m, t, l), c4)
        else (Unknown, c2)
  }

  /** A message has to end where its last field ends. */
  function ReadMessage(s: bytes): Message {
    var (kind, c) := TakeU8(s, Cursor(0, false));
    var (m, end) := ReadBody(kind, s, c);
    if end == Cursor(|s|, false) then m else Unknown
  }

  /** A message as fields after its number. */
  lemma Numbered(kind: u8, fs: seq<Field>, s: bytes)
    requires AllStorable(fs) && s == [kind] + EncodeAll(fs)
    ensures TakeU8(s, Cursor(0, false)) == (kind, Cursor(1, false))
    ensures forall k :: 0 <= k < |fs| ==>
              Take(fs[k], s, Cursor(FieldPlace(fs, [kind], k), false))
              == (fs[k], Cursor(FieldPlace(fs, [kind], k + 1), false))
    ensures FieldPlace(fs, [kind], 0) == 1 && FieldPlace(fs, [kind], |fs|) == |s|
  {
    hide EncodeAll, Take, FieldPlace;
    EachField(fs, [kind], []);
    assert [kind] + EncodeAll(fs) + [] == s;
  }

  lemma OneNumber(kind: u8, n: u32)
    requires kind in {3, 96, 97, 99, 100}
    ensures ReadMessage([kind] + Big32(n))
            == if kind == 3 then Unimplemented(n) else if kind == 96 then EndOfFile(n) else if kind == 97 then Closed(n)
               else if kind == 99 then Succeeded(n) else Failed(n)
  {
    hide TakeU32, FieldPlace, EncodeAll, Big32;
    var fs := [U32(n)];
    OneField(U32(n), [], []);
    Numbered(kind, fs, [kind] + Big32(n));
    assert Take(fs[0], [kind] + Big32(n), Cursor(1, false)) == (fs[0], Cursor(FieldPlace(fs, [kind], 1), false));
  }

  lemma TwoNumbers(n: u32, m: u32)
    ensures ReadMessage([93] + (Big32(n) + Big32(m))) == Granted(n, m)
  {
    hide TakeU32, FieldPlace, EncodeAll, Big32;
    var fs := [U32(n), U32(m)];
    var s := [93] + (Big32(n) + Big32(m));
    OneField(U32(n), [], []);
    EncodeSnoc([U32(n)], U32(m));
    assert [U32(n)] + [U32(m)] == fs;
    Numbered(93, fs, s);
    var p := FieldPlace(fs, [93], 1);
    assert Take(fs[0], s, Cursor(1, false)) == (fs[0], Cursor(p, false));
    assert Take(fs[1], s, Cursor(p, false)) == (fs[1], Cursor(|s|, false));
  }

  lemma ConfirmationReadsBack(id: u32)
    ensures ReadMessage([91] + H.Confirmation(id)) == Confirmed(id, 0, 256 * 1024, 32 * 1024)
  {
    hide TakeU32, FieldPlace, EncodeAll, Big32;
    var a, b, c, d := U32(id), U32(0), U32(256 * 1024), U32(32 * 1024);
    var fs := [a, b, c, d];
    var s := [91] + H.Confirmation(id);
    OneField(a, [], []);
    EncodeSnoc([a], b);
    EncodeSnoc([a, b], c);
    EncodeSnoc([a, b, c], d);
    assert [a] + [b] == [a, b] && [a, b] + [c] == [a, b, c] && [a, b, c] + [d] == fs;
    Numbered(91, fs, s);
    var p, q, r := FieldPlace(fs, [91], 1), FieldPlace(fs, [91], 2), FieldPlace(fs, [91], 3);
    assert Take(fs[0], s, Cursor(1, false)) == (fs[0], Cursor(p, false));
    assert Take(fs[1], s, Cursor(p, false)) == (fs[1], Cursor(q, false));
    assert Take(fs[2], s, Cursor(q, false)) == (fs[2], Cursor(r, false));
    assert Take(fs[3], s, Cursor(r, false)) == (fs[3], Cursor(|s|, false));
  }

  /** Reason 1: administratively prohibited. */
  lemma FailureReadsBack(id: u32)
    ensures ReadMessage([92] + H.OpenFailure(id)) == NotOpened(id, 1, Ascii("one session only"), [])
  {
    hide TakeU32, TakeString, FieldPlace, EncodeAll, Big32, Ascii;
    var t := Ascii("one session only");
    var a, b, c, d := U32(id), U32(1), Str(t), Str([]);
    var fs := [a, b, c, d];
    var s := [92] + H.OpenFailure(id);
    OneField(a, [], []);
    EncodeSnoc([a], b);
    EncodeSnoc([a, b], c);
    EncodeSnoc([a, b, c], d);
    assert [a] + [b] == [a, b] && [a, b] + [c] == [a, b, c] && [a, b, c] + [d] == fs;
    assert Big32(id) + Big32(1) + Prefixed(t) + Prefixed([]) == H.OpenFailure(id);
    Numbered(92, fs, s);
    var p, q, r := FieldPlace(fs, [92], 1), FieldPlace(fs, [92], 2), FieldPlace(fs, [92], 3);
    assert Take(fs[0], s, Cursor(1, false)) == (fs[0], Cursor(p, false));
    assert Take(fs[1], s, Cursor(p, false)) == (fs[1], Cursor(q, false));
    assert Take(fs[2], s, Cursor(q, false)) == (fs[2], Cursor(r, false));
    assert Take(fs[3], s, Cursor(r, false)) == (fs[3], Cursor(|s|, false));
  }

  /** A piece of a reply is addressed to the channel of the client, and is whole. */
  lemma DataReadsBack(id: u32, d: bytes)
    requires |d| <= OUT_CAP - 9
    ensures ReadMessage(H.DataMessage(id, d)) == Carried(id, d)
  {
    hide TakeU32, TakeString, FieldPlace, EncodeAll, Big32;
    var fs := [U32(id), Str(d)];
    var s := H.DataMessage(id, d);
    OneField(U32(id), [], []);
    EncodeSnoc([U32(id)], Str(d));
    assert [U32(id)] + [Str(d)] == fs;
    DataLayout(id, d);
    Numbered(94, fs, s);
    var p := FieldPlace(fs, [94], 1);
    assert Take(fs[0], s, Cursor(1, false)) == (fs[0], Cursor(p, false));
    assert Take(fs[1], s, Cursor(p, false)) == (fs[1], Cursor(|s|, false));
  }

  lemma DataLayout(id: u32, d: bytes)
    requires |d| <= OUT_CAP - 9
    ensures H.DataMessage(id, d) == [94] + (Big32(id) + (Big32(|d|) + d))
  {
    hide Big32;
  }

  /** The reply to the client's point: host key, point of the server, signature. */
  lemma ReplyReadsBack(n: C.Conn, own: bytes, signature: bytes)
    requires |n.hostKey| < TWO_32 && |own| < TWO_32 && |signature| < TWO_32
    ensures ReadMessage(n.ReplyBytes(own, signature)) == Reply(n.hostKey, own, signature)
  {
    hide TakeString, FieldPlace, EncodeAll, Big32;
    var a, b, c := Str(n.hostKey), Str(own), Str(signature);
    var fs := [a, b, c];
    var s := n.ReplyBytes(own, signature);
    OneField(a, [], []);
    EncodeSnoc([a], b);
    EncodeSnoc([a, b], c);
    assert [a] + [b] == [a, b] && [a, b] + [c] == fs;
    assert s == [31] + (Prefixed(n.hostKey) + Prefixed(own) + Prefixed(signature));
    Numbered(31, fs, s);
    var p, q := FieldPlace(fs, [31], 1), FieldPlace(fs, [31], 2);
    assert Take(fs[0], s, Cursor(1, false)) == (fs[0], Cursor(p, false));
    assert Take(fs[1], s, Cursor(p, false)) == (fs[1], Cursor(q, false));
    assert Take(fs[2], s, Cursor(q, false)) == (fs[2], Cursor(|s|, false));
  }

  /** The accounts of the channel count what the client reads: the windows it is offered and the data it gets. */
  lemma CountedAsRead(p: bytes)
    ensures var m := ReadMessage(p);
            && (m.Confirmed? ==> H.OfferOf(p) == m.window)
            && (m.Granted? ==> H.OfferOf(p) == m.more)
            && (m.Carried? ==> DataOf(p) == m.data && H.OfferOf(p) == 0)
  {
    hide Value32;
  }

  // Messages of the client.

  datatype Ask =
    | OpenSession(kind: string, sender: u32, window: u32, limit: u32)
    | Start(channel: u32, request: string, want: bool, subsystem: string)
    | Global(name: string, want: bool)
    | Carry(channel: u32, data: bytes)
    | Grant(channel: u32, more: u32)
    | Finish(channel: u32)
    | Close(channel: u32)

  predicate Short(q: Ask) {
    match q
    case OpenSession(kind, _, _, _) => |kind| < TWO_32
    case Start(_, request, _, subsystem) => |request| < TWO_32 && |subsystem| < TWO_32
    case Global(name, _) => |name| < TWO_32
    case Carry(_, data) => |data| < TWO_32
    case _ => true
  }

  function Flag(b: bool): Field {
    U8(if b then 1 else 0)
  }

  /** Sections 4 to 6 of RFC 4254. */
  function AskFields(q: Ask): (fs: seq<Field>)
    requires Short(q)
    ensures AllStorable(fs)
  {
    match q
    case OpenSession(kind, sender, window, limit) =>
      [U8(90), Str(Ascii(kind)), U32(sender), U32(window), U32(limit)]
    case Start(channel, request, want, subsystem) =>
      [U8(98), U32(channel), Str(Ascii(request)), Flag(want), Str(Ascii(subsystem))]
    case Global(name, want) => [U8(80), Str(Ascii(name)), Flag(want)]
    case Carry(channel, data) => [U8(94), U32(channel), Str(data)]
    case Grant(channel, more) => [U8(93), U32(channel), U32(more)]
    case Finish(channel) => [U8(96), U32(channel)]
    case Close(channel) => [U8(97), U32(channel)]
  }

  function AskBytes(q: Ask): bytes
    requires Short(q)
  {
    EncodeAll(AskFields(q))
  }

  /** The server reads the fields of a request to open a channel as they were meant. */
  lemma OpenIsRead(kind: string, sender: u32, window: u32, limit: u32)
    requires |kind| < TWO_32
    ensures var p := AskBytes(OpenSession(kind, sender, window, limit));
            H.Is(p, 90) && H.OpenFields(p) == (Ascii(kind), sender, window, limit, true)
  {
    hide TakeU32, TakeString, EncodeAll, Ascii, FieldAt, Encode;
    var fs := AskFields(OpenSession(kind, sender, window, limit));
    var p := EncodeAll(fs);
    WholeMessage(fs);
    FirstByte(fs);
    assert Take(fs[1], p, FieldAt(fs, 1)) == (fs[1], FieldAt(fs, 2));
    assert Take(fs[2], p, FieldAt(fs, 2)) == (fs[2], FieldAt(fs, 3));
    assert Take(fs[3], p, FieldAt(fs, 3)) == (fs[3], FieldAt(fs, 4));
    assert Take(fs[4], p, FieldAt(fs, 4)) == (fs[4], FieldAt(fs, 5));
  }

  /** The first byte of a message. */
  lemma FirstByte(fs: seq<Field>)
    requires AllStorable(fs) && fs != [] && fs[0].U8?
    ensures H.Is(EncodeAll(fs), fs[0].b) && FieldAt(fs, 1) == Cursor(1, false)
  {
    hide Encode;
    OneField(fs[0], [], []);
    assert fs[..1] == [fs[0]];
    assert EncodeAll([fs[0]]) == [fs[0].b] by {
      assert Encode(fs[0]) == [fs[0].b];
    }
  }

  lemma StartIsRead(channel: u32, request: string, want: bool, subsystem: string)
    requires |request| < TWO_32 && |subsystem| < TWO_32
    ensures var p := AskBytes(Start(channel, request, want, subsystem));
            && H.Is(p, 98) && TakeU8(p, TakeString(p, H.AfterChannel(p)).1).0 == (if want then 1 else 0)
            && (H.AsksForSftp(p) <==> Ascii(request) == Ascii("subsystem") && Ascii(subsystem) == Ascii("sftp"))
  {
    hide TakeU8, TakeU32, TakeString, EncodeAll, Ascii, FieldAt, Encode;
    var fs := AskFields(Start(channel, request, want, subsystem));
    var p := EncodeAll(fs);
    WholeMessage(fs);
    FirstByte(fs);
    assert Take(fs[1], p, FieldAt(fs, 1)) == (fs[1], FieldAt(fs, 2));
    assert Take(fs[2], p, FieldAt(fs, 2)) == (fs[2], FieldAt(fs, 3));
    assert Take(fs[3], p, FieldAt(fs, 3)) == (fs[3], FieldAt(fs, 4));
    assert Take(fs[4], p, FieldAt(fs, 4)) == (fs[4], FieldAt(fs, 5));
    assert FieldAt(fs, 5).bad == false by {
      assert FieldAt(fs, |fs|) == Cursor(|p|, false);
    }
  }

  lemma GlobalIsRead(name: string, want: bool)
    requires |name| < TWO_32
    ensures var p := AskBytes(Global(name, want));
            H.Is(p, 80) && TakeU8(p, TakeString(p, Cursor(1, false)).1).0 == if want then 1 else 0
  {
    hide TakeU8, TakeString, EncodeAll, Ascii, FieldAt, Encode;
    var fs := AskFields(Global(name, want));
    var p := EncodeAll(fs);
    WholeMessage(fs);
    FirstByte(fs);
    assert Take(fs[1], p, FieldAt(fs, 1)) == (fs[1], FieldAt(fs, 2));
    assert Take(fs[2], p, FieldAt(fs, 2)) == (fs[2], FieldAt(fs, 3));
  }

  lemma NumbersAreRead(channel: u32, more: u32, data: bytes)
    requires |data| < TWO_32
    ensures var p := AskBytes(Carry(channel, data)); H.Is(p, 94) && H.DataIn(p) == data
    ensures var p := AskBytes(Grant(channel, more)); H.Is(p, 93) && TakeU32(p, H.AfterChannel(p)).0 == more
    ensures H.Is(AskBytes(Finish(channel)), 96) && H.Is(AskBytes(Close(channel)), 97)
  {
    hide TakeU32, TakeString, EncodeAll, FieldAt, Encode;
    FirstByte(AskFields(Finish(channel)));
    FirstByte(AskFields(Close(channel)));
    var fs, gs := AskFields(Carry(channel, data)), AskFields(Grant(channel, more));
    var p, q := EncodeAll(fs), EncodeAll(gs);
    WholeMessage(fs);
    FirstByte(fs);
    assert Take(fs[1], p, FieldAt(fs, 1)) == (fs[1], FieldAt(fs, 2));
    assert Take(fs[2], p, FieldAt(fs, 2)) == (fs[2], FieldAt(fs, 3));
    WholeMessage(gs);
    FirstByte(gs);
    assert Take(gs[1], q, FieldAt(gs, 1)) == (gs[1], FieldAt(gs, 2));
    assert Take(gs[2], q, FieldAt(gs, 2)) == (gs[2], FieldAt(gs, 3));
  }

  /** The accounts of the channel are kept by what the client asked: number, window and limit of the channel it opened
      (the limit at least 1024), what it grants, and what it uses of the window of the server. */
  lemma AccountsAsAsked(b: H.Book, q: Ask)
    requires Short(q)
    ensures var c := H.EnterIn(b, AskBytes(q));
            && (q.OpenSession? && !b.open && Ascii(q.kind) == Ascii("session") ==>
                  && c.open && c.peer == q.sender && c.granted == q.window
                  && c.spent == 0 && c.offered == 0 && c.used == 0
                  && c.limit == if q.limit < 1024 then 1024 else q.limit)
            && (q.OpenSession? && (b.open || Ascii(q.kind) != Ascii("session")) ==> c == b)
            && (q.Grant? ==> c.granted == b.granted + q.more && c == b.(granted := c.granted, exact := c.exact))
            && (q.Carry? && b.started ==>
                  c.used == b.used + |q.data| && c == b.(used := c.used, polite := c.polite))
            && (q.Carry? && !b.started ==> c == b)
            && (q.Start? ==>
                  c == b.(started := b.started || (Ascii(q.request) == Ascii("subsystem")
                                                   && Ascii(q.subsystem) == Ascii("sftp"))))
  {
    hide AskBytes, H.OpenFields, H.DataIn, TakeU32, Ascii, H.AsksForSftp, H.AfterChannel;
    match q
    case OpenSession(kind, sender, window, limit) => OpenIsRead(kind, sender, window, limit);
    case Grant(channel, more) => NumbersAreRead(channel, more, []);
    case Carry(channel, data) => NumbersAreRead(channel, 0, data); H.NotARequest(AskBytes(q));
    case Start(channel, request, want, subsystem) => StartIsRead(channel, request, want, subsystem);
    case _ =>
  }

  // Question and answer.

  function ReadAll(ps: seq<bytes>): (ms: seq<Message>)
    ensures |ms| == |ps|
  {
    seq(|ps|, k requires 0 <= k < |ps| => ReadMessage(ps[k]))
  }

  /** What a client that sends a message reads in the packets that the server sends at once. */
  function Answer(q: Ask, open: bool, closed: bool, started: bool, id: u32, window: u32, number: u32): seq<Message>
    requires Short(q)
  {
    ReadAll(H.Reaction(AskBytes(q), open, closed, started, id, window, number))
  }

  /** One session at a time, of no other kind; the client is told the number it gave, ours, our window and limit. */
  lemma OpenIsAnswered(q: Ask, open: bool, closed: bool, started: bool, id: u32, window: u32, number: u32)
    requires q.OpenSession? && Short(q)
    ensures Answer(q, open, closed, started, id, window, number)
            == if open || Ascii(q.kind) != Ascii("session") then
                 [NotOpened(q.sender, 1, Ascii("one session only"), [])]
               else [Confirmed(q.sender, 0, 256 * 1024, 32 * 1024)]
  {
    hide ReadMessage, AskBytes, H.Confirmation, H.OpenFailure, H.OpenFields, Ascii;
    OpenIsRead(q.kind, q.sender, q.window, q.limit);
    ConfirmationReadsBack(q.sender);
    FailureReadsBack(q.sender);
  }

  /** The subsystem is started once; the answer goes to the channel of the client, if it wants one. */
  lemma StartIsAnswered(q: Ask, open: bool, closed: bool, started: bool, id: u32, window: u32, number: u32)
    requires q.Start? && Short(q)
    ensures Answer(q, open, closed, started, id, window, number)
            == if !q.want then []
               else if Ascii(q.request) == Ascii("subsystem") && Ascii(q.subsystem) == Ascii("sftp") && !started then
                 [Succeeded(id)]
               else [Failed(id)]
  {
    hide ReadMessage, AskBytes, H.AsksForSftp, Ascii, TakeU8, TakeString, H.AfterChannel, Big32;
    StartIsRead(q.channel, q.request, q.want, q.subsystem);
    OneNumber(99, id);
    OneNumber(100, id);
  }

  /** The window is filled up when less than half of it is left. */
  lemma DataIsAnswered(q: Ask, open: bool, closed: bool, started: bool, id: u32, window: u32, number: u32)
    requires q.Carry? && Short(q)
    ensures Answer(q, open, closed, started, id, window, number)
            == if started && Word32(window - |q.data|) < 128 * 1024 then [Granted(id, 256 * 1024)] else []
  {
    hide ReadMessage, AskBytes, H.DataIn, Big32;
    NumbersAreRead(q.channel, 0, q.data);
    TwoNumbers(id, 256 * 1024);
  }

  lemma OthersAreAnswered(q: Ask, open: bool, closed: bool, started: bool, id: u32, window: u32, number: u32)
    requires Short(q)
    ensures var r := Answer(q, open, closed, started, id, window, number);
            && (q.Global? ==> r == if q.want then [NoGlobal] else [])
            && (q.Grant? ==> r == [])
            && (q.Finish? || q.Close? ==> r == if closed then [] else [EndOfFile(id), Closed(id)])
  {
    hide AskBytes, Big32, TakeString, TakeU8;
    match q
    case Global(name, want) => GlobalIsRead(name, want); GlobalReadsBack();
    case Grant(channel, more) => NumbersAreRead(channel, more, []);
    case Finish(channel) => NumbersAreRead(channel, 0, []); EndsReadBack(id);
    case Close(channel) => NumbersAreRead(channel, 0, []); EndsReadBack(id);
    case _ =>
  }

  lemma GlobalReadsBack()
    ensures ReadAll([[MSG_REQUEST_FAILURE]]) == [NoGlobal]
  {
  }

  lemma EndsReadBack(id: u32)
    ensures ReadAll([[MSG_CHANNEL_EOF] + Big32(id), [MSG_CHANNEL_CLOSE] + Big32(id)]) == [EndOfFile(id), Closed(id)]
  {
    hide ReadMessage, Big32;
    OneNumber(96, id);
    OneNumber(97, id);
  }

  /** A packet of a kind that the server does not know is answered with its sequence number. */
  lemma UnknownIsAnswered(p: bytes, open: bool, closed: bool, started: bool, id: u32, window: u32, number: u32)
    requires p == [] || p[0] !in {1, 2, 3, 4, 7, 80, 90, 93, 94, 96, 97, 98}
    ensures ReadAll(H.Reaction(p, open, closed, started, id, window, number))
            == [Unimplemented(if number == 0 then 0xffff_ffff else number - 1)]
  {
    hide ReadMessage, Big32;
    OneNumber(3, Word32(number - 1));
  }

  // Offers.

  /** A KEXINIT (section 7.1 of RFC 4253): a cookie, ten lists of names, a flag and a number. */
  function OfferFields(lists: seq<bytes>, follows: bool): (fs: seq<Field>)
    requires |lists| == 10 && forall k :: 0 <= k < 10 ==> |lists[k]| < TWO_32
    ensures AllStorable(fs)
  {
    seq(10, k requires 0 <= k < 10 => Str(lists[k])) + [Flag(follows), U32(0)]
  }

  function OfferBytes(cookie: bytes, lists: seq<bytes>, follows: bool): bytes
    requires |lists| == 10 && forall k :: 0 <= k < 10 ==> |lists[k]| < TWO_32
  {
    [20] + cookie + EncodeAll(OfferFields(lists, follows))
  }

  /** The exchange goes on exactly if the client names these three: for the exchange, for the host key, and for the
      cipher towards the server. */
  lemma OfferIsRead(cookie: bytes, lists: seq<bytes>, follows: bool)
    requires |cookie| == 16 && |lists| == 10 && forall k :: 0 <= k < 10 ==> |lists[k]| < TWO_32
    ensures C.Common(OfferBytes(cookie, lists, follows))
            <==> Ascii("ecdh-sha2-nistp256") in Names(lists[0]) && Ascii("ecdsa-sha2-nistp256") in Names(lists[1])
                 && Ascii("aes128-ctr") in Names(lists[2])
  {
    hide TakeString, EncodeAll, FieldPlace, Names, Ascii;
    var fs := OfferFields(lists, follows);
    var head := [20] + cookie;
    var p := head + EncodeAll(fs);
    EachField(fs, head, []);
    assert p + [] == p && OfferBytes(cookie, lists, follows) == p;
    var a, b, c := FieldPlace(fs, head, 1), FieldPlace(fs, head, 2), FieldPlace(fs, head, 3);
    assert Take(fs[0], p, Cursor(17, false)) == (fs[0], Cursor(a, false));
    assert Take(fs[1], p, Cursor(a, false)) == (fs[1], Cursor(b, false));
    assert Take(fs[2], p, Cursor(b, false)) == (fs[2], Cursor(c, false));
  }

  /** The lists that the server offers. */
  function ServerLists(): (ls: seq<bytes>)
    ensures |ls| == 10 && forall k :: 0 <= k < 10 ==> |ls[k]| < TWO_32
  {
    [Ascii("ecdh-sha2-nistp256,ext-info-s"), Ascii("ecdsa-sha2-nistp256"), Ascii("aes128-ctr"), Ascii("aes128-ctr"),
     Ascii("hmac-sha2-256"), Ascii("hmac-sha2-256"), Ascii("none"), Ascii("none"), [], []]
  }

  function Strings(texts: seq<string>): (fs: seq<Field>)
    requires C.Short(texts)
    ensures AllStorable(fs) && |fs| == |texts|
  {
    seq(|texts|, k requires 0 <= k < |texts| => Str(Ascii(texts[k])))
  }

  lemma {:induction false} TextsAreStrings(texts: seq<string>)
    requires C.Short(texts)
    ensures C.TextsBytes(texts) == EncodeAll(Strings(texts))
    decreases |texts|
  {
    hide EncodeAll, Ascii, Big32;
    if texts == [] {
      EncodeNothing();
    } else {
      var init, last := texts[..|texts| - 1], texts[|texts| - 1];
      TextsAreStrings(init);
      EncodeSnoc(Strings(init), Str(Ascii(last)));
      assert Strings(texts) == Strings(init) + [Str(Ascii(last))];
    }
  }

  /** The server's offer reads back as these lists, with no guess to follow; it names what it asks of a client. */
  lemma ServerOffers(cookie: bytes)
    requires |cookie| == 16
    ensures C.Offer(cookie) == OfferBytes(cookie, ServerLists(), false)
    ensures C.Common(C.Offer(cookie))
  {
    hide EncodeAll, Ascii, C.Common, Big32, C.TextsBytes, Names;
    TextsAreStrings(C.OFFERED);
    assert Ascii("") == [] by {
      EmptyText();
    }
    var lists, tail := Strings(C.OFFERED), [Flag(false), U32(0)];
    assert lists + tail == OfferFields(ServerLists(), false);
    EncodeAppend(lists, tail);
    OneField(Flag(false), [], []);
    EncodeSnoc([Flag(false)], U32(0));
    assert [Flag(false)] + [U32(0)] == tail;
    OfferIsRead(cookie, ServerLists(), false);
    OwnNames();
  }

  lemma EmptyText()
    ensures Ascii("") == []
  {
  }

  lemma OwnNames()
    ensures Ascii("ecdh-sha2-nistp256") in Names(ServerLists()[0])
    ensures Ascii("ecdsa-sha2-nistp256") in Names(ServerLists()[1])
    ensures Ascii("aes128-ctr") in Names(ServerLists()[2])
  {
    hide Ascii, Names;
    C.NoCommas();
    var kex, more := Ascii("ecdh-sha2-nistp256"), Ascii("ecdh-sha2-nistp256,ext-info-s");
    assert more[..18] == kex && more[18] == COMMA by {
      FirstName();
    }
    NameStands(more, kex, 0);
    WholeName(Ascii("ecdsa-sha2-nistp256"));
    WholeName(Ascii("aes128-ctr"));
  }

  lemma FirstName()
    ensures Ascii("ecdh-sha2-nistp256,ext-info-s")[..18] == Ascii("ecdh-sha2-nistp256")
    ensures Ascii("ecdh-sha2-nistp256,ext-info-s")[18] == COMMA
  {
    var s, t := "ecdh-sha2-nistp256,ext-info-s", "ecdh-sha2-nistp256";
    assert s[..18] == t && s[18] == ',';
    forall k | 0 <= k < 18 ensures Ascii(s)[k] == Ascii(t)[k] {
      assert s[..18][k] == t[k];
    }
  }

  lemma WholeName(s: bytes)
    requires COMMA !in s
    ensures s in Names(s)
  {
    hide Names;
    assert s[0..|s|] == s;
    NameStands(s, s, 0);
  }
}

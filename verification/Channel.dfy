/**
  The session channel (RFC 4254) that carries the SFTP subsystem: windows in both directions, requests
  reassembled from channel data, and replies cut into channel data.  Packets go through the connection.
 */
module Channel {
  import opened Machine
  import opened Options
  import opened Protocol
  import opened Codec
  import opened Stream
  import C = Connection
  import T = Transport

  const OUR_WINDOW := 262144

  predicate Is(p: bytes, kind: u8) {
    p != [] && p[0] == kind
  }

  // What the packets of the client mean.

  /** The cursor after the message number and the channel number. */
  function AfterChannel(p: bytes): Cursor {
    TakeU32(p, Cursor(1, false)).1
  }

  /** The bytes of a channel data message. */
  function DataIn(p: bytes): bytes {
    TakeString(p, AfterChannel(p)).0
  }

  /** A request for the SFTP subsystem. */
  predicate AsksForSftp(p: bytes) {
    var (kind, c1) := TakeString(p, AfterChannel(p));
    var (_, c2) := TakeU8(p, c1);
    var (name, c3) := TakeString(p, c2);
    p != [] && p[0] == MSG_CHANNEL_REQUEST && kind == Ascii("subsystem") && !c3.bad && name == Ascii("sftp")
  }

  function Started(ps: seq<bytes>): bool
    decreases |ps|
  {
    ps != [] && (Started(ps[..|ps| - 1]) || AsksForSftp(ps[|ps| - 1]))
  }

  /** The stream that the client sent to the subsystem: the channel data after the subsystem was started. */
  function Fed(ps: seq<bytes>): bytes
    decreases |ps|
  {
    if ps == [] then []
    else
      var init, last := ps[..|ps| - 1], ps[|ps| - 1];
      Fed(init) + if last != [] && last[0] == MSG_CHANNEL_DATA && Started(init) then DataIn(last) else []
  }

  lemma FedSnoc(ps: seq<bytes>, p: bytes)
    ensures Started(ps + [p]) == (Started(ps) || AsksForSftp(p))
    ensures Fed(ps + [p]) == Fed(ps) + if p != [] && p[0] == MSG_CHANNEL_DATA && Started(ps) then DataIn(p) else []
  {
    assert (ps + [p])[..|ps|] == ps;
  }

  lemma Longer(a: bytes, b: bytes, c: bytes, d: bytes, all: bytes)
    requires b + c <= d && a + d <= all
    ensures a + b + c <= all
  {
    assert d == b + c + d[|b + c|..] && a + d == a + b + c + d[|b + c|..];
  }

  /** A channel data message, as the program builds it: a part that has no room is left out. */
  function DataMessage(id: u32, d: bytes): bytes
    requires |d| < TWO_32
  {
    Append(Append([MSG_CHANNEL_DATA] + Big32(id), Big32(|d|), OUT_CAP), d, OUT_CAP)
  }

  lemma NothingDropped(id: u32, d: bytes)
    requires |d| <= OUT_CAP - 9
    ensures DataOf(DataMessage(id, d)) == d && Is(DataMessage(id, d), MSG_CHANNEL_DATA)
  {
    assert DataMessage(id, d) == [MSG_CHANNEL_DATA] + Big32(id) + Big32(|d|) + d;
    assert ([MSG_CHANNEL_DATA] + Big32(id) + Big32(|d|) + d)[9..] == d;
  }

  // The accounts of the windows, kept from the packets alone.

  /** What happened, in order: packets taken in and packets sent. */
  datatype Event = In(p: bytes) | Out(p: bytes)

  function Ins(log: seq<Event>): seq<bytes>
    decreases |log|
  {
    if log == [] then []
    else Ins(log[..|log| - 1]) + if log[|log| - 1].In? then [log[|log| - 1].p] else []
  }

  function Outs(log: seq<Event>): seq<bytes>
    decreases |log|
  {
    if log == [] then []
    else Outs(log[..|log| - 1]) + if log[|log| - 1].Out? then [log[|log| - 1].p] else []
  }

  /** The fields of a request to open a channel: kind, number, window, packet limit, and whether all are there. */
  function OpenFields(p: bytes): (bytes, u32, u32, u32, bool) {
    var (kind, c1) := TakeString(p, Cursor(1, false));
    var (sender, c2) := TakeU32(p, c1);
    var (win, c3) := TakeU32(p, c2);
    var (maxp, c4) := TakeU32(p, c3);
    (kind, sender, win, maxp, !c4.bad)
  }

  /**
    The accounts: whether a channel is open, its number at the client and the limit of its packets; what the client
    granted since, what was spent of it and before it, and whether no grant ever wrapped around; what the client was
    offered since and before, what it used of it and before it, and whether it kept to it; whether the subsystem was
    started.
   */
  datatype Book = Book(open: bool, peer: u32, limit: u32, granted: nat, spent: nat, before: nat, exact: bool,
                       offered: nat, prior: nat, used: nat, early: nat, polite: bool, started: bool)

  const BLANK := Book(false, 0, 0, 0, 0, 0, true, 0, 0, 0, 0, true, false)

  /** The accounts of a new channel; a small packet limit of the client is raised to 1024. */
  function Opened(b: Book, sender: u32, win: u32, maxp: u32): Book {
    Book(true, sender, if maxp < 1024 then 1024 else maxp, win, 0, b.before + b.spent, true,
         0, b.prior + b.offered, 0, b.early + b.used, true, b.started)
  }

  function EnterIn(b: Book, p: bytes): Book {
    if Is(p, MSG_CHANNEL_OPEN) then
      var (kind, sender, win, maxp, whole) := OpenFields(p);
      if b.open || !whole || kind != Ascii("session") then b
      else Opened(b, sender, win, maxp)
    else if Is(p, MSG_CHANNEL_WINDOW_ADJUST) then
      var add := TakeU32(p, AfterChannel(p)).0;
      b.(granted := b.granted + add, exact := b.exact && b.granted - b.spent + add < TWO_32)
    else if Is(p, MSG_CHANNEL_DATA) && b.started then
      b.(used := b.used + |DataIn(p)|, polite := b.polite && b.used + |DataIn(p)| <= b.offered)
    else b.(started := b.started || AsksForSftp(p))
  }

  /** The window that a packet of the server offers. */
  function OfferOf(p: bytes): nat {
    if Is(p, MSG_CHANNEL_OPEN_CONFIRMATION) then TakeU32(p, Cursor(9, false)).0
    else if Is(p, MSG_CHANNEL_WINDOW_ADJUST) then TakeU32(p, Cursor(5, false)).0
    else 0
  }

  /** All that the client was ever offered. */
  function Offered(ps: seq<bytes>): nat
    decreases |ps|
  {
    if ps == [] then 0 else Offered(ps[..|ps| - 1]) + OfferOf(ps[|ps| - 1])
  }

  lemma OfferedSnoc(ps: seq<bytes>, p: bytes)
    ensures Offered(ps + [p]) == Offered(ps) + OfferOf(p)
  {
    assert (ps + [p])[..|ps|] == ps;
  }

  function EnterOut(b: Book, p: bytes): Book {
    b.(offered := b.offered + OfferOf(p), spent := b.spent + |DataOf(p)|)
  }

  function Account(log: seq<Event>): Book
    decreases |log|
  {
    if log == [] then BLANK
    else
      var b, e := Account(log[..|log| - 1]), log[|log| - 1];
      if e.In? then EnterIn(b, e.p) else EnterOut(b, e.p)
  }

  /** Channel data may be sent, when the accounts stand like this, to the channel of the client, within its limit and
      its grant. */
  predicate Allowed(b: Book, p: bytes) {
    Is(p, MSG_CHANNEL_DATA) ==>
      && |DataOf(p)| < TWO_32 && p == DataMessage(b.peer, DataOf(p))
      && (b.open ==> |DataOf(p)| + 16 <= b.limit)
      && (b.exact ==> b.spent + |DataOf(p)| <= b.granted)
  }

  /** Everything that was sent was allowed at the time. */
  ghost predicate Respected(log: seq<Event>) {
    forall i :: 0 <= i < |log| && log[i].Out? ==> Allowed(Account(log[..i]), log[i].p)
  }

  lemma NothingEarned<S>(v: Server<S>)
    ensures AlwaysEarned(v, [])
  {
    var none: seq<Event> := [];
    assert none[..0] == none;
    assert Earned(v, none);
  }

  lemma LogSnoc(log: seq<Event>, e: Event)
    ensures Ins(log + [e]) == Ins(log) + if e.In? then [e.p] else []
    ensures Outs(log + [e]) == Outs(log) + if e.Out? then [e.p] else []
    ensures Account(log + [e]) == if e.In? then EnterIn(Account(log), e.p) else EnterOut(Account(log), e.p)
    ensures Respected(log) && (e.Out? ==> Allowed(Account(log), e.p)) ==> Respected(log + [e])
  {
    hide EnterIn, EnterOut, Allowed;
    assert (log + [e])[..|log|] == log;
    if Respected(log) && (e.Out? ==> Allowed(Account(log), e.p)) {
      forall i | 0 <= i < |log + [e]| && (log + [e])[i].Out?
        ensures Allowed(Account((log + [e])[..i]), (log + [e])[i].p)
      {
        assert (log + [e])[..i] == log[..i];
      }
    }
  }

  /** What was sent is no more than the replies to the requests that were read before it. */
  ghost predicate Earned<S>(v: Server<S>, log: seq<Event>) {
    Data(Outs(log)) <= Answers(v, Deframe(Fed(Ins(log))).0)
  }

  /** At every moment. */
  ghost predicate AlwaysEarned<S>(v: Server<S>, log: seq<Event>) {
    forall i :: 0 <= i <= |log| ==> Earned(v, log[..i])
  }

  lemma EarnedSnoc<S>(v: Server<S>, log: seq<Event>, e: Event)
    requires AlwaysEarned(v, log)
    requires e.Out? ==> Data(Outs(log)) + DataOf(e.p) <= Answers(v, Deframe(Fed(Ins(log))).0)
    ensures AlwaysEarned(v, log + [e])
  {
    hide Data, Outs, Answers, Deframe, Fed, Ins, DataOf, Account, Respected;
    var all := log + [e];
    LogSnoc(log, e);
    assert log[..|log|] == log && all[..|all|] == all;
    assert Earned(v, log[..|log|]);
    if e.In? {
      FedSnoc(Ins(log), e.p);
      DeframeGrows(Fed(Ins(log)), Fed(Ins(log) + [e.p]));
      AnswersGrow(v, Deframe(Fed(Ins(log))).0, Deframe(Fed(Ins(log) + [e.p])).0);
      assert Outs(log) + [] == Outs(log);
    } else {
      DataSnoc(Outs(log), e.p);
      assert Ins(log) + [] == Ins(log);
    }
    assert Earned(v, all);
    forall i | 0 <= i <= |all| ensures Earned(v, all[..i]) {
      if i <= |log| {
        assert all[..i] == log[..i];
      }
    }
  }

  lemma EarnedNow<S>(v: Server<S>, log: seq<Event>)
    requires AlwaysEarned(v, log)
    ensures Earned(v, log)
  {
    hide Earned;
    assert log[..|log|] == log;
  }

  /** The accounts leave no byte out: those of the channel and those before it are all that were sent and fed. */
  ghost predicate Complete(b: Book, ins: seq<bytes>, outs: seq<bytes>) {
    && |Data(outs)| == b.before + b.spent && Offered(outs) == b.prior + b.offered
    && |Fed(ins)| == b.early + b.used
  }

  /** What the packets read say, whatever was sent between them: the channel, its limit and the grant. */
  function Terms(ps: seq<bytes>): Book
    decreases |ps|
  {
    if ps == [] then BLANK else EnterIn(Terms(ps[..|ps| - 1]), ps[|ps| - 1])
  }

  ghost predicate SameTerms(b: Book, c: Book) {
    b.open == c.open && b.peer == c.peer && b.limit == c.limit && b.granted == c.granted && b.started == c.started
  }

  lemma {:induction false} TermsFromRead(log: seq<Event>)
    ensures SameTerms(Account(log), Terms(Ins(log))) && Account(log).started == Started(Ins(log))
    decreases |log|
  {
    hide EnterIn, EnterOut, Started;
    if log == [] {
      NothingStarted();
    } else {
      var init, e := log[..|log| - 1], log[|log| - 1];
      TermsFromRead(init);
      if e.In? {
        assert (Ins(init) + [e.p])[..|Ins(init)|] == Ins(init);
        FedSnoc(Ins(init), e.p);
        SameStep(Account(init), Terms(Ins(init)), e.p);
      } else {
        assert Ins(init) + [] == Ins(init);
        assert SameTerms(EnterOut(Account(init), e.p), Terms(Ins(init))) by {
          OutKeepsTerms(Account(init), e.p);
        }
      }
    }
  }

  lemma NothingStarted()
    ensures !Started([])
  {
  }

  lemma OutKeepsTerms(b: Book, p: bytes)
    ensures SameTerms(EnterOut(b, p), b)
  {
  }

  lemma SameStep(b: Book, c: Book, p: bytes)
    requires SameTerms(b, c)
    ensures SameTerms(EnterIn(b, p), EnterIn(c, p)) && EnterIn(b, p).started == (b.started || AsksForSftp(p))
  {
    hide TakeU32, TakeString, DataIn, OpenFields, Ascii, AsksForSftp;
    if !Is(p, MSG_CHANNEL_REQUEST) {
      NotARequest(p);
    }
  }

  lemma {:induction false} NothingUncounted(log: seq<Event>)
    ensures Complete(Account(log), Ins(log), Outs(log))
    decreases |log|
  {
    hide Complete, EnterIn, EnterOut;
    if log == [] {
      BlankIsComplete();
    } else {
      var init, e := log[..|log| - 1], log[|log| - 1];
      NothingUncounted(init);
      assert Ins(init) + [] == Ins(init) && Outs(init) + [] == Outs(init);
      TermsFromRead(init);
      if e.In? {
        CompleteIn(Account(init), Ins(init), Outs(init), e.p);
      } else {
        CompleteOut(Account(init), Ins(init), Outs(init), e.p);
      }
    }
  }

  lemma BlankIsComplete()
    ensures Complete(BLANK, [], [])
  {
  }

  lemma CompleteIn(b: Book, ins: seq<bytes>, outs: seq<bytes>, p: bytes)
    requires Complete(b, ins, outs) && b.started == Started(ins)
    ensures Complete(EnterIn(b, p), ins + [p], outs)
  {
    hide Fed, Started, Data, Offered, TakeU32, TakeString, DataIn, OpenFields, Ascii, AsksForSftp;
    FedSnoc(ins, p);
    if !Is(p, MSG_CHANNEL_REQUEST) {
      NotARequest(p);
    }
  }

  lemma CompleteOut(b: Book, ins: seq<bytes>, outs: seq<bytes>, p: bytes)
    requires Complete(b, ins, outs)
    ensures Complete(EnterOut(b, p), ins, outs + [p])
  {
    hide Fed, Started, Data, TakeU32, Offered, OfferOf;
    OfferedSnoc(outs, p);
    DataSnoc(outs, p);
  }

  lemma NotARequest(p: bytes)
    requires !Is(p, MSG_CHANNEL_REQUEST)
    ensures !AsksForSftp(p)
  {
  }

  /** The answer to a request to open a channel. */
  function Confirmation(sender: u32): bytes {
    Big32(sender) + Big32(0) + Big32(OUR_WINDOW) + Big32(32768)
  }

  function OpenFailure(sender: u32): bytes {
    Big32(sender) + (Big32(1) + Prefixed(Ascii("one session only")) + Prefixed([]))
  }

  function Adjustment(id: u32): bytes {
    [MSG_CHANNEL_WINDOW_ADJUST] + (Big32(id) + Big32(OUR_WINDOW))
  }

  /**
    What the server sends when a packet arrives, but for key exchanges and the replies of the subsystem: given whether
    the channel is open, was closed and has its subsystem, the number of the channel at the client, the window of the
    server and the number of packets so far.
   */
  function Reaction(p: bytes, open: bool, closed: bool, started: bool, id: u32, window: u32, number: u32): seq<bytes> {
    if Is(p, MSG_CHANNEL_DATA) then
      if !started || Word32(window - |DataIn(p)|) >= OUR_WINDOW / 2 then [] else [Adjustment(id)]
    else if Is(p, MSG_CHANNEL_REQUEST) then
      if TakeU8(p, TakeString(p, AfterChannel(p)).1).0 == 0 then []
      else [[if AsksForSftp(p) && !started then MSG_CHANNEL_SUCCESS else MSG_CHANNEL_FAILURE] + Big32(id)]
    else if Is(p, MSG_CHANNEL_OPEN) then
      var (kind, sender, win, maxp, whole) := OpenFields(p);
      if open || kind != Ascii("session") then [[MSG_CHANNEL_OPEN_FAILURE] + OpenFailure(sender)]
      else [[MSG_CHANNEL_OPEN_CONFIRMATION] + Confirmation(sender)]
    else if Is(p, MSG_GLOBAL_REQUEST) then
      if TakeU8(p, TakeString(p, Cursor(1, false)).1).0 == 0 then [] else [[MSG_REQUEST_FAILURE]]
    else if Is(p, MSG_CHANNEL_EOF) || Is(p, MSG_CHANNEL_CLOSE) then
      if closed then [] else [[MSG_CHANNEL_EOF] + Big32(id), [MSG_CHANNEL_CLOSE] + Big32(id)]
    else if Silent(p) then []
    else [[MSG_UNIMPLEMENTED] + Big32(Word32(number - 1))]
  }

  /** Why a packet or a request is refused: a field is missing, the input overflows, or a request is too long. */
  datatype Why = Broken(p: bytes) | TooMuch(held: nat, p: bytes) | TooLong(s: bytes)

  predicate Grounds(w: Why) {
    match w
    case Broken(p) => Incorrect(p)
    case TooMuch(held, p) => Overflows(held, p)
    case TooLong(s) => |s| >= 4 && Value32(s[..4]) > MAX_PACKET
  }

  /** A field is missing. */
  predicate Incorrect(p: bytes) {
    (Is(p, MSG_CHANNEL_DATA) && TakeString(p, AfterChannel(p)).1.bad) || (Is(p, MSG_CHANNEL_OPEN) && !OpenFields(p).4)
  }

  /** There is no room for the data of a packet behind so many bytes that wait. */
  predicate Overflows(held: nat, p: bytes) {
    Is(p, MSG_CHANNEL_DATA) && held + |DataIn(p)| > 2 * MAX_PACKET
  }

  /** Packets that are taken in without an answer. */
  predicate Silent(p: bytes) {
    p != [] && p[0] in {MSG_IGNORE, MSG_DEBUG, MSG_UNIMPLEMENTED, MSG_EXT_INFO, MSG_DISCONNECT,
                        MSG_CHANNEL_WINDOW_ADJUST}
  }

  lemma Offers(b: Book, sender: u32)
    ensures EnterOut(b, [MSG_CHANNEL_OPEN_CONFIRMATION] + Confirmation(sender)) == b.(offered := b.offered + OUR_WINDOW)
  {
    hide Value32, Big32;
    var p := [MSG_CHANNEL_OPEN_CONFIRMATION] + Confirmation(sender);
    assert p[9..13] == Big32(OUR_WINDOW);
    Value32Inverts(OUR_WINDOW);
  }

  lemma Adjusts(b: Book, id: u32)
    ensures EnterOut(b, Adjustment(id)) == b.(offered := b.offered + OUR_WINDOW)
  {
    hide Value32, Big32;
    var p := Adjustment(id);
    assert p[5..9] == Big32(OUR_WINDOW);
    Value32Inverts(OUR_WINDOW);
  }

  /** The window of the server, when so many bytes are left of it; never small for a client that keeps to it. */
  ghost predicate Steady(window: u32, left: int, polite: bool) {
    window == Word32(left) && (polite ==> OUR_WINDOW / 2 <= left < 3 * OUR_WINDOW / 2)
  }

  lemma Consumed(window: u32, left: int, n: nat, polite: bool)
    requires Steady(window, left, polite) && (polite ==> n <= left)
    ensures var w := Word32(window - n);
            if w >= OUR_WINDOW / 2 then Steady(w, left - n, polite)
            else Steady(Word32(w + OUR_WINDOW), left - n + OUR_WINDOW, polite)
  {
    Shifted(left, -(n as int));
    Shifted(left - n, OUR_WINDOW);
  }

  lemma Shifted(left: int, n: int)
    ensures Word32(Word32(left) + n) == Word32(left + n)
  {
    SameWord(Word32(left) + n, left / TWO_32);
  }

  lemma SameWord(n: int, k: int)
    ensures Word32(n) == Word32(n + TWO_32 * k)
  {
  }

  /** Packets from before the channel protocol (section 4.1.2 of RFC 4250). */
  predicate Prelude(ps: seq<bytes>) {
    forall k :: 0 <= k < |ps| ==> ps[k] == [] || ps[k][0] < 80
  }

  /** What a key exchange needs: random bytes, the Diffie-Hellman step and the signature. */
  datatype Draw = Draw(cookie: cookie, ecdh: bytes -> Option<C.Agreement>, sign: T.digest -> Option<bytes>)

  type cookie = s: bytes | |s| == 16 witness seq(16, _ => 0)

  /** A packet of a key exchange: neither the accounts nor the stream mention it. */
  predicate Quiet(p: bytes) {
    p != [] && p[0] < 80
  }

  ghost predicate AllQuiet(ps: seq<bytes>) {
    forall k :: 0 <= k < |ps| ==> Quiet(ps[k])
  }

  function Sending(ps: seq<bytes>): (es: seq<Event>)
    ensures |es| == |ps|
  {
    seq(|ps|, k requires 0 <= k < |ps| => Out(ps[k]))
  }

  /** An exchange in order: perhaps an offer, the point of the client, reply and new keys, new keys, perhaps more. */
  function KexLog(qs: seq<bytes>, ps: seq<bytes>, a: nat): seq<Event>
    requires |ps| == 2 && a + 2 <= |qs|
  {
    Sending(qs[..a]) + [In(ps[0])] + Sending(qs[a..a + 2]) + [In(ps[1])] + Sending(qs[a + 2..])
  }

  lemma {:induction false} InsAppend(a: seq<Event>, b: seq<Event>)
    ensures Ins(a + b) == Ins(a) + Ins(b) && Outs(a + b) == Outs(a) + Outs(b)
    decreases |b|
  {
    if b == [] {
      assert a + b == a;
    } else {
      var init, last := b[..|b| - 1], b[|b| - 1];
      InsAppend(a, init);
      assert (a + b)[..|a + b| - 1] == a + init && (a + b)[|a + b| - 1] == last;
    }
  }

  lemma {:induction false} SendingOnly(ps: seq<bytes>)
    ensures Ins(Sending(ps)) == [] && Outs(Sending(ps)) == ps
    decreases |ps|
  {
    if ps != [] {
      var init := ps[..|ps| - 1];
      SendingOnly(init);
      assert Sending(ps)[..|ps| - 1] == Sending(init);
    }
  }

  lemma InOnly(p: bytes)
    ensures Ins([In(p)]) == [p] && Outs([In(p)]) == []
  {
    var es := [In(p)];
    assert es[..0] == [] && Ins(es[..0]) == [] && Outs(es[..0]) == [];
  }

  lemma KexOrder(qs: seq<bytes>, ps: seq<bytes>, a: nat)
    requires |ps| == 2 && a + 2 <= |qs|
    ensures Ins(KexLog(qs, ps, a)) == ps && Outs(KexLog(qs, ps, a)) == qs
  {
    hide Ins, Outs, Sending;
    var x, y, z := Sending(qs[..a]), Sending(qs[a..a + 2]), Sending(qs[a + 2..]);
    var p, q := [In(ps[0])], [In(ps[1])];
    SendingOnly(qs[..a]);
    SendingOnly(qs[a..a + 2]);
    SendingOnly(qs[a + 2..]);
    InOnly(ps[0]);
    InOnly(ps[1]);
    InsAppend(x, p);
    InsAppend(x + p, y);
    InsAppend(x + p + y, q);
    InsAppend(x + p + y + q, z);
    assert qs[..a] + qs[a..a + 2] + qs[a + 2..] == qs && [ps[0]] + [ps[1]] == ps;
  }

  lemma QuietIn(b: Book, p: bytes)
    requires Quiet(p)
    ensures EnterIn(b, p) == b && !AsksForSftp(p) && !Is(p, MSG_CHANNEL_DATA)
  {
    hide TakeU32, TakeString, Ascii;
    NotARequest(p);
    assert b.(started := b.started) == b;
  }

  lemma QuietOut(b: Book, p: bytes)
    requires Quiet(p)
    ensures EnterOut(b, p) == b && DataOf(p) == [] && Allowed(b, p)
  {
    assert b.(offered := b.offered + 0, spent := b.spent + 0) == b;
  }

  /** Quiet packets leave everything as it was. */
  lemma {:induction false} QuietLog<S>(v: Server<S>, log: seq<Event>, es: seq<Event>)
    requires AllQuiet(Ins(es)) && AllQuiet(Outs(es))
    ensures Ins(log + es) == Ins(log) + Ins(es) && Outs(log + es) == Outs(log) + Outs(es)
    ensures Account(log + es) == Account(log) && Data(Outs(log + es)) == Data(Outs(log))
    ensures Fed(Ins(log + es)) == Fed(Ins(log)) && Started(Ins(log + es)) == Started(Ins(log))
    ensures Respected(log) ==> Respected(log + es)
    ensures AlwaysEarned(v, log) ==> AlwaysEarned(v, log + es)
    decreases |es|
  {
    hide Account, Data, Fed, Started, Respected, AlwaysEarned, EnterIn, EnterOut, Answers, Deframe, DataOf, Allowed;
    hide Quiet, AsksForSftp, DataIn;
    InsAppend(log, es);
    if es == [] {
      assert log + es == log;
    } else {
      var init, e := es[..|es| - 1], es[|es| - 1];
      QuietInit(es);
      QuietLog(v, log, init);
      assert log + es == log + init + [e];
      LogSnoc(log + init, e);
      if e.In? {
        QuietIn(Account(log + init), e.p);
        FedSnoc(Ins(log + init), e.p);
        assert Fed(Ins(log + init)) + [] == Fed(Ins(log + init));
        assert Outs(log + init) + [] == Outs(log + init);
      } else {
        QuietOut(Account(log + init), e.p);
        DataSnoc(Outs(log + init), e.p);
        assert Data(Outs(log + init)) + [] == Data(Outs(log + init));
        assert Ins(log + init) + [] == Ins(log + init);
      }
      if AlwaysEarned(v, log) {
        EarnedNow(v, log + init);
        EarnedSnoc(v, log + init, e);
      }
    }
  }

  lemma QuietInit(es: seq<Event>)
    requires es != [] && AllQuiet(Ins(es)) && AllQuiet(Outs(es))
    ensures var init := es[..|es| - 1]; AllQuiet(Ins(init)) && AllQuiet(Outs(init)) && Quiet(es[|es| - 1].p)
  {
    hide Quiet;
    var init, e := es[..|es| - 1], es[|es| - 1];
    assert forall k :: 0 <= k < |Ins(init)| ==> Ins(init)[k] == Ins(es)[k];
    assert forall k :: 0 <= k < |Outs(init)| ==> Outs(init)[k] == Outs(es)[k];
    if e.In? {
      assert Ins(es)[|Ins(init)|] == e.p;
    } else {
      assert Outs(es)[|Outs(init)|] == e.p;
    }
  }

  lemma Alone(ps: seq<bytes>)
    ensures ps + [] == ps
  {
  }

  lemma NothingYet()
    ensures Framed([]) == Fed([]) == [] && !Started([]) && Account([]) == BLANK && Respected([])
  {
  }

  lemma Lengths()
    ensures OUT_CAP > 300
  {
  }

  lemma ShortAnswers(sender: u32)
    ensures |OpenFailure(sender)| <= 200 && |Confirmation(sender)| <= 200
  {
  }

  lemma BufferSize(n: C.Conn)
    requires n.Valid()
    ensures n.inbuf.Length == n.outbuf.Length == MAX_PACKET && n.inbuf != n.outbuf
  {
  }

  lemma GrownPayloads(before: seq<T.Item>, after: seq<T.Item>, p: bytes)
    requires C.Grown(before, after, p)
    ensures C.Payloads(after) == C.Payloads(before) + [p]
  {
    assert after == before + [after[|before|]];
    C.PayloadsSnoc(before, after[|before|]);
  }

  /** What a key exchange adds to the histories of the connection. */
  lemma KexPayloads(sent: seq<T.Item>, sentNow: seq<T.Item>, got: seq<T.Item>, gotNow: seq<T.Item>, offered: bool,
                    first: bool)
    requires sent <= sentNow && got <= gotNow
    requires C.Kinds(gotNow) == C.Kinds(got) + [MSG_KEX_ECDH_INIT, MSG_NEWKEYS, C.SWITCH]
    requires C.Kinds(sentNow) == C.Kinds(sent) + (if offered then [MSG_KEXINIT as int] else [])
                                 + [MSG_KEX_ECDH_REPLY, MSG_NEWKEYS, C.SWITCH] + if first then [MSG_EXT_INFO] else []
    ensures C.Payloads(sent) <= C.Payloads(sentNow) && C.Payloads(got) <= C.Payloads(gotNow)
    ensures var qs := C.Payloads(sentNow)[|C.Payloads(sent)|..];
            AllQuiet(qs) && C.Heads(qs) == (if offered then [MSG_KEXINIT as int] else [])
                                           + [MSG_KEX_ECDH_REPLY, MSG_NEWKEYS] + if first then [MSG_EXT_INFO] else []
    ensures var ps := C.Payloads(gotNow)[|C.Payloads(got)|..];
            AllQuiet(ps) && C.Heads(ps) == [MSG_KEX_ECDH_INIT, MSG_NEWKEYS]
  {
    hide C.Payloads, C.Kinds, C.Numbers, C.Heads;
    var a: seq<int> := if offered then [MSG_KEXINIT as int] else [];
    var b: seq<int> := if first then [MSG_EXT_INFO as int] else [];
    var mid: seq<int> := [MSG_KEX_ECDH_REPLY as int, MSG_NEWKEYS as int, C.SWITCH];
    assert C.Kinds(sent) + a + mid + b == C.Kinds(sent) + (a + mid + b);
    C.PayloadsGrow(sent, sentNow, a + mid + b);
    C.PayloadsGrow(got, gotNow, [MSG_KEX_ECDH_INIT, MSG_NEWKEYS, C.SWITCH]);
    NumbersOf(offered, first);
    HeadsQuiet(C.Payloads(sentNow)[|C.Payloads(sent)|..]);
    HeadsQuiet(C.Payloads(gotNow)[|C.Payloads(got)|..]);
  }

  lemma HeadsQuiet(ps: seq<bytes>)
    requires forall k :: 0 <= k < |C.Heads(ps)| ==> 0 <= C.Heads(ps)[k] < 80
    ensures AllQuiet(ps)
  {
    forall k | 0 <= k < |ps| ensures Quiet(ps[k]) {
      assert 0 <= C.Heads(ps)[k] < 80;
    }
  }

  lemma NumbersOf(offered: bool, first: bool)
    ensures C.Numbers([MSG_KEX_ECDH_INIT, MSG_NEWKEYS, C.SWITCH]) == [MSG_KEX_ECDH_INIT as int, MSG_NEWKEYS as int]
    ensures var a: seq<int> := if offered then [MSG_KEXINIT as int] else [];
            var b: seq<int> := if first then [MSG_EXT_INFO as int] else [];
            C.Numbers(a + [MSG_KEX_ECDH_REPLY as int, MSG_NEWKEYS as int, C.SWITCH] + b)
            == a + [MSG_KEX_ECDH_REPLY as int, MSG_NEWKEYS as int] + b
  {
    hide C.Numbers;
    var a: seq<int> := if offered then [MSG_KEXINIT as int] else [];
    var b: seq<int> := if first then [MSG_EXT_INFO as int] else [];
    NoNumbers();
    C.NumbersSnoc([], MSG_KEXINIT);
    assert [] + [MSG_KEXINIT as int] == [MSG_KEXINIT as int];
    assert C.Numbers(a) == a;
    NumbersThree(a, MSG_KEX_ECDH_REPLY as int, MSG_NEWKEYS as int);
    NumbersThree([], MSG_KEX_ECDH_INIT as int, MSG_NEWKEYS as int);
    var mid: seq<int> := [MSG_KEX_ECDH_REPLY as int, MSG_NEWKEYS as int, C.SWITCH];
    C.NumbersSnoc(a + mid, MSG_EXT_INFO);
    if !first {
      assert a + mid + b == a + mid;
    }
    assert [] + [MSG_KEX_ECDH_INIT as int, MSG_NEWKEYS as int, C.SWITCH]
           == [MSG_KEX_ECDH_INIT as int, MSG_NEWKEYS as int, C.SWITCH];
  }

  lemma NumbersThree(a: seq<int>, x: int, y: int)
    requires C.Numbers(a) == a && x != C.SWITCH && y != C.SWITCH
    ensures C.Numbers(a + [x, y, C.SWITCH]) == a + [x, y]
  {
    hide C.Numbers;
    C.NumbersSnoc(a, x);
    C.NumbersSnoc(a + [x], y);
    C.NumbersSnoc(a + [x] + [y], C.SWITCH);
    assert a + [x] + [y] + [C.SWITCH] == a + [x, y, C.SWITCH] && a + [x] + [y] == a + [x, y];
  }

  lemma NoNumbers()
    ensures C.Numbers([]) == []
  {
  }

  class Conn<S> {
    const v: Server<S>
    /** The connection that carries the channel, and what a key exchange needs from outside, exchange by exchange. */
    const n: C.Conn
    const draw: nat -> Draw
    const sftpIn: array<u8>
    const reply: array<u8>
    var exchanges: nat
    var chanOpen: bool
    var chanClosed: bool
    var closing: bool
    var chanClientId: u32
    var clientWindow: u32
    var clientMaxpkt: u32
    var ourWindow: u32
    var sftpStarted: bool
    var sftp: S
    var sftpInLen: nat
    /** Packets from before the channel protocol, and those since. */
    ghost const before: seq<bytes>
    ghost const earlier: seq<bytes>
    ghost var sent: seq<bytes>
    ghost var read: seq<bytes>
    ghost var received: bytes
    ghost var handled: seq<frame>
    ghost var log: seq<Event>
    ghost var refusal: Option<Why>

    /** Why the session may end: the connection failed, the client is done, or what it sent was refused for a reason. */
    ghost predicate Excused()
      reads `closing, `refusal, n`failed
    {
      n.failed || closing || (refusal.Some? && Grounds(refusal.value))
    }

    ghost function Pending(): bytes
      reads `sftpInLen, sftpIn
      requires sftpInLen <= sftpIn.Length
    {
      sftpIn[..sftpInLen]
    }

    predicate Sizes()
      reads `sftpInLen
    {
      && sftpIn.Length == 2 * MAX_PACKET && reply.Length == REPLY_CAP && sftpIn != reply && sftpInLen <= sftpIn.Length
      && sftpIn != n.inbuf && sftpIn != n.outbuf && reply != n.inbuf && reply != n.outbuf && n.inbuf != n.outbuf
    }

    /** The requests that were handled and the bytes that wait are what was received. */
    ghost predicate StreamKept()
      reads `sftpInLen, `received, `handled, sftpIn
      requires sftpInLen <= sftpIn.Length
    {
      received == Framed(handled) + Pending()
    }

    /** What was received is the stream in the packets that were read. */
    ghost predicate ReadKept()
      reads `read, `received, `sftpStarted
    {
      received == Fed(read) && sftpStarted == Started(read)
    }

    /** The log is what was read and what was sent; every packet was sent within the limit and the grant, and none said
        more than the replies to what had been read. */
    ghost predicate LogKept()
      reads `read, `sent, `log
    {
      Ins(log) == read && Outs(log) == sent && Respected(log) && AlwaysEarned(v, log)
    }

    /** These requests are at the start of the stream, and sending d is to send of the replies to them. */
    ghost predicate Due(fs: seq<frame>, d: bytes)
      reads `received, `sent
    {
      Framed(fs) <= received && Data(sent) + d <= Answers(v, fs)
    }

    /** The fields of the channel, but for the window of the server, are what the accounts say. */
    ghost predicate Agrees(b: Book)
      reads `chanOpen, `chanClientId, `clientWindow, `clientMaxpkt, `sftpStarted
    {
      && chanOpen == b.open && chanClientId == b.peer && clientMaxpkt == b.limit && sftpStarted == b.started
      && clientWindow == Word32(b.granted - b.spent) && (b.exact ==> b.spent <= b.granted < b.spent + TWO_32)
      && (if b.open then b.limit >= 1024 else b.limit == 0)
    }

    ghost predicate Matches(b: Book)
      reads `chanOpen, `chanClientId, `clientWindow, `clientMaxpkt, `ourWindow, `sftpStarted
    {
      Agrees(b) && Steady(ourWindow, b.offered - b.used, b.open && b.polite)
    }

    /** The connection is between two packets and key exchanges, and has sent what the channel sent. */
    ghost predicate Linked()
      reads `sent, n
    {
      n.Valid() && n.Settled() && C.Payloads(n.sent) == before + sent && Prelude(before) && Prelude(earlier)
    }

    ghost predicate Valid()
      reads this, sftpIn, n
    {
      refusal.None? && Sizes() && StreamKept() && ReadKept() && LogKept() && Matches(Account(log)) && Linked()
    }

    /** The channel carried the replies to the requests that were handled, in order and whole. */
    ghost predicate Answered()
      reads `sftp, `sent, `handled
    {
      sftp == StateAfter(v, handled) && Data(sent) == Answers(v, handled)
    }

    /** What the connection read was handled. */
    ghost predicate Between()
      reads `read, n`got
    {
      C.Payloads(n.got) == earlier + read
    }

    /** Everything that could be answered is answered. */
    ghost predicate Idle()
      reads this, sftpIn, n
    {
      Valid() && Answered() && Incomplete(Pending())
    }

    /** A connection on which no packet of the channel protocol was exchanged yet. */
    constructor (v: Server<S>, n: C.Conn, draw: nat -> Draw)
      requires n.Valid() && n.Settled() && Prelude(C.Payloads(n.sent)) && Prelude(C.Payloads(n.got))
      ensures Idle() && Between() && fresh(sftpIn) && fresh(reply)
      ensures this.v == v && this.n == n && log == [] && sent == [] && read == []
    {
      hide C.Conn.Valid, C.Conn.Settled, C.Payloads, AlwaysEarned, Account, Framed, Fed, Started, Prelude;
      BufferSize(n);
      NothingEarned(v);
      NothingYet();
      Alone(C.Payloads(n.sent));
      Alone(C.Payloads(n.got));
      this.v, this.n, this.draw, this.exchanges := v, n, draw, 0;
      this.sftpIn := new u8[2 * MAX_PACKET];
      this.reply := new u8[REPLY_CAP];
      this.chanOpen, this.chanClosed, this.closing, this.chanClientId := false, false, false, 0;
      this.clientWindow, this.clientMaxpkt, this.ourWindow := 0, 0, 0;
      this.sftpStarted, this.sftp, this.sftpInLen := false, v.start, 0;
      this.received, this.handled, this.log, this.sent, this.read, this.refusal := [], [], [], [], [], None;
      this.before, this.earlier := C.Payloads(n.sent), C.Payloads(n.got);
      new;
      assert Linked() && Pending() == [];
    }

    /** Receives one packet; its payload is at the start of the input buffer of the connection. */
    method ReadPacket() returns (ok: bool, p: bytes)
      requires Linked() && Between()
      modifies n`seqIn, n`posIn, n`input, n`got, n`failed, n.inbuf
      ensures !ok ==> n.failed
      ensures ok ==> Linked() && Reading(p) && |n.input| < |old(n.input)|
    {
      hide C.Conn.Valid, T.Open, C.Payloads;
      BufferSize(n);
      var len;
      ok, len := n.ReadPacket();
      p := [];
      if ok {
        p := n.inbuf[..len];
        GrownPayloads(old(n.got), n.got, p);
        assert earlier + read + [p] == C.Payloads(n.got);
      }
    }

    /** The packet p was received and is being handled. */
    ghost predicate Reading(p: bytes)
      reads `read, n`got, n.inbuf
    {
      C.Payloads(n.got) == earlier + read + [p] && 1 <= |p| <= MAX_PACKET - 5 && |p| <= n.inbuf.Length
      && n.inbuf[..|p|] == p
    }

    /** Sends a packet through the connection. */
    method Post(kind: u8, body: bytes) returns (ok: bool)
      requires Linked() && kind != MSG_NEWKEYS && |body| <= 200
      modifies n`seqOut, n`posOut, n`output, n`room, n`drawn, n`sent, n`failed, n.outbuf
      ensures (old(n.room) >= C.MOST ==> ok) && (ok ==> n.room >= old(n.room) - C.MOST) && (!ok ==> n.failed)
      ensures ok ==> n.Valid() && n.Settled() && C.Payloads(n.sent) == before + sent + [[kind] + body]
    {
      hide C.Conn.Valid, C.Payloads;
      Lengths();
      BufferSize(n);
      var w := n.OutBegin(kind);
      w.PutBytes(body);
      ok := n.OutSend(w);
      if ok {
        GrownPayloads(old(n.sent), n.sent, [kind] + body);
      }
    }

    /** Sends a packet of any kind but channel data. */
    method SendRaw(kind: u8, body: bytes) returns (ok: bool)
      requires LogKept() && Linked() && kind != MSG_CHANNEL_DATA && kind != MSG_NEWKEYS && |body| <= 200
      modifies `sent, `log, n`seqOut, n`posOut, n`output, n`room, n`drawn, n`sent, n`failed, n.outbuf
      ensures LogKept() && Data(sent) == old(Data(sent)) && old(log) <= log
      ensures ok ==> Linked() && sent == old(sent) + [[kind] + body] && log == old(log) + [Out([kind] + body)]
      ensures ok ==> Account(log) == EnterOut(old(Account(log)), [kind] + body)
      ensures !ok ==> sent == old(sent) && log == old(log) && n.failed
      ensures (old(n.room) >= C.MOST ==> ok) && (ok ==> n.room >= old(n.room) - C.MOST)
    {
      hide Data, Outs, Ins, Account, EnterOut, Respected, AlwaysEarned, Fed, C.Conn.Valid, C.Conn.Settled, C.Payloads;
      ok := Post(kind, body);
      if ok {
        ghost var e := Out([kind] + body);
        LogSnoc(log, e);
        DataSnoc(sent, [kind] + body);
        assert Data(sent) + [] == Data(sent);
        EarnedNow(v, log);
        EarnedSnoc(v, log, e);
        assert before + sent + [[kind] + body] == before + (sent + [[kind] + body]);
        sent, log := sent + [[kind] + body], log + [e];
      }
    }

    /** Sends a packet that the accounts do not mention. */
    method SendOther(kind: u8, body: bytes) returns (ok: bool)
      requires Valid() && kind != MSG_CHANNEL_DATA && kind != MSG_NEWKEYS && |body| <= 200
      requires kind != MSG_CHANNEL_OPEN_CONFIRMATION && kind != MSG_CHANNEL_WINDOW_ADJUST
      modifies `sent, `log, n`seqOut, n`posOut, n`output, n`room, n`drawn, n`sent, n`failed, n.outbuf
      ensures LogKept() && old(log) <= log && (ok ==> Valid())
      ensures Data(sent) == old(Data(sent)) && Account(log) == old(Account(log))
      ensures ok ==> sent == old(sent) + [[kind] + body] && log == old(log) + [Out([kind] + body)]
      ensures !ok ==> sent == old(sent) && log == old(log) && n.failed
      ensures (old(n.room) >= C.MOST ==> ok) && (ok ==> n.room >= old(n.room) - C.MOST)
    {
      hide StreamKept, ReadKept, LogKept, Linked, Matches, Data, Account;
      ok := SendRaw(kind, body);
    }

    /** Sends one channel data message within the limits of the client. */
    method SendChunk(d: bytes, ghost fs: seq<frame>) returns (ok: bool)
      requires Valid() && 0 < |d| <= clientWindow && |d| <= Word32(clientMaxpkt - 16) && |d| <= OUT_CAP - 9
      requires Due(fs, d)
      modifies `sent, `log, `clientWindow, n`seqOut, n`posOut, n`output, n`room, n`drawn, n`sent, n`failed, n.outbuf
      ensures LogKept() && old(log) <= log
      ensures ok ==> Valid() && Data(sent) == old(Data(sent)) + d && clientWindow == old(clientWindow) - |d|
      ensures !ok ==> n.failed
      ensures ok ==> log == old(log) + [Out(DataMessage(chanClientId, d))] && old(sent) <= sent
    {
      hide StreamKept, Data, DataOf, Account, Ins, Outs, Respected, DataMessage, AlwaysEarned, Fed, Started, Framed;
      hide Answers, Deframe, C.Conn.Valid, C.Conn.Settled, C.Payloads;
      ghost var m := DataMessage(chanClientId, d);
      ok := PostData(d);
      if ok {
        ghost var b := Account(log);
        NothingDropped(chanClientId, d);
        Shifted(b.granted - b.spent, -|d|);
        FramesFirst(fs, received);
        AnswersGrow(v, fs, Deframe(received).0);
        EarnedSnoc(v, log, Out(m));
        LogSnoc(log, Out(m));
        DataSnoc(sent, m);
        assert before + sent + [m] == before + (sent + [m]);
        sent, log := sent + [m], log + [Out(m)];
        clientWindow := Word32(clientWindow - |d|);
      }
    }

    /** Sends channel data through the connection. */
    method PostData(d: bytes) returns (ok: bool)
      requires Linked() && |d| <= OUT_CAP - 9
      modifies n`seqOut, n`posOut, n`output, n`room, n`drawn, n`sent, n`failed, n.outbuf
      ensures !ok ==> n.failed
      ensures ok ==> n.Valid() && n.Settled()
      ensures ok ==> C.Payloads(n.sent) == before + sent + [DataMessage(chanClientId, d)]
    {
      hide C.Conn.Valid, C.Payloads, Big32;
      Lengths();
      BufferSize(n);
      var w := n.OutBegin(MSG_CHANNEL_DATA);
      w.PutU32(chanClientId);
      w.PutString(d);
      ok := n.OutSend(w);
      if ok {
        GrownPayloads(old(n.sent), n.sent, DataMessage(chanClientId, d));
      }
    }

    /** memcpy to the end of the input buffer. */
    method Store(d: bytes)
      requires Sizes() && StreamKept() && sftpInLen + |d| <= sftpIn.Length
      modifies `sftpInLen, `received, sftpIn
      ensures Sizes() && StreamKept() && Pending() == old(Pending()) + d && received == old(received) + d
    {
      ghost var was := sftpIn[..sftpInLen];
      for i := 0 to |d|
        invariant sftpInLen == old(sftpInLen) && received == old(received)
        invariant sftpIn[..sftpInLen] == was && sftpIn[sftpInLen..sftpInLen + i] == d[..i]
      {
        sftpIn[sftpInLen + i] := d[i];
      }
      assert sftpIn[..sftpInLen + |d|] == was + d;
      sftpInLen := sftpInLen + |d|;
      received := received + d;
    }

    /** The packet p becomes part of the history, with the bytes that it added to the stream. */
    method Note(p: bytes, ghost d: bytes)
      requires LogKept() && sftpStarted == Started(read) && received == Fed(read) + d
      requires d == if Is(p, MSG_CHANNEL_DATA) && sftpStarted then DataIn(p) else []
      modifies `read, `log
      ensures LogKept() && log == old(log) + [In(p)] && Account(log) == EnterIn(old(Account(log)), p)
      ensures read == old(read) + [p] && received == Fed(read) && Started(read) == (sftpStarted || AsksForSftp(p))
    {
      hide Started, Fed, AsksForSftp, DataIn, Ins, Outs, Account, EnterIn, Respected, AlwaysEarned;
      FedSnoc(read, p);
      LogSnoc(log, In(p));
      EarnedSnoc(v, log, In(p));
      read, log := read + [p], log + [In(p)];
    }

    /** A packet that the accounts do not mention. */
    method Skip(p: bytes)
      requires Valid() && !Is(p, MSG_CHANNEL_DATA) && !Is(p, MSG_CHANNEL_REQUEST)
      requires !Is(p, MSG_CHANNEL_OPEN) && !Is(p, MSG_CHANNEL_WINDOW_ADJUST)
      modifies `read, `log
      ensures Valid() && LogKept()
      ensures log == old(log) + [In(p)] && read == old(read) + [p] && Account(log) == old(Account(log))
    {
      hide StreamKept, LogKept, Linked, Matches, Started, Fed, AsksForSftp, Account;
      NotARequest(p);
      assert Fed(read) + [] == Fed(read);
      Note(p, []);
      assert old(Account(log)).(started := old(Account(log)).started) == old(Account(log));
    }

    /** The accounts count n more bytes than were taken off the window. */
    ghost predicate Ahead(b: Book, n: nat)
      reads `chanOpen, `chanClientId, `clientWindow, `clientMaxpkt, `ourWindow, `sftpStarted
    {
      && Agrees(b) && Steady(ourWindow, b.offered - b.used + n, b.open && b.polite)
      && (b.open && b.polite ==> b.used <= b.offered)
    }

    /** Takes received bytes off the window, and enlarges it when half of it is used up. */
    method UseWindow(count: nat) returns (ok: bool)
      requires LogKept() && Linked() && Ahead(Account(log), count)
      modifies `sent, `log, `ourWindow, n`seqOut, n`posOut, n`output, n`room, n`drawn, n`sent, n`failed, n.outbuf
      ensures LogKept() && old(log) <= log
      ensures (old(n.room) >= C.MOST ==> ok) && (!ok ==> n.failed)
      ensures ok ==> Linked() && Matches(Account(log)) && Data(sent) == old(Data(sent))
      ensures ok ==> var left := Word32(old(ourWindow) - count);
              sent == old(sent) + if left >= OUR_WINDOW / 2 then [] else [Adjustment(chanClientId)]
    {
      hide LogKept, Linked, Data, Account, Agrees, Steady, EnterOut, Word32;
      ok := true;
      ghost var b := Account(log);
      Consumed(ourWindow, b.offered - b.used + count, count, b.open && b.polite);
      ourWindow := Word32(ourWindow - count);
      if ourWindow < OUR_WINDOW / 2 {
        Adjusts(b, chanClientId);
        ok := SendRaw(MSG_CHANNEL_WINDOW_ADJUST, Big32(chanClientId) + Big32(OUR_WINDOW));
        if !ok {
          return;
        }
        ourWindow := Word32(ourWindow + OUR_WINDOW);
        AgreesStill(b);
      } else {
        assert sent + [] == sent;
      }
    }

    lemma AgreesStill(b: Book)
      requires Agrees(b)
      ensures Agrees(b.(offered := b.offered + OUR_WINDOW))
    {
    }

    /** Data for the subsystem, for which there is room. */
    method Keep(p: bytes, d: bytes) returns (ok: bool)
      requires Valid() && Is(p, MSG_CHANNEL_DATA) && sftpStarted && d == DataIn(p) && sftpInLen + |d| <= 2 * MAX_PACKET
      modifies `sent, `log, `sftpInLen, `received, `read, `ourWindow, sftpIn
      modifies n`seqOut, n`posOut, n`output, n`room, n`drawn, n`sent, n`failed, n.outbuf
      ensures LogKept() && old(log) <= log && (old(n.room) >= C.MOST ==> ok) && (!ok ==> n.failed)
      ensures ok ==> Valid() && Data(sent) == old(Data(sent)) && read == old(read) + [p] && old(log) + [In(p)] <= log
      ensures ok ==> Pending() == old(Pending()) + d && old(received) <= received
      ensures ok ==> var left := Word32(old(ourWindow) - |d|);
              sent == old(sent) + if left >= OUR_WINDOW / 2 then [] else [Adjustment(chanClientId)]
    {
      hide Data, LogKept, Linked, Fed, Started, DataIn, AsksForSftp, Account, Adjustment;
      NotARequest(p);
      Store(d);
      Note(p, d);
      ok := UseWindow(|d|);
    }

    /** Channel data is kept for the subsystem, if it was started. */
    method OnData(p: bytes) returns (ok: bool)
      requires Valid() && Is(p, MSG_CHANNEL_DATA)
      modifies `sent, `log, `sftpInLen, `received, `read, `ourWindow, `refusal, sftpIn
      modifies n`seqOut, n`posOut, n`output, n`room, n`drawn, n`sent, n`failed, n.outbuf
      ensures LogKept() && old(log) <= log && (!ok ==> Excused())
      ensures old(n.room) >= C.MOST ==>
                (ok <==> !Incorrect(p) && !(old(sftpStarted) && Overflows(old(sftpInLen), p)))
      ensures ok ==> Valid() && Data(sent) == old(Data(sent)) && read == old(read) + [p] && old(log) + [In(p)] <= log
      ensures ok ==> Pending() == old(Pending()) + if sftpStarted then DataIn(p) else []
      ensures ok ==> old(received) <= received
      ensures ok ==> var left := Word32(old(ourWindow) - |DataIn(p)|);
              sent == old(sent) + if !sftpStarted || left >= OUR_WINDOW / 2 then [] else [Adjustment(chanClientId)]
    {
      hide Data, StreamKept, ReadKept, LogKept, Linked, Matches, DataIn, Account, Adjustment, AfterChannel, TakeString;
      var d;
      ok, d := ParseData(p);
      if !ok {
        refusal := Some(Broken(p));
        return;
      }
      if !sftpStarted {
        assert old(Pending()) + [] == old(Pending()) && sent + [] == sent;
        SkipData(p);
        return;
      }
      if sftpInLen + |d| > 2 * MAX_PACKET {
        refusal := Some(TooMuch(sftpInLen, p));
        return false;
      }
      ok := Keep(p, d);
    }

    /** Channel data that nobody waits for. */
    method SkipData(p: bytes)
      requires Valid() && Is(p, MSG_CHANNEL_DATA) && !sftpStarted
      modifies `read, `log
      ensures Valid() && log == old(log) + [In(p)] && read == old(read) + [p]
    {
      hide StreamKept, LogKept, Linked, Started, Fed, AsksForSftp, Account, Steady, DataIn;
      NotARequest(p);
      assert Fed(read) + [] == Fed(read);
      Note(p, []);
      assert old(Account(log)).(started := old(Account(log)).started) == old(Account(log));
    }

    method ParseData(p: bytes) returns (ok: bool, d: bytes)
      requires p != []
      ensures d == DataIn(p) && ok == !TakeString(p, AfterChannel(p)).1.bad
    {
      hide Value32;
      var r := new Reader(p);
      var t := r.GetU8();
      var channel := r.GetU32();
      d := r.GetString();
      ok := !r.bad;
    }

    /** The one session channel; a small packet limit of the client is raised to 1024. */
    method OnOpen(p: bytes) returns (ok: bool)
      requires Valid() && Is(p, MSG_CHANNEL_OPEN)
      modifies `sent, `log, `read, `chanOpen, `chanClientId, `clientWindow, `clientMaxpkt, `ourWindow, `refusal
      modifies n`seqOut, n`posOut, n`output, n`room, n`drawn, n`sent, n`failed, n.outbuf
      ensures LogKept() && old(log) <= log && (!ok ==> Excused())
      ensures old(n.room) >= C.MOST ==> (ok <==> !Incorrect(p))
      ensures ok ==> Valid() && Data(sent) == old(Data(sent)) && OpenFields(p).4
      ensures ok ==> read == old(read) + [p] && old(log) + [In(p)] <= log
      ensures ok ==> var (kind, sender, win, maxp, _) := OpenFields(p);
              if old(chanOpen) || kind != Ascii("session") then
                && chanOpen == old(chanOpen) && clientWindow == old(clientWindow) && clientMaxpkt == old(clientMaxpkt)
                && ourWindow == old(ourWindow) && chanClientId == old(chanClientId)
                && sent == old(sent) + [[MSG_CHANNEL_OPEN_FAILURE] + OpenFailure(sender)]
              else
                && chanOpen && chanClientId == sender && clientWindow == win && ourWindow == OUR_WINDOW
                && clientMaxpkt == (if maxp < 1024 then 1024 else maxp)
                && sent == old(sent) + [[MSG_CHANNEL_OPEN_CONFIRMATION] + Confirmation(sender)]
    {
      hide Data, StreamKept, ReadKept, LogKept, Linked, Matches, OpenFields, Ascii, OpenFailure, Confirmation, Account;
      var kind, sender, win, maxp;
      ok, kind, sender, win, maxp := ParseOpen(p);
      if !ok {
        refusal := Some(Broken(p));
        return;
      }
      var free := !chanOpen && kind == Ascii("session");
      NoteOpen(p);
      if !free {
        ShortAnswers(sender);
        ok := SendOther(MSG_CHANNEL_OPEN_FAILURE, OpenFailure(sender));
        return;
      }
      ok := Confirm(old(Account(log)), sender, win, maxp);
    }

    method Confirm(ghost b: Book, sender: u32, win: u32, maxp: u32) returns (ok: bool)
      requires LogKept() && Linked() && Account(log) == Opened(b, sender, win, maxp) && sftpStarted == b.started
      modifies `sent, `log, `chanOpen, `chanClientId, `clientWindow, `clientMaxpkt, `ourWindow
      modifies n`seqOut, n`posOut, n`output, n`room, n`drawn, n`sent, n`failed, n.outbuf
      ensures LogKept() && Data(sent) == old(Data(sent)) && old(log) <= log
      ensures (old(n.room) >= C.MOST ==> ok) && (!ok ==> n.failed)
      ensures ok ==> Linked() && Matches(Account(log))
      ensures ok ==> sent == old(sent) + [[MSG_CHANNEL_OPEN_CONFIRMATION] + Confirmation(sender)]
      ensures chanOpen && chanClientId == sender && clientWindow == win && ourWindow == OUR_WINDOW
      ensures clientMaxpkt == if maxp < 1024 then 1024 else maxp
    {
      hide Data, LogKept, Linked, Confirmation, Account, EnterOut;
      chanOpen, chanClientId, clientWindow, ourWindow := true, sender, win, OUR_WINDOW;
      clientMaxpkt := if maxp < 1024 then 1024 else maxp;
      Offers(Opened(b, sender, win, maxp), sender);
      ShortAnswers(sender);
      ok := SendRaw(MSG_CHANNEL_OPEN_CONFIRMATION, Confirmation(sender));
    }

    method ParseOpen(p: bytes) returns (ok: bool, kind: bytes, sender: u32, win: u32, maxp: u32)
      requires p != []
      ensures (kind, sender, win, maxp, ok) == OpenFields(p)
    {
      hide TakeU32, TakeString;
      var r := new Reader(p);
      var t := r.GetU8();
      kind := r.GetString();
      sender := r.GetU32();
      win := r.GetU32();
      maxp := r.GetU32();
      ok := !r.bad;
    }

    /** A request to open a channel becomes part of the history; the accounts are new if it will be granted. */
    method NoteOpen(p: bytes)
      requires Valid() && Is(p, MSG_CHANNEL_OPEN) && OpenFields(p).4
      modifies `read, `log
      ensures LogKept() && ReadKept() && Linked() && log == old(log) + [In(p)] && read == old(read) + [p]
      ensures var (kind, sender, win, maxp, _) := OpenFields(p);
              if chanOpen || kind != Ascii("session") then Matches(Account(log))
              else Account(log) == Opened(old(Account(log)), sender, win, maxp) && sftpStarted == Account(log).started
    {
      hide StreamKept, LogKept, Linked, OpenFields, Ascii, Account, Fed, Started, AsksForSftp;
      NotARequest(p);
      assert Fed(read) + [] == Fed(read);
      Note(p, []);
    }

    /** Starts the subsystem, once. */
    method OnRequest(p: bytes) returns (ok: bool)
      requires Valid() && Is(p, MSG_CHANNEL_REQUEST)
      modifies `sent, `log, `sftpStarted, `read
      modifies n`seqOut, n`posOut, n`output, n`room, n`drawn, n`sent, n`failed, n.outbuf
      ensures LogKept() && old(log) <= log && (old(n.room) >= C.MOST ==> ok) && (!ok ==> n.failed)
      ensures ok ==> Valid() && Data(sent) == old(Data(sent)) && read == old(read) + [p] && old(log) + [In(p)] <= log
      ensures ok ==> sftpStarted == (old(sftpStarted) || AsksForSftp(p))
      ensures ok ==> var want := TakeU8(p, TakeString(p, AfterChannel(p)).1).0;
                     var kind := if AsksForSftp(p) && !old(sftpStarted) then MSG_CHANNEL_SUCCESS
                                 else MSG_CHANNEL_FAILURE;
                     sent == old(sent) + if want != 0 then [[kind] + Big32(chanClientId)] else []
    {
      hide Data, TakeU8, TakeString, StreamKept, LogKept, Linked, Big32, AsksForSftp, Started, Fed, Account;
      var asks, want := ParseRequest(p);
      var started := asks && !sftpStarted;
      assert Fed(read) + [] == Fed(read);
      Note(p, []);
      sftpStarted := sftpStarted || started;
      ok := true;
      if want != 0 {
        ok := SendOther(if started then MSG_CHANNEL_SUCCESS else MSG_CHANNEL_FAILURE, Big32(chanClientId));
      }
    }

    method ParseRequest(p: bytes) returns (asks: bool, want: u8)
      requires Is(p, MSG_CHANNEL_REQUEST)
      ensures asks == AsksForSftp(p) && want == TakeU8(p, TakeString(p, AfterChannel(p)).1).0
    {
      hide TakeU32, TakeString, Ascii;
      var r := new Reader(p);
      var t := r.GetU8();
      var channel := r.GetU32();
      var kind := r.GetString();
      want := r.GetU8();
      asks := false;
      if kind == Ascii("subsystem") {
        var sub := r.GetString();
        asks := !r.bad && sub == Ascii("sftp");
      }
    }

    /** The client grants more window; the sum is of 32 bits. */
    method OnAdjust(p: bytes)
      requires Valid() && Is(p, MSG_CHANNEL_WINDOW_ADJUST)
      modifies `clientWindow, `read, `log
      ensures Valid() && read == old(read) + [p] && log == old(log) + [In(p)]
      ensures clientWindow == Word32(old(clientWindow) + TakeU32(p, AfterChannel(p)).0)
    {
      hide StreamKept, LogKept, Linked, TakeU32, Fed, Started, Account, AsksForSftp, Word32, Steady, DataIn;
      var add := ParseAdjust(p);
      NotARequest(p);
      assert Fed(read) + [] == Fed(read);
      ghost var b := Account(log);
      Shifted(b.granted - b.spent, add);
      Note(p, []);
      clientWindow := Word32(clientWindow + add);
    }

    method ParseAdjust(p: bytes) returns (add: u32)
      requires p != []
      ensures add == TakeU32(p, AfterChannel(p)).0
    {
      hide TakeU32;
      var r := new Reader(p);
      var t := r.GetU8();
      var channel := r.GetU32();
      add := r.GetU32();
    }

    method OnGlobalRequest(p: bytes) returns (ok: bool)
      requires Valid() && p != []
      modifies `sent, `log, n`seqOut, n`posOut, n`output, n`room, n`drawn, n`sent, n`failed, n.outbuf
      ensures LogKept() && old(log) <= log && (old(n.room) >= C.MOST ==> ok) && (!ok ==> n.failed)
      ensures ok ==> Valid() && Data(sent) == old(Data(sent))
      ensures ok ==> var want := TakeU8(p, TakeString(p, Cursor(1, false)).1).0;
                     sent == old(sent) + if want != 0 then [[MSG_REQUEST_FAILURE]] else []
    {
      hide Data, TakeString, StreamKept, ReadKept, LogKept, Linked, Matches, Account;
      var r := new Reader(p);
      var t := r.GetU8();
      var name := r.GetString();
      var want := r.GetU8();
      ok := true;
      if want != 0 {
        ok := SendOther(MSG_REQUEST_FAILURE, []);
        assert [MSG_REQUEST_FAILURE] + [] == [MSG_REQUEST_FAILURE];
      }
    }

    /** The server's own end of file and close, once. */
    method OnClose(close: bool) returns (ok: bool)
      requires Valid()
      modifies `sent, `log, `chanClosed, `closing
      modifies n`seqOut, n`posOut, n`output, n`room, n`drawn, n`sent, n`failed, n.outbuf
      ensures LogKept() && old(log) <= log && (old(n.room) >= 2 * C.MOST ==> ok) && (!ok ==> n.failed)
      ensures ok ==> Valid() && Data(sent) == old(Data(sent)) && closing == (old(closing) || close) && chanClosed
      ensures ok ==> var id := Big32(chanClientId);
                     sent == old(sent) + if old(chanClosed) then []
                                         else [[MSG_CHANNEL_EOF] + id, [MSG_CHANNEL_CLOSE] + id]
    {
      hide Data, StreamKept, ReadKept, LogKept, Linked, Matches, Account, Big32;
      ok := true;
      if !chanClosed {
        chanClosed := true;
        ok := SendOther(MSG_CHANNEL_EOF, Big32(chanClientId));
        if !ok {
          return;
        }
        ok := SendOther(MSG_CHANNEL_CLOSE, Big32(chanClientId));
        if !ok {
          return;
        }
      }
      closing := closing || close;
    }

    /** A key exchange in the middle of the session, by the connection.  Nothing of the channel changes; the packets of
        the exchange become part of the history. */
    method DoKex(p: bytes) returns (ok: bool)
      requires Valid() && Between() && 1 <= |p| <= MAX_PACKET - 5 && |p| <= n.inbuf.Length && n.inbuf[..|p|] == p
      modifies `sent, `log, `read, `exchanges, n, n.inbuf, n.outbuf
      ensures LogKept() && old(log) <= log && (!ok ==> n.failed)
      ensures ok ==> |n.input| <= |old(n.input)|
      ensures ok ==> Valid() && Between() && Data(sent) == old(Data(sent)) && Account(log) == old(Account(log))
      ensures ok ==> old(read) <= read && C.Heads(read[|old(read)|..]) == [MSG_KEX_ECDH_INIT, MSG_NEWKEYS]
      ensures ok ==> old(sent) <= sent && C.Heads(sent[|old(sent)|..])
                     == (if old(n.kexinitServer).None? then [MSG_KEXINIT as int] else [])
                        + [MSG_KEX_ECDH_REPLY, MSG_NEWKEYS] + if old(n.encrypted) then [] else [MSG_EXT_INFO]
      ensures ok ==> old(C.Switches(n.sent)) <= C.Switches(n.sent)
                     && |C.Switches(n.sent)| == |old(C.Switches(n.sent))| + 1
    {
      hide StreamKept, ReadKept, LogKept, Matches, Account, Data, C.Conn.Valid, C.Conn.Settled, C.Payloads, C.Heads;
      hide C.Switches, AllQuiet;
      ghost var qs, ps;
      ghost var offered := n.kexinitServer.None?;
      ok, qs, ps := Exchange(p);
      if ok {
        NoteKex(qs, ps, offered);
        assert sent[|old(sent)|..] == qs && read[|old(read)|..] == ps;
      }
    }

    /** The exchange, as the connection does it. */
    method Exchange(p: bytes) returns (ok: bool, ghost qs: seq<bytes>, ghost ps: seq<bytes>)
      requires Linked() && Between() && 1 <= |p| <= MAX_PACKET - 5 && |p| <= n.inbuf.Length && n.inbuf[..|p|] == p
      modifies `exchanges, n, n.inbuf, n.outbuf
      ensures !ok ==> n.failed
      ensures ok ==> n.Valid() && n.Settled() && |n.input| <= |old(n.input)|
      ensures ok ==> C.Payloads(n.sent) == before + sent + qs && C.Payloads(n.got) == earlier + read + ps
      ensures ok ==> AllQuiet(qs) && AllQuiet(ps) && C.Heads(ps) == [MSG_KEX_ECDH_INIT, MSG_NEWKEYS]
      ensures ok ==> C.Heads(qs) == (if old(n.kexinitServer).None? then [MSG_KEXINIT as int] else [])
                        + [MSG_KEX_ECDH_REPLY, MSG_NEWKEYS] + if old(n.encrypted) then [] else [MSG_EXT_INFO]
      ensures ok ==> old(C.Switches(n.sent)) <= C.Switches(n.sent)
                     && |C.Switches(n.sent)| == |old(C.Switches(n.sent))| + 1
    {
      hide C.Conn.Valid, C.Conn.Settled, C.Payloads, C.Heads, C.Switches, C.Kinds, AllQuiet, C.Common, C.Offer;
      hide C.ExchangeHash, TakeString;
      var l := draw(exchanges);
      exchanges := exchanges + 1;
      ghost var point, offer;
      qs, ps := [], [];
      ok, point, offer := n.DoKex(|p|, l.cookie, l.ecdh, l.sign);
      if ok {
        KexPayloads(old(n.sent), n.sent, old(n.got), n.got, old(n.kexinitServer).None?, !old(n.encrypted));
        qs, ps := C.Payloads(n.sent)[|before + sent|..], C.Payloads(n.got)[|earlier + read|..];
      }
    }

    /** The packets of an exchange become part of the history, in the order in which they went. */
    ghost method NoteKex(qs: seq<bytes>, ps: seq<bytes>, offered: bool)
      requires LogKept() && ReadKept() && AllQuiet(qs) && AllQuiet(ps) && |ps| == 2
      requires |qs| >= 2 + if offered then 1 else 0
      requires C.Payloads(n.sent) == before + sent + qs && C.Payloads(n.got) == earlier + read + ps
      modifies `sent, `log, `read
      ensures LogKept() && ReadKept() && old(log) <= log && sent == old(sent) + qs && read == old(read) + ps
      ensures Data(sent) == old(Data(sent)) && Account(log) == old(Account(log))
      ensures C.Payloads(n.sent) == before + sent && C.Payloads(n.got) == earlier + read
    {
      hide Data, Outs, Ins, Account, Respected, AlwaysEarned, Fed, Started, AllQuiet, C.Payloads;
      var a := if offered then 1 else 0;
      var es := KexLog(qs, ps, a);
      KexOrder(qs, ps, a);
      QuietLog(v, log, es);
      assert before + (sent + qs) == before + sent + qs && earlier + (read + ps) == earlier + read + ps;
      sent, read, log := sent + qs, read + ps, log + es;
    }

    /** What a packet that arrives while a reply is blocked may change: it adds to the input, and nothing else. */
    twostate predicate OnlyFed()
      reads `sftp, `sent, `handled, `sftpInLen, sftpIn, `sftpStarted, `received
      requires sftpInLen <= sftpIn.Length && old(sftpInLen <= sftpIn.Length)
    {
      && sftp == old(sftp) && handled == old(handled) && Data(sent) == old(Data(sent))
      && old(Pending()) <= Pending() && old(received) <= received
    }

    /** Everything a packet does but answering requests. */
    method Absorb(p: bytes) returns (ok: bool)
      requires Valid() && Reading(p)
      modifies `sent, `log, `chanOpen, `chanClosed, `closing, `chanClientId, `clientWindow, `exchanges
      modifies `clientMaxpkt, `ourWindow, `sftpStarted, `sftpInLen, `received, `read, `refusal, sftpIn
      modifies n, n.inbuf, n.outbuf
      ensures LogKept() && old(log) <= log && (!ok ==> Excused())
      ensures old(n.room) >= 2 * C.MOST && !Is(p, MSG_KEXINIT) ==>
                (ok <==> !Incorrect(p) && !(old(sftpStarted) && Overflows(old(sftpInLen), p)))
      ensures ok ==> |n.input| <= |old(n.input)|
      ensures ok ==> Valid() && Between() && Data(sent) == old(Data(sent)) && old(log) + [In(p)] <= log
      ensures ok ==> Pending() == old(Pending()) + if Is(p, MSG_CHANNEL_DATA) && sftpStarted then DataIn(p) else []
      ensures ok ==> old(received) <= received
      ensures ok ==> old(sent) <= sent
      ensures ok && !Is(p, MSG_KEXINIT) ==>
                sent == old(sent)
                        + old(Reaction(p, chanOpen, chanClosed, sftpStarted, chanClientId, ourWindow, n.seqIn))
      ensures ok ==> closing == (old(closing) || Is(p, MSG_DISCONNECT) || Is(p, MSG_CHANNEL_CLOSE))
      ensures ok ==> chanClosed == (old(chanClosed) || Is(p, MSG_CHANNEL_EOF) || Is(p, MSG_CHANNEL_CLOSE))
    {
      hide StreamKept, ReadKept, LogKept, Linked, Matches, Account, Data, TakeString, TakeU32, Big32, OpenFields;
      hide DataIn, AsksForSftp, Confirmation, OpenFailure, Adjustment, Ascii, Word32, AfterChannel;
      ok := true;
      assert sent + [] == sent && old(Pending()) + [] == old(Pending());
      var t := if p == [] then 0 else p[0];
      if t == MSG_CHANNEL_DATA {
        ok := OnData(p);
      } else if t == MSG_CHANNEL_REQUEST {
        ok := OnRequest(p);
      } else if t == MSG_CHANNEL_OPEN {
        ok := OnOpen(p);
      } else if t == MSG_CHANNEL_WINDOW_ADJUST {
        OnAdjust(p);
      } else {
        ok := AbsorbOther(p);
      }
    }

    /** Packets of which the accounts do not speak. */
    method AbsorbOther(p: bytes) returns (ok: bool)
      requires Valid() && Reading(p) && !Is(p, MSG_CHANNEL_DATA) && !Is(p, MSG_CHANNEL_REQUEST)
      requires !Is(p, MSG_CHANNEL_OPEN) && !Is(p, MSG_CHANNEL_WINDOW_ADJUST)
      modifies `sent, `log, `chanClosed, `closing, `read, `exchanges, n, n.inbuf, n.outbuf
      ensures LogKept() && old(log) <= log && (!ok ==> n.failed)
      ensures old(n.room) >= 2 * C.MOST && !Is(p, MSG_KEXINIT) ==> ok
      ensures ok ==> |n.input| <= |old(n.input)|
      ensures ok ==> Valid() && Between() && Data(sent) == old(Data(sent)) && old(log) + [In(p)] <= log
      ensures ok ==> old(sent) <= sent
      ensures ok && !Is(p, MSG_KEXINIT) ==>
                sent == old(sent)
                        + old(Reaction(p, chanOpen, chanClosed, sftpStarted, chanClientId, ourWindow, n.seqIn))
      ensures ok ==> closing == (old(closing) || Is(p, MSG_DISCONNECT) || Is(p, MSG_CHANNEL_CLOSE))
      ensures ok ==> chanClosed == (old(chanClosed) || Is(p, MSG_CHANNEL_EOF) || Is(p, MSG_CHANNEL_CLOSE))
    {
      hide StreamKept, ReadKept, LogKept, Linked, Matches, Account, Data, TakeString, Big32, OpenFields, DataIn, TakeU8;
      hide AsksForSftp, Confirmation, OpenFailure, Adjustment, Ascii, Word32, AfterChannel;
      ok := true;
      assert sent + [] == sent;
      var t := if p == [] then 0 else p[0];
      Skip(p);
      if t == MSG_IGNORE || t == MSG_DEBUG || t == MSG_UNIMPLEMENTED || t == MSG_EXT_INFO {
      } else if t == MSG_DISCONNECT {
        closing := true;
      } else if t == MSG_KEXINIT {
        ok := DoKex(p);
      } else if t == MSG_GLOBAL_REQUEST {
        ok := OnGlobalRequest(p);
      } else if t == MSG_CHANNEL_EOF || t == MSG_CHANNEL_CLOSE {
        ok := OnClose(t == MSG_CHANNEL_CLOSE);
      } else {
        ok := SendOther(MSG_UNIMPLEMENTED, Big32(Word32(n.seqIn - 1)));
      }
    }

    /** One packet of the connection protocol; requests are answered only when nothing is being sent. */
    method HandlePacket(p: bytes, allow: bool) returns (ok: bool)
      requires Valid() && Reading(p) && (allow ==> Idle())
      modifies this, sftpIn, if allow then {reply} else {}, n, n.inbuf, n.outbuf
      ensures LogKept() && old(log) <= log && (!ok ==> Excused())
      ensures ok ==> |n.input| <= |old(n.input)|
      ensures ok ==> Valid() && Between() && (if allow then Idle() else OnlyFed()) && old(log) + [In(p)] <= log
      ensures ok ==> old(sent) <= sent
      ensures ok && !Is(p, MSG_KEXINIT) ==>
                old(sent) + old(Reaction(p, chanOpen, chanClosed, sftpStarted, chanClientId, ourWindow, n.seqIn))
                <= sent
      decreases |n.input|, 5
    {
      hide StreamKept, ReadKept, LogKept, Linked, Matches, Account, Data, AfterChannel, DataIn, Reaction;
      ok := Absorb(p);
      if ok && allow && p != [] && p[0] == MSG_CHANNEL_DATA && sftpStarted {
        ok := Drain();
      }
    }

    lemma SomeFits()
      requires Matches(Account(log))
      ensures Word32(clientMaxpkt - 16) > 0
    {
      hide Account;
    }

    /** While the window of the client is closed, packets are read and handled. */
    method Await() returns (ok: bool)
      requires Valid() && Between()
      modifies this, sftpIn, n, n.inbuf, n.outbuf
      ensures LogKept() && old(log) <= log && (!ok ==> Excused())
      ensures ok ==> Valid() && Between() && clientWindow > 0 && Data(sent) == old(Data(sent))
      ensures ok ==> old(sent) <= sent
      ensures ok ==> |n.input| <= |old(n.input)| && (|n.input| == |old(n.input)| ==> Pending() == old(Pending()))
      ensures ok ==> sftp == old(sftp) && handled == old(handled) && old(Pending()) <= Pending()
      ensures ok ==> old(received) <= received
      decreases |n.input|, 0
    {
      hide StreamKept, ReadKept, LogKept, Linked, Matches, Account, Data;
      ok := true;
      while clientWindow == 0
        invariant Valid() && Between() && Data(sent) == old(Data(sent))
        invariant old(log) <= log && old(sent) <= sent
        invariant sftp == old(sftp) && handled == old(handled) && old(Pending()) <= Pending()
        invariant old(received) <= received && |n.input| <= |old(n.input)|
        invariant |n.input| == |old(n.input)| ==> Pending() == old(Pending())
        decreases |n.input|
      {
        var p;
        ok, p := ReadPacket();
        if !ok {
          return;
        }
        ok := HandlePacket(p, false);
        if !ok {
          return;
        }
        if closing {
          return false;
        }
      }
    }

    /** Sends as much of these bytes as the client takes now, once it takes any. */
    method SendPiece(d: bytes, ghost fs: seq<frame>) returns (ok: bool, chunk: nat)
      requires Valid() && Between() && 0 < |d| <= OUT_CAP - 9 && Due(fs, d)
      modifies this, sftpIn, n, n.inbuf, n.outbuf
      ensures LogKept() && old(log) <= log && (!ok ==> Excused())
      ensures ok ==> 0 < chunk <= |d| && Valid() && Between() && Data(sent) == old(Data(sent)) + d[..chunk]
      ensures ok ==> old(sent) <= sent && |n.input| <= |old(n.input)|
      ensures ok ==> |n.input| == |old(n.input)| ==> Pending() == old(Pending())
      ensures ok ==> sftp == old(sftp) && handled == old(handled) && old(Pending()) <= Pending()
      ensures ok ==> Due(fs, d[chunk..])
      ensures ok ==> old(received) <= received
      decreases |n.input|, 1
    {
      hide StreamKept, ReadKept, LogKept, Linked, Matches, Account, Data, DataMessage, Word32, Framed, Answers;
      chunk := |d|;
      ok := Await();
      if !ok {
        return;
      }
      SomeFits();
      if chunk > clientWindow {
        chunk := clientWindow;
      }
      if chunk > Word32(clientMaxpkt - 16) {
        chunk := Word32(clientMaxpkt - 16);
      }
      assert d[..chunk] + d[chunk..] == d;
      ghost var before := Data(sent);
      assert before + [] == before && before + d[..chunk] + d[chunk..] == before + d;
      Longer(before, [], d[..chunk], d, Answers(v, fs));
      ok := SendChunk(d[..chunk], fs);
    }

    /** Sends bytes as channel data, in pieces that the client takes. */
    method SendData(d: array<u8>, o: nat, count: nat, ghost fs: seq<frame>) returns (ok: bool)
      requires Valid() && Between() && o + count <= d.Length && count <= OUT_CAP - 9 && Due(fs, d[o..o + count])
      requires d != sftpIn && d != n.inbuf && d != n.outbuf
      modifies this, sftpIn, n, n.inbuf, n.outbuf
      ensures LogKept() && old(log) <= log && (!ok ==> Excused())
      ensures ok ==> Valid() && Between() && Data(sent) == old(Data(sent)) + d[o..o + count]
      ensures ok ==> old(sent) <= sent && |n.input| <= |old(n.input)|
      ensures ok ==> |n.input| == |old(n.input)| ==> Pending() == old(Pending())
      ensures ok ==> sftp == old(sftp) && handled == old(handled) && old(Pending()) <= Pending()
      ensures ok ==> old(received) <= received
      decreases |n.input|, 2
    {
      hide StreamKept, ReadKept, LogKept, Linked, Matches, Account, Data, DataMessage, Word32, Framed, Answers, Due;
      ok := true;
      ghost var whole := d[o..o + count];
      var i := 0;
      assert whole[0..] == whole && Data(sent) + whole[..0] == Data(sent);
      while i < count
        invariant 0 <= i <= count && Valid() && Between() && d[o..o + count] == whole && Due(fs, whole[i..])
        invariant LogKept() && old(log) <= log && old(sent) <= sent
        invariant Data(sent) == old(Data(sent)) + whole[..i]
        invariant sftp == old(sftp) && handled == old(handled) && old(Pending()) <= Pending()
        invariant old(received) <= received && |n.input| <= |old(n.input)|
        invariant |n.input| == |old(n.input)| ==> Pending() == old(Pending())
        decreases count - i
      {
        var chunk;
        assert d[o + i..o + count] == whole[i..];
        ok, chunk := SendPiece(d[o + i..o + count], fs);
        if !ok {
          return;
        }
        assert whole[i..][..chunk] == whole[i..i + chunk] && whole[i..][chunk..] == whole[i + chunk..];
        assert whole[..i] + whole[i..i + chunk] == whole[..i + chunk];
        i := i + chunk;
      }
      assert whole[..count] == whole;
    }

    /** Sends a reply after its length: in one piece if it is small, in two otherwise. */
    method SendReply(len: nat, ghost fs: seq<frame>) returns (ok: bool)
      requires Valid() && Between() && len <= REPLY_CAP && Due(fs, Big32(len) + reply[..len])
      modifies this, sftpIn, n, n.inbuf, n.outbuf
      ensures LogKept() && old(log) <= log && (!ok ==> Excused())
      ensures ok ==> Valid() && Between() && Data(sent) == old(Data(sent)) + Big32(len) + reply[..len]
      ensures ok ==> old(sent) <= sent && |n.input| <= |old(n.input)|
      ensures ok ==> |n.input| == |old(n.input)| ==> Pending() == old(Pending())
      ensures ok ==> sftp == old(sftp) && handled == old(handled) && old(Pending()) <= Pending()
      ensures ok ==> old(received) <= received
      decreases |n.input|, 3
    {
      hide StreamKept, ReadKept, LogKept, Linked, Matches, Account, Data, Big32, Framed, Answers;
      var hdr := Big32(len);
      if len + 4 <= Signed(clientMaxpkt) - 64 {
        var tmp := new u8[len + 4](i requires 0 <= i < len + 4 <= reply.Length + 4 reads reply =>
          if i < 4 then hdr[i] else reply[i - 4]);
        assert tmp[0..0 + (len + 4)] == hdr + reply[..len];
        ok := SendData(tmp, 0, len + 4, fs);
        assert old(Data(sent)) + (hdr + reply[..len]) == old(Data(sent)) + hdr + reply[..len];
      } else {
        var head := new u8[4](i requires 0 <= i < 4 => hdr[i]);
        assert head[0..0 + 4] == hdr;
        Longer(Data(sent), [], hdr, hdr + reply[..len], Answers(v, fs));
        ok := SendData(head, 0, 4, fs);
        if ok {
          assert reply[0..0 + len] == reply[..len];
          assert old(Data(sent)) + (hdr + reply[..len]) == old(Data(sent)) + hdr + reply[..len];
          ok := SendData(reply, 0, len, fs);
          assert reply[0..0 + len] == reply[..len];
        }
      }
    }

    /** The server handles one request and leaves its reply in the reply buffer. */
    method Serve(f: frame) returns (len: nat)
      requires Sizes()
      modifies `sftp, reply
      ensures len <= REPLY_CAP && sftp == v.serve(old(sftp), f).0 && reply[..len] == v.serve(old(sftp), f).1
    {
      var (s, r) := v.serve(sftp, f);
      sftp, len := s, |r|;
      for i := 0 to len
        invariant sftp == s && reply[..i] == r[..i]
      {
        reply[i] := r[i];
      }
    }

    /** memmove of what follows the first n bytes of the input buffer. */
    method Discard(n: nat)
      requires Sizes() && n <= sftpInLen
      modifies `sftpInLen, sftpIn
      ensures Sizes() && Pending() == old(Pending())[n..]
    {
      ghost var was := sftpIn[..];
      for i := 0 to sftpInLen - n
        invariant sftpInLen == old(sftpInLen)
        invariant forall k :: 0 <= k < i ==> sftpIn[k] == was[k + n]
        invariant forall k :: i <= k < sftpIn.Length ==> sftpIn[k] == was[k]
      {
        sftpIn[i] := sftpIn[i + n];
      }
      sftpInLen := sftpInLen - n;
      assert Pending() == was[..sftpInLen + n][n..];
    }

    lemma NextIsDue(f: frame, l: nat, d: bytes)
      requires Valid() && 4 + l <= sftpInLen && Pending()[..4 + l] == Big32(l) + f && l == |f|
      requires Data(sent) == Answers(v, handled) && Answers(v, handled + [f]) == Answers(v, handled) + d
      ensures Due(handled + [f], d)
    {
      hide ReadKept, LogKept, Linked, Matches, Account, Framed, Big32, Data, Answers;
      FramedSnoc(handled, f);
      var head, x, tail := Framed(handled), Big32(l) + f, Pending()[4 + l..];
      assert Pending() == x + tail && head + Big32(l) + f == head + x && head + (x + tail) == head + x + tail;
    }

    /** Answers every complete request in the input buffer, also those that arrive meanwhile. */
    method Drain() returns (ok: bool)
      requires Valid() && Between() && Answered()
      modifies this, sftpIn, reply, n, n.inbuf, n.outbuf
      ensures LogKept() && old(log) <= log && (!ok ==> Excused())
      ensures ok ==> |n.input| <= |old(n.input)|
      ensures ok ==> Idle() && Between() && old(log) <= log && old(sent) <= sent
      decreases |n.input|, 4
    {
      hide StreamKept, ReadKept, LogKept, Linked, Matches, Account, Data, Answers, StateAfter, Big32;
      ok := true;
      while true
        invariant Valid() && Between() && Answered() && |n.input| <= |old(n.input)|
        invariant old(log) <= log && old(sent) <= sent
        decreases |n.input|, sftpInLen
      {
        if sftpInLen < 4 {
          return;
        }
        var l := Value32(sftpIn[..4]);
        assert sftpIn[..4] == Pending()[..4];
        if l > MAX_PACKET {
          refusal := Some(TooLong(Pending()));
          return false;
        }
        if sftpInLen < l + 4 {
          return;
        }
        ghost var f: frame := sftpIn[4..4 + l];
        ghost var was := Pending();
        Big32Inverts(sftpIn[..4]);
        assert was[..4 + l] == Big32(l) + f;
        var len := Serve(sftpIn[4..4 + l]);
        AnswersSnoc(v, handled, f);
        NextIsDue(f, l, Big32(len) + reply[..len]);
        ok := SendReply(len, handled + [f]);
        if !ok {
          return;
        }
        assert Pending()[..4 + l] == was[..4 + l];
        Finished(f, l);
      }
    }

    /** The first request in the input buffer was answered. */
    method Finished(ghost f: frame, l: nat)
      requires Valid() && 4 + l <= sftpInLen && Pending()[..4 + l] == Big32(l) + f
      modifies `sftpInLen, `handled, sftpIn
      ensures Valid() && handled == old(handled) + [f] && sftpInLen == old(sftpInLen) - 4 - l
    {
      hide ReadKept, LogKept, Linked, Matches, Account, Framed, Big32;
      FramedSnoc(handled, f);
      Discard(4 + l);
      handled := handled + [f];
    }

    /** The session: packets are read and handled until the client is done or something fails.  What the log promises
        holds even then. */
    method ServeClient() returns (ok: bool)
      requires Idle() && Between()
      modifies this, sftpIn, reply, n, n.inbuf, n.outbuf
      ensures LogKept() && old(log) <= log && (!ok ==> Excused())
      ensures ok ==> Idle() && Between() && closing && old(log) <= log
    {
      hide StreamKept, ReadKept, LogKept, Linked, Matches, Account, Answered, Between;
      ok := true;
      while !closing
        invariant Idle() && Between() && old(log) <= log
        decreases |n.input|
      {
        var p;
        ok, p := ReadPacket();
        if !ok {
          return;
        }
        ok := HandlePacket(p, true);
        if !ok {
          return;
        }
      }
    }
  }

  /** However the stream was cut into packets, and whatever arrived while replies were blocked: the channel carried
      exactly the replies to the frames of the stream, in order. */
  lemma OnlyTheStreamMatters<S>(c: Conn<S>)
    requires c.Idle()
    ensures Deframe(Fed(c.read)) == (c.handled, c.Pending())
    ensures Data(c.sent) == Answers(c.v, Deframe(Fed(c.read)).0)
    ensures c.sftp == StateAfter(c.v, Deframe(Fed(c.read)).0)
  {
    DeframeInverts(c.handled, c.Pending());
  }

  /** Between packets the input buffer has room for any packet: only a blocked reply can make it overflow. */
  lemma RoomForOneMore<S>(c: Conn<S>, p: bytes)
    requires c.Idle() && |p| <= MAX_PACKET - 5
    ensures |c.Pending()| + |DataIn(p)| <= 2 * MAX_PACKET
  {
  }

  /**
    The windows, from the packets alone.  What the client granted since the channel was opened is what was sent since
    and what may still be sent, unless a grant ever wrapped around; what it was offered is what was kept for the
    subsystem since and what may still come, and the window stays between half and one and a half of its size, as long
    as the client keeps to it.
   */
  lemma WindowsConserved<S>(c: Conn<S>)
    requires c.Idle()
    ensures Ins(c.log) == c.read && Outs(c.log) == c.sent
    ensures var b := Account(c.log);
            && c.clientWindow == Word32(b.granted - b.spent) && c.ourWindow == Word32(b.offered - b.used)
            && (b.exact ==> |Data(c.sent)| + c.clientWindow == b.before + b.granted)
            && (b.exact ==> |Answers(c.v, Deframe(Fed(c.read)).0)| + c.clientWindow == b.before + b.granted)
            && SameTerms(b, Terms(c.read))
            && (b.open && b.polite ==> b.prior + |Fed(c.read)| + c.ourWindow == b.early + Offered(c.sent))
            && (b.open && b.polite ==> OUR_WINDOW / 2 <= c.ourWindow < 3 * OUR_WINDOW / 2)
  {
    hide Account, Deframe, Answers, Fed, Started, Data, Respected, Ins, Outs, StateAfter, Framed, AlwaysEarned;
    hide Conn.Linked, C.Conn.Valid, C.Payloads;
    NothingUncounted(c.log);
    TermsFromRead(c.log);
    OnlyTheStreamMatters(c);
  }

  /** Whether or not the session has failed, perhaps in the middle of a reply: however many packets the client has got,
      they carry the beginning of the replies to the requests that had been read by then. */
  lemma {:induction false} NothingUnearned<S>(c: Conn<S>, ps: seq<bytes>) returns (i: nat)
    requires c.LogKept() && ps <= c.sent
    ensures i <= |c.log| && Outs(c.log[..i]) == ps && Ins(c.log[..i]) <= c.read
    ensures Data(ps) <= Answers(c.v, Deframe(Fed(Ins(c.log[..i]))).0)
  {
    hide Outs, Ins, Data, Answers, Deframe, Fed, Account, Respected;
    i := Prefix(c.log, ps);
    assert Earned(c.v, c.log[..i]);
  }

  lemma {:induction false} Prefix(log: seq<Event>, ps: seq<bytes>) returns (i: nat)
    requires ps <= Outs(log)
    ensures i <= |log| && Outs(log[..i]) == ps && Ins(log[..i]) <= Ins(log)
    decreases |log|
  {
    if ps == Outs(log) {
      i := |log|;
      assert log[..i] == log;
    } else {
      var init := log[..|log| - 1];
      i := Prefix(init, ps);
      assert init[..i] == log[..i];
    }
  }

  /** No channel data message was larger than the client takes, and none went beyond the grant at the time; also in a
      session that failed. */
  lemma NeverBeyondTheGrant<S>(c: Conn<S>, i: nat)
    requires c.LogKept() && i < |c.log| && c.log[i].Out? && Is(c.log[i].p, MSG_CHANNEL_DATA)
    ensures |DataOf(c.log[i].p)| < TWO_32
    ensures var b, d := Account(c.log[..i]), DataOf(c.log[i].p);
            && c.log[i].p == DataMessage(b.peer, d) && (b.open ==> |d| + 16 <= b.limit)
            && (b.exact ==> b.spent + |d| <= b.granted && b.before + b.spent == |Data(Outs(c.log[..i]))|)
  {
    hide Account, Data, DataOf;
    NothingUncounted(c.log[..i]);
  }

  /** A client that is granted less than 2^32 bytes in all is always accounted for exactly. */
  lemma {:induction false} ExactWhenSmall(log: seq<Event>)
    requires forall i :: 0 <= i <= |log| ==> Account(log[..i]).granted < TWO_32
    ensures Account(log).exact
    decreases |log|
  {
    hide EnterIn, EnterOut;
    if log != [] {
      var init := log[..|log| - 1];
      assert log[..|log|] == log;
      forall i | 0 <= i <= |init| ensures Account(init[..i]).granted < TWO_32 {
        assert init[..i] == log[..i];
      }
      ExactWhenSmall(init);
      StaysExact(Account(init), log[|log| - 1]);
    }
  }

  lemma StaysExact(b: Book, e: Event)
    requires b.exact && (if e.In? then EnterIn(b, e.p) else EnterOut(b, e.p)).granted < TWO_32
    ensures (if e.In? then EnterIn(b, e.p) else EnterOut(b, e.p)).exact
  {
    hide TakeU32, TakeString, DataIn, AsksForSftp, OpenFields, Ascii, DataOf;
  }
}

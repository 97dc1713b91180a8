/**
  The SFTP server at the two ends of a session: what a client reads out of a listing, and what holds of the server when
  its requests come through the channel and the connection.
 */
module SftpSession {
  import opened Machine
  import opened Options
  import opened Protocol
  import opened Codec
  import opened Stream
  import opened SftpTable
  import opened SftpProtocol
  import Transport
  import Client
  import C = Connection
  import H = Channel

  // The server behind the channel.

  const FRESH := Files([None, None, None, None, None, None, None, None], {}, 0, map[], [])

  /** One request: the file system answers as it does at the time, that is, after so many requests. */
  function Answer(world: nat -> World, root: bytes, s: (Files, nat), f: bytes): ((Files, nat), reply) {
    if |s.0.handles| != MAX_HANDLES then (s, [])
    else
      var (t, fs) := React(world(s.1), root, s.0, Parse(f));
      ReplyFits(world(s.1), root, s.0, Parse(f));
      ((t, s.1 + 1), EncodeAll(fs))
  }

  function ServerOf(world: nat -> World, root: bytes): Server<(Files, nat)> {
    Server((FRESH, 0), (s, f) => Answer(world, root, s, f))
  }

  /** Request k made a call to the file system. */
  ghost predicate MadeCall(v: Server<(Files, nat)>, fs: seq<frame>, k: nat)
    requires k < |fs|
  {
    StateAfter(v, fs[..k + 1]).0.calls != StateAfter(v, fs[..k]).0.calls
  }

  /** Every request that made a call was contained. */
  ghost predicate AllContained(v: Server<(Files, nat)>, fs: seq<frame>) {
    forall k :: 0 <= k < |fs| && MadeCall(v, fs, k) ==> Contained(Parse(fs[k]))
  }

  lemma ContainedSnoc(v: Server<(Files, nat)>, fs: seq<frame>, f: frame)
    ensures var calls := StateAfter(v, fs + [f]).0.calls;
            AllContained(v, fs + [f])
            <==> AllContained(v, fs) && (calls == StateAfter(v, fs).0.calls || Contained(Parse(f)))
  {
    hide StateAfter, Contained, Parse;
    var all := fs + [f];
    assert all[..|all|] == all && all[..|fs|] == fs;
    forall k | 0 <= k < |fs| ensures MadeCall(v, all, k) <==> MadeCall(v, fs, k) {
      assert all[..k] == fs[..k] && all[..k + 1] == fs[..k + 1];
    }
    assert MadeCall(v, all, |fs|) <==> StateAfter(v, all).0.calls != StateAfter(v, fs).0.calls;
  }

  /** After any requests the handles are eight and every request was answered; and all calls to the file system were
      for something strictly below the root directory exactly when the requests that made them were contained. */
  lemma {:induction false} BelowIfContained(world: nat -> World, root: bytes, fs: seq<frame>)
    ensures var v := ServerOf(world, root);
            var s := StateAfter(v, fs);
            && |s.0.handles| == MAX_HANDLES && s.1 == |fs|
            && (AllPlaced(root, s.0.calls) <==> AllContained(v, fs))
    decreases |fs|
  {
    hide React, Placed, Parse, EncodeAll, Contained, MadeCall;
    if fs != [] {
      var init, last := fs[..|fs| - 1], fs[|fs| - 1];
      var v := ServerOf(world, root);
      var s := StateAfter(v, init);
      BelowIfContained(world, root, init);
      StaysPlaced(world(s.1), root, s.0, Parse(last));
      SameHandles(world(s.1), root, s.0, Parse(last));
      ContainedSnoc(v, init, last);
      assert init + [last] == fs;
    }
  }

  lemma SameHandles(w: World, root: bytes, s: Files, q: Request)
    requires |s.handles| == MAX_HANDLES
    ensures |React(w, root, s, q).0.handles| == MAX_HANDLES
  {
    HandlesStay(w, root, s, q, 0);
  }

  /** The whole session: the client gets, from the bytes of the server alone, the replies of the server to the requests
      in the bytes that it sent; and the file system was only asked to open or change things strictly below the root
      directory exactly when the requests that made it do so were contained. */
  lemma SessionIsSafe(c: H.Conn<(Files, nat)>, world: nat -> World, root: bytes)
    requires c.Idle() && c.Between() && c.v == ServerOf(world, root)
    ensures Client.UsableKeys(C.Switches(c.n.sent)) && Transport.UsablePlan(Transport.Plan(c.n.got))
    ensures var r := Client.Follow(c.n.x, c.n.output, C.Switches(c.n.sent), Transport.Packets(c.n.sent));
            var asked := Transport.Read(c.n.x, Transport.FromClient, c.n.arrived, Transport.Plan(c.n.got));
            && r.Reading? && asked.Reading?
            && var frames := Deframe(H.Fed(C.Payloads(asked.items))).0;
               && Data(C.Payloads(r.items)) == Answers(ServerOf(world, root), frames) && c.sftp.1 == |frames|
               && (AllPlaced(root, c.sftp.0.calls) <==> AllContained(ServerOf(world, root), frames))
  {
    hide Answers, Deframe, StateAfter, Data, H.Fed, C.Payloads, Client.Follow, Transport.Read, AllPlaced, AllContained;
    hide ServerOf, H.Started, H.Account, C.Orderly;
    Client.RepliesReachTheClient(c);
    Client.SameFed(c);
    H.OnlyTheStreamMatters(c);
    BelowIfContained(world, root, Deframe(H.Fed(c.read)).0);
  }
}

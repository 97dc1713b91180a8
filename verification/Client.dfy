/**
  The other end of a connection.  A client reads the bytes of the server, changes keys when it reads the packet
  that announces it, and has, in every reachable state of the server, everything that the server sent; so a
  session of the channel reaches it as the replies to what it asked.
 */
module Client {
  import opened Machine
  import opened Options
  import opened Protocol
  import opened Codec
  import opened Transport
  import opened Stream
  import C = Connection
  import H = Channel

  ghost predicate UsableKeys(keys: seq<Keys>) {
    forall k :: 0 <= k < |keys| ==> |keys[k].secret| < TWO_32
  }

  /** New keys, if they are due and the client has them. */
  ghost function Turn(x: Crypto, r: Reading, keys: seq<Keys>): Reading
    requires UsableKeys(keys)
  {
    if r.Broken? || !C.Awaiting(r.items) || |C.Switches(r.items)| >= |keys| then r
    else
      var k := keys[|C.Switches(r.items)|];
      Reading(r.items + [Switch(k)], Rekey(x, ToClient, r.half, k), r.rest)
  }

  ghost function Advance(x: Crypto, r: Reading, keys: seq<Keys>): Reading
    requires UsableKeys(keys)
  {
    Turn(x, ReadNext(x, ToClient, r, None), keys)
  }

  /** The client after n packets.  It has the keys of the exchanges that it completed, in order, and nothing else
      tells it when to use them. */
  ghost function Follow(x: Crypto, s: bytes, keys: seq<Keys>, n: nat): Reading
    requires UsableKeys(keys)
  {
    if n == 0 then Reading([], START, s) else Advance(x, Follow(x, s, keys, n - 1), keys)
  }

  lemma {:induction false} SwitchesUsable(items: seq<Item>)
    requires AllProper(items)
    ensures UsableKeys(C.Switches(items))
    decreases |items|
  {
    if items != [] {
      SwitchesUsable(items[..|items| - 1]);
    }
  }

  lemma PacketsSnoc(items: seq<Item>, i: Item)
    ensures Packets(items + [i]) == Packets(items) + if i.Packet? then 1 else 0
  {
    assert (items + [i])[..|items|] == items;
  }

  /** A reader who is told where the keys change and a client that finds out by itself read the same. */
  lemma {:induction false} FollowsPlan(x: Crypto, s: bytes, items: seq<Item>, keys: seq<Keys>)
    requires UsableKeys(keys) && UsablePlan(Plan(items)) && C.Orderly(items) && C.Switches(items) <= keys
    requires var r := Read(x, ToClient, s, Plan(items)); r.Reading? && r.items == items
    ensures Follow(x, s, keys, Packets(items)) == Turn(x, Read(x, ToClient, s, Plan(items)), keys)
    decreases |items|
  {
    hide Open, Rekey, Plan, Read;
    if items == [] {
      NothingRead(x, s);
    } else {
      var init, last := items[..|items| - 1], items[|items| - 1];
      assert items == init + [last];
      PlanPrefix(items);
      ReadSnoc(x, ToClient, s, init, last);
      C.SwitchesSnoc(init, last);
      C.OrderlySnoc(init, last);
      PacketsSnoc(init, last);
      FollowsPlan(x, s, init, keys);
    }
  }

  lemma NothingRead(x: Crypto, s: bytes)
    ensures UsablePlan(Plan([])) && Read(x, ToClient, s, Plan([])) == Reading([], START, s)
  {
  }

  lemma PlanPrefix(items: seq<Item>)
    requires items != [] && UsablePlan(Plan(items))
    ensures UsablePlan(Plan(items[..|items| - 1]))
    ensures items[|items| - 1].Switch? ==> |items[|items| - 1].keys.secret| < TWO_32
  {
    var init, plan := items[..|items| - 1], Plan(items);
    assert plan[|items| - 1].Some? <==> items[|items| - 1].Switch?;
    assert Plan(init) == plan[..|items| - 1];
  }

  lemma {:induction false} OrderlyAt(items: seq<Item>, k: nat)
    requires C.Orderly(items) && k < |items|
    ensures items[k].Switch? <==> k > 0 && items[k - 1].Packet? && C.Announces(items[k - 1].payload)
    decreases |items|
  {
    var init, last := items[..|items| - 1], items[|items| - 1];
    assert items == init + [last];
    C.OrderlySnoc(init, last);
    if k < |init| {
      OrderlyAt(init, k);
    }
  }

  /** In every reachable state keys change after the packets that announce it, and only there. */
  lemma KeysChangeWhenAnnounced(c: C.Conn, k: nat)
    requires c.Valid() && k < |c.sent|
    ensures c.sent[k].Switch? <==> k > 0 && c.sent[k - 1].Packet? && C.Announces(c.sent[k - 1].payload)
  {
    hide Read, Wire, Final, C.Orderly;
    OrderlyAt(c.sent, k);
  }

  /** In every reachable state of the server, a client that reads its bytes has every payload, and agrees with it on
      keys, sequence number and position; the keys that the client already has for later do not disturb it. */
  lemma ClientFollows(c: C.Conn, keys: seq<Keys>)
    requires c.Valid() && UsableKeys(keys) && C.Switches(c.sent) <= keys
    ensures Follow(c.x, c.output, keys, Packets(c.sent)) == Turn(c.x, Reading(c.sent, c.Out(), []), keys)
    ensures c.Calm() || keys == C.Switches(c.sent) ==>
              Follow(c.x, c.output, keys, Packets(c.sent)) == Reading(c.sent, c.Out(), [])
    ensures c.seqOut == Packets(c.sent) % TWO_32
  {
    hide Read, Wire, Final, Plan, Follow, Rekey, C.Switches, C.Orderly;
    ReadsBack(c.x, ToClient, c.sent, []);
    assert c.output + [] == c.output;
    SequenceNumber(c.x, ToClient, c.sent);
    FollowsPlan(c.x, c.output, c.sent, keys);
  }

  // The channel over the connection.

  lemma {:induction false} DataAfterPrelude(before: seq<bytes>, ps: seq<bytes>)
    requires H.Prelude(before)
    ensures Data(before + ps) == Data(ps)
    decreases |ps|
  {
    hide Data;
    if ps != [] {
      var init, last := ps[..|ps| - 1], ps[|ps| - 1];
      assert ps == init + [last] && before + ps == before + init + [last];
      DataAfterPrelude(before, init);
      DataSnoc(init, last);
      DataSnoc(before + init, last);
    } else {
      NoDataInPrelude(before);
      assert before + ps == before;
    }
  }

  lemma {:induction false} NoDataInPrelude(before: seq<bytes>)
    requires H.Prelude(before)
    ensures Data(before) == [] == Data([])
    decreases |before|
  {
    if before != [] {
      NoDataInPrelude(before[..|before| - 1]);
    }
  }

  lemma {:induction false} FedAfterPrelude(before: seq<bytes>, ps: seq<bytes>)
    requires H.Prelude(before)
    ensures H.Fed(before + ps) == H.Fed(ps) && H.Started(before + ps) == H.Started(ps)
    decreases |ps|
  {
    hide H.Fed, H.Started, H.AsksForSftp, H.DataIn;
    if ps != [] {
      var init, last := ps[..|ps| - 1], ps[|ps| - 1];
      assert ps == init + [last] && before + ps == before + init + [last];
      FedAfterPrelude(before, init);
      H.FedSnoc(init, last);
      H.FedSnoc(before + init, last);
    } else {
      NothingFedInPrelude(before);
      assert before + ps == before;
    }
  }

  lemma {:induction false} NothingFedInPrelude(before: seq<bytes>)
    requires H.Prelude(before)
    ensures H.Fed(before) == [] == H.Fed([]) && !H.Started(before) && !H.Started([])
    decreases |before|
  {
    hide H.AsksForSftp, H.DataIn;
    if before != [] {
      NothingFedInPrelude(before[..|before| - 1]);
      H.NotARequest(before[|before| - 1]);
    }
  }

  /** What the connection read feeds the subsystem the same. */
  lemma SameFed<S>(c: H.Conn<S>)
    requires c.Linked() && c.Between()
    ensures UsablePlan(Plan(c.n.got))
    ensures var asked := Read(c.n.x, FromClient, c.n.arrived, Plan(c.n.got));
            asked.Reading? && H.Fed(C.Payloads(asked.items)) == H.Fed(c.read)
  {
    hide Read, Plan, C.Payloads, H.Fed, H.Started, C.Orderly;
    FedAfterPrelude(c.earlier, c.read);
  }

  /** From the bytes of the server alone the client gets the replies to the requests that the server read from the
      bytes of the client: in order, whole, and once each. */
  lemma RepliesReachTheClient<S>(c: H.Conn<S>)
    requires c.Idle() && c.Between()
    ensures UsableKeys(C.Switches(c.n.sent)) && UsablePlan(Plan(c.n.got))
    ensures var r := Follow(c.n.x, c.n.output, C.Switches(c.n.sent), Packets(c.n.sent));
            var asked := Read(c.n.x, FromClient, c.n.arrived, Plan(c.n.got));
            && r.Reading? && asked.Reading?
            && Data(C.Payloads(r.items)) == Answers(c.v, Deframe(H.Fed(C.Payloads(asked.items))).0)
  {
    hide Follow, Read, Plan, Wire, Final, Data, Answers, Deframe, C.Payloads, H.Fed, H.Started, C.Switches;
    hide C.Orderly, H.Account;
    SwitchesUsable(c.n.sent);
    ClientFollows(c.n, C.Switches(c.n.sent));
    H.OnlyTheStreamMatters(c);
    DataAfterPrelude(c.before, c.sent);
    SameFed(c);
  }
}

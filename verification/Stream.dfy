/** The byte stream of the SFTP subsystem (section 3 of the SFTP draft): frames, and the server as a function. */
module Stream {
  import opened Machine
  import opened Protocol
  import opened Codec

  type frame = s: bytes | |s| <= MAX_PACKET witness []
  type reply = s: bytes | |s| <= REPLY_CAP witness []

  /** The server: a state, and one reply to each frame. */
  datatype Server<!S> = Server(start: S, serve: (S, bytes) -> (S, reply))

  /** Every frame after its length. */
  function Framed(fs: seq<frame>): bytes
    decreases |fs|
  {
    if fs == [] then [] else Framed(fs[..|fs| - 1]) + Big32(|fs[|fs| - 1]|) + fs[|fs| - 1]
  }

  function StateAfter<S>(v: Server<S>, fs: seq<frame>): S
    decreases |fs|
  {
    if fs == [] then v.start else v.serve(StateAfter(v, fs[..|fs| - 1]), fs[|fs| - 1]).0
  }

  /** Every reply after its length. */
  function Answers<S>(v: Server<S>, fs: seq<frame>): bytes
    decreases |fs|
  {
    if fs == [] then []
    else
      var init, last := fs[..|fs| - 1], fs[|fs| - 1];
      var r := v.serve(StateAfter(v, init), last).1;
      Answers(v, init) + Big32(|r|) + r
  }

  /** No complete frame of an acceptable length starts here, nor a length that is too large. */
  predicate Incomplete(s: bytes) {
    |s| < 4 || (Value32(s[..4]) <= MAX_PACKET && |s| < 4 + Value32(s[..4]))
  }

  /** The frames at the start of a stream, and the rest. */
  function Deframe(s: bytes): (r: (seq<frame>, bytes))
    decreases |s|
  {
    if |s| < 4 then ([], s)
    else
      var l := Value32(s[..4]);
      if l > MAX_PACKET || |s| < 4 + l then ([], s)
      else var (fs, rest) := Deframe(s[4 + l..]); ([s[4..4 + l]] + fs, rest)
  }

  lemma FramedSnoc(fs: seq<frame>, f: frame)
    ensures Framed(fs + [f]) == Framed(fs) + Big32(|f|) + f
  {
    assert (fs + [f])[..|fs|] == fs;
  }

  lemma AnswersSnoc<S>(v: Server<S>, fs: seq<frame>, f: frame)
    ensures var (s, r) := v.serve(StateAfter(v, fs), f);
            StateAfter(v, fs + [f]) == s && Answers(v, fs + [f]) == Answers(v, fs) + Big32(|r|) + r
  {
    assert (fs + [f])[..|fs|] == fs;
  }

  lemma {:induction false} FramedFirst(fs: seq<frame>)
    requires fs != []
    ensures Framed(fs) == Big32(|fs[0]|) + fs[0] + Framed(fs[1..])
    decreases |fs|
  {
    hide Big32, Framed;
    var init, last := fs[..|fs| - 1], fs[|fs| - 1];
    if |fs| == 1 {
      FramedNothing();
      FramedSnoc([], last);
      assert [] + [last] == fs && fs[1..] == [] && [] + Big32(|last|) == Big32(|last|);
      assert Big32(|last|) + last + [] == Big32(|last|) + last;
    } else {
      FramedFirst(init);
      FramedSnoc(init, last);
      FramedSnoc(init[1..], last);
      assert init + [last] == fs && init[1..] + [last] == fs[1..];
      Regroup(Big32(|fs[0]|) + fs[0], Framed(init[1..]), Big32(|last|), last);
    }
  }

  lemma Regroup(a: bytes, b: bytes, c: bytes, d: bytes)
    ensures a + b + c + d == a + (b + c + d)
  {
  }

  /** A stream is cut into frames in one way only. */
  lemma {:induction false} DeframeInverts(fs: seq<frame>, rest: bytes)
    requires Incomplete(rest)
    ensures Deframe(Framed(fs) + rest) == (fs, rest)
    decreases |fs|
  {
    hide Framed, Value32, Big32;
    if fs == [] {
      FramedNothing();
      assert [] + rest == rest;
    } else {
      var f, s := fs[0], Framed(fs) + rest;
      FramedFirst(fs);
      Value32Inverts(|f|);
      assert s[..4] == Big32(|f|) && s[4..4 + |f|] == f;
      assert s[4 + |f|..] == Framed(fs[1..]) + rest;
      DeframeInverts(fs[1..], rest);
      assert [f] + fs[1..] == fs;
    }
  }

  lemma FramedNothing()
    ensures Framed([]) == []
  {
  }

  /** More of a stream only adds frames. */
  lemma {:induction false} DeframeGrows(s: bytes, t: bytes)
    requires s <= t
    ensures Deframe(s).0 <= Deframe(t).0
    decreases |s|
  {
    hide Value32;
    if |s| >= 4 {
      assert s[..4] == t[..4];
      var l := Value32(s[..4]);
      if l <= MAX_PACKET && |s| >= 4 + l {
        assert s[4 + l..] <= t[4 + l..] && s[4..4 + l] == t[4..4 + l];
        DeframeGrows(s[4 + l..], t[4 + l..]);
      }
    }
  }

  /** Frames at the start of a stream are its first frames. */
  lemma {:induction false} FramesFirst(fs: seq<frame>, t: bytes)
    requires Framed(fs) <= t
    ensures fs <= Deframe(t).0
    decreases |fs|
  {
    hide Framed, Value32, Big32;
    if fs != [] {
      var f, l := fs[0], |fs[0]|;
      FramedFirst(fs);
      Value32Inverts(l);
      var all := Framed(fs);
      assert all[..4] == Big32(l) && all[4..4 + l] == f && all[4 + l..] == Framed(fs[1..]);
      assert t[..4] == all[..4] && t[4..4 + l] == all[4..4 + l] && all[4 + l..] <= t[4 + l..];
      FramesFirst(fs[1..], t[4 + l..]);
      assert [f] + fs[1..] == fs;
    }
  }

  lemma {:induction false} AnswersGrow<S>(v: Server<S>, fs: seq<frame>, gs: seq<frame>)
    requires fs <= gs
    ensures Answers(v, fs) <= Answers(v, gs)
    decreases |gs|
  {
    hide StateAfter, Big32;
    if fs == gs {
    } else {
      AnswersGrow(v, fs, gs[..|gs| - 1]);
    }
  }

  /** The bytes that a channel message carries. */
  function DataOf(p: bytes): bytes {
    if |p| >= 9 && p[0] == MSG_CHANNEL_DATA then p[9..] else []
  }

  /** The bytes that the channel carried. */
  function Data(ps: seq<bytes>): bytes
    decreases |ps|
  {
    if ps == [] then [] else Data(ps[..|ps| - 1]) + DataOf(ps[|ps| - 1])
  }

  lemma DataSnoc(ps: seq<bytes>, p: bytes)
    ensures Data(ps + [p]) == Data(ps) + DataOf(p)
  {
    assert (ps + [p])[..|ps|] == ps;
  }
}

/** Normalisation of the paths that an SFTP client sends. */
module SftpPath {
  import opened Codec
  import opened Machine

  const SLASH: u8 := 47
  const DOT: u8 := 46
  const MAX_DEPTH := 24
  const MAX_NAME := 63
  const PATH_MAX := 400
  const ROOT_MAX := 128
  const FULL_MAX := PATH_MAX + 128

  /** How many slashes, and how many other bytes, a path starts with. */
  function SlashRun(s: bytes): (n: nat)
    ensures n <= |s| && (n < |s| ==> s[n] != SLASH)
    ensures forall k :: 0 <= k < n ==> s[k] == SLASH
  {
    if s == [] || s[0] != SLASH then 0 else 1 + SlashRun(s[1..])
  }

  function NameRun(s: bytes): (n: nat)
    ensures n <= |s| && (n < |s| ==> s[n] == SLASH)
    ensures s != [] && s[0] != SLASH ==> n > 0
    ensures forall k :: 0 <= k < n ==> s[k] != SLASH
  {
    if s == [] || s[0] == SLASH then 0 else 1 + NameRun(s[1..])
  }

  /** The non-empty pieces between slashes. */
  function Components(s: bytes): seq<bytes>
    decreases |s|
  {
    var t := s[SlashRun(s)..];
    if t == [] then [] else [t[..NameRun(t)]] + Components(t[NameRun(t)..])
  }

  // Resolving, without any limits.

  function Resolve(parts: seq<bytes>, c: bytes): seq<bytes> {
    if c == [DOT] then parts
    else if c == [DOT, DOT] then (if parts == [] then [] else parts[..|parts| - 1])
    else parts + [c]
  }

  function ResolveAll(parts: seq<bytes>, cs: seq<bytes>): seq<bytes>
    decreases |cs|
  {
    if cs == [] then parts else ResolveAll(Resolve(parts, cs[0]), cs[1..])
  }

  /** Every component with a slash before it. */
  function Join(parts: seq<bytes>): bytes {
    if parts == [] then [] else Join(parts[..|parts| - 1]) + [SLASH] + parts[|parts| - 1]
  }

  /** Split, resolve, join: what normalisation is for. */
  function Normal(s: bytes): bytes {
    var j := Join(ResolveAll([], Components(s)));
    if j == [] then [SLASH] else j
  }

  // Resolving, with the limits of the program: names of 63 bytes, a stack of 24 names, a result of
  // cap - 1 bytes.

  function Min(x: nat, y: nat): nat {
    if x < y then x else y
  }

  function Step(parts: seq<bytes>, c: bytes): seq<bytes> {
    if c == [DOT] then parts
    else if c == [DOT, DOT] then (if parts == [] then [] else parts[..|parts| - 1])
    else if |parts| < MAX_DEPTH then parts + [c[..Min(|c|, MAX_NAME)]]
    else parts
  }

  function StepAll(parts: seq<bytes>, cs: seq<bytes>): seq<bytes>
    decreases |cs|
  {
    if cs == [] then parts else StepAll(Step(parts, cs[0]), cs[1..])
  }

  /** The names that the program has stored in the end. */
  function StoredNames(s: bytes): seq<bytes> {
    StepAll([], Components(s))
  }

  /** The C string in an array: it ends before the first NUL. */
  function Text(c: bytes): (t: bytes)
    ensures |t| <= |c| && t == c[..|t|] && 0 !in t && (|t| < |c| ==> c[|t|] == 0)
  {
    if c == [] || c[0] == 0 then [] else [c[0]] + Text(c[1..])
  }

  function Texts(parts: seq<bytes>): (ts: seq<bytes>)
    ensures |ts| == |parts| && forall k :: 0 <= k < |parts| ==> ts[k] == Text(parts[k])
  {
    seq(|parts|, k requires 0 <= k < |parts| => Text(parts[k]))
  }

  /** The stored names as they are printed, with a slash before each: a NUL passes as part of a name when names are
      told apart, but ends the name when it is printed. */
  function Stacked(s: bytes): bytes {
    Join(Texts(StoredNames(s)))
  }

  function Limited(s: bytes, cap: nat): bytes
    requires cap > 1
  {
    var j := Stacked(s);
    if j == [] then [SLASH] else j[..Min(|j|, cap - 1)]
  }

  // The program.

  /** Writes text with a terminating NUL at offset o of a buffer, cut to fit, and returns the full
      length of the text. */
  method Snprintf(out: array<u8>, o: nat, text: bytes) returns (w: nat)
    requires o < out.Length
    modifies out
    ensures w == |text|
    ensures var n := Min(|text|, out.Length - o - 1);
            out[..o + n + 1] == old(out[..o]) + text[..n] + [0]
  {
    var n := Min(|text|, out.Length - o - 1);
    for i := 0 to n
      invariant forall k :: 0 <= k < o ==> out[k] == old(out[k])
      invariant forall k :: 0 <= k < i ==> out[o + k] == text[k]
    {
      out[o + i] := text[i];
    }
    out[o + n] := 0;
    assert out[..o] == old(out[..o]);
    assert out[o..o + n] == text[..n];
    assert out[..o + n + 1] == out[..o] + out[o..o + n] + [out[o + n]];
    w := |text|;
  }

  method NormPath(inp: bytes, out: array<u8>)
    requires out.Length > 1
    modifies out
    ensures var r := Limited(inp, out.Length); |r| < out.Length && out[..|r| + 1] == r + [0]
  {
    hide Components, StepAll, Join;
    var parts: seq<bytes> := [];
    var i := 0;
    assert inp[0..] == inp;
    while i < |inp|
      invariant 0 <= i <= |inp|
      invariant i < |inp| && i > 0 ==> inp[i] == SLASH
      invariant StepAll(parts, Components(inp[i..])) == StepAll([], Components(inp))
    {
      ghost var start := i;
      while i < |inp| && inp[i] == SLASH
        invariant start <= i <= |inp|
        invariant Components(inp[i..]) == Components(inp[start..])
      {
        SkipSlash(inp[i..]);
        assert inp[i..][1..] == inp[i + 1..];
        i := i + 1;
      }
      var st := i;
      while i < |inp| && inp[i] != SLASH
        invariant st <= i <= |inp|
        invariant forall k :: st <= k < i ==> inp[k] != SLASH
      {
        i := i + 1;
      }
      var l := i - st;
      NextComponent(inp, st, i, parts);
      if l == 0 {
        continue;
      }
      if l == 1 && inp[st] == DOT {
        assert inp[st..i] == [DOT];
        continue;
      }
      if l == 2 && inp[st] == DOT && inp[st + 1] == DOT {
        assert inp[st..i] == [DOT, DOT];
        if |parts| > 0 {
          parts := parts[..|parts| - 1];
        }
        continue;
      }
      assert |inp[st..i]| == l && inp[st..i][0] == inp[st];
      assert l == 2 ==> inp[st..i][1] == inp[st + 1];
      assert inp[st..i] != [DOT] && inp[st..i] != [DOT, DOT];
      assert inp[st..st + Min(l, MAX_NAME)] == inp[st..i][..Min(l, MAX_NAME)];
      if |parts| < 24 {
        if l > 63 {
          l := 63;
        }
        parts := parts + [inp[st..st + l]];
      }
    }
    assert inp[i..] == [];
    NoMore(parts);
    WriteParts(parts, out);
  }

  lemma SkipSlash(s: bytes)
    requires s != [] && s[0] == SLASH
    ensures Components(s) == Components(s[1..])
  {
    assert s[SlashRun(s)..] == s[1..][SlashRun(s[1..])..];
  }

  /** The maximal run of other bytes is the next component. */
  lemma NextComponent(s: bytes, st: nat, i: nat, parts: seq<bytes>)
    requires st <= i <= |s| && (i < |s| ==> s[i] == SLASH)
    requires forall k :: st <= k < i ==> s[k] != SLASH
    requires st == i ==> i == |s|
    ensures StepAll(parts, Components(s[st..]))
            == StepAll(if st == i then parts else Step(parts, s[st..i]), Components(s[i..]))
  {
    hide Step;
    if st < i {
      var t := s[st..];
      RunLength(t, i - st);
      assert t[i - st..] == s[i..] && t[..i - st] == s[st..i];
      assert Components(t) == [s[st..i]] + Components(s[i..]);
      assert Components(t)[1..] == Components(s[i..]);
    }
  }

  lemma {:induction false} RunLength(t: bytes, n: nat)
    requires n <= |t| && (n < |t| ==> t[n] == SLASH) && forall k :: 0 <= k < n ==> t[k] != SLASH
    ensures NameRun(t) == n && (n > 0 ==> SlashRun(t) == 0)
    decreases n
  {
    if n > 0 {
      RunLength(t[1..], n - 1);
    }
  }

  lemma NoMore(parts: seq<bytes>)
    ensures StepAll(parts, Components([])) == parts
  {
  }

  lemma {:induction false} JoinPrefix(parts: seq<bytes>, k: nat)
    requires k <= |parts|
    ensures |Join(parts[..k])| <= |Join(parts)| && Join(parts)[..|Join(parts[..k])|] == Join(parts[..k])
    decreases |parts|
  {
    if k == |parts| {
      assert parts[..k] == parts;
    } else {
      var init := parts[..|parts| - 1];
      JoinPrefix(init, k);
      assert init[..k] == parts[..k];
    }
  }

  lemma JoinSnoc(parts: seq<bytes>, k: nat)
    requires k < |parts|
    ensures Join(parts[..k + 1]) == Join(parts[..k]) + [SLASH] + parts[k]
  {
    assert parts[..k + 1][..k] == parts[..k];
  }

  /** A buffer holds the texts of the names, each after a slash, as far as they fit, and a NUL. */
  ghost predicate Printed(out: bytes, parts: seq<bytes>)
    requires |out| > 1
  {
    var j := Join(Texts(parts));
    var r := if j == [] then [SLASH] else j[..Min(|j|, |out| - 1)];
    |r| < |out| && out[..|r| + 1] == r + [0]
  }

  /** Prints the texts of the names, each after a slash, until one does not fit. */
  method WriteParts(parts: seq<bytes>, out: array<u8>)
    requires out.Length > 1
    modifies out
    ensures Printed(out[..], parts)
  {
    hide Join, Printed, Text;
    ghost var ts := Texts(parts);
    var o := 0;
    out[0] := SLASH;
    out[1] := 0;
    JoinNothing(ts);
    var k := 0;
    while k < |parts|
      invariant 0 <= k <= |parts| && o < out.Length
      invariant o == |Join(ts[..k])|
      invariant out[..o] == Join(ts[..k])
      invariant if k == 0 then out[0] == SLASH && out[1] == 0 else out[o] == 0
    {
      var w := Snprintf(out, o, [SLASH] + Text(parts[k]));
      JoinSnoc(ts, k);
      assert Join(ts[..k + 1]) == Join(ts[..k]) + ([SLASH] + Text(parts[k]));
      JoinPrefix(ts, k + 1);
      if o + w >= out.Length {
        FullBuffer(parts, k, out[..], out.Length);
        return;
      }
      WholeText(out[..], o, w, Join(ts[..k]), [SLASH] + Text(parts[k]));
      o := o + w;
      k := k + 1;
    }
    assert ts[..k] == ts;
    if |parts| == 0 {
      out[1] := 0;
    }
    AllPrinted(parts, out[..], o);
  }

  lemma AllPrinted(parts: seq<bytes>, out: bytes, o: nat)
    requires o < |out| && |out| > 1 && o == |Join(Texts(parts))| && out[..o] == Join(Texts(parts))
    requires if parts == [] then out[0] == SLASH && out[1] == 0 else out[o] == 0
    ensures Printed(out, parts)
  {
    hide Join;
    var ts := Texts(parts);
    JoinNothing(ts);
    if parts == [] {
      assert out[..2] == [SLASH] + [0];
    } else {
      assert Join(ts)[..o] == Join(ts) && out[..o + 1] == out[..o] + [out[o]];
    }
  }

  lemma WholeText(out: bytes, o: nat, w: nat, j: bytes, text: bytes)
    requires o + w < |out| && w == |text| && o == |j| && out[..o + w + 1] == j + text[..w] + [0]
    ensures out[..o + w] == j + text && out[o + w] == 0
  {
    assert out[..o + w] == out[..o + w + 1][..o + w];
    assert out[o + w] == out[..o + w + 1][o + w];
  }

  lemma JoinNothing(parts: seq<bytes>)
    ensures Join(parts[..0]) == [] && (Join(parts) == [] <==> parts == [])
  {
  }

  lemma FullBuffer(parts: seq<bytes>, k: nat, out: bytes, cap: nat)
    requires k < |parts| && |out| == cap > 1
    requires |Join(Texts(parts)[..k])| < cap
    requires var ts := Texts(parts);
             var o := |Join(ts[..k])|; var n := Min(1 + |ts[k]|, cap - o - 1);
             o + 1 + |ts[k]| >= cap && out[..o + n + 1] == Join(ts[..k]) + ([SLASH] + ts[k])[..n] + [0]
    ensures Printed(out, parts)
  {
    hide Join;
    var ts := Texts(parts);
    JoinSnoc(ts, k);
    JoinPrefix(ts, k + 1);
    var o := |Join(ts[..k])|;
    var j := Join(ts[..k + 1]);
    assert j == Join(ts[..k]) + ([SLASH] + ts[k]);
    assert j[..cap - 1] == Join(ts[..k]) + ([SLASH] + ts[k])[..cap - 1 - o];
    assert Join(ts)[..cap - 1] == j[..cap - 1];
    assert out[..cap] == out;
  }

  // Below the root directory.

  /** The path given to the file system: the root directory, then the normalised path unless it is "/". */
  function Full(root: bytes, vpath: bytes): bytes {
    if vpath == [SLASH] then root else root + vpath
  }

  /** The buffer always holds the whole of it: the root was stored in 128 bytes, the path in 400. */
  method FullPath(root: bytes, vpath: bytes, out: array<u8>)
    requires |root| < ROOT_MAX && |vpath| < PATH_MAX && out.Length == FULL_MAX
    modifies out
    ensures var p := Full(root, vpath); |p| < FULL_MAX && out[..|p| + 1] == p + [0]
  {
    var text := if vpath == [SLASH] then root else root + vpath;
    var w := Snprintf(out, 0, text);
    assert out[..0] == [] && text[..|text|] == text;
    assert [] + text == text;
  }

  // The result is a C string.

  lemma {:induction false} JoinBytes(parts: seq<bytes>, b: u8)
    requires b != SLASH && forall k :: 0 <= k < |parts| ==> b !in parts[k]
    ensures b !in Join(parts)
    decreases |parts|
  {
    if parts != [] {
      JoinBytes(parts[..|parts| - 1], b);
    }
  }

  lemma NoNul(s: bytes, cap: nat)
    requires cap > 1
    ensures 0 !in Limited(s, cap) && |Limited(s, cap)| < cap
  {
    hide StoredNames, Join;
    JoinBytes(Texts(StoredNames(s)), 0);
  }

  /** The C string at the start of a buffer. */
  method CString(buf: array<u8>, ghost text: bytes) returns (s: bytes)
    requires |text| < buf.Length && buf[..|text| + 1] == text + [0] && 0 !in text
    ensures s == text
  {
    var n := 0;
    ghost var whole := buf[..|text| + 1];
    assert forall k :: 0 <= k <= |text| ==> buf[k] == whole[k];
    assert forall k :: 0 <= k < |text| ==> whole[k] == text[k] && text[k] in text;
    while buf[n] != 0
      invariant 0 <= n <= |text|
      decreases |text| - n
    {
      assert n < |text|;
      n := n + 1;
    }
    s := buf[..n];
    assert s == whole[..|text|];
  }

  /** The normalised path, and the path below the root directory. */
  method Locate(root: bytes, p: bytes) returns (vpath: bytes, full: bytes)
    requires |root| < ROOT_MAX && 0 !in root
    ensures vpath == Limited(p, PATH_MAX) && full == Full(root, vpath) && |vpath| < PATH_MAX && |full| < FULL_MAX
  {
    hide Limited;
    var vp := new u8[PATH_MAX];
    var fp := new u8[FULL_MAX];
    NormPath(p, vp);
    NoNul(p, PATH_MAX);
    vpath := CString(vp, Limited(p, PATH_MAX));
    FullPath(root, vpath, fp);
    full := CString(fp, Full(root, vpath));
  }
}

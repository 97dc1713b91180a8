/** Where normalised paths lead, and when normalising again changes nothing. */
module PathLaws {
  import opened Codec
  import opened Machine
  import opened SftpPath

  /** A component: not empty, without slashes. */
  ghost predicate Name(c: bytes) {
    c != [] && SLASH !in c
  }

  /** A name that stands for itself. */
  ghost predicate Plain(c: bytes) {
    Name(c) && c != [DOT] && c != [DOT, DOT]
  }

  ghost predicate AllPlain(parts: seq<bytes>) {
    forall k :: 0 <= k < |parts| ==> Plain(parts[k])
  }

  /** A stack that the program can hold. */
  ghost predicate Fits(parts: seq<bytes>) {
    |parts| <= MAX_DEPTH && forall k :: 0 <= k < |parts| ==> |parts[k]| <= MAX_NAME
  }

  ghost predicate NoSlash(ts: seq<bytes>) {
    forall k :: 0 <= k < |ts| ==> SLASH !in ts[k]
  }

  lemma {:induction false} ComponentsAreNames(s: bytes)
    ensures forall k :: 0 <= k < |Components(s)| ==> Name(Components(s)[k])
    decreases |s|
  {
    hide Components, SlashRun, NameRun;
    var t := s[SlashRun(s)..];
    Unfolded(s);
    if t != [] {
      ComponentsAreNames(t[NameRun(t)..]);
      assert Name(t[..NameRun(t)]);
    }
  }

  lemma Unfolded(s: bytes)
    ensures var t := s[SlashRun(s)..];
            Components(s) == if t == [] then [] else [t[..NameRun(t)]] + Components(t[NameRun(t)..])
  {
  }

  lemma {:induction false} StackIsPlain(parts: seq<bytes>, cs: seq<bytes>)
    requires AllPlain(parts) && Fits(parts) && forall k :: 0 <= k < |cs| ==> Name(cs[k])
    ensures AllPlain(StepAll(parts, cs)) && Fits(StepAll(parts, cs))
    decreases |cs|
  {
    if cs != [] {
      StackIsPlain(Step(parts, cs[0]), cs[1..]);
    }
  }

  /** The first component, and what is left after it. */
  lemma FirstComponent(s: bytes, n: nat)
    requires 0 < n <= |s| && (n < |s| ==> s[n] == SLASH) && forall k :: 0 <= k < n ==> s[k] != SLASH
    ensures Components(s) == [s[..n]] + Components(s[n..])
  {
    RunLength(s, n);
    assert s[0..] == s;
  }

  lemma {:induction false} ComponentsSplit(a: bytes, b: bytes)
    ensures Components(a + [SLASH] + b) == Components(a) + Components(b)
    decreases |a|
  {
    hide Components;
    var s := a + [SLASH] + b;
    if a == [] {
      SkipSlash(s);
      NoComponents();
      assert s[1..] == b;
    } else if a[0] == SLASH {
      SkipSlash(s);
      SkipSlash(a);
      ComponentsSplit(a[1..], b);
      assert s[1..] == a[1..] + [SLASH] + b;
    } else {
      var n := NameRun(a);
      FirstComponent(s, n);
      FirstComponent(a, n);
      ComponentsSplit(a[n..], b);
      assert s[n..] == a[n..] + [SLASH] + b && s[..n] == a[..n];
    }
  }

  lemma NoComponents()
    ensures Components([]) == []
  {
  }

  lemma ComponentsOfName(c: bytes)
    requires SLASH !in c
    ensures Components(c) == if c == [] then [] else [c]
  {
    RunLength(c, |c|);
    if c != [] {
      assert c[0..] == c && c[..|c|] == c && c[|c|..] == [];
    }
  }

  /** The texts that are not empty. */
  function NonEmpty(ts: seq<bytes>): (r: seq<bytes>)
    ensures |r| <= |ts| && forall c :: c in r ==> c in ts && c != []
    decreases |ts|
  {
    if ts == [] then []
    else NonEmpty(ts[..|ts| - 1]) + if ts[|ts| - 1] == [] then [] else [ts[|ts| - 1]]
  }

  lemma NonEmptySnoc(ts: seq<bytes>, c: bytes)
    ensures NonEmpty(ts + [c]) == NonEmpty(ts) + if c == [] then [] else [c]
  {
    assert (ts + [c])[..|ts|] == ts;
  }

  lemma {:induction false} AllNonEmpty(ts: seq<bytes>)
    requires [] !in ts
    ensures NonEmpty(ts) == ts
    decreases |ts|
  {
    if ts != [] {
      AllNonEmpty(ts[..|ts| - 1]);
    }
  }

  /** Texts that were joined with slashes are split into the same texts, without the empty ones. */
  lemma {:induction false} ComponentsOfJoin(ts: seq<bytes>)
    requires NoSlash(ts)
    ensures Components(Join(ts)) == NonEmpty(ts)
    decreases |ts|
  {
    hide Components;
    if ts == [] {
      NoComponents();
    } else {
      var init, last := ts[..|ts| - 1], ts[|ts| - 1];
      ComponentsOfJoin(init);
      ComponentsSplit(Join(init), last);
      ComponentsOfName(last);
    }
  }

  // What is printed.

  /** The texts that n bytes hold, the last one perhaps in part. */
  function Shown(ts: seq<bytes>, n: nat): seq<bytes>
    decreases |ts|
  {
    if |Join(ts)| <= n then ts
    else
      var init, last := ts[..|ts| - 1], ts[|ts| - 1];
      if n <= |Join(init)| then Shown(init, n) else init + [last[..n - |Join(init)| - 1]]
  }

  lemma JoinLonger(parts: seq<bytes>, c: bytes)
    ensures Join(parts + [c]) == Join(parts) + [SLASH] + c
  {
    assert (parts + [c])[..|parts|] == parts;
  }

  /** A cut falls into the last of the texts that are shown; the others are whole. */
  lemma {:induction false} ShownIsCut(ts: seq<bytes>, n: nat)
    ensures var r := Shown(ts, n);
            && Join(r) == Join(ts)[..Min(|Join(ts)|, n)] && |r| <= |ts|
            && (forall k :: 0 <= k < |r| ==> |r[k]| <= |ts[k]| && r[k] == ts[k][..|r[k]|])
            && (forall k :: 0 <= k < |r| - 1 ==> r[k] == ts[k])
            && (r != ts ==> |Join(r)| == n < |Join(ts)|)
    decreases |ts|
  {
    if |Join(ts)| <= n {
      assert Join(ts)[..|Join(ts)|] == Join(ts);
    } else {
      var init, last := ts[..|ts| - 1], ts[|ts| - 1];
      if n <= |Join(init)| {
        ShownIsCut(init, n);
      } else {
        JoinLonger(init, last[..n - |Join(init)| - 1]);
      }
    }
  }

  /** What normalisation prints, name by name. */
  function Names(s: bytes, cap: nat): seq<bytes>
    requires cap > 1
  {
    Shown(Texts(StoredNames(s)), cap - 1)
  }

  lemma LimitedIs(s: bytes, cap: nat)
    requires cap > 1
    ensures Limited(s, cap) == if Names(s, cap) == [] then [SLASH] else Join(Names(s, cap))
  {
    hide StoredNames, Join;
    var ts := Texts(StoredNames(s));
    ShownIsCut(ts, cap - 1);
    JoinNothing(ts);
    JoinNothing(Names(s, cap));
  }

  /** The names are those of a stack, cut at the first NUL and at the end of the buffer. */
  lemma NamesFit(s: bytes, cap: nat)
    requires cap > 1
    ensures var ns := Names(s, cap);
            && NoSlash(ns) && Fits(ns) && |Join(ns)| < cap
            && forall k :: 0 <= k < |ns| ==> 0 !in ns[k]
  {
    hide Components, StepAll, Join;
    ComponentsAreNames(s);
    StackIsPlain([], Components(s));
    var parts := StoredNames(s);
    var ts := Texts(parts);
    ShownIsCut(ts, cap - 1);
    var ns := Names(s, cap);
    forall k | 0 <= k < |ns| ensures SLASH !in ns[k] && 0 !in ns[k] && |ns[k]| <= MAX_NAME {
      assert Plain(parts[k]) && ts[k] == Text(parts[k]);
    }
  }

  lemma ComponentsOfLimited(s: bytes, cap: nat)
    requires cap > 1
    ensures Components(Limited(s, cap)) == NonEmpty(Names(s, cap))
  {
    hide Components, Names, Join, Limited;
    LimitedIs(s, cap);
    NamesFit(s, cap);
    ComponentsOfJoin(Names(s, cap));
    if Names(s, cap) == [] {
      SkipSlash([SLASH]);
      assert [SLASH][1..] == [];
      NoComponents();
    }
  }

  // Walking.

  /** Walking the components from depth d never goes above the root. */
  predicate Safe(d: int, cs: seq<bytes>)
    decreases |cs|
  {
    d >= 0 && (cs == [] || Safe(Move(d, cs[0]), cs[1..]))
  }

  function Move(d: int, c: bytes): int {
    if c == [DOT] then d else if c == [DOT, DOT] then d - 1 else d + 1
  }

  /** How deep below its start a walk ends. */
  function EndsAt(d: int, cs: seq<bytes>): int
    decreases |cs|
  {
    if cs == [] then d else EndsAt(Move(d, cs[0]), cs[1..])
  }

  lemma {:induction false} WalkSnoc(d: int, cs: seq<bytes>, c: bytes)
    ensures EndsAt(d, cs + [c]) == Move(EndsAt(d, cs), c)
    ensures Safe(d, cs + [c]) <==> Safe(d, cs) && EndsAt(d, cs + [c]) >= 0
    decreases |cs|
  {
    if cs == [] {
      assert ([] + [c])[1..] == [];
    } else {
      WalkSnoc(Move(d, cs[0]), cs[1..], c);
      assert (cs + [c])[1..] == cs[1..] + [c];
    }
  }

  /** How many of the texts are "..", and how many are the name of something. */
  function Ups(ts: seq<bytes>): nat
    decreases |ts|
  {
    if ts == [] then 0 else Ups(ts[..|ts| - 1]) + if ts[|ts| - 1] == [DOT, DOT] then 1 else 0
  }

  function Downs(ts: seq<bytes>): nat
    decreases |ts|
  {
    if ts == [] then 0 else Downs(ts[..|ts| - 1]) + if ts[|ts| - 1] in {[], [DOT], [DOT, DOT]} then 0 else 1
  }

  /** Up to every place there are no more ".." than names. */
  predicate Balanced(ts: seq<bytes>) {
    forall k :: 0 <= k <= |ts| ==> Ups(ts[..k]) <= Downs(ts[..k])
  }

  /** And there is a name that no ".." takes back. */
  predicate Inside(ts: seq<bytes>) {
    Balanced(ts) && Ups(ts) < Downs(ts)
  }

  lemma {:induction false} WalkTexts(ts: seq<bytes>)
    ensures EndsAt(0, NonEmpty(ts)) == Downs(ts) - Ups(ts)
    ensures Safe(0, NonEmpty(ts)) <==> Balanced(ts)
    decreases |ts|
  {
    if ts != [] {
      var init, last := ts[..|ts| - 1], ts[|ts| - 1];
      WalkTexts(init);
      WalkSnoc(0, NonEmpty(init), last);
      BalancedSnoc(ts);
      assert init[..|init|] == init;
      if last == [] {
        assert NonEmpty(ts) == NonEmpty(init);
      }
    }
  }

  lemma BalancedSnoc(ts: seq<bytes>)
    requires ts != []
    ensures Balanced(ts) <==> Balanced(ts[..|ts| - 1]) && Ups(ts) <= Downs(ts)
  {
    hide Ups, Downs;
    var init := ts[..|ts| - 1];
    assert ts[..|ts|] == ts;
    forall k | 0 <= k < |ts| ensures ts[..k] == init[..k] {
    }
    if Balanced(ts) {
      forall k | 0 <= k <= |init| ensures Ups(init[..k]) <= Downs(init[..k]) {
        assert Ups(ts[..k]) <= Downs(ts[..k]);
      }
    }
  }

  /** The walk along the printed path never rises above its start exactly when, in what is printed, no ".." stands
      without a name before it to take back. */
  lemma Confined(s: bytes, cap: nat)
    requires cap > 1
    ensures Safe(0, Components(Limited(s, cap))) <==> Balanced(Names(s, cap))
    ensures EndsAt(0, Components(Limited(s, cap))) == Downs(Names(s, cap)) - Ups(Names(s, cap))
  {
    hide Components, Names, Limited, NonEmpty, Balanced, Safe, EndsAt;
    ComponentsOfLimited(s, cap);
    WalkTexts(Names(s, cap));
  }

  lemma OneStep(parts: seq<bytes>, c: bytes)
    ensures StepAll(parts, [c]) == Step(parts, c)
  {
    assert [c][1..] == [];
  }

  lemma {:induction false} StepSnoc(parts: seq<bytes>, cs: seq<bytes>, c: bytes)
    ensures StepAll(parts, cs + [c]) == Step(StepAll(parts, cs), c)
    decreases |cs|
  {
    if cs == [] {
      assert [] + [c] == [c];
      OneStep(parts, c);
    } else {
      StepSnoc(Step(parts, cs[0]), cs[1..], c);
      assert (cs + [c])[1..] == cs[1..] + [c];
    }
  }

  lemma JoinOne(c: bytes)
    ensures Join([c]) == [SLASH] + c
  {
    assert [c][..0] == [];
  }

  /** A path of one name, plain to look at, and what is stored of it. */
  lemma OneName(c: bytes)
    requires Plain(c) && |c| <= MAX_NAME
    ensures Components(c) == [c] && StoredNames(c) == [c]
  {
    ComponentsOfName(c);
    OneStep([], c);
    assert c[..|c|] == c;
  }

  lemma OneShown(c: bytes, n: nat)
    requires 0 < n <= |c|
    ensures Shown([c], n) == [c[..n - 1]]
  {
    var ts: seq<bytes> := [c];
    JoinOne(c);
    assert ts[..0] == [] && |Join(ts[..0])| == 0;
  }

  lemma OneCount(c: bytes)
    ensures Ups([c]) == (if c == [DOT, DOT] then 1 else 0)
    ensures Downs([c]) == if c in {[], [DOT], [DOT, DOT]} then 0 else 1
  {
    assert [c][..0] == [];
  }

  /** With a buffer of four bytes a cut leaves "/.." of a plain name, which leads out. */
  lemma NotConfinedInFour()
    ensures !Safe(0, Components(Limited([DOT, DOT, 97], 4)))
  {
    hide Components, StepAll, Safe, Shown, Limited, Ups, Downs, Text;
    var c: bytes := [DOT, DOT, 97];
    OneName(c);
    TextOfNulFree(c);
    assert Texts([c]) == [c];
    OneShown(c, 3);
    assert c[..2] == [DOT, DOT];
    Confined(c, 4);
    OneCount([DOT, DOT]);
    assert Names(c, 4)[..1] == [[DOT, DOT]];
  }

  /** Two dots and a NUL are no ".." when names are told apart, but print as one: the path leads out of the root.
      Two names that start with a NUL print as "//", which is the root but is not taken for it. */
  lemma NulMisleads()
    ensures var s := [DOT, DOT, 0, SLASH, 120];
            Limited(s, PATH_MAX) == [SLASH, DOT, DOT, SLASH, 120] && !Safe(0, Components(Limited(s, PATH_MAX)))
    ensures var s := [0, SLASH, 0];
            Limited(s, PATH_MAX) == [SLASH, SLASH] && EndsAt(0, Components(Limited(s, PATH_MAX))) == 0
  {
    hide Components, StepAll, Safe, EndsAt, Join, Shown, Limited, Ups, Downs, Names;
    TwoNames([DOT, DOT, 0], [120]);
    TwoNames([0], [0]);
    var s, t := [DOT, DOT, 0, SLASH, 120], [0, SLASH, 0];
    assert [DOT, DOT, 0] + [SLASH] + [120] == s && [0] + [SLASH] + [0] == t;
    assert Text([DOT, DOT, 0]) == [DOT, DOT] && Text([0]) == [] && Text([120]) == [120];
    Confined(s, PATH_MAX);
    Confined(t, PATH_MAX);
    assert Names(s, PATH_MAX) == [[DOT, DOT], [120]] && Names(t, PATH_MAX) == [[], []];
    assert Names(s, PATH_MAX)[..1] == [[DOT, DOT]] && Names(t, PATH_MAX)[..1] == [[]];
    OneCount([DOT, DOT]);
    OneCount([]);
    LastCounts(Names(t, PATH_MAX));
  }

  lemma TwoNames(a: bytes, b: bytes)
    requires Plain(a) && Plain(b) && |a| <= MAX_NAME && |b| <= MAX_NAME
    ensures var s := a + [SLASH] + b;
            && Names(s, PATH_MAX) == [Text(a), Text(b)]
            && Limited(s, PATH_MAX) == [SLASH] + Text(a) + [SLASH] + Text(b)
  {
    hide Components, StepAll;
    var s := a + [SLASH] + b;
    ComponentsSplit(a, b);
    OneName(a);
    OneName(b);
    assert [a] + [b] == [a, b];
    StepSnoc([], [a], b);
    assert b[..|b|] == b;
    var ts := [Text(a), Text(b)];
    assert Texts([a, b]) == ts;
    JoinOne(Text(a));
    JoinLonger([Text(a)], Text(b));
    assert [Text(a)] + [Text(b)] == ts;
    LimitedIs(s, PATH_MAX);
  }

  /** No stored name is cut by a NUL to nothing, one dot or two. */
  predicate Harmless(s: bytes) {
    forall k :: 0 <= k < |StoredNames(s)| ==> Text(StoredNames(s)[k]) !in {[], [DOT], [DOT, DOT]}
  }

  lemma {:induction false} ComponentBytes(s: bytes, b: u8)
    requires b !in s
    ensures forall k :: 0 <= k < |Components(s)| ==> b !in Components(s)[k]
    decreases |s|
  {
    hide Components, SlashRun, NameRun;
    var t := s[SlashRun(s)..];
    Unfolded(s);
    if t != [] {
      ComponentBytes(t[NameRun(t)..], b);
    }
  }

  lemma {:induction false} StackBytes(parts: seq<bytes>, cs: seq<bytes>, b: u8)
    requires forall k :: 0 <= k < |parts| ==> b !in parts[k]
    requires forall k :: 0 <= k < |cs| ==> b !in cs[k]
    ensures forall k :: 0 <= k < |StepAll(parts, cs)| ==> b !in StepAll(parts, cs)[k]
    decreases |cs|
  {
    if cs != [] {
      StackBytes(Step(parts, cs[0]), cs[1..], b);
    }
  }

  lemma {:induction false} TextOfNulFree(c: bytes)
    requires 0 !in c
    ensures Text(c) == c
    decreases |c|
  {
    if c != [] {
      TextOfNulFree(c[1..]);
    }
  }

  lemma TextsWhole(parts: seq<bytes>)
    requires forall k :: 0 <= k < |parts| ==> 0 !in parts[k]
    ensures Texts(parts) == parts
  {
    forall k | 0 <= k < |parts| ensures Text(parts[k]) == parts[k] {
      TextOfNulFree(parts[k]);
    }
  }

  lemma NulFreeIsHarmless(s: bytes)
    requires 0 !in s
    ensures Harmless(s) && Texts(StoredNames(s)) == StoredNames(s)
  {
    hide Components, StepAll;
    ComponentsAreNames(s);
    StackIsPlain([], Components(s));
    ComponentBytes(s, 0);
    StackBytes([], Components(s), 0);
    TextsWhole(StoredNames(s));
    forall k | 0 <= k < |StoredNames(s)| ensures Plain(StoredNames(s)[k]) {
    }
  }

  lemma {:induction false} PlainCounts(ts: seq<bytes>)
    requires AllPlain(ts)
    ensures Ups(ts) == 0 && Downs(ts) == |ts|
    decreases |ts|
  {
    if ts != [] {
      assert Plain(ts[|ts| - 1]);
      PlainCounts(ts[..|ts| - 1]);
    }
  }

  lemma {:induction false} JoinOfShort(parts: seq<bytes>)
    requires forall k :: 0 <= k < |parts| ==> |parts[k]| <= MAX_NAME
    ensures |parts| <= |Join(parts)| <= (MAX_NAME + 1) * |parts|
    decreases |parts|
  {
    if parts != [] {
      JoinOfShort(parts[..|parts| - 1]);
    }
  }

  /** Without such a NUL only the last of the printed names can be other than plain, and only if it fills the buffer. */
  lemma HarmlessNames(s: bytes, cap: nat)
    requires cap > 1 && Harmless(s) && Names(s, cap) != []
    ensures var ns := Names(s, cap);
            && AllPlain(ns[..|ns| - 1])
            && (AllPlain(ns) || |Join(ns)| == cap - 1)
  {
    hide Components, StepAll, Join, Shown;
    var parts := StoredNames(s);
    var ts, ns := Texts(parts), Names(s, cap);
    ComponentsAreNames(s);
    StackIsPlain([], Components(s));
    ShownIsCut(ts, cap - 1);
    assert AllPlain(ts) by {
      forall k | 0 <= k < |ts| ensures Plain(ts[k]) {
        assert Plain(parts[k]) && ts[k] == Text(parts[k]);
      }
    }
  }

  /** Without such a NUL, walking the result never rises above the root, however names, depth or length were cut: a
      cut can turn a name into "..", but only below a whole name, unless the buffer holds three bytes and a NUL. */
  lemma HarmlessConfined(s: bytes, cap: nat)
    requires cap > 1 && cap != 4 && Harmless(s)
    ensures Balanced(Names(s, cap))
  {
    hide Names, Harmless, Ups, Downs, Join;
    var ns := Names(s, cap);
    if ns == [] {
      assert ns[..0] == [];
      PlainCounts([]);
    } else {
      var init := ns[..|ns| - 1];
      HarmlessNames(s, cap);
      PlainBalanced(init);
      BalancedSnoc(ns);
      LastCounts(ns);
      if init == [] {
        assert ns == [ns[0]];
        JoinOne(ns[0]);
      }
    }
  }

  lemma PlainBalanced(ts: seq<bytes>)
    requires AllPlain(ts)
    ensures Balanced(ts) && Ups(ts) == 0 && Downs(ts) == |ts|
  {
    PlainCounts(ts);
    forall k | 0 <= k <= |ts| ensures Ups(ts[..k]) <= Downs(ts[..k]) {
      PlainCounts(ts[..k]);
    }
  }

  lemma LastCounts(ts: seq<bytes>)
    requires ts != []
    ensures Ups(ts) == Ups(ts[..|ts| - 1]) + if ts[|ts| - 1] == [DOT, DOT] then 1 else 0
    ensures Downs(ts) == Downs(ts[..|ts| - 1]) + if ts[|ts| - 1] in {[], [DOT], [DOT, DOT]} then 0 else 1
  {
  }

  /** With the buffer of the program, a path that is not "/" then stays strictly below the root, even if its last name
      was cut to two dots: at least six whole names stand before a cut. */
  lemma StrictlyBelow(s: bytes)
    requires Harmless(s)
    ensures Inside(Names(s, PATH_MAX)) <==> Limited(s, PATH_MAX) != [SLASH]
  {
    hide Names, Harmless, Ups, Downs, Join, Balanced;
    var ns := Names(s, PATH_MAX);
    HarmlessConfined(s, PATH_MAX);
    LimitedIs(s, PATH_MAX);
    NamesFit(s, PATH_MAX);
    JoinOfShort(ns);
    if ns == [] {
      PlainCounts(ns);
    } else {
      HarmlessNames(s, PATH_MAX);
      PlainCounts(ns[..|ns| - 1]);
      LastCounts(ns);
      if AllPlain(ns) {
        assert Plain(ns[|ns| - 1]);
        JoinLonger(ns[..|ns| - 1], ns[|ns| - 1]);
        assert ns[..|ns| - 1] + [ns[|ns| - 1]] == ns;
      }
    }
  }

  // Normalising again.

  /** Stored names go back onto the stack as they are. */
  lemma {:induction false} Restack(parts: seq<bytes>, more: seq<bytes>, rest: seq<bytes>)
    requires AllPlain(more) && Fits(more) && |parts| + |more| <= MAX_DEPTH
    ensures StepAll(parts, more + rest) == StepAll(parts + more, rest)
    decreases |more|
  {
    if more == [] {
      assert more + rest == rest && parts + more == parts;
    } else {
      var c := more[0];
      assert Plain(c) && c[..|c|] == c;
      assert (more + rest)[0] == c && (more + rest)[1..] == more[1..] + rest;
      Restack(parts + [c], more[1..], rest);
      assert parts + [c] + more[1..] == parts + more;
    }
  }

  /** Every printed name stands for itself, or there is nothing to print but one slash. */
  ghost predicate WellCut(s: bytes, cap: nat)
    requires cap > 1
  {
    AllPlain(Names(s, cap)) || Names(s, cap) == [[]]
  }

  /** Resolving texts once more never makes them longer, and makes them shorter unless they all stand for themselves. */
  lemma {:induction false} Shrinks(ts: seq<bytes>)
    requires NoSlash(ts)
    ensures |Join(StepAll([], NonEmpty(ts)))| <= |Join(ts)|
    ensures !AllPlain(ts) ==> |Join(StepAll([], NonEmpty(ts)))| < |Join(ts)|
    decreases |ts|
  {
    hide StepAll;
    if ts == [] {
      NoMore([]);
      NoComponents();
    } else {
      var init, last := ts[..|ts| - 1], ts[|ts| - 1];
      Shrinks(init);
      assert init + [last] == ts;
      NonEmptySnoc(init, last);
      JoinLonger(init, last);
      if last != [] {
        StepSnoc([], NonEmpty(init), last);
        StepAdds(StepAll([], NonEmpty(init)), last);
      } else {
        assert NonEmpty(init) + [] == NonEmpty(init);
      }
      assert AllPlain(init) && Plain(last) ==> AllPlain(ts);
    }
  }

  lemma StepAdds(parts: seq<bytes>, c: bytes)
    ensures |Join(Step(parts, c))| <= |Join(parts)| + 1 + |c|
    ensures c == [DOT] || c == [DOT, DOT] ==> |Join(Step(parts, c))| <= |Join(parts)|
  {
    if c != [DOT] && c != [DOT, DOT] {
      JoinLonger(parts, c[..Min(|c|, MAX_NAME)]);
    }
  }

  /** Normalising a result: what is stored the second time is printed whole. */
  lemma SecondPass(s: bytes, cap: nat)
    requires cap > 1
    ensures var again := StepAll([], NonEmpty(Names(s, cap)));
            && StoredNames(Limited(s, cap)) == again && |Join(again)| < cap
            && Limited(Limited(s, cap), cap) == if again == [] then [SLASH] else Join(again)
  {
    hide Components, StepAll, Join, Names, NonEmpty, Limited, Shown;
    var r, ns := Limited(s, cap), Names(s, cap);
    NoNul(s, cap);
    NulFreeIsHarmless(r);
    ComponentsOfLimited(s, cap);
    NamesFit(s, cap);
    Shrinks(ns);
    LimitedIs(r, cap);
    WholeNames(r, cap);
  }

  lemma WholeNames(s: bytes, cap: nat)
    requires cap > 1 && |Stacked(s)| < cap
    ensures Names(s, cap) == Texts(StoredNames(s))
  {
  }

  /** Normalising a result again changes nothing, exactly when every printed name stands for itself: no NUL and no
      end of the buffer has left nothing, one dot or two of it. */
  lemma Idempotent(s: bytes, cap: nat)
    requires cap > 1
    ensures Limited(Limited(s, cap), cap) == Limited(s, cap) <==> WellCut(s, cap)
  {
    hide Components, StepAll, Join, Names, NonEmpty, Limited;
    var r, ns := Limited(s, cap), Names(s, cap);
    SecondPass(s, cap);
    NamesFit(s, cap);
    LimitedIs(s, cap);
    JoinNothing(ns);
    if AllPlain(ns) {
      AllNonEmpty(ns);
      Restack([], ns, []);
      NothingMore(ns);
    } else {
      Shrinks(ns);
      JoinOfShort(ns);
      if |ns| == 1 {
        assert ns == [ns[0]];
        JoinOne(ns[0]);
        EmptyText(ns[0]);
      }
    }
  }

  lemma NothingMore(ns: seq<bytes>)
    ensures ns + [] == ns && [] + ns == ns && StepAll(ns, []) == ns
  {
  }

  lemma EmptyText(c: bytes)
    ensures c == [] ==> StepAll([], NonEmpty([c])) == []
  {
    assert [c][..0] == [];
  }

  /** Without a harmful NUL only the end of the buffer matters. */
  lemma OnlyTheCutHurts(s: bytes, cap: nat)
    requires cap > 1 && Harmless(s)
    ensures var ns := Names(s, cap);
            WellCut(s, cap) <==> ns == [] || cap == 2 || ns[|ns| - 1] !in {[], [DOT], [DOT, DOT]}
  {
    hide Names, Harmless, Join;
    var ns := Names(s, cap);
    if ns != [] {
      HarmlessNames(s, cap);
      NamesFit(s, cap);
      JoinOfShort(ns);
      if |ns| == 1 {
        assert ns == [ns[0]];
        JoinOne(ns[0]);
      }
    }
  }

  /** Six names of 63 bytes and one of n bytes, and then a last one. */
  function Eight(n: nat, last: bytes): seq<bytes> {
    seq(6, _ => seq(63, _ => 97)) + [seq(n, _ => 97)] + [last]
  }

  lemma {:induction false} JoinOfEquals(k: nat, c: bytes)
    ensures |Join(seq(k, _ => c))| == k * (1 + |c|)
  {
    if k > 0 {
      JoinOfEquals(k - 1, c);
      assert seq(k, _ => c) == seq(k - 1, _ => c) + [c];
      JoinLonger(seq(k - 1, _ => c), c);
    }
  }

  /** With the buffer of the program, the last of eight names can be cut to nothing, to a dot or to two dots: what
      is then normalised once more loses it, and in the last case the name before it as well. */
  lemma NotIdempotent(last: bytes)
    requires last in {[98], [DOT, 98], [DOT, DOT, 98]}
    ensures var names := Eight(14 - |last|, last);
            var r := Limited(Join(names), PATH_MAX);
            && r == Join(names[..7]) + [SLASH] + last[..|last| - 1]
            && Limited(r, PATH_MAX) == Join(if |last| == 3 then names[..6] else names[..7])
            && Limited(r, PATH_MAX) != r && !WellCut(Join(names), PATH_MAX)
  {
    hide Components, StepAll, Join, Limited, Names, NonEmpty, Eight;
    var names := Eight(14 - |last|, last);
    EightIsPlain(last);
    var s, head, piece := Join(names), names[..7], last[..|last| - 1];
    EightJoined(last);
    CutEight(last);
    LimitedIs(s, PATH_MAX);
    JoinLonger(head, piece);
    SecondPass(s, PATH_MAX);
    Idempotent(s, PATH_MAX);
    NonEmptySnoc(head, piece);
    AllNonEmpty(head);
    Restack([], head, []);
    NothingMore(head);
    StepSnoc([], head, piece);
    assert Step(head, piece) == if |last| == 3 then head[..6] else if |last| == 2 then head else head + [piece];
    assert head[..6] == names[..6];
    assert !Plain((head + [piece])[7]);
    assert NonEmpty(head) + [] == NonEmpty(head);
    JoinNothing(head);
    JoinNothing(head[..6]);
  }

  lemma EightJoined(last: bytes)
    requires last in {[98], [DOT, 98], [DOT, DOT, 98]}
    ensures var names := Eight(14 - |last|, last);
            && |Join(names[..6])| == 384 && |Join(names[..7])| == 399 - |last|
            && Join(names) == Join(names[..7]) + [SLASH] + last
  {
    hide Join;
    var names := Eight(14 - |last|, last);
    var six := seq(6, _ => seq(63, _ => 97));
    assert names[..6] == six && names[..7] == six + [seq(14 - |last|, _ => 97)] && names == names[..7] + [last];
    JoinOfEquals(6, seq(63, _ => 97));
    JoinLonger(six, seq(14 - |last|, _ => 97));
    JoinLonger(names[..7], last);
  }

  lemma CutEight(last: bytes)
    requires last in {[98], [DOT, 98], [DOT, DOT, 98]}
    ensures var names := Eight(14 - |last|, last);
            Names(Join(names), PATH_MAX) == names[..7] + [last[..|last| - 1]]
  {
    hide Components, StepAll, Join;
    var names := Eight(14 - |last|, last);
    EightJoined(last);
    EightIsPlain(last);
    AllNonEmpty(names);
    ComponentsOfJoin(names);
    Restack([], names, []);
    NothingMore(names);
    TextsWhole(names);
    assert names[..|names| - 1] == names[..7];
  }

  lemma EightIsPlain(last: bytes)
    requires last in {[98], [DOT, 98], [DOT, DOT, 98]}
    ensures var names := Eight(14 - |last|, last);
            AllPlain(names) && Fits(names) && [] !in names && |names| == 8
            && forall k :: 0 <= k < 8 ==> 0 !in names[k]
  {
    var parts := Eight(14 - |last|, last);
    forall k | 0 <= k < |parts| ensures Plain(parts[k]) && |parts[k]| <= MAX_NAME && 0 !in parts[k] {
      assert |parts[k]| > 0 && SLASH !in parts[k] && parts[k][|parts[k]| - 1] != DOT;
    }
  }

  // The simple form.

  /** Nothing is cut while resolving: no name too long, the stack never too deep. */
  predicate Roomy(parts: seq<bytes>, cs: seq<bytes>)
    decreases |cs|
  {
    cs == [] || (|cs[0]| <= MAX_NAME && |Resolve(parts, cs[0])| <= MAX_DEPTH && Roomy(Resolve(parts, cs[0]), cs[1..]))
  }

  lemma {:induction false} RoomyResolve(parts: seq<bytes>, cs: seq<bytes>)
    requires Roomy(parts, cs) && |parts| <= MAX_DEPTH
    ensures StepAll(parts, cs) == ResolveAll(parts, cs)
    decreases |cs|
  {
    if cs != [] {
      assert cs[0][..|cs[0]|] == cs[0];
      RoomyResolve(Resolve(parts, cs[0]), cs[1..]);
    }
  }

  lemma NulInJoin(ts: seq<bytes>, k: nat)
    requires k < |ts| && 0 !in Join(ts)
    ensures 0 !in ts[k]
    decreases |ts|
  {
    if k < |ts| - 1 {
      NulInJoin(ts[..|ts| - 1], k);
    }
  }

  /** Without a cut, and without a NUL in what remains, the program splits, resolves and joins. */
  lemma Uncut(s: bytes, cap: nat)
    requires cap > 1 && Roomy([], Components(s)) && |Normal(s)| < cap && 0 !in Normal(s)
    ensures Limited(s, cap) == Normal(s) && Names(s, cap) == ResolveAll([], Components(s))
  {
    hide Components, StepAll, ResolveAll, Join, Roomy, Shown;
    RoomyResolve([], Components(s));
    var parts := StepAll([], Components(s));
    forall k | 0 <= k < |parts| ensures 0 !in parts[k] {
      NulInJoin(parts, k);
    }
    TextsWhole(parts);
    WholeNames(s, cap);
    LimitedIs(s, cap);
    JoinNothing(parts);
  }

  /** Then normalising settles in one pass. */
  lemma UncutSettles(s: bytes, cap: nat)
    requires cap > 1 && Roomy([], Components(s)) && |Normal(s)| < cap && 0 !in Normal(s)
    ensures Limited(Limited(s, cap), cap) == Limited(s, cap) == Normal(s)
  {
    hide Components, StepAll, ResolveAll, Join, Roomy, Names;
    Uncut(s, cap);
    ComponentsAreNames(s);
    ResolvedIsPlain([], Components(s));
    Idempotent(s, cap);
  }

  lemma {:induction false} ResolvedIsPlain(parts: seq<bytes>, cs: seq<bytes>)
    requires AllPlain(parts) && forall k :: 0 <= k < |cs| ==> Name(cs[k])
    ensures AllPlain(ResolveAll(parts, cs))
    decreases |cs|
  {
    if cs != [] {
      ResolvedIsPlain(Resolve(parts, cs[0]), cs[1..]);
    }
  }

  lemma {:induction false} PlainResolves(parts: seq<bytes>, more: seq<bytes>)
    requires AllPlain(more)
    ensures ResolveAll(parts, more) == parts + more
    decreases |more|
  {
    if more == [] {
      assert parts + more == parts;
    } else {
      assert Plain(more[0]);
      PlainResolves(parts + [more[0]], more[1..]);
      assert parts + [more[0]] + more[1..] == parts + more;
    }
  }

  /** The simple form settles in one pass, and its result has no "." or ".." in it. */
  lemma NormalSettles(s: bytes)
    ensures Normal(Normal(s)) == Normal(s)
    ensures AllPlain(Components(Normal(s)))
  {
    hide Components, Join;
    ComponentsAreNames(s);
    ResolvedIsPlain([], Components(s));
    var parts := ResolveAll([], Components(s));
    PlainResolves([], parts);
    assert [] + parts == parts;
    AllNonEmpty(parts);
    ComponentsOfJoin(parts);
    JoinNothing(parts);
    if Join(parts) == [] {
      SkipSlash([SLASH]);
      NoComponents();
      assert [SLASH][1..] == [];
    }
  }

  // What "." and ".." do to a path.

  lemma {:induction false} ResolveAppend(parts: seq<bytes>, cs: seq<bytes>, ds: seq<bytes>)
    ensures ResolveAll(parts, cs + ds) == ResolveAll(ResolveAll(parts, cs), ds)
    decreases |cs|
  {
    if cs == [] {
      assert cs + ds == ds;
    } else {
      ResolveAppend(Resolve(parts, cs[0]), cs[1..], ds);
      assert (cs + ds)[1..] == cs[1..] + ds;
    }
  }

  lemma {:induction false} StepAppend(parts: seq<bytes>, cs: seq<bytes>, ds: seq<bytes>)
    ensures StepAll(parts, cs + ds) == StepAll(StepAll(parts, cs), ds)
    decreases |cs|
  {
    if cs == [] {
      assert cs + ds == ds;
    } else {
      StepAppend(Step(parts, cs[0]), cs[1..], ds);
      assert (cs + ds)[1..] == cs[1..] + ds;
    }
  }

  /** What follows a slash is resolved from where the path before it led. */
  lemma Onwards(a: bytes, b: bytes)
    ensures ResolveAll([], Components(a + [SLASH] + b)) == ResolveAll(ResolveAll([], Components(a)), Components(b))
    ensures StoredNames(a + [SLASH] + b) == StepAll(StoredNames(a), Components(b))
  {
    hide Components, ResolveAll, StepAll;
    ComponentsSplit(a, b);
    ResolveAppend([], Components(a), Components(b));
    StepAppend([], Components(a), Components(b));
  }

  lemma OneComponent(parts: seq<bytes>, c: bytes)
    requires Name(c)
    ensures ResolveAll(parts, Components(c)) == Resolve(parts, c) && StepAll(parts, Components(c)) == Step(parts, c)
  {
    ComponentsOfName(c);
    assert [c][1..] == [];
  }

  /** ".." takes back the name before it; at the root there is none. */
  lemma UpTakesBack(a: bytes, c: bytes, b: bytes)
    requires Plain(c)
    ensures Normal(a + [SLASH] + c + [SLASH] + [DOT, DOT] + [SLASH] + b) == Normal(a + [SLASH] + b)
    ensures Normal([SLASH] + [DOT, DOT] + [SLASH] + b) == Normal([SLASH] + b)
  {
    hide Components, ResolveAll, Join;
    var at := ResolveAll([], Components(a));
    OneComponent(at, c);
    OneComponent(at + [c], [DOT, DOT]);
    Onwards(a, c);
    Onwards(a + [SLASH] + c, [DOT, DOT]);
    Onwards(a + [SLASH] + c + [SLASH] + [DOT, DOT], b);
    Onwards(a, b);
    NoComponents();
    NothingResolved();
    OneComponent([], [DOT, DOT]);
    Onwards([], [DOT, DOT]);
    Onwards([SLASH] + [DOT, DOT], b);
    Onwards([], b);
    assert [] + [SLASH] + [DOT, DOT] == [SLASH] + [DOT, DOT] && [] + [SLASH] + b == [SLASH] + b;
  }

  lemma NothingResolved()
    ensures ResolveAll([], []) == [] && StepAll([], []) == []
  {
  }

  /** "." and an empty component do nothing. */
  lemma DotIsNothing(a: bytes, b: bytes)
    ensures Normal(a + [SLASH] + [DOT] + [SLASH] + b) == Normal(a + [SLASH] + b) == Normal(a + [SLASH] + [SLASH] + b)
    ensures StoredNames(a + [SLASH] + [DOT] + [SLASH] + b) == StoredNames(a + [SLASH] + b)
    ensures StoredNames(a + [SLASH] + [SLASH] + b) == StoredNames(a + [SLASH] + b)
    ensures forall cap :: cap > 1 ==> Limited(a + [SLASH] + [DOT] + [SLASH] + b, cap) == Limited(a + [SLASH] + b, cap)
  {
    hide Components, ResolveAll, StepAll, Join, StoredNames;
    OneComponent(ResolveAll([], Components(a)), [DOT]);
    OneComponent(StoredNames(a), [DOT]);
    Onwards(a, [DOT]);
    Onwards(a + [SLASH] + [DOT], b);
    Onwards(a, b);
    SkipSlash([SLASH] + b);
    assert ([SLASH] + b)[1..] == b;
    Onwards(a, [SLASH] + b);
    assert a + [SLASH] + ([SLASH] + b) == a + [SLASH] + [SLASH] + b;
  }

  /** In the program ".." takes back the name before it exactly if there was room for that name on the stack; on a full
      stack it takes the last of the names that were stored.  At the root it does nothing. */
  lemma UpWithLimits(a: bytes, c: bytes, b: bytes)
    requires Plain(c)
    ensures var s := a + [SLASH] + c + [SLASH] + [DOT, DOT];
            && (StoredNames(s) == StoredNames(a) <==> |StoredNames(a)| < MAX_DEPTH)
            && StoredNames(s + [SLASH] + b)
               == StoredNames(if |StoredNames(a)| < MAX_DEPTH then a + [SLASH] + b
                              else a + [SLASH] + [DOT, DOT] + [SLASH] + b)
    ensures StoredNames([SLASH] + [DOT, DOT] + [SLASH] + b) == StoredNames([SLASH] + b)
  {
    hide Components, StepAll, ResolveAll, StoredNames;
    var at := StoredNames(a);
    var s := a + [SLASH] + c;
    StackFits(a);
    OneComponent(at, c);
    OneComponent(at, [DOT, DOT]);
    OneComponent(Step(at, c), [DOT, DOT]);
    Onwards(a, c);
    Onwards(s, [DOT, DOT]);
    Onwards(s + [SLASH] + [DOT, DOT], b);
    Onwards(a, b);
    Onwards(a, [DOT, DOT]);
    Onwards(a + [SLASH] + [DOT, DOT], b);
    NothingStored();
    OneComponent([], [DOT, DOT]);
    Onwards([], [DOT, DOT]);
    Onwards([SLASH] + [DOT, DOT], b);
    Onwards([], b);
    assert [] + [SLASH] + [DOT, DOT] == [SLASH] + [DOT, DOT] && [] + [SLASH] + b == [SLASH] + b;
  }

  lemma NothingStored()
    ensures StoredNames([]) == []
  {
    NoComponents();
    NothingResolved();
  }

  lemma StackFits(s: bytes)
    ensures Fits(StoredNames(s))
  {
    hide Components, StepAll;
    ComponentsAreNames(s);
    StackIsPlain([], Components(s));
  }

  /** The same of what is printed, whatever the size of the buffer. */
  lemma UpIsPrinted(a: bytes, c: bytes, b: bytes, cap: nat)
    requires Plain(c) && cap > 1
    ensures |StoredNames(a)| < MAX_DEPTH ==>
              Limited(a + [SLASH] + c + [SLASH] + [DOT, DOT] + [SLASH] + b, cap) == Limited(a + [SLASH] + b, cap)
    ensures Limited([SLASH] + [DOT, DOT] + [SLASH] + b, cap) == Limited([SLASH] + b, cap)
  {
    hide StoredNames, Join;
    UpWithLimits(a, c, b);
  }

  /** Of plain names the first 24 are stored, each up to 63 bytes. */
  lemma {:induction false} PlainStored(ns: seq<bytes>)
    requires AllPlain(ns)
    ensures var r := StepAll([], ns);
            && |r| == Min(|ns|, MAX_DEPTH)
            && forall k :: 0 <= k < |r| ==> r[k] == ns[k][..Min(|ns[k]|, MAX_NAME)]
    decreases |ns|
  {
    hide StepAll;
    if ns == [] {
      NothingResolved();
    } else {
      var init, last := ns[..|ns| - 1], ns[|ns| - 1];
      PlainStored(init);
      StepSnoc([], init, last);
      assert init + [last] == ns && Plain(last);
    }
  }

  // Below the root directory.

  /** What the client's path names is reached from the root directory: its components follow those of the root. */
  lemma StartsAtRoot(root: bytes, s: bytes)
    ensures var vpath := Limited(s, PATH_MAX); Components(Full(root, vpath)) == Components(root) + Components(vpath)
  {
    hide Components, Join, Names, Limited;
    var vpath := Limited(s, PATH_MAX);
    LimitedIs(s, PATH_MAX);
    if Names(s, PATH_MAX) != [] {
      StartsWithSlash(Names(s, PATH_MAX));
    }
    assert vpath == [SLASH] + vpath[1..];
    SkipSlash(vpath);
    ComponentsSplit(root, vpath[1..]);
    assert root + [SLASH] + vpath[1..] == root + vpath;
    if vpath == [SLASH] {
      assert vpath[1..] == [];
      NoComponents();
    }
  }

  lemma StartsWithSlash(parts: seq<bytes>)
    requires parts != []
    ensures Join(parts) != [] && Join(parts)[0] == SLASH
  {
    JoinPrefix(parts, 1);
    assert parts[..1][..0] == [] && Join(parts[..1]) == [SLASH] + parts[0];
    assert Join(parts)[0] == Join(parts)[..|Join(parts[..1])|][0];
  }

  /** A path that goes to the root directory, and from there on without leaving it to something strictly below. */
  ghost predicate Below(root: bytes, f: bytes) {
    && |root| <= |f| && f[..|root|] == root
    && var cs := Components(f[|root|..]);
       && Components(f) == Components(root) + cs && Safe(0, cs) && EndsAt(0, cs) >= 1
  }

  /** The path given to the file system stays strictly below the root directory exactly when, among the names that are
      printed, every ".." has a name before it to take back, and a name is left over. */
  lemma BelowExactly(root: bytes, s: bytes)
    ensures Below(root, Full(root, Limited(s, PATH_MAX))) <==> Inside(Names(s, PATH_MAX))
  {
    hide Components, Names, Limited, Safe, EndsAt, Balanced;
    var vpath := Limited(s, PATH_MAX);
    StartsAtRoot(root, s);
    Confined(s, PATH_MAX);
    if vpath == [SLASH] {
      NoComponents();
      SkipSlash(vpath);
      assert vpath[1..] == [] && root[|root|..] == [];
      NoWalk();
    } else {
      assert (root + vpath)[|root|..] == vpath;
    }
  }

  lemma NoWalk()
    ensures EndsAt(0, []) == 0
  {
  }
}

/** The sequence matchers of the HTTP parser, which keep the place in a sequence between two pieces of the input. */
module Matcher {
  import opened Machine
  import opened Codec

  /** How an input byte is compared: as it is, with capital letters lowered, or with bit 5 set. */
  datatype Fold = Exact | Lower | Unsafe

  function Folded(f: Fold, b: u8): u8 {
    match f
    case Exact => b
    case Lower => if 65 <= b <= 90 then b + 32 else b
    case Unsafe => if b / 32 % 2 == 0 then b + 32 else b
  }

  datatype Outcome = Pause(index: nat) | Complete(at: nat) | Mismatch(at: nat)

  function Shift(o: Outcome, n: nat): Outcome {
    match o
    case Pause(i) => o
    case Complete(at) => Complete(at + n)
    case Mismatch(at) => Mismatch(at + n)
  }

  /** Comparing the input with the sequence from a place on. */
  function Scan(f: Fold, sequence: bytes, i: nat, data: bytes): (o: Outcome)
    requires i < |sequence|
    ensures o.Pause? ==> o.index < |sequence|
    decreases |data|
  {
    if data == [] then Pause(i)
    else if Folded(f, data[0]) != sequence[i] then Mismatch(0)
    else if i + 1 == |sequence| then Complete(0)
    else Shift(Scan(f, sequence, i + 1, data[1..]), 1)
  }

  class Place {
    var index: nat

    constructor ()
      ensures index == 0
    {
      index := 0;
    }

    method Match(f: Fold, sequence: bytes, data: bytes) returns (o: Outcome)
      requires index < |sequence|
      modifies this
      ensures o == Scan(f, sequence, old(index), data)
      ensures index == if o.Pause? then o.index else 0
    {
      var i: nat, p: nat := index, 0;
      assert data[0..] == data;
      while p < |data|
        invariant 0 <= p <= |data| && i < |sequence| && index == old(index)
        invariant Scan(f, sequence, index, data) == Shift(Scan(f, sequence, i, data[p..]), p)
      {
        assert data[p..][0] == data[p] && data[p..][1..] == data[p + 1..];
        if Folded(f, data[p]) == sequence[i] {
          i := i + 1;
          if i == |sequence| {
            index := 0;
            return Complete(p);
          }
        } else {
          index := 0;
          return Mismatch(p);
        }
        p := p + 1;
      }
      index := i;
      o := Pause(i);
    }
  }

  /** Cutting the input makes no difference: the second piece goes on where the first one paused. */
  lemma {:induction false} CutAnywhere(f: Fold, sequence: bytes, i: nat, a: bytes, b: bytes)
    requires i < |sequence|
    ensures var o := Scan(f, sequence, i, a);
            Scan(f, sequence, i, a + b) == if o.Pause? then Shift(Scan(f, sequence, o.index, b), |a|) else o
    decreases |a|
  {
    if a == [] {
      assert a + b == b;
    } else {
      assert (a + b)[0] == a[0] && (a + b)[1..] == a[1..] + b;
      if Folded(f, a[0]) == sequence[i] && i + 1 < |sequence| {
        CutAnywhere(f, sequence, i + 1, a[1..], b);
      }
    }
  }

  /** The bytes agree with the sequence from place i on. */
  predicate Agrees(f: Fold, sequence: bytes, i: nat, data: bytes) {
    i + |data| <= |sequence| && forall k :: 0 <= k < |data| ==> Folded(f, data[k]) == sequence[i + k]
  }

  lemma AgreesFirst(f: Fold, sequence: bytes, i: nat, data: bytes)
    requires data != [] && i < |sequence| && Folded(f, data[0]) == sequence[i] && Agrees(f, sequence, i + 1, data[1..])
    ensures Agrees(f, sequence, i, data)
  {
    forall k | 0 <= k < |data| ensures Folded(f, data[k]) == sequence[i + k] {
      assert k > 0 ==> data[k] == data[1..][k - 1];
    }
  }

  /** What the outcomes mean. */
  lemma {:induction false} OutcomeMeans(f: Fold, sequence: bytes, i: nat, data: bytes)
    requires i < |sequence|
    ensures match Scan(f, sequence, i, data)
            case Pause(j) => j == i + |data| && Agrees(f, sequence, i, data)
            case Complete(at) => at < |data| && i + at + 1 == |sequence| && Agrees(f, sequence, i, data[..at + 1])
            case Mismatch(at) => at < |data| && Agrees(f, sequence, i, data[..at]) && i + at < |sequence|
                                 && Folded(f, data[at]) != sequence[i + at]
    decreases |data|
  {
    hide Folded, Agrees;
    if data == [] || Folded(f, data[0]) != sequence[i] {
      AgreesNothing(f, sequence, i);
      assert data == [] || data[..0] == [];
    } else if i + 1 == |sequence| {
      AgreesNothing(f, sequence, i + 1);
      assert data[..1][1..] == [];
      AgreesFirst(f, sequence, i, data[..1]);
    } else {
      OutcomeMeans(f, sequence, i + 1, data[1..]);
      var o := Scan(f, sequence, i + 1, data[1..]);
      var n := if o.Pause? then |data| - 1 else if o.Complete? then o.at + 1 else o.at;
      assert data[..n + 1][1..] == data[1..][..n] && data[..|data|] == data && data[1..][..|data| - 1] == data[1..];
      AgreesFirst(f, sequence, i, data[..n + 1]);
    }
  }

  lemma AgreesNothing(f: Fold, sequence: bytes, i: nat)
    requires i <= |sequence|
    ensures Agrees(f, sequence, i, [])
  {
  }

  /** Setting bit 5 instead of lowering capital letters gives the same answer when the sequence is made of small
      letters. */
  lemma {:induction false} ShortcutIsRight(sequence: bytes, i: nat, data: bytes)
    requires i < |sequence| && forall k :: 0 <= k < |sequence| ==> 97 <= sequence[k] <= 122
    ensures Scan(Unsafe, sequence, i, data) == Scan(Lower, sequence, i, data)
    decreases |data|
  {
    if data != [] && i + 1 < |sequence| {
      ShortcutIsRight(sequence, i + 1, data[1..]);
    }
  }
}

/** Comma-separated name lists (section 5 of RFC 4251). */
module NameList {
  import opened Codec

  const COMMA := 44

  function FirstComma(s: bytes): (k: nat)
    ensures k <= |s| && (k < |s| ==> s[k] == COMMA)
    ensures forall j :: 0 <= j < k ==> s[j] != COMMA
  {
    if s == [] || s[0] == COMMA then 0 else 1 + FirstComma(s[1..])
  }

  /** The names between the commas. */
  function Names(s: bytes): seq<bytes>
    decreases |s|
  {
    var k := FirstComma(s);
    if k == |s| then [s] else [s[..k]] + Names(s[k + 1..])
  }

  /** The name stands at position i, between commas or ends of the list. */
  predicate StandsAt(s: bytes, name: bytes, i: int) {
    && 0 <= i <= |s| - |name|
    && s[i..i + |name|] == name
    && (i == 0 || s[i - 1] == COMMA)
    && (i + |name| == |s| || s[i + |name|] == COMMA)
  }

  method ListHas(s: bytes, name: bytes) returns (found: bool)
    requires COMMA !in name
    ensures found <==> name in Names(s)
  {
    var i := 0;
    while i <= |s| - |name|
      invariant i >= 0 && forall j :: 0 <= j < i ==> !StandsAt(s, name, j)
    {
      if s[i..i + |name|] == name && (i == 0 || s[i - 1] == COMMA) && (i + |name| == |s| || s[i + |name|] == COMMA) {
        assert StandsAt(s, name, i);
        NameStands(s, name, i);
        return true;
      }
      i := i + 1;
    }
    if name in Names(s) {
      ghost var j := WhereNameStands(s, name);
    }
    return false;
  }

  /** Searching for the text between commas finds exactly the names of the list. */
  lemma {:induction false} NameStands(s: bytes, name: bytes, i: nat)
    requires COMMA !in name && StandsAt(s, name, i)
    ensures name in Names(s)
    decreases |s|
  {
    var k := FirstComma(s);
    if i == 0 {
      assert s[0..|name|] == s[..|name|];
      if k == |s| {
        assert s[..|s|] == s;
      }
    } else {
      assert i - 1 >= k;
      Shifted(s, name, k + 1, i - k - 1);
      NameStands(s[k + 1..], name, i - k - 1);
    }
  }

  lemma Shifted(s: bytes, name: bytes, k: nat, i: nat)
    requires 0 < k <= |s| && s[k - 1] == COMMA
    ensures StandsAt(s[k..], name, i) <==> StandsAt(s, name, i + k)
  {
    if i + k + |name| <= |s| {
      assert s[k..][i..i + |name|] == s[i + k..i + k + |name|];
    }
  }

  lemma FirstStands(s: bytes)
    ensures StandsAt(s, s[..FirstComma(s)], 0)
  {
    var k := FirstComma(s);
    assert s[0..k] == s[..k];
  }

  lemma {:induction false} WhereNameStands(s: bytes, name: bytes) returns (i: nat)
    requires name in Names(s)
    ensures StandsAt(s, name, i)
    decreases |s|
  {
    hide StandsAt;
    var k := FirstComma(s);
    FirstStands(s);
    assert k == |s| ==> s[..k] == s;
    if name == s[..k] {
      i := 0;
    } else {
      assert Names(s) == [s[..k]] + Names(s[k + 1..]);
      var j := WhereNameStands(s[k + 1..], name);
      Shifted(s, name, k + 1, j);
      i := j + k + 1;
    }
  }
}

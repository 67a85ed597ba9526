/** File names and their components (src/fs/namei.c:39-52): bytes up to a slash or the end. */
module Names {

  import opened Bytes

  const DOT: Byte := 46
  const SLASH: Byte := 47

  /** What stands in front of the first slash. */
  function Component(s: seq<Byte>): (r: seq<Byte>)
    ensures SLASH !in r && r <= s && (|r| < |s| ==> s[|r|] == SLASH)
  {
    if s == [] || s[0] == SLASH then [] else [s[0]] + Component(s[1..])
  }

  lemma {:induction false} ComponentOfName(s: seq<Byte>)
    requires SLASH !in s
    ensures Component(s) == s
  {
    if s != [] {
      assert s[0] in s && forall b :: b in s[1..] ==> b in s;
      ComponentOfName(s[1..]);
    }
  }

  lemma ComponentFrom(s: seq<Byte>, i: nat)
    requires i <= |s|
    ensures if i == |s| || s[i] == SLASH then Component(s[i..]) == []
            else Component(s[i..]) == [s[i]] + Component(s[i + 1..])
  {
    if i < |s| {
      assert s[i..][1..] == s[i + 1..];
    }
  }

  /** Two names match when their first components are equal, byte for byte. */
  method NameiMatch(s1: seq<Byte>, s2: seq<Byte>) returns (r: bool)
    ensures r <==> Component(s1) == Component(s2)
  {
    hide Component;
    var i := 0;
    assert s1[0..] == s1 && s2[0..] == s2;
    while i < |s1| && s1[i] != SLASH && i < |s2| && s2[i] != SLASH
      invariant 0 <= i <= |s1| && i <= |s2|
      invariant Component(s1) == Component(s2) <==> Component(s1[i..]) == Component(s2[i..])
    {
      ComponentFrom(s1, i);
      ComponentFrom(s2, i);
      if s1[i] != s2[i] {
        assert Component(s1[i..])[0] == s1[i] && Component(s2[i..])[0] == s2[i];
        return false;
      }
      i := i + 1;
    }
    ComponentFrom(s1, i);
    ComponentFrom(s2, i);
    var end1 := i == |s1| || s1[i] == SLASH;
    var end2 := i == |s2| || s2[i] == SLASH;
    r := end1 == end2;
  }
}

/** Singly linked lists as the kernel keeps them: addresses of successors, 0 at the end. */
module Chains {

  function At(chain: seq<nat>, i: nat): nat
  {
    if i < |chain| then chain[i] else 0
  }

  ghost predicate NextOk(next: map<nat, nat>, chain: seq<nat>, i: nat)
  {
    i < |chain| ==> chain[i] != 0 && chain[i] in next && next[chain[i]] == At(chain, i + 1)
  }

  /** chain lists the addresses from head on. */
  ghost predicate IsChain(next: map<nat, nat>, head: nat, chain: seq<nat>)
  {
    && head == At(chain, 0)
    && (forall i: nat :: NextOk(next, chain, i))
    && Distinct(chain)
  }

  ghost predicate Distinct(chain: seq<nat>)
  {
    forall i, j :: 0 <= i < j < |chain| ==> chain[i] != chain[j]
  }

  function Without(chain: seq<nat>, i: nat): seq<nat>
    requires i < |chain|
  {
    chain[..i] + chain[i + 1..]
  }

  lemma PushChain(next: map<nat, nat>, head: nat, chain: seq<nat>, v: nat)
    requires IsChain(next, head, chain) && v != 0 && v !in chain
    ensures IsChain(next[v := head], v, [v] + chain)
  {
    var chain', next' := [v] + chain, next[v := head];
    forall i: nat
      ensures NextOk(next', chain', i)
    {
      if i > 0 {
        assert NextOk(next, chain, i - 1);
      }
    }
  }

  /** Entry i is taken out by its predecessor, or by the head. */
  lemma UnlinkChain(next: map<nat, nat>, head: nat, chain: seq<nat>, i: nat)
    requires IsChain(next, head, chain) && i < |chain| && chain[i] in next
    ensures var v := chain[i];
            var next' := if i == 0 then next else next[chain[i - 1] := next[v]];
            IsChain(next' - {v}, if i == 0 then next[v] else head, Without(chain, i))
  {
    var v := chain[i];
    var next' := if i == 0 then next else next[chain[i - 1] := next[v]];
    var chain', next'' := Without(chain, i), next' - {v};
    assert NextOk(next, chain, i);
    forall k: nat
      ensures NextOk(next'', chain', k)
    {
      assert NextOk(next, chain, k) && NextOk(next, chain, k + 1);
    }
    assert i > 0 ==> NextOk(next, chain, 0);
  }

  lemma OtherChain(next: map<nat, nat>, next': map<nat, nat>, head: nat, chain: seq<nat>)
    requires IsChain(next, head, chain)
    requires forall v :: v in chain && v in next ==> v in next' && next'[v] == next[v]
    ensures IsChain(next', head, chain)
  {
    forall i: nat
      ensures NextOk(next', chain, i)
    {
      assert NextOk(next, chain, i);
    }
  }

  lemma WithoutMembers(chain: seq<nat>, i: nat)
    requires i < |chain| && forall j, k :: 0 <= j < k < |chain| ==> chain[j] != chain[k]
    ensures forall w :: w in Without(chain, i) <==> w in chain && w != chain[i]
  {
    forall w | w in chain && w != chain[i]
      ensures w in Without(chain, i)
    {
      var k :| 0 <= k < |chain| && chain[k] == w;
      assert Without(chain, i)[if k < i then k else k - 1] == w;
    }
  }

  /** A new last entry, which its predecessor or the head points to. */
  lemma AppendChain(next: map<nat, nat>, head: nat, chain: seq<nat>, v: nat)
    requires IsChain(next, head, chain) && v != 0 && v !in chain
    ensures chain == [] ==> head == 0 && IsChain(next[v := 0], v, [v])
    ensures chain != [] ==> IsChain(next[v := 0][chain[|chain| - 1] := v], head, chain + [v])
  {
    if chain != [] {
      var chain', next' := chain + [v], next[v := 0][chain[|chain| - 1] := v];
      forall i: nat
        ensures NextOk(next', chain', i)
      {
        assert NextOk(next, chain, i);
      }
    }
  }
}

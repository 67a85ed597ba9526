/**
  The vnode cache of src/fs/vfs/vnode.c in place: every superblock has a linked list of vnodes, found by inode
  number, grown at its head and unlinked when a count falls to zero.
 */
module VnodeCache {

  import opened Chains
  import opened VnodeState

  /** The list of superblock s holds its vnodes, all of them, and nothing else. */
  ghost predicate ListOk(vnodes: Vnodes, next: map<nat, nat>, heads: map<nat, nat>, chains: map<nat, seq<nat>>, s: nat)
  {
    && s in heads && s in chains && IsChain(next, heads[s], chains[s])
    && (forall v :: v in chains[s] <==> v in vnodes && vnodes[v].at.sb == s)
  }

  ghost predicate AllLists(vnodes: Vnodes, next: map<nat, nat>, heads: map<nat, nat>, chains: map<nat, seq<nat>>, n: nat)
  {
    forall s: nat :: s < n ==> ListOk(vnodes, next, heads, chains, s)
  }

  /** The lists look at where a vnode is from, not at its counts and mounts. */
  lemma SameLists(was: Vnodes, vnodes: Vnodes, next: map<nat, nat>, heads: map<nat, nat>, chains: map<nat, seq<nat>>, n: nat)
    requires AllLists(was, next, heads, chains, n)
    requires forall v :: (v in was <==> v in vnodes) && (v in was ==> vnodes[v].at == was[v].at)
    ensures AllLists(vnodes, next, heads, chains, n)
  {
    forall s: nat | s < n
      ensures ListOk(vnodes, next, heads, chains, s)
    {
      assert ListOk(was, next, heads, chains, s);
    }
  }

  /** A new vnode goes to the head of its list. */
  lemma Pushed(vnodes: Vnodes, next: map<nat, nat>, heads: map<nat, nat>, chains: map<nat, seq<nat>>, n: nat, v: nat, p: Place)
    requires AllLists(vnodes, next, heads, chains, n)
    requires v !in vnodes && v != 0 && p.sb < n && p.sb in heads && p.sb in chains
    ensures AllLists(vnodes[v := Vnode(p, 1, 0, 0)], next[v := heads[p.sb]], heads[p.sb := v], chains[p.sb := [v] + chains[p.sb]], n)
  {
    var vnodes', next', heads', chains' :=
      vnodes[v := Vnode(p, 1, 0, 0)], next[v := heads[p.sb]], heads[p.sb := v], chains[p.sb := [v] + chains[p.sb]];
    forall s: nat | s < n
      ensures ListOk(vnodes', next', heads', chains', s)
    {
      assert ListOk(vnodes, next, heads, chains, s);
      if s == p.sb {
        PushChain(next, heads[s], chains[s], v);
      } else {
        OtherChain(next, next', heads[s], chains[s]);
      }
    }
  }

  /** Entry i of its list, vnode v, is gone from list and memory. */
  lemma Unlinked(vnodes: Vnodes, next: map<nat, nat>, heads: map<nat, nat>, chains: map<nat, seq<nat>>, n: nat, v: nat, sb: nat, i: nat)
    requires AllLists(vnodes, next, heads, chains, n)
    requires v in vnodes && vnodes[v].at.sb == sb < n && sb in heads && sb in chains && v in next
    requires i < |chains[sb]| && chains[sb][i] == v
    ensures AllLists(vnodes - {v}, (if i == 0 then next else next[chains[sb][i - 1] := next[v]]) - {v},
                     if i == 0 then heads[sb := next[v]] else heads, chains[sb := Without(chains[sb], i)], n)
  {
    var next' := (if i == 0 then next else next[chains[sb][i - 1] := next[v]]) - {v};
    var heads' := if i == 0 then heads[sb := next[v]] else heads;
    var vnodes', chains' := vnodes - {v}, chains[sb := Without(chains[sb], i)];
    assert ListOk(vnodes, next, heads, chains, sb);
    forall s: nat | s < n
      ensures ListOk(vnodes', next', heads', chains', s)
    {
      assert ListOk(vnodes, next, heads, chains, s);
      if s == sb {
        UnlinkChain(next, heads[s], chains[s], i);
        WithoutMembers(chains[s], i);
      } else {
        assert i > 0 ==> chains[sb][i - 1] in chains[sb];
        OtherChain(next, next', heads[s], chains[s]);
      }
    }
  }

  class Cache {
    var vnodes: Vnodes
    var cacheNext: map<nat, nat>
    var heads: map<nat, nat>
    var nextId: nat
    var nextSb: nat

    ghost var chains: map<nat, seq<nat>>
    ghost var cached: map<Place, nat>
    ghost var mounts: Mounts
    ghost var covers: Mounts
    /** Who holds references: refs counts them all, those that leaked included; pins are the two ends of each mount. */
    ghost var pins: multiset<nat>
    ghost var refs: multiset<nat>

    ghost function Abs(): State
      reads this
    {
      State(vnodes, cached, mounts, covers, nextId, nextSb)
    }

    ghost predicate Lists()
      reads this
    {
      AllLists(vnodes, cacheNext, heads, chains, nextSb)
    }

    ghost predicate Valid()
      reads this
    {
      Lists() && Safe(Abs(), pins, refs)
    }

    constructor ()
      ensures Valid() && nextSb == 0 && refs == multiset{} && pins == multiset{} && mounts == map[] && covers == map[] && vnodes == map[]
    {
      vnodes, cacheNext, heads, nextId, nextSb := map[], map[], map[], 1, 0;
      chains, cached, mounts, covers, pins, refs := map[], map[], map[], map[], multiset{}, multiset{};
    }

    /** A superblock with an empty cache. */
    method CreateSuper() returns (sb: nat)
      requires Valid()
      modifies this
      ensures Valid() && sb == old(nextSb) && Abs() == NewSb(old(Abs())) && refs == old(refs) && pins == old(pins)
    {
      hide Safe;
      NewSbKeeps(Abs(), pins, refs);
      sb := nextSb;
      forall v | v in vnodes
        ensures vnodes[v].at.sb != sb
      {
        SafeNode(Abs(), pins, refs, v);
      }
      ghost var oldHeads, oldChains := heads, chains;
      heads, chains := heads[sb := 0], chains[sb := []];
      nextSb := nextSb + 1;
      forall s: nat | s < nextSb
        ensures ListOk(vnodes, cacheNext, heads, chains, s)
      {
        if s < sb {
          assert ListOk(vnodes, cacheNext, oldHeads, oldChains, s);
        }
      }
    }

    /** node->count++ by somebody who can reach the node. */
    method Ref(v: nat)
      requires Valid() && v in vnodes
      modifies this`vnodes, this`refs
      ensures Valid() && Abs() == Hold(old(Abs()), v) && refs == old(refs) + multiset{v}
    {
      hide Safe, IsChain;
      HoldKeeps(Abs(), pins, refs, v);
      ghost var was := vnodes;
      vnodes := vnodes[v := vnodes[v].(count := vnodes[v].count + 1)];
      refs := refs + multiset{v};
      SameLists(was, vnodes, cacheNext, heads, chains, nextSb);
    }

    /** Finds the inode in the superblock's list; the entry at address 0 ends it. */
    method Search(sb: nat, ino: nat) returns (v: nat)
      requires Valid() && sb < nextSb
      ensures v == if Place(sb, ino) in cached then cached[Place(sb, ino)] else 0
    {
      hide Safe;
      assert ListOk(vnodes, cacheNext, heads, chains, sb);
      ghost var chain := chains[sb];
      v := heads[sb];
      ghost var i: nat := 0;
      while v != 0
        invariant i <= |chain| && v == At(chain, i)
        invariant forall k :: 0 <= k < i ==> vnodes[chain[k]].at.ino != ino
        decreases |chain| - i
      {
        assert chain[i] in chain && NextOk(cacheNext, chain, i);
        SafeNode(Abs(), pins, refs, v);
        if vnodes[v].at.ino == ino {
          assert vnodes[v].at == Place(sb, ino);
          return;
        }
        v := cacheNext[v];
        i := i + 1;
      }
      SafePlace(Abs(), pins, refs, Place(sb, ino));
      assert NextOk(cacheNext, chain, i);
      assert i == |chain|;
      forall w | w in vnodes && vnodes[w].at.sb == sb
        ensures vnodes[w].at.ino != ino
      {
        assert w in chain;
      }
    }

    method CreateEmptyInode(sb: nat, ino: nat) returns (v: nat)
      requires Valid() && sb < nextSb && Place(sb, ino) !in cached
      modifies this
      ensures Valid() && (v, Abs()) == Get(old(Abs()), Place(sb, ino)) && refs == old(refs) + multiset{v} && pins == old(pins)
    {
      hide Safe, IsChain;
      ghost var was := Abs();
      GetKeeps(was, pins, refs, Place(sb, ino));
      SafeNode(was, pins, refs, nextId);
      assert ListOk(vnodes, cacheNext, heads, chains, sb);
      v := nextId;
      nextId := nextId + 1;
      Pushed(vnodes, cacheNext, heads, chains, nextSb, v, Place(sb, ino));
      vnodes := vnodes[v := Vnode(Place(sb, ino), 1, 0, 0)];
      cacheNext := cacheNext[v := heads[sb]];
      heads := heads[sb := v];
      cached, chains, refs := cached[Place(sb, ino) := v], chains[sb := [v] + chains[sb]], refs + multiset{v};
    }

    /** The cached vnode of an inode, with one more reference, or a new one read from the file system. */
    method IGet(sb: nat, ino: nat) returns (v: nat)
      requires Valid() && sb < nextSb
      modifies this
      ensures Valid() && (v, Abs()) == Get(old(Abs()), Place(sb, ino)) && refs == old(refs) + multiset{v} && pins == old(pins)
    {
      v := Search(sb, ino);
      hide Safe, Lists;
      SafePlace(Abs(), pins, refs, Place(sb, ino));
      SafeNode(Abs(), pins, refs, 0);
      if v != 0 {
        Ref(v);
      } else {
        v := CreateEmptyInode(sb, ino);
      }
    }

    /** One reference less, by somebody who has one; the last one frees the vnode. */
    method IPut(v: nat)
      requires Valid() && v in refs && pins <= refs - multiset{v}
      modifies this
      ensures Valid() && v in old(vnodes) && Abs() == Put(old(Abs()), v) && refs == old(refs) - multiset{v} && pins == old(pins)
    {
      hide Safe, IsChain;
      assert refs - multiset{v} + multiset{v} == refs;
      SafeNode(Abs(), pins, refs, v);
      PutKeeps(Abs(), pins, refs - multiset{v}, v);
      ghost var st, keep := Put(Abs(), v), refs - multiset{v};
      var n := vnodes[v];
      if n.count - 1 == 0 {
        FreeInode(v, st);
      } else {
        ghost var was := vnodes;
        vnodes := vnodes[v := n.(count := n.count - 1)];
        refs := keep;
        SameLists(was, vnodes, cacheNext, heads, chains, nextSb);
      }
    }

    /** Walks the list to the vnode, remembering the one before. */
    method FindPrev(v: nat) returns (prev: nat, ghost i: nat)
      requires Lists() && v in vnodes && vnodes[v].at.sb < nextSb
      ensures vnodes[v].at.sb in heads && vnodes[v].at.sb in chains && v in cacheNext
      ensures i < |chains[vnodes[v].at.sb]| && chains[vnodes[v].at.sb][i] == v
      ensures prev == if i == 0 then 0 else chains[vnodes[v].at.sb][i - 1]
      ensures i > 0 ==> prev != 0
    {
      var sb := vnodes[v].at.sb;
      assert ListOk(vnodes, cacheNext, heads, chains, sb);
      ghost var chain := chains[sb];
      ghost var k :| 0 <= k < |chain| && chain[k] == v;
      var tmp := heads[sb];
      prev, i := 0, 0;
      while tmp != 0 && tmp != v
        invariant i <= k && tmp == At(chain, i) && prev == (if i == 0 then 0 else chain[i - 1])
        decreases |chain| - i
      {
        assert NextOk(cacheNext, chain, i);
        prev := tmp;
        tmp := cacheNext[tmp];
        i := i + 1;
      }
      assert NextOk(cacheNext, chain, i) && NextOk(cacheNext, chain, k);
      assert chain[i] == v;
      assert i > 0 ==> NextOk(cacheNext, chain, i - 1);
    }

    method FreeInode(v: nat, ghost st: State)
      requires Valid() && v in vnodes && v in refs && vnodes[v].count == 1
      requires st == Put(Abs(), v) && Safe(st, pins, refs - multiset{v})
      modifies this
      ensures Valid() && Abs() == st && refs == old(refs) - multiset{v} && pins == old(pins)
    {
      hide Safe, AllLists;
      var sb := vnodes[v].at.sb;
      SafeNode(Abs(), pins, refs, v);
      var prev;
      ghost var i;
      prev, i := FindPrev(v);
      Unlinked(vnodes, cacheNext, heads, chains, nextSb, v, sb, i);
      cached, chains, refs := cached - {vnodes[v].at}, chains[sb := Without(chains[sb], i)], refs - multiset{v};
      Unlink(sb, v, prev);
    }

    /** Takes v out behind prev, or at the head, and gives its memory back. */
    method Unlink(sb: nat, v: nat, prev: nat)
      requires sb in heads && v in cacheNext
      modifies this`heads, this`cacheNext, this`vnodes
      ensures heads == if prev == 0 then old(heads)[sb := old(cacheNext)[v]] else old(heads)
      ensures cacheNext == (if prev == 0 then old(cacheNext) else old(cacheNext)[prev := old(cacheNext)[v]]) - {v}
      ensures vnodes == old(vnodes) - {v}
    {
      if prev == 0 {
        heads := heads[sb := cacheNext[v]];
      } else {
        cacheNext := cacheNext[prev := cacheNext[v]];
      }
      cacheNext, vnodes := cacheNext - {v}, vnodes - {v};
    }

    /** The end of sys_mount: mountpoint->mount and root->cover. */
    method Mount(v: nat, r: nat)
      requires Valid() && v in vnodes && r in vnodes && pins + multiset{v, r} <= refs
      requires vnodes[v].at !in mounts && vnodes[r].at !in covers && vnodes[v].at.sb < vnodes[r].at.sb
      modifies this
      ensures v != r && Valid() && Abs() == Join(old(Abs()), v, r) && refs == old(refs) && pins == old(pins) + multiset{v, r}
    {
      hide Safe, IsChain;
      JoinKeeps(Abs(), pins, refs, v, r);
      ghost var was := vnodes;
      mounts, covers := mounts[vnodes[v].at := vnodes[r].at], covers[vnodes[r].at := vnodes[v].at];
      vnodes := vnodes[v := vnodes[v].(mount := r)];
      vnodes := vnodes[r := vnodes[r].(cover := v)];
      pins := pins + multiset{v, r};
      SameLists(was, vnodes, cacheNext, heads, chains, nextSb);
    }
  }
}

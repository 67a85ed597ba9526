/**
  Counted vnodes and mounts as values (src/fs/vfs/vnode.c, src/fs/mount.c). A vnode is known by the address it
  was allocated at; addresses and superblock numbers are never used twice.
 */
module VnodeState {

  /** Which inode of which file system. */
  datatype Place = Place(sb: nat, ino: nat)

  /** mount and cover are addresses of vnodes, 0 for none. */
  datatype Vnode = Vnode(at: Place, count: nat, mount: nat, cover: nat)

  type Vnodes = map<nat, Vnode>
  type Mounts = map<Place, Place>

  /** cached finds vnodes by place; mounts leads from mountpoints to roots, covers back. */
  datatype State = State(vnodes: Vnodes, cached: map<Place, nat>, mounts: Mounts, covers: Mounts, nextId: nat, nextSb: nat)

  // ---- Invariants ---------------------------------------------------------

  ghost predicate NodeOk(st: State, v: nat)
  {
    v in st.vnodes ==>
      && 0 < v < st.nextId && 0 < st.vnodes[v].count && st.vnodes[v].at.sb < st.nextSb
      && st.vnodes[v].at in st.cached && st.cached[st.vnodes[v].at] == v
  }

  ghost predicate PlaceOk(st: State, p: Place)
  {
    p in st.cached ==> st.cached[p] in st.vnodes && st.vnodes[st.cached[p]].at == p
  }

  /** One vnode for each inode at most, and none without a reference. */
  ghost predicate Indexed(st: State)
  {
    0 < st.nextId && (forall v :: NodeOk(st, v)) && forall p :: PlaceOk(st, p)
  }

  /** Mounting goes to later file systems only, and covers undo mounts. */
  ghost predicate Rising(mounts: Mounts, covers: Mounts, n: nat)
  {
    && (forall p :: p in mounts ==> p.sb < mounts[p].sb < n && mounts[p] in covers && covers[mounts[p]] == p)
    && (forall q :: q in covers ==> covers[q] in mounts && mounts[covers[q]] == q)
  }

  /** The vnode that stands at the other end. */
  function Target(cached: map<Place, nat>, m: Mounts, p: Place): nat
  {
    if p in m && m[p] in cached then cached[m[p]] else 0
  }

  ghost predicate LinkOk(st: State, v: nat)
  {
    v in st.vnodes ==>
      && st.vnodes[v].mount == Target(st.cached, st.mounts, st.vnodes[v].at)
      && st.vnodes[v].cover == Target(st.cached, st.covers, st.vnodes[v].at)
  }

  /** The pointers in the vnodes say what the two maps say. */
  ghost predicate Linked(st: State)
  {
    && (forall p :: p in st.mounts ==> p in st.cached) && (forall q :: q in st.covers ==> q in st.cached)
    && (forall v :: LinkOk(st, v))
  }

  ghost predicate Inv(st: State)
  {
    Indexed(st) && Rising(st.mounts, st.covers, st.nextSb) && Linked(st)
  }

  /** Every holder's vnode is there, with a count no smaller than the number of its holders. */
  ghost predicate Held(st: State, refs: multiset<nat>)
  {
    forall v :: v in refs ==> v in st.vnodes && refs[v] <= st.vnodes[v].count
  }

  /** Both ends of every mount are held for good. */
  ghost predicate Pinned(st: State, pins: multiset<nat>)
  {
    && (forall p :: p in st.mounts && p in st.cached ==> st.cached[p] in pins)
    && (forall q :: q in st.covers && q in st.cached ==> st.cached[q] in pins)
  }

  ghost predicate Safe(st: State, pins: multiset<nat>, refs: multiset<nat>)
  {
    Inv(st) && Pinned(st, pins) && pins <= refs && Held(st, refs)
  }

  // ---- Operations ---------------------------------------------------------

  function Hold(st: State, v: nat): State
    requires v in st.vnodes
  {
    st.(vnodes := st.vnodes[v := st.vnodes[v].(count := st.vnodes[v].count + 1)])
  }

  /** iget: the vnode there is, or a new one. */
  function Get(st: State, p: Place): (nat, State)
  {
    if p in st.cached then (st.cached[p], if st.cached[p] in st.vnodes then Hold(st, st.cached[p]) else st)
    else (st.nextId, State(st.vnodes[st.nextId := Vnode(p, 1, 0, 0)], st.cached[p := st.nextId], st.mounts, st.covers, st.nextId + 1, st.nextSb))
  }

  /** iput: one reference less; the last one takes the vnode with it. */
  function Put(st: State, v: nat): State
    requires v in st.vnodes
  {
    var n := st.vnodes[v];
    if n.count == 0 then st
    else if n.count == 1 then st.(vnodes := st.vnodes - {v}, cached := st.cached - {n.at})
    else st.(vnodes := st.vnodes[v := n.(count := n.count - 1)])
  }

  /** sys_mount once the new file system has read its root r. */
  function Join(st: State, v: nat, r: nat): State
    requires v in st.vnodes && r in st.vnodes && v != r
  {
    State(st.vnodes[v := st.vnodes[v].(mount := r)][r := st.vnodes[r].(cover := v)], st.cached,
          st.mounts[st.vnodes[v].at := st.vnodes[r].at], st.covers[st.vnodes[r].at := st.vnodes[v].at], st.nextId, st.nextSb)
  }

  function NewSb(st: State): State
  {
    st.(nextSb := st.nextSb + 1)
  }

  lemma SafeNode(st: State, pins: multiset<nat>, refs: multiset<nat>, v: nat)
    requires Safe(st, pins, refs)
    ensures NodeOk(st, v) && LinkOk(st, v) && 0 < st.nextId
    ensures v in refs ==> v in st.vnodes && refs[v] <= st.vnodes[v].count
  {
  }

  lemma SafePlace(st: State, pins: multiset<nat>, refs: multiset<nat>, p: Place)
    requires Safe(st, pins, refs)
    ensures PlaceOk(st, p)
  {
  }

  lemma NewSbKeeps(st: State, pins: multiset<nat>, refs: multiset<nat>)
    requires Safe(st, pins, refs)
    ensures Safe(NewSb(st), pins, refs)
  {
    var st' := NewSb(st);
    forall v
      ensures NodeOk(st', v) && LinkOk(st', v)
    {
      assert NodeOk(st, v) && LinkOk(st, v);
    }
    forall p
      ensures PlaceOk(st', p)
    {
      assert PlaceOk(st, p);
    }
  }

  // ---- What each operation keeps ------------------------------------------

  lemma HoldKeeps(st: State, pins: multiset<nat>, refs: multiset<nat>, v: nat)
    requires Safe(st, pins, refs) && v in st.vnodes
    ensures Safe(Hold(st, v), pins, refs + multiset{v})
  {
    var st' := Hold(st, v);
    forall w
      ensures NodeOk(st', w) && LinkOk(st', w)
    {
      assert NodeOk(st, w) && LinkOk(st, w);
    }
    forall p
      ensures PlaceOk(st', p)
    {
      assert PlaceOk(st, p);
    }
  }

  lemma NewIndexed(st: State, p: Place)
    requires Indexed(st) && p !in st.cached && p.sb < st.nextSb
    ensures Indexed(Get(st, p).1) && st.nextId !in st.vnodes
  {
    var st' := Get(st, p).1;
    assert NodeOk(st, st.nextId);
    forall w
      ensures NodeOk(st', w)
    {
      assert NodeOk(st, w);
    }
    forall q
      ensures PlaceOk(st', q)
    {
      assert PlaceOk(st, q);
    }
  }

  lemma NewLinked(st: State, p: Place)
    requires Inv(st) && p !in st.cached
    ensures Linked(Get(st, p).1)
  {
    var st' := Get(st, p).1;
    forall w
      ensures LinkOk(st', w)
    {
      assert LinkOk(st, w);
    }
  }

  lemma GetKeeps(st: State, pins: multiset<nat>, refs: multiset<nat>, p: Place)
    requires Safe(st, pins, refs) && p.sb < st.nextSb
    ensures PlaceOk(st, p)
    ensures var (v, st') := Get(st, p);
            && Safe(st', pins, refs + multiset{v}) && v in st'.vnodes && st'.vnodes[v].at == p
            && (p !in st.cached ==> v !in st.vnodes && v !in refs)
  {
    assert PlaceOk(st, p);
    if p in st.cached {
      HoldKeeps(st, pins, refs, st.cached[p]);
    } else {
      NewIndexed(st, p);
      NewLinked(st, p);
      hide Indexed, Linked, Rising;
      assert st.nextId !in refs;
    }
  }

  /** What others hold is still there after an iput. */
  lemma PutLeavesHeld(st: State, pins: multiset<nat>, refs: multiset<nat>, v: nat)
    requires Safe(st, pins, refs + multiset{v}) && v in st.vnodes
    ensures forall w :: w in refs ==>
              w in st.vnodes && w in Put(st, v).vnodes && Put(st, v).vnodes[w].at == st.vnodes[w].at
    ensures Put(st, v).mounts == st.mounts && Put(st, v).covers == st.covers && Put(st, v).nextSb == st.nextSb
  {
    forall w | w in refs
      ensures w in st.vnodes && w in Put(st, v).vnodes && Put(st, v).vnodes[w].at == st.vnodes[w].at
    {
      assert w in refs + multiset{v};
      assert v == w ==> (refs + multiset{v})[v] >= 2;
    }
  }

  lemma PutKeepsMounts(st: State, v: nat)
    requires v in st.vnodes
    ensures Put(st, v).mounts == st.mounts && Put(st, v).covers == st.covers && Put(st, v).nextSb == st.nextSb
  {
  }

  lemma SamePlaceSameVnode(st: State, pins: multiset<nat>, refs: multiset<nat>, v: nat, w: nat)
    requires Safe(st, pins, refs) && v in st.vnodes && w in st.vnodes
    ensures v == w <==> st.vnodes[v].at == st.vnodes[w].at
  {
    assert NodeOk(st, v) && NodeOk(st, w);
  }

  lemma HeldBoth(st: State, pins: multiset<nat>, refs: multiset<nat>, v: nat)
    requires Safe(st, pins, refs + multiset{v})
    ensures v in st.vnodes && forall w :: w in refs ==> w in st.vnodes
  {
    assert v in refs + multiset{v};
    assert forall w :: w in refs ==> w in refs + multiset{v};
  }

  lemma PutIndexed(st: State, v: nat)
    requires Indexed(st) && v in st.vnodes
    ensures Indexed(Put(st, v))
  {
    var st' := Put(st, v);
    assert NodeOk(st, v);
    forall w
      ensures NodeOk(st', w)
    {
      assert NodeOk(st, w);
    }
    forall p
      ensures PlaceOk(st', p)
    {
      assert PlaceOk(st, p);
    }
  }

  lemma PutLinked(st: State, pins: multiset<nat>, v: nat)
    requires Inv(st) && Pinned(st, pins) && v in st.vnodes && (st.vnodes[v].count == 1 ==> v !in pins)
    ensures Linked(Put(st, v)) && Pinned(Put(st, v), pins)
  {
    var st' := Put(st, v);
    assert NodeOk(st, v);
    if st.vnodes[v].count == 1 {
      assert st.vnodes[v].at !in st.mounts && st.vnodes[v].at !in st.covers;
    }
    forall w
      ensures LinkOk(st', w)
    {
      assert LinkOk(st, w);
    }
  }

  lemma PutKeeps(st: State, pins: multiset<nat>, refs: multiset<nat>, v: nat)
    requires Safe(st, pins, refs + multiset{v}) && pins <= refs
    ensures v in st.vnodes && Safe(Put(st, v), pins, refs)
    ensures v in refs ==> v in Put(st, v).vnodes
  {
    assert v in refs + multiset{v};
    assert (refs + multiset{v})[v] == refs[v] + 1;
    assert st.vnodes[v].count == 1 ==> v !in pins;
    PutIndexed(st, v);
    PutLinked(st, pins, v);
    hide Indexed, Linked, Pinned, Rising;
    forall w | w in refs
      ensures w in Put(st, v).vnodes && refs[w] <= Put(st, v).vnodes[w].count
    {
      assert w in refs + multiset{v};
    }
  }

  lemma JoinIndexed(st: State, v: nat, r: nat)
    requires Indexed(st) && v in st.vnodes && r in st.vnodes && v != r
    ensures Indexed(Join(st, v, r))
  {
    var st' := Join(st, v, r);
    forall w
      ensures NodeOk(st', w)
    {
      assert NodeOk(st, w);
    }
    forall p
      ensures PlaceOk(st', p)
    {
      assert PlaceOk(st, p);
    }
  }

  lemma JoinRises(st: State, v: nat, r: nat)
    requires Rising(st.mounts, st.covers, st.nextSb) && v in st.vnodes && r in st.vnodes && v != r
    requires st.vnodes[v].at !in st.mounts && st.vnodes[r].at !in st.covers
    requires st.vnodes[v].at.sb < st.vnodes[r].at.sb < st.nextSb
    ensures Rising(Join(st, v, r).mounts, Join(st, v, r).covers, st.nextSb)
  {
  }

  lemma JoinLinked(st: State, v: nat, r: nat)
    requires Indexed(st) && Linked(st) && v in st.vnodes && r in st.vnodes && v != r
    requires Rising(st.mounts, st.covers, st.nextSb)
    requires st.vnodes[v].at !in st.mounts && st.vnodes[r].at !in st.covers
    ensures Linked(Join(st, v, r))
  {
    var st' := Join(st, v, r);
    assert NodeOk(st, v) && NodeOk(st, r);
    forall w
      ensures LinkOk(st', w)
    {
      assert LinkOk(st, w) && NodeOk(st, w);
    }
  }

  /** A mount pins both its ends: the mountpoint with the reference namei gave, the root with the one iget gave. */
  lemma JoinKeeps(st: State, pins: multiset<nat>, refs: multiset<nat>, v: nat, r: nat)
    requires Safe(st, pins, refs) && pins + multiset{v, r} <= refs
    requires v in st.vnodes && r in st.vnodes && st.vnodes[v].at !in st.mounts && st.vnodes[r].at !in st.covers
    requires st.vnodes[v].at.sb < st.vnodes[r].at.sb
    ensures v != r && Safe(Join(st, v, r), pins + multiset{v, r}, refs)
  {
    assert NodeOk(st, v) && NodeOk(st, r);
    JoinIndexed(st, v, r);
    JoinRises(st, v, r);
    JoinLinked(st, v, r);
    hide Indexed, Linked, Rising;
  }

  // ---- Runs ---------------------------------------------------------------

  /** iget, a further reference to a vnode that is held, iput of a reference that is no mount's, a mount. */
  datatype Use = DoGet(p: Place) | DoHold(v: nat) | DoPut(v: nat) | DoMount(v: nat, ino: nat)

  /** A state with its references: those of mounts, and all of them. */
  datatype Usage = Usage(st: State, pins: multiset<nat>, refs: multiset<nat>)

  ghost predicate MayUse(u: Usage, use: Use)
  {
    match use
    case DoGet(p) => p.sb < u.st.nextSb
    case DoHold(v) => v in u.refs && v in u.st.vnodes
    case DoPut(v) => v in u.refs && v in u.st.vnodes && u.pins <= u.refs - multiset{v}
    case DoMount(v, _) =>
      v in u.refs && v in u.st.vnodes && u.pins <= u.refs - multiset{v} && u.st.vnodes[v].at !in u.st.mounts
  }

  /** A mount reads the root of a new superblock first. */
  ghost function AfterUse(u: Usage, use: Use): Usage
    requires MayUse(u, use)
  {
    match use
    case DoGet(p) => Usage(Get(u.st, p).1, u.pins, u.refs + multiset{Get(u.st, p).0})
    case DoHold(v) => Usage(Hold(u.st, v), u.pins, u.refs + multiset{v})
    case DoPut(v) => Usage(Put(u.st, v), u.pins, u.refs - multiset{v})
    case DoMount(v, ino) =>
      var (r, st) := Get(NewSb(u.st), Place(u.st.nextSb, ino));
      Usage(if v in st.vnodes && r in st.vnodes && v != r then Join(st, v, r) else st, u.pins + multiset{v, r}, u.refs + multiset{r})
  }

  ghost predicate UseRun(u: Usage, uses: seq<Use>, u': Usage)
    decreases |uses|
  {
    if uses == [] then u == u' else MayUse(u, uses[0]) && UseRun(AfterUse(u, uses[0]), uses[1..], u')
  }

  lemma MountKeeps(st: State, pins: multiset<nat>, refs: multiset<nat>, v: nat, ino: nat)
    requires Safe(st, pins, refs) && MayUse(Usage(st, pins, refs), DoMount(v, ino))
    ensures var u := AfterUse(Usage(st, pins, refs), DoMount(v, ino)); Safe(u.st, u.pins, u.refs)
  {
    var p := Place(st.nextSb, ino);
    var st1 := NewSb(st);
    NewSbKeeps(st, pins, refs);
    SafeNode(st, pins, refs, v);
    NewPlace(st, pins, refs, p);
    GetKeeps(st1, pins, refs, p);
    var (r, st2) := Get(st1, p);
    assert v in st2.vnodes && st2.vnodes[v].at == st.vnodes[v].at;
    PinsRoom(pins, refs, v, r);
    hide Safe, MayUse, NodeOk;
    JoinKeeps(st2, pins, refs + multiset{r}, v, r);
  }

  lemma PinsRoom(pins: multiset<nat>, refs: multiset<nat>, v: nat, r: nat)
    requires v in refs && pins <= refs - multiset{v}
    ensures pins + multiset{v, r} <= refs + multiset{r}
  {
  }

  lemma NewPlace(st: State, pins: multiset<nat>, refs: multiset<nat>, p: Place)
    requires Safe(st, pins, refs) && st.nextSb <= p.sb
    ensures p !in st.covers && p !in st.cached
  {
    assert PlaceOk(st, p);
    forall v | v in st.vnodes
      ensures st.vnodes[v].at.sb < st.nextSb
    {
      assert NodeOk(st, v);
    }
  }

  /**
    In every run of lookups, references and mounts: one vnode for each inode at most, counts at least as large
    as the number of holders, nothing held ever freed, mounts and covers inverse and free of cycles.
   */
  lemma {:induction false} RunsKeepVnodesSafe(u: Usage, uses: seq<Use>, u': Usage)
    requires Safe(u.st, u.pins, u.refs) && UseRun(u, uses, u')
    ensures Safe(u'.st, u'.pins, u'.refs)
    decreases |uses|
  {
    if uses != [] {
      var next := AfterUse(u, uses[0]);
      match uses[0] {
        case DoGet(p) => GetKeeps(u.st, u.pins, u.refs, p);
        case DoHold(v) => HoldKeeps(u.st, u.pins, u.refs, v);
        case DoPut(v) =>
          assert u.refs - multiset{v} + multiset{v} == u.refs;
          PutKeeps(u.st, u.pins, u.refs - multiset{v}, v);
        case DoMount(v, ino) => MountKeeps(u.st, u.pins, u.refs, v, ino);
      }
      assert Safe(next.st, next.pins, next.refs);
      RunsKeepVnodesSafe(next, uses[1..], u');
    }
  }

  // ---- Exact counts -------------------------------------------------------

  /** Counts are the numbers of references, so that a vnode is cached exactly while there is one. */
  ghost predicate Exact(st: State, refs: multiset<nat>)
  {
    forall v :: refs[v] == if v in st.vnodes then st.vnodes[v].count else 0
  }

  /** Each use takes or gives back exactly one reference, or two for a mount, and touches no other count. */
  lemma UseIsExact(u: Usage, use: Use)
    requires Safe(u.st, u.pins, u.refs) && Exact(u.st, u.refs) && MayUse(u, use)
    ensures Exact(AfterUse(u, use).st, AfterUse(u, use).refs)
  {
    var u' := AfterUse(u, use);
    match use {
      case DoGet(p) => GetIsExact(u.st, u.pins, u.refs, p);
      case DoHold(v) =>
      case DoPut(v) => assert NodeOk(u.st, v);
      case DoMount(v, ino) =>
        NewSbKeeps(u.st, u.pins, u.refs);
        GetIsExact(NewSb(u.st), u.pins, u.refs, Place(u.st.nextSb, ino));
    }
  }

  lemma GetIsExact(st: State, pins: multiset<nat>, refs: multiset<nat>, p: Place)
    requires Safe(st, pins, refs) && Exact(st, refs)
    ensures Exact(Get(st, p).1, refs + multiset{Get(st, p).0})
  {
    assert PlaceOk(st, p) && NodeOk(st, st.nextId);
  }

  /** In every run a vnode is freed exactly when the last reference to it is given back, and never early. */
  lemma {:induction false} RunsCountExactly(u: Usage, uses: seq<Use>, u': Usage)
    requires Safe(u.st, u.pins, u.refs) && Exact(u.st, u.refs) && UseRun(u, uses, u')
    ensures Exact(u'.st, u'.refs) && forall v :: v in u'.st.vnodes ==> v in u'.refs
    decreases |uses|
  {
    if uses == [] {
      forall v | v in u'.st.vnodes
        ensures v in u'.refs
      {
        assert NodeOk(u.st, v);
      }
    } else {
      var u1 := AfterUse(u, uses[0]);
      UseIsExact(u, uses[0]);
      assert UseRun(u, [uses[0]], u1);
      RunsKeepVnodesSafe(u, [uses[0]], u1);
      RunsCountExactly(u1, uses[1..], u');
    }
  }
}

/** src/fs/namei.c over the vnode cache: references are taken and given back at every step of a path. */
module Namei {

  import opened Bytes
  import opened Limits
  import opened Names
  import opened Options
  import opened VnodeState
  import opened VnodeCache
  import opened PathWalk

  const MOUNT_MAX: nat := 16

  // ---- Who holds what -----------------------------------------------------

  /** The mounts, the task's root, and the references that are not the caller's, with the inodes they are for. */
  datatype Context = Context(table: Table, root: nat, pins: multiset<nat>, others: multiset<nat>, places: map<nat, Place>)

  ghost function RootAt(g: Context): Place
  {
    if g.root in g.places then g.places[g.root] else Place(0, 0)
  }

  ghost function TableOf(c: Cache): Table
    reads c
  {
    Table(c.mounts, c.covers, c.nextSb)
  }

  ghost predicate Stands(c: Cache, v: nat, p: Place)
    reads c
  {
    v in c.vnodes && c.vnodes[v].at == p
  }

  ghost predicate OthersStand(c: Cache, g: Context)
    reads c
  {
    forall v :: v in g.others ==> v in g.places && Stands(c, v, g.places[v])
  }

  ghost predicate Common(c: Cache, g: Context)
    reads c
  {
    && c.Valid() && TableOf(c) == g.table && c.pins == g.pins && g.pins <= g.others
    && g.root in g.others && OthersStand(c, g)
  }

  /** The caller has no reference of its own. */
  ghost predicate Idle(c: Cache, g: Context)
    reads c
  {
    Common(c, g) && c.refs == g.others
  }

  /** The caller has one reference, to the vnode v of inode p. */
  ghost predicate Own(c: Cache, g: Context, v: nat, p: Place)
    reads c
  {
    Common(c, g) && c.refs == g.others + multiset{v} && Stands(c, v, p)
  }

  ghost predicate Result(c: Cache, g: Context, r: nat, e: Errno, walk: Walk)
    reads c
  {
    match walk
    case Fail(error) => r == 0 && e == error && Idle(c, g)
    case Found(p) => r != 0 && Own(c, g, r, p)
  }

  lemma OwnFacts(c: Cache, g: Context, v: nat, p: Place)
    requires Own(c, g, v, p)
    ensures v != 0 && v in c.vnodes && c.vnodes[v].at == p && p.sb < c.nextSb == g.table.n && Good(g.table)
    ensures c.vnodes[v].mount != 0 <==> p in g.table.mounts
    ensures c.vnodes[v].cover != 0 <==> p in g.table.covers
    ensures c.vnodes[v].mount != 0 ==>
              && c.vnodes[v].mount in g.others && p.sb < g.table.mounts[p].sb < c.nextSb
              && c.vnodes[v].mount in g.places && g.places[c.vnodes[v].mount] == g.table.mounts[p]
    ensures c.vnodes[v].cover != 0 ==>
              && c.vnodes[v].cover in g.others && g.table.covers[p].sb < p.sb
              && c.vnodes[v].cover in g.places && g.places[c.vnodes[v].cover] == g.table.covers[p]
  {
    HeldBoth(c.Abs(), g.pins, g.others, v);
    SafeNode(c.Abs(), g.pins, c.refs, v);
    MountFacts(c.Abs(), g.pins, c.refs, v);
  }

  lemma MountFacts(st: State, pins: multiset<nat>, refs: multiset<nat>, v: nat)
    requires Safe(st, pins, refs) && v in st.vnodes
    ensures st.vnodes[v].mount != 0 <==> st.vnodes[v].at in st.mounts
    ensures st.vnodes[v].cover != 0 <==> st.vnodes[v].at in st.covers
    ensures st.vnodes[v].mount != 0 ==>
              && v in pins && st.vnodes[v].mount in pins && st.vnodes[v].mount in st.vnodes
              && st.vnodes[st.vnodes[v].mount].at == st.mounts[st.vnodes[v].at]
              && st.vnodes[v].at.sb < st.mounts[st.vnodes[v].at].sb < st.nextSb
    ensures st.vnodes[v].cover != 0 ==>
              && v in pins && st.vnodes[v].cover in pins && st.vnodes[v].cover in st.vnodes
              && st.vnodes[st.vnodes[v].cover].at == st.covers[st.vnodes[v].at]
              && st.covers[st.vnodes[v].at].sb < st.vnodes[v].at.sb
  {
    var p := st.vnodes[v].at;
    assert NodeOk(st, v) && LinkOk(st, v);
    if p in st.mounts {
      assert PlaceOk(st, st.mounts[p]) && NodeOk(st, st.cached[st.mounts[p]]);
    }
    if p in st.covers {
      assert PlaceOk(st, st.covers[p]) && NodeOk(st, st.cached[st.covers[p]]);
    }
  }

  // ---- References ---------------------------------------------------------

  /** node->count++ for a vnode somebody else holds. */
  method Take(c: Cache, ghost g: Context, v: nat)
    requires Idle(c, g) && v in g.others
    modifies c
    ensures v in g.places && Own(c, g, v, g.places[v])
  {
    hide Safe, AllLists;
    c.Ref(v);
  }

  method Drop(c: Cache, ghost g: Context, v: nat, ghost p: Place)
    requires Own(c, g, v, p)
    modifies c
    ensures Idle(c, g)
  {
    hide Safe, AllLists, VnodeState.Put;
    assert c.refs - multiset{v} == g.others;
    PutLeavesHeld(c.Abs(), g.pins, g.others, v);
    c.IPut(v);
  }

  /** The same state, with the caller's reference counted among the others'. */
  ghost function Lent(g: Context, v: nat, p: Place): Context
  {
    g.(others := g.others + multiset{v}, places := g.places[v := p])
  }

  /** v may be lent for p without the others being mistaken about it. */
  ghost predicate Apart(g: Context, v: nat, p: Place)
  {
    && g.pins <= g.others && g.root in g.others && (forall w :: w in g.others ==> w in g.places)
    && (v in g.others ==> g.places[v] == p)
  }

  lemma Lend(c: Cache, g: Context, v: nat, p: Place)
    requires Own(c, g, v, p)
    ensures Idle(c, Lent(g, v, p)) && RootAt(Lent(g, v, p)) == RootAt(g) && Apart(g, v, p)
  {
    hide Safe, AllLists;
    assert v in g.others ==> g.places[v] == p;
  }

  lemma Return(c: Cache, g: Context, v: nat, p: Place)
    requires Idle(c, Lent(g, v, p)) && Apart(g, v, p)
    ensures Own(c, g, v, p)
  {
    hide Safe, AllLists;
    assert v in Lent(g, v, p).others;
    forall w | w in g.others
      ensures Stands(c, w, g.places[w])
    {
      assert w in Lent(g, v, p).others;
    }
  }

  /** Of two references, either may be the caller's. */
  lemma Exchange(c: Cache, g: Context, v: nat, p: Place, w: nat, q: Place)
    requires Own(c, Lent(g, v, p), w, q) && Apart(g, v, p)
    ensures Own(c, Lent(g, w, q), v, p) && Apart(g, w, q) && RootAt(Lent(g, w, q)) == RootAt(g)
  {
    hide Safe, AllLists;
    var g', g'' := Lent(g, v, p), Lent(g, w, q);
    assert v in g'.others && c.refs == g''.others + multiset{v};
    assert w in g'.others ==> g'.places[w] == q;
    forall x | x in g''.others
      ensures x in g''.places && Stands(c, x, g''.places[x])
    {
      assert x in g'.others || x == w;
    }
  }

  /**
    Goes up the chain of mounts; the reference moves along. The number of steps is passed on as it came, so that
    only a caller who allows none at all is turned away (with EMLINK).
   */
  method ResolveMount(c: Cache, ghost g: Context, v: nat, ghost p: Place, steps: nat) returns (r: nat)
    requires Own(c, g, v, p)
    modifies c
    ensures r == 0 <==> steps == 0 && p in g.table.mounts
    ensures if r == 0 then Idle(c, g) else Own(c, g, r, Top(g.table, p))
    decreases g.table.n - p.sb
  {
    hide Safe, AllLists, Rising, Common;
    OwnFacts(c, g, v, p);
    if c.vnodes[v].mount != 0 {
      if steps == 0 {
        Drop(c, g, v, p);
        return 0;
      }
      var newnode := c.vnodes[v].mount;
      Drop(c, g, v, p);
      Take(c, g, newnode);
      r := ResolveMount(c, g, newnode, g.table.mounts[p], steps);
    } else {
      r := v;
    }
  }

  // ---- One component ------------------------------------------------------

  method Fetch(c: Cache, ghost g: Context, sb: nat, ino: nat) returns (v: nat)
    requires Idle(c, g) && sb < g.table.n
    modifies c
    ensures Own(c, g, v, Place(sb, ino))
  {
    hide Safe, AllLists;
    GetKeeps(c.Abs(), c.pins, c.refs, Place(sb, ino));
    v := c.IGet(sb, ino);
  }

  /** The lookup in a directory the caller has a reference to, which is given back. */
  method LookupEntry(c: Cache, ghost g: Context, w: World, node: nat, ghost p: Place, name: seq<Byte>) returns (r: nat, e: Errno)
    requires Own(c, g, node, p)
    modifies c
    ensures Result(c, g, r, e, match w.lookup(p, Component(name))
                               case None => Fail(ENOENT)
                               case Some(ino) => Found(Top(g.table, Place(p.sb, ino))))
  {
    hide Common, Rising, Top;
    OwnFacts(c, g, node, p);
    r, e := 0, ENOENT;
    match w.lookup(c.vnodes[node].at, Component(name)) {
      case None =>
        Drop(c, g, node, p);
      case Some(ino) =>
        ghost var q := Place(p.sb, ino);
        Lend(c, g, node, p);
        var newnode := Fetch(c, Lent(g, node, p), c.vnodes[node].at.sb, ino);
        Exchange(c, g, node, p, newnode, q);
        Drop(c, Lent(g, newnode, q), node, p);
        Return(c, g, newnode, q);
        r := ResolveMount(c, g, newnode, q, MOUNT_MAX);
        OwnFacts(c, g, r, Top(g.table, q));
    }
  }

  lemma SamePlace(c: Cache, g: Context, v: nat, p: Place, w: nat, q: Place)
    requires Own(c, Lent(g, v, p), w, q)
    ensures v == w <==> p == q
  {
    assert v in Lent(g, v, p).others;
    SamePlaceSameVnode(c.Abs(), c.pins, c.refs, v, w);
  }

  /** node == resolve_mount(current_task->root): has ".." arrived at the task's root? */
  method IsRoot(c: Cache, ghost g: Context, root: nat, node: nat, ghost p: Place) returns (same: bool)
    requires Own(c, g, node, p) && root == g.root
    modifies c
    ensures Own(c, g, node, p) && (same <==> p == Top(g.table, RootAt(g)))
  {
    hide Own, Idle, Common, Top;
    Lend(c, g, node, p);
    ghost var g' := Lent(g, node, p);
    RootIsHeld(c, g');
    Take(c, g', root);
    var newnode := ResolveMount(c, g', root, RootAt(g'), MOUNT_MAX);
    SamePlace(c, g, node, p, newnode, Top(g.table, RootAt(g)));
    same := node == newnode;
    Drop(c, g', newnode, Top(g.table, RootAt(g)));
    Return(c, g, node, p);
  }

  lemma RootIsHeld(c: Cache, g: Context)
    requires Idle(c, g)
    ensures g.root in g.others && g.root in g.places && RootAt(g) == g.places[g.root]
  {
  }

  /** One component of a path: a vnode with a reference for the caller, or an error and nothing else. */
  method GetDentry(c: Cache, ghost g: Context, w: World, root: nat, node: nat, filename: seq<Byte>, frommount: bool)
    returns (r: nat, e: Errno)
    requires Idle(c, g) && node in g.others && node in g.places && root == g.root
    requires frommount ==> Component(filename) == PARENT
    modifies c
    ensures Result(c, g, r, e, EntryAt(w, g.table, RootAt(g), if frommount then g.places[node] else Top(g.table, g.places[node]), filename))
    decreases if frommount then 0 else 1, g.places[node].sb, 1
  {
    hide Idle, Common, Own, EntryAt, Top;
    Take(c, g, node);
    if frommount {
      r, e := GetOwned(c, g, w, root, node, g.places[node], filename);
    } else {
      var top := ResolveMount(c, g, node, g.places[node], MOUNT_MAX);
      r, e := GetOwned(c, g, w, root, top, Top(g.table, g.places[node]), filename);
    }
  }

  /** The part of getdentry behind the mounts, with a reference to the directory. */
  method GetOwned(c: Cache, ghost g: Context, w: World, root: nat, node: nat, ghost p: Place, filename: seq<Byte>)
    returns (r: nat, e: Errno)
    requires Own(c, g, node, p) && root == g.root
    modifies c
    ensures Result(c, g, r, e, EntryAt(w, g.table, RootAt(g), p, filename))
    decreases 0, p.sb, 0
  {
    hide Idle, Common, Own, Top, Component;
    OwnFacts(c, g, node, p);
    r, e := 0, ENOENT;
    var this_ := NameiMatch(filename, THIS);
    var parent := NameiMatch(filename, PARENT);
    ComponentOfName(THIS);
    ComponentOfName(PARENT);
    if this_ {
      return node, e;
    }
    if parent {
      if c.vnodes[node].cover != 0 {
        var newnode := c.vnodes[node].cover;
        Drop(c, g, node, p);
        r, e := GetDentry(c, g, w, root, newnode, filename, true);
        return;
      }
      var same := IsRoot(c, g, root, node, p);
      if same {
        return node, e;
      }
      OwnFacts(c, g, node, p);
    }
    r, e := Enter(c, g, w, node, p, filename);
  }

  /** Directory, permission, lookup. */
  method Enter(c: Cache, ghost g: Context, w: World, node: nat, ghost p: Place, filename: seq<Byte>) returns (r: nat, e: Errno)
    requires Own(c, g, node, p)
    modifies c
    ensures Result(c, g, r, e,
      if !w.isDir(p) then Fail(ENOTDIR) else if !w.mayEnter(p) then Fail(EACCES) else if !w.hasLookup(p.sb) then Fail(EGENERIC)
      else match w.lookup(p, Component(filename))
           case None => Fail(ENOENT)
           case Some(ino) => Found(Top(g.table, Place(p.sb, ino))))
  {
    hide Idle, Common, Own, Top, Component;
    OwnFacts(c, g, node, p);
    r := 0;
    var at := c.vnodes[node].at;
    if !w.isDir(at) {
      e := ENOTDIR;
      Drop(c, g, node, p);
    } else if !w.mayEnter(at) {
      e := EACCES;
      Drop(c, g, node, p);
    } else if !w.hasLookup(at.sb) {
      e := EGENERIC;
      Drop(c, g, node, p);
    } else {
      r, e := LookupEntry(c, g, w, node, p, filename);
    }
  }

  // ---- Whole paths --------------------------------------------------------

  /** As before, but that references may have leaked, which nobody will give back. */
  ghost predicate Extends(g: Context, g': Context)
  {
    && g'.table == g.table && g'.pins == g.pins && g'.root == g.root && RootAt(g') == RootAt(g)
    && g.others <= g'.others
    && forall v :: v in g.others && v in g.places ==> v in g'.places && g'.places[v] == g.places[v]
  }

  /** The caller's own reference is forgotten: it counts from now on, and is never given back. */
  lemma Leak(c: Cache, g0: Context, g: Context, v: nat, p: Place)
    requires Own(c, g, v, p) && Extends(g0, g)
    ensures Idle(c, Lent(g, v, p)) && Extends(g0, Lent(g, v, p)) && v in Lent(g, v, p).others
    ensures v in Lent(g, v, p).places && Lent(g, v, p).places[v] == p
  {
    hide Idle, Own, Common, RootAt;
    Lend(c, g, v, p);
  }

  method FindSlash(s: seq<Byte>) returns (k: nat)
    ensures k == |Component(s)|
  {
    k := 0;
    assert s[0..] == s;
    while k < |s| && s[k] != SLASH
      invariant 0 <= k <= |s| && |Component(s)| == k + |Component(s[k..])|
    {
      ComponentFrom(s, k);
      k := k + 1;
    }
    ComponentFrom(s, k);
  }

  /** One slash: the component in front of it, or "." when there is none. */
  method StepInto(c: Cache, ghost g: Context, w: World, root: nat, node: nat, filename: seq<Byte>, k: nat)
    returns (r: nat, e: Errno)
    requires Idle(c, g) && node in g.others && node in g.places && root == g.root
    modifies c
    ensures Result(c, g, r, e, Entry(w, g.table, RootAt(g), g.places[node], if k > 0 then filename else THIS))
  {
    hide Idle, Common, Own, EntryAt, Top;
    if k > 0 {
      r, e := GetDentry(c, g, w, root, node, filename, false);
    } else {
      r, e := GetDentry(c, g, w, root, node, THIS, false);
    }
  }

  /** The outcome of igetdir: the directory, with a reference of the caller's if any slash was passed. */
  ghost predicate DirResult(c: Cache, g: Context, r: nat, e: Errno, walk: Walk, own: bool)
    reads c
  {
    match walk
    case Fail(error) => r == 0 && e == error && Idle(c, g)
    case Found(p) =>
      r != 0 && if own then Own(c, g, r, p) else Idle(c, g) && r in g.others && r in g.places && g.places[r] == p
  }

  method IGetDir(c: Cache, ghost g: Context, w: World, root: nat, start: nat, filename: seq<Byte>)
    returns (r: nat, base: seq<Byte>, e: Errno, ghost g': Context)
    requires Idle(c, g) && start in g.others && start in g.places && start != 0 && root == g.root && filename != []
    modifies c
    ensures Extends(g, g')
    ensures var (d, name) := DirOf(w, g.table, RootAt(g), g.places[start], filename);
            DirResult(c, g', r, e, d, name != filename) && base == name
  {
    hide Idle, Common, Own, Entry, RootAt;
    ghost var t, rootAt := g.table, RootAt(g);
    ghost var p := g.places[start];
    var node, rest := start, filename;
    g', e, r := g, ENOENT, 0;
    var k := FindSlash(rest);
    while k < |rest|
      invariant k == |Component(rest)| <= |rest| <= |filename|
      invariant Extends(g, g') && node != 0 && DirOf(w, t, rootAt, p, rest) == DirOf(w, t, rootAt, g.places[start], filename)
      invariant rest == filename ==> node == start && p == g.places[start] && g' == g && Idle(c, g')
      invariant rest != filename ==> |rest| < |filename| && Own(c, g', node, p)
      decreases |rest|
    {
      if rest != filename {
        Leak(c, g, g', node, p);
        g' := Lent(g', node, p);
      }
      ghost var walk := Entry(w, t, rootAt, p, if k > 0 then rest else THIS);
      r, e := StepInto(c, g', w, root, node, rest, k);
      assert Result(c, g', r, e, walk);
      if r == 0 {
        base := [];
        return;
      }
      node, rest := r, rest[k + 1..];
      p := walk.place;
      k := FindSlash(rest);
    }
    r, base := node, rest;
    DirEndsAt(w, t, rootAt, p, rest);
  }

  lemma DirEndsAt(w: World, t: Table, root: Place, p: Place, s: seq<Byte>)
    requires |Component(s)| == |s|
    ensures DirOf(w, t, root, p, s) == (Found(p), s)
  {
  }

  /** A path without its leading slash, from the directory it starts in. */
  method NameBelow(c: Cache, ghost g: Context, w: World, root: nat, node: nat, filename: seq<Byte>)
    returns (r: nat, e: Errno, ghost g': Context)
    requires Idle(c, g) && root == g.root && node in g.others && node in g.places && node != 0
    modifies c
    ensures Extends(g, g') && Result(c, g', r, e, Below(w, g.table, RootAt(g), g.places[node], filename))
  {
    hide Idle, Own, Common, RootAt, Entry, DirOf, Top;
    g', r, e := g, 0, ENOENT;
    if filename == [] {
      Take(c, g, node);
      r := ResolveMount(c, g, node, g.places[node], MOUNT_MAX);
      OwnFacts(c, g, r, Top(g.table, g.places[node]));
      return;
    }
    var dir, base;
    dir, base, e, g' := IGetDir(c, g, w, root, node, filename);
    r := dir;
    ghost var (d, name) := DirOf(w, g.table, RootAt(g), g.places[node], filename);
    assert DirResult(c, g', dir, e, d, name != filename);
    if dir != 0 && base != [] {
      assert d.Found?;
      r, e, g' := LastStep(c, g, g', w, root, dir, base, DirOf(w, g.table, RootAt(g), g.places[node], filename).0.place, base != filename);
    }
  }

  /** The component behind the last slash; the reference to its directory leaks. */
  method LastStep(c: Cache, ghost g: Context, ghost g0: Context, w: World, root: nat, dir: nat, base: seq<Byte>, ghost p: Place, ghost own: bool)
    returns (r: nat, e: Errno, ghost g': Context)
    requires Extends(g, g0) && root == g.root && DirResult(c, g0, dir, ENOENT, Found(p), own) && base != []
    modifies c
    ensures Extends(g, g') && Result(c, g', r, e, Entry(w, g.table, RootAt(g), p, base))
  {
    hide Idle, Own, Common, RootAt, Entry;
    g' := g0;
    if own {
      Leak(c, g, g0, dir, p);
      g' := Lent(g0, dir, p);
    }
    r, e := StepInto(c, g', w, root, dir, base, |base|);
  }

  /** The vnode a path names, with a reference for the caller; nothing is mounted on it. */
  method NameI(c: Cache, ghost g: Context, w: World, root: nat, pwd: nat, path: seq<Byte>)
    returns (r: nat, e: Errno, ghost g': Context)
    requires Idle(c, g) && root == g.root && pwd in g.others && pwd in g.places && pwd != 0 && root != 0
    modifies c
    ensures Extends(g, g') && Result(c, g', r, e, PathOf(w, g.table, RootAt(g), g.places[pwd], path))
    ensures r != 0 ==> r in c.vnodes && c.vnodes[r].at !in g.table.mounts && c.vnodes[r].mount == 0
  {
    RootIsHeld(c, g);
    PlacesAreReal(c, g, root, pwd);
    PathIsFree(w, g.table, RootAt(g), g.places[pwd], path);
    hide Idle, Own, Common, RootAt, Below;
    g', r, e := g, 0, ENOENT;
    if path != [] {
      if path[0] == SLASH {
        r, e, g' := NameBelow(c, g, w, root, root, path[1..]);
      } else {
        r, e, g' := NameBelow(c, g, w, root, pwd, path);
      }
      if r != 0 {
        OwnFacts(c, g', r, PathOf(w, g.table, RootAt(g), g.places[pwd], path).place);
      }
    }
  }

  lemma PlacesAreReal(c: Cache, g: Context, root: nat, pwd: nat)
    requires Idle(c, g) && root in g.others && pwd in g.others
    ensures Good(g.table) && g.places[root].sb < g.table.n && g.places[pwd].sb < g.table.n
  {
    assert NodeOk(c.Abs(), root) && NodeOk(c.Abs(), pwd);
  }
}

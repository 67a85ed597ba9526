/**
  The system calls that hold vnodes: open, close, dup, dup2, chdir, mount, and what fork and exit do to files
  (src/fs/open.c, src/fs/fcntl.c, src/fs/mount.c, src/fs/vfs/vfs.c, src/kernel/task.c, src/kernel/exit.c).
 */
module Vfs {

  import opened Bytes
  import opened Limits
  import opened Options
  import opened VnodeState
  import opened VnodeCache
  import opened PathWalk
  import opened OpenFiles
  import opened Namei

  /** A task's two directories, 0 for none. */
  datatype Dirs = Dirs(root: nat, pwd: nat)

  datatype Outcome = Done(fd: nat) | Failed(error: Errno)

  // ---- Holders ------------------------------------------------------------

  function Roots(dirs: seq<Dirs>): (r: seq<nat>)
    ensures |r| == |dirs|
  {
    seq(|dirs|, t requires 0 <= t < |dirs| => dirs[t].root)
  }

  function Pwds(dirs: seq<Dirs>): (r: seq<nat>)
    ensures |r| == |dirs|
  {
    seq(|dirs|, t requires 0 <= t < |dirs| => dirs[t].pwd)
  }

  /** Both ends of mounts, FILEs behind descriptors, the tasks' directories, and the root of everything. */
  datatype Holding = Holding(pins: multiset<nat>, s: Files, dirs: seq<Dirs>, rootVnode: nat)

  /** How many rely on vnode v. */
  function Holders(h: Holding, v: nat): nat
  {
    h.pins[v] + Pointing(Nodes(h.s.files), v) + Pointing(Roots(h.dirs), v) + Pointing(Pwds(h.dirs), v)
    + if v == h.rootVnode then 1 else 0
  }

  ghost predicate Covered(refs: multiset<nat>, h: Holding)
  {
    forall v :: v != 0 ==> Holders(h, v) <= refs[v]
  }

  /** Descriptors and FILEs agree, and every holder has its reference. */
  ghost predicate HoldersOk(refs: multiset<nat>, h: Holding)
  {
    && Counted(h.s) && |h.dirs| == NR_TASKS && h.rootVnode != 0 && h.pins <= refs && Covered(refs, h)
    && (forall f :: 0 <= f < |h.s.files| && h.s.files[f].count > 0 ==> h.s.files[f].node != 0)
  }

  /** What every holder holds has a reference. */
  lemma HeldHasReference(refs: multiset<nat>, h: Holding, t: nat)
    requires HoldersOk(refs, h) && t < NR_TASKS
    ensures h.rootVnode in refs
    ensures h.dirs[t].root != 0 ==> h.dirs[t].root in refs
    ensures h.dirs[t].pwd != 0 ==> h.dirs[t].pwd in refs
  {
    var root, pwd := h.dirs[t].root, h.dirs[t].pwd;
    assert Roots(h.dirs)[t] == root && Pwds(h.dirs)[t] == pwd;
    assert root in multiset(Roots(h.dirs)) && pwd in multiset(Pwds(h.dirs));
    assert root != 0 ==> Holders(h, root) <= refs[root];
    assert pwd != 0 ==> Holders(h, pwd) <= refs[pwd];
    assert Holders(h, h.rootVnode) <= refs[h.rootVnode];
  }

  lemma MoreReferences(refs: multiset<nat>, refs': multiset<nat>, h: Holding)
    requires HoldersOk(refs, h) && refs <= refs'
    ensures HoldersOk(refs', h)
  {
  }

  lemma SetDirs(h: Holding, t: nat, d: Dirs, v: nat)
    requires t < |h.dirs|
    ensures Holders(h.(dirs := h.dirs[t := d]), v) ==
      Holders(h, v)
      - (if h.dirs[t].root == v then 1 else 0) - (if h.dirs[t].pwd == v then 1 else 0)
      + (if d.root == v then 1 else 0) + (if d.pwd == v then 1 else 0)
  {
    var dirs := h.dirs;
    assert Roots(dirs[t := d]) == Roots(dirs)[t := d.root];
    assert Pwds(dirs[t := d]) == Pwds(dirs)[t := d.pwd];
    SetSlot(Roots(dirs), t, d.root, v);
    SetSlot(Pwds(dirs), t, d.pwd, v);
  }

  /** New directories for a task: two references more, or one for each that stays. */
  lemma SetDirsOk(refs: multiset<nat>, refs': multiset<nat>, h: Holding, t: nat, d: Dirs)
    requires HoldersOk(refs, h) && t < NR_TASKS && refs <= refs'
    requires forall v :: v != 0 ==>
      refs[v] + (if d.root == v && d.root != h.dirs[t].root then 1 else 0) + (if d.pwd == v && d.pwd != h.dirs[t].pwd then 1 else 0) <= refs'[v]
    ensures HoldersOk(refs', h.(dirs := h.dirs[t := d]))
  {
    forall v: nat | v != 0
      ensures Holders(h.(dirs := h.dirs[t := d]), v) <= refs'[v]
    {
      SetDirs(h, t, d, v);
      assert Holders(h, v) <= refs[v];
    }
  }

  /** Opening takes the reference namei gave. */
  lemma OpenOk(refs: multiset<nat>, h: Holding, i: nat, f: File)
    requires HoldersOk(refs, h) && i < NR_SLOTS && h.s.slots[i] == 0 && f.node != 0
    ensures HoldersOk(refs + multiset{f.node}, h.(s := Open(h.s, i, f)))
  {
    var h' := h.(s := Open(h.s, i, f));
    OpenKeeps(h.s, i, f);
    forall v: nat | v != 0
      ensures Holders(h', v) <= (refs + multiset{f.node})[v]
    {
      OpenHoldsOne(h.s, i, f, v);
      assert Holders(h, v) <= refs[v];
    }
  }

  /** Closing gives back the reference of a FILE that nobody points to any more, and no other. */
  lemma CloseOk(refs: multiset<nat>, h: Holding, i: nat)
    requires HoldersOk(refs, h) && i < NR_SLOTS
    ensures var r := Freed(h.s, i);
            && HoldersOk(if r == 0 then refs else refs - multiset{r}, h.(s := Close(h.s, i)))
            && (r != 0 ==> r in refs && h.pins <= refs - multiset{r})
  {
    var r, h' := Freed(h.s, i), h.(s := Close(h.s, i));
    CloseKeeps(h.s, i);
    if r != 0 {
      CloseFreesOne(h.s, i, r);
      assert Holders(h', r) + 1 == Holders(h, r) <= refs[r];
    }
    forall v: nat | v != 0
      ensures Holders(h', v) <= (if r == 0 then refs else refs - multiset{r})[v]
    {
      CloseFreesOne(h.s, i, v);
      assert Holders(h, v) <= refs[v];
    }
  }

  lemma ShareOk(refs: multiset<nat>, h: Holding, i: nat, j: nat)
    requires HoldersOk(refs, h) && i < NR_SLOTS && j < NR_SLOTS && h.s.slots[j] == 0
    ensures HoldersOk(refs, h.(s := Share(h.s, i, j)))
  {
    var h' := h.(s := Share(h.s, i, j));
    ShareKeeps(h.s, i, j);
    ShareHoldsNone(h.s, i, j);
    forall v: nat | v != 0
      ensures Holders(h', v) <= refs[v]
    {
      assert Holders(h', v) == Holders(h, v) <= refs[v];
    }
  }

  /** Mounting pins the mountpoint and the new root with the references the caller brings. */
  lemma MountOk(refs: multiset<nat>, h: Holding, v: nat, r: nat)
    requires HoldersOk(refs, h)
    ensures HoldersOk(refs + multiset{v, r}, h.(pins := h.pins + multiset{v, r}))
  {
    forall w: nat | w != 0
      ensures Holders(h.(pins := h.pins + multiset{v, r}), w) <= (refs + multiset{v, r})[w]
    {
      assert Holders(h, w) <= refs[w];
    }
  }

  lemma BootOk(refs: multiset<nat>, h: Holding)
    requires h.pins == multiset{} && |h.s.slots| == NR_SLOTS && (forall i :: 0 <= i < NR_SLOTS ==> h.s.slots[i] == 0)
    requires |h.s.files| == 1 && h.s.files[0].count == 0 && |h.dirs| == NR_TASKS && h.rootVnode != 0
    requires h.dirs[0] == Dirs(h.rootVnode, h.rootVnode) && forall t :: 0 < t < NR_TASKS ==> h.dirs[t] == Dirs(0, 0)
    requires refs[h.rootVnode] >= 3
    ensures HoldersOk(refs, h)
  {
    var none := h.dirs[0 := Dirs(0, 0)];
    forall v: nat | v != 0
      ensures Holders(h, v) <= refs[v]
    {
      SetDirs(h.(dirs := none), 0, h.dirs[0], v);
      assert none[0 := h.dirs[0]] == h.dirs;
      NotYet(Nodes(h.s.files), v);
      NotYet(Roots(none), v);
      NotYet(Pwds(none), v);
    }
  }

  // ---- Contexts for namei -------------------------------------------------

  ghost function ContextOf(c: Cache, root: nat): Context
    reads c
  {
    Context(TableOf(c), root, c.pins, c.refs, map v | v in c.vnodes :: c.vnodes[v].at)
  }

  lemma ContextIsIdle(c: Cache, root: nat)
    requires c.Valid() && root in c.refs
    ensures Idle(c, ContextOf(c, root)) && root in c.vnodes && RootAt(ContextOf(c, root)) == c.vnodes[root].at
    ensures forall v :: v in c.refs ==> v in c.vnodes && ContextOf(c, root).places[v] == c.vnodes[v].at
  {
  }

  lemma OthersStayed(c: Cache, g: Context, g': Context, r: nat)
    requires Extends(g, g') && Common(c, g') && forall v :: v in g.others ==> v in g.places
    ensures forall v :: v in g.others ==> v in c.vnodes && c.vnodes[v].at == g.places[v]
  {
    forall v | v in g.others
      ensures v in c.vnodes && c.vnodes[v].at == g.places[v]
    {
      assert v in g'.others;
    }
  }

  class System {
    const cache: Cache
    const slots: array<nat>
    const tasks: array<Dirs>
    var files: seq<File>
    var rootVnode: nat
    /** The superblocks that were mounted, the latest first. */
    var vfsMounts: seq<nat>

    ghost function Abs(): Files
      reads this, slots
    {
      Files(slots[..], files)
    }

    ghost function Now(): Holding
      reads this, cache, slots, tasks
    {
      Holding(cache.pins, Abs(), tasks[..], rootVnode)
    }

    ghost predicate Shape()
    {
      slots.Length == NR_SLOTS && tasks.Length == NR_TASKS
    }

    ghost predicate Valid()
      reads this, cache, slots, tasks
    {
      cache.Valid() && Shape() && HoldersOk(cache.refs, Now())
    }

    /** setup_vfs: an empty root file system, which task 0 stands in. */
    constructor ()
      ensures Valid() && fresh(cache) && fresh(slots) && fresh(tasks)
      ensures tasks[0] == Dirs(rootVnode, rootVnode) && forall t :: 0 < t < NR_TASKS ==> tasks[t] == Dirs(0, 0)
      ensures rootVnode in cache.vnodes && cache.vnodes[rootVnode] == Vnode(Place(0, 0), 3, 0, 0)
      ensures cache.mounts == map[] && cache.nextSb == 1 && forall i :: 0 <= i < NR_SLOTS ==> slots[i] == 0
    {
      hide Safe, AllLists, HoldersOk;
      cache := new Cache();
      slots := new nat[NR_SLOTS](_ => 0);
      tasks := new Dirs[NR_TASKS](_ => Dirs(0, 0));
      files := [File(0, false, false, 0, 0)];
      rootVnode, vfsMounts := 0, [0];
      new;
      rootVnode := BootRoot(cache);
      tasks[0] := Dirs(rootVnode, rootVnode);
      BootOk(cache.refs, Now());
    }

    /** Nothing held is ever freed: its vnode is in the cache, and counts at least its holders. */
    lemma HeldIsAlive(v: nat)
      requires Valid() && v != 0 && 0 < Holders(Now(), v)
      ensures v in cache.vnodes && Holders(Now(), v) <= cache.vnodes[v].count
    {
      assert Holders(Now(), v) <= cache.refs[v];
      SafeNode(cache.Abs(), cache.pins, cache.refs, v);
    }

    /** Where a relative path starts. */
    ghost function Start(t: nat): nat
      reads this, tasks
      requires t < tasks.Length
    {
      if tasks[t].pwd == 0 then rootVnode else tasks[t].pwd
    }

    /** What path means to task t. */
    ghost function Meaning(t: nat, w: World, path: seq<Byte>): Walk
      reads this, cache, tasks
      requires t < tasks.Length && tasks[t].root in cache.vnodes && Start(t) in cache.vnodes
    {
      PathOf(w, TableOf(cache), cache.vnodes[tasks[t].root].at, cache.vnodes[Start(t)].at, path)
    }

    lemma TaskCanWalk(t: nat)
      requires Valid() && t < NR_TASKS && tasks[t].root != 0
      ensures tasks[t].root in cache.refs && tasks[t].root in cache.vnodes
      ensures Start(t) in cache.refs && Start(t) in cache.vnodes && Start(t) != 0
    {
      HeldHasReference(cache.refs, Now(), t);
      SafeNode(cache.Abs(), cache.pins, cache.refs, tasks[t].root);
      SafeNode(cache.Abs(), cache.pins, cache.refs, Start(t));
    }

    /** namei from a task's directories; base is what everybody holds, and what leaked, without the new reference. */
    method Lookup(t: nat, w: World, path: seq<Byte>) returns (r: nat, e: Errno, ghost base: multiset<nat>)
      requires Valid() && t < NR_TASKS && tasks[t].root != 0
      modifies cache
      ensures cache.Valid() && cache.pins == old(cache.pins) && TableOf(cache) == old(TableOf(cache))
      ensures HoldersOk(base, Now()) && old(cache.refs) <= base
      ensures forall v :: v in old(cache.refs) ==> v in old(cache.vnodes) && v in cache.vnodes && cache.vnodes[v].at == old(cache.vnodes[v].at)
      ensures old(tasks[t].root) in old(cache.vnodes) && old(Start(t)) in old(cache.vnodes)
      ensures match old(Meaning(t, w, path))
              case Fail(error) => r == 0 && e == error && cache.refs == base
              case Found(p) =>
                && r != 0 && r in cache.vnodes && cache.vnodes[r].at == p && cache.vnodes[r].mount == 0 && p !in cache.mounts
                && cache.refs == base + multiset{r}
    {
      hide Safe, AllLists, HoldersOk, PathOf;
      TaskCanWalk(t);
      var root, pwd := tasks[t].root, tasks[t].pwd;
      if pwd == 0 {
        pwd := rootVnode;
      }
      ContextIsIdle(cache, root);
      ghost var g, was := ContextOf(cache, root), cache.refs;
      ghost var g';
      r, e, g' := NameI(cache, g, w, root, pwd, path);
      base := g'.others;
      OthersStayed(cache, g, g', r);
      MoreReferences(was, base, Now());
    }

    // ---- Descriptors ------------------------------------------------------

    /** The first free descriptor of a task, NR_OPEN when there is none. */
    method FreeDescriptor(t: nat) returns (fd: nat)
      requires Shape() && t < NR_TASKS
      ensures fd <= NR_OPEN && (forall k :: 0 <= k < fd ==> slots[Slot(t, k)] != 0) && (fd < NR_OPEN ==> slots[Slot(t, fd)] == 0)
    {
      fd := 0;
      while fd < NR_OPEN
        invariant fd <= NR_OPEN && forall k :: 0 <= k < fd ==> slots[Slot(t, k)] != 0
      {
        if slots[Slot(t, fd)] == 0 {
          break;
        }
        fd := fd + 1;
      }
    }

    /** The part of sys_close behind its checks: the last descriptor of a FILE releases it, and its vnode. */
    method CloseAt(i: nat)
      requires Valid() && i < NR_SLOTS
      modifies slots, this`files, cache
      ensures Valid() && Abs() == Close(old(Abs()), i) && slots[i] == 0
      ensures TableOf(cache) == old(TableOf(cache)) && cache.pins == old(cache.pins)
      ensures cache.refs == if old(Freed(Abs(), i)) == 0 then old(cache.refs) else old(cache.refs) - multiset{old(Freed(Abs(), i))}
    {
      hide Safe, AllLists, HoldersOk, Counted;
      ghost var was, h := Abs(), Now();
      CloseOk(cache.refs, h, i);
      if slots[i] != 0 {
        CountsAreReal(cache.refs, h, i);
        var f := slots[i];
        slots[i] := 0;
        files := files[f := files[f].(count := files[f].count - 1)];
        assert slots[..] == was.slots[i := 0];
        assert Abs() == Close(was, i);
        if files[f].count == 0 {
          cache.IPut(files[f].node);
        }
      }
    }

    method SysClose(t: nat, fd: int) returns (r: Outcome)
      requires Valid() && t < NR_TASKS
      modifies slots, this`files, cache
      ensures Valid() && TableOf(cache) == old(TableOf(cache)) && cache.pins == old(cache.pins)
      ensures if 0 <= fd < NR_OPEN && old(slots[Slot(t, fd)]) != 0
              then r == Done(0) && Abs() == Close(old(Abs()), Slot(t, fd))
              else r == Failed(EBADF) && Abs() == old(Abs()) && cache.refs == old(cache.refs)
      ensures 0 <= fd < NR_OPEN ==> slots[Slot(t, fd)] == 0
    {
      hide Safe, AllLists, HoldersOk, Counted;
      if fd < 0 || fd >= NR_OPEN || slots[Slot(t, fd)] == 0 {
        return Failed(EBADF);
      }
      CloseAt(Slot(t, fd));
      r := Done(0);
    }

    lemma MeaningErrors(t: nat, w: World, path: seq<Byte>)
      requires t < tasks.Length && tasks[t].root in cache.vnodes && Start(t) in cache.vnodes
      ensures Meaning(t, w, path).Fail? ==> IsWalkError(Meaning(t, w, path).error)
    {
      PathErrors(w, TableOf(cache), cache.vnodes[tasks[t].root].at, cache.vnodes[Start(t)].at, path);
    }

    /** A new FILE at the first free descriptor, for what the path names. size tells where appending starts. */
    method SysOpen(t: nat, w: World, size: Place -> nat, path: seq<Byte>, wronly: bool, rdwr: bool, append: bool) returns (r: Outcome)
      requires Valid() && t < NR_TASKS && tasks[t].root != 0
      modifies slots, this`files, cache
      ensures Valid() && TableOf(cache) == old(TableOf(cache)) && cache.pins == old(cache.pins)
      ensures r.Failed? ==> Abs() == old(Abs())
      ensures old(tasks[t].root) in old(cache.vnodes) && old(Start(t)) in old(cache.vnodes)
      ensures r == Failed(EMFILE) <==> forall k :: 0 <= k < NR_OPEN ==> old(slots[Slot(t, k)]) != 0
      ensures r != Failed(EMFILE) ==> match old(Meaning(t, w, path)) case Fail(e) => r == Failed(e) case Found(_) => r.Done?
      ensures r.Done? ==>
                && r.fd < NR_OPEN && (forall k :: 0 <= k < r.fd ==> old(slots[Slot(t, k)]) != 0) && old(slots[Slot(t, r.fd)]) == 0
                && var p := old(Meaning(t, w, path)).place;
                   var f := files[|files| - 1];
                   && f.node in cache.vnodes && cache.vnodes[f.node].at == p && cache.vnodes[f.node].mount == 0
                   && f == File(f.node, (!wronly && !rdwr) || rdwr, wronly || rdwr, if append then size(p) else 0, 1)
                   && Abs() == Open(old(Abs()), Slot(t, r.fd), f)
    {
      hide Safe, AllLists, HoldersOk, PathOf;
      SlotsAreShaped();
      TaskCanWalk(t);
      MeaningErrors(t, w, path);
      var fd := FreeDescriptor(t);
      if fd >= NR_OPEN {
        return Failed(EMFILE);
      }
      ghost var was := Abs();
      var node, e;
      ghost var base;
      node, e, base := Lookup(t, w, path);
      if node == 0 {
        return Failed(e);
      }
      var f := File(node, (!wronly && !rdwr) || rdwr, wronly || rdwr, if append then size(cache.vnodes[node].at) else 0, 1);
      OpenOk(base, Now(), Slot(t, fd), f);
      slots[Slot(t, fd)] := |files|;
      files := files + [f];
      assert slots[..] == was.slots[Slot(t, fd) := |was.files|];
      assert Abs() == Open(was, Slot(t, fd), f);
      r := Done(fd);
    }

    lemma SlotsAreShaped()
      requires Valid()
      ensures Shape()
    {
    }

    /** Descriptor j, which is free, shares i's FILE. */
    method ShareAt(i: nat, j: nat)
      requires Valid() && i < NR_SLOTS && j < NR_SLOTS && slots[j] == 0
      modifies slots, this`files
      ensures Valid() && Abs() == Share(old(Abs()), i, j) && slots[..] == old(slots[..])[j := old(slots[i])]
    {
      hide Safe, AllLists, HoldersOk, Counted;
      ghost var was := Abs();
      ShareOk(cache.refs, Now(), i, j);
      if slots[i] != 0 {
        CountsAreReal(cache.refs, Now(), i);
        var f := slots[i];
        slots[j] := f;
        files := files[f := files[f].(count := files[f].count + 1)];
        assert slots[..] == was.slots[j := f];
      } else {
        assert was.slots[j := 0] == was.slots;
      }
    }

    /** Two different descriptors: the second is closed, and then points where the first does. */
    method SysDup2(t: nat, fd: int, fd2: int) returns (r: Outcome)
      requires Valid() && t < NR_TASKS && fd != fd2
      modifies slots, this`files, cache
      ensures Valid() && TableOf(cache) == old(TableOf(cache)) && cache.pins == old(cache.pins)
      ensures if 0 <= fd < NR_OPEN && 0 <= fd2 < NR_OPEN && old(slots[Slot(t, fd)]) != 0
              then r == Done(fd2) && Abs() == Dup2(old(Abs()), Slot(t, fd), Slot(t, fd2))
              else r == Failed(EBADF) && Abs() == old(Abs())
    {
      hide Safe, AllLists, HoldersOk, Counted;
      if fd < 0 || fd >= NR_OPEN || fd2 < 0 || fd2 >= NR_OPEN || slots[Slot(t, fd)] == 0 {
        return Failed(EBADF);
      }
      var _ := SysClose(t, fd2);
      ShareAt(Slot(t, fd), Slot(t, fd2));
      r := Done(fd2);
    }

    method SysDup(t: nat, fd: int) returns (r: Outcome)
      requires Valid() && t < NR_TASKS
      modifies slots, this`files, cache
      ensures Valid() && TableOf(cache) == old(TableOf(cache)) && cache.pins == old(cache.pins)
      ensures r.Failed? ==> Abs() == old(Abs())
      ensures r == Failed(EMFILE) <==> forall k :: 0 <= k < NR_OPEN ==> old(slots[Slot(t, k)]) != 0
      ensures r != Failed(EMFILE) ==> if 0 <= fd < NR_OPEN && old(slots[Slot(t, fd)]) != 0 then r.Done? else r == Failed(EBADF)
      ensures r.Done? ==>
                && r.fd < NR_OPEN && old(slots[Slot(t, r.fd)]) == 0
                && (forall k :: 0 <= k < r.fd ==> old(slots[Slot(t, k)]) != 0)
                && Abs() == Share(old(Abs()), Slot(t, fd), Slot(t, r.fd))
    {
      hide Safe, AllLists, HoldersOk, Counted;
      var fd2 := FreeDescriptor(t);
      if fd2 >= NR_OPEN {
        return Failed(EMFILE);
      }
      if fd == fd2 {
        return Failed(EBADF);
      }
      r := SysDup2(t, fd, fd2);
    }

    // ---- Tasks ------------------------------------------------------------

    /** The child gets its parent's directories, and shares every FILE. */
    method Fork(parent: nat, child: nat)
      requires Valid() && parent < NR_TASKS && child < NR_TASKS && parent != child
      requires forall k :: 0 <= k < NR_OPEN ==> slots[Slot(child, k)] == 0
      modifies slots, tasks, this`files, cache
      ensures Valid() && Abs() == Inherit(old(Abs()), parent, child, 0)
      ensures tasks[..] == old(tasks[..])[child := old(tasks[parent])]
      ensures TableOf(cache) == old(TableOf(cache)) && cache.pins == old(cache.pins)
    {
      hide Safe, AllLists, HoldersOk, Counted, Inherit, Share;
      SlotsAreShaped();
      ghost var was := Abs();
      ForkDirs(parent, child);
      assert Abs() == was;
      HoldersAreCounted(cache.refs, Now());
      InheritSteps(was, parent, child, NR_OPEN);
      var i: nat := NR_OPEN;
      while i > 0
        invariant 0 <= i <= NR_OPEN && Valid() && Abs() == Inherit(was, parent, child, i)
        invariant forall k :: 0 <= k < i ==> slots[Slot(child, k)] == 0
        invariant tasks[..] == old(tasks[..])[child := old(tasks[parent])]
        invariant TableOf(cache) == old(TableOf(cache)) && cache.pins == old(cache.pins)
      {
        i := i - 1;
        InheritSteps(was, parent, child, i);
        ghost var s := slots[..];
        ShareAt(Slot(parent, i), Slot(child, i));
        OnlyOneSlot(s, slots[..], Slot(child, i), child, i);
      }
    }

    /** The child's directories; both are referenced once more. */
    method ForkDirs(parent: nat, child: nat)
      requires Valid() && parent < NR_TASKS && child < NR_TASKS
      modifies tasks, cache
      ensures Valid() && tasks[..] == old(tasks[..])[child := old(tasks[parent])]
      ensures TableOf(cache) == old(TableOf(cache)) && cache.pins == old(cache.pins)
    {
      hide Safe, AllLists, HoldersOk;
      ghost var h, was := Now(), cache.refs;
      HeldHasReference(cache.refs, h, parent);
      var d := tasks[parent];
      if d.pwd != 0 {
        SafeNode(cache.Abs(), cache.pins, cache.refs, d.pwd);
        cache.Ref(d.pwd);
      }
      if d.root != 0 {
        SafeNode(cache.Abs(), cache.pins, cache.refs, d.root);
        cache.Ref(d.root);
      }
      SetDirsOk(was, cache.refs, h, child, d);
      tasks[child] := d;
      assert tasks[..] == h.dirs[child := d];
    }

    /** What sys_exit does to files: every descriptor is closed, from the last one down. */
    method Exit(t: nat)
      requires Valid() && t < NR_TASKS
      modifies slots, this`files, cache
      ensures Valid() && Abs() == CloseAll(old(Abs()), t, NR_OPEN)
      ensures TableOf(cache) == old(TableOf(cache)) && cache.pins == old(cache.pins)
    {
      hide Safe, AllLists, HoldersOk, Counted, CloseAll, Close;
      SlotsAreShaped();
      var i: nat := NR_OPEN;
      while i > 0
        invariant 0 <= i <= NR_OPEN && Valid() && CloseAll(Abs(), t, i) == CloseAll(old(Abs()), t, NR_OPEN)
        invariant TableOf(cache) == old(TableOf(cache)) && cache.pins == old(cache.pins)
      {
        CloseAllSteps(Abs(), t, i);
        i := i - 1;
        CloseAt(Slot(t, i));
      }
      CloseAllSteps(Abs(), t, 0);
    }

    /** The working directory changes to what the path names, if that is a directory. */
    method SysChdir(t: nat, w: World, path: seq<Byte>) returns (r: Outcome)
      requires Valid() && t < NR_TASKS && tasks[t].root != 0
      modifies tasks, cache
      ensures Valid() && TableOf(cache) == old(TableOf(cache)) && cache.pins == old(cache.pins)
      ensures old(tasks[t].root) in old(cache.vnodes) && old(Start(t)) in old(cache.vnodes)
      ensures match old(Meaning(t, w, path))
              case Fail(e) => r == Failed(e) && tasks[..] == old(tasks[..])
              case Found(p) =>
                if w.isDir(p) then
                  && r == Done(0) && tasks[..] == old(tasks[..])[t := Dirs(old(tasks[t].root), tasks[t].pwd)]
                  && tasks[t].pwd in cache.vnodes && cache.vnodes[tasks[t].pwd].at == p && cache.vnodes[tasks[t].pwd].mount == 0
                else r == Failed(ENOTDIR) && tasks[..] == old(tasks[..])
    {
      hide Safe, AllLists, HoldersOk, PathOf;
      var node, e;
      ghost var base;
      node, e, base := Lookup(t, w, path);
      if node == 0 {
        return Failed(e);
      }
      if !w.isDir(cache.vnodes[node].at) {
        MoreReferences(base, cache.refs, Now());
        return Failed(ENOTDIR);
      }
      ghost var h := Now();
      SetDirsOk(base, cache.refs, h, t, Dirs(tasks[t].root, node));
      tasks[t] := Dirs(tasks[t].root, node);
      assert tasks[..] == h.dirs[t := Dirs(h.dirs[t].root, node)];
      r := Done(0);
    }

    /**
      A new file system, whose root is inode rootIno, on what target names; source names its device, if it has one.
      Mounts are only ever added: the two maps stay inverse, and each mount leads to a later file system.
     */
    method SysMount(t: nat, w: World, target: seq<Byte>, source: Option<seq<Byte>>, rootIno: nat) returns (r: Outcome)
      requires Valid() && t < NR_TASKS && tasks[t].root != 0
      modifies this`vfsMounts, cache
      ensures Valid() && Abs() == old(Abs()) && tasks[..] == old(tasks[..])
      ensures old(tasks[t].root) in old(cache.vnodes) && old(Start(t)) in old(cache.vnodes)
      ensures r.Failed? ==> TableOf(cache) == old(TableOf(cache)) && vfsMounts == old(vfsMounts)
      ensures match old(Meaning(t, w, target))
              case Fail(e) => r == Failed(e)
              case Found(_) =>
                if source.Some? && old(Meaning(t, w, source.value)).Fail? then r == Failed(old(Meaning(t, w, source.value)).error)
                else r.Done?
      ensures r.Done? ==>
                var p, q := old(Meaning(t, w, target)).place, Place(old(cache.nextSb), rootIno);
                && p !in old(cache.mounts) && q !in old(cache.covers)
                && cache.mounts == old(cache.mounts)[p := q] && cache.covers == old(cache.covers)[q := p]
                && cache.nextSb == old(cache.nextSb) + 1 && vfsMounts == [q.sb] + old(vfsMounts)
    {
      hide Safe, AllLists, HoldersOk, PathOf;
      TaskCanWalk(t);
      var mountpoint, e;
      ghost var base;
      mountpoint, e, base := Lookup(t, w, target);
      if mountpoint == 0 {
        return Failed(e);
      }
      ghost var p := cache.vnodes[mountpoint].at;
      ghost var keep := base;
      if source.Some? {
        var ok;
        ok, e, keep := OpenDevice(t, w, source.value, mountpoint, base);
        if !ok {
          return Failed(e);
        }
      }
      NewPlace(cache.Abs(), cache.pins, cache.refs, Place(cache.nextSb, rootIno));
      FinishMount(mountpoint, p, rootIno, keep);
      r := Done(0);
    }

    /** The device keeps its reference; without one the mountpoint is given back. */
    method OpenDevice(t: nat, w: World, source: seq<Byte>, mountpoint: nat, ghost base: multiset<nat>)
      returns (ok: bool, e: Errno, ghost keep: multiset<nat>)
      requires cache.Valid() && Shape() && HoldersOk(base, Now()) && cache.refs == base + multiset{mountpoint}
      requires t < NR_TASKS && tasks[t].root != 0 && mountpoint != 0
      modifies cache
      ensures cache.Valid() && cache.pins == old(cache.pins) && TableOf(cache) == old(TableOf(cache))
      ensures HoldersOk(keep, Now()) && cache.refs == if ok then keep + multiset{mountpoint} else keep
      ensures old(tasks[t].root) in old(cache.vnodes) && old(Start(t)) in old(cache.vnodes)
      ensures match old(Meaning(t, w, source)) case Fail(error) => !ok && e == error case Found(_) => ok
      ensures ok ==> mountpoint in old(cache.vnodes) && Stands(cache, mountpoint, old(cache.vnodes[mountpoint].at))
    {
      hide Safe, AllLists, HoldersOk, PathOf, VnodeState.Put, Meaning;
      ghost var h, was := Now(), cache.refs;
      MoreReferences(base, was, h);
      var dev;
      ghost var base2;
      dev, e, base2 := Lookup(t, w, source);
      ok := dev != 0;
      keep := cache.refs - multiset{mountpoint};
      KeepRest(base, was, base2, cache.refs, mountpoint, dev);
      MoreReferences(base, keep, h);
      PinsFit(keep, h, keep);
      if !ok {
        PutKeepsMounts(cache.Abs(), mountpoint);
        cache.IPut(mountpoint);
      }
    }

    /** The new superblock reads its root, and both vnodes learn of each other. */
    method FinishMount(mountpoint: nat, ghost p: Place, rootIno: nat, ghost keep: multiset<nat>)
      requires cache.Valid() && Shape() && HoldersOk(keep, Now()) && cache.refs == keep + multiset{mountpoint}
      requires Stands(cache, mountpoint, p) && p !in cache.mounts
      requires Place(cache.nextSb, rootIno) !in cache.covers && Place(cache.nextSb, rootIno) !in cache.cached
      modifies this`vfsMounts, cache
      ensures Valid()
      ensures var q := Place(old(cache.nextSb), rootIno);
              && cache.mounts == old(cache.mounts)[p := q] && cache.covers == old(cache.covers)[q := p]
              && cache.nextSb == old(cache.nextSb) + 1 && vfsMounts == [q.sb] + old(vfsMounts)
    {
      hide Safe, AllLists, HoldersOk;
      ghost var h := Now();
      PinsFit(keep, h, keep);
      SafeNode(cache.Abs(), cache.pins, cache.refs, mountpoint);
      var sb := cache.CreateSuper();
      SafeNode(cache.Abs(), cache.pins, cache.refs, mountpoint);
      var root := cache.IGet(sb, rootIno);
      assert cache.refs == keep + multiset{mountpoint, root};
      vfsMounts := [sb] + vfsMounts;
      cache.Mount(mountpoint, root);
      MountOk(keep, h, mountpoint, root);
    }
  }

  lemma KeepRest(base: multiset<nat>, was: multiset<nat>, base2: multiset<nat>, refs: multiset<nat>, v: nat, r: nat)
    requires was == base + multiset{v} && was <= base2 && (refs == base2 || refs == base2 + multiset{r})
    ensures v in was && v in refs && base <= refs - multiset{v} && refs == refs - multiset{v} + multiset{v}
  {
  }

  lemma PinsFit(base: multiset<nat>, h: Holding, refs: multiset<nat>)
    requires HoldersOk(base, h) && base <= refs
    ensures h.pins <= refs
  {
  }

  lemma HoldersAreCounted(refs: multiset<nat>, h: Holding)
    requires HoldersOk(refs, h)
    ensures Counted(h.s)
  {
  }

  lemma OnlyOneSlot(s: seq<nat>, s': seq<nat>, i: nat, task: nat, n: nat)
    requires |s| == |s'| == NR_SLOTS && task < NR_TASKS && n < NR_OPEN && i == Slot(task, n)
    requires s' == s[i := s'[i]]
    requires forall k :: 0 <= k <= n ==> s[Slot(task, k)] == 0
    ensures forall k :: 0 <= k < n ==> s'[Slot(task, k)] == 0
  {
  }

  lemma CountsAreReal(refs: multiset<nat>, h: Holding, i: nat)
    requires HoldersOk(refs, h) && i < NR_SLOTS && h.s.slots[i] != 0
    ensures h.s.slots[i] < |h.s.files| && 0 < h.s.files[h.s.slots[i]].count && h.s.files[h.s.slots[i]].node != 0
  {
    OpenMeansAlive(h.s, i);
  }

  /** The root file system's only vnode: its superblock, task 0's root and its working directory hold it. */
  method BootRoot(c: Cache) returns (root: nat)
    requires c.Valid() && c.refs == multiset{} && c.pins == multiset{} && c.nextSb == 0 && c.vnodes == map[]
    requires c.mounts == map[] && c.covers == map[]
    modifies c
    ensures c.Valid() && c.pins == multiset{} && c.mounts == map[] && c.nextSb == 1 && root != 0 && c.refs[root] == 3
    ensures root in c.vnodes && c.vnodes[root] == Vnode(Place(0, 0), 3, 0, 0)
  {
    hide Safe, AllLists;
    var sb := c.CreateSuper();
    SafePlace(c.Abs(), c.pins, c.refs, Place(sb, 0));
    root := c.IGet(sb, 0);
    SafeNode(c.Abs(), c.pins, c.refs, root);
    c.Ref(root);
    c.Ref(root);
  }
}

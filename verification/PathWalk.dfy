/**
  Path resolution on bare inode numbers (src/fs/namei.c): which inode a path names, given the mounts. The file
  systems themselves answer through World; what they are made of does not matter here.
 */
module PathWalk {

  import opened Bytes
  import opened Limits
  import opened Options
  import opened Names
  import opened VnodeState

  datatype Walk = Found(place: Place) | Fail(error: Errno)
  /** What a file system says about an inode: may it be entered by the current task, and what it holds. */
  datatype World = World(
    isDir: Place -> bool, mayEnter: Place -> bool, hasLookup: nat -> bool, lookup: (Place, seq<Byte>) -> Option<nat>)

  /** The mounts, and how many file systems there are. */
  datatype Table = Table(mounts: Mounts, covers: Mounts, n: nat)

  const THIS: seq<Byte> := [DOT]
  const PARENT: seq<Byte> := [DOT, DOT]

  /** What is mounted on p, on top of everything. */
  function Top(t: Table, p: Place): (r: Place)
    ensures p.sb < t.n ==> p.sb <= r.sb < t.n
    decreases if p.sb < t.n then t.n - p.sb else 0
  {
    if p in t.mounts && p.sb < t.mounts[p].sb < t.n then Top(t, t.mounts[p]) else p
  }

  /** One component of a path below a place nothing is mounted on; ".." climbs through mounts first. */
  function EntryAt(w: World, t: Table, root: Place, p: Place, name: seq<Byte>): Walk
    decreases p.sb
  {
    var c := Component(name);
    if c == THIS then Found(p)
    else if c == PARENT && p in t.covers && t.covers[p].sb < p.sb then EntryAt(w, t, root, t.covers[p], name)
    else if c == PARENT && p == Top(t, root) then Found(p)
    else if !w.isDir(p) then Fail(ENOTDIR)
    else if !w.mayEnter(p) then Fail(EACCES)
    else if !w.hasLookup(p.sb) then Fail(EGENERIC)
    else match w.lookup(p, c)
      case None => Fail(ENOENT)
      case Some(ino) => Found(Top(t, Place(p.sb, ino)))
  }

  function Entry(w: World, t: Table, root: Place, p: Place, name: seq<Byte>): Walk
  {
    EntryAt(w, t, root, Top(t, p), name)
  }

  /** The directory a path leads to, and the name that is left behind its last slash. */
  function DirOf(w: World, t: Table, root: Place, p: Place, s: seq<Byte>): (Walk, seq<Byte>)
    decreases |s|
  {
    var k := |Component(s)|;
    if k == |s| then (Found(p), s)
    else match Entry(w, t, root, p, if k > 0 then s else THIS)
      case Fail(e) => (Fail(e), [])
      case Found(q) => DirOf(w, t, root, q, s[k + 1..])
  }

  /** From the directory start on; an empty rest means start itself. */
  function Below(w: World, t: Table, root: Place, start: Place, s: seq<Byte>): Walk
  {
    if s == [] then Found(Top(t, start))
    else
      var (d, base) := DirOf(w, t, root, start, s);
      if d.Fail? || base == [] then d else Entry(w, t, root, d.place, base)
  }

  function PathOf(w: World, t: Table, root: Place, pwd: Place, path: seq<Byte>): Walk
  {
    if path == [] then Fail(ENOENT)
    else if path[0] == SLASH then Below(w, t, root, root, path[1..])
    else Below(w, t, root, pwd, path)
  }

  // ---- Nothing is mounted on what a path names ----------------------------

  ghost predicate Good(t: Table)
  {
    Rising(t.mounts, t.covers, t.n)
  }

  lemma {:induction false} TopIsFree(t: Table, p: Place)
    requires Good(t)
    ensures Top(t, p) !in t.mounts
    decreases if p.sb < t.n then t.n - p.sb else 0
  {
    if p in t.mounts {
      TopIsFree(t, t.mounts[p]);
    }
  }

  /** Climbing from one mount may stop on a mountpoint only to be looked up in. */
  lemma {:induction false} EntryIsFree(w: World, t: Table, root: Place, p: Place, name: seq<Byte>)
    requires Good(t) && p.sb < t.n && (p !in t.mounts || Component(name) == PARENT)
    ensures var r := EntryAt(w, t, root, p, name); r.Found? ==> r.place !in t.mounts && r.place.sb < t.n
    decreases p.sb
  {
    var c := Component(name);
    TopIsFree(t, root);
    if c == PARENT && p in t.covers && t.covers[p].sb < p.sb {
      EntryIsFree(w, t, root, t.covers[p], name);
    } else if w.lookup(p, c).Some? {
      TopIsFree(t, Place(p.sb, w.lookup(p, c).value));
    }
  }

  lemma {:induction false} DirIsFree(w: World, t: Table, root: Place, p: Place, s: seq<Byte>)
    requires Good(t) && p.sb < t.n
    ensures var (d, base) := DirOf(w, t, root, p, s);
            d.Found? ==> d.place.sb < t.n && (base != s ==> d.place !in t.mounts)
    ensures SLASH !in DirOf(w, t, root, p, s).1 && |DirOf(w, t, root, p, s).1| <= |s|
    decreases |s|
  {
    hide EntryAt, Top, Good;
    var k := |Component(s)|;
    if k < |s| {
      var name := if k > 0 then s else THIS;
      TopIsFree(t, p);
      EntryIsFree(w, t, root, Top(t, p), name);
      match Entry(w, t, root, p, name) {
        case Fail(_) =>
        case Found(q) => DirIsFree(w, t, root, q, s[k + 1..]);
      }
    } else {
      assert s == Component(s);
    }
  }

  lemma BelowIsFree(w: World, t: Table, root: Place, start: Place, s: seq<Byte>)
    requires Good(t) && start.sb < t.n
    ensures var r := Below(w, t, root, start, s); r.Found? ==> r.place !in t.mounts && r.place.sb < t.n
  {
    TopIsFree(t, start);
    if s != [] {
      DirIsFree(w, t, root, start, s);
      var (d, base) := DirOf(w, t, root, start, s);
      if d.Found? && base != [] {
        TopIsFree(t, d.place);
        EntryIsFree(w, t, root, Top(t, d.place), base);
      }
    }
  }

  /** A path never names a vnode that has something mounted on it. */
  lemma PathIsFree(w: World, t: Table, root: Place, pwd: Place, path: seq<Byte>)
    requires Good(t) && root.sb < t.n && pwd.sb < t.n
    ensures var r := PathOf(w, t, root, pwd, path); r.Found? ==> r.place !in t.mounts && r.place.sb < t.n
  {
    if path != [] {
      BelowIsFree(w, t, root, if path[0] == SLASH then root else pwd, if path[0] == SLASH then path[1..] else path);
    }
  }

  /** Each mount reaches a later file system, so that no chain of mounts is longer than the number of file systems. */
  function Height(t: Table, p: Place): nat
    decreases if p.sb < t.n then t.n - p.sb else 0
  {
    if p in t.mounts && p.sb < t.mounts[p].sb < t.n then 1 + Height(t, t.mounts[p]) else 0
  }

  lemma {:induction false} ChainsAreShort(t: Table, p: Place)
    requires Good(t)
    ensures Height(t, p) <= if p.sb < t.n then t.n - 1 - p.sb else 0
    decreases if p.sb < t.n then t.n - p.sb else 0
  {
    if p in t.mounts {
      ChainsAreShort(t, t.mounts[p]);
    }
  }

  // ---- What can go wrong --------------------------------------------------

  /** A path fails because something on it is missing, is no directory, or may not be entered. */
  predicate IsWalkError(e: Errno)
  {
    e == ENOENT || e == ENOTDIR || e == EACCES || e == EGENERIC
  }

  lemma {:induction false} EntryErrors(w: World, t: Table, root: Place, p: Place, name: seq<Byte>)
    ensures var r := EntryAt(w, t, root, p, name); r.Fail? ==> IsWalkError(r.error)
    decreases p.sb
  {
    if p in t.covers && t.covers[p].sb < p.sb {
      EntryErrors(w, t, root, t.covers[p], name);
    }
  }

  lemma {:induction false} DirErrors(w: World, t: Table, root: Place, p: Place, s: seq<Byte>)
    ensures var (d, base) := DirOf(w, t, root, p, s); d.Fail? ==> IsWalkError(d.error)
    decreases |s|
  {
    hide EntryAt, Top;
    var k := |Component(s)|;
    if k != |s| {
      EntryErrors(w, t, root, Top(t, p), if k > 0 then s else THIS);
      match Entry(w, t, root, p, if k > 0 then s else THIS) {
        case Fail(_) =>
        case Found(q) => DirErrors(w, t, root, q, s[k + 1..]);
      }
    }
  }

  lemma PathErrors(w: World, t: Table, root: Place, pwd: Place, path: seq<Byte>)
    ensures var r := PathOf(w, t, root, pwd, path); r.Fail? ==> IsWalkError(r.error)
  {
    hide EntryAt, Top;
    if path != [] {
      var start, s := if path[0] == SLASH then root else pwd, if path[0] == SLASH then path[1..] else path;
      DirErrors(w, t, root, start, s);
      var (d, base) := DirOf(w, t, root, start, s);
      if d.Found? {
        EntryErrors(w, t, root, Top(t, d.place), base);
      }
    }
  }
}

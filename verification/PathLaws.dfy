/**
  Laws of path resolution (src/fs/namei.c) that do not look at how a path is taken apart: what one name means in a
  directory, and how the meaning of a longer path comes from those of its parts. Together they fix every path.
 */
module PathLaws {

  import opened Bytes
  import opened Limits
  import opened Options
  import opened Names
  import opened VnodeState
  import opened PathWalk

  // ---- Mounts -------------------------------------------------------------

  /** Top follows the mounts one by one and stops where nothing is mounted. */
  lemma TopFollowsMounts(t: Table, p: Place)
    requires Good(t)
    ensures Top(t, p) == if p in t.mounts then Top(t, t.mounts[p]) else p
  {
  }

  /** Down through the file systems: from a mounted root to its mountpoint, and on while that is a mounted root. */
  function Bottom(t: Table, p: Place): Place
    requires Good(t)
    decreases p.sb
  {
    if p in t.covers then Bottom(t, t.covers[p]) else p
  }

  /** Where a lookup in a directory leads. */
  function Looked(w: World, t: Table, p: Place, name: seq<Byte>): Walk
  {
    if !w.isDir(p) then Fail(ENOTDIR)
    else if !w.mayEnter(p) then Fail(EACCES)
    else if !w.hasLookup(p.sb) then Fail(EGENERIC)
    else if w.lookup(p, name) == None then Fail(ENOENT)
    else Found(Top(t, Place(p.sb, w.lookup(p, name).value)))
  }

  // ---- One name -----------------------------------------------------------

  predicate IsName(s: seq<Byte>)
  {
    s != [] && SLASH !in s
  }

  lemma OneNameIsAnEntry(w: World, t: Table, root: Place, pwd: Place, name: seq<Byte>)
    requires IsName(name)
    ensures PathOf(w, t, root, pwd, name) == EntryAt(w, t, root, Top(t, pwd), name) && Component(name) == name
  {
    ComponentOfName(name);
    assert name[0] in name;
  }

  /** A name is looked up in what is mounted on the working directory, and seen through what is mounted on it. */
  lemma NameIsLookedUp(w: World, t: Table, root: Place, pwd: Place, name: seq<Byte>)
    requires IsName(name) && name != THIS && name != PARENT
    ensures PathOf(w, t, root, pwd, name) == Looked(w, t, Top(t, pwd), name)
  {
    OneNameIsAnEntry(w, t, root, pwd, name);
  }

  /** "." stays where one is. */
  lemma ThisStays(w: World, t: Table, root: Place, pwd: Place)
    ensures PathOf(w, t, root, pwd, THIS) == Found(Top(t, pwd))
  {
    OneNameIsAnEntry(w, t, root, pwd, THIS);
  }

  lemma {:induction false} ParentOfBottom(w: World, t: Table, root: Place, p: Place)
    requires Good(t)
    ensures EntryAt(w, t, root, p, PARENT) ==
              if Bottom(t, p) == Top(t, root) then Found(Bottom(t, p)) else Looked(w, t, Bottom(t, p), PARENT)
    decreases p.sb
  {
    ComponentOfName(PARENT);
    if p in t.covers {
      ParentOfBottom(w, t, root, t.covers[p]);
    }
  }

  /** ".." leaves mounted file systems through their mountpoints, stops at the task's root, and is looked up elsewhere. */
  lemma ParentClimbs(w: World, t: Table, root: Place, pwd: Place)
    requires Good(t)
    ensures var b := Bottom(t, Top(t, pwd));
            PathOf(w, t, root, pwd, PARENT) == if b == Top(t, root) then Found(b) else Looked(w, t, b, PARENT)
  {
    OneNameIsAnEntry(w, t, root, pwd, PARENT);
    ParentOfBottom(w, t, root, Top(t, pwd));
  }

  /** At its root directory, a task stays where it is, unless that directory is itself a mounted root. */
  lemma ParentOfRootIsRoot(w: World, t: Table, root: Place, pwd: Place)
    requires Good(t) && Top(t, pwd) == Top(t, root) && Top(t, root) !in t.covers
    ensures PathOf(w, t, root, pwd, PARENT) == Found(Top(t, root))
  {
    ParentClimbs(w, t, root, pwd);
  }

  /** In the root of a mounted file system, ".." is the ".." of the directory it is mounted on. */
  lemma ParentCrossesMount(w: World, t: Table, root: Place, pwd: Place)
    requires Good(t) && Top(t, pwd) in t.covers && t.covers[Top(t, pwd)] !in t.covers
    ensures PathOf(w, t, root, pwd, PARENT) == Looked(w, t, t.covers[Top(t, pwd)], PARENT)
  {
    var c := t.covers[Top(t, pwd)];
    ParentClimbs(w, t, root, pwd);
    TopIsFree(t, root);
    assert c in t.mounts;
  }

  // ---- Longer paths -------------------------------------------------------

  lemma EntryOfComponent(w: World, t: Table, root: Place, p: Place, a: seq<Byte>, b: seq<Byte>)
    requires Component(a) == Component(b)
    ensures Entry(w, t, root, p, a) == Entry(w, t, root, p, b)
  {
    EntryAtOfComponent(w, t, root, Top(t, p), a, b);
  }

  lemma {:induction false} EntryAtOfComponent(w: World, t: Table, root: Place, p: Place, a: seq<Byte>, b: seq<Byte>)
    requires Component(a) == Component(b)
    ensures EntryAt(w, t, root, p, a) == EntryAt(w, t, root, p, b)
    decreases p.sb
  {
    if p in t.covers && t.covers[p].sb < p.sb {
      EntryAtOfComponent(w, t, root, t.covers[p], a, b);
    }
  }

  lemma {:induction false} ComponentInFront(a: seq<Byte>, s: seq<Byte>)
    ensures Component(a + [SLASH] + s) == Component(a)
    decreases |a|
  {
    if a != [] && a[0] != SLASH {
      assert (a + [SLASH] + s)[1..] == a[1..] + [SLASH] + s;
      ComponentInFront(a[1..], s);
    }
  }

  /** What is left of a path behind its first part is walked from where that part leads. */
  lemma {:induction false} DirBehind(w: World, t: Table, root: Place, p: Place, a: seq<Byte>, s: seq<Byte>)
    requires a != [] && a[|a| - 1] != SLASH
    ensures DirOf(w, t, root, p, a + [SLASH] + s) ==
              match Below(w, t, root, p, a)
              case Fail(e) => (Fail(e), [])
              case Found(q) => DirOf(w, t, root, q, s)
    decreases |a|
  {
    hide Entry, EntryAt, Top;
    var whole, k := a + [SLASH] + s, |Component(a)|;
    ComponentInFront(a, s);
    EntryOfComponent(w, t, root, p, whole, a);
    if k == |a| {
      assert whole[k + 1..] == s;
      assert DirOf(w, t, root, p, a) == (Found(p), a);
    } else {
      var rest := a[k + 1..];
      assert a[k] == SLASH && rest[|rest| - 1] == a[|a| - 1];
      assert whole[k + 1..] == rest + [SLASH] + s;
      match Entry(w, t, root, p, if k > 0 then a else THIS) {
        case Fail(_) =>
        case Found(q) => DirBehind(w, t, root, q, rest, s);
      }
    }
  }

  lemma BelowBehind(w: World, t: Table, root: Place, p: Place, a: seq<Byte>, s: seq<Byte>)
    requires a != [] && a[|a| - 1] != SLASH
    ensures Below(w, t, root, p, a + [SLASH] + s) ==
              match Below(w, t, root, p, a)
              case Fail(e) => Fail(e)
              case Found(q) => if s == [] then Found(q) else Below(w, t, root, q, s)
  {
    hide Entry;
    DirBehind(w, t, root, p, a, s);
  }

  /** A path that ends in no slash, with a slash and another behind it: the second from where the first leads. */
  lemma PathsCompose(w: World, t: Table, root: Place, pwd: Place, a: seq<Byte>, s: seq<Byte>)
    requires a != [] && a[|a| - 1] != SLASH && s != [] && s[0] != SLASH
    ensures PathOf(w, t, root, pwd, a + [SLASH] + s) ==
              match PathOf(w, t, root, pwd, a)
              case Fail(e) => Fail(e)
              case Found(d) => PathOf(w, t, root, d, s)
  {
    hide Below;
    if a[0] == SLASH {
      assert (a + [SLASH] + s)[1..] == a[1..] + [SLASH] + s && a[1..][|a| - 2] == a[|a| - 1];
      BelowBehind(w, t, root, root, a[1..], s);
    } else {
      BelowBehind(w, t, root, pwd, a, s);
    }
  }

  /** A slash at the end makes no difference. */
  lemma SlashAtTheEnd(w: World, t: Table, root: Place, pwd: Place, a: seq<Byte>)
    requires a != [] && a[|a| - 1] != SLASH
    ensures PathOf(w, t, root, pwd, a + [SLASH]) == PathOf(w, t, root, pwd, a)
  {
    hide Below;
    assert a + [SLASH] + [] == a + [SLASH];
    if a[0] == SLASH {
      assert (a + [SLASH])[1..] == a[1..] + [SLASH] + [] && a[1..][|a| - 2] == a[|a| - 1];
      BelowBehind(w, t, root, root, a[1..], []);
    } else {
      BelowBehind(w, t, root, pwd, a, []);
    }
  }

  lemma FromTop(w: World, t: Table, root: Place, p: Place, s: seq<Byte>)
    requires Good(t)
    ensures Below(w, t, root, Top(t, p), s) == Below(w, t, root, p, s)
  {
    TopIsFree(t, p);
    TopFollowsMounts(t, Top(t, p));
    hide Top, EntryAt;
  }

  lemma SlashIsThis(w: World, t: Table, root: Place, p: Place, s: seq<Byte>)
    requires Good(t)
    ensures DirOf(w, t, root, p, [SLASH] + s) == DirOf(w, t, root, Top(t, p), s)
  {
    TopIsFree(t, p);
    TopFollowsMounts(t, Top(t, p));
    assert ([SLASH] + s)[1..] == s && Component([SLASH] + s) == [];
    ComponentOfName(THIS);
    assert Entry(w, t, root, p, THIS) == Found(Top(t, p));
    hide Entry, Top;
  }

  lemma SlashInFront(w: World, t: Table, root: Place, p: Place, s: seq<Byte>)
    requires Good(t)
    ensures Below(w, t, root, p, [SLASH] + s) == Below(w, t, root, p, s)
  {
    SlashIsThis(w, t, root, p, s);
    FromTop(w, t, root, p, s);
    hide Entry, Top;
    if s == [] {
      assert DirOf(w, t, root, Top(t, p), s) == (Found(Top(t, p)), s);
    }
  }

  lemma StaysAtTop(w: World, t: Table, root: Place, p: Place)
    requires p !in t.mounts
    ensures Below(w, t, root, p, []) == Found(p)
  {
  }

  /** Two slashes are one. */
  lemma SlashesAreOne(w: World, t: Table, root: Place, pwd: Place, a: seq<Byte>, s: seq<Byte>)
    requires Good(t) && root.sb < t.n && pwd.sb < t.n && (a == [] || a[|a| - 1] != SLASH)
    ensures PathOf(w, t, root, pwd, a + [SLASH] + ([SLASH] + s)) == PathOf(w, t, root, pwd, a + [SLASH] + s)
  {
    hide Below;
    if a == [] {
      assert (a + [SLASH] + ([SLASH] + s))[1..] == [SLASH] + s && (a + [SLASH] + s)[1..] == s;
      SlashInFront(w, t, root, root, s);
    } else {
      var start, b := if a[0] == SLASH then root else pwd, if a[0] == SLASH then a[1..] else a;
      if a[0] == SLASH {
        assert (a + [SLASH] + ([SLASH] + s))[1..] == b + [SLASH] + ([SLASH] + s) && (a + [SLASH] + s)[1..] == b + [SLASH] + s;
        assert b[|b| - 1] == a[|a| - 1];
      }
      BelowBehind(w, t, root, start, b, [SLASH] + s);
      BelowBehind(w, t, root, start, b, s);
      match Below(w, t, root, start, b) {
        case Fail(_) =>
        case Found(q) =>
          SlashInFront(w, t, root, q, s);
          BelowIsFree(w, t, root, start, b);
          StaysAtTop(w, t, root, q);
      }
    }
  }

  // ---- Absolute paths -----------------------------------------------------

  /** An absolute path does not depend on the working directory: what is behind its slash starts at the root. */
  lemma AbsoluteFromRoot(w: World, t: Table, root: Place, pwd: Place, s: seq<Byte>)
    requires s == [] || s[0] != SLASH
    ensures PathOf(w, t, root, pwd, [SLASH] + s) == if s == [] then Found(Top(t, root)) else PathOf(w, t, root, root, s)
  {
    assert ([SLASH] + s)[1..] == s;
  }
}

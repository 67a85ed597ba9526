/** What mkinitrd wrote is what the kernel reads: names, contents and structure of the tree. */
module InitrdRoundTrip {

  import opened Bytes
  import opened InitrdLayout
  import opened Names
  import opened Options
  import opened InitrdReader
  import opened InitrdWriter

  // ---- Positions in a tree ------------------------------------------------

  /** A position is the indices of the children on the way down. */
  predicate IsPos(t: Tree, pos: seq<nat>)
    decreases |pos|
  {
    pos == [] || (t.Dir? && pos[0] < |t.children| && IsPos(t.children[pos[0]].node, pos[1..]))
  }

  function NodeAt(t: Tree, pos: seq<nat>): Tree
    requires IsPos(t, pos)
    decreases |pos|
  {
    if pos == [] then t else NodeAt(t.children[pos[0]].node, pos[1..])
  }

  function InoAt(t: Tree, ino: nat, pos: seq<nat>): nat
    requires IsPos(t, pos)
    decreases |pos|
  {
    if pos == [] then ino else InoAt(t.children[pos[0]].node, ChildIno(t.children, pos[0], ino), pos[1..])
  }

  function OffAt(t: Tree, off: nat, pos: seq<nat>): nat
    requires IsPos(t, pos)
    decreases |pos|
  {
    if pos == [] then off else OffAt(t.children[pos[0]].node, ChildOff(t.children, pos[0], off), pos[1..])
  }

  /** The position one level up; the root is above itself. */
  function Up(pos: seq<nat>): seq<nat>
  {
    if pos == [] then [] else pos[..|pos| - 1]
  }

  lemma {:induction false} PosParts(t: Tree, ino: nat, pos: seq<nat>)
    requires IsPos(t, pos)
    ensures IsPos(t, Up(pos))
    ensures ino <= InoAt(t, ino, pos) && InoAt(t, ino, pos) + Count(NodeAt(t, pos)) <= ino + Count(t)
    decreases |pos|
  {
    if pos != [] {
      ChildWithin(t, pos[0], ino, 0);
      PosParts(t.children[pos[0]].node, ChildIno(t.children, pos[0], ino), pos[1..]);
      if |pos| > 1 {
        assert Up(pos)[0] == pos[0] && Up(pos)[1..] == Up(pos[1..]);
      }
    }
  }

  /** Every node of the tree stands in the image, at its place in the pre-order numbering. */
  lemma {:induction false} ReprAt(buf: seq<Byte>, t: Tree, ino: nat, off: nat, parent: nat, pos: seq<nat>)
    requires Repr(buf, t, ino, off, parent) && GoodTree(t) && IsPos(t, pos) && IsPos(t, Up(pos))
    ensures GoodTree(NodeAt(t, pos))
    ensures Repr(buf, NodeAt(t, pos), InoAt(t, ino, pos), OffAt(t, off, pos), if pos == [] then parent else InoAt(t, ino, Up(pos)))
    decreases |pos|
  {
    hide Repr, GoodTree;
    if pos != [] {
      GoodChild(t, pos[0]);
      ReprChild(buf, t, ino, off, parent, pos[0]);
      var child, ino', off' := t.children[pos[0]].node, ChildIno(t.children, pos[0], ino), ChildOff(t.children, pos[0], off);
      PosParts(child, ino', pos[1..]);
      ReprAt(buf, child, ino', off', ino, pos[1..]);
      if |pos| > 1 {
        assert Up(pos)[0] == pos[0] && Up(pos)[1..] == Up(pos[1..]);
      }
    }
  }

  // ---- Lookup -------------------------------------------------------------

  predicate HasChild(t: Tree, name: seq<Byte>)
  {
    t.Dir? && exists j :: 0 <= j < |t.children| && t.children[j].name == name
  }

  /** The names in a directory's image, by entry. */
  function NameOf(children: seq<Child>, i: nat): seq<Byte>
    requires i < |children| + HARDLINKS
  {
    if i == 0 then [DOT] else if i == 1 then [DOT, DOT] else children[i - HARDLINKS].name
  }

  function NumberOf(children: seq<Child>, i: nat, ino: nat, parent: nat): nat
    requires i < |children| + HARDLINKS
  {
    if i == 0 then ino else if i == 1 then parent else ChildIno(children, i - HARDLINKS, ino)
  }

  lemma EntryReadsBack(buf: seq<Byte>, t: Tree, ino: nat, off: nat, parent: nat, i: nat)
    requires t.Dir? && GoodTree(t) && Repr(buf, t, ino, off, parent) && i < |t.children| + HARDLINKS
    ensures EntryName(buf, off, i) == NameOf(t.children, i) && U32(buf, EntryPos(off, i)) == NumberOf(t.children, i, ino, parent)
    ensures Component(NameOf(t.children, i)) == NameOf(t.children, i) && 0 < |NameOf(t.children, i)| < FILENAME_LEN
  {
    hide Repr, GoodTree, EntryIs, EntryName, Component, U32;
    ReprEntry(buf, t, ino, off, parent, i);
    NameIsComponent(t, i);
    EntryOf(buf, off, i, NumberOf(t.children, i, ino, parent), NameOf(t.children, i));
  }

  lemma EntryOf(buf: seq<Byte>, off: nat, i: nat, ino: nat, name: seq<Byte>)
    requires EntryIs(buf, off, i, ino, name)
    ensures EntryName(buf, off, i) == name && U32(buf, EntryPos(off, i)) == ino
  {
    CStringOf(buf, EntryPos(off, i) + 4, name);
  }

  lemma NameIsComponent(t: Tree, i: nat)
    requires t.Dir? && GoodTree(t) && i < |t.children| + HARDLINKS
    ensures Component(NameOf(t.children, i)) == NameOf(t.children, i) && 0 < |NameOf(t.children, i)| < FILENAME_LEN
  {
    if i >= HARDLINKS {
      GoodChild(t, i - HARDLINKS);
    }
    hide GoodTree;
    ComponentOfName(NameOf(t.children, i));
  }

  lemma ReprEntry(buf: seq<Byte>, t: Tree, ino: nat, off: nat, parent: nat, i: nat)
    requires t.Dir? && Repr(buf, t, ino, off, parent) && i < |t.children| + HARDLINKS
    ensures EntryIs(buf, off, i, NumberOf(t.children, i, ino, parent), NameOf(t.children, i))
  {
    hide InodeAt, EntryIs;
    if i >= HARDLINKS {
      assert ChildEntry(buf, t.children, i - HARDLINKS, ino, off);
    }
  }

  lemma NamesDiffer(t: Tree, i: nat, k: nat)
    requires t.Dir? && GoodTree(t) && i < k < |t.children| + HARDLINKS
    ensures NameOf(t.children, i) != NameOf(t.children, k)
  {
    if k >= HARDLINKS {
      GoodChild(t, k - HARDLINKS);
    }
  }

  /** Looking a name up finds the entry that carries it, and nothing when no entry does. */
  lemma LookupFindsEntry(buf: seq<Byte>, t: Tree, ino: nat, off: nat, parent: nat, s: seq<Byte>, i: nat)
    requires t.Dir? && GoodTree(t) && Repr(buf, t, ino, off, parent)
    requires i < |t.children| + HARDLINKS && NameOf(t.children, i) == Component(s)
    ensures LookupIn(buf, InodeAt(buf, ino), s) == Some(NumberOf(t.children, i, ino, parent))
  {
    hide Repr, GoodTree, InodeAt, Component, EntryName;
    var n := |t.children| + HARDLINKS;
    ReprInode(buf, t, ino, off, parent);
    assert InodeAt(buf, ino).size / 68 == n && InodeAt(buf, ino).offset == off;
    EntryReadsBack(buf, t, ino, off, parent, i);
    var r := FindName(buf, off, n, n, s);
    assert r < n;
    EntryReadsBack(buf, t, ino, off, parent, r);
    if r < i {
      NamesDiffer(t, r, i);
    } else if i < r {
      NamesDiffer(t, i, r);
    }
  }

  lemma LookupFindsNothing(buf: seq<Byte>, t: Tree, ino: nat, off: nat, parent: nat, s: seq<Byte>)
    requires t.Dir? && GoodTree(t) && Repr(buf, t, ino, off, parent)
    requires Component(s) != [DOT] && Component(s) != [DOT, DOT] && !HasChild(t, Component(s))
    ensures LookupIn(buf, InodeAt(buf, ino), s) == None
  {
    hide Repr, GoodTree, InodeAt, Component, EntryName;
    var n := |t.children| + HARDLINKS;
    ReprInode(buf, t, ino, off, parent);
    assert InodeAt(buf, ino).size / 68 == n && InodeAt(buf, ino).offset == off;
    var r := FindName(buf, off, n, n, s);
    if r < n {
      EntryReadsBack(buf, t, ino, off, parent, r);
    }
  }

  // ---- Walking ------------------------------------------------------------

  /** One component of a path in the image: what getdentry does below a mount. */
  function StepIn(buf: seq<Byte>, ino: nat, s: seq<Byte>): Option<nat>
  {
    match ReadInode(buf, ino)
    case None => None
    case Some(d) =>
      if Component(s) == [DOT] then Some(ino)
      else if d.flags != FS_DIRECTORY then None
      else LookupIn(buf, d, s)
  }

  function WalkIn(buf: seq<Byte>, ino: nat, path: seq<seq<Byte>>): Option<nat>
    decreases |path|
  {
    if path == [] then Some(ino)
    else match StepIn(buf, ino, path[0])
      case None => None
      case Some(next) => WalkIn(buf, next, path[1..])
  }

  /** The same in the tree. */
  function ChildNamed(children: seq<Child>, name: seq<Byte>, n: nat): (r: nat)
    requires n <= |children|
    ensures r <= n && (r < n ==> children[r].name == name)
    ensures r == n ==> forall j :: 0 <= j < n ==> children[j].name != name
  {
    if n == 0 then 0
    else
      var r := ChildNamed(children, name, n - 1);
      if r < n - 1 then r else if children[n - 1].name == name then n - 1 else n
  }

  function StepTree(t: Tree, pos: seq<nat>, name: seq<Byte>): Option<seq<nat>>
    requires IsPos(t, pos)
  {
    var d := NodeAt(t, pos);
    if name == [DOT] then Some(pos)
    else if d.File? then None
    else if name == [DOT, DOT] then Some(Up(pos))
    else
      var j := ChildNamed(d.children, name, |d.children|);
      if j < |d.children| then Some(pos + [j]) else None
  }

  lemma {:induction false} Deeper(t: Tree, ino: nat, pos: seq<nat>, j: nat)
    requires IsPos(t, pos) && NodeAt(t, pos).Dir? && j < |NodeAt(t, pos).children|
    ensures IsPos(t, pos + [j])
    ensures InoAt(t, ino, pos + [j]) == ChildIno(NodeAt(t, pos).children, j, InoAt(t, ino, pos))
    decreases |pos|
  {
    if pos == [] {
      var one := [j];
      assert pos + [j] == one && one[0] == j && one[1..] == [];
      assert IsPos(t, one) && InoAt(t, ino, one) == InoAt(t.children[j].node, ChildIno(t.children, j, ino), one[1..]);
    } else {
      assert (pos + [j])[1..] == pos[1..] + [j];
      Deeper(t.children[pos[0]].node, ChildIno(t.children, pos[0], ino), pos[1..], j);
    }
  }

  lemma StepTreeStays(t: Tree, pos: seq<nat>, name: seq<Byte>)
    requires IsPos(t, pos)
    ensures StepTree(t, pos, name).Some? ==> IsPos(t, StepTree(t, pos, name).value)
  {
    PosParts(t, 0, pos);
    var d := NodeAt(t, pos);
    if d.Dir? {
      var j := ChildNamed(d.children, name, |d.children|);
      if j < |d.children| {
        Deeper(t, 0, pos, j);
      }
    }
  }

  function WalkTree(t: Tree, pos: seq<nat>, path: seq<seq<Byte>>): (r: Option<seq<nat>>)
    requires IsPos(t, pos)
    ensures r.Some? ==> IsPos(t, r.value)
    decreases |path|
  {
    if path == [] then Some(pos)
    else
      StepTreeStays(t, pos, Component(path[0]));
      match StepTree(t, pos, Component(path[0]))
      case None => None
      case Some(next) => WalkTree(t, next, path[1..])
  }

  /** An image of t with its root at inode 0. */
  ghost predicate ImageOf(buf: seq<Byte>, t: Tree)
  {
    t.Dir? && GoodTree(t) && Repr(buf, t, 0, Slot(Count(t)), 0) && U32(buf, 4) == Count(t)
  }

  lemma InodeReadsBack(buf: seq<Byte>, t: Tree, pos: seq<nat>)
    requires ImageOf(buf, t) && IsPos(t, pos)
    ensures IsPos(t, Up(pos))
    ensures GoodTree(NodeAt(t, pos))
    ensures Repr(buf, NodeAt(t, pos), InoAt(t, 0, pos), OffAt(t, Slot(Count(t)), pos), InoAt(t, 0, Up(pos)))
    ensures ReadInode(buf, InoAt(t, 0, pos)) == Some(InodeOf(NodeAt(t, pos), InoAt(t, 0, pos), OffAt(t, Slot(Count(t)), pos)))
    ensures InodeAt(buf, InoAt(t, 0, pos)) == InodeOf(NodeAt(t, pos), InoAt(t, 0, pos), OffAt(t, Slot(Count(t)), pos))
  {
    hide GoodTree;
    PosParts(t, 0, pos);
    ReprAt(buf, t, 0, Slot(Count(t)), 0, pos);
    hide Repr;
    ReprInode(buf, NodeAt(t, pos), InoAt(t, 0, pos), OffAt(t, Slot(Count(t)), pos), InoAt(t, 0, Up(pos)));
  }

  lemma StepReadsBack(buf: seq<Byte>, t: Tree, pos: seq<nat>, s: seq<Byte>)
    requires ImageOf(buf, t) && IsPos(t, pos)
    ensures match StepTree(t, pos, Component(s))
            case None => StepIn(buf, InoAt(t, 0, pos), s) == None
            case Some(next) => IsPos(t, next) && StepIn(buf, InoAt(t, 0, pos), s) == Some(InoAt(t, 0, next))
  {
    hide Repr, GoodTree, InodeAt, LookupIn, ImageOf;
    InodeReadsBack(buf, t, pos);
    var d, ino, off, up := NodeAt(t, pos), InoAt(t, 0, pos), OffAt(t, Slot(Count(t)), pos), InoAt(t, 0, Up(pos));
    if Component(s) != [DOT] && d.Dir? {
      if Component(s) == [DOT, DOT] {
        LookupFindsEntry(buf, d, ino, off, up, s, 1);
      } else {
        var j := ChildNamed(d.children, Component(s), |d.children|);
        if j < |d.children| {
          LookupFindsEntry(buf, d, ino, off, up, s, j + HARDLINKS);
          Deeper(t, 0, pos, j);
        } else {
          LookupFindsNothing(buf, d, ino, off, up, s);
        }
      }
    }
  }

  // ---- The round trip -----------------------------------------------------

  /** Any path, "." and ".." included, leads to the same place in the image as in the tree, or nowhere in both. */
  lemma {:induction false} WalkReadsBack(buf: seq<Byte>, t: Tree, pos: seq<nat>, path: seq<seq<Byte>>)
    requires ImageOf(buf, t) && IsPos(t, pos)
    ensures match WalkTree(t, pos, path)
            case None => WalkIn(buf, InoAt(t, 0, pos), path) == None
            case Some(end) => WalkIn(buf, InoAt(t, 0, pos), path) == Some(InoAt(t, 0, end))
    decreases |path|
  {
    if path != [] {
      StepReadsBack(buf, t, pos, path[0]);
      match StepTree(t, pos, Component(path[0])) {
        case None =>
        case Some(next) => WalkReadsBack(buf, t, next, path[1..]);
      }
    }
  }

  /** A file found along a path holds its bytes, and carries its owner and mode. */
  lemma FileReadsBack(buf: seq<Byte>, t: Tree, path: seq<seq<Byte>>)
    requires ImageOf(buf, t)
    requires WalkTree(t, [], path).Some? && NodeAt(t, WalkTree(t, [], path).value).File?
    ensures var f := NodeAt(t, WalkTree(t, [], path).value);
            && WalkIn(buf, 0, path).Some? && ReadInode(buf, WalkIn(buf, 0, path).value).Some?
            && var n := ReadInode(buf, WalkIn(buf, 0, path).value).value;
            && n.flags == FS_FILE && n.size == |f.data| && Attr(n.mode, n.gid, n.uid) == f.attr
            && Inside(buf, n) && Content(buf, n) == f.data
  {
    hide Repr, GoodTree, InodeAt, ImageOf, WalkIn, StepIn, Component;
    WalkReadsBack(buf, t, [], path);
    var pos := WalkTree(t, [], path).value;
    InodeReadsBack(buf, t, pos);
    var f := NodeAt(t, pos);
    var n := InodeAt(buf, InoAt(t, 0, pos));
    ReprInode(buf, f, InoAt(t, 0, pos), OffAt(t, Slot(Count(t)), pos), InoAt(t, 0, Up(pos)));
  }

  lemma ListedEntry(buf: seq<Byte>, t: Tree, pos: seq<nat>, i: nat)
    requires ImageOf(buf, t) && IsPos(t, pos) && NodeAt(t, pos).Dir?
    ensures IsPos(t, Up(pos))
    ensures var d := NodeAt(t, pos);
            ReadDir(buf, InodeAt(buf, InoAt(t, 0, pos)), i) ==
              if i >= |d.children| + HARDLINKS then None
              else
                var ino := NumberOf(d.children, i, InoAt(t, 0, pos), InoAt(t, 0, Up(pos)));
                Some((ino, InodeAt(buf, ino).flags, NameOf(d.children, i)))
  {
    hide Repr, GoodTree, InodeAt, ImageOf;
    InodeReadsBack(buf, t, pos);
    var d, ino, off, up := NodeAt(t, pos), InoAt(t, 0, pos), OffAt(t, Slot(Count(t)), pos), InoAt(t, 0, Up(pos));
    if i < |d.children| + HARDLINKS {
      EntryReadsBack(buf, d, ino, off, up, i);
    }
  }

  function TypeOf(t: Tree): Byte
  {
    if t.File? then FS_FILE else FS_DIRECTORY
  }

  /** Listing a directory gives its links, then its children in order, each with its number and type; then the end. */
  lemma DirectoryListsBack(buf: seq<Byte>, t: Tree, pos: seq<nat>, i: nat)
    requires ImageOf(buf, t) && IsPos(t, pos) && NodeAt(t, pos).Dir?
    ensures var d := NodeAt(t, pos);
            var n := InodeAt(buf, InoAt(t, 0, pos));
            if i >= |d.children| + HARDLINKS then ReadDir(buf, n, i) == None
            else if i == 0 then ReadDir(buf, n, i) == Some((InoAt(t, 0, pos), FS_DIRECTORY, [DOT]))
            else if i == 1 then IsPos(t, Up(pos)) && ReadDir(buf, n, i) == Some((InoAt(t, 0, Up(pos)), FS_DIRECTORY, [DOT, DOT]))
            else
              var j := i - HARDLINKS;
              && IsPos(t, pos + [j])
              && ReadDir(buf, n, i) == Some((InoAt(t, 0, pos + [j]), TypeOf(d.children[j].node), d.children[j].name))
  {
    hide Repr, GoodTree, InodeAt, ReadDir;
    ListedEntry(buf, t, pos, i);
    InodeReadsBack(buf, t, pos);
    var d := NodeAt(t, pos);
    if i == 1 {
      InodeReadsBack(buf, t, Up(pos));
      UpIsADirectory(t, pos);
    } else if HARDLINKS <= i < |d.children| + HARDLINKS {
      Deeper(t, 0, pos, i - HARDLINKS);
      InodeReadsBack(buf, t, pos + [i - HARDLINKS]);
      DeeperNode(t, pos, i - HARDLINKS);
    }
  }

  lemma {:induction false} DeeperNode(t: Tree, pos: seq<nat>, j: nat)
    requires IsPos(t, pos) && NodeAt(t, pos).Dir? && j < |NodeAt(t, pos).children| && IsPos(t, pos + [j])
    ensures NodeAt(t, pos + [j]) == NodeAt(t, pos).children[j].node
    decreases |pos|
  {
    if pos == [] {
      assert pos + [j] == [j] && [j][1..] == [];
      assert NodeAt(t, [j]) == NodeAt(t.children[j].node, []);
    } else {
      assert (pos + [j])[1..] == pos[1..] + [j];
      DeeperNode(t.children[pos[0]].node, pos[1..], j);
    }
  }

  lemma {:induction false} UpIsADirectory(t: Tree, pos: seq<nat>)
    requires IsPos(t, pos) && IsPos(t, Up(pos)) && t.Dir?
    ensures NodeAt(t, Up(pos)).Dir?
    decreases |pos|
  {
    if |pos| > 1 {
      var child := t.children[pos[0]].node;
      assert Up(pos)[0] == pos[0] && Up(pos)[1..] == Up(pos[1..]);
      PosParts(child, 0, pos[1..]);
      UpIsADirectory(child, pos[1..]);
    }
  }

  // ---- Extents ------------------------------------------------------------

  /** Where inode k's contents end, the next inode's begin: the contents tile the image from off on. */
  lemma {:induction false} ExtentsTile(buf: seq<Byte>, t: Tree, ino: nat, off: nat, parent: nat, k: nat)
    requires Repr(buf, t, ino, off, parent) && ino <= k < ino + Count(t)
    ensures InodeAt(buf, k).inode == k && InodeAt(buf, ino).offset == off
    ensures InodeAt(buf, k).offset + InodeAt(buf, k).size == if k + 1 < ino + Count(t) then InodeAt(buf, k + 1).offset else off + Size(t)
    decreases t
  {
    hide Repr, InodeAt, Count, Size;
    ReprInode(buf, t, ino, off, parent);
    if t.Dir? {
      DirTotals(t, ino, off);
      if k == ino {
        OneInodeAlone(t);
        if |t.children| > 0 {
          ChildStarts(buf, t, ino, off, parent, 0);
          ChildWithin(t, 0, ino, off);
        }
      } else {
        var j := ChildOfInode(t, ino, k);
        var child := t.children[j].node;
        ReprChild(buf, t, ino, off, parent, j);
        ChildWithin(t, j, ino, off);
        NextChild(t.children, j, ino, off);
        ExtentsTile(buf, child, ChildIno(t.children, j, ino), ChildOff(t.children, j, off), ino, k);
        if j + 1 < |t.children| {
          ChildStarts(buf, t, ino, off, parent, j + 1);
          ChildWithin(t, j + 1, ino, off);
        }
      }
    } else {
      OneInodeAlone(t);
    }
  }

  lemma OneInodeAlone(t: Tree)
    ensures t.File? || t.children == [] ==> Count(t) == 1 && Size(t) == OwnSize(t)
  {
  }

  lemma ChildStarts(buf: seq<Byte>, t: Tree, ino: nat, off: nat, parent: nat, j: nat)
    requires Repr(buf, t, ino, off, parent) && t.Dir? && j < |t.children|
    ensures InodeAt(buf, ChildIno(t.children, j, ino)).offset == ChildOff(t.children, j, off)
    ensures 0 < Count(t.children[j].node)
  {
    hide Repr, InodeAt;
    ReprChild(buf, t, ino, off, parent, j);
    ReprInode(buf, t.children[j].node, ChildIno(t.children, j, ino), ChildOff(t.children, j, off), ino);
  }

  /** The child whose subtree holds inode k. */
  lemma ChildOfInode(t: Tree, ino: nat, k: nat) returns (j: nat)
    requires t.Dir? && ino < k < ino + Count(t)
    ensures j < |t.children|
    ensures ChildIno(t.children, j, ino) <= k < ChildIno(t.children, j, ino) + Count(t.children[j].node)
  {
    j := 0;
    DirTotals(t, ino, 0);
    while ChildIno(t.children, j + 1, ino) <= k
      invariant j < |t.children| && ChildIno(t.children, j, ino) <= k
      decreases |t.children| - j
    {
      j := j + 1;
    }
    NextChild(t.children, j, ino, 0);
  }

  /** The whole trip: write a tree, walk to a file, read it. */
  method WriteThenRead(t: Tree, path: seq<seq<Byte>>, sizes: seq<nat>) returns (r: Option<seq<Byte>>)
    requires t.Dir? && GoodTree(t) && Slot(Count(t)) + Size(t) < WORD_LIMIT
    ensures r.Some? <==> WalkTree(t, [], path).Some? && NodeAt(t, WalkTree(t, [], path).value).File?
    ensures r.Some? ==> var data := NodeAt(t, WalkTree(t, [], path).value).data;
                        r.value == data[..Min(Sum(sizes), |data|)]
  {
    var image := MakeInitrd(t);
    WalkReadsBack(image, t, [], path);
    var end := WalkIn(image, 0, path);
    if end == None {
      return None;
    }
    InodeReadsBack(image, t, WalkTree(t, [], path).value);
    var n := ReadInode(image, end.value);
    if n == None || n.value.flags != FS_FILE {
      return None;
    }
    FileReadsBack(image, t, path);
    var f := new OpenFile(n.value);
    var data := f.ReadAll(image, sizes);
    r := Some(data);
  }
}

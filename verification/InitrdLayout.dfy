/**
  The initrd image: a header, a table of inodes, and behind it the contents of files and directories. Layout of
  the structures as src/include/fs/initrdfs.h has them on a 32-bit machine.
 */
module InitrdLayout {

  import opened Bytes
  import opened Names

  const INITRD_MAGIC: nat := 0x54494E49
  const FILENAME_LEN: nat := 64
  const HARDLINKS: nat := 2
  const FS_FILE: Byte := 1
  const FS_DIRECTORY: Byte := 2

  datatype Attr = Attr(mode: nat, gid: nat, uid: nat)
  datatype Child = Child(name: seq<Byte>, node: Tree)

  /** What mkinitrd is pointed at. The children come in the order readdir gives them, without "." and "..". */
  datatype Tree = File(attr: Attr, data: seq<Byte>) | Dir(attr: Attr, children: seq<Child>)

  datatype Inode = Inode(inode: nat, offset: nat, mode: nat, gid: nat, uid: nat, flags: Byte, size: nat)

  // ---- How much room a tree needs -----------------------------------------

  /** Inodes of a tree. */
  function Count(t: Tree): (r: nat)
    ensures 0 < r
    decreases t
  {
    match t
    case File(_, _) => 1
    case Dir(_, children) => 1 + Counts(children, |children|)
  }

  /** Inodes of the first n children. */
  function Counts(children: seq<Child>, n: nat): nat
    requires n <= |children|
    decreases children, n
  {
    if n == 0 then 0 else Counts(children, n - 1) + Count(children[n - 1].node)
  }

  function OwnSize(t: Tree): nat
  {
    match t
    case File(_, data) => |data|
    case Dir(_, children) => 68 * (|children| + HARDLINKS)
  }

  /** Bytes of a tree behind the inode table. */
  function Size(t: Tree): nat
    decreases t
  {
    match t
    case File(_, data) => |data|
    case Dir(_, children) => OwnSize(t) + Sizes(children, |children|)
  }

  function Sizes(children: seq<Child>, n: nat): nat
    requires n <= |children|
    decreases children, n
  {
    if n == 0 then 0 else Sizes(children, n - 1) + Size(children[n - 1].node)
  }

  /** What the header's third word counts: every inode, and two hard links for each directory. */
  function Links(t: Tree): nat
    decreases t
  {
    match t
    case File(_, _) => 1
    case Dir(_, children) => 1 + HARDLINKS + LinkSum(children, |children|)
  }

  function LinkSum(children: seq<Child>, n: nat): nat
    requires n <= |children|
    decreases children, n
  {
    if n == 0 then 0 else LinkSum(children, n - 1) + Links(children[n - 1].node)
  }

  lemma {:induction false} SumsGrow(children: seq<Child>, m: nat, n: nat)
    requires m <= n <= |children|
    ensures Counts(children, m) <= Counts(children, n) && Sizes(children, m) <= Sizes(children, n)
    ensures m < n ==> Counts(children, m) + Count(children[m].node) <= Counts(children, n)
    ensures m < n ==> Sizes(children, m) + Size(children[m].node) <= Sizes(children, n)
    decreases n
  {
    if m < n {
      SumsGrow(children, m, n - 1);
    }
  }

  // ---- Trees mkinitrd can write -------------------------------------------

  ghost predicate GoodName(name: seq<Byte>)
  {
    && 0 < |name| < FILENAME_LEN && NulFree(name) && (forall i :: 0 <= i < |name| ==> name[i] != SLASH)
    && name != [DOT] && name != [DOT, DOT]
  }

  ghost predicate GoodAttr(a: Attr)
  {
    a.mode < WORD_LIMIT && a.gid < WORD_LIMIT && a.uid < WORD_LIMIT
  }

  ghost predicate GoodTree(t: Tree)
    decreases t
  {
    && GoodAttr(t.attr)
    && (t.Dir? ==>
          && (forall i, j :: 0 <= i < j < |t.children| ==> t.children[i].name != t.children[j].name)
          && (forall i :: 0 <= i < |t.children| ==> GoodName(t.children[i].name))
          && (forall i :: 0 <= i < |t.children| ==> GoodTree(t.children[i].node)))
  }

  lemma GoodChild(t: Tree, i: nat)
    requires GoodTree(t) && t.Dir? && i < |t.children|
    ensures GoodTree(t.children[i].node) && GoodName(t.children[i].name)
  {
  }

  // ---- Structures in the image --------------------------------------------

  // A header takes 12 bytes, an inode 28, a directory entry 68.

  function Slot(ino: int): int
  {
    12 + 28 * ino
  }

  function InodeAt(buf: seq<Byte>, ino: int): Inode
  {
    var p := Slot(ino);
    Inode(U32(buf, p), U32(buf, p + 4), U32(buf, p + 8), U32(buf, p + 12), U32(buf, p + 16),
          if 0 <= p + 20 < |buf| then buf[p + 20] else 0, U32(buf, p + 24))
  }

  /** pad stands for the three bytes the compiler leaves between flags and size. */
  function InodeBytes(n: Inode, pad: seq<Byte>): (r: seq<Byte>)
    requires |pad| == 3
    ensures |r| == 28
  {
    LE(n.inode) + LE(n.offset) + LE(n.mode) + LE(n.gid) + LE(n.uid) + [n.flags] + pad + LE(n.size)
  }

  ghost predicate GoodInode(n: Inode)
  {
    && n.inode < WORD_LIMIT && n.offset < WORD_LIMIT && n.mode < WORD_LIMIT && n.gid < WORD_LIMIT
    && n.uid < WORD_LIMIT && n.size < WORD_LIMIT
  }

  lemma Fields(n: Inode, pad: seq<Byte>)
    requires |pad| == 3
    ensures var b := InodeBytes(n, pad);
            && b[0..4] == LE(n.inode) && b[4..8] == LE(n.offset) && b[8..12] == LE(n.mode)
            && b[12..16] == LE(n.gid) && b[16..20] == LE(n.uid) && b[20] == n.flags && b[24..28] == LE(n.size)
  {
    hide LE;
    var b := InodeBytes(n, pad);
    var s := LE(n.inode) + LE(n.offset) + LE(n.mode);
    assert s[0..4] == LE(n.inode) && s[4..8] == LE(n.offset) && s[8..12] == LE(n.mode);
    var r := LE(n.uid) + [n.flags] + pad + LE(n.size);
    assert r[0..4] == LE(n.uid) && r[4] == n.flags && r[8..12] == LE(n.size);
    assert b == s + LE(n.gid) + r;
    assert b[0..4] == s[0..4] && b[4..8] == s[4..8] && b[8..12] == s[8..12];
    assert b[16..20] == r[0..4] && b[24..28] == r[8..12];
  }

  lemma InodeRoundTrip(buf: seq<Byte>, ino: nat, n: Inode, pad: seq<Byte>)
    requires |pad| == 3 && GoodInode(n) && Slot(ino) + 28 <= |buf|
    ensures InodeAt(Put(buf, Slot(ino), InodeBytes(n, pad)), ino) == n
  {
    var b := InodeBytes(n, pad);
    hide InodeBytes, LE;
    Fields(n, pad);
    var r := Put(buf, Slot(ino), b);
    assert r[Slot(ino)..Slot(ino) + 28][20] == r[Slot(ino) + 20];
    WordIn(buf, Slot(ino), b, 0, n.inode);
    WordIn(buf, Slot(ino), b, 4, n.offset);
    WordIn(buf, Slot(ino), b, 8, n.mode);
    WordIn(buf, Slot(ino), b, 12, n.gid);
    WordIn(buf, Slot(ino), b, 16, n.uid);
    WordIn(buf, Slot(ino), b, 24, n.size);
  }

  function EntryPos(off: nat, i: nat): nat
  {
    off + 68 * i
  }

  /** Entry i of the directory whose entries start at off. */
  ghost predicate EntryIs(buf: seq<Byte>, off: nat, i: nat, ino: nat, name: seq<Byte>)
  {
    U32(buf, EntryPos(off, i)) == ino && |name| < FILENAME_LEN && StringAt(buf, EntryPos(off, i) + 4, name)
  }

  // ---- What an image of a tree looks like ---------------------------------

  function ChildIno(children: seq<Child>, j: nat, ino: nat): nat
    requires j <= |children|
  {
    ino + 1 + Counts(children, j)
  }

  function ChildOff(children: seq<Child>, j: nat, off: nat): nat
    requires j <= |children|
  {
    off + 68 * (|children| + HARDLINKS) + Sizes(children, j)
  }

  function InodeOf(t: Tree, ino: nat, off: nat): Inode
  {
    Inode(ino, off, t.attr.mode, t.attr.gid, t.attr.uid, if t.File? then FS_FILE else FS_DIRECTORY, OwnSize(t))
  }

  ghost predicate ChildEntry(buf: seq<Byte>, children: seq<Child>, j: nat, ino: nat, off: nat)
  {
    j < |children| ==> EntryIs(buf, off, j + HARDLINKS, ChildIno(children, j, ino), children[j].name)
  }

  /** The entries of the first n children. */
  ghost predicate EntriesDone(buf: seq<Byte>, children: seq<Child>, ino: nat, off: nat, n: nat)
  {
    forall j :: 0 <= j < n ==> ChildEntry(buf, children, j, ino, off)
  }

  /** Tree t stands in buf with inode ino and its contents at off: a pre-order numbering, contents in the same order. */
  ghost predicate Repr(buf: seq<Byte>, t: Tree, ino: nat, off: nat, parent: nat)
    decreases t
  {
    && Slot(ino) + 28 <= |buf| && off + Size(t) <= |buf|
    && InodeAt(buf, ino) == InodeOf(t, ino, off)
    && match t {
         case File(_, data) => buf[off..off + |data|] == data
         case Dir(_, children) =>
           && EntryIs(buf, off, 0, ino, [DOT])
           && EntryIs(buf, off, 1, parent, [DOT, DOT])
           && EntriesDone(buf, children, ino, off, |children|)
           && (forall j :: 0 <= j < |children| ==>
                 Repr(buf, children[j].node, ChildIno(children, j, ino), ChildOff(children, j, off), ino))
       }
  }

  lemma ReprInode(buf: seq<Byte>, t: Tree, ino: nat, off: nat, parent: nat)
    requires Repr(buf, t, ino, off, parent)
    ensures InodeAt(buf, ino) == InodeOf(t, ino, off) && off + Size(t) <= |buf|
    ensures t.File? ==> off + |t.data| <= |buf| && buf[off..off + |t.data|] == t.data
  {
    hide InodeAt;
  }

  lemma ReprChild(buf: seq<Byte>, t: Tree, ino: nat, off: nat, parent: nat, j: nat)
    requires Repr(buf, t, ino, off, parent) && t.Dir? && j < |t.children|
    ensures Repr(buf, t.children[j].node, ChildIno(t.children, j, ino), ChildOff(t.children, j, off), ino)
  {
    hide InodeAt;
  }

  // ---- Frames -------------------------------------------------------------

  lemma InodeFrame(buf: seq<Byte>, buf': seq<Byte>, ino: nat)
    requires Same(buf, buf', Slot(ino), Slot(ino + 1)) && Slot(ino) + 28 <= |buf|
    ensures InodeAt(buf', ino) == InodeAt(buf, ino)
    ensures Slot(ino) + 28 <= |buf'|
  {
    var p := Slot(ino);
    WordFrame(buf, buf', p);
    WordFrame(buf, buf', p + 4);
    WordFrame(buf, buf', p + 8);
    WordFrame(buf, buf', p + 12);
    WordFrame(buf, buf', p + 16);
    WordFrame(buf, buf', p + 24);
    assert buf[p + 20] == buf'[p + 20];
  }

  lemma EntryFrame(buf: seq<Byte>, buf': seq<Byte>, off: nat, i: nat, ino: nat, name: seq<Byte>)
    requires EntryIs(buf, off, i, ino, name) && Same(buf, buf', EntryPos(off, i), EntryPos(off, i + 1))
    ensures EntryIs(buf', off, i, ino, name)
  {
    WordFrame(buf, buf', EntryPos(off, i));
    StringFrame(buf, buf', EntryPos(off, i) + 4, name);
  }

  lemma EntriesFrame(buf: seq<Byte>, buf': seq<Byte>, children: seq<Child>, ino: nat, off: nat, n: nat)
    requires n <= |children| && Same(buf, buf', off, off + 68 * (n + HARDLINKS))
    requires EntriesDone(buf, children, ino, off, n)
    ensures EntriesDone(buf', children, ino, off, n)
  {
    forall j | 0 <= j < n
      ensures ChildEntry(buf', children, j, ino, off)
    {
      assert ChildEntry(buf, children, j, ino, off);
      assert EntryPos(off, j + HARDLINKS + 1) <= off + 68 * (n + HARDLINKS);
      EntryFrame(buf, buf', off, j + HARDLINKS, ChildIno(children, j, ino), children[j].name);
    }
  }

  lemma NextChild(children: seq<Child>, j: nat, ino: nat, off: nat)
    requires j < |children|
    ensures ChildIno(children, j + 1, ino) == ChildIno(children, j, ino) + Count(children[j].node)
    ensures ChildOff(children, j + 1, off) == ChildOff(children, j, off) + Size(children[j].node)
    ensures ino < ChildIno(children, j, ino) && off + 68 * (|children| + HARDLINKS) <= ChildOff(children, j, off)
    ensures ChildOff(children, 0, off) == off + 68 * (|children| + HARDLINKS)
    ensures EntryPos(off, j + HARDLINKS + 1) <= ChildOff(children, 0, off)
  {
  }

  /** Child j's inodes and contents lie within its parent's. */
  lemma ChildWithin(t: Tree, j: nat, ino: nat, off: nat)
    requires t.Dir? && j < |t.children|
    ensures ino < ChildIno(t.children, j, ino)
    ensures ChildIno(t.children, j, ino) + Count(t.children[j].node) <= ino + Count(t)
    ensures off + OwnSize(t) <= ChildOff(t.children, j, off)
    ensures ChildOff(t.children, j, off) + Size(t.children[j].node) <= off + Size(t)
  {
    SumsGrow(t.children, j, |t.children|);
  }

  /** A tree's image depends on its own inodes and its own contents only. */
  lemma {:induction false} ReprFrame(buf: seq<Byte>, buf': seq<Byte>, t: Tree, ino: nat, off: nat, parent: nat)
    requires Repr(buf, t, ino, off, parent)
    requires Same(buf, buf', Slot(ino), Slot(ino + Count(t))) && Same(buf, buf', off, off + Size(t))
    ensures Repr(buf', t, ino, off, parent)
    decreases t
  {
    hide EntryIs, InodeAt, StringAt, EntriesDone, Count, Counts, Sizes;
    InodeFrame(buf, buf', ino);
    match t {
      case File(_, data) =>
        assert forall i :: off <= i < off + |data| ==> buf'[i] == buf[i];
      case Dir(_, children) =>
        EntryFrame(buf, buf', off, 0, ino, [DOT]);
        EntryFrame(buf, buf', off, 1, parent, [DOT, DOT]);
        EntriesFrame(buf, buf', children, ino, off, |children|);
        forall j | 0 <= j < |children|
          ensures Repr(buf', children[j].node, ChildIno(children, j, ino), ChildOff(children, j, off), ino)
        {
          ChildWithin(t, j, ino, off);
          ReprFrame(buf, buf', children[j].node, ChildIno(children, j, ino), ChildOff(children, j, off), ino);
        }
    }
  }
}

/** tools/mkinitrd/main.c: one growing buffer, inodes numbered as they are met, directories patched as children return. */
module InitrdWriter {

  import opened Bytes
  import opened InitrdLayout
  import opened Names

  /** Everything outside [lo, hi) is as it was. */
  ghost predicate Outside(buf: seq<Byte>, buf': seq<Byte>, lo: int, hi: int)
  {
    Same(buf, buf', 0, lo) && Same(buf, buf', hi, |buf|)
  }

  // ---- A directory under construction -------------------------------------

  ghost predicate KidsDone(buf: seq<Byte>, children: seq<Child>, ino: nat, off: nat, j: nat)
    requires j <= |children|
  {
    forall k :: 0 <= k < j ==> Repr(buf, children[k].node, ChildIno(children, k, ino), ChildOff(children, k, off), ino)
  }

  /** The directory's contents are right as far as its first j children. */
  ghost predicate Done(buf: seq<Byte>, children: seq<Child>, ino: nat, off: nat, parent: nat, j: nat)
    requires j <= |children|
  {
    && EntryIs(buf, off, 0, ino, [DOT]) && EntryIs(buf, off, 1, parent, [DOT, DOT])
    && EntriesDone(buf, children, ino, off, j) && KidsDone(buf, children, ino, off, j)
  }

  lemma DoneFrame(buf: seq<Byte>, buf': seq<Byte>, children: seq<Child>, ino: nat, off: nat, parent: nat, j: nat)
    requires j <= |children| && Done(buf, children, ino, off, parent, j)
    requires Same(buf, buf', Slot(ino + 1), Slot(ChildIno(children, j, ino)))
    requires Same(buf, buf', off, EntryPos(off, j + HARDLINKS))
    requires Same(buf, buf', ChildOff(children, 0, off), ChildOff(children, j, off))
    ensures Done(buf', children, ino, off, parent, j)
  {
    hide KidsDone, EntriesDone, EntryIs;
    EntryFrame(buf, buf', off, 0, ino, [DOT]);
    EntryFrame(buf, buf', off, 1, parent, [DOT, DOT]);
    EntriesFrame(buf, buf', children, ino, off, j);
    KidsFrame(buf, buf', children, ino, off, j);
  }

  lemma KidsFrame(buf: seq<Byte>, buf': seq<Byte>, children: seq<Child>, ino: nat, off: nat, j: nat)
    requires j <= |children| && KidsDone(buf, children, ino, off, j)
    requires Same(buf, buf', Slot(ino + 1), Slot(ChildIno(children, j, ino)))
    requires Same(buf, buf', ChildOff(children, 0, off), ChildOff(children, j, off))
    ensures KidsDone(buf', children, ino, off, j)
  {
    hide Repr, Count, Counts, Size, Sizes;
    forall k | 0 <= k < j
      ensures Repr(buf', children[k].node, ChildIno(children, k, ino), ChildOff(children, k, off), ino)
    {
      SumsGrow(children, k, j);
      SumsGrow(children, 0, k);
      ReprFrame(buf, buf', children[k].node, ChildIno(children, k, ino), ChildOff(children, k, off), ino);
    }
  }

  /** The name goes into entry j before the child is written. */
  lemma NameStep(buf: seq<Byte>, buf': seq<Byte>, children: seq<Child>, ino: nat, off: nat, parent: nat, j: nat, name: seq<Byte>)
    requires j < |children| && Done(buf, children, ino, off, parent, j) && Slot(ChildIno(children, j, ino)) <= off
    requires |buf| == |buf'| && Outside(buf, buf', EntryPos(off, j + HARDLINKS), EntryPos(off, j + HARDLINKS + 1))
    ensures Done(buf', children, ino, off, parent, j)
  {
    hide Done, Counts, Sizes;
    NextChild(children, j, ino, off);
    DoneFrame(buf, buf', children, ino, off, parent, j);
  }

  /** The child is written behind, with inodes behind those in use. */
  lemma ChildStep(buf: seq<Byte>, buf': seq<Byte>, children: seq<Child>, ino: nat, off: nat, parent: nat, j: nat)
    requires j < |children| && Done(buf, children, ino, off, parent, j)
    requires |buf| == ChildOff(children, j, off) && Slot(ChildIno(children, j + 1, ino)) <= off
    requires Outside(buf, buf', Slot(ChildIno(children, j, ino)), Slot(ChildIno(children, j + 1, ino)))
    ensures Done(buf', children, ino, off, parent, j)
  {
    DoneFrame(buf, buf', children, ino, off, parent, j);
  }

  /** The child's number goes into entry j after the child has been written. */
  lemma NumberStep(buf: seq<Byte>, buf': seq<Byte>, children: seq<Child>, ino: nat, off: nat, parent: nat, j: nat)
    requires j < |children| && Done(buf, children, ino, off, parent, j) && Slot(ChildIno(children, j + 1, ino)) <= off
    requires Repr(buf, children[j].node, ChildIno(children, j, ino), ChildOff(children, j, off), ino)
    requires |buf| == |buf'| && Outside(buf, buf', EntryPos(off, j + HARDLINKS), EntryPos(off, j + HARDLINKS + 1))
    requires ChildEntry(buf', children, j, ino, off)
    ensures Done(buf', children, ino, off, parent, j + 1)
  {
    hide Repr, ChildEntry, Count, Size, Counts, Sizes, Done;
    NextChild(children, j, ino, off);
    DoneFrame(buf, buf', children, ino, off, parent, j);
    ReprFrame(buf, buf', children[j].node, ChildIno(children, j, ino), ChildOff(children, j, off), ino);
    DoneNext(buf', children, ino, off, parent, j);
  }

  lemma DoneNext(buf: seq<Byte>, children: seq<Child>, ino: nat, off: nat, parent: nat, j: nat)
    requires j < |children| && Done(buf, children, ino, off, parent, j) && ChildEntry(buf, children, j, ino, off)
    requires Repr(buf, children[j].node, ChildIno(children, j, ino), ChildOff(children, j, off), ino)
    ensures Done(buf, children, ino, off, parent, j + 1)
  {
    hide Repr, ChildEntry, EntryIs;
  }

  /** The directory's own inode is stored last. */
  lemma DirStep(buf: seq<Byte>, buf': seq<Byte>, t: Tree, ino: nat, off: nat, parent: nat)
    requires t.Dir? && Done(buf, t.children, ino, off, parent, |t.children|) && |buf| == |buf'| == off + Size(t)
    requires Outside(buf, buf', Slot(ino), Slot(ino + 1)) && Slot(ino + Count(t)) <= off
    requires InodeAt(buf', ino) == InodeOf(t, ino, off)
    ensures Repr(buf', t, ino, off, parent)
  {
    hide Done, InodeAt;
    DoneFrame(buf, buf', t.children, ino, off, parent, |t.children|);
    ReprOfDone(buf', t, ino, off, parent);
  }

  lemma ReprOfDone(buf: seq<Byte>, t: Tree, ino: nat, off: nat, parent: nat)
    requires t.Dir? && Done(buf, t.children, ino, off, parent, |t.children|) && |buf| == off + Size(t)
    requires Slot(ino + Count(t)) <= off && InodeAt(buf, ino) == InodeOf(t, ino, off)
    ensures Repr(buf, t, ino, off, parent)
  {
    hide EntryIs, EntriesDone, InodeAt;
  }

  lemma EntryFrames(buf0: seq<Byte>, buf1: seq<Byte>, buf2: seq<Byte>, buf3: seq<Byte>, lo: nat, hi: nat, off: nat, p: nat, name: seq<Byte>)
    requires Outside(buf0, buf1, p, p + 68) && Outside(buf1, buf2, lo, hi) && Outside(buf2, buf3, p, p + 68)
    requires lo <= hi <= off <= p && Same(buf2, buf3, p + 4, p + 68)
    requires StringAt(buf1, p + 4, name) && |name| < FILENAME_LEN
    ensures Same(buf0, buf3, 0, lo) && Same(buf0, buf3, hi, off) && StringAt(buf3, p + 4, name)
  {
    StringFrame(buf1, buf2, p + 4, name);
    StringFrame(buf2, buf3, p + 4, name);
  }

  lemma DoneStart(buf: seq<Byte>, children: seq<Child>, ino: nat, off: nat, parent: nat)
    requires EntryIs(buf, off, 0, ino, [DOT]) && EntryIs(buf, off, 1, parent, [DOT, DOT])
    ensures Done(buf, children, ino, off, parent, 0)
  {
  }

  lemma DirTotals(t: Tree, ino: nat, off: nat)
    requires t.Dir?
    ensures ChildIno(t.children, 0, ino) == ino + 1 && ChildOff(t.children, 0, off) == off + 68 * (|t.children| + HARDLINKS)
    ensures ChildIno(t.children, |t.children|, ino) == ino + Count(t)
    ensures ChildOff(t.children, |t.children|, off) == off + Size(t)
    ensures 68 * (|t.children| + HARDLINKS) == OwnSize(t) <= Size(t)
  {
  }

  lemma GoodOwnInode(t: Tree, ino: nat, off: nat)
    requires GoodTree(t) && ino < WORD_LIMIT && off + Size(t) < WORD_LIMIT
    ensures GoodInode(InodeOf(t, ino, off))
  {
  }

  class Writer {
    var filebuf: seq<Byte>
    var tmpInode: nat
    var entries: nat
    const inodecount: nat

    constructor (count: nat)
      ensures filebuf == [] && tmpInode == 0 && entries == 0 && inodecount == count
    {
      filebuf, tmpInode, entries, inodecount := [], 0, 0, count;
    }

    /** The new bytes hold whatever realloc left there. */
    method ExpandInitrd(diff: nat) returns (at: nat)
      modifies this`filebuf
      ensures at == |old(filebuf)| && |filebuf| == at + diff && filebuf[..at] == old(filebuf)
    {
      at := |filebuf|;
      var junk: seq<Byte> :| |junk| == diff by {
        assert |seq(diff, i => 0 as Byte)| == diff;
      }
      filebuf := filebuf + junk;
    }

    method Write(at: nat, s: seq<Byte>)
      requires at + |s| <= |filebuf|
      modifies this`filebuf
      ensures filebuf == Put(old(filebuf), at, s)
    {
      filebuf := Put(filebuf, at, s);
    }

    method CreateInode(attr: Attr, flags: Byte, size: nat) returns (n: Inode)
      modifies this`tmpInode
      ensures n == Inode(old(tmpInode), |filebuf|, attr.mode, attr.gid, attr.uid, flags, size)
      ensures tmpInode == old(tmpInode) + 1
    {
      n := Inode(tmpInode, |filebuf|, attr.mode, attr.gid, attr.uid, flags, size);
      tmpInode := tmpInode + 1;
    }

    /** The three bytes of padding are whatever stood on the stack. */
    method StoreInode(n: Inode)
      requires GoodInode(n) && Slot(n.inode + 1) <= |filebuf|
      modifies this`filebuf
      ensures InodeAt(filebuf, n.inode) == n && |filebuf| == |old(filebuf)|
      ensures Outside(old(filebuf), filebuf, Slot(n.inode), Slot(n.inode + 1))
    {
      var pad: seq<Byte> :| |pad| == 3 by {
        assert |[0 as Byte, 0, 0]| == 3;
      }
      InodeRoundTrip(filebuf, n.inode, n, pad);
      Write(Slot(n.inode), InodeBytes(n, pad));
    }

    /** strcpy into the name field of an entry. */
    method NameEntry(off: nat, i: nat, name: seq<Byte>)
      requires |name| < FILENAME_LEN && NulFree(name) && EntryPos(off, i + 1) <= |filebuf|
      modifies this`filebuf
      ensures |filebuf| == |old(filebuf)| && StringAt(filebuf, EntryPos(off, i) + 4, name)
      ensures U32(filebuf, EntryPos(off, i)) == U32(old(filebuf), EntryPos(off, i))
      ensures Outside(old(filebuf), filebuf, EntryPos(off, i), EntryPos(off, i + 1))
    {
      var at := EntryPos(off, i) + 4;
      ghost var was := filebuf;
      Write(at, name + [0]);
      forall k | 0 <= k <= |name|
        ensures filebuf[at + k] == (name + [0])[k]
      {
        assert filebuf[at + k] == filebuf[at..at + |name| + 1][k];
      }
    }

    /** memset and strcpy. */
    method SetName(off: nat, i: nat, name: seq<Byte>)
      requires |name| < FILENAME_LEN && NulFree(name) && EntryPos(off, i + 1) <= |filebuf|
      modifies this`filebuf
      ensures |filebuf| == |old(filebuf)| && StringAt(filebuf, EntryPos(off, i) + 4, name)
      ensures Outside(old(filebuf), filebuf, EntryPos(off, i), EntryPos(off, i + 1))
    {
      Write(EntryPos(off, i) + 4, seq(FILENAME_LEN, k => 0));
      NameEntry(off, i, name);
    }

    method NumberEntry(off: nat, i: nat, ino: nat)
      requires ino < WORD_LIMIT && EntryPos(off, i + 1) <= |filebuf|
      modifies this`filebuf
      ensures |filebuf| == |old(filebuf)| && U32(filebuf, EntryPos(off, i)) == ino
      ensures Outside(old(filebuf), filebuf, EntryPos(off, i), EntryPos(off, i + 1))
      ensures Same(old(filebuf), filebuf, EntryPos(off, i) + 4, EntryPos(off, i + 1))
    {
      WordIn(filebuf, EntryPos(off, i), LE(ino), 0, ino);
      Write(EntryPos(off, i), LE(ino));
    }

    /** A hard link: to the directory itself, or to its parent. */
    method LinkEntry(off: nat, i: nat, ino: nat, name: seq<Byte>)
      requires ino < WORD_LIMIT && |name| < FILENAME_LEN && NulFree(name) && EntryPos(off, i + 1) <= |filebuf|
      modifies this`filebuf, this`entries
      ensures |filebuf| == |old(filebuf)| && EntryIs(filebuf, off, i, ino, name) && entries == old(entries) + 1
      ensures Outside(old(filebuf), filebuf, EntryPos(off, i), EntryPos(off, i + 1))
    {
      NumberEntry(off, i, ino);
      NameEntry(off, i, name);
      entries := entries + 1;
    }

    method StoreHeader()
      requires 12 <= |filebuf| && inodecount < WORD_LIMIT
      modifies this`filebuf
      ensures |filebuf| == |old(filebuf)| && Same(old(filebuf), filebuf, 12, |filebuf|)
      ensures U32(filebuf, 0) == INITRD_MAGIC && U32(filebuf, 4) == inodecount && U32(filebuf, 8) == entries % WORD_LIMIT
    {
      var header := LE(INITRD_MAGIC) + LE(inodecount) + LE(entries % WORD_LIMIT);
      assert header[0..4] == LE(INITRD_MAGIC) && header[4..8] == LE(inodecount);
      assert header[8..12] == LE(entries % WORD_LIMIT);
      hide LE;
      WordIn(filebuf, 0, header, 0, INITRD_MAGIC);
      WordIn(filebuf, 0, header, 4, inodecount);
      WordIn(filebuf, 0, header, 8, entries % WORD_LIMIT);
      Write(0, header);
    }

    /** There is room for the tree's inodes in the table, and 32 bits for its offsets. */
    ghost predicate Room(t: Tree)
      reads this
    {
      && Slot(tmpInode + Count(t)) <= Slot(inodecount) <= |filebuf|
      && |filebuf| + Size(t) < WORD_LIMIT && inodecount < WORD_LIMIT
    }

    method SaveFile(t: Tree, parent: nat) returns (ino: nat)
      requires GoodTree(t) && Room(t) && parent < WORD_LIMIT
      modifies this
      ensures ino == old(tmpInode) && tmpInode == ino + Count(t) && |filebuf| == |old(filebuf)| + Size(t)
      ensures entries == old(entries) + Links(t)
      ensures Repr(filebuf, t, ino, |old(filebuf)|, parent)
      ensures Outside(old(filebuf), filebuf, Slot(ino), Slot(ino + Count(t)))
      decreases t, 3
    {
      hide Repr, Outside, Count, Size;
      if t.Dir? {
        ino := SaveDir(t, parent);
      } else {
        ino := SaveData(t, parent);
      }
    }

    method SaveData(t: Tree, ghost parent: nat) returns (ino: nat)
      requires t.File? && GoodTree(t) && Room(t)
      modifies this
      ensures ino == old(tmpInode) && tmpInode == ino + Count(t) && |filebuf| == |old(filebuf)| + Size(t)
      ensures entries == old(entries) + Links(t)
      ensures Repr(filebuf, t, ino, |old(filebuf)|, parent)
      ensures Outside(old(filebuf), filebuf, Slot(ino), Slot(ino + Count(t)))
    {
      var inode := CreateInode(t.attr, FS_FILE, |t.data|);
      entries := entries + 1;
      var data := ExpandInitrd(inode.size);
      Write(data, t.data);
      ghost var full := filebuf;
      StoreInode(inode);
      ino := inode.inode;
      assert filebuf[data..data + |t.data|] == t.data by {
        assert full[data..data + |t.data|] == t.data;
        assert forall i :: data <= i < data + |t.data| ==> filebuf[i] == full[i];
      }
    }

    /** Child i of a directory that is done as far as that. */
    method SaveEntry(t: Tree, i: nat, ino: nat, off: nat, up: nat)
      requires t.Dir? && GoodTree(t) && i < |t.children|
      requires Slot(ino + Count(t)) <= Slot(inodecount) <= off && inodecount < WORD_LIMIT && off + Size(t) < WORD_LIMIT
      requires |filebuf| == ChildOff(t.children, i, off) && tmpInode == ChildIno(t.children, i, ino)
      requires Done(filebuf, t.children, ino, off, up, i)
      modifies this
      ensures |filebuf| == ChildOff(t.children, i + 1, off) && tmpInode == ChildIno(t.children, i + 1, ino)
      ensures entries == old(entries) + Links(t.children[i].node)
      ensures Done(filebuf, t.children, ino, off, up, i + 1)
      ensures Same(old(filebuf), filebuf, 0, Slot(old(tmpInode))) && Same(old(filebuf), filebuf, Slot(tmpInode), off)
      ensures Slot(old(tmpInode)) <= Slot(tmpInode) <= off
      decreases t, 1
    {
      hide Repr, GoodTree, Done, Count, Size, Counts, Sizes, Outside;
      var children := t.children;
      var child := children[i];
      ChildWithin(t, i, ino, off);
      GoodChild(t, i);
      NextChild(children, i, ino, off);
      ghost var buf0 := filebuf;
      SetName(off, i + HARDLINKS, child.name);
      ghost var buf1 := filebuf;
      NameStep(buf0, buf1, children, ino, off, up, i, child.name);
      var number := SaveFile(child.node, ino);
      ghost var buf2 := filebuf;
      ChildStep(buf1, buf2, children, ino, off, up, i);
      NumberEntry(off, i + HARDLINKS, number);
      EntryFrames(buf0, buf1, buf2, filebuf, Slot(number), Slot(tmpInode), off, EntryPos(off, i + HARDLINKS), child.name);
      NumberStep(buf2, filebuf, children, ino, off, up, i);
    }

    /** A directory's inode, its room in the buffer and its two hard links. */
    method OpenDir(t: Tree, up: nat) returns (inode: Inode)
      requires t.Dir? && GoodTree(t) && Room(t) && up < WORD_LIMIT
      modifies this
      ensures inode == InodeOf(t, old(tmpInode), |old(filebuf)|) && tmpInode == inode.inode + 1
      ensures entries == old(entries) + 1 + HARDLINKS
      ensures |filebuf| == inode.offset + 68 * (|t.children| + HARDLINKS)
      ensures Same(old(filebuf), filebuf, 0, inode.offset)
      ensures Done(filebuf, t.children, inode.inode, inode.offset, up, 0)
    {
      hide Done, EntryIs, Size, Sizes, Counts;
      DirTotals(t, tmpInode, |filebuf|);
      entries := entries + 1;
      inode := CreateInode(t.attr, FS_DIRECTORY, 0);
      inode := inode.(size := 68 * (|t.children| + HARDLINKS));
      var off := ExpandInitrd(inode.size);
      LinkEntry(off, 0, inode.inode, [DOT]);
      ghost var first := filebuf;
      LinkEntry(off, 1, up, [DOT, DOT]);
      EntryFrame(first, filebuf, off, 0, inode.inode, [DOT]);
      DoneStart(filebuf, t.children, inode.inode, off, up);
    }

    /** parent is -1 for the root, which is its own parent. */
    method SaveDir(t: Tree, parent: int) returns (ino: nat)
      requires t.Dir? && GoodTree(t) && Room(t) && -1 <= parent < WORD_LIMIT
      modifies this
      ensures ino == old(tmpInode) && tmpInode == ino + Count(t) && |filebuf| == |old(filebuf)| + Size(t)
      ensures entries == old(entries) + Links(t)
      ensures Repr(filebuf, t, ino, |old(filebuf)|, if parent == -1 then ino else parent)
      ensures Outside(old(filebuf), filebuf, Slot(ino), Slot(ino + Count(t)))
      decreases t, 2
    {
      hide Repr, Done, Count, Size, Counts, Sizes, InodeAt, GoodTree;
      DirTotals(t, tmpInode, |filebuf|);
      var up := if parent == -1 then tmpInode else parent;
      var inode := OpenDir(t, up);
      ino := inode.inode;
      ghost var start := filebuf;
      var i := 0;
      while i < |t.children|
        invariant 0 <= i <= |t.children|
        invariant |filebuf| == ChildOff(t.children, i, inode.offset) && tmpInode == ChildIno(t.children, i, ino)
        invariant Done(filebuf, t.children, ino, inode.offset, up, i)
        invariant entries == old(entries) + 1 + HARDLINKS + LinkSum(t.children, i)
        invariant Same(start, filebuf, 0, Slot(ino + 1)) && Same(start, filebuf, Slot(tmpInode), inode.offset)
      {
        SaveEntry(t, i, ino, inode.offset, up);
        i := i + 1;
      }
      ghost var full := filebuf;
      GoodOwnInode(t, ino, inode.offset);
      StoreInode(inode);
      DirStep(full, filebuf, t, ino, inode.offset, up);
    }
  }

  /** Everything below a directory, without the directory; only its children when not recursive. */
  method CountOfInodes(t: Tree, recursive: bool) returns (res: nat)
    requires t.Dir?
    ensures res == if recursive then Count(t) - 1 else |t.children|
    decreases t
  {
    res := 0;
    var i := 0;
    while i < |t.children|
      invariant 0 <= i <= |t.children|
      invariant res == if recursive then Counts(t.children, i) else i
    {
      if t.children[i].node.Dir? && recursive {
        var below := CountOfInodes(t.children[i].node, true);
        res := res + below;
      }
      res := res + 1;
      i := i + 1;
    }
  }

  /**
    The whole image. Every counted inode is issued, and the contents of files and directories fill the image
    behind the inode table exactly.
   */
  method MakeInitrd(t: Tree) returns (image: seq<Byte>)
    requires t.Dir? && GoodTree(t) && Slot(Count(t)) + Size(t) < WORD_LIMIT
    ensures U32(image, 0) == INITRD_MAGIC && U32(image, 4) == Count(t)
    ensures U32(image, 8) == Links(t) % WORD_LIMIT
    ensures |image| == Slot(Count(t)) + Size(t)
    ensures Repr(image, t, 0, Slot(Count(t)), 0)
  {
    hide Repr, GoodTree, Count, Size, Links;
    var below := CountOfInodes(t, true);
    var w := new Writer(below + 1);
    var at := w.ExpandInitrd(12 + w.inodecount * 28);
    w.Write(12, seq(w.inodecount * 28, i => 0));
    var root := w.SaveDir(t, -1);
    assert w.tmpInode == w.inodecount;
    ghost var body := w.filebuf;
    w.StoreHeader();
    image := w.filebuf;
    ReprFrame(body, image, t, 0, Slot(Count(t)), 0);
  }
}

/** The initrd file system as the kernel reads it (src/fs/initrdfs), and what it makes of an image of a tree. */
module InitrdReader {

  import opened Bytes
  import opened Options
  import opened InitrdLayout
  import opened Names

  // ---- Inodes, directories, contents --------------------------------------

  /** A vnode remembers the slot its own number leads to; numbers past the table leave it unfilled. */
  function ReadInode(buf: seq<Byte>, ino: nat): Option<Inode>
  {
    if ino > U32(buf, 4) then None else Some(InodeAt(buf, InodeAt(buf, ino).inode))
  }

  function EntryName(buf: seq<Byte>, off: nat, i: nat): seq<Byte>
  {
    CString(buf, EntryPos(off, i) + 4)
  }

  /** The last of the first n entries whose name matches, n when none does. */
  function FindName(buf: seq<Byte>, off: nat, n: nat, i: nat, name: seq<Byte>): (r: nat)
    requires i <= n
    ensures r == n || (r < i && Component(EntryName(buf, off, r)) == Component(name))
    ensures forall k :: 0 <= k < i && (r < k || r == n) ==> Component(EntryName(buf, off, k)) != Component(name)
    decreases i
  {
    if i == 0 then n
    else if Component(EntryName(buf, off, i - 1)) == Component(name) then i - 1
    else FindName(buf, off, n, i - 1, name)
  }

  /** The number of the inode a directory knows under a name. */
  function LookupIn(buf: seq<Byte>, d: Inode, name: seq<Byte>): Option<nat>
  {
    var n := d.size / 68;
    var i := FindName(buf, d.offset, n, n, name);
    if i < n then Some(U32(buf, EntryPos(d.offset, i))) else None
  }

  method Lookup(buf: seq<Byte>, d: Inode, name: seq<Byte>) returns (r: Option<nat>)
    ensures r == LookupIn(buf, d, name)
  {
    var n := d.size / 68;
    var i := n;
    while i > 0
      invariant 0 <= i <= n
      invariant FindName(buf, d.offset, n, i, name) == FindName(buf, d.offset, n, n, name)
    {
      i := i - 1;
      var match_ := NameiMatch(name, EntryName(buf, d.offset, i));
      if match_ {
        return Some(U32(buf, EntryPos(d.offset, i)));
      }
    }
    r := None;
  }

  /** Number, type and name (63 bytes at most) of a directory's entry. */
  function ReadDir(buf: seq<Byte>, d: Inode, index: nat): Option<(nat, Byte, seq<Byte>)>
  {
    if index >= d.size / 68 then None
    else
      var ino := U32(buf, EntryPos(d.offset, index));
      var name := EntryName(buf, d.offset, index);
      Some((ino, InodeAt(buf, ino).flags, if |name| < FILENAME_LEN then name else name[..FILENAME_LEN - 1]))
  }

  /** The contents of an inode lie inside the image. */
  predicate Inside(buf: seq<Byte>, n: Inode)
  {
    n.offset + n.size <= |buf|
  }

  function Content(buf: seq<Byte>, n: Inode): seq<Byte>
    requires Inside(buf, n)
  {
    buf[n.offset..n.offset + n.size]
  }

  function Min(a: nat, b: nat): nat
  {
    if a < b then a else b
  }

  /** As much of size bytes from offset on as there is. */
  function Part(content: seq<Byte>, offset: nat, size: nat): seq<Byte>
  {
    content[Min(offset, |content|)..Min(offset + size, |content|)]
  }

  /** Two reads in a row are one read. */
  lemma PartsJoin(content: seq<Byte>, offset: nat, a: nat, b: nat)
    ensures Part(content, offset, a) + Part(content, offset + |Part(content, offset, a)|, b) == Part(content, offset, a + b)
  {
  }

  function Sum(sizes: seq<nat>): nat
  {
    if sizes == [] then 0 else Sum(sizes[..|sizes| - 1]) + sizes[|sizes| - 1]
  }

  /** A FILE on an initrd inode: every read moves its offset by as much as it returned. */
  class OpenFile {
    const node: Inode
    var offset: nat

    constructor (n: Inode)
      ensures node == n && offset == 0
    {
      node, offset := n, 0;
    }

    /** initrd_read: the request is clipped at the end of the file. */
    method InitrdRead(buf: seq<Byte>, at: nat, request: nat) returns (data: seq<Byte>)
      requires Inside(buf, node)
      ensures data == Part(Content(buf, node), at, request)
    {
      var size := request;
      if at > node.size {
        return [];
      }
      if at + size > node.size {
        size := node.size - at;
      }
      var from := node.offset + at;
      data := buf[from..from + size];
    }

    /** A read comes up short only at the end of the file. */
    method SysRead(buf: seq<Byte>, size: nat) returns (data: seq<Byte>)
      requires Inside(buf, node)
      modifies this
      ensures data == Part(Content(buf, node), old(offset), size) && |data| <= size
      ensures offset == old(offset) + |data| && (|data| < size ==> node.size <= offset)
    {
      data := InitrdRead(buf, offset, size);
      offset := offset + |data|;
    }

    /** One read after the other: together they give the file from the offset on, up to its end. */
    method ReadAll(buf: seq<Byte>, sizes: seq<nat>) returns (data: seq<Byte>)
      requires Inside(buf, node)
      modifies this
      ensures data == Part(Content(buf, node), old(offset), Sum(sizes)) && offset == old(offset) + |data|
    {
      hide Part;
      data := [];
      ghost var content := Content(buf, node);
      assert data == Part(content, offset, 0) by { PartOfNothing(content, offset); }
      var i := 0;
      while i < |sizes|
        invariant 0 <= i <= |sizes|
        invariant data == Part(content, old(offset), Sum(sizes[..i])) && offset == old(offset) + |data|
      {
        PartsJoin(content, old(offset), Sum(sizes[..i]), sizes[i]);
        assert sizes[..i + 1][..i] == sizes[..i];
        var more := SysRead(buf, sizes[i]);
        data := data + more;
        i := i + 1;
      }
      assert sizes[..i] == sizes;
    }
  }

  lemma PartOfNothing(content: seq<Byte>, offset: nat)
    ensures Part(content, offset, 0) == []
  {
  }
}

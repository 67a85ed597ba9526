/**
  The frame bitmap, page tables and page directories of src/mm/paging.c as one value, what each
  operation makes of it, and who owns which frame afterwards.

  Tables and directories are objects in kernel memory, so they are kept by address and a directory
  refers to its tables by pointer. That is what lets two directories share one table.
 */
module AddressSpace {
  import opened Limits
  import opened FrameMap

  const ENTRIES: nat := 1024
  const PAGES: nat := ENTRIES * ENTRIES
  const TABLE_SIZE: nat := 0x1000
  const DIRECTORY_SIZE: nat := 0x2004

  const IPC_MEMSIZE: nat := 0x40_0000

  const PAGE_FLAG_PRESENT: nat := 1
  const PAGE_FLAG_WRITE: nat := 2
  const PAGE_FLAG_USERMODE: nat := 4

  datatype Page = Page(flags: nat, frame: nat)

  type Table = t: seq<Page> | |t| == ENTRIES witness seq(ENTRIES, _ => Page(0, 0))

  function EmptyTable(): Table
  {
    seq(ENTRIES, _ => Page(0, 0))
  }

  /** tables[i] is a pointer, 0 for none; physTabs[i] its physical address with flags in the low bits. */
  datatype Directory = Directory(physTabs: seq<nat>, physPos: nat, tables: seq<nat>)

  /** The words of one frame. */
  type FrameData = seq<int>

  datatype Memory = Memory(
    fm: seq<Word>,
    ram: seq<FrameData>,
    tables: map<nat, Table>,
    dirs: map<nat, Directory>,
    kernel: nat,
    pos: nat)

  function EmptyWord(): Word
  {
    seq(32, _ => false)
  }

  /** What setup_paging starts from: an empty bitmap and an empty kernel directory. */
  function BootMemory(memStart: nat, memEnd: nat): Memory
  {
    var framecount := memEnd / FRAME_SIZE;
    var p := AlignUp(memStart + IPC_MEMSIZE + framecount / 8);
    var none := seq(ENTRIES, _ => 0);
    Memory(seq(framecount / 32, _ => EmptyWord()), seq(32 * (framecount / 32), _ => []), map[],
           map[p := Directory(none, p, none)], p, p + DIRECTORY_SIZE)
  }

  // ---- Shape --------------------------------------------------------------

  ghost predicate Shaped(m: Memory)
  {
    && 32 * |m.fm| == |m.ram| <= 0x10_0000
    && 0 < m.pos
    && (forall t :: t in m.tables ==> 0 < t < m.pos)
    && (forall d :: d in m.dirs ==> d < m.pos && |m.dirs[d].physTabs| == |m.dirs[d].tables| == ENTRIES)
    && m.kernel in m.dirs
  }

  ghost predicate Links(m: Memory, d: int, i: int, t: int)
  {
    d in m.dirs && 0 <= i < |m.dirs[d].tables| && m.dirs[d].tables[i] == t && t != 0
  }

  /** Every table is linked; it is linked twice only by sharing the kernel's slot. */
  ghost predicate Linked(m: Memory)
  {
    && Shaped(m)
    && (forall d, i: nat :: d in m.dirs && i < ENTRIES ==> (m.dirs[d].tables[i] == 0 <==> m.dirs[d].physTabs[i] == 0))
    && (forall d, i, t :: Links(m, d, i, t) ==> t in m.tables)
    && (forall t :: t in m.tables ==> exists d, i :: Links(m, d, i, t))
    && (forall d, i, t, d', i' :: Links(m, d, i, t) && Links(m, d', i', t) ==>
          i == i' && (d == d' || m.dirs[m.kernel].tables[i] == t))
  }

  // ---- Ownership ----------------------------------------------------------

  ghost predicate Holds(m: Memory, t: int, k: int, f: int)
  {
    t in m.tables && 0 <= k < ENTRIES && m.tables[t][k].frame == f
  }

  /** Frame 0 reads as "unmapped", so ownership is a matter of the frames from 1 on. */
  ghost predicate Owned(m: Memory)
  {
    && Shaped(m)
    && (forall t, k, f :: Holds(m, t, k, f) && f != 0 ==> f < |m.ram| && Used(m.fm, f))
    && (forall f: nat :: 0 < f < |m.ram| && Used(m.fm, f) ==> exists t, k :: Holds(m, t, k, f))
    && (forall t, k, t', k', f :: f != 0 && Holds(m, t, k, f) && Holds(m, t', k', f) ==> t == t' && k == k')
  }

  ghost predicate Sound(m: Memory)
  {
    Owned(m) && Linked(m)
  }

  ghost predicate FrameZeroTaken(m: Memory)
  {
    0 < |m.fm| && Used(m.fm, 0)
  }

  ghost predicate HasFree(m: Memory)
  {
    FreeFrames(m.fm) != {}
  }

  lemma FreeFrameIsFound(m: Memory)
    requires Shaped(m) && HasFree(m)
    ensures FirstFree(m.fm, 0) != NO_FRAME
  {
    var f :| f in FreeFrames(m.fm);
  }

  /** The entry of page p in directory d, all zeros when it has no table for it. */
  function EntryOf(m: Memory, d: nat, p: nat): Page
    requires Linked(m) && d in m.dirs && p < PAGES
  {
    var t := m.dirs[d].tables[p / ENTRIES];
    assert t != 0 ==> Links(m, d, p / ENTRIES, t);
    if t == 0 then Page(0, 0) else m.tables[t][p % ENTRIES]
  }

  /** The frame a directory translates page p to, 0 when it has none. */
  function FrameOf(m: Memory, d: nat, p: nat): nat
    requires Linked(m) && d in m.dirs && p < PAGES
  {
    EntryOf(m, d, p).frame
  }

  /** Two mapped pages share a frame only as one page of the kernel's own tables. */
  lemma NoFrameIsShared(m: Memory, d: nat, p: nat, d': nat, p': nat)
    requires Sound(m) && d in m.dirs && d' in m.dirs
    requires p < PAGES && p' < PAGES
    requires FrameOf(m, d, p) == FrameOf(m, d', p') != 0
    ensures p == p'
    ensures d == d' || m.dirs[d].tables[p / ENTRIES] == m.dirs[m.kernel].tables[p / ENTRIES]
  {
    var t, t' := m.dirs[d].tables[p / ENTRIES], m.dirs[d'].tables[p' / ENTRIES];
    assert Links(m, d, p / ENTRIES, t) && Links(m, d', p' / ENTRIES, t');
    assert Holds(m, t, p % ENTRIES, FrameOf(m, d, p)) && Holds(m, t', p' % ENTRIES, FrameOf(m, d, p));
  }

  /** A frame from 1 on is marked in the bitmap exactly when some address space maps it. */
  lemma MarkedExactlyWhenMapped(m: Memory, f: nat)
    requires Sound(m) && 0 < f < |m.ram|
    ensures Used(m.fm, f) <==> exists d: nat, p: nat :: d in m.dirs && p < PAGES && FrameOf(m, d, p) == f
  {
    if Used(m.fm, f) {
      var t, k :| Holds(m, t, k, f);
      var d, i :| Links(m, d, i, t);
      var p := i * ENTRIES + k;
      assert p / ENTRIES == i && p % ENTRIES == k;
      assert FrameOf(m, d, p) == f;
    }
    forall d: nat, p: nat | d in m.dirs && p < PAGES && FrameOf(m, d, p) == f
      ensures Used(m.fm, f)
    {
      var t := m.dirs[d].tables[p / ENTRIES];
      assert Links(m, d, p / ENTRIES, t);
      assert Holds(m, t, p % ENTRIES, f);
    }
  }

  // ---- Single pages -------------------------------------------------------

  function AlignUp(x: nat): (r: nat)
    ensures x <= r < x + FRAME_SIZE && r % FRAME_SIZE == 0
  {
    if x % FRAME_SIZE == 0 then x else x - x % FRAME_SIZE + FRAME_SIZE
  }

  function Attach(dir: Directory, tab: nat, table: nat, phys: nat): Directory
    requires tab < |dir.tables| == |dir.physTabs|
  {
    Directory(dir.physTabs[tab := phys], dir.physPos, dir.tables[tab := table])
  }

  function NewTable(m: Memory): Memory
  {
    var p := AlignUp(m.pos);
    Memory(m.fm, m.ram, m.tables[p := EmptyTable()], m.dirs, m.kernel, p + TABLE_SIZE)
  }

  function AttachTo(m: Memory, d: nat, i: nat, table: nat, phys: nat): Memory
    requires Shaped(m) && d in m.dirs && i < ENTRIES
  {
    Memory(m.fm, m.ram, m.tables, m.dirs[d := Attach(m.dirs[d], i, table, phys)], m.kernel, m.pos)
  }

  function MakeTable(m: Memory, tab: nat, flags: nat, d: nat): Memory
    requires Shaped(m) && d in m.dirs && tab < ENTRIES
  {
    AttachTo(NewTable(m), d, tab, AlignUp(m.pos), AlignUp(m.pos) + flags)
  }

  function SetEntry(m: Memory, fm: seq<Word>, t: nat, k: nat, page: Page): Memory
    requires t in m.tables && k < ENTRIES
  {
    Memory(fm, m.ram, m.tables[t := m.tables[t][k := page]], m.dirs, m.kernel, m.pos)
  }

  function AllocFrame(m: Memory, t: nat, k: nat, flags: nat): Memory
    requires Shaped(m) && HasFree(m) && t in m.tables && k < ENTRIES
  {
    FreeFrameIsFound(m);
    var f := FirstFree(m.fm, 0);
    if m.tables[t][k].frame != 0 then m
    else SetEntry(m, SetBit(m.fm, f, true), t, k, Page(flags, f))
  }

  /** Gives back the entry's frame; the entry keeps its flags. */
  function FreeFrame(m: Memory, t: nat, k: nat): Memory
    requires Owned(m) && t in m.tables && k < ENTRIES
  {
    var f := m.tables[t][k].frame;
    assert Holds(m, t, k, f);
    SetEntry(m, if f == 0 then m.fm else SetBit(m.fm, f, false), t, k, Page(m.tables[t][k].flags, 0))
  }

  function MakePage(m: Memory, address: nat, flags: nat, d: nat, alloc: bool): Memory
    requires Linked(m) && d in m.dirs && address < 0x1_0000_0000
    requires alloc ==> HasFree(m)
  {
    var index := address / FRAME_SIZE;
    var tab := index / ENTRIES;
    var m1 := if m.dirs[d].physTabs[tab] == 0 then MakeTable(m, tab, flags, d) else m;
    assert m1 == m ==> Links(m, d, tab, m.dirs[d].tables[tab]);
    if alloc then AllocFrame(m1, m1.dirs[d].tables[tab], index % ENTRIES, flags) else m1
  }

  function FreePage(m: Memory, address: nat, d: nat): Memory
    requires Sound(m) && d in m.dirs && address < 0x1_0000_0000
  {
    var index := address / FRAME_SIZE;
    var tab := index / ENTRIES;
    assert m.dirs[d].tables[tab] != 0 ==> Links(m, d, tab, m.dirs[d].tables[tab]);
    if m.dirs[d].physTabs[tab] == 0 then m else FreeFrame(m, m.dirs[d].tables[tab], index % ENTRIES)
  }

  lemma AttachLinks(m: Memory, m1: Memory, d: nat, i: nat, t: nat, phys: nat)
    requires Shaped(m) && Shaped(m1) && m1.dirs == m.dirs
    requires d in m.dirs && i < ENTRIES && m.dirs[d].tables[i] == 0 && t != 0
    ensures forall e, j, u :: Links(AttachTo(m1, d, i, t, phys), e, j, u) <==> Links(m, e, j, u) || (e == d && j == i && u == t)
  {
  }

  lemma OwnedByTables(m: Memory, m': Memory)
    requires Owned(m) && Shaped(m') && m'.fm == m.fm && m'.ram == m.ram && m'.tables == m.tables
    ensures Owned(m')
  {
    assert forall t, k, f :: Holds(m', t, k, f) <==> Holds(m, t, k, f);
  }

  /** Slot i of d is empty in m; in m' it holds t, which is the kernel's table there or a table m does not have. */
  lemma AttachKeeps(m: Memory, m1: Memory, d: nat, i: nat, t: nat, phys: nat)
    requires Linked(m) && Shaped(m1) && m1.dirs == m.dirs && m1.kernel == m.kernel
    requires d in m.dirs && i < ENTRIES && m.dirs[d].tables[i] == 0 && phys != 0 && t != 0
    requires m1.tables.Keys == m.tables.Keys + {t}
    requires Links(m, m.kernel, i, t) || t !in m.tables
    ensures Linked(AttachTo(m1, d, i, t, phys))
  {
    var m' := AttachTo(m1, d, i, t, phys);
    AttachLinks(m, m1, d, i, t, phys);
    assert Links(m', d, i, t);
    forall u | u in m'.tables
      ensures exists e, j :: Links(m', e, j, u)
    {
      if u in m.tables {
        var e, j :| Links(m, e, j, u);
        assert Links(m', e, j, u);
      }
    }
    forall e, j, u, e', j' | Links(m', e, j, u) && Links(m', e', j', u)
      ensures j == j' && (e == e' || m'.dirs[m'.kernel].tables[j] == u)
    {
      if u == t {
        if t !in m.tables {
          assert !Links(m, e, j, u) && !Links(m, e', j', u);
        }
      } else {
        assert Links(m, e, j, u) && Links(m, e', j', u);
      }
    }
  }

  lemma NewTableKeeps(m: Memory)
    requires Owned(m)
    ensures Owned(NewTable(m))
  {
    var m' := NewTable(m);
    assert forall t, k, f :: f != 0 ==> (Holds(m', t, k, f) <==> Holds(m, t, k, f));
    forall f: nat | 0 < f < |m.ram| && Used(m'.fm, f)
      ensures exists t, k :: Holds(m', t, k, f)
    {
      var t, k :| Holds(m, t, k, f);
      assert Holds(m', t, k, f);
    }
  }

  lemma MakeTableKeeps(m: Memory, tab: nat, flags: nat, d: nat)
    requires Sound(m) && d in m.dirs && tab < ENTRIES && m.dirs[d].tables[tab] == 0
    ensures Sound(MakeTable(m, tab, flags, d))
  {
    NewTableKeeps(m);
    assert Shaped(m) && Shaped(NewTable(m));
    hide Owned, Linked;
    AttachKeeps(m, NewTable(m), d, tab, AlignUp(m.pos), AlignUp(m.pos) + flags);
    OwnedByTables(NewTable(m), MakeTable(m, tab, flags, d));
  }

  lemma AllocFrameKeeps(m: Memory, t: nat, k: nat, flags: nat)
    requires Owned(m) && HasFree(m) && t in m.tables && k < ENTRIES
    ensures Owned(AllocFrame(m, t, k, flags))
    ensures Linked(m) ==> Linked(AllocFrame(m, t, k, flags))
  {
    FreeFrameIsFound(m);
    var m' := AllocFrame(m, t, k, flags);
    var n := FirstFree(m.fm, 0);
    if m != m' {
      assert Holds(m', t, k, n) && Holds(m, t, k, 0);
      forall u, j, f | (u != t || j != k)
        ensures Holds(m', u, j, f) <==> Holds(m, u, j, f)
      {
      }
      forall f: nat | 0 < f < |m.ram| && Used(m'.fm, f)
        ensures exists u, j :: Holds(m', u, j, f)
      {
        if f != n {
          var u, j :| Holds(m, u, j, f);
          assert Holds(m', u, j, f);
        }
      }
      assert forall e, i, u :: Links(m', e, i, u) <==> Links(m, e, i, u);
    }
  }

  /** A page that was unmapped reads as mapped after alloc_frame exactly when frame 0 was already taken. */
  lemma AllocMapsOnceFrameZeroIsTaken(m: Memory, t: nat, k: nat, flags: nat)
    requires Owned(m) && HasFree(m) && t in m.tables && k < ENTRIES && m.tables[t][k].frame == 0
    ensures AllocFrame(m, t, k, flags).tables[t][k].frame != 0 <==> FrameZeroTaken(m)
  {
    FreeFrameIsFound(m);
  }

  lemma FreeFrameKeeps(m: Memory, t: nat, k: nat)
    requires Sound(m) && t in m.tables && k < ENTRIES
    ensures Sound(FreeFrame(m, t, k))
  {
    var m' := FreeFrame(m, t, k);
    var n := m.tables[t][k].frame;
    assert Holds(m', t, k, 0) && Holds(m, t, k, n);
    forall u, j, f | (u != t || j != k)
      ensures Holds(m', u, j, f) <==> Holds(m, u, j, f)
    {
    }
    forall f: nat | 0 < f < |m.ram| && Used(m'.fm, f)
      ensures exists u, j :: Holds(m', u, j, f)
    {
      var u, j :| Holds(m, u, j, f);
      assert Holds(m', u, j, f);
    }
    assert forall e, i, u :: Links(m', e, i, u) <==> Links(m, e, i, u);
  }
}

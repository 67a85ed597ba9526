/**
  The pre-heap mapping loops of setup_paging (src/mm/paging.c): they map page p to frame p, while the
  page tables they make keep moving the end they run to.
 */
module BootMap {
  import opened Limits
  import opened FrameMap
  import opened AddressSpace
  import opened CloneSpace
  import opened SpaceRuns
  import opened Paging

  const KERNEL_FLAGS: nat := PAGE_FLAG_PRESENT
  const IPC_FLAGS: nat := PAGE_FLAG_WRITE + PAGE_FLAG_USERMODE + PAGE_FLAG_PRESENT

  /** The kernel's entry for page p. */
  ghost function KernelEntry(m: Memory, p: nat): Page
    requires Linked(m) && p < PAGES
  {
    EntryOf(m, m.kernel, p)
  }

  /** The kernel maps exactly the pages below n, each to the frame of its own number, and only those frames are taken. */
  ghost predicate Identity(m: Memory, n: nat)
  {
    && Sound(m) && n <= |m.ram|
    && (forall p: nat :: p < n ==> KernelEntry(m, p).frame == p && KernelEntry(m, p).flags % 2 == PAGE_FLAG_PRESENT)
    && (forall p: nat :: n <= p < PAGES ==> KernelEntry(m, p).frame == 0)
    && (forall f: nat :: f < |m.ram| ==> (Used(m.fm, f) <==> f < n))
  }

  /** How many page tables the pages below n take. */
  function TablesFor(n: nat): nat
  {
    (n + ENTRIES - 1) / ENTRIES
  }

  /** The kernel has no page table beyond those that the pages below n take. */
  ghost predicate NoneAhead(m: Memory, n: nat)
    requires Shaped(m)
  {
    forall i :: TablesFor(n) <= i < ENTRIES ==> m.dirs[m.kernel].tables[i] == 0
  }

  /** From n pages mapped to n' pages mapped, kmalloc_pos moves by at most two frames for each page table made. */
  ghost predicate Moved(m: Memory, n: nat, m': Memory, n': nat)
  {
    && Shaped(m) && Shaped(m') && |m'.ram| == |m.ram| && m'.kernel == m.kernel && n <= n'
    && NoneAhead(m, n) && NoneAhead(m', n')
    && m.pos <= m'.pos <= m.pos + 8192 * (TablesFor(n') - TablesFor(n))
  }

  lemma NextFrame(m: Memory, n: nat)
    requires Identity(m, n) && n < |m.ram|
    ensures HasFree(m) && FirstFree(m.fm, 0) == n
  {
    assert n in FreeFrames(m.fm);
    FirstFreeIsUnique(m.fm, n);
  }

  lemma MapAgain(m: Memory, n: nat, address: nat, flags: nat)
    requires Identity(m, n) && n < |m.ram| && 0 < address / FRAME_SIZE < n && address < 0x1_0000_0000
    ensures HasFree(m) && MakePage(m, address, flags, m.kernel, true) == m
  {
    NextFrame(m, n);
    assert KernelEntry(m, address / FRAME_SIZE).frame == address / FRAME_SIZE;
  }

  lemma MapTable(m: Memory, n: nat, flags: nat)
    requires Identity(m, n) && NoneAhead(m, n) && n < |m.ram| && m.dirs[m.kernel].tables[n / ENTRIES] == 0
    ensures
      var m' := MakeTable(m, n / ENTRIES, flags, m.kernel);
      Identity(m', n) && Moved(m, n, m', n + 1)
  {
    var m' := MakeTable(m, n / ENTRIES, flags, m.kernel);
    MakeTableKeeps(m, n / ENTRIES, flags, m.kernel);
    assert n > 0 ==> KernelEntry(m, n - 1).flags != 0;
    forall p: nat | p < PAGES
      ensures KernelEntry(m', p) == KernelEntry(m, p)
    {
      var t := m.dirs[m.kernel].tables[p / ENTRIES];
      assert t != 0 ==> Links(m, m.kernel, p / ENTRIES, t);
    }
  }

  lemma MapFrame(m: Memory, n: nat, flags: nat)
    requires Identity(m, n) && n < |m.ram| && m.dirs[m.kernel].tables[n / ENTRIES] != 0 && flags % 2 == PAGE_FLAG_PRESENT
    requires m.dirs[m.kernel].tables[n / ENTRIES] in m.tables && HasFree(m)
    ensures
      var m' := AllocFrame(m, m.dirs[m.kernel].tables[n / ENTRIES], n % ENTRIES, flags);
      Identity(m', n + 1) && m'.dirs == m.dirs && m'.pos == m.pos && m'.kernel == m.kernel && |m'.ram| == |m.ram|
  {
    NextFrame(m, n);
    var t := m.dirs[m.kernel].tables[n / ENTRIES];
    assert KernelEntry(m, n).frame == 0;
    AllocFrameKeeps(m, t, n % ENTRIES, flags);
    var m' := AllocFrame(m, t, n % ENTRIES, flags);
    assert m' == SetEntry(m, SetBit(m.fm, n, true), t, n % ENTRIES, Page(flags, n));
    assert Links(m, m.kernel, n / ENTRIES, t);
    forall p: nat | p < PAGES
      ensures KernelEntry(m', p) == if p == n then Page(flags, n) else KernelEntry(m, p)
    {
      var u := m.dirs[m.kernel].tables[p / ENTRIES];
      assert u != 0 ==> Links(m, m.kernel, p / ENTRIES, u);
    }
  }

  /** Mapping page n, when exactly the pages below it are mapped. */
  lemma MapNext(m: Memory, n: nat, address: nat, flags: nat)
    requires Identity(m, n) && n < |m.ram| && address / FRAME_SIZE == n && address < 0x1_0000_0000
    requires NoneAhead(m, n) && flags % 2 == PAGE_FLAG_PRESENT
    ensures HasFree(m)
    ensures
      var m' := MakePage(m, address, flags, m.kernel, true);
      Identity(m', n + 1) && Moved(m, n, m', n + 1)
  {
    NextFrame(m, n);
    var m1 := m;
    if m.dirs[m.kernel].tables[n / ENTRIES] == 0 {
      m1 := MakeTable(m, n / ENTRIES, flags, m.kernel);
      MapTable(m, n, flags);
      NextFrame(m1, n);
    }
    assert Links(m1, m.kernel, n / ENTRIES, m1.dirs[m.kernel].tables[n / ENTRIES]);
    MapFrame(m1, n, flags);
    assert MakePage(m, address, flags, m.kernel, true)
        == AllocFrame(m1, m1.dirs[m.kernel].tables[n / ENTRIES], n % ENTRIES, flags);
  }

  /** Page 0 sits in frame 0, which reads as unmapped: mapped a second time, it moves to another frame. */
  lemma PageZeroMovesWhenMappedAgain(m: Memory, n: nat, flags: nat)
    requires Identity(m, n) && 0 < n < |m.ram|
    ensures HasFree(m) && Links(m, m.kernel, 0, m.dirs[m.kernel].tables[0])
    ensures
      var t, m' := m.dirs[m.kernel].tables[0], MakePage(m, 0, flags, m.kernel, true);
      t in m.tables && t in m'.tables && m.tables[t][0].frame == 0 && m'.tables[t][0] == Page(flags, n)
  {
    NextFrame(m, n);
    assert KernelEntry(m, 0).flags != 0;
    assert Links(m, m.kernel, 0, m.dirs[m.kernel].tables[0]);
    assert KernelEntry(m, 0).frame == 0;
  }

  lemma BootIsIdentity(memStart: nat, memEnd: nat)
    requires memEnd <= 0x1_0000_0000
    ensures Identity(BootMemory(memStart, memEnd), 0)
    ensures NoneAhead(BootMemory(memStart, memEnd), 0)
  {
    var m := BootMemory(memStart, memEnd);
    assert forall t, k, f :: !Holds(m, t, k, f);
    assert forall d, i, t :: !Links(m, d, i, t);
  }

  /** Mapping page p, which is the next page or the last mapped page once more. */
  lemma MapStep(m: Memory, n: nat, p: nat, flags: nat)
    requires Identity(m, n) && n < |m.ram| && (p == n || (n >= 2 && p == n - 1))
    requires NoneAhead(m, n) && flags % 2 == PAGE_FLAG_PRESENT
    ensures Linked(m) && HasFree(m) && FRAME_SIZE * p < 0x1_0000_0000
    ensures
      var m' := MakePage(m, FRAME_SIZE * p, flags, m.kernel, true);
      Identity(m', p + 1) && Moved(m, n, m', p + 1)
  {
    assert Shaped(m);
    if p == n {
      MapNext(m, n, FRAME_SIZE * p, flags);
    } else {
      MapAgain(m, n, FRAME_SIZE * p, flags);
      StillMoved(m, n);
    }
    assert Linked(m);
    hide Identity, MakePage, Moved, Linked, NoneAhead, HasFree;
  }

  lemma MovedTwice(m: Memory, n: nat, m1: Memory, n1: nat, m': Memory, n': nat)
    requires Moved(m, n, m1, n1) && Moved(m1, n1, m', n')
    ensures Moved(m, n, m', n')
  {
  }

  /**
    With n pages mapped, memory has room for two frames above kmalloc_pos, and for two more for each page
    table that the other pages can take.
   */
  predicate RoomForTables(pos: nat, n: nat, frames: nat)
  {
    pos + 8192 * (TablesFor(frames) - TablesFor(n) + 1) < 4096 * frames
  }

  /** Where there was room, there still is, and the next page exists up to one frame above kmalloc_pos. */
  lemma RoomIsLeft(m: Memory, n: nat, m': Memory, n': nat)
    requires Moved(m, n, m', n') && RoomForTables(m.pos, n, |m.ram|) && n' <= |m.ram|
    ensures Shaped(m') && NoneAhead(m', n') && |m'.ram| == |m.ram| && m.pos <= m'.pos
    ensures RoomForTables(m'.pos, n', |m.ram|) && m'.pos + 8192 < 4096 * |m.ram|
  {
    assert TablesFor(n') <= TablesFor(|m.ram|);
  }

  /** make_page on page p, with what it does to an identity map. */
  method MapPage(k: Machine, address: nat, flags: nat, ghost n: nat, ghost p: nat)
    requires Identity(k.Abs(), n) && n < k.ram.Length && (p == n || (n >= 2 && p == n - 1))
    requires NoneAhead(k.Abs(), n) && flags % 2 == PAGE_FLAG_PRESENT && address == FRAME_SIZE * p
    modifies k, k.framemap
    ensures Identity(k.Abs(), p + 1) && Moved(old(k.Abs()), n, k.Abs(), p + 1)
  {
    MapStep(k.Abs(), n, p, flags);
    hide Identity, Linked, AddressSpace.MakePage, Moved;
    var _, _ := k.MakePage(address, flags, k.kernelDirectory, true);
  }

  /** One MAP_MEMORY loop with a fixed end, from page p on; n pages are mapped. */
  method MapMemory(k: Machine, start: nat, end: nat, flags: nat, ghost n: nat, ghost p: nat, ghost last: nat)
    requires Identity(k.Abs(), n) && NoneAhead(k.Abs(), n) && (p == n || (n >= 2 && p == n - 1)) && flags % 2 == PAGE_FLAG_PRESENT
    requires start == FRAME_SIZE * p && end == FRAME_SIZE * last && p <= last < k.ram.Length - 1
    modifies k, k.framemap
    ensures Identity(k.Abs(), last + 1)
    ensures Moved(old(k.Abs()), n, k.Abs(), last + 1)
  {
    hide Identity, Moved;
    assert Moved(k.Abs(), n, k.Abs(), n) by { StillMoved(k.Abs(), n); }
    var i := start;
    ghost var page, mapped := p, n;
    while i <= end
      invariant i == FRAME_SIZE * page && p <= page <= last + 1
      invariant mapped == if page == p then n else page
      invariant Identity(k.Abs(), mapped) && Moved(old(k.Abs()), n, k.Abs(), mapped)
      decreases last + 1 - page
    {
      ghost var m := k.Abs();
      assert NoneAhead(m, mapped) by { MovedEnds(old(k.Abs()), n, m, mapped); }
      MapPage(k, i, flags, mapped, page);
      MovedTwice(old(k.Abs()), n, m, mapped, k.Abs(), page + 1);
      i := i + FRAME_SIZE;
      page, mapped := page + 1, page + 1;
    }
  }

  lemma MovedOn(m: Memory, n: nat, m1: Memory, n1: nat, m': Memory, n': nat)
    requires Moved(m, n, m1, n1) && Moved(m1, n1, m', n') && RoomForTables(m.pos, n, |m.ram|) && n' <= |m.ram|
    ensures Moved(m, n, m', n') && |m'.ram| == |m.ram|
    ensures m1.pos <= m'.pos && m'.pos + 8192 < 4096 * |m.ram|
  {
    MovedTwice(m, n, m1, n1, m', n');
    RoomIsLeft(m, n, m', n');
  }

  lemma MovedEnds(m: Memory, n: nat, m': Memory, n': nat)
    requires Moved(m, n, m', n')
    ensures Shaped(m') && NoneAhead(m', n')
  {
  }

  lemma StillMoved(m: Memory, n: nat)
    requires Identity(m, n) && NoneAhead(m, n)
    ensures Moved(m, n, m, n)
  {
  }

  lemma RoomAtFirst(m: Memory, n: nat)
    requires Identity(m, n) && NoneAhead(m, n) && RoomForTables(m.pos, n, |m.ram|)
    ensures Moved(m, n, m, n) && n <= |m.ram| && m.pos + 8192 < 4096 * |m.ram|
  {
    StillMoved(m, n);
    RoomIsLeft(m, n, m, n);
  }

  /**
    The third loop reads kmalloc_pos anew each time round, and each page table made on the way moves it. It
    ends, since the tables for all pages of the memory fit above kmalloc_pos.
   */
  method MapToMovingEnd(k: Machine, start: nat, ghost q: nat)
    requires Identity(k.Abs(), q + 1) && NoneAhead(k.Abs(), q + 1) && 1 <= q && start == 4096 * q <= k.kmallocPos
    requires RoomForTables(k.kmallocPos, q + 1, k.ram.Length)
    modifies k, k.framemap
    ensures Identity(k.Abs(), (k.kmallocPos + FRAME_SIZE) / FRAME_SIZE + 1)
    ensures Moved(old(k.Abs()), q + 1, k.Abs(), (k.kmallocPos + FRAME_SIZE) / FRAME_SIZE + 1)
  {
    hide Identity, Moved, NoneAhead, RoomForTables, TablesFor, Shaped;
    ghost var m0 := k.Abs();
    RoomAtFirst(m0, q + 1);
    var i := start;
    ghost var page, mapped := q, q + 1;
    while i <= k.kmallocPos + FRAME_SIZE
      invariant i == 4096 * page && q <= page && i <= k.kmallocPos + 2 * FRAME_SIZE
      invariant mapped == if page == q then q + 1 else page
      invariant start <= k.kmallocPos && mapped <= k.ram.Length && k.kmallocPos + 8192 < 4096 * k.ram.Length
      invariant Identity(k.Abs(), mapped) && Moved(m0, q + 1, k.Abs(), mapped)
      decreases k.ram.Length - page
    {
      ghost var m := k.Abs();
      MovedEnds(m0, q + 1, m, mapped);
      MapPage(k, i, KERNEL_FLAGS, mapped, page);
      MovedOn(m0, q + 1, m, mapped, k.Abs(), page + 1);
      i := i + FRAME_SIZE;
      page, mapped := page + 1, page + 1;
    }
  }

  /** Where the loops start: nothing is mapped, and kmalloc_pos lies beyond the end of the second loop. */
  lemma BootIsReady(memStart: nat, memEnd: nat, m: Memory)
    requires memEnd <= 0x1_0000_0000 && m == BootMemory(memStart, memEnd)
    requires RoomForTables(m.pos, 0, |m.ram|)
    ensures Identity(m, 0) && Shaped(m) && NoneAhead(m, 0)
    ensures memStart + IPC_MEMSIZE <= m.pos && m.pos + 8192 < 4096 * |m.ram|
  {
    BootIsIdentity(memStart, memEnd);
    RoomAtFirst(m, 0);
  }

  /** The three loops before the heap. */
  method MapPreHeap(k: Machine, memStart: nat, memEnd: nat)
    requires memEnd <= 0x1_0000_0000 && k.Abs() == BootMemory(memStart, memEnd)
    requires memStart % FRAME_SIZE == 0 && FRAME_SIZE <= memStart
    requires RoomForTables(k.kmallocPos, 0, k.ram.Length)
    modifies k, k.framemap
    ensures Identity(k.Abs(), (k.kmallocPos + FRAME_SIZE) / FRAME_SIZE + 1)
  {
    hide Identity, Moved, BootMemory, NoneAhead, RoomForTables, TablesFor, Shaped;
    ghost var m0 := k.Abs();
    BootIsReady(memStart, memEnd, m0);
    ghost var p, q := memStart / FRAME_SIZE, memStart / FRAME_SIZE + IPC_MEMSIZE / FRAME_SIZE;
    MapMemory(k, 0, memStart, KERNEL_FLAGS, 0, 0, p);
    ghost var m1 := k.Abs();
    RoomIsLeft(m0, 0, m1, p + 1);
    MapMemory(k, memStart, memStart + IPC_MEMSIZE, IPC_FLAGS, p + 1, p, q);
    MovedTwice(m0, 0, m1, p + 1, k.Abs(), q + 1);
    RoomIsLeft(m0, 0, k.Abs(), q + 1);
    MapToMovingEnd(k, memStart + IPC_MEMSIZE, q);
  }

  /** After the loops: every page up to the final end is mapped to itself, the kernel's page tables among them. */
  lemma IdentityReaches(m: Memory, p: nat)
    requires Identity(m, (m.pos + FRAME_SIZE) / FRAME_SIZE + 1) && p * FRAME_SIZE <= m.pos + FRAME_SIZE
    ensures p < PAGES && KernelEntry(m, p).frame == p && KernelEntry(m, p).flags % 2 == PAGE_FLAG_PRESENT
    ensures FrameZeroTaken(m)
    ensures forall t :: t in m.tables ==> t / FRAME_SIZE * FRAME_SIZE <= m.pos + FRAME_SIZE
  {
  }
}

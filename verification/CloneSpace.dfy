/** clone_table and the loop over the slots of clone_directory (src/mm/paging.c) on values. */
module CloneSpace {
  import opened Limits
  import opened FrameMap
  import opened AddressSpace

  // ---- One table ----------------------------------------------------------

  /** How many of the first i entries are mapped: the frames a copy of them takes. */
  function Needed(table: seq<Page>, i: nat): nat
    requires i <= |table|
  {
    if i == 0 then 0 else Needed(table, i - 1) + if table[i - 1].frame == 0 then 0 else 1
  }

  function CopyFrame(m: Memory, from: nat, to: nat): Memory
    requires from < |m.ram| && to < |m.ram|
  {
    Memory(m.fm, m.ram[to := m.ram[from]], m.tables, m.dirs, m.kernel, m.pos)
  }

  function CloneEntry(m: Memory, src: nat, dst: nat, k: nat): Memory
    requires Owned(m) && HasFree(m) && src in m.tables && dst in m.tables && src != dst && k < ENTRIES
    requires m.tables[src][k].frame != 0
  {
    assert Holds(m, src, k, m.tables[src][k].frame);
    AllocFrameKeeps(m, dst, k, m.tables[src][k].flags);
    FreeFrameIsFound(m);
    assert Holds(m, dst, k, m.tables[dst][k].frame);
    var m1 := AllocFrame(m, dst, k, m.tables[src][k].flags);
    CopyFrame(m1, m.tables[src][k].frame, m1.tables[dst][k].frame)
  }

  ghost predicate CanCloneEntries(m: Memory, src: nat, dst: nat, i: nat)
  {
    && Owned(m) && FrameZeroTaken(m)
    && src in m.tables && dst in m.tables && src != dst && i <= ENTRIES
    && (forall k :: 0 <= k < i ==> m.tables[dst][k].frame == 0)
    && Needed(m.tables[src], i) <= |FreeFrames(m.fm)|
  }

  /** One entry copied: the lowest free frame is taken, filled and entered. */
  ghost predicate Entered(m: Memory, m': Memory, src: nat, dst: nat, k: nat)
  {
    && src in m.tables && dst in m.tables && src != dst && k < ENTRIES
    && m.tables[src][k].frame < |m.ram| == 32 * |m.fm| <= NO_FRAME
    && var f := FirstFree(m.fm, 0);
    && f < |m.ram| && 0 != f && !Used(m.fm, f)
    && m'.fm == SetBit(m.fm, f, true)
    && m'.ram == m.ram[f := m.ram[m.tables[src][k].frame]]
    && m'.tables == m.tables[dst := m.tables[dst][k := Page(m.tables[src][k].flags, f)]]
    && m'.dirs == m.dirs && m'.kernel == m.kernel && m'.pos == m.pos
  }

  lemma CloneEntryStep(m: Memory, src: nat, dst: nat, k: nat)
    requires CanCloneEntries(m, src, dst, k + 1) && m.tables[src][k].frame != 0
    ensures HasFree(m)
    ensures
      var m' := CloneEntry(m, src, dst, k);
      && CanCloneEntries(m', src, dst, k)
      && Entered(m, m', src, dst, k)
      && |FreeFrames(m'.fm)| == |FreeFrames(m.fm)| - 1
  {
    assert HasFree(m);
    FreeFrameIsFound(m);
    TakeFrame(m.fm, FirstFree(m.fm, 0));
    var m1 := AllocFrame(m, dst, k, m.tables[src][k].flags);
    AllocFrameKeeps(m, dst, k, m.tables[src][k].flags);
    var m' := CloneEntry(m, src, dst, k);
    assert Holds(m, src, k, m.tables[src][k].frame);
    assert forall t, j, f :: Holds(m', t, j, f) <==> Holds(m1, t, j, f);
  }

  function CloneEntries(m: Memory, src: nat, dst: nat, i: nat): Memory
    requires CanCloneEntries(m, src, dst, i)
    decreases i
  {
    if i == 0 then m
    else if m.tables[src][i - 1].frame == 0 then CloneEntries(m, src, dst, i - 1)
    else
      CloneEntryStep(m, src, dst, i - 1);
      CloneEntries(CloneEntry(m, src, dst, i - 1), src, dst, i - 1)
  }

  /** Entry k of t' stands for entry k of t: mapped alike, in a frame that was free, with the same words. */
  ghost predicate EntryCloned(m: Memory, m': Memory, t: nat, t': nat, k: nat)
  {
    && t in m.tables && t' in m'.tables && k < ENTRIES
    && var p, p' := m.tables[t][k], m'.tables[t'][k];
    if p.frame == 0 then p'.frame == 0
    else
      && p'.frame != 0 && p'.flags == p.flags
      && p.frame < |m.ram| && p'.frame < |m'.ram| && p'.frame < 32 * |m.fm|
      && !Used(m.fm, p'.frame) && m'.ram[p'.frame] == m.ram[p.frame]
  }

  /** What was in use stays in use and keeps its words. */
  ghost predicate Extends(m: Memory, m': Memory)
  {
    && Owned(m) && Owned(m') && |m.fm| == |m'.fm| && m.kernel == m'.kernel
    && (forall f: nat :: f < |m.ram| && Used(m.fm, f) ==> Used(m'.fm, f) && m'.ram[f] == m.ram[f])
  }

  /** Entries [0, i) of dst stand for those of src; every frame newly in use is held by one of them. */
  ghost predicate EntriesCloned(m: Memory, m': Memory, src: nat, dst: nat, i: nat)
  {
    && Extends(m, m') && m'.dirs == m.dirs && m'.pos == m.pos
    && src in m.tables && dst in m.tables && src != dst && i <= ENTRIES
    && dst in m'.tables && m'.tables == m.tables[dst := m'.tables[dst]]
    && (forall k :: i <= k < ENTRIES ==> m'.tables[dst][k] == m.tables[dst][k])
    && (forall k: nat :: k < i ==> EntryCloned(m, m', src, dst, k))
    && (forall f: nat :: f < |m.ram| && Used(m'.fm, f) && !Used(m.fm, f) ==> Holds(m', dst, HolderOf(m', dst, i, f), f))
  }

  /** An entry below i that holds f, if there is one. */
  ghost function HolderOf(m: Memory, t: nat, i: nat, f: nat): (k: nat)
  {
    if exists k: nat :: k < i && Holds(m, t, k, f) then var k: nat :| k < i && Holds(m, t, k, f); k else 0
  }

  lemma SkipEntry(m: Memory, m': Memory, src: nat, dst: nat, k: nat)
    requires EntriesCloned(m, m', src, dst, k) && k < ENTRIES
    requires m.tables[src][k].frame == 0 && m.tables[dst][k].frame == 0
    ensures EntriesCloned(m, m', src, dst, k + 1)
  {
    forall f: nat | f < |m.ram| && Used(m'.fm, f) && !Used(m.fm, f)
      ensures Holds(m', dst, HolderOf(m', dst, k + 1, f), f)
    {
      assert Holds(m', dst, HolderOf(m', dst, k, f), f);
    }
  }

  lemma AddEntry(m: Memory, m1: Memory, m': Memory, src: nat, dst: nat, k: nat)
    requires Owned(m) && Entered(m, m1, src, dst, k) && EntriesCloned(m1, m', src, dst, k)
    requires m.tables[src][k].frame != 0
    ensures EntriesCloned(m, m', src, dst, k + 1)
  {
    var f := FirstFree(m.fm, 0);
    assert Holds(m, src, k, m.tables[src][k].frame);
    assert Holds(m', dst, k, f);
    forall j: nat | j < k
      ensures EntryCloned(m, m', src, dst, j)
    {
      assert EntryCloned(m1, m', src, dst, j);
      assert Holds(m, src, j, m.tables[src][j].frame);
    }
    forall g: nat | g < |m.ram| && Used(m'.fm, g) && !Used(m.fm, g)
      ensures Holds(m', dst, HolderOf(m', dst, k + 1, g), g)
    {
      if g != f {
        assert Holds(m', dst, HolderOf(m', dst, k, g), g);
      }
    }
  }

  lemma {:induction false} CloneEntriesCopy(m: Memory, src: nat, dst: nat, i: nat)
    requires CanCloneEntries(m, src, dst, i)
    ensures EntriesCloned(m, CloneEntries(m, src, dst, i), src, dst, i)
    ensures |FreeFrames(CloneEntries(m, src, dst, i).fm)| == |FreeFrames(m.fm)| - Needed(m.tables[src], i)
    decreases i
  {
    if i > 0 {
      hide Owned, Used, EntriesCloned, Entered, CloneEntry;
      if m.tables[src][i - 1].frame == 0 {
        CloneEntriesCopy(m, src, dst, i - 1);
        SkipEntry(m, CloneEntries(m, src, dst, i - 1), src, dst, i - 1);
      } else {
        CloneEntryStep(m, src, dst, i - 1);
        var m1 := CloneEntry(m, src, dst, i - 1);
        CloneEntriesCopy(m1, src, dst, i - 1);
        AddEntry(m, m1, CloneEntries(m1, src, dst, i - 1), src, dst, i - 1);
      }
    }
  }

  ghost predicate CanCloneTable(m: Memory, src: nat)
  {
    Owned(m) && FrameZeroTaken(m) && src in m.tables && Needed(m.tables[src], ENTRIES) <= |FreeFrames(m.fm)|
  }

  lemma NewTableReady(m: Memory, src: nat)
    requires CanCloneTable(m, src)
    ensures CanCloneEntries(NewTable(m), src, AlignUp(m.pos), ENTRIES)
  {
    NewTableKeeps(m);
  }

  /** The copy of table src, which stands at AlignUp(m.pos). */
  function CloneTable(m: Memory, src: nat): Memory
    requires CanCloneTable(m, src)
  {
    NewTableReady(m, src);
    CloneEntries(NewTable(m), src, AlignUp(m.pos), ENTRIES)
  }

  /** dst is a new table that stands for src, and holds every frame newly in use. */
  ghost predicate TableCloned(m: Memory, m': Memory, src: nat, dst: nat)
  {
    && Extends(m, m') && m'.dirs == m.dirs && src in m.tables && dst < m'.pos
    && dst !in m.tables && dst in m'.tables && m'.tables == m.tables[dst := m'.tables[dst]]
    && (forall k: nat :: k < ENTRIES ==> EntryCloned(m, m', src, dst, k))
    && (forall f: nat :: f < |m.ram| && Used(m'.fm, f) && !Used(m.fm, f) ==> exists k :: Holds(m', dst, k, f))
  }

  lemma CloneTableCopies(m: Memory, src: nat)
    requires CanCloneTable(m, src)
    ensures TableCloned(m, CloneTable(m, src), src, AlignUp(m.pos))
    ensures |FreeFrames(CloneTable(m, src).fm)| == |FreeFrames(m.fm)| - Needed(m.tables[src], ENTRIES)
  {
    NewTableReady(m, src);
    var m1, m', dst := NewTable(m), CloneTable(m, src), AlignUp(m.pos);
    CloneEntriesCopy(m1, src, dst, ENTRIES);
    forall k: nat | k < ENTRIES
      ensures EntryCloned(m, m', src, dst, k)
    {
      assert EntryCloned(m1, m', src, dst, k);
    }
    forall f: nat | f < |m.ram| && Used(m'.fm, f) && !Used(m.fm, f)
      ensures exists k :: Holds(m', dst, k, f)
    {
      var k :| 0 <= k < ENTRIES && m'.tables[dst][k].frame == f;
      assert Holds(m', dst, k, f);
    }
  }

  // ---- A whole directory --------------------------------------------------

  /** Slot i of src is neither empty nor the kernel's own table: it has to be copied. */
  predicate IsPrivate(m: Memory, d: nat, i: nat)
  {
    && m.kernel in m.dirs && d in m.dirs && i < |m.dirs[d].tables| && i < |m.dirs[m.kernel].tables|
    && m.dirs[d].tables[i] != 0 && m.dirs[m.kernel].tables[i] != m.dirs[d].tables[i]
  }

  /** The frames a copy of the first i slots takes. */
  function NeededSlots(m: Memory, d: nat, i: nat): nat
    requires Linked(m) && d in m.dirs && i <= ENTRIES
  {
    if i == 0 then 0
    else
      assert m.dirs[d].tables[i - 1] != 0 ==> Links(m, d, i - 1, m.dirs[d].tables[i - 1]);
      NeededSlots(m, d, i - 1) + if IsPrivate(m, d, i - 1) then Needed(m.tables[m.dirs[d].tables[i - 1]], ENTRIES) else 0
  }

  ghost predicate CanCloneSlots(m: Memory, src: nat, d: nat, i: nat)
  {
    && Sound(m) && FrameZeroTaken(m)
    && src in m.dirs && d in m.dirs && d != src && d != m.kernel && i <= ENTRIES
    && (forall j :: 0 <= j < i ==> m.dirs[d].tables[j] == 0)
    && NeededSlots(m, src, i) <= |FreeFrames(m.fm)|
  }

  function CloneSlot(m: Memory, src: nat, d: nat, i: nat): Memory
    requires CanCloneSlots(m, src, d, i + 1)
  {
    var t := m.dirs[src].tables[i];
    assert t != 0 ==> Links(m, src, i, t);
    if t == 0 then m
    else if m.dirs[m.kernel].tables[i] == t then AttachTo(m, d, i, t, m.dirs[src].physTabs[i])
    else
      CloneTableCopies(m, t);
      AttachTo(CloneTable(m, t), d, i, AlignUp(m.pos),
               AlignUp(m.pos) + PAGE_FLAG_PRESENT + PAGE_FLAG_WRITE + PAGE_FLAG_USERMODE)
  }

  lemma CloneSlotCases(m: Memory, src: nat, d: nat, i: nat)
    requires CanCloneSlots(m, src, d, i + 1)
    ensures
      var t, m' := m.dirs[src].tables[i], CloneSlot(m, src, d, i);
      if t == 0 then m' == m
      else if m.dirs[m.kernel].tables[i] == t then m' == AttachTo(m, d, i, t, m.dirs[src].physTabs[i])
      else
        CanCloneTable(m, t) && Shaped(CloneTable(m, t)) && CloneTable(m, t).dirs == m.dirs
        && m' == AttachTo(CloneTable(m, t), d, i, AlignUp(m.pos), AlignUp(m.pos) + 7)
  {
    hide CloneEntries, CloneTable;
    var t := m.dirs[src].tables[i];
    if IsPrivate(m, src, i) {
      assert Links(m, src, i, t) && CanCloneTable(m, t);
      CloneTableCopies(m, t);
    }
  }

  /** Slot i of d in m' stands for slot i of src in m: the kernel's table itself, or a copy of the table. */
  ghost predicate SlotCloned(m: Memory, m': Memory, src: nat, d: nat, i: nat)
  {
    && Shaped(m) && Shaped(m') && src in m.dirs && d in m'.dirs && i < ENTRIES
    && var t, t' := m.dirs[src].tables[i], m'.dirs[d].tables[i];
    if t == 0 then t' == 0
    else if m.dirs[m.kernel].tables[i] == t then t' == t && m'.dirs[d].physTabs[i] == m.dirs[src].physTabs[i]
    else
      && t' != 0 && t' !in m.tables && (forall k: nat :: k < ENTRIES ==> EntryCloned(m, m', t, t', k))
      && t' % FRAME_SIZE == 0 && m'.dirs[d].physTabs[i] == t' + 7
  }

  ghost predicate SameSlot(m: Memory, m': Memory, d: nat, j: int)
  {
    && Shaped(m) && Shaped(m') && d in m.dirs && d in m'.dirs && 0 <= j < ENTRIES
    && m'.dirs[d].tables[j] == m.dirs[d].tables[j] && m'.dirs[d].physTabs[j] == m.dirs[d].physTabs[j]
  }

  /** Every table that is new in m' hangs in one of the first i slots of d, and so does every frame newly in use. */
  ghost predicate SlotsCloned(m: Memory, m': Memory, src: nat, d: nat, i: nat)
  {
    && Sound(m) && Sound(m') && Extends(m, m') && src in m.dirs && d in m.dirs && d in m'.dirs && i <= ENTRIES
    && m'.dirs == m.dirs[d := m'.dirs[d]] && m'.dirs[d].physPos == m.dirs[d].physPos
    && (forall j :: i <= j < ENTRIES ==> SameSlot(m, m', d, j))
    && (forall t :: t in m.tables ==> t in m'.tables && m'.tables[t] == m.tables[t])
    && (forall t :: t in m'.tables && t !in m.tables ==> exists j :: j < i && Links(m', d, j, t))
    && (forall j: nat :: j < i ==> SlotCloned(m, m', src, d, j))
    && (forall f: nat :: f < |m.ram| && Used(m'.fm, f) && !Used(m.fm, f) ==> HeldByNew(m, m', f))
  }

  /** Frame f stands in a table that m does not have. */
  ghost predicate HeldByNew(m: Memory, m': Memory, f: nat)
  {
    exists t, k :: t !in m.tables && Holds(m', t, k, f)
  }

  /** What one slot's copy leaves behind; the new table, if any, hangs in that slot. */
  ghost predicate SlotStep(m: Memory, m': Memory, src: nat, d: nat, i: nat)
  {
    && Sound(m) && Sound(m') && Extends(m, m') && src in m.dirs && d in m.dirs && d in m'.dirs && i < ENTRIES
    && m'.dirs == m.dirs[d := m'.dirs[d]] && m'.dirs[d].physPos == m.dirs[d].physPos
    && (forall j :: 0 <= j < ENTRIES && j != i ==> SameSlot(m, m', d, j))
    && (forall t :: t in m.tables ==> t in m'.tables && m'.tables[t] == m.tables[t])
    && (forall t :: t in m'.tables && t !in m.tables ==> Links(m', d, i, t))
    && SlotCloned(m, m', src, d, i)
    && (forall f: nat :: f < |m.ram| && Used(m'.fm, f) && !Used(m.fm, f) ==> HeldByNew(m, m', f))
  }

  lemma EmptySlot(m: Memory, src: nat, d: nat, i: nat)
    requires CanCloneSlots(m, src, d, i + 1) && m.dirs[src].tables[i] == 0
    ensures SlotStep(m, m, src, d, i)
  {
  }

  lemma ShareSlot(m: Memory, src: nat, d: nat, i: nat)
    requires CanCloneSlots(m, src, d, i + 1) && m.dirs[m.kernel].tables[i] == m.dirs[src].tables[i] != 0
    ensures SlotStep(m, CloneSlot(m, src, d, i), src, d, i)
  {
    var t, phys := m.dirs[src].tables[i], m.dirs[src].physTabs[i];
    assert Links(m, src, i, t) && Links(m, m.kernel, i, t);
    AttachKeeps(m, m, d, i, t, phys);
    OwnedByTables(m, AttachTo(m, d, i, t, phys));
  }

  lemma CopySlotLeaves(m: Memory, src: nat, d: nat, i: nat)
    requires CanCloneSlots(m, src, d, i + 1) && IsPrivate(m, src, i)
    ensures NeededSlots(m, src, i) <= |FreeFrames(CloneSlot(m, src, d, i).fm)|
  {
    CloneSlotCases(m, src, d, i);
    CloneTableCopies(m, m.dirs[src].tables[i]);
  }

  lemma CopySlot(m: Memory, m1: Memory, m': Memory, src: nat, d: nat, i: nat)
    requires Sound(m) && src in m.dirs && d in m.dirs && d != m.kernel && i < ENTRIES && m.dirs[d].tables[i] == 0
    requires IsPrivate(m, src, i) && m.dirs[src].tables[i] in m.tables
    requires TableCloned(m, m1, m.dirs[src].tables[i], AlignUp(m.pos))
    requires m' == AttachTo(m1, d, i, AlignUp(m.pos), AlignUp(m.pos) + 7)
    ensures SlotStep(m, m', src, d, i)
  {
    hide Linked, Owned;
    CopiedSlotKeeps(m, m1, src, d, i);
    CopiedSlot(m, m1, m', src, d, i);
  }

  lemma CopiedSlotKeeps(m: Memory, m1: Memory, src: nat, d: nat, i: nat)
    requires Linked(m) && src in m.dirs && d in m.dirs && d != m.kernel && i < ENTRIES && m.dirs[d].tables[i] == 0
    requires TableCloned(m, m1, m.dirs[src].tables[i], AlignUp(m.pos))
    ensures Sound(AttachTo(m1, d, i, AlignUp(m.pos), AlignUp(m.pos) + 7))
  {
    assert Shaped(m) && Shaped(m1) && 0 < AlignUp(m.pos);
    hide Linked, Owned, EntryCloned, Holds, Used, Shaped, AlignUp;
    AttachedKeeps(m, m1, d, i, AlignUp(m.pos), AlignUp(m.pos) + 7);
  }

  lemma AttachedKeeps(m: Memory, m1: Memory, d: nat, i: nat, t: nat, phys: nat)
    requires Linked(m) && Shaped(m1) && m1.dirs == m.dirs && m1.kernel == m.kernel && Owned(m1)
    requires d in m.dirs && i < ENTRIES && |m.dirs[d].tables| == ENTRIES && m.dirs[d].tables[i] == 0 && phys != 0 && t != 0
    requires t !in m.tables && t in m1.tables && m1.tables == m.tables[t := m1.tables[t]]
    ensures Sound(AttachTo(m1, d, i, t, phys))
  {
    hide Owned;
    AttachKeeps(m, m1, d, i, t, phys);
    OwnedByTables(m1, AttachTo(m1, d, i, t, phys));
  }

  lemma CopiedSlot(m: Memory, m1: Memory, m': Memory, src: nat, d: nat, i: nat)
    requires Sound(m) && src in m.dirs && d in m.dirs && i < ENTRIES && IsPrivate(m, src, i)
    requires m.dirs[src].tables[i] in m.tables
    requires TableCloned(m, m1, m.dirs[src].tables[i], AlignUp(m.pos))
    requires Sound(m') && m' == AttachTo(m1, d, i, AlignUp(m.pos), AlignUp(m.pos) + 7)
    ensures SlotStep(m, m', src, d, i)
  {
    var t, p := m.dirs[src].tables[i], AlignUp(m.pos);
    assert Links(m', d, i, p);
    forall k: nat | k < ENTRIES
      ensures EntryCloned(m, m', t, p, k)
    {
      assert EntryCloned(m, m1, t, p, k);
    }
    forall f: nat | f < |m.ram| && Used(m'.fm, f) && !Used(m.fm, f)
      ensures HeldByNew(m, m', f)
    {
      var k :| Holds(m1, p, k, f);
      assert Holds(m', p, k, f);
    }
  }

  lemma SlotStepLeaves(m: Memory, m': Memory, src: nat, d: nat, i: nat)
    requires CanCloneSlots(m, src, d, i + 1) && SlotStep(m, m', src, d, i)
    requires NeededSlots(m, src, i) <= |FreeFrames(m'.fm)|
    ensures CanCloneSlots(m', src, d, i)
  {
    NeededSlotsSame(m, m', src, i);
    hide Linked, Owned, SlotCloned, HeldByNew, NeededSlots;
    forall j | 0 <= j < i
      ensures m'.dirs[d].tables[j] == 0
    {
      assert SameSlot(m, m', d, j);
    }
  }

  lemma CloneSlotStep(m: Memory, src: nat, d: nat, i: nat)
    requires CanCloneSlots(m, src, d, i + 1)
    ensures SlotStep(m, CloneSlot(m, src, d, i), src, d, i)
    ensures CanCloneSlots(CloneSlot(m, src, d, i), src, d, i)
  {
    var t := m.dirs[src].tables[i];
    var m' := CloneSlot(m, src, d, i);
    CloneSlotCases(m, src, d, i);
    assert NeededSlots(m, src, i) <= NeededSlots(m, src, i + 1) <= |FreeFrames(m.fm)|;
    assert t != 0 ==> Links(m, src, i, t);
    hide SlotStep, CanCloneSlots, CloneSlot, NeededSlots, Owned, Linked;
    if t == 0 {
      EmptySlot(m, src, d, i);
    } else if m.dirs[m.kernel].tables[i] == t {
      ShareSlot(m, src, d, i);
    } else {
      CloneTableCopies(m, t);
      CopySlot(m, CloneTable(m, t), m', src, d, i);
      CopySlotLeaves(m, src, d, i);
    }
    SlotStepLeaves(m, m', src, d, i);
  }

  lemma {:induction false} NeededSlotsSame(m: Memory, m': Memory, src: nat, i: nat)
    requires Linked(m) && Linked(m') && m.kernel == m'.kernel && src in m.dirs && src in m'.dirs && i <= ENTRIES
    requires m'.dirs[src] == m.dirs[src] && m'.dirs[m.kernel] == m.dirs[m.kernel]
    requires forall t :: t in m.tables ==> t in m'.tables && m'.tables[t] == m.tables[t]
    ensures NeededSlots(m', src, i) == NeededSlots(m, src, i)
  {
    if i > 0 {
      NeededSlotsSame(m, m', src, i - 1);
      assert m.dirs[src].tables[i - 1] != 0 ==> Links(m, src, i - 1, m.dirs[src].tables[i - 1]);
    }
  }

  function CloneSlots(m: Memory, src: nat, d: nat, i: nat): Memory
    requires CanCloneSlots(m, src, d, i)
    decreases i
  {
    if i == 0 then m
    else
      CloneSlotStep(m, src, d, i - 1);
      CloneSlots(CloneSlot(m, src, d, i - 1), src, d, i - 1)
  }

  lemma CloneSlotsUnfold(m: Memory, src: nat, d: nat, i: nat)
    requires CanCloneSlots(m, src, d, i)
    ensures i == 0 ==> CloneSlots(m, src, d, i) == m
    ensures i > 0 ==>
              && CanCloneSlots(CloneSlot(m, src, d, i - 1), src, d, i - 1)
              && CloneSlots(m, src, d, i) == CloneSlots(CloneSlot(m, src, d, i - 1), src, d, i - 1)
  {
    if i > 0 {
      CloneSlotStep(m, src, d, i - 1);
    }
  }

  /** What a copied slot stands for is untouched by later steps. */
  lemma SlotClonedLater(m0: Memory, m: Memory, m1: Memory, m': Memory, src: nat, d: nat, j: nat)
    requires Sound(m0) && Sound(m) && Sound(m1) && Sound(m') && Extends(m0, m) && Extends(m1, m') && Extends(m, m')
    requires src in m0.dirs && src in m.dirs && m0.dirs[src] == m.dirs[src] && m0.dirs[m0.kernel] == m.dirs[m.kernel]
    requires d in m1.dirs && d in m'.dirs && j < ENTRIES && m1.dirs[d].tables[j] == m'.dirs[d].tables[j]
    requires m1.dirs[d].physTabs[j] == m'.dirs[d].physTabs[j]
    requires m0.tables.Keys <= m.tables.Keys
    requires forall t :: t in m0.tables ==> m0.tables[t] == m.tables[t]
    requires forall t :: t in m1.tables ==> t in m'.tables && m1.tables[t] == m'.tables[t]
    requires SlotCloned(m, m1, src, d, j)
    ensures SlotCloned(m0, m', src, d, j)
  {
    var t, t' := m.dirs[src].tables[j], m'.dirs[d].tables[j];
    if t != 0 && m.dirs[m.kernel].tables[j] != t {
      assert Links(m0, src, j, t) && Links(m', d, j, t') && Links(m1, d, j, t');
      forall k: nat | k < ENTRIES
        ensures EntryCloned(m0, m', t, t', k)
      {
        assert EntryCloned(m, m1, t, t', k);
        assert Holds(m0, t, k, m0.tables[t][k].frame) && Holds(m1, t', k, m1.tables[t'][k].frame);
      }
    }
  }

  lemma ExtendsTwice(m: Memory, m1: Memory, m': Memory)
    requires Extends(m, m1) && Extends(m1, m')
    ensures Extends(m, m')
  {
    assert |m.ram| == |m1.ram|;
    hide Owned;
  }

  lemma AddSlotHeld(m: Memory, m1: Memory, m': Memory, src: nat, d: nat, i: nat, f: nat)
    requires SlotStep(m, m1, src, d, i) && SlotsCloned(m1, m', src, d, i)
    requires f < |m.ram| && Used(m'.fm, f) && !Used(m.fm, f)
    ensures HeldByNew(m, m', f)
  {
    assert |m.ram| == |m1.ram| == 32 * |m1.fm|;
    hide Linked, Owned, SlotCloned;
    if Used(m1.fm, f) {
      assert HeldByNew(m, m1, f);
      var t, k :| t !in m.tables && Holds(m1, t, k, f);
      assert Holds(m', t, k, f);
    } else {
      assert HeldByNew(m1, m', f);
      var t, k :| t !in m1.tables && Holds(m', t, k, f);
      assert t !in m.tables;
    }
  }

  lemma AddSlotLinks(m: Memory, m1: Memory, m': Memory, src: nat, d: nat, i: nat, t: nat)
    requires SlotStep(m, m1, src, d, i) && SlotsCloned(m1, m', src, d, i)
    requires t in m'.tables && t !in m.tables
    ensures exists j :: j < i + 1 && Links(m', d, j, t)
  {
    hide Linked, Owned, SlotCloned, HeldByNew;
    if t in m1.tables {
      assert Links(m1, d, i, t) && SameSlot(m1, m', d, i);
      assert Links(m', d, i, t);
    } else {
      var j :| j < i && Links(m', d, j, t);
    }
  }

  lemma AddSlotClones(m: Memory, m1: Memory, m': Memory, src: nat, d: nat, i: nat, j: nat)
    requires SlotStep(m, m1, src, d, i) && SlotsCloned(m1, m', src, d, i)
    requires d != src && d != m.kernel && j < i + 1 && Extends(m, m')
    ensures SlotCloned(m, m', src, d, j)
  {
    assert Shaped(m) && Shaped(m1) && Shaped(m');
    hide Owned, Linked, Extends;
    if j == i {
      assert SameSlot(m1, m', d, i);
      SlotClonedLater(m, m, m1, m', src, d, j);
    } else {
      SlotClonedLater(m, m1, m', m', src, d, j);
    }
  }

  lemma AddSlot(m: Memory, m1: Memory, m': Memory, src: nat, d: nat, i: nat)
    requires SlotStep(m, m1, src, d, i) && SlotsCloned(m1, m', src, d, i)
    requires d != src && d != m.kernel
    ensures SlotsCloned(m, m', src, d, i + 1)
  {
    ExtendsTwice(m, m1, m');
    hide Linked, Owned, SlotCloned, HeldByNew, Links;
    forall t | t in m'.tables && t !in m.tables
      ensures exists j :: j < i + 1 && Links(m', d, j, t)
    {
      AddSlotLinks(m, m1, m', src, d, i, t);
    }
    forall j: nat | j < i + 1
      ensures SlotCloned(m, m', src, d, j)
    {
      AddSlotClones(m, m1, m', src, d, i, j);
    }
    forall f: nat | f < |m.ram| && Used(m'.fm, f) && !Used(m.fm, f)
      ensures HeldByNew(m, m', f)
    {
      AddSlotHeld(m, m1, m', src, d, i, f);
    }
    forall j | i + 1 <= j < ENTRIES
      ensures SameSlot(m, m', d, j)
    {
      assert SameSlot(m, m1, d, j) && SameSlot(m1, m', d, j);
    }
  }

  lemma {:induction false} CloneSlotsCopy(m: Memory, src: nat, d: nat, i: nat)
    requires CanCloneSlots(m, src, d, i)
    ensures SlotsCloned(m, CloneSlots(m, src, d, i), src, d, i)
    decreases i
  {
    if i > 0 {
      CloneSlotStep(m, src, d, i - 1);
      var m1 := CloneSlot(m, src, d, i - 1);
      CloneSlotsCopy(m1, src, d, i - 1);
      AddSlot(m, m1, CloneSlots(m1, src, d, i - 1), src, d, i - 1);
    }
  }
}

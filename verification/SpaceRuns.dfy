/** free_directory, a clone undone by it, and what every run of the paging operations keeps. */
module SpaceRuns {
  import opened Limits
  import opened FrameMap
  import opened AddressSpace
  import opened CloneSpace

  // ---- clone_directory ----------------------------------------------------

  function NewDirectory(m: Memory): Memory
  {
    var p := AlignUp(m.pos);
    var none := seq(ENTRIES, _ => 0);
    Memory(m.fm, m.ram, m.tables, m.dirs[p := Directory(none, p, none)], m.kernel, p + DIRECTORY_SIZE)
  }

  ghost predicate CanCloneDirectory(m: Memory, src: nat)
  {
    Sound(m) && FrameZeroTaken(m) && src in m.dirs && NeededSlots(m, src, ENTRIES) <= |FreeFrames(m.fm)|
  }

  lemma NewDirectoryLinks(m: Memory)
    requires Shaped(m)
    ensures forall d, i, t :: Links(NewDirectory(m), d, i, t) <==> Links(m, d, i, t)
    ensures Shaped(NewDirectory(m))
  {
  }

  lemma NewDirectoryKeeps(m: Memory)
    requires Sound(m)
    ensures Sound(NewDirectory(m))
  {
    NewDirectoryLinks(m);
    OwnedByTables(m, NewDirectory(m));
    forall t | t in m.tables
      ensures exists d, i :: Links(NewDirectory(m), d, i, t)
    {
      var d, i :| Links(m, d, i, t);
      assert Links(NewDirectory(m), d, i, t);
    }
  }

  lemma NewDirectoryReady(m: Memory, src: nat)
    requires CanCloneDirectory(m, src)
    ensures CanCloneSlots(NewDirectory(m), src, AlignUp(m.pos), ENTRIES)
  {
    NewDirectoryKeeps(m);
    NeededSlotsSame(m, NewDirectory(m), src, ENTRIES);
  }

  /** The copy of directory src, which stands at AlignUp(m.pos). */
  function CloneDirectory(m: Memory, src: nat): Memory
    requires CanCloneDirectory(m, src)
  {
    NewDirectoryReady(m, src);
    CloneSlots(NewDirectory(m), src, AlignUp(m.pos), ENTRIES)
  }

  lemma CloneStarts(m: Memory, src: nat)
    requires CanCloneDirectory(m, src)
    ensures Shaped(m) && CanCloneSlots(NewDirectory(m), src, AlignUp(m.pos), ENTRIES)
    ensures CloneDirectory(m, src) == CloneSlots(NewDirectory(m), src, AlignUp(m.pos), ENTRIES)
  {
    NewDirectoryReady(m, src);
  }

  /** m' is m with a directory d more that stands for src slot by slot. */
  ghost predicate DirectoryCloned(m: Memory, m': Memory, src: nat, d: nat)
  {
    && Sound(m) && Sound(m') && Extends(m, m') && src in m.dirs && d !in m.dirs && d in m'.dirs
    && m'.dirs == m.dirs[d := m'.dirs[d]] && m'.dirs[d].physPos == d && m'.kernel == m.kernel
    && (forall t :: t in m.tables ==> t in m'.tables && m'.tables[t] == m.tables[t])
    && (forall t :: t in m'.tables && t !in m.tables ==> exists j :: Links(m', d, j, t))
    && (forall j: nat :: j < ENTRIES ==> SlotCloned(m, m', src, d, j))
    && (forall f: nat :: f < |m.ram| && Used(m'.fm, f) && !Used(m.fm, f) ==> HeldByNew(m, m', f))
  }

  lemma CopiedDirectory(m: Memory, m1: Memory, m': Memory, src: nat, d: nat)
    requires Sound(m) && src in m.dirs && m1 == NewDirectory(m) && d == AlignUp(m.pos)
    requires SlotsCloned(m1, m', src, d, ENTRIES)
    ensures DirectoryCloned(m, m', src, d)
  {
    assert Shaped(m) && Shaped(m1) && Shaped(m') && Extends(m, m1);
    hide Owned, Linked;
    forall f: nat | f < |m.ram| && Used(m'.fm, f) && !Used(m.fm, f)
      ensures HeldByNew(m, m', f)
    {
      assert HeldByNew(m1, m', f);
      var t, k :| t !in m1.tables && Holds(m', t, k, f);
    }
    forall j: nat | j < ENTRIES
      ensures SlotCloned(m, m', src, d, j)
    {
      assert SlotCloned(m1, m', src, d, j);
      SlotClonedLater(m, m1, m', m', src, d, j);
    }
  }

  lemma CloneDirectoryCopies(m: Memory, src: nat)
    requires CanCloneDirectory(m, src)
    ensures DirectoryCloned(m, CloneDirectory(m, src), src, AlignUp(m.pos))
  {
    NewDirectoryReady(m, src);
    CloneSlotsCopy(NewDirectory(m), src, AlignUp(m.pos), ENTRIES);
    hide Owned, Linked;
    CopiedDirectory(m, NewDirectory(m), CloneDirectory(m, src), src, AlignUp(m.pos));
  }

  /** Page by page: mapped alike; a copied page is in a frame of its own that was free and holds the same words. */
  lemma CloneMeansTheSame(m: Memory, m': Memory, src: nat, d: nat, p: nat)
    requires DirectoryCloned(m, m', src, d) && p < PAGES
    ensures FrameOf(m, src, p) == 0 <==> FrameOf(m', d, p) == 0
    ensures FrameOf(m, src, p) != 0 ==>
              var f, f' := FrameOf(m, src, p), FrameOf(m', d, p);
              && f < |m.ram| && f' < |m'.ram|
              && m'.ram[f'] == m'.ram[f] == m.ram[f]
              && m.dirs[src].tables[p / ENTRIES] in m.tables && m'.dirs[d].tables[p / ENTRIES] in m'.tables
              && m'.tables[m'.dirs[d].tables[p / ENTRIES]][p % ENTRIES].flags
                 == m.tables[m.dirs[src].tables[p / ENTRIES]][p % ENTRIES].flags
              && if IsPrivate(m, src, p / ENTRIES) then !Used(m.fm, f')
                 else m'.dirs[d].tables[p / ENTRIES] == m.dirs[m.kernel].tables[p / ENTRIES] && f' == f
  {
    var i, k := p / ENTRIES, p % ENTRIES;
    assert SlotCloned(m, m', src, d, i);
    var t, t' := m.dirs[src].tables[i], m'.dirs[d].tables[i];
    if t != 0 {
      assert Links(m, src, i, t) && Links(m', d, i, t');
      assert Holds(m, t, k, m.tables[t][k].frame) && Holds(m', t', k, m'.tables[t'][k].frame);
      if IsPrivate(m, src, i) {
        assert EntryCloned(m, m', t, t', k);
      }
    }
  }

  // ---- free_directory -----------------------------------------------------

  function FreeEntries(fm: seq<Word>, table: seq<Page>, i: nat): (r: seq<Word>)
    requires i <= |table| && forall k :: 0 <= k < i ==> table[k].frame == 0 || table[k].frame < 32 * |fm|
    ensures |r| == |fm|
    decreases i
  {
    if i == 0 then fm
    else
      var f := table[i - 1].frame;
      FreeEntries(if f == 0 then fm else SetBit(fm, f, false), table, i - 1)
  }

  lemma {:induction false} FreeEntriesClears(fm: seq<Word>, table: seq<Page>, i: nat)
    requires i <= |table| && forall k :: 0 <= k < i ==> table[k].frame == 0 || table[k].frame < 32 * |fm|
    ensures forall f: nat :: f < 32 * |fm| ==>
              (Used(FreeEntries(fm, table, i), f) <==> Used(fm, f) && (f == 0 || forall k :: 0 <= k < i ==> table[k].frame != f))
    decreases i
  {
    if i > 0 {
      var f := table[i - 1].frame;
      FreeEntriesClears(if f == 0 then fm else SetBit(fm, f, false), table, i - 1);
    }
  }

  ghost function PrivateTables(m: Memory, d: nat, i: nat): set<nat>
    requires Shaped(m) && d in m.dirs && i <= ENTRIES
  {
    set j: nat | j < i && IsPrivate(m, d, j) :: m.dirs[d].tables[j]
  }

  ghost predicate CanFreeSlots(m: Memory, d: nat, i: nat)
  {
    && Shaped(m) && d in m.dirs && i <= ENTRIES
    && (forall t, k, f :: Holds(m, t, k, f) && f != 0 ==> 0 < f < |m.ram|)
    && (forall j: nat :: j < i && IsPrivate(m, d, j) ==> m.dirs[d].tables[j] in m.tables)
    && (forall j: nat, j': nat :: j < j' < i && IsPrivate(m, d, j) && IsPrivate(m, d, j') ==>
          m.dirs[d].tables[j] != m.dirs[d].tables[j'])
  }

  function FreeTable(m: Memory, t: nat): Memory
    requires Shaped(m) && t in m.tables && forall k :: 0 <= k < ENTRIES ==> m.tables[t][k].frame == 0 || m.tables[t][k].frame < |m.ram|
  {
    Memory(FreeEntries(m.fm, m.tables[t], ENTRIES), m.ram, m.tables - {t}, m.dirs, m.kernel, m.pos)
  }

  lemma FreeTableFrees(m: Memory, d: nat, i: nat)
    requires CanFreeSlots(m, d, i + 1) && IsPrivate(m, d, i)
    ensures forall k :: 0 <= k < ENTRIES ==>
              m.tables[m.dirs[d].tables[i]][k].frame == 0 || m.tables[m.dirs[d].tables[i]][k].frame < |m.ram|
    ensures
      var t := m.dirs[d].tables[i];
      var m' := FreeTable(m, t);
      && CanFreeSlots(m', d, i) && m'.tables == m.tables - {t} && |m'.fm| == |m.fm|
      && m'.ram == m.ram && m'.dirs == m.dirs && m'.kernel == m.kernel && m'.pos == m.pos
      && (forall f: nat :: f < |m.ram| ==> (Used(m'.fm, f) <==> Used(m.fm, f) && (f == 0 || !HeldBy(m, {t}, f))))
  {
    var t := m.dirs[d].tables[i];
    forall k | 0 <= k < ENTRIES
      ensures m.tables[t][k].frame == 0 || m.tables[t][k].frame < |m.ram|
    {
      assert Holds(m, t, k, m.tables[t][k].frame);
    }
    var m' := FreeTable(m, t);
    FreeEntriesClears(m.fm, m.tables[t], ENTRIES);
    forall u, k, f | Holds(m', u, k, f) && f != 0
      ensures 0 < f < |m.ram|
    {
      assert Holds(m, u, k, f);
    }
    forall f: nat | f < |m.ram|
      ensures HeldBy(m, {t}, f) <==> exists k :: 0 <= k < ENTRIES && m.tables[t][k].frame == f
    {
      if k :| 0 <= k < ENTRIES && m.tables[t][k].frame == f {
        assert Holds(m, t, k, f);
      }
    }
    assert forall j: nat :: j < i ==> IsPrivate(m', d, j) == IsPrivate(m, d, j);
  }

  /** Some table of ts holds frame f. */
  ghost predicate HeldBy(m: Memory, ts: set<nat>, f: nat)
  {
    exists t, k :: t in ts && Holds(m, t, k, f)
  }

  function FreeSlots(m: Memory, d: nat, i: nat): Memory
    requires CanFreeSlots(m, d, i)
    decreases i
  {
    if i == 0 then m
    else if !IsPrivate(m, d, i - 1) then FreeSlots(m, d, i - 1)
    else
      FreeTableFrees(m, d, i - 1);
      FreeSlots(FreeTable(m, m.dirs[d].tables[i - 1]), d, i - 1)
  }

  ghost predicate SlotsFreed(m: Memory, m': Memory, d: nat, i: nat)
  {
    && Shaped(m) && d in m.dirs && i <= ENTRIES && |m'.fm| == |m.fm|
    && m'.ram == m.ram && m'.dirs == m.dirs && m'.kernel == m.kernel && m'.pos == m.pos
    && m'.tables == m.tables - PrivateTables(m, d, i)
    && forall f: nat :: f < |m.ram| ==> (Used(m'.fm, f) <==> Used(m.fm, f) && (f == 0 || !HeldBy(m, PrivateTables(m, d, i), f)))
  }

  lemma FreeOneMore(m: Memory, m1: Memory, m': Memory, d: nat, i: nat)
    requires Shaped(m) && d in m.dirs && i < ENTRIES && IsPrivate(m, d, i)
    requires m1.tables == m.tables - {m.dirs[d].tables[i]} && |m1.fm| == |m.fm|
    requires m1.ram == m.ram && m1.dirs == m.dirs && m1.kernel == m.kernel && m1.pos == m.pos
    requires forall f: nat :: f < |m.ram| ==>
               (Used(m1.fm, f) <==> Used(m.fm, f) && (f == 0 || !HeldBy(m, {m.dirs[d].tables[i]}, f)))
    requires SlotsFreed(m1, m', d, i)
    ensures SlotsFreed(m, m', d, i + 1)
  {
    var t := m.dirs[d].tables[i];
    assert forall j: nat :: j < i ==> IsPrivate(m1, d, j) == IsPrivate(m, d, j);
    var ts, rest := PrivateTables(m, d, i + 1), PrivateTables(m1, d, i);
    assert ts == rest + {t};
    forall f: nat
      ensures HeldBy(m, ts, f) <==> HeldBy(m, {t}, f) || HeldBy(m1, rest, f)
    {
      if HeldBy(m, ts, f) {
        var u, k :| u in ts && Holds(m, u, k, f);
        assert u != t ==> Holds(m1, u, k, f);
      }
      if HeldBy(m1, rest, f) {
        var u, k :| u in rest && Holds(m1, u, k, f);
        assert Holds(m, u, k, f);
      }
    }
  }

  lemma {:induction false} FreeSlotsFrees(m: Memory, d: nat, i: nat)
    requires CanFreeSlots(m, d, i)
    ensures SlotsFreed(m, FreeSlots(m, d, i), d, i)
    decreases i
  {
    if i == 0 {
      assert PrivateTables(m, d, 0) == {};
    } else if !IsPrivate(m, d, i - 1) {
      FreeSlotsFrees(m, d, i - 1);
      assert PrivateTables(m, d, i) == PrivateTables(m, d, i - 1);
    } else {
      FreeTableFrees(m, d, i - 1);
      hide Used, HeldBy, Holds, FreeTable;
      var m1 := FreeTable(m, m.dirs[d].tables[i - 1]);
      FreeSlotsFrees(m1, d, i - 1);
      FreeOneMore(m, m1, FreeSlots(m1, d, i - 1), d, i - 1);
    }
  }

  lemma CanFreeDirectory(m: Memory, d: nat)
    requires Sound(m) && d in m.dirs
    ensures CanFreeSlots(m, d, ENTRIES)
  {
    forall j: nat | j < ENTRIES && IsPrivate(m, d, j)
      ensures m.dirs[d].tables[j] in m.tables
    {
      assert Links(m, d, j, m.dirs[d].tables[j]);
    }
    forall j: nat, j': nat | j < j' < ENTRIES && IsPrivate(m, d, j) && IsPrivate(m, d, j')
      ensures m.dirs[d].tables[j] != m.dirs[d].tables[j']
    {
      assert Links(m, d, j, m.dirs[d].tables[j]) && Links(m, d, j', m.dirs[d].tables[j']);
    }
    forall t, k, f | Holds(m, t, k, f) && f != 0
      ensures 0 < f < |m.ram|
    {
      assert m.tables[t][k].frame == f;
    }
  }

  function FreeDirectory(m: Memory, d: nat): Memory
    requires Sound(m) && d in m.dirs && d != m.kernel
  {
    CanFreeDirectory(m, d);
    var m1 := FreeSlots(m, d, ENTRIES);
    Memory(m1.fm, m1.ram, m1.tables, m1.dirs - {d}, m1.kernel, m1.pos)
  }

  lemma FreedLinks(m: Memory, m': Memory, d: nat)
    requires Linked(m) && d in m.dirs && d != m.kernel && Shaped(m')
    requires m'.tables == m.tables - PrivateTables(m, d, ENTRIES) && m'.dirs == m.dirs - {d} && m'.kernel == m.kernel
    ensures Linked(m')
  {
    assert forall e, i, t :: Links(m', e, i, t) <==> Links(m, e, i, t) && e != d;
    forall e, i, t | Links(m', e, i, t)
      ensures t in m'.tables
    {
      if j: nat :| j < ENTRIES && IsPrivate(m, d, j) && m.dirs[d].tables[j] == t {
        assert Links(m, e, i, t) && Links(m, d, j, t);
      }
    }
    forall t | t in m'.tables
      ensures exists e, i :: Links(m', e, i, t)
    {
      var e, i :| Links(m, e, i, t);
      if e == d {
        assert !IsPrivate(m, d, i);
        assert Links(m, m.kernel, i, t);
        assert Links(m', m.kernel, i, t);
      } else {
        assert Links(m', e, i, t);
      }
    }
  }

  lemma FreedOwned(m: Memory, m': Memory, ts: set<nat>)
    requires Owned(m) && Shaped(m') && |m'.fm| == |m.fm| && m'.tables == m.tables - ts
    requires forall f: nat :: f < |m.ram| ==> (Used(m'.fm, f) <==> Used(m.fm, f) && (f == 0 || !HeldBy(m, ts, f)))
    ensures Owned(m')
  {
    assert forall t, k, f :: Holds(m', t, k, f) <==> Holds(m, t, k, f) && t !in ts;
    forall t, k, f | Holds(m', t, k, f) && f != 0
      ensures f < |m.ram| && Used(m'.fm, f)
    {
      assert !HeldBy(m, ts, f) by {
        assert forall u, j :: Holds(m, u, j, f) ==> u == t;
      }
    }
    forall f: nat | 0 < f < |m.ram| && Used(m'.fm, f)
      ensures exists t, k :: Holds(m', t, k, f)
    {
      var t, k :| Holds(m, t, k, f);
      assert Holds(m', t, k, f);
    }
  }

  lemma FreeDirectoryKeeps(m: Memory, d: nat)
    requires Sound(m) && d in m.dirs && d != m.kernel
    ensures Sound(FreeDirectory(m, d))
    ensures FrameZeroTaken(m) ==> FrameZeroTaken(FreeDirectory(m, d))
  {
    CanFreeDirectory(m, d);
    FreeSlotsFrees(m, d, ENTRIES);
    var m1, m' := FreeSlots(m, d, ENTRIES), FreeDirectory(m, d);
    FreedLinks(m, m', d);
    FreedOwned(m, m', PrivateTables(m, d, ENTRIES));
  }

  /** A clone that is torn down again leaves the bitmap, bit for bit, the tables and the directories as they were. */
  lemma CloneThenFree(m: Memory, src: nat)
    requires CanCloneDirectory(m, src)
    ensures DirectoryCloned(m, CloneDirectory(m, src), src, AlignUp(m.pos))
    ensures
      var m' := FreeDirectory(CloneDirectory(m, src), AlignUp(m.pos));
      m'.fm == m.fm && m'.tables == m.tables && m'.dirs == m.dirs && m'.kernel == m.kernel
      && |m'.ram| == |m.ram| && forall f: nat :: f < |m.ram| && Used(m.fm, f) ==> m'.ram[f] == m.ram[f]
  {
    CloneDirectoryCopies(m, src);
    var m1, d := CloneDirectory(m, src), AlignUp(m.pos);
    CanFreeDirectory(m1, d);
    FreeSlotsFrees(m1, d, ENTRIES);
    UndoneClone(m, m1, FreeDirectory(m1, d), src, d);
  }

  lemma NewTablesArePrivate(m: Memory, m1: Memory, src: nat, d: nat)
    requires DirectoryCloned(m, m1, src, d)
    ensures PrivateTables(m1, d, ENTRIES) == m1.tables.Keys - m.tables.Keys
  {
    forall t | t in PrivateTables(m1, d, ENTRIES)
      ensures t in m1.tables && t !in m.tables
    {
      var j: nat :| j < ENTRIES && IsPrivate(m1, d, j) && m1.dirs[d].tables[j] == t;
      assert SlotCloned(m, m1, src, d, j);
      assert Links(m1, d, j, t);
    }
    forall t | t in m1.tables && t !in m.tables
      ensures t in PrivateTables(m1, d, ENTRIES)
    {
      var j :| Links(m1, d, j, t);
      assert !Links(m, m.kernel, j, t);
      assert IsPrivate(m1, d, j);
    }
  }

  lemma UndoneClone(m: Memory, m1: Memory, m': Memory, src: nat, d: nat)
    requires DirectoryCloned(m, m1, src, d) && d != m.kernel && d != 0
    requires |m'.fm| == |m.fm| && m'.tables == m1.tables - PrivateTables(m1, d, ENTRIES) && m'.dirs == m1.dirs - {d}
    requires forall f: nat :: f < |m1.ram| ==>
               (Used(m'.fm, f) <==> Used(m1.fm, f) && (f == 0 || !HeldBy(m1, PrivateTables(m1, d, ENTRIES), f)))
    requires FrameZeroTaken(m)
    ensures m'.fm == m.fm && m'.tables == m.tables && m'.dirs == m.dirs
  {
    NewTablesArePrivate(m, m1, src, d);
    var ts := PrivateTables(m1, d, ENTRIES);
    forall f: nat | f < 32 * |m.fm|
      ensures Used(m'.fm, f) == Used(m.fm, f)
    {
      if Used(m.fm, f) && f != 0 {
        var t, k :| Holds(m, t, k, f);
        assert Holds(m1, t, k, f);
        assert !HeldBy(m1, ts, f) by {
          assert forall u, j :: Holds(m1, u, j, f) ==> u == t;
        }
      } else if !Used(m.fm, f) && Used(m1.fm, f) {
        assert HeldByNew(m, m1, f);
        var t, k :| t !in m.tables && Holds(m1, t, k, f);
        assert t in ts;
      }
    }
    SameBits(m'.fm, m.fm);
  }

  // ---- Runs ---------------------------------------------------------------

  datatype Op =
    | Map(address: nat, flags: nat, dir: nat, alloc: bool)
    | Unmap(address: nat, dir: nat)
    | Clone(dir: nat)
    | Teardown(dir: nat)

  /** What the callers see to: a live directory, a 32-bit address, and enough free frames. */
  ghost predicate Enabled(m: Memory, op: Op)
    requires Sound(m)
  {
    op.dir in m.dirs &&
    match op
    case Map(address, flags, _, alloc) => address < 0x1_0000_0000 && (alloc ==> HasFree(m))
    case Unmap(address, _) => address < 0x1_0000_0000
    case Clone(d) => NeededSlots(m, d, ENTRIES) <= |FreeFrames(m.fm)|
    case Teardown(d) => d != m.kernel
  }

  ghost function Apply(m: Memory, op: Op): Memory
    requires Sound(m) && FrameZeroTaken(m) && Enabled(m, op)
  {
    match op
    case Map(address, flags, d, alloc) => MakePage(m, address, flags, d, alloc)
    case Unmap(address, d) => FreePage(m, address, d)
    case Clone(d) => CloneDirectory(m, d)
    case Teardown(d) => FreeDirectory(m, d)
  }

  lemma ApplyKeeps(m: Memory, op: Op)
    requires Sound(m) && FrameZeroTaken(m) && Enabled(m, op)
    ensures Sound(Apply(m, op)) && FrameZeroTaken(Apply(m, op))
  {
    match op
    case Map(address, flags, d, alloc) => MakePageKeeps(m, address, flags, d, alloc);
    case Unmap(address, d) => FreePageKeeps(m, address, d);
    case Clone(d) => CloneDirectoryCopies(m, d);
    case Teardown(d) => FreeDirectoryKeeps(m, d);
  }

  lemma MakePageKeeps(m: Memory, address: nat, flags: nat, d: nat, alloc: bool)
    requires Sound(m) && d in m.dirs && address < 0x1_0000_0000
    requires alloc ==> HasFree(m)
    ensures Sound(MakePage(m, address, flags, d, alloc))
    ensures FrameZeroTaken(m) ==> FrameZeroTaken(MakePage(m, address, flags, d, alloc))
  {
    var tab := address / FRAME_SIZE / ENTRIES;
    var m1 := if m.dirs[d].physTabs[tab] == 0 then MakeTable(m, tab, flags, d) else m;
    if m.dirs[d].physTabs[tab] == 0 {
      MakeTableKeeps(m, tab, flags, d);
    }
    assert Links(m1, d, tab, m1.dirs[d].tables[tab]);
    if alloc {
      FreeFrameIsFound(m1);
      AllocFrameKeeps(m1, m1.dirs[d].tables[tab], address / FRAME_SIZE % ENTRIES, flags);
    }
  }

  lemma FreePageKeeps(m: Memory, address: nat, d: nat)
    requires Sound(m) && d in m.dirs && address < 0x1_0000_0000
    ensures Sound(FreePage(m, address, d))
    ensures FrameZeroTaken(m) ==> FrameZeroTaken(FreePage(m, address, d))
  {
    var tab := address / FRAME_SIZE / ENTRIES;
    if m.dirs[d].physTabs[tab] != 0 {
      assert Links(m, d, tab, m.dirs[d].tables[tab]);
      FreeFrameKeeps(m, m.dirs[d].tables[tab], address / FRAME_SIZE % ENTRIES);
    }
  }

  /** m' is reached from m by the operations ops, each allowed when its turn comes. */
  ghost predicate Reaches(m: Memory, ops: seq<Op>, m': Memory)
    decreases |ops|
  {
    if ops == [] then m == m'
    else Sound(m) && FrameZeroTaken(m) && Enabled(m, ops[0]) && Reaches(Apply(m, ops[0]), ops[1..], m')
  }

  lemma {:induction false} RunsKeepFramesOwned(m: Memory, ops: seq<Op>, m': Memory)
    requires Sound(m) && FrameZeroTaken(m) && Reaches(m, ops, m')
    ensures Sound(m') && FrameZeroTaken(m')
    decreases |ops|
  {
    if ops != [] {
      ApplyKeeps(m, ops[0]);
      RunsKeepFramesOwned(Apply(m, ops[0]), ops[1..], m');
    }
  }
}

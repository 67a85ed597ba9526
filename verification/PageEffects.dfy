/**
  What make_page and free_page do to address spaces (src/mm/paging.c), told by what every page of every
  directory translates to, and by which frames are free.
 */
module PageEffects {
  import opened Limits
  import opened FrameMap
  import opened AddressSpace
  import opened CloneSpace
  import opened SpaceRuns

  /** Page p of e and page p of d are one entry of one table. */
  predicate SameEntry(m: Memory, d: nat, e: nat, p: nat)
    requires d in m.dirs && e in m.dirs && |m.dirs[d].tables| == |m.dirs[e].tables| == ENTRIES && p < PAGES
  {
    m.dirs[e].tables[p / ENTRIES] == m.dirs[d].tables[p / ENTRIES]
  }

  /** Two tables of two slots, or two pages of one table: an entry is that of page p only where SameEntry says so. */
  lemma EntryChanges(m: Memory, m': Memory, d: nat, p: nat, page: Page, e: nat, q: nat)
    requires Linked(m) && Linked(m') && m'.dirs == m.dirs && d in m.dirs && e in m.dirs && p < PAGES && q < PAGES
    requires m.dirs[d].tables[p / ENTRIES] != 0 && m.dirs[d].tables[p / ENTRIES] in m.tables
    requires m'.tables == m.tables[m.dirs[d].tables[p / ENTRIES] := m.tables[m.dirs[d].tables[p / ENTRIES]][p % ENTRIES := page]]
    ensures EntryOf(m', e, q) == if q == p && SameEntry(m, d, e, p) then page else EntryOf(m, e, q)
  {
    var t, u := m.dirs[d].tables[p / ENTRIES], m.dirs[e].tables[q / ENTRIES];
    assert Links(m, d, p / ENTRIES, t);
    assert u != 0 ==> Links(m, e, q / ENTRIES, u);
    assert p == p / ENTRIES * ENTRIES + p % ENTRIES && q == q / ENTRIES * ENTRIES + q % ENTRIES;
  }

  /** Only the entry of page p in directory d changes, for d and for those who share its table with d. */
  ghost predicate OnlyPage(m: Memory, m': Memory, d: nat, p: nat)
  {
    && Linked(m) && Linked(m') && m'.dirs.Keys == m.dirs.Keys && m'.ram == m.ram && m'.kernel == m.kernel && d in m.dirs && p < PAGES
    && forall e: nat, q: nat :: e in m.dirs && q < PAGES && !(q == p && SameEntry(m', d, e, p)) ==> EntryOf(m', e, q) == EntryOf(m, e, q)
  }

  /** free_page takes page p out of d, and of whoever shares its table with d, and gives its frame back. */
  lemma FreePageUnmaps(m: Memory, address: nat, d: nat)
    requires Sound(m) && d in m.dirs && address < 0x1_0000_0000
    ensures var (p, m') := (address / FRAME_SIZE, FreePage(m, address, d));
            && OnlyPage(m, m', d, p) && m'.dirs == m.dirs && |m'.fm| == |m.fm|
            && FreeFrames(m'.fm) == FreeFrames(m.fm) + (if FrameOf(m, d, p) == 0 then {} else {FrameOf(m, d, p)})
            && forall e :: e in m.dirs && SameEntry(m, d, e, p) ==>
                 EntryOf(m', e, p) == Page(EntryOf(m, e, p).flags, 0) && FrameOf(m', e, p) == 0
  {
    var p, m' := address / FRAME_SIZE, FreePage(m, address, d);
    FreePageKeeps(m, address, d);
    var t := m.dirs[d].tables[p / ENTRIES];
    if t != 0 {
      assert Links(m, d, p / ENTRIES, t);
      var page := m.tables[t][p % ENTRIES];
      assert Holds(m, t, p % ENTRIES, page.frame);
      forall e: nat, q: nat | e in m.dirs && q < PAGES
        ensures EntryOf(m', e, q) == if q == p && SameEntry(m, d, e, p) then Page(page.flags, 0) else EntryOf(m, e, q)
      {
        EntryChanges(m, m', d, p, Page(page.flags, 0), e, q);
      }
    }
  }

  /** The page reads as mapped to the lowest free frame, or is left alone when it was mapped before. */
  ghost predicate Mapped(m: Memory, m': Memory, d: nat, p: nat, flags: nat)
    requires Linked(m) && Linked(m') && d in m.dirs && d in m'.dirs && p < PAGES && |m'.fm| == |m.fm|
  {
    if FrameOf(m, d, p) != 0 then m'.fm == m.fm && EntryOf(m', d, p) == EntryOf(m, d, p)
    else exists f :: IsFirstFree(m.fm, f) && EntryOf(m', d, p) == Page(flags, f) && FreeFrames(m'.fm) == FreeFrames(m.fm) - {f}
  }

  /** A slot that had no table has an empty one; every slot that had one is as before. */
  ghost predicate TableThere(m: Memory, m': Memory, d: nat, i: nat, flags: nat)
  {
    && Shaped(m) && Shaped(m') && d in m.dirs && d in m'.dirs && m'.dirs == m.dirs[d := m'.dirs[d]] && i < ENTRIES
    && m'.dirs[d].physPos == m.dirs[d].physPos
    && (forall j :: 0 <= j < ENTRIES && (j != i || m.dirs[d].tables[j] != 0) ==> SameSlot(m, m', d, j))
    && m'.dirs[d].tables[i] != 0
    && (m.dirs[d].tables[i] == 0 ==>
          m'.dirs[d].tables[i] % FRAME_SIZE == 0 && m'.dirs[d].physTabs[i] == m'.dirs[d].tables[i] + flags)
  }

  /** The table make_table adds is empty, so that no page translates differently. */
  lemma MakeTableAdds(m: Memory, d: nat, i: nat, flags: nat)
    requires Sound(m) && d in m.dirs && i < ENTRIES && m.dirs[d].tables[i] == 0
    ensures var m' := MakeTable(m, i, flags, d);
            && Sound(m') && TableThere(m, m', d, i, flags) && m'.fm == m.fm && m'.ram == m.ram && m'.kernel == m.kernel
            && forall e: nat, q: nat :: e in m.dirs && q < PAGES ==> EntryOf(m', e, q) == EntryOf(m, e, q)
  {
    MakeTableKeeps(m, i, flags, d);
    var m' := MakeTable(m, i, flags, d);
    forall e: nat, q: nat | e in m.dirs && q < PAGES
      ensures EntryOf(m', e, q) == EntryOf(m, e, q)
    {
      var u := m.dirs[e].tables[q / ENTRIES];
      assert u != 0 ==> Links(m, e, q / ENTRIES, u);
    }
  }

  /** alloc_frame on the entry of page p in d. */
  lemma AllocFrameMaps(m: Memory, d: nat, p: nat, flags: nat)
    requires Sound(m) && d in m.dirs && p < PAGES && HasFree(m)
    requires m.dirs[d].tables[p / ENTRIES] != 0 && m.dirs[d].tables[p / ENTRIES] in m.tables
    ensures var m' := AllocFrame(m, m.dirs[d].tables[p / ENTRIES], p % ENTRIES, flags);
            m'.dirs == m.dirs && |m'.fm| == |m.fm| && OnlyPage(m, m', d, p) && Mapped(m, m', d, p, flags)
  {
    var t := m.dirs[d].tables[p / ENTRIES];
    var m' := AllocFrame(m, t, p % ENTRIES, flags);
    AllocFrameKeeps(m, t, p % ENTRIES, flags);
    assert Links(m, d, p / ENTRIES, t);
    if m.tables[t][p % ENTRIES].frame == 0 {
      FreeFrameIsFound(m);
      var f := FirstFree(m.fm, 0);
      assert IsFirstFree(m.fm, f);
      forall e: nat, q: nat | e in m.dirs && q < PAGES
        ensures EntryOf(m', e, q) == if q == p && SameEntry(m, d, e, p) then Page(flags, f) else EntryOf(m, e, q)
      {
        EntryChanges(m, m', d, p, Page(flags, f), e, q);
      }
      assert EntryOf(m', d, p) == Page(flags, f);
    }
  }

  /** make_page makes the table when there is none, and maps the page when it is asked to and the page is not mapped. */
  lemma MakePageMaps(m: Memory, address: nat, flags: nat, d: nat, alloc: bool)
    requires Sound(m) && d in m.dirs && address < 0x1_0000_0000 && (alloc ==> HasFree(m))
    ensures var (p, m') := (address / FRAME_SIZE, MakePage(m, address, flags, d, alloc));
            && OnlyPage(m, m', d, p) && TableThere(m, m', d, p / ENTRIES, flags) && |m'.fm| == |m.fm|
            && (alloc ==> Mapped(m, m', d, p, flags))
            && (!alloc ==> m'.fm == m.fm && EntryOf(m', d, p) == EntryOf(m, d, p))
  {
    var p, m' := address / FRAME_SIZE, MakePage(m, address, flags, d, alloc);
    var m1 := if m.dirs[d].tables[p / ENTRIES] == 0 then MakeTable(m, p / ENTRIES, flags, d) else m;
    if m.dirs[d].tables[p / ENTRIES] == 0 {
      MakeTableAdds(m, d, p / ENTRIES, flags);
    }
    assert Links(m1, d, p / ENTRIES, m1.dirs[d].tables[p / ENTRIES]);
    if alloc {
      AllocFrameMaps(m1, d, p, flags);
      assert m' == AllocFrame(m1, m1.dirs[d].tables[p / ENTRIES], p % ENTRIES, flags);
    }
    MadeInTwoSteps(m, m1, m', d, p, flags, alloc);
  }

  lemma MadeInTwoSteps(m: Memory, m1: Memory, m': Memory, d: nat, p: nat, flags: nat, alloc: bool)
    requires Linked(m) && Linked(m1) && d in m.dirs && p < PAGES && TableThere(m, m1, d, p / ENTRIES, flags)
    requires m1.fm == m.fm && m1.ram == m.ram && m1.kernel == m.kernel && (forall e: nat, q: nat :: e in m.dirs && q < PAGES ==> EntryOf(m1, e, q) == EntryOf(m, e, q))
    requires if alloc then Linked(m') && m'.dirs == m1.dirs && |m'.fm| == |m.fm| && OnlyPage(m1, m', d, p) && Mapped(m1, m', d, p, flags) else m' == m1
    ensures OnlyPage(m, m', d, p) && TableThere(m, m', d, p / ENTRIES, flags)
    ensures alloc ==> Mapped(m, m', d, p, flags)
    ensures !alloc ==> EntryOf(m', d, p) == EntryOf(m, d, p)
  {
    assert Shaped(m') && Linked(m');
    hide Linked, Shaped, EntryOf, FrameOf;
  }

  lemma OtherPages(m: Memory, m1: Memory, m': Memory, d: nat, p: nat)
    requires OnlyPage(m, m1, d, p) && OnlyPage(m1, m', d, p)
    ensures forall e: nat, q: nat :: e in m.dirs && q < PAGES && q != p ==> EntryOf(m', e, q) == EntryOf(m, e, q)
  {
    hide Linked, EntryOf;
  }

  lemma TakenAndGivenBack(fm: seq<Word>, fm1: seq<Word>, fm': seq<Word>, f: nat)
    requires |fm'| == |fm| && IsFirstFree(fm, f) && FreeFrames(fm1) == FreeFrames(fm) - {f} && FreeFrames(fm') == FreeFrames(fm1) + {f}
    ensures fm' == fm
  {
    assert f in FreeFrames(fm);
    assert FreeFrames(fm') == FreeFrames(fm);
    forall g: nat | g < 32 * |fm|
      ensures Used(fm, g) == Used(fm', g)
    {
      assert g in FreeFrames(fm) <==> g in FreeFrames(fm');
    }
    SameBits(fm, fm');
  }

  /** Mapping an unmapped page and unmapping it again restores the bitmap bit for bit; every other page is as it was. */
  lemma MakeThenFree(m: Memory, address: nat, flags: nat, d: nat)
    requires Sound(m) && d in m.dirs && address < 0x1_0000_0000 && HasFree(m) && FrameZeroTaken(m)
    requires FrameOf(m, d, address / FRAME_SIZE) == 0
    ensures Sound(MakePage(m, address, flags, d, true)) && d in MakePage(m, address, flags, d, true).dirs
    ensures var m' := FreePage(MakePage(m, address, flags, d, true), address, d);
            && m'.fm == m.fm && Linked(m') && m'.dirs.Keys == m.dirs.Keys && FrameOf(m', d, address / FRAME_SIZE) == 0
            && forall e: nat, q: nat :: e in m.dirs && q < PAGES && q != address / FRAME_SIZE ==> EntryOf(m', e, q) == EntryOf(m, e, q)
  {
    hide FreePage, MakePage, Owned, Linked, FreeFrames, EntryOf;
    var p := address / FRAME_SIZE;
    MakePageMaps(m, address, flags, d, true);
    MakePageKeeps(m, address, flags, d, true);
    var m1 := MakePage(m, address, flags, d, true);
    var m' := FreePage(m1, address, d);
    FreePageUnmaps(m1, address, d);
    OtherPages(m, m1, m', d, p);
    var f :| IsFirstFree(m.fm, f) && EntryOf(m1, d, p) == Page(flags, f) && FreeFrames(m1.fm) == FreeFrames(m.fm) - {f};
    TakenAndGivenBack(m.fm, m1.fm, m'.fm, f);
  }

  // ---- free_directory -----------------------------------------------------

  /** Some page of d's own tables is in frame f. */
  ghost predicate MapsPrivately(m: Memory, d: nat, f: nat)
    requires Linked(m) && d in m.dirs
  {
    exists p: nat :: p < PAGES && IsPrivate(m, d, p / ENTRIES) && FrameOf(m, d, p) == f
  }

  lemma PrivatelyHeld(m: Memory, d: nat, f: nat)
    requires Linked(m) && d in m.dirs && f != 0
    ensures HeldBy(m, PrivateTables(m, d, ENTRIES), f) <==> MapsPrivately(m, d, f)
  {
    if HeldBy(m, PrivateTables(m, d, ENTRIES), f) {
      var t, k :| t in PrivateTables(m, d, ENTRIES) && Holds(m, t, k, f);
      var j: nat :| j < ENTRIES && IsPrivate(m, d, j) && m.dirs[d].tables[j] == t;
      var p: nat := j * ENTRIES + k;
      assert p / ENTRIES == j && p % ENTRIES == k;
      assert FrameOf(m, d, p) == f;
    }
    if p: nat :| p < PAGES && IsPrivate(m, d, p / ENTRIES) && FrameOf(m, d, p) == f {
      var t := m.dirs[d].tables[p / ENTRIES];
      assert Links(m, d, p / ENTRIES, t) && t in PrivateTables(m, d, ENTRIES) && Holds(m, t, p % ENTRIES, f);
    }
  }

  /** Tearing a directory down frees exactly the frames of its own pages, and no page of another directory changes. */
  lemma FreeDirectoryFrees(m: Memory, d: nat)
    requires Sound(m) && d in m.dirs && d != m.kernel
    ensures var m' := FreeDirectory(m, d);
            && Linked(m') && m'.dirs == m.dirs - {d} && |m'.fm| == |m.fm|
            && (forall f: nat :: f in FreeFrames(m'.fm) <==> f in FreeFrames(m.fm) || (f != 0 && MapsPrivately(m, d, f)))
            && forall e: nat, q: nat :: e in m'.dirs && q < PAGES ==> EntryOf(m', e, q) == EntryOf(m, e, q)
  {
    var m' := FreeDirectory(m, d);
    FreeDirectoryKeeps(m, d);
    CanFreeDirectory(m, d);
    FreeSlotsFrees(m, d, ENTRIES);
    forall f: nat
      ensures f in FreeFrames(m'.fm) <==> f in FreeFrames(m.fm) || (f != 0 && MapsPrivately(m, d, f))
    {
      if f != 0 {
        PrivatelyHeld(m, d, f);
        if p: nat :| p < PAGES && IsPrivate(m, d, p / ENTRIES) && FrameOf(m, d, p) == f {
          assert Links(m, d, p / ENTRIES, m.dirs[d].tables[p / ENTRIES]) && Holds(m, m.dirs[d].tables[p / ENTRIES], p % ENTRIES, f);
        }
      }
    }
    forall e: nat, q: nat | e in m'.dirs && q < PAGES
      ensures EntryOf(m', e, q) == EntryOf(m, e, q)
    {
      var t := m.dirs[e].tables[q / ENTRIES];
      assert t != 0 ==> Links(m', e, q / ENTRIES, t);
    }
  }

  // ---- What the hardware is told ------------------------------------------

  /** The word the processor reads for a table is the table's address, with flags in the low bits. */
  ghost predicate WordOk(m: Memory, d: nat, i: nat)
  {
    Shaped(m) && d in m.dirs && i < ENTRIES && m.dirs[d].tables[i] != 0 ==>
      m.dirs[d].physTabs[i] / FRAME_SIZE * FRAME_SIZE == m.dirs[d].tables[i]
  }

  ghost predicate WordsOk(m: Memory)
  {
    forall d: nat, i: nat :: WordOk(m, d, i)
  }

  lemma WordOfTable(t: nat, flags: nat)
    requires t % FRAME_SIZE == 0 && flags < FRAME_SIZE
    ensures (t + flags) / FRAME_SIZE * FRAME_SIZE == t
  {
  }

  lemma WordsOfFewer(m: Memory, m': Memory)
    requires Shaped(m) && WordsOk(m) && forall d :: d in m'.dirs ==> d in m.dirs && m'.dirs[d] == m.dirs[d]
    ensures WordsOk(m')
  {
    forall d: nat, i: nat
      ensures WordOk(m', d, i)
    {
      assert WordOk(m, d, i);
    }
  }

  lemma WordsOfTable(m: Memory, m': Memory, d: nat, i: nat, flags: nat)
    requires WordsOk(m) && TableThere(m, m', d, i, flags) && flags < FRAME_SIZE
    ensures WordsOk(m')
  {
    forall e: nat, j: nat
      ensures WordOk(m', e, j)
    {
      assert WordOk(m, e, j);
      if e == d && j < ENTRIES {
        if j == i && m.dirs[d].tables[j] == 0 {
          WordOfTable(m'.dirs[d].tables[j], flags);
        } else {
          assert SameSlot(m, m', d, j);
        }
      }
    }
  }

  lemma WordsOfClone(m: Memory, m': Memory, src: nat, d: nat)
    requires WordsOk(m) && DirectoryCloned(m, m', src, d)
    ensures WordsOk(m')
  {
    assert Shaped(m) && Shaped(m');
    hide Sound, Owned, Linked, Extends, EntryCloned, HeldByNew;
    forall e: nat, j: nat
      ensures WordOk(m', e, j)
    {
      assert WordOk(m, e, j);
      if e == d && j < ENTRIES {
        assert SlotCloned(m, m', src, d, j) && WordOk(m, src, j);
        if m.dirs[src].tables[j] != 0 && m.dirs[src].tables[j] != m.dirs[m.kernel].tables[j] {
          WordOfTable(m'.dirs[d].tables[j], 7);
        }
      }
    }
  }

  lemma ApplyTellsTheHardware(m: Memory, op: Op)
    requires Sound(m) && FrameZeroTaken(m) && Enabled(m, op) && WordsOk(m)
    requires op.Map? ==> op.flags < FRAME_SIZE
    ensures WordsOk(Apply(m, op))
  {
    assert Shaped(m);
    hide WordsOk, Linked, Owned, DirectoryCloned, TableThere, OnlyPage;
    match op
    case Map(address, flags, d, alloc) =>
      MakePageMaps(m, address, flags, d, alloc);
      WordsOfTable(m, Apply(m, op), d, address / FRAME_SIZE / ENTRIES, flags);
    case Unmap(address, d) =>
      FreePageUnmaps(m, address, d);
      WordsOfFewer(m, Apply(m, op));
    case Clone(d) =>
      CloneDirectoryCopies(m, d);
      WordsOfClone(m, Apply(m, op), d, AlignUp(m.pos));
    case Teardown(d) =>
      CanFreeDirectory(m, d);
      FreeSlotsFrees(m, d, ENTRIES);
      WordsOfFewer(m, Apply(m, op));
  }

  /** In every run, whatever flags below 4096 are given. */
  lemma {:induction false} RunsTellTheHardware(m: Memory, ops: seq<Op>, m': Memory)
    requires Sound(m) && FrameZeroTaken(m) && Reaches(m, ops, m') && WordsOk(m)
    requires forall i :: 0 <= i < |ops| && ops[i].Map? ==> ops[i].flags < FRAME_SIZE
    ensures WordsOk(m')
    decreases |ops|
  {
    hide WordsOk;
    if ops != [] {
      ApplyKeeps(m, ops[0]);
      ApplyTellsTheHardware(m, ops[0]);
      assert forall i :: 0 <= i < |ops[1..]| ==> ops[1..][i] == ops[i + 1];
      RunsTellTheHardware(Apply(m, ops[0]), ops[1..], m');
    }
  }
}

/** src/mm/paging.c as it works: framemap and frames changed in place, tables and directories by pointer. */
module Paging {
  import opened Limits
  import FrameMap
  import CloneSpace
  import SpaceRuns
  import opened AddressSpace

  const PAGE_FLAGS_CLONE: nat := PAGE_FLAG_PRESENT + PAGE_FLAG_WRITE + PAGE_FLAG_USERMODE

  class Machine {
    const framemap: array<FrameMap.Word>
    const ram: array<FrameData>
    var tables: map<nat, Table>
    var dirs: map<nat, Directory>
    var kernelDirectory: nat
    var kmallocPos: nat

    ghost function Abs(): Memory
      reads this, framemap, ram
    {
      Memory(framemap[..], ram[..], tables, dirs, kernelDirectory, kmallocPos)
    }

    /** Memory as setup_paging finds it, after the bitmap and the kernel directory are set aside. */
    constructor (workingMemStart: nat, workingMemEnd: nat)
      requires workingMemEnd <= 0x1_0000_0000
      ensures framemap.Length == workingMemEnd / FRAME_SIZE / 32 && fresh(framemap) && fresh(ram)
      ensures Abs() == BootMemory(workingMemStart, workingMemEnd)
    {
      var framecount := workingMemEnd / FRAME_SIZE;
      framemap := new FrameMap.Word[framecount / 32](_ => EmptyWord());
      ram := new FrameData[32 * (framecount / 32)](_ => []);
      tables := map[];
      var pos := workingMemStart + IPC_MEMSIZE + framecount / 8;
      kernelDirectory := AlignUp(pos);
      kmallocPos := AlignUp(pos) + DIRECTORY_SIZE;
      var none := seq(ENTRIES, _ => 0);
      dirs := map[AlignUp(pos) := Directory(none, AlignUp(pos), none)];
      new;
      assert framemap[..] == seq(framecount / 32, _ => EmptyWord());
      assert ram[..] == seq(32 * (framecount / 32), _ => []);
    }

    method AllocFrame(t: nat, k: nat, flags: nat)
      requires Shaped(Abs()) && HasFree(Abs()) && t in tables && k < ENTRIES
      modifies this`tables, framemap
      ensures Abs() == AddressSpace.AllocFrame(old(Abs()), t, k, flags)
    {
      FreeFrameIsFound(Abs());
      var number := FrameMap.FirstFrame(framemap);
      if tables[t][k].frame != 0 {
        return;
      }
      tables := tables[t := tables[t][k := Page(flags, number)]];
      framemap[number / 32] := framemap[number / 32][number % 32 := true];
    }

    method FreeFrame(t: nat, k: nat)
      requires Owned(Abs()) && t in tables && k < ENTRIES
      modifies this`tables, framemap
      ensures Abs() == AddressSpace.FreeFrame(old(Abs()), t, k)
    {
      var number := tables[t][k].frame;
      assert Holds(Abs(), t, k, number);
      tables := tables[t := tables[t][k := Page(tables[t][k].flags, 0)]];
      if number != 0 {
        framemap[number / 32] := framemap[number / 32][number % 32 := false];
      }
    }

    /** The page-aligned branch of _kmalloc_base before there is a heap. */
    method KmallocPa(size: nat) returns (res: nat, phys: nat)
      modifies this`kmallocPos
      ensures res == phys == AlignUp(old(kmallocPos)) && kmallocPos == res + size
    {
      if kmallocPos % FRAME_SIZE != 0 {
        kmallocPos := kmallocPos - kmallocPos % FRAME_SIZE;
        kmallocPos := kmallocPos + FRAME_SIZE;
      }
      phys := kmallocPos;
      res := kmallocPos;
      kmallocPos := kmallocPos + size;
    }

    method MakeTable(index: nat, flags: nat, directory: nat) returns (res: nat)
      requires Shaped(Abs()) && directory in dirs && index < ENTRIES
      modifies this
      ensures Abs() == AddressSpace.MakeTable(old(Abs()), index, flags, directory)
      ensures res == dirs[directory].tables[index]
    {
      var phys;
      res, phys := KmallocPa(TABLE_SIZE);
      tables := tables[res := EmptyTable()];
      dirs := dirs[directory := Attach(dirs[directory], index, res, phys + flags)];
    }

    /** Returns the entry as (table, index). */
    method MakePage(address: nat, flags: nat, directory: nat, alloc: bool) returns (t: nat, k: nat)
      requires Linked(Abs()) && directory in dirs && address < 0x1_0000_0000
      requires alloc ==> HasFree(Abs())
      modifies this, framemap
      ensures Abs() == AddressSpace.MakePage(old(Abs()), address, flags, directory, alloc)
      ensures t == dirs[directory].tables[address / FRAME_SIZE / ENTRIES] && k == address / FRAME_SIZE % ENTRIES
    {
      var index := address / FRAME_SIZE;
      var tab := index / ENTRIES;
      if dirs[directory].physTabs[tab] == 0 {
        var _ := MakeTable(tab, flags, directory);
      } else {
        assert Links(Abs(), directory, tab, dirs[directory].tables[tab]);
      }
      if alloc {
        AllocFrame(dirs[directory].tables[tab], index % ENTRIES, flags);
      }
      return dirs[directory].tables[tab], index % ENTRIES;
    }

    method FreePage(address: nat, directory: nat)
      requires Sound(Abs()) && directory in dirs && address < 0x1_0000_0000
      modifies this`tables, framemap
      ensures Abs() == AddressSpace.FreePage(old(Abs()), address, directory)
    {
      var index := address / FRAME_SIZE;
      var tab := index / ENTRIES;
      if dirs[directory].physTabs[tab] == 0 {
        return;
      }
      assert Links(Abs(), directory, tab, dirs[directory].tables[tab]);
      FreeFrame(dirs[directory].tables[tab], index % ENTRIES);
    }

    /** The body of clone_table's loop for a mapped entry. */
    method CloneEntry(src: nat, dst: nat, i: nat)
      requires CloneSpace.CanCloneEntries(Abs(), src, dst, i + 1) && tables[src][i].frame != 0
      modifies this`tables, framemap, ram
      ensures HasFree(old(Abs())) && Abs() == CloneSpace.CloneEntry(old(Abs()), src, dst, i)
    {
      CloneSpace.CloneEntryStep(Abs(), src, dst, i);
      AllocFrame(dst, i, tables[src][i].flags);
      ram[tables[dst][i].frame] := ram[tables[src][i].frame];
    }

    method CloneTable(src: nat) returns (table: nat, phys: nat)
      requires CloneSpace.CanCloneTable(Abs(), src)
      modifies this`tables, this`kmallocPos, framemap, ram
      ensures Abs() == CloneSpace.CloneTable(old(Abs()), src)
      ensures table == phys == AlignUp(old(kmallocPos))
    {
      CloneSpace.NewTableReady(Abs(), src);
      table, phys := KmallocPa(TABLE_SIZE);
      tables := tables[table := EmptyTable()];
      assert Abs() == NewTable(old(Abs()));
      CloneEntries(src, table);
    }

    /** clone_table's loop. */
    method CloneEntries(src: nat, dst: nat)
      requires CloneSpace.CanCloneEntries(Abs(), src, dst, ENTRIES)
      modifies this`tables, framemap, ram
      ensures Abs() == CloneSpace.CloneEntries(old(Abs()), src, dst, ENTRIES)
    {
      hide Owned;
      var i := ENTRIES;
      while i != 0
        invariant 0 <= i <= ENTRIES
        invariant CloneSpace.CanCloneEntries(Abs(), src, dst, i)
        invariant CloneSpace.CloneEntries(Abs(), src, dst, i) == CloneSpace.CloneEntries(old(Abs()), src, dst, ENTRIES)
      {
        i := i - 1;
        if tables[src][i].frame == 0 {
          continue;
        }
        CloneSpace.CloneEntryStep(Abs(), src, dst, i);
        CloneEntry(src, dst, i);
      }
    }

    /** The body of clone_directory's loop. */
    method CloneSlot(src: nat, dir: nat, i: nat)
      requires CloneSpace.CanCloneSlots(Abs(), src, dir, i + 1)
      modifies this`tables, this`dirs, this`kmallocPos, framemap, ram
      ensures Abs() == CloneSpace.CloneSlot(old(Abs()), src, dir, i)
    {
      ghost var m := Abs();
      CloneSpace.CloneSlotCases(m, src, dir, i);
      assert Shaped(m) && src in m.dirs && dir in m.dirs && i < ENTRIES;
      hide Owned, Linked, CloneSpace.CloneSlot, CloneSpace.CanCloneSlots, CloneSpace.CloneTable, CloneSpace.CanCloneTable;
      var t := dirs[src].tables[i];
      if t == 0 {
        return;
      }
      if dirs[kernelDirectory].tables[i] == t {
        dirs := dirs[dir := Attach(dirs[dir], i, t, dirs[src].physTabs[i])];
      } else {
        var copy, phys := CloneTable(t);
        dirs := dirs[dir := Attach(dirs[dir], i, copy, phys + PAGE_FLAGS_CLONE)];
      }
    }

    /** An empty directory. */
    method MakeDirectory() returns (dir: nat)
      requires Shaped(Abs())
      modifies this`kmallocPos, this`dirs
      ensures dir == AlignUp(old(kmallocPos)) && Abs() == SpaceRuns.NewDirectory(old(Abs()))
    {
      var phys;
      dir, phys := KmallocPa(DIRECTORY_SIZE);
      var none := seq(ENTRIES, _ => 0);
      dirs := dirs[dir := Directory(none, phys, none)];
    }

    method CloneDirectory(src: nat) returns (dir: nat)
      requires SpaceRuns.CanCloneDirectory(Abs(), src)
      modifies this, framemap, ram
      ensures dir == AlignUp(old(kmallocPos))
      ensures Abs() == SpaceRuns.CloneDirectory(old(Abs()), src)
    {
      hide Shaped, SpaceRuns.CanCloneDirectory, SpaceRuns.NewDirectory, SpaceRuns.CloneDirectory;
      hide CloneSpace.CanCloneSlots, CloneSpace.CloneSlots, CloneSpace.CloneSlot;
      ghost var m := Abs();
      SpaceRuns.CloneStarts(m, src);
      dir := MakeDirectory();
      var i := ENTRIES;
      while i != 0
        invariant 0 <= i <= ENTRIES
        invariant CloneSpace.CanCloneSlots(Abs(), src, dir, i)
        invariant CloneSpace.CloneSlots(Abs(), src, dir, i) == SpaceRuns.CloneDirectory(m, src)
      {
        i := i - 1;
        CloneSpace.CloneSlotsUnfold(Abs(), src, dir, i + 1);
        CloneSlot(src, dir, i);
      }
      CloneSpace.CloneSlotsUnfold(Abs(), src, dir, 0);
    }

    /** Clears the bit of a frame in its word of the bitmap. */
    method SetFree(number: nat)
      requires number < 32 * framemap.Length
      modifies framemap
      ensures framemap[..] == FrameMap.SetBit(old(framemap[..]), number, false)
    {
      framemap[number / 32] := framemap[number / 32][number % 32 := false];
    }

    method FreeTable(table: nat)
      requires Shaped(Abs()) && table in tables
      requires forall k :: 0 <= k < ENTRIES ==> tables[table][k].frame == 0 || tables[table][k].frame < ram.Length
      modifies this`tables, framemap
      ensures Abs() == SpaceRuns.FreeTable(old(Abs()), table)
    {
      hide FrameMap.SetBit, FrameMap.Used;
      ghost var entries := tables[table];
      ghost var goal := SpaceRuns.FreeEntries(framemap[..], entries, ENTRIES);
      var i := ENTRIES;
      while i != 0
        invariant 0 <= i <= ENTRIES && tables == old(tables)
        invariant 32 * framemap.Length == ram.Length
        invariant SpaceRuns.FreeEntries(framemap[..], entries, i) == goal
      {
        i := i - 1;
        var number := tables[table][i].frame;
        if number != 0 {
          SetFree(number);
        }
      }
      tables := tables - {table};
    }

    method FreeDirectory(dir: nat)
      requires Sound(Abs()) && dir in dirs && dir != kernelDirectory
      modifies this`tables, this`dirs, framemap
      ensures Abs() == SpaceRuns.FreeDirectory(old(Abs()), dir)
    {
      SpaceRuns.CanFreeDirectory(Abs(), dir);
      var i := ENTRIES;
      while i != 0
        invariant 0 <= i <= ENTRIES && dirs == old(dirs)
        invariant SpaceRuns.CanFreeSlots(Abs(), dir, i)
        invariant SpaceRuns.FreeSlots(Abs(), dir, i) == SpaceRuns.FreeSlots(old(Abs()), dir, ENTRIES)
      {
        i := i - 1;
        if dirs[dir].tables[i] == 0 {
          continue;
        }
        if dirs[kernelDirectory].tables[i] != dirs[dir].tables[i] {
          SpaceRuns.FreeTableFrees(Abs(), dir, i);
          FreeTable(dirs[dir].tables[i]);
        }
      }
      dirs := dirs - {dir};
    }
  }
}

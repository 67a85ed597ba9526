/** The allocator of src/mm/mm.c in place: tags written into memory, the index kept in one array by shifting. */
module HeapAllocator {

  import opened Limits
  import opened HeapTags
  import opened HeapMalloc
  import opened HeapAligned
  import opened HeapFree

  /** The hole freeing b gives would touch the heap's end. */
  predicate ReachesEnd(h: Heap, b: int)
  {
    && b in h.headers
    && var r := b + h.headers[b].size;
       r == h.end || (MagicHole(h.headers, r) && r + h.headers[r].size == h.end)
  }

  function FindFrom(headers: Headers, entries: seq<int>, size: nat, pageAlign: bool, i: nat): nat
    requires i <= |entries| && Known(headers, entries)
  {
    if pageAlign then FindAligned(headers, entries, size, i) else FindHole(headers, entries, size, i)
  }

  ghost predicate Found(h: Heap, size: nat, pageAlign: bool)
  {
    if pageAlign then HasAligned(h, size) else HasHole(h, size)
  }

  /** The tags of the block and the rest cover those of the hole they were. */
  lemma WrittenOver(h: Heap, hd: int, whole: nat, take: nat, entries: seq<int>)
    requires take <= whole && Known(h.headers, entries)
    ensures Written(Standing(h, hd, whole), hd, whole, take, entries) == Written(h, hd, whole, take, entries)
  {
    var h1 := Standing(h, hd, whole);
    assert h1.headers[hd := Header(MM_MAGIC, take, false)] == h.headers[hd := Header(MM_MAGIC, take, false)];
    var f, f1 := h.footers[hd + take - FOOTER := Footer(MM_MAGIC, hd)], h1.footers[hd + take - FOOTER := Footer(MM_MAGIC, hd)];
    if whole == take {
      assert f1 == f;
    } else {
      assert f1[hd + whole - FOOTER := Footer(MM_MAGIC, hd + take)] == f[hd + whole - FOOTER := Footer(MM_MAGIC, hd + take)];
    }
  }

  /** heap_malloc, in the order in which it writes. */
  lemma MallocIs(h: Heap, size: nat)
    requires HasHole(h, size) && 0 < size
    ensures var pos := FindHole(h.headers, h.entries, size + TAGS, 0);
            var (hd, entries) := (h.entries[pos], DelEntry(h.entries, pos));
            && hd in h.headers && Known(h.headers, entries) && size + TAGS <= Take(h.headers[hd].size, size) <= h.headers[hd].size
            && Malloc(h, size) == (hd + HEADER, Written(h.(entries := entries), hd, h.headers[hd].size, Take(h.headers[hd].size, size), entries))
  {
  }

  lemma NothingAsked(h: Heap)
    ensures Malloc(h, 0) == MallocAligned(h, 0) == (0, h)
  {
  }

  lemma CarvedBehind(h: Heap, hd: int, whole: nat, take: nat, entries: seq<int>)
    requires take <= whole && Known(h.headers, entries)
    ensures hd in Standing(h, hd, whole).headers && Standing(h, hd, whole).headers[hd].size == whole
    ensures Known(Standing(h, hd, whole).headers, entries)
    ensures Carve(Standing(h, hd, whole), hd, take, entries) == Written(h, hd, whole, take, entries)
  {
    hide Written;
    WrittenOver(h, hd, whole, take, entries);
  }

  lemma AlignedIs(h: Heap, size: nat)
    requires HasAligned(h, size) && 0 < size
    ensures var hd := Chosen(h, size);
            var gap, take := Gap(hd), Take(h.headers[hd].size, size);
            && 0 <= gap && size + TAGS <= take <= h.headers[hd].size - gap && Known(Standing(h, hd, gap).headers, h.entries)
            && MallocAligned(h, size) == (hd + gap + HEADER, Written(Standing(h, hd, gap), hd + gap, h.headers[hd].size - gap, take, h.entries))
  {
    hide Written, Carve, AddEntry;
    var hd := Chosen(h, size);
    CarvedBehind(Standing(h, hd, Gap(hd)), hd + Gap(hd), h.headers[hd].size - Gap(hd), Take(h.headers[hd].size, size), h.entries);
  }

  class Allocator {
    const entries: array<int>
    var entrycount: nat
    var headers: Headers
    var footers: Footers
    const start: int
    const end: int

    /** Shifting looks at one slot past the last entry, so the index is never quite full. */
    ghost predicate Valid()
      reads this, entries
    {
      entrycount < entries.Length && Known(headers, entries[..entrycount])
    }

    ghost function Abs(): Heap
      requires entrycount <= entries.Length
      reads this, entries
    {
      Heap(headers, footers, entries[..entrycount], start, end)
    }

    constructor (at: int, size: nat)
      requires TAGS <= size && 0 < at
      ensures Valid() && fresh(entries) && entries.Length == MM_INDEX_COUNT
      ensures start == at && end == at + size
      ensures WellFormed(Abs(), [at]) && NoAdjacentHoles(headers, [at])
      ensures HoleBytes(headers, [at]) == size
    {
      entries := new int[MM_INDEX_COUNT];
      start, end, entrycount := at, at + size, 1;
      headers := map[at := Header(MM_MAGIC, size, true)];
      footers := map[at + size - FOOTER := Footer(MM_MAGIC, at)];
      new;
      entries[0] := at;
      assert entries[..entrycount] == [at];
      HoleBytesOfFew(headers, at, at, at);
    }

    method FindSmallestHole(size: nat, pageAlign: bool) returns (i: int)
      requires Valid()
      ensures var r := FindFrom(headers, Abs().entries, size, pageAlign, 0);
              i == if r < entrycount then r else -1
    {
      i := 0;
      while i < entrycount
        invariant 0 <= i <= entrycount
        invariant FindFrom(headers, Abs().entries, size, pageAlign, i) == FindFrom(headers, Abs().entries, size, pageAlign, 0)
      {
        assert Abs().entries[i] == entries[i];
        var entry := entries[i];
        if pageAlign {
          var offset := 0;
          if (entry + HEADER) % FRAME_SIZE != 0 {
            offset := FRAME_SIZE - (entry + HEADER) % FRAME_SIZE;
          }
          if headers[entry].size - offset >= size {
            return;
          }
        } else if headers[entry].size >= size {
          return;
        }
        i := i + 1;
      }
      i := -1;
    }

    method FindEntryAt(entry: int) returns (i: int)
      requires Valid()
      ensures var r := FindEntry(Abs().entries, entry, 0);
              i == if r < entrycount then r else -1
    {
      i := 0;
      while i < entrycount
        invariant 0 <= i <= entrycount
        invariant FindEntry(Abs().entries, entry, i) == FindEntry(Abs().entries, entry, 0)
      {
        assert Abs().entries[i] == entries[i];
        if entries[i] == entry {
          return;
        }
        i := i + 1;
      }
      i := -1;
    }

    method RemoveEntry(pos: int)
      requires Valid() && -1 <= pos < entrycount
      modifies this`entrycount, entries
      ensures Valid()
      ensures entrycount == old(entrycount) - (if pos == -1 then 0 else 1)
      ensures Abs() == old(Abs()).(entries := if pos == -1 then old(Abs()).entries else DelEntry(old(Abs()).entries, pos))
    {
      if pos == -1 {
        return;
      }
      ghost var was := entries[..];
      ghost var n := entrycount;
      var i := pos;
      while i < entrycount
        invariant entrycount == n
        invariant pos <= i <= entrycount
        invariant forall k :: 0 <= k < pos || i <= k < entries.Length ==> entries[k] == was[k]
        invariant forall k :: pos <= k < i && k + 1 < entries.Length ==> entries[k] == was[k + 1]
      {
        entries[i] := entries[i + 1];
        i := i + 1;
      }
      entrycount := entrycount - 1;
      assert entries[..entrycount] == DelEntry(was[..entrycount + 1], pos);
    }

    /** Entry p moves one slot up, and everything behind it; entry takes its place. */
    method ShiftIn(p: nat, entry: int)
      requires p < entrycount < entries.Length
      modifies this`entrycount, entries
      ensures entrycount == old(entrycount) + 1
      ensures entries[..entrycount] == Insert(old(entries[..entrycount]), p, entry)
    {
      ghost var was := entries[..];
      var i := p;
      var tmp := entries[i];
      entries[i] := entry;
      ghost var n := entrycount;
      while i < entrycount
        invariant entrycount == n
        invariant p <= i <= entrycount && tmp == was[i] && entries[p] == entry
        invariant forall k :: 0 <= k < p || i < k < entries.Length ==> entries[k] == was[k]
        invariant forall k :: p < k <= i ==> entries[k] == was[k - 1]
      {
        i := i + 1;
        var tmp2 := entries[i];
        entries[i] := tmp;
        tmp := tmp2;
      }
      entrycount := entrycount + 1;
      assert entries[..entrycount] == Insert(was[..n], p, entry);
    }

    method InsertEntry(entry: int)
      requires entrycount < entries.Length && Known(headers, entries[..entrycount]) && entry in headers
      modifies this`entrycount, entries
      ensures entrycount == old(entrycount) + 1 && Known(headers, entries[..entrycount])
      ensures Abs() == old(Abs()).(entries := AddEntry(headers, old(Abs()).entries, entry))
    {
      ghost var was := entries[..entrycount];
      ghost var p := FindHole(headers, was, headers[entry].size, 0);
      var i := 0;
      while i < entrycount && headers[entries[i]].size < headers[entry].size
        invariant 0 <= i <= entrycount == |was| && entries[..entrycount] == was
        invariant FindHole(headers, was, headers[entry].size, i) == p
      {
        assert was[i] == entries[i];
        i := i + 1;
      }
      assert i < entrycount ==> was[i] == entries[i];
      assert i == p;
      if i == entrycount {
        entries[entrycount] := entry;
        entrycount := entrycount + 1;
        assert entries[..entrycount] == was + [entry] == Insert(was, p, entry);
      } else {
        ShiftIn(i, entry);
      }
    }

    /** Holes lie below the heap's end. */
    ghost predicate HolesInside()
      requires Valid()
      reads this, entries
    {
      forall k :: 0 <= k < entrycount ==> entries[k] + headers[entries[k]].size <= end
    }

    /** The tags of a block of newsize bytes at header, and of what remains of the oldsize bytes there. */
    method WriteBlock(header: int, oldsize: nat, size: nat, newsize: nat)
      requires Valid() && entrycount + 1 < entries.Length
      requires HEADER + size + FOOTER == newsize <= oldsize && header + oldsize <= end
      modifies this`entrycount, this`headers, this`footers, entries
      ensures Valid() && Abs() == Written(old(Abs()), header, oldsize, newsize, old(Abs()).entries)
    {
      hide AddEntry;
      headers := headers[header := Header(MM_MAGIC, newsize, false)];
      footers := footers[header + HEADER + size := Footer(MM_MAGIC, header)];
      if oldsize - newsize > 0 {
        var rest := header + newsize;
        headers := headers[rest := Header(MM_MAGIC, oldsize - newsize, true)];
        if rest + headers[rest].size - FOOTER < end {
          footers := footers[rest + headers[rest].size - FOOTER := Footer(MM_MAGIC, rest)];
        }
        InsertEntry(rest);
      }
    }

    /** The tags of the hole that stays in front of a page; its entry stays too. */
    method LeaveGap(oldpos: int) returns (newpos: int)
      requires Valid() && oldpos in headers && 0 <= Gap(oldpos)
      modifies this`headers, this`footers
      ensures Valid() && newpos == oldpos + Gap(oldpos) && Abs() == Standing(old(Abs()), oldpos, Gap(oldpos))
    {
      newpos := oldpos + FRAME_SIZE - oldpos % FRAME_SIZE - HEADER;
      headers := headers[oldpos := Header(MM_MAGIC, newpos - oldpos, true)];
      footers := footers[newpos - FOOTER := Footer(MM_MAGIC, oldpos)];
    }

    method HeapMalloc(request: nat, pageAlign: bool) returns (ptr: int)
      requires Valid() && entrycount + 1 < entries.Length
      requires request != 0 ==> HolesInside() && Found(Abs(), request, pageAlign)
      modifies this`entrycount, this`headers, this`footers, entries
      ensures Valid() && (ptr, Abs()) == if pageAlign then MallocAligned(old(Abs()), request) else Malloc(old(Abs()), request)
    {
      hide Written, AddEntry, Malloc, MallocAligned, Standing;
      var size := request;
      var newsize := size + HEADER + FOOTER;
      var holePos := FindSmallestHole(newsize, pageAlign);
      if size == 0 {
        NothingAsked(Abs());
        return 0;
      }
      var header := entries[holePos];
      assert Abs().entries[holePos] == header;
      if pageAlign {
        AlignedIs(Abs(), size);
      } else {
        MallocIs(Abs(), size);
      }
      if headers[header].size - HEADER - FOOTER < newsize {
        size := size + headers[header].size - newsize;
        newsize := headers[header].size;
      }
      ghost var h := Abs();
      var oldpos, oldsize := header, headers[header].size;
      if pageAlign && oldpos >= FRAME_SIZE {
        oldpos := LeaveGap(oldpos);
        oldsize := oldsize - (oldpos - header);
      } else {
        assert Known(headers, DelEntry(h.entries, holePos));
        RemoveEntry(holePos);
      }
      WriteBlock(oldpos, oldsize, size, newsize);
      ptr := oldpos + HEADER;
    }

    method MergeRight(header: int, right: int)
      requires Valid() && header in headers
      modifies this`entrycount, this`headers, entries
      ensures Valid() && entrycount <= old(entrycount) && header in headers
      ensures (headers, Abs().entries) == FreeRight(old(headers), old(Abs().entries), right, header)
    {
      if MagicHole(headers, right) {
        headers := Grown(headers, header, headers[right].size);
        var p := FindEntryAt(right);
        RemoveEntry(p);
      }
    }

    method HeapFree(ptr: int)
      requires Valid() && entrycount + 1 < entries.Length && !ReachesEnd(Abs(), ptr - HEADER)
      modifies this`entrycount, this`headers, this`footers, entries
      ensures Valid() && Abs() == Free(old(Abs()), ptr)
    {
      hide AddEntry, DelEntry;
      if ptr == 0 {
        return;
      }
      var b := ptr - HEADER;
      var header := b;
      if !Freeable(headers, footers, b) {
        return;
      }
      var oldsize := headers[b].size;
      var footer := b + oldsize - FOOTER;
      headers := Flagged(headers, b);
      var opt := true;
      if LeftIsHole(headers, footers, b) {
        header := footers[b - FOOTER].header;
        opt := false;
        footers := footers[footer := Footer(footers[footer].magic, header)];
        headers := Grown(headers, header, oldsize);
      }
      MergeRight(header, footer + FOOTER);
      if opt {
        InsertEntry(header);
      }
    }
  }
}

/** An unaligned heap_malloc that finds a hole (mm.c), from any well-formed heap. */
module HeapMalloc {

  import opened HeapTags

  /** How much of a hole a request takes: all of it when the rest could not hold two tags. */
  function Take(hole: nat, size: nat): nat
  {
    if hole < size + TAGS + TAGS then hole else size + TAGS
  }

  ghost predicate HasHole(h: Heap, size: nat)
  {
    Known(h.headers, h.entries) && FindHole(h.headers, h.entries, size + TAGS, 0) < |h.entries|
  }

  /** Of whole bytes at hd, a block gets the first take, with its tags; the rest gets tags of its own and an entry. */
  function Written(h: Heap, hd: int, whole: nat, take: nat, entries: seq<int>): Heap
    requires take <= whole && Known(h.headers, entries)
  {
    var headers := h.headers[hd := Header(MM_MAGIC, take, false)];
    var footers := h.footers[hd + take - FOOTER := Footer(MM_MAGIC, hd)];
    if whole == take then Heap(headers, footers, entries, h.start, h.end)
    else
      var headers2 := headers[hd + take := Header(MM_MAGIC, whole - take, true)];
      var footers2 := footers[hd + whole - FOOTER := Footer(MM_MAGIC, hd + take)];
      Heap(headers2, footers2, AddEntry(headers2, entries, hd + take), h.start, h.end)
  }

  /** A block carved off the hole at hd. */
  function Carve(h: Heap, hd: int, take: nat, entries: seq<int>): Heap
    requires hd in h.headers && take <= h.headers[hd].size && Known(h.headers, entries)
  {
    Written(h, hd, h.headers[hd].size, take, entries)
  }

  /** The address returned and the heap after. */
  function Malloc(h: Heap, size: nat): (int, Heap)
    requires size != 0 ==> HasHole(h, size)
  {
    if size == 0 then (0, h)
    else
      var pos := FindHole(h.headers, h.entries, size + TAGS, 0);
      var hd := h.entries[pos];
      (hd + HEADER, Carve(h, hd, Take(h.headers[hd].size, size), DelEntry(h.entries, pos)))
  }

  /** The tiles after take bytes of tile i have been carved off. */
  function Carved(headers: Headers, tiles: seq<int>, i: nat, take: nat): seq<int>
    requires i < |tiles| && tiles[i] in headers
  {
    if headers[tiles[i]].size == take then tiles else Insert(tiles, i + 1, tiles[i] + take)
  }

  ghost predicate CanCarve(h: Heap, tiles: seq<int>, i: nat, take: nat)
  {
    && i < |tiles| && IsHole(h.headers, tiles[i]) && TAGS <= take
    && (take == h.headers[tiles[i]].size || take <= h.headers[tiles[i]].size - TAGS)
  }

  lemma CarveTiles(h: Heap, tiles: seq<int>, i: nat, take: nat, entries: seq<int>)
    requires Tiled(h.headers, h.start, h.end, tiles) && CanCarve(h, tiles, i, take) && Known(h.headers, entries)
    ensures Tiled(Carve(h, tiles[i], take, entries).headers, h.start, h.end, Carved(h.headers, tiles, i, take))
  {
    assert IsTile(h.headers, h.end, tiles, i);
    if take == h.headers[tiles[i]].size {
      SameTiles(h.headers, h.headers[tiles[i] := Header(MM_MAGIC, take, false)], h.start, h.end, tiles);
    } else {
      SplitTiles(h.headers, h.start, h.end, tiles, i, take, false, true);
    }
  }

  lemma CarveOutside(h: Heap, tiles: seq<int>, i: nat, take: nat, entries: seq<int>, t: int)
    requires Tiled(h.headers, h.start, h.end, tiles) && CanCarve(h, tiles, i, take) && Known(h.headers, entries)
    requires t in tiles && t != tiles[i] && t in h.headers
    ensures var h' := Carve(h, tiles[i], take, entries);
            && t in h'.headers && h'.headers[t] == h.headers[t]
            && (IsFooted(h.headers, h.footers, t) ==> IsFooted(h'.headers, h'.footers, t))
    ensures t + h.headers[t].size <= tiles[i] || tiles[i] + h.headers[tiles[i]].size <= t
  {
    var j :| 0 <= j < |tiles| && tiles[j] == t;
    if j < i {
      TilesAscend(h.headers, h.start, h.end, tiles, j, i);
    } else {
      TilesAscend(h.headers, h.start, h.end, tiles, i, j);
      assert IsTile(h.headers, h.end, tiles, j);
    }
  }

  lemma CarveFooters(h: Heap, tiles: seq<int>, i: nat, take: nat, entries: seq<int>)
    requires Tiled(h.headers, h.start, h.end, tiles) && CanCarve(h, tiles, i, take) && Known(h.headers, entries)
    requires Footed(h.headers, h.footers, h.start, tiles)
    ensures var h' := Carve(h, tiles[i], take, entries);
            Footed(h'.headers, h'.footers, h.start, Carved(h.headers, tiles, i, take))
  {
    var h', tiles' := Carve(h, tiles[i], take, entries), Carved(h.headers, tiles, i, take);
    forall t | t in tiles'
      ensures IsFooted(h'.headers, h'.footers, t)
    {
      if t in tiles && t != tiles[i] {
        assert IsFooted(h.headers, h.footers, t);
        CarveOutside(h, tiles, i, take, entries, t);
      }
    }
    if i > 0 {
      TilesAscend(h.headers, h.start, h.end, tiles, 0, i);
    }
  }

  lemma RestIsNew(h: Heap, tiles: seq<int>, i: nat, take: nat)
    requires Tiled(h.headers, h.start, h.end, tiles) && CanCarve(h, tiles, i, take) && take < h.headers[tiles[i]].size
    ensures tiles[i] + take !in tiles
  {
    forall j | 0 <= j < |tiles|
      ensures tiles[j] != tiles[i] + take
    {
      if i < j {
        TilesAscend(h.headers, h.start, h.end, tiles, i, j);
      } else if j < i {
        TilesAscend(h.headers, h.start, h.end, tiles, j, i);
      }
    }
  }

  lemma CarvedMembers(headers: Headers, tiles: seq<int>, i: nat, take: nat)
    requires i < |tiles| && tiles[i] in headers
    ensures forall t :: t in Carved(headers, tiles, i, take) <==>
              t in tiles || (take != headers[tiles[i]].size && t == tiles[i] + take)
  {
    assert tiles == tiles[..i + 1] + tiles[i + 1..];
  }

  lemma CarveHoles(h: Heap, tiles: seq<int>, i: nat, take: nat, entries: seq<int>, t: int)
    requires Tiled(h.headers, h.start, h.end, tiles) && CanCarve(h, tiles, i, take) && Known(h.headers, entries)
    ensures var h' := Carve(h, tiles[i], take, entries);
            t in Carved(h.headers, tiles, i, take) && IsHole(h'.headers, t) <==>
            (t in tiles && IsHole(h.headers, t) && t != tiles[i])
            || (take != h.headers[tiles[i]].size && t == tiles[i] + take)
  {
    CarvedMembers(h.headers, tiles, i, take);
    if take != h.headers[tiles[i]].size {
      RestIsNew(h, tiles, i, take);
    }
    if t in tiles && t != tiles[i] {
      var j :| 0 <= j < |tiles| && tiles[j] == t;
      assert IsTile(h.headers, h.end, tiles, j);
      CarveOutside(h, tiles, i, take, entries, t);
    }
  }

  lemma CarveIndex(h: Heap, tiles: seq<int>, i: nat, take: nat, pos: nat)
    requires WellFormed(h, tiles) && CanCarve(h, tiles, i, take)
    requires pos < |h.entries| && h.entries[pos] == tiles[i] && Known(h.headers, DelEntry(h.entries, pos))
    ensures var h' := Carve(h, tiles[i], take, DelEntry(h.entries, pos));
            && Indexed(h'.headers, h'.entries, Carved(h.headers, tiles, i, take))
            && Sorted(h'.headers, h'.entries)
  {
    var entries := DelEntry(h.entries, pos);
    var h', tiles' := Carve(h, tiles[i], take, entries), Carved(h.headers, tiles, i, take);
    DelEntrySet(h.entries, pos);
    DelEntryKeepsOrder(h.headers, h.entries, pos);
    SmallerIndex(h, tiles, i, take, entries);
    if take != h.headers[tiles[i]].size {
      RestIsNew(h, tiles, i, take);
      AddEntrySet(h'.headers, entries, tiles[i] + take);
      AddEntryKeepsOrder(h'.headers, entries, tiles[i] + take);
    }
    forall t
      ensures t in h'.entries <==> t in tiles' && IsHole(h'.headers, t)
    {
      CarveHoles(h, tiles, i, take, entries, t);
    }
  }

  /** The remaining entries read the same sizes before and after. */
  lemma SmallerIndex(h: Heap, tiles: seq<int>, i: nat, take: nat, entries: seq<int>)
    requires Tiled(h.headers, h.start, h.end, tiles) && CanCarve(h, tiles, i, take) && Sorted(h.headers, entries)
    requires forall e :: e in entries ==> e in tiles && e != tiles[i]
    ensures Sorted(Carve(h, tiles[i], take, entries).headers, entries)
  {
    forall k | 0 <= k < |entries|
      ensures entries[k] in h.headers
      ensures Carve(h, tiles[i], take, entries).headers[entries[k]] == h.headers[entries[k]]
    {
      CarveOutside(h, tiles, i, take, entries, entries[k]);
    }
  }

  lemma CarveKeeps(h: Heap, tiles: seq<int>, i: nat, take: nat, pos: nat)
    requires WellFormed(h, tiles) && CanCarve(h, tiles, i, take)
    requires pos < |h.entries| && h.entries[pos] == tiles[i]
    ensures Known(h.headers, DelEntry(h.entries, pos))
    ensures WellFormed(Carve(h, tiles[i], take, DelEntry(h.entries, pos)), Carved(h.headers, tiles, i, take))
  {
    var entries := DelEntry(h.entries, pos);
    assert Known(h.headers, entries);
    CarveTiles(h, tiles, i, take, entries);
    CarveFooters(h, tiles, i, take, entries);
    CarveIndex(h, tiles, i, take, pos);
  }

  lemma HoleOf(h: Heap, tiles: seq<int>, size: nat) returns (i: nat, pos: nat)
    requires WellFormed(h, tiles) && HasHole(h, size) && 0 < size
    ensures pos == FindHole(h.headers, h.entries, size + TAGS, 0) && pos < |h.entries|
    ensures i < |tiles| && tiles[i] == h.entries[pos] && tiles[i] in h.headers
    ensures CanCarve(h, tiles, i, Take(h.headers[tiles[i]].size, size))
    ensures Malloc(h, size) == (tiles[i] + HEADER, Carve(h, tiles[i], Take(h.headers[tiles[i]].size, size), DelEntry(h.entries, pos)))
  {
    pos := FindHole(h.headers, h.entries, size + TAGS, 0);
    assert h.entries[pos] in h.entries;
    i :| i < |tiles| && tiles[i] == h.entries[pos];
    assert IsHole(h.headers, tiles[i]);
  }

  // ---- What heap_malloc promises ------------------------------------------

  /** The heap stays well-formed: headers tile it, footers point home, the index holds the holes in order. */
  lemma MallocKeepsTheHeap(h: Heap, tiles: seq<int>, size: nat) returns (i: nat)
    requires WellFormed(h, tiles) && HasHole(h, size) && 0 < size
    ensures i < |tiles| && tiles[i] in h.headers && Malloc(h, size).0 == tiles[i] + HEADER
    ensures WellFormed(Malloc(h, size).1, Carved(h.headers, tiles, i, Take(h.headers[tiles[i]].size, size)))
  {
    var pos;
    i, pos := HoleOf(h, tiles, size);
    CarveKeeps(h, tiles, i, Take(h.headers[tiles[i]].size, size), pos);
  }

  /**
    The caller gets size bytes, and fewer than 16 more, between the tags of a block in one hole: every other block
    and hole keeps its header, and shares no byte with the new block.
   */
  lemma MallocGivesFreshBytes(h: Heap, tiles: seq<int>, size: nat, t: int)
    requires WellFormed(h, tiles) && HasHole(h, size) && 0 < size
    requires t in tiles && t in h.headers
    ensures var (p, h') := Malloc(h, size);
            var hd := p - HEADER;
            && hd in tiles && hd in h.headers && IsHole(h.headers, hd)
            && hd in h'.headers && !h'.headers[hd].hole && h'.headers[hd].size <= h.headers[hd].size
            && p + size <= hd + h'.headers[hd].size - FOOTER && h'.headers[hd].size < size + 32
            && (t != hd ==>
                  && t in h'.headers && h'.headers[t] == h.headers[t]
                  && (t + h.headers[t].size <= hd || hd + h'.headers[hd].size <= t))
  {
    var i, pos := HoleOf(h, tiles, size);
    assert tiles[i] in tiles;
    assert Known(h.headers, DelEntry(h.entries, pos));
    if t != tiles[i] {
      CarveOutside(h, tiles, i, Take(h.headers[tiles[i]].size, size), DelEntry(h.entries, pos), t);
    }
  }

  /** No tag is written outside the hole that was taken. */
  lemma MallocWritesInsideTheHole(h: Heap, tiles: seq<int>, size: nat, a: int)
    requires WellFormed(h, tiles) && HasHole(h, size) && 0 < size
    requires var hd := Malloc(h, size).0 - HEADER;
             hd in h.headers ==> a < hd || hd + h.headers[hd].size - HEADER < a
    ensures var h' := Malloc(h, size).1;
            && (a in h'.headers <==> a in h.headers) && (a in h.headers ==> h'.headers[a] == h.headers[a])
            && (a in h'.footers <==> a in h.footers) && (a in h.footers ==> h'.footers[a] == h.footers[a])
  {
    var i, pos := HoleOf(h, tiles, size);
    assert IsTile(h.headers, h.end, tiles, i);
  }

  /** The hole taken is the smallest that fits. */
  lemma MallocTakesTheSmallestHole(h: Heap, tiles: seq<int>, size: nat, t: int)
    requires WellFormed(h, tiles) && HasHole(h, size) && 0 < size
    requires t in tiles && IsHole(h.headers, t) && size + TAGS <= h.headers[t].size
    ensures var hd := Malloc(h, size).0 - HEADER;
            hd in h.headers && size + TAGS <= h.headers[hd].size <= h.headers[t].size
  {
    assert t in h.entries;
    var k :| 0 <= k < |h.entries| && h.entries[k] == t;
    var i, pos := HoleOf(h, tiles, size);
  }

  /** A hole is found exactly when some hole is large enough. */
  lemma HoleIsFoundWhenThereIsOne(h: Heap, tiles: seq<int>, size: nat)
    requires WellFormed(h, tiles)
    ensures HasHole(h, size) <==> exists t :: t in tiles && IsHole(h.headers, t) && size + TAGS <= h.headers[t].size
  {
    var pos := FindHole(h.headers, h.entries, size + TAGS, 0);
    if pos < |h.entries| {
      assert h.entries[pos] in h.entries;
    }
    forall t | t in tiles && IsHole(h.headers, t) && size + TAGS <= h.headers[t].size
      ensures HasHole(h, size)
    {
      assert t in h.entries;
    }
  }

  lemma CarveElsewhere(h: Heap, tiles: seq<int>, i: nat, take: nat, entries: seq<int>, part: seq<int>)
    requires Tiled(h.headers, h.start, h.end, tiles) && CanCarve(h, tiles, i, take) && Known(h.headers, entries)
    requires part == tiles[..i] || part == tiles[i + 1..]
    ensures HoleBytes(Carve(h, tiles[i], take, entries).headers, part) == HoleBytes(h.headers, part)
  {
    forall t | t in part
      ensures t in h.headers && t in Carve(h, tiles[i], take, entries).headers
      ensures Carve(h, tiles[i], take, entries).headers[t] == h.headers[t]
    {
      var j :| 0 <= j < |tiles| && j != i && tiles[j] == t;
      assert IsTile(h.headers, h.end, tiles, j);
      TilesDiffer(h.headers, h.start, h.end, tiles, i, j);
      CarveOutside(h, tiles, i, take, entries, t);
    }
    HoleBytesSame(h.headers, Carve(h, tiles[i], take, entries).headers, part);
  }

  lemma CarveBytes(h: Heap, tiles: seq<int>, i: nat, take: nat, entries: seq<int>)
    requires Tiled(h.headers, h.start, h.end, tiles) && CanCarve(h, tiles, i, take) && Known(h.headers, entries)
    ensures HoleBytes(Carve(h, tiles[i], take, entries).headers, Carved(h.headers, tiles, i, take))
         == HoleBytes(h.headers, tiles) - take
  {
    var headers' := Carve(h, tiles[i], take, entries).headers;
    var hd, rest := tiles[i], tiles[i] + take;
    HoleBytesOfFew(h.headers, hd, rest, rest);
    HoleBytesOfFew(headers', hd, rest, rest);
    CarveElsewhere(h, tiles, i, take, entries, tiles[..i]);
    CarveElsewhere(h, tiles, i, take, entries, tiles[i + 1..]);
    BytesAround(h.headers, tiles[..i], [hd], tiles[i + 1..]);
    assert tiles == tiles[..i] + [hd] + tiles[i + 1..];
    if take == h.headers[hd].size {
      BytesAround(headers', tiles[..i], [hd], tiles[i + 1..]);
    } else {
      BytesAround(headers', tiles[..i], [hd, rest], tiles[i + 1..]);
      assert Carved(h.headers, tiles, i, take) == tiles[..i] + [hd, rest] + tiles[i + 1..];
    }
  }

  /** The bytes in holes fall by exactly the size of the new block. */
  lemma MallocTakesBytes(h: Heap, tiles: seq<int>, size: nat) returns (i: nat)
    requires WellFormed(h, tiles) && HasHole(h, size) && 0 < size
    ensures i < |tiles| && tiles[i] in h.headers && Malloc(h, size).0 == tiles[i] + HEADER
    ensures HoleBytes(Malloc(h, size).1.headers, Carved(h.headers, tiles, i, Take(h.headers[tiles[i]].size, size)))
         == HoleBytes(h.headers, tiles) - Take(h.headers[tiles[i]].size, size)
  {
    var pos;
    i, pos := HoleOf(h, tiles, size);
    assert Known(h.headers, DelEntry(h.entries, pos));
    CarveBytes(h, tiles, i, Take(h.headers[tiles[i]].size, size), DelEntry(h.entries, pos));
  }

  lemma BytesAround(headers: Headers, left: seq<int>, middle: seq<int>, right: seq<int>)
    ensures HoleBytes(headers, left + middle + right)
         == HoleBytes(headers, left) + HoleBytes(headers, middle) + HoleBytes(headers, right)
  {
    HoleBytesAppend(headers, left + middle, right);
    HoleBytesAppend(headers, left, middle);
  }
}

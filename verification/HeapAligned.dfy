/**
  A page-aligned heap_malloc that finds a hole (mm.c). The block starts so that its payload is on a page; the gap
  in front of it stays a hole, with the entry of the old one. When the gap or the rest is too small for two
  tags, or when there is no gap at all, the heap is not well-formed any more.
 */
module HeapAligned {

  import opened Limits
  import opened HeapTags
  import opened HeapMalloc

  /** How far the payload of a block at hd is from the next page, as find_smallest_hole has it. */
  function Offset(hd: int): (r: nat)
    ensures (hd + HEADER + r) % FRAME_SIZE == 0 && r < FRAME_SIZE
  {
    if (hd + HEADER) % FRAME_SIZE == 0 then 0 else FRAME_SIZE - (hd + HEADER) % FRAME_SIZE
  }

  /** The gap heap_malloc leaves, which is negative when a page starts inside the header. */
  function Gap(hd: int): (r: int)
    ensures r == Offset(hd) <==> 0 <= r
    ensures -8 < r < FRAME_SIZE
  {
    FRAME_SIZE - hd % FRAME_SIZE - HEADER
  }

  /** The first hole from entry i on that has size bytes behind its gap. */
  function FindAligned(headers: Headers, entries: seq<int>, size: nat, i: nat): (r: nat)
    requires i <= |entries| && Known(headers, entries)
    ensures i <= r <= |entries|
    ensures forall j :: i <= j < r ==> headers[entries[j]].size - Offset(entries[j]) < size
    ensures r < |entries| ==> headers[entries[r]].size - Offset(entries[r]) >= size
    decreases |entries| - i
  {
    if i == |entries| || headers[entries[i]].size - Offset(entries[i]) >= size then i
    else FindAligned(headers, entries, size, i + 1)
  }

  /** A hole of whole bytes at hd. */
  function Standing(h: Heap, hd: int, whole: nat): Heap
  {
    Heap(h.headers[hd := Header(MM_MAGIC, whole, true)], h.footers[hd + whole - FOOTER := Footer(MM_MAGIC, hd)], h.entries, h.start, h.end)
  }

  /** The hole at hd cut into one of gap bytes and one behind it. */
  function Split(h: Heap, hd: int, gap: nat): Heap
    requires hd in h.headers && gap <= h.headers[hd].size
  {
    Standing(Standing(h, hd, gap), hd + gap, h.headers[hd].size - gap)
  }

  /** The block fits behind the gap, whole tags or not. */
  predicate Placed(headers: Headers, hd: int, size: nat)
  {
    && hd in headers && FRAME_SIZE <= hd && 0 <= Gap(hd)
    && Gap(hd) + Take(headers[hd].size, size) <= headers[hd].size
  }

  ghost predicate HasAligned(h: Heap, size: nat)
  {
    && Known(h.headers, h.entries)
    && var pos := FindAligned(h.headers, h.entries, size + TAGS, 0);
       pos < |h.entries| && Placed(h.headers, h.entries[pos], size)
  }

  /** The hole that is taken. */
  function Chosen(h: Heap, size: nat): int
    requires HasAligned(h, size)
  {
    h.entries[FindAligned(h.headers, h.entries, size + TAGS, 0)]
  }

  function MallocAligned(h: Heap, size: nat): (int, Heap)
    requires size != 0 ==> HasAligned(h, size)
  {
    if size == 0 then (0, h)
    else
      var hd := Chosen(h, size);
      var gap := Gap(hd);
      (hd + gap + HEADER, Carve(Split(h, hd, gap), hd + gap, Take(h.headers[hd].size, size), h.entries))
  }

  /** Both what is in front of the block and what is behind it can hold two tags, or there is nothing behind it. */
  predicate LeavesHoles(headers: Headers, hd: int, size: nat)
    requires hd in headers
  {
    var rest := headers[hd].size - Gap(hd) - Take(headers[hd].size, size);
    TAGS <= Gap(hd) && (rest == 0 || TAGS <= rest)
  }

  /** The tiles after. */
  function AlignedTiles(headers: Headers, tiles: seq<int>, i: nat, size: nat): seq<int>
    requires i < |tiles| && Placed(headers, tiles[i], size)
  {
    var gap, take := Gap(tiles[i]), Take(headers[tiles[i]].size, size);
    var tiles' := Insert(tiles, i + 1, tiles[i] + gap);
    if gap + take == headers[tiles[i]].size then tiles' else Insert(tiles', i + 2, tiles[i] + gap + take)
  }

  // ---- Cutting the hole ---------------------------------------------------

  /** Where hole i is cut, everything but the index is in order. */
  ghost predicate Cuttable(h: Heap, tiles: seq<int>, i: nat, gap: nat)
  {
    && Tiled(h.headers, h.start, h.end, tiles) && Footed(h.headers, h.footers, h.start, tiles)
    && i < |tiles| && IsHole(h.headers, tiles[i]) && TAGS <= gap <= h.headers[tiles[i]].size - TAGS
  }

  lemma SplitOutside(h: Heap, tiles: seq<int>, i: nat, gap: nat, t: int)
    requires Cuttable(h, tiles, i, gap) && t in tiles && t != tiles[i]
    ensures var h1 := Split(h, tiles[i], gap);
            && t in h.headers && t in h1.headers && h1.headers[t] == h.headers[t] && t != tiles[i] + gap
            && IsFooted(h1.headers, h1.footers, t)
            && (t + h.headers[t].size <= tiles[i] || tiles[i] + h.headers[tiles[i]].size <= t)
  {
    var j :| 0 <= j < |tiles| && tiles[j] == t;
    assert IsFooted(h.headers, h.footers, t);
    if j < i {
      TilesAscend(h.headers, h.start, h.end, tiles, j, i);
    } else {
      TilesAscend(h.headers, h.start, h.end, tiles, i, j);
      assert IsTile(h.headers, h.end, tiles, j);
    }
  }

  lemma SplitKeeps(h: Heap, tiles: seq<int>, i: nat, gap: nat)
    requires Cuttable(h, tiles, i, gap)
    ensures var (h1, tiles1) := (Split(h, tiles[i], gap), Insert(tiles, i + 1, tiles[i] + gap));
            && Tiled(h1.headers, h.start, h.end, tiles1) && Footed(h1.headers, h1.footers, h.start, tiles1)
            && h1.start == h.start && h1.end == h.end && tiles[i] + gap !in tiles
            && forall t :: t in tiles1 && IsHole(h1.headers, t) <==> (t in tiles && IsHole(h.headers, t)) || t == tiles[i] + gap
  {
    var hd := tiles[i];
    var h1, tiles1 := Split(h, hd, gap), Insert(tiles, i + 1, hd + gap);
    SplitTiles(h.headers, h.start, h.end, tiles, i, gap, true, true);
    forall t
      ensures t in tiles1 <==> t in tiles || t == hd + gap
      ensures t in tiles && t != hd ==> t in h.headers && t in h1.headers && h1.headers[t] == h.headers[t] && t != hd + gap && IsFooted(h1.headers, h1.footers, t)
    {
      assert tiles == tiles[..i + 1] + tiles[i + 1..];
      if t in tiles && t != hd {
        SplitOutside(h, tiles, i, gap, t);
      }
    }
    assert IsFooted(h1.headers, h1.footers, hd) && IsFooted(h1.headers, h1.footers, hd + gap);
    if i > 0 {
      TilesAscend(h.headers, h.start, h.end, tiles, 0, i);
    }
  }

  // ---- What a page-aligned heap_malloc promises ---------------------------

  lemma ChosenTile(h: Heap, tiles: seq<int>, size: nat) returns (i: nat, pos: nat)
    requires WellFormed(h, tiles) && HasAligned(h, size) && 0 < size
    ensures pos == FindAligned(h.headers, h.entries, size + TAGS, 0) && pos < |h.entries|
    ensures i < |tiles| && tiles[i] == h.entries[pos] == Chosen(h, size) && IsHole(h.headers, tiles[i])
  {
    pos := FindAligned(h.headers, h.entries, size + TAGS, 0);
    assert h.entries[pos] in h.entries;
    i :| i < |tiles| && tiles[i] == h.entries[pos];
  }

  /** The second hole of a cut can be carved, and carving gives the tiles of the whole operation. */
  lemma CarvedBehindGap(h: Heap, tiles: seq<int>, i: nat, size: nat)
    requires WellFormed(h, tiles) && i < |tiles| && IsHole(h.headers, tiles[i]) && 0 < size
    requires Placed(h.headers, tiles[i], size) && LeavesHoles(h.headers, tiles[i], size)
    ensures var (gap, take) := (Gap(tiles[i]), Take(h.headers[tiles[i]].size, size));
            var (h1, tiles1) := (Split(h, tiles[i], gap), Insert(tiles, i + 1, tiles[i] + gap));
            && Cuttable(h, tiles, i, gap) && tiles1[i + 1] == tiles[i] + gap && CanCarve(h1, tiles1, i + 1, take)
            && Carved(h1.headers, tiles1, i + 1, take) == AlignedTiles(h.headers, tiles, i, size)
            && Known(h1.headers, h.entries)
  {
    assert IsTile(h.headers, h.end, tiles, i);
  }

  /** Nothing but the order of the index can be wrong when gap and rest can hold their tags. */
  lemma AlignedKeepsTilesAndIndex(h: Heap, tiles: seq<int>, i: nat, size: nat)
    requires WellFormed(h, tiles) && HasAligned(h, size) && 0 < size
    requires i < |tiles| && tiles[i] == Chosen(h, size) && LeavesHoles(h.headers, tiles[i], size)
    ensures var (h', tiles') := (MallocAligned(h, size).1, AlignedTiles(h.headers, tiles, i, size));
            && Tiled(h'.headers, h.start, h.end, tiles') && Footed(h'.headers, h'.footers, h.start, tiles')
            && Indexed(h'.headers, h'.entries, tiles')
  {
    hide Split, Carve, Footed;
    var j, pos := ChosenTile(h, tiles, size);
    CarvedBehindGap(h, tiles, i, size);
    var gap, take := Gap(tiles[i]), Take(h.headers[tiles[i]].size, size);
    var h1, tiles1 := Split(h, tiles[i], gap), Insert(tiles, i + 1, tiles[i] + gap);
    SplitKeeps(h, tiles, i, gap);
    CarveTiles(h1, tiles1, i + 1, take, h.entries);
    CarveFooters(h1, tiles1, i + 1, take, h.entries);
    AlignedIndex(h, tiles, i, size);
  }

  /** Carving a hole that has no entry adds one for what is left of it. */
  lemma CarveUnlisted(h: Heap, tiles: seq<int>, i: nat, take: nat, entries: seq<int>)
    requires Tiled(h.headers, h.start, h.end, tiles) && CanCarve(h, tiles, i, take) && Known(h.headers, entries)
    requires Distinct(entries) && forall t :: t in entries <==> t in tiles && IsHole(h.headers, t) && t != tiles[i]
    ensures var h' := Carve(h, tiles[i], take, entries); Indexed(h'.headers, h'.entries, Carved(h.headers, tiles, i, take))
  {
    var h' := Carve(h, tiles[i], take, entries);
    if take != h.headers[tiles[i]].size {
      RestIsNew(h, tiles, i, take);
      AddEntrySet(h'.headers, entries, tiles[i] + take);
    }
    forall t
      ensures t in h'.entries <==> t in Carved(h.headers, tiles, i, take) && IsHole(h'.headers, t)
    {
      CarveHoles(h, tiles, i, take, entries, t);
    }
  }

  lemma AlignedIndex(h: Heap, tiles: seq<int>, i: nat, size: nat)
    requires WellFormed(h, tiles) && HasAligned(h, size) && 0 < size
    requires i < |tiles| && tiles[i] == Chosen(h, size) && IsHole(h.headers, tiles[i]) && LeavesHoles(h.headers, tiles[i], size)
    ensures var h' := MallocAligned(h, size).1; Indexed(h'.headers, h'.entries, AlignedTiles(h.headers, tiles, i, size))
  {
    hide Split, Carve, Tiled, Footed, Sorted, AlignedTiles, Carved;
    CarvedBehindGap(h, tiles, i, size);
    SplitKeeps(h, tiles, i, Gap(tiles[i]));
    CarveUnlisted(Split(h, tiles[i], Gap(tiles[i])), Insert(tiles, i + 1, tiles[i] + Gap(tiles[i])), i + 1,
                  Take(h.headers[tiles[i]].size, size), h.entries);
  }

  /** Every other block and hole is as it was. */
  lemma AlignedOutside(h: Heap, tiles: seq<int>, size: nat, t: int)
    requires WellFormed(h, tiles) && HasAligned(h, size) && 0 < size && LeavesHoles(h.headers, Chosen(h, size), size)
    requires t in tiles && t != Chosen(h, size)
    ensures var (hd, h') := (Chosen(h, size), MallocAligned(h, size).1);
            && hd in h.headers && t in h.headers && t in h'.headers && h'.headers[t] == h.headers[t] && IsFooted(h'.headers, h'.footers, t)
            && (t + h.headers[t].size <= hd || hd + h.headers[hd].size <= t)
  {
    hide Split, Carve, Footed, Indexed, Sorted, Tiled;
    var i, pos := ChosenTile(h, tiles, size);
    CarvedBehindGap(h, tiles, i, size);
    var gap, take := Gap(tiles[i]), Take(h.headers[tiles[i]].size, size);
    var h1, tiles1 := Split(h, tiles[i], gap), Insert(tiles, i + 1, tiles[i] + gap);
    SplitKeeps(h, tiles, i, gap);
    SplitOutside(h, tiles, i, gap, t);
    assert t in tiles1 by {
      assert tiles == tiles[..i + 1] + tiles[i + 1..];
    }
    CarveOutside(h1, tiles1, i + 1, take, h.entries, t);
  }

  lemma ChosenHole(h: Heap, size: nat)
    requires HasAligned(h, size) && 0 < size && LeavesHoles(h.headers, Chosen(h, size), size)
    ensures var (p, h') := MallocAligned(h, size);
            var (hd, b) := (Chosen(h, size), p - HEADER);
            && p % FRAME_SIZE == 0 && hd + TAGS <= b && hd in h.headers && h'.start == h.start && h'.end == h.end
            && b in h'.headers && h'.headers[b] == Header(MM_MAGIC, Take(h.headers[hd].size, size), false)
            && hd in h'.headers && h'.headers[hd] == Header(MM_MAGIC, b - hd, true)
            && b + h'.headers[b].size <= hd + h.headers[hd].size && b == hd + Gap(hd)
  {
  }

  /** The block has a page inside the hole taken and room for its tags; every other block and hole is as it was. */
  lemma AlignedGivesAPage(h: Heap, tiles: seq<int>, size: nat, t: int)
    requires WellFormed(h, tiles) && HasAligned(h, size) && 0 < size && LeavesHoles(h.headers, Chosen(h, size), size)
    requires t in tiles
    ensures var (p, h') := MallocAligned(h, size);
            var (hd, b) := (Chosen(h, size), p - HEADER);
            && p % FRAME_SIZE == 0 && hd in tiles && b !in tiles && hd + TAGS <= b
            && b in h'.headers && !h'.headers[b].hole && p + size <= b + h'.headers[b].size - FOOTER && h'.headers[b].size < size + 32
            && hd in h'.headers && h'.headers[hd] == Header(MM_MAGIC, b - hd, true)
            && hd in h.headers && b + h'.headers[b].size <= hd + h.headers[hd].size
            && (t != hd ==>
                  && t in h.headers && t in h'.headers && h'.headers[t] == h.headers[t] && IsFooted(h'.headers, h'.footers, t)
                  && (t + h.headers[t].size <= hd || hd + h.headers[hd].size <= t))
  {
    hide Carve, Split, Footed, Indexed, Sorted, Tiled, MallocAligned;
    ChosenHole(h, size);
    var i, pos := ChosenTile(h, tiles, size);
    assert tiles[i] in tiles;
    CarvedBehindGap(h, tiles, i, size);
    SplitKeeps(h, tiles, i, Gap(tiles[i]));
    if t != tiles[i] {
      AlignedOutside(h, tiles, size, t);
    }
  }

  lemma AlignedSizes(h: Heap, tiles: seq<int>, size: nat, k: nat)
    requires WellFormed(h, tiles) && HasAligned(h, size) && 0 < size && LeavesHoles(h.headers, Chosen(h, size), size)
    requires k < |h.entries|
    ensures var (pos, h') := (FindAligned(h.headers, h.entries, size + TAGS, 0), MallocAligned(h, size).1);
            && h.entries[k] in h'.headers
            && h'.headers[h.entries[k]].size == if k == pos then Gap(h.entries[pos]) else h.headers[h.entries[k]].size
  {
    hide Tiled, Footed, Carve, Split, MallocAligned;
    assert h.entries[k] in h.entries;
    ChosenHole(h, size);
    if k != FindAligned(h.headers, h.entries, size + TAGS, 0) {
      AlignedOutside(h, tiles, size, h.entries[k]);
    }
  }

  /** The hole in front keeps the place of the old one, which is right exactly when the entry before it is no larger. */
  lemma AlignedOrder(h: Heap, tiles: seq<int>, size: nat)
    requires WellFormed(h, tiles) && HasAligned(h, size) && 0 < size && LeavesHoles(h.headers, Chosen(h, size), size)
    ensures var (pos, h') := (FindAligned(h.headers, h.entries, size + TAGS, 0), MallocAligned(h, size).1);
            Sorted(h'.headers, h'.entries) <==> (pos > 0 ==> h.headers[h.entries[pos - 1]].size <= Gap(h.entries[pos]))
  {
    hide Tiled, Footed, Indexed, Split, MallocAligned, Sorted, AddEntry;
    var pos, h' := FindAligned(h.headers, h.entries, size + TAGS, 0), MallocAligned(h, size).1;
    forall k | 0 <= k < |h.entries|
      ensures h.entries[k] in h'.headers
      ensures h'.headers[h.entries[k]].size == if k == pos then Gap(h.entries[pos]) else h.headers[h.entries[k]].size
    {
      AlignedSizes(h, tiles, size, k);
    }
    ShrunkEntry(h.headers, h'.headers, h.entries, pos);
    var rest := AlignedEntries(h, size);
    if rest in h'.headers && h'.entries != h.entries {
      InsertInOrder(h'.headers, h.entries, rest);
    }
  }

  /** The index afterwards. */
  lemma AlignedEntries(h: Heap, size: nat) returns (rest: int)
    requires HasAligned(h, size) && 0 < size
    ensures var h' := MallocAligned(h, size).1;
            && Known(h'.headers, h.entries)
            && (h'.entries == h.entries || (rest in h'.headers && h'.entries == AddEntry(h'.headers, h.entries, rest)))
  {
    var hd := Chosen(h, size);
    rest := hd + Gap(hd) + Take(h.headers[hd].size, size);
  }

  /** Entry pos shrank, and nothing else changed. */
  lemma ShrunkEntry(headers: Headers, headers': Headers, entries: seq<int>, pos: nat)
    requires Sorted(headers, entries) && Known(headers', entries) && pos < |entries|
    requires forall k :: 0 <= k < |entries| && k != pos ==> headers'[entries[k]].size == headers[entries[k]].size
    requires headers'[entries[pos]].size <= headers[entries[pos]].size
    ensures Sorted(headers', entries) <==> (pos > 0 ==> headers[entries[pos - 1]].size <= headers'[entries[pos]].size)
  {
    if pos > 0 && headers[entries[pos - 1]].size <= headers'[entries[pos]].size {
      forall i, j | 0 <= i < j < |entries|
        ensures headers'[entries[i]].size <= headers'[entries[j]].size
      {
        assert headers[entries[i]].size <= headers[entries[j]].size;
        if j == pos && i < pos - 1 {
          assert headers[entries[i]].size <= headers[entries[pos - 1]].size;
        }
      }
    }
  }

  /** A new entry neither spoils an order nor mends one. */
  lemma InsertInOrder(headers: Headers, entries: seq<int>, entry: int)
    requires Known(headers, entries) && entry in headers
    ensures Sorted(headers, AddEntry(headers, entries, entry)) <==> Sorted(headers, entries)
  {
    if Sorted(headers, entries) {
      AddEntryKeepsOrder(headers, entries, entry);
    } else {
      var r, p := AddEntry(headers, entries, entry), FindHole(headers, entries, headers[entry].size, 0);
      var i, j :| 0 <= i < j < |entries| && headers[entries[i]].size > headers[entries[j]].size;
      assert r[if i < p then i else i + 1] == entries[i] && r[if j < p then j else j + 1] == entries[j];
    }
  }

  lemma SplitElsewhere(h: Heap, tiles: seq<int>, i: nat, gap: nat, part: seq<int>)
    requires Cuttable(h, tiles, i, gap) && (part == tiles[..i] || part == tiles[i + 1..])
    ensures HoleBytes(Split(h, tiles[i], gap).headers, part) == HoleBytes(h.headers, part)
  {
    forall t | t in part
      ensures t in h.headers && t in Split(h, tiles[i], gap).headers && Split(h, tiles[i], gap).headers[t] == h.headers[t]
    {
      var j :| 0 <= j < |tiles| && j != i && tiles[j] == t;
      TilesDiffer(h.headers, h.start, h.end, tiles, i, j);
      SplitOutside(h, tiles, i, gap, t);
    }
    HoleBytesSame(h.headers, Split(h, tiles[i], gap).headers, part);
  }

  lemma SplitBytes(h: Heap, tiles: seq<int>, i: nat, gap: nat)
    requires Cuttable(h, tiles, i, gap)
    ensures HoleBytes(Split(h, tiles[i], gap).headers, Insert(tiles, i + 1, tiles[i] + gap)) == HoleBytes(h.headers, tiles)
  {
    hide Tiled, Footed;
    var headers1, hd := Split(h, tiles[i], gap).headers, tiles[i];
    HoleBytesOfFew(h.headers, hd, hd, hd);
    HoleBytesOfFew(headers1, hd, hd + gap, hd);
    SplitElsewhere(h, tiles, i, gap, tiles[..i]);
    SplitElsewhere(h, tiles, i, gap, tiles[i + 1..]);
    BytesAround(h.headers, tiles[..i], [hd], tiles[i + 1..]);
    BytesAround(headers1, tiles[..i], [hd, hd + gap], tiles[i + 1..]);
    assert tiles == tiles[..i] + [hd] + tiles[i + 1..];
    assert Insert(tiles, i + 1, hd + gap) == tiles[..i] + [hd, hd + gap] + tiles[i + 1..];
  }

  /** The bytes in holes fall by exactly the size of the block: the gap is not lost. */
  lemma AlignedTakesBytes(h: Heap, tiles: seq<int>, i: nat, size: nat)
    requires WellFormed(h, tiles) && HasAligned(h, size) && 0 < size
    requires i < |tiles| && tiles[i] == Chosen(h, size) && LeavesHoles(h.headers, tiles[i], size)
    ensures HoleBytes(MallocAligned(h, size).1.headers, AlignedTiles(h.headers, tiles, i, size))
         == HoleBytes(h.headers, tiles) - Take(h.headers[tiles[i]].size, size)
  {
    hide Split, Carve, Tiled, Footed, AlignedTiles, Carved;
    var j, pos := ChosenTile(h, tiles, size);
    CarvedBehindGap(h, tiles, i, size);
    SplitKeeps(h, tiles, i, Gap(tiles[i]));
    SplitBytes(h, tiles, i, Gap(tiles[i]));
    CarveBytes(Split(h, tiles[i], Gap(tiles[i])), Insert(tiles, i + 1, tiles[i] + Gap(tiles[i])), i + 1,
               Take(h.headers[tiles[i]].size, size), h.entries);
  }

  /** A heap can be tiled by some blocks and holes, with footers and an exact index. */
  ghost predicate InOrder(h: Heap)
  {
    exists tiles :: Tiled(h.headers, h.start, h.end, tiles) && Footed(h.headers, h.footers, h.start, tiles) && Indexed(h.headers, h.entries, tiles)
  }

  lemma InsertHolds(entries: seq<int>, p: nat, entry: int, e: int)
    requires p <= |entries| && (e in entries || e == entry)
    ensures e in Insert(entries, p, entry)
  {
    var r := Insert(entries, p, entry);
    if e in entries {
      var k :| 0 <= k < |entries| && entries[k] == e;
      assert r[if k < p then k else k + 1] == e;
    } else {
      assert r[p] == e;
    }
  }

  /** An entry that leads to a block, or to a hole without room for its tags, is in no exact index. */
  lemma BadEntry(h: Heap, tiles: seq<int>, e: int)
    requires Tiled(h.headers, h.start, h.end, tiles) && e in h.entries
    requires IsHole(h.headers, e) ==> h.headers[e].size < TAGS
    ensures !Indexed(h.headers, h.entries, tiles)
  {
    if e in tiles {
      var k :| 0 <= k < |tiles| && tiles[k] == e;
      assert IsTile(h.headers, h.end, tiles, k);
    }
  }

  /** What is listed wrongly: the block itself without a gap, else whichever of gap and rest is too small. */
  lemma BadGapsAreListed(h: Heap, size: nat) returns (e: int)
    requires HasAligned(h, size) && 0 < size && !LeavesHoles(h.headers, Chosen(h, size), size)
    ensures var h' := MallocAligned(h, size).1; e in h'.entries && (IsHole(h'.headers, e) ==> h'.headers[e].size < TAGS)
  {
    var hd := Chosen(h, size);
    var gap, take := Gap(hd), Take(h.headers[hd].size, size);
    var h' := MallocAligned(h, size).1;
    e := if gap < TAGS then hd else hd + gap + take;
    if gap + take != h.headers[hd].size {
      InsertHolds(h.entries, FindHole(h'.headers, h.entries, h'.headers[hd + gap + take].size, 0), hd + gap + take, e);
    }
  }

  /** Exactly when a page-aligned request leaves the heap tiled, with footers and the exact index of holes. */
  lemma AlignedKeepsTheHeapExactly(h: Heap, tiles: seq<int>, size: nat)
    requires WellFormed(h, tiles) && HasAligned(h, size) && 0 < size
    ensures InOrder(MallocAligned(h, size).1) <==> LeavesHoles(h.headers, Chosen(h, size), size)
  {
    var i, pos := ChosenTile(h, tiles, size);
    var h' := MallocAligned(h, size).1;
    if LeavesHoles(h.headers, tiles[i], size) {
      AlignedKeepsTilesAndIndex(h, tiles, i, size);
    } else {
      forall tiles' | Tiled(h'.headers, h.start, h.end, tiles')
        ensures !Indexed(h'.headers, h'.entries, tiles')
      {
        var e := BadGapsAreListed(h, size);
        BadEntry(h', tiles', e);
      }
    }
  }

  /** No entry is taken out of the index. */
  lemma AlignedKeepsEntries(h: Heap, size: nat, e: int)
    requires HasAligned(h, size) && 0 < size && e in h.entries
    ensures e in MallocAligned(h, size).1.entries
  {
    var rest := AlignedEntries(h, size);
    var h' := MallocAligned(h, size).1;
    hide MallocAligned, Split;
    if h'.entries != h.entries {
      InsertHolds(h.entries, FindHole(h'.headers, h.entries, h'.headers[rest].size, 0), rest, e);
    }
  }

  /** A hole that is on a page already: the block handed out stays listed as a hole. */
  lemma AlignedCanBreakTheIndex() returns (h: Heap)
    ensures WellFormed(h, [8184]) && HasAligned(h, 100)
    ensures MallocAligned(h, 100).0 == 8192 && 8184 in MallocAligned(h, 100).1.entries && !InOrder(MallocAligned(h, 100).1)
  {
    hide InOrder, Split, Carve, AddEntry;
    h := Heap(map[8184 := Header(MM_MAGIC, 5000, true)], map[13176 := Footer(MM_MAGIC, 8184)], [8184], 8184, 13184);
    assert h.entries[0] == 8184 && Tiled(h.headers, h.start, h.end, [8184]);
    assert Gap(8184) == 0 && HasAligned(h, 100) && Chosen(h, 100) == 8184;
    AlignedKeepsTheHeapExactly(h, [8184], 100);
    AlignedKeepsEntries(h, 100, 8184);
  }

  /** The hole in front of the page is smaller than its predecessor in the index. */
  lemma AlignedCanLoseTheOrder() returns (h: Heap, tiles: seq<int>)
    ensures WellFormed(h, tiles) && HasAligned(h, 100) && LeavesHoles(h.headers, Chosen(h, 100), 100)
    ensures Known(MallocAligned(h, 100).1.headers, MallocAligned(h, 100).1.entries)
    ensures !Sorted(MallocAligned(h, 100).1.headers, MallocAligned(h, 100).1.entries)
  {
    tiles := [4096, 5096, 8000];
    h := Heap(
      map[4096 := Header(MM_MAGIC, 1000, true), 5096 := Header(MM_MAGIC, 2904, false), 8000 := Header(MM_MAGIC, 8000, true)],
      map[5088 := Footer(MM_MAGIC, 4096), 7992 := Footer(MM_MAGIC, 5096), 15992 := Footer(MM_MAGIC, 8000)],
      [4096, 8000], 4096, 16000);
    assert Tiled(h.headers, h.start, h.end, tiles);
    assert h.entries[0] == 4096 && h.entries[1] == 8000;
    assert FindAligned(h.headers, h.entries, 116, 0) == 1;
    AlignedOrder(h, tiles, 100);
    AlignedSizes(h, tiles, 100, 0);
    AlignedSizes(h, tiles, 100, 1);
    AlignedKnown(h, tiles, 100);
  }

  lemma AlignedKnown(h: Heap, tiles: seq<int>, size: nat)
    requires WellFormed(h, tiles) && HasAligned(h, size) && 0 < size && LeavesHoles(h.headers, Chosen(h, size), size)
    ensures Known(MallocAligned(h, size).1.headers, MallocAligned(h, size).1.entries)
  {
    hide Split;
    var i, pos := ChosenTile(h, tiles, size);
    AlignedKeepsTilesAndIndex(h, tiles, i, size);
    var h' := MallocAligned(h, size).1;
    forall k | 0 <= k < |h'.entries|
      ensures h'.entries[k] in h'.headers
    {
      assert h'.entries[k] in h'.entries;
    }
  }
}

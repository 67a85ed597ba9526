/**
  heap_free of src/mm/mm.c: a block becomes a hole and merges with the holes on either side. The heap's end
  stays where it is here; a merged hole that reaches it is given back to the system by code outside this model.
 */
module HeapFree {

  import opened HeapTags
  import opened HeapMalloc

  ghost predicate NoAdjacentHoles(headers: Headers, tiles: seq<int>)
  {
    forall i :: 0 <= i < |tiles| - 1 && IsHole(headers, tiles[i]) ==> !IsHole(headers, tiles[i + 1])
  }

  // ---- heap_free ----------------------------------------------------------

  function Flagged(headers: Headers, b: int): Headers
    requires b in headers
  {
    headers[b := Header(headers[b].magic, headers[b].size, true)]
  }

  function Grown(headers: Headers, t: int, size: nat): Headers
    requires t in headers
  {
    headers[t := Header(headers[t].magic, headers[t].size + size, headers[t].hole)]
  }

  predicate MagicHole(headers: Headers, t: int)
  {
    t in headers && headers[t].magic == MM_MAGIC && headers[t].hole
  }

  /** The footer in front of b leads to a hole. */
  predicate LeftIsHole(headers: Headers, footers: Footers, b: int)
  {
    && b - FOOTER in footers && footers[b - FOOTER].magic == MM_MAGIC
    && MagicHole(headers, footers[b - FOOTER].header)
  }

  /** Takes the hole at r out of the index, when it has an entry there. */
  function Unlisted(entries: seq<int>, r: int): seq<int>
  {
    var p := FindEntry(entries, r, 0);
    if p < |entries| then DelEntry(entries, p) else entries
  }

  /** The header the freed bytes end up under, once the left side has been looked at. */
  function FreeLeft(headers: Headers, footers: Footers, b: int): (Headers, Footers, int)
    requires b in headers
  {
    var size := headers[b].size;
    var headers1 := Flagged(headers, b);
    if LeftIsHole(headers1, footers, b) then
      var l := footers[b - FOOTER].header;
      var f := b + size - FOOTER;
      (Grown(headers1, l, size), footers[f := Footer(if f in footers then footers[f].magic else 0, l)], l)
    else (headers1, footers, b)
  }

  function FreeRight(headers: Headers, entries: seq<int>, r: int, l: int): (Headers, seq<int>)
    requires l in headers
  {
    if MagicHole(headers, r) then (Grown(headers, l, headers[r].size), Unlisted(entries, r)) else (headers, entries)
  }

  /** ptr's tags are in order: anything else is ignored by heap_free. */
  predicate Freeable(headers: Headers, footers: Footers, b: int)
  {
    && b in headers && headers[b].magic == MM_MAGIC
    && b + headers[b].size - FOOTER in footers && footers[b + headers[b].size - FOOTER].magic == MM_MAGIC
  }

  /** The heap with the freed bytes merged and not yet listed, and the header they are under. */
  function Merged(h: Heap, b: int): (r: (Heap, int))
    requires b in h.headers && Known(h.headers, h.entries)
    ensures r.1 in r.0.headers && Known(r.0.headers, r.0.entries)
  {
    var (headers2, footers2, l) := FreeLeft(h.headers, h.footers, b);
    var (headers3, entries3) := FreeRight(headers2, h.entries, b + h.headers[b].size, l);
    (Heap(headers3, footers2, entries3, h.start, h.end), l)
  }

  /** Only a hole that did not grow out of its left neighbour needs a new entry. */
  function Free(h: Heap, ptr: int): Heap
    requires Known(h.headers, h.entries)
  {
    var b := ptr - HEADER;
    if ptr == 0 || !Freeable(h.headers, h.footers, b) then h
    else
      var (h1, l) := Merged(h, b);
      if LeftIsHole(Flagged(h.headers, b), h.footers, b) then h1
      else h1.(entries := AddEntry(h1.headers, h1.entries, l))
  }

  // ---- The tiles after ----------------------------------------------------

  predicate LeftMerges(headers: Headers, tiles: seq<int>, i: nat)
  {
    0 < i < |tiles| && IsHole(headers, tiles[i - 1])
  }

  predicate RightMerges(headers: Headers, tiles: seq<int>, i: nat)
  {
    i + 1 < |tiles| && IsHole(headers, tiles[i + 1])
  }

  /** Index of the merged hole. */
  function Middle(headers: Headers, tiles: seq<int>, i: nat): nat
  {
    if LeftMerges(headers, tiles, i) then i - 1 else i
  }

  /** How many tiles disappear. */
  function Cut(headers: Headers, tiles: seq<int>, i: nat): nat
  {
    (if LeftMerges(headers, tiles, i) then 1 else 0) + (if RightMerges(headers, tiles, i) then 1 else 0)
  }

  function FreedTiles(headers: Headers, tiles: seq<int>, i: nat): seq<int>
    requires i < |tiles|
  {
    var m := Middle(headers, tiles, i);
    tiles[..m + 1] + tiles[m + 1 + Cut(headers, tiles, i)..]
  }

  /** Tile i is a live block, and the hole it becomes part of ends below the heap's end. */
  ghost predicate LiveBlock(h: Heap, tiles: seq<int>, i: nat)
  {
    && i + 1 < |tiles| && 0 < h.start && tiles[i] in h.headers && !h.headers[tiles[i]].hole
    && (RightMerges(h.headers, tiles, i) ==> i + 2 < |tiles|)
  }

  /** What heap_free relies on; the order of the index is not part of it. */
  ghost predicate Linked(h: Heap, tiles: seq<int>)
  {
    && Tiled(h.headers, h.start, h.end, tiles)
    && Footed(h.headers, h.footers, h.start, tiles)
    && Indexed(h.headers, h.entries, tiles)
    && Known(h.headers, h.entries)
  }

  lemma LeftCase(h: Heap, tiles: seq<int>, i: nat)
    requires Linked(h, tiles) && LiveBlock(h, tiles, i)
    ensures Freeable(h.headers, h.footers, tiles[i]) && tiles[i] + HEADER != 0
    ensures LeftIsHole(Flagged(h.headers, tiles[i]), h.footers, tiles[i]) <==> LeftMerges(h.headers, tiles, i)
    ensures LeftMerges(h.headers, tiles, i) ==> h.footers[tiles[i] - FOOTER].header == tiles[i - 1]
  {
    assert IsTile(h.headers, h.end, tiles, i) && IsFooted(h.headers, h.footers, tiles[i]);
    if i > 0 {
      assert IsTile(h.headers, h.end, tiles, i - 1) && IsFooted(h.headers, h.footers, tiles[i - 1]);
      TilesDiffer(h.headers, h.start, h.end, tiles, i, i - 1);
      TilesAscend(h.headers, h.start, h.end, tiles, 0, i);
    }
  }

  /** Every entry leads to a hole, except that the hole at x has none. */
  ghost predicate IndexedBut(headers: Headers, entries: seq<int>, tiles: seq<int>, x: int)
  {
    Distinct(entries) && forall t :: t in entries <==> t in tiles && IsHole(headers, t) && t != x
  }

  /** What holds after each of the two merges: m is the hole the freed bytes are part of. */
  ghost predicate Between(headers: Headers, entries: seq<int>, start: int, end: int, tiles: seq<int>, b: int, m: nat)
  {
    && Tiled(headers, start, end, tiles) && IndexedBut(headers, entries, tiles, b)
    && m < |tiles| && IsHole(headers, tiles[m])
    && (b in tiles ==> tiles[m] == b)
  }

  lemma DelTile(headers: Headers, start: int, end: int, tiles: seq<int>, i: nat, t: int)
    requires Tiled(headers, start, end, tiles) && i < |tiles|
    ensures t in DelEntry(tiles, i) <==> t in tiles && t != tiles[i]
  {
    if t in tiles && t != tiles[i] {
      var k :| 0 <= k < |tiles| && tiles[k] == t;
      assert DelEntry(tiles, i)[if k < i then k else k - 1] == t;
    }
    if t in DelEntry(tiles, i) {
      var k :| 0 <= k < |tiles| - 1 && DelEntry(tiles, i)[k] == t;
      TilesDiffer(headers, start, end, tiles, i, if k < i then k else k + 1);
    }
  }

  lemma FlagStep(h: Heap, tiles: seq<int>, i: nat)
    requires Linked(h, tiles) && LiveBlock(h, tiles, i)
    ensures Between(Flagged(h.headers, tiles[i]), h.entries, h.start, h.end, tiles, tiles[i], i)
  {
    SameTiles(h.headers, Flagged(h.headers, tiles[i]), h.start, h.end, tiles);
  }

  lemma LeftStep(headers: Headers, entries: seq<int>, start: int, end: int, tiles: seq<int>, i: nat)
    requires 0 < i < |tiles| && Between(headers, entries, start, end, tiles, tiles[i], i)
    requires IsHole(headers, tiles[i - 1])
    ensures Between(Grown(headers, tiles[i - 1], headers[tiles[i]].size), entries, start, end, DelEntry(tiles, i), tiles[i], i - 1)
  {
    assert IsTile(headers, end, tiles, i - 1) && IsTile(headers, end, tiles, i);
    JoinTiles(headers, start, end, tiles, i - 1, true);
    var headers' := Grown(headers, tiles[i - 1], headers[tiles[i]].size);
    forall t
      ensures t in DelEntry(tiles, i) <==> t in tiles && t != tiles[i]
      ensures IsHole(headers', t) <==> IsHole(headers, t)
    {
      DelTile(headers, start, end, tiles, i, t);
    }
  }

  lemma UnlistedSet(entries: seq<int>, r: int)
    requires Distinct(entries) && r in entries
    ensures Distinct(Unlisted(entries, r)) && forall t :: t in Unlisted(entries, r) <==> t in entries && t != r
  {
    DelEntrySet(entries, FindEntry(entries, r, 0));
  }

  lemma RightStep(headers: Headers, entries: seq<int>, start: int, end: int, tiles: seq<int>, b: int, m: nat)
    requires m + 1 < |tiles| && Between(headers, entries, start, end, tiles, b, m)
    requires IsHole(headers, tiles[m + 1])
    ensures Between(Grown(headers, tiles[m], headers[tiles[m + 1]].size), Unlisted(entries, tiles[m + 1]), start, end,
                    DelEntry(tiles, m + 1), b, m)
  {
    var r := tiles[m + 1];
    var headers', tiles' := Grown(headers, tiles[m], headers[r].size), DelEntry(tiles, m + 1);
    assert Tiled(headers', start, end, tiles') by {
      assert IsTile(headers, end, tiles, m) && IsTile(headers, end, tiles, m + 1);
      JoinTiles(headers, start, end, tiles, m, true);
    }
    TilesDiffer(headers, start, end, tiles, m, m + 1);
    forall t
      ensures t in tiles' <==> t in tiles && t != r
      ensures IsHole(headers', t) <==> IsHole(headers, t)
    {
      DelTile(headers, start, end, tiles, m + 1, t);
    }
    assert tiles'[m] == tiles[m] && m < |tiles'|;
    assert r in tiles && r in entries;
    UnlistedSet(entries, r);
    hide Tiled, DelEntry, Unlisted, Grown, IsHole;
  }

  lemma LastStep(headers: Headers, entries: seq<int>, start: int, end: int, tiles: seq<int>, b: int, m: nat)
    requires Between(headers, entries, start, end, tiles, b, m)
    ensures Known(headers, entries)
    ensures tiles[m] == b ==> Indexed(headers, AddEntry(headers, entries, b), tiles)
    ensures tiles[m] != b ==> Indexed(headers, entries, tiles)
  {
    forall k | 0 <= k < |entries|
      ensures entries[k] in headers
    {
      assert entries[k] in entries;
    }
    if tiles[m] == b {
      AddEntrySet(headers, entries, b);
    }
  }

  /** The two stages of a free put together. */
  lemma FreeStages(h: Heap, tiles: seq<int>, i: nat)
    requires Linked(h, tiles) && LiveBlock(h, tiles, i)
    ensures var (headers2, footers2, l) := FreeLeft(h.headers, h.footers, tiles[i]);
            var (headers3, entries3) := FreeRight(headers2, h.entries, tiles[i] + h.headers[tiles[i]].size, l);
            && Middle(h.headers, tiles, i) < |FreedTiles(h.headers, tiles, i)|
            && l == FreedTiles(h.headers, tiles, i)[Middle(h.headers, tiles, i)]
            && Between(headers3, entries3, h.start, h.end, FreedTiles(h.headers, tiles, i), tiles[i], Middle(h.headers, tiles, i))
  {
    var b, m := tiles[i], Middle(h.headers, tiles, i);
    var size := h.headers[b].size;
    LeftCase(h, tiles, i);
    FlagStep(h, tiles, i);
    var headers1 := Flagged(h.headers, b);
    assert IsTile(h.headers, h.end, tiles, i) && IsTile(h.headers, h.end, tiles, i + 1);
    TilesDiffer(h.headers, h.start, h.end, tiles, i, i + 1);
    var headers2, tiles2 := headers1, tiles;
    if LeftMerges(h.headers, tiles, i) {
      TilesDiffer(h.headers, h.start, h.end, tiles, i, i - 1);
      TilesDiffer(h.headers, h.start, h.end, tiles, i - 1, i + 1);
      LeftStep(headers1, h.entries, h.start, h.end, tiles, i);
      headers2, tiles2 := Grown(headers1, tiles[i - 1], size), DelEntry(tiles, i);
    }
    assert tiles2[m + 1] == tiles[i + 1] == b + size && IsHole(headers2, tiles2[m + 1]) == IsHole(h.headers, tiles[i + 1]);
    assert FreeLeft(h.headers, h.footers, b).0 == headers2;
    if RightMerges(h.headers, tiles, i) {
      RightStep(headers2, h.entries, h.start, h.end, tiles2, b, m);
      assert DelEntry(tiles2, m + 1) == FreedTiles(h.headers, tiles, i);
    } else {
      assert tiles2 == FreedTiles(h.headers, tiles, i);
    }
  }

  // ---- What heap_free promises --------------------------------------------

  lemma FreeIs(h: Heap, tiles: seq<int>, i: nat)
    requires Linked(h, tiles) && LiveBlock(h, tiles, i)
    ensures var (h1, l) := Merged(h, tiles[i]);
            && h1.start == h.start && h1.end == h.end
            && Middle(h.headers, tiles, i) < |FreedTiles(h.headers, tiles, i)|
            && l == FreedTiles(h.headers, tiles, i)[Middle(h.headers, tiles, i)]
            && (l == tiles[i] <==> !LeftMerges(h.headers, tiles, i))
            && Between(h1.headers, h1.entries, h.start, h.end, FreedTiles(h.headers, tiles, i), tiles[i], Middle(h.headers, tiles, i))
            && Free(h, tiles[i] + HEADER) == if l == tiles[i] then h1.(entries := AddEntry(h1.headers, h1.entries, tiles[i])) else h1
  {
    LeftCase(h, tiles, i);
    FreeStages(h, tiles, i);
    if i > 0 {
      TilesDiffer(h.headers, h.start, h.end, tiles, i, i - 1);
    }
  }

  /** In all four merge cases headers tile the heap again and the index is the exact set of holes. */
  lemma FreeKeepsTilesAndIndex(h: Heap, tiles: seq<int>, i: nat)
    requires Linked(h, tiles) && LiveBlock(h, tiles, i)
    ensures var h' := Free(h, tiles[i] + HEADER);
            && Tiled(h'.headers, h.start, h.end, FreedTiles(h.headers, tiles, i))
            && Indexed(h'.headers, h'.entries, FreedTiles(h.headers, tiles, i))
  {
    FreeIs(h, tiles, i);
    var (h1, l) := Merged(h, tiles[i]);
    LastStep(h1.headers, h1.entries, h.start, h.end, FreedTiles(h.headers, tiles, i), tiles[i], Middle(h.headers, tiles, i));
  }

  /** Memory changes at two headers and, after a left merge, in the freed block's own footer; nowhere else. */
  lemma FreeTouches(h: Heap, tiles: seq<int>, i: nat)
    requires Linked(h, tiles) && LiveBlock(h, tiles, i)
    ensures var (h', m) := (Free(h, tiles[i] + HEADER), Middle(h.headers, tiles, i));
            && h'.start == h.start && h'.end == h.end && m < |tiles|
            && tiles[m] in h'.headers
            && h'.headers[tiles[m]].magic == MM_MAGIC && h'.headers[tiles[m]].hole
            && tiles[m] + h'.headers[tiles[m]].size == tiles[m + 1 + Cut(h.headers, tiles, i)]
            && (forall a :: a != tiles[m] && a != tiles[i] ==>
                  (a in h'.headers <==> a in h.headers) && (a in h.headers ==> h'.headers[a] == h.headers[a]))
            && h'.footers == if m == i then h.footers else
                 h.footers[tiles[i] + h.headers[tiles[i]].size - FOOTER := Footer(MM_MAGIC, tiles[m])]
  {
    FreeIs(h, tiles, i);
    LeftCase(h, tiles, i);
    FreeKeepsTilesAndIndex(h, tiles, i);
    var m := Middle(h.headers, tiles, i);
    assert IsTile(Free(h, tiles[i] + HEADER).headers, h.end, FreedTiles(h.headers, tiles, i), m);
    assert IsTile(h.headers, h.end, tiles, i) && IsTile(h.headers, h.end, tiles, m);
    if m != i {
      TilesDiffer(h.headers, h.start, h.end, tiles, i, m);
    }
  }

  /** Every tile that is neither the freed block nor a hole beside it is still there, with the same header. */
  lemma FreeLeavesOthersAlone(h: Heap, tiles: seq<int>, i: nat, j: nat)
    requires Linked(h, tiles) && LiveBlock(h, tiles, i) && j < |tiles|
    requires j < Middle(h.headers, tiles, i) || Middle(h.headers, tiles, i) + Cut(h.headers, tiles, i) < j
    ensures var h' := Free(h, tiles[i] + HEADER);
            && tiles[j] in FreedTiles(h.headers, tiles, i)
            && tiles[j] in h.headers && tiles[j] in h'.headers && h'.headers[tiles[j]] == h.headers[tiles[j]]
            && (IsFooted(h.headers, h.footers, tiles[j]) ==> IsFooted(h'.headers, h'.footers, tiles[j]))
  {
    hide Free, Footed, Indexed;
    var m, cut := Middle(h.headers, tiles, i), Cut(h.headers, tiles, i);
    FreeTouches(h, tiles, i);
    assert IsTile(h.headers, h.end, tiles, j) && IsTile(h.headers, h.end, tiles, i);
    TilesDiffer(h.headers, h.start, h.end, tiles, i, j);
    TilesDiffer(h.headers, h.start, h.end, tiles, m, j);
    if i < j {
      TilesAscend(h.headers, h.start, h.end, tiles, i, j);
    } else {
      TilesAscend(h.headers, h.start, h.end, tiles, j, i);
    }
    assert FreedTiles(h.headers, tiles, i)[if j < m then j else j - cut] == tiles[j];
  }

  lemma FreedAt(headers: Headers, tiles: seq<int>, i: nat, j: nat)
    requires i < |tiles| && j < |FreedTiles(headers, tiles, i)|
    ensures var k := if j <= Middle(headers, tiles, i) then j else j + Cut(headers, tiles, i);
            k < |tiles| && FreedTiles(headers, tiles, i)[j] == tiles[k]
  {
  }

  /** No two holes lie side by side afterwards when none did before. */
  lemma FreeLeavesNoAdjacentHoles(h: Heap, tiles: seq<int>, i: nat)
    requires Linked(h, tiles) && LiveBlock(h, tiles, i) && NoAdjacentHoles(h.headers, tiles)
    ensures NoAdjacentHoles(Free(h, tiles[i] + HEADER).headers, FreedTiles(h.headers, tiles, i))
  {
    var h', tiles' := Free(h, tiles[i] + HEADER), FreedTiles(h.headers, tiles, i);
    var m, cut := Middle(h.headers, tiles, i), Cut(h.headers, tiles, i);
    forall j | 0 <= j < |tiles'| - 1
      ensures !(IsHole(h'.headers, tiles'[j]) && IsHole(h'.headers, tiles'[j + 1]))
    {
      FreedAt(h.headers, tiles, i, j);
      FreedAt(h.headers, tiles, i, j + 1);
      if j < m {
        FreeLeavesOthersAlone(h, tiles, i, j);
      } else {
        FreeLeavesOthersAlone(h, tiles, i, j + 1 + cut);
      }
      if j + 1 < m {
        FreeLeavesOthersAlone(h, tiles, i, j + 1);
      } else if m < j {
        FreeLeavesOthersAlone(h, tiles, i, j + cut);
      }
    }
  }

  /** Every footer still points home exactly when the block on the right was not a hole. */
  lemma FootersHoldExactlyWithoutRightMerge(h: Heap, tiles: seq<int>, i: nat)
    requires Linked(h, tiles) && LiveBlock(h, tiles, i)
    ensures var h' := Free(h, tiles[i] + HEADER);
            Footed(h'.headers, h'.footers, h.start, FreedTiles(h.headers, tiles, i)) <==> !RightMerges(h.headers, tiles, i)
  {
    hide Free, Indexed, Known;
    var h', tiles' := Free(h, tiles[i] + HEADER), FreedTiles(h.headers, tiles, i);
    var m, cut := Middle(h.headers, tiles, i), Cut(h.headers, tiles, i);
    FreeTouches(h, tiles, i);
    assert IsTile(h.headers, h.end, tiles, i) && IsTile(h.headers, h.end, tiles, i + 1);
    assert tiles'[m] == tiles[m];
    TilesAscend(h.headers, h.start, h.end, tiles, m, i + 1);
    if RightMerges(h.headers, tiles, i) {
      assert IsFooted(h.headers, h.footers, tiles[i + 1]);
      assert !IsFooted(h'.headers, h'.footers, tiles'[m]);
    } else {
      assert IsFooted(h.headers, h.footers, tiles[i]);
      forall j | 0 <= j < |tiles'| && j != m
        ensures IsFooted(h'.headers, h'.footers, tiles'[j])
      {
        FreedAt(h.headers, tiles, i, j);
        var k := if j < m then j else j + cut;
        assert IsFooted(h.headers, h.footers, tiles[k]);
        FreeLeavesOthersAlone(h, tiles, i, k);
      }
      FirstFooterIsAbove(h, tiles, i);
    }
  }

  /**
    What the footer left behind by a right merge leads to: when the block behind the merged hole is freed next, it
    is added to a header inside that hole which is no tile any more, and the index never hears of it.
   */
  lemma NextFreeIsLost(h: Heap, tiles: seq<int>, i: nat)
    requires Linked(h, tiles) && LiveBlock(h, tiles, i) && RightMerges(h.headers, tiles, i) && !IsHole(h.headers, tiles[i + 2])
    ensures var (h', b) := (Free(h, tiles[i] + HEADER), tiles[i + 2]);
            && Known(h'.headers, h'.entries) && b in FreedTiles(h.headers, tiles, i) && Freeable(h'.headers, h'.footers, b)
            && var h'' := Free(h', b + HEADER);
               IsHole(h''.headers, b) && b !in h''.entries && !Indexed(h''.headers, h''.entries, FreedTiles(h.headers, tiles, i))
  {
    hide Free, Footed, Known, FreedTiles;
    var h', b := Free(h, tiles[i] + HEADER), tiles[i + 2];
    var cut := Cut(h.headers, tiles, i);
    assert IsTile(h.headers, h.end, tiles, i) && IsTile(h.headers, h.end, tiles, i + 1) && IsTile(h.headers, h.end, tiles, i + 2);
    FootersOf(h, tiles, i + 1);
    FootersOf(h, tiles, i + 2);
    FirstFooterIsAbove(h, tiles, i + 2);
    TilesDiffer(h.headers, h.start, h.end, tiles, i, i + 1);
    TilesDiffer(h.headers, h.start, h.end, tiles, i, i + 2);
    TilesDiffer(h.headers, h.start, h.end, tiles, i + 1, i + 2);
    if LeftMerges(h.headers, tiles, i) {
      TilesDiffer(h.headers, h.start, h.end, tiles, i - 1, i + 1);
      TilesDiffer(h.headers, h.start, h.end, tiles, i - 1, i + 2);
    }
    FreeTouches(h, tiles, i);
    FreeKeepsTilesAndIndex(h, tiles, i);
    FreeLeavesOthersAlone(h, tiles, i, i + 2);
    KnownWhenIndexed(h'.headers, h'.entries, FreedTiles(h.headers, tiles, i));
    StaleLeft(h', b, tiles[i + 1]);
  }

  lemma FootersOf(h: Heap, tiles: seq<int>, i: nat)
    requires Footed(h.headers, h.footers, h.start, tiles) && i < |tiles|
    ensures IsFooted(h.headers, h.footers, tiles[i])
  {
  }

  lemma KnownWhenIndexed(headers: Headers, entries: seq<int>, tiles: seq<int>)
    requires Indexed(headers, entries, tiles)
    ensures Known(headers, entries)
  {
    forall k | 0 <= k < |entries|
      ensures entries[k] in headers
    {
      assert entries[k] in entries && IsHole(headers, entries[k]);
    }
  }

  /** A freed block whose left footer leads to a hole gets no entry. */
  lemma StaleLeft(h: Heap, b: int, l: int)
    requires Known(h.headers, h.entries) && Freeable(h.headers, h.footers, b) && b + HEADER != 0 && l != b && b !in h.entries
    requires b - FOOTER in h.footers && h.footers[b - FOOTER] == Footer(MM_MAGIC, l) && MagicHole(h.headers, l)
    ensures var h'' := Free(h, b + HEADER); IsHole(h''.headers, b) && b !in h''.entries
  {
    var r := b + h.headers[b].size;
    var p := FindEntry(h.entries, r, 0);
    assert p < |h.entries| ==> forall e :: e in DelEntry(h.entries, p) ==> e in h.entries;
  }

  lemma FirstFooterIsAbove(h: Heap, tiles: seq<int>, i: nat)
    requires Tiled(h.headers, h.start, h.end, tiles) && i < |tiles| && tiles[i] in h.headers
    ensures h.start <= tiles[i] < tiles[i] + h.headers[tiles[i]].size
  {
    assert IsTile(h.headers, h.end, tiles, i);
    if i > 0 {
      TilesAscend(h.headers, h.start, h.end, tiles, 0, i);
    }
  }

  lemma FreeElsewhere(h: Heap, tiles: seq<int>, i: nat, part: seq<int>)
    requires Linked(h, tiles) && LiveBlock(h, tiles, i)
    requires part == tiles[..Middle(h.headers, tiles, i)]
          || part == tiles[Middle(h.headers, tiles, i) + 1 + Cut(h.headers, tiles, i)..]
    ensures HoleBytes(Free(h, tiles[i] + HEADER).headers, part) == HoleBytes(h.headers, part)
  {
    var m, cut := Middle(h.headers, tiles, i), Cut(h.headers, tiles, i);
    var h' := Free(h, tiles[i] + HEADER);
    forall t | t in part
      ensures t in h.headers && t in h'.headers && h'.headers[t] == h.headers[t]
    {
      var k :| 0 <= k < |part| && part[k] == t;
      FreeLeavesOthersAlone(h, tiles, i, if part == tiles[..m] then k else k + m + 1 + cut);
    }
    HoleBytesSame(h.headers, h'.headers, part);
  }

  /** The merged tiles: the freed block, and the holes it merges with. */
  lemma MergedBytes(h: Heap, tiles: seq<int>, i: nat)
    requires Linked(h, tiles) && LiveBlock(h, tiles, i)
    ensures var (m, cut) := (Middle(h.headers, tiles, i), Cut(h.headers, tiles, i));
            HoleBytes(h.headers, tiles[m..m + 1 + cut]) + h.headers[tiles[i]].size == tiles[m + 1 + cut] - tiles[m]
  {
    var m, cut := Middle(h.headers, tiles, i), Cut(h.headers, tiles, i);
    var part := tiles[m..m + 1 + cut];
    assert IsTile(h.headers, h.end, tiles, m) && IsTile(h.headers, h.end, tiles, i) && IsTile(h.headers, h.end, tiles, i + 1);
    if LeftMerges(h.headers, tiles, i) {
      HoleBytesOfFew(h.headers, tiles[i - 1], tiles[i], tiles[i + 1]);
      assert part[0] == tiles[i - 1] && part[1] == tiles[i];
      if cut == 2 {
        assert part == [tiles[i - 1], tiles[i], tiles[i + 1]];
      } else {
        assert part == [tiles[i - 1], tiles[i]];
      }
    } else {
      HoleBytesOfFew(h.headers, tiles[i], tiles[i + 1], 0);
      if cut == 1 {
        assert part == [tiles[i], tiles[i + 1]];
      } else {
        assert part == [tiles[i]];
      }
    }
  }

  lemma SplicedBytes(headers: Headers, headers': Headers, tiles: seq<int>, m: nat, n: nat)
    requires m < n <= |tiles|
    requires HoleBytes(headers', tiles[..m]) == HoleBytes(headers, tiles[..m])
    requires HoleBytes(headers', tiles[n..]) == HoleBytes(headers, tiles[n..])
    ensures HoleBytes(headers', tiles[..m + 1] + tiles[n..]) - OwnBytes(headers', tiles[m])
         == HoleBytes(headers, tiles) - HoleBytes(headers, tiles[m..n])
  {
    HoleBytesOfFew(headers', tiles[m], 0, 0);
    BytesAround(headers, tiles[..m], tiles[m..n], tiles[n..]);
    BytesAround(headers', tiles[..m], [tiles[m]], tiles[n..]);
    assert tiles[..m] + tiles[m..n] == tiles[..n];
    assert tiles[..n] + tiles[n..] == tiles;
    assert tiles[..m + 1] == tiles[..m] + [tiles[m]];
  }

  /** Bytes are conserved: what the block held is in holes now, and nothing else. */
  lemma FreeReturnsBytes(h: Heap, tiles: seq<int>, i: nat)
    requires Linked(h, tiles) && LiveBlock(h, tiles, i)
    ensures HoleBytes(Free(h, tiles[i] + HEADER).headers, FreedTiles(h.headers, tiles, i))
         == HoleBytes(h.headers, tiles) + h.headers[tiles[i]].size
  {
    var m, cut := Middle(h.headers, tiles, i), Cut(h.headers, tiles, i);
    hide Free, HoleBytes, Tiled, Footed, Indexed;
    var headers' := Free(h, tiles[i] + HEADER).headers;
    FreeElsewhere(h, tiles, i, tiles[..m]);
    FreeElsewhere(h, tiles, i, tiles[m + 1 + cut..]);
    MergedBytes(h, tiles, i);
    FreeTouches(h, tiles, i);
    SplicedBytes(h.headers, headers', tiles, m, m + 1 + cut);
  }

  /** The entries that stay when block i is freed: the right neighbour goes, if it was a hole. */
  function EntriesLeft(h: Heap, tiles: seq<int>, i: nat): seq<int>
  {
    if RightMerges(h.headers, tiles, i) then Unlisted(h.entries, tiles[i + 1]) else h.entries
  }

  lemma MergedEntries(h: Heap, tiles: seq<int>, i: nat)
    requires Linked(h, tiles) && LiveBlock(h, tiles, i)
    ensures Merged(h, tiles[i]).0.entries == EntriesLeft(h, tiles, i)
  {
    hide Footed, Indexed, FreedTiles, Between;
    assert IsTile(h.headers, h.end, tiles, i) && IsTile(h.headers, h.end, tiles, i + 1);
    TilesDiffer(h.headers, h.start, h.end, tiles, i, i + 1);
    if i > 0 {
      TilesDiffer(h.headers, h.start, h.end, tiles, i - 1, i + 1);
    }
    LeftCase(h, tiles, i);
  }

  lemma EntriesLeftSorted(h: Heap, tiles: seq<int>, i: nat)
    requires Linked(h, tiles) && LiveBlock(h, tiles, i) && Sorted(h.headers, h.entries)
    ensures var e := EntriesLeft(h, tiles, i);
            Sorted(h.headers, e) && (forall t :: t in e ==> t in h.entries) && tiles[i] !in e
  {
    hide Tiled, Footed;
    if RightMerges(h.headers, tiles, i) {
      var p := FindEntry(h.entries, tiles[i + 1], 0);
      if p < |h.entries| {
        DelEntryKeepsOrder(h.headers, h.entries, p);
        DelEntrySet(h.entries, p);
      }
    }
    assert !IsHole(h.headers, tiles[i]) && tiles[i] !in h.entries;
  }

  /** Without a left merge the index stays ordered by size. */
  lemma FreeKeepsOrder(h: Heap, tiles: seq<int>, i: nat)
    requires Linked(h, tiles) && LiveBlock(h, tiles, i) && Sorted(h.headers, h.entries)
    requires !LeftMerges(h.headers, tiles, i)
    ensures Sorted(Free(h, tiles[i] + HEADER).headers, Free(h, tiles[i] + HEADER).entries)
  {
    hide Free, Merged, Footed, Tiled, EntriesLeft, FreedTiles, Between;
    FreeIs(h, tiles, i);
    FreeTouches(h, tiles, i);
    MergedEntries(h, tiles, i);
    EntriesLeftSorted(h, tiles, i);
    var h1 := Merged(h, tiles[i]).0;
    forall k | 0 <= k < |h1.entries|
      ensures h1.entries[k] in h1.headers && h1.headers[h1.entries[k]] == h.headers[h1.entries[k]]
    {
      assert h1.entries[k] in EntriesLeft(h, tiles, i) && h1.entries[k] != tiles[i] && h1.entries[k] in h.headers;
      assert h1.headers == Free(h, tiles[i] + HEADER).headers;
    }
    AddEntryKeepsOrder(h1.headers, h1.entries, tiles[i]);
  }

  /** Entry p grew, and nothing else changed: the order holds exactly when its successor is still not smaller. */
  lemma GrownEntry(headers: Headers, headers': Headers, entries: seq<int>, p: nat)
    requires Sorted(headers, entries) && Known(headers', entries) && p < |entries|
    requires forall k :: 0 <= k < |entries| && k != p ==> headers'[entries[k]].size == headers[entries[k]].size
    requires headers[entries[p]].size <= headers'[entries[p]].size
    ensures Sorted(headers', entries) <==>
              (p + 1 < |entries| ==> headers'[entries[p]].size <= headers'[entries[p + 1]].size)
  {
    if p + 1 < |entries| && headers'[entries[p]].size <= headers'[entries[p + 1]].size {
      forall i, j | 0 <= i < j < |entries|
        ensures headers'[entries[i]].size <= headers'[entries[j]].size
      {
        assert headers[entries[i]].size <= headers[entries[j]].size;
        if i == p && j > p + 1 {
          assert headers[entries[p + 1]].size <= headers[entries[j]].size;
        }
      }
    }
  }

  function SizeOf(headers: Headers, t: int): nat
  {
    if t in headers then headers[t].size else 0
  }

  /** The size the left neighbour grows to. */
  function GrownTo(headers: Headers, tiles: seq<int>, i: nat): nat
    requires 0 < i < |tiles|
  {
    SizeOf(headers, tiles[i - 1]) + SizeOf(headers, tiles[i])
    + if RightMerges(headers, tiles, i) then SizeOf(headers, tiles[i + 1]) else 0
  }

  /** The left neighbour, grown, is still no larger than the entry behind its own: heap_free does not move it. */
  predicate StaysInPlace(h: Heap, tiles: seq<int>, i: nat)
    requires 0 < i < |tiles|
  {
    var entries := EntriesLeft(h, tiles, i);
    var p := FindEntry(entries, tiles[i - 1], 0);
    p + 1 < |entries| ==> GrownTo(h.headers, tiles, i) <= SizeOf(h.headers, entries[p + 1])
  }

  /** The order survives a free exactly when there is no left merge, or the grown hole is not out of place. */
  lemma OrderHoldsExactlyWhenInPlace(h: Heap, tiles: seq<int>, i: nat)
    requires Linked(h, tiles) && LiveBlock(h, tiles, i) && Sorted(h.headers, h.entries)
    ensures var h' := Free(h, tiles[i] + HEADER);
            Sorted(h'.headers, h'.entries) <==> (LeftMerges(h.headers, tiles, i) ==> StaysInPlace(h, tiles, i))
  {
    hide Free, Sorted, StaysInPlace;
    if LeftMerges(h.headers, tiles, i) {
      OrderAfterLeftMerge(h, tiles, i);
    } else {
      FreeKeepsOrder(h, tiles, i);
    }
  }

  lemma OrderAfterLeftMerge(h: Heap, tiles: seq<int>, i: nat)
    requires Linked(h, tiles) && LiveBlock(h, tiles, i) && Sorted(h.headers, h.entries)
    requires LeftMerges(h.headers, tiles, i)
    ensures var h' := Free(h, tiles[i] + HEADER);
            Sorted(h'.headers, h'.entries) <==> StaysInPlace(h, tiles, i)
  {
    hide Free, Footed, Merged, EntriesLeft;
    FreeIs(h, tiles, i);
    FreeTouches(h, tiles, i);
    FreeKeepsTilesAndIndex(h, tiles, i);
    var h', l := Free(h, tiles[i] + HEADER), tiles[i - 1];
    MergedEntries(h, tiles, i);
    EntriesLeftSorted(h, tiles, i);
    LeftGrows(h, tiles, i);
    assert l == FreedTiles(h.headers, tiles, i)[i - 1];
    assert l in h'.entries;
    var p := FindEntry(h'.entries, l, 0);
    forall k | 0 <= k < |h'.entries|
      ensures h'.entries[k] in h'.headers
      ensures k != p ==> h'.headers[h'.entries[k]].size == h.headers[h'.entries[k]].size
    {
      assert h'.entries[k] in h'.entries && h'.entries[k] in h.entries;
    }
    GrownEntry(h.headers, h'.headers, h'.entries, p);
  }

  lemma LeftGrows(h: Heap, tiles: seq<int>, i: nat)
    requires Linked(h, tiles) && LiveBlock(h, tiles, i) && LeftMerges(h.headers, tiles, i)
    ensures tiles[i - 1] in h.headers && tiles[i - 1] in Free(h, tiles[i] + HEADER).headers
    ensures Free(h, tiles[i] + HEADER).headers[tiles[i - 1]].size == GrownTo(h.headers, tiles, i)
    ensures h.headers[tiles[i - 1]].size <= GrownTo(h.headers, tiles, i)
  {
    hide Free, Footed, Indexed;
    FreeTouches(h, tiles, i);
    assert IsTile(h.headers, h.end, tiles, i - 1) && IsTile(h.headers, h.end, tiles, i) && IsTile(h.headers, h.end, tiles, i + 1);
  }

  /** A well-formed heap whose index is out of order once block 1 is freed: 64 bytes stand before 48. */
  lemma OrderCanBeLost() returns (h: Heap, tiles: seq<int>)
    ensures WellFormed(h, tiles) && NoAdjacentHoles(h.headers, tiles) && LiveBlock(h, tiles, 1)
    ensures Known(h.headers, h.entries)
    ensures !Sorted(Free(h, tiles[1] + HEADER).headers, Free(h, tiles[1] + HEADER).entries)
  {
    tiles := [16, 48, 80, 96, 144];
    h := Heap(
      map[16 := Header(MM_MAGIC, 32, true), 48 := Header(MM_MAGIC, 32, false), 80 := Header(MM_MAGIC, 16, false),
          96 := Header(MM_MAGIC, 48, true), 144 := Header(MM_MAGIC, 16, false)],
      map[40 := Footer(MM_MAGIC, 16), 72 := Footer(MM_MAGIC, 48), 88 := Footer(MM_MAGIC, 80),
          136 := Footer(MM_MAGIC, 96), 152 := Footer(MM_MAGIC, 144)],
      [16, 96], 16, 160);
    assert Tiled(h.headers, h.start, h.end, tiles);
    assert h.entries[0] == 16 && h.entries[1] == 96;
    OrderAfterLeftMerge(h, tiles, 1);
  }

  // ---- Allocate and free again --------------------------------------------

  /** A hole after carving was a hole before, or is the rest. */
  ghost predicate OldOrRest(headers: Headers, headers': Headers, tiles: seq<int>, i: nat, take: nat, t: int)
    requires i < |tiles| && tiles[i] in headers
  {
    IsHole(headers', t) ==>
      (IsHole(headers, t) && t != tiles[i]) || (take != headers[tiles[i]].size && t == tiles[i] + take)
  }

  lemma HolesApartAt(headers: Headers, headers': Headers, start: int, end: int, tiles: seq<int>, i: nat, take: nat, j: nat)
    requires Tiled(headers, start, end, tiles) && i < |tiles| && IsHole(headers, tiles[i]) && NoAdjacentHoles(headers, tiles)
    requires j + 1 < |Carved(headers, tiles, i, take)| && take <= headers[tiles[i]].size
    requires OldOrRest(headers, headers', tiles, i, take, Carved(headers, tiles, i, take)[j])
    requires OldOrRest(headers, headers', tiles, i, take, Carved(headers, tiles, i, take)[j + 1])
    requires take < headers[tiles[i]].size ==> tiles[i] + take !in tiles
    ensures IsHole(headers', Carved(headers, tiles, i, take)[j]) ==> !IsHole(headers', Carved(headers, tiles, i, take)[j + 1])
  {
    RestIsWhere(headers, start, end, tiles, i, take, j);
  }

  lemma CarveKeepsHolesApart(h: Heap, tiles: seq<int>, i: nat, take: nat, entries: seq<int>)
    requires Tiled(h.headers, h.start, h.end, tiles) && CanCarve(h, tiles, i, take) && Known(h.headers, entries)
    requires NoAdjacentHoles(h.headers, tiles)
    ensures NoAdjacentHoles(Carve(h, tiles[i], take, entries).headers, Carved(h.headers, tiles, i, take))
  {
    var headers', tiles' := Carve(h, tiles[i], take, entries).headers, Carved(h.headers, tiles, i, take);
    if take < h.headers[tiles[i]].size {
      RestIsNew(h, tiles, i, take);
    }
    forall t | t in tiles'
      ensures OldOrRest(h.headers, headers', tiles, i, take, t)
    {
      CarveHoles(h, tiles, i, take, entries, t);
    }
    hide Carve, Tiled;
    forall j | 0 <= j < |tiles'| - 1
      ensures IsHole(headers', tiles'[j]) ==> !IsHole(headers', tiles'[j + 1])
    {
      HolesApartAt(h.headers, headers', h.start, h.end, tiles, i, take, j);
    }
  }

  lemma MallocKeepsHolesApart(h: Heap, tiles: seq<int>, size: nat) returns (i: nat)
    requires WellFormed(h, tiles) && HasHole(h, size) && 0 < size && NoAdjacentHoles(h.headers, tiles)
    ensures i < |tiles| && Malloc(h, size).0 == tiles[i] + HEADER && tiles[i] in h.headers
    ensures NoAdjacentHoles(Malloc(h, size).1.headers, Carved(h.headers, tiles, i, Take(h.headers[tiles[i]].size, size)))
  {
    var pos;
    i, pos := HoleOf(h, tiles, size);
    assert Known(h.headers, DelEntry(h.entries, pos));
    CarveKeepsHolesApart(h, tiles, i, Take(h.headers[tiles[i]].size, size), DelEntry(h.entries, pos));
  }

  lemma RestIsWhere(headers: Headers, start: int, end: int, tiles: seq<int>, i: nat, take: nat, j: nat)
    requires Tiled(headers, start, end, tiles) && i < |tiles| && tiles[i] in headers
    requires j + 1 < |Carved(headers, tiles, i, take)|
    ensures var tiles' := Carved(headers, tiles, i, take);
            if take == headers[tiles[i]].size then tiles' == tiles
            else if j < i then tiles'[j] == tiles[j] && tiles'[j + 1] == tiles[j + 1]
            else if j == i then tiles'[j] == tiles[i] && tiles'[j + 1] == tiles[i] + take
            else if j == i + 1 then tiles'[j] == tiles[i] + take && tiles'[j + 1] == tiles[j]
            else tiles'[j] == tiles[j - 1] && tiles'[j + 1] == tiles[j]
  {
  }

  /** After carving, tile i is a live block, and its right neighbour is a hole exactly when some of the hole was left. */
  lemma CarvedBlock(h: Heap, tiles: seq<int>, i: nat, take: nat, entries: seq<int>)
    requires Tiled(h.headers, h.start, h.end, tiles) && CanCarve(h, tiles, i, take) && Known(h.headers, entries)
    requires NoAdjacentHoles(h.headers, tiles) && 0 < h.start && i + 1 < |tiles|
    ensures var h', tiles' := Carve(h, tiles[i], take, entries), Carved(h.headers, tiles, i, take);
            && h'.start == h.start && h'.end == h.end
            && LiveBlock(h', tiles', i) && tiles'[i] == tiles[i]
            && !LeftMerges(h'.headers, tiles', i)
            && (RightMerges(h'.headers, tiles', i) <==> take != h.headers[tiles[i]].size)
            && FreedTiles(h'.headers, tiles', i) == tiles
  {
    var h', tiles' := Carve(h, tiles[i], take, entries), Carved(h.headers, tiles, i, take);
    assert IsTile(h.headers, h.end, tiles, i) && IsTile(h.headers, h.end, tiles, i + 1);
    TilesDiffer(h.headers, h.start, h.end, tiles, i, i + 1);
    CarveOutside(h, tiles, i, take, entries, tiles[i + 1]);
    if i > 0 {
      assert IsTile(h.headers, h.end, tiles, i - 1);
      TilesDiffer(h.headers, h.start, h.end, tiles, i, i - 1);
      CarveOutside(h, tiles, i, take, entries, tiles[i - 1]);
    }
  }

  lemma CarvedNeighbour(headers: Headers, tiles: seq<int>, i: nat, take: nat)
    requires i + 1 < |tiles| && tiles[i] in headers
    ensures var tiles' := Carved(headers, tiles, i, take);
            var cut := if take != headers[tiles[i]].size then 1 else 0;
            i + 1 + cut < |tiles'| && tiles'[i + 1 + cut] == tiles[i + 1]
  {
  }

  lemma FreeUndoesCarve(h: Heap, tiles: seq<int>, i: nat, take: nat, entries: seq<int>, t: int)
    requires WellFormed(h, tiles) && CanCarve(h, tiles, i, take) && Known(h.headers, entries)
    requires NoAdjacentHoles(h.headers, tiles) && 0 < h.start && i + 1 < |tiles|
    requires WellFormed(Carve(h, tiles[i], take, entries), Carved(h.headers, tiles, i, take))
    requires t in tiles
    ensures var h'' := Free(Carve(h, tiles[i], take, entries), tiles[i] + HEADER);
            t in h''.headers && t in h.headers && h''.headers[t] == h.headers[t]
  {
    hide Free, Carve, Footed, Indexed, NoAdjacentHoles;
    var h', tiles' := Carve(h, tiles[i], take, entries), Carved(h.headers, tiles, i, take);
    CarvedBlock(h, tiles, i, take, entries);
    CarvedNeighbour(h.headers, tiles, i, take);
    FreeTouches(h', tiles', i);
    assert IsTile(h.headers, h.end, tiles, i);
    if t != tiles[i] {
      var j :| 0 <= j < |tiles| && tiles[j] == t;
      assert IsTile(h.headers, h.end, tiles, j);
      CarveOutside(h, tiles, i, take, entries, t);
    }
  }

  /** Same tiles, same headers on them, same set of holes. */
  ghost predicate Restored(h: Heap, h'': Heap, tiles: seq<int>)
  {
    && Tiled(h''.headers, h.start, h.end, tiles) && Indexed(h''.headers, h''.entries, tiles)
    && (forall t :: t in tiles ==> t in h''.headers && t in h.headers && h''.headers[t] == h.headers[t])
    && (forall t :: t in h''.entries <==> t in h.entries)
  }

  lemma FreeRestores(h: Heap, tiles: seq<int>, i: nat, take: nat, entries: seq<int>)
    requires WellFormed(h, tiles) && CanCarve(h, tiles, i, take) && Known(h.headers, entries)
    requires NoAdjacentHoles(h.headers, tiles) && 0 < h.start && i + 1 < |tiles|
    requires WellFormed(Carve(h, tiles[i], take, entries), Carved(h.headers, tiles, i, take))
    ensures Restored(h, Free(Carve(h, tiles[i], take, entries), tiles[i] + HEADER), tiles)
  {
    hide Free, Carve, Footed, NoAdjacentHoles, Tiled;
    CarvedBlock(h, tiles, i, take, entries);
    FreeKeepsTilesAndIndex(Carve(h, tiles[i], take, entries), Carved(h.headers, tiles, i, take), i);
    forall t | t in tiles
      ensures var h'' := Free(Carve(h, tiles[i], take, entries), tiles[i] + HEADER);
              t in h''.headers && t in h.headers && h''.headers[t] == h.headers[t]
    {
      FreeUndoesCarve(h, tiles, i, take, entries, t);
    }
  }

  /** Allocating and freeing at once gives back the same blocks and holes, whichever way the hole was split. */
  lemma MallocThenFree(h: Heap, tiles: seq<int>, size: nat) returns (i: nat)
    requires WellFormed(h, tiles) && HasHole(h, size) && 0 < size && NoAdjacentHoles(h.headers, tiles) && 0 < h.start
    ensures i < |tiles| && Malloc(h, size).0 == tiles[i] + HEADER
    ensures i + 1 < |tiles| ==>
              && Known(Malloc(h, size).1.headers, Malloc(h, size).1.entries)
              && Restored(h, Free(Malloc(h, size).1, Malloc(h, size).0), tiles)
  {
    hide Free, Carve, Restored;
    var pos;
    i, pos := HoleOf(h, tiles, size);
    CarveKeeps(h, tiles, i, Take(h.headers[tiles[i]].size, size), pos);
    if i + 1 < |tiles| {
      FreeRestores(h, tiles, i, Take(h.headers[tiles[i]].size, size), DelEntry(h.entries, pos));
    }
  }

  /** Freeing what was just allocated loses a footer whenever the hole taken was not used up. */
  lemma MallocThenFreeLosesAFooter(h: Heap, tiles: seq<int>, size: nat) returns (i: nat)
    requires WellFormed(h, tiles) && HasHole(h, size) && 0 < size && NoAdjacentHoles(h.headers, tiles) && 0 < h.start
    ensures i < |tiles| && tiles[i] in h.headers && Malloc(h, size).0 == tiles[i] + HEADER
    ensures i + 1 < |tiles| ==>
              && Known(Malloc(h, size).1.headers, Malloc(h, size).1.entries)
              && var h'' := Free(Malloc(h, size).1, Malloc(h, size).0);
                 Footed(h''.headers, h''.footers, h.start, tiles) <==> h.headers[tiles[i]].size < size + TAGS + TAGS
  {
    hide Free, Carve, Footed;
    var pos;
    i, pos := HoleOf(h, tiles, size);
    var take := Take(h.headers[tiles[i]].size, size);
    CarveKeeps(h, tiles, i, take, pos);
    if i + 1 < |tiles| {
      CarvedBlock(h, tiles, i, take, DelEntry(h.entries, pos));
      FootersHoldExactlyWithoutRightMerge(Malloc(h, size).1, Carved(h.headers, tiles, i, take), i);
    }
  }
}

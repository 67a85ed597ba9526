/**
  The kernel heap of src/mm/mm.c on values: boundary tags in memory, and an index of the holes ordered by
  size. Blocks and holes are the tiles of [start, end); a ghost sequence of their addresses goes with each
  statement. Sizes stay below 2^31, the width of the size field.
 */
module HeapTags {

  const MM_MAGIC: int := 0x68747552
  const MM_INDEX_COUNT: nat := 0x800
  const HEADER: nat := 8
  const FOOTER: nat := 8
  const TAGS: nat := HEADER + FOOTER

  datatype Header = Header(magic: int, size: nat, hole: bool)
  datatype Footer = Footer(magic: int, header: int)

  type Headers = map<int, Header>
  type Footers = map<int, Footer>

  /** The tags that stand in memory, by address, and the index. Old tags may lie about inside blocks and holes. */
  datatype Heap = Heap(headers: Headers, footers: Footers, entries: seq<int>, start: int, end: int)

  function DelEntry(entries: seq<int>, i: nat): seq<int>
    requires i < |entries|
  {
    entries[..i] + entries[i + 1..]
  }

  function Insert(entries: seq<int>, i: nat, entry: int): seq<int>
    requires i <= |entries|
  {
    entries[..i] + [entry] + entries[i..]
  }

  // ---- Tiles --------------------------------------------------------------

  /** Where the tile after tile i - 1 starts; the heap's end after the last one. */
  function At(tiles: seq<int>, end: int, i: int): int
  {
    if 0 <= i < |tiles| then tiles[i] else end
  }

  ghost predicate IsTile(headers: Headers, end: int, tiles: seq<int>, i: int)
  {
    0 <= i < |tiles| ==>
      && tiles[i] in headers && headers[tiles[i]].magic == MM_MAGIC && TAGS <= headers[tiles[i]].size
      && tiles[i] + headers[tiles[i]].size == At(tiles, end, i + 1)
  }

  /** Blocks and holes cover [start, end) without a gap, in the order of tiles. */
  ghost predicate Tiled(headers: Headers, start: int, end: int, tiles: seq<int>)
  {
    At(tiles, end, 0) == start && forall i :: IsTile(headers, end, tiles, i)
  }

  lemma {:induction false} TilesAscend(headers: Headers, start: int, end: int, tiles: seq<int>, i: int, j: int)
    requires Tiled(headers, start, end, tiles) && 0 <= i < j <= |tiles|
    ensures tiles[i] in headers && tiles[i] + headers[tiles[i]].size <= At(tiles, end, j)
    ensures TAGS <= headers[tiles[i]].size
    decreases j
  {
    assert IsTile(headers, end, tiles, i);
    if i + 1 < j {
      TilesAscend(headers, start, end, tiles, i, j - 1);
      assert IsTile(headers, end, tiles, j - 1);
    }
  }

  /** No byte lies in two tiles. */
  lemma TilesAreDisjoint(headers: Headers, start: int, end: int, tiles: seq<int>, i: int, j: int, a: int)
    requires Tiled(headers, start, end, tiles) && 0 <= i < |tiles| && 0 <= j < |tiles|
    requires tiles[i] in headers && tiles[i] <= a < tiles[i] + headers[tiles[i]].size
    requires tiles[j] in headers && tiles[j] <= a < tiles[j] + headers[tiles[j]].size
    ensures i == j
  {
    if i < j {
      TilesAscend(headers, start, end, tiles, i, j);
    } else if j < i {
      TilesAscend(headers, start, end, tiles, j, i);
    }
  }

  lemma TilesDiffer(headers: Headers, start: int, end: int, tiles: seq<int>, i: int, j: int)
    requires Tiled(headers, start, end, tiles) && 0 <= i < |tiles| && 0 <= j < |tiles| && i != j
    ensures tiles[i] != tiles[j]
  {
    TilesAscend(headers, start, end, tiles, if i < j then i else j, if i < j then j else i);
  }

  /** Tiled looks at the size and the magic number of each tile's header only. */
  lemma SameTiles(headers: Headers, headers': Headers, start: int, end: int, tiles: seq<int>)
    requires Tiled(headers, start, end, tiles)
    requires forall t :: t in headers ==>
      t in headers' && headers'[t].magic == headers[t].magic && headers'[t].size == headers[t].size
    ensures Tiled(headers', start, end, tiles)
  {
    forall j
      ensures IsTile(headers', end, tiles, j)
    {
      assert IsTile(headers, end, tiles, j);
    }
  }

  /** Tile i swallows its right neighbour. */
  lemma JoinTiles(headers: Headers, start: int, end: int, tiles: seq<int>, i: nat, hole: bool)
    requires Tiled(headers, start, end, tiles) && i + 1 < |tiles| && tiles[i] in headers && tiles[i + 1] in headers
    ensures Tiled(headers[tiles[i] := Header(MM_MAGIC, headers[tiles[i]].size + headers[tiles[i + 1]].size, hole)],
                  start, end, DelEntry(tiles, i + 1))
  {
    var headers' := headers[tiles[i] := Header(MM_MAGIC, headers[tiles[i]].size + headers[tiles[i + 1]].size, hole)];
    var tiles' := DelEntry(tiles, i + 1);
    assert IsTile(headers, end, tiles, i) && IsTile(headers, end, tiles, i + 1);
    forall j
      ensures IsTile(headers', end, tiles', j)
    {
      if 0 <= j < i {
        assert IsTile(headers, end, tiles, j);
        TilesDiffer(headers, start, end, tiles, i, j);
      } else if i < j < |tiles'| {
        assert IsTile(headers, end, tiles, j + 1);
        TilesDiffer(headers, start, end, tiles, i, j + 1);
      }
    }
  }

  /** Tile i keeps its first size bytes, and the rest becomes a tile of its own. */
  lemma SplitTiles(headers: Headers, start: int, end: int, tiles: seq<int>, i: nat, size: nat, hole: bool, hole': bool)
    requires Tiled(headers, start, end, tiles) && i < |tiles| && tiles[i] in headers
    requires TAGS <= size <= headers[tiles[i]].size - TAGS
    ensures Tiled(headers[tiles[i] := Header(MM_MAGIC, size, hole)]
                  [tiles[i] + size := Header(MM_MAGIC, headers[tiles[i]].size - size, hole')],
                  start, end, Insert(tiles, i + 1, tiles[i] + size))
  {
    var headers' := headers[tiles[i] := Header(MM_MAGIC, size, hole)]
                           [tiles[i] + size := Header(MM_MAGIC, headers[tiles[i]].size - size, hole')];
    var tiles' := Insert(tiles, i + 1, tiles[i] + size);
    assert IsTile(headers, end, tiles, i);
    forall j
      ensures IsTile(headers', end, tiles', j)
    {
      if 0 <= j < i {
        assert IsTile(headers, end, tiles, j);
        TilesAscend(headers, start, end, tiles, j, i);
      } else if i + 1 < j < |tiles'| {
        assert tiles'[j] == tiles[j - 1];
        assert IsTile(headers, end, tiles, j - 1);
        TilesAscend(headers, start, end, tiles, i, j - 1);
      }
    }
  }

  // ---- Footers ------------------------------------------------------------

  ghost predicate IsFooted(headers: Headers, footers: Footers, t: int)
  {
    && t in headers
    && t + headers[t].size - FOOTER in footers
    && footers[t + headers[t].size - FOOTER] == Footer(MM_MAGIC, t)
  }

  /** Every footer points to its own header, and what lies before the heap does not look like a footer. */
  ghost predicate Footed(headers: Headers, footers: Footers, start: int, tiles: seq<int>)
  {
    && (forall t :: t in tiles ==> IsFooted(headers, footers, t))
    && (start - FOOTER in footers ==> footers[start - FOOTER].magic != MM_MAGIC)
  }

  // ---- The index ----------------------------------------------------------

  ghost predicate Distinct(s: seq<int>)
  {
    forall i, j :: 0 <= i < j < |s| ==> s[i] != s[j]
  }

  predicate IsHole(headers: Headers, t: int)
  {
    t in headers && headers[t].hole
  }

  /** The index is the exact set of holes. */
  ghost predicate Indexed(headers: Headers, entries: seq<int>, tiles: seq<int>)
  {
    Distinct(entries) && forall t :: t in entries <==> t in tiles && IsHole(headers, t)
  }

  ghost predicate Known(headers: Headers, entries: seq<int>)
  {
    forall i :: 0 <= i < |entries| ==> entries[i] in headers
  }

  ghost predicate Sorted(headers: Headers, entries: seq<int>)
  {
    && Known(headers, entries)
    && forall i, j :: 0 <= i < j < |entries| ==> headers[entries[i]].size <= headers[entries[j]].size
  }

  /** The first hole of at least size bytes from entry i on, |entries| when there is none. */
  function FindHole(headers: Headers, entries: seq<int>, size: nat, i: nat): (r: nat)
    requires i <= |entries| && Known(headers, entries)
    ensures i <= r <= |entries|
    ensures forall j :: i <= j < r ==> headers[entries[j]].size < size
    ensures r < |entries| ==> headers[entries[r]].size >= size
    decreases |entries| - i
  {
    if i == |entries| || headers[entries[i]].size >= size then i else FindHole(headers, entries, size, i + 1)
  }

  /** In front of the first hole that is not smaller. */
  function AddEntry(headers: Headers, entries: seq<int>, entry: int): seq<int>
    requires entry in headers && Known(headers, entries)
  {
    Insert(entries, FindHole(headers, entries, headers[entry].size, 0), entry)
  }

  function FindEntry(entries: seq<int>, entry: int, i: nat): (r: nat)
    requires i <= |entries|
    ensures i <= r <= |entries| && forall j :: i <= j < r ==> entries[j] != entry
    ensures r < |entries| ==> entries[r] == entry
    decreases |entries| - i
  {
    if i == |entries| || entries[i] == entry then i else FindEntry(entries, entry, i + 1)
  }

  lemma AddEntryKeepsOrder(headers: Headers, entries: seq<int>, entry: int)
    requires Sorted(headers, entries) && entry in headers
    ensures Sorted(headers, AddEntry(headers, entries, entry))
  {
    var p := FindHole(headers, entries, headers[entry].size, 0);
    var r := AddEntry(headers, entries, entry);
    forall j | 0 <= j < |r|
      ensures r[j] in headers && r[j] == if j < p then entries[j] else if j == p then entry else entries[j - 1]
    {
    }
  }

  lemma InsertSet(entries: seq<int>, i: nat, entry: int)
    requires Distinct(entries) && entry !in entries && i <= |entries|
    ensures Distinct(Insert(entries, i, entry))
    ensures forall e :: e in Insert(entries, i, entry) <==> e in entries || e == entry
  {
    var r := Insert(entries, i, entry);
    forall j | 0 <= j < |r|
      ensures r[j] == if j < i then entries[j] else if j == i then entry else entries[j - 1]
    {
    }
    forall e | e in entries
      ensures e in r
    {
      var k :| 0 <= k < |entries| && entries[k] == e;
      assert r[if k < i then k else k + 1] == e;
    }
    assert r[i] == entry;
  }

  lemma AddEntrySet(headers: Headers, entries: seq<int>, entry: int)
    requires Distinct(entries) && entry !in entries && entry in headers && Known(headers, entries)
    ensures Distinct(AddEntry(headers, entries, entry))
    ensures forall e :: e in AddEntry(headers, entries, entry) <==> e in entries || e == entry
  {
    InsertSet(entries, FindHole(headers, entries, headers[entry].size, 0), entry);
  }

  lemma DelEntryKeepsOrder(headers: Headers, entries: seq<int>, i: nat)
    requires Sorted(headers, entries) && i < |entries|
    ensures Sorted(headers, DelEntry(entries, i))
  {
    var r := DelEntry(entries, i);
    forall j | 0 <= j < |r|
      ensures r[j] in headers && r[j] == if j < i then entries[j] else entries[j + 1]
    {
    }
  }

  lemma DelEntrySet(entries: seq<int>, i: nat)
    requires Distinct(entries) && i < |entries|
    ensures Distinct(DelEntry(entries, i))
    ensures forall e :: e in DelEntry(entries, i) <==> e in entries && e != entries[i]
  {
    var r := DelEntry(entries, i);
    forall e | e in entries && e != entries[i]
      ensures e in r
    {
      var k :| 0 <= k < |entries| && entries[k] == e;
      assert r[if k < i then k else k - 1] == e;
    }
  }

  ghost predicate WellFormed(h: Heap, tiles: seq<int>)
  {
    && Tiled(h.headers, h.start, h.end, tiles)
    && Footed(h.headers, h.footers, h.start, tiles)
    && Indexed(h.headers, h.entries, tiles)
    && Sorted(h.headers, h.entries)
  }

  // ---- Bytes --------------------------------------------------------------

  function OwnBytes(headers: Headers, t: int): nat
  {
    if IsHole(headers, t) then headers[t].size else 0
  }

  /** The bytes that lie in holes. */
  function HoleBytes(headers: Headers, tiles: seq<int>): nat
  {
    if tiles == [] then 0 else OwnBytes(headers, tiles[0]) + HoleBytes(headers, tiles[1..])
  }

  lemma HoleBytesOfFew(headers: Headers, a: int, b: int, c: int)
    ensures HoleBytes(headers, [a]) == OwnBytes(headers, a)
    ensures HoleBytes(headers, [a, b]) == OwnBytes(headers, a) + OwnBytes(headers, b)
    ensures HoleBytes(headers, [a, b, c]) == OwnBytes(headers, a) + OwnBytes(headers, b) + OwnBytes(headers, c)
  {
    forall t
      ensures HoleBytes(headers, [t]) == OwnBytes(headers, t)
    {
      assert [t][1..] == [];
    }
    assert [a, b][1..] == [b] && [a, b, c][1..] == [b, c] && [b, c][1..] == [c];
  }

  lemma {:induction false} HoleBytesAppend(headers: Headers, a: seq<int>, b: seq<int>)
    ensures HoleBytes(headers, a + b) == HoleBytes(headers, a) + HoleBytes(headers, b)
  {
    if a == [] {
      assert a + b == b;
    } else {
      assert (a + b)[1..] == a[1..] + b;
      HoleBytesAppend(headers, a[1..], b);
    }
  }

  lemma {:induction false} HoleBytesSame(headers: Headers, headers': Headers, a: seq<int>)
    requires forall t :: t in a ==> (t in headers <==> t in headers') && (t in headers ==> headers[t] == headers'[t])
    ensures HoleBytes(headers', a) == HoleBytes(headers, a)
  {
    if a != [] {
      assert a[0] in a;
      forall t | t in a[1..]
        ensures t in a
      {
      }
      HoleBytesSame(headers, headers', a[1..]);
    }
  }
}

/** Lines in a flat memory used in a circle (src/drivers/tty/tty.c), and the rows they stand for. */
module ConsoleRing {

  import opened Bytes
  import opened ConsoleGrid

  /** Line l of a memory with lines of width w. */
  function LineAt(mem: seq<Cell>, w: nat, l: nat): seq<Cell>
  {
    if w * l + w <= |mem| then mem[w * l..w * l + w] else []
  }

  lemma LineFits(w: nat, n: nat, l: nat)
    requires l < n
    ensures 0 <= w * l && w * l + w <= w * n
  {
    assert w * n == w * (n - 1) + w;
    if l < n - 1 {
      LineFits(w, n - 1, l);
    }
  }

  lemma LinesApart(w: nat, k: nat, l: nat)
    requires k < l
    ensures w * k + w <= w * l
  {
    LineFits(w, l, k);
  }

  /** Line l was overwritten from column lo up to hi, and nothing else. */
  ghost predicate Filled(mem: seq<Cell>, mem': seq<Cell>, w: nat, l: nat, lo: nat, hi: nat, c: Cell)
  {
    && |mem'| == |mem|
    && forall i :: 0 <= i < |mem| ==> mem'[i] == if w * l + lo <= i < w * l + hi then c else mem[i]
  }

  lemma FilledLines(mem: seq<Cell>, mem': seq<Cell>, w: nat, n: nat, l: nat, lo: nat, hi: nat, c: Cell, k: nat)
    requires Filled(mem, mem', w, l, lo, hi, c) && |mem| == w * n && l < n && k < n && lo <= hi <= w
    ensures LineAt(mem', w, k) == if k == l then FillRow(LineAt(mem, w, l), lo, hi, c) else LineAt(mem, w, k)
  {
    LineFits(w, n, l);
    LineFits(w, n, k);
    if k < l {
      LinesApart(w, k, l);
    } else if l < k {
      LinesApart(w, l, k);
    }
    var line, line' := LineAt(mem, w, k), LineAt(mem', w, k);
    var base := w * k;
    forall i | 0 <= i < w
      ensures line'[i] == if k == l && lo <= i < hi then c else line[i]
    {
      assert line[i] == mem[base + i] && line'[i] == mem'[base + i];
    }
  }

  // ---- The circle ---------------------------------------------------------

  /** The line j lines below the one at the top. */
  function LineNo(top: nat, j: nat, n: nat): nat
  {
    if top + j >= n then top + j - n else top + j
  }

  /** The row that stands j lines below the top: on the screen first, then what scrolled off, oldest first. */
  function Stored(past: seq<Row>, rows: seq<Row>, n: nat, j: nat): Row
  {
    if j < |rows| then rows[j] else if 0 <= |past| - n + j < |past| then past[|past| - n + j] else []
  }

  ghost predicate Shows(mem: seq<Cell>, w: nat, n: nat, top: nat, past: seq<Row>, rows: seq<Row>)
  {
    && |mem| == w * n && top < n && 0 < |rows| <= n && n <= |past| + |rows|
    && forall j :: 0 <= j < n ==> LineAt(mem, w, LineNo(top, j, n)) == Stored(past, rows, n, j)
  }

  lemma FillShows(mem: seq<Cell>, mem': seq<Cell>, w: nat, n: nat, top: nat, past: seq<Row>, rows: seq<Row>, y: nat, lo: nat, hi: nat, c: Cell)
    requires Shows(mem, w, n, top, past, rows) && y < |rows| && lo <= hi <= w
    requires Filled(mem, mem', w, LineNo(top, y, n), lo, hi, c)
    ensures Shows(mem', w, n, top, past, FillPart(rows, y, lo, hi, c))
  {
    var rows' := FillPart(rows, y, lo, hi, c);
    forall j | 0 <= j < n
      ensures LineAt(mem', w, LineNo(top, j, n)) == Stored(past, rows', n, j)
    {
      FilledLines(mem, mem', w, n, LineNo(top, y, n), lo, hi, c, LineNo(top, j, n));
      assert LineAt(mem, w, LineNo(top, j, n)) == Stored(past, rows, n, j);
    }
  }

  /** The top moves down one line, and the line that comes in at the bottom is cleared. */
  lemma ScrollShows(mem: seq<Cell>, mem': seq<Cell>, w: nat, n: nat, top: nat, past: seq<Row>, rows: seq<Row>, a: Attr)
    requires Shows(mem, w, n, top, past, rows)
    requires Filled(mem, mem', w, LineNo(LineNo(top, 1, n), |rows| - 1, n), 0, w, Blank(a))
    ensures Shows(mem', w, n, LineNo(top, 1, n), past + [rows[0]], rows[1..] + [BlankRow(a, w)])
  {
    var top', past', rows' := LineNo(top, 1, n), past + [rows[0]], rows[1..] + [BlankRow(a, w)];
    forall j | 0 <= j < n
      ensures LineAt(mem', w, LineNo(top', j, n)) == Stored(past', rows', n, j)
    {
      var l := LineNo(top', j, n);
      FilledLines(mem, mem', w, n, LineNo(top', |rows| - 1, n), 0, w, Blank(a), l);
      if j == |rows| - 1 {
        LineFits(w, n, l);
        assert LineAt(mem', w, l) == BlankRow(a, w);
      } else {
        var k := if j == n - 1 then 0 else j + 1;
        assert l == LineNo(top, k, n);
        assert LineAt(mem, w, l) == Stored(past, rows, n, k);
      }
    }
  }

  /** The top of a view that has been moved back by k lines. */
  function Back(top: nat, k: nat, n: nat): nat
  {
    if k == 0 || k > n then top else LineNo(top, n - k, n)
  }

  /** A view moved back by k lines shows the last k rows of the past, and the rows above the bottom k. */
  lemma ViewBack(mem: seq<Cell>, w: nat, n: nat, top: nat, past: seq<Row>, rows: seq<Row>, k: nat, j: nat)
    requires Shows(mem, w, n, top, past, rows) && k <= n - |rows| && j < |rows|
    ensures LineAt(mem, w, LineNo(Back(top, k, n), j, n)) == (past + rows)[|past| - k + j]
  {
    var i := if j < k then n - k + j else j - k;
    assert LineNo(Back(top, k, n), j, n) == LineNo(top, i, n);
    assert LineAt(mem, w, LineNo(top, i, n)) == Stored(past, rows, n, i);
  }
}

/** The terminal of src/drivers/tty/tty.c: a circular line memory, a cursor and an escape buffer, changed byte by byte. */
module Console {

  import opened Bytes
  import opened ConsoleGrid
  import opened ConsoleRing
  import opened Decimal

  method ParamOf(s: seq<Byte>) returns (n: nat)
    ensures n == Param(s)
  {
    if s == [] {
      n := 1;
    } else {
      n := AtoiOf(s);
    }
  }

  method FindSeparator(s: seq<Byte>) returns (p: nat)
    ensures p == Separator(s)
  {
    p := 0;
    assert s[0..] == s;
    while p < |s| && s[p] != SEMICOLON
      invariant 0 <= p <= |s| && Separator(s) == p + Separator(s[p..])
    {
      assert s[p..][1..] == s[p + 1..];
      p := p + 1;
    }
  }

  class Tty {
    const width: nat
    const height: nat
    const memlines: nat
    const mem: array<Cell>
    const escapeSeq: array<Byte>
    var viewln: nat
    var scrln: nat
    var x: nat
    var y: nat
    var savedX: nat
    var savedY: nat
    var attr: Attr
    var isEsc: bool
    var escInd: nat
    var cursorShown: bool
    var echo: bool

    /** The rows the memory stands for. */
    ghost var past: seq<Row>
    ghost var rows: seq<Row>

    ghost predicate Valid()
      reads this, mem, escapeSeq
    {
      && Shows(mem[..], width, memlines, scrln, past, rows) && |rows| == height && 0 < width && viewln < memlines
      && escapeSeq.Length == ESCAPE_LEN && (isEsc ==> escInd <= ESCAPE_LEN)
    }

    ghost function AbsEsc(): Esc
      reads this, escapeSeq
    {
      if !isEsc then Idle
      else if escInd == 0 then Started
      else Collecting(if escInd <= escapeSeq.Length then escapeSeq[1..escInd] else [])
    }

    ghost function Abs(): Screen
      reads this, escapeSeq
    {
      Screen(width, height, past, rows, x, y, savedX, savedY, attr, AbsEsc(), cursorShown, echo)
    }

    /** A cleared memory: nothing but zeros, as calloc leaves it. */
    constructor (w: nat, h: nat, lines: nat)
      requires 0 < w <= 120 && 0 < h <= 127 && h <= lines
      ensures Valid() && fresh(mem) && fresh(escapeSeq) && viewln == scrln
      ensures OnScreen(Abs()) && AbsEsc() == Idle && x == 0 && y == 0 && |past| == lines - h
    {
      width, height, memlines := w, h, lines;
      mem := new Cell[w * lines](_ => Cell(Attr(0, 0), 0));
      escapeSeq := new Byte[ESCAPE_LEN];
      viewln, scrln, x, y, savedX, savedY := 0, 0, 0, 0, 0, 0;
      attr, isEsc, escInd, cursorShown, echo := DEFAULT, false, 0, false, false;
      ghost var zeros: Row := seq(w, i => Cell(Attr(0, 0), 0));
      past := seq(lines - h, i => zeros);
      rows := seq(h, i => zeros);
      new;
      ZeroLines(mem[..], w, lines, zeros, past, rows);
    }

    /** TTY_POS of a place on the screen lies inside the memory. */
    method Pos(col: nat, line: nat) returns (p: nat)
      requires Valid() && col < width && line < height
      ensures p == width * LineNo(scrln, line, memlines) + col && p < mem.Length
    {
      LineFits(width, memlines, LineNo(scrln, line, memlines));
      p := width * LineNo(scrln, line, memlines) + col;
    }

    method Memsetw(at: nat, n: nat, c: Cell)
      requires at + n <= mem.Length
      modifies mem
      ensures forall k :: 0 <= k < mem.Length ==> mem[k] == if at <= k < at + n then c else old(mem[k])
    {
      var i := 0;
      while i < n
        invariant 0 <= i <= n
        invariant forall k :: 0 <= k < mem.Length ==> mem[k] == if at <= k < at + i then c else old(mem[k])
      {
        mem[at + i] := c;
        i := i + 1;
      }
    }

    /** Part of a line of the screen. */
    method Fill(line: nat, lo: nat, hi: nat, c: Cell)
      requires Valid() && line < height && lo < width && lo <= hi <= width
      modifies mem, this`rows
      ensures Valid() && rows == FillPart(old(rows), line, lo, hi, c)
    {
      var at := Pos(lo, line);
      ghost var was := mem[..];
      LineFits(width, memlines, LineNo(scrln, line, memlines));
      Memsetw(at, hi - lo, c);
      FillShows(was, mem[..], width, memlines, scrln, past, rows, line, lo, hi, c);
      rows := FillPart(rows, line, lo, hi, c);
    }

    method Put(col: nat, line: nat, c: Cell)
      requires Valid() && col < width && line < height && |rows[line]| == width
      modifies mem, this`rows
      ensures Valid() && rows == SetCell(old(rows), col, line, c)
    {
      var at := Pos(col, line);
      ghost var was := mem[..];
      mem[at] := c;
      FillShows(was, mem[..], width, memlines, scrln, past, rows, line, col, col + 1, c);
      assert FillRow(rows[line], col, col + 1, c) == rows[line][col := c];
      rows := SetCell(rows, col, line, c);
    }

    method FillLines(lo: nat, hi: nat, c: Cell)
      requires Valid() && lo <= hi <= height && (forall j :: 0 <= j < height ==> |rows[j]| == width)
      modifies mem, this`rows
      ensures Valid() && rows == FillRows(old(rows), lo, hi, c)
    {
      ghost var was := rows;
      var m := lo;
      while m < hi
        invariant Valid() && lo <= m <= hi
        invariant rows == FillRows(was, lo, m, c)
      {
        Fill(m, 0, width, c);
        m := m + 1;
        assert rows == FillRows(was, lo, m, c);
      }
      assert rows == FillRows(was, lo, hi, c);
    }

    method EraseIn(page: bool, n: nat)
      requires Valid() && OnScreen(Abs())
      modifies mem, this`rows
      ensures Valid() && rows == Erase(old(Abs()), page, n)
    {
      var c := Blank(attr);
      if n == 0 {
        Fill(y, x, width, c);
        if page {
          FillLines(y + 1, height, c);
        }
      } else if n == 1 {
        Fill(y, 0, x + 1, c);
        if page {
          FillLines(0, y, c);
        }
      } else if n == 2 {
        if page {
          FillLines(0, height, c);
        } else {
          Fill(y, 0, width, c);
        }
      }
    }

    method SelectGraphicRenditions(params: seq<Byte>)
      modifies this`attr
      ensures attr == Renditions(old(attr), params)
    {
      var rest := params;
      var p := FindSeparator(rest);
      while p < |rest|
        invariant p == Separator(rest) && Renditions(attr, rest) == Renditions(old(attr), params)
        decreases |rest|
      {
        var n := AtoiOf(rest[..p]);
        attr := Rendition(attr, n);
        rest := rest[p + 1..];
        p := FindSeparator(rest);
      }
      var n := AtoiOf(rest);
      attr := Rendition(attr, n);
    }

    method MoveCursor(cmd: Byte, params: seq<Byte>)
      requires 0 < width && 0 < height && x < width && y < height
      modifies this`x, this`y
      ensures (x, y) == Motion(old(Abs()), cmd, params)
    {
      var n := ParamOf(params);
      if cmd == 0x41 {
        y := if n >= y then 0 else y - n;
      } else if cmd == 0x42 {
        y := if y + n >= height then height - 1 else y + n;
      } else if cmd == 0x43 {
        x := if x + n >= width then width - 1 else x + n;
      } else if cmd == 0x44 {
        x := if n >= x then 0 else x - n;
      } else if cmd == 0x45 {
        y, x := if y + n >= height then height - 1 else y + n, 0;
      } else if cmd == 0x46 {
        y, x := if n >= y then 0 else y - n, 0;
      } else if cmd == 0x47 {
        if n == 0 {
          n := 1;
        } else if n > width {
          n := width;
        }
        x := n - 1;
      } else if cmd == 0x48 || cmd == 0x66 {
        var m := 1;
        var sep := FindSeparator(params);
        if sep < |params| {
          m := ParamOf(params[sep + 1..]);
          n := ParamOf(params[..sep]);
        }
        n := if n < 1 then 1 else if n > width then width else n;
        m := if m < 1 then 1 else if m > height then height else m;
        x, y := n - 1, m - 1;
      } else if cmd == 0x75 {
        x, y := savedX, savedY;
      }
    }

    method InterpretEscape(cmd: Byte, params: seq<Byte>)
      requires Valid() && OnScreen(Abs())
      modifies this`x, this`y, this`savedX, this`savedY, this`attr, this`cursorShown, this`echo, this`rows, mem
      ensures Valid() && Abs() == Command(old(Abs()), cmd, params)
    {
      hide Shows, Erase, Renditions, Atoi, Param;
      if cmd == 0x4A || cmd == 0x4B {
        var n := 0;
        if params != [] {
          n := AtoiOf(params);
        }
        EraseIn(cmd == 0x4A, n);
      } else if cmd == 0x6D {
        SelectGraphicRenditions(params);
      } else if cmd == 0x73 {
        savedX, savedY := x, y;
      } else if cmd == 0x6C {
        if params == CURSOR_MODE {
          cursorShown := false;
        }
      } else if cmd == 0x68 {
        if params == CURSOR_MODE {
          cursorShown := true;
        }
      } else if cmd == 0x65 {
        var n := ParamOf(params);
        echo := n != 0;
      } else {
        MoveCursor(cmd, params);
      }
    }

    method EscapeByte(c: Byte)
      requires Valid() && OnScreen(Abs()) && isEsc
      modifies this, mem, escapeSeq
      ensures Valid() && Abs() == Escape(old(Abs()), c)
      ensures scrln == old(scrln) && viewln == old(viewln)
    {
      if escInd == 0 {
        if c != 0x5B {
          isEsc := false;
        }
      } else if escInd >= ESCAPE_LEN || !InEscape(c) {
        isEsc := false;
      } else {
        ghost var params := escapeSeq[1..escInd];
        escapeSeq[escInd] := c;
        assert escapeSeq[1..escInd] == params && escapeSeq[1..escInd + 1] == params + [c];
        if EndsEscape(c) {
          isEsc := false;
          InterpretEscape(c, escapeSeq[1..escInd]);
        }
      }
      escInd := escInd + 1;
    }

    method PlainByte(c: Byte)
      requires Valid() && OnScreen(Abs()) && !isEsc
      modifies this, mem, escapeSeq
      ensures Valid() && Abs() == Plain(old(Abs()), c)
      ensures scrln == old(scrln) && viewln == old(viewln)
    {
      hide Shows, SetCell;
      if c == 0 {
      } else if c == 8 {
        if x > 0 {
          x := x - 1;
        }
        Put(x, y, Blank(attr));
      } else if c == 9 {
        x := x + 8 - (x + 8) % 8;
        if x >= width {
          x := width - 1;
        }
      } else if c == 10 {
        x := 0;
        y := y + 1;
      } else if c == 11 || c == 12 {
        y := y + 1;
      } else if c == 13 {
        x := 0;
      } else if c == 27 {
        isEsc := true;
        escInd := 0;
        forall i | 0 <= i < escapeSeq.Length {
          escapeSeq[i] := if i == 0 then 0x5B else 0;
        }
        assert mem[..] == old(mem[..]);
      } else {
        Put(x, y, Cell(attr, c));
        x := x + 1;
      }
    }

    /** The end of a line and the end of the screen. */
    method Settle()
      requires Valid() && AlmostOnScreen(Abs())
      modifies this, mem
      ensures Valid() && Abs() == Scroll(Wrap(old(Abs())))
      ensures viewln == old(viewln) || viewln == scrln
      ensures old(viewln) == old(scrln) ==> viewln == scrln
    {
      if x >= width {
        x := 0;
        y := y + 1;
      }
      if y == height {
        y := y - 1;
        ghost var was, top := mem[..], scrln;
        scrln := scrln + 1;
        if scrln == memlines {
          scrln := 0;
        }
        viewln := scrln;
        ClearLast(was, top);
      }
    }

    /** The line that has just come in below is cleared; the first row is the newest of the past. */
    method ClearLast(ghost was: seq<Cell>, ghost top: nat)
      requires was == mem[..] && Shows(was, width, memlines, top, past, rows) && scrln == LineNo(top, 1, memlines)
      requires |rows| == height && 0 < width && viewln < memlines
      requires escapeSeq.Length == ESCAPE_LEN && (isEsc ==> escInd <= ESCAPE_LEN)
      modifies this`past, this`rows, mem
      ensures Valid() && past == old(past) + [old(rows)[0]] && rows == old(rows)[1..] + [BlankRow(attr, width)]
    {
      ghost var l := LineNo(scrln, height - 1, memlines);
      LineFits(width, memlines, l);
      var at := width * LineNo(scrln, height - 1, memlines);
      Memsetw(at, width, Blank(attr));
      ScrollShows(was, mem[..], width, memlines, top, past, rows, attr);
      past, rows := past + [rows[0]], rows[1..] + [BlankRow(attr, width)];
    }

    method WriteByte(c: Byte)
      requires Valid() && OnScreen(Abs()) && viewln == scrln
      modifies this, mem, escapeSeq
      ensures Valid() && OnScreen(Abs()) && Abs() == Step(old(Abs()), c) && viewln == scrln
    {
      hide Command, Plain, Scroll, Wrap, Shows;
      ghost var s := Abs();
      StepStays(s, c);
      if isEsc {
        EscapeByte(c);
        if s.esc.Collecting? {
          CommandStays(s.(esc := Idle), c, s.esc.params);
        }
      } else {
        PlainByte(c);
        PlainStays(s, c);
      }
      Settle();
    }

    /** Whatever bytes are written, the memory shows what the plain grid shows. */
    method DoTtyWrite(buffer: seq<Byte>)
      requires Valid() && OnScreen(Abs())
      modifies this, mem, escapeSeq
      ensures Valid() && OnScreen(Abs()) && Abs() == Run(old(Abs()), buffer) && viewln == scrln
    {
      hide OnScreen, Step;
      viewln := scrln;
      ghost var s := Abs();
      var i := 0;
      while i < |buffer|
        invariant 0 <= i <= |buffer| && Valid() && OnScreen(Abs()) && viewln == scrln
        invariant Abs() == Run(s, buffer[..i])
      {
        assert buffer[..i + 1][..i] == buffer[..i];
        WriteByte(buffer[i]);
        i := i + 1;
      }
      assert buffer[..i] == buffer;
    }

    /** memcpy out of the line memory. */
    method Copy(video: array<Cell>, to: nat, from: nat, n: nat)
      requires to + n <= video.Length && from + n <= mem.Length && video != mem
      modifies video
      ensures forall k :: 0 <= k < video.Length ==> video[k] == if to <= k < to + n then mem[from + (k - to)] else old(video[k])
    {
      var i := 0;
      while i < n
        invariant 0 <= i <= n
        invariant forall k :: 0 <= k < video.Length ==>
                    video[k] == if to <= k < to + i then mem[from + (k - to)] else old(video[k])
      {
        video[to + i] := mem[from + i];
        i := i + 1;
      }
    }

    method CopyTwo(video: array<Cell>, base: nat, split: nat, rest: nat)
      requires split + rest == video.Length && base + split == mem.Length && rest <= mem.Length && video != mem
      modifies video
      ensures Copied(video[..], mem[..], split, base)
    {
      Copy(video, 0, base, split);
      Copy(video, split, 0, rest);
    }

    method CopyOne(video: array<Cell>, base: nat, split: nat, whole: nat)
      requires whole == video.Length <= split && base + split == mem.Length && video != mem
      modifies video
      ensures Copied(video[..], mem[..], split, base)
    {
      Copy(video, 0, base, whole);
    }

    /** One copy, or two when the view runs over the end of the memory: the lines of the view in order. */
    method PrintTty(video: array<Cell>)
      requires Valid() && video != mem && video.Length == width * height
      modifies video
      ensures forall j :: 0 <= j < height ==> LineAt(video[..], width, j) == LineAt(mem[..], width, LineNo(viewln, j, memlines))
      ensures viewln == scrln && OnScreen(Abs()) ==> forall j :: 0 <= j < height ==> LineAt(video[..], width, j) == rows[j]
    {
      ViewFits(width, height, memlines, viewln);
      var base, split, whole := viewln * width, (memlines - viewln) * width, height * width;
      if memlines - viewln < height {
        CopyTwo(video, base, split, (height - (memlines - viewln)) * width);
      } else {
        CopyOne(video, base, split, whole);
      }
      hide Copied, Shows;
      forall j | 0 <= j < height
        ensures LineAt(video[..], width, j) == LineAt(mem[..], width, LineNo(viewln, j, memlines))
      {
        CopiedLine(video[..], mem[..], width, height, memlines, viewln, j);
      }
      if viewln == scrln && OnScreen(Abs()) {
        TopRows(mem[..], width, memlines, scrln, past, rows);
      }
    }
  }

  lemma TopRows(mem: seq<Cell>, w: nat, n: nat, top: nat, past: seq<Row>, rows: seq<Row>)
    requires Shows(mem, w, n, top, past, rows)
    ensures forall j :: 0 <= j < |rows| ==> LineAt(mem, w, LineNo(top, j, n)) == rows[j]
  {
    forall j | 0 <= j < |rows|
      ensures LineAt(mem, w, LineNo(top, j, n)) == rows[j]
    {
      assert LineAt(mem, w, LineNo(top, j, n)) == Stored(past, rows, n, j);
    }
  }

  /** The first split cells come from base on, the others from the start. */
  ghost predicate Copied(video: seq<Cell>, mem: seq<Cell>, split: nat, base: nat)
  {
    forall k :: 0 <= k < |video| ==>
      if k < split then base + k < |mem| && video[k] == mem[base + k] else k - split < |mem| && video[k] == mem[k - split]
  }

  lemma CopiedLine(video: seq<Cell>, mem: seq<Cell>, w: nat, h: nat, n: nat, view: nat, j: nat)
    requires |video| == w * h && |mem| == w * n && h <= n && view < n && j < h
    requires 0 <= (n - view) * w && 0 <= view * w && Copied(video, mem, (n - view) * w, view * w)
    ensures LineAt(video, w, j) == LineAt(mem, w, LineNo(view, j, n))
  {
    var l := LineNo(view, j, n);
    LineFits(w, h, j);
    LineFits(w, n, l);
    ViewLine(w, h, n, view, j);
    var split, base, lo, from := (n - view) * w, view * w, w * j, w * l;
    assert if view + j < n then from == base + lo && lo + w <= split else from + split == lo;
    var line, line' := LineAt(video, w, j), LineAt(mem, w, l);
    forall i | 0 <= i < w
      ensures line[i] == line'[i]
    {
      assert line[i] == video[lo + i] && line'[i] == mem[from + i];
    }
  }

  lemma ZeroLines(mem: seq<Cell>, w: nat, n: nat, zeros: Row, past: seq<Row>, rows: seq<Row>)
    requires |mem| == w * n && |zeros| == w && 0 < |rows| <= n == |past| + |rows|
    requires (forall i :: 0 <= i < |mem| ==> mem[i] == Cell(Attr(0, 0), 0)) && (forall i :: 0 <= i < w ==> zeros[i] == Cell(Attr(0, 0), 0))
    requires (forall j :: 0 <= j < |past| ==> past[j] == zeros) && (forall j :: 0 <= j < |rows| ==> rows[j] == zeros)
    ensures Shows(mem, w, n, 0, past, rows)
  {
    forall j | 0 <= j < n
      ensures LineAt(mem, w, LineNo(0, j, n)) == Stored(past, rows, n, j)
    {
      LineFits(w, n, j);
      assert LineAt(mem, w, j) == zeros;
    }
  }

  lemma ViewFits(w: nat, h: nat, n: nat, view: nat)
    requires view < n && h <= n
    ensures view * w + (n - view) * w == n * w == w * n && h * w == w * h
    ensures 0 <= view * w && 0 <= (n - view) * w && 0 <= h * w
    ensures n - view < h ==> (n - view) * w + (h - (n - view)) * w == h * w && 0 <= (h - (n - view)) * w <= n * w
    ensures h <= n - view ==> h * w <= (n - view) * w
  {
    if n - view < h {
      assert (h - (n - view)) * w + (n - (h - (n - view))) * w == n * w;
    } else {
      assert view * w + h * w == (view + h) * w;
      assert (view + h) * w + (n - view - h) * w == n * w;
    }
  }

  lemma ViewLine(w: nat, h: nat, n: nat, view: nat, j: nat)
    requires view < n && h <= n && j < h
    ensures view + j < n ==> w * LineNo(view, j, n) == view * w + w * j && w * j + w <= (n - view) * w
    ensures n <= view + j ==> w * LineNo(view, j, n) + (n - view) * w == w * j
    ensures w * j + w <= h * w
  {
    LineFits(w, h, j);
    if view + j < n {
      assert w * (view + j) == view * w + w * j;
      LineFits(w, n - view, j);
    } else {
      assert w * (view + j - n) + (n - view) * w == w * j;
    }
  }
}

/**
  The console as a user sees it: a plain grid of rows, a pile of rows that scrolled off, a cursor, and an
  escape-sequence automaton (ECMA-48 section 5.4). What src/drivers/tty/tty.c must agree with.
 */
module ConsoleGrid {

  import opened Bytes
  import opened Decimal

  const ESCAPE_LEN: nat := 128

  // ---- Cells and colours --------------------------------------------------

  datatype Attr = Attr(bg: bv4, fg: bv4)
  datatype Cell = Cell(attr: Attr, glyph: Byte)
  type Row = seq<Cell>

  const DEFAULT: Attr := Attr(0, 7)

  function AnsiColour(n: nat): bv4
  {
    match n
    case 0 => 0 case 1 => 4 case 2 => 2 case 3 => 6
    case 4 => 1 case 5 => 5 case 6 => 3 case _ => 7
  }

  /**
    Select graphic rendition. The old attribute is kept in one byte as the foreground, so that choosing a
    background adds its bits to the old ones.
   */
  function Rendition(a: Attr, n: nat): Attr
  {
    if n == 0 then DEFAULT
    else if 30 <= n <= 37 then Attr(a.bg, AnsiColour(n - 30))
    else if n == 39 then Attr(a.bg, 7)
    else if 40 <= n <= 47 then Attr(AnsiColour(n - 40) | a.bg, a.fg)
    else if n == 49 then Attr(0 | a.bg, a.fg)
    else if 90 <= n <= 97 then Attr(a.bg, AnsiColour(n - 90) | 8)
    else if n == 99 then Attr(a.bg, 7 | 8)
    else if 100 <= n <= 107 then Attr(AnsiColour(n - 100) | 8 | a.bg, a.fg)
    else if n == 109 then Attr(0 | 8 | a.bg, a.fg)
    else a
  }

  function Blank(a: Attr): Cell
  {
    Cell(a, 0x20)
  }

  // ---- Rows ---------------------------------------------------------------

  function FillRow(row: Row, lo: int, hi: int, c: Cell): (r: Row)
    ensures |r| == |row|
  {
    seq(|row|, i requires 0 <= i < |row| => if lo <= i < hi then c else row[i])
  }

  function BlankRow(a: Attr, width: nat): (r: Row)
    ensures |r| == width
  {
    seq(width, i => Blank(a))
  }

  function SetCell(rows: seq<Row>, x: nat, y: nat, c: Cell): (r: seq<Row>)
    ensures |r| == |rows|
  {
    if y < |rows| && x < |rows[y]| then rows[y := rows[y][x := c]] else rows
  }

  function FillPart(rows: seq<Row>, y: nat, lo: int, hi: int, c: Cell): (r: seq<Row>)
    ensures |r| == |rows|
  {
    if y < |rows| then rows[y := FillRow(rows[y], lo, hi, c)] else rows
  }

  /** Rows lo up to hi are filled from end to end. */
  function FillRows(rows: seq<Row>, lo: int, hi: int, c: Cell): (r: seq<Row>)
    ensures |r| == |rows|
  {
    seq(|rows|, j requires 0 <= j < |rows| => if lo <= j < hi then FillRow(rows[j], 0, |rows[j]|, c) else rows[j])
  }

  // ---- Parameters of an escape sequence -----------------------------------

  predicate EndsEscape(c: Byte)
  {
    0x40 < c < 0x7E
  }

  /** Characters an escape sequence may hold: a final byte, ';', '?' or a digit. */
  predicate InEscape(c: Byte)
  {
    EndsEscape(c) || c == SEMICOLON || c == QUESTION || IsDigit(c)
  }

  const SEMICOLON: Byte := 0x3B
  const QUESTION: Byte := 0x3F

  /** Where the first semicolon stands, |s| when there is none. */
  function Separator(s: seq<Byte>): (r: nat)
    ensures r <= |s| && (r < |s| ==> s[r] == SEMICOLON)
    ensures forall i :: 0 <= i < r ==> s[i] != SEMICOLON
  {
    if s == [] || s[0] == SEMICOLON then 0 else 1 + Separator(s[1..])
  }

  /** Nothing stands for 1. */
  function Param(s: seq<Byte>): nat
  {
    if s == [] then 1 else Atoi(s)
  }

  function Renditions(a: Attr, s: seq<Byte>): Attr
    decreases |s|
  {
    var p := Separator(s);
    if p < |s| then Renditions(Rendition(a, Atoi(s[..p])), s[p + 1..]) else Rendition(a, Atoi(s))
  }

  // ---- The screen ---------------------------------------------------------

  datatype Esc = Idle | Started | Collecting(params: seq<Byte>)

  /** past holds the rows that scrolled off the top, oldest first, however long ago. */
  datatype Screen = Screen(
    width: nat, height: nat, past: seq<Row>, rows: seq<Row>, x: nat, y: nat, savedX: nat, savedY: nat,
    attr: Attr, esc: Esc, cursorShown: bool, echo: bool)

  ghost predicate OnScreen(s: Screen)
  {
    && 0 < s.width <= 120 && 0 < s.height <= 127 && |s.rows| == s.height
    && (forall j :: 0 <= j < s.height ==> |s.rows[j]| == s.width)
    && s.x < s.width && s.y < s.height && s.savedX < s.width && s.savedY < s.height
  }

  /** A one-based parameter as a place on the screen. */
  function Place(n: nat, limit: nat): nat
  {
    if n < 1 || limit == 0 then 0 else if n > limit then limit - 1 else n - 1
  }

  function Less(a: nat, n: nat): nat
  {
    if n >= a then 0 else a - n
  }

  function More(a: nat, n: nat, limit: nat): nat
  {
    if a + n >= limit then if limit == 0 then 0 else limit - 1 else a + n
  }

  /** Erase in page (ECMA-48 section 8.3.39) and in line (8.3.41). */
  function Erase(s: Screen, page: bool, n: nat): seq<Row>
  {
    var c := Blank(s.attr);
    if n == 0 then
      var rows := FillPart(s.rows, s.y, s.x, s.width, c);
      if page then FillRows(rows, s.y + 1, s.height, c) else rows
    else if n == 1 then
      var rows := FillPart(s.rows, s.y, 0, s.x + 1, c);
      if page then FillRows(rows, 0, s.y, c) else rows
    else if n == 2 then
      if page then FillRows(s.rows, 0, s.height, c) else FillPart(s.rows, s.y, 0, s.width, c)
    else s.rows
  }

  /** Where a command leaves the cursor. H and f take the column first. */
  function Motion(s: Screen, cmd: Byte, params: seq<Byte>): (nat, nat)
  {
    var n := Param(params);
    if cmd == 0x41 then (s.x, Less(s.y, n))                      // A
    else if cmd == 0x42 then (s.x, More(s.y, n, s.height))       // B
    else if cmd == 0x43 then (More(s.x, n, s.width), s.y)        // C
    else if cmd == 0x44 then (Less(s.x, n), s.y)                 // D
    else if cmd == 0x45 then (0, More(s.y, n, s.height))         // E
    else if cmd == 0x46 then (0, Less(s.y, n))                   // F
    else if cmd == 0x47 then (Place(n, s.width), s.y)            // G
    else if cmd == 0x48 || cmd == 0x66 then                      // H, f
      var p := Separator(params);
      if p < |params| then (Place(Param(params[..p]), s.width), Place(Param(params[p + 1..]), s.height))
      else (Place(n, s.width), Place(1, s.height))
    else if cmd == 0x75 then (s.savedX, s.savedY)                // u
    else (s.x, s.y)
  }

  const CURSOR_MODE: seq<Byte> := [QUESTION, 0x32, 0x35]

  /** What a command changes besides the cursor. */
  function Effect(s: Screen, cmd: Byte, params: seq<Byte>): Screen
  {
    if cmd == 0x4A || cmd == 0x4B then                                             // J, K
      s.(rows := Erase(s, cmd == 0x4A, if params == [] then 0 else Atoi(params)))
    else if cmd == 0x6D then s.(attr := Renditions(s.attr, params))                // m
    else if cmd == 0x73 then s.(savedX := s.x, savedY := s.y)                      // s
    else if cmd == 0x6C && params == CURSOR_MODE then s.(cursorShown := false)     // l
    else if cmd == 0x68 && params == CURSOR_MODE then s.(cursorShown := true)      // h
    else if cmd == 0x65 then s.(echo := Param(params) != 0)                        // e
    else s
  }

  function Command(s: Screen, cmd: Byte, params: seq<Byte>): Screen
  {
    var (x, y) := Motion(s, cmd, params);
    Effect(s, cmd, params).(x := x, y := y)
  }

  function Escape(s: Screen, c: Byte): Screen
  {
    match s.esc
    case Idle => s
    case Started => if c == 0x5B then s.(esc := Collecting([])) else s.(esc := Idle)
    case Collecting(params) =>
      if |params| + 1 >= ESCAPE_LEN || !InEscape(c) then s.(esc := Idle)
      else if EndsEscape(c) then Command(s.(esc := Idle), c, params)
      else s.(esc := Collecting(params + [c]))
  }

  function Plain(s: Screen, c: Byte): Screen
  {
    if c == 0 then s
    else if c == 8 then
      var x := if s.x > 0 then s.x - 1 else 0;
      s.(x := x, rows := SetCell(s.rows, x, s.y, Blank(s.attr)))
    else if c == 9 then
      var x := s.x + 8 - (s.x + 8) % 8;
      s.(x := if x >= s.width then (if s.width == 0 then 0 else s.width - 1) else x)
    else if c == 10 then s.(x := 0, y := s.y + 1)
    else if c == 11 || c == 12 then s.(y := s.y + 1)
    else if c == 13 then s.(x := 0)
    else if c == 27 then s.(esc := Started)
    else s.(x := s.x + 1, rows := SetCell(s.rows, s.x, s.y, Cell(s.attr, c)))
  }

  /** A full line continues on the next one; below the last line everything moves up. */
  function Scroll(s: Screen): Screen
  {
    if s.y == s.height && |s.rows| > 0 then
      s.(past := s.past + [s.rows[0]], rows := s.rows[1..] + [BlankRow(s.attr, s.width)], y := s.y - (if s.y > 0 then 1 else 0))
    else s
  }

  function Wrap(s: Screen): Screen
  {
    if s.x >= s.width then s.(x := 0, y := s.y + 1) else s
  }

  function Step(s: Screen, c: Byte): Screen
  {
    Scroll(Wrap(if s.esc.Idle? then Plain(s, c) else Escape(s, c)))
  }

  function Run(s: Screen, bytes: seq<Byte>): Screen
    decreases |bytes|
  {
    if bytes == [] then s else Step(Run(s, bytes[..|bytes| - 1]), bytes[|bytes| - 1])
  }

  // ---- What a step keeps --------------------------------------------------

  /** As OnScreen, in the middle of a step: the cursor may stand just behind a line, or just below the last one. */
  ghost predicate AlmostOnScreen(s: Screen)
  {
    && 0 < s.width <= 120 && 0 < s.height <= 127 && |s.rows| == s.height
    && (forall j :: 0 <= j < s.height ==> |s.rows[j]| == s.width)
    && s.x <= s.width && s.y <= s.height && s.savedX < s.width && s.savedY < s.height
    && (s.x == s.width ==> s.y < s.height)
  }

  lemma EraseStays(s: Screen, page: bool, n: nat)
    requires OnScreen(s)
    ensures OnScreen(s.(rows := Erase(s, page, n)))
  {
  }

  lemma MotionStays(s: Screen, cmd: Byte, params: seq<Byte>)
    requires OnScreen(s)
    ensures Motion(s, cmd, params).0 < s.width && Motion(s, cmd, params).1 < s.height
  {
    hide Param, Separator;
  }

  lemma CommandStays(s: Screen, cmd: Byte, params: seq<Byte>)
    requires OnScreen(s)
    ensures OnScreen(Command(s, cmd, params)) && Command(s, cmd, params).past == s.past
  {
    hide Erase, Param, Renditions, Motion;
    EraseStays(s, cmd == 0x4A, if params == [] then 0 else Atoi(params));
    MotionStays(s, cmd, params);
  }

  lemma PlainStays(s: Screen, c: Byte)
    requires OnScreen(s)
    ensures AlmostOnScreen(Plain(s, c)) && Plain(s, c).past == s.past
  {
  }

  lemma SettleStays(s: Screen)
    requires AlmostOnScreen(s)
    ensures OnScreen(Scroll(Wrap(s))) && s.past <= Scroll(Wrap(s)).past && |Scroll(Wrap(s)).past| <= |s.past| + 1
  {
  }

  /** Whatever is written, the cursor stays on the screen, and the screen keeps its shape. */
  lemma {:induction false} RunStays(s: Screen, bytes: seq<Byte>)
    requires OnScreen(s)
    ensures OnScreen(Run(s, bytes)) && s.past <= Run(s, bytes).past
    ensures |Run(s, bytes).past| <= |s.past| + |bytes|
    decreases |bytes|
  {
    if bytes != [] {
      var t := Run(s, bytes[..|bytes| - 1]);
      var c := bytes[|bytes| - 1];
      RunStays(s, bytes[..|bytes| - 1]);
      StepStays(t, c);
    }
  }

  lemma StepStays(s: Screen, c: Byte)
    requires OnScreen(s)
    ensures OnScreen(Step(s, c)) && s.past <= Step(s, c).past && |Step(s, c).past| <= |s.past| + 1
  {
    hide Command, Plain, Scroll, Wrap;
    if s.esc.Idle? {
      PlainStays(s, c);
      SettleStays(Plain(s, c));
    } else {
      if s.esc.Collecting? {
        CommandStays(s.(esc := Idle), c, s.esc.params);
      }
      SettleStays(Escape(s, c));
    }
  }
}

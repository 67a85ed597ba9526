/**
  What bytes do to the screen, cell by cell and in coordinates: erasing, moving the cursor, colours, control
  characters and text (src/drivers/tty/tty.c). Everything is said of Run on the bytes as they are sent.
 */
module ConsoleCommands {

  import opened Bytes
  import opened Decimal
  import opened ConsoleGrid
  import opened ConsoleMeaning

  /** An escape sequence: ESC [ params cmd. */
  function Csi(params: seq<Byte>, cmd: Byte): seq<Byte>
  {
    [ESC, BRACKET] + params + [cmd]
  }

  /** A parameter that may be missing. */
  function Given(params: seq<Byte>, default_: nat): nat
  {
    if params == [] then default_ else Atoi(params)
  }

  /** The nearest place from 0 up to limit. */
  function Clip(v: int, limit: nat): int
  {
    if v < 0 then 0 else if v >= limit then limit - 1 else v
  }

  /** A sequence is one command, which stays on the screen. */
  lemma Sent(s: Screen, params: seq<Byte>, cmd: Byte)
    requires OnScreen(s) && s.esc.Idle? && IsParams(params) && EndsEscape(cmd)
    ensures Run(s, Csi(params, cmd)) == Command(s, cmd, params) && OnScreen(Command(s, cmd, params))
  {
    hide Run, Command, OnScreen;
    SequenceIsOneCommand(s, params, cmd);
    CommandStays(s, cmd, params);
  }

  // ---- Erasing ------------------------------------------------------------

  /** In reading order, place (i, j) is the cursor's or a later one. */
  predicate FromCursor(s: Screen, i: nat, j: nat)
  {
    j > s.y || (j == s.y && i >= s.x)
  }

  predicate UpToCursor(s: Screen, i: nat, j: nat)
  {
    j < s.y || (j == s.y && i <= s.x)
  }

  /** J for the whole screen, K for the cursor's line; 0 from the cursor on, 1 up to the cursor, 2 all of it. */
  predicate Erased(s: Screen, page: bool, n: nat, i: nat, j: nat)
  {
    && (page || j == s.y)
    && ((n == 0 && FromCursor(s, i, j)) || (n == 1 && UpToCursor(s, i, j)) || n == 2)
  }

  /** J and K blank exactly those cells, in the current colours, and change nothing else. */
  lemma EraseBlanks(s: Screen, page: bool, params: seq<Byte>, i: nat, j: nat)
    requires OnScreen(s) && s.esc.Idle? && IsParams(params) && i < s.width && j < s.height
    ensures var t := Run(s, Csi(params, if page then 0x4A else 0x4B));
            && OnScreen(t) && t == s.(rows := t.rows)
            && t.rows[j][i] == if Erased(s, page, Given(params, 0), i, j) then Cell(s.attr, 0x20) else s.rows[j][i]
  {
    hide Run, Atoi, Separator, Renditions, Erase;
    Sent(s, params, if page then 0x4A else 0x4B);
    EraseShows(s, page, Given(params, 0), i, j);
  }

  lemma EraseShows(s: Screen, page: bool, n: nat, i: nat, j: nat)
    requires OnScreen(s) && i < s.width && j < s.height
    ensures |Erase(s, page, n)| == s.height && |Erase(s, page, n)[j]| == s.width
    ensures Erase(s, page, n)[j][i] == if Erased(s, page, n, i, j) then Cell(s.attr, 0x20) else s.rows[j][i]
  {
  }

  /** ESC [ K, spelled out: what stands in front of the cursor stays, the rest of the line goes. */
  lemma EraseToTheEndOfTheLine(s: Screen, i: nat, j: nat)
    requires OnScreen(s) && s.esc.Idle? && i < s.width && j < s.height
    ensures var t := Run(s, [27, 0x5B, 0x4B]);
            OnScreen(t) && t.width == s.width && t.height == s.height && t.rows[j][i] == if j == s.y && i >= s.x then Cell(s.attr, 0x20) else s.rows[j][i]
  {
    hide Run;
    assert Csi([], 0x4B) == [27, 0x5B, 0x4B];
    EraseBlanks(s, false, [], i, j);
  }

  // ---- The cursor ---------------------------------------------------------

  /** Where A to G leave the cursor, in coordinates. */
  function LineAfter(s: Screen, cmd: Byte, n: int): int
  {
    if cmd == 0x41 || cmd == 0x46 then Clip(s.y - n, s.height)
    else if cmd == 0x42 || cmd == 0x45 then Clip(s.y + n, s.height)
    else s.y
  }

  function ColumnAfter(s: Screen, cmd: Byte, n: int): int
  {
    if cmd == 0x43 then Clip(s.x + n, s.width)
    else if cmd == 0x44 then Clip(s.x - n, s.width)
    else if cmd == 0x45 || cmd == 0x46 then 0
    else if cmd == 0x47 then Clip(n - 1, s.width)
    else s.x
  }

  lemma MotionIs(s: Screen, params: seq<Byte>, cmd: Byte)
    requires s.x < s.width && s.y < s.height && 0x41 <= cmd <= 0x47
    ensures Motion(s, cmd, params) == (ColumnAfter(s, cmd, Given(params, 1)), LineAfter(s, cmd, Given(params, 1)))
  {
    hide Atoi, Separator;
  }

  /** A to G: up, down, right, left, down and up to the start of a line, to a column; never off the screen. */
  lemma CursorMoves(s: Screen, params: seq<Byte>, cmd: Byte)
    requires OnScreen(s) && s.esc.Idle? && IsParams(params) && 0x41 <= cmd <= 0x47
    ensures var t := Run(s, Csi(params, cmd));
            t == s.(x := t.x, y := t.y) && t.x == ColumnAfter(s, cmd, Given(params, 1)) && t.y == LineAfter(s, cmd, Given(params, 1))
  {
    hide Run, Csi, Motion, Atoi, Renditions, Erase, Given, ColumnAfter, LineAfter;
    Sent(s, params, cmd);
    MotionIs(s, params, cmd);
  }

  lemma FirstSemicolon(a: seq<Byte>, b: seq<Byte>)
    requires SEMICOLON !in a
    ensures Separator(a) == |a| && Separator(a + [SEMICOLON] + b) == |a|
    ensures (a + [SEMICOLON] + b)[..|a|] == a && (a + [SEMICOLON] + b)[|a| + 1..] == b
  {
    var t := a + [SEMICOLON] + b;
    assert t[|a|] == SEMICOLON && forall i :: 0 <= i < |a| ==> t[i] == a[i] && a[i] in a;
  }

  /** H and f take the column, then the line, both counted from 1. */
  lemma CursorGoes(s: Screen, column: seq<Byte>, line: seq<Byte>, cmd: Byte)
    requires OnScreen(s) && s.esc.Idle? && SEMICOLON !in column && (cmd == 0x48 || cmd == 0x66)
    requires IsParams(column + [SEMICOLON] + line)
    ensures Run(s, Csi(column + [SEMICOLON] + line, cmd)) ==
      s.(x := Clip(Given(column, 1) - 1, s.width), y := Clip(Given(line, 1) - 1, s.height))
  {
    var params := column + [SEMICOLON] + line;
    hide Run, Atoi, Separator, Renditions, Erase;
    Sent(s, params, cmd);
    FirstSemicolon(column, line);
  }

  lemma CursorGoesToTheTop(s: Screen, column: seq<Byte>, cmd: Byte)
    requires OnScreen(s) && s.esc.Idle? && SEMICOLON !in column && (cmd == 0x48 || cmd == 0x66) && IsParams(column)
    ensures Run(s, Csi(column, cmd)) == s.(x := Clip(Given(column, 1) - 1, s.width), y := 0)
  {
    hide Run, Atoi, Separator, Renditions, Erase;
    Sent(s, column, cmd);
    FirstSemicolon(column, []);
  }

  /** u brings the cursor back to where s was sent, whatever was written in between, unless the place was saved anew. */
  lemma CursorComesBack(s: Screen, between: seq<Byte>)
    requires OnScreen(s) && s.esc.Idle?
    requires var t := Run(s, Csi([], 0x73) + between); t.esc.Idle? && t.savedX == s.x && t.savedY == s.y
    ensures var t := Run(s, Csi([], 0x73) + between);
            Run(s, Csi([], 0x73) + between + Csi([], 0x75)) == t.(x := s.x, y := s.y)
    ensures Run(s, Csi([], 0x73)) == s.(savedX := s.x, savedY := s.y)
  {
    hide Run, Csi, Atoi, Separator, Renditions, Erase, OnScreen;
    Sent(s, [], 0x73);
    RunStays(s, Csi([], 0x73) + between);
    var t := Run(s, Csi([], 0x73) + between);
    Sent(t, [], 0x75);
    RunAppend(s, Csi([], 0x73) + between, Csi([], 0x75));
  }

  // ---- Colours ------------------------------------------------------------

  /** Red, green and blue are bits 0, 1 and 2 of an ANSI colour, and bits 2, 1 and 0 of a VGA colour. */
  function Vga(n: nat): bv4
    requires n < 8
  {
    (if n % 2 == 1 then 4 else 0) | (if n / 2 % 2 == 1 then 2 else 0) | (if n / 4 == 1 then 1 else 0)
  }

  /** The last digit of a colour's number: 0 to 7, or 9 for the default one. */
  function ColourOr(n: nat, default_: bv4): bv4
  {
    if n < 8 then Vga(n) else default_
  }

  /**
    One rendition: 3x and 9x set the foreground, 9x bright; 4x and 10x add their bits to the background, 10x
    bright; 0 goes back to light grey on black; anything else does nothing.
   */
  lemma RenditionColours(s: Screen, params: seq<Byte>)
    requires OnScreen(s) && s.esc.Idle? && IsParams(params) && SEMICOLON !in params
    ensures var (t, n) := (Run(s, Csi(params, 0x6D)), Atoi(params));
            var (tens, digit) := (n / 10, n % 10);
            && t == s.(attr := t.attr)
            && t.attr == (if n == 0 then Attr(0, 7)
                          else if digit == 8 || tens !in {3, 4, 9, 10} then s.attr
                          else if tens == 3 then Attr(s.attr.bg, ColourOr(digit, 7))
                          else if tens == 9 then Attr(s.attr.bg, ColourOr(digit, 7) | 8)
                          else if tens == 4 then Attr(ColourOr(digit, 0) | s.attr.bg, s.attr.fg)
                          else Attr(ColourOr(digit, 0) | 8 | s.attr.bg, s.attr.fg))
  {
    hide Run, Separator, Erase, Atoi, Renditions, OnScreen, Rendition, Param;
    Sent(s, params, 0x6D);
    FirstSemicolon(params, []);
    OneRendition(s.attr, params);
    RenditionIs(s.attr, Atoi(params));
  }

  lemma RenditionIs(a: Attr, n: nat)
    ensures var (tens, digit) := (n / 10, n % 10);
            Rendition(a, n) == (if n == 0 then Attr(0, 7)
                                else if digit == 8 || tens !in {3, 4, 9, 10} then a
                                else if tens == 3 then Attr(a.bg, ColourOr(digit, 7))
                                else if tens == 9 then Attr(a.bg, ColourOr(digit, 7) | 8)
                                else if tens == 4 then Attr(ColourOr(digit, 0) | a.bg, a.fg)
                                else Attr(ColourOr(digit, 0) | 8 | a.bg, a.fg))
  {
    hide AnsiColour, Vga;
    SmallColours();
    assert n == 10 * (n / 10) + n % 10;
  }

  lemma OneRendition(a: Attr, params: seq<Byte>)
    requires Separator(params) == |params|
    ensures Renditions(a, params) == Rendition(a, Atoi(params))
  {
  }

  lemma SmallColours()
    ensures forall n: nat :: n < 8 ==> AnsiColour(n) == Vga(n)
  {
    forall n: nat | n < 8
      ensures AnsiColour(n) == Vga(n)
    {
      if n < 4 {
        assert n == 0 || n == 1 || n == 2 || n == 3;
      } else {
        assert n == 4 || n == 5 || n == 6 || n == 7;
      }
    }
  }

  lemma ParamsInParts(a: seq<Byte>, b: seq<Byte>)
    requires IsParams(a + [SEMICOLON] + b)
    ensures IsParams(a) && IsParams(b)
  {
    var params := a + [SEMICOLON] + b;
    assert forall i :: 0 <= i < |a| ==> params[i] == a[i];
    assert forall i :: 0 <= i < |b| ==> params[|a| + 1 + i] == b[i];
  }

  lemma ColoursOnly(s: Screen, params: seq<Byte>)
    requires OnScreen(s) && s.esc.Idle? && IsParams(params)
    ensures Run(s, Csi(params, 0x6D)) == s.(attr := Renditions(s.attr, params))
    ensures OnScreen(s.(attr := Renditions(s.attr, params)))
  {
    hide Run, Csi, Separator, Erase, Atoi, Renditions, Param, IsParams;
    Sent(s, params, 0x6D);
  }

  /** A list of renditions is one after the other. */
  lemma RenditionsInOrder(s: Screen, a: seq<Byte>, b: seq<Byte>)
    requires OnScreen(s) && s.esc.Idle? && SEMICOLON !in a && IsParams(a + [SEMICOLON] + b)
    ensures Run(s, Csi(a + [SEMICOLON] + b, 0x6D)) == Run(Run(s, Csi(a, 0x6D)), Csi(b, 0x6D))
  {
    hide Run, Csi, Separator, OnScreen, IsParams;
    var params := a + [SEMICOLON] + b;
    FirstSemicolon(a, b);
    OneRendition(s.attr, a);
    assert Renditions(s.attr, params) == Renditions(Rendition(s.attr, Atoi(a)), b);
    ParamsInParts(a, b);
    ColoursOnly(s, params);
    ColoursOnly(s, a);
    ColoursOnly(s.(attr := Renditions(s.attr, a)), b);
  }

  // ---- Modes, and what is not implemented ---------------------------------

  lemma CursorModeIsParams()
    ensures IsParams([QUESTION, 0x32, 0x35])
  {
  }

  /** ?25h and ?25l show and hide the cursor, e turns the echo on and off. */
  lemma CursorIsShown(s: Screen, shown: bool)
    requires OnScreen(s) && s.esc.Idle?
    ensures Run(s, Csi([QUESTION, 0x32, 0x35], if shown then 0x68 else 0x6C)) == s.(cursorShown := shown)
  {
    hide Run, Csi, Separator, Erase, Param, Atoi, OnScreen, Renditions, IsParams;
    CursorModeIsParams();
    Sent(s, [QUESTION, 0x32, 0x35], if shown then 0x68 else 0x6C);
  }

  lemma EchoIsSet(s: Screen, params: seq<Byte>)
    requires OnScreen(s) && s.esc.Idle? && IsParams(params)
    ensures Run(s, Csi(params, 0x65)) == s.(echo := Given(params, 1) != 0)
  {
    hide Run, Separator, Erase, Atoi, OnScreen;
    Sent(s, params, 0x65);
  }

  /** Any other final byte is taken in and does nothing. */
  lemma OtherCommandsDoNothing(s: Screen, params: seq<Byte>, cmd: Byte)
    requires OnScreen(s) && s.esc.Idle? && IsParams(params) && EndsEscape(cmd)
    requires !(0x41 <= cmd <= 0x48) && cmd !in {0x4A, 0x4B, 0x65, 0x66, 0x68, 0x6C, 0x6D, 0x73, 0x75}
    ensures Run(s, Csi(params, cmd)) == s
  {
    hide Run, Separator, Erase, Param, OnScreen;
    Sent(s, params, cmd);
  }

  /** An escape that is no sequence swallows the byte behind it, and a byte out of place ends a sequence without effect. */
  lemma BrokenSequencesDoNothing(s: Screen, params: seq<Byte>, c: Byte)
    requires OnScreen(s) && s.esc.Idle? && IsParams(params)
    ensures c != BRACKET ==> Run(s, [ESC, c]) == s
    ensures !InEscape(c) ==> Run(s, [ESC, BRACKET] + params + [c]) == s
  {
    Collects(s, params);
    RunLast(s, [ESC, BRACKET] + params, c);
    StartStep(s);
    RunNothing(s);
    RunLast(s, [], ESC);
    RunLast(s, [ESC], c);
    assert [] + [ESC] == [ESC] && [ESC] + [c] == [ESC, c];
    assert s.(esc := Started).(esc := Idle) == s && s.(esc := Collecting(params)).(esc := Idle) == s;
    hide Run, Command, Plain;
  }

  // ---- Control characters and text ----------------------------------------

  /** One line down in column x; on the last line everything moves up instead. */
  function Down(s: Screen, x: nat): Screen
    requires |s.rows| > 0
  {
    if s.y + 1 < s.height then s.(x := x, y := s.y + 1)
    else s.(x := x, past := s.past + [s.rows[0]], rows := s.rows[1..] + [seq(s.width, _ => Cell(s.attr, 0x20))])
  }

  lemma OneByte(s: Screen, c: Byte)
    ensures Run(s, [c]) == Step(s, c)
  {
    RunNothing(s);
    RunLast(s, [], c);
    assert [] + [c] == [c];
  }

  lemma SettlesBelow(s: Screen, x: nat)
    requires OnScreen(s) && x < s.width
    ensures Scroll(Wrap(s.(x := x, y := s.y + 1))) == Down(s, x)
  {
    assert BlankRow(s.attr, s.width) == seq(s.width, _ => Cell(s.attr, 0x20));
  }

  lemma SettlesHere(s: Screen)
    requires OnScreen(s)
    ensures Scroll(Wrap(s)) == s
  {
  }

  /** What one byte leads to when no escape is under way. */
  lemma OnePlainByte(s: Screen, c: Byte)
    requires s.esc.Idle?
    ensures Run(s, [c]) == Scroll(Wrap(Plain(s, c)))
  {
    hide Run, Scroll, Wrap, Plain;
    OneByte(s, c);
  }

  /** Line feed goes to the start of the next line, vertical tab and form feed straight down; the last line scrolls. */
  lemma LinesGoDown(s: Screen)
    requires OnScreen(s) && s.esc.Idle?
    ensures Run(s, [10]) == Down(s, 0) && Run(s, [11]) == Run(s, [12]) == Down(s, s.x)
  {
    hide Run, Scroll, Wrap, Down, SetCell;
    OnePlainByte(s, 10);
    OnePlainByte(s, 11);
    OnePlainByte(s, 12);
    SettlesBelow(s, 0);
    SettlesBelow(s, s.x);
  }

  /** Carriage return goes to the start of the line; NUL does nothing. */
  lemma ReturnsGoBack(s: Screen)
    requires OnScreen(s) && s.esc.Idle?
    ensures Run(s, [13]) == s.(x := 0) && Run(s, [0]) == s
  {
    hide Run, Scroll, Wrap, SetCell;
    OnePlainByte(s, 13);
    OnePlainByte(s, 0);
    SettlesHere(s);
    SettlesHere(s.(x := 0));
  }

  lemma NextStop(x: nat, width: nat)
    requires x < width
    ensures var stop := x + 8 - (x + 8) % 8;
            stop % 8 == 0 && x < stop <= x + 8 && (stop < width <==> exists k: nat :: x < 8 * k < width)
  {
    assert x + 8 - (x + 8) % 8 == 8 * (x / 8 + 1);
  }

  /** A tab goes to the next column that is a multiple of 8, or to the last one. */
  lemma TabsStop(s: Screen)
    requires OnScreen(s) && s.esc.Idle?
    ensures var t := Run(s, [9]);
            && t == s.(x := t.x)
            && if exists k: nat :: s.x < 8 * k < s.width then t.x % 8 == 0 && s.x < t.x <= s.x + 8 else t.x == s.width - 1
  {
    hide Run;
    OneByte(s, 9);
    NextStop(s.x, s.width);
  }

  /** Backspace goes one column back and blanks the cell there. */
  lemma BackspaceBlanks(s: Screen, i: nat, j: nat)
    requires OnScreen(s) && s.esc.Idle? && i < s.width && j < s.height
    ensures var t := Run(s, [8]);
            && OnScreen(t) && t == s.(x := Clip(s.x - 1, s.width), rows := t.rows)
            && t.rows[j][i] == if j == s.y && i == t.x then Cell(s.attr, 0x20) else s.rows[j][i]
  {
    hide Run;
    OneByte(s, 8);
  }

  /** Any other byte stands at the cursor in the current colours; behind the last column the next line begins. */
  lemma TextAdvances(s: Screen, c: Byte)
    requires OnScreen(s) && s.esc.Idle? && IsText(c)
    ensures var t := s.(rows := s.rows[s.y := s.rows[s.y][s.x := Cell(s.attr, c)]]);
            Run(s, [c]) == if s.x + 1 < s.width then t.(x := s.x + 1) else Down(t, 0)
  {
    hide Run;
    OneByte(s, c);
    assert BlankRow(s.attr, s.width) == seq(s.width, _ => Cell(s.attr, 0x20));
  }
}

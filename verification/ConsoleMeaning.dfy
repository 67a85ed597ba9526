/** What streams of bytes mean on the console: text, and whole escape sequences. */
module ConsoleMeaning {

  import opened Bytes
  import opened ConsoleGrid

  /** Two writes one after the other are one write. */
  lemma {:induction false} RunAppend(s: Screen, a: seq<Byte>, b: seq<Byte>)
    ensures Run(s, a + b) == Run(Run(s, a), b)
    decreases |b|
  {
    hide Step;
    if b == [] {
      assert a + b == a;
    } else {
      var n := |a| + |b| - 1;
      assert (a + b)[..n] == a + b[..|b| - 1] && (a + b)[n] == b[|b| - 1];
      RunAppend(s, a, b[..|b| - 1]);
    }
  }

  ghost predicate IsParams(params: seq<Byte>)
  {
    |params| < ESCAPE_LEN - 1 && forall i :: 0 <= i < |params| ==> InEscape(params[i]) && !EndsEscape(params[i])
  }

  const ESC: Byte := 27
  const BRACKET: Byte := 0x5B

  lemma RunLast(s: Screen, a: seq<Byte>, c: Byte)
    ensures Run(s, a + [c]) == Step(Run(s, a), c)
  {
    hide Step;
    assert (a + [c])[..|a|] == a;
  }

  lemma CollectStep(s: Screen, params: seq<Byte>, c: Byte)
    requires OnScreen(s) && |params| + 1 < ESCAPE_LEN && InEscape(c) && !EndsEscape(c)
    ensures Step(s.(esc := Collecting(params)), c) == s.(esc := Collecting(params + [c]))
  {
  }

  lemma StartStep(s: Screen)
    requires OnScreen(s) && s.esc.Idle?
    ensures Step(s, ESC) == s.(esc := Started) && Step(s.(esc := Started), BRACKET) == s.(esc := Collecting([]))
  {
  }

  lemma CollectStart(s: Screen)
    requires OnScreen(s) && s.esc.Idle?
    ensures Run(s, [ESC, BRACKET]) == s.(esc := Collecting([]))
  {
    hide Step, OnScreen;
    StartStep(s);
    RunNothing(s);
    RunLast(s, [], ESC);
    RunLast(s, [ESC], BRACKET);
    assert [] + [ESC] == [ESC] && [ESC] + [BRACKET] == [ESC, BRACKET];
  }

  lemma {:induction false} Collects(s: Screen, params: seq<Byte>)
    requires OnScreen(s) && s.esc.Idle? && IsParams(params)
    ensures Run(s, [ESC, BRACKET] + params) == s.(esc := Collecting(params))
    decreases |params|
  {
    hide Step, Run, OnScreen;
    if params == [] {
      CollectStart(s);
      assert [ESC, BRACKET] + params == [ESC, BRACKET];
    } else {
      var n := |params| - 1;
      Collects(s, params[..n]);
      RunLast(s, [ESC, BRACKET] + params[..n], params[n]);
      CollectStep(s, params[..n], params[n]);
      assert params[..n] + [params[n]] == params;
      assert [ESC, BRACKET] + params[..n] + [params[n]] == [ESC, BRACKET] + params;
    }
  }

  /** An escape sequence that arrives whole, in however many writes, is one command on the screen and leaves no trace. */
  lemma SequenceIsOneCommand(s: Screen, params: seq<Byte>, cmd: Byte)
    requires OnScreen(s) && s.esc.Idle? && IsParams(params) && EndsEscape(cmd)
    ensures Run(s, [ESC, BRACKET] + params + [cmd]) == Command(s, cmd, params)
  {
    Collects(s, params);
    RunLast(s, [ESC, BRACKET] + params, cmd);
    assert s.(esc := Collecting(params)).(esc := Idle) == s;
    CommandStays(s, cmd, params);
    hide Command;
  }

  /** Written as a cell of its own, without moving the cursor in any special way. */
  predicate IsText(c: Byte)
  {
    c != 0 && !(8 <= c <= 13) && c != ESC
  }

  function TextRow(row: Row, x: nat, a: Attr, text: seq<Byte>): (r: Row)
    ensures |r| == |row|
  {
    seq(|row|, i requires 0 <= i < |row| => if x <= i < x + |text| then Cell(a, text[i - x]) else row[i])
  }

  /** Text that fits in front of the end of the line stands where the cursor was; nothing else changes. */
  lemma {:induction false} TextStands(s: Screen, text: seq<Byte>)
    requires OnScreen(s) && s.esc.Idle? && s.x + |text| < s.width
    requires forall i :: 0 <= i < |text| ==> IsText(text[i])
    ensures Run(s, text) == s.(x := s.x + |text|, rows := s.rows[s.y := TextRow(s.rows[s.y], s.x, s.attr, text)])
    decreases |text|
  {
    hide Run, Step;
    if text == [] {
      assert TextRow(s.rows[s.y], s.x, s.attr, text) == s.rows[s.y];
      RunNothing(s);
    } else {
      var n := |text| - 1;
      var row := TextRow(s.rows[s.y], s.x, s.attr, text[..n]);
      TextStands(s, text[..n]);
      RunLast(s, text[..n], text[n]);
      assert text[..n] + [text[n]] == text;
      TextStep(s.(x := s.x + n, rows := s.rows[s.y := row]), text[n]);
      assert TextRow(s.rows[s.y], s.x, s.attr, text) == row[s.x + n := Cell(s.attr, text[n])];
    }
  }

  lemma RunNothing(s: Screen)
    ensures Run(s, []) == s
  {
  }

  lemma TextStep(s: Screen, c: Byte)
    requires OnScreen(s) && s.esc.Idle? && s.x + 1 < s.width && IsText(c)
    ensures Step(s, c) == s.(x := s.x + 1, rows := s.rows[s.y := s.rows[s.y][s.x := Cell(s.attr, c)]])
  {
  }
}

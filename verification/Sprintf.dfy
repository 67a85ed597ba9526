/** vsprintf (src/lib/vsprintf.c): directives with flags, width, precision and qualifier, for integers, characters and strings. */
module Sprintf {

  import opened Bytes
  import opened Options
  import opened Decimal
  import opened Numbers
  import opened NumbersReadBack

  const PERCENT: Byte := 0x25
  const HASH: Byte := 0x23
  const POINT: Byte := 0x2E
  const STAR: Byte := 0x2A

  /**
    width and precision are -1 when they are not given; conv is 0 at the end of the format. starred says that a
    width or precision was asked for as an argument.
   */
  datatype Directive = Directive(flags: Flags, width: int, precision: int, conv: Byte, starred: bool)

  /** What is on the stack for a directive: a word, or a pointer to a string, which may be null. */
  datatype Arg = Word(word: nat) | Str(str: Option<Text>)

  const NO_FLAGS: Flags := Flags(false, false, false, false, false, false, false)

  // ---- Reading a directive ------------------------------------------------

  predicate IsFlag(c: Byte)
  {
    c == MINUS || c == PLUS || c == SPACE || c == HASH || c == ZERO
  }

  function SetFlag(f: Flags, c: Byte): Flags
  {
    if c == MINUS then f.(left := true)
    else if c == PLUS then f.(plus := true)
    else if c == SPACE then f.(space := true)
    else if c == HASH then f.(special := true)
    else if c == ZERO then f.(zeropad := true)
    else f
  }

  function ParseFlags(s: Text, f: Flags): (Flags, Text)
  {
    if s != [] && IsFlag(s[0]) then ParseFlags(s[1..], SetFlag(f, s[0])) else (f, s)
  }

  /** skip_atoi */
  function SkipAtoi(s: Text, n: nat): (nat, Text)
    decreases |s|
  {
    if s != [] && IsDigit(s[0]) then SkipAtoi(s[1..], n * 10 + (s[0] - 0x30)) else (n, s)
  }

  predicate StartsDigit(s: Text)
  {
    s != [] && IsDigit(s[0])
  }

  predicate IsQualifier(c: Byte)
  {
    c == 0x68 || c == 0x6C || c == 0x4C
  }

  function ParseWidth(s: Text): (int, Text)
  {
    if StartsDigit(s) then SkipAtoi(s, 0) else (-1, s)
  }

  /** A point with nothing behind it asks for no digits at all. */
  function ParsePrecision(s: Text): (int, Text)
  {
    if s == [] || s[0] != POINT then (-1, s)
    else if StartsDigit(s[1..]) then SkipAtoi(s[1..], 0)
    else (0, s[1..])
  }

  predicate AtStar(s: Text)
  {
    s != [] && s[0] == STAR
  }

  /**
    What stands behind a percent sign, and what is left from the conversion character on. A star takes an
    argument, but the format stays where it is: the star is then the conversion character.
   */
  function Parse(s: Text): (Directive, Text)
  {
    var (f, s1) := ParseFlags(s, NO_FLAGS);
    var (width, s2) := ParseWidth(s1);
    var (precision, s3) := ParsePrecision(s2);
    var s4 := if s3 != [] && IsQualifier(s3[0]) then s3[1..] else s3;
    var starred := AtStar(s1) || (s2 != [] && s2[0] == POINT && AtStar(s2[1..]));
    (Directive(f, width, precision, if s4 == [] then 0 else s4[0], starred), s4)
  }

  // ---- Carrying it out ----------------------------------------------------

  predicate IsInteger(conv: Byte)
  {
    conv == 0x6F || conv == 0x70 || conv == 0x78 || conv == 0x58 || conv == 0x64 || conv == 0x69 || conv == 0x75
  }

  const CHAR: Byte := 0x63
  const STRING: Byte := 0x73
  const COUNT: Byte := 0x6E

  function BaseOf(conv: Byte): (r: nat)
    ensures 2 <= r <= 36
  {
    if conv == 0x6F then 8 else if conv == 0x70 || conv == 0x78 || conv == 0x58 then 16 else 10
  }

  /** A pointer without a width gets eight digits; x has small letters; d and i are signed. */
  function Adjusted(d: Directive): Directive
  {
    if d.conv == 0x70 && d.width == -1 then d.(width := 8, flags := d.flags.(zeropad := true))
    else if d.conv == 0x78 then d.(flags := d.flags.(small := true))
    else if d.conv == 0x64 || d.conv == 0x69 then d.(flags := d.flags.(sign := true))
    else d
  }

  function Converted(d: Directive, word: nat): Text
    requires word < WORD_LIMIT
  {
    var a := Adjusted(d);
    Formatted(AsSigned(word), BaseOf(d.conv), a.width, a.precision, a.flags)
  }

  /** Padded with spaces to the width, on the right with the flag '-'. */
  function Padded(d: Directive, body: Text): Text
  {
    var pad := Fill(SPACE, d.width - |body|);
    if d.flags.left then body + pad else pad + body
  }

  /** As much of a string as the precision allows. */
  function Clipped(d: Directive, s: Text): Text
  {
    if 0 <= d.precision < |s| then s[..d.precision] else s
  }

  /** Anything that is no conversion is written as it stands, behind a percent sign unless it is one. */
  function Verbatim(conv: Byte): Text
  {
    (if conv != PERCENT then [PERCENT] else []) + (if conv != 0 then [conv] else [])
  }

  ghost predicate IsArg(a: Arg)
  {
    match a
    case Word(word) => word < WORD_LIMIT
    case Str(str) => str.Some? ==> NulFree(str.value)
  }

  ghost predicate AreArgs(args: seq<Arg>)
  {
    forall i :: 0 <= i < |args| ==> IsArg(args[i])
  }

  predicate TakesArg(d: Directive)
  {
    d.starred || IsInteger(d.conv) || d.conv == CHAR || d.conv == STRING
  }

  /** What a directive makes of its argument, None when it is of the wrong kind. A null string leaves nothing. */
  function Shown(d: Directive, arg: Arg): Option<Text>
    requires arg.Word? ==> arg.word < WORD_LIMIT
  {
    match arg
    case Word(word) =>
      if d.starred then Some(Verbatim(d.conv))
      else if IsInteger(d.conv) then Some(Converted(d, word))
      else if d.conv == CHAR then Some(Padded(d, [word % 256]))
      else None
    case Str(str) =>
      if d.starred || d.conv != STRING then None
      else if str == None then Some([])
      else Some(Padded(d, Clipped(d, str.value)))
  }

  /** The text of a format, None when it asks for a count ('n'), or for arguments that are not there. */
  ghost function Sprintf(fmt: Text, args: seq<Arg>): Option<Text>
    requires NulFree(fmt) && AreArgs(args)
    decreases |fmt|
  {
    if fmt == [] then Some([])
    else if fmt[0] != PERCENT then Prepend([fmt[0]], Sprintf(fmt[1..], args))
    else
      var (d, rest) := Parse(fmt[1..]);
      ParseShrinks(fmt[1..]);
      var next := if rest == [] then [] else rest[1..];
      if d.conv == COUNT then None
      else if !TakesArg(d) then Prepend(Verbatim(d.conv), Sprintf(next, args))
      else if args == [] then None
      else
        assert IsArg(args[0]);
        match Shown(d, args[0])
        case None => None
        case Some(shown) => Prepend(shown, Sprintf(next, args[1..]))
  }

  function Prepend(s: Text, t: Option<Text>): Option<Text>
  {
    match t
    case None => None
    case Some(u) => Some(s + u)
  }

  lemma {:induction false} FlagsShrink(s: Text, f: Flags)
    ensures |ParseFlags(s, f).1| <= |s|
    ensures NulFree(s) ==> NulFree(ParseFlags(s, f).1)
  {
    if s != [] && IsFlag(s[0]) {
      FlagsShrink(s[1..], SetFlag(f, s[0]));
    }
  }

  lemma {:induction false} AtoiShrinks(s: Text, n: nat)
    ensures |SkipAtoi(s, n).1| <= |s|
    ensures NulFree(s) ==> NulFree(SkipAtoi(s, n).1)
    decreases |s|
  {
    if StartsDigit(s) {
      AtoiShrinks(s[1..], n * 10 + (s[0] - 0x30));
    }
  }

  lemma ParseShrinks(s: Text)
    ensures |Parse(s).1| <= |s|
    ensures NulFree(s) ==> NulFree(Parse(s).1)
  {
    FlagsShrink(s, NO_FLAGS);
    var (f, s1) := ParseFlags(s, NO_FLAGS);
    AtoiShrinks(s1, 0);
    var (width, s2) := ParseWidth(s1);
    if s2 != [] {
      AtoiShrinks(s2[1..], 0);
    }
  }

  // ---- The method ---------------------------------------------------------

  method ReadFlags(s: Text) returns (f: Flags, rest: Text)
    ensures (f, rest) == ParseFlags(s, NO_FLAGS)
  {
    f, rest := NO_FLAGS, s;
    while rest != [] && IsFlag(rest[0])
      invariant ParseFlags(rest, f) == ParseFlags(s, NO_FLAGS)
      decreases |rest|
    {
      f, rest := SetFlag(f, rest[0]), rest[1..];
    }
  }

  method ReadInt(s: Text) returns (n: nat, rest: Text)
    ensures (n, rest) == SkipAtoi(s, 0)
  {
    n, rest := 0, s;
    while rest != [] && IsDigit(rest[0])
      invariant SkipAtoi(rest, n) == SkipAtoi(s, 0)
      decreases |rest|
    {
      n, rest := n * 10 + (rest[0] - 0x30), rest[1..];
    }
  }

  method ReadDirective(s: Text) returns (d: Directive, rest: Text)
    ensures (d, rest) == Parse(s)
  {
    hide ParseFlags, SkipAtoi;
    var f;
    f, rest := ReadFlags(s);
    var width: int, precision: int, starred := -1, -1, false;
    if rest != [] && IsDigit(rest[0]) {
      width, rest := ReadInt(rest);
    } else if AtStar(rest) {
      starred := true;
    }
    if rest != [] && rest[0] == POINT {
      rest := rest[1..];
      if rest != [] && IsDigit(rest[0]) {
        precision, rest := ReadInt(rest);
      } else if AtStar(rest) {
        starred := true;
      }
      if precision < 0 {
        precision := 0;
      }
    }
    if rest != [] && IsQualifier(rest[0]) {
      rest := rest[1..];
    }
    d := Directive(f, width, precision, if rest == [] then 0 else rest[0], starred);
  }

  method Vsprintf(fmt: Text, args: seq<Arg>) returns (r: Option<Text>)
    requires NulFree(fmt) && AreArgs(args)
    ensures r == Sprintf(fmt, args)
  {
    hide Parse, Shown;
    var str, s, left := [], fmt, args;
    Unprepended(Sprintf(fmt, args));
    while s != []
      invariant NulFree(s) && AreArgs(left) && Sprintf(fmt, args) == Prepend(str, Sprintf(s, left))
      decreases |s|
    {
      if s[0] != PERCENT {
        Prepended(str, [s[0]], Sprintf(s[1..], left));
        str, s := str + [s[0]], s[1..];
      } else {
        var d, rest := ReadDirective(s[1..]);
        ParseShrinks(s[1..]);
        var next := if rest == [] then [] else rest[1..];
        if d.conv == COUNT {
          return None;
        } else if !TakesArg(d) {
          Prepended(str, Verbatim(d.conv), Sprintf(next, left));
          str, s := str + Verbatim(d.conv), next;
        } else if left == [] {
          return None;
        } else {
          var out := ShowInto(str, d, left[0]);
          if out == None {
            return None;
          }
          Prepended(str, Shown(d, left[0]).value, Sprintf(next, left[1..]));
          str, s, left := out.value, next, left[1..];
        }
      }
    }
    assert str + [] == str;
    r := Some(str);
  }

  /** One directive with its argument, behind what was written before. */
  method ShowInto(str: Text, d: Directive, arg: Arg) returns (r: Option<Text>)
    requires IsArg(arg)
    ensures r == Prepend(str, Shown(d, arg))
  {
    hide Formatted;
    match arg {
      case Word(word) =>
        if d.starred {
          r := Some(str + Verbatim(d.conv));
        } else if IsInteger(d.conv) {
          var a := Adjusted(d);
          r := Number(str, AsSigned(word), BaseOf(d.conv), a.width, a.precision, a.flags);
        } else if d.conv == CHAR {
          var out := PutChar(str, d, word % 256);
          r := Some(out);
        } else {
          r := None;
        }
      case Str(s) =>
        if d.starred || d.conv != STRING {
          r := None;
        } else if s == None {
          assert str + [] == str;
          r := Some(str);
        } else {
          var out := PutString(str, d, s.value);
          r := Some(out);
        }
    }
  }

  method PutChar(str: Text, d: Directive, c: Byte) returns (r: Text)
    ensures r == str + Padded(d, [c])
  {
    r := str;
    var width := d.width;
    if !d.flags.left {
      r, width := Pad(r, SPACE, width - 1);
    }
    r := r + [c];
    r, width := Pad(r, SPACE, width - 1);
  }

  method PutString(str: Text, d: Directive, s: Text) returns (r: Text)
    ensures r == str + Padded(d, Clipped(d, s))
  {
    var len := |s|;
    if 0 <= d.precision < len {
      len := d.precision;
    }
    r := str;
    var room := d.width - len;
    if !d.flags.left {
      r, room := Pad(r, SPACE, room);
    }
    var i := 0;
    ghost var padded := r;
    while i < len
      invariant 0 <= i <= len && r == padded + s[..i]
    {
      r := r + [s[i]];
      i := i + 1;
    }
    assert s[..len] == Clipped(d, s);
    ghost var body := r;
    r, room := Pad(r, SPACE, room);
    assert r == body + Fill(SPACE, if d.flags.left then d.width - len else 0);
  }

  lemma Prepended(a: Text, b: Text, t: Option<Text>)
    ensures Prepend(a, Prepend(b, t)) == Prepend(a + b, t)
  {
    if t.Some? {
      assert a + (b + t.value) == a + b + t.value;
    }
  }

  lemma Unprepended(t: Option<Text>)
    ensures Prepend([], t) == t
  {
    if t.Some? {
      assert [] + t.value == t.value;
    }
  }

  // ---- What directives mean -----------------------------------------------

  function Opt(b: bool, c: Byte): Text
  {
    if b then [c] else []
  }

  function Number10(n: int): Text
    requires n >= 0
  {
    Digits(n, 10, false)
  }

  /** A directive as text. A width has no leading zero, which would be a flag. */
  function Render(d: Directive): Text
  {
    Opt(d.flags.left, MINUS) + (Opt(d.flags.plus, PLUS) + (Opt(d.flags.space, SPACE) + (Opt(d.flags.special, HASH) + (Opt(d.flags.zeropad, ZERO)
      + ((if d.width >= 0 then Number10(d.width) else []) + ((if d.precision >= 0 then [POINT] + Number10(d.precision) else []) + [d.conv]))))))
  }

  ghost predicate Plain(d: Directive)
  {
    && (d.width == -1 || d.width > 0) && d.precision >= -1 && (IsInteger(d.conv) || d.conv == CHAR || d.conv == STRING || d.conv == PERCENT)
    && !d.flags.sign && !d.flags.small && !d.starred
  }

  lemma FlagStep(b: bool, c: Byte, s: Text, f: Flags)
    requires IsFlag(c)
    ensures ParseFlags(Opt(b, c) + s, f) == ParseFlags(s, if b then SetFlag(f, c) else f)
  {
    if b {
      assert ([c] + s)[1..] == s;
    } else {
      assert [] + s == s;
    }
  }

  lemma {:induction false} AtoiSteps(d: Text, t: Text)
    requires AllDigits(d, 10)
    ensures SkipAtoi(d + t, 0) == SkipAtoi(t, Value(d, 10))
    decreases |d|
  {
    if d == [] {
      assert d + t == t;
    } else {
      var k := |d| - 1;
      AtoiSteps(d[..k], [d[k]] + t);
      assert d[..k] + ([d[k]] + t) == d + t;
      assert ([d[k]] + t)[1..] == t;
    }
  }

  /** A decimal number in front of something else is skipped exactly, and read right. */
  lemma NumberSkipped(n: nat, t: Text)
    requires !StartsDigit(t)
    ensures SkipAtoi(Number10(n) + t, 0) == (n, t) && StartsDigit(Number10(n) + t)
  {
    hide Value, Digits;
    DigitsReadBack(n, 10, false);
    AtoiSteps(Number10(n), t);
    assert DigitValue(Number10(n)[0]) < 10;
  }

  /** The first digit of a positive number is not a zero. */
  lemma {:induction false} NoLeadingZero(n: nat)
    requires 0 < n
    ensures Digits(n, 10, false)[0] != ZERO
    decreases n
  {
    if n >= 10 {
      NoLeadingZero(n / 10);
    }
  }

  lemma FlagsReadBack(f: Flags, s: Text)
    requires s != [] && !IsFlag(s[0]) && !f.sign && !f.small
    ensures ParseFlags(Opt(f.left, MINUS) + (Opt(f.plus, PLUS) + (Opt(f.space, SPACE) + (Opt(f.special, HASH) + (Opt(f.zeropad, ZERO) + s)))), NO_FLAGS) == (f, s)
  {
    hide ParseFlags, Opt;
    var s5 := Opt(f.zeropad, ZERO) + s;
    var s4 := Opt(f.special, HASH) + s5;
    var s3 := Opt(f.space, SPACE) + s4;
    var s2 := Opt(f.plus, PLUS) + s3;
    var f1 := NO_FLAGS.(left := f.left);
    var f2 := f1.(plus := f.plus);
    var f3 := f2.(space := f.space);
    var f4 := f3.(special := f.special);
    FlagStep(f.left, MINUS, s2, NO_FLAGS);
    FlagStep(f.plus, PLUS, s3, f1);
    FlagStep(f.space, SPACE, s4, f2);
    FlagStep(f.special, HASH, s5, f3);
    FlagStep(f.zeropad, ZERO, s, f4);
    NoMoreFlags(s, f);
  }

  lemma NoMoreFlags(s: Text, f: Flags)
    requires s != [] && !IsFlag(s[0])
    ensures ParseFlags(s, f) == (f, s)
  {
  }

  /** A directive reads back as it was rendered. */
  lemma DirectiveReadsBack(d: Directive, rest: Text)
    requires Plain(d)
    ensures Parse(Render(d) + rest) == (d, [d.conv] + rest)
  {
    hide ParseFlags, SkipAtoi, Digits, Opt;
    var tail := [d.conv] + rest;
    var precise := (if d.precision >= 0 then [POINT] + Number10(d.precision) else []) + tail;
    var wide := (if d.width >= 0 then Number10(d.width) else []) + precise;
    if d.precision >= 0 {
      NumberSkipped(d.precision, tail);
      assert precise[1..] == Number10(d.precision) + tail;
    } else {
      assert precise == tail;
    }
    assert ParsePrecision(precise) == (d.precision, tail);
    assert !StartsDigit(precise) && precise != [] && !IsFlag(precise[0]);
    if d.width > 0 {
      NumberSkipped(d.width, precise);
      NoLeadingZero(d.width);
      assert IsDigit(wide[0]) && wide[0] != ZERO;
    } else {
      assert wide == precise;
    }
    assert ParseWidth(wide) == (d.width, precise);
    FlagsReadBack(d.flags, wide);
    Nested(d, rest, precise, wide);
  }

  lemma Nested(d: Directive, rest: Text, precise: Text, wide: Text)
    requires precise == (if d.precision >= 0 then [POINT] + Number10(d.precision) else []) + ([d.conv] + rest)
    requires wide == (if d.width >= 0 then Number10(d.width) else []) + precise
    ensures Render(d) + rest == Opt(d.flags.left, MINUS) + (Opt(d.flags.plus, PLUS) + (Opt(d.flags.space, SPACE) + (Opt(d.flags.special, HASH)
                                  + (Opt(d.flags.zeropad, ZERO) + wide))))
  {
    hide Opt, Digits;
  }

  lemma NulFreeBoth(a: Text, b: Text)
    requires NulFree(a) && NulFree(b)
    ensures NulFree(a + b)
  {
  }

  lemma NumberIsText(n: nat)
    ensures NulFree(Number10(n))
  {
    DigitsReadBack(n, 10, false);
  }

  lemma RenderIsText(d: Directive)
    requires Plain(d)
    ensures NulFree(Render(d))
  {
    hide Digits, Number10;
    var precise := (if d.precision >= 0 then [POINT] + Number10(d.precision) else []) + [d.conv];
    assert NulFree(precise) by {
      if d.precision >= 0 {
        NumberIsText(d.precision);
        NulFreeBoth([POINT], Number10(d.precision));
        NulFreeBoth([POINT] + Number10(d.precision), [d.conv]);
      }
    }
    var wide := (if d.width >= 0 then Number10(d.width) else []) + precise;
    assert NulFree(wide) by {
      if d.width >= 0 {
        NumberIsText(d.width);
        NulFreeBoth(Number10(d.width), precise);
      }
    }
    FlagsAreText(d.flags, wide);
  }

  lemma FlagsAreText(f: Flags, s: Text)
    requires NulFree(s)
    ensures NulFree(Opt(f.left, MINUS) + (Opt(f.plus, PLUS) + (Opt(f.space, SPACE) + (Opt(f.special, HASH) + (Opt(f.zeropad, ZERO) + s)))))
  {
    var s1 := Opt(f.zeropad, ZERO) + s;
    var s2 := Opt(f.special, HASH) + s1;
    var s3 := Opt(f.space, SPACE) + s2;
    var s4 := Opt(f.plus, PLUS) + s3;
    NulFreeBoth(Opt(f.zeropad, ZERO), s);
    NulFreeBoth(Opt(f.special, HASH), s1);
    NulFreeBoth(Opt(f.space, SPACE), s2);
    NulFreeBoth(Opt(f.plus, PLUS), s3);
    NulFreeBoth(Opt(f.left, MINUS), s4);
  }

  // ---- Whole formats ------------------------------------------------------

  /** Some text, and a directive with the argument it shows. */
  datatype Piece = Piece(text: Text, d: Directive, arg: Arg)

  ghost predicate IsPiece(p: Piece)
  {
    NulFree(p.text) && PERCENT !in p.text && Plain(p.d) && p.d.conv != PERCENT && IsArg(p.arg) && Shown(p.d, p.arg).Some?
  }

  ghost predicate ArePieces(ps: seq<Piece>)
  {
    forall i :: 0 <= i < |ps| ==> IsPiece(ps[i])
  }

  function FormatOf(ps: seq<Piece>): Text
  {
    if ps == [] then [] else ps[0].text + ([PERCENT] + Render(ps[0].d) + FormatOf(ps[1..]))
  }

  function ArgsOf(ps: seq<Piece>): seq<Arg>
  {
    if ps == [] then [] else [ps[0].arg] + ArgsOf(ps[1..])
  }

  ghost function OutputOf(ps: seq<Piece>): Text
    requires ArePieces(ps)
  {
    if ps == [] then []
    else ps[0].text + (Shown(ps[0].d, ps[0].arg).value + OutputOf(ps[1..]))
  }

  /** Text without percent signs is copied. */
  lemma {:induction false} TextIsCopied(text: Text, rest: Text, args: seq<Arg>)
    requires NulFree(text) && PERCENT !in text && NulFree(rest) && AreArgs(args)
    ensures NulFree(text + rest) && Sprintf(text + rest, args) == Prepend(text, Sprintf(rest, args))
    decreases |text|
  {
    hide Parse, Shown;
    if text == [] {
      assert text + rest == rest;
      Unprepended(Sprintf(rest, args));
    } else {
      assert (text + rest)[1..] == text[1..] + rest;
      assert text[0] in text;
      TextIsCopied(text[1..], rest, args);
      Prepended([text[0]], text[1..], Sprintf(rest, args));
      assert [text[0]] + text[1..] == text;
    }
  }

  /** A directive shows its argument, and what is behind it gets the others. */
  lemma DirectiveIsShown(d: Directive, arg: Arg, rest: Text, args: seq<Arg>)
    requires Plain(d) && d.conv != PERCENT && IsArg(arg) && Shown(d, arg).Some? && NulFree(rest) && AreArgs(args)
    ensures NulFree([PERCENT] + Render(d) + rest) && AreArgs([arg] + args)
    ensures Sprintf([PERCENT] + Render(d) + rest, [arg] + args) == Prepend(Shown(d, arg).value, Sprintf(rest, args))
  {
    hide Parse, Render, Shown;
    RenderIsText(d);
    DirectiveReadsBack(d, rest);
    assert ([PERCENT] + Render(d) + rest)[1..] == Render(d) + rest;
    assert ([d.conv] + rest)[1..] == rest && ([arg] + args)[1..] == args;
  }

  /** A format of pieces gives their texts and their arguments as shown, in order, each argument used once. */
  lemma {:induction false} PiecesInOrder(ps: seq<Piece>)
    requires ArePieces(ps)
    ensures NulFree(FormatOf(ps)) && AreArgs(ArgsOf(ps))
    ensures Sprintf(FormatOf(ps), ArgsOf(ps)) == Some(OutputOf(ps))
    decreases |ps|
  {
    hide Sprintf, Shown, Render;
    if ps == [] {
      NothingFormatted();
    } else {
      var p, rest := ps[0], FormatOf(ps[1..]);
      PiecesInOrder(ps[1..]);
      DirectiveIsShown(p.d, p.arg, rest, ArgsOf(ps[1..]));
      TextIsCopied(p.text, [PERCENT] + Render(p.d) + rest, ArgsOf(ps));
    }
  }

  lemma NothingFormatted()
    ensures Sprintf([], []) == Some([])
  {
  }

  /** A string or character takes up as much room as its width asks for, or more only when it is longer. */
  lemma LengthOfString(d: Directive, s: Text)
    ensures |Padded(d, Clipped(d, s))| == Max(d.width, if d.precision >= 0 && d.precision < |s| then d.precision else |s|)
  {
  }

  /**
    What sprintf writes for a decimal directive, atoi reads: the magnitude of the argument, with one exception.
    The magnitude of the least int is no int, and atoi returns the least int itself.
   */
  lemma SprintfThenAtoi(d: Directive, word: nat)
    requires Plain(d) && (d.conv == 0x64 || d.conv == 0x69) && word < WORD_LIMIT
    ensures NulFree([PERCENT] + Render(d)) && Sprintf([PERCENT] + Render(d), [Word(word)]).Some?
    ensures var (n, r) := (AsSigned(word), IntOf(Atoi(Sprintf([PERCENT] + Render(d), [Word(word)]).value)));
            && (r == (if n < 0 then -n else n) <==> word != 0x8000_0000)
            && (word == 0x8000_0000 ==> r == n == -0x8000_0000)
  {
    hide Render, Atoi, Formatted, IntOf, Parse;
    DirectiveIsShown(d, Word(word), [], []);
    assert [PERCENT] + Render(d) + [] == [PERCENT] + Render(d) && [Word(word)] + [] == [Word(word)];
    assert Converted(d, word) + [] == Converted(d, word);
    var a := Adjusted(d);
    AtoiReadsBack(AsSigned(word), a.width, a.precision, a.flags);
  }
}

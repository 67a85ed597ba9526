/**
  What a formatted number looks like (src/lib/vsprintf.c): where spaces, sign, prefix, zeros and digits stand, and
  which digits they are; and what the directives of sprintf ask for.
 */
module NumberShape {

  import opened Bytes
  import opened Options
  import opened Decimal
  import opened Numbers
  import opened NumbersReadBack
  import opened Sprintf

  /** s is c, n times. */
  ghost predicate Only(s: Text, c: Byte, n: int)
  {
    |s| == Max(n, 0) && forall i :: 0 <= i < |s| ==> s[i] == c
  }

  /** The numeral of u: no zero in front, and letters of one case. */
  ghost predicate Numeral(digits: Text, u: nat, base: nat, small: bool)
  {
    && digits != [] && Value(digits, base) == u && AllDigits(digits, base)
    && (digits[0] == ZERO ==> u == 0 && |digits| == 1)
    && forall i :: 0 <= i < |digits| ==>
         0x30 <= digits[i] < 0x3A || (if small then 0x61 <= digits[i] <= 0x7A else 0x41 <= digits[i] <= 0x5A)
  }

  lemma {:induction false} DigitsAreTheNumeral(u: nat, base: nat, small: bool)
    requires 2 <= base <= 36
    ensures Numeral(Digits(u, base, small), u, base, small)
    decreases u
  {
    DigitsReadBack(u, base, small);
    hide Value, AllDigits;
    if u >= base {
      var q, r := LastDigit(u, base, small);
      assert q != 0;
      DigitsAreTheNumeral(q, base, small);
      NumeralOfMore(Digits(q, base, small), r, small, Digits(u, base, small));
    }
  }

  lemma NumeralOfMore(s: Text, r: nat, small: bool, t: Text)
    requires s != [] && s[0] != ZERO && r < 36 && t == s + [DigitChar(r, small)]
    requires forall i :: 0 <= i < |s| ==> 0x30 <= s[i] < 0x3A || (if small then 0x61 <= s[i] <= 0x7A else 0x41 <= s[i] <= 0x5A)
    ensures t != [] && t[0] != ZERO
    ensures forall i :: 0 <= i < |t| ==> 0x30 <= t[i] < 0x3A || (if small then 0x61 <= t[i] <= 0x7A else 0x41 <= t[i] <= 0x5A)
  {
  }

  /** A number is laid out in six parts. */
  ghost predicate Shape(t: Text, num: int, base: nat, width: int, precision: int, f: Flags)
    requires -0x8000_0000 <= num < 0x8000_0000
  {
    exists left: Text, sign: Text, prefix: Text, zeros: Text, digits: Text, right: Text ::
      t == left + (sign + (prefix + (zeros + (digits + right)))) && Laid(left, sign, prefix, zeros, digits, right, num, base, width, precision, f)
  }

  /**
    A minus sign for a negative number that counts as signed, else what the flags '+' and ' ' ask for; 0, 0x or 0X
    for '#'; zeros up to the precision. What is missing to the width goes to the right for '-', else between prefix
    and digits as zeros for '0', else to the left.
   */
  ghost predicate Laid(left: Text, sign: Text, prefix: Text, zeros: Text, digits: Text, right: Text,
                       num: int, base: nat, width: int, precision: int, f: Flags)
    requires -0x8000_0000 <= num < 0x8000_0000
  {
    && Numeral(digits, if num >= 0 then num else if f.sign then -num else num + 0x1_0000_0000, base, f.small)
    && sign == (if f.sign && num < 0 then [0x2D] else if f.plus then [0x2B] else if f.space then [0x20] else [])
    && prefix == (if f.special && base == 8 then [0x30] else if f.special && base == 16 then [0x30, if f.small then 0x78 else 0x58] else [])
    && var missing := width - |sign| - |prefix| - Max(precision, |digits|);
       && Only(left, 0x20, if f.left || f.zeropad then 0 else missing)
       && Only(zeros, 0x30, Max(precision - |digits|, 0) + if f.zeropad && !f.left then Max(missing, 0) else 0)
       && Only(right, 0x20, if f.left then missing else 0)
  }

  lemma FillIs(c: Byte, n: int)
    ensures Only(Fill(c, n), c, n)
  {
  }

  lemma PartsAreLaid(t: Text, sign: Text, prefix: Text, zeros: Text, digits: Text, missing: int,
                     num: int, base: nat, width: int, precision: int, f: Flags)
    requires -0x8000_0000 <= num < 0x8000_0000
    requires Laid(Fill(SPACE, if f.left || f.zeropad then 0 else missing), sign, prefix,
                  Fill(ZERO, if f.zeropad && !f.left then missing else 0) + zeros, digits, Fill(SPACE, if f.left then missing else 0),
                  num, base, width, precision, f)
    requires t == Layout(sign + prefix, zeros + digits, missing, f)
    ensures Shape(t, num, base, width, precision, f)
  {
    hide Laid, Fill;
    var none := Fill(SPACE, 0);
    FillIs(SPACE, 0);
    FillIs(ZERO, 0);
    var left := Fill(SPACE, if f.left || f.zeropad then 0 else missing);
    var filled := Fill(ZERO, if f.zeropad && !f.left then missing else 0) + zeros;
    var right := Fill(SPACE, if f.left then missing else 0);
    assert t == left + (sign + (prefix + (filled + (digits + right))));
  }

  lemma PartsFit(sign: Text, prefix: Text, zeros: Text, digits: Text, missing: int,
                 num: int, base: nat, width: int, precision: int, f: Flags)
    requires -0x8000_0000 <= num < 0x8000_0000
    requires Numeral(digits, if num >= 0 then num else if f.sign then -num else num + 0x1_0000_0000, base, f.small)
    requires sign == (if f.sign && num < 0 then [0x2D] else if f.plus then [0x2B] else if f.space then [0x20] else [])
    requires prefix == (if f.special && base == 8 then [0x30] else if f.special && base == 16 then [0x30, if f.small then 0x78 else 0x58] else [])
    requires Only(zeros, 0x30, precision - |digits|) && missing == width - |sign| - |prefix| - |zeros| - |digits|
    ensures Laid(Fill(SPACE, if f.left || f.zeropad then 0 else missing), sign, prefix,
                 Fill(ZERO, if f.zeropad && !f.left then missing else 0) + zeros, digits, Fill(SPACE, if f.left then missing else 0),
                 num, base, width, precision, f)
  {
    hide Numeral, Fill;
    FillIs(SPACE, if f.left || f.zeropad then 0 else missing);
    FillIs(ZERO, if f.zeropad && !f.left then missing else 0);
    FillIs(SPACE, if f.left then missing else 0);
  }

  lemma NumbersHaveTheirShape(num: int, base: nat, width: int, precision: int, f: Flags)
    requires -0x8000_0000 <= num < 0x8000_0000 && 2 <= base <= 36
    ensures Shape(Formatted(num, base, width, precision, f), num, base, width, precision, f)
  {
    hide Digits, Numeral, Fill, Laid, Shape;
    var digits := Digits(Magnitude(num, f.sign), base, f.small);
    DigitsAreTheNumeral(Magnitude(num, f.sign), base, f.small);
    var sign, prefix, zeros := SignText(num, f), Prefix(base, f), Fill(ZERO, precision - |digits|);
    var missing := width - |sign + prefix| - |zeros + digits|;
    FillIs(ZERO, precision - |digits|);
    PartsFit(sign, prefix, zeros, digits, missing, num, base, width, precision, f);
    PartsAreLaid(Formatted(num, base, width, precision, f), sign, prefix, zeros, digits, missing, num, base, width, precision, f);
  }

  // ---- Directives ---------------------------------------------------------

  /** o is octal, x, X and p are hexadecimal, the rest decimal. */
  function Radix(conv: Byte): (r: nat)
    ensures 2 <= r <= 36
  {
    if conv == 0x6F then 8 else if conv in {0x78, 0x58, 0x70} then 16 else 10
  }

  /** What a reader of the right base finds in the text of a directive: the argument, as signed for d and i. */
  lemma IntegersReadBack(d: Directive, word: nat)
    requires Plain(d) && IsInteger(d.conv) && word < WORD_LIMIT
    ensures NulFree([PERCENT] + Render(d)) && Sprintf.Sprintf([PERCENT] + Render(d), [Word(word)]).Some?
    ensures ReadNumber(Sprintf.Sprintf([PERCENT] + Render(d), [Word(word)]).value, Radix(d.conv),
                       if d.flags.special && Radix(d.conv) == 16 then 2 else 0)
         == if d.conv in {0x64, 0x69} then AsSigned(word) else word
  {
    hide Render, Formatted, ReadNumber, Parse;
    DirectiveIsShown(d, Word(word), [], []);
    assert [PERCENT] + Render(d) + [] == [PERCENT] + Render(d) && [Word(word)] + [] == [Word(word)];
    assert Converted(d, word) + [] == Converted(d, word);
    var a := Adjusted(d);
    NumberReadsBack(AsSigned(word), BaseOf(d.conv), a.width, a.precision, a.flags);
  }

  /** How a directive lays its number out: x in small letters, and a pointer without a width as eight digits. */
  lemma IntegersHaveTheirShape(d: Directive, word: nat)
    requires Plain(d) && IsInteger(d.conv) && word < WORD_LIMIT
    ensures NulFree([PERCENT] + Render(d)) && Sprintf.Sprintf([PERCENT] + Render(d), [Word(word)]).Some?
    ensures var (pointer, f) := (d.conv == 0x70 && d.width == -1, d.flags);
            Shape(Sprintf.Sprintf([PERCENT] + Render(d), [Word(word)]).value, AsSigned(word), Radix(d.conv),
                  if pointer then 8 else d.width, d.precision,
                  Flags(f.zeropad || pointer, d.conv in {0x64, 0x69}, f.plus, f.space, f.left, f.special, d.conv == 0x78))
  {
    hide Render, Formatted, Shape, Parse;
    DirectiveIsShown(d, Word(word), [], []);
    assert [PERCENT] + Render(d) + [] == [PERCENT] + Render(d) && [Word(word)] + [] == [Word(word)];
    assert Converted(d, word) + [] == Converted(d, word);
    var a := Adjusted(d);
    NumbersHaveTheirShape(AsSigned(word), BaseOf(d.conv), a.width, a.precision, a.flags);
  }

  /** A string, up to the precision, at the left end for '-' and at the right end otherwise, and spaces beside it. */
  lemma StringsStandAside(d: Directive, s: Text)
    requires Plain(d) && d.conv == STRING && NulFree(s)
    ensures NulFree([PERCENT] + Render(d)) && Sprintf.Sprintf([PERCENT] + Render(d), [Str(Some(s))]).Some?
    ensures var t := Sprintf.Sprintf([PERCENT] + Render(d), [Str(Some(s))]).value;
            var n := if 0 <= d.precision < |s| then d.precision else |s|;
            && |t| == Max(d.width, n)
            && (if d.flags.left then t[..n] == s[..n] && Only(t[n..], 0x20, |t| - n)
                else t[|t| - n..] == s[..n] && Only(t[..|t| - n], 0x20, |t| - n))
  {
    hide Render, Parse;
    DirectiveIsShown(d, Str(Some(s)), [], []);
    assert [PERCENT] + Render(d) + [] == [PERCENT] + Render(d) && [Str(Some(s))] + [] == [Str(Some(s))];
    var t := Padded(d, Clipped(d, s));
    assert t + [] == t;
    FillIs(SPACE, d.width - |Clipped(d, s)|);
    hide Sprintf.Sprintf, Shown;
    var n := if 0 <= d.precision < |s| then d.precision else |s|;
    assert Clipped(d, s) == s[..n];
    if d.flags.left {
      assert t[n..] == Fill(SPACE, d.width - n);
    } else {
      assert t[..|t| - n] == Fill(SPACE, d.width - n);
    }
  }

  /** A character, of the low byte of its argument, likewise. */
  lemma CharactersStandAside(d: Directive, word: nat)
    requires Plain(d) && d.conv == CHAR && word < WORD_LIMIT
    ensures NulFree([PERCENT] + Render(d)) && Sprintf.Sprintf([PERCENT] + Render(d), [Word(word)]).Some?
    ensures var t := Sprintf.Sprintf([PERCENT] + Render(d), [Word(word)]).value;
            && |t| == Max(d.width, 1)
            && t[if d.flags.left then 0 else |t| - 1] == word % 256
            && (if d.flags.left then Only(t[1..], 0x20, |t| - 1) else Only(t[..|t| - 1], 0x20, |t| - 1))
  {
    hide Render, Parse;
    DirectiveIsShown(d, Word(word), [], []);
    assert [PERCENT] + Render(d) + [] == [PERCENT] + Render(d) && [Word(word)] + [] == [Word(word)];
    var t := Padded(d, [word % 256]);
    assert t + [] == t;
    FillIs(SPACE, d.width - 1);
    if d.flags.left {
      assert t[1..] == Fill(SPACE, d.width - 1);
    } else {
      assert t[..|t| - 1] == Fill(SPACE, d.width - 1);
    }
  }

  // ---- What is no directive -----------------------------------------------

  /** Characters that mean something behind a percent sign, other than a second one. */
  predicate Means(c: Byte)
  {
    IsFlag(c) || IsDigit(c) || c == POINT || c == STAR || IsQualifier(c) || IsInteger(c) || c in {CHAR, STRING, COUNT}
  }

  lemma NoDirective(c: Byte, rest: Text)
    requires !Means(c)
    ensures Parse([c] + rest) == (Directive(NO_FLAGS, -1, -1, c, false), [c] + rest)
  {
  }

  /** A percent sign in front of any other character is copied with it; two percent signs are one; one at the end stays. */
  lemma OthersAreCopied(c: Byte, rest: Text, args: seq<Arg>)
    requires c != 0 && !Means(c) && NulFree(rest) && AreArgs(args)
    ensures NulFree([PERCENT, c] + rest)
    ensures Sprintf.Sprintf([PERCENT, c] + rest, args) == Prepend(if c == PERCENT then [0x25] else [0x25, c], Sprintf.Sprintf(rest, args))
    ensures Sprintf.Sprintf([PERCENT], args) == Some([0x25])
  {
    NoDirective(c, rest);
    assert ([PERCENT, c] + rest)[1..] == [c] + rest && ([c] + rest)[1..] == rest;
    assert [PERCENT][1..] == [] && Sprintf.Sprintf([], args) == Some([]);
    assert Parse([]) == (Directive(NO_FLAGS, -1, -1, 0, false), []);
    assert [0x25 as Byte] + [] == [0x25] && Verbatim(c) == if c == PERCENT then [0x25] else [0x25, c];
    hide Parse;
  }

  /** A star for the width takes an argument and is copied, percent sign and all; so is one for the precision. */
  lemma StarsAreCopied(rest: Text, word: nat, args: seq<Arg>)
    requires NulFree(rest) && word < WORD_LIMIT && AreArgs(args)
    ensures NulFree([PERCENT, STAR] + rest) && NulFree([PERCENT, POINT, STAR] + rest) && AreArgs([Word(word)] + args)
    ensures Sprintf.Sprintf([PERCENT, STAR] + rest, [Word(word)] + args) == Prepend([0x25, 0x2A], Sprintf.Sprintf(rest, args))
    ensures Sprintf.Sprintf([PERCENT, POINT, STAR] + rest, [Word(word)] + args) == Prepend([0x25, 0x2A], Sprintf.Sprintf(rest, args))
  {
    var a, b := [PERCENT, STAR] + rest, [PERCENT, POINT, STAR] + rest;
    assert a[1..] == [STAR] + rest && b[1..] == [POINT, STAR] + rest && ([STAR] + rest)[1..] == rest;
    assert ([POINT, STAR] + rest)[1..] == [STAR] + rest && ([Word(word)] + args)[1..] == args;
    assert Parse(a[1..]) == (Directive(NO_FLAGS, -1, -1, STAR, true), [STAR] + rest);
    assert Parse(b[1..]) == (Directive(NO_FLAGS, -1, 0, STAR, true), [STAR] + rest);
    assert Verbatim(STAR) == [0x25, 0x2A];
    hide Parse;
  }
}

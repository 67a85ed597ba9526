/** What number() wrote is what a reader finds: in any base, with any flags, padding and precision. */
module NumbersReadBack {

  import opened Bytes
  import opened Decimal
  import opened Numbers

  function DropSpaces(s: Text): Text
  {
    if s != [] && s[0] == SPACE then DropSpaces(s[1..]) else s
  }

  /** The digits of the base at the front of s. */
  function Leading(s: Text, base: nat): Text
  {
    if s != [] && DigitValue(s[0]) < base then [s[0]] + Leading(s[1..], base) else []
  }

  /** Spaces, a sign, the prefix if there is one, digits. */
  function ReadNumber(s: Text, base: nat, prefix: nat): int
  {
    var t := DropSpaces(s);
    var signed := t != [] && (t[0] == MINUS || t[0] == PLUS);
    var u := if signed then t[1..] else t;
    var v := Value(Leading(if prefix <= |u| then u[prefix..] else [], base), base);
    if signed && t[0] == MINUS then -(v as int) else v
  }

  // ---- The parts of a formatted number ------------------------------------

  lemma FillsJoin(c: Byte, n: int, m: int)
    ensures Fill(c, n) + Fill(c, m) == Fill(c, |Fill(c, n)| + |Fill(c, m)|)
  {
  }

  /** In every layout: spaces, sign and prefix, zeros and digits, spaces. */
  lemma Parts(num: int, base: nat, width: int, precision: int, f: Flags) returns (a: int, b: int, c: int)
    requires -0x8000_0000 <= num < 0x8000_0000 && 2 <= base <= 36
    ensures Formatted(num, base, width, precision, f) ==
      Fill(SPACE, a) + (SignText(num, f) + Prefix(base, f)
        + (Fill(ZERO, b) + Digits(Magnitude(num, f.sign), base, f.small)) + Fill(SPACE, c))
  {
    hide Digits, Magnitude, SignText, Prefix;
    var head, digits := SignText(num, f) + Prefix(base, f), Digits(Magnitude(num, f.sign), base, f.small);
    var zeros := precision - |digits|;
    var body := Fill(ZERO, zeros) + digits;
    var room := width - |head| - |body|;
    a, b, c := 0, zeros, 0;
    assert Formatted(num, base, width, precision, f) == Layout(head, body, room, f);
    hide Fill, Formatted;
    if f.left {
      c := room;
      NoFill(SPACE);
      assert Layout(head, body, room, f) == Fill(SPACE, a) + (head + body + Fill(SPACE, c));
    } else if f.zeropad {
      FillsJoin(ZERO, room, zeros);
      b := |Fill(ZERO, room)| + |Fill(ZERO, zeros)|;
      assert Fill(ZERO, room) + body == Fill(ZERO, b) + digits;
      NoFill(SPACE);
      assert Layout(head, body, room, f) == Fill(SPACE, a) + (head + (Fill(ZERO, b) + digits) + Fill(SPACE, c));
    } else {
      a := room;
      NoFill(SPACE);
      assert Layout(head, body, room, f) == Fill(SPACE, a) + (head + body + Fill(SPACE, c));
    }
  }

  lemma NoFill(c: Byte)
    ensures Fill(c, 0) == []
  {
  }

  lemma {:induction false} SpacesDropped(n: nat, s: Text)
    ensures DropSpaces(Fill(SPACE, n) + s) == DropSpaces(s)
  {
    if n == 0 {
      assert Fill(SPACE, n) + s == s;
    } else {
      assert (Fill(SPACE, n) + s)[1..] == Fill(SPACE, n - 1) + s;
      SpacesDropped(n - 1, s);
    }
  }

  lemma {:induction false} LeadingDigits(d: Text, n: int, base: nat)
    requires AllDigits(d, base) && base <= 36
    ensures Leading(d + Fill(SPACE, n), base) == d
  {
    if d == [] {
      assert d + Fill(SPACE, n) == Fill(SPACE, n);
    } else {
      assert (d + Fill(SPACE, n))[1..] == d[1..] + Fill(SPACE, n);
      LeadingDigits(d[1..], n, base);
    }
  }

  lemma {:induction false} ZerosAreWorthNothing(n: int, d: Text, base: nat)
    ensures Value(Fill(ZERO, n) + d, base) == Value(d, base)
    decreases |d|, n
  {
    if d != [] {
      var z, k := Fill(ZERO, n), |d| - 1;
      assert (z + d)[..|z| + k] == z + d[..k];
      ZerosAreWorthNothing(n, d[..k], base);
    } else if n > 0 {
      assert Fill(ZERO, n) + d == Fill(ZERO, n);
      assert Fill(ZERO, n)[..n - 1] == Fill(ZERO, n - 1) + d;
      ZerosAreWorthNothing(n - 1, d, base);
    }
  }

  // ---- Round trips --------------------------------------------------------

  /** The value as the caller meant it: signed, or as an unsigned word. */
  function Meant(num: int, f: Flags): int
    requires -0x8000_0000 <= num < 0x8000_0000
  {
    if f.sign || num >= 0 then num else num + WORD_LIMIT
  }

  lemma BodyReads(num: int, base: nat, b: int, c: int, f: Flags)
    requires -0x8000_0000 <= num < 0x8000_0000 && 2 <= base <= 36
    ensures var body := Fill(ZERO, b) + Digits(Magnitude(num, f.sign), base, f.small);
            && 0 < |body| && AllDigits(body, base)
            && Value(Leading(body + Fill(SPACE, c), base), base) == Magnitude(num, f.sign)
  {
    hide Value, Digits, Magnitude, Leading;
    var u := Magnitude(num, f.sign);
    DigitsReadBack(u, base, f.small);
    LeadingDigits(Fill(ZERO, b) + Digits(u, base, f.small), c, base);
    ZerosAreWorthNothing(b, Digits(u, base, f.small), base);
  }

  lemma SignedReads(s: Text, sign: Text, t: Text, base: nat, skip: nat, v: nat)
    requires DropSpaces(s) == DropSpaces(sign + t) && sign in [[], [SPACE], [PLUS], [MINUS]]
    requires t != [] && t[0] != SPACE && t[0] != MINUS && t[0] != PLUS && skip <= |t|
    requires Value(Leading(t[skip..], base), base) == v
    ensures ReadNumber(s, base, skip) == if sign == [MINUS] then 0 - v else v
  {
    hide Value, Leading, DropSpaces;
    SignReads(sign, t);
  }

  /** A number reads back in its base, the least 32-bit integer included. */
  lemma NumberReadsBack(num: int, base: nat, width: int, precision: int, f: Flags)
    requires -0x8000_0000 <= num < 0x8000_0000 && 2 <= base <= 36
    ensures ReadNumber(Formatted(num, base, width, precision, f), base, if f.special && base == 16 then 2 else 0) == Meant(num, f)
  {
    hide Value, Digits, Leading, Formatted, Fill, DropSpaces, Magnitude, Prefix, ReadNumber, Meant;
    var a, b, c := Parts(num, base, width, precision, f);
    var sign, prefix := SignText(num, f), Prefix(base, f);
    var body := Fill(ZERO, b) + Digits(Magnitude(num, f.sign), base, f.small);
    var t := prefix + body + Fill(SPACE, c);
    assert sign + prefix + body + Fill(SPACE, c) == sign + t;
    SomeSpaces(a, sign + t);
    PrefixReads(base, b, num, c, f);
    SignedReads(Formatted(num, base, width, precision, f), sign, t, base, if f.special && base == 16 then 2 else 0, Magnitude(num, f.sign));
    MagnitudeIs(num, f);
  }

  lemma MagnitudeIs(num: int, f: Flags)
    requires -0x8000_0000 <= num < 0x8000_0000
    ensures Meant(num, f) == if f.sign && num < 0 then 0 - Magnitude(num, f.sign) else Magnitude(num, f.sign)
  {
  }

  lemma SomeSpaces(n: int, s: Text)
    ensures DropSpaces(Fill(SPACE, n) + s) == DropSpaces(s)
  {
    if n > 0 {
      SpacesDropped(n, s);
    } else {
      assert Fill(SPACE, n) + s == s;
    }
  }

  /** Behind the sign stands neither a space nor another sign. */
  lemma PrefixReads(base: nat, b: int, num: int, c: int, f: Flags)
    requires -0x8000_0000 <= num < 0x8000_0000 && 2 <= base <= 36
    ensures var body := Fill(ZERO, b) + Digits(Magnitude(num, f.sign), base, f.small);
            var t := Prefix(base, f) + body + Fill(SPACE, c);
            var skip := if f.special && base == 16 then 2 else 0;
            && t != [] && t[0] != SPACE && t[0] != MINUS && t[0] != PLUS && skip <= |t|
            && Value(Leading(t[skip..], base), base) == Magnitude(num, f.sign)
  {
    hide Value, Digits, Leading, Fill, Magnitude;
    var digits := Digits(Magnitude(num, f.sign), base, f.small);
    var body := Fill(ZERO, b) + digits;
    var t := Prefix(base, f) + body + Fill(SPACE, c);
    BodyReads(num, base, b, c, f);
    assert DigitValue(body[0]) < base;
    if f.special && base == 8 {
      EightsReads(num, b, c, f);
    } else if f.special && base == 16 {
      assert t[2..] == body + Fill(SPACE, c);
    } else {
      assert t[0..] == body + Fill(SPACE, c);
    }
  }

  /** In base 8 the prefix is a digit itself. */
  lemma EightsReads(num: int, b: int, c: int, f: Flags)
    requires -0x8000_0000 <= num < 0x8000_0000 && f.special
    ensures var body := Fill(ZERO, b) + Digits(Magnitude(num, f.sign), 8, f.small);
            var t := Prefix(8, f) + body + Fill(SPACE, c);
            Value(Leading(t[0..], 8), 8) == Magnitude(num, f.sign)
  {
    hide Value, Digits, Leading, Magnitude;
    var b' := (if b > 0 then b else 0) + 1;
    var digits := Digits(Magnitude(num, f.sign), 8, f.small);
    BodyReads(num, 8, b', c, f);
    assert [ZERO] + Fill(ZERO, b) == Fill(ZERO, b');
    assert [ZERO] + (Fill(ZERO, b) + digits) + Fill(SPACE, c) == Fill(ZERO, b') + digits + Fill(SPACE, c);
  }

  lemma SignReads(sign: Text, t: Text)
    requires sign in [[], [SPACE], [PLUS], [MINUS]] && t != [] && t[0] != SPACE
    ensures DropSpaces(sign + t) == if sign == [SPACE] then t else sign + t
    ensures sign != [] ==> (sign + t)[1..] == t
    ensures sign == [] ==> sign + t == t
  {
    if sign == [SPACE] {
      assert (sign + t)[1..] == t;
    }
  }

  // ---- atoi ---------------------------------------------------------------

  ghost predicate NoDigits(s: Text)
  {
    forall i :: 0 <= i < |s| ==> !IsDigit(s[i])
  }

  lemma {:induction false} AtoiOfNothing(s: Text)
    requires NoDigits(s)
    ensures Atoi(s) == 0
  {
    if s != [] {
      AtoiOfNothing(s[..|s| - 1]);
    }
  }

  lemma {:induction false} AtoiOfDigits(s: Text, d: Text)
    requires NoDigits(s) && AllDigits(d, 10)
    ensures Atoi(s + d) == Value(d, 10)
    decreases |d|
  {
    if d == [] {
      assert s + d == s;
      AtoiOfNothing(s);
    } else {
      var k := |d| - 1;
      assert (s + d)[..|s| + k] == s + d[..k];
      AtoiOfDigits(s, d[..k]);
    }
  }

  lemma {:induction false} AtoiStopsAtDigits(s: Text, t: Text)
    requires NoDigits(t)
    ensures Atoi(s + t) == Atoi(s)
    decreases |t|
  {
    if t == [] {
      assert s + t == s;
    } else {
      var k := |t| - 1;
      assert (s + t)[..|s| + k] == s + t[..k];
      AtoiStopsAtDigits(s, t[..k]);
    }
  }

  /** The digits of a decimal number, however it was formatted, are those of its magnitude. */
  lemma AtoiFindsTheDigits(num: int, width: int, precision: int, f: Flags)
    requires -0x8000_0000 <= num < 0x8000_0000
    ensures Atoi(Formatted(num, 10, width, precision, f)) == Magnitude(num, f.sign)
  {
    hide Atoi, Formatted, Digits, Value, Magnitude;
    var a, b, c := Parts(num, 10, width, precision, f);
    var front := Fill(SPACE, a) + SignText(num, f);
    var digits := Digits(Magnitude(num, f.sign), 10, f.small);
    var body := Fill(ZERO, b) + digits;
    assert Formatted(num, 10, width, precision, f) == front + body + Fill(SPACE, c);
    DigitsReadBack(Magnitude(num, f.sign), 10, f.small);
    ZerosAreWorthNothing(b, digits, 10);
    AtoiOfDigits(front, body);
    AtoiStopsAtDigits(front + body, Fill(SPACE, c));
  }

  /** atoi gives back the magnitude of a decimal number exactly when that fits an int; otherwise it wraps. */
  lemma AtoiReadsBack(num: int, width: int, precision: int, f: Flags)
    requires -0x8000_0000 <= num < 0x8000_0000
    ensures var (r, m) := (IntOf(Atoi(Formatted(num, 10, width, precision, f))), Magnitude(num, f.sign));
            && (r == m <==> m < 0x8000_0000)
            && (m >= 0x8000_0000 ==> r == m - WORD_LIMIT)
  {
    hide Atoi, Formatted, Magnitude;
    AtoiFindsTheDigits(num, width, precision, f);
  }

  /** The least int, printed with its sign, comes back with it. */
  lemma AtoiOfTheLeastInt(width: int, precision: int, f: Flags)
    requires f.sign
    ensures IntOf(Atoi(Formatted(-0x8000_0000, 10, width, precision, f))) == -0x8000_0000
  {
    hide Atoi, Formatted;
    AtoiReadsBack(-0x8000_0000, width, precision, f);
  }
}

/** number() of src/lib/vsprintf.c: a 32-bit value in any base, with sign, prefix, precision and field width. */
module Numbers {

  import opened Bytes
  import opened Options
  import opened Decimal

  datatype Flags = Flags(zeropad: bool, sign: bool, plus: bool, space: bool, left: bool, special: bool, small: bool)

  const SPACE: Byte := 0x20
  const PLUS: Byte := 0x2B
  const MINUS: Byte := 0x2D
  const ZERO: Byte := 0x30

  type Text = seq<Byte>

  // ---- Digits -------------------------------------------------------------

  function DigitChar(v: nat, small: bool): Byte
    requires v < 36
  {
    if v < 10 then 0x30 + v else if small then 0x61 + (v - 10) else 0x41 + (v - 10)
  }

  /** The value of a digit in either case, 36 for any other character. */
  function DigitValue(c: Byte): (r: nat)
    ensures r <= 36
  {
    if 0x30 <= c <= 0x39 then c - 0x30
    else if 0x41 <= c <= 0x5A then c - 0x41 + 10
    else if 0x61 <= c <= 0x7A then c - 0x61 + 10
    else 36
  }

  /** u written in a base, most significant digit first; one digit for 0. */
  function Digits(u: nat, base: nat, small: bool): (r: Text)
    requires 2 <= base <= 36
    ensures 0 < |r|
    decreases u
  {
    if u < base then [DigitChar(u, small)] else Digits(u / base, base, small) + [DigitChar(u % base, small)]
  }

  /** What the digits at the front of s stand for. */
  function Value(s: Text, base: nat): nat
  {
    if s == [] then 0 else Value(s[..|s| - 1], base) * base + DigitValue(s[|s| - 1])
  }

  ghost predicate AllDigits(s: Text, base: nat)
  {
    forall i :: 0 <= i < |s| ==> DigitValue(s[i]) < base
  }

  lemma DigitRoundTrip(v: nat, small: bool)
    requires v < 36
    ensures DigitValue(DigitChar(v, small)) == v
  {
  }

  lemma ValueOfMore(s: Text, c: Byte, base: nat)
    ensures Value(s + [c], base) == Value(s, base) * base + DigitValue(c)
  {
    assert (s + [c])[..|s|] == s;
  }

  lemma DivMod(u: nat, base: nat)
    requires 0 < base
    ensures u == u / base * base + u % base && u % base < base
  {
  }

  /** The digits of a number stand for it. */
  lemma {:induction false} DigitsReadBack(u: nat, base: nat, small: bool)
    requires 2 <= base <= 36
    ensures Value(Digits(u, base, small), base) == u && AllDigits(Digits(u, base, small), base)
    decreases u
  {
    hide Value, DigitChar, Digits;
    if u >= base {
      var q, r := LastDigit(u, base, small);
      DigitsReadBack(q, base, small);
      MoreDigits(Digits(q, base, small), q, r, base, small);
    } else {
      ValueOfNone(base);
      OneDigit(u, base, small);
      MoreDigits([], 0, u, base, small);
      assert [] + [DigitChar(u, small)] == [DigitChar(u, small)];
    }
  }

  lemma LastDigit(u: nat, base: nat, small: bool) returns (q: nat, r: nat)
    requires 2 <= base <= 36 && base <= u
    ensures q < u && r < base && u == q * base + r && Digits(u, base, small) == Digits(q, base, small) + [DigitChar(r, small)]
  {
    q, r := u / base, u % base;
    DivMod(u, base);
  }

  lemma OneDigit(u: nat, base: nat, small: bool)
    requires 2 <= base <= 36 && u < base
    ensures Digits(u, base, small) == [DigitChar(u, small)]
  {
  }

  lemma MoreDigits(s: Text, q: nat, r: nat, base: nat, small: bool)
    requires Value(s, base) == q && AllDigits(s, base) && r < base <= 36
    ensures Value(s + [DigitChar(r, small)], base) == q * base + r && AllDigits(s + [DigitChar(r, small)], base)
  {
    hide Value, DigitChar;
    DigitRoundTrip(r, small);
    ValueOfMore(s, DigitChar(r, small), base);
  }

  lemma ValueOfNone(base: nat)
    ensures Value([], base) == 0
  {
  }

  /** A 32-bit value has at most 32 digits in any base; the buffer holds 36. */
  lemma {:induction false} DigitsFit(u: nat, base: nat, small: bool, k: nat)
    requires 2 <= base <= 36 && u < Pow2(k + 1)
    ensures |Digits(u, base, small)| <= k + 1
    decreases k
  {
    if k > 0 && u >= base {
      assert u / base < Pow2(k) by {
        HalfFits(u, base, Pow2(k));
      }
      DigitsFit(u / base, base, small, k - 1);
    }
  }

  function Pow2(k: nat): nat
  {
    if k == 0 then 1 else 2 * Pow2(k - 1)
  }

  lemma HalfFits(u: nat, base: nat, p: nat)
    requires 2 <= base && u < 2 * p
    ensures u / base < p
  {
    var q := u / base;
    DivMod(u, base);
    assert (base - 2) * q >= 0;
    assert base * q == (base - 2) * q + 2 * q;
  }

  // ---- The text of a number -----------------------------------------------

  function Fill(c: Byte, n: int): (r: Text)
    ensures |r| == if n > 0 then n else 0
  {
    seq(if n > 0 then n else 0, i => c)
  }

  function Magnitude(num: int, sign: bool): (r: nat)
    requires -0x8000_0000 <= num < 0x8000_0000
    ensures r < WORD_LIMIT
  {
    if num >= 0 then num else if sign then -num else num + WORD_LIMIT
  }

  function SignText(num: int, f: Flags): Text
  {
    if f.sign && num < 0 then [MINUS] else if f.plus then [PLUS] else if f.space then [SPACE] else []
  }

  function Prefix(base: nat, f: Flags): Text
  {
    if !f.special then [] else if base == 8 then [ZERO] else if base == 16 then [ZERO, if f.small then 0x78 else 0x58] else []
  }

  /** The digits, led by zeros up to the precision. */
  function Body(num: int, base: nat, precision: int, f: Flags): Text
    requires -0x8000_0000 <= num < 0x8000_0000 && 2 <= base <= 36
  {
    var digits := Digits(Magnitude(num, f.sign), base, f.small);
    Fill(ZERO, precision - |digits|) + digits
  }

  /** Left-justified, or filled up with zeros behind the sign and prefix, or with spaces in front of them. */
  function Layout(head: Text, body: Text, room: int, f: Flags): Text
  {
    if f.left then head + body + Fill(SPACE, room)
    else if f.zeropad then head + Fill(ZERO, room) + body
    else Fill(SPACE, room) + head + body
  }

  function Formatted(num: int, base: nat, width: int, precision: int, f: Flags): Text
    requires -0x8000_0000 <= num < 0x8000_0000 && 2 <= base <= 36
  {
    var head, body := SignText(num, f) + Prefix(base, f), Body(num, base, precision, f);
    Layout(head, body, width - |head| - |body|, f)
  }

  function Max(a: int, b: int): int
  {
    if a < b then b else a
  }

  /** As many characters as the width asks for, or as sign, prefix and digits need. */
  lemma LengthOfNumber(num: int, base: nat, width: int, precision: int, f: Flags)
    requires -0x8000_0000 <= num < 0x8000_0000 && 2 <= base <= 36
    ensures |Formatted(num, base, width, precision, f)| ==
      Max(width, |SignText(num, f)| + |Prefix(base, f)| + Max(precision, |Digits(Magnitude(num, f.sign), base, f.small)|))
  {
  }

  // ---- The method ---------------------------------------------------------

  function Reversed(s: Text): (r: Text)
    ensures |r| == |s|
  {
    if s == [] then [] else [s[|s| - 1]] + Reversed(s[..|s| - 1])
  }

  /** Writes n copies of c, and counts n down once more than that, as the test of the loop does. */
  method Pad(str: Text, c: Byte, n: int) returns (r: Text, rest: int)
    ensures r == str + Fill(c, n) && rest == if n > 0 then -1 else n - 1
  {
    r, rest := str, n;
    while rest > 0
      invariant n <= 0 ==> rest == n
      invariant n > 0 ==> 0 <= rest <= n
      invariant r == str + Fill(c, n - rest)
    {
      assert Fill(c, n - rest) + [c] == Fill(c, n - (rest - 1));
      r := r + [c];
      rest := rest - 1;
    }
    rest := rest - 1;
  }

  /** Least significant digit first, into a buffer of 36. */
  method Convert(u: nat, base: nat, small: bool, tmp: array<Byte>) returns (i: nat)
    requires 2 <= base <= 36 && u < WORD_LIMIT && tmp.Length == 36
    modifies tmp
    ensures i <= 32 && Reversed(tmp[..i]) == Digits(u, base, small)
  {
    if u == 0 {
      tmp[0] := ZERO;
      i := 1;
      assert tmp[..1] == [ZERO];
    } else {
      i := Divide(u, base, small, tmp);
    }
  }

  method Divide(u: nat, base: nat, small: bool, tmp: array<Byte>) returns (i: nat)
    requires 2 <= base <= 36 && 0 < u < WORD_LIMIT && tmp.Length == 36
    modifies tmp
    ensures i <= 32 && Reversed(tmp[..i]) == Digits(u, base, small)
  {
    hide Digits, Reversed, DigitChar, Left;
    FitsBuffer(u, base, small);
    LeftAtFirst(u, base, small);
    i := 0;
    var num: nat := u;
    NothingReversed(tmp[..0]);
    assert Left(u, base, small) == Left(u, base, small) + [];
    while num != 0
      invariant i + |Left(num, base, small)| == |Digits(u, base, small)| <= 32
      invariant Digits(u, base, small) == Left(num, base, small) + Reversed(tmp[..i])
      decreases num
    {
      SomethingLeft(num, base, small);
      ghost var was := tmp[..i];
      var q, r := DoDiv(num, base, small);
      ghost var d := DigitChar(r, small);
      MoreReversed(Left(q, base, small), was, d);
      tmp[i] := DigitChar(r, small);
      assert tmp[..i + 1] == was + [d];
      num, i := q, i + 1;
    }
    NothingLeft(base, small);
    assert [] + Reversed(tmp[..i]) == Reversed(tmp[..i]);
  }

  /** The digits that are still to come; none for 0. */
  ghost function Left(num: nat, base: nat, small: bool): Text
    requires 2 <= base <= 36
  {
    if num == 0 then [] else Digits(num, base, small)
  }

  lemma LeftAtFirst(u: nat, base: nat, small: bool)
    requires 2 <= base <= 36 && u != 0
    ensures Left(u, base, small) == Digits(u, base, small)
  {
  }

  lemma SomethingLeft(num: nat, base: nat, small: bool)
    requires 2 <= base <= 36 && num != 0
    ensures 0 < |Left(num, base, small)|
  {
  }

  lemma NothingLeft(base: nat, small: bool)
    requires 2 <= base <= 36
    ensures Left(0, base, small) == []
  {
  }

  /** The division instruction: quotient and remainder. */
  method DoDiv(n: nat, base: nat, small: bool) returns (q: nat, r: nat)
    requires 2 <= base <= 36 && n != 0
    ensures q < n && r < base
    ensures Left(n, base, small) == Left(q, base, small) + [DigitChar(r, small)]
  {
    q, r := n / base, n % base;
    DivMod(n, base);
    HalfFits(n, base, n);
    if n < base {
      SmallQuotient(n, base);
    } else {
      BigQuotient(n, base);
    }
  }

  lemma MoreReversed(front: Text, was: Text, d: Byte)
    ensures front + [d] + Reversed(was) == front + Reversed(was + [d])
  {
    assert (was + [d])[..|was|] == was;
  }

  lemma NothingReversed(s: Text)
    requires |s| == 0
    ensures Reversed(s) == []
  {
  }

  lemma SmallQuotient(u: nat, base: nat)
    requires u < base
    ensures u / base == 0 && u % base == u
  {
  }

  lemma BigQuotient(u: nat, base: nat)
    requires 0 < base <= u
    ensures 0 < u / base
  {
  }

  lemma PowersOfTwo()
    ensures Pow2(32) == WORD_LIMIT
  {
    assert Pow2(8) == 256;
    assert Pow2(16) == 65536;
    assert Pow2(24) == 16777216;
  }

  lemma FitsBuffer(u: nat, base: nat, small: bool)
    requires 2 <= base <= 36 && u < WORD_LIMIT
    ensures |Digits(u, base, small)| <= 32
  {
    PowersOfTwo();
    hide Pow2;
    DigitsFit(u, base, small, 31);
  }

  method Number(str: Text, num: int, base: int, width: int, digits: int, f: Flags) returns (r: Option<Text>)
    requires -0x8000_0000 <= num < 0x8000_0000
    ensures base < 2 || base > 36 ==> r == None
    ensures 2 <= base <= 36 ==> r == Some(str + Formatted(num, base, width, digits, f))
  {
    hide Digits, Fill, Layout, Magnitude;
    if base < 2 || base > 36 {
      return None;
    }
    var size, precision := width, digits;
    var zeropad := f.zeropad && !f.left;
    var sign := SignText(num, f);
    var u := Magnitude(num, f.sign);
    if sign != [] {
      size := size - 1;
    }
    if f.special {
      if base == 16 {
        size := size - 2;
      } else if base == 8 {
        size := size - 1;
      }
    }
    var tmp := new Byte[36];
    var i := Convert(u, base, f.small, tmp);
    if i > precision {
      precision := i;
    }
    size := size - precision;
    var prefix := [];
    if f.special {
      if base == 8 {
        prefix := [ZERO];
      } else if base == 16 {
        prefix := [ZERO, DigitChar(33, f.small)];
      }
    }
    assert prefix == Prefix(base, f);
    var out := Emit(str, sign, prefix, tmp, i, precision - i, size, f);
    r := Some(out);
  }

  /** The loops that write spaces, sign, prefix, zeros, digits and spaces. */
  method Emit(str: Text, sign: Text, prefix: Text, tmp: array<Byte>, i: nat, zeros: int, room: int, f: Flags) returns (r: Text)
    requires i <= tmp.Length
    ensures r == str + Layout(sign + prefix, Fill(ZERO, zeros) + Reversed(tmp[..i]), room, f)
  {
    hide Fill, Reversed;
    NothingFilled();
    var size := room;
    r := str;
    if !f.zeropad && !f.left {
      r, size := Pad(r, SPACE, size);
    }
    ghost var pad1 := if !f.zeropad && !f.left then Fill(SPACE, room) else [];
    assert r == str + pad1;
    r := r + sign + prefix;
    if !f.left {
      r, size := Pad(r, if f.zeropad && !f.left then ZERO else SPACE, size);
    }
    ghost var pad2 := if f.zeropad && !f.left then Fill(ZERO, room) else [];
    assert r == str + pad1 + sign + prefix + pad2;
    var left;
    r, left := Pad(r, ZERO, zeros);
    r := Drain(r, tmp, i);
    ghost var body := Fill(ZERO, zeros) + Reversed(tmp[..i]);
    assert r == str + pad1 + sign + prefix + pad2 + body;
    r, size := Pad(r, SPACE, size);
    ghost var pad3 := if f.left then Fill(SPACE, room) else [];
    assert r == str + pad1 + sign + prefix + pad2 + body + pad3;
    Regroup(str, pad1, sign, prefix, pad2, body, pad3);
    assert pad1 + (sign + prefix) + pad2 + body + pad3 == Layout(sign + prefix, body, room, f);
  }

  lemma NothingFilled()
    ensures forall c: Byte, n: int :: n <= 0 ==> Fill(c, n) == []
  {
  }

  lemma Regroup(a: Text, b: Text, c: Text, d: Text, e: Text, g: Text, h: Text)
    ensures a + b + c + d + e + g + h == a + (b + (c + d) + e + g + h)
  {
  }

  /** Writes the digits collected in the buffer, the last one first. */
  method Drain(str: Text, tmp: array<Byte>, n: nat) returns (r: Text)
    requires n <= tmp.Length
    ensures r == str + Reversed(tmp[..n])
  {
    r := str;
    var i: nat := n;
    while i > 0
      invariant i <= n && r + Reversed(tmp[..i]) == str + Reversed(tmp[..n])
    {
      i := i - 1;
      assert tmp[..i + 1][..i] == tmp[..i];
      assert r + Reversed(tmp[..i + 1]) == r + [tmp[i]] + Reversed(tmp[..i]);
      r := r + [tmp[i]];
    }
  }
}

/**
  atoi: the number without a bound, as the terminal is modelled with (src/drivers/tty/tty.c), and in the 32 bits
  of an int, as the C library returns it (usr/libc/stdlib.c).
 */
module Decimal {

  import opened Bytes

  predicate IsDigit(c: Byte)
  {
    0x30 <= c < 0x3A
  }

  /** Digits make up the number; anything between them is skipped. */
  function Atoi(s: seq<Byte>): nat
  {
    if s == [] then 0
    else
      var last := s[|s| - 1];
      var front := Atoi(s[..|s| - 1]);
      if IsDigit(last) then 10 * front + (last - 0x30) else front
  }

  method AtoiOf(s: seq<Byte>) returns (n: nat)
    ensures n == Atoi(s)
  {
    n := 0;
    var i := 0;
    while i < |s|
      invariant 0 <= i <= |s| && n == Atoi(s[..i])
    {
      assert s[..i + 1][..i] == s[..i];
      if IsDigit(s[i]) {
        n := 10 * n + (s[i] - 0x30);
      }
      i := i + 1;
    }
    assert s[..i] == s;
  }

  /** The signed integer that a 32-bit word stands for. */
  function AsSigned(word: nat): (r: int)
    requires word < WORD_LIMIT
    ensures -0x8000_0000 <= r < 0x8000_0000
  {
    if word < 0x8000_0000 then word else word - WORD_LIMIT
  }

  /** What is left of an integer in an int, which wraps. */
  function IntOf(n: int): (r: int)
    ensures -0x8000_0000 <= r < 0x8000_0000
    ensures r == n <==> -0x8000_0000 <= n < 0x8000_0000
  {
    AsSigned(n % 0x1_0000_0000)
  }

  /** The result is kept in an int at every step, which comes to the same as wrapping at the end. */
  lemma WrapStep(n: int, d: int)
    ensures IntOf(10 * IntOf(n) + d) == IntOf(10 * n + d)
  {
    var k: int := (n - IntOf(n)) / 0x1_0000_0000;
    assert n == IntOf(n) + 0x1_0000_0000 * k;
    assert 10 * n + d == 10 * IntOf(n) + d + 0x1_0000_0000 * (10 * k);
  }

  method AtoiInt(s: seq<Byte>) returns (res: int)
    ensures res == IntOf(Atoi(s))
  {
    hide IntOf;
    res := 0;
    var i := 0;
    while i < |s|
      invariant 0 <= i <= |s| && res == IntOf(Atoi(s[..i]))
    {
      assert s[..i + 1][..i] == s[..i];
      if IsDigit(s[i]) {
        WrapStep(Atoi(s[..i]), s[i] - 0x30);
        res := IntOf(10 * res + (s[i] - 0x30));
      }
      i := i + 1;
    }
    assert s[..i] == s;
  }
}

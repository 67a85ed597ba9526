/** Raw memory: bytes, little-endian 32-bit words and NUL-terminated strings. */
module Bytes {

  type Byte = b: int | 0 <= b < 256

  const WORD_LIMIT: int := 0x1_0000_0000

  function Word(b0: int, b1: int, b2: int, b3: int): int
  {
    b0 + 0x100 * b1 + 0x1_0000 * b2 + 0x100_0000 * b3
  }

  function U32(buf: seq<Byte>, at: int): (r: nat)
    ensures r < WORD_LIMIT
  {
    if 0 <= at && at + 4 <= |buf| then Word(buf[at], buf[at + 1], buf[at + 2], buf[at + 3]) else 0
  }

  function LE(v: nat): (r: seq<Byte>)
    ensures |r| == 4
  {
    var a := v / 256;
    var b := a / 256;
    [v % 256, a % 256, b % 256, b / 256 % 256]
  }

  function Put(buf: seq<Byte>, at: nat, s: seq<Byte>): (r: seq<Byte>)
    requires at + |s| <= |buf|
    ensures |r| == |buf| && r[at..at + |s|] == s
    ensures forall i :: 0 <= i < at || at + |s| <= i < |buf| ==> r[i] == buf[i]
  {
    buf[..at] + s + buf[at + |s|..]
  }

  /** Words come back as they were written. */
  lemma WordRoundTrip(v: nat)
    requires v < WORD_LIMIT
    ensures U32(LE(v), 0) == v
  {
    var a := v / 256;
    var b := a / 256;
    var c := b / 256;
    assert v == 256 * a + v % 256 && a == 256 * b + a % 256 && b == 256 * c + b % 256;
    assert c < 256;
    var w := LE(v);
    assert w[0] == v % 256 && w[1] == a % 256 && w[2] == b % 256 && w[3] == c % 256 == c;
  }

  /** A word depends on its own four bytes only. */
  lemma WordOf(buf: seq<Byte>, at: nat, v: nat)
    requires v < WORD_LIMIT && at + 4 <= |buf| && buf[at..at + 4] == LE(v)
    ensures U32(buf, at) == v
  {
    WordRoundTrip(v);
    var w := buf[at..at + 4];
    assert w[0] == buf[at] && w[1] == buf[at + 1] && w[2] == buf[at + 2] && w[3] == buf[at + 3];
  }

  /** The same inside a larger structure that has just been written. */
  lemma WordIn(buf: seq<Byte>, at: nat, s: seq<Byte>, k: nat, v: nat)
    requires v < WORD_LIMIT && at + |s| <= |buf| && k + 4 <= |s| && s[k..k + 4] == LE(v)
    ensures U32(Put(buf, at, s), at + k) == v
  {
    var r := Put(buf, at, s);
    assert r[at + k..at + k + 4] == r[at..at + |s|][k..k + 4];
    WordOf(r, at + k, v);
  }

  /** buf' holds what buf holds at [lo, hi), and is no shorter. */
  ghost predicate Same(buf: seq<Byte>, buf': seq<Byte>, lo: int, hi: int)
  {
    |buf| <= |buf'| && forall i :: 0 <= i < |buf| && lo <= i < hi ==> buf[i] == buf'[i]
  }

  ghost predicate NulFree(s: seq<Byte>)
  {
    forall i :: 0 <= i < |s| ==> s[i] != 0
  }

  /** The string that starts at at: everything up to the first NUL. */
  function CString(buf: seq<Byte>, at: int): (r: seq<Byte>)
    ensures NulFree(r)
    decreases |buf| - at
  {
    if 0 <= at < |buf| && buf[at] != 0 then [buf[at]] + CString(buf, at + 1) else []
  }

  /** s and a NUL stand at at. */
  ghost predicate StringAt(buf: seq<Byte>, at: int, s: seq<Byte>)
  {
    && 0 <= at && at + |s| < |buf| && NulFree(s)
    && (forall i :: 0 <= i < |s| ==> buf[at + i] == s[i]) && buf[at + |s|] == 0
  }

  lemma WordFrame(buf: seq<Byte>, buf': seq<Byte>, at: nat)
    requires at + 4 <= |buf| && Same(buf, buf', at, at + 4)
    ensures at + 4 <= |buf'| && U32(buf', at) == U32(buf, at)
  {
    assert buf[at] == buf'[at] && buf[at + 1] == buf'[at + 1] && buf[at + 2] == buf'[at + 2] && buf[at + 3] == buf'[at + 3];
  }

  lemma StringFrame(buf: seq<Byte>, buf': seq<Byte>, at: nat, s: seq<Byte>)
    requires StringAt(buf, at, s) && Same(buf, buf', at, at + |s| + 1)
    ensures StringAt(buf', at, s)
  {
    assert buf[at + |s|] == buf'[at + |s|];
    forall i | 0 <= i < |s|
      ensures buf'[at + i] == s[i]
    {
      assert buf[at + i] == buf'[at + i];
    }
  }

  lemma {:induction false} CStringOf(buf: seq<Byte>, at: nat, s: seq<Byte>)
    requires StringAt(buf, at, s)
    ensures CString(buf, at) == s
    decreases |s|
  {
    if s == [] {
    } else {
      assert buf[at] == buf[at + 0] == s[0];
      forall i | 0 <= i < |s| - 1
        ensures buf[at + 1 + i] == s[1..][i]
      {
        assert buf[at + (i + 1)] == s[i + 1];
      }
      CStringOf(buf, at + 1, s[1..]);
    }
  }
}

/**
  The first stack of a program (src/fs/exec.c): strings and pointers written downwards into raw memory, and read
  back the way the program's start code does (usr/crt0.S).
 */
module ExecStack {

  import opened Bytes
  import opened Options

  type Strings = seq<seq<Byte>>

  ghost predicate AllStrings(vec: Strings)
  {
    forall i :: 0 <= i < |vec| ==> NulFree(vec[i])
  }

  /** Bytes that strings i and up take, with their NULs. */
  function Tail(vec: Strings, i: nat): (r: nat)
    requires i <= |vec|
    decreases |vec| - i
  {
    if i == |vec| then 0 else |vec[i]| + 1 + Tail(vec, i + 1)
  }

  /** Strings, pointers and the null pointer behind them. */
  function VectorSize(vec: Strings): nat
  {
    Tail(vec, 0) + 4 * (|vec| + 1)
  }

  lemma {:induction false} TailFalls(vec: Strings, i: nat, j: nat)
    requires i <= j <= |vec|
    ensures Tail(vec, j) <= Tail(vec, i)
    ensures i < j ==> Tail(vec, j) + |vec[i]| + 1 <= Tail(vec, i)
    decreases j - i
  {
    if i < j {
      TailFalls(vec, i + 1, j);
    }
  }

  // ---- What stands in memory ----------------------------------------------
  // Byte a of the address space is m[a - base].

  /** Strings i and up stand below top, the last one highest. */
  ghost predicate StringsAt(m: seq<Byte>, base: nat, vec: Strings, top: nat, i: nat)
  {
    forall k :: i <= k < |vec| ==> StringAt(m, top - Tail(vec, k) - base, vec[k])
  }

  /** Pointers i and up stand from at on, with a null pointer behind the last. */
  ghost predicate PointersAt(m: seq<Byte>, base: nat, vec: Strings, top: nat, at: nat, i: nat)
  {
    && (forall k :: i <= k < |vec| ==> U32(m, at + 4 * k - base) == top - Tail(vec, k))
    && U32(m, at + 4 * |vec| - base) == 0
  }

  /** The vector whose pointers start at address at, and whose strings end below top. */
  ghost predicate VectorAt(m: seq<Byte>, base: nat, vec: Strings, top: nat, at: nat)
  {
    && 0 < base <= at && at + VectorSize(vec) == top && top - base <= |m| && top < WORD_LIMIT
    && StringsAt(m, base, vec, top, 0) && PointersAt(m, base, vec, top, at, 0)
  }

  lemma StringsFrame(m: seq<Byte>, m': seq<Byte>, base: nat, vec: Strings, top: nat, i: nat)
    requires i <= |vec| && StringsAt(m, base, vec, top, i) && base + Tail(vec, i) <= top
    requires Same(m, m', top - Tail(vec, i) - base, top - base)
    ensures StringsAt(m', base, vec, top, i)
  {
    forall k | i <= k < |vec|
      ensures StringAt(m', top - Tail(vec, k) - base, vec[k])
    {
      TailFalls(vec, i, k);
      TailFalls(vec, k, k + 1);
      StringFrame(m, m', top - Tail(vec, k) - base, vec[k]);
    }
  }

  lemma PointersFrame(m: seq<Byte>, m': seq<Byte>, base: nat, vec: Strings, top: nat, at: nat, i: nat)
    requires i <= |vec| && base <= at + 4 * i && at + 4 * (|vec| + 1) - base <= |m|
    requires PointersAt(m, base, vec, top, at, i)
    requires Same(m, m', at + 4 * i - base, at + 4 * (|vec| + 1) - base)
    ensures PointersAt(m', base, vec, top, at, i)
  {
    WordFrame(m, m', at + 4 * |vec| - base);
    forall k | i <= k < |vec|
      ensures U32(m', at + 4 * k - base) == top - Tail(vec, k)
    {
      WordFrame(m, m', at + 4 * k - base);
    }
  }

  lemma NoStrings(m: seq<Byte>, base: nat, vec: Strings, top: nat)
    ensures StringsAt(m, base, vec, top, |vec|)
  {
  }

  lemma OneString(m: seq<Byte>, base: nat, vec: Strings, top: nat, i: nat)
    requires i < |vec| && StringsAt(m, base, vec, top, i + 1) && StringAt(m, top - Tail(vec, i) - base, vec[i])
    ensures StringsAt(m, base, vec, top, i)
  {
  }

  lemma NoPointers(m: seq<Byte>, base: nat, vec: Strings, top: nat, at: nat)
    requires U32(m, at + 4 * |vec| - base) == 0
    ensures PointersAt(m, base, vec, top, at, |vec|)
  {
  }

  lemma OnePointer(m: seq<Byte>, base: nat, vec: Strings, top: nat, at: nat, i: nat)
    requires i < |vec| && PointersAt(m, base, vec, top, at, i + 1) && U32(m, at + 4 * i - base) == top - Tail(vec, i)
    ensures PointersAt(m, base, vec, top, at, i)
  {
  }

  /** A vector is not disturbed by what is written below it. */
  lemma VectorFrame(m: seq<Byte>, m': seq<Byte>, base: nat, vec: Strings, top: nat, at: nat)
    requires VectorAt(m, base, vec, top, at) && Same(m, m', at - base, top - base)
    ensures VectorAt(m', base, vec, top, at)
  {
    StringsFrame(m, m', base, vec, top, 0);
    PointersFrame(m, m', base, vec, top, at, 0);
  }

  // ---- Writing ------------------------------------------------------------

  class UserStack {
    const base: nat
    const mem: array<Byte>

    constructor (at: nat, size: nat)
      requires 0 < at && at + size < WORD_LIMIT
      ensures base == at && mem.Length == size && fresh(mem)
    {
      base := at;
      mem := new Byte[size];
    }

    ghost predicate InUse(top: nat, size: nat)
    {
      0 < base && base + size <= top <= base + mem.Length < WORD_LIMIT
    }

    method Store(at: nat, s: seq<Byte>)
      requires base <= at && at - base + |s| <= mem.Length
      modifies mem
      ensures mem[..] == Put(old(mem[..]), at - base, s)
    {
      ghost var was := mem[..];
      var i := 0;
      while i < |s|
        invariant 0 <= i <= |s|
        invariant forall k :: 0 <= k < mem.Length ==> mem[k] == if at - base <= k < at - base + i then s[k - (at - base)] else was[k]
      {
        mem[at - base + i] := s[i];
        i := i + 1;
      }
      assert mem[..] == Put(was, at - base, s);
    }

    /** strncpy with room for the NUL. */
    method StoreString(at: nat, s: seq<Byte>)
      requires base <= at && at - base + |s| + 1 <= mem.Length && NulFree(s)
      modifies mem
      ensures StringAt(mem[..], at - base, s)
      ensures Same(old(mem[..]), mem[..], 0, at - base) && Same(old(mem[..]), mem[..], at - base + |s| + 1, mem.Length)
    {
      Store(at, s + [0]);
      PutString(old(mem[..]), at - base, s);
    }

    method StoreWord(at: nat, v: nat)
      requires base <= at && at - base + 4 <= mem.Length && v < WORD_LIMIT
      modifies mem
      ensures U32(mem[..], at - base) == v
      ensures Same(old(mem[..]), mem[..], 0, at - base) && Same(old(mem[..]), mem[..], at - base + 4, mem.Length)
    {
      WordIn(mem[..], at - base, LE(v), 0, v);
      Store(at, LE(v));
    }

    /** The strings, from the last one down. */
    method WriteStrings(vec: Strings, top: nat) returns (buf: nat)
      requires AllStrings(vec) && InUse(top, Tail(vec, 0))
      modifies mem
      ensures buf == top - Tail(vec, 0) && StringsAt(mem[..], base, vec, top, 0)
      ensures Same(old(mem[..]), mem[..], top - base, mem.Length)
    {
      hide StringsAt, StringAt;
      buf := top;
      NoStrings(mem[..], base, vec, top);
      var i: nat := |vec|;
      while i > 0
        invariant 0 <= i <= |vec| && buf == top - Tail(vec, i) && base <= buf
        invariant StringsAt(mem[..], base, vec, top, i)
        invariant Same(old(mem[..]), mem[..], top - base, mem.Length)
      {
        i := i - 1;
        TailFalls(vec, 0, i);
        ghost var was := mem[..];
        buf := buf - (|vec[i]| + 1);
        StoreString(buf, vec[i]);
        StringsFrame(was, mem[..], base, vec, top, i + 1);
        OneString(mem[..], base, vec, top, i);
      }
    }

    /** The pointers to them, from the last one down. */
    method WritePointers(vec: Strings, top: nat, end: nat) returns (buf: nat)
      requires InUse(top, 0) && base + VectorSize(vec) <= top && end == top - Tail(vec, 0)
      requires StringsAt(mem[..], base, vec, top, 0)
      modifies mem
      ensures buf == end - 4 * (|vec| + 1) && PointersAt(mem[..], base, vec, top, buf, 0)
      ensures StringsAt(mem[..], base, vec, top, 0) && Same(old(mem[..]), mem[..], top - base, mem.Length)
    {
      hide StringsAt, PointersAt, U32;
      var oldbuf := top;
      ghost var at, was := end - 4 * (|vec| + 1), mem[..];
      buf := end - 4;
      StoreWord(buf, 0);
      StringsFrame(was, mem[..], base, vec, top, 0);
      NoPointers(mem[..], base, vec, top, at);
      var i: nat := |vec|;
      while i > 0
        invariant 0 <= i <= |vec| && oldbuf == top - Tail(vec, i) && buf == at + 4 * i && base <= at
        invariant StringsAt(mem[..], base, vec, top, 0) && PointersAt(mem[..], base, vec, top, at, i)
        invariant Same(old(mem[..]), mem[..], top - base, mem.Length)
      {
        i := i - 1;
        TailFalls(vec, 0, i);
        was := mem[..];
        oldbuf := oldbuf - (|vec[i]| + 1);
        buf := buf - 4;
        StoreWord(buf, oldbuf);
        StringsFrame(was, mem[..], base, vec, top, 0);
        PointersFrame(was, mem[..], base, vec, top, at, i + 1);
        OnePointer(mem[..], base, vec, top, at, i);
      }
    }

    /** A missing vector is not written. */
    method WriteVector(vec: Option<Strings>, top: nat) returns (buf: nat)
      requires vec.Some? ==> AllStrings(vec.value) && InUse(top, VectorSize(vec.value))
      modifies mem
      ensures vec.None? ==> buf == 0 && mem[..] == old(mem[..])
      ensures vec.Some? ==> VectorAt(mem[..], base, vec.value, top, buf) && Same(old(mem[..]), mem[..], top - base, mem.Length)
    {
      if vec.None? {
        return 0;
      }
      buf := WriteStrings(vec.value, top);
      buf := WritePointers(vec.value, top, buf);
    }

    /** argc, argv and envp at the returned address, everything they point to above it. */
    method MakeNewStack(argv: Strings, envp: Option<Strings>, pos: nat) returns (esp: nat)
      requires AllStrings(argv) && (envp.Some? ==> AllStrings(envp.value)) && |argv| < WORD_LIMIT
      requires InUse(pos, VectorSize(argv) + (if envp.Some? then VectorSize(envp.value) else 0) + 12)
      modifies mem
      ensures base <= esp && Crt0(mem[..], base, esp) == Some((|argv|, argv, envp))
    {
      hide VectorAt, ReadVector;
      esp := pos;
      var envs := WriteVector(envp, esp);
      if envs != 0 {
        esp := envs;
      }
      VectorRoom(mem[..], base, envp, pos, envs);
      ghost var m1, top := mem[..], esp;
      var args := WriteVector(Some(argv), esp);
      ghost var m2 := mem[..];
      VectorRoom(m2, base, Some(argv), top, args);
      esp := args;
      esp := esp - 12;
      StoreHeader(esp, |argv|, args, envs);
      VectorFrame(m2, mem[..], base, argv, top, args);
      VectorReads(mem[..], base, argv, top, args);
      if envp.Some? {
        VectorFrame(m1, mem[..], base, envp.value, pos, envs);
        VectorReads(mem[..], base, envp.value, pos, envs);
      }
    }

    /** The three words on top of the stack. */
    method StoreHeader(esp: nat, argc: nat, args: nat, envs: nat)
      requires base <= esp && esp - base + 12 <= mem.Length && argc < WORD_LIMIT && args < WORD_LIMIT && envs < WORD_LIMIT
      modifies mem
      ensures U32(mem[..], esp - base) == argc && U32(mem[..], esp + 4 - base) == args && U32(mem[..], esp + 8 - base) == envs
      ensures Same(old(mem[..]), mem[..], esp + 12 - base, mem.Length)
    {
      hide U32;
      StoreWord(esp, argc);
      ghost var m1 := mem[..];
      StoreWord(esp + 4, args);
      WordFrame(m1, mem[..], esp - base);
      ghost var m2 := mem[..];
      StoreWord(esp + 8, envs);
      WordFrame(m2, mem[..], esp - base);
      WordFrame(m2, mem[..], esp + 4 - base);
    }
  }

  lemma VectorRoom(m: seq<Byte>, base: nat, vec: Option<Strings>, top: nat, at: nat)
    requires vec.Some? ==> VectorAt(m, base, vec.value, top, at)
    requires vec.None? ==> at == 0
    ensures vec.Some? ==> 0 < base <= at && at + VectorSize(vec.value) == top < WORD_LIMIT
    ensures vec.Some? <==> at != 0
  {
  }

  lemma PutString(m: seq<Byte>, at: nat, s: seq<Byte>)
    requires at + |s| + 1 <= |m| && NulFree(s)
    ensures StringAt(Put(m, at, s + [0]), at, s)
  {
    var r := Put(m, at, s + [0]);
    var part := r[at..at + |s| + 1];
    forall i | 0 <= i <= |s|
      ensures r[at + i] == part[i] == (s + [0])[i]
    {
    }
  }

  // ---- Reading ------------------------------------------------------------

  /** The strings behind the pointers from at on, up to the null pointer; None when memory ends before it. */
  function ReadVector(m: seq<Byte>, base: nat, at: nat): Option<Strings>
    decreases base + |m| - at
  {
    if at < base || at + 4 > base + |m| then None
    else
      var p := U32(m, at - base);
      if p == 0 then Some([])
      else match ReadVector(m, base, at + 4)
        case None => None
        case Some(rest) => Some([CString(m, p - base)] + rest)
  }

  /** What main gets: argc, argv, envp. */
  function Crt0(m: seq<Byte>, base: nat, esp: nat): Option<(nat, Strings, Option<Strings>)>
    requires base <= esp
  {
    var argc, argv, envp := U32(m, esp - base), U32(m, esp + 4 - base), U32(m, esp + 8 - base);
    match ReadVector(m, base, argv)
    case None => None
    case Some(args) =>
      if envp == 0 then Some((argc, args, None))
      else match ReadVector(m, base, envp)
        case None => None
        case Some(envs) => Some((argc, args, Some(envs)))
  }

  /** Pointer i leads to string i. */
  lemma PointerLeads(m: seq<Byte>, base: nat, vec: Strings, top: nat, at: nat, i: nat)
    requires VectorAt(m, base, vec, top, at) && i < |vec|
    ensures base <= at + 4 * i && at + 4 * i + 4 <= base + |m| && U32(m, at + 4 * i - base) != 0
    ensures base <= U32(m, at + 4 * i - base) && StringAt(m, U32(m, at + 4 * i - base) - base, vec[i])
  {
    hide U32, StringAt, Tail;
    TailFalls(vec, 0, i);
    assert U32(m, at + 4 * i - base) == top - Tail(vec, i);
  }

  lemma NullEnds(m: seq<Byte>, base: nat, vec: Strings, top: nat, at: nat)
    requires VectorAt(m, base, vec, top, at)
    ensures base <= at + 4 * |vec| && at + 4 * |vec| + 4 <= base + |m| && U32(m, at + 4 * |vec| - base) == 0
  {
  }

  /** A vector reads back as it was: every string, in order, and the null pointer where it ends. */
  lemma {:induction false} VectorReadsBack(m: seq<Byte>, base: nat, vec: Strings, top: nat, at: nat, i: nat)
    requires VectorAt(m, base, vec, top, at) && i <= |vec|
    ensures ReadVector(m, base, at + 4 * i) == Some(vec[i..])
    decreases |vec| - i
  {
    hide VectorAt, U32, StringAt, CString;
    if i == |vec| {
      NullEnds(m, base, vec, top, at);
      assert vec[i..] == [];
    } else {
      PointerLeads(m, base, vec, top, at, i);
      VectorReadsBack(m, base, vec, top, at, i + 1);
      CStringOf(m, U32(m, at + 4 * i - base) - base, vec[i]);
      assert vec[i..] == [vec[i]] + vec[i + 1..];
    }
  }

  lemma VectorReads(m: seq<Byte>, base: nat, vec: Strings, top: nat, at: nat)
    requires VectorAt(m, base, vec, top, at)
    ensures ReadVector(m, base, at) == Some(vec)
  {
    hide VectorAt, ReadVector;
    VectorReadsBack(m, base, vec, top, at, 0);
    assert vec[0..] == vec;
  }
}

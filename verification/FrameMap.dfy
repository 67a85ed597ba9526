/** The bitmap of page frames (src/mm/paging.c): word i, bit j stands for frame 32 * i + j. */
module FrameMap {

  /** A 32-bit word, lowest bit first. */
  type Word = w: seq<bool> | |w| == 32 witness seq(32, _ => false)

  const FULL_WORD: Word := seq(32, _ => true)

  /** What first_frame returns when every frame is taken. */
  const NO_FRAME: nat := 0xFFFF_FFFF

  predicate Used(fm: seq<Word>, f: nat)
    requires f < 32 * |fm|
  {
    fm[f / 32][f % 32]
  }

  /** framemap[f / 32] with bit f % 32 set or cleared. */
  function SetBit(fm: seq<Word>, f: nat, bit: bool): (r: seq<Word>)
    requires f < 32 * |fm|
    ensures |r| == |fm|
    ensures forall g: nat :: g < 32 * |fm| ==> Used(r, g) == if g == f then bit else Used(fm, g)
  {
    fm[f / 32 := fm[f / 32][f % 32 := bit]]
  }

  ghost function FreeFrames(fm: seq<Word>): (s: set<nat>)
    ensures forall f: nat :: f in s <==> f < 32 * |fm| && !Used(fm, f)
  {
    set f: nat | f < 32 * |fm| && !Used(fm, f)
  }

  ghost predicate IsFirstFree(fm: seq<Word>, f: nat)
  {
    f < 32 * |fm| && !Used(fm, f) && forall g: nat :: g < f ==> Used(fm, g)
  }

  /** The lowest free frame at or above f. */
  function FirstFree(fm: seq<Word>, f: nat): (r: nat)
    requires f <= 32 * |fm| <= NO_FRAME
    ensures r == NO_FRAME ==> forall g: nat :: f <= g < 32 * |fm| ==> Used(fm, g)
    ensures r != NO_FRAME ==> f <= r < 32 * |fm| && !Used(fm, r) && forall g: nat :: f <= g < r ==> Used(fm, g)
    decreases 32 * |fm| - f
  {
    if f == 32 * |fm| then NO_FRAME
    else if !Used(fm, f) then f
    else FirstFree(fm, f + 1)
  }

  lemma FirstFreeIsUnique(fm: seq<Word>, f: nat)
    requires 32 * |fm| <= NO_FRAME && IsFirstFree(fm, f)
    ensures FirstFree(fm, 0) == f
  {
  }

  /** Two bitmaps of one length that agree on every frame are the same words. */
  lemma SameBits(a: seq<Word>, b: seq<Word>)
    requires |a| == |b|
    requires forall f: nat :: f < 32 * |a| ==> Used(a, f) == Used(b, f)
    ensures a == b
  {
    forall i | 0 <= i < |a|
      ensures a[i] == b[i]
    {
      forall j | 0 <= j < 32
        ensures a[i][j] == b[i][j]
      {
        assert Used(a, 32 * i + j) == Used(b, 32 * i + j);
      }
    }
  }

  lemma TakeFrame(fm: seq<Word>, f: nat)
    requires f < 32 * |fm| && !Used(fm, f)
    ensures |FreeFrames(SetBit(fm, f, true))| == |FreeFrames(fm)| - 1
  {
    assert FreeFrames(SetBit(fm, f, true)) == FreeFrames(fm) - {f};
  }

  /** Scans the words, then the bits of the first word that is not full. */
  method FirstFrame(framemap: array<Word>) returns (r: nat)
    requires 32 * framemap.Length <= NO_FRAME
    ensures r == FirstFree(framemap[..], 0)
  {
    ghost var fm := framemap[..];
    for i := 0 to framemap.Length
      invariant forall g: nat :: g < 32 * i ==> Used(fm, g)
    {
      if framemap[i] != FULL_WORD {
        for j := 0 to 32
          invariant forall g: nat :: g < 32 * i + j ==> Used(fm, g)
        {
          if !framemap[i][j] {
            assert IsFirstFree(fm, 32 * i + j);
            FirstFreeIsUnique(fm, 32 * i + j);
            return 32 * i + j;
          }
          assert Used(fm, 32 * i + j);
        }
      }
      forall g: nat | 32 * i <= g < 32 * i + 32
        ensures Used(fm, g)
      {
        assert framemap[i] == FULL_WORD ==> fm[g / 32][g % 32];
      }
    }
    return NO_FRAME;
  }
}

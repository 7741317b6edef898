/**
 A 64-bit word as its bits, lowest first. The bitmaps of the kernel only ever set, clear
 and test single bits of a word, compare it with UINT64_MAX and count trailing zeros.
 */
module Bits {
  type Word = w: seq<bool> | |w| == 64 witness seq(64, _ => true)

  /** Bit b of a bitmap made of words. */
  predicate Test(bitmap: seq<Word>, b: nat)
    requires b < 64 * |bitmap|
  {
    bitmap[b / 64][b % 64]
  }

  /** UINT64_MAX, or a word filled with 0xFF bytes. */
  function AllOnes(): (w: Word) {
    seq(64, _ => true)
  }

  function Complement(w: Word): (r: Word) {
    seq(64, (k: nat) requires k < 64 => !w[k])
  }

  function CtzFrom(w: Word, k: nat): (r: nat)
    requires k < 64 && exists j :: k <= j < 64 && w[j]
    ensures k <= r < 64 && w[r]
    ensures forall j :: k <= j < r ==> !w[j]
    decreases 64 - k
  {
    if w[k] then k else CtzFrom(w, k + 1)
  }

  /** The position of the lowest set bit; like the builtin, undefined for zero. */
  function Ctz(w: Word): (r: nat)
    requires exists j :: 0 <= j < 64 && w[j]
    ensures r < 64 && w[r]
    ensures forall j :: 0 <= j < r ==> !w[j]
  {
    CtzFrom(w, 0)
  }

  lemma NotAllOnes(w: Word)
    requires w != AllOnes()
    ensures exists j :: 0 <= j < 64 && Complement(w)[j]
  {
    var j :| 0 <= j < 64 && !w[j];
    assert Complement(w)[j];
  }
}

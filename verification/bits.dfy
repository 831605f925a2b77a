/** 32-bit words (the u32 of MemStatusType and of bitset rooms), modelled bit
    by bit: bit i of a word is `w[i]`, bit 0 being the least significant.
    The word operations below are the ones the source applies to such words:
    `|`, `&`, `!`, `1 << i` and the comparison with 0. */
module Bits {

  const WORD_BITS: nat := 32

  type Word = w: seq<bool> | |w| == WORD_BITS witness seq(WORD_BITS, _ => false)

  /** `0u32`. */
  function Zero(): (w: Word)
    ensures forall j :: 0 <= j < WORD_BITS ==> !w[j]
  {
    seq(WORD_BITS, _ => false)
  }

  /** `!0u32`. */
  function AllOnes(): (w: Word)
    ensures forall j :: 0 <= j < WORD_BITS ==> w[j]
  {
    seq(WORD_BITS, _ => true)
  }

  /** `1u32 << i`: only bit `i` is set. */
  function Mask(i: nat): (m: Word)
    requires i < WORD_BITS
    ensures m[i] && forall j :: 0 <= j < WORD_BITS && j != i ==> !m[j]
  {
    seq(WORD_BITS, j => j == i)
  }

  /** `a | b`, bit by bit. */
  function Or(a: Word, b: Word): (r: Word)
    ensures forall j :: 0 <= j < WORD_BITS ==> r[j] == (a[j] || b[j])
  {
    seq(WORD_BITS, j requires 0 <= j < WORD_BITS => a[j] || b[j])
  }

  /** `a & b`, bit by bit. */
  function And(a: Word, b: Word): (r: Word)
    ensures forall j :: 0 <= j < WORD_BITS ==> r[j] == (a[j] && b[j])
  {
    seq(WORD_BITS, j requires 0 <= j < WORD_BITS => a[j] && b[j])
  }

  /** `!a`, bit by bit. */
  function Not(a: Word): (r: Word)
    ensures forall j :: 0 <= j < WORD_BITS ==> r[j] == !a[j]
  {
    seq(WORD_BITS, j requires 0 <= j < WORD_BITS => !a[j])
  }

  /** `a != 0`: some bit is set. */
  predicate NonZero(a: Word) {
    exists j :: 0 <= j < WORD_BITS && a[j]
  }

  /** Testing against a single-bit mask reads that bit: `a & (1 << i) != 0`
      holds exactly when bit `i` of `a` is set. */
  lemma TestMaskReadsBit(a: Word, i: nat)
    requires i < WORD_BITS
    ensures NonZero(And(a, Mask(i))) == a[i]
  {
    if a[i] {
      assert And(a, Mask(i))[i];
    }
  }

  /** A word with no bit set is the zero word. */
  lemma ZeroIffNoBit(a: Word)
    ensures !NonZero(a) <==> a == Zero()
  {
    if !NonZero(a) {
      assert forall j :: 0 <= j < WORD_BITS ==> a[j] == Zero()[j];
    }
  }
}

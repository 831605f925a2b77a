/** 256-bit bitsets (BitSet in regint.rs, with the whole-set utilities of
    regparse_types.rs): eight 32-bit rooms, position p in room `p >> 5` at bit
    `p & 31`. For the naturals used here `p >> 5` is `p / 32` and `p & 31` is
    `p % 32`. The source indexes the room array with `p >> 5`, which panics for
    p >= 256, so every position below is required to be under 256. */
module Bitset {
  import opened Bits

  const BITSET_REAL_SIZE: nat := 8
  const SINGLE_BYTE_SIZE: nat := 256

  type BitSet = s: seq<Word> | |s| == BITSET_REAL_SIZE
    witness seq(BITSET_REAL_SIZE, _ => Zero())

  /** The room holding position `pos` (`bs_room`). */
  function Room(pos: nat): (r: nat)
    requires pos < SINGLE_BYTE_SIZE
    ensures r < BITSET_REAL_SIZE
  {
    pos / 32
  }

  /** The mask of position `pos` within its room (`bs_bit`). */
  function Bit(pos: nat): (m: Word)
    requires pos < SINGLE_BYTE_SIZE
  {
    Mask(pos % 32)
  }

  /** Membership of `pos` (`bitset_at`). */
  predicate BitsetAt(bs: BitSet, pos: nat)
    requires pos < SINGLE_BYTE_SIZE
  {
    NonZero(And(bs[Room(pos)], Bit(pos)))
  }

  /** Two different positions in the same room have different bits. */
  lemma SameRoomDistinctBit(p: nat, q: nat)
    requires p < SINGLE_BYTE_SIZE && q < SINGLE_BYTE_SIZE
    requires p != q && Room(p) == Room(q)
    ensures p % 32 != q % 32
  {
  }

  function BitsetSetBit(bs: BitSet, pos: nat): (r: BitSet)
    requires pos < SINGLE_BYTE_SIZE
  {
    bs[Room(pos) := Or(bs[Room(pos)], Bit(pos))]
  }

  function BitsetClearBit(bs: BitSet, pos: nat): (r: BitSet)
    requires pos < SINGLE_BYTE_SIZE
  {
    bs[Room(pos) := And(bs[Room(pos)], Not(Bit(pos)))]
  }

  function BitsetInvertBit(bs: BitSet, pos: nat): (r: BitSet)
    requires pos < SINGLE_BYTE_SIZE
  {
    bs[Room(pos) := Xor(bs[Room(pos)], Bit(pos))]
  }

  /** `a ^ b`, bit by bit. */
  function Xor(a: Word, b: Word): (r: Word)
    ensures forall j :: 0 <= j < WORD_BITS ==> r[j] == (a[j] != b[j])
  {
    seq(WORD_BITS, j requires 0 <= j < WORD_BITS => a[j] != b[j])
  }

  /** Membership read bit by bit: position q is in `bs` iff its flat bit is set. */
  lemma {:induction false} BitsetAtAsBit(bs: BitSet, q: nat)
    requires q < SINGLE_BYTE_SIZE
    ensures BitsetAt(bs, q) == bs[q / 32][q % 32]
  {
    TestMaskReadsBit(bs[Room(q)], q % 32);
  }

  /** Setting a bit makes it a member and changes no other position. */
  lemma {:induction false} BitsetSetBitSpec(bs: BitSet, pos: nat, q: nat)
    requires pos < SINGLE_BYTE_SIZE && q < SINGLE_BYTE_SIZE
    ensures BitsetAt(BitsetSetBit(bs, pos), q) == (q == pos || BitsetAt(bs, q))
  {
    BitsetAtAsBit(bs, q);
    BitsetAtAsBit(BitsetSetBit(bs, pos), q);
    if q != pos && Room(q) == Room(pos) { SameRoomDistinctBit(pos, q); }
  }

  /** Clearing a bit removes it and changes no other position. */
  lemma {:induction false} BitsetClearBitSpec(bs: BitSet, pos: nat, q: nat)
    requires pos < SINGLE_BYTE_SIZE && q < SINGLE_BYTE_SIZE
    ensures BitsetAt(BitsetClearBit(bs, pos), q) == (q != pos && BitsetAt(bs, q))
  {
    BitsetAtAsBit(bs, q);
    BitsetAtAsBit(BitsetClearBit(bs, pos), q);
    if q != pos && Room(q) == Room(pos) { SameRoomDistinctBit(pos, q); }
  }

  /** Inverting a bit flips it and changes no other position. */
  lemma {:induction false} BitsetInvertBitSpec(bs: BitSet, pos: nat, q: nat)
    requires pos < SINGLE_BYTE_SIZE && q < SINGLE_BYTE_SIZE
    ensures BitsetAt(BitsetInvertBit(bs, pos), q) == (if q == pos then !BitsetAt(bs, q) else BitsetAt(bs, q))
  {
    BitsetAtAsBit(bs, q);
    BitsetAtAsBit(BitsetInvertBit(bs, pos), q);
    if q != pos && Room(q) == Room(pos) { SameRoomDistinctBit(pos, q); }
  }

  /** Inverting the same bit twice restores the bitset. */
  lemma {:induction false} BitsetInvertBitInvolution(bs: BitSet, pos: nat)
    requires pos < SINGLE_BYTE_SIZE
    ensures BitsetInvertBit(BitsetInvertBit(bs, pos), pos) == bs
  {
    var w := BitsetInvertBit(BitsetInvertBit(bs, pos), pos)[Room(pos)];
    assert w == bs[Room(pos)] by {
      assert forall j :: 0 <= j < WORD_BITS ==> w[j] == bs[Room(pos)][j];
    }
  }

  /** The cleared bitset (`bitset_clear`). */
  function BitsetClear(): (r: BitSet)
    ensures forall p :: 0 <= p < SINGLE_BYTE_SIZE ==> !BitsetAt(r, p)
  {
    var r: BitSet := seq(BITSET_REAL_SIZE, _ => Zero());
    forall p | 0 <= p < SINGLE_BYTE_SIZE ensures !BitsetAt(r, p) {
      BitsetAtAsBit(r, p);
    }
    r
  }

  // ---------------------------------------------------------------------------
  // Whole-set operations
  // ---------------------------------------------------------------------------

  /** Complements every room (`bitset_invert`; `bitset_invert_to` writes the
      same value to another set). */
  function BitsetInvert(bs: BitSet): (r: BitSet) {
    seq(BITSET_REAL_SIZE, i requires 0 <= i < BITSET_REAL_SIZE => Not(bs[i]))
  }

  /** The inverted set holds exactly the positions `bs` does not. */
  lemma {:induction false} BitsetInvertAt(bs: BitSet, p: nat)
    requires p < SINGLE_BYTE_SIZE
    ensures BitsetAt(BitsetInvert(bs), p) == !BitsetAt(bs, p)
  {
    BitsetAtAsBit(bs, p);
    BitsetAtAsBit(BitsetInvert(bs), p);
  }

  /** Inverting twice gives back the same set. */
  lemma {:induction false} BitsetInvertInvolution(bs: BitSet)
    ensures BitsetInvert(BitsetInvert(bs)) == bs
  {
    var r := BitsetInvert(BitsetInvert(bs));
    forall i | 0 <= i < BITSET_REAL_SIZE
      ensures r[i] == bs[i]
    {
      assert forall j :: 0 <= j < WORD_BITS ==> r[i][j] == bs[i][j];
    }
  }

  /** Intersection, room by room (`bitset_and`). */
  function BitsetAnd(dest: BitSet, src: BitSet): (r: BitSet) {
    seq(BITSET_REAL_SIZE, i requires 0 <= i < BITSET_REAL_SIZE => And(dest[i], src[i]))
  }

  /** A position is in the intersection iff it is in both sets. */
  lemma {:induction false} BitsetAndAt(dest: BitSet, src: BitSet, p: nat)
    requires p < SINGLE_BYTE_SIZE
    ensures BitsetAt(BitsetAnd(dest, src), p) == (BitsetAt(dest, p) && BitsetAt(src, p))
  {
    BitsetAtAsBit(dest, p);
    BitsetAtAsBit(src, p);
    BitsetAtAsBit(BitsetAnd(dest, src), p);
  }

  /** Union, room by room (`bitset_or`). */
  function BitsetOr(dest: BitSet, src: BitSet): (r: BitSet) {
    seq(BITSET_REAL_SIZE, i requires 0 <= i < BITSET_REAL_SIZE => Or(dest[i], src[i]))
  }

  /** A position is in the union iff it is in either set. */
  lemma {:induction false} BitsetOrAt(dest: BitSet, src: BitSet, p: nat)
    requires p < SINGLE_BYTE_SIZE
    ensures BitsetAt(BitsetOr(dest, src), p) == (BitsetAt(dest, p) || BitsetAt(src, p))
  {
    BitsetAtAsBit(dest, p);
    BitsetAtAsBit(src, p);
    BitsetAtAsBit(BitsetOr(dest, src), p);
  }

  /** Every room is the zero word (`bitset_is_empty`). */
  predicate BitsetIsEmpty(bs: BitSet) {
    forall i :: 0 <= i < BITSET_REAL_SIZE ==> bs[i] == Zero()
  }

  /** A bitset is empty iff it holds no position. */
  lemma {:induction false} BitsetIsEmptyIffNoMember(bs: BitSet)
    ensures BitsetIsEmpty(bs) <==> forall p :: 0 <= p < SINGLE_BYTE_SIZE ==> !BitsetAt(bs, p)
  {
    if BitsetIsEmpty(bs) {
      forall p | 0 <= p < SINGLE_BYTE_SIZE ensures !BitsetAt(bs, p) {
        BitsetAtAsBit(bs, p);
      }
    } else {
      var i :| 0 <= i < BITSET_REAL_SIZE && bs[i] != Zero();
      ZeroIffNoBit(bs[i]);
      var j :| 0 <= j < WORD_BITS && bs[i][j];
      BitsetAtAsBit(bs, i * 32 + j);
    }
  }

  /** Sets every position from `from` to `to` inclusive (`bitset_set_range`);
      nothing when `from > to`. A non-empty range must end below 256. */
  method BitsetSetRange(bs: BitSet, from: nat, to: nat) returns (r: BitSet)
    requires from > to || to < SINGLE_BYTE_SIZE
    ensures forall p :: 0 <= p < SINGLE_BYTE_SIZE ==> BitsetAt(r, p) == (BitsetAt(bs, p) || from <= p <= to)
  {
    r := bs;
    var i := from;
    while i <= to
      invariant from <= i && (i <= to + 1 || i == from)
      invariant forall p :: 0 <= p < SINGLE_BYTE_SIZE ==> BitsetAt(r, p) == (BitsetAt(bs, p) || from <= p < i)
    {
      var prev := r;
      r := BitsetSetBit(r, i);
      forall p | 0 <= p < SINGLE_BYTE_SIZE
        ensures BitsetAt(r, p) == (BitsetAt(bs, p) || from <= p < i + 1)
      {
        BitsetSetBitSpec(prev, i, p);
      }
      i := i + 1;
    }
  }
}

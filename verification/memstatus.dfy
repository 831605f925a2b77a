/** Capture-status masks (MemStatusType in regint.rs): one bit per capture
    group number below 32, with bit 0 standing for "all groups" when a group
    number does not fit in the word. */
module MemStatus {
  import opened Bits

  const MEM_STATUS_BITS_NUM: nat := 32


  function MemStatusClear(): (s: Word)
    ensures !NonZero(s)
  {
    Zero()
  }

  function MemStatusOnAll(): (s: Word)
    ensures forall i :: 0 <= i < WORD_BITS ==> s[i]
  {
    AllOnes()
  }

  /** Whether group `n` is marked: its own bit when it has one, bit 0 otherwise. */
  predicate MemStatusAt(stats: Word, n: nat) {
    if n < MEM_STATUS_BITS_NUM then NonZero(And(stats, Mask(n))) else NonZero(And(stats, Mask(0)))
  }

  /** Like MemStatusAt, but group 0 also reads bit 0. */
  predicate MemStatusAt0(stats: Word, n: nat) {
    if n > 0 && n < MEM_STATUS_BITS_NUM then NonZero(And(stats, Mask(n)))
    else NonZero(And(stats, Mask(0)))
  }

  /** Bit 0 means "every group". */
  predicate MemStatusIsAllOn(stats: Word) {
    NonZero(And(stats, Mask(0)))
  }

  /** Marks group `n`; group 0 is ignored and large groups set bit 0. */
  function MemStatusOn(stats: Word, n: nat): (r: Word) {
    if n < MEM_STATUS_BITS_NUM then (if n != 0 then Or(stats, Mask(n)) else stats)
    else Or(stats, Mask(0))
  }

  /** Marks group `n` when it has its own bit (group 0 included). */
  function MemStatusOnSimple(stats: Word, n: nat): (r: Word) {
    if n < MEM_STATUS_BITS_NUM then Or(stats, Mask(n)) else stats
  }

  /** Whether group `n` has its own bit and that bit is set. */
  predicate MemStatusLimitAt(stats: Word, n: nat) {
    if n < MEM_STATUS_BITS_NUM then NonZero(And(stats, Mask(n))) else false
  }

  /** Sets group `n`'s own bit, for 1 <= n < 32 only. */
  function MemStatusLimitOn(stats: Word, n: nat): (r: Word) {
    if n < MEM_STATUS_BITS_NUM && n != 0 then Or(stats, Mask(n)) else stats
  }

  /** Each reader in terms of the word's bits: a group with its own bit reads
      that bit, any other group reads bit 0 (and is never set for the bounded
      reader), and MemStatusAt0 reads bit 0 for group 0 as well. */
  lemma {:induction false} MemStatusReadersAsBits(stats: Word, n: nat)
    ensures MemStatusAt(stats, n) == if n < 32 then stats[n] else stats[0]
    ensures MemStatusAt0(stats, n) == if 0 < n < 32 then stats[n] else stats[0]
    ensures MemStatusLimitAt(stats, n) == (n < 32 && stats[n])
    ensures MemStatusIsAllOn(stats) == stats[0]
  {
    TestMaskReadsBit(stats, 0);
    if n < 32 { TestMaskReadsBit(stats, n); }
  }

  /** After MemStatusOn(s, n), group m reads as marked iff it was marked, or it
      is n itself (1 <= n < 32), or n overflowed into bit 0 and m reads bit 0. */
  lemma {:induction false} MemStatusOnThenAt(stats: Word, n: nat, m: nat)
    ensures MemStatusAt(MemStatusOn(stats, n), m)
      == (MemStatusAt(stats, m) || (1 <= n < 32 && m == n) || (n >= 32 && (m == 0 || m >= 32)))
  {
    MemStatusReadersAsBits(stats, m);
    MemStatusReadersAsBits(MemStatusOn(stats, n), m);
  }

  /** MemStatusLimitOn marks exactly group n among the bounded readings; in
      particular it never touches bit 0 (m == 0). */
  lemma {:induction false} MemStatusLimitOnThenAt(stats: Word, n: nat, m: nat)
    ensures MemStatusLimitAt(MemStatusLimitOn(stats, n), m)
      == (MemStatusLimitAt(stats, m) || (1 <= n < 32 && m == n))
  {
    MemStatusReadersAsBits(stats, m);
    MemStatusReadersAsBits(MemStatusLimitOn(stats, n), m);
  }

  /** MemStatusOnSimple marks exactly group n among the bounded readings. */
  lemma {:induction false} MemStatusOnSimpleThenAt(stats: Word, n: nat, m: nat)
    ensures MemStatusLimitAt(MemStatusOnSimple(stats, n), m)
      == (MemStatusLimitAt(stats, m) || (n < 32 && m == n))
  {
    MemStatusReadersAsBits(stats, m);
    MemStatusReadersAsBits(MemStatusOnSimple(stats, n), m);
  }
}

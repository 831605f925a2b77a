/** Multi-byte code-range buffers: the sorted list of code-point ranges a
    character class keeps for the code points its 256-bit set cannot hold
    (add_code_range_to_buf and add_code_range in src/regparse.rs), the byte
    layout that list is stored in, and the binary search the matcher runs over
    that layout (is_in_code_range in src/regexec.rs).

    The parser works on the decoded list; `Serialize` gives the bytes. The
    source writes each u32 in native byte order and reads it back the same
    way; the model fixes that order to least-significant byte first. */
module CodeRange {
  import opened Wrappers
  import opened Oniguruma

  /** An inclusive range of code points. */
  datatype Range = Range(lo: CodePoint, hi: CodePoint)

  /** Non-empty ranges in strictly increasing, pairwise disjoint order: the
      shape of every list the buffer operations build. Two ranges may be
      adjacent (one ending at c, the next starting at c + 1). */
  predicate ValidRanges(rs: seq<Range>) {
    && (forall i :: 0 <= i < |rs| ==> rs[i].lo <= rs[i].hi)
    && (forall i, j :: 0 <= i < j < |rs| ==> rs[i].hi < rs[j].lo)
  }

  /** Code point `c` lies in one of the ranges. */
  predicate InRanges(rs: seq<Range>, c: int) {
    exists i :: 0 <= i < |rs| && rs[i].lo <= c <= rs[i].hi
  }

  /** Some range overlaps [lo, hi] or starts right after `hi`: exactly the
      ranges an insertion of [lo, hi] absorbs. */
  predicate Touches(rs: seq<Range>, lo: int, hi: int) {
    exists i :: 0 <= i < |rs| && lo <= rs[i].hi && rs[i].lo <= hi + 1
  }

  lemma InRangesConcat(a: seq<Range>, b: seq<Range>, c: int)
    ensures InRanges(a + b, c) <==> InRanges(a, c) || InRanges(b, c)
  {
    if InRanges(a + b, c) {
      var i :| 0 <= i < |a + b| && (a + b)[i].lo <= c <= (a + b)[i].hi;
      if i >= |a| { assert b[i - |a|] == (a + b)[i]; }
    }
    if InRanges(a, c) {
      var i :| 0 <= i < |a| && a[i].lo <= c <= a[i].hi;
      assert (a + b)[i] == a[i];
    }
    if InRanges(b, c) {
      var i :| 0 <= i < |b| && b[i].lo <= c <= b[i].hi;
      assert (a + b)[|a| + i] == b[i];
    }
  }

  /** Three valid pieces in increasing order make a valid list. */
  lemma ValidConcat(a: seq<Range>, m: Range, b: seq<Range>)
    requires ValidRanges(a) && ValidRanges(b) && m.lo <= m.hi
    requires forall i :: 0 <= i < |a| ==> a[i].hi < m.lo
    requires forall j :: 0 <= j < |b| ==> m.hi < b[j].lo
    ensures ValidRanges(a + [m] + b)
  {
    var res := a + [m] + b;
    forall i, j | 0 <= i < j < |res|
      ensures res[i].hi < res[j].lo
    {
      if j < |a| {
      } else if j == |a| {
      } else if i < |a| {
        assert res[j] == b[j - |a| - 1];
        assert a[i].hi < m.lo <= m.hi < b[j - |a| - 1].lo;
      } else if i == |a| {
        assert res[j] == b[j - |a| - 1];
      } else {
        assert res[i] == b[i - |a| - 1] && res[j] == b[j - |a| - 1];
      }
    }
  }

  /** The facts the two binary searches of AddCodeRangeToBuf establish:
      ranges before `low` end before `lo`, ranges from `low` on reach `lo`,
      ranges in [low, high) start no later than hi + 1, and the rest start
      after it. */
  predicate SearchBounds(rs: seq<Range>, lo: int, hi: int, low: nat, high: nat) {
    && low <= high <= |rs|
    && (forall i :: 0 <= i < low ==> rs[i].hi < lo)
    && (forall i :: low <= i < |rs| ==> lo <= rs[i].hi)
    && (forall i :: low <= i < high ==> rs[i].lo <= hi + 1)
    && (forall i :: high <= i < |rs| ==> hi + 1 < rs[i].lo)
  }

  /** The range that replaces rs[low..high]: [lo, hi] widened to the ranges it
      absorbs. */
  function Merged(rs: seq<Range>, lo: CodePoint, hi: CodePoint, low: nat, high: nat): (m: Range)
    requires low <= high <= |rs|
  {
    if low == high then Range(lo, hi)
    else
      Range(if lo > rs[low].lo then rs[low].lo else lo,
            if hi < rs[high - 1].hi then rs[high - 1].hi else hi)
  }

  /** The merged range covers exactly [lo, hi] and the ranges it absorbs. */
  lemma MergedCovers(rs: seq<Range>, lo: CodePoint, hi: CodePoint, low: nat, high: nat, c: int)
    requires ValidRanges(rs) && lo <= hi && SearchBounds(rs, lo, hi, low, high)
    ensures var m := Merged(rs, lo, hi, low, high);
      (m.lo <= c <= m.hi) <==> (InRanges(rs[low..high], c) || lo <= c <= hi)
  {
    var m := Merged(rs, lo, hi, low, high);
    var mid := rs[low..high];
    if InRanges(mid, c) {
      var i :| 0 <= i < |mid| && mid[i].lo <= c <= mid[i].hi;
      assert mid[i] == rs[low + i];
      if i > 0 { assert rs[low].hi < rs[low + i].lo; }
      if low + i < high - 1 { assert rs[low + i].hi < rs[high - 1].lo; }
    }
    if m.lo <= c <= m.hi && !(lo <= c <= hi) {
      if c < lo {
        assert mid[0] == rs[low];
      } else {
        assert mid[high - 1 - low] == rs[high - 1];
      }
    }
  }

  /** The merged range fits between the ranges kept before and after it. */
  lemma MergeValid(rs: seq<Range>, lo: CodePoint, hi: CodePoint, low: nat, high: nat)
    requires ValidRanges(rs) && lo <= hi && SearchBounds(rs, lo, hi, low, high)
    ensures ValidRanges(rs[..low] + [Merged(rs, lo, hi, low, high)] + rs[high..])
  {
    var m := Merged(rs, lo, hi, low, high);
    var a, b := rs[..low], rs[high..];
    forall i | 0 <= i < |a| ensures a[i].hi < m.lo {
      assert a[i] == rs[i];
      if low < high { assert rs[i].hi < rs[low].lo; }
    }
    forall j | 0 <= j < |b| ensures m.hi < b[j].lo {
      assert b[j] == rs[high + j];
      if low < high { assert rs[high - 1].hi < rs[high + j].lo; }
    }
    forall i, j | 0 <= i < j < |a| ensures a[i].hi < a[j].lo {
      assert a[i] == rs[i] && a[j] == rs[j];
    }
    forall i, j | 0 <= i < j < |b| ensures b[i].hi < b[j].lo {
      assert b[i] == rs[high + i] && b[j] == rs[high + j];
    }
    ValidConcat(a, m, b);
  }

  /** The covered code points of the new list, one code point at a time. */
  lemma MergeCovers(rs: seq<Range>, lo: CodePoint, hi: CodePoint, low: nat, high: nat, c: int)
    requires ValidRanges(rs) && lo <= hi && SearchBounds(rs, lo, hi, low, high)
    ensures InRanges(rs[..low] + [Merged(rs, lo, hi, low, high)] + rs[high..], c)
      <==> InRanges(rs, c) || lo <= c <= hi
  {
    var m := Merged(rs, lo, hi, low, high);
    var a, mid, b := rs[..low], rs[low..high], rs[high..];
    assert rs == a + mid + b;
    InRangesConcat(a + [m], b, c);
    InRangesConcat(a, [m], c);
    InRangesConcat(a + mid, b, c);
    InRangesConcat(a, mid, c);
    MergedCovers(rs, lo, hi, low, high, c);
    assert InRanges([m], c) <==> m.lo <= c <= m.hi by {
      if m.lo <= c <= m.hi { assert [m][0] == m; }
    }
  }

  /** The searches leave a non-empty span exactly when some range touches
      [lo, hi]. */
  lemma SearchSpanTouches(rs: seq<Range>, lo: CodePoint, hi: CodePoint, low: nat, high: nat)
    requires SearchBounds(rs, lo, hi, low, high)
    ensures Touches(rs, lo, hi) <==> low < high
  {
    if Touches(rs, lo, hi) {
      var i :| 0 <= i < |rs| && lo <= rs[i].hi && rs[i].lo <= hi + 1;
      assert low <= i < high;
    }
    if low < high {
      assert lo <= rs[low].hi && rs[low].lo <= hi + 1;
    }
  }

  /** Inserting the merged range in place of rs[low..high] keeps the list
      valid and adds exactly [lo, hi] to the covered code points. */
  lemma MergeSpec(rs: seq<Range>, lo: CodePoint, hi: CodePoint, low: nat, high: nat)
    requires ValidRanges(rs) && lo <= hi && SearchBounds(rs, lo, hi, low, high)
    ensures var res := rs[..low] + [Merged(rs, lo, hi, low, high)] + rs[high..];
      && ValidRanges(res)
      && (forall c :: InRanges(res, c) <==> InRanges(rs, c) || lo <= c <= hi)
  {
    MergeValid(rs, lo, hi, low, high);
    forall c ensures InRanges(rs[..low] + [Merged(rs, lo, hi, low, high)] + rs[high..], c)
      <==> InRanges(rs, c) || lo <= c <= hi
    {
      MergeCovers(rs, lo, hi, low, high, c);
    }
  }

  /** The first range whose upper end reaches `lo` (the first binary search of
      add_code_range_to_buf). */
  method SearchLow(rs: seq<Range>, lo: CodePoint) returns (low: nat)
    ensures low <= |rs|
    ensures ValidRanges(rs) ==> (&& (forall i :: 0 <= i < low ==> rs[i].hi < lo)
                                 && (forall i :: low <= i < |rs| ==> lo <= rs[i].hi))
  {
    var bound := |rs|;
    low := 0;
    while low < bound
      invariant 0 <= low <= bound <= |rs|
      invariant ValidRanges(rs) ==> forall i :: 0 <= i < low ==> rs[i].hi < lo
      invariant ValidRanges(rs) ==> forall i :: bound <= i < |rs| ==> lo <= rs[i].hi
    {
      var x := (low + bound) / 2;
      if lo > rs[x].hi {
        low := x + 1;
      } else {
        bound := x;
      }
    }
  }

  /** The first range from `low` on that starts after hi + 1 (the second binary
      search); every range qualifies when `hi` is the largest u32. */
  method SearchHigh(rs: seq<Range>, hi: CodePoint, low: nat) returns (high: nat)
    requires low <= |rs|
    ensures low <= high <= |rs|
    ensures ValidRanges(rs) ==> (&& (forall i :: low <= i < high ==> rs[i].lo <= hi + 1)
                                 && (forall i :: high <= i < |rs| ==> hi + 1 < rs[i].lo))
  {
    high := if hi == U32_MAX then |rs| else low;
    var bound := |rs|;
    while high < bound
      invariant low <= high <= bound <= |rs|
      invariant ValidRanges(rs) ==> forall i :: low <= i < high ==> rs[i].lo <= hi + 1
      invariant ValidRanges(rs) ==> forall i :: bound <= i < |rs| ==> hi + 1 < rs[i].lo
    {
      var x := (high + bound) / 2;
      if hi + 1 >= rs[x].lo {
        high := x + 1;
      } else {
        bound := x;
      }
    }
  }

  /** Adds [from, to] (either order) to the range list (add_code_range_to_buf;
      an absent buffer is the empty list). Ranges that overlap the new one, or
      start right after it, are merged into it; a range ending right before
      it is kept separate. The list may hold at most
      MAX_MULTI_BYTE_RANGES_NUM ranges. */
  method AddCodeRangeToBuf(rs: seq<Range>, from: CodePoint, to: CodePoint) returns (r: Result<seq<Range>>)
    ensures r.Err? ==> r.code == ERR_TOO_MANY_MULTI_BYTE_RANGES && |rs| >= MAX_MULTI_BYTE_RANGES_NUM
    ensures r.Ok? ==> |r.value| <= MAX_MULTI_BYTE_RANGES_NUM && |r.value| <= |rs| + 1
    ensures var lo := if from <= to then from else to;
      var hi := if from <= to then to else from;
      && (ValidRanges(rs) && |rs| <= MAX_MULTI_BYTE_RANGES_NUM ==>
            (r.Err? <==> |rs| == MAX_MULTI_BYTE_RANGES_NUM && !Touches(rs, lo, hi)))
      && (ValidRanges(rs) && r.Ok? ==>
            (&& ValidRanges(r.value)
             && forall c :: InRanges(r.value, c) <==> InRanges(rs, c) || lo <= c <= hi))
  {
    var lo, hi := from, to;
    if lo > hi {
      lo, hi := to, from;
    }
    var n := |rs|;
    var low := SearchLow(rs, lo);
    var high := SearchHigh(rs, hi, low);
    if ValidRanges(rs) {
      SearchSpanTouches(rs, lo, hi, low, high);
    }

    var incN := low + 1 - high;
    if n + incN > MAX_MULTI_BYTE_RANGES_NUM {
      return Err(ERR_TOO_MANY_MULTI_BYTE_RANGES);
    }

    var newLo, newHi := lo, hi;
    if incN != 1 {
      if low < n && lo > rs[low].lo {
        newLo := rs[low].lo;
      }
      if high > 0 && high - 1 < n && hi < rs[high - 1].hi {
        newHi := rs[high - 1].hi;
      }
    }
    assert Range(newLo, newHi) == Merged(rs, lo, hi, low, high);
    r := Ok(rs[..low] + [Range(newLo, newHi)] + rs[high..]);
    if ValidRanges(rs) {
      MergeSpec(rs, lo, hi, low, high);
    }
  }

  /** Adds the class range [from, to] (add_code_range): a reversed range is
      ignored when the syntax allows empty ranges in a class and is an error
      otherwise. */
  method AddCodeRange(rs: seq<Range>, from: CodePoint, to: CodePoint, allowEmptyRange: bool)
    returns (r: Result<seq<Range>>)
    ensures from > to ==> r == if allowEmptyRange then Ok(rs) else Err(ERR_EMPTY_RANGE_IN_CHAR_CLASS)
    ensures r.Err? ==> r.code == ERR_EMPTY_RANGE_IN_CHAR_CLASS || r.code == ERR_TOO_MANY_MULTI_BYTE_RANGES
    ensures from <= to && ValidRanges(rs) && r.Ok? ==>
      (&& ValidRanges(r.value)
       && forall c :: InRanges(r.value, c) <==> InRanges(rs, c) || from <= c <= to)
  {
    if from > to {
      if allowEmptyRange {
        return Ok(rs);
      } else {
        return Err(ERR_EMPTY_RANGE_IN_CHAR_CLASS);
      }
    }
    r := AddCodeRangeToBuf(rs, from, to);
  }

  // ---------------------------------------------------------------------------
  // Byte layout: a u32 count n followed by n (from, to) pairs of u32
  // ---------------------------------------------------------------------------

  /** The four bytes of a u32, least significant first. */
  function U32Bytes(v: CodePoint): (b: seq<Byte>)
    ensures |b| == 4
  {
    var q1 := v / 256;
    var q2 := q1 / 256;
    [v % 256, q1 % 256, q2 % 256, q2 / 256]
  }

  /** The u32 stored at byte offset `off`. */
  function U32At(mb: seq<Byte>, off: nat): (v: CodePoint)
    requires off + 4 <= |mb|
  {
    var b0: int, b1: int, b2: int, b3: int := mb[off], mb[off + 1], mb[off + 2], mb[off + 3];
    b0 + 256 * b1 + 65536 * b2 + 16777216 * b3
  }

  lemma U32RoundTrip(v: CodePoint)
    ensures U32At(U32Bytes(v), 0) == v
  {
    var q1 := v / 256;
    var q2 := q1 / 256;
    assert v == v % 256 + 256 * q1;
    assert q1 == q1 % 256 + 256 * q2;
    assert q2 == q2 % 256 + 256 * (q2 / 256);
  }

  /** Reading inside the second part of a concatenation. */
  lemma U32AtShift(a: seq<Byte>, b: seq<Byte>, off: nat)
    requires off + 4 <= |b|
    ensures U32At(a + b, |a| + off) == U32At(b, off)
  {
    assert (a + b)[|a| + off..|a| + off + 4] == b[off..off + 4];
  }

  /** Reading inside the first part of a concatenation. */
  lemma U32AtPrefix(a: seq<Byte>, b: seq<Byte>, off: nat)
    requires off + 4 <= |a|
    ensures U32At(a + b, off) == U32At(a, off)
  {
  }

  /** The pairs, eight bytes per range. */
  function RangeBytes(rs: seq<Range>): (b: seq<Byte>)
    ensures |b| == 8 * |rs|
  {
    if rs == [] then [] else U32Bytes(rs[0].lo) + U32Bytes(rs[0].hi) + RangeBytes(rs[1..])
  }

  /** The whole buffer: the count, then the pairs. */
  function Serialize(rs: seq<Range>): (b: seq<Byte>)
    requires |rs| <= U32_MAX
    ensures |b| == 4 + 8 * |rs|
  {
    U32Bytes(|rs|) + RangeBytes(rs)
  }

  /** The `n` ranges a buffer holds, read from their offsets. */
  function TableRanges(mb: seq<Byte>, n: nat): (rs: seq<Range>)
    requires 4 + 8 * n <= |mb|
    ensures |rs| == n
  {
    seq(n, x requires 0 <= x < n => Range(U32At(mb, 4 + 8 * x), U32At(mb, 8 + 8 * x)))
  }

  lemma {:induction false} RangeBytesAt(rs: seq<Range>, x: nat)
    requires x < |rs|
    ensures U32At(RangeBytes(rs), 8 * x) == rs[x].lo
    ensures U32At(RangeBytes(rs), 8 * x + 4) == rs[x].hi
  {
    var head := U32Bytes(rs[0].lo) + U32Bytes(rs[0].hi);
    assert RangeBytes(rs) == head + RangeBytes(rs[1..]);
    if x == 0 {
      U32AtPrefix(U32Bytes(rs[0].lo), U32Bytes(rs[0].hi) + RangeBytes(rs[1..]), 0);
      assert RangeBytes(rs) == U32Bytes(rs[0].lo) + (U32Bytes(rs[0].hi) + RangeBytes(rs[1..]));
      U32RoundTrip(rs[0].lo);
      U32AtShift(U32Bytes(rs[0].lo), U32Bytes(rs[0].hi) + RangeBytes(rs[1..]), 0);
      U32AtPrefix(U32Bytes(rs[0].hi), RangeBytes(rs[1..]), 0);
      U32RoundTrip(rs[0].hi);
    } else {
      RangeBytesAt(rs[1..], x - 1);
      U32AtShift(head, RangeBytes(rs[1..]), 8 * (x - 1));
      U32AtShift(head, RangeBytes(rs[1..]), 8 * (x - 1) + 4);
    }
  }

  /** A serialized list reads back as its count and its ranges. */
  lemma SerializeReadBack(rs: seq<Range>)
    requires |rs| <= U32_MAX
    ensures U32At(Serialize(rs), 0) == |rs|
    ensures TableRanges(Serialize(rs), |rs|) == rs
  {
    U32AtPrefix(U32Bytes(|rs|), RangeBytes(rs), 0);
    U32RoundTrip(|rs|);
    forall x | 0 <= x < |rs|
      ensures TableRanges(Serialize(rs), |rs|)[x] == rs[x]
    {
      RangeBytesAt(rs, x);
      U32AtShift(U32Bytes(|rs|), RangeBytes(rs), 8 * x);
      U32AtShift(U32Bytes(|rs|), RangeBytes(rs), 8 * x + 4);
    }
  }

  /** In a valid list, the first range whose upper end reaches `code` is the
      only one that can hold it. */
  lemma FirstReachingRange(rs: seq<Range>, code: int, low: nat)
    requires ValidRanges(rs) && low <= |rs|
    requires forall i :: 0 <= i < low ==> rs[i].hi < code
    requires low < |rs| ==> code <= rs[low].hi
    ensures InRanges(rs, code) <==> low < |rs| && rs[low].lo <= code
  {
  }

  /** The binary search of is_in_code_range: the first of the buffer's `n`
      ranges whose upper end reaches `code`, or `n`. */
  method SearchTable(mb: seq<Byte>, n: nat, code: CodePoint) returns (low: nat)
    requires 4 + 8 * n <= |mb|
    ensures low <= n
    ensures low < n ==> code <= TableRanges(mb, n)[low].hi
    ensures ValidRanges(TableRanges(mb, n)) ==> forall i :: 0 <= i < low ==> TableRanges(mb, n)[i].hi < code
  {
    ghost var rs := TableRanges(mb, n);
    var high := n;
    low := 0;
    while low < high
      invariant 0 <= low <= high <= n
      invariant high < n ==> code <= rs[high].hi
      invariant ValidRanges(rs) ==> forall i :: 0 <= i < low ==> rs[i].hi < code
    {
      var x := (low + high) / 2;
      var off := 4 + x * 8;
      var rangeHigh := U32At(mb, off + 4);
      assert rangeHigh == rs[x].hi;
      if code > rangeHigh {
        low := x + 1;
      } else {
        high := x;
      }
    }
  }

  /** Whether `code` lies in one of the buffer's ranges (is_in_code_range):
      false for a buffer too short for its count, otherwise a binary search
      for the first range whose upper end reaches `code`. */
  method IsInCodeRange(mb: seq<Byte>, code: CodePoint) returns (r: bool)
    ensures |mb| < 4 ==> !r
    ensures |mb| >= 4 && |mb| < 4 + 8 * U32At(mb, 0) ==> !r
    ensures r ==> (&& |mb| >= 4 && 4 + 8 * U32At(mb, 0) <= |mb|
                   && InRanges(TableRanges(mb, U32At(mb, 0)), code))
    ensures |mb| >= 4 && 4 + 8 * U32At(mb, 0) <= |mb| && ValidRanges(TableRanges(mb, U32At(mb, 0))) ==>
      (r <==> InRanges(TableRanges(mb, U32At(mb, 0)), code))
  {
    if |mb| < 4 {
      return false;
    }
    var n: nat := U32At(mb, 0);
    if |mb| < 4 + n * 8 {
      return false;
    }
    ghost var rs := TableRanges(mb, n);
    var low := SearchTable(mb, n, code);
    if low < n {
      var off := 4 + low * 8;
      var rangeLow := U32At(mb, off);
      assert rangeLow == rs[low].lo;
      r := code >= rangeLow;
    } else {
      r := false;
    }
    if r {
      assert rs[low].lo <= code <= rs[low].hi;
    }
    if ValidRanges(rs) {
      FirstReachingRange(rs, code, low);
    }
  }
}

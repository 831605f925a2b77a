/** The encoding-generic cursor utilities of regenc.rs (stepping back and
    forward by characters, counting characters, finding character heads),
    over the two encodings of this model. The `Encoding` trait object of the
    source becomes the `Enc` value and a dispatch on it. */
module Encoding {
  import opened Wrappers
  import opened Oniguruma
  import Utf8
  import Ascii

  datatype Enc = Utf8Enc | AsciiEnc

  /** Whether `mbc_enc_len(&data[q..])` can be evaluated: UTF-8 reads the
      first byte, ASCII only slices. */
  predicate CanReadLen(enc: Enc, data: seq<Byte>, q: nat) {
    if enc.Utf8Enc? then q < |data| else q <= |data|
  }

  /** `enc.mbc_enc_len(&data[q..])`. */
  function EncLenAt(enc: Enc, data: seq<Byte>, q: nat): (n: nat)
    requires CanReadLen(enc, data, q)
    ensures 1 <= n <= 4
  {
    if enc.Utf8Enc? then Utf8.MbcEncLen(data[q..]) else Ascii.MbcEncLen(data[q..])
  }

  /** Whether `enc.left_adjust_char_head(start, s, data)` can be evaluated. */
  predicate CanLeftAdjust(enc: Enc, start: nat, s: nat, data: seq<Byte>) {
    enc.AsciiEnc? || s <= start || s < |data|
  }

  /** `enc.left_adjust_char_head(start, s, data)`. */
  function LeftAdjust(enc: Enc, start: nat, s: nat, data: seq<Byte>): (r: nat)
    requires CanLeftAdjust(enc, start, s, data)
    ensures r <= s && (s > start ==> start <= r)
  {
    if enc.Utf8Enc? then Utf8.LeftAdjustCharHead(start, s, data)
    else Ascii.LeftAdjustCharHead(start, s, data)
  }

  // ---------------------------------------------------------------------------
  // Previous character head and stepping back
  // ---------------------------------------------------------------------------

  /** `onigenc_get_prev_char_head`: nothing at or before `start`, otherwise the
      head of the character holding byte `s - 1`. */
  function PrevCharHead(enc: Enc, start: nat, s: nat, data: seq<Byte>): (r: Option<nat>)
    requires enc.AsciiEnc? || s <= |data|
    ensures r.None? <==> s <= start
    ensures r.Some? ==> start <= r.value < s
  {
    if s <= start then None else Some(LeftAdjust(enc, start, s - 1, data))
  }

  /** `onigenc_step_back`: `n` times, fail at or before `start`, otherwise
      move to the previous character head. */
  function StepBack(enc: Enc, start: nat, s: nat, data: seq<Byte>, n: nat): (r: Option<nat>)
    requires enc.AsciiEnc? || s <= |data|
    ensures n == 0 ==> r == Some(s)
    ensures n > 0 && s <= start ==> r.None?
    ensures r.Some? && n > 0 ==> start <= r.value < s
    decreases n
  {
    if n == 0 then Some(s)
    else if s <= start then None
    else StepBack(enc, start, LeftAdjust(enc, start, s - 1, data), data, n - 1)
  }

  /** Stepping back `n + 1` characters is stepping back `n` and then taking the
      previous character head. */
  lemma {:induction false} StepBackThenPrev(enc: Enc, start: nat, s: nat, data: seq<Byte>, n: nat)
    requires enc.AsciiEnc? || s <= |data|
    ensures StepBack(enc, start, s, data, n + 1)
      == match StepBack(enc, start, s, data, n)
         case None => None
         case Some(t) => PrevCharHead(enc, start, t, data)
    decreases n
  {
    if n > 0 && s > start {
      StepBackThenPrev(enc, start, LeftAdjust(enc, start, s - 1, data), data, n - 1);
    }
  }

  /** In ASCII every byte is a character: stepping back `n` characters from
      `s` reaches `s - n`, and fails exactly when that passes `start`. */
  lemma {:induction false} AsciiStepBackIsByteStep(start: nat, s: nat, data: seq<Byte>, n: nat)
    ensures StepBack(AsciiEnc, start, s, data, n) == if n == 0 || s >= start + n then Some(s - n) else None
    decreases n
  {
    if n > 0 && s > start {
      AsciiStepBackIsByteStep(start, s - 1, data, n - 1);
    }
  }

  // ---------------------------------------------------------------------------
  // Stepping forward and counting
  // ---------------------------------------------------------------------------

  /** Whether `n` forward steps from `q` can all read their lengths. */
  predicate CanStep(enc: Enc, data: seq<Byte>, q: nat, n: nat)
    decreases n
  {
    n == 0 || (CanReadLen(enc, data, q) && CanStep(enc, data, q + EncLenAt(enc, data, q), n - 1))
  }

  /** The position after `n` characters from `q`. */
  function StepPos(enc: Enc, data: seq<Byte>, q: nat, n: nat): (r: nat)
    requires CanStep(enc, data, q, n)
    decreases n
  {
    if n == 0 then q else StepPos(enc, data, q + EncLenAt(enc, data, q), n - 1)
  }

  /** Every character takes one to four bytes. */
  lemma {:induction false} StepPosBounds(enc: Enc, data: seq<Byte>, q: nat, n: nat)
    requires CanStep(enc, data, q, n)
    ensures q + n <= StepPos(enc, data, q, n) <= q + 4 * n
    ensures enc.AsciiEnc? ==> StepPos(enc, data, q, n) == q + n
    decreases n
  {
    if n > 0 {
      StepPosBounds(enc, data, q + EncLenAt(enc, data, q), n - 1);
    }
  }

  /** `n + m` steps are `n` steps followed by `m` steps. */
  lemma {:induction false} StepPosAdd(enc: Enc, data: seq<Byte>, q: nat, n: nat, m: nat)
    requires CanStep(enc, data, q, n + m)
    ensures CanStep(enc, data, q, n) && CanStep(enc, data, StepPos(enc, data, q, n), m)
    ensures StepPos(enc, data, q, n + m) == StepPos(enc, data, StepPos(enc, data, q, n), m)
    decreases n
  {
    if n > 0 {
      StepPosAdd(enc, data, q + EncLenAt(enc, data, q), n - 1, m);
    }
  }

  /** `onigenc_step`: `n` characters forward from `p`, or nothing when that
      ends past `end`. Every length read must be inside the data. */
  function Step(enc: Enc, p: nat, end: nat, data: seq<Byte>, n: nat): (r: Option<nat>)
    requires CanStep(enc, data, p, n)
  {
    var q := StepPos(enc, data, p, n);
    if q <= end then Some(q) else None
  }

  /** Stepping forward succeeds exactly when the `n` characters end by `end`,
      and then moves at least `n` bytes. */
  lemma StepSpec(enc: Enc, p: nat, end: nat, data: seq<Byte>, n: nat)
    requires CanStep(enc, data, p, n)
    ensures Step(enc, p, end, data, n).None? <==> StepPos(enc, data, p, n) > end
    ensures Step(enc, p, end, data, n).Some? ==> p + n <= Step(enc, p, end, data, n).value <= end
  {
    StepPosBounds(enc, data, p, n);
  }

  /** Every position a walk towards `end` reads is readable. */
  predicate CanReadUpTo(enc: Enc, data: seq<Byte>, end: nat) {
    if enc.Utf8Enc? then end <= |data| else end <= |data| + 1
  }

  /** Stepping from below `end` can always take one more step. */
  lemma CanStepOneMore(enc: Enc, data: seq<Byte>, p: nat, end: nat, n: nat)
    requires CanReadUpTo(enc, data, end) && CanStep(enc, data, p, n)
    requires StepPos(enc, data, p, n) < end
    ensures CanStep(enc, data, p, n + 1)
    ensures StepPos(enc, data, p, n + 1) == StepPos(enc, data, p, n) + EncLenAt(enc, data, StepPos(enc, data, p, n))
  {
    var q := StepPos(enc, data, p, n);
    assert CanStep(enc, data, q, 1) && StepPos(enc, data, q, 1) == q + EncLenAt(enc, data, q);
    StepPosAddBack(enc, data, p, n, 1);
  }

  /** The converse of StepPosAdd: `n` steps that can be followed by `m` steps
      are `n + m` steps. */
  lemma {:induction false} StepPosAddBack(enc: Enc, data: seq<Byte>, q: nat, n: nat, m: nat)
    requires CanStep(enc, data, q, n) && CanStep(enc, data, StepPos(enc, data, q, n), m)
    ensures CanStep(enc, data, q, n + m)
    ensures StepPos(enc, data, q, n + m) == StepPos(enc, data, StepPos(enc, data, q, n), m)
    decreases n
  {
    if n > 0 {
      StepPosAddBack(enc, data, q + EncLenAt(enc, data, q), n - 1, m);
    }
  }

  /** `onigenc_strlen`: the number of characters stepped from `p` until the
      cursor reaches `end`: the least `n` whose steps end at or after `end`. */
  method Strlen(enc: Enc, data: seq<Byte>, p: nat, end: nat) returns (n: nat)
    requires CanReadUpTo(enc, data, end)
    ensures p >= end ==> n == 0
    ensures CanStep(enc, data, p, n) && StepPos(enc, data, p, n) >= end
    ensures n > 0 ==> CanStep(enc, data, p, n - 1) && StepPos(enc, data, p, n - 1) < end
  {
    n := 0;
    var q := p;
    while q < end
      invariant CanStep(enc, data, p, n) && q == StepPos(enc, data, p, n)
      invariant p >= end ==> n == 0
      invariant n > 0 ==> CanStep(enc, data, p, n - 1) && StepPos(enc, data, p, n - 1) < end
      decreases end - q
    {
      CanStepOneMore(enc, data, p, end, n);
      q := q + EncLenAt(enc, data, q);
      n := n + 1;
    }
  }

  // ---------------------------------------------------------------------------
  // Right-adjusted character head
  // ---------------------------------------------------------------------------

  /** `onigenc_get_right_adjust_char_head`: `s` when it is a character head,
      otherwise the end of the character whose head is left of `s`. */
  function RightAdjustCharHead(enc: Enc, start: nat, s: nat, data: seq<Byte>): (r: nat)
    requires CanLeftAdjust(enc, start, s, data)
    ensures LeftAdjust(enc, start, s, data) == s ==> r == s
  {
    var p := LeftAdjust(enc, start, s, data);
    if p < s then p + EncLenAt(enc, data, p) else p
  }

  /** ASCII heads are every byte, so right adjustment is the identity; in
      UTF-8 a lead byte is its own head. */
  lemma RightAdjustAtHead(enc: Enc, start: nat, s: nat, data: seq<Byte>)
    requires CanLeftAdjust(enc, start, s, data)
    requires enc.Utf8Enc? && s > start ==> Utf8.IsLead(data[s])
    ensures RightAdjustCharHead(enc, start, s, data) == s
  {
    if enc.Utf8Enc? && s > start {
      Utf8.LeftAdjustCharHeadIsNearestLead(start, s, data, s);
    }
  }

  /** Inside a well-formed UTF-8 character that starts at or after `start`,
      right adjustment moves to the byte after that character. */
  lemma RightAdjustInsideChar(start: nat, h: nat, s: nat, data: seq<Byte>)
    requires start <= h < s < |data|
    requires Utf8.IsLead(data[h]) && s < h + Utf8.EncLen(data[h])
    requires forall k :: h < k <= s ==> Utf8.IsTail(data[k])
    ensures RightAdjustCharHead(Utf8Enc, start, s, data) == h + Utf8.EncLen(data[h])
  {
    Utf8.LeftAdjustCharHeadIsNearestLead(start, s, data, h);
    var p := LeftAdjust(Utf8Enc, start, s, data);
    assert p == h;
    assert data[h..][0] == data[h];
  }
}

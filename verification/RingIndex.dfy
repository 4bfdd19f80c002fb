/** Index arithmetic of the ring FIFO (src/common/tusb_fifo.c, src/common/tusb_fifo.h).

    A FIFO of `depth` bytes keeps its read and write indices in `[0, 2*depth)`, twice
    the number of slots, so that empty and full can be told apart without giving up a
    slot.  All indices are 16-bit in the source; the wrap-around is written out here. */
module RingIndex {
  import opened Basics


  type byte = x: int | 0 <= x < 0x100
  type uint16 = x: int | 0 <= x < 0x1_0000
  const U16 := 0x1_0000

  function Min(a: int, b: int): int { if a < b then a else b }

  predicate ValidDepth(d: int) { 1 <= d <= 0x8000 }

  /** An index lies in `[0, 2*depth)`. */
  predicate IsIndex(d: int, i: int) { 0 <= i < 2 * d }

  /** `advance_index`: the 16-bit sum, then a correction that relies on a second
      deliberate 16-bit overflow. */
  function AdvanceIndex(d: int, idx: int, offset: int): (r: uint16)
    requires ValidDepth(d) && IsIndex(d, idx) && 0 <= offset < U16
  {
    var sum := (idx + offset) % U16;
    if idx > sum || sum >= 2 * d
    then (sum + (0xFFFF - (2 * d - 1)) % U16) % U16
    else sum
  }

  /** `n` places forward in the index space, without the 16-bit detour. */
  function Forward(d: int, idx: int, n: int): (r: int)
    requires IsIndex(d, idx) && 0 <= n <= 2 * d
    ensures IsIndex(d, r)
  {
    if idx + n < 2 * d then idx + n else idx + n - 2 * d
  }

  /** Subtracting the index space once is all the correction ever does ... */
  lemma AdvanceIndexValue(d: int, idx: int, offset: int)
    requires ValidDepth(d) && IsIndex(d, idx) && 0 <= offset < U16
    ensures AdvanceIndex(d, idx, offset) == if idx + offset < 2 * d then idx + offset else idx + offset - 2 * d
    ensures offset <= 2 * d ==> AdvanceIndex(d, idx, offset) == Forward(d, idx, offset)
  {
    var sum := (idx + offset) % U16;
    assert sum == idx + offset || sum == idx + offset - U16;
    if sum == idx + offset {
      if sum >= 2 * d {
        assert (sum + (0xFFFF - (2 * d - 1)) % U16) % U16 == sum - 2 * d;
      }
    } else {
      assert idx > sum;
      assert (sum + (0xFFFF - (2 * d - 1)) % U16) % U16 == idx + offset - 2 * d;
    }
  }

  /** ... so it is the sum modulo `2*depth`, and stays an index, exactly while the sum
      is below `4*depth`.  Every caller that moves at most `depth` bytes is safe. */
  lemma AdvanceIndexIsModulo(d: int, idx: int, offset: int)
    requires ValidDepth(d) && IsIndex(d, idx) && 0 <= offset < U16
    ensures idx + offset < 4 * d <==> AdvanceIndex(d, idx, offset) == (idx + offset) % (2 * d)
    ensures idx + offset < 4 * d <==> IsIndex(d, AdvanceIndex(d, idx, offset))
  {
    AdvanceIndexValue(d, idx, offset);
    var s, m := idx + offset, 2 * d;
    if s < m {
      ModuloBelow(s, 0, m);
    } else if s < 2 * m {
      ModuloBelow(s - m, 1, m);
    }
  }

  /** The slot of an index, or of an index plus at most `2*depth`. */
  function Ptr(d: int, i: int): (p: int)
    requires 0 < d && 0 <= i < 4 * d
    ensures 0 <= p < d
  {
    if i < d then i else if i < 2 * d then i - d else if i < 3 * d then i - 2 * d else i - 3 * d
  }

  lemma PtrIsModulo(d: int, i: int)
    requires 0 < d && 0 <= i < 4 * d
    ensures Ptr(d, i) == i % d
  {
    ModuloBelow(Ptr(d, i), if i < d then 0 else if i < 2 * d then 1 else if i < 3 * d then 2 else 3, d);
  }

  /** `idx2ptr`: modulo by repeated subtraction. */
  method Idx2Ptr(d: int, idx: int) returns (p: int)
    requires 0 < d && 0 <= idx < 4 * d
    ensures p == Ptr(d, idx) == idx % d
  {
    PtrIsModulo(d, idx);
    p := idx;
    while p >= d
      invariant 0 <= p < 4 * d && Ptr(d, p) == Ptr(d, idx)
      decreases p
    {
      p := p - d;
    }
  }

  /** `tu_ff_overflow_count`: the index difference, between 0 and `2*depth - 1`, so the
      source's cast to 16 bits drops nothing. */
  function OverflowCount(d: int, wr: int, rd: int): (c: uint16)
    requires ValidDepth(d) && IsIndex(d, wr) && IsIndex(d, rd)
    ensures IsIndex(d, c)
  {
    if wr >= rd then wr - rd else 2 * d + (wr - rd)
  }

  /** The count is the one number that takes the read index to the write index. */
  lemma OverflowCountAdvances(d: int, wr: int, rd: int, c: int)
    requires ValidDepth(d) && IsIndex(d, wr) && IsIndex(d, rd) && IsIndex(d, c)
    ensures c == OverflowCount(d, wr, rd) <==> wr == AdvanceIndex(d, rd, c)
  {
    AdvanceIndexValue(d, rd, c);
  }

  /** `tu_ff_remaining_local`. */
  function Remaining(d: int, wr: int, rd: int): (n: uint16)
    requires ValidDepth(d) && IsIndex(d, wr) && IsIndex(d, rd)
  {
    var c := OverflowCount(d, wr, rd);
    if d > c then d - c else 0
  }

  /** `correct_read_index`: the index one full FIFO behind the write index. */
  function CorrectedRead(d: int, wr: int): (rd: uint16)
    requires ValidDepth(d) && IsIndex(d, wr)
    ensures IsIndex(d, rd) && OverflowCount(d, wr, rd) == d
  {
    if wr >= d then wr - d else wr + d
  }
}

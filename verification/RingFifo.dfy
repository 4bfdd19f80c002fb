/** The ring FIFO itself (src/common/tusb_fifo.c).

    The abstract value of a FIFO is the sequence of bytes a reader would get:
    `Contents()`.  A FIFO that is not overwritable is a bounded queue; an overwritable
    one drops the oldest bytes, within limits that are made exact below. */
module RingFifo {
  import opened RingIndex

  // ---------------------------------------------------------------- windows

  /** The `n` bytes found from index `i` on, slot after slot around the ring. */
  function Window(buf: seq<byte>, d: int, i: int, n: int): (s: seq<byte>)
    requires 0 < d == |buf| && IsIndex(d, i) && 0 <= n <= 2 * d
    ensures |s| == n && forall k :: 0 <= k < n ==> s[k] == buf[Ptr(d, i + k)]
  {
    seq(n, k requires 0 <= k < n => buf[Ptr(d, i + k)])
  }

  /** How far slot `k` lies behind slot `p`, going forward around the ring. */
  function Distance(d: int, p: int, k: int): int { if k >= p then k - p else k + d - p }

  /** The ring after `data` has been stored from slot `p` on. */
  function Pushed(buf: seq<byte>, p: int, data: seq<byte>): (b: seq<byte>)
    requires 0 <= p < |buf| && |data| <= |buf|
    ensures |b| == |buf|
    ensures forall k :: 0 <= k < |b| ==>
              b[k] == if Distance(|buf|, p, k) < |data| then data[Distance(|buf|, p, k)] else buf[k]
  {
    seq(|buf|, k requires 0 <= k < |buf| =>
      if Distance(|buf|, p, k) < |data| then data[Distance(|buf|, p, k)] else buf[k])
  }

  /** The last `d` elements, or all of them. */
  function Tail(s: seq<byte>, d: nat): seq<byte> {
    if |s| <= d then s else s[|s| - d..]
  }

  lemma TailOfSum(s: seq<byte>, t: seq<byte>, d: nat)
    requires |t| <= d
    ensures Tail(s + t, d) == Tail(s, d - |t|) + t
  {}

  lemma TailOfLong(s: seq<byte>, t: seq<byte>, d: nat)
    requires |t| >= d
    ensures Tail(s + t, d) == Tail(t, d)
  {}

  /** The `n` newest bytes, those in the slots just before index `wr`. */
  function Newest(buf: seq<byte>, d: int, wr: int, n: int): (s: seq<byte>)
    requires 0 < d == |buf| && IsIndex(d, wr) && 0 <= n <= d
    ensures |s| == n && forall k :: 0 <= k < n ==> s[k] == buf[Ptr(d, wr + 2 * d - n + k)]
  {
    seq(n, k requires 0 <= k < n => buf[Ptr(d, wr + 2 * d - n + k)])
  }

  /** From the read index to the write index: the window is the newest bytes. */
  lemma WindowIsNewest(buf: seq<byte>, d: int, wr: int, rd: int)
    requires ValidDepth(d) && d == |buf| && IsIndex(d, wr) && IsIndex(d, rd)
    requires OverflowCount(d, wr, rd) <= d
    ensures Window(buf, d, rd, OverflowCount(d, wr, rd)) == Newest(buf, d, wr, OverflowCount(d, wr, rd))
  {}

  /** A window is one stretch of the buffer, or two around the wrap. */
  lemma WindowStretches(buf: seq<byte>, d: int, i: int, n: int)
    requires 0 < d == |buf| && IsIndex(d, i) && 0 <= n <= d
    ensures var p := Ptr(d, i);
            Window(buf, d, i, n) == if n <= d - p then buf[p..p + n] else buf[p..] + buf[..n - (d - p)]
  {}

  /** Reading `k` bytes leaves the others. */
  lemma NewestSuffix(buf: seq<byte>, d: int, wr: int, n: int, k: int)
    requires 0 < d == |buf| && IsIndex(d, wr) && 0 <= k <= n <= d
    ensures Newest(buf, d, wr, n - k) == Newest(buf, d, wr, n)[k..]
  {}

  lemma NewestTail(buf: seq<byte>, d: int, wr: int, n: int, m: nat)
    requires 0 < d == |buf| && IsIndex(d, wr) && 0 <= n <= d
    ensures Newest(buf, d, wr, Min(n, m)) == Tail(Newest(buf, d, wr, n), m)
  {
    if n > m { NewestSuffix(buf, d, wr, n, n - m); }
  }

  /** Moving the read index forward by `k` drops the first `k` bytes of the window. */
  lemma WindowSuffix(buf: seq<byte>, d: int, rd: int, n: int, k: int)
    requires ValidDepth(d) && d == |buf| && IsIndex(d, rd) && 0 <= k <= n <= d
    ensures Window(buf, d, Forward(d, rd, k), n - k) == Window(buf, d, rd, n)[k..]
  {
  }

  /** After a store at `wr`, the slot `m` places before the new write index. */
  lemma SlotAfterPush(buf: seq<byte>, d: int, wr: int, data: seq<byte>, m: int)
    requires ValidDepth(d) && d == |buf| && IsIndex(d, wr) && |data| <= d && 1 <= m <= d
    ensures Pushed(buf, Ptr(d, wr), data)[Ptr(d, Forward(d, wr, |data|) + 2 * d - m)]
         == if m <= |data| then data[|data| - m] else buf[Ptr(d, wr + 2 * d - (m - |data|))]
  {
  }

  /** The store follows whatever it did not overwrite. */
  lemma NewestThenData(buf: seq<byte>, d: int, wr: int, e: int, data: seq<byte>)
    requires ValidDepth(d) && d == |buf| && IsIndex(d, wr) && 0 <= e && e + |data| <= d
    ensures Newest(Pushed(buf, Ptr(d, wr), data), d, Forward(d, wr, |data|), e + |data|) == Newest(buf, d, wr, e) + data
  {
    var before := Newest(buf, d, wr, e) + data;
    var after := Newest(Pushed(buf, Ptr(d, wr), data), d, Forward(d, wr, |data|), e + |data|);
    forall k | 0 <= k < e + |data| ensures after[k] == before[k] {
      SlotAfterPush(buf, d, wr, data, e + |data| - k);
    }
  }

  /** Storing `data` at the write index and advancing it: the newest bytes become the
      old newest bytes followed by `data`, as far as the ring reaches back. */
  lemma NewestAfterPush(buf: seq<byte>, d: int, wr: int, c: int, data: seq<byte>)
    requires ValidDepth(d) && d == |buf| && IsIndex(d, wr) && 0 <= c && |data| <= d
    ensures Newest(Pushed(buf, Ptr(d, wr), data), d, Forward(d, wr, |data|), Min(c + |data|, d))
         == Tail(Newest(buf, d, wr, Min(c, d)) + data, d)
  {
    var e, m, old_ := Min(c, d - |data|), Min(c + |data|, d), Newest(buf, d, wr, Min(c, d));
    assert Newest(Pushed(buf, Ptr(d, wr), data), d, Forward(d, wr, |data|), m) == Newest(buf, d, wr, e) + data by {
      assert m == e + |data|;
      NewestThenData(buf, d, wr, e, data);
    }
    assert Newest(buf, d, wr, e) == Tail(old_, d - |data|) by { NewestTail(buf, d, wr, Min(c, d), d - |data|); }
    assert Tail(old_ + data, d) == Tail(old_, d - |data|) + data by { TailOfSum(old_, data, d); }
  }

  /** What an overwritable FIFO of depth `d` shows after a store of `data`, given what it
      showed before and its raw count `c`. */
  function Overwritten(old_: seq<byte>, d: nat, c: nat, data: seq<byte>): (s: seq<byte>)
    requires |old_| == Min(c, d) && c < 2 * d
    ensures |s| <= d
  {
    if |data| >= d then Tail(data, d)
    else if c + |data| < 2 * d then Tail(old_ + data, d)
    else old_[2 * d - c..3 * d - c - |data|] + data
  }

  /** Whatever the branch, a reader will see all the FIFO can hold, the newest bytes of the store
      at the end. */
  lemma OverwrittenEndsWithData(old_: seq<byte>, d: nat, c: nat, data: seq<byte>)
    requires |old_| == Min(c, d) && c < 2 * d
    ensures var s := Overwritten(old_, d, c, data);
            |s| == Min(c + |data|, d) && Tail(s, Min(|data|, d)) == Tail(data, d)
  {
    var s := Overwritten(old_, d, c, data);
    if |data| < d && c + |data| < 2 * d {
      TailOfSum(old_, data, d);
      TailOfLong(Tail(old_, d - |data|), data, |data|);
    } else if |data| < d {
      TailOfLong(old_[2 * d - c..3 * d - c - |data|], data, |data|);
    }
  }

  /** A store that fills the ring by itself, or that leaves the unread bytes within twice
      the depth, drops exactly the oldest bytes. */
  lemma DropOldest(old_: seq<byte>, d: nat, c: nat, data: seq<byte>)
    requires |old_| == Min(c, d) && c < 2 * d
    requires |data| >= d || c + |data| <= 2 * d
    ensures Overwritten(old_, d, c, data) == Tail(old_ + data, d)
  {
    if |data| >= d {
      TailOfLong(old_, data, d);
    } else {
      TailOfSum(old_, data, d);
      assert c + |data| == 2 * d ==> old_[2 * d - c..3 * d - c - |data|] == Tail(old_, d - |data|);
    }
  }

  /** No other store does, whatever its size: some contents then read back wrong.  The
      comment in the source counts `c + n == 2*d` among the lost cases; it is not one. */
  lemma DropOldestExactly(d: nat, c: nat, n: nat)
    requires c < 2 * d
    ensures (forall old_: seq<byte>, data: seq<byte> :: |old_| == Min(c, d) && |data| == n ==>
               Overwritten(old_, d, c, data) == Tail(old_ + data, d))
            <==> (n >= d || c + n <= 2 * d)
  {
    if n >= d || c + n <= 2 * d {
      forall old_: seq<byte>, data: seq<byte> | |old_| == Min(c, d) && |data| == n
        ensures Overwritten(old_, d, c, data) == Tail(old_ + data, d)
      {
        DropOldest(old_, d, c, data);
      }
    } else {
      var data: seq<byte> := seq(n, _ => 0);
      var old_: seq<byte> := seq(d, k => if k == n then 1 else 0);
      assert Overwritten(old_, d, c, data)[0] == old_[2 * d - c] == 0;
      assert Tail(old_ + data, d)[0] == old_[n] == 1;
    }
  }

  /** Where an overwritable store of `n` bytes begins. */
  function OverwriteAt(d: int, wr: int, rd: int, n: int): (at: int)
    requires ValidDepth(d) && IsIndex(d, wr) && IsIndex(d, rd) && 0 <= n
    ensures IsIndex(d, at)
  {
    if n >= d then rd
    else if OverflowCount(d, wr, rd) + n >= 2 * d then
      Forward(d, rd, d - n)
    else wr
  }

  /** The raw count after an overwritable store of `n` bytes. */
  function CountAfter(d: int, c: int, n: int): int {
    if n >= d || c + n >= 2 * d then d else c + n
  }

  lemma OverwriteCount(d: int, wr: int, rd: int, n: int)
    requires ValidDepth(d) && IsIndex(d, wr) && IsIndex(d, rd) && 0 <= n
    ensures OverflowCount(d, Forward(d, OverwriteAt(d, wr, rd, n), Min(n, d)), rd)
         == CountAfter(d, OverflowCount(d, wr, rd), n)
  {}

  /** What a reader sees after an overwritable store of `data`. */
  function ShownAfter(buf: seq<byte>, d: int, wr: int, rd: int, data: seq<byte>): seq<byte>
    requires ValidDepth(d) && d == |buf| && IsIndex(d, wr) && IsIndex(d, rd)
  {
    var at, new_ := OverwriteAt(d, wr, rd, |data|), Tail(data, d);
    Newest(Pushed(buf, Ptr(d, at), new_), d, Forward(d, at, |new_|),
           Min(CountAfter(d, OverflowCount(d, wr, rd), |data|), d))
  }

  lemma FillShows(buf: seq<byte>, d: int, wr: int, rd: int, data: seq<byte>)
    requires ValidDepth(d) && d == |buf| && IsIndex(d, wr) && IsIndex(d, rd) && |data| >= d
    ensures ShownAfter(buf, d, wr, rd, data) == Tail(data, d)
  {
    NewestThenData(buf, d, rd, 0, Tail(data, d));
  }

  /** The store at `rd + d - n` leaves, `k` places into the ring, an older byte or the new one. */
  lemma DoubleOverflowSlot(buf: seq<byte>, d: int, wr: int, rd: int, data: seq<byte>, k: int)
    requires ValidDepth(d) && d == |buf| && IsIndex(d, wr) && IsIndex(d, rd) && |data| < d && 0 <= k < d
    requires OverflowCount(d, wr, rd) + |data| >= 2 * d
    ensures var c, n, at := OverflowCount(d, wr, rd), |data|, Forward(d, rd, d - |data|);
            Newest(Pushed(buf, Ptr(d, at), data), d, Forward(d, at, n), d)[k]
            == if k < d - n then Newest(buf, d, wr, d)[2 * d - c + k] else data[k - (d - n)]
  {
    SlotAfterPush(buf, d, Forward(d, rd, d - |data|), data, d - k);
  }

  lemma DoubleOverflowStores(buf: seq<byte>, d: int, wr: int, rd: int, data: seq<byte>)
    requires ValidDepth(d) && d == |buf| && IsIndex(d, wr) && IsIndex(d, rd) && |data| < d
    requires OverflowCount(d, wr, rd) + |data| >= 2 * d
    ensures var at := Forward(d, rd, d - |data|);
            ShownAfter(buf, d, wr, rd, data) == Newest(Pushed(buf, Ptr(d, at), data), d, Forward(d, at, |data|), d)
  {
    assert Tail(data, d) == data;
  }

  /** Two windows that agree slot by slot, as one. */
  lemma Joined(buf': seq<byte>, wr': int, buf: seq<byte>, wr: int, d: int, a: nat, data: seq<byte>)
    requires 0 < d == |buf| == |buf'| && IsIndex(d, wr) && IsIndex(d, wr') && |data| <= d && a <= |data|
    requires forall k :: 0 <= k < d ==> JoinedAt(buf', wr', buf, wr, d, a, data, k)
    ensures Newest(buf', d, wr', d) == Newest(buf, d, wr, d)[a..a + (d - |data|)] + data
  {
    var s, t := Newest(buf', d, wr', d), Newest(buf, d, wr, d)[a..a + (d - |data|)] + data;
    forall k | 0 <= k < d ensures s[k] == t[k] {
      assert JoinedAt(buf', wr', buf, wr, d, a, data, k);
    }
  }

  predicate JoinedAt(buf': seq<byte>, wr': int, buf: seq<byte>, wr: int, d: int, a: nat, data: seq<byte>, k: int)
    requires 0 < d == |buf| == |buf'| && IsIndex(d, wr) && IsIndex(d, wr') && |data| <= d && a <= |data| && 0 <= k < d
  {
    Newest(buf', d, wr', d)[k] == if k < d - |data| then Newest(buf, d, wr, d)[a + k] else data[k - (d - |data|)]
  }

  lemma DoubleOverflowRing(buf: seq<byte>, d: int, wr: int, rd: int, data: seq<byte>, a: nat)
    requires ValidDepth(d) && d == |buf| && IsIndex(d, wr) && IsIndex(d, rd) && |data| < d
    requires a == 2 * d - OverflowCount(d, wr, rd) <= |data|
    ensures var at := Forward(d, rd, d - |data|);
            Newest(Pushed(buf, Ptr(d, at), data), d, Forward(d, at, |data|), d) == Newest(buf, d, wr, d)[a..a + (d - |data|)] + data
  {
    var at := Forward(d, rd, d - |data|);
    var buf', wr' := Pushed(buf, Ptr(d, at), data), Forward(d, at, |data|);
    forall k | 0 <= k < d ensures JoinedAt(buf', wr', buf, wr, d, a, data, k) {
      DoubleOverflowSlot(buf, d, wr, rd, data, k);
    }
    Joined(buf', wr', buf, wr, d, a, data);
  }

  lemma DoubleOverflowShows(buf: seq<byte>, d: int, wr: int, rd: int, data: seq<byte>, a: nat)
    requires ValidDepth(d) && d == |buf| && IsIndex(d, wr) && IsIndex(d, rd) && |data| < d
    requires a == 2 * d - OverflowCount(d, wr, rd) <= |data|
    ensures ShownAfter(buf, d, wr, rd, data) == Newest(buf, d, wr, d)[a..a + (d - |data|)] + data
  {
    DoubleOverflowStores(buf, d, wr, rd, data);
    DoubleOverflowRing(buf, d, wr, rd, data, a);
  }

  lemma OrdinaryShows(buf: seq<byte>, d: int, wr: int, rd: int, data: seq<byte>)
    requires ValidDepth(d) && d == |buf| && IsIndex(d, wr) && IsIndex(d, rd) && |data| < d
    requires OverflowCount(d, wr, rd) + |data| < 2 * d
    ensures var c := OverflowCount(d, wr, rd);
            ShownAfter(buf, d, wr, rd, data) == Tail(Newest(buf, d, wr, Min(c, d)) + data, d)
  {
    assert Tail(data, d) == data;
    NewestAfterPush(buf, d, wr, OverflowCount(d, wr, rd), data);
  }

  /** In every branch the store shows `Overwritten`. */
  lemma OverwriteShows(buf: seq<byte>, d: int, wr: int, rd: int, data: seq<byte>)
    requires ValidDepth(d) && d == |buf| && IsIndex(d, wr) && IsIndex(d, rd)
    ensures var c := OverflowCount(d, wr, rd);
            ShownAfter(buf, d, wr, rd, data) == Overwritten(Newest(buf, d, wr, Min(c, d)), d, c, data)
  {
    var c := OverflowCount(d, wr, rd);
    var old_, shown := Newest(buf, d, wr, Min(c, d)), ShownAfter(buf, d, wr, rd, data);
    if |data| >= d {
      assert shown == Tail(data, d) by { FillShows(buf, d, wr, rd, data); }
    } else if c + |data| >= 2 * d {
      var a := 2 * d - c;
      assert shown == old_[a..a + (d - |data|)] + data by { DoubleOverflowShows(buf, d, wr, rd, data, a); }
    } else {
      assert shown == Tail(old_ + data, d) by { OrdinaryShows(buf, d, wr, rd, data); }
    }
  }

  lemma StoreNothing(buf: seq<byte>, d: int, wr: int, s: seq<byte>, c: nat, data: seq<byte>)
    requires ValidDepth(d) && d == |buf| && IsIndex(d, wr) && |s| == Min(c, d) && c < 2 * d && |data| == 0
    ensures Pushed(buf, Ptr(d, wr), data[..0]) == buf && s + data[..0] == s && Overwritten(s, d, c, data) == s
  {}

  // ---------------------------------------------------------------- the FIFO

  datatype Pointer = Null | Slot(index: nat)

  /** One of the two contiguous regions of `tu_fifo_buffer_info_t`. */
  datatype Span = Span(len: nat, ptr: Pointer)

  predicate InBuffer(s: Span, d: int) {
    s.len > 0 ==> s.ptr.Slot? && s.ptr.index + s.len <= d
  }

  function SpanBytes(buf: seq<byte>, s: Span): seq<byte>
    requires InBuffer(s, |buf|)
  {
    if s.len == 0 then [] else buf[s.ptr.index..s.ptr.index + s.len]
  }

  predicate InSpan(s: Span, k: int) {
    s.len > 0 && s.ptr.Slot? && s.ptr.index <= k < s.ptr.index + s.len
  }

  class Fifo {
    var buffer: array<byte>
    var depth: int
    var overwritable: bool
    var wr_idx: int
    var rd_idx: int

    ghost predicate Valid()
      reads this
    {
      ValidDepth(depth) && buffer.Length == depth && IsIndex(depth, wr_idx) && IsIndex(depth, rd_idx)
    }

    /** The index difference; above `depth` when an overwritable FIFO has overflowed. */
    ghost function Unread(): int
      reads this
      requires Valid()
    {
      OverflowCount(depth, wr_idx, rd_idx)
    }

    /** The bytes a reader would get now. */
    ghost function Contents(): (s: seq<byte>)
      reads this, buffer
      requires Valid()
      ensures |s| == Min(Unread(), depth)
    {
      Newest(buffer[..], depth, wr_idx, Min(Unread(), depth))
    }

    /** Slot `k` holds one of the bytes of `Contents()`. */
    ghost predicate Occupied(k: int)
      reads this
      requires Valid()
    {
      0 <= k < depth && Distance(depth, Ptr(depth, wr_idx + 2 * depth - Min(Unread(), depth)), k) < Min(Unread(), depth)
    }

    constructor (buf: array<byte>, overwritable: bool)
      requires ValidDepth(buf.Length)
      ensures Valid() && buffer == buf && depth == buf.Length && this.overwritable == overwritable
      ensures Contents() == [] && Unread() == 0
    {
      this.buffer, this.depth, this.overwritable := buf, buf.Length, overwritable;
      wr_idx, rd_idx := 0, 0;
    }

    /** `tu_fifo_config`. */
    method Config(buf: array<byte>, depth: int, overwritable: bool) returns (ok: bool)
      requires 0 <= depth < U16 && buf.Length == depth
      modifies this
      ensures ok <==> depth <= 0x8000
      ensures ok ==> buffer == buf && this.depth == depth && this.overwritable == overwritable && (Valid() <==> depth > 0)
      ensures ok && depth > 0 ==> Contents() == []
      ensures !ok ==> unchanged(this)
    {
      if depth > 0x8000 { return false; }
      this.buffer, this.depth, this.overwritable := buf, depth, overwritable;
      rd_idx, wr_idx := 0, 0;
      ok := true;
    }

    method Clear()
      requires Valid()
      modifies this`rd_idx, this`wr_idx
      ensures Valid() && Contents() == [] && Unread() == 0
    {
      rd_idx, wr_idx := 0, 0;
    }

    method SetOverwritable(overwritable: bool)
      requires Valid()
      modifies this`overwritable
      ensures Valid() && this.overwritable == overwritable && Contents() == old(Contents())
    {
      if this.overwritable == overwritable { return; }
      this.overwritable := overwritable;
    }

    /** `tu_fifo_count`, `tu_fifo_empty`, `tu_fifo_full`, `tu_fifo_remaining`. */
    method State() returns (count: int, empty: bool, full: bool, remaining: int)
      requires Valid()
      ensures count == |Contents()| && count + remaining == depth
      ensures (empty <==> Contents() == []) && (full <==> |Contents()| == depth)
    {
      count := Min(OverflowCount(depth, wr_idx, rd_idx), depth);
      empty := wr_idx == rd_idx;
      full := OverflowCount(depth, wr_idx, rd_idx) >= depth;
      remaining := Remaining(depth, wr_idx, rd_idx);
    }

    /** `ff_push_n`: one copy, or two around the wrap. */
    method PushN(data: seq<byte>, p: int)
      requires Valid() && 0 <= p < depth && |data| <= depth
      modifies buffer
      ensures buffer[..] == Pushed(old(buffer[..]), p, data)
    {
      var lin, n := depth - p, |data|;
      if n <= lin {
        forall i | 0 <= i < n { buffer[p + i] := data[i]; }
      } else {
        forall i | 0 <= i < lin { buffer[p + i] := data[i]; }
        forall i | 0 <= i < n - lin { buffer[i] := data[lin + i]; }
      }
      assert forall k :: 0 <= k < depth ==> buffer[..][k] == Pushed(old(buffer[..]), p, data)[k];
    }

    /** `ff_pull_n`. */
    method PullN(n: int, i: int, p: int) returns (out: seq<byte>)
      requires Valid() && IsIndex(depth, i) && p == Ptr(depth, i) && 0 <= n <= depth
      ensures out == Window(buffer[..], depth, i, n)
    {
      var lin := depth - p;
      if n <= lin {
        out := buffer[p..p + n];
      } else {
        out := buffer[p..] + buffer[..n - lin];
      }
    }

    /** `correct_read_index`. */
    method CorrectReadIndex(wr: int) returns (rd: int)
      requires Valid() && IsIndex(depth, wr)
      modifies this`rd_idx
      ensures Valid() && rd_idx == rd == CorrectedRead(depth, wr)
    {
      if wr >= depth { rd := wr - depth; } else { rd := wr + depth; }
      rd_idx := rd;
    }

    /** `tu_fifo_peek_n_access_mode` on local copies of the two indices. */
    method PeekLocal(n: int, wr: int, rd: int) returns (out: seq<byte>)
      requires Valid() && IsIndex(depth, wr) && IsIndex(depth, rd) && 0 <= n < U16
      modifies this`rd_idx
      ensures Valid()
      ensures var c := OverflowCount(depth, wr, rd);
              && out == Newest(buffer[..], depth, wr, Min(c, depth))[..Min(n, Min(c, depth))]
              && rd_idx == if c > depth then CorrectedRead(depth, wr) else old(rd_idx)
    {
      var count := OverflowCount(depth, wr, rd);
      if count == 0 { return []; }
      var rd' := rd;
      if count > depth {
        rd' := CorrectReadIndex(wr);
        count := depth;
      }
      var n' := if count < n then count else n;
      var p := Idx2Ptr(depth, rd');
      out := PullN(n', rd', p);
      WindowIsNewest(buffer[..], depth, wr, rd');
    }

    /** `tu_fifo_peek_n`. */
    method PeekN(n: int) returns (out: seq<byte>)
      requires Valid() && 0 <= n < U16
      modifies this`rd_idx
      ensures Valid() && Contents() == old(Contents())
      ensures out == Contents()[..Min(n, |Contents()|)]
      ensures Unread() <= depth
    {
      out := PeekLocal(n, wr_idx, rd_idx);
    }

    /** `tu_fifo_read_n`. */
    method ReadN(n: int) returns (out: seq<byte>)
      requires Valid() && 0 <= n < U16
      modifies this`rd_idx
      ensures Valid()
      ensures out == old(Contents())[..Min(n, |old(Contents())|)]
      ensures Contents() == old(Contents())[|out|..]
      ensures Unread() == |Contents()|
    {
      out := PeekLocal(n, wr_idx, rd_idx);
      assert Contents() == old(Contents()) && Unread() == |Contents()|;
      AdvanceReadPointer(|out|);
    }

    /** `tu_fifo_discard_n`: it moves the raw read index, so on an overflowed FIFO the
        first bytes it discards are ones the reader had lost already. */
    method DiscardN(n: int) returns (count: int)
      requires Valid() && 0 <= n < U16
      modifies this`rd_idx
      ensures Valid() && count == Min(n, |old(Contents())|)
      ensures Unread() == old(Unread()) - count
      ensures Contents() == Tail(old(Contents()), old(Unread()) - count)
    {
      count := Min(n, Min(OverflowCount(depth, wr_idx, rd_idx), depth));
      AdvanceIndexValue(depth, rd_idx, count);
      ghost var before, left := Contents(), Unread() - count;
      NewestTail(buffer[..], depth, wr_idx, |before|, left);
      rd_idx := AdvanceIndex(depth, rd_idx, count);
      assert Unread() == left;
    }

    /** The end of `tu_fifo_write_n`: copy at `wr`, then publish the new write index. */
    method Store(data: seq<byte>, wr: int, ghost count: nat, ghost shown: seq<byte>)
      requires Valid() && IsIndex(depth, wr) && |data| <= depth
      requires OverflowCount(depth, Forward(depth, wr, |data|), rd_idx) == count
      requires shown == Newest(Pushed(buffer[..], Ptr(depth, wr), data), depth,
                               Forward(depth, wr, |data|), Min(count, depth))
      modifies this`wr_idx, buffer
      ensures Valid() && wr_idx == Forward(depth, wr, |data|)
      ensures buffer[..] == Pushed(old(buffer[..]), Ptr(depth, wr), data)
      ensures Contents() == shown && Unread() == count
    {
      AdvanceIndexValue(depth, wr, |data|);
      var p := Idx2Ptr(depth, wr);
      PushN(data, p);
      wr_idx := AdvanceIndex(depth, wr, |data|);
    }

    /** The overwritable case of `tu_fifo_write_n`, at least one byte. */
    method WriteOver(data: seq<byte>) returns (n: int)
      requires Valid() && 0 < |data| < U16 && overwritable
      modifies this`wr_idx, buffer
      ensures Valid() && n == Min(|data|, depth)
      ensures Contents() == Overwritten(old(Contents()), depth, old(Unread()), data)
      ensures Unread() == CountAfter(depth, old(Unread()), |data|)
    {
      ghost var before, count := Contents(), Unread();
      OverwriteCount(depth, wr_idx, rd_idx, |data|);
      OverwriteShows(buffer[..], depth, wr_idx, rd_idx, data);
      n := |data|;
      var wr, buf8 := wr_idx, data;
      if n >= depth {
        buf8 := data[n - depth..];
        n := depth;
        wr := rd_idx;
      } else if OverflowCount(depth, wr_idx, rd_idx) + n >= 2 * depth {
        AdvanceIndexValue(depth, rd_idx, depth - n);
        wr := AdvanceIndex(depth, rd_idx, depth - n);
      }
      assert wr == OverwriteAt(depth, wr_idx, rd_idx, |data|) && buf8 == Tail(data, depth);
      Store(buf8, wr, CountAfter(depth, count, |data|), Overwritten(before, depth, count, data));
    }

    /** The other case of `tu_fifo_write_n`: limited to the free space. */
    method WriteBounded(data: seq<byte>) returns (n: int)
      requires Valid() && |data| < U16 && !overwritable
      modifies this`wr_idx, buffer
      ensures Valid() && n == Min(|data|, depth - |old(Contents())|)
      ensures Contents() == old(Contents()) + data[..n]
      ensures Unread() == old(Unread()) + n && wr_idx == Forward(depth, old(wr_idx), n)
      ensures buffer[..] == Pushed(old(buffer[..]), Ptr(depth, old(wr_idx)), data[..n])
    {
      n := Min(|data|, Remaining(depth, wr_idx, rd_idx));
      ghost var before := Contents();
      AdvanceIndexValue(depth, wr_idx, n);
      if n > 0 {
        NewestAfterPush(buffer[..], depth, wr_idx, Unread(), data[..n]);
        Store(data[..n], wr_idx, Unread() + n, Tail(before + data[..n], depth));
        assert Tail(before + data[..n], depth) == before + data[..n];
      } else {
        assert data[..n] == [] && Pushed(buffer[..], Ptr(depth, wr_idx), []) == buffer[..];
      }
    }

    /** `tu_fifo_write_n`. */
    method WriteN(data: seq<byte>) returns (n: int)
      requires Valid() && |data| < U16
      modifies this`wr_idx, buffer
      ensures Valid()
      ensures n == Min(|data|, if overwritable then depth else depth - |old(Contents())|)
      ensures !overwritable ==> Contents() == old(Contents()) + data[..n]
      ensures !overwritable ==> Unread() == old(Unread()) + n && wr_idx == Forward(depth, old(wr_idx), n)
      ensures !overwritable ==> buffer[..] == Pushed(old(buffer[..]), Ptr(depth, old(wr_idx)), data[..n])
      ensures overwritable ==> Contents() == Overwritten(old(Contents()), depth, old(Unread()), data)
      ensures overwritable ==> Unread() == CountAfter(depth, old(Unread()), |data|)
    {
      if |data| == 0 {
        StoreNothing(buffer[..], depth, wr_idx, Contents(), Unread(), data);
        return 0;
      }
      if overwritable {
        n := WriteOver(data);
      } else {
        n := WriteBounded(data);
      }
    }

    /** `tu_fifo_write`.  It has no double-overflow branch: with `2*depth - 1` bytes
        unread the next byte makes the indices equal and the FIFO reads as empty. */
    method WriteOne(b: byte) returns (ok: bool)
      requires Valid()
      modifies this`wr_idx, buffer
      ensures Valid() && (ok <==> overwritable || |old(Contents())| < depth)
      ensures !ok ==> Contents() == old(Contents()) && Unread() == old(Unread())
      ensures ok ==> Contents() == if old(Unread()) + 1 < 2 * depth then Tail(old(Contents()) + [b], depth) else []
      ensures ok && old(Unread()) + 1 < 2 * depth ==> Unread() == old(Unread()) + 1
    {
      var c := OverflowCount(depth, wr_idx, rd_idx);
      if c >= depth && !overwritable { return false; }
      ghost var full := c + 1 == 2 * depth;
      ghost var shown := if full then [] else Tail(Contents() + [b], depth);
      assert shown == Newest(Pushed(buffer[..], Ptr(depth, wr_idx), [b]), depth, Forward(depth, wr_idx, 1),
                             Min(if full then 0 else c + 1, depth)) by {
        if !full { NewestAfterPush(buffer[..], depth, wr_idx, c, [b]); }
      }
      Store([b], wr_idx, if full then 0 else c + 1, shown);
      ok := true;
    }

    /** `tu_fifo_peek`. */
    method PeekOne() returns (ok: bool, b: byte)
      requires Valid()
      modifies this`rd_idx
      ensures Valid() && Contents() == old(Contents()) && Unread() == |Contents()|
      ensures ok <==> Contents() != []
      ensures ok ==> b == Contents()[0]
    {
      var c, rd := OverflowCount(depth, wr_idx, rd_idx), rd_idx;
      if c == 0 { return false, 0; }
      if c > depth { rd := CorrectReadIndex(wr_idx); }
      var p := Idx2Ptr(depth, rd);
      WindowIsNewest(buffer[..], depth, wr_idx, rd);
      ok, b := true, buffer[p];
    }

    /** `tu_fifo_read`. */
    method ReadOne() returns (ok: bool, b: byte)
      requires Valid()
      modifies this`rd_idx
      ensures Valid() && Unread() == |Contents()|
      ensures ok <==> old(Contents()) != []
      ensures ok ==> [b] + Contents() == old(Contents())
      ensures !ok ==> Contents() == []
    {
      ok, b := PeekOne();
      if ok {
        AdvanceIndexValue(depth, rd_idx, 1);
        ghost var before := Contents();
        NewestSuffix(buffer[..], depth, wr_idx, |before|, 1);
        rd_idx := AdvanceIndex(depth, rd_idx, 1);
        assert Unread() == |before| - 1;
      }
    }

    // ------------------------------------------------------ pointers and regions

    /** `tu_fifo_advance_write_pointer`, by any amount: it makes no checks.  The index stays in
        range exactly if the sum is below `4*depth`; up to `2*depth` the bytes passed count as
        unread, and all of them as read once they come to twice the depth. */
    method AdvanceWritePointer(n: int)
      requires Valid() && 0 <= n < U16
      modifies this`wr_idx
      ensures Valid() <==> old(wr_idx) + n < 4 * depth
      ensures n <= 2 * depth ==> Valid() && wr_idx == Forward(depth, old(wr_idx), n)
      ensures n <= 2 * depth ==>
        Unread() == if old(Unread()) + n < 2 * depth then old(Unread()) + n else old(Unread()) + n - 2 * depth
    {
      AdvanceIndexValue(depth, wr_idx, n);
      wr_idx := AdvanceIndex(depth, wr_idx, n);
    }

    /** After `data` was stored behind the contents, it publishes them. */
    method Publish(n: int, ghost data: seq<byte>, ghost buf: seq<byte>)
      requires Valid() && |data| == n <= depth - Min(Unread(), depth) && |buf| == depth
      requires buffer[..] == Pushed(buf, Ptr(depth, wr_idx), data)
      modifies this`wr_idx
      ensures Valid() && Contents() == Newest(buf, depth, old(wr_idx), Min(old(Unread()), depth)) + data
      ensures Unread() == old(Unread()) + n && wr_idx == Forward(depth, old(wr_idx), n)
    {
      NewestThenData(buf, depth, wr_idx, Min(Unread(), depth), data);
      AdvanceWritePointer(n);
    }

    /** `tu_fifo_advance_read_pointer`, by any amount.  Over bytes that are there it removes them;
        beyond, slots already read count as unread again. */
    method AdvanceReadPointer(n: int)
      requires Valid() && 0 <= n < U16
      modifies this`rd_idx
      ensures Valid() <==> old(rd_idx) + n < 4 * depth
      ensures n <= 2 * depth ==>
        Valid() && Unread() == if n <= old(Unread()) then old(Unread()) - n else old(Unread()) - n + 2 * depth
      ensures n <= old(Unread()) <= depth ==> Contents() == old(Contents())[n..]
    {
      AdvanceIndexValue(depth, rd_idx, n);
      ghost var before := Contents();
      if n <= Unread() <= depth { NewestSuffix(buffer[..], depth, wr_idx, |before|, n); }
      rd_idx := AdvanceIndex(depth, rd_idx, n);
    }

    /** The regions from `rd` on, once the read index needs no correction. */
    method ReadRegions(wr: int, rd: int, cnt: int) returns (linear: Span, wrapped: Span)
      requires Valid() && IsIndex(depth, wr) && IsIndex(depth, rd) && 0 < cnt == OverflowCount(depth, wr, rd) <= depth
      ensures InBuffer(linear, depth) && InBuffer(wrapped, depth) && linear.len > 0
      ensures SpanBytes(buffer[..], linear) + SpanBytes(buffer[..], wrapped) == Window(buffer[..], depth, rd, cnt)
    {
      var wp := Idx2Ptr(depth, wr);
      var rp := Idx2Ptr(depth, rd);
      WindowStretches(buffer[..], depth, rd, cnt);
      if wp > rp {
        linear, wrapped := Span(cnt, Slot(rp)), Span(0, Null);
      } else {
        linear := Span(depth - rp, Slot(rp));
        wrapped := Span(cnt - linear.len, Slot(0));
      }
    }

    /** `tu_fifo_get_read_info`: the two regions concatenate to the contents. */
    method GetReadInfo() returns (linear: Span, wrapped: Span)
      requires Valid()
      modifies this`rd_idx
      ensures Valid() && Contents() == old(Contents()) && Unread() == |Contents()|
      ensures InBuffer(linear, depth) && InBuffer(wrapped, depth)
      ensures SpanBytes(buffer[..], linear) + SpanBytes(buffer[..], wrapped) == Contents()
      ensures Contents() != [] ==> linear.len > 0
    {
      var wr, rd := wr_idx, rd_idx;
      var cnt := OverflowCount(depth, wr, rd);
      if cnt > depth {
        rd := CorrectReadIndex(wr);
        cnt := depth;
      }
      if cnt == 0 { return Span(0, Null), Span(0, Null); }
      WindowIsNewest(buffer[..], depth, wr, rd);
      linear, wrapped := ReadRegions(wr, rd, cnt);
    }

    /** `tu_fifo_get_write_info`: the two regions are disjoint and are exactly the slots
        that hold no unread byte. */
    method GetWriteInfo() returns (linear: Span, wrapped: Span)
      requires Valid()
      ensures InBuffer(linear, depth) && InBuffer(wrapped, depth)
      ensures linear.len + wrapped.len == depth - |Contents()|
      ensures forall k :: 0 <= k < depth ==> ((InSpan(linear, k) || InSpan(wrapped, k)) <==> !Occupied(k))
      ensures forall k :: !(InSpan(linear, k) && InSpan(wrapped, k))
      ensures |Contents()| < depth ==> linear.len > 0 && linear.ptr == Slot(Ptr(depth, wr_idx))
      ensures wrapped.len > 0 ==> wrapped.ptr == Slot(0) && linear.ptr.index + linear.len == depth
    {
      var remain := Remaining(depth, wr_idx, rd_idx);
      if remain == 0 { return Span(0, Null), Span(0, Null); }
      var wp := Idx2Ptr(depth, wr_idx);
      var rp := Idx2Ptr(depth, rd_idx);
      if wp < rp {
        linear, wrapped := Span(rp - wp, Slot(wp)), Span(0, Null);
      } else {
        linear := Span(depth - wp, Slot(wp));
        wrapped := Span(remain - linear.len, Slot(0));
      }
    }

    /** Filling the regions by hand and advancing the write pointer leaves the FIFO as
        `WriteN` of the same bytes would. */
    method WriteThroughRegions(data: seq<byte>)
      requires Valid() && |data| <= depth - |Contents()|
      modifies this`wr_idx, buffer
      ensures Valid() && Contents() == old(Contents()) + data && Unread() == old(Unread()) + |data|
      ensures wr_idx == Forward(depth, old(wr_idx), |data|)
      ensures buffer[..] == Pushed(old(buffer[..]), Ptr(depth, old(wr_idx)), data)
    {
      var linear, wrapped := GetWriteInfo();
      ghost var buf := buffer[..];
      ghost var pushed := Pushed(buf, Ptr(depth, wr_idx), data);
      if |data| > 0 {
        var n := Min(|data|, linear.len);
        forall i | 0 <= i < n { buffer[linear.ptr.index + i] := data[i]; }
        forall i | 0 <= i < |data| - n { buffer[wrapped.ptr.index + i] := data[n + i]; }
      }
      assert buffer[..] == pushed;
      Publish(|data|, data, buf);
    }

    /** Draining the regions by hand and advancing the read pointer is `ReadN`. */
    method ReadThroughRegions(n: int) returns (out: seq<byte>)
      requires Valid() && 0 <= n < U16
      modifies this`rd_idx
      ensures Valid() && Unread() == |Contents()|
      ensures out == old(Contents())[..Min(n, |old(Contents())|)]
      ensures Contents() == old(Contents())[|out|..]
    {
      var linear, wrapped := GetReadInfo();
      ghost var before := Contents();
      var all := [];
      if linear.len > 0 { all := buffer[linear.ptr.index..linear.ptr.index + linear.len]; }
      if wrapped.len > 0 { all := all + buffer[wrapped.ptr.index..wrapped.ptr.index + wrapped.len]; }
      assert all == before;
      out := all[..Min(n, |all|)];
      AdvanceReadPointer(|out|);
    }
  }
}

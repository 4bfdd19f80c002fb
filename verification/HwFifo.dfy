/** Word-wide copies between the ring and a hardware FIFO (src/common/tusb_fifo.c).

    The hardware side moves words of 1, 2 or 4 bytes.  When a copy wraps around the end
    of the ring in the middle of a word, the code stitches that word from both ends.
    Words are little-endian, so the words of a port are laid end to end here as the bytes
    they carry.  The optional 8- and 16-bit accesses for odd tails are not configured. */
module HwFifo {
  import opened Basics
  import opened RingIndex
  import opened RingFifo

  predicate IsStride(k: int) { k == 1 || k == 2 || k == 4 }

  /** `n` rounded up to whole words, in bytes. */
  function RoundUp(n: nat, k: int): (r: nat)
    requires 0 < k
    ensures n <= r < n + k && Odd(r, k) == 0
  {
    if n == 0 then 0 else if n <= k then k else k + RoundUp(n - k, k)
  }

  /** The number of words that carry `n` bytes. */
  function Ceil(n: nat, k: int): nat
    requires 0 < k
  {
    if n == 0 then 0 else if n <= k then 1 else 1 + Ceil(n - k, k)
  }

  lemma {:induction false} CeilIsRoundedQuotient(n: nat, k: int)
    requires IsStride(k)
    ensures Ceil(n, k) == (n + k - 1) / k
  {
    if n > k {
      CeilIsRoundedQuotient(n - k, k);
      assert (k == 2 ==> (n + 1) / 2 == 1 + (n - 1) / 2) && (k == 4 ==> (n + 3) / 4 == 1 + (n - 1) / 4);
    }
  }

  lemma {:induction false} WholeWordsFirst(a: nat, b: nat, k: int)
    requires 0 < k && Odd(a, k) == 0
    ensures RoundUp(a, k) == a && RoundUp(a + b, k) == a + RoundUp(b, k) && Odd(a + b, k) == Odd(b, k)
    ensures Ceil(a + b, k) == Ceil(a, k) + Ceil(b, k)
  {
    if a >= k { WholeWordsFirst(a - k, b, k); }
  }

  lemma {:induction false} OddRemoved(n: nat, k: int)
    requires 0 < k
    ensures Odd(n - Odd(n, k), k) == 0
  {
    if n >= k { OddRemoved(n - k, k); }
  }

  function Zeros(n: nat): (s: seq<byte>) ensures |s| == n { seq(n, _ => 0) }

  /** The words that carry `s`, laid end to end, the last one padded with zeros. */
  function Padded(s: seq<byte>, k: int): (w: seq<byte>)
    requires 0 < k
    ensures |w| == RoundUp(|s|, k) && s <= w && forall x :: |s| <= x < |w| ==> w[x] == 0
  {
    s + Zeros(RoundUp(|s|, k) - |s|)
  }

  // ---------------------------------------------------------------- the port

  /** `CFG_TUSB_FIFO_HWFIFO_ADDR_STRIDE` against the data stride: a register, or a window
      whose words are a whole number of data strides apart (bytes side by side for 1). */
  predicate Strides(k: int, addrStride: nat) {
    IsStride(k) && (addrStride == 0 || (if k == 1 then addrStride == 1 else addrStride % k == 0))
  }

  /** `HWFIFO_ADDR_NEXT_N` by `n` data bytes. */
  function NextN(addr: nat, addrStride: nat, k: int, n: nat): nat
    requires IsStride(k)
  {
    if addrStride == 0 then addr
    else if k == 1 then addr + n
    else addr + n * (addrStride / k)
  }

  lemma NextNSum(addr: nat, addrStride: nat, k: int, a: nat, b: nat)
    requires IsStride(k)
    ensures NextN(NextN(addr, addrStride, k, a), addrStride, k, b) == NextN(addr, addrStride, k, a + b)
  {
    var q := addrStride / k;
    assert (a + b) * q == a * q + b * q;
  }

  lemma NextNWord(addr: nat, addrStride: nat, k: int)
    requires Strides(k, addrStride)
    ensures NextN(addr, addrStride, k, k) == addr + addrStride
  {}

  /** A hardware FIFO to read words from: a register at a fixed address (`addrStride` 0),
      or a window with a word every `addrStride` addresses.  `at` is where the bytes of the
      next word are in `bytes`, `place` the address it stands at. */
  class Source {
    const k: int
    const addrStride: nat
    const bytes: seq<byte>
    var at: nat
    var taken: nat
    var place: nat

    ghost predicate Valid()
      reads this
    {
      && Strides(k, addrStride) && at <= |bytes| && Odd(at, k) == 0
      && taken == Ceil(at, k) && place == NextN(0, addrStride, k, at)
    }

    constructor (k: int, addrStride: nat, bytes: seq<byte>)
      requires Strides(k, addrStride)
      ensures Valid() && this.k == k && this.addrStride == addrStride && this.bytes == bytes && at == 0
    {
      this.k, this.addrStride, this.bytes := k, addrStride, bytes;
      at, taken, place := 0, 0, 0;
    }

    /** The code must read where the next word stands. */
    method Read(addr: nat) returns (w: seq<byte>)
      requires Valid() && at + k <= |bytes| && addr == place
      modifies this
      ensures Valid() && at == old(at) + k && place == addr + addrStride
      ensures w == bytes[old(at)..old(at) + k]
    {
      WholeWordsFirst(at, k, k);
      NextNSum(0, addrStride, k, at, k);
      w := bytes[at..at + k];
      at, taken, place := at + k, taken + 1, place + addrStride;
    }
  }

  /** The same for writing. */
  class Sink {
    const k: int
    const addrStride: nat
    var bytes: seq<byte>
    var given: nat
    var place: nat

    ghost predicate Valid()
      reads this
    {
      && Strides(k, addrStride) && Odd(|bytes|, k) == 0
      && given == Ceil(|bytes|, k) && place == NextN(0, addrStride, k, |bytes|)
    }

    constructor (k: int, addrStride: nat)
      requires Strides(k, addrStride)
      ensures Valid() && this.k == k && this.addrStride == addrStride && bytes == []
    {
      this.k, this.addrStride := k, addrStride;
      bytes, given, place := [], 0, 0;
    }

    method Write(addr: nat, w: seq<byte>)
      requires Valid() && |w| == k && addr == place
      modifies this
      ensures Valid() && bytes == old(bytes) + w && place == addr + addrStride
    {
      WholeWordsFirst(|bytes|, k, k);
      NextNSum(0, addrStride, k, |bytes|, k);
      bytes, given, place := bytes + w, given + 1, place + addrStride;
    }
  }

  // ---------------------------------------------------------------- hardware to ring

  /** `dst` is `was` with `src[from..from + len]` stored at `at`. */
  ghost predicate Copied(dst: seq<byte>, was: seq<byte>, at: int, len: int, src: seq<byte>, from: int) {
    && |dst| == |was| && 0 <= at <= at + len <= |dst| && 0 <= from <= from + len <= |src|
    && forall x :: 0 <= x < |dst| ==> dst[x] == if at <= x < at + len then src[from + (x - at)] else was[x]
  }

  /** One word read (`stride_read`), its first `take` bytes stored. */
  method ReadWord(hw: Source, addr: nat, dest: array<byte>, at: nat, take: nat)
    requires hw.Valid() && hw.at + hw.k <= |hw.bytes| && addr == hw.place
    requires take <= hw.k && at + take <= dest.Length
    modifies hw, dest
    ensures hw.Valid() && hw.at == old(hw.at) + hw.k && hw.place == addr + hw.addrStride
    ensures Copied(dest[..], old(dest[..]), at, take, hw.bytes, old(hw.at))
  {
    var w := hw.Read(addr);
    forall i | 0 <= i < take { dest[at + i] := w[i]; }
  }

  /** `tu_hwfifo_read`: whole words, then one more word for an odd tail. */
  method HwRead(hw: Source, addr0: nat, dest: array<byte>, at: nat, len: nat)
    requires hw.Valid() && addr0 == hw.place
    requires at + len <= dest.Length && hw.at + RoundUp(len, hw.k) <= |hw.bytes|
    modifies hw, dest
    ensures hw.Valid() && hw.at == old(hw.at) + RoundUp(len, hw.k)
    ensures Copied(dest[..], old(dest[..]), at, len, hw.bytes, old(hw.at))
  {
    var done: nat, addr: nat := 0, addr0;
    ghost var p, was := hw.at, dest[..];
    while len - done >= hw.k
      invariant done <= len && RoundUp(len, hw.k) == done + RoundUp(len - done, hw.k)
      invariant hw.Valid() && hw.at == p + done && addr == hw.place
      invariant Copied(dest[..], was, at, done, hw.bytes, p)
      decreases len - done
    {
      ReadWord(hw, addr, dest, at + done, hw.k);
      done := done + hw.k;
      addr := addr + hw.addrStride;
    }
    if done < len {
      ReadWord(hw, addr, dest, at + done, len - done);
    }
  }

  /** Where a wrapped copy is cut: `linOdd` bytes are left before the end of the ring after
      the last whole word, and `wrapOdd` bytes behind it complete their word.  The cuts fall
      on word boundaries, and the words add up. */
  method Cuts(n: nat, lin: nat, k: int) returns (linOdd: nat, wrapOdd: nat)
    requires 0 < k && 0 < lin < n
    ensures linOdd <= lin && lin + wrapOdd <= n
    ensures Odd(lin - linOdd, k) == 0 && RoundUp(lin - linOdd, k) == lin - linOdd
    ensures linOdd == 0 ==> wrapOdd == 0
    ensures linOdd > 0 ==> linOdd + wrapOdd <= k && (linOdd + wrapOdd == k || lin + wrapOdd == n)
    ensures RoundUp(n, k) == lin - linOdd + (if linOdd > 0 then k else 0) + RoundUp(n - lin - wrapOdd, k)
  {
    linOdd := Odd(lin, k);
    wrapOdd := if linOdd > 0 then Min(n - lin, k - linOdd) else 0;
    assert Odd(lin - linOdd, k) == 0 by { OddRemoved(lin, k); }
    assert RoundUp(n, k) == lin - linOdd + RoundUp(n - lin + linOdd, k) && RoundUp(lin - linOdd, k) == lin - linOdd by {
      WholeWordsFirst(lin - linOdd, n - lin + linOdd, k);
    }
    assert linOdd > 0 ==> RoundUp(n - lin + linOdd, k) == k + RoundUp(n - lin - wrapOdd, k);
  }

  /** The word that straddles the end of the ring, read into `buf_temp` and dealt out. */
  method PushStitched(f: Fifo, hw: Source, addr: nat, from: nat, odd: nat, wrapOdd: nat)
    requires f.Valid() && hw.Valid() && addr == hw.place && hw.at + hw.k <= |hw.bytes|
    requires 0 < odd && odd + wrapOdd <= hw.k && from + odd == f.depth && wrapOdd <= from
    modifies hw, f.buffer
    ensures hw.Valid() && hw.at == old(hw.at) + hw.k
    ensures forall x :: 0 <= x < f.depth ==>
              f.buffer[x] == (if x >= from then hw.bytes[old(hw.at) + (x - from)]
                              else if x < wrapOdd then hw.bytes[old(hw.at) + odd + x] else old(f.buffer[x]))
  {
    var temp := new byte[4];
    HwRead(hw, addr, temp, 0, odd + wrapOdd);
    assert forall i :: 0 <= i < odd + wrapOdd ==> temp[..][i] == temp[i];
    forall i | 0 <= i < odd { f.buffer[from + i] := temp[i]; }
    forall i | 0 <= i < wrapOdd { f.buffer[i] := temp[odd + i]; }
  }

  /** The wrap-around case of `hwff_push_n` up to the word across the wrap.  With a stride of
      1 there is no word to stitch, which is the branch compiled for that stride. */
  method PushToEnd(f: Fifo, hw: Source, addr0: nat, lin: nat, linOdd: nat, wrapOdd: nat, p: nat) returns (addr: nat)
    requires f.Valid() && p < f.depth && lin == f.depth - p && wrapOdd <= p && hw.Valid() && addr0 == hw.place
    requires linOdd <= lin && Odd(lin - linOdd, hw.k) == 0 && RoundUp(lin - linOdd, hw.k) == lin - linOdd
    requires if linOdd == 0 then wrapOdd == 0 else linOdd + wrapOdd <= hw.k
    requires hw.at + (lin - linOdd) + (if linOdd > 0 then hw.k else 0) <= |hw.bytes|
    modifies hw, f.buffer
    ensures hw.Valid() && addr == hw.place
    ensures hw.at == old(hw.at) + (lin - linOdd) + (if linOdd > 0 then hw.k else 0)
    ensures forall x :: 0 <= x < f.depth ==>
              f.buffer[x] == (if x >= p then hw.bytes[old(hw.at) + (x - p)]
                              else if x < wrapOdd then hw.bytes[old(hw.at) + lin + x] else old(f.buffer[x]))
  {
    var k, buf := hw.k, f.buffer;
    var linEven := lin - linOdd;
    NextNSum(0, hw.addrStride, k, hw.at, linEven);
    HwRead(hw, addr0, buf, p, linEven);
    assert forall x :: 0 <= x < f.depth ==> buf[x] == buf[..][x];
    addr := NextN(addr0, hw.addrStride, k, linEven);
    addr := PushOdd(f, hw, addr, p + linEven, linOdd, wrapOdd);
  }

  /** The word across the wrap, if there is one. */
  method PushOdd(f: Fifo, hw: Source, addr0: nat, from: nat, odd: nat, wrapOdd: nat) returns (addr: nat)
    requires f.Valid() && hw.Valid() && addr0 == hw.place && from + odd == f.depth && wrapOdd <= from
    requires if odd == 0 then wrapOdd == 0 else odd + wrapOdd <= hw.k && hw.at + hw.k <= |hw.bytes|
    modifies hw, f.buffer
    ensures hw.Valid() && addr == hw.place && hw.at == old(hw.at) + if odd > 0 then hw.k else 0
    ensures forall x :: 0 <= x < f.depth ==>
              f.buffer[x] == (if x >= from then hw.bytes[old(hw.at) + (x - from)]
                              else if x < wrapOdd then hw.bytes[old(hw.at) + odd + x] else old(f.buffer[x]))
  {
    addr := addr0;
    if odd > 0 {
      NextNSum(0, hw.addrStride, hw.k, hw.at, hw.k);
      NextNWord(addr, hw.addrStride, hw.k);
      PushStitched(f, hw, addr, from, odd, wrapOdd);
      addr := addr + hw.addrStride;
    }
  }

  /** The whole wrap-around case. */
  method HwPushAround(f: Fifo, hw: Source, addr0: nat, n: nat, p: nat)
    requires f.Valid() && p < f.depth && f.depth - p < n <= f.depth
    requires hw.Valid() && addr0 == hw.place && hw.at + RoundUp(n, hw.k) <= |hw.bytes|
    modifies hw, f.buffer
    ensures hw.Valid() && hw.at == old(hw.at) + RoundUp(n, hw.k)
    ensures forall x :: 0 <= x < f.depth ==>
              f.buffer[x] == (if x >= p then hw.bytes[old(hw.at) + (x - p)]
                              else if x < n - (f.depth - p) then hw.bytes[old(hw.at) + (f.depth - p) + x]
                              else old(f.buffer[x]))
  {
    var lin, buf := f.depth - p, f.buffer;
    var linOdd, wrapOdd := Cuts(n, lin, hw.k);
    var addr := PushToEnd(f, hw, addr0, lin, linOdd, wrapOdd, p);
    var rest := n - lin - wrapOdd;
    if rest > 0 {
      HwRead(hw, addr, buf, wrapOdd, rest);
      assert forall x :: 0 <= x < f.depth ==> buf[x] == buf[..][x];
    }
  }

  /** `hwff_push_n`: exactly the words needed are consumed, and the ring is left as
      `ff_push_n` of their bytes would leave it. */
  method HwPush(f: Fifo, hw: Source, addr0: nat, n: nat, p: nat)
    requires f.Valid() && p < f.depth && n <= f.depth
    requires hw.Valid() && addr0 == hw.place && hw.at + RoundUp(n, hw.k) <= |hw.bytes|
    modifies hw, f.buffer
    ensures hw.Valid() && hw.at == old(hw.at) + RoundUp(n, hw.k) && hw.taken == old(hw.taken) + Ceil(n, hw.k)
    ensures f.buffer[..] == Pushed(old(f.buffer[..]), p, hw.bytes[old(hw.at)..old(hw.at) + n])
  {
    WordsAdd(hw.at, n, hw.k);
    ghost var was, at := f.buffer[..], hw.at;
    if n <= f.depth - p {
      HwRead(hw, addr0, f.buffer, p, n);
      CopiedIsPushed(f.buffer[..], was, p, hw.bytes, at, n);
    } else {
      HwPushAround(f, hw, addr0, n, p);
      AroundIsPushed(f.buffer[..], was, p, hw.bytes, at, n);
    }
  }

  lemma CopiedIsPushed(dst: seq<byte>, was: seq<byte>, p: nat, src: seq<byte>, at: nat, n: nat)
    requires p < |was| && p + n <= |was| && at + n <= |src| && Copied(dst, was, p, n, src, at)
    ensures dst == Pushed(was, p, src[at..at + n])
  {}

  lemma AroundIsPushed(dst: seq<byte>, was: seq<byte>, p: nat, src: seq<byte>, at: nat, n: nat)
    requires |dst| == |was| && p < |was| && |was| - p < n <= |was| && at + n <= |src|
    requires forall x :: 0 <= x < |dst| ==>
               dst[x] == (if x >= p then src[at + (x - p)]
                          else if x < n - (|was| - p) then src[at + (|was| - p) + x] else was[x])
    ensures dst == Pushed(was, p, src[at..at + n])
  {}

  lemma WordsAdd(start: nat, n: nat, k: int)
    requires 0 < k && Odd(start, k) == 0
    ensures Ceil(start + RoundUp(n, k), k) == Ceil(start, k) + Ceil(n, k)
  {
    WholeWordsFirst(start, RoundUp(n, k), k);
    CeilOfRoundUp(n, k);
  }

  lemma {:induction false} CeilOfRoundUp(n: nat, k: int)
    requires 0 < k
    ensures Ceil(RoundUp(n, k), k) == Ceil(n, k)
  {
    if n > k { CeilOfRoundUp(n - k, k); }
  }

  // ---------------------------------------------------------------- ring to hardware

  /** `out` is `was` followed by `src[from..from + len]` and then zeros. */
  ghost predicate Sent(out: seq<byte>, was: seq<byte>, src: seq<byte>, from: int, len: int) {
    && |out| >= |was| + len && 0 <= len && 0 <= from <= from + len <= |src|
    && forall x :: 0 <= x < |out| ==>
         out[x] == if x < |was| then was[x] else if x < |was| + len then src[from + (x - |was|)] else 0
  }

  lemma SentThen(o2: seq<byte>, o1: seq<byte>, was: seq<byte>, src: seq<byte>, from: int, a: int, b: int)
    requires Sent(o1, was, src, from, a) && |o1| == |was| + a && Sent(o2, o1, src, from + a, b)
    ensures Sent(o2, was, src, from, a + b)
  {}

  lemma SentFrom(out: seq<byte>, was: seq<byte>, src: seq<byte>, from: int, src': seq<byte>, from': int, len: int)
    requires Sent(out, was, src, from, len) && 0 <= from' <= from' + len <= |src'|
    requires src[from..from + len] == src'[from'..from' + len]
    ensures Sent(out, was, src', from', len)
  {
    forall x | 0 <= x < |out|
      ensures out[x] == if x < |was| then was[x] else if x < |was| + len then src'[from' + (x - |was|)] else 0
    {
      if |was| <= x < |was| + len {
        assert src[from..from + len][x - |was|] == src'[from'..from' + len][x - |was|];
      }
    }
  }

  /** One word written (`stride_write`), the bytes beyond `take` zero. */
  method WriteWord(hw: Sink, addr: nat, src: seq<byte>, at: nat, take: nat)
    requires hw.Valid() && addr == hw.place && take <= hw.k && at + take <= |src|
    modifies hw
    ensures hw.Valid() && hw.place == addr + hw.addrStride
    ensures |hw.bytes| == |old(hw.bytes)| + hw.k && Sent(hw.bytes, old(hw.bytes), src, at, take)
  {
    hw.Write(addr, src[at..at + take] + Zeros(hw.k - take));
  }

  /** `tu_hwfifo_write`: whole words, then one zero-padded word for an odd tail.  The
      source is only read, so it is a sequence here. */
  method HwWrite(hw: Sink, addr0: nat, src: seq<byte>, at: nat, len: nat)
    requires hw.Valid() && addr0 == hw.place && at + len <= |src|
    modifies hw
    ensures hw.Valid() && |hw.bytes| == |old(hw.bytes)| + RoundUp(len, hw.k)
    ensures Sent(hw.bytes, old(hw.bytes), src, at, len)
  {
    var done: nat, addr: nat := 0, addr0;
    ghost var was := hw.bytes;
    while len - done >= hw.k
      invariant done <= len && RoundUp(len, hw.k) == done + RoundUp(len - done, hw.k)
      invariant hw.Valid() && addr == hw.place
      invariant |hw.bytes| == |was| + done && Sent(hw.bytes, was, src, at, done)
      decreases len - done
    {
      ghost var before := hw.bytes;
      WriteWord(hw, addr, src, at + done, hw.k);
      SentThen(hw.bytes, before, was, src, at, done, hw.k);
      done := done + hw.k;
      addr := addr + hw.addrStride;
    }
    if done < len {
      ghost var before := hw.bytes;
      WriteWord(hw, addr, src, at + done, len - done);
      SentThen(hw.bytes, before, was, src, at, done, len - done);
    }
  }

  /** The same, told as the next part of `ring`, of which `a` bytes have gone out. */
  method HwWriteNext(hw: Sink, addr0: nat, src: seq<byte>, at: nat, len: nat,
                     ghost was: seq<byte>, ghost ring: seq<byte>, ghost a: nat)
    requires hw.Valid() && addr0 == hw.place && at + len <= |src| && a + len <= |ring|
    requires |hw.bytes| == |was| + a && Sent(hw.bytes, was, ring, 0, a)
    requires src[at..at + len] == ring[a..a + len]
    modifies hw
    ensures hw.Valid() && |hw.bytes| == |was| + a + RoundUp(len, hw.k)
    ensures Sent(hw.bytes, was, ring, 0, a + len)
  {
    HwWrite(hw, addr0, src, at, len);
    SentFrom(hw.bytes, old(hw.bytes), src, at, ring, a, len);
    SentThen(hw.bytes, old(hw.bytes), was, ring, 0, a, len);
  }

  /** The ring read from slot `p` on, all the way around. */
  function Ring(buf: seq<byte>, p: nat): (r: seq<byte>)
    requires p < |buf|
    ensures |r| == |buf|
  {
    buf[p..] + buf[..p]
  }

  lemma RingBeforeWrap(buf: seq<byte>, p: nat, i: nat)
    requires p < |buf| && p + i <= |buf|
    ensures buf[p..p + i] == Ring(buf, p)[0..0 + i]
  {}

  lemma RingAcrossWrap(buf: seq<byte>, p: nat, i: nat, w: nat, word: seq<byte>)
    requires p < |buf| && p + i <= |buf| && w <= p && word == buf[p + i..] + buf[..w]
    ensures word[0..0 + |word|] == Ring(buf, p)[i..i + |word|]
  {}

  lemma RingAfterWrap(buf: seq<byte>, p: nat, w: nat, r: nat)
    requires p < |buf| && w + r <= p
    ensures var at := |buf| - p + w; buf[w..w + r] == Ring(buf, p)[at..at + r]
  {
    var ring, at := Ring(buf, p), |buf| - p + w;
    var x, y := buf[w..w + r], ring[at..at + r];
    forall k | 0 <= k < |x|
      ensures x[k] == y[k]
    {
      assert y[k] == ring[at + k] == buf[..p][w + k];
    }
  }

  /** The wrap-around case of `hwff_pull_n` up to the word across the wrap, which is gathered
      in `buf_temp`.  The buffer is only read, so it is a sequence here. */
  method PullToEnd(buf: seq<byte>, hw: Sink, addr0: nat, lin: nat, linOdd: nat, wrapOdd: nat, p: nat) returns (addr: nat)
    requires p < |buf| && lin == |buf| - p && wrapOdd <= p && hw.Valid() && addr0 == hw.place
    requires linOdd <= lin && Odd(lin - linOdd, hw.k) == 0 && RoundUp(lin - linOdd, hw.k) == lin - linOdd
    requires if linOdd == 0 then wrapOdd == 0 else linOdd + wrapOdd <= hw.k
    modifies hw
    ensures hw.Valid() && addr == hw.place
    ensures |hw.bytes| == |old(hw.bytes)| + (lin - linOdd) + (if linOdd > 0 then hw.k else 0)
    ensures Sent(hw.bytes, old(hw.bytes), Ring(buf, p), 0, lin + wrapOdd)
  {
    var k := hw.k;
    var linEven := lin - linOdd;
    ghost var was, ring := hw.bytes, Ring(buf, p);
    NextNSum(0, hw.addrStride, k, |hw.bytes|, linEven);
    RingBeforeWrap(buf, p, linEven);
    HwWriteNext(hw, addr0, buf, p, linEven, was, ring, 0);
    addr := NextN(addr0, hw.addrStride, k, linEven);
    if linOdd > 0 {
      NextNSum(0, hw.addrStride, k, |hw.bytes|, k);
      NextNWord(addr, hw.addrStride, k);
      var temp := buf[p + linEven..] + buf[..wrapOdd];
      RingAcrossWrap(buf, p, linEven, wrapOdd, temp);
      HwWriteNext(hw, addr, temp, 0, |temp|, was, ring, linEven);
      addr := addr + hw.addrStride;
    }
  }

  /** The whole wrap-around case. */
  method HwPullAround(buf: seq<byte>, hw: Sink, addr0: nat, n: nat, p: nat)
    requires p < |buf| && |buf| - p < n <= |buf| && hw.Valid() && addr0 == hw.place
    modifies hw
    ensures hw.Valid() && |hw.bytes| == |old(hw.bytes)| + RoundUp(n, hw.k)
    ensures Sent(hw.bytes, old(hw.bytes), Ring(buf, p), 0, n)
  {
    var lin := |buf| - p;
    var linOdd, wrapOdd := Cuts(n, lin, hw.k);
    var rest := n - lin - wrapOdd;
    ghost var was := hw.bytes;
    var addr := PullToEnd(buf, hw, addr0, lin, linOdd, wrapOdd, p);
    if rest > 0 {
      RingAfterWrap(buf, p, wrapOdd, rest);
      HwWriteNext(hw, addr, buf, wrapOdd, rest, was, Ring(buf, p), lin + wrapOdd);
    }
  }

  lemma SentIsPadded(out: seq<byte>, was: seq<byte>, src: seq<byte>, n: nat, k: int)
    requires 0 < k && Sent(out, was, src, 0, n) && |out| == |was| + RoundUp(n, k)
    ensures out == was + Padded(src[..n], k)
  {}

  /** `hwff_pull_n`: the zero-padded words of the bytes from index `i` on. */
  method HwPull(f: Fifo, hw: Sink, addr0: nat, n: nat, i: int, p: nat)
    requires f.Valid() && IsIndex(f.depth, i) && p == Ptr(f.depth, i) && n <= f.depth && hw.Valid() && addr0 == hw.place
    modifies hw
    ensures hw.Valid() && hw.given == old(hw.given) + Ceil(n, hw.k)
    ensures hw.bytes == old(hw.bytes) + Padded(Window(f.buffer[..], f.depth, i, n), hw.k)
  {
    WordsAdd(|hw.bytes|, n, hw.k);
    var buf := f.buffer[..];
    ghost var was := hw.bytes;
    WindowStretches(buf, f.depth, i, n);
    assert Window(buf, f.depth, i, n) == Ring(buf, p)[..n];
    if n <= f.depth - p {
      RingBeforeWrap(buf, p, n);
      HwWriteNext(hw, addr0, buf, p, n, was, Ring(buf, p), 0);
    } else {
      HwPullAround(buf, hw, addr0, n, p);
    }
    SentIsPadded(hw.bytes, was, Ring(buf, p), n, hw.k);
  }
}

/** Continuous streaming (src/logic_analyzer_bridge.c).

    DMA writes samples into a circular buffer without end; an interrupt counts completed
    passes, possibly late.  `la_stream_take` turns that count into chunk numbers, skips
    chunks that may have been overwritten and reports them as overruns.  The ghost
    `sampled` is the true stream: every byte DMA has written since the start. */
module LaStream {
  import opened Basics
  import opened RingIndex
  import LaConfig

  const U32 := 0x1_0000_0000
  const U64 := 0x1_0000_0000_0000_0000

  // ---------------------------------------------------------------- positions and slots

  lemma SlotsDiffer(p: nat, q: nat, b: nat)
    requires p < q < p + b
    ensures p % b != q % b
  {
    var k, r, d := p / b, p % b, q - p;
    assert q == k * b + (r + d);
    if r + d < b {
      ModuloBelow(r + d, k, b);
    } else {
      assert q == (r + d - b) + (k + 1) * b;
      ModuloBelow(r + d - b, k + 1, b);
    }
  }

  /** A chunk's place in the buffer is its place in the stream, modulo the buffer. */
  lemma ChunkOffset(c: nat, chunk: nat, slots: nat, i: nat)
    requires 0 < chunk && 0 < slots && i < chunk
    ensures (c % slots) * chunk + i == (c * chunk + i) % (slots * chunk) < slots * chunk
  {
    var q, r, b := c / slots, c % slots, slots * chunk;
    assert c == q * slots + r;
    assert c * chunk == q * b + r * chunk;
    assert (r + 1) * chunk <= slots * chunk;
    assert r * chunk + i < b;
    ModuloBelow(r * chunk + i, q, b);
  }

  /** The stream position that slot `x` holds after `w` bytes: the last one that fell on it. */
  function HeldAt(w: nat, b: nat, x: nat): int
    requires x < b
  {
    if w == 0 then -1 else if (w - 1) % b == x then w - 1 else HeldAt(w - 1, b, x)
  }

  lemma {:induction false} HeldAtIs(w: nat, b: nat, x: nat, p: nat)
    requires x < b && p < w <= p + b && p % b == x
    ensures HeldAt(w, b, x) == p
  {
    if p < w - 1 {
      SlotsDiffer(p, w - 1, b);
      HeldAtIs(w - 1, b, x, p);
    }
  }

  lemma {:induction false} HeldAtLast(w: nat, b: nat, x: nat)
    requires x < b
    ensures HeldAt(w, b, x) < w && (HeldAt(w, b, x) >= 0 ==> HeldAt(w, b, x) % b == x)
    ensures forall p :: HeldAt(w, b, x) < p < w ==> p % b != x
  {
    if w > 0 && (w - 1) % b != x { HeldAtLast(w - 1, b, x); }
  }

  /** A slot holds stream position `p` once it is written and until DMA has come round. */
  lemma HeldExactly(w: nat, b: nat, p: nat)
    requires 0 < b
    ensures HeldAt(w, b, p % b) == p <==> p < w <= p + b
  {
    HeldAtLast(w, b, p % b);
    NextLap(p, b);
    if p < w <= p + b { HeldAtIs(w, b, p % b, p); }
  }

  /** Byte `i` of chunk `c` is in its place after `w` bytes. */
  predicate InPlace(w: nat, c: nat, chunk: nat, slots: nat, i: nat)
    requires 0 < chunk && 0 < slots
  {
    var x := (c % slots) * chunk + i;
    x < slots * chunk && HeldAt(w, slots * chunk, x) == c * chunk + i
  }

  lemma InPlaceExactly(w: nat, c: nat, chunk: nat, slots: nat, i: nat)
    requires 0 < chunk && 0 < slots && i < chunk
    ensures InPlace(w, c, chunk, slots, i) <==> c * chunk + i < w <= c * chunk + i + slots * chunk
  {
    ChunkOffset(c, chunk, slots, i);
    HeldExactly(w, slots * chunk, c * chunk + i);
  }

  lemma HeldInWindow(w: nat, c: nat, chunk: nat, slots: nat, b: nat, i: nat)
    requires 0 < chunk && 0 < slots && i < chunk && b == slots * chunk && c * chunk + chunk <= w <= c * chunk + b
    ensures (c % slots) * chunk + i < b && c * chunk + i < w
    ensures HeldAt(w, b, (c % slots) * chunk + i) == c * chunk + i
  {
    InPlaceExactly(w, c, chunk, slots, i);
  }

  /** The buffer holds exactly the bytes of chunk `c` in its place if and only if the chunk has
      been written and DMA has not come round to it again. */
  lemma ChunkIntactExactly(w: nat, c: nat, chunk: nat, slots: nat)
    requires 0 < chunk && 0 < slots
    ensures (forall i :: 0 <= i < chunk ==> InPlace(w, c, chunk, slots, i))
            <==> c * chunk + chunk <= w <= c * chunk + slots * chunk
  {
    forall i | 0 <= i < chunk
      ensures InPlace(w, c, chunk, slots, i) <==> c * chunk + i < w <= c * chunk + i + slots * chunk
    {
      InPlaceExactly(w, c, chunk, slots, i);
    }
    assert InPlace(w, c, chunk, slots, 0) <==> c * chunk < w <= c * chunk + slots * chunk;
    var last := chunk - 1;
    assert InPlace(w, c, chunk, slots, last) <==> c * chunk + last < w <= c * chunk + last + slots * chunk;
  }

  lemma NextLap(p: nat, b: nat)
    requires 0 < b
    ensures (p + b) % b == p % b
  {
    ModuloBelow(p % b, p / b + 1, b);
    assert p + b == p % b + (p / b + 1) * b;
  }

  lemma TwoSlots(b: nat, chunk: nat)
    requires 0 < chunk && b % chunk == 0 && b >= 2 * chunk
    ensures b / chunk >= 2 && b == (b / chunk) * chunk
  {
    var q := b / chunk;
    assert b == q * chunk;
    assert q <= 1 ==> q * chunk <= chunk;
  }

  lemma MulLe(a: nat, b: nat, k: nat)
    requires a <= b
    ensures a * k <= b * k
  {
    assert (b - a) * k >= 0;
  }

  /** Chunk `k` may be overwritten any moment, or is already, once `produced` bytes are counted
      in a buffer of `size`. */
  predicate Lapped(k: nat, chunk: nat, size: nat, produced: nat) {
    k * chunk + size <= produced
  }

  predicate AllLapped(from: nat, to: nat, chunk: nat, size: nat, produced: nat) {
    forall k :: from <= k < to ==> Lapped(k, chunk, size, produced)
  }

  lemma LappedBefore(k: nat, c: nat, chunk: nat, size: nat, produced: nat)
    requires k <= c && Lapped(c, chunk, size, produced)
    ensures Lapped(k, chunk, size, produced)
  {
    MulLe(k, c, chunk);
  }

  /** The chunk `completed - slots + 1` has been produced and is not lapped; the one before is. */
  lemma OldestKept(produced: nat, chunk: nat, slots: nat)
    requires 0 < chunk && 2 <= slots <= produced / chunk
    ensures var c := produced / chunk - slots + 1;
            && c * chunk + chunk <= produced && !Lapped(c, chunk, slots * chunk, produced)
            && Lapped(c - 1, chunk, slots * chunk, produced)
  {
    var done, c := produced / chunk, produced / chunk - slots + 1;
    assert produced == done * chunk + produced % chunk;
    MulLe(c + 1, done, chunk);
    assert (c + 1) * chunk == c * chunk + chunk;
    assert (c - 1 + slots) * chunk == (c - 1) * chunk + slots * chunk;
    assert (c + slots) * chunk == c * chunk + slots * chunk == done * chunk + chunk;
  }

  /** With fewer than `slots` chunks waiting, the one due has been produced and is not lapped. */
  lemma DueKept(produced: nat, next: nat, chunk: nat, slots: nat)
    requires 0 < chunk && 2 <= slots && next < produced / chunk < next + slots
    ensures next * chunk + chunk <= produced && !Lapped(next, chunk, slots * chunk, produced)
  {
    var done := produced / chunk;
    assert produced == done * chunk + produced % chunk;
    MulLe(next + 1, done, chunk);
    MulLe(done + 1, next + slots, chunk);
    assert (next + 1) * chunk == next * chunk + chunk && (done + 1) * chunk == done * chunk + chunk;
    assert (next + slots) * chunk == next * chunk + slots * chunk;
  }

  // ---------------------------------------------------------------- the engine

  datatype Block = Block(offset: nat, bytes: nat, samples: nat, sequence: nat, overruns: nat, firstSample: nat)

  /** A block handed out: its chunk, how many chunks were skipped just before it, and how many
      bytes were counted as produced then. */
  datatype Delivery = Delivery(chunk: nat, skipped: nat, produced: nat, block: Block)

  /** What the two DMA channels show while progress is read: both idle, one running, or the
      one seen running finished before its count was read. */
  datatype Seen = BothIdle | Running | Finished

  /** The produced count, when the passes counted so far amount to `whole` bytes and DMA is
      `inRound` bytes into a pass: what it was, or what the counted passes and the whole samples
      of this pass amount to, if that is more. */
  function Later(last: nat, seen: Seen, whole: nat, inRound: nat, b: nat, w: nat): int
    requires 0 < w
  {
    var now := if seen == Finished then whole + b else whole + (inRound - inRound % w);
    if seen == BothIdle || now < last then last else now
  }

  /** It is never more than a sample or the present pass behind, once the interrupt has come. */
  lemma LaterIsClose(last: nat, seen: Seen, passes: nat, rounds: nat, inRound: nat, b: nat, w: nat, made: nat)
    requires 0 < w && made == rounds * b + inRound && last <= made
    ensures var produced := Later(last, seen, passes * b, inRound, b, w);
            && (seen.Running? && passes == rounds ==> made < produced + w)
            && (seen.Running? && passes == rounds && inRound % w == 0 ==> produced == made)
            && (seen.Finished? && passes + 1 == rounds ==> made <= produced + inRound)
  {
    assert (passes + 1) * b == passes * b + b;
  }

  /** The chunk due before delivery `i`, and the overruns reported by then. */
  function DueAt(h: seq<Delivery>, i: nat): nat
    requires i <= |h|
  {
    if i == 0 then 0 else h[i - 1].chunk + 1
  }

  function LostAt(h: seq<Delivery>, i: nat): nat
    requires i <= |h|
  {
    if i == 0 then 0 else h[i - 1].block.overruns
  }

  /** `c * samples` in 64 bits, as a count. */
  function FirstSample(c: nat, samples: nat): nat {
    if c == 0 then 0 else (FirstSample(c - 1, samples) + samples) % U64
  }

  lemma {:induction false} FirstSampleIsProduct(c: nat, samples: nat)
    ensures FirstSample(c, samples) == (c * samples) % U64
  {
    if c > 0 {
      FirstSampleIsProduct(c - 1, samples);
      assert c * samples == (c - 1) * samples + samples;
      AddModulo((c - 1) * samples, samples);
    }
  }

  lemma FirstSampleGap(c: nat, k: nat, samples: nat)
    ensures FirstSample(c + k, samples) == (FirstSample(c, samples) + k * samples) % U64
  {
    FirstSampleIsProduct(c + k, samples);
    FirstSampleIsProduct(c, samples);
    assert (c + k) * samples == c * samples + k * samples;
    AddModulo(c * samples, k * samples);
  }

  /** Delivery number `i`: it follows on from the one before except for the chunks it newly
      reports as overruns; its sequence number is the number of blocks before it plus all
      overruns reported (modulo 2^32); its first sample is where its chunk starts. */
  predicate Follows(due: nat, lost: nat, d: Delivery, i: nat, chunk: nat, samples: nat) {
    && d.chunk == due + d.skipped
    && d.block.overruns == (lost + d.skipped) % U32
    && d.chunk % U32 == (i + d.block.overruns) % U32
    && Describes(d.block, d.chunk, d.block.overruns, chunk, samples)
  }

  /** The header of a block: chunk `c`, `lost` overruns. */
  predicate Describes(b: Block, c: nat, lost: nat, chunk: nat, samples: nat) {
    && b.sequence == c % U32 && b.overruns == lost && b.firstSample == FirstSample(c, samples)
    && b.bytes == chunk && b.samples == samples
  }

  /** Every delivery of a history does. */
  predicate Gapless(h: seq<Delivery>, chunk: nat, samples: nat)
    decreases |h|
  {
    h == [] ||
    var n := |h| - 1;
    Gapless(h[..n], chunk, samples) && Follows(DueAt(h, n), LostAt(h, n), h[n], n, chunk, samples)
  }

  /** A gapless history after which chunk `next` is due and `lost` overruns are reported: the
      chunks before `next` are the blocks handed out plus those reported lost. */
  predicate Accounted(h: seq<Delivery>, next: nat, lost: nat, chunk: nat, samples: nat) {
    && Gapless(h, chunk, samples) && next == DueAt(h, |h|) && lost == LostAt(h, |h|) < U32
    && next % U32 == (|h| + lost) % U32
  }

  lemma {:induction false} GaplessAt(h: seq<Delivery>, chunk: nat, samples: nat, i: nat)
    requires Gapless(h, chunk, samples) && i < |h|
    ensures Follows(DueAt(h, i), LostAt(h, i), h[i], i, chunk, samples)
    decreases |h|
  {
    var n := |h| - 1;
    if i < n {
      GaplessAt(h[..n], chunk, samples, i);
      assert DueAt(h[..n], i) == DueAt(h, i) && LostAt(h[..n], i) == LostAt(h, i);
    }
  }

  /** Between two blocks in a row, the first samples are apart by one block and the chunks
      newly reported, and the report grows by exactly those (modulo 2^32). */
  lemma GapsAreReported(h: seq<Delivery>, chunk: nat, samples: nat, i: nat)
    requires Gapless(h, chunk, samples) && i + 1 < |h|
    ensures h[i].chunk < h[i + 1].chunk == h[i].chunk + 1 + h[i + 1].skipped
    ensures h[i + 1].block.overruns == (h[i].block.overruns + h[i + 1].skipped) % U32
    ensures h[i + 1].block.firstSample == (h[i].block.firstSample + (1 + h[i + 1].skipped) * samples) % U64
  {
    GaplessAt(h, chunk, samples, i + 1);
    FirstSamplesApart(h, chunk, samples, i);
  }

  lemma FirstSamplesApart(h: seq<Delivery>, chunk: nat, samples: nat, i: nat)
    requires Gapless(h, chunk, samples) && i + 1 < |h|
    ensures h[i + 1].block.firstSample == (h[i].block.firstSample + (1 + h[i + 1].skipped) * samples) % U64
  {
    var c, k := h[i].chunk, 1 + h[i + 1].skipped;
    assert h[i].block.firstSample == FirstSample(c, samples) by { GaplessAt(h, chunk, samples, i); }
    assert h[i + 1].block.firstSample == FirstSample(c + k, samples) by { GaplessAt(h, chunk, samples, i + 1); }
    FirstSampleGap(c, k, samples);
  }

  /** The chunk of a delivery was whole and not lapped, and the last one skipped for it was. */
  predicate Forced(d: Delivery, chunk: nat, size: nat) {
    && d.chunk * chunk + chunk <= d.produced && !Lapped(d.chunk, chunk, size, d.produced)
    && (d.skipped > 0 ==> d.skipped <= d.chunk && Lapped(d.chunk - 1, chunk, size, d.produced))
  }

  predicate AllForced(h: seq<Delivery>, chunk: nat, size: nat) {
    forall i :: 0 <= i < |h| ==> Forced(h[i], chunk, size)
  }

  /** No chunk is given up without need: every chunk reported lost was lapped when it was, and
      the chunk due is handed out if and only if it was not. */
  lemma SkippedOnlyIfLapped(h: seq<Delivery>, chunk: nat, samples: nat, size: nat, i: nat, k: nat)
    requires Gapless(h, chunk, samples) && AllForced(h, chunk, size) && i < |h|
    ensures DueAt(h, i) <= k < h[i].chunk ==> Lapped(k, chunk, size, h[i].produced)
    ensures h[i].chunk == DueAt(h, i) <==> !Lapped(DueAt(h, i), chunk, size, h[i].produced)
  {
    var d := h[i];
    GaplessAt(h, chunk, samples, i);
    assert Forced(d, chunk, size);
    if k < d.chunk && d.skipped > 0 { LappedBefore(k, d.chunk - 1, chunk, size, d.produced); }
    if d.skipped > 0 { LappedBefore(DueAt(h, i), d.chunk - 1, chunk, size, d.produced); }
  }

  lemma AddModulo(a: nat, b: nat)
    ensures (a + b) % U64 == (a % U64 + b) % U64
  {}

  class Stream {
    const buffer: array<byte>      // captureBuffer
    var chunk: nat                 // chunk_bytes and bytes_per_sample, fixed while running
    var width: nat
    var running: bool
    var outstanding: bool
    var passes: nat                // completed passes the interrupt has counted
    var nextChunk: nat
    var lastProduced: nat
    var overruns: nat
    ghost var sampled: seq<byte>   // what DMA has written since the start
    var rounds: nat                // passes DMA has really completed
    var inRound: nat               // bytes of the pass it is in: the DMA position
    ghost var history: seq<Delivery>

    ghost function Slots(): nat
      reads this`chunk
      requires chunk > 0
    {
      buffer.Length / chunk
    }

    /** A configuration that was accepted: the buffer holds at least two whole chunks. */
    ghost predicate Configured()
      reads this`chunk, this`width
    {
      && (width == 1 || width == 2 || width == 4)
      && 0 < chunk && chunk % 4 == 0 && Slots() >= 2 && buffer.Length == Slots() * chunk
    }

    /** Each slot holds the last byte that fell on it; none yet means it is still zero. */
    ghost predicate BufferOk()
      reads this`sampled, buffer
    {
      forall x :: 0 <= x < buffer.Length ==>
        var p := HeldAt(|sampled|, buffer.Length, x);
        -1 <= p < |sampled| && buffer[x] == if p >= 0 then sampled[p] else 0
    }

    ghost predicate CountsOk()
      reads this`sampled, this`rounds, this`inRound, this`passes, this`lastProduced, this`nextChunk, this`chunk
    {
      && inRound < buffer.Length && |sampled| == rounds * buffer.Length + inRound
      && passes <= rounds && lastProduced <= |sampled|
      && nextChunk * chunk <= lastProduced
    }

    ghost predicate HistoryOk()
      reads this`history, this`overruns, this`nextChunk, this`chunk, this`width
    {
      && width > 0 && Accounted(history, nextChunk, overruns, chunk, chunk / width)
      && (AllForced(history, chunk, buffer.Length) == true)
    }

    ghost predicate Valid()
      reads this, buffer
    {
      Configured() && BufferOk() && CountsOk() && HistoryOk()
    }

    /** `la_stream_start`, with the configuration in force. */
    constructor (buffer: array<byte>, chunk: nat, width: nat)
      requires width == 1 || width == 2 || width == 4
      requires 0 < chunk && chunk % 4 == 0 && buffer.Length % chunk == 0 && buffer.Length >= 2 * chunk
      requires forall x :: 0 <= x < buffer.Length ==> buffer[x] == 0
      ensures Valid() && running && !outstanding && sampled == [] && history == [] && this.buffer == buffer
      ensures this.chunk == chunk && this.width == width && passes == nextChunk == lastProduced == 0
    {
      this.buffer, this.chunk, this.width := buffer, chunk, width;
      running, outstanding := true, false;
      passes, nextChunk, lastProduced, overruns := 0, 0, 0, 0;
      sampled, rounds, history := [], 0, [];
      inRound := 0;
      TwoSlots(buffer.Length, chunk);
    }

    /** Hardware: DMA stores one more byte, wrapping at the end of the buffer. */
    method DmaByte(b: byte)
      requires Valid()
      modifies buffer, this`sampled, this`rounds, this`inRound
      ensures Valid() && sampled == old(sampled) + [b]
      ensures rounds == old(rounds) + (if old(inRound) + 1 == buffer.Length then 1 else 0)
    {
      ModuloBelow(inRound, rounds, buffer.Length);
      assert |sampled| % buffer.Length == inRound;
      buffer[inRound] := b;
      sampled := sampled + [b];
      inRound := inRound + 1;
      if inRound == buffer.Length {
        assert (rounds + 1) * buffer.Length == rounds * buffer.Length + buffer.Length;
        rounds := rounds + 1;
        inRound := 0;
      }
    }

    /** Hardware: the interrupt counts a pass.  It may come late, and two passes may share
        one interrupt, but it never comes early. */
    method Interrupt()
      requires Valid() && passes < rounds < U32
      modifies this`passes
      ensures Valid() && passes == old(passes) + 1
    {
      passes := passes + 1;
    }

    /** Hardware: DMA goes on for a while. */
    method Dma(bytes: seq<byte>)
      requires Valid()
      modifies buffer, this`sampled, this`rounds, this`inRound
      ensures Valid() && sampled == old(sampled) + bytes
      ensures rounds >= old(rounds) && (old(inRound) + |bytes| >= buffer.Length ==> rounds > old(rounds))
      ensures bytes == [] ==> rounds == old(rounds) && inRound == old(inRound)
    {
      for i := 0 to |bytes|
        invariant Valid() && sampled == old(sampled) + bytes[..i]
        invariant if rounds == old(rounds) then inRound == old(inRound) + i else rounds > old(rounds)
        invariant i == 0 ==> rounds == old(rounds)
      {
        DmaByte(bytes[i]);
      }
      assert bytes[..|bytes|] == bytes;
    }

    /** `la_stream_produced_bytes`.  The pass count is read first; DMA writes `during` before
        its position is read.  The result never runs ahead of DMA and never goes back, however
        far the interrupt lags; it is exact when the interrupt has caught up, no sample is
        half written and a channel is seen running. */
    method ProducedBytes(seen: Seen, during: seq<byte>) returns (produced: nat)
      requires Valid() && (seen.Finished? ==> inRound + |during| >= buffer.Length)
      modifies buffer, this`sampled, this`rounds, this`inRound, this`lastProduced
      ensures Valid() && sampled == old(sampled) + during
      ensures during == [] ==> rounds == old(rounds) && inRound == old(inRound)
      ensures produced == lastProduced && old(lastProduced) <= produced <= |sampled|
      ensures Counted(produced, old(lastProduced), seen) == true
    {
      var counted := passes;
      Dma(during);
      ghost var last := lastProduced;
      produced := lastProduced;
      if !seen.BothIdle? {
        var now := Progress(counted, seen.Finished?);
        if now >= lastProduced { produced := now; }
      }
      lastProduced := produced;
      LaterIsClose(last, seen, passes, rounds, inRound, buffer.Length, width, |sampled|);
    }

    /** What is counted as produced: its value, how far behind it can be once the interrupt has
        come, and when it is exact. */
    ghost predicate Counted(produced: nat, last: nat, seen: Seen)
      reads this`passes, this`rounds, this`inRound, this`width, this`sampled
    {
      && width > 0 && produced == Later(last, seen, passes * buffer.Length, inRound, buffer.Length, width)
      && (seen.Running? && passes == rounds && inRound % width == 0 ==> produced == |sampled|)
      && (seen.Running? && passes == rounds ==> |sampled| < produced + width)
      && (seen.Finished? && passes + 1 == rounds ==> |sampled| <= produced + inRound)
    }

    /** What the passes counted and the channel's remaining count amount to. */
    method Progress(counted: nat, finished: bool) returns (produced: nat)
      requires Configured() && inRound < buffer.Length && if finished then counted < rounds else counted <= rounds
      ensures produced == counted * buffer.Length + (if finished then buffer.Length else inRound - inRound % width)
      ensures produced <= rounds * buffer.Length + inRound
    {
      WholeTransfers(buffer.Length, chunk, Slots(), width);
      ProgressBound(finished, counted, rounds, inRound, buffer.Length, width);
      produced := counted * buffer.Length + Moved(finished, inRound, buffer.Length, width);
    }

    /** `la_stream_take`.  The block handed out is a chunk that has been produced and that what
        has been produced does not lap.  So it holds exactly bytes
        `[c*chunk, (c+1)*chunk)` of the stream while DMA itself has not lapped it either,
        which is sure whenever the produced count is exact. */
    method Take(seen: Seen, during: seq<byte>) returns (block: Option<Block>, ghost c: nat)
      requires Valid() && (seen.Finished? ==> inRound + |during| >= buffer.Length)
      modifies buffer, this`sampled, this`rounds, this`inRound, this`lastProduced
      modifies this`nextChunk, this`overruns, this`outstanding, this`history
      ensures Valid()
      ensures running && !old(outstanding) ==> Counted(lastProduced, old(lastProduced), seen) == true
      ensures block.Some? <==> running && !old(outstanding) && old(nextChunk) < lastProduced / chunk
      ensures sampled == old(sampled) || sampled == old(sampled) + during
      ensures during == [] ==> rounds == old(rounds) && inRound == old(inRound)
      ensures block == None ==> history == old(history) && nextChunk == old(nextChunk) && outstanding == old(outstanding)
      ensures block.Some? ==> Took(block.value, c, old(nextChunk), old(history))
    {
      if !running || outstanding { return None, 0; }
      var produced := ProducedBytes(seen, during);
      if nextChunk >= produced / chunk { return None, 0; }
      var b;
      b, c := TakeDue();
      block := Some(b);
    }

    /** Block `b` of chunk `c` was handed out, when `next` was due: the chunk has been produced,
        what has been produced does not lap it but every chunk skipped, and `b` says where it
        lies. */
    ghost predicate Took(b: Block, c: nat, next: nat, before: seq<Delivery>)
      reads this
    {
      && outstanding && next <= c && history == before + [Delivery(c, c - next, lastProduced, b)]
      && 0 < chunk && c * chunk + chunk <= lastProduced < c * chunk + buffer.Length
      && (AllLapped(next, c, chunk, buffer.Length, lastProduced) == true)
      && Slots() > 0 && b.offset == (c % Slots()) * chunk
    }

    /** `la_stream_take`, when a chunk is due. */
    method TakeDue() returns (b: Block, c: nat)
      requires Valid() && nextChunk < lastProduced / chunk
      modifies this`nextChunk, this`overruns, this`outstanding, this`history
      ensures Valid() && Took(b, c, old(nextChunk), old(history))
    {
      var lost;
      c, lost := Choose(lastProduced);
      b := Describe(c, lost);
      Deliver(c, b);
    }

    /** `la_stream_release` and `la_stream_stop`: a block can be taken again, or none any more.
        Neither touches the stream or its account. */
    method Release()
      requires Valid()
      modifies this`outstanding
      ensures Valid() && !outstanding
    {
      outstanding := false;
    }

    method Stop()
      requires Valid()
      modifies this`running, this`outstanding
      ensures Valid() && !running && outstanding == (old(outstanding) && !old(running))
    {
      if !running { return; }
      running := false;
      outstanding := false;
    }

    /** The block taken holds bytes `[c*chunk, (c+1)*chunk)` of the stream, in order, as long as
        DMA has not come round to it; in particular if the produced count was exact. */
    lemma BlockHolds(b: Block, c: nat, next: nat, before: seq<Delivery>, i: nat)
      requires Valid() && Took(b, c, next, before) && i < chunk
      requires |sampled| <= c * chunk + buffer.Length
      ensures b.offset + i < buffer.Length && c * chunk + i < |sampled|
      ensures buffer[b.offset + i] == sampled[c * chunk + i]
    {
      HeldThere(b.offset, c, i);
      SlotShows(b.offset + i, c * chunk + i);
    }

    lemma HeldThere(offset: nat, c: nat, i: nat)
      requires Configured() && i < chunk && c * chunk + chunk <= |sampled| <= c * chunk + buffer.Length
      requires offset == (c % Slots()) * chunk
      ensures offset + i < buffer.Length && HeldAt(|sampled|, buffer.Length, offset + i) == c * chunk + i
    {
      HeldInWindow(|sampled|, c, chunk, Slots(), buffer.Length, i);
    }

    /** A slot shows the byte of the stream that it holds. */
    lemma SlotShows(x: nat, p: nat)
      requires BufferOk() && x < buffer.Length && HeldAt(|sampled|, buffer.Length, x) == p
      ensures p < |sampled| && buffer[x] == sampled[p]
    {}

    /** And no longer: its place holds the chunk if and only if DMA has not come round; so never
        when the count is a whole pass or more behind. */
    lemma BlockIntactExactly(b: Block, c: nat, next: nat, before: seq<Delivery>)
      requires Valid() && Took(b, c, next, before)
      ensures (forall i :: 0 <= i < chunk ==> InPlace(|sampled|, c, chunk, Slots(), i))
              <==> |sampled| <= c * chunk + buffer.Length
      ensures |sampled| >= lastProduced + buffer.Length ==>
        exists i :: 0 <= i < chunk && !InPlace(|sampled|, c, chunk, Slots(), i)
    {
      ChunkIntactExactly(|sampled|, c, chunk, Slots());
    }

    lemma ExactBlockHolds(b: Block, c: nat, next: nat, before: seq<Delivery>)
      requires Valid() && Took(b, c, next, before) && lastProduced == |sampled|
      ensures b.offset + chunk <= buffer.Length && c * chunk + chunk <= |sampled|
      ensures buffer[b.offset..b.offset + chunk] == sampled[c * chunk..c * chunk + chunk]
    {
      var p := c * chunk;
      BlockHolds(b, c, next, before, chunk - 1);
      forall i | 0 <= i < chunk ensures SameByte(b.offset, p, i) {
        BlockHolds(b, c, next, before, i);
      }
      SameSlice(b.offset, p, chunk);
    }

    ghost predicate SameByte(x: nat, p: nat, i: nat)
      reads this`sampled, buffer
    {
      x + i < buffer.Length && p + i < |sampled| && buffer[x + i] == sampled[p + i]
    }

    lemma SameSlice(x: nat, p: nat, n: nat)
      requires x + n <= buffer.Length && p + n <= |sampled| && forall i :: 0 <= i < n ==> SameByte(x, p, i)
      ensures buffer[x..x + n] == sampled[p..p + n]
    {
      var held, made := buffer[x..x + n], sampled[p..p + n];
      forall i | 0 <= i < n ensures held[i] == made[i] {
        assert SameByte(x, p, i);
      }
    }

    /** Skip the chunks that may be overwritten, and only those, and count them. */
    method Choose(produced: nat) returns (take: nat, lost: nat)
      requires Configured() && overruns < U32 && nextChunk < produced / chunk
      ensures nextChunk <= take && lost == (overruns + (take - nextChunk)) % U32
      ensures take * chunk + chunk == (take + 1) * chunk <= produced < take * chunk + buffer.Length
      ensures AllLapped(nextChunk, take, chunk, buffer.Length, produced)
    {
      var completed, slots := produced / chunk, buffer.Length / chunk;
      take, lost := nextChunk, overruns;
      if completed - nextChunk >= slots {
        OldestKept(produced, chunk, slots);
        take := completed - slots + 1;
        lost := (overruns + (take - nextChunk) % U32) % U32;
        forall k | nextChunk <= k < take ensures Lapped(k, chunk, buffer.Length, produced) {
          LappedBefore(k, take - 1, chunk, buffer.Length, produced);
        }
      } else {
        DueKept(produced, nextChunk, chunk, slots);
      }
      NextChunkAt(take, chunk);
      CountLost(overruns, take - nextChunk);
    }

    /** What `la_stream_take` fills in for chunk `c`, with `lost` overruns so far. */
    method Describe(c: nat, lost: nat) returns (b: Block)
      requires Configured()
      ensures Describes(b, c, lost, chunk, chunk / width)
      ensures b.offset == (c % Slots()) * chunk && b.offset + chunk <= buffer.Length
    {
      var slots, samples := buffer.Length / chunk, chunk / width;
      ChunkOffset(c, chunk, slots, chunk - 1);
      FirstSampleIsProduct(c, samples);
      b := Block((c % slots) * chunk, chunk, samples, c % U32, lost, (c * samples) % U64);
    }

    /** The end of `la_stream_take`: hand out block `b` of chunk `c`. */
    method Deliver(c: nat, b: Block)
      requires Valid() && nextChunk <= c && b.overruns == (overruns + (c - nextChunk)) % U32
      requires (c + 1) * chunk <= lastProduced && Describes(b, c, b.overruns, chunk, chunk / width)
      requires Forced(Delivery(c, c - nextChunk, lastProduced, b), chunk, buffer.Length)
      modifies this`nextChunk, this`overruns, this`outstanding, this`history
      ensures Valid() && outstanding && history == old(history) + [Delivery(c, c - old(nextChunk), lastProduced, b)]
    {
      NextDelivery(history, c, b, lastProduced, chunk, chunk / width, nextChunk, overruns);
      history := history + [Delivery(c, c - nextChunk, lastProduced, b)];
      overruns := b.overruns;
      nextChunk := c + 1;
      outstanding := true;
    }
  }

  /** `la_stream_start`: with every configuration that can have been accepted, a zeroed buffer
      and fresh counts.  The buffer holds two of the largest chunks. */
  method Start(config: LaConfig.Config, buffer: array<byte>) returns (s: Stream)
    requires config.Valid() && buffer.Length == config.bufferSize >= 2 * LaConfig.MAX_CHUNK_BYTES
    modifies buffer
    ensures fresh(s) && s.Valid() && s.running && !s.outstanding && s.buffer == buffer
    ensures s.chunk == config.chunkBytes && s.width == config.bytesPerSample && s.sampled == [] && s.history == []
  {
    for i := 0 to buffer.Length
      invariant forall x :: 0 <= x < i ==> buffer[x] == 0
    {
      buffer[i] := 0;
    }
    s := new Stream(buffer, config.chunkBytes, config.bytesPerSample);
  }

  /** A run in which that happens: of a buffer of two chunks, DMA has filled three chunks and the
      interrupt has not come.  Chunk 0 is handed out, and its place holds chunk 2. */
  method LateTake(sampled: seq<byte>) returns (s: Stream, b: Block)
    requires |sampled| == 12
    ensures fresh(s) && s.Valid() && s.sampled == sampled && s.passes < s.rounds
    ensures s.history == [Delivery(0, 0, 4, b)] && b.offset == 0 && b.bytes == 4 && s.buffer.Length == 8
    ensures s.buffer[..4] == sampled[8..]
  {
    s := LateStream(sampled);
    b := TakeFirst(s);
    forall x | 0 <= x < 4 ensures s.buffer[x] == sampled[8 + x] {
      HeldAtIs(12, 8, x, 8 + x);
    }
  }

  method TakeFirst(s: Stream) returns (b: Block)
    requires s.Valid() && s.running && !s.outstanding && s.history == [] && s.buffer.Length == 8 && s.chunk == 4 && s.width == 1
    requires s.passes == s.nextChunk == s.lastProduced == 0 && s.inRound == 4
    modifies s, s.buffer
    ensures s.Valid() && s.sampled == old(s.sampled) && s.passes == old(s.passes) && s.rounds == old(s.rounds)
    ensures s.history == [Delivery(0, 0, 4, b)] && b.offset == 0 && b.bytes == 4
  {
    ghost var c;
    var block;
    block, c := s.Take(Running, []);
    assert s.lastProduced == 4 by {
      assert s.Counted(s.lastProduced, 0, Running);
      assert s.passes * s.buffer.Length == 0;
    }
    b := block.value;
    OnlyChunk(s, b, c);
  }

  lemma OnlyChunk(s: Stream, b: Block, c: nat)
    requires s.Valid() && s.Took(b, c, 0, []) && s.chunk == 4 && s.width == 1 && s.lastProduced == 4 && s.buffer.Length == 8
    ensures s.history == [Delivery(0, 0, 4, b)] && b.offset == 0 && b.bytes == 4
  {
    assert c == 0;
    FirstSlot(s.Slots());
    GaplessAt(s.history, 4, 4, 0);
  }

  lemma FirstSlot(slots: nat)
    requires slots > 0
    ensures 0 % slots == 0
  {}

  method LateStream(sampled: seq<byte>) returns (s: Stream)
    requires |sampled| == 12
    ensures fresh(s) && fresh(s.buffer) && s.Valid() && s.running && !s.outstanding && s.sampled == sampled && s.history == []
    ensures s.buffer.Length == 8 && s.chunk == 4 && s.width == 1 && s.passes == s.nextChunk == s.lastProduced == 0
    ensures s.rounds == 1 && s.inRound == 4
  {
    var buffer := new byte[8](_ => 0);
    s := new Stream(buffer, 4, 1);
    s.Dma(sampled);
  }

  datatype Event = Sampled(bytes: seq<byte>) | PassInterrupt | TakeCall(seen: Seen, during: seq<byte>) | ReleaseCall | StopCall

  /** Every run: whatever DMA, the interrupt and the callers do, the blocks handed out stay a
      gapless account of the stream.  Interrupts that cannot have come, and a channel seen to
      finish that cannot have, are skipped. */
  method Run(s: Stream, events: seq<Event>)
    requires s.Valid()
    modifies s, s.buffer
    ensures s.Valid() && old(s.sampled) <= s.sampled && old(s.history) <= s.history
    ensures Gapless(s.history, s.chunk, s.chunk / s.width) && AllForced(s.history, s.chunk, s.buffer.Length)
  {
    for i := 0 to |events|
      invariant s.Valid() && old(s.sampled) <= s.sampled && old(s.history) <= s.history
    {
      match events[i]
      case Sampled(bytes) => s.Dma(bytes);
      case PassInterrupt => if s.passes < s.rounds < U32 { s.Interrupt(); }
      case TakeCall(seen, during) =>
        if seen != Finished || s.inRound + |during| >= s.buffer.Length {
          var _, _ := s.Take(seen, during);
        }
      case ReleaseCall => s.Release();
      case StopCall => s.Stop();
    }
  }

  lemma NextChunkAt(c: nat, chunk: nat)
    ensures c * chunk + chunk == (c + 1) * chunk
  {}

  lemma CountLost(overruns: nat, skipped: nat)
    requires overruns < U32
    ensures (overruns + skipped % U32) % U32 == (overruns + skipped) % U32
    ensures skipped == 0 ==> (overruns + skipped) % U32 == overruns
  {}

  lemma NextDelivery(h: seq<Delivery>, c: nat, b: Block, produced: nat, chunk: nat, samples: nat, next: nat, lost: nat)
    requires Accounted(h, next, lost, chunk, samples)
    requires next <= c && b.overruns == (lost + (c - next)) % U32 && Describes(b, c, b.overruns, chunk, samples)
    ensures Accounted(h + [Delivery(c, c - next, produced, b)], c + 1, b.overruns, chunk, samples)
  {
    var d := Delivery(c, c - next, produced, b);
    SumModulo(next, |h| + lost, |h|, lost, d.skipped);
    assert Follows(next, lost, d, |h|, chunk, samples);
    GaplessNext(h, d, chunk, samples);
  }

  lemma GaplessNext(h: seq<Delivery>, d: Delivery, chunk: nat, samples: nat)
    requires Gapless(h, chunk, samples) && Follows(DueAt(h, |h|), LostAt(h, |h|), d, |h|, chunk, samples)
    ensures Gapless(h + [d], chunk, samples)
  {
    assert (h + [d])[..|h|] == h;
  }

  lemma AddBoth(x: nat, y: nat, k: nat)
    requires x % U32 == y % U32
    ensures (x + k) % U32 == (y + k) % U32
  {}

  lemma SumModulo(a: nat, b: nat, n: nat, lost: nat, k: nat)
    requires b == n + lost && a % U32 == b % U32
    ensures (a + k) % U32 == (n + (lost + k) % U32) % U32
    ensures (a + k + 1) % U32 == (n + 1 + (lost + k) % U32) % U32
  {
    var r := (lost + k) % U32;
    AddBoth(a, b, k);
    AddBoth(r, lost + k, n);
    AddBoth(a + k, n + r, 1);
  }

  lemma FloorTo(n: nat, w: nat)
    requires 0 < w
    ensures (n / w) * w == n - n % w <= n
  {}

  /** The bytes of a pass that a channel has moved, from its remaining count. */
  function Moved(finished: bool, inRound: nat, b: nat, w: nat): int
    requires 0 < w
  {
    var perPass := b / w;
    var remaining := if finished then 0 else perPass - inRound / w;
    (perPass - remaining) * w
  }

  lemma MovedIs(finished: bool, inRound: nat, b: nat, w: nat)
    requires 0 < w && (b / w) * w == b
    ensures finished ==> Moved(finished, inRound, b, w) == b
    ensures !finished ==> Moved(finished, inRound, b, w) == inRound - inRound % w <= inRound
  {
    FloorTo(inRound, w);
    assert !finished ==> Moved(finished, inRound, b, w) == (inRound / w) * w by {
      assert b / w - (b / w - inRound / w) == inRound / w;
    }
  }

  /** Passes counted so far and the position in the present one never exceed what DMA wrote;
      a channel that finished after the count was read stands for one more whole pass. */
  lemma ProgressBound(finished: bool, counted: nat, rounds: nat, inRound: nat, b: nat, w: nat)
    requires 0 < w && 0 < b && (b / w) * w == b && inRound < b
    requires if finished then counted < rounds else counted <= rounds
    ensures var produced := counted * b + Moved(finished, inRound, b, w);
            && 0 <= produced == counted * b + (if finished then b else inRound - inRound % w) <= rounds * b + inRound
            && (!finished && counted == rounds && inRound % w == 0 ==> produced == rounds * b + inRound)
  {
    MovedIs(finished, inRound, b, w);
    MulLe(counted + (if finished then 1 else 0), rounds, b);
    assert (counted + 1) * b == counted * b + b;
  }

  lemma WholeTransfers(b: nat, chunk: nat, slots: nat, w: nat)
    requires (w == 1 || w == 2 || w == 4) && chunk % 4 == 0 && b == slots * chunk
    ensures b % w == 0 && (b / w) * w == b
  {
    var k := chunk / 4;
    assert b == slots * (4 * k) == 4 * (slots * k);
  }
}

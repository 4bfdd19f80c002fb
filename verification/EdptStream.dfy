/** Endpoint streams (src/tusb.c): a FIFO between the application and an endpoint that
    carries one transfer at a time.  The calls run in one context; whether the controller
    driver accepts a transfer is a parameter of each call that submits one. */
module EdptStream {
  import opened Basics
  import opened RingIndex
  import opened RingFifo

  /** `x & ~m`, bit by bit. */
  function AndNot(x: nat, m: nat): (r: nat)
    ensures r <= x
  {
    if x == 0 then 0 else (if x % 2 == 1 && m % 2 == 0 then 1 else 0) + 2 * AndNot(x / 2, m / 2)
  }

  /** `x` with its last `k` bits zero. */
  function Truncated(x: nat, k: nat): nat {
    if k == 0 then x else 2 * Truncated(x / 2, k - 1)
  }

  /** With a packet size that is a power of two, the mask rounds down to whole packets. */
  lemma MaskRoundsDown(x: nat, k: nat)
    ensures AndNot(x, Pow2(k) - 1) == x - x % Pow2(k)
  {
    MaskTruncates(x, k);
    TruncatedIs(x, k);
  }

  predicate IsPow2(m: nat) {
    m == 1 || (m > 1 && m % 2 == 0 && IsPow2(m / 2))
  }

  lemma {:induction false} Pow2Of(m: nat) returns (k: nat)
    requires IsPow2(m)
    ensures m == Pow2(k)
  {
    if m == 1 {
      k := 0;
    } else {
      var h := Pow2Of(m / 2);
      k := h + 1;
    }
  }

  lemma {:induction false} MaskSelf(m: nat)
    ensures AndNot(m, m) == 0
  {
    if m > 0 { MaskSelf(m / 2); }
  }

  /** One whole packet alone already tells: the mask keeps only its lowest bit. */
  lemma {:induction false} MaskKeepsPacket(m: nat)
    requires m > 0
    ensures AndNot(m, m - 1) == m <==> IsPow2(m)
  {
    if m % 2 == 1 {
      assert (m - 1) / 2 == m / 2 && (m - 1) % 2 == 0;
      MaskSelf(m / 2);
    } else {
      assert (m - 1) / 2 == m / 2 - 1 && (m - 1) % 2 == 1;
      MaskKeepsPacket(m / 2);
    }
  }

  /** The mask rounds down to whole packets, whatever there is room for, if and only if the
      packet size is a power of two. */
  lemma MaskRoundsDownExactly(mps: nat)
    requires mps > 0
    ensures (forall x: nat :: WholePackets(x, mps) == x - x % mps) <==> IsPow2(mps)
  {
    if IsPow2(mps) {
      var k := Pow2Of(mps);
      forall x: nat ensures WholePackets(x, mps) == x - x % mps { MaskRoundsDown(x, k); }
    } else {
      MaskKeepsPacket(mps);
      assert WholePackets(mps, mps) != mps - mps % mps;
    }
  }

  lemma {:induction false} MaskTruncates(x: nat, k: nat)
    ensures AndNot(x, Pow2(k) - 1) == Truncated(x, k)
  {
    if k == 0 {
      MaskZero(x);
    } else {
      MaskTruncates(x / 2, k - 1);
      HalvedMask(x, Pow2(k - 1));
    }
  }

  lemma {:induction false} TruncatedIs(x: nat, k: nat)
    ensures Truncated(x, k) == x - x % Pow2(k)
  {
    if k > 0 {
      TruncatedIs(x / 2, k - 1);
      HalvedRoundDown(x, Pow2(k - 1));
    }
  }

  lemma HalvedMask(x: nat, p: nat)
    requires p >= 1
    ensures AndNot(x, 2 * p - 1) == 2 * AndNot(x / 2, p - 1)
  {
    assert (2 * p - 1) / 2 == p - 1 && (2 * p - 1) % 2 == 1;
  }

  lemma HalvedRoundDown(x: nat, p: nat)
    requires p >= 1
    ensures x - x % (2 * p) == 2 * (x / 2 - (x / 2) % p)
  {
    HalvedModulo(x, p);
  }

  lemma HalvedModulo(x: nat, p: nat)
    requires p >= 1
    ensures x % (2 * p) == 2 * ((x / 2) % p) + x % 2
  {
    var h := x / 2;
    var q, r := h / p, h % p;
    assert h == q * p + r;
    assert x == (2 * r + x % 2) + q * (2 * p);
    ModuloBelow(2 * r + x % 2, q, 2 * p);
  }

  lemma {:induction false} MaskZero(x: nat)
    ensures AndNot(x, 0) == x
  {
    if x > 0 { MaskZero(x / 2); }
  }

  /** `available & ~(mps - 1)`; with `mps` 0 the mask is empty. */
  function WholePackets(available: nat, mps: nat): (n: nat)
    ensures n <= available
  {
    if mps == 0 then 0 else AndNot(available, mps - 1)
  }

  /** An endpoint's BUSY and CLAIMED bits (`tu_edpt_claim`, `tu_edpt_release`,
      `usbd_edpt_xfer`). */
  class Endpoint {
    var busy: bool
    var claimed: bool
    var len: nat   // of the transfer in flight

    constructor ()
      ensures !busy && !claimed
    {
      busy, claimed, len := false, false, 0;
    }

    method Claim() returns (ok: bool)
      modifies this`claimed
      ensures (ok <==> !busy && !old(claimed)) && claimed == (old(claimed) || !busy)
    {
      ok := !busy && !claimed;
      if ok { claimed := true; }
    }

    method Release() returns (ok: bool)
      modifies this`claimed
      ensures (ok <==> old(claimed) && !busy) && claimed == (old(claimed) && busy)
    {
      ok := claimed && !busy;
      if ok { claimed := false; }
    }

    method Xfer(count: nat, accept: bool) returns (ok: bool)
      modifies this
      ensures ok <==> !old(busy) && accept
      ensures if ok then busy && claimed == old(claimed) && len == count
              else if old(busy) then unchanged(this)
              else !busy && !claimed && len == old(len)
    {
      if busy { return false; }
      busy := true;
      if accept {
        len := count;
        return true;
      }
      busy, claimed := false, false;
      return false;
    }

    method Complete()
      modifies this`busy, this`claimed
      ensures !busy && !claimed
    {
      busy, claimed := false, false;
    }
  }

  // ---------------------------------------------------------------- receiving

  class RxStream {
    const ff: Fifo
    const ep: Endpoint
    var isOpen: bool
    var mps: nat
    var xferLen: nat
    ghost var received: seq<byte>    // by the endpoint, in completed transfers
    ghost var delivered: seq<byte>   // returned by Read

    /** Nothing is lost: what was received is what was delivered and what is waiting; and a
        transfer in flight still fits. */
    ghost predicate Valid()
      reads this, ff, ff.buffer, ep
    {
      && ff.Valid() && !ff.overwritable && ff.Unread() <= ff.depth
      && received == delivered + ff.Contents()
      && (ep.busy ==> ep.len <= ff.depth - |ff.Contents()|)
    }

    constructor (buf: array<byte>, mps: nat, xferLen: nat)
      requires ValidDepth(buf.Length)
      ensures Valid() && fresh(ff) && fresh(ep) && ff.buffer == buf
      ensures received == [] && delivered == [] && !ep.busy && !ep.claimed && isOpen
    {
      ff := new Fifo(buf, false);
      ep := new Endpoint();
      isOpen, this.mps, this.xferLen := true, mps, xferLen;
      received, delivered := [], [];
    }

    /** A transfer can be armed: the stream is open, there is room for a packet, and the endpoint
        was neither busy nor claimed. */
    ghost predicate CanArm(busy: bool, claimed: bool)
      reads this, ff, ff.buffer
      requires ff.Valid()
    {
      isOpen && ff.depth - |ff.Contents()| >= mps && !busy && !claimed
    }

    /** The endpoint after an attempt to arm it: a transfer of the whole packets that fit, at most
        the endpoint buffer, if it can be armed and the controller takes it; or as it was. */
    ghost predicate Armed(busy: bool, claimed: bool, len: nat, accept: bool)
      reads this, ff, ff.buffer, ep
      requires ff.Valid()
    {
      var room := ff.depth - |ff.Contents()|;
      if CanArm(busy, claimed) && accept
      then
        && ep.busy && ep.claimed && ep.len == Min(WholePackets(room, mps), xferLen)
        && (IsPow2(mps) ==> ep.len == Min(room - room % mps, xferLen))
      else ep.busy == busy && ep.claimed == claimed && (busy ==> ep.len == len)
    }

    /** `tu_edpt_stream_read_xfer`: arm a transfer of as many whole packets as surely fit.  The
        second look at the free space, after the claim, finds the same in one context. */
    method ReadXfer(accept: bool) returns (count: nat)
      requires Valid()
      modifies ep
      ensures Valid() && Armed(old(ep.busy), old(ep.claimed), old(ep.len), accept)
      ensures count == if CanArm(old(ep.busy), old(ep.claimed)) && accept then ep.len else 0
    {
      var _, _, _, available := ff.State();
      if available < mps || !isOpen { return 0; }
      var ok := ep.Claim();
      if !ok { return 0; }
      var n := Min(WholePackets(available, mps), xferLen);
      if mps > 0 { MaskRoundsDownExactly(mps); }
      ok := ep.Xfer(n, accept);
      if !ok { return 0; }
      return n;
    }

    /** A transfer completes with `data` (XFER_COMPLETE in `tud_task_ext`): the driver stores
        it, then arms the next one.  The controller reports no more than was asked for. */
    method XferComplete(data: seq<byte>, accept: bool)
      requires Valid() && ep.busy && |data| <= ep.len
      modifies this`received, ep, ff`wr_idx, ff.buffer
      ensures Valid() && received == old(received) + data && delivered == old(delivered)
      ensures ff.Contents() == old(ff.Contents()) + data && Armed(false, false, 0, accept)
    {
      ep.Complete();
      ghost var before := ff.Contents();
      var n := ff.WriteN(data);
      assert data[..n] == data;
      received := received + data;
      assert (delivered + before) + data == delivered + (before + data);
      var _ := ReadXfer(accept);
    }

    /** `tu_edpt_stream_read`; the length is cut to 16 bits. */
    method Read(bufsize: nat, accept: bool) returns (out: seq<byte>)
      requires Valid()
      modifies this`delivered, ep, ff`rd_idx
      ensures Valid() && delivered == old(delivered) + out && received == old(received)
      ensures out == old(ff.Contents())[..Min(bufsize % U16, |old(ff.Contents())|)]
      ensures Armed(old(ep.busy), old(ep.claimed), old(ep.len), accept)
    {
      Passed(received, delivered, ff.Contents(), Min(bufsize % U16, |ff.Contents()|));
      out := ff.ReadN(bufsize % U16);
      delivered := delivered + out;
      var _ := ReadXfer(accept);
    }
  }

  datatype RxEvent = ReadCall(n: nat, accept: bool) | Arm(accept: bool) | Completed(data: seq<byte>, accept: bool)

  /** Any run of reads, arming calls and completions.  A completion that the controller
      could not have reported is skipped.  What the reads returned is a prefix of what was
      received, and the rest is in the FIFO. */
  method RunRx(s: RxStream, events: seq<RxEvent>) returns (result: seq<byte>)
    requires s.Valid() && s.received == [] && s.delivered == []
    modifies s`received, s`delivered, s.ep, s.ff`wr_idx, s.ff`rd_idx, s.ff.buffer
    ensures s.Valid() && result == s.delivered <= s.received && s.received == result + s.ff.Contents()
  {
    result := [];
    for i := 0 to |events|
      invariant s.Valid() && result == s.delivered && s.ff.buffer == old(s.ff.buffer)
    {
      match events[i] {
        case ReadCall(n, accept) =>
          var out := s.Read(n, accept);
          result := result + out;
        case Arm(accept) => var _ := s.ReadXfer(accept);
        case Completed(data, accept) =>
          if s.ep.busy && |data| <= s.ep.len { s.XferComplete(data, accept); }
      }
    }
  }

  // ---------------------------------------------------------------- sending

  /** How a stream is set up: through an endpoint buffer of `xferLen` bytes, or with the
      controller fetching straight from the FIFO. */
  datatype TxSetup = TxSetup(isOpen: bool, buffered: bool, depth: nat, mps: nat, xferLen: nat)

  /** A stream as a value: what the FIFO holds, whether the endpoint is free, how many bytes the
      controller has still to fetch, and all bytes accepted from the application and passed to
      the controller. */
  datatype Tx = Tx(queue: seq<byte>, free: bool, owed: nat, written: seq<byte>, sent: seq<byte>)

  datatype TxEvent = WriteCall(data: seq<byte>, accept: bool) | FlushCall(accept: bool) | Fetched(n: nat) | Sent

  predicate Sends(c: TxSetup, v: Tx) {
    c.isOpen && v.queue != [] && v.free && (c.buffered ==> c.xferLen > 0)
  }

  function Flushed(c: TxSetup, v: Tx, accept: bool): Tx {
    var n := Min(c.xferLen, |v.queue|);
    if !Sends(c, v) then v
    else if !c.buffered then if accept then v.(free := false, owed := |v.queue|) else v
    else if accept then v.(free := false, queue := v.queue[n..], sent := v.sent + v.queue[..n])
    else v.(queue := v.queue[n..])
  }

  function Stored(c: TxSetup, v: Tx, data: seq<byte>): Tx
    requires |v.queue| <= c.depth
  {
    var fits := data[..Min(|data| % U16, c.depth - |v.queue|)];
    v.(queue := v.queue + fits, written := v.written + fits)
  }

  /** Once a packet is there, or can never be, it is sent. */
  predicate Full(c: TxSetup, v: Tx) { |v.queue| >= c.mps || c.depth < c.mps }

  function TxNext(c: TxSetup, v: Tx, e: TxEvent): (v': Tx)
    requires |v.queue| <= c.depth
    ensures |v'.queue| <= c.depth
  {
    match e
    case WriteCall(data, accept) =>
      if data == [] then v
      else
        var w := Stored(c, v, data);
        if Full(c, w) then Flushed(c, w, accept) else w
    case FlushCall(accept) => Flushed(c, v, accept)
    case Fetched(n) =>
      var k := Min(n, Min(v.owed, |v.queue|));
      v.(queue := v.queue[k..], sent := v.sent + v.queue[..k], owed := v.owed - k)
    case Sent => v.(free := true, owed := 0)
  }

  /** The event has the controller refuse a transfer whose bytes have left the FIFO. */
  predicate Refused(c: TxSetup, v: Tx, e: TxEvent)
    requires |v.queue| <= c.depth
  {
    match e
    case WriteCall(data, accept) =>
      data != [] && !accept && c.buffered && Full(c, Stored(c, v, data)) && Sends(c, Stored(c, v, data))
    case FlushCall(accept) => !accept && c.buffered && Sends(c, v)
    case _ => false
  }

  function TxRun(c: TxSetup, v: Tx, es: seq<TxEvent>): (v': Tx)
    requires |v.queue| <= c.depth
    ensures |v'.queue| <= c.depth
    decreases |es|
  {
    if es == [] then v else TxRun(c, TxNext(c, v, es[0]), es[1..])
  }

  predicate NoneRefused(c: TxSetup, v: Tx, es: seq<TxEvent>)
    requires |v.queue| <= c.depth
    decreases |es|
  {
    es == [] || (!Refused(c, v, es[0]) && NoneRefused(c, TxNext(c, v, es[0]), es[1..]))
  }

  /** Bytes accepted and neither passed on nor waiting. */
  function Lost(v: Tx): int { |v.written| - |v.sent| - |v.queue| }

  lemma FlushedLoses(c: TxSetup, v: Tx, accept: bool)
    ensures var v' := Flushed(c, v, accept);
            && (if !accept && c.buffered && Sends(c, v) then Lost(v') > Lost(v) else Lost(v') == Lost(v))
            && (Lost(v') == Lost(v) && v.written == v.sent + v.queue ==> v'.written == v'.sent + v'.queue)
  {
    if v.written == v.sent + v.queue && Sends(c, v) && c.buffered && accept {
      Passed(v.written, v.sent, v.queue, Min(c.xferLen, |v.queue|));
    }
  }

  lemma StoredLosesNothing(c: TxSetup, v: Tx, data: seq<byte>)
    requires |v.queue| <= c.depth
    ensures Lost(Stored(c, v, data)) == Lost(v)
    ensures v.written == v.sent + v.queue ==> Stored(c, v, data).written == Stored(c, v, data).sent + Stored(c, v, data).queue
  {
    if v.written == v.sent + v.queue {
      Regroup(v.sent, v.queue, data[..Min(|data| % U16, c.depth - |v.queue|)]);
    }
  }

  /** Only a refusal loses bytes, and it always does. */
  lemma TxStep(c: TxSetup, v: Tx, e: TxEvent)
    requires |v.queue| <= c.depth
    ensures var v' := TxNext(c, v, e);
            && (if Refused(c, v, e) then Lost(v') > Lost(v) else Lost(v') == Lost(v))
            && (!Refused(c, v, e) && v.written == v.sent + v.queue ==> v'.written == v'.sent + v'.queue)
  {
    match e
    case WriteCall(data, accept) =>
      StoredLosesNothing(c, v, data);
      FlushedLoses(c, Stored(c, v, data), accept);
    case FlushCall(accept) => FlushedLoses(c, v, accept);
    case Fetched(n) =>
      if v.written == v.sent + v.queue { Passed(v.written, v.sent, v.queue, Min(n, Min(v.owed, |v.queue|))); }
    case Sent =>
  }

  lemma {:induction false} LossStays(c: TxSetup, v: Tx, es: seq<TxEvent>)
    requires |v.queue| <= c.depth
    ensures Lost(TxRun(c, v, es)) >= Lost(v)
    decreases |es|
  {
    if es != [] {
      TxStep(c, v, es[0]);
      LossStays(c, TxNext(c, v, es[0]), es[1..]);
    }
  }

  /** Over any run, the bytes passed to the controller and those waiting are the bytes written,
      in order and without a gap, if and only if it never refused a buffered transfer. */
  lemma {:induction false} SentInOrderExactly(c: TxSetup, v: Tx, es: seq<TxEvent>)
    requires |v.queue| <= c.depth && v.written == v.sent + v.queue
    ensures var v' := TxRun(c, v, es); v'.written == v'.sent + v'.queue <==> NoneRefused(c, v, es)
    decreases |es|
  {
    if es != [] {
      var w := TxNext(c, v, es[0]);
      TxStep(c, v, es[0]);
      if Refused(c, v, es[0]) {
        LossStays(c, w, es[1..]);
      } else {
        SentInOrderExactly(c, w, es[1..]);
      }
    }
  }

  /** The stream after an attempt to submit from the bytes `q`: nothing if it is closed, empty or
      the endpoint taken; through an endpoint buffer, as much as that holds leaves the FIFO, and
      is sent if accepted; without one, all is left for the controller to fetch. */
  predicate Submitted(c: TxSetup, q: seq<byte>, free: bool, sent: seq<byte>, owed: nat, accept: bool, v: Tx) {
    var k := if c.buffered then Min(c.xferLen, |q|) else 0;
    if !c.isOpen || q == [] || !free || (c.buffered && c.xferLen == 0)
    then v.queue == q && v.sent == sent && v.owed == owed && v.free == free
    else
      && v.queue == q[k..] && v.sent == sent + (if accept then q[..k] else []) && v.free == !accept
      && v.owed == if !c.buffered && accept then |q| else owed
  }

  class TxStream {
    const ff: Fifo
    const ep: Endpoint
    const buffered: bool           // there is an endpoint buffer
    var isOpen: bool
    var mps: nat
    var xferLen: nat
    var owed: nat                  // of the transfer in flight, not yet fetched from the FIFO
    ghost var written: seq<byte>   // accepted from the application
    ghost var sent: seq<byte>      // passed to the controller

    ghost predicate Valid()
      reads this, ff, ff.buffer
    {
      ff.Valid() && !ff.overwritable && ff.Unread() <= ff.depth && xferLen < U16
      && owed <= |ff.Contents()| && (buffered ==> owed == 0)
    }

    ghost function Setup(): TxSetup
      requires ff.Valid()
      reads this, ff
    {
      TxSetup(isOpen, buffered, ff.depth, mps, xferLen)
    }

    ghost function View(): Tx
      requires Valid()
      reads this, ff, ff.buffer, ep
    {
      Tx(ff.Contents(), !ep.busy && !ep.claimed, owed, written, sent)
    }

    constructor (buf: array<byte>, buffered: bool, mps: nat, xferLen: nat)
      requires ValidDepth(buf.Length) && xferLen < U16
      ensures Valid() && fresh(ff) && fresh(ep) && ff.buffer == buf && View() == Tx([], true, 0, [], [])
      ensures Setup() == TxSetup(true, buffered, buf.Length, mps, xferLen)
    {
      ff := new Fifo(buf, false);
      ep := new Endpoint();
      isOpen, this.buffered, this.mps, this.xferLen, owed := true, buffered, mps, xferLen, 0;
      written, sent := [], [];
    }

    /** `tu_edpt_stream_write_xfer`: through an endpoint buffer the bytes leave the FIFO before
        the controller is asked; without one it fetches them later. */
    method WriteXfer(accept: bool) returns (n: nat)
      requires Valid()
      modifies ep, this`owed, this`sent, ff`rd_idx
      ensures Valid() && View() == Flushed(Setup(), old(View()), accept)
      ensures Submitted(Setup(), old(ff.Contents()), old(!ep.busy && !ep.claimed), old(sent), old(owed), accept, View()) == true
      ensures n == if !Sends(Setup(), old(View())) || !accept then 0
                   else if buffered then Min(xferLen, |old(ff.Contents())|) else |old(ff.Contents())|
    {
      var count, _, _, _ := ff.State();
      if count == 0 || !isOpen { return 0; }
      var ok := ep.Claim();
      if !ok { return 0; }
      if !buffered {
        ok := ep.Xfer(count, accept);
        if !ok { return 0; }
        owed := count;
        return count;
      }
      var data := ff.ReadN(xferLen);
      if |data| > 0 {
        ok := ep.Xfer(|data|, accept);
        if !ok { return 0; }
        sent := sent + data;
        return |data|;
      }
      var _ := ep.Release();
      return 0;
    }

    /** `tu_edpt_stream_write`: store, then flush once a packet is there.  The length is cut to
        16 bits. */
    method Write(data: seq<byte>, accept: bool) returns (n: nat)
      requires Valid()
      modifies ep, this`written, this`owed, this`sent, ff`wr_idx, ff`rd_idx, ff.buffer
      ensures Valid() && View() == TxNext(Setup(), old(View()), WriteCall(data, accept))
      ensures n == Min(|data| % U16, ff.depth - |old(ff.Contents())|) && written == old(written) + data[..n]
      ensures var q := old(ff.Contents()) + data[..n];
              if data != [] && (|q| >= mps || ff.depth < mps)
              then Submitted(Setup(), q, old(!ep.busy && !ep.claimed), old(sent), old(owed), accept, View()) == true
              else View() == Tx(q, old(!ep.busy && !ep.claimed), old(owed), written, old(sent))
    {
      if |data| == 0 { return 0; }
      n := Store(data);
      var count, _, _, _ := ff.State();
      if count >= mps || ff.depth < mps {
        var _ := WriteXfer(accept);
      }
    }

    method Store(data: seq<byte>) returns (n: nat)
      requires Valid()
      modifies this`written, ff`wr_idx, ff`rd_idx, ff.buffer
      ensures Valid() && View() == Stored(Setup(), old(View()), data)
      ensures n == Min(|data| % U16, ff.depth - |old(ff.Contents())|)
      ensures ff.Contents() == old(ff.Contents()) + data[..n] && written == old(written) + data[..n]
    {
      var cut := data[..|data| % U16];
      n := ff.WriteN(cut);
      assert cut[..n] == data[..n];
      written := written + data[..n];
    }

    /** The controller fetches up to `n` bytes of an unbuffered transfer. */
    method Fetch(n: nat)
      requires Valid()
      modifies this`owed, this`sent, ff`rd_idx
      ensures Valid() && View() == TxNext(Setup(), old(View()), Fetched(n))
      ensures var k := Min(n, old(owed));
              && sent == old(sent) + old(ff.Contents())[..k] && ff.Contents() == old(ff.Contents())[k..]
              && owed == old(owed) - k
    {
      var k := Min(n, owed);
      var data := ff.ReadN(k);
      sent := sent + data;
      owed := owed - k;
    }

    /** The transfer in flight has completed. */
    method XferComplete()
      requires Valid()
      modifies ep, this`owed
      ensures Valid() && View() == TxNext(Setup(), old(View()), Sent) && !ep.busy && !ep.claimed && owed == 0
    {
      ep.Complete();
      owed := 0;
    }

    method Handle(e: TxEvent)
      requires Valid()
      modifies ep, this`written, this`owed, this`sent, ff`wr_idx, ff`rd_idx, ff.buffer
      ensures Valid() && View() == TxNext(Setup(), old(View()), e)
    {
      match e
      case WriteCall(data, accept) => var _ := Write(data, accept);
      case FlushCall(accept) => var _ := WriteXfer(accept);
      case Fetched(n) => Fetch(n);
      case Sent => XferComplete();
    }
  }

  /** Every run of the stream is a run of the specification; so what was written is what was
      sent and what waits, if and only if no buffered transfer was refused. */
  method RunTx(s: TxStream, es: seq<TxEvent>)
    requires s.Valid() && s.written == s.sent + s.ff.Contents()
    modifies s.ep, s`written, s`owed, s`sent, s.ff`wr_idx, s.ff`rd_idx, s.ff.buffer
    ensures s.Valid() && s.View() == TxRun(s.Setup(), old(s.View()), es)
    ensures s.written == s.sent + s.ff.Contents() <==> NoneRefused(s.Setup(), old(s.View()), es)
  {
    SentInOrderExactly(s.Setup(), s.View(), es);
    for i := 0 to |es|
      invariant s.Valid()
      invariant s.View() == TxRun(s.Setup(), old(s.View()), es[..i])
    {
      TxRunSnoc(s.Setup(), old(s.View()), es[..i], es[i]);
      assert es[..i + 1] == es[..i] + [es[i]];
      s.Handle(es[i]);
    }
    assert es[..|es|] == es;
  }

  lemma {:induction false} TxRunSnoc(c: TxSetup, v: Tx, es: seq<TxEvent>, e: TxEvent)
    requires |v.queue| <= c.depth
    ensures TxRun(c, v, es + [e]) == TxNext(c, TxRun(c, v, es), e)
    decreases |es|
  {
    if es != [] {
      assert (es + [e])[1..] == es[1..] + [e];
      TxRunSnoc(c, TxNext(c, v, es[0]), es[1..], e);
    }
  }

  /** A run that loses bytes: three are written, and the first two, a full buffer, refused. */
  method RefusedRun() returns (s: TxStream)
    ensures fresh(s) && s.Valid() && s.written == [1, 2, 3] && s.sent == [] && s.ff.Contents() == [3]
  {
    var buf := new byte[4];
    s := new TxStream(buf, true, 2, 2);
    ghost var c, v := s.Setup(), s.View();
    var _ := s.Write([1, 2, 3], false);
    assert Stored(c, v, [1, 2, 3]) == Tx([1, 2, 3], true, 0, [1, 2, 3], []);
  }
}

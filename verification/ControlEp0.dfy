/** Control transfers on endpoint 0 of the device stack (src/device/usbd.c): the data stage
    in pieces of the endpoint buffer, its zero-length packet, and the status stage. */
module ControlEp0 {
  import opened Basics
  import opened RingIndex

  /** What the controller driver is asked to do on endpoint 0. */
  datatype Xact =
    | DataIn(bytes: seq<byte>)   // send these bytes (none: a zero-length packet)
    | DataOut(len: nat)          // receive up to this many bytes
    | StatusIn | StatusOut       // zero-length status packets
    | Stall

  /** The packets of a data stage that still has to carry `r[t..len]` in answer to a request
      for `w` bytes in all. */
  function Packets(r: seq<byte>, len: nat, t: nat, w: nat, size: nat): (xs: seq<Xact>)
    requires 0 < size && t <= len <= w && t < w && len <= |r|
    ensures |xs| >= 1
    decreases w - t
  {
    var n := Min(len - t, size);
    [DataIn(r[t..t + n])] + (if n < size || t + n == w then [] else Packets(r, len, t + n, w, size))
  }

  /** The bytes that submissions carry to the host. */
  function Payload(xs: seq<Xact>): seq<byte> {
    if xs == [] then [] else (if xs[0].DataIn? then xs[0].bytes else []) + Payload(xs[1..])
  }

  /** They carry `r[t..len]`, in order ... */
  lemma {:induction false} PacketsCarry(r: seq<byte>, len: nat, t: nat, w: nat, size: nat)
    requires 0 < size && t <= len <= w && t < w && len <= |r|
    ensures Payload(Packets(r, len, t, w, size)) == r[t..len]
    decreases w - t
  {
    var xs, n := Packets(r, len, t, w, size), Min(len - t, size);
    if n < size || t + n == w {
      assert xs[1..] == [];
    } else {
      PacketsCarry(r, len, t + n, w, size);
      assert xs[1..] == Packets(r, len, t + n, w, size);
      assert r[t..len] == r[t..t + n] + r[t + n..len];
    }
  }

  /** Data packets of at most `size` bytes, of which all but the last are full. */
  predicate Filled(xs: seq<Xact>, size: nat) {
    && (forall i :: 0 <= i < |xs| ==> xs[i].DataIn? && |xs[i].bytes| <= size)
    && (forall i :: 0 <= i < |xs| - 1 ==> |xs[i].bytes| == size)
  }

  /** ... all but the last fill the endpoint buffer ... */
  lemma {:induction false} PacketsFill(r: seq<byte>, len: nat, t: nat, w: nat, size: nat)
    requires 0 < size && t <= len <= w && t < w && len <= |r|
    ensures Filled(Packets(r, len, t, w, size), size)
    decreases w - t
  {
    var n := Min(len - t, size);
    if !(n < size || t + n == w) {
      PacketsFill(r, len, t + n, w, size);
      FilledCons(r[t..t + n], Packets(r, len, t + n, w, size), size);
    }
  }

  lemma FilledCons(first: seq<byte>, rest: seq<Xact>, size: nat)
    requires |first| == size && Filled(rest, size)
    ensures Filled([DataIn(first)] + rest, size)
  {}

  /** ... and the last one is empty exactly when there is less than was asked for and it
      fills its packets exactly. */
  lemma ZeroLengthPacketExactly(r: seq<byte>, len: nat, t: nat, w: nat, size: nat)
    requires 0 < size && t <= len <= w && t < w && len <= |r|
    ensures var xs := Packets(r, len, t, w, size);
            xs[|xs| - 1] == DataIn([]) <==> len < w && (len - t) % size == 0
  {
    EmptyLast(r, len, t, w, size);
    OddIsModulo(len - t, size);
  }

  lemma {:induction false} EmptyLast(r: seq<byte>, len: nat, t: nat, w: nat, size: nat)
    requires 0 < size && t <= len <= w && t < w && len <= |r|
    ensures var xs := Packets(r, len, t, w, size);
            xs[|xs| - 1] == DataIn([]) <==> len < w && Odd(len - t, size) == 0
    decreases w - t
  {
    var xs, n := Packets(r, len, t, w, size), Min(len - t, size);
    if n < size || t + n == w {
      assert xs == [DataIn(r[t..t + n])];
    } else {
      var rest := Packets(r, len, t + n, w, size);
      assert xs[|xs| - 1] == rest[|rest| - 1];
      EmptyLast(r, len, t + n, w, size);
    }
  }

  // ---------------------------------------------------------------- the engine

  class Engine {
    const size: nat              // CFG_TUD_ENDPOINT0_BUFSIZE
    var wLength: nat             // of the request being served
    var dirIn: bool
    var reply: seq<byte>         // what `buffer` points into on a control read
    var dest: array<byte>        // ... and on a control write
    var pos: nat                 // how far `buffer` has advanced
    var hasBuffer: bool
    var dataLen: nat
    var total: nat
    var log: seq<Xact>           // transactions submitted since the SETUP

    ghost predicate Valid()
      reads this
    {
      && 0 < size < U16 && wLength < U16
      && total <= dataLen <= wLength && pos == total
      && (hasBuffer ==> dataLen <= if dirIn then |reply| else dest.Length)
    }

    constructor (size: nat)
      requires 0 < size < U16
      ensures Valid() && this.size == size && log == []
    {
      this.size := size;
      wLength, dirIn, reply, dest, pos, hasBuffer, dataLen, total, log := 0, false, [], new byte[0], 0, false, 0, 0, [];
    }

    /** The start of `process_setup_received`: every earlier transfer is forgotten. */
    method Setup(wLength: nat, dirIn: bool)
      requires Valid() && wLength < U16
      modifies this
      ensures Valid() && this.wLength == wLength && this.dirIn == dirIn && dest == old(dest)
      ensures total == 0 && dataLen == 0 && !hasBuffer && log == []
    {
      this.wLength, this.dirIn := wLength, dirIn;
      hasBuffer, pos, total, dataLen := false, 0, 0, 0;
      log := [];
    }

    /** `status_stage_ep`: opposite to the data stage, and IN when there is none. */
    function StatusXact(): Xact
      reads this
    {
      if wLength != 0 && dirIn then StatusOut else StatusIn
    }

    /** The next piece of the reply. */
    function Piece(): seq<byte>
      reads this
      requires Valid() && dirIn && hasBuffer
    {
      reply[total..total + Min(dataLen - total, size)]
    }

    /** `data_stage_xact`.  `accept` says whether the controller takes the transaction. */
    method DataStageXact(accept: bool) returns (ok: bool)
      requires Valid() && hasBuffer
      modifies this`log
      ensures ok == accept
      ensures !accept ==> log == old(log)
      ensures accept ==> log == old(log) + [if dirIn then DataIn(Piece()) else DataOut(Min(dataLen - total, size))]
    {
      var len := Min(dataLen - total, size);
      if !accept { return false; }
      if dirIn {
        assert len == 0 ==> Piece() == [];
        log := log + [DataIn(if len == 0 then [] else reply[pos..pos + len])];
      } else {
        log := log + [DataOut(len)];
      }
      ok := true;
    }

    /** `tud_control_xfer` on a control read. */
    method ReplyWith(reply: seq<byte>, accept: bool) returns (ok: bool)
      requires Valid() && dirIn && total == 0 && log == [] && |reply| < U16
      modifies this
      ensures Valid() && ok == accept && wLength == old(wLength) && dirIn && dest == old(dest)
      ensures this.reply == reply && hasBuffer && total == 0 && dataLen == Min(|reply|, wLength)
      ensures log == if !accept then [] else if wLength > 0 then [DataIn(Piece())] else [StatusIn]
    {
      this.reply, pos, hasBuffer := reply, 0, true;
      dataLen := Min(|reply|, wLength);
      if wLength > 0 {
        ok := DataStageXact(accept);
      } else {
        if accept { log := log + [StatusIn]; }
        ok := accept;
      }
    }

    /** `usbd_control_xfer_cb` on the IN data endpoint: the controller has sent `n` bytes.
        `stageOk` is what the class driver answers at the end of the data stage. */
    method SentIn(n: nat, stageOk: bool, accept: bool)
      requires Valid() && dirIn && hasBuffer && n <= dataLen - total
      modifies this`total, this`pos, this`log
      ensures Valid() && total == old(total) + n
      ensures (total == wLength || n < size) && !stageOk ==> log == old(log) + [Stall]
      ensures (total == wLength || n < size) && stageOk && accept ==> log == old(log) + [StatusXact()]
      ensures !(total == wLength || n < size) && accept ==> log == old(log) + [DataIn(Piece())]
      ensures !accept && (stageOk || !(total == wLength || n < size)) ==> log == old(log)
    {
      total := total + n;
      pos := pos + n;
      if wLength == total || n < size {
        if !stageOk {
          log := log + [Stall];
        } else if accept {
          log := log + [StatusXact()];
        }
      } else {
        var _ := DataStageXact(accept);
      }
    }

    /** `tud_control_xfer` on a control write into `dest`. */
    method ReceiveInto(dest: array<byte>, len: nat, accept: bool) returns (ok: bool)
      requires Valid() && !dirIn && 0 < wLength && total == 0 && log == [] && len <= dest.Length
      modifies this
      ensures Valid() && ok == accept && wLength == old(wLength) && !dirIn
      ensures this.dest == dest && hasBuffer && total == 0 && dataLen == Min(len, wLength)
      ensures log == if accept then [DataOut(Min(dataLen, size))] else []
    {
      this.dest, pos, hasBuffer := dest, 0, true;
      dataLen := Min(len, wLength);
      ok := DataStageXact(accept);
    }

    /** `usbd_control_xfer_cb` on the OUT data endpoint: the endpoint buffer holds `packet`.
        More bytes than there is room for are clamped. */
    method ReceivedOut(packet: seq<byte>, stageOk: bool, accept: bool) returns (done: bool)
      requires Valid() && !dirIn && hasBuffer && |packet| <= size
      modifies this`total, this`pos, this`log, dest
      ensures Valid() && total == old(total) + Min(|packet|, dataLen - old(total))
      ensures forall x :: 0 <= x < dest.Length ==>
                dest[x] == if old(total) <= x < total then packet[x - old(total)] else old(dest[x])
      ensures done <==> total == wLength || total - old(total) < size
      ensures log == old(log) +
                (if done then if !stageOk then [Stall] else if accept then [StatusXact()] else []
                 else if accept then [DataOut(Min(dataLen - total, size))] else [])
    {
      var n := Min(|packet|, dataLen - total);
      forall i | 0 <= i < n { dest[pos + i] := packet[i]; }
      total := total + n;
      pos := pos + n;
      done := wLength == total || n < size;
      if done {
        if !stageOk {
          log := log + [Stall];
        } else if accept {
          log := log + [StatusXact()];
        }
      } else {
        var _ := DataStageXact(accept);
      }
    }
  }

  // ---------------------------------------------------------------- whole transfers

  /** The data stage of a control read and what follows it, once the first piece is out. */
  method ServeRead(e: Engine, w: nat, stageOk: bool)
    requires e.Valid() && e.dirIn && e.hasBuffer && e.wLength == w
    requires 0 == e.total < w && e.log == [DataIn(e.Piece())]
    modifies e`total, e`pos, e`log
    ensures e.Valid() && e.total == e.dataLen
    ensures e.log == Packets(e.reply, e.dataLen, 0, w, e.size) + [if stageOk then StatusOut else Stall]
  {
    ghost var done: seq<Xact> := [];   // completed before the one in flight
    ghost var spec := Packets(e.reply, e.dataLen, 0, w, e.size);
    var more := true;
    while more
      invariant e.Valid() && (more ==> e.total < w) && (!more ==> e.total == e.dataLen)
      invariant more ==> e.log == done + [DataIn(e.Piece())]
      invariant more ==> spec == done + Packets(e.reply, e.dataLen, e.total, w, e.size)
      invariant !more ==> e.log == spec + [if stageOk then StatusOut else Stall]
      decreases w - e.total, more
    {
      ghost var piece := [DataIn(e.Piece())];
      more := ServePiece(e, w, stageOk);
      if more {
        Regroup(done, piece, Packets(e.reply, e.dataLen, e.total, w, e.size));
        done := done + piece;
      }
    }
  }

  /** One piece has gone out: the next follows it, or the status stage. */
  method ServePiece(e: Engine, w: nat, stageOk: bool) returns (more: bool)
    requires e.Valid() && e.dirIn && e.hasBuffer && e.wLength == w && e.total < w
    modifies e`total, e`pos, e`log
    ensures e.Valid() && (if more then old(e.total) < e.total < w else e.total == e.dataLen)
    ensures e.log == old(e.log) + if more then [DataIn(e.Piece())] else [if stageOk then StatusOut else Stall]
    ensures Packets(e.reply, e.dataLen, old(e.total), w, e.size)
         == [DataIn(old(e.Piece()))] + if more then Packets(e.reply, e.dataLen, e.total, w, e.size) else []
  {
    var n := Min(e.dataLen - e.total, e.size);
    e.SentIn(n, stageOk, true);
    more := !(e.total == w || n < e.size);
  }

  /** A control read served to the end by a controller that sends what it is given.  The
      submissions are exactly the packets specified above, then one status stage in the
      other direction (or a stall when the class driver rejects). */
  method ControlRead(e: Engine, w: nat, reply: seq<byte>, stageOk: bool)
    requires e.Valid() && 0 < w < U16 && |reply| < U16
    modifies e
    ensures e.Valid() && e.total == Min(|reply|, w)
    ensures e.log == Packets(reply, Min(|reply|, w), 0, w, e.size) + [if stageOk then StatusOut else Stall]
  {
    e.Setup(w, true);
    var _ := e.ReplyWith(reply, true);
    ServeRead(e, w, stageOk);
  }

  /** The bytes of the first `k` packets that fit in `dataLen`. */
  function Taken(packets: seq<seq<byte>>, k: nat, dataLen: nat): (n: nat)
    requires k <= |packets|
    ensures n <= dataLen
  {
    Min(|Flatten(packets[..k])|, dataLen)
  }

  /** The buffer holds the first `total` bytes of the first `k` packets, and is otherwise as it was. */
  ghost predicate Holds(now: seq<byte>, was: seq<byte>, packets: seq<seq<byte>>, k: nat, total: nat)
    requires k <= |packets|
  {
    var got := Flatten(packets[..k]);
    && |now| == |was| && total <= |got|
    && forall x :: 0 <= x < |now| ==> now[x] == if x < total then got[x] else was[x]
  }

  /** Before each of the first `n` packets just the room that was left was submitted. */
  ghost predicate Asked(log: seq<Xact>, packets: seq<seq<byte>>, n: nat, dataLen: nat, size: nat) {
    && n <= |log| && n <= |packets| + 1
    && forall i :: 0 <= i < n ==> log[i] == DataOut(Min(dataLen - Taken(packets, i, dataLen), size))
  }

  /** One packet of a control write. */
  method TakePacket(e: Engine, packets: seq<seq<byte>>, k: nat, stageOk: bool, ghost was: seq<byte>) returns (done: bool)
    requires e.Valid() && !e.dirIn && e.hasBuffer && k < |packets| && |packets[k]| <= e.size
    requires e.total == Taken(packets, k, e.dataLen) && Holds(e.dest[..], was, packets, k, e.total)
    modifies e`total, e`pos, e`log, e.dest
    ensures e.Valid() && e.total == Taken(packets, k + 1, e.dataLen) && Holds(e.dest[..], was, packets, k + 1, e.total)
    ensures done <==> e.total == e.wLength || e.total - old(e.total) < e.size
    ensures e.log == old(e.log) + [if done then if stageOk then StatusIn else Stall
                                   else DataOut(Min(e.dataLen - e.total, e.size))]
  {
    assert Flatten(packets[..k + 1]) == Flatten(packets[..k]) + packets[k] by {
      FlattenSnoc(packets[..k], packets[k]);
      assert packets[..k + 1] == packets[..k] + [packets[k]];
    }
    done := e.ReceivedOut(packets[k], stageOk, true);
  }

  /** A control write: the packets the host sends end up one after the other in the buffer,
      cut at `dataLen`; nothing is ever stored beyond it, whatever the host sends.  Before each
      packet just the room that is left is submitted, at most the endpoint buffer; the first
      packet that completes the request, or comes out short, is followed by one status stage
      towards the host, or a stall. */
  method ControlWrite(e: Engine, w: nat, dest: array<byte>, len: nat, packets: seq<seq<byte>>, stageOk: bool)
    returns (used: nat, done: bool)
    requires e.Valid() && 0 < w < U16 && len <= dest.Length
    requires forall i :: 0 <= i < |packets| ==> |packets[i]| <= e.size
    modifies e, dest
    ensures e.Valid() && used <= |packets| && (done || used == |packets|)
    ensures e.total == Taken(packets, used, Min(len, w)) && Holds(dest[..], old(dest[..]), packets, used, e.total)
    ensures done <==> used > 0 && (e.total == w || e.total - Taken(packets, used - 1, Min(len, w)) < e.size)
    ensures |e.log| == used + 1 && Asked(e.log, packets, if done then used else used + 1, Min(len, w), e.size)
    ensures done ==> e.log[used] == if stageOk then StatusIn else Stall
  {
    e.Setup(w, false);
    var _ := e.ReceiveInto(dest, len, true);
    used, done := TakePackets(e, packets, stageOk);
  }

  lemma AskedNext(log: seq<Xact>, x: Xact, packets: seq<seq<byte>>, n: nat, dataLen: nat, size: nat)
    requires Asked(log, packets, n, dataLen, size) && n == |log| <= |packets|
    requires x == DataOut(Min(dataLen - Taken(packets, n, dataLen), size))
    ensures Asked(log + [x], packets, n + 1, dataLen, size)
  {}

  /** The packets, once the first submission is out. */
  method TakePackets(e: Engine, packets: seq<seq<byte>>, stageOk: bool) returns (used: nat, done: bool)
    requires e.Valid() && !e.dirIn && e.hasBuffer && e.total == 0 && e.log == [DataOut(Min(e.dataLen, e.size))]
    requires forall i :: 0 <= i < |packets| ==> |packets[i]| <= e.size
    modifies e`total, e`pos, e`log, e.dest
    ensures e.Valid() && used <= |packets| && (done || used == |packets|)
    ensures e.total == Taken(packets, used, e.dataLen) && Holds(e.dest[..], old(e.dest[..]), packets, used, e.total)
    ensures done <==> used > 0 && (e.total == e.wLength || e.total - Taken(packets, used - 1, e.dataLen) < e.size)
    ensures |e.log| == used + 1 && Asked(e.log, packets, if done then used else used + 1, e.dataLen, e.size)
    ensures done ==> e.log[used] == if stageOk then StatusIn else Stall
  {
    used, done := 0, false;
    ghost var was := e.dest[..];
    while !done && used < |packets|
      invariant e.Valid() && used <= |packets| && e.total == Taken(packets, used, e.dataLen)
      invariant Holds(e.dest[..], was, packets, used, e.total)
      invariant done <==> used > 0 && (e.total == e.wLength || e.total - Taken(packets, used - 1, e.dataLen) < e.size)
      invariant |e.log| == used + 1 && Asked(e.log, packets, if done then used else used + 1, e.dataLen, e.size)
      invariant done ==> e.log[used] == if stageOk then StatusIn else Stall
      decreases |packets| - used
    {
      ghost var log := e.log;
      done := TakePacket(e, packets, used, stageOk, was);
      used := used + 1;
      if !done { AskedNext(log, e.log[used], packets, used, e.dataLen, e.size); }
    }
  }
}

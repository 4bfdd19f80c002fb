/** Whole runs of the FIFO operations, against an abstract byte queue. */
module FifoRuns {
  import opened Basics
  import opened RingIndex
  import opened RingFifo

  datatype Op =
    | Write(data: seq<byte>) | WriteByte(b: byte)
    | Read(n: nat) | ReadByte
    | Peek(n: nat) | PeekByte
    | Discard(n: nat) | Wipe

  /** How many bytes an operation reports, and which it hands out. */
  datatype Reply = Reply(n: nat, bytes: seq<byte>)

  /** The 16-bit lengths of the C interface. */
  predicate InRange(op: Op) {
    match op
    case Write(data) => |data| < U16
    case Read(n) => n < U16
    case Peek(n) => n < U16
    case Discard(n) => n < U16
    case _ => true
  }

  /** A bounded queue of at most `d` bytes: what one operation should do. */
  function QueueStep(q: seq<byte>, d: nat, op: Op): (r: (seq<byte>, Reply))
    requires |q| <= d
    ensures |r.0| <= d
  {
    match op
    case Write(data) => var n := Min(|data|, d - |q|); (q + data[..n], Reply(n, []))
    case WriteByte(b) => if |q| < d then (q + [b], Reply(1, [])) else (q, Reply(0, []))
    case Read(n) => var k := Min(n, |q|); (q[k..], Reply(k, q[..k]))
    case ReadByte => if q == [] then (q, Reply(0, [])) else (q[1..], Reply(1, [q[0]]))
    case Peek(n) => var k := Min(n, |q|); (q, Reply(k, q[..k]))
    case PeekByte => if q == [] then (q, Reply(0, [])) else (q, Reply(1, [q[0]]))
    case Discard(n) => var k := Min(n, |q|); (q[k..], Reply(k, []))
    case Wipe => ([], Reply(0, []))
  }

  function QueueRun(q: seq<byte>, d: nat, ops: seq<Op>): (r: (seq<byte>, seq<Reply>))
    requires |q| <= d
    ensures |r.0| <= d
    decreases |ops|
  {
    if ops == [] then (q, [])
    else
      var (q', replies) := QueueRun(q, d, ops[..|ops| - 1]);
      var (q'', reply) := QueueStep(q', d, ops[|ops| - 1]);
      (q'', replies + [reply])
  }

  /** One operation on the real FIFO. */
  method Apply(f: Fifo, op: Op) returns (reply: Reply)
    requires f.Valid() && !f.overwritable && f.Unread() <= f.depth && InRange(op)
    modifies f`wr_idx, f`rd_idx, f.buffer
    ensures f.Valid() && f.Unread() <= f.depth
    ensures (f.Contents(), reply) == QueueStep(old(f.Contents()), f.depth, op)
  {
    ghost var q := f.Contents();
    match op {
      case Write(data) => var n := f.WriteN(data); reply := Reply(n, []);
      case WriteByte(b) => var ok := f.WriteOne(b); reply := Reply(if ok then 1 else 0, []);
      case Read(n) => var out := f.ReadN(n); reply := Reply(|out|, out);
      case ReadByte =>
        var ok, b := f.ReadOne();
        assert ok ==> f.Contents() == ([b] + f.Contents())[1..];
        reply := if ok then Reply(1, [b]) else Reply(0, []);
      case Peek(n) => var out := f.PeekN(n); reply := Reply(|out|, out);
      case PeekByte => var ok, b := f.PeekOne(); reply := if ok then Reply(1, [b]) else Reply(0, []);
      case Discard(n) => var k := f.DiscardN(n); reply := Reply(k, []);
      case Wipe => f.Clear(); reply := Reply(0, []);
    }
  }

  /** Every sequence of operations on a FIFO that is not overwritable is a run of the
      bounded queue, with the same replies. */
  method Run(f: Fifo, ops: seq<Op>) returns (replies: seq<Reply>)
    requires f.Valid() && !f.overwritable && f.Unread() <= f.depth
    requires forall i :: 0 <= i < |ops| ==> InRange(ops[i])
    modifies f`wr_idx, f`rd_idx, f.buffer
    ensures f.Valid() && f.Unread() <= f.depth
    ensures (f.Contents(), replies) == QueueRun(old(f.Contents()), f.depth, ops)
  {
    replies := [];
    for i := 0 to |ops|
      invariant f.Valid() && !f.overwritable && f.Unread() <= f.depth && f.buffer == old(f.buffer) && f.depth == old(f.depth)
      invariant (f.Contents(), replies) == QueueRun(old(f.Contents()), f.depth, ops[..i])
    {
      assert ops[..i + 1][..i] == ops[..i];
      var reply := Apply(f, ops[i]);
      replies := replies + [reply];
    }
    assert ops[..|ops|] == ops;
  }

  // ---------------------------------------------------------------- conservation

  /** The bytes an operation lets in, and those it takes out. */
  function Entered(q: seq<byte>, d: nat, op: Op): seq<byte>
    requires |q| <= d
  {
    match op
    case Write(data) => data[..Min(|data|, d - |q|)]
    case WriteByte(b) => if |q| < d then [b] else []
    case _ => []
  }

  function Left(q: seq<byte>, d: nat, op: Op): seq<byte>
    requires |q| <= d
  {
    match op
    case Read(n) => q[..Min(n, |q|)]
    case ReadByte => q[..Min(1, |q|)]
    case Discard(n) => q[..Min(n, |q|)]
    case Wipe => q
    case _ => []
  }

  function AllEntered(q: seq<byte>, d: nat, ops: seq<Op>): seq<byte>
    requires |q| <= d
    decreases |ops|
  {
    if ops == [] then []
    else var rest := ops[..|ops| - 1];
         AllEntered(q, d, rest) + Entered(QueueRun(q, d, rest).0, d, ops[|ops| - 1])
  }

  function AllLeft(q: seq<byte>, d: nat, ops: seq<Op>): seq<byte>
    requires |q| <= d
    decreases |ops|
  {
    if ops == [] then []
    else var rest := ops[..|ops| - 1];
         AllLeft(q, d, rest) + Left(QueueRun(q, d, rest).0, d, ops[|ops| - 1])
  }

  lemma StepConserves(q: seq<byte>, d: nat, op: Op)
    requires |q| <= d
    ensures Left(q, d, op) + QueueStep(q, d, op).0 == q + Entered(q, d, op)
  {}

  lemma Telescope(left: seq<byte>, q': seq<byte>, q: seq<byte>, entered: seq<byte>,
                  l: seq<byte>, q'': seq<byte>, e: seq<byte>)
    requires left + q' == q + entered && l + q'' == q' + e
    ensures (left + l) + q'' == q + (entered + e)
  {
    assert (left + l) + q'' == left + (l + q'') == (left + q') + e == q + (entered + e);
  }

  /** No byte is lost, duplicated or reordered over any run: what has left, followed by
      what is still there, is what was there followed by what was let in. */
  lemma {:induction false} RunConserves(q: seq<byte>, d: nat, ops: seq<Op>)
    requires |q| <= d
    ensures AllLeft(q, d, ops) + QueueRun(q, d, ops).0 == q + AllEntered(q, d, ops)
    decreases |ops|
  {
    if ops != [] {
      var rest, op := ops[..|ops| - 1], ops[|ops| - 1];
      RunConserves(q, d, rest);
      var q' := QueueRun(q, d, rest).0;
      StepConserves(q', d, op);
      Telescope(AllLeft(q, d, rest), q', q, AllEntered(q, d, rest),
                Left(q', d, op), QueueStep(q', d, op).0, Entered(q', d, op));
    }
  }

  // ---------------------------------------------------------------- overwritable runs

  /** What a reader of an overwritable FIFO would get, and the raw count of unread bytes. */
  datatype Over = Over(shown: seq<byte>, count: nat)

  predicate Fits(v: Over, d: nat) {
    |v.shown| == Min(v.count, d) && v.count < 2 * d
  }

  function OverStep(v: Over, d: nat, op: Op): (r: (Over, Reply))
    requires Fits(v, d)
    ensures Fits(r.0, d)
  {
    var q := v.shown;
    match op
    case Write(data) =>
      (Over(Overwritten(q, d, v.count, data), CountAfter(d, v.count, |data|)), Reply(Min(|data|, d), []))
    case WriteByte(b) => (if v.count + 1 < 2 * d then Over(Tail(q + [b], d), v.count + 1) else Over([], 0), Reply(1, []))
    case Read(n) => var k := Min(n, |q|); (Over(q[k..], |q| - k), Reply(k, q[..k]))
    case ReadByte => if q == [] then (Over(q, 0), Reply(0, [])) else (Over(q[1..], |q| - 1), Reply(1, [q[0]]))
    case Peek(n) => var k := Min(n, |q|); (Over(q, |q|), Reply(k, q[..k]))
    case PeekByte => (Over(q, |q|), if q == [] then Reply(0, []) else Reply(1, [q[0]]))
    case Discard(n) => var k := Min(n, |q|); (Over(Tail(q, v.count - k), v.count - k), Reply(k, []))
    case Wipe => (Over([], 0), Reply(0, []))
  }

  function OverRun(v: Over, d: nat, ops: seq<Op>): (r: (Over, seq<Reply>))
    requires Fits(v, d)
    ensures Fits(r.0, d)
    decreases |ops|
  {
    if ops == [] then (v, [])
    else
      var (v', replies) := OverRun(v, d, ops[..|ops| - 1]);
      var (v'', reply) := OverStep(v', d, ops[|ops| - 1]);
      (v'', replies + [reply])
  }

  /** The write pushes the unread bytes beyond twice the depth, without filling the ring itself. */
  predicate Laps(v: Over, d: nat, op: Op) {
    match op
    case Write(data) => |data| < d && v.count + |data| > 2 * d
    case WriteByte(_) => v.count + 1 == 2 * d
    case _ => false
  }

  predicate NeverLaps(v: Over, d: nat, ops: seq<Op>)
    requires Fits(v, d)
    decreases |ops|
  {
    ops == [] ||
    var rest := ops[..|ops| - 1];
    NeverLaps(v, d, rest) && !Laps(OverRun(v, d, rest).0, d, ops[|ops| - 1])
  }

  /** The bytes an operation writes, and those of a run. */
  function Put(op: Op): seq<byte> {
    match op
    case Write(data) => data
    case WriteByte(b) => [b]
    case _ => []
  }

  function AllPut(ops: seq<Op>): seq<byte> {
    if ops == [] then [] else AllPut(ops[..|ops| - 1]) + Put(ops[|ops| - 1])
  }

  predicate Ends(all: seq<byte>, s: seq<byte>) {
    |s| <= |all| && all[|all| - |s|..] == s
  }

  lemma TailEnds(all: seq<byte>, s: seq<byte>, data: seq<byte>, d: nat)
    requires Ends(all, s)
    ensures Ends(all + data, Tail(s + data, d))
  {
    var t, a := Tail(s + data, d), all + data;
    forall i | 0 <= i < |t| ensures t[i] == a[|a| - |t| + i] {}
  }

  lemma StepShowsNewest(v: Over, d: nat, op: Op, all: seq<byte>)
    requires Fits(v, d) && Ends(all, v.shown) && !Laps(v, d, op)
    ensures Ends(all + Put(op), OverStep(v, d, op).0.shown)
  {
    assert all + [] == all;
    match op
    case Write(data) =>
      DropOldest(v.shown, d, v.count, data);
      TailEnds(all, v.shown, data, d);
    case WriteByte(b) => TailEnds(all, v.shown, [b], d);
    case _ =>
  }

  /** Over any run in which no write laps, what a reader would get are the newest bytes of all
      that were written, as many as are unread and fit. */
  lemma {:induction false} RunShowsNewest(v: Over, d: nat, ops: seq<Op>, all: seq<byte>)
    requires Fits(v, d) && Ends(all, v.shown) && NeverLaps(v, d, ops)
    ensures var v' := OverRun(v, d, ops).0;
            Ends(all + AllPut(ops), v'.shown) && |v'.shown| == Min(v'.count, d)
    decreases |ops|
  {
    if ops == [] {
      assert all + [] == all;
    } else {
      var rest, op := ops[..|ops| - 1], ops[|ops| - 1];
      var v' := OverRun(v, d, rest).0;
      assert Ends((all + AllPut(rest)) + Put(op), OverStep(v', d, op).0.shown) by {
        RunShowsNewest(v, d, rest, all);
        StepShowsNewest(v', d, op, all + AllPut(rest));
      }
      assert (all + AllPut(rest)) + Put(op) == all + AllPut(ops) by {
        Regroup(all, AllPut(rest), Put(op));
      }
    }
  }

  /** One operation on the real FIFO. */
  method ApplyOver(f: Fifo, op: Op) returns (reply: Reply)
    requires f.Valid() && f.overwritable && InRange(op)
    modifies f`wr_idx, f`rd_idx, f.buffer
    ensures f.Valid()
    ensures (Over(f.Contents(), f.Unread()), reply) == OverStep(Over(old(f.Contents()), old(f.Unread())), f.depth, op)
  {
    match op {
      case Write(data) => var n := f.WriteN(data); reply := Reply(n, []);
      case WriteByte(b) => var ok := f.WriteOne(b); reply := Reply(if ok then 1 else 0, []);
      case Read(n) => var out := f.ReadN(n); reply := Reply(|out|, out);
      case ReadByte =>
        var ok, b := f.ReadOne();
        assert ok ==> f.Contents() == ([b] + f.Contents())[1..];
        reply := if ok then Reply(1, [b]) else Reply(0, []);
      case Peek(n) => var out := f.PeekN(n); reply := Reply(|out|, out);
      case PeekByte => var ok, b := f.PeekOne(); reply := if ok then Reply(1, [b]) else Reply(0, []);
      case Discard(n) => var k := f.DiscardN(n); reply := Reply(k, []);
      case Wipe => f.Clear(); reply := Reply(0, []);
    }
  }

  /** Every sequence of operations on an overwritable FIFO is such a run. */
  method RunOver(f: Fifo, ops: seq<Op>) returns (replies: seq<Reply>)
    requires f.Valid() && f.overwritable
    requires forall i :: 0 <= i < |ops| ==> InRange(ops[i])
    modifies f`wr_idx, f`rd_idx, f.buffer
    ensures f.Valid()
    ensures (Over(f.Contents(), f.Unread()), replies) == OverRun(Over(old(f.Contents()), old(f.Unread())), f.depth, ops)
    ensures NeverLaps(Over(old(f.Contents()), old(f.Unread())), f.depth, ops) ==>
              Ends(old(f.Contents()) + AllPut(ops), f.Contents())
  {
    replies := [];
    ghost var v := Over(f.Contents(), f.Unread());
    for i := 0 to |ops|
      invariant f.Valid() && f.overwritable && f.buffer == old(f.buffer) && f.depth == old(f.depth)
      invariant (Over(f.Contents(), f.Unread()), replies) == OverRun(v, f.depth, ops[..i])
    {
      assert ops[..i + 1][..i] == ops[..i];
      var reply := ApplyOver(f, ops[i]);
      replies := replies + [reply];
    }
    assert ops[..|ops|] == ops;
    if NeverLaps(v, f.depth, ops) { RunShowsNewest(v, f.depth, ops, v.shown); }
  }
}

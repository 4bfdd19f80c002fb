/** One writer and one reader on a FIFO that is not overwritable, with no lock.

    The header promises that writing and reading are decoupled because neither modifies
    what the other owns (src/common/tusb_fifo.h).  Here each operation is taken apart:
    load the indices, copy byte by byte in any order, store the own index.  The two
    sides interleave freely; index loads and stores are sequentially consistent. */
module FifoConcurrency {
  import opened Basics
  import opened RingIndex
  import opened RingFifo

  /** `data` is what fits of the bytes to be written; `done` are the offsets copied. */
  datatype Writer = WIdle | WCopying(at: int, data: seq<byte>, done: set<nat>)

  /** `n` bytes are being read; `got` are the bytes copied so far. */
  datatype Reader = RIdle | RCopying(at: int, n: nat, got: map<nat, byte>)

  datatype State = State(
    d: int, buf: seq<byte>, wr: int, rd: int,
    writer: Writer, reader: Reader,
    written: seq<byte>, read: seq<byte>)   // bytes published and bytes returned so far

  datatype Step =
    | WriteBegin(data: seq<byte>) | WriteByte(j: nat) | WriteEnd
    | ReadBegin(n: nat) | ReadByte(j: nat) | ReadEnd | PeekEnd

  predicate Shape(s: State) {
    && ValidDepth(s.d) && |s.buf| == s.d && IsIndex(s.d, s.wr) && IsIndex(s.d, s.rd)
    && (s.writer.WCopying? ==> IsIndex(s.d, s.writer.at) && |s.writer.data| <= s.d)
    && (s.reader.RCopying? ==> IsIndex(s.d, s.reader.at) && s.reader.n <= s.d)
  }

  predicate Enabled(s: State, step: Step)
    requires Shape(s)
  {
    match step
    case WriteBegin(data) => s.writer.WIdle? && |data| < U16
    case WriteByte(j) => s.writer.WCopying? && j < |s.writer.data|
    case WriteEnd => s.writer.WCopying? && forall j :: 0 <= j < |s.writer.data| ==> j in s.writer.done
    case ReadBegin(n) => s.reader.RIdle? && n < U16
    case ReadByte(j) => s.reader.RCopying? && j < s.reader.n
    case ReadEnd => s.reader.RCopying? && forall j :: 0 <= j < s.reader.n ==> j in s.reader.got
    case PeekEnd => s.reader.RCopying? && forall j :: 0 <= j < s.reader.n ==> j in s.reader.got
  }

  /** The bytes a reader returns once it has copied them all. */
  function Returned(r: Reader): (out: seq<byte>)
    requires r.RCopying? && forall j :: 0 <= j < r.n ==> j in r.got
    ensures |out| == r.n && forall j :: 0 <= j < r.n ==> out[j] == r.got[j]
  {
    seq(r.n, j requires 0 <= j < r.n => r.got[j])
  }

  /** One step, following the code: the overflow branch of the reader included. */
  function Apply(s: State, step: Step): (s': State)
    requires Shape(s) && Enabled(s, step)
    ensures Shape(s')
  {
    match step
    case WriteBegin(data) =>
      var n := Min(|data|, Remaining(s.d, s.wr, s.rd));
      if n == 0 then s else s.(writer := WCopying(s.wr, data[..n], {}))
    case WriteByte(j) =>
      var w := s.writer;
      s.(buf := s.buf[Ptr(s.d, w.at + j) := w.data[j]], writer := w.(done := w.done + {j}))
    case WriteEnd =>
      s.(wr := Forward(s.d, s.writer.at, |s.writer.data|), writer := WIdle, written := s.written + s.writer.data)
    case ReadBegin(n) =>
      var c := OverflowCount(s.d, s.wr, s.rd);
      if c > s.d then s.(rd := CorrectedRead(s.d, s.wr), reader := RCopying(CorrectedRead(s.d, s.wr), Min(n, s.d), map[]))
      else s.(reader := RCopying(s.rd, Min(n, c), map[]))
    case ReadByte(j) =>
      var r := s.reader;
      s.(reader := r.(got := r.got[j := s.buf[Ptr(s.d, r.at + j)]]))
    case ReadEnd =>
      s.(rd := Forward(s.d, s.rd, s.reader.n), reader := RIdle, read := s.read + Returned(s.reader))
    case PeekEnd => s.(reader := RIdle)
  }

  /** The bytes published and not yet returned. */
  function Pending(s: State): seq<byte>
    requires Shape(s) && OverflowCount(s.d, s.wr, s.rd) <= s.d
  {
    Window(s.buf, s.d, s.rd, OverflowCount(s.d, s.wr, s.rd))
  }

  predicate WriterOk(s: State)
    requires Shape(s)
  {
    s.writer.WCopying? ==>
      && s.writer.at == s.wr
      && OverflowCount(s.d, s.wr, s.rd) + |s.writer.data| <= s.d
      && AllCopied(s.buf, s.d, s.wr, s.writer.data, s.writer.done)
  }

  /** The offsets in `done` have been copied. */
  predicate AllCopied(buf: seq<byte>, d: int, at: int, data: seq<byte>, done: set<nat>)
    requires 0 < d == |buf| && IsIndex(d, at) && |data| <= d
  {
    forall j :: j in done ==> j < |data| && buf[Ptr(d, at + j)] == data[j]
  }

  predicate ReaderOk(s: State)
    requires Shape(s) && OverflowCount(s.d, s.wr, s.rd) <= s.d
  {
    s.reader.RCopying? ==>
      && s.reader.at == s.rd
      && s.reader.n <= OverflowCount(s.d, s.wr, s.rd)
      && forall j :: j in s.reader.got ==>
           j < s.reader.n && s.reader.got[j] == Pending(s)[j]
  }

  predicate Inv(s: State) {
    && Shape(s)
    && OverflowCount(s.d, s.wr, s.rd) <= s.d
    && s.written == s.read + Pending(s)
    && WriterOk(s) && ReaderOk(s)
  }

  // ---------------------------------------------------------------- each step keeps Inv

  /** A slot being filled is no slot that is pending, ... */
  lemma FreeSlotNotPending(d: int, wr: int, rd: int, k: int, j: int)
    requires ValidDepth(d) && IsIndex(d, wr) && IsIndex(d, rd)
    requires 0 <= k < OverflowCount(d, wr, rd) && 0 <= j && OverflowCount(d, wr, rd) + j < d
    ensures Ptr(d, rd + k) != Ptr(d, wr + j)
  {}

  /** ... and different offsets are different slots. */
  lemma OffsetsApart(d: int, i: int, k: int, j: int)
    requires 0 < d && IsIndex(d, i) && 0 <= k < d && 0 <= j < d && k != j
    ensures Ptr(d, i + k) != Ptr(d, i + j)
  {}

  lemma WriteByteKeepsPending(s: State, j: nat)
    requires Inv(s) && Enabled(s, WriteByte(j))
    ensures Pending(Apply(s, WriteByte(j))) == Pending(s)
  {
    var s' := Apply(s, WriteByte(j));
    forall k | 0 <= k < |Pending(s)|
      ensures Pending(s')[k] == Pending(s)[k]
    {
      FreeSlotNotPending(s.d, s.wr, s.rd, k, j);
    }
  }

  /** Copying one byte leaves those copied before. */
  lemma CopiedByteStays(buf: seq<byte>, d: int, at: int, data: seq<byte>, k: nat, j: nat)
    requires 0 < d == |buf| && IsIndex(d, at) && |data| <= d && j < |data| && k < |data|
    requires k == j || buf[Ptr(d, at + k)] == data[k]
    ensures buf[Ptr(d, at + j) := data[j]][Ptr(d, at + k)] == data[k]
  {
    if k != j { OffsetsApart(d, at, k, j); }
  }

  lemma CopyOne(buf: seq<byte>, d: int, at: int, data: seq<byte>, done: set<nat>, j: nat)
    requires 0 < d == |buf| && IsIndex(d, at) && |data| <= d && j < |data| && AllCopied(buf, d, at, data, done)
    ensures AllCopied(buf[Ptr(d, at + j) := data[j]], d, at, data, done + {j})
  {
    forall k | k in done + {j} ensures k < |data| && buf[Ptr(d, at + j) := data[j]][Ptr(d, at + k)] == data[k] {
      CopiedByteStays(buf, d, at, data, k, j);
    }
  }

  lemma WriteByteKeepsWriter(s: State, j: nat)
    requires Inv(s) && Enabled(s, WriteByte(j))
    ensures WriterOk(Apply(s, WriteByte(j)))
  {
    CopyOne(s.buf, s.d, s.wr, s.writer.data, s.writer.done, j);
  }

  lemma WriteEndKeeps(s: State)
    requires Inv(s) && Enabled(s, WriteEnd)
    ensures Inv(Apply(s, WriteEnd))
  {
    var s', c, n := Apply(s, WriteEnd), OverflowCount(s.d, s.wr, s.rd), |s.writer.data|;
    assert OverflowCount(s'.d, s'.wr, s'.rd) == c + n;
    forall k | 0 <= k < c + n
      ensures Pending(s')[k] == (Pending(s) + s.writer.data)[k]
    {
      if k >= c { assert k - c in s.writer.done; }
    }
    assert Pending(s') == Pending(s) + s.writer.data;
    assert s'.written == s.read + (Pending(s) + s.writer.data);
  }

  lemma ReadEndKeeps(s: State)
    requires Inv(s) && Enabled(s, ReadEnd)
    ensures Inv(Apply(s, ReadEnd))
  {
    var s', c, n := Apply(s, ReadEnd), OverflowCount(s.d, s.wr, s.rd), s.reader.n;
    assert OverflowCount(s'.d, s'.wr, s'.rd) == c - n;
    WindowSuffix(s.buf, s.d, s.rd, c, n);
    ReturnedIsPending(s);
    Passed(s.written, s.read, Pending(s), n);
  }

  lemma ReturnedIsPending(s: State)
    requires Inv(s) && Enabled(s, ReadEnd)
    ensures Returned(s.reader) == Pending(s)[..s.reader.n]
  {
    forall j | 0 <= j < s.reader.n
      ensures Returned(s.reader)[j] == Pending(s)[j]
    {
      assert j in s.reader.got;
    }
  }

  lemma StepKeeps(s: State, step: Step)
    requires Inv(s) && Enabled(s, step)
    ensures Inv(Apply(s, step))
  {
    match step {
      case WriteByte(j) =>
        WriteByteKeepsPending(s, j);
        WriteByteKeepsWriter(s, j);
      case WriteEnd => WriteEndKeeps(s);
      case ReadEnd => ReadEndKeeps(s);
      case _ =>
    }
  }

  // ---------------------------------------------------------------- every interleaving

  /** `steps` can be taken from `s`, one after the other. */
  predicate CanRun(s: State, steps: seq<Step>)
    requires Shape(s)
    decreases |steps|
  {
    steps == [] || (Enabled(s, steps[0]) && CanRun(Apply(s, steps[0]), steps[1..]))
  }

  function After(s: State, steps: seq<Step>): (s': State)
    requires Shape(s) && CanRun(s, steps)
    ensures Shape(s')
    decreases |steps|
  {
    if steps == [] then s else After(Apply(s, steps[0]), steps[1..])
  }

  /** An empty FIFO, wherever its indices stand. */
  predicate Initial(s: State) {
    Shape(s) && s.wr == s.rd && s.writer.WIdle? && s.reader.RIdle? && s.written == [] && s.read == []
  }

  lemma {:induction false} RunKeeps(s: State, steps: seq<Step>)
    requires Inv(s) && CanRun(s, steps)
    ensures Inv(After(s, steps))
    decreases |steps|
  {
    if steps != [] {
      StepKeeps(s, steps[0]);
      RunKeeps(Apply(s, steps[0]), steps[1..]);
    }
  }

  /** In every reachable state, mid-copy or not, the bytes read so far are a prefix of the
      bytes written so far, and the rest is what the FIFO holds. */
  lemma ReadIsPrefixOfWritten(s: State, steps: seq<Step>)
    requires Initial(s) && CanRun(s, steps)
    ensures var s' := After(s, steps);
            && s'.read <= s'.written
            && OverflowCount(s'.d, s'.wr, s'.rd) <= s'.d
            && s'.written == s'.read + Pending(s')
  {
    assert Pending(s) == [];
    RunKeeps(s, steps);
  }

  /** And whenever both sides are copying, they copy different slots. */
  lemma CopiesNeverCollide(s: State, steps: seq<Step>, i: nat, j: nat)
    requires Initial(s) && CanRun(s, steps)
    requires var s' := After(s, steps);
             && s'.writer.WCopying? && j < |s'.writer.data|
             && s'.reader.RCopying? && i < s'.reader.n
    ensures var s' := After(s, steps);
            Ptr(s'.d, s'.writer.at + j) != Ptr(s'.d, s'.reader.at + i)
  {
    assert Pending(s) == [];
    RunKeeps(s, steps);
  }

  /** What a read returns are the very bytes written next, in order. */
  lemma ReadReturnsWritten(s: State, steps: seq<Step>)
    requires Initial(s) && CanRun(s, steps) && Enabled(After(s, steps), ReadEnd)
    ensures var s' := After(s, steps);
            && |s'.read| + s'.reader.n <= |s'.written|
            && Returned(s'.reader) == s'.written[|s'.read|..|s'.read| + s'.reader.n]
  {
    assert Pending(s) == [];
    RunKeeps(s, steps);
    ReturnedIsPending(After(s, steps));
  }

  // ---------------------------------------------------------------- what the calls ask for

  /** What a write of `data` stores: as much from its front as there is room for. */
  function Cut(s: State, data: seq<byte>): seq<byte>
    requires Inv(s)
  {
    data[..Min(|data|, s.d - |Pending(s)|)]
  }

  /** The bytes a write under way will publish. */
  function InHand(w: Writer): seq<byte> { if w.WIdle? then [] else w.data }

  /** A write takes the front of its data, a read or peek as many bytes as it asks for and there
      are; neither changes anything else when it begins. */
  lemma CallsBegin(s: State, data: seq<byte>, n: nat)
    requires Inv(s) && |data| < U16 && n < U16
    ensures s.writer.WIdle? ==> var s' := Apply(s, WriteBegin(data)); InHand(s'.writer) == Cut(s, data) && s' == s.(writer := s'.writer)
    ensures s.reader.RIdle? ==> Apply(s, ReadBegin(n)) == s.(reader := RCopying(s.rd, Min(n, |Pending(s)|), map[]))
  {}

  /** What all writes begun in a run store, in order. */
  function Offered(s: State, steps: seq<Step>): seq<byte>
    requires Inv(s) && CanRun(s, steps)
    decreases |steps|
  {
    if steps == [] then []
    else
      StepKeeps(s, steps[0]);
      (if steps[0].WriteBegin? then Cut(s, steps[0].data) else []) + Offered(Apply(s, steps[0]), steps[1..])
  }

  lemma StepOffers(s: State, step: Step)
    requires Inv(s) && Enabled(s, step)
    ensures var s' := Apply(s, step);
            s'.written + InHand(s'.writer) == (s.written + InHand(s.writer)) + if step.WriteBegin? then Cut(s, step.data) else []
  {
    if step.WriteBegin? { CallsBegin(s, step.data, 0); }
  }

  lemma {:induction false} RunOffers(s: State, steps: seq<Step>)
    requires Inv(s) && CanRun(s, steps)
    ensures var s' := After(s, steps);
            s'.written + InHand(s'.writer) == (s.written + InHand(s.writer)) + Offered(s, steps)
    decreases |steps|
  {
    if steps != [] {
      var s1 := Apply(s, steps[0]);
      StepKeeps(s, steps[0]);
      StepOffers(s, steps[0]);
      RunOffers(s1, steps[1..]);
      Regroup(s.written + InHand(s.writer), if steps[0].WriteBegin? then Cut(s, steps[0].data) else [], Offered(s1, steps[1..]));
    }
  }

  /** Over every interleaving, what is published, with the write under way, is the concatenation
      of what the calls had to write, each cut to the room there was. */
  lemma WrittenIsOffered(s: State, steps: seq<Step>)
    requires Initial(s) && CanRun(s, steps)
    ensures var s' := After(s, steps);
            && Inv(s) && s'.written + InHand(s'.writer) == Offered(s, steps)
            && s'.read <= s'.written <= Offered(s, steps)
  {
    RunOffers(s, steps);
    ReadIsPrefixOfWritten(s, steps);
    assert ([] + []) + Offered(s, steps) == Offered(s, steps);
  }
}

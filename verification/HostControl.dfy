/** Asynchronous host control transfers (src/host/usbh.c).

    One transfer is in flight (the slot); others wait in a bounded FIFO, each stamped with a
    generation number of its device address.  A completion callback may do anything the host
    does, running the host again from inside included: what happens is a script, consumed from
    the front, `Return` ending one callback.  The answers of the host controller are parameters:
    of each call, or, for a transfer that leaves the FIFO, of the host (`takes`).

    Transfers accepted with `true` are numbered 0, 1, 2, ... in the order of acceptance. */
module HostControl {
  const RETRY_MAX := 3     // USBH_CONTROL_RETRY_MAX

  datatype Stage = Idle | Setup | Data | Ack

  datatype Result = Success | Failed | Stalled | Aborted | Other

  datatype Xfer = Xfer(id: nat, daddr: nat, hasData: bool)

  datatype Entry = Entry(xfer: Xfer, gen: nat)

  datatype Done = Done(id: nat, result: Result)

  datatype Action =
    | Return
    | Submit(daddr: nat, hasData: bool, sendOk: bool)
    | Abort(daddr: nat)
    | Event(daddr: nat, result: Result, hcdOk: bool)
    | Dispatch
    | Close(daddr: nat)
    | Attach(daddr: nat)

  // ---------------------------------------------------------------- where a transfer is

  /** In the slot; `n`-th to enter the FIFO and still there; or its callback was the `k`-th run. */
  datatype Place = InSlot | InFifo(n: nat) | Finished(k: nat)

  /** Each transfer is where `place` says, and nowhere else: the slot, the FIFO (which starts at
      entry number `out`) and the list of callbacks run hold just those. */
  ghost predicate Placed(place: seq<Place>, busy: bool, slot: Xfer, p: seq<Entry>, out: nat, done: seq<Done>) {
    && (busy ==> slot.id < |place| && place[slot.id] == InSlot)
    && (forall i :: 0 <= i < |p| ==> p[i].xfer.id < |place| && place[p[i].xfer.id] == InFifo(out + i))
    && (forall k :: 0 <= k < |done| ==> done[k].id < |place| && place[done[k].id] == Finished(k))
    && (forall id :: 0 <= id < |place| ==> Found(place[id], id, busy, slot, p, out, done))
  }

  predicate Found(w: Place, id: nat, busy: bool, slot: Xfer, p: seq<Entry>, out: nat, done: seq<Done>) {
    match w
    case InSlot => busy && slot.id == id
    case InFifo(n) => out <= n < out + |p| && p[n - out].xfer.id == id
    case Finished(k) => k < |done| && done[k].id == id
  }

  /** So every transfer is in exactly one of the three, once. */
  lemma ExactlyOnePlace(place: seq<Place>, busy: bool, slot: Xfer, p: seq<Entry>, out: nat, done: seq<Done>, id: nat)
    requires Placed(place, busy, slot, p, out, done) && id < |place|
    ensures var inSlot, queued, ran := busy && slot.id == id,
              exists i :: 0 <= i < |p| && p[i].xfer.id == id, exists k :: 0 <= k < |done| && done[k].id == id;
            && (inSlot || queued || ran) && !(inSlot && queued) && !(inSlot && ran) && !(queued && ran)
    ensures forall i, j :: 0 <= i < j < |p| ==> p[i].xfer.id != p[j].xfer.id
    ensures forall k, l :: 0 <= k < l < |done| ==> done[k].id != done[l].id
  {
    assert Found(place[id], id, busy, slot, p, out, done);
  }

  lemma PlaceInSlot(place: seq<Place>, was: Xfer, slot: Xfer, p: seq<Entry>, out: nat, done: seq<Done>)
    requires Placed(place, false, was, p, out, done) && slot.id == |place|
    ensures Placed(place + [InSlot], true, slot, p, out, done)
  {}

  lemma PlaceInFifo(place: seq<Place>, busy: bool, slot: Xfer, p: seq<Entry>, out: nat, done: seq<Done>, e: Entry)
    requires Placed(place, busy, slot, p, out, done) && e.xfer.id == |place|
    ensures Placed(place + [InFifo(out + |p|)], busy, slot, p + [e], out, done)
  {}

  lemma MoveToSlot(place: seq<Place>, was: Xfer, p: seq<Entry>, out: nat, done: seq<Done>)
    requires Placed(place, false, was, p, out, done) && p != []
    ensures p[0].xfer.id < |place| && Placed(place[p[0].xfer.id := InSlot], true, p[0].xfer, p[1..], out + 1, done)
  {
    var id, rest := p[0].xfer.id, p[1..];
    assert place[id] == InFifo(out);
    var after := place[id := InSlot];
    forall j | 0 <= j < |place| ensures Found(after[j], j, true, p[0].xfer, rest, out + 1, done) {
      assert Found(place[j], j, false, was, p, out, done);
    }
  }

  lemma Finish(place: seq<Place>, slot: Xfer, p: seq<Entry>, out: nat, done: seq<Done>, d: Done)
    requires Placed(place, true, slot, p, out, done) && d.id == slot.id
    ensures Placed(place[slot.id := Finished(|done|)], false, slot, p, out, done + [d])
  {
    var after := place[slot.id := Finished(|done|)];
    forall j | 0 <= j < |place| ensures Found(after[j], j, false, slot, p, out, done + [d]) {
      assert Found(place[j], j, true, slot, p, out, done);
    }
  }

  // ---------------------------------------------------------------- what was sent, and when

  /** How often an address has been closed, and how often it has lost its device: the second
      follows the first, once the close is through. */
  datatype Stamp = Stamp(closes: nat, lives: nat)
  {
    /** Closes of the address that are under way. */
    function Open(): int { closes - lives }
  }

  /** A transfer: its address, when it was accepted, and when it left the FIFO (at once, if it
      never was in it). */
  datatype Record = Record(daddr: nat, at: Stamp, left: Stamp)

  /** A SETUP packet that went out: for which transfer, and when that was accepted. */
  datatype Send = Send(id: nat, daddr: nat, queued: Stamp, sent: Stamp)

  predicate SendTime(queued: Stamp, now: Stamp) {
    && queued.closes <= now.closes && queued.closes % 256 == now.closes % 256
    && queued.lives <= now.lives && queued.lives <= queued.closes && now.lives <= now.closes
  }

  /** The address had the same generation when the transfer left the FIFO as when it entered. */
  predicate Fresh(r: Record) { r.at.closes % 256 == r.left.closes % 256 }

  /** How many SETUP packets went out for each of the first `n` transfers. */
  function Tally(sends: seq<Send>, n: nat): (t: seq<nat>)
    ensures |t| == n
    decreases |sends|
  {
    if sends == [] then seq(n, _ => 0)
    else
      var t, id := Tally(sends[..|sends| - 1], n), sends[|sends| - 1].id;
      if id < n then t[id := t[id] + 1] else t
  }

  lemma TallySnoc(sends: seq<Send>, s: Send, n: nat)
    requires s.id < n
    ensures var t := Tally(sends, n); Tally(sends + [s], n) == t[s.id := t[s.id] + 1]
  {
    assert (sends + [s])[..|sends|] == sends;
  }

  lemma {:induction false} TallyGrows(sends: seq<Send>, n: nat)
    requires forall i :: 0 <= i < |sends| ==> sends[i].id < n
    ensures Tally(sends, n + 1) == Tally(sends, n) + [0]
  {
    if sends != [] { TallyGrows(sends[..|sends| - 1], n); }
  }

  /** Nothing is sent over a stale generation, no transfer more than 1 + RETRY_MAX times, none
      while it waits in the FIFO or after it left it stale; and one never sent has failed, and
      was stale or refused. */
  ghost predicate InOrder(sends: seq<Send>, place: seq<Place>, records: seq<Record>, done: seq<Done>, takes: nat -> bool) {
    && (forall i :: 0 <= i < |sends| ==> SendOk(sends[i], records))
    && Tallied(Tally(sends, |place|), place, records, done, takes)
  }

  predicate SendOk(s: Send, records: seq<Record>) {
    && s.id < |records| && s.queued == records[s.id].at && s.daddr == records[s.id].daddr && SendTime(s.queued, s.sent)
  }

  ghost predicate Tallied(tries: seq<nat>, place: seq<Place>, records: seq<Record>, done: seq<Done>, takes: nat -> bool) {
    && |tries| == |place| == |records|
    && forall id :: 0 <= id < |place| ==> Tried(tries[id], place[id], records[id], done, takes(id))
  }

  predicate Tried(n: nat, w: Place, r: Record, done: seq<Done>, taken: bool) {
    && n <= 1 + RETRY_MAX
    && (n > 0 ==> Fresh(r))
    && (w.InFifo? ==> n == 0)
    && (w.Finished? ==> w.k < |done| && (n == 0 ==> done[w.k].result == Failed && (!Fresh(r) || !taken)))
  }

  lemma AcceptInOrder(sends: seq<Send>, place: seq<Place>, records: seq<Record>, done: seq<Done>, takes: nat -> bool, w: Place, r: Record)
    requires InOrder(sends, place, records, done, takes) && !w.Finished?
    ensures InOrder(sends, place + [w], records + [r], done, takes) && Tally(sends, |place| + 1)[|place|] == 0
  {
    TallyGrows(sends, |place|);
  }

  lemma SendInOrder(sends: seq<Send>, s: Send, place: seq<Place>, records: seq<Record>, done: seq<Done>, takes: nat -> bool)
    requires InOrder(sends, place, records, done, takes) && SendOk(s, records) && Fresh(records[s.id])
    requires place[s.id] == InSlot && Tally(sends, |place|)[s.id] <= RETRY_MAX
    ensures InOrder(sends + [s], place, records, done, takes)
    ensures Tally(sends + [s], |place|)[s.id] == Tally(sends, |place|)[s.id] + 1
  {
    TallySnoc(sends, s, |place|);
  }

  lemma FinishInOrder(sends: seq<Send>, place: seq<Place>, records: seq<Record>, done: seq<Done>, takes: nat -> bool, d: Done)
    requires InOrder(sends, place, records, done, takes) && d.id < |place|
    requires Tally(sends, |place|)[d.id] == 0 ==> d.result == Failed && (!Fresh(records[d.id]) || !takes(d.id))
    ensures InOrder(sends, place[d.id := Finished(|done|)], records, done + [d], takes)
  {}

  lemma PopInOrder(sends: seq<Send>, place: seq<Place>, records: seq<Record>, done: seq<Done>, takes: nat -> bool, id: nat, now: Stamp)
    requires InOrder(sends, place, records, done, takes) && id < |place| && place[id].InFifo?
    ensures Tally(sends, |place|)[id] == 0
    ensures InOrder(sends, place[id := InSlot], records[id := records[id].(left := now)], done, takes)
  {
    var after := records[id := records[id].(left := now)];
    forall i | 0 <= i < |sends| ensures SendOk(sends[i], after) {
      assert SendOk(sends[i], records);
    }
  }

  // ---------------------------------------------------------------- generations

  /** The one-byte generation counts closes; `open` of them are under way. */
  ghost predicate Generations(gens: seq<nat>, closes: seq<nat>, lives: seq<nat>, open: seq<nat>) {
    && |gens| == |closes| == |lives| == |open|
    && forall d :: 0 <= d < |gens| ==> gens[d] == closes[d] % 256 && closes[d] == lives[d] + open[d]
  }

  /** Each entry carries the generation of the time it was accepted. */
  ghost predicate Stamped(p: seq<Entry>, records: seq<Record>, closes: seq<nat>, lives: seq<nat>) {
    forall i :: 0 <= i < |p| ==> StampOk(p[i], records, closes, lives)
  }

  predicate StampOk(e: Entry, records: seq<Record>, closes: seq<nat>, lives: seq<nat>) {
    && e.xfer.id < |records| && e.gen == records[e.xfer.id].at.closes % 256
    && e.xfer.daddr == records[e.xfer.id].daddr && Since(records[e.xfer.id], closes, lives)
  }

  /** The record is of an earlier time. */
  predicate Since(r: Record, closes: seq<nat>, lives: seq<nat>) {
    && r.daddr < |closes| == |lives| && r.at.closes <= closes[r.daddr]
    && r.at.lives <= lives[r.daddr] && r.at.lives <= r.at.closes
  }

  // ---------------------------------------------------------------- the host

  /** What the host knows, as a value. */
  datatype State = State(stage: Stage, slot: Xfer, failed: nat, pending: seq<Entry>, gens: seq<nat>,
                         connected: seq<bool>, accepted: nat)

  /** What has happened so far: where each transfer is and its record, how many entries have left
      the FIFO, the callbacks run, the packets sent, and for each address its closes, devices
      lost and closes under way. */
  datatype Book = Book(place: seq<Place>, records: seq<Record>, out: nat, done: seq<Done>, sends: seq<Send>,
                       closes: seq<nat>, lives: seq<nat>, open: seq<nat>)
  {
    function Now(d: nat): Stamp
      requires d < |closes| == |lives|
    {
      Stamp(closes[d], lives[d])
    }

    /** SETUP packets sent for transfer `x`. */
    function Tries(x: Xfer): nat
      requires x.id < |place|
    {
      Tally(sends, |place|)[x.id]
    }

    /** A packet for transfer `x`, now. */
    function Packet(x: Xfer): Send
      requires x.id < |records| && x.daddr < |closes| == |lives|
    {
      Send(x.id, x.daddr, records[x.id].at, Now(x.daddr))
    }
  }

  /** The number of addresses and of entries the FIFO has room for, and what the controller
      answers when asked to launch each transfer that leaves the FIFO. */
  datatype Env = Env(total: nat, capacity: nat, takes: nat -> bool)

  ghost predicate Shape(s: State, b: Book, env: Env) {
    && |s.gens| == |s.connected| == |b.closes| == |b.lives| == |b.open| == env.total + 1
    && |b.place| == |b.records| == s.accepted
    && |s.pending| <= env.capacity && s.failed <= RETRY_MAX
    && (s.stage != Idle ==> s.slot.daddr <= env.total)
  }

  /** Everything but what is known of a transfer whose packet is out.  The quantified parts are
      compared with `true` so that proofs pass them on whole. */
  ghost predicate Ready(s: State, b: Book, env: Env) {
    && Shape(s, b, env)
    && (Placed(b.place, s.stage != Idle, s.slot, s.pending, b.out, b.done) == true)
    && (Generations(s.gens, b.closes, b.lives, b.open) == true)
    && (Stamped(s.pending, b.records, b.closes, b.lives) == true)
    && (InOrder(b.sends, b.place, b.records, b.done, env.takes) == true)
    && (s.stage != Idle ==> b.records[s.slot.id].daddr == s.slot.daddr)
  }

  /** Its packet is out, again for each failure, and its generation is the present one. */
  ghost predicate InFlight(s: State, b: Book)
    requires s.slot.id < |b.place| == |b.records| && s.slot.daddr < |b.closes| == |b.lives|
  {
    b.Tries(s.slot) == s.failed + 1 && Timely(s, b)
  }

  ghost predicate Timely(s: State, b: Book)
    requires s.slot.id < |b.records| && s.slot.daddr < |b.closes| == |b.lives|
  {
    Fresh(b.records[s.slot.id]) && SendTime(b.records[s.slot.id].at, b.Now(s.slot.daddr))
  }

  ghost predicate Sound(s: State, b: Book, env: Env) {
    Ready(s, b, env) && (s.stage != Idle ==> InFlight(s, b))
  }

  /** A transfer accepted into the FIFO, or into the slot. */
  function Queue(s: State, b: Book, d: nat): Book
    requires d < |b.closes| == |b.lives|
  {
    b.(place := b.place + [InFifo(b.out + |s.pending|)], records := b.records + [Record(d, b.Now(d), b.Now(d))])
  }

  function Admit(b: Book, d: nat): Book
    requires d < |b.closes| == |b.lives|
  {
    b.(place := b.place + [InSlot], records := b.records + [Record(d, b.Now(d), b.Now(d))])
  }

  /** The oldest entry, transfer `x`, leaves the FIFO for the slot. */
  function Pop(b: Book, x: Xfer): Book
    requires x.id < |b.place| == |b.records| && x.daddr < |b.closes| == |b.lives|
  {
    b.(place := b.place[x.id := InSlot], out := b.out + 1,
       records := b.records[x.id := b.records[x.id].(left := b.Now(x.daddr))])
  }

  /** The host and its book once a transfer for `d` is queued. */
  function Waiting(s: State, d: nat, hasData: bool): State
    requires d < |s.gens|
  {
    s.(pending := s.pending + [Entry(Xfer(s.accepted, d, hasData), s.gens[d])], accepted := s.accepted + 1)
  }

  lemma EnqueueKeeps(s: State, b: Book, env: Env, daddr: nat, hasData: bool)
    requires Sound(s, b, env) && s.stage != Idle && daddr <= env.total && |s.pending| < env.capacity
    ensures Sound(Waiting(s, daddr, hasData), Queue(s, b, daddr), env)
  {
    EnqueueReady(s, b, env, daddr, hasData);
    TallyGrows(b.sends, s.accepted);
  }

  lemma EnqueueReady(s: State, b: Book, env: Env, daddr: nat, hasData: bool)
    requires Ready(s, b, env) && s.stage != Idle && daddr <= env.total && |s.pending| < env.capacity
    ensures Ready(Waiting(s, daddr, hasData), Queue(s, b, daddr), env)
  {
    var e, r := Entry(Xfer(s.accepted, daddr, hasData), s.gens[daddr]), Record(daddr, b.Now(daddr), b.Now(daddr));
    EnqueuePlaced(s, b, env, e, r);
    EnqueueStamped(s, b, env, e, r);
  }

  lemma EnqueuePlaced(s: State, b: Book, env: Env, e: Entry, r: Record)
    requires Ready(s, b, env) && s.stage != Idle && e.xfer.id == s.accepted
    ensures var place := b.place + [InFifo(b.out + |s.pending|)];
            && (Placed(place, s.stage != Idle, s.slot, s.pending + [e], b.out, b.done) == true)
            && (InOrder(b.sends, place, b.records + [r], b.done, env.takes) == true)
            && s.slot.id < s.accepted && (b.records + [r])[s.slot.id] == b.records[s.slot.id]
  {
    PlaceInFifo(b.place, s.stage != Idle, s.slot, s.pending, b.out, b.done, e);
    AcceptInOrder(b.sends, b.place, b.records, b.done, env.takes, InFifo(b.out + |s.pending|), r);
  }

  lemma EnqueueStamped(s: State, b: Book, env: Env, e: Entry, r: Record)
    requires Ready(s, b, env) && r.daddr <= env.total && r.at == b.Now(r.daddr)
    requires e.xfer.id == s.accepted && e.xfer.daddr == r.daddr && e.gen == s.gens[r.daddr]
    ensures Stamped(s.pending + [e], b.records + [r], b.closes, b.lives) == true
  {
    StampedNext(s.pending, e, b.records, r, b.closes, b.lives);
  }

  lemma StampedNext(p: seq<Entry>, e: Entry, records: seq<Record>, r: Record, closes: seq<nat>, lives: seq<nat>)
    requires Stamped(p, records, closes, lives) && e.xfer.id == |records| && StampOk(e, records + [r], closes, lives)
    ensures Stamped(p + [e], records + [r], closes, lives)
  {
    forall i | 0 <= i < |p| ensures StampOk(p[i], records + [r], closes, lives) {
      assert StampOk(p[i], records, closes, lives);
    }
  }

  lemma ClaimKeeps(s: State, b: Book, env: Env, daddr: nat, hasData: bool)
    requires Sound(s, b, env) && s.stage == Idle && daddr <= env.total
    ensures var s', b' := s.(stage := Setup, slot := Xfer(s.accepted, daddr, hasData), failed := 0, accepted := s.accepted + 1),
              Admit(b, daddr);
            Ready(s', b', env) && b'.Tries(s'.slot) == 0 && Timely(s', b')
  {
    PlaceInSlot(b.place, s.slot, Xfer(s.accepted, daddr, hasData), s.pending, b.out, b.done);
    AcceptInOrder(b.sends, b.place, b.records, b.done, env.takes, InSlot, Record(daddr, b.Now(daddr), b.Now(daddr)));
    StampedGrows(s.pending, b.records, Record(daddr, b.Now(daddr), b.Now(daddr)), b.closes, b.lives);
  }

  lemma StampedGrows(p: seq<Entry>, records: seq<Record>, r: Record, closes: seq<nat>, lives: seq<nat>)
    requires Stamped(p, records, closes, lives)
    ensures Stamped(p, records + [r], closes, lives)
  {
    forall i | 0 <= i < |p| ensures StampOk(p[i], records + [r], closes, lives) {
      assert StampOk(p[i], records, closes, lives);
    }
  }

  /** The host once the oldest entry is in the slot. */
  function Popped(s: State): State
    requires s.pending != []
  {
    s.(stage := Setup, slot := s.pending[0].xfer, failed := 0, pending := s.pending[1..])
  }

  /** The oldest entry moves from the FIFO to the slot.  It may be sent exactly if it is timely. */
  lemma PopKeeps(s: State, b: Book, env: Env)
    requires Sound(s, b, env) && s.stage == Idle && s.pending != []
    ensures var x := s.pending[0].xfer;
            && x.daddr <= env.total && x.id < |b.place| && Ready(Popped(s), Pop(b, x), env) && Pop(b, x).Tries(x) == 0
            && (s.pending[0].gen == s.gens[x.daddr] <==> Timely(Popped(s), Pop(b, x)))
            && (s.pending[0].gen == s.gens[x.daddr] <==> Fresh(Pop(b, x).records[x.id]))
  {
    PopPlaced(s, b, env);
    PopStamped(s, b, env);
  }

  lemma PopPlaced(s: State, b: Book, env: Env)
    requires Sound(s, b, env) && s.stage == Idle && s.pending != []
    ensures var x := s.pending[0].xfer;
            && x.daddr <= env.total && x.id < |b.place| && Pop(b, x).Tries(x) == 0
            && (Placed(Pop(b, x).place, true, x, s.pending[1..], b.out + 1, b.done) == true)
            && (InOrder(b.sends, Pop(b, x).place, Pop(b, x).records, b.done, env.takes) == true)
  {
    var x := s.pending[0].xfer;
    assert StampOk(s.pending[0], b.records, b.closes, b.lives);
    MoveToSlot(b.place, s.slot, s.pending, b.out, b.done);
    PopInOrder(b.sends, b.place, b.records, b.done, env.takes, x.id, b.Now(x.daddr));
  }

  lemma PopStamped(s: State, b: Book, env: Env)
    requires Sound(s, b, env) && s.stage == Idle && s.pending != []
    ensures var x := s.pending[0].xfer;
            && x.daddr <= env.total && x.id < |b.place|
            && (Stamped(s.pending[1..], Pop(b, x).records, b.closes, b.lives) == true)
            && Pop(b, x).records[x.id].daddr == x.daddr
            && (s.pending[0].gen == s.gens[x.daddr] <==> Timely(Popped(s), Pop(b, x)))
            && (s.pending[0].gen == s.gens[x.daddr] <==> Fresh(Pop(b, x).records[x.id]))
  {
    var x := s.pending[0].xfer;
    assert StampOk(s.pending[0], b.records, b.closes, b.lives);
    StampedLeft(s.pending, b.records, x.id, b.Now(x.daddr), b.closes, b.lives);
  }

  lemma StampedLeft(p: seq<Entry>, records: seq<Record>, id: nat, now: Stamp, closes: seq<nat>, lives: seq<nat>)
    requires Stamped(p, records, closes, lives) && p != [] && id < |records|
    ensures Stamped(p[1..], records[id := records[id].(left := now)], closes, lives)
  {
    var rest, after := p[1..], records[id := records[id].(left := now)];
    forall i | 0 <= i < |rest| ensures StampOk(rest[i], after, closes, lives) {
      assert StampOk(p[i + 1], records, closes, lives);
    }
  }

  /** A SETUP packet of the transfer in the slot goes out. */
  lemma SendKeeps(s: State, b: Book, env: Env)
    requires Ready(s, b, env) && s.stage != Idle && b.Tries(s.slot) == s.failed && Timely(s, b)
    ensures Sound(s, b.(sends := b.sends + [b.Packet(s.slot)]), env)
  {
    SendInOrder(b.sends, b.Packet(s.slot), b.place, b.records, b.done, env.takes);
  }

  /** The transfer in the slot may end with `r`: without a packet sent only as failed, and only
      if it was stale or refused. */
  ghost predicate MayEnd(s: State, b: Book, env: Env, r: Result)
    requires s.slot.id < |b.place| == |b.records|
  {
    b.Tries(s.slot) == 0 ==> r == Failed && (!Fresh(b.records[s.slot.id]) || !env.takes(s.slot.id))
  }

  /** The transfer in the slot ends. */
  lemma FinishKeeps(s: State, b: Book, env: Env, r: Result)
    requires Ready(s, b, env) && s.stage != Idle && MayEnd(s, b, env, r)
    ensures var d := Done(s.slot.id, r);
            Sound(s.(stage := Idle), b.(place := b.place[d.id := Finished(|b.done|)], done := b.done + [d]), env)
  {
    var d := Done(s.slot.id, r);
    Finish(b.place, s.slot, s.pending, b.out, b.done, d);
    FinishInOrder(b.sends, b.place, b.records, b.done, env.takes, d);
  }

  /** An address closed once more, and a close through. */
  function Closed(b: Book, d: nat): Book
    requires d < |b.closes| == |b.open|
  {
    b.(closes := b.closes[d := b.closes[d] + 1], open := b.open[d := b.open[d] + 1])
  }

  function Gone(b: Book, d: nat): Book
    requires d < |b.lives| == |b.open| && b.open[d] > 0
  {
    b.(lives := b.lives[d := b.lives[d] + 1], open := b.open[d := b.open[d] - 1])
  }

  /** Closing an address: the transfer in the slot, if it is for this address, must end now. */
  lemma CloseKeeps(s: State, b: Book, env: Env, d: nat)
    requires Sound(s, b, env) && d <= env.total
    ensures var s' := s.(gens := s.gens[d := (s.gens[d] + 1) % 256]);
            && Ready(s', Closed(b, d), env) && (s.stage != Idle ==> Closed(b, d).Tries(s.slot) > 0)
            && (s.stage == Idle || s.slot.daddr != d ==> Sound(s', Closed(b, d), env))
  {
    StampedLater(s.pending, b.records, b.closes, b.lives, Closed(b, d).closes, b.lives);
  }

  lemma OpenBack(open: seq<nat>, d: nat)
    requires d < |open|
    ensures open[d := open[d] + 1][d := open[d]] == open
  {}

  lemma GoneKeeps(s: State, b: Book, env: Env, d: nat)
    requires Sound(s, b, env) && d <= env.total && b.open[d] > 0
    ensures Sound(s.(connected := s.connected[d := false]), Gone(b, d), env)
  {
    StampedLater(s.pending, b.records, b.closes, b.lives, b.closes, Gone(b, d).lives);
  }

  lemma StampedLater(p: seq<Entry>, records: seq<Record>, closes: seq<nat>, lives: seq<nat>, closes': seq<nat>, lives': seq<nat>)
    requires Stamped(p, records, closes, lives) && |closes| == |closes'| == |lives| == |lives'|
    requires forall d :: 0 <= d < |closes| ==> closes[d] <= closes'[d]
    requires forall d :: 0 <= d < |lives| ==> lives[d] <= lives'[d]
    ensures Stamped(p, records, closes', lives')
  {
    forall i | 0 <= i < |p| ensures StampOk(p[i], records, closes', lives') {
      assert StampOk(p[i], records, closes, lives);
    }
  }

  // ---------------------------------------------------------------- what a sound state promises

  /** The ends of entries that could not be launched. */
  function Failures(p: seq<Entry>): seq<Done> {
    seq(|p|, i requires 0 <= i < |p| => Done(p[i].xfer.id, Failed))
  }

  lemma FailuresNext(p: seq<Entry>, n: nat, before: seq<Done>, was: seq<Done>, now: seq<Done>)
    requires n < |p| && was == before + Failures(p[..n]) && now == was + [Done(p[n].xfer.id, Failed)]
    ensures now == before + Failures(p[..n + 1]) && p[n..][1..] == p[n + 1..]
  {
    assert Failures(p[..n + 1]) == Failures(p[..n]) + [Done(p[n].xfer.id, Failed)];
  }

  /** The entry can be launched: its generation is the present one and the controller takes it. */
  predicate Launches(e: Entry, gens: seq<nat>, env: Env) {
    e.xfer.daddr < |gens| && e.gen == gens[e.xfer.daddr] && env.takes(e.xfer.id)
  }

  /** From `s`, the first `n` entries could not be launched; each has ended as failed, in order,
      and nothing else has happened. */
  ghost predicate FailedSoFar(s: State, b: Book, s': State, b': Book, env: Env, n: nat) {
    && n <= |s.pending| && (forall k :: 0 <= k < n ==> !Launches(s.pending[k], s.gens, env))
    && b'.done == b.done + Failures(s.pending[..n]) && b'.sends == b.sends
    && s'.stage == Idle && s'.pending == s.pending[n..]
    && s'.gens == s.gens && s'.connected == s.connected && s'.accepted == s.accepted
  }

  /** Then either all have, or the next one is in the slot with exactly its packet sent. */
  ghost predicate Dispatched(s: State, b: Book, s': State, b': Book, env: Env, n: nat) {
    && n <= |s.pending| && (forall k :: 0 <= k < n ==> !Launches(s.pending[k], s.gens, env))
    && b'.done == b.done + Failures(s.pending[..n])
    && s'.gens == s.gens && s'.connected == s.connected && s'.accepted == s.accepted
    && if n == |s.pending| then s'.stage == Idle && s'.pending == [] && b'.sends == b.sends
       else
         && Launches(s.pending[n], s.gens, env) && s'.stage == Setup && s'.slot == s.pending[n].xfer && s'.failed == 0
         && s'.pending == s.pending[n + 1..] && |b'.sends| == |b.sends| + 1 && b.sends <= b'.sends
         && b'.sends[|b.sends|].id == s'.slot.id && b'.sends[|b.sends|].daddr == s'.slot.daddr
  }

  /** The first entry was launched, or has ended as failed, exactly as it could be launched. */
  ghost predicate FirstServed(s: State, b: Book, s': State, b': Book, env: Env)
    requires s.pending != []
  {
    var x := s.pending[0].xfer;
    if Launches(s.pending[0], s.gens, env) then LaunchedOne(s, b, s', b')
    else b.done + [Done(x.id, Failed)] <= b'.done
  }

  ghost predicate LaunchedOne(s: State, b: Book, s': State, b': Book)
    requires s.pending != []
  {
    var x := s.pending[0].xfer;
    && s'.slot == x && s'.stage == Setup && s'.failed == 0 && s'.pending == s.pending[1..]
    && s'.gens == s.gens && s'.connected == s.connected && s'.accepted == s.accepted
    && x.id < |b.records| && x.daddr < |b.closes| == |b.lives|
    && b'.sends == b.sends + [b.Packet(x)] && b'.done == b.done
  }

  ghost predicate FailedOne(s: State, b: Book, s': State, b': Book)
    requires s.pending != []
  {
    && s'.stage == Idle && s'.pending == s.pending[1..]
    && s'.gens == s.gens && s'.connected == s.connected && s'.accepted == s.accepted
    && b'.sends == b.sends && b'.done == b.done + [Done(s.pending[0].xfer.id, Failed)]
  }

  /** After `n` rounds in which no entry could be launched; callbacks do nothing if `quiet`. */
  ghost predicate Rounds(s: State, b: Book, s': State, b': Book, env: Env, n: nat, quiet: bool) {
    && (n == 0 ==> s' == s && b' == b)
    && (n > 0 ==> s.pending != [] && FirstServed(s, b, s', b', env) && !Launches(s.pending[0], s.gens, env))
    && (quiet ==> FailedSoFar(s, b, s', b', env, n))
  }

  /** What dispatching comes to, after `n` entries could not be launched. */
  ghost predicate Outcome(s: State, b: Book, s': State, b': Book, env: Env, n: nat, quiet: bool) {
    && (s.pending != [] ==> FirstServed(s, b, s', b', env))
    && (quiet ==> Dispatched(s, b, s', b', env, n))
  }

  /** One round: the oldest entry is launched, or ends as failed. */
  ghost predicate Round(s: State, b: Book, s': State, b': Book, env: Env, quiet: bool) {
    && s.pending != [] && b.done <= b'.done
    && if Launches(s.pending[0], s.gens, env) then LaunchedOne(s, b, s', b')
       else b.done + [Done(s.pending[0].xfer.id, Failed)] <= b'.done && (quiet ==> FailedOne(s, b, s', b'))
  }

  lemma RoundAnyway(s: State, b: Book, s': State, b': Book, env: Env, quiet: bool)
    requires Round(s, b, s', b', env, quiet) == true
    ensures Round(s, b, s', b', env, false) == true
  {}

  /** One more round, from `s1` to `s2`, after `n` rounds from `s`. */
  lemma OneMoreRound(s: State, b: Book, s1: State, b1: Book, s2: State, b2: Book, env: Env, n: nat, quiet: bool)
    requires Rounds(s, b, s1, b1, env, n, quiet) == true
    requires Round(s1, b1, s2, b2, env, quiet) == true
    ensures if Launches(s1.pending[0], s1.gens, env) then Outcome(s, b, s2, b2, env, n, quiet) == true
            else Rounds(s, b, s2, b2, env, n + 1, quiet) == true
  {
    if quiet {
      assert s1.pending[0] == s.pending[n];
      if Launches(s1.pending[0], s1.gens, env) {
        assert s.pending[n..][1..] == s.pending[n + 1..];
      } else {
        FailuresNext(s.pending, n, b.done, b1.done, b2.done);
      }
    }
  }

  lemma RoundsEnd(s: State, b: Book, s': State, b': Book, env: Env, n: nat, quiet: bool)
    requires (Rounds(s, b, s', b', env, n, quiet) == true) && (s'.stage != Idle || s'.pending == []) && s.stage == Idle
    ensures Outcome(s, b, s', b', env, n, quiet) == true
  {}

  lemma FirstGoes(s: State, b: Book, s': State, b': Book, env: Env, n: nat)
    requires (Outcome(s, b, s', b', env, n, true) == true) && s.pending != [] && Launches(s.pending[0], s.gens, env)
    ensures var x := s.pending[0].xfer;
            x.id < |b.records| && x.daddr < |b.closes| == |b.lives| && b'.sends == b.sends + [b.Packet(x)]
  {}

  predicate IsQueued(s: State, id: nat) { exists i :: 0 <= i < |s.pending| && s.pending[i].xfer.id == id }

  predicate HasEnded(b: Book, id: nat) { exists k :: 0 <= k < |b.done| && b.done[k].id == id }

  /** Each accepted transfer is in exactly one place, once, and has had at most 1 + RETRY_MAX
      packets sent, none before its turn; finished without one, it failed, and either its address
      had another generation when it left the FIFO or the controller refused it. */
  lemma Accounted(s: State, b: Book, env: Env, id: nat)
    requires Sound(s, b, env) && id < s.accepted
    ensures var inSlot, queued, ran := s.stage != Idle && s.slot.id == id, IsQueued(s, id), HasEnded(b, id);
            && (inSlot || queued || ran) && !(inSlot && queued) && !(inSlot && ran) && !(queued && ran)
            && Tally(b.sends, s.accepted)[id] <= 1 + RETRY_MAX && (queued ==> Tally(b.sends, s.accepted)[id] == 0)
    ensures forall k :: 0 <= k < |b.done| && b.done[k].id == id && Tally(b.sends, s.accepted)[id] == 0 ==>
              b.done[k].result == Failed && (!Fresh(b.records[id]) || !env.takes(id))
    ensures forall k, l :: 0 <= k < l < |b.done| ==> b.done[k].id != b.done[l].id
  {
    ExactlyOnePlace(b.place, s.stage != Idle, s.slot, s.pending, b.out, b.done, id);
    assert Tried(Tally(b.sends, s.accepted)[id], b.place[id], b.records[id], b.done, env.takes(id));
  }

  /** A transfer whose address is closed between 1 and 255 times before it leaves the FIFO is
      never sent: it waits, or it has ended as failed. */
  lemma ClosedWhileQueued(s: State, b: Book, env: Env, id: nat)
    requires Sound(s, b, env) && id < s.accepted
    requires IsQueued(s, id) || 1 <= b.records[id].left.closes - b.records[id].at.closes <= 255
    ensures Tally(b.sends, s.accepted)[id] == 0
    ensures IsQueued(s, id) || exists k :: 0 <= k < |b.done| && b.done[k] == Done(id, Failed)
  {
    Accounted(s, b, env, id);
    assert Tried(Tally(b.sends, s.accepted)[id], b.place[id], b.records[id], b.done, env.takes(id));
    if !IsQueued(s, id) {
      SameGeneration(b.records[id].at.closes, b.records[id].left.closes);
      var k :| 0 <= k < |b.done| && b.done[k].id == id;
      assert b.done[k] == Done(id, Failed);
    }
  }

  /** A packet sent fewer than 256 closes after its transfer was accepted was sent before any of
      them.  It then went to the device the transfer was meant for if and only if no close that
      was under way at the acceptance was through when it was sent. */
  lemma SentToItsDevice(s: State, b: Book, env: Env, i: nat)
    requires Sound(s, b, env) && i < |b.sends|
    requires b.sends[i].sent.closes < b.sends[i].queued.closes + 256
    ensures var p := b.sends[i];
            && p.id < s.accepted && p.queued == b.records[p.id].at && p.daddr == b.records[p.id].daddr
            && p.sent.closes == p.queued.closes
            && (p.sent.lives == p.queued.lives <==> p.sent.Open() == p.queued.Open())
            && (p.queued.Open() == 0 ==> p.sent.lives == p.queued.lives)
  {
    var p := b.sends[i];
    assert SendOk(p, b.records);
    SameGeneration(p.queued.closes, p.sent.closes);
  }

  /** The oldest entry may be sent exactly if its address has been closed a multiple of 256 times
      since it was accepted. */
  lemma LaunchedExactly(s: State, b: Book, env: Env)
    requires Sound(s, b, env) && s.pending != []
    ensures var x := s.pending[0].xfer;
            && x.daddr <= env.total && x.id < s.accepted && b.records[x.id].at.closes <= b.closes[x.daddr]
            && (s.pending[0].gen == s.gens[x.daddr] <==> (b.closes[x.daddr] - b.records[x.id].at.closes) % 256 == 0)
  {
    var x := s.pending[0].xfer;
    assert StampOk(s.pending[0], b.records, b.closes, b.lives);
    SameGeneration(b.records[x.id].at.closes, b.closes[x.daddr]);
  }

  lemma SameGeneration(was: nat, now: nat)
    requires was <= now
    ensures was % 256 == now % 256 <==> (now - was) % 256 == 0
    ensures was < now < was + 256 ==> was % 256 != now % 256
  {}

  class Host {
    const env: Env                    // TOTAL_DEVICES, CFG_TUH_CONTROL_PENDING_QUEUE_SZ
    var stage: Stage
    var slot: Xfer
    var failed: nat                   // failed_count
    var pending: seq<Entry>
    var gens: seq<nat>                // daddr_gen
    var connected: seq<bool>
    var accepted: nat
    ghost var book: Book

    ghost function View(): State
      reads this
    {
      State(stage, slot, failed, pending, gens, connected, accepted)
    }

    /** Kept whole here; the lemmas above take it apart. */
    ghost predicate Valid()
      reads this
    {
      Sound(View(), book, env) == true
    }

    /** A transfer is in the slot, whose packet need not be out. */
    ghost predicate Claimed()
      reads this
    {
      stage != Idle && (Ready(View(), book, env) == true)
    }

    /** What holds when `rest` is left of a script that started with `done` and `open`, and with
        `budget` actions and entries. */
    ghost predicate Kept(done: seq<Done>, open: seq<nat>, budget: nat, rest: seq<Action>)
      reads this
    {
      Valid() && |rest| + |pending| <= budget && done <= book.done && book.open == open
    }

    /** Transfer `x` ended with result `r`, first of those since `before`. */
    ghost predicate Ended(x: Xfer, r: Result, before: seq<Done>)
      reads this`book
    {
      before + [Done(x.id, r)] <= book.done
    }

    constructor (env: Env)
      ensures Valid() && stage == Idle && pending == [] && accepted == 0
      ensures this.env == env
    {
      this.env := env;
      stage, slot, failed, pending := Idle, Xfer(0, 0, false), 0, [];
      gens, connected := seq(env.total + 1, _ => 0), seq(env.total + 1, _ => false);
      accepted := 0;
      book := Book([], [], 0, [], [], seq(env.total + 1, _ => 0), seq(env.total + 1, _ => 0), seq(env.total + 1, _ => 0));
    }

    /** `tuh_control_xfer` with a callback. */
    method Submit(daddr: nat, hasData: bool, sendOk: bool) returns (ok: bool)
      requires Valid()
      modifies this`stage, this`slot, this`failed, this`pending, this`accepted, this`book
      ensures Valid() && accepted == old(accepted) + (if ok then 1 else 0)
      ensures ok <==> daddr <= env.total && connected[daddr] && if old(stage) == Idle then sendOk else |old(pending)| < env.capacity
      ensures !ok ==> stage == old(stage) && pending == old(pending) && book == old(book)
      ensures ok && old(stage) == Idle ==>
        stage == Setup && slot == Xfer(old(accepted), daddr, hasData) && pending == old(pending)
      ensures ok && old(stage) != Idle ==>
        && stage == old(stage) && slot == old(slot) && book == Queue(old(View()), old(book), daddr)
        && pending == old(pending) + [Entry(Xfer(old(accepted), daddr, hasData), gens[daddr])]
      ensures book == old(book).(place := book.place, records := book.records, sends := book.sends)
    {
      if daddr > env.total { return false; }
      if !connected[daddr] { return false; }
      if stage == Idle {
        ok := Claim(daddr, hasData, sendOk);
      } else {
        ok := Enqueue(daddr, hasData);
      }
    }

    /** The slot is free: take it and send. */
    method Claim(daddr: nat, hasData: bool, sendOk: bool) returns (ok: bool)
      requires Valid() && stage == Idle && daddr <= env.total
      modifies this`stage, this`slot, this`failed, this`accepted, this`book
      ensures Valid() && ok == sendOk && accepted == old(accepted) + (if ok then 1 else 0)
      ensures if ok then stage == Setup && slot == Xfer(old(accepted), daddr, hasData) else stage == Idle && book == old(book)
      ensures book == old(book).(place := book.place, records := book.records, sends := book.sends)
    {
      ghost var s, b := View(), book;
      stage, slot, failed := Setup, Xfer(accepted, daddr, hasData), 0;
      if !sendOk {
        stage := Idle;
        return false;
      }
      ClaimKeeps(s, b, env, daddr, hasData);
      accepted := accepted + 1;
      book := Admit(book, daddr);
      SendSetup();
      return true;
    }

    ghost method SendSetup()
      requires Claimed() && book.Tries(slot) == failed && Timely(View(), book)
      modifies this`book
      ensures Valid() && book == old(book).(sends := old(book.sends) + [old(book).Packet(slot)])
    {
      SendKeeps(View(), book, env);
      book := book.(sends := book.sends + [book.Packet(slot)]);
    }

    /** The slot is taken: queue behind it, if there is room. */
    method Enqueue(daddr: nat, hasData: bool) returns (ok: bool)
      requires Valid() && stage != Idle && daddr <= env.total
      modifies this`pending, this`accepted, this`book
      ensures Valid() && ok == (|old(pending)| < env.capacity) && accepted == old(accepted) + (if ok then 1 else 0)
      ensures pending == old(pending) + if ok then [Entry(Xfer(old(accepted), daddr, hasData), gens[daddr])] else []
      ensures book == if ok then Queue(old(View()), old(book), daddr) else old(book)
    {
      if |pending| >= env.capacity { return false; }
      ghost var s, b := View(), book;
      var e := Entry(Xfer(accepted, daddr, hasData), gens[daddr]);
      pending := pending + [e];
      accepted := accepted + 1;
      book := Queue(s, b, daddr);
      assert Valid() by {
        EnqueueKeeps(s, b, env, daddr, hasData);
      }
      return true;
    }

    /** What a callback that does nothing leaves as it was. */
    ghost predicate Same(s: State, b: Book)
      reads this
    {
      && pending == s.pending && gens == s.gens && connected == s.connected && accepted == s.accepted
      && book == b.(place := book.place, done := book.done)
    }

    /** `control_xfer_complete`: the slot is free before the callback runs. */
    method Complete(r: Result, script: seq<Action>) returns (rest: seq<Action>)
      requires Claimed() && MayEnd(View(), book, env, r)
      modifies this
      ensures |rest| <= |script| && Kept(old(book.done), old(book.open), |script| + |old(pending)|, rest)
      ensures Ended(old(slot), r, old(book.done))
      ensures script == [] ==>
        stage == Idle && Same(old(View()), old(book)) && book.done == old(book.done) + [Done(old(slot.id), r)]
      decreases |script|, 1
    {
      FinishKeeps(View(), book, env, r);
      ghost var d := Done(slot.id, r);
      stage := Idle;
      book := book.(place := book.place[d.id := Finished(|book.done|)], done := book.done + [d]);
      rest := Callback(script);
    }

    /** A callback: whatever the script says, up to its `Return`. */
    method Callback(script: seq<Action>) returns (rest: seq<Action>)
      requires Valid()
      modifies this
      ensures |rest| <= |script| && Kept(old(book.done), old(book.open), |script| + |old(pending)|, rest)
      ensures script == [] ==> View() == old(View()) && book == old(book)
      decreases |script|, 0
    {
      rest := script;
      while rest != [] && !rest[0].Return?
        invariant |rest| <= |script| && Kept(old(book.done), old(book.open), |script| + |old(pending)|, rest)
        invariant script == [] ==> View() == old(View()) && book == old(book)
        decreases |rest|
      {
        rest := Act(rest[0], rest[1..]);
      }
      if rest != [] { rest := rest[1..]; }
    }

    /** One thing the host is made to do. */
    method Act(a: Action, script: seq<Action>) returns (rest: seq<Action>)
      requires Valid()
      modifies this
      ensures |rest| <= |script| && Kept(old(book.done), old(book.open), |script| + 1 + |old(pending)|, rest)
      ensures Effect(a, old(View()), old(book))
      decreases |script|, 5
    {
      rest := script;
      match a
      case Return =>
      case Submit(d, hasData, ok) => var _ := Submit(d, hasData, ok);
      case Abort(d) => var _, after := Abort(d, script); rest := after;
      case Event(d, r, ok) => rest := Event(d, r, ok, script);
      case Dispatch => var after, _ := Dispatch(script); rest := after;
      case Close(d) => if d <= env.total { rest := Close(d, script); }
      case Attach(d) => if d <= env.total { Attach(d); }
    }

    /** What action `a` does at least, from state `s`, whatever callbacks do besides. */
    ghost predicate Effect(a: Action, s: State, b: Book)
      reads this
    {
      var mine := s.stage != Idle && (a.Abort? || a.Event? || a.Close?) && s.slot.daddr == a.daddr;
      match a
      case Return => View() == s && book == b
      case Submit(d, _, ok) =>
        accepted == s.accepted + if d < |s.connected| && s.connected[d] && (if s.stage == Idle then ok else |s.pending| < env.capacity)
                                 then 1 else 0
      case Abort(_) => if mine then Ended(s.slot, Aborted, b.done) else View() == s && book == b
      case Event(_, r, _) =>
        && (!mine ==> View() == s && book == b)
        && (mine && (r == Stalled || (r == Success && s.stage == Ack)) ==> Ended(s.slot, r, b.done))
      case Dispatch => stage != Idle || pending == []
      case Close(d) => d <= env.total ==> d < |connected| && !connected[d] && (mine ==> Ended(s.slot, Failed, b.done))
      case Attach(d) => if d < |s.connected| then connected == s.connected[d := true] else View() == s && book == b
    }

    /** `tuh_edpt_abort_xfer` of a control endpoint. */
    method Abort(daddr: nat, script: seq<Action>) returns (ok: bool, rest: seq<Action>)
      requires Valid()
      modifies this
      ensures |rest| <= |script| && Kept(old(book.done), old(book.open), |script| + |old(pending)|, rest)
      ensures ok <==> old(stage) != Idle && old(slot.daddr) == daddr
      ensures ok ==> Ended(old(slot), Aborted, old(book.done))
      ensures !ok ==> View() == old(View()) && book == old(book)
      decreases |script|, 2
    {
      if daddr != slot.daddr || stage == Idle { return false, script; }
      rest := Complete(Aborted, script);
      return true, rest;
    }

    /** `control_xfer_dispatch_pending`: entries leave the FIFO in order until one is on its way.
        The first is sent exactly if its generation is the present one and the controller takes
        it; otherwise it fails.  With callbacks that do nothing, so is each of the others: the
        `n` entries before the first that can be launched fail in order, and that one goes out. */
    method Dispatch(script: seq<Action>) returns (rest: seq<Action>, ghost n: nat)
      requires Valid()
      modifies this
      ensures |rest| <= |script| && Kept(old(book.done), old(book.open), |script| + |old(pending)|, rest)
      ensures stage != Idle || pending == []
      ensures old(stage) != Idle ==> View() == old(View()) && book == old(book)
      ensures old(stage) == Idle ==> Outcome(old(View()), old(book), View(), book, env, n, script == []) == true
      decreases |script|, 3
    {
      rest, n := script, 0;
      if stage != Idle { return; }
      ghost var s, b := View(), book;
      while stage == Idle && pending != []
        invariant |rest| <= |script| && Kept(old(book.done), old(book.open), |script| + |old(pending)|, rest)
        invariant script == [] ==> rest == []
        invariant Rounds(s, b, View(), book, env, n, script == []) == true
        decreases |rest| + |pending|
      {
        ghost var s1, b1 := View(), book;
        ghost var quiet := rest == [];
        var sent, after := DispatchOne(rest);
        rest := after;
        if script != [] { RoundAnyway(s1, b1, View(), book, env, quiet); }
        OneMoreRound(s, b, s1, b1, View(), book, env, n, script == []);
        if sent { return; }
        n := n + 1;
      }
      RoundsEnd(s, b, View(), book, env, n, script == []);
    }

    /** One round: the oldest entry is launched, or ends as failed. */
    method DispatchOne(script: seq<Action>) returns (sent: bool, rest: seq<Action>)
      requires Valid() && stage == Idle && pending != []
      modifies this
      ensures |rest| <= |script| && Kept(old(book.done), old(book.open), |script| + |old(pending)| - 1, rest)
      ensures sent == Launches(old(pending[0]), old(gens), env)
      ensures Round(old(View()), old(book), View(), book, env, script == []) == true
      ensures sent ==> rest == script && stage != Idle
      ensures script == [] ==> rest == []
      decreases |script|, 2
    {
      rest := script;
      sent := Launch();
      if !sent { rest := Complete(Failed, script); }
    }

    /** The oldest entry enters the slot; it is sent if its generation is the present one and the
        controller takes it. */
    method Launch() returns (sent: bool)
      requires Valid() && stage == Idle && pending != []
      modifies this`stage, this`slot, this`failed, this`pending, this`book
      ensures stage == Setup && slot == old(pending[0].xfer) && pending == old(pending[1..]) && failed == 0
      ensures sent == Launches(old(pending[0]), gens, env)
      ensures if sent then Valid() else Claimed() && MayEnd(View(), book, env, Failed)
      ensures slot.id < |old(book.place)| == |old(book.records)| && slot.daddr < |old(book.closes)| == |old(book.lives)|
      ensures book == Pop(old(book), slot).(sends := old(book.sends) + if sent then [old(book).Packet(slot)] else [])
    {
      PopKeeps(View(), book, env);
      var e := pending[0];
      book := Pop(book, e.xfer);
      stage, slot, failed, pending := Setup, e.xfer, 0, pending[1..];
      sent := e.gen == gens[e.xfer.daddr] && env.takes(e.xfer.id);
      if sent { SendSetup(); }
    }

    /** `usbh_control_xfer_cb`: a stage of a control transfer of `daddr` ended.  Completions that
        are not of the transfer in the slot are dropped; a failure is retried at most RETRY_MAX
        times; each other end runs the callback once. */
    method Event(daddr: nat, r: Result, hcdOk: bool, script: seq<Action>) returns (rest: seq<Action>)
      requires Valid()
      modifies this
      ensures |rest| <= |script| && Kept(old(book.done), old(book.open), |script| + |old(pending)|, rest)
      ensures var mine, again := old(stage) != Idle && old(slot.daddr) == daddr,
                daddr < |old(connected)| && old(connected)[daddr] && old(failed) < RETRY_MAX;
              && (!mine || r == Aborted || r == Other ==> View() == old(View()) && book == old(book))
              && (mine && r == Stalled ==> Ended(old(slot), Stalled, old(book.done)))
              && (mine && r == Failed && !(again && hcdOk) ==> Ended(old(slot), Failed, old(book.done)))
              && (mine && r == Failed && again && hcdOk ==> View() == old(View()).(stage := Setup, failed := old(failed) + 1))
              && (mine && r == Success && old(stage) == Ack ==> Ended(old(slot), Success, old(book.done)))
              && (mine && r == Success && old(stage) != Ack ==> View() == old(View()).(
                  stage := if old(stage) == Setup && slot.hasData then Data else Ack))
      ensures script == [] && old(stage) != Idle && old(slot.daddr) == daddr && r == Stalled ==>
        stage == Idle && Same(old(View()), old(book))
      decreases |script|, 3
    {
      rest := script;
      if stage == Idle || slot.daddr != daddr { return; }
      match r
      case Stalled =>
        rest := Complete(r, script);
      case Failed =>
        if connected[daddr] && failed < RETRY_MAX {
          rest := Retry(hcdOk, script);
        } else {
          rest := Complete(r, script);
        }
      case Success =>
        match stage {
          case Setup =>
            if slot.hasData { Advance(Data); } else { Advance(Ack); }
          case Data => Advance(Ack);
          case Ack => rest := Complete(r, script);
        }
      case _ =>
    }

    /** The next stage; whether the controller takes it changes nothing here. */
    method Advance(next: Stage)
      requires Valid() && stage != Idle && next != Idle
      modifies this`stage
      ensures Valid() && stage == next
    {
      assert Sound(View().(stage := next), book, env);
      stage := next;
    }

    method Retry(sendOk: bool, script: seq<Action>) returns (rest: seq<Action>)
      requires Valid() && stage != Idle && failed < RETRY_MAX
      modifies this
      ensures |rest| <= |script| && Kept(old(book.done), old(book.open), |script| + |old(pending)|, rest)
      ensures if sendOk then View() == old(View()).(stage := Setup, failed := old(failed) + 1)
              else Ended(old(slot), Failed, old(book.done))
      decreases |script|, 2
    {
      assert Ready(View().(stage := Setup, failed := failed + 1), book, env);
      stage, failed := Setup, failed + 1;
      rest := script;
      if sendOk {
        SendSetup();
      } else {
        rest := Complete(Failed, script);
      }
    }

    /** `usbh_device_close` and then `clear_device`. */
    method Close(daddr: nat, script: seq<Action>) returns (rest: seq<Action>)
      requires Valid() && daddr <= env.total
      modifies this
      ensures |rest| <= |script| && Kept(old(book.done), old(book.open), |script| + |old(pending)|, rest)
      ensures daddr < |connected| && !connected[daddr]
      ensures old(stage) != Idle && old(slot.daddr) == daddr ==> Ended(old(slot), Failed, old(book.done))
      ensures script == [] ==> gens == old(gens)[daddr := (old(gens[daddr]) + 1) % 256] && pending == old(pending)
      ensures script == [] ==> ClosedOnce(old(book), daddr)
      decreases |script|, 4
    {
      ghost var open := book.open;
      rest := CloseSlot(daddr, script);
      EndClose(daddr);
      OpenBack(open, daddr);
    }

    /** `usbh_device_close` by itself. */
    method CloseSlot(daddr: nat, script: seq<Action>) returns (rest: seq<Action>)
      requires Valid() && daddr <= env.total
      modifies this
      ensures daddr < |old(book.open)|
      ensures |rest| <= |script|
      ensures Kept(old(book.done), old(book.open)[daddr := old(book.open[daddr]) + 1], |script| + |old(pending)|, rest)
      ensures old(stage) != Idle && old(slot.daddr) == daddr ==> Ended(old(slot), Failed, old(book.done))
      ensures script == [] ==> gens == old(gens)[daddr := (old(gens[daddr]) + 1) % 256] && pending == old(pending)
      ensures script == [] ==>
        && daddr < |old(book.closes)| && book.closes == old(book.closes)[daddr := old(book.closes[daddr]) + 1]
        && book.lives == old(book.lives) && book.sends == old(book.sends)
      decreases |script|, 3
    {
      BeginClose(daddr);
      rest := FailSlot(daddr, script);
    }

    ghost predicate Unclosed(b: Book)
      reads this`book
    {
      book.sends == b.sends && book.closes == b.closes && book.lives == b.lives
    }

    ghost predicate ClosedOnce(b: Book, d: nat)
      reads this`book
    {
      && d < |b.closes| == |b.lives| && book.sends == b.sends
      && book.closes == b.closes[d := b.closes[d] + 1] && book.lives == b.lives[d := b.lives[d] + 1]
    }

    /** The transfer in flight to a closed address ends. */
    method FailSlot(daddr: nat, script: seq<Action>) returns (rest: seq<Action>)
      requires if stage != Idle && slot.daddr == daddr then Claimed() && book.Tries(slot) > 0 else Valid()
      modifies this
      ensures |rest| <= |script| && Kept(old(book.done), old(book.open), |script| + |old(pending)|, rest)
      ensures old(stage) != Idle && old(slot.daddr) == daddr ==> Ended(old(slot), Failed, old(book.done))
      ensures script == [] ==> gens == old(gens) && pending == old(pending) && Unclosed(old(book))
      decreases |script|, 2
    {
      rest := script;
      if slot.daddr == daddr && stage != Idle {
        rest := Complete(Failed, script);
      }
    }

    /** The generation is bumped first. */
    method BeginClose(daddr: nat)
      requires Valid() && daddr <= env.total
      modifies this`gens, this`book
      ensures gens == old(gens)[daddr := (old(gens[daddr]) + 1) % 256]
      ensures daddr < |old(book.closes)| == |old(book.open)| && book == Closed(old(book), daddr)
      ensures book.done == old(book.done) && book.open == old(book.open)[daddr := old(book.open[daddr]) + 1]
      ensures if stage != Idle && slot.daddr == daddr then Claimed() && book.Tries(slot) > 0 else Valid()
    {
      CloseKeeps(View(), book, env, daddr);
      gens := gens[daddr := (gens[daddr] + 1) % 256];
      book := Closed(book, daddr);
    }

    /** The device is gone only after its transfer's callback has run. */
    method EndClose(daddr: nat)
      requires Valid() && daddr <= env.total && book.open[daddr] > 0
      modifies this`connected, this`book
      ensures Valid() && daddr < |connected| && connected == old(connected)[daddr := false]
      ensures book == Gone(old(book), daddr)
      ensures book.done == old(book.done) && book.open == old(book.open)[daddr := old(book.open[daddr]) - 1]
    {
      GoneKeeps(View(), book, env, daddr);
      connected := connected[daddr := false];
      book := Gone(book, daddr);
    }

    /** A device gets the address. */
    method Attach(daddr: nat)
      requires Valid() && daddr <= env.total
      modifies this`connected
      ensures Valid() && connected == old(connected)[daddr := true]
    {
      assert Sound(View().(connected := connected[daddr := true]), book, env);
      connected := connected[daddr := true];
    }
  }

  // ---------------------------------------------------------------- every run

  /** Any run of the host, from the start, with whatever happens inside its callbacks. */
  method Run(env: Env, script: seq<Action>) returns (h: Host)
    ensures fresh(h) && Sound(h.View(), h.book, env)
  {
    h := new Host(env);
    var rest := script;
    while rest != []
      invariant fresh(h) && h.Valid() && h.env == env
      decreases |rest|
    {
      rest := h.Act(rest[0], rest[1..]);
    }
  }

  function Always(id: nat): bool { true }

  method TwoDevices() returns (h: Host)
    ensures fresh(h) && h.Valid() && h.env == Env(2, 2, Always) && h.accepted == 1
    ensures h.stage == Setup && h.slot.daddr == 1 && h.pending == []
    ensures |h.connected| == 3 && h.connected[1] && h.connected[2]
  {
    h := new Host(Env(2, 2, Always));
    h.Attach(1);
    h.Attach(2);
    var first := h.Submit(1, false, true);
  }

  method FirstFails() returns (h: Host)
    ensures fresh(h) && h.Valid() && h.env == Env(2, 2, Always) && h.accepted == 1
    ensures h.stage == Idle && h.pending == [] && |h.connected| == |h.book.open| == 3
    ensures h.connected[1] && h.connected[2] && h.book.open[1] > 0
  {
    h := TwoDevices();
    h.BeginClose(1);
    var _ := h.Complete(Failed, []);
  }

  /** Device 1 is closed; the callback of its transfer starts one for device 2 and queues one for
      address 1, which gets the new generation. */
  method QueueWhileClosing() returns (h: Host)
    ensures fresh(h) && h.Valid() && h.env == Env(2, 2, Always) && |h.gens| == |h.book.closes| == |h.book.lives| == 3
    ensures h.stage == Setup && h.slot.daddr == 2 && |h.pending| == 1 && |h.book.records| == 3
    ensures h.pending[0].xfer.daddr == 1 && h.pending[0].xfer.id == 2 && h.pending[0].gen == h.gens[1]
    ensures h.book.closes[1] == h.book.records[2].at.closes && h.book.lives[1] == h.book.records[2].at.lives + 1
  {
    h := FirstFails();
    var other := h.Submit(2, false, true);
    var queued := h.Submit(1, false, true);
    h.EndClose(1);
  }

  /** So it is sent to the next device at that address, though no close came between. */
  method ClosingWindow() returns (h: Host)
    ensures fresh(h) && |h.book.sends| > 0
    ensures var s := h.book.sends[|h.book.sends| - 1];
            s.daddr == 1 && s.sent.closes == s.queued.closes && s.sent.lives == s.queued.lives + 1
  {
    h := QueueWhileClosing();
    h.Attach(1);
    var _ := h.Event(2, Stalled, true, []);
    ghost var s, b := h.View(), h.book;
    var _, n := h.Dispatch([]);
    FirstGoes(s, b, h.View(), h.book, h.env, n);
  }
}

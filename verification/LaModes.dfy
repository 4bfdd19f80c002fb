/** Which engine owns the analyser (src/main.cpp over src/logic_analyzer_bridge.c).

    Four ways of capturing share one capture buffer: a single capture, a chain of single
    captures, the chained analysis and the continuous stream.  Their flags live in two places,
    the command layer and the bridge, and every command and every poll may come at any time.
    Hardware answers are parameters: whether the sampler is still capturing, whether a start
    succeeds, whether a message could be sent, whether a stream chunk is ready. */
module LaModes {
  import opened Basics

  datatype Mode = Off | Raw | Analysis

  /** Which engine a block came from, and its sequence number there. */
  datatype Owner = Nobody | Chain | Streamer

  datatype Block = Block(owner: Owner, sequence: nat)

  /** How a block taken from an engine ended. */
  datatype Outcome = Sent(block: Block) | Dropped(block: Block)

  datatype Engine = Single | Chained | AnalysisChain | Continuous

  datatype Reply = Busy | Error | Started | Stopped

  /** The flags, as one value. */
  datatype Flags = Flags(
    singlePending: bool, chainEnabled: bool, chainPending: bool,      // main.cpp
    analysisEnabled: bool, blockPending: bool, mode: Mode, streamBlockPending: bool,
    running: bool, captureActive: bool, blockOutstanding: bool,       // the bridge
    streamRunning: bool, singleActive: bool, streamOutstanding: bool,
    owner: Owner)
  {
    /** The engine is in use: a flag of either layer that belongs to it is up. */
    predicate Active(e: Engine) {
      match e
      case Single => singlePending
      case Chained => chainEnabled || chainPending
      case AnalysisChain => analysisEnabled || running || captureActive || blockOutstanding || blockPending
      case Continuous => mode != Off || streamRunning || streamOutstanding || streamBlockPending
    }

    /** The two layers agree, and a block waiting to be sent was filled by the engine that will
        be released for it. */
    predicate Agree() {
      && (singleActive ==> singlePending || chainPending)
      && analysisEnabled == running && (captureActive || blockOutstanding ==> running)
      && !(captureActive && blockOutstanding)
      && blockPending == blockOutstanding && (blockPending ==> owner == Chain)
      && (mode != Off) == streamRunning && (streamOutstanding ==> streamRunning)
      && streamBlockPending == streamOutstanding && (streamBlockPending ==> owner == Streamer)
    }

    /** At most one engine is in use. */
    predicate Exclusive() {
      && !(Active(Single) && Active(Chained)) && !(Active(Single) && Active(AnalysisChain))
      && !(Active(Single) && Active(Continuous)) && !(Active(Chained) && Active(AnalysisChain))
      && !(Active(Chained) && Active(Continuous)) && !(Active(AnalysisChain) && Active(Continuous))
    }

    /** The chained analysis runs, but no chunk is being captured and none waits to be sent. */
    predicate Stalled() { running && !captureActive && !blockOutstanding }
  }

  /** A command or a poll, with what the hardware and the network answer meanwhile. */
  datatype Event =
    | SingleCapture(started: bool)
    | ChainStart
    | ChainStop
    | AnalysisStart(started: bool)
    | AnalysisStop
    | StreamStart(mode: Mode)
    | StreamStop
    | SingleTask(capturing: bool, still: bool)
    | ChainTask(capturing: bool, still: bool, due: bool, started: bool,
                sampling: bool, sameMode: bool, sent: bool, restarted: bool)
    | StreamTask(ready: Option<nat>, sent: bool)

  const U32 := 0x1_0000_0000

  class Analyser {
    var singlePending: bool          // src/main.cpp
    var chainEnabled: bool
    var chainPending: bool
    var analysisEnabled: bool
    var blockPending: bool
    var mode: Mode
    var streamBlockPending: bool
    var pending: Block
    var running: bool                // src/logic_analyzer_bridge.c
    var captureActive: bool
    var blockOutstanding: bool
    var streamRunning: bool
    var singleActive: bool
    var streamOutstanding: bool
    var sequence: nat
    ghost var taken: seq<Block>      // every block an engine handed out, in order
    ghost var settled: seq<Outcome>  // what became of them

    ghost function View(): Flags
      reads this
    {
      Flags(singlePending, chainEnabled, chainPending, analysisEnabled, blockPending, mode, streamBlockPending,
            running, captureActive, blockOutstanding, streamRunning, singleActive, streamOutstanding, pending.owner)
    }

    /** Blocks are settled one by one in the order they were taken; the one still waiting, if
        any, is the one in `pending`. */
    ghost predicate Conserved()
      reads this
    {
      taken == if blockPending || streamBlockPending then Blocks(settled) + [pending] else Blocks(settled)
    }

    ghost predicate Valid()
      reads this
    {
      View().Agree() && View().Exclusive() && Conserved() && sequence < U32
    }

    constructor ()
      ensures Valid() && !IsBusy() && taken == []
    {
      singlePending, chainEnabled, chainPending, analysisEnabled := false, false, false, false;
      blockPending, mode, streamBlockPending, pending := false, Off, false, Block(Nobody, 0);
      running, captureActive, blockOutstanding, streamRunning := false, false, false, false;
      singleActive, streamOutstanding, sequence := false, false, 0;
      taken, settled := [], [];
    }

    predicate BridgeBusy()
      reads this
    {
      running || streamRunning || singleActive
    }

    predicate IsBusy()
      reads this
    {
      BridgeBusy() || singlePending || chainEnabled || chainPending
    }

    // ------------------------------------------------------------ the bridge

    /** `la_single_capture_start`. */
    method SingleCaptureStart(hardware: bool) returns (started: bool)
      modifies this`singleActive
      ensures started == (hardware && !old(BridgeBusy()))
      ensures singleActive == if old(BridgeBusy()) then old(singleActive) else started
    {
      if BridgeBusy() { return false; }
      singleActive := hardware;
      return singleActive;
    }

    /** `la_start_chunk`. */
    method StartChunk(hardware: bool) returns (started: bool)
      modifies this`captureActive
      ensures started == hardware && captureActive == (old(captureActive) || started)
    {
      if hardware { captureActive := true; }
      return hardware;
    }

    /** `la_capture_chain_start`. */
    method CaptureChainStart(hardware: bool) returns (started: bool)
      modifies this`sequence, this`blockOutstanding, this`captureActive, this`running
      ensures started == (hardware && !old(BridgeBusy()))
      ensures old(BridgeBusy()) ==> unchanged(this)
      ensures !old(BridgeBusy()) ==> running == captureActive == started && !blockOutstanding && sequence == 0
    {
      if BridgeBusy() { return false; }
      sequence, blockOutstanding, captureActive := 0, false, false;
      started := StartChunk(hardware);
      if started { running := true; }
    }

    /** `la_capture_chain_take`. */
    method CaptureChainTake(sampling: bool, sameMode: bool) returns (ok: bool)
      modifies this`pending, this`sequence, this`captureActive, this`blockOutstanding, this`taken
      ensures ok == (running && !old(blockOutstanding) && old(captureActive) && !sampling && sameMode)
      ensures !ok ==> unchanged(this)
      ensures ok ==> pending == Block(Chain, old(sequence)) && sequence == (old(sequence) + 1) % U32
      ensures ok ==> !captureActive && blockOutstanding && taken == old(taken) + [pending]
    {
      if !running || blockOutstanding || !captureActive { return false; }
      if sampling || !sameMode { return false; }
      pending := Block(Chain, sequence);
      sequence := (sequence + 1) % U32;
      captureActive, blockOutstanding := false, true;
      taken := taken + [pending];
      return true;
    }

    /** `la_capture_chain_release`: the next chunk is started, but its failure is not noticed. */
    method CaptureChainRelease(restarted: bool)
      modifies this`blockOutstanding, this`captureActive
      ensures if running && old(blockOutstanding)
              then !blockOutstanding && captureActive == (old(captureActive) || restarted) else unchanged(this)
    {
      if !running || !blockOutstanding { return; }
      blockOutstanding := false;
      var _ := StartChunk(restarted);
    }

    /** `la_capture_chain_stop` and `la_stream_stop`. */
    method CaptureChainStop()
      modifies this`running, this`captureActive, this`blockOutstanding
      ensures !running && !captureActive && !blockOutstanding
    {
      running, captureActive, blockOutstanding := false, false, false;
    }

    method StreamStopEngine()
      modifies this`streamRunning, this`streamOutstanding
      ensures !streamRunning && streamOutstanding == (old(streamOutstanding) && !old(streamRunning))
    {
      if streamRunning {
        streamRunning := false;
        streamOutstanding := false;
      }
    }

    /** `la_stream_take`, as far as ownership goes (LaStream has the rest). */
    method StreamTake(ready: Option<nat>) returns (ok: bool)
      modifies this`pending, this`streamOutstanding, this`taken
      ensures ok == (streamRunning && !old(streamOutstanding) && ready.Some?)
      ensures !ok ==> unchanged(this)
      ensures ok ==> pending == Block(Streamer, ready.value) && streamOutstanding && taken == old(taken) + [pending]
    {
      if !streamRunning || streamOutstanding || ready.None? { return false; }
      pending := Block(Streamer, ready.value);
      streamOutstanding := true;
      taken := taken + [pending];
      return true;
    }

    // ------------------------------------------------------------ the commands

    method SingleCapture(started: bool) returns (reply: Reply)
      requires Valid()
      modifies this`singlePending, this`singleActive
      ensures Valid()
      ensures reply == Busy <==> old(IsBusy())
      ensures reply != Started ==> View() == old(View())
      ensures reply == Started <==> !old(IsBusy()) && started
      ensures reply == Started ==> View() == old(View()).(singlePending := true, singleActive := true)
    {
      if IsBusy() { return Busy; }
      var ok := SingleCaptureStart(started);
      if !ok { return Error; }
      singlePending := true;
      return Started;
    }

    method ChainStart() returns (reply: Reply)
      requires Valid()
      modifies this`chainEnabled
      ensures Valid()
      ensures if old(IsBusy()) then reply == Busy && View() == old(View())
              else reply == Started && View() == old(View()).(chainEnabled := true)
    {
      if IsBusy() { return Busy; }
      chainEnabled := true;
      return Started;
    }

    /** Also cuts short a single capture; whichever task waits for it clears its flag. */
    method ChainStop() returns (reply: Reply)
      requires Valid()
      modifies this`chainEnabled, this`singleActive
      ensures Valid() && reply == Stopped
      ensures View() == old(View()).(chainEnabled := false, singleActive := false)
    {
      chainEnabled := false;
      singleActive := false;
      return Stopped;
    }

    method AnalysisStart(started: bool) returns (reply: Reply)
      requires Valid()
      modifies this`sequence, this`blockOutstanding, this`captureActive, this`running, this`analysisEnabled, this`blockPending
      ensures Valid()
      ensures reply == Busy <==> old(IsBusy())
      ensures reply != Started ==> View() == old(View())
      ensures reply == Started <==> !old(IsBusy()) && started
      ensures reply == Started ==>
        View() == old(View()).(analysisEnabled := true, running := true, captureActive := true) && sequence == 0
    {
      if IsBusy() { return Busy; }
      var ok := CaptureChainStart(started);
      if !ok { return Error; }
      analysisEnabled := true;
      blockPending := false;
      return Started;
    }

    /** A block still waiting is dropped. */
    method AnalysisStop() returns (reply: Reply)
      requires Valid()
      modifies this`running, this`captureActive, this`blockOutstanding, this`analysisEnabled, this`blockPending, this`settled
      ensures Valid() && reply == Stopped
      ensures View() == old(View()).(analysisEnabled := false, running := false, captureActive := false,
                                     blockOutstanding := false, blockPending := false)
      ensures settled == if old(blockPending) then old(settled) + [Dropped(pending)] else old(settled)
    {
      DropIf(blockPending);
      CaptureChainStop();
      analysisEnabled := false;
      blockPending := false;
      return Stopped;
    }

    method StreamStart(m: Mode) returns (reply: Reply)
      requires Valid() && m != Off
      modifies this`streamOutstanding, this`streamRunning, this`mode, this`streamBlockPending
      ensures Valid()
      ensures if old(IsBusy()) then reply == Busy && View() == old(View())
              else reply == Started && View() == old(View()).(mode := m, streamRunning := true)
    {
      if IsBusy() { return Busy; }
      streamOutstanding := false;
      streamRunning := true;
      mode := m;
      streamBlockPending := false;
      return Started;
    }

    method StreamStop() returns (reply: Reply)
      requires Valid()
      modifies this`streamOutstanding, this`streamRunning, this`mode, this`streamBlockPending, this`settled
      ensures Valid() && reply == Stopped
      ensures View() == old(View()).(mode := Off, streamRunning := false, streamOutstanding := false,
                                     streamBlockPending := false)
      ensures settled == if old(streamBlockPending) then old(settled) + [Dropped(pending)] else old(settled)
    {
      DropIf(streamBlockPending);
      StreamStopEngine();
      mode := Off;
      streamBlockPending := false;
      return Stopped;
    }

    /** A block that waited is dropped. */
    ghost method DropIf(waits: bool)
      requires Conserved() && (waits ==> blockPending || streamBlockPending)
      modifies this`settled
      ensures if waits then settled == old(settled) + [Dropped(pending)] && taken == Blocks(settled) else settled == old(settled)
    {
      if waits { Settle(Dropped(pending)); }
    }

    ghost method Settle(o: Outcome)
      modifies this`settled
      ensures settled == old(settled) + [o] && Blocks(settled) == Blocks(old(settled)) + [o.block]
    {
      BlocksSnoc(settled, o);
      settled := settled + [o];
    }

    // ------------------------------------------------------------ the polls

    /** `single_capture_tasks`: whether a result was there to send. */
    method SingleTask(capturing: bool, still: bool) returns (result: bool)
      requires Valid()
      modifies this`singlePending, this`singleActive
      ensures Valid()
      ensures result == (old(singlePending) && old(singleActive) && !capturing && !still)
      ensures if old(singlePending) && !(old(singleActive) && capturing)
              then View() == old(View()).(singlePending := false, singleActive := false)
              else View() == old(View())
    {
      result := false;
      if singlePending && !(singleActive && capturing) {
        result := singleActive && !still;
        singleActive := false;
        singlePending := false;
      }
    }

    /** The first half of `capture_chain_tasks`: collect a chained capture and start the next. */
    method ChainCollect(capturing: bool, still: bool, due: bool, started: bool) returns (goOn: bool)
      requires Valid()
      modifies this`chainPending, this`singleActive
      ensures Valid() && chainEnabled == old(chainEnabled)
      ensures goOn == !(old(chainPending) && (!old(singleActive) || (!capturing && still)))
      ensures !goOn ==> !chainPending && !singleActive
      ensures View() == old(View()).(chainPending := chainPending, singleActive := singleActive)
      ensures !old(chainEnabled) && !(old(singleActive) && capturing) ==> !chainPending
      ensures goOn ==> chainPending == ((old(chainPending) && old(singleActive) && capturing) || (chainEnabled && due && started))
      ensures old(View()).Active(Chained) ==> singleActive == chainPending
    {
      if chainPending && !(singleActive && capturing) {
        if !(singleActive && !still) {
          singleActive := false;
          chainPending := false;
          return false;
        }
        singleActive := false;
        chainPending := false;
      }
      if chainEnabled && !chainPending && due {
        chainPending := SingleCaptureStart(started);
      }
      return true;
    }

    /** The second half: take a block of the chained analysis if none waits, and send it.  When
        a chunk sent cannot be followed by a new one, the engine stalls. */
    method AnalysisTask(sampling: bool, sameMode: bool, sent: bool, restarted: bool)
      requires Valid()
      modifies this
      ensures Valid()
      ensures var took := old(captureActive) && !sampling && sameMode;
              && taken == old(taken) + (if took then [Block(Chain, old(sequence))] else [])
              && (if (old(blockPending) || took) && sent
                  then settled == old(settled) + [Sent(pending)] && View() == old(View()).(blockPending := false,
                       blockOutstanding := false, captureActive := restarted, owner := Chain)
                  else settled == old(settled) && View() == if took then old(View()).(blockPending := true,
                       blockOutstanding := true, captureActive := false, owner := Chain) else old(View()))
    {
      AnalysisTake(sampling, sameMode);
      if blockPending && sent { AnalysisSent(restarted); }
    }

    method AnalysisTake(sampling: bool, sameMode: bool)
      requires Valid()
      modifies this`blockPending, this`pending, this`sequence, this`captureActive, this`blockOutstanding, this`taken
      ensures Valid()
      ensures if old(captureActive) && !sampling && sameMode
              then pending == Block(Chain, old(sequence)) && taken == old(taken) + [pending] && View() == old(View()).(
                   blockPending := true, blockOutstanding := true, captureActive := false, owner := Chain)
              else unchanged(this)
    {
      if analysisEnabled && !blockPending {
        blockPending := CaptureChainTake(sampling, sameMode);
      }
    }

    method AnalysisSent(restarted: bool)
      requires Valid() && blockPending
      modifies this`settled, this`blockPending, this`captureActive, this`blockOutstanding
      ensures Valid() && settled == old(settled) + [Sent(pending)] && View().Stalled() == !restarted
      ensures View() == old(View()).(blockPending := false, blockOutstanding := false, captureActive := restarted)
    {
      Settle(Sent(pending));
      CaptureChainRelease(restarted);
      blockPending := false;
    }

    /** `capture_chain_tasks`. */
    method ChainTask(capturing: bool, still: bool, due: bool, started: bool,
                     sampling: bool, sameMode: bool, sent: bool, restarted: bool)
      requires Valid()
      modifies this
      ensures Valid() && chainEnabled == old(chainEnabled) && old(taken) <= taken
      ensures old(View()).Stalled() ==> View() == old(View()) && taken == old(taken)
      ensures !old(View()).Active(Chained) ==> !chainPending
      ensures !old(chainEnabled) && !(old(singleActive) && capturing) ==> !chainPending
      ensures singlePending == old(singlePending) && streamRunning == old(streamRunning) && running == old(running)
      ensures var stopped := old(chainPending) && (!old(singleActive) || (!capturing && still));
              chainPending == (!stopped && ((old(chainPending) && old(singleActive) && capturing) || (chainEnabled && due && started)))
      ensures var took := old(captureActive) && !sampling && sameMode;
              && taken == old(taken) + (if took then [Block(Chain, old(sequence))] else [])
              && blockPending == ((old(blockPending) || took) && !sent)
              && settled == old(settled) + (if (old(blockPending) || took) && sent then [Sent(pending)] else [])
    {
      var goOn := ChainCollect(capturing, still, due, started);
      if !goOn { return; }
      AnalysisTask(sampling, sameMode, sent, restarted);
    }

    /** `stream_tasks`. */
    method StreamTask(ready: Option<nat>, sent: bool)
      requires Valid()
      modifies this
      ensures Valid()
      ensures var took := streamRunning && !old(streamBlockPending) && ready.Some?;
              && taken == old(taken) + (if took then [Block(Streamer, ready.value)] else [])
              && (if (old(streamBlockPending) || took) && sent
                  then settled == old(settled) + [Sent(pending)] && View() == old(View()).(streamBlockPending := false,
                       streamOutstanding := false, owner := Streamer)
                  else settled == old(settled) && View() == if took then old(View()).(streamBlockPending := true,
                       streamOutstanding := true, owner := Streamer) else old(View()))
    {
      StreamTry(ready);
      if streamBlockPending && sent { StreamSent(); }
    }

    method StreamTry(ready: Option<nat>)
      requires Valid()
      modifies this`pending, this`streamBlockPending, this`streamOutstanding, this`taken
      ensures Valid()
      ensures if streamRunning && !old(streamBlockPending) && ready.Some?
              then pending == Block(Streamer, ready.value) && taken == old(taken) + [pending] && View() == old(View()).(
                   streamBlockPending := true, streamOutstanding := true, owner := Streamer)
              else unchanged(this)
    {
      if mode != Off && !streamBlockPending {
        streamBlockPending := StreamTake(ready);
      }
    }

    method StreamSent()
      requires Valid() && streamBlockPending
      modifies this`settled, this`streamBlockPending, this`streamOutstanding
      ensures Valid() && settled == old(settled) + [Sent(pending)]
      ensures View() == old(View()).(streamBlockPending := false, streamOutstanding := false)
    {
      Settle(Sent(pending));
      streamOutstanding := false;
      streamBlockPending := false;
    }

    // ------------------------------------------------------------ every run

    /** One event.  A stalled chain stays stalled until it is stopped. */
    method Handle(e: Event)
      requires Valid() && (e.StreamStart? ==> e.mode != Off)
      modifies this
      ensures Valid() && old(taken) <= taken
      ensures old(View()).Stalled() && !e.AnalysisStop? ==> View().Stalled() && taken == old(taken)
    {
      if e.SingleTask? || e.ChainTask? || e.StreamTask? { Poll(e); } else { Command(e); }
    }

    method Command(e: Event)
      requires Valid() && (e.StreamStart? ==> e.mode != Off) && !(e.SingleTask? || e.ChainTask? || e.StreamTask?)
      modifies this
      ensures Valid() && taken == old(taken)
      ensures old(View()).Stalled() && !e.AnalysisStop? ==> View().Stalled()
    {
      match e
      case SingleCapture(started) => var _ := SingleCapture(started);
      case ChainStart => var _ := ChainStart();
      case ChainStop => var _ := ChainStop();
      case AnalysisStart(started) => var _ := AnalysisStart(started);
      case AnalysisStop => var _ := AnalysisStop();
      case StreamStart(m) => var _ := StreamStart(m);
      case StreamStop => var _ := StreamStop();
    }

    method Poll(e: Event)
      requires Valid() && (e.SingleTask? || e.ChainTask? || e.StreamTask?)
      modifies this
      ensures Valid() && old(taken) <= taken
      ensures old(View()).Stalled() ==> View().Stalled() && taken == old(taken)
    {
      match e
      case SingleTask(capturing, still) => var _ := SingleTask(capturing, still);
      case ChainTask(capturing, still, due, started, sampling, sameMode, sent, restarted) =>
        ChainTask(capturing, still, due, started, sampling, sameMode, sent, restarted);
      case StreamTask(ready, sent) => StreamTask(ready, sent);
    }
  }

  /** Every run of commands and polls, from power-on: never two engines in use, and every
      block taken is sent or dropped exactly once, in order, but for the one that waits. */
  method Run(events: seq<Event>) returns (a: Analyser)
    requires forall i :: 0 <= i < |events| && events[i].StreamStart? ==> events[i].mode != Off
    ensures fresh(a) && a.Valid()
  {
    a := new Analyser();
    for i := 0 to |events|
      invariant fresh(a) && a.Valid()
    {
      a.Handle(events[i]);
    }
  }

  /** The stop commands and one round of polls leave nothing in use, whatever came before. */
  method Quiesce(a: Analyser, capturing: bool, ok: bool)
    requires a.Valid()
    modifies a
    ensures a.Valid() && !a.IsBusy() && forall e :: !a.View().Active(e)
    ensures a.taken == Blocks(a.settled)
  {
    var _ := a.StreamStop();
    var _ := a.AnalysisStop();
    var _ := a.ChainStop();
    var _ := a.SingleTask(capturing, ok);
    a.ChainTask(capturing, ok, ok, ok, capturing, ok, ok, ok);
  }

  /** A chain whose next chunk could not be started hands out no block, and keeps every other
      engine out, until CAPTURE_CHAIN_ANALYSIS_STOP. */
  method StallLasts(a: Analyser, events: seq<Event>)
    requires a.Valid() && a.View().Stalled()
    requires forall i :: 0 <= i < |events| ==> !events[i].AnalysisStop?
    requires forall i :: 0 <= i < |events| && events[i].StreamStart? ==> events[i].mode != Off
    modifies a
    ensures a.Valid() && a.View().Stalled() && a.IsBusy() && a.taken == old(a.taken)
  {
    for i := 0 to |events|
      invariant a.Valid() && a.View().Stalled() && a.taken == old(a.taken)
    {
      a.Handle(events[i]);
    }
  }

  function Blocks(os: seq<Outcome>): seq<Block> {
    if os == [] then [] else [os[0].block] + Blocks(os[1..])
  }

  lemma {:induction false} BlocksSnoc(os: seq<Outcome>, o: Outcome)
    ensures Blocks(os + [o]) == Blocks(os) + [o.block]
  {
    if os == [] {
    } else {
      assert (os + [o])[1..] == os[1..] + [o];
      BlocksSnoc(os[1..], o);
    }
  }
}

/** The count of queued SETUP packets in the device stack (src/device/usbd.c).

    The interrupt handler counts each SETUP it queues; the device task counts it down and
    serves it only when no newer one is waiting; a bus reset or unplug clears the count.  The
    handler may run between any two steps of that task, also between the load and the store
    of its decrement; it is not itself interrupted. */
module SetupCounter {
  import opened Basics

  datatype Event = Setup(id: nat) | Reset | Other

  /** Where the device task is: idle, holding an event it took from the queue, past the test of
      a SETUP for a zero count, with the count loaded (and `arrived` SETUPs queued since), or
      past storing it. */
  datatype Task = Idle | Holding(ev: Event) | Tested(id: nat) | Loaded(id: nat, was: int, arrived: nat) | Counted(id: nat)

  datatype State = State(queue: seq<Event>, capacity: nat, count: int, task: Task, served: seq<nat>)

  datatype Step =
    | Interrupt(ev: Event)   // dcd_event_handler
    | Take                   // osal_queue_receive
    | Test | Load | Store | Decide
    | Handle                 // an event other than SETUP

  predicate Enabled(s: State, step: Step) {
    match step
    case Interrupt(_) => true
    case Take => s.task == Idle && s.queue != []
    case Test => s.task.Holding? && s.task.ev.Setup?
    case Load => s.task.Tested?
    case Store => s.task.Loaded?
    case Decide => s.task.Counted?
    case Handle => s.task.Holding? && !s.task.ev.Setup?
  }

  /** 8-bit arithmetic on the counter. */
  function Wrap8(x: int): int { x % 256 }

  /** A SETUP has been queued: the device task may be between load and store. */
  function Arrive(t: Task): Task {
    if t.Loaded? then t.(arrived := t.arrived + 1) else t
  }

  function Apply(s: State, step: Step): State
    requires Enabled(s, step)
  {
    match step
    case Interrupt(ev) =>
      var counted := if ev.Setup? then Wrap8(s.count + 1) else s.count;
      if |s.queue| < s.capacity
      then s.(queue := s.queue + [ev], count := counted, task := if ev.Setup? then Arrive(s.task) else s.task)
      else s.(count := if ev.Setup? then Wrap8(counted - 1) else counted)   // dropped: undone
    case Take => s.(queue := s.queue[1..], task := Holding(s.queue[0]))
    case Test => s.(task := if s.count == 0 then Idle else Tested(s.task.ev.id))
    case Load => s.(task := Loaded(s.task.id, s.count, 0))
    case Store => s.(count := Wrap8(s.task.was - 1), task := Counted(s.task.id))
    case Decide => if s.count != 0 then s.(task := Idle) else s.(task := Idle, served := s.served + [s.task.id])
    case Handle => s.(task := Idle, count := if s.task.ev.Reset? then 0 else s.count)
  }

  // ---------------------------------------------------------------- counting

  function Setups(q: seq<Event>): nat {
    if q == [] then 0 else (if q[0].Setup? then 1 else 0) + Setups(q[1..])
  }

  lemma {:induction false} SetupsSnoc(q: seq<Event>, ev: Event)
    ensures Setups(q + [ev]) == Setups(q) + (if ev.Setup? then 1 else 0)
  {
    if q != [] {
      SetupsSnoc(q[1..], ev);
      assert (q + [ev])[1..] == q[1..] + [ev];
    }
  }

  lemma {:induction false} SetupsBounded(q: seq<Event>)
    ensures Setups(q) <= |q|
  {
    if q != [] { SetupsBounded(q[1..]); }
  }

  lemma {:induction false} SetupsNone(q: seq<Event>)
    ensures Setups(q) == 0 <==> forall i :: 0 <= i < |q| ==> !q[i].Setup?
  {
    if q != [] {
      SetupsNone(q[1..]);
      assert forall i :: 0 <= i < |q[1..]| ==> q[1..][i] == q[i + 1];
      if forall i :: 0 <= i < |q[1..]| ==> !q[1..][i].Setup? {
        assert forall i :: 0 < i < |q| ==> q[i] == q[1..][i - 1];
      }
    }
  }

  /** SETUPs that have been counted and not yet counted down, were the count exact. */
  function Waiting(s: State): nat {
    Setups(s.queue) +
    (if (s.task.Holding? && s.task.ev.Setup?) || s.task.Tested? || s.task.Loaded? then 1 else 0)
  }

  /** In every state: the count never exceeds the SETUPs waiting, it is positive when it is
      about to be counted down, and what was loaded is behind by what has arrived since. */
  predicate Inv(s: State) {
    && |s.queue| <= s.capacity < 255
    && 0 <= s.count <= Waiting(s)
    && (s.task.Tested? ==> s.count > 0)
    && (s.task.Loaded? ==> s.task.was > 0 && s.count == s.task.was + s.task.arrived)
  }

  predicate Initial(s: State) {
    s.queue == [] && s.capacity < 255 && s.count == 0 && s.task == Idle && s.served == []
  }

  lemma StepKeeps(s: State, step: Step)
    requires Inv(s) && Enabled(s, step)
    ensures Inv(Apply(s, step))
  {
    if step.Interrupt? { InterruptKeeps(s, step.ev); } else { SetupsBounded(s.queue); }
  }

  lemma InterruptKeeps(s: State, ev: Event)
    requires Inv(s)
    ensures Inv(Apply(s, Interrupt(ev)))
  {
    SetupsBounded(s.queue);
    SetupsSnoc(s.queue, ev);
  }

  predicate CanRun(s: State, steps: seq<Step>)
    decreases |steps|
  {
    steps == [] || (Enabled(s, steps[0]) && CanRun(Apply(s, steps[0]), steps[1..]))
  }

  function After(s: State, steps: seq<Step>): State
    requires CanRun(s, steps)
    decreases |steps|
  {
    if steps == [] then s else After(Apply(s, steps[0]), steps[1..])
  }

  lemma {:induction false} RunKeeps(s: State, steps: seq<Step>)
    requires Inv(s) && CanRun(s, steps)
    ensures Inv(After(s, steps))
    decreases |steps|
  {
    if steps != [] {
      StepKeeps(s, steps[0]);
      RunKeeps(Apply(s, steps[0]), steps[1..]);
    }
  }

  /** Whatever is dropped, reset or interleaved: the count never exceeds the number of SETUPs
      that are queued or in the device task's hands, and counting down never underflows. */
  lemma CountNeverTooHigh(s: State, steps: seq<Step>)
    requires Initial(s) && CanRun(s, steps)
    ensures var s' := After(s, steps);
            && 0 <= s'.count <= Waiting(s')
            && (Enabled(s', Store) ==> 0 <= Apply(s', Store).count == s'.task.was - 1 < s'.count)
  {
    RunKeeps(s, steps);
    SetupsBounded(After(s, steps).queue);
  }

  // ---------------------------------------------------------------- the queue

  /** An event is dropped only when the queue is full, and then nothing changes; otherwise it goes
      to the end of the queue. */
  lemma DroppedOnlyWhenFull(s: State, ev: Event)
    requires Inv(s)
    ensures var s' := Apply(s, Interrupt(ev));
            if |s.queue| == s.capacity then s' == s else s'.queue == s.queue + [ev] && s'.served == s.served
  {
    SetupsBounded(s.queue);
  }

  /** The events a run queues, and those the device task takes, in order. */
  function Arrived(s: State, steps: seq<Step>): seq<Event>
    requires CanRun(s, steps)
    decreases |steps|
  {
    if steps == [] then []
    else (if steps[0].Interrupt? && |s.queue| < s.capacity then [steps[0].ev] else []) + Arrived(Apply(s, steps[0]), steps[1..])
  }

  /** The event the device task has in hand, or had last. */
  predicate InHand(t: Task, ev: Event) {
    match t
    case Idle => true
    case Holding(e) => e == ev
    case Tested(id) => ev == Setup(id)
    case Loaded(id, _, _) => ev == Setup(id)
    case Counted(id) => ev == Setup(id)
  }

  function Taken(s: State, steps: seq<Step>): seq<Event>
    requires CanRun(s, steps)
    decreases |steps|
  {
    if steps == [] then []
    else
      var s' := Apply(s, steps[0]);
      (if steps[0] == Take && s'.task.Holding? then [s'.task.ev] else []) + Taken(s', steps[1..])
  }

  /** Events are taken in the order they were queued, none twice and none but these. */
  lemma {:induction false} TakenInOrder(s: State, steps: seq<Step>)
    requires CanRun(s, steps)
    ensures Taken(s, steps) + After(s, steps).queue == s.queue + Arrived(s, steps)
    decreases |steps|
  {
    if steps != [] {
      var s' := Apply(s, steps[0]);
      var t, a, q := Taken(s', steps[1..]), Arrived(s', steps[1..]), After(s, steps).queue;
      TakenInOrder(s', steps[1..]);
      if steps[0] == Take {
        var e := [s.queue[0]];
        assert s.queue == e + s'.queue && [] + a == a;
        Regroup(e, t, q);
        Regroup(e, s'.queue, a);
      } else if steps[0].Interrupt? && |s.queue| < s.capacity {
        assert [] + t == t;
        Regroup(s.queue, [steps[0].ev], a);
      } else {
        assert [] + t == t && [] + a == a && s'.queue == s.queue;
      }
    }
  }

  /** What the device task works on is the event it took last. */
  lemma {:induction false} WorksOnLastTaken(s: State, steps: seq<Step>)
    requires CanRun(s, steps)
    ensures var s' := After(s, steps);
            if Taken(s, steps) == [] then s'.task == Idle || s.task != Idle
            else InHand(s'.task, Taken(s, steps)[|Taken(s, steps)| - 1])
    decreases |steps|
  {
    if steps != [] {
      var s' := Apply(s, steps[0]);
      var t := Taken(s', steps[1..]);
      WorksOnLastTaken(s', steps[1..]);
      assert t != [] ==> Taken(s, steps)[|Taken(s, steps)| - 1] == t[|t| - 1];
      if t == [] && steps[0] == Take { NoneTakenKeeps(s', steps[1..], s'.task.ev); }
    }
  }

  lemma {:induction false} NoneTakenKeeps(s: State, steps: seq<Step>, ev: Event)
    requires CanRun(s, steps) && InHand(s.task, ev) && Taken(s, steps) == []
    ensures InHand(After(s, steps).task, ev)
    decreases |steps|
  {
    if steps != [] {
      var s' := Apply(s, steps[0]);
      assert steps[0] != Take;
      NoneTakenKeeps(s', steps[1..], ev);
    }
  }

  // ---------------------------------------------------------------- when it is exact

  predicate Exact(s: State) { s.count == Waiting(s) }

  /** The two steps that can lose count: storing a count that SETUPs have arrived behind, and
      clearing it while SETUPs wait behind the reset. */
  predicate Loses(s: State, step: Step)
    requires Enabled(s, step)
  {
    || (step == Store && s.task.arrived > 0)
    || (step == Handle && s.task.ev.Reset? && exists i :: 0 <= i < |s.queue| && s.queue[i].Setup?)
  }

  /** No other step does, and these always do. */
  lemma ExactStep(s: State, step: Step)
    requires Inv(s) && Exact(s) && Enabled(s, step)
    ensures Exact(Apply(s, step)) <==> !Loses(s, step)
  {
    if step.Interrupt? {
      ExactInterrupt(s, step.ev);
    } else {
      SetupsBounded(s.queue);
      SetupsNone(s.queue);
    }
  }

  lemma ExactInterrupt(s: State, ev: Event)
    requires Inv(s) && Exact(s)
    ensures Exact(Apply(s, Interrupt(ev)))
  {
    SetupsBounded(s.queue);
    SetupsSnoc(s.queue, ev);
  }

  /** No step of the run loses count. */
  predicate Undisturbed(s: State, steps: seq<Step>)
    requires CanRun(s, steps)
    decreases |steps|
  {
    steps == [] || (!Loses(s, steps[0]) && Undisturbed(Apply(s, steps[0]), steps[1..]))
  }

  /** The count is exact in every state of the run. */
  predicate ExactThroughout(s: State, steps: seq<Step>)
    requires CanRun(s, steps)
    decreases |steps|
  {
    Exact(s) && (steps == [] || ExactThroughout(Apply(s, steps[0]), steps[1..]))
  }

  /** The count equals the SETUPs waiting all through a run if and only if no SETUP is queued
      between a load and its store, and none waits behind a reset when that is handled. */
  lemma {:induction false} ExactIffUndisturbed(s: State, steps: seq<Step>)
    requires Inv(s) && Exact(s) && CanRun(s, steps)
    ensures ExactThroughout(s, steps) <==> Undisturbed(s, steps)
    decreases |steps|
  {
    if steps != [] {
      var s' := Apply(s, steps[0]);
      StepKeeps(s, steps[0]);
      ExactStep(s, steps[0]);
      if Exact(s') {
        ExactIffUndisturbed(s', steps[1..]);
      } else {
        assert !ExactThroughout(s', steps[1..]);
      }
    }
  }

  lemma {:induction false} ExactAtEnd(s: State, steps: seq<Step>)
    requires CanRun(s, steps) && ExactThroughout(s, steps)
    ensures Exact(After(s, steps))
    decreases |steps|
  {
    if steps != [] { ExactAtEnd(Apply(s, steps[0]), steps[1..]); }
  }

  /** In an undisturbed run no SETUP is dropped for a zero count, and one is served exactly when
      no newer one is queued at the moment of deciding. */
  lemma ServedIffNewest(s: State, steps: seq<Step>)
    requires Initial(s) && CanRun(s, steps) && Undisturbed(s, steps)
    ensures var s' := After(s, steps);
            && s'.count == Waiting(s')
            && (Enabled(s', Test) ==> Apply(s', Test).task.Tested?)
            && (Enabled(s', Decide) ==>
                  ((forall i :: 0 <= i < |s'.queue| ==> !s'.queue[i].Setup?)
                   <==> Apply(s', Decide).served == s'.served + [s'.task.id]))
  {
    ExactIffUndisturbed(s, steps);
    ExactAtEnd(s, steps);
    SetupsNone(After(s, steps).queue);
  }

  // ---------------------------------------------------------------- runs that lose count

  lemma RunCons(s: State, step: Step, steps: seq<Step>)
    requires Enabled(s, step) && CanRun(Apply(s, step), steps)
    ensures CanRun(s, [step] + steps) && After(s, [step] + steps) == After(Apply(s, step), steps)
  {
    assert ([step] + steps)[1..] == steps;
  }

  /** A SETUP can be lost: it arrives behind a reset, the reset clears the count, and the SETUP
      is then dropped although nothing newer is queued. */
  lemma SetupBehindResetIsLost()
    ensures var s := State([], 16, 0, Idle, []);
            var steps := [Interrupt(Reset)] + ([Interrupt(Setup(7))] + ([Take] + ([Handle] + ([Take] + [Test]))));
            && Initial(s) && CanRun(s, steps)
            && After(s, steps) == s
  {
    var s := State([], 16, 0, Idle, []);
    var s1 := Apply(s, Interrupt(Reset));
    var s2 := Apply(s1, Interrupt(Setup(7)));
    var s3 := Apply(s2, Take);
    var s4 := Apply(s3, Handle);
    var s5 := Apply(s4, Take);
    assert s5.queue == [] && s5.task == Holding(Setup(7)) && s5.count == 0;
    assert CanRun(s5, [Test]) && After(s5, [Test]) == s;
    RunCons(s4, Take, [Test]);
    RunCons(s3, Handle, [Take] + [Test]);
    RunCons(s2, Take, [Handle] + ([Take] + [Test]));
    RunCons(s1, Interrupt(Setup(7)), [Take] + ([Handle] + ([Take] + [Test])));
    RunCons(s, Interrupt(Reset), [Interrupt(Setup(7))] + ([Take] + ([Handle] + ([Take] + [Test]))));
  }

  /** And without any reset: a SETUP that arrives between load and store is not counted.  The
      older one is served although the newer is queued, and the newer is then dropped. */
  lemma SetupDuringCountDownIsLost()
    ensures var s := State([], 16, 0, Idle, []);
            var tail := [Store] + ([Decide] + ([Take] + [Test]));
            var steps := [Interrupt(Setup(1))] + ([Take] + ([Test] + ([Load] + ([Interrupt(Setup(2))] + tail))));
            && Initial(s) && CanRun(s, steps)
            && After(s, steps) == s.(served := [1])
  {
    var s := State([], 16, 0, Idle, []);
    var s1 := Apply(s, Interrupt(Setup(1)));
    var s2 := Apply(s1, Take);
    var s3 := Apply(s2, Test);
    var s4 := Apply(s3, Load);
    var s5 := Apply(s4, Interrupt(Setup(2)));
    var s6 := Apply(s5, Store);
    var s7 := Apply(s6, Decide);
    var s8 := Apply(s7, Take);
    assert s2.queue == [] && s5.queue == [Setup(2)] && s5.count == 2 && s6.count == 0 && s7.served == [1];
    assert s8.queue == [] && s8.task == Holding(Setup(2)) && s8.count == 0;
    assert CanRun(s8, [Test]) && After(s8, [Test]) == s.(served := [1]);
    var tail := [Store] + ([Decide] + ([Take] + [Test]));
    RunCons(s7, Take, [Test]);
    RunCons(s6, Decide, [Take] + [Test]);
    RunCons(s5, Store, [Decide] + ([Take] + [Test]));
    RunCons(s4, Interrupt(Setup(2)), tail);
    RunCons(s3, Load, [Interrupt(Setup(2))] + tail);
    RunCons(s2, Test, [Load] + ([Interrupt(Setup(2))] + tail));
    RunCons(s1, Take, [Test] + ([Load] + ([Interrupt(Setup(2))] + tail)));
    RunCons(s, Interrupt(Setup(1)), [Take] + ([Test] + ([Load] + ([Interrupt(Setup(2))] + tail))));
  }
}

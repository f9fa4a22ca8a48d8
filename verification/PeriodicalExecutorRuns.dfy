/** What the runs of the periodical executor come to: which tasks are executed in the end, what a tick, a full container
    and an idle loop do. */
module PeriodicalExecutorRuns {
  import opened Options
  import opened PeriodicalExecutor
  import opened PeriodicalExecutorProof

  // ---- what is executed in the end ---------------------------------------------------------------

  ghost predicate BeforeFlush(pc: Pc) {
    pc.FlushEnter? || pc.FlushRemove?
  }

  /** x is added, and if it is in the container, thread t is in Flush and has not emptied it yet. */
  ghost predicate WillLeave(s: State, t: Tid, x: Task) {
    x in s.added && (x in s.container ==> t in s.threads && BeforeFlush(s.threads[t]))
  }

  lemma WillLeaveStep(s: State, step: Step, t: Tid, x: Task)
    requires WillLeave(s, t, x) && Enabled(s, step)
    ensures WillLeave(Do(s, step), t, x)
  {
  }

  lemma {:induction false} WillLeaveRun(s: State, steps: seq<Step>, end: State, t: Tid, x: Task)
    requires WillLeave(s, t, x) && Reaches(s, steps, end)
    ensures WillLeave(end, t, x)
    decreases |steps|
  {
    hide WillLeave, Enabled, Do;
    if steps != [] {
      WillLeaveStep(s, steps[0], t, x);
      WillLeaveRun(Do(s, steps[0]), steps[1..], end, t, x);
    }
  }

  /** When nothing moves on its own any more, all that has left the container has been executed. */
  lemma ExecutedWhenStuck(s: State, t: Tid, x: Task)
    requires Inv(s) && Stuck(s) && WillLeave(s, t, x)
    ensures x in s.done
  {
    StuckBarrier(s);
    StuckCommander(s);
    if x in s.container {
      StuckThread(s, t);
    }
    if u :| u in s.threads && x in Held(s.threads[u]) {
      StuckThread(s, u);
    }
  }

  lemma ExecutedInTheEnd(s: State, steps: seq<Step>, end: State, t: Tid, x: Task)
    requires Inv(s) && WillLeave(s, t, x) && Reaches(s, steps, end) && Stuck(end)
    ensures x in end.done
  {
    hide *;
    RunKeepsInv(s, steps, end);
    WillLeaveRun(s, steps, end, t, x);
    ExecutedWhenStuck(end, t, x);
  }

  // ---- ticks, full containers and calls of Flush -----------------------------------------------------

  /** The loop has been idle for long enough, and nothing is in flight. */
  ghost predicate QuitsIn(s: State, step: Step, t: Tid) {
    step == CheckQuit(t, true) && s.inflight == 0
  }

  ghost predicate TakesAll(s: State, step: Step, t: Tid) {
    || (step == TickFires(t) && t in s.threads && s.threads[t] == Selecting(false))
    || step == CallFlush(t) || (step.AddTask? && step.full) || QuitsIn(s, step, t)
  }

  lemma AllWillLeave(s: State, step: Step, t: Tid, x: Task)
    requires Placed(s) && Enabled(s, step) && TakesAll(s, step, t)
    requires x in s.container || (step.AddTask? && x == step.task)
    ensures WillLeave(Do(s, step), t, x)
  {
  }

  lemma TakenIsExecuted(s: State, step: Step, t: Tid, steps: seq<Step>, end: State, x: Task)
    requires Inv(s) && Enabled(s, step) && TakesAll(s, step, t)
    requires x in s.container || (step.AddTask? && x == step.task)
    requires Reaches(Do(s, step), steps, end) && Stuck(end)
    ensures x in end.done
  {
    hide Enabled, Do, Reaches, Stuck, WillLeave, TakesAll, Placed, Counted, Watched, BarrierHeld, WaitersCovered;
    AllWillLeave(s, step, t, x);
    InvStep(s, step);
    ExecutedInTheEnd(Do(s, step), steps, end, t, x);
  }

  /** A tick executes what is in the container, unless a command came since the tick before. */
  lemma TickExecutes(s: State, t: Tid, steps: seq<Step>, end: State, x: Task)
    requires Reachable(s) && t in s.threads && s.threads[t] == Selecting(false) && x in s.container
    requires Reaches(Do(s, TickFires(t)), steps, end) && Stuck(end)
    ensures x in end.done
  {
    ReachableInv(s);
    hide Inv, Reachable, Do, Reaches, Stuck;
    TakenIsExecuted(s, TickFires(t), t, steps, end, x);
  }

  /** The goroutine does not move. */
  ghost predicate Idle(steps: seq<Step>, t: Tid) {
    forall k :: 0 <= k < |steps| ==> steps[k].t != t
  }

  lemma IdleStep(s: State, step: Step, t: Tid)
    requires t in s.threads && s.threads[t].Selecting? && Enabled(s, step) && step.t != t
    ensures t in Do(s, step).threads && Do(s, step).threads[t] == s.threads[t]
  {
  }

  lemma {:induction false} IdleRun(s: State, steps: seq<Step>, end: State, t: Tid)
    requires t in s.threads && s.threads[t].Selecting? && Reaches(s, steps, end) && Idle(steps, t)
    ensures t in end.threads && end.threads[t] == s.threads[t]
    decreases |steps|
  {
    hide Enabled, Do;
    if steps != [] {
      IdleStep(s, steps[0], t);
      IdleRun(Do(s, steps[0]), steps[1..], end, t);
    }
  }

  lemma TickSkipped(s: State, t: Tid)
    requires t in s.threads && s.threads[t] == Selecting(true)
    ensures Enabled(s, TickFires(t)) && Do(s, TickFires(t)) == s.(threads := s.threads[t := Selecting(false)])
  {
  }

  /** Of two ticks without a command between them, the second executes whatever is in the container then, even if a
      command came before the first. */
  lemma SecondTickExecutes(s: State, t: Tid, first: seq<Step>, mid: State, second: seq<Step>, end: State, x: Task)
    requires Reachable(s) && t in s.threads && s.threads[t] == Selecting(true)
    requires Reaches(Do(s, TickFires(t)), first, mid) && Idle(first, t) && x in mid.container
    requires Enabled(mid, TickFires(t)) && Reaches(Do(mid, TickFires(t)), second, end) && Stuck(end)
    ensures x in end.done
  {
    ReachableInv(s);
    TickSkipped(s, t);
    hide Inv, Enabled, Do, Reaches, Stuck, Idle;
    InvStep(s, TickFires(t));
    IdleRun(Do(s, TickFires(t)), first, mid, t);
    RunKeepsInv(Do(s, TickFires(t)), first, mid);
    TakenIsExecuted(mid, TickFires(t), t, second, end, x);
  }

  /** And it is needed: the first tick alone executes nothing. */
  lemma FirstTickDoesNot(s: State, t: Tid, x: Task)
    requires Reachable(s) && Stuck(s) && t in s.threads && s.threads[t] == Selecting(true) && x in s.container
    ensures Stuck(Do(s, TickFires(t))) && x in Do(s, TickFires(t)).container && x !in Do(s, TickFires(t)).done
  {
    ReachableInv(s);
    TickSkipped(s, t);
    StuckCommander(s);
    hide Reachable, Counted, Watched, BarrierHeld, WaitersCovered;
    forall step | Internal(step) ensures !Enabled(Do(s, TickFires(t)), step) {
      SelectingWaits(s, t, step);
    }
  }

  /** What a loop at its select remembers makes no step possible without a tick. */
  lemma SelectingWaits(s: State, t: Tid, step: Step)
    requires t in s.threads && s.threads[t].Selecting? && Internal(step) && !Enabled(s, step)
    ensures !Enabled(s.(threads := s.threads[t := Selecting(false)]), step)
  {
  }

  /** When nothing moves on its own, every task added is executed, or it is in the container and there is a loop, at its
      select, for the next ticks. */
  lemma NothingIsStranded(s: State, x: Task)
    requires Reachable(s) && Stuck(s) && x in s.added
    ensures x in s.done || (x in s.container && exists t :: t in s.threads && s.threads[t].Selecting?)
  {
    ReachableInv(s);
    hide Reachable, Placed, Counted, Watched, BarrierHeld, WaitersCovered, Enabled, Do;
    if x !in s.container {
      ExecutedWhenStuck(s, 0, x);
    } else {
      ContainerIsWatched(s);
      var t :| t in s.threads && (Owner(s.threads[t]) || LastFlushAhead(s.threads[t]));
      StuckBarrier(s);
      StuckCommander(s);
      StuckThread(s, t);
    }
  }

  /** An Add that fills the container has all that is in it executed. */
  lemma FullContainerIsExecuted(s: State, t: Tid, task: Task, steps: seq<Step>, end: State, x: Task)
    requires Reachable(s) && Enabled(s, AddTask(t, task, true)) && (x in s.container || x == task)
    requires Reaches(Do(s, AddTask(t, task, true)), steps, end) && Stuck(end)
    ensures x in end.done
  {
    ReachableInv(s);
    hide Inv, Enabled, Do, Reaches, Stuck;
    TakenIsExecuted(s, AddTask(t, task, true), t, steps, end, x);
  }

  /** So does a call of Flush. */
  lemma FlushExecutes(s: State, t: Tid, steps: seq<Step>, end: State, x: Task)
    requires Reachable(s) && Enabled(s, CallFlush(t)) && x in s.container
    requires Reaches(Do(s, CallFlush(t)), steps, end) && Stuck(end)
    ensures x in end.done
  {
    ReachableInv(s);
    hide Inv, Enabled, Do, Reaches, Stuck;
    TakenIsExecuted(s, CallFlush(t), t, steps, end, x);
  }

  /** Otherwise a task stays in the container. */
  lemma {:induction false} StaysUntilTaken(s: State, steps: seq<Step>, end: State, x: Task)
    requires Reaches(s, steps, end)
    requires x in s.container || (steps != [] && steps[0].AddTask? && steps[0].task == x)
    requires forall k :: 0 <= k < |steps| ==> !steps[k].RemoveAll? && !(steps[k].AddTask? && steps[k].full)
    ensures x in end.container
    decreases |steps|
  {
    if steps != [] {
      assert Enabled(s, steps[0]);
      assert x in Do(s, steps[0]).container;
      StaysUntilTaken(Do(s, steps[0]), steps[1..], end, x);
    }
  }

  // ---- what a loop remembers, and when it ends -------------------------------------------------------

  /** The loop is at its select or on the way there, in the latter case after a command or a tick as said. */
  ghost predicate OnTheWay(pc: Pc, commanded: bool) {
    match pc
    case Selecting(c) => c == commanded
    case Received(_) => commanded
    case Entering(_) => commanded
    case Confirm(_) => commanded
    case FlushEnter(c) => c == Tick && !commanded
    case FlushRemove(c) => c == Tick && !commanded
    case Executing(_, c) => c == if commanded then Command else Tick
    case Leaving(c, _) => c == if commanded then Command else Tick
    case ShallQuit => !commanded
    case _ => false
  }

  ghost predicate At(s: State, t: Tid, commanded: bool) {
    t in s.threads && OnTheWay(s.threads[t], commanded)
  }

  ghost function CommandedAfter(step: Step, t: Tid, before: bool): (r: bool) {
    if step == Receive(t) then true else if step == TickFires(t) then false else before
  }

  /** Whether the last thing that the loop got was a command. */
  ghost function Commanded(steps: seq<Step>, t: Tid, before: bool): (r: bool) {
    if steps == [] then before else Commanded(steps[1..], t, CommandedAfter(steps[0], t, before))
  }

  lemma LoopStep(s: State, step: Step, t: Tid, commanded: bool)
    requires At(s, t, commanded) && Enabled(s, step) && !QuitsIn(s, step, t)
    ensures At(Do(s, step), t, CommandedAfter(step, t, commanded))
  {
  }

  /** The loop goes on as long as it does not find itself idle, and remembers whether the last thing it got was a
      command, so that the next tick is skipped. */
  lemma {:induction false} LoopRemembers(s: State, steps: seq<Step>, end: State, t: Tid, commanded: bool)
    requires At(s, t, commanded) && Reaches(s, steps, end)
    requires forall k :: 0 <= k < |steps| ==> steps[k] != CheckQuit(t, true)
    ensures At(end, t, Commanded(steps, t, commanded))
    decreases |steps|
  {
    hide At, Enabled, Do;
    if steps != [] {
      LoopStep(s, steps[0], t, commanded);
      LoopRemembers(Do(s, steps[0]), steps[1..], end, t, CommandedAfter(steps[0], t, commanded));
    }
  }

  /** The loop is in a flush that found something or not, or behind it. */
  ghost predicate Flushing(s: State, t: Tid, some: bool) {
    t in s.threads &&
    match s.threads[t]
    case Executing(tasks, Tick) => (tasks != {}) == some
    case Leaving(Tick, had) => had == some
    case ShallQuit => !some
    case Selecting(commanded) => some && !commanded
    case _ => false
  }

  /** Neither a new command or tick for the loop, nor its decision whether to quit. */
  ghost predicate GoesOn(step: Step, t: Tid) {
    step != TickFires(t) && step != Receive(t) && !(step.CheckQuit? && step.t == t)
  }

  lemma FlushingStep(s: State, step: Step, t: Tid, some: bool)
    requires Flushing(s, t, some) && Enabled(s, step) && GoesOn(step, t)
    ensures Flushing(Do(s, step), t, some)
  {
  }

  lemma {:induction false} FlushingRun(s: State, steps: seq<Step>, end: State, t: Tid, some: bool)
    requires Flushing(s, t, some) && Reaches(s, steps, end)
    requires forall k :: 0 <= k < |steps| ==> GoesOn(steps[k], t)
    ensures Flushing(end, t, some)
    decreases |steps|
  {
    hide Flushing, GoesOn, Enabled, Do;
    if steps != [] {
      FlushingStep(s, steps[0], t, some);
      FlushingRun(Do(s, steps[0]), steps[1..], end, t, some);
    }
  }

  /** A loop asks whether it shall quit exactly after a tick that found nothing. */
  lemma AsksAfterNothing(s: State, t: Tid, steps: seq<Step>, end: State)
    requires t in s.threads && s.threads[t] == FlushRemove(Tick) && Reaches(Do(s, RemoveAll(t)), steps, end)
    requires forall k :: 0 <= k < |steps| ==> GoesOn(steps[k], t)
    ensures t in end.threads
    ensures end.threads[t].ShallQuit? ==> s.container == {}
    ensures end.threads[t].Selecting? ==> s.container != {}
  {
    assert Flushing(Do(s, RemoveAll(t)), t, s.container != {});
    hide Do, Reaches, GoesOn;
    FlushingRun(Do(s, RemoveAll(t)), steps, end, t, s.container != {});
  }

  ghost predicate Ending(s: State, t: Tid) {
    t in s.threads &&
    match s.threads[t]
    case FlushEnter(Quit) => true
    case FlushRemove(Quit) => true
    case Executing(_, Quit) => true
    case Leaving(Quit, _) => true
    case Returned => true
    case _ => false
  }

  lemma EndingStep(s: State, step: Step, t: Tid)
    requires Ending(s, t) && Enabled(s, step)
    ensures Ending(Do(s, step), t)
  {
  }

  lemma {:induction false} EndingRun(s: State, steps: seq<Step>, end: State, t: Tid)
    requires Ending(s, t) && Reaches(s, steps, end)
    ensures Ending(end, t)
    decreases |steps|
  {
    hide Ending, Enabled, Do;
    if steps != [] {
      EndingStep(s, steps[0], t);
      EndingRun(Do(s, steps[0]), steps[1..], end, t);
    }
  }

  lemma QuitStarts(s: State, t: Tid)
    requires t in s.threads && s.threads[t].ShallQuit? && s.inflight == 0
    ensures Enabled(s, CheckQuit(t, true)) && TakesAll(s, CheckQuit(t, true), t) && Ending(Do(s, CheckQuit(t, true)), t)
  {
  }

  /** A loop that finds itself idle with nothing in flight ends, and what is left in the container is executed. */
  lemma QuitsWhenIdle(s: State, t: Tid, steps: seq<Step>, end: State)
    requires Reachable(s) && t in s.threads && s.threads[t].ShallQuit? && s.inflight == 0
    requires Reaches(Do(s, CheckQuit(t, true)), steps, end) && Stuck(end)
    ensures t in end.threads && end.threads[t].Returned? && forall x :: x in s.container ==> x in end.done
  {
    ReachableInv(s);
    QuitStarts(s, t);
    hide Inv, Reachable, Do, Reaches, Stuck, Enabled, TakesAll;
    InvStep(s, CheckQuit(t, true));
    EndingRun(Do(s, CheckQuit(t, true)), steps, end, t);
    RunKeepsInv(Do(s, CheckQuit(t, true)), steps, end);
    StuckBarrier(end);
    StuckThread(end, t);
    forall x | x in s.container ensures x in end.done {
      TakenIsExecuted(s, CheckQuit(t, true), t, steps, end, x);
    }
  }

  // ---- the barrier ---------------------------------------------------------------------------------

  lemma HeldOff(s: State, step: Step, t: Tid)
    requires BarrierHeld(s) && s.barrier == Some(t) && Enabled(s, step) && step != WaitReturns(t)
    ensures Do(s, step).barrier == Some(t) && Do(s, step).waitGroup <= s.waitGroup
  {
  }

  /** While a waiter waits for the wait group, nobody enters it. */
  lemma {:induction false} BarrierHoldsOff(s: State, steps: seq<Step>, end: State, t: Tid)
    requires Inv(s) && s.barrier == Some(t) && Reaches(s, steps, end)
    requires forall k :: 0 <= k < |steps| ==> steps[k] != WaitReturns(t)
    ensures end.barrier == Some(t) && end.waitGroup <= s.waitGroup
    decreases |steps|
  {
    hide Placed, Counted, Watched, BarrierHeld, WaitersCovered, Enabled, Do;
    if steps != [] {
      InvStep(s, steps[0]);
      HeldOff(s, steps[0], t);
      BarrierHoldsOff(Do(s, steps[0]), steps[1..], end, t);
    }
  }
}

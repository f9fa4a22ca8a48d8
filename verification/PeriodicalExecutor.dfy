/** core/executors/periodicalexecutor.go as interleaved steps of callers and background goroutines. Every
    lock-protected body, channel operation and atomic operation is one step. */
module PeriodicalExecutor {
  import opened Options

  type Tid = nat
  type Task = nat

  /** On whose behalf a goroutine executes tasks; a waiter remembers what was added before it called Wait
      and whether its RemoveAll left none of that outside the wait group. */
  datatype Caller = Command | Tick | Quit | User | Waiter(before: set<Task>, safe: bool)

  datatype Pc =
    | Added(vals: Option<set<Task>>, spawn: bool)   // out of addAndCheck, may have to send vals or to start a loop
    | Confirming                                    // waiting on confirmChan
    | Returned
    | Selecting(commanded: bool)                    // the background loop at its select
    | Received(tasks: set<Task>)                    // holds a command, inflight not lowered yet
    | Entering(tasks: set<Task>)                    // before enterExecution
    | Confirm(tasks: set<Task>)                     // entered, about to send on confirmChan
    | FlushEnter(caller: Caller)                    // in Flush, before enterExecution
    | FlushRemove(caller: Caller)                   // entered, before RemoveAll
    | Executing(tasks: set<Task>, caller: Caller)
    | Leaving(caller: Caller, had: bool)            // before waitGroup.Done
    | ShallQuit
    | WaitBarrier(before: set<Task>, safe: bool)
    | Waiting(before: set<Task>, safe: bool)        // holds the barrier, in waitGroup.Wait
    | Waited(before: set<Task>, safe: bool)         // Wait has returned

  datatype State = State(
    container: set<Task>,
    commander: Option<set<Task>>,
    inflight: int,
    guarded: bool,
    waitGroup: int,
    barrier: Option<Tid>,
    threads: map<Tid, Pc>,
    added: set<Task>,
    done: multiset<Task>)

  datatype Step =
    | AddTask(t: Tid, task: Task, full: bool)   // addAndCheck; `full` is the container's answer
    | Spawn(t: Tid, loop: Tid)                  // backgroundFlush starts its goroutine
    | AddReturns(t: Tid)
    | Send(t: Tid)
    | Receive(t: Tid)
    | Decrement(t: Tid)
    | EnterCommand(t: Tid)
    | Handshake(t: Tid, adder: Tid)
    | Execute(t: Tid)
    | Leave(t: Tid)
    | TickFires(t: Tid)
    | EnterFlush(t: Tid)
    | RemoveAll(t: Tid)
    | CheckQuit(t: Tid, idle: bool)             // `idle` is whether idleRound intervals have passed
    | CallFlush(t: Tid)
    | CallWait(t: Tid)
    | TakeBarrier(t: Tid)
    | WaitReturns(t: Tid)

  const START := State({}, None, 0, false, 0, None, map[], {}, multiset{})

  /** A batch that no wait group counts yet: still in Add's hand, queued, or taken but not entered. */
  ghost predicate Unentered(s: State, x: Task) {
    || (s.commander.Some? && x in s.commander.value)
    || exists t :: t in s.threads && x in Held(s.threads[t]) && !Entered(s.threads[t])
  }

  ghost predicate SafeFor(s: State, before: set<Task>) {
    forall x :: x in before ==> !Unentered(s, x)
  }

  ghost predicate Enabled(s: State, step: Step) {
    match step
    case AddTask(t, task, _) => t !in s.threads && task !in s.added
    case Spawn(t, loop) => t in s.threads && s.threads[t].Added? && s.threads[t].spawn && loop !in s.threads
    case AddReturns(t) => t in s.threads && s.threads[t] == Added(None, false)
    case Send(t) =>
      t in s.threads && s.threads[t].Added? && !s.threads[t].spawn && s.threads[t].vals.Some? && s.commander.None?
    case Receive(t) => t in s.threads && s.threads[t].Selecting? && s.commander.Some?
    case Decrement(t) => t in s.threads && s.threads[t].Received?
    case EnterCommand(t) => t in s.threads && s.threads[t].Entering? && s.barrier.None?
    case Handshake(t, adder) =>
      t in s.threads && s.threads[t].Confirm? && adder in s.threads && s.threads[adder].Confirming?
    case Execute(t) => t in s.threads && s.threads[t].Executing?
    case Leave(t) => t in s.threads && s.threads[t].Leaving?
    case TickFires(t) => t in s.threads && s.threads[t].Selecting?
    case EnterFlush(t) => t in s.threads && s.threads[t].FlushEnter? && s.barrier.None?
    case RemoveAll(t) => t in s.threads && s.threads[t].FlushRemove?
    case CheckQuit(t, _) => t in s.threads && s.threads[t].ShallQuit?
    case CallFlush(t) => t !in s.threads
    case CallWait(t) => t !in s.threads
    case TakeBarrier(t) => t in s.threads && s.threads[t].WaitBarrier? && s.barrier.None?
    case WaitReturns(t) => t in s.threads && s.threads[t].Waiting? && s.waitGroup == 0
  }

  /** Where a thread goes after waitGroup.Done, by why it executed. */
  ghost function AfterExecution(caller: Caller, had: bool): (r: Pc) {
    match caller
    case Command => Selecting(true)
    case Tick => if had then Selecting(false) else ShallQuit
    case Quit => Returned
    case User => Returned
    case Waiter(before, safe) => WaitBarrier(before, safe)
  }

  ghost function Do(s: State, step: Step): (r: State)
    requires Enabled(s, step)
  {
    match step
    case AddTask(t, task, full) =>
      var all := s.container + {task};
      s.(container := if full then {} else all, inflight := if full then s.inflight + 1 else s.inflight,
      guarded := true, added := s.added + {task},
      threads := s.threads[t := Added(if full then Some(all) else None, !s.guarded)])
    case Spawn(t, loop) =>
      s.(threads := s.threads[t := s.threads[t].(spawn := false)][loop := Selecting(false)])
    case AddReturns(t) => s.(threads := s.threads[t := Returned])
    case Send(t) => s.(commander := s.threads[t].vals, threads := s.threads[t := Confirming])
    case Receive(t) => s.(commander := None, threads := s.threads[t := Received(s.commander.value)])
    case Decrement(t) => s.(inflight := s.inflight - 1, threads := s.threads[t := Entering(s.threads[t].tasks)])
    case EnterCommand(t) => s.(waitGroup := s.waitGroup + 1, threads := s.threads[t := Confirm(s.threads[t].tasks)])
    case Handshake(t, adder) =>
      s.(threads := s.threads[adder := Returned][t := Executing(s.threads[t].tasks, Command)])
    case Execute(t) =>
      var pc := s.threads[t];
      s.(done := s.done + multiset(pc.tasks), threads := s.threads[t := Leaving(pc.caller, pc.tasks != {})])
    case Leave(t) =>
      s.(waitGroup := s.waitGroup - 1, threads := s.threads[t := AfterExecution(s.threads[t].caller, s.threads[t].had)])
    case TickFires(t) =>
      s.(threads := s.threads[t := if s.threads[t].commanded then Selecting(false) else FlushEnter(Tick)])
    case EnterFlush(t) => s.(waitGroup := s.waitGroup + 1, threads := s.threads[t := FlushRemove(s.threads[t].caller)])
    case RemoveAll(t) =>
      var caller := s.threads[t].caller;
      var noted := if caller.Waiter? then caller.(safe := SafeFor(s, caller.before)) else caller;
      s.(container := {}, threads := s.threads[t := Executing(s.container, noted)])
    case CheckQuit(t, idle) =>
      if idle && s.inflight == 0
      then s.(guarded := false, threads := s.threads[t := FlushEnter(Quit)])
      else s.(threads := s.threads[t := Selecting(false)])
    case CallFlush(t) => s.(threads := s.threads[t := FlushEnter(User)])
    case CallWait(t) => s.(threads := s.threads[t := FlushEnter(Waiter(s.added, false))])
    case TakeBarrier(t) =>
      s.(barrier := Some(t), threads := s.threads[t := Waiting(s.threads[t].before, s.threads[t].safe)])
    case WaitReturns(t) =>
      s.(barrier := None, threads := s.threads[t := Waited(s.threads[t].before, s.threads[t].safe)])
  }

  ghost predicate Reaches(s: State, steps: seq<Step>, end: State)
    decreases |steps|
  {
    if steps == [] then s == end
    else Enabled(s, steps[0]) && Reaches(Do(s, steps[0]), steps[1..], end)
  }

  ghost predicate Reachable(s: State) {
    exists steps :: Reaches(START, steps, s)
  }

  // ---- the kinds of program points ---------------------------------------------------------

  ghost function Held(pc: Pc): (r: set<Task>) {
    match pc
    case Added(Some(v), _) => v
    case Received(v) => v
    case Entering(v) => v
    case Confirm(v) => v
    case Executing(v, _) => v
    case _ => {}
  }

  /** Counted by the wait group. */
  ghost predicate Entered(pc: Pc) {
    pc.Confirm? || pc.FlushRemove? || pc.Executing? || pc.Leaving?
  }

  /** Has raised inflight and not lowered it: holds a batch on its way to a loop. */
  ghost predicate InFlight(pc: Pc) {
    (pc.Added? && pc.vals.Some?) || pc.Received?
  }

  ghost predicate Unconfirmed(pc: Pc) {
    pc.Received? || pc.Entering? || pc.Confirm?
  }

  ghost predicate AwaitsConfirm(pc: Pc) {
    pc.Confirming?
  }

  ghost predicate Looping(caller: Caller) {
    caller.Command? || caller.Tick?
  }

  /** A background loop that has not decided to quit, or the caller that is about to start one. */
  ghost predicate Owner(pc: Pc) {
    match pc
    case Added(_, spawn) => spawn
    case Selecting(_) => true
    case Received(_) => true
    case Entering(_) => true
    case Confirm(_) => true
    case FlushEnter(c) => Looping(c)
    case FlushRemove(c) => Looping(c)
    case Executing(_, c) => Looping(c)
    case Leaving(c, _) => Looping(c)
    case ShallQuit => true
    case _ => false
  }

  /** A quitting loop that has not removed the remaining tasks yet. */
  ghost predicate LastFlushAhead(pc: Pc) {
    pc == FlushEnter(Quit) || pc == FlushRemove(Quit)
  }

  ghost predicate AddInProgress(pc: Pc) {
    pc.Added? || pc.Confirming?
  }

  ghost function Queued(s: State): (r: set<Task>) {
    if s.commander.Some? then s.commander.value else {}
  }
}

/** What every run of the periodical executor keeps, and what Wait guarantees. */
module PeriodicalExecutorProof {
  import opened Options
  import opened Threads
  import opened PeriodicalExecutor

  // ---- the invariant -------------------------------------------------------------------------

  ghost predicate HeldBySome(s: State, x: Task) {
    exists t :: t in s.threads && x in Held(s.threads[t])
  }

  /** Every task is in exactly one of container, commander, one goroutine's hand, or executed once. */
  ghost predicate Placed(s: State) {
    && (forall x :: x in s.container ==> x in s.added && x !in s.done && x !in Queued(s))
    && (forall x :: x in Queued(s) ==> x in s.added && x !in s.done)
    && (forall t, x :: t in s.threads && x in Held(s.threads[t])
                       ==> x in s.added && x !in s.done && x !in s.container && x !in Queued(s))
    && (forall t, u, x :: t in s.threads && u in s.threads && x in Held(s.threads[t]) && x in Held(s.threads[u]) ==>
                            t == u)
    && (forall x :: x in s.done ==> x in s.added && s.done[x] == 1)
    && (forall x :: x in s.added ==> x in s.container || x in Queued(s) || x in s.done || HeldBySome(s, x))
  }

  ghost predicate Counted(s: State) {
    && s.inflight == Count(s.threads, InFlight) + One(s.commander.Some?)
    && s.waitGroup == Count(s.threads, Entered)
    && Count(s.threads, Owner) == One(s.guarded)
    && Count(s.threads, AwaitsConfirm) == Count(s.threads, Unconfirmed) + One(s.commander.Some?)
  }

  ghost predicate Watched(s: State) {
    && (s.inflight > 0 ==> s.guarded)
    && (s.container != {} ==> s.guarded || exists t :: t in s.threads && LastFlushAhead(s.threads[t]))
  }

  ghost predicate BarrierHeld(s: State) {
    && (s.barrier.Some? ==> s.barrier.value in s.threads)
    && (forall t :: t in s.threads ==> (s.threads[t].Waiting? <==> s.barrier == Some(t)))
  }

  /** A waiter past its RemoveAll, with nothing of `before` left outside the wait group then. */
  ghost predicate SafeWaiter(pc: Pc, x: Task) {
    match pc
    case Executing(_, Waiter(before, safe)) => safe && x in before
    case Leaving(Waiter(before, safe), _) => safe && x in before
    case WaitBarrier(before, safe) => safe && x in before
    case Waiting(before, safe) => safe && x in before
    case Waited(before, safe) => safe && x in before
    case _ => false
  }

  /** Executed, or in the hand of a goroutine the wait group counts. */
  ghost predicate Covered(s: State, x: Task) {
    x in s.done || exists u :: u in s.threads && x in Held(s.threads[u]) && Entered(s.threads[u])
  }

  ghost predicate WaitersCovered(s: State) {
    && (forall t, x :: t in s.threads && SafeWaiter(s.threads[t], x) ==> Covered(s, x))
    && (forall t, x :: t in s.threads && s.threads[t].Waited? && SafeWaiter(s.threads[t], x) ==> x in s.done)
    && (forall t :: t in s.threads ==> Before(s.threads[t]) <= s.added)
    && (forall t :: t in s.threads && (s.threads[t].FlushEnter? || s.threads[t].FlushRemove?)
                    && s.threads[t].caller.Waiter?
                    ==> !s.threads[t].caller.safe)
  }

  ghost function Before(pc: Pc): (r: set<Task>) {
    match pc
    case FlushEnter(Waiter(before, _)) => before
    case FlushRemove(Waiter(before, _)) => before
    case Executing(_, Waiter(before, _)) => before
    case Leaving(Waiter(before, _), _) => before
    case WaitBarrier(before, _) => before
    case Waiting(before, _) => before
    case Waited(before, _) => before
    case _ => {}
  }

  ghost predicate Inv(s: State) {
    Placed(s) && Counted(s) && Watched(s) && BarrierHeld(s) && WaitersCovered(s)
  }

  // ---- every step keeps it -------------------------------------------------------------------

  lemma MoveCounts(s: State, t: Tid, p: Pc)
    ensures Count(s.threads[t := p], InFlight) + One(t in s.threads && InFlight(s.threads[t]))
         == Count(s.threads, InFlight) + One(InFlight(p))
    ensures Count(s.threads[t := p], Entered) + One(t in s.threads && Entered(s.threads[t]))
         == Count(s.threads, Entered) + One(Entered(p))
    ensures Count(s.threads[t := p], Owner) + One(t in s.threads && Owner(s.threads[t]))
         == Count(s.threads, Owner) + One(Owner(p))
    ensures Count(s.threads[t := p], AwaitsConfirm) + One(t in s.threads && AwaitsConfirm(s.threads[t]))
         == Count(s.threads, AwaitsConfirm) + One(AwaitsConfirm(p))
    ensures Count(s.threads[t := p], Unconfirmed) + One(t in s.threads && Unconfirmed(s.threads[t]))
         == Count(s.threads, Unconfirmed) + One(Unconfirmed(p))
  {
    CountMove(s.threads, t, p, InFlight);
    CountMove(s.threads, t, p, Entered);
    CountMove(s.threads, t, p, Owner);
    CountMove(s.threads, t, p, AwaitsConfirm);
    CountMove(s.threads, t, p, Unconfirmed);
  }

  /** The goroutine a step moves first, and the other one it involves, if any. */
  ghost function Mover(step: Step): (r: Tid) {
    match step
    case Handshake(_, adder) => adder
    case _ => step.t
  }

  ghost predicate MovesTwo(step: Step) {
    step.Spawn? || step.Handshake?
  }

  ghost predicate ChangesGuard(step: Step) {
    step.AddTask? || step.CheckQuit?
  }

  lemma CountedMove(s: State, step: Step)
    requires Counted(s) && Enabled(s, step) && !MovesTwo(step) && !ChangesGuard(step)
    ensures Counted(Do(s, step))
  {
    hide Count;
    MoveCounts(s, step.t, Do(s, step).threads[step.t]);
  }

  lemma CountedGuard(s: State, step: Step)
    requires Counted(s) && Enabled(s, step) && ChangesGuard(step)
    ensures Counted(Do(s, step))
  {
    hide Count;
    MoveCounts(s, step.t, Do(s, step).threads[step.t]);
    CountPositive(s.threads, Owner);
  }

  lemma CountedTwo(s: State, step: Step)
    requires Counted(s) && Enabled(s, step) && MovesTwo(step)
    ensures Counted(Do(s, step))
  {
    hide Count;
    var s' := Do(s, step);
    var t := Mover(step);
    MoveCounts(s, t, s'.threads[t]);
    var mid := s.(threads := s.threads[t := s'.threads[t]]);
    var u := if step.Spawn? then step.loop else step.t;
    MoveCounts(mid, u, s'.threads[u]);
  }

  /** Steps that leave every task where it is, apart from handing a batch from goroutine to goroutine. */
  ghost predicate KeepsTasks(step: Step) {
    !(step.AddTask? || step.Send? || step.Receive? || step.Execute? || step.RemoveAll?)
  }

  ghost predicate SameHands(s: State, s': State) {
    && s.container == s'.container && s.commander == s'.commander && s.added == s'.added && s.done == s'.done
    && s.threads.Keys <= s'.threads.Keys
    && forall t :: t in s'.threads ==> Held(s'.threads[t]) == if t in s.threads then Held(s.threads[t]) else {}
  }

  lemma QuietStep(s: State, step: Step)
    requires Enabled(s, step) && KeepsTasks(step)
    ensures SameHands(s, Do(s, step))
  {
  }

  lemma PlacedQuiet(s: State, s': State)
    requires Placed(s) && SameHands(s, s')
    ensures Placed(s')
  {
    hide Held;
    forall x | HeldBySome(s, x) ensures HeldBySome(s', x) {
      var t :| t in s.threads && x in Held(s.threads[t]);
      assert t in s'.threads && x in Held(s'.threads[t]);
    }
  }

  ghost function Hand(s: State, t: Tid): (r: set<Task>) {
    if t in s.threads then Held(s.threads[t]) else {}
  }

  /** Only goroutine t's hand differs. */
  ghost predicate OtherHands(s: State, s': State, t: Tid) {
    && s'.threads.Keys == s.threads.Keys + {t}
    && forall u :: u in s.threads && u != t ==> Held(s'.threads[u]) == Held(s.threads[u])
  }

  lemma TaskStep(s: State, step: Step)
    requires Enabled(s, step) && !KeepsTasks(step)
    ensures OtherHands(s, Do(s, step), step.t)
    ensures step.AddTask? ==>
              step.t !in s.threads && step.task !in s.added && Do(s, step).added == s.added + {step.task}
    ensures !step.AddTask? ==> Do(s, step).added == s.added
    ensures !step.Execute? ==> Do(s, step).done == s.done
    ensures step.Execute? ==> Hand(Do(s, step), step.t) == {} && Do(s, step).done == s.done + multiset(Hand(s, step.t))
                              && Do(s, step).container == s.container && Queued(Do(s, step)) == Queued(s)
    ensures step.Send? || step.Receive? ==>
              Do(s, step).container == s.container &&
              ((Queued(Do(s, step)) == Hand(s, step.t) && Hand(Do(s, step), step.t) == Queued(s) &&
                (Queued(s) == {} || Hand(s, step.t) == {})))
    ensures step.AddTask? || step.RemoveAll? ==>
              Queued(Do(s, step)) == Queued(s) && Hand(s, step.t) == {} &&
              var all := if step.AddTask? then s.container + {step.task} else s.container;
              ((Do(s, step).container == all && Hand(Do(s, step), step.t) == {}) ||
               (Do(s, step).container == {} && Hand(Do(s, step), step.t) == all))
  {
  }

  lemma HandsKept(s: State, s': State, t: Tid)
    requires OtherHands(s, s', t)
    ensures forall x :: HeldBySome(s, x) ==> HeldBySome(s', x) || x in Hand(s, t)
    ensures forall x :: x in Hand(s', t) ==> HeldBySome(s', x)
  {
    hide Held;
    forall x | HeldBySome(s, x) ensures HeldBySome(s', x) || x in Hand(s, t) {
      var u :| u in s.threads && x in Held(s.threads[u]);
      if u != t {
        assert u in s'.threads && x in Held(s'.threads[u]);
      }
    }
  }

  lemma PlacedExecute(s: State, s': State, t: Tid)
    requires Placed(s) && OtherHands(s, s', t)
    requires forall x :: HeldBySome(s, x) ==> HeldBySome(s', x) || x in Hand(s, t)
    requires Hand(s', t) == {} && s'.done == s.done + multiset(Hand(s, t))
    requires s'.container == s.container && Queued(s') == Queued(s) && s'.added == s.added
    ensures Placed(s')
  {
    hide Held, Queued, HeldBySome;
    var tasks := Hand(s, t);
    assert forall x :: s'.done[x] == s.done[x] + (if x in tasks then 1 else 0);
  }

  lemma PlacedMove(s: State, s': State, t: Tid)
    requires Placed(s) && OtherHands(s, s', t)
    requires forall x :: HeldBySome(s, x) ==> HeldBySome(s', x) || x in Hand(s, t)
    requires forall x :: x in Hand(s', t) ==> HeldBySome(s', x)
    requires s'.done == s.done && s.added <= s'.added
    requires forall x :: x in s'.added - s.added ==> x !in s.added
    requires forall x :: x in s'.container || x in Queued(s') || x in Hand(s', t)
                         <==> x in s.container || x in Queued(s) || x in Hand(s, t) || x in s'.added - s.added
    requires s'.container !! Queued(s') && s'.container !! Hand(s', t) && Queued(s') !! Hand(s', t)
    ensures Placed(s')
  {
    hide Held, Queued, HeldBySome;
  }

  /** A batch moves between a goroutine's hand, the commander and the container, or is executed. */
  lemma PlacedStep(s: State, step: Step)
    requires Placed(s) && Enabled(s, step)
    ensures Placed(Do(s, step))
  {
    hide Enabled, Do;
    if KeepsTasks(step) {
      QuietStep(s, step);
      PlacedQuiet(s, Do(s, step));
    } else {
      TaskStep(s, step);
      HandsKept(s, Do(s, step), step.t);
      if step.Execute? {
        PlacedExecute(s, Do(s, step), step.t);
      } else {
        PlacedMove(s, Do(s, step), step.t);
      }
    }
  }

  lemma WatchedStep(s: State, step: Step)
    requires Watched(s) && Enabled(s, step)
    ensures Watched(Do(s, step))
  {
    var s' := Do(s, step);
    if s'.container != {} && !s'.guarded {
      if exists t :: t in s.threads && LastFlushAhead(s.threads[t]) {
        var t :| t in s.threads && LastFlushAhead(s.threads[t]);
        assert LastFlushAhead(s'.threads[t]);
      } else {
        assert step.CheckQuit?;
        assert LastFlushAhead(s'.threads[step.t]);
      }
    }
  }

  lemma BarrierStep(s: State, step: Step)
    requires BarrierHeld(s) && Enabled(s, step)
    ensures BarrierHeld(Do(s, step))
  {
  }

  /** What a task counted by the wait group becomes: still counted, or executed. */
  lemma CoveredStep(s: State, step: Step, x: Task)
    requires Placed(s) && Enabled(s, step) && Covered(s, x)
    ensures Covered(Do(s, step), x)
  {
    var s' := Do(s, step);
    if x !in s.done {
      var u :| u in s.threads && x in Held(s.threads[u]) && Entered(s.threads[u]);
      assert u in s'.threads;
      assert x in s'.done || (x in Held(s'.threads[u]) && Entered(s'.threads[u]));
    }
  }

  /** The only step that makes a waiter safe is its own RemoveAll. */
  lemma BecomesSafe(s: State, step: Step, t: Tid, x: Task)
    requires WaitersCovered(s) && Enabled(s, step) && t in Do(s, step).threads
    requires SafeWaiter(Do(s, step).threads[t], x) && !(t in s.threads && SafeWaiter(s.threads[t], x))
    ensures step == RemoveAll(t) && x in s.added && !Unentered(s, x)
  {
  }

  lemma RemovedIsCovered(s: State, t: Tid, x: Task)
    requires Placed(s) && Enabled(s, RemoveAll(t)) && x in s.added && !Unentered(s, x)
    ensures Covered(Do(s, RemoveAll(t)), x)
  {
    var s' := Do(s, RemoveAll(t));
    assert Held(s'.threads[t]) == s.container && Entered(s'.threads[t]);
    if HeldBySome(s, x) {
      CoveredStep(s, RemoveAll(t), x);
    }
  }

  /** waitGroup.Wait returns only when no goroutine is counted any more. */
  lemma ReturnMeansDone(s: State, t: Tid, x: Task)
    requires Counted(s) && Enabled(s, WaitReturns(t)) && Covered(s, x)
    ensures x in s.done
  {
    CountPositive(s.threads, Entered);
  }

  lemma StaysWaited(s: State, step: Step, t: Tid)
    requires Enabled(s, step) && t in Do(s, step).threads && Do(s, step).threads[t].Waited?
    ensures step == WaitReturns(t) || (t in s.threads && s.threads[t] == Do(s, step).threads[t])
    ensures s.done <= Do(s, step).done
  {
  }

  lemma SafeWaiterStep(s: State, step: Step, t: Tid, x: Task)
    requires Inv(s) && Enabled(s, step)
    requires t in Do(s, step).threads && SafeWaiter(Do(s, step).threads[t], x)
    ensures Covered(Do(s, step), x)
    ensures Do(s, step).threads[t].Waited? ==> x in Do(s, step).done
  {
    hide Enabled, Do, Placed, Counted, Watched, BarrierHeld, Covered, Unentered;
    if t in s.threads && SafeWaiter(s.threads[t], x) {
      CoveredStep(s, step, x);
    } else {
      BecomesSafe(s, step, t, x);
      RemovedIsCovered(s, t, x);
    }
    if Do(s, step).threads[t].Waited? {
      StaysWaited(s, step, t);
      WaitedWas(s, step, t, x);
      if step == WaitReturns(t) {
        ReturnMeansDone(s, t, x);
      }
    }
  }

  lemma WaitedWas(s: State, step: Step, t: Tid, x: Task)
    requires Enabled(s, step) && t in Do(s, step).threads && Do(s, step).threads[t].Waited?
    requires SafeWaiter(Do(s, step).threads[t], x)
    ensures t in s.threads && SafeWaiter(s.threads[t], x)
  {
  }

  lemma BeforeStep(s: State, step: Step, t: Tid)
    requires WaitersCovered(s) && Enabled(s, step) && t in Do(s, step).threads
    ensures Before(Do(s, step).threads[t]) <= Do(s, step).added
    ensures var pc := Do(s, step).threads[t]; (pc.FlushEnter? || pc.FlushRemove?) && pc.caller.Waiter? ==>
              !pc.caller.safe
  {
  }

  lemma WaitersStep(s: State, step: Step)
    requires Inv(s) && Enabled(s, step)
    ensures WaitersCovered(Do(s, step))
  {
    hide Enabled, Do, Placed, Counted, Watched, BarrierHeld, Covered, SafeWaiter, Before;
    var s' := Do(s, step);
    forall t, x | t in s'.threads && SafeWaiter(s'.threads[t], x)
      ensures Covered(s', x)
      ensures s'.threads[t].Waited? ==> x in s'.done
    {
      SafeWaiterStep(s, step, t, x);
    }
    forall t | t in s'.threads
      ensures Before(s'.threads[t]) <= s'.added
      ensures var pc := s'.threads[t]; (pc.FlushEnter? || pc.FlushRemove?) && pc.caller.Waiter? ==> !pc.caller.safe
    {
      BeforeStep(s, step, t);
    }
  }

  lemma InvStep(s: State, step: Step)
    requires Inv(s) && Enabled(s, step)
    ensures Inv(Do(s, step))
  {
    hide Placed, Counted, Watched, BarrierHeld, WaitersCovered, Enabled, Do;
    PlacedStep(s, step);
    if MovesTwo(step) {
      CountedTwo(s, step);
    } else if ChangesGuard(step) {
      CountedGuard(s, step);
    } else {
      CountedMove(s, step);
    }
    WatchedStep(s, step);
    BarrierStep(s, step);
    WaitersStep(s, step);
  }

  lemma {:induction false} RunKeepsInv(s: State, steps: seq<Step>, end: State)
    requires Inv(s) && Reaches(s, steps, end)
    ensures Inv(end)
    decreases |steps|
  {
    hide Inv, Enabled, Do;
    if steps != [] {
      InvStep(s, steps[0]);
      RunKeepsInv(Do(s, steps[0]), steps[1..], end);
    }
  }

  lemma ReachableInv(s: State)
    requires Reachable(s)
    ensures Inv(s)
  {
    CountNone<Tid, Pc>(InFlight);
    CountNone<Tid, Pc>(Entered);
    CountNone<Tid, Pc>(Owner);
    CountNone<Tid, Pc>(AwaitsConfirm);
    CountNone<Tid, Pc>(Unconfirmed);
    assert Inv(START);
    var steps :| Reaches(START, steps, s);
    RunKeepsInv(START, steps, s);
  }

  // ---- no task is lost, duplicated or stranded -------------------------------------------------

  /** In every run each added task is in exactly one place, and is executed at most once. */
  lemma EachTaskInOnePlace(s: State, x: Task)
    requires Reachable(s)
    ensures x in s.added
       <==> One(x in s.container) + One(x in Queued(s)) + One(x in s.done) + One(HeldBySome(s, x)) == 1
    ensures x !in s.added
       <==> One(x in s.container) + One(x in Queued(s)) + One(x in s.done) + One(HeldBySome(s, x)) == 0
    ensures forall t, u :: t in s.threads && u in s.threads && x in Held(s.threads[t]) && x in Held(s.threads[u]) ==>
                             t == u
    ensures s.done[x] <= 1
  {
    ReachableInv(s);
  }

  /** There is never more than one background loop, and there is one whenever a batch is on its way to it. */
  lemma QueuedWorkHasALoop(s: State)
    requires Reachable(s)
    ensures Count(s.threads, Owner) <= 1
    ensures s.inflight > 0 ==> exists t :: t in s.threads && Owner(s.threads[t])
    ensures s.inflight == 0 <==> s.commander.None? && forall t :: t in s.threads ==> !InFlight(s.threads[t])
  {
    ReachableInv(s);
    CountPositive(s.threads, Owner);
    CountPositive(s.threads, InFlight);
  }

  /** Tasks in the container are left either to a loop or to the last flush of one that is quitting. */
  lemma ContainerIsWatched(s: State)
    requires Reachable(s) && s.container != {}
    ensures exists t :: t in s.threads && (Owner(s.threads[t]) || LastFlushAhead(s.threads[t]))
  {
    ReachableInv(s);
    CountPositive(s.threads, Owner);
  }

  // ---- what Wait guarantees --------------------------------------------------------------------

  /** If nothing added before the call was outside the wait group at the waiter's RemoveAll, then on return
      everything added before the call has been executed. */
  lemma WaitGuarantee(s: State, t: Tid)
    requires Reachable(s) && t in s.threads && s.threads[t].Waited? && s.threads[t].safe
    ensures forall x :: x in s.threads[t].before ==> x in s.done
  {
    ReachableInv(s);
    assert forall x :: x in s.threads[t].before ==> SafeWaiter(s.threads[t], x);
  }

  ghost predicate NoAdds(s: State) {
    forall t :: t in s.threads ==> !AddInProgress(s.threads[t])
  }

  /** When no Add is in progress nothing is outside the wait group. */
  lemma NoAddMeansSafe(s: State, before: set<Task>)
    requires Inv(s) && NoAdds(s)
    ensures SafeFor(s, before)
  {
    CountPositive(s.threads, AwaitsConfirm);
    CountPositive(s.threads, Unconfirmed);
    forall t | t in s.threads ensures Held(s.threads[t]) == {} || Entered(s.threads[t]) {
      assert !AwaitsConfirm(s.threads[t]) && !Unconfirmed(s.threads[t]);
    }
  }

  ghost predicate SafeStart(s: State) {
    Reachable(s) && NoAdds(s)
  }

  /** That no Add is in progress when Wait is called is not enough: an Add that starts afterwards can take an
      earlier task out of the container before the waiter does, and Wait returns without it. */
  lemma WaitCanMissATask() returns (s: State, steps: seq<Step>, end: State)
    ensures SafeStart(s) && steps != [] && steps[0] == CallWait(2) && Reaches(s, steps, end)
    ensures 2 in end.threads && end.threads[2].Waited? && 7 in end.threads[2].before && 7 !in end.done
  {
    hide Enabled, Do, Inv, Unentered;
    s := QuietStart();
    var first, mid := AddOvertakes(s);
    ReachableInv(s);
    RunKeepsInv(s, first, mid);
    var second, last := UnsafeCanMiss(mid, 2, 7);
    ReachesAppend(s, first, mid, second, last);
    steps, end := first + second, last;
  }

  /** One task added, its goroutine started, Add returned. */
  lemma QuietStart() returns (s: State)
    ensures SafeStart(s) &&
            s == State({7}, None, 0, true, 0, None, map[0 := Returned, 1 := Selecting(false)], {7}, multiset{})
  {
    var s1 := START.(container := {7}, guarded := true, added := {7}, threads := map[0 := Added(None, true)]);
    var s2 := s1.(threads := map[0 := Added(None, false), 1 := Selecting(false)]);
    s := s1.(threads := map[0 := Returned, 1 := Selecting(false)]);
    OneStep(s2, [AddReturns(0)], s);
    OneStep(s1, [Spawn(0, 1), AddReturns(0)], s);
    assert Do(START, AddTask(0, 7, false)) == s1;
    OneStep(START, [AddTask(0, 7, false), Spawn(0, 1), AddReturns(0)], s);
  }

  lemma AddOvertakes(s: State) returns (steps: seq<Step>, end: State)
    requires s == State({7}, None, 0, true, 0, None, map[0 := Returned, 1 := Selecting(false)], {7}, multiset{})
    ensures steps != [] && steps[0] == CallWait(2) && Reaches(s, steps, end)
    ensures 2 in end.threads && end.threads[2] == FlushRemove(Waiter({7}, false))
    ensures Unentered(end, 7)
  {
    steps := [CallWait(2), EnterFlush(2), AddTask(3, 8, true)];
    var s1 := Do(s, steps[0]);
    var s2 := Do(s1, steps[1]);
    end := Do(s2, steps[2]);
    OneStep(s2, steps[2..], end);
    OneStep(s1, steps[1..], end);
    assert 7 in Held(end.threads[3]) && !Entered(end.threads[3]);
  }

  lemma OneStep(s: State, steps: seq<Step>, end: State)
    requires steps != [] && Enabled(s, steps[0]) && Reaches(Do(s, steps[0]), steps[1..], end)
    ensures Reaches(s, steps, end)
  {
  }

  // ---- the condition is exact --------------------------------------------------------------------

  /** Thread t is a waiter past its RemoveAll. */
  ghost predicate Past(s: State, t: Tid, before: set<Task>, safe: bool) {
    t in s.threads &&
    match s.threads[t]
    case Executing(_, Waiter(b, f)) => b == before && f == safe
    case Leaving(Waiter(b, f), _) => b == before && f == safe
    case WaitBarrier(b, f) => b == before && f == safe
    case Waiting(b, f) => b == before && f == safe
    case Waited(b, f) => b == before && f == safe
    case _ => false
  }

  lemma PastStep(s: State, step: Step, t: Tid, before: set<Task>, safe: bool)
    requires Past(s, t, before, safe) && Enabled(s, step)
    ensures Past(Do(s, step), t, before, safe)
  {
  }

  lemma {:induction false} PastRun(s: State, steps: seq<Step>, end: State, t: Tid, before: set<Task>, safe: bool)
    requires Past(s, t, before, safe) && Reaches(s, steps, end)
    ensures Past(end, t, before, safe)
    decreases |steps|
  {
    hide Past, Enabled, Do;
    if steps != [] {
      PastStep(s, steps[0], t, before, safe);
      PastRun(Do(s, steps[0]), steps[1..], end, t, before, safe);
    }
  }

  lemma {:induction false} ReachesAppend(s: State, a: seq<Step>, mid: State, b: seq<Step>, end: State)
    requires Reaches(s, a, mid) && Reaches(mid, b, end)
    ensures Reaches(s, a + b, end)
    decreases |a|
  {
    hide Enabled, Do;
    if a == [] {
      assert a + b == b;
    } else {
      ReachesAppend(Do(s, a[0]), a[1..], mid, b, end);
      assert (a + b)[1..] == a[1..] + b;
    }
  }

  /** The waiter t, past its RemoveAll or not in Flush yet, can still return without x: x is outside the wait group. */
  ghost predicate Missing(s: State, t: Tid, before: set<Task>, x: Task, past: bool) {
    Inv(s) && (if past then Past(s, t, before, false) else AtFlush(s, t, before)) && Unentered(s, x)
  }

  ghost predicate AtFlush(s: State, t: Tid, before: set<Task>) {
    t in s.threads && s.threads[t] == FlushEnter(Waiter(before, false))
  }

  /** Only EnterCommand brings a batch into the wait group. */
  lemma UnenteredStays(s: State, step: Step, x: Task)
    requires Enabled(s, step) && Unentered(s, x) && !step.EnterCommand?
    ensures Unentered(Do(s, step), x)
  {
    var s' := Do(s, step);
    if s.commander.Some? && x in s.commander.value {
      assert step.Receive? ==> x in Held(s'.threads[step.t]);
    } else {
      var u :| u in s.threads && x in Held(s.threads[u]) && !Entered(s.threads[u]);
      assert u in s'.threads && (step != Send(u) ==> x in Held(s'.threads[u]) && !Entered(s'.threads[u]));
    }
  }

  lemma MissingStep(s: State, step: Step, t: Tid, before: set<Task>, x: Task, past: bool)
    requires Missing(s, t, before, x, past) && Enabled(s, step) && !step.EnterCommand? && step != EnterFlush(t)
    ensures Missing(Do(s, step), t, before, x, past)
  {
    hide Inv, Past, AtFlush, Unentered, Enabled, Do;
    InvStep(s, step);
    if past {
      PastStep(s, step, t, before, false);
    } else {
      AtFlushStep(s, step, t, before);
    }
    UnenteredStays(s, step, x);
  }

  lemma AtFlushStep(s: State, step: Step, t: Tid, before: set<Task>)
    requires AtFlush(s, t, before) && Enabled(s, step) && step != EnterFlush(t)
    ensures AtFlush(Do(s, step), t, before)
  {
  }

  ghost function StepsLeft(pc: Pc): (r: nat) {
    match pc
    case Confirm(_) => 3
    case FlushRemove(_) => 3
    case Executing(_, _) => 2
    case Leaving(_, _) => 1
    case _ => 0
  }

  /** The next step of a goroutine the wait group counts. */
  lemma NextStep(s: State, u: Tid) returns (step: Step)
    requires Inv(s) && u in s.threads && Entered(s.threads[u])
    ensures Enabled(s, step) && (step.Leave? || step.Execute? || step.RemoveAll? || step.Handshake?)
    ensures StepsLeft(Do(s, step).threads[u]) == StepsLeft(s.threads[u]) - 1
    ensures Do(s, step).waitGroup == if s.threads[u].Leaving? then s.waitGroup - 1 else s.waitGroup
    ensures Do(s, step).threads.Keys == s.threads.Keys
    ensures !s.threads[u].Leaving? ==> Entered(Do(s, step).threads[u])
  {
    match s.threads[u] {
      case Confirm(_) =>
        var adder := SomeoneConfirming(s, u);
        step := Handshake(u, adder);
      case FlushRemove(_) => step := RemoveAll(u);
      case Executing(_, _) => step := Execute(u);
      case Leaving(_, _) => step := Leave(u);
    }
    hide Inv, Entered;
    Advances(s, u, step);
    hide Do;
  }

  lemma Advances(s: State, u: Tid, step: Step)
    requires Enabled(s, step) && (step.Leave? || step.Execute? || step.RemoveAll? || step.Handshake?) && step.t == u
    ensures var before, after := s.threads[u], Do(s, step).threads[u];
            && StepsLeft(after) == StepsLeft(before) - 1
            && Do(s, step).waitGroup == (if before.Leaving? then s.waitGroup - 1 else s.waitGroup)
            && (!before.Leaving? ==> Entered(after))
    ensures Do(s, step).threads.Keys == s.threads.Keys
  {
  }

  /** A confirm never lacks the Add that waits for it. */
  lemma SomeoneConfirming(s: State, u: Tid) returns (adder: Tid)
    requires Counted(s) && u in s.threads && s.threads[u].Confirm?
    ensures adder in s.threads && s.threads[adder].Confirming?
  {
    CountPositive(s.threads, Unconfirmed);
    CountPositive(s.threads, AwaitsConfirm);
    assert Unconfirmed(s.threads[u]);
    adder :| adder in s.threads && AwaitsConfirm(s.threads[adder]);
  }

  lemma {:induction false} FinishOne(s: State, u: Tid, t: Tid, before: set<Task>, x: Task, past: bool)
    returns (steps: seq<Step>, end: State)
    requires Missing(s, t, before, x, past) && u in s.threads && Entered(s.threads[u])
    ensures Reaches(s, steps, end) && Missing(end, t, before, x, past) && end.waitGroup == s.waitGroup - 1
    decreases StepsLeft(s.threads[u])
  {
    hide Inv, Past, AtFlush, Unentered, Enabled, Do;
    var step := NextStep(s, u);
    var next := Do(s, step);
    MissingStep(s, step, t, before, x, past);
    if s.threads[u].Leaving? {
      steps, end := [], next;
    } else {
      steps, end := FinishOne(next, u, t, before, x, past);
    }
    assert ([step] + steps)[1..] == steps;
    steps := [step] + steps;
  }

  /** Everything that the wait group counts can finish first. */
  lemma {:induction false} FinishAll(s: State, t: Tid, before: set<Task>, x: Task, past: bool)
    returns (steps: seq<Step>, end: State)
    requires Missing(s, t, before, x, past)
    ensures Reaches(s, steps, end) && Missing(end, t, before, x, past) && end.waitGroup == 0
    decreases s.waitGroup
  {
    hide Past, AtFlush, Unentered, Enabled, Do;
    CountPositive(s.threads, Entered);
    if s.waitGroup == 0 {
      steps, end := [], s;
    } else {
      var u :| u in s.threads && Entered(s.threads[u]);
      var first, mid := FinishOne(s, u, t, before, x, past);
      var rest, last := FinishAll(mid, t, before, x, past);
      ReachesAppend(s, first, mid, rest, last);
      steps, end := first + rest, last;
    }
  }

  /** With everything counted finished, the waiter returns, and x has not been executed. */
  lemma ReturnsWithout(s: State, t: Tid, before: set<Task>, x: Task) returns (steps: seq<Step>, end: State)
    requires Missing(s, t, before, x, true) && s.waitGroup == 0
    ensures Reaches(s, steps, end) && Missing(end, t, before, x, true) && end.threads[t].Waited?
  {
    CountPositive(s.threads, Entered);
    if s.threads[t].Waited? {
      return [], s;
    }
    if s.threads[t].WaitBarrier? && s.barrier.Some? {
      steps, end := OneMore(s, WaitReturns(s.barrier.value), t, before, x);
      var more, last := ReturnsFrom(end, t, before, x);
      ReachesAppend(s, steps, end, more, last);
      return steps + more, last;
    }
    steps, end := ReturnsFrom(s, t, before, x);
  }

  lemma OneMore(s: State, step: Step, t: Tid, before: set<Task>, x: Task) returns (steps: seq<Step>, end: State)
    requires Missing(s, t, before, x, true) && Enabled(s, step) && (step.TakeBarrier? || step.WaitReturns?)
    ensures steps == [step] && end == Do(s, step) && Reaches(s, steps, end) && Missing(end, t, before, x, true)
  {
    steps, end := [step], Do(s, step);
    MissingStep(s, step, t, before, x, true);
  }

  lemma ReturnsFrom(s: State, t: Tid, before: set<Task>, x: Task) returns (steps: seq<Step>, end: State)
    requires Missing(s, t, before, x, true) && s.waitGroup == 0
    requires s.threads[t].Waiting? || (s.threads[t].WaitBarrier? && s.barrier.None?)
    ensures Reaches(s, steps, end) && Missing(end, t, before, x, true) && end.threads[t].Waited?
  {
    if s.threads[t].Waiting? {
      steps, end := OneMore(s, WaitReturns(t), t, before, x);
    } else {
      var first, mid := OneMore(s, TakeBarrier(t), t, before, x);
      var second, last := OneMore(mid, WaitReturns(t), t, before, x);
      ReachesAppend(s, first, mid, second, last);
      steps, end := first + second, last;
    }
  }

  lemma CanMiss(s: State, t: Tid, before: set<Task>, x: Task) returns (steps: seq<Step>, end: State)
    requires Missing(s, t, before, x, true)
    ensures Reaches(s, steps, end) && Missing(end, t, before, x, true) && end.threads[t].Waited?
  {
    hide Missing, Reaches;
    var first, mid := FinishAll(s, t, before, x, true);
    var rest, last := ReturnsWithout(mid, t, before, x);
    ReachesAppend(s, first, mid, rest, last);
    steps, end := first + rest, last;
  }

  /** Whatever happens from the RemoveAll of waiter t on, if Wait returns then all of `before` is executed. */
  ghost predicate AlwaysComplete(s: State, t: Tid, before: set<Task>) {
    forall steps, end ::
      (steps != [] && steps[0] == RemoveAll(t) && Reaches(s, steps, end) && t in end.threads
       && end.threads[t].Waited?)
      ==> forall x :: x in before ==> x in end.done
  }

  lemma SafeIsComplete(s: State, t: Tid, steps: seq<Step>, end: State, x: Task)
    requires Inv(s) && t in s.threads && s.threads[t].FlushRemove? && s.threads[t].caller.Waiter?
    requires SafeFor(s, s.threads[t].caller.before) && x in s.threads[t].caller.before
    requires steps != [] && steps[0] == RemoveAll(t) && Reaches(s, steps, end)
    requires t in end.threads && end.threads[t].Waited?
    ensures x in end.done
  {
    var next := Do(s, RemoveAll(t));
    var before := s.threads[t].caller.before;
    assert Past(next, t, before, true);
    hide Enabled, Do;
    InvStep(s, RemoveAll(t));
    RunKeepsInv(next, steps[1..], end);
    PastRun(next, steps[1..], end, t, before, true);
    assert SafeWaiter(end.threads[t], x);
  }

  lemma UnsafeCanMiss(s: State, t: Tid, x: Task) returns (steps: seq<Step>, end: State)
    requires Inv(s) && t in s.threads && s.threads[t].FlushRemove? && s.threads[t].caller.Waiter?
    requires x in s.threads[t].caller.before && Unentered(s, x)
    ensures steps != [] && steps[0] == RemoveAll(t) && Reaches(s, steps, end)
    ensures t in end.threads && end.threads[t].Waited? && x !in end.done
    ensures end.threads[t].before == s.threads[t].caller.before
  {
    assert Enabled(s, RemoveAll(t));
    hide Enabled, Do, Past, Inv, Unentered, Reaches;
    InvStep(s, RemoveAll(t));
    NotesUnsafe(s, t, x);
    UnenteredStays(s, RemoveAll(t), x);
    var rest: seq<Step>;
    rest, end := CanMiss(Do(s, RemoveAll(t)), t, s.threads[t].caller.before, x);
    steps := [RemoveAll(t)] + rest;
    assert steps[1..] == rest;
    OneStep(s, steps, end);
    MissingIsUndone(end, t, s.threads[t].caller.before, x);
  }

  lemma NotesUnsafe(s: State, t: Tid, x: Task)
    requires Enabled(s, RemoveAll(t)) && s.threads[t].caller.Waiter?
    requires x in s.threads[t].caller.before && Unentered(s, x)
    ensures Past(Do(s, RemoveAll(t)), t, s.threads[t].caller.before, false)
  {
    assert !SafeFor(s, s.threads[t].caller.before);
  }

  /** At its RemoveAll, Wait is certain to return with everything added before the call executed if and only
      if nothing of that is outside the wait group at this point. */
  lemma WaitIsExact(s: State, t: Tid)
    requires Reachable(s) && t in s.threads && s.threads[t].FlushRemove? && s.threads[t].caller.Waiter?
    ensures SafeFor(s, s.threads[t].caller.before) <==> AlwaysComplete(s, t, s.threads[t].caller.before)
  {
    hide Enabled, Do, Inv, Unentered, Reaches;
    ReachableInv(s);
    var before := s.threads[t].caller.before;
    if SafeFor(s, before) {
      forall steps, end, x | steps != [] && steps[0] == RemoveAll(t) && Reaches(s, steps, end)
                             && t in end.threads && end.threads[t].Waited? && x in before
        ensures x in end.done
      {
        SafeIsComplete(s, t, steps, end, x);
      }
    } else {
      var x :| x in before && Unentered(s, x);
      var steps, end := UnsafeCanMiss(s, t, x);
    }
  }

  lemma MissingIsUndone(s: State, t: Tid, before: set<Task>, x: Task)
    requires Missing(s, t, before, x, true)
    ensures t in s.threads && x !in s.done
    ensures s.threads[t].Waited? ==> s.threads[t].before == before
  {
  }

  // ---- the condition at the call -----------------------------------------------------------------

  /** No Add starts before waiter t empties the container. */
  ghost predicate NoAddUntil(steps: seq<Step>, t: Tid)
    decreases |steps|
  {
    steps == [] || steps[0] == RemoveAll(t) || (!steps[0].AddTask? && NoAddUntil(steps[1..], t))
  }

  /** Waiter t has not emptied the container yet. */
  ghost predicate BeforeRemoveAll(s: State, t: Tid, before: set<Task>) {
    t in s.threads && (s.threads[t] == FlushEnter(Waiter(before, false)) ||
                       s.threads[t] == FlushRemove(Waiter(before, false)))
  }

  lemma AheadStep(s: State, step: Step, t: Tid, before: set<Task>)
    requires BeforeRemoveAll(s, t, before) && NoAdds(s) && Enabled(s, step) && step != RemoveAll(t) && !step.AddTask?
    ensures BeforeRemoveAll(Do(s, step), t, before) && NoAdds(Do(s, step))
  {
  }

  lemma {:induction false} AheadRun(s: State, steps: seq<Step>, end: State, t: Tid, before: set<Task>)
    requires Inv(s) && BeforeRemoveAll(s, t, before) && NoAdds(s) && NoAddUntil(steps, t)
    requires Reaches(s, steps, end) && t in end.threads && end.threads[t].Waited?
    ensures forall x :: x in before ==> x in end.done
    decreases |steps|
  {
    hide Inv, Enabled, Do, NoAdds;
    if steps[0] == RemoveAll(t) {
      NoAddMeansSafe(s, before);
      RemovesAt(s, t, before);
      forall x | x in before ensures x in end.done {
        SafeIsComplete(s, t, steps, end, x);
      }
    } else {
      AheadStep(s, steps[0], t, before);
      InvStep(s, steps[0]);
      AheadRun(Do(s, steps[0]), steps[1..], end, t, before);
    }
  }

  lemma RemovesAt(s: State, t: Tid, before: set<Task>)
    requires BeforeRemoveAll(s, t, before) && Enabled(s, RemoveAll(t))
    ensures s.threads[t] == FlushRemove(Waiter(before, false))
  {
  }

  lemma WaitCalled(s: State, t: Tid)
    requires Enabled(s, CallWait(t)) && NoAdds(s)
    ensures BeforeRemoveAll(Do(s, CallWait(t)), t, s.added) && NoAdds(Do(s, CallWait(t)))
  {
  }

  /** If no Add is in progress when Wait is called and none starts before Wait has emptied the container, then on return
      every task added before the call has been executed. */
  lemma WaitAfterAdds(s: State, t: Tid, steps: seq<Step>, end: State)
    requires Reachable(s) && NoAdds(s) && steps != [] && steps[0] == CallWait(t) && Reaches(s, steps, end)
    requires NoAddUntil(steps, t) && t in end.threads && end.threads[t].Waited?
    ensures forall x :: x in s.added ==> x in end.done
  {
    ReachableInv(s);
    InvStep(s, CallWait(t));
    WaitCalled(s, t);
    hide Inv, Enabled, Do, BeforeRemoveAll, NoAdds;
    AheadRun(Do(s, CallWait(t)), steps[1..], end, t, s.added);
  }

  // ---- exactly what Wait guarantees at its call ----------------------------------------------------

  /** Whatever happens from the call on, if Wait returns then x is executed. */
  ghost predicate AlwaysExecuted(s: State, t: Tid, x: Task) {
    forall steps, end ::
      (steps != [] && steps[0] == CallWait(t) && Reaches(s, steps, end) && t in end.threads && end.threads[t].Waited?)
      ==> x in end.done
  }

  /** What the wait group counts when Wait is called, or before, is executed when it returns. */
  lemma {:induction false} CoveredRun(s: State, steps: seq<Step>, end: State, t: Tid, x: Task)
    requires Inv(s) && Covered(s, x) && (t in s.threads && s.threads[t].Waited? ==> x in s.done)
    requires Reaches(s, steps, end) && t in end.threads && end.threads[t].Waited?
    ensures x in end.done
    decreases |steps|
  {
    hide Placed, Counted, Watched, BarrierHeld, WaitersCovered, Covered, Enabled, Do;
    if steps != [] {
      var next := Do(s, steps[0]);
      InvStep(s, steps[0]);
      CoveredNext(s, steps[0], t, x);
      CoveredRun(next, steps[1..], end, t, x);
    }
  }

  lemma CoveredNext(s: State, step: Step, t: Tid, x: Task)
    requires Placed(s) && Counted(s) && Enabled(s, step)
    requires Covered(s, x) && (t in s.threads && s.threads[t].Waited? ==> x in s.done)
    ensures Covered(Do(s, step), x)
    ensures var next := Do(s, step); t in next.threads && next.threads[t].Waited? ==> x in next.done
  {
    hide Enabled, Do, Covered, Placed, Counted;
    CoveredStep(s, step, x);
    if t in Do(s, step).threads && Do(s, step).threads[t].Waited? {
      StaysWaited(s, step, t);
      if step == WaitReturns(t) {
        ReturnMeansDone(s, t, x);
      }
    }
  }

  /** A task that is not covered when Wait is called gets, or is, outside the wait group before the waiter looks. */
  lemma CallMisses(s: State, t: Tid, x: Task) returns (steps: seq<Step>, end: State)
    requires Inv(s) && t !in s.threads && x in s.added && !Covered(s, x)
    ensures steps != [] && steps[0] == CallWait(t) && Reaches(s, steps, end) && Missing(end, t, s.added, x, false)
  {
    hide Inv, Covered, Unentered, Reaches, AtFlush, Enabled, Do;
    CallsWait(s, t);
    steps, end := [CallWait(t)], Do(s, CallWait(t));
    InvStep(s, CallWait(t));
    OneStep(s, steps, end);
    if Unentered(s, x) {
      UnenteredStays(s, CallWait(t), x);
    } else {
      ContainedUnlessHeld(s, x);
      var u := FreshTid(end.threads);
      var y := FreshNat(s.added);
      Overtakes(end, t, s.added, x, u, y);
      var last := Do(end, AddTask(u, y, true));
      InvStep(end, AddTask(u, y, true));
      OneStep(end, [AddTask(u, y, true)], last);
      ReachesAppend(s, steps, end, [AddTask(u, y, true)], last);
      steps, end := steps + [AddTask(u, y, true)], last;
    }
  }

  lemma CallsWait(s: State, t: Tid)
    requires t !in s.threads
    ensures Enabled(s, CallWait(t)) && AtFlush(Do(s, CallWait(t)), t, s.added)
    ensures Do(s, CallWait(t)).container == s.container && Do(s, CallWait(t)).added == s.added
  {
  }

  lemma ContainedUnlessHeld(s: State, x: Task)
    requires Inv(s) && x in s.added && !Covered(s, x) && !Unentered(s, x)
    ensures x in s.container
  {
    hide Counted, Watched, BarrierHeld, WaitersCovered, Held, Entered;
  }

  /** An Add that fills the container takes all of it before waiter t does. */
  lemma Overtakes(s: State, t: Tid, before: set<Task>, x: Task, u: Tid, y: Task)
    requires AtFlush(s, t, before) && x in s.container && u !in s.threads && y !in s.added
    ensures Enabled(s, AddTask(u, y, true)) && AtFlush(Do(s, AddTask(u, y, true)), t, before)
    ensures Unentered(Do(s, AddTask(u, y, true)), x)
  {
    var next := Do(s, AddTask(u, y, true));
    assert u in next.threads && x in Held(next.threads[u]) && !Entered(next.threads[u]);
  }

  /** The waiter gets past the barrier with x still outside. */
  lemma EntersMissing(s: State, t: Tid, before: set<Task>, x: Task) returns (steps: seq<Step>, end: State)
    requires Missing(s, t, before, x, false)
    ensures Reaches(s, steps, end) && Inv(end) && Unentered(end, x)
    ensures t in end.threads && end.threads[t] == FlushRemove(Waiter(before, false))
  {
    hide Inv, Unentered, Reaches;
    var first, mid := BarrierIsFree(s, t, before, x);
    assert Enabled(mid, EnterFlush(t));
    end := Do(mid, EnterFlush(t));
    InvStep(mid, EnterFlush(t));
    UnenteredStays(mid, EnterFlush(t), x);
    OneStep(mid, [EnterFlush(t)], end);
    ReachesAppend(s, first, mid, [EnterFlush(t)], end);
    steps := first + [EnterFlush(t)];
  }

  lemma BarrierIsFree(s: State, t: Tid, before: set<Task>, x: Task) returns (steps: seq<Step>, end: State)
    requires Missing(s, t, before, x, false)
    ensures Reaches(s, steps, end) && Missing(end, t, before, x, false) && end.barrier.None?
  {
    hide Missing, Reaches, Enabled, Do;
    steps, end := FinishAll(s, t, before, x, false);
    if end.barrier.Some? {
      var step, mid := WaitReturns(end.barrier.value), end;
      HolderReturns(mid, t, before, x);
      OneStep(mid, [step], Do(mid, step));
      MissingStep(mid, step, t, before, x, false);
      ReachesAppend(s, steps, mid, [step], Do(mid, step));
      steps, end := steps + [step], Do(mid, step);
    }
  }

  lemma HolderReturns(s: State, t: Tid, before: set<Task>, x: Task)
    requires Missing(s, t, before, x, false) && s.barrier.Some? && s.waitGroup == 0
    ensures Enabled(s, WaitReturns(s.barrier.value)) && Do(s, WaitReturns(s.barrier.value)).barrier.None?
  {
    WaiterCanReturn(s);
  }

  /** At its call, Wait is certain to return with x executed if and only if x is executed already or in the hand of a
      goroutine that the wait group counts. So it never is for what is still in the container. */
  lemma WaitIsExactAtCall(s: State, t: Tid, x: Task)
    requires Reachable(s) && t !in s.threads && x in s.added
    ensures AlwaysExecuted(s, t, x) <==> Covered(s, x)
    ensures x in s.container ==> !AlwaysExecuted(s, t, x)
  {
    hide Inv, Covered, Reaches, Enabled, Do, Unentered;
    ReachableInv(s);
    if Covered(s, x) {
      forall steps, end | steps != [] && steps[0] == CallWait(t) && Reaches(s, steps, end) && t in end.threads
                          && end.threads[t].Waited?
        ensures x in end.done
      {
        CoveredRun(s, steps, end, t, x);
      }
    } else {
      var steps, end := CallCanMiss(s, t, x);
    }
    ContainedIsNotCovered(s, x);
  }

  lemma ContainedIsNotCovered(s: State, x: Task)
    requires Inv(s)
    ensures x in s.container ==> !Covered(s, x)
  {
    hide Counted, Watched, BarrierHeld, WaitersCovered;
  }

  lemma CallCanMiss(s: State, t: Tid, x: Task) returns (steps: seq<Step>, end: State)
    requires Inv(s) && t !in s.threads && x in s.added && !Covered(s, x)
    ensures steps != [] && steps[0] == CallWait(t) && Reaches(s, steps, end)
    ensures t in end.threads && end.threads[t].Waited? && x !in end.done
  {
    hide Inv, Covered, Reaches, Enabled, Do, Unentered, Missing;
    var first, called := CallMisses(s, t, x);
    var second, entered := EntersMissing(called, t, s.added, x);
    var third, last := UnsafeCanMiss(entered, t, x);
    ReachesAppend(called, second, entered, third, last);
    ReachesAppend(s, first, called, second + third, last);
    steps, end := first + (second + third), last;
  }

  // ---- no deadlock -------------------------------------------------------------------------------

  /** A step that goroutines under way take on their own, without a new call or a tick. */
  ghost predicate Internal(step: Step) {
    !step.AddTask? && !step.CallFlush? && !step.CallWait? && !step.TickFires?
  }

  ghost predicate Stuck(s: State) {
    forall step :: Internal(step) ==> !Enabled(s, step)
  }

  lemma FreshTid(threads: map<Tid, Pc>) returns (t: Tid)
    ensures t !in threads
  {
    t := FreshNat(threads.Keys);
  }

  lemma {:induction false} FreshNat(s: set<nat>) returns (n: nat)
    ensures forall x :: x in s ==> x < n
    decreases |s|
  {
    if s == {} {
      n := 0;
    } else {
      var x :| x in s;
      n := FreshNat(s - {x});
      assert forall y :: y in s ==> y == x || y in s - {x};
      n := if n <= x then x + 1 else n;
    }
  }

  /** Nothing is executing, and nobody waits for that. */
  lemma StuckBarrier(s: State)
    requires Inv(s) && Stuck(s)
    ensures s.barrier.None? && s.waitGroup == 0 && forall t :: t in s.threads ==> !Entered(s.threads[t])
  {
    CountPositive(s.threads, Entered);
    if u :| u in s.threads && Entered(s.threads[u]) {
      var step := NextStep(s, u);
      assert false;
    }
    if s.barrier.Some? {
      WaiterCanReturn(s);
    }
  }

  lemma WaiterCanReturn(s: State)
    requires BarrierHeld(s) && s.barrier.Some? && s.waitGroup == 0
    ensures Enabled(s, WaitReturns(s.barrier.value))
  {
  }

  /** The next step of a goroutine outside the wait group that need not wait for another one. */
  ghost function NextOf(t: Tid, pc: Pc, loop: Tid): (r: Step) {
    match pc
    case Added(_, true) => Spawn(t, loop)
    case Added(None, false) => AddReturns(t)
    case Added(Some(_), false) => Send(t)
    case Selecting(_) => Receive(t)
    case Received(_) => Decrement(t)
    case Entering(_) => EnterCommand(t)
    case FlushEnter(_) => EnterFlush(t)
    case ShallQuit => CheckQuit(t, false)
    case _ => TakeBarrier(t)
  }

  lemma StuckThread(s: State, t: Tid)
    requires Stuck(s) && t in s.threads && !Entered(s.threads[t]) && s.barrier.None?
    ensures var pc := s.threads[t];
            || pc.Returned? || pc.Waited? || pc.Waiting? || pc.Confirming?
            || (pc.Selecting? && s.commander.None?)
            || (pc.Added? && !pc.spawn && pc.vals.Some? && s.commander.Some?)
  {
    var loop := FreshTid(s.threads);
    assert !Enabled(s, NextOf(t, s.threads[t], loop));
  }

  lemma StuckCommander(s: State)
    requires Inv(s) && Stuck(s)
    ensures s.commander.None?
  {
    StuckBarrier(s);
    CountPositive(s.threads, Owner);
    if s.commander.Some? {
      var t :| t in s.threads && Owner(s.threads[t]);
      StuckThread(s, t);
    }
  }

  /** No deadlock: when no goroutine can move on its own, every call of Add, Flush and Wait has returned, and of the
      background loops at most one is left, at its select. */
  lemma OnlyCallsAndTicksAreMissing(s: State)
    requires Reachable(s) && Stuck(s)
    ensures forall t :: t in s.threads ==> s.threads[t].Returned? || s.threads[t].Waited? || s.threads[t].Selecting?
    ensures forall t, u :: t in s.threads && u in s.threads && s.threads[t].Selecting? && s.threads[u].Selecting? ==>
                             t == u
    ensures s.commander.None? && s.inflight == 0 && s.waitGroup == 0 && s.barrier.None?
  {
    ReachableInv(s);
    StuckBarrier(s);
    StuckCommander(s);
    hide Enabled, Do, Placed, Watched, WaitersCovered, Stuck;
    forall t | t in s.threads
      ensures s.threads[t].Returned? || s.threads[t].Waited? || s.threads[t].Confirming? || s.threads[t].Selecting?
    {
      StuckThread(s, t);
    }
    NoneConfirm(s);
    OneLoop(s);
  }

  lemma NoneConfirm(s: State)
    requires Counted(s) && s.commander.None?
    requires forall t :: t in s.threads ==>
                           var pc := s.threads[t];
                           pc.Returned? || pc.Waited? || pc.Confirming? || pc.Selecting?
    ensures s.inflight == 0 && forall t :: t in s.threads ==> !s.threads[t].Confirming?
  {
    assert forall t :: t in s.threads ==> (AwaitsConfirm(s.threads[t]) <==> s.threads[t].Confirming?);
    CountPositive(s.threads, InFlight);
    CountPositive(s.threads, Unconfirmed);
    CountPositive(s.threads, AwaitsConfirm);
  }

  lemma OneLoop(s: State)
    requires Counted(s)
    ensures forall t, u :: t in s.threads && u in s.threads && s.threads[t].Selecting? && s.threads[u].Selecting? ==>
                             t == u
  {
    forall t, u | t in s.threads && u in s.threads && s.threads[t].Selecting? && s.threads[u].Selecting?
      ensures t == u
    {
      if t != u {
        CountTwo(s.threads, Owner, t, u);
      }
    }
  }

  /** How many steps a goroutine can take on its own before it returns or waits. */
  ghost function PcWork(pc: Pc): (work: nat) {
    match pc
    case Added(vals, spawn) => (if vals.Some? then 7 else 1) + (if spawn then 1 else 0)
    case Received(_) => 5
    case Entering(_) => 4
    case Confirm(_) => 3
    case ShallQuit => 5
    case FlushEnter(caller) => 4 + AfterWork(caller)
    case FlushRemove(caller) => 3 + AfterWork(caller)
    case Executing(_, caller) => 2 + (if caller.Command? then 0 else AfterWork(caller))
    case Leaving(caller, _) => 1 + (if caller.Command? then 0 else AfterWork(caller))
    case WaitBarrier(_, _) => 2
    case Waiting(_, _) => 1
    case _ => 0
  }

  ghost function AfterWork(caller: Caller): (work: nat) {
    if caller.Tick? then 5 else if caller.Waiter? then 2 else 0
  }

  ghost function Work(s: State): (work: nat) {
    Sum(s.threads, PcWork) + if s.commander.Some? then 6 else 0
  }

  lemma MoveWorks(threads: map<Tid, Pc>, t: Tid, p: Pc)
    ensures Sum(threads[t := p], PcWork) + (if t in threads then PcWork(threads[t]) else 0)
         == Sum(threads, PcWork) + PcWork(p)
  {
    SumMove(threads, t, p, PcWork);
  }

  lemma InternalStepWorks(s: State, step: Step)
    requires Enabled(s, step) && Internal(step)
    ensures Work(Do(s, step)) < Work(s)
  {
    hide Sum;
    var s' := Do(s, step);
    var t := Mover(step);
    MoveWorks(s.threads, t, s'.threads[t]);
    if MovesTwo(step) {
      var u := if step.Spawn? then step.loop else step.t;
      var mid := s.threads[t := s'.threads[t]];
      MoveWorks(mid, u, s'.threads[u]);
      assert s'.threads == mid[u := s'.threads[u]];
    } else {
      assert s'.threads == s.threads[t := s'.threads[t]];
    }
  }

  /** Without new calls and ticks every run ends, in the states of OnlyCallsAndTicksAreMissing, after a bounded
      number of steps. */
  lemma {:induction false} RunsEnd(s: State, steps: seq<Step>, end: State)
    requires Reaches(s, steps, end) && forall k :: 0 <= k < |steps| ==> Internal(steps[k])
    ensures |steps| + Work(end) <= Work(s)
    decreases |steps|
  {
    hide Work, Enabled, Do, Internal;
    if steps != [] {
      InternalStepWorks(s, steps[0]);
      RunsEnd(Do(s, steps[0]), steps[1..], end);
    }
  }
}

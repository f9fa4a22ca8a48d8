/** core/threading/stablerunner.go, with the TaskRunner of taskrunner.go, as interleaved steps of one pusher, one
    getter, one caller of Wait and any number of workers. Every channel, lock and atomic operation is one step. */
module StableRunner {
  import opened Options
  import opened Threads
  import opened Arithmetic

  /** What stays fixed: the handler, the ring size and how many tasks may run at once. */
  datatype Runner<!I, !O> = Runner(handle: I -> O, size: nat, workers: nat)

  /** The one-slot channel, and the lock with the index of the message it is held for. */
  datatype Slot<O> = Slot(value: Option<O>, lock: Option<nat>)

  datatype Phase<O> = Running | Handled(o: O) | Sent | Unlocked | Finished

  datatype Pusher<I> = Idle | Checked(v: I) | Indexed(index: nat) | Locked(index: nat)

  datatype Getter<O> = Outside | Selecting(index: nat) | Draining(index: nat) | Took(o: O) | Failing

  datatype Waiting = NotCalled | Joining | Spinning | Returned

  /** `pushed` and `got` record the messages in the order of their indices and the results in the order of Get. */
  datatype State<I, O> = State(
    ring: seq<Slot<O>>,
    pushed: seq<I>,
    tasks: seq<Phase<O>>,
    tokens: nat,
    consumed: nat,
    got: seq<O>,
    failures: nat,
    done: bool,
    pusher: Pusher<I>,
    getter: Getter<O>,
    waiter: Waiting)

  datatype Step<I> =
    | CallPush(v: I)      // found done open
    | TakeIndex
    | Lock
    | Schedule
    | Handle(i: nat)
    | Send(i: nat)
    | Unlock(i: nat)
    | Finish(i: nat)
    | CallGet
    | Take                // receives from the slot
    | SeeDone
    | GetReturns
    | CallWait
    | Join
    | WaitReturns

  function Start<I, O>(r: Runner<I, O>): (result: State<I, O>) {
    State(seq(r.size, _ => Slot(None, None)), [], [], 0, 0, [], 0, false, Idle, Outside, NotCalled)
  }

  function Offset(index: nat, size: nat): (r: nat)
    requires size > 0
    ensures r < size
  {
    index % size
  }

  ghost predicate Shaped<I, O>(r: Runner<I, O>, s: State<I, O>) {
    r.size > 0 && |s.ring| == r.size
    && |s.tasks| + (if s.pusher.Indexed? || s.pusher.Locked? then 1 else 0) == |s.pushed|
    && ((s.pusher.Indexed? || s.pusher.Locked?) ==> s.pusher.index == |s.tasks|)
  }

  ghost function SlotOf<I, O>(r: Runner<I, O>, s: State<I, O>, i: nat): (result: Slot<O>)
    requires r.size > 0 && |s.ring| == r.size
  {
    s.ring[Offset(i, r.size)]
  }

  ghost predicate Enabled<I, O>(r: Runner<I, O>, s: State<I, O>, step: Step<I>) {
    Shaped(r, s) &&
    match step
    case CallPush(_) => s.pusher.Idle? && !s.done
    case TakeIndex => s.pusher.Checked?
    case Lock => s.pusher.Indexed? && SlotOf(r, s, s.pusher.index).lock.None?
    case Schedule => s.pusher.Locked? && s.tokens < r.workers
    case Handle(i) => i < |s.tasks| && s.tasks[i].Running?
    case Send(i) => i < |s.tasks| && s.tasks[i].Handled? && SlotOf(r, s, i).value.None?
    case Unlock(i) => i < |s.tasks| && s.tasks[i].Sent?
    case Finish(i) => i < |s.tasks| && s.tasks[i].Unlocked? && s.tokens > 0
    case CallGet => s.getter.Outside?
    case Take => (s.getter.Selecting? || s.getter.Draining?) && SlotOf(r, s, s.getter.index).value.Some?
    case SeeDone => s.getter.Selecting? && s.done
    case GetReturns => s.getter.Took? || s.getter.Failing?
    case CallWait => s.waiter.NotCalled? && s.pusher.Idle?
    case Join => s.waiter.Joining? && forall i :: 0 <= i < |s.tasks| ==> s.tasks[i].Finished?
    case WaitReturns => s.waiter.Spinning? && s.consumed >= |s.pushed|
  }

  ghost function WithSlot<I, O>(r: Runner<I, O>, s: State<I, O>, i: nat, slot: Slot<O>): (result: State<I, O>)
    requires r.size > 0 && |s.ring| == r.size
  {
    s.(ring := s.ring[Offset(i, r.size) := slot])
  }

  ghost function Do<I, O>(r: Runner<I, O>, s: State<I, O>, step: Step<I>): (result: State<I, O>)
    requires Enabled(r, s, step)
  {
    match step
    case CallPush(v) => s.(pusher := Checked(v))
    case TakeIndex => s.(pushed := s.pushed + [s.pusher.v], pusher := Indexed(|s.pushed|))
    case Lock =>
      var i := s.pusher.index;
      WithSlot(r, s, i, SlotOf(r, s, i).(lock := Some(i))).(pusher := Locked(i))
    case Schedule => s.(tokens := s.tokens + 1, tasks := s.tasks + [Running], pusher := Idle)
    case Handle(i) => s.(tasks := s.tasks[i := Handled(r.handle(s.pushed[i]))])
    case Send(i) =>
      WithSlot(r, s, i, SlotOf(r, s, i).(value := Some(s.tasks[i].o))).(tasks := s.tasks[i := Sent])
    case Unlock(i) => WithSlot(r, s, i, SlotOf(r, s, i).(lock := None)).(tasks := s.tasks[i := Unlocked])
    case Finish(i) => s.(tokens := s.tokens - 1, tasks := s.tasks[i := Finished])
    case CallGet => s.(getter := Selecting(s.consumed))
    case Take =>
      var i := s.getter.index;
      WithSlot(r, s, i, SlotOf(r, s, i).(value := None)).(getter := Took(SlotOf(r, s, i).value.value))
    case SeeDone => s.(getter := if s.consumed < |s.pushed| then Draining(s.getter.index) else Failing)
    case GetReturns =>
      s.(consumed := s.consumed + 1, getter := Outside,
      got := if s.getter.Took? then s.got + [s.getter.o] else s.got,
      failures := if s.getter.Failing? then s.failures + 1 else s.failures)
    case CallWait => s.(done := true, waiter := Joining)
    case Join => s.(waiter := Spinning)
    case WaitReturns => s.(waiter := Returned)
  }

  ghost predicate Reaches<I(!new), O(!new)>(r: Runner<I, O>, s: State<I, O>, steps: seq<Step<I>>, end: State<I, O>)
    decreases |steps|
  {
    if steps == [] then s == end
    else Enabled(r, s, steps[0]) && Reaches(r, Do(r, s, steps[0]), steps[1..], end)
  }

  ghost predicate Reachable<I(!new), O(!new)>(r: Runner<I, O>, s: State<I, O>) {
    exists steps :: Reaches(r, Start(r), steps, s)
  }

  // ---- the invariant ---------------------------------------------------------------------------

  ghost predicate IsSent<O>(p: Phase<O>) {
    p.Sent? || p.Unlocked? || p.Finished?
  }

  ghost predicate HoldsLock<I, O>(s: State<I, O>, i: nat) {
    if i < |s.tasks| then s.tasks[i].Running? || s.tasks[i].Handled? || s.tasks[i].Sent?
    else i == |s.tasks| && s.pusher.Locked?
  }

  /** The results taken out of the slots, those that Get is about to return included. */
  ghost function Taken<I, O>(s: State<I, O>): (r: nat) {
    |s.got| + if s.getter.Took? then 1 else 0
  }

  /** A lock belongs to the one message of its slot that is between Lock and Unlock. */
  ghost predicate Locks<I, O>(r: Runner<I, O>, s: State<I, O>)
    requires Shaped(r, s)
  {
    && (forall i: nat | HoldsLock(s, i) :: SlotOf(r, s, i).lock == Some(i))
    && (forall i: nat | i < r.size && s.ring[i].lock.Some? ::
          HoldsLock(s, s.ring[i].lock.value) && Offset(s.ring[i].lock.value, r.size) == i)
  }

  /** A message is locked after its predecessor in the slot was unlocked, and sent after that was taken. */
  ghost predicate InTurn<I, O>(r: Runner<I, O>, s: State<I, O>)
    requires Shaped(r, s)
  {
    && (forall i: nat | i < |s.tasks| :: InTurnAt(r, s, i))
    && (s.pusher.Locked? && |s.tasks| >= r.size ==> IsUnlocked(s.tasks[|s.tasks| - r.size]))
  }

  ghost predicate IsUnlocked<O>(p: Phase<O>) {
    p.Unlocked? || p.Finished?
  }

  ghost predicate InTurnAt<I, O>(r: Runner<I, O>, s: State<I, O>, i: nat)
    requires i < |s.tasks|
  {
    && (i + r.size < |s.tasks| ==> IsUnlocked(s.tasks[i]))
    && (IsSent(s.tasks[i]) ==> i < Taken(s) + r.size)
  }

  ghost function Awaited<I, O>(r: Runner<I, O>, s: State<I, O>, i: nat): (result: Option<O>)
    requires Shaped(r, s)
  {
    if i < |s.tasks| && IsSent(s.tasks[i]) then Some(r.handle(s.pushed[i])) else None
  }

  /** The slots hold the results sent and not taken. */
  ghost predicate Slots<I, O>(r: Runner<I, O>, s: State<I, O>)
    requires Shaped(r, s)
  {
    (forall i: nat | InWindow(r, s, i) :: SlotOf(r, s, i).value == Awaited(r, s, i))
  }

  ghost predicate InWindow<I, O>(r: Runner<I, O>, s: State<I, O>, i: nat) {
    Taken(s) <= i < Taken(s) + r.size
  }

  ghost predicate Results<I, O>(r: Runner<I, O>, s: State<I, O>)
    requires Shaped(r, s)
  {
    (forall i: nat | i < |s.tasks| :: ResultAt(r, s, i)) && Taken(s) <= |s.tasks|
  }

  /** A result is that of the handler, and was sent if it was taken. */
  ghost predicate ResultAt<I, O>(r: Runner<I, O>, s: State<I, O>, i: nat)
    requires Shaped(r, s) && i < |s.tasks|
  {
    (s.tasks[i].Handled? ==> s.tasks[i].o == r.handle(s.pushed[i])) && (i < Taken(s) ==> IsSent(s.tasks[i]))
  }

  /** What was taken came out in the order pushed, and Get failed only when nothing was left to take. */
  ghost predicate Outcome<I, O>(r: Runner<I, O>, s: State<I, O>)
    requires Shaped(r, s)
  {
    && Taken(s) <= |s.tasks|
    && (forall k: nat | k < |s.got| :: s.got[k] == r.handle(s.pushed[k]))
    && (s.getter.Took? ==> s.getter.o == r.handle(s.pushed[|s.got|]))
    && (s.getter.Selecting? || s.getter.Draining? ==> s.getter.index == s.consumed)
    && s.consumed == |s.got| + s.failures
    && (s.failures > 0 || s.getter.Failing? ==> s.done && |s.got| == |s.pushed|)
    && (s.getter.Draining? ==> s.consumed < |s.pushed|)
  }

  /** Wait is called while no Push is under way, and goes on when all tasks are finished. */
  ghost predicate Waits<I, O>(s: State<I, O>) {
    && (s.done ==> s.pusher.Idle?)
    && (s.done <==> !s.waiter.NotCalled?)
    && (s.waiter.Spinning? || s.waiter.Returned? ==> forall i :: 0 <= i < |s.tasks| ==> s.tasks[i].Finished?)
    && (s.waiter.Returned? ==> |s.got| == |s.pushed|)
  }

  ghost predicate Unfinished<O>(p: Phase<O>) {
    !p.Finished?
  }

  ghost predicate Tokens<I, O>(r: Runner<I, O>, s: State<I, O>) {
    s.tokens == CountAt(s.tasks, Unfinished) && s.tokens <= r.workers
  }

  ghost predicate Inv<I, O>(r: Runner<I, O>, s: State<I, O>) {
    Shaped(r, s) && Locks(r, s) && InTurn(r, s) && Slots(r, s) && Results(r, s) && Outcome(r, s)
    && Waits(s) && Tokens(r, s)
  }

  // ---- every step keeps it ---------------------------------------------------------------------

  lemma ShapedStep<I, O>(r: Runner<I, O>, s: State<I, O>, step: Step<I>)
    requires Enabled(r, s, step)
    ensures Shaped(r, Do(r, s, step))
  {
  }

  /** The steps that lock and unlock, and those that only go on holding or not holding. */
  lemma LocksStep<I, O>(r: Runner<I, O>, s: State<I, O>, step: Step<I>)
    requires Enabled(r, s, step) && Locks(r, s)
    ensures Shaped(r, Do(r, s, step)) && Locks(r, Do(r, s, step))
  {
    if step.Lock? || step.Unlock? {
      LockStep(r, s, step);
    } else {
      LockKept(r, s, step);
    }
    hide Locks, Enabled, Do;
  }

  lemma LockStep<I, O>(r: Runner<I, O>, s: State<I, O>, step: Step<I>)
    requires Enabled(r, s, step) && Locks(r, s) && (step.Lock? || step.Unlock?)
    ensures Shaped(r, Do(r, s, step)) && Locks(r, Do(r, s, step))
  {
    hide Offset;
  }

  lemma LockKept<I, O>(r: Runner<I, O>, s: State<I, O>, step: Step<I>)
    requires Enabled(r, s, step) && Locks(r, s) && !step.Lock? && !step.Unlock?
    ensures Shaped(r, Do(r, s, step)) && Locks(r, Do(r, s, step))
  {
    hide Offset;
    var s' := Do(r, s, step);
    forall i: nat ensures HoldsLock(s', i) <==> HoldsLock(s, i) {
    }
    hide HoldsLock;
  }

  /** Indices less than a ring apart are in different slots, indices a ring apart in the same. */
  lemma OffsetDistinct(i: nat, j: nat, size: nat)
    requires size > 0 && i < j < i + size
    ensures Offset(i, size) != Offset(j, size)
  {
    if i % size == j % size {
      assert j - i == (j / size - i / size) * size;
      QuotientIs(j - i, size, j / size - i / size, 0);
      QuotientIs(j - i, size, 0, j - i);
    }
  }

  lemma OffsetNext(i: nat, size: nat)
    requires size > 0
    ensures Offset(i + size, size) == Offset(i, size)
  {
    var q, m := i / size, i % size;
    assert i + size == (q + 1) * size + m;
    QuotientIs(i + size, size, q + 1, m);
  }

  lemma SlotsDiffer(size: nat, i: nat, lo: nat)
    requires size > 0 && lo <= i < lo + size
    ensures forall j: nat | lo <= j < lo + size && j != i :: Offset(j, size) != Offset(i, size)
  {
    forall j: nat | lo <= j < lo + size && j != i ensures Offset(j, size) != Offset(i, size) {
      if i < j {
        OffsetDistinct(i, j, size);
      } else {
        OffsetDistinct(j, i, size);
      }
    }
  }

  /** What Lock finds: the message before in the slot is unlocked. */
  lemma LockInTurn<I, O>(r: Runner<I, O>, s: State<I, O>)
    requires Enabled(r, s, Lock) && Locks(r, s)
    ensures |s.tasks| >= r.size ==> IsUnlocked(s.tasks[|s.tasks| - r.size])
  {
    hide Offset;
    var w := |s.tasks|;
    if w >= r.size {
      OffsetNext(w - r.size, r.size);
      assert !HoldsLock(s, w - r.size);
    }
  }

  lemma SendInTurn<I, O>(r: Runner<I, O>, s: State<I, O>, i: nat)
    requires Enabled(r, s, Send(i)) && InTurn(r, s) && Slots(r, s)
    ensures i < Taken(s) + r.size
  {
    hide Offset;
    if i >= r.size {
      OffsetNext(i - r.size, r.size);
      assert InTurnAt(r, s, i - r.size);
      assert Awaited(r, s, i - r.size).Some?;
      assert SlotOf(r, s, i - r.size) == SlotOf(r, s, i);
      assert !InWindow(r, s, i - r.size);
    }
  }

  lemma InTurnAtStep<I, O>(r: Runner<I, O>, s: State<I, O>, step: Step<I>, i: nat)
    requires Enabled(r, s, step) && InTurn(r, s) && i < |Do(r, s, step).tasks|
    requires step == Send(i) ==> i < Taken(s) + r.size
    ensures InTurnAt(r, Do(r, s, step), i)
  {
    hide Offset;
    assert i < |s.tasks| ==> InTurnAt(r, s, i);
  }

  lemma InTurnStep<I, O>(r: Runner<I, O>, s: State<I, O>, step: Step<I>)
    requires Enabled(r, s, step) && Locks(r, s) && InTurn(r, s) && Slots(r, s)
    ensures Shaped(r, Do(r, s, step)) && InTurn(r, Do(r, s, step))
  {
    hide Offset;
    if step == Lock {
      LockInTurn(r, s);
    }
    if step.Send? {
      SendInTurn(r, s, step.i);
    }
    hide Locks, Slots, InTurnAt;
    forall i: nat | i < |Do(r, s, step).tasks| ensures InTurnAt(r, Do(r, s, step), i) {
      InTurnAtStep(r, s, step, i);
    }
  }

  ghost predicate ChangesSlot<I>(step: Step<I>) {
    step.Send? || step.Take?
  }

  lemma SlotsQuiet<I, O>(r: Runner<I, O>, s: State<I, O>, step: Step<I>)
    requires Enabled(r, s, step) && Slots(r, s) && !ChangesSlot(step)
    ensures Shaped(r, Do(r, s, step)) && Slots(r, Do(r, s, step))
  {
    hide Offset;
    var s' := Do(r, s, step);
    forall i: nat | InWindow(r, s', i)
      ensures SlotOf(r, s', i).value == Awaited(r, s', i)
    {
      assert InWindow(r, s, i);
      assert SlotOf(r, s, i).value == SlotOf(r, s', i).value;
    }
  }

  lemma SlotsSend<I, O>(r: Runner<I, O>, s: State<I, O>, i: nat)
    requires Enabled(r, s, Send(i)) && InTurn(r, s) && Slots(r, s) && Results(r, s)
    ensures Slots(r, Do(r, s, Send(i)))
  {
    hide Offset;
    SendInTurn(r, s, i);
    hide InTurn;
    var s' := Do(r, s, Send(i));
    assert ResultAt(r, s, i);
    forall j: nat | InWindow(r, s', j)
      ensures SlotOf(r, s', j).value == Awaited(r, s', j)
    {
      assert InWindow(r, s, j);
      if j != i && i >= Taken(s) {
        SlotsDiffer(r.size, i, Taken(s));
        assert SlotOf(r, s, j).value == SlotOf(r, s', j).value;
      }
    }
  }

  lemma OffsetWindow(i: nat, lo: nat, size: nat) returns (j: nat)
    requires size > 0 && lo <= i
    ensures lo <= j < lo + size && Offset(j, size) == Offset(i, size)
    decreases i
  {
    if i < lo + size {
      j := i;
    } else {
      OffsetNext(i - size, size);
      j := OffsetWindow(i - size, lo, size);
    }
  }

  /** The message whose slot Get looks at is the next one to take. */
  lemma TakesNext<I, O>(r: Runner<I, O>, s: State<I, O>)
    requires Enabled(r, s, Take) && Slots(r, s) && Outcome(r, s)
    ensures s.getter.index == Taken(s) < |s.tasks| && IsSent(s.tasks[Taken(s)])
    ensures SlotOf(r, s, Taken(s)).value == Some(r.handle(s.pushed[Taken(s)]))
  {
    hide Offset;
    var i := OffsetWindow(s.getter.index, Taken(s), r.size);
    assert InWindow(r, s, i) && SlotOf(r, s, i).value.Some?;
  }

  lemma SlotsTake<I, O>(r: Runner<I, O>, s: State<I, O>)
    requires Enabled(r, s, Take) && InTurn(r, s) && Slots(r, s) && Outcome(r, s)
    ensures Slots(r, Do(r, s, Take))
  {
    hide Offset;
    TakesNext(r, s);
    hide Outcome;
    var s' := Do(r, s, Take);
    var t := Taken(s);
    OffsetNext(t, r.size);
    SlotsDiffer(r.size, t, t);
    forall j: nat | InWindow(r, s', j)
      ensures SlotOf(r, s', j).value == Awaited(r, s', j)
    {
      if j < t + r.size {
        assert InWindow(r, s, j);
        assert SlotOf(r, s, j).value == SlotOf(r, s', j).value;
      } else {
        assert j < |s.tasks| ==> InTurnAt(r, s, j);
      }
    }
  }

  lemma ResultsStep<I, O>(r: Runner<I, O>, s: State<I, O>, step: Step<I>)
    requires Enabled(r, s, step) && Slots(r, s) && Results(r, s) && Outcome(r, s)
    ensures Shaped(r, Do(r, s, step)) && Results(r, Do(r, s, step))
  {
    hide Offset;
    if step.Take? {
      TakesNext(r, s);
    }
    ShapedStep(r, s, step);
    hide Slots, Outcome, Shaped;
    var s' := Do(r, s, step);
    forall i: nat | i < |s'.tasks| ensures ResultAt(r, s', i) {
      if i < |s.tasks| {
        assert ResultAt(r, s, i);
      }
    }
  }

  lemma SlotsStep<I, O>(r: Runner<I, O>, s: State<I, O>, step: Step<I>)
    requires Enabled(r, s, step) && InTurn(r, s) && Slots(r, s) && Results(r, s) && Outcome(r, s)
    ensures Shaped(r, Do(r, s, step)) && Slots(r, Do(r, s, step))
  {
    ShapedStep(r, s, step);
    hide Enabled, Do, InTurn, Slots, Results, Outcome;
    if step.Send? {
      SlotsSend(r, s, step.i);
    } else if step == Take {
      SlotsTake(r, s);
    } else {
      SlotsQuiet(r, s, step);
    }
  }

  lemma OutcomeStep<I, O>(r: Runner<I, O>, s: State<I, O>, step: Step<I>)
    requires Enabled(r, s, step) && Slots(r, s) && Outcome(r, s) && Waits(s)
    ensures Shaped(r, Do(r, s, step)) && Outcome(r, Do(r, s, step))
  {
    hide Offset;
    if step.Take? {
      TakesNext(r, s);
    }
    hide Slots;
  }

  lemma WaitsStep<I, O>(r: Runner<I, O>, s: State<I, O>, step: Step<I>)
    requires Enabled(r, s, step) && Outcome(r, s) && Waits(s)
    ensures Waits(Do(r, s, step))
  {
    hide Offset;
  }

  lemma TokensStep<I, O>(r: Runner<I, O>, s: State<I, O>, step: Step<I>)
    requires Enabled(r, s, step) && Tokens(r, s)
    ensures Tokens(r, Do(r, s, step))
  {
    hide CountAt, Offset;
    match step
    case Schedule => CountAppend(s.tasks, Running, Unfinished);
    case Handle(i) => CountUpdate(s.tasks, i, Handled(r.handle(s.pushed[i])), Unfinished);
    case Send(i) => CountUpdate(s.tasks, i, Sent, Unfinished);
    case Unlock(i) => CountUpdate(s.tasks, i, Unlocked, Unfinished);
    case Finish(i) => CountUpdate(s.tasks, i, Finished, Unfinished);
    case _ =>
  }

  lemma InvStep<I, O>(r: Runner<I, O>, s: State<I, O>, step: Step<I>)
    requires Inv(r, s) && Enabled(r, s, step)
    ensures Inv(r, Do(r, s, step))
  {
    hide Shaped, Locks, InTurn, Slots, Results, Outcome, Waits, Tokens, Enabled, Do;
    ShapedStep(r, s, step);
    LocksStep(r, s, step);
    InTurnStep(r, s, step);
    SlotsStep(r, s, step);
    ResultsStep(r, s, step);
    OutcomeStep(r, s, step);
    WaitsStep(r, s, step);
    TokensStep(r, s, step);
  }

  lemma {:induction false} RunKeepsInv<I(!new), O(!new)>(r: Runner<I, O>, s: State<I, O>, steps: seq<Step<I>>,
                                                         end: State<I, O>)
    requires Inv(r, s) && Reaches(r, s, steps, end)
    ensures Inv(r, end)
    decreases |steps|
  {
    hide Inv, Enabled, Do;
    if steps != [] {
      InvStep(r, s, steps[0]);
      RunKeepsInv(r, Do(r, s, steps[0]), steps[1..], end);
    }
  }

  lemma StartInv<I, O>(r: Runner<I, O>)
    requires r.size > 0
    ensures Inv(r, Start(r))
  {
    hide Offset;
    var s := Start(r);
    assert Shaped(r, s);
    assert forall i :: 0 <= i < |s.ring| ==> s.ring[i] == Slot(None, None);
    assert Locks(r, s);
    assert InTurn(r, s);
    assert Slots(r, s);
    assert Results(r, s);
    assert Outcome(r, s);
    assert Waits(s);
    assert Tokens(r, s);
  }

  lemma ReachableInv<I(!new), O(!new)>(r: Runner<I, O>, s: State<I, O>)
    requires r.size > 0 && Reachable(r, s)
    ensures Inv(r, s)
  {
    hide Inv;
    var steps :| Reaches(r, Start(r), steps, s);
    StartInv(r);
    RunKeepsInv(r, Start(r), steps, s);
  }

  // ---- what holds in every run -------------------------------------------------------------------

  ghost predicate InOrder<I, O>(r: Runner<I, O>, s: State<I, O>) {
    |s.got| <= |s.pushed| && forall k :: 0 <= k < |s.got| ==> s.got[k] == r.handle(s.pushed[k])
  }

  /** The k-th successful Get returns the result for the k-th message pushed; Get fails only after Wait was called
      and every result was returned; and once Wait has returned, every message was processed and returned. */
  lemma ResultsComeInOrder<I(!new), O(!new)>(r: Runner<I, O>, s: State<I, O>)
    requires r.size > 0 && Reachable(r, s)
    ensures InOrder(r, s)
    ensures s.failures > 0 ==> s.done && |s.got| == |s.pushed|
    ensures s.waiter.Returned? ==> |s.got| == |s.pushed| && forall i :: 0 <= i < |s.tasks| ==> s.tasks[i].Finished?
  {
    ReachableInv(r, s);
  }

  ghost predicate Busy<O>(p: Phase<O>) {
    p.Running? || p.Handled? || p.Sent?
  }

  /** At most `workers` tasks are unfinished, and no two of them that are busy use the same slot. */
  lemma BusyTasksAreLimited<I(!new), O(!new)>(r: Runner<I, O>, s: State<I, O>)
    requires r.size > 0 && Reachable(r, s)
    ensures CountAt(s.tasks, Unfinished) <= r.workers
    ensures forall i: nat, j: nat :: i < j < |s.tasks| && Busy(s.tasks[i]) && Busy(s.tasks[j])
                                     ==> i % r.size != j % r.size
  {
    ReachableInv(r, s);
    hide InTurn, Slots, Results, Outcome;
    forall i: nat, j: nat | i < j < |s.tasks| && Busy(s.tasks[i]) && Busy(s.tasks[j])
      ensures i % r.size != j % r.size
    {
      assert HoldsLock(s, i) && HoldsLock(s, j);
    }
  }

  // ---- progress ----------------------------------------------------------------------------------

  /** A step that goroutines under way take on their own, without a new call. */
  ghost predicate Internal<I>(step: Step<I>) {
    !step.CallPush? && !step.CallGet? && !step.CallWait?
  }

  ghost predicate Stuck<I(!new), O(!new)>(r: Runner<I, O>, s: State<I, O>) {
    forall step: Step<I> :: Internal(step) ==> !Enabled(r, s, step)
  }

  lemma StuckTask<I(!new), O(!new)>(r: Runner<I, O>, s: State<I, O>, i: nat)
    requires Inv(r, s) && Stuck(r, s) && i < |s.tasks| && !s.tasks[i].Finished?
    ensures s.tasks[i].Handled? && Taken(s) + r.size <= i
  {
    hide Offset, Locks, InTurn, Outcome;
    assert ResultAt(r, s, i);
    assert !Enabled(r, s, Handle(i)) && !Enabled(r, s, Unlock(i)) && !Enabled(r, s, Send(i)) &&
           !Enabled(r, s, Finish(i));
    CountedOne(s.tasks, i, Unfinished);
    assert !InWindow(r, s, i);
  }

  lemma StuckPusher<I(!new), O(!new)>(r: Runner<I, O>, s: State<I, O>)
    requires r.workers > 0 && Inv(r, s) && Stuck(r, s) && !s.pusher.Idle?
    ensures Taken(s) + r.size + 1 < |s.pushed|
  {
    hide Offset, InTurn, Slots, Results;
    assert !Enabled(r, s, TakeIndex) && !Enabled(r, s, Lock) && !Enabled(r, s, Schedule);
    if s.pusher.Locked? {
      var i := SomeCounted(s.tasks, Unfinished);
      StuckTask(r, s, i);
    } else {
      var i := SlotOf(r, s, s.pusher.index).lock.value;
      assert HoldsLock(s, i);
      StuckTask(r, s, i);
    }
  }

  lemma StuckGetter<I(!new), O(!new)>(r: Runner<I, O>, s: State<I, O>)
    requires r.workers > 0 && Inv(r, s) && Stuck(r, s) && !s.getter.Outside?
    ensures s.getter.Selecting? && !s.done && s.consumed == |s.pushed| == |s.tasks|
  {
    hide Offset, Locks, InTurn, Results;
    assert !Enabled(r, s, Take) && !Enabled(r, s, SeeDone) && !Enabled(r, s, GetReturns);
    var i := s.consumed;
    assert s.failures == 0 && i == Taken(s);
    if !s.pusher.Idle? {
      StuckPusher(r, s);
    }
    assert InWindow(r, s, i);
    if i < |s.tasks| && !s.tasks[i].Finished? {
      StuckTask(r, s, i);
    }
  }

  /** No deadlock: when no goroutine can move on its own, a blocked Get waits for a message to be pushed, a blocked
      Push and a blocked Wait wait for a call of Get, and Push only while more results than the ring has slots
      are outstanding. */
  lemma OnlyCallsAreMissing<I(!new), O(!new)>(r: Runner<I, O>, s: State<I, O>)
    requires r.size > 0 && r.workers > 0 && Reachable(r, s) && Stuck(r, s)
    ensures !s.getter.Outside? ==> s.getter.Selecting? && s.pusher.Idle? && s.waiter.NotCalled? && |s.got| == |s.pushed|
    ensures !s.pusher.Idle? ==> s.getter.Outside? && |s.pushed| > |s.got| + r.size + 1
    ensures s.waiter.Joining? || s.waiter.Spinning? ==> s.getter.Outside? && |s.got| < |s.pushed|
  {
    ReachableInv(r, s);
    hide Locks, InTurn, Slots, Results, Tokens;
    if !s.pusher.Idle? {
      StuckPusher(r, s);
    }
    if !s.getter.Outside? {
      StuckGetter(r, s);
    }
    assert !Enabled(r, s, WaitReturns) && !Enabled(r, s, Join);
    if s.waiter.Joining? {
      var i :| 0 <= i < |s.tasks| && !s.tasks[i].Finished?;
      StuckTask(r, s, i);
    }
  }

  ghost function TaskWork<O>(tasks: seq<Phase<O>>): (r: nat) {
    if tasks == [] then 0 else TaskWork(tasks[..|tasks| - 1]) + PhaseWork(tasks[|tasks| - 1])
  }

  ghost function PhaseWork<O>(p: Phase<O>): (r: nat) {
    match p
    case Running => 4
    case Handled(_) => 3
    case Sent => 2
    case Unlocked => 1
    case Finished => 0
  }

  ghost function Work<I, O>(s: State<I, O>): (r: nat) {
    TaskWork(s.tasks)
    + (match s.pusher case Idle => 0 case Checked(_) => 7 case Indexed(_) => 6 case Locked(_) => 5)
    + (match s.getter
       case Outside => 0 case Selecting(_) => 3 case Draining(_) => 2 case Took(_) => 1 case Failing => 1)
    + (match s.waiter case Joining => 2 case Spinning => 1 case _ => 0)
  }

  lemma {:induction false} TaskWorkUpdate<O>(tasks: seq<Phase<O>>, i: nat, p: Phase<O>)
    requires i < |tasks|
    ensures TaskWork(tasks[i := p]) + PhaseWork(tasks[i]) == TaskWork(tasks) + PhaseWork(p)
  {
    var n := |tasks| - 1;
    if i < n {
      TaskWorkUpdate(tasks[..n], i, p);
      assert tasks[i := p][..n] == tasks[..n][i := p];
    } else {
      assert tasks[i := p][..n] == tasks[..n];
    }
  }

  lemma InternalStepWorks<I, O>(r: Runner<I, O>, s: State<I, O>, step: Step<I>)
    requires Enabled(r, s, step) && Internal(step)
    ensures Work(Do(r, s, step)) < Work(s)
  {
    hide TaskWork, Offset;
    match step
    case Schedule => TaskWorkAppend(s.tasks, Running);
    case Handle(i) => TaskWorkUpdate(s.tasks, i, Handled(r.handle(s.pushed[i])));
    case Send(i) => TaskWorkUpdate(s.tasks, i, Sent);
    case Unlock(i) => TaskWorkUpdate(s.tasks, i, Unlocked);
    case Finish(i) => TaskWorkUpdate(s.tasks, i, Finished);
    case _ =>
  }

  lemma TaskWorkAppend<O>(tasks: seq<Phase<O>>, p: Phase<O>)
    ensures TaskWork(tasks + [p]) == TaskWork(tasks) + PhaseWork(p)
  {
    assert (tasks + [p])[..|tasks|] == tasks;
  }

  /** Without new calls every run ends, in the states of OnlyCallsAreMissing, after a bounded number of steps. */
  lemma {:induction false} RunsEnd<I(!new), O(!new)>(r: Runner<I, O>, s: State<I, O>, steps: seq<Step<I>>,
                                                     end: State<I, O>)
    requires Reaches(r, s, steps, end) && forall k :: 0 <= k < |steps| ==> Internal(steps[k])
    ensures |steps| + Work(end) <= Work(s)
    decreases |steps|
  {
    hide Work, Enabled, Do;
    if steps != [] {
      InternalStepWorks(r, s, steps[0]);
      RunsEnd(r, Do(r, s, steps[0]), steps[1..], end);
    }
  }

  /** How many calls of Get return in a run. */
  ghost function Gets<I>(steps: seq<Step<I>>): (n: nat) {
    if steps == [] then 0 else (if steps[0].GetReturns? then 1 else 0) + Gets(steps[1..])
  }

  /** Every call of Get, failed or not, moves on by one index. */
  lemma {:induction false} GetsAreCounted<I(!new), O(!new)>(r: Runner<I, O>, s: State<I, O>, steps: seq<Step<I>>,
                                                            end: State<I, O>)
    requires Reaches(r, s, steps, end)
    ensures end.consumed == s.consumed + Gets(steps)
    decreases |steps|
  {
    hide Shaped;
    if steps != [] {
      GetsAreCounted(r, Do(r, s, steps[0]), steps[1..], end);
    }
  }
}

/** What the runs of a map-reduce come to: what its channels hold, which panic reaches the caller, and what a failure
    and a stop put an end to. */
module MapReduceRuns {
  import opened Threads
  import opened MapReduce
  import opened MapReduceProof

  // ---- in every state ------------------------------------------------------------------------------

  /** The collector holds at most `workers` values; the caller returns and a cancel is over only when done is closed,
      and a cancel only after the source has ended; the caller cancels only because the context has ended; and what was
      taken before the reducer returned, the reducer got. */
  ghost predicate Tidy<T, V>(workers: nat, s: State<T, V>) {
    && |s.sent| <= s.taken + workers
    && (s.caller.CallerDone? || s.cancel.Over? ==> s.done)
    && (s.cancel.Over? ==> SourceAtEnd(s))
    && (s.caller.CallerCancelling? || s.cancel == RunBy(TheCaller) ==> s.ctxDone)
    && (s.reducer.Reducing? || s.reducer.ReducerCancelling? ==> s.reduced == s.taken)
  }

  lemma TidyOwn<T, V>(workers: nat, s: State<T, V>, t: nat, m: MapperAct<V>)
    requires Inv(workers, s) && Tidy(workers, s) && MapperEnabled(workers, s, t, m)
    ensures Tidy(workers, MapperDo(workers, s, t, m))
  {
    hide Distributed, AllDelivered, Flow, Reasons, CancelsStarted, CountAt;
    Member(workers, s, t, m);
  }

  lemma TidyShared<T, V>(workers: nat, s: State<T, V>, who: Who, a: SharedAct)
    requires Tidy(workers, s) && SharedEnabled(s, who, a)
    ensures Tidy(workers, SharedDo(s, who, a))
  {
  }

  lemma TidyCentral<T, V>(workers: nat, s: State<T, V>, step: Step<T, V>)
    requires Tidy(workers, s) && Enabled(workers, s, step) && Central(step)
    ensures Tidy(workers, Do(workers, s, step))
  {
    hide MapperEnabled, MapperDo, SharedEnabled, SharedDo;
  }

  lemma TidyStep<T, V>(workers: nat, s: State<T, V>, step: Step<T, V>)
    requires Inv(workers, s) && Tidy(workers, s) && Enabled(workers, s, step)
    ensures Tidy(workers, Do(workers, s, step))
  {
    hide Inv, Tidy, MapperEnabled, MapperDo, SharedEnabled, SharedDo;
    match step
    case OfMapper(t, m) => TidyOwn(workers, s, t, m);
    case OfAny(who, a) => TidyShared(workers, s, who, a);
    case _ => TidyCentral(workers, s, step);
  }

  lemma {:induction false} TidyRun<T(!new), V(!new)>(workers: nat, s: State<T, V>, steps: seq<Step<T, V>>,
                                                     end: State<T, V>)
    requires Inv(workers, s) && Tidy(workers, s) && Reaches(workers, s, steps, end)
    ensures Tidy(workers, end)
    decreases |steps|
  {
    hide Inv, Tidy, Enabled, Do;
    if steps != [] {
      InvStep(workers, s, steps[0]);
      TidyStep(workers, s, steps[0]);
      TidyRun(workers, Do(workers, s, steps[0]), steps[1..], end);
    }
  }

  lemma StartInv<T, V>(workers: nat)
    ensures Inv(workers, Start<T, V>()) && Tidy(workers, Start<T, V>())
  {
  }

  lemma EveryStateIsTidy<T(!new), V(!new)>(workers: nat, s: State<T, V>)
    requires Reachable(workers, s)
    ensures Tidy(workers, s)
  {
    StartInv<T, V>(workers);
    hide Inv, Tidy, Start;
    var steps :| Reaches(workers, Start(), steps, s);
    TidyRun(workers, Start(), steps, s);
  }

  // ---- after a failure -----------------------------------------------------------------------------

  ghost function MayDispatch(d: Dispatcher): (n: nat) {
    One(d.Selecting? || d.AwaitItem?)
  }

  lemma FailureStep<T, V>(workers: nat, s: State<T, V>, step: Step<T, V>)
    requires s.failed > 0 && Enabled(workers, s, step)
    ensures var r := Do(workers, s, step);
            r.failed > 0 && |r.mappers| + MayDispatch(r.dispatcher) <= |s.mappers| + MayDispatch(s.dispatcher)
  {
    hide MayDispatch, MapperEnabled, MapperDo, SharedEnabled, SharedDo;
    match step
    case OfMapper(t, m) => OwnFailure(workers, s, t, m);
    case OfAny(who, a) => SharedFailure(s, who, a);
    case _ => CentralFailure(workers, s, step);
  }

  lemma OwnFailure<T, V>(workers: nat, s: State<T, V>, t: nat, m: MapperAct<V>)
    requires MapperEnabled(workers, s, t, m)
    ensures var r := MapperDo(workers, s, t, m);
            r.failed >= s.failed && |r.mappers| == |s.mappers| && r.dispatcher == s.dispatcher && r.done == s.done
  {
  }

  lemma SharedFailure<T, V>(s: State<T, V>, who: Who, a: SharedAct)
    requires SharedEnabled(s, who, a)
    ensures var r := SharedDo(s, who, a);
            r.failed >= s.failed && |r.mappers| == |s.mappers| && r.dispatcher == s.dispatcher && r.done == s.done
  {
    SharedMoves(s, who, a);
    hide SharedEnabled, SharedDo, InGroup, ReducerPast;
  }

  lemma CentralFailure<T, V>(workers: nat, s: State<T, V>, step: Step<T, V>)
    requires s.failed > 0 && Enabled(workers, s, step) && Central(step)
    ensures var r := Do(workers, s, step);
            r.failed > 0 && |r.mappers| + MayDispatch(r.dispatcher) <= |s.mappers| + MayDispatch(s.dispatcher)
  {
    hide MapperEnabled, MapperDo, SharedEnabled, SharedDo;
    if OfDispatcher(step) {
      DispatcherKeepsSent(workers, s, step);
    } else if !step.Read? && !step.DrainCollector? && !step.Dispatch? {
      OthersKeepSent(workers, s, step);
    }
  }

  /** Once a mapper has panicked, at most one more is started: if the dispatcher has already checked for failures. */
  lemma {:induction false} StopsAfterFailure<T(!new), V(!new)>(workers: nat, s: State<T, V>, steps: seq<Step<T, V>>,
                                                               end: State<T, V>)
    requires s.failed > 0 && Reaches(workers, s, steps, end)
    ensures |end.mappers| + MayDispatch(end.dispatcher) <= |s.mappers| + MayDispatch(s.dispatcher)
    decreases |steps|
  {
    hide MayDispatch, Enabled, Do;
    if steps != [] {
      FailureStep(workers, s, steps[0]);
      StopsAfterFailure(workers, Do(workers, s, steps[0]), steps[1..], end);
    }
  }

  // ---- after a stop --------------------------------------------------------------------------------

  /** What mapper t has sent or is about to send. */
  ghost function Out<T, V>(s: State<T, V>, t: nat): (r: seq<V>) {
    From(s.sent, t) + if t < |s.mappers| then Pending(s.mappers[t].pc) else []
  }

  lemma StopOwn<T, V>(workers: nat, s: State<T, V>, t: nat, m: MapperAct<V>, u: nat)
    requires Stopped(s) && MapperEnabled(workers, s, t, m)
    ensures Stopped(MapperDo(workers, s, t, m)) && Out(MapperDo(workers, s, t, m), u) == Out(s, u)
  {
    hide From;
    if m.Send? {
      FromSend(s.sent, Output(t, s.mappers[t].pc.v), u);
    }
  }

  lemma StopShared<T, V>(s: State<T, V>, who: Who, a: SharedAct, u: nat)
    requires Stopped(s) && SharedEnabled(s, who, a)
    ensures Stopped(SharedDo(s, who, a)) && Out(SharedDo(s, who, a), u) == Out(s, u)
  {
    hide From;
  }

  lemma StopCentral<T, V>(workers: nat, s: State<T, V>, step: Step<T, V>, u: nat)
    requires Stopped(s) && Enabled(workers, s, step) && Central(step)
    ensures Stopped(Do(workers, s, step)) && Out(Do(workers, s, step), u) == Out(s, u)
  {
    hide From, MapperEnabled, MapperDo, SharedEnabled, SharedDo;
  }

  /** Once the context has ended or done is closed, nothing written goes out any more, but for the values already past
      the guard of Write. */
  lemma {:induction false} StopFreezesOutput<T(!new), V(!new)>(workers: nat, s: State<T, V>, steps: seq<Step<T, V>>,
                                                               end: State<T, V>, u: nat)
    requires (s.ctxDone || s.done) && Reaches(workers, s, steps, end)
    ensures Out(end, u) == Out(s, u)
    decreases |steps|
  {
    hide Out, MapperEnabled, MapperDo, SharedEnabled, SharedDo;
    if steps != [] {
      match steps[0] {
        case OfMapper(t, m) => StopOwn(workers, s, t, m, u);
        case OfAny(who, a) => StopShared(s, who, a, u);
        case _ => StopCentral(workers, s, steps[0], u);
      }
      hide Enabled, Do;
      StopFreezesOutput(workers, Do(workers, s, steps[0]), steps[1..], end, u);
    }
  }

  // ---- the caller at its select ------------------------------------------------------------------

  /** The reducer has returned, done is open, and the caller waits. */
  ghost predicate NoOutput<T, V>(s: State<T, V>) {
    s.caller.AtSelect? && !s.reducer.Reducing? && !s.reducer.ReducerCancelling? && !s.done
  }

  /** The caller takes a panic or cancels. */
  ghost predicate CallerActs<T, V>(step: Step<T, V>) {
    step.OfAny? && (step.a.Report? || (step.a.CallCancel? && step.who.TheCaller?))
  }

  lemma NoOutputStep<T, V>(workers: nat, s: State<T, V>, step: Step<T, V>)
    requires NoOutput(s) && Enabled(workers, s, step) && !CallerActs(step) && !Do(workers, s, step).done
    ensures NoOutput(Do(workers, s, step))
  {
    hide MapperEnabled, MapperDo, SharedEnabled, SharedDo;
    match step
    case OfMapper(t, m) => NoOutputOwn(workers, s, t, m);
    case OfAny(who, a) => NoOutputShared(s, who, a);
    case _ =>
  }

  lemma NoOutputOwn<T, V>(workers: nat, s: State<T, V>, t: nat, m: MapperAct<V>)
    requires MapperEnabled(workers, s, t, m)
    ensures var r := MapperDo(workers, s, t, m); r.caller == s.caller && r.reducer == s.reducer
  {
  }

  lemma NoOutputShared<T, V>(s: State<T, V>, who: Who, a: SharedAct)
    requires NoOutput(s) && SharedEnabled(s, who, a) && !a.Report? && !(a.CallCancel? && who.TheCaller?)
    ensures NoOutput(SharedDo(s, who, a))
  {
  }

  lemma DoneStays<T, V>(workers: nat, s: State<T, V>, step: Step<T, V>)
    requires Enabled(workers, s, step) && s.done
    ensures Do(workers, s, step).done
  {
    hide MapperEnabled, MapperDo, SharedEnabled, SharedDo;
    match step
    case OfMapper(t, m) => OwnFailure(workers, s, t, m);
    case OfAny(who, a) => SharedFailure(s, who, a);
    case _ =>
  }

  lemma {:induction false} DoneStaysRun<T(!new), V(!new)>(workers: nat, s: State<T, V>, steps: seq<Step<T, V>>,
                                                          end: State<T, V>)
    requires s.done && Reaches(workers, s, steps, end)
    ensures end.done
    decreases |steps|
  {
    hide Enabled, Do;
    if steps != [] {
      DoneStays(workers, s, steps[0]);
      DoneStaysRun(workers, Do(workers, s, steps[0]), steps[1..], end);
    }
  }

  /** Once the reducer has returned, nothing but a panic, the end of the context or the end of output brings the caller
      on. */
  lemma {:induction false} WaitsForOutput<T(!new), V(!new)>(workers: nat, s: State<T, V>, steps: seq<Step<T, V>>,
                                                            end: State<T, V>)
    requires NoOutput(s) && Reaches(workers, s, steps, end) && !end.done
    requires forall k :: 0 <= k < |steps| ==> !CallerActs(steps[k])
    ensures end.caller.AtSelect?
    decreases |steps|
  {
    hide Enabled, Do, CallerActs;
    if steps != [] {
      var next := Do(workers, s, steps[0]);
      if next.done {
        DoneStaysRun(workers, next, steps[1..], end);
      }
      NoOutputStep(workers, s, steps[0]);
      WaitsForOutput(workers, next, steps[1..], end);
    }
  }

  // ---- panics ----------------------------------------------------------------------------------------

  ghost predicate IsFailing<V>(m: Mapper<V>) {
    m.pc.Failing?
  }

  ghost function MapperPanics<T, V>(steps: seq<Step<T, V>>): (n: nat) {
    if steps == [] then 0 else One(steps[0].OfMapper? && steps[0].m == Return(true)) + MapperPanics(steps[1..])
  }

  lemma FailedOwn<T, V>(workers: nat, s: State<T, V>, t: nat, m: MapperAct<V>)
    requires MapperEnabled(workers, s, t, m)
    ensures var r := MapperDo(workers, s, t, m);
            r.failed + CountAt(r.mappers, IsFailing)
            == s.failed + CountAt(s.mappers, IsFailing) + One(m == Return(true))
  {
    hide CountAt;
    CountUpdate(s.mappers, t, MapperDo(workers, s, t, m).mappers[t], IsFailing);
  }

  lemma FailedShared<T, V>(s: State<T, V>, who: Who, a: SharedAct)
    requires SharedEnabled(s, who, a)
    ensures var r := SharedDo(s, who, a);
            r.failed + CountAt(r.mappers, IsFailing) == s.failed + CountAt(s.mappers, IsFailing)
  {
    hide CountAt;
    if who.TheMapper? {
      CountUpdate(s.mappers, who.t, SharedDo(s, who, a).mappers[who.t], IsFailing);
    }
  }

  lemma FailedCentral<T, V>(workers: nat, s: State<T, V>, step: Step<T, V>)
    requires Enabled(workers, s, step) && Central(step)
    ensures var r := Do(workers, s, step);
            r.failed + CountAt(r.mappers, IsFailing) == s.failed + CountAt(s.mappers, IsFailing)
  {
    hide CountAt, MapperEnabled, MapperDo, SharedEnabled, SharedDo;
    if step.Dispatch? {
      CountAppend(s.mappers, Fresh(s.received), IsFailing);
    }
  }

  /** `failed` counts the mappers that have panicked, but for those about to raise it. */
  lemma {:induction false} FailuresAreCounted<T(!new), V(!new)>(workers: nat, s: State<T, V>, steps: seq<Step<T, V>>,
                                                                end: State<T, V>)
    requires Reaches(workers, s, steps, end)
    ensures end.failed + CountAt(end.mappers, IsFailing)
         == s.failed + CountAt(s.mappers, IsFailing) + MapperPanics(steps)
    decreases |steps|
  {
    hide CountAt, MapperEnabled, MapperDo, SharedEnabled, SharedDo;
    if steps != [] {
      match steps[0] {
        case OfMapper(t, m) => FailedOwn(workers, s, t, m);
        case OfAny(who, a) => FailedShared(s, who, a);
        case _ => FailedCentral(workers, s, steps[0]);
      }
      hide Enabled, Do;
      FailuresAreCounted(workers, Do(workers, s, steps[0]), steps[1..], end);
    }
  }

  /** Has panicked and not tried to report that yet. */
  ghost predicate Ahead<T, V>(s: State<T, V>, who: Who) {
    match who
    case TheGenerator => s.generator.GeneratorPanicked?
    case TheMapper(t) => t < |s.mappers| && (s.mappers[t].pc.Failing? || s.mappers[t].pc.MapperPanicked?)
    case TheReducer => s.reducer.ReducerPanicked? || s.reducer == DrainingCollector(true)
    case TheCaller => false
  }

  ghost predicate PanicAhead<T, V>(s: State<T, V>) {
    exists who :: Ahead(s, who)
  }

  /** Who panics in a step in which someone panics. */
  ghost function Panicker<T, V>(step: Step<T, V>): (r: Who) {
    match step
    case OfMapper(t, _) => TheMapper(t)
    case GeneratorReturns(_) => TheGenerator
    case _ => TheReducer
  }

  /** Of the panics, the first to be reported is the only one, and `reports` says how many the caller has taken. */
  ghost predicate Accounted<T, V>(s: State<T, V>, panicked: bool, reports: nat) {
    && (panicked <==> s.wrote || PanicAhead(s))
    && (forall a, b :: IsReporting(s, a) && IsReporting(s, b) ==> a == b)
    && reports + One(SomeoneReports(s)) == One(s.wrote)
  }

  ghost predicate Reported<T, V>(step: Step<T, V>) {
    step.OfAny? && step.a.Report?
  }

  ghost predicate Tried<T, V>(step: Step<T, V>) {
    step.OfAny? && step.a.TryReport?
  }

  /** What a step changes about the panics of one goroutine. */
  ghost predicate PanicMoves<T, V>(s: State<T, V>, step: Step<T, V>, r: State<T, V>, who: Who) {
    && (Ahead(r, who)
        <==> (Ahead(s, who) && !(Tried(step) && step.who == who)) || (Panics(step) && Panicker(step) == who))
    && (IsReporting(r, who)
        <==> (IsReporting(s, who) && !(Reported(step) && step.who == who))
             || (Tried(step) && step.who == who && !s.wrote))
  }

  ghost predicate PanicsMove<T, V>(s: State<T, V>, step: Step<T, V>, r: State<T, V>) {
    && (forall who :: PanicMoves(s, step, r, who))
    && (Tried(step) ==> Ahead(s, step.who)) && (Reported(step) ==> IsReporting(s, step.who))
    && (r.wrote <==> s.wrote || Tried(step))
  }

  lemma PanicOwn<T, V>(workers: nat, s: State<T, V>, t: nat, m: MapperAct<V>)
    requires MapperEnabled(workers, s, t, m)
    ensures PanicsMove(s, OfMapper(t, m), MapperDo(workers, s, t, m))
  {
  }

  lemma PanicShared<T, V>(s: State<T, V>, who: Who, a: SharedAct)
    requires SharedEnabled(s, who, a)
    ensures PanicsMove(s, OfAny(who, a), SharedDo(s, who, a))
  {
  }

  lemma PanicCentral<T, V>(workers: nat, s: State<T, V>, step: Step<T, V>)
    requires Enabled(workers, s, step) && Central(step)
    ensures PanicsMove(s, step, Do(workers, s, step))
  {
    hide MapperEnabled, MapperDo, SharedEnabled, SharedDo;
    if step.GeneratorReturns? || step.ReducerReturns? || step.CollectorDrained? {
      PanicUser(workers, s, step);
    } else {
      PanicOther(workers, s, step);
    }
    hide Enabled, Do, PanicsMove;
  }

  lemma PanicUser<T, V>(workers: nat, s: State<T, V>, step: Step<T, V>)
    requires Enabled(workers, s, step) && (step.GeneratorReturns? || step.ReducerReturns? || step.CollectorDrained?)
    ensures PanicsMove(s, step, Do(workers, s, step))
  {
    hide MapperEnabled, MapperDo, SharedEnabled, SharedDo;
  }

  /** The other central steps leave it alone who panics and who reports. */
  lemma PanicOther<T, V>(workers: nat, s: State<T, V>, step: Step<T, V>)
    requires Enabled(workers, s, step) && Central(step)
    requires !step.GeneratorReturns? && !step.ReducerReturns? && !step.CollectorDrained?
    ensures PanicsMove(s, step, Do(workers, s, step))
  {
    hide MapperEnabled, MapperDo, SharedEnabled, SharedDo, Enabled, Do, PanicMoves;
    SameGoroutines(workers, s, step);
    var r := Do(workers, s, step);
    forall who ensures PanicMoves(s, step, r, who) {
      SamePanics(s, step, r, who);
    }
  }

  lemma SamePanics<T, V>(s: State<T, V>, step: Step<T, V>, r: State<T, V>, who: Who)
    requires Central(step) && !Panics(step)
    requires r.mappers == s.mappers || r.mappers == s.mappers + [Fresh(s.received)]
    requires r.generator == s.generator || (s.generator.SourceOpen? && r.generator.SourceClosed?)
    requires r.reducer == s.reducer || (s.reducer.Finishing? && r.reducer.ReducerDone?)
    ensures PanicMoves(s, step, r, who)
  {
    hide Panics;
  }

  lemma SameGoroutines<T, V>(workers: nat, s: State<T, V>, step: Step<T, V>)
    requires Enabled(workers, s, step) && Central(step)
    requires !step.GeneratorReturns? && !step.ReducerReturns? && !step.CollectorDrained?
    ensures var r := Do(workers, s, step);
            && r.wrote == s.wrote
            && r.mappers == (if step.Dispatch? then s.mappers + [Fresh(s.received)] else s.mappers)
            && (r.generator == s.generator || (s.generator.SourceOpen? && r.generator.SourceClosed?))
            && (r.reducer == s.reducer || (s.reducer.Finishing? && r.reducer.ReducerDone?))
  {
    hide MapperEnabled, MapperDo, SharedEnabled, SharedDo;
    if OfDispatcher(step) {
      DispatcherAlone(workers, s, step);
    } else {
      OthersAlone(workers, s, step);
    }
    hide Enabled, Do;
  }

  lemma DispatcherAlone<T, V>(workers: nat, s: State<T, V>, step: Step<T, V>)
    requires Enabled(workers, s, step) && OfDispatcher(step)
    ensures var r := Do(workers, s, step);
            r.wrote == s.wrote && r.mappers == s.mappers && r.generator == s.generator && r.reducer == s.reducer
  {
    hide MapperEnabled, MapperDo, SharedEnabled, SharedDo;
  }

  lemma OthersAlone<T, V>(workers: nat, s: State<T, V>, step: Step<T, V>)
    requires Enabled(workers, s, step) && Central(step) && !OfDispatcher(step)
    requires !step.GeneratorReturns? && !step.ReducerReturns? && !step.CollectorDrained?
    ensures var r := Do(workers, s, step);
            && r.wrote == s.wrote
            && r.mappers == (if step.Dispatch? then s.mappers + [Fresh(s.received)] else s.mappers)
            && (r.generator == s.generator || (s.generator.SourceOpen? && r.generator.SourceClosed?))
            && (r.reducer == s.reducer || (s.reducer.Finishing? && r.reducer.ReducerDone?))
  {
    hide MapperEnabled, MapperDo, SharedEnabled, SharedDo;
  }

  lemma PanickedStep<T, V>(s: State<T, V>, step: Step<T, V>, r: State<T, V>)
    requires PanicsMove(s, step, r)
    ensures r.wrote || PanicAhead(r) <==> s.wrote || PanicAhead(s) || Panics(step)
  {
    hide Ahead, IsReporting;
    if who :| Ahead(s, who) {
      assert PanicMoves(s, step, r, who);
    }
    if who :| Ahead(r, who) {
      assert PanicMoves(s, step, r, who);
    }
    if Panics(step) {
      assert PanicMoves(s, step, r, Panicker(step));
    }
  }

  lemma ReportsStep<T, V>(s: State<T, V>, step: Step<T, V>, r: State<T, V>)
    requires PanicsMove(s, step, r) && (SomeoneReports(s) ==> s.wrote)
    requires forall a, b :: IsReporting(s, a) && IsReporting(s, b) ==> a == b
    ensures forall a, b :: IsReporting(r, a) && IsReporting(r, b) ==> a == b
    ensures SomeoneReports(r) <==> (SomeoneReports(s) && !Reported(step)) || (Tried(step) && !s.wrote)
    ensures Reported(step) ==> SomeoneReports(s)
  {
    hide Ahead, IsReporting;
    forall a, b | IsReporting(r, a) && IsReporting(r, b) ensures a == b {
      assert PanicMoves(s, step, r, a) && PanicMoves(s, step, r, b);
    }
    if who :| IsReporting(s, who) {
      assert PanicMoves(s, step, r, who);
    }
    if who :| IsReporting(r, who) {
      assert PanicMoves(s, step, r, who);
    }
    if Tried(step) {
      assert PanicMoves(s, step, r, step.who);
    }
  }

  lemma PanicStep<T, V>(workers: nat, s: State<T, V>, step: Step<T, V>, panicked: bool, reports: nat)
    requires Accounted(s, panicked, reports) && Enabled(workers, s, step)
    ensures Accounted(Do(workers, s, step), panicked || Panics(step), reports + One(Reported(step)))
  {
    hide PanicAhead, SomeoneReports, PanicsMove, MapperEnabled, MapperDo, SharedEnabled, SharedDo, IsReporting;
    var r := Do(workers, s, step);
    assert PanicsMove(s, step, r) by {
      match step
      case OfMapper(t, m) => PanicOwn(workers, s, t, m);
      case OfAny(who, a) => PanicShared(s, who, a);
      case _ => PanicCentral(workers, s, step);
    }
    assert r.wrote <==> s.wrote || Tried(step) by {
      PanicsWrite(s, step, r);
    }
    PanickedStep(s, step, r);
    ReportsStep(s, step, r);
    hide Do, Enabled, Panics;
  }

  lemma PanicsWrite<T, V>(s: State<T, V>, step: Step<T, V>, r: State<T, V>)
    requires PanicsMove(s, step, r)
    ensures r.wrote <==> s.wrote || Tried(step)
  {
  }

  /** How many panics the caller takes. */
  ghost function Reports<T, V>(steps: seq<Step<T, V>>): (n: nat) {
    if steps == [] then 0 else One(Reported(steps[0])) + Reports(steps[1..])
  }

  ghost predicate SomePanic<T, V>(steps: seq<Step<T, V>>) {
    exists k :: 0 <= k < |steps| && Panics(steps[k])
  }

  lemma SomePanicSplit<T, V>(steps: seq<Step<T, V>>)
    requires steps != []
    ensures SomePanic(steps) <==> Panics(steps[0]) || SomePanic(steps[1..])
  {
    hide Panics;
    if SomePanic(steps[1..]) {
      var k :| 0 <= k < |steps[1..]| && Panics(steps[1..][k]);
      assert Panics(steps[k + 1]);
    }
    if SomePanic(steps) && !Panics(steps[0]) {
      var k :| 0 <= k < |steps| && Panics(steps[k]);
      assert Panics(steps[1..][k - 1]);
    }
  }

  lemma {:induction false} PanicRun<T(!new), V(!new)>(workers: nat, s: State<T, V>, steps: seq<Step<T, V>>,
                                                      end: State<T, V>, panicked: bool, reports: nat)
    requires Accounted(s, panicked, reports) && Reaches(workers, s, steps, end)
    ensures Accounted(end, panicked || SomePanic(steps), reports + Reports(steps))
    decreases |steps|
  {
    hide Accounted, SomePanic, Panics, Reported, Enabled, Do;
    if steps != [] {
      PanicStep(workers, s, steps[0], panicked, reports);
      SomePanicSplit(steps);
      PanicRun(workers, Do(workers, s, steps[0]), steps[1..], end, panicked || Panics(steps[0]),
               reports + One(Reported(steps[0])));
    } else {
      NoPanic<T, V>();
    }
  }

  lemma NoPanic<T, V>()
    ensures !SomePanic<T, V>([])
    ensures Accounted(Start<T, V>(), false, 0)
  {
  }

  /** When everything has ended, the caller has taken exactly one panic if some user function has panicked, and none if
      not. */
  lemma OnePanicIsReported<T(!new), V(!new)>(workers: nat, steps: seq<Step<T, V>>, end: State<T, V>)
    requires Reaches(workers, Start(), steps, end) && AllDone(end)
    ensures Reports(steps) == One(SomePanic(steps))
  {
    hide Reaches, Start, SomePanic, Panics;
    NoPanic<T, V>();
    PanicRun(workers, Start(), steps, end, false, 0);
    assert forall who :: !Ahead(end, who) && !IsReporting(end, who);
  }
}

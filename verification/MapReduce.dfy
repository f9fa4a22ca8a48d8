/** core/mr/mapreduce.go as interleaved steps of the generator, the dispatcher of executeMappers, the mappers, the
    reducer, the caller and whoever cancels. Every channel, wait group, sync.Once and atomic operation is one
    step; what user functions do (write, panic, cancel, return) is arbitrary. */
module MapReduce {
  datatype Who = TheGenerator | TheMapper(t: nat) | TheReducer | TheCaller

  datatype Generator = Generating | GeneratorPanicked | GeneratorReporting | SourceOpen | SourceClosed

  datatype Dispatcher =
    | Looping            // about to load `failed`
    | Selecting
    | AwaitItem          // holds a slot of the pool
    | Joining            // in wg.Wait
    | ClosingCollector
    | DrainingSource
    | DispatcherDone

  datatype MapperPc<V> =
    | Mapping
    | Writing(v: V)      // past the guard of Write, sending to the collector
    | MapperCancelling
    | Failing            // panicked, `failed` not raised yet
    | MapperPanicked     // about to write to panicChan
    | MapperReporting    // sends to panicChan
    | LeavingGroup       // before wg.Done
    | LeavingPool        // before giving its slot back
    | MapperDone

  /** One mapper with the number of its item, the values it wrote, and those of them that Write dropped. */
  datatype Mapper<V> = Mapper(index: nat, pc: MapperPc<V>, writes: seq<V>, dropped: seq<V>)

  datatype Reducer =
    | Reducing
    | ReducerCancelling
    | DrainingCollector(panicked: bool)
    | ReducerPanicked
    | ReducerReporting
    | Finishing
    | ReducerDone

  datatype Caller =
    | AtSelect
    | CallerCancelling
    | DrainingOutput     // ranges over output until that is closed, before the call returns or panics
    | CallerDone

  datatype Once = Never | RunBy(who: Who) | Over

  /** A value in the collector with the mapper it is from. */
  datatype Output<V> = Output(t: nat, v: V)

  /** `items` are those offered to the source so far, of which the first `received` were received; `sent` are the
      values sent to the collector, of which the first `taken` were received, `reduced` of them by the reducer. */
  datatype State<T, V> = State(
    items: seq<T>,
    received: nat,
    drained: set<nat>,
    sent: seq<Output<V>>,
    taken: nat,
    reduced: nat,
    closes: nat,
    crashed: bool,
    failed: nat,
    pool: nat,
    waitGroup: int,
    ctxDone: bool,
    done: bool,
    wrote: bool,
    cancel: Once,
    generator: Generator,
    dispatcher: Dispatcher,
    mappers: seq<Mapper<V>>,
    reducer: Reducer,
    caller: Caller)

  /** The steps of a mapper. */
  datatype MapperAct<V> =
    | CallWrite(v: V)
    | Send
    | Return(panics: bool)
    | CountFailure
    | LeaveGroup
    | LeavePool

  /** The steps that several kinds of goroutines take. */
  datatype SharedAct = CallCancel | CancelReturns | TryReport | Report

  datatype Step<T, V> =
    | OfMapper(t: nat, m: MapperAct<V>)
    | OfAny(who: Who, a: SharedAct)
    | Offer(item: T)
    | GeneratorReturns(panics: bool)
    | CloseSource
    | CheckFailed
    | SeeStop
    | EnterPool
    | Dispatch
    | SeeSourceClosed
    | Join
    | CloseCollector
    | DrainSource
    | SourceDrained
    | Read
    | ReducerReturns(panics: bool)
    | DrainCollector
    | CollectorDrained
    | FinishReducer
    | DrainForCancel
    | FinishCancel
    | EndContext
    | TakeOutput         // the reducer's result, or that output was closed
    | OutputClosed

  ghost function Start<T, V>(): (r: State<T, V>) {
    State([], 0, {}, [], 0, 0, 0, false, 0, 0, 0, false, false, false, Never, Generating, Looping, [], Reducing,
          AtSelect)
  }

  ghost predicate IsAt<T, V>(s: State<T, V>, t: nat, pc: MapperPc<V>) {
    t < |s.mappers| && s.mappers[t].pc == pc
  }

  ghost predicate MayCancel<T, V>(s: State<T, V>, who: Who) {
    match who
    case TheGenerator => false
    case TheMapper(t) => IsAt(s, t, Mapping)
    case TheReducer => s.reducer.Reducing?
    case TheCaller => s.caller.AtSelect? && s.ctxDone
  }

  ghost predicate IsCancelling<T, V>(s: State<T, V>, who: Who) {
    match who
    case TheGenerator => false
    case TheMapper(t) => IsAt(s, t, MapperCancelling)
    case TheReducer => s.reducer.ReducerCancelling?
    case TheCaller => s.caller.CallerCancelling?
  }

  ghost predicate HasPanicked<T, V>(s: State<T, V>, who: Who) {
    match who
    case TheGenerator => s.generator.GeneratorPanicked?
    case TheMapper(t) => IsAt(s, t, MapperPanicked)
    case TheReducer => s.reducer.ReducerPanicked?
    case TheCaller => false
  }

  ghost predicate IsReporting<T, V>(s: State<T, V>, who: Who) {
    match who
    case TheGenerator => s.generator.GeneratorReporting?
    case TheMapper(t) => IsAt(s, t, MapperReporting)
    case TheReducer => s.reducer.ReducerReporting?
    case TheCaller => false
  }

  ghost predicate Offered<T, V>(s: State<T, V>) {
    s.received < |s.items|
  }

  ghost predicate SourceAtEnd<T, V>(s: State<T, V>) {
    s.generator.SourceClosed? && s.received == |s.items|
  }

  ghost predicate Stopped<T, V>(s: State<T, V>) {
    s.ctxDone || s.done
  }

  ghost predicate MapperEnabled<T, V>(workers: nat, s: State<T, V>, t: nat, m: MapperAct<V>) {
    t < |s.mappers| &&
    match m
    case CallWrite(_) => s.mappers[t].pc.Mapping?
    case Send => s.mappers[t].pc.Writing? && (s.closes > 0 || |s.sent| < s.taken + workers)
    case Return(_) => s.mappers[t].pc.Mapping?
    case CountFailure => s.mappers[t].pc.Failing?
    case LeaveGroup => s.mappers[t].pc.LeavingGroup?
    case LeavePool => s.mappers[t].pc.LeavingPool? && s.pool > 0
  }

  ghost predicate SharedEnabled<T, V>(s: State<T, V>, who: Who, a: SharedAct) {
    match a
    case CallCancel => MayCancel(s, who)
    case CancelReturns => IsCancelling(s, who) && s.cancel.Over?
    case TryReport => HasPanicked(s, who)
    case Report => IsReporting(s, who) && s.caller.AtSelect?
  }

  ghost predicate Enabled<T, V>(workers: nat, s: State<T, V>, step: Step<T, V>) {
    match step
    case OfMapper(t, m) => MapperEnabled(workers, s, t, m)
    case OfAny(who, a) => SharedEnabled(s, who, a)
    case Offer(_) => s.generator.Generating? && s.received == |s.items|
    case GeneratorReturns(_) => s.generator.Generating? && s.received == |s.items|
    case CloseSource => s.generator.SourceOpen?
    case CheckFailed => s.dispatcher.Looping?
    case SeeStop => s.dispatcher.Selecting? && Stopped(s)
    case EnterPool => s.dispatcher.Selecting? && s.pool < workers
    case Dispatch => s.dispatcher.AwaitItem? && Offered(s)
    case SeeSourceClosed => s.dispatcher.AwaitItem? && SourceAtEnd(s) && s.pool > 0
    case Join => s.dispatcher.Joining? && s.waitGroup == 0
    case CloseCollector => s.dispatcher.ClosingCollector?
    case DrainSource => s.dispatcher.DrainingSource? && Offered(s)
    case SourceDrained => s.dispatcher.DrainingSource? && SourceAtEnd(s)
    case Read => s.reducer.Reducing? && s.taken < |s.sent|
    case ReducerReturns(_) => s.reducer.Reducing?
    case DrainCollector => s.reducer.DrainingCollector? && s.taken < |s.sent|
    case CollectorDrained => s.reducer.DrainingCollector? && s.closes > 0 && s.taken >= |s.sent|
    case FinishReducer => s.reducer.Finishing?
    case DrainForCancel => s.cancel.RunBy? && Offered(s)
    case FinishCancel => s.cancel.RunBy? && SourceAtEnd(s)
    case EndContext => true
    case TakeOutput => s.caller.AtSelect? && (s.done || s.reducer.Reducing?)
    case OutputClosed => s.caller.DrainingOutput? && s.done
  }

  ghost function Moved<V>(mappers: seq<Mapper<V>>, t: nat, pc: MapperPc<V>): (r: seq<Mapper<V>>)
    requires t < |mappers|
  {
    mappers[t := mappers[t].(pc := pc)]
  }

  ghost function Cancelling<T, V>(s: State<T, V>, who: Who): (r: State<T, V>)
    requires MayCancel(s, who)
  {
    match who
    case TheMapper(t) => s.(mappers := Moved(s.mappers, t, MapperCancelling))
    case TheReducer => s.(reducer := ReducerCancelling)
    case TheCaller => s.(caller := CallerCancelling)
  }

  ghost function Cancelled<T, V>(s: State<T, V>, who: Who): (r: State<T, V>)
    requires IsCancelling(s, who)
  {
    match who
    case TheMapper(t) => s.(mappers := Moved(s.mappers, t, Mapping))
    case TheReducer => s.(reducer := Reducing)
    case TheCaller => s.(caller := DrainingOutput)
  }

  ghost function Reporting<T, V>(s: State<T, V>, who: Who): (r: State<T, V>)
    requires HasPanicked(s, who)
  {
    match who
    case TheGenerator => s.(generator := GeneratorReporting)
    case TheMapper(t) => s.(mappers := Moved(s.mappers, t, MapperReporting))
    case TheReducer => s.(reducer := ReducerReporting)
  }

  ghost function Recovered<T, V>(s: State<T, V>, who: Who): (r: State<T, V>)
    requires HasPanicked(s, who) || IsReporting(s, who)
  {
    match who
    case TheGenerator => s.(generator := SourceOpen)
    case TheMapper(t) => s.(mappers := Moved(s.mappers, t, LeavingGroup))
    case TheReducer => s.(reducer := Finishing)
  }

  ghost function Written<V>(m: Mapper<V>, v: V, stopped: bool): (r: Mapper<V>) {
    if stopped then m.(writes := m.writes + [v], dropped := m.dropped + [v])
    else m.(writes := m.writes + [v], pc := Writing(v))
  }

  ghost function MapperDo<T, V>(workers: nat, s: State<T, V>, t: nat, m: MapperAct<V>): (r: State<T, V>)
    requires MapperEnabled(workers, s, t, m)
  {
    match m
    case CallWrite(v) => s.(mappers := s.mappers[t := Written(s.mappers[t], v, Stopped(s))])
    case Send =>
      s.(mappers := Moved(s.mappers, t, Mapping), sent := s.sent + [Output(t, s.mappers[t].pc.v)],
      crashed := s.crashed || s.closes > 0)
    case Return(panics) => s.(mappers := Moved(s.mappers, t, if panics then Failing else LeavingGroup))
    case CountFailure => s.(mappers := Moved(s.mappers, t, MapperPanicked), failed := s.failed + 1)
    case LeaveGroup => s.(mappers := Moved(s.mappers, t, LeavingPool), waitGroup := s.waitGroup - 1)
    case LeavePool => s.(mappers := Moved(s.mappers, t, MapperDone), pool := s.pool - 1)
  }

  ghost function SharedDo<T, V>(s: State<T, V>, who: Who, a: SharedAct): (r: State<T, V>)
    requires SharedEnabled(s, who, a)
  {
    match a
    case CallCancel => Cancelling(s, who).(cancel := if s.cancel.Never? then RunBy(who) else s.cancel)
    case CancelReturns => Cancelled(s, who)
    case TryReport => if s.wrote then Recovered(s, who) else Reporting(s, who).(wrote := true)
    case Report => Recovered(s, who).(caller := DrainingOutput)
  }

  ghost function Do<T, V>(workers: nat, s: State<T, V>, step: Step<T, V>): (r: State<T, V>)
    requires Enabled(workers, s, step)
  {
    match step
    case OfMapper(t, m) => MapperDo(workers, s, t, m)
    case OfAny(who, a) => SharedDo(s, who, a)
    case Offer(item) => s.(items := s.items + [item])
    case GeneratorReturns(panics) => s.(generator := if panics then GeneratorPanicked else SourceOpen)
    case CloseSource => s.(generator := SourceClosed)
    case CheckFailed => s.(dispatcher := if s.failed == 0 then Selecting else Joining)
    case SeeStop => s.(dispatcher := Joining)
    case EnterPool => s.(dispatcher := AwaitItem, pool := s.pool + 1)
    case Dispatch =>
      s.(dispatcher := Looping, received := s.received + 1, waitGroup := s.waitGroup + 1,
      mappers := s.mappers + [Mapper(s.received, Mapping, [], [])])
    case SeeSourceClosed => s.(dispatcher := Joining, pool := s.pool - 1)
    case Join => s.(dispatcher := ClosingCollector)
    case CloseCollector =>
      s.(dispatcher := DrainingSource, closes := s.closes + 1, crashed := s.crashed || s.closes > 0)
    case DrainSource => s.(received := s.received + 1, drained := s.drained + {s.received})
    case SourceDrained => s.(dispatcher := DispatcherDone)
    case Read => s.(taken := s.taken + 1, reduced := s.reduced + 1)
    case ReducerReturns(panics) => s.(reducer := DrainingCollector(panics))
    case DrainCollector => s.(taken := s.taken + 1)
    case CollectorDrained => s.(reducer := if s.reducer.panicked then ReducerPanicked else Finishing)
    case FinishReducer => s.(reducer := ReducerDone, done := true)
    case DrainForCancel => s.(received := s.received + 1, drained := s.drained + {s.received})
    case FinishCancel => s.(done := true, cancel := Over)
    case EndContext => s.(ctxDone := true)
    case TakeOutput => s.(caller := DrainingOutput)
    case OutputClosed => s.(caller := CallerDone)
  }

  ghost predicate Reaches<T(!new), V(!new)>(workers: nat, s: State<T, V>, steps: seq<Step<T, V>>, end: State<T, V>)
    decreases |steps|
  {
    if steps == [] then s == end
    else Enabled(workers, s, steps[0]) && Reaches(workers, Do(workers, s, steps[0]), steps[1..], end)
  }

  ghost predicate Reachable<T(!new), V(!new)>(workers: nat, s: State<T, V>) {
    exists steps :: Reaches(workers, Start(), steps, s)
  }
}

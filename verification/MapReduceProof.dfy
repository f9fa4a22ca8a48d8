/** What every run of a map-reduce keeps, and where it can end. */
module MapReduceProof {
  import opened Threads
  import opened MapReduce

  // ---- the invariant ---------------------------------------------------------------------------

  ghost predicate InPool<V>(m: Mapper<V>) {
    !m.pc.MapperDone?
  }

  ghost predicate InGroup<V>(m: Mapper<V>) {
    !m.pc.MapperDone? && !m.pc.LeavingPool?
  }

  ghost predicate Counted<T, V>(workers: nat, s: State<T, V>) {
    && s.pool == CountAt(s.mappers, InPool) + One(s.dispatcher.AwaitItem?)
    && s.pool <= workers
    && s.waitGroup == CountAt(s.mappers, InGroup)
  }

  ghost predicate PastJoin(d: Dispatcher) {
    d.ClosingCollector? || d.DrainingSource? || d.DispatcherDone?
  }

  ghost predicate Closing<T, V>(s: State<T, V>) {
    && s.closes == One(s.dispatcher.DrainingSource? || s.dispatcher.DispatcherDone?)
    && !s.crashed
    && (PastJoin(s.dispatcher) ==> s.waitGroup == 0)
  }

  /** The numbers of the mappers' items. */
  ghost function Indices<V>(mappers: seq<Mapper<V>>): (r: seq<nat>)
    ensures |r| == |mappers|
  {
    seq(|mappers|, t requires 0 <= t < |mappers| => mappers[t].index)
  }

  /** The numbers below `received` are those mapped, in their order and each once, and those drained. */
  ghost predicate Parted(received: nat, mapped: seq<nat>, drained: set<nat>) {
    && (forall t :: 0 <= t < |mapped| ==> mapped[t] < received && mapped[t] !in drained)
    && (forall t, u :: 0 <= t < u < |mapped| ==> mapped[t] < mapped[u])
    && (forall i :: i in drained ==> i < received)
    && (forall i: nat :: i < received ==> i in drained || i in mapped)
  }

  ghost predicate Sourced<T, V>(s: State<T, V>) {
    s.received <= |s.items| <= s.received + 1 && (!s.generator.Generating? ==> s.received == |s.items|)
  }

  ghost predicate Distributed<T, V>(s: State<T, V>) {
    Sourced(s) && Parted(s.received, Indices(s.mappers), s.drained)
  }

  /** The values from mapper t, in the order they were sent. */
  ghost function From<V>(sent: seq<Output<V>>, t: nat): (r: seq<V>) {
    if sent == [] then []
    else
      var last := sent[|sent| - 1];
      From(sent[..|sent| - 1], t) + if last.t == t then [last.v] else []
  }

  ghost function Pending<V>(pc: MapperPc<V>): (r: seq<V>) {
    if pc.Writing? then [pc.v] else []
  }

  ghost predicate Excused<T, V>(s: State<T, V>) {
    Stopped(s) && (s.ctxDone || !s.cancel.Never?)
  }

  /** Of each mapper a prefix of the writes was sent, and the rest dropped only after a cancel or the context's end. */
  ghost predicate Delivered<V>(sent: seq<Output<V>>, t: nat, m: Mapper<V>, excused: bool) {
    && m.writes == From(sent, t) + Pending(m.pc) + m.dropped
    && (m.dropped != [] ==> excused && !m.pc.Writing?)
  }

  ghost predicate AllDelivered<T, V>(s: State<T, V>) {
    forall t: nat :: t < |s.mappers| ==> Delivered(s.sent, t, s.mappers[t], Excused(s))
  }

  ghost predicate Flow<T, V>(s: State<T, V>) {
    s.reduced <= s.taken <= |s.sent| && forall k: nat :: k < |s.sent| ==> s.sent[k].t < |s.mappers|
  }

  ghost predicate DispatcherLeft(d: Dispatcher) {
    d.Joining? || PastJoin(d)
  }

  ghost predicate ReducerPast(r: Reducer) {
    r.ReducerPanicked? || r.ReducerReporting? || r.Finishing? || r.ReducerDone?
  }

  /** Why the dispatcher left its loop, why items were drained and why done was closed. */
  ghost predicate Reasons<T, V>(s: State<T, V>) {
    && (ReducerPast(s.reducer) ==> s.closes > 0 && s.taken == |s.sent|)
    && (s.done ==> !s.cancel.Never? || s.reducer.ReducerDone?)
    && (DispatcherLeft(s.dispatcher) ==> s.ctxDone || s.failed > 0 || !s.cancel.Never? || SourceAtEnd(s))
    && (s.drained != {} ==> s.ctxDone || s.failed > 0 || !s.cancel.Never?)
    && (s.dispatcher.DispatcherDone? ==> SourceAtEnd(s))
    && (s.reducer.ReducerDone? || s.cancel.Over? ==> s.done)
  }

  ghost predicate CancelsStarted<T, V>(s: State<T, V>) {
    forall who :: IsCancelling(s, who) ==> !s.cancel.Never?
  }

  ghost predicate Inv<T, V>(workers: nat, s: State<T, V>) {
    && Counted(workers, s) && Closing(s) && Distributed(s) && AllDelivered(s) && Flow(s) && Reasons(s)
    && CancelsStarted(s)
  }

  // ---- what the groups of steps leave alone ------------------------------------------------------

  /** The mappers as far as they count. */
  ghost predicate SameMapper<V>(before: seq<Mapper<V>>, after: seq<Mapper<V>>, t: nat) {
    t < |before| && |after| == |before| && after == before[t := after[t]] && after[t].index == before[t].index
  }

  /** A mapper's own step. */
  ghost predicate OwnMove<T, V>(s: State<T, V>, r: State<T, V>, t: nat) {
    && r == s.(mappers := r.mappers, sent := r.sent, crashed := r.crashed, failed := r.failed,
            waitGroup := r.waitGroup, pool := r.pool)
    && SameMapper(s.mappers, r.mappers, t)
    && s.failed <= r.failed
    && r.pool == s.pool + One(InPool(r.mappers[t])) - One(InPool(s.mappers[t]))
    && r.waitGroup == s.waitGroup + One(InGroup(r.mappers[t])) - One(InGroup(s.mappers[t]))
    && r.pool <= s.pool
    && (s.waitGroup == 0 ==> r.sent == s.sent && r.waitGroup == 0)
    && (s.closes == 0 || s.waitGroup == 0 ==> r.crashed == s.crashed)
    && (r.sent == s.sent || (s.mappers[t].pc.Writing? && r.sent == s.sent + [Output(t, s.mappers[t].pc.v)]))
  }

  /** A step of a panic or a cancel. */
  ghost predicate SharedMove<T, V>(s: State<T, V>, r: State<T, V>, who: Who) {
    && r == s.(mappers := r.mappers, reducer := r.reducer, caller := r.caller, generator := r.generator,
            cancel := r.cancel, wrote := r.wrote)
    && (if who.TheMapper? then
          SameMapper(s.mappers, r.mappers, who.t) && InGroup(s.mappers[who.t]) && InGroup(r.mappers[who.t]) &&
          var before, after := s.mappers[who.t], r.mappers[who.t];
          after == before.(pc := after.pc) && !before.pc.Writing? && !after.pc.Writing?
        else r.mappers == s.mappers)
    && (who.TheReducer? || r.reducer == s.reducer)
    && (ReducerPast(r.reducer) ==> ReducerPast(s.reducer))
    && (r.reducer.ReducerDone? <==> s.reducer.ReducerDone?)
    && (r.generator.SourceClosed? <==> s.generator.SourceClosed?)
    && (r.generator.Generating? <==> s.generator.Generating?)
    && (s.cancel.Never? || r.cancel == s.cancel) && (r.cancel.Over? <==> s.cancel.Over?)
  }

  lemma GroupMember<T, V>(workers: nat, s: State<T, V>, t: nat)
    requires Counted(workers, s) && t < |s.mappers| && InGroup(s.mappers[t])
    ensures s.waitGroup > 0
  {
    CountedOne(s.mappers, t, InGroup);
  }

  lemma MapperMoves<T, V>(workers: nat, s: State<T, V>, t: nat, m: MapperAct<V>)
    requires MapperEnabled(workers, s, t, m) && (InGroup(s.mappers[t]) ==> s.waitGroup > 0)
    ensures OwnMove(s, MapperDo(workers, s, t, m), t)
  {
    if m.CallWrite? {
      WriteMoves(workers, s, t, m.v);
    } else if m.Send? {
      SendMoves(workers, s, t);
    } else {
      OtherMoves(workers, s, t, m);
    }
    hide OwnMove, MapperDo, MapperEnabled;
  }

  lemma WriteMoves<T, V>(workers: nat, s: State<T, V>, t: nat, v: V)
    requires MapperEnabled(workers, s, t, CallWrite(v))
    ensures OwnMove(s, MapperDo(workers, s, t, CallWrite(v)), t)
  {
  }

  lemma SendMoves<T, V>(workers: nat, s: State<T, V>, t: nat)
    requires MapperEnabled(workers, s, t, Send) && s.waitGroup > 0
    ensures OwnMove(s, MapperDo(workers, s, t, Send), t)
  {
  }

  lemma OtherMoves<T, V>(workers: nat, s: State<T, V>, t: nat, m: MapperAct<V>)
    requires MapperEnabled(workers, s, t, m) && (InGroup(s.mappers[t]) ==> s.waitGroup > 0)
    requires !m.CallWrite? && !m.Send?
    ensures OwnMove(s, MapperDo(workers, s, t, m), t)
  {
    if m.LeaveGroup? || m.LeavePool? {
      LeaveMoves(workers, s, t, m);
    } else {
      ReturnMoves(workers, s, t, m);
    }
    hide OwnMove, MapperDo, MapperEnabled;
  }

  lemma LeaveMoves<T, V>(workers: nat, s: State<T, V>, t: nat, m: MapperAct<V>)
    requires MapperEnabled(workers, s, t, m) && (InGroup(s.mappers[t]) ==> s.waitGroup > 0)
    requires m.LeaveGroup? || m.LeavePool?
    ensures OwnMove(s, MapperDo(workers, s, t, m), t)
  {
  }

  lemma ReturnMoves<T, V>(workers: nat, s: State<T, V>, t: nat, m: MapperAct<V>)
    requires MapperEnabled(workers, s, t, m) && (m.Return? || m.CountFailure?)
    ensures OwnMove(s, MapperDo(workers, s, t, m), t)
  {
  }

  lemma SharedMoves<T, V>(s: State<T, V>, who: Who, a: SharedAct)
    requires SharedEnabled(s, who, a)
    ensures SharedMove(s, SharedDo(s, who, a), who)
  {
    if a.CallCancel? || a.CancelReturns? {
      CancelMoves(s, who, a);
    } else if a.TryReport? {
      TryMoves(s, who);
    } else {
      ReportMoves(s, who);
    }
    hide SharedMove, SharedDo, SharedEnabled;
  }

  lemma CancelMoves<T, V>(s: State<T, V>, who: Who, a: SharedAct)
    requires SharedEnabled(s, who, a) && (a.CallCancel? || a.CancelReturns?)
    ensures SharedMove(s, SharedDo(s, who, a), who)
  {
  }

  lemma TryMoves<T, V>(s: State<T, V>, who: Who)
    requires SharedEnabled(s, who, TryReport)
    ensures SharedMove(s, SharedDo(s, who, TryReport), who)
  {
  }

  lemma ReportMoves<T, V>(s: State<T, V>, who: Who)
    requires SharedEnabled(s, who, Report)
    ensures SharedMove(s, SharedDo(s, who, Report), who)
  {
  }

  ghost predicate Central<T, V>(step: Step<T, V>) {
    !step.OfMapper? && !step.OfAny?
  }

  lemma Member<T, V>(workers: nat, s: State<T, V>, t: nat, m: MapperAct<V>)
    requires Counted(workers, s) && MapperEnabled(workers, s, t, m)
    ensures t < |s.mappers| && (InGroup(s.mappers[t]) ==> s.waitGroup > 0)
  {
    if InGroup(s.mappers[t]) {
      GroupMember(workers, s, t);
    }
  }

  // ---- every step keeps it ---------------------------------------------------------------------

  ghost function Fresh<V>(index: nat): (r: Mapper<V>) {
    Mapper(index, Mapping, [], [])
  }

  lemma CountedMoved<T, V>(workers: nat, s: State<T, V>, r: State<T, V>, t: nat)
    requires Counted(workers, s) && SameMapper(s.mappers, r.mappers, t) && r.dispatcher == s.dispatcher
    requires r.pool == s.pool + One(InPool(r.mappers[t])) - One(InPool(s.mappers[t]))
    requires r.waitGroup == s.waitGroup + One(InGroup(r.mappers[t])) - One(InGroup(s.mappers[t]))
    requires r.pool <= s.pool
    ensures Counted(workers, r)
  {
    hide CountAt;
    CountUpdate(s.mappers, t, r.mappers[t], InPool);
    CountUpdate(s.mappers, t, r.mappers[t], InGroup);
  }

  lemma CountedCentral<T, V>(workers: nat, s: State<T, V>, step: Step<T, V>)
    requires Counted(workers, s) && Enabled(workers, s, step) && Central(step)
    ensures Counted(workers, Do(workers, s, step))
  {
    hide MapperEnabled, MapperDo, SharedEnabled, SharedDo;
    hide CountAt;
    if step.Dispatch? {
      CountAppend(s.mappers, Fresh(s.received), InPool);
      CountAppend(s.mappers, Fresh(s.received), InGroup);
    }
  }

  lemma CountedSame<T, V>(workers: nat, s: State<T, V>, r: State<T, V>)
    requires Counted(workers, s) && r.mappers == s.mappers && r.dispatcher == s.dispatcher
    requires r.pool == s.pool && r.waitGroup == s.waitGroup
    ensures Counted(workers, r)
  {
  }

  lemma ClosingCentral<T, V>(workers: nat, s: State<T, V>, step: Step<T, V>)
    requires Closing(s) && Enabled(workers, s, step) && Central(step)
    ensures Closing(Do(workers, s, step))
  {
    hide MapperEnabled, MapperDo, SharedEnabled, SharedDo;
  }

  // ---- items -------------------------------------------------------------------------------------

  lemma PartedTaken(received: nat, mapped: seq<nat>, drained: set<nat>)
    requires Parted(received, mapped, drained)
    ensures Parted(received + 1, mapped + [received], drained)
    ensures Parted(received + 1, mapped, drained + {received})
  {
    var more := mapped + [received];
    assert more[|mapped|] == received;
    forall i: nat | i < received && i !in drained ensures i in more {
      var t :| 0 <= t < |mapped| && mapped[t] == i;
      assert more[t] == i;
    }
  }

  lemma IndicesSame<V>(before: seq<Mapper<V>>, after: seq<Mapper<V>>, t: nat)
    requires SameMapper(before, after, t)
    ensures Indices(after) == Indices(before)
  {
  }

  lemma IndicesMore<V>(before: seq<Mapper<V>>, index: nat)
    ensures Indices(before + [Fresh(index)]) == Indices(before) + [index]
  {
  }

  lemma SourcedCentral<T, V>(workers: nat, s: State<T, V>, step: Step<T, V>)
    requires Sourced(s) && Enabled(workers, s, step) && Central(step)
    ensures var r, drains := Do(workers, s, step), step.DrainSource? || step.DrainForCancel?;
            && Sourced(r)
            && r.mappers == (if step.Dispatch? then s.mappers + [Fresh(s.received)] else s.mappers)
            && r.received == (if step.Dispatch? || drains then s.received + 1 else s.received)
            && r.drained == (if drains then s.drained + {s.received} else s.drained)
  {
    hide MapperEnabled, MapperDo, SharedEnabled, SharedDo;
  }

  // ---- values ------------------------------------------------------------------------------------

  lemma FromNone<V>(sent: seq<Output<V>>, t: nat)
    requires forall k: nat :: k < |sent| ==> sent[k].t != t
    ensures From(sent, t) == []
  {
  }

  lemma FromSend<V>(sent: seq<Output<V>>, o: Output<V>, t: nat)
    ensures From(sent + [o], t) == From(sent, t) + if o.t == t then [o.v] else []
  {
    assert (sent + [o])[..|sent|] == sent;
  }

  /** What a mapper's own step does to its writes. */
  lemma DeliveredOwn<T, V>(workers: nat, s: State<T, V>, t: nat, m: MapperAct<V>)
    requires MapperEnabled(workers, s, t, m) && Delivered(s.sent, t, s.mappers[t], Excused(s))
    requires m.CallWrite? && Stopped(s) ==> Excused(s)
    ensures var r := MapperDo(workers, s, t, m); Delivered(r.sent, t, r.mappers[t], Excused(s))
  {
    hide From;
    if m.Send? {
      FromSend(s.sent, Output(t, s.mappers[t].pc.v), t);
    }
  }

  /** A write finds done closed only after a cancel, while the reducer cannot be done yet. */
  lemma WritesAreExcused<T, V>(workers: nat, s: State<T, V>, t: nat)
    requires Counted(workers, s) && Closing(s) && Reasons(s) && t < |s.mappers| && InGroup(s.mappers[t]) && Stopped(s)
    ensures Excused(s)
  {
    GroupMember(workers, s, t);
  }

  lemma DeliveredMapper<T, V>(workers: nat, s: State<T, V>, t: nat, m: MapperAct<V>)
    requires Counted(workers, s) && Closing(s) && Reasons(s) && AllDelivered(s) && MapperEnabled(workers, s, t, m)
    ensures AllDelivered(MapperDo(workers, s, t, m))
  {
    var r := MapperDo(workers, s, t, m);
    Member(workers, s, t, m);
    MapperMoves(workers, s, t, m);
    if m.CallWrite? && Stopped(s) {
      WritesAreExcused(workers, s, t);
    }
    DeliveredOwn(workers, s, t, m);
    hide Counted, Closing, Reasons, MapperEnabled, MapperDo, From, Delivered;
    forall u: nat | u < |r.mappers| ensures Delivered(r.sent, u, r.mappers[u], Excused(r)) {
      if u != t {
        DeliveredOther(s, r, t, u);
      }
    }
  }

  lemma DeliveredOther<T, V>(s: State<T, V>, r: State<T, V>, t: nat, u: nat)
    requires OwnMove(s, r, t) && u < |s.mappers| && u != t && Delivered(s.sent, u, s.mappers[u], Excused(s))
    ensures Delivered(r.sent, u, r.mappers[u], Excused(r))
  {
    hide From;
    if r.sent != s.sent {
      FromSend(s.sent, Output(t, s.mappers[t].pc.v), u);
    }
  }

  lemma DeliveredShared<T, V>(s: State<T, V>, r: State<T, V>, who: Who)
    requires AllDelivered(s) && SharedMove(s, r, who)
    ensures AllDelivered(r)
  {
    hide From;
    forall u: nat | u < |r.mappers| ensures Delivered(r.sent, u, r.mappers[u], Excused(r)) {
      assert Delivered(s.sent, u, s.mappers[u], Excused(s));
    }
  }

  lemma SentCentral<T, V>(workers: nat, s: State<T, V>, step: Step<T, V>)
    requires Enabled(workers, s, step) && Central(step) && s.reduced <= s.taken <= |s.sent|
    ensures var r := Do(workers, s, step);
            && r.sent == s.sent && r.reduced <= r.taken <= |r.sent|
            && r.mappers == if step.Dispatch? then s.mappers + [Fresh(s.received)] else s.mappers
  {
    hide MapperEnabled, MapperDo, SharedEnabled, SharedDo;
    match step
    case Read =>
    case DrainCollector =>
    case Dispatch =>
    case _ =>
      if OfDispatcher(step) {
        DispatcherKeepsSent(workers, s, step);
      } else {
        OthersKeepSent(workers, s, step);
      }
  }

  /** All that central steps other than Read, DrainCollector and Dispatch can change. */
  ghost predicate KeepsSent<T, V>(s: State<T, V>, r: State<T, V>) {
    r == s.(items := r.items, received := r.received, drained := r.drained, closes := r.closes, crashed := r.crashed,
    pool := r.pool, ctxDone := r.ctxDone, done := r.done, cancel := r.cancel, generator := r.generator,
    dispatcher := r.dispatcher, reducer := r.reducer, caller := r.caller)
  }

  ghost predicate OfDispatcher<T, V>(step: Step<T, V>) {
    step.CheckFailed? || step.SeeStop? || step.EnterPool? || step.SeeSourceClosed? || step.Join? ||
    step.CloseCollector? || step.DrainSource? || step.SourceDrained?
  }

  lemma DispatcherKeepsSent<T, V>(workers: nat, s: State<T, V>, step: Step<T, V>)
    requires Enabled(workers, s, step) && OfDispatcher(step)
    ensures KeepsSent(s, Do(workers, s, step))
  {
    hide MapperEnabled, MapperDo, SharedEnabled, SharedDo;
  }

  lemma OthersKeepSent<T, V>(workers: nat, s: State<T, V>, step: Step<T, V>)
    requires Enabled(workers, s, step) && Central(step) && !OfDispatcher(step)
    requires !step.Read? && !step.DrainCollector? && !step.Dispatch?
    ensures KeepsSent(s, Do(workers, s, step))
  {
    hide MapperEnabled, MapperDo, SharedEnabled, SharedDo;
  }

  lemma ExcusedCentral<T, V>(workers: nat, s: State<T, V>, step: Step<T, V>)
    requires Enabled(workers, s, step) && Central(step) && Excused(s)
    ensures Excused(Do(workers, s, step))
  {
    hide MapperEnabled, MapperDo, SharedEnabled, SharedDo;
  }

  lemma DeliveredCentral<T, V>(s: State<T, V>, r: State<T, V>)
    requires AllDelivered(s) && Flow(s) && r.sent == s.sent && (Excused(s) ==> Excused(r))
    requires r.mappers == s.mappers || r.mappers == s.mappers + [Fresh(s.received)]
    ensures AllDelivered(r)
  {
    hide From, Excused;
    forall u: nat | u < |r.mappers| ensures Delivered(r.sent, u, r.mappers[u], Excused(r)) {
      if u < |s.mappers| {
        assert Delivered(s.sent, u, s.mappers[u], Excused(s));
      } else {
        FromNone(s.sent, u);
      }
    }
  }

  // ---- reasons -----------------------------------------------------------------------------------

  lemma ReasonsOwn<T, V>(s: State<T, V>, r: State<T, V>, t: nat)
    requires Closing(s) && Reasons(s) && OwnMove(s, r, t)
    ensures Reasons(r)
  {
  }

  lemma ReasonsShared<T, V>(s: State<T, V>, r: State<T, V>, who: Who)
    requires Reasons(s) && SharedMove(s, r, who)
    ensures Reasons(r)
  {
    hide SameMapper, InGroup;
  }

  lemma ReasonsCentral<T, V>(workers: nat, s: State<T, V>, step: Step<T, V>)
    requires Closing(s) && Reasons(s) && s.taken <= |s.sent| && Enabled(workers, s, step) && Central(step)
    ensures Reasons(Do(workers, s, step))
  {
    hide MapperEnabled, MapperDo, SharedEnabled, SharedDo;
  }

  // ---- cancels -----------------------------------------------------------------------------------

  lemma CancelsMapper<T, V>(workers: nat, s: State<T, V>, t: nat, m: MapperAct<V>, who: Who)
    requires MapperEnabled(workers, s, t, m) && IsCancelling(MapperDo(workers, s, t, m), who)
    ensures IsCancelling(s, who)
  {
  }

  lemma CancelsShared<T, V>(s: State<T, V>, who: Who, a: SharedAct, other: Who)
    requires SharedEnabled(s, who, a) && IsCancelling(SharedDo(s, who, a), other)
    ensures IsCancelling(s, other) || !SharedDo(s, who, a).cancel.Never?
  {
  }

  lemma CancelsCentral<T, V>(workers: nat, s: State<T, V>, step: Step<T, V>, who: Who)
    requires Enabled(workers, s, step) && Central(step) && IsCancelling(Do(workers, s, step), who)
    ensures IsCancelling(s, who) && (!s.cancel.Never? ==> !Do(workers, s, step).cancel.Never?)
  {
    hide MapperEnabled, MapperDo, SharedEnabled, SharedDo;
  }

  // ---- the three kinds of steps --------------------------------------------------------------------

  lemma OwnKeeps<T, V>(workers: nat, s: State<T, V>, t: nat, m: MapperAct<V>)
    requires Inv(workers, s) && MapperEnabled(workers, s, t, m)
    ensures Inv(workers, MapperDo(workers, s, t, m))
  {
    var r := MapperDo(workers, s, t, m);
    Member(workers, s, t, m);
    MapperMoves(workers, s, t, m);
    DeliveredMapper(workers, s, t, m);
    hide MapperEnabled, MapperDo, Counted, AllDelivered, Parted, Reasons, IsCancelling, Indices;
    CountedMoved(workers, s, r, t);
    IndicesSame(s.mappers, r.mappers, t);
    ReasonsOwn(s, r, t);
    forall who | IsCancelling(r, who) ensures !r.cancel.Never? {
      CancelsMapper(workers, s, t, m, who);
    }
  }

  lemma SharedKeeps<T, V>(workers: nat, s: State<T, V>, who: Who, a: SharedAct)
    requires Inv(workers, s) && SharedEnabled(s, who, a)
    ensures Inv(workers, SharedDo(s, who, a))
  {
    hide SharedEnabled, SharedDo, Counted, AllDelivered, Parted, Reasons, IsCancelling, Indices;
    var r := SharedDo(s, who, a);
    SharedMoves(s, who, a);
    if who.TheMapper? {
      CountedMoved(workers, s, r, who.t);
      IndicesSame(s.mappers, r.mappers, who.t);
    } else {
      CountedSame(workers, s, r);
    }
    DeliveredShared(s, r, who);
    ReasonsShared(s, r, who);
    forall other | IsCancelling(r, other) ensures !r.cancel.Never? {
      CancelsShared(s, who, a, other);
    }
  }

  lemma CentralKeeps<T, V>(workers: nat, s: State<T, V>, step: Step<T, V>)
    requires Inv(workers, s) && Enabled(workers, s, step) && Central(step)
    ensures Inv(workers, Do(workers, s, step))
  {
    hide Enabled, Do, Counted, Closing, AllDelivered, Parted, Reasons, IsCancelling, Indices, Excused;
    var r := Do(workers, s, step);
    CountedCentral(workers, s, step);
    ClosingCentral(workers, s, step);
    SourcedCentral(workers, s, step);
    PartedTaken(s.received, Indices(s.mappers), s.drained);
    IndicesMore(s.mappers, s.received);
    SentCentral(workers, s, step);
    if Excused(s) {
      ExcusedCentral(workers, s, step);
    }
    DeliveredCentral(s, r);
    ReasonsCentral(workers, s, step);
    forall who | IsCancelling(r, who) ensures !r.cancel.Never? {
      CancelsCentral(workers, s, step, who);
    }
  }

  lemma InvStep<T, V>(workers: nat, s: State<T, V>, step: Step<T, V>)
    requires Inv(workers, s) && Enabled(workers, s, step)
    ensures Inv(workers, Do(workers, s, step))
  {
    hide Inv, MapperEnabled, MapperDo, SharedEnabled, SharedDo;
    match step
    case OfMapper(t, m) => OwnKeeps(workers, s, t, m);
    case OfAny(who, a) => SharedKeeps(workers, s, who, a);
    case _ => CentralKeeps(workers, s, step);
  }

  lemma {:induction false} RunKeepsInv<T(!new), V(!new)>(workers: nat, s: State<T, V>, steps: seq<Step<T, V>>,
                                                         end: State<T, V>)
    requires Inv(workers, s) && Reaches(workers, s, steps, end)
    ensures Inv(workers, end)
    decreases |steps|
  {
    hide Inv, Enabled, Do;
    if steps != [] {
      InvStep(workers, s, steps[0]);
      RunKeepsInv(workers, Do(workers, s, steps[0]), steps[1..], end);
    }
  }

  lemma ReachableInv<T(!new), V(!new)>(workers: nat, s: State<T, V>)
    requires Reachable(workers, s)
    ensures Inv(workers, s)
  {
    var steps :| Reaches(workers, Start(), steps, s);
    RunKeepsInv(workers, Start(), steps, s);
  }

  // ---- what holds in every run -------------------------------------------------------------------

  ghost predicate Running<V>(m: Mapper<V>) {
    m.pc.Mapping? || m.pc.Writing? || m.pc.MapperCancelling?
  }

  /** At most `workers` mappers run at once. */
  lemma WorkersAreLimited<T(!new), V(!new)>(workers: nat, s: State<T, V>)
    requires Reachable(workers, s)
    ensures CountAt(s.mappers, Running<V>) <= workers
  {
    ReachableInv(workers, s);
    CountLess(s.mappers, Running<V>, InPool);
  }

  ghost predicate Mapped<T, V>(s: State<T, V>, i: nat) {
    exists t: nat :: t < |s.mappers| && s.mappers[t].index == i
  }

  lemma MappedIs<T, V>(s: State<T, V>)
    ensures forall i: nat :: Mapped(s, i) <==> i in Indices(s.mappers)
  {
    forall i: nat ensures Mapped(s, i) <==> i in Indices(s.mappers) {
      if i in Indices(s.mappers) {
        var t :| 0 <= t < |s.mappers| && Indices(s.mappers)[t] == i;
        assert s.mappers[t].index == i;
      }
      if Mapped(s, i) {
        var t: nat :| t < |s.mappers| && s.mappers[t].index == i;
        assert Indices(s.mappers)[t] == i;
      }
    }
  }

  /** Every received item went to exactly one mapper or was drained, and the dispatcher is done only when the
      source is closed and all its items were received. */
  lemma ItemsAreConsumedOnce<T(!new), V(!new)>(workers: nat, s: State<T, V>)
    requires Reachable(workers, s)
    ensures forall i: nat :: i < s.received <==> i in s.drained || Mapped(s, i)
    ensures forall i: nat :: !(i in s.drained && Mapped(s, i))
    ensures forall t: nat, u: nat :: t < u < |s.mappers| ==> s.mappers[t].index != s.mappers[u].index
    ensures s.received <= |s.items|
    ensures s.dispatcher.DispatcherDone? ==> s.generator.SourceClosed? && s.received == |s.items|
  {
    ReachableInv(workers, s);
    hide Counted, Closing, Flow, AllDelivered;
    MappedIs(s);
    forall t: nat, u: nat | t < u < |s.mappers| ensures s.mappers[t].index != s.mappers[u].index {
      assert Indices(s.mappers)[t] != Indices(s.mappers)[u];
    }
  }

  /** The collector is closed at most once, when no mapper is left that could send on it; so nothing is ever sent
      on it closed. */
  lemma CollectorClosesLast<T(!new), V(!new)>(workers: nat, s: State<T, V>)
    requires Reachable(workers, s)
    ensures s.closes <= 1 && !s.crashed
    ensures s.closes == 1 ==> forall t: nat :: t < |s.mappers| ==> !InGroup(s.mappers[t])
  {
    ReachableInv(workers, s);
    hide Distributed, Flow, Reasons;
    if s.closes == 1 {
      forall t: nat | t < |s.mappers| ensures !InGroup(s.mappers[t]) {
        if InGroup(s.mappers[t]) {
          GroupMember(workers, s, t);
        }
      }
    }
  }

  /** At any time the values sent by a mapper are a prefix of those it wrote. What is missing is the one it is about to
      send, or values that Write dropped; it drops only after a cancel or the context's end. */
  lemma WritesGoOutInOrder<T(!new), V(!new)>(workers: nat, s: State<T, V>, t: nat)
    requires Reachable(workers, s) && t < |s.mappers|
    ensures var m := s.mappers[t];
            && m.writes == From(s.sent, t) + Pending(m.pc) + m.dropped
            && (m.dropped != [] ==> !m.pc.Writing? && (s.ctxDone || !s.cancel.Never?))
  {
    ReachableInv(workers, s);
    assert Delivered(s.sent, t, s.mappers[t], Excused(s));
  }

  /** In any run, once the reducer and the drain after it are through with the collector, they received all that
      was sent, each mapper's values in the order it wrote them: all of its writes unless someone cancelled or the
      context ended, and all items were mapped, each once, unless a mapper panicked too. */
  lemma NothingIsLost<T(!new), V(!new)>(workers: nat, s: State<T, V>)
    requires Reachable(workers, s) && ReducerPast(s.reducer)
    ensures s.taken == |s.sent|
    ensures forall t: nat :: t < |s.mappers| ==> From(s.sent, t) + s.mappers[t].dropped == s.mappers[t].writes
    ensures !s.ctxDone && s.cancel.Never? ==>
              forall t: nat :: t < |s.mappers| ==> From(s.sent, t) == s.mappers[t].writes
    ensures !s.ctxDone && s.cancel.Never? && s.failed == 0 ==>
              SourceAtEnd(s) && forall i: nat :: i < |s.items| ==> Mapped(s, i)
    ensures forall k: nat :: k < |s.sent| ==> s.sent[k].t < |s.mappers|
  {
    ReachableInv(workers, s);
    CollectorClosesLast(workers, s);
    ItemsAreConsumedOnce(workers, s);
    hide Counted, From, Parted, Delivered;
    forall t: nat | t < |s.mappers|
      ensures From(s.sent, t) + s.mappers[t].dropped == s.mappers[t].writes
      ensures !s.ctxDone && s.cancel.Never? ==> From(s.sent, t) == s.mappers[t].writes
    {
      assert !InGroup(s.mappers[t]);
      WritesGoOutInOrder(workers, s, t);
    }
  }

  // ---- progress ----------------------------------------------------------------------------------

  /** Steps that are not the choice of a user function or of the context; the caller cancels on its own. */
  ghost predicate Internal<T, V>(step: Step<T, V>) {
    match step
    case OfMapper(_, m) => !m.CallWrite? && !m.Return?
    case OfAny(who, a) => !a.CallCancel? || who.TheCaller?
    case Offer(_) => false
    case GeneratorReturns(_) => false
    case Read => false
    case ReducerReturns(_) => false
    case EndContext => false
    case _ => true
  }

  ghost predicate Stuck<T(!new), V(!new)>(workers: nat, s: State<T, V>) {
    forall step: Step<T, V> :: Internal(step) ==> !Enabled(workers, s, step)
  }

  /** All user functions have returned. */
  ghost predicate UsersDone<T, V>(s: State<T, V>) {
    && !s.generator.Generating? && !s.reducer.Reducing?
    && (forall t: nat :: t < |s.mappers| ==> !s.mappers[t].pc.Mapping?)
  }

  /** Someone waits for the caller to take a panic. */
  ghost predicate SomeoneReports<T, V>(s: State<T, V>) {
    exists who :: IsReporting(s, who)
  }

  lemma StuckSource<T(!new), V(!new)>(workers: nat, s: State<T, V>)
    requires Distributed(s) && Stuck(workers, s) && UsersDone(s) && !SomeoneReports(s)
    ensures SourceAtEnd(s) && !s.cancel.RunBy?
  {
    assert !IsReporting(s, TheGenerator);
    assert !Enabled(workers, s, OfAny(TheGenerator, TryReport));
    assert !Enabled(workers, s, CloseSource) && !Enabled(workers, s, FinishCancel);
  }

  lemma StuckReducer<T(!new), V(!new)>(workers: nat, s: State<T, V>)
    requires CancelsStarted(s) && Stuck(workers, s) && UsersDone(s) && !SomeoneReports(s) && !s.cancel.RunBy?
    ensures s.reducer.ReducerDone? || (s.reducer.DrainingCollector? && s.closes == 0 && s.taken >= |s.sent|)
  {
    assert !IsReporting(s, TheReducer) && (IsCancelling(s, TheReducer) ==> !s.cancel.Never?);
    assert !Enabled(workers, s, ReducerNext<T, V>(s)) && !Enabled(workers, s, DrainCollector);
  }

  /** How a reducer that has returned goes on. */
  ghost function ReducerNext<T, V>(s: State<T, V>): (r: Step<T, V>) {
    match s.reducer
    case ReducerCancelling => OfAny(TheReducer, CancelReturns)
    case ReducerPanicked => OfAny(TheReducer, TryReport)
    case Finishing => FinishReducer
    case _ => CollectorDrained
  }

  /** How a mapper that has returned goes on. */
  ghost function MapperNext<T, V>(t: nat, pc: MapperPc<V>): (r: Step<T, V>) {
    match pc
    case Writing(_) => OfMapper(t, Send)
    case MapperCancelling => OfAny(TheMapper(t), CancelReturns)
    case Failing => OfMapper(t, CountFailure)
    case MapperPanicked => OfAny(TheMapper(t), TryReport)
    case LeavingGroup => OfMapper(t, LeaveGroup)
    case _ => OfMapper(t, LeavePool)
  }

  ghost function DispatcherNext<T, V>(d: Dispatcher): (r: Step<T, V>) {
    match d
    case Looping => CheckFailed
    case Selecting => EnterPool
    case AwaitItem => SeeSourceClosed
    case Joining => Join
    case ClosingCollector => CloseCollector
    case _ => SourceDrained
  }

  lemma StuckMapper<T(!new), V(!new)>(workers: nat, s: State<T, V>, t: nat)
    requires workers > 0 && Inv(workers, s) && Stuck(workers, s) && UsersDone(s) && !SomeoneReports(s)
    requires t < |s.mappers|
    ensures s.mappers[t].pc.MapperDone?
  {
    var m, me := s.mappers[t], TheMapper(t);
    StuckSource(workers, s);
    StuckReducer(workers, s);
    if InPool(m) {
      CountedOne(s.mappers, t, InPool);
      if InGroup(m) {
        GroupMember(workers, s, t);
      }
    }
    hide Distributed, Flow, CountAt, Counted, Closing, Reasons, AllDelivered;
    assert !Enabled(workers, s, MapperNext<T, V>(t, m.pc));
    assert !IsReporting(s, me) && (IsCancelling(s, me) ==> !s.cancel.Never?);
  }

  lemma StuckDispatcher<T(!new), V(!new)>(workers: nat, s: State<T, V>)
    requires workers > 0 && Inv(workers, s) && Stuck(workers, s) && UsersDone(s) && !SomeoneReports(s)
    requires forall t: nat :: t < |s.mappers| ==> s.mappers[t].pc.MapperDone?
    ensures s.dispatcher.DispatcherDone?
  {
    StuckSource(workers, s);
    CountedNone(s.mappers, InPool);
    CountedNone(s.mappers, InGroup);
    hide Distributed, Flow, CountAt, Reasons, CancelsStarted, UsersDone, AllDelivered;
    assert !Enabled(workers, s, DispatcherNext<T, V>(s.dispatcher));
  }

  /** Everything has ended. */
  ghost predicate AllDone<T, V>(s: State<T, V>) {
    && s.generator.SourceClosed? && s.dispatcher.DispatcherDone? && s.reducer.ReducerDone? && s.caller.CallerDone?
    && (forall t: nat :: t < |s.mappers| ==> s.mappers[t].pc.MapperDone?)
    && s.received == |s.items| && s.taken == |s.sent| && s.closes == 1 && s.done
  }

  /** When all user functions have returned and nothing can move on its own, then everything has ended if and only if
      nobody waits for the caller to take a panic; and who waits does so because the caller has left its select. */
  lemma OnlyReportsHang<T(!new), V(!new)>(workers: nat, s: State<T, V>)
    requires workers > 0 && Reachable(workers, s) && Stuck(workers, s) && UsersDone(s)
    ensures AllDone(s) <==> !SomeoneReports(s)
    ensures SomeoneReports(s) ==> !s.caller.AtSelect?
  {
    ReachableInv(workers, s);
    if who :| IsReporting(s, who) {
      assert !Enabled(workers, s, OfAny(who, Report));
    } else {
      EndIsDone(workers, s);
    }
  }

  lemma EndIsDone<T(!new), V(!new)>(workers: nat, s: State<T, V>)
    requires workers > 0 && Inv(workers, s) && Stuck(workers, s) && UsersDone(s) && !SomeoneReports(s)
    ensures AllDone(s)
  {
    forall t: nat | t < |s.mappers| ensures s.mappers[t].pc.MapperDone? {
      StuckMapper(workers, s, t);
    }
    StuckSource(workers, s);
    StuckDispatcher(workers, s);
    StuckReducer(workers, s);
    hide Distributed, Flow, Counted, AllDelivered;
    assert !Enabled(workers, s, TakeOutput) && !Enabled(workers, s, OutputClosed);
    assert !Enabled(workers, s, OfAny(TheCaller, CancelReturns)) && (IsCancelling(s, TheCaller) ==> !s.cancel.Never?);
  }

  /** In such states the call itself has returned, with a result or a panic, except in two cases: the caller cancels and
      drains a source that a panicked generator has not closed, or it waits for an output that is never closed because a
      panic came up after it had taken what it waited for. */
  lemma CallReturnsUnless<T(!new), V(!new)>(workers: nat, s: State<T, V>)
    requires workers > 0 && Reachable(workers, s) && Stuck(workers, s) && UsersDone(s)
    ensures s.caller.CallerDone?
       <==> (!(s.caller.CallerCancelling? && s.generator.GeneratorReporting?)
             && !(s.caller.DrainingOutput? && !s.done && SomeoneReports(s)))
  {
    OnlyReportsHang(workers, s);
    ReachableInv(workers, s);
    if s.caller.CallerCancelling? {
      StuckCancel(workers, s);
    }
    assert !Enabled(workers, s, OutputClosed);
  }

  lemma StuckCancel<T(!new), V(!new)>(workers: nat, s: State<T, V>)
    requires Inv(workers, s) && Stuck(workers, s) && UsersDone(s) && s.caller.CallerCancelling?
    ensures s.generator.GeneratorReporting?
  {
    hide Counted, Closing, Flow, AllDelivered, Reasons, Parted;
    assert IsCancelling(s, TheCaller) && !Enabled(workers, s, OfAny(TheCaller, CancelReturns));
    assert !Enabled(workers, s, FinishCancel) && !Enabled(workers, s, CloseSource);
    assert !Enabled(workers, s, OfAny(TheGenerator, TryReport));
  }

  // ---- runs without panics ---------------------------------------------------------------------------

  ghost predicate Panics<T, V>(step: Step<T, V>) {
    match step
    case OfMapper(_, Return(panics)) => panics
    case GeneratorReturns(panics) => panics
    case ReducerReturns(panics) => panics
    case _ => false
  }

  ghost predicate CalmMapper<V>(pc: MapperPc<V>) {
    !pc.Failing? && !pc.MapperPanicked? && !pc.MapperReporting?
  }

  /** Nobody has panicked. */
  ghost predicate Calm<T, V>(s: State<T, V>) {
    && !s.generator.GeneratorPanicked? && !s.generator.GeneratorReporting?
    && !s.reducer.ReducerPanicked? && !s.reducer.ReducerReporting? && s.reducer != DrainingCollector(true)
    && forall t: nat :: t < |s.mappers| ==> CalmMapper(s.mappers[t].pc)
  }

  lemma CalmStep<T, V>(workers: nat, s: State<T, V>, step: Step<T, V>)
    requires Calm(s) && Enabled(workers, s, step) && !Panics(step)
    ensures Calm(Do(workers, s, step))
  {
    if step.OfMapper? {
      CalmOwn(workers, s, step.t, step.m);
    } else if step.OfAny? {
      CalmShared(s, step.who, step.a);
    } else {
      hide MapperEnabled, MapperDo, SharedEnabled, SharedDo;
    }
  }

  lemma CalmOwn<T, V>(workers: nat, s: State<T, V>, t: nat, m: MapperAct<V>)
    requires Calm(s) && MapperEnabled(workers, s, t, m) && m != Return(true)
    ensures Calm(MapperDo(workers, s, t, m))
  {
    assert CalmMapper(s.mappers[t].pc);
  }

  lemma CalmShared<T, V>(s: State<T, V>, who: Who, a: SharedAct)
    requires Calm(s) && SharedEnabled(s, who, a)
    ensures Calm(SharedDo(s, who, a))
  {
    assert who.TheMapper? ==> CalmMapper(s.mappers[who.t].pc);
  }

  lemma {:induction false} CalmRun<T(!new), V(!new)>(workers: nat, s: State<T, V>, steps: seq<Step<T, V>>,
                                                     end: State<T, V>)
    requires Calm(s) && Reaches(workers, s, steps, end) && forall k :: 0 <= k < |steps| ==> !Panics(steps[k])
    ensures Calm(end)
    decreases |steps|
  {
    hide Calm, Enabled, Do;
    if steps != [] {
      CalmStep(workers, s, steps[0]);
      CalmRun(workers, Do(workers, s, steps[0]), steps[1..], end);
    }
  }

  /** If no user function panics, every run in which they all return can go on until everything has ended. */
  lemma WithoutPanicsAllEnds<T(!new), V(!new)>(workers: nat, steps: seq<Step<T, V>>, end: State<T, V>)
    requires workers > 0 && Reaches(workers, Start(), steps, end) && Stuck(workers, end) && UsersDone(end)
    requires forall k :: 0 <= k < |steps| ==> !Panics(steps[k])
    ensures AllDone(end)
  {
    CalmRun(workers, Start(), steps, end);
    hide Stuck, UsersDone, AllDone, Reaches;
    forall who ensures !IsReporting(end, who) {
      assert who.TheMapper? && who.t < |end.mappers| ==> CalmMapper(end.mappers[who.t].pc);
    }
    assert Reachable(workers, end);
    OnlyReportsHang(workers, end);
  }

  // ---- runs that hang ------------------------------------------------------------------------------

  /** One more step at the end of a run. */
  lemma Extended<T(!new), V(!new)>(workers: nat, steps: seq<Step<T, V>>, s: State<T, V>, step: Step<T, V>)
    returns (more: seq<Step<T, V>>, next: State<T, V>)
    requires Reaches(workers, Start(), steps, s) && Enabled(workers, s, step)
    ensures next == Do(workers, s, step) && Reaches(workers, Start(), more, next) && more == steps + [step]
  {
    more, next := steps + [step], Do(workers, s, step);
    ReachesMore(workers, Start(), steps, s, step);
  }

  lemma {:induction false} ReachesMore<T(!new), V(!new)>(workers: nat, s: State<T, V>, steps: seq<Step<T, V>>,
                                                         end: State<T, V>, step: Step<T, V>)
    requires Reaches(workers, s, steps, end) && Enabled(workers, end, step)
    ensures Reaches(workers, s, steps + [step], Do(workers, end, step))
    decreases |steps|
  {
    hide Enabled, Do;
    var all := steps + [step];
    if steps == [] {
      assert all[0] == step && all[1..] == [];
    } else {
      assert all[0] == steps[0] && all[1..] == steps[1..] + [step];
      ReachesMore(workers, Do(workers, s, steps[0]), steps[1..], end, step);
    }
  }

  /** A state in which nothing moves, all user functions have returned and someone waits for the caller. */
  ghost predicate Hangs<T(!new), V(!new)>(workers: nat, s: State<T, V>) {
    Stuck(workers, s) && UsersDone(s) && SomeoneReports(s)
  }

  /** The end of the context can leave the caller cancelling for ever: it waits for the source to be closed, and the
      generator, which has panicked after that, for the caller. */
  lemma CallerCanHang<T(!new), V(!new)>(workers: nat) returns (steps: seq<Step<T, V>>, end: State<T, V>)
    ensures Reaches(workers, Start(), steps, end) && Hangs(workers, end) && end.caller.CallerCancelling?
  {
    hide Reaches, Hangs, Enabled, Do;
    steps, end := ContextEnds<T, V>(workers);
    steps, end := DispatcherStops(workers, steps, end);
    steps, end := ReducerEnds(workers, steps, end);
    CancelHangs(workers, end);
  }

  /** The caller cancels, then the generator panics. */
  lemma ContextEnds<T(!new), V(!new)>(workers: nat) returns (steps: seq<Step<T, V>>, end: State<T, V>)
    ensures Reaches(workers, Start(), steps, end)
    ensures end == Start<T, V>().(ctxDone := true, cancel := RunBy(TheCaller), caller := CallerCancelling,
                   generator := GeneratorReporting, wrote := true)
  {
    assert Reaches<T, V>(workers, Start(), [], Start());
    hide Reaches;
    steps, end := Extended<T, V>(workers, [], Start(), EndContext);
    steps, end := Extended(workers, steps, end, OfAny(TheCaller, CallCancel));
    steps, end := Extended(workers, steps, end, GeneratorReturns(true));
    steps, end := Extended(workers, steps, end, OfAny(TheGenerator, TryReport));
  }

  lemma DispatcherStops<T(!new), V(!new)>(workers: nat, first: seq<Step<T, V>>, s: State<T, V>)
    returns (steps: seq<Step<T, V>>, end: State<T, V>)
    requires Reaches(workers, Start(), first, s)
    requires s.dispatcher.Looping? && s.failed == 0 && s.ctxDone && s.waitGroup == 0 && s.closes == 0 && !s.crashed
    ensures Reaches(workers, Start(), steps, end) && end == s.(dispatcher := DrainingSource, closes := 1)
  {
    hide Reaches;
    steps, end := Extended(workers, first, s, CheckFailed);
    steps, end := Extended(workers, steps, end, SeeStop);
    steps, end := Extended(workers, steps, end, Join);
    steps, end := Extended(workers, steps, end, CloseCollector);
  }

  lemma ReducerEnds<T(!new), V(!new)>(workers: nat, first: seq<Step<T, V>>, s: State<T, V>)
    returns (steps: seq<Step<T, V>>, end: State<T, V>)
    requires Reaches(workers, Start(), first, s) && s.reducer.Reducing? && s.closes > 0 && s.taken == |s.sent|
    ensures Reaches(workers, Start(), steps, end) && end == s.(reducer := ReducerDone, done := true)
  {
    hide Reaches;
    steps, end := Extended(workers, first, s, ReducerReturns(false));
    steps, end := Extended(workers, steps, end, CollectorDrained);
    steps, end := Extended(workers, steps, end, FinishReducer);
  }

  lemma CancelHangs<T(!new), V(!new)>(workers: nat, s: State<T, V>)
    requires s.cancel.RunBy? && s.caller.CallerCancelling? && s.generator.GeneratorReporting?
    requires s.dispatcher.DrainingSource? && s.reducer.ReducerDone? && s.mappers == [] && s.received == |s.items|
    ensures Hangs(workers, s)
  {
    assert IsReporting(s, TheGenerator);
  }

  /** So can an output that the reducer writes early: the call waits for the output to be closed, and a mapper that
      panics after that waits for the caller, so that the collector is never closed and the reducer never done. */
  lemma EarlyOutputCanHang<T(!new), V(!new)>(workers: nat, item: T) returns (steps: seq<Step<T, V>>, end: State<T, V>)
    requires workers > 0
    ensures Reaches(workers, Start(), steps, end) && Hangs(workers, end)
    ensures end.caller.DrainingOutput? && !end.ctxDone && end.cancel.Never?
  {
    hide Reaches, Hangs, Enabled, Do;
    steps, end := OutputIsTaken<T, V>(workers, item);
    steps, end := MapperPanics(workers, steps, end);
    steps, end := OthersReturn(workers, steps, end);
    OutputHangs(workers, end);
  }

  /** One item is being mapped, and the caller has taken the output. */
  lemma OutputIsTaken<T(!new), V(!new)>(workers: nat, item: T) returns (steps: seq<Step<T, V>>, end: State<T, V>)
    requires workers > 0
    ensures Reaches(workers, Start(), steps, end)
    ensures end == Start<T, V>().(items := [item], received := 1, pool := 1, waitGroup := 1, caller := DrainingOutput,
                   mappers := [Mapper(0, Mapping, [], [])])
  {
    assert Reaches<T, V>(workers, Start(), [], Start());
    hide Reaches;
    steps, end := Extended<T, V>(workers, [], Start(), Offer(item));
    steps, end := Extended(workers, steps, end, CheckFailed);
    steps, end := Extended(workers, steps, end, EnterPool);
    steps, end := Extended(workers, steps, end, Dispatch);
    steps, end := Extended(workers, steps, end, TakeOutput);
  }

  lemma MapperPanics<T(!new), V(!new)>(workers: nat, first: seq<Step<T, V>>, s: State<T, V>)
    returns (steps: seq<Step<T, V>>, end: State<T, V>)
    requires Reaches(workers, Start(), first, s) && !s.wrote && s.mappers == [Mapper(0, Mapping, [], [])]
    ensures Reaches(workers, Start(), steps, end)
    ensures end == s.(mappers := [Mapper(0, MapperReporting, [], [])], failed := s.failed + 1, wrote := true)
  {
    hide Reaches;
    steps, end := Extended(workers, first, s, OfMapper(0, Return(true)));
    assert end.mappers == [Mapper(0, Failing, [], [])];
    steps, end := Extended(workers, steps, end, OfMapper(0, CountFailure));
    assert end.mappers == [Mapper(0, MapperPanicked, [], [])];
    steps, end := Extended(workers, steps, end, OfAny(TheMapper(0), TryReport));
  }

  lemma OthersReturn<T(!new), V(!new)>(workers: nat, first: seq<Step<T, V>>, s: State<T, V>)
    returns (steps: seq<Step<T, V>>, end: State<T, V>)
    requires Reaches(workers, Start(), first, s) && s.failed > 0 && s.received == |s.items|
    requires s.generator.Generating? && s.dispatcher.Looping? && s.reducer.Reducing?
    ensures Reaches(workers, Start(), steps, end)
    ensures end == s.(generator := SourceClosed, dispatcher := Joining, reducer := DrainingCollector(false))
  {
    hide Reaches;
    steps, end := Extended(workers, first, s, GeneratorReturns(false));
    steps, end := Extended(workers, steps, end, CloseSource);
    steps, end := Extended(workers, steps, end, CheckFailed);
    steps, end := Extended(workers, steps, end, ReducerReturns(false));
  }

  lemma OutputHangs<T(!new), V(!new)>(workers: nat, s: State<T, V>)
    requires s.cancel.Never? && s.caller.DrainingOutput? && s.generator.SourceClosed? && !s.done
    requires s.dispatcher.Joining? && s.waitGroup == 1 && s.closes == 0
    requires s.reducer.DrainingCollector? && s.taken == |s.sent| && |s.mappers| == 1 && s.mappers[0].pc.MapperReporting?
    ensures Hangs(workers, s)
  {
    assert IsReporting(s, TheMapper(0));
  }

  // ---- the length of runs ------------------------------------------------------------------------

  ghost function MapperWork<V>(m: Mapper<V>): (r: nat) {
    match m.pc
    case Mapping => 0
    case Writing(_) => 2
    case MapperCancelling => 1
    case Failing => 5
    case MapperPanicked => 4
    case MapperReporting => 3
    case LeavingGroup => 2
    case LeavingPool => 1
    case MapperDone => 0
  }

  ghost function MappersWork<V>(mappers: seq<Mapper<V>>): (r: nat) {
    if mappers == [] then 0 else MappersWork(mappers[..|mappers| - 1]) + MapperWork(mappers[|mappers| - 1])
  }

  ghost function DispatcherWork(d: Dispatcher): (r: nat) {
    match d
    case Looping => 6
    case Selecting => 5
    case AwaitItem => 4
    case Joining => 3
    case ClosingCollector => 2
    case DrainingSource => 1
    case DispatcherDone => 0
  }

  ghost function ReducerWork(r: Reducer): (result: nat) {
    match r
    case Reducing => 0
    case ReducerCancelling => 1
    case DrainingCollector(_) => 5
    case ReducerPanicked => 4
    case ReducerReporting => 3
    case Finishing => 1
    case ReducerDone => 0
  }

  ghost function GeneratorWork(g: Generator): (r: nat) {
    match g
    case Generating => 0
    case GeneratorPanicked => 3
    case GeneratorReporting => 2
    case SourceOpen => 1
    case SourceClosed => 0
  }

  ghost function CallerWork(c: Caller): (r: nat) {
    match c
    case AtSelect => 4
    case CallerCancelling => 2
    case DrainingOutput => 1
    case CallerDone => 0
  }

  ghost function Work<T, V>(s: State<T, V>): (r: int) {
    MappersWork(s.mappers) + DispatcherWork(s.dispatcher) + ReducerWork(s.reducer) + GeneratorWork(s.generator)
    + CallerWork(s.caller) + (if s.cancel.RunBy? then 1 else 0) + 3 * (|s.items| - s.received) + |s.sent| - s.taken
  }

  lemma {:induction false} MappersWorkUpdate<V>(mappers: seq<Mapper<V>>, t: nat, m: Mapper<V>)
    requires t < |mappers|
    ensures MappersWork(mappers[t := m]) + MapperWork(mappers[t]) == MappersWork(mappers) + MapperWork(m)
  {
    var n := |mappers| - 1;
    if t < n {
      MappersWorkUpdate(mappers[..n], t, m);
      assert mappers[t := m][..n] == mappers[..n][t := m];
    } else {
      assert mappers[t := m][..n] == mappers[..n];
    }
  }

  lemma MapperWorks<T, V>(workers: nat, s: State<T, V>, t: nat, m: MapperAct<V>)
    requires MapperEnabled(workers, s, t, m) && !m.CallWrite? && !m.Return?
    ensures Work(MapperDo(workers, s, t, m)) < Work(s)
  {
    hide MappersWork;
    MappersWorkUpdate(s.mappers, t, MapperDo(workers, s, t, m).mappers[t]);
  }

  lemma SharedWorks<T, V>(s: State<T, V>, who: Who, a: SharedAct)
    requires SharedEnabled(s, who, a) && (a.CallCancel? ==> who.TheCaller?)
    ensures Work(SharedDo(s, who, a)) < Work(s)
  {
    hide MappersWork;
    if who.TheMapper? {
      MappersWorkUpdate(s.mappers, who.t, SharedDo(s, who, a).mappers[who.t]);
    }
  }

  lemma CentralWorks<T, V>(workers: nat, s: State<T, V>, step: Step<T, V>)
    requires Enabled(workers, s, step) && Central(step) && Internal(step)
    ensures Work(Do(workers, s, step)) < Work(s)
  {
    hide MapperEnabled, MapperDo, SharedEnabled, SharedDo, MappersWork;
    if step.Dispatch? {
      NewMapperWork(s.mappers, s.received);
    }
  }

  lemma NewMapperWork<V>(mappers: seq<Mapper<V>>, index: nat)
    ensures MappersWork(mappers + [Fresh(index)]) == MappersWork(mappers)
  {
    assert (mappers + [Fresh(index)])[..|mappers|] == mappers;
  }

  lemma InternalStepWorks<T, V>(workers: nat, s: State<T, V>, step: Step<T, V>)
    requires Enabled(workers, s, step) && Internal(step)
    ensures Work(Do(workers, s, step)) < Work(s)
  {
    hide MapperEnabled, MapperDo, SharedEnabled, SharedDo, Work;
    if step.OfMapper? {
      MapperWorks(workers, s, step.t, step.m);
    } else if step.OfAny? {
      SharedWorks(s, step.who, step.a);
    } else {
      CentralWorks(workers, s, step);
    }
  }

  lemma WorkIsNat<T, V>(workers: nat, s: State<T, V>)
    requires Inv(workers, s)
    ensures Work(s) >= 0
  {
  }

  /** While no user function moves, every run ends, in the states of OnlyReportsHang if all of them have returned,
      after a bounded number of steps. */
  lemma {:induction false} RunsEnd<T(!new), V(!new)>(workers: nat, s: State<T, V>, steps: seq<Step<T, V>>,
                                                     end: State<T, V>)
    requires Inv(workers, s) && Reaches(workers, s, steps, end)
    requires forall k :: 0 <= k < |steps| ==> Internal(steps[k])
    ensures |steps| <= Work(s) - Work(end) <= Work(s)
    decreases |steps|
  {
    hide Work, Enabled, Do, Inv;
    if steps == [] {
      WorkIsNat(workers, s);
    } else {
      InternalStepWorks(workers, s, steps[0]);
      InvStep(workers, s, steps[0]);
      RunsEnd(workers, Do(workers, s, steps[0]), steps[1..], end);
    }
  }
}

/** core/collection/timingwheel.go: the scheduler. Each channel message that run() handles is one method call;
    tasks that the source starts in goroutines are returned instead. */
module TimingWheels {
  import opened Options
  import opened SafeMaps
  import opened TimingWheelSpec
  import opened TimingWheelState

  /** What run() receives. */
  datatype Message<K, V> =
    | Tick
    | SetTimer(key: K, value: V, delay: nat)
    | RemoveTimer(key: K)
    | MoveTimer(key: K, delay: nat)

  class TimingWheel<K(==), V> {
    const interval: nat
    const numSlots: nat
    const timers: SafeMap<K, Position>
    var slots: seq<seq<Id>>
    var tickedPos: nat
    var store: map<Id, Entry<K, V>>
    var nextId: Id

    ghost function View(): (r: Wheel<K, V>)
      reads this, timers
    {
      Wheel(numSlots, tickedPos, slots, store, timers.Contents())
    }

    ghost predicate Valid()
      reads this, timers
    {
      interval > 0 && timers.Valid() && WellFormed(View()) && forall id :: id in store ==> id < nextId
    }

    /** The slot of a key's timer. */
    ghost function SlotOf(key: K): (slot: Option<nat>)
      reads this, timers
    {
      if key in View().timers then Some(View().timers[key].pos) else None
    }

    /** The timers with their ticks to go. */
    ghost function Pending(): (m: map<K, Timer<V>>)
      requires Valid()
      reads this, timers
    {
      Timers(View())
    }

    /** The timers are those of m, but for one of the key. */
    ghost predicate IsSet(m: map<K, Timer<V>>, key: K, value: V, ticks: int)
      requires Valid()
      reads this, timers
    {
      && key in Pending() && Pending() == m[key := Pending()[key]]
      && Pending()[key].value == value && Pending()[key].ticks == ticks
    }

    /** What moving a key's timer to so many steps gives it. */
    ghost function MovedTo(key: K, steps: nat): (ticks: int)
      reads this, timers
    {
      if key in View().timers && View().timers[key].pos < numSlots && tickedPos < numSlots
      then MovedTicks(View().timers[key].pos, tickedPos, numSlots, steps)
      else steps
    }

    lemma MovedToIs(key: K, steps: nat)
      requires Valid() && key in View().timers
      ensures View().timers[key].pos < numSlots && tickedPos < numSlots
      ensures MovedTo(key, steps) == MovedTicks(View().timers[key].pos, tickedPos, numSlots, steps)
    {
      hide MovedTicks;
    }

    constructor (interval: nat, numSlots: nat)
      requires interval > 0 && numSlots > 0
      ensures Valid() && Timers(View()) == map[] && fresh(timers) && tickedPos == numSlots - 1
      ensures this.interval == interval && this.numSlots == numSlots
    {
      this.interval, this.numSlots := interval, numSlots;
      timers := new SafeMap();
      slots := seq(numSlots, i => []);
      tickedPos, store, nextId := numSlots - 1, map[], 0;
    }

    /** Sets a timer. A new key fires after exactly max(1, delay / interval) ticks; for a key that has a timer
        already, see MoveTask. */
    method SetTask(key: K, value: V, delay: nat)
      requires Valid()
      modifies this, timers
      ensures Valid() && tickedPos == old(tickedPos)
      ensures var steps := Steps(if delay < interval then interval else delay, interval);
              IsSet(old(Pending()), key, value, if key in old(Pending()) then old(MovedTo(key, steps)) else steps)
      ensures key !in old(Pending()) ==>
                SlotOf(key) == Some(TargetSlot(tickedPos, numSlots,
                                               Steps(if delay < interval then interval else delay, interval)))
    {
      hide WellFormed, MovedTicks, Steps, TimerAt, SafeMap.Valid, SafeMap.Contents;
      var d := if delay < interval then interval else delay;
      var found := timers.Get(key);
      if found.Some? {
        KeyRemoved(View(), key);
        EntryChanged(View(), key, store[found.value.item].(value := value));
        store := store[found.value.item := store[found.value.item].(value := value)];
        var ran := MoveTask(key, d);
      } else {
        PushItem(key, value, d);
      }
    }

    /** Puts a fresh item into the slot for the delay. */
    method PushItem(key: K, value: V, delay: nat)
      requires Valid() && key !in View().timers && delay >= interval
      modifies this`slots, this`store, this`nextId, timers
      ensures Valid()
      ensures Timers(View()) == old(Timers(View()))[key := Timer(value, Steps(delay, interval))]
      ensures SlotOf(key) == Some(TargetSlot(tickedPos, numSlots, Steps(delay, interval)))
    {
      hide WellFormed, Steps, Timers, SafeMap.Valid, SafeMap.Contents;
      Sizes(View());
      AtLeastOneStep(delay, interval);
      PlacementIsExact(tickedPos, numSlots, Steps(delay, interval));
      var pos := TargetSlot(tickedPos, numSlots, Steps(delay, interval));
      hide TargetSlot, Remaining;
      var item := Entry(key, value, (Steps(delay, interval) - 1) / numSlots, 0, false);
      ItemAdded(View(), nextId, pos, item);
      store := store[nextId := item];
      slots := slots[pos := slots[pos] + [nextId]];
      timers.Set(key, Position(pos, nextId));
      nextId := nextId + 1;
      assert View() == WithItem(old(View()), old(nextId), pos, item);
    }

    /** Moves a timer. A delay below the interval runs the task at once and keeps its timer as it is. */
    method MoveTask(key: K, delay: nat) returns (ran: Option<(K, V)>)
      requires Valid()
      modifies this`slots, this`store, this`nextId, timers
      ensures Valid()
      ensures key !in old(Pending()) || delay < interval ==>
                Pending() == old(Pending()) &&
                ran == if key in old(Pending()) then Some((key, old(Pending())[key].value)) else None
      ensures key in old(Pending()) && delay >= interval ==>
                ran == None &&
                IsSet(old(Pending()), key, old(Pending())[key].value, old(MovedTo(key, Steps(delay, interval))))
    {
      hide WellFormed, MovedTicks, Remaining, Steps, Timers, SafeMap.Valid, SafeMap.Contents;
      Sizes(View());
      TimerKeys(View());
      var found := timers.Get(key);
      if found.None? {
        return None;
      }
      KeyRemoved(View(), key);
      TimerValue(View(), key);
      var at := found.value;
      assert SlotOf(key) == Some(at.pos);
      hide SlotOf, TargetSlot;
      if delay < interval {
        return Some((store[at.item].key, store[at.item].value));
      }
      AtLeastOneStep(delay, interval);
      var pos := TargetSlot(tickedPos, numSlots, Steps(delay, interval));
      var circle := (Steps(delay, interval) - 1) / numSlots;
      if pos >= at.pos {
        MoveForward(at.pos, tickedPos, numSlots, Steps(delay, interval));
        EntryChanged(View(), key, store[at.item].(circle := circle, diff := pos - at.pos));
        store := store[at.item := store[at.item].(circle := circle, diff := pos - at.pos)];
      } else if circle > 0 {
        MoveBackward(at.pos, tickedPos, numSlots, Steps(delay, interval));
        EntryChanged(View(), key, store[at.item].(circle := circle - 1, diff := numSlots + pos - at.pos));
        store := store[at.item := store[at.item].(circle := circle - 1, diff := numSlots + pos - at.pos)];
      } else {
        MoveByRequeue(at.pos, tickedPos, numSlots, Steps(delay, interval));
        Requeue(key, at.item, pos);
      }
      ran := None;
    }

    /** Marks the old item and gives the timer a fresh one in slot pos. */
    method Requeue(key: K, oldItem: Id, pos: nat)
      requires Valid() && key in View().timers && oldItem == View().timers[key].item && pos < numSlots
      modifies this`slots, this`store, this`nextId, timers
      ensures Valid()
      ensures Timers(View())
           == old(Timers(View()))[key :=
              Timer(old(Timers(View()))[key].value, Remaining(pos, tickedPos, numSlots, 0, 0))]
    {
      hide WellFormed, Remaining, Timers, SafeMap.Valid, SafeMap.Contents;
      Sizes(View());
      KeyRemoved(View(), key);
      TimerValue(View(), key);
      Replaced(View().timers, key, Position(pos, nextId));
      Replaced(Timers(View()), key, Timer(store[oldItem].value, Remaining(pos, tickedPos, numSlots, 0, 0)));
      var item := Entry(key, store[oldItem].value, 0, 0, false);
      ItemAdded(WithoutKey(View(), key), nextId, pos, item);
      store := store[oldItem := store[oldItem].(removed := true)];
      store := store[nextId := item];
      slots := slots[pos := slots[pos] + [nextId]];
      timers.Set(key, Position(pos, nextId));
      nextId := nextId + 1;
    }

    method RemoveTask(key: K)
      requires Valid()
      modifies this`store, timers
      ensures Valid() && Timers(View()) == old(Timers(View())) - {key}
    {
      hide WellFormed, SafeMap.Valid, SafeMap.Contents;
      var found := timers.Get(key);
      if found.None? {
        return;
      }
      KeyRemoved(View(), key);
      store := store[found.value.item := store[found.value.item].(removed := true)];
      timers.Del(key);
    }

    /** One tick: exactly the timers with one tick to go fire, every other one gets one tick nearer. */
    method OnTick() returns (tasks: seq<(K, V)>)
      requires Valid()
      modifies this`slots, this`tickedPos, this`store, timers
      ensures Valid() && tickedPos == NextSlot(old(tickedPos), numSlots)
      ensures Timers(View()) == AfterTick(old(Timers(View())))
      ensures FiresExactly(old(Timers(View())), tasks)
    {
      hide WellFormed, Scanning, Timers, Left, SafeMap.Valid, SafeMap.Contents;
      Sizes(View());
      ScanStarts(View());
      AtLeastOneTick(View());
      tickedPos := (tickedPos + 1) % numSlots;
      ScanningIsWellFormed(View(), old(tickedPos), [], slots[tickedPos]);
      ghost var lowered := Left(View(), old(tickedPos), slots[tickedPos]);
      tasks := ScanAndRunTasks(old(tickedPos));
      AtLeastOneTick(View());
      TickResult(old(Timers(View())), lowered, tasks, Timers(View()));
    }

    /** Handles the messages in their order; fired[i] are the tasks that message i runs. A timer that is there before
        runs, unless a message names it, at the tick that makes its number of ticks full; a new one, from the message
        that sets it on, at tick max(1, delay / interval); with its value, and at no other tick. What has no timer does
        not run. */
    method Run(messages: seq<Message<K, V>>) returns (fired: seq<seq<(K, V)>>)
      requires Valid()
      modifies this, timers
      ensures Valid() && |fired| == |messages|
      ensures forall k, i: nat ::
                k in old(Pending()) && i < |messages| && messages[i].Tick? && Untouched(messages[..i], k) ==>
                  var timer := old(Pending())[k];
                  && (Fires(fired[i], k) <==> TicksOf(messages[..i]) + 1 == timer.ticks)
                  && (Fires(fired[i], k) ==> (k, timer.value) in fired[i])
      ensures forall i: nat, j: nat ::
                i < j < |messages| && messages[i].SetTimer? && messages[j].Tick?
                && Without(old(Pending()), messages[..i], fired[..i], messages[i].key)
                && Untouched(messages[i + 1..j], messages[i].key) ==>
                  var ticks := if messages[i].delay < interval then 1 else messages[i].delay / interval;
                  && (Fires(fired[j], messages[i].key) <==> TicksOf(messages[i + 1..j]) + 1 == ticks)
                  && (Fires(fired[j], messages[i].key) ==> (messages[i].key, messages[i].value) in fired[j])
      ensures forall k, i: nat ::
                i < |messages| && Without(old(Pending()), messages[..i], fired[..i], k) ==> !Fires(fired[i], k)
    {
      hide WellFormed, Timers, FiresExactly, AfterAll, Matches, Ran, SafeMap.Valid, SafeMap.Contents;
      ghost var m := Timers(View());
      AtLeastOneTick(View());
      fired := [];
      ghost var changes: seq<Change<K, V>> := [];
      NoChanges(m);
      for n := 0 to |messages|
        invariant Valid() && |fired| == n && |changes| == n
        invariant Timers(View()) == AfterAll(m, changes)
        invariant Follow(interval, m, messages[..n], changes, fired)
      {
        var tasks;
        ghost var change;
        tasks, change := Handle(messages[n]);
        AfterOneMore(m, changes, change);
        FollowsMore(interval, m, messages[..n], changes, fired, messages[n], change, tasks);
        assert messages[..n + 1] == messages[..n] + [messages[n]];
        fired, changes := fired + [tasks], changes + [change];
      }
      assert messages[..|messages|] == messages;
      hide *;
      TimersFire(interval, m, messages, changes, fired);
      NewTimersFire(interval, m, messages, changes, fired);
      OthersDoNot(interval, m, messages, changes, fired);
    }

    /** One message: what it does to the timers, and the tasks it runs. */
    method Handle(message: Message<K, V>) returns (tasks: seq<(K, V)>, ghost change: Change<K, V>)
      requires Valid()
      modifies this, timers
      ensures Valid() && Pending() == After(old(Pending()), change)
      ensures Matches(interval, old(Pending()), message, change) && Ran(interval, old(Pending()), message, tasks)
      ensures message.Tick? ==> Pending() == AfterTick(old(Pending())) && FiresExactly(old(Pending()), tasks)
      ensures message.SetTimer? ==>
                var steps := Steps(if message.delay < interval then interval else message.delay, interval);
                var ticks := if message.key in old(Pending()) then old(MovedTo(message.key, steps)) else steps;
                tasks == [] && IsSet(old(Pending()), message.key, message.value, ticks)
      ensures message.RemoveTimer? ==> tasks == [] && Pending() == old(Pending()) - {message.key}
      ensures message.MoveTimer? && message.key !in old(Pending()) ==> tasks == [] && Pending() == old(Pending())
      ensures message.MoveTimer? && message.key in old(Pending()) ==>
                var value := old(Pending())[message.key].value;
                if message.delay < interval then tasks == [(message.key, value)] && Pending() == old(Pending())
                else tasks == [] && IsSet(old(Pending()), message.key, value,
                                          old(MovedTo(message.key, Steps(message.delay, interval))))
    {
      hide WellFormed, AfterTick, FiresExactly, MovedTicks, MovedTo, Steps, SafeMap.Valid, SafeMap.Contents;
      AtLeastOneTick(View());
      TimerKeys(View());
      hide Timers;
      tasks, change := [], Ticked;
      match message {
        case Tick => tasks := OnTick();
        case SetTimer(key, value, delay) =>
          StepsSet(delay, interval);
          if key in timers.Contents() {
            MovedToIs(key, Steps(if delay < interval then interval else delay, interval));
          }
          SetTask(key, value, delay);
          change := Put(key, Timers(View())[key]);
        case RemoveTimer(key) =>
          RemoveTask(key);
          change := Gone(key);
        case MoveTimer(key, delay) =>
          if key in timers.Contents() {
            MovedToIs(key, Steps(delay, interval));
          }
          var ran := MoveTask(key, delay);
          tasks := if ran.Some? then [ran.value] else [];
          change := if key in Timers(View()) then Put(key, Timers(View())[key]) else Gone(key);
      }
      AtLeastOneTick(View());
    }

    method ScanAndRunTasks(ghost prev: nat) returns (tasks: seq<(K, V)>)
      requires Valid() && Scanning(View(), prev, [], slots[tickedPos])
      modifies this`slots, this`store, timers
      ensures Valid()
      ensures Due(old(Left(View(), prev, slots[tickedPos])), tasks)
      ensures Timers(View()) == old(Left(View(), prev, slots[tickedPos])) - KeysOf(tasks)
    {
      hide WellFormed, Scanning, Timers, Left, Due, SafeMap.Valid, SafeMap.Contents;
      Sizes(View());
      ScanningIsWellFormed(View(), prev, [], slots[tickedPos]);
      ghost var lowered := Left(View(), prev, slots[tickedPos]);
      tasks := [];
      NothingDue(lowered);
      var kept, rest := [], slots[tickedPos];
      while rest != []
        invariant Valid() && Scanning(View(), prev, kept, rest) && prev < numSlots
        invariant Due(lowered, tasks) && Left(View(), prev, rest) == lowered - KeysOf(tasks)
        decreases |rest|
      {
        kept, rest, tasks := ScanOne(prev, lowered, kept, rest, tasks);
      }
      ScanEnds(View(), prev, kept);
    }

    /** Looks at one list item. */
    method ScanOne(ghost prev: nat, ghost lowered: map<K, Timer<V>>, kept: seq<Id>, rest: seq<Id>, tasks: seq<(K, V)>)
      returns (kept': seq<Id>, rest': seq<Id>, tasks': seq<(K, V)>)
      requires Valid() && Scanning(View(), prev, kept, rest) && prev < numSlots && rest != []
      requires Due(lowered, tasks) && Left(View(), prev, rest) == lowered - KeysOf(tasks)
      modifies this`slots, this`store, timers
      ensures Valid() && Scanning(View(), prev, kept', rest') && |rest'| < |rest|
      ensures Due(lowered, tasks') && Left(View(), prev, rest') == lowered - KeysOf(tasks')
    {
      hide WellFormed, Scanning, Timers, Left, Due, KeysOf, SafeMap.Valid, SafeMap.Contents;
      Sizes(View());
      ScanningHead(View(), prev, kept, rest);
      var id := rest[0];
      var task := store[id];
      kept', rest', tasks' := kept, rest[1..], tasks;
      if task.removed {
        DropRemoved(View(), prev, kept, rest);
        slots := slots[tickedPos := kept + rest[1..]];
      } else if task.circle > 0 {
        LowerCircleAt(View(), prev, kept, rest);
        store := store[id := task.(circle := task.circle - 1)];
        kept' := kept + [id];
      } else if task.diff > 0 {
        MoveOnAt(View(), prev, kept, rest);
        slots := slots[tickedPos := kept + rest[1..]];
        var pos := (tickedPos + task.diff) % numSlots;
        slots := slots[pos := slots[pos] + [id]];
        timers.Set(task.key, Position(pos, id));
        store := store[id := task.(diff := 0)];
      } else {
        FireAt(View(), prev, kept, rest);
        FiredOne(lowered, tasks, Left(View(), prev, rest), task.key, task.value);
        tasks' := tasks + [(task.key, task.value)];
        slots := slots[tickedPos := kept + rest[1..]];
        timers.Del(task.key);
      }
    }
  }

  // ---- sequences of messages ---------------------------------------------------------------------

  /** The change that a message makes to the timers m. */
  ghost predicate Matches<K, V>(interval: nat, m: map<K, Timer<V>>, message: Message<K, V>, change: Change<K, V>)
    requires interval > 0
  {
    match message
    case Tick => change == Ticked
    case SetTimer(key, value, delay) =>
      && change.Put? && change.key == key && change.timer.value == value && change.timer.ticks >= 1
      && (key !in m ==> change.timer.ticks == if delay < interval then 1 else delay / interval)
    case RemoveTimer(key) => change == Gone(key)
    case MoveTimer(key, delay) =>
      if key !in m then change == Gone(key)
      else change.Put? && change.key == key && change.timer.value == m[key].value && change.timer.ticks >= 1
  }

  /** The tasks that a message runs if the timers are m. */
  ghost predicate Ran<K, V>(interval: nat, m: map<K, Timer<V>>, message: Message<K, V>, tasks: seq<(K, V)>) {
    match message
    case Tick => FiresExactly(m, tasks)
    case MoveTimer(key, delay) => tasks == if delay < interval && key in m then [(key, m[key].value)] else []
    case _ => tasks == []
  }

  ghost function TicksOf<K, V>(messages: seq<Message<K, V>>): (n: nat) {
    if messages == [] then 0
    else TicksOf(messages[..|messages| - 1]) + if messages[|messages| - 1].Tick? then 1 else 0
  }

  ghost predicate Untouched<K, V>(messages: seq<Message<K, V>>, k: K) {
    forall i :: 0 <= i < |messages| ==> messages[i].Tick? || messages[i].key != k
  }

  /** After the messages there is no timer for k: there was none, or it has run at a tick or was removed; and none has
      been set since. */
  ghost predicate Without<K, V>(m: map<K, Timer<V>>, messages: seq<Message<K, V>>, fired: seq<seq<(K, V)>>, k: K)
    requires |messages| == |fired|
  {
    if messages == [] then k !in m
    else
      var n := |messages| - 1;
      match messages[n]
      case Tick => Fires(fired[n], k) || Without(m, messages[..n], fired[..n], k)
      case SetTimer(key, _, _) => key != k && Without(m, messages[..n], fired[..n], k)
      case RemoveTimer(key) => key == k || Without(m, messages[..n], fired[..n], k)
      case MoveTimer(_, _) => Without(m, messages[..n], fired[..n], k)
  }

  ghost predicate FollowsAt<K, V>(interval: nat, m: map<K, Timer<V>>, messages: seq<Message<K, V>>,
                                  changes: seq<Change<K, V>>, fired: seq<seq<(K, V)>>, i: nat)
    requires interval > 0 && i < |messages| == |changes| == |fired|
  {
    && Matches(interval, AfterAll(m, changes[..i]), messages[i], changes[i])
    && Ran(interval, AfterAll(m, changes[..i]), messages[i], fired[i])
  }

  /** Changes and tasks are those of the messages. */
  ghost predicate Follow<K, V>(interval: nat, m: map<K, Timer<V>>, messages: seq<Message<K, V>>,
                               changes: seq<Change<K, V>>, fired: seq<seq<(K, V)>>)
  {
    && interval > 0 && |messages| == |changes| == |fired|
    && forall i: nat :: i < |messages| ==> FollowsAt(interval, m, messages, changes, fired, i)
  }

  lemma NoChanges<K, V>(m: map<K, Timer<V>>)
    ensures AfterAll(m, []) == m
  {
  }

  lemma FollowsMore<K, V>(interval: nat, m: map<K, Timer<V>>, messages: seq<Message<K, V>>, changes: seq<Change<K, V>>,
                          fired: seq<seq<(K, V)>>, message: Message<K, V>, change: Change<K, V>, tasks: seq<(K, V)>)
    requires Follow(interval, m, messages, changes, fired)
    requires Matches(interval, AfterAll(m, changes), message, change)
    requires Ran(interval, AfterAll(m, changes), message, tasks)
    ensures Follow(interval, m, messages + [message], changes + [change], fired + [tasks])
  {
    hide Matches, Ran, AfterAll;
    forall i: nat | i < |messages| + 1
      ensures FollowsAt(interval, m, messages + [message], changes + [change], fired + [tasks], i)
    {
      if i < |messages| {
        assert FollowsAt(interval, m, messages, changes, fired, i);
        assert (changes + [change])[..i] == changes[..i];
      } else {
        assert (changes + [change])[..i] == changes;
      }
    }
  }

  lemma {:induction false} SameTicks<K, V>(messages: seq<Message<K, V>>, changes: seq<Change<K, V>>)
    requires |messages| == |changes| && forall i :: 0 <= i < |messages| ==> (messages[i].Tick? <==> changes[i].Ticked?)
    ensures Ticks(changes) == TicksOf(messages)
  {
    var n := |messages| - 1;
    if n >= 0 {
      SameTicks(messages[..n], changes[..n]);
    }
  }

  lemma FollowsUpTo<K, V>(interval: nat, m: map<K, Timer<V>>, messages: seq<Message<K, V>>,
                          changes: seq<Change<K, V>>, fired: seq<seq<(K, V)>>, n: nat)
    requires Follow(interval, m, messages, changes, fired) && n <= |messages|
    ensures Follow(interval, m, messages[..n], changes[..n], fired[..n])
  {
    hide Matches, Ran, AfterAll;
    forall i: nat | i < n ensures FollowsAt(interval, m, messages[..n], changes[..n], fired[..n], i) {
      assert FollowsAt(interval, m, messages, changes, fired, i);
      assert changes[..n][..i] == changes[..i];
    }
  }

  /** There is a timer for k exactly if the messages and the tasks of the ticks say so. */
  lemma {:induction false} WithoutIs<K, V>(interval: nat, m: map<K, Timer<V>>, messages: seq<Message<K, V>>,
                                           changes: seq<Change<K, V>>, fired: seq<seq<(K, V)>>, k: K)
    requires Follow(interval, m, messages, changes, fired) && Positive(m)
    ensures k !in AfterAll(m, changes) <==> Without(m, messages, fired, k)
  {
    var n := |messages| - 1;
    if n >= 0 {
      FollowsUpTo(interval, m, messages, changes, fired, n);
      WithoutIs(interval, m, messages[..n], changes[..n], fired[..n], k);
      IsPositive(interval, m, messages, changes, fired, n);
      assert FollowsAt(interval, m, messages, changes, fired, n);
      if messages[n].Tick? {
        FiresWhen(AfterAll(m, changes[..n]), fired[n], k);
      }
      hide Fires, FiresExactly, Follow;
    }
  }

  lemma IsPositive<K, V>(interval: nat, m: map<K, Timer<V>>, messages: seq<Message<K, V>>, changes: seq<Change<K, V>>,
                         fired: seq<seq<(K, V)>>, n: nat)
    requires Follow(interval, m, messages, changes, fired) && Positive(m) && n <= |messages|
    ensures Positive(AfterAll(m, changes[..n]))
  {
    hide AfterAll, Ran;
    forall i | 0 <= i < n && changes[..n][i].Put? ensures changes[..n][i].timer.ticks >= 1 {
      assert FollowsAt(interval, m, messages, changes, fired, i);
    }
    StaysPositive(m, changes[..n]);
  }

  /** From the state after `from` messages on, the timer of k fires at the tick that makes its ticks full, if no message
      names it. */
  lemma FiresAt<K, V>(interval: nat, m: map<K, Timer<V>>, messages: seq<Message<K, V>>, changes: seq<Change<K, V>>,
                      fired: seq<seq<(K, V)>>, k: K, from: nat, i: nat)
    requires Follow(interval, m, messages, changes, fired) && from <= i < |messages| && messages[i].Tick?
    requires k in AfterAll(m, changes[..from]) && Positive(m) && Untouched(messages[from..i], k)
    ensures var timer := AfterAll(m, changes[..from])[k];
            && (Fires(fired[i], k) <==> TicksOf(messages[from..i]) + 1 == timer.ticks)
            && (Fires(fired[i], k) ==> (k, timer.value) in fired[i])
  {
    hide AfterAll, FiresExactly, Ticks, TicksOf;
    var start, between := AfterAll(m, changes[..from]), changes[from..i];
    IsPositive(interval, m, messages, changes, fired, from);
    assert FollowsAt(interval, m, messages, changes, fired, i);
    forall j | 0 <= j < i - from
      ensures (messages[from..i][j].Tick? <==> between[j].Ticked?) && !Concerns(between[j], k)
    {
      assert FollowsAt(interval, m, messages, changes, fired, from + j);
    }
    SameTicks(messages[from..i], between);
    FiresOnTime(start, k, between);
    AfterSplit(m, changes[..i], from);
    assert changes[..i][..from] == changes[..from] && changes[..i][from..] == between;
    FiresWhen(AfterAll(m, changes[..i]), fired[i], k);
    FiresValue(AfterAll(m, changes[..i]), fired[i], k);
  }

  lemma FiresValue<K, V>(m: map<K, Timer<V>>, tasks: seq<(K, V)>, k: K)
    requires FiresExactly(m, tasks)
    ensures Fires(tasks, k) ==> k in m && (k, m[k].value) in tasks
  {
    if j :| 0 <= j < |tasks| && tasks[j].0 == k {
      assert tasks[j] == (k, m[k].value);
    }
  }

  // ---- what Run promises -------------------------------------------------------------------------

  lemma TimersFire<K, V>(interval: nat, m: map<K, Timer<V>>, messages: seq<Message<K, V>>, changes: seq<Change<K, V>>,
                         fired: seq<seq<(K, V)>>)
    requires Follow(interval, m, messages, changes, fired) && Positive(m)
    ensures forall k, i: nat :: k in m && i < |messages| && messages[i].Tick? && Untouched(messages[..i], k) ==>
                                  && (Fires(fired[i], k) <==> TicksOf(messages[..i]) + 1 == m[k].ticks)
                                  && (Fires(fired[i], k) ==> (k, m[k].value) in fired[i])
  {
    hide FollowsAt, Fires, TicksOf, Untouched;
    forall k, i: nat | k in m && i < |messages| && messages[i].Tick? && Untouched(messages[..i], k)
      ensures Fires(fired[i], k) <==> TicksOf(messages[..i]) + 1 == m[k].ticks
      ensures Fires(fired[i], k) ==> (k, m[k].value) in fired[i]
    {
      assert messages[0..i] == messages[..i] && changes[..0] == [];
      FiresAt(interval, m, messages, changes, fired, k, 0, i);
    }
  }

  lemma NewTimersFire<K, V>(interval: nat, m: map<K, Timer<V>>, messages: seq<Message<K, V>>,
                            changes: seq<Change<K, V>>, fired: seq<seq<(K, V)>>)
    requires Follow(interval, m, messages, changes, fired) && Positive(m)
    ensures forall i: nat, j: nat ::
              i < j < |messages| && messages[i].SetTimer? && messages[j].Tick?
              && Without(m, messages[..i], fired[..i], messages[i].key)
              && Untouched(messages[i + 1..j], messages[i].key) ==>
                var ticks := if messages[i].delay < interval then 1 else messages[i].delay / interval;
                && (Fires(fired[j], messages[i].key) <==> TicksOf(messages[i + 1..j]) + 1 == ticks)
                && (Fires(fired[j], messages[i].key) ==> (messages[i].key, messages[i].value) in fired[j])
  {
    hide Fires, TicksOf, Untouched, Without;
    forall i: nat, j: nat | i < j < |messages| && messages[i].SetTimer? && messages[j].Tick?
                            && Without(m, messages[..i], fired[..i], messages[i].key)
                            && Untouched(messages[i + 1..j], messages[i].key)
      ensures var ticks := if messages[i].delay < interval then 1 else messages[i].delay / interval;
              && (Fires(fired[j], messages[i].key) <==> TicksOf(messages[i + 1..j]) + 1 == ticks)
              && (Fires(fired[j], messages[i].key) ==> (messages[i].key, messages[i].value) in fired[j])
    {
      NewTimer(interval, m, messages, changes, fired, i);
      FiresAt(interval, m, messages, changes, fired, messages[i].key, i + 1, j);
    }
  }

  lemma NewTimer<K, V>(interval: nat, m: map<K, Timer<V>>, messages: seq<Message<K, V>>, changes: seq<Change<K, V>>,
                       fired: seq<seq<(K, V)>>, i: nat)
    requires Follow(interval, m, messages, changes, fired) && Positive(m) && i < |messages| && messages[i].SetTimer?
    requires Without(m, messages[..i], fired[..i], messages[i].key)
    ensures var after := AfterAll(m, changes[..i + 1]);
            && messages[i].key in after && after[messages[i].key].value == messages[i].value
            && (after[messages[i].key].ticks ==
                if messages[i].delay < interval then 1 else messages[i].delay / interval)
  {
    FollowsUpTo(interval, m, messages, changes, fired, i);
    WithoutIs(interval, m, messages[..i], changes[..i], fired[..i], messages[i].key);
    assert FollowsAt(interval, m, messages, changes, fired, i);
    assert changes[..i + 1] == changes[..i] + [changes[i]];
    AfterOneMore(m, changes[..i], changes[i]);
    hide Without, AfterAll, Follow;
  }

  lemma OthersDoNot<K, V>(interval: nat, m: map<K, Timer<V>>, messages: seq<Message<K, V>>, changes: seq<Change<K, V>>,
                          fired: seq<seq<(K, V)>>)
    requires Follow(interval, m, messages, changes, fired) && Positive(m)
    ensures forall k, i: nat ::
              i < |messages| && Without(m, messages[..i], fired[..i], k) ==> !Fires(fired[i], k)
  {
    hide Without, AfterAll, FiresExactly;
    forall k, i: nat | i < |messages| && Without(m, messages[..i], fired[..i], k) ensures !Fires(fired[i], k) {
      FollowsUpTo(interval, m, messages, changes, fired, i);
      WithoutIs(interval, m, messages[..i], changes[..i], fired[..i], k);
      assert FollowsAt(interval, m, messages, changes, fired, i);
      if messages[i].Tick? {
        FiresWhen(AfterAll(m, changes[..i]), fired[i], k);
      }
    }
  }

  /** A wheel of 10 slots without timers, at slot `ticked`. */
  method TickedTo(ticked: nat) returns (tw: TimingWheel<string, string>)
    requires ticked < 10
    ensures fresh(tw) && fresh(tw.timers) && tw.Valid() && tw.interval == 1 && tw.numSlots == 10
    ensures tw.tickedPos == ticked && Timers(tw.View()) == map[]
  {
    hide WellFormed, Timers, SafeMap.Valid, SafeMap.Contents;
    tw := new TimingWheel(1, 10);
    var i := 0;
    while i <= ticked
      invariant fresh(tw) && fresh(tw.timers) && tw.Valid() && tw.interval == 1 && tw.numSlots == 10
      invariant 0 <= i <= ticked + 1 && tw.tickedPos == (i + 9) % 10 && Timers(tw.View()) == map[]
    {
      var tasks := tw.OnTick();
      i := i + 1;
    }
  }

  /** Moving the timer in the slot just scanned to one tick gives it 11. */
  method MoveCanBeLate() returns (tw: TimingWheel<string, string>)
    ensures tw.Valid() && Timers(tw.View()) == map["k" := Timer("v", 11)]
  {
    hide WellFormed, Timers, SafeMap.Valid, SafeMap.Contents;
    tw := TickedTo(0);
    tw.SetTask("k", "v", 10);
    assert tw.SlotOf("k") == Some(0) && Timers(tw.View()) == map["k" := Timer("v", 10)];
    var ran := tw.MoveTask("k", 1);
  }

  /** Moving a timer two slots ahead to 15 ticks gives it 5. */
  method MoveCanBeEarly() returns (tw: TimingWheel<string, string>)
    ensures tw.Valid() && Timers(tw.View()) == map["k" := Timer("v", 5)]
  {
    hide WellFormed, Timers, SafeMap.Valid, SafeMap.Contents;
    tw := TickedTo(5);
    tw.SetTask("k", "v", 2);
    assert tw.SlotOf("k") == Some(7) && Timers(tw.View()) == map["k" := Timer("v", 2)];
    var ran := tw.MoveTask("k", 15);
  }

  lemma ScanningIsWellFormed<K, V>(w: Wheel<K, V>, prev: nat, kept: seq<Id>, rest: seq<Id>)
    requires Scanning(w, prev, kept, rest)
    ensures WellFormed(w) && prev < w.n && w.ticked < |w.slots|
  {
  }

  lemma ScanningHead<K, V>(w: Wheel<K, V>, prev: nat, kept: seq<Id>, rest: seq<Id>)
    requires Scanning(w, prev, kept, rest) && rest != []
    ensures rest[0] in w.store && w.slots[w.ticked] == kept + rest
  {
    HeadOfList(w, prev, kept, rest);
  }

  lemma NothingDue<K, V>(m: map<K, Timer<V>>)
    ensures Due(m, []) && m - KeysOf<K, V>([]) == m
  {
  }

  lemma AtLeastOneTick<K, V>(w: Wheel<K, V>)
    requires WellFormed(w)
    ensures forall k :: k in Timers(w) ==> Timers(w)[k].ticks >= 1
  {
  }

  lemma Sizes<K, V>(w: Wheel<K, V>)
    requires WellFormed(w)
    ensures w.ticked < w.n == |w.slots|
  {
  }

  lemma Replaced<A, B>(m: map<A, B>, a: A, b: B)
    ensures (m - {a})[a := b] == m[a := b]
  {
  }

  lemma TimerKeys<K, V>(w: Wheel<K, V>)
    requires WellFormed(w)
    ensures Timers(w).Keys == w.timers.Keys
  {
  }

  lemma TimerValue<K, V>(w: Wheel<K, V>, k: K)
    requires WellFormed(w) && k in w.timers
    ensures k in Timers(w) && Timers(w)[k].value == w.store[w.timers[k].item].value
  {
  }
}

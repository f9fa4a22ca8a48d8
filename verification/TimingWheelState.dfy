/** The state of a timing wheel as a value, with the pointers to its list items as numbers. */
module TimingWheelState {
  import opened Sequences
  import opened TimingWheelSpec

  type Id = nat

  /** A list item, timingEntry in the source. */
  datatype Entry<K, V> = Entry(key: K, value: V, circle: nat, diff: nat, removed: bool)

  /** Where timers says the item of a key is, positionEntry in the source. */
  datatype Position = Position(pos: nat, item: Id)

  /** A scheduled value and the number of ticks until it fires. */
  datatype Timer<V> = Timer(value: V, ticks: nat)

  datatype Wheel<K(==), V> = Wheel(
    n: nat,
    ticked: nat,
    slots: seq<seq<Id>>,
    store: map<Id, Entry<K, V>>,
    timers: map<K, Position>)

  /** Items that are not marked removed and the entries of timers correspond one to one. */
  ghost predicate WellFormed<K, V>(w: Wheel<K, V>) {
    && w.ticked < w.n == |w.slots|
    && (forall i, a :: 0 <= i < w.n && 0 <= a < |w.slots[i]| ==> ItemAt(w, i, w.slots[i][a]))
    && (forall i :: 0 <= i < w.n ==> NoDuplicates(w.slots[i]))
    && (forall k :: k in w.timers ==> KeyAt(w, k, w.timers[k]))
  }

  ghost predicate ItemAt<K, V>(w: Wheel<K, V>, slot: nat, id: Id) {
    id in w.store && (!w.store[id].removed ==>
                        w.store[id].key in w.timers && w.timers[w.store[id].key] == Position(slot, id))
  }

  ghost predicate KeyAt<K, V>(w: Wheel<K, V>, k: K, p: Position) {
    && p.pos < w.n == |w.slots| && p.item in w.slots[p.pos]
    && p.item in w.store && w.store[p.item].key == k && !w.store[p.item].removed && w.store[p.item].diff < w.n
  }

  ghost function TimerAt<K, V>(w: Wheel<K, V>, p: Position): (r: Timer<V>)
    requires w.ticked < w.n && p.pos < w.n && p.item in w.store
  {
    var e := w.store[p.item];
    Timer(e.value, Remaining(p.pos, w.ticked, w.n, e.circle, e.diff))
  }

  /** What the wheel stands for: the value and the ticks to go of each key. */
  ghost function Timers<K, V>(w: Wheel<K, V>): (r: map<K, Timer<V>>)
    requires WellFormed(w)
  {
    map k | k in w.timers :: TimerAt(w, w.timers[k])
  }

  // ---- set, move, remove -----------------------------------------------------------------------

  function WithItem<K(==), V>(w: Wheel<K, V>, id: Id, pos: nat, e: Entry<K, V>): (r: Wheel<K, V>)
    requires pos < |w.slots|
  {
    w.(slots := w.slots[pos := w.slots[pos] + [id]], store := w.store[id := e],
    timers := w.timers[e.key := Position(pos, id)])
  }

  function WithoutKey<K(==), V>(w: Wheel<K, V>, k: K): (r: Wheel<K, V>)
    requires k in w.timers && w.timers[k].item in w.store
  {
    var id := w.timers[k].item;
    w.(store := w.store[id := w.store[id].(removed := true)], timers := w.timers - {k})
  }

  function WithEntry<K(==), V>(w: Wheel<K, V>, k: K, e: Entry<K, V>): (r: Wheel<K, V>)
    requires k in w.timers
  {
    w.(store := w.store[w.timers[k].item := e])
  }

  lemma ItemAdded<K, V>(w: Wheel<K, V>, id: Id, pos: nat, e: Entry<K, V>)
    requires WellFormed(w) && id !in w.store && pos < w.n && e.key !in w.timers && !e.removed && e.diff < w.n
    ensures WellFormed(WithItem(w, id, pos, e))
    ensures Timers(WithItem(w, id, pos, e))
         == Timers(w)[e.key := Timer(e.value, Remaining(pos, w.ticked, w.n, e.circle, e.diff))]
  {
    var w' := WithItem(w, id, pos, e);
    forall i, a | 0 <= i < w.n && 0 <= a < |w'.slots[i]| ensures ItemAt(w', i, w'.slots[i][a]) {
      if a < |w.slots[i]| {
        assert ItemAt(w, i, w.slots[i][a]);
      }
    }
    forall k | k in w'.timers ensures KeyAt(w', k, w'.timers[k]) {
      if k != e.key {
        assert KeyAt(w, k, w.timers[k]);
      } else {
        assert w'.slots[pos][|w.slots[pos]|] == id;
      }
    }
    FreshId(w, id);
    hide ItemAt, KeyAt;
  }

  lemma FreshId<K, V>(w: Wheel<K, V>, id: Id)
    requires WellFormed(w) && id !in w.store
    ensures forall i :: 0 <= i < w.n ==> NoDuplicates(w.slots[i] + [id])
  {
    forall i | 0 <= i < w.n ensures NoDuplicates(w.slots[i] + [id]) {
      assert forall a :: 0 <= a < |w.slots[i]| ==> ItemAt(w, i, w.slots[i][a]);
    }
  }

  lemma KeyRemoved<K, V>(w: Wheel<K, V>, k: K)
    requires WellFormed(w) && k in w.timers
    ensures KeyAt(w, k, w.timers[k])
    ensures WellFormed(WithoutKey(w, k))
    ensures Timers(WithoutKey(w, k)) == Timers(w) - {k}
  {
    var id := w.timers[k].item;
    assert KeyAt(w, k, w.timers[k]);
    var w' := WithoutKey(w, k);
    forall i, a | 0 <= i < w.n && 0 <= a < |w'.slots[i]| ensures ItemAt(w', i, w'.slots[i][a]) {
      assert ItemAt(w, i, w.slots[i][a]);
    }
    forall j | j in w'.timers ensures KeyAt(w', j, w'.timers[j]) {
      assert KeyAt(w, j, w.timers[j]);
    }
  }

  lemma EntryChanged<K, V>(w: Wheel<K, V>, k: K, e: Entry<K, V>)
    requires WellFormed(w) && k in w.timers && e.key == k && !e.removed && e.diff < w.n
    ensures WellFormed(WithEntry(w, k, e))
    ensures Timers(WithEntry(w, k, e))
         == Timers(w)[k := Timer(e.value, Remaining(w.timers[k].pos, w.ticked, w.n, e.circle, e.diff))]
  {
    assert KeyAt(w, k, w.timers[k]);
    var w' := WithEntry(w, k, e);
    forall i, a | 0 <= i < w.n && 0 <= a < |w'.slots[i]| ensures ItemAt(w', i, w'.slots[i][a]) {
      assert ItemAt(w, i, w.slots[i][a]);
    }
    forall j | j in w'.timers ensures KeyAt(w', j, w'.timers[j]) {
      assert KeyAt(w, j, w.timers[j]);
    }
  }

  // ---- a tick ------------------------------------------------------------------------------------

  ghost function AfterTick<K, V>(m: map<K, Timer<V>>): (r: map<K, Timer<V>>) {
    map k | k in m && m[k].ticks > 1 :: Timer(m[k].value, m[k].ticks - 1)
  }

  /** The tasks are those with one tick to go, each once. */
  ghost predicate FiresExactly<K, V>(m: map<K, Timer<V>>, tasks: seq<(K, V)>) {
    && (forall i :: 0 <= i < |tasks| ==> tasks[i].0 in m && m[tasks[i].0] == Timer(tasks[i].1, 1))
    && (forall i, j :: 0 <= i < j < |tasks| ==> tasks[i].0 != tasks[j].0)
    && (forall k :: k in m && m[k].ticks == 1 ==> exists i :: 0 <= i < |tasks| && tasks[i].0 == k)
  }

  /** The slot after `prev` is being scanned; `rest` is the part of its list not looked at yet. */
  ghost predicate Scanning<K, V>(w: Wheel<K, V>, prev: nat, kept: seq<Id>, rest: seq<Id>) {
    WellFormed(w) && prev < w.n && w.ticked == NextSlot(prev, w.n) && w.slots[w.ticked] == kept + rest
  }

  /** The ticks to go after this tick, for a timer that may still be waiting to be looked at. */
  ghost function LeftAt<K, V>(w: Wheel<K, V>, prev: nat, rest: seq<Id>, p: Position): (r: Timer<V>)
    requires w.ticked < w.n && prev < w.n && p.pos < w.n && p.item in w.store
  {
    var e := w.store[p.item];
    if p.item in rest then Timer(e.value, Remaining(p.pos, prev, w.n, e.circle, e.diff) - 1) else TimerAt(w, p)
  }

  ghost function Left<K, V>(w: Wheel<K, V>, prev: nat, rest: seq<Id>): (r: map<K, Timer<V>>)
    requires WellFormed(w) && prev < w.n
  {
    map k | k in w.timers :: LeftAt(w, prev, rest, w.timers[k])
  }

  lemma StartAt<K, V>(w: Wheel<K, V>, k: K)
    requires WellFormed(w) && k in w.timers
    ensures var next, p := NextSlot(w.ticked, w.n), w.timers[k];
            KeyAt(w.(ticked := next), k, p) &&
            LeftAt(w.(ticked := next), w.ticked, w.slots[next], p)
            == Timer(TimerAt(w, p).value, TimerAt(w, p).ticks - 1)
  {
    var next, p := NextSlot(w.ticked, w.n), w.timers[k];
    assert KeyAt(w, k, p);
    TickAhead(p.pos, w.ticked, w.n);
    if p.item in w.slots[next] {
      var a :| 0 <= a < |w.slots[next]| && w.slots[next][a] == p.item;
      assert ItemAt(w, next, w.slots[next][a]);
    }
  }

  /** At the start of a scan every timer has one tick less to go, at its end the wheel says so. */
  lemma ScanStarts<K, V>(w: Wheel<K, V>)
    requires WellFormed(w)
    ensures var next := NextSlot(w.ticked, w.n);
            Scanning(w.(ticked := next), w.ticked, [], w.slots[next]) &&
            Left(w.(ticked := next), w.ticked, w.slots[next])
            == map k | k in Timers(w) :: Timer(Timers(w)[k].value, Timers(w)[k].ticks - 1)
  {
    hide LeftAt, NextSlot;
    var next := NextSlot(w.ticked, w.n);
    var w' := w.(ticked := next);
    forall i, a | 0 <= i < w.n && 0 <= a < |w'.slots[i]| ensures ItemAt(w', i, w'.slots[i][a]) {
      assert ItemAt(w, i, w.slots[i][a]);
    }
    forall k | k in w.timers
      ensures KeyAt(w', k, w.timers[k])
      ensures LeftAt(w', w.ticked, w.slots[next], w.timers[k])
           == Timer(TimerAt(w, w.timers[k]).value, TimerAt(w, w.timers[k]).ticks - 1)
    {
      StartAt(w, k);
    }
  }

  lemma ScanEnds<K, V>(w: Wheel<K, V>, prev: nat, kept: seq<Id>)
    requires Scanning(w, prev, kept, [])
    ensures Left(w, prev, []) == Timers(w)
  {
  }

  ghost function Scanned<K, V>(w: Wheel<K, V>, list: seq<Id>): (r: Wheel<K, V>)
    requires w.ticked < |w.slots|
  {
    w.(slots := w.slots[w.ticked := list])
  }

  lemma HeadOfList<K, V>(w: Wheel<K, V>, prev: nat, kept: seq<Id>, rest: seq<Id>)
    requires Scanning(w, prev, kept, rest) && rest != []
    ensures ItemAt(w, w.ticked, rest[0]) && rest[0] !in rest[1..] && rest[0] !in kept
    ensures forall id :: id in kept + rest[1..] <==> id in w.slots[w.ticked] && id != rest[0]
    ensures NoDuplicates(kept + rest[1..])
    ensures kept + [rest[0]] + rest[1..] == kept + rest
  {
    var list := w.slots[w.ticked];
    assert list[|kept|] == rest[0];
    assert rest == [rest[0]] + rest[1..];
    forall id ensures id in kept + rest[1..] <==> id in list && id != rest[0] {
      if id in kept {
        var a :| 0 <= a < |kept| && kept[a] == id;
        assert list[a] == id;
      }
      if id in rest[1..] {
        var a :| 0 <= a < |rest| - 1 && rest[1..][a] == id;
        assert list[|kept| + 1 + a] == id;
      }
    }
    assert rest[0] !in kept + rest[1..];
    forall a, b | 0 <= a < b < |kept + rest[1..]| ensures (kept + rest[1..])[a] != (kept + rest[1..])[b] {
      assert (kept + rest[1..])[a] == list[if a < |kept| then a else a + 1];
      assert (kept + rest[1..])[b] == list[if b < |kept| then b else b + 1];
    }
  }

  lemma DropRemoved<K, V>(w: Wheel<K, V>, prev: nat, kept: seq<Id>, rest: seq<Id>)
    requires Scanning(w, prev, kept, rest) && rest != [] && rest[0] in w.store && w.store[rest[0]].removed
    ensures var w' := Scanned(w, kept + rest[1..]);
            Scanning(w', prev, kept, rest[1..]) && Left(w', prev, rest[1..]) == Left(w, prev, rest)
  {
    HeadOfList(w, prev, kept, rest);
    var w' := Scanned(w, kept + rest[1..]);
    forall i, a | 0 <= i < w.n && 0 <= a < |w'.slots[i]| ensures ItemAt(w', i, w'.slots[i][a]) {
      assert w'.slots[i][a] in w.slots[i];
    }
    forall k | k in w'.timers
      ensures KeyAt(w', k, w'.timers[k]) && (w'.timers[k].item in rest[1..] <==> w'.timers[k].item in rest)
    {
      assert KeyAt(w, k, w.timers[k]);
    }
  }

  lemma LowerCircleAt<K, V>(w: Wheel<K, V>, prev: nat, kept: seq<Id>, rest: seq<Id>)
    requires Scanning(w, prev, kept, rest) && rest != [] && rest[0] in w.store
    requires var e := w.store[rest[0]]; !e.removed && e.circle > 0
    ensures var e := w.store[rest[0]];
            var w' := w.(store := w.store[rest[0] := e.(circle := e.circle - 1)]);
            Scanning(w', prev, kept + [rest[0]], rest[1..]) && Left(w', prev, rest[1..]) == Left(w, prev, rest)
  {
    HeadOfList(w, prev, kept, rest);
    var id, e := rest[0], w.store[rest[0]];
    var w' := w.(store := w.store[id := e.(circle := e.circle - 1)]);
    LowerCircle(prev, w.n, e.circle, e.diff);
    forall i, a | 0 <= i < w.n && 0 <= a < |w'.slots[i]| ensures ItemAt(w', i, w'.slots[i][a]) {
      assert ItemAt(w, i, w.slots[i][a]);
    }
    forall k | k in w'.timers
      ensures KeyAt(w', k, w'.timers[k])
      ensures LeftAt(w', prev, rest[1..], w'.timers[k]) == LeftAt(w, prev, rest, w.timers[k])
    {
      assert KeyAt(w, k, w.timers[k]);
    }
  }

  lemma FireAt<K, V>(w: Wheel<K, V>, prev: nat, kept: seq<Id>, rest: seq<Id>)
    requires Scanning(w, prev, kept, rest) && rest != [] && rest[0] in w.store
    requires var e := w.store[rest[0]]; !e.removed && e.circle == 0 && e.diff == 0
    ensures var e := w.store[rest[0]];
            var w' := Scanned(w, kept + rest[1..]).(timers := w.timers - {e.key});
            Scanning(w', prev, kept, rest[1..]) && Left(w', prev, rest[1..]) == Left(w, prev, rest) - {e.key}
            && e.key in Left(w, prev, rest) && Left(w, prev, rest)[e.key] == Timer(e.value, 0)
  {
    HeadOfList(w, prev, kept, rest);
    var e := w.store[rest[0]];
    TickAhead(w.ticked, prev, w.n);
    var w' := Scanned(w, kept + rest[1..]).(timers := w.timers - {e.key});
    forall i, a | 0 <= i < w.n && 0 <= a < |w'.slots[i]| ensures ItemAt(w', i, w'.slots[i][a]) {
      assert w'.slots[i][a] in w.slots[i] && ItemAt(w, i, w'.slots[i][a]);
    }
    forall k | k in w'.timers
      ensures KeyAt(w', k, w'.timers[k])
      ensures LeftAt(w', prev, rest[1..], w'.timers[k]) == LeftAt(w, prev, rest, w.timers[k])
    {
      assert KeyAt(w, k, w.timers[k]);
    }
  }

  lemma MoveOnAt<K, V>(w: Wheel<K, V>, prev: nat, kept: seq<Id>, rest: seq<Id>)
    requires Scanning(w, prev, kept, rest) && rest != [] && rest[0] in w.store
    requires var e := w.store[rest[0]]; !e.removed && e.circle == 0 && e.diff > 0
    ensures var id, e := rest[0], w.store[rest[0]];
            var pos := TargetSlot(w.ticked, w.n, e.diff);
            var w' := WithItem(Scanned(w, kept + rest[1..]), id, pos, e.(diff := 0));
            Scanning(w', prev, kept, rest[1..]) && Left(w', prev, rest[1..]) == Left(w, prev, rest)
  {
    HeadOfList(w, prev, kept, rest);
    var id, e := rest[0], w.store[rest[0]];
    assert KeyAt(w, e.key, w.timers[e.key]);
    MoveOn(prev, w.n, e.diff);
    var pos := TargetSlot(w.ticked, w.n, e.diff);
    var w' := WithItem(Scanned(w, kept + rest[1..]), id, pos, e.(diff := 0));
    forall i, a | 0 <= i < w.n && 0 <= a < |w'.slots[i]| ensures ItemAt(w', i, w'.slots[i][a]) {
      if w'.slots[i][a] in w.slots[i] {
        assert ItemAt(w, i, w'.slots[i][a]);
      }
    }
    forall k | k in w'.timers
      ensures KeyAt(w', k, w'.timers[k])
      ensures LeftAt(w', prev, rest[1..], w'.timers[k]) == LeftAt(w, prev, rest, w.timers[k])
    {
      assert KeyAt(w, k, w.timers[k]);
    }
    forall i | 0 <= i < w.n ensures NoDuplicates(w'.slots[i]) {
      assert forall a :: 0 <= a < |w.slots[i]| ==> ItemAt(w, i, w.slots[i][a]);
    }
  }

  // ---- the fired tasks ---------------------------------------------------------------------------

  ghost function KeysOf<K, V>(tasks: seq<(K, V)>): (r: set<K>) {
    set i | 0 <= i < |tasks| :: tasks[i].0
  }

  /** The tasks are timers of m with nothing left to go, each once. */
  ghost predicate Due<K, V>(m: map<K, Timer<V>>, tasks: seq<(K, V)>) {
    && (forall i :: 0 <= i < |tasks| ==> tasks[i].0 in m && m[tasks[i].0] == Timer(tasks[i].1, 0))
    && (forall i, j :: 0 <= i < j < |tasks| ==> tasks[i].0 != tasks[j].0)
  }

  lemma FiredOne<K, V>(m: map<K, Timer<V>>, tasks: seq<(K, V)>, left: map<K, Timer<V>>, k: K, v: V)
    requires Due(m, tasks) && left == m - KeysOf(tasks) && k in left && left[k] == Timer(v, 0)
    ensures Due(m, tasks + [(k, v)]) && left - {k} == m - KeysOf(tasks + [(k, v)])
  {
    var more := tasks + [(k, v)];
    assert more[|tasks|] == (k, v);
    forall j ensures j in KeysOf(more) <==> j in KeysOf(tasks) || j == k {
      if j in KeysOf(tasks) {
        var i :| 0 <= i < |tasks| && tasks[i].0 == j;
        assert more[i].0 == j;
      }
    }
    forall i | 0 <= i < |tasks| ensures tasks[i].0 != k {
      assert tasks[i].0 in KeysOf(tasks);
    }
  }

  /** Removing what is due from the lowered timers is what a tick has to do. */
  lemma TickResult<K, V>(m: map<K, Timer<V>>, lowered: map<K, Timer<V>>, tasks: seq<(K, V)>, final: map<K, Timer<V>>)
    requires forall k :: k in m ==> m[k].ticks >= 1
    requires lowered == map k | k in m :: Timer(m[k].value, m[k].ticks - 1)
    requires Due(lowered, tasks) && final == lowered - KeysOf(tasks)
    requires forall k :: k in final ==> final[k].ticks >= 1
    ensures final == AfterTick(m) && FiresExactly(m, tasks)
  {
    forall k ensures k in final <==> k in m && m[k].ticks > 1 {
      if k in KeysOf(tasks) {
        var i :| 0 <= i < |tasks| && tasks[i].0 == k;
        assert lowered[k].ticks == 0;
      }
    }
    forall k | k in m && m[k].ticks == 1 ensures exists i :: 0 <= i < |tasks| && tasks[i].0 == k {
      assert k in KeysOf(tasks);
    }
  }

  // ---- over many messages ------------------------------------------------------------------------

  /** What handling a message does to the timers. */
  datatype Change<K, V> = Ticked | Put(key: K, timer: Timer<V>) | Gone(key: K)

  ghost function After<K, V>(m: map<K, Timer<V>>, change: Change<K, V>): (r: map<K, Timer<V>>) {
    match change
    case Ticked => AfterTick(m)
    case Put(key, timer) => m[key := timer]
    case Gone(key) => m - {key}
  }

  ghost function AfterAll<K, V>(m: map<K, Timer<V>>, changes: seq<Change<K, V>>): (r: map<K, Timer<V>>) {
    if changes == [] then m else After(AfterAll(m, changes[..|changes| - 1]), changes[|changes| - 1])
  }

  lemma AfterOneMore<K, V>(m: map<K, Timer<V>>, changes: seq<Change<K, V>>, change: Change<K, V>)
    ensures AfterAll(m, changes + [change]) == After(AfterAll(m, changes), change)
  {
    assert (changes + [change])[..|changes|] == changes;
  }

  lemma {:induction false} AfterSplit<K, V>(m: map<K, Timer<V>>, changes: seq<Change<K, V>>, from: nat)
    requires from <= |changes|
    ensures AfterAll(AfterAll(m, changes[..from]), changes[from..]) == AfterAll(m, changes)
  {
    hide After;
    if from < |changes| {
      var n := |changes| - 1;
      AfterSplit(m, changes[..n], from);
      assert changes[..n][..from] == changes[..from] && changes[..n][from..] == changes[from..][..n - from];
    } else {
      assert changes[..from] == changes;
    }
  }

  ghost predicate Positive<K, V>(m: map<K, Timer<V>>) {
    forall k :: k in m ==> m[k].ticks >= 1
  }

  lemma {:induction false} StaysPositive<K, V>(m: map<K, Timer<V>>, changes: seq<Change<K, V>>)
    requires Positive(m) && forall i :: 0 <= i < |changes| && changes[i].Put? ==> changes[i].timer.ticks >= 1
    ensures Positive(AfterAll(m, changes))
  {
    if changes != [] {
      StaysPositive(m, changes[..|changes| - 1]);
    }
  }

  ghost function Ticks<K, V>(changes: seq<Change<K, V>>): (n: nat) {
    if changes == [] then 0
    else Ticks(changes[..|changes| - 1]) + if changes[|changes| - 1].Ticked? then 1 else 0
  }

  ghost predicate Concerns<K, V>(change: Change<K, V>, k: K) {
    !change.Ticked? && change.key == k
  }

  /** A timer that no change concerns fires at its last tick, and at no other, whatever happens to other timers. */
  lemma {:induction false} FiresOnTime<K, V>(m: map<K, Timer<V>>, k: K, changes: seq<Change<K, V>>)
    requires k in m && m[k].ticks >= 1 && forall i :: 0 <= i < |changes| ==> !Concerns(changes[i], k)
    ensures k in AfterAll(m, changes) <==> Ticks(changes) < m[k].ticks
    ensures Ticks(changes) < m[k].ticks ==> AfterAll(m, changes)[k] == Timer(m[k].value, m[k].ticks - Ticks(changes))
  {
    if changes != [] {
      FiresOnTime(m, k, changes[..|changes| - 1]);
      assert !Concerns(changes[|changes| - 1], k);
    }
  }

  ghost predicate Fires<K, V>(tasks: seq<(K, V)>, k: K) {
    exists j :: 0 <= j < |tasks| && tasks[j].0 == k
  }

  /** The tasks that a tick fires include k exactly if one tick was left for it. */
  lemma FiresWhen<K, V>(m: map<K, Timer<V>>, tasks: seq<(K, V)>, k: K)
    requires FiresExactly(m, tasks)
    ensures Fires(tasks, k) <==> k in m && m[k].ticks == 1
  {
  }
}

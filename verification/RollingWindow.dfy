/** core/collection/rollingwindow.go: a ring of buckets against the log of timed events it summarises. */
module RollingWindows {
  import opened Arithmetic

  /** An event and the interval, counted from the creation of the window, in which it was added. */
  datatype Event<T> = Event(epoch: nat, value: T)

  /** The bucket for the events of one interval. */
  ghost function BucketOf<T, B>(empty: B, addTo: (B, T) -> B, log: seq<Event<T>>, epoch: int): (r: B) {
    if log == [] then empty
    else
      var n := |log| - 1;
      var before := BucketOf(empty, addTo, log[..n], epoch);
      if log[n].epoch == epoch then addTo(before, log[n].value) else before
  }

  lemma {:induction false} NoEvents<T, B>(empty: B, addTo: (B, T) -> B, log: seq<Event<T>>, epoch: int)
    requires forall i :: 0 <= i < |log| ==> log[i].epoch != epoch
    ensures BucketOf(empty, addTo, log, epoch) == empty
  {
    if log != [] {
      NoEvents(empty, addTo, log[..|log| - 1], epoch);
    }
  }

  lemma Logged<T, B>(empty: B, addTo: (B, T) -> B, log: seq<Event<T>>, e: Event<T>, epoch: int)
    ensures BucketOf(empty, addTo, log + [e], epoch)
         == if e.epoch == epoch then addTo(BucketOf(empty, addTo, log, epoch), e.value)
            else BucketOf(empty, addTo, log, epoch)
  {
    assert (log + [e])[..|log|] == log;
  }

  /** Where the bucket of j intervals before the last one is. */
  function Back(offset: nat, size: nat, j: nat): (index: nat)
    requires offset < size && j < size
    ensures index < size
  {
    if j <= offset then offset - j else offset + size - j
  }

  lemma ModOnce(x: nat, size: nat)
    requires 0 < size && x < 2 * size
    ensures x % size == if x < size then x else x - size
  {
    if x >= size {
      assert (x - size) % size == x - size;
      assert x == 1 * size + (x - size);
    }
  }

  /** Counting intervals from an aligned time instead of from the start. */
  lemma SinceAligned(now: int, start: int, interval: nat, last: nat)
    requires interval > 0 && now >= start + interval * last
    ensures (now - (start + interval * last)) / interval == (now - start) / interval - last
    ensures now - (now - (start + interval * last)) % interval == start + interval * ((now - start) / interval)
    ensures (now - start) / interval >= last
  {
    var x, q := now - start - interval * last, (now - start - interval * last) / interval;
    assert x == q * interval + x % interval;
    assert now - start == (q + last) * interval + x % interval;
    QuotientIs(now - start, interval, q + last, x % interval);
  }

  class RollingWindow<T, B> {
    const size: nat
    const interval: nat
    const ignoreCurrent: bool
    const empty: B
    const addTo: (B, T) -> B
    const buckets: array<B>
    var offset: nat
    var lastTime: int

    ghost const start: int
    ghost var last: nat             // the interval that lastTime begins
    ghost var log: seq<Event<T>>

    /** A bucket is a value here: `empty` is what newBucket and Reset make, `addTo` is its Add. */
    constructor (empty: B, addTo: (B, T) -> B, size: nat, interval: nat, ignoreCurrent: bool, now: int)
      requires size >= 1 && interval > 0
      ensures Valid() && fresh(buckets) && log == [] && start == lastTime == now
      ensures this.size == size && this.interval == interval && this.ignoreCurrent == ignoreCurrent
      ensures this.empty == empty && this.addTo == addTo
    {
      this.size, this.interval, this.ignoreCurrent := size, interval, ignoreCurrent;
      this.empty, this.addTo := empty, addTo;
      buckets := new B[size](i => empty);
      offset, lastTime, start, last, log := 0, now, now, 0, [];
    }

    ghost predicate Valid()
      reads this, buckets
    {
      && 0 < size == buckets.Length && interval > 0 && offset < size
      && lastTime == start + interval * last
      && (forall i :: 0 <= i < |log| ==> log[i].epoch <= last)
      && forall j :: 0 <= j < size ==> buckets[Back(offset, size, j)] == BucketAt(last - j)
    }

    ghost function BucketAt(epoch: int): (r: B)
      reads this
    {
      BucketOf(empty, addTo, log, epoch)
    }

    ghost function Epoch(now: int): (r: int)
      requires interval > 0
    {
      (now - start) / interval
    }

    /** The whole intervals since the last bucket began, at most size. */
    function Span(now: int): (span: nat)
      requires Valid() && now >= lastTime
      reads this, buckets
      ensures span == if Epoch(now) - last < size then Epoch(now) - last else size
    {
      SinceAligned(now, start, interval, last);
      var passed := (now - lastTime) / interval;
      if 0 <= passed < size then passed else size
    }

    method Add(v: T, now: int)
      requires Valid() && now >= lastTime
      modifies this, buckets
      ensures Valid() && last == Epoch(now) && log == old(log) + [Event(last, v)] && lastTime <= now
    {
      UpdateOffset(now);
      hide BucketOf;
      var e := offset % size;
      assert e == offset;
      buckets[e] := addTo(buckets[e], v);
      log := log + [Event(last, v)];
      forall j | 0 <= j < size ensures buckets[Back(offset, size, j)] == BucketAt(last - j) {
        Logged(empty, addTo, log[..|log| - 1], Event(last, v), last - j);
        assert log[..|log| - 1] + [Event(last, v)] == log;
      }
    }

    method UpdateOffset(now: int)
      requires Valid() && now >= lastTime
      modifies this`offset, this`lastTime, this`last, buckets
      ensures Valid() && last == Epoch(now) && lastTime <= now
    {
      hide BucketOf;
      var span := Span(now);
      SinceAligned(now, start, interval, last);
      if span <= 0 {
        return;
      }
      var from := offset;
      ghost var was := buckets[..];
      // the buckets of intervals that lie too far back start afresh
      for i := 0 to span
        invariant offset == from == old(offset) && last == old(last) && lastTime == old(lastTime)
        invariant forall k :: 0 <= k < size ==> buckets[k] == if Ahead(k, from, size) <= i then empty else was[k]
      {
        ModOnce(from + i + 1, size);
        buckets[(from + i + 1) % size] := empty;
      }
      ModOnce(from + span, size);
      offset := (from + span) % size;
      // the start of the interval that now lies in
      lastTime := now - (now - lastTime) % interval;
      last := Epoch(now);
      forall j | 0 <= j < size ensures buckets[Back(offset, size, j)] == BucketAt(last - j) {
        if j < span {
          NoEvents(empty, addTo, log, last - j);
        } else {
          assert Back(offset, size, j) == Back(from, size, j - span);
          assert was[Back(from, size, j - span)] == BucketOf(empty, addTo, log, old(last) - (j - span));
        }
      }
    }

    /** Visits the buckets of the window that ends at `now`, oldest first. The intervals after the last visited
        one hold no events, apart from the current one when it is to be ignored. */
    method Reduce(now: int) returns (visited: seq<B>)
      requires Valid() && now >= lastTime
      ensures |visited| <= size
      ensures forall k :: 0 <= k < |visited| ==> visited[k] == BucketAt(Epoch(now) - size + 1 + k)
      ensures forall i :: 0 <= i < |log| && log[i].epoch > Epoch(now) - size + |visited|
                          ==> ignoreCurrent && log[i].epoch == Epoch(now) == last
      ensures ignoreCurrent ==> |visited| < size
    {
      hide BucketOf, Epoch;
      var span := Span(now);
      var diff := if span == 0 && ignoreCurrent then size - 1 else size - span;
      visited := [];
      if diff > 0 {
        ModOnce(offset + span + 1, size);
        var from := (offset + span + 1) % size;
        for i := 0 to diff
          invariant |visited| == i
          invariant forall k :: 0 <= k < i ==> visited[k] == BucketAt(Epoch(now) - size + 1 + k)
        {
          ModOnce(from + i, size);
          assert (from + i) % size == Back(offset, size, size - 1 - span - i);
          visited := visited + [buckets[(from + i) % size]];
        }
      }
    }
  }
}

/** Counting the threads of a protocol that are at a given kind of program point. */
module Threads {

  ghost function At<T, P(!new)>(threads: map<T, P>, f: P -> bool): (r: set<T>) {
    set t | t in threads && f(threads[t])
  }

  ghost function Count<T, P(!new)>(threads: map<T, P>, f: P -> bool): (r: nat) {
    |At(threads, f)|
  }

  ghost function One(b: bool): (r: nat) {
    if b then 1 else 0
  }

  /** Moving one thread changes a count by what that thread contributes. */
  lemma CountMove<T, P(!new)>(threads: map<T, P>, t: T, p: P, f: P -> bool)
    ensures Count(threads[t := p], f) + One(t in threads && f(threads[t])) == Count(threads, f) + One(f(p))
  {
    AtMove(threads, t, p, f);
    OneMoved(At(threads, f), At(threads[t := p], f), t);
  }

  lemma OneMoved<T>(before: set<T>, after: set<T>, t: T)
    requires forall u :: u != t ==> (u in before <==> u in after)
    ensures |after| + One(t in before) == |before| + One(t in after)
  {
    assert before - {t} == after - {t};
    SizeWithout(before, t);
    SizeWithout(after, t);
  }

  lemma SizeWithout<T>(s: set<T>, t: T)
    ensures |s| == |s - {t}| + One(t in s)
  {
    if t !in s {
      assert s - {t} == s;
    }
  }

  lemma AtMove<T, P(!new)>(threads: map<T, P>, t: T, p: P, f: P -> bool)
    ensures forall u :: u in At(threads[t := p], f) <==> if u == t then f(p) else u in At(threads, f)
  {
    var moved := threads[t := p];
    forall u ensures u in At(moved, f) <==> if u == t then f(p) else u in At(threads, f) {
      if u == t {
        assert moved[u] == p;
      } else if u in moved {
        assert moved[u] == threads[u];
      }
    }
  }

  lemma CountPositive<T, P(!new)>(threads: map<T, P>, f: P -> bool)
    ensures Count(threads, f) > 0 <==> exists t :: t in threads && f(threads[t])
  {
    var those := At(threads, f);
    if |those| > 0 {
      var t :| t in those;
    } else {
      assert forall t :: t in threads && f(threads[t]) ==> t in those;
    }
  }

  /** Two different threads make a count of at least two. */
  lemma CountTwo<T, P(!new)>(threads: map<T, P>, f: P -> bool, t: T, u: T)
    requires t in threads && u in threads && t != u && f(threads[t]) && f(threads[u])
    ensures Count(threads, f) >= 2
  {
    var those := At(threads, f);
    assert {t, u} <= those;
    assert |those - {t, u}| == |those| - |{t, u}|;
  }

  /** The sum of a weight over all threads. */
  ghost function Sum<T(!new), P>(threads: map<T, P>, w: P -> nat): (r: nat)
    decreases |threads|
  {
    if threads == map[] then 0
    else
      var t :| t in threads;
      w(threads[t]) + Sum(threads - {t}, w)
  }

  lemma {:induction false} SumWithout<T(!new), P>(threads: map<T, P>, t: T, w: P -> nat)
    requires t in threads
    ensures Sum(threads, w) == w(threads[t]) + Sum(threads - {t}, w)
    decreases |threads|
  {
    var u :| u in threads && Sum(threads, w) == w(threads[u]) + Sum(threads - {u}, w);
    if u != t {
      SumWithout(threads - {u}, t, w);
      SumWithout(threads - {t}, u, w);
      assert threads - {u} - {t} == threads - {t} - {u};
    }
  }

  /** Moving one thread changes a sum by what that thread contributes. */
  lemma SumMove<T(!new), P>(threads: map<T, P>, t: T, p: P, w: P -> nat)
    ensures Sum(threads[t := p], w) + (if t in threads then w(threads[t]) else 0) == Sum(threads, w) + w(p)
  {
    SumWithout(threads[t := p], t, w);
    if t in threads {
      SumWithout(threads, t, w);
      assert threads[t := p] - {t} == threads - {t};
    } else {
      assert threads[t := p] - {t} == threads;
    }
  }

  lemma CountNone<T, P(!new)>(f: P -> bool)
    ensures Count<T, P>(map[], f) == 0
  {
  }

  // ---- threads numbered in the order they started ------------------------------------------

  ghost function CountAt<P>(points: seq<P>, f: P -> bool): (r: nat) {
    if points == [] then 0 else CountAt(points[..|points| - 1], f) + One(f(points[|points| - 1]))
  }

  lemma CountAppend<P>(points: seq<P>, p: P, f: P -> bool)
    ensures CountAt(points + [p], f) == CountAt(points, f) + One(f(p))
  {
    assert (points + [p])[..|points|] == points;
  }

  lemma {:induction false} CountUpdate<P>(points: seq<P>, i: nat, p: P, f: P -> bool)
    requires i < |points|
    ensures CountAt(points[i := p], f) + One(f(points[i])) == CountAt(points, f) + One(f(p))
  {
    var n := |points| - 1;
    if i < n {
      CountUpdate(points[..n], i, p, f);
      assert points[i := p][..n] == points[..n][i := p];
    } else {
      assert points[i := p][..n] == points[..n];
    }
  }

  lemma {:induction false} CountedOne<P>(points: seq<P>, i: nat, f: P -> bool)
    requires i < |points| && f(points[i])
    ensures CountAt(points, f) > 0
  {
    var n := |points| - 1;
    if i < n {
      CountedOne(points[..n], i, f);
    }
  }

  lemma {:induction false} SomeCounted<P>(points: seq<P>, f: P -> bool) returns (i: nat)
    requires CountAt(points, f) > 0
    ensures i < |points| && f(points[i])
  {
    i := |points| - 1;
    if !f(points[i]) {
      i := SomeCounted(points[..i], f);
    }
  }

  lemma CountedNone<P>(points: seq<P>, f: P -> bool)
    requires forall k :: 0 <= k < |points| ==> !f(points[k])
    ensures CountAt(points, f) == 0
  {
    if CountAt(points, f) > 0 {
      var i := SomeCounted(points, f);
    }
  }

  lemma {:induction false} CountLess<P>(points: seq<P>, f: P -> bool, g: P -> bool)
    requires forall p :: f(p) ==> g(p)
    ensures CountAt(points, f) <= CountAt(points, g)
  {
    if points != [] {
      CountLess(points[..|points| - 1], f, g);
    }
  }
}

/** core/collection/safemap.go: a map kept in two generations, so that deleted space can be given back. */
module SafeMaps {
  import opened Options

  const COPY_THRESHOLD: nat := 1000
  const MAX_DELETION: nat := 10000

  class SafeMap<K(==), V> {
    var deletionOld: nat
    var deletionNew: nat
    var dirtyOld: map<K, V>
    var dirtyNew: map<K, V>

    ghost var peakOld: nat          // the most entries that the map in dirtyOld has held since it was made
    ghost var peakNew: nat

    constructor ()
      ensures Valid() && Contents() == map[]
    {
      deletionOld, deletionNew := 0, 0;
      dirtyOld, dirtyNew := map[], map[];
      peakOld, peakNew := 0, 0;
    }

    ghost predicate Valid()
      reads this
    {
      Fine(dirtyOld, deletionOld, peakOld, dirtyNew, deletionNew, peakNew)
    }

    /** No key is in both generations, and neither has held more than its entries and its deletions. */
    static ghost predicate Fine(a: map<K, V>, deletionsA: nat, peakA: nat, b: map<K, V>, deletionsB: nat, peakB: nat) {
      a.Keys !! b.Keys && Held(a.Keys, deletionsA, peakA) && Held(b.Keys, deletionsB, peakB)
    }

    static ghost predicate Held(keys: set<K>, deletions: nat, peak: nat) {
      |keys| <= peak <= |keys| + deletions
    }

    /** The space of what was deleted from a generation is as good as given back: it holds enough entries to be worth
        it, or has never held MAX_DELETION more. */
    static ghost predicate Compact(keys: set<K>, peak: nat) {
      |keys| >= COPY_THRESHOLD || peak < |keys| + MAX_DELETION
    }

    /** The plain map that the two generations stand for. */
    ghost function Contents(): (r: map<K, V>)
      reads this
    {
      dirtyOld + dirtyNew
    }

    method Get(key: K) returns (value: Option<V>)
      requires Valid()
      ensures value == if key in Contents() then Some(Contents()[key]) else None
    {
      if key in dirtyOld {
        return Some(dirtyOld[key]);
      }
      value := if key in dirtyNew then Some(dirtyNew[key]) else None;
    }

    method Set(key: K, value: V)
      requires Valid()
      modifies this
      ensures Valid() && Contents() == old(Contents())[key := value]
      ensures old(deletionOld) <= MAX_DELETION ==> key in dirtyOld && dirtyNew == old(dirtyNew) - {key}
      ensures old(deletionOld) > MAX_DELETION ==> key in dirtyNew && dirtyOld == old(dirtyOld) - {key}
      ensures peakOld >= old(peakOld) && peakNew >= old(peakNew)
    {
      ContentsAre();
      hide Fine, Raised, Contents;
      if deletionOld <= MAX_DELETION {
        Moved(dirtyOld, deletionOld, peakOld, dirtyNew, deletionNew, peakNew, key, value);
        if key in dirtyNew {
          dirtyNew := dirtyNew - {key};
          deletionNew := deletionNew + 1;
        }
        dirtyOld := dirtyOld[key := value];
        peakOld := Raised(peakOld, dirtyOld.Keys);
      } else {
        Moved(dirtyNew, deletionNew, peakNew, dirtyOld, deletionOld, peakOld, key, value);
        if key in dirtyOld {
          dirtyOld := dirtyOld - {key};
          deletionOld := deletionOld + 1;
        }
        dirtyNew := dirtyNew[key := value];
        peakNew := Raised(peakNew, dirtyNew.Keys);
      }
      ContentsAre();
    }

    lemma ContentsAre()
      ensures Contents() == dirtyOld + dirtyNew
    {
    }

    static ghost function Raised(peak: nat, keys: set<K>): (r: nat)
      ensures r >= peak
    {
      if peak < |keys| then |keys| else peak
    }

    /** After one more entry, or one more deletion. */
    static lemma HeldOn(keys: set<K>, deletions: nat, peak: nat, key: K)
      requires Held(keys, deletions, peak)
      ensures Held(keys + {key}, deletions, Raised(peak, keys + {key}))
      ensures key in keys ==> Held(keys - {key}, deletions + 1, peak)
    {
      assert |keys + {key}| == if key in keys then |keys| else |keys| + 1 by {
        assert key in keys ==> keys + {key} == keys;
      }
    }

    /** A key set in one generation and deleted from the other. */
    static lemma Moved(a: map<K, V>, deletionsA: nat, peakA: nat, b: map<K, V>, deletionsB: nat, peakB: nat, key: K,
                       value: V)
      requires Fine(a, deletionsA, peakA, b, deletionsB, peakB) || Fine(b, deletionsB, peakB, a, deletionsA, peakA)
      ensures var a' := a[key := value];
              var b', n := b - {key}, if key in b then deletionsB + 1 else deletionsB;
              && Fine(a', deletionsA, Raised(peakA, a'.Keys), b', n, peakB)
              && Fine(b', n, peakB, a', deletionsA, Raised(peakA, a'.Keys))
              && a' + b' == (a + b)[key := value] && b' + a' == (b + a)[key := value] && (key !in b ==> b' == b)
    {
      HeldOn(a.Keys, deletionsA, peakA, key);
      HeldOn(b.Keys, deletionsB, peakB, key);
      MovedMaps(a, b, key, value);
      hide Held, Raised;
    }

    static lemma MovedMaps(a: map<K, V>, b: map<K, V>, key: K, value: V)
      ensures a[key := value].Keys == a.Keys + {key} && (b - {key}).Keys == b.Keys - {key}
      ensures a[key := value] + (b - {key}) == (a + b)[key := value]
      ensures (b - {key}) + a[key := value] == (b + a)[key := value]
      ensures key !in b ==> b - {key} == b && b.Keys - {key} == b.Keys
    {
    }

    method Del(key: K)
      requires Valid()
      modifies this
      ensures Valid() && Contents() == old(Contents()) - {key}
      ensures Compact(dirtyNew.Keys, peakNew)
      ensures Compact(dirtyOld.Keys, peakOld) || (dirtyNew == map[] && deletionNew == 0)
      ensures old(dirtyNew == map[] && deletionNew == 0) ==> Compact(dirtyOld.Keys, peakOld)
    {
      hide Held, Raised, Compact;
      hide Valid, Compact, Contents;
      Delete(key);
      CompactOld();
      CompactNew();
    }

    /** Deletes the key from the generation it is in. */
    method Delete(key: K)
      requires Valid()
      modifies this
      ensures Valid() && Contents() == old(Contents()) - {key} && peakOld == old(peakOld) && peakNew == old(peakNew)
      ensures old(dirtyNew == map[] && deletionNew == 0) ==> dirtyNew == map[] && deletionNew == 0
    {
      ContentsAre();
      hide Fine, Contents;
      if key in dirtyOld {
        DeletedOld(dirtyOld, deletionOld, peakOld, dirtyNew, deletionNew, peakNew, key);
        dirtyOld := dirtyOld - {key};
        deletionOld := deletionOld + 1;
        ContentsAre();
      } else if key in dirtyNew {
        DeletedNew(dirtyOld, deletionOld, peakOld, dirtyNew, deletionNew, peakNew, key);
        dirtyNew := dirtyNew - {key};
        deletionNew := deletionNew + 1;
        ContentsAre();
      } else {
        assert Contents() == Contents() - {key};
      }
    }

    static lemma DeletedOld(a: map<K, V>, deletionsA: nat, peakA: nat, b: map<K, V>, deletionsB: nat, peakB: nat,
                            key: K)
      requires Fine(a, deletionsA, peakA, b, deletionsB, peakB) && key in a
      ensures Fine(a - {key}, deletionsA + 1, peakA, b, deletionsB, peakB) && (a - {key}) + b == (a + b) - {key}
    {
      HeldOn(a.Keys, deletionsA, peakA, key);
      assert (a - {key}).Keys == a.Keys - {key};
      hide Held;
    }

    static lemma DeletedNew(a: map<K, V>, deletionsA: nat, peakA: nat, b: map<K, V>, deletionsB: nat, peakB: nat,
                            key: K)
      requires Fine(a, deletionsA, peakA, b, deletionsB, peakB) && key in b
      ensures Fine(a, deletionsA, peakA, b - {key}, deletionsB + 1, peakB) && a + (b - {key}) == (a + b) - {key}
    {
      HeldOn(b.Keys, deletionsB, peakB, key);
      assert (b - {key}).Keys == b.Keys - {key};
      hide Held;
    }

    /** Moves a shrunken old generation into the new one, which takes its place. */
    method CompactOld()
      requires Valid()
      modifies this
      ensures Valid() && Contents() == old(Contents())
      ensures if old(deletionOld >= MAX_DELETION && |dirtyOld| < COPY_THRESHOLD)
              then deletionOld == old(deletionNew) && peakOld >= old(peakNew) && dirtyNew == map[] && deletionNew == 0
              else unchanged(this)
      ensures Compact(dirtyOld.Keys, peakOld)
              || (dirtyNew == map[] && deletionNew == 0 && deletionOld == old(deletionNew) > 0)
    {
      if deletionOld >= MAX_DELETION && |dirtyOld| < COPY_THRESHOLD {
        Merged(dirtyOld, dirtyNew);
        dirtyNew := CopyInto(dirtyOld, dirtyNew);
        dirtyOld, peakOld := dirtyNew, Raised(peakNew, dirtyNew.Keys);
        deletionOld := deletionNew;
        dirtyNew, peakNew := map[], 0;
        deletionNew := 0;
      }
    }

    /** Moves a shrunken new generation into the old one. */
    method CompactNew()
      requires Valid()
      modifies this
      ensures Valid() && Contents() == old(Contents())
      ensures if old(deletionNew >= MAX_DELETION && |dirtyNew| < COPY_THRESHOLD)
              then deletionOld == old(deletionOld) && peakOld >= old(peakOld) && dirtyNew == map[] && deletionNew == 0
              else unchanged(this)
      ensures Compact(dirtyNew.Keys, peakNew)
      ensures old(Compact(dirtyOld.Keys, peakOld)) ==> Compact(dirtyOld.Keys, peakOld)
    {
      if deletionNew >= MAX_DELETION && |dirtyNew| < COPY_THRESHOLD {
        Merged(dirtyOld, dirtyNew);
        dirtyOld := CopyInto(dirtyNew, dirtyOld);
        peakOld := Raised(peakOld, dirtyOld.Keys);
        dirtyNew, peakNew := map[], 0;
        deletionNew := 0;
      }
    }

    /** Either generation can take in the other. */
    static lemma Merged(a: map<K, V>, b: map<K, V>)
      requires a.Keys !! b.Keys
      ensures (b + a) + map[] == a + b
      ensures (a + b) + map[] == a + b
    {
    }

    method Size() returns (size: nat)
      requires Valid()
      ensures size == |Contents()|
    {
      size := |dirtyOld| + |dirtyNew|;
      assert Contents().Keys == dirtyOld.Keys + dirtyNew.Keys;
      assert |Contents()| == |Contents().Keys|;
    }

    /** Calls f for each key, in any order, until it answers false; `visited` are the keys it was called with. */
    method Range(f: (K, V) -> bool) returns (visited: seq<K>)
      requires Valid()
      ensures forall i :: 0 <= i < |visited| ==> visited[i] in Contents()
      ensures forall i, j :: 0 <= i < j < |visited| ==> visited[i] != visited[j]
      ensures forall i :: 0 <= i < |visited| - 1 ==> f(visited[i], Contents()[visited[i]])
      ensures (visited != [] && !f(visited[|visited| - 1], Contents()[visited[|visited| - 1]]))
              || (forall k :: k in Contents() ==> k in visited)
    {
      hide Held;
      var stopped: bool;
      visited, stopped := Walk(dirtyOld, f);
      if !stopped {
        var more: seq<K>;
        more, stopped := Walk(dirtyNew, f);
        visited := visited + more;
      }
    }

    static method Walk(m: map<K, V>, f: (K, V) -> bool) returns (visited: seq<K>, stopped: bool)
      ensures forall i :: 0 <= i < |visited| ==> visited[i] in m
      ensures forall i, j :: 0 <= i < j < |visited| ==> visited[i] != visited[j]
      ensures forall i :: 0 <= i < |visited| - 1 ==> f(visited[i], m[visited[i]])
      ensures if stopped then visited != [] && !f(visited[|visited| - 1], m[visited[|visited| - 1]])
              else (forall k :: k in m ==> k in visited && f(k, m[k]))
    {
      visited, stopped := [], false;
      var todo := m.Keys;
      while todo != {}
        invariant todo <= m.Keys
        invariant forall k :: k in m ==> k in todo || (k in visited && f(k, m[k]))
        invariant forall i :: 0 <= i < |visited| ==>
                                visited[i] in m && visited[i] !in todo && f(visited[i], m[visited[i]])
        invariant forall i, j :: 0 <= i < j < |visited| ==> visited[i] != visited[j]
      {
        var k :| k in todo;
        visited := visited + [k];
        if !f(k, m[k]) {
          return visited, true;
        }
        todo := todo - {k};
      }
    }

    static method CopyInto(from: map<K, V>, to: map<K, V>) returns (r: map<K, V>)
      ensures r == to + from
    {
      r := to;
      var todo := from.Keys;
      while todo != {}
        invariant todo <= from.Keys
        invariant r.Keys == to.Keys + (from.Keys - todo)
        invariant forall k :: k in r ==> r[k] == if k in from && k !in todo then from[k] else to[k]
      {
        var k :| k in todo;
        r := r[k := from[k]];
        todo := todo - {k};
      }
    }
  }
}

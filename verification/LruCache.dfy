/** core/collection/cache.go: a keyed cache that evicts the least recently used key. */
module LruCache {
  import opened Options
  import opened Sequences

  type Key = string

  // ---- recency ---------------------------------------------------------------------------------

  function Without(order: seq<Key>, key: Key): (r: seq<Key>) {
    if order == [] then []
    else if order[0] == key then Without(order[1..], key)
    else [order[0]] + Without(order[1..], key)
  }

  /** `order` is most recent first. */
  function Used(order: seq<Key>, key: Key): (r: seq<Key>) {
    [key] + Without(order, key)
  }

  function Kept(order: seq<Key>, limit: nat): (r: seq<Key>) {
    if |order| > limit then order[..limit] else order
  }

  lemma {:induction false} WithoutIs(order: seq<Key>, key: Key)
    ensures forall k :: k in Without(order, key) <==> k in order && k != key
    ensures key !in order ==> Without(order, key) == order
  {
    if order != [] {
      WithoutIs(order[1..], key);
      assert order == [order[0]] + order[1..];
    }
  }

  lemma DistinctCons(key: Key, order: seq<Key>)
    ensures NoDuplicates([key] + order) <==> key !in order && NoDuplicates(order)
  {
    var all := [key] + order;
    if NoDuplicates(all) {
      forall i, j | 0 <= i < j < |order| ensures order[i] != order[j] {
        assert all[i + 1] != all[j + 1];
      }
      forall i | 0 <= i < |order| ensures order[i] != key {
        assert all[i + 1] != all[0];
      }
    }
  }

  lemma {:induction false} WithoutDistinct(order: seq<Key>, key: Key)
    requires NoDuplicates(order)
    ensures NoDuplicates(Without(order, key))
  {
    if order != [] {
      var rest := Without(order[1..], key);
      assert order == [order[0]] + order[1..];
      DistinctCons(order[0], order[1..]);
      WithoutDistinct(order[1..], key);
      WithoutIs(order[1..], key);
      DistinctCons(order[0], rest);
    }
  }

  lemma {:induction false} WithoutLength(order: seq<Key>, key: Key)
    requires NoDuplicates(order)
    ensures |Without(order, key)| == |order| - if key in order then 1 else 0
  {
    if order != [] {
      WithoutIs(order[1..], key);
      WithoutLength(order[1..], key);
    }
  }

  // ---- an abstract cache -----------------------------------------------------------------------

  /** The keys, most recently used first, and their values. */
  datatype Lru<V> = Lru(order: seq<Key>, data: map<Key, V>)

  datatype Op<V> = Set(key: Key, value: V) | Get(key: Key) | Del(key: Key)

  ghost function Restricted<V>(data: map<Key, V>, order: seq<Key>): (r: map<Key, V>) {
    map k | k in data && k in order :: data[k]
  }

  ghost function Step<V>(s: Lru<V>, op: Op<V>, limit: nat): (r: Lru<V>) {
    match op
    case Set(key, value) =>
      var order := Kept(Used(s.order, key), limit);
      Lru(order, Restricted(s.data[key := value], order))
    case Get(key) => if key in s.data then s.(order := Used(s.order, key)) else s
    case Del(key) => Lru(Without(s.order, key), s.data - {key})
  }

  ghost function Run<V>(ops: seq<Op<V>>, limit: nat): (r: Lru<V>) {
    if ops == [] then Lru([], map[]) else Step(Run(ops[..|ops| - 1], limit), ops[|ops| - 1], limit)
  }

  ghost predicate Consistent<V>(s: Lru<V>, limit: nat) {
    NoDuplicates(s.order) && |s.order| <= limit && forall k :: k in s.data <==> k in s.order
  }

  lemma StepConsistent<V>(s: Lru<V>, op: Op<V>, limit: nat)
    requires Consistent(s, limit)
    ensures Consistent(Step(s, op, limit), limit)
  {
    WithoutIs(s.order, op.key);
    WithoutDistinct(s.order, op.key);
    WithoutLength(s.order, op.key);
  }

  /** One more than the number of the last operation that set or got the key, 0 if none did. */
  ghost function LastUse<V>(ops: seq<Op<V>>, key: Key): (n: nat)
    ensures n <= |ops|
  {
    if ops == [] then 0
    else
      var op := ops[|ops| - 1];
      if !op.Del? && op.key == key then |ops| else LastUse(ops[..|ops| - 1], key)
  }

  /** The last value the key was set to. */
  ghost function LastSet<V>(ops: seq<Op<V>>, key: Key): (r: Option<V>) {
    if ops == [] then None
    else
      var op := ops[|ops| - 1];
      if op.Set? && op.key == key then Some(op.value) else LastSet(ops[..|ops| - 1], key)
  }

  ghost predicate ByRecency<V>(order: seq<Key>, ops: seq<Op<V>>) {
    forall i, j :: 0 <= i < j < |order| ==> LastUse(ops, order[j]) < LastUse(ops, order[i])
  }

  lemma {:induction false} WithoutByRecency<V>(order: seq<Key>, key: Key, ops: seq<Op<V>>)
    requires ByRecency(order, ops)
    ensures ByRecency(Without(order, key), ops)
  {
    if order != [] {
      WithoutByRecency(order[1..], key, ops);
      WithoutIs(order[1..], key);
      forall k | k in order[1..] ensures LastUse(ops, k) < LastUse(ops, order[0]) {
        var j :| 0 <= j < |order| - 1 && order[1..][j] == k;
      }
    }
  }

  lemma LastUseStep<V>(ops: seq<Op<V>>, key: Key)
    requires ops != []
    ensures var op, before := ops[|ops| - 1], ops[..|ops| - 1];
            LastUse(ops, key) == if !op.Del? && op.key == key then |ops| else LastUse(before, key)
  {
  }

  ghost predicate SameUses<V>(order: seq<Key>, before: seq<Op<V>>, ops: seq<Op<V>>) {
    forall k :: k in order ==> LastUse(ops, k) == LastUse(before, k)
  }

  lemma SameByRecency<V>(order: seq<Key>, before: seq<Op<V>>, ops: seq<Op<V>>)
    requires ByRecency(order, before) && SameUses(order, before, ops)
    ensures ByRecency(order, ops)
  {
    hide LastUse;
    assert forall i :: 0 <= i < |order| ==> order[i] in order;
  }

  /** Moving the key just used to the front keeps the order of recency. */
  lemma FrontByRecency<V>(order: seq<Key>, key: Key, ops: seq<Op<V>>)
    requires ByRecency(order, ops) && forall k :: k in order ==> LastUse(ops, k) < LastUse(ops, key)
    ensures ByRecency([key] + order, ops)
  {
    hide LastUse;
    assert forall i :: 0 <= i < |order| ==> order[i] in order;
  }

  lemma StepByRecency<V>(ops: seq<Op<V>>, limit: nat)
    requires ops != []
    requires var s := Run(ops[..|ops| - 1], limit); Consistent(s, limit) && ByRecency(s.order, ops[..|ops| - 1])
    ensures ByRecency(Run(ops, limit).order, ops)
  {
    var before, op := ops[..|ops| - 1], ops[|ops| - 1];
    var s := Run(before, limit);
    var order := Without(s.order, op.key);
    WithoutByRecency(s.order, op.key, before);
    WithoutIs(s.order, op.key);
    forall k ensures LastUse(ops, k) == if !op.Del? && op.key == k then |ops| else LastUse(before, k) {
      LastUseStep(ops, k);
    }
    hide Without, LastUse, LastSet, ByRecency, Restricted;
    SameByRecency(order, before, ops);
    if op.Get? && op.key !in s.data {
      SameByRecency(s.order, before, ops);
    } else if !op.Del? {
      FrontByRecency(order, op.key, ops);
      PrefixByRecency([op.key] + order, limit, ops);
    }
  }

  lemma PrefixByRecency<V>(order: seq<Key>, limit: nat, ops: seq<Op<V>>)
    requires ByRecency(order, ops)
    ensures ByRecency(Kept(order, limit), ops)
  {
    hide LastUse;
  }

  /** After any operations the cache is duplicate-free and within its limit, its order is that of the last uses, and
      every key in it has the value it was last set to. */
  lemma {:induction false} RunIsLru<V>(ops: seq<Op<V>>, limit: nat)
    ensures var s := Run(ops, limit);
            Consistent(s, limit) && ByRecency(s.order, ops) &&
            forall k :: k in s.data ==> LastUse(ops, k) > 0 && LastSet(ops, k) == Some(s.data[k])
  {
    if ops != [] {
      var before := ops[..|ops| - 1];
      RunIsLru(before, limit);
      StepConsistent(Run(before, limit), ops[|ops| - 1], limit);
      StepByRecency(ops, limit);
      WithoutIs(Run(before, limit).order, ops[|ops| - 1].key);
    }
  }

  /** A Set evicts only when a new key finds the cache full, and then the key whose last use is longest ago. */
  lemma SetEvictsTheOldest<V>(ops: seq<Op<V>>, limit: nat, key: Key, value: V)
    requires limit > 0
    ensures var s := Run(ops, limit);
            var t := Step(s, Set(key, value), limit);
            if key in s.data || |s.order| < limit then t.data == s.data[key := value]
            else exists oldest :: oldest in s.data && t.data == (s.data - {oldest})[key := value] &&
                                  forall k :: k in s.data && k != oldest ==> LastUse(ops, oldest) < LastUse(ops, k)
  {
    RunIsLru(ops, limit);
    var s := Run(ops, limit);
    SetEvictsTheLast(s, key, value, limit);
    hide Run, LastUse, LastSet, Without, Step, ByRecency;
    if key !in s.data && |s.order| >= limit {
      LastIsOldest(s, ops, limit);
      assert s.order[limit - 1] in s.data;
    }
  }

  /** A key leaves the cache by its own Del, or by the Set of a new key while it is the one used longest ago in a full
      cache, and by nothing else. */
  lemma LeavesOnlyBy<V>(ops: seq<Op<V>>, op: Op<V>, limit: nat, key: Key)
    requires limit > 0 && key in Run(ops, limit).data
    ensures var s := Run(ops, limit);
            (key !in Run(ops + [op], limit).data
             <==> op == Del(key) || (op.Set? && op.key !in s.data && |s.order| >= limit && IsOldest(ops, s, key)))
  {
    var s := Run(ops, limit);
    assert (ops + [op])[..|ops|] == ops;
    match op
    case Set(k, v) => SetEvictsTheOldest(ops, limit, k, v);
    case _ =>
  }

  ghost predicate IsOldest<V>(ops: seq<Op<V>>, s: Lru<V>, key: Key) {
    forall k :: k in s.data && k != key ==> LastUse(ops, key) < LastUse(ops, k)
  }

  lemma LastIsOldest<V>(s: Lru<V>, ops: seq<Op<V>>, limit: nat)
    requires Consistent(s, limit) && ByRecency(s.order, ops) && |s.order| == limit > 0
    ensures forall k :: k in s.data && k != s.order[limit - 1] ==> LastUse(ops, s.order[limit - 1]) < LastUse(ops, k)
  {
    hide LastUse;
    forall k | k in s.data && k != s.order[limit - 1] ensures LastUse(ops, s.order[limit - 1]) < LastUse(ops, k) {
      var i :| 0 <= i < limit && s.order[i] == k;
    }
  }

  lemma SetEvictsTheLast<V>(s: Lru<V>, key: Key, value: V, limit: nat)
    requires limit > 0 && Consistent(s, limit)
    ensures Step(s, Set(key, value), limit).data
         == if key in s.data || |s.order| < limit then s.data[key := value]
            else (s.data - {s.order[limit - 1]})[key := value]
  {
    var order := Kept(Used(s.order, key), limit);
    if key !in s.data && |s.order| >= limit {
      KeptFull(s.order, key, limit);
      assert s.order[limit - 1] in s.order;
      hide Kept, Used, NoDuplicates;
      RestrictedIs(s.data[key := value], order, (s.data - {s.order[limit - 1]})[key := value]);
    } else {
      KeptAll(s.order, key, limit);
      hide Kept, Used, NoDuplicates;
      RestrictedIs(s.data[key := value], order, s.data[key := value]);
    }
  }

  lemma KeptAll(order: seq<Key>, key: Key, limit: nat)
    requires NoDuplicates(order) && |order| <= limit && (key in order || |order| < limit)
    ensures forall k :: k in Kept(Used(order, key), limit) <==> k in order || k == key
  {
    WithoutIs(order, key);
    WithoutLength(order, key);
    hide Without, NoDuplicates;
  }

  lemma KeptFull(order: seq<Key>, key: Key, limit: nat)
    requires NoDuplicates(order) && |order| == limit > 0 && key !in order
    ensures forall k :: k in Kept(Used(order, key), limit) <==> (k in order && k != order[limit - 1]) || k == key
  {
    WithoutIs(order, key);
    AllButLast(order);
    hide Without, NoDuplicates;
    assert Kept(Used(order, key), limit) == [key] + order[..limit - 1];
  }

  lemma RestrictedIs<V>(data: map<Key, V>, order: seq<Key>, target: map<Key, V>)
    requires forall k :: k in target <==> k in data && k in order
    requires forall k :: k in target ==> target[k] == data[k]
    ensures Restricted(data, order) == target
  {
  }

  lemma AllButLast(order: seq<Key>)
    requires order != [] && NoDuplicates(order)
    ensures forall k :: k in order[..|order| - 1] <==> k in order && k != order[|order| - 1]
  {
    assert order == order[..|order| - 1] + [order[|order| - 1]];
  }

  // ---- which keys are in ---------------------------------------------------------------------------

  lemma {:induction false} WithoutPrefix(order: seq<Key>, key: Key, n: nat)
    requires n <= |order|
    ensures Without(order[..n], key) <= Without(order, key)
  {
    if n > 0 {
      WithoutPrefix(order[1..], key, n - 1);
      assert order[..n][1..] == order[1..][..n - 1];
    }
  }

  /** A smaller cache holds the most recent part of a larger one. */
  lemma KeptUsed(order: seq<Key>, key: Key, limit: nat)
    requires NoDuplicates(order) && limit > 0
    ensures Kept(Used(Kept(order, limit), key), limit) == Kept(Used(order, key), limit)
  {
    if |order| > limit {
      WithoutPrefix(order, key, limit);
      WithoutLength(order, key);
      WithoutLength(order[..limit], key);
      assert key in order[..limit] ==> key in order;
      hide Without;
      var a, b := Without(order[..limit], key), Without(order, key);
      assert a == b[..|a|];
      assert ([key] + a)[..limit] == [key] + a[..limit - 1] == [key] + b[..limit - 1] == ([key] + b)[..limit];
    }
  }

  ghost predicate OnlySets<V>(ops: seq<Op<V>>) {
    forall i :: 0 <= i < |ops| ==> ops[i].Set?
  }

  /** After any Sets the cache holds exactly the keys that a cache without eviction would have used last, as many
      as the limit allows. */
  lemma {:induction false} SetsKeepTheMostRecent<V>(ops: seq<Op<V>>, limit: nat, unbounded: nat)
    requires OnlySets(ops) && 0 < limit && |ops| <= unbounded
    ensures Run(ops, limit).order == Kept(Run(ops, unbounded).order, limit)
    ensures |Run(ops, unbounded).order| <= |ops|
    ensures forall k :: k in Run(ops, unbounded).order <==> LastUse(ops, k) > 0
  {
    if ops != [] {
      var before, op := ops[..|ops| - 1], ops[|ops| - 1];
      SetsKeepTheMostRecent(before, limit, unbounded);
      var full := Run(before, unbounded);
      RunIsLru(before, unbounded);
      KeptUsed(full.order, op.key, limit);
      WithoutIs(full.order, op.key);
      WithoutLength(full.order, op.key);
      forall k ensures LastUse(ops, k) == if op.key == k then |ops| else LastUse(before, k) {
        LastUseStep(ops, k);
      }
      hide Without, LastUse, LastSet, ByRecency, Restricted;
    }
  }

  // ---- the program -----------------------------------------------------------------------------

  lemma {:induction false} WithoutLast(order: seq<Key>)
    requires order != [] && NoDuplicates(order)
    ensures Without(order, order[|order| - 1]) == order[..|order| - 1]
  {
    var rest := order[1..];
    if rest != [] {
      WithoutLast(rest);
      assert order[..|order| - 1] == [order[0]] + rest[..|rest| - 1];
    }
  }

  class KeyLru<V> {
    const limit: nat
    const onEvict: Cache<V>         // whose onEvict is called
    var evicts: seq<Key>            // the list from front to back
    var elements: set<Key>          // the keys that have an element in it

    ghost predicate Linked()
      reads this
    {
      NoDuplicates(evicts) && forall k :: k in elements <==> k in evicts
    }

    constructor (limit: nat, onEvict: Cache<V>)
      ensures Linked() && this.limit == limit && this.onEvict == onEvict && evicts == []
    {
      this.limit, this.onEvict, evicts, elements := limit, onEvict, [], {};
    }

    method Add(key: Key)
      requires Linked() && |evicts| <= limit && limit > 0
      modifies this`evicts, this`elements, onEvict`data
      ensures Linked() && evicts == Kept(Used(old(evicts), key), limit)
      ensures onEvict.data == if key in old(evicts) || |old(evicts)| < limit then old(onEvict.data)
                              else old(onEvict.data) - {old(evicts)[limit - 1]}
    {
      WithoutIs(evicts, key);
      WithoutDistinct(evicts, key);
      WithoutLength(evicts, key);
      DistinctCons(key, Without(evicts, key));
      if key in elements {
        evicts := [key] + Without(evicts, key);
        return;
      }
      evicts := [key] + evicts;
      elements := elements + {key};
      if |evicts| > limit {
        RemoveOldest();
      }
    }

    method Remove(key: Key)
      requires Linked()
      modifies this`evicts, this`elements, onEvict`data
      ensures Linked() && evicts == Without(old(evicts), key)
      ensures onEvict.data == if key in old(evicts) then old(onEvict.data) - {key} else old(onEvict.data)
    {
      WithoutIs(evicts, key);
      if key in elements {
        RemoveElement(key);
      }
    }

    method RemoveOldest()
      requires Linked()
      modifies this`evicts, this`elements, onEvict`data
      ensures Linked()
      ensures old(evicts) == [] ==> evicts == [] && onEvict.data == old(onEvict.data)
      ensures old(evicts) != [] ==>
                var n := |old(evicts)| - 1;
                evicts == old(evicts)[..n] && onEvict.data == old(onEvict.data) - {old(evicts)[n]}
    {
      if |evicts| > 0 {
        WithoutLast(evicts);
        RemoveElement(evicts[|evicts| - 1]);
      }
    }

    method RemoveElement(key: Key)
      requires Linked() && key in elements
      modifies this`evicts, this`elements, onEvict`data
      ensures Linked() && evicts == Without(old(evicts), key) && onEvict.data == old(onEvict.data) - {key}
    {
      WithoutIs(evicts, key);
      WithoutDistinct(evicts, key);
      evicts := Without(evicts, key);
      elements := elements - {key};
      onEvict.OnEvict(key);
    }
  }

  class Cache<V> {
    var data: map<Key, V>
    var lruCache: KeyLru?<V>        // null stands for the cache without a limit

    ghost predicate Valid()
      reads this, lruCache
    {
      lruCache != null ==>
        lruCache.onEvict == this && lruCache.Linked() && Consistent(Abstract(), lruCache.limit) && lruCache.limit > 0
    }

    ghost function Abstract(): (r: Lru<V>)
      reads this, lruCache
      requires lruCache != null
    {
      Lru(lruCache.evicts, data)
    }

    constructor ()
      ensures Valid() && lruCache == null && data == map[]
    {
      data, lruCache := map[], null;
    }

    constructor WithLimit(limit: int)
      ensures Valid() && data == map[] && (lruCache != null <==> limit > 0)
      ensures limit > 0 ==> fresh(lruCache) && lruCache.limit == limit && Abstract() == Run<V>([], limit)
    {
      data, lruCache := map[], null;
      new;
      if limit > 0 {
        lruCache := new KeyLru(limit, this);
      }
    }

    /** Without a limit a plain map; with one a step of the abstract cache. */
    method SetWithExpire(key: Key, value: V)
      requires Valid()
      modifies this`data, lruCache
      ensures Valid()
      ensures lruCache == null ==> data == old(data)[key := value]
      ensures lruCache != null ==> Abstract() == Step(old(Abstract()), Set(key, value), lruCache.limit)
    {
      data := data[key := value];
      if lruCache != null {
        ghost var s := old(Abstract());
        StepConsistent(s, Set(key, value), lruCache.limit);
        SetEvictsTheLast(s, key, value, lruCache.limit);
        lruCache.Add(key);
      }
    }

    method DoGet(key: Key) returns (value: Option<V>)
      requires Valid()
      modifies this`data, lruCache
      ensures Valid() && data == old(data)
      ensures value == if key in data then Some(data[key]) else None
      ensures lruCache != null ==> Abstract() == Step(old(Abstract()), Get(key), lruCache.limit)
    {
      if key !in data {
        return None;
      }
      value := Some(data[key]);
      if lruCache != null {
        StepConsistent(Abstract(), Get(key), lruCache.limit);
        lruCache.Add(key);
      }
    }

    method Del(key: Key)
      requires Valid()
      modifies this`data, lruCache
      ensures Valid() && data == old(data) - {key}
      ensures lruCache != null ==> Abstract() == Step(old(Abstract()), Op.Del(key), lruCache.limit)
    {
      data := data - {key};
      if lruCache != null {
        StepConsistent(old(Abstract()), Op.Del(key), lruCache.limit);
        lruCache.Remove(key);
      }
    }

    method OnEvict(key: Key)
      modifies this`data
      ensures data == old(data) - {key}
    {
      data := data - {key};
    }
  }
}

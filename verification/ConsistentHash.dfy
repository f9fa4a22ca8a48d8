/** core/hash/consistenthash.go: sorted keys, a ring map and a node set, updated in place. */
module ConsistentHashes {
  import opened Arithmetic
  import opened Options
  import opened ConsistentHashSpec
  import opened Sorting

  const TOP_WEIGHT: int := 100
  const MIN_REPLICAS: nat := 100

  /** What Get does: it answers, or the program stops with a division by zero. */
  datatype Lookup<T> = Answer(node: Option<T>) | DivisionByZero

  class ConsistentHash<T(!new)> {
    const c: Config<T>
    var keys: seq<Hash>
    var ring: map<Hash, seq<T>>
    var nodes: set<string>

    ghost var members: seq<Member<T>>

    constructor (hash: string -> Hash, repr: T -> string, innerRepr: T -> string, replicas: int)
      ensures Valid() && members == []
      ensures c == Config(hash, repr, innerRepr, if replicas < MIN_REPLICAS then MIN_REPLICAS else replicas)
    {
      c := Config(hash, repr, innerRepr, if replicas < MIN_REPLICAS then MIN_REPLICAS else replicas);
      keys, ring, nodes := [], map[], {};
      members := [];
    }

    /** The three fields are what the member list determines. */
    ghost predicate Valid()
      reads this
    {
      Consistent() && KeysOk(c, members, keys)
    }

    /** In every state that calls lead to one after the other, also after a Remove that took keys of other nodes: the
        members have different names, and no key is left over. */
    ghost predicate Consistent()
      reads this
    {
      Loose() && MembersOk(c, members) && KeysWithin(c, members, keys)
    }

    /** In every state, also when calls overlap. */
    ghost predicate Loose()
      reads this
    {
      CountsOk(c, members) && RingOk(c, members, ring) && NodesOk(c, members, nodes) && Sorted(keys)
    }

    /** The node with its latest number of points comes last; every other node stays. The keys stay right if and
        only if the removal of the node's earlier points took no key of another node. Other calls can come between
        the two halves, which take the lock separately; their own contracts say what comes of that. */
    method AddWithReplicas(node: T, replicas: int)
      requires Loose()
      modifies this
      ensures Loose() && (old(Consistent()) ==> Consistent())
      ensures members == Others(c, old(members), c.repr(node)) + [Member(node, PointCount(replicas))]
      ensures var count := members[|members| - 1].count;
              && (0 <= replicas <= c.replicas ==> count == replicas)
              && (replicas > c.replicas ==> count == c.replicas) && (replicas < 0 ==> count == 0)
      ensures exists removed: seq<Hash> ::
                && KeysTaken(c, HasName(c, old(members), c.repr(node)), c.repr(node), old(keys), removed)
                && KeysPlus(c, c.repr(node), PointCount(replicas), removed, keys)
      ensures old(Valid()) ==>
                (Valid() <==> !HasName(c, old(members), c.repr(node)) || !Stray(c, old(members), c.repr(node)))
    {
      hide Sorted, KeysOk, KeysWithin, RingOk, NodesOk, MembersOk, CountsOk, Others, HasName, Stray, KeysPlus,
        KeysTaken;
      OthersNames(c, members, c.repr(node));
      Remove(node);
      AddPoints(node, replicas);
    }

    /** The second half of AddWithReplicas. The members stay different if and only if the node is not in when it begins,
        that is if no other call has added it after the first half. */
    method AddPoints(node: T, replicas: int)
      requires Loose()
      modifies this
      ensures Loose()
      ensures members == old(members) + [Member(node, PointCount(replicas))]
      ensures var count := members[|members| - 1].count;
              && (0 <= replicas <= c.replicas ==> count == replicas)
              && (replicas > c.replicas ==> count == c.replicas) && (replicas < 0 ==> count == 0)
      ensures KeysPlus(c, c.repr(node), PointCount(replicas), old(keys), keys)
      ensures old(Consistent()) ==> (Consistent() <==> !HasName(c, old(members), c.repr(node)))
      ensures !HasName(c, old(members), c.repr(node)) && old(Consistent()) ==> (Valid() <==> old(Valid()))
    {
      hide Sorted, KeysOk, KeysWithin, RingOk, NodesOk, MembersOk, CountsOk, Others, HasName, Stray, KeysPlus,
        KeysTaken;
      var r := if replicas > c.replicas then c.replicas else replicas;
      var nodeRepr := c.repr(node);
      ghost var before, removed := members, keys;
      EmptyMember(c, before, node, ring, nodes);
      nodes := nodes + {nodeRepr};
      members := before + [Member(node, 0)];
      KeysPlusStarts(c, nodeRepr, removed);
      var i := 0;
      while i < r
        invariant 0 <= i && (i <= r || i == 0)
        invariant members == before + [Member(node, i)]
        invariant RingOk(c, members, ring) && NodesOk(c, members, nodes)
        invariant KeysPlus(c, nodeRepr, i, removed, keys)
      {
        var hash := c.hash(nodeRepr + Itoa(i));
        KeyAppended(c, nodeRepr, i, removed, keys);
        keys := keys + [hash];
        MorePoints(c, before, node, i, ring);
        SameNames(c, before, node, i, i + 1, nodes);
        ring := ring[hash := (if hash in ring then ring[hash] else []) + [node]];
        members := before + [Member(node, i + 1)];
        i := i + 1;
      }
      DistinctAppended(c, before, Member(node, i));
      ghost var unsorted := keys;
      keys := Sort(AtMost, keys);
      KeysPlusEnds(c, before, Member(node, i), removed, unsorted, keys);
    }

    function PointCount(replicas: int): (r: nat) {
      if replicas > c.replicas then c.replicas else if replicas < 0 then 0 else replicas
    }

    /** Takes the node out, with one key for each of all replica indices. */
    method Remove(node: T)
      requires Loose()
      modifies this
      ensures Loose() && (old(Consistent()) ==> Consistent())
      ensures members == Others(c, old(members), c.repr(node))
      ensures KeysTaken(c, HasName(c, old(members), c.repr(node)), c.repr(node), old(keys), keys)
      ensures old(Valid()) ==>
                (Valid() <==> !HasName(c, old(members), c.repr(node)) || !Stray(c, old(members), c.repr(node)))
      ensures old(Valid() && AllFull(c, members)) ==> Valid() && AllFull(c, members)
    {
      hide Sorted, KeysOk, KeysWithin, RingOk, NodesOk, MembersOk, CountsOk, Others, HasName, Stray, Total, Hits,
        KeysWhile, RingWhileOk, RingWithout;
      var nodeRepr := c.repr(node);
      if MembersOk(c, members) {
        FullStaysFull(c, members, node);
      }
      NodeGone(c, members, nodeRepr, nodes);
      NamesAre(c, members, nodes, nodeRepr);
      if nodeRepr !in nodes {
        return;
      }
      KeysWhileStarts(c, nodeRepr, keys);
      RingWhileStarts(c, members, nodeRepr, ring);
      for i := 0 to c.replicas
        invariant members == old(members) && nodes == old(nodes)
        invariant KeysWhile(c, nodeRepr, i, old(keys), keys) && RingWhileOk(c, members, nodeRepr, i, ring)
      {
        var hash := c.hash(nodeRepr + Itoa(i));
        KeysAreSorted(c, nodeRepr, i, old(keys), keys);
        var index := Search(hash);
        KeyRemoved(c, nodeRepr, i, old(keys), keys, index);
        if index < |keys| && keys[index] == hash {
          keys := keys[..index] + keys[index + 1..];
        }
        RemovesOne(c, members, nodeRepr, i, ring);
        RemoveRingNode(hash, nodeRepr);
      }
      KeysAreSorted(c, nodeRepr, c.replicas, old(keys), keys);
      RemovesAll(c, members, nodeRepr, ring);
      if old(Consistent()) {
        KeysWhileEnds(c, members, nodeRepr, old(keys), keys);
      }
      nodes := nodes - {nodeRepr};
      members := Others(c, members, nodeRepr);
    }

    /** The first index whose key is at least hash. */
    method Search(hash: Hash) returns (index: nat)
      requires Sorted(keys)
      ensures index <= |keys|
      ensures forall j :: 0 <= j < index ==> keys[j] < hash
      ensures forall j :: index <= j < |keys| ==> keys[j] >= hash
    {
      var lo, hi := 0, |keys|;
      while lo < hi
        invariant 0 <= lo <= hi <= |keys|
        invariant forall j :: 0 <= j < lo ==> keys[j] < hash
        invariant forall j :: hi <= j < |keys| ==> keys[j] >= hash
      {
        var mid := (lo + hi) / 2;
        if keys[mid] >= hash {
          hi := mid;
        } else {
          lo := mid + 1;
        }
      }
      index := lo;
    }

    method RemoveRingNode(hash: Hash, nodeRepr: string)
      modifies this`ring
      ensures ring == RingWithout(c, old(ring), hash, nodeRepr)
    {
      if hash in ring {
        var list := ring[hash];
        var newNodes: seq<T> := [];
        for i := 0 to |list|
          invariant ring == old(ring)
          invariant newNodes == NotNamed(c, list[..i], nodeRepr)
        {
          NotNamedAppend(c, list[..i], [list[i]], nodeRepr);
          assert list[..i + 1] == list[..i] + [list[i]] && [list[i]][1..] == [];
          if c.repr(list[i]) != nodeRepr {
            newNodes := newNodes + [list[i]];
          }
        }
        assert list[..|list|] == list;
        if |newNodes| > 0 {
          ring := ring[hash := newNodes];
        } else {
          ring := ring - {hash};
        }
      }
    }

    /** The node of the first point at or after the hash of v, around the ring. It takes a remainder by zero if and
        only if there are nodes but no keys, which cannot be while the keys are right. */
    method Get(v: T) returns (r: Lookup<T>)
      requires Loose()
      ensures r.DivisionByZero? <==> ring != map[] && keys == []
      ensures ring == map[] ==> r == Answer(None)
      ensures ring != map[] && keys != [] ==> r.Answer? && Responds(c, members, keys, v, r.node)
      ensures Valid() ==> r.Answer? && Answers(c, members, v, r.node)
    {
      hide RingOk, KeysWithin, NodesOk, MembersOk, CountsOk, IsKeySuccessor, KeysOk, Answers, Responds;
      var hash := c.hash(c.repr(v));
      if |ring| == 0 {
        NoAnswer(c, members, keys, ring, v);
        return Answer(None);
      }
      var at := Search(hash);
      if |keys| == 0 {
        if KeysOk(c, members, keys) {
          KeysAndRing(c, members, keys, ring);
        }
        return DivisionByZero;
      }
      var index := at % |keys|;
      IndexIsSuccessor(keys, hash, at);
      RingListIs(c, members, ring, keys[index]);
      SuccessorAnswers(c, members, keys, ring, v, keys[index]);
      var found := if keys[index] in ring then ring[keys[index]] else [];
      if |found| == 0 {
        return Answer(None);
      } else if |found| == 1 {
        return Answer(Some(found[0]));
      }
      var innerIndex := c.hash(c.innerRepr(v));
      r := Answer(Some(found[innerIndex % |found|]));
    }

    /** Adds the node with all replicas; rings of full replicas stay so and right, whatever the hash function. */
    method Add(node: T)
      requires Loose()
      modifies this
      ensures Loose() && (old(Consistent()) ==> Consistent())
      ensures members == Others(c, old(members), c.repr(node)) + [Member(node, c.replicas)]
      ensures old(Valid() && AllFull(c, members)) ==> Valid() && AllFull(c, members)
    {
      hide MembersOk, CountsOk, RingOk, NodesOk, KeysWithin, KeysOk, Stray, HasName, Others, KeysTaken, KeysPlus;
      if MembersOk(c, members) {
        FullStaysFull(c, members, node);
      }
      AddWithReplicas(node, c.replicas);
    }

    /** Adds the node with as many hundredths of all replicas as the weight says, rounded down. */
    method AddWithWeight(node: T, weight: int)
      requires Loose()
      modifies this
      ensures Loose() && (old(Consistent()) ==> Consistent())
      ensures members != [] && members == Others(c, old(members), c.repr(node)) + [members[|members| - 1]]
      ensures members[|members| - 1].node == node
      ensures var count := members[|members| - 1].count;
              && (0 <= weight <= 100 ==> 100 * count <= c.replicas * weight < 100 * (count + 1))
              && (weight > 100 ==> count == c.replicas) && (weight < 0 ==> count == 0)
    {
      Share(weight);
      AddWithReplicas(node, c.replicas * weight / TOP_WEIGHT);
    }

    lemma Share(weight: int)
      ensures 0 <= weight <= 100 ==> 0 <= c.replicas * weight / TOP_WEIGHT <= c.replicas
      ensures weight > 100 ==> c.replicas * weight / TOP_WEIGHT >= c.replicas
      ensures weight < 0 ==> c.replicas * weight / TOP_WEIGHT <= 0
    {
      if 0 <= weight <= 100 {
        ProductGrows(weight, 100, c.replicas);
      } else if weight > 100 {
        ProductGrows(100, weight, c.replicas);
      } else {
        ProductGrows(0, -weight, c.replicas);
      }
      assert c.replicas * weight == weight * c.replicas;
    }
  }

  /** Adding a new node and removing it again gives back nodes and ring; and the keys too if it had all replicas, or
      else if they were right, exactly if it has no stray index. */
  method AddAndRemove<T(!new)>(h: ConsistentHash<T>, node: T, replicas: int)
    requires h.Consistent() && !HasName(h.c, h.members, h.c.repr(node))
    modifies h
    ensures h.Consistent() && h.members == old(h.members) && h.ring == old(h.ring) && h.nodes == old(h.nodes)
    ensures h.PointCount(replicas) == h.c.replicas ==> h.keys == old(h.keys)
    ensures old(h.Valid()) ==>
              var m := Member(node, h.PointCount(replicas));
              (h.keys == old(h.keys) <==> !Stray(h.c, old(h.members) + [m], h.c.repr(node)))
  {
    hide MembersOk, RingOk, NodesOk, KeysWithin, KeysOk, Stray, HasName, Others, KeysTaken, KeysPlus;
    ghost var m := Member(node, h.PointCount(replicas));
    WithinIsSorted(h.c, h.members, h.keys);
    NotThere(h.c, h.members, m);
    AddThenRemove(h.c, h.members, m);
    h.AddWithReplicas(node, replicas);
    ghost var more := h.keys;
    h.Remove(node);
    if h.PointCount(replicas) == h.c.replicas {
      NothingTaken(h.c, h.c.repr(node), h.c.replicas, old(h.keys), more);
      TakenBack(h.c, h.c.repr(node), old(h.keys), more, h.keys);
    }
    StateIsDetermined(h.c, h.members, h.keys, h.ring, h.nodes, old(h.keys), old(h.ring), old(h.nodes));
  }

  /** On a ring of two nodes of one replica each whose only hashes collide, removing one of them leaves the other
      without a key, and the next Get divides by zero. */
  method GetCanDivideByZero() returns (r: Lookup<string>)
    ensures r.DivisionByZero?
  {
    hide MembersOk, RingOk, NodesOk, KeysWithin, KeysOk, Stray, HasName, Others, KeysTaken, KeysPlus, Hits, RingAt,
      Collide;
    var h := new ConsistentHash<string>(Collide, s => s, s => s, MIN_REPLICAS);
    CollidingMembers(h.c);
    NoKeys(h.c, h.members, h.keys);
    h.AddWithReplicas("a", 1);
    OneMoreKey(h.c, "a", [], h.keys, 0);
    ghost var a, b, first := Member("a", 1), Member("b", 1), h.keys;
    assert h.members == [a];
    h.AddWithReplicas("b", 1);
    OneMoreKey(h.c, "b", first, h.keys, 1);
    ghost var second := h.keys;
    assert h.members == [a, b];
    h.Remove("a");
    AllKeysTaken(h.c, "a", second, h.keys);
    RingNotEmpty(h.c, h.members, h.ring, 0);
    r := h.Get("c");
  }

  /** Two overlapping calls that add the same new node: both have removed it before either adds it. It is in twice then,
      Remove leaves half of its keys, and Get answers that there is nothing on a ring that has a node. */
  method OverlappingAdds() returns (h: ConsistentHash<string>, r: Lookup<string>)
    ensures fresh(h) && h.Loose() && !h.Consistent() && h.ring != map[] && r == Answer(None)
  {
    hide MembersOk, CountsOk, RingOk, NodesOk, KeysWithin, KeysOk, Stray, HasName, Others, KeysTaken, KeysPlus, Hits;
    hide RingAt, ByInitial, IsKeySuccessor, OnesAndTwos, Sorted;
    h := new ConsistentHash<string>(ByInitial, s => s, s => s, MIN_REPLICAS);
    TwiceMembers(h.c);
    NothingOfOneOrTwo();
    NoKeys(h.c, h.members, h.keys);
    ghost var b, n := Member("b", 1), Member("n", MIN_REPLICAS);
    h.AddWithReplicas("b", 1);
    NothingTaken(h.c, "b", 1, [], h.keys);
    MoreByInitial(h.c, "b", 1, [], h.keys, 0, 0);
    assert h.members == [b];
    ghost var start := h.keys;
    h.Remove("n");
    NotTaken(h.c, "n", start, h.keys);
    h.Remove("n");
    NotTaken(h.c, "n", start, h.keys);
    ghost var before := h.keys;
    h.AddPoints("n", MIN_REPLICAS);
    MoreByInitial(h.c, "n", MIN_REPLICAS, before, h.keys, 0, 1);
    ghost var once := h.keys;
    h.AddPoints("n", MIN_REPLICAS);
    MoreByInitial(h.c, "n", MIN_REPLICAS, once, h.keys, MIN_REPLICAS, 1);
    assert h.members == [b, n, n];
    ghost var twice := h.keys;
    h.Remove("n");
    LessByInitial(h.c, twice, h.keys, 2 * MIN_REPLICAS, 1);
    OnesAreLeft(h.c, h.keys, MIN_REPLICAS, 1);
    RingNotEmpty(h.c, h.members, h.ring, 2);
    r := h.Get("nx");
    ghost var x: Hash :| IsKeySuccessor(h.keys, 1, x) && r.node == Picked(h.c, RingAt(h.c, h.members, x), "nx");
    FirstIsOne(h.keys, x, MIN_REPLICAS, 1);
  }
}

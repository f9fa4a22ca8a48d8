/** What a consistent hash ring of core/hash/consistenthash.go stands for: a list of nodes with a number of
    points each, and what that list determines. */
module ConsistentHashSpec {
  import opened Options
  import opened Sorting

  /** uint64 in the source; only compared and reduced modulo a length. */
  type Hash = nat

  function Itoa(n: nat): (r: string) {
    if n < 10 then [DIGITS[n]] else Itoa(n / 10) + [DIGITS[n % 10]]
  }

  const DIGITS: string := "0123456789"

  /** The number that a string of decimal digits stands for. */
  ghost function Number(s: string): (n: int) {
    if s == "" then 0 else 10 * Number(s[..|s| - 1]) + (s[|s| - 1] as int - '0' as int)
  }

  /** It writes a number in decimal digits, without leading zeros. */
  lemma {:induction false} ItoaIsDecimal(n: nat)
    ensures Number(Itoa(n)) == n
    ensures forall i :: 0 <= i < |Itoa(n)| ==> '0' <= Itoa(n)[i] <= '9'
    ensures Itoa(n) != "" && (Itoa(n)[0] == '0' ==> n == 0)
  {
    assert forall d :: 0 <= d < 10 ==> DIGITS[d] as int == '0' as int + d;
    if n < 10 {
      assert Itoa(n)[..0] == "";
    } else {
      ItoaIsDecimal(n / 10);
      assert Itoa(n)[..|Itoa(n)| - 1] == Itoa(n / 10);
    }
  }

  /** So the replicas of a node are hashed from different strings. */
  lemma ReplicasDiffer(name: string, i: nat, j: nat)
    requires name + Itoa(i) == name + Itoa(j)
    ensures i == j
  {
    assert (name + Itoa(i))[|name|..] == Itoa(i) && (name + Itoa(j))[|name|..] == Itoa(j);
    ItoaIsDecimal(i);
    ItoaIsDecimal(j);
  }

  /** The user's hash function and the library's formatting of values, which stay uninterpreted. */
  datatype Config<!T(!new)> = Config(hash: string -> Hash, repr: T -> string, innerRepr: T -> string, replicas: nat)

  /** A node of the ring and how many points it has. */
  datatype Member<T> = Member(node: T, count: nat)

  function Point<T(!new)>(c: Config<T>, name: string, i: nat): (r: Hash) {
    c.hash(name + Itoa(i))
  }

  /** How many of the first k points of a node are at x. */
  ghost function Hits<T(!new)>(c: Config<T>, name: string, k: nat, x: Hash): (r: nat) {
    if k == 0 then 0 else Hits(c, name, k - 1, x) + (if Point(c, name, k - 1) == x then 1 else 0)
  }

  /** How many points of the ring are at x. */
  ghost function Total<T(!new)>(c: Config<T>, members: seq<Member<T>>, x: Hash): (r: nat) {
    if members == [] then 0
    else Hits(c, c.repr(members[0].node), members[0].count, x) + Total(c, members[1..], x)
  }

  ghost function Repeat<T>(x: T, n: nat): (r: seq<T>)
    ensures |r| == n && forall i :: 0 <= i < n ==> r[i] == x
  {
    if n == 0 then [] else Repeat(x, n - 1) + [x]
  }

  /** The nodes that have a point at x, in the order they were added. */
  ghost function RingAt<T(!new)>(c: Config<T>, members: seq<Member<T>>, x: Hash): (r: seq<T>) {
    if members == [] then []
    else Repeat(members[0].node, Hits(c, c.repr(members[0].node), members[0].count, x)) + RingAt(c, members[1..], x)
  }

  ghost predicate MembersOk<T(!new)>(c: Config<T>, members: seq<Member<T>>) {
    && (forall i, j :: 0 <= i < j < |members| ==> c.repr(members[i].node) != c.repr(members[j].node))
    && CountsOk(c, members)
  }

  ghost predicate CountsOk<T(!new)>(c: Config<T>, members: seq<Member<T>>) {
    forall i :: 0 <= i < |members| ==> members[i].count <= c.replicas
  }

  ghost predicate HasName<T(!new)>(c: Config<T>, members: seq<Member<T>>, name: string) {
    exists i :: 0 <= i < |members| && c.repr(members[i].node) == name
  }

  ghost function Others<T(!new)>(c: Config<T>, members: seq<Member<T>>, name: string): (r: seq<Member<T>>) {
    if members == [] then []
    else if c.repr(members[0].node) == name then Others(c, members[1..], name)
    else [members[0]] + Others(c, members[1..], name)
  }

  /** The number of points of the named node, 0 if it is not there. */
  ghost function CountOf<T(!new)>(c: Config<T>, members: seq<Member<T>>, name: string): (r: nat) {
    if members == [] then 0
    else (if c.repr(members[0].node) == name then members[0].count else 0) + CountOf(c, members[1..], name)
  }

  ghost function NotNamed<T(!new)>(c: Config<T>, nodes: seq<T>, name: string): (r: seq<T>) {
    if nodes == [] then []
    else (if c.repr(nodes[0]) == name then [] else [nodes[0]]) + NotNamed(c, nodes[1..], name)
  }

  // ---- what the class fields have to be --------------------------------------------------------

  ghost predicate Sorted(keys: seq<Hash>) {
    forall i, j :: 0 <= i < j < |keys| ==> keys[i] <= keys[j]
  }

  ghost predicate KeysOk<T(!new)>(c: Config<T>, members: seq<Member<T>>, keys: seq<Hash>) {
    Sorted(keys) && forall x: Hash :: multiset(keys)[x] == Total(c, members, x)
  }

  /** No key that the members do not have. */
  ghost predicate KeysWithin<T(!new)>(c: Config<T>, members: seq<Member<T>>, keys: seq<Hash>) {
    Sorted(keys) && forall x: Hash :: multiset(keys)[x] <= Total(c, members, x)
  }

  ghost predicate RingOk<T(!new)>(c: Config<T>, members: seq<Member<T>>, ring: map<Hash, seq<T>>) {
    && (forall x :: x in ring ==> ring[x] != [] && ring[x] == RingAt(c, members, x))
    && (forall x: Hash :: RingAt(c, members, x) != [] ==> x in ring)
  }

  ghost predicate NodesOk<T(!new)>(c: Config<T>, members: seq<Member<T>>, nodes: set<string>) {
    forall name :: name in nodes <==> HasName(c, members, name)
  }

  /** For every hash the ring lists as many nodes as the keys have copies. */
  lemma {:induction false} RingLengths<T(!new)>(c: Config<T>, members: seq<Member<T>>, x: Hash)
    ensures |RingAt(c, members, x)| == Total(c, members, x)
  {
    if members != [] {
      RingLengths(c, members[1..], x);
    }
  }

  lemma LeastIsFirst(a: seq<Hash>, x: Hash)
    requires Sorted(a) && x in multiset(a)
    ensures a != [] && a[0] <= x
  {
    var i :| 0 <= i < |a| && a[i] == x;
  }

  lemma SameTails(a: seq<Hash>, b: seq<Hash>)
    requires a != [] && b != [] && a[0] == b[0] && multiset(a) == multiset(b)
    ensures multiset(a[1..]) == multiset(b[1..])
  {
    assert a == [a[0]] + a[1..] && b == [b[0]] + b[1..];
    assert multiset(a[1..]) == multiset(a) - multiset{a[0]};
    assert multiset(b[1..]) == multiset(b) - multiset{b[0]};
  }

  lemma {:induction false} SortedUnique(a: seq<Hash>, b: seq<Hash>)
    requires Sorted(a) && Sorted(b) && multiset(a) == multiset(b)
    ensures a == b
  {
    if b != [] {
      LeastIsFirst(a, b[0]);
    }
    if a != [] {
      LeastIsFirst(b, a[0]);
      SameTails(a, b);
      SortedUnique(a[1..], b[1..]);
      assert a == [a[0]] + a[1..] && b == [b[0]] + b[1..];
    }
  }

  /** The member list determines keys, ring and nodes. */
  lemma StateIsDetermined<T(!new)>(c: Config<T>, members: seq<Member<T>>,
                                   keys: seq<Hash>, ring: map<Hash, seq<T>>, nodes: set<string>,
                                   keys': seq<Hash>, ring': map<Hash, seq<T>>, nodes': set<string>)
    requires RingOk(c, members, ring) && NodesOk(c, members, nodes)
    requires RingOk(c, members, ring') && NodesOk(c, members, nodes')
    ensures ring == ring' && nodes == nodes'
    ensures KeysOk(c, members, keys) && KeysOk(c, members, keys') ==> keys == keys'
  {
    if KeysOk(c, members, keys) && KeysOk(c, members, keys') {
      assert forall x: Hash :: multiset(keys)[x] == multiset(keys')[x];
      SortedUnique(keys, keys');
    }
  }

  // ---- adding and removing members ---------------------------------------------------------------

  lemma {:induction false} AppendedTotal<T(!new)>(c: Config<T>, members: seq<Member<T>>, m: Member<T>, x: Hash)
    ensures Total(c, members + [m], x) == Total(c, members, x) + Hits(c, c.repr(m.node), m.count, x)
  {
    if members == [] {
      assert (members + [m])[1..] == [];
    } else {
      assert (members + [m])[1..] == members[1..] + [m];
      AppendedTotal(c, members[1..], m, x);
    }
  }

  lemma {:induction false} AppendedRing<T(!new)>(c: Config<T>, members: seq<Member<T>>, m: Member<T>, x: Hash)
    ensures RingAt(c, members + [m], x) == RingAt(c, members, x) + Repeat(m.node, Hits(c, c.repr(m.node), m.count, x))
  {
    if members == [] {
      assert (members + [m])[1..] == [];
    } else {
      assert (members + [m])[1..] == members[1..] + [m];
      AppendedRing(c, members[1..], m, x);
    }
  }

  lemma HasNameSplit<T(!new)>(c: Config<T>, members: seq<Member<T>>, name: string)
    requires members != []
    ensures HasName(c, members, name) <==> c.repr(members[0].node) == name || HasName(c, members[1..], name)
  {
    if HasName(c, members[1..], name) {
      var i :| 0 <= i < |members[1..]| && c.repr(members[1..][i].node) == name;
      assert c.repr(members[i + 1].node) == name;
    }
    if HasName(c, members, name) && c.repr(members[0].node) != name {
      var i :| 0 <= i < |members| && c.repr(members[i].node) == name;
      assert c.repr(members[1..][i - 1].node) == name;
    }
  }

  lemma DistinctSplit<T(!new)>(c: Config<T>, members: seq<Member<T>>)
    requires members != []
    ensures MembersOk(c, members)
       <==> (MembersOk(c, members[1..]) && members[0].count <= c.replicas
             && !HasName(c, members[1..], c.repr(members[0].node)))
  {
    var rest := members[1..];
    assert forall i :: 0 <= i < |rest| ==> rest[i] == members[i + 1];
    assert forall i :: 0 < i < |members| ==> members[i] == rest[i - 1];
  }

  lemma {:induction false} WithoutTotal<T(!new)>(c: Config<T>, members: seq<Member<T>>, name: string, x: Hash)
    requires MembersOk(c, members)
    ensures Total(c, members, x) == Total(c, Others(c, members, name), x) + Hits(c, name, CountOf(c, members, name), x)
    ensures CountOf(c, members, name) <= c.replicas
    ensures !HasName(c, members, name) ==> CountOf(c, members, name) == 0 && Others(c, members, name) == members
  {
    hide MembersOk, HasName;
    if members != [] {
      DistinctSplit(c, members);
      HasNameSplit(c, members, name);
      WithoutTotal(c, members[1..], name, x);
      if c.repr(members[0].node) != name {
        var others := [members[0]] + Others(c, members[1..], name);
        assert others[1..] == Others(c, members[1..], name);
      }
    }
  }

  lemma {:induction false} WithoutKeepsDistinct<T(!new)>(c: Config<T>, members: seq<Member<T>>, name: string)
    requires MembersOk(c, members)
    ensures MembersOk(c, Others(c, members, name))
    ensures forall other :: HasName(c, Others(c, members, name), other) <==> HasName(c, members, other) && other != name
  {
    hide MembersOk, HasName;
    if members == [] {
      NoNames(c);
    } else {
      DistinctSplit(c, members);
      WithoutKeepsDistinct(c, members[1..], name);
      var all := Others(c, members, name);
      if c.repr(members[0].node) != name {
        assert all[1..] == Others(c, members[1..], name);
        DistinctSplit(c, all);
      }
      forall other ensures HasName(c, all, other) <==> HasName(c, members, other) && other != name {
        HasNameSplit(c, members, other);
        if c.repr(members[0].node) != name {
          HasNameSplit(c, all, other);
        }
      }
    }
  }

  lemma NoNames<T(!new)>(c: Config<T>)
    ensures MembersOk(c, []) && forall name :: !HasName(c, [], name)
  {
  }

  lemma {:induction false} NotNamedAppend<T(!new)>(c: Config<T>, a: seq<T>, b: seq<T>, name: string)
    ensures NotNamed(c, a + b, name) == NotNamed(c, a, name) + NotNamed(c, b, name)
  {
    if a == [] {
      assert a + b == b;
    } else {
      assert (a + b)[1..] == a[1..] + b;
      NotNamedAppend(c, a[1..], b, name);
    }
  }

  lemma {:induction false} NotNamedRepeat<T(!new)>(c: Config<T>, x: T, n: nat, name: string)
    ensures NotNamed(c, Repeat(x, n), name) == if c.repr(x) == name then [] else Repeat(x, n)
  {
    if n > 0 {
      NotNamedRepeat(c, x, n - 1, name);
      NotNamedAppend(c, Repeat(x, n - 1), [x], name);
      assert [x][1..] == [];
    }
  }

  /** Removing a node takes exactly it out of every list of the ring. */
  lemma {:induction false} WithoutRing<T(!new)>(c: Config<T>, members: seq<Member<T>>, name: string, x: Hash)
    ensures RingAt(c, Others(c, members, name), x) == NotNamed(c, RingAt(c, members, x), name)
  {
    if members != [] {
      WithoutRing(c, members[1..], name, x);
      var first := Repeat(members[0].node, Hits(c, c.repr(members[0].node), members[0].count, x));
      NotNamedRepeat(c, members[0].node, |first|, name);
      NotNamedAppend(c, first, RingAt(c, members[1..], x), name);
      if c.repr(members[0].node) != name {
        assert ([members[0]] + Others(c, members[1..], name))[1..] == Others(c, members[1..], name);
      }
    }
  }

  /** Adding a new node and removing it again leaves the member list, and with it the ring, as it was. */
  lemma {:induction false} AddThenRemove<T(!new)>(c: Config<T>, members: seq<Member<T>>, m: Member<T>)
    requires !HasName(c, members, c.repr(m.node))
    ensures Others(c, members + [m], c.repr(m.node)) == members
  {
    if members == [] {
      assert (members + [m])[1..] == [];
    } else {
      assert (members + [m])[1..] == members[1..] + [m];
      assert c.repr(members[0].node) != c.repr(m.node);
      forall i | 0 <= i < |members[1..]| ensures c.repr(members[1..][i].node) != c.repr(m.node) {
        assert members[1..][i] == members[i + 1];
      }
      AddThenRemove(c, members[1..], m);
    }
  }

  // ---- when Remove is right about the keys -----------------------------------------------------

  /** Taking away at most what is there. */
  function Minus(a: nat, b: nat): (r: nat) {
    if a < b then 0 else a - b
  }

  /** Some index that the node never used hashes onto another node's point. */
  ghost predicate Stray<T(!new)>(c: Config<T>, members: seq<Member<T>>, name: string) {
    exists i :: CountOf(c, members, name) <= i < c.replicas && Total(c, Others(c, members, name), Point(c, name, i)) > 0
  }

  lemma {:induction false} HitsGrow<T(!new)>(c: Config<T>, name: string, k: nat, n: nat, x: Hash)
    requires k <= n
    ensures Hits(c, name, k, x) <= Hits(c, name, n, x)
    ensures Hits(c, name, k, x) == Hits(c, name, n, x) <==> forall i :: k <= i < n ==> Point(c, name, i) != x
  {
    if k < n {
      HitsGrow(c, name, k, n - 1, x);
    }
  }

  /** The copies of x that Remove leaves among the keys. */
  ghost function LeftAt<T(!new)>(c: Config<T>, members: seq<Member<T>>, name: string, x: Hash): (r: nat) {
    Minus(Total(c, members, x), Hits(c, name, c.replicas, x))
  }

  lemma RemoveIsRightAt<T(!new)>(c: Config<T>, members: seq<Member<T>>, name: string, x: Hash)
    requires MembersOk(c, members)
    ensures LeftAt(c, members, name, x) == Total(c, Others(c, members, name), x)
       <==> (Total(c, Others(c, members, name), x) > 0 ==>
               forall i :: CountOf(c, members, name) <= i < c.replicas ==> Point(c, name, i) != x)
  {
    WithoutTotal(c, members, name, x);
    HitsGrow(c, name, CountOf(c, members, name), c.replicas, x);
  }

  /** Remove takes one key for each of all the replica indices. It leaves the other nodes their keys if and
      only if the node has no stray index; with all replicas in use there is none. */
  lemma RemoveIsRightWhen<T(!new)>(c: Config<T>, members: seq<Member<T>>, name: string)
    requires MembersOk(c, members)
    ensures (forall x: Hash :: LeftAt(c, members, name, x) == Total(c, Others(c, members, name), x))
       <==> !Stray(c, members, name)
    ensures CountOf(c, members, name) == c.replicas || NoCollision(c, members, name) ==> !Stray(c, members, name)
  {
    hide LeftAt, CountOf, MembersOk, Others;
    forall x: Hash ensures LeftAt(c, members, name, x) == Total(c, Others(c, members, name), x)
                      <==> (Total(c, Others(c, members, name), x) > 0 ==>
                              forall i :: CountOf(c, members, name) <= i < c.replicas ==> Point(c, name, i) != x)
    {
      RemoveIsRightAt(c, members, name, x);
    }
    if Stray(c, members, name) {
      var i :| CountOf(c, members, name) <= i < c.replicas && Total(c, Others(c, members, name), Point(c, name, i)) > 0;
      assert LeftAt(c, members, name, Point(c, name, i)) != Total(c, Others(c, members, name), Point(c, name, i));
    }
  }

  function Collide(s: string): (r: Hash) { 0 }

  lemma {:induction false} AllCollide(c: Config<string>, name: string, k: nat, x: Hash)
    requires c.hash == Collide
    ensures Hits(c, name, k, x) == if x == 0 then k else 0
  {
    if k > 0 {
      AllCollide(c, name, k - 1, x);
    }
  }

  /** Two nodes of one point each that collide, on a ring of 100 replicas: removing one takes both keys and leaves
      a ring without keys. */
  lemma RemoveCanTakeTooMuch() returns (c: Config<string>, members: seq<Member<string>>)
    ensures c.replicas == 100 && MembersOk(c, members) && Stray(c, members, "a") && |members| == 2
    ensures forall x: Hash :: LeftAt(c, members, "a", x) == 0
    ensures RingAt(c, Others(c, members, "a"), 0) == ["b"]
  {
    c := Config(Collide, s => s, s => s, 100);
    members := [Member("a", 1), Member("b", 1)];
    var rest := [Member("b", 1)];
    assert members[1..] == rest && rest[1..] == [];
    assert "a" != "b" by { assert "a"[0] != "b"[0]; }
    WithoutFirst(c, members[0], rest[0]);
    forall x: Hash ensures LeftAt(c, members, "a", x) == 0 && Total(c, rest, x) == (if x == 0 then 1 else 0) {
      AllCollide(c, "a", 1, x);
      AllCollide(c, "b", 1, x);
      AllCollide(c, "a", 100, x);
      assert Total(c, rest, x) == Hits(c, "b", 1, x) + Total(c, rest[1..], x);
      assert Total(c, members, x) == Hits(c, "a", 1, x) + Total(c, members[1..], x);
    }
    assert CountOf(c, rest, "a") == 0;
    assert CountOf(c, members, "a") == 1;
    assert Total(c, rest, Point(c, "a", 1)) == 1;
    AllCollide(c, "b", 1, 0);
    assert Repeat("b", 1) == ["b"];
  }

  lemma CollidingMembers(c: Config<string>)
    requires c.hash == Collide && forall s :: c.repr(s) == s
    ensures var a, b := Member("a", 1), Member("b", 1);
            && !HasName(c, [], "a") && Others(c, [], "a") == []
            && !HasName(c, [a], "b") && Others(c, [a], "b") == [a]
            && HasName(c, [a, b], "a") && Others(c, [a, b], "a") == [b] && RingAt(c, [b], 0) == ["b"]
  {
    var a, b := Member("a", 1), Member("b", 1);
    assert "a" != "b" by { assert "a"[0] != "b"[0]; }
    assert [a][1..] == [] && [b][1..] == [];
    WithoutFirst(c, a, b);
    assert c.repr([a, b][0].node) == "a";
    AllCollide(c, "b", 1, 0);
    assert RingAt(c, [b], 0) == Repeat("b", 1) + RingAt(c, [b][1..], 0) == ["b"];
  }

  /** n keys of colliding nodes, all 0. */
  ghost predicate Zeros(keys: seq<Hash>, n: nat) {
    forall x: Hash :: multiset(keys)[x] == if x == 0 then n else 0
  }

  lemma OneMoreKey(c: Config<string>, name: string, start: seq<Hash>, keys: seq<Hash>, n: nat)
    requires c.hash == Collide && Zeros(start, n)
    requires exists removed: seq<Hash> ::
               KeysTaken(c, false, name, start, removed) && KeysPlus(c, name, 1, removed, keys)
    ensures Zeros(keys, n + 1)
  {
    forall x: Hash ensures multiset(keys)[x] == if x == 0 then n + 1 else 0 {
      AllCollide(c, name, 1, x);
    }
  }

  lemma AllKeysTaken(c: Config<string>, name: string, start: seq<Hash>, keys: seq<Hash>)
    requires c.hash == Collide && c.replicas >= 2 && Zeros(start, 2) && KeysTaken(c, true, name, start, keys)
    ensures keys == []
  {
    forall x: Hash ensures multiset(keys)[x] == 0 {
      AllCollide(c, name, c.replicas, x);
    }
    NoneIn(keys);
  }

  lemma NoKeys<T(!new)>(c: Config<T>, members: seq<Member<T>>, keys: seq<Hash>)
    requires KeysWithin(c, members, keys) && members == []
    ensures keys == []
  {
    NoneIn(keys);
  }

  lemma NoneIn(keys: seq<Hash>)
    requires forall x: Hash :: multiset(keys)[x] == 0
    ensures keys == []
  {
    assert multiset(keys) == multiset{};
    assert |multiset(keys)| == |keys|;
  }

  lemma RingNotEmpty<T(!new)>(c: Config<T>, members: seq<Member<T>>, ring: map<Hash, seq<T>>, x: Hash)
    requires RingOk(c, members, ring) && RingAt(c, members, x) != []
    ensures ring != map[]
  {
  }

  lemma WithoutFirst<T(!new)>(c: Config<T>, a: Member<T>, b: Member<T>)
    requires c.repr(a.node) != c.repr(b.node)
    ensures Others(c, [a, b], c.repr(a.node)) == [b]
  {
    assert [a, b][1..] == [b] && [b][1..] == [];
    assert Others(c, [b], c.repr(a.node)) == [b] + Others(c, [b][1..], c.repr(a.node)) == [b];
  }

  // ---- the loops of AddWithReplicas and Remove -----------------------------------------------------

  lemma EmptyMember<T(!new)>(c: Config<T>, before: seq<Member<T>>, node: T, ring: map<Hash, seq<T>>, nodes: set<string>)
    requires RingOk(c, before, ring) && NodesOk(c, before, nodes)
    ensures RingOk(c, before + [Member(node, 0)], ring)
    ensures NodesOk(c, before + [Member(node, 0)], nodes + {c.repr(node)})
  {
    forall x: Hash ensures RingAt(c, before + [Member(node, 0)], x) == RingAt(c, before, x) {
      AppendedRing(c, before, Member(node, 0), x);
    }
    forall name
      ensures HasName(c, before + [Member(node, 0)], name) <==> HasName(c, before, name) || name == c.repr(node)
    {
      AppendedName(c, before, Member(node, 0), name);
    }
  }

  lemma AppendedName<T(!new)>(c: Config<T>, before: seq<Member<T>>, m: Member<T>, name: string)
    ensures HasName(c, before + [m], name) <==> HasName(c, before, name) || name == c.repr(m.node)
  {
    var all := before + [m];
    assert all[|before|] == m;
    if HasName(c, before, name) {
      var i :| 0 <= i < |before| && c.repr(before[i].node) == name;
      assert c.repr(all[i].node) == name;
    }
  }

  lemma SameNames<T(!new)>(c: Config<T>, before: seq<Member<T>>, node: T, i: nat, j: nat, nodes: set<string>)
    requires NodesOk(c, before + [Member(node, i)], nodes)
    ensures NodesOk(c, before + [Member(node, j)], nodes)
  {
    forall name ensures HasName(c, before + [Member(node, j)], name) <==> HasName(c, before + [Member(node, i)], name) {
      AppendedName(c, before, Member(node, i), name);
      AppendedName(c, before, Member(node, j), name);
    }
  }

  lemma DistinctAppended<T(!new)>(c: Config<T>, before: seq<Member<T>>, m: Member<T>)
    requires CountsOk(c, before) && m.count <= c.replicas
    ensures CountsOk(c, before + [m])
    ensures MembersOk(c, before) ==> (MembersOk(c, before + [m]) <==> !HasName(c, before, c.repr(m.node)))
  {
    var all := before + [m];
    assert all[|before|] == m;
    assert forall i :: 0 <= i < |before| ==> all[i] == before[i];
  }

  /** Appending the node at its next point. */
  lemma MorePoints<T(!new)>(c: Config<T>, before: seq<Member<T>>, node: T, i: nat, ring: map<Hash, seq<T>>)
    requires RingOk(c, before + [Member(node, i)], ring)
    ensures var hash := Point(c, c.repr(node), i);
            RingOk(c, before + [Member(node, i + 1)], ring[hash := (if hash in ring then ring[hash] else []) + [node]])
  {
    hide RingAt, Point;
    var now, next := before + [Member(node, i)], before + [Member(node, i + 1)];
    forall x: Hash
      ensures RingAt(c, next, x) == RingAt(c, now, x) + (if x == Point(c, c.repr(node), i) then [node] else [])
    {
      MorePointsAt(c, before, node, i, x);
    }
  }

  lemma MorePointsAt<T(!new)>(c: Config<T>, before: seq<Member<T>>, node: T, i: nat, x: Hash)
    ensures RingAt(c, before + [Member(node, i + 1)], x)
         == RingAt(c, before + [Member(node, i)], x) + (if x == Point(c, c.repr(node), i) then [node] else [])
  {
    AppendedRing(c, before, Member(node, i), x);
    AppendedRing(c, before, Member(node, i + 1), x);
  }

  /** What the ring list at x is after the first i indices of the named node have been removed. */
  ghost function RingWhile<T(!new)>(c: Config<T>, members: seq<Member<T>>, name: string, i: nat, x: Hash): (r: seq<T>) {
    if Hits(c, name, i, x) > 0 then NotNamed(c, RingAt(c, members, x), name) else RingAt(c, members, x)
  }

  ghost predicate RingWhileOk<T(!new)>(c: Config<T>, members: seq<Member<T>>, name: string, i: nat,
                                       ring: map<Hash, seq<T>>)
  {
    && (forall x :: x in ring ==> ring[x] != [] && ring[x] == RingWhile(c, members, name, i, x))
    && (forall x: Hash :: RingWhile(c, members, name, i, x) != [] ==> x in ring)
  }

  ghost function RingWithout<T(!new)>(c: Config<T>, ring: map<Hash, seq<T>>, hash: Hash, name: string)
    : (r: map<Hash, seq<T>>)
  {
    if hash !in ring then ring
    else if NotNamed(c, ring[hash], name) == [] then ring - {hash}
    else ring[hash := NotNamed(c, ring[hash], name)]
  }

  lemma {:induction false} NotNamedTwice<T(!new)>(c: Config<T>, nodes: seq<T>, name: string)
    ensures NotNamed(c, NotNamed(c, nodes, name), name) == NotNamed(c, nodes, name)
  {
    if nodes != [] {
      NotNamedTwice(c, nodes[1..], name);
      var rest := NotNamed(c, nodes[1..], name);
      assert ([nodes[0]] + rest)[1..] == rest && [] + rest == rest;
    }
  }

  lemma RingWhileStep<T(!new)>(c: Config<T>, members: seq<Member<T>>, name: string, i: nat, x: Hash)
    ensures RingWhile(c, members, name, i + 1, x)
         == if x == Point(c, name, i) then NotNamed(c, RingWhile(c, members, name, i, x), name)
            else RingWhile(c, members, name, i, x)
    ensures NotNamed<T>(c, [], name) == []
  {
    NotNamedTwice(c, RingAt(c, members, x), name);
  }

  lemma RemovesOne<T(!new)>(c: Config<T>, members: seq<Member<T>>, name: string, i: nat, ring: map<Hash, seq<T>>)
    requires RingWhileOk(c, members, name, i, ring)
    ensures RingWhileOk(c, members, name, i + 1, RingWithout(c, ring, Point(c, name, i), name))
  {
    hide RingWhile, NotNamed, Point;
    forall x: Hash
      ensures RingWhile(c, members, name, i + 1, x)
           == if x == Point(c, name, i) then NotNamed(c, RingWhile(c, members, name, i, x), name)
              else RingWhile(c, members, name, i, x)
    {
      RingWhileStep(c, members, name, i, x);
    }
    RingWhileStep(c, members, name, i, 0);
  }

  lemma RingWhileStarts<T(!new)>(c: Config<T>, members: seq<Member<T>>, name: string, ring: map<Hash, seq<T>>)
    requires RingOk(c, members, ring)
    ensures RingWhileOk(c, members, name, 0, ring)
  {
  }

  lemma {:induction false} NothingNamed<T(!new)>(c: Config<T>, members: seq<Member<T>>, name: string, x: Hash)
    requires Hits(c, name, CountOf(c, members, name), x) == 0 && MembersOk(c, members)
    ensures NotNamed(c, RingAt(c, members, x), name) == RingAt(c, members, x)
  {
    if members != [] {
      DistinctSplit(c, members);
      WithoutTotal(c, members[1..], name, x);
      var first := Repeat(members[0].node, Hits(c, c.repr(members[0].node), members[0].count, x));
      if c.repr(members[0].node) == name {
        assert first == [];
      }
      NothingNamed(c, members[1..], name, x);
      NotNamedRepeat(c, members[0].node, |first|, name);
      NotNamedAppend(c, first, RingAt(c, members[1..], x), name);
    }
  }

  /** Where no replica index of a name hashes to, no member of that name is. */
  lemma {:induction false} NothingThere<T(!new)>(c: Config<T>, members: seq<Member<T>>, name: string, x: Hash)
    requires CountsOk(c, members) && Hits(c, name, c.replicas, x) == 0
    ensures NotNamed(c, RingAt(c, members, x), name) == RingAt(c, members, x)
  {
    if members != [] {
      var first := Repeat(members[0].node, Hits(c, c.repr(members[0].node), members[0].count, x));
      if c.repr(members[0].node) == name {
        HitsGrow(c, name, members[0].count, c.replicas, x);
        assert first == [];
      }
      NothingThere(c, members[1..], name, x);
      NotNamedRepeat(c, members[0].node, |first|, name);
      NotNamedAppend(c, first, RingAt(c, members[1..], x), name);
    }
  }

  /** After all indices the ring is that of the other nodes. */
  lemma RemovesAll<T(!new)>(c: Config<T>, members: seq<Member<T>>, name: string, ring: map<Hash, seq<T>>)
    requires RingWhileOk(c, members, name, c.replicas, ring) && CountsOk(c, members)
    ensures RingOk(c, Others(c, members, name), ring)
  {
    forall x: Hash ensures RingAt(c, Others(c, members, name), x) == RingWhile(c, members, name, c.replicas, x) {
      WithoutRing(c, members, name, x);
      if Hits(c, name, c.replicas, x) == 0 {
        NothingThere(c, members, name, x);
      }
    }
  }

  /** What Remove has left of the keys `start` after the first i indices. */
  ghost predicate KeysWhile<T(!new)>(c: Config<T>, name: string, i: nat, start: seq<Hash>, keys: seq<Hash>) {
    Sorted(keys) && forall x: Hash :: multiset(keys)[x] == Minus(multiset(start)[x], Hits(c, name, i, x))
  }

  /** The keys after a Remove: for a node that was in, one less for each of all the replica indices, as far as there are
      any. */
  ghost predicate KeysTaken<T(!new)>(c: Config<T>, had: bool, name: string, start: seq<Hash>, keys: seq<Hash>) {
    if had then KeysWhile(c, name, c.replicas, start, keys) else keys == start
  }

  lemma KeyRemoved<T(!new)>(c: Config<T>, name: string, i: nat, start: seq<Hash>, keys: seq<Hash>, index: nat)
    requires KeysWhile(c, name, i, start, keys) && index <= |keys|
    requires forall j :: 0 <= j < index ==> keys[j] < Point(c, name, i)
    requires forall j :: index <= j < |keys| ==> keys[j] >= Point(c, name, i)
    ensures var found := index < |keys| && keys[index] == Point(c, name, i);
            KeysWhile(c, name, i + 1, start, if found then keys[..index] + keys[index + 1..] else keys)
  {
    hide Sorted;
    KeyDeleted(keys, index, Point(c, name, i));
  }

  lemma KeysWhileStarts<T(!new)>(c: Config<T>, name: string, keys: seq<Hash>)
    requires Sorted(keys)
    ensures KeysWhile(c, name, 0, keys, keys)
  {
  }

  /** The keys left are within those of the other nodes, and they are all of them if and only if there is no stray
      index. */
  lemma KeysWhileEnds<T(!new)>(c: Config<T>, members: seq<Member<T>>, name: string, start: seq<Hash>, keys: seq<Hash>)
    requires KeysWhile(c, name, c.replicas, start, keys) && MembersOk(c, members) && KeysWithin(c, members, start)
    ensures KeysWithin(c, Others(c, members, name), keys)
    ensures KeysOk(c, members, start) ==> (KeysOk(c, Others(c, members, name), keys) <==> !Stray(c, members, name))
  {
    hide Stray, MembersOk, Others, Total, Hits, CountOf, Sorted;
    RemoveIsRightWhen(c, members, name);
    forall x: Hash
      ensures multiset(keys)[x] <= Total(c, Others(c, members, name), x)
      ensures KeysOk(c, members, start) ==> multiset(keys)[x] == LeftAt(c, members, name, x)
    {
      WithoutTotal(c, members, name, x);
      HitsGrow(c, name, CountOf(c, members, name), c.replicas, x);
    }
  }

  /** The keys after the first i points of the named node have been appended to `removed`. */
  ghost predicate KeysPlus<T(!new)>(c: Config<T>, name: string, i: nat, removed: seq<Hash>, keys: seq<Hash>) {
    forall x: Hash :: multiset(keys)[x] == multiset(removed)[x] + Hits(c, name, i, x)
  }

  lemma KeyAppended<T(!new)>(c: Config<T>, name: string, i: nat, removed: seq<Hash>, keys: seq<Hash>)
    requires KeysPlus(c, name, i, removed, keys)
    ensures KeysPlus(c, name, i + 1, removed, keys + [Point(c, name, i)])
  {
  }

  lemma KeysPlusStarts<T(!new)>(c: Config<T>, name: string, removed: seq<Hash>)
    ensures KeysPlus(c, name, 0, removed, removed)
  {
  }

  /** The keys are right, or within those of the members, with the new points if and only if they were without them. */
  lemma KeysPlusEnds<T(!new)>(c: Config<T>, before: seq<Member<T>>, m: Member<T>, removed: seq<Hash>,
                              keys: seq<Hash>, sorted: seq<Hash>)
    requires KeysPlus(c, c.repr(m.node), m.count, removed, keys) && Sorted(removed)
    requires SortedBy(AtMost, sorted) && multiset(sorted) == multiset(keys)
    ensures Sorted(sorted) && KeysPlus(c, c.repr(m.node), m.count, removed, sorted)
    ensures KeysOk(c, before + [m], sorted) <==> KeysOk(c, before, removed)
    ensures KeysWithin(c, before + [m], sorted) <==> KeysWithin(c, before, removed)
  {
    hide Total, Hits;
    assert multiset(sorted) == multiset(keys);
    forall x: Hash
      ensures multiset(sorted)[x] == Total(c, before + [m], x) <==> multiset(removed)[x] == Total(c, before, x)
      ensures multiset(sorted)[x] <= Total(c, before + [m], x) <==> multiset(removed)[x] <= Total(c, before, x)
    {
      AppendedTotal(c, before, m, x);
      assert multiset(keys)[x] == multiset(removed)[x] + Hits(c, c.repr(m.node), m.count, x);
    }
  }

  // ---- rings of full replicas ------------------------------------------------------------------

  ghost predicate AllFull<T(!new)>(c: Config<T>, members: seq<Member<T>>) {
    forall i :: 0 <= i < |members| ==> members[i].count == c.replicas
  }

  /** Whatever the hash function, a ring of full replicas has no stray index. */
  lemma {:induction false} FullIsNotStray<T(!new)>(c: Config<T>, members: seq<Member<T>>, name: string)
    requires MembersOk(c, members) && AllFull(c, members) && HasName(c, members, name)
    ensures CountOf(c, members, name) == c.replicas && !Stray(c, members, name)
  {
    RemoveIsRightWhen(c, members, name);
    CountOfFull(c, members, name);
  }

  lemma {:induction false} CountOfFull<T(!new)>(c: Config<T>, members: seq<Member<T>>, name: string)
    requires MembersOk(c, members) && AllFull(c, members)
    ensures CountOf(c, members, name) == if HasName(c, members, name) then c.replicas else 0
  {
    hide MembersOk, HasName;
    if members == [] {
      NoNames(c);
    } else {
      DistinctSplit(c, members);
      HasNameSplit(c, members, name);
      CountOfFull(c, members[1..], name);
    }
  }

  lemma {:induction false} WithoutKeepsFull<T(!new)>(c: Config<T>, members: seq<Member<T>>, name: string)
    requires AllFull(c, members)
    ensures AllFull(c, Others(c, members, name))
  {
    if members != [] {
      WithoutKeepsFull(c, members[1..], name);
    }
  }

  /** What Add and Remove of a node make of the members of a ring of full replicas. */
  lemma FullStaysFull<T(!new)>(c: Config<T>, members: seq<Member<T>>, node: T)
    requires MembersOk(c, members)
    ensures var name := c.repr(node);
            AllFull(c, members) ==>
              (HasName(c, members, name) ==> !Stray(c, members, name)) && AllFull(c, Others(c, members, name)) &&
              AllFull(c, Others(c, members, name) + [Member(node, c.replicas)])
  {
    var name := c.repr(node);
    if AllFull(c, members) {
      WithoutKeepsFull(c, members, name);
      if HasName(c, members, name) {
        FullIsNotStray(c, members, name);
      }
    }
  }

  /** Taking away what was added gives back the keys. */
  lemma TakenBack<T(!new)>(c: Config<T>, name: string, start: seq<Hash>, more: seq<Hash>, keys: seq<Hash>)
    requires Sorted(start) && KeysPlus(c, name, c.replicas, start, more) && KeysTaken(c, true, name, more, keys)
    ensures keys == start
  {
    forall x: Hash ensures multiset(keys)[x] == multiset(start)[x] {
      assert multiset(more)[x] == multiset(start)[x] + Hits(c, name, c.replicas, x);
    }
    SortedUnique(keys, start);
  }

  predicate AtMost(a: Hash, b: Hash) {
    a <= b
  }

  /** Deleting the first key that equals hash. */
  lemma KeyDeleted(keys: seq<Hash>, index: nat, hash: Hash)
    requires Sorted(keys) && index <= |keys|
    requires forall j :: 0 <= j < index ==> keys[j] < hash
    requires forall j :: index <= j < |keys| ==> keys[j] >= hash
    ensures index < |keys| && keys[index] == hash ==>
              Sorted(keys[..index] + keys[index + 1..]) &&
              multiset(keys[..index] + keys[index + 1..]) == multiset(keys) - multiset{hash}
    ensures !(index < |keys| && keys[index] == hash) ==> hash !in multiset(keys)
  {
    if index < |keys| && keys[index] == hash {
      assert keys == keys[..index] + [hash] + keys[index + 1..];
    }
  }

  // ---- lookup ------------------------------------------------------------------------------------

  ghost predicate InRing<T(!new)>(c: Config<T>, members: seq<Member<T>>, x: Hash) {
    Total(c, members, x) > 0
  }

  /** The first point at or after h, or the first of all if there is none. */
  ghost predicate IsSuccessor<T(!new)>(c: Config<T>, members: seq<Member<T>>, h: Hash, x: Hash) {
    && InRing(c, members, x)
    && (forall y: Hash :: InRing(c, members, y) && y >= h ==> h <= x <= y)
    && ((forall y: Hash :: InRing(c, members, y) ==> y < h) ==> forall y: Hash :: InRing(c, members, y) ==> x <= y)
  }

  /** The answer for value v; when several nodes share the point, the one picked by the inner hash. */
  ghost predicate Answers<T(!new)>(c: Config<T>, members: seq<Member<T>>, v: T, r: Option<T>) {
    if r.None? then forall x: Hash :: !InRing(c, members, x)
    else exists x: Hash :: IsSuccessor(c, members, c.hash(c.repr(v)), x) && r == Picked(c, RingAt(c, members, x), v)
  }

  function Picked<T(!new)>(c: Config<T>, nodes: seq<T>, v: T): (r: Option<T>) {
    if nodes == [] then None else Some(nodes[c.hash(c.innerRepr(v)) % |nodes|])
  }

  lemma SuccessorIsUnique<T(!new)>(c: Config<T>, members: seq<Member<T>>, h: Hash, x: Hash, y: Hash)
    requires IsSuccessor(c, members, h, x) && IsSuccessor(c, members, h, y)
    ensures x == y
  {
    if x >= h || y >= h {
    } else {
      assert forall z: Hash :: InRing(c, members, z) ==> z < h;
    }
  }

  /** There is exactly one answer. */
  lemma AnswerIsUnique<T(!new)>(c: Config<T>, members: seq<Member<T>>, v: T, r: Option<T>, r': Option<T>)
    requires Answers(c, members, v, r) && Answers(c, members, v, r')
    ensures r == r'
  {
    if r.Some? && r'.Some? {
      var h := c.hash(c.repr(v));
      var x :| IsSuccessor(c, members, h, x) && r == Picked(c, RingAt(c, members, x), v);
      var y :| IsSuccessor(c, members, h, y) && r' == Picked(c, RingAt(c, members, y), v);
      SuccessorIsUnique(c, members, h, x, y);
    }
  }

  /** No point of the one node, over all replica indices, is a point of another member. */
  ghost predicate NoCollision<T(!new)>(c: Config<T>, members: seq<Member<T>>, name: string) {
    forall i :: 0 <= i < c.replicas ==> !InRing(c, Others(c, members, name), Point(c, name, i))
  }

  /** At every point of another node the list is the same with and without the named node; at every other
      point it holds nothing but the named node. */
  lemma OneSide<T(!new)>(c: Config<T>, members: seq<Member<T>>, name: string, x: Hash)
    requires MembersOk(c, members) && NoCollision(c, members, name)
    ensures var others := Others(c, members, name);
            (InRing(c, others, x) ==> InRing(c, members, x)) &&
            if InRing(c, others, x) then RingAt(c, members, x) == RingAt(c, others, x)
            else forall i :: 0 <= i < |RingAt(c, members, x)| ==> c.repr(RingAt(c, members, x)[i]) == name
  {
    WithoutTotal(c, members, name, x);
    WithoutRing(c, members, name, x);
    RingLengths(c, Others(c, members, name), x);
    HitsGrow(c, name, 0, CountOf(c, members, name), x);
    if InRing(c, Others(c, members, name), x) {
      NothingNamed(c, members, name, x);
    } else {
      OnlyNamed(c, RingAt(c, members, x), name);
    }
  }

  lemma {:induction false} OnlyNamed<T(!new)>(c: Config<T>, nodes: seq<T>, name: string)
    requires NotNamed(c, nodes, name) == []
    ensures forall i :: 0 <= i < |nodes| ==> c.repr(nodes[i]) == name
  {
    if nodes != [] {
      OnlyNamed(c, nodes[1..], name);
      assert forall i :: 0 < i < |nodes| ==> nodes[i] == nodes[1..][i - 1];
    }
  }

  lemma SuccessorOfMore<T(!new)>(c: Config<T>, members: seq<Member<T>>, more: seq<Member<T>>, h: Hash, x: Hash)
    requires IsSuccessor(c, more, h, x) && InRing(c, members, x)
    requires forall y: Hash :: InRing(c, members, y) ==> InRing(c, more, y)
    ensures IsSuccessor(c, members, h, x)
  {
    hide InRing;
    if forall y: Hash :: InRing(c, members, y) ==> y < h {
      assert x < h;
      forall y: Hash | InRing(c, more, y) ensures y < h {
      }
    }
  }

  /** An answer is the named node, or it is the answer of the ring without that node. */
  lemma NamedOrOthers<T(!new)>(c: Config<T>, members: seq<Member<T>>, name: string, v: T, r: Option<T>)
    requires MembersOk(c, members) && NoCollision(c, members, name) && Answers(c, members, v, r)
    ensures (r.Some? && c.repr(r.value) == name) || Answers(c, Others(c, members, name), v, r)
  {
    hide InRing, MembersOk, NoCollision, IsSuccessor, Others;
    var others, h := Others(c, members, name), c.hash(c.repr(v));
    forall y: Hash ensures InRing(c, others, y) ==> InRing(c, members, y) {
      OneSide(c, members, name, y);
    }
    if r.Some? {
      var x :| IsSuccessor(c, members, h, x) && r == Picked(c, RingAt(c, members, x), v);
      OneSide(c, members, name, x);
      if InRing(c, others, x) {
        SuccessorOfMore(c, others, members, h, x);
      }
    }
  }

  /** Minimal disruption: taking a node out changes the answer only for values that it owned. */
  lemma RemovingDisturbsOnlyItsValues<T(!new)>(c: Config<T>, members: seq<Member<T>>, name: string, v: T,
                                               r: Option<T>, r': Option<T>)
    requires MembersOk(c, members) && NoCollision(c, members, name)
    requires Answers(c, members, v, r) && Answers(c, Others(c, members, name), v, r')
    ensures r == r' || (r.Some? && c.repr(r.value) == name)
  {
    NamedOrOthers(c, members, name, v, r);
    if Answers(c, Others(c, members, name), v, r) {
      AnswerIsUnique(c, Others(c, members, name), v, r, r');
    }
  }

  /** Minimal disruption: adding a new node of any weight, or adding a node again with another weight, changes
      the answer only from or to that node. */
  lemma AddingDisturbsOnlyForTheNode<T(!new)>(c: Config<T>, members: seq<Member<T>>, m: Member<T>, v: T,
                                              r: Option<T>, r': Option<T>)
    requires MembersOk(c, members) && NoCollision(c, members, c.repr(m.node)) && m.count <= c.replicas
    requires Answers(c, members, v, r)
    requires Answers(c, Others(c, members, c.repr(m.node)) + [m], v, r')
    ensures r == r' || (r'.Some? && c.repr(r'.value) == c.repr(m.node)) ||
            (HasName(c, members, c.repr(m.node)) && r.Some? && c.repr(r.value) == c.repr(m.node))
  {
    var name := c.repr(m.node);
    var others := Others(c, members, name);
    WithoutKeepsDistinct(c, members, name);
    WithoutTotal(c, members, name, 0);
    AddThenRemove(c, others, m);
    DistinctAppended(c, others, m);
    NamedOrOthers(c, others + [m], name, v, r');
    if Answers(c, others, v, r') {
      NamedOrOthers(c, members, name, v, r);
      if Answers(c, others, v, r) {
        AnswerIsUnique(c, others, v, r, r');
      }
    }
  }

  /** While no key is left that no member has, every key has a list in the ring. */
  lemma KeyInRing<T(!new)>(c: Config<T>, members: seq<Member<T>>, keys: seq<Hash>, ring: map<Hash, seq<T>>, x: Hash)
    requires KeysWithin(c, members, keys) && RingOk(c, members, ring) && x in keys
    ensures x in ring && ring[x] != [] && ring[x] == RingAt(c, members, x)
  {
    RingLengths(c, members, x);
    assert x in multiset(keys);
  }

  /** With right fields the keys are exactly the hashes of the ring, so one is empty only with the other. */
  lemma KeysAndRing<T(!new)>(c: Config<T>, members: seq<Member<T>>, keys: seq<Hash>, ring: map<Hash, seq<T>>)
    requires KeysOk(c, members, keys) && RingOk(c, members, ring)
    ensures forall x: Hash :: (x in keys <==> x in ring) && (x in keys <==> InRing(c, members, x))
    ensures |ring| == 0 <==> |keys| == 0
    ensures |ring| == 0 ==> forall x: Hash :: !InRing(c, members, x)
  {
    forall x: Hash ensures (x in keys <==> x in ring) && (x in keys <==> InRing(c, members, x)) {
      RingLengths(c, members, x);
      assert x in keys <==> x in multiset(keys);
    }
    if keys != [] {
      assert keys[0] in ring.Keys;
    }
    if |ring| > 0 {
      assert |ring.Keys| > 0;
      var x :| x in ring.Keys;
    }
  }

  /** The first key at or after h, or the first of all if there is none. */
  ghost predicate IsKeySuccessor(keys: seq<Hash>, h: Hash, x: Hash) {
    && x in keys
    && (forall y :: y in keys && y >= h ==> h <= x <= y)
    && ((forall y :: y in keys ==> y < h) ==> forall y :: y in keys ==> x <= y)
  }

  /** The position found by the search, modulo the number of keys, is that of the successor. */
  lemma IndexIsSuccessor(keys: seq<Hash>, h: Hash, at: nat)
    requires Sorted(keys) && keys != [] && at <= |keys|
    requires forall j :: 0 <= j < at ==> keys[j] < h
    requires forall j :: at <= j < |keys| ==> keys[j] >= h
    ensures IsKeySuccessor(keys, h, keys[at % |keys|])
  {
    if at < |keys| {
      FoundIsSuccessor(keys, h, at);
    } else {
      FirstIsSuccessor(keys, h);
    }
    assert at % |keys| == if at == |keys| then 0 else at;
  }

  lemma FoundIsSuccessor(keys: seq<Hash>, h: Hash, at: nat)
    requires Sorted(keys) && at < |keys| && keys[at] >= h && forall j :: 0 <= j < at ==> keys[j] < h
    ensures IsKeySuccessor(keys, h, keys[at])
  {
    forall y | y in keys && y >= h ensures h <= keys[at] <= y {
      var j :| 0 <= j < |keys| && keys[j] == y;
    }
    assert keys[at] in keys;
  }

  lemma FirstIsSuccessor(keys: seq<Hash>, h: Hash)
    requires Sorted(keys) && keys != [] && forall j :: 0 <= j < |keys| ==> keys[j] < h
    ensures IsKeySuccessor(keys, h, keys[0])
  {
    forall y | y in keys ensures keys[0] <= y < h {
      var j :| 0 <= j < |keys| && keys[j] == y;
    }
    assert keys[0] in keys;
  }

  lemma NodeGone<T(!new)>(c: Config<T>, members: seq<Member<T>>, name: string, nodes: set<string>)
    requires NodesOk(c, members, nodes) && CountsOk(c, members)
    ensures CountsOk(c, Others(c, members, name)) && NodesOk(c, Others(c, members, name), nodes - {name})
    ensures MembersOk(c, members) ==> MembersOk(c, Others(c, members, name))
    ensures name !in nodes ==> Others(c, members, name) == members
  {
    OthersNames(c, members, name);
    if MembersOk(c, members) {
      WithoutKeepsDistinct(c, members, name);
    }
    if !HasName(c, members, name) {
      WithoutNone(c, members, name);
    }
  }

  lemma {:induction false} OthersNames<T(!new)>(c: Config<T>, members: seq<Member<T>>, name: string)
    requires CountsOk(c, members)
    ensures CountsOk(c, Others(c, members, name))
    ensures forall other :: HasName(c, Others(c, members, name), other) <==> HasName(c, members, other) && other != name
  {
    hide HasName;
    if members == [] {
      NoNames(c);
    } else {
      OthersNames(c, members[1..], name);
      var all := Others(c, members, name);
      if c.repr(members[0].node) != name {
        assert all[1..] == Others(c, members[1..], name);
      }
      forall other ensures HasName(c, all, other) <==> HasName(c, members, other) && other != name {
        HasNameSplit(c, members, other);
        if c.repr(members[0].node) != name {
          HasNameSplit(c, all, other);
        }
      }
    }
  }

  lemma NamesAre<T(!new)>(c: Config<T>, members: seq<Member<T>>, nodes: set<string>, name: string)
    requires NodesOk(c, members, nodes)
    ensures name in nodes <==> HasName(c, members, name)
  {
  }

  lemma KeysAreSorted<T(!new)>(c: Config<T>, name: string, i: nat, start: seq<Hash>, keys: seq<Hash>)
    requires KeysWhile(c, name, i, start, keys)
    ensures Sorted(keys)
  {
  }

  lemma WithinIsSorted<T(!new)>(c: Config<T>, members: seq<Member<T>>, keys: seq<Hash>)
    requires KeysWithin(c, members, keys)
    ensures Sorted(keys)
  {
  }

  lemma NoAnswer<T(!new)>(c: Config<T>, members: seq<Member<T>>, keys: seq<Hash>, ring: map<Hash, seq<T>>, v: T)
    requires RingOk(c, members, ring) && |ring| == 0
    ensures KeysOk(c, members, keys) ==> Answers(c, members, v, None)
  {
    if KeysOk(c, members, keys) {
      KeysAndRing(c, members, keys, ring);
    }
  }

  /** While the keys are right, the first key at or after the hash is the first point of the ring. */
  lemma SuccessorAnswers<T(!new)>(c: Config<T>, members: seq<Member<T>>, keys: seq<Hash>, ring: map<Hash, seq<T>>,
                                  v: T, x: Hash)
    requires RingOk(c, members, ring) && IsKeySuccessor(keys, c.hash(c.repr(v)), x)
    ensures Responds(c, members, keys, v, Picked(c, RingAt(c, members, x), v))
    ensures KeysOk(c, members, keys) ==> Answers(c, members, v, Picked(c, RingAt(c, members, x), v))
  {
    hide InRing;
    if KeysOk(c, members, keys) {
      KeysAndRing(c, members, keys, ring);
      KeyInRing(c, members, keys, ring, x);
      assert IsSuccessor(c, members, c.hash(c.repr(v)), x);
    }
  }

  lemma NotThere<T(!new)>(c: Config<T>, members: seq<Member<T>>, m: Member<T>)
    requires !HasName(c, members, c.repr(m.node))
    ensures Others(c, members, c.repr(m.node)) == members && HasName(c, members + [m], c.repr(m.node))
    ensures !HasName(c, members, c.repr(m.node))
  {
    AppendedName(c, members, m, c.repr(m.node));
    WithoutNone(c, members, c.repr(m.node));
  }

  lemma {:induction false} WithoutNone<T(!new)>(c: Config<T>, members: seq<Member<T>>, name: string)
    requires !HasName(c, members, name)
    ensures Others(c, members, name) == members
  {
    hide HasName;
    if members != [] {
      HasNameSplit(c, members, name);
      WithoutNone(c, members[1..], name);
    }
  }

  lemma NothingTaken<T(!new)>(c: Config<T>, name: string, n: nat, start: seq<Hash>, more: seq<Hash>)
    requires Sorted(start)
    ensures forall removed: seq<Hash> ::
              KeysTaken(c, false, name, start, removed) && KeysPlus(c, name, n, removed, more) ==>
                KeysPlus(c, name, n, start, more)
  {
  }

  lemma NotTaken<T(!new)>(c: Config<T>, name: string, start: seq<Hash>, keys: seq<Hash>)
    requires KeysTaken(c, false, name, start, keys)
    ensures keys == start
  {
  }

  /** The answer for value v by the keys: from the list at the first key at or after its hash. */
  ghost predicate Responds<T(!new)>(c: Config<T>, members: seq<Member<T>>, keys: seq<Hash>, v: T, r: Option<T>) {
    exists x: Hash :: IsKeySuccessor(keys, c.hash(c.repr(v)), x) && r == Picked(c, RingAt(c, members, x), v)
  }

  lemma RingListIs<T(!new)>(c: Config<T>, members: seq<Member<T>>, ring: map<Hash, seq<T>>, x: Hash)
    requires RingOk(c, members, ring)
    ensures RingAt(c, members, x) == if x in ring then ring[x] else []
  {
  }

  // ---- two calls of Add that overlap -----------------------------------------------------------------

  /** A hash that depends on the first character only. */
  function ByInitial(s: string): (r: Hash) {
    if s != "" && s[0] == 'n' then 1 else 2
  }

  lemma {:induction false} HitsByInitial(c: Config<string>, name: string, k: nat, x: Hash)
    requires c.hash == ByInitial && name != ""
    ensures Hits(c, name, k, x) == if x == ByInitial(name) then k else 0
  {
    if k > 0 {
      HitsByInitial(c, name, k - 1, x);
      assert (name + Itoa(k - 1))[0] == name[0];
    }
  }

  /** As many keys 1 and 2. */
  ghost predicate OnesAndTwos(keys: seq<Hash>, ones: nat, twos: nat) {
    forall x: Hash :: multiset(keys)[x] == if x == 1 then ones else if x == 2 then twos else 0
  }

  lemma MoreByInitial(c: Config<string>, name: string, k: nat, start: seq<Hash>, keys: seq<Hash>, ones: nat, twos: nat)
    requires c.hash == ByInitial && name != "" && OnesAndTwos(start, ones, twos) && KeysPlus(c, name, k, start, keys)
    ensures if name[0] == 'n' then OnesAndTwos(keys, ones + k, twos) else OnesAndTwos(keys, ones, twos + k)
  {
    forall x: Hash ensures multiset(keys)[x] == multiset(start)[x] + if x == ByInitial(name) then k else 0 {
      HitsByInitial(c, name, k, x);
    }
  }

  lemma LessByInitial(c: Config<string>, start: seq<Hash>, keys: seq<Hash>, ones: nat, twos: nat)
    requires c.hash == ByInitial && OnesAndTwos(start, ones, twos) && KeysTaken(c, true, "n", start, keys)
    ensures OnesAndTwos(keys, Minus(ones, c.replicas), twos)
  {
    forall x: Hash ensures multiset(keys)[x] == Minus(multiset(start)[x], if x == 1 then c.replicas else 0) {
      HitsByInitial(c, "n", c.replicas, x);
    }
  }

  /** The node "n" twice behind "b", and what is left without it. */
  lemma TwiceMembers(c: Config<string>)
    requires c.hash == ByInitial && forall s :: c.repr(s) == s
    ensures var b, n := Member("b", 1), Member("n", 100);
            && !HasName(c, [], "b") && Others(c, [], "b") == []
            && !HasName(c, [b], "n") && Others(c, [b], "n") == [b]
            && HasName(c, [b, n, n], "n") && Others(c, [b, n, n], "n") == [b]
            && RingAt(c, [b], 1) == [] && RingAt(c, [b], 2) == ["b"]
  {
    var b, n := Member("b", 1), Member("n", 100);
    assert "b" != "n" by { assert "b"[0] != "n"[0]; }
    assert [b][1..] == [] && [n][1..] == [] && [n, n][1..] == [n] && [b, n, n][1..] == [n, n];
    assert Others(c, [n], "n") == Others(c, [n][1..], "n") == [];
    assert Others(c, [n, n], "n") == Others(c, [n, n][1..], "n") == [];
    assert Others(c, [b, n, n], "n") == [b] + Others(c, [b, n, n][1..], "n") == [b];
    assert Others(c, [b], "n") == [b] + Others(c, [b][1..], "n") == [b];
    assert c.repr([b, n, n][1].node) == "n";
    HitsByInitial(c, "b", 1, 1);
    HitsByInitial(c, "b", 1, 2);
    assert RingAt(c, [b], 1) == Repeat("b", 0) + RingAt(c, [b][1..], 1) == [];
    assert Repeat("b", 1) == ["b"];
    assert RingAt(c, [b], 2) == Repeat("b", 1) + RingAt(c, [b][1..], 2) == ["b"];
  }

  lemma FirstIsOne(keys: seq<Hash>, x: Hash, ones: nat, twos: nat)
    requires OnesAndTwos(keys, ones, twos) && ones > 0 && IsKeySuccessor(keys, 1, x)
    ensures x == 1
  {
    assert 1 in multiset(keys);
    assert 1 in keys;
  }

  /** With a key 1 left over the keys are neither empty nor within those of the node "b". */
  lemma OnesAreLeft(c: Config<string>, keys: seq<Hash>, ones: nat, twos: nat)
    requires OnesAndTwos(keys, ones, twos) && ones > 0 && RingAt(c, [Member("b", 1)], 1) == []
    ensures keys != [] && !KeysWithin(c, [Member("b", 1)], keys)
  {
    assert 1 in multiset(keys);
    assert 1 in keys;
    RingLengths(c, [Member("b", 1)], 1);
    assert multiset(keys)[1] > Total(c, [Member("b", 1)], 1);
  }

  lemma NothingOfOneOrTwo()
    ensures OnesAndTwos([], 0, 0) && ByInitial("nx") == 1
  {
  }
}

/** The paths from the root of a tree to its nodes. */
module Paths {

  /** The path p continued by c. */
  ghost function Snoc<T>(p: seq<T>, c: T): (r: seq<T>)
    ensures |r| == |p| + 1
  {
    p + [c]
  }

  ghost predicate PrefixClosed<T(!new)>(paths: set<seq<T>>) {
    && [] in paths
    && (forall p, c :: Snoc(p, c) in paths ==> p in paths)
  }

  lemma SnocSlice<T>(s: seq<T>, i: nat)
    requires i < |s|
    ensures Snoc(s[..i], s[i]) == s[..i + 1]
  {
  }

  lemma SnocIsInjective<T>(p: seq<T>, c: T, q: seq<T>, d: T)
    ensures Snoc(p, c) == Snoc(q, d) <==> p == q && c == d
  {
    if Snoc(p, c) == Snoc(q, d) {
      assert p == Snoc(p, c)[..|p|] == Snoc(q, d)[..|q|] == q;
      assert c == Snoc(p, c)[|p|];
    }
  }

  lemma SnocThen<T>(p: seq<T>, c: T, q: seq<T>)
    ensures p + ([c] + q) == Snoc(p, c) + q
  {
  }

  lemma NothingBelow<T(!new)>(paths: set<seq<T>>, p: seq<T>)
    requires PrefixClosed(paths) && p !in paths
    ensures forall c :: Snoc(p, c) !in paths
  {
  }

  lemma PrefixClosedGrows<T(!new)>(paths: set<seq<T>>, p: seq<T>, c: T)
    requires PrefixClosed(paths) && p in paths
    ensures PrefixClosed(paths + {Snoc(p, c)})
  {
    forall q, d | Snoc(q, d) in paths + {Snoc(p, c)} ensures q in paths + {Snoc(p, c)} {
      SnocIsInjective(p, c, q, d);
    }
  }

  lemma {:induction false} PrefixIn<T(!new)>(paths: set<seq<T>>, p: seq<T>, q: seq<T>)
    requires PrefixClosed(paths) && p + q in paths
    ensures p in paths
    decreases |q|
  {
    if q == [] {
      assert p + q == p;
    } else {
      var n := |q| - 1;
      assert p + q == Snoc(p + q[..n], q[n]);
      PrefixIn(paths, p, q[..n]);
    }
  }

  lemma KeysGrow<K, V>(m: map<K, V>, k: K, v: V)
    ensures m[k := v].Keys == m.Keys + {k}
  {
  }
}

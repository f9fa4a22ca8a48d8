/** core/search/tree.go: the route tree and its backtracking search. */
module SearchTree {
  import opened Options
  import opened Paths
  import opened RouteSpec

  datatype AddError = NotFromRoot | EmptyItem | DupItem | DupSlash

  class Node<V> {
    var item: Option<V>
    var fixed: map<Token, Node<V>>       // children by tokens that match themselves
    var named: map<Token, Node<V>>       // children by tokens that match any
    ghost const path: Pattern

    constructor (item: Option<V>, ghost path: Pattern)
      ensures this.item == item && fixed == map[] && named == map[] && this.path == path
    {
      this.item, this.path := item, path;
      fixed, named := map[], map[];
    }

    function GetChildren(token: Token): (r: map<Token, Node<V>>)
      reads this`fixed, this`named
    {
      if IsNamed(token) then named else fixed
    }

    ghost predicate WellKeyed()
      reads this`fixed, this`named
    {
      (forall t :: t in fixed ==> t != "" && !IsNamed(t)) && (forall t :: t in named ==> IsNamed(t))
    }

    ghost function Child(token: Token): (r: Option<Node<V>>)
      reads this`fixed, this`named
    {
      var children := GetChildren(token);
      if token in children then Some(children[token]) else None
    }

    method PutChild(token: Token, child: Node<V>)
      requires WellKeyed() && token != ""
      modifies this`fixed, this`named
      ensures WellKeyed()
      ensures forall t :: Child(t) == if t == token then Some(child) else old(Child(t))
    {
      if IsNamed(token) {
        named := named[token := child];
      } else {
        fixed := fixed[token := child];
      }
    }
  }

  class Tree<V> {
    const root: Node<V>
    ghost var tree: map<Pattern, Node<V>>   // the nodes by their paths
    ghost var nodes: set<Node<V>>
    ghost var routes: map<Pattern, V>       // the routes added successfully, with their items

    ghost predicate Indexed()
      reads this`tree, this`nodes
    {
      && PrefixClosed(tree.Keys) && [] in tree && tree[[]] == root
      && (forall p :: p in tree ==> tree[p] in nodes && tree[p].path == p)
      && (forall n :: n in nodes ==> n.path in tree && tree[n.path] == n)
    }

    ghost function At(p: Pattern): (r: Option<Node<V>>)
      reads this`tree
    {
      if p in tree then Some(tree[p]) else None
    }

    /** A node's children are the nodes one token longer. */
    ghost predicate Branching()
      reads this`tree, this`nodes, nodes`fixed, nodes`named
    {
      && (forall n :: n in nodes ==> n.WellKeyed())
      && (forall n, t :: n in nodes ==> n.Child(t) == At(Snoc(n.path, t)))
    }

    ghost predicate Holding()
      reads this`routes, this`nodes, this`tree, nodes`item
    {
      routes.Keys <= tree.Keys &&
      forall n :: n in nodes ==> n.item == if n.path in routes then Some(routes[n.path]) else None
    }

    ghost predicate Valid()
      reads this`tree, this`nodes, this`routes, nodes`fixed, nodes`named, nodes`item
    {
      Indexed() && Branching() && Holding()
    }

    constructor ()
      ensures Valid() && routes == map[] && fresh(nodes)
    {
      root := new Node(None, []);
      new;
      tree, nodes, routes := map[[] := root], {root}, map[];
    }

    // ---- add ---------------------------------------------------------------------------------

    /** What a route does to the routes: nothing, unless it is well formed and new. */
    static ghost function AddResult(routes: map<Pattern, V>, p: Option<Pattern>, item: V)
      : (r: (map<Pattern, V>, Option<AddError>))
    {
      if p.None? then (routes, Some(DupSlash))
      else if p.value in routes then (routes, Some(DupItem))
      else (routes[p.value := item], None)
    }

    static ghost function Prepended(path: Pattern, p: Option<Pattern>): (r: Option<Pattern>) {
      if p.None? then None else Some(path + p.value)
    }

    method NewChild(nd: Node<V>, token: Token) returns (child: Node<V>)
      requires Valid() && nd in nodes && token != "" && token !in nd.GetChildren(token)
      modifies this`tree, this`nodes, nd`fixed, nd`named
      ensures Valid() && fresh(child) && nodes == old(nodes) + {child} && child.path == Snoc(nd.path, token)
      ensures child.path !in routes
    {
      hide Snoc, PrefixClosed, IsNamed, Node.GetChildren, Node.Child, Node.WellKeyed;
      NotYet(nd, token);
      child := new Node(None, Snoc(nd.path, token));
      NoChildren(child);
      nd.PutChild(token, child);
      PrefixClosedGrows(tree.Keys, nd.path, token);
      tree := tree[child.path := child];
      nodes := nodes + {child};
      assert tree.Keys == old(tree.Keys) + {child.path};
      assert Indexed();
      assert Holding();
      hide Indexed, Holding;
      assert forall n :: n in nodes ==> n.WellKeyed();
      forall n, t | n in nodes ensures n.Child(t) == At(Snoc(n.path, t)) {
        SnocIsInjective(n.path, t, nd.path, token);
      }
      hide Snoc, At;
    }

    lemma NotYet(nd: Node<V>, token: Token)
      requires Valid() && nd in nodes && token !in nd.GetChildren(token)
      ensures Snoc(nd.path, token) !in tree && nd.path in tree.Keys && nd.WellKeyed()
      ensures forall t :: Snoc(Snoc(nd.path, token), t) !in tree
    {
      assert nd.Child(token).None?;
      NothingBelow(tree.Keys, Snoc(nd.path, token));
    }

    static lemma NoChildren(n: Node<V>)
      requires n.fixed == map[] && n.named == map[]
      ensures n.WellKeyed() && forall t :: n.Child(t).None?
    {
    }

    method SetItem(nd: Node<V>, item: V)
      requires Valid() && nd in nodes && nd.path !in routes
      modifies nd`item, this`routes
      ensures Valid() && routes == old(routes)[nd.path := item]
    {
      nd.item := Some(item);
      routes := routes[nd.path := item];
    }

    lemma ChildOf(nd: Node<V>, t: Token)
      requires Valid() && nd in nodes && t in nd.GetChildren(t)
      ensures nd.GetChildren(t)[t] in nodes && nd.GetChildren(t)[t].path == Snoc(nd.path, t)
    {
    }

    method AddTo(nd: Node<V>, route: string, item: V) returns (err: Option<AddError>)
      requires Valid() && nd in nodes
      modifies this`tree, this`nodes, this`routes, nodes
      ensures Valid() && fresh(nodes - old(nodes))
      ensures (routes, err) == AddResult(old(routes), Prepended(nd.path, PatternOf(Split(route))), item)
      decreases |route|
    {
      hide Indexed, Branching, PrefixClosed, Snoc, PatternOf, IsNamed;
      if |route| == 0 {
        PatternOfEmpty(nd.path);
        if nd.item != None {
          return Some(DupItem);
        }
        SetItem(nd, item);
        return None;
      }
      if route[0] == SLASH {
        PatternOfToken(nd.path, route, 0);
        return Some(DupSlash);
      }
      for i := 0 to |route|
        invariant forall k :: 0 <= k < i ==> route[k] != SLASH
      {
        if route[i] != SLASH {
          continue;
        }
        var token := route[..i];
        PatternOfToken(nd.path, route, i);
        var children := nd.GetChildren(token);
        var child;
        if token in children {
          child := children[token];
          ChildOf(nd, token);
        } else {
          child := NewChild(nd, token);
        }
        err := AddTo(child, route[i + 1..], item);
        return;
      }
      PatternOfLast(nd.path, route);
      var children := nd.GetChildren(route);
      if route in children {
        var child := children[route];
        ChildOf(nd, route);
        if child.item != None {
          return Some(DupItem);
        }
        SetItem(child, item);
      } else {
        var child := NewChild(nd, route);
        SetItem(child, item);
      }
      err := None;
    }

    static lemma PatternOfEmpty(path: Pattern)
      ensures Prepended(path, PatternOf(Split(""))) == Some(path)
    {
      assert path + [] == path;
    }

    static lemma PatternOfToken(path: Pattern, route: string, i: nat)
      requires i < |route| && route[i] == SLASH && forall k :: 0 <= k < i ==> route[k] != SLASH
      ensures Prepended(path, PatternOf(Split(route)))
           == if i == 0 then None else Prepended(Snoc(path, route[..i]), PatternOf(Split(route[i + 1..])))
    {
      FirstSlashAt(route, i);
      var token, us := route[..i], Split(route[i + 1..]);
      PatternOfCons(token, us);
      SplitAt(route, i);
      if PatternOf(us).Some? {
        SnocThen(path, token, PatternOf(us).value);
      }
      hide Split, PatternOf, Snoc;
    }

    static lemma PatternOfLast(path: Pattern, route: string)
      requires route != "" && forall k :: 0 <= k < |route| ==> route[k] != SLASH
      ensures Prepended(path, PatternOf(Split(route))) == Some(Snoc(path, route))
    {
      FirstSlashAt(route, |route|);
      assert !EmptyInside([route]);
    }

    /** Adds the item for a route; a failed Add leaves the registered routes as they were. */
    method Add(route: string, item: Option<V>) returns (err: Option<AddError>)
      requires Valid()
      modifies this`tree, this`nodes, this`routes, nodes
      ensures Valid() && fresh(nodes - old(nodes))
      ensures (routes, err) == if route == "" || route[0] != SLASH then (old(routes), Some(NotFromRoot))
                               else if item.None? then (old(routes), Some(EmptyItem))
                               else AddResult(old(routes), PatternOf(Split(route[1..])), item.value)
      ensures err.Some? ==> routes == old(routes)
    {
      hide Indexed, Branching, Holding, Snoc, PatternOf;
      if |route| == 0 || route[0] != SLASH {
        return Some(NotFromRoot);
      }
      if item == None {
        return Some(EmptyItem);
      }
      RootIn();
      AtRoot(PatternOf(Split(route[1..])));
      err := AddTo(root, route[1..], item.value);
    }

    lemma RootIn()
      requires Valid()
      ensures root in nodes && root.path == []
    {
    }

    static lemma AtRoot(p: Option<Pattern>)
      ensures Prepended([], p) == p
    {
      assert p.Some? ==> [] + p.value == p.value;
    }

    // ---- search ------------------------------------------------------------------------------

    /** The closure that `next` hands to forEach, for the child v that n has for pattern k. */
    method TryChild(n: Node<V>, k: Token, v: Node<V>, route: string, i: nat)
      returns (found: bool, item: Option<V>, params: map<string, string>, ghost p: Pattern)
      requires Valid() && n in nodes && k in n.GetChildren(k) && v == n.GetChildren(k)[k]
      requires i == FirstSlash(route)
      ensures found ==> BestWith(routes, n.path, k, p, Split(route))
      ensures found ==>
                |p| < |Split(route)| && params == ParamsOf([k] + p, Split(route)) &&
                item == Some(routes[n.path + ([k] + p)])
      ensures !found ==> NothingWith(routes, n.path, k, Split(route))
      decreases |route|, 0
    {
      hide Indexed, Branching, PrefixClosed, Snoc, IsNamed;
      var token := route[..i];
      found, item, params, p := false, None, map[], [];
      ChildOf(n, k);
      if !TokenFits(k, token) {
        NoFit(n.path, k, Split(route));
        return;
      }
      if i < |route| {
        found, item, params, p := Next(v, route[i + 1..]);
        ThroughToken(n.path, k, p, route, i);
      } else if v.item != None {
        found, item := true, v.item;
        ThroughLast(n.path, k, route);
      } else {
        ThroughLast(n.path, k, route);
      }
      if found {
        ParamsCons(k, p, Split(route));
        params := Bound(params, k, token);
      }
    }

    lemma NoFit(path: Pattern, k: Token, query: seq<Token>)
      requires |query| > 0 && !TokenFits(k, query[0])
      ensures NothingWith(routes, path, k, query)
    {
      forall q | Registered(routes, path, [k] + q) ensures !Fits([k] + q, query) {
        FitsCons(k, q, query);
      }
    }

    lemma SplitToken(route: string, i: nat)
      requires i == FirstSlash(route) < |route|
      ensures Split(route)[0] == route[..i] && Split(route)[1..] == Split(route[i + 1..])
    {
      SplitAt(route, i);
      hide Split;
    }

    lemma SameBelow(path: Pattern, k: Token, q: Pattern, query: seq<Token>)
      requires |query| > 0 && TokenFits(k, query[0])
      ensures Registered(routes, path, [k] + q) <==> Registered(routes, Snoc(path, k), q)
      ensures Fits([k] + q, query) <==> Fits(q, query[1..])
      ensures path + ([k] + q) == Snoc(path, k) + q
    {
      SnocThen(path, k, q);
      FitsCons(k, q, query);
    }

    lemma ThroughToken(path: Pattern, k: Token, p: Pattern, route: string, i: nat)
      requires i == FirstSlash(route) < |route| && TokenFits(k, route[..i])
      ensures BestUnder(routes, Snoc(path, k), p, Split(route[i + 1..])) ==> BestWith(routes, path, k, p, Split(route))
      ensures NothingUnder(routes, Snoc(path, k), Split(route[i + 1..])) ==> NothingWith(routes, path, k, Split(route))
      ensures Split(route)[0] == route[..i] && Split(route)[1..] == Split(route[i + 1..])
      ensures path + ([k] + p) == Snoc(path, k) + p
    {
      hide Registered, Fits, Better, Snoc, Split;
      SplitToken(route, i);
      var query := Split(route);
      SameBelow(path, k, p, query);
      forall q | Registered(routes, path, [k] + q) && Fits([k] + q, query)
        ensures BestUnder(routes, Snoc(path, k), p, query[1..]) ==> !Better(q, p)
        ensures !NothingUnder(routes, Snoc(path, k), query[1..])
      {
        SameBelow(path, k, q, query);
      }
    }

    lemma ThroughLast(path: Pattern, k: Token, route: string)
      requires FirstSlash(route) == |route| && TokenFits(k, route)
      ensures Snoc(path, k) in routes ==> BestWith(routes, path, k, [], Split(route))
      ensures Snoc(path, k) !in routes ==> NothingWith(routes, path, k, Split(route))
      ensures Split(route) == [route] && route[..|route|] == route && path + ([k] + []) == Snoc(path, k)
    {
      var query := Split(route);
      assert query == [route];
      forall q ensures Fits([k] + q, query) ==> q == [] {
        FitsCons(k, q, query);
      }
      FitsCons(k, [], query);
      assert [k] + [] == [k] && path + [k] == Snoc(path, k);
    }

    method Next(n: Node<V>, route: string)
      returns (found: bool, item: Option<V>, params: map<string, string>, ghost p: Pattern)
      requires Valid() && n in nodes
      ensures found ==> BestUnder(routes, n.path, p, Split(route))
      ensures found ==> |p| <= |Split(route)| && params == ParamsOf(p, Split(route)) && item == Some(routes[n.path + p])
      ensures !found ==> NothingUnder(routes, n.path, Split(route))
      decreases |route|, 1
    {
      hide Indexed, Branching, PrefixClosed, Snoc, IsNamed, BestUnder, BestWith, NothingWith, NothingUnder;
      if |route| == 0 && n.item != None {
        OwnItem(n.path);
        return true, n.item, map[], [];
      }
      var i := 0;
      while i < |route| && route[i] != SLASH
        invariant i <= |route| && forall k :: 0 <= k < i ==> route[k] != SLASH
      {
        i := i + 1;
      }
      FirstSlashAt(route, i);
      found, item, params, p := false, None, map[], [];
      for g := 0 to 2
        invariant !found
        invariant g > 0 ==> forall t :: t in n.fixed ==> NothingWith(routes, n.path, t, Split(route))
        invariant g > 1 ==> forall t :: t in n.named ==> NothingWith(routes, n.path, t, Split(route))
      {
        var children := if g == 0 then n.fixed else n.named;
        var keys := children.Keys;
        while keys != {}
          invariant keys <= children.Keys && !found
          invariant forall t :: t in children && t !in keys ==> NothingWith(routes, n.path, t, Split(route))
          decreases keys
        {
          var k :| k in keys;
          keys := keys - {k};
          KeyOf(n, k);
          found, item, params, p := TryChild(n, k, children[k], route, i);
          if found {
            assert |[k] + p| == |p| + 1;
            FoundBest(n, k, p, route);
            p := [k] + p;
            return;
          }
        }
      }
      NothingLeft(n, route);
    }

    lemma OwnItem(path: Pattern)
      requires path in routes
      ensures BestUnder(routes, path, [], Split("")) && path + [] == path
    {
      assert path + [] == path;
      assert Split("") == [""];
    }

    lemma KeyOf(n: Node<V>, k: Token)
      requires Valid() && n in nodes
      ensures k in n.fixed ==> !IsNamed(k) && n.GetChildren(k) == n.fixed
      ensures k in n.named ==> IsNamed(k) && n.GetChildren(k) == n.named
    {
    }

    lemma UnknownToken(n: Node<V>, t: Token, query: seq<Token>)
      requires Valid() && n in nodes && t !in n.GetChildren(t)
      ensures NothingWith(routes, n.path, t, query)
    {
      hide Fits, Snoc;
      forall q ensures !Registered(routes, n.path, [t] + q) {
        if Registered(routes, n.path, [t] + q) {
          SnocThen(n.path, t, q);
          PrefixIn(tree.Keys, Snoc(n.path, t), q);
        }
      }
    }

    ghost predicate OwnItemTried(n: Node<V>, route: string)
      reads n`item
    {
      route == "" ==> n.item == None
    }

    lemma OnlyEmpty(route: string)
      requires Split(route) == [""]
      ensures route == ""
    {
    }

    lemma FoundBest(n: Node<V>, k: Token, p: Pattern, route: string)
      requires Valid() && n in nodes && OwnItemTried(n, route)
      requires BestWith(routes, n.path, k, p, Split(route))
      requires IsNamed(k) ==> forall t :: t in n.fixed ==> NothingWith(routes, n.path, t, Split(route))
      ensures BestUnder(routes, n.path, [k] + p, Split(route))
    {
      hide BestWith, BestUnder, NothingWith, Indexed, Branching;
      if Split(route) == [""] {
        OnlyEmpty(route);
      }
      forall t | IsNamed(k) && !IsNamed(t) ensures NothingWith(routes, n.path, t, Split(route)) {
        if t !in n.fixed {
          UnknownToken(n, t, Split(route));
        }
      }
      BestOverall(routes, n.path, k, p, Split(route));
    }

    lemma NothingLeft(n: Node<V>, route: string)
      requires Valid() && n in nodes && OwnItemTried(n, route)
      requires forall t :: t in n.fixed || t in n.named ==> NothingWith(routes, n.path, t, Split(route))
      ensures NothingUnder(routes, n.path, Split(route))
    {
      hide Indexed, Branching;
      forall q | Registered(routes, n.path, q) ensures !Fits(q, Split(route)) {
        if q == [] {
          assert n.path + q == n.path;
          if Split(route) == [""] {
            OnlyEmpty(route);
          }
        } else {
          assert q == [q[0]] + q[1..];
          if q[0] !in n.fixed && q[0] !in n.named {
            UnknownToken(n, q[0], Split(route));
          }
          assert NothingWith(routes, n.path, q[0], Split(route));
        }
      }
    }

    /** Finds an item exactly if some registered route fits the path; it is that of a best one, with its names bound. */
    method Search(route: string) returns (found: bool, item: Option<V>, params: map<string, string>)
      requires Valid()
      ensures found <==> route != "" && route[0] == SLASH && exists p :: p in routes && Fits(p, Split(route[1..]))
      ensures found ==> exists p :: IsBest(routes, p, Split(route[1..])) && item == Some(routes[p])
                                    && params == ParamsOf(p, Split(route[1..]))
    {
      if |route| == 0 || route[0] != SLASH {
        return false, None, map[];
      }
      hide Indexed, Branching, Holding, Split, Fits, IsBest, BestUnder, NothingUnder, ParamsOf;
      RootIn();
      ghost var p;
      found, item, params, p := Next(root, route[1..]);
      AtTop(p, Split(route[1..]));
    }

    lemma AtTop(p: Pattern, query: seq<Token>)
      ensures BestUnder(routes, [], p, query) ==> IsBest(routes, p, query) && p in routes && Fits(p, query)
      ensures NothingUnder(routes, [], query) ==> forall q :: q in routes ==> !Fits(q, query)
      ensures [] + p == p
    {
      hide Fits, Better;
      assert [] + p == p;
      forall q | q in routes ensures Registered(routes, [], q) {
        assert [] + q == q;
      }
    }
  }
}

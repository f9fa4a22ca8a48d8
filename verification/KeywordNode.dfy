/** core/stringx/node.go: the trie with fail links (Aho-Corasick) behind Trie and Replacer. */
module KeywordNode {
  import opened Options
  import opened Paths
  import opened KeywordSpec

  class Node {
    var children: map<char, Node>
    var fail: Node?
    var depth: nat
    var end: bool

    ghost var path: string               // the word spelled from the root to this node
    ghost var tree: map<string, Node>    // at a root: its nodes by path
    ghost var nodes: set<Node>           // at a root: its nodes
    ghost var words: set<string>         // at a root: the keywords added so far

    constructor ()
      ensures IsTrie() && fail == null && nodes == {this}
      ensures words == {}
    {
      children, fail, depth, end := map[], null, 0, false;
      path, words := "", {};
      tree, nodes := map[], {};
      new;
      tree, nodes := map["" := this], {this};
    }

    constructor Child(depth: nat, ghost path: string)
      ensures this.children == map[] && this.fail == null && this.depth == depth && !this.end
      ensures this.path == path
    {
      children, fail, end := map[], null, false;
      this.depth, this.path := depth, path;
      tree, nodes, words := map[], {}, {};
    }

    // ---- the trie --------------------------------------------------------------------------

    /** `tree` holds exactly this root's nodes, each under the word it stands for. */
    ghost predicate Indexed()
      reads this`tree, this`nodes, nodes`path, nodes`depth
    {
      && "" in tree && tree[""] == this
      && (forall p :: p in tree ==> tree[p] in nodes && tree[p].path == p)
      && (forall n :: n in nodes ==> n.path in tree && tree[n.path] == n && n.depth == |n.path|)
    }

    /** A node's children are the nodes one character longer. */
    ghost predicate Branching()
      reads this`tree, this`nodes, nodes`path, nodes`children
    {
      forall n, c :: n in nodes ==> n.ChildAt(c) == NodeAt(Snoc(n.path, c))
    }

    ghost function ChildAt(c: char): (r: Option<Node>)
      reads this`children
    {
      if c in children then Some(children[c]) else None
    }

    ghost function NodeAt(p: string): (r: Option<Node>)
      reads this`tree
    {
      if p in tree then Some(tree[p]) else None
    }

    /** The nodes marked as ends are those of the keywords; the empty word is none. */
    ghost predicate Marked()
      reads this`words, this`nodes, this`tree, nodes`path, nodes`end
    {
      words <= tree.Keys && "" !in words && forall n :: n in nodes ==> (n.end <==> n.path in words)
    }

    ghost predicate IsTrie()
      reads this`tree, this`nodes, this`words, nodes`path, nodes`depth, nodes`children, nodes`end
    {
      PrefixClosed(tree.Keys) && Indexed() && Branching() && Marked()
    }

    /** Every node but the root fails to the node of its longest proper suffix in the trie. */
    ghost predicate Linked()
      reads this, nodes
    {
      fail == null && forall n :: n in nodes && n != this ==> LinkedAt(n)
    }

    ghost predicate LinkedAt(n: Node)
      reads this`tree, n`path, n`fail
    {
      "" in tree && n.path != "" && n.fail == tree[FailPath(tree.Keys, n.path)]
    }

    lemma ChildOf(nd: Node, key: char)
      requires IsTrie() && nd in nodes && key in nd.children
      ensures nd.children[key] in nodes && nd.children[key].path == Snoc(nd.path, key)
    {
    }

    lemma LabelsOf(nd: Node)
      requires IsTrie() && nd in nodes
      ensures forall c :: c in nd.children.Keys <==> Snoc(nd.path, c) in tree
    {
    }

    lemma RootIn()
      requires IsTrie()
      ensures this in nodes && path == "" && "" in tree && words <= tree.Keys
      ensures PrefixClosed(tree.Keys)
    {
    }

    // ---- add -------------------------------------------------------------------------------

    method Add(word: string)
      requires IsTrie()
      modifies this, nodes
      ensures IsTrie() && fresh(nodes - old(nodes))
      ensures words == old(words) + (if word == "" then {} else {word})
      ensures fail == old(fail)
    {
      hide Snoc, PrefixClosed, Branching;
      if |word| == 0 {
        return;
      }
      var nd := this;
      var i := 0;
      while i < |word|
        invariant 0 <= i <= |word|
        invariant IsTrie() && fresh(nodes - old(nodes))
        invariant nd in nodes && nd.path == word[..i]
        invariant words == old(words) && fail == old(fail)
      {
        var key := word[i];
        SnocSlice(word, i);
        if key in nd.children {
          ChildOf(nd, key);
          nd := nd.children[key];
        } else {
          nd := AddChild(nd, key, i + 1);
        }
        i := i + 1;
      }
      assert word[..|word|] == word;
      words := words + {word};
      nd.end := true;
    }

    /** Hangs a fresh node under nd. */
    method AddChild(nd: Node, key: char, depth: nat) returns (child: Node)
      requires IsTrie() && nd in nodes && key !in nd.children && depth == |nd.path| + 1
      modifies this`tree, this`nodes, nd`children
      ensures IsTrie() && fresh(child) && nodes == old(nodes) + {child}
      ensures child.path == Snoc(nd.path, key)
      ensures words == old(words)
    {
      hide Snoc, PrefixClosed;
      NothingBelow(tree.Keys, Snoc(nd.path, key));
      PrefixClosedGrows(tree.Keys, nd.path, key);
      child := new Node.Child(depth, Snoc(nd.path, key));
      KeysGrow(tree, child.path, child);
      nd.children := nd.children[key := child];
      tree := tree[Snoc(nd.path, key) := child];
      nodes := nodes + {child};
      assert tree.Keys == old(tree.Keys) + {child.path};
      assert Indexed();
      assert Marked();
      hide Indexed, Marked;
      forall n, c | n in nodes ensures n.ChildAt(c) == NodeAt(Snoc(n.path, c)) {
        SnocIsInjective(n.path, c, nd.path, key);
      }
    }

    // ---- build -----------------------------------------------------------------------------

    ghost predicate QueueIs(queue: seq<Node>, paths: seq<string>)
      reads this`nodes, this`tree, nodes`path
    {
      |queue| == |paths| && forall i :: 0 <= i < |queue| ==> queue[i] in nodes && queue[i].path == paths[i]
    }

    ghost predicate AllLinked(paths: set<string>)
      reads this`nodes, this`tree, nodes`path, nodes`fail
    {
      forall n :: n in nodes && n.path in paths ==> LinkedAt(n)
    }

    lemma ShorterLinked(f: Search)
      requires IsTrie() && Frontier(tree.Keys, f) && AllLinked(f.reached)
      ensures forall n :: n in nodes && n != this && |n.path| <= |f.cur| ==> LinkedAt(n)
    {
      forall n | n in nodes && n != this && |n.path| <= |f.cur| ensures LinkedAt(n) {
        FrontierShorter(tree.Keys, f, n.path);
      }
    }

    /** Walks the fail links of nd until one of them has a child `key`. */
    method LinkChild(nd: Node, key: char, child: Node)
      requires IsTrie() && fail == null && nd in nodes && nd != this
      requires key in nd.children && child == nd.children[key]
      requires forall n :: n in nodes && n != this && |n.path| <= |nd.path| ==> LinkedAt(n)
      modifies child`fail
      ensures LinkedAt(child)
    {
      hide Snoc, PrefixClosed, FailPath, Goto;
      ghost var paths := tree.Keys;
      ChildOf(nd, key);
      ghost var target := FailPath(paths, child.path);
      ChildOf(nd, key);
      FailPathOfChild(paths, nd.path, key);
      var cur := nd;
      while true
        invariant cur in nodes && |cur.path| <= |nd.path| && child.fail == old(child.fail)
        invariant if cur == this then target == "" else target == Goto(paths, FailPath(paths, cur.path), key)
        decreases |cur.path|
      {
        if cur.fail == null {
          child.fail := this;
          break;
        }
        assert LinkedAt(cur);
        GotoStep(paths, cur.fail.path, key);
        LabelsOf(cur.fail);
        if key in cur.fail.children {
          ChildOf(cur.fail, key);
          child.fail := cur.fail.children[key];
          break;
        }
        cur := cur.fail;
      }
    }

    /** Links every node, breadth first. */
    method Build()
      requires IsTrie() && fail == null
      modifies nodes`fail
      ensures IsTrie() && Linked()
    {
      hide IsTrie, Frontier, LinkedAt, AllLinked, QueueIs;
      ghost var paths := tree.Keys;
      var queue: seq<Node>;
      ghost var f: Search;
      queue, f := LinkRootChildren();
      while |queue| > 0
        invariant IsTrie() && fail == null && paths == tree.Keys
        invariant Frontier(paths, f) && f.todo == {} && QueueIs(queue, f.queue) && AllLinked(f.reached)
        decreases paths - f.expanded
      {
        QueueHead(queue, f.queue);
        var nd := queue[0];
        queue, f := LinkChildren(nd, queue[1..], f);
      }
      AllReached(queue, f);
    }

    method LinkRootChildren() returns (queue: seq<Node>, ghost f: Search)
      requires IsTrie() && fail == null
      modifies nodes`fail
      ensures IsTrie() && fail == null
      ensures Frontier(tree.Keys, f) && f.todo == {} && QueueIs(queue, f.queue) && AllLinked(f.reached)
    {
      hide Snoc, PrefixClosed, FailPath, Frontier, IsTrie, LinkedAt;
      RootIn();
      LabelsOf(this);
      queue, f := [], Search([], {}, {""}, "", children.Keys);
      FrontierStarts(tree.Keys, f.todo);
      var todo := children.Keys;
      while todo != {}
        invariant Frontier(tree.Keys, f) && f.cur == "" && todo == f.todo <= children.Keys
        invariant QueueIs(queue, f.queue) && fail == null && AllLinked(f.reached)
        decreases todo
      {
        var key :| key in todo;
        var child := children[key];
        ChildOf(this, key);
        FrontierReaches(tree.Keys, f, key);
        UniquePath(child);
        child.fail := this;
        LinkedToRoot(child, key);
        queue := queue + [child];
        f := f.(queue := f.queue + [child.path], reached := f.reached + {child.path}, todo := f.todo - {key});
        todo := todo - {key};
      }
    }

    /** Links the children of the node just taken from the queue and queues them. */
    method LinkChildren(nd: Node, rest: seq<Node>, ghost f0: Search) returns (queue: seq<Node>, ghost f: Search)
      requires IsTrie() && fail == null && nd in nodes
      requires Frontier(tree.Keys, f0) && f0.todo == {} && f0.queue != [] && f0.queue[0] == nd.path
      requires QueueIs(rest, f0.queue[1..]) && AllLinked(f0.reached)
      modifies nodes`fail
      ensures IsTrie() && fail == null
      ensures Frontier(tree.Keys, f) && f.todo == {} && QueueIs(queue, f.queue) && AllLinked(f.reached)
      ensures f.expanded == f0.expanded + {nd.path} && nd.path !in f0.expanded
    {
      hide Snoc, PrefixClosed, FailPath, Frontier, IsTrie, LinkedAt, QueueIs;
      RootIn();
      LabelsOf(nd);
      FrontierPops(tree.Keys, f0, nd.children.Keys);
      queue := rest;
      f := Search(f0.queue[1..], f0.reached, f0.expanded + {nd.path}, nd.path, nd.children.Keys);
      var todo := nd.children.Keys;
      while todo != {}
        invariant Frontier(tree.Keys, f) && f.cur == nd.path && todo == f.todo <= nd.children.Keys
        invariant QueueIs(queue, f.queue) && fail == null && AllLinked(f.reached)
        invariant f.expanded == f0.expanded + {nd.path}
        decreases todo
      {
        var key :| key in todo;
        var child := nd.children[key];
        ChildOf(nd, key);
        QueueGrows(queue, f.queue, child);
        queue := queue + [child];
        FrontierReaches(tree.Keys, f, key);
        ShorterLinked(f);
        UniquePath(child);
        LinkChild(nd, key, child);
        f := f.(queue := f.queue + [child.path], reached := f.reached + {child.path}, todo := f.todo - {key});
        todo := todo - {key};
      }
    }

    lemma QueueGrows(queue: seq<Node>, paths: seq<string>, child: Node)
      requires QueueIs(queue, paths) && child in nodes
      ensures QueueIs(queue + [child], paths + [child.path])
    {
    }

    lemma QueueHead(queue: seq<Node>, paths: seq<string>)
      requires IsTrie() && QueueIs(queue, paths) && queue != []
      ensures queue[0].path in tree && paths != [] && queue[0] in nodes && queue[0].path == paths[0] &&
              QueueIs(queue[1..], paths[1..])
    {
    }

    lemma AllReached(queue: seq<Node>, f: Search)
      requires IsTrie() && fail == null && Frontier(tree.Keys, f) && f.todo == {}
      requires queue == [] && QueueIs(queue, f.queue) && AllLinked(f.reached)
      ensures Linked()
    {
      FrontierDone(tree.Keys, f);
    }

    lemma UniquePath(child: Node)
      requires IsTrie() && child in nodes
      ensures forall n :: n in nodes && n.path == child.path ==> n == child
    {
    }

    lemma LinkedToRoot(child: Node, key: char)
      requires IsTrie() && child.path == Snoc("", key)
      ensures child.fail == this ==> LinkedAt(child)
    {
      FailPathOfRootChild(tree.Keys, key);
    }

    // ---- find ------------------------------------------------------------------------------

    /** Every keyword occurrence in chars, each once. */
    method Find(chars: seq<char>) returns (scopes: seq<Scope>)
      requires IsTrie() && Linked()
      ensures scopes == Occurrences(words, chars, |chars|)
    {
      hide *;
      RootIn();
      ScanStarts(tree.Keys, words, chars);
      scopes := [];
      var cur := this;
      for i := 0 to |chars|
        invariant cur in nodes && cur.path == LongestSuffix(tree.Keys, chars[..i])
        invariant scopes == Occurrences(words, chars, i)
      {
        var child: Node?;
        ScanStep(tree.Keys, words, chars, i);
        cur, child := Advance(cur, chars[i]);
        if child == null {
          OutChainOfRoot(tree.Keys, words, i + 1);
          continue;
        }
        scopes := Collect(child, i + 1, scopes);
      }
    }

    /** Moves to the node for the longest suffix that can be extended by key; child is null if none can. */
    method Advance(from: Node, key: char) returns (cur: Node, child: Node?)
      requires IsTrie() && Linked() && from in nodes
      ensures cur in nodes && cur.path == Goto(tree.Keys, from.path, key)
      ensures child == if cur == this then null else cur
    {
      hide Snoc, PrefixClosed, FailPath, Goto;
      cur := from;
      GotoStep(tree.Keys, cur.path, key);
      LabelsOf(cur);
      child := null;
      if key in cur.children {
        ChildOf(cur, key);
        child := cur.children[key];
        cur := child;
      } else {
        while cur != this
          invariant cur in nodes && key !in cur.children && child == null
          invariant Goto(tree.Keys, from.path, key) == Goto(tree.Keys, cur.path, key)
          decreases |cur.path|
        {
          GotoStep(tree.Keys, cur.path, key);
          LabelsOf(cur);
          assert LinkedAt(cur);
          cur := cur.fail;
          if key in cur.children {
            GotoStep(tree.Keys, cur.path, key);
            LabelsOf(cur);
            ChildOf(cur, key);
            child := cur.children[key];
            cur := child;
            break;
          }
        }
        GotoStep(tree.Keys, this.path, key);
        LabelsOf(this);
      }
    }

    /** Appends the keywords met when following fail links from node. */
    method Collect(node: Node, stop: nat, found: seq<Scope>) returns (scopes: seq<Scope>)
      requires IsTrie() && Linked() && node in nodes && |node.path| <= stop
      ensures scopes == found + OutChain(tree.Keys, words, node.path, stop)
    {
      hide PrefixClosed, FailPath, Branching;
      scopes := found;
      var child := node;
      while child != this
        invariant child in nodes && |child.path| <= stop
        invariant scopes + OutChain(tree.Keys, words, child.path, stop)
               == found + OutChain(tree.Keys, words, node.path, stop)
        decreases |child.path|
      {
        assert LinkedAt(child);
        if child.end {
          scopes := scopes + [Scope(stop - child.depth, stop)];
        }
        child := child.fail;
      }
    }
  }
}

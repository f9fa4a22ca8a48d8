/** What core/stringx promises, said without tries: which keywords occur where in a text, and the
    suffix function that the fail links of the automaton have to compute. */
module KeywordSpec {
  import opened Paths

  /** The half-open range text[start..stop] of one keyword occurrence. */
  datatype Scope = Scope(start: nat, stop: nat)

  // ---- occurrences -------------------------------------------------------------------------

  ghost predicate Occurs(words: set<string>, text: string, s: Scope) {
    s.start < s.stop <= |text| && text[s.start..s.stop] in words
  }

  /** The occurrences that end at `stop` and start at `from` or later, longest first. */
  ghost function EndingAt(words: set<string>, text: string, stop: nat, from: nat): (r: seq<Scope>)
    requires from <= stop <= |text|
    decreases stop - from
  {
    if from == stop then []
    else (if text[from..stop] in words then [Scope(from, stop)] else []) + EndingAt(words, text, stop, from + 1)
  }

  /** The occurrences that end at n or earlier, by increasing end, longest first. */
  ghost function Occurrences(words: set<string>, text: string, n: nat): (r: seq<Scope>)
    requires n <= |text|
  {
    if n == 0 then [] else Occurrences(words, text, n - 1) + EndingAt(words, text, n, 0)
  }

  lemma {:induction false} EndingAtIsExact(words: set<string>, text: string, stop: nat, from: nat)
    requires from <= stop <= |text|
    ensures forall s ::
              s in EndingAt(words, text, stop, from) <==> Occurs(words, text, s) && s.stop == stop && from <= s.start
    ensures forall i, j :: 0 <= i < j < |EndingAt(words, text, stop, from)|
                           ==> EndingAt(words, text, stop, from)[i].start < EndingAt(words, text, stop, from)[j].start
    decreases stop - from
  {
    if from < stop {
      EndingAtIsExact(words, text, stop, from + 1);
      var rest := EndingAt(words, text, stop, from + 1);
      var all := EndingAt(words, text, stop, from);
      forall s ensures s in all <==> Occurs(words, text, s) && s.stop == stop && from <= s.start {
        assert s in all <==> (text[from..stop] in words && s == Scope(from, stop)) || s in rest;
      }
      forall k | 0 <= k < |rest| ensures from < rest[k].start {
        assert rest[k] in rest;
      }
    }
  }

  ghost predicate ListedBefore(a: Scope, b: Scope) {
    a.stop < b.stop || (a.stop == b.stop && a.start < b.start)
  }

  /** Occurrences lists exactly the keyword occurrences, each of them once, by their ends and then the longest first. */
  lemma {:induction false} OccurrencesAreExact(words: set<string>, text: string, n: nat)
    requires n <= |text|
    ensures forall s :: s in Occurrences(words, text, n) <==> Occurs(words, text, s) && s.stop <= n
    ensures forall i, j :: 0 <= i < j < |Occurrences(words, text, n)|
                           ==> ListedBefore(Occurrences(words, text, n)[i], Occurrences(words, text, n)[j])
  {
    if n > 0 {
      OccurrencesAreExact(words, text, n - 1);
      EndingAtIsExact(words, text, n, 0);
      var before, last := Occurrences(words, text, n - 1), EndingAt(words, text, n, 0);
      var all := Occurrences(words, text, n);
      forall s ensures s in all <==> Occurs(words, text, s) && s.stop <= n {
        assert s in all <==> s in before || s in last;
      }
      forall i, j | 0 <= i < j < |all| ensures ListedBefore(all[i], all[j]) {
        assert if i < |before| then all[i] in before else all[i] in last;
        assert if j < |before| then all[j] in before else all[j] in last;
      }
    }
  }

  // ---- longest suffixes --------------------------------------------------------------------

  /** The longest suffix of s that is a path. */
  ghost function LongestSuffix(paths: set<string>, s: string): (r: string)
    requires "" in paths
    ensures r in paths && |r| <= |s|
  {
    if s in paths then s else LongestSuffix(paths, s[1..])
  }

  /** LongestSuffix is what its name says, whatever the paths are. */
  lemma {:induction false} LongestSuffixIsLongest(paths: set<string>, s: string, k: nat)
    requires "" in paths && k <= |s|
    ensures var r := LongestSuffix(paths, s); r == s[|s| - |r|..] && (s[k..] in paths ==> |s| - k <= |r|)
  {
    if s !in paths {
      var rest := s[1..];
      LongestSuffixIsLongest(paths, rest, if k > 0 then k - 1 else 0);
      hide LongestSuffix;
      if k > 0 {
        assert s[k..] == rest[k - 1..];
      } else {
        assert s[k..] == s;
      }
    }
  }

  /** Where the fail link of path p has to lead: the longest proper suffix of p that is a path. */
  ghost function FailPath(paths: set<string>, p: string): (r: string)
    requires "" in paths && p != ""
    ensures r in paths && |r| < |p|
  {
    LongestSuffix(paths, p[1..])
  }

  /** Following fail links from q until a path can be extended by c. */
  ghost function Goto(paths: set<string>, q: string, c: char): (r: string)
    requires "" in paths
    ensures r in paths
    decreases |q|
  {
    if Snoc(q, c) in paths then Snoc(q, c)
    else if q == "" then ""
    else Goto(paths, FailPath(paths, q), c)
  }

  lemma {:induction false} SuffixOfSuffix(paths: set<string>, s: string, c: char)
    requires PrefixClosed(paths)
    ensures LongestSuffix(paths, Snoc(s, c)) == LongestSuffix(paths, Snoc(LongestSuffix(paths, s), c))
  {
    if s !in paths {
      assert Snoc(s, c)[1..] == Snoc(s[1..], c);
      SuffixOfSuffix(paths, s[1..], c);
    }
  }

  lemma {:induction false} GotoFromPath(paths: set<string>, q: string, c: char)
    requires PrefixClosed(paths) && q in paths
    ensures Goto(paths, q, c) == LongestSuffix(paths, Snoc(q, c))
    decreases |q|
  {
    if Snoc(q, c) !in paths {
      if q == "" {
        assert Snoc(q, c)[1..] == "";
      } else {
        assert Snoc(q, c)[1..] == Snoc(q[1..], c);
        SuffixOfSuffix(paths, q[1..], c);
        GotoFromPath(paths, FailPath(paths, q), c);
      }
    }
  }

  /** Extending the longest suffix along fail links yields the longest suffix of the longer text. */
  lemma GotoIsLongestSuffix(paths: set<string>, s: string, c: char)
    requires PrefixClosed(paths)
    ensures Goto(paths, LongestSuffix(paths, s), c) == LongestSuffix(paths, Snoc(s, c))
  {
    SuffixOfSuffix(paths, s, c);
    GotoFromPath(paths, LongestSuffix(paths, s), c);
  }

  // ---- breadth-first order -----------------------------------------------------------------

  /** A breadth-first search over the paths: `todo` are the labels below `cur` not followed yet. */
  datatype Search = Search(queue: seq<string>, reached: set<string>, expanded: set<string>, cur: string,
                           todo: set<char>)

  ghost predicate Frontier(paths: set<string>, f: Search) {
    && f.expanded <= paths && f.reached <= paths && f.cur in f.expanded && "" !in f.reached && "" in f.expanded
    && (forall c :: c in f.todo ==> Snoc(f.cur, c) in paths)
    && (forall p, c :: p in f.expanded && Snoc(p, c) in paths ==>
                         Snoc(p, c) in f.reached || (p == f.cur && c in f.todo))
    && (forall p, c :: Snoc(p, c) in f.reached ==> p in f.expanded && !(p == f.cur && c in f.todo))
    && (forall p :: p in f.reached <==> p in f.queue || (p in f.expanded && p != ""))
    && (forall p :: p in f.queue ==> p !in f.expanded)
    && ByLength(f.queue, f.cur)
  }

  /** The queue is duplicate-free and in the order of length, with at most one character more than `cur` has. */
  ghost predicate ByLength(queue: seq<string>, cur: string) {
    && (forall i, j :: 0 <= i < j < |queue| ==> queue[i] != queue[j])
    && (forall i, j :: 0 <= i < j < |queue| ==> |queue[i]| <= |queue[j]|)
    && (forall p :: p in queue ==> |cur| <= |p| <= |cur| + 1)
  }

  lemma FrontierStarts(paths: set<string>, labels: set<char>)
    requires "" in paths && forall c :: c in labels <==> Snoc("", c) in paths
    ensures Frontier(paths, Search([], {}, {""}, "", labels))
  {
  }

  lemma FrontierReaches(paths: set<string>, f: Search, c: char)
    requires Frontier(paths, f) && c in f.todo
    ensures var p := Snoc(f.cur, c);
            p !in f.reached && Frontier(paths,
                                        f.(queue := f.queue + [p], reached := f.reached + {p}, todo := f.todo - {c}))
  {
    var p := Snoc(f.cur, c);
    var g := f.(queue := f.queue + [p], reached := f.reached + {p}, todo := f.todo - {c});
    assert p !in f.expanded by {
      assert p != "";
    }
    forall q, d | Snoc(q, d) in g.reached ensures q in g.expanded && !(q == g.cur && d in g.todo) {
      SnocIsInjective(f.cur, c, q, d);
    }
  }

  lemma FrontierPops(paths: set<string>, f: Search, labels: set<char>)
    requires Frontier(paths, f) && f.todo == {} && f.queue != []
    requires forall c :: c in labels <==> Snoc(f.queue[0], c) in paths
    ensures f.queue[0] !in f.expanded && f.queue[0] != ""
    ensures Frontier(paths, Search(f.queue[1..], f.reached, f.expanded + {f.queue[0]}, f.queue[0], labels))
  {
    var w, rest := f.queue[0], f.queue[1..];
    PopByLength(f.queue, f.cur);
    hide ByLength;
    forall p ensures p in f.queue <==> p == w || p in rest {
      assert f.queue == [w] + rest;
    }
  }

  lemma PopByLength(queue: seq<string>, cur: string)
    requires ByLength(queue, cur) && queue != []
    ensures ByLength(queue[1..], queue[0]) && queue[0] !in queue[1..]
  {
    var rest := queue[1..];
    forall p | p in rest ensures |queue[0]| <= |p| <= |queue[0]| + 1 && p != queue[0] {
      var i :| 0 <= i < |rest| && rest[i] == p;
      assert queue[i + 1] == p;
    }
  }

  /** Everything at least as short as the node being expanded has been reached. */
  lemma {:induction false} FrontierShorter(paths: set<string>, f: Search, p: string)
    requires PrefixClosed(paths) && Frontier(paths, f)
    requires p in paths && p != "" && (|p| <= |f.cur| || (f.queue == [] && f.todo == {}))
    ensures p in f.reached
    decreases |p|
  {
    var q, c := p[..|p| - 1], p[|p| - 1];
    assert Snoc(q, c) == p;
    if q != "" {
      FrontierShorter(paths, f, q);
    }
  }

  lemma FrontierDone(paths: set<string>, f: Search)
    requires PrefixClosed(paths) && Frontier(paths, f) && f.queue == [] && f.todo == {}
    ensures forall p :: p in paths && p != "" ==> p in f.reached
  {
    forall p | p in paths && p != "" ensures p in f.reached {
      FrontierShorter(paths, f, p);
    }
  }

  lemma GotoStep(paths: set<string>, q: string, c: char)
    requires "" in paths
    ensures Goto(paths, q, c) == if Snoc(q, c) in paths then Snoc(q, c)
                                 else if q == "" then "" else Goto(paths, FailPath(paths, q), c)
  {
  }

  lemma FailPathOfRootChild(paths: set<string>, c: char)
    requires "" in paths
    ensures FailPath(paths, Snoc("", c)) == ""
  {
    assert Snoc("", c)[1..] == "";
  }

  lemma FailPathOfChild(paths: set<string>, w: string, c: char)
    requires PrefixClosed(paths) && w != ""
    ensures FailPath(paths, Snoc(w, c)) == Goto(paths, FailPath(paths, w), c)
  {
    assert Snoc(w, c)[1..] == Snoc(w[1..], c);
    GotoIsLongestSuffix(paths, w[1..], c);
  }

  // ---- the scan ----------------------------------------------------------------------------

  /** What the scan emits at `stop` when it follows fail links from path p. */
  ghost function OutChain(paths: set<string>, words: set<string>, p: string, stop: nat): (r: seq<Scope>)
    requires "" in paths && |p| <= stop
    decreases |p|
  {
    if p == "" then []
    else (if p in words then [Scope(stop - |p|, stop)] else []) + OutChain(paths, words, FailPath(paths, p), stop)
  }

  /** Following fail links from the longest suffix meets every keyword that ends here, longest first. */
  lemma {:induction false} OutChainIsEndingAt(paths: set<string>, words: set<string>, text: string, stop: nat,
                                              from: nat)
    requires "" in paths && words <= paths
    requires from <= stop <= |text|
    ensures OutChain(paths, words, LongestSuffix(paths, text[from..stop]), stop) == EndingAt(words, text, stop, from)
    decreases stop - from
  {
    if from == stop {
      assert text[from..stop] == "";
    } else {
      assert text[from..stop][1..] == text[from + 1..stop];
      OutChainIsEndingAt(paths, words, text, stop, from + 1);
    }
  }

  /** One step of the scan: where it moves and what it has to emit there. */
  lemma ScanStep(paths: set<string>, words: set<string>, text: string, i: nat)
    requires PrefixClosed(paths) && words <= paths && i < |text|
    ensures LongestSuffix(paths, text[..i + 1]) == Goto(paths, LongestSuffix(paths, text[..i]), text[i])
    ensures Occurrences(words, text, i + 1)
         == Occurrences(words, text, i) + OutChain(paths, words, LongestSuffix(paths, text[..i + 1]), i + 1)
  {
    SnocSlice(text, i);
    GotoIsLongestSuffix(paths, text[..i], text[i]);
    assert text[0..i + 1] == text[..i + 1];
    OutChainIsEndingAt(paths, words, text, i + 1, 0);
  }

  lemma ScanStarts(paths: set<string>, words: set<string>, text: string)
    requires "" in paths
    ensures LongestSuffix(paths, text[..0]) == "" && Occurrences(words, text, 0) == []
  {
    assert text[..0] == "";
  }

  lemma OutChainOfRoot(paths: set<string>, words: set<string>, stop: nat)
    requires "" in paths
    ensures OutChain(paths, words, "", stop) == []
  {
  }
}

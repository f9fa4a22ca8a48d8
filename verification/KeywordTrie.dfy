/** core/stringx/trie.go and core/stringx/replacer.go: masking and replacing the keywords of a text. */
module KeywordTrie {
  import opened KeywordSpec
  import opened KeywordNode
  import opened Sorting

  const DEFAULT_MASK: char := '*'
  const REPLACE_TIMES: nat := 2

  // ---- what masking and replacing mean -------------------------------------------------------

  ghost predicate Covered(words: set<string>, text: string, i: nat) {
    exists s: Scope :: Occurs(words, text, s) && s.start <= i < s.stop
  }

  /** Exactly the positions inside some keyword occurrence carry the mask. */
  ghost predicate IsMasked(words: set<string>, text: string, mask: char, sentence: string) {
    && |sentence| == |text|
    && forall i :: 0 <= i < |text| ==> sentence[i] == if Covered(words, text, i) then mask else text[i]
  }

  /** A duplicate-free list of exactly the keywords that occur. */
  ghost predicate ListsKeywords(words: set<string>, text: string, keywords: seq<string>) {
    && (forall w :: w in keywords <==> exists s: Scope :: Occurs(words, text, s) && text[s.start..s.stop] == w)
    && (forall i, j :: 0 <= i < j < |keywords| ==> keywords[i] != keywords[j])
  }

  /** The length of the longest keyword of at most n characters that starts at i; 0 if none does. */
  ghost function LongestAt(words: set<string>, text: string, i: nat, n: nat): (len: nat)
    requires i + n <= |text|
    ensures len <= n
    ensures len > 0 ==> text[i..i + len] in words
  {
    if n == 0 then 0 else if text[i..i + n] in words then n else LongestAt(words, text, i, n - 1)
  }

  /** The leftmost-longest rewrite of text[i..]. */
  ghost function Rewrite(mapping: map<string, string>, text: string, i: nat): (r: string)
    requires i <= |text|
    decreases |text| - i
  {
    if i == |text| then ""
    else
      var n := LongestAt(mapping.Keys, text, i, |text| - i);
      if n > 0 then mapping[text[i..i + n]] + Rewrite(mapping, text, i + n)
      else [text[i]] + Rewrite(mapping, text, i + 1)
  }

  lemma {:induction false} LongestAtIsLongest(words: set<string>, text: string, i: nat, n: nat, m: nat)
    requires i + n <= |text| && 0 < m <= n && text[i..i + m] in words
    ensures LongestAt(words, text, i, n) >= m
  {
    if text[i..i + n] !in words {
      LongestAtIsLongest(words, text, i, n - 1, m);
    }
  }

  /** Text in which no keyword starts is copied. */
  lemma {:induction false} RewriteCopies(mapping: map<string, string>, text: string, i: nat, j: nat)
    requires i <= j <= |text|
    requires forall s :: Occurs(mapping.Keys, text, s) ==> s.start < i || j <= s.start
    ensures Rewrite(mapping, text, i) == text[i..j] + Rewrite(mapping, text, j)
    decreases j - i
  {
    if i < j {
      var n := LongestAt(mapping.Keys, text, i, |text| - i);
      assert n > 0 ==> Occurs(mapping.Keys, text, Scope(i, i + n));
      RewriteCopies(mapping, text, i + 1, j);
      assert text[i..j] == [text[i]] + text[i + 1..j];
    }
  }

  /** A keyword that no longer one shares its start with is replaced. */
  lemma RewriteReplaces(mapping: map<string, string>, text: string, s: Scope)
    requires Occurs(mapping.Keys, text, s)
    requires forall t :: Occurs(mapping.Keys, text, t) && t.start == s.start ==> t.stop <= s.stop
    ensures Rewrite(mapping, text, s.start) == mapping[text[s.start..s.stop]] + Rewrite(mapping, text, s.stop)
  {
    var n := LongestAt(mapping.Keys, text, s.start, |text| - s.start);
    LongestAtIsLongest(mapping.Keys, text, s.start, |text| - s.start, s.stop - s.start);
    assert Occurs(mapping.Keys, text, Scope(s.start, s.start + n));
  }

  lemma RewriteEnds(mapping: map<string, string>, text: string)
    ensures Rewrite(mapping, text, |text|) == ""
  {
  }

  /** Without a keyword in it a text is its own rewrite. */
  lemma RewriteWithoutKeywords(mapping: map<string, string>, text: string)
    requires forall s :: !Occurs(mapping.Keys, text, s)
    ensures Rewrite(mapping, text, 0) == text
  {
    RewriteCopies(mapping, text, 0, |text|);
    assert text[0..|text|] + "" == text;
  }

  ghost function RewriteTimes(mapping: map<string, string>, text: string, n: nat): (r: string)
    decreases n
  {
    if n == 0 then text else RewriteTimes(mapping, Rewrite(mapping, text, 0), n - 1)
  }

  lemma RewriteTwice(mapping: map<string, string>, text: string)
    ensures RewriteTimes(mapping, text, 2) == Rewrite(mapping, Rewrite(mapping, text, 0), 0)
  {
    hide Rewrite;
  }

  lemma {:induction false} RewriteTimesFixed(mapping: map<string, string>, text: string, n: nat)
    requires Rewrite(mapping, text, 0) == text
    ensures RewriteTimes(mapping, text, n) == text
  {
    if n > 0 {
      RewriteTimesFixed(mapping, text, n - 1);
    }
  }

  // ---- trie.go ---------------------------------------------------------------------------------

  class Trie {
    const root: Node
    const mask: char

    ghost predicate Ready()
      reads this, root, root.nodes
    {
      root.IsTrie() && root.Linked()
    }

    /** A mask of '\0' stands for the option not being given. */
    constructor (words: seq<string>, mask: char)
      ensures Ready() && fresh(root) && fresh(root.nodes)
      ensures this.mask == if mask == '\0' then DEFAULT_MASK else mask
      ensures root.words == (set w | w in words && w != "")
    {
      var n := new Node();
      for i := 0 to |words|
        invariant n.IsTrie() && n.fail == null && fresh(n) && fresh(n.nodes)
        invariant n.words == (set w | w in words[..i] && w != "")
      {
        n.Add(words[i]);
      }
      n.Build();
      assert words[..|words|] == words;
      root := n;
      this.mask := if mask == '\0' then DEFAULT_MASK else mask;
    }

    method Filter(text: string) returns (sentence: string, keywords: seq<string>, found: bool)
      requires Ready()
      ensures IsMasked(root.words, text, mask, sentence)
      ensures ListsKeywords(root.words, text, keywords)
      ensures found <==> exists s :: Occurs(root.words, text, s)
    {
      if |text| == 0 {
        return text, [], false;
      }
      var chars := new char[|text|](i requires 0 <= i < |text| => text[i]);
      assert chars[..] == text;
      var scopes := root.Find(chars[..]);
      OccurrencesAreExact(root.words, text, |text|);
      keywords := CollectKeywords(text, scopes);
      MaskScopes(chars, scopes);
      CoveredByIsCovered(root.words, text, scopes);
      sentence := chars[..];
      found := |keywords| > 0;
      if found {
        assert keywords[0] in keywords;
      } else {
        assert forall s :: Occurs(root.words, text, s) ==> text[s.start..s.stop] in keywords;
      }
    }

    method MaskScopes(chars: array<char>, scopes: seq<Scope>)
      requires forall s :: s in scopes ==> s.start <= s.stop <= chars.Length
      modifies chars
      ensures forall k :: 0 <= k < chars.Length ==> chars[k] == if CoveredBy(scopes, k) then mask else old(chars[k])
    {
      for i := 0 to |scopes|
        invariant forall k :: 0 <= k < chars.Length ==>
                                chars[k] == if CoveredBy(scopes[..i], k) then mask else old(chars[k])
      {
        ReplaceWithAsterisk(chars, scopes[i].start, scopes[i].stop);
        CoveredByMore(scopes, i);
      }
      assert scopes[..|scopes|] == scopes;
    }

    method FindKeywords(text: string) returns (keywords: seq<string>)
      requires Ready()
      ensures ListsKeywords(root.words, text, keywords)
    {
      if |text| == 0 {
        return [];
      }
      var scopes := root.Find(text);
      OccurrencesAreExact(root.words, text, |text|);
      keywords := CollectKeywords(text, scopes);
    }

    method ReplaceWithAsterisk(chars: array<char>, start: nat, stop: nat)
      requires start <= stop <= chars.Length
      modifies chars
      ensures forall k :: 0 <= k < chars.Length ==> chars[k] == if start <= k < stop then mask else old(chars[k])
    {
      for i := start to stop
        invariant forall k :: 0 <= k < chars.Length ==> chars[k] == if start <= k < i then mask else old(chars[k])
      {
        chars[i] := mask;
      }
    }
  }

  ghost predicate CoveredBy(scopes: seq<Scope>, k: int) {
    exists s :: s in scopes && s.start <= k < s.stop
  }

  lemma CoveredByIsCovered(words: set<string>, text: string, scopes: seq<Scope>)
    requires forall s :: s in scopes <==> Occurs(words, text, s)
    ensures forall k: nat :: CoveredBy(scopes, k) <==> Covered(words, text, k)
  {
  }

  lemma CoveredByMore(scopes: seq<Scope>, i: nat)
    requires i < |scopes|
    ensures forall k ::
              CoveredBy(scopes[..i + 1], k) <==> CoveredBy(scopes[..i], k) || scopes[i].start <= k < scopes[i].stop
  {
    assert scopes[..i + 1] == scopes[..i] + [scopes[i]];
    forall k
      ensures CoveredBy(scopes[..i + 1], k) <==> CoveredBy(scopes[..i], k) || scopes[i].start <= k < scopes[i].stop
    {
      if scopes[i].start <= k < scopes[i].stop {
        assert scopes[i] in scopes[..i + 1];
      }
    }
  }

  /** The distinct texts of the scopes, in any order. */
  method CollectKeywords(chars: string, scopes: seq<Scope>) returns (keywords: seq<string>)
    requires forall s :: s in scopes ==> s.start <= s.stop <= |chars|
    ensures forall w :: w in keywords <==> exists s :: s in scopes && chars[s.start..s.stop] == w
    ensures forall i, j :: 0 <= i < j < |keywords| ==> keywords[i] != keywords[j]
  {
    var found: set<string> := {};
    for i := 0 to |scopes|
      invariant forall w :: w in found <==> exists s :: s in scopes[..i] && chars[s.start..s.stop] == w
    {
      assert scopes[..i + 1] == scopes[..i] + [scopes[i]];
      found := found + {chars[scopes[i].start..scopes[i].stop]};
    }
    assert scopes[..|scopes|] == scopes;
    keywords := [];
    ghost var all := found;
    while found != {}
      invariant forall w :: w in all <==> w in keywords || w in found
      invariant forall w :: w in keywords ==> w !in found
      invariant forall i, j :: 0 <= i < j < |keywords| ==> keywords[i] != keywords[j]
    {
      var w :| w in found;
      keywords := keywords + [w];
      found := found - {w};
    }
  }

  // ---- replacer.go -----------------------------------------------------------------------------

  /** By start, longest first. */
  predicate NotAfter(a: Scope, b: Scope) {
    a.start < b.start || (a.start == b.start && a.stop >= b.stop)
  }

  lemma SameElements(a: seq<Scope>, b: seq<Scope>)
    requires multiset(a) == multiset(b)
    ensures forall s :: s in a <==> s in b
  {
    forall s ensures s in a <==> s in b {
      assert s in a <==> s in multiset(a);
      assert s in b <==> s in multiset(b);
    }
  }

  /** The empty keyword never occurs. */
  lemma SameOccurrences(words: set<string>, text: string)
    ensures forall s :: Occurs(words, text, s) <==> Occurs(words - {""}, text, s)
  {
  }

  class Replacer {
    const root: Node
    const mapping: map<string, string>

    ghost predicate Ready()
      reads this, root, root.nodes
    {
      root.IsTrie() && root.Linked() && root.words == mapping.Keys - {""}
    }

    constructor (mapping: map<string, string>)
      ensures Ready() && fresh(root) && fresh(root.nodes)
      ensures this.mapping == mapping
    {
      var n := new Node();
      var todo := mapping.Keys;
      while todo != {}
        invariant todo <= mapping.Keys
        invariant n.IsTrie() && n.fail == null && fresh(n) && fresh(n.nodes)
        invariant n.words == mapping.Keys - todo - {""}
      {
        var k :| k in todo;
        n.Add(k);
        todo := todo - {k};
      }
      n.Build();
      root := n;
      this.mapping := mapping;
    }

    /** Runs the rewrite twice; the second run matters only if the first one found a keyword. */
    method Replace(text: string) returns (r: string)
      requires Ready()
      ensures r == RewriteTimes(mapping, text, REPLACE_TIMES)
      ensures r == Rewrite(mapping, Rewrite(mapping, text, 0), 0)
    {
      RewriteTwice(mapping, text);
      hide Rewrite;
      r := text;
      for i := 0 to REPLACE_TIMES
        invariant RewriteTimes(mapping, r, REPLACE_TIMES - i) == RewriteTimes(mapping, text, REPLACE_TIMES)
      {
        var replaced: bool;
        ghost var before := r;
        r, replaced := DoReplace(r);
        if !replaced {
          RewriteWithoutKeywords(mapping, before);
          RewriteTimesFixed(mapping, r, REPLACE_TIMES - i);
          return;
        }
      }
    }

    method DoReplace(text: string) returns (r: string, replaced: bool)
      requires Ready()
      ensures r == Rewrite(mapping, text, 0)
      ensures replaced <==> exists s :: Occurs(mapping.Keys, text, s)
    {
      var found := root.Find(text);
      OccurrencesAreExact(root.words, text, |text|);
      SameOccurrences(mapping.Keys, text);
      if |found| == 0 {
        RewriteWithoutKeywords(mapping, text);
        return text, false;
      }
      assert found[0] in found;
      var scopes := Sort(NotAfter, found);
      SameElements(scopes, found);
      r := RewriteScopes(text, scopes);
      replaced := true;
    }

    method RewriteScopes(text: string, scopes: seq<Scope>) returns (buf: string)
      requires SortedBy(NotAfter, scopes) && forall s :: Occurs(mapping.Keys, text, s) <==> s in scopes
      ensures buf == Rewrite(mapping, text, 0)
    {
      hide Rewrite, SortedBy;
      buf := "";
      var index := 0;
      for i := 0 to |scopes|
        invariant 0 <= index <= |text|
        invariant forall s :: s in scopes && s.start >= index ==> s in scopes[i..]
        invariant buf + Rewrite(mapping, text, index) == Rewrite(mapping, text, 0)
      {
        var scp := scopes[i];
        LaterScopes(scopes, i, index);
        if scp.start < index {
          continue;
        }
        assert Occurs(mapping.Keys, text, scp);
        RewriteCopies(mapping, text, index, scp.start);
        RewriteReplaces(mapping, text, scp);
        buf := buf + text[index..scp.start];
        buf := buf + mapping[text[scp.start..scp.stop]];
        index := scp.stop;
      }
      RewriteCopies(mapping, text, index, |text|);
      RewriteEnds(mapping, text);
      if index < |text| {
        buf := buf + text[index..];
      }
    }
  }

  /** What scope i tells about the scopes that start at index or later. */
  lemma LaterScopes(scopes: seq<Scope>, i: nat, index: int)
    requires SortedBy(NotAfter, scopes) && i < |scopes|
    requires forall s :: s in scopes && s.start >= index ==> s in scopes[i..]
    ensures forall s :: s in scopes && s.start >= index ==> s == scopes[i] || s in scopes[i + 1..]
    ensures forall s :: s in scopes && s.start >= index ==> NotAfter(scopes[i], s)
  {
    assert scopes[i..] == [scopes[i]] + scopes[i + 1..];
  }
}

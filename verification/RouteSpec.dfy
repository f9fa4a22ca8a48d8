/** What the search tree of core/search/tree.go promises: routes as token lists, and which of them a path fits. */
module RouteSpec {
  import opened Options

  type Token = string
  type Pattern = seq<Token>

  const COLON := ':'
  const SLASH := '/'

  // ---- splitting -------------------------------------------------------------------------------

  function FirstSlash(s: string): (i: nat)
    ensures i <= |s|
    ensures i < |s| ==> s[i] == SLASH
  {
    if s == "" || s[0] == SLASH then 0 else 1 + FirstSlash(s[1..])
  }

  lemma {:induction false} FirstSlashAt(s: string, i: nat)
    requires i <= |s| && (forall k :: 0 <= k < i ==> s[k] != SLASH) && (i < |s| ==> s[i] == SLASH)
    ensures FirstSlash(s) == i
  {
    if i > 0 {
      FirstSlashAt(s[1..], i - 1);
    }
  }

  /** The tokens between the slashes; one more than there are slashes. */
  function Split(s: string): (ts: seq<Token>)
    ensures |ts| > 0
    decreases |s|
  {
    var i := FirstSlash(s);
    if i == |s| then [s] else [s[..i]] + Split(s[i + 1..])
  }

  lemma SplitAt(s: string, i: nat)
    requires i == FirstSlash(s) < |s|
    ensures Split(s) == [s[..i]] + Split(s[i + 1..])
    ensures Split(s)[0] == s[..i] && Split(s)[1..] == Split(s[i + 1..])
  {
    hide FirstSlash;
    HeadAndTail(s[..i], Split(s[i + 1..]));
  }

  lemma HeadAndTail(t: Token, ts: seq<Token>)
    ensures ([t] + ts)[0] == t && ([t] + ts)[1..] == ts
  {
  }

  function Join(ts: seq<Token>): (r: string)
    requires |ts| > 0
  {
    if |ts| == 1 then ts[0] else ts[0] + [SLASH] + Join(ts[1..])
  }

  ghost predicate NoSlash(t: Token) {
    forall k :: 0 <= k < |t| ==> t[k] != SLASH
  }

  lemma {:induction false} BeforeFirstSlash(s: string)
    ensures NoSlash(s[..FirstSlash(s)])
  {
    if s != "" && s[0] != SLASH {
      BeforeFirstSlash(s[1..]);
      assert s[..FirstSlash(s)] == [s[0]] + s[1..][..FirstSlash(s[1..])];
    }
  }

  /** Split and Join are inverse. */
  lemma {:induction false} SplitJoins(s: string)
    ensures Join(Split(s)) == s && forall j :: 0 <= j < |Split(s)| ==> NoSlash(Split(s)[j])
    decreases |s|
  {
    var i := FirstSlash(s);
    BeforeFirstSlash(s);
    if i < |s| {
      SplitJoins(s[i + 1..]);
      assert s == s[..i] + [SLASH] + s[i + 1..];
      assert Split(s)[1..] == Split(s[i + 1..]);
    } else {
      assert s[..i] == s;
    }
  }

  lemma {:induction false} JoinSplits(ts: seq<Token>)
    requires |ts| > 0 && forall j :: 0 <= j < |ts| ==> NoSlash(ts[j])
    ensures Split(Join(ts)) == ts
  {
    var s := Join(ts);
    if |ts| == 1 {
      FirstSlashAt(s, |s|);
    } else {
      JoinSplits(ts[1..]);
      FirstSlashAt(s, |ts[0]|);
      assert s[..|ts[0]|] == ts[0] && s[|ts[0]| + 1..] == Join(ts[1..]);
    }
  }

  // ---- routes ----------------------------------------------------------------------------------

  ghost predicate EmptyInside(ts: seq<Token>) {
    exists i :: 0 <= i < |ts| - 1 && ts[i] == ""
  }

  /** The pattern that a route after its leading slash registers: one slash at its end does not count, and no other
      token may be empty. */
  ghost function PatternOf(ts: seq<Token>): (r: Option<Pattern>)
    requires |ts| > 0
  {
    var n := |ts| - 1;
    if EmptyInside(ts) then None else if ts[n] == "" then Some(ts[..n]) else Some(ts)
  }

  lemma EmptyInsideCons(t: Token, us: seq<Token>)
    requires |us| > 0
    ensures EmptyInside([t] + us) == (t == "" || EmptyInside(us))
  {
    var ts := [t] + us;
    if i :| 0 <= i < |us| - 1 && us[i] == "" {
      assert ts[i + 1] == "";
    }
    if t == "" {
      assert ts[0] == "";
    }
  }

  lemma PatternOfCons(t: Token, us: seq<Token>)
    requires |us| > 0
    ensures PatternOf([t] + us)
         == if t == "" || PatternOf(us).None? then None else Some([t] + PatternOf(us).value)
  {
    EmptyInsideCons(t, us);
    hide EmptyInside;
    assert ([t] + us)[..|us|] == [t] + us[..|us| - 1];
  }

  // ---- matching --------------------------------------------------------------------------------

  predicate IsNamed(pat: Token) {
    pat != "" && pat[0] == COLON
  }

  predicate TokenFits(pat: Token, token: Token) {
    IsNamed(pat) || pat == token
  }

  ghost predicate AllFit(p: Pattern, query: seq<Token>)
    requires |p| <= |query|
  {
    forall j :: 0 <= j < |p| ==> TokenFits(p[j], query[j])
  }

  /** Token by token; a query may end with one slash more than the pattern has. */
  ghost predicate Fits(p: Pattern, query: seq<Token>) {
    (|p| == |query| || (|p| + 1 == |query| && query[|p|] == "")) && AllFit(p, query)
  }

  /** p and q agree up to j, where q goes first: it ends there, or it has a fixed token and p a name. */
  ghost predicate BetterAt(q: Pattern, p: Pattern, j: nat) {
    j < |p| && j <= |q| && q[..j] == p[..j] && (j == |q| || (!IsNamed(q[j]) && IsNamed(p[j])))
  }

  ghost predicate Better(q: Pattern, p: Pattern) {
    exists j: nat :: BetterAt(q, p, j)
  }

  /** p is registered and fits, and no registered route that fits goes before it. */
  ghost predicate IsBest<V>(routes: map<Pattern, V>, p: Pattern, query: seq<Token>) {
    p in routes && Fits(p, query) && forall q :: q in routes && Fits(q, query) ==> !Better(q, p)
  }

  // ---- the same below a node -------------------------------------------------------------------

  ghost predicate Registered<V>(routes: map<Pattern, V>, path: Pattern, q: Pattern) {
    path + q in routes
  }

  ghost predicate BestUnder<V>(routes: map<Pattern, V>, path: Pattern, p: Pattern, query: seq<Token>) {
    Registered(routes, path, p) && Fits(p, query)
    && forall q :: Registered(routes, path, q) && Fits(q, query) ==> !Better(q, p)
  }

  ghost predicate NothingUnder<V>(routes: map<Pattern, V>, path: Pattern, query: seq<Token>) {
    forall q :: Registered(routes, path, q) ==> !Fits(q, query)
  }

  /** p is a best route of those whose next token is k. */
  ghost predicate BestWith<V>(routes: map<Pattern, V>, path: Pattern, k: Token, p: Pattern, query: seq<Token>) {
    Registered(routes, path, [k] + p) && Fits([k] + p, query)
    && forall q :: Registered(routes, path, [k] + q) && Fits([k] + q, query) ==> !Better(q, p)
  }

  ghost predicate NothingWith<V>(routes: map<Pattern, V>, path: Pattern, k: Token, query: seq<Token>) {
    forall q :: Registered(routes, path, [k] + q) ==> !Fits([k] + q, query)
  }

  lemma FitsCons(k: Token, p: Pattern, query: seq<Token>)
    requires |query| > 0
    ensures Fits([k] + p, query) <==> TokenFits(k, query[0]) && Fits(p, query[1..])
  {
    var kp := [k] + p;
    if |kp| <= |query| {
      AllFitCons(k, p, query);
    }
  }

  lemma AllFitCons(k: Token, p: Pattern, query: seq<Token>)
    requires |p| < |query|
    ensures AllFit([k] + p, query) <==> TokenFits(k, query[0]) && AllFit(p, query[1..])
  {
    var kp := [k] + p;
    if AllFit(kp, query) {
      assert TokenFits(kp[0], query[0]);
      forall j | 0 <= j < |p| ensures TokenFits(p[j], query[1..][j]) {
        assert TokenFits(kp[j + 1], query[j + 1]);
      }
    }
  }

  lemma BetterCons(k: Token, q: Pattern, p: Pattern)
    requires Better([k] + q, [k] + p)
    ensures Better(q, p)
  {
    var kq, kp := [k] + q, [k] + p;
    var j: nat :| BetterAt(kq, kp, j);
    if j > 0 {
      assert kq[..j] == [k] + q[..j - 1] && kp[..j] == [k] + p[..j - 1];
      assert q[..j - 1] == kq[..j][1..] == kp[..j][1..] == p[..j - 1];
      assert BetterAt(q, p, j - 1);
    }
  }

  /** The registered routes of a query whose next tokens are all accounted for: k has a best one, and the fixed
      tokens have none if k is a name. */
  lemma BestOverall<V>(routes: map<Pattern, V>, path: Pattern, k: Token, p: Pattern, query: seq<Token>)
    requires |query| > 0 && BestWith(routes, path, k, p, query)
    requires query == [""] ==> path !in routes
    requires IsNamed(k) ==> forall t :: !IsNamed(t) ==> NothingWith(routes, path, t, query)
    ensures BestUnder(routes, path, [k] + p, query)
  {
    forall q | Registered(routes, path, q) && Fits(q, query) ensures !Better(q, [k] + p) {
      if Better(q, [k] + p) {
        hide Fits, Better;
        FirstTokens(routes, path, k, p, q, query);
        if q != [] {
          assert q == [q[0]] + q[1..];
          if q[0] == k {
            BetterCons(k, q[1..], p);
          }
        }
      }
    }
  }

  lemma FirstTokens<V>(routes: map<Pattern, V>, path: Pattern, k: Token, p: Pattern, q: Pattern, query: seq<Token>)
    requires |query| > 0 && Registered(routes, path, q) && Fits(q, query) && Better(q, [k] + p)
    requires query == [""] ==> path !in routes
    ensures q != [] && (q[0] == k || (!IsNamed(q[0]) && IsNamed(k)))
  {
    var kp := [k] + p;
    var j: nat :| BetterAt(q, kp, j);
    assert path + [] == path && (q == [] ==> query == [""]);
    if q != [] && j > 0 {
      assert q[0] == q[..j][0] == kp[..j][0] == k;
    }
  }

  /** The values bound to the names of p; where a name is repeated, by its earliest token. */
  function ParamsOf(p: Pattern, query: seq<Token>): (r: map<string, string>)
    requires |p| <= |query|
  {
    if p == [] then map[] else Bound(ParamsOf(p[1..], query[1..]), p[0], query[0])
  }

  function Bound(params: map<string, string>, pat: Token, token: Token): (r: map<string, string>) {
    if IsNamed(pat) then params[pat[1..] := token] else params
  }

  lemma ParamsCons(k: Token, p: Pattern, query: seq<Token>)
    requires |p| < |query|
    ensures ParamsOf([k] + p, query) == Bound(ParamsOf(p, query[1..]), k, query[0])
  {
    assert ([k] + p)[1..] == p;
  }

  ghost predicate Earliest(p: Pattern, name: string, j: nat) {
    j < |p| && p[j] == [COLON] + name && forall k :: 0 <= k < j ==> p[k] != [COLON] + name
  }

  lemma {:induction false} ParamsAreEarliest(p: Pattern, query: seq<Token>, name: string, j: nat)
    requires |p| <= |query|
    ensures Earliest(p, name, j) ==> name in ParamsOf(p, query) && ParamsOf(p, query)[name] == query[j]
    ensures (forall k :: 0 <= k < |p| ==> p[k] != [COLON] + name) ==> name !in ParamsOf(p, query)
  {
    if p != [] {
      var rest := p[1..];
      ParamsAreEarliest(rest, query[1..], name, if j > 0 then j - 1 else 0);
      assert forall k :: 0 <= k < |rest| ==> rest[k] == p[k + 1];
      if IsNamed(p[0]) {
        assert p[0] == [COLON] + p[0][1..];
      }
      if j > 0 && Earliest(p, name, j) {
        assert Earliest(rest, name, j - 1);
        assert p[0] != [COLON] + name;
      }
    }
  }
}

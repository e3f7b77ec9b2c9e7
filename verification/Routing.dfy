/** Choosing a handler: pattern_better_match and axil_match_pattern of src/libaxil.c. */
module Routing {
  import opened Patterns

  /** A registered pattern; its position in the table identifies the handler. */
  datatype Route = Route(pattern: string, handler: nat)

  /** What a route makes of a request: the method-qualified path first, then the plain one. */
  function Candidate(r: Route, qualified: string, uri: string): MatchResult
  {
    if ':' !in r.pattern && '*' !in r.pattern then NoMatch
    else
      var m := MatchFrom(r.pattern, qualified, 0);
      if m.Match? then m else MatchFrom(r.pattern, uri, 0)
  }

  /** pattern_better_match: fewer wildcards, then more literal characters, then fewer parameters. */
  predicate Better(c: MatchResult, best: MatchResult)
    requires c.Match?
  {
    if !best.Match? then true
    else if c.wildcards != best.wildcards then c.wildcards < best.wildcards
    else if c.literal != best.literal then c.literal > best.literal
    else if |c.captures| != |best.captures| then |c.captures| < |best.captures|
    else false
  }

  /** Equally good: neither beats the other. */
  predicate SameRank(a: MatchResult, b: MatchResult)
    requires a.Match? && b.Match?
  {
    a.wildcards == b.wildcards && a.literal == b.literal && |a.captures| == |b.captures|
  }

  /** A strict weak order on successful matches. */
  lemma BetterIsStrictWeakOrder(a: MatchResult, b: MatchResult, c: MatchResult)
    requires a.Match? && b.Match? && c.Match?
    ensures !Better(a, a)
    ensures !(Better(a, b) && Better(b, a))
    ensures Better(a, b) && Better(b, c) ==> Better(a, c)
    ensures (!Better(a, b) && !Better(b, a)) <==> SameRank(a, b)
    ensures Better(a, b) ==> Better(a, c) || Better(c, b)
  {
  }

  datatype Choice = Nothing | Chosen(index: nat, match_: MatchResult)

  /** The first of the routes that no route beats. */
  ghost predicate IsChoice(routes: seq<Route>, qualified: string, uri: string, c: Choice)
  {
    match c
    case Nothing => forall i :: 0 <= i < |routes| ==> Candidate(routes[i], qualified, uri).NoMatch?
    case Chosen(k, m) =>
      && k < |routes| && m == Candidate(routes[k], qualified, uri) && m.Match?
      && (forall i :: 0 <= i < |routes| && Candidate(routes[i], qualified, uri).Match?
            ==> !Better(Candidate(routes[i], qualified, uri), m))
      && (forall i :: 0 <= i < k && Candidate(routes[i], qualified, uri).Match?
            ==> Better(m, Candidate(routes[i], qualified, uri)))
  }

  method CandidateOf(r: Route, qualified: string, uri: string) returns (m: MatchResult)
    ensures m == Candidate(r, qualified, uri)
  {
    if ':' !in r.pattern && '*' !in r.pattern {
      return NoMatch;
    }
    m := PatternMatch(r.pattern, qualified);
    if !m.Match? {
      m := PatternMatch(r.pattern, uri);
    }
  }

  /** axil_match_pattern: the winner and the parameters it commits. */
  method MatchPattern(routes: seq<Route>, qualified: string, uri: string)
    returns (c: Choice, committed: seq<Capture>)
    ensures IsChoice(routes, qualified, uri, c)
    ensures committed == if c.Chosen? then Candidate(routes[c.index], qualified, uri).captures else []
  {
    c := Nothing;
    var best := NoMatch;
    var i := 0;
    while i < |routes|
      invariant 0 <= i <= |routes|
      invariant IsChoice(routes[..i], qualified, uri, c)
      invariant best == if c.Chosen? then c.match_ else NoMatch
    {
      var m := CandidateOf(routes[i], qualified, uri);
      assert routes[..i + 1] == routes[..i] + [routes[i]];
      if m.Match? && Better(m, best) {
        KeepsBeating(routes, qualified, uri, i, c, m);
        c, best := Chosen(i, m), m;
      }
      i := i + 1;
    }
    assert routes[..i] == routes;
    committed := if c.Chosen? then c.match_.captures else [];
  }

  /** A newcomer that beats the choice beats everything before it. */
  lemma KeepsBeating(routes: seq<Route>, qualified: string, uri: string, i: nat, c: Choice, m: MatchResult)
    requires i < |routes| && IsChoice(routes[..i], qualified, uri, c)
    requires m == Candidate(routes[i], qualified, uri) && m.Match?
    requires c.Chosen? ==> Better(m, c.match_)
    ensures IsChoice(routes[..i + 1], qualified, uri, Chosen(i, m))
  {
    forall k | 0 <= k < i && Candidate(routes[k], qualified, uri).Match?
      ensures Better(m, Candidate(routes[k], qualified, uri))
    {
      assert routes[..i][k] == routes[k];
      BetterIsStrictWeakOrder(m, c.match_, Candidate(routes[k], qualified, uri));
    }
  }

  /** Fewer catch-alls first; then more characters matched literally; then fewer parameters. */
  predicate AtLeastAsSpecific(a: MatchResult, b: MatchResult)
    requires a.Match? && b.Match?
  {
    && a.wildcards <= b.wildcards
    && (a.wildcards == b.wildcards ==> a.literal >= b.literal)
    && (a.wildcards == b.wildcards && a.literal == b.literal ==> |a.captures| <= |b.captures|)
  }

  /** What the choice means: it matches, and no matching route is more specific. */
  lemma ChoiceIsMostSpecific(routes: seq<Route>, qualified: string, uri: string, c: Choice, i: nat)
    requires IsChoice(routes, qualified, uri, c) && i < |routes| && Candidate(routes[i], qualified, uri).Match?
    ensures c.Chosen? && c.match_.Match?
    ensures AtLeastAsSpecific(c.match_, Candidate(routes[i], qualified, uri))
    ensures AtLeastAsSpecific(Candidate(routes[i], qualified, uri), c.match_)
      ==> c.index <= i && SameRank(c.match_, Candidate(routes[i], qualified, uri))
  {
    var m := Candidate(routes[i], qualified, uri);
    assert c.Chosen?;
    assert !Better(m, c.match_);
    if i < c.index {
      assert Better(c.match_, m);
    }
  }

  /** A request that matches nothing in one order matches nothing in any, and the rank is the same. */
  lemma RankIndependentOfOrder(rs: seq<Route>, ts: seq<Route>, qualified: string, uri: string, c: Choice, d: Choice)
    requires multiset(rs) == multiset(ts)
    requires IsChoice(rs, qualified, uri, c) && IsChoice(ts, qualified, uri, d)
    ensures c.Chosen? <==> d.Chosen?
    ensures c.Chosen? ==> SameRank(c.match_, d.match_)
  {
    if c.Chosen? {
      InBoth(rs, ts, rs[c.index]);
    }
    if d.Chosen? {
      InBoth(ts, rs, ts[d.index]);
    }
    if c.Chosen? && d.Chosen? {
      BetterIsStrictWeakOrder(c.match_, d.match_, d.match_);
    }
  }

  lemma InBoth(rs: seq<Route>, ts: seq<Route>, r: Route)
    requires multiset(rs) == multiset(ts) && r in rs
    ensures exists i :: 0 <= i < |ts| && ts[i] == r
  {
    assert r in multiset(rs);
    assert r in ts;
  }

  /** The winner is unique: the choice of one table in one order is a function of them. */
  lemma ChoiceIsUnique(routes: seq<Route>, qualified: string, uri: string, c: Choice, d: Choice)
    requires IsChoice(routes, qualified, uri, c) && IsChoice(routes, qualified, uri, d)
    ensures c == d
  {
  }

  /**
     The route `/g/:k` is chosen for `/g/x`, whatever the method; a route without a parameter or
     a star is never tried, not even the path itself.
   */
  lemma ParamRouteChosen(method_: string, g: string, k: string, x: string, plain: nat, handler: nat)
    requires Plain(method_) && Plain(g) && Plain(":" + k) && Plain(x) && |x| < VALUE_ROOM
    requires g[0] != '*' && x[0] != '*' && forall c :: c in g + x ==> c != ':' && c != '*'
    ensures var p, u := TwoParts(true, g, ":" + k), TwoParts(true, g, x);
      IsChoice([Route(u, plain), Route(p, handler)], method_ + (":" + u), u,
               Chosen(1, Match(|g|, 0, [Capture(EnvKey(":" + k), x)])))
  {
    var p, u := TwoParts(true, g, ":" + k), TwoParts(true, g, x);
    var q := method_ + (":" + u);
    assert g[0] in g + x;
    NeverTried(g, x, plain, q);
    ParamCandidate(method_, g, k, x, handler);
    hide TwoParts, Candidate, IsChoice, EnvKey;
    SecondChosen(Route(u, plain), Route(p, handler), q, u, Match(|g|, 0, [Capture(EnvKey(":" + k), x)]));
  }

  lemma SecondChosen(r: Route, s: Route, q: string, u: string, m: MatchResult)
    requires Candidate(r, q, u) == NoMatch && Candidate(s, q, u) == m && m.Match?
    ensures IsChoice([r, s], q, u, Chosen(1, m))
  {
    hide Candidate;
    var routes := [r, s];
    assert routes[0] == r && routes[1] == s;
    BetterIsStrictWeakOrder(m, m, m);
  }

  lemma ParamCandidate(method_: string, g: string, k: string, x: string, handler: nat)
    requires Plain(method_) && Plain(g) && Plain(":" + k) && Plain(x) && |x| < VALUE_ROOM
    requires g[0] != '*' && g[0] != ':' && x[0] != '*'
    ensures var p, u := TwoParts(true, g, ":" + k), TwoParts(true, g, x);
      Candidate(Route(p, handler), method_ + (":" + u), u) == Match(|g|, 0, [Capture(EnvKey(":" + k), x)])
  {
    var p, u := TwoParts(true, g, ":" + k), TwoParts(true, g, x);
    assert p[|g| + 2] == ':' && u[0] == '/';
    ParamRoute(true, g, k, x);
    TwoSegments(true, g, ":" + k);
    NotRooted(method_, u);
    hide Segments, StarTail, EnvKey, TwoParts;
    assert MatchFrom(p, method_ + (":" + u), 0) == NoMatch;
  }

  lemma NeverTried(g: string, x: string, plain: nat, q: string)
    requires forall c :: c in g + x ==> c != ':' && c != '*'
    ensures var u := TwoParts(true, g, x); Candidate(Route(u, plain), q, u) == NoMatch
  {
    var u := TwoParts(true, g, x);
    forall i | 0 <= i < |u|
      ensures u[i] != ':' && u[i] != '*'
    {
      assert u[i] == '/' || u[i] in g + x;
    }
  }

  /** The method in front makes one more segment, and no leading slash. */
  lemma NotRooted(method_: string, u: string)
    requires Plain(method_) && u != "" && u[0] == '/'
    ensures Segments(method_ + (":" + u)) != [] && !Rooted(method_ + (":" + u))
  {
    var m := method_ + ":";
    assert m + u == method_ + (":" + u) && m[0] == method_[0];
    OneSegment(m, u);
  }

  /** The qualified path decides when both would match. */
  lemma QualifiedFirst(a: string, b: string, m: string, x: string, v: string, y: string)
    requires Plain(":" + a) && Plain(":" + b) && Plain(m) && Plain(x) && Plain(v) && Plain(y)
    requires m[0] != '*' && x[0] != '*' && |m| < VALUE_ROOM && |x| < VALUE_ROOM
    ensures Candidate(Route(TwoParts(false, ":" + a, ":" + b), 0), TwoParts(false, m, x), TwoParts(false, v, y))
         == Match(0, 0, [Capture(EnvKey(":" + a), m), Capture(EnvKey(":" + b), x)])
  {
    var p := TwoParts(false, ":" + a, ":" + b);
    assert p[0] == ':';
    TwoSegments(false, ":" + a, ":" + b);
    TwoSegments(false, m, x);
    hide Segments, StarTail, EnvKey, TwoParts;
    BothParams(":" + a, ":" + b, m, x);
  }

  lemma BothParams(p: string, q: string, m: string, x: string)
    requires IsParam(p) && IsParam(q) && |m| < VALUE_ROOM && |x| < VALUE_ROOM
    ensures MatchSegments([p, q], [m, x], false, 0) == Match(0, 0, [Capture(EnvKey(p), m), Capture(EnvKey(q), x)])
  {
    hide EnvKey;
    var c, d := Capture(EnvKey(p), m), Capture(EnvKey(q), x);
    assert [p, q][1..] == [q] && [m, x][1..] == [x] && [q][1..] == [] && [x][1..] == [];
    assert MatchSegments([q], [x], false, 1) == AddCapture(d, MatchSegments([], [], false, 2)) == Match(0, 0, [d]);
    assert [c] + [d] == [c, d];
  }
}

/**
 Route patterns: pattern_match of src/libaxil.c, which walks two C strings with two
 pointers, against matching on lists of path segments.
 */
module Patterns {
  import opened Text

  const MAX_PARAMS: nat := 16
  const VALUE_ROOM: nat := 256

  datatype Capture = Capture(key: string, value: string)

  datatype MatchResult =
    | NoMatch
    | Match(literal: nat, wildcards: nat, captures: seq<Capture>)

  /** The text ends at `i`, or its query starts there. */
  predicate EndsAt(s: string, i: nat)
  {
    i >= |s| || s[i] == '?'
  }

  /** The length of the segment a text starts with. */
  function SegmentLength(s: string): (n: nat)
    ensures n <= |s| && (EndsAt(s, n) || s[n] == '/')
    ensures forall k :: 0 <= k < n ==> s[k] != '/' && s[k] != '?'
  {
    if EndsAt(s, 0) || s[0] == '/' then 0 else 1 + SegmentLength(s[1..])
  }

  /** The nonempty pieces between slashes, up to the query. */
  function Segments(s: string): (segs: seq<string>)
    ensures forall g :: g in segs ==> g != ""
    decreases |s|
  {
    if EndsAt(s, 0) then []
    else if s[0] == '/' then Segments(s[1..])
    else [s[..SegmentLength(s)]] + Segments(s[SegmentLength(s)..])
  }

  predicate Rooted(s: string)
  {
    s != "" && s[0] == '/'
  }

  /** A star here stands for the rest of any path. */
  predicate StarAt(s: string, i: nat)
  {
    && i < |s| && s[i] == '*'
    && (EndsAt(s, i + 1) || (s[i + 1] == '/' && EndsAt(s, i + 2)))
  }

  /** The last segment of the pattern is such a star. */
  predicate StarTail(p: string)
    decreases |p|
  {
    if EndsAt(p, 0) then false
    else if p[0] == '/' then StarTail(p[1..])
    else StarAt(p, 0) || StarTail(p[SegmentLength(p)..])
  }

  predicate IsParam(segment: string)
  {
    segment != "" && segment[0] == ':'
  }

  function Upper(s: string): (r: string)
    ensures |r| == |s|
  {
    seq(|s|, i requires 0 <= i < |s| => ToUpper(s[i]))
  }

  /** The environment name of a parameter segment, cut to 255 characters. */
  function EnvKey(segment: string): (k: string)
    requires segment != ""
  {
    "PATTERN_PARAM_" + Upper(segment[1..if |segment| < 242 then |segment| else 242])
  }

  /** Matching segment by segment; `star` makes the last pattern segment take any nonempty rest. */
  function MatchSegments(ps: seq<string>, us: seq<string>, star: bool, used: nat): MatchResult
    decreases |ps|
  {
    if ps == [] && us == [] then Match(0, 0, [])
    else if ps == [] || us == [] then NoMatch
    else if star && |ps| == 1 then Match(0, 1, [])
    else if IsParam(ps[0]) then
      if used >= MAX_PARAMS || |us[0]| >= VALUE_ROOM then NoMatch
      else AddCapture(Capture(EnvKey(ps[0]), us[0]), MatchSegments(ps[1..], us[1..], star, used + 1))
    else if ps[0] != us[0] then NoMatch
    else AddLiteral(|ps[0]|, MatchSegments(ps[1..], us[1..], star, used))
  }

  function AddCapture(c: Capture, m: MatchResult): MatchResult
  {
    if m.NoMatch? then NoMatch else m.(captures := [c] + m.captures)
  }

  function AddLiteral(n: nat, m: MatchResult): MatchResult
  {
    if m.NoMatch? then NoMatch else m.(literal := n + m.literal)
  }

  /** A leading slash must stand on both sides, except before nothing or against a lone star. */
  predicate SameRoot(p: string, u: string)
  {
    || Segments(p) == [] || Segments(u) == [] || Rooted(p) == Rooted(u)
    || (StarTail(p) && |Segments(p)| == 1 && !Rooted(p))
  }

  /** What matching the rest of a pattern against the rest of a path comes to. */
  function MatchFrom(p: string, u: string, used: nat): MatchResult
  {
    if SameRoot(p, u) then MatchSegments(Segments(p), Segments(u), StarTail(p), used) else NoMatch
  }

  /** The counters and captures so far, in front of the rest. */
  function Behind(literal: nat, captures: seq<Capture>, rest: MatchResult): MatchResult
  {
    if rest.NoMatch? then NoMatch
    else Match(literal + rest.literal, rest.wildcards, captures + rest.captures)
  }

  // ----- the steps of the loop ------------------------------------------------

  /** A slash before another, or before the end, changes nothing. */
  predicate Redundant(s: string, i: nat)
  {
    i < |s| && s[i] == '/' && (EndsAt(s, i + 1) || s[i + 1] == '/')
  }

  lemma SkipSlash(s: string)
    requires Redundant(s, 0)
    ensures Segments(s) == Segments(s[1..]) && StarTail(s) == StarTail(s[1..])
    ensures Segments(s) == [] || Rooted(s) == Rooted(s[1..])
  {
  }

  lemma SkipInPattern(p: string, u: string, used: nat)
    requires Redundant(p, 0)
    ensures MatchFrom(p, u, used) == MatchFrom(p[1..], u, used)
  {
    SkipSlash(p);
  }

  lemma SkipInPath(p: string, u: string, used: nat)
    requires Redundant(u, 0)
    ensures MatchFrom(p, u, used) == MatchFrom(p, u[1..], used)
  {
    SkipSlash(u);
  }

  /** Past the redundant slashes a text that has not ended has a segment. */
  lemma HasSegment(s: string)
    requires !EndsAt(s, 0) && !Redundant(s, 0)
    ensures Segments(s) != []
  {
    if s[0] == '/' {
      assert !EndsAt(s[1..], 0) && s[1..][0] != '/';
    }
  }

  lemma OneEnded(p: string, u: string, used: nat)
    requires EndsAt(p, 0) != EndsAt(u, 0) && !Redundant(p, 0) && !Redundant(u, 0)
    ensures MatchFrom(p, u, used) == NoMatch
  {
    if EndsAt(p, 0) {
      HasSegment(u);
    } else {
      HasSegment(p);
    }
  }

  lemma StarIsOnlySegment(p: string)
    requires StarAt(p, 0)
    ensures Segments(p) == ["*"] && StarTail(p) && SegmentLength(p) == 1
  {
    assert SegmentLength(p[1..]) == 0;
    var rest := p[1..];
    assert p[..1] == "*";
    if !EndsAt(rest, 0) {
      assert rest[1..] == p[2..] && EndsAt(p[2..], 0);
      assert Segments(rest) == Segments(p[2..]) == [];
    }
  }

  lemma StarTakesRest(p: string, u: string, used: nat)
    requires StarAt(p, 0) && !EndsAt(u, 0) && !Redundant(u, 0)
    ensures MatchFrom(p, u, used) == Match(0, 1, [])
  {
    StarIsOnlySegment(p);
    HasSegment(u);
  }

  lemma BothSlashes(p: string, u: string, used: nat)
    requires Rooted(p) && Rooted(u) && !Redundant(p, 0) && !Redundant(u, 0)
    ensures MatchFrom(p, u, used) == MatchFrom(p[1..], u[1..], used)
  {
  }

  lemma OneSlash(p: string, u: string, used: nat)
    requires !EndsAt(p, 0) && !EndsAt(u, 0) && !Redundant(p, 0) && !Redundant(u, 0)
    requires Rooted(p) != Rooted(u) && !StarAt(p, 0)
    ensures MatchFrom(p, u, used) == NoMatch
  {
    HasSegment(p);
    HasSegment(u);
    if StarTail(p) && |Segments(p)| == 1 && !Rooted(p) {
      LoneStar(p);
      assert false;
    }
  }

  lemma LoneStar(p: string)
    requires !EndsAt(p, 0) && p[0] != '/' && StarTail(p) && |Segments(p)| == 1
    ensures StarAt(p, 0)
  {
    if !StarAt(p, 0) {
      StarTailHasSegment(p[SegmentLength(p)..]);
    }
  }

  lemma {:induction false} StarTailHasSegment(p: string)
    requires StarTail(p)
    ensures Segments(p) != []
    decreases |p|
  {
    if p[0] == '/' {
      StarTailHasSegment(p[1..]);
    }
  }

  /** Both sides are at a segment that is not a terminal star. */
  lemma SegmentStep(p: string, u: string, used: nat)
    requires !EndsAt(p, 0) && !EndsAt(u, 0) && p[0] != '/' && u[0] != '/' && !StarAt(p, 0)
    ensures var n, m := SegmentLength(p), SegmentLength(u);
      && 0 < n && 0 < m
      && MatchFrom(p, u, used)
      == if p[0] == ':' then
           if used >= MAX_PARAMS || m >= VALUE_ROOM then NoMatch
           else AddCapture(Capture(EnvKey(p[..n]), u[..m]), MatchFrom(p[n..], u[m..], used + 1))
         else if p[..n] != u[..m] then NoMatch
         else AddLiteral(n, MatchFrom(p[n..], u[m..], used))
  {
    var n, m := SegmentLength(p), SegmentLength(u);
    var pr, ur := p[n..], u[m..];
    assert Segments(p) == [p[..n]] + Segments(pr);
    assert Segments(u) == [u[..m]] + Segments(ur);
    assert SameRoot(pr, ur);
    if StarTail(p) && |Segments(p)| == 1 {
      LoneStar(p);
      assert false;
    }
  }

  // ----- the loop -------------------------------------------------------------

  /** Skip the slashes before another slash or before the end. */
  method SkipRedundant(s: string, from: nat) returns (i: nat)
    requires from <= |s|
    ensures from <= i <= |s| && !Redundant(s[i..], 0)
    ensures forall k :: from <= k < i ==> Redundant(s[k..], 0)
  {
    i := from;
    while i < |s| && s[i] == '/' && (EndsAt(s, i + 1) || s[i + 1] == '/')
      invariant from <= i <= |s|
      invariant forall k :: from <= k < i ==> Redundant(s[k..], 0)
    {
      i := i + 1;
    }
  }

  lemma {:induction false} SkippedInPattern(p: string, u: string, used: nat, from: nat, to: nat)
    requires from <= to <= |p| && forall k :: from <= k < to ==> Redundant(p[k..], 0)
    ensures MatchFrom(p[from..], u, used) == MatchFrom(p[to..], u, used)
    decreases |p| - from
  {
    if from < to {
      SkipInPattern(p[from..], u, used);
      assert p[from..][1..] == p[from + 1..];
      SkippedInPattern(p, u, used, from + 1, to);
    }
  }

  lemma {:induction false} SkippedInPath(p: string, u: string, used: nat, from: nat, to: nat)
    requires from <= to <= |u| && forall k :: from <= k < to ==> Redundant(u[k..], 0)
    ensures MatchFrom(p, u[from..], used) == MatchFrom(p, u[to..], used)
    decreases |u| - from
  {
    if from < to {
      SkipInPath(p, u[from..], used);
      assert u[from..][1..] == u[from + 1..];
      SkippedInPath(p, u, used, from + 1, to);
    }
  }

  lemma SkippedBoth(p: string, u: string, i: nat, i': nat, j: nat, j': nat, used: nat)
    requires i <= i' <= |p| && forall k :: i <= k < i' ==> Redundant(p[k..], 0)
    requires j <= j' <= |u| && forall k :: j <= k < j' ==> Redundant(u[k..], 0)
    ensures MatchFrom(p[i..], u[j..], used) == MatchFrom(p[i'..], u[j'..], used)
  {
    SkippedInPattern(p, u[j..], used, i, i');
    SkippedInPath(p[i'..], u, used, j, j');
  }

  /** Advance to the end of the segment. */
  method EndOfSegment(s: string, from: nat) returns (i: nat)
    requires from <= |s|
    ensures from <= i <= |s| && i - from == SegmentLength(s[from..])
  {
    i := from;
    while !EndsAt(s, i) && s[i] != '/'
      invariant from <= i <= |s|
      invariant SegmentLength(s[from..]) == i - from + SegmentLength(s[i..])
      decreases |s| - i
    {
      assert s[i..][1..] == s[i + 1..];
      i := i + 1;
    }
  }

  /** The copying loop that makes an environment name. */
  method BuildEnvKey(segment: string) returns (key: string)
    requires segment != ""
    ensures key == EnvKey(segment) && |key| <= 255
  {
    key := "PATTERN_PARAM_";
    var i := 1;
    while i < |segment| && |key| + 1 < 256
      invariant 1 <= i <= |segment| && i <= 242
      invariant |key| == 13 + i
      invariant key == "PATTERN_PARAM_" + Upper(segment[1..i])
    {
      assert segment[1..i + 1] == segment[1..i] + [segment[i]];
      key := key + [ToUpper(segment[i])];
      i := i + 1;
    }
  }

  lemma BehindMore(literal: nat, captures: seq<Capture>, n: nat, c: Capture, rest: MatchResult)
    ensures Behind(literal, captures, AddLiteral(n, rest)) == Behind(literal + n, captures, rest)
    ensures Behind(literal, captures, AddCapture(c, rest)) == Behind(literal, captures + [c], rest)
  {
    if rest.Match? {
      assert captures + ([c] + rest.captures) == captures + [c] + rest.captures;
    }
  }

  /** Past the redundant slashes: how the walk ends, or steps over a slash. */
  lemma WalkBranch(pat: string, path: string, i: nat, j: nat, literal: nat, captures: seq<Capture>, goal: MatchResult)
    requires i <= |pat| && j <= |path| && !Redundant(pat[i..], 0) && !Redundant(path[j..], 0)
    requires goal == Behind(literal, captures, MatchFrom(pat[i..], path[j..], |captures|))
    ensures
      if EndsAt(pat, i) && EndsAt(path, j) then goal == Match(literal, 0, captures)
      else if EndsAt(pat, i) || EndsAt(path, j) then goal == NoMatch
      else if StarAt(pat, i) then goal == Match(literal, 1, captures)
      else
        && !StarAt(pat[i..], 0)
        && if pat[i] == '/' && path[j] == '/' then
             goal == Behind(literal, captures, MatchFrom(pat[i + 1..], path[j + 1..], |captures|))
           else pat[i] == '/' || path[j] == '/' ==> goal == NoMatch
  {
    var p, u := pat[i..], path[j..];
    if EndsAt(pat, i) != EndsAt(path, j) {
      OneEnded(p, u, |captures|);
    } else if !EndsAt(pat, i) {
      if StarAt(pat, i) {
        StarTakesRest(p, u, |captures|);
      } else if pat[i] == '/' && path[j] == '/' {
        BothSlashes(p, u, |captures|);
        assert p[1..] == pat[i + 1..] && u[1..] == path[j + 1..];
      } else if pat[i] == '/' || path[j] == '/' {
        OneSlash(p, u, |captures|);
      }
    }
  }

  /** Both pointers past their redundant slashes. */
  method SkipBoth(pat: string, path: string, i0: nat, j0: nat, literal: nat, captures: seq<Capture>,
                  ghost goal: MatchResult)
    returns (i: nat, j: nat)
    requires i0 <= |pat| && j0 <= |path|
    requires goal == Behind(literal, captures, MatchFrom(pat[i0..], path[j0..], |captures|))
    ensures i0 <= i <= |pat| && j <= |path|
    ensures goal == Behind(literal, captures, MatchFrom(pat[i..], path[j..], |captures|))
    ensures !Redundant(pat[i..], 0) && !Redundant(path[j..], 0)
  {
    i := SkipRedundant(pat, i0);
    j := SkipRedundant(path, j0);
    SkippedBoth(pat, path, i0, i, j0, j, |captures|);
  }

  /** Once round the loop of pattern_match; `goal` is what the whole walk has to find. */
  method Walk(pat: string, path: string, i0: nat, j0: nat, literal: nat, captures: seq<Capture>,
              ghost goal: MatchResult)
    returns (done: bool, m: MatchResult, i: nat, j: nat, literal': nat, captures': seq<Capture>)
    requires i0 <= |pat| && j0 <= |path|
    requires goal == Behind(literal, captures, MatchFrom(pat[i0..], path[j0..], |captures|))
    ensures i <= |pat| && j <= |path|
    ensures done ==> m == goal
    ensures !done ==> i0 < i && goal == Behind(literal', captures', MatchFrom(pat[i..], path[j..], |captures'|))
  {
    hide MatchFrom, Behind, Redundant, StarAt;
    i, j := SkipBoth(pat, path, i0, j0, literal, captures, goal);
    WalkBranch(pat, path, i, j, literal, captures, goal);
    done, m, literal', captures' := true, NoMatch, literal, captures;
    if EndsAt(pat, i) && EndsAt(path, j) {
      m := Match(literal, 0, captures);
    } else if EndsAt(pat, i) || EndsAt(path, j) {
      // one ended early
    } else if StarAt(pat, i) {
      m := Match(literal, 1, captures);
    } else if pat[i] == '/' || path[j] == '/' {
      if pat[i] == path[j] {
        i, j, done := i + 1, j + 1, false;
      }
    } else {
      var ok;
      ok, i, j, literal', captures' := WalkSegment(pat, path, i, j, literal, captures);
      done := !ok;
    }
  }

  /** pattern_match: the two-pointer walk finds what matching whole segment lists finds. */
  method PatternMatch(pat: string, path: string) returns (m: MatchResult)
    ensures m == MatchFrom(pat, path, 0)
  {
    var i, j, literal, captures := 0, 0, 0, [];
    ghost var goal := MatchFrom(pat, path, 0);
    assert pat[0..] == pat && path[0..] == path;
    var done := false;
    m := NoMatch;
    while !done
      invariant 0 <= i <= |pat| && 0 <= j <= |path| && 0 <= literal
      invariant done ==> m == goal
      invariant !done ==> goal == Behind(literal, captures, MatchFrom(pat[i..], path[j..], |captures|))
      decreases !done, |pat| - i
    {
      done, m, i, j, literal, captures := Walk(pat, path, i, j, literal, captures, goal);
    }
  }

  /** What a step over one segment on each side does to the result. */
  lemma WalkStep(pat: string, path: string, ps: nat, us: nat, i: nat, j: nat, literal: nat, captures: seq<Capture>)
    requires !EndsAt(pat, ps) && !EndsAt(path, us) && pat[ps] != '/' && path[us] != '/' && !StarAt(pat[ps..], 0)
    requires ps <= i <= |pat| && us <= j <= |path|
    requires i - ps == SegmentLength(pat[ps..]) && j - us == SegmentLength(path[us..])
    ensures ps < i && us < j
    ensures Behind(literal, captures, MatchFrom(pat[ps..], path[us..], |captures|))
      == if pat[ps] == ':' then
           if |captures| >= MAX_PARAMS || j - us >= VALUE_ROOM then NoMatch
           else Behind(literal, captures + [Capture(EnvKey(pat[ps..i]), path[us..j])],
                       MatchFrom(pat[i..], path[j..], |captures| + 1))
         else if pat[ps..i] != path[us..j] then NoMatch
         else Behind(literal + (i - ps), captures, MatchFrom(pat[i..], path[j..], |captures|))
  {
    hide MatchFrom, EnvKey;
    var p, u := pat[ps..], path[us..];
    SegmentStep(p, u, |captures|);
    assert p[i - ps..] == pat[i..] && u[j - us..] == path[j..];
    assert p[..i - ps] == pat[ps..i] && u[..j - us] == path[us..j];
    var c := Capture(EnvKey(pat[ps..i]), path[us..j]);
    BehindMore(literal, captures, 0, c, MatchFrom(pat[i..], path[j..], |captures| + 1));
    BehindMore(literal, captures, i - ps, c, MatchFrom(pat[i..], path[j..], |captures|));
  }

  /** One segment on each side: a parameter captures, a literal must be equal. */
  method WalkSegment(pat: string, path: string, ps: nat, us: nat, literal: nat, captures: seq<Capture>)
    returns (ok: bool, i: nat, j: nat, literal': nat, captures': seq<Capture>)
    requires !EndsAt(pat, ps) && !EndsAt(path, us) && pat[ps] != '/' && path[us] != '/'
    requires !StarAt(pat[ps..], 0)
    ensures ps < i <= |pat| && us < j <= |path|
    ensures Behind(literal, captures, MatchFrom(pat[ps..], path[us..], |captures|))
         == if ok then Behind(literal', captures', MatchFrom(pat[i..], path[j..], |captures'|)) else NoMatch
  {
    i := EndOfSegment(pat, ps);
    j := EndOfSegment(path, us);
    WalkStep(pat, path, ps, us, i, j, literal, captures);
    ok, literal', captures' := false, literal, captures;
    if pat[ps] == ':' {
      if j - us == 0 || |captures| >= MAX_PARAMS {
        return;
      }
      var key := BuildEnvKey(pat[ps..i]);
      if j - us >= VALUE_ROOM {
        return;
      }
      captures' := captures + [Capture(key, path[us..j])];
      ok := true;
      return;
    }
    if i - ps != j - us || pat[ps..i] != path[us..j] {
      return;
    }
    ok, literal' := true, literal + (i - ps);
  }

  // ----- what matching means --------------------------------------------------

  predicate NoDoubledSlash(s: string)
  {
    forall i :: 0 <= i && i + 1 < |s| ==> !(s[i] == '/' && s[i + 1] == '/')
  }

  /** The text behind the last segment. */
  function AfterLast(s: string): string
    decreases |s|
  {
    if EndsAt(s, 0) then ""
    else if s[0] == '/' then AfterLast(s[1..])
    else
      var rest := s[SegmentLength(s)..];
      if Segments(rest) == [] then rest else AfterLast(rest)
  }

  /** A last segment `*` is the catch-all exactly when no doubled slash follows it. */
  lemma {:induction false} StarTailIff(p: string)
    ensures StarTail(p) <==>
      Segments(p) != [] && Segments(p)[|Segments(p)| - 1] == "*" && !("//" <= AfterLast(p))
    decreases |p|
  {
    if !EndsAt(p, 0) {
      if p[0] == '/' {
        StarTailIff(p[1..]);
      } else {
        var rest := p[SegmentLength(p)..];
        StarTailIff(rest);
        if StarAt(p, 0) {
          StarIsOnlySegment(p);
        } else if Segments(rest) == [] && Redundant(rest, 0) && !EndsAt(rest, 1) {
          assert "//" <= rest;
        }
      }
    }
  }

  lemma {:induction false} AfterLastPlain(p: string)
    requires NoDoubledSlash(p)
    ensures NoDoubledSlash(AfterLast(p))
    decreases |p|
  {
    if !EndsAt(p, 0) {
      AfterLastPlain(p[if p[0] == '/' then 1 else SegmentLength(p)..]);
    }
  }

  /** The pattern segments that must be met one by one. */
  function Fixed(ps: seq<string>, star: bool): nat
  {
    if star && ps != [] then |ps| - 1 else |ps|
  }

  predicate SegmentMeets(p: string, u: string)
  {
    if IsParam(p) then |u| < VALUE_ROOM else p == u
  }

  function Params(ps: seq<string>): (n: nat)
  {
    if ps == [] then 0 else (if IsParam(ps[0]) then 1 else 0) + Params(ps[1..])
  }

  /** Which texts of a path the parameters of a pattern take. */
  function Captures(ps: seq<string>, us: seq<string>): seq<Capture>
    requires |ps| <= |us|
  {
    if ps == [] then []
    else (if IsParam(ps[0]) then [Capture(EnvKey(ps[0]), us[0])] else []) + Captures(ps[1..], us[1..])
  }

  function LiteralChars(ps: seq<string>): nat
  {
    if ps == [] then 0 else (if IsParam(ps[0]) then 0 else |ps[0]|) + LiteralChars(ps[1..])
  }

  ghost predicate Meets(ps: seq<string>, us: seq<string>, star: bool, used: nat)
  {
    var k := Fixed(ps, star);
    && (if star && ps != [] then k < |us| else k == |us|)
    && (forall i :: 0 <= i < k ==> SegmentMeets(ps[i], us[i]))
    && used + Params(ps[..k]) <= MAX_PARAMS
  }

  /**
     Matching, declaratively: as many segments as the pattern has (or at least, with a
     terminal star), each fixed one equal or a parameter whose text fits, and at most 16
     parameters; the captures and counters are those of the fixed segments.
   */
  lemma {:induction false} MatchMeans(ps: seq<string>, us: seq<string>, star: bool, used: nat)
    requires used <= MAX_PARAMS
    ensures MatchSegments(ps, us, star, used).Match? <==> Meets(ps, us, star, used)
    ensures Meets(ps, us, star, used) ==>
      var k := Fixed(ps, star);
      MatchSegments(ps, us, star, used)
      == Match(LiteralChars(ps[..k]), if star && ps != [] then 1 else 0, Captures(ps[..k], us[..k]))
    decreases |ps|
  {
    if ps != [] && us != [] && !(star && |ps| == 1) {
      var k := Fixed(ps, star);
      assert ps[..k][1..] == ps[1..][..k - 1];
      if k <= |us| {
        assert us[..k][1..] == us[1..][..k - 1];
      }
      MeetsStep(ps, us, star, used);
      if !IsParam(ps[0]) || used < MAX_PARAMS {
        MatchMeans(ps[1..], us[1..], star, if IsParam(ps[0]) then used + 1 else used);
      }
    } else if star && |ps| == 1 {
      assert ps[..0] == [];
    }
  }

  lemma MeetsStep(ps: seq<string>, us: seq<string>, star: bool, used: nat)
    requires ps != [] && us != [] && !(star && |ps| == 1)
    ensures Meets(ps, us, star, used) <==>
      SegmentMeets(ps[0], us[0]) && Meets(ps[1..], us[1..], star, if IsParam(ps[0]) then used + 1 else used)
  {
    var k := Fixed(ps, star);
    assert ps[..k][1..] == ps[1..][..k - 1];
    var used' := if IsParam(ps[0]) then used + 1 else used;
    if SegmentMeets(ps[0], us[0]) && Meets(ps[1..], us[1..], star, used') {
      forall i | 0 <= i < k
        ensures SegmentMeets(ps[i], us[i])
      {
        if i > 0 {
          assert SegmentMeets(ps[1..][i - 1], us[1..][i - 1]);
        }
      }
    }
    if Meets(ps, us, star, used) {
      forall i | 0 <= i < k - 1
        ensures SegmentMeets(ps[1..][i], us[1..][i])
      {
        assert SegmentMeets(ps[i + 1], us[i + 1]);
      }
    }
  }

  lemma PlainStar(p: string)
    requires NoDoubledSlash(p)
    ensures StarTail(p) <==> Segments(p) != [] && Segments(p)[|Segments(p)| - 1] == "*"
  {
    StarTailIff(p);
    AfterLastPlain(p);
  }

  /**
     The refinement for patterns without doubled slashes: pattern_match succeeds exactly when
     both start alike and the segment lists meet, a last `*` taking any nonempty rest.
   */
  lemma PlainPatternMatch(p: string, u: string)
    requires NoDoubledSlash(p)
    ensures var ps, us := Segments(p), Segments(u);
      var star := ps != [] && ps[|ps| - 1] == "*";
      MatchFrom(p, u, 0).Match? <==>
        Meets(ps, us, star, 0) && (ps == [] || Rooted(p) == Rooted(u) || (!Rooted(p) && ps == ["*"]))
  {
    var ps, us := Segments(p), Segments(u);
    PlainStar(p);
    MatchMeans(ps, us, StarTail(p), 0);
    assert |ps| == 1 ==> ps == [ps[0]];
  }

  /** With a doubled slash behind it the star is only a star. */
  lemma DoubledSlashStar()
    ensures Segments("*//") == Segments("*") == ["*"]
    ensures MatchFrom("*//", "b", 0) == NoMatch && MatchFrom("*", "b", 0).Match?
  {
    assert "*"[1..] == "" && "b"[1..] == "";
    assert "*//"[1..] == "//" && "//"[1..] == "/" && "/"[1..] == "";
    StarIsOnlySegment("*");
    assert SegmentLength("//") == 0 && SegmentLength("*//") == 1;
    assert "*//"[..1] == "*" && Segments("//") == Segments("/") == [];
  }

  // ----- a route as its author writes it --------------------------------------------

  /** A text that is one segment. */
  predicate Plain(g: string)
  {
    g != "" && '/' !in g && '?' !in g
  }

  lemma SegmentEnds(g: string, rest: string)
    requires Plain(g) && (rest == "" || rest[0] == '/' || rest[0] == '?')
    ensures SegmentLength(g + rest) == |g|
  {
    hide SegmentLength;
    var s := g + rest;
    assert forall k :: 0 <= k < |g| ==> s[k] == g[k] && g[k] in g;
    assert rest != "" ==> s[|g|] == rest[0];
  }

  /** A segment, and what its slash or the query separates from it. */
  lemma OneSegment(g: string, rest: string)
    requires Plain(g) && (rest == "" || rest[0] == '/' || rest[0] == '?')
    ensures Segments(g + rest) == [g] + Segments(rest) && Segments("/" + (g + rest)) == [g] + Segments(rest)
    ensures StarTail("/" + (g + rest)) == StarTail(g + rest) && !Rooted(g + rest)
    ensures g[0] != '*' ==> StarTail(g + rest) == StarTail(rest)
  {
    var s := g + rest;
    SegmentEnds(g, rest);
    assert s[0] == g[0] && g[0] in g;
    assert s[..|g|] == g && s[|g|..] == rest;
    assert ("/" + s)[1..] == s;
  }

  lemma NoSegments(rest: string)
    requires rest == "" || rest[0] == '?'
    ensures Segments(rest) == [] && !StarTail(rest)
  {
  }

  /** `/g/x`, or `g/x` without the first slash. */
  function TwoParts(rooted: bool, g: string, x: string): string
  {
    (if rooted then "/" else "") + (g + ("/" + x))
  }

  lemma TwoSegments(rooted: bool, g: string, x: string)
    requires Plain(g) && Plain(x) && g[0] != '*' && x[0] != '*'
    ensures var s := TwoParts(rooted, g, x);
      Segments(s) == [g, x] && !StarTail(s) && (Rooted(s) <==> rooted) && s != ""
  {
    assert x + "" == x && "/" + (x + "") == "/" + x;
    NoSegments("");
    OneSegment(x, "");
    OneSegment(g, "/" + x);
    assert "" + (g + ("/" + x)) == g + ("/" + x);
  }

  /** A query behind a path is no part of it. */
  lemma QueryIgnored(g: string, query: string)
    requires Plain(g) && query != "" && query[0] == '?'
    ensures Segments("/" + (g + query)) == [g]
  {
    OneSegment(g, query);
    NoSegments(query);
  }

  /** The pattern `/g/:k` takes `/g/x`, with x for its parameter. */
  lemma ParamRoute(rooted: bool, g: string, k: string, x: string)
    requires Plain(g) && Plain(":" + k) && Plain(x) && |x| < VALUE_ROOM
    requires g[0] != '*' && g[0] != ':' && x[0] != '*'
    ensures MatchFrom(TwoParts(rooted, g, ":" + k), TwoParts(rooted, g, x), 0)
         == Match(|g|, 0, [Capture(EnvKey(":" + k), x)])
  {
    TwoSegments(rooted, g, ":" + k);
    TwoSegments(rooted, g, x);
    hide Segments, StarTail, EnvKey, TwoParts;
    MatchTwo(g, ":" + k, x);
  }

  lemma MatchTwo(g: string, p: string, x: string)
    requires !IsParam(g) && IsParam(p) && |x| < VALUE_ROOM
    ensures MatchSegments([g, p], [g, x], false, 0) == Match(|g|, 0, [Capture(EnvKey(p), x)])
  {
    hide EnvKey;
    var c := Capture(EnvKey(p), x);
    assert [g, p][1..] == [p] && [g, x][1..] == [x] && [p][1..] == [] && [x][1..] == [];
    assert MatchSegments([p], [x], false, 0) == AddCapture(c, MatchSegments([], [], false, 1)) == Match(0, 0, [c]);
  }

  /** The parameter `:id` is entered as PATTERN_PARAM_ID. */
  lemma ParamKey()
    ensures EnvKey(":id") == "PATTERN_PARAM_ID"
  {
    assert ":id"[1..3] == "id" && Upper("id") == "ID";
    assert EnvKey(":id") == "PATTERN_PARAM_" + "ID";
  }
}

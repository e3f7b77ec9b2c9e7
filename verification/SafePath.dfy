/**
 request_path_is_safe of src/libaxil.c, which decodes a request path again and again
 until nothing changes, and the URI that routing then uses.
 */
module SafePath {
  import opened Bytes
  import opened Text
  import opened UrlCodec

  /** Strict percent-decoding: every percent sign must begin an escape. */
  function Unescape(s: string): (r: Option<string>)
    ensures r.Some? ==> |r.value| <= |s| && (r.value == s || |r.value| < |s|)
  {
    if s == "" then Some("")
    else if s[0] == '%' then
      if !Escape(s) then None
      else
        var rest := Unescape(s[3..]);
        if rest.None? then None else Some([Unhex(s)] + rest.value)
    else
      var rest := Unescape(s[1..]);
      if rest.None? then None else Some([s[0]] + rest.value)
  }

  /** NUL, backslash, a control character or DEL. */
  predicate Forbidden(c: char)
  {
    c == NUL || c == '\\' || c < ' ' || c == 0x7f as char
  }

  /** A segment of two dots stands at `i`. */
  predicate DotDotAt(s: string, i: nat)
  {
    && i + 2 <= |s| && s[i] == '.' && s[i + 1] == '.'
    && (i == 0 || s[i - 1] == '/') && (i + 2 == |s| || s[i + 2] == '/')
  }

  predicate HasDotDot(s: string)
  {
    exists i :: 0 <= i < |s| && DotDotAt(s, i)
  }

  predicate HasForbidden(s: string)
  {
    exists i :: 0 <= i < |s| && Forbidden(s[i])
  }

  predicate Clean(s: string)
  {
    !HasForbidden(s) && !HasDotDot(s)
  }

  /** Decode until nothing changes; every form on the way must be clean, the last rooted. */
  predicate Accepts(s: string)
    decreases |s|
  {
    var t := Unescape(s);
    if t.None? || !Clean(t.value) then false
    else if t.value == s then s != "" && s[0] == '/'
    else Accepts(t.value)
  }

  function PathOf(target: string): (p: string)
    ensures p <= target && '?' !in p && (p == target || target[|p|] == '?')
  {
    if target == "" || target[0] == '?' then ""
    else
      var p := PathOf(target[1..]);
      assert target[1..][|p|..] == target[1 + |p|..];
      [target[0]] + p
  }

  predicate Safe(target: string)
  {
    var path := PathOf(target);
    0 < |path| < BUFSIZ && Accepts(path)
  }

  /** The form of a path after `k` decodings. */
  function Iterate(s: string, k: nat): Option<string>
  {
    if k == 0 then Some(s)
    else
      var t := Iterate(s, k - 1);
      if t.None? then None else Unescape(t.value)
  }

  lemma {:induction false} IterateFront(s: string, k: nat)
    ensures Iterate(s, k + 1) == if Unescape(s).None? then None else Iterate(Unescape(s).value, k)
  {
    if k != 0 {
      IterateFront(s, k - 1);
    } else {
      assert Iterate(s, 1) == Unescape(Iterate(s, 0).value);
    }
  }

  // ----- forbidden content survives decoding -----------------------------------

  predicate HexOrPercent(c: char)
  {
    c == '%' || HexValue(c) >= 0
  }

  /** Decoding splits at any character that cannot be part of an escape. */
  lemma {:induction false} UnescapeSplits(a: string, c: char, b: string)
    requires !HexOrPercent(c) && Unescape(a + [c] + b).Some?
    ensures Unescape(a).Some? && Unescape(b).Some?
    ensures Unescape(a + [c] + b).value == Unescape(a).value + [c] + Unescape(b).value
  {
    var s := a + [c] + b;
    if a == "" {
      assert s[0] == c && s[1..] == b;
    } else {
      var n := if a[0] == '%' then 3 else 1;
      assert |a| <= 2 ==> s[|a|] == c;
      assert s[n..] == a[n..] + [c] + b;
      UnescapeSplits(a[n..], c, b);
      var x := if n == 3 then Unhex(a) else a[0];
      Regroup([x], Unescape(a[n..]).value, [c], Unescape(b).value);
    }
  }

  lemma Regroup(x: string, a: string, c: string, b: string)
    ensures x + (a + c + b) == x + a + c + b
  {
  }

  /** A forbidden character of the undecoded form is still there after decoding. */
  lemma ForbiddenSurvives(s: string)
    requires Unescape(s).Some? && HasForbidden(s)
    ensures HasForbidden(Unescape(s).value)
  {
    var i :| 0 <= i < |s| && Forbidden(s[i]);
    assert s == s[..i] + [s[i]] + s[i + 1..];
    assert !HexOrPercent(s[i]);
    hide Unescape;
    UnescapeSplits(s[..i], s[i], s[i + 1..]);
    var t := Unescape(s).value;
    var k := |Unescape(s[..i]).value|;
    assert t[k] == s[i];
  }

  /** Two dots, decoded with what is on either side. */
  lemma DotsSplit(a: string, b: string)
    requires Unescape(a + "." + ("." + b)).Some?
    ensures Unescape(a).Some? && Unescape(b).Some?
    ensures Unescape(a + "." + ("." + b)).value == Unescape(a).value + "." + ("." + Unescape(b).value)
  {
    UnescapeSplits(a, '.', "." + b);
    assert "" + "." + b == "." + b;
    UnescapeSplits("", '.', b);
    assert "" + "." + Unescape(b).value == "." + Unescape(b).value;
  }

  /** A slash at either end of a text stays there. */
  lemma SlashStays(s: string)
    requires s != "" && Unescape(s).Some?
    ensures Unescape(s).value != ""
    ensures s[|s| - 1] == '/' ==> Unescape(s).value[|Unescape(s).value| - 1] == '/'
    ensures s[0] == '/' ==> Unescape(s).value[0] == '/'
  {
    if s[|s| - 1] == '/' {
      assert s == s[..|s| - 1] + "/" + "";
      UnescapeSplits(s[..|s| - 1], '/', "");
    }
  }

  lemma AroundDots(s: string, i: nat)
    requires DotDotAt(s, i)
    ensures s == s[..i] + "." + ("." + s[i + 2..])
  {
    assert s == s[..i] + s[i..] && s[i..] == [s[i]] + ([s[i + 1]] + s[i + 2..]);
    assert s[..i] + (['.'] + (['.'] + s[i + 2..])) == s[..i] + ['.'] + (['.'] + s[i + 2..]);
  }

  /** What a segment of two dots and its surroundings decode to. */
  lemma DotsAround(s: string, i: nat) returns (ta: string, tb: string)
    requires Unescape(s).Some? && DotDotAt(s, i)
    ensures Unescape(s).value == ta + "." + ("." + tb)
    ensures (ta == "" || ta[|ta| - 1] == '/') && (tb == "" || tb[0] == '/')
  {
    hide Unescape;
    var a, b := s[..i], s[i + 2..];
    AroundDots(s, i);
    DotsSplit(a, b);
    if a != "" {
      SlashStays(a);
    }
    if b != "" {
      SlashStays(b);
    }
    ta, tb := Unescape(a).value, Unescape(b).value;
  }

  /** So is a segment of two dots. */
  lemma DotDotSurvives(s: string)
    requires Unescape(s).Some? && HasDotDot(s)
    ensures HasDotDot(Unescape(s).value)
  {
    var i :| 0 <= i < |s| && DotDotAt(s, i);
    var ta, tb := DotsAround(s, i);
    DotsStand(ta, tb);
  }

  lemma DotsStand(a: string, b: string)
    requires (a == "" || a[|a| - 1] == '/') && (b == "" || b[0] == '/')
    ensures HasDotDot(a + "." + ("." + b))
  {
    assert DotDotAt(a + "." + ("." + b), |a|);
  }

  lemma CleanBefore(s: string)
    requires Unescape(s).Some? && Clean(Unescape(s).value)
    ensures Clean(s)
  {
    if HasForbidden(s) {
      ForbiddenSurvives(s);
    }
    if HasDotDot(s) {
      DotDotSurvives(s);
    }
  }

  // ----- acceptance means every form is clean -----------------------------------

  ghost predicate EveryFormClean(s: string)
  {
    forall k: nat :: Iterate(s, k).Some? && Clean(Iterate(s, k).value)
  }

  /**
     A path is accepted exactly when it can be decoded any number of times, every form,
     the one sent included, is free of `..` segments, backslashes and control characters,
     and the final form begins with a slash.
   */
  lemma {:induction false} AcceptsIff(s: string)
    ensures Accepts(s) <==>
      EveryFormClean(s) && Iterate(s, |s|).value != "" && Iterate(s, |s|).value[0] == '/'
    decreases |s|
  {
    IterateFront(s, 0);
    assert Iterate(s, 0) == Some(s) && Iterate(s, 1) == Unescape(s);
    var t := Unescape(s);
    if t.None? || !Clean(t.value) {
      assert !EveryFormClean(s);
    } else {
      CleanBefore(s);
      if t.value == s {
        forall k: nat
          ensures Iterate(s, k) == Some(s)
        {
          Fixpoint(s, k);
        }
      } else {
        AcceptsIff(t.value);
        Shift(s, t.value);
        LaterForms(t.value, |s| - 1);
        IterateFront(s, |s| - 1);
      }
    }
  }

  lemma {:induction false} Fixpoint(s: string, k: nat)
    requires Unescape(s) == Some(s)
    ensures Iterate(s, k) == Some(s)
  {
    if k != 0 {
      Fixpoint(s, k - 1);
    }
  }

  lemma Shift(s: string, t: string)
    requires Unescape(s) == Some(t) && Clean(s)
    ensures EveryFormClean(s) <==> EveryFormClean(t)
  {
    if EveryFormClean(t) {
      forall k: nat
        ensures Iterate(s, k).Some? && Clean(Iterate(s, k).value)
      {
        if k != 0 {
          IterateFront(s, k - 1);
        }
      }
    }
    if EveryFormClean(s) {
      forall k: nat
        ensures Iterate(t, k).Some? && Clean(Iterate(t, k).value)
      {
        IterateFront(s, k);
        assert Iterate(s, k + 1).Some?;
      }
    }
  }

  /** From `|s|` decodings on, one more changes nothing. */
  lemma {:induction false} Settled(s: string, k: nat)
    requires |s| <= k
    ensures Iterate(s, k + 1) == Iterate(s, k)
    decreases |s|
  {
    IterateFront(s, k);
    if s == "" {
      Fixpoint(s, k);
    } else {
      hide Unescape, Iterate;
      IterateFront(s, k - 1);
      var t := Unescape(s);
      if t.Some? && t.value != s {
        Settled(t.value, k - 1);
      } else if t.Some? {
        Fixpoint(s, k);
        Fixpoint(s, k - 1);
      }
    }
  }

  /** After as many decodings as there are characters nothing changes any more. */
  lemma {:induction false} LaterForms(s: string, k: nat)
    requires |s| <= k
    ensures Iterate(s, k) == Iterate(s, |s|)
    decreases k
  {
    hide Unescape, Iterate;
    if |s| < k {
      LaterForms(s, k - 1);
      Settled(s, k - 1);
    }
  }

  // ----- on the characters of the target ----------------------------------------

  /** One character of a decodable text. */
  lemma UnescapeStep(s: string, n: nat)
    requires s != "" && n == (if s[0] == '%' then 3 else 1) && (n == 3 ==> Escape(s))
    ensures n <= |s| && (Unescape(s).Some? <==> Unescape(s[n..]).Some?)
    ensures Unescape(s).Some? ==> Unescape(s).value == [if n == 3 then Unhex(s) else s[0]] + Unescape(s[n..]).value
  {
  }

  /** Of two texts, the first of which is not cut inside an escape, one character. */
  lemma Peel(a: string, s: string) returns (n: nat, x: string)
    requires a != "" && (s == "" || HexValue(s[0]) < 0) && Unescape(a + s).Some?
    ensures 0 < n <= |a| && Unescape(a[n..] + s).Some? && Unescape(a + s).value == x + Unescape(a[n..] + s).value
    ensures Unescape(a[n..]).Some? ==> Unescape(a) == Some(x + Unescape(a[n..]).value)
  {
    hide Unescape, HexValue, Escape;
    n := if a[0] == '%' then 3 else 1;
    assert (a + s)[0] == a[0];
    if n == 3 {
      EscapeNeeded(a + s);
      EscapeInside(a, s);
    }
    UnescapeStep(a + s, n);
    UnescapeStep(a, n);
    assert (a + s)[n..] == a[n..] + s;
    x := [if n == 3 then Unhex(a) else a[0]];
  }

  /** No escape of what stands before reaches into a text that begins with no hexadecimal digit. */
  lemma {:induction false} SplitBefore(a: string, s: string)
    requires (s == "" || HexValue(s[0]) < 0) && Unescape(a + s).Some?
    ensures Unescape(a).Some? && Unescape(s).Some?
    ensures Unescape(a + s).value == Unescape(a).value + Unescape(s).value
    decreases |a|
  {
    if a == "" {
      assert a + s == s;
    } else {
      hide Unescape, HexValue;
      var n, x := Peel(a, s);
      SplitBefore(a[n..], s);
      Glue(x, Unescape(a[n..]).value, Unescape(s).value);
    }
  }

  lemma EscapeNeeded(s: string)
    requires s != "" && s[0] == '%' && Unescape(s).Some?
    ensures Escape(s)
  {
  }

  lemma EscapeInside(a: string, s: string)
    requires a != "" && a[0] == '%' && (s == "" || HexValue(s[0]) < 0) && Escape(a + s)
    ensures 3 <= |a| && Escape(a) && Unhex(a + s) == Unhex(a)
  {
  }

  /** A character as itself, or as an escape in either case. */
  predicate Spelling(w: string, c: char)
  {
    || (w == [c] && c != '%' && HexValue(c) < 0)
    || (|w| == 3 && w[0] == '%' && c as int < 256 && IsHex(w[1], c as int / 16) && IsHex(w[2], c as int % 16))
  }

  lemma SpellingIs(w: string, c: char)
    requires Spelling(w, c)
    ensures w != "" && HexValue(w[0]) < 0
    ensures (w == [c] && c != '%') || (Escape(w) && |w| == 3 && Unhex(w) == c)
  {
    hide IsHex, HexValue;
    assert HexValue('%') < 0 by {
      PercentIsNone();
    }
    if |w| == 3 && w[0] == '%' {
      HexValueIs(w[1], c as int / 16);
      HexValueIs(w[2], c as int % 16);
    }
  }

  lemma PercentIsNone()
    ensures HexValue('%') < 0
  {
  }

  lemma SpelledFront(w: string, c: char, b: string)
    requires Spelling(w, c)
    ensures w + b != "" && HexValue((w + b)[0]) < 0 && (Unescape(w + b).Some? <==> Unescape(b).Some?)
    ensures Unescape(b).Some? ==> Unescape(w + b).value == [c] + Unescape(b).value
  {
    SpellingIs(w, c);
    hide Spelling, Unescape, HexValue;
    assert (w + b)[0] == w[0];
    if |w| == 3 {
      assert (w + b)[1] == w[1] && (w + b)[2] == w[2];
    }
    UnescapeStep(w + b, |w|);
    assert (w + b)[|w|..] == b;
  }

  /** Whatever is on either side, a spelled character is decoded to itself. */
  lemma SpelledDecodes(a: string, w: string, c: char, b: string)
    requires Spelling(w, c) && Unescape(a + (w + b)).Some?
    ensures Unescape(a).Some? && Unescape(b).Some?
    ensures Unescape(a + (w + b)).value == Unescape(a).value + ([c] + Unescape(b).value)
  {
    hide Unescape, Spelling, HexValue;
    SpelledFront(w, c, b);
    SplitBefore(a, w + b);
  }

  predicate IsDot(w: string)
  {
    w == "." || w == "%2e" || w == "%2E"
  }

  /** A `..` segment is refused, each dot written as itself, as `%2e` or as `%2E`. */
  lemma SpelledDotsAreUnsafe(target: string, a: string, v: string, w: string, b: string)
    requires PathOf(target) == a + (v + (w + b))
    requires IsDot(v) && IsDot(w)
    requires (a == "" || a[|a| - 1] == '/') && (b == "" || b[0] == '/')
    ensures !Safe(target)
  {
    var path := PathOf(target);
    DotSpelled(v);
    DotSpelled(w);
    hide IsDot, Spelling, Unescape, PathOf, HasDotDot;
    if Unescape(path).Some? {
      SpelledDecodes(a, v, '.', w + b);
      SpelledFront(w, '.', b);
      var ta, tb := Unescape(a).value, Unescape(b).value;
      SpelledAround(a, b, ta, tb);
      Glue(ta, ".", "." + tb);
      DotsStand(ta, tb);
    }
  }

  lemma SpelledAround(a: string, b: string, ta: string, tb: string)
    requires Unescape(a) == Some(ta) && Unescape(b) == Some(tb)
    requires (a == "" || a[|a| - 1] == '/') && (b == "" || b[0] == '/')
    ensures (ta == "" || ta[|ta| - 1] == '/') && (tb == "" || tb[0] == '/')
  {
    if a != "" {
      SlashStays(a);
    }
    if b != "" {
      SlashStays(b);
    }
  }

  lemma DotSpelled(w: string)
    requires IsDot(w)
    ensures Spelling(w, '.')
  {
    if w != "." {
      assert w[1] == LOWER_HEX[2] && (w[2] == LOWER_HEX[14] || w[2] == UPPER_HEX[14]);
    }
  }

  /** So is a backslash, a control character or DEL, however it is written. */
  lemma SpelledForbiddenIsUnsafe(target: string, a: string, w: string, c: char, b: string)
    requires PathOf(target) == a + (w + b) && Spelling(w, c)
    requires c == '\\' || c as int < 32 || c as int == 127
    ensures !Safe(target)
  {
    var path := PathOf(target);
    hide Spelling, Unescape, PathOf;
    if Unescape(path).Some? {
      SpelledDecodes(a, w, c, b);
      assert Unescape(path).value[|Unescape(a).value|] == c;
    }
  }

  /** Of a path without escapes that is all there is to it. */
  lemma PlainSafeIff(target: string)
    requires '%' !in PathOf(target)
    ensures var path := PathOf(target);
      Safe(target) <==>
        && 0 < |path| < 8192 && path[0] == '/' && !HasDotDot(path)
        && forall k :: 0 <= k < |path| ==> path[k] != '\\' && path[k] as int >= 32 && path[k] as int != 127
  {
    PlainText(PathOf(target));
  }

  // ----- the loops --------------------------------------------------------------

  /** The text of a C string held in a buffer. */
  ghost predicate Holds(a: array<char>, s: string)
    reads a
  {
    |s| < a.Length && a[..|s|] == s && a[|s|] == NUL && NUL !in s
  }

  /** One character of the pass, or a malformed escape. */
  method NextStrict(current: array<char>, src: nat, ghost s: string) returns (ok: bool, c: char, next: nat)
    requires Holds(current, s) && src < |s|
    ensures src < next && (ok ==> next <= |s| && (next == src + 1 || next == src + 3))
    ensures Unescape(s[src..]) == if ok then Prepend([c], Unescape(s[next..])) else None
  {
    ghost var rest := s[src..];
    c, next, ok := current[src], src + 1, true;
    if c == '%' {
      if current[next] == NUL || current[next + 1] == NUL
         || HexValue(current[next]) < 0 || HexValue(current[next + 1]) < 0 {
        return false, c, next;
      }
      c := (HexValue(current[next]) * 16 + HexValue(current[next + 1])) as char;
      assert rest[3..] == s[src + 3..];
      next := next + 2;
    } else {
      assert rest[1..] == s[src + 1..];
    }
  }

  /** The decoding pass: strict escapes, no forbidden character, into the other buffer. */
  method DecodePass(current: array<char>, decoded: array<char>, ghost s: string)
    returns (ok: bool, changed: bool, dst: nat)
    requires Holds(current, s) && current != decoded && current.Length <= decoded.Length
    modifies decoded
    ensures ok <==> Unescape(s).Some? && !HasForbidden(Unescape(s).value)
    ensures ok ==> Holds(decoded, Unescape(s).value) && dst == |Unescape(s).value|
    ensures ok ==> (changed <==> |Unescape(s).value| < |s|)
  {
    NothingDecoded(s);
    hide Unescape, HasForbidden, Forbidden, Prepend;
    var src := 0;
    dst, changed := 0, false;
    while current[src] != NUL
      invariant 0 <= src <= |s| && dst <= src && (changed <==> dst < src)
      invariant Holds(current, s)
      invariant NUL !in decoded[..dst] && !HasForbidden(decoded[..dst])
      invariant Unescape(s) == Prepend(decoded[..dst], Unescape(s[src..]))
      decreases |s| - src
    {
      ghost var done := decoded[..dst];
      var good, c, next := NextStrict(current, src, s);
      if !good {
        PrependNone(done);
        return false, changed, dst;
      }
      changed := changed || next > src + 1;
      ghost var more := Unescape(s[next..]);
      PrependOne(done, c, more);
      if Forbidden(c) {
        ForbiddenStays(done, c, more);
        return false, changed, dst;
      }
      StillClean(done, c);
      decoded[dst] := c;
      src, dst := next, dst + 1;
      assert decoded[..dst] == done + [c];
      assert Unescape(s) == Prepend(done + [c], more);
    }
    ghost var t := decoded[..dst];
    Ended(s, src, t);
    decoded[dst] := NUL;
    ok := true;
    assert decoded[..dst] == t;
  }

  lemma NothingDecoded(s: string)
    ensures !HasForbidden("") && s[0..] == s && Unescape(s) == Prepend("", Unescape(s))
  {
    assert Unescape(s).Some? ==> "" + Unescape(s).value == Unescape(s).value;
  }

  lemma Ended(s: string, src: nat, t: string)
    requires src == |s| && Unescape(s) == Prepend(t, Unescape(s[src..]))
    ensures Unescape(s) == Some(t)
  {
    assert s[src..] == "" && t + "" == t;
  }

  lemma StillClean(a: string, c: char)
    requires NUL !in a && !HasForbidden(a) && !Forbidden(c)
    ensures NUL !in a + [c] && !HasForbidden(a + [c])
  {
  }

  function Prepend(a: string, r: Option<string>): Option<string>
  {
    if r.None? then None else Some(a + r.value)
  }

  lemma PrependNone(a: string)
    ensures Prepend(a, None) == None
  {
  }

  lemma PrependOne(a: string, c: char, r: Option<string>)
    ensures Prepend(a, Prepend([c], r)) == Prepend(a + [c], r)
  {
    if r.Some? {
      assert a + ([c] + r.value) == a + [c] + r.value;
    }
  }

  lemma ForbiddenStays(a: string, c: char, r: Option<string>)
    requires Forbidden(c)
    ensures var t := Prepend(a + [c], r); t.None? || HasForbidden(t.value)
  {
    var t := Prepend(a + [c], r);
    assert t.Some? ==> t.value[|a|] == c;
  }

  /** The segment loop: is there a segment of exactly two dots? */
  method SegmentLoop(decoded: array<char>, ghost t: string) returns (found: bool)
    requires Holds(decoded, t)
    ensures found <==> HasDotDot(t)
  {
    var segment, p := 0, 0;
    while true
      invariant 0 <= segment <= p <= |t| && Holds(decoded, t)
      invariant segment == 0 || t[segment - 1] == '/'
      invariant forall k :: segment <= k < p ==> t[k] != '/'
      invariant forall k :: 0 <= k < segment ==> !DotDotAt(t, k)
      decreases |t| - p
    {
      if decoded[p] != '/' && decoded[p] != NUL {
        p := p + 1;
        continue;
      }
      assert p < |t| ==> t[p] == decoded[p];
      if p - segment == 2 && decoded[segment] == '.' && decoded[segment + 1] == '.' {
        assert DotDotAt(t, segment);
        return true;
      }
      NoDotDotInSegment(t, segment, p);
      if decoded[p] == NUL {
        return false;
      }
      segment, p := p + 1, p + 1;
    }
  }

  /** A segment is the whole of what stands between two slashes. */
  lemma NoDotDotInSegment(t: string, segment: nat, p: nat)
    requires segment <= p <= |t| && (p == |t| || t[p] == '/')
    requires forall k :: segment <= k < p ==> t[k] != '/'
    requires !(p - segment == 2 && t[segment] == '.' && t[segment + 1] == '.')
    ensures forall k :: segment <= k <= p && k < |t| ==> !DotDotAt(t, k)
  {
  }

  /** request_path_is_safe. */
  method RequestPathIsSafe(target: string) returns (safe: bool)
    requires NUL !in target
    ensures safe <==> Safe(target)
  {
    var path := PathOf(target);
    if |path| == 0 || |path| >= BUFSIZ {
      return false;
    }
    var current, decoded := new char[BUFSIZ], new char[BUFSIZ];
    forall i | 0 <= i < |path| { current[i] := path[i]; }
    current[|path|] := NUL;
    ghost var s := path;
    while true
      invariant Holds(current, s) && current != decoded && current.Length == decoded.Length == BUFSIZ
      invariant fresh(current) && fresh(decoded)
      invariant Accepts(path) <==> Accepts(s)
      decreases |s|
    {
      ghost var t := Unescape(s);
      var ok, changed, dst := DecodePass(current, decoded, s);
      if !ok {
        return false;
      }
      var found := SegmentLoop(decoded, t.value);
      if found {
        return false;
      }
      if !changed {
        return decoded[0] == '/';
      }
      forall i | 0 <= i <= dst { current[i] := decoded[i]; }
      s := t.value;
    }
  }

  // ----- the URI that routing uses ----------------------------------------------

  /** The decoded target up to its first question mark. */
  function DocumentUri(target: string): string
  {
    PathOf(Decode(target))
  }

  /** Lenient decoding of a strictly decodable path differs only in turning a plus into a space. */
  ghost predicate Spaced(d: string, t: string)
  {
    |d| == |t| && forall k :: 0 <= k < |t| ==> d[k] == t[k] || (t[k] == '+' && d[k] == ' ')
  }

  lemma {:induction false} DecodeSpaced(path: string)
    requires Unescape(path).Some?
    ensures Spaced(Decode(path), Unescape(path).value)
  {
    if path != "" {
      DecodeSpaced(path[if path[0] == '%' then 3 else 1..]);
    }
  }

  lemma {:induction false} DecodeOfPath(path: string, rest: string)
    requires Unescape(path).Some?
    ensures Decode(path + rest) == Decode(path) + Decode(rest)
  {
    var s := path + rest;
    if path == "" {
      assert s == rest;
    } else {
      var n := if path[0] == '%' then 3 else 1;
      assert s[n..] == path[n..] + rest;
      DecodeOfPath(path[n..], rest);
      DecodeHead(path, n);
      DecodeHead(s, n);
      Glue(Decode(path)[..1], Decode(path[n..]), Decode(rest));
    }
  }

  lemma Glue(x: string, a: string, b: string)
    ensures x + (a + b) == x + a + b
  {
  }

  /** One character of a decodable text comes from its first one or three. */
  lemma DecodeHead(s: string, n: nat)
    requires s != "" && n <= |s| && n == (if s[0] == '%' then 3 else 1) && (n == 3 ==> Escape(s))
    ensures Decode(s) == [if n == 3 then Unhex(s) else if s[0] == '+' then ' ' else s[0]] + Decode(s[n..])
  {
  }

  lemma SpacedDots(d: string, t: string, k: nat)
    requires Spaced(d, t) && k < |t|
    ensures DotDotAt(d, k) <==> DotDotAt(t, k)
    ensures d[k] == '?' <==> t[k] == '?'
  {
    assert forall i :: 0 <= i < |t| ==> (d[i] == '.' <==> t[i] == '.') && (d[i] == '/' <==> t[i] == '/');
  }

  /** The path of a text is what stands before its first question mark. */
  lemma {:induction false} PathIsFirst(s: string, q: nat)
    requires q <= |s| && '?' !in s[..q] && (q == |s| || s[q] == '?')
    ensures PathOf(s) == s[..q]
  {
    if q != 0 {
      assert s[0] in s[..q];
      assert s[..q][1..] == s[1..][..q - 1];
      PathIsFirst(s[1..], q - 1);
    }
  }

  /**
     Of an accepted target the URI has no `..` segment, unless the once-decoded path holds a
     question mark right behind such dots: the cut then makes them a segment.  This is exact.
   */
  lemma UriDotDotIff(target: string)
    requires Safe(target)
    ensures var t := Unescape(PathOf(target)).value;
      HasDotDot(DocumentUri(target)) <==>
        exists q :: 0 <= q < |t| && DotsBeforeQuery(t, q)
  {
    UriLikePath(target);
    CutIff(Unescape(PathOf(target)).value);
  }

  /** The URI has such a segment just when the once-decoded path, cut at its question mark, has. */
  lemma UriLikePath(target: string)
    requires Safe(target)
    ensures var t := Unescape(PathOf(target)).value;
      !HasDotDot(t) && (HasDotDot(DocumentUri(target)) <==> HasDotDot(PathOf(t)))
  {
    var path := PathOf(target);
    var rest := target[|path|..];
    assert target == path + rest;
    RestStartsQuery(rest);
    var t, d := Unescape(path).value, Decode(path);
    assert !HasDotDot(t);
    hide Unescape, Decode, Accepts, HasDotDot;
    DecodeOfPath(path, rest);
    DecodeSpaced(path);
    UriOfPath(d, Decode(rest), t, target);
    var q := |PathOf(t)|;
    assert Spaced(d[..q], t[..q]) && PathOf(t) == t[..q];
    SameDots(d[..q], t[..q]);
  }

  lemma CutIff(t: string)
    requires !HasDotDot(t)
    ensures HasDotDot(PathOf(t)) <==> exists q :: 0 <= q < |t| && DotsBeforeQuery(t, q)
  {
    hide HasDotDot;
    var p := PathOf(t);
    assert p == t[..|p|];
    CutDots(t, |p|);
    if r :| 0 <= r < |t| && DotsBeforeQuery(t, r) {
      PathIsFirst(t, r);
      assert |p| == r;
    }
  }

  lemma SameDots(d: string, t: string)
    requires Spaced(d, t)
    ensures HasDotDot(d) <==> HasDotDot(t)
  {
    forall k | 0 <= k < |d|
      ensures DotDotAt(d, k) <==> DotDotAt(t, k)
    {
      SpacedDots(d, t, k);
    }
  }

  /** The cut falls where the decoded path has its first question mark, or at its end. */
  lemma UriOfPath(d: string, more: string, t: string, target: string)
    requires Spaced(d, t) && Decode(target) == d + more && (more == "" || more[0] == '?')
    ensures DocumentUri(target) == d[..|PathOf(t)|]
  {
    var q := |PathOf(t)|;
    assert PathOf(t) == t[..q];
    forall k | 0 <= k < |t|
      ensures d[k] == '?' <==> t[k] == '?'
    {
      SpacedDots(d, t, k);
    }
    assert (d + more)[..q] == d[..q];
    assert forall k :: 0 <= k < q ==> t[k] == t[..q][k];
    PathIsFirst(d + more, q);
  }

  /** The first question mark stands at `q`, right behind a pair of dots that starts a segment. */
  predicate DotsBeforeQuery(t: string, q: nat)
  {
    && 2 <= q < |t| && t[q] == '?' && '?' !in t[..q]
    && t[q - 2] == '.' && t[q - 1] == '.' && (q == 2 || t[q - 3] == '/')
  }

  /** Cutting a text without `..` segments leaves one exactly when two dots end there. */
  lemma CutDots(t: string, q: nat)
    requires !HasDotDot(t) && q == |PathOf(t)|
    ensures HasDotDot(t[..q]) <==> DotsBeforeQuery(t, q)
  {
    if HasDotDot(t[..q]) {
      var i :| 0 <= i < q && DotDotAt(t[..q], i);
      assert !DotDotAt(t, i);
      assert i + 2 == q;
    }
    if DotsBeforeQuery(t, q) {
      assert DotDotAt(t[..q], q - 2);
    }
  }

  lemma RestStartsQuery(rest: string)
    requires rest == "" || rest[0] == '?'
    ensures Decode(rest) == "" || Decode(rest)[0] == '?'
  {
  }

  /** Without a question mark in the decoded path the URI is free of `..` segments. */
  lemma UriWithoutQuestionMark(target: string)
    requires Safe(target) && '?' !in Unescape(PathOf(target)).value
    ensures !HasDotDot(DocumentUri(target))
  {
    UriDotDotIff(target);
    var t := Unescape(PathOf(target)).value;
    assert forall q :: 0 <= q < |t| ==> t[q] in t;
  }

  /** Of a target without escapes and plus signs the URI is what stands before the question mark. */
  lemma PlainUri(path: string, query: string)
    requires '%' !in path + query && '+' !in path + query && '?' !in path && (query == "" || query[0] == '?')
    ensures DocumentUri(path + query) == path
  {
    DecodePlain(path + query);
    assert (path + query)[..|path|] == path;
    PathIsFirst(path + query, |path|);
  }

  /** Accepted, and yet the URI is the parent directory. */
  lemma EscapedQuestionMark()
    ensures Safe("/..%3Fx") && DocumentUri("/..%3Fx") == "/.."
  {
    var s, t := "/..%3Fx", "/..?x";
    ExampleUnescapes();
    assert s[..7] == s && t[..3] == "/..";
    PathIsFirst(s, 7);
    PathIsFirst(t, 3);
    DecodeSpaced(s);
    assert Decode(s) == t;
    ExampleIsClean();
    assert Accepts(t);
  }

  lemma ExampleUnescapes()
    ensures Unescape("/..%3Fx") == Some("/..?x") && Unescape("/..?x") == Some("/..?x")
  {
    var e := "%3Fx";
    assert Unescape("x") == Some("x") by { PlainText("x"); }
    assert Unescape(e) == Some("?x") by { assert e[3..] == "x" && Unhex(e) == '?' && "?" + "x" == "?x"; }
    assert ['.'] + "?x" == ".?x" && ['.'] + ".?x" == "..?x" && ['/'] + "..?x" == "/..?x";
    assert ['.'] + e == "." + e && ['.'] + ("." + e) == ".." + e && ['/'] + (".." + e) == "/..%3Fx";
    PlainStep('.', e, "?x");
    PlainStep('.', "." + e, ".?x");
    PlainStep('/', ".." + e, "..?x");
    PlainText("/..?x");
  }

  lemma ExampleIsClean()
    ensures Clean("/..?x")
  {
    var t := "/..?x";
    assert forall i :: 0 <= i < |t| ==> !DotDotAt(t, i);
  }

  lemma PlainStep(c: char, rest: string, t: string)
    requires c != '%' && Unescape(rest) == Some(t)
    ensures Unescape([c] + rest) == Some([c] + t)
  {
    assert ([c] + rest)[1..] == rest;
  }

  lemma {:induction false} PlainText(s: string)
    requires '%' !in s
    ensures Unescape(s) == Some(s)
  {
    if s != "" {
      PlainText(s[1..]);
      assert s[0] in s && s == [s[0]] + s[1..];
    }
  }

  /** A carriage return in the path is refused. */
  lemma ReturnIsUnsafe(target: string, n: nat)
    requires n < |target| && target[n] == '\r' && '?' !in target[..n]
    ensures !Safe(target)
  {
    var path := PathOf(target);
    assert path[n] == target[n] && HasForbidden(path);
    hide Unescape, PathOf, HasForbidden;
    if Unescape(path).Some? {
      ForbiddenSurvives(path);
    }
  }

  /** Without escapes and plus signs decoding changes nothing. */
  lemma {:induction false} DecodePlain(s: string)
    requires '%' !in s && '+' !in s
    ensures Decode(s) == s
  {
    if s != "" {
      assert s[0] in s && s == [s[0]] + s[1..];
      DecodePlain(s[1..]);
    }
  }

  /**
     What request_handle makes of a target before it looks for a handler: refused, or the URI.
     The decoder's bound cannot cut a target that passes the length test.
   */
  method RequestUri(target: string) returns (uri: Option<string>)
    requires NUL !in target
    ensures uri.Some? <==> Safe(target) && |target| < BUFSIZ && NUL !in Decode(target)
    ensures uri.Some? ==> uri.value == DocumentUri(target)
  {
    var safe := RequestPathIsSafe(target);
    if !safe || |target| >= BUFSIZ {
      return None;
    }
    var buffer := new char[BUFSIZ];
    var n := UrlDecode(target, buffer);
    assert buffer[..n] == Decode(target);
    if NUL in buffer[..n] {
      return None;
    }
    return Some(PathOf(buffer[..n]));
  }
}

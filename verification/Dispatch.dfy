/**
 From the words of a request line to a handler: cmd_proc of src/libaxil.c, and the checks of
 request_handle that come before the header lines are read.
 */
module Dispatch {
  import opened Bytes
  import opened HeadFormat
  import opened HeaderBlock
  import opened RequestLine
  import Text
  import SafePath
  import UrlCodec

  const GET: Octets := [71, 69, 84]
  const HEAD: Octets := [72, 69, 65, 68]
  const POST: Octets := [80, 79, 83, 84]
  const PUT: Octets := [80, 85, 84]
  const DELETE: Octets := [68, 69, 76, 69, 84, 69]

  const PRI: Octets := [80, 82, 73]
  const STAR: Octets := [42]
  const HTTP_2: Octets := [72, 84, 84, 80, 47, 50]
  const QUERY: byte := 63

  // ----- what the line says ---------------------------------------------------------------

  /** The first whitespace octet from `from` on, or the end. */
  function NextSpace(s: Octets, from: nat): (r: nat)
    requires from <= |s|
    ensures from <= r <= |s| && (r < |s| ==> IsSpace(s[r])) && forall k :: from <= k < r ==> !IsSpace(s[k])
    decreases |s| - from
  {
    if from == |s| || IsSpace(s[from]) then from else NextSpace(s, from + 1)
  }

  /** How many letters and digits it begins with. */
  function AlnumPrefix(s: Octets): (n: nat)
    ensures n <= |s| && (n < |s| ==> !IsAlnum(s[n])) && forall k :: 0 <= k < n ==> IsAlnum(s[k])
  {
    if s == [] || !IsAlnum(s[0]) then 0 else 1 + AlnumPrefix(s[1..])
  }

  /** The letters and digits the line begins with: what follows them in the first word does not matter. */
  function Method(line: Octets): Octets
  {
    line[..AlnumPrefix(line)]
  }

  predicate WantsBody(name: Octets)
  {
    name == POST || name == PUT || name == DELETE
  }

  predicate Registered(name: Octets)
  {
    name == GET || name == HEAD || WantsBody(name)
  }

  /** The five commands the library registers, and which of them have a body; the preface's words. */
  lemma CommandNames(name: Octets)
    ensures Registered(name) <==>
      name in {Ascii("GET"), Ascii("HEAD"), Ascii("POST"), Ascii("PUT"), Ascii("DELETE")}
    ensures WantsBody(name) <==> name in {Ascii("POST"), Ascii("PUT"), Ascii("DELETE")}
    ensures PRI == Ascii("PRI") && STAR == Ascii("*") && HTTP_2 == Ascii("HTTP/2")
  {
    assert GET == Ascii("GET") && HEAD == Ascii("HEAD") && POST == Ascii("POST") && PUT == Ascii("PUT");
    assert DELETE == Ascii("DELETE");
  }

  /** What stands between the first whitespace octet and the second, or the end. */
  function SecondWord(line: Octets): Octets
  {
    var i := NextSpace(line, 0);
    if i == |line| then [] else line[i + 1..NextSpace(line, i + 1)]
  }

  /** The request target: the second word; when nothing ends it, it runs on to the next NUL. */
  function Target(line: Octets, behind: Octets): Octets
  {
    SecondWord(line) + if Spaces(line) >= 2 then [] else CString(behind, 0)
  }

  /** The HTTP/2 preface: "PRI", "*" and a third word that begins with "HTTP/2". */
  predicate Prefaced(line: Octets)
  {
    var i := NextSpace(line, 0);
    i < |line| && line[..i] == PRI &&
    var j := NextSpace(line, i + 1);
    j < |line| && line[i + 1..j] == STAR && HTTP_2 <= line[j + 1..]
  }

  function Chars(s: Octets): (r: string)
    ensures |r| == |s| && forall k :: 0 <= k < |s| ==> r[k] == s[k] as char
  {
    seq(|s|, k requires 0 <= k < |s| => s[k] as char)
  }

  predicate Passes(target: string)
  {
    SafePath.Safe(target) && |target| < BUFSIZ && Text.NUL !in UrlCodec.Decode(target)
  }

  /** A request whose header lines are read. */
  predicate Admits(line: Octets, behind: Octets)
  {
    2 <= Argc(line) < CMD_ARGM && Registered(Method(line)) && Passes(Chars(Target(line, behind)))
  }

  datatype Verdict =
    | Ignored                                           // no words, or no such command
    | Overrun                                           // eight words: a position was written outside argv
    | Closed                                            // the connection is closed, perhaps after a 414
    | Accepted(argc: nat, bodied: bool, uri: string)    // the header lines come next

  /** What becomes of a line with this behind it. */
  predicate Judged(v: Verdict, line: Octets, behind: Octets)
  {
    && (v.Overrun? <==> Argc(line) == CMD_ARGM)
    && (v.Closed? <==> 0 < Argc(line) < CMD_ARGM && !Admits(line, behind)
                       && (Prefaced(line) || Registered(Method(line))))
    && (v.Accepted? <==> Admits(line, behind))
    && (v.Accepted? ==>
      v == Accepted(Argc(line), WantsBody(Method(line)), SafePath.DocumentUri(Chars(Target(line, behind)))))
  }

  // ----- the words in the buffer ----------------------------------------------------------

  /** cmd_new has split the line, and its array holds all positions. */
  ghost predicate Split(a: Octets, argv: seq<int>, t: Octets, base: int)
  {
    && |argv| == CMD_ARGM && LineStop(t) < |t| && 0 < Argc(RequestLineOf(t)) < CMD_ARGM
    && SplitUpTo(a, t, LineStop(t)) && Kept(argv, t, base, LineStop(t))
  }

  lemma {:induction false} NoSpacesBetween(s: Octets, from: nat, end: nat)
    requires from <= end <= |s| && forall k :: from <= k < end ==> !IsSpace(s[k])
    ensures Spaces(s[..end]) == Spaces(s[..from])
    decreases end
  {
    if from < end {
      NoSpacesBetween(s, from, end - 1);
      OneMoreOctet(s, end - 1);
    }
  }

  /** Behind a whitespace octet there is one more, up to the next. */
  lemma SpacesToNext(s: Octets, from: nat)
    requires from <= |s|
    ensures Spaces(s[..NextSpace(s, from)]) == Spaces(s[..from])
    ensures NextSpace(s, from) < |s| ==>
      Spaces(s[..NextSpace(s, from) + 1]) == Spaces(s[..from]) + 1 <= Spaces(s)
    ensures NextSpace(s, from) == |s| ==> Spaces(s) == Spaces(s[..from])
  {
    hide Spaces;
    var i := NextSpace(s, from);
    NoSpacesBetween(s, from, i);
    assert s[..|s|] == s;
    if i < |s| {
      OneMoreOctet(s, i);
      SpacesGrow(s, i + 1, |s|);
    }
  }

  /** When the array holds all positions every whitespace octet of the line has become a NUL. */
  lemma AllEnd(t: Octets, k: nat)
    requires 0 < Argc(RequestLineOf(t)) < CMD_ARGM && k < LineStop(t) && IsSpace(t[k])
    ensures EndsWord(t, k)
  {
    OneMoreOctet(t, k);
    SpacesGrow(t, k + 1, LineStop(t));
  }

  /** The position behind a whitespace octet. */
  lemma PositionOf(a: Octets, argv: seq<int>, t: Octets, base: int, k: nat)
    requires Split(a, argv, t, base) && k < LineStop(t) && IsSpace(RequestLineOf(t)[k])
    ensures Spaces(RequestLineOf(t)[..k]) + 1 < CMD_ARGM
    ensures argv[Spaces(RequestLineOf(t)[..k]) + 1] == base + k + 1
  {
    hide Spaces, LineStop;
    assert RequestLineOf(t)[k] == t[k] && RequestLineOf(t)[..k] == t[..k];
    AllEnd(t, k);
  }

  /** Counting the whitespace of a line from its front. */
  lemma FirstSpaces(line: Octets)
    ensures var i := NextSpace(line, 0);
      && Spaces(line[..i]) == 0 && (Spaces(line) >= 1 <==> i < |line|)
      && (i < |line| ==>
        var j := NextSpace(line, i + 1);
        Spaces(line[..j]) == 1 && (Spaces(line) >= 2 <==> j < |line|))
  {
    assert line[..0] == [];
    NoneInNothing();
    hide Spaces;
    SpacesToNext(line, 0);
    if NextSpace(line, 0) < |line| {
      SpacesToNext(line, NextSpace(line, 0) + 1);
    }
  }

  lemma ArgcIs(line: Octets)
    requires 0 < Argc(line) < CMD_ARGM
    ensures Argc(line) == 1 + Spaces(line)
  {
  }

  /** Where the second word is. */
  lemma SecondFound(a: Octets, argv: seq<int>, t: Octets, base: int)
    requires Split(a, argv, t, base)
    ensures var line := RequestLineOf(t);
      var i := NextSpace(line, 0);
      && argv[0] == base && (2 <= Argc(line) <==> i < |line|) && (i < |line| ==> argv[1] == base + i + 1)
  {
    var line := RequestLineOf(t);
    var i := NextSpace(line, 0);
    assert |line| == LineStop(t) && argv[0] == base;
    ArgcIs(line);
    FirstSpaces(line);
    hide LineStop, Spaces, Split, Argc, NextSpace, RequestLineOf;
    if i < |line| {
      PositionOf(a, argv, t, base, i);
    }
  }

  /** Where the third word is. */
  lemma ThirdFound(a: Octets, argv: seq<int>, t: Octets, base: int)
    requires Split(a, argv, t, base) && NextSpace(RequestLineOf(t), 0) < |RequestLineOf(t)|
    ensures var line := RequestLineOf(t);
      var j := NextSpace(line, NextSpace(line, 0) + 1);
      (3 <= Argc(line) <==> j < |line|) && (j < |line| ==> argv[2] == base + j + 1)
  {
    var line := RequestLineOf(t);
    var j := NextSpace(line, NextSpace(line, 0) + 1);
    assert |line| == LineStop(t);
    ArgcIs(line);
    FirstSpaces(line);
    hide LineStop, Spaces, Split, Argc, NextSpace, RequestLineOf;
    if j < |line| {
      PositionOf(a, argv, t, base, j);
    }
  }

  lemma NoneInNothing()
    ensures Spaces([]) == 0
  {
  }

  // ----- C strings in the buffer ----------------------------------------------------------

  lemma {:induction false} SameString(a: Octets, i: nat, b: Octets, j: nat)
    requires i <= |a| && j <= |b| && a[i..] == b[j..]
    ensures CString(a, i) == CString(b, j)
    decreases |a| - i
  {
    assert |a| - i == |a[i..]| == |b| - j;
    if i < |a| {
      assert a[i] == a[i..][0] == b[j];
      assert a[i + 1..] == a[i..][1..] == b[j + 1..];
      SameString(a, i + 1, b, j + 1);
    }
  }

  lemma {:induction false} StringThrough(a: Octets, i: nat, end: nat)
    requires i <= end <= |a| && forall k :: i <= k < end ==> a[k] != NUL
    ensures CString(a, i) == a[i..end] + CString(a, end)
    decreases end - i
  {
    if i < end {
      StringThrough(a, i + 1, end);
    }
  }

  /** What stands behind a NUL does not matter. */
  lemma {:induction false} StringCut(s: Octets, i: nat, m: nat)
    requires i <= m < |s| && s[m] == NUL
    ensures CString(s, i) == CString(s[..m], i)
    decreases m - i
  {
    if i < m {
      StringCut(s, i + 1, m);
    }
  }

  lemma {:induction false} NoNulInString(a: Octets, i: nat)
    requires i <= |a|
    ensures NUL !in CString(a, i) && |CString(a, i)| <= |a| - i
    decreases |a| - i
  {
    if i < |a| && a[i] != NUL {
      NoNulInString(a, i + 1);
    }
  }

  lemma {:induction false} StringStarts(a: Octets, i: nat, w: Octets)
    requires i <= |a| && NUL !in w
    ensures w <= CString(a, i) <==> i + |w| <= |a| && a[i..i + |w|] == w
    decreases |w|
  {
    if w != [] && i < |a| {
      assert w[0] != NUL;
      StringStarts(a, i + 1, w[1..]);
      assert w == [w[0]] + w[1..];
      if i + |w| <= |a| {
        assert a[i..i + |w|] == [a[i]] + a[i + 1..i + |w|];
      }
      if a[i] != NUL {
        assert CString(a, i) == [a[i]] + CString(a, i + 1);
      }
    }
  }

  /** The split buffer behind `i`, where the trimming of the first word does not reach. */
  ghost predicate SplitBehind(a: Octets, t: Octets, i: nat)
  {
    |a| == |t| && forall k :: i < k < |t| ==> a[k] == if k < LineStop(t) && EndsWord(t, k) then NUL else t[k]
  }

  /** A word is as the line has it. */
  lemma WordIntact(a: Octets, t: Octets, i: nat, j: nat)
    requires SplitBehind(a, t, i) && i < j <= LineStop(t)
    requires forall k :: i < k < j ==> !IsSpace(RequestLineOf(t)[k])
    ensures a[i + 1..j] == RequestLineOf(t)[i + 1..j] && forall k :: i < k < j ==> a[k] != NUL
  {
    hide Spaces, LineStop;
    forall k | i < k < j
      ensures a[k] == RequestLineOf(t)[k] != NUL
    {
      assert RequestLineOf(t)[k] == t[k];
    }
  }

  /** What stands from the line's end on. */
  lemma BehindIntact(a: Octets, t: Octets, i: nat)
    requires SplitBehind(a, t, i) && i < LineStop(t) < |t|
    ensures a[LineStop(t)..] == t[LineStop(t)..]
  {
  }

  /** A word that a whitespace octet ends. */
  lemma EndedString(a: Octets, t: Octets, i: nat, j: nat)
    requires SplitBehind(a, t, i) && i < j < LineStop(t) && 0 < Argc(RequestLineOf(t)) < CMD_ARGM && IsSpace(t[j])
    requires forall k :: i < k < j ==> !IsSpace(RequestLineOf(t)[k])
    ensures CString(a, i + 1) == RequestLineOf(t)[i + 1..j]
  {
    AllEnd(t, j);
    assert a[j] == NUL;
    hide SplitBehind, EndsWord, LineStop, RequestLineOf;
    WordIntact(a, t, i, j);
    CStringIs(a, i + 1, j);
  }

  /** The last word of the line runs on. */
  lemma OpenString(a: Octets, t: Octets, i: nat)
    requires SplitBehind(a, t, i) && i < LineStop(t) < |t|
    requires forall k :: i < k < LineStop(t) ==> !IsSpace(RequestLineOf(t)[k])
    ensures CString(a, i + 1) == RequestLineOf(t)[i + 1..] + CString(t[LineStop(t)..], 0)
  {
    var line, z := RequestLineOf(t), LineStop(t);
    assert |line| == z;
    BehindIntact(a, t, i);
    WordIntact(a, t, i, z);
    hide SplitBehind, LineStop, RequestLineOf;
    StringThrough(a, i + 1, z);
    assert t[z..] == t[z..][0..];
    SameString(a, z, t[z..], 0);
    assert a[i + 1..z] == line[i + 1..z] == line[i + 1..];
  }

  lemma TargetIs(line: Octets, behind: Octets)
    requires NextSpace(line, 0) < |line|
    ensures var i := NextSpace(line, 0);
      var j := NextSpace(line, i + 1);
      Target(line, behind) == if j < |line| then line[i + 1..j] else line[i + 1..] + CString(behind, 0)
  {
    FirstSpaces(line);
  }

  /** The second C string is the target. */
  lemma TargetString(a: Octets, t: Octets)
    requires LineStop(t) < |t| && 0 < Argc(RequestLineOf(t)) < CMD_ARGM && NextSpace(RequestLineOf(t), 0) < LineStop(t)
    requires SplitBehind(a, t, NextSpace(RequestLineOf(t), 0))
    ensures CString(a, NextSpace(RequestLineOf(t), 0) + 1) == Target(RequestLineOf(t), t[LineStop(t)..])
  {
    var line := RequestLineOf(t);
    var i := NextSpace(line, 0);
    var j := NextSpace(line, i + 1);
    TargetIs(line, t[LineStop(t)..]);
    hide Spaces, NextSpace, CString, SplitBehind, Argc, Target;
    if j < |line| {
      assert t[j] == line[j];
      EndedString(a, t, i, j);
    } else {
      OpenString(a, t, i);
    }
  }

  /** Of the third C string only what begins the third word matters. */
  lemma ThirdStarts(a: Octets, t: Octets, j: nat)
    requires LineStop(t) < |t| && j < LineStop(t) && SplitBehind(a, t, j)
    ensures HTTP_2 <= CString(a, j + 1) <==> HTTP_2 <= RequestLineOf(t)[j + 1..]
  {
    hide LineStop, CString;
    var line, z, n := RequestLineOf(t), LineStop(t), |HTTP_2|;
    StringStarts(a, j + 1, HTTP_2);
    if j + 1 + n <= |a| && a[j + 1..j + 1 + n] == HTTP_2 {
      forall k | j < k <= j + n
        ensures k != z && a[k] == t[k] == HTTP_2[k - j - 1]
      {
        assert a[k] == HTTP_2[k - j - 1];
      }
      assert line[j + 1..][..n] == HTTP_2;
    }
    if HTTP_2 <= line[j + 1..] {
      forall k | j < k <= j + n
        ensures a[k] == HTTP_2[k - j - 1]
      {
        assert t[k] == line[j + 1..][k - j - 1];
      }
      assert a[j + 1..j + 1 + n] == HTTP_2;
    }
  }

  /** The first two C strings, when a third word ends the second. */
  lemma FirstStrings(a: Octets, t: Octets)
    requires LineStop(t) < |t| && 0 < Argc(RequestLineOf(t)) < CMD_ARGM && SplitUpTo(a, t, LineStop(t))
    requires NextSpace(RequestLineOf(t), 0) < LineStop(t)
    requires NextSpace(RequestLineOf(t), NextSpace(RequestLineOf(t), 0) + 1) < LineStop(t)
    ensures var line := RequestLineOf(t);
      var i := NextSpace(line, 0);
      CString(a, 0) == line[..i] && CString(a, i + 1) == line[i + 1..NextSpace(line, i + 1)]
  {
    var line := RequestLineOf(t);
    var i := NextSpace(line, 0);
    var j := NextSpace(line, i + 1);
    hide Spaces, Argc, LineStop, NextSpace, CString;
    AllEnd(t, i);
    forall k | 0 <= k < i
      ensures a[k] == line[k] != NUL
    {
      assert t[k] == line[k];
    }
    CStringIs(a, 0, i);
    assert a[0..i] == line[..i];
    SplitIsBehind(a, t, i);
    assert t[j] == line[j];
    hide SplitUpTo, SplitBehind, EndsWord;
    EndedString(a, t, i, j);
  }

  // ----- the code -------------------------------------------------------------------------

  /** The first branch of cmd_proc. */
  method IsPreface(a: array<byte>, base: int, argv: array<int>, argc: nat, ghost t: Octets) returns (r: bool)
    requires Split(a[..], argv[..], t, base) && argc == Argc(RequestLineOf(t))
    ensures r <==> Prefaced(RequestLineOf(t))
  {
    hide CString, Argc, LineStop, SplitUpTo, Kept;
    SecondFound(a[..], argv[..], t, base);
    if argc >= 2 {
      ThirdFound(a[..], argv[..], t, base);
    }
    if argc < 3 {
      return false;
    }
    FirstStrings(a[..], t);
    SplitIsBehind(a[..], t, NextSpace(RequestLineOf(t), NextSpace(RequestLineOf(t), 0) + 1));
    ThirdStarts(a[..], t, NextSpace(RequestLineOf(t), NextSpace(RequestLineOf(t), 0) + 1));
    return CString(a[..], argv[0] - base) == PRI && CString(a[..], argv[1] - base) == STAR
      && HTTP_2 <= CString(a[..], argv[2] - base);
  }

  lemma SplitIsBehind(a: Octets, t: Octets, i: nat)
    requires SplitUpTo(a, t, LineStop(t))
    ensures SplitBehind(a, t, i)
  {
  }

  /** The name of the command: cmd_proc ends it behind its letters and digits. */
  method TrimName(a: array<byte>, ghost t: Octets) returns (name: Octets)
    requires LineStop(t) < |t| && SplitUpTo(a[..], t, LineStop(t))
    modifies a
    ensures name == Method(RequestLineOf(t)) && SplitBehind(a[..], t, NextSpace(RequestLineOf(t), 0))
  {
    hide CString, LineStop, Spaces;
    ghost var line, z := RequestLineOf(t), LineStop(t);
    var s := 0;
    while IsAlnum(a[s])
      invariant 0 <= s <= z && a[..] == old(a[..])
      invariant forall k :: 0 <= k < s ==> IsAlnum(t[k]) && a[k] == t[k]
      decreases z - s
    {
      s := s + 1;
    }
    a[s] := NUL;
    CStringIs(a[..], 0, s);
    assert s < z ==> line[s] == t[s];
    assert forall k :: 0 <= k < s ==> line[k] == t[k];
    assert a[..][0..s] == line[..s];
    return CString(a[..], 0);
  }

  lemma NoNulInChars(s: Octets)
    requires NUL !in s
    ensures Text.NUL !in Chars(s)
  {
    forall k | 0 <= k < |s|
      ensures Chars(s)[k] != Text.NUL
    {
      assert s[k] in s;
    }
  }

  /** The checks of request_handle on the target. */
  method CheckTarget(a: array<byte>, at: nat, argc: nat, bodied: bool) returns (v: Verdict)
    requires at <= a.Length
    ensures v == (var target := Chars(CString(a[..], at));
      if Passes(target) then Accepted(argc, bodied, SafePath.DocumentUri(target)) else Closed)
  {
    var target := Chars(CString(a[..], at));
    NoNulInString(a[..], at);
    NoNulInChars(CString(a[..], at));
    hide SafePath.Safe, SafePath.DocumentUri, UrlCodec.Decode, CString;
    var uri := SafePath.RequestUri(target);
    if uri.None? {
      return Closed;
    }
    return Accepted(argc, bodied, uri.value);
  }

  /**
     cmd_new, cmd_proc and request_handle up to the header lines.  These are read exactly for a
     registered command with two to seven words whose target passes; eight words or more leave
     the array; everything behind the line's end stays as it was.
   */
  method TakeLine(a: array<byte>, base: int, argv: array<int>) returns (v: Verdict)
    requires argv.Length == CMD_ARGM && LineStop(a[..]) < a.Length
    modifies a, argv
    ensures var t := old(a[..]);
      && Judged(v, RequestLineOf(t), t[LineStop(t)..])
      && (v.Accepted? ==> argv[v.argc] == base + LineStop(t) + 2)
    ensures forall k :: LineStop(old(a[..])) < k < a.Length ==> a[k] == old(a[k])
  {
    hide SafePath.Safe, SafePath.DocumentUri, UrlCodec.Decode, CString, LineStop, Spaces, Passes, Target;
    ghost var t := a[..];
    ghost var line := RequestLineOf(t);
    var argc, inside := SplitLine(a, base, argv);
    if argc == 0 {
      return Ignored;
    }
    if !inside {
      return Overrun;
    }
    SecondFound(a[..], argv[..], t, base);
    var preface := IsPreface(a, base, argv, argc, t);
    if preface {
      NoSuchCommand(line);
      return Closed;
    }
    var name := TrimName(a, t);
    if !Registered(name) {
      return Ignored;
    }
    if argc < 2 {
      return Closed;
    }
    TargetString(a[..], t);
    v := CheckTarget(a, argv[1] - base, argc, WantsBody(name));
  }

  /** The preface is no command. */
  lemma NoSuchCommand(line: Octets)
    requires Prefaced(line)
    ensures Method(line) == PRI && !Registered(Method(line))
  {
    assert line[..3] == PRI && line[0] == PRI[0] && line[1] == PRI[1] && line[2] == PRI[2];
    assert IsSpace(line[3]);
  }

  // ----- a line with a single whitespace octet --------------------------------------------

  /** What stands behind the text does not matter. */
  lemma JudgedCut(v: Verdict, line: Octets, behind: Octets, m: nat)
    requires m < |behind| && behind[m] == NUL && Judged(v, line, behind)
    ensures Judged(v, line, behind[..m])
  {
    hide Passes, Argc, Method, Prefaced, SafePath.DocumentUri;
    StringCut(behind, 0, m);
    assert Target(line, behind) == Target(line, behind[..m]);
  }

  /** Nothing ends the target of such a line, so the head becomes part of it; only a query can hide that. */
  lemma SingleSpaceNeedsQuery(line: Octets, behind: Octets)
    requires Unbroken(line) && Spaces(line) == 1 && behind != [] && behind[0] == CR && Admits(line, behind)
    ensures QUERY in SecondWord(line)
  {
    hide SafePath.Safe, SecondWord;
    var word, target := SecondWord(line), Chars(Target(line, behind));
    assert CString(behind, 0)[0] == CR;
    if QUERY !in word {
      forall k | 0 <= k < |word|
        ensures target[..|word|][k] != '?'
      {
        assert target[k] == word[k] as char && word[k] in word;
      }
      SafePath.ReturnIsUnsafe(target, |word|);
    }
  }

  // ----- the examples of a bare line feed are admitted ------------------------------------

  /** How many of the first `i` octets are whitespace. */
  function SpacesTo(s: Octets, i: nat): nat
    requires i <= |s|
    decreases i
  {
    if i == 0 then 0 else SpacesTo(s, i - 1) + if IsSpace(s[i - 1]) then 1 else 0
  }

  lemma {:induction false} SpacesToIs(s: Octets, i: nat)
    requires i <= |s|
    ensures SpacesTo(s, i) == Spaces(s[..i])
    decreases i
  {
    if i != 0 {
      SpacesToIs(s, i - 1);
      OneMoreOctet(s, i - 1);
    }
  }

  lemma NextSpaceIs(s: Octets, from: nat, k: nat)
    requires from <= k < |s| && IsSpace(s[k]) && forall m :: from <= m < k ==> !IsSpace(s[m])
    ensures NextSpace(s, from) == k
  {
    hide IsSpace, NextSpace;
  }

  lemma AlnumPrefixIs(s: Octets, n: nat)
    requires n < |s| && !IsAlnum(s[n]) && forall k :: 0 <= k < n ==> IsAlnum(s[k])
    ensures AlnumPrefix(s) == n
  {
    hide IsAlnum, AlnumPrefix;
  }

  /** The buffer begins with "GET / ". */
  predicate GetsRoot(t: Octets)
  {
    6 <= |t| && t[0] == 71 && t[1] == 69 && t[2] == 84 && t[3] == 32 && t[4] == 47 && t[5] == 32
  }

  lemma RootParts(line: Octets, behind: Octets)
    requires GetsRoot(line) && Spaces(line) >= 2
    ensures Method(line) == GET && Target(line, behind) == [47] && IsAlnum(line[0])
  {
    AlnumPrefixIs(line, 3);
    NextSpaceIs(line, 0, 3);
    NextSpaceIs(line, 4, 5);
    assert line[..3] == GET && line[4..5] == [47];
    hide AlnumPrefix, NextSpace, CString, Spaces;
    assert [47] + [] == [47];
  }

  /** A line that begins so and has four whitespace octets. */
  lemma RootAdmitted(t: Octets, n: nat, behind: Octets)
    requires 6 <= n <= |t| && SpacesTo(t, n) == 4 && GetsRoot(t)
    ensures Admits(t[..n], behind)
  {
    var line := t[..n];
    SpacesToIs(t, n);
    RootParts(line, behind);
    assert Argc(line) == 5 && Registered(GET);
    hide SpacesTo, Method, Target, Passes;
    RootPasses(Chars([47]));
  }

  lemma BareLineMarks()
    ensures GetsRoot(BARE_LINE) && SpacesTo(BARE_LINE, 12) == 4
  {
    assert SpacesTo(BARE_LINE, 6) == 2;
  }

  lemma BareHeadMarks()
    ensures GetsRoot(BARE_HEAD) && SpacesTo(BARE_HEAD, 16) == 4
  {
    assert SpacesTo(BARE_HEAD, 6) == 2;
    assert SpacesTo(BARE_HEAD, 11) == 2;
    assert SpacesTo(BARE_HEAD, 14) == 2;
  }

  lemma BareLineAdmitted(behind: Octets)
    ensures Admits(RequestLineOf(BARE_LINE), behind)
  {
    BareLine();
    BareLineMarks();
    hide Admits, LineStop, SpacesTo, GetsRoot;
    RootAdmitted(BARE_LINE, 12, behind);
  }

  lemma BareHeadAdmitted(behind: Octets)
    ensures Admits(RequestLineOf(BARE_HEAD), behind)
  {
    BareHead(BARE_HEAD);
    BareHeadMarks();
    hide Admits, LineStop, SpacesTo, GetsRoot;
    RootAdmitted(BARE_HEAD, 16, behind);
  }

  lemma RootPasses(target: string)
    requires target == "/"
    ensures Passes(target)
  {
    SafePath.PathIsFirst(target, 1);
    SafePath.PlainText("/");
    assert SafePath.Clean("/") && target[..1] == "/";
    SafePath.DecodePlain(target);
  }

  // ----- a query that runs on -------------------------------------------------------------

  /** "GET /?" */
  const SINGLE_SPACE: Octets := [71, 69, 84, 32, 47, QUERY]

  /** The same head is taken or refused, depending on what the last read has brought behind it. */
  lemma SingleSpaceDepends(more: Octets)
    requires BUFSIZ <= |more| && NUL !in more
    ensures Admits(SINGLE_SPACE, [CR, LF, CR, LF]) && !Admits(SINGLE_SPACE, [CR, LF, CR, LF] + more)
  {
    var line, ends := SINGLE_SPACE, [CR, LF, CR, LF];
    SingleSpaceParts();
    StringThrough(ends, 0, 4);
    assert ends[0..4] == ends && CString(ends, 4) == [] && ends + [] == ends;
    SlashPasses(Chars(Target(line, ends)));
    var all := ends + more;
    assert forall k :: 0 <= k < |all| ==> all[k] != NUL;
    StringThrough(all, 0, |all|);
    assert |Target(line, all)| >= BUFSIZ;
  }

  lemma SingleSpaceParts()
    ensures Argc(SINGLE_SPACE) == 2 && Spaces(SINGLE_SPACE) == 1
    ensures Method(SINGLE_SPACE) == GET && SecondWord(SINGLE_SPACE) == [47, QUERY]
  {
    var s := SINGLE_SPACE;
    assert s[..0] == [];
    NoneInNothing();
    NoSpacesBetween(s, 0, 3);
    OneMoreOctet(s, 3);
    NoSpacesBetween(s, 4, 6);
    assert s[..6] == s;
    assert NextSpace(s, 0) == 3 && NextSpace(s, 4) == 6;
    assert AlnumPrefix(s) == 3;
  }

  /** "/" and a query of two line ends. */
  lemma SlashPasses(target: string)
    requires target == "/?\r\n\r\n"
    ensures Passes(target)
  {
    SafePath.PathIsFirst(target, 1);
    assert target[..1] == "/";
    SafePath.PlainText("/");
    assert SafePath.Clean("/");
    SafePath.DecodePlain(target);
  }
}

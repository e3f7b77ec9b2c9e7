/**
 The request line: cmd_new of src/libaxil.c, which splits it at whitespace in place, keeps
 the positions in an array of eight, and puts behind them where the header lines begin.
 */
module RequestLine {
  import opened Bytes
  import opened HeadFormat
  import opened HeaderBlock
  import Text

  const CMD_ARGM: nat := 8

  predicate IsSpace(b: byte)
  {
    b == 32 || 9 <= b <= 13
  }

  predicate IsAlnum(b: byte)
  {
    48 <= b <= 57 || 65 <= b <= 90 || 97 <= b <= 122
  }

  /** The two classes of the C locale, character by character. */
  lemma Classes(b: byte)
    ensures IsSpace(b) <==> b as char in " \t\n\r" || b == 11 || b == 12
    ensures IsAlnum(b) <==> b as char in Text.SMALL || b as char in Text.CAPITAL || b as char in Text.DIGITS
  {
    Text.InSmall(b as char);
    Text.InCapital(b as char);
    Text.InDigits(b as char);
  }

  /** Where the line ends for cmd_new: at a carriage return or NUL, not at a line feed. */
  function LineStop(t: Octets): (z: nat)
    ensures z <= |t| && (z < |t| ==> t[z] == CR || t[z] == NUL)
    ensures forall k :: 0 <= k < z ==> t[k] != CR && t[k] != NUL
  {
    if t == [] || t[0] == CR || t[0] == NUL then 0 else 1 + LineStop(t[1..])
  }

  function RequestLineOf(t: Octets): Octets
  {
    t[..LineStop(t)]
  }

  lemma StopIs(t: Octets, z: nat)
    requires z < |t| && (t[z] == CR || t[z] == NUL) && forall k :: 0 <= k < z ==> t[k] != CR && t[k] != NUL
    ensures LineStop(t) == z
  {
  }

  /** How many whitespace octets there are. */
  function Spaces(s: Octets): (n: nat)
    ensures n <= |s|
  {
    if s == [] then 0 else Spaces(s[..|s| - 1]) + if IsSpace(s[|s| - 1]) then 1 else 0
  }

  lemma {:induction false} SpacesGrow(s: Octets, i: nat, j: nat)
    requires i <= j <= |s|
    ensures Spaces(s[..i]) <= Spaces(s[..j])
    decreases j
  {
    if i < j {
      assert s[..j][..j - 1] == s[..j - 1];
      SpacesGrow(s, i, j - 1);
    }
  }

  lemma OneMoreOctet(s: Octets, k: nat)
    requires k < |s|
    ensures Spaces(s[..k + 1]) == Spaces(s[..k]) + if IsSpace(s[k]) then 1 else 0
  {
    assert s[..k + 1][..k] == s[..k];
  }

  /** The number of words found: none unless the line begins with a letter or digit, and eight at most. */
  function Argc(line: Octets): (n: nat)
    ensures n <= CMD_ARGM
  {
    if line == [] || !IsAlnum(line[0]) then 0
    else if 1 + Spaces(line) < CMD_ARGM then 1 + Spaces(line)
    else CMD_ARGM
  }

  /** The whitespace octet at `k` ends a word. */
  predicate EndsWord(t: Octets, k: nat)
  {
    k < LineStop(t) && IsSpace(t[k]) && Spaces(t[..k]) + 1 < CMD_ARGM
  }

  /** The buffer once the line has been split, up to `p`. */
  ghost predicate SplitUpTo(a: Octets, t: Octets, p: nat)
  {
    && |a| == |t|
    && forall k :: 0 <= k < |t| ==> a[k] == if k < p && EndsWord(t, k) then NUL else t[k]
  }

  /** Every word behind one that has been ended has its position kept. */
  ghost predicate Kept(argv: seq<int>, t: Octets, base: int, p: nat)
    requires |argv| == CMD_ARGM
  {
    argv[0] == base
    && forall k :: 0 <= k < p && EndsWord(t, k) ==> argv[Spaces(t[..k]) + 1] == base + k + 1
  }

  /** The first loop of cmd_new: NULs at whitespace, until the line ends or the array is full. */
  method Words(a: array<byte>, base: int, argv: array<int>) returns (argc: nat, p: nat)
    requires argv.Length == CMD_ARGM && LineStop(a[..]) < a.Length && argv[0] == base
    requires Argc(RequestLineOf(a[..])) != 0
    modifies a, argv
    ensures argc == Argc(RequestLineOf(old(a[..]))) && p <= LineStop(old(a[..]))
    ensures argc < CMD_ARGM ==> p == LineStop(old(a[..]))
    ensures SplitUpTo(a[..], old(a[..]), LineStop(old(a[..]))) && Kept(argv[..], old(a[..]), base, LineStop(old(a[..])))
  {
    hide SplitUpTo, Kept, Spaces, LineStop, Argc;
    ghost var t := a[..];
    ghost var z := LineStop(t);
    p, argc := 0, 1;
    NothingSplit(t, argv[..], base);
    while a[p] != NUL && a[p] != CR && argc < CMD_ARGM
      invariant 0 <= p <= z && SplitUpTo(a[..], t, p) && Kept(argv[..], t, base, p)
      invariant argc == 1 + Spaces(t[..p]) <= CMD_ARGM
      decreases z - p
    {
      Unread(a[..], t, p, p);
      OneMoreWord(a[..], argv[..], t, base, p, argc);
      if IsSpace(a[p]) {
        a[p] := NUL;
        argv[argc] := base + p + 1;
        argc := argc + 1;
      }
      p := p + 1;
    }
    Unread(a[..], t, p, p);
    CountIs(t, p, argc);
    NoMoreWords(a[..], argv[..], t, base, p, z);
  }

  lemma NothingSplit(t: Octets, argv: seq<int>, base: int)
    requires |argv| == CMD_ARGM && argv[0] == base
    ensures t[..0] == [] && Spaces(t[..0]) == 0 && SplitUpTo(t, t, 0) && Kept(argv, t, base, 0)
  {
  }

  /** From `p` on the buffer is as it was. */
  lemma Unread(a: Octets, t: Octets, p: nat, k: nat)
    requires SplitUpTo(a, t, p) && p <= k < |t|
    ensures |a| == |t| && a[k] == t[k]
  {
  }

  /** The count at the end of the loop. */
  lemma CountIs(t: Octets, p: nat, argc: nat)
    requires p <= LineStop(t) && Argc(RequestLineOf(t)) != 0 && argc == 1 + Spaces(t[..p]) <= CMD_ARGM
    requires p == LineStop(t) || argc == CMD_ARGM
    ensures argc == Argc(RequestLineOf(t))
  {
    SpacesGrow(t, p, LineStop(t));
  }

  /** One octet of the loop. */
  lemma OneMoreWord(a: Octets, argv: seq<int>, t: Octets, base: int, p: nat, argc: nat)
    requires |argv| == CMD_ARGM && p < LineStop(t) && SplitUpTo(a, t, p) && Kept(argv, t, base, p)
    requires argc == 1 + Spaces(t[..p]) < CMD_ARGM
    ensures Spaces(t[..p + 1]) == Spaces(t[..p]) + if IsSpace(t[p]) then 1 else 0
    ensures IsSpace(t[p]) ==>
      SplitUpTo(a[p := NUL], t, p + 1) && Kept(argv[argc := base + p + 1], t, base, p + 1)
    ensures !IsSpace(t[p]) ==> SplitUpTo(a, t, p + 1) && Kept(argv, t, base, p + 1)
  {
    hide Spaces, LineStop;
    OneMoreOctet(t, p);
    SpacesKept(argv, t, base, p);
  }

  /** Positions kept so far lie below the next one. */
  lemma SpacesKept(argv: seq<int>, t: Octets, base: int, p: nat)
    requires |argv| == CMD_ARGM && Kept(argv, t, base, p) && p <= |t|
    ensures forall k :: 0 <= k < p && EndsWord(t, k) ==> Spaces(t[..k]) + 1 <= Spaces(t[..p])
  {
    forall k | 0 <= k < p && EndsWord(t, k)
      ensures Spaces(t[..k]) + 1 <= Spaces(t[..p])
    {
      OneMoreOctet(t, k);
      SpacesGrow(t, k + 1, p);
    }
  }

  /** Once the line is over or eight words are found, no further whitespace ends a word. */
  lemma NoMoreWords(a: Octets, argv: seq<int>, t: Octets, base: int, p: nat, z: nat)
    requires |argv| == CMD_ARGM && z == LineStop(t) && p <= z && SplitUpTo(a, t, p) && Kept(argv, t, base, p)
    requires p == z || 1 + Spaces(t[..p]) == CMD_ARGM
    ensures SplitUpTo(a, t, z) && Kept(argv, t, base, z)
  {
    forall k | p <= k < z
      ensures !EndsWord(t, k)
    {
      SpacesGrow(t, p, k);
    }
  }

  /**
     cmd_new.  The position of the first header line goes behind those of the words: outside the
     array when there are eight.
   */
  method SplitLine(a: array<byte>, base: int, argv: array<int>) returns (argc: nat, inside: bool)
    requires argv.Length == CMD_ARGM && LineStop(a[..]) < a.Length
    modifies a, argv
    ensures argc == Argc(RequestLineOf(old(a[..]))) && (inside <==> argc < CMD_ARGM)
    ensures argc == 0 ==> a[..] == old(a[..])
    ensures argc != 0 ==>
      && SplitUpTo(a[..], old(a[..]), LineStop(old(a[..]))) && Kept(argv[..], old(a[..]), base, LineStop(old(a[..])))
      && (inside ==> argv[argc] == base + LineStop(old(a[..])) + 2)
  {
    ghost var t := a[..];
    if a[0] == NUL || !IsAlnum(a[0]) {
      assert RequestLineOf(t) != [] ==> RequestLineOf(t)[0] == t[0];
      return 0, true;
    }
    assert t[0] == a[0] && RequestLineOf(t)[0] == t[0];
    argv[0] := base;
    var p;
    argc, p := Words(a, base, argv);
    while a[p] != NUL && a[p] != CR
      invariant p <= LineStop(t) && SplitUpTo(a[..], t, LineStop(t))
      invariant argc < CMD_ARGM ==> p == LineStop(t)
      decreases LineStop(t) - p
    {
      assert a[p] == a[..][p];
      p := p + 1;
    }
    if argc == CMD_ARGM {
      return argc, false;
    }
    KeptAside(argv[..], t, base, argc, base + p + 2);
    argv[argc] := base + p + 2;
    return argc, true;
  }

  /** The slot behind the words holds none of their positions. */
  lemma KeptAside(argv: seq<int>, t: Octets, base: int, argc: nat, x: int)
    requires |argv| == CMD_ARGM && Kept(argv, t, base, LineStop(t)) && 0 < argc == Argc(RequestLineOf(t)) < CMD_ARGM
    ensures Kept(argv[argc := x], t, base, LineStop(t))
  {
    SpacesKept(argv, t, base, LineStop(t));
  }

  /** The position fits exactly for a line with at most six whitespace octets, or none that is split. */
  lemma InsideIff(line: Octets)
    ensures Argc(line) < CMD_ARGM <==> line == [] || !IsAlnum(line[0]) || Spaces(line) <= 6
  {
  }

  /** "P / 1 2 3 4 5 6": eight words. */
  const SEVEN_SPACES: Octets := [80, 32, 47, 32, 49, 32, 50, 32, 51, 32, 52, 32, 53, 32, 54]

  /** Every other octet is whitespace. */
  lemma {:induction false} Alternating(s: Octets)
    requires forall k :: 0 <= k < |s| ==> (IsSpace(s[k]) <==> k % 2 == 1)
    ensures Spaces(s) == |s| / 2
  {
    if s != [] {
      Alternating(s[..|s| - 1]);
    }
  }

  lemma SevenSpaces()
    ensures Spaces(SEVEN_SPACES) == 7 && Argc(SEVEN_SPACES) == CMD_ARGM
    ensures Unbroken(SEVEN_SPACES)
  {
    hide Spaces;
    Alternating(SEVEN_SPACES);
  }

  // ----- where the header lines begin -----------------------------------------------------

  /** A line without a line end in it. */
  predicate Unbroken(line: Octets)
  {
    CR !in line && LF !in line && NUL !in line
  }

  /** The buffer starts with a request line, header lines and a blank one, each with either end. */
  predicate HoldsRequest(t: Octets, line: Octets, crlf: bool, ls: seq<Line>, blank: bool)
  {
    line + LineEnd(crlf) + (PrintAll(ls) + LineEnd(blank)) <= t
  }

  function HeadersAt(line: Octets, crlf: bool): nat
  {
    |line| + |LineEnd(crlf)|
  }

  lemma TwoParts(t: Octets, front: Octets, back: Octets)
    requires front + back <= t
    ensures t[..|front|] == front && back <= t[|front|..]
  {
    assert t[..|front + back|] == front + back;
    assert t[|front|..][..|back|] == t[..|front + back|][|front|..] == back;
  }

  lemma RequestParts(t: Octets, line: Octets, crlf: bool, ls: seq<Line>, blank: bool)
    requires HoldsRequest(t, line, crlf, ls, blank)
    ensures |line| < |t| && t[..|line|] == line && t[|line|] == LineEnd(crlf)[0] && HeadersAt(line, crlf) <= |t|
    ensures Holds(t, HeadersAt(line, crlf), ls, blank)
  {
    hide PrintAll;
    var front := line + LineEnd(crlf);
    TwoParts(t, front, PrintAll(ls) + LineEnd(blank));
    assert t[..|line|] == front[..|line|] == line;
    assert t[|line|] == front[|line|] == LineEnd(crlf)[0];
  }

  lemma OctetsOf(t: Octets, line: Octets)
    requires |line| <= |t| && t[..|line|] == line && Unbroken(line)
    ensures forall k :: 0 <= k < |line| ==> t[k] != CR && t[k] != NUL && t[k] != LF
  {
    forall k | 0 <= k < |line|
      ensures t[k] != CR && t[k] != NUL && t[k] != LF
    {
      assert t[k] == line[k] && line[k] in line;
    }
  }

  /** The position found is that of the first header line exactly when the request line ends in CRLF. */
  lemma PositionIff(t: Octets, line: Octets, crlf: bool, ls: seq<Line>, blank: bool)
    requires Unbroken(line) && HoldsRequest(t, line, crlf, ls, blank)
    ensures LineStop(t) + 2 == HeadersAt(line, crlf) <==> crlf
    ensures crlf ==> LineStop(t) == |line|
  {
    RequestParts(t, line, crlf, ls, blank);
    OctetsOf(t, line);
    if crlf {
      StopIs(t, |line|);
    } else {
      assert t[|line|] == LF;
    }
  }

  /** From where cmd_new points the scan enters exactly the headers and lands on the body. */
  predicate RequestReadsBack(t: Octets, line: Octets, crlf: bool, ls: seq<Line>, blank: bool)
  {
    var at := LineStop(t) + 2;
    var r := Scan(t, at, at, at);
    r.Found? && r.puts == EnteredAll(ls) && r.bodyStart + 1 == BodyAt(HeadersAt(line, crlf), ls, blank)
  }

  /** The carriage return at `z`, and those behind the octet that follows it. */
  lemma ReturnsBehind(t: Octets, from: nat, z: nat, at: nat)
    requires from <= z < z + 2 <= at <= |t| && t[z] == CR
    ensures Returns(t[from..at]) >= Returns(t[z + 2..at]) + 1
  {
    hide Returns;
    if z + 2 < at {
      ReturnsFrom(t, z, z + 2, at);
    } else {
      assert t[z + 2..at] == [];
      ReturnsFrom(t, z, at, at);
    }
    if from < z {
      ReturnsFrom(t, from, z, at);
    }
  }

  /** Where cmd_new stops behind a bare line feed: in the header lines, if not behind the body's start. */
  lemma StopsInHeaders(t: Octets, line: Octets, ls: seq<Line>, blank: bool)
    requires Unbroken(line) && AllPrintable(ls) && HoldsRequest(t, line, false, ls, blank)
    ensures var from, at, z := |line| + 1, BodyAt(|line| + 1, ls, blank), LineStop(t);
      && from <= z && from <= at <= |t| && t[at - 1] == LF
      && t[from..at] == PrintAll(ls) + LineEnd(blank) && (z < at ==> t[z] == CR)
  {
    assert LineEnd(false) == [LF];
    assert HeadersAt(line, false) == |line| + 1;
    hide *;
    var from, at, z := |line| + 1, BodyAt(|line| + 1, ls, blank), LineStop(t);
    RequestParts(t, line, false, ls, blank);
    StopsBehind(t, line);
    BlockIs(t, from, ls, blank);
    NoNuls(ls, blank);
    StopIn(t, from, z, at);
  }

  lemma StopIn(t: Octets, from: nat, z: nat, at: nat)
    requires from <= z && from <= at <= |t| && NUL !in t[from..at] && (z < |t| ==> t[z] == CR || t[z] == NUL)
    ensures z < at ==> t[z] == CR
  {
    if z < at {
      assert t[z] == t[from..at][z - from];
    }
  }

  lemma StopsBehind(t: Octets, line: Octets)
    requires |line| < |t| && t[..|line|] == line && t[|line|] == LF && Unbroken(line)
    ensures |line| < LineStop(t)
  {
    hide LineStop, Unbroken;
    OctetsOf(t, line);
  }

  /** Behind a request line that ends in a line feed a carriage return of the headers is passed over. */
  lemma BareLineLoses(t: Octets, line: Octets, ls: seq<Line>, blank: bool)
    requires Unbroken(line) && AllPrintable(ls) && HoldsRequest(t, line, false, ls, blank)
    ensures !RequestReadsBack(t, line, false, ls, blank)
  {
    hide Scan, Returns, PrintAll, LineStop, Unbroken, AllPrintable, HoldsRequest;
    if RequestReadsBack(t, line, false, ls, blank) {
      var from, at, z := |line| + 1, BodyAt(|line| + 1, ls, blank), LineStop(t);
      StopsInHeaders(t, line, ls, blank);
      ReturnsOfBlock(ls, blank);
      TakesReturns(t, z + 2, z + 2, z + 2, at);
      ReturnsBehind(t, from, z, at);
      assert false;
    }
  }

  lemma {:induction false} NoNuls(ls: seq<Line>, blank: bool)
    requires AllPrintable(ls)
    ensures NUL !in PrintAll(ls) + LineEnd(blank)
  {
    if ls != [] {
      assert ls[0] in ls;
      NoNuls(ls[1..], blank);
      assert NUL !in Print(ls[0]);
    }
  }

  /**
     The exact condition for a whole head: its headers are entered exactly, and the position is
     that of the body, if and only if the request line, every header line and the blank line end
     in CRLF and every colon is followed by one octet and then the value.
   */
  lemma RequestReadsBackIff(t: Octets, line: Octets, crlf: bool, ls: seq<Line>, blank: bool)
    requires Unbroken(line) && AllPrintable(ls) && HoldsRequest(t, line, crlf, ls, blank)
    ensures RequestReadsBack(t, line, crlf, ls, blank) <==> crlf && blank && AllRegular(ls)
  {
    if crlf {
      RequestParts(t, line, crlf, ls, blank);
      PositionIff(t, line, crlf, ls, blank);
      ReadsBackIff(t, HeadersAt(line, crlf), ls, blank);
    } else {
      BareLineLoses(t, line, ls, blank);
    }
  }

  /** "GET / HTTP/1.1" and two line feeds, as the buffer holds them. */
  const BARE_HEAD: Octets := [71, 69, 84, 32, 47, 32, 72, 84, 84, 80, 47, 49, 46, 49, LF, LF, NUL]

  /** It is a complete head, and the header lines are taken to begin two octets behind its NUL. */
  lemma BareHead(t: Octets)
    requires BARE_HEAD <= t
    ensures Complete(BARE_HEAD[..16]) && LineStop(t) == 16 && LineStop(t) + 2 == |BARE_HEAD| + 1
    ensures |t| <= 18 ==> Scan(t, 18, 18, 18) == LeftBuffer
  {
    assert BlankLineAt(BARE_HEAD[..16], 14);
    assert forall k :: 0 <= k < 17 ==> t[k] == BARE_HEAD[k];
    StopIs(t, 16);
  }

  /** "GET / H" LF, "A: b" CRLF, CRLF. */
  const BARE_LINE: Octets := [71, 69, 84, 32, 47, 32, 72, LF, 65, COLON, 32, 98, CR, LF, CR, LF, NUL]

  /** Its header is lost: the scan begins at the blank line. */
  lemma BareLine()
    ensures Complete(BARE_LINE[..16]) && LineStop(BARE_LINE) == 12
    ensures Scan(BARE_LINE, 14, 14, 14) == Found([], 15)
  {
    assert BlankLineAt(BARE_LINE[..16], 13);
    StopIs(BARE_LINE, 12);
  }
}

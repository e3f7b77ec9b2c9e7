/**
 headers_get and env_name of src/libaxil.c: the header lines of a request, split in place
 by writing NULs into the shared buffer, and entered into the connection's environment.
 */
module HeaderBlock {
  import opened Bytes
  import opened HeadFormat

  const NUL: byte := 0
  const COLON: byte := 58
  const DASH: byte := 45
  const UNDERSCORE: byte := 95
  const HTTP_PREFIX: Octets := [72, 84, 84, 80, 95]     // "HTTP_"
  const ENV_KEY_LEN: nat := 128

  datatype Put = Put(key: Octets, value: Octets)

  function EnvOctet(b: byte): byte
  {
    if b == DASH then UNDERSCORE else if 97 <= b <= 122 then b - 32 else b
  }

  /** The environment's name for a header, cut to what its buffer holds. */
  function EnvName(name: Octets): (r: Octets)
    ensures |r| < ENV_KEY_LEN
  {
    var kept := if |name| <= ENV_KEY_LEN - 6 then name else name[..ENV_KEY_LEN - 6];
    HTTP_PREFIX + seq(|kept|, i requires 0 <= i < |kept| => EnvOctet(kept[i]))
  }

  /** "HTTP_", and of the name's first 122 octets each small letter as its capital and each dash as an underscore. */
  predicate NamedBy(name: Octets, r: Octets)
  {
    && |r| == 5 + (if |name| < 122 then |name| else 122) && r[..5] == Ascii("HTTP_")
    && forall k :: 0 <= k < |r| - 5 ==>
         r[5 + k] == if 97 <= name[k] <= 122 then name[k] - 32 else if name[k] == 45 then 95 else name[k]
  }

  lemma EnvNameIs(name: Octets)
    ensures NamedBy(name, EnvName(name))
  {
    var r := EnvName(name);
    assert forall k :: 0 <= k < |r| - 5 ==> r[5 + k] == EnvOctet(name[k]);
  }

  method BuildEnvName(name: Octets) returns (r: Octets)
    ensures r == EnvName(name) && NamedBy(name, r)
  {
    EnvNameIs(name);
    hide NamedBy, EnvName, EnvOctet;
    r := HTTP_PREFIX;
    var i := 0;
    while i < |name| && |r| < ENV_KEY_LEN - 1
      invariant 0 <= i <= |name| && |r| == 5 + i && i <= ENV_KEY_LEN - 6
      invariant r[..5] == HTTP_PREFIX && forall k :: 0 <= k < i ==> r[5 + k] == EnvOctet(name[k])
    {
      r := r + [EnvOctet(name[i])];
      i := i + 1;
    }
    OctetByOctet(name, r);
  }

  lemma OctetByOctet(name: Octets, r: Octets)
    requires |r| == 5 + (if |name| < 122 then |name| else 122) && r[..5] == HTTP_PREFIX
    requires forall k :: 0 <= k < |r| - 5 ==> r[5 + k] == EnvOctet(name[k])
    ensures r == EnvName(name)
  {
    hide EnvOctet;
    assert r == r[..5] + r[5..];
  }

  // ----- what the scan finds ------------------------------------------------------

  /** The lines entered, and where body_start comes to point; or the scan leaves the buffer. */
  datatype Found = LeftBuffer | Found(puts: seq<Put>, bodyStart: nat)

  function Min(a: int, b: int): int { if a < b then a else b }

  /** The C string at `from` when a NUL stands at `to`, and another at `cut`. */
  function Between(t: Octets, from: nat, to: nat, cut: nat): Octets
    requires from <= to <= |t|
  {
    if from <= cut then t[from..Min(to, cut)] else t[from..to]
  }

  /** A line of BUFSIZ octets or more is cut there; a shorter one at its end. */
  function CutOf(key: nat, s: nat): nat
    requires key <= s
  {
    if s - key >= BUFSIZ then key + BUFSIZ - 1 else s
  }

  /** The line from `key` to `s`, whose value starts at `value` (or has none when they coincide). */
  function LineOf(t: Octets, key: nat, value: nat, s: nat): Put
    requires key <= value <= s <= |t| && (value == key || key + 2 <= value)
  {
    var cut := CutOf(key, s);
    var name := Between(t, key, if value == key then s else value - 2, cut);
    Put(EnvName(name), Between(t, value, s, cut))
  }

  function EnterFirst(p: Put, more: Found): Found
  {
    if more.LeftBuffer? then LeftBuffer else more.(puts := [p] + more.puts)
  }

  /** The scan of a buffer, from `s`, in a line that began at `key`; it can jump over the text's NUL. */
  function Scan(t: Octets, s: nat, key: nat, value: nat): Found
    requires key <= value <= s && (value == key || key + 2 <= value)
    decreases |t| + 2 - s
  {
    if s >= |t| then LeftBuffer
    else if t[s] == NUL then Found([], s)
    else if t[s] == COLON && value == key then Scan(t, s + 2, key, s + 2)
    else if t[s] == CR then
      if s == key then (if s + 1 < |t| then Found([], s + 1) else LeftBuffer)
      else EnterFirst(LineOf(t, key, value, s), Scan(t, s + 2, s + 2, s + 2))
    else Scan(t, s + 1, key, value)
  }

  // ----- the loop -------------------------------------------------------------------

  /** The octets from `i` up to the first NUL. */
  function CString(a: Octets, i: nat): Octets
    requires i <= |a|
    decreases |a| - i
  {
    if i == |a| || a[i] == NUL then [] else [a[i]] + CString(a, i + 1)
  }

  lemma {:induction false} CStringIs(a: Octets, i: nat, to: nat)
    requires i <= to < |a| && a[to] == NUL && forall k :: i <= k < to ==> a[k] != NUL
    ensures CString(a, i) == a[i..to]
    decreases |a| - i
  {
    if i < to {
      CStringIs(a, i + 1, to);
    }
  }

  /** The line in progress is as it was, but for the NUL at its colon, and holds no other up to `s`. */
  ghost predicate Intact(a: Octets, t: Octets, key: nat, value: nat, s: nat)
  {
    && |t| == |a|
    && (value != key ==> key + 2 <= value && value - 2 < |t| && a[value - 2] == NUL)
    && (forall k :: key <= k < |t| && !(value != key && k == value - 2) ==> a[k] == t[k])
    && (forall k :: key <= k < s && k < |t| && !(value != key && value - 2 <= k < value) ==> t[k] != NUL)
  }

  /** With the NULs in place the two C strings are the line's name and value. */
  lemma LineStrings(a: Octets, t: Octets, key: nat, value: nat, s: nat)
    requires key <= value <= s < |t| && (value == key || key + 2 <= value) && key < s
    requires |t| == |a| && a[s] == NUL && a[CutOf(key, s)] == NUL
    requires value != key ==> a[value - 2] == NUL
    requires forall k :: key <= k < s && k != CutOf(key, s) && !(value != key && k == value - 2) ==> a[k] == t[k]
    requires forall k :: key <= k < s && !(value != key && value - 2 <= k < value) ==> t[k] != NUL
    ensures Put(EnvName(CString(a, key)), CString(a, value)) == LineOf(t, key, value, s)
  {
    var cut := CutOf(key, s);
    var nameEnd := Min(if value == key then s else value - 2, cut);
    CStringIs(a, key, nameEnd);
    assert a[key..nameEnd] == t[key..nameEnd];
    var valueEnd := if value <= cut then Min(s, cut) else s;
    CStringIs(a, value, valueEnd);
    assert a[value..valueEnd] == t[value..valueEnd];
  }

  /** A line ends at `s`: terminate it, cut it, and enter it. */
  method EndLine(a: array<byte>, ghost t: Octets, s: nat, key: nat, value: nat) returns (p: Put)
    requires key <= value <= s < |t| && (value == key || key + 2 <= value) && key < s
    requires Intact(a[..], t, key, value, s)
    modifies a
    ensures p == LineOf(t, key, value, s)
    ensures forall k :: s < k < a.Length ==> a[k] == old(a[k])
  {
    a[s] := NUL;
    if s - key >= BUFSIZ {
      a[key + BUFSIZ - 1] := NUL;
    }
    LineStrings(a[..], t, key, value, s);
    var name := BuildEnvName(CString(a[..], key));
    p := Put(name, CString(a[..], value));
  }

  /**
     headers_get on the buffer, from `from`: the lines entered into the environment, and where
     the NUL of the blank line stands; or the scan jumps past the text and leaves the buffer.
   */
  method HeadersGet(a: array<byte>, from: nat) returns (left: bool, puts: seq<Put>, bodyStart: nat)
    modifies a
    ensures Scan(old(a[..]), from, from, from) == if left then LeftBuffer else Found(puts, bodyStart)
    ensures !left ==> bodyStart < a.Length && a[bodyStart] == NUL
    ensures !left && old(a[bodyStart]) != NUL ==> from < bodyStart && a[bodyStart - 1] == NUL
    ensures !left ==> forall k :: bodyStart < k < a.Length ==> a[k] == old(a[k])
  {
    hide LineOf, EnvName;
    ghost var t := a[..];
    var s, key, value := from, from, from;
    left, puts := false, [];
    while s < a.Length && a[s] != NUL
      invariant from <= key <= value <= s && (value == key || key + 2 <= value)
      invariant s < a.Length ==> Intact(a[..], t, key, value, s)
      invariant Scan(t, from, from, from) == Behind(puts, Scan(t, s, key, value))
      invariant forall k :: s <= k < a.Length ==> a[k] == old(a[k])
      decreases a.Length + 2 - s
    {
      assert t[s] == a[s];
      if a[s] == COLON && value == key {
        a[s] := NUL;
        s := s + 2;
        value := s;
      } else if a[s] == CR && s == key {
        a[s] := NUL;
        s := s + 1;
        if s == a.Length {
          return true, puts, s;
        }
        a[s] := NUL;
        return false, puts, s;
      } else if a[s] == CR {
        var p := EndLine(a, t, s, key, value);
        EnterOne(puts, p, Scan(t, s + 2, s + 2, s + 2));
        puts := puts + [p];
        s := s + 2;
        key, value := s, s;
      } else {
        s := s + 1;
      }
    }
    left, bodyStart := s >= a.Length, s;
  }

  lemma EnterOne(puts: seq<Put>, p: Put, more: Found)
    ensures Behind(puts, EnterFirst(p, more)) == Behind(puts + [p], more)
  {
    if more.Found? {
      assert puts + ([p] + more.puts) == puts + [p] + more.puts;
    }
  }

  /** The lines entered so far, in front of the rest. */
  function Behind(puts: seq<Put>, rest: Found): Found
  {
    if rest.LeftBuffer? then LeftBuffer else rest.(puts := puts + rest.puts)
  }

  // ----- printing, and reading back ---------------------------------------------------

  datatype Header = Header(name: Octets, value: Octets)

  /** A header as some client may print it: what stands after the colon, and how the line ends. */
  datatype Line = Line(header: Header, gap: Octets, crlf: bool)

  function LineEnd(crlf: bool): Octets
  {
    if crlf then [CR, LF] else [LF]
  }

  predicate Printable(l: Line)
  {
    && l.header.name != [] && COLON !in l.header.name && CR !in l.header.name && NUL !in l.header.name
    && CR !in l.header.value && NUL !in l.header.value && CR !in l.gap && NUL !in l.gap
    && |l.header.name| + 1 + |l.gap| + |l.header.value| < BUFSIZ
  }

  predicate AllPrintable(ls: seq<Line>)
  {
    forall l :: l in ls ==> Printable(l)
  }

  /** One octet behind the colon and a CRLF: `Name: value`. */
  predicate Regular(l: Line)
  {
    l.crlf && |l.gap| == 1
  }

  predicate AllRegular(ls: seq<Line>)
  {
    forall l :: l in ls ==> Regular(l)
  }

  function Content(l: Line): Octets
  {
    l.header.name + [COLON] + l.gap + l.header.value
  }

  function Print(l: Line): Octets
  {
    Content(l) + LineEnd(l.crlf)
  }

  function PrintAll(ls: seq<Line>): Octets
  {
    if ls == [] then [] else Print(ls[0]) + PrintAll(ls[1..])
  }

  function Entered(l: Line): Put
  {
    Put(EnvName(l.header.name), l.header.value)
  }

  /** The environment entries of a list of headers. */
  function EnteredAll(ls: seq<Line>): (ps: seq<Put>)
    ensures |ps| == |ls|
  {
    seq(|ls|, i requires 0 <= i < |ls| => Entered(ls[i]))
  }

  /** From `key` on the buffer holds the lines, a blank line and anything else. */
  predicate Holds(t: Octets, key: nat, ls: seq<Line>, blank: bool)
  {
    key <= |t| && PrintAll(ls) + LineEnd(blank) <= t[key..]
  }

  /** Where the body begins. */
  function BodyAt(key: nat, ls: seq<Line>, blank: bool): nat
  {
    key + |PrintAll(ls)| + |LineEnd(blank)|
  }

  /** The scan enters exactly the headers, and the octet behind its end is the first of the body. */
  predicate ReadsBack(t: Octets, key: nat, ls: seq<Line>, blank: bool)
  {
    var r := Scan(t, key, key, key);
    r.Found? && r.puts == EnteredAll(ls) && r.bodyStart + 1 == BodyAt(key, ls, blank)
  }

  // ----- scanning the parts -----------------------------------------------------------

  /** Inside a name: up to the colon. */
  lemma {:induction false} ScanName(t: Octets, s: nat, key: nat, colon: nat)
    requires key <= s <= colon < |t| && t[colon] == COLON
    requires forall k :: s <= k < colon ==> t[k] != COLON && t[k] != CR && t[k] != NUL
    ensures Scan(t, s, key, key) == Scan(t, colon + 2, key, colon + 2)
    decreases |t| - s
  {
    if s < colon {
      ScanName(t, s + 1, key, colon);
    }
  }

  /** Inside a value: up to the end of the line. */
  lemma {:induction false} ScanValue(t: Octets, s: nat, key: nat, value: nat, end: nat)
    requires key + 2 <= value <= s <= end < |t| && t[end] == CR
    requires forall k :: s <= k < end ==> t[k] != CR && t[k] != NUL
    ensures Scan(t, s, key, value) == EnterFirst(LineOf(t, key, value, end), Scan(t, end + 2, end + 2, end + 2))
    decreases |t| - s
  {
    if s < end {
      ScanValue(t, s + 1, key, value, end);
    }
  }

  lemma SliceOfSlice(t: Octets, key: nat, k: nat, i: nat, j: nat)
    requires i <= j <= k && key + k <= |t|
    ensures t[key + i..key + j] == t[key..key + k][i..j]
  {
    var a, b := t[key + i..key + j], t[key..key + k][i..j];
    assert |a| == |b| && forall m :: 0 <= m < |a| ==> a[m] == b[m];
  }

  lemma NotAmong(t: Octets, from: nat, to: nat, c: byte)
    requires from <= to <= |t| && c !in t[from..to]
    ensures forall k :: from <= k < to ==> t[k] != c
  {
    forall k | from <= k < to
      ensures t[k] != c
    {
      assert t[from..to][k - from] == t[k];
    }
  }

  /** Where the parts of a printed line lie. */
  lemma LineParts(t: Octets, key: nat, l: Line)
    requires key + |Print(l)| <= |t| && t[key..key + |Print(l)|] == Print(l)
    ensures var colon := key + |l.header.name|;
      var end := colon + 1 + |l.gap| + |l.header.value|;
      && t[key..colon] == l.header.name && t[colon] == COLON && t[colon + 1..end] == l.gap + l.header.value
      && end + |LineEnd(l.crlf)| == key + |Print(l)| && t[end..key + |Print(l)|] == LineEnd(l.crlf)
  {
    var k, n, m := |Print(l)|, |l.header.name|, |Content(l)|;
    SliceOfSlice(t, key, k, 0, n);
    SliceOfSlice(t, key, k, n + 1, m);
    SliceOfSlice(t, key, k, m, k);
    assert Print(l)[0..n] == l.header.name && Print(l)[n + 1..m] == l.gap + l.header.value;
    assert Print(l)[m..k] == LineEnd(l.crlf);
    assert t[key + n] == t[key..key + k][n] == COLON;
  }

  /** The name is passed; the octet behind the colon is skipped, whatever it is. */
  lemma AfterColon(t: Octets, key: nat, l: Line)
    requires Printable(l) && key + |Print(l)| <= |t| && t[key..key + |Print(l)|] == Print(l)
    ensures Scan(t, key, key, key) == Scan(t, key + |l.header.name| + 2, key, key + |l.header.name| + 2)
  {
    LineParts(t, key, l);
    var colon := key + |l.header.name|;
    NotAmong(t, key, colon, COLON);
    NotAmong(t, key, colon, CR);
    NotAmong(t, key, colon, NUL);
    ScanName(t, key, key, colon);
  }

  /** From behind a colon to the end of a line that is not cut. */
  lemma ValueFrom(t: Octets, key: nat, colon: nat, end: nat)
    requires key <= colon < colon + 2 <= end < |t| && end - key < BUFSIZ && t[end] == CR
    requires CR !in t[colon + 1..end] && NUL !in t[colon + 1..end]
    ensures Scan(t, colon + 2, key, colon + 2)
         == EnterFirst(Put(EnvName(t[key..colon]), t[colon + 1..end][1..]), Scan(t, end + 2, end + 2, end + 2))
  {
    NotAmong(t, colon + 1, end, CR);
    NotAmong(t, colon + 1, end, NUL);
    ScanValue(t, colon + 2, key, colon + 2, end);
    hide Scan, EnvName;
    assert t[colon + 2..end] == t[colon + 1..end][1..];
  }

  /** A line with something behind the colon: all but its first octet is entered as the value. */
  lemma ScanLine(t: Octets, key: nat, l: Line)
    requires Printable(l) && l.crlf && l.gap + l.header.value != []
    requires key + |Print(l)| <= |t| && t[key..key + |Print(l)|] == Print(l)
    ensures var next := key + |Print(l)|;
      Scan(t, key, key, key)
      == EnterFirst(Put(EnvName(l.header.name), (l.gap + l.header.value)[1..]), Scan(t, next, next, next))
  {
    PlainText(l);
    hide Scan, EnvName, Print, Printable;
    AfterColon(t, key, l);
    LineParts(t, key, l);
    var next := key + |Print(l)|;
    assert t[next - 2] == t[next - 2..next][0] == CR;
    ValueFrom(t, key, key + |l.header.name|, next - 2);
  }

  lemma PlainText(l: Line)
    requires Printable(l)
    ensures var text := l.gap + l.header.value; CR !in text && NUL !in text && |l.header.name| + 1 + |text| < BUFSIZ
  {
  }

  lemma FirstLine(t: Octets, key: nat, ls: seq<Line>, blank: bool)
    requires Holds(t, key, ls, blank) && ls != []
    ensures var next := key + |Print(ls[0])|;
      && next <= |t| && t[key..next] == Print(ls[0]) && Holds(t, next, ls[1..], blank)
      && BodyAt(next, ls[1..], blank) == BodyAt(key, ls, blank)
  {
    var one, rest := Print(ls[0]), PrintAll(ls[1..]) + LineEnd(blank);
    var next := key + |one|;
    assert PrintAll(ls) + LineEnd(blank) == one + rest;
    assert t[key..next] == t[key..][..|one|] == (one + rest)[..|one|] == one;
    assert t[next..] == t[key..][|one|..];
  }

  lemma BlankLine(t: Octets, key: nat, blank: bool)
    requires Holds(t, key, [], blank)
    ensures key + |LineEnd(blank)| <= |t| && t[key] == LineEnd(blank)[0]
  {
    assert PrintAll([]) + LineEnd(blank) == LineEnd(blank);
    assert t[key] == t[key..][0];
  }

  /**
     Parsing undoes printing: of a regularly printed block the scan enters exactly the headers,
     in order, and stops so that the next position is the first of the body.
   */
  lemma {:induction false} ScanOfPrinted(t: Octets, key: nat, ls: seq<Line>)
    requires AllPrintable(ls) && AllRegular(ls) && Holds(t, key, ls, true)
    ensures ReadsBack(t, key, ls, true)
    decreases |ls|
  {
    if ls == [] {
      BlankLine(t, key, true);
    } else {
      var l := ls[0];
      assert l in ls && Regular(l);
      FirstLine(t, key, ls, true);
      ScanLine(t, key, l);
      ScanOfPrinted(t, key + |Print(l)|, ls[1..]);
      assert (l.gap + l.header.value)[1..] == l.header.value;
      assert EnteredAll(ls) == [Entered(l)] + EnteredAll(ls[1..]);
    }
  }

  // ----- lines that are cut --------------------------------------------------------------

  /**
     A line of BUFSIZ octets or more is entered as what the NUL written at its octet BUFSIZ - 1
     leaves: its value ends there, or, when the colon comes behind it, its name does.
   */
  lemma LongLine(t: Octets, key: nat, colon: nat, end: nat)
    requires key < colon < colon + 2 <= end < |t| && t[colon] == COLON && t[end] == CR && end - key >= BUFSIZ
    requires forall k :: key <= k < colon ==> t[k] != COLON && t[k] != CR && t[k] != NUL
    requires forall k :: colon < k < end ==> t[k] != CR && t[k] != NUL
    ensures var cut := key + 8191;
      Scan(t, key, key, key) == EnterFirst(
        if colon + 2 <= cut then Put(EnvName(t[key..colon]), t[colon + 2..cut])
        else Put(EnvName(t[key..if colon < cut then colon else cut]), t[colon + 2..end]),
        Scan(t, end + 2, end + 2, end + 2))
  {
    hide EnvName;
    ScanName(t, key, key, colon);
    ScanValue(t, colon + 2, key, colon + 2, end);
    hide Scan;
  }

  // ----- every other way of printing fails ----------------------------------------------

  /** How many carriage returns there are. */
  function Returns(s: Octets): nat
  {
    if s == [] then 0 else Returns(s[..|s| - 1]) + if s[|s| - 1] == CR then 1 else 0
  }

  lemma {:induction false} ReturnsConcat(a: Octets, b: Octets)
    ensures Returns(a + b) == Returns(a) + Returns(b)
  {
    if b == [] {
      assert a + b == a;
    } else {
      assert (a + b)[..|a + b| - 1] == a + b[..|b| - 1];
      ReturnsConcat(a, b[..|b| - 1]);
    }
  }

  lemma {:induction false} NoReturns(s: Octets)
    requires CR !in s
    ensures Returns(s) == 0
  {
    if s != [] {
      NoReturns(s[..|s| - 1]);
    }
  }

  /** A stretch has the carriage returns of its parts; one that starts with one has that. */
  lemma ReturnsFrom(t: Octets, s: nat, m: nat, at: nat)
    requires s < m <= at <= |t|
    ensures Returns(t[s..at]) >= Returns(t[m..at]) + if t[s] == CR then 1 else 0
  {
    hide Returns;
    assert t[s..at] == t[s..m] + t[m..at] && t[s..m] == [t[s]] + t[s + 1..m];
    ReturnsConcat(t[s..m], t[m..at]);
    ReturnsConcat([t[s]], t[s + 1..m]);
    OneReturn();
  }

  /** Every line the scan enters takes a carriage return, and so does its end. */
  lemma {:induction false} TakesReturns(t: Octets, s: nat, key: nat, value: nat, at: nat)
    requires key <= value <= s && (value == key || key + 2 <= value)
    requires 0 < at <= |t| && t[at - 1] != NUL
    requires var r := Scan(t, s, key, value); r.Found? && r.bodyStart + 1 == at
    ensures s < at && |Scan(t, s, key, value).puts| + 1 <= Returns(t[s..at])
    decreases |t| + 2 - s
  {
    hide Returns, LineOf;
    if t[s] == COLON && value == key {
      TakesReturns(t, s + 2, key, s + 2, at);
      ReturnsFrom(t, s, s + 2, at);
    } else if t[s] == CR && s == key {
      ReturnsFrom(t, s, s + 1, at);
    } else if t[s] == CR {
      TakesReturns(t, s + 2, s + 2, s + 2, at);
      ReturnsFrom(t, s, s + 2, at);
    } else {
      TakesReturns(t, s + 1, key, value, at);
      ReturnsFrom(t, s, s + 1, at);
    }
  }

  lemma OneReturn()
    ensures Returns([CR]) == 1
  {
    assert Returns([CR]) == Returns([CR][..0]) + 1;
  }

  /** The lines that end as the scan expects. */
  function Crlfs(ls: seq<Line>): (n: nat)
    ensures n <= |ls|
    ensures n == |ls| ==> forall l :: l in ls ==> l.crlf
  {
    if ls == [] then 0 else (if ls[0].crlf then 1 else 0) + Crlfs(ls[1..])
  }

  lemma ReturnsOfEnd(crlf: bool)
    ensures Returns(LineEnd(crlf)) == if crlf then 1 else 0
  {
    OneReturn();
    ReturnsConcat([CR], [LF]);
    NoReturns([LF]);
    assert [CR] + [LF] == [CR, LF];
  }

  lemma ReturnsOfLine(l: Line)
    requires Printable(l)
    ensures Returns(Print(l)) == if l.crlf then 1 else 0
  {
    NoReturns(Content(l));
    ReturnsOfEnd(l.crlf);
    ReturnsConcat(Content(l), LineEnd(l.crlf));
  }

  lemma {:induction false} ReturnsOfBlock(ls: seq<Line>, blank: bool)
    requires AllPrintable(ls)
    ensures Returns(PrintAll(ls) + LineEnd(blank)) == Crlfs(ls) + if blank then 1 else 0
  {
    hide Returns, Print, LineEnd, Printable;
    if ls == [] {
      assert [] + LineEnd(blank) == LineEnd(blank);
      ReturnsOfEnd(blank);
    } else {
      assert ls[0] in ls;
      var one, rest := Print(ls[0]), PrintAll(ls[1..]) + LineEnd(blank);
      ReturnsOfLine(ls[0]);
      ReturnsOfBlock(ls[1..], blank);
      assert PrintAll(ls) + LineEnd(blank) == one + rest;
      ReturnsConcat(one, rest);
    }
  }

  lemma BlockIs(t: Octets, key: nat, ls: seq<Line>, blank: bool)
    requires Holds(t, key, ls, blank)
    ensures var at := BodyAt(key, ls, blank);
      at <= |t| && t[key..at] == PrintAll(ls) + LineEnd(blank) && t[at - 1] == LF
  {
    var s, at := PrintAll(ls) + LineEnd(blank), BodyAt(key, ls, blank);
    assert t[key..at] == t[key..][..|s|] == s;
    assert t[at - 1] == t[key..at][|s| - 1] == LF;
  }

  /** Reading back what was printed takes as many carriage returns as there are ends. */
  lemma EndsAreRegular(t: Octets, key: nat, ls: seq<Line>, blank: bool)
    requires AllPrintable(ls) && Holds(t, key, ls, blank) && ReadsBack(t, key, ls, blank)
    ensures blank && forall l :: l in ls ==> l.crlf
  {
    BlockIs(t, key, ls, blank);
    ReturnsOfBlock(ls, blank);
    TakesReturns(t, key, key, key, BodyAt(key, ls, blank));
  }

  /** Behind the skipped carriage return of an empty line there are as many as lines. */
  lemma ReturnsLeft(t: Octets, key: nat, ls: seq<Line>)
    requires AllPrintable(ls) && ls != [] && ls[0].gap + ls[0].header.value == [] && ls[0].crlf
    requires Holds(t, key, ls, true)
    ensures var s, at := key + |ls[0].header.name| + 2, BodyAt(key, ls, true);
      s <= at <= |t| && Returns(t[s..at]) <= |ls|
  {
    hide PrintAll, Returns, Print, Holds, AllPrintable;
    var at, next := BodyAt(key, ls, true), key + |Print(ls[0])|;
    assert ls[0] in ls;
    FirstLine(t, key, ls, true);
    LineParts(t, key, ls[0]);
    AllButFirst(ls);
    BlockIs(t, next, ls[1..], true);
    ReturnsOfBlock(ls[1..], true);
    assert LineEnd(true) == t[next - 2..next] == [CR, LF];
    FeedBefore(t, next, at);
  }

  lemma AllButFirst(ls: seq<Line>)
    requires AllPrintable(ls) && ls != []
    ensures AllPrintable(ls[1..])
  {
  }

  lemma FeedBefore(t: Octets, next: nat, at: nat)
    requires 2 <= next <= at <= |t| && t[next - 2..next] == [CR, LF]
    ensures Returns(t[next - 1..at]) == Returns(t[next..at])
  {
    hide Returns;
    assert t[next - 1] == t[next - 2..next][1];
    assert t[next - 1..at] == [LF] + t[next..at];
    ReturnsConcat([LF], t[next..at]);
    NoReturns([LF]);
  }

  /** Nothing behind the colon: the scan skips the carriage return, and comes one short. */
  lemma EmptyIsLost(t: Octets, key: nat, ls: seq<Line>)
    requires AllPrintable(ls) && ls != [] && ls[0].gap + ls[0].header.value == [] && ls[0].crlf
    requires Holds(t, key, ls, true)
    ensures !ReadsBack(t, key, ls, true)
  {
    hide PrintAll, Returns, Print;
    FirstLine(t, key, ls, true);
    assert ls[0] in ls;
    AfterColon(t, key, ls[0]);
    BlockIs(t, key, ls, true);
    ReturnsLeft(t, key, ls);
    if ReadsBack(t, key, ls, true) {
      var s := key + |ls[0].header.name| + 2;
      TakesReturns(t, s, key, s, BodyAt(key, ls, true));
      assert false;
    }
  }

  lemma {:induction false} GapsAreRegular(t: Octets, key: nat, ls: seq<Line>)
    requires AllPrintable(ls) && Holds(t, key, ls, true) && ReadsBack(t, key, ls, true)
    requires forall l :: l in ls ==> l.crlf
    ensures AllRegular(ls)
    decreases |ls|
  {
    if ls != [] {
      var l := ls[0];
      assert l in ls;
      if l.gap + l.header.value == [] {
        EmptyIsLost(t, key, ls);
        assert false;
      }
      FirstLine(t, key, ls, true);
      ScanLine(t, key, l);
      var next := key + |Print(l)|;
      assert EnteredAll(ls) == [Entered(l)] + EnteredAll(ls[1..]);
      var puts := Scan(t, next, next, next).puts;
      assert ([Put(EnvName(l.header.name), (l.gap + l.header.value)[1..])] + puts)[0] == Entered(l);
      assert ([Put(EnvName(l.header.name), (l.gap + l.header.value)[1..])] + puts)[1..] == puts == EnteredAll(ls[1..]);
      assert |(l.gap + l.header.value)[1..]| == |l.header.value|;
      GapsAreRegular(t, next, ls[1..]);
    }
  }

  /**
     The exact condition: of headers printed in whatever way, the scan enters exactly the list
     and lands on the body if and only if every colon is followed by one octet and then the
     value, and every line and the blank one end in CRLF.
   */
  lemma ReadsBackIff(t: Octets, key: nat, ls: seq<Line>, blank: bool)
    requires AllPrintable(ls) && Holds(t, key, ls, blank)
    ensures ReadsBack(t, key, ls, blank) <==> blank && AllRegular(ls)
  {
    if blank && AllRegular(ls) {
      ScanOfPrinted(t, key, ls);
    }
    if ReadsBack(t, key, ls, blank) {
      EndsAreRegular(t, key, ls, blank);
      GapsAreRegular(t, key, ls);
    }
  }

  /** On the buffer itself: the environment gets the headers, and the body is where it was. */
  method ReadPrinted(a: array<byte>, from: nat, ghost ls: seq<Line>)
    returns (puts: seq<Put>, bodyStart: nat)
    requires AllPrintable(ls) && AllRegular(ls) && Holds(a[..], from, ls, true)
    modifies a
    ensures puts == EnteredAll(ls) && bodyStart + 1 == BodyAt(from, ls, true) <= a.Length
    ensures forall k :: bodyStart < k < a.Length ==> a[k] == old(a[k])
  {
    ScanOfPrinted(a[..], from, ls);
    BlockIs(a[..], from, ls, true);
    var left;
    left, puts, bodyStart := HeadersGet(a, from);
  }

  /**
     A head that ends in bare line feeds is complete for the reader, but the scan looks for a
     carriage return: it enters nothing and ends with the text; or, when the first colon is the
     text's last octet, it jumps over the NUL and goes on in what the buffer held before.
   */
  lemma {:induction false} BareLineFeeds(t: Octets, s: nat, key: nat, value: nat, end: nat)
    requires key <= value <= s <= end < |t| && (value == key || key + 2 <= value)
    requires t[end] == NUL && forall k :: s <= k < end ==> t[k] != NUL && t[k] != CR
    ensures var jumps := value == key && s < end && t[end - 1] == COLON
        && forall k :: s <= k < end - 1 ==> t[k] != COLON;
      Scan(t, s, key, value) == if jumps then Scan(t, end + 1, key, end + 1) else Found([], end)
    decreases end - s
  {
    if s < end {
      if t[s] == COLON && value == key {
        if s + 2 <= end {
          BareLineFeeds(t, s + 2, key, s + 2, end);
        }
      } else {
        BareLineFeeds(t, s + 1, key, value, end);
      }
    }
  }

  /** "A:" CRLF, CRLF and a body of "b" in a buffer: a legal empty value. */
  const EMPTY_VALUE: Octets := [65, COLON, CR, LF, CR, LF, 98, NUL]

  /** The reader takes it for a head; the scan enters a line feed for the value, and the body too. */
  lemma EmptyValueExample()
    ensures Complete(EMPTY_VALUE[..6])
    ensures Scan(EMPTY_VALUE, 0, 0, 0) == Found([Put(HTTP_PREFIX + [65], [LF])], 7)
  {
    var t := EMPTY_VALUE;
    assert BlankLineAt(t[..6], 3);
    ScanName(t, 0, 0, 1);
    ScanValue(t, 3, 0, 3, 4);
    assert t[0..1] == [65] && t[3..4] == [LF];
    assert seq(1, i requires 0 <= i < 1 => EnvOctet([65][i])) == [65];
    assert Scan(t, 6, 6, 6) == Scan(t, 7, 6, 6) == Found([], 7);
  }
}

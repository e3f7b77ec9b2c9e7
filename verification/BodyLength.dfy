/**
 The declared length of a body: the entry of the environment that buffer_post_body of
 src/libaxil.c looks up, cut to its buffer and read by strtoul.
 */
module BodyLength {
  import opened Bytes
  import opened HeaderBlock
  import opened Text
  import RequestLine

  const CONTENT_LENGTH: Octets :=                     // "HTTP_CONTENT_LENGTH"
    [72, 84, 84, 80, 95, 67, 79, 78, 84, 69, 78, 84, 95, 76, 69, 78, 71, 84, 72]
  const CLEN_SIZE: nat := 32
  const ULONG_MAX: nat := 0xffff_ffff_ffff_ffff

  /** The entry under a key: the last one put, if any. */
  function Lookup(puts: seq<Put>, key: Octets): Option<Octets>
  {
    if puts == [] then None
    else
      var p := puts[|puts| - 1];
      if p.key == key then Some(p.value) else Lookup(puts[..|puts| - 1], key)
  }

  /** What a buffer of the given size keeps of a text. */
  function Cut(s: Octets, size: nat): Octets
    requires 0 < size
  {
    if |s| < size then s else s[..size - 1]
  }

  predicate IsDigit(b: byte)
  {
    48 <= b <= 57
  }

  lemma DigitClass(b: byte)
    ensures IsDigit(b) <==> b as char in DIGITS
  {
    InDigits(b as char);
  }

  /** Digits up to the first octet that is none, behind those read so far. */
  function Number(s: Octets, n: nat): nat
  {
    if s == [] || !IsDigit(s[0]) then n else Number(s[1..], 10 * n + (s[0] - 48))
  }

  function SkipSpaces(s: Octets): Octets
  {
    if s != [] && RequestLine.IsSpace(s[0]) then SkipSpaces(s[1..]) else s
  }

  /** strtoul in base 10 on a 64-bit host: whitespace, a sign, digits; clamped, and negated modulo 2^64. */
  function Strtoul(s: Octets): (r: nat)
    ensures r <= ULONG_MAX
  {
    var t := SkipSpaces(s);
    var signed := t != [] && (t[0] == 43 || t[0] == 45);
    var n := Number(if signed then t[1..] else t, 0);
    if n > ULONG_MAX then ULONG_MAX
    else if signed && t[0] == 45 && n != 0 then ULONG_MAX + 1 - n
    else n
  }

  /** No body is read without an entry, nor for an empty one. */
  function Declared(puts: seq<Put>): Option<nat>
  {
    var v := Lookup(puts, CONTENT_LENGTH);
    if v.None? || v.value == [] then None else Some(Strtoul(Cut(v.value, CLEN_SIZE)))
  }

  // ----- a length as clients print it -----------------------------------------------------

  function Decimal(n: nat): (s: Octets)
    ensures s != [] && forall k :: 0 <= k < |s| ==> IsDigit(s[k])
  {
    if n < 10 then [48 + n] else Decimal(n / 10) + [48 + n % 10]
  }

  lemma {:induction false} NumberOfDecimal(n: nat, rest: Octets)
    ensures Number(Decimal(n) + rest, 0) == Number(rest, n)
  {
    var d: Octets := [48 + n % 10];
    assert (d + rest)[1..] == rest;
    if n < 10 {
      assert Decimal(n) + rest == d + rest;
    } else {
      assert Decimal(n) + rest == Decimal(n / 10) + (d + rest);
      NumberOfDecimal(n / 10, d + rest);
    }
  }

  function Pow10(k: nat): nat
  {
    if k == 0 then 1 else 10 * Pow10(k - 1)
  }

  lemma {:induction false} DecimalIsShort(n: nat, k: nat)
    requires n < Pow10(k) && 0 < k
    ensures |Decimal(n)| <= k
  {
    if n >= 10 {
      assert k > 1 by {
        assert Pow10(1) == 10 * Pow10(0);
      }
      DecimalIsShort(n / 10, k - 1);
    }
  }

  lemma TwentyDigits()
    ensures Pow10(20) > ULONG_MAX
  {
    assert Pow10(5) == 10 * Pow10(4) == 100 * Pow10(3) == 100000;
    assert Pow10(10) == 10 * Pow10(9) == 100 * Pow10(8) == 1000 * Pow10(7) == 10000 * Pow10(6) == 100000 * Pow10(5);
    assert Pow10(15) == 10 * Pow10(14) == 100 * Pow10(13) == 1000 * Pow10(12)
        == 10000 * Pow10(11) == 100000 * Pow10(10);
    assert Pow10(20) == 10 * Pow10(19) == 100 * Pow10(18) == 1000 * Pow10(17)
        == 10000 * Pow10(16) == 100000 * Pow10(15);
  }

  /** strtoul undoes decimal printing, and the buffer is large enough for any 64-bit length. */
  lemma StrtoulOfDecimal(n: nat)
    requires n <= ULONG_MAX
    ensures Strtoul(Cut(Decimal(n), CLEN_SIZE)) == n
  {
    TwentyDigits();
    hide Pow10;
    DecimalIsShort(n, 20);
    var s := Decimal(n);
    assert IsDigit(s[0]) && SkipSpaces(s) == s;
    NumberOfDecimal(n, []);
    assert s + [] == s;
  }

  /** The last line with that name decides. */
  lemma {:induction false} LookupIs(ls: seq<Line>, key: Octets, i: nat)
    requires i < |ls| && EnvName(ls[i].header.name) == key
    requires forall j :: i < j < |ls| ==> EnvName(ls[j].header.name) != key
    ensures Lookup(EnteredAll(ls), key) == Some(ls[i].header.value)
    decreases |ls|
  {
    hide EnvName;
    var last := |ls| - 1;
    assert EnteredAll(ls)[..last] == EnteredAll(ls[..last]);
    if i < last {
      LookupIs(ls[..last], key, i);
    }
  }

  lemma {:induction false} LookupNone(ls: seq<Line>, key: Octets)
    requires forall l :: l in ls ==> EnvName(l.header.name) != key
    ensures Lookup(EnteredAll(ls), key) == None
    decreases |ls|
  {
    hide EnvName;
    if ls != [] {
      var last := |ls| - 1;
      assert ls[last] in ls;
      assert EnteredAll(ls)[..last] == EnteredAll(ls[..last]);
      LookupNone(ls[..last], key);
    }
  }

  /** "Content-Length" in any mix of cases, with a dash or an underscore. */
  predicate Spells(name: Octets)
  {
    && |name| == 14
    && forall k :: 0 <= k < 14 ==> Letter(name[k], k)
  }

  predicate Letter(b: byte, k: nat)
    requires k < 14
  {
    b as char == "content-length"[k] || b as char == "CONTENT-LENGTH"[k] || (k == 7 && b as char == '_')
  }

  /** Exactly these names have that entry. */
  lemma NameIs(name: Octets)
    ensures EnvName(name) == CONTENT_LENGTH <==> Spells(name)
  {
    EnvNameIs(name);
    KeyIs();
    hide EnvName;
    var e := EnvName(name);
    if |name| == 14 {
      forall m | 5 <= m < 19
        ensures e[m] == CONTENT_LENGTH[m] <==> Letter(name[m - 5], m - 5)
      {
        assert e[5 + (m - 5)] == e[m] && CONTENT_LENGTH[5 + (m - 5)] == CONTENT_LENGTH[m];
        OneLetter(name[m - 5], m - 5);
      }
      if Spells(name) {
        SameParts(e, CONTENT_LENGTH);
      } else {
        var k :| 0 <= k < 14 && !Letter(name[k], k);
        assert e[k + 5] != CONTENT_LENGTH[k + 5];
      }
    }
  }

  lemma SameParts(e: Octets, c: Octets)
    requires |e| == |c| == 19 && e[..5] == c[..5] && forall m :: 5 <= m < 19 ==> e[m] == c[m]
    ensures e == c
  {
    forall m | 0 <= m < 5
      ensures e[m] == c[m]
    {
      assert e[m] == e[..5][m] == c[..5][m];
    }
  }

  lemma KeyIs()
    ensures CONTENT_LENGTH[..5] == Ascii("HTTP_")
    ensures forall k :: 0 <= k < 14 ==> CONTENT_LENGTH[5 + k] == if k == 7 then 95 else "CONTENT-LENGTH"[k] as int
  {
  }

  lemma OneLetter(b: byte, k: nat)
    requires k < 14
    ensures (if 97 <= b <= 122 then b - 32 else if b == 45 then 95 else b)
              == (if k == 7 then 95 else "CONTENT-LENGTH"[k] as int)
      <==> Letter(b, k)
  {
  }

  /** The last line that spells the name has that number in decimal. */
  predicate LastDeclares(ls: seq<Line>, n: nat)
  {
    n <= ULONG_MAX && exists i :: 0 <= i < |ls| && LastAt(ls, i) && ls[i].header.value == Decimal(n)
  }

  predicate LastAt(ls: seq<Line>, i: nat)
    requires i < |ls|
  {
    Spells(ls[i].header.name) && forall j :: i < j < |ls| ==> !Spells(ls[j].header.name)
  }

  predicate NoneSpelled(ls: seq<Line>)
  {
    forall l :: l in ls ==> !Spells(l.header.name)
  }

  /** A request that declares a length in decimal has that length, whatever other headers it has. */
  lemma DeclaredIs(ls: seq<Line>, n: nat)
    requires LastDeclares(ls, n)
    ensures Declared(EnteredAll(ls)) == Some(n)
  {
    var i :| 0 <= i < |ls| && LastAt(ls, i) && ls[i].header.value == Decimal(n);
    hide Spells, Decimal, Declared;
    forall j | i <= j < |ls|
      ensures EnvName(ls[j].header.name) == CONTENT_LENGTH <==> j == i
    {
      NameIs(ls[j].header.name);
    }
    LookupIs(ls, CONTENT_LENGTH, i);
    DeclaredValue(EnteredAll(ls), n);
  }

  lemma DeclaredValue(puts: seq<Put>, n: nat)
    requires Lookup(puts, CONTENT_LENGTH) == Some(Decimal(n)) && n <= ULONG_MAX
    ensures Declared(puts) == Some(n)
  {
    StrtoulOfDecimal(n);
  }

  /** A request without such a header declares none. */
  lemma NoneDeclared(ls: seq<Line>)
    requires NoneSpelled(ls)
    ensures Declared(EnteredAll(ls)) == None
  {
    forall l | l in ls
      ensures EnvName(l.header.name) != CONTENT_LENGTH
    {
      NameIs(l.header.name);
    }
    LookupNone(ls, CONTENT_LENGTH);
  }

  /** Two digits behind what is skipped. */
  lemma Reads(s: Octets, t: Octets, u: Octets, more: Octets, rest: Octets)
    requires t != [] && (s == t || (|s| == |t| + 1 && RequestLine.IsSpace(s[0]) && s[1..] == t))
    requires !RequestLine.IsSpace(t[0]) && t[0] != 45 && u == if t[0] == 43 then t[1..] else t
    requires 2 <= |u| && IsDigit(u[0]) && IsDigit(u[1]) && u[1..] == more && more[1..] == rest
    requires rest == [] || !IsDigit(rest[0])
    ensures Strtoul(s) == 10 * (u[0] - 48) + (u[1] - 48)
  {
    assert SkipSpaces(t) == t && SkipSpaces(s) == t;
    assert Number(u, 0) == Number(more, u[0] - 48) == Number(rest, 10 * (u[0] - 48) + (u[1] - 48));
  }

  /** Nor does one whose last such header is empty. */
  lemma EmptyDeclaresNone(ls: seq<Line>, i: nat)
    requires i < |ls| && LastAt(ls, i) && ls[i].header.value == []
    ensures Declared(EnteredAll(ls)) == None
  {
    hide Spells;
    forall j | i <= j < |ls|
      ensures EnvName(ls[j].header.name) == CONTENT_LENGTH <==> j == i
    {
      NameIs(ls[j].header.name);
    }
    LookupIs(ls, CONTENT_LENGTH, i);
  }

  /** The length is what the header lines spell: that of the last Content-Length, or none. */
  ghost predicate AsSpelled(ls: seq<Line>, length: Option<nat>)
  {
    && (forall n: nat :: LastDeclares(ls, n) ==> length == Some(n))
    && (NoneSpelled(ls) ==> length == None)
  }

  lemma LengthDeclared(ls: seq<Line>)
    ensures AsSpelled(ls, Declared(EnteredAll(ls)))
  {
    forall n: nat | LastDeclares(ls, n)
      ensures Declared(EnteredAll(ls)) == Some(n)
    {
      DeclaredIs(ls, n);
    }
    if NoneSpelled(ls) {
      NoneDeclared(ls);
    }
  }

  /** "1207". */
  lemma DecimalExample()
    ensures Decimal(1207) == [49, 50, 48, 55]
  {
    assert Decimal(12) == [49] + [50] == [49, 50];
    assert Decimal(120) == Decimal(12) + [48] == [49, 50, 48];
  }

  /** " +42" and "42x" are 42. */
  lemma StrtoulSkips()
    ensures Strtoul([32, 43, 52, 50]) == 42 && Strtoul([52, 50, 120]) == 42
  {
    Reads([32, 43, 52, 50], [43, 52, 50], [52, 50], [50], []);
    Reads([52, 50, 120], [52, 50, 120], [52, 50, 120], [50, 120], [120]);
  }

  /** "-1" is the largest number there is, and "x" is zero. */
  lemma StrtoulWraps()
    ensures Strtoul([45, 49]) == ULONG_MAX && Strtoul([120]) == 0
  {
    assert [45, 49][1..] == [49] && Number([49], 0) == Number([49][1..], 1) == 1;
    assert SkipSpaces([45, 49]) == [45, 49] && SkipSpaces([120]) == [120];
  }

  // ----- a value that does not fit the buffer ---------------------------------------------

  predicate Digits(s: Octets)
  {
    forall k :: 0 <= k < |s| ==> IsDigit(s[k])
  }

  function Clamp(n: nat): nat
  {
    if n > ULONG_MAX then ULONG_MAX else n
  }

  lemma {:induction false} NumberSplits(a: Octets, b: Octets, n: nat)
    requires Digits(a)
    ensures Number(a + b, n) == Number(b, Number(a, n))
  {
    if a == [] {
      assert a + b == b;
    } else {
      assert (a + b)[1..] == a[1..] + b;
      NumberSplits(a[1..], b, 10 * n + (a[0] - 48));
    }
  }

  lemma {:induction false} NumberGrows(s: Octets, n: nat)
    requires Digits(s)
    ensures Number(s, n) >= n && (s != [] ==> Number(s, n) >= 10 * n)
  {
    if s != [] {
      NumberGrows(s[1..], 10 * n + (s[0] - 48));
    }
  }

  lemma StrtoulOfDigits(s: Octets)
    requires Digits(s)
    ensures Strtoul(s) == Clamp(Number(s, 0))
  {
    assert SkipSpaces(s) == s;
  }

  /**
     A declared length of digits only is read as its value, clamped, exactly when it has fewer
     than 32 of them, or is zero, or its first 31 alone reach the largest number there is.
   */
  lemma DigitsReadIff(s: Octets)
    requires Digits(s)
    ensures Strtoul(Cut(s, CLEN_SIZE)) == Clamp(Number(s, 0)) <==>
      |s| < CLEN_SIZE || Number(s, 0) == 0 || Number(s[..CLEN_SIZE - 1], 0) >= ULONG_MAX
  {
    StrtoulOfDigits(Cut(s, CLEN_SIZE));
    hide Strtoul, Number, IsDigit;
    if |s| >= CLEN_SIZE {
      var kept, lost := s[..CLEN_SIZE - 1], s[CLEN_SIZE - 1..];
      assert kept + lost == s && Digits(kept) && Digits(lost);
      NumberSplits(kept, lost, 0);
      NumberGrows(lost, Number(kept, 0));
    }
  }

  /** 31 zeros and a five: the five is lost. */
  lemma CutLength(zeros: Octets)
    requires |zeros| == CLEN_SIZE - 1 && forall k :: 0 <= k < |zeros| ==> zeros[k] == 48
    ensures Number(zeros + [53], 0) == 5 && Declared([Put(CONTENT_LENGTH, zeros + [53])]) == Some(0)
  {
    var s := zeros + [53];
    var puts := [Put(CONTENT_LENGTH, s)];
    assert Lookup(puts, CONTENT_LENGTH) == Some(s) && s[..31] == zeros;
    StrtoulOfDigits(zeros);
    ZerosAre(zeros);
    NumberSplits(zeros, [53], 0);
    assert Number([53], 0) == Number([53][1..], 5) == 5;
  }

  lemma {:induction false} ZerosAre(zeros: Octets)
    requires forall k :: 0 <= k < |zeros| ==> zeros[k] == 48
    ensures Number(zeros, 0) == 0
  {
    if zeros != [] {
      ZerosAre(zeros[1..]);
    }
  }
}

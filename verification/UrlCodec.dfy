/** The bounded percent codec of src/axil-encode.c (section 2.1 of RFC 3986). */
module UrlCodec {
  import opened Text

  /** The text of a C string: octets, none of them zero. */
  type Octet = c: char | '\0' < c < 256 as char witness 'a'
  type CString = seq<Octet>

  /** hex_digit_value. */
  function HexValue(c: char): (v: int)
    ensures -1 <= v < 16
  {
    if '0' <= c <= '9' then c as int - '0' as int
    else if 'A' <= c <= 'F' then c as int - 'A' as int + 10
    else if 'a' <= c <= 'f' then c as int - 'a' as int + 10
    else -1
  }

  const LOWER_HEX := "0123456789abcdef"
  const UPPER_HEX := "0123456789ABCDEF"

  /** The digit with that value, in either case. */
  predicate IsHex(c: char, v: nat)
  {
    v < 16 && (c == LOWER_HEX[v] || c == UPPER_HEX[v])
  }

  /** These sixteen digits in both cases, and no other character. */
  lemma HexValueIs(c: char, v: nat)
    requires v < 16
    ensures HexValue(c) == v <==> IsHex(c, v)
    ensures HexValue(c) == -1 <==> c !in LOWER_HEX && c !in UPPER_HEX
  {
    assert HexValue(c) >= 0 ==> LOWER_HEX[HexValue(c)] == c || UPPER_HEX[HexValue(c)] == c;
  }

  function HexDigit(v: int): (c: char)
    requires 0 <= v < 16
    ensures HexValue(c) == v
  {
    "0123456789ABCDEF"[v]
  }

  predicate Unreserved(c: char)
  {
    '0' <= c <= '9' || 'A' <= c <= 'Z' || 'a' <= c <= 'z' || c == '-' || c == '_' || c == '.' || c == '~'
  }

  const MARKED := "0123456789-._~"

  lemma InMarked(c: char)
    ensures c in MARKED <==> '0' <= c <= '9' || c == '-' || c == '.' || c == '_' || c == '~'
  {
    if '0' <= c <= '9' {
      assert MARKED[c as int - '0' as int] == c;
    } else if c == '-' || c == '.' || c == '_' || c == '~' {
      assert MARKED[10] == '-' && MARKED[11] == '.' && MARKED[12] == '_' && MARKED[13] == '~';
    }
  }

  /** Section 2.3 of RFC 3986: letters, digits and four marks, and nothing else. */
  lemma UnreservedIs(c: char)
    ensures Unreserved(c) <==> c in SMALL || c in CAPITAL || c in MARKED
  {
    InSmall(c);
    InCapital(c);
    InMarked(c);
  }

  function EncodeChar(c: Octet): (e: string)
    ensures 1 <= |e| <= 3
  {
    if Unreserved(c) then [c] else ['%', HexDigit(c as int / 16), HexDigit(c as int % 16)]
  }

  /** Percent-encoding without a bound. */
  function Encode(s: CString): (e: string)
  {
    if s == "" then "" else EncodeChar(s[0]) + Encode(s[1..])
  }

  predicate Escape(s: string)
  {
    3 <= |s| && s[0] == '%' && HexValue(s[1]) >= 0 && HexValue(s[2]) >= 0
  }

  function Unhex(s: string): (c: char)
    requires Escape(s)
    ensures c < 256 as char
  {
    (HexValue(s[1]) * 16 + HexValue(s[2])) as char
  }

  /** Lenient decoding without a bound: a plus is a space, a malformed escape stands for itself. */
  function Decode(s: string): (d: string)
    ensures |d| <= |s|
  {
    if s == "" then ""
    else if s[0] == '+' then " " + Decode(s[1..])
    else if Escape(s) then [Unhex(s)] + Decode(s[3..])
    else [s[0]] + Decode(s[1..])
  }

  lemma DecodeEncodedChar(c: Octet, rest: string)
    ensures Decode(EncodeChar(c) + rest) == [c] + Decode(rest)
  {
    var e := EncodeChar(c) + rest;
    if Unreserved(c) {
      assert e[1..] == rest;
    } else {
      assert e[3..] == rest;
      assert e[1] == HexDigit(c as int / 16) && e[2] == HexDigit(c as int % 16);
    }
  }

  /** Every octet string survives the two. */
  lemma {:induction false} DecodeUndoesEncode(s: CString)
    ensures Decode(Encode(s)) == s
  {
    if s != "" {
      DecodeEncodedChar(s[0], Encode(s[1..]));
      DecodeUndoesEncode(s[1..]);
    }
  }

  /** A space and a slash are escaped, with capital digits. */
  lemma EncodeTexts()
    ensures Encode(" ") == "%20" && Encode("/") == "%2F"
  {
    assert Encode(" ") == EncodeChar(' ') + Encode("") && Encode("/") == EncodeChar('/') + Encode("");
  }

  /** A plus sign is read as a space, an escape with small digits as its octet, a bad escape as itself. */
  lemma DecodeTexts()
    ensures Decode("+") == " " && Decode("%2f") == "/" && Decode("%g0") == "%g0"
  {
    assert "+"[1..] == "" && "%2f"[3..] == "" && Unhex("%2f") == '/';
    assert "%g0"[1..] == "g0" && "g0"[1..] == "0" && "0"[1..] == "";
    assert Decode("0") == "0" && Decode("g0") == "g" + Decode("0") == "g0";
    assert Decode("%g0") == "%" + Decode("g0");
  }

  lemma {:induction false} EncodeConcat(s: CString, t: CString)
    ensures Encode(s + t) == Encode(s) + Encode(t)
  {
    if s == "" {
      assert s + t == t;
    } else {
      assert (s + t)[1..] == s[1..] + t;
      EncodeConcat(s[1..], t);
    }
  }

  /** How much of `s` axil_url_encode gets into a buffer of `room` characters. */
  ghost predicate Fits(s: CString, room: nat, k: nat)
  {
    && k <= |s|
    && (k == |s| || |Encode(s[..k])| + 4 >= room)
    && (k > 0 ==> |Encode(s[..k - 1])| + 4 < room)
  }

  lemma OneMoreChar(s: CString, i: nat)
    requires i < |s|
    ensures Encode(s[..i + 1]) == Encode(s[..i]) + EncodeChar(s[i])
  {
    assert s[..i + 1] == s[..i] + [s[i]];
    EncodeConcat(s[..i], [s[i]]);
    assert Encode([s[i]]) == EncodeChar(s[i]) + Encode([s[i]][1..]);
  }

  /** One character, escaped if it has to be; snprintf leaves a NUL behind an escape. */
  method PutEncoded(c: Octet, out: array<char>, at: nat) returns (j: nat)
    requires at + 4 < out.Length
    modifies out
    ensures at < j && j < out.Length && out[..j] == old(out[..at]) + EncodeChar(c)
  {
    if Unreserved(c) {
      out[at] := c;
      j := at + 1;
    } else {
      out[at], out[at + 1], out[at + 2] := '%', HexDigit(c as int / 16), HexDigit(c as int % 16);
      out[at + 3] := NUL;
      j := at + 3;
    }
  }

  /**
     axil_url_encode: an encoded prefix and its NUL, inside `out` exactly when there is any room
     at all; the NUL is written even for a size of 0.
   */
  method UrlEncode(input: CString, out: array<char>) returns (j: nat, inside: bool, ghost k: nat)
    modifies out
    ensures inside <==> 0 < out.Length
    ensures inside ==> Fits(input, out.Length, k) && j < out.Length
    ensures inside ==> out[..j] == Encode(input[..k]) && out[j] == NUL
    ensures !inside ==> j == 0
  {
    j, k := 0, 0;
    if out.Length == 0 {
      return 0, false, 0;
    }
    inside := true;
    var i := 0;
    assert Encode(input[..0]) == "";
    hide Encode, EncodeChar;
    while i < |input| && j + 4 < out.Length
      invariant 0 <= i <= |input| && j < out.Length
      invariant out[..j] == Encode(input[..i])
      invariant i > 0 ==> |Encode(input[..i - 1])| + 4 < out.Length
    {
      OneMoreChar(input, i);
      j := PutEncoded(input[i], out, j);
      i := i + 1;
    }
    k := i;
    out[j] := NUL;
  }

  /** One step of decoding: a plus, an escape, or the character itself. */
  method NextDecoded(src: string, si: nat) returns (c: char, next: nat)
    requires si < |src|
    ensures si < next <= |src|
    ensures Decode(src[si..]) == [c] + Decode(src[next..])
  {
    ghost var rest := src[si..];
    if src[si] == '+' {
      assert rest[1..] == src[si + 1..];
      return ' ', si + 1;
    }
    if src[si] == '%' && si + 2 < |src| {
      var hi, lo := HexValue(src[si + 1]), HexValue(src[si + 2]);
      if hi >= 0 && lo >= 0 {
        assert Escape(rest) && rest[3..] == src[si + 3..];
        return (hi * 16 + lo) as char, si + 3;
      }
    }
    assert rest[1..] == src[si + 1..];
    return src[si], si + 1;
  }

  lemma Shift(done: string, c: char, rest: string)
    ensures done + ([c] + rest) == done + [c] + rest
  {
  }

  /** Decode until the text or the buffer is used up. */
  method DecodeInto(src: string, out: array<char>) returns (si: nat, oi: nat)
    requires 0 < out.Length
    modifies out
    ensures si <= |src| && oi < out.Length && (si == |src| || oi + 1 == out.Length)
    ensures Decode(src) == out[..oi] + Decode(src[si..])
    ensures forall m :: oi <= m < out.Length ==> out[m] == old(out[m])
  {
    si, oi := 0, 0;
    assert src[0..] == src;
    while si < |src| && oi + 1 < out.Length
      invariant 0 <= si <= |src| && oi < out.Length
      invariant Decode(src) == out[..oi] + Decode(src[si..])
      invariant forall m :: oi <= m < out.Length ==> out[m] == old(out[m])
      decreases |src| - si
    {
      ghost var done := out[..oi];
      var c, next := NextDecoded(src, si);
      Shift(done, c, Decode(src[next..]));
      out[oi] := c;
      si, oi := next, oi + 1;
      assert out[..oi] == done + [c];
    }
  }

  /** axil_url_decode: as much of the decoded text as fits, and its NUL. */
  method UrlDecode(src: string, out: array<char>) returns (oi: nat)
    modifies out
    ensures out.Length == 0 ==> oi == 0
    ensures out.Length > 0 ==>
      && oi == (if |Decode(src)| < out.Length then |Decode(src)| else out.Length - 1)
      && out[..oi] == Decode(src)[..oi] && out[oi] == NUL
      && forall m :: oi < m < out.Length ==> out[m] == old(out[m])
  {
    if out.Length == 0 {
      return 0;
    }
    var si;
    si, oi := DecodeInto(src, out);
    ghost var rest := src[si..];
    assert rest == "" || |Decode(rest)| > 0;
    ghost var done := out[..oi];
    assert done == Decode(src)[..oi];
    out[oi] := NUL;
    assert out[..oi] == done;
  }

  /** Through both buffers: a prefix of the text, and all of it when both are large enough. */
  method RoundTrip(s: CString, first: array<char>, second: array<char>) returns (n: nat)
    requires 0 < first.Length && 0 < second.Length && first != second
    modifies first, second
    ensures n < second.Length && second[..n] <= s && second[n] == NUL
    ensures |Encode(s)| + 4 < first.Length && |s| < second.Length ==> second[..n] == s
  {
    var j, _, k := UrlEncode(s, first);
    DecodeUndoesEncode(s[..k]);
    if |Encode(s)| + 4 < first.Length && k < |s| {
      assert s == s[..k] + s[k..];
      EncodeConcat(s[..k], s[k..]);
    }
    n := UrlDecode(first[..j], second);
  }
}

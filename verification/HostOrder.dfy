/**
 The byte-order helpers of src/ws.c on hosts of either byte order.

 A length leaves the server as the memory image of `ws_htonll(n)`; a peer reads
 it most significant octet first.  The two agree on a little-endian host.  On a
 big-endian host `htonl` is the identity, but `ws_htonll` still exchanges the two
 32-bit words, so they agree only when those words are equal.
 */
module HostOrder {
  import opened Bytes

  datatype Host = LittleEndian | BigEndian

  const TWO_TO_THE_16: nat := 0x1_0000
  const TWO_TO_THE_32: nat := 0x1_0000_0000
  const TWO_TO_THE_64: nat := 0x1_0000_0000_0000_0000

  /** What `memcpy` of a `k`-octet integer object leaves in memory. */
  function Store(host: Host, n: nat, k: nat): (s: Octets)
    ensures |s| == k
  {
    if host.LittleEndian? then ToLittleEndian(n, k) else ToBigEndian(n, k)
  }

  /** The integer object whose memory image is `s`. */
  function Load(host: Host, s: Octets): (n: nat)
  {
    if host.LittleEndian? then FromLittleEndian(s) else FromBigEndian(s)
  }

  function Htons(host: Host, x: nat): (r: nat)
    requires x < TWO_TO_THE_16
  {
    if host.BigEndian? then x else x % 256 * 256 + x / 256
  }

  function Htonl(host: Host, x: nat): (r: nat)
    requires x < TWO_TO_THE_32
  {
    if host.BigEndian? then x
    else x % 256 * 0x100_0000 + x / 256 % 256 * 0x1_0000 + x / 0x1_0000 % 256 * 256 + x / 0x100_0000
  }

  /** ws_htonll, and ws_ntohll: the two have the same body. */
  function WsHtonll(host: Host, v: nat): (r: nat)
    requires v < TWO_TO_THE_64
  {
    var lo, hi := v % 0x1_0000_0000, v / 0x1_0000_0000;
    Htonl(host, lo) * 0x1_0000_0000 + Htonl(host, hi)
  }

  lemma WsHtonllOfWords(host: Host, hi: nat, lo: nat)
    requires hi < TWO_TO_THE_32 && lo < TWO_TO_THE_32
    ensures hi * 0x1_0000_0000 + lo < TWO_TO_THE_64
    ensures (hi * 0x1_0000_0000 + lo) % 0x1_0000_0000 == lo && (hi * 0x1_0000_0000 + lo) / 0x1_0000_0000 == hi
    ensures WsHtonll(host, hi * 0x1_0000_0000 + lo) == Htonl(host, lo) * 0x1_0000_0000 + Htonl(host, hi)
  {
  }

  /** The two length octets ws_write puts after a 126 selector. */
  function EncodeLength16(host: Host, n: nat): (s: Octets)
    requires n < TWO_TO_THE_16
    ensures |s| == 2
  {
    Store(host, Htons(host, n), 2)
  }

  /** The eight length octets ws_write puts after a 127 selector. */
  function EncodeLength64(host: Host, n: nat): (s: Octets)
    requires n < TWO_TO_THE_64
    ensures |s| == 8
  {
    Store(host, WsHtonll(host, n), 8)
  }

  function DecodeLength16(host: Host, s: Octets): (n: nat)
    requires |s| == 2
  {
    LoadBound(host, s);
    Htons(host, Load(host, s))
  }

  function DecodeLength64(host: Host, s: Octets): (n: nat)
    requires |s| == 8
  {
    LoadBound(host, s);
    WsHtonll(host, Load(host, s))
  }

  lemma LoadBound(host: Host, s: Octets)
    ensures |s| == 2 ==> Load(host, s) < TWO_TO_THE_16
    ensures |s| == 4 ==> Load(host, s) < TWO_TO_THE_32
    ensures |s| == 8 ==> Load(host, s) < TWO_TO_THE_64
  {
    LittleEndianBound(s);
    BigEndianBound(s);
    PowersOf256();
  }

  lemma PowersOf256()
    ensures Pow256(2) == TWO_TO_THE_16 && Pow256(4) == TWO_TO_THE_32 && Pow256(8) == TWO_TO_THE_64
  {
    assert Pow256(2) == 256 * Pow256(1) == 0x1_0000;
    assert Pow256(4) == 256 * Pow256(3) == 0x1_0000 * Pow256(2);
    assert Pow256(6) == 256 * Pow256(5) == 0x1_0000 * Pow256(4);
    assert Pow256(8) == 256 * Pow256(7) == 0x1_0000 * Pow256(6);
  }

  // ----- octet strings of the fixed sizes, written out ------------------------

  lemma TwoOctets(s: Octets)
    requires |s| == 2
    ensures FromLittleEndian(s) == s[0] + 256 * s[1] as int
    ensures FromBigEndian(s) == 256 * s[0] as int + s[1]
  {
    assert FromLittleEndian(s[1..]) == s[1] + 256 * FromLittleEndian(s[1..][1..]);
    assert FromBigEndian(s[..1]) == 256 * FromBigEndian(s[..1][..0]) + s[0];
  }

  lemma FourOctets(s: Octets)
    requires |s| == 4
    ensures FromLittleEndian(s) == s[0] + 256 * s[1] as int + 0x1_0000 * s[2] as int + 0x100_0000 * s[3] as int
    ensures FromBigEndian(s) == 0x100_0000 * s[0] as int + 0x1_0000 * s[1] as int + 256 * s[2] as int + s[3]
  {
    assert s[1..][1..] == s[2..] && s[..3][..2] == s[..2];
    TwoOctets(s[2..]);
    TwoOctets(s[..2]);
    assert FromLittleEndian(s[1..]) == s[1] + 256 * FromLittleEndian(s[2..]);
    assert FromBigEndian(s[..3]) == 256 * FromBigEndian(s[..2]) + s[2];
  }

  lemma EightOctets(s: Octets)
    requires |s| == 8
    ensures FromLittleEndian(s) == FromLittleEndian(s[..4]) + 0x1_0000_0000 * FromLittleEndian(s[4..])
    ensures FromBigEndian(s) == 0x1_0000_0000 * FromBigEndian(s[..4]) + FromBigEndian(s[4..])
  {
    FourOctets(s[..4]);
    FourOctets(s[4..]);
    EightLittle(s);
    EightBig(s);
  }

  lemma EightLittle(s: Octets)
    requires |s| == 8
    ensures FromLittleEndian(s)
         == s[0] + 256 * s[1] as int + 0x1_0000 * s[2] as int + 0x100_0000 * s[3] as int
            + 0x1_0000_0000 * FromLittleEndian(s[4..])
  {
    assert s[1..][1..] == s[2..] && s[2..][1..] == s[3..] && s[3..][1..] == s[4..];
    assert FromLittleEndian(s[3..]) == s[3] + 256 * FromLittleEndian(s[4..]);
    assert FromLittleEndian(s[2..]) == s[2] + 256 * FromLittleEndian(s[3..]);
    assert FromLittleEndian(s[1..]) == s[1] + 256 * FromLittleEndian(s[2..]);
  }

  lemma EightBig(s: Octets)
    requires |s| == 8
    ensures FromBigEndian(s)
         == 0x1_0000_0000 * FromBigEndian(s[..4])
            + 0x100_0000 * s[4] as int + 0x1_0000 * s[5] as int + 256 * s[6] as int + s[7]
  {
    assert s[..7][..6] == s[..6] && s[..6][..5] == s[..5] && s[..5][..4] == s[..4];
    assert FromBigEndian(s[..5]) == 256 * FromBigEndian(s[..4]) + s[4];
    assert FromBigEndian(s[..6]) == 256 * FromBigEndian(s[..5]) + s[5];
    assert FromBigEndian(s[..7]) == 256 * FromBigEndian(s[..6]) + s[6];
  }

  /** `htonl` on a little-endian host reads four octets in the other order. */
  lemma HtonlReverses(s: Octets)
    requires |s| == 4
    ensures FromLittleEndian(s) < TWO_TO_THE_32 && FromBigEndian(s) < TWO_TO_THE_32
    ensures Htonl(LittleEndian, FromLittleEndian(s)) == FromBigEndian(s)
    ensures Htonl(LittleEndian, FromBigEndian(s)) == FromLittleEndian(s)
  {
    FourOctets(s);
    SwapDigits(s[0], s[1], s[2], s[3]);
    SwapDigits(s[3], s[2], s[1], s[0]);
  }

  lemma Digits(low: byte, rest: nat)
    ensures (low + 256 * rest) % 256 == low && (low + 256 * rest) / 256 == rest
  {
  }

  lemma SwapDigits(a: byte, b: byte, c: byte, d: byte)
    ensures var x := a + 256 * b + 0x1_0000 * c + 0x100_0000 * d;
            x < TWO_TO_THE_32 && Htonl(LittleEndian, x) == d + 256 * c + 0x1_0000 * b + 0x100_0000 * a
  {
    var x := a + 256 * b + 0x1_0000 * c + 0x100_0000 * d;
    Digits(a, b + 256 * c + 0x1_0000 * d);
    Digits(b, c + 256 * d);
    Digits(c, d);
    assert x / 0x1_0000 == x / 256 / 256 && x / 0x100_0000 == x / 256 / 256 / 256;
  }

  /** The words of eight octets, read either way round. */
  lemma WordsOf(s: Octets) returns (hi: nat, lo: nat, rhi: nat, rlo: nat)
    requires |s| == 8
    ensures hi < TWO_TO_THE_32 && lo < TWO_TO_THE_32 && rhi < TWO_TO_THE_32 && rlo < TWO_TO_THE_32
    ensures FromBigEndian(s) == hi * 0x1_0000_0000 + lo && FromLittleEndian(s) == rlo * 0x1_0000_0000 + rhi
    ensures Htonl(LittleEndian, hi) == rhi && Htonl(LittleEndian, rhi) == hi
    ensures Htonl(LittleEndian, lo) == rlo && Htonl(LittleEndian, rlo) == lo
  {
    EightOctets(s);
    HtonlReverses(s[..4]);
    HtonlReverses(s[4..]);
    hi, lo := FromBigEndian(s[..4]), FromBigEndian(s[4..]);
    rhi, rlo := FromLittleEndian(s[..4]), FromLittleEndian(s[4..]);
  }

  /** On a little-endian host the eight octets are read most significant first. */
  lemma DecodeLength64Little(s: Octets)
    requires |s| == 8
    ensures DecodeLength64(LittleEndian, s) == FromBigEndian(s)
  {
    hide Htonl, FromBigEndian, FromLittleEndian;
    var hi, lo, rhi, rlo := WordsOf(s);
    WsHtonllOfWords(LittleEndian, rlo, rhi);
  }

  /** On a big-endian host they are read correctly exactly when both halves agree. */
  lemma DecodeLength64Big(s: Octets)
    requires |s| == 8
    ensures DecodeLength64(BigEndian, s) == FromBigEndian(s) <==> s[..4] == s[4..]
  {
    LoadBound(BigEndian, s);
    EightOctets(s);
    LoadBound(BigEndian, s[..4]);
    LoadBound(BigEndian, s[4..]);
    var hi, lo := FromBigEndian(s[..4]), FromBigEndian(s[4..]);
    WsHtonllOfWords(BigEndian, hi, lo);
    if hi == lo {
      BigEndianInjective(s[..4], s[4..]);
    }
  }

  /** For which lengths a host's octets are in network order: below 2^16, or with equal words, on any. */
  predicate RightOn(host: Host, n: nat)
  {
    host.LittleEndian? || n < TWO_TO_THE_16 || n / 0x1_0000_0000 == n % 0x1_0000_0000
  }

  lemma HalvesAreWords(s: Octets)
    requires |s| == 8
    ensures s[..4] == s[4..] <==> FromBigEndian(s) / 0x1_0000_0000 == FromBigEndian(s) % 0x1_0000_0000
  {
    EightOctets(s);
    LoadBound(BigEndian, s[..4]);
    LoadBound(BigEndian, s[4..]);
    var hi, lo := FromBigEndian(s[..4]), FromBigEndian(s[4..]);
    WsHtonllOfWords(BigEndian, hi, lo);
    if hi == lo {
      BigEndianInjective(s[..4], s[4..]);
    }
  }

  /** The eight octets of a length of at least 2^16, on either host. */
  lemma DecodeLength64Iff(host: Host, s: Octets)
    requires |s| == 8 && TWO_TO_THE_16 <= FromBigEndian(s)
    ensures DecodeLength64(host, s) == FromBigEndian(s) <==> RightOn(host, FromBigEndian(s))
  {
    hide DecodeLength64, FromBigEndian;
    if host.LittleEndian? {
      DecodeLength64Little(s);
    } else {
      DecodeLength64Big(s);
      HalvesAreWords(s);
    }
  }

  lemma EncodeLength64Iff(host: Host, n: nat)
    requires TWO_TO_THE_16 <= n < TWO_TO_THE_64
    ensures EncodeLength64(host, n) == ToBigEndian(n, 8) <==> RightOn(host, n)
  {
    hide EncodeLength64, ToBigEndian;
    if host.LittleEndian? {
      EncodeLength64Little(n);
    } else {
      EncodeLength64Big(n);
    }
  }

  /** The two-octet form is right on every host. */
  lemma DecodeLength16Any(host: Host, s: Octets)
    requires |s| == 2
    ensures DecodeLength16(host, s) == FromBigEndian(s)
  {
    LoadBound(host, s);
    TwoOctets(s);
  }

  lemma EncodeLength16Any(host: Host, n: nat)
    requires n < TWO_TO_THE_16
    ensures EncodeLength16(host, n) == ToBigEndian(n, 2)
  {
    PowersOf256();
    var s := ToBigEndian(n, 2);
    BigEndianRoundTrip(n, 2);
    TwoOctets(s);
    assert s[0] as nat == n / 256 && s[1] as nat == n % 256;
    if host.LittleEndian? {
      LittleEndianOfOctets(s);
    }
  }

  /** The wire length of a little-endian server is what section 5.2 of RFC 6455 asks for. */
  lemma EncodeLength64Little(n: nat)
    requires n < TWO_TO_THE_64
    ensures EncodeLength64(LittleEndian, n) == ToBigEndian(n, 8)
  {
    PowersOf256();
    var s := ToBigEndian(n, 8);
    BigEndianRoundTrip(n, 8);
    ReversedWord(s);
    LittleEndianOfOctets(s);
  }

  lemma ReversedWord(s: Octets)
    requires |s| == 8
    ensures FromBigEndian(s) < TWO_TO_THE_64
    ensures WsHtonll(LittleEndian, FromBigEndian(s)) == FromLittleEndian(s)
  {
    hide Htonl, FromBigEndian, FromLittleEndian;
    var hi, lo, rhi, rlo := WordsOf(s);
    WsHtonllOfWords(LittleEndian, hi, lo);
  }

  /** There the two words of the length are exchanged. */
  lemma BigEndianWords(n: nat)
    requires n < TWO_TO_THE_64
    ensures WsHtonll(BigEndian, n) == n % 0x1_0000_0000 * 0x1_0000_0000 + n / 0x1_0000_0000
    ensures WsHtonll(BigEndian, n) < TWO_TO_THE_64
    ensures WsHtonll(BigEndian, n) == n <==> n / 0x1_0000_0000 == n % 0x1_0000_0000
  {
  }

  lemma SameOctets(m: nat, n: nat)
    requires m < TWO_TO_THE_64 && n < TWO_TO_THE_64
    ensures ToBigEndian(m, 8) == ToBigEndian(n, 8) <==> m == n
  {
    PowersOf256();
    BigEndianRoundTrip(m, 8);
    BigEndianRoundTrip(n, 8);
  }

  /** A big-endian server announces the right length exactly when the words agree. */
  lemma EncodeLength64Big(n: nat)
    requires n < TWO_TO_THE_64
    ensures EncodeLength64(BigEndian, n) == ToBigEndian(n, 8) <==> n / 0x1_0000_0000 == n % 0x1_0000_0000
  {
    BigEndianWords(n);
    SameOctets(WsHtonll(BigEndian, n), n);
  }

  /** In particular no 64-bit form below 4 GiB is right there. */
  lemma EncodeLength64BigCounterexample(n: nat)
    requires 0 < n < TWO_TO_THE_32
    ensures EncodeLength64(BigEndian, n) != ToBigEndian(n, 8)
  {
    EncodeLength64Big(n);
  }
}

/** Octets, network byte order and the masking of section 5.3 of RFC 6455. */
module Bytes {

  type byte = x: int | 0 <= x < 256

  type Octets = seq<byte>

  /** The stdio constant the C sources size their buffers by, as glibc has it. */
  const BUFSIZ: nat := 8192

  /** The octets of a text of seven-bit characters. */
  function Ascii(s: string): (r: Octets)
    requires forall k :: 0 <= k < |s| ==> s[k] as int < 128
    ensures |r| == |s| && forall k :: 0 <= k < |s| ==> r[k] == s[k] as int
  {
    seq(|s|, k requires 0 <= k < |s| => s[k] as int)
  }

  ghost function Pow256(k: nat): (r: nat)
    ensures 0 < r
  {
    if k == 0 then 1 else 256 * Pow256(k - 1)
  }

  /** The number an octet string stands for, most significant octet first. */
  function FromBigEndian(s: Octets): (n: nat)
  {
    if s == [] then 0 else FromBigEndian(s[..|s| - 1]) * 256 + s[|s| - 1]
  }

  /** The number an octet string stands for, least significant octet first. */
  function FromLittleEndian(s: Octets): (n: nat)
  {
    if s == [] then 0 else s[0] + 256 * FromLittleEndian(s[1..])
  }

  /** The `k` low octets of `n`, most significant first. */
  function ToBigEndian(n: nat, k: nat): (s: Octets)
    ensures |s| == k
  {
    if k == 0 then [] else ToBigEndian(n / 256, k - 1) + [n % 256]
  }

  /** The `k` low octets of `n`, least significant first. */
  function ToLittleEndian(n: nat, k: nat): (s: Octets)
    ensures |s| == k
  {
    if k == 0 then [] else [n % 256] + ToLittleEndian(n / 256, k - 1)
  }

  lemma {:induction false} LittleEndianOfOctets(s: Octets)
    ensures ToLittleEndian(FromLittleEndian(s), |s|) == s
  {
    if s != [] {
      LittleEndianOfOctets(s[1..]);
      assert s == [s[0]] + s[1..];
    }
  }

  lemma {:induction false} BigEndianRoundTrip(n: nat, k: nat)
    requires n < Pow256(k)
    ensures FromBigEndian(ToBigEndian(n, k)) == n
  {
    if k != 0 {
      var s, front := ToBigEndian(n, k), ToBigEndian(n / 256, k - 1);
      assert Pow256(k) == 256 * Pow256(k - 1) && s == front + [n % 256];
      hide Pow256, ToBigEndian;
      BigEndianRoundTrip(n / 256, k - 1);
      assert s[..k - 1] == front && s[k - 1] == n % 256;
    }
  }

  lemma {:induction false} BigEndianBound(s: Octets)
    ensures FromBigEndian(s) < Pow256(|s|)
  {
    if s != [] {
      BigEndianBound(s[..|s| - 1]);
    }
  }

  lemma {:induction false} LittleEndianBound(s: Octets)
    ensures FromLittleEndian(s) < Pow256(|s|)
  {
    if s != [] {
      LittleEndianBound(s[1..]);
    }
  }

  lemma {:induction false} BigEndianInjective(s: Octets, t: Octets)
    requires |s| == |t| && FromBigEndian(s) == FromBigEndian(t)
    ensures s == t
  {
    if s != [] {
      var m := |s| - 1;
      BigEndianInjective(s[..m], t[..m]);
      assert s == s[..m] + [s[m]];
      assert t == t[..m] + [t[m]];
    }
  }

  // ----- masking --------------------------------------------------------------

  /** Exclusive or of the `k` low bits of two numbers. */
  function XorBits(a: nat, b: nat, k: nat): (r: nat)
    ensures r < Pow2(k)
  {
    if k == 0 then 0
    else 2 * XorBits(a / 2, b / 2, k - 1) + (if a % 2 == b % 2 then 0 else 1)
  }

  ghost function Pow2(k: nat): nat
  {
    if k == 0 then 1 else 2 * Pow2(k - 1)
  }

  function Xor(a: byte, b: byte): (r: byte)
  {
    assert Pow2(8) == 256 by { assert Pow2(4) == 2 * Pow2(3) == 16; }
    XorBits(a, b, 8)
  }

  function Bit(n: nat, i: nat): nat
  {
    if i == 0 then n % 2 else Bit(n / 2, i - 1)
  }

  lemma {:induction false} XorBitsBit(a: nat, b: nat, k: nat, i: nat)
    requires i < k
    ensures Bit(XorBits(a, b, k), i) == 1 <==> Bit(a, i) != Bit(b, i)
  {
    var low := if a % 2 == b % 2 then 0 else 1;
    var high := XorBits(a / 2, b / 2, k - 1);
    assert XorBits(a, b, k) == 2 * high + low;
    hide XorBits, Pow2;
    assert (2 * high + low) / 2 == high && (2 * high + low) % 2 == low;
    if i > 0 {
      XorBitsBit(a / 2, b / 2, k - 1, i - 1);
    }
  }

  /** Bit by bit, one where the two differ. */
  lemma XorBit(a: byte, b: byte, i: nat)
    requires i < 8
    ensures Bit(Xor(a, b), i) == 1 <==> Bit(a, i) != Bit(b, i)
  {
    XorBitsBit(a, b, 8, i);
  }

  lemma {:induction false} XorBitsTwice(a: nat, b: nat, k: nat)
    requires a < Pow2(k)
    ensures XorBits(XorBits(a, b, k), b, k) == a
  {
    if k != 0 {
      var low := if a % 2 == b % 2 then 0 else 1;
      var high := XorBits(a / 2, b / 2, k - 1);
      var x := XorBits(a, b, k);
      assert x == 2 * high + low && a / 2 < Pow2(k - 1);
      assert XorBits(x, b, k) == 2 * XorBits(x / 2, b / 2, k - 1) + (if x % 2 == b % 2 then 0 else 1);
      hide XorBits, Pow2;
      XorBitsTwice(a / 2, b / 2, k - 1);
      assert x / 2 == high && x % 2 == low;
    }
  }

  lemma XorTwice(a: byte, k: byte)
    ensures Xor(Xor(a, k), k) == a
  {
    assert Pow2(8) == 256 by { assert Pow2(4) == 2 * Pow2(3) == 16; }
    XorBitsTwice(a, k, 8);
  }

  /** Octet `i` of the payload is combined with octet `i` modulo 4 of the key. */
  function Mask(key: Octets, payload: Octets): (r: Octets)
    requires |key| == 4
    ensures |r| == |payload|
    ensures forall i :: 0 <= i < |r| ==> r[i] == Xor(payload[i], key[i % 4])
  {
    seq(|payload|, i requires 0 <= i < |payload| => Xor(payload[i], key[i % 4]))
  }

  /** Unmasking is masking again: a peer's masked payload comes back unchanged. */
  lemma MaskIsInvolution(key: Octets, payload: Octets)
    requires |key| == 4
    ensures Mask(key, Mask(key, payload)) == payload
  {
    forall i | 0 <= i < |payload|
      ensures Mask(key, Mask(key, payload))[i] == payload[i]
    {
      XorTwice(payload[i], key[i % 4]);
    }
  }
}

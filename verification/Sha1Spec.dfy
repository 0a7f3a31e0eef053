/**
 SHA-1 in one shot, as FIPS PUB 180-1 states it: pad the message (section 4), then fold the
 80-step block function (sections 5 to 7) over its 64-octet blocks.
 */
module Sha1Spec {

  type Octet = bv8
  type Word = bv32
  type Block = b: seq<Octet> | |b| == 64 witness seq(64, _ => 0)

  /** The five chaining words H0..H4, and the five word buffers A..E. */
  datatype Chain = Chain(a: Word, b: Word, c: Word, d: Word, e: Word)

  const IV := Chain(0x67452301, 0xEFCDAB89, 0x98BADCFE, 0x10325476, 0xC3D2E1F0)

  const MAX_OCTETS: nat := 0x2000_0000_0000_0000 // 2^61 octets are 2^64 bits

  // ---------- section 4: padding ----------

  function OctetOf(x: int): Octet {
    (x % 256) as bv8
  }

  function OctetValue(o: Octet): int {
    o as int
  }

  /** The k low-order octets of n, most significant first. */
  function BigEndian(n: nat, k: nat): (r: seq<Octet>)
    ensures |r| == k
  {
    if k == 0 then [] else BigEndian(n / 256, k - 1) + [OctetOf(n)]
  }

  function Zeros(k: nat): (r: seq<Octet>)
    ensures |r| == k && forall i :: 0 <= i < k ==> r[i] == 0
  {
    seq(k, _ => 0)
  }

  /** How many zero octets follow the 0x80 octet. */
  function ZeroCount(n: nat): (k: nat)
    ensures k < 64 && (n + 1 + k + 8) % 64 == 0
  {
    (55 - n) % 64
  }

  function Pad(m: seq<Octet>): (p: seq<Octet>)
    ensures |p| % 64 == 0
  {
    m + [0x80] + Zeros(ZeroCount(|m|)) + BigEndian(8 * |m|, 8)
  }

  // ---------- sections 5 to 7: the block function ----------

  function F(t: nat, b: Word, c: Word, d: Word): Word {
    if t < 20 then (b & c) | (!b & d)
    else if t < 40 then b ^ c ^ d
    else if t < 60 then (b & c) | (b & d) | (c & d)
    else b ^ c ^ d
  }

  function K(t: nat): Word {
    if t < 20 then 0x5A827999
    else if t < 40 then 0x6ED9EBA1
    else if t < 60 then 0x8F1BBCDC
    else 0xCA62C1D6
  }

  /** Four octets, leftmost most significant. */
  function WordOf(o0: Octet, o1: Octet, o2: Octet, o3: Octet): Word {
    (o0 as Word) * 0x1000000 + (o1 as Word) * 0x10000 + (o2 as Word) * 0x100 + (o3 as Word)
  }

  function Mix(a: Word, b: Word, c: Word, d: Word): Word {
    (a ^ b ^ c ^ d).RotateLeft(1)
  }

  function Schedule(m: Block, t: nat): Word {
    if t < 16 then WordOf(m[4 * t], m[4 * t + 1], m[4 * t + 2], m[4 * t + 3])
    else Mix(Schedule(m, t - 3), Schedule(m, t - 8), Schedule(m, t - 14), Schedule(m, t - 16))
  }

  // Addition of words is modulo 2^32.

  function Add(x: Word, y: Word): Word {
    x + y
  }

  function Sum(u: Word, v: Word, w: Word, x: Word, y: Word): Word {
    u + v + w + x + y
  }

  function Step(t: nat, w: Word, s: Chain): Chain {
    Chain(Sum(s.a.RotateLeft(5), F(t, s.b, s.c, s.d), s.e, w, K(t)),
          s.a, s.b.RotateLeft(30), s.c, s.d)
  }

  /** The word buffers after the first t steps on block m. */
  function Rounds(m: Block, h: Chain, t: nat): Chain {
    if t == 0 then h else Step(t - 1, Schedule(m, t - 1), Rounds(m, h, t - 1))
  }

  function AddChains(x: Chain, y: Chain): Chain {
    Chain(Add(x.a, y.a), Add(x.b, y.b), Add(x.c, y.c), Add(x.d, y.d), Add(x.e, y.e))
  }

  function Compress(h: Chain, m: Block): Chain {
    AddChains(h, Rounds(m, h, 80))
  }

  function FoldBlocks(h: Chain, m: seq<Octet>): Chain
    requires |m| % 64 == 0
    decreases |m|
  {
    if m == [] then h else Compress(FoldBlocks(h, m[..|m| - 64]), m[|m| - 64..])
  }

  function Sha1(m: seq<Octet>): Chain {
    FoldBlocks(IV, Pad(m))
  }

  /** The 160-bit digest as 20 octets. */
  function WordOctets(w: Word): (r: seq<Octet>)
    ensures |r| == 4
  {
    [((w >> 24) & 0xFF) as Octet, ((w >> 16) & 0xFF) as Octet, ((w >> 8) & 0xFF) as Octet, (w & 0xFF) as Octet]
  }

  function DigestOctets(h: Chain): (r: seq<Octet>)
    ensures |r| == 20
  {
    WordOctets(h.a) + WordOctets(h.b) + WordOctets(h.c) + WordOctets(h.d) + WordOctets(h.e)
  }

  // ---------- laws ----------

  /** Appending one block applies the block function once. */
  lemma FoldOneMore(h: Chain, m: seq<Octet>, b: Block)
    requires |m| % 64 == 0
    ensures |m + b| % 64 == 0
    ensures FoldBlocks(h, m + b) == Compress(FoldBlocks(h, m), b)
  {
    hide Compress;
    assert (m + b)[..|m|] == m && (m + b)[|m|..] == b;
  }

  lemma NoSmallerCount(n: nat, k: nat)
    requires (n + 1 + k + 8) % 64 == 0
    ensures k >= ZeroCount(n)
  {
  }

  /** No smaller padding reaches a block boundary. */
  lemma PaddingIsMinimal(m: seq<Octet>, k: nat)
    requires (|m| + 1 + k + 8) % 64 == 0
    ensures |Pad(m)| <= |m| + 1 + k + 8
  {
    hide ZeroCount, Zeros, BigEndian;
    NoSmallerCount(|m|, k);
  }

  lemma CastRoundTrip(x: int)
    requires 0 <= x < 256
    ensures OctetValue(x as bv8) == x
  {
  }

  lemma OctetRoundTrip(x: int)
    ensures OctetValue(OctetOf(x)) == x % 256
  {
    hide OctetValue;
    CastRoundTrip(x % 256);
  }

  function BigEndianValue(r: seq<Octet>): int {
    if r == [] then 0 else 256 * BigEndianValue(r[..|r| - 1]) + OctetValue(r[|r| - 1])
  }

  function Pow256(k: nat): nat {
    if k == 0 then 1 else 256 * Pow256(k - 1)
  }

  lemma {:induction false} BigEndianRoundTrip(n: nat, k: nat)
    requires n < Pow256(k)
    ensures BigEndianValue(BigEndian(n, k)) == n
  {
    hide OctetValue, OctetOf;
    if k > 0 {
      OctetRoundTrip(n);
      var r := BigEndian(n, k);
      assert r[..k - 1] == BigEndian(n / 256, k - 1);
      BigEndianRoundTrip(n / 256, k - 1);
    }
  }

  /** Different messages have different padded forms. */
  lemma PadIsInjective(x: seq<Octet>, y: seq<Octet>)
    requires |x| < MAX_OCTETS && |y| < MAX_OCTETS
    ensures Pad(x) == Pad(y) ==> x == y
  {
    var p, q := Pad(x), Pad(y);
    if p == q {
      assert p[|p| - 8..] == BigEndian(8 * |x|, 8);
      assert q[|q| - 8..] == BigEndian(8 * |y|, 8);
      BigEndianRoundTrip(8 * |x|, 8);
      BigEndianRoundTrip(8 * |y|, 8);
      assert Pow256(8) == 256 * Pow256(7) == 0x1_0000_0000_0000_0000;
      assert p[..|x|] == x && q[..|y|] == y;
    }
  }

  lemma WordOctetsRoundTrip(w: Word)
    ensures var r := WordOctets(w); WordOf(r[0], r[1], r[2], r[3]) == w
  {
  }

  /** The 20 octets determine the five chaining words. */
  lemma DigestRoundTrip(h: Chain)
    ensures var r := DigestOctets(h);
            h == Chain(WordOf(r[0], r[1], r[2], r[3]), WordOf(r[4], r[5], r[6], r[7]),
                       WordOf(r[8], r[9], r[10], r[11]), WordOf(r[12], r[13], r[14], r[15]),
                       WordOf(r[16], r[17], r[18], r[19]))
  {
    WordOctetsRoundTrip(h.a);
    WordOctetsRoundTrip(h.b);
    WordOctetsRoundTrip(h.c);
    WordOctetsRoundTrip(h.d);
    WordOctetsRoundTrip(h.e);
  }
}

/** SHA-1 as FIPS 180-4 states it: sections 2.2.2, 4.1.1, 4.2.1, 5.1.1, 5.3.1 and 6.1. */
module Sha1Spec {
  type Octets = seq<bv8>

  datatype Hash = Hash(a: bv32, b: bv32, c: bv32, d: bv32, e: bv32)

  /** The initial hash value of section 5.3.1. */
  const INITIAL := Hash(0x67452301, 0xefcdab89, 0x98badcfe, 0x10325476, 0xc3d2e1f0)

  // The rotations ROTL of section 2.2.2 that SHA-1 uses.

  function Rotl1(x: bv32): bv32 {
    (x << 1) | (x >> 31)
  }

  function Rotl5(x: bv32): bv32 {
    (x << 5) | (x >> 27)
  }

  function Rotl30(x: bv32): bv32 {
    (x << 30) | (x >> 2)
  }

  /** The functions f of section 4.1.1. */
  function F(t: nat, x: bv32, y: bv32, z: bv32): bv32 {
    if t < 20 then (x & y) ^ (!x & z)
    else if t < 40 then x ^ y ^ z
    else if t < 60 then (x & y) ^ (x & z) ^ (y & z)
    else x ^ y ^ z
  }

  /** The constants K of section 4.2.1. */
  function K(t: nat): bv32 {
    if t < 20 then 0x5a827999
    else if t < 40 then 0x6ed9eba1
    else if t < 60 then 0x8f1bbcdc
    else 0xca62c1d6
  }

  /** Four octets as a big-endian word. */
  function Big(b0: bv8, b1: bv8, b2: bv8, b3: bv8): bv32 {
    (b0 as bv32 << 24) | (b1 as bv32 << 16) | (b2 as bv32 << 8) | b3 as bv32
  }

  function BigOctets(w: bv32): (s: Octets)
    ensures |s| == 4
  {
    [((w >> 24) & 0xff) as bv8, ((w >> 16) & 0xff) as bv8, ((w >> 8) & 0xff) as bv8, (w & 0xff) as bv8]
  }

  function Next(w3: bv32, w8: bv32, w14: bv32, w16: bv32): bv32 {
    Rotl1(w3 ^ w8 ^ w14 ^ w16)
  }

  /** The message schedule of section 6.1.2, step 1. */
  function W(block: Octets, t: nat): bv32
    requires |block| == 64
  {
    if t < 16 then Big(block[4 * t], block[4 * t + 1], block[4 * t + 2], block[4 * t + 3])
    else Next(W(block, t - 3), W(block, t - 8), W(block, t - 14), W(block, t - 16))
  }

  function Plus(x: bv32, y: bv32): bv32 {
    x + y
  }

  function Sum(r: bv32, f: bv32, e: bv32, k: bv32, w: bv32): bv32 {
    r + f + e + k + w
  }

  /** One turn of step 3. */
  function Round(h: Hash, t: nat, w: bv32): Hash {
    Hash(Sum(Rotl5(h.a), F(t, h.b, h.c, h.d), h.e, K(t), w), h.a, Rotl30(h.b), h.c, h.d)
  }

  function Rounds(h: Hash, block: Octets, t: nat): Hash
    requires |block| == 64
  {
    if t == 0 then h else Round(Rounds(h, block, t - 1), t - 1, W(block, t - 1))
  }

  function Add(h: Hash, g: Hash): Hash {
    Hash(Plus(h.a, g.a), Plus(h.b, g.b), Plus(h.c, g.c), Plus(h.d, g.d), Plus(h.e, g.e))
  }

  /** Steps 1 to 4 on one block. */
  function Compress(h: Hash, block: Octets): Hash
    requires |block| == 64
  {
    Add(h, Rounds(h, block, 80))
  }

  /** All the blocks in order. */
  function Blocks(h: Hash, s: Octets): Hash
    requires |s| % 64 == 0
  {
    if s == [] then h else Compress(Blocks(h, s[..|s| - 64]), s[|s| - 64..])
  }

  function Zeros(n: nat): (s: Octets)
    ensures |s| == n
  {
    if n == 0 then [] else Zeros(n - 1) + [0]
  }

  function Octet(n: nat): bv8
    requires n < 0x100
  {
    n as bv8
  }

  function Big32(n: nat): (s: Octets)
    requires n < 0x1_0000_0000
    ensures |s| == 4
  {
    [Octet(n / 0x100_0000), Octet(n / 0x1_0000 % 0x100), Octet(n / 0x100 % 0x100), Octet(n % 0x100)]
  }

  /** A 64-bit number in eight octets, most significant first. */
  function Big64(n: nat): (s: Octets)
    requires n < 0x1_0000_0000_0000_0000
    ensures |s| == 8
  {
    Big32(n / 0x1_0000_0000) + Big32(n % 0x1_0000_0000)
  }

  /** The least k with |m| + 1 + k congruent to 56 modulo 64 octets. */
  function Gap(n: nat): (k: nat)
    ensures k < 64 && (n + 1 + k) % 64 == 56 && (n + 1 + k + 8) % 64 == 0
  {
    (119 - n % 64) % 64
  }

  /** The padded message of section 5.1.1, with `bits` in the length field. */
  function Padded(m: Octets, bits: nat): (s: Octets)
    requires bits < 0x1_0000_0000_0000_0000
    ensures |s| % 64 == 0
  {
    var s := m + [0x80] + Zeros(Gap(|m|)) + Big64(bits);
    assert |s| == (|m| + 1 + Gap(|m|)) + 8;
    s
  }

  function Digest(h: Hash): (s: Octets)
    ensures |s| == 20
  {
    BigOctets(h.a) + BigOctets(h.b) + BigOctets(h.c) + BigOctets(h.d) + BigOctets(h.e)
  }

  function Sha1(m: Octets): Octets
    requires 8 * |m| < 0x1_0000_0000_0000_0000
  {
    Digest(Blocks(INITIAL, Padded(m, 8 * |m|)))
  }
}

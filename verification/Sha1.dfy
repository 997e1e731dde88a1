/** sha1.c: the transform that overwrites its own block, the chunked update and the padding loop. */
module Sha1 {
  import opened Sha1Spec

  // ----- words in memory

  function Little(b0: bv8, b1: bv8, b2: bv8, b3: bv8): bv32 {
    (b3 as bv32 << 24) | (b2 as bv32 << 16) | (b1 as bv32 << 8) | b0 as bv32
  }

  /** block->l[k], on a little-endian machine. */
  function Load(s: Octets, k: nat): bv32
    requires 4 * k + 4 <= |s|
  {
    Little(s[4 * k], s[4 * k + 1], s[4 * k + 2], s[4 * k + 3])
  }

  ghost function Words(s: Octets): (l: seq<bv32>)
    requires |s| == 64
    ensures |l| == 16 && forall k :: 0 <= k < 16 ==> l[k] == Load(s, k)
  {
    seq(16, k requires 0 <= k < 16 => Load(s, k))
  }

  ghost function Block(mem: array<bv8>, base: nat): (s: Octets)
    requires base + 64 <= mem.Length
    reads mem
    ensures |s| == 64
  {
    mem[base..base + 64]
  }

  /** block->l[k] = w: one word changes, and nothing outside the block. */
  method Store(mem: array<bv8>, base: nat, k: nat, w: bv32)
    requires base + 64 <= mem.Length && k < 16
    modifies mem
    ensures Words(Block(mem, base)) == old(Words(Block(mem, base)))[k := w]
    ensures mem[..base] == old(mem[..base]) && mem[base + 64..] == old(mem[base + 64..])
  {
    var p := base + 4 * k;
    ghost var was := Block(mem, base);
    mem[p] := (w & 0xff) as bv8;
    mem[p + 1] := ((w >> 8) & 0xff) as bv8;
    mem[p + 2] := ((w >> 16) & 0xff) as bv8;
    mem[p + 3] := ((w >> 24) & 0xff) as bv8;
    Stored(was, Block(mem, base), k, w);
  }

  function LittleOctets(w: bv32): (s: Octets)
    ensures |s| == 4
  {
    [(w & 0xff) as bv8, ((w >> 8) & 0xff) as bv8, ((w >> 16) & 0xff) as bv8, ((w >> 24) & 0xff) as bv8]
  }

  lemma Reload(w: bv32)
    ensures Load(LittleOctets(w), 0) == w
  {
  }

  lemma Stored(was: Octets, now: Octets, k: nat, w: bv32)
    requires |was| == |now| == 64 && k < 16
    requires now[4 * k..4 * k + 4] == LittleOctets(w)
    requires forall q :: 0 <= q < 64 && !(4 * k <= q < 4 * k + 4) ==> now[q] == was[q]
    ensures Words(now) == Words(was)[k := w]
  {
    SameWord(now, LittleOctets(w), k, 0);
    Reload(w);
    forall j | 0 <= j < 16 && j != k
      ensures Load(now, j) == Load(was, j)
    {
      SameWord(now, was, j, j);
    }
    hide Load;
  }

  lemma SameWord(a: Octets, b: Octets, j: nat, k: nat)
    requires 4 * j + 4 <= |a| && 4 * k + 4 <= |b|
    requires a[4 * j..4 * j + 4] == b[4 * k..4 * k + 4]
    ensures Load(a, j) == Load(b, k)
  {
    hide Little;
    var s, t := a[4 * j..4 * j + 4], b[4 * k..4 * k + 4];
    assert s[0] == t[0] && s[1] == t[1] && s[2] == t[2] && s[3] == t[3];
  }

  method Fetch(mem: array<bv8>, base: nat, k: nat) returns (w: bv32)
    requires base + 64 <= mem.Length && k < 16
    ensures w == Words(Block(mem, base))[k]
  {
    var p := base + 4 * k;
    w := Little(mem[p], mem[p + 1], mem[p + 2], mem[p + 3]);
  }

  // ----- the schedule in sixteen words

  /** Before round `i` the last sixteen schedule words are in place, each at its index modulo 16, and the words not
      reached yet are still those of the message. */
  ghost predicate Ring(l: seq<bv32>, m: Octets, i: nat) {
    && |l| == 16 && |m| == 64
    && (forall t :: 0 <= t < i && i - 16 <= t ==> l[t % 16] == W(m, t))
    && (forall k :: i <= k < 16 ==> l[k] == Load(m, k))
  }

  /** The byte swap of blk0. */
  function Swap(x: bv32): bv32 {
    (((x << 24) | (x >> 8)) & 0xff00ff00) | (((x << 8) | (x >> 24)) & 0x00ff00ff)
  }

  lemma SwapIsBig(b0: bv8, b1: bv8, b2: bv8, b3: bv8)
    ensures Swap(Little(b0, b1, b2, b3)) == Big(b0, b1, b2, b3)
  {
  }

  lemma FirstWords(l: seq<bv32>, m: Octets, i: nat)
    requires Ring(l, m, i) && i < 16
    ensures Swap(l[i]) == W(m, i) && Ring(l[i := Swap(l[i])], m, i + 1)
  {
    hide Swap, Little, Big, Next;
    SwapIsBig(m[4 * i], m[4 * i + 1], m[4 * i + 2], m[4 * i + 3]);
  }

  lemma NextWord(m: Octets, i: nat)
    requires |m| == 64 && i >= 16
    ensures W(m, i) == Next(W(m, i - 3), W(m, i - 8), W(m, i - 14), W(m, i - 16))
  {
    hide Next;
  }

  lemma LaterWords(l: seq<bv32>, m: Octets, i: nat)
    requires Ring(l, m, i) && i >= 16
    ensures Next(l[(i + 13) % 16], l[(i + 8) % 16], l[(i + 2) % 16], l[i % 16]) == W(m, i)
    ensures Ring(l[i % 16 := W(m, i)], m, i + 1)
  {
    hide Next, Load, W;
    assert l[(i - 3) % 16] == W(m, i - 3) && l[(i - 8) % 16] == W(m, i - 8);
    assert l[(i - 14) % 16] == W(m, i - 14) && l[(i - 16) % 16] == W(m, i - 16);
    NextWord(m, i);
    assert i % 16 == (i - 16) % 16 && (i + 13) % 16 == (i - 3) % 16;
    assert (i + 8) % 16 == (i - 8) % 16 && (i + 2) % 16 == (i - 14) % 16;
    NewWord(l, m, i);
  }

  lemma NewWord(l: seq<bv32>, m: Octets, i: nat)
    requires Ring(l, m, i) && i >= 16
    ensures Ring(l[i % 16 := W(m, i)], m, i + 1)
  {
    hide Next, Load, W;
    var l' := l[i % 16 := W(m, i)];
    forall t | 0 <= t < i + 1 && i + 1 - 16 <= t
      ensures l'[t % 16] == W(m, t)
    {
      StaysOrNew(l, m, i, t);
    }
  }

  lemma StaysOrNew(l: seq<bv32>, m: Octets, i: nat, t: nat)
    requires Ring(l, m, i) && i - 15 <= t <= i
    ensures l[i % 16 := W(m, i)][t % 16] == W(m, t)
  {
    hide Next, Load, W;
    if t < i {
      assert l[t % 16] == W(m, t);
      hide Ring;
      SlotApart(t, i);
    }
  }

  lemma SlotApart(t: nat, i: nat)
    requires t < i < t + 16
    ensures t % 16 != i % 16
  {
  }

  /** blk0(i) and blk(i): computes the word for round `i` and leaves it in the block. */
  method Blk(mem: array<bv8>, base: nat, i: nat, ghost m: Octets) returns (w: bv32)
    requires base + 64 <= mem.Length && Ring(Words(Block(mem, base)), m, i)
    modifies mem
    ensures w == W(m, i) && Ring(Words(Block(mem, base)), m, i + 1)
    ensures mem[..base] == old(mem[..base]) && mem[base + 64..] == old(mem[base + 64..])
  {
    hide Next, Load, Swap, W, Ring;
    ghost var l := Words(Block(mem, base));
    if i < 16 {
      var x := Fetch(mem, base, i);
      w := Swap(x);
      FirstWords(l, m, i);
    } else {
      var x3 := Fetch(mem, base, (i + 13) % 16);
      var x8 := Fetch(mem, base, (i + 8) % 16);
      var x14 := Fetch(mem, base, (i + 2) % 16);
      var x16 := Fetch(mem, base, i % 16);
      w := Next(x3, x8, x14, x16);
      LaterWords(l, m, i);
    }
    Store(mem, base, i % 16, w);
  }

  // ----- the rounds

  lemma Choose(w: bv32, x: bv32, y: bv32, i: nat)
    requires i < 20
    ensures (w & (x ^ y)) ^ y == F(i, w, x, y)
  {
  }

  lemma Parity(w: bv32, x: bv32, y: bv32, i: nat)
    requires 20 <= i < 40 || 60 <= i
    ensures w ^ x ^ y == F(i, w, x, y)
  {
  }

  lemma Majority(w: bv32, x: bv32, y: bv32, i: nat)
    requires 40 <= i < 60
    ensures ((w | x) & y) | (w & x) == F(i, w, x, y)
  {
  }

  /** What R0 to R4 mix into z: the bit functions as the macros write them. */
  method Mix(w: bv32, x: bv32, y: bv32, i: nat) returns (f: bv32)
    ensures f == F(i, w, x, y)
  {
    hide F;
    if i < 20 {
      Choose(w, x, y, i);
      return (w & (x ^ y)) ^ y;
    } else if i < 40 {
      Parity(w, x, y, i);
      return w ^ x ^ y;
    } else if i < 60 {
      Majority(w, x, y, i);
      return ((w | x) & y) | (w & x);
    }
    Parity(w, x, y, i);
    return w ^ x ^ y;
  }

  /** The macros R0 to R4: only z and w change, and read in the order z, v, w, x, y the registers are the next a to e.
      */
  method R(mem: array<bv8>, base: nat, v: bv32, w: bv32, x: bv32, y: bv32, z: bv32, i: nat, ghost h: Hash,
          ghost m: Octets)
    returns (z': bv32, w': bv32)
    requires base + 64 <= mem.Length && Ring(Words(Block(mem, base)), m, i)
    requires Hash(v, w, x, y, z) == Rounds(h, m, i)
    modifies mem
    ensures Ring(Words(Block(mem, base)), m, i + 1)
    ensures Hash(z', v, w', x, y) == Rounds(h, m, i + 1)
    ensures mem[..base] == old(mem[..base]) && mem[base + 64..] == old(mem[base + 64..])
  {
    hide F, Next, W, K, Rotl5, Rotl30, Words, Round, Rounds, Sum;
    var f := Mix(w, x, y, i);
    var word := Blk(mem, base, i, m);
    z' := AddTo(z, f, word, K(i), Rotl5(v));
    w' := Rotl30(w);
    RoundIs(v, w, x, y, z, i, word);
    NextRound(h, m, i);
  }

  /** z += f + word + constant + rotated v, in the order the macros add. */
  method AddTo(z: bv32, f: bv32, word: bv32, k: bv32, r: bv32) returns (z': bv32)
    ensures z' == Sum(r, f, z, k, word)
  {
    z' := z + (f + word + k + r);
  }

  lemma RoundIs(v: bv32, w: bv32, x: bv32, y: bv32, z: bv32, i: nat, word: bv32)
    ensures Round(Hash(v, w, x, y, z), i, word)
         == Hash(Sum(Rotl5(v), F(i, w, x, y), z, K(i), word), v, Rotl30(w), x, y)
  {
    hide F, K, Rotl5, Rotl30, Sum;
  }

  lemma NextRound(h: Hash, m: Octets, i: nat)
    requires |m| == 64
    ensures Rounds(h, m, i + 1) == Round(Rounds(h, m, i), i, W(m, i))
  {
    hide Round, W;
  }

  lemma Begin(h: Hash, m: Octets)
    requires |m| == 64
    ensures Rounds(h, m, 0) == h && Ring(Words(m), m, 0)
  {
  }

  lemma Finish(h: Hash, m: Octets, a: bv32, b: bv32, c: bv32, d: bv32, e: bv32)
    requires |m| == 64 && Hash(a, b, c, d, e) == Rounds(h, m, 80)
    ensures Hash(Plus(h.a, a), Plus(h.b, b), Plus(h.c, c), Plus(h.d, d), Plus(h.e, e)) == Compress(h, m)
  {
    hide Rounds, Plus;
  }

  lemma Spent(l: seq<bv32>, m: Octets)
    requires Ring(l, m, 80)
    ensures forall k :: 0 <= k < 16 ==> l[k] == W(m, 64 + k)
  {
    hide W;
    forall k | 0 <= k < 16
      ensures l[k] == W(m, 64 + k)
    {
      assert l[(64 + k) % 16] == W(m, 64 + k);
    }
  }

  // ----- the counts and the blocks

  const WORD: nat := 0x1_0000_0000

  /** What a context stands for: the hash of the whole blocks taken, the bytes pending and the bit count. */
  datatype View = View(chain: Hash, pending: Octets, bits: nat)

  /** The new count: the carry is decided by comparing the low word with the 64-bit product. */
  function Bump(bits: nat, len: nat): nat {
    var low := (bits % WORD + 8 * len) % WORD;
    var high := if low < 8 * len then (bits / WORD + 1) % WORD else bits / WORD;
    (high + len / 0x2000_0000) % WORD * WORD + low
  }

  function Absorb(v: View, data: Octets): View {
    var all := v.pending + data;
    var n := |all| / 64 * 64;
    View(Blocks(v.chain, all[..n]), all[n..], Bump(v.bits, |data|))
  }

  lemma PendingLength(count: nat, len: nat)
    requires count % 8 == 0
    ensures (count + 8 * len) % WORD % 8 == 0
    ensures (count + 8 * len) % WORD / 8 % 64 == (count / 8 % 64 + len) % 64
  {
    var q := count / 8 + len;
    var k, r := q / 0x2000_0000, q % 0x2000_0000;
    LowWord(count + 8 * len, k, r);
    LowBits(count / 8, len, k, r);
  }

  lemma LowWord(x: nat, k: nat, r: nat)
    requires x == k * WORD + 8 * r && r < 0x2000_0000
    ensures x % WORD == 8 * r && 8 * r % 8 == 0 && 8 * r / 8 == r
  {
  }

  lemma LowBits(c: nat, len: nat, k: nat, r: nat)
    requires c + len == k * 0x2000_0000 + r
    ensures r % 64 == (c % 64 + len) % 64
  {
    var u := c / 64;
    assert c % 64 + len == 64 * (0x80_0000 * k - u) + r;
  }

  lemma BlocksNext(h: Hash, s: Octets, n: nat)
    requires n + 64 <= |s| && n % 64 == 0
    ensures Blocks(h, s[..n + 64]) == Compress(Blocks(h, s[..n]), s[n..n + 64])
  {
    hide Compress;
    var t := s[..n + 64];
    assert t[..|t| - 64] == s[..n] && t[|t| - 64..] == s[n..n + 64];
  }

  lemma FirstBlock(h: Hash, pending: Octets, d: Octets, buffer: Octets)
    requires |pending| < 64 == |buffer| && |pending| + |d| > 63
    requires buffer == pending + d[..64 - |pending|]
    ensures Blocks(h, (pending + d)[..64]) == Compress(h, buffer)
  {
    hide Compress;
    var all := pending + d;
    BlocksNext(h, all, 0);
    assert all[..0] == [] && all[0..64] == buffer;
  }

  lemma NextBlock(h: Hash, pending: Octets, d: Octets, i: nat)
    requires i + 64 <= |d| && (|pending| + i) % 64 == 0
    ensures Blocks(h, (pending + d)[..|pending| + i + 64])
         == Compress(Blocks(h, (pending + d)[..|pending| + i]), d[i..][..64])
  {
    hide Compress;
    var all := pending + d;
    BlocksNext(h, all, |pending| + i);
    assert all[|pending| + i..|pending| + i + 64] == d[i..][..64];
  }

  /** What update leaves in the context and its buffer is what Absorb says. */
  lemma Rest(v: View, d: Octets, i: nat, j: nat, chain: Hash)
    requires |v.pending| < 64 && i <= |d|
    requires if |v.pending| + |d| > 63
             then && j == 0 && |d| < i + 64 && (|v.pending| + i) % 64 == 0
                  && chain == Blocks(v.chain, (v.pending + d)[..|v.pending| + i])
             else j == |v.pending| && i == 0 && chain == v.chain
    ensures Absorb(v, d) == View(chain, v.pending[..j] + d[i..], Bump(v.bits, |d|))
  {
    hide Compress, Bump;
    var all := v.pending + d;
    assert all[|all| / 64 * 64..] == v.pending[..j] + d[i..];
    assert all[..0] == [];
  }

  lemma LeftOver(pending: nat, len: nat, i: nat, j: nat)
    requires pending < 64 && i <= len
    requires if pending + len > 63 then j == 0 && len < i + 64 && (pending + i) % 64 == 0 else j == pending && i == 0
    ensures (pending + len) % 64 == j + (len - i)
  {
  }

  /** The count is right: the length is under 2^29 or the low word really carries. */
  predicate Exact(bits: nat, len: nat) {
    len < 0x2000_0000 || bits % WORD + 8 * len % WORD >= WORD
  }

  /** Exactly then is the count the number of bits modulo 2^64. */
  lemma BumpExact(bits: nat, len: nat)
    requires bits < WORD * WORD && 8 * len < WORD * WORD
    ensures Bump(bits, len) == (bits + 8 * len) % (WORD * WORD) <==> Exact(bits, len)
    ensures Bump(bits, len) < WORD * WORD
  {
    var hi, lo, k, s := bits / WORD, bits % WORD, len / 0x2000_0000, 8 * (len % 0x2000_0000);
    Words8(len);
    var carry := if lo + s >= WORD then 1 else 0;
    var low := lo + s - carry * WORD;
    BumpIs(bits, len, low, carry);
    hide Bump;
    assert bits + 8 * len == (hi + k + carry) * WORD + low;
    TwoWords(hi + k + carry, low);
    Apart(hi + k);
  }

  /** The low word comes out right; the high word gets a carry whenever the low word is below the 64-bit product. */
  lemma BumpIs(bits: nat, len: nat, low: nat, carry: nat)
    requires bits < WORD * WORD && 8 * len < WORD * WORD
    requires carry == if bits % WORD + 8 * (len % 0x2000_0000) >= WORD then 1 else 0
    requires low == bits % WORD + 8 * (len % 0x2000_0000) - carry * WORD
    ensures Bump(bits, len)
         == (bits / WORD + len / 0x2000_0000 + if low < 8 * len then 1 else 0) % WORD * WORD + low
  {
    Words8(len);
    LowCarry(bits % WORD, 8 * (len % 0x2000_0000), len / 0x2000_0000, carry);
    ModPlus(bits / WORD + if low < 8 * len then 1 else 0, len / 0x2000_0000);
  }

  lemma Words8(len: nat)
    ensures 8 * len == len / 0x2000_0000 * WORD + 8 * (len % 0x2000_0000)
    ensures 8 * len % WORD == 8 * (len % 0x2000_0000)
  {
    LowPart(len / 0x2000_0000, 8 * (len % 0x2000_0000));
  }

  lemma LowPart(q: nat, r: nat)
    requires r < WORD
    ensures (q * WORD + r) % WORD == r
  {
  }

  lemma LowCarry(lo: nat, s: nat, k: nat, carry: nat)
    requires lo < WORD && s < WORD && carry == if lo + s >= WORD then 1 else 0
    ensures (lo + (k * WORD + s)) % WORD == lo + s - carry * WORD
  {
    assert lo + (k * WORD + s) == (k + carry) * WORD + (lo + s - carry * WORD);
  }

  lemma TwoWords(high: nat, low: nat)
    requires low < WORD
    ensures (high * WORD + low) % (WORD * WORD) == high % WORD * WORD + low
  {
    var q, r := high / WORD, high % WORD;
    assert high * WORD + low == q * (WORD * WORD) + (r * WORD + low);
  }

  lemma ModPlus(x: nat, k: nat)
    ensures (x % WORD + k) % WORD == (x + k) % WORD
  {
  }

  lemma Apart(x: nat)
    ensures (x + 1) % WORD != x % WORD
  {
  }

  /** A view of everything taken so far: whole blocks hashed, the rest pending. */
  ghost predicate Holds(v: View, h: Hash, all: Octets) {
    var n := |all| / 64 * 64;
    v.chain == Blocks(h, all[..n]) && v.pending == all[n..]
  }

  lemma {:induction false} BlocksConcat(h: Hash, x: Octets, y: Octets)
    requires |x| % 64 == 0 && |y| % 64 == 0
    ensures Blocks(Blocks(h, x), y) == Blocks(h, x + y)
    decreases |y|
  {
    hide Compress;
    if y == [] {
      assert x + y == x;
    } else {
      var y', last := y[..|y| - 64], y[|y| - 64..];
      BlocksConcat(h, x, y');
      assert (x + y)[..|x + y| - 64] == x + y' && (x + y)[|x + y| - 64..] == last;
    }
  }

  /** update takes data as if everything had come at once. */
  lemma AbsorbMore(v: View, h: Hash, all: Octets, d: Octets)
    requires Holds(v, h, all)
    ensures Holds(Absorb(v, d), h, all + d)
  {
    hide Blocks, Bump;
    var n := |all| / 64 * 64;
    var more := v.pending + d;
    var k := |more| / 64 * 64;
    assert n + k == |all + d| / 64 * 64 by { WholeBlocks(|all|, |d|); }
    BlocksConcat(h, all[..n], more[..k]);
    assert all + d == all[..n] + more;
    assert (all + d)[..n + k] == all[..n] + more[..k] && (all + d)[n + k..] == more[k..];
  }

  lemma WholeBlocks(all: nat, d: nat)
    ensures all / 64 * 64 + (all % 64 + d) / 64 * 64 == (all + d) / 64 * 64
    ensures all - all / 64 * 64 == all % 64
  {
  }

  /** Chunk independence: two updates of less than 2^29 bytes each leave what one update with both leaves, exactly when
      the one update counts right. */
  lemma Chunks(v: View, a: Octets, b: Octets)
    requires |v.pending| < 64 && v.bits < WORD * WORD && |a| < 0x2000_0000 && |b| < 0x2000_0000
    ensures Absorb(Absorb(v, a), b) == Absorb(v, a + b) <==> Exact(v.bits, |a| + |b|)
  {
    hide Blocks, Bump;
    var p := v.pending;
    assert p[..0] == [] && Blocks(v.chain, []) == v.chain by { BlocksNone(v.chain); }
    assert Holds(v, v.chain, p);
    AbsorbMore(v, v.chain, p, a);
    AbsorbMore(Absorb(v, a), v.chain, p + a, b);
    AbsorbMore(v, v.chain, p, a + b);
    assert p + a + b == p + (a + b);
    BumpExact(v.bits, |a|);
    BumpExact(Bump(v.bits, |a|), |b|);
    BumpExact(v.bits, |a| + |b|);
    Mod64(v.bits, 8 * |a|, 8 * |b|);
  }

  lemma BlocksNone(h: Hash)
    ensures Blocks(h, []) == h
  {
  }

  lemma Mod64(x: nat, y: nat, z: nat)
    ensures ((x + y) % (WORD * WORD) + z) % (WORD * WORD) == (x + (y + z)) % (WORD * WORD)
  {
  }

  // ----- the length field

  /** The padded message the code hashes is the standard's as long as the message is under 2^29 bytes; from there on
      the length field holds another number. */
  lemma PaddedExact(m: Octets)
    requires 8 * |m| < WORD * WORD
    ensures Bump(0, |m|) < WORD * WORD
    ensures Bump(0, |m|) == 8 * |m| <==> |m| < 0x2000_0000
    ensures |m| < 0x2000_0000 ==> Padded(m, Bump(0, |m|)) == Padded(m, 8 * |m|)
  {
    hide Bump, Big64;
    BumpExact(0, |m|);
  }

  class Ctx {
    var h0: bv32
    var h1: bv32
    var h2: bv32
    var h3: bv32
    var h4: bv32
    var count0: nat  // the low 32 bits of the number of bits taken
    var count1: nat  // the high 32 bits
    const buffer: array<bv8>

    function Chain(): Hash
      reads this
    {
      Hash(h0, h1, h2, h3, h4)
    }

    /** The block at `base` in `mem` is compressed into the hash words.  The block itself is left holding the last
        sixteen schedule words; the rest of `mem` is untouched. */
    method Transform(mem: array<bv8>, base: nat)
      requires base + 64 <= mem.Length
      modifies this`h0, this`h1, this`h2, this`h3, this`h4, mem
      ensures Chain() == Compress(old(Chain()), old(Block(mem, base)))
      ensures forall k :: 0 <= k < 16 ==> Words(Block(mem, base))[k] == W(old(Block(mem, base)), 64 + k)
      ensures mem[..base] == old(mem[..base]) && mem[base + 64..] == old(mem[base + 64..])
    {
      hide Ring, Words, W, Rounds, Compress, Plus;
      ghost var h, m := Chain(), Block(mem, base);
      Begin(h, m);
      var a, b, c, d, e := h0, h1, h2, h3, h4;
      var i := 0;
      while i < 80
        invariant 0 <= i <= 80 && i % 5 == 0
        invariant Chain() == h && Hash(a, b, c, d, e) == Rounds(h, m, i)
        invariant Ring(Words(Block(mem, base)), m, i)
        invariant mem[..base] == old(mem[..base]) && mem[base + 64..] == old(mem[base + 64..])
      {
        e, b := R(mem, base, a, b, c, d, e, i, h, m);
        d, a := R(mem, base, e, a, b, c, d, i + 1, h, m);
        c, e := R(mem, base, d, e, a, b, c, i + 2, h, m);
        b, d := R(mem, base, c, d, e, a, b, i + 3, h, m);
        a, c := R(mem, base, b, c, d, e, a, i + 4, h, m);
        i := i + 5;
      }
      Finish(h, m, a, b, c, d, e);
      Spent(Words(Block(mem, base)), m);
      h0, h1, h2, h3, h4 := Plus(h0, a), Plus(h1, b), Plus(h2, c), Plus(h3, d), Plus(h4, e);
    }

    ghost predicate Valid()
      reads this
    {
      buffer.Length == 64 && count0 < WORD && count1 < WORD && count0 % 8 == 0
    }

    ghost function State(): View
      requires Valid()
      reads this, buffer
    {
      View(Chain(), buffer[..count0 / 8 % 64], count1 * WORD + count0)
    }

    constructor ()
      ensures Valid() && fresh(buffer) && State() == View(INITIAL, [], 0)
    {
      h0, h1, h2, h3, h4 := INITIAL.a, INITIAL.b, INITIAL.c, INITIAL.d, INITIAL.e;
      count0, count1 := 0, 0;
      buffer := new bv8[64];
    }

    /** The 64-bit count, kept in two words. */
    method Count(len: nat)
      requires Valid() && 8 * len < WORD * WORD
      modifies this`count0, this`count1
      ensures Valid() && count1 * WORD + count0 == Bump(old(count1 * WORD + count0), len)
      ensures count0 / 8 % 64 == (old(count0 / 8 % 64) + len) % 64
    {
      ghost var bits := count1 * WORD + count0;
      assert bits / WORD == count1 && bits % WORD == count0;
      PendingLength(count0, len);
      count0 := (count0 + 8 * len) % WORD;
      if count0 < 8 * len {
        count1 := (count1 + 1) % WORD;
      }
      count1 := (count1 + len / 0x2000_0000) % WORD;
    }

    /** update: what was pending and the data, in blocks.  The blocks transformed in place are spent. */
    method Update(data: array<bv8>)
      requires Valid() && data != buffer && 8 * data.Length < WORD * WORD
      modifies this, buffer, data
      ensures Valid() && State() == Absorb(old(State()), old(data[..]))
    {
      hide Blocks, Compress, Bump, Absorb;
      var len := data.Length;
      var j := count0 / 8 % 64;
      ghost var was, d := State(), data[..];
      Count(len);
      var i;
      i, j := TakeBlocks(data, j, was, d);
      Keep(data, i, j, was, d);
      LeftOver(|was.pending|, len, i, j);
      assert buffer[..count0 / 8 % 64] == was.pending[..j] + d[i..];
      Rest(was, d, i, j, Chain());
    }

    /** The whole blocks of what was pending and the data: how much of the data they take, and what is still pending. */
    method TakeBlocks(data: array<bv8>, pending: nat, ghost was: View, ghost d: Octets) returns (i: nat, j: nat)
      requires buffer.Length == 64 && data != buffer && data[..] == d
      requires pending == |was.pending| < 64 && was.pending == buffer[..pending] && was.chain == Chain()
      modifies this`h0, this`h1, this`h2, this`h3, this`h4, buffer, data
      ensures i <= |d| && data[i..] == d[i..] && j <= pending && buffer[..j] == was.pending[..j]
      ensures if pending + |d| > 63
              then && j == 0 && |d| < i + 64 && (pending + i) % 64 == 0
                   && Chain() == Blocks(was.chain, (was.pending + d)[..pending + i])
              else j == pending && i == 0 && Chain() == was.chain
    {
      hide Blocks, Compress;
      i, j := 0, pending;
      if pending + data.Length > 63 {
        i := 64 - pending;
        Fill(data, pending, was, d);
        i := Run(data, i, was, d);
        j := 0;
      }
    }

    /** What is left of the data goes behind the pending bytes. */
    method Keep(data: array<bv8>, i: nat, j: nat, ghost was: View, ghost d: Octets)
      requires buffer.Length == 64 && data != buffer && i <= |d| == data.Length && data[i..] == d[i..]
      requires j + |d| - i <= 64 && j <= |was.pending| && buffer[..j] == was.pending[..j]
      modifies buffer
      ensures buffer[..j + (|d| - i)] == was.pending[..j] + d[i..]
    {
      Copy(buffer, j, data, i, data.Length - i);
      assert data[i..i + (data.Length - i)] == d[i..];
    }

    /** The pending bytes and the first of the data, transformed as one block. */
    method Fill(data: array<bv8>, j: nat, ghost was: View, ghost d: Octets)
      requires buffer.Length == 64 && data != buffer && data[..] == d && j < 64 <= j + |d|
      requires was.chain == Chain() && was.pending == buffer[..j]
      modifies this`h0, this`h1, this`h2, this`h3, this`h4, buffer
      ensures Chain() == Blocks(was.chain, (was.pending + d)[..|was.pending| + (64 - j)])
    {
      hide Blocks, Compress;
      Copy(buffer, j, data, 0, 64 - j);
      assert Block(buffer, 0) == buffer[..64];
      FirstBlock(was.chain, was.pending, d, Block(buffer, 0));
      Transform(buffer, 0);
    }

    /** The loop that transforms the caller's bytes where they lie, from `from` on. */
    method Run(data: array<bv8>, from: nat, ghost was: View, ghost d: Octets) returns (i: nat)
      requires data[..] == d && from <= |d| && (|was.pending| + from) % 64 == 0
      requires Chain() == Blocks(was.chain, (was.pending + d)[..|was.pending| + from])
      modifies this`h0, this`h1, this`h2, this`h3, this`h4, data
      ensures from <= i <= |d| < i + 64 && (|was.pending| + i) % 64 == 0
      ensures Chain() == Blocks(was.chain, (was.pending + d)[..|was.pending| + i])
      ensures data[i..] == d[i..]
    {
      hide Blocks, Compress;
      i := from;
      while i + 63 < data.Length
        invariant from <= i <= |d| == data.Length && (|was.pending| + i) % 64 == 0
        invariant Chain() == Blocks(was.chain, (was.pending + d)[..|was.pending| + i])
        invariant data[i..] == d[i..]
      {
        NextBlock(was.chain, was.pending, d, i);
        assert Block(data, i) == data[i..][..64];
        Transform(data, i);
        assert data[i + 64..] == d[i..][64..] == d[i + 64..];
        i := i + 64;
      }
    }

    static method Copy(to: array<bv8>, at: nat, from: array<bv8>, start: nat, n: nat)
      requires to != from && at + n <= to.Length && start + n <= from.Length
      modifies to
      ensures to[..at + n] == old(to[..at]) + from[start..start + n] && to[at + n..] == old(to[at + n..])
    {
      forall k | 0 <= k < n {
        to[at + k] := from[start + k];
      }
    }
  }
  lemma Nothing(h: Hash)
    ensures Holds(View(h, [], 0), h, [])
  {
  }

  lemma PendingSize(v: View, h: Hash, all: Octets)
    requires Holds(v, h, all)
    ensures |v.pending| == |all| % 64
  {
    hide Blocks;
  }

  /** One update, seen from everything taken so far. */
  method TakeMore(ctx: Ctx, data: array<bv8>, ghost h: Hash, ghost all: Octets)
    requires ctx.Valid() && data != ctx.buffer && 8 * data.Length < WORD * WORD
    requires Holds(ctx.State(), h, all)
    modifies ctx, ctx.buffer, data
    ensures ctx.Valid() && Holds(ctx.State(), h, all + old(data[..]))
    ensures ctx.State().bits == Bump(old(ctx.State().bits), data.Length)
    ensures ctx.count0 / 8 % 64 == (|all| + data.Length) % 64
  {
    hide Blocks, Bump;
    ghost var was, d := ctx.State(), data[..];
    ctx.Update(data);
    AbsorbMore(was, h, all, d);
    PendingSize(ctx.State(), h, all + d);
  }

  function Scale(k: nat): nat {
    if k == 0 then 1 else if k == 1 then 0x100 else if k == 2 then 0x1_0000 else 0x100_0000
  }

  lemma ByteOfCount(bits: nat, word: nat, i: nat)
    requires bits < WORD * WORD && i < 8 && word == if i >= 4 then bits % WORD else bits / WORD
    ensures Big64(bits)[i] == Octet(word / Scale(3 - i % 4) % 0x100)
  {
    hide Octet, Big32;
    var a, b := Big32(bits / WORD), Big32(bits % WORD);
    if i < 4 {
      assert (a + b)[i] == a[i] && i % 4 == i;
    } else {
      assert (a + b)[i] == b[i - 4] && i % 4 == i - 4;
    }
    ByteOfWord(word, i % 4);
  }

  lemma ByteOfWord(word: nat, r: nat)
    requires word < WORD && r < 4
    ensures Big32(word)[r] == Octet(word / Scale(3 - r) % 0x100)
  {
    hide Octet;
    if r == 0 {
      assert word / Scale(3) % 0x100 == word / 0x100_0000;
    }
  }

  /** The bit count, most significant byte first. */
  method FinalCount(ctx: Ctx) returns (finalcount: array<bv8>)
    requires ctx.Valid()
    ensures fresh(finalcount) && finalcount.Length == 8
    ensures ctx.State().bits < WORD * WORD && finalcount[..] == Big64(ctx.State().bits)
  {
    hide Octet, Blocks;
    ghost var bits := ctx.State().bits;
    assert bits / WORD == ctx.count1 && bits % WORD == ctx.count0;
    finalcount := new bv8[8];
    for i := 0 to 8
      invariant forall k :: 0 <= k < i ==> finalcount[k] == Big64(bits)[k]
    {
      var word := if i >= 4 then ctx.count0 else ctx.count1;
      finalcount[i] := Octet(word / Scale(3 - i % 4) % 0x100);
      ByteOfCount(bits, word, i);
    }
  }

  /** The padding loop: it ends, after exactly the zeros the standard asks for. */
  method Pad(ctx: Ctx, ghost h: Hash, ghost m: Octets)
    requires ctx.Valid() && Holds(ctx.State(), h, m)
    modifies ctx, ctx.buffer
    ensures ctx.Valid() && Holds(ctx.State(), h, Front(m, Gap(|m|)))
  {
    hide Blocks, Bump, Holds, Front;
    OneByte(ctx, 0x80, h, m);
    ghost var z := 0;
    FrontIs(m, 0);
    while ctx.count0 / 8 % 64 != 56
      invariant ctx.Valid() && Holds(ctx.State(), h, Front(m, z))
      invariant z <= Gap(|m|) && ctx.count0 / 8 % 64 == (|m| + 1 + z) % 64
      decreases Gap(|m|) - z
    {
      FrontIs(m, z);
      OneByte(ctx, 0, h, Front(m, z));
      z := z + 1;
    }
    OnlyGap(|m|, z);
  }

  /** No smaller number of zeros reaches 56 modulo 64. */
  lemma OnlyGap(n: nat, z: nat)
    requires z <= Gap(n) && (n + 1 + z) % 64 == 56
    ensures z == Gap(n)
  {
    var g := Gap(n);
    assert (n + 1 + g) % 64 == 56 && g - z < 64;
  }

  /** The message, the mark and the zeros so far. */
  ghost function Front(m: Octets, z: nat): Octets {
    m + [0x80] + Zeros(z)
  }

  lemma FrontIs(m: Octets, z: nat)
    ensures Front(m, z) == m + [0x80] + Zeros(z) && |Front(m, z)| == |m| + 1 + z
    ensures z == 0 ==> Front(m, z) == m + [0x80]
    ensures Front(m, z) + [0] == Front(m, z + 1)
  {
  }

  method OneByte(ctx: Ctx, b: bv8, ghost h: Hash, ghost all: Octets)
    requires ctx.Valid() && Holds(ctx.State(), h, all)
    modifies ctx, ctx.buffer
    ensures ctx.Valid() && Holds(ctx.State(), h, all + [b])
    ensures ctx.count0 / 8 % 64 == (|all| + 1) % 64
  {
    hide Blocks, Bump, Holds;
    var one := new bv8[1](_ => b);
    assert one[..] == [b];
    TakeMore(ctx, one, h, all);
  }

  lemma DigestAt(h: Hash, i: nat)
    requires i < 20
    ensures Digest(h)[i] == BigOctets(if i < 4 then h.a else if i < 8 then h.b else if i < 12 then h.c
                                      else if i < 16 then h.d else h.e)[i % 4]
  {
    hide BigOctets;
    var j := i - i / 4 * 4;
    assert j == i % 4;
  }

  method WriteDigest(h: Hash, digest: array<bv8>)
    requires digest.Length == 20
    modifies digest
    ensures digest[..] == Digest(h)
  {
    hide BigOctets, Digest;
    for i := 0 to 20
      invariant forall k :: 0 <= k < i ==> digest[k] == Digest(h)[k]
    {
      var q, r := i / 4, i % 4;
      if q == 0 {
        digest[i] := BigOctets(h.a)[r];
      } else if q == 1 {
        digest[i] := BigOctets(h.b)[r];
      } else if q == 2 {
        digest[i] := BigOctets(h.c)[r];
      } else if q == 3 {
        digest[i] := BigOctets(h.d)[r];
      } else {
        digest[i] := BigOctets(h.e)[r];
      }
      DigestAt(h, i);
    }
  }

  /** sha1: the message, the padding one byte at a time, the length field, and the digest. */
  method Sha1(data: array<bv8>, digest: array<bv8>)
    requires 8 * data.Length < WORD * WORD && digest.Length == 20 && data != digest
    modifies data, digest
    ensures Bump(0, data.Length) < WORD * WORD
    ensures digest[..] == Digest(Blocks(INITIAL, Padded(old(data[..]), Bump(0, data.Length))))
    ensures data.Length < 0x2000_0000 ==> digest[..] == Sha1Spec.Sha1(old(data[..]))
  {
    hide Blocks, Bump, Big64, Digest, Holds, Front;
    ghost var m := data[..];
    var ctx := new Ctx();
    Nothing(INITIAL);
    TakeMore(ctx, data, INITIAL, []);
    assert [] + m == m;
    var finalcount := FinalCount(ctx);
    ghost var bits := ctx.State().bits;
    Pad(ctx, INITIAL, m);
    TakeMore(ctx, finalcount, INITIAL, Front(m, Gap(|m|)));
    WholeMessage(ctx.State(), INITIAL, m, bits);
    WriteDigest(ctx.Chain(), digest);
    PaddedExact(m);
  }

  lemma WholeMessage(v: View, h: Hash, m: Octets, bits: nat)
    requires bits < WORD * WORD && Holds(v, h, Front(m, Gap(|m|)) + Big64(bits))
    ensures v.chain == Blocks(h, Padded(m, bits))
  {
    hide Blocks, Big64;
    var s := Padded(m, bits);
    assert s[..|s| / 64 * 64] == s;
  }
}

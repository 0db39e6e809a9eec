/** SHA-1 (RFC 3174) as the library computes it: the block loop and the padded tail, against the padded message. */
module Sha1 {
  import opened Words
  import opened Bytes

  // ---- Sections 4 and 6.1 of RFC 3174 ----

  type block = b: bytes | |b| == 64 witness seq(64, _ => 0)

  datatype Five = Five(a: bv32, b: bv32, c: bv32, d: bv32, e: bv32)

  const H0 := Five(0x67452301, 0xEFCDAB89, 0x98BADCFE, 0x10325476, 0xC3D2E1F0)

  /** Circular left shift. */
  function Rotl(x: bv32, n: bv6): bv32
    requires 0 < n < 32
  {
    (x << n) | (x >> (32 - n))
  }

  /** Four octets as a word. */
  function Octets(b0: byte, b1: byte, b2: byte, b3: byte): bv32 {
    Join(b0 as bv8, b1 as bv8, b2 as bv8, b3 as bv8)
  }

  function Join(b0: bv8, b1: bv8, b2: bv8, b3: bv8): bv32 {
    ((b0 as bv32) << 24) | ((b1 as bv32) << 16) | ((b2 as bv32) << 8) | (b3 as bv32)
  }

  /** The `t`-th word of a block. */
  function Word(m: block, t: nat): bv32
    requires t < 16
  {
    Octets(m[4 * t], m[4 * t + 1], m[4 * t + 2], m[4 * t + 3])
  }

  /** The message schedule. */
  function W(m: block, t: nat): bv32 {
    if t < 16 then Word(m, t) else Rotl(W(m, t - 3) ^ W(m, t - 8) ^ W(m, t - 14) ^ W(m, t - 16), 1)
  }

  function F(t: nat, b: bv32, c: bv32, d: bv32): bv32 {
    if t < 20 then (b & c) | (!b & d)
    else if t < 40 then b ^ c ^ d
    else if t < 60 then (b & c) | (b & d) | (c & d)
    else b ^ c ^ d
  }

  function K(t: nat): bv32 {
    if t < 20 then 0x5A827999 else if t < 40 then 0x6ED9EBA1 else if t < 60 then 0x8F1BBCDC else 0xCA62C1D6
  }

  /** Addition modulo 2^32. */
  function Sum(v: bv32, w: bv32, x: bv32, y: bv32, z: bv32): bv32 {
    v + w + x + y + z
  }

  function Round(s: Five, t: nat, w: bv32): Five {
    Five(Sum(Rotl(s.a, 5), F(t, s.b, s.c, s.d), s.e, w, K(t)), s.a, Rotl(s.b, 30), s.c, s.d)
  }

  /** The first `t` rounds. */
  function Rounds(h: Five, m: block, t: nat): Five {
    if t == 0 then h else Round(Rounds(h, m, t - 1), t - 1, W(m, t - 1))
  }

  function Plus(x: bv32, y: bv32): bv32 {
    x + y
  }

  function Add(x: Five, y: Five): Five {
    Five(Plus(x.a, y.a), Plus(x.b, y.b), Plus(x.c, y.c), Plus(x.d, y.d), Plus(x.e, y.e))
  }

  /** The compression step. */
  function Compress(h: Five, m: block): Five {
    Add(h, Rounds(h, m, 80))
  }

  /** The whole blocks of `s`, folded into `h`. */
  function Fold(h: Five, s: bytes): Five
    decreases |s|
  {
    if |s| < 64 then h else Fold(Compress(h, s[..64]), s[64..])
  }

  function Zeros(n: nat): bytes {
    seq(n, _ => 0)
  }

  /** The zero bytes that bring the message and its 0x80 to 56 modulo 64. */
  function PadLength(len: nat): nat {
    (55 - len) % 64
  }

  /** The length in bits, modulo 2^64. */
  function LengthField(len: nat): (r: bytes)
    ensures |r| == 8
  {
    BigEndian(8 * len % TWO_64, 8)
  }

  function Pad(m: bytes): bytes {
    m + [0x80] + Zeros(PadLength(|m|)) + LengthField(|m|)
  }

  function WordBytes(x: bv32): bytes {
    [Octet(x, 24) as int, Octet(x, 16) as int, Octet(x, 8) as int, Octet(x, 0) as int]
  }

  /** The octet of a word that starts at bit `i`. */
  function Octet(x: bv32, i: bv6): bv8
    requires i <= 24
  {
    ((x >> i) & 0xFF) as bv8
  }

  function Digest(m: bytes): bytes {
    var h := Fold(H0, Pad(m));
    WordBytes(h.a) + WordBytes(h.b) + WordBytes(h.c) + WordBytes(h.d) + WordBytes(h.e)
  }

  // ---- What the operations on words are, as numbers ----

  const TWO_32: nat := 0x1_0000_0000

  /**
   The circular shifts of the algorithm, as section 3 of RFC 3174 has them: what is shifted out on the left
   comes in on the right.
   */
  lemma RotlIsArithmetic(x: bv32)
    ensures Rotl(x, 1) as int == x as int * 2 % TWO_32 + x as int / 0x80000000
    ensures Rotl(x, 5) as int == x as int * 32 % TWO_32 + x as int / 0x8000000
    ensures Rotl(x, 30) as int == x as int * 0x40000000 % TWO_32 + x as int / 4
  {
    hide Rotl;
    RotlBy1(x);
    RotlBy5(x);
    RotlBy30(x);
  }

  lemma Parts1(x: bv32)
    ensures x == (((x >> 31) as bv1 as bv32) << 31) | ((x & 0x7fffffff) as bv31 as bv32)
  {
  }

  lemma RotlOf1(hi: bv1, lo: bv31)
    ensures Rotl(((hi as bv32) << 31) | (lo as bv32), 1) == ((lo as bv32) << 1) | (hi as bv32)
  {
  }

  lemma Numbers1(hi: bv1, lo: bv31)
    ensures (((hi as bv32) << 31) | (lo as bv32)) as int == hi as int * 0x80000000 + lo as int
    ensures (((lo as bv32) << 1) | (hi as bv32)) as int == lo as int * 0x2 + hi as int
  {
  }

  lemma Quotient1(x: nat, hi: nat, lo: nat)
    requires hi < 0x2 && lo < 0x80000000 && x == hi * 0x80000000 + lo
    ensures x * 0x2 % TWO_32 + x / 0x80000000 == lo * 0x2 + hi
  {
  }

  lemma Rotl1(x: bv32, hi: bv1, lo: bv31)
    requires x == ((hi as bv32) << 31) | (lo as bv32)
    ensures Rotl(x, 1) as int == x as int * 0x2 % TWO_32 + x as int / 0x80000000
  {
    hide Rotl;
    RotlOf1(hi, lo);
    Numbers1(hi, lo);
    Quotient1(x as int, hi as int, lo as int);
  }

  lemma RotlBy1(x: bv32)
    ensures Rotl(x, 1) as int == x as int * 0x2 % TWO_32 + x as int / 0x80000000
  {
    hide Rotl;
    Parts1(x);
    Rotl1(x, (x >> 31) as bv1, (x & 0x7fffffff) as bv31);
  }

  lemma Parts5(x: bv32)
    ensures x == (((x >> 27) as bv5 as bv32) << 27) | ((x & 0x7ffffff) as bv27 as bv32)
  {
  }

  lemma RotlOf5(hi: bv5, lo: bv27)
    ensures Rotl(((hi as bv32) << 27) | (lo as bv32), 5) == ((lo as bv32) << 5) | (hi as bv32)
  {
  }

  lemma Numbers5(hi: bv5, lo: bv27)
    ensures (((hi as bv32) << 27) | (lo as bv32)) as int == hi as int * 0x8000000 + lo as int
    ensures (((lo as bv32) << 5) | (hi as bv32)) as int == lo as int * 0x20 + hi as int
  {
  }

  lemma Quotient5(x: nat, hi: nat, lo: nat)
    requires hi < 0x20 && lo < 0x8000000 && x == hi * 0x8000000 + lo
    ensures x * 0x20 % TWO_32 + x / 0x8000000 == lo * 0x20 + hi
  {
  }

  lemma Rotl5(x: bv32, hi: bv5, lo: bv27)
    requires x == ((hi as bv32) << 27) | (lo as bv32)
    ensures Rotl(x, 5) as int == x as int * 0x20 % TWO_32 + x as int / 0x8000000
  {
    hide Rotl;
    RotlOf5(hi, lo);
    Numbers5(hi, lo);
    Quotient5(x as int, hi as int, lo as int);
  }

  lemma RotlBy5(x: bv32)
    ensures Rotl(x, 5) as int == x as int * 0x20 % TWO_32 + x as int / 0x8000000
  {
    hide Rotl;
    Parts5(x);
    Rotl5(x, (x >> 27) as bv5, (x & 0x7ffffff) as bv27);
  }

  lemma Parts30(x: bv32)
    ensures x == (((x >> 2) as bv30 as bv32) << 2) | ((x & 0x3) as bv2 as bv32)
  {
  }

  lemma RotlOf30(hi: bv30, lo: bv2)
    ensures Rotl(((hi as bv32) << 2) | (lo as bv32), 30) == ((lo as bv32) << 30) | (hi as bv32)
  {
  }

  lemma Numbers30(hi: bv30, lo: bv2)
    ensures (((hi as bv32) << 2) | (lo as bv32)) as int == hi as int * 0x4 + lo as int
    ensures (((lo as bv32) << 30) | (hi as bv32)) as int == lo as int * 0x40000000 + hi as int
  {
  }

  lemma Quotient30(x: nat, hi: nat, lo: nat)
    requires hi < 0x40000000 && lo < 0x4 && x == hi * 0x4 + lo
    ensures x * 0x40000000 % TWO_32 + x / 0x4 == lo * 0x40000000 + hi
  {
  }

  lemma Rotl30(x: bv32, hi: bv30, lo: bv2)
    requires x == ((hi as bv32) << 2) | (lo as bv32)
    ensures Rotl(x, 30) as int == x as int * 0x40000000 % TWO_32 + x as int / 0x4
  {
    hide Rotl;
    RotlOf30(hi, lo);
    Numbers30(hi, lo);
    Quotient30(x as int, hi as int, lo as int);
  }

  lemma RotlBy30(x: bv32)
    ensures Rotl(x, 30) as int == x as int * 0x40000000 % TWO_32 + x as int / 0x4
  {
    hide Rotl;
    Parts30(x);
    Rotl30(x, (x >> 2) as bv30, (x & 0x3) as bv2);
  }

  lemma JoinIsNumber(b0: bv8, b1: bv8, b2: bv8, b3: bv8)
    ensures Join(b0, b1, b2, b3) as int
         == b0 as int * 0x100_0000 + b1 as int * 0x1_0000 + b2 as int * 0x100 + b3 as int
  {
    JoinIs(b0, b1, b2, b3);
    hide Join;
  }

  lemma JoinIs(b0: bv8, b1: bv8, b2: bv8, b3: bv8)
    ensures Join(b0, b1, b2, b3)
         == ((b0 as bv32) << 24) | ((b1 as bv32) << 16) | ((b2 as bv32) << 8) | (b3 as bv32)
  {
  }

  lemma NumberOfFour(s: bytes)
    requires |s| == 4
    ensures Number(s) == ((s[0] as nat * 256 + s[1]) * 256 + s[2]) * 256 + s[3]
  {
    assert s[..3][..2][..1] == [s[0]] && [s[0]][..0] == [];
    assert s[..3][..2] == s[..2] && s[..3][2] == s[2];
    assert Number([s[0]]) == s[0];
    assert Number(s[..2]) == 256 * Number(s[..2][..1]) + s[1];
  }

  /** A word is the number of its four octets, most significant first. */
  lemma OctetsAreNumber(b0: byte, b1: byte, b2: byte, b3: byte)
    ensures Octets(b0, b1, b2, b3) as int == Number([b0, b1, b2, b3])
  {
    ByteAsBits(b0);
    ByteAsBits(b1);
    ByteAsBits(b2);
    ByteAsBits(b3);
    hide Join;
    JoinIsNumber(b0 as bv8, b1 as bv8, b2 as bv8, b3 as bv8);
    NumberOfFour([b0, b1, b2, b3]);
  }

  lemma BigEndianOfFour(b0: byte, b1: byte, b2: byte, b3: byte)
    ensures BigEndian(((b0 as nat * 256 + b1) * 256 + b2) * 256 + b3, 4) == [b0, b1, b2, b3]
  {
    BigEndianSnoc(0, b0, 0);
    BigEndianSnoc(b0, b1, 1);
    BigEndianSnoc(b0 as nat * 256 + b1, b2, 2);
    BigEndianSnoc((b0 as nat * 256 + b1) * 256 + b2, b3, 3);
  }

  lemma BigEndianSnoc(q: nat, r: byte, k: nat)
    ensures BigEndian(q * 256 + r, k + 1) == BigEndian(q, k) + [r]
  {
  }

  /** The octets of a word are its number, most significant first. */
  lemma WordBytesAreBigEndian(x: bv32)
    ensures WordBytes(x) == BigEndian(x as int, 4)
  {
    var a, b, c, d := Octet(x, 24), Octet(x, 16), Octet(x, 8), Octet(x, 0);
    JoinOfOctets(x);
    hide Join, Octet;
    JoinIsNumber(a, b, c, d);
    BigEndianOfFour(a as int, b as int, c as int, d as int);
  }

  lemma JoinOfOctets(x: bv32)
    ensures x == Join(Octet(x, 24), Octet(x, 16), Octet(x, 8), Octet(x, 0))
  {
  }

  /** The constants of the rounds are 2^30 times the square roots of 2, 3, 5 and 10, rounded down. */
  lemma RoundConstants(t: nat)
    ensures var k := K(t) as int;
            var n := if t < 20 then 2 else if t < 40 then 3 else if t < 60 then 5 else 10;
            k * k <= n * 0x1000_0000_0000_0000 < (k + 1) * (k + 1)
  {
  }

  // ---- Blocks ----

  lemma {:induction false} FoldOfConcat(h: Five, a: bytes, b: bytes)
    requires |a| % 64 == 0
    ensures Fold(h, a + b) == Fold(Fold(h, a), b)
    decreases |a|
  {
    if a == [] {
      assert a + b == b;
    } else {
      assert (a + b)[..64] == a[..64] && (a + b)[64..] == a[64..] + b;
      FoldOfConcat(Compress(h, a[..64]), a[64..], b);
    }
  }

  lemma FoldOfBlock(h: Five, m: block)
    ensures Fold(h, m) == Compress(h, m)
  {
    assert m[..64] == m && m[64..] == [];
  }

  lemma PadLengthIs(len: nat, q: nat)
    requires q % 64 == 0 && q <= len < q + 64
    ensures PadLength(len) == if len - q < 56 then 55 - (len - q) else 119 - (len - q)
  {
  }

  /** The padded message is its whole blocks and one or two blocks of tail. */
  lemma PadSplits(m: bytes, q: nat)
    requires q % 64 == 0 && q <= |m| < q + 64
    ensures var r := m[q..];
            Pad(m) == m[..q] + if |r| < 56 then r + [0x80] + Zeros(55 - |r|) + LengthField(|m|)
                               else r + [0x80] + Zeros(63 - |r|) + (Zeros(56) + LengthField(|m|))
    ensures |Pad(m)| % 64 == 0
  {
    hide LengthField, PadLength;
    var r := m[q..];
    assert m == m[..q] + r;
    PadLengthIs(|m|, q);
    if |r| >= 56 {
      assert Zeros(119 - |r|) == Zeros(63 - |r|) + Zeros(56);
    }
  }

  /** The length field holds the length in bits exactly if that is below 2^64, the longest message RFC 3174 covers. */
  lemma LengthFieldIs(len: nat)
    ensures Number(LengthField(len)) == 8 * len <==> 8 * len < TWO_64
  {
    Pow256Values();
    NumberOfBigEndian(8 * len % TWO_64, 8);
  }

  /** Within that range no two messages are padded alike. */
  lemma PadIsInjective(m: bytes, n: bytes)
    requires 8 * |m| < TWO_64 && 8 * |n| < TWO_64 && Pad(m) == Pad(n)
    ensures m == n
  {
    LengthFieldIs(|m|);
    LengthFieldIs(|n|);
    hide LengthField;
    assert Pad(m)[|Pad(m)| - 8..] == LengthField(|m|);
    assert Pad(n)[|Pad(n)| - 8..] == LengthField(|n|);
    assert Pad(m)[..|m|] == m && Pad(n)[..|n|] == n;
  }

  // ---- The code ----

  class SHA1Ctx {
    const state: array<bv32>
    var count: nat

    ghost predicate Valid() {
      state.Length == 5
    }

    ghost function Value(): Five
      reads state
      requires Valid()
    {
      Five(state[0], state[1], state[2], state[3], state[4])
    }

    constructor ()
      ensures Valid() && fresh(state) && Value() == H0 && count == 0
    {
      count := 0;
      state := new bv32[] [0x67452301, 0xEFCDAB89, 0x98BADCFE, 0x10325476, 0xC3D2E1F0];
    }

    method Process(m: block)
      requires Valid()
      modifies state
      ensures Value() == Compress(old(Value()), m)
    {
      var w := Schedule(m);
      var s := Five(state[0], state[1], state[2], state[3], state[4]);
      ghost var h := s;
      assert s == Rounds(h, m, 0);
      hide W, Round, Rounds;
      for i := 0 to 80
        invariant s == Rounds(h, m, i) && Value() == h
        invariant forall t | 0 <= t < 80 :: w[t] == W(m, t)
      {
        RoundsStep(h, m, i);
        s := NextRound(i, s, w[i]);
      }
      assert Compress(h, m) == Add(h, s);
      AddInto(s);
    }

    /** Adds the five words to the state. */
    method AddInto(s: Five)
      requires Valid()
      modifies state
      ensures Value() == Add(old(Value()), s)
    {
      hide Plus;
      state[0] := Plus(state[0], s.a);
      state[1] := Plus(state[1], s.b);
      state[2] := Plus(state[2], s.c);
      state[3] := Plus(state[3], s.d);
      state[4] := Plus(state[4], s.e);
    }
  }

  lemma ScheduleStep(m: block, t: nat)
    ensures t < 16 ==> W(m, t) == Word(m, t)
    ensures t >= 16 ==> W(m, t) == Rotl(W(m, t - 3) ^ W(m, t - 8) ^ W(m, t - 14) ^ W(m, t - 16), 1)
  {
  }

  lemma RoundsStep(h: Five, m: block, t: nat)
    ensures Rounds(h, m, 0) == h
    ensures Rounds(h, m, t + 1) == Round(Rounds(h, m, t), t, W(m, t))
  {
  }

  /** The message schedule, filled in place. */
  method Schedule(m: block) returns (w: array<bv32>)
    ensures fresh(w) && w.Length == 80 && forall t | 0 <= t < 80 :: w[t] == W(m, t)
  {
    hide Octets, Rotl, W;
    w := new bv32[80];
    for i := 0 to 16
      invariant forall t | 0 <= t < i :: w[t] == W(m, t)
    {
      ScheduleStep(m, i);
      w[i] := Octets(m[i * 4], m[i * 4 + 1], m[i * 4 + 2], m[i * 4 + 3]);
    }
    for i := 16 to 80
      invariant forall t | 0 <= t < i :: w[t] == W(m, t)
    {
      ScheduleStep(m, i);
      w[i] := Rotl(w[i - 3] ^ w[i - 8] ^ w[i - 14] ^ w[i - 16], 1);
    }
  }

  /** One turn of the loop over the five working words. */
  method NextRound(i: nat, s: Five, w: bv32) returns (r: Five)
    ensures r == Round(s, i, w)
  {
    hide F, K, Rotl, Sum;
    var f, k := Choose(i, s.b, s.c, s.d);
    SwapSummands(Rotl(s.a, 5), f, s.e, k, w);
    var tmp := Sum(Rotl(s.a, 5), f, s.e, k, w);
    r := Five(tmp, s.a, Rotl(s.b, 30), s.c, s.d);
  }

  lemma FunctionCases(t: nat, b: bv32, c: bv32, d: bv32)
    ensures t < 20 ==> F(t, b, c, d) == (b & c) | (!b & d)
    ensures 20 <= t < 40 || 60 <= t ==> F(t, b, c, d) == b ^ c ^ d
    ensures 40 <= t < 60 ==> F(t, b, c, d) == (b & c) | (b & d) | (c & d)
  {
  }

  method Choose(i: nat, b: bv32, c: bv32, d: bv32) returns (f: bv32, k: bv32)
    ensures f == F(i, b, c, d) && k == K(i)
  {
    FunctionCases(i, b, c, d);
    hide F;
    if i < 20 {
      f := (b & c) | (!b & d);
      k := 0x5A827999;
    } else if i < 40 {
      f := b ^ c ^ d;
      k := 0x6ED9EBA1;
    } else if i < 60 {
      f := (b & c) | (b & d) | (c & d);
      k := 0x8F1BBCDC;
    } else {
      f := b ^ c ^ d;
      k := 0xCA62C1D6;
    }
  }

  lemma SwapSummands(v: bv32, w: bv32, x: bv32, y: bv32, z: bv32)
    ensures Sum(v, w, x, y, z) == Sum(v, w, x, z, y)
  {
  }

  method ComputeSha1(data: bytes) returns (out: bytes)
    ensures out == Digest(data)
  {
    hide Compress, WordBytes;
    var ctx := new SHA1Ctx();
    var len := |data|;
    ctx.count := len * 8 % TWO_64;
    var processed := 0;
    while len - processed >= 64
      invariant ctx.Valid() && ctx.count == len * 8 % TWO_64
      invariant 0 <= processed <= len && processed % 64 == 0
      invariant ctx.Value() == Fold(H0, data[..processed])
    {
      var m := data[processed..processed + 64];
      FoldOfConcat(H0, data[..processed], m);
      FoldOfBlock(Fold(H0, data[..processed]), m);
      assert data[..processed + 64] == data[..processed] + m;
      ctx.Process(m);
      processed := processed + 64;
    }
    Finish(ctx, data, processed);
    ghost var h := Fold(H0, Pad(data));
    var a, b, c, d, e := ctx.state[0], ctx.state[1], ctx.state[2], ctx.state[3], ctx.state[4];
    out := WordBytes(a) + WordBytes(b) + WordBytes(c) + WordBytes(d) + WordBytes(e);
  }

  /** The last block: `front` and the length field. */
  method LastBlock(ctx: SHA1Ctx, tail: array<byte>, ghost len: nat)
    requires ctx.Valid() && tail.Length == 64 && ctx.count == 8 * len % TWO_64
    modifies ctx.state, tail
    ensures ctx.Value() == Fold(old(ctx.Value()), old(tail[..56]) + LengthField(len))
  {
    hide Compress;
    ghost var h := ctx.Value();
    for i := 0 to 8
      invariant ctx.Value() == h
      invariant tail[..56] == old(tail[..56])
      invariant tail[64 - i..] == LengthField(len)[8 - i..]
    {
      BigEndianAt(ctx.count, 8, i);
      tail[63 - i] := Shifted(ctx.count, i) % 256;
      assert tail[63 - i..] == [tail[63 - i]] + tail[64 - i..];
    }
    assert tail[..] == tail[..56] + tail[56..];
    FoldOfBlock(h, tail[..]);
    ctx.Process(tail[..]);
  }

  /** What is left and the 0x80, in a block of zeros. */
  method FirstTail(data: bytes, processed: nat) returns (tail: array<byte>)
    requires processed <= |data| < processed + 64
    ensures fresh(tail) && tail.Length == 64
    ensures tail[..] == data[processed..] + [0x80] + Zeros(63 - |data[processed..]|)
  {
    var remaining := |data| - processed;
    tail := new byte[64](i => 0);
    forall i | 0 <= i < remaining {
      tail[i] := data[processed + i];
    }
    tail[remaining] := 0x80;
  }

  /** The tail: what is left, the 0x80, and the length, in one block or two. */
  method Finish(ctx: SHA1Ctx, data: bytes, processed: nat)
    requires ctx.Valid() && ctx.count == 8 * |data| % TWO_64
    requires processed % 64 == 0 && processed <= |data| < processed + 64
    requires ctx.Value() == Fold(H0, data[..processed])
    modifies ctx.state
    ensures ctx.Value() == Fold(H0, Pad(data))
  {
    hide Compress, LengthField, Pad, Fold;
    var remaining := |data| - processed;
    ghost var r := data[processed..];
    PadSplits(data, processed);
    ghost var rest := Pad(data)[processed..];
    ghost var h := ctx.Value();
    assert Pad(data) == data[..processed] + rest;
    FoldOfConcat(H0, data[..processed], rest);

    var tail := FirstTail(data, processed);
    ghost var first := r + [0x80] + Zeros(63 - remaining);
    if remaining >= 56 {
      assert rest == first + (Zeros(56) + LengthField(|data|));
      FoldOfConcat(h, first, Zeros(56) + LengthField(|data|));
      FoldOfBlock(h, first);
      ctx.Process(tail[..]);
      forall i | 0 <= i < 64 {
        tail[i] := 0;
      }
      assert tail[..56] == Zeros(56);
    } else {
      assert first[..56] == r + [0x80] + Zeros(55 - remaining);
      assert tail[..56] == first[..56];
      assert rest == first[..56] + LengthField(|data|);
    }
    LastBlock(ctx, tail, |data|);
  }
}

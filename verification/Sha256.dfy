/** SHA-256 with streaming updates (crypto/sha256.c:6-91) against section 6.2 and the padding of section
    5.1.1 of FIPS 180-4. */
module Sha256 {
  import opened Arith
  import opened Machine
  import opened Bits
  import opened RsaBytes

  const TWO32: nat := 0x1_0000_0000

  const K0: seq<u32> := [0x428a2f98, 0x71374491, 0xb5c0fbcf, 0xe9b5dba5, 0x3956c25b, 0x59f111f1, 0x923f82a4, 0xab1c5ed5]
  const K1: seq<u32> := [0xd807aa98, 0x12835b01, 0x243185be, 0x550c7dc3, 0x72be5d74, 0x80deb1fe, 0x9bdc06a7, 0xc19bf174]
  const K2: seq<u32> := [0xe49b69c1, 0xefbe4786, 0x0fc19dc6, 0x240ca1cc, 0x2de92c6f, 0x4a7484aa, 0x5cb0a9dc, 0x76f988da]
  const K3: seq<u32> := [0x983e5152, 0xa831c66d, 0xb00327c8, 0xbf597fc7, 0xc6e00bf3, 0xd5a79147, 0x06ca6351, 0x14292967]
  const K4: seq<u32> := [0x27b70a85, 0x2e1b2138, 0x4d2c6dfc, 0x53380d13, 0x650a7354, 0x766a0abb, 0x81c2c92e, 0x92722c85]
  const K5: seq<u32> := [0xa2bfe8a1, 0xa81a664b, 0xc24b8b70, 0xc76c51a3, 0xd192e819, 0xd6990624, 0xf40e3585, 0x106aa070]
  const K6: seq<u32> := [0x19a4c116, 0x1e376c08, 0x2748774c, 0x34b0bcb5, 0x391c0cb3, 0x4ed8aa4a, 0x5b9cca4f, 0x682e6ff3]
  const K7: seq<u32> := [0x748f82ee, 0x78a5636f, 0x84c87814, 0x8cc70208, 0x90befffa, 0xa4506ceb, 0xbef9a3f7, 0xc67178f2]

  const K: seq<u32> := K0 + K1 + K2 + K3 + K4 + K5 + K6 + K7

  const INITIAL: seq<u32> := [
    0x6a09e667, 0xbb67ae85, 0x3c6ef372, 0xa54ff53a, 0x510e527f, 0x9b05688c, 0x1f83d9ab, 0x5be0cd19
  ]

  type Chaining = h: seq<u32> | |h| == 8 witness INITIAL
  type Block = b: seq<u8> | |b| == 64 witness seq(64, i => 0)

  // ---- the compression function --------------------------------------------------------------------------

  /** x rotated right by k bits, p = 2^k and q = 2^(32-k). */
  function Rotr(x: u32, p: nat, q: nat): (r: u32)
    requires p > 0 && p * q == TWO32
  {
    RotrFits(x, p, q);
    x % p * q + x / p
  }

  lemma RotrFits(x: u32, p: nat, q: nat)
    requires p > 0 && p * q == TWO32
    ensures 0 <= x % p * q + x / p < TWO32 && x / p < q && x * q % TWO32 == x % p * q
  {
    var h, l := x / p, x % p;
    assert x == h * p + l;
    assert h < q by { if h >= q { MulGe(h, q, p); } }
    MulGe(p - 1, l, q);
    MulGe(l, 0, q);
    assert x * q == h * TWO32 + l * q by {
      assert (h * p + l) * q == (h * p) * q + l * q;
      Assoc(h, p, q);
    }
    assert (p - 1) * q == TWO32 - q;
    DivModUnique(x * q, h, l * q, TWO32);
  }

  function And32(a: u32, b: u32): u32 {
    AndBound(a, b);
    And(a, b)
  }

  function Plus(a: u32, b: u32): u32 {
    (a + b) % TWO32
  }

  /** The six functions of section 4.1.2. */
  function Ch(e: u32, f: u32, g: u32): u32 {
    Xor32(And32(e, f), And32(TWO32 - 1 - e, g))
  }

  function Maj(a: u32, b: u32, c: u32): u32 {
    Xor32(Xor32(And32(a, b), And32(a, c)), And32(b, c))
  }

  function BigSigma0(a: u32): u32 {
    Xor32(Xor32(Rotr(a, 0x4, 0x4000_0000), Rotr(a, 0x2000, 0x8_0000)), Rotr(a, 0x40_0000, 0x400))
  }

  function BigSigma1(e: u32): u32 {
    Xor32(Xor32(Rotr(e, 0x40, 0x400_0000), Rotr(e, 0x800, 0x20_0000)), Rotr(e, 0x200_0000, 0x80))
  }

  function Sigma0(w: u32): u32 {
    Xor32(Xor32(Rotr(w, 0x80, 0x200_0000), Rotr(w, 0x4_0000, 0x4000)), w / 8)
  }

  function Sigma1(w: u32): u32 {
    Xor32(Xor32(Rotr(w, 0x2_0000, 0x8000), Rotr(w, 0x8_0000, 0x2000)), w / 0x400)
  }

  /** Word i of the message schedule. */
  function W(b: Block, i: nat): u32 {
    hide Sigma0;
    hide Sigma1;
    if i < 16 then BeWord(b, 4 * i) else Plus(Plus(Plus(W(b, i - 16), Sigma0(W(b, i - 15))), W(b, i - 7)),
        Sigma1(W(b, i - 2)))
  }

  datatype Working = Working(a: u32, b: u32, c: u32, d: u32, e: u32, f: u32, g: u32, h: u32)

  function Round(v: Working, k: u32, w: u32): Working {
    hide BigSigma0;
    hide BigSigma1;
    hide Ch;
    hide Maj;
    var t1 := Plus(Plus(Plus(Plus(v.h, BigSigma1(v.e)), Ch(v.e, v.f, v.g)), k), w);
    var t2 := Plus(BigSigma0(v.a), Maj(v.a, v.b, v.c));
    Working(Plus(t1, t2), v.a, v.b, v.c, Plus(v.d, t1), v.e, v.f, v.g)
  }

  function Rounds(v: Working, b: Block, n: nat): Working
    requires n <= 64
  {
    hide Round;
    hide W;
    if n == 0 then v else Round(Rounds(v, b, n - 1), K[n - 1], W(b, n - 1))
  }

  function Start(h: Chaining): Working {
    Working(h[0], h[1], h[2], h[3], h[4], h[5], h[6], h[7])
  }

  function Finished(h: Chaining, v: Working): Chaining {
    [Plus(h[0], v.a), Plus(h[1], v.b), Plus(h[2], v.c), Plus(h[3], v.d),
     Plus(h[4], v.e), Plus(h[5], v.f), Plus(h[6], v.g), Plus(h[7], v.h)]
  }

  function Compress(h: Chaining, b: Block): Chaining {
    hide Rounds;
    Finished(h, Rounds(Start(h), b, 64))
  }

  /** The ROR macro. */
  method Ror(x: u32, k: nat, p: nat, q: nat) returns (r: u32)
    requires k < 32 && p == Pow2(k) && q == Pow2(32 - k) && p * q == TWO32
    ensures r == Rotr(x, p, q)
  {
    hide Or;
    hide Pow2;
    RotrFits(x, p, q);
    OrDisjoint(x / p, x % p, 32 - k, q);
    r := Or(x / p, x * q % TWO32);
  }

  lemma Powers()
    ensures Pow2(2) == 0x4 && Pow2(6) == 0x40 && Pow2(7) == 0x80 && Pow2(10) == 0x400 && Pow2(11) == 0x800
    ensures Pow2(13) == 0x2000 && Pow2(14) == 0x4000 && Pow2(15) == 0x8000 && Pow2(17) == 0x2_0000
      && Pow2(18) == 0x4_0000
    ensures Pow2(19) == 0x8_0000 && Pow2(21) == 0x20_0000 && Pow2(22) == 0x40_0000 && Pow2(25) == 0x200_0000
    ensures Pow2(26) == 0x400_0000 && Pow2(30) == 0x4000_0000
  {}

  // The four sums of rotations as the code writes them.

  method RorsSigma0(w: u32) returns (r: u32)
    ensures r == Sigma0(w)
  {
    hide Rotr;
    hide Pow2;
    hide Xor32;
    Powers();
    var s := Ror(w, 7, 0x80, 0x200_0000);
    var t := Ror(w, 18, 0x4_0000, 0x4000);
    r := Xor32(Xor32(s, t), w / 8);
  }

  method RorsSigma1(w: u32) returns (r: u32)
    ensures r == Sigma1(w)
  {
    hide Rotr;
    hide Pow2;
    hide Xor32;
    Powers();
    var s := Ror(w, 17, 0x2_0000, 0x8000);
    var t := Ror(w, 19, 0x8_0000, 0x2000);
    r := Xor32(Xor32(s, t), w / 0x400);
  }

  method RorsBigSigma0(a: u32) returns (r: u32)
    ensures r == BigSigma0(a)
  {
    hide Rotr;
    hide Pow2;
    hide Xor32;
    Powers();
    var s := Ror(a, 2, 0x4, 0x4000_0000);
    var t := Ror(a, 13, 0x2000, 0x8_0000);
    var u := Ror(a, 22, 0x40_0000, 0x400);
    r := Xor32(Xor32(s, t), u);
  }

  method RorsBigSigma1(e: u32) returns (r: u32)
    ensures r == BigSigma1(e)
  {
    hide Rotr;
    hide Pow2;
    hide Xor32;
    Powers();
    var s := Ror(e, 6, 0x40, 0x400_0000);
    var t := Ror(e, 11, 0x800, 0x20_0000);
    var u := Ror(e, 25, 0x200_0000, 0x80);
    r := Xor32(Xor32(s, t), u);
  }

  /** The message schedule, filled in order. */
  method Expand(p: Block) returns (w: seq<u32>)
    ensures |w| == 64 && forall i :: 0 <= i < 64 ==> w[i] == W(p, i)
  {
    hide Sigma0;
    hide Sigma1;
    hide Plus;
    hide BeWord;
    w := [];
    var i := 0;
    while i < 16
      invariant 0 <= i <= 16 && |w| == i
      invariant forall k :: 0 <= k < i ==> w[k] == W(p, k)
    {
      w := w + [BeWord(p, 4 * i)];
      i := i + 1;
    }
    while i < 64
      invariant 16 <= i <= 64 && |w| == i
      invariant forall k :: 0 <= k < i ==> w[k] == W(p, k)
    {
      var s0 := RorsSigma0(w[i - 15]);
      var s1 := RorsSigma1(w[i - 2]);
      w := w + [Plus(Plus(Plus(w[i - 16], s0), w[i - 7]), s1)];
      i := i + 1;
    }
  }

  /** compress. */
  method CompressBlock(h: Chaining, p: Block) returns (r: Chaining)
    ensures r == Compress(h, p)
  {
    hide BigSigma0;
    hide BigSigma1;
    hide Ch;
    hide Maj;
    hide Plus;
    hide W;
    var w := Expand(p);
    var a, b, c, d, e, f, g, hh := h[0], h[1], h[2], h[3], h[4], h[5], h[6], h[7];
    var i := 0;
    while i < 64
      invariant 0 <= i <= 64
      invariant Working(a, b, c, d, e, f, g, hh) == Rounds(Start(h), p, i)
    {
      var s1 := RorsBigSigma1(e);
      var s0 := RorsBigSigma0(a);
      var t1 := Plus(Plus(Plus(Plus(hh, s1), Ch(e, f, g)), K[i]), w[i]);
      var t2 := Plus(s0, Maj(a, b, c));
      hh := g;
      g := f;
      f := e;
      e := Plus(d, t1);
      d := c;
      c := b;
      b := a;
      a := Plus(t1, t2);
      i := i + 1;
    }
    r := [Plus(h[0], a), Plus(h[1], b), Plus(h[2], c), Plus(h[3], d), Plus(h[4], e), Plus(h[5], f), Plus(h[6], g),
        Plus(h[7], hh)];
  }

  // ---- the hash --------------------------------------------------------------------------------------------

  /** Whole blocks, one after the other. */
  function Chain(h: Chaining, m: seq<u8>): Chaining
    decreases |m|
  {
    hide Compress;
    if |m| < 64 then h else Chain(Compress(h, m[..64]), m[64..])
  }

  lemma {:induction false} ChainAppend(h: Chaining, a: seq<u8>, b: seq<u8>)
    requires |a| % 64 == 0
    ensures Chain(h, a + b) == Chain(Chain(h, a), b)
    decreases |a|
  {
    hide Compress;
    if |a| == 0 {
      assert a + b == b;
    } else {
      assert (a + b)[..64] == a[..64] && (a + b)[64..] == a[64..] + b;
      ChainAppend(Compress(h, a[..64]), a[64..], b);
    }
  }

  function Zeros(n: nat): (z: seq<u8>)
    ensures |z| == n
  {
    seq(n, i => 0)
  }

  /** How many zeros make the length come out at 56 modulo 64. */
  function Gap(n: nat): nat {
    (119 - n % 64) % 64
  }

  /** Section 5.1.1: a one bit, zeros, and the bit length in 64 bits. */
  ghost function Padded(m: seq<u8>): (p: seq<u8>)
    ensures |p| % 64 == 0
  {
    GapFills(|m|);
    m + [0x80] + Zeros(Gap(|m|)) + I2osp(8 * |m| % TWO64, 8)
  }

  lemma GapFills(n: nat)
    ensures (n + 1 + Gap(n)) % 64 == 56 && Gap(n) < 64
  {
    var r := n % 64;
    var k := if r <= 55 then 55 - r else 119 - r;
    DivModUnique(119 - r, if r <= 55 then 1 else 0, k, 64);
    assert n + 1 + k == 64 * (n / 64 + (if r <= 55 then 0 else 1)) + 56;
    DivModUnique(n + 1 + k, n / 64 + (if r <= 55 then 0 else 1), 56, 64);
  }

  function Serialized(h: Chaining): (b: seq<u8>)
    ensures |b| == 32
  {
    seq(32, i requires 0 <= i < 32 => WordByte(h[i / 4], i % 4))
  }

  /** Byte j of a word, the most significant first. */
  function WordByte(w: u32, j: nat): u8 {
    if j == 0 then w / 0x100_0000 else if j == 1 then w / 0x1_0000 % 0x100 else if j == 2 then w / 0x100 % 0x100
        else w % 0x100
  }

  ghost function Digest(m: seq<u8>): (d: seq<u8>)
    ensures |d| == 32
  {
    Serialized(Chain(INITIAL, Padded(m)))
  }

  // ---- the streaming context --------------------------------------------------------------------------------

  /** buf with b written from `at` on. */
  function Written(buf: Block, at: nat, b: seq<u8>): Block
    requires at + |b| <= 64
  {
    buf[..at] + b + buf[at + |b|..]
  }

  /** sha256_ctx_t; what has been fed so far is a ghost. */
  class Context {
    var h: Chaining
    var total: nat
    var buf: Block
    var bufLen: nat
    ghost var fed: seq<u8>

    /** h stands for all whole blocks of m, the rest is in the buffer. */
    ghost predicate Holds(m: seq<u8>)
      reads this`h, this`buf, this`bufLen
    {
      && bufLen < 64 && bufLen <= |m| && (|m| - bufLen) % 64 == 0
      && buf[..bufLen] == m[|m| - bufLen..]
      && h == Chain(INITIAL, m[..|m| - bufLen])
    }

    ghost predicate Valid()
      reads this
    {
      Holds(fed) && total == |fed| % TWO64
    }

    /** sha256_init. */
    constructor ()
      ensures Valid() && fed == []
    {
      h, total, buf, bufLen, fed := INITIAL, 0, Zeros(64), 0, [];
    }

    /** A context copied as a whole. */
    method CopyFrom(o: Context)
      requires o.Valid()
      modifies this
      ensures Valid() && fed == old(o.fed)
    {
      hide Chain;
      h, total, buf, bufLen, fed := o.h, o.total, o.buf, o.bufLen, o.fed;
    }

    /** As much of m as the buffer takes. */
    method Fill(m: seq<u8>) returns (take: nat)
      requires bufLen < 64
      modifies this`buf, this`bufLen
      ensures take <= |m| && bufLen == old(bufLen) + take <= 64 && (bufLen < 64 ==> take == |m|)
      ensures buf[..bufLen] == old(buf[..bufLen]) + m[..take]
    {
      take := 64 - bufLen;
      if take > |m| { take := |m|; }
      buf := Written(buf, bufLen, m[..take]);
      bufLen := bufLen + take;
    }

    /** A full buffer is compressed. */
    method Flush(ghost m: seq<u8>, ghost n: nat)
      requires n + 64 <= |m| && n % 64 == 0 && h == Chain(INITIAL, m[..n]) && buf == m[n..n + 64]
      modifies this`h, this`bufLen
      ensures bufLen == 0 && h == Chain(INITIAL, m[..n + 64])
    {
      hide Compress;
      hide Chain;
      assert m[..n + 64] == m[..n] + buf;
      ChainAppend(INITIAL, m[..n], buf);
      OneBlock(h, buf);
      h := CompressBlock(h, buf);
      bufLen := 0;
    }

    /** The part of an update that fills the buffer; what is left of m starts at `at`. */
    method TopUp(m: seq<u8>) returns (at: nat)
      requires Holds(fed) && bufLen > 0
      modifies this`h, this`buf, this`bufLen
      ensures at <= |m|
      ensures if bufLen == 0 then (|fed| + at) % 64 == 0 && h == Chain(INITIAL, (fed + m)[..|fed| + at])
        else Holds(fed + m)
    {
      hide Chain;
      ghost var n: nat, whole, pending := |fed| - bufLen, fed + m, buf[..bufLen];
      assert whole[..n] == fed[..n];
      at := Fill(m);
      assert |fed| + at == n + bufLen && n % 64 == 0;
      AcrossSeam(fed, m, n, at);
      if bufLen < 64 {
        assert whole[|whole| - bufLen..] == whole[n..n + bufLen];
        return;
      }
      assert buf[..64] == buf;
      CongMultiple(n + 64, n, 1, 64);
      Flush(whole, n);
    }

    /** Whole blocks of m straight from the caller's data, the rest into the buffer. */
    method Rest(m: seq<u8>, from: nat)
      requires bufLen == 0 && from <= |m| && (|fed| + from) % 64 == 0 && h == Chain(INITIAL, (fed + m)[..|fed| + from])
      modifies this`h, this`buf, this`bufLen
      ensures Holds(fed + m)
    {
      hide Compress;
      hide Chain;
      ghost var whole, n := fed + m, |fed|;
      var at := from;
      while |m| - at >= 64
        invariant from <= at <= |m| && (n + at) % 64 == 0 && bufLen == 0
        invariant h == Chain(INITIAL, whole[..n + at])
      {
        assert whole[..n + at + 64] == whole[..n + at] + m[at..at + 64];
        ChainAppend(INITIAL, whole[..n + at], m[at..at + 64]);
        OneBlock(h, m[at..at + 64]);
        h := CompressBlock(h, m[at..at + 64]);
        at := at + 64;
      }
      if |m| - at > 0 {
        buf := Written(buf, 0, m[at..]);
        bufLen := |m| - at;
      }
      assert whole[|whole| - bufLen..] == m[at..];
    }

    /** The buffer's and the chaining value's part of an update. */
    method Absorb(m: seq<u8>)
      requires Holds(fed)
      modifies this`h, this`buf, this`bufLen
      ensures Holds(fed + m)
    {
      hide Chain;
      var at := 0;
      if bufLen > 0 {
        at := TopUp(m);
        if bufLen > 0 {
          return;
        }
      } else {
        assert (fed + m)[..|fed|] == fed == fed[..|fed|];
      }
      Rest(m, at);
    }

    /** sha256_update: whatever the split, the context stands for everything fed so far. */
    method Update(m: seq<u8>)
      requires Valid()
      modifies this
      ensures Valid() && fed == old(fed) + m
    {
      hide Holds;
      total := (total + |m|) % TWO64;
      LengthAdds(|fed|, |m|);
      Absorb(m);
      fed := fed + m;
    }

    lemma Left()
      requires Valid()
      ensures bufLen < 64 && bufLen <= |fed| && (|fed| - bufLen) % 64 == 0
    {}

    lemma Done()
      requires Valid() && |fed| % 64 == 0
      ensures h == Chain(INITIAL, fed)
    {
      NothingLeft(|fed|, bufLen);
      assert fed[..|fed|] == fed;
    }

    /** The one bit, and zeros until the buffer stands at 56. */
    method PadZeros()
      requires Valid()
      modifies this
      ensures Valid() && fed == old(fed) + [0x80] + Zeros(Gap(|old(fed)|))
    {
      hide Holds;
      hide Gap;
      ghost var m := fed;
      Update([0x80]);
      GapFills(|m|);
      ghost var n: nat, gap := |m| + 1, Gap(|m|);
      ghost var zeros := 0;
      assert fed == m + [0x80] + Zeros(zeros);
      while bufLen != 56
        invariant Valid() && 0 <= zeros <= gap && fed == m + [0x80] + Zeros(zeros)
        decreases gap - zeros
      {
        Left();
        NotYet(n, zeros, gap, bufLen);
        Update([0]);
        assert Zeros(zeros) + [0] == Zeros(zeros + 1);
        zeros := zeros + 1;
      }
      Left();
      AtLast(n, zeros, gap, bufLen);
    }

    /** sha256_final. */
    method Final() returns (out: seq<u8>)
      requires Valid()
      modifies this
      ensures out == Digest(old(fed))
    {
      hide Valid;
      hide I2osp;
      hide Chain;
      ghost var m := fed;
      var bits: nat := total * 8 % TWO64;
      BitsSoFar();
      PadZeros();
      var length := LengthBytes(bits);
      Update(length);
      assert fed == Padded(m);
      Done();
      out := SerializeWords(h);
    }

    lemma BitsSoFar()
      requires Valid()
      ensures total * 8 % TWO64 == 8 * |fed| % TWO64
    {
      BitLength(|fed|, total);
    }
  }

  lemma AcrossSeam(a: seq<u8>, b: seq<u8>, n: nat, k: nat)
    requires n <= |a| && k <= |b|
    ensures (a + b)[n..|a| + k] == a[n..] + b[..k]
  {}

  lemma LengthAdds(a: nat, b: nat)
    ensures (a % TWO64 + b) % TWO64 == (a + b) % TWO64
  {
    ModMod(a, TWO64);
    CongAdd(a % TWO64, a, b, b, TWO64);
  }

  lemma BitLength(n: nat, total: nat)
    requires total == n % TWO64
    ensures total * 8 % TWO64 == 8 * n % TWO64
  {
    ModMod(n, TWO64);
    CongMul(n % TWO64, n, 8, 8, TWO64);
  }

  /** Before the gap is full the buffer does not stand at 56. */
  lemma NotYet(n: nat, zeros: nat, gap: nat, left: nat)
    requires (n + gap) % 64 == 56 && zeros <= gap < 64 && left < 64 && left <= n + zeros
      && (n + zeros - left) % 64 == 0 && left != 56
    ensures zeros < gap
  {
    if zeros == gap {
      CongSub(n + gap, 56, n + zeros - left, 0, 64);
      ModSmall(left, 64);
    }
  }

  lemma AtLast(n: nat, zeros: nat, gap: nat, left: nat)
    requires (n + gap) % 64 == 56 && zeros <= gap < 64 && left == 56 && left <= n + zeros
      && (n + zeros - left) % 64 == 0
    ensures zeros == gap
  {
    var q := (n + gap) / 64;
    var r := (n + zeros - left) / 64;
    assert n + gap == 64 * q + 56 && n + zeros == 64 * r + 56;
    assert gap - zeros == 64 * (q - r);
  }

  lemma NothingLeft(n: nat, left: nat)
    requires n % 64 == 0 && left < 64 && left <= n && (n - left) % 64 == 0
    ensures left == 0
  {
    CongSub(n, 0, n - left, 0, 64);
    ModSmall(left, 64);
  }

  lemma OneBlock(h: Chaining, b: Block)
    ensures Chain(h, b) == Compress(h, b)
  {
    hide Compress;
    assert b[..64] == b && |b[64..]| == 0;
  }

  /** The length loop: eight bytes, the most significant first. */
  method LengthBytes(bits: nat) returns (b: seq<u8>)
    ensures b == I2osp(bits, 8)
  {
    hide I2osp;
    hide Pow;
    var r := new u8[8];
    var i := 0;
    while i < 8
      invariant 0 <= i <= 8
      invariant forall k :: 0 <= k < i ==> r[k] == I2osp(bits, 8)[k]
    {
      PowPositive(0x100, 7 - i);
      I2ospByte(bits, 8, i, Pow(0x100, 7 - i));
      r[i] := bits / Pow(0x100, 7 - i) % 0x100;
      i := i + 1;
    }
    b := r[..];
  }

  method SerializeWords(h: Chaining) returns (out: seq<u8>)
    ensures out == Serialized(h)
  {
    hide WordByte;
    var b := new u8[32];
    var i := 0;
    while i < 8
      invariant 0 <= i <= 8
      invariant forall k :: 0 <= k < 4 * i ==> b[k] == WordByte(h[k / 4], k % 4)
    {
      b[4 * i] := WordByte(h[i], 0);
      b[4 * i + 1] := WordByte(h[i], 1);
      b[4 * i + 2] := WordByte(h[i], 2);
      b[4 * i + 3] := WordByte(h[i], 3);
      i := i + 1;
    }
    out := b[..];
  }

  /** sha256. */
  method Sha256Of(m: seq<u8>) returns (out: seq<u8>)
    ensures out == Digest(m)
  {
    hide Digest;
    var c := new Context();
    c.Update(m);
    assert [] + m == m;
    out := c.Final();
  }
}

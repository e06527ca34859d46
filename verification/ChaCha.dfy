/** ChaCha20 (crypto/chacha20.c) and ChaCha20-Poly1305 (crypto/aead.c:357-391) against sections 2.1 to
    2.4 and 2.8 of RFC 8439. */
module ChaCha {
  import opened Arith
  import opened Machine
  import opened Bits
  import opened Streams
  import Poly1305
  import Ghash

  const TWO32: nat := 0x1_0000_0000

  // ---- the block function -----------------------------------------------------------------------------

  function Plus(a: u32, b: u32): u32 {
    (a + b) % TWO32
  }

  /** x rotated left by k bits, p = 2^k and q = 2^(32-k). */
  function Rotated(x: u32, p: nat, q: nat): (r: nat)
    requires q > 0
  {
    x * p % TWO32 + x / q
  }

  type Words = s: seq<u32> | |s| == 16 witness seq(16, i => 0)

  /** The rotations the quarter round uses. */
  predicate Rotation(p: nat, q: nat) {
    (p == 0x1_0000 && q == 0x1_0000) || (p == 0x1000 && q == 0x10_0000) || (p == 0x100 && q == 0x100_0000)
        || (p == 0x80 && q == 0x200_0000)
  }

  lemma RotationFits(x: u32, p: nat, q: nat)
    requires Rotation(p, q)
    ensures Rotated(x, p, q) < TWO32 && x / q < p && x * p % TWO32 == x % q * p
  {
    var h, l := x / q, x % q;
    assert x * p == h * TWO32 + l * p;
    DivModUnique(x * p, h, l * p, TWO32);
  }

  function Rotl(x: u32, p: nat, q: nat): u32
    requires Rotation(p, q)
  {
    RotationFits(x, p, q);
    Rotated(x, p, q)
  }

  /** Half of a quarter round: a += b; d ^= a; d <<<= k. */
  function HalfStep(s: Words, a: nat, b: nat, d: nat, p: nat, q: nat): Words
    requires a < 16 && b < 16 && d < 16 && a != d && Rotation(p, q)
  {
    hide Xor32;
    hide Rotl;
    var x := Plus(s[a], s[b]);
    s[a := x][d := Rotl(Xor32(s[d], x), p, q)]
  }

  /** Section 2.1's quarter round on words a, b, c and d. */
  function Quarter(s: Words, a: nat, b: nat, c: nat, d: nat): Words
    requires a < 16 && b < 16 && c < 16 && d < 16 && a != d && c != b
  {
    hide HalfStep;
    var s1 := HalfStep(s, a, b, d, 0x1_0000, 0x1_0000);
    var s2 := HalfStep(s1, c, d, b, 0x1000, 0x10_0000);
    var s3 := HalfStep(s2, a, b, d, 0x100, 0x100_0000);
    HalfStep(s3, c, d, b, 0x80, 0x200_0000)
  }

  /** Section 2.3's inner block: four column rounds, four diagonal rounds. */
  function DoubleRound(s: Words): Words {
    hide Quarter;
    var s1 := Quarter(Quarter(Quarter(Quarter(s, 0, 4, 8, 12), 1, 5, 9, 13), 2, 6, 10, 14), 3, 7, 11, 15);
    Quarter(Quarter(Quarter(Quarter(s1, 0, 5, 10, 15), 1, 6, 11, 12), 2, 7, 8, 13), 3, 4, 9, 14)
  }

  function DoubleRounds(s: Words, n: nat): Words {
    hide DoubleRound;
    if n == 0 then s else DoubleRound(DoubleRounds(s, n - 1))
  }

  function InitialState(key: seq<u8>, counter: u32, nonce: seq<u8>): Words
    requires |key| == 32 && |nonce| == 12
  {
    [0x61707865, 0x3320646e, 0x79622d32, 0x6b206574,
     Poly1305.Le32(key, 0), Poly1305.Le32(key, 4), Poly1305.Le32(key, 8), Poly1305.Le32(key, 12),
         Poly1305.Le32(key, 16), Poly1305.Le32(key, 20), Poly1305.Le32(key, 24), Poly1305.Le32(key, 28),
     counter, Poly1305.Le32(nonce, 0), Poly1305.Le32(nonce, 4), Poly1305.Le32(nonce, 8)]
  }

  /** Byte k of a word, the least significant first. */
  function LeByte(w: u32, k: nat): u8 {
    if k == 0 then w % 0x100 else if k == 1 then w / 0x100 % 0x100 else if k == 2 then w / 0x1_0000 % 0x100
        else w / 0x100_0000
  }

  function Serialized(w: Words): (b: seq<u8>)
    ensures |b| == 64
  {
    seq(64, i requires 0 <= i < 64 => LeByte(w[i / 4], i % 4))
  }

  function AddStates(a: Words, b: Words): Words {
    seq(16, i requires 0 <= i < 16 => Plus(a[i], b[i]))
  }

  /** Section 2.3's ChaCha20 block. */
  function BlockOf(key: seq<u8>, counter: u32, nonce: seq<u8>): (b: seq<u8>)
    requires |key| == 32 && |nonce| == 12
    ensures |b| == 64
  {
    hide DoubleRounds;
    hide InitialState;
    var s := InitialState(key, counter, nonce);
    Serialized(AddStates(DoubleRounds(s, 10), s))
  }

  // ---- chacha20_block -----------------------------------------------------------------------------------

  /** a += b; d ^= a; d = ROTL(d, k), in place. */
  method HalfStepInPlace(x: array<u32>, a: nat, b: nat, d: nat, k: nat, p: nat, q: nat)
    requires x.Length == 16 && a < 16 && b < 16 && d < 16 && a != d && Rotation(p, q) && k <= 32 && p == Pow2(k)
    modifies x
    ensures x[..] == HalfStep(old(x[..]), a, b, d, p, q)
  {
    hide Xor32;
    hide Or;
    hide Pow2;
    x[a] := (x[a] + x[b]) % TWO32;
    x[d] := Xor32(x[d], x[a]);
    RotationFits(x[d], p, q);
    OrDisjoint(x[d] / q, x[d] % q, k, p);
    x[d] := Or(x[d] / q, x[d] * p % TWO32);
  }

  lemma Powers()
    ensures Pow2(16) == 0x1_0000 && Pow2(12) == 0x1000 && Pow2(8) == 0x100 && Pow2(7) == 0x80
  {
    Pow2Known(8, 4, 0x100, 0x10);
    Pow2Known(8, 8, 0x100, 0x100);
  }

  /** QR. */
  method QuarterInPlace(x: array<u32>, a: nat, b: nat, c: nat, d: nat)
    requires x.Length == 16 && a < 16 && b < 16 && c < 16 && d < 16 && a != d && c != b
    modifies x
    ensures x[..] == Quarter(old(x[..]), a, b, c, d)
  {
    hide HalfStep;
    hide Pow2;
    Powers();
    HalfStepInPlace(x, a, b, d, 16, 0x1_0000, 0x1_0000);
    HalfStepInPlace(x, c, d, b, 12, 0x1000, 0x10_0000);
    HalfStepInPlace(x, a, b, d, 8, 0x100, 0x100_0000);
    HalfStepInPlace(x, c, d, b, 7, 0x80, 0x200_0000);
  }

  method DoubleRoundInPlace(x: array<u32>)
    requires x.Length == 16
    modifies x
    ensures x[..] == DoubleRound(old(x[..]))
  {
    hide Quarter;
    QuarterInPlace(x, 0, 4, 8, 12);
    QuarterInPlace(x, 1, 5, 9, 13);
    QuarterInPlace(x, 2, 6, 10, 14);
    QuarterInPlace(x, 3, 7, 11, 15);
    QuarterInPlace(x, 0, 5, 10, 15);
    QuarterInPlace(x, 1, 6, 11, 12);
    QuarterInPlace(x, 2, 7, 8, 13);
    QuarterInPlace(x, 3, 4, 9, 14);
  }

  /** chacha20_block. */
  method Block(key: seq<u8>, counter: u32, nonce: seq<u8>) returns (out: seq<u8>)
    requires |key| == 32 && |nonce| == 12
    ensures out == BlockOf(key, counter, nonce)
  {
    hide DoubleRound;
    hide InitialState;
    hide Plus;
    hide LeByte;
    var s := InitialState(key, counter, nonce);
    var x := new u32[16](i requires 0 <= i < 16 => s[i]);
    assert x[..] == s;
    var i: nat := 0;
    while i < 10
      invariant 0 <= i <= 10
      invariant x[..] == DoubleRounds(s, i)
    {
      DoubleRoundInPlace(x);
      i := i + 1;
    }
    ghost var mixed: Words := x[..];
    var b := new u8[64];
    i := 0;
    while i < 16
      invariant 0 <= i <= 16 && x[..] == mixed
      invariant forall k :: 0 <= k < 4 * i ==> b[k] == LeByte(Plus(mixed[k / 4], s[k / 4]), k % 4)
    {
      var v := Plus(x[i], s[i]);
      b[4 * i] := LeByte(v, 0);
      b[4 * i + 1] := LeByte(v, 1);
      b[4 * i + 2] := LeByte(v, 2);
      b[4 * i + 3] := LeByte(v, 3);
      i := i + 1;
    }
    out := b[..];
    assert out == Serialized(AddStates(mixed, s));
  }

  // ---- the stream ------------------------------------------------------------------------------------------

  /** The first n bytes of the keystream from a block counter on. */
  function Keystream(key: seq<u8>, counter: u32, nonce: seq<u8>, n: nat): (ks: seq<u8>)
    requires |key| == 32 && |nonce| == 12
    ensures |ks| == n
  {
    hide BlockOf;
    seq(n, i requires 0 <= i < n => BlockOf(key, (counter + i / 64) % TWO32, nonce)[i % 64])
  }

  /** chacha20_xor. */
  method XorStream(key: seq<u8>, counter: u32, nonce: seq<u8>, buf: array<u8>)
    requires |key| == 32 && |nonce| == 12
    modifies buf
    ensures buf[..] == XorSeq(old(buf[..]), Keystream(key, counter, nonce, buf.Length))
  {
    hide BlockOf;
    hide Xor8;
    ghost var ks := Keystream(key, counter, nonce, buf.Length);
    ghost var b0 := buf[..];
    var c, at := counter, 0;
    ghost var j := 0;
    while at < buf.Length
      invariant 0 <= at <= buf.Length && c == (counter + j) % TWO32
      invariant at < buf.Length ==> at == 64 * j
      invariant forall k :: 0 <= k < buf.Length ==> buf[k] == if k < at then Xor8(b0[k], ks[k]) else b0[k]
    {
      var block := Block(key, c, nonce);
      var n := if buf.Length - at < 64 then buf.Length - at else 64;
      forall k | at <= k < at + n
        ensures ks[k] == block[k - at]
      {
        DivModUnique(k, j, k - at, 64);
      }
      XorAt(buf, at, block, n);
      at := at + n;
      NextCounter(counter, j);
      c := (c + 1) % TWO32;
      j := j + 1;
    }
  }

  lemma NextCounter(counter: u32, j: nat)
    ensures ((counter + j) % TWO32 + 1) % TWO32 == (counter + (j + 1)) % TWO32
  {
    var s := counter + j;
    DivModUnique(s, s / TWO32, s % TWO32, TWO32);
    var r := s % TWO32 + 1;
    DivModUnique(s + 1, s / TWO32 + r / TWO32, r % TWO32, TWO32);
  }

  /** Below 2^32 bytes the counters 1, 2, ... of a message never meet each other or the 0 of the tag key. */
  lemma CountersDiffer(len: nat, i: nat, j: nat)
    requires len < TWO32 && 64 * i < len && 64 * j < len && i != j
    ensures (1 + i) % TWO32 != (1 + j) % TWO32 && (1 + i) % TWO32 != 0
  {
    ModSmall(1 + i, TWO32);
    ModSmall(1 + j, TWO32);
  }

  // ---- the tag -----------------------------------------------------------------------------------------------

  /** A 32-bit length as eight little-endian bytes. */
  function Length(n: u32): (b: seq<u8>)
    ensures |b| == 8
  {
    [LeByte(n, 0), LeByte(n, 1), LeByte(n, 2), LeByte(n, 3), 0, 0, 0, 0]
  }

  /** Section 2.8's message for Poly1305. */
  ghost function Authenticated(aad: seq<u8>, ct: seq<u8>): seq<u8>
    requires |aad| < TWO32 && |ct| < TWO32
  {
    Ghash.Padded(aad) + Ghash.Padded(ct) + Length(|aad|) + Length(|ct|)
  }

  /** The one-time key is the first half of block 0. */
  ghost predicate IsTag(tag: seq<u8>, key: seq<u8>, nonce: seq<u8>, aad: seq<u8>, ct: seq<u8>)
    requires |key| == 32 && |nonce| == 12 && |aad| < TWO32 && |ct| < TWO32
  {
    |tag| == 16 && Le(tag) == Poly1305.Tag(BlockOf(key, 0, nonce)[..32], Authenticated(aad, ct))
  }

  /** Data and its zero padding are fed. */
  method FeedPadded(p: Poly1305.Poly, data: seq<u8>)
    requires p.Valid()
    modifies p, p.buf
    ensures p.Valid() && p.key == old(p.key) && p.buf == old(p.buf) && p.fed == old(p.fed) + Ghash.Padded(data)
  {
    hide Poly1305.Poly.Valid;
    p.Update(data);
    if |data| % 16 != 0 {
      p.Update(Ghash.Zeros(16 - |data| % 16));
      assert old(p.fed) + data + Ghash.Zeros(16 - |data| % 16) == old(p.fed) + Ghash.Padded(data);
    }
  }

  /** cc_tag. */
  method Tag(key: seq<u8>, nonce: seq<u8>, aad: seq<u8>, ct: seq<u8>) returns (tag: seq<u8>)
    requires |key| == 32 && |nonce| == 12 && |aad| < TWO32 && |ct| < TWO32
    ensures IsTag(tag, key, nonce, aad, ct)
  {
    hide BlockOf;
    hide Poly1305.Tag;
    hide Ghash.Padded;
    hide Poly1305.Poly.Valid;
    hide Length;
    var block := Block(key, 0, nonce);
    var p := new Poly1305.Poly(block[..32]);
    FeedPadded(p, aad);
    FeedPadded(p, ct);
    p.Update(Length(|aad|) + Length(|ct|));
    assert p.fed == Authenticated(aad, ct);
    tag := p.Finish();
  }

  /** chacha20poly1305_seal. */
  method Seal(key: seq<u8>, nonce: seq<u8>, aad: seq<u8>, buf: array<u8>) returns (tag: seq<u8>)
    requires |key| == 32 && |nonce| == 12 && |aad| < TWO32 && buf.Length < TWO32
    modifies buf
    ensures buf[..] == XorSeq(old(buf[..]), Keystream(key, 1, nonce, buf.Length))
    ensures IsTag(tag, key, nonce, aad, buf[..])
  {
    hide Keystream;
    hide XorSeq;
    hide IsTag;
    XorStream(key, 1, nonce, buf);
    tag := Tag(key, nonce, aad, buf[..]);
  }

  /** chacha20poly1305_open: decrypted when the tag is right, otherwise -1 and the buffer untouched. */
  method Open(key: seq<u8>, nonce: seq<u8>, aad: seq<u8>, buf: array<u8>, tag: seq<u8>) returns (rc: int)
    requires |key| == 32 && |nonce| == 12 && |aad| < TWO32 && buf.Length < TWO32 && |tag| == 16
    modifies buf
    ensures rc == if IsTag(tag, key, nonce, aad, old(buf[..])) then 0 else -1
    ensures buf[..] == if rc == 0 then XorSeq(old(buf[..]), Keystream(key, 1, nonce, buf.Length)) else old(buf[..])
  {
    hide Keystream;
    hide XorSeq;
    hide IsTag;
    var wanted := Tag(key, nonce, aad, buf[..]);
    OneTag(wanted, tag, key, nonce, aad, buf[..]);
    var d := CtMemcmp(wanted, tag);
    if d != 0 {
      return -1;
    }
    XorStream(key, 1, nonce, buf);
    rc := 0;
  }

  /** There is one tag for given data. */
  lemma OneTag(t: seq<u8>, u: seq<u8>, key: seq<u8>, nonce: seq<u8>, aad: seq<u8>, ct: seq<u8>)
    requires |key| == 32 && |nonce| == 12 && |aad| < TWO32 && |ct| < TWO32 && IsTag(t, key, nonce, aad, ct) && |u| == 16
    ensures |t| == 16 && (IsTag(u, key, nonce, aad, ct) <==> t == u)
  {
    hide BlockOf;
    hide Poly1305.Tag;
    hide Le;
    if IsTag(u, key, nonce, aad, ct) { LeInjective(t, u); }
  }

  /** Open after seal: accepted, and the plaintext is back. */
  method SealThenOpen(key: seq<u8>, nonce: seq<u8>, aad: seq<u8>, buf: array<u8>) returns (rc: int)
    requires |key| == 32 && |nonce| == 12 && |aad| < TWO32 && buf.Length < TWO32
    modifies buf
    ensures rc == 0 && buf[..] == old(buf[..])
  {
    hide Keystream;
    hide XorSeq;
    hide IsTag;
    var tag := Seal(key, nonce, aad, buf);
    OneTag(tag, tag, key, nonce, aad, buf[..]) by { TagSize(tag, key, nonce, aad, buf[..]); }
    rc := Open(key, nonce, aad, buf, tag);
    KeystreamSize(key, nonce, buf.Length);
    XorSeqTwice(old(buf[..]), Keystream(key, 1, nonce, buf.Length));
  }

  lemma TagSize(tag: seq<u8>, key: seq<u8>, nonce: seq<u8>, aad: seq<u8>, ct: seq<u8>)
    requires |key| == 32 && |nonce| == 12 && |aad| < TWO32 && |ct| < TWO32 && IsTag(tag, key, nonce, aad, ct)
    ensures |tag| == 16
  {}

  lemma KeystreamSize(key: seq<u8>, nonce: seq<u8>, n: nat)
    requires |key| == 32 && |nonce| == 12
    ensures |Keystream(key, 1, nonce, n)| == n
  {}
}

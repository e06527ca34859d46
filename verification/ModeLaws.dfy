/** The modes byte by byte: the counter blocks, nonces, headers and length blocks that GCM (NIST SP 800-38D), CCM (RFC
    3610), ChaCha20-Poly1305 (RFC 8439) and the key wrap (RFC 3394) build (crypto/aead.c:117-391,
    crypto/wifi_crypto.c:135-231). */
module ModeLaws {
  import opened Arith
  import opened Machine
  import opened RsaBytes
  import opened Aes
  import opened Streams
  import Bits
  import Ghash
  import Gcm
  import Ccmp
  import KeyWrap
  import ChaCha
  import Poly1305
  import Radix

  /** Data and the zeros after it, up to a whole number of blocks. */
  lemma Filled(data: seq<u8>, i: nat)
    requires i < |Ghash.Padded(data)|
    ensures |Ghash.Padded(data)| == (|data| + 15) / 16 * 16
    ensures Ghash.Padded(data)[i] == if i < |data| then data[i] else 0
  {
    var q, r := |data| / 16, |data| % 16;
    if r > 0 { DivModUnique(|data| + 15, q + 1, r - 1, 16); } else { DivModUnique(|data| + 15, q, 15, 16); }
  }

  // ---- GCM ---------------------------------------------------------------------------------------------------

  /** Block j of the keystream is the cipher of the nonce and the 32-bit number j + 2. */
  lemma GcmStream(rk: seq<u32>, nonce: seq<u8>, n: nat, j: nat, k: nat, b: State)
    requires |rk| == 44 && |nonce| == 12 && k < 16 && 16 * j + k < n
    requires b[..12] == nonce && b[12..] == I2osp(j + 2, 4)
    ensures Gcm.Keystream(rk, nonce, n)[16 * j + k] == Cipher(rk, b)[k]
  {
    hide Cipher;
    hide I2osp;
    DivModUnique(16 * j + k, j, k, 16);
    assert b == nonce + I2osp(j + 2, 4);
  }

  /** The tag: GHASH under the cipher of zeros over the padded data, the padded ciphertext and the two lengths in
      bits, added to the cipher of the nonce and 1. */
  lemma GcmTag(key: State, rk: seq<u32>, nonce: seq<u8>, aad: seq<u8>, ct: seq<u8>, lens: seq<u8>, eight: nat,
      zero: State, one: State, h: State, s: seq<u8>, mask: State, i: nat)
    requires |nonce| == 12 && i < 16 && |rk| == 44 && rk == KeySchedule(key) && eight == 8
    requires lens == I2osp(8 * |aad| % 0x1_0000_0000, eight) + I2osp(8 * |ct| % 0x1_0000_0000, eight)
    requires zero == seq(16, _ => 0) && one == nonce + [0, 0, 0, 1]
    requires h == Cipher(rk, zero) && mask == Cipher(rk, one)
    requires s == Ghash.Fold(zero, Ghash.Padded(aad) + Ghash.Padded(ct) + lens, Os2ip(h)) && |s| == 16
    ensures Gcm.TagOf(key, nonce, aad, ct)[i] == Bits.Xor(s[i], mask[i])
  {
    hide Cipher;
    hide KeySchedule;
    hide I2osp;
    hide Os2ip;
    hide Ghash.Fold;
    hide Ghash.Padded;
    hide Bits.Xor;
    assert zero == Ghash.Zeros(16);
    OneInFour(4);
    assert lens == Gcm.Lengths(|aad|, |ct|);
  }

  lemma OneInFour(n: nat)
    requires n == 4
    ensures I2osp(1, n) == [0, 0, 0, 1]
  {
    BeWordIsOs2ip([0, 0, 0, 1], 0);
    assert [0, 0, 0, 1][0..4] == [0, 0, 0, 1];
    I2ospOfOs2ip([0, 0, 0, 1]);
  }

  // ---- ChaCha20-Poly1305 -------------------------------------------------------------------------------------

  lemma LengthSpells(n: u32)
    ensures Le(ChaCha.Length(n)) == n
  {
    var b := ChaCha.Length(n);
    ChaChaBytes(n);
    EightBytes(b);
  }

  lemma ChaChaBytes(n: u32)
    ensures n == ChaCha.LeByte(n, 0) + 0x100 * (ChaCha.LeByte(n, 1) as int) + 0x1_0000 * (ChaCha.LeByte(n, 2) as int)
              + 0x100_0000 * (ChaCha.LeByte(n, 3) as int)
  {
    NestedQuotients(n);
  }

  lemma EightBytes(b: seq<u8>)
    requires |b| == 8 && b[4] == 0 && b[5] == 0 && b[6] == 0 && b[7] == 0
    ensures Le(b) == b[0] + 0x100 * (b[1] as int) + 0x1_0000 * (b[2] as int) + 0x100_0000 * (b[3] as int)
  {
    var n: nat := 4;
    Radix.HighZeros(0x100, b, n, 8);
    FourDigits(b, n);
  }

  lemma FourDigits(b: seq<u8>, n: nat)
    requires n == 4 <= |b|
    ensures Radix.Value(0x100, b, n)
         == b[0] + 0x100 * (b[1] as int) + 0x1_0000 * (b[2] as int) + 0x100_0000 * (b[3] as int)
  {
    assert Pow(0x100, 0) == 1 && Pow(0x100, 1) == 0x100;
    PowAdd(0x100, 1, 1);
    PowAdd(0x100, 2, 1);
    assert Radix.Value(0x100, b, 0) == 0;
    assert Radix.Value(0x100, b, 1) == b[0];
    assert Radix.Value(0x100, b, 2) == b[0] + 0x100 * (b[1] as int);
  }

  /** The tag: Poly1305, under the first half of block 0, over the padded data, the padded ciphertext and the two
      lengths in bytes as 64-bit little-endian numbers. */
  lemma ChaChaTag(tag: seq<u8>, key: seq<u8>, nonce: seq<u8>, aad: seq<u8>, ct: seq<u8>, a: seq<u8>, c: seq<u8>)
    requires |key| == 32 && |nonce| == 12 && |aad| < 0x1_0000_0000 && |ct| < 0x1_0000_0000
    requires |a| == 8 && |c| == 8 && Le(a) == |aad| && Le(c) == |ct|
    ensures ChaCha.IsTag(tag, key, nonce, aad, ct) <==>
      && |tag| == 16
      && Le(tag) == Poly1305.Tag(ChaCha.BlockOf(key, 0, nonce)[..32], Ghash.Padded(aad) + Ghash.Padded(ct) + a + c)
  {
    hide Le;
    hide Poly1305.Tag;
    hide ChaCha.BlockOf;
    hide Ghash.Padded;
    hide ChaCha.Length;
    LengthSpells(|aad|);
    LengthSpells(|ct|);
    LeInjective(a, ChaCha.Length(|aad|));
    LeInjective(c, ChaCha.Length(|ct|));
  }

  // ---- the key wrap ------------------------------------------------------------------------------------------

  /** Step t = n * j + r + 1 of the wrap, in round j and at register r: A and the register through the cipher; the
      first half with the step's number added is the new A, the second half the new register. */
  lemma WrapStepIs(rk: seq<u32>, s: KeyWrap.Regs, n: nat, j: nat, r: nat, t: nat, b: State, s': KeyWrap.Regs, k: nat)
    requires |rk| == 44 && |s.a| == 8 && |s.r| == 8 * n && r < n && t > 0 && t == n * j + r + 1 && k < 8
    requires b == Cipher(rk, s.a + s.r[8 * r..8 * r + 8])
    ensures s' == KeyWrap.WrapStep(rk, s, n, t) ==>
      && |s'.a| == 8 && s'.a[k] == Bits.Xor(b[k], I2osp(t, 8)[k])
      && s'.r == s.r[..8 * r] + b[8..] + s.r[8 * r + 8..]
  {
    hide Cipher;
    hide I2osp;
    hide Bits.Xor;
    DivModUnique(t - 1, j, r, n);
  }

  /** The wrap: six rounds over the registers, from A = a6a6a6a6a6a6a6a6. */
  lemma WrapIs(key: State, p: seq<u8>, n: nat, s: KeyWrap.Regs, rk: seq<u32>)
    requires n > 0 && |p| == 8 * n && rk == KeySchedule(key)
    requires s.r == p && s.a == [0xa6, 0xa6, 0xa6, 0xa6, 0xa6, 0xa6, 0xa6, 0xa6]
    ensures KeyWrap.Wrap(key, p) == KeyWrap.WrapSteps(rk, s, n, 6 * n).a + KeyWrap.WrapSteps(rk, s, n, 6 * n).r
    ensures KeyWrap.WrapSteps(rk, s, n, 0) == s
  {
    hide KeySchedule;
    hide KeyWrap.WrapSteps;
    assert KeyWrap.WrapSteps(rk, s, n, 0) == s by { FirstSteps(rk, s, n, 0); }
  }

  lemma FirstSteps(rk: seq<u32>, s: KeyWrap.Regs, n: nat, k: nat)
    requires |rk| == 44 && n > 0 && KeyWrap.Fits(s, n)
    ensures KeyWrap.WrapSteps(rk, s, n, 0) == s
    ensures KeyWrap.WrapSteps(rk, s, n, k + 1) == KeyWrap.WrapStep(rk, KeyWrap.WrapSteps(rk, s, n, k), n, k + 1)
  {
    hide KeyWrap.WrapStep;
  }

  // ---- CCMP --------------------------------------------------------------------------------------------------

  lemma SmallPowers()
    ensures Pow2(0) == 1 && Pow2(1) == 2 && Pow2(2) == 4 && Pow2(3) == 8 && Pow2(4) == 16 && Pow2(5) == 32
    ensures Pow2(6) == 64 && Pow2(7) == 128 && Pow2(8) == 256
  {}

  /** The nonce: the priority, the transmitter's address and the packet number, its first byte the most
      significant. */
  lemma NonceIs(h: seq<u8>, pn: nat, i: nat)
    requires (|h| == 24 || |h| == 26) && pn < 0x1_0000_0000_0000
    ensures Ccmp.Nonce(h, pn)[0] == if |h| == 26 then h[24] % 16 else 0
    ensures i < 6 ==> Ccmp.Nonce(h, pn)[1 + i] == h[10 + i]
    ensures Os2ip(Ccmp.Nonce(h, pn)[7..]) == pn
  {
    hide I2osp;
    hide Os2ip;
    hide Bits.And;
    var six: nat := 6;
    assert Ccmp.Nonce(h, pn)[7..] == I2osp(pn, six);
    SixBytes(six);
    Os2ipOfI2osp(pn, six);
    if |h| == 26 { LowNibble(h[24], 4); }
  }

  lemma SixBytes(k: nat)
    requires k == 6
    ensures Pow(256, k) == 0x1_0000_0000_0000
  {
    PowAdd(256, 2, 2);
    PowAdd(256, 4, 2);
    assert Pow(256, 2) == 0x1_0000;
  }

  lemma LowNibble(x: u8, k: nat)
    requires k == 4
    ensures Bits.And(x, 15) == x % 16
  {
    hide Bits.And;
    SmallPowers();
    LowMask(x, k, 16);
  }

  /** The blocks of CBC-MAC and of the counter mode: flags, nonce, and a length or a counter in two bytes. */
  lemma BlocksAre(nonce: seq<u8>, n: nat)
    requires |nonce| == 13 && n < 0x1_0000
    ensures Ccmp.FirstBlock(nonce, n)[0] == 0x59 && Ccmp.FirstBlock(nonce, n)[1..14] == nonce
    ensures (Ccmp.FirstBlock(nonce, n)[14] as int) * 0x100 + Ccmp.FirstBlock(nonce, n)[15] == n
    ensures Ccmp.CounterBlock(nonce, n)[0] == 0x01 && Ccmp.CounterBlock(nonce, n)[1..14] == nonce
    ensures (Ccmp.CounterBlock(nonce, n)[14] as int) * 0x100 + Ccmp.CounterBlock(nonce, n)[15] == n
  {}

  /** CBC-MAC takes a block in by adding it and encrypting. */
  lemma CbcTakes(rk: seq<u32>, mac: State, b: State, rest: seq<u8>)
    requires |rk| == 44
    ensures Ccmp.Cbc(rk, mac, []) == mac
    ensures Ccmp.Cbc(rk, mac, b + rest) == Ccmp.Cbc(rk, Cipher(rk, XorSeq(mac, b)), rest)
  {
    hide Cipher;
    hide XorSeq;
    assert (b + rest)[..16] == b && (b + rest)[16..] == rest;
    assert Ccmp.Padded(b) == b;
  }

  /** A mask's low part and the rest work separately. */
  lemma MaskSplits(x: nat, mask: nat, k: nat, p: nat, h: nat, l: nat, m: nat, o: nat)
    requires p == Pow2(k) && x == h * p + l && l < p && mask == m * p + o && o < p
    ensures Bits.And(x, mask) == Bits.And(l, o) + p * Bits.And(h, m)
  {
    hide *;
    Bits.AndSplit(x, mask, k);
    Bits.ShrIsDiv(x, k, p);
    Bits.ShrIsDiv(mask, k, p);
    DivModUnique(x, h, l, p);
    DivModUnique(mask, m, o, p);
  }

  lemma LowMask(x: nat, n: nat, q: nat)
    requires q == Pow2(n)
    ensures Bits.And(x, q - 1) == x % q
  {
    hide Bits.And;
    hide Bits.LowBits;
    hide Bits.Shr;
    Bits.AndLowOnes(x, n);
    Bits.ShrIsDiv(x, n, q);
  }

  /** A mask of n ones with k zeros below. */
  lemma RunMask(x: nat, k: nat, p: nat, n: nat, q: nat, mask: nat, h: nat, l: nat)
    requires p == Pow2(k) && q == Pow2(n) && mask == (q - 1) * p && x == h * p + l && l < p
    ensures Bits.And(x, mask) == p * (h % q)
  {
    hide *;
    MaskSplits(x, mask, k, p, h, l, q - 1, 0);
    Bits.AndCommutes(l, 0);
    Bits.AndZero(l);
    LowMask(h, n, q);
  }

  /** Which headers are taken: a data frame's type in bits 2 and 3, not both address bits, the protected bit, the
      QoS bit exactly with two bytes more, and a packet number of at most 48 bits that is not 0. */
  lemma TakenIs(h: seq<u8>, pn: nat)
    ensures Ccmp.Taken(h, pn) <==>
      && (|h| == 24 || |h| == 26) && 0 < pn < 0x1_0000_0000_0000
      && h[0] / 4 % 4 == 2 && h[1] % 4 != 3 && h[1] / 64 % 2 == 1 && (|h| == 26 <==> h[0] / 128 == 1)
  {
    hide Bits.And;
    if |h| == 24 || |h| == 26 {
      TypeBits(h[0]);
      FlagBits(h[1]);
    }
  }

  lemma TypeBits(x: u8)
    ensures Bits.And(x, 0x0c) == 4 * (x / 4 % 4) && Bits.And(x, 0x80) == 128 * (x / 128)
  {
    hide Bits.And;
    hide Pow2;
    SmallPowers();
    RunMask(x, 2, 4, 2, 4, 0x0c, x / 4, x % 4);
    RunMask(x, 7, 128, 1, 2, 0x80, x / 128, x % 128);
  }

  lemma FlagBits(x: u8)
    ensures Bits.And(x, 3) == x % 4 && Bits.And(x, 0x40) == 64 * (x / 64 % 2)
  {
    hide Bits.And;
    hide Pow2;
    SmallPowers();
    LowMask(x, 2, 4);
    RunMask(x, 6, 64, 1, 2, 0x40, x / 64, x % 64);
  }

  /** The header as authenticated: its length, the subtype's bits 4 to 6 cleared from the first byte, retry, power
      and more data (and order with QoS) from the second, the three addresses, the fragment number alone, and with
      QoS the priority. */
  lemma AadIs(h: seq<u8>, a: seq<u8>, i: nat)
    requires (|h| == 24 || |h| == 26) && a == Ccmp.Aad(h)
    ensures |a| == 32 && a[0] == 0 && a[1] == (if |h| == 26 then 24 else 22)
    ensures a[2] == h[0] % 16 + 128 * (h[0] / 128)
    ensures a[3] == h[1] % 8 + 64 * (if |h| == 26 then h[1] / 64 % 2 else h[1] / 64)
    ensures 4 <= i < 22 ==> a[i] == h[i]
    ensures a[22] == h[22] % 16 && a[23] == 0 && a[24] == (if |h| == 26 then h[24] % 16 else 0)
    ensures 25 <= i < 32 ==> a[i] == 0
  {
    hide Bits.And;
    AadBits(h[0], h[1]);
    LowNibble(h[22], 4);
    if |h| == 26 { LowNibble(h[24], 4); }
  }

  lemma AadBits(x: u8, y: u8)
    ensures Bits.And(x, 0x8f) == x % 16 + 128 * (x / 128)
    ensures Bits.And(y, 0x47) == y % 8 + 64 * (y / 64 % 2) && Bits.And(y, 0xc7) == y % 8 + 64 * (y / 64)
  {
    hide Bits.And;
    hide Pow2;
    SmallPowers();
    MaskSplits(x, 0x8f, 4, 16, x / 16, x % 16, 8, 15);
    LowMask(x % 16, 4, 16);
    RunMask(x / 16, 3, 8, 1, 2, 8, x / 128, x / 16 % 8);
    MaskSplits(y, 0x47, 3, 8, y / 8, y % 8, 8, 7);
    MaskSplits(y, 0xc7, 3, 8, y / 8, y % 8, 24, 7);
    LowMask(y % 8, 3, 8);
    RunMask(y / 8, 3, 8, 1, 2, 8, y / 64, y / 8 % 8);
    RunMask(y / 8, 3, 8, 2, 4, 24, y / 64, y / 8 % 8);
  }

  /** Block j of CCMP's keystream is the cipher of the counter block for j + 1, and what masks the integrity value is
      that for 0. */
  lemma CcmpStream(rk: seq<u32>, nonce: seq<u8>, n: nat, j: nat, k: nat)
    requires |rk| == 44 && |nonce| == 13 && k < 16 && 16 * j + k < n
    ensures Ccmp.Keystream(rk, nonce, n)[16 * j + k] == Cipher(rk, Ccmp.CounterBlock(nonce, j + 1))[k]
  {
    hide Cipher;
    DivModUnique(16 * j + k, j, k, 16);
  }

  /** The integrity value: the first eight bytes of the CBC-MAC over the first block, the header and the payload, added
      to the cipher of the counter block for 0. */
  lemma MicIs(key: State, rk: seq<u32>, p: Ccmp.Prepared, data: seq<u8>, zero: State, mac: State, mask: State,
      i: nat)
    requires |p.nonce| == 13 && |p.aad| == 32 && i < 8 && forall k :: 0 <= k < 16 ==> zero[k] == 0
    requires |rk| == 44 && rk == KeySchedule(key)
    requires mac == Ccmp.Cbc(rk, zero, Ccmp.FirstBlock(p.nonce, |data|) + p.aad + data)
    requires mask == Cipher(rk, Ccmp.CounterBlock(p.nonce, 0))
    ensures Ccmp.MicOf(key, p, data)[i] == Bits.Xor(mac[i], mask[i])
  {
    hide Cipher;
    hide KeySchedule;
    hide Ccmp.Cbc;
    hide Bits.Xor;
    hide Ccmp.CounterBlock;
    hide Ccmp.FirstBlock;
    assert zero == Ghash.Zeros(16);
  }
}

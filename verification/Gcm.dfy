/** AES-GCM (crypto/aead.c:117-222) against sections 6.5 and 7 of NIST SP 800-38D. */
module Gcm {
  import opened Arith
  import opened Machine
  import opened Bits
  import opened RsaBytes
  import opened Aes
  import opened Streams
  import Ghash

  /** aes_gcm_t, with the static T-tables. */
  datatype Context = Context(te: Tables, rk: seq<u32>, h: Ghash.Table)

  ghost function HashKey(key: State): nat {
    Os2ip(Cipher(KeySchedule(key), Ghash.Zeros(16)))
  }

  ghost predicate Ready(g: Context, key: State) {
    Built(g.te) && g.rk == KeySchedule(key) && Ghash.Tabulates(g.h, HashKey(key))
  }

  /** aes_gcm_init. */
  method Init(key: State) returns (g: Context)
    ensures Ready(g, key)
  {
    hide *;
    var te := BuildTables();
    var rk := Expand(key);
    var zero := Ghash.Zeros(16);
    var h := Encrypt(te, rk, zero);
    var table := Ghash.BuildTable(h);
    g := Context(te, rk, table);
    IsReady(g, key);
  }

  lemma IsReady(g: Context, key: State)
    requires Built(g.te) && g.rk == KeySchedule(key) && Ghash.Tabulates(g.h, Os2ip(Cipher(g.rk, Ghash.Zeros(16))))
    ensures Ready(g, key)
  {
    hide Cipher;
    hide Built;
    hide Ghash.Tabulates;
  }

  // ---- counter mode ----------------------------------------------------------------------------------

  /** The counter block for 32-bit counter c. */
  ghost function CounterBlock(nonce: seq<u8>, c: nat): State
    requires |nonce| == 12
  {
    nonce + I2osp(c, 4)
  }

  /** The first n bytes of the keystream, from counter 2. */
  ghost function Keystream(rk: seq<u32>, nonce: seq<u8>, n: nat): (ks: seq<u8>)
    requires |rk| == 44 && |nonce| == 12
    ensures |ks| == n
  {
    hide Cipher;
    seq(n, i requires 0 <= i < n => Cipher(rk, CounterBlock(nonce, i / 16 + 2))[i % 16])
  }

  lemma Be32(c: u32)
    ensures I2osp(c, 4) == [c / 0x100_0000, c / 0x1_0000 % 0x100, c / 0x100 % 0x100, c % 0x100]
  {
    NestedQuotients(c);
    var q1, q2, q3 := c / 0x100, c / 0x1_0000, c / 0x100_0000;
    assert I2osp(q3 / 0x100, 0) == [];
    assert I2osp(q3, 1) == I2osp(q3 / 0x100, 0) + [q3 % 0x100];
    assert I2osp(q2, 2) == I2osp(q3, 1) + [q2 % 0x100];
    assert I2osp(q1, 3) == I2osp(q2, 2) + [q1 % 0x100];
    assert q3 % 0x100 == q3;
  }

  method PutBe32(c: u32) returns (b: seq<u8>)
    ensures b == I2osp(c, 4)
  {
    hide I2osp;
    Be32(c);
    b := [c / 0x100_0000, c / 0x1_0000 % 0x100, c / 0x100 % 0x100, c % 0x100];
  }

  /** gcm_ctr: the counter never wraps for a length that fits 32 bits. */
  method Ctr(g: Context, key: State, nonce: seq<u8>, buf: array<u8>)
    requires Ready(g, key) && |nonce| == 12 && buf.Length < 0x1_0000_0000
    modifies buf
    ensures buf[..] == XorSeq(old(buf[..]), Keystream(KeySchedule(key), nonce, buf.Length))
  {
    hide Cipher;
    hide KeySchedule;
    hide Built;
    hide Ghash.Tabulates;
    hide HashKey;
    hide Xor8;
    hide I2osp;
    ghost var ks := Keystream(KeySchedule(key), nonce, buf.Length);
    ghost var b0 := buf[..];
    var c: u32 := 2;
    var at := 0;
    while at < buf.Length
      invariant 0 <= at <= buf.Length
      invariant at < buf.Length ==> at == 16 * (c - 2)
      invariant forall k :: 0 <= k < buf.Length ==> buf[k] == if k < at then Xor8(b0[k], ks[k]) else b0[k]
    {
      var be := PutBe32(c);
      var block := Encrypt(g.te, g.rk, nonce + be);
      var n := if buf.Length - at < 16 then buf.Length - at else 16;
      forall k | at <= k < at + n
        ensures ks[k] == block[k - at]
      {
        DivModUnique(k, c - 2, k - at, 16);
      }
      XorAt(buf, at, block, n);
      at := at + n;
      c := c + 1;
    }
  }

  /** Within a message no counter block repeats, and none is the block J0 that masks the tag. */
  lemma CountersDiffer(nonce: seq<u8>, len: nat, i: nat, j: nat)
    requires |nonce| == 12 && len < 0x1_0000_0000 && 16 * i < len && 16 * j < len && i != j
    ensures CounterBlock(nonce, i + 2) != CounterBlock(nonce, j + 2)
    ensures CounterBlock(nonce, i + 2) != CounterBlock(nonce, 1)
  {
    hide I2osp;
    CounterTail(nonce, i + 2);
    CounterTail(nonce, j + 2);
    CounterTail(nonce, 1);
  }

  lemma CounterTail(nonce: seq<u8>, c: u32)
    requires |nonce| == 12
    ensures Os2ip(CounterBlock(nonce, c)[12..]) == c
  {
    Be32(c);
    var b := CounterBlock(nonce, c)[12..];
    assert b == I2osp(c, 4);
    BeWordIsOs2ip(b, 0);
    assert b[0..4] == b;
    StoredIsBeWord(b, 0, c);
  }

  // ---- the tag -----------------------------------------------------------------------------------------

  /** The length block as the code writes it: bit lengths modulo 2^32. */
  ghost function Lengths(a: nat, c: nat): (r: seq<u8>)
    ensures |r| == 16
  {
    I2osp(8 * a % 0x1_0000_0000, 8) + I2osp(8 * c % 0x1_0000_0000, 8)
  }

  /** Section 7.1: GHASH of the padded data and the lengths, masked by the encrypted J0. */
  ghost function TagOf(key: State, nonce: seq<u8>, aad: seq<u8>, ct: seq<u8>): (r: seq<u8>)
    requires |nonce| == 12
    ensures |r| == 16
  {
    hide Cipher;
    hide KeySchedule;
    var s := Ghash.Fold(Ghash.Zeros(16), Ghash.Padded(aad) + Ghash.Padded(ct) + Lengths(|aad|, |ct|), HashKey(key));
    XorSeq(s, Cipher(KeySchedule(key), CounterBlock(nonce, 1)))
  }

  /** The bit lengths are the standard's 64-bit ones exactly when both lengths are below 2^29 bytes. */
  lemma LengthsStandard(a: u32, c: u32)
    ensures Lengths(a, c) == I2osp(8 * a, 8) + I2osp(8 * c, 8) <==> a < 0x2000_0000 && c < 0x2000_0000
  {
    hide I2osp;
    var x, y := I2osp(8 * a, 8), I2osp(8 * c, 8);
    var l := Lengths(a, c);
    assert l[..8] == I2osp(8 * a % 0x1_0000_0000, 8) && l[8..] == I2osp(8 * c % 0x1_0000_0000, 8);
    assert (x + y)[..8] == x && (x + y)[8..] == y;
    EightByteLength(8 * a, 8);
    EightByteLength(8 * c, 8);
    EightByteLength(8 * a % 0x1_0000_0000, 8);
    EightByteLength(8 * c % 0x1_0000_0000, 8);
  }

  lemma EightByteLength(x: nat, n: nat)
    requires x < 0x10_0000_0000 && n == 8
    ensures Os2ip(I2osp(x, n)) == x
  {
    BytesAndBits(256, n);
    Os2ipOfI2osp(x, n);
  }

  lemma BytesAndBits(b: int, n: nat)
    requires b == 256 && n == 8
    ensures Pow(b, n) == 0x1_0000_0000_0000_0000
  {
    EightBytes([0, 0, 0, 0, 0, 0, 0, 0], b);
  }

  lemma FourZeros(x: u32)
    ensures I2osp(x, 8) == [0, 0, 0, 0] + I2osp(x, 4)
  {
    Be32(x);
    hide I2osp;
    EightByteLength(x, 8);
    var b: seq<u8> := [0, 0, 0, 0] + I2osp(x, 4);
    Os2ipZeros(4, b);
    assert b[4..] == I2osp(x, 4);
    EightBytesBack(b, x);
  }

  lemma EightBytesBack(b: seq<u8>, x: u32)
    requires |b| == 8 && b[4..] == I2osp(x, 4) && Os2ip(b) == Os2ip(b[4..])
    ensures b == I2osp(x, 8)
  {
    hide Os2ip;
    hide I2osp;
    Be32(x);
    BeWordIsOs2ip(b, 4);
    assert b[4..8] == b[4..];
    StoredIsBeWord(b, 4, x);
    I2ospOfOs2ip(b);
  }

  /** gcm_tag. */
  method Tag(g: Context, key: State, nonce: seq<u8>, aad: seq<u8>, ct: seq<u8>) returns (tag: seq<u8>)
    requires Ready(g, key) && |nonce| == 12 && |aad| < 0x1_0000_0000 && |ct| < 0x1_0000_0000
    ensures tag == TagOf(key, nonce, aad, ct)
  {
    hide Cipher;
    hide KeySchedule;
    hide Built;
    hide Ghash.Tabulates;
    hide HashKey;
    hide I2osp;
    hide Ghash.Fold;
    hide Ghash.Padded;
    hide XorSeq;
    var y := new u8[16](_ => 0);
    assert y[..] == Ghash.Zeros(16);
    ghost var h := HashKey(key);
    Ghash.GhashUpdate(g.h, h, y, aad);
    Ghash.GhashUpdate(g.h, h, y, ct);
    var al := PutBe32(8 * |aad| % 0x1_0000_0000);
    var cl := PutBe32(8 * |ct| % 0x1_0000_0000);
    FourZeros(8 * |aad| % 0x1_0000_0000);
    FourZeros(8 * |ct| % 0x1_0000_0000);
    var lens: seq<u8> := [0, 0, 0, 0] + al + [0, 0, 0, 0] + cl;
    assert lens == Lengths(|aad|, |ct|);
    Ghash.GhashUpdate(g.h, h, y, lens);
    Joined(Ghash.Zeros(16), aad, ct, lens, h);
    var one := PutBe32(1);
    var j0 := Encrypt(g.te, g.rk, nonce + one);
    tag := XorSeq(y[..], j0);
  }

  /** Three updates hash the padded parts one after the other. */
  lemma Joined(y: seq<u8>, aad: seq<u8>, ct: seq<u8>, lens: seq<u8>, h: nat)
    requires |y| == 16 && |lens| == 16
    ensures Ghash.Fold(y, Ghash.Padded(aad) + Ghash.Padded(ct) + lens, h)
            == Ghash.Fold(Ghash.Fold(Ghash.Fold(y, aad, h), ct, h), lens, h)
  {
    hide Ghash.Fold;
    hide Ghash.Padded;
    var a, c := Ghash.Padded(aad), Ghash.Padded(ct);
    assert a + c + lens == a + (c + lens);
    Ghash.FoldSplit(y, a, c + lens, h);
    Ghash.FoldSplit(Ghash.Fold(y, a, h), c, lens, h);
    Ghash.FoldPadded(y, aad, h);
    Ghash.FoldPadded(Ghash.Fold(y, aad, h), ct, h);
  }

  /** aes_gcm_seal. */
  method Seal(g: Context, key: State, nonce: seq<u8>, aad: seq<u8>, buf: array<u8>) returns (tag: seq<u8>)
    requires Ready(g, key) && |nonce| == 12 && |aad| < 0x1_0000_0000 && buf.Length < 0x1_0000_0000
    modifies buf
    ensures buf[..] == XorSeq(old(buf[..]), Keystream(KeySchedule(key), nonce, buf.Length))
    ensures tag == TagOf(key, nonce, aad, buf[..])
  {
    hide Ready;
    hide XorSeq;
    Ctr(g, key, nonce, buf);
    tag := Tag(g, key, nonce, aad, buf[..]);
  }

  /** aes_gcm_open: decrypted when the tag is right, otherwise -1 and the buffer untouched. */
  method Open(g: Context, key: State, nonce: seq<u8>, aad: seq<u8>, buf: array<u8>, tag: seq<u8>) returns (rc: int)
    requires Ready(g, key) && |nonce| == 12 && |aad| < 0x1_0000_0000 && buf.Length < 0x1_0000_0000 && |tag| == 16
    modifies buf
    ensures rc == if tag == TagOf(key, nonce, aad, old(buf[..])) then 0 else -1
    ensures buf[..] == if rc == 0 then XorSeq(old(buf[..]), Keystream(KeySchedule(key), nonce, buf.Length))
      else old(buf[..])
  {
    hide Ready;
    hide XorSeq;
    hide TagOf;
    var wanted := Tag(g, key, nonce, aad, buf[..]);
    var d := CtMemcmp(wanted, tag);
    if d != 0 {
      return -1;
    }
    Ctr(g, key, nonce, buf);
    rc := 0;
  }

  /** Open after seal: accepted, and the plaintext is back. */
  method SealThenOpen(g: Context, key: State, nonce: seq<u8>, aad: seq<u8>, buf: array<u8>) returns (rc: int)
    requires Ready(g, key) && |nonce| == 12 && |aad| < 0x1_0000_0000 && buf.Length < 0x1_0000_0000
    modifies buf
    ensures rc == 0 && buf[..] == old(buf[..])
  {
    hide Ready;
    hide XorSeq;
    hide TagOf;
    hide Keystream;
    var tag := Seal(g, key, nonce, aad, buf);
    TagSize(key, nonce, aad, buf[..]);
    rc := Open(g, key, nonce, aad, buf, tag);
    KeystreamSize(KeySchedule(key), nonce, buf.Length);
    XorSeqTwice(old(buf[..]), Keystream(KeySchedule(key), nonce, buf.Length));
  }

  lemma TagSize(key: State, nonce: seq<u8>, aad: seq<u8>, ct: seq<u8>)
    requires |nonce| == 12
    ensures |TagOf(key, nonce, aad, ct)| == 16
  {}

  lemma KeystreamSize(rk: seq<u32>, nonce: seq<u8>, n: nat)
    requires |rk| == 44 && |nonce| == 12
    ensures |Keystream(rk, nonce, n)| == n
  {}
}

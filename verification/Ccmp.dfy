/** CCMP (crypto/wifi_crypto.c:170-231): CCM with an 8-byte integrity value and a 2-byte length, section 2
    of RFC 3610, over a data frame's header. */
module Ccmp {
  import opened Arith
  import opened Machine
  import opened Bits
  import opened RsaBytes
  import opened Aes
  import opened Streams
  import Ghash

  datatype Option<T> = None | Some(value: T)

  const TWO48: nat := 0x1_0000_0000_0000

  /** What ccmp_nonce derives from a header and a packet number. */
  datatype Prepared = Prepared(nonce: seq<u8>, aad: seq<u8>)

  /** Which headers are taken: a data frame, 24 bytes or 26 with the QoS bit, not four-address, protected,
      and a packet number between 1 and 2^48 - 1. */
  predicate Taken(h: seq<u8>, pn: nat) {
    && (|h| == 24 || |h| == 26) && 0 < pn < TWO48
    && And(h[0], 0x0c) == 8 && And(h[1], 3) != 3 && And(h[1], 0x40) != 0
    && (|h| == 26 <==> And(h[0], 0x80) != 0)
  }

  function Masked(x: u8, mask: u8): u8 {
    AndBound(x, mask);
    And(x, mask)
  }

  function Tid(h: seq<u8>): u8
    requires |h| == 24 || |h| == 26
  {
    if |h| == 26 then Masked(h[24], 15) else 0
  }

  ghost function Nonce(h: seq<u8>, pn: nat): (n: seq<u8>)
    requires |h| == 24 || |h| == 26
    ensures |n| == 13
  {
    [Tid(h)] + h[10..16] + I2osp(pn, 6)
  }

  /** The authenticated header: its length, the fields that do not change in transit, padded to two blocks. */
  function Aad(h: seq<u8>): (a: seq<u8>)
    requires |h| == 24 || |h| == 26
    ensures |a| == 32
  {
    [0, if |h| == 26 then 24 else 22, Masked(h[0], 0x8f), Masked(h[1], if |h| == 26 then 0x47 else 0xc7)]
    + h[4..22] + [Masked(h[22], 15), 0] + [Tid(h)] + Ghash.Zeros(7)
  }

  /** ccmp_nonce. */
  method Prepare(h: seq<u8>, pn: nat) returns (r: Option<Prepared>)
    requires pn < 0x1_0000_0000_0000_0000
    ensures r == if Taken(h, pn) then Some(Prepared(Nonce(h, pn), Aad(h))) else None
  {
    hide And;
    hide I2osp;
    hide Masked;
    if (|h| != 24 && |h| != 26) || pn == 0 || pn >= TWO48 {
      return None;
    }
    if And(h[0], 0x0c) != 8 || And(h[1], 3) == 3 || And(h[1], 0x40) == 0 || (|h| == 26) != (And(h[0], 0x80) != 0) {
      return None;
    }
    var number := PacketNumber(pn);
    var tid, aad := Header(h);
    r := Some(Prepared([tid] + h[10..16] + number, aad));
  }

  /** The traffic identifier and the header as authenticated, field by field. */
  method Header(h: seq<u8>) returns (tid: u8, a: seq<u8>)
    requires |h| == 24 || |h| == 26
    ensures tid == Tid(h) && a == Aad(h)
  {
    hide And;
    hide Masked;
    tid := if |h| == 26 then Masked(h[24], 15) else 0;
    var aad := new u8[32](_ => 0);
    aad[1] := if |h| == 26 then 24 else 22;
    aad[2] := Masked(h[0], 0x8f);
    aad[3] := Masked(h[1], if |h| == 26 then 0x47 else 0xc7);
    forall k | 4 <= k < 22 { aad[k] := h[k]; }
    aad[22] := Masked(h[22], 15);
    if |h| == 26 { aad[24] := tid; }
    a := aad[..];
    assert a == Aad(h);
  }

  /** The packet number's six bytes, the most significant first. */
  method PacketNumber(pn: nat) returns (b: seq<u8>)
    ensures b == I2osp(pn, 6)
  {
    hide I2osp;
    hide Pow;
    var r := new u8[6];
    var i := 0;
    while i < 6
      invariant 0 <= i <= 6
      invariant forall k :: 0 <= k < i ==> r[k] == I2osp(pn, 6)[k]
    {
      PowPositive(0x100, 5 - i);
      I2ospByte(pn, 6, i, Pow(0x100, 5 - i));
      var p := ShiftOf(i);
      r[i] := pn / p % 0x100;
      i := i + 1;
    }
    b := r[..];
  }

  /** 2^(40 - 8i). */
  function ShiftOf(i: nat): (p: nat)
    requires i < 6
    ensures p > 0 && p == Pow(0x100, 5 - i)
  {
    PowPositive(0x100, 5 - i);
    Pow(0x100, 5 - i)
  }

  /** Different packet numbers give different nonces. */
  lemma NoncesDiffer(h: seq<u8>, pn: nat, pn': nat)
    requires Taken(h, pn) && Taken(h, pn') && pn != pn'
    ensures Nonce(h, pn) != Nonce(h, pn')
  {
    hide And;
    hide I2osp;
    var b: nat, e: nat := 256, 6;
    SixBytes(b, e);
    Os2ipOfI2osp(pn, 6);
    Os2ipOfI2osp(pn', 6);
    assert Nonce(h, pn)[7..] == I2osp(pn, 6) && Nonce(h, pn')[7..] == I2osp(pn', 6);
  }

  lemma SixBytes(b: int, e: nat)
    requires b == 256 && e == 6
    ensures Pow(b, e) == TWO48
  {
    assert Pow(b, 0) == 1;
    assert Pow(b, 1) == b * Pow(b, 0);
    assert Pow(b, 2) == b * Pow(b, 1);
    assert Pow(b, 3) == b * Pow(b, 2);
    assert Pow(b, 4) == b * Pow(b, 3);
    assert Pow(b, 5) == b * Pow(b, 4);
  }

  // ---- CBC-MAC -------------------------------------------------------------------------------------------

  function Padded(b: seq<u8>): (r: State)
    requires |b| <= 16
  {
    b + Ghash.Zeros(16 - |b|)
  }

  /** Block by block: add, then encrypt; a short last block counts as its zero padding. */
  ghost function Cbc(rk: seq<u32>, mac: State, data: seq<u8>): State
    requires |rk| == 44
    decreases |data|
  {
    hide Cipher;
    if |data| == 0 then mac
    else
      var n := if |data| < 16 then |data| else 16;
      Cbc(rk, Cipher(rk, XorSeq(mac, Padded(data[..n]))), data[n..])
  }

  /** B_0: flags, nonce and the length in two bytes. */
  function FirstBlock(nonce: seq<u8>, n: nat): State
    requires |nonce| == 13
  {
    [0x59] + nonce + [n / 0x100 % 0x100, n % 0x100]
  }

  /** The integrity value before encryption: CBC-MAC over B_0, the header and the payload. */
  ghost function MacOf(rk: seq<u32>, p: Prepared, data: seq<u8>): State
    requires |rk| == 44 && |p.nonce| == 13 && |p.aad| == 32
  {
    Cbc(rk, Ghash.Zeros(16), FirstBlock(p.nonce, |data|) + p.aad + data)
  }

  /** cbc. */
  method CbcStep(te: Tables, rk: seq<u32>, mac: State, b: State) returns (r: State)
    requires Built(te) && |rk| == 44
    ensures r == Cipher(rk, XorSeq(mac, b))
  {
    hide Cipher;
    hide Built;
    hide XorSeq;
    var x := XorSeq(mac, b);
    XorSize(mac, b);
    r := Encrypt(te, rk, x);
  }

  lemma XorSize(a: seq<u8>, b: seq<u8>)
    requires |a| == |b|
    ensures |XorSeq(a, b)| == |a|
  {}

  lemma FullBlock(rk: seq<u32>, mac: State, b: State, rest: seq<u8>)
    requires |rk| == 44
    ensures Cbc(rk, mac, b + rest) == Cbc(rk, Cipher(rk, XorSeq(mac, b)), rest)
  {
    hide Cipher;
    hide XorSeq;
    XorSize(mac, b);
    assert (b + rest)[..16] == b && (b + rest)[16..] == rest && Padded(b) == b;
  }

  /** ccmp_mac. */
  method Mac(te: Tables, rk: seq<u32>, p: Prepared, data: seq<u8>) returns (mac: State)
    requires Built(te) && |rk| == 44 && |p.nonce| == 13 && |p.aad| == 32 && |data| <= 2304
    ensures mac == MacOf(rk, p, data)
  {
    hide Cipher;
    hide Built;
    hide XorSeq;
    var b0 := FirstBlock(p.nonce, |data|);
    var zero := Ghash.Zeros(16);
    ghost var whole := b0 + p.aad + data;
    assert whole == b0 + (p.aad[..16] + (p.aad[16..] + data));
    FullBlock(rk, zero, b0, p.aad[..16] + (p.aad[16..] + data));
    mac := CbcStep(te, rk, zero, b0);
    FullBlock(rk, mac, p.aad[..16], p.aad[16..] + data);
    mac := CbcStep(te, rk, mac, p.aad[..16]);
    FullBlock(rk, mac, p.aad[16..], data);
    mac := CbcStep(te, rk, mac, p.aad[16..]);
    var at := 0;
    assert data[0..] == data;
    while at < |data|
      invariant 0 <= at <= |data|
      invariant Cbc(rk, mac, data[at..]) == MacOf(rk, p, data)
    {
      var take := if |data| - at < 16 then |data| - at else 16;
      assert data[at..][..take] == data[at..at + take] && data[at..][take..] == data[at + take..];
      mac := CbcStep(te, rk, mac, Padded(data[at..at + take]));
      at := at + take;
    }
  }

  // ---- counter mode -----------------------------------------------------------------------------------------

  /** A_i. */
  function CounterBlock(nonce: seq<u8>, i: nat): State
    requires |nonce| == 13
  {
    [1] + nonce + [i / 0x100 % 0x100, i % 0x100]
  }

  ghost function Keystream(rk: seq<u32>, nonce: seq<u8>, n: nat): (ks: seq<u8>)
    requires |rk| == 44 && |nonce| == 13
    ensures |ks| == n
  {
    hide Cipher;
    seq(n, i requires 0 <= i < n => Cipher(rk, CounterBlock(nonce, i / 16 + 1))[i % 16])
  }

  /** ccmp_ctr: the stream from counter 1 on, and the block for counter 0. */
  method Ctr(te: Tables, rk: seq<u32>, nonce: seq<u8>, data: array<u8>) returns (s0: State)
    requires Built(te) && |rk| == 44 && |nonce| == 13 && data.Length <= 2304
    modifies data
    ensures s0 == Cipher(rk, CounterBlock(nonce, 0))
    ensures data[..] == XorSeq(old(data[..]), Keystream(rk, nonce, data.Length))
  {
    hide Cipher;
    hide Built;
    hide Xor8;
    s0 := Encrypt(te, rk, CounterBlock(nonce, 0));
    ghost var ks := Keystream(rk, nonce, data.Length);
    ghost var b0 := data[..];
    var count, at := 1, 0;
    while at < data.Length
      invariant 0 <= at <= data.Length
      invariant at < data.Length ==> at == 16 * (count - 1)
      invariant forall k :: 0 <= k < data.Length ==> data[k] == if k < at then Xor8(b0[k], ks[k]) else b0[k]
    {
      var stream := Encrypt(te, rk, CounterBlock(nonce, count));
      var take := if data.Length - at < 16 then data.Length - at else 16;
      forall k | at <= k < at + take
        ensures ks[k] == stream[k - at]
      {
        DivModUnique(k, count - 1, k - at, 16);
      }
      XorAt(data, at, stream, take);
      at := at + take;
      count := count + 1;
    }
  }

  /** Within a message no counter block repeats, none is the one that masks the integrity value, and none
      is the first block of the CBC-MAC. */
  lemma CountersDiffer(nonce: seq<u8>, i: nat, j: nat, n: nat)
    requires |nonce| == 13 && 0 < i <= 144 && 0 < j <= 144 && i != j
    ensures CounterBlock(nonce, i) != CounterBlock(nonce, j) && CounterBlock(nonce, i) != CounterBlock(nonce, 0)
    ensures CounterBlock(nonce, i) != FirstBlock(nonce, n)
  {
    assert CounterBlock(nonce, i)[15] == i && CounterBlock(nonce, j)[15] == j && CounterBlock(nonce, 0)[15] == 0;
    assert CounterBlock(nonce, i)[0] == 1 && FirstBlock(nonce, n)[0] == 0x59;
  }

  // ---- seal and open -------------------------------------------------------------------------------------------

  /** The eight bytes sent: the CBC-MAC masked by S_0. */
  ghost function MicOf(key: State, p: Prepared, data: seq<u8>): (m: seq<u8>)
    requires |p.nonce| == 13 && |p.aad| == 32
    ensures |m| == 8
  {
    hide Cipher;
    hide KeySchedule;
    hide MacOf;
    var rk := KeySchedule(key);
    XorSeq(MacOf(rk, p, data)[..8], Cipher(rk, CounterBlock(p.nonce, 0))[..8])
  }

  /** wifi_ccmp_seal. */
  method Seal(te: Tables, key: State, h: seq<u8>, pn: nat, data: array<u8>) returns (rc: int, mic: seq<u8>)
    requires Built(te) && pn < 0x1_0000_0000_0000_0000
    modifies data
    ensures rc == if data.Length <= 2304 && Taken(h, pn) then 0 else -1
    ensures rc == -1 ==> data[..] == old(data[..])
    ensures rc == 0 ==>
      && mic == MicOf(key, Prepared(Nonce(h, pn), Aad(h)), old(data[..]))
      && data[..] == XorSeq(old(data[..]), Keystream(KeySchedule(key), Nonce(h, pn), data.Length))
  {
    hide Cipher;
    hide Built;
    hide KeySchedule;
    hide MacOf;
    hide XorSeq;
    hide Keystream;
    hide And;
    mic := [];
    if data.Length > 2304 {
      return -1, [];
    }
    var p := Prepare(h, pn);
    if p.None? {
      return -1, [];
    }
    var rk := Expand(key);
    var mac := Mac(te, rk, p.value, data[..]);
    var s0 := Ctr(te, rk, p.value.nonce, data);
    mic := XorSeq(mac[..8], s0[..8]);
    rc := 0;
  }

  /** wifi_ccmp_open: the payload when the integrity value is right; -1 and a wiped payload when it is not. */
  method Open(te: Tables, key: State, h: seq<u8>, pn: nat, data: array<u8>, mic: seq<u8>) returns (rc: int)
    requires Built(te) && pn < 0x1_0000_0000_0000_0000 && |mic| == 8
    modifies data
    ensures !(data.Length <= 2304 && Taken(h, pn)) ==> rc == -1 && data[..] == old(data[..])
    ensures data.Length <= 2304 && Taken(h, pn) ==>
      (var p := Prepared(Nonce(h, pn), Aad(h));
       var plain := XorSeq(old(data[..]), Keystream(KeySchedule(key), p.nonce, data.Length));
       if mic == MicOf(key, p, plain) then rc == 0 && data[..] == plain
       else rc == -1 && forall k :: 0 <= k < data.Length ==> data[k] == 0)
  {
    hide Cipher;
    hide Built;
    hide KeySchedule;
    hide MacOf;
    hide XorSeq;
    hide Keystream;
    hide And;
    if data.Length > 2304 {
      return -1;
    }
    var p := Prepare(h, pn);
    if p.None? {
      return -1;
    }
    var rk := Expand(key);
    var s0 := Ctr(te, rk, p.value.nonce, data);
    var mac := Mac(te, rk, p.value, data[..]);
    XorSize(mac[..8], s0[..8]);
    var bad := CtMemcmp(XorSeq(mac[..8], s0[..8]), mic);
    if bad != 0 {
      forall k | 0 <= k < data.Length { data[k] := 0; }
      return -1;
    }
    rc := 0;
  }

  /** Open after seal gives the payload back, on every header that is taken. */
  method SealThenOpen(te: Tables, key: State, h: seq<u8>, pn: nat, data: array<u8>) returns (rc: int)
    requires Built(te) && data.Length <= 2304 && Taken(h, pn)
    modifies data
    ensures rc == 0 && data[..] == old(data[..])
  {
    hide Built;
    hide KeySchedule;
    hide MicOf;
    hide XorSeq;
    hide Keystream;
    hide And;
    var rc0, mic := Seal(te, key, h, pn, data);
    MicSize(key, Prepared(Nonce(h, pn), Aad(h)), old(data[..]));
    KeystreamSize(KeySchedule(key), Nonce(h, pn), data.Length);
    XorSeqTwice(old(data[..]), Keystream(KeySchedule(key), Nonce(h, pn), data.Length));
    rc := Open(te, key, h, pn, data, mic);
  }

  lemma MicSize(key: State, p: Prepared, data: seq<u8>)
    requires |p.nonce| == 13 && |p.aad| == 32
    ensures |MicOf(key, p, data)| == 8
  {}

  lemma KeystreamSize(rk: seq<u32>, nonce: seq<u8>, n: nat)
    requires |rk| == 44 && |nonce| == 13
    ensures |Keystream(rk, nonce, n)| == n
  {}
}

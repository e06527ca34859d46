/** What the three authenticated ciphers share: adding a keystream in place, and comparing tags. */
module Streams {
  import opened Arith
  import opened Machine
  import opened Bits
  import opened AesField

  /** Bytes added one by one. */
  function XorSeq(a: seq<u8>, b: seq<u8>): (r: seq<u8>)
    requires |a| == |b|
    ensures |r| == |a|
  {
    seq(|a|, i requires 0 <= i < |a| => Xor8(a[i], b[i]))
  }

  /** Adding the same keystream again takes it away. */
  lemma XorSeqTwice(a: seq<u8>, b: seq<u8>)
    requires |a| == |b|
    ensures XorSeq(XorSeq(a, b), b) == a
  {
    hide Xor8;
    forall i | 0 <= i < |a|
      ensures Xor8(Xor8(a[i], b[i]), b[i]) == a[i]
    {
      AssocBytes(a[i], b[i], b[i]);
      SelfBytes(b[i]);
      ZeroRight(a[i]);
    }
  }

  /** The inner loop of a keystream: the first n bytes of a block added at `at`. */
  method XorAt(buf: array<u8>, at: nat, ks: seq<u8>, n: nat)
    requires at + n <= buf.Length && n <= |ks|
    modifies buf
    ensures forall k :: 0 <= k < buf.Length ==>
      buf[k] == if at <= k < at + n then Xor8(old(buf[k]), ks[k - at]) else old(buf[k])
  {
    hide Xor8;
    var i := 0;
    while i < n
      invariant 0 <= i <= n
      invariant forall k :: 0 <= k < buf.Length ==>
        buf[k] == if at <= k < at + i then Xor8(old(buf[k]), ks[k - at]) else old(buf[k])
    {
      buf[at + i] := Xor8(buf[at + i], ks[i]);
      i := i + 1;
    }
  }

  lemma OrNothing(x: nat, y: nat)
    ensures Or(x, y) == 0 <==> x == 0 && y == 0
  {
    AndBound(x, y);
  }

  lemma OrByte(x: u8, y: u8)
    ensures Or(x, y) < 0x100
  {
    hide And;
    assert Pow2(8) == 0x100;
    OrBound(x, y, 8);
  }

  lemma SameByte(x: u8, y: u8)
    ensures Xor8(x, y) == 0 <==> x == y
  {
    hide Xor;
    XorTwice(x, y);
    XorZero(x);
    XorSelf(x);
  }

  /** ct_memcmp: zero exactly when the two agree everywhere. */
  method CtMemcmp(x: seq<u8>, y: seq<u8>) returns (d: u8)
    requires |x| == |y|
    ensures d == 0 <==> x == y
  {
    hide Xor8;
    hide Or;
    d := 0;
    var i := 0;
    while i < |x|
      invariant 0 <= i <= |x|
      invariant d == 0 <==> x[..i] == y[..i]
    {
      OrNothing(d, Xor8(x[i], y[i]));
      OrByte(d, Xor8(x[i], y[i]));
      SameByte(x[i], y[i]);
      assert x[..i + 1] == x[..i] + [x[i]] && y[..i + 1] == y[..i] + [y[i]];
      d := Or(d, Xor8(x[i], y[i]));
      i := i + 1;
    }
    assert x[..|x|] == x && y[..|y|] == y;
  }
}

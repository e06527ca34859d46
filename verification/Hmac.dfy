/** HMAC, HKDF and PBKDF2 over SHA-256 (crypto/sha256.c:93-189) against section 2 of RFC 2104, section 2.3
    of RFC 5869 and section 5.2 of RFC 8018. */
module Hmac {
  import opened Arith
  import opened Machine
  import opened Bits
  import opened Streams
  import opened Sha256

  // ---- HMAC ----------------------------------------------------------------------------------------------

  /** The key brought to one block: hashed when longer, then padded with zeros. */
  ghost function BlockKey(key: seq<u8>): Block {
    hide Digest;
    if |key| > 64 then Digest(key) + Zeros(32) else key + Zeros(64 - |key|)
  }

  function Mask(k: Block, x: u8): Block {
    seq(64, i requires 0 <= i < 64 => Xor8(k[i], x))
  }

  /** H((K xor opad) || H((K xor ipad) || message)). */
  ghost function HmacOf(key: seq<u8>, m: seq<u8>): (r: seq<u8>)
    ensures |r| == 32
  {
    hide Digest;
    hide BlockKey;
    Digest(Mask(BlockKey(key), 0x5c) + Digest(Mask(BlockKey(key), 0x36) + m))
  }

  /** hmac_sha256_ctx_t. */
  class HmacContext {
    const inner: Context
    const outer: Context
    ghost var key: seq<u8>
    ghost var fed: seq<u8>

    ghost predicate Valid()
      reads this, inner, outer
    {
      && inner != outer && inner.Valid() && outer.Valid()
      && inner.fed == Mask(BlockKey(key), 0x36) + fed && outer.fed == Mask(BlockKey(key), 0x5c)
    }

    /** hmac_sha256_init. */
    constructor (k: seq<u8>)
      ensures Valid() && key == k && fed == [] && fresh(inner) && fresh(outer)
    {
      hide Digest;
      hide Mask;
      hide Context.Valid;
      var block := KeyBlock(k);
      var i := new Context();
      i.Update(Mask(block, 0x36));
      var o := new Context();
      o.Update(Mask(block, 0x5c));
      inner, outer, key, fed := i, o, k, [];
      new;
      assert [] + Mask(block, 0x36) == Mask(block, 0x36) + [];
      assert [] + Mask(block, 0x5c) == Mask(block, 0x5c);
    }

    /** A new context that continues from another one's state. */
    constructor Copy(o: HmacContext)
      requires o.Valid()
      ensures Valid() && key == o.key && fed == o.fed && fresh(inner) && fresh(outer)
    {
      hide Context.Valid;
      var a := new Context();
      a.CopyFrom(o.inner);
      var b := new Context();
      b.CopyFrom(o.outer);
      inner, outer, key, fed := a, b, o.key, o.fed;
    }

    /** hmac_sha256_update. */
    method Update(m: seq<u8>)
      requires Valid()
      modifies this`fed, inner
      ensures Valid() && key == old(key) && fed == old(fed) + m
    {
      hide Context.Valid;
      hide Mask;
      hide BlockKey;
      inner.Update(m);
      assert Mask(BlockKey(key), 0x36) + fed + m == Mask(BlockKey(key), 0x36) + (fed + m);
      fed := fed + m;
    }

    /** hmac_sha256_final. */
    method Final() returns (out: seq<u8>)
      requires Valid()
      modifies inner, outer
      ensures out == HmacOf(key, fed)
    {
      hide Context.Valid;
      hide Mask;
      hide BlockKey;
      hide Digest;
      var ih := inner.Final();
      outer.Update(ih);
      out := outer.Final();
    }
  }

  method KeyBlock(k: seq<u8>) returns (b: Block)
    ensures b == BlockKey(k)
  {
    hide Digest;
    if |k| > 64 {
      var d := Sha256Of(k);
      b := d + Zeros(32);
    } else {
      b := k + Zeros(64 - |k|);
    }
  }

  /** hmac_sha256. */
  method HmacSha256(key: seq<u8>, m: seq<u8>) returns (out: seq<u8>)
    ensures out == HmacOf(key, m)
  {
    hide HmacOf;
    hide HmacContext.Valid;
    var c := new HmacContext(key);
    c.Update(m);
    assert [] + m == m;
    out := c.Final();
  }

  // ---- HKDF -----------------------------------------------------------------------------------------------

  /** T(n) of section 2.3, T(0) empty; the counter is one byte. */
  ghost function Output(prk: seq<u8>, info: seq<u8>, n: nat): (t: seq<u8>)
    ensures |t| == if n == 0 then 0 else 32
  {
    hide HmacOf;
    if n == 0 then [] else HmacOf(prk, Output(prk, info, n - 1) + info + [n % 0x100])
  }

  /** T(1) | T(2) | ... | T(n). */
  ghost function Outputs(prk: seq<u8>, info: seq<u8>, n: nat): (t: seq<u8>)
    ensures |t| == 32 * n
  {
    hide Output;
    if n == 0 then [] else Outputs(prk, info, n - 1) + Output(prk, info, n)
  }

  /** One output from the one before. */
  method NextOutput(prk: seq<u8>, info: seq<u8>, t: seq<u8>, counter: u8, ghost n: nat) returns (r: seq<u8>)
    requires t == Output(prk, info, n) && counter == (n + 1) % 0x100
    ensures r == Output(prk, info, n + 1)
  {
    hide HmacOf;
    hide HmacContext.Valid;
    var c := new HmacContext(prk);
    c.Update(t);
    c.Update(info);
    c.Update([counter]);
    assert c.fed == t + info + [counter];
    r := c.Final();
  }

  /** How many outputs len bytes take. */
  lemma OutputsNeeded(len: nat, n: nat)
    requires len <= 32 * n && (n > 0 ==> 32 * (n - 1) < len)
    ensures (len + 31) / 32 == n
  {
    DivModUnique(len + 31, n, len + 31 - 32 * n, 32);
  }

  lemma CounterNext(n: nat, counter: u8)
    requires counter == n % 0x100
    ensures (counter + 1) % 0x100 == (n + 1) % 0x100
  {
    ModMod(n, 0x100);
    CongAdd(n % 0x100, n, 1, 1, 0x100);
  }

  /** hkdf_expand: the first len bytes of the outputs. */
  method HkdfExpand(prk: seq<u8>, info: seq<u8>, len: nat) returns (out: seq<u8>)
    requires |prk| == 32
    ensures out == Outputs(prk, info, (len + 31) / 32)[..len]
  {
    hide HmacOf;
    hide Output;
    out := [];
    var t: seq<u8> := [];
    NoOutput(prk, info);
    var counter: u8 := 1;
    ghost var n: nat := 0;
    while |out| < len
      invariant |out| <= len && counter == (n + 1) % 0x100 && t == Output(prk, info, n)
      invariant |out| == (if 32 * n <= len then 32 * n else len) && (n > 0 ==> 32 * (n - 1) < len)
      invariant out == Outputs(prk, info, n)[..|out|]
      decreases len - |out|
    {
      t := NextOutput(prk, info, t, counter, n);
      CounterNext(n + 1, counter);
      counter := (counter + 1) % 0x100;
      var take := if len - |out| < 32 then len - |out| else 32;
      assert Outputs(prk, info, n + 1) == Outputs(prk, info, n) + t;
      n := n + 1;
      out := out + t[..take];
    }
    OutputsNeeded(len, n);
  }

  lemma NoOutput(prk: seq<u8>, info: seq<u8>)
    ensures Output(prk, info, 0) == [] && Outputs(prk, info, 0) == []
  {}

  // ---- PBKDF2 -----------------------------------------------------------------------------------------------

  /** U_n of section 5.2 for the first block. */
  ghost function Iterate(pw: seq<u8>, salt: seq<u8>, n: nat): (u: seq<u8>)
    requires n > 0
    ensures |u| == 32
  {
    hide HmacOf;
    if n == 1 then HmacOf(pw, salt + [0, 0, 0, 1]) else HmacOf(pw, Iterate(pw, salt, n - 1))
  }

  /** U_1 xor ... xor U_n. */
  ghost function Derived(pw: seq<u8>, salt: seq<u8>, n: nat): (t: seq<u8>)
    requires n > 0
    ensures |t| == 32
  {
    hide Iterate;
    if n == 1 then Iterate(pw, salt, 1) else XorSeq(Derived(pw, salt, n - 1), Iterate(pw, salt, n))
  }

  /** pbkdf2_sha256: copying the keyed state each time gives what fresh HMACs would. No iteration counts as one. */
  method Pbkdf2(pw: seq<u8>, salt: seq<u8>, iterations: nat) returns (out: seq<u8>)
    ensures out == Derived(pw, salt, if iterations == 0 then 1 else iterations)
  {
    hide HmacOf;
    hide HmacContext.Valid;
    hide XorSeq;
    var base := new HmacContext(pw);
    var c := new HmacContext.Copy(base);
    c.Update(salt);
    c.Update([0, 0, 0, 1]);
    assert [] + salt + [0, 0, 0, 1] == salt + [0, 0, 0, 1];
    var u := c.Final();
    out := u;
    var i := 1;
    while i < iterations
      invariant 1 <= i && (iterations > 0 ==> i <= iterations) && (iterations == 0 ==> i == 1)
      invariant base.Valid() && base.key == pw && base.fed == []
      invariant u == Iterate(pw, salt, i) && out == Derived(pw, salt, i)
    {
      c := new HmacContext.Copy(base);
      c.Update(u);
      assert [] + u == u;
      u := c.Final();
      i := i + 1;
      out := XorSeq(out, u);
    }
  }
}

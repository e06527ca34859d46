/** The message authentication codes as their standards write them: the bit-serial product of section 6.3 of NIST SP
    800-38D as a run of 128 steps, Poly1305 as a run over blocks (section 2.5 of RFC 8439), HMAC with its two pads
    (section 2 of RFC 2104), HKDF and PBKDF2 (crypto/aead.c:111-346, crypto/sha256.c:93-189). */
module MacLaws {
  import opened Arith
  import opened Machine
  import opened RsaBytes
  import Bits
  import Ghash
  import Poly1305
  import Sha256
  import Hmac

  // ---- GHASH -------------------------------------------------------------------------------------------------

  /** V_0 .. V_128 and Z_0 .. Z_128 of section 6.3: V is halved, and reduced by 11100001 || 0^120 where a one falls
      off; Z takes V up where the block has a one, its first bit first. */
  ghost predicate Runs(x: seq<u8>, h: nat, v: seq<nat>, z: seq<nat>) {
    && |x| == 16 && |v| == 129 && |z| == 129 && v[0] == h && z[0] == 0
    && (forall i :: 0 <= i < 128 ==>
          v[i + 1] == if v[i] % 2 == 0 then v[i] / 2
                      else Bits.Xor(v[i] / 2, 0xe100_0000_0000_0000_0000_0000_0000_0000))
    && (forall i :: 0 <= i < 128 ==>
          z[i + 1] == if x[i / 8] / Pow2(7 - i % 8) % 2 == 1 then Bits.Xor(z[i], v[i]) else z[i])
  }

  lemma {:induction false} SerialRuns(x: seq<u8>, h: nat, v: seq<nat>, z: seq<nat>, i: nat)
    requires Runs(x, h, v, z) && i <= 128
    ensures Bits.Xor(z[i], Ghash.Serial(x, i, v[i])) == z[128]
    decreases 128 - i
  {
    hide Bits.Xor;
    if i == 128 {
      Bits.XorZero(z[i]);
    } else {
      var rest := Ghash.Serial(x, i + 1, v[i + 1]);
      SerialRuns(x, h, v, z, i + 1);
      Bits.XorAssoc(z[i], v[i], rest);
      Bits.XorCommutes(0, rest);
      Bits.XorZero(rest);
    }
  }

  /** The product is what the standard's 128 steps end in. */
  lemma ProductRuns(x: seq<u8>, h: nat, v: seq<nat>, z: seq<nat>)
    requires |x| == 16 && |v| == 129 && |z| == 129 && v[0] == h && z[0] == 0
    requires forall i :: 0 <= i < 128 ==>
      v[i + 1] == if v[i] % 2 == 0 then v[i] / 2 else Bits.Xor(v[i] / 2, 0xe100_0000_0000_0000_0000_0000_0000_0000)
    requires forall i :: 0 <= i < 128 ==>
      z[i + 1] == if x[i / 8] / Pow2(7 - i % 8) % 2 == 1 then Bits.Xor(z[i], v[i]) else z[i]
    ensures Ghash.Product(x, h) == z[128]
  {
    hide Bits.Xor;
    hide Ghash.Serial;
    SerialRuns(x, h, v, z, 0);
    var p := Ghash.Serial(x, 0, h);
    Bits.XorCommutes(0, p);
    Bits.XorZero(p);
  }

  /** GHASH takes a block in by adding it and multiplying by H. */
  lemma FoldTakes(y: seq<u8>, b: seq<u8>, rest: seq<u8>, h: nat, x: seq<u8>)
    requires |y| == 16 && |b| == 16 && |x| == 16 && forall i :: 0 <= i < 16 ==> x[i] == Bits.Xor(y[i], b[i])
    ensures Ghash.Fold(y, [], h) == y
    ensures Ghash.Fold(y, b + rest, h) == Ghash.Fold(I2osp(Ghash.Product(x, h), 16), rest, h)
  {
    hide Bits.Xor;
    hide Ghash.Product;
    hide I2osp;
    assert (b + rest)[..16] == b && (b + rest)[16..] == rest;
    assert x == Ghash.Added(y, b);
  }

  // ---- Poly1305 ----------------------------------------------------------------------------------------------

  lemma AccTakes(a: int, r: int, b: seq<u8>, rest: seq<u8>)
    requires |b| == 16
    ensures Poly1305.Acc(a, r, b + rest)
         == Poly1305.Acc(((a + Le(b) + 0x1_0000_0000_0000_0000_0000_0000_0000_0000) * r)
                         % 0x3_ffff_ffff_ffff_ffff_ffff_ffff_ffff_fffb, r, rest)
    ensures Poly1305.Acc(a, r, []) == a
  {
    hide Le;
    SixteenBytes();
    if |rest| == 0 {
      assert b + rest == b;
    } else {
      assert (b + rest)[..16] == b && (b + rest)[16..] == rest;
    }
  }

  lemma SixteenBytes()
    ensures Pow(0x100, 16) == 0x1_0000_0000_0000_0000_0000_0000_0000_0000
  {
    PowAdd(0x100, 2, 2);
    PowAdd(0x100, 4, 4);
    PowAdd(0x100, 8, 8);
    assert Pow(0x100, 2) == 0x1_0000;
  }

  /** A last block of fewer than sixteen bytes has its one bit just above it. */
  lemma AccEnds(a: int, r: int, b: seq<u8>)
    requires 0 < |b| <= 16
    ensures Poly1305.Acc(a, r, b) == ((a + Le(b) + Pow(0x100, |b|)) * r) % 0x3_ffff_ffff_ffff_ffff_ffff_ffff_ffff_fffb
  {
    hide Le;
    hide Pow;
  }

  /** The tag: from zero under the clamped first half of the key, with the second half added modulo 2^128. */
  lemma TagFrom(key: seq<u8>, msg: seq<u8>, low: nat, r: int)
    requires |key| == 32 && low == Le(key[..16])
    requires r == Bits.And(low, 0x0fff_fffc_0fff_fffc_0fff_fffc_0fff_ffff)
    ensures Poly1305.Tag(key, msg)
         == (Poly1305.Acc(0, r, msg) + Le(key[16..])) % 0x1_0000_0000_0000_0000_0000_0000_0000_0000
  {
    hide Le;
    hide Poly1305.Acc;
    hide Bits.And;
  }

  // ---- HMAC, HKDF and PBKDF2 ---------------------------------------------------------------------------------

  /** HMAC: a key of up to a block padded with zeros, a longer one its digest so padded; the inner pad is 0x36, the
      outer 0x5c. */
  lemma HmacPads(key: seq<u8>, m: seq<u8>, k: seq<u8>, inner: seq<u8>, outer: seq<u8>)
    requires |k| == 64 && |inner| == 64 && |outer| == 64
    requires var short := if |key| <= 64 then key else Sha256.Digest(key);
             && |short| <= 64 && k[..|short|] == short && forall i :: |short| <= i < 64 ==> k[i] == 0
    requires forall i :: 0 <= i < 64 ==> inner[i] == Bits.Xor(k[i], 0x36) && outer[i] == Bits.Xor(k[i], 0x5c)
    ensures Hmac.HmacOf(key, m) == Sha256.Digest(outer + Sha256.Digest(inner + m))
  {
    hide Bits.Xor;
    hide Sha256.Digest;
    assert k == Hmac.BlockKey(key);
    assert inner == Hmac.Mask(k, 0x36) && outer == Hmac.Mask(k, 0x5c);
  }

  /** HKDF-Expand: T(0) is empty, T(n) is HMAC of T(n - 1), the information and the byte n; they are joined in
      order. */
  lemma OutputsJoin(prk: seq<u8>, info: seq<u8>, n: nat)
    ensures Hmac.Output(prk, info, 0) == [] && Hmac.Outputs(prk, info, 0) == []
    ensures n < 255 ==> Hmac.Output(prk, info, n + 1) == Hmac.HmacOf(prk, Hmac.Output(prk, info, n) + info + [n + 1])
    ensures Hmac.Outputs(prk, info, n + 1) == Hmac.Outputs(prk, info, n) + Hmac.Output(prk, info, n + 1)
  {
    hide Hmac.HmacOf;
  }

  /** PBKDF2's first block: U_1 is HMAC of the salt and the block number 1, U_n of U_(n-1), and they are added. */
  lemma IterationsAdd(pw: seq<u8>, salt: seq<u8>, n: nat, i: nat)
    requires n > 0 && i < 32
    ensures Hmac.Derived(pw, salt, 1) == Hmac.Iterate(pw, salt, 1) == Hmac.HmacOf(pw, salt + [0, 0, 0, 1])
    ensures Hmac.Iterate(pw, salt, n + 1) == Hmac.HmacOf(pw, Hmac.Iterate(pw, salt, n))
    ensures Hmac.Derived(pw, salt, n + 1)[i]
         == Bits.Xor(Hmac.Derived(pw, salt, n)[i], Hmac.Iterate(pw, salt, n + 1)[i])
  {
    hide Hmac.HmacOf;
    hide Bits.Xor;
  }
}

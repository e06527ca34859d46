/** RSA-2048 key generation, PKCS#1 v1.5 signing and the public operation (crypto/rsa.c:167-310). */
module Rsa {
  import opened Arith
  import opened NumberTheory
  import opened Machine
  import opened Words
  import opened Montgomery
  import opened RsaArithmetic
  import opened RsaBytes

  const RSA_WORDS: nat := 64
  const RSA_BYTES: nat := 256
  const E: u32 := 65537

  // ---- gen_prime --------------------------------------------------------------

  /** What every candidate keeps while gen_prime walks up: the top two bits set, and odd. */
  predicate Candidate(p: seq<u32>) {
    |p| >= 1 && p[|p| - 1] >= 0xC000_0000 && p[0] % 2 == 1
  }

  type SmallPrime = x: int | 2 < x < 1000 witness 3

  const SMALL_PRIMES: seq<SmallPrime> := [
    3, 5, 7, 11, 13, 17, 19, 23, 29, 31, 37, 41, 43, 47, 53, 59, 61, 67, 71, 73, 79, 83, 89, 97,
    101, 103, 107, 109, 113, 127, 131, 137, 139, 149, 151, 157, 163, 167, 173, 179, 181, 191, 193,
    197, 199, 211, 223, 227, 229, 233, 239, 241, 251, 257, 263, 269, 271, 277, 281, 283, 293, 307,
    311, 313, 317, 331, 337, 347, 349, 353, 359, 367, 373, 379, 383, 389, 397, 401, 409, 419, 421,
    431, 433, 439, 443, 449, 457, 461, 463, 467, 479, 487, 491, 499, 503, 509, 521, 523, 541, 547,
    557, 563, 569, 571, 577, 587, 593, 599, 601, 607, 613, 617, 619, 631, 641, 643, 647, 653, 659,
    661, 673, 677, 683, 691, 701, 709, 719, 727, 733, 739, 743, 751, 757, 761, 769, 773, 787, 797,
    809, 811, 821, 823, 827, 829, 839, 853, 857, 859, 863, 877, 881, 883, 887, 907, 911, 919, 929,
    937, 941, 947, 953, 967, 971, 977, 983, 991, 997]

  /** Adding two keeps the top two bits set unless the number wraps, which clears them. */
  lemma WalkKeepsTop(p: seq<u32>, p': seq<u32>, carry: u32)
    requires Candidate(p) && |p'| == |p| && Val(p') + carry * W(|p|) == Val(p) + 2
    requires p'[|p| - 1] / 0x8000_0000 % 2 == 1
    ensures Candidate(p')
  {
    var n := |p|;
    VBound(p, n - 1);
    VBound(p', n - 1);
    WStep(n - 1);
    var w, x, y := W(n - 1), p[n - 1], p'[n - 1];
    WordsTop(V(p, n - 1), V(p', n - 1), x, y, carry, w);
    LowParity(p, p', carry);
  }

  lemma WordsTop(low: int, low': int, x: u32, y: u32, carry: u32, w: int)
    requires w > 0 && 0 <= low < w && 0 <= low' < w
    requires x >= 0xC000_0000 && y >= 0x8000_0000
    requires low' + y * w + carry * (BASE * w) == low + x * w + 2
    ensures y >= 0xC000_0000
  {
    if y < 0xC000_0000 {
      assert (y + carry * BASE - x) * w == low - low' + 2 by { Assoc(carry, BASE, w); }
      var k := y + carry * BASE - x;
      if carry == 0 {
        MulGe(-1, k, w);
        if k < -3 { MulGe(-4, k, w); }
        assert false;
      } else {
        MulGe(k, 0x4000_0000, w);
      }
    }
  }

  lemma LowParity(p: seq<u32>, p': seq<u32>, carry: u32)
    requires |p| == |p'| >= 1 && Val(p') + carry * W(|p|) == Val(p) + 2
    ensures p'[0] % 2 == p[0] % 2
  {
    var n := |p|;
    VLow(p, n);
    VLow(p', n);
    WStep(n - 1);
    var h, h' := V(p[1..], n - 1), V(p'[1..], n - 1);
    Assoc(carry, BASE, W(n - 1));
    Assoc(BASE, carry, W(n - 1));
    var x, y: int := p[0], p'[0];
    var k := 1 + 0x8000_0000 * (h - h' - carry * W(n - 1));
    assert y == x + k * 2;
    CongMultiple(y, x, k, 2);
  }

  /** Is p one more than a multiple of e, or divisible by a small prime? */
  method Sieved(p: seq<u32>) returns (bad: bool)
    ensures bad <==> Val(p) % E == 1 || exists k :: 0 <= k < |SMALL_PRIMES| && Val(p) % SMALL_PRIMES[k] == 0
  {
    var r := ModSmallWord(p, E);
    bad := r == 1;
    var k := 0;
    while !bad && k < |SMALL_PRIMES|
      invariant 0 <= k <= |SMALL_PRIMES|
      invariant bad <==> Val(p) % E == 1 || exists i :: 0 <= i < k && Val(p) % SMALL_PRIMES[i] == 0
    {
      var s := ModSmallWord(p, SMALL_PRIMES[k]);
      if s == 0 { bad := true; }
      k := k + 1;
    }
  }

  /** One walk of gen_prime from a start: at most 4096 candidates, each tested as the code tests it. */
  method PrimeWalk(p: array<u32>, probablyPrime: seq<u32> -> bool) returns (found: bool)
    requires Candidate(p[..])
    modifies p
    ensures found ==> Candidate(p[..]) && Val(p[..]) % E != 1 && probablyPrime(p[..])
    ensures found ==> forall k :: 0 <= k < |SMALL_PRIMES| ==> Val(p[..]) % SMALL_PRIMES[k] != 0
  {
    var step := 0;
    while step < 4096
      invariant Candidate(p[..])
    {
      var bad := Sieved(p[..]);
      if !bad && probablyPrime(p[..]) { return true; }
      ghost var before := p[..];
      var carry := AddSmall(p, 2);
      if p[p.Length - 1] / 0x8000_0000 % 2 == 0 { return false; }
      WalkKeepsTop(before, p[..], carry);
      step := step + 1;
    }
    return false;
  }

  // ---- rsa_generate ---------------------------------------------------------------

  /** What gen_prime is relied on for, in one half of the modulus. */
  ghost predicate GoodPrime(p: seq<u32>) {
    |p| == RSA_WORDS / 2 && Candidate(p) && IsPrime(Val(p)) && Val(p) % E != 1
  }

  /** n, d and e fit together through the primes p and q. */
  ghost predicate KeyPair(n: seq<u32>, d: seq<u32>, p: seq<u32>, q: seq<u32>, j: nat) {
    && GoodPrime(p) && GoodPrime(q) && Val(p) != Val(q)
    && |n| == RSA_WORDS && |d| == RSA_WORDS
    && Val(n) == Val(p) * Val(q)
    && E * Val(d) == 1 + j * ((Val(p) - 1) * (Val(q) - 1))
  }

  method MinusOne(p: seq<u32>) returns (r: seq<u32>)
    requires |p| >= 1 && Val(p) >= 1
    ensures |r| == |p| && Val(r) == Val(p) - 1
  {
    var n := |p|;
    var one := seq(n, k => if k == 0 then 1 else 0);
    VSingle(one, n);
    var a := new u32[n](k requires 0 <= k < n => p[k]);
    VFrame(a[..], p, n);
    var borrow := SubInPlace(a, one, n);
    r := a[..];
    VBound(r, n);
    VBound(p, n);
  }

  /** Neither factor of phi is a multiple of the prime e, so phi is not. */
  lemma PhiNotMultiple(p: nat, q: nat)
    requires p >= 1 && q >= 1 && p % E != 1 && q % E != 1
    ensures ((p - 1) * (q - 1)) % E != 0
  {
    FermatNumberIsPrime();
    if ((p - 1) * (q - 1)) % E == 0 {
      NumberTheory.Euclid(E, p - 1, q - 1);
      if (p - 1) % E == 0 { DivModUnique(p, (p - 1) / E, 1, E); } else { DivModUnique(q, (q - 1) / E, 1, E); }
      assert false;
    }
  }

  lemma CoprimeToPrime(x: nat, m: nat)
    requires IsPrime(m) && 0 < x < m
    ensures Coprime(x, m)
  {
    forall d | d > 1
      ensures !(x % d == 0 && m % d == 0)
    {
      if d == m { ModSmall(x, d); }
      if d > m { ModSmall(m, d); }
    }
  }

  /** j = e - phi^-1 makes 1 + j * phi divisible by e, with a quotient no larger than phi. */
  lemma DivisibleByE(phi: nat, pe: nat, inv: nat, j: nat)
    requires pe == phi % E && (inv * pe) % E == 1 && 0 < inv < E && j == E - inv && phi > 0
    ensures (j * phi + 1) % E == 0
    ensures j * phi + 1 <= E * phi
  {
    ModMod(phi, E);
    CongMul(inv, inv, pe, phi, E);
    var k := (inv * phi) / E;
    assert inv * phi == k * E + 1;
    assert j * phi + 1 == (phi - k) * E by { assert (E - inv) * phi == E * phi - inv * phi; }
    DivModUnique(j * phi + 1, phi - k, 0, E);
    MulGe(E - 1, j, phi);
  }

  lemma PrivateFits(dv: nat, phi: nat, j: nat, bound: int)
    requires E * dv == j * phi + 1 <= E * phi && phi < bound
    ensures dv < bound
  {}

  lemma TopWordZero(t: seq<u32>, n: nat)
    requires |t| == n + 1 && Val(t) < W(n)
    ensures t[n] == 0 && V(t, n) == Val(t)
  {
    VBound(t, n);
    WStep(n);
    if t[n] > 0 { MulGe(t[n], 1, W(n)); }
  }

  lemma PhiBound(p: nat, q: nat, n: seq<u32>)
    requires p >= 2 && q >= 2 && |n| == RSA_WORDS && Val(n) == (p - 1) * (q - 1)
    ensures 0 < Val(n) < W(RSA_WORDS)
  {
    VBound(n, RSA_WORDS);
    MulGe(p - 1, 1, q - 1);
  }

  /** d = (1 + j phi) / e: the division is exact and d fits its words. */
  method PrivateExponent(phi: seq<u32>) returns (rc: int, d: seq<u32>, ghost j: nat)
    requires |phi| == RSA_WORDS && Val(phi) % E != 0 && Val(phi) > 0
    ensures rc == 0 && |d| == RSA_WORDS
    ensures E * Val(d) == 1 + j * Val(phi)
  {
    hide V;
    hide W;
    VBound(phi, RSA_WORDS);
    FermatNumberIsPrime();
    var pe := ModSmallWord(phi, E);
    if pe == 0 {
      assert false;
    }
    CoprimeToPrime(pe, E);
    ModSmall(pe, E);
    var inv := InvSmall(pe, E);
    var jj: u32 := (E - inv) % E;
    j := jj;
    DivisibleByE(Val(phi), pe, inv, jj);
    var t := Scale(phi, jj);
    WStep(RSA_WORDS);
    VBound(t[..], t.Length);
    var carry := AddSmall(t, 1);
    ScaledFits(Val(phi), jj, Val(t[..]), carry);
    VBound(t[..], t.Length);
    var rem := DivideInPlace(t, E);
    ExactQuotient(Val(t[..]), rem, j * Val(phi) + 1);
    PrivateFits(Val(t[..]), Val(phi), j, W(RSA_WORDS));
    TopWordZero(t[..], RSA_WORDS);
    if rem != 0 || t[RSA_WORDS] != 0 {
      assert false;
    }
    d := t[..RSA_WORDS];
    VFrame(d, t[..], RSA_WORDS);
    rc := 0;
  }

  lemma ScaledFits(phi: nat, j: u32, t: nat, carry: u32)
    requires phi < W(RSA_WORDS) && j < E && t + carry * W(RSA_WORDS + 1) == j * phi + 1
    ensures carry == 0 && t == j * phi + 1
  {
    WStep(RSA_WORDS);
    MulGe(E - 1, j, phi);
    if carry > 0 { MulGe(carry, 1, W(RSA_WORDS + 1)); }
  }

  lemma ExactQuotient(q: nat, rem: nat, x: nat)
    requires x == E * q + rem && rem < E && x % E == 0
    ensures rem == 0
  {
    DivModUnique(x, q, rem, E);
  }

  lemma PrimeSizes(p: seq<u32>)
    requires GoodPrime(p)
    ensures Val(p) >= 0xC000_0000 * W(RSA_WORDS / 2 - 1) && Val(p) > 2 && Odd(Val(p))
  {
    var h := |p|;
    VBound(p, h - 1);
    WStep(h - 1);
    MulGe(p[h - 1], 0xC000_0000, W(h - 1));
    assert Val(p) % 2 != 0;
  }

  /** rsa_key_t, filled by rsa_generate from the two primes gen_prime found. */
  class RsaKey {
    var n: seq<u32>
    var d: seq<u32>
    var e: u32

    /** rsa_generate never fails on good primes, and leaves a matching pair. */
    method Generate(p: seq<u32>, q: seq<u32>) returns (rc: int, ghost j: nat)
      requires GoodPrime(p) && GoodPrime(q) && Val(p) != Val(q)
      modifies this
      ensures rc == 0 && e == 65537 && KeyPair(n, d, p, q, j)
      ensures Val(n) == Val(p) * Val(q) && 65537 * Val(d) == 1 + j * ((Val(p) - 1) * (Val(q) - 1))
    {
      PrimeSizes(p);
      PrimeSizes(q);
      e := E;
      var product := MulFull(p, q);
      n := product[..];
      var pm1 := MinusOne(p);
      var qm1 := MinusOne(q);
      var phi := MulFull(pm1, qm1);
      PhiNotMultiple(Val(p), Val(q));
      PhiBound(Val(p), Val(q), phi[..]);
      rc, d, j := PrivateExponent(phi[..]);
    }
  }

  // ---- signing and the public operation ------------------------------------------

  /** EMSA-PKCS1-v1_5 (section 9.2 of RFC 8017) for 256-byte blocks. */
  function Emsa(info: seq<u8>, digest: seq<u8>): (em: seq<u8>)
    requires |info| + |digest| <= RSA_BYTES - 3
    ensures |em| == RSA_BYTES && em[0] == 0 && em[1] == 1
    ensures var t := RSA_BYTES - |info| - |digest|;
            (forall i :: 2 <= i < t - 1 ==> em[i] == 0xFF) && em[t - 1] == 0 && em[t..] == info + digest
  {
    var pad: seq<u8> := seq(RSA_BYTES - 3 - |info| - |digest|, _ => 0xFF);
    [0x00, 0x01] + pad + [0x00] + info + digest
  }

  /** RSASP1 and RSAVP1 (section 5.2 of RFC 8017) on octet strings. */
  ghost function RsaRaw(block: seq<u8>, exponent: nat, n: nat): seq<u8>
    requires n > 0
  {
    I2osp(Pow(Os2ip(block), exponent) % n, RSA_BYTES)
  }

  lemma ModulusSize(n: seq<u32>, d: seq<u32>, p: seq<u32>, q: seq<u32>, j: nat, k: nat)
    requires KeyPair(n, d, p, q, j) && k == RSA_WORDS
    ensures Odd(Val(n)) && Val(n) > 1
    ensures 2 * Val(n) >= W(k)
  {
    PrimeSizes(p);
    PrimeSizes(q);
    var h: nat := RSA_WORDS / 2 - 1;
    WStep(h);
    OddProduct(Val(p), Val(q));
    SquareBound(Val(p), Val(q), W(h));
    PowAdd(BASE, h, h);
    WStep(h + h);
    WStep(h + h + 1);
  }

  lemma ByteBelow(len: nat, n: nat)
    requires len > 0 && 2 * n >= Pow(256, len)
    ensures Pow(256, len - 1) <= n
  {
    PowPositive(256, len - 1);
  }

  lemma OddProduct(x: int, y: int)
    requires Odd(x) && Odd(y) && x > 2 && y > 2
    ensures Odd(x * y) && x * y > 1
  {
    var h, k := x / 2, y / 2;
    assert x == 2 * h + 1 && y == 2 * k + 1;
    assert x * y == (2 * (h * k) + h + k) * 2 + 1;
    DivModUnique(x * y, 2 * (h * k) + h + k, 1, 2);
    MulGe(x, 2, y);
  }

  lemma SquareBound(x: int, y: int, w: int)
    requires w > 0 && x >= 0xC000_0000 * w && y >= 0xC000_0000 * w
    ensures 2 * (x * y) >= BASE * (BASE * (w * w))
  {
    var c := 0xC000_0000 * w;
    MulGe(x, c, y);
    MulGe(y, c, c);
    assert c * c == (0xC000_0000 * 0xC000_0000) * (w * w);
    assert w * w >= 0;
    MulGe(2 * (0xC000_0000 * 0xC000_0000), BASE * BASE, w * w);
  }

  lemma BlockBelowTwice(b: seq<u8>, n: nat)
    requires |b| == RSA_BYTES && 2 * n >= W(RSA_WORDS)
    ensures Os2ip(b) < 2 * n
  {
    Os2ipBound(b);
    BytesAndWords(RSA_WORDS);
  }

  /** The private or public operation on one block: from_be, mont_setup, mod_exp, to_be. */
  method Operate(n: seq<u32>, exponent: seq<u32>, block: seq<u8>) returns (out: seq<u8>)
    requires |n| == RSA_WORDS && |block| == RSA_BYTES
    requires Odd(Val(n)) && Val(n) > 1 && Os2ip(block) < 2 * Val(n)
    ensures out == RsaRaw(block, Val(exponent), Val(n))
  {
    var w := FromBe(block, RSA_WORDS);
    var mont := new Mont(n);
    var s := new u32[RSA_WORDS];
    mont.ModExp(s, w, exponent);
    out := ToBe(s[..]);
  }

  /** The padded block written piece by piece. */
  method PadBlock(info: seq<u8>, digest: seq<u8>) returns (block: seq<u8>)
    requires |info| + |digest| <= RSA_BYTES - 3
    ensures block == Emsa(info, digest)
  {
    var t := |info| + |digest|;
    var em := new u8[RSA_BYTES](_ => 0);
    em[1] := 1;
    forall k | 2 <= k < RSA_BYTES - 1 - t { em[k] := 0xFF; }
    em[RSA_BYTES - t - 1] := 0;
    forall k | RSA_BYTES - t <= k < RSA_BYTES - |digest| { em[k] := info[k - (RSA_BYTES - t)]; }
    forall k | RSA_BYTES - |digest| <= k < RSA_BYTES { em[k] := digest[k - (RSA_BYTES - |digest|)]; }
    block := em[..];
    SameBlock(block, info, digest, t);
  }

  lemma SameBlock(b: seq<u8>, info: seq<u8>, digest: seq<u8>, t: nat)
    requires t == |info| + |digest| <= RSA_BYTES - 3 && |b| == RSA_BYTES && b[0] == 0 && b[1] == 1
      && b[RSA_BYTES - t - 1] == 0
    requires forall k :: 2 <= k < RSA_BYTES - 1 - t ==> b[k] == 0xFF
    requires forall k :: RSA_BYTES - t <= k < RSA_BYTES - |digest| ==> b[k] == info[k - (RSA_BYTES - t)]
    requires forall k :: RSA_BYTES - |digest| <= k < RSA_BYTES ==> b[k] == digest[k - (RSA_BYTES - |digest|)]
    ensures b == Emsa(info, digest)
  {
    var e, s := Emsa(info, digest), RSA_BYTES - t;
    assert b[s..] == info + digest;
    forall i | 0 <= i < RSA_BYTES
      ensures b[i] == e[i]
    {
      if i < s {
        assert 2 <= i < s - 1 ==> e[i] == 0xFF;
      } else {
        assert b[i] == b[s..][i - s] && e[i] == e[s..][i - s];
      }
    }
  }

  /** The octets spell the power modulo n. */
  lemma RawValue(block: seq<u8>, exponent: nat, n: seq<u32>)
    requires |n| == RSA_WORDS && Val(n) > 0
    ensures |RsaRaw(block, exponent, Val(n))| == RSA_BYTES
    ensures Os2ip(RsaRaw(block, exponent, Val(n))) == Pow(Os2ip(block), exponent) % Val(n)
  {
    hide Os2ip;
    hide Pow;
    hide V;
    BytesAndWords(RSA_WORDS);
    VBound(n, RSA_WORDS);
    var y := Pow(Os2ip(block), exponent) % Val(n);
    Os2ipOfI2osp(y, RSA_BYTES);
  }

  /** sign_pkcs1: the padded block to the private exponent. */
  method SignPkcs1(k: RsaKey, info: seq<u8>, digest: seq<u8>, ghost p: seq<u32>, ghost q: seq<u32>, ghost j: nat)
    returns (sig: seq<u8>)
    requires |info| + |digest| <= RSA_BYTES - 3 && KeyPair(k.n, k.d, p, q, j)
    ensures sig == RsaRaw(Emsa(info, digest), Val(k.d), Val(k.n))
    ensures |sig| == RSA_BYTES && Os2ip(sig) == Pow(Os2ip(Emsa(info, digest)), Val(k.d)) % Val(k.n)
  {
    var em := PadBlock(info, digest);
    ModulusSize(k.n, k.d, p, q, j, RSA_WORDS);
    BlockBelowTwice(em, Val(k.n));
    sig := Operate(k.n, k.d, em);
    RawValue(em, Val(k.d), k.n);
  }

  /** rsa_public: a block to the public exponent. */
  method Public(k: RsaKey, block: seq<u8>, ghost p: seq<u32>, ghost q: seq<u32>, ghost j: nat)
    returns (out: seq<u8>)
    requires |block| == RSA_BYTES && KeyPair(k.n, k.d, p, q, j) && k.e == E
    ensures out == RsaRaw(block, E, Val(k.n))
    ensures |out| == RSA_BYTES && Os2ip(out) == Pow(Os2ip(block), 65537) % Val(k.n)
  {
    ModulusSize(k.n, k.d, p, q, j, RSA_WORDS);
    BlockBelowTwice(block, Val(k.n));
    assert W(0) == 1;
    assert Val([k.e]) == V([k.e], 0) + E * W(0);
    out := Operate(k.n, [k.e], block);
    RawValue(block, E, k.n);
  }

  /** RSA round trip: the public operation takes every signature back to its padded block. */
  lemma SignatureOpens(n: seq<u32>, d: seq<u32>, p: seq<u32>, q: seq<u32>, j: nat, info: seq<u8>, digest: seq<u8>)
    requires KeyPair(n, d, p, q, j) && |info| + |digest| <= RSA_BYTES - 3
    ensures Val(n) > 0
    ensures RsaRaw(RsaRaw(Emsa(info, digest), Val(d), Val(n)), E, Val(n)) == Emsa(info, digest)
  {
    var em := Emsa(info, digest);
    ModulusSize(n, d, p, q, j, RSA_WORDS);
    var nv, x := Val(n), Os2ip(em);
    BlockBelowTwice(em, nv);
    Os2ipZeros(1, em);
    Os2ipBound(em[1..]);
    BytesAndWords(RSA_WORDS);
    ByteBelow(RSA_BYTES, nv);
    OpensValue(n, d, p, q, j, x);
    var y := Pow(x, Val(d)) % nv;
    VBound(n, RSA_WORDS);
    Os2ipOfI2osp(y, RSA_BYTES);
    I2ospOfOs2ip(em);
  }

  lemma OpensValue(n: seq<u32>, d: seq<u32>, p: seq<u32>, q: seq<u32>, j: nat, x: nat)
    requires KeyPair(n, d, p, q, j) && x < Val(n)
    ensures Pow(Pow(x, Val(d)) % Val(n), E) % Val(n) == x
  {
    var nv := Val(n);
    RsaExponentLaw(Val(p), Val(q), E, Val(d), j, x);
    var y := Pow(x, Val(d));
    ModMod(y, nv);
    CongPow(y % nv, y, E, nv);
    ModSmall(x, nv);
  }
}

/** SHA-256 in the terms of FIPS 180-4: its functions bit by bit (section 4.1.2), its constants as roots of primes
    (sections 4.2.2 and 5.3.3), the schedule and a round as sums (section 6.2.2), the padding byte by byte (section
    5.1.1) (crypto/sha256.c:6-91). */
module Sha256Laws {
  import opened Arith
  import opened Machine
  import opened Bits
  import opened Places
  import opened RsaBytes
  import opened Sha256

  // ---- the functions of section 4.1.2 ------------------------------------------------------------------------

  /** A rotation moves place i + k to place i. */
  lemma RotrAt(x: u32, k: nat, p: nat, q: nat, i: nat)
    requires 0 < k < 32 && p == Pow2(k) && q == Pow2(32 - k) && p * q == TWO32 && i < 32
    ensures Rotr(x, p, q) / Pow2(i) % 2 == x / Pow2((i + k) % 32) % 2
  {
    hide Pow2;
    RotrFits(x, p, q);
    TurnedAt(x, x % p, x / p, k, p, q, i, (i + k) % 32);
  }

  lemma TurnedAt(x: nat, l: nat, h: nat, k: nat, p: nat, q: nat, i: nat, j: nat)
    requires 0 < k < 32 && p == Pow2(k) && q == Pow2(32 - k) && l < p && h < q && i < 32
    requires x == h * p + l && h == x / p && j == if i + k < 32 then i + k else i + k - 32
    ensures l * q >= 0 && (l * q + h) / Pow2(i) % 2 == x / Pow2(j) % 2
  {
    hide Pow2;
    JoinedAt(h, l, 32 - k, i);
    if i < 32 - k {
      ShiftedAt(x, k, i);
    } else {
      JoinedAt(l, h, k, j);
    }
  }

  /** Where e has a one the choice is f's bit, elsewhere g's. */
  lemma ChooseBit(e: u32, f: u32, g: u32, i: nat)
    requires i < 32
    ensures Ch(e, f, g) / Pow2(i) % 2 == if e / Pow2(i) % 2 == 1 then f / Pow2(i) % 2 else g / Pow2(i) % 2
  {
    hide Xor;
    hide And;
    hide Pow2;
    var n: nat := 32;
    TwoTo32(n);
    var o := TWO32 - 1 - e;
    NotAt(e, o, i, n);
    AndAt(e, f, i);
    AndAt(o, g, i);
    XorAt(And32(e, f), And32(o, g), i);
    Either(e / Pow2(i) % 2, o / Pow2(i) % 2, f / Pow2(i) % 2, g / Pow2(i) % 2);
  }

  lemma Either(x: nat, n: nat, y: nat, z: nat)
    requires x < 2 && n == 1 - x && y < 2 && z < 2
    ensures (x * y % 2 + n * z % 2) % 2 == (if x == 1 then y else z) && x * y < 2 && n * z < 2
  {}

  /** The majority of the three bits. */
  lemma MajorityBit(a: u32, b: u32, c: u32, i: nat)
    ensures Maj(a, b, c) / Pow2(i) % 2
         == if a / Pow2(i) % 2 + b / Pow2(i) % 2 + c / Pow2(i) % 2 >= 2 then 1 else 0
  {
    hide Xor;
    hide And;
    hide Pow2;
    AndAt(a, b, i);
    AndAt(a, c, i);
    AndAt(b, c, i);
    Sum3(And32(a, b), And32(a, c), And32(b, c), i);
    Most(a / Pow2(i) % 2, b / Pow2(i) % 2, c / Pow2(i) % 2);
  }

  lemma Most(x: nat, y: nat, z: nat)
    requires x < 2 && y < 2 && z < 2
    ensures (x * y + x * z + y * z) % 2 == if x + y + z >= 2 then 1 else 0
  {}

  lemma Sum3(a: u32, b: u32, c: u32, i: nat)
    ensures Xor32(Xor32(a, b), c) / Pow2(i) % 2 == (a / Pow2(i) % 2 + b / Pow2(i) % 2 + c / Pow2(i) % 2) % 2
  {
    hide Xor;
    hide Pow2;
    var s := Xor32(a, b);
    XorAt(a, b, i);
    XorAt(s, c, i);
    Odd3(a / Pow2(i) % 2, b / Pow2(i) % 2, c / Pow2(i) % 2, s / Pow2(i) % 2, Xor32(s, c) / Pow2(i) % 2);
  }

  lemma Odd3(x: nat, y: nat, z: nat, s: nat, t: nat)
    requires x < 2 && y < 2 && z < 2 && s == (x + y) % 2 && t == (s + z) % 2
    ensures t == (x + y + z) % 2
  {}

  lemma BigSigma0Bit(a: u32, i: nat)
    requires i < 32
    ensures BigSigma0(a) / Pow2(i) % 2
         == (a / Pow2((i + 2) % 32) % 2 + a / Pow2((i + 13) % 32) % 2 + a / Pow2((i + 22) % 32) % 2) % 2
  {
    hide Xor;
    hide Pow2;
    hide Rotr;
    Powers();
    RotrAt(a, 2, 0x4, 0x40000000, i);
    RotrAt(a, 13, 0x2000, 0x80000, i);
    RotrAt(a, 22, 0x400000, 0x400, i);
    Sum3(Rotr(a, 0x4, 0x40000000), Rotr(a, 0x2000, 0x80000), Rotr(a, 0x400000, 0x400), i);
  }

  lemma BigSigma1Bit(e: u32, i: nat)
    requires i < 32
    ensures BigSigma1(e) / Pow2(i) % 2
         == (e / Pow2((i + 6) % 32) % 2 + e / Pow2((i + 11) % 32) % 2 + e / Pow2((i + 25) % 32) % 2) % 2
  {
    hide Xor;
    hide Pow2;
    hide Rotr;
    Powers();
    RotrAt(e, 6, 0x40, 0x4000000, i);
    RotrAt(e, 11, 0x800, 0x200000, i);
    RotrAt(e, 25, 0x2000000, 0x80, i);
    Sum3(Rotr(e, 0x40, 0x4000000), Rotr(e, 0x800, 0x200000), Rotr(e, 0x2000000, 0x80), i);
  }

  lemma Sigma0Bit(w: u32, i: nat)
    requires i < 32
    ensures Sigma0(w) / Pow2(i) % 2
         == (w / Pow2((i + 7) % 32) % 2 + w / Pow2((i + 18) % 32) % 2
             + (if i + 3 < 32 then w / Pow2(i + 3) % 2 else 0)) % 2
  {
    hide Xor;
    hide Pow2;
    hide Rotr;
    Powers();
    RotrAt(w, 7, 0x80, 0x2000000, i);
    RotrAt(w, 18, 0x40000, 0x4000, i);
    ShiftAt(w, 3, i);
    EightIsPower();
    Sum3(Rotr(w, 0x80, 0x2000000), Rotr(w, 0x40000, 0x4000), w / 8, i);
  }

  lemma Sigma1Bit(w: u32, i: nat)
    requires i < 32
    ensures Sigma1(w) / Pow2(i) % 2
         == (w / Pow2((i + 17) % 32) % 2 + w / Pow2((i + 19) % 32) % 2
             + (if i + 10 < 32 then w / Pow2(i + 10) % 2 else 0)) % 2
  {
    hide Xor;
    hide Pow2;
    hide Rotr;
    Powers();
    RotrAt(w, 17, 0x20000, 0x8000, i);
    RotrAt(w, 19, 0x80000, 0x2000, i);
    ShiftAt(w, 10, i);
    Sum3(Rotr(w, 0x20000, 0x8000), Rotr(w, 0x80000, 0x2000), w / 0x400, i);
  }

  /** A shift moves place i + k to place i and zeros in from above. */
  lemma ShiftAt(x: u32, k: nat, i: nat)
    requires i < 32
    ensures x / Pow2(k) / Pow2(i) % 2 == if i + k < 32 then x / Pow2(i + k) % 2 else 0
  {
    hide Pow2;
    ShiftedAt(x, k, i);
    if i + k >= 32 {
      var n: nat := 32;
      TwoTo32(n);
      Pow2Add(n, i + k - n);
      MulGe(Pow2(i + k - n), 1, TWO32);
      DivModUnique(x, 0, x, Pow2(i + k));
    }
  }

  lemma EightIsPower()
    ensures Pow2(3) == 8
  {}

  // ---- the constants -------------------------------------------------------------------------------------------

  /** The integer cube root of a number below 343. */
  function CubeOf(p: int): int {
    if p < 8 then 1 else if p < 27 then 2 else if p < 64 then 3 else if p < 125 then 4 else if p < 216 then 5 else 6
  }

  predicate Root3(p: int, n: int, x: int) {
    && n * n * n <= p < (n + 1) * (n + 1) * (n + 1)
    && x * x * x <= p * 0x1_0000_0000_0000_0000_0000_0000 < (x + 1) * (x + 1) * (x + 1)
  }

  lemma Cubes0(j: nat, p: int, n: int, k: u32, x: int)
    requires j < 8 && p == [2, 3, 5, 7, 11, 13, 17, 19][j]
    requires n == CubeOf(p) && k == K0[j] && x == n * TWO32 + k
    ensures Root3(p, n, x)
  {}

  lemma Cubes1(j: nat, p: int, n: int, k: u32, x: int)
    requires j < 8 && p == [23, 29, 31, 37, 41, 43, 47, 53][j]
    requires n == CubeOf(p) && k == K1[j] && x == n * TWO32 + k
    ensures Root3(p, n, x)
  {}

  lemma Cubes2(j: nat, p: int, n: int, k: u32, x: int)
    requires j < 8 && p == [59, 61, 67, 71, 73, 79, 83, 89][j]
    requires n == CubeOf(p) && k == K2[j] && x == n * TWO32 + k
    ensures Root3(p, n, x)
  {}

  lemma Cubes3(j: nat, p: int, n: int, k: u32, x: int)
    requires j < 8 && p == [97, 101, 103, 107, 109, 113, 127, 131][j]
    requires n == CubeOf(p) && k == K3[j] && x == n * TWO32 + k
    ensures Root3(p, n, x)
  {}

  lemma Cubes4(j: nat, p: int, n: int, k: u32, x: int)
    requires j < 8 && p == [137, 139, 149, 151, 157, 163, 167, 173][j]
    requires n == CubeOf(p) && k == K4[j] && x == n * TWO32 + k
    ensures Root3(p, n, x)
  {}

  lemma Cubes5(j: nat, p: int, n: int, k: u32, x: int)
    requires j < 8 && p == [179, 181, 191, 193, 197, 199, 211, 223][j]
    requires n == CubeOf(p) && k == K5[j] && x == n * TWO32 + k
    ensures Root3(p, n, x)
  {}

  lemma Cubes6(j: nat, p: int, n: int, k: u32, x: int)
    requires j < 8 && p == [227, 229, 233, 239, 241, 251, 257, 263][j]
    requires n == CubeOf(p) && k == K6[j] && x == n * TWO32 + k
    ensures Root3(p, n, x)
  {}

  lemma Cubes7(j: nat, p: int, n: int, k: u32, x: int)
    requires j < 8 && p == [269, 271, 277, 281, 283, 293, 307, 311][j]
    requires n == CubeOf(p) && k == K7[j] && x == n * TWO32 + k
    ensures Root3(p, n, x)
  {}

  lemma RowOf(i: nat)
    requires i < 64
    ensures K[i] == if i < 8 then K0[i] else if i < 16 then K1[i - 8] else if i < 24 then K2[i - 16]
                    else if i < 32 then K3[i - 24] else if i < 40 then K4[i - 32] else if i < 48 then K5[i - 40]
                    else if i < 56 then K6[i - 48] else K7[i - 56]
  {}

  /** The round constants: the first 32 bits of the fractional parts of the cube roots of the first 64 primes. */
  lemma ConstantIsCubeRoot(i: nat, p: int, n: int, x: int)
    requires i < 64 && x == n * 0x1_0000_0000 + K[i]
    requires p == if i < 8 then [2, 3, 5, 7, 11, 13, 17, 19][i]
                  else if i < 16 then [23, 29, 31, 37, 41, 43, 47, 53][i - 8]
                  else if i < 24 then [59, 61, 67, 71, 73, 79, 83, 89][i - 16]
                  else if i < 32 then [97, 101, 103, 107, 109, 113, 127, 131][i - 24]
                  else if i < 40 then [137, 139, 149, 151, 157, 163, 167, 173][i - 32]
                  else if i < 48 then [179, 181, 191, 193, 197, 199, 211, 223][i - 40]
                  else if i < 56 then [227, 229, 233, 239, 241, 251, 257, 263][i - 48]
                  else [269, 271, 277, 281, 283, 293, 307, 311][i - 56]
    requires n == if p < 8 then 1 else if p < 27 then 2 else if p < 64 then 3 else if p < 125 then 4
                  else if p < 216 then 5 else 6
    ensures n * n * n <= p < (n + 1) * (n + 1) * (n + 1)
    ensures x * x * x <= p * 0x1_0000_0000_0000_0000_0000_0000 < (x + 1) * (x + 1) * (x + 1)
  {
    hide Root3;
    var k := K[i];
    RowOf(i);
    if i < 8 {
      Cubes0(i, p, n, k, x);
    } else if i < 16 {
      Cubes1(i - 8, p, n, k, x);
    } else if i < 24 {
      Cubes2(i - 16, p, n, k, x);
    } else if i < 32 {
      Cubes3(i - 24, p, n, k, x);
    } else if i < 40 {
      Cubes4(i - 32, p, n, k, x);
    } else if i < 48 {
      Cubes5(i - 40, p, n, k, x);
    } else if i < 56 {
      Cubes6(i - 48, p, n, k, x);
    } else {
      Cubes7(i - 56, p, n, k, x);
    }
    RootMeans(p, n, x);
  }

  lemma RootMeans(p: int, n: int, x: int)
    requires Root3(p, n, x)
    ensures n * n * n <= p < (n + 1) * (n + 1) * (n + 1)
    ensures x * x * x <= p * 0x1_0000_0000_0000_0000_0000_0000 < (x + 1) * (x + 1) * (x + 1)
  {}

  lemma Squares()
    ensures Root2(2, 1, 1 * TWO32 + INITIAL[0])
    ensures Root2(3, 1, 1 * TWO32 + INITIAL[1])
    ensures Root2(5, 2, 2 * TWO32 + INITIAL[2])
    ensures Root2(7, 2, 2 * TWO32 + INITIAL[3])
    ensures Root2(11, 3, 3 * TWO32 + INITIAL[4])
    ensures Root2(13, 3, 3 * TWO32 + INITIAL[5])
    ensures Root2(17, 4, 4 * TWO32 + INITIAL[6])
    ensures Root2(19, 4, 4 * TWO32 + INITIAL[7])
  {}

  predicate Root2(p: int, n: int, x: int) {
    n * n <= p < (n + 1) * (n + 1) && x * x <= p * 0x1_0000_0000_0000_0000 < (x + 1) * (x + 1)
  }

  /** The initial value: the same of the square roots of the first eight. */
  lemma InitialIsSquareRoot(i: nat, p: int, n: int, x: int)
    requires i < 8 && x == n * 0x1_0000_0000 + INITIAL[i]
    requires p == [2, 3, 5, 7, 11, 13, 17, 19][i] && n == [1, 1, 2, 2, 3, 3, 4, 4][i]
    ensures n * n <= p < (n + 1) * (n + 1)
    ensures x * x <= p * 0x1_0000_0000_0000_0000 < (x + 1) * (x + 1)
  {
    Squares();
  }

  // ---- the schedule and the rounds -------------------------------------------------------------------------------

  lemma PlusTwice(a: u32, b: u32, c: u32)
    ensures Plus(Plus(a, b), c) == (a + b + c) % TWO32
  {
    ModAdd(a + b, c, TWO32);
  }

  lemma ModAdd(x: nat, c: nat, m: nat)
    requires m > 0
    ensures (x % m + c) % m == (x + c) % m
  {
    ModMod(x, m);
    CongAdd(x % m, x, c, c, m);
  }

  lemma FiveTerms(a: u32, b: u32, c: u32, d: u32, e: u32)
    ensures Plus(Plus(Plus(Plus(a, b), c), d), e) == (a as int + b + c + d + e) % TWO32
  {
    var x: nat := a as int + b + c;
    PlusTwice(a, b, c);
    ModAdd(x, d, TWO32);
    ModAdd(x + d, e, TWO32);
  }

  lemma TwoTerms(a: u32, b: u32)
    ensures Plus(a, b) == (a as int + b) % TWO32
  {}

  lemma SumsMeet(x: nat, y: nat)
    ensures Plus(x % TWO32, y % TWO32) == (x + y) % TWO32
  {
    ModAdd(x, y % TWO32, TWO32);
    ModAdd(y, x, TWO32);
  }

  /** The first sixteen words are the block's, a word's first byte its most significant. */
  lemma ScheduleStarts(b: Block, i: nat)
    requires i < 16
    ensures W(b, i) == (b[4 * i] as int) * 0x100_0000 + (b[4 * i + 1] as int) * 0x1_0000
                     + (b[4 * i + 2] as int) * 0x100 + b[4 * i + 3]
  {}

  lemma ScheduleGoesOn(b: Block, i: nat)
    requires 16 <= i < 64
    ensures W(b, i) == (W(b, i - 16) + Sigma0(W(b, i - 15)) + W(b, i - 7) + Sigma1(W(b, i - 2))) % 0x1_0000_0000
  {
    hide Sigma0;
    hide Sigma1;
    var p: int, q: int, r: int, t: int := W(b, i - 16), Sigma0(W(b, i - 15)), W(b, i - 7), Sigma1(W(b, i - 2));
    PlusTwice(p, q, r);
    ModAdd(p + q + r, t, TWO32);
  }

  /** One round: six words move on by one, the two others are sums. */
  lemma RoundIs(h: Working, b: Block, n: nat, v: Working, r: Working, k: u32, w: u32)
    requires n < 64 && v == Rounds(h, b, n) && r == Rounds(h, b, n + 1) && k == K[n] && w == W(b, n)
    ensures r.b == v.a && r.c == v.b && r.d == v.c && r.f == v.e && r.g == v.f && r.h == v.g
    ensures r.e == (v.d + (v.h + BigSigma1(v.e) + Ch(v.e, v.f, v.g) + k + w)) % 0x1_0000_0000
    ensures r.a == ((v.h + BigSigma1(v.e) + Ch(v.e, v.f, v.g) + k + w) + (BigSigma0(v.a) + Maj(v.a, v.b, v.c)))
                   % 0x1_0000_0000
  {
    hide BigSigma0;
    hide BigSigma1;
    hide Ch;
    hide Maj;
    hide W;
    RoundAdds(v, k, w, v.h + BigSigma1(v.e) + Ch(v.e, v.f, v.g) + k + w, BigSigma0(v.a) + Maj(v.a, v.b, v.c));
  }

  lemma RoundAdds(v: Working, k: u32, w: u32, t1: nat, t2: nat)
    requires t1 == v.h + BigSigma1(v.e) + Ch(v.e, v.f, v.g) + k + w && t2 == BigSigma0(v.a) + Maj(v.a, v.b, v.c)
    ensures var r := Round(v, k, w);
            && r.b == v.a && r.c == v.b && r.d == v.c && r.f == v.e && r.g == v.f && r.h == v.g
            && r.e == (v.d + t1) % TWO32 && r.a == (t1 + t2) % TWO32
  {
    hide BigSigma0;
    hide BigSigma1;
    hide Ch;
    hide Maj;
    hide Plus;
    FiveTerms(v.h, BigSigma1(v.e), Ch(v.e, v.f, v.g), k, w);
    TwoTerms(BigSigma0(v.a), Maj(v.a, v.b, v.c));
    SumsMeet(v.d, t1);
    SumsMeet(t1, t2);
    ModSmall(v.d, TWO32);
  }

  /** Compressing a block: 64 rounds from the chaining value, added to it. */
  lemma CompressIs(h: Chaining, b: Block, n: nat, v: Working, w: Working)
    requires n == 64 && v == Rounds(Working(h[0], h[1], h[2], h[3], h[4], h[5], h[6], h[7]), b, n)
    ensures var r := Compress(h, b);
            && r[0] == (h[0] + v.a) % 0x1_0000_0000 && r[1] == (h[1] + v.b) % 0x1_0000_0000
            && r[2] == (h[2] + v.c) % 0x1_0000_0000 && r[3] == (h[3] + v.d) % 0x1_0000_0000
            && r[4] == (h[4] + v.e) % 0x1_0000_0000 && r[5] == (h[5] + v.f) % 0x1_0000_0000
            && r[6] == (h[6] + v.g) % 0x1_0000_0000 && r[7] == (h[7] + v.h) % 0x1_0000_0000
    ensures Rounds(w, b, 0) == w
  {
    hide Rounds;
    NoRounds(w, b);
  }

  lemma NoRounds(w: Working, b: Block)
    ensures Rounds(w, b, 0) == w
  {}

  // ---- the message -----------------------------------------------------------------------------------------------

  /** The padded message: the message, a one bit, the fewest zeros that fill a block with the length, and the length
      in bits, modulo 2^64. */
  lemma PaddedIs(m: seq<u8>, p: seq<u8>, i: nat)
    requires p == Padded(m)
    ensures |p| % 64 == 0 && |m| + 9 <= |p| < |m| + 9 + 64
    ensures p[..|m|] == m && p[|m|] == 0x80
    ensures |m| < i < |p| - 8 ==> p[i] == 0
    ensures Os2ip(p[|p| - 8..]) == 8 * |m| % 0x1_0000_0000_0000_0000
  {
    hide Os2ip;
    hide I2osp;
    var n: nat, bytes: nat := 8 * |m| % TWO64, 8;
    GapFills(|m|);
    var tail := I2osp(n, bytes);
    assert p[|p| - 8..] == tail;
    LengthReads(n, bytes);
  }

  lemma LengthReads(n: nat, bytes: nat)
    requires bytes == 8 && n < TWO64
    ensures Os2ip(I2osp(n, bytes)) == n
  {
    hide Pow;
    Pow2IsPow(64);
    TwoTo64(64);
    PowMul(2, 8, bytes);
    assert Pow(2, 8) == 256 by { EightTwos(); }
    Os2ipOfI2osp(n, bytes);
  }

  lemma EightTwos()
    ensures Pow(2, 8) == 256
  {}

  /** The digest: the blocks of the padded message compressed in order from the initial value, and the words written
      out, a word's first byte its most significant. */
  lemma DigestIs(m: seq<u8>, h: Chaining, i: nat, j: nat)
    requires h == Chain(INITIAL, Padded(m)) && i < 8 && j < 4
    ensures Digest(m)[4 * i + j] == h[i] / Pow2(24 - 8 * j) % 0x100
  {
    hide Chain;
    hide Padded;
    hide WordByte;
    assert (4 * i + j) / 4 == i && (4 * i + j) % 4 == j;
    WordByteIs(h[i], j);
  }

  lemma WordByteIs(w: u32, j: nat)
    requires j < 4
    ensures WordByte(w, j) == w / Pow2(24 - 8 * j) % 0x100
  {
    Powers();
    Pow2Known(14, 10, 0x4000, 0x400);
    Pow2Known(6, 10, 0x40, 0x400);
    Pow2Known(6, 2, 0x40, 4);
    ModSmall(w / 0x100_0000, 0x100);
    assert Pow2(0) == 1;
  }

  lemma ChainIs(h: Chaining, a: seq<u8>, b: Block)
    requires |a| % 64 == 0
    ensures Chain(h, []) == h && Chain(h, a + b) == Compress(Chain(h, a), b)
  {
    hide Compress;
    assert Chain(h, []) == h;
    ChainAppend(h, a, b);
    OneBlock(Chain(h, a), b);
  }
}

/** ChaCha20 in the numbers of sections 2.1 to 2.4 of RFC 8439: a quarter round, the columns and diagonals of
    two rounds, the words a block starts from and the bytes it ends in (crypto/chacha20.c:7-70). */
module ChaChaLaws {
  import opened Arith
  import opened Machine
  import opened Bits
  import opened ChaCha
  import Poly1305

  // ---- a quarter round ---------------------------------------------------------------------------------------

  /** Section 2.1's quarter round: four sums, and four exclusive ors turned left by 16, 12, 8 and 7. */
  lemma QuarterIs(s: Words, a: nat, b: nat, c: nat, d: nat)
    returns (a1: u32, d1: u32, c1: u32, b1: u32, a2: u32, d2: u32, c2: u32, b2: u32)
    requires a < 16 && b < 16 && c < 16 && d < 16
    requires a != b && a != c && a != d && b != c && b != d && c != d
    ensures a1 == (s[a] as int + s[b]) % 0x1_0000_0000 && c1 == (s[c] as int + d1) % 0x1_0000_0000
    ensures a2 == (a1 as int + b1) % 0x1_0000_0000 && c2 == (c1 as int + d2) % 0x1_0000_0000
    ensures d1 == Xor(s[d], a1) * 0x1_0000 % 0x1_0000_0000 + Xor(s[d], a1) / 0x1_0000
    ensures b1 == Xor(s[b], c1) * 0x1000 % 0x1_0000_0000 + Xor(s[b], c1) / 0x10_0000
    ensures d2 == Xor(d1, a2) * 0x100 % 0x1_0000_0000 + Xor(d1, a2) / 0x100_0000
    ensures b2 == Xor(b1, c2) * 0x80 % 0x1_0000_0000 + Xor(b1, c2) / 0x200_0000
    ensures Quarter(s, a, b, c, d) == s[a := a2][b := b2][c := c2][d := d2]
  {
    hide *;
    Turns();
    a1 := Plus(s[a], s[b]);
    d1 := Rotl(Xor32(s[d], a1), 0x1_0000, 0x1_0000);
    c1 := Plus(s[c], d1);
    b1 := Rotl(Xor32(s[b], c1), 0x1000, 0x10_0000);
    a2 := Plus(a1, b1);
    d2 := Rotl(Xor32(d1, a2), 0x100, 0x100_0000);
    c2 := Plus(c1, d2);
    b2 := Rotl(Xor32(b1, c2), 0x80, 0x200_0000);
    QuarterWrites(s, a, b, c, d);
    SumIs(s[a], s[b]);
    SumIs(s[c], d1);
    SumIs(a1, b1);
    SumIs(c1, d2);
    TurnIs(Xor32(s[d], a1), 0x1_0000, 0x1_0000);
    TurnIs(Xor32(s[b], c1), 0x1000, 0x10_0000);
    TurnIs(Xor32(d1, a2), 0x100, 0x100_0000);
    TurnIs(Xor32(b1, c2), 0x80, 0x200_0000);
  }

  lemma Turns()
    ensures Rotation(0x1_0000, 0x1_0000) && Rotation(0x1000, 0x10_0000) && Rotation(0x100, 0x100_0000)
    ensures Rotation(0x80, 0x200_0000)
  {}

  lemma SumIs(x: u32, y: u32)
    ensures Plus(x, y) == (x as int + y) % 0x1_0000_0000
  {}

  lemma TurnIs(x: u32, p: nat, q: nat)
    requires Rotation(p, q)
    ensures Rotl(x, p, q) == x * p % 0x1_0000_0000 + x / q
  {}

  lemma LastWrites(s: Words, a: nat, b: nat, c: nat, d: nat, a1: u32, b1: u32, c1: u32, d1: u32, a2: u32, b2: u32,
      c2: u32, d2: u32)
    requires a < 16 && b < 16 && c < 16 && d < 16
    requires a != b && a != c && a != d && b != c && b != d && c != d
    ensures s[a := a1][d := d1][c := c1][b := b1][a := a2][d := d2][c := c2][b := b2]
         == s[a := a2][b := b2][c := c2][d := d2]
  {}

  // ---- two rounds --------------------------------------------------------------------------------------------

  /** The four words a quarter round works on. */
  function Four(s: Words, a: nat, b: nat, c: nat, d: nat): seq<u32>
    requires a < 16 && b < 16 && c < 16 && d < 16
  {
    [s[a], s[b], s[c], s[d]]
  }

  /** A quarter round depends on its four words alone and leaves the others. */
  lemma QuarterLocal(s: Words, t: Words, a: nat, b: nat, c: nat, d: nat)
    requires a < 16 && b < 16 && c < 16 && d < 16
    requires a != b && a != c && a != d && b != c && b != d && c != d
    ensures forall i | 0 <= i < 16 && i != a && i != b && i != c && i != d :: Quarter(s, a, b, c, d)[i] == s[i]
    ensures Four(s, a, b, c, d) == Four(t, a, b, c, d)
        ==> Four(Quarter(s, a, b, c, d), a, b, c, d) == Four(Quarter(t, a, b, c, d), a, b, c, d)
  {
    hide Xor32;
    hide Rotl;
    hide Plus;
    QuarterWrites(s, a, b, c, d);
    QuarterWrites(t, a, b, c, d);
    assert Four(s, a, b, c, d) == Four(t, a, b, c, d) ==> s[a] == t[a] && s[b] == t[b] && s[c] == t[c] && s[d] == t[d];
  }

  lemma QuarterWrites(s: Words, a: nat, b: nat, c: nat, d: nat)
    requires a < 16 && b < 16 && c < 16 && d < 16
    requires a != b && a != c && a != d && b != c && b != d && c != d
    ensures var a1 := Plus(s[a], s[b]);
            var d1 := Rotl(Xor32(s[d], a1), 0x1_0000, 0x1_0000);
            var c1 := Plus(s[c], d1);
            var b1 := Rotl(Xor32(s[b], c1), 0x1000, 0x10_0000);
            var a2 := Plus(a1, b1);
            var d2 := Rotl(Xor32(d1, a2), 0x100, 0x100_0000);
            var c2 := Plus(c1, d2);
            var b2 := Rotl(Xor32(b1, c2), 0x80, 0x200_0000);
            Quarter(s, a, b, c, d) == s[a := a2][b := b2][c := c2][d := d2]
  {
    hide Xor32;
    hide Rotl;
    hide Plus;
    var a1 := Plus(s[a], s[b]);
    var d1 := Rotl(Xor32(s[d], a1), 0x1_0000, 0x1_0000);
    var c1 := Plus(s[c], d1);
    var b1 := Rotl(Xor32(s[b], c1), 0x1000, 0x10_0000);
    var a2 := Plus(a1, b1);
    var d2 := Rotl(Xor32(d1, a2), 0x100, 0x100_0000);
    var c2 := Plus(c1, d2);
    var b2 := Rotl(Xor32(b1, c2), 0x80, 0x200_0000);
    LastWrites(s, a, b, c, d, a1, b1, c1, d1, a2, b2, c2, d2);
  }

  lemma ColumnsApart(s: Words, s1: Words, s2: Words, s3: Words, m: Words)
    requires s1 == Quarter(s, 0, 4, 8, 12) && s2 == Quarter(s1, 1, 5, 9, 13)
    requires s3 == Quarter(s2, 2, 6, 10, 14) && m == Quarter(s3, 3, 7, 11, 15)
    ensures Four(m, 0, 4, 8, 12) == Four(Quarter(s, 0, 4, 8, 12), 0, 4, 8, 12)
    ensures Four(m, 1, 5, 9, 13) == Four(Quarter(s, 1, 5, 9, 13), 1, 5, 9, 13)
    ensures Four(m, 2, 6, 10, 14) == Four(Quarter(s, 2, 6, 10, 14), 2, 6, 10, 14)
    ensures Four(m, 3, 7, 11, 15) == Four(Quarter(s, 3, 7, 11, 15), 3, 7, 11, 15)
  {
    hide Quarter;
    QuarterLocal(s, s, 0, 4, 8, 12);
    QuarterLocal(s1, s, 1, 5, 9, 13);
    QuarterLocal(s2, s, 2, 6, 10, 14);
    QuarterLocal(s3, s, 3, 7, 11, 15);
  }

  lemma DiagonalsApart(s: Words, s1: Words, s2: Words, s3: Words, m: Words)
    requires s1 == Quarter(s, 0, 5, 10, 15) && s2 == Quarter(s1, 1, 6, 11, 12)
    requires s3 == Quarter(s2, 2, 7, 8, 13) && m == Quarter(s3, 3, 4, 9, 14)
    ensures Four(m, 0, 5, 10, 15) == Four(Quarter(s, 0, 5, 10, 15), 0, 5, 10, 15)
    ensures Four(m, 1, 6, 11, 12) == Four(Quarter(s, 1, 6, 11, 12), 1, 6, 11, 12)
    ensures Four(m, 2, 7, 8, 13) == Four(Quarter(s, 2, 7, 8, 13), 2, 7, 8, 13)
    ensures Four(m, 3, 4, 9, 14) == Four(Quarter(s, 3, 4, 9, 14), 3, 4, 9, 14)
  {
    hide Quarter;
    QuarterLocal(s, s, 0, 5, 10, 15);
    QuarterLocal(s1, s, 1, 6, 11, 12);
    QuarterLocal(s2, s, 2, 7, 8, 13);
    QuarterLocal(s3, s, 3, 4, 9, 14);
  }

  /** Two rounds: each column's quarter round on the words of the state, then each diagonal's on what that gave. */
  lemma RoundsByLines(s: Words, j: nat, k: nat, l: nat, n: nat) returns (m: Words)
    requires j < 4 && k == 4 + (j + 1) % 4 && l == 8 + (j + 2) % 4 && n == 12 + (j + 3) % 4
    ensures Four(m, j, j + 4, j + 8, j + 12) == Four(Quarter(s, j, j + 4, j + 8, j + 12), j, j + 4, j + 8, j + 12)
    ensures k < 16 && l < 16 && n < 16 && Four(DoubleRound(s), j, k, l, n) == Four(Quarter(m, j, k, l, n), j, k, l, n)
  {
    hide Quarter;
    var s1 := Quarter(s, 0, 4, 8, 12);
    var s2 := Quarter(s1, 1, 5, 9, 13);
    var s3 := Quarter(s2, 2, 6, 10, 14);
    m := Quarter(s3, 3, 7, 11, 15);
    ColumnsApart(s, s1, s2, s3, m);
    var m1 := Quarter(m, 0, 5, 10, 15);
    var m2 := Quarter(m1, 1, 6, 11, 12);
    var m3 := Quarter(m2, 2, 7, 8, 13);
    DiagonalsApart(m, m1, m2, m3, Quarter(m3, 3, 4, 9, 14));
  }

  // ---- a block -------------------------------------------------------------------------------------------------

  lemma LeByteIs(w: u32, k: nat)
    requires k < 4
    ensures LeByte(w, k) == w / Pow2(8 * k) % 0x100
  {
    Powers();
    Pow2Known(16, 8, 0x1_0000, 0x100);
    ModSmall(w / 0x100_0000, 0x100);
    assert Pow2(0) == 1;
  }

  /** A block: ten times two rounds, the state it began with added word by word, a word's first byte its least
      significant. */
  lemma BlockIs(key: seq<u8>, counter: u32, nonce: seq<u8>, n: nat, s: Words, x: Words, i: nat, k: nat)
    requires |key| == 32 && |nonce| == 12 && n == 10 && i < 16 && k < 4
    requires s == InitialState(key, counter, nonce) && x == DoubleRounds(s, n)
    ensures BlockOf(key, counter, nonce)[4 * i + k] == (x[i] as int + s[i]) % 0x1_0000_0000 / Pow2(8 * k) % 0x100
  {
    hide InitialState;
    hide DoubleRounds;
    hide LeByte;
    assert (4 * i + k) / 4 == i && (4 * i + k) % 4 == k;
    LeByteIs(Plus(x[i], s[i]), k);
  }

  lemma RoundsRepeat(s: Words, n: nat)
    ensures DoubleRounds(s, 0) == s && DoubleRounds(s, n + 1) == DoubleRound(DoubleRounds(s, n))
  {}

  lemma WordBytes(b: seq<u8>, at: nat, k: nat)
    requires at + 4 <= |b| && k < 4
    ensures Poly1305.Le32(b, at) / Pow2(8 * k) % 0x100 == b[at + k]
  {
    Powers();
    Pow2Known(16, 8, 0x1_0000, 0x100);
    assert Pow2(0) == 1;
    var x, y, z, w := b[at], b[at + 1], b[at + 2], b[at + 3];
    FourBytes(x, y, z, w, Poly1305.Le32(b, at));
  }

  lemma FourBytes(x: u8, y: u8, z: u8, w: u8, n: int)
    requires n == x + 0x100 * y + 0x1_0000 * z + 0x100_0000 * w
    ensures n % 0x100 == x && n / 0x100 % 0x100 == y && n / 0x1_0000 % 0x100 == z && n / 0x100_0000 % 0x100 == w
  {
    DivModUnique(n, y + 0x100 * z + 0x1_0000 * w, x, 0x100);
    DivModUnique(n, z + 0x100 * w, x + 0x100 * y, 0x1_0000);
    DivModUnique(n, w, x + 0x100 * y + 0x1_0000 * z, 0x100_0000);
    DivModUnique(y + 0x100 * z + 0x1_0000 * w, z + 0x100 * w, y, 0x100);
    DivModUnique(z + 0x100 * w, w, z, 0x100);
  }

  /** The rest of the state a block starts from: the key, the counter and the nonce. */
  lemma InitialIs(key: seq<u8>, counter: u32, nonce: seq<u8>, s: Words, i: nat, k: nat)
    requires |key| == 32 && |nonce| == 12 && s == InitialState(key, counter, nonce) && i < 16 && k < 4
    ensures 4 <= i < 12 ==> s[i] / Pow2(8 * k) % 0x100 == key[4 * (i - 4) + k]
    ensures s[12] == counter
    ensures 13 <= i ==> s[i] / Pow2(8 * k) % 0x100 == nonce[4 * (i - 13) + k]
  {
    hide Poly1305.Le32;
    hide Pow2;
    if 4 <= i < 12 {
      WordBytes(key, 4 * (i - 4), k);
    } else if i >= 13 {
      WordBytes(nonce, 4 * (i - 13), k);
    }
  }

  /** The first four words spell a constant text. */
  lemma ConstantIs(key: seq<u8>, counter: u32, nonce: seq<u8>, s: Words)
    requires |key| == 32 && |nonce| == 12 && s == InitialState(key, counter, nonce)
    ensures s[0] == ('e' as int) + 0x100 * ('x' as int) + 0x1_0000 * ('p' as int) + 0x100_0000 * ('a' as int)
    ensures s[1] == ('n' as int) + 0x100 * ('d' as int) + 0x1_0000 * (' ' as int) + 0x100_0000 * ('3' as int)
    ensures s[2] == ('2' as int) + 0x100 * ('-' as int) + 0x1_0000 * ('b' as int) + 0x100_0000 * ('y' as int)
    ensures s[3] == ('t' as int) + 0x100 * ('e' as int) + 0x1_0000 * (' ' as int) + 0x100_0000 * ('k' as int)
  {}

  /** The keystream: block after block, from the counter on. */
  lemma KeystreamIs(key: seq<u8>, counter: u32, nonce: seq<u8>, n: nat, j: nat, k: nat)
    requires |key| == 32 && |nonce| == 12 && k < 64 && 64 * j + k < n
    ensures Keystream(key, counter, nonce, n)[64 * j + k] == BlockOf(key, (counter + j) % 0x1_0000_0000, nonce)[k]
  {
    hide BlockOf;
    DivModUnique(64 * j + k, j, k, 64);
  }
}

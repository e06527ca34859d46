/** The cipher byte by byte, in the numbers of sections 5.1 and 5.2 of FIPS 197: which bytes of one state meet in a
    byte of the next, and how one word of the key schedule follows from the ones before (crypto/aead.c:46-105). */
module AesLaws {
  import opened Arith
  import opened Bits
  import opened Machine
  import opened AesBox
  import opened AesField
  import opened AesInverse
  import opened Aes

  lemma ByteIs(w: u32, i: nat)
    requires i < 4
    ensures ByteOf(w, i) == w / Pow2(24 - 8 * i) % 0x100
  {
    var k: nat := 24;
    TwoTo24(k);
    var b: nat := 16;
    TwoTo16(b);
    EightBits();
    assert w / 0x100_0000 < 0x100;
    ModSmall(w / 0x100_0000, 0x100);
    assert Pow2(0) == 1;
  }

  lemma TwoAndThree(a: u8)
    ensures Product(a, 2, 8) == Xt(a) && Product(a, 3, 8) == Xor8(Xt(a), a)
  {
    hide Product;
    hide Xor8;
    hide Xt;
    ProductByBits(Xt(a), 0, 8);
    ProductByBits(a, 1, 8);
    ZeroRight(Xt(a));
    CommutesBytes(a, Xt(a));
  }

  lemma Turned(a: u8, b: u8, c: u8, d: u8)
    ensures Sum4(a, b, c, d) == Sum4(d, a, b, c) == Sum4(c, d, a, b) == Sum4(b, c, d, a)
  {
    hide Sum4;
    Rotated(a, b, c, d);
    Rotated(b, c, d, a);
    Rotated(c, d, a, b);
    Rotated(d, a, b, c);
  }

  /** The matrix of section 5.1.3: each row is the one above turned right. */
  lemma MixRows(v: Column)
    ensures Mix(v).a == Xor8(Xor8(Xor8(Product(v.a, 2, 8), Product(v.b, 3, 8)), v.c), v.d)
    ensures Mix(v).b == Xor8(Xor8(Xor8(Product(v.b, 2, 8), Product(v.c, 3, 8)), v.d), v.a)
    ensures Mix(v).c == Xor8(Xor8(Xor8(Product(v.c, 2, 8), Product(v.d, 3, 8)), v.a), v.b)
    ensures Mix(v).d == Xor8(Xor8(Xor8(Product(v.d, 2, 8), Product(v.a, 3, 8)), v.b), v.c)
  {
    hide Xor8;
    hide Xt;
    hide Product;
    TwoAndThree(v.a);
    TwoAndThree(v.b);
    TwoAndThree(v.c);
    TwoAndThree(v.d);
    Turned(Xt(v.b), Times3(v.c), v.d, v.a);
    Turned(Xt(v.c), Times3(v.d), v.a, v.b);
    Turned(Xt(v.d), Times3(v.a), v.b, v.c);
  }

  lemma MixByte(v: Column, i: nat)
    requires i < 4
    ensures At(Mix(v), i) == Xor8(Xor8(Xor8(Product(At(v, i), 2, 8), Product(At(v, (i + 1) % 4), 3, 8)),
                                  At(v, (i + 2) % 4)), At(v, (i + 3) % 4))
  {
    hide Xor8;
    hide Product;
    hide Mix;
    MixRows(v);
    Around(i);
  }

  lemma Around(i: nat)
    requires i < 4
    ensures (i + 1) % 4 == (if i < 3 then i + 1 else 0) && (i + 2) % 4 == (if i < 2 then i + 2 else i - 2)
    ensures (i + 3) % 4 == (if i < 1 then 3 else i - 1)
  {}

  lemma SubShifted(s: State, c: nat, i: nat, m: nat)
    requires c < 4 && i < 4 && m == 4 * ((c + i) % 4) + i
    ensures m < 16 && At(Col(SubShift(s), c), i) == Sbox(s[m]) && SubShift(s)[4 * c + i] == Sbox(s[m])
  {
    hide Sbox;
  }

  lemma MixedByte(s: State, c: nat, i: nat)
    requires c < 4 && i < 4
    ensures MixAll(s)[4 * c + i] == At(Mix(Col(s, c)), i)
  {
    hide Mix;
  }

  /** A full round: row i takes its byte from i columns on, and a byte of the column is twice its own byte, three
      times the next and the other two, with the key's byte. */
  lemma RoundByte(s: State, k: State, c: nat, i: nat, j: nat, h: nat, l: nat, m: nat, n: nat, o: nat, p: nat)
    requires c < 4 && i < 4 && j == (i + 1) % 4 && h == (i + 2) % 4 && l == (i + 3) % 4
    requires m == 4 * ((c + i) % 4) + i && n == 4 * ((c + j) % 4) + j
    requires o == 4 * ((c + h) % 4) + h && p == 4 * ((c + l) % 4) + l
    ensures m < 16 && n < 16 && o < 16 && p < 16
    ensures AddKey(MixAll(SubShift(s)), k)[4 * c + i]
         == Xor8(Xor8(Xor8(Xor8(Product(Sbox(s[m]), 2, 8), Product(Sbox(s[n]), 3, 8)), Sbox(s[o])), Sbox(s[p])),
                 k[4 * c + i])
  {
    hide *;
    var t := SubShift(s);
    SubShifted(s, c, i, m);
    SubShifted(s, c, j, n);
    SubShifted(s, c, h, o);
    SubShifted(s, c, l, p);
    MixByte(Col(t, c), i);
    MixedByte(t, c, i);
  }

  /** The last round has no mix. */
  lemma LastByte(s: State, k: State, c: nat, i: nat, m: nat)
    requires c < 4 && i < 4 && m == 4 * ((c + i) % 4) + i
    ensures m < 16 && AddKey(SubShift(s), k)[4 * c + i] == Xor8(Sbox(s[m]), k[4 * c + i])
  {
    hide Sbox;
    hide Xor8;
    hide SubShift;
    SubShifted(s, c, i, m);
  }

  /** The rounds of a cipher under ten round keys after the first. */
  lemma RoundsAre(rk: seq<u32>, x: State, r: nat)
    requires |rk| == 44 && 0 < r <= 9
    ensures Rounds(rk, x, r) == AddKey(MixAll(SubShift(Rounds(rk, x, r - 1))), RoundKey(rk, r))
    ensures r == 9 ==> Cipher(rk, x) == AddKey(SubShift(Rounds(rk, x, r)), RoundKey(rk, r + 1))
  {}

  /** A round key is four words, a word's first byte its most significant. */
  lemma KeyByte(rk: seq<u32>, r: nat, c: nat, i: nat, word: u32)
    requires 4 * r + 4 <= |rk| && c < 4 && i < 4 && word == rk[4 * r + c]
    ensures RoundKey(rk, r)[4 * c + i] == word / Pow2(24 - 8 * i) % 0x100
  {
    hide ByteOf;
    hide RoundKey;
    RoundKeyByte(rk, r, 4 * c + i);
    assert (4 * c + i) / 4 == c && (4 * c + i) % 4 == i;
    ByteIs(word, i);
  }

  // ---- the key schedule -------------------------------------------------------------------------------

  lemma Constant(n: nat)
    requires n < 10
    ensures Power(n) == [0x01, 0x02, 0x04, 0x08, 0x10, 0x20, 0x40, 0x80, 0x1b, 0x36][n]
  {
    hide Power;
    RconIsPower(n);
  }

  /** Word i of the key schedule: the key itself, then the word four before with the last one, every fourth time
      turned by a byte, substituted and with a power of x added to its first byte. */
  lemma ScheduleWord(key: State, rk: seq<u32>, i: nat, w: u32, before: u32, constant: u8, turned: u32, top: u32)
    requires rk == KeySchedule(key) && 4 <= i < 44 && w == rk[i - 1] && before == rk[i - 4]
    requires i / 4 - 1 < 10
    requires constant == [0x01, 0x02, 0x04, 0x08, 0x10, 0x20, 0x40, 0x80, 0x1b, 0x36][i / 4 - 1]
    requires turned == (Sbox(w / 0x1_0000 % 0x100) as int) * 0x100_0000 + (Sbox(w / 0x100 % 0x100) as int) * 0x1_0000
                     + (Sbox(w % 0x100) as int) * 0x100 + Sbox(w / 0x100_0000)
    requires top == (constant as int) * 0x100_0000
    ensures rk[i] == Xor32(before, if i % 4 == 0 then Xor32(turned, top) else w)
  {
    hide Sbox;
    hide Xor8;
    hide Xor32;
    hide Power;
    hide XorCol;
    hide WordOf;
    hide ByteOf;
    var v := KeyWord(key, i - 1);
    BytesOfWord(v);
    ScheduleIs(key, rk, i);
    if i % 4 == 0 {
      var sub, p := SubWord(Turn(v)), Column(constant, 0, 0, 0);
      Constant(i / 4 - 1);
      WordXor(sub, p);
      WordXor(KeyWord(key, i - 4), XorCol(sub, p));
      TopByte(constant);
      TurnedWord(w, v, turned);
    } else {
      WordXor(KeyWord(key, i - 4), v);
    }
  }

  lemma ScheduleIs(key: State, rk: seq<u32>, i: nat)
    requires rk == KeySchedule(key) && 4 <= i < 44
    ensures rk[i] == WordOf(KeyWord(key, i)) && rk[i - 1] == WordOf(KeyWord(key, i - 1))
    ensures rk[i - 4] == WordOf(KeyWord(key, i - 4))
  {}

  lemma TurnedWord(w: u32, v: Column, turned: u32)
    requires w == WordOf(v) && Bytes(w) == v
    requires turned == (Sbox(w / 0x1_0000 % 0x100) as int) * 0x100_0000 + (Sbox(w / 0x100 % 0x100) as int) * 0x1_0000
                     + (Sbox(w % 0x100) as int) * 0x100 + Sbox(w / 0x100_0000)
    ensures turned == WordOf(SubWord(Turn(v)))
  {
    hide Sbox;
  }

  lemma ScheduleStart(key: State, rk: seq<u32>, i: nat)
    requires rk == KeySchedule(key) && i < 4
    ensures rk[i] == (key[4 * i] as int) * 0x100_0000 + (key[4 * i + 1] as int) * 0x1_0000
                   + (key[4 * i + 2] as int) * 0x100 + key[4 * i + 3]
  {
  }
}

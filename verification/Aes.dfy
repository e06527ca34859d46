/** AES-128: T-table encryption (crypto/aead.c:46-105) and the byte-wise inverse cipher
    (crypto/wifi_crypto.c:135-155), against the cipher of section 5 of FIPS 197. */
module Aes {
  import opened Arith
  import opened Machine
  import opened Bits
  import opened AesBox
  import opened AesField

  // ---- the cipher ----------------------------------------------------------------------------------

  type State = s: seq<u8> | |s| == 16 witness seq(16, i => 0)

  function Col(s: State, c: nat): Column
    requires c < 4
  {
    Column(s[4 * c], s[4 * c + 1], s[4 * c + 2], s[4 * c + 3])
  }

  function At(v: Column, r: nat): u8 {
    if r == 0 then v.a else if r == 1 then v.b else if r == 2 then v.c else v.d
  }

  /** A state from its columns. */
  function Columns(p: Column, q: Column, r: Column, s: Column): State {
    [p.a, p.b, p.c, p.d, q.a, q.b, q.c, q.d, r.a, r.b, r.c, r.d, s.a, s.b, s.c, s.d]
  }

  /** SubBytes and ShiftRows: row r moves left by r. */
  function SubShift(s: State): State {
    Columns(Column(Sbox(s[0]), Sbox(s[5]), Sbox(s[10]), Sbox(s[15])),
        Column(Sbox(s[4]), Sbox(s[9]), Sbox(s[14]), Sbox(s[3])),
            Column(Sbox(s[8]), Sbox(s[13]), Sbox(s[2]), Sbox(s[7])),
                Column(Sbox(s[12]), Sbox(s[1]), Sbox(s[6]), Sbox(s[11])))
  }

  function MixAll(s: State): State {
    Columns(Mix(Col(s, 0)), Mix(Col(s, 1)), Mix(Col(s, 2)), Mix(Col(s, 3)))
  }

  function AddKey(s: State, k: State): (r: State)
    ensures forall i :: 0 <= i < 16 ==> r[i] == Xor8(s[i], k[i])
  {
    seq(16, i requires 0 <= i < 16 => Xor8(s[i], k[i]))
  }

  /** Byte j of a word, the most significant first. */
  function ByteOf(w: u32, j: nat): u8 {
    if j == 0 then w / 0x100_0000 else if j == 1 then w / 0x1_0000 % 0x100 else if j == 2 then w / 0x100 % 0x100
        else w % 0x100
  }

  function Bytes(w: u32): Column {
    Column(ByteOf(w, 0), ByteOf(w, 1), ByteOf(w, 2), ByteOf(w, 3))
  }

  function RoundKey(rk: seq<u32>, r: nat): State
    requires 4 * r + 4 <= |rk|
  {
    Columns(Bytes(rk[4 * r]), Bytes(rk[4 * r + 1]), Bytes(rk[4 * r + 2]), Bytes(rk[4 * r + 3]))
  }

  /** The state after the first r rounds. */
  function Rounds(rk: seq<u32>, x: State, r: nat): State
    requires 4 * r + 4 <= |rk|
  {
    if r == 0 then AddKey(x, RoundKey(rk, 0)) else AddKey(MixAll(SubShift(Rounds(rk, x, r - 1))), RoundKey(rk, r))
  }

  /** Nine full rounds and one without the mix. */
  function Cipher(rk: seq<u32>, x: State): State
    requires |rk| == 44
  {
    AddKey(SubShift(Rounds(rk, x, 9)), RoundKey(rk, 10))
  }

  // ---- its inverse ------------------------------------------------------------------------------------

  function InvSubShift(s: State): State {
    Columns(
      Column(InvSbox(s[0]), InvSbox(s[13]), InvSbox(s[10]), InvSbox(s[7])),
          Column(InvSbox(s[4]), InvSbox(s[1]), InvSbox(s[14]), InvSbox(s[11])),
      Column(InvSbox(s[8]), InvSbox(s[5]), InvSbox(s[2]), InvSbox(s[15])),
          Column(InvSbox(s[12]), InvSbox(s[9]), InvSbox(s[6]), InvSbox(s[3])))
  }

  function InvMixAll(s: State): State {
    Columns(InvMix(Col(s, 0)), InvMix(Col(s, 1)), InvMix(Col(s, 2)), InvMix(Col(s, 3)))
  }

  /** One round taken back. */
  function InvRound(s: State, k: State): State {
    var t := InvMixAll(AddKey(s, k));
    InvSubShift(t)
  }

  /** From the state after r rounds back to the block. */
  function Unround(rk: seq<u32>, s: State, r: nat): State
    requires 4 * r + 4 <= |rk|
    decreases r
  {
    if r == 0 then AddKey(s, RoundKey(rk, 0)) else Unround(rk, InvRound(s, RoundKey(rk, r)), r - 1)
  }

  function Decipher(rk: seq<u32>, y: State): State
    requires |rk| == 44
  {
    Unround(rk, InvSubShift(AddKey(y, RoundKey(rk, 10))), 9)
  }

  lemma KeyTwice(s: State, k: State)
    ensures AddKey(AddKey(s, k), k) == s
  {
    hide Xor8;
    forall i | 0 <= i < 16
      ensures Xor8(Xor8(s[i], k[i]), k[i]) == s[i]
    {
      AssocBytes(s[i], k[i], k[i]);
      SelfBytes(k[i]);
      ZeroRight(s[i]);
    }
  }

  lemma SubShiftUndone(s: State)
    ensures InvSubShift(SubShift(s)) == s && SubShift(InvSubShift(s)) == s
  {
    hide Sbox;
    hide InvSbox;
    forall i | 0 <= i < 16
      ensures InvSbox(Sbox(s[i])) == s[i] && Sbox(InvSbox(s[i])) == s[i]
    {
      InvSboxUndoes(s[i]);
      SboxUndoes(s[i]);
    }
  }

  lemma ColumnsBack(s: State)
    ensures Columns(Col(s, 0), Col(s, 1), Col(s, 2), Col(s, 3)) == s
  {}

  lemma MixAllUndone(s: State)
    ensures InvMixAll(MixAll(s)) == s && MixAll(InvMixAll(s)) == s
  {
    hide Mix;
    hide InvMix;
    ColumnsBack(s);
    InvMixUndoes(Col(s, 0));
    InvMixUndoes(Col(s, 1));
    InvMixUndoes(Col(s, 2));
    InvMixUndoes(Col(s, 3));
    MixUndoes(Col(s, 0));
    MixUndoes(Col(s, 1));
    MixUndoes(Col(s, 2));
    MixUndoes(Col(s, 3));
  }

  lemma {:induction false} UnroundUndoes(rk: seq<u32>, x: State, r: nat)
    requires 4 * r + 4 <= |rk|
    ensures Unround(rk, Rounds(rk, x, r), r) == x
  {
    hide RoundKey;
    hide AddKey;
    hide MixAll;
    hide InvMixAll;
    hide SubShift;
    hide InvSubShift;
    if r == 0 {
      KeyTwice(x, RoundKey(rk, 0));
    } else {
      var s := Rounds(rk, x, r - 1);
      KeyTwice(MixAll(SubShift(s)), RoundKey(rk, r));
      MixAllUndone(SubShift(s));
      SubShiftUndone(s);
      UnroundUndoes(rk, x, r - 1);
    }
  }

  /** The inverse cipher undoes the cipher, for every key schedule and block. */
  lemma DecipherUndoes(rk: seq<u32>, x: State)
    requires |rk| == 44
    ensures Decipher(rk, Cipher(rk, x)) == x
  {
    hide RoundKey;
    hide AddKey;
    hide SubShift;
    hide InvSubShift;
    hide Rounds;
    hide Unround;
    KeyTwice(SubShift(Rounds(rk, x, 9)), RoundKey(rk, 10));
    SubShiftUndone(Rounds(rk, x, 9));
    UnroundUndoes(rk, x, 9);
  }

  lemma {:induction false} RoundsUndo(rk: seq<u32>, s: State, r: nat)
    requires 4 * r + 4 <= |rk|
    ensures Rounds(rk, Unround(rk, s, r), r) == s
    decreases r
  {
    hide RoundKey;
    hide AddKey;
    hide MixAll;
    hide InvMixAll;
    hide SubShift;
    hide InvSubShift;
    if r == 0 {
      KeyTwice(s, RoundKey(rk, 0));
    } else {
      var k := RoundKey(rk, r);
      var t := InvSubShift(InvMixAll(AddKey(s, k)));
      RoundsUndo(rk, t, r - 1);
      SubShiftUndone(InvMixAll(AddKey(s, k)));
      MixAllUndone(AddKey(s, k));
      KeyTwice(s, k);
    }
  }

  /** And the cipher undoes its inverse. */
  lemma CipherUndoes(rk: seq<u32>, y: State)
    requires |rk| == 44
    ensures Cipher(rk, Decipher(rk, y)) == y
  {
    hide RoundKey;
    hide AddKey;
    hide SubShift;
    hide InvSubShift;
    hide Rounds;
    hide Unround;
    var k := RoundKey(rk, 10);
    RoundsUndo(rk, InvSubShift(AddKey(y, k)), 9);
    SubShiftUndone(AddKey(y, k));
    KeyTwice(y, k);
  }

  // ---- words and columns ------------------------------------------------------------------------------

  /** Four bytes as a word, the first most significant. */
  function WordOf(v: Column): u32 {
    v.a * 0x100_0000 + v.b * 0x1_0000 + v.c * 0x100 + v.d
  }

  lemma BytesOfWord(v: Column)
    ensures Bytes(WordOf(v)) == v
  {
    var w := WordOf(v);
    DivModUnique(w, v.a, v.b * 0x1_0000 + v.c * 0x100 + v.d, 0x100_0000);
    DivModUnique(w, v.a * 0x100 + v.b, v.c * 0x100 + v.d, 0x1_0000);
    DivModUnique(w, v.a * 0x1_0000 + v.b * 0x100 + v.c, v.d, 0x100);
    DivModUnique(v.a * 0x100 + v.b, v.a, v.b, 0x100);
    DivModUnique(v.a * 0x1_0000 + v.b * 0x100 + v.c, v.a * 0x100 + v.b, v.c, 0x100);
  }

  lemma WordOfBytes(w: u32)
    ensures WordOf(Bytes(w)) == w
  {
    NestedQuotients(w);
  }

  function XorCol(p: Column, q: Column): Column {
    Column(Xor8(p.a, q.a), Xor8(p.b, q.b), Xor8(p.c, q.c), Xor8(p.d, q.d))
  }

  /** Words are added byte by byte. */
  lemma WordXor(p: Column, q: Column)
    ensures Xor32(WordOf(p), WordOf(q)) == WordOf(XorCol(p, q))
  {
    hide Xor;
    hide Xor8;
    assert Pow2(8) == 0x100;
    AppendByte(p.a, p.b, q.a, q.b, p.a * 0x100 + p.b, q.a * 0x100 + q.b);
    AppendByte(p.a * 0x100 + p.b, p.c, q.a * 0x100 + q.b, q.c, p.a * 0x1_0000 + p.b * 0x100 + p.c,
        q.a * 0x1_0000 + q.b * 0x100 + q.c);
    AppendByte(p.a * 0x1_0000 + p.b * 0x100 + p.c, p.d, q.a * 0x1_0000 + q.b * 0x100 + q.c, q.d, WordOf(p), WordOf(q));
  }

  lemma AppendByte(x: nat, b: u8, y: nat, c: u8, u: nat, v: nat)
    requires u == x * 0x100 + b && v == y * 0x100 + c
    ensures Xor(u, v) == Xor(x, y) * 0x100 + Xor8(b, c)
  {
    hide Xor;
    XorSplit(x, b, y, c, 8, 0x100);
  }

  // ---- the T-tables -----------------------------------------------------------------------------------

  /** Te0 to Te3. */
  datatype Tables = Tables(t0: seq<u32>, t1: seq<u32>, t2: seq<u32>, t3: seq<u32>)

  /** What each table holds for x: one byte's share of a mixed column. */
  ghost predicate Shares(t0: u32, t1: u32, t2: u32, t3: u32, x: u8) {
    var s := Sbox(x);
    && t0 == WordOf(Column(Xt(s), s, s, Times3(s)))
    && t1 == WordOf(Column(Times3(s), Xt(s), s, s))
    && t2 == WordOf(Column(s, Times3(s), Xt(s), s))
    && t3 == WordOf(Column(s, s, Times3(s), Xt(s)))
  }

  ghost predicate Built(t: Tables) {
    && |t.t0| == 256 && |t.t1| == 256 && |t.t2| == 256 && |t.t3| == 256
    && forall x :: 0 <= x < 256 ==> Shares(t.t0[x], t.t1[x], t.t2[x], t.t3[x], x)
  }

  /** ror8. */
  method Ror8(w: u32, ghost v: Column) returns (r: u32)
    requires w == WordOf(v)
    ensures r == WordOf(Column(v.d, v.a, v.b, v.c))
  {
    hide Or;
    hide Pow2;
    var k: nat := 24;
    TwoTo24(k);
    DivModUnique(w, v.a * 0x1_0000 + v.b * 0x100 + v.c, v.d, 0x100);
    DivModUnique(w * 0x100_0000, v.a * 0x1_0000 + v.b * 0x100 + v.c, v.d * 0x100_0000, 0x1_0000_0000);
    OrDisjoint(w / 0x100, v.d, k, 0x100_0000);
    r := Or(w / 0x100, w * 0x100_0000 % 0x1_0000_0000);
  }

  lemma TwoTo24(k: nat)
    requires k == 24
    ensures Pow2(k) == 0x100_0000
  {
    hide Pow2;
    var b: nat := 16;
    TwoTo16(b);
    EightBits();
    Pow2Known(b, 8, 0x1_0000, 0x100);
  }

  lemma EightBits()
    ensures Pow2(8) == 0x100
  {}

  /** build_tables. */
  method BuildTables() returns (t: Tables)
    ensures Built(t)
  {
    hide Sbox;
    hide Xt;
    hide Xor8;
    hide WordOf;
    var t0, t1, t2, t3 := new u32[256], new u32[256], new u32[256], new u32[256];
    var i := 0;
    while i < 256
      invariant 0 <= i <= 256
      invariant forall x :: 0 <= x < i ==> Shares(t0[x], t1[x], t2[x], t3[x], x)
    {
      var s := Sbox(i);
      var s2 := Xt(s);
      var s3 := Xor8(s2, s);
      var w := WordOf(Column(s2, s, s, s3));
      t0[i] := w;
      t1[i] := Ror8(t0[i], Column(s2, s, s, s3));
      t2[i] := Ror8(t1[i], Column(s3, s2, s, s));
      t3[i] := Ror8(t2[i], Column(s, s3, s2, s));
      i := i + 1;
    }
    t := Tables(t0[..], t1[..], t2[..], t3[..]);
  }

  /** Four lookups and a key word make one column of the next state. */
  lemma FourShares(a: u8, b: u8, c: u8, d: u8, k: Column)
    ensures Xor32(Xor32(Xor32(Xor32(WordOf(Column(Xt(a), a, a, Times3(a))), WordOf(Column(Times3(b), Xt(b), b, b))),
                  WordOf(Column(c, Times3(c), Xt(c), c))), WordOf(Column(d, d, Times3(d), Xt(d)))), WordOf(k))
            == WordOf(XorCol(Mix(Column(a, b, c, d)), k))
  {
    hide Xor32;
    hide Xor8;
    hide Xt;
    hide Times3;
    hide WordOf;
    var p, q := Column(Xt(a), a, a, Times3(a)), Column(Times3(b), Xt(b), b, b);
    var r, s := Column(c, Times3(c), Xt(c), c), Column(d, d, Times3(d), Xt(d));
    WordXor(p, q);
    WordXor(XorCol(p, q), r);
    WordXor(XorCol(XorCol(p, q), r), s);
    WordXor(XorCol(XorCol(XorCol(p, q), r), s), k);
  }

  /** One column of a round: bytes a, b, c and d of four words, looked up. */
  method RoundColumn(t: Tables, p: u32, q: u32, r: u32, s: u32, k: u32) returns (w: u32)
    requires Built(t)
    ensures w == WordOf(XorCol(Mix(Column(Sbox(Bytes(p).a), Sbox(Bytes(q).b), Sbox(Bytes(r).c), Sbox(Bytes(s).d))),
      Bytes(k)))
  {
    hide Xor32;
    hide Xor8;
    hide Xt;
    hide Times3;
    hide WordOf;
    hide Sbox;
    var a, b, c, d := Bytes(p).a, Bytes(q).b, Bytes(r).c, Bytes(s).d;
    assert Shares(t.t0[a], t.t1[a], t.t2[a], t.t3[a], a) && Shares(t.t0[b], t.t1[b], t.t2[b], t.t3[b], b);
    assert Shares(t.t0[c], t.t1[c], t.t2[c], t.t3[c], c) && Shares(t.t0[d], t.t1[d], t.t2[d], t.t3[d], d);
    WordOfBytes(k);
    FourShares(Sbox(a), Sbox(b), Sbox(c), Sbox(d), Bytes(k));
    w := Xor32(Xor32(Xor32(Xor32(t.t0[p / 0x100_0000], t.t1[q / 0x1_0000 % 0x100]), t.t2[r / 0x100 % 0x100]),
        t.t3[s % 0x100]), k);
  }

  /** FIN: the last round's column, without the mix. */
  method FinalColumn(p: u32, q: u32, r: u32, s: u32, k: u32) returns (w: u32)
    ensures w == WordOf(XorCol(Column(Sbox(Bytes(p).a), Sbox(Bytes(q).b), Sbox(Bytes(r).c), Sbox(Bytes(s).d)),
      Bytes(k)))
  {
    hide Sbox;
    hide Xor8;
    hide Xor32;
    var v := Column(Sbox(p / 0x100_0000), Sbox(q / 0x1_0000 % 0x100), Sbox(r / 0x100 % 0x100), Sbox(s % 0x100));
    WordOfBytes(k);
    WordXor(v, Bytes(k));
    w := Xor32(WordOf(v), k);
  }

  /** The four words hold a state. */
  ghost predicate Hold(a: u32, b: u32, c: u32, d: u32, s: State) {
    s == Columns(Bytes(a), Bytes(b), Bytes(c), Bytes(d))
  }

  lemma RoundHolds(a: u32, b: u32, c: u32, d: u32, s: State, rk: seq<u32>, r: nat, w: seq<u32>)
    requires Hold(a, b, c, d, s) && 4 * r + 4 <= |rk| && |w| == 4
    requires forall i :: 0 <= i < 4 ==> w[i] == WordOf(XorCol(Mix(Col(SubShift(s), i)), Bytes(rk[4 * r + i])))
    ensures Hold(w[0], w[1], w[2], w[3], AddKey(MixAll(SubShift(s)), RoundKey(rk, r)))
  {
    hide Sbox;
    hide Mix;
    hide Xor8;
    hide WordOf;
    hide ByteOf;
    hide SubShift;
    forall i | 0 <= i < 4
      ensures Bytes(w[i]) == XorCol(Mix(Col(SubShift(s), i)), Bytes(rk[4 * r + i]))
    {
      BytesOfWord(XorCol(Mix(Col(SubShift(s), i)), Bytes(rk[4 * r + i])));
    }
  }

  lemma FinalHolds(a: u32, b: u32, c: u32, d: u32, s: State, rk: seq<u32>, r: nat, w: seq<u32>)
    requires Hold(a, b, c, d, s) && 4 * r + 4 <= |rk| && |w| == 4
    requires forall i :: 0 <= i < 4 ==> w[i] == WordOf(XorCol(Col(SubShift(s), i), Bytes(rk[4 * r + i])))
    ensures Hold(w[0], w[1], w[2], w[3], AddKey(SubShift(s), RoundKey(rk, r)))
  {
    hide Sbox;
    hide Xor8;
    hide WordOf;
    hide ByteOf;
    hide SubShift;
    forall i | 0 <= i < 4
      ensures Bytes(w[i]) == XorCol(Col(SubShift(s), i), Bytes(rk[4 * r + i]))
    {
      BytesOfWord(XorCol(Col(SubShift(s), i), Bytes(rk[4 * r + i])));
    }
  }

  /** be32 and the first key. */
  method LoadColumn(x: State, c: nat, k: u32) returns (w: u32)
    requires c < 4
    ensures w == WordOf(XorCol(Col(x, c), Bytes(k)))
  {
    hide Xor8;
    hide Xor32;
    WordOfBytes(k);
    WordXor(Col(x, c), Bytes(k));
    w := Xor32(WordOf(Col(x, c)), k);
  }

  lemma FirstHolds(x: State, rk: seq<u32>, w: seq<u32>)
    requires |rk| >= 4 && |w| == 4
    requires forall i :: 0 <= i < 4 ==> w[i] == WordOf(XorCol(Col(x, i), Bytes(rk[i])))
    ensures Hold(w[0], w[1], w[2], w[3], AddKey(x, RoundKey(rk, 0)))
  {
    hide Xor8;
    hide WordOf;
    hide ByteOf;
    forall i | 0 <= i < 4
      ensures Bytes(w[i]) == XorCol(Col(x, i), Bytes(rk[i]))
    {
      BytesOfWord(XorCol(Col(x, i), Bytes(rk[i])));
    }
  }

  /** One round on the four words. */
  method FullRound(t: Tables, s0: u32, s1: u32, s2: u32, s3: u32, rk: seq<u32>, r: nat, ghost s: State)
    returns (w0: u32, w1: u32, w2: u32, w3: u32)
    requires Built(t) && 4 * r + 4 <= |rk| && Hold(s0, s1, s2, s3, s)
    ensures Hold(w0, w1, w2, w3, AddKey(MixAll(SubShift(s)), RoundKey(rk, r)))
  {
    hide Sbox;
    hide Mix;
    hide Xor8;
    hide WordOf;
    hide ByteOf;
    hide AddKey;
    hide RoundKey;
    hide MixAll;
    hide Built;
    w0 := RoundColumn(t, s0, s1, s2, s3, rk[4 * r]);
    w1 := RoundColumn(t, s1, s2, s3, s0, rk[4 * r + 1]);
    w2 := RoundColumn(t, s2, s3, s0, s1, rk[4 * r + 2]);
    w3 := RoundColumn(t, s3, s0, s1, s2, rk[4 * r + 3]);
    RoundHolds(s0, s1, s2, s3, s, rk, r, [w0, w1, w2, w3]);
  }

  method LastRound(s0: u32, s1: u32, s2: u32, s3: u32, rk: seq<u32>, r: nat, ghost s: State)
    returns (w0: u32, w1: u32, w2: u32, w3: u32)
    requires 4 * r + 4 <= |rk| && Hold(s0, s1, s2, s3, s)
    ensures Hold(w0, w1, w2, w3, AddKey(SubShift(s), RoundKey(rk, r)))
  {
    hide Sbox;
    hide Xor8;
    hide WordOf;
    hide ByteOf;
    hide AddKey;
    hide RoundKey;
    w0 := FinalColumn(s0, s1, s2, s3, rk[4 * r]);
    w1 := FinalColumn(s1, s2, s3, s0, rk[4 * r + 1]);
    w2 := FinalColumn(s2, s3, s0, s1, rk[4 * r + 2]);
    w3 := FinalColumn(s3, s0, s1, s2, rk[4 * r + 3]);
    FinalHolds(s0, s1, s2, s3, s, rk, r, [w0, w1, w2, w3]);
  }

  /** aes128_encrypt: the T-table cipher is the cipher. */
  method Encrypt(t: Tables, rk: seq<u32>, x: State) returns (out: State)
    requires Built(t) && |rk| == 44
    ensures out == Cipher(rk, x)
  {
    hide Built;
    hide AddKey;
    hide SubShift;
    hide MixAll;
    hide RoundKey;
    hide XorCol;
    hide WordOf;
    hide ByteOf;
    var s0 := LoadColumn(x, 0, rk[0]);
    var s1 := LoadColumn(x, 1, rk[1]);
    var s2 := LoadColumn(x, 2, rk[2]);
    var s3 := LoadColumn(x, 3, rk[3]);
    FirstHolds(x, rk, [s0, s1, s2, s3]);
    var r := 1;
    while r < 10
      invariant 1 <= r <= 10
      invariant Hold(s0, s1, s2, s3, Rounds(rk, x, r - 1))
    {
      s0, s1, s2, s3 := FullRound(t, s0, s1, s2, s3, rk, r, Rounds(rk, x, r - 1));
      r := r + 1;
    }
    s0, s1, s2, s3 := LastRound(s0, s1, s2, s3, rk, 10, Rounds(rk, x, 9));
    out := Columns(Bytes(s0), Bytes(s1), Bytes(s2), Bytes(s3));
  }

  // ---- the key schedule -------------------------------------------------------------------------------

  /** x^n in the byte field. */
  function Power(n: nat): u8 {
    if n == 0 then 1 else Xt(Power(n - 1))
  }

  function SubWord(v: Column): Column {
    Column(Sbox(v.a), Sbox(v.b), Sbox(v.c), Sbox(v.d))
  }

  /** Word i of the key schedule (section 5.2 of FIPS 197), as four bytes. */
  function KeyWord(key: State, i: nat): Column {
    if i < 4 then Col(key, i)
    else if i % 4 == 0 then
      var sub := SubWord(Turn(KeyWord(key, i - 1)));
      XorCol(KeyWord(key, i - 4), XorCol(sub, Column(Power(i / 4 - 1), 0, 0, 0)))
    else XorCol(KeyWord(key, i - 4), KeyWord(key, i - 1))
  }

  const RCON: seq<u8> := [0x01, 0x02, 0x04, 0x08, 0x10, 0x20, 0x40, 0x80, 0x1b, 0x36]

  lemma Doubling(x: u8)
    requires x < 0x80
    ensures Xt(x) == 2 * x
  {
    hide Xor8;
    ModSmall(2 * x, 0x100);
    ZeroRight(2 * x);
  }

  lemma LastPowers()
    ensures Xt(0x80) == 0x1b
  {
    hide Xor8;
    ZeroLeft(0x1b);
  }

  /** The round constants are the powers of x. */
  lemma RconIsPower(n: nat)
    requires n < 10
    ensures RCON[n] == Power(n)
  {
    hide Xt;
    if n > 0 {
      RconIsPower(n - 1);
      LastPowers();
      if RCON[n - 1] < 0x80 { Doubling(RCON[n - 1]); }
    }
  }

  /** RotWord: (t << 8) | (t >> 24). */
  method RotWord(w: u32, ghost v: Column) returns (t: u32)
    requires w == WordOf(v)
    ensures t == WordOf(Turn(v))
  {
    hide Or;
    hide Pow2;
    EightBits();
    ghost var low: nat := v.b * 0x1_0000 + v.c * 0x100 + v.d;
    DivModUnique(w, v.a, low, 0x100_0000);
    DivModUnique(w * 0x100, v.a, low * 0x100, 0x1_0000_0000);
    OrDisjoint(w / 0x100_0000, low, 8, 0x100);
    t := Or(w / 0x100_0000, w * 0x100 % 0x1_0000_0000);
  }

  /** SubWord and the round constant. */
  method Schedule(w: u32, n: nat, ghost v: Column) returns (r: u32)
    requires n < 10 && w == WordOf(v)
    ensures r == WordOf(XorCol(SubWord(Turn(v)), Column(Power(n), 0, 0, 0)))
  {
    hide Sbox;
    hide Xor8;
    hide Xor32;
    hide WordOf;
    hide ByteOf;
    hide SubWord;
    RconIsPower(n);
    var t := RotWord(w, v);
    BytesOfWord(Turn(v));
    t := Substitute(t);
    WordXor(SubWord(Turn(v)), Column(RCON[n], 0, 0, 0));
    TopByte(RCON[n]);
    var top: u32 := (RCON[n] as int) * 0x100_0000;
    r := Xor32(t, top);
  }

  method Substitute(w: u32) returns (r: u32)
    ensures r == WordOf(SubWord(Bytes(w)))
  {
    hide Sbox;
    hide WordOf;
    r := WordOf(Column(Sbox(w / 0x100_0000), Sbox(w / 0x1_0000 % 0x100), Sbox(w / 0x100 % 0x100), Sbox(w % 0x100)));
  }

  lemma TopByte(x: u8)
    ensures WordOf(Column(x, 0, 0, 0)) == x * 0x100_0000
  {}

  /** The words of a key schedule. */
  ghost predicate Scheduled(rk: seq<u32>, key: State, n: nat) {
    n <= |rk| && forall i :: 0 <= i < n ==> rk[i] == WordOf(KeyWord(key, i))
  }

  function KeySchedule(key: State): (rk: seq<u32>)
    ensures |rk| == 44
  {
    seq(44, i requires 0 <= i < 44 => WordOf(KeyWord(key, i)))
  }

  /** aes128_init. */
  method Expand(key: State) returns (rk: seq<u32>)
    ensures rk == KeySchedule(key)
  {
    hide Sbox;
    hide Xor8;
    hide Xor32;
    hide WordOf;
    hide SubWord;
    hide Power;
    rk := [];
    var i := 0;
    while i < 4
      invariant 0 <= i <= 4 && |rk| == i && Scheduled(rk, key, i)
    {
      rk := rk + [WordOf(Col(key, i))];
      i := i + 1;
    }
    while i < 44
      invariant 4 <= i <= 44 && |rk| == i && Scheduled(rk, key, i)
    {
      var t := rk[i - 1];
      ghost var v := KeyWord(key, i - 1);
      if i % 4 == 0 {
        t := Schedule(t, i / 4 - 1, v);
        v := XorCol(SubWord(Turn(v)), Column(Power(i / 4 - 1), 0, 0, 0));
      }
      WordXor(KeyWord(key, i - 4), v);
      rk := rk + [Xor32(rk[i - 4], t)];
      i := i + 1;
    }
  }

  // ---- the inverse cipher in place ---------------------------------------------------------------------

  lemma RoundKeyByte(rk: seq<u32>, r: nat, i: nat)
    requires 4 * r + 4 <= |rk| && i < 16
    ensures RoundKey(rk, r)[i] == ByteOf(rk[4 * r + i / 4], i % 4)
  {
    hide ByteOf;
  }

  /** addkey. */
  method AddKeyInPlace(s: array<u8>, rk: seq<u32>, r: nat)
    requires s.Length == 16 && 4 * r + 4 <= |rk|
    modifies s
    ensures s[..] == AddKey(old(s[..]), RoundKey(rk, r))
  {
    hide Xor8;
    hide ByteOf;
    hide RoundKey;
    ghost var s0: State := s[..];
    var i := 0;
    while i < 16
      invariant 0 <= i <= 16
      invariant forall k :: 0 <= k < i ==> s[k] == Xor8(s0[k], RoundKey(rk, r)[k])
      invariant forall k :: i <= k < 16 ==> s[k] == s0[k]
    {
      RoundKeyByte(rk, r, i);
      s[i] := Xor8(s[i], ByteOf(rk[r * 4 + i / 4], i % 4));
      i := i + 1;
    }
  }

  lemma Wrapped(k: nat)
    requires 1 <= k <= 7
    ensures k % 4 == if k >= 4 then k - 4 else k
  {}

  /** Byte r of column c moves back from column c - r. */
  lemma MovedBack(s: State, r: nat, c: nat, k: nat)
    requires r < 4 && c < 4 && k == (if c >= r then c - r else c - r + 4)
    ensures r + 4 * k < 16 && InvSubShift(s)[r + 4 * c] == InvSbox(s[r + 4 * k])
  {
    hide InvSbox;
    if c == 0 {
    } else if c == 1 {
    } else if c == 2 {
    } else {
    }
  }

  /** The two loops over rows and columns. */
  method InvSubShiftInto(t: array<u8>, s: State)
    requires t.Length == 16
    modifies t
    ensures t[..] == InvSubShift(s)
  {
    hide InvSbox;
    hide InvSubShift;
    var r := 0;
    while r < 4
      invariant 0 <= r <= 4
      invariant forall k :: 0 <= k < 16 && k % 4 < r ==> t[k] == InvSubShift(s)[k]
    {
      var c := 0;
      while c < 4
        invariant 0 <= c <= 4
        invariant forall k :: 0 <= k < 16 && (k % 4 < r || (k % 4 == r && k / 4 < c)) ==> t[k] == InvSubShift(s)[k]
      {
        Wrapped(c - r + 4);
        MovedBack(s, r, c, (c - r + 4) % 4);
        DivModUnique(r + 4 * c, c, r, 4);
        t[r + 4 * c] := InvSbox(s[r + 4 * ((c - r + 4) % 4)]);
        c := c + 1;
      }
      r := r + 1;
    }
  }

  /** One column of the inverse mix. */
  method InvMixColumn(v: Column) returns (t: Column)
    ensures t == InvMix(v)
  {
    hide Xor8;
    hide Product;
    var a14 := Mul(v.a, 14);
    var a9 := Mul(v.a, 9);
    var a13 := Mul(v.a, 13);
    var a11 := Mul(v.a, 11);
    var b11 := Mul(v.b, 11);
    var b14 := Mul(v.b, 14);
    var b9 := Mul(v.b, 9);
    var b13 := Mul(v.b, 13);
    var c13 := Mul(v.c, 13);
    var c11 := Mul(v.c, 11);
    var c14 := Mul(v.c, 14);
    var c9 := Mul(v.c, 9);
    var d9 := Mul(v.d, 9);
    var d13 := Mul(v.d, 13);
    var d11 := Mul(v.d, 11);
    var d14 := Mul(v.d, 14);
    t := Column(Sum4(a14, b11, c13, d9), Sum4(a9, b14, c11, d13), Sum4(a13, b9, c14, d11), Sum4(a11, b13, c9, d14));
  }

  method InvMixInPlace(s: array<u8>)
    requires s.Length == 16
    modifies s
    ensures s[..] == InvMixAll(old(s[..]))
  {
    hide InvMix;
    ghost var s0: State := s[..];
    var c := 0;
    while c < 4
      invariant 0 <= c <= 4
      invariant forall j :: 0 <= j < c ==> Col(s[..], j) == InvMix(Col(s0, j))
      invariant forall j :: c <= j < 4 ==> Col(s[..], j) == Col(s0, j)
    {
      var t := InvMixColumn(Column(s[4 * c], s[4 * c + 1], s[4 * c + 2], s[4 * c + 3]));
      PutColumn(s, c, t);
      c := c + 1;
    }
    ColumnsBack(s[..]);
  }

  /** The four bytes of one column. */
  method PutColumn(s: array<u8>, c: nat, t: Column)
    requires s.Length == 16 && c < 4
    modifies s
    ensures Col(s[..], c) == t && forall j :: 0 <= j < 4 && j != c ==> Col(s[..], j) == Col(old(s[..]), j)
  {
    s[4 * c] := t.a;
    s[4 * c + 1] := t.b;
    s[4 * c + 2] := t.c;
    s[4 * c + 3] := t.d;
  }

  /** decrypt. */
  method Decrypt(rk: seq<u32>, b: State) returns (out: State)
    requires |rk| == 44
    ensures out == Decipher(rk, b)
  {
    hide AddKey;
    hide RoundKey;
    hide InvSubShift;
    hide InvMixAll;
    var s := new u8[16](i requires 0 <= i < 16 => b[i]);
    assert s[..] == b;
    AddKeyInPlace(s, rk, 10);
    var round := 9;
    while round >= 0
      invariant -1 <= round <= 9
      invariant round >= 0 ==> Unround(rk, InvSubShift(s[..]), round) == Decipher(rk, b)
      invariant round == -1 ==> s[..] == Decipher(rk, b)
    {
      ghost var v: State := s[..];
      var t := new u8[16];
      InvSubShiftInto(t, s[..]);
      forall i | 0 <= i < 16 { s[i] := t[i]; }
      assert s[..] == t[..];
      AddKeyInPlace(s, rk, round);
      ghost var w: State := s[..];
      assert w == AddKey(InvSubShift(v), RoundKey(rk, round));
      if round > 0 {
        InvMixInPlace(s);
        assert s[..] == InvMixAll(w);
        assert InvSubShift(s[..]) == InvRound(InvSubShift(v), RoundKey(rk, round));
      }
      round := round - 1;
    }
    out := s[..];
  }
}

/** The S-box as section 5.1.1 of FIPS 197 defines it, the inverse in the byte field and then the affine map
    (crypto/aead.c:29-46), and the field itself bit by bit (crypto/aead.c:53). Bytes are bit vectors here. */
module AesInverse {
  import opened Arith
  import opened Bits
  import opened Machine
  import opened AesBox
  import opened AesField

  // ---- a byte as a number and as a bit vector ------------------------------------------------------

  function Num(v: bv8): u8 {
    (if v & 0x80 != 0 then 128 else 0) + (if v & 0x40 != 0 then 64 else 0) + (if v & 0x20 != 0 then 32 else 0)
    + (if v & 0x10 != 0 then 16 else 0) + (if v & 8 != 0 then 8 else 0) + (if v & 4 != 0 then 4 else 0)
    + (if v & 2 != 0 then 2 else 0) + (if v & 1 != 0 then 1 else 0)
  }

  lemma HasNibble(x: nat) returns (v: bv8)
    requires x < 16
    ensures v < 16 && Num(v) == x
  {
    v := (if x / 8 == 1 then 8 else 0) | (if x / 4 % 2 == 1 then 4 else 0) | (if x / 2 % 2 == 1 then 2 else 0)
      | (if x % 2 == 1 then 1 else 0);
  }

  lemma NibblesJoin(h: bv8, l: bv8)
    requires h < 16 && l < 16
    ensures Num((h << 4) | l) == 16 * Num(h) + Num(l)
  {}

  lemma HasVector(x: u8) returns (v: bv8)
    ensures Num(v) == x
  {
    hide Num;
    var h := HasNibble(x / 16);
    var l := HasNibble(x % 16);
    NibblesJoin(h, l);
    v := (h << 4) | l;
  }

  lemma ZeroNum()
    ensures Num(0) == 0
  {}

  // ---- the field on bit vectors ----------------------------------------------------------------------

  function Doubled(v: bv8): bv8 {
    (v << 1) ^ (if v & 0x80 != 0 then 0x1b else 0)
  }

  function Sum8(a: bv8, b: bv8, c: bv8, d: bv8, e: bv8, f: bv8, g: bv8, h: bv8): bv8 {
    a ^ b ^ c ^ d ^ e ^ f ^ g ^ h
  }

  function Times(x: bv8, y: bv8): bv8 {
    var x1 := Doubled(x);
    var x2 := Doubled(x1);
    var x3 := Doubled(x2);
    var x4 := Doubled(x3);
    var x5 := Doubled(x4);
    var x6 := Doubled(x5);
    var x7 := Doubled(x6);
    Sum8(if y & 1 != 0 then x else 0, if y & 2 != 0 then x1 else 0, if y & 4 != 0 then x2 else 0,
      if y & 8 != 0 then x3 else 0, if y & 0x10 != 0 then x4 else 0, if y & 0x20 != 0 then x5 else 0,
      if y & 0x40 != 0 then x6 else 0, if y & 0x80 != 0 then x7 else 0)
  }

  function Affine(y: bv8): bv8 {
    y ^ ((y << 4) | (y >> 4)) ^ ((y << 3) | (y >> 5)) ^ ((y << 2) | (y >> 6)) ^ ((y << 1) | (y >> 7)) ^ 0x63
  }

  // ---- each row of the table, with the inverses ------------------------------------------------------

  /** One of sixteen, by the low bits of v. */
  function Among(v: bv8, a: bv8, b: bv8, c: bv8, d: bv8, e: bv8, f: bv8, g: bv8, h: bv8, i: bv8, j: bv8, k: bv8,
      l: bv8, m: bv8, n: bv8, o: bv8, p: bv8): bv8 {
    if v & 8 == 0 then
      if v & 4 == 0 then
        if v & 2 == 0 then (if v & 1 == 0 then a else b) else (if v & 1 == 0 then c else d)
      else
        if v & 2 == 0 then (if v & 1 == 0 then e else f) else (if v & 1 == 0 then g else h)
    else
      if v & 4 == 0 then
        if v & 2 == 0 then (if v & 1 == 0 then i else j) else (if v & 1 == 0 then k else l)
      else
        if v & 2 == 0 then (if v & 1 == 0 then m else n) else (if v & 1 == 0 then o else p)
  }

  /** w is v's inverse, and the table gives its affine image for v. */
  predicate Row(v: bv8, w: bv8) {
    && (if v == 0 then w == 0 else Times(v, w) == 1)
    && Sbox(Num(v)) == Num(Affine(w))
  }

  lemma Row0(v: bv8) returns (w: bv8)
    requires v < 0x10
    ensures Row(v, w)
  {
    w := Among(v, 0x00, 0x01, 0x8d, 0xf6, 0xcb, 0x52, 0x7b, 0xd1, 0xe8, 0x4f, 0x29, 0xc0,
      0xb0, 0xe1, 0xe5, 0xc7);
  }

  lemma Row1(v: bv8) returns (w: bv8)
    requires 0x10 <= v < 0x20
    ensures Row(v, w)
  {
    w := Among(v, 0x74, 0xb4, 0xaa, 0x4b, 0x99, 0x2b, 0x60, 0x5f, 0x58, 0x3f, 0xfd, 0xcc,
      0xff, 0x40, 0xee, 0xb2);
  }

  lemma Row2(v: bv8) returns (w: bv8)
    requires 0x20 <= v < 0x30
    ensures Row(v, w)
  {
    w := Among(v, 0x3a, 0x6e, 0x5a, 0xf1, 0x55, 0x4d, 0xa8, 0xc9, 0xc1, 0x0a, 0x98, 0x15,
      0x30, 0x44, 0xa2, 0xc2);
  }

  lemma Row3(v: bv8) returns (w: bv8)
    requires 0x30 <= v < 0x40
    ensures Row(v, w)
  {
    w := Among(v, 0x2c, 0x45, 0x92, 0x6c, 0xf3, 0x39, 0x66, 0x42, 0xf2, 0x35, 0x20, 0x6f,
      0x77, 0xbb, 0x59, 0x19);
  }

  lemma Row4(v: bv8) returns (w: bv8)
    requires 0x40 <= v < 0x50
    ensures Row(v, w)
  {
    w := Among(v, 0x1d, 0xfe, 0x37, 0x67, 0x2d, 0x31, 0xf5, 0x69, 0xa7, 0x64, 0xab, 0x13,
      0x54, 0x25, 0xe9, 0x09);
  }

  lemma Row5(v: bv8) returns (w: bv8)
    requires 0x50 <= v < 0x60
    ensures Row(v, w)
  {
    w := Among(v, 0xed, 0x5c, 0x05, 0xca, 0x4c, 0x24, 0x87, 0xbf, 0x18, 0x3e, 0x22, 0xf0,
      0x51, 0xec, 0x61, 0x17);
  }

  lemma Row6(v: bv8) returns (w: bv8)
    requires 0x60 <= v < 0x70
    ensures Row(v, w)
  {
    w := Among(v, 0x16, 0x5e, 0xaf, 0xd3, 0x49, 0xa6, 0x36, 0x43, 0xf4, 0x47, 0x91, 0xdf,
      0x33, 0x93, 0x21, 0x3b);
  }

  lemma Row7(v: bv8) returns (w: bv8)
    requires 0x70 <= v < 0x80
    ensures Row(v, w)
  {
    w := Among(v, 0x79, 0xb7, 0x97, 0x85, 0x10, 0xb5, 0xba, 0x3c, 0xb6, 0x70, 0xd0, 0x06,
      0xa1, 0xfa, 0x81, 0x82);
  }

  lemma Row8(v: bv8) returns (w: bv8)
    requires 0x80 <= v < 0x90
    ensures Row(v, w)
  {
    w := Among(v, 0x83, 0x7e, 0x7f, 0x80, 0x96, 0x73, 0xbe, 0x56, 0x9b, 0x9e, 0x95, 0xd9,
      0xf7, 0x02, 0xb9, 0xa4);
  }

  lemma Row9(v: bv8) returns (w: bv8)
    requires 0x90 <= v < 0xa0
    ensures Row(v, w)
  {
    w := Among(v, 0xde, 0x6a, 0x32, 0x6d, 0xd8, 0x8a, 0x84, 0x72, 0x2a, 0x14, 0x9f, 0x88,
      0xf9, 0xdc, 0x89, 0x9a);
  }

  lemma Row10(v: bv8) returns (w: bv8)
    requires 0xa0 <= v < 0xb0
    ensures Row(v, w)
  {
    w := Among(v, 0xfb, 0x7c, 0x2e, 0xc3, 0x8f, 0xb8, 0x65, 0x48, 0x26, 0xc8, 0x12, 0x4a,
      0xce, 0xe7, 0xd2, 0x62);
  }

  lemma Row11(v: bv8) returns (w: bv8)
    requires 0xb0 <= v < 0xc0
    ensures Row(v, w)
  {
    w := Among(v, 0x0c, 0xe0, 0x1f, 0xef, 0x11, 0x75, 0x78, 0x71, 0xa5, 0x8e, 0x76, 0x3d,
      0xbd, 0xbc, 0x86, 0x57);
  }

  lemma Row12(v: bv8) returns (w: bv8)
    requires 0xc0 <= v < 0xd0
    ensures Row(v, w)
  {
    w := Among(v, 0x0b, 0x28, 0x2f, 0xa3, 0xda, 0xd4, 0xe4, 0x0f, 0xa9, 0x27, 0x53, 0x04,
      0x1b, 0xfc, 0xac, 0xe6);
  }

  lemma Row13(v: bv8) returns (w: bv8)
    requires 0xd0 <= v < 0xe0
    ensures Row(v, w)
  {
    w := Among(v, 0x7a, 0x07, 0xae, 0x63, 0xc5, 0xdb, 0xe2, 0xea, 0x94, 0x8b, 0xc4, 0xd5,
      0x9d, 0xf8, 0x90, 0x6b);
  }

  lemma Row14(v: bv8) returns (w: bv8)
    requires 0xe0 <= v < 0xf0
    ensures Row(v, w)
  {
    w := Among(v, 0xb1, 0x0d, 0xd6, 0xeb, 0xc6, 0x0e, 0xcf, 0xad, 0x08, 0x4e, 0xd7, 0xe3,
      0x5d, 0x50, 0x1e, 0xb3);
  }

  lemma Row15(v: bv8) returns (w: bv8)
    requires 0xf0 <= v
    ensures Row(v, w)
  {
    w := Among(v, 0x5b, 0x23, 0x38, 0x34, 0x68, 0x46, 0x03, 0x8c, 0xdd, 0x9c, 0x7d, 0xa0,
      0xcd, 0x1a, 0x41, 0x1c);
  }

  lemma Rows(v: bv8) returns (w: bv8)
    ensures Row(v, w)
  {
    hide *;
    if v < 0x80 {
      w := LowRows(v);
    } else {
      w := HighRows(v);
    }
  }

  lemma LowRows(v: bv8) returns (w: bv8)
    requires v < 0x80
    ensures Row(v, w)
  {
    hide *;
    if v < 0x10 {
      w := Row0(v);
    } else if v < 0x20 {
      w := Row1(v);
    } else if v < 0x30 {
      w := Row2(v);
    } else if v < 0x40 {
      w := Row3(v);
    } else if v < 0x50 {
      w := Row4(v);
    } else if v < 0x60 {
      w := Row5(v);
    } else if v < 0x70 {
      w := Row6(v);
    } else {
      w := Row7(v);
    }
  }

  lemma HighRows(v: bv8) returns (w: bv8)
    requires v >= 0x80
    ensures Row(v, w)
  {
    hide *;
    if v < 0x90 {
      w := Row8(v);
    } else if v < 0xa0 {
      w := Row9(v);
    } else if v < 0xb0 {
      w := Row10(v);
    } else if v < 0xc0 {
      w := Row11(v);
    } else if v < 0xd0 {
      w := Row12(v);
    } else if v < 0xe0 {
      w := Row13(v);
    } else if v < 0xf0 {
      w := Row14(v);
    } else {
      w := Row15(v);
    }
  }

  // ---- the two fields are one ------------------------------------------------------------------------

  function Up(n: nat, d: nat): nat {
    2 * n + d
  }

  /** A digit of the exclusive or. */
  function Sum(b: nat, d: nat): nat {
    if b == d then 0 else 1
  }

  lemma XorUp(a: nat, b: nat, c: nat, d: nat)
    requires b < 2 && d < 2
    ensures Xor(Up(a, b), Up(c, d)) == Up(Xor(a, c), Sum(b, d))
  {
    hide Xor;
    XorStep(Up(a, b), Up(c, d));
    UpIs(a, b);
    UpIs(c, d);
  }

  lemma UpIs(a: nat, b: nat)
    requires b < 2
    ensures Up(a, b) / 2 == a && Up(a, b) % 2 == b
  {}

  /** Eight digits read as a number. */
  function Eight(v7: nat, v6: nat, v5: nat, v4: nat, v3: nat, v2: nat, v1: nat, v0: nat): nat {
    Up(Up(Up(Up(Up(Up(Up(Up(0, v7), v6), v5), v4), v3), v2), v1), v0)
  }

  function Digit(v: bv8, b: bv8): (d: nat)
    ensures d < 2
  {
    if v & b != 0 then 1 else 0
  }

  lemma NumIs(v: bv8)
    ensures Num(v) == Eight(Digit(v, 0x80), Digit(v, 0x40), Digit(v, 0x20), Digit(v, 0x10), Digit(v, 8), Digit(v, 4),
              Digit(v, 2), Digit(v, 1))
  {}

  lemma XorEight(v7: nat, v6: nat, v5: nat, v4: nat, v3: nat, v2: nat, v1: nat, v0: nat, w7: nat, w6: nat, w5: nat,
      w4: nat, w3: nat, w2: nat, w1: nat, w0: nat)
    requires v7 < 2 && v6 < 2 && v5 < 2 && v4 < 2 && v3 < 2 && v2 < 2 && v1 < 2 && v0 < 2
    requires w7 < 2 && w6 < 2 && w5 < 2 && w4 < 2 && w3 < 2 && w2 < 2 && w1 < 2 && w0 < 2
    ensures Xor(Eight(v7, v6, v5, v4, v3, v2, v1, v0), Eight(w7, w6, w5, w4, w3, w2, w1, w0))
         == Eight(Sum(v7, w7), Sum(v6, w6), Sum(v5, w5), Sum(v4, w4), Sum(v3, w3), Sum(v2, w2), Sum(v1, w1),
              Sum(v0, w0))
  {
    hide Xor;
    hide Up;
    hide Sum;
    var a, b := Up(0, v7), Up(0, w7);
    var c, d := Up(a, v6), Up(b, w6);
    var e, f := Up(c, v5), Up(d, w5);
    var g, h := Up(e, v4), Up(f, w4);
    var i, j := Up(g, v3), Up(h, w3);
    var k, l := Up(i, v2), Up(j, w2);
    var m, n := Up(k, v1), Up(l, w1);
    XorZero(0);
    XorUp(0, v7, 0, w7);
    XorUp(a, v6, b, w6);
    XorUp(c, v5, d, w5);
    XorUp(e, v4, f, w4);
    XorUp(g, v3, h, w3);
    XorUp(i, v2, j, w2);
    XorUp(k, v1, l, w1);
    XorUp(m, v0, n, w0);
  }

  lemma DigitXor(v: bv8, w: bv8, b: bv8)
    requires b == 0x80 || b == 0x40 || b == 0x20 || b == 0x10 || b == 8 || b == 4 || b == 2 || b == 1
    ensures Digit(v ^ w, b) == Sum(Digit(v, b), Digit(w, b))
  {}

  lemma XorIs(v: bv8, w: bv8)
    ensures Xor(Num(v), Num(w)) == Num(v ^ w)
  {
    hide *;
    NumIs(v);
    NumIs(w);
    NumIs(v ^ w);
    DigitXor(v, w, 0x80);
    DigitXor(v, w, 0x40);
    DigitXor(v, w, 0x20);
    DigitXor(v, w, 0x10);
    DigitXor(v, w, 8);
    DigitXor(v, w, 4);
    DigitXor(v, w, 2);
    DigitXor(v, w, 1);
    XorEight(Digit(v, 0x80), Digit(v, 0x40), Digit(v, 0x20), Digit(v, 0x10), Digit(v, 8), Digit(v, 4), Digit(v, 2),
      Digit(v, 1), Digit(w, 0x80), Digit(w, 0x40), Digit(w, 0x20), Digit(w, 0x10), Digit(w, 8), Digit(w, 4),
      Digit(w, 2), Digit(w, 1));
  }

  lemma XtIs(v: bv8)
    ensures Xt(Num(v)) == Num(Doubled(v))
  {
    hide Xor;
    XorIs(v << 1, if v & 0x80 != 0 then 0x1b else 0);
  }

  /** What one bit of y adds. */
  function Part(y: bv8, b: bv8, x: bv8): bv8 {
    if y & b != 0 then x else 0
  }

  /** Product's running sum on vectors. */
  function Running(x: bv8, y: bv8, n: nat): bv8
    decreases n
  {
    if n == 0 then 0 else Part(y, 1, x) ^ Running(Doubled(x), y >> 1, n - 1)
  }

  lemma HalfIs(y: bv8)
    ensures Num(y) / 2 == Num(y >> 1) && (Num(y) % 2 == 1 <==> y & 1 != 0)
  {}

  lemma {:induction false} RunningIs(x: bv8, y: bv8, n: nat)
    ensures Product(Num(x), Num(y), n) == Num(Running(x, y, n))
    decreases n
  {
    hide Xor;
    hide Xt;
    hide Doubled;
    hide Num;
    ZeroNum();
    if n > 0 {
      RunningIs(Doubled(x), y >> 1, n - 1);
      XtIs(x);
      HalfIs(y);
      XorIs(Part(y, 1, x), Running(Doubled(x), y >> 1, n - 1));
    }
  }

  lemma PartsShifted(x: bv8, y: bv8, b: bv8)
    requires b == 1 || b == 2 || b == 4 || b == 8
    ensures b < 8 ==> Part(y >> 1, b, x) == Part(y, 2 * b, x)
    ensures b < 4 ==> Part(y >> 2, b, x) == Part(y, 4 * b, x)
    ensures Part(y >> 4, b, x) == Part(y, 16 * b, x)
    ensures (y >> 1) >> 1 == y >> 2 && (y >> 2) >> 2 == y >> 4
  {}

  lemma Two(x: bv8, y: bv8, n: nat)
    requires n >= 2
    ensures Running(x, y, n) == Part(y, 1, x) ^ (Part(y, 2, Doubled(x)) ^ Running(Doubled(Doubled(x)), y >> 2, n - 2))
  {
    hide Doubled;
    hide Part;
    PartsShifted(Doubled(x), y, 1);
  }

  lemma Four(x: bv8, y: bv8, n: nat)
    requires n >= 4
    ensures var x1 := Doubled(x);
            var x2 := Doubled(x1);
            var x3 := Doubled(x2);
            Running(x, y, n) == Part(y, 1, x) ^ (Part(y, 2, x1) ^ (Part(y, 4, x2) ^ (Part(y, 8, x3)
                              ^ Running(Doubled(x3), y >> 4, n - 4))))
  {
    hide *;
    var x2 := Doubled(Doubled(x));
    Two(x, y, n);
    Two(x2, y >> 2, n - 2);
    PartsShifted(x2, y, 1);
    PartsShifted(Doubled(x2), y, 2);
  }

  lemma Nested(a: bv8, b: bv8, c: bv8, d: bv8, e: bv8, f: bv8, g: bv8, h: bv8)
    ensures a ^ (b ^ (c ^ (d ^ (e ^ (f ^ (g ^ (h ^ 0))))))) == Sum8(a, b, c, d, e, f, g, h)
  {}

  lemma RunningParts(x: bv8, x1: bv8, x2: bv8, x3: bv8, x4: bv8, x5: bv8, x6: bv8, x7: bv8, y: bv8)
    requires x1 == Doubled(x) && x2 == Doubled(x1) && x3 == Doubled(x2) && x4 == Doubled(x3)
    requires x5 == Doubled(x4) && x6 == Doubled(x5) && x7 == Doubled(x6)
    ensures Running(x, y, 8)
         == Part(y, 1, x) ^ (Part(y, 2, x1) ^ (Part(y, 4, x2) ^ (Part(y, 8, x3) ^ (Part(y, 0x10, x4)
          ^ (Part(y, 0x20, x5) ^ (Part(y, 0x40, x6) ^ (Part(y, 0x80, x7) ^ 0)))))))
  {
    hide *;
    Four(x, y, 8);
    Four(x4, y >> 4, 4);
    PartsShifted(x4, y, 1);
    PartsShifted(x5, y, 2);
    PartsShifted(x6, y, 4);
    PartsShifted(x7, y, 8);
    RunningNone(Doubled(x7), (y >> 4) >> 4);
  }

  lemma TimesIs(x: bv8, y: bv8)
    ensures Running(x, y, 8) == Times(x, y)
  {
    hide *;
    var x1 := Doubled(x);
    var x2 := Doubled(x1);
    var x3 := Doubled(x2);
    var x4 := Doubled(x3);
    var x5 := Doubled(x4);
    var x6 := Doubled(x5);
    var x7 := Doubled(x6);
    RunningParts(x, x1, x2, x3, x4, x5, x6, x7, y);
    Nested(Part(y, 1, x), Part(y, 2, x1), Part(y, 4, x2), Part(y, 8, x3), Part(y, 0x10, x4), Part(y, 0x20, x5),
      Part(y, 0x40, x6), Part(y, 0x80, x7));
    TimesParts(x, y);
  }

  lemma TimesParts(x: bv8, y: bv8)
    ensures var x1 := Doubled(x);
            var x2 := Doubled(x1);
            var x3 := Doubled(x2);
            var x4 := Doubled(x3);
            var x5 := Doubled(x4);
            var x6 := Doubled(x5);
            var x7 := Doubled(x6);
            Times(x, y) == Sum8(Part(y, 1, x), Part(y, 2, x1), Part(y, 4, x2), Part(y, 8, x3), Part(y, 0x10, x4),
              Part(y, 0x20, x5), Part(y, 0x40, x6), Part(y, 0x80, x7))
  {
    hide Doubled;
    hide Sum8;
  }

  lemma RunningNone(x: bv8, y: bv8)
    ensures Running(x, y, 0) == 0
  {}

  lemma ProductIs(x: bv8, y: bv8)
    ensures Product(Num(x), Num(y), 8) == Num(Times(x, y))
  {
    hide *;
    RunningIs(x, y, 8);
    TimesIs(x, y);
  }

  // ---- what the tables and the field are, bit by bit --------------------------------------------------

  function Mask(i: nat): bv8
    requires i < 8
  {
    if i == 0 then 1 else if i == 1 then 2 else if i == 2 then 4 else if i == 3 then 8
    else if i == 4 then 0x10 else if i == 5 then 0x20 else if i == 6 then 0x40 else 0x80
  }

  lemma EightPlaces(v7: nat, v6: nat, v5: nat, v4: nat, v3: nat, v2: nat, v1: nat, v0: nat, n: nat)
    requires v7 < 2 && v6 < 2 && v5 < 2 && v4 < 2 && v3 < 2 && v2 < 2 && v1 < 2 && v0 < 2
    requires n == Eight(v7, v6, v5, v4, v3, v2, v1, v0)
    ensures n % 2 == v0 && n / 2 % 2 == v1 && n / 4 % 2 == v2 && n / 8 % 2 == v3 && n / 16 % 2 == v4
    ensures n / 32 % 2 == v5 && n / 64 % 2 == v6 && n / 128 % 2 == v7
  {
    hide Up;
    var a := Up(0, v7);
    var b := Up(a, v6);
    var c := Up(b, v5);
    var d := Up(c, v4);
    var e := Up(d, v3);
    var f := Up(e, v2);
    var g := Up(f, v1);
    UpIs(0, v7);
    UpIs(a, v6);
    UpIs(b, v5);
    UpIs(c, v4);
    UpIs(d, v3);
    UpIs(e, v2);
    UpIs(f, v1);
    UpIs(g, v0);
    assert n / 2 == g && n / 4 == g / 2 && n / 8 == f / 2 && n / 16 == e / 2 && n / 32 == d / 2 && n / 64 == c / 2
        && n / 128 == b / 2;
  }

  lemma NumBits(v: bv8, n: nat)
    requires n == Num(v)
    ensures n % 2 == Digit(v, 1) && n / 2 % 2 == Digit(v, 2) && n / 4 % 2 == Digit(v, 4) && n / 8 % 2 == Digit(v, 8)
    ensures n / 16 % 2 == Digit(v, 0x10) && n / 32 % 2 == Digit(v, 0x20) && n / 64 % 2 == Digit(v, 0x40)
    ensures n / 128 % 2 == Digit(v, 0x80)
  {
    hide *;
    NumIs(v);
    EightPlaces(Digit(v, 0x80), Digit(v, 0x40), Digit(v, 0x20), Digit(v, 0x10), Digit(v, 8), Digit(v, 4), Digit(v, 2),
      Digit(v, 1), n);
  }

  lemma DigitIs(v: bv8, i: nat)
    requires i < 8
    ensures Num(v) / Pow2(i) % 2 == Digit(v, Mask(i))
  {
    hide Num;
    hide Digit;
    hide Pow2;
    NumBits(v, Num(v));
    PowersTo8();
  }

  lemma PowersTo8()
    ensures Pow2(0) == 1 && Pow2(1) == 2 && Pow2(2) == 4 && Pow2(3) == 8 && Pow2(4) == 16 && Pow2(5) == 32
    ensures Pow2(6) == 64 && Pow2(7) == 128
  {}

  /** The sum of five bits and a constant one, modulo 2. */
  function Parity(a: nat, b: nat, c: nat, d: nat, e: nat, k: nat): (r: nat)
    ensures r == (a + b + c + d + e + k) % 2
  {
    (a + b + c + d + e + k) % 2
  }

  lemma AffineLow(y: bv8)
    ensures Digit(Affine(y), 1)
         == Parity(Digit(y, 1), Digit(y, 0x10), Digit(y, 0x20), Digit(y, 0x40), Digit(y, 0x80), 1)
    ensures Digit(Affine(y), 2)
         == Parity(Digit(y, 2), Digit(y, 0x20), Digit(y, 0x40), Digit(y, 0x80), Digit(y, 1), 1)
  {}

  lemma AffineMid(y: bv8)
    ensures Digit(Affine(y), 4)
         == Parity(Digit(y, 4), Digit(y, 0x40), Digit(y, 0x80), Digit(y, 1), Digit(y, 2), 0)
    ensures Digit(Affine(y), 8)
         == Parity(Digit(y, 8), Digit(y, 0x80), Digit(y, 1), Digit(y, 2), Digit(y, 4), 0)
  {}

  lemma AffineHigh(y: bv8)
    ensures Digit(Affine(y), 0x10)
         == Parity(Digit(y, 0x10), Digit(y, 1), Digit(y, 2), Digit(y, 4), Digit(y, 8), 0)
    ensures Digit(Affine(y), 0x20)
         == Parity(Digit(y, 0x20), Digit(y, 2), Digit(y, 4), Digit(y, 8), Digit(y, 0x10), 1)
  {}

  lemma AffineTop(y: bv8)
    ensures Digit(Affine(y), 0x40)
         == Parity(Digit(y, 0x40), Digit(y, 4), Digit(y, 8), Digit(y, 0x10), Digit(y, 0x20), 1)
    ensures Digit(Affine(y), 0x80)
         == Parity(Digit(y, 0x80), Digit(y, 8), Digit(y, 0x10), Digit(y, 0x20), Digit(y, 0x40), 0)
  {}

  /** The substitution byte is the affine image of the inverse in the field. */
  lemma SboxIs(x: u8) returns (y: u8)
    ensures if x == 0 then y == 0 else Product(x, y, 8) == 1
    ensures Sbox(x) % 2 == Parity(y % 2, y / 16 % 2, y / 32 % 2, y / 64 % 2, y / 128 % 2, 1)
    ensures Sbox(x) / 2 % 2 == Parity(y / 2 % 2, y / 32 % 2, y / 64 % 2, y / 128 % 2, y % 2, 1)
    ensures Sbox(x) / 4 % 2 == Parity(y / 4 % 2, y / 64 % 2, y / 128 % 2, y % 2, y / 2 % 2, 0)
    ensures Sbox(x) / 8 % 2 == Parity(y / 8 % 2, y / 128 % 2, y % 2, y / 2 % 2, y / 4 % 2, 0)
    ensures Sbox(x) / 16 % 2 == Parity(y / 16 % 2, y % 2, y / 2 % 2, y / 4 % 2, y / 8 % 2, 0)
    ensures Sbox(x) / 32 % 2 == Parity(y / 32 % 2, y / 2 % 2, y / 4 % 2, y / 8 % 2, y / 16 % 2, 1)
    ensures Sbox(x) / 64 % 2 == Parity(y / 64 % 2, y / 4 % 2, y / 8 % 2, y / 16 % 2, y / 32 % 2, 1)
    ensures Sbox(x) / 128 % 2 == Parity(y / 128 % 2, y / 8 % 2, y / 16 % 2, y / 32 % 2, y / 64 % 2, 0)
  {
    hide *;
    var v := HasVector(x);
    var w := Rows(v);
    y := Num(w);
    RowMeans(v, w);
    AffineBits(w, y, Sbox(x));
  }

  lemma RowMeans(v: bv8, w: bv8)
    requires Row(v, w)
    ensures if Num(v) == 0 then Num(w) == 0 else Product(Num(v), Num(w), 8) == 1
    ensures Sbox(Num(v)) == Num(Affine(w))
  {
    hide Product;
    hide Sbox;
    hide Affine;
    hide Times;
    ProductIs(v, w);
  }

  lemma AffineBits(w: bv8, y: nat, z: nat)
    requires y == Num(w) && z == Num(Affine(w))
    ensures z % 2 == Parity(y % 2, y / 16 % 2, y / 32 % 2, y / 64 % 2, y / 128 % 2, 1)
    ensures z / 2 % 2 == Parity(y / 2 % 2, y / 32 % 2, y / 64 % 2, y / 128 % 2, y % 2, 1)
    ensures z / 4 % 2 == Parity(y / 4 % 2, y / 64 % 2, y / 128 % 2, y % 2, y / 2 % 2, 0)
    ensures z / 8 % 2 == Parity(y / 8 % 2, y / 128 % 2, y % 2, y / 2 % 2, y / 4 % 2, 0)
    ensures z / 16 % 2 == Parity(y / 16 % 2, y % 2, y / 2 % 2, y / 4 % 2, y / 8 % 2, 0)
    ensures z / 32 % 2 == Parity(y / 32 % 2, y / 2 % 2, y / 4 % 2, y / 8 % 2, y / 16 % 2, 1)
    ensures z / 64 % 2 == Parity(y / 64 % 2, y / 4 % 2, y / 8 % 2, y / 16 % 2, y / 32 % 2, 1)
    ensures z / 128 % 2 == Parity(y / 128 % 2, y / 8 % 2, y / 16 % 2, y / 32 % 2, y / 64 % 2, 0)
  {
    hide *;
    AffineLow(w);
    AffineMid(w);
    AffineHigh(w);
    AffineTop(w);
    NumBits(w, y);
    NumBits(Affine(w), z);
  }

  /** xtime, bit by bit: the bits move up, and the one that falls off comes back in at places 0, 1, 3 and 4. */
  lemma XtBits(a: u8, i: nat)
    requires i < 8
    ensures Xt(a) / Pow2(i) % 2
         == ((if i > 0 then a / Pow2(i - 1) % 2 else 0) + (if i == 0 || i == 1 || i == 3 || i == 4 then a / 128 else 0))
            % 2
  {
    hide Xt;
    hide Num;
    hide Digit;
    hide Doubled;
    var v := HasVector(a);
    XtIs(v);
    DigitIs(Doubled(v), i);
    DigitIs(v, 7);
    PowersTo8();
    if i > 0 { DigitIs(v, i - 1); }
    DoubledDigits(v, i);
  }

  lemma DoubledDigits(v: bv8, i: nat)
    requires i < 8
    ensures Digit(Doubled(v), Mask(i))
         == ((if i > 0 then Digit(v, Mask(i - 1)) else 0)
           + (if i == 0 || i == 1 || i == 3 || i == 4 then Digit(v, 0x80) else 0)) % 2
  {
    if i == 0 {
    } else if i == 1 {
    } else if i == 2 {
    } else if i == 3 {
    } else if i == 4 {
    } else if i == 5 {
    } else if i == 6 {
    } else {
      assert i == 7;
    }
  }

  lemma {:induction false} ProductSmall(a: u8, b: nat, n: nat)
    requires b < Pow2(n)
    ensures Product(a, b, n + 1) == Product(a, b, n)
    decreases n
  {
    hide Xor8;
    hide Xt;
    if n == 0 {
      ZeroLeft(0);
    } else {
      ProductSmall(Xt(a), b / 2, n - 1);
    }
  }

  lemma ProductNext(a: u8, b: nat, n: nat)
    requires n > 0
    ensures Product(a, b, n) == Xor8(if b % 2 == 1 then a else 0, Product(Xt(a), b / 2, n - 1))
  {}

  /** mul, by the bits of its second operand. */
  lemma ProductByBits(a: u8, b: nat, n: nat)
    requires b < 128 && n == 8
    ensures Product(a, 0, n) == 0
    ensures Product(a, 2 * b, n) == Product(Xt(a), b, n)
    ensures Product(a, 2 * b + 1, n) == Xor8(a, Product(Xt(a), b, n))
  {
    hide Xor8;
    hide Xt;
    hide Product;
    ProductZero(a, n);
    ZeroLeft(Product(Xt(a), b, n));
    ProductNext(a, 2 * b, n);
    ProductNext(a, 2 * b + 1, n);
    assert Pow2(7) == 128;
    ProductSmall(Xt(a), b, 7);
  }

  lemma {:induction false} ProductZero(a: u8, n: nat)
    ensures Product(a, 0, n) == 0
    decreases n
  {
    hide Xor8;
    hide Xt;
    if n > 0 {
      ProductZero(Xt(a), n - 1);
      ZeroLeft(0);
    }
  }
}

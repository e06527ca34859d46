/** Poly1305 on 26-bit limbs with streaming updates (crypto/aead.c:226-346), against section 2.5 of RFC 8439. */
module Poly1305 {
  import opened Arith
  import opened Bits
  import opened Machine
  import Radix

  const P1305: int := 0x3_ffff_ffff_ffff_ffff_ffff_ffff_ffff_fffb
  const TWO26: int := 0x400_0000
  const TWO52: int := 0x10_0000_0000_0000
  const TWO78: int := 0x4000_0000_0000_0000_0000
  const TWO104: int := 0x100_0000_0000_0000_0000_0000_0000
  const TWO128: int := 0x1_0000_0000_0000_0000_0000_0000_0000_0000

  // ---- section 2.5 of RFC 8439 -----------------------------------------------------------

  /** A block of up to 16 bytes with the one bit above it. */
  ghost function Block(b: seq<u8>): int {
    Le(b) + Pow(0x100, |b|)
  }

  /** The accumulator after a message, block by block from the front. */
  ghost function Acc(a: int, r: int, msg: seq<u8>): int
    decreases |msg|
  {
    if |msg| == 0 then a
    else if |msg| <= 16 then ((a + Block(msg)) * r) % P1305
    else Acc(((a + Block(msg[..16])) * r) % P1305, r, msg[16..])
  }

  const CLAMP: nat := 0x0fff_fffc_0fff_fffc_0fff_fffc_0fff_ffff

  ghost function KeyR(key: seq<u8>): int
    requires |key| == 32
  {
    LeBound(key[..16]);
    And(Le(key[..16]), CLAMP)
  }

  ghost function KeyS(key: seq<u8>): int
    requires |key| == 32
  {
    Le(key[16..])
  }

  /** The tag as a number. */
  ghost function Tag(key: seq<u8>, msg: seq<u8>): int
    requires |key| == 32
  {
    (Acc(0, KeyR(key), msg) + KeyS(key)) % TWO128
  }

  // ---- limbs -------------------------------------------------------------------------------

  ghost function Num(h: seq<int>): int
    requires |h| == 5
  {
    h[0] + h[1] * TWO26 + h[2] * TWO52 + h[3] * TWO78 + h[4] * TWO104
  }

  /** What poly_block leaves in h. */
  ghost predicate Accumulator(h: seq<int>) {
    && |h| == 5
    && 0 <= h[0] < TWO26 && 0 <= h[1] <= TWO26 + 63
    && 0 <= h[2] < TWO26 && 0 <= h[3] < TWO26 && 0 <= h[4] < TWO26
  }

  ghost predicate Multiplier(r: seq<int>) {
    |r| == 5 && forall i :: 0 <= i < 5 ==> 0 <= r[i] < TWO26
  }

  function Le32(b: seq<u8>, at: nat): u32
    requires at + 4 <= |b|
  {
    b[at] + 0x100 * (b[at + 1] as int) + 0x1_0000 * (b[at + 2] as int) + 0x100_0000 * (b[at + 3] as int)
  }

  /** The five limbs poly_block reads out of a 16-byte block. */
  function BlockLimbs(m: seq<u8>, hibit: int): (l: seq<int>)
    requires |m| == 16
    ensures |l| == 5
  {
    [Le32(m, 0) % TWO26, Le32(m, 3) / 4 % TWO26, Le32(m, 6) / 16 % TWO26, Le32(m, 9) / 64 % TWO26,
        Le32(m, 12) / 256 + hibit]
  }

  // Four bytes shifted down and masked to 26 bits, byte by byte.

  lemma Limb0(m: seq<u8>, at: nat, a: int, b: int, c: int, d: int)
    requires at + 4 <= |m| && m[at] == a && m[at + 1] == b && m[at + 2] == c && m[at + 3] == d
    ensures Le32(m, at) % TWO26 == a + 256 * b + 0x10000 * c + 0x1000000 * (d % 4)
  {
    var w: int := Le32(m, at);
    DivModUnique(w, d / 4, a + 256 * b + 0x10000 * c + 0x1000000 * (d % 4), TWO26);
  }

  lemma Limb1(m: seq<u8>, at: nat, a: int, b: int, c: int, d: int)
    requires at + 4 <= |m| && m[at] == a && m[at + 1] == b && m[at + 2] == c && m[at + 3] == d
    ensures Le32(m, at) / 4 % TWO26 == a / 4 + 64 * b + 0x4000 * c + 0x400000 * (d % 16)
  {
    var w: int := Le32(m, at);
    DivModUnique(w, a / 4 + 64 * b + 0x4000 * c + 0x400000 * d, a % 4, 4);
    DivModUnique(w / 4, d / 16, a / 4 + 64 * b + 0x4000 * c + 0x400000 * (d % 16), TWO26);
  }

  lemma Limb2(m: seq<u8>, at: nat, a: int, b: int, c: int, d: int)
    requires at + 4 <= |m| && m[at] == a && m[at + 1] == b && m[at + 2] == c && m[at + 3] == d
    ensures Le32(m, at) / 16 % TWO26 == a / 16 + 16 * b + 0x1000 * c + 0x100000 * (d % 64)
  {
    var w: int := Le32(m, at);
    DivModUnique(w, a / 16 + 16 * b + 0x1000 * c + 0x100000 * d, a % 16, 16);
    DivModUnique(w / 16, d / 64, a / 16 + 16 * b + 0x1000 * c + 0x100000 * (d % 64), TWO26);
  }

  lemma Limb3(m: seq<u8>, at: nat, a: int, b: int, c: int, d: int)
    requires at + 4 <= |m| && m[at] == a && m[at + 1] == b && m[at + 2] == c && m[at + 3] == d
    ensures Le32(m, at) / 64 % TWO26 == a / 64 + 4 * b + 0x400 * c + 0x40000 * d
  {
    var w: int := Le32(m, at);
    DivModUnique(w, a / 64 + 4 * b + 0x400 * c + 0x40000 * d, a % 64, 64);
  }

  lemma Limb4(m: seq<u8>, at: nat, a: int, b: int, c: int, d: int)
    requires at + 4 <= |m| && m[at] == a && m[at + 1] == b && m[at + 2] == c && m[at + 3] == d
    ensures Le32(m, at) / 256 == b + 0x100 * c + 0x1_0000 * d
  {}

  lemma SixteenInLimbs(m: seq<int>, l: seq<int>, hibit: int)
    requires |m| == 16 && |l| == 5
    requires l[0] == m[0] + 0x100 * m[1] + 0x1_0000 * m[2] + 0x100_0000 * (m[3] % 4)
    requires l[1] == m[3] / 4 + 64 * m[4] + 0x4000 * m[5] + 0x40_0000 * (m[6] % 16)
    requires l[2] == m[6] / 16 + 16 * m[7] + 0x1000 * m[8] + 0x10_0000 * (m[9] % 64)
    requires l[3] == m[9] / 64 + 4 * m[10] + 0x400 * m[11] + 0x4_0000 * m[12]
    requires l[4] == m[13] + 0x100 * m[14] + 0x1_0000 * m[15] + hibit
    ensures Num(l) == Le(m) + hibit * TWO104
  {
    SixteenBytes(m);
    assert m[3] == 4 * (m[3] / 4) + m[3] % 4;
    assert m[6] == 16 * (m[6] / 16) + m[6] % 16;
    assert m[9] == 64 * (m[9] / 64) + m[9] % 64;
  }

  lemma BlockLimbsSpell(m: seq<u8>, hibit: int)
    requires |m| == 16
    ensures Num(BlockLimbs(m, hibit)) == Le(m) + hibit * TWO104
    ensures var l := BlockLimbs(m, hibit);
            (forall i :: 0 <= i < 4 ==> 0 <= l[i] < TWO26) && hibit <= l[4] < hibit + 0x100_0000
  {
    Limb0(m, 0, m[0], m[1], m[2], m[3]);
    Limb1(m, 3, m[3], m[4], m[5], m[6]);
    Limb2(m, 6, m[6], m[7], m[8], m[9]);
    Limb3(m, 9, m[9], m[10], m[11], m[12]);
    Limb4(m, 12, m[12], m[13], m[14], m[15]);
    SixteenInLimbs(m, BlockLimbs(m, hibit), hibit);
  }

  // ---- the product's columns ----------------------------------------------------------------

  function Columns(h: seq<int>, r: seq<int>): (d: seq<int>)
    requires |h| == 5 && |r| == 5
    ensures |d| == 5
  {
    var s1, s2, s3, s4 := r[1] * 5, r[2] * 5, r[3] * 5, r[4] * 5;
    [h[0] * r[0] + h[1] * s4 + h[2] * s3 + h[3] * s2 + h[4] * s1,
     h[0] * r[1] + h[1] * r[0] + h[2] * s4 + h[3] * s3 + h[4] * s2,
     h[0] * r[2] + h[1] * r[1] + h[2] * r[0] + h[3] * s4 + h[4] * s3,
     h[0] * r[3] + h[1] * r[2] + h[2] * r[1] + h[3] * r[0] + h[4] * s4,
     h[0] * r[4] + h[1] * r[3] + h[2] * r[2] + h[3] * r[1] + h[4] * r[0]]
  }

  lemma Times5(h: int, r: int)
    ensures h * (r * 5) == 5 * (h * r)
  {}

  /** One limb against the whole multiplier. */
  lemma LimbTimes(h: int, r: seq<int>)
    requires |r| == 5
    ensures h * Num(r) == h * r[0] + (h * r[1]) * TWO26 + (h * r[2]) * TWO52 + (h * r[3]) * TWO78 + (h * r[4]) * TWO104
  {}

  /** The columns spell the product, with everything from 2^130 up folded back times 5. */
  lemma ColumnsSpell(h: seq<int>, r: seq<int>)
    requires |h| == 5 && |r| == 5
    ensures Cong(Num(Columns(h, r)), Num(h) * Num(r), P1305)
  {
    Times5(h[1], r[4]); Times5(h[2], r[3]); Times5(h[3], r[2]); Times5(h[4], r[1]);
    Times5(h[2], r[4]); Times5(h[3], r[3]); Times5(h[4], r[2]);
    Times5(h[3], r[4]); Times5(h[4], r[3]);
    Times5(h[4], r[4]);
    LimbTimes(h[0], r); LimbTimes(h[1], r); LimbTimes(h[2], r); LimbTimes(h[3], r); LimbTimes(h[4], r);
    Spread(h, Num(r));
    var k := (h[1] * r[4] + h[2] * r[3] + h[3] * r[2] + h[4] * r[1])
             + (h[2] * r[4] + h[3] * r[3] + h[4] * r[2]) * TWO26
             + (h[3] * r[4] + h[4] * r[3]) * TWO52
             + (h[4] * r[4]) * TWO78;
    assert Num(h) * Num(r) == Num(Columns(h, r)) + k * P1305;
    CongMultiple(Num(h) * Num(r), Num(Columns(h, r)), k, P1305);
  }

  lemma Spread(h: seq<int>, x: int)
    requires |h| == 5
    ensures Num(h) * x == h[0] * x + (h[1] * x) * TWO26 + (h[2] * x) * TWO52 + (h[3] * x) * TWO78 + (h[4] * x) * TWO104
  {}

  lemma ProductBound(h: int, r: int, hm: int, rm: int)
    requires 0 <= h <= hm && 0 <= r <= rm
    ensures 0 <= h * r <= hm * rm
  {
    MulGe(h, 0, r);
    MulGe(hm, h, r);
    MulGe(rm, r, hm);
  }

  const HMAX: int := 0x800_0040

  /** No column reaches 2^58, and the top one stays below 2^56. */
  lemma ColumnsBound(h: seq<int>, r: seq<int>)
    requires |h| == 5 && Multiplier(r) && forall i :: 0 <= i < 5 ==> 0 <= h[i] <= HMAX
    ensures var d := Columns(h, r);
            (forall i :: 0 <= i < 5 ==> 0 <= d[i] <= 25 * (HMAX * 0x3ff_ffff)) && d[4] <= 5 * (HMAX * 0x3ff_ffff)
  {
    forall i, j | 0 <= i < 5 && 0 <= j < 5
      ensures 0 <= h[i] * r[j] <= HMAX * 0x3ff_ffff
    {
      ProductBound(h[i], r[j], HMAX, 0x3ff_ffff);
    }
    Times5(h[1], r[4]); Times5(h[2], r[3]); Times5(h[3], r[2]); Times5(h[4], r[1]);
    Times5(h[2], r[4]); Times5(h[3], r[3]); Times5(h[4], r[2]);
    Times5(h[3], r[4]); Times5(h[4], r[3]);
    Times5(h[4], r[4]);
  }

  /** The carry chain of poly_block: every 32- and 64-bit step exact, h1 at most 51 over. */
  method CarryColumns(d: seq<u64>) returns (h: seq<u32>)
    requires |d| == 5 && (forall i :: 0 <= i < 5 ==> d[i] <= 25 * (HMAX * 0x3ff_ffff))
      && d[4] <= 5 * (HMAX * 0x3ff_ffff)
    ensures Accumulator(h) && Cong(Num(h), Num(d), P1305)
  {
    var d0, d1, d2, d3, d4 := d[0], d[1], d[2], d[3], d[4];
    var c: u32 := d0 / TWO26;
    var h0: u32 := d0 % TWO26;
    d1 := d1 + c;
    c := d1 / TWO26;
    var h1: u32 := d1 % TWO26;
    d2 := d2 + c;
    c := d2 / TWO26;
    var h2: u32 := d2 % TWO26;
    d3 := d3 + c;
    c := d3 / TWO26;
    var h3: u32 := d3 % TWO26;
    d4 := d4 + c;
    c := d4 / TWO26;
    var h4: u32 := d4 % TWO26;
    ghost var top := c;
    h0 := h0 + c * 5;
    c := h0 / TWO26;
    h0 := h0 % TWO26;
    h1 := h1 + c;
    h := [h0, h1, h2, h3, h4];
    assert Num(h) == Num(d) - top * P1305;
    CongMultiple(Num(h), Num(d), -top, P1305);
  }

  // ---- clamping ----------------------------------------------------------------------------

  lemma TwoTo26(k: nat)
    requires k == 26
    ensures Pow2(k) == TWO26
  {
    var b: nat := 16;
    TwoTo16(b);
    Pow2Known(b, 10, 0x1_0000, 0x400);
  }

  /** The block's limbs with the masks and the | of the code. */
  method ReadBlock(m: seq<u8>, hibit: u32) returns (l: seq<int>)
    requires |m| == 16 && (hibit == 0 || hibit == 0x100_0000)
    ensures l == BlockLimbs(m, hibit)
  {
    hide And;
    hide Or;
    hide Le32;
    MaskLimb(Le32(m, 0));
    MaskLimb(Le32(m, 3) / 4);
    MaskLimb(Le32(m, 6) / 16);
    MaskLimb(Le32(m, 9) / 64);
    HighBit(Le32(m, 12) / 256, hibit);
    l := [And(Le32(m, 0), 0x3ff_ffff), And(Le32(m, 3) / 4, 0x3ff_ffff), And(Le32(m, 6) / 16, 0x3ff_ffff),
          And(Le32(m, 9) / 64, 0x3ff_ffff), Or(Le32(m, 12) / 256, hibit)];
  }

  lemma MaskLimb(x: nat)
    ensures And(x, 0x3ff_ffff) == x % TWO26
  {
    var k: nat := 26;
    TwoTo26(k);
    AndLowOnes(x, k);
    ShrIsDiv(x, k, TWO26);
  }

  lemma HighBit(x: nat, hibit: nat)
    requires x < 0x100_0000 && (hibit == 0 || hibit == 0x100_0000)
    ensures Or(x, hibit) == x + hibit
  {
    var k: nat := 24;
    assert Pow2(k) == 0x100_0000 by { var b: nat := 16; TwoTo16(b); Pow2Known(b, 8, 0x1_0000, 0x100); }
    hide Or;
    hide Pow2;
    OrDisjoint(x, if hibit == 0 then 0 else 1, k, 0x100_0000);
  }

  /** And, one limb at a time. */
  lemma AndPeel(a: nat, x: nat, b: nat, y: nat)
    requires a < TWO26 && b < TWO26
    ensures And(a + TWO26 * x, b + TWO26 * y) == And(a, b) + TWO26 * And(x, y)
  {
    hide *;
    var k: nat := 26;
    TwoTo26(k);
    DivModUnique(a + TWO26 * x, x, a, TWO26);
    DivModUnique(b + TWO26 * y, y, b, TWO26);
    AndSplit(a + TWO26 * x, b + TWO26 * y, k);
    ShrIsDiv(a + TWO26 * x, k, TWO26);
    ShrIsDiv(b + TWO26 * y, k, TWO26);
  }

  lemma AndMasked(x: nat, m: nat)
    requires m < TWO26
    ensures And(x, m) == And(x % TWO26, m)
  {
    var k: nat := 26;
    TwoTo26(k);
    AndLow(x, m, k);
    ShrIsDiv(x, k, TWO26);
  }

  ghost function Horner(a: nat, b: nat, c: nat, d: nat, e: nat): nat {
    a + TWO26 * (b + TWO26 * (c + TWO26 * (d + TWO26 * e)))
  }

  lemma AndByLimbs(l: seq<nat>, c: seq<nat>)
    requires |l| == 5 && |c| == 5 && forall i :: 0 <= i < 5 ==> l[i] < TWO26 && c[i] < TWO26
    ensures And(Horner(l[0], l[1], l[2], l[3], l[4]), Horner(c[0], c[1], c[2], c[3], c[4]))
         == Horner(And(l[0], c[0]), And(l[1], c[1]), And(l[2], c[2]), And(l[3], c[3]), And(l[4], c[4]))
  {
    hide And;
    AndTop([l[1], l[2], l[3], l[4]], [c[1], c[2], c[3], c[4]]);
    AndPeel(l[0], l[1] + TWO26 * (l[2] + TWO26 * (l[3] + TWO26 * l[4])), c[0],
        c[1] + TWO26 * (c[2] + TWO26 * (c[3] + TWO26 * c[4])));
  }

  lemma AndTop(l: seq<nat>, c: seq<nat>)
    requires |l| == 4 && |c| == 4 && forall i :: 0 <= i < 4 ==> l[i] < TWO26 && c[i] < TWO26
    ensures And(l[0] + TWO26 * (l[1] + TWO26 * (l[2] + TWO26 * l[3])),
      c[0] + TWO26 * (c[1] + TWO26 * (c[2] + TWO26 * c[3])))
         == And(l[0], c[0]) + TWO26 * (And(l[1], c[1]) + TWO26 * (And(l[2], c[2]) + TWO26 * And(l[3], c[3])))
  {
    hide *;
    var x, y := l[2] + TWO26 * l[3], c[2] + TWO26 * c[3];
    AndPeel(l[2], l[3], c[2], c[3]);
    AndPeel(l[1], x, c[1], y);
    AndPeel(l[0], l[1] + TWO26 * x, c[0], c[1] + TWO26 * y);
  }

  const CLAMP_LIMBS: seq<nat> := [0x3ff_ffff, 0x3ff_ff03, 0x3ff_c0ff, 0x3f0_3fff, 0x00f_ffff]

  /** poly_init's masks, on the first sixteen key bytes. */
  function ClampedLimbs(k: seq<u8>): (r: seq<nat>)
    requires |k| == 16
    ensures |r| == 5
  {
    [And(Le32(k, 0), 0x3ff_ffff), And(Le32(k, 3) / 4, 0x3ff_ff03), And(Le32(k, 6) / 16, 0x3ff_c0ff),
     And(Le32(k, 9) / 64, 0x3f0_3fff), And(Le32(k, 12) / 256, 0x00f_ffff)]
  }

  lemma ClampedLimb(k: seq<u8>, l: seq<int>, i: nat)
    requires |k| == 16 && i < 5 && l == BlockLimbs(k, 0) && l[i] >= 0
    ensures ClampedLimbs(k)[i] == And(l[i], CLAMP_LIMBS[i]) <= CLAMP_LIMBS[i] < TWO26
  {
    AndBound(l[i], CLAMP_LIMBS[i]);
    if
    case i == 0 => AndMasked(Le32(k, 0), 0x3ff_ffff);
    case i == 1 => AndMasked(Le32(k, 3) / 4, 0x3ff_ff03);
    case i == 2 => AndMasked(Le32(k, 6) / 16, 0x3ff_c0ff);
    case i == 3 => AndMasked(Le32(k, 9) / 64, 0x3f0_3fff);
    case i == 4 =>
  }

  /** The masks are the clamp of section 2.5 of RFC 8439, limb by limb. */
  lemma ClampIsMask(key: seq<u8>)
    requires |key| == 32
    ensures Multiplier(ClampedLimbs(key[..16])) && Num(ClampedLimbs(key[..16])) == KeyR(key)
  {
    var k := key[..16];
    var l := BlockLimbs(k, 0);
    BlockLimbsSpell(k, 0);
    ClampedLimb(k, l, 0);
    ClampedLimb(k, l, 1);
    ClampedLimb(k, l, 2);
    ClampedLimb(k, l, 3);
    ClampedLimb(k, l, 4);
    ClampedNumber(l, ClampedLimbs(k));
  }

  lemma ClampedNumber(l: seq<nat>, r: seq<nat>)
    requires |l| == 5 && |r| == 5 && forall i :: 0 <= i < 5 ==> l[i] < TWO26 && r[i] == And(l[i], CLAMP_LIMBS[i])
    ensures Num(l) >= 0 && Num(r) == And(Num(l), CLAMP)
  {
    AndByLimbs(l, CLAMP_LIMBS);
    assert Num(l) == Horner(l[0], l[1], l[2], l[3], l[4]);
    assert Horner(0x3ff_ffff, 0x3ff_ff03, 0x3ff_c0ff, 0x3f0_3fff, 0x00f_ffff) == CLAMP;
  }

  // ---- the accumulator across blocks ----------------------------------------------------------

  /** Full blocks in front can be folded first. */
  lemma {:induction false} AccExtend(a: int, r: int, x: seq<u8>, y: seq<u8>)
    requires |x| % 16 == 0
    ensures Acc(a, r, x + y) == Acc(Acc(a, r, x), r, y)
    decreases |x|
  {
    if |x| == 0 {
      assert x + y == y;
    } else {
      var a' := ((a + Block(x[..16])) * r) % P1305;
      assert (x + y)[..16] == x[..16];
      assert (x + y)[16..] == x[16..] + y;
      AccExtend(a', r, x[16..], y);
      if |x| == 16 {
        assert x[..16] == x && x[16..] == [];
        if |y| == 0 { assert x + y == x; }
      }
    }
  }

  lemma AccOneBlock(a: int, r: int, b: seq<u8>)
    requires 1 <= |b| <= 16
    ensures Acc(a, r, b) == ((a + Block(b)) * r) % P1305
  {}

  lemma BlockStep(h': int, h: int, a: int, r: int, b: int, p: int)
    requires p > 0 && Cong(h', (h + b) * r, p) && h % p == a
    ensures h' % p == ((a + b) * r) % p
  {
    ModMod(h, p);
    CongAdd(h, a, b, b, p);
    CongMul(h + b, a + b, r, r, p);
  }

  lemma FullBlock(m: seq<u8>)
    requires |m| == 16
    ensures Le(m) + 0x100_0000 * TWO104 == Block(m)
  {
    EightBytes(m, 0x100);
    var k: nat := 8;
    PowAdd(0x100, k, k);
  }

  /** The last partial block: a one byte after it, zeros above. */
  lemma PaddedBlock(b: seq<u8>, last: seq<u8>)
    requires |b| < 16 && |last| == 16 && last[..|b|] == b && last[|b|] == 1
    requires forall i :: |b| < i < 16 ==> last[i] == 0
    ensures Le(last) == Block(b)
  {
    var n := |b|;
    Radix.HighZeros(0x100, last, n + 1, 16);
    Radix.Frame(0x100, last, b, n);
  }

  // ---- the final reduction ---------------------------------------------------------------------

  /** The first half of poly_finish: one more carry, after which h1 does not spill. */
  method FullCarry(h: seq<u32>) returns (g: seq<u32>)
    requires Accumulator(h)
    ensures Multiplier(g) && Cong(Num(g), Num(h), P1305)
  {
    hide Cong;
    var h0, h1, h2, h3, h4 := h[0], h[1], h[2], h[3], h[4];
    var c1: u32 := h1 / TWO26;
    h1 := h1 % TWO26;
    h2 := h2 + c1;
    var c2: u32 := h2 / TWO26;
    h2 := h2 % TWO26;
    h3 := h3 + c2;
    var c3: u32 := h3 / TWO26;
    h3 := h3 % TWO26;
    h4 := h4 + c3;
    var c4: u32 := h4 / TWO26;
    h4 := h4 % TWO26;
    assert c1 <= 1 && c2 <= 1 && c3 <= 1 && c4 <= 1;
    h0 := h0 + c4 * 5;
    var c0: u32 := h0 / TWO26;
    h0 := h0 % TWO26;
    h1 := h1 + c0;
    g := [h0, h1, h2, h3, h4];
    CarriedAround(h, g, c0, c1, c2, c3, c4);
    CongMultiple(Num(g), Num(h), -(c4 as int), P1305);
  }

  lemma CarriedAround(h: seq<int>, g: seq<int>, c0: int, c1: int, c2: int, c3: int, c4: int)
    requires |h| == 5 && |g| == 5
    requires g[0] == h[0] + 5 * c4 - c0 * TWO26 && g[1] == h[1] - c1 * TWO26 + c0 && g[2] == h[2] + c1 - c2 * TWO26
    requires g[3] == h[3] + c2 - c3 * TWO26 && g[4] == h[4] + c3 - c4 * TWO26
    ensures Num(g) == Num(h) - c4 * P1305
  {}

  /** x & mask for an all-ones or all-zeros mask. */
  lemma MaskWord(x: u32, mask: u32)
    requires mask == 0 || mask == 0xffff_ffff
    ensures And(x, mask) == if mask == 0 then 0 else x
  {
    var k: nat := 32;
    TwoTo32(k);
    AndLowOnes(x, k);
    SmallBits(x, k);
    AndCommutes(x, 0);
  }

  /** (h & ~mask) | (g & mask): one of the two words. */
  method SelectWord(h: u32, g: u32, mask: u32) returns (r: u32)
    requires mask == 0 || mask == 0xffff_ffff
    ensures r == if mask == 0 then h else g
  {
    MaskWord(h, 0xffff_ffff - mask);
    MaskWord(g, mask);
    AndCommutes(0, And(g, mask));
    r := Or(And(h, 0xffff_ffff - mask), And(g, mask));
  }

  /** h - p, taken when it does not go negative: the residue. */
  method Reduce(h: seq<u32>) returns (r: seq<u32>)
    requires Multiplier(h)
    ensures Multiplier(r) && Num(r) == Num(h) % P1305
  {
    var g0: u32 := h[0] + 5;
    var c: u32 := g0 / TWO26;
    g0 := g0 % TWO26;
    var g1: u32 := h[1] + c;
    c := g1 / TWO26;
    g1 := g1 % TWO26;
    var g2: u32 := h[2] + c;
    c := g2 / TWO26;
    g2 := g2 % TWO26;
    var g3: u32 := h[3] + c;
    c := g3 / TWO26;
    g3 := g3 % TWO26;
    var g4: u32 := (h[4] + c - TWO26) % 0x1_0000_0000;
    var mask: u32 := (g4 / 0x8000_0000 - 1) % 0x1_0000_0000;
    ghost var above := h[4] + c >= TWO26;
    assert above <==> mask == 0xffff_ffff;
    assert !above <==> mask == 0;
    assert above ==> Num([g0, g1, g2, g3, g4]) == Num(h) - P1305;
    assert above <==> Num(h) >= P1305;
    var r0 := SelectWord(h[0], g0, mask);
    var r1 := SelectWord(h[1], g1, mask);
    var r2 := SelectWord(h[2], g2, mask);
    var r3 := SelectWord(h[3], g3, mask);
    var r4 := SelectWord(h[4], g4, mask);
    r := [r0, r1, r2, r3, r4];
    DivModUnique(Num(h), if above then 1 else 0, Num(r), P1305);
  }

  lemma ShiftWraps(y: nat, p: nat, q: nat)
    requires p > 0 && q > 0 && p * q == 0x1_0000_0000
    ensures (y * p) % 0x1_0000_0000 == (y % q) * p
  {
    var k, z := y / q, y % q;
    assert y == k * q + z;
    assert y * p == k * (p * q) + z * p by { Assoc(k, q, p); }
    MulGe(q - 1, z, p);
    MulGe(z, 0, p);
    DivModUnique(y * p, k, z * p, p * q);
  }

  /** x | (y << k), the shift wrapping at 32 bits. */
  method JoinBits(x: u32, y: u32, k: nat, p: u32, q: u32) returns (w: u32)
    requires p == Pow2(k) && q > 0 && p * q == 0x1_0000_0000 && x < p
    ensures w == x + (y % q) * p
  {
    hide *;
    ShiftWraps(y, p, q);
    var z: nat := y % q;
    OrDisjoint(x, z, k, p);
    MulGe(q - 1, z, p);
    MulGe(z, 0, p);
    w := Or(x, (y * p) % 0x1_0000_0000);
  }

  ghost function Words4(w: seq<int>): int
    requires |w| == 4
  {
    w[0] + 0x1_0000_0000 * w[1] + 0x1_0000_0000_0000_0000 * w[2] + 0x1_0000_0000_0000_0000_0000_0000 * w[3]
  }

  lemma TwoTo20(b: nat)
    requires b == 20
    ensures Pow2(b) == 0x10_0000
  {
    Pow2Known(10, 10, 0x400, 0x400);
  }

  lemma TwoTo14(c: nat)
    requires c == 14
    ensures Pow2(c) == 0x4000
  {
    Pow2Known(10, 4, 0x400, 16);
  }

  /** Five 26-bit limbs into four 32-bit words, the bits above 128 dropped. */
  method PackWords(r: seq<u32>) returns (w: seq<u32>)
    requires Multiplier(r)
    ensures |w| == 4 && Words4(w) == Num(r) % TWO128
  {
    var a, b, c, d: nat := 26, 20, 14, 8;
    TwoTo26(a);
    TwoTo20(b);
    TwoTo14(c);
    assert Pow2(8) == 0x100;
    var w0 := JoinBits(r[0], r[1], a, TWO26, 64);
    var w1 := JoinBits(r[1] / 64, r[2], b, 0x10_0000, 0x1000);
    var w2 := JoinBits(r[2] / 0x1000, r[3], c, 0x4000, 0x4_0000);
    var w3 := JoinBits(r[3] / 0x4_0000, r[4], d, 0x100, 0x100_0000);
    w := [w0, w1, w2, w3];
    assert Words4(w) == Num(r) - (r[4] / 0x100_0000) * TWO128;
    DivModUnique(Num(r), r[4] / 0x100_0000, Words4(w), TWO128);
  }

  /** The 128-bit addition of s. */
  method AddWords(h: seq<u32>, s: seq<u32>) returns (t: seq<u32>)
    requires |h| == 4 && |s| == 4
    ensures |t| == 4 && Words4(t) == (Words4(h) + Words4(s)) % TWO128
  {
    var f: u64 := (h[0] as int) + s[0];
    var t0: u32 := f % 0x1_0000_0000;
    f := (h[1] as int) + s[1] + f / 0x1_0000_0000;
    var t1: u32 := f % 0x1_0000_0000;
    f := (h[2] as int) + s[2] + f / 0x1_0000_0000;
    var t2: u32 := f % 0x1_0000_0000;
    f := (h[3] as int) + s[3] + f / 0x1_0000_0000;
    var t3: u32 := f % 0x1_0000_0000;
    t := [t0, t1, t2, t3];
    DivModUnique(Words4(h) + Words4(s), f / 0x1_0000_0000, Words4(t), TWO128);
  }

  /** put_le32 of four words. */
  function WordBytes(w: u32): (b: seq<u8>)
    ensures |b| == 4
  {
    [w % 0x100, w / 0x100 % 0x100, w / 0x1_0000 % 0x100, w / 0x100_0000]
  }

  lemma WordBytesSpell(t: seq<u32>)
    requires |t| == 4
    ensures Le(WordBytes(t[0]) + WordBytes(t[1]) + WordBytes(t[2]) + WordBytes(t[3])) == Words4(t)
  {
    var b := WordBytes(t[0]) + WordBytes(t[1]) + WordBytes(t[2]) + WordBytes(t[3]);
    SixteenBytes(b);
    WordOfBytes(t[0]);
    WordOfBytes(t[1]);
    WordOfBytes(t[2]);
    WordOfBytes(t[3]);
  }

  lemma WordOfBytes(w: int)
    ensures w % 0x100 + 0x100 * (w / 0x100 % 0x100) + 0x1_0000 * (w / 0x1_0000 % 0x100)
      + 0x100_0000 * (w / 0x100_0000) == w
  {
    NestedQuotients(w);
  }

  lemma KeyWords(k: seq<u8>)
    requires |k| == 16
    ensures Words4([Le32(k, 0), Le32(k, 4), Le32(k, 8), Le32(k, 12)]) == Le(k)
  {
    SixteenBytes(k);
  }

  lemma TagValue(acc: int, s: int, h: int)
    requires h == acc % TWO128
    ensures (h + s) % TWO128 == (acc + s) % TWO128
  {
    ModMod(acc, TWO128);
    CongAdd(h, acc, s, s, TWO128);
  }

  /** The end of poly_finish: reduce, pack, add s, write out. */
  method Serialize(h: seq<u32>, s: seq<u32>) returns (tag: seq<u8>)
    requires Accumulator(h) && |s| == 4
    ensures |tag| == 16 && Le(tag) == (Num(h) % P1305 + Words4(s)) % TWO128
  {
    var g := FullCarry(h);
    var q := Reduce(g);
    var w := PackWords(q);
    var t := AddWords(w, s);
    TagValue(Num(q), Words4(s), Words4(w));
    tag := WordBytes(t[0]) + WordBytes(t[1]) + WordBytes(t[2]) + WordBytes(t[3]);
    WordBytesSpell(t);
  }

  /** r and s out of the one-time key. */
  lemma Fresh(h: seq<int>, r: int, nothing: seq<u8>)
    requires h == [0, 0, 0, 0, 0] && nothing == []
    ensures Accumulator(h) && Num(h) % P1305 == Acc(0, r, nothing)
  {}

  method KeyParts(k: seq<u8>) returns (r: seq<u32>, s: seq<u32>)
    requires |k| == 32
    ensures Multiplier(r) && Num(r) == KeyR(k)
    ensures |s| == 4 && Words4(s) == KeyS(k)
  {
    ClampIsMask(k);
    r := ClampedLimbs(k[..16]);
    var t := k[16..];
    KeyWords(t);
    s := [Le32(t, 0), Le32(t, 4), Le32(t, 8), Le32(t, 12)];
  }

  // ---- poly1305_t ---------------------------------------------------------------------------------

  /** poly1305_t. `key` and `fed` say what it was started with and everything fed so far. */
  class Poly {
    var r: seq<u32>
    var s: seq<u32>
    var h: seq<u32>
    var buf: array<u8>
    var bufLen: nat
    ghost var key: seq<u8>
    ghost var fed: seq<u8>

    ghost predicate Keyed()
      reads this`key, this`r, this`s, this`h
    {
      && |key| == 32
      && Multiplier(r) && Num(r) == KeyR(key)
      && |s| == 4 && Words4(s) == KeyS(key)
      && Accumulator(h)
    }

    /** h stands for all of `whole` but its last bufLen bytes, which are pending. */
    ghost predicate Settled(whole: seq<u8>)
      reads this`key, this`r, this`s, this`h, this`buf, this`bufLen, buf
    {
      && buf.Length == 16 && bufLen < 16 && bufLen <= |whole|
      && buf[..bufLen] == whole[|whole| - bufLen..]
      && At(whole, |whole| - bufLen)
    }

    ghost predicate Valid()
      reads this, buf
    {
      Settled(fed)
    }

    /** poly_init. */
    constructor (k: seq<u8>)
      requires |k| == 32
      ensures Valid() && key == k && fed == [] && fresh(buf)
    {
      hide Num;
      hide Acc;
      hide KeyR;
      hide KeyS;
      hide Words4;
      hide Multiplier;
      hide Accumulator;
      var rr, ss := KeyParts(k);
      r, s := rr, ss;
      h := [0, 0, 0, 0, 0];
      buf := new u8[16];
      bufLen := 0;
      key := k;
      fed := [];
      new;
      Fresh(h, KeyR(k), fed[..0]);
    }

    /** poly_block: h := (h + m + hibit * 2^104) * r modulo p. */
    method PolyBlock(m: seq<u8>, hibit: u32)
      requires Keyed() && |m| == 16 && (hibit == 0 || hibit == 0x100_0000)
      modifies this`h
      ensures Keyed()
      ensures Cong(Num(h), (old(Num(h)) + (Le(m) + hibit * TWO104)) * Num(r), P1305)
    {
      var l := ReadBlock(m, hibit);
      BlockLimbsSpell(m, hibit);
      var g: seq<u32> := [h[0] + l[0], h[1] + l[1], h[2] + l[2], h[3] + l[3], h[4] + l[4]];
      assert Num(g) == Num(h) + Num(l);
      ColumnsBound(g, r);
      ColumnsSpell(g, r);
      h := CarryColumns(Columns(g, r));
    }

    /** h stands for the first n bytes of `whole`. */
    ghost predicate At(whole: seq<u8>, n: nat)
      reads this`key, this`r, this`s, this`h
    {
      Keyed() && n <= |whole| && n % 16 == 0 && Num(h) % P1305 == Acc(0, KeyR(key), whole[..n])
    }

    /** A full block joins the processed part. */
    method Absorb(m: seq<u8>, ghost whole: seq<u8>, ghost n: nat)
      requires At(whole, n) && n + 16 <= |whole| && m == whole[n..n + 16]
      modifies this`h
      ensures At(whole, n + 16)
    {
      ghost var was := Num(h);
      PolyBlock(m, 0x100_0000);
      FullBlock(m);
      BlockStep(Num(h), was, Acc(0, KeyR(key), whole[..n]), KeyR(key), Block(m), P1305);
      assert whole[..n + 16] == whole[..n] + m;
      AccExtend(0, KeyR(key), whole[..n], m);
      AccOneBlock(Acc(0, KeyR(key), whole[..n]), KeyR(key), m);
    }

    /** Every full block of m from `from` on. */
    method AbsorbAll(m: seq<u8>, from: nat, ghost whole: seq<u8>, ghost n: nat) returns (at: nat)
      requires At(whole, n) && from <= |m| && whole[n..] == m[from..]
      modifies this`h
      ensures from <= at <= |m| && |m| - at < 16 && At(whole, n + (at - from))
    {
      hide Num;
      hide Acc;
      hide KeyR;
      hide KeyS;
      hide Words4;
      at := from;
      while |m| - at >= 16
        invariant from <= at <= |m|
        invariant At(whole, n + (at - from))
      {
        ghost var k := n + (at - from);
        assert m[at..at + 16] == m[from..][at - from..at - from + 16];
        assert whole[k..k + 16] == whole[n..][at - from..at - from + 16];
        Absorb(m[at..at + 16], whole, k);
        at := at + 16;
      }
    }

    /** Bytes joined into the pending block, as many as fit. */
    method Fill(m: seq<u8>) returns (take: nat)
      requires Valid() && bufLen > 0
      modifies this`bufLen, buf
      ensures take == (if 16 - old(bufLen) > |m| then |m| else 16 - old(bufLen)) && take <= |m|
      ensures bufLen == old(bufLen) + take
      ensures buf[..bufLen] == old(buf[..bufLen]) + m[..take]
    {
      take := if 16 - bufLen > |m| then |m| else 16 - bufLen;
      ghost var b0, n0 := buf[..], bufLen;
      var i := 0;
      while i < take
        invariant 0 <= i <= take && bufLen == n0
        invariant buf[..n0 + i] == b0[..n0] + m[..i]
      {
        buf[bufLen + i] := m[i];
        i := i + 1;
      }
      bufLen := bufLen + take;
    }

    /** What is left over becomes the pending block. */
    method Keep(m: seq<u8>)
      requires |m| < 16 && buf.Length == 16
      modifies this`bufLen, buf
      ensures bufLen == |m| && buf[..bufLen] == m
    {
      var i := 0;
      while i < |m|
        invariant 0 <= i <= |m|
        invariant buf[..i] == m[..i]
      {
        buf[i] := m[i];
        i := i + 1;
      }
      bufLen := |m|;
    }

    /** Only the first n bytes matter. */
    lemma SamePrefix(a: seq<u8>, b: seq<u8>, n: nat)
      requires At(a, n) && n <= |b| && a[..n] == b[..n]
      ensures At(b, n)
    {}

    /** The pending block topped up from m; once full it is absorbed. */
    method TopUp(m: seq<u8>) returns (at: nat)
      requires Valid() && bufLen > 0
      modifies this`h, this`bufLen, buf
      ensures at <= |m| && buf.Length == 16
      ensures if bufLen == 0 then At(fed + m, |fed| + at) else Settled(fed + m)
    {
      hide Num;
      hide Acc;
      hide KeyR;
      hide KeyS;
      hide Words4;
      ghost var whole := fed + m;
      ghost var n := |fed| - bufLen;
      assert fed[..n] == whole[..n];
      SamePrefix(fed, whole, n);
      at := Fill(m);
      FillHolds(fed, m, n, at);
      if bufLen == 16 {
        Absorb(buf[..], whole, n);
        bufLen := 0;
      }
    }

    /** The full blocks of m from `from` on, then the rest kept pending. */
    method Rest(m: seq<u8>, from: nat)
      requires from <= |m| && buf.Length == 16 && At(fed + m, |fed| + from)
      modifies this`h, this`bufLen, buf
      ensures Settled(fed + m)
    {
      hide Num;
      hide Acc;
      hide KeyR;
      hide KeyS;
      hide Words4;
      ghost var whole, n := fed + m, |fed| + from;
      assert whole[n..] == m[from..];
      var at := AbsorbAll(m, from, whole, n);
      Keep(m[at..]);
      assert whole[|whole| - bufLen..] == m[at..];
    }

    /** poly_update: everything fed so far, and m. */
    method Update(m: seq<u8>)
      requires Valid()
      modifies this`h, this`bufLen, this`fed, buf
      ensures Valid() && key == old(key) && fed == old(fed) + m
    {
      hide Num;
      hide Acc;
      hide KeyR;
      hide KeyS;
      hide Words4;
      ghost var whole := fed + m;
      var at := 0;
      if bufLen > 0 {
        at := TopUp(m);
        if bufLen != 0 {
          fed := whole;
          return;
        }
      } else {
        assert fed[..|fed|] == whole[..|fed|];
        SamePrefix(fed, whole, |fed|);
      }
      Rest(m, at);
      fed := whole;
    }

    /** poly_finish: the tag of everything fed, however it was split. */
    method Finish() returns (tag: seq<u8>)
      requires Valid()
      modifies this`h, this`bufLen
      ensures |tag| == 16 && Le(tag) == Tag(key, fed)
    {
      hide Num;
      hide KeyR;
      hide KeyS;
      hide Words4;
      ghost var n := |fed| - bufLen;
      if bufLen > 0 {
        var last := seq(16, i requires 0 <= i < 16 reads this, buf => if i < bufLen < 16 == buf.Length then buf[i]
            else if i == bufLen then 1 else 0);
        ghost var b, was := buf[..bufLen], Num(h);
        PaddedBlock(b, last);
        PolyBlock(last, 0);
        BlockStep(Num(h), was, Acc(0, KeyR(key), fed[..n]), KeyR(key), Block(b), P1305);
        AccExtend(0, KeyR(key), fed[..n], b);
        assert fed == fed[..n] + b;
        bufLen := 0;
      } else {
        assert fed[..n] == fed;
      }
      tag := Serialize(h, s);
    }
  }

  lemma FillHolds(fed: seq<u8>, m: seq<u8>, n: nat, take: nat)
    requires n <= |fed| && take <= |m|
    ensures (fed + m)[n..|fed| + take] == fed[n..] + m[..take]
  {}

  /** poly1305_mac. */
  method Mac(key: seq<u8>, msg: seq<u8>) returns (tag: seq<u8>)
    requires |key| == 32
    ensures |tag| == 16 && Le(tag) == Tag(key, msg)
  {
    var p := new Poly(key);
    p.Update(msg);
    assert [] + msg == msg;
    tag := p.Finish();
  }
}

/** Bitwise operations on naturals, bit by bit, and on int64 through two's complement. */
module Bits {
  import opened Arith
  import opened Machine

  const TWO63: int := 0x8000_0000_0000_0000
  const TWO64: int := 0x1_0000_0000_0000_0000

  function Xor(x: nat, y: nat): nat {
    if x == 0 && y == 0 then 0 else 2 * Xor(x / 2, y / 2) + (x % 2 + y % 2) % 2
  }

  function And(x: nat, y: nat): nat {
    if x == 0 || y == 0 then 0 else 2 * And(x / 2, y / 2) + (if x % 2 == 1 && y % 2 == 1 then 1 else 0)
  }

  function Or(x: nat, y: nat): nat {
    AndBound(x, y);
    x + y - And(x, y)
  }

  lemma {:induction false} XorCommutes(x: nat, y: nat)
    ensures Xor(x, y) == Xor(y, x)
  {
    if x != 0 || y != 0 { XorCommutes(x / 2, y / 2); }
  }

  lemma XorStep(x: nat, y: nat)
    ensures Xor(x, y) / 2 == Xor(x / 2, y / 2) && Xor(x, y) % 2 == (x % 2 + y % 2) % 2
  {}

  lemma SameHalves(x: nat, y: nat, w: nat, z: nat)
    requires w / 2 == y / 2 && w % 2 == (x % 2 + z % 2) % 2 && z % 2 == (x % 2 + y % 2) % 2
    ensures w == y
  {}

  lemma {:induction false} XorTwice(x: nat, y: nat)
    ensures Xor(x, Xor(x, y)) == y
    decreases x + y
  {
    if x == 0 {
      XorZero(y);
      XorCommutes(0, y);
    } else {
      XorTwice(x / 2, y / 2);
      XorStep(x, y);
      XorStep(x, Xor(x, y));
      SameHalves(x, y, Xor(x, Xor(x, y)), Xor(x, y));
    }
  }

  lemma {:induction false} XorZero(x: nat)
    ensures Xor(x, 0) == x
  {
    if x != 0 { XorZero(x / 2); }
  }

  lemma XorSelf(x: nat)
    ensures Xor(x, x) == 0
  {
    XorZero(x);
    XorTwice(x, 0);
  }

  lemma SameBits(u: nat, w: nat)
    requires u / 2 == w / 2 && u % 2 == w % 2
    ensures u == w
  {}

  lemma ParityAssoc(x: nat, y: nat, z: nat, xy: nat, yz: nat)
    requires xy % 2 == (x % 2 + y % 2) % 2 && yz % 2 == (y % 2 + z % 2) % 2
    ensures (xy % 2 + z % 2) % 2 == (x % 2 + yz % 2) % 2
  {
    var a, b, c := x % 2, y % 2, z % 2;
    assert xy % 2 == (if a == b then 0 else 1) && yz % 2 == (if b == c then 0 else 1);
  }

  lemma {:induction false} XorAssoc(x: nat, y: nat, z: nat)
    ensures Xor(Xor(x, y), z) == Xor(x, Xor(y, z))
    decreases x + y + z
  {
    if x + y + z == 0 {
    } else {
      XorAssoc(x / 2, y / 2, z / 2);
      XorAssocStep(x, y, z);
    }
  }

  lemma XorAssocStep(x: nat, y: nat, z: nat)
    requires Xor(Xor(x / 2, y / 2), z / 2) == Xor(x / 2, Xor(y / 2, z / 2))
    ensures Xor(Xor(x, y), z) == Xor(x, Xor(y, z))
  {
    hide *;
    var xy, yz := Xor(x, y), Xor(y, z);
    XorStep(x, y);
    XorStep(y, z);
    XorStep(xy, z);
    XorStep(x, yz);
    ParityAssoc(x, y, z, xy, yz);
    SameBits(Xor(xy, z), Xor(x, yz));
  }

  lemma XorMiddle(a: nat, b: nat, c: nat, d: nat)
    ensures Xor(Xor(a, b), Xor(c, d)) == Xor(Xor(a, c), Xor(b, d))
  {
    XorAssoc(a, b, Xor(c, d));
    XorAssoc(b, c, d);
    XorAssoc(c, b, d);
    XorCommutes(b, c);
    XorAssoc(a, c, Xor(b, d));
  }

  /** Low and high parts are combined separately. */
  lemma {:induction false} XorSplit(a: nat, b: nat, c: nat, d: nat, k: nat, p: nat)
    requires p == Pow2(k) && b < p && d < p
    ensures Xor(a * p + b, c * p + d) == Xor(a, c) * p + Xor(b, d)
    decreases k
  {
    if k == 0 {
      XorZero(0);
    } else {
      XorSplit(a, b / 2, c, d / 2, k - 1, Pow2(k - 1));
      XorSplitStep(a, b, c, d, Pow2(k - 1), p);
    }
  }

  lemma XorSplitStep(a: nat, b: nat, c: nat, d: nat, q: nat, p: nat)
    requires p == 2 * q && Xor(a * q + b / 2, c * q + d / 2) == Xor(a, c) * q + Xor(b / 2, d / 2)
    ensures Xor(a * p + b, c * p + d) == Xor(a, c) * p + Xor(b, d)
  {
    hide *;
    var u, v, high, low := a * p + b, c * p + d, Xor(a, c), Xor(b, d);
    HalfOf(a, b, q, p);
    HalfOf(c, d, q, p);
    XorStep(u, v);
    XorStep(b, d);
    HalfOf(high, low, q, p);
    SameBits(Xor(u, v), high * p + low);
  }

  lemma HalfOf(a: nat, b: nat, q: nat, p: nat)
    requires p == 2 * q
    ensures a * p >= 0 && a * q >= 0
    ensures (a * p + b) / 2 == a * q + b / 2 && (a * p + b) % 2 == b % 2
  {
    Assoc(a, 2, q);
    assert a * p == 2 * (a * q);
  }

  lemma {:induction false} XorBound(x: nat, y: nat, k: nat)
    requires x < Pow2(k) && y < Pow2(k)
    ensures Xor(x, y) < Pow2(k)
  {
    if k > 0 { XorBound(x / 2, y / 2, k - 1); }
  }

  lemma {:induction false} AndOnes(x: nat, k: nat)
    requires x < Pow2(k)
    ensures And(Pow2(k) - 1, x) == x
  {
    if k > 0 {
      AndOnes(x / 2, k - 1);
      AndStep(Pow2(k) - 1, x);
      assert (Pow2(k) - 1) / 2 == Pow2(k - 1) - 1 && (Pow2(k) - 1) % 2 == 1;
    }
  }

  lemma AndZero(x: nat)
    ensures And(0, x) == 0
  {}

  lemma {:induction false} AndBound(x: nat, y: nat)
    ensures And(x, y) <= x && And(x, y) <= y
  {
    if x != 0 && y != 0 { AndBound(x / 2, y / 2); }
  }

  lemma {:induction false} OrBound(x: nat, y: nat, k: nat)
    requires x < Pow2(k) && y < Pow2(k)
    ensures Or(x, y) < Pow2(k)
    decreases k
  {
    if k > 0 {
      OrBound(x / 2, y / 2, k - 1);
      AndStep(x, y);
    }
  }

  /** x >> k. */
  function Shr(x: nat, k: nat): nat {
    if k == 0 then x else Shr(x / 2, k - 1)
  }

  /** The low k bits of x. */
  function LowBits(x: nat, k: nat): nat {
    if k == 0 then 0 else x % 2 + 2 * LowBits(x / 2, k - 1)
  }

  lemma {:induction false} ShrAndLow(x: nat, k: nat)
    ensures x == Pow2(k) * Shr(x, k) + LowBits(x, k) && LowBits(x, k) < Pow2(k)
  {
    if k > 0 {
      ShrAndLow(x / 2, k - 1);
      Assoc(2, Pow2(k - 1), Shr(x / 2, k - 1));
    }
  }

  /** Shifting is dividing, masking is taking the remainder. */
  lemma ShrIsDiv(x: nat, k: nat, p: nat)
    requires p == Pow2(k)
    ensures Shr(x, k) == x / p && LowBits(x, k) == x % p
  {
    hide *;
    ShrAndLow(x, k);
    DivModUnique(x, Shr(x, k), LowBits(x, k), p);
  }

  lemma AndStep(x: nat, y: nat)
    ensures And(x, y) == 2 * And(x / 2, y / 2) + (if x % 2 == 1 && y % 2 == 1 then 1 else 0)
  {}

  lemma LowBitsStep(x: nat, k: nat)
    requires k > 0
    ensures LowBits(x, k) / 2 == LowBits(x / 2, k - 1) && LowBits(x, k) % 2 == x % 2
  {}

  /** The low k bits and the rest are combined separately. */
  lemma {:induction false} AndSplit(x: nat, y: nat, k: nat)
    ensures And(x, y) == And(LowBits(x, k), LowBits(y, k)) + Pow2(k) * And(Shr(x, k), Shr(y, k))
    decreases k
  {
    if k > 0 {
      var a, b := LowBits(x, k), LowBits(y, k);
      AndStep(x, y);
      AndSplit(x / 2, y / 2, k - 1);
      LowBitsStep(x, k);
      LowBitsStep(y, k);
      AndStep(a, b);
      SplitAlgebra(And(x / 2, y / 2), And(a / 2, b / 2), Pow2(k - 1), And(Shr(x, k), Shr(y, k)));
    }
  }

  lemma SplitAlgebra(w: int, v: int, p: int, z: int)
    requires w == v + p * z
    ensures 2 * w == 2 * v + (2 * p) * z
  {
    Assoc(2, p, z);
  }

  lemma {:induction false} AndCommutes(x: nat, y: nat)
    ensures And(x, y) == And(y, x)
  {
    if x != 0 && y != 0 { AndCommutes(x / 2, y / 2); }
  }

  lemma SmallBits(x: nat, k: nat)
    requires x < Pow2(k)
    ensures Shr(x, k) == 0 && LowBits(x, k) == x
  {
    ShrAndLow(x, k);
    if Shr(x, k) > 0 { MulGe(Shr(x, k), 1, Pow2(k)); }
  }

  /** A mask below 2^k only sees the low k bits. */
  lemma AndLow(x: nat, m: nat, k: nat)
    requires m < Pow2(k)
    ensures And(x, m) == And(LowBits(x, k), m)
  {
    AndSplit(x, m, k);
    SmallBits(m, k);
    AndCommutes(Shr(x, k), 0);
  }

  /** A mask of k ones keeps the low k bits. */
  lemma AndLowOnes(x: nat, k: nat)
    ensures And(x, Pow2(k) - 1) == LowBits(x, k)
  {
    AndLow(x, Pow2(k) - 1, k);
    ShrAndLow(x, k);
    AndCommutes(LowBits(x, k), Pow2(k) - 1);
    AndOnes(LowBits(x, k), k);
  }

  lemma Unshifted(y: nat, k: nat, p: nat)
    requires p == Pow2(k)
    ensures Shr(y * p, k) == y && LowBits(y * p, k) == 0
  {
    ShrIsDiv(y * p, k, p);
    DivModUnique(y * p, y, 0, p);
  }

  /** Fields that do not overlap are joined by adding. */
  lemma OrDisjoint(x: nat, y: nat, k: nat, p: nat)
    requires p == Pow2(k) && x < p
    ensures Or(x, y * p) == x + y * p
  {
    AndSplit(x, y * p, k);
    SmallBits(x, k);
    Unshifted(y, k, p);
    AndCommutes(x, 0);
  }

  // ---- fixed widths ------------------------------------------------------------

  function Xor8(a: u8, b: u8): (r: u8)
    ensures r == Xor(a, b)
  {
    assert Pow2(8) == 0x100;
    XorBound(a, b, 8);
    Xor(a, b)
  }

  function Xor32(a: u32, b: u32): (r: u32)
    ensures r == Xor(a, b)
  {
    var w: nat := 32;
    TwoTo32(w);
    XorBound(a, b, w);
    Xor(a, b)
  }

  function XorU64(a: u64, b: u64): (r: u64)
    ensures r == Xor(a, b)
  {
    var w: nat := 64;
    TwoTo64(w);
    XorBound(a, b, w);
    Xor(a, b)
  }

  // ---- int64 -------------------------------------------------------------------

  function Unsigned(x: i64): nat {
    if x < 0 then x + TWO64 else x
  }

  function Signed(u: nat): i64
    requires u < TWO64
  {
    if u >= TWO63 then u - TWO64 else u
  }

  function Xor64(x: i64, y: i64): i64 {
    var w: nat := 64;
    TwoTo64(w);
    XorBound(Unsigned(x), Unsigned(y), w);
    Signed(Xor(Unsigned(x), Unsigned(y)))
  }

  function And64(x: i64, y: i64): i64 {
    AndBound(Unsigned(x), Unsigned(y));
    Signed(And(Unsigned(x), Unsigned(y)))
  }

  /** The masked exclusive-or swap: with c all ones x and y change places, with c zero nothing moves. */
  lemma MaskedSwap(x: i64, y: i64, c: i64)
    requires c == 0 || c == -1
    ensures var t := And64(c, Xor64(x, y));
            && Xor64(x, t) == (if c == 0 then x else y)
            && Xor64(y, t) == (if c == 0 then y else x)
  {
    hide Xor;
    hide And;
    hide Pow2;
    var u, v := Unsigned(x), Unsigned(y);
    AndZero(Xor(u, v));
    XorZero(u);
    XorZero(v);
    XorTwice(u, v);
    XorTwice(v, u);
    XorCommutes(u, v);
    var w: nat := 64;
    TwoTo64(w);
    XorBound(u, v, w);
    AndOnes(Xor(u, v), w);
  }
}

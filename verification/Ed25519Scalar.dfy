/** Scalars modulo the group order L: modL, reduce, the scalar part of signing, s_canonical
    (crypto/ed25519.c:162-199, 242-246, 311-320). */
module Ed25519Scalar {
  import opened Arith
  import opened Machine
  import opened Radix

  /** L = 2^252 + 27742317777372353535851937790883648493. */
  const ELL: int := 0x1000_0000_0000_0000_0000_0000_0000_0000_14de_f9de_a2f7_9cd6_5812_631a_5cf5_d3ed
  const ELL_LOW: int := 0x14de_f9de_a2f7_9cd6_5812_631a_5cf5_d3ed
  const TWO252: int := 0x1000_0000_0000_0000_0000_0000_0000_0000_0000_0000_0000_0000_0000_0000_0000_0000
  const TWO256: int := 0x1_0000_0000_0000_0000_0000_0000_0000_0000_0000_0000_0000_0000_0000_0000_0000_0000

  const L: seq<u8> := [
    0xed, 0xd3, 0xf5, 0x5c, 0x1a, 0x63, 0x12, 0x58, 0xd6, 0x9c, 0xf7, 0xa2, 0xde, 0xf9, 0xde, 0x14,
    0, 0, 0, 0, 0, 0, 0, 0, 0, 0, 0, 0, 0, 0, 0, 0x10]

  lemma ByteWeights()
    ensures Pow(0x100, 16) == 0x1_0000_0000_0000_0000_0000_0000_0000_0000
    ensures Pow(0x100, 31) == TWO252 / 16 && Pow(0x100, 32) == TWO256
  {
    assert Pow(0x100, 1) == 0x100 * Pow(0x100, 0);
    assert Pow(0x100, 2) == 0x10000;
    PowAdd(0x100, 2, 2);
    PowAdd(0x100, 4, 4);
    PowAdd(0x100, 8, 8);
    PowAdd(0x100, 16, 16);
    assert Pow(0x100, 32) == 0x100 * Pow(0x100, 31);
  }

  lemma SecondEight()
    ensures |L| == 32 && L[8] == 0xd6 && L[9] == 0x9c && L[10] == 0xf7 && L[11] == 0xa2
    ensures L[12] == 0xde && L[13] == 0xf9 && L[14] == 0xde && L[15] == 0x14
  {}

  lemma LowSixteen(b: int)
    requires b == 0x100
    ensures Value(b, L, 16) == ELL_LOW
  {
    var h := L[8..];
    EightBytes(L, b);
    EightBytes(h, b);
    SecondEight();
    assert h[0] == L[8] && h[1] == L[9] && h[2] == L[10] && h[3] == L[11];
    assert h[4] == L[12] && h[5] == L[13] && h[6] == L[14] && h[7] == L[15];
    assert Value(b, L, 8) == 0x5812_631a_5cf5_d3ed;
    assert Value(b, h, 8) == 0x14de_f9de_a2f7_9cd6;
    Split(b, L, 8, 16);
  }

  /** Twenty bytes of L hold its low half; the last byte is 2^252. */
  lemma LValues(k: nat)
    requires k == 20 || k == 32
    ensures Value(0x100, L, k) == if k == 20 then ELL_LOW else ELL
  {
    LowSixteen(0x100);
    if k == 20 {
      HighZeros(0x100, L, 16, k);
    } else {
      HighZeros(0x100, L, 16, k - 1);
      ByteWeights();
    }
  }

  // ---- one row of the fold: index i goes, 16 * x[i] * L is taken off below it -------------

  /** k limbs of row i are done: each is balanced, the rest untouched, the value owes the carry. */
  ghost predicate RowDone(x0: seq<int>, x: seq<int>, y: int, i: nat, k: nat, carry: int)
    requires |x0| == 64 && |x| == 64 && 32 <= i < 64 && k <= 20
  {
    && (forall j :: 0 <= j < 64 && !(i - 32 <= j < i - 32 + k) ==> x[j] == x0[j])
    && (forall j :: i - 32 <= j < i - 32 + k ==> -128 <= x[j] <= 127)
    && Value(0x100, x, 64) + carry * Pow(0x100, i - 32 + k)
       == Value(0x100, x0, 64) - (16 * y * Pow(0x100, i - 32)) * Value(0x100, L, k)
  }

  lemma RowStart(x0: seq<int>, i: nat)
    requires |x0| == 64 && 32 <= i < 64
    ensures RowDone(x0, x0, x0[i], i, 0, 0)
  {}

  lemma RowStep(x0: seq<int>, x: seq<int>, y: int, i: nat, k: nat, carry: int, v: int, c: int, limb: int)
    requires |x0| == 64 && |x| == 64 && 32 <= i < 64 && k < 20 && RowDone(x0, x, y, i, k, carry)
    requires v == x[i - 32 + k] + carry - 16 * y * L[k] && c == (v + 128) / 0x100 && limb == v - c * 0x100
    ensures RowDone(x0, x[i - 32 + k := limb], y, i, k + 1, c)
  {
    hide Value;
    hide Pow;
    RowValue(x0, x, y, i, k, carry, v, c, limb, i - 32 + k);
  }

  /** What the row owes after one limb more. */
  lemma RowValue(x0: seq<int>, x: seq<int>, y: int, i: nat, k: nat, carry: int, v: int, c: int, limb: int, j: nat)
    requires |x0| == 64 && |x| == 64 && 32 <= i < 64 && k < 20 && j == i - 32 + k
    requires v == x[j] + carry - 16 * y * L[k] && limb == v - c * 0x100
    requires Value(0x100, x, 64) + carry * Pow(0x100, j)
      == Value(0x100, x0, 64) - (16 * y * Pow(0x100, i - 32)) * Value(0x100, L, k)
    ensures Value(0x100, x[j := limb], 64) + c * Pow(0x100, j + 1)
      == Value(0x100, x0, 64) - (16 * y * Pow(0x100, i - 32)) * Value(0x100, L, k + 1)
  {
    Weights(i, k, j);
    hide Value;
    hide Pow;
    Update(0x100, x, j, limb, 64);
    RowAlgebra(x[j], carry, y, L[k], c, Pow(0x100, i - 32), Pow(0x100, k), Value(0x100, L, k));
  }

  lemma Weights(i: nat, k: nat, j: nat)
    requires 32 <= i < 64 && k < 20 && j == i - 32 + k
    ensures Pow(0x100, j) == Pow(0x100, i - 32) * Pow(0x100, k) && Pow(0x100, j + 1) == 0x100 * Pow(0x100, j)
    ensures Value(0x100, L, k + 1) == Value(0x100, L, k) + L[k] * Pow(0x100, k)
  {
    PowAdd(0x100, i - 32, k);
  }

  lemma RowAlgebra(x: int, carry: int, y: int, l: int, c: int, p: int, q: int, vl: int)
    ensures (x + carry - 16 * y * l - c * 0x100 - x) * (p * q) + c * (0x100 * (p * q))
         == carry * (p * q) - (16 * y * p) * (vl + l * q) + (16 * y * p) * vl
  {
    var w := p * q;
    assert (c * 0x100) * w == c * (0x100 * w);
    assert (16 * y * p) * (l * q) == (16 * y * l) * w by {
      assert (y * p) * (l * q) == (y * l) * (p * q) by {
        Assoc(y, p, l * q);
        Assoc(p, l, q);
        Assoc(l, p, q);
        Assoc(y, l, p * q);
      }
    }
    assert (16 * y * p) * (vl + l * q) == (16 * y * p) * vl + (16 * y * p) * (l * q);
  }

  lemma RowEnd(x0: seq<int>, x: seq<int>, y: int, i: nat, k: nat, carry: int)
    requires |x0| == 64 && |x| == 64 && 32 <= i < 64 && k == 20 && RowDone(x0, x, y, i, k, carry) && y == x0[i]
    ensures Value(0x100, x[i - 12 := x[i - 12] + carry][i := 0], 64)
         == Value(0x100, x0, 64) - (16 * y * Pow(0x100, i - 32)) * ELL
  {
    hide Value;
    hide Pow;
    var x1 := x[i - 12 := x[i - 12] + carry];
    Update(0x100, x, i - 12, x[i - 12] + carry, 64);
    Update(0x100, x1, i, 0, 64);
    TopWeight(i);
    LValues(k);
    assert i - 32 + k == i - 12;
    RowEndAlgebra(Value(0x100, x, 64), Value(0x100, x0, 64), x[i - 12], carry, Pow(0x100, i - 12), y,
        Pow(0x100, i - 32));
  }

  lemma TopWeight(i: nat)
    requires 32 <= i
    ensures Pow(0x100, i) == Pow(0x100, i - 32) * TWO256
  {
    ByteWeights();
    PowAdd(0x100, i - 32, 32);
  }

  lemma RowEndAlgebra(v: int, v0: int, t: int, carry: int, w: int, y: int, p: int)
    requires v + carry * w == v0 - (16 * y * p) * ELL_LOW
    ensures v + (t + carry - t) * w + (0 - y) * (p * TWO256) == v0 - (16 * y * p) * ELL
  {
    var z := y * p;
    assert (0 - y) * (p * TWO256) == -(z * TWO256) by { Assoc(0 - y, p, TWO256); assert (0 - y) * p == -z; }
    assert 16 * y * p == 16 * z;
  }

  // ---- carry bounds ---------------------------------------------------------------------------

  /** How many limbs one row touches below the index it removes. */
  const ROW: nat := 20
  const RAW: int := 0x20_0000
  const BIG: int := 0x40_0000

  /** How large the running carry can be after k limbs; `tight` when all but the lowest were balanced before. */
  function CarryBound(k: nat, tight: bool): int {
    if k <= 16 then 0x800_0000
    else if k == 17 then 0x10_0000
    else if !tight then 0x8000
    else if k == 18 then 5000
    else if k == 19 then 22
    else 1
  }

  lemma CarryStep(v: int, carry: int, y: int, k: nat, tight: bool)
    requires k < 20 && -BIG <= v <= BIG && -BIG <= y <= BIG
    requires tight && k > 0 ==> -128 <= v <= 127
    requires -CarryBound(k, tight) <= carry <= CarryBound(k, tight)
    ensures var c := (v + carry - 16 * y * L[k] + 128) / 0x100;
            -CarryBound(k + 1, tight) <= c <= CarryBound(k + 1, tight)
  {
    if k < 16 {
      assert 0 <= L[k] <= 0xff;
      var z := y * L[k];
      MulGe(y, -BIG, L[k]);
      MulGe(BIG, y, L[k]);
      assert 16 * y * L[k] == 16 * z;
    } else {
      assert L[k] == 0;
    }
  }

  /** What the limbs look like before index i is folded (i = 31: the fold is over). */
  ghost predicate Folding(x: seq<int>, i: int) {
    && |x| == 64 && 31 <= i <= 63
    && (forall k :: 0 <= k < 64 ==> -BIG <= x[k] <= BIG)
    && (forall k :: i < k < 64 ==> x[k] == 0)
    && (forall k :: 0 <= k <= i - 32 ==> -RAW <= x[k] <= RAW)
    && (i == 63 ==> forall k :: 0 <= k < 64 ==> -RAW <= x[k] <= RAW)
    && (i < 63 ==> forall k :: 0 <= k && i - 31 <= k <= i - 12 ==> -128 <= x[k] <= 127)
    && (i < 63 ==> forall k :: 0 <= k && i - 11 <= k <= i && k <= 50 ==> -129 <= x[k] <= 128)
  }

  lemma FoldingStep(x0: seq<int>, x: seq<int>, y: int, i: nat, carry: int)
    requires Folding(x0, i) && |x| == 64 && 32 <= i && RowDone(x0, x, y, i, ROW, carry)
    requires -CarryBound(ROW, i < 63) <= carry <= CarryBound(ROW, i < 63)
    ensures Folding(x[i - 12 := x[i - 12] + carry][i := 0], i - 1)
  {}

  /** The next limb of the row: no overflow, and the carry stays in bounds. */
  lemma ChainFits(x0: seq<int>, x: seq<int>, i: nat, k: nat, carry: int)
    requires Folding(x0, i) && |x| == 64 && 32 <= i && k < 20 && RowDone(x0, x, x0[i], i, k, carry)
    requires -CarryBound(k, i < 63) <= carry <= CarryBound(k, i < 63)
    ensures x[i] == x0[i] && x[i - 32 + k] == x0[i - 32 + k]
    ensures var v := x[i - 32 + k] + carry - 16 * x[i] * L[k];
            && -0x5_0000_0000 <= v <= 0x5_0000_0000
            && -0x4_0000_0000 <= 16 * x[i] * L[k] <= 0x4_0000_0000
            && -CarryBound(k + 1, i < 63) <= (v + 128) / 0x100 <= CarryBound(k + 1, i < 63)
  {
    var j := i - 32 + k;
    assert x[j] == x0[j];
    CarryStep(x[j], carry, x0[i], k, i < 63);
    SmallProduct(x0[i], L[k]);
  }

  /** The inner loop of modL's fold: twenty limbs, the carry returned. */
  method FoldChain(x: array<i64>, i: nat) returns (carry: i64)
    requires x.Length == 64 && 32 <= i < 64 && Folding(x[..], i)
    modifies x
    ensures RowDone(old(x[..]), x[..], old(x[i]), i, ROW, carry)
    ensures -CarryBound(ROW, i < 63) <= carry <= CarryBound(ROW, i < 63)
  {
    ghost var x0: seq<int> := x[..];
    carry := 0;
    RowStart(x0, i);
    hide Value;
    hide Pow;
    hide RowDone;
    hide CarryBound;
    var k := 0;
    while k < ROW
      invariant 0 <= k <= ROW
      invariant RowDone(x0, x[..], x0[i], i, k, carry)
      invariant -CarryBound(k, i < 63) <= carry <= CarryBound(k, i < 63)
    {
      carry := FoldLimb(x, i, k, carry, x0);
      k := k + 1;
    }
  }

  /** One limb of the row. */
  method FoldLimb(x: array<i64>, i: nat, k: nat, c: i64, ghost x0: seq<int>) returns (carry: i64)
    requires x.Length == 64 && 32 <= i < 64 && k < ROW && Folding(x0, i) && RowDone(x0, x[..], x0[i], i, k, c)
    requires -CarryBound(k, i < 63) <= c <= CarryBound(k, i < 63)
    modifies x
    ensures RowDone(x0, x[..], x0[i], i, k + 1, carry)
    ensures -CarryBound(k + 1, i < 63) <= carry <= CarryBound(k + 1, i < 63)
  {
    hide Value;
    hide Pow;
    hide RowDone;
    var j := i - 32 + k;
    ghost var mid: seq<int> := x[..];
    ChainFits(x0, mid, i, k, c);
    hide CarryBound;
    var v: i64 := x[j] + (c - 16 * x[i] * L[k]);
    carry := (v + 128) / 0x100;
    x[j] := v - carry * 0x100;
    RowStep(x0, mid, x0[i], i, k, c, v, carry, x[j]);
    assert x[..] == mid[j := x[j]];
  }

  /** One outer iteration of modL's first loop. */
  method FoldRow(x: array<i64>, i: nat)
    requires x.Length == 64 && 32 <= i < 64 && Folding(x[..], i)
    modifies x
    ensures Folding(x[..], i - 1)
    ensures Value(0x100, x[..], 64) == old(Value(0x100, x[..], 64) - (16 * x[i] * Pow(0x100, i - 32)) * ELL)
  {
    hide Value;
    hide Pow;
    ghost var x0 := x[..];
    var carry := FoldChain(x, i);
    ghost var mid: seq<int> := x[..];
    RowEnd(x0, mid, x0[i], i, ROW, carry);
    FoldingStep(x0, mid, x0[i], i, carry);
    x[i - 12] := x[i - 12] + carry;
    x[i] := 0;
    assert x[..] == mid[i - 12 := mid[i - 12] + carry][i := 0];
  }

  lemma SmallProduct(y: int, l: u8)
    requires -BIG <= y <= BIG
    ensures -0x4_0000_0000 <= 16 * y * l <= 0x4_0000_0000
  {
    MulGe(y, -BIG, l);
    MulGe(BIG, y, l);
    MulGe(0xff, l, BIG);
    assert 16 * y * l == 16 * (y * l);
  }

  // ---- the top quotient, the last subtraction, the bytes --------------------------------------

  const N: nat := 32

  /** j limbs less q times L are digits again. */
  ghost predicate QuotientDone(x0: seq<int>, x: seq<int>, q: int, j: nat, carry: int)
    requires |x0| == 64 && |x| == 64 && j <= 32
  {
    && (forall k :: 0 <= k < j ==> 0 <= x[k] < 0x100)
    && (forall k :: j <= k < 64 ==> x[k] == x0[k])
    && Value(0x100, x, j) + carry * Pow(0x100, j) == Value(0x100, x0, j) - q * Value(0x100, L, j)
  }

  lemma QuotientStep(x0: seq<int>, x: seq<int>, q: int, j: nat, carry: int, v: int)
    requires |x0| == 64 && |x| == 64 && j < 32 && QuotientDone(x0, x, q, j, carry)
    requires v == x[j] + carry - q * L[j]
    ensures QuotientDone(x0, x[j := v % 0x100], q, j + 1, v / 0x100)
  {
    Frame(0x100, x, x[j := v % 0x100], j);
    var w := Pow(0x100, j);
    QuotientAlgebra(v, x0[j], carry, q, L[j], w, Value(0x100, L, j));
  }

  lemma QuotientAlgebra(v: int, x: int, carry: int, q: int, l: int, w: int, vl: int)
    requires v == x + carry - q * l
    ensures (v % 0x100) * w + (v / 0x100) * (0x100 * w) - carry * w == x * w - q * (vl + l * w) + q * vl
  {
    assert v == 0x100 * (v / 0x100) + v % 0x100;
    assert (v / 0x100) * (0x100 * w) == (0x100 * (v / 0x100)) * w by { Assoc(v / 0x100, 0x100, w); }
    assert v * w == x * w + carry * w - (q * l) * w;
    Assoc(q, l, w);
  }

  /** x less (x[31] >> 4) times L, in digits, the carry out returned. */
  method TakeQuotient(x: array<i64>) returns (carry: i64)
    requires x.Length == 64 && Folding(x[..], 31)
    modifies x
    ensures QuotientDone(old(x[..]), x[..], old(x[31]) / 16, N, carry)
    ensures -0x1000 <= carry <= 0x1000
  {
    ghost var x0: seq<int>, q := x[..], x[31] / 16;
    carry := 0;
    var j := 0;
    while j < N
      invariant 0 <= j <= N
      invariant QuotientDone(x0, x[..], q, j, carry)
      invariant -0x1000 <= carry <= 0x1000
    {
      ghost var mid: seq<int>, c := x[..], carry;
      QuotientFits(q, L[j]);
      var v: i64 := x[j] + (carry - (x[31] / 16) * L[j]);
      carry := v / 0x100;
      x[j] := v % 0x100;
      QuotientStep(x0, mid, q, j, c, v);
      assert x[..] == mid[j := x[j]];
      j := j + 1;
    }
  }

  lemma QuotientFits(q: int, l: u8)
    requires -9 <= q <= 8
    ensures -0x1000 <= q * l <= 0x1000
  {
    MulGe(q, -9, l);
    MulGe(8, q, l);
  }

  /** x[j] -= carry * L[j]. */
  method TakeCarry(x: array<i64>, carry: i64)
    requires x.Length == 64 && -0x1000 <= carry <= 0x1000
    requires forall k :: 0 <= k < 32 ==> 0 <= x[k] < 0x100
    modifies x
    ensures forall k :: 0 <= k < 32 ==> x[k] == old(x[k]) + (0 - carry) * L[k]
    ensures forall k :: 0 <= k < 32 ==> -0x20_0000 <= x[k] <= 0x20_0000
    ensures forall k :: 32 <= k < 64 ==> x[k] == old(x[k])
  {
    var j := 0;
    while j < 32
      invariant 0 <= j <= 32
      invariant forall k :: 0 <= k < j ==> x[k] == old(x[k]) + (0 - carry) * L[k] && -0x20_0000 <= x[k] <= 0x20_0000
      invariant forall k :: j <= k < 64 ==> x[k] == old(x[k])
    {
      CarryFits(carry, L[j]);
      assert x[j] == old(x[j]);
      x[j] := x[j] - carry * L[j];
      j := j + 1;
    }
  }

  lemma CarryFits(c: int, l: u8)
    requires -0x1000 <= c <= 0x1000
    ensures -0x10_0000 <= c * l <= 0x10_0000 && (0 - c) * l == -(c * l)
  {
    MulGe(c, -0x1000, l);
    MulGe(0x1000, c, l);
  }

  /** i bytes are out; what they owe is already in the next limb. */
  ghost predicate BytesDone(x1: seq<int>, x: seq<int>, r: seq<int>, i: nat)
    requires |x1| == 64 && |x| == 64 && i <= 32 <= |r|
  {
    && (forall k :: i < k < 64 ==> x[k] == x1[k])
    && -0x100_0000 <= x[i] <= 0x100_0000
    && Value(0x100, r, i) + (x[i] - x1[i]) * Pow(0x100, i) == Value(0x100, x1, i)
  }

  lemma BytesStep(x1: seq<int>, x: seq<int>, r: seq<int>, i: nat)
    requires |x1| == 64 && |x| == 64 && i < 32 <= |r| && BytesDone(x1, x, r, i)
    requires -0x40_0000 <= x1[i + 1] <= 0x40_0000
    ensures BytesDone(x1, x[i + 1 := x[i + 1] + x[i] / 0x100], r[i := x[i] % 0x100], i + 1)
  {
    var v, w := x[i], Pow(0x100, i);
    Frame(0x100, r, r[i := v % 0x100], i);
    assert v == 0x100 * (v / 0x100) + v % 0x100;
    assert (v / 0x100) * (0x100 * w) == (0x100 * (v / 0x100)) * w by { Assoc(v / 0x100, 0x100, w); }
    assert (v % 0x100) * w + (0x100 * (v / 0x100)) * w == v * w;
    assert (v - x1[i]) * w == v * w - x1[i] * w;
  }

  /** The carry walk that writes the 32 bytes. */
  method EmitBytes(x: array<i64>) returns (r: seq<u8>, ghost out: int)
    requires x.Length == 64 && forall k :: 0 <= k < 64 ==> -0x40_0000 <= x[k] <= 0x40_0000
    modifies x
    ensures |r| == 32 && Le(r) + out * Pow(0x100, N) == old(Value(0x100, x[..], N))
  {
    ghost var x1: seq<int> := x[..];
    var b := new u8[32](_ => 0);
    var i := 0;
    while i < N
      invariant 0 <= i <= N
      invariant BytesDone(x1, x[..], b[..], i)
    {
      ghost var mid: seq<int>, was: seq<int> := x[..], b[..];
      BytesStep(x1, mid, was, i);
      x[i + 1] := x[i + 1] + x[i] / 0x100;
      b[i] := x[i] % 0x100;
      assert x[..] == mid[i + 1 := x[i + 1]] && b[..] == was[i := b[i]];
      i := i + 1;
    }
    r := b[..];
    out := x[32] - x1[32];
  }

  // ---- the value that comes out -----------------------------------------------------------------

  /** V - q*L lies between -256^31 and 2^252. */
  lemma QuotientRange(x: seq<int>, q: int)
    requires Folding(x, 31) && q == x[31] / 16
    ensures var y := Value(0x100, x, N) - q * ELL; -(TWO252 / 16) < y < TWO252
  {
    var n: nat := 31;
    MagnitudeBound(0x100, x, 129, n);
    ByteWeights();
    var low, w := Value(0x100, x, n), Pow(0x100, n);
    assert Value(0x100, x, N) == low + x[31] * w;
    var m := x[31] % 16;
    assert x[31] == 16 * q + m && -9 <= q <= 8;
  }

  /** Taking off the floor by 2^256 and adding L back if it was negative leaves the residue. */
  lemma ResidueOut(v: int, q: int, c: int, d: int, out: int, r: int)
    requires var y := v - q * ELL; -(TWO252 / 16) < y < TWO252
    requires 0 <= d < TWO256 && d + c * TWO256 == v - q * ELL
    requires 0 <= r < TWO256 && r + out * TWO256 == d - c * ELL
    ensures r == v % ELL
  {
    var y := v - q * ELL;
    DivModUnique(y, c, d, TWO256);
    if y >= 0 {
      DivModUnique(y, 0, y, TWO256);
      DivModUnique(d, out, r, TWO256);
      DivModUnique(d, 0, d, TWO256);
      DivModUnique(v, q, y, ELL);
    } else {
      DivModUnique(y, -1, y + TWO256, TWO256);
      DivModUnique(d + ELL, out, r, TWO256);
      DivModUnique(d + ELL, 1, y + ELL, TWO256);
      DivModUnique(v, q - 1, y + ELL, ELL);
    }
  }

  lemma FoldCong(v': int, v: int, k: int)
    requires v' == v - k * ELL
    ensures Cong(v', v, ELL)
  {
    CongMultiple(v', v, -k, ELL);
  }

  /** The last two loops, from the folded limbs to the canonical bytes. */
  method Canonical(x: array<i64>) returns (r: seq<u8>)
    requires x.Length == 64 && Folding(x[..], 31)
    modifies x
    ensures |r| == 32 && Le(r) == old(Value(0x100, x[..], 64)) % ELL
  {
    hide Value;
    hide Pow;
    ghost var x0: seq<int> := x[..];
    ghost var q := x0[31] / 16;
    HighZeros(0x100, x0, N, 64);
    QuotientRange(x0, q);
    var c := TakeQuotient(x);
    ghost var x1: seq<int> := x[..];
    DigitsBound(0x100, x1, N);
    LValues(N);
    ByteWeights();
    TakeCarry(x, c);
    Sum(0x100, x1, L, x[..], 0 - c, N);
    ghost var out;
    r, out := EmitBytes(x);
    DigitsBound(0x100, r, N);
    ResidueOut(Value(0x100, x0, N), q, c, Value(0x100, x1, N), out, Le(r));
  }

  /** modL: 64 limbs of magnitude at most 2^21 to the 32 bytes of their value modulo L. */
  method ModL(x: array<i64>) returns (r: seq<u8>)
    requires x.Length == 64 && forall k :: 0 <= k < 64 ==> -RAW <= x[k] <= RAW
    modifies x
    ensures |r| == 32 && Le(r) == old(Value(0x100, x[..], 64)) % ELL
  {
    ghost var v := Value(0x100, x[..], 64);
    var i := 63;
    while i >= 32
      invariant 31 <= i <= 63
      invariant Folding(x[..], i)
      invariant Cong(Value(0x100, x[..], 64), v, ELL)
    {
      ghost var before, k := Value(0x100, x[..], 64), 16 * x[i] * Pow(0x100, i - 32);
      FoldRow(x, i);
      FoldCong(Value(0x100, x[..], 64), before, k);
      i := i - 1;
    }
    r := Canonical(x);
  }

  // ---- callers ---------------------------------------------------------------------------------------

  /** reduce: a 64-byte digest modulo L. */
  method Reduce(d: seq<u8>) returns (r: seq<u8>)
    requires |d| == 64
    ensures |r| == 32
    ensures Le(r) == Le(d) % 0x1000_0000_0000_0000_0000_0000_0000_0000_14de_f9de_a2f7_9cd6_5812_631a_5cf5_d3ed
  {
    var x := new i64[64](k requires 0 <= k < 64 => d[k]);
    Frame(0x100, x[..], d, 64);
    r := ModL(x);
  }

  /** s_canonical: 1 exactly when the bytes spell a number below L. */
  method SCanonical(s: seq<u8>) returns (ok: int)
    requires |s| == 32
    ensures ok
         == if Le(s) < 0x1000_0000_0000_0000_0000_0000_0000_0000_14de_f9de_a2f7_9cd6_5812_631a_5cf5_d3ed then 1 else 0
  {
    LValues(N);
    var i := 32;
    while i > 0
      invariant 0 <= i <= 32
      invariant forall k :: i <= k < 32 ==> s[k] == L[k]
    {
      i := i - 1;
      if s[i] < L[i] {
        Compare(0x100, s, L, i, N);
        return 1;
      }
      if s[i] > L[i] {
        Compare(0x100, L, s, i, N);
        return 0;
      }
    }
    Frame(0x100, s, L, N);
    return 0;
  }

  // ---- S = r + h * a ------------------------------------------------------------------------------------

  /** j products of one row have been added to a value of v. */
  ghost predicate SumDone(x: seq<int>, v: int, y: int, d: seq<int>, i: nat, j: nat)
    requires |x| == 64 && j <= |d|
  {
    Value(0x100, x, 64) == v + (y * Pow(0x100, i)) * Value(0x100, d, j)
  }

  lemma SumStep(x: seq<int>, v: int, y: int, d: seq<int>, i: nat, j: nat)
    requires |x| == 64 && j < |d| && i + j < 64 && SumDone(x, v, y, d, i, j)
    ensures SumDone(x[i + j := x[i + j] + y * d[j]], v, y, d, i, j + 1)
  {
    ProductCell(0x100, x, i, j, y, d[j], 64);
    var z := y * Pow(0x100, i);
    assert z * (Value(0x100, d, j) + d[j] * Pow(0x100, j)) == z * Value(0x100, d, j) + z * (d[j] * Pow(0x100, j));
  }

  lemma ByteProduct(x: u8, y: u8)
    ensures 0 <= x * y <= 65025
  {
    MulGe(0xff, y, x);
    MulGe(0xff, x, 0xff);
    MulGe(y, 0, x);
  }

  const CELL: int := 65025

  /** x[i..] += y * d. */
  method AddRow(x: array<i64>, y: u8, d: seq<u8>, i: nat)
    requires x.Length == 64 && |d| == 32 && i < 32
    requires forall k :: 0 <= k < 64 ==> 0 <= x[k] <= 255 + CELL * i
    modifies x
    ensures forall k :: 0 <= k < 64 ==> 0 <= x[k] <= 255 + CELL * (i + 1)
    ensures Value(0x100, x[..], 64) == old(Value(0x100, x[..], 64)) + (y * Pow(0x100, i)) * Le(d)
  {
    ghost var v := Value(0x100, x[..], 64);
    var j := 0;
    while j < |d|
      invariant 0 <= j <= |d|
      invariant SumDone(x[..], v, y, d, i, j)
      invariant forall k :: 0 <= k < i + j ==> 0 <= x[k] <= 255 + CELL * (i + 1)
      invariant forall k :: i + j <= k < 64 ==> 0 <= x[k] <= 255 + CELL * i
    {
      ghost var mid: seq<int> := x[..];
      SumStep(mid, v, y, d, i, j);
      ByteProduct(y, d[j]);
      x[i + j] := x[i + j] + y * d[j];
      assert x[..] == mid[i + j := x[i + j]];
      j := j + 1;
    }
  }

  lemma RowsSum(r: int, u: int, y: int, w: int, d: int)
    ensures r + u * d + (y * w) * d == r + (u + y * w) * d
  {}

  /** The limbs of r + h * d, no limb above 2^21. */
  method Accumulate(r: seq<u8>, h: seq<u8>, d: seq<u8>) returns (x: array<i64>)
    requires |r| == 32 && |h| == 32 && |d| == 32
    ensures fresh(x) && x.Length == 64 && (forall k :: 0 <= k < 64 ==> -RAW <= x[k] <= RAW)
    ensures Value(0x100, x[..], 64) == Le(r) + Le(h) * Le(d)
  {
    x := new i64[64](k requires 0 <= k < 64 => if k < 32 then r[k] else 0);
    Frame(0x100, x[..], r, N);
    HighZeros(0x100, x[..], N, 64);
    var i := 0;
    while i < 32
      invariant 0 <= i <= 32
      invariant Value(0x100, x[..], 64) == Le(r) + Value(0x100, h, i) * Le(d)
      invariant forall k :: 0 <= k < 64 ==> 0 <= x[k] <= 255 + CELL * i
    {
      AddRow(x, h[i], d, i);
      RowsSum(Le(r), Value(0x100, h, i), h[i], Pow(0x100, i), Le(d));
      i := i + 1;
    }
  }

  /** The scalar half of ed25519_sign: S = (r + h * a) mod L, which s_canonical accepts. */
  method SignScalar(r: seq<u8>, h: seq<u8>, a: seq<u8>) returns (s: seq<u8>, accepted: int)
    requires |r| == 32 && |h| == 32 && |a| == 32
    ensures |s| == 32
    ensures Le(s)
         == (Le(r) + Le(h) * Le(a)) % 0x1000_0000_0000_0000_0000_0000_0000_0000_14de_f9de_a2f7_9cd6_5812_631a_5cf5_d3ed
    ensures accepted == 1
  {
    var x := Accumulate(r, h, a);
    s := ModL(x);
    accepted := SCanonical(s);
  }
}

/** The in-place field routines of crypto/x25519.c:16-87, against arithmetic modulo 2^255 - 19. */
module Field25519 {
  import opened Arith
  import opened Bits
  import opened Machine
  import opened Limbs16
  import Radix

  const CARRY_LIMIT: int := 0x1000_0000_0000_0000

  /** car25519: one carry pass; nothing overflows for limbs up to 2^60. */
  method Car(o: array<i64>) returns (ghost k: int)
    requires o.Length == 16 && Within(o[..], CARRY_LIMIT)
    modifies o
    ensures Carried(old(o[..]), o[..], k)
  {
    ghost var o0 := o[..];
    k := 0;
    var i := 0;
    while i < 16
      invariant 0 <= i <= 16
      invariant i < 16 ==> Elem(o[..]) == Elem(o0)
      invariant i < 16 ==> -CARRY_LIMIT - 0x2000_0000_0000 <= o[i] <= CARRY_LIMIT + 0x2000_0000_0000
      invariant i < 16 ==> forall j :: i < j < 16 ==> o[j] == o0[j]
      invariant i < 16 ==> forall j :: 0 <= j < i ==> 0 <= o[j] < 0x10000
      invariant i == 16 ==> Carried(o0, o[..], k)
    {
      ghost var s := o[..];
      o[i] := o[i] + 0x10000;
      var c: i64 := o[i] / 0x10000;
      var next := if i < 15 then i + 1 else 0;
      o[next] := o[next] + (c - 1 + (if i == 15 then 37 * (c - 1) else 0));
      o[i] := o[i] - 0x10000 * c;
      k := c - 1;
      if i < 15 {
        CarryStep(s, i, k);
        assert o[..] == s[i := s[i] - 0x10000 * k][i + 1 := s[i + 1] + k];
      } else {
        CarryTop(s, k);
        assert o[..] == s[15 := s[15] - 0x10000 * k][0 := s[0] + 38 * k];
      }
      i := i + 1;
    }
  }

  /** sel25519: p and q change places exactly when b is 1. */
  method Sel(p: array<i64>, q: array<i64>, b: i64)
    requires p.Length == 16 && q.Length == 16 && p != q && (b == 0 || b == 1)
    modifies p, q
    ensures p[..] == old(if b == 1 then q[..] else p[..])
    ensures q[..] == old(if b == 1 then p[..] else q[..])
  {
    var c: i64 := -1 - (b - 1);
    var i := 0;
    while i < 16
      invariant 0 <= i <= 16
      invariant forall j ::
        0 <= j < i ==> p[j] == old(if b == 1 then q[j] else p[j]) && q[j] == old(if b == 1 then p[j] else q[j])
      invariant forall j :: i <= j < 16 ==> p[j] == old(p[j]) && q[j] == old(q[j])
    {
      MaskedSwap(p[i], q[i], c);
      var t := And64(c, Xor64(p[i], q[i]));
      p[i] := Xor64(p[i], t);
      q[i] := Xor64(q[i], t);
      i := i + 1;
    }
  }

  const SUM_LIMIT: int := 0x200_0000

  /** fadd. o may be a or b. */
  method Fadd(o: array<i64>, a: seq<i64>, b: seq<i64>)
    requires o.Length == 16 && |a| == 16 && |b| == 16 && Within(a, SUM_LIMIT) && Within(b, SUM_LIMIT)
    modifies o
    ensures forall i :: 0 <= i < 16 ==> o[i] == a[i] + b[i]
    ensures Elem(o[..]) == Elem(a) + Elem(b)
  {
    var i := 0;
    while i < 16
      invariant 0 <= i <= 16
      invariant forall j :: 0 <= j < i ==> o[j] == a[j] + b[j]
    {
      o[i] := a[i] + b[i];
      i := i + 1;
    }
    LSum(a, b, o[..], 1, 16);
  }

  /** fsub. */
  method Fsub(o: array<i64>, a: seq<i64>, b: seq<i64>)
    requires o.Length == 16 && |a| == 16 && |b| == 16 && Within(a, SUM_LIMIT) && Within(b, SUM_LIMIT)
    modifies o
    ensures forall i :: 0 <= i < 16 ==> o[i] == a[i] - b[i]
    ensures Elem(o[..]) == Elem(a) - Elem(b)
  {
    var i := 0;
    while i < 16
      invariant 0 <= i <= 16
      invariant forall j :: 0 <= j < i ==> o[j] == a[j] - b[j]
    {
      o[i] := a[i] - b[i];
      i := i + 1;
    }
    LSum(a, b, o[..], -1, 16);
  }

  // ---- fmul ---------------------------------------------------------------------

  /** What is in t after i full rows and j products of row i. */
  ghost predicate ProductDone(t: seq<int>, a: seq<int>, b: seq<int>, i: nat, j: nat)
    requires |t| == 31 && |a| == 16 && |b| == 16 && i <= 16 && j <= 16 && (i == 16 ==> j == 0)
  {
    L(t, 31) == L(a, i) * L(b, 16) + (if i < 16 then (a[i] * X(i)) * L(b, j) else 0)
  }

  lemma ProductStep(t: seq<int>, a: seq<int>, b: seq<int>, i: nat, j: nat)
    requires |t| == 31 && |a| == 16 && |b| == 16 && i < 16 && j < 16
    requires ProductDone(t, a, b, i, j)
    ensures ProductDone(t[i + j := t[i + j] + a[i] * b[j]], a, b, i, j + 1)
  {
    Radix.ProductCell(0x10000, t, i, j, a[i], b[j], 31);
    var z := a[i] * X(i);
    assert z * (L(b, j) + b[j] * X(j)) == z * L(b, j) + z * (b[j] * X(j));
  }

  lemma ProductRow(t: seq<int>, a: seq<int>, b: seq<int>, i: nat)
    requires |t| == 31 && |a| == 16 && |b| == 16 && i < 16
    requires ProductDone(t, a, b, i, 16)
    ensures ProductDone(t, a, b, i + 1, 0)
  {
    assert (L(a, i) + a[i] * X(i)) * L(b, 16) == L(a, i) * L(b, 16) + (a[i] * X(i)) * L(b, 16);
  }

  lemma ProductBound(x: int, y: int, m: int)
    requires -m <= x <= m && -m <= y <= m
    ensures -(m * m) <= x * y <= m * m
  {
    if x >= 0 {
      MulGe(y, -m, x);
      MulGe(m, y, x);
      MulGe(m, x, m);
    } else {
      MulGe(y, -m, -x);
      MulGe(m, y, -x);
      MulGe(m, -x, m);
    }
  }

  const MUL_LIMIT: int := 0x200_0000
  const ROW_LIMIT: int := 0x4_0000_0000_0000

  /** The schoolbook product into 31 columns. */
  method Columns(a: seq<i64>, b: seq<i64>) returns (t: array<i64>)
    requires |a| == 16 && |b| == 16 && Within(a, MUL_LIMIT) && Within(b, MUL_LIMIT)
    ensures fresh(t) && t.Length == 31 && L(t[..], 31) == Elem(a) * Elem(b)
    ensures Within(t[..], 16 * ROW_LIMIT)
  {
    t := new i64[31](_ => 0);
    LZeros(t[..], 31);
    var i := 0;
    while i < 16
      invariant 0 <= i <= 16
      invariant ProductDone(t[..], a, b, i, 0)
      invariant Within(t[..], i * ROW_LIMIT)
    {
      var j := 0;
      while j < 16
        invariant 0 <= j <= 16
        invariant ProductDone(t[..], a, b, i, j)
        invariant forall k :: 0 <= k < i + j ==> -(i + 1) * ROW_LIMIT <= t[k] <= (i + 1) * ROW_LIMIT
        invariant forall k :: i + j <= k < 31 ==> -i * ROW_LIMIT <= t[k] <= i * ROW_LIMIT
      {
        ProductBound(a[i], b[j], MUL_LIMIT);
        ProductStep(t[..], a, b, i, j);
        t[i + j] := t[i + j] + a[i] * b[j];
        j := j + 1;
      }
      ProductRow(t[..], a, b, i);
      i := i + 1;
    }
  }

  lemma FoldHigh(t: seq<int>, o: seq<int>)
    requires |t| == 31 && |o| == 16
    requires forall i :: 0 <= i < 15 ==> o[i] == t[i] + 38 * t[i + 16]
    requires o[15] == t[15]
    ensures Cong(Elem(o), L(t, 31), P)
  {
    var high := t[16..];
    LSplit(t, 16, 31);
    X16();
    LSum(t, high, o, 38, 15);
    assert Elem(o) == L(t, 16) + 38 * L(high, 15);
    assert L(t, 31) == Elem(o) + (2 * L(high, 15)) * P;
    CongMultiple(L(t, 31), Elem(o), 2 * L(high, 15), P);
  }

  /** Columns 16 and up folded back times 38, and the low sixteen copied out. */
  method Fold(o: array<i64>, t: array<i64>)
    requires o.Length == 16 && t.Length == 31 && o != t && Within(t[..], 16 * ROW_LIMIT)
    modifies o, t
    ensures Within(o[..], CARRY_LIMIT) && Cong(Elem(o[..]), old(L(t[..], 31)), P)
  {
    ghost var t0 := t[..];
    var i := 0;
    while i < 15
      invariant 0 <= i <= 15
      invariant forall k :: 0 <= k < i ==> t[k] == t0[k] + 38 * t0[k + 16]
      invariant forall k :: i <= k < 31 ==> t[k] == t0[k]
    {
      t[i] := t[i] + 38 * t[i + 16];
      i := i + 1;
    }
    ghost var t1 := t[..];
    i := 0;
    while i < 16
      invariant 0 <= i <= 16 && t[..] == t1
      invariant forall k :: 0 <= k < i ==> o[k] == t1[k]
    {
      o[i] := t[i];
      i := i + 1;
    }
    FoldHigh(t0, o[..]);
    FoldWithin(t0, o[..]);
  }

  lemma FoldWithin(t: seq<int>, o: seq<int>)
    requires |t| == 31 && |o| == 16 && Within(t, 16 * ROW_LIMIT)
    requires forall i :: 0 <= i < 15 ==> o[i] == t[i] + 38 * t[i + 16]
    requires o[15] == t[15]
    ensures Within(o, CARRY_LIMIT)
  {
    forall i | 0 <= i < 15
      ensures -CARRY_LIMIT <= o[i] <= CARRY_LIMIT
    {
      assert -16 * ROW_LIMIT <= t[i + 16] <= 16 * ROW_LIMIT;
    }
  }

  /** fmul: the product modulo 2^255 - 19, back in the band. o may be a or b. */
  method Fmul(o: array<i64>, a: seq<i64>, b: seq<i64>)
    requires o.Length == 16 && |a| == 16 && |b| == 16 && Within(a, MUL_LIMIT) && Within(b, MUL_LIMIT)
    modifies o
    ensures Band(o[..]) && Cong(Elem(o[..]), Elem(a) * Elem(b), P)
  {
    var t := Columns(a, b);
    Fold(o, t);
    ghost var s0 := o[..];
    ghost var k1 := Car(o);
    ghost var s1 := o[..];
    CarriedWithin(s0, s1, k1);
    ghost var k2 := Car(o);
    TwoPasses(s0, s1, k1, o[..], k2);
  }

  /** One pass keeps the limbs small enough for another. */
  lemma CarriedWithin(s0: seq<int>, s1: seq<int>, k1: int)
    requires Carried(s0, s1, k1) && Within(s0, CARRY_LIMIT)
    ensures Within(s1, CARRY_LIMIT)
  {
    CarriedFloor(s0, s1, k1);
    X16();
    WithinBound(s0, CARRY_LIMIT, 16);
    TopCarry(s0, k1);
  }

  /** The carry out is far smaller than the limbs: the value is at most their bound times (2^256-1)/(2^16-1). */
  lemma TopCarry(s: seq<int>, k: int)
    requires |s| == 16 && Within(s, CARRY_LIMIT) && k == Elem(s) / TWO256
    ensures -0x2000_0000_0000 <= k <= 0x2000_0000_0000
  {
    WithinBound(s, CARRY_LIMIT, 15);
    XStep(15);
    X16();
    MulGe(s[15], -CARRY_LIMIT, X(15));
    MulGe(CARRY_LIMIT, s[15], X(15));
  }

  lemma BandWithin(s: seq<int>)
    requires Band(s)
    ensures Within(s, 65573)
  {}

  // ---- inv25519 -------------------------------------------------------------------

  /** The exponent reached once index a has been processed. */
  ghost function InvExponent(a: nat): nat
    requires a <= 254
    decreases 254 - a
  {
    if a == 254 then 1
    else 2 * InvExponent(a + 1) + (if a == 2 || a == 4 then 0 else 1)
  }

  lemma {:induction false} InvExponentHigh(a: nat)
    requires 5 <= a <= 254
    ensures InvExponent(a) == Pow2(255 - a) - 1
    decreases 254 - a
  {
    if a == 254 {
      assert Pow2(1) == 2 * Pow2(0);
    } else {
      InvExponentHigh(a + 1);
    }
  }

  lemma TwoTo250(k: nat)
    requires k == 250
    ensures 32 * Pow2(k) == P + 19
  {
    assert Pow2(10) == 0x400;
    hide Pow2;
    var d: nat := 48;
    TwoTo48(d);
    Pow2Known(d, d, 0x1_0000_0000_0000, 0x1_0000_0000_0000);
    Pow2Known(2 * d, 2 * d, TWO96, TWO96);
    Pow2Known(4 * d, d, TWO192, 0x1_0000_0000_0000);
    Pow2Known(5 * d, 10, TWO240, 0x400);
  }

  const TWO96: nat := 0x1_0000_0000_0000_0000_0000_0000
  const TWO192: nat := 0x1_0000_0000_0000_0000_0000_0000_0000_0000_0000_0000_0000_0000
  const TWO240: nat := 0x1_0000_0000_0000_0000_0000_0000_0000_0000_0000_0000_0000_0000_0000_0000_0000

  lemma TwoTo48(d: nat)
    requires d == 48
    ensures Pow2(d) == 0x1_0000_0000_0000
  {
    hide Pow2;
    var b, c: nat := 16, 32;
    TwoTo16(b);
    TwoTo32(c);
    Pow2Known(c, b, 0x1_0000_0000, 0x1_0000);
  }

  /** The inversion's exponent is p - 2. */
  lemma InvExponentIsPMinus2(z: nat)
    requires z == 0
    ensures InvExponent(z) == P - 2
  {
    var five: nat := 5;
    InvExponentHigh(five);
    TwoTo250(255 - five);
    assert InvExponent(z + 4) == 2 * InvExponent(five);
    assert InvExponent(z + 3) == 2 * InvExponent(z + 4) + 1;
    assert InvExponent(z + 2) == 2 * InvExponent(z + 3);
    assert InvExponent(z + 1) == 2 * InvExponent(z + 2) + 1;
    assert InvExponent(z) == 2 * InvExponent(z + 1) + 1;
  }

  lemma SquareExponent(r: int, c: int, x: int, e: nat)
    requires Cong(c, Pow(x, e), P) && Cong(r, c * c, P)
    ensures Cong(r, Pow(x, 2 * e), P)
  {
    CongMul(c, Pow(x, e), c, Pow(x, e), P);
    PowAdd(x, e, e);
  }

  lemma NextExponent(r: int, c: int, x: int, e: nat)
    requires Cong(c, Pow(x, e), P) && Cong(r, c * x, P)
    ensures Cong(r, Pow(x, e + 1), P)
  {
    CongMul(c, Pow(x, e), x, x, P);
    assert Pow(x, e) * x == x * Pow(x, e) == Pow(x, e + 1);
  }

  /** inv25519's loop: squarings, and multiplications at every index but 2 and 4. */
  method InvLoop(x: seq<i64>) returns (c: array<i64>, ghost e: nat)
    requires |x| == 16 && Within(x, MUL_LIMIT)
    ensures fresh(c) && c.Length == 16 && Band(c[..])
    ensures e == P - 2 && Cong(Elem(c[..]), Pow(Elem(x), e), P)
  {
    c := new i64[16](k requires 0 <= k < 16 => x[k]);
    assert c[..] == x;
    ghost var xv := Elem(x);
    assert Pow(xv, 1) == xv * Pow(xv, 0);
    var a := 254;
    while a > 0
      invariant 0 <= a <= 254
      invariant Within(c[..], MUL_LIMIT) && (a < 254 ==> Band(c[..]))
      invariant Cong(Elem(c[..]), Pow(xv, InvExponent(a)), P)
    {
      a := a - 1;
      ghost var cv := Elem(c[..]);
      Fmul(c, c[..], c[..]);
      SquareExponent(Elem(c[..]), cv, xv, InvExponent(a + 1));
      BandWithin(c[..]);
      if a != 2 && a != 4 {
        cv := Elem(c[..]);
        Fmul(c, c[..], x);
        NextExponent(Elem(c[..]), cv, xv, 2 * InvExponent(a + 1));
        BandWithin(c[..]);
      }
    }
    InvExponentIsPMinus2(a);
    e := InvExponent(a);
  }

  /** inv25519: the p - 2 power. */
  method Inv(o: array<i64>, x: seq<i64>)
    requires o.Length == 16 && |x| == 16 && Within(x, MUL_LIMIT)
    modifies o
    ensures Band(o[..]) && Cong(Elem(o[..]), Pow(Elem(x), P - 2), P)
  {
    var c, e := InvLoop(x);
    label Done:
    var k := 0;
    while k < 16
      invariant 0 <= k <= 16
      invariant forall j :: 0 <= j < k ==> o[j] == c[j]
      invariant c[..] == old@Done(c[..])
    {
      o[k] := c[k];
      k := k + 1;
    }
    assert o[..] == c[..];
    assert Cong(Elem(o[..]), Pow(Elem(x), e), P);
    assert Band(o[..]);
    assert Pow(Elem(x), e) == Pow(Elem(x), P - 2);
  }

  // ---- pack25519 and unpack25519 ----------------------------------------------------

  /** The limbs of 2^255 - 19. */
  function PLimb(i: nat): int {
    if i == 0 then 0xffed else if i < 15 then 0xffff else 0x7fff
  }

  ghost function PLimbs(n: nat): (s: seq<int>)
    ensures |s| == n && forall i :: 0 <= i < n ==> s[i] == PLimb(i)
  {
    seq(n, i requires i >= 0 => PLimb(i))
  }

  lemma {:induction false} PLimbsValue(n: nat)
    requires 1 <= n <= 15
    ensures L(PLimbs(n), n) == X(n) - 19
  {
    if n == 1 {
      assert X(0) == 1 && X(1) == 0x10000 * X(0);
      assert L(PLimbs(1), 1) == L(PLimbs(1), 0) + 0xffed * X(0);
    } else {
      PLimbsValue(n - 1);
      LFrame(PLimbs(n), PLimbs(n - 1), n - 1);
      XStep(n - 1);
    }
  }

  lemma PLimbsSpellP()
    ensures Elem(PLimbs(16)) == P
  {
    var n: nat := 15;
    PLimbsValue(n);
    LFrame(PLimbs(16), PLimbs(n), n);
    XStep(n);
    X16();
    assert L(PLimbs(16), n + 1) == L(PLimbs(16), n) + 0x7fff * X(n);
  }

  /** m is t minus the low i + 1 limbs of p, borrows masked below limb i. */
  ghost predicate Borrowing(t: seq<int>, m: seq<int>, i: nat)
    requires |t| == 16 && |m| == 16 && i < 16
  {
    && (forall k :: 0 <= k < i ==> 0 <= m[k] < 0x10000)
    && -0x10000 <= m[i] < 0x10000
    && L(m, i + 1) == L(t, i + 1) - L(PLimbs(16), i + 1)
  }

  lemma BorrowNext(t: seq<int>, m: seq<int>, i: nat)
    requires |t| == 16 && |m| == 16 && 1 <= i < 16 && Digits(t) && Borrowing(t, m, i - 1)
    ensures var b := m[i - 1] / 0x10000 % 2;
            Borrowing(t, m[i := t[i] - PLimb(i) - b][i - 1 := m[i - 1] % 0x10000], i)
  {
    var b := m[i - 1] / 0x10000 % 2;
    var x := m[i - 1];
    assert x % 0x10000 == x + b * 0x10000;
    var m' := m[i := t[i] - PLimb(i) - b][i - 1 := x % 0x10000];
    LFrame(m, m', i - 1);
    XStep(i - 1);
    assert L(m', i) == L(m', i - 1) + m'[i - 1] * X(i - 1);
    assert L(m', i + 1) == L(m', i) + m'[i] * X(i);
    assert L(m, i) == L(m, i - 1) + x * X(i - 1);
    BorrowAlgebra(x, b, X(i - 1), t[i], PLimb(i));
  }

  lemma BorrowAlgebra(x: int, b: int, w: int, y: int, z: int)
    ensures (x + b * 0x10000) * w + (y - z - b) * (0x10000 * w) == x * w + y * (0x10000 * w) - z * (0x10000 * w)
  {
    Assoc(b, 0x10000, w);
  }

  lemma BorrowOut(t: seq<int>, m: seq<int>)
    requires |t| == 16 && |m| == 16 && Digits(t) && Borrowing(t, m, 15)
    ensures var b := m[15] / 0x10000 % 2;
            && (b == 1 <==> Elem(t) < P)
            && (b == 0 ==> Digits(m) && Elem(m) == Elem(t) - P)
            && (b == 0 || b == 1)
  {
    assert L(m, 16) == L(m, 15) + m[15] * X(15);
    hide L;
    hide X;
    PLimbsSpellP();
    DigitsBound(m, 15);
    XStep(15);
    TopSign(L(m, 15), m[15], X(15));
  }

  lemma TopSign(low: int, x: int, w: int)
    requires 0 <= low < w && -0x10000 <= x < 0x10000
    ensures low + x * w < 0 <==> x < 0
    ensures x / 0x10000 % 2 == if x < 0 then 1 else 0
  {
    if x < 0 { MulGe(-1, x, w); } else { MulGe(x, 0, w); }
  }

  lemma BorrowStart(t: seq<int>, m: seq<int>)
    requires |t| == 16 && |m| == 16 && Digits(t) && m[0] == t[0] - 0xffed
    ensures Borrowing(t, m, 0)
  {
    assert X(0) == 1;
    assert L(m, 1) == L(m, 0) + m[0] * X(0) && L(t, 1) == L(t, 0) + t[0] * X(0);
    assert L(PLimbs(16), 1) == L(PLimbs(16), 0) + PLimb(0) * X(0);
  }

  /** t - p limb by limb, and the borrow out. */
  method BorrowChain(t: seq<i64>) returns (m: array<i64>, b: i64)
    requires |t| == 16 && Digits(t)
    ensures fresh(m) && m.Length == 16 && (b == 0 || b == 1)
    ensures b == 1 <==> Elem(t) < P
    ensures b == 0 ==> Digits(m[..]) && Elem(m[..]) == Elem(t) - P
  {
    m := new i64[16](_ => 0);
    m[0] := t[0] - 0xffed;
    BorrowStart(t, m[..]);
    var i := 1;
    while i < 16
      invariant 1 <= i <= 16
      invariant Borrowing(t, m[..], i - 1)
    {
      ghost var before := m[..];
      BorrowNext(t, before, i);
      var borrow := m[i - 1] / 0x10000 % 2;
      m[i] := t[i] - PLimb(i) - borrow;
      m[i - 1] := m[i - 1] % 0x10000;
      assert m[..] == before[i := t[i] - PLimb(i) - borrow][i - 1 := before[i - 1] % 0x10000];
      i := i + 1;
    }
    b := m[15] / 0x10000 % 2;
    BorrowOut(t, m[..]);
  }

  /** One conditional subtraction of p. */
  method SubtractP(t: array<i64>)
    requires t.Length == 16 && Digits(t[..])
    modifies t
    ensures Digits(t[..])
    ensures var x := old(Elem(t[..])); Elem(t[..]) == if x >= P then x - P else x
  {
    var m, b := BorrowChain(t[..]);
    Sel(t, m, 1 - b);
  }

  lemma {:induction false} BytesPerLimb(n: nat)
    ensures Pow(0x100, 2 * n) == X(n)
  {
    if n > 0 {
      BytesPerLimb(n - 1);
      PowAdd(0x100, 2, 2 * (n - 1));
      assert Pow(0x100, 2) == 0x10000;
    }
  }

  lemma {:induction false} LimbBytes(t: seq<int>, b: seq<int>, n: nat)
    requires |b| == 2 * n && n <= |t|
    requires forall i :: 0 <= i < n ==> t[i] == b[2 * i] + 0x100 * b[2 * i + 1]
    ensures Le(b) == L(t, n)
  {
    if n > 0 {
      var x, y := b[..2 * n - 2], b[2 * n - 2..];
      assert b == x + y;
      LimbBytes(t, x, n - 1);
      LeConcat(x, y);
      BytesPerLimb(n - 1);
      assert Pow(0x100, 0) == 1 && Pow(0x100, 1) == 0x100 * Pow(0x100, 0);
      assert Radix.Value(0x100, y, 1) == Radix.Value(0x100, y, 0) + y[0] * Pow(0x100, 0);
      assert Le(y) == y[0] + 0x100 * y[1];
    }
  }

  /** pack25519: the one 32-byte string below p that spells the element's residue. */
  method Pack(n: seq<i64>) returns (o: seq<u8>)
    requires |n| == 16 && Within(n, CARRY_LIMIT)
    ensures |o| == 32 && Le(o) == Elem(n) % P
  {
    var t := new i64[16](k requires 0 <= k < 16 => n[k]);
    assert t[..] == n;
    ghost var k1 := Car(t);
    ghost var s1 := t[..];
    CarriedWithin(n, s1, k1);
    ghost var k2 := Car(t);
    ghost var s2 := t[..];
    TwoPasses(n, s1, k1, s2, k2);
    BandWithin(s2);
    ghost var k3 := Car(t);
    ThirdPass(s2, t[..], k3);
    ghost var x := Elem(t[..]);
    SubtractP(t);
    SubtractP(t);
    ReducedTwice(x, Elem(t[..]), Elem(n));
    o := LimbsToBytes(t);
  }

  lemma ReducedTwice(x: int, y: int, n: int)
    requires 0 <= x < TWO256 && Cong(x, n, P)
    requires var x1 := (if x >= P then x - P else x); y == if x1 >= P then x1 - P else x1
    ensures y == n % P
  {
    var k := if y == x then 0 else if y == x - P then -1 else -2;
    CongMultiple(y, x, k, P);
    ModSmall(y, P);
  }

  method LimbsToBytes(t: array<i64>) returns (o: seq<u8>)
    requires t.Length == 16 && Digits(t[..])
    ensures |o| == 32 && Le(o) == Elem(t[..])
  {
    var b := new u8[32];
    var i := 0;
    while i < 16
      invariant 0 <= i <= 16
      invariant forall k :: 0 <= k < i ==> b[2 * k] == t[k] % 0x100 && b[2 * k + 1] == t[k] / 0x100
    {
      b[2 * i] := t[i] % 0x100;
      b[2 * i + 1] := t[i] / 0x100;
      i := i + 1;
    }
    o := b[..];
    LimbBytes(t[..], o, 16);
  }

  /** unpack25519: the low 255 bits. */
  method Unpack(o: array<i64>, n: seq<u8>)
    requires o.Length == 16 && |n| == 32
    modifies o
    ensures Digits(o[..]) && Elem(o[..]) == Le(n[31 := n[31] % 0x80])
  {
    var i := 0;
    while i < 16
      invariant 0 <= i <= 16
      invariant forall k :: 0 <= k < i ==> o[k] == n[2 * k] + 0x100 * (n[2 * k + 1] as int)
    {
      o[i] := n[2 * i] + 0x100 * (n[2 * i + 1] as int);
      i := i + 1;
    }
    o[15] := o[15] % 0x8000;
    LimbBytes(o[..], n[31 := n[31] % 0x80], 16);
  }
}

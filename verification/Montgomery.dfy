/** CIOS Montgomery multiplication and square-and-multiply, at any word count (crypto/rsa.c:43-113). */
module Montgomery {
  import opened Arith
  import opened Machine
  import opened Words

  /** The number a whole modulus spells. */
  ghost function Val(s: seq<u32>): nat {
    VBound(s, |s|);
    V(s, |s|)
  }

  // ---- the two carry rows of one CIOS column ------------------------------

  /** What the first j columns of a multiply-and-add have established. */
  ghost predicate RowDone(t0: seq<int>, t: seq<int>, a: seq<int>, y: int, c: int, j: nat)
    requires j <= |a| && j <= |t| == |t0|
  {
    && (forall k :: j <= k < |t| ==> t[k] == t0[k])
    && V(t, j) + c * W(j) == V(t0, j) + y * V(a, j)
  }

  lemma RowStep(t0: seq<int>, t: seq<int>, a: seq<int>, y: int, c: int, j: nat, s: int)
    requires j < |a| && j < |t| == |t0| && RowDone(t0, t, a, y, c, j)
    requires s == a[j] * y + t[j] + c
    ensures RowDone(t0, t[j := s % BASE], a, y, s / BASE, j + 1)
  {
    var t' := t[j := s % BASE];
    VFrame(t, t', j);
    WStep(j);
    SplitWord(s, W(j));
    RowAlgebra(V(t0, j), V(a, j), c, a[j], y, t0[j], W(j));
  }

  lemma RowTail(t0: seq<int>, t: seq<int>, a: seq<int>, y: int, c: int, n: nat, s: int)
    requires n <= |a| && n + 2 <= |t| == |t0| && RowDone(t0, t, a, y, c, n)
    requires s == t[n] + c
    ensures V(t[n := s % BASE][n + 1 := s / BASE], n + 2) == V(t0, n + 1) + y * V(a, n)
  {
    var t' := t[n := s % BASE][n + 1 := s / BASE];
    VFrame(t, t', n);
    WStep(n);
    SplitWord(s, W(n));
    assert V(t', n + 2) == V(t', n + 1) + t'[n + 1] * W(n + 1);
    assert s * W(n) == t0[n] * W(n) + c * W(n);
  }

  /** t += a * y over n words, the carry into words n and n + 1. */
  method MulAddRow(t: array<u32>, a: seq<u32>, y: u32, n: nat)
    requires n <= |a| && t.Length >= n + 2
    modifies t
    ensures V(t[..], n + 2) == old(V(t[..], n + 1)) + y * V(a, n)
    ensures t[n + 1] <= 1
  {
    ghost var t0 := t[..];
    var c: u32 := 0;
    var j := 0;
    while j < n
      invariant 0 <= j <= n
      invariant RowDone(t0, t[..], a, y, c, j)
    {
      ProductFits(a[j], y, t[j], c);
      var s: u64 := a[j] * y + t[j] + c;
      RowStep(t0, t[..], a, y, c, j, s);
      t[j] := s % BASE;
      c := s / BASE;
      j := j + 1;
    }
    var s: u64 := t[n] + c;
    RowTail(t0, t[..], a, y, c, n, s);
    t[n] := s % BASE;
    t[n + 1] := s / BASE;
  }

  lemma ProductFits(x: u32, y: u32, z: u32, c: u32)
    ensures 0 <= x * y + z + c < BASE2
    ensures (x * y + z + c) / BASE < BASE
  {
    MulGe(y, 0, x);
    MulGe(BASE - 1, y, x);
    MulGe(BASE - 1, x, BASE - 1);
  }

  lemma RowAlgebra(vt: int, va: int, c: int, x: int, y: int, z: int, w: int)
    ensures (vt + y * va - c * w) + (x * y + z + c) * w == (vt + z * w) + y * (va + x * w)
  {
    assert (x * y + z + c) * w == (x * y) * w + z * w + c * w;
    Assoc(y, x, w);
  }

  /** What the first j columns of a reduction have established (the words move down by one). */
  ghost predicate ReduceDone(t0: seq<int>, t: seq<int>, m: seq<int>, u: int, c: int, j: nat)
    requires 1 <= j <= |m| && j <= |t| == |t0|
  {
    && (forall k :: j <= k < |t| ==> t[k] == t0[k])
    && BASE * V(t, j - 1) + c * W(j) == V(t0, j) + u * V(m, j)
  }

  lemma ReduceStart(t: seq<u32>, m: seq<u32>, m0inv: u32, u: u32, s: int)
    requires |t| >= 1 && |m| >= 1 && (m0inv * m[0] + 1) % BASE == 0
    requires u == (t[0] * m0inv) % BASE && s == u * m[0] + t[0]
    ensures ReduceDone(t, t, m, u, s / BASE, 1)
  {
    LowWordVanishes(t[0], m0inv, m[0], u);
    assert W(0) == 1 && W(1) == BASE * W(0);
    assert V(t, 1) == V(t, 0) + t[0] * W(0) && V(m, 1) == V(m, 0) + m[0] * W(0);
  }

  lemma ReduceStep(t0: seq<int>, t: seq<int>, m: seq<int>, u: int, c: int, j: nat, s: int)
    requires 1 <= j < |m| && j < |t| == |t0| && ReduceDone(t0, t, m, u, c, j)
    requires s == u * m[j] + t[j] + c
    ensures ReduceDone(t0, t[j - 1 := s % BASE], m, u, s / BASE, j + 1)
  {
    var t' := t[j - 1 := s % BASE];
    VFrame(t, t', j - 1);
    WStep(j - 1);
    WStep(j);
    SplitWord(s, W(j));
    ShiftAlgebra(V(t, j - 1), s % BASE, W(j - 1));
    RowAlgebra(V(t0, j), V(m, j), c, m[j], u, t0[j], W(j));
  }

  lemma ReduceEnd(t0: seq<int>, t: seq<int>, m: seq<int>, u: int, c: int, n: nat, s: int)
    requires 1 <= n <= |m| && n + 2 <= |t| == |t0| && ReduceDone(t0, t, m, u, c, n)
    requires s == t[n] + c
    ensures BASE * V(t[n - 1 := s % BASE][n := t[n + 1] + s / BASE], n + 1) == V(t0, n + 2) + u * V(m, n)
  {
    var t' := t[n - 1 := s % BASE][n := t[n + 1] + s / BASE];
    VFrame(t, t', n - 1);
    WStep(n - 1);
    WStep(n);
    ReduceTail(V(t, n - 1), s, t0[n + 1], W(n - 1));
    assert V(t', n + 1) == V(t', n) + t'[n] * W(n);
    assert V(t0, n + 2) == V(t0, n + 1) + t0[n + 1] * W(n + 1);
    assert s * W(n) == t0[n] * W(n) + c * W(n);
  }

  /** t := (t + u*m) / 2^32 for the one u that makes the division exact. */
  method ReduceRow(t: array<u32>, m: seq<u32>, m0inv: u32, n: nat) returns (ghost u: u32)
    requires 0 < n <= |m| && t.Length >= n + 2 && t[n + 1] <= 1
    requires (m0inv * m[0] + 1) % BASE == 0
    modifies t
    ensures BASE * V(t[..], n + 1) == old(V(t[..], n + 2)) + u * V(m, n)
  {
    ghost var t0 := t[..];
    var uu: u32 := (t[0] * m0inv) % BASE;
    u := uu;
    ProductFits(uu, m[0], t[0], 0);
    var s: u64 := uu * m[0] + t[0];
    ReduceStart(t[..], m, m0inv, uu, s);
    var c: u32 := s / BASE;
    var j := 1;
    while j < n
      invariant 1 <= j <= n
      invariant ReduceDone(t0, t[..], m, u, c, j)
    {
      ProductFits(uu, m[j], t[j], c);
      s := uu * m[j] + t[j] + c;
      ReduceStep(t0, t[..], m, u, c, j, s);
      t[j - 1] := s % BASE;
      c := s / BASE;
      j := j + 1;
    }
    s := t[n] + c;
    ReduceEnd(t0, t[..], m, u, c, n, s);
    t[n - 1] := s % BASE;
    t[n] := t[n + 1] + s / BASE;
  }

  lemma LowWordVanishes(t0: u32, inv: u32, m0: u32, u: u32)
    requires (inv * m0 + 1) % BASE == 0 && u == (t0 * inv) % BASE
    ensures (u * m0 + t0) % BASE == 0
    ensures (u * m0 + t0) / BASE * BASE == u * m0 + t0
  {
    var k := (inv * m0 + 1) / BASE;
    var q := t0 * inv / BASE;
    assert u == t0 * inv - q * BASE;
    calc {
      u * m0 + t0;
      (t0 * inv - q * BASE) * m0 + t0;
      { assert (t0 * inv) * m0 == t0 * (inv * m0); assert (q * BASE) * m0 == (q * m0) * BASE; }
      t0 * (inv * m0) - (q * m0) * BASE + t0;
      t0 * (inv * m0 + 1) - (q * m0) * BASE;
      { Assoc(t0, k, BASE); }
      (t0 * k - q * m0) * BASE;
    }
    DivModUnique(u * m0 + t0, t0 * k - q * m0, 0, BASE);
  }

  lemma ShiftAlgebra(v: int, r: int, w: int)
    ensures BASE * (v + r * w) == BASE * v + r * (BASE * w)
  {
    Assoc(BASE, r, w);
    Assoc(r, BASE, w);
  }

  lemma ReduceTail(v: int, s: int, top: int, w: int)
    ensures BASE * (v + (s % BASE) * w + (top + s / BASE) * (BASE * w))
         == BASE * v + s * (BASE * w) + top * (BASE * (BASE * w))
  {
    var x := BASE * w;
    ShiftAlgebra(v, s % BASE, w);
    SplitWord(s, x);
    Assoc(BASE, top + s / BASE, x);
    Assoc(top + s / BASE, BASE, x);
    assert (top + s / BASE) * (BASE * x) == top * (BASE * x) + (s / BASE) * (BASE * x);
  }

  // ---- the final conditional subtraction ----------------------------------

  /** if (top || cmp(t, m) >= 0) sub(t, t, m): one subtraction of m, when it fits. */
  method SubtractIfAbove(t: array<u32>, m: seq<u32>, top: u32, n: nat)
    requires n <= t.Length && n <= |m|
    requires V(t[..], n) + top * W(n) < V(m, n) + W(n)
    modifies t
    ensures var x := old(V(t[..], n)) + top * W(n);
            V(t[..], n) == if x >= V(m, n) then x - V(m, n) else x
    ensures forall k :: n <= k < t.Length ==> t[k] == old(t[k])
  {
    ghost var x := V(t[..], n) + top * W(n);
    VBound(t[..], n);
    VBound(m, n);
    WStep(n);
    var above := top != 0;
    if !above {
      var c := Cmp(t, m, n);
      above := c >= 0;
    } else {
      MulGe(top, 1, W(n));
    }
    if above {
      ghost var before := V(t[..], n);
      var borrow := SubInPlace(t, m, n);
      VBound(t[..], n);
      BorrowCancels(x - V(m, n), V(t[..], n), borrow - top, W(n));
    }
  }

  /** Two numbers in [0, w) that differ by a multiple of w are equal. */
  lemma BorrowCancels(x: int, y: int, k: int, w: int)
    requires 0 <= x < w && 0 <= y < w && y == x + k * w
    ensures x == y
  {
    DivModUnique(y, 0, y, w);
    DivModUnique(y, k, x, w);
  }

  // ---- Newton's inverse and R^2 --------------------------------------------

  lemma NewtonStep(m0: int, x: int, x': int, p: int)
    requires p > 0 && p * p > 0 && BASE % (p * p) == 0
    requires (1 - m0 * x) % p == 0
    requires x' == (x * (2 - m0 * x)) % BASE
    ensures (1 - m0 * x') % (p * p) == 0
  {
    var k := (1 - m0 * x) / p;
    var q := x * (2 - m0 * x) / BASE;
    var l := BASE / (p * p);
    assert x' == x * (2 - m0 * x) - q * BASE;
    assert 1 - m0 * x == k * p;
    assert BASE == l * (p * p);
    calc {
      1 - m0 * x';
      1 - m0 * (x * (2 - m0 * x)) + m0 * (q * BASE);
      { NewtonSquare(m0, x); }
      (k * p) * (k * p) + m0 * (q * BASE);
      { Assoc(k * p, k, p); assert (k * p) * k == (k * k) * p; Assoc(k * k, p, p); }
      (k * k) * (p * p) + m0 * (q * (l * (p * p)));
      { Assoc(q, l, p * p); Assoc(m0, q * l, p * p); }
      (k * k + m0 * (q * l)) * (p * p);
    }
    DivModUnique(1 - m0 * x', k * k + m0 * (q * l), 0, p * p);
  }

  lemma NewtonSquare(m0: int, x: int)
    ensures 1 - m0 * (x * (2 - m0 * x)) == (1 - m0 * x) * (1 - m0 * x)
  {
    var y := m0 * x;
    assert m0 * (x * (2 - y)) == y * (2 - y) by { Assoc(m0, x, 2 - y); }
  }

  /** -m^-1 mod 2^32 for an odd low word: five doublings of precision. */
  method NegInverse(m0: u32) returns (inv: u32)
    requires Odd(m0)
    ensures (inv * m0 + 1) % BASE == 0
  {
    var x: u32 := 1;
    ghost var p := 2;
    var i := 0;
    while i < 5
      invariant 0 <= i <= 5
      invariant p == [2, 4, 16, 256, 65536, BASE][i]
      invariant (1 - m0 * x) % p == 0
    {
      ghost var y := x;
      x := (x * ((2 - m0 * x) % BASE)) % BASE;
      WrappedFactor(y, m0);
      assert BASE % (p * p) == 0;
      NewtonStep(m0, y, x, p);
      p := p * p;
      i := i + 1;
    }
    inv := (0 - x) % BASE;
    NegateInverse(m0, x, inv);
  }

  lemma WrappedFactor(x: int, m0: int)
    ensures (x * ((2 - m0 * x) % BASE)) % BASE == (x * (2 - m0 * x)) % BASE
  {
    ModMod(2 - m0 * x, BASE);
    CongMul(x, x, (2 - m0 * x) % BASE, 2 - m0 * x, BASE);
  }

  lemma NegateInverse(m0: int, x: int, inv: int)
    requires (1 - m0 * x) % BASE == 0 && inv == (0 - x) % BASE
    ensures (inv * m0 + 1) % BASE == 0
  {
    ModMod(0 - x, BASE);
    CongMul(inv, 0 - x, m0, m0, BASE);
    assert (0 - x) * m0 + 1 == 1 - m0 * x;
    CongAdd(inv * m0, (0 - x) * m0, 1, 1, BASE);
  }

  ghost predicate DoubleDone(r0: seq<int>, r: seq<int>, c: int, i: nat)
    requires i <= |r| == |r0|
  {
    && (forall k :: i <= k < |r| ==> r[k] == r0[k])
    && V(r, i) + c * W(i) == 2 * V(r0, i)
  }

  lemma DoubleStep(r0: seq<u32>, r: seq<u32>, c: int, i: nat)
    requires i < |r| == |r0| && 0 <= c <= 1 && DoubleDone(r0, r, c, i)
    ensures DoubleDone(r0, r[i := (2 * r[i]) % BASE + c], r[i] / 0x8000_0000, i + 1)
  {
    var v := r[i];
    var r' := r[i := (2 * v) % BASE + c];
    VFrame(r, r', i);
    WStep(i);
    SplitWord(2 * v, W(i));
    assert (2 * v) / BASE == v / 0x8000_0000;
    assert ((2 * v) % BASE + c) * W(i) == ((2 * v) % BASE) * W(i) + c * W(i);
  }

  /** r := 2r, the bit shifted out returned. */
  method DoubleWords(r: array<u32>, n: nat) returns (carry: u32)
    requires n <= r.Length
    modifies r
    ensures carry <= 1 && V(r[..], n) + carry * W(n) == 2 * old(V(r[..], n))
    ensures forall k :: n <= k < r.Length ==> r[k] == old(r[k])
  {
    ghost var r0 := r[..];
    carry := 0;
    var i := 0;
    while i < n
      invariant 0 <= i <= n && carry <= 1
      invariant DoubleDone(r0, r[..], carry, i)
    {
      var v := r[i];
      DoubleStep(r0, r[..], carry, i);
      r[i] := (2 * v) % BASE + carry;
      carry := v / 0x8000_0000;
      i := i + 1;
    }
  }

  lemma {:induction false} PowTwoWords(n: nat)
    ensures Pow(2, 32 * n) == W(n)
  {
    if n > 0 {
      PowTwoWords(n - 1);
      var c: nat := 32;
      PowAdd(2, c, 32 * (n - 1));
      TwoTo32(c);
      Pow2IsPow(c);
    }
  }

  lemma DoubleResidue(x: int, y: int, e: nat, m: int)
    requires m > 0 && x == Pow(2, e) % m && 0 <= y < m
    requires y == 2 * x || y == 2 * x - m
    ensures y == Pow(2, e + 1) % m
  {
    ModMod(Pow(2, e), m);
    CongMul(2, 2, x, Pow(2, e), m);
    CongMultiple(y, 2 * x, if y == 2 * x then 0 else -1, m);
    ModSmall(y, m);
  }

  /** 1 doubled 64n times, reduced each time: R^2 mod m. */
  method SquaredRadix(m: seq<u32>) returns (rr: seq<u32>)
    requires |m| >= 1 && Val(m) > 1
    ensures |rr| == |m| && Val(rr) == (W(|m|) * W(|m|)) % Val(m)
  {
    var n := |m|;
    var r := new u32[n + 1](_ => 0);
    r[0] := 1;
    VSingle(r[..], n);
    var k := 0;
    assert Pow(2, 0) == 1;
    ModSmall(1, Val(m));
    while k < 64 * n
      invariant 0 <= k <= 64 * n
      invariant V(r[..], n) == Pow(2, k) % Val(m)
    {
      ghost var x := V(r[..], n);
      VBound(m, n);
      var carry := DoubleWords(r, n);
      SubtractIfAbove(r, m, carry, n);
      DoubleResidue(x, V(r[..], n), k, Val(m));
      k := k + 1;
    }
    rr := r[..n];
    VFrame(r[..], rr, n);
    PowTwoWords(2 * n);
    PowAdd(BASE, n, n);
  }

  // ---- CIOS over all rows ---------------------------------------------------

  /** After i rows: W(i) * t = a * (b's low i words) + u * m, with t below a + m. */
  ghost predicate CiosDone(tv: int, av: int, bv: int, u: int, mv: int, w: int) {
    w * tv == av * bv + u * mv && 0 <= tv < av + mv
  }

  lemma CiosStep(tv: int, tv': int, av: int, bv: int, u: int, mv: int, w: int, y: u32, x: u32)
    requires CiosDone(tv, av, bv, u, mv, w) && av >= 0 && mv > 0 && tv' >= 0
    requires BASE * tv' == (tv + y * av) + x * mv
    ensures CiosDone(tv', av, bv + y * w, u + w * x, mv, BASE * w)
  {
    calc {
      (BASE * w) * tv';
      w * (BASE * tv');
      w * tv + w * (y * av) + w * (x * mv);
      { Assoc(w, y, av); Assoc(w, x, mv); assert (w * y) * av == av * (y * w); }
      av * bv + u * mv + av * (y * w) + (w * x) * mv;
      av * (bv + y * w) + (u + w * x) * mv;
    }
    MulGe(BASE - 1, y, av);
    MulGe(BASE - 1, x, mv);
    assert BASE * tv' < BASE * (av + mv);
  }

  lemma CiosResult(tv: int, r: int, av: int, bv: int, u: int, mv: int, w: int)
    requires CiosDone(tv, av, bv, u, mv, w) && mv > 0
    requires r == if tv >= mv then tv - mv else tv
    ensures Cong(r * w, av * bv, mv)
    ensures av <= mv ==> r < mv
  {
    if tv >= mv {
      assert r * w == w * tv - w * mv;
      assert u * mv - w * mv == (u - w) * mv;
      CongMultiple(r * w, av * bv, u - w, mv);
    } else {
      CongMultiple(r * w, av * bv, u, mv);
    }
  }

  /** Dividing by an odd modulus' radix is injective on residues: 2^32 is a unit. */
  lemma {:induction false} HalveCong(x: int, y: int, e: nat, m: int)
    requires m > 0 && Odd(m) && Cong(x * Pow(2, e), y * Pow(2, e), m)
    ensures Cong(x, y, m)
  {
    if e > 0 {
      var p := Pow(2, e - 1);
      var k := CongWitness(x * Pow(2, e), y * Pow(2, e), m);
      assert x * Pow(2, e) == 2 * (x * p) by { Assoc(x, 2, p); Assoc(2, x, p); }
      assert y * Pow(2, e) == 2 * (y * p) by { Assoc(y, 2, p); Assoc(2, y, p); }
      assert k % 2 == 0 by { EvenFactor(k, m, x * p - y * p); }
      assert x * p == y * p + (k / 2) * m by { assert (2 * (k / 2)) * m == 2 * ((k / 2) * m); }
      CongMultiple(x * p, y * p, k / 2, m);
      HalveCong(x, y, e - 1, m);
    }
  }

  lemma EvenFactor(k: int, m: int, z: int)
    requires Odd(m) && k * m == 2 * z
    ensures k % 2 == 0
  {
    var h := m / 2;
    assert m == 2 * h + 1;
    assert k * m == 2 * (k * h) + k;
  }

  lemma RadixCancels(x: int, y: int, n: nat, m: int)
    requires m > 0 && Odd(m) && Cong(x * W(n), y * W(n), m)
    ensures Cong(x, y, m)
  {
    PowTwoWords(n);
    HalveCong(x, y, 32 * n, m);
  }

  lemma OddLowWord(m: seq<u32>)
    requires |m| >= 1 && Odd(Val(m))
    ensures Odd(m[0])
  {
    VLow(m, |m|);
    var h := V(m[1..], |m| - 1);
    assert Val(m) == m[0] + 2 * (0x8000_0000 * h);
  }

  // ---- exponent bits ----------------------------------------------------------

  function Bit(e: seq<u32>, i: nat): nat
    requires i < 32 * |e|
  {
    e[i / 32] / Pow2(i % 32) % 2
  }

  /** The number the bits from i up spell. */
  ghost function BitsFrom(e: seq<u32>, i: nat): nat
    requires i <= 32 * |e|
    decreases 32 * |e| - i
  {
    if i == 32 * |e| then 0 else 2 * BitsFrom(e, i + 1) + Bit(e, i)
  }

  ghost function WordsFrom(e: seq<u32>, w: nat): nat
    requires w <= |e|
    decreases |e| - w
  {
    if w == |e| then 0 else e[w] + BASE * WordsFrom(e, w + 1)
  }

  lemma {:induction false} BitsInsideWord(e: seq<u32>, w: nat, r: nat)
    requires w < |e| && r <= 32
    ensures BitsFrom(e, 32 * w + r) == e[w] / Pow2(r) + Pow2(32 - r) * BitsFrom(e, 32 * (w + 1))
    decreases 32 - r
  {
    hide BitsFrom;
    hide Bit;
    var z := BitsFrom(e, 32 * (w + 1));
    if r == 32 {
      TwoTo32(r);
      WordGone(e[w], Pow2(r), z);
    } else {
      BitsInsideWord(e, w, r + 1);
      Pow2Next(r);
      Pow2Next(32 - (r + 1));
      BitOfWord(e, w, r, 32 * w + r);
      hide Pow2;
      NextBit(e, 32 * w + r);
      BitStep(BitsFrom(e, 32 * w + r + 1), Bit(e, 32 * w + r), e[w], Pow2(r), Pow2(32 - (r + 1)), z,
              BitsFrom(e, 32 * w + r), Pow2(32 - r));
    }
  }

  lemma Pow2Next(k: nat)
    ensures Pow2(k + 1) == 2 * Pow2(k)
  {}

  lemma BitOfWord(e: seq<u32>, w: nat, r: nat, i: nat)
    requires w < |e| && r < 32 && i == 32 * w + r
    ensures i < 32 * |e| && Bit(e, i) == e[w] / Pow2(r) % 2
  {
    hide Pow2;
    DivModUnique(i, w, r, 32);
  }

  lemma NextBit(e: seq<u32>, i: nat)
    requires i < 32 * |e|
    ensures BitsFrom(e, i) == 2 * BitsFrom(e, i + 1) + Bit(e, i)
  {
    hide Bit;
  }

  lemma WordGone(x: u32, p: nat, z: nat)
    requires p == BASE
    ensures z == x / p + 1 * z
  {}

  lemma BitStep(b: nat, bit: nat, x: nat, p: nat, q: nat, z: nat, all: nat, qq: nat)
    requires p > 0 && bit == x / p % 2 && b == x / (2 * p) + q * z && all == 2 * b + bit && qq == 2 * q
    ensures all == x / p + qq * z
  {
    HalveQuotient(x, p);
    Assoc(2, q, z);
  }

  lemma HalveQuotient(x: nat, p: nat)
    requires p > 0
    ensures x / p / 2 == x / (2 * p)
  {
    var q, r := x / p, x % p;
    var h, b := q / 2, q % 2;
    assert x == q * p + r && q == 2 * h + b;
    assert q * p == h * (2 * p) + b * p;
    assert 0 <= b * p <= p;
    DivModUnique(x, h, b * p + r, 2 * p);
  }

  lemma {:induction false} BitsAreWords(e: seq<u32>, w: nat)
    requires w <= |e|
    ensures BitsFrom(e, 32 * w) == WordsFrom(e, w)
    decreases |e| - w
  {
    if w < |e| {
      BitsAreWords(e, w + 1);
      var z, c: nat := 0, 32;
      BitsInsideWord(e, w, z);
      TwoTo32(c);
      assert Pow2(z) == 1 && Pow2(c - z) == BASE;
      assert e[w] / 1 == e[w];
      hide Pow2;
      hide BitsFrom;
    }
  }

  lemma {:induction false} WordsAreValue(e: seq<u32>, w: nat)
    requires w <= |e|
    ensures V(e, w) + W(w) * WordsFrom(e, w) == Val(e)
    decreases |e| - w
  {
    if w < |e| {
      WordsAreValue(e, w + 1);
      WStep(w);
      var z := WordsFrom(e, w + 1);
      assert W(w) * (e[w] + BASE * z) == e[w] * W(w) + (BASE * W(w)) * z by { Assoc(W(w), BASE, z); }
    }
  }

  lemma BitsSpellValue(e: seq<u32>)
    ensures BitsFrom(e, 0) == Val(e)
  {
    BitsAreWords(e, 0);
    WordsAreValue(e, 0);
    assert W(0) == 1;
  }

  /** Coarsely integrated operand scanning: r = a * b / R mod m. r may be a or b. */
  method Cios(r: array<u32>, a: seq<u32>, b: seq<u32>, m: seq<u32>, m0inv: u32, n: nat)
    requires n >= 1 && |a| == n && |b| == n && |m| == n && r.Length == n
    requires V(m, n) > 0 && (m0inv * m[0] + 1) % BASE == 0
    modifies r
    ensures Cong(V(r[..], n) * W(n), V(a, n) * V(b, n), V(m, n))
    ensures V(a, n) <= V(m, n) ==> V(r[..], n) < V(m, n)
  {
    var t := new u32[n + 2](_ => 0);
    ghost var u := 0;
    VBound(a, n);
    VZeros(t[..], n + 1);
    assert W(0) == 1;
    var i := 0;
    while i < n
      invariant 0 <= i <= n
      invariant CiosDone(V(t[..], n + 1), V(a, n), V(b, i), u, V(m, n), W(i))
    {
      ghost var tv := V(t[..], n + 1);
      MulAddRow(t, a, b[i], n);
      ghost var x := ReduceRow(t, m, m0inv, n);
      VBound(t[..], n + 1);
      WStep(i);
      CiosStep(tv, V(t[..], n + 1), V(a, n), V(b, i), u, V(m, n), W(i), b[i], x);
      u := u + W(i) * x;
      i := i + 1;
    }
    ghost var tv := V(t[..], n + 1);
    var top := t[n];
    SubtractIfAbove(t, m, top, n);
    CiosResult(tv, V(t[..], n), V(a, n), V(b, n), u, V(m, n), W(n));
    CopyWords(r, t, n);
  }

  // ---- mont_t -------------------------------------------------------------------

  /** mont_t: a modulus with what multiplication by it needs. */
  class Mont {
    var nw: nat
    var m: seq<u32>
    var m0inv: u32
    var rr: seq<u32>

    ghost predicate Valid()
      reads this
    {
      && nw >= 1 && |m| == nw && |rr| == nw
      && Odd(Val(m)) && Val(m) > 1
      && (m0inv * m[0] + 1) % BASE == 0
      && Val(rr) == (W(nw) * W(nw)) % Val(m)
    }

    /** mont_setup. */
    constructor (modulus: seq<u32>)
      requires |modulus| >= 1 && Odd(Val(modulus)) && Val(modulus) > 1
      ensures Valid() && m == modulus && nw == |modulus|
    {
      OddLowWord(modulus);
      var inv := NegInverse(modulus[0]);
      var squared := SquaredRadix(modulus);
      nw, m, m0inv, rr := |modulus|, modulus, inv, squared;
    }

    /** mont_mul: r = a * b / R mod m. r may be a or b. */
    method MontMul(r: array<u32>, a: seq<u32>, b: seq<u32>)
      requires Valid() && |a| == nw && |b| == nw && r.Length == nw
      modifies r
      ensures Cong(V(r[..], nw) * W(nw), V(a, nw) * V(b, nw), V(m, nw))
      ensures V(a, nw) <= V(m, nw) ==> V(r[..], nw) < V(m, nw)
    {
      Cios(r, a, b, m, m0inv, nw);
    }

    /** b and 1 in Montgomery form; b is first brought below m. */
    method EnterDomain(b: seq<u32>) returns (x: array<u32>, acc: array<u32>)
      requires Valid() && |b| == nw && V(b, nw) < 2 * V(m, nw)
      ensures fresh(x) && fresh(acc) && x != acc && x.Length == nw && acc.Length == nw
      ensures Cong(V(x[..], nw), V(b, nw) * W(nw), V(m, nw))
      ensures Cong(V(acc[..], nw), 1 * W(nw), V(m, nw)) && V(acc[..], nw) < V(m, nw)
    {
      var n := nw;
      var one := new u32[n](k => if k == 0 then 1 else 0);
      VSingle(one[..], n);
      var bb := new u32[n](k requires 0 <= k < n => b[k]);
      VFrame(bb[..], b, n);
      VBound(m, n);
      SubtractIfAbove(bb, m, 0, n);
      x := new u32[n];
      acc := new u32[n];
      MontMul(x, bb[..], rr);
      ReducedBase(V(x[..], n), V(bb[..], n), V(b, n), n, V(m, n));
      MontMul(acc, one[..], rr);
      IntoMontgomery(V(acc[..], n), 1, n, V(m, n));
    }

    /** Square for every exponent bit from the top one down, multiply where it is set. */
    method SquareAndMultiply(acc: array<u32>, x: array<u32>, e: seq<u32>, ghost bv: int)
      requires Valid() && acc != x && acc.Length == nw && x.Length == nw
      requires Cong(V(x[..], nw), bv * W(nw), V(m, nw))
      requires Cong(V(acc[..], nw), 1 * W(nw), V(m, nw)) && V(acc[..], nw) < V(m, nw)
      modifies acc
      ensures Cong(V(acc[..], nw), Pow(bv, Val(e)) * W(nw), V(m, nw)) && V(acc[..], nw) < V(m, nw)
    {
      var i := 32 * |e|;
      while i > 0 && Bit(e, i - 1) == 0
        invariant 0 <= i <= 32 * |e|
        invariant BitsFrom(e, i) == 0
      {
        i := i - 1;
      }
      ghost var mv := V(m, nw);
      assert Pow(bv, 0) == 1;
      while i > 0
        invariant 0 <= i <= 32 * |e|
        invariant Cong(V(acc[..], nw), Pow(bv, BitsFrom(e, i)) * W(nw), mv)
        invariant V(acc[..], nw) < mv
      {
        i := i - 1;
        ghost var av, z := V(acc[..], nw), BitsFrom(e, i + 1);
        MontMul(acc, acc[..], acc[..]);
        SquareStep(V(acc[..], nw), av, bv, z, nw, mv);
        if Bit(e, i) == 1 {
          ghost var sq := V(acc[..], nw);
          MontMul(acc, acc[..], x[..]);
          MultiplyStep(V(acc[..], nw), sq, V(x[..], nw), bv, 2 * z, nw, mv);
        }
      }
      BitsSpellValue(e);
    }

    /** mod_exp: r = b^e mod m, for b < 2m. */
    method ModExp(r: array<u32>, b: seq<u32>, e: seq<u32>)
      requires Valid() && |b| == nw && r.Length == nw
      requires V(b, nw) < 2 * V(m, nw)
      modifies r
      ensures V(r[..], nw) == Pow(V(b, nw), Val(e)) % V(m, nw)
    {
      var x, acc := EnterDomain(b);
      SquareAndMultiply(acc, x, e, V(b, nw));
      var one := new u32[nw](k => if k == 0 then 1 else 0);
      VSingle(one[..], nw);
      ghost var av := V(acc[..], nw);
      MontMul(r, acc[..], one[..]);
      VBound(r[..], nw);
      OutOfMontgomery(V(r[..], nw), av, Pow(V(b, nw), Val(e)), nw, V(m, nw));
    }
  }

  /** memcpy of n words. */
  method CopyWords(r: array<u32>, t: array<u32>, n: nat)
    requires n == r.Length && n <= t.Length && r != t
    modifies r
    ensures V(r[..], n) == V(t[..], n)
  {
    forall k | 0 <= k < n { r[k] := t[k]; }
    VFrame(r[..], t[..], n);
  }

  // ---- Montgomery-domain steps ---------------------------------------------------

  lemma IntoMontgomery(x: int, b: int, n: nat, m: int)
    requires m > 0 && Odd(m) && Cong(x * W(n), b * ((W(n) * W(n)) % m), m)
    ensures Cong(x, b * W(n), m)
  {
    var w := W(n);
    ModMod(w * w, m);
    CongMul(b, b, (w * w) % m, w * w, m);
    Assoc(b, w, w);
    RadixCancels(x, b * w, n, m);
  }

  lemma ReducedBase(x: int, base: int, b: int, n: nat, m: int)
    requires m > 0 && Odd(m) && (base == b || base == b - m)
    requires Cong(x * W(n), base * ((W(n) * W(n)) % m), m)
    ensures Cong(x, b * W(n), m)
  {
    IntoMontgomery(x, base, n, m);
    CongMultiple(base, b, if base == b then 0 else -1, m);
    CongMul(base, b, W(n), W(n), m);
  }

  lemma SquareStep(r: int, a: int, b: int, z: nat, n: nat, m: int)
    requires m > 0 && Odd(m)
    requires Cong(a, Pow(b, z) * W(n), m) && Cong(r * W(n), a * a, m)
    ensures Cong(r, Pow(b, 2 * z) * W(n), m)
  {
    PowAdd(b, z, z);
    ProductStep(r, a, a, Pow(b, z), Pow(b, z), n, m);
  }

  lemma MultiplyStep(r: int, a: int, x: int, b: int, z: nat, n: nat, m: int)
    requires m > 0 && Odd(m)
    requires Cong(a, Pow(b, z) * W(n), m) && Cong(x, b * W(n), m) && Cong(r * W(n), a * x, m)
    ensures Cong(r, Pow(b, z + 1) * W(n), m)
  {
    ProductStep(r, a, x, Pow(b, z), b, n, m);
    assert Pow(b, z) * b == b * Pow(b, z) == Pow(b, z + 1);
  }

  /** The Montgomery product of u*R and v*R is u*v*R. */
  lemma ProductStep(r: int, a: int, c: int, u: int, v: int, n: nat, m: int)
    requires m > 0 && Odd(m)
    requires Cong(a, u * W(n), m) && Cong(c, v * W(n), m) && Cong(r * W(n), a * c, m)
    ensures Cong(r, (u * v) * W(n), m)
  {
    var w := W(n);
    CongMul(a, u * w, c, v * w, m);
    assert (u * w) * (v * w) == ((u * v) * w) * w by {
      Assoc(u * w, v, w);
      assert (u * w) * v == (u * v) * w;
    }
    RadixCancels(r, (u * v) * w, n, m);
  }

  lemma OutOfMontgomery(r: int, a: int, u: int, n: nat, m: int)
    requires m > 0 && Odd(m) && 0 <= r < m
    requires Cong(a, u * W(n), m) && Cong(r * W(n), a * 1, m)
    ensures r == u % m
  {
    RadixCancels(r, u, n, m);
    ModSmall(r, m);
  }
}

/** NIST P-256 (crypto/p256.c): field elements of eight words in the Montgomery domain, Jacobian
    points, and what scalar multiplication keeps: every point reached lies on the curve. */
module P256 {
  import opened Arith
  import opened Machine
  import opened Words
  import opened Montgomery
  import opened RsaBytes
  import opened P256Curve
  import NumberTheory

  const N: nat := 8
  const PW: seq<u32> := [0xFFFFFFFF, 0xFFFFFFFF, 0xFFFFFFFF, 0x00000000, 0x00000000, 0x00000000, 0x00000001, 0xFFFFFFFF]
  const R2: seq<u32> := [0x00000003, 0x00000000, 0xFFFFFFFF, 0xFFFFFFFB, 0xFFFFFFFE, 0xFFFFFFFF, 0xFFFFFFFD, 0x00000004]
  const ONE: seq<u32> := [1, 0, 0, 0, 0, 0, 0, 0]
  const N0: u32 := 1

  /** 2^256 - 2^224 + 2^192 + 2^96 - 1. */
  const PRIME: int := 0xFFFFFFFF00000001000000000000000000000000FFFFFFFFFFFFFFFFFFFFFFFF
  const TWO256: int := 0x1_0000000000000000000000000000000000000000000000000000000000000000

  /** The modulus, as the number its words spell. */
  ghost function P(): int {
    V(PW, |PW|)
  }

  /** R = 2^256. */
  ghost function R(): int {
    W(|PW|)
  }

  lemma EightLong()
    ensures P() == V(PW, N) && R() == W(N)
  {}

  lemma EightWords(s: seq<int>, b: int)
    requires |s| == 8 && b == BASE
    ensures Radix.Value(b, s, 8) == s[0] + s[1] * 0x1_00000000 + s[2] * 0x1_00000000_00000000
                      + s[3] * 0x1_00000000_00000000_00000000 + s[4] * 0x1_00000000_00000000_00000000_00000000
                      + s[5] * 0x1_00000000_00000000_00000000_00000000_00000000
                      + s[6] * 0x1_00000000_00000000_00000000_00000000_00000000_00000000
                      + s[7] * 0x1_00000000_00000000_00000000_00000000_00000000_00000000_00000000
    ensures Pow(b, 8) == TWO256
  {
    assert Pow(b, 0) == 1;
    assert Pow(b, 1) == b * Pow(b, 0);
    assert Pow(b, 2) == b * Pow(b, 1);
    assert Pow(b, 3) == b * Pow(b, 2);
    assert Pow(b, 4) == b * Pow(b, 3);
    assert Pow(b, 5) == b * Pow(b, 4);
    assert Pow(b, 6) == b * Pow(b, 5);
    assert Pow(b, 7) == b * Pow(b, 6);
    assert Pow(b, 8) == b * Pow(b, 7);
    assert Radix.Value(b, s, 0) == 0;
    assert Radix.Value(b, s, 1) == Radix.Value(b, s, 0) + s[0] * Pow(b, 0);
    assert Radix.Value(b, s, 2) == Radix.Value(b, s, 1) + s[1] * Pow(b, 1);
    assert Radix.Value(b, s, 3) == Radix.Value(b, s, 2) + s[2] * Pow(b, 2);
    assert Radix.Value(b, s, 4) == Radix.Value(b, s, 3) + s[3] * Pow(b, 3);
    assert Radix.Value(b, s, 5) == Radix.Value(b, s, 4) + s[4] * Pow(b, 4);
    assert Radix.Value(b, s, 6) == Radix.Value(b, s, 5) + s[5] * Pow(b, 5);
    assert Radix.Value(b, s, 7) == Radix.Value(b, s, 6) + s[6] * Pow(b, 6);
  }

  lemma PrimeValue()
    ensures P() == PRIME && W(N) == TWO256 && R() == W(N) && P() == V(PW, N)
  {
    EightLong();
    EightWords(PW, BASE);
  }

  lemma PrimeFacts()
    ensures P() > 3 && Odd(P()) && P() < W(N) && (N0 * PW[0] + 1) % BASE == 0
    ensures P() == V(PW, N) && R() == W(N)
  {
    PrimeValue();
  }

  /** R2 is R^2 mod p. */
  lemma SquaredRadixValue()
    ensures P() > 0 && V(R2, N) == (R() * R()) % P()
  {
    PrimeValue();
    EightWords(R2, BASE);
    DivModUnique(TWO256 * TWO256, TWO256 * TWO256 / PRIME,
        0x4FFFFFFFDFFFFFFFFFFFFFFFEFFFFFFFBFFFFFFFF0000000000000003, PRIME);
  }

  // ---- field elements -----------------------------------------------------------------------------

  /** a holds x in the Montgomery domain, reduced. */
  ghost predicate Rep(a: seq<u32>, x: int) {
    |a| == N && P() > 0 && V(a, N) < P() && Cong(V(a, N), x * R(), P())
  }

  ghost predicate AddDone(a: seq<int>, b: seq<int>, r: seq<int>, c: int, i: nat)
    requires i <= |a| && i <= |b| && i <= |r|
  {
    V(r, i) + c * W(i) == V(a, i) + V(b, i)
  }

  lemma AddStep(a: seq<int>, b: seq<int>, r: seq<int>, c: int, i: nat, s: int)
    requires i < |a| && i < |b| && i < |r| && AddDone(a, b, r, c, i) && s == a[i] + b[i] + c
    ensures AddDone(a, b, r[i := s % BASE], s / BASE, i + 1)
  {
    VFrame(r, r[i := s % BASE], i);
    WStep(i);
    SplitWord(s, W(i));
    assert s * W(i) == a[i] * W(i) + b[i] * W(i) + c * W(i);
  }

  /** r = a + b over eight words, the carry returned; r may be a or b. */
  method AddWords(r: array<u32>, a: array<u32>, b: array<u32>) returns (c: u32)
    requires r.Length == N && a.Length == N && b.Length == N
    modifies r
    ensures c <= 1 && V(r[..], N) + c * R() == old(V(a[..], N) + V(b[..], N))
  {
    hide V;
    hide W;
    hide P;
    hide R;
    ghost var a0, b0 := a[..], b[..];
    c := 0;
    EightLong();
    NoWords(a0, b0, r[..]);
    var i := 0;
    while i < N
      invariant 0 <= i <= N && c <= 1
      invariant forall k :: i <= k < N ==> a[k] == a0[k] && b[k] == b0[k]
      invariant AddDone(a0, b0, r[..], c, i)
    {
      var s: u64 := a[i] + b[i] + c;
      AddStep(a0, b0, r[..], c, i, s);
      ghost var before: seq<int> := r[..];
      r[i] := s % BASE;
      assert r[..] == before[i := s % BASE];
      c := s / BASE;
      i := i + 1;
    }
  }

  lemma NoWords(a: seq<int>, b: seq<int>, r: seq<int>)
    ensures AddDone(a, b, r, 0, 0)
  {}

  /** fe_add; r may be a or b. */
  method FeAdd(r: array<u32>, a: array<u32>, b: array<u32>)
    requires r.Length == N && a.Length == N && b.Length == N && V(a[..], N) < P() && V(b[..], N) < P()
    modifies r
    ensures V(r[..], N) < P()
    ensures V(r[..], N) == old(V(a[..], N) + V(b[..], N)) || V(r[..], N) == old(V(a[..], N) + V(b[..], N)) - P()
  {
    hide V;
    hide W;
    hide P;
    hide R;
    PrimeFacts();
    var c := AddWords(r, a, b);
    SubtractIfAbove(r, PW, c, N);
  }

  ghost predicate SubDone(a: seq<int>, b: seq<int>, r: seq<int>, c: int, i: nat)
    requires i <= |a| && i <= |b| && i <= |r|
  {
    V(r, i) == V(a, i) - V(b, i) + c * W(i)
  }

  lemma SubStep(a: seq<u32>, b: seq<u32>, r: seq<int>, c: int, i: nat, t: int, c': int)
    requires i < |a| && i < |b| && i < |r| && 0 <= c <= 1 && SubDone(a, b, r, c, i)
    requires t == (a[i] - b[i] - c) % BASE2 && c' == t / 0x8000_0000_0000_0000 % 2
    ensures 0 <= c' <= 1 && SubDone(a, b, r[i := t % BASE], c', i + 1)
  {
    VFrame(r, r[i := t % BASE], i);
    WStep(i);
    BorrowStep(a[i], b[i], c);
    SubAlgebra(V(a, i), V(b, i), c, a[i], b[i], c', W(i));
  }

  /** r = a - b over eight words, the borrow returned; r may be a or b. */
  method SubWords(r: array<u32>, a: array<u32>, b: array<u32>) returns (c: u32)
    requires r.Length == N && a.Length == N && b.Length == N
    modifies r
    ensures c <= 1 && V(r[..], N) == old(V(a[..], N) - V(b[..], N)) + c * R()
  {
    hide V;
    hide W;
    hide P;
    hide R;
    ghost var a0: seq<u32>, b0: seq<u32> := a[..], b[..];
    c := 0;
    EightLong();
    NoBorrow(a0, b0, r[..]);
    var i := 0;
    while i < N
      invariant 0 <= i <= N && c <= 1
      invariant forall k :: i <= k < N ==> a[k] == a0[k] && b[k] == b0[k]
      invariant SubDone(a0, b0, r[..], c, i)
    {
      var t: u64 := (a[i] - b[i] - c) % BASE2;
      var c': u32 := t / 0x8000_0000_0000_0000 % 2;
      SubStep(a0, b0, r[..], c, i, t, c');
      ghost var before: seq<int> := r[..];
      r[i] := t % BASE;
      assert r[..] == before[i := t % BASE];
      c := c';
      i := i + 1;
    }
  }

  lemma NoBorrow(a: seq<int>, b: seq<int>, r: seq<int>)
    ensures SubDone(a, b, r, 0, 0)
  {}

  /** fe_sub; r may be a or b. */
  method FeSub(r: array<u32>, a: array<u32>, b: array<u32>)
    requires r.Length == N && a.Length == N && b.Length == N && V(a[..], N) < P() && V(b[..], N) < P()
    modifies r
    ensures V(r[..], N) < P()
    ensures V(r[..], N) == old(V(a[..], N) - V(b[..], N)) || V(r[..], N) == old(V(a[..], N) - V(b[..], N)) + P()
  {
    hide V;
    hide W;
    hide P;
    hide R;
    PrimeFacts();
    VBound(a[..], N);
    VBound(b[..], N);
    ghost var d := V(a[..], N) - V(b[..], N);
    var borrow := SubWords(r, a, b);
    VBound(r[..], N);
    if borrow != 0 {
      var p := new u32[N](k requires 0 <= k < N => PW[k]);
      VFrame(p[..], PW, N);
      var c := AddWords(r, r, p);
      VBound(r[..], N);
      BorrowCancels(d + P(), V(r[..], N), 1 - c, W(N));
    }
  }

  /** fe_mul: the word-by-word Montgomery product with eight words; r may be a or b. */
  method FeMul(r: array<u32>, a: array<u32>, b: array<u32>)
    requires r.Length == N && a.Length == N && b.Length == N && V(a[..], N) < P()
    modifies r
    ensures V(r[..], N) < P() && P() > 0
    ensures Cong(V(r[..], N) * R(), old(V(a[..], N) * V(b[..], N)), P())
  {
    hide V;
    hide W;
    hide P;
    hide R;
    PrimeFacts();
    Cios(r, a[..], b[..], PW, N0, N);
  }

  // ---- the same on values -----------------------------------------------------------------------------

  method Fresh(a: seq<u32>) returns (r: array<u32>)
    requires |a| == N
    ensures fresh(r) && r.Length == N && r[..] == a
  {
    r := new u32[N](k requires 0 <= k < N => a[k]);
  }

  method Mul(a: seq<u32>, b: seq<u32>, ghost x: int, ghost y: int) returns (r: seq<u32>)
    requires Rep(a, x) && Rep(b, y)
    ensures Rep(r, x * y)
  {
    hide V;
    hide W;
    hide P;
    hide R;
    hide Cong;
    PrimeFacts();
    var u := Fresh(a);
    var v := Fresh(b);
    FeMul(u, u, v);
    r := u[..];
    ProductStep(V(r, N), V(a, N), V(b, N), x, y, N, P());
  }

  lemma SumStep(r: int, a: int, b: int, x: int, y: int, z: int, w: int, m: int, k: int)
    requires m > 0 && Cong(a, x * w, m) && Cong(b, y * w, m)
    requires (z == x + y && r == a + b + k * m) || (z == x - y && r == a - b + k * m)
    ensures Cong(r, z * w, m)
  {
    if z == x + y && r == a + b + k * m {
      CongAdd(a, x * w, b, y * w, m);
      CongMultiple(r, a + b, k, m);
      assert z * w == x * w + y * w;
    } else {
      CongSub(a, x * w, b, y * w, m);
      CongMultiple(r, a - b, k, m);
      assert z * w == x * w - y * w;
    }
  }

  method Add(a: seq<u32>, b: seq<u32>, ghost x: int, ghost y: int) returns (r: seq<u32>)
    requires Rep(a, x) && Rep(b, y)
    ensures Rep(r, x + y)
  {
    hide V;
    hide W;
    hide P;
    hide R;
    hide Cong;
    PrimeFacts();
    var u := Fresh(a);
    var v := Fresh(b);
    FeAdd(u, u, v);
    r := u[..];
    SumStep(V(r, N), V(a, N), V(b, N), x, y, x + y, W(N), P(), if V(r, N) == V(a, N) + V(b, N) then 0 else -1);
  }

  method Sub(a: seq<u32>, b: seq<u32>, ghost x: int, ghost y: int) returns (r: seq<u32>)
    requires Rep(a, x) && Rep(b, y)
    ensures Rep(r, x - y)
  {
    hide V;
    hide W;
    hide P;
    hide R;
    hide Cong;
    PrimeFacts();
    var u := Fresh(a);
    var v := Fresh(b);
    FeSub(u, u, v);
    r := u[..];
    SumStep(V(r, N), V(a, N), V(b, N), x, y, x - y, W(N), P(), if V(r, N) == V(a, N) - V(b, N) then 0 else 1);
  }

  /** fe_to_mont. */
  method ToMont(a: seq<u32>) returns (r: seq<u32>)
    requires |a| == N && V(a, N) < P()
    ensures Rep(r, V(a, N))
  {
    hide V;
    hide W;
    hide P;
    hide R;
    hide Cong;
    PrimeFacts();
    SquaredRadixValue();
    var u := Fresh(a);
    var v := Fresh(R2);
    FeMul(u, u, v);
    r := u[..];
    IntoMontgomery(V(r, N), V(a, N), N, P());
  }

  /** fe_from_mont. */
  method FromMont(a: seq<u32>, ghost x: int) returns (r: seq<u32>)
    requires Rep(a, x)
    ensures |r| == N && P() > 0 && V(r, N) == x % P()
  {
    hide V;
    hide W;
    hide P;
    hide R;
    hide Cong;
    PrimeFacts();
    var u := Fresh(a);
    var v := Fresh(ONE);
    VSingle(ONE, N);
    FeMul(u, u, v);
    r := u[..];
    VBound(r, N);
    OutOfMontgomery(V(r, N), V(a, N), x, N, P());
  }

  /** fe_is_zero. */
  method IsZero(a: seq<u32>) returns (z: bool)
    requires |a| == N
    ensures z <==> V(a, N) == 0
  {
    z := true;
    var i := 0;
    while i < N
      invariant 0 <= i <= N
      invariant z <==> forall k :: 0 <= k < i ==> a[k] == 0
    {
      z := z && a[i] == 0;
      i := i + 1;
    }
    if z {
      VZeros(a, N);
    } else {
      var zeros: seq<u32> := seq(N, k => 0);
      VZeros(zeros, N);
      if V(a, N) == 0 { VInjective(a, zeros, N); }
    }
  }

  /** fe_eq: two reduced elements are the same exactly when they stand for the same residue. */
  method Same(a: seq<u32>, b: seq<u32>, ghost x: int, ghost y: int) returns (e: bool)
    requires Rep(a, x) && Rep(b, y)
    ensures P() > 0 && (e <==> Cong(x, y, P()))
  {
    e := true;
    var i := 0;
    while i < N
      invariant 0 <= i <= N
      invariant e <==> forall k :: 0 <= k < i ==> a[k] == b[k]
    {
      e := e && a[i] == b[i];
      i := i + 1;
    }
    SameValue(a, b, x, y, e);
  }

  lemma SameValue(a: seq<u32>, b: seq<u32>, x: int, y: int, e: bool)
    requires Rep(a, x) && Rep(b, y) && (e <==> forall k :: 0 <= k < N ==> a[k] == b[k])
    ensures P() > 0 && (e <==> Cong(x, y, P()))
  {
    hide V;
    hide W;
    hide P;
    hide R;
    PrimeFacts();
    VBound(a, N);
    VBound(b, N);
    ModSmall(V(a, N), P());
    ModSmall(V(b, N), P());
    if e {
      VFrame(a, b, N);
      RadixCancels(x, y, N, P());
    } else if Cong(x, y, P()) {
      CongMul(x, y, W(N), W(N), P());
      VInjective(a, b, N);
    }
  }

  // ---- Jacobian points ----------------------------------------------------------------------------------

  const THREE: seq<u32> := [3, 0, 0, 0, 0, 0, 0, 0]

  /** 3 in the Montgomery domain. */
  method MontThree() returns (three: seq<u32>)
    ensures Rep(three, 3)
  {
    PrimeFacts();
    VSingle(THREE, N);
    three := ToMont(THREE);
  }

  /** The tangent part: alpha = 3 (x - z^2)(x + z^2), beta = x y^2, gamma = y^2, delta = z^2. */
  method Tangent(X: seq<u32>, Y: seq<u32>, Z: seq<u32>, ghost x: int, ghost y: int, ghost z: int)
    returns (alpha: seq<u32>, beta: seq<u32>, gamma: seq<u32>, delta: seq<u32>)
    requires Rep(X, x) && Rep(Y, y) && Rep(Z, z)
    ensures Rep(gamma, y * y) && Rep(delta, z * z) && Rep(beta, x * (y * y))
    ensures Rep(alpha, 3 * ((x - z * z) * (x + z * z)))
  {
    hide Rep;
    var three := MontThree();
    delta := Mul(Z, Z, z, z);
    gamma := Mul(Y, Y, y, y);
    beta := Mul(X, gamma, x, y * y);
    var t1 := Sub(X, delta, x, z * z);
    var t2 := Add(X, delta, x, z * z);
    t1 := Mul(t1, t2, x - z * z, x + z * z);
    alpha := Mul(t1, three, (x - z * z) * (x + z * z), 3);
    Commuted((x - z * z) * (x + z * z), 3);
  }

  lemma Commuted(a: int, b: int)
    ensures a * b == b * a
  {}

  /** Doubled three times over: 8a. */
  method Eightfold(a: seq<u32>, ghost x: int) returns (four: seq<u32>, eight: seq<u32>)
    requires Rep(a, x)
    ensures Rep(four, 4 * x) && Rep(eight, 8 * x)
  {
    hide Rep;
    var t := Add(a, a, x, x);
    four := Add(t, t, x + x, x + x);
    assert (x + x) + (x + x) == 4 * x;
    eight := Add(four, four, 4 * x, 4 * x);
    assert 4 * x + 4 * x == 8 * x;
  }

  /** The chord formulas of jac_add, from u1, u2, s1, s2 and the squares of z1 and z2. */
  method ChordFormulas(U1: seq<u32>, U2: seq<u32>, S1: seq<u32>, S2: seq<u32>, ghost u1: int, ghost u2: int,
      ghost s1: int, ghost s2: int)
    returns (H: seq<u32>, X3: seq<u32>, Y3: seq<u32>, ghost x3: int, ghost y3: int)
    requires Rep(U1, u1) && Rep(U2, u2) && Rep(S1, s1) && Rep(S2, s2)
    ensures Rep(H, u2 - u1) && Rep(X3, x3) && Rep(Y3, y3)
    ensures var h, r := u2 - u1, 2 * (s2 - s1); var i2 := (2 * h) * (2 * h); var j, v := h * i2, u1 * i2;
            x3 == r * r - j - v - v && y3 == r * (v - x3) - 2 * (s1 * j)
  {
    hide Rep;
    ghost var h, r := u2 - u1, 2 * (s2 - s1);
    ghost var i2 := (2 * h) * (2 * h);
    ghost var j, v := h * i2, u1 * i2;
    H := Sub(U2, U1, u2, u1);
    var I2 := Add(H, H, h, h);
    assert h + h == 2 * h;
    I2 := Mul(I2, I2, 2 * h, 2 * h);
    var J := Mul(H, I2, h, i2);
    var RR := Sub(S2, S1, s2, s1);
    RR := Add(RR, RR, s2 - s1, s2 - s1);
    assert (s2 - s1) + (s2 - s1) == r;
    var VV := Mul(U1, I2, u1, i2);
    X3 := Mul(RR, RR, r, r);
    X3 := Sub(X3, J, r * r, j);
    X3 := Sub(X3, VV, r * r - j, v);
    X3 := Sub(X3, VV, r * r - j - v, v);
    x3 := r * r - j - v - v;
    var t := Sub(VV, X3, v, x3);
    Y3 := Mul(RR, t, r, v - x3);
    t := Mul(S1, J, s1, j);
    t := Add(t, t, s1 * j, s1 * j);
    assert s1 * j + s1 * j == 2 * (s1 * j);
    y3 := r * (v - x3) - 2 * (s1 * j);
    Y3 := Sub(Y3, t, r * (v - x3), 2 * (s1 * j));
  }

  // ---- points as values --------------------------------------------------------------------------------

  datatype Point = Infinity | Point(x: int, y: int, z: int)

  ghost function Normal(x: int, y: int, z: int, p: int): Point
    requires p > 0
  {
    if z % p == 0 then Infinity else Point(x, y, z)
  }

  /** 2q by the tangent. */
  ghost function DoublePoint(q: Point, p: int): Point
    requires p > 0
  {
    if q.Infinity? then Infinity
    else
      var gamma, delta := q.y * q.y, q.z * q.z;
      var beta, alpha := q.x * gamma, 3 * ((q.x - delta) * (q.x + delta));
      var x3 := alpha * alpha - 8 * beta;
      Normal(x3, alpha * (4 * beta - x3) - 8 * (gamma * gamma), (q.y + q.z) * (q.y + q.z) - gamma - delta, p)
  }

  /** q + o by the chord, with its special cases. */
  ghost function AddPoints(q: Point, o: Point, p: int): Point
    requires p > 0
  {
    if q.Infinity? then o
    else if o.Infinity? then q
    else
      var u1, u2 := q.x * (o.z * o.z), o.x * (q.z * q.z);
      var s1, s2 := (q.y * o.z) * (o.z * o.z), (o.y * q.z) * (q.z * q.z);
      if Cong(u1, u2, p) then (if Cong(s1, s2, p) then DoublePoint(q, p) else Infinity)
      else
        var h, r := u2 - u1, 2 * (s2 - s1);
        var i2 := (2 * h) * (2 * h);
        var j, v := h * i2, u1 * i2;
        var x3 := r * r - j - v - v;
        Normal(x3, r * (v - x3) - 2 * (s1 * j), ((q.z + o.z) * (q.z + o.z) - q.z * q.z - o.z * o.z) * h, p)
  }

  /** Bit i of a big-endian scalar, from the top. */
  predicate ScalarBit(k: seq<u8>, i: nat)
    requires i < 8 * |k|
  {
    k[i / 8] / Pow2(7 - i % 8) % 2 == 1
  }

  /** The multiple of q by the first i bits of k. */
  ghost function Multiple(k: seq<u8>, i: nat, q: Point, p: int): Point
    requires p > 0 && i <= 8 * |k|
  {
    if i == 0 then Infinity
    else
      var d := DoublePoint(Multiple(k, i - 1, q, p), p);
      if ScalarBit(k, i - 1) then AddPoints(d, q, p) else d
  }

  /** The multiple of q by a number: none is infinity, 2n doubles the n-th, 2n + 1 doubles it and adds q. */
  ghost function Times(n: nat, q: Point, p: int): Point
    requires p > 0
  {
    if n == 0 then Infinity
    else
      var d := DoublePoint(Times(n / 2, q, p), p);
      if n % 2 == 0 then d else AddPoints(d, q, p)
  }

  /** One bit more is twice the number, and the bit. */
  lemma TimesNext(n: nat, bit: nat, q: Point, p: int)
    requires p > 0 && bit < 2
    ensures Times(2 * n + bit, q, p)
         == (var d := DoublePoint(Times(n, q, p), p); if bit == 0 then d else AddPoints(d, q, p))
  {
    hide AddPoints;
    DivModUnique(2 * n + bit, n, bit, 2);
    if n == 0 && bit == 0 { assert DoublePoint(Infinity, p) == Infinity; }
  }

  /** What whole bytes spelling x and the first j bits of the next byte b spell. */
  function Prefix(x: nat, b: u8, j: nat): nat
    requires j <= 8
  {
    MulGe(x, 0, Pow2(j));
    x * Pow2(j) + b / Pow2(8 - j)
  }

  lemma {:induction false} WithinByte(k: seq<u8>, m: nat, j: nat, x: nat, q: Point, p: int)
    requires p > 0 && m < |k| && j <= 8 && Multiple(k, 8 * m, q, p) == Times(x, q, p)
    ensures Multiple(k, 8 * m + j, q, p) == Times(Prefix(x, k[m], j), q, p)
  {
    hide Times;
    hide Multiple;
    if j == 0 {
      WholeByteGone(k[m], 8);
    } else {
      WithinByte(k, m, j - 1, x, q, p);
      DivModUnique(8 * m + (j - 1), m, j - 1, 8);
      PrefixNext(x, k[m], j);
      hide Prefix;
      OneBitMore(k, 8 * m + (j - 1), Prefix(x, k[m], j - 1), k[m] / Pow2(8 - j) % 2, q, p);
    }
  }

  lemma PrefixNext(x: nat, b: u8, j: nat)
    requires 0 < j <= 8
    ensures Prefix(x, b, j) == 2 * Prefix(x, b, j - 1) + b / Pow2(8 - j) % 2
  {
    var u, w := Pow2(j - 1), Pow2(8 - j);
    assert Pow2(j) == 2 * u && Pow2(8 - (j - 1)) == 2 * w;
    hide Pow2;
    BitAppended(x, u, b, w);
  }

  lemma OneByteMore(k: seq<u8>, m: nat, c: nat)
    requires 0 < m <= |k| && c == 8
    ensures Os2ip(k[..m]) == Prefix(Os2ip(k[..m - 1]), k[m - 1], c)
  {
    assert Pow2(c) == 0x100 && Pow2(8 - c) == 1;
    assert k[..m][..m - 1] == k[..m - 1];
  }

  lemma OneBitMore(k: seq<u8>, i: nat, n: nat, bit: nat, q: Point, p: int)
    requires p > 0 && i < 8 * |k| && bit < 2 && Multiple(k, i, q, p) == Times(n, q, p)
    requires ScalarBit(k, i) <==> bit == 1
    ensures Multiple(k, i + 1, q, p) == Times(2 * n + bit, q, p)
  {
    hide DoublePoint;
    hide AddPoints;
    hide ScalarBit;
    TimesNext(n, bit, q, p);
    hide Times;
  }

  lemma WholeByteGone(x: u8, n: nat)
    requires n == 8
    ensures x / Pow2(n) == 0
  {
    assert Pow2(n) == 0x100;
  }

  lemma BitAppended(x: nat, u: nat, b: nat, w: nat)
    requires w > 0
    ensures x * (2 * u) + b / w == 2 * (x * u + b / (2 * w)) + b / w % 2
  {
    HalveQuotient(b, w);
    assert x * (2 * u) == 2 * (x * u);
  }

  /** Double-and-add over a scalar's bits gives the multiple by its number. */
  lemma {:induction false} MultipleIsTimes(k: seq<u8>, m: nat, q: Point, p: int)
    requires p > 0 && m <= |k|
    ensures Multiple(k, 8 * m, q, p) == Times(Os2ip(k[..m]), q, p)
  {
    hide DoublePoint;
    hide AddPoints;
    if m > 0 {
      MultipleIsTimes(k, m - 1, q, p);
      var c: nat := 8;
      WithinByte(k, m - 1, c, Os2ip(k[..m - 1]), q, p);
      OneByteMore(k, m, c);
      hide *;
    }
  }

  lemma ScalarIsTimes(k: seq<u8>, n: nat, q: Point, p: int)
    requires p > 0 && |k| == n
    ensures Multiple(k, 8 * n, q, p) == Times(Os2ip(k), q, p)
  {
    MultipleIsTimes(k, n, q, p);
    assert k[..n] == k;
  }

  /** At infinity, or on the curve with constant b. */
  ghost predicate Good(q: Point, b: int, p: int)
    requires p > 0
  {
    q.Infinity? || OnCurve(q.x, q.y, q.z, b, p)
  }

  lemma DoubleGood(q: Point, b: int, p: int)
    requires p > 0 && Good(q, b, p)
    ensures Good(DoublePoint(q, p), b, p)
  {
    hide OnCurve;
    if q.Point? {
      var gamma, delta := q.y * q.y, q.z * q.z;
      var beta, alpha := q.x * gamma, 3 * ((q.x - delta) * (q.x + delta));
      var x3 := alpha * alpha - 8 * beta;
      DoublingStays(q.x, q.y, q.z, b, p, x3, alpha * (4 * beta - x3) - 8 * (gamma * gamma),
          (q.y + q.z) * (q.y + q.z) - gamma - delta);
    }
  }

  lemma AddGood(q: Point, o: Point, b: int, p: int)
    requires p > 0 && Good(q, b, p) && Good(o, b, p)
    ensures Good(AddPoints(q, o, p), b, p)
  {
    hide OnCurve;
    hide Cong;
    DoubleGood(q, b, p);
    if q.Point? && o.Point? {
      var u1, u2 := q.x * (o.z * o.z), o.x * (q.z * q.z);
      var s1, s2 := (q.y * o.z) * (o.z * o.z), (o.y * q.z) * (q.z * q.z);
      var h, r := u2 - u1, 2 * (s2 - s1);
      var i2 := (2 * h) * (2 * h);
      var j, v := h * i2, u1 * i2;
      var x3 := r * r - j - v - v;
      AdditionStays(q.x, q.y, q.z, o.x, o.y, o.z, b, p, x3, r * (v - x3) - 2 * (s1 * j),
        ((q.z + o.z) * (q.z + o.z) - q.z * q.z - o.z * o.z) * h);
    }
  }

  /** Every point double-and-add reaches from a point of the curve is on the curve or at infinity. */
  lemma {:induction false} MultipleGood(k: seq<u8>, i: nat, q: Point, b: int, p: int)
    requires p > 0 && i <= 8 * |k| && Good(q, b, p)
    ensures Good(Multiple(k, i, q, p), b, p)
  {
    if i > 0 {
      MultipleGood(k, i - 1, q, b, p);
      DoubleGood(Multiple(k, i - 1, q, p), b, p);
      AddGood(DoublePoint(Multiple(k, i - 1, q, p), p), q, b, p);
    }
  }

  /** A point that is not at infinity has a denominator that is not zero. */
  ghost predicate Finite(q: Point, p: int)
    requires p > 0
  {
    q.Point? ==> q.z % p != 0
  }

  lemma {:induction false} MultipleFinite(k: seq<u8>, i: nat, q: Point, p: int)
    requires p > 0 && i <= 8 * |k| && Finite(q, p)
    ensures Finite(Multiple(k, i, q, p), p)
  {
    if i > 0 {
      MultipleFinite(k, i - 1, q, p);
      var d := Multiple(k, i - 1, q, p);
      DoubleFinite(d, p);
      AddFinite(DoublePoint(d, p), q, p);
    }
  }

  lemma DoubleFinite(q: Point, p: int)
    requires p > 0
    ensures Finite(DoublePoint(q, p), p)
  {}

  lemma AddFinite(q: Point, o: Point, p: int)
    requires p > 0 && Finite(q, p) && Finite(o, p)
    ensures Finite(AddPoints(q, o, p), p)
  {
    hide DoublePoint;
    hide Cong;
    DoubleFinite(q, p);
  }

  // ---- points in memory -----------------------------------------------------------------------------------

  /** A Jacobian point; the numbers its coordinates stand for are ghosts. */
  class Jac {
    var X: seq<u32>
    var Y: seq<u32>
    var Z: seq<u32>
    ghost var x: int
    ghost var y: int
    ghost var z: int

    /** X and Y mean nothing when Z is zero. */
    ghost predicate Valid()
      reads this
    {
      |Z| == N && P() > 0 && (V(Z, N) == 0 || (Rep(X, x) && Rep(Y, y) && Rep(Z, z)))
    }

    ghost function Value(): Point
      reads this
      requires Valid()
    {
      if V(Z, N) == 0 then Infinity else Point(x, y, z)
    }

    constructor AtInfinity()
      ensures Valid() && Value() == Infinity
    {
      X, Y, Z := [], [], seq(N, k => 0);
      x, y, z := 0, 0, 0;
      new;
      PrimeFacts();
      VZeros(Z, N);
    }

    method Set(X': seq<u32>, Y': seq<u32>, Z': seq<u32>, ghost x': int, ghost y': int, ghost z': int)
      requires Rep(X', x') && Rep(Y', y') && Rep(Z', z')
      modifies this
      ensures Valid() && X == X' && Y == Y' && Z == Z' && Value() == Normal(x', y', z', P())
      ensures x == x' && y == y' && z == z'
    {
      X, Y, Z := X', Y', Z';
      x, y, z := x', y', z';
      ZeroIsZero(Z, z);
    }

    method CopyFrom(o: Jac)
      requires o.Valid()
      modifies this
      ensures Valid() && Value() == old(o.Value())
    {
      X, Y, Z := o.X, o.Y, o.Z;
      x, y, z := o.x, o.y, o.z;
    }
  }

  /** The words are zero exactly when the residue is. */
  lemma ZeroIsZero(a: seq<u32>, x: int)
    requires Rep(a, x)
    ensures V(a, N) == 0 <==> x % P() == 0
  {
    hide V;
    hide W;
    hide P;
    hide R;
    PrimeFacts();
    VBound(a, N);
    ModSmall(V(a, N), P());
    if V(a, N) == 0 {
      assert Cong(x * W(N), 0 * W(N), P());
      RadixCancels(x, 0, N, P());
    } else if x % P() == 0 {
      CongMul(x, 0, W(N), W(N), P());
    }
  }

  /** jac_double; r may be p. */
  method JacDouble(r: Jac, p: Jac)
    requires p.Valid()
    modifies r
    ensures r.Valid() && r.Value() == DoublePoint(old(p.Value()), P())
  {
    hide V;
    hide Rep;
    var zero := IsZero(p.Z);
    if zero {
      r.Z := p.Z;
      return;
    }
    ghost var x, y, z := p.x, p.y, p.z;
    ghost var g, d := y * y, z * z;
    ghost var be, al := x * g, 3 * ((x - d) * (x + d));
    ghost var x3 := al * al - 8 * be;
    var alpha, beta, gamma, delta := Tangent(p.X, p.Y, p.Z, x, y, z);
    var X3 := Mul(alpha, alpha, al, al);
    var four, eight := Eightfold(beta, be);
    X3 := Sub(X3, eight, al * al, 8 * be);
    var Z3 := Add(p.Y, p.Z, y, z);
    Z3 := Mul(Z3, Z3, y + z, y + z);
    Z3 := Sub(Z3, gamma, (y + z) * (y + z), g);
    Z3 := Sub(Z3, delta, (y + z) * (y + z) - g, d);
    var t3 := Sub(four, X3, 4 * be, x3);
    var Y3 := Mul(alpha, t3, al, 4 * be - x3);
    t3 := Mul(gamma, gamma, g, g);
    four, eight := Eightfold(t3, g * g);
    Y3 := Sub(Y3, eight, al * (4 * be - x3), 8 * (g * g));
    r.Set(X3, Y3, Z3, x3, al * (4 * be - x3) - 8 * (g * g), (y + z) * (y + z) - g - d);
  }

  /** jac_add; r may be p or q. */
  method JacAdd(r: Jac, p: Jac, q: Jac)
    requires p.Valid() && q.Valid()
    modifies r
    ensures r.Valid() && r.Value() == AddPoints(old(p.Value()), old(q.Value()), P())
  {
    hide V;
    hide Rep;
    hide Cong;
    hide DoublePoint;
    var zero := IsZero(p.Z);
    if zero {
      r.CopyFrom(q);
      return;
    }
    zero := IsZero(q.Z);
    if zero {
      r.CopyFrom(p);
      return;
    }
    ghost var x1, y1, z1, x2, y2, z2 := p.x, p.y, p.z, q.x, q.y, q.z;
    var ZZ1 := Mul(p.Z, p.Z, z1, z1);
    var ZZ2 := Mul(q.Z, q.Z, z2, z2);
    var U1 := Mul(p.X, ZZ2, x1, z2 * z2);
    var U2 := Mul(q.X, ZZ1, x2, z1 * z1);
    var S1 := Mul(p.Y, q.Z, y1, z2);
    S1 := Mul(S1, ZZ2, y1 * z2, z2 * z2);
    var S2 := Mul(q.Y, p.Z, y2, z1);
    S2 := Mul(S2, ZZ1, y2 * z1, z1 * z1);
    var same := Same(U1, U2, x1 * (z2 * z2), x2 * (z1 * z1));
    if same {
      same := Same(S1, S2, (y1 * z2) * (z2 * z2), (y2 * z1) * (z1 * z1));
      if same {
        JacDouble(r, p);
      } else {
        r.Z := seq(N, k => 0);
        VZeros(r.Z, N);
      }
      return;
    }
    var H, X3, Y3, x3, y3 := ChordFormulas(U1, U2, S1, S2, x1 * (z2 * z2), x2 * (z1 * z1), (y1 * z2) * (z2 * z2),
        (y2 * z1) * (z1 * z1));
    ghost var h := x2 * (z1 * z1) - x1 * (z2 * z2);
    var Z3 := Add(p.Z, q.Z, z1, z2);
    Z3 := Mul(Z3, Z3, z1 + z2, z1 + z2);
    Z3 := Sub(Z3, ZZ1, (z1 + z2) * (z1 + z2), z1 * z1);
    Z3 := Sub(Z3, ZZ2, (z1 + z2) * (z1 + z2) - z1 * z1, z2 * z2);
    Z3 := Mul(Z3, H, (z1 + z2) * (z1 + z2) - z1 * z1 - z2 * z2, h);
    r.Set(X3, Y3, Z3, x3, y3, ((z1 + z2) * (z1 + z2) - z1 * z1 - z2 * z2) * h);
  }

  /** scalar_mult. */
  method ScalarMult(r: Jac, k: seq<u8>, p: Jac)
    requires |k| == 32 && p.Valid()
    modifies r
    ensures r.Valid() && r.Value() == Multiple(k, 256, old(p.Value()), P())
    ensures r.Value() == Times(Os2ip(k), old(p.Value()), P())
  {
    hide V;
    hide Rep;
    hide DoublePoint;
    hide AddPoints;
    ScalarIsTimes(k, 32, p.Value(), P());
    var acc := new Jac.AtInfinity();
    var i := 0;
    while i < 256
      invariant 0 <= i <= 256
      invariant acc.Valid() && p.Valid() && fresh(acc) && p.Value() == old(p.Value())
      invariant acc.Value() == Multiple(k, i, p.Value(), P())
    {
      JacDouble(acc, acc);
      if k[i / 8] / Pow2(7 - i % 8) % 2 == 1 { JacAdd(acc, acc, p); }
      i := i + 1;
    }
    r.CopyFrom(acc);
  }

  /** on_curve, and the peer's affine point taken when it passes. */
  method TakeAffine(q: Jac, px: seq<u32>, py: seq<u32>, B: seq<u32>, ghost b: int) returns (ok: bool)
    requires |px| == N && |py| == N && V(px, N) < P() && V(py, N) < P() && Rep(B, b)
    modifies q
    ensures P() > 0 && (ok <==> OnCurve(V(px, N), V(py, N), 1, b, P()))
    ensures ok ==> q.Valid() && q.Value() == Point(V(px, N), V(py, N), 1)
  {
    hide Rep;
    hide Cong;
    hide V;
    hide OnCurve;
    PrimeFacts();
    ghost var x, y := V(px, N), V(py, N);
    var X := ToMont(px);
    var Y := ToMont(py);
    var three := MontThree();
    var lhs := Mul(Y, Y, y, y);
    var rhs := Mul(X, X, x, x);
    rhs := Mul(rhs, X, x * x, x);
    var t := Mul(three, X, 3, x);
    rhs := Sub(rhs, t, x * x * x, 3 * x);
    rhs := Add(rhs, B, x * x * x - 3 * x, b);
    ok := Same(lhs, rhs, y * y, x * x * x - 3 * x + b);
    DefectIsDifference(x, y, b, y * y, x * x * x - 3 * x + b, P());
    if ok {
      OneValue();
      var one := ToMont(ONE);
      ModSmall(1, P());
      q.Set(X, Y, one, x, y, 1);
    }
  }

  lemma DefectIsDifference(x: int, y: int, b: int, l: int, r: int, p: int)
    requires p > 0 && l == y * y && r == x * x * x - 3 * x + b
    ensures Cong(l, r, p) <==> OnCurve(x, y, 1, b, p)
  {
    assert Defect(x, y, 1, b) == l - r;
    if Cong(l, r, p) {
      var k := CongWitness(l, r, p);
      DivModUnique(l - r, k, 0, p);
    } else if (l - r) % p == 0 {
      CongMultiple(l, r, (l - r) / p, p);
    }
  }

  // ---- inversion and affine coordinates -----------------------------------------------------------------------

  const PM2: seq<u32> := [0xFFFFFFFD, 0xFFFFFFFF, 0xFFFFFFFF, 0x00000000, 0x00000000, 0x00000000, 0x00000001,
      0xFFFFFFFF]

  lemma InverseExponent()
    ensures BitsFrom(PM2, 0) == P() - 2
  {
    BitsSpellValue(PM2);
    Radix.Update(BASE, PW, 0, 0xFFFFFFFD, N);
    assert PW[0 := 0xFFFFFFFD] == PM2;
    assert W(0) == 1;
  }

  /** fe_inv: a to the power p - 2. */
  method FeInv(a: seq<u32>, ghost x: int) returns (r: seq<u32>)
    requires Rep(a, x)
    ensures P() > 2 && Rep(r, Pow(x, P() - 2))
  {
    hide Rep;
    hide V;
    hide BitsFrom;
    PrimeFacts();
    OneValue();
    r := ToMont(ONE);
    InverseExponent();
    AllBitsGone();
    var i := 256;
    assert Pow(x, 0) == 1;
    while i > 0
      invariant 0 <= i <= 256
      invariant Rep(r, Pow(x, BitsFrom(PM2, i)))
    {
      i := i - 1;
      ghost var e := BitsFrom(PM2, i + 1);
      NextBit(i);
      r := Mul(r, r, Pow(x, e), Pow(x, e));
      PowAdd(x, e, e);
      if PM2[i / 32] / Pow2(i % 32) % 2 == 1 {
        r := Mul(r, a, Pow(x, e + e), x);
        Commuted(Pow(x, e + e), x);
      }
    }
  }

  lemma OneValue()
    ensures V(ONE, N) == 1
  {
    VSingle(ONE, N);
  }

  lemma AllBitsGone()
    ensures BitsFrom(PM2, 256) == 0
  {}

  lemma NextBit(i: nat)
    requires i < 256
    ensures BitsFrom(PM2, i) == 2 * BitsFrom(PM2, i + 1) + PM2[i / 32] / Pow2(i % 32) % 2
  {}

  /** What jac_affine stands for: x / z^2 and y / z^3. */
  ghost function AffineX(q: Point, p: int): int
    requires q.Point? && p > 2
  {
    var zi := Pow(q.z, p - 2);
    q.x * (zi * zi)
  }

  ghost function AffineY(q: Point, p: int): int
    requires q.Point? && p > 2
  {
    var zi := Pow(q.z, p - 2);
    q.y * ((zi * zi) * zi)
  }

  /** With p prime, the affine form of a point on the curve satisfies y^2 = x^3 - 3x + b. */
  lemma AffineOnCurve(q: Point, b: int, p: int)
    requires NumberTheory.IsPrime(p) && p > 2 && q.Point? && q.z % p != 0 && OnCurve(q.x, q.y, q.z, b, p)
    ensures OnCurve(AffineX(q, p), AffineY(q, p), 1, b, p)
  {
    hide Defect;
    var zi := Pow(q.z, p - 2);
    var w := q.z * zi;
    var u, v := q.x * (zi * zi), (q.y * zi) * (zi * zi);
    NumberTheory.FermatInverse(p, q.z);
    Scaled(q.x, q.y, q.z, zi, b, u, v, w);
    assert v == AffineY(q, p) by { Mul4(q.y, zi, zi * zi, 1); }
    var e := (zi * zi) * ((zi * zi) * (zi * zi));
    TimesMultiple(e, Defect(q.x, q.y, q.z, b), p);
    UnitDenominator(u, v, w, b, p);
  }

  /** A denominator congruent to one can be left out. */
  lemma UnitDenominator(u: int, v: int, w: int, b: int, p: int)
    requires p > 0 && Cong(w, 1, p)
    requires var w4 := (w * w) * (w * w); (v * v - u * u * u + 3 * u * w4 - b * (w4 * (w * w))) % p == 0
    ensures OnCurve(u, v, 1, b, p)
  {
    var w2, w4 := w * w, (w * w) * (w * w);
    CongMul(w, 1, w, 1, p);
    CongMul(w2, 1, w2, 1, p);
    CongMul(w4, 1, w2, 1, p);
    var k4 := CongWitness(w4, 1, p);
    var k6 := CongWitness(w4 * w2, 1, p);
    var big := v * v - u * u * u + 3 * u * w4 - b * (w4 * w2);
    var a, w6 := 3 * u, w4 * w2;
    UnitMultiple(a, w4, k4, p);
    UnitMultiple(b, w6, k6, p);
    var s, t := a * k4, b * k6;
    assert (s - t) * p == s * p - t * p;
    assert big == Defect(u, v, 1, b) + (s - t) * p;
    CongMultiple(big, Defect(u, v, 1, b), s - t, p);
    ModSmall(0, p);
  }

  lemma UnitMultiple(a: int, w: int, k: int, p: int)
    requires w == 1 + k * p
    ensures a * w == a + (a * k) * p
  {
    Assoc(a, k, p);
    assert a * (1 + k * p) == a + a * (k * p);
  }

  /** jac_affine. */
  method JacAffine(q: Jac) returns (ax: seq<u8>, ay: seq<u8>)
    requires q.Valid() && q.Value().Point?
    ensures P() > 2
    ensures |ax| == |ay| == 32
    ensures ax == I2osp(AffineX(q.Value(), P()) % P(), |ax|) && ay == I2osp(AffineY(q.Value(), P()) % P(), |ay|)
  {
    hide Rep;
    hide V;
    hide I2osp;
    PrimeFacts();
    ghost var zi := Pow(q.z, P() - 2);
    var ZI := FeInv(q.Z, q.z);
    var ZI2 := Mul(ZI, ZI, zi, zi);
    var ZI3 := Mul(ZI2, ZI, zi * zi, zi);
    var XA := Mul(q.X, ZI2, q.x, zi * zi);
    var YA := Mul(q.Y, ZI3, q.y, (zi * zi) * zi);
    XA := FromMont(XA, q.x * (zi * zi));
    YA := FromMont(YA, q.y * ((zi * zi) * zi));
    ax := ToBe(XA);
    ay := ToBe(YA);
  }

  // ---- key agreement ----------------------------------------------------------------------------------------

  /** The peer's point, if its encoding is accepted. */
  ghost predicate Accepted(peer: seq<u8>, b: int, p: int)
    requires |peer| == 65 && p > 0
  {
    && peer[0] == 4 && Os2ip(peer[1..33]) < p && Os2ip(peer[33..65]) < p
    && OnCurve(Os2ip(peer[1..33]), Os2ip(peer[33..65]), 1, b, p)
  }

  /** fe_geq_p. */
  method AtLeastP(a: seq<u32>) returns (geq: bool)
    requires |a| == N
    ensures geq <==> V(a, N) >= P()
  {
    hide V;
    var u := Fresh(a);
    var c := Cmp(u, PW, N);
    geq := c >= 0;
  }

  /** What the scalar k gives from a point of the curve, in affine form, is on the curve. */
  lemma SharedOnCurve(k: seq<u8>, q: Point, b: int, p: int)
    requires NumberTheory.IsPrime(p) && p > 2 && |k| == 32 && Good(q, b, p) && Finite(q, p)
      && Times(Os2ip(k), q, p).Point?
    ensures OnCurve(AffineX(Times(Os2ip(k), q, p), p), AffineY(Times(Os2ip(k), q, p), p), 1, b, p)
  {
    hide Multiple;
    hide Times;
    hide OnCurve;
    hide AffineX;
    hide AffineY;
    hide Os2ip;
    var n := 32;
    ScalarIsTimes(k, n, q, p);
    MultipleGood(k, 8 * n, q, b, p);
    MultipleFinite(k, 8 * n, q, p);
    AffineOnCurve(Times(Os2ip(k), q, p), b, p);
  }

  /** p256_ecdh: refused unless the peer's point is on the curve and the shared point is not at infinity. */
  method Ecdh(priv: seq<u8>, peer: seq<u8>, B: seq<u32>, ghost b: int) returns (rc: int, out: seq<u8>)
    requires |priv| == 32 && |peer| == 65 && Rep(B, b)
    ensures P() > 2 && (rc == 0 || rc == -1)
    ensures rc == 0 <==>
      && Accepted(peer, b, P())
      && Times(Os2ip(priv), Point(Os2ip(peer[1..33]), Os2ip(peer[33..65]), 1), P()).Point?
    ensures rc == 0 ==>
      out == I2osp(AffineX(Times(Os2ip(priv), Point(Os2ip(peer[1..33]), Os2ip(peer[33..65]), 1), P()), P()) % P(), 32)
    ensures rc == 0 && NumberTheory.IsPrime(P()) ==>
      var m := Times(Os2ip(priv), Point(Os2ip(peer[1..33]), Os2ip(peer[33..65]), 1), P());
      OnCurve(AffineX(m, P()), AffineY(m, P()), 1, b, P())
  {
    hide Rep;
    hide V;
    hide I2osp;
    hide Os2ip;
    hide OnCurve;
    hide Multiple;
    hide Times;
    hide AffineX;
    PrimeFacts();
    out := [];
    if peer[0] != 4 {
      return -1, [];
    }
    var px := FromBe(peer[1..33], N);
    var py := FromBe(peer[33..65], N);
    var big := AtLeastP(px);
    if big { return -1, []; }
    big := AtLeastP(py);
    if big { return -1, []; }
    var q := new Jac.AtInfinity();
    var ok := TakeAffine(q, px, py, B, b);
    if !ok { return -1, []; }
    var r := new Jac.AtInfinity();
    ScalarMult(r, priv, q);
    var zero := IsZero(r.Z);
    if zero { return -1, []; }
    var ay;
    out, ay := JacAffine(r);
    rc := 0;
    ghost var o := Point(Os2ip(peer[1..33]), Os2ip(peer[33..65]), 1);
    ModSmall(1, P());
    if NumberTheory.IsPrime(P()) { SharedOnCurve(priv, o, b, P()); }
  }

  // ---- the curve's constants ----------------------------------------------------------------------------

  const CURVE_B: int := 0x5AC635D8AA3A93E7B3EBBD55769886BC651D06B0CC53B0F63BCE3C3E27D2604B
  const GX: int := 0x6B17D1F2E12C4247F8BCE6E563A440F277037D812DEB33A0F4A13945D898C296
  const GY: int := 0x4FE342E2FE1A7F9B8EE7EB4A7C0F9E162BCE33576B315ECECBB6406837BF51F5

  const B_BYTES: seq<u8> := [
    0x5a, 0xc6, 0x35, 0xd8, 0xaa, 0x3a, 0x93, 0xe7, 0xb3, 0xeb, 0xbd, 0x55, 0x76, 0x98, 0x86, 0xbc,
    0x65, 0x1d, 0x06, 0xb0, 0xcc, 0x53, 0xb0, 0xf6, 0x3b, 0xce, 0x3c, 0x3e, 0x27, 0xd2, 0x60, 0x4b
  ]
  const GX_BYTES: seq<u8> := [
    0x6b, 0x17, 0xd1, 0xf2, 0xe1, 0x2c, 0x42, 0x47, 0xf8, 0xbc, 0xe6, 0xe5, 0x63, 0xa4, 0x40, 0xf2,
    0x77, 0x03, 0x7d, 0x81, 0x2d, 0xeb, 0x33, 0xa0, 0xf4, 0xa1, 0x39, 0x45, 0xd8, 0x98, 0xc2, 0x96
  ]
  const GY_BYTES: seq<u8> := [
    0x4f, 0xe3, 0x42, 0xe2, 0xfe, 0x1a, 0x7f, 0x9b, 0x8e, 0xe7, 0xeb, 0x4a, 0x7c, 0x0f, 0x9e, 0x16,
    0x2b, 0xce, 0x33, 0x57, 0x6b, 0x31, 0x5e, 0xce, 0xcb, 0xb6, 0x40, 0x68, 0x37, 0xbf, 0x51, 0xf5
  ]

  /** What the first n words of a byte string spell. */
  ghost function Spelled(b: seq<u8>, n: nat): int
    requires 4 * n <= |b|
  {
    if n == 0 then 0 else Spelled(b, n - 1) * 0x1_0000_0000 + WordAt(b, 4 * n - 4)
  }

  function WordAt(b: seq<u8>, at: nat): int
    requires at + 4 <= |b|
  {
    (b[at] as int) * 0x100_0000 + (b[at + 1] as int) * 0x1_0000 + (b[at + 2] as int) * 0x100 + b[at + 3]
  }

  lemma {:induction false} SpelledIs(b: seq<u8>, n: nat)
    requires 4 * n <= |b|
    ensures Os2ip(b[..4 * n]) == Spelled(b, n)
  {
    if n > 0 {
      SpelledIs(b, n - 1);
      FourMore(b, 4 * n - 4);
    }
  }

  lemma FourMore(b: seq<u8>, n: nat)
    requires n + 4 <= |b|
    ensures Os2ip(b[..n + 4]) == Os2ip(b[..n]) * 0x1_0000_0000 + WordAt(b, n)
  {
    OneMore(b, n);
    OneMore(b, n + 1);
    OneMore(b, n + 2);
    OneMore(b, n + 3);
    hide Os2ip;
  }

  lemma OneMore(b: seq<u8>, n: nat)
    requires n < |b|
    ensures Os2ip(b[..n + 1]) == 0x100 * Os2ip(b[..n]) + b[n]
  {
    assert b[..n + 1][..n] == b[..n];
  }

  lemma EightSpelled(b: seq<u8>, n: nat)
    requires n == 8 && |b| == 32
    ensures Spelled(b, n)
         == WordAt(b, 28) + WordAt(b, 24) * 0x1_00000000 + WordAt(b, 20) * 0x1_00000000_00000000
            + WordAt(b, 16) * 0x1_00000000_00000000_00000000 + WordAt(b, 12) * 0x1_00000000_00000000_00000000_00000000
            + WordAt(b, 8) * 0x1_00000000_00000000_00000000_00000000_00000000
            + WordAt(b, 4) * 0x1_00000000_00000000_00000000_00000000_00000000_00000000
            + WordAt(b, 0) * 0x1_00000000_00000000_00000000_00000000_00000000_00000000_00000000
  {
    hide WordAt;
    var z: nat := 0;
    assert Spelled(b, z + 1) == WordAt(b, 0);
    assert Spelled(b, z + 2) == Spelled(b, z + 1) * 0x1_0000_0000 + WordAt(b, 4);
    assert Spelled(b, z + 3) == Spelled(b, z + 2) * 0x1_0000_0000 + WordAt(b, 8);
    assert Spelled(b, z + 4) == Spelled(b, z + 3) * 0x1_0000_0000 + WordAt(b, 12);
    assert Spelled(b, z + 5) == Spelled(b, z + 4) * 0x1_0000_0000 + WordAt(b, 16);
    assert Spelled(b, z + 6) == Spelled(b, z + 5) * 0x1_0000_0000 + WordAt(b, 20);
    assert Spelled(b, z + 7) == Spelled(b, z + 6) * 0x1_0000_0000 + WordAt(b, 24);
    assert Spelled(b, z + 8) == Spelled(b, z + 7) * 0x1_0000_0000 + WordAt(b, 28);
  }

  lemma WordsB()
    ensures WordAt(B_BYTES, 0) == 0x5AC635D8 && WordAt(B_BYTES, 4) == 0xAA3A93E7 && WordAt(B_BYTES, 8) == 0xB3EBBD55
      && WordAt(B_BYTES, 12) == 0x769886BC
  {}

  lemma MoreWordsB()
    ensures WordAt(B_BYTES, 16) == 0x651D06B0 && WordAt(B_BYTES, 20) == 0xCC53B0F6
      && WordAt(B_BYTES, 24) == 0x3BCE3C3E && WordAt(B_BYTES, 28) == 0x27D2604B
  {}

  lemma BytesB(n: nat)
    requires n == 8
    ensures Spelled(B_BYTES, n) == CURVE_B
  {
    hide Spelled;
    hide WordAt;
    WordsB();
    MoreWordsB();
    EightSpelled(B_BYTES, n);
  }

  lemma WordsGx()
    ensures WordAt(GX_BYTES, 0) == 0x6B17D1F2 && WordAt(GX_BYTES, 4) == 0xE12C4247
      && WordAt(GX_BYTES, 8) == 0xF8BCE6E5 && WordAt(GX_BYTES, 12) == 0x63A440F2
  {}

  lemma MoreWordsGx()
    ensures WordAt(GX_BYTES, 16) == 0x77037D81 && WordAt(GX_BYTES, 20) == 0x2DEB33A0
      && WordAt(GX_BYTES, 24) == 0xF4A13945 && WordAt(GX_BYTES, 28) == 0xD898C296
  {}

  lemma BytesGx(n: nat)
    requires n == 8
    ensures Spelled(GX_BYTES, n) == GX
  {
    hide Spelled;
    hide WordAt;
    WordsGx();
    MoreWordsGx();
    EightSpelled(GX_BYTES, n);
  }

  lemma WordsGy()
    ensures WordAt(GY_BYTES, 0) == 0x4FE342E2 && WordAt(GY_BYTES, 4) == 0xFE1A7F9B
      && WordAt(GY_BYTES, 8) == 0x8EE7EB4A && WordAt(GY_BYTES, 12) == 0x7C0F9E16
  {}

  lemma MoreWordsGy()
    ensures WordAt(GY_BYTES, 16) == 0x2BCE3357 && WordAt(GY_BYTES, 20) == 0x6B315ECE
      && WordAt(GY_BYTES, 24) == 0xCBB64068 && WordAt(GY_BYTES, 28) == 0x37BF51F5
  {}

  lemma BytesGy(n: nat)
    requires n == 8
    ensures Spelled(GY_BYTES, n) == GY
  {
    hide Spelled;
    hide WordAt;
    WordsGy();
    MoreWordsGy();
    EightSpelled(GY_BYTES, n);
  }

  lemma ConstantBytes()
    ensures Os2ip(B_BYTES) == CURVE_B && Os2ip(GX_BYTES) == GX && Os2ip(GY_BYTES) == GY
  {
    hide Os2ip;
    hide Spelled;
    var n := 8;
    BytesB(n);
    BytesGx(n);
    BytesGy(n);
    SpelledIs(B_BYTES, n);
    SpelledIs(GX_BYTES, n);
    SpelledIs(GY_BYTES, n);
    assert B_BYTES[..32] == B_BYTES && GX_BYTES[..32] == GX_BYTES && GY_BYTES[..32] == GY_BYTES;
  }

  /** The base point is on the curve. */
  lemma BaseOnCurve(p: int)
    requires p == P()
    ensures p > GX && p > GY && p > CURVE_B && OnCurve(GX, GY, 1, CURVE_B, p)
  {
    PrimeValue();
    BaseDefect(GX, GY);
    DivModUnique(Defect(GX, GY, 1, CURVE_B), 0 - BASE_QUOTIENT, 0, p);
  }

  const BASE_QUOTIENT: int :=
    0x12bdd1ad23dfc833dccf5f6141d6bb4a1f365dc1430b0e600b52dd851938d2d6 * TWO256
    + 0x933106a72efbf035fdaf43963b37fd5456e90c6581a8fb7a0d8a46a3629f0458

  lemma BaseDefect(x: int, y: int)
    requires x == GX && y == GY
    ensures Defect(x, y, 1, CURVE_B) == 0 - BASE_QUOTIENT * PRIME
  {}

  /** p256_init: the base point and the curve's constant in the Montgomery domain. */
  method Init() returns (g: Jac, B: seq<u32>)
    ensures fresh(g) && g.Valid() && g.Value() == Point(GX, GY, 1) && Rep(B, CURVE_B)
  {
    hide Rep;
    hide V;
    hide Os2ip;
    PrimeFacts();
    ConstantBytes();
    BaseOnCurve(P());
    var t := FromBe(B_BYTES, N);
    B := ToMont(t);
    t := FromBe(GX_BYTES, N);
    var X := ToMont(t);
    t := FromBe(GY_BYTES, N);
    var Y := ToMont(t);
    OneValue();
    var one := ToMont(ONE);
    g := new Jac.AtInfinity();
    ModSmall(1, P());
    g.Set(X, Y, one, GX, GY, 1);
  }

  /** The multiple of the base point by a private key. */
  ghost function Key(priv: seq<u8>): Point
    requires |priv| == 32
  {
    PrimeFacts();
    Times(Os2ip(priv), Point(GX, GY, 1), P())
  }

  /** The key 1 is the base point. */
  lemma KeyOne(priv: seq<u8>)
    requires |priv| == 32 && Os2ip(priv) == 1
    ensures P() > 2 && Key(priv) == Point(GX, GY, 1)
    ensures AffineX(Key(priv), P()) % P() == 0x6B17D1F2E12C4247F8BCE6E563A440F277037D812DEB33A0F4A13945D898C296
    ensures AffineY(Key(priv), P()) % P() == 0x4FE342E2FE1A7F9B8EE7EB4A7C0F9E162BCE33576B315ECECBB6406837BF51F5
  {
    PrimeFacts();
    BaseOnCurve(P());
    TimesNext(0, 1, Point(GX, GY, 1), P());
    PowersOfOne(P() - 2);
    ModSmall(GX, P());
    ModSmall(GY, P());
    hide AddPoints;
  }

  lemma {:induction false} PowersOfOne(e: nat)
    ensures Pow(1, e) == 1
  {
    if e > 0 { PowersOfOne(e - 1); }
  }

  /** p256_public: the uncompressed affine form of the key's multiple of the base point, which with p prime is a
      point of the curve. */
  method Public(priv: seq<u8>) returns (out: seq<u8>)
    requires |priv| == 32
    ensures P() > 2 && |out| == 65 && out[0] == 4
    ensures Key(priv).Point? ==>
      out == [4] + I2osp(AffineX(Key(priv), P()) % P(), |priv|) + I2osp(AffineY(Key(priv), P()) % P(), |priv|)
    ensures Key(priv).Point? && NumberTheory.IsPrime(P()) ==>
      OnCurve(AffineX(Key(priv), P()), AffineY(Key(priv), P()), 1, CURVE_B, P())
  {
    hide Rep;
    hide V;
    hide I2osp;
    hide OnCurve;
    hide Multiple;
    hide Times;
    hide AffineX;
    hide AffineY;
    PrimeFacts();
    var g, B := Init();
    var r := new Jac.AtInfinity();
    ScalarMult(r, priv, g);
    var zero := IsZero(r.Z);
    if zero {
      return [4] + seq(64, i => 0);
    }
    var ax, ay := JacAffine(r);
    out := [4] + ax + ay;
    BaseOnCurve(P());
    ModSmall(1, P());
    if NumberTheory.IsPrime(P()) { SharedOnCurve(priv, Point(GX, GY, 1), CURVE_B, P()); }
  }
}

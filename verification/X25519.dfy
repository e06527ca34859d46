/** x25519 (crypto/x25519.c:89-129) against the Montgomery ladder of section 5 of RFC 7748. */
module X25519 {
  import opened Arith
  import opened Bits
  import opened Machine
  import opened Limbs16
  import opened Field25519
  import Radix

  // ---- section 5 of RFC 7748, over integers modulo p --------------------------------

  function F(x: int): int {
    x % P
  }

  datatype Ladder = Ladder(x2: int, z2: int, x3: int, z3: int)

  function CSwap(swap: bool, s: Ladder): Ladder {
    if swap then Ladder(s.x3, s.z3, s.x2, s.z2) else s
  }

  const A24: int := 121665

  function Step(u: int, s: Ladder): Ladder {
    var a := F(s.x2 + s.z2);
    var aa := F(a * a);
    var b := F(s.x2 - s.z2);
    var bb := F(b * b);
    var e := F(aa - bb);
    var c := F(s.x3 + s.z3);
    var d := F(s.x3 - s.z3);
    var da := F(d * a);
    var cb := F(c * b);
    var sum := F(da + cb);
    var diff := F(da - cb);
    Ladder(F(aa * bb), F(e * F(aa + F(A24 * e))), F(sum * sum), F(u * F(diff * diff)))
  }

  predicate Bit(k: nat, t: nat) {
    k / Pow2(t) % 2 == 1
  }

  /** The RFC's loop: bits t-1 down to 0, one conditional swap per bit, one more at the end. */
  function RfcLoop(k: nat, u: int, t: nat, s: Ladder, swap: bool): Ladder {
    if t == 0 then CSwap(swap, s)
    else
      var kt := Bit(k, t - 1);
      RfcLoop(k, u, t - 1, Step(u, CSwap(swap != kt, s)), kt)
  }

  /** The RFC's result for the decoded scalar and coordinate. */
  ghost function RfcX25519(k: nat, u: int): int {
    var r := RfcLoop(k, F(u), 255, Ladder(1, 0, F(u), 1), false);
    F(r.x2 * Pow(r.z2, P - 2))
  }

  // ---- the code's ladder swaps in and out on every bit ------------------------------

  function SwapStep(u: int, s: Ladder, bit: bool): Ladder {
    CSwap(bit, Step(u, CSwap(bit, s)))
  }

  function CodeLoop(k: nat, u: int, t: nat, s: Ladder): Ladder {
    if t == 0 then s else CodeLoop(k, u, t - 1, SwapStep(u, s, Bit(k, t - 1)))
  }

  lemma {:induction false} LoopsAgree(k: nat, u: int, t: nat, s: Ladder, swap: bool)
    ensures RfcLoop(k, u, t, s, swap) == CodeLoop(k, u, t, CSwap(swap, s))
  {
    if t > 0 {
      var kt := Bit(k, t - 1);
      LoopsAgree(k, u, t - 1, Step(u, CSwap(swap != kt, s)), kt);
      assert CSwap(kt, CSwap(swap, s)) == CSwap(swap != kt, s);
    }
  }

  // ---- the ladder by the number ------------------------------------------------------

  /** The n-th multiple of the point with coordinate u and the one after it, as the ladder comes to them: 0 is infinity,
      the pair for 2n doubles the n-th and adds it to the next, the pair for 2n + 1 adds them and doubles the next. */
  function Multiples(n: nat, u: int): Ladder {
    if n == 0 then Ladder(1, 0, u, 1)
    else
      var m := Multiples(n / 2, u);
      if n % 2 == 0 then Step(u, m)
      else
        var r := Step(u, Ladder(m.x3, m.z3, m.x2, m.z2));
        Ladder(r.x3, r.z3, r.x2, r.z2)
  }

  /** The code's loop from a state that has the multiple the bits above t spell. */
  lemma {:induction false} LoopByNumber(k: nat, u: int, t: nat)
    requires k / Pow2(t) > 0
    ensures CodeLoop(k, u, t, Multiples(k / Pow2(t), u)) == Multiples(k, u)
  {
    hide Step;
    if t > 0 {
      var p, q := Pow2(t), Pow2(t - 1);
      HalfOf(k, q);
      NextMultiples(k / q, u);
      LoopByNumber(k, u, t - 1);
    }
  }

  lemma HalfOf(k: nat, q: nat)
    requires q > 0
    ensures k / (2 * q) == k / q / 2 && (k / (2 * q) > 0 ==> k / q > 0)
  {
    DivDiv(k, q, 2);
  }

  lemma NextMultiples(n: nat, u: int)
    requires n > 0
    ensures Multiples(n, u) == SwapStep(u, Multiples(n / 2, u), n % 2 == 1)
  {
    hide Step;
  }

  /** A scalar with its top bit at 254, as every clamped one, takes the ladder to its multiple. */
  lemma LadderByNumber(k: nat, u: int, t: nat)
    requires t == 254 && Pow2(t) <= k < 2 * Pow2(t)
    ensures CodeLoop(k, u, t + 1, Ladder(1, 0, u, 1)) == Multiples(k, u)
  {
    hide Step;
    hide Pow2;
    DivModUnique(k, 1, k - Pow2(t), Pow2(t));
    NextMultiples(1, u);
    LoopByNumber(k, u, t);
  }

  // ---- limbs standing for residues ---------------------------------------------------

  /** After a multiplication or a load: in the band. */
  ghost predicate Tight(s: seq<i64>, v: int) {
    Band(s) && F(Elem(s)) == v
  }

  /** After one addition or subtraction of tight elements. */
  ghost predicate Loose(s: seq<i64>, v: int) {
    |s| == 16 && Within(s, 131146) && F(Elem(s)) == v
  }

  lemma TightIsLoose(s: seq<i64>, v: int)
    requires Tight(s, v)
    ensures Loose(s, v)
  {
    BandWithin(s);
  }

  lemma ResidueOp(x: int, y: int, u: int, v: int, m: int)
    requires m > 0 && x % m == u && y % m == v
    ensures (x + y) % m == (u + v) % m && (x - y) % m == (u - v) % m && (x * y) % m == (u * v) % m
  {
    ModMod(x, m);
    ModMod(y, m);
    CongAdd(x, u, y, v, m);
    CongSub(x, u, y, v, m);
    CongMul(x, u, y, v, m);
  }

  method Mul(o: array<i64>, a: seq<i64>, b: seq<i64>, ghost u: int, ghost v: int)
    requires o.Length == 16 && Loose(a, u) && Loose(b, v)
    modifies o
    ensures Tight(o[..], F(u * v)) && Loose(o[..], F(u * v))
  {
    Fmul(o, a, b);
    ResidueOp(Elem(a), Elem(b), u, v, P);
    TightIsLoose(o[..], F(u * v));
  }

  method Add(o: array<i64>, a: seq<i64>, b: seq<i64>, ghost u: int, ghost v: int)
    requires o.Length == 16 && Tight(a, u) && Tight(b, v)
    modifies o
    ensures Loose(o[..], F(u + v))
  {
    BandWithin(a);
    BandWithin(b);
    Fadd(o, a, b);
    ResidueOp(Elem(a), Elem(b), u, v, P);
  }

  method Sub(o: array<i64>, a: seq<i64>, b: seq<i64>, ghost u: int, ghost v: int)
    requires o.Length == 16 && Tight(a, u) && Tight(b, v)
    modifies o
    ensures Loose(o[..], F(u - v))
  {
    BandWithin(a);
    BandWithin(b);
    Fsub(o, a, b);
    ResidueOp(Elem(a), Elem(b), u, v, P);
  }

  /** Six distinct limb arrays, as the ladder's local variables are. */
  ghost predicate Distinct(a: array<i64>, b: array<i64>, c: array<i64>, d: array<i64>, e: array<i64>, f: array<i64>) {
    && a.Length == 16 && b.Length == 16 && c.Length == 16 && d.Length == 16 && e.Length == 16 && f.Length == 16
    && a != b && a != c && a != d && a != e && a != f
    && b != c && b != d && b != e && b != f
    && c != d && c != e && c != f
    && d != e && d != f
    && e != f
  }

  /** What the step has computed half way. */
  datatype Middle = Middle(aa: int, bb: int, cb: int, da: int)

  function FirstValues(s: Ladder): Middle {
    var p, q, r, t := F(s.x2 + s.z2), F(s.x2 - s.z2), F(s.x3 + s.z3), F(s.x3 - s.z3);
    Middle(F(p * p), F(q * q), F(r * q), F(t * p))
  }

  function SecondValues(u: int, m: Middle): Ladder {
    var e, sum, diff := F(m.aa - m.bb), F(m.cb + m.da), F(m.cb - m.da);
    Ladder(F(m.aa * m.bb), F(e * F(F(e * A24) + m.aa)), F(sum * sum), F(F(diff * diff) * u))
  }

  ghost predicate HoldsMiddle(a: array<i64>, c: array<i64>, d: array<i64>, f: array<i64>, m: Middle)
    reads a, c, d, f
  {
    Tight(d[..], m.aa) && Tight(f[..], m.bb) && Tight(a[..], m.cb) && Tight(c[..], m.da)
  }

  ghost predicate Holds(a: array<i64>, b: array<i64>, c: array<i64>, d: array<i64>, s: Ladder)
    reads a, b, c, d
  {
    Tight(a[..], s.x2) && Tight(b[..], s.x3) && Tight(c[..], s.z2) && Tight(d[..], s.z3)
  }

  /** The first half: AA into d, BB into f, CB into a, DA into c. */
  method FirstHalf(a: array<i64>, b: array<i64>, c: array<i64>, d: array<i64>, e: array<i64>, f: array<i64>,
      ghost s: Ladder)
    requires Distinct(a, b, c, d, e, f) && Holds(a, b, c, d, s)
    modifies a, b, c, d, e, f
    ensures HoldsMiddle(a, c, d, f, FirstValues(s))
  {
    ghost var p, q, r, t := F(s.x2 + s.z2), F(s.x2 - s.z2), F(s.x3 + s.z3), F(s.x3 - s.z3);
    Add(e, a[..], c[..], s.x2, s.z2);
    Sub(a, a[..], c[..], s.x2, s.z2);
    Add(c, b[..], d[..], s.x3, s.z3);
    Sub(b, b[..], d[..], s.x3, s.z3);
    Mul(d, e[..], e[..], p, p);
    Mul(f, a[..], a[..], q, q);
    Mul(a, c[..], a[..], r, q);
    Mul(c, b[..], e[..], t, p);
  }

  const K121665: seq<i64> := [0xDB41, 1, 0, 0, 0, 0, 0, 0, 0, 0, 0, 0, 0, 0, 0, 0]

  lemma K121665Value()
    ensures Loose(K121665, A24)
  {
    var k := K121665;
    LLow(k, 16);
    LLow(k[1..], 15);
    assert k[1..][0] == 1;
    LZeros(k[1..][1..], 14);
    ModSmall(A24, P);
  }

  lemma NegatedSquare(x: int, y: int, m: int)
    requires m > 0 && x == 0 - y
    ensures (x % m * (x % m)) % m == (y % m * (y % m)) % m
  {
    var a, b := x % m, y % m;
    ModMod(x, m);
    ModMod(y, m);
    CongMul(a, x, a, x, m);
    CongMul(b, y, b, y, m);
    SquareOfNegative(x, y);
  }

  lemma SquareOfNegative(x: int, y: int)
    requires x == 0 - y
    ensures x * x == y * y
  {}

  lemma Commutes(x: int, y: int)
    ensures F(x * y) == F(y * x)
  {}

  /** c := E * (AA + a24 * E), with E in c and AA in d. */
  method NextZ2(a: array<i64>, c: array<i64>, d: array<i64>, ghost e: int, ghost aa: int)
    requires a.Length == 16 && c.Length == 16 && a != c && a != d && c != d
    requires Loose(c[..], e) && Tight(d[..], aa)
    modifies a, c
    ensures Tight(c[..], F(e * F(F(e * A24) + aa)))
  {
    K121665Value();
    Mul(a, c[..], K121665, e, A24);
    Add(a, a[..], d[..], F(e * A24), aa);
    Mul(c, c[..], a[..], e, F(F(e * A24) + aa));
  }

  /** The second half, from AA, BB, CB and DA to the next state. */
  method SecondHalf(a: array<i64>, b: array<i64>, c: array<i64>, d: array<i64>, e: array<i64>, f: array<i64>,
                    x: seq<i64>, ghost u: int, ghost m: Middle)
    requires Distinct(a, b, c, d, e, f) && Loose(x, u) && HoldsMiddle(a, c, d, f, m)
    modifies a, b, c, d, e, f
    ensures Holds(a, b, c, d, SecondValues(u, m))
  {
    ghost var ee, sum, diff := F(m.aa - m.bb), F(m.cb + m.da), F(m.cb - m.da);
    Add(e, a[..], c[..], m.cb, m.da);
    Sub(a, a[..], c[..], m.cb, m.da);
    Mul(b, a[..], a[..], diff, diff);
    Sub(c, d[..], f[..], m.aa, m.bb);
    NextZ2(a, c, d, ee, m.aa);
    TightIsLoose(d[..], m.aa);
    TightIsLoose(f[..], m.bb);
    Mul(a, d[..], f[..], m.aa, m.bb);
    Mul(d, b[..], x, F(diff * diff), u);
    Mul(b, e[..], e[..], sum, sum);
  }

  lemma HalvesMakeStep(u: int, s: Ladder)
    ensures SecondValues(u, FirstValues(s)) == Step(u, s)
  {
    var m := FirstValues(s);
    var ee := F(m.aa - m.bb);
    NegatedSquare(m.cb - m.da, m.da - m.cb, P);
    Commutes(ee, A24);
    Commutes(F(F(m.cb - m.da) * F(m.cb - m.da)), u);
  }

  /** The ladder step on limbs. */
  method StepLimbs(a: array<i64>, b: array<i64>, c: array<i64>, d: array<i64>, e: array<i64>, f: array<i64>,
                   x: seq<i64>, ghost u: int, ghost s: Ladder)
    requires Distinct(a, b, c, d, e, f) && Loose(x, u) && Holds(a, b, c, d, s)
    modifies a, b, c, d, e, f
    ensures Holds(a, b, c, d, Step(u, s))
  {
    FirstHalf(a, b, c, d, e, f, s);
    SecondHalf(a, b, c, d, e, f, x, u, FirstValues(s));
    HalvesMakeStep(u, s);
  }

  method SwapAll(a: array<i64>, b: array<i64>, c: array<i64>, d: array<i64>, e: array<i64>, f: array<i64>, r: i64,
      ghost s: Ladder)
    requires Distinct(a, b, c, d, e, f) && (r == 0 || r == 1) && Holds(a, b, c, d, s)
    modifies a, b, c, d
    ensures Holds(a, b, c, d, CSwap(r == 1, s))
  {
    Sel(a, b, r);
    Sel(c, d, r);
  }

  /** One iteration of the ladder: swap in, step, swap out. */
  method Iterate(a: array<i64>, b: array<i64>, c: array<i64>, d: array<i64>, e: array<i64>, f: array<i64>,
                 x: seq<i64>, r: i64, ghost u: int, ghost s: Ladder)
    requires Distinct(a, b, c, d, e, f) && Loose(x, u) && (r == 0 || r == 1) && Holds(a, b, c, d, s)
    modifies a, b, c, d, e, f
    ensures Holds(a, b, c, d, SwapStep(u, s, r == 1))
  {
    SwapAll(a, b, c, d, e, f, r, s);
    StepLimbs(a, b, c, d, e, f, x, u, CSwap(r == 1, s));
    SwapAll(a, b, c, d, e, f, r, Step(u, CSwap(r == 1, s)));
  }

  // ---- scalar bits ----------------------------------------------------------------------

  lemma {:induction false} BytesAreBits(j: nat)
    ensures Pow(0x100, j) == Pow2(8 * j)
  {
    if j > 0 {
      BytesAreBits(j - 1);
      Pow2Add(8, 8 * (j - 1));
    }
  }

  lemma DivDiv(x: nat, a: nat, b: nat)
    requires a > 0 && b > 0
    ensures a * b > 0 && x / (a * b) == x / a / b
  {
    var q, r := x / a, x % a;
    var h, l := q / b, q % b;
    assert x == q * a + r && q == h * b + l;
    assert q * a == h * (a * b) + l * a by { Assoc(h, b, a); }
    MulGe(b - 1, l, a);
    assert l * a + r < a * b;
    DivModUnique(x, h, l * a + r, a * b);
  }

  lemma LowBits(z: nat, h: nat, p: nat, q: nat)
    requires p > 0 && q % 2 == 0 && p * q == 0x100
    ensures (z + 0x100 * h) / p % 2 == z / p % 2
  {
    var a, r := z / p, z % p;
    assert z == a * p + r;
    assert 0x100 * h == (q * h) * p;
    DivModUnique(z + 0x100 * h, a + q * h, r, p);
    assert q == 2 * (q / 2);
    assert q * h == 2 * (q / 2 * h);
  }

  lemma SplitQuotient(k: int, low: int, high: int, w: int)
    requires 0 <= low < w && k == low + w * high
    ensures k / w == high
  {
    DivModUnique(k, high, low, w);
  }

  lemma ByteQuotient(z: seq<u8>, j: nat)
    requires j < |z|
    ensures Le(z) >= 0 && Le(z[j + 1..]) >= 0
    ensures Le(z) / Pow2(8 * j) == z[j] + 0x100 * Le(z[j + 1..])
  {
    var x, y := z[..j], z[j..];
    assert z == x + y;
    LeConcat(x, y);
    assert y[1..] == z[j + 1..];
    Radix.Low(0x100, y, |y|);
    assert Le(y) == z[j] + 0x100 * Le(z[j + 1..]);
    LeBound(x);
    LeBound(z[j + 1..]);
    LeBound(z);
    BytesAreBits(j);
    SplitQuotient(Le(z), Le(x), Le(y), Pow2(8 * j));
  }

  lemma ShiftedBit(k: nat, w: nat, r: nat, z: nat, h: nat)
    requires w > 0 && r < 8 && k / w == z + 0x100 * h
    ensures w * Pow2(r) > 0 && k / (w * Pow2(r)) % 2 == z / Pow2(r) % 2
  {
    DivDiv(k, w, Pow2(r));
    PowersOfEight(r);
    LowBits(z, h, Pow2(r), Pow2(8 - r));
  }

  lemma PowersOfEight(r: nat)
    requires r < 8
    ensures Pow2(r) * Pow2(8 - r) == 0x100 && Pow2(8 - r) % 2 == 0
  {
    Pow2Add(r, 8 - r);
    assert Pow2(8) == 0x100;
    assert Pow2(8 - r) == 2 * Pow2(7 - r);
  }

  /** Bit i of the scalar is bit i mod 8 of byte i div 8. */
  lemma ScalarBit(z: seq<u8>, i: nat)
    requires i < 8 * |z|
    ensures Le(z) >= 0
    ensures Bit(Le(z), i) <==> z[i / 8] / Pow2(i % 8) % 2 == 1
  {
    var j, r: nat := i / 8, i % 8;
    ByteQuotient(z, j);
    ShiftedBit(Le(z), Pow2(8 * j), r, z[j], Le(z[j + 1..]));
    Pow2Add(8 * j, r);
    assert i == 8 * j + r;
  }

  /** The scalar clamped as section 5 of RFC 7748 decodes it. */
  function Clamp(scalar: seq<u8>): (z: seq<u8>)
    requires |scalar| == 32
    ensures |z| == 32
  {
    scalar[31 := scalar[31] % 0x40 + 0x40][0 := scalar[0] - scalar[0] % 8]
  }

  /** The coordinate with its top bit masked. */
  function Masked(point: seq<u8>): (z: seq<u8>)
    requires |point| == 32
    ensures |z| == 32
  {
    point[31 := point[31] % 0x80]
  }

  ghost function DecodeScalar(scalar: seq<u8>): nat
    requires |scalar| == 32
  {
    LeBound(Clamp(scalar));
    Le(Clamp(scalar))
  }

  lemma ByteChanged(z: seq<u8>, i: nat, v: u8, w: int)
    requires |z| == 32 && i < 32 && w == Pow(0x100, i)
    ensures Le(z[i := v]) == Le(z) + (v - z[i]) * w
  {
    Radix.Update(0x100, z, i, v, 32);
  }

  lemma TopAndRest(z: seq<u8>, w: int, n: nat)
    requires |z| == 32 && n == 31 && w == Pow(0x100, n)
    ensures Le(z) == Le(z[..n]) + z[n] * w && 0 <= Le(z[..n]) < w
  {
    Radix.Frame(0x100, z, z[..n], n);
    LeBound(z[..n]);
  }

  lemma TopWeight(n: nat, k: nat)
    requires n == 31 && k <= 8
    ensures Pow2(248 + k) == Pow2(k) * Pow(0x100, n)
  {
    hide Pow;
    hide Pow2;
    BytesAreBits(n);
    var m: nat := 8 * n;
    assert m == 248;
    Pow2Add(m, k);
  }

  /** Clamping as a number: the low three bits off, bit 254 on, nothing above. */
  lemma ClampedNumber(scalar: seq<u8>, t: nat)
    requires |scalar| == 32 && t == 254
    ensures DecodeScalar(scalar) == Le(scalar) % Pow2(t) - Le(scalar) % 8 + Pow2(t)
  {
    var n, z: nat := 31, 0;
    var w, top, a, b := Pow(0x100, n), scalar[31], scalar[31] % 0x40 + 0x40, scalar[0] - scalar[0] % 8;
    ByteChanged(scalar, n, a, w);
    assert Pow(0x100, z) == 1;
    ByteChanged(scalar[n := a], z, b, 1);
    LowThree(scalar);
    TopAndRest(scalar, w, n);
    TopWeight(n, 6);
    assert Pow2(6) == 0x40;
    hide Pow;
    hide Pow2;
    hide Le;
    ModTop(Le(scalar[..n]), top, w, 0x40);
    ClampSum(Le(scalar), Le(scalar[..n]), top, w, scalar[0]);
  }

  lemma ClampSum(all: int, low: int, top: int, w: int, first: int)
    requires all == low + top * w
    ensures all + (top % 0x40 + 0x40 - top) * w + (first - first % 8 - first) * 1
         == low + (top % 0x40) * w - first % 8 + 0x40 * w
  {}

  lemma MaskedNumber(point: seq<u8>, t: nat)
    requires |point| == 32 && t == 255
    ensures Le(Masked(point)) == Le(point) % Pow2(t)
  {
    var n: nat := 31;
    var w, top := Pow(0x100, n), point[31];
    ByteChanged(point, n, top % 0x80, w);
    TopAndRest(point, w, n);
    TopWeight(n, 7);
    assert Pow2(7) == 0x80;
    hide Pow;
    hide Pow2;
    hide Le;
    ModTop(Le(point[..n]), top, w, 0x80);
    MaskSum(Le(point), Le(point[..n]), top, w);
  }

  lemma MaskSum(all: int, low: int, top: int, w: int)
    requires all == low + top * w
    ensures all + (top % 0x80 - top) * w == low + (top % 0x80) * w
  {}

  lemma LowThree(z: seq<u8>)
    requires |z| == 32
    ensures Le(z) % 8 == z[0] % 8
  {
    Radix.Low(0x100, z, 32);
    var h, a := Le(z[1..]), z[0];
    assert Le(z) == a + 0x100 * h;
    DivModUnique(a + 0x100 * h, a / 8 + 0x20 * h, a % 8, 8);
  }

  lemma ModTop(low: int, top: int, w: int, n: int)
    requires 0 <= low < w && top >= 0 && n > 0
    ensures n * w > 0 && (low + top * w) % (n * w) == low + (top % n) * w
  {
    var q, r := top / n, top % n;
    assert top * w == q * (n * w) + r * w by {
      assert (q * n + r) * w == (q * n) * w + r * w;
      Assoc(q, n, w);
    }
    MulGe(n - 1, r, w);
    MulGe(r, 0, w);
    assert (n - 1) * w == n * w - w;
    DivModUnique(low + top * w, q, low + r * w, n * w);
  }

  lemma ClampedRange(scalar: seq<u8>, t: nat)
    requires |scalar| == 32 && t == 254
    ensures Pow2(t) <= DecodeScalar(scalar) < 2 * Pow2(t)
  {
    ClampedNumber(scalar, t);
    LeBound(scalar);
    var x, p := Le(scalar), Pow2(t);
    Pow2Add(3, 251);
    var e := Pow2(251);
    assert p == 8 * e by { assert Pow2(3) == 8; }
    hide Pow2;
    EighthLow(x, e);
  }

  lemma EighthLow(x: int, e: int)
    requires e > 0
    ensures x % 8 <= x % (8 * e)
  {
    var p := 8 * e;
    var q, r := x / p, x % p;
    assert x == q * p + r && q * p == (q * e) * 8;
    DivModUnique(x, q * e + r / 8, r % 8, 8);
  }

  // ---- the whole function ----------------------------------------------------------------

  lemma Constants(s: seq<i64>, v: i64)
    requires |s| == 16 && (v == 0 || v == 1) && s[0] == v && forall i :: 0 < i < 16 ==> s[i] == 0
    ensures Tight(s, v)
  {
    LLow(s, 16);
    LZeros(s[1..], 15);
    ModSmall(v, P);
  }

  /** The 255 iterations, from the top bit down. */
  method RunLadder(z: seq<u8>, x: seq<i64>, ghost u: int) returns (a: array<i64>, c: array<i64>, ghost r: Ladder)
    requires |z| == 32 && Le(z) >= 0 && Tight(x, u)
    ensures fresh(a) && fresh(c) && a != c && a.Length == 16 && c.Length == 16
    ensures r == CodeLoop(Le(z), u, 255, Ladder(1, 0, u, 1))
    ensures Tight(a[..], r.x2) && Tight(c[..], r.z2)
  {
    a := new i64[16](k => if k == 0 then 1 else 0);
    var b := new i64[16](k requires 0 <= k < 16 => x[k]);
    c := new i64[16](_ => 0);
    var d := new i64[16](k => if k == 0 then 1 else 0);
    var e := new i64[16];
    var f := new i64[16];
    Constants(a[..], 1);
    Constants(c[..], 0);
    Constants(d[..], 1);
    assert b[..] == x;
    TightIsLoose(x, u);
    ghost var s := Ladder(1, 0, u, 1);
    ghost var k: nat := Le(z);
    r := CodeLoop(k, u, 255, s);
    var i: nat := 255;
    while i > 0
      invariant 0 <= i <= 255
      invariant Holds(a, b, c, d, s)
      invariant CodeLoop(k, u, i, s) == r
    {
      i := i - 1;
      var bit: i64 := z[i / 8] / Pow2(i % 8) % 2;
      ScalarBit(z, i);
      Iterate(a, b, c, d, e, f, x, bit, u, s);
      s := SwapStep(u, s, bit == 1);
    }
  }

  lemma PowResidue(x: int, v: int, e: nat, m: int)
    requires m > 0 && x % m == v
    ensures Pow(x, e) % m == Pow(v, e) % m
  {
    ModMod(x, m);
    CongPow(x, v, e, m);
  }

  /** The end of x25519: z2 inverted, multiplied in, packed. */
  method Finish(a: array<i64>, c: array<i64>, ghost x2: int, ghost z2: int) returns (out: seq<u8>)
    requires a.Length == 16 && c.Length == 16 && a != c && Tight(a[..], x2) && Tight(c[..], z2)
    modifies a, c
    ensures |out| == 32 && Le(out) == F(x2 * Pow(z2, P - 2))
  {
    TightIsLoose(a[..], x2);
    TightIsLoose(c[..], z2);
    ghost var zv := Elem(c[..]);
    Inv(c, c[..]);
    ghost var e: nat := P - 2;
    PowResidue(zv, z2, e, P);
    TightIsLoose(c[..], F(Pow(z2, e)));
    Mul(a, a[..], c[..], x2, F(Pow(z2, e)));
    ModMod(Pow(z2, e), P);
    CongMul(x2, x2, F(Pow(z2, e)), Pow(z2, e), P);
    out := Pack(a[..]);
  }

  /** The RFC's result is the coordinate of the multiple by the clamped scalar's number. */
  lemma ByNumber(scalar: seq<u8>, point: seq<u8>, t: nat)
    requires |scalar| == 32 && |point| == 32 && t == 254
    ensures var k := Le(scalar) % Pow2(t) - Le(scalar) % 8 + Pow2(t);
            && k > 0
            && (var r := Multiples(k, Le(point) % Pow2(t + 1) % P);
                RfcX25519(DecodeScalar(scalar), Le(Masked(point))) == r.x2 * Pow(r.z2, P - 2) % P)
  {
    hide Step;
    hide Multiples;
    hide RfcLoop;
    hide CodeLoop;
    hide Pow;
    hide Le;
    ClampedNumber(scalar, t);
    ClampedRange(scalar, t);
    MaskedNumber(point, t + 1);
    hide Pow2;
    var k, u := DecodeScalar(scalar), Le(point) % Pow2(t + 1) % P;
    LadderByNumber(k, u, t);
    LoopsAgree(k, u, t + 1, Ladder(1, 0, u, 1), false);
  }

  /** x25519: for every scalar and point, exactly the RFC's value, packed canonically. */
  method Multiply(scalar: seq<u8>, point: seq<u8>) returns (out: seq<u8>)
    requires |scalar| == 32 && |point| == 32
    ensures |out| == 32 && Le(out) == RfcX25519(DecodeScalar(scalar), Le(Masked(point)))
  {
    var z := Clamp(scalar);
    LeBound(z);
    var x := new i64[16];
    Unpack(x, point);
    ghost var u := F(Elem(x[..]));
    var a, c, r := RunLadder(z, x[..], u);
    LoopsAgree(Le(z), u, 255, Ladder(1, 0, u, 1), false);
    out := Finish(a, c, r.x2, r.z2);
  }

  /** The same as a multiple: the coordinate that the pair for the clamped scalar's number has first. */
  method X25519(scalar: seq<u8>, point: seq<u8>) returns (out: seq<u8>)
    requires |scalar| == 32 && |point| == 32
    ensures |out| == 32 && Le(out) == RfcX25519(DecodeScalar(scalar), Le(Masked(point)))
    ensures var k := Le(scalar) % Pow2(254) - Le(scalar) % 8 + Pow2(254);
            k > 0 && (var r := Multiples(k, Le(point) % Pow2(255) % P); Le(out) == r.x2 * Pow(r.z2, P - 2) % P)
  {
    hide *;
    out := Multiply(scalar, point);
    ByNumber(scalar, point, 254);
  }
}

/** Powers, congruences and the quotient-remainder facts every limb proof rests on. */
module Arith {

  function Pow(b: int, e: nat): int
    decreases b, e
  {
    if e == 0 then 1 else b * Pow(b, e - 1)
  }

  lemma {:induction false} PowPositive(b: int, e: nat)
    requires b > 0
    ensures Pow(b, e) > 0
  {
    if e > 0 { PowPositive(b, e - 1); }
  }

  lemma {:induction false} PowAdd(b: int, x: nat, y: nat)
    ensures Pow(b, x + y) == Pow(b, x) * Pow(b, y)
  {
    if x == 0 {
    } else {
      PowAdd(b, x - 1, y);
      Assoc(b, Pow(b, x - 1), Pow(b, y));
      assert Pow(b, x + y) == b * Pow(b, x - 1 + y);
    }
  }

  lemma {:induction false} PowMul(b: int, x: nat, y: nat)
    ensures x * y >= 0
    ensures Pow(b, x * y) == Pow(Pow(b, x), y)
  {
    if y == 0 {
    } else {
      PowMul(b, x, y - 1);
      assert x * y == x + x * (y - 1);
      PowAdd(b, x, x * (y - 1));
    }
  }

  /** Powers of two, always positive. */
  function Pow2(k: nat): (r: nat)
    ensures r > 0
  {
    if k == 0 then 1 else 2 * Pow2(k - 1)
  }

  lemma {:induction false} Pow2IsPow(k: nat)
    ensures Pow2(k) == Pow(2, k)
  {
    if k > 0 { Pow2IsPow(k - 1); }
  }

  lemma Pow2Add(j: nat, k: nat)
    ensures Pow2(j + k) == Pow2(j) * Pow2(k)
  {
    Pow2IsPow(j);
    Pow2IsPow(k);
    Pow2IsPow(j + k);
    PowAdd(2, j, k);
  }

  /** Two known powers of two multiply. */
  lemma Pow2Known(j: nat, k: nat, x: nat, y: nat)
    requires Pow2(j) == x && Pow2(k) == y
    ensures Pow2(j + k) == x * y
  {
    Pow2Add(j, k);
  }

  lemma TwoTo16(b: nat)
    requires b == 16
    ensures Pow2(b) == 0x1_0000
  {
    Pow2Known(8, 8, 0x100, 0x100);
  }

  lemma TwoTo32(c: nat)
    requires c == 32
    ensures Pow2(c) == 0x1_0000_0000
  {
    var b: nat := 16;
    TwoTo16(b);
    Pow2Known(b, b, 0x1_0000, 0x1_0000);
  }

  lemma TwoTo64(d: nat)
    requires d == 64
    ensures Pow2(d) == 0x1_0000_0000_0000_0000
  {
    var c: nat := 32;
    TwoTo32(c);
    Pow2Known(c, c, 0x1_0000_0000, 0x1_0000_0000);
  }

  lemma Assoc(a: int, b: int, c: int)
    ensures a * (b * c) == (a * b) * c
  {}

  /** `r` is the remainder and `q` the quotient as soon as they look like it. */
  lemma DivModUnique(x: int, q: int, r: int, m: int)
    requires m > 0 && 0 <= r < m && x == q * m + r
    ensures x / m == q && x % m == r
  {
    var q', r' := x / m, x % m;
    assert x == q' * m + r';
    assert (q - q') * m == r' - r;
    if q > q' {
      MulGe(q - q', 1, m);
    } else if q < q' {
      MulGe(q' - q, 1, m);
    }
  }

  lemma MulGe(a: int, b: int, m: int)
    requires a >= b && m >= 0
    ensures a * m >= b * m
  {}

  /** Congruence modulo `m`. */
  ghost predicate Cong(a: int, b: int, m: int)
    requires m > 0
  {
    a % m == b % m
  }

  /** A multiple of `m` may be added on either side. */
  lemma CongMultiple(a: int, b: int, k: int, m: int)
    requires m > 0 && a == b + k * m
    ensures Cong(a, b, m)
  {
    var q, r := b / m, b % m;
    assert a == (q + k) * m + r;
    DivModUnique(a, q + k, r, m);
  }

  /** The multiple behind a congruence. */
  lemma CongWitness(a: int, b: int, m: int) returns (k: int)
    requires m > 0 && Cong(a, b, m)
    ensures a == b + k * m
  {
    k := a / m - b / m;
    assert a == (a / m) * m + a % m;
    assert b == (b / m) * m + b % m;
    assert k * m == (a / m) * m - (b / m) * m;
  }

  lemma CongAdd(a: int, b: int, c: int, d: int, m: int)
    requires m > 0 && Cong(a, b, m) && Cong(c, d, m)
    ensures Cong(a + c, b + d, m)
  {
    var k := CongWitness(a, b, m);
    var l := CongWitness(c, d, m);
    assert a + c == b + d + (k + l) * m;
    CongMultiple(a + c, b + d, k + l, m);
  }

  lemma CongSub(a: int, b: int, c: int, d: int, m: int)
    requires m > 0 && Cong(a, b, m) && Cong(c, d, m)
    ensures Cong(a - c, b - d, m)
  {
    var k := CongWitness(a, b, m);
    var l := CongWitness(c, d, m);
    assert a - c == b - d + (k - l) * m;
    CongMultiple(a - c, b - d, k - l, m);
  }

  lemma CongMul(a: int, b: int, c: int, d: int, m: int)
    requires m > 0 && Cong(a, b, m) && Cong(c, d, m)
    ensures Cong(a * c, b * d, m)
  {
    var k := CongWitness(a, b, m);
    var l := CongWitness(c, d, m);
    var w := b * l + k * d + k * l * m;
    ProductExpand(b, k, d, l, m);
    CongMultiple(a * c, b * d, w, m);
  }

  lemma ProductExpand(b: int, k: int, d: int, l: int, m: int)
    ensures (b + k * m) * (d + l * m) == b * d + (b * l + k * d + k * l * m) * m
  {
    calc {
      (b + k * m) * (d + l * m);
      b * d + b * (l * m) + (k * m) * d + (k * m) * (l * m);
      { Assoc(b, l, m); Assoc(k, m, d); Assoc(k, d, m); Assoc(k * m, l, m); Assoc(k, m, l); Assoc(k, l, m); }
      b * d + (b * l) * m + (k * d) * m + (k * l * m) * m;
      b * d + (b * l + k * d + k * l * m) * m;
    }
  }

  lemma ModSmall(a: int, m: int)
    requires 0 <= a < m
    ensures a % m == a
  {
    DivModUnique(a, 0, a, m);
  }

  lemma ModMod(a: int, m: int)
    requires m > 0
    ensures Cong(a % m, a, m)
  {
    ModSmall(a % m, m);
  }

  lemma {:induction false} CongPow(a: int, b: int, e: nat, m: int)
    requires m > 0 && Cong(a, b, m)
    ensures Cong(Pow(a, e), Pow(b, e), m)
  {
    if e > 0 {
      CongPow(a, b, e - 1, m);
      CongMul(a, b, Pow(a, e - 1), Pow(b, e - 1), m);
    }
  }
}

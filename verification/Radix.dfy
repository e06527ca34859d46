/** Numbers as limb sequences in any radix, limbs signed or not, least significant first. */
module Radix {
  import opened Arith

  /** What the first n limbs spell in radix b. */
  ghost function Value(b: int, s: seq<int>, n: nat): int
    requires n <= |s|
  {
    if n == 0 then 0 else Value(b, s, n - 1) + s[n - 1] * Pow(b, n - 1)
  }

  lemma {:induction false} Frame(b: int, s: seq<int>, t: seq<int>, n: nat)
    requires n <= |s| && n <= |t| && forall k :: 0 <= k < n ==> s[k] == t[k]
    ensures Value(b, s, n) == Value(b, t, n)
  {
    if n > 0 { Frame(b, s, t, n - 1); }
  }

  lemma {:induction false} Update(b: int, s: seq<int>, i: nat, v: int, n: nat)
    requires i < n <= |s|
    ensures Value(b, s[i := v], n) == Value(b, s, n) + (v - s[i]) * Pow(b, i)
  {
    if i == n - 1 {
      Frame(b, s, s[i := v], i);
      assert (v - s[i]) * Pow(b, i) == v * Pow(b, i) - s[i] * Pow(b, i);
    } else {
      Update(b, s, i, v, n - 1);
    }
  }

  lemma {:induction false} Zeros(b: int, s: seq<int>, n: nat)
    requires n <= |s| && forall k :: 0 <= k < n ==> s[k] == 0
    ensures Value(b, s, n) == 0
  {
    if n > 0 { Zeros(b, s, n - 1); }
  }

  /** Limbs that are all zero above k spell what the low k spell. */
  lemma {:induction false} HighZeros(b: int, s: seq<int>, k: nat, n: nat)
    requires k <= n <= |s| && forall i :: k <= i < n ==> s[i] == 0
    ensures Value(b, s, n) == Value(b, s, k)
  {
    if n > k { HighZeros(b, s, k, n - 1); }
  }

  /** Digits stay below the radix's power. */
  lemma {:induction false} DigitsBound(b: int, s: seq<int>, n: nat)
    requires b > 0 && n <= |s| && forall i :: 0 <= i < n ==> 0 <= s[i] < b
    ensures 0 <= Value(b, s, n) < Pow(b, n)
  {
    if n > 0 {
      DigitsBound(b, s, n - 1);
      PowPositive(b, n - 1);
      MulGe(s[n - 1], 0, Pow(b, n - 1));
      MulGe(b - 1, s[n - 1], Pow(b, n - 1));
      assert (b - 1) * Pow(b, n - 1) == Pow(b, n) - Pow(b, n - 1);
    }
  }

  /** Signed limbs of magnitude c: (b - 1) * |value| <= c * (b^n - 1). */
  lemma {:induction false} MagnitudeBound(b: int, s: seq<int>, c: int, n: nat)
    requires b > 1 && n <= |s| && c >= 0 && forall i :: 0 <= i < n ==> -c <= s[i] <= c
    ensures -(c * (Pow(b, n) - 1)) <= (b - 1) * Value(b, s, n) <= c * (Pow(b, n) - 1)
  {
    if n > 0 {
      MagnitudeBound(b, s, c, n - 1);
      PowPositive(b, n - 1);
      MagnitudeStep(b, Value(b, s, n - 1), s[n - 1], c, Pow(b, n - 1));
    }
  }

  lemma MagnitudeStep(b: int, v: int, x: int, c: int, w: int)
    requires b > 1 && w > 0 && -c <= x <= c
    requires -(c * (w - 1)) <= (b - 1) * v <= c * (w - 1)
    ensures -(c * (b * w - 1)) <= (b - 1) * (v + x * w) <= c * (b * w - 1)
  {
    var u := (b - 1) * w;
    MulGe(x, -c, u);
    MulGe(c, x, u);
    assert (b - 1) * (x * w) == x * u by { Assoc(b - 1, x, w); Assoc(x, b - 1, w); }
    assert (b - 1) * (v + x * w) == (b - 1) * v + (b - 1) * (x * w);
    assert b * w - 1 == (w - 1) + u;
    assert c * ((w - 1) + u) == c * (w - 1) + c * u;
    assert -c * u == -(c * u);
  }

  /** The lowest limb against the rest. */
  lemma {:induction false} Low(b: int, s: seq<int>, n: nat)
    requires 0 < n <= |s|
    ensures Value(b, s, n) == s[0] + b * Value(b, s[1..], n - 1)
  {
    if n > 1 {
      Low(b, s, n - 1);
      Assoc(s[n - 1], b, Pow(b, n - 2));
      Assoc(b, s[n - 1], Pow(b, n - 2));
    } else {
      assert Pow(b, 0) == 1;
    }
  }

  /** Low limbs and high limbs. */
  lemma {:induction false} Split(b: int, s: seq<int>, k: nat, n: nat)
    requires k <= n <= |s|
    ensures Value(b, s, n) == Value(b, s, k) + Pow(b, k) * Value(b, s[k..], n - k)
  {
    if n > k {
      Split(b, s, k, n - 1);
      PowAdd(b, k, n - 1 - k);
      SplitAlgebra(Pow(b, k), Pow(b, n - 1 - k), s[n - 1], Value(b, s[k..], n - 1 - k));
    }
  }

  lemma SplitAlgebra(p: int, q: int, y: int, z: int)
    ensures p * (z + y * q) == p * z + y * (p * q)
  {
    Assoc(p, y, q);
    Assoc(y, p, q);
  }

  /** Adding x * y into column i + j of a schoolbook product. */
  lemma ProductCell(b: int, t: seq<int>, i: nat, j: nat, x: int, y: int, n: nat)
    requires i + j < n <= |t|
    ensures Value(b, t[i + j := t[i + j] + x * y], n) == Value(b, t, n) + (x * Pow(b, i)) * (y * Pow(b, j))
  {
    Update(b, t, i + j, t[i + j] + x * y, n);
    PowAdd(b, i, j);
    ProductCellAlgebra(x, y, Pow(b, i), Pow(b, j));
  }

  lemma ProductCellAlgebra(x: int, y: int, u: int, v: int)
    ensures (x * y) * (u * v) == (x * u) * (y * v)
  {
    Assoc(x, y, u * v);
    Assoc(y, u, v);
    Assoc(u, y, v);
    Assoc(x, u, y * v);
  }

  /** Limb-wise c = a + x * d. */
  lemma {:induction false} Sum(b: int, a: seq<int>, d: seq<int>, c: seq<int>, x: int, n: nat)
    requires n <= |a| && n <= |d| && n <= |c|
    requires forall i :: 0 <= i < n ==> c[i] == a[i] + x * d[i]
    ensures Value(b, c, n) == Value(b, a, n) + x * Value(b, d, n)
  {
    if n > 0 {
      Sum(b, a, d, c, x, n - 1);
      SumAlgebra(Value(b, d, n - 1), a[n - 1], d[n - 1], x, Pow(b, n - 1));
    }
  }

  lemma SumAlgebra(v: int, a: int, d: int, x: int, w: int)
    ensures (a + x * d) * w + x * v == a * w + x * (v + d * w)
  {
    Assoc(x, d, w);
  }

  lemma TopDigit(u: int, v: int, x: int, y: int, w: int)
    requires 0 <= u < w && 0 <= v && x < y
    ensures u + x * w < v + y * w
  {
    MulGe(y, x + 1, w);
  }

  /** The first digit from the top that differs decides. */
  lemma Compare(b: int, s: seq<int>, t: seq<int>, i: nat, n: nat)
    requires b > 0 && i < n <= |s| && n <= |t|
    requires forall k :: 0 <= k < n ==> 0 <= s[k] < b && 0 <= t[k] < b
    requires s[i] < t[i] && forall k :: i < k < n ==> s[k] == t[k]
    ensures Value(b, s, n) < Value(b, t, n)
    decreases n - i
  {
    if n == i + 1 {
      DigitsBound(b, s, i);
      DigitsBound(b, t, i);
      TopDigit(Value(b, s, i), Value(b, t, i), s[i], t[i], Pow(b, i));
    } else {
      Compare(b, s, t, i, n - 1);
    }
  }

  /** Equal values mean equal digits. */
  lemma {:induction false} Injective(b: int, s: seq<int>, t: seq<int>, n: nat)
    requires b > 0 && n <= |s| && n <= |t| && Value(b, s, n) == Value(b, t, n)
    requires forall k :: 0 <= k < n ==> 0 <= s[k] < b && 0 <= t[k] < b
    ensures forall k :: 0 <= k < n ==> s[k] == t[k]
  {
    if n > 0 {
      if s[n - 1] < t[n - 1] {
        Compare(b, s, t, n - 1, n);
      } else if t[n - 1] < s[n - 1] {
        Compare(b, t, s, n - 1, n);
      }
      Injective(b, s, t, n - 1);
    }
  }
}

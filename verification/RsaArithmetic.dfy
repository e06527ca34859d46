/** The rest of rsa.c's word arithmetic: full products, small remainders and quotients, Euclid's inverse. */
module RsaArithmetic {
  import opened Arith
  import opened Machine
  import opened Words
  import opened Montgomery

  // ---- mul_full -------------------------------------------------------------

  ghost predicate ProductRowDone(r0: seq<int>, r: seq<int>, b: seq<int>, x: int, c: int, i: nat, j: nat)
    requires j <= |b| && i + j <= |r| == |r0|
  {
    && (forall k :: i + j <= k < |r| ==> r[k] == r0[k])
    && V(r, i + j) + c * W(i + j) == V(r0, i + j) + (x * V(b, j)) * W(i)
  }

  lemma ProductRowStep(r0: seq<int>, r: seq<int>, b: seq<int>, x: int, c: int, i: nat, j: nat, s: int)
    requires j < |b| && i + j < |r| == |r0| && ProductRowDone(r0, r, b, x, c, i, j)
    requires s == x * b[j] + r[i + j] + c
    ensures ProductRowDone(r0, r[i + j := s % BASE], b, x, s / BASE, i, j + 1)
  {
    var k := i + j;
    var r' := r[k := s % BASE];
    VFrame(r, r', k);
    WStep(k);
    SplitWord(s, W(k));
    PowAdd(BASE, j, i);
    ProductRowAlgebra(V(r0, k), x, V(b, j), b[j], W(i), W(j), r0[k], c);
  }

  lemma ProductRowAlgebra(v: int, x: int, vb: int, y: int, wi: int, wj: int, z: int, c: int)
    ensures (v + (x * vb) * wi - c * (wj * wi)) + (x * y + z + c) * (wj * wi)
         == (v + z * (wj * wi)) + (x * (vb + y * wj)) * wi
  {
    calc {
      (x * (vb + y * wj)) * wi;
      (x * vb) * wi + (x * (y * wj)) * wi;
      { Assoc(x, y, wj); Assoc(x * y, wj, wi); }
      (x * vb) * wi + (x * y) * (wj * wi);
    }
    assert (x * y + z + c) * (wj * wi) == (x * y) * (wj * wi) + z * (wj * wi) + c * (wj * wi);
  }

  lemma ProductRowEnd(r0: seq<int>, r: seq<int>, b: seq<int>, x: int, c: int, i: nat, va: int, k: nat)
    requires k == i + |b| < |r| == |r0| && ProductRowDone(r0, r, b, x, c, i, |b|)
    requires V(r0, k) == va * V(b, |b|)
    ensures V(r[k := c], k + 1) == (va + x * W(i)) * V(b, |b|)
  {
    var vb := V(b, |b|);
    VFrame(r, r[k := c], k);
    RowEndAlgebra(va, x, vb, W(i));
  }

  lemma RowEndAlgebra(va: int, x: int, vb: int, w: int)
    ensures va * vb + (x * vb) * w == (va + x * w) * vb
  {
    assert (x * vb) * w == (x * w) * vb;
  }

  /** One row: r[i..] += x * b, the carry stored at r[i + |b|]. */
  method MulRow(r: array<u32>, b: seq<u32>, x: u32, i: nat, ghost va: int)
    requires i + |b| < r.Length && V(r[..], i + |b|) == va * V(b, |b|)
    modifies r
    ensures V(r[..], i + |b| + 1) == (va + x * W(i)) * V(b, |b|)
    ensures forall k :: i + |b| < k < r.Length ==> r[k] == old(r[k])
  {
    ghost var r0 := r[..];
    var c: u32 := 0;
    var j := 0;
    while j < |b|
      invariant 0 <= j <= |b|
      invariant ProductRowDone(r0, r[..], b, x, c, i, j)
    {
      ProductFits(x, b[j], r[i + j], c);
      var s: u64 := x * b[j] + r[i + j] + c;
      ProductRowStep(r0, r[..], b, x, c, i, j, s);
      r[i + j] := s % BASE;
      c := s / BASE;
      j := j + 1;
    }
    ProductRowEnd(r0, r[..], b, x, c, i, va, i + |b|);
    r[i + |b|] := c;
  }

  /** mul_full: r (2n words) = a * b. */
  method MulFull(a: seq<u32>, b: seq<u32>) returns (r: array<u32>)
    requires |a| == |b|
    ensures fresh(r) && r.Length == 2 * |a|
    ensures V(r[..], 2 * |a|) == Val(a) * Val(b)
  {
    var n := |a|;
    r := new u32[2 * n](_ => 0);
    VZeros(r[..], n);
    var i := 0;
    while i < n
      invariant 0 <= i <= n
      invariant V(r[..], i + n) == V(a, i) * V(b, n)
    {
      MulRow(r, b, a[i], i, V(a, i));
      i := i + 1;
    }
  }

  // ---- mod_small and the division by e ---------------------------------------

  lemma HornerRemainder(z: nat, rem: int, word: u32, m: int)
    requires 0 < m && rem == z % m
    ensures (rem * BASE + word) % m == (word + BASE * z) % m
  {
    ModMod(z, m);
    CongMul(rem, z, BASE, BASE, m);
    CongAdd(rem * BASE, z * BASE, word, word, m);
  }

  /** mod_small: the value modulo a small number. */
  method ModSmallWord(a: seq<u32>, m: u32) returns (r: u32)
    requires m > 0
    ensures r == Val(a) % m
  {
    var rem: u64 := 0;
    var i := |a|;
    while i > 0
      invariant 0 <= i <= |a|
      invariant rem == WordsFrom(a, i) % m
    {
      i := i - 1;
      HornerRemainder(WordsFrom(a, i + 1), rem, a[i], m);
      rem := (rem * BASE + a[i]) % m;
    }
    WordsAreValue(a, 0);
    r := rem;
  }

  ghost predicate QuotientDone(t0: seq<u32>, t: seq<u32>, e: int, rem: int, i: nat)
    requires i <= |t| == |t0|
  {
    && (forall k :: 0 <= k < i ==> t[k] == t0[k])
    && WordsFrom(t0, i) == e * WordsFrom(t, i) + rem
  }

  lemma {:induction false} WordsFromFrame(s: seq<u32>, t: seq<u32>, i: nat)
    requires |s| == |t| && i <= |s| && forall k :: i <= k < |s| ==> s[k] == t[k]
    ensures WordsFrom(s, i) == WordsFrom(t, i)
    decreases |s| - i
  {
    if i < |s| { WordsFromFrame(s, t, i + 1); }
  }

  lemma QuotientFits(rem: int, word: u32, e: u32)
    requires 0 <= rem < e
    ensures 0 <= rem * BASE + word < BASE2
    ensures 0 <= (rem * BASE + word) / e < BASE
  {
    var cur := rem * BASE + word;
    var q := cur / e;
    assert cur == q * e + cur % e;
    if q >= BASE { MulGe(q, BASE, e); }
    if q < 0 { MulGe(-1, q, e); }
  }

  lemma QuotientStep(t0: seq<u32>, t: seq<u32>, e: u32, rem: int, i: nat, cur: int)
    requires i < |t| == |t0| && 0 <= rem < e && QuotientDone(t0, t, e, rem, i + 1)
    requires cur == rem * BASE + t[i]
    ensures 0 <= cur / e < BASE
    ensures QuotientDone(t0, t[i := cur / e], e, cur % e, i)
  {
    QuotientFits(rem, t[i], e);
    var t' := t[i := cur / e];
    WordsFromFrame(t, t', i + 1);
    var z := WordsFrom(t, i + 1);
    assert cur == (cur / e) * e + cur % e;
    assert e * (cur / e + BASE * z) == e * (cur / e) + BASE * (e * z) by { Assoc(e, BASE, z); Assoc(BASE, e, z); }
  }

  /** Division in place by a small number, top word first; the remainder returned. */
  method DivideInPlace(t: array<u32>, e: u32) returns (rem: u32)
    requires e > 0
    modifies t
    ensures old(Val(t[..])) == e * Val(t[..]) + rem && rem < e
  {
    ghost var t0 := t[..];
    var r: u64 := 0;
    var i := t.Length;
    while i > 0
      invariant 0 <= i <= t.Length && r < e
      invariant QuotientDone(t0, t[..], e, r, i)
    {
      i := i - 1;
      QuotientFits(r, t[i], e);
      var cur: u64 := r * BASE + t[i];
      QuotientStep(t0, t[..], e, r, i, cur);
      t[i] := cur / e;
      r := cur % e;
    }
    WordsAreValue(t0, 0);
    WordsAreValue(t[..], 0);
    rem := r;
  }

  // ---- phi * j + 1 --------------------------------------------------------------

  ghost predicate ScaleDone(a: seq<int>, t: seq<int>, x: int, c: int, i: nat)
    requires i <= |a| && i <= |t|
  {
    V(t, i) + c * W(i) == x * V(a, i)
  }

  lemma ScaleStep(a: seq<int>, t: seq<int>, x: int, c: int, i: nat, s: int)
    requires i < |a| && i < |t| && ScaleDone(a, t, x, c, i) && s == a[i] * x + c
    ensures ScaleDone(a, t[i := s % BASE], x, s / BASE, i + 1)
  {
    VFrame(t, t[i := s % BASE], i);
    WStep(i);
    SplitWord(s, W(i));
    assert (a[i] * x + c) * W(i) == x * (a[i] * W(i)) + c * W(i) by { Assoc(x, a[i], W(i)); }
    assert x * (V(a, i) + a[i] * W(i)) == x * V(a, i) + x * (a[i] * W(i));
  }

  /** t (one word longer than a) = a * x. */
  method Scale(a: seq<u32>, x: u32) returns (t: array<u32>)
    ensures fresh(t) && t.Length == |a| + 1 && Val(t[..]) == x * Val(a)
  {
    var n := |a|;
    t := new u32[n + 1](_ => 0);
    var c: u32 := 0;
    var i := 0;
    while i < n
      invariant 0 <= i <= n
      invariant ScaleDone(a, t[..], x, c, i)
    {
      ProductFits(a[i], x, 0, c);
      var s: u64 := a[i] * x + c;
      ScaleStep(a, t[..], x, c, i, s);
      t[i] := s % BASE;
      c := s / BASE;
      i := i + 1;
    }
    VFrame(t[..], t[..][n := c], n);
    t[n] := c;
  }

  ghost predicate AddDone(t0: seq<int>, t: seq<int>, x: int, c: int, i: nat)
    requires i <= |t| == |t0|
  {
    && (forall k :: i <= k < |t| ==> t[k] == t0[k])
    && V(t, i) + c * W(i) == V(t0, i) + x
  }

  lemma AddStep(t0: seq<int>, t: seq<int>, x: int, c: int, i: nat)
    requires i < |t| == |t0| && AddDone(t0, t, x, c, i)
    ensures AddDone(t0, t[i := (c + t[i]) % BASE], x, (c + t[i]) / BASE, i + 1)
  {
    VFrame(t, t[i := (c + t[i]) % BASE], i);
    WStep(i);
    SplitWord(c + t[i], W(i));
    assert (c + t[i]) * W(i) == c * W(i) + t[i] * W(i);
  }

  lemma {:induction false} AddStopped(t0: seq<int>, t: seq<int>, x: int, i: nat, n: nat)
    requires i <= n <= |t| == |t0| && AddDone(t0, t, x, 0, i)
    ensures V(t, n) == V(t0, n) + x
  {
    if i < n { AddStopped(t0, t, x, i, n - 1); }
  }

  /** t += x, the carry walking up until it is gone; what carries out is returned. */
  method AddSmall(t: array<u32>, x: u32) returns (carry: u32)
    modifies t
    ensures Val(t[..]) + carry * W(t.Length) == old(Val(t[..])) + x
  {
    ghost var t0 := t[..];
    var c: u64 := x;
    var i := 0;
    assert W(0) == 1;
    while i < t.Length && c != 0
      invariant 0 <= i <= t.Length && c < BASE
      invariant AddDone(t0, t[..], x, c, i)
    {
      AddStep(t0, t[..], x, c, i);
      c := c + t[i];
      t[i] := c % BASE;
      c := c / BASE;
      i := i + 1;
    }
    if c == 0 { AddStopped(t0, t[..], x, i, t.Length); }
    carry := c;
  }

  // ---- inv_small ------------------------------------------------------------------

  ghost predicate Coprime(a: int, m: int) {
    forall d :: d > 1 ==> !(a % d == 0 && m % d == 0)
  }

  /** Extended Euclid's state: coefficients' magnitudes, and whether their signs are flipped. */
  datatype Euclid = Euclid(r: nat, nr: nat, y: nat, x: nat, p: nat, z: nat, flip: bool)
  {
    /** The invariant of the loop: both inputs are recovered, both remainders are combinations. */
    ghost predicate Valid(a: nat, m: nat) {
      && nr < r && x >= 1
      && m == y * nr + x * r
      && a == p * nr + z * r
      && r == (if flip then y * a - p * m else p * m - y * a)
      && nr == (if flip then z * m - x * a else x * a - z * m)
    }

    ghost function Next(): Euclid
      requires nr > 0
    {
      Euclid(nr, r % nr, x, y + r / nr * x, z, p + r / nr * z, !flip)
    }

    /** The signed coefficients the code keeps in t and nt. */
    function T(): int {
      if flip then y else 0 - y
    }

    function Nt(): int {
      if flip then 0 - x else x
    }
  }

  lemma NextRecovers(y: nat, x: nat, r: nat, nr: nat, q: nat, r': nat)
    requires r == q * nr + r'
    ensures x * r' + (y + q * x) * nr == y * nr + x * r
  {
    assert x * r == x * (q * nr) + x * r';
    assert (q * x) * nr == x * (q * nr);
  }

  lemma NextCombines(m: int, a: int, p: int, y: int, x: int, z: int, q: int)
    ensures (p * m - y * a) - q * (x * a - z * m) == (p + q * z) * m - (y + q * x) * a
  {
    assert q * (x * a - z * m) == (q * x) * a - (q * z) * m;
  }

  lemma EuclidStep(a: nat, m: nat, s: Euclid)
    requires s.Valid(a, m) && s.nr > 0
    ensures s.Next().Valid(a, m)
  {
    var q, r' := s.r / s.nr, s.r % s.nr;
    assert s.r == q * s.nr + r';
    assert q >= 0 by { if q < 0 { MulGe(-1, q, s.nr); } }
    NextRecovers(s.y, s.x, s.r, s.nr, q, r');
    NextRecovers(s.p, s.z, s.r, s.nr, q, r');
    NextCombination(a, m, s, q, r');
    var n := s.Next();
    assert n.r == s.nr && n.nr == r' && n.y == s.x && n.x == s.y + q * s.x && n.p == s.z && n.z == s.p + q * s.z;
    assert n.x >= 1 by {
      MulGe(q, 0, s.x);
      if n.x == 0 { MulGe(q, 1, s.x); }
    }
  }

  lemma NextCombination(a: nat, m: nat, s: Euclid, q: int, r': int)
    requires s.Valid(a, m) && s.r == q * s.nr + r'
    ensures r' == if s.flip then (s.y + q * s.x) * a - (s.p + q * s.z) * m
      else (s.p + q * s.z) * m - (s.y + q * s.x) * a
  {
    NextCombines(m, a, s.p, s.y, s.x, s.z, q);
    if s.flip {
      assert q * (s.z * m - s.x * a) == -(q * (s.x * a - s.z * m));
    }
  }

  lemma QuotientBound(m: nat, r: nat, nr: nat, x: nat, y: nat)
    requires nr > 0 && m == y * nr + x * r
    ensures y <= m && 0 <= r / nr <= r && 0 <= r / nr * x <= m
  {
    var q := r / nr;
    assert r == q * nr + r % nr;
    if q < 0 { MulGe(-1, q, nr); }
    MulGe(nr, 1, y);
    MulGe(x, 0, r);
    MulGe(nr, 1, q);
    MulGe(r, q, x);
    MulGe(q, 0, x);
  }

  /** No coefficient outgrows the modulus, so every int64 step is exact. */
  lemma EuclidFits(a: nat, m: nat, s: Euclid)
    requires s.Valid(a, m)
    ensures s.x <= m && s.r <= m
    ensures s.nr > 0 ==> s.y <= m && 0 <= s.r / s.nr <= s.r && 0 <= s.r / s.nr * s.x <= m
  {
    MulGe(s.r, 1, s.x);
    MulGe(s.x, 1, s.r);
    MulGe(s.y, 0, s.nr);
    if s.nr > 0 { QuotientBound(m, s.r, s.nr, s.x, s.y); }
  }

  lemma EuclidEnds(a: nat, m: nat, s: Euclid)
    requires s.Valid(a, m) && s.nr == 0 && m > 1 && Coprime(a, m)
    ensures s.r == 1 && Cong(s.T() * a, 1, m)
  {
    DivModUnique(m, s.x, 0, s.r);
    DivModUnique(a, s.z, 0, s.r);
    if s.flip {
      CongMultiple(s.y * a, 1, s.p, m);
    } else {
      CongMultiple((0 - s.y) * a, 1, 0 - s.p, m);
    }
  }

  /** The code's updates of t, nt, r, nr are this state's successor. */
  lemma NextSigned(s: Euclid)
    requires s.nr > 0
    ensures var q := s.r / s.nr;
            && s.Next().T() == s.Nt()
            && s.Next().Nt() == s.T() - q * s.Nt()
            && s.Next().nr == s.r - q * s.nr
  {
    var q := s.r / s.nr;
    assert q * (0 - s.x) == 0 - q * s.x;
    assert s.r == q * s.nr + s.r % s.nr;
  }

  lemma Normalized(t: int, a: nat, m: nat)
    requires m > 1 && -(m as int) <= t <= m && Cong(t * (a % m), 1, m)
    ensures var u := if t < 0 then t + m else t; 0 <= u < m && (u * a) % m == 1
  {
    var b := a % m;
    ModSmall(1, m);
    if t == m { DivModUnique(t * b, b, 0, m); }
    if t == -(m as int) { DivModUnique(t * b, 0 - b, 0, m); }
    var u := if t < 0 then t + m else t;
    assert (t + m) * b == t * b + b * m;
    CongMultiple(u * b, t * b, if t < 0 then b else 0, m);
    ModMod(a, m);
    CongMul(u, u, b, a, m);
  }

  /** inv_small: a^-1 mod m. */
  method InvSmall(a: u32, m: u32) returns (inv: u32)
    requires m > 1 && Coprime(a % m, m)
    ensures inv < m && (inv * a) % m == 1
  {
    var t: i64, nt: i64, r: i64, nr: i64 := 0, 1, m, a % m;
    ghost var s := Euclid(m, a % m, 0, 1, 1, 0, false);
    while nr != 0
      invariant s.Valid(a % m, m) && s.y <= m
      invariant t == s.T() && nt == s.Nt() && r == s.r && nr == s.nr
      decreases nr
    {
      EuclidFits(a % m, m, s);
      EuclidStep(a % m, m, s);
      EuclidFits(a % m, m, s.Next());
      NextSigned(s);
      var q: i64 := r / nr;
      var tmp: i64 := t - q * nt;
      t := nt;
      nt := tmp;
      tmp := r - q * nr;
      r := nr;
      nr := tmp;
      s := s.Next();
    }
    EuclidEnds(a % m, m, s);
    Normalized(t, a, m);
    if t < 0 {
      t := t + m;
    }
    inv := t;
  }
}

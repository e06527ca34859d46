/** jac_double and jac_add of crypto/p256.c as polynomials over the integers: how far the point they
    give is from the curve, in terms of how far the points they take are. */
module P256Curve {
  import opened Arith

  /** How far (x, y, z) is from Y^2 = X^3 - 3 X Z^4 + b Z^6. */
  ghost function Defect(x: int, y: int, z: int, b: int): int {
    var z4 := (z * z) * (z * z);
    y * y - x * x * x + 3 * x * z4 - b * (z4 * (z * z))
  }

  lemma Mul4(a: int, b: int, c: int, d: int)
    ensures (a * b) * (c * d) == (a * c) * (b * d)
  {
    Assoc(a * b, c, d);
    Assoc(a, b, c);
    Assoc(a, c, b);
    Assoc(a * c, b, d);
  }

  /** The cubic part of the doubling identity. */
  lemma DoublingCubic(q: int, u: int)
    ensures 81 * q * ((4 * u - 3 * q) * (4 * u - 3 * q)) - (9 * q - 8 * u) * ((9 * q - 8 * u) * (9 * q - 8 * u))
      + 48 * (9 * q - 8 * u) * (u * u)
            == 128 * (u * (u * u))
  {
    var uu, qq, qu := u * u, q * q, q * u;
    var s, c := 16 * uu - 24 * qu + 9 * qq, 81 * qq - 144 * qu + 64 * uu;
    var k, m := 4 * u - 3 * q, 9 * q - 8 * u;
    CubicSquares(q, u, k, m, uu, qu, qq);
    CubicTerms(q, uu, qu, qq);
    CubicTerms(u, uu, qu, qq);
    CubicProducts(q, u, m, s, c, uu, qu, qq);
    CubicSum(81 * q * (k * k), m * (m * m), 48 * m * uu, q * uu, qq * u, q * qq, u * uu);
  }

  lemma CubicSquares(q: int, u: int, k: int, m: int, uu: int, qu: int, qq: int)
    requires k == 4 * u - 3 * q && m == 9 * q - 8 * u && uu == u * u && qu == q * u && qq == q * q
    ensures k * k == 16 * uu - 24 * qu + 9 * qq && m * m == 81 * qq - 144 * qu + 64 * uu
  {}

  lemma CubicProducts(q: int, u: int, m: int, s: int, c: int, uu: int, qu: int, qq: int)
    requires m == 9 * q - 8 * u && uu == u * u && qu == q * u && qq == q * q
    ensures 48 * m * uu == 432 * (q * uu) - 384 * (u * uu) && m * c == 9 * (q * c) - 8 * (u * c)
    ensures 81 * q * s == 81 * (q * s) && q * qu == qq * u && u * qu == q * uu && u * qq == qq * u
  {
    assert 48 * m * uu == 48 * (9 * q * uu - 8 * u * uu);
  }

  lemma CubicSum(t: int, v: int, w: int, a: int, b: int, c: int, d: int)
    requires t == 81 * (16 * a - 24 * b + 9 * c)
    requires v == 9 * (81 * c - 144 * b + 64 * a) - 8 * (81 * b - 144 * a + 64 * d)
    requires w == 432 * a - 384 * d
    ensures t - v + w == 128 * d
  {}

  lemma CubicTerms(z: int, uu: int, qu: int, qq: int)
    ensures z * (16 * uu - 24 * qu + 9 * qq) == 16 * (z * uu) - 24 * (z * qu) + 9 * (z * qq)
    ensures z * (81 * qq - 144 * qu + 64 * uu) == 81 * (z * qq) - 144 * (z * qu) + 64 * (z * uu)
  {}

  /** With u = x y^2, h = y^4 and w = x^2 - e: the doubled point against the curve with b eliminated. */
  lemma DoublingCore(e: int, u: int, h: int, x3: int, y3: int)
    requires x3 == 9 * (e * e) - 8 * u && y3 == 3 * e * (12 * u - 9 * (e * e)) - 8 * h
    ensures y3 * y3 - x3 * x3 * x3 + 48 * x3 * (u * u - e * h)
      == 64 * (h * h) - 64 * (u * (u * u)) + 192 * u * (u * u - e * h)
  {
    var q, k, eh := e * e, 4 * u - 3 * (e * e), e * h;
    var a := 9 * (e * k);
    assert y3 == a - 8 * h by { assert 3 * e * (3 * k) == 9 * (e * k); }
    assert a * a == 81 * q * (k * k) by { Mul4(e, k, e, k); }
    DoublingCubic(q, u);
    assert y3 * y3 == a * a - 16 * (h * a) + 64 * (h * h);
    Assoc(x3, x3, x3);
    DoublingLinear(e, u, h, a, x3);
    assert 48 * x3 * (u * u - eh) == 48 * x3 * (u * u) - 48 * x3 * eh;
    assert 192 * u * (u * u - eh) == 192 * (u * (u * u)) - 192 * u * eh;
  }

  lemma DoublingLinear(e: int, u: int, h: int, a: int, x3: int)
    requires a == 9 * (e * (4 * u - 3 * (e * e))) && x3 == 9 * (e * e) - 8 * u
    ensures 16 * (h * a) + 48 * x3 * (e * h) == 192 * u * (e * h)
  {
    var eh := e * h;
    assert h * (e * (4 * u - 3 * (e * e))) == eh * (4 * u - 3 * (e * e));
    assert eh * (4 * u - 3 * (e * e)) == 4 * (u * eh) - 3 * ((e * e) * eh);
    assert x3 * eh == 9 * ((e * e) * eh) - 8 * (u * eh);
  }

  /** jac_double's formulas, over the integers: the defect of the result is 64 y^6 times that of the input. */
  lemma DoublingKeeps(x: int, y: int, z: int, b: int, x3: int, y3: int, z3: int)
    requires var gamma, delta := y * y, z * z;
             var beta, alpha := x * gamma, 3 * ((x - delta) * (x + delta));
             && x3 == alpha * alpha - 8 * beta
             && z3 == (y + z) * (y + z) - gamma - delta
             && y3 == alpha * (4 * beta - x3) - 8 * (gamma * gamma)
    ensures Defect(x3, y3, z3, b) == 64 * (y * y * (y * y) * (y * y)) * Defect(x, y, z, b)
  {
    var g, d := y * y, z * z;
    var w, u, h := d * d, x * g, g * g;
    var e := x * x - w;
    assert (x - d) * (x + d) == e;
    assert z3 == 2 * (y * z);
    assert x3 == 9 * (e * e) - 8 * u;
    assert y3 == 3 * e * (12 * u - 9 * (e * e)) - 8 * h;
    DoublingCore(e, u, h, x3, y3);
    DoublingWeights(x, y, z, g, d, w, u, h, e, z3);
    var z34 := (z3 * z3) * (z3 * z3);
    assert 3 * x3 * z34 == 48 * x3 * (u * u - e * h) by { Assoc(3 * x3, 16, u * u - e * h); }
    DoublingSum(x, g, w, u, h, e, b * (w * d), Defect(x, y, z, b));
    assert b * (z34 * (z3 * z3)) == 64 * ((h * g) * (b * (w * d))) by { Mul4(b, 64, h * g, w * d); Mul4(h * g, 1, b,
        w * d); }
  }

  lemma DoublingWeights(x: int, y: int, z: int, g: int, d: int, w: int, u: int, h: int, e: int, z3: int)
    requires g == y * y && d == z * z && w == d * d && u == x * g && h == g * g && e == x * x - w && z3 == 2 * (y * z)
    ensures (z3 * z3) * (z3 * z3) == 16 * (u * u - e * h)
    ensures (z3 * z3) * (z3 * z3) * (z3 * z3) == 64 * ((h * g) * (w * d))
  {
    assert z3 * z3 == 4 * (g * d) by { assert (y * z) * (y * z) == (y * y) * (z * z); }
    assert (g * d) * (g * d) == h * w;
    assert u * u == (x * x) * h by { assert (x * g) * (x * g) == (x * x) * (g * g); }
    assert (x * x) * h - (x * x - w) * h == w * h;
    assert (z3 * z3) * (z3 * z3) == 16 * (h * w);
    assert (h * w) * (g * d) == (h * g) * (w * d);
  }

  /** b z^6 is what the input's defect leaves of y^2 - x^3 + 3 x z^4. */
  lemma DoublingSum(x: int, g: int, w: int, u: int, h: int, e: int, t: int, defect: int)
    requires u == x * g && h == g * g && e == x * x - w && defect == g - x * x * x + 3 * x * w - t
    ensures 64 * (h * h) - 64 * (u * (u * u)) + 192 * u * (u * u - e * h) - 64 * ((h * g) * t) == 64 * (h * g) * defect
  {
    var k := h * g;
    assert u * u - e * h == w * h by {
      Mul4(x, g, x, g);
      assert (x * x) * h - e * h == (x * x - e) * h;
    }
    assert u * (w * h) == k * (x * w) by { Mul4(x, g, w, h); }
    assert u * (u * u) == k * (x * x * x) by { Mul4(x, g, x, g); Mul4(x, g, x * x, h); }
    assert h * h == k * g by { Assoc(h, g, g); }
    assert 192 * u * (w * h) == 192 * (u * (w * h));
    DoublingDistribute(k, g, x * x * x, x * w, t, defect);
  }

  lemma DoublingDistribute(k: int, g: int, c: int, l: int, t: int, defect: int)
    requires defect == g - c + 3 * l - t
    ensures 64 * k * defect == 64 * (k * g) - 64 * (k * c) + 192 * (k * l) - 64 * (k * t)
  {
    assert k * (g - c + 3 * l - t) == k * (g - c) + k * (3 * l) - k * t;
    Assoc(k, 3, l);
  }

  // ---- addition ---------------------------------------------------------------------------------

  /** The chord through (u, s1) with slope-difference s, H = h: the third point's defect on the curve
      with linear coefficient a and the constant that (u, s1) determines. */
  lemma ChordCore(h: int, u: int, s1: int, s: int, a: int, m: int, k: int, c: int, x: int, y: int)
    requires k == h * h && c == h * k && m == s * s - c - 3 * (u * k) && x == m + u * k && y == s * m + s1 * c
    ensures y * y - x * x * x - (k * k) * (a * x) - (c * c) * (s1 * s1 - u * u * u - a * u)
            == (c * m) * (s * s + 2 * (s * s1) - h * (3 * (u * u) + 3 * (u * h) + k) - a * h)
  {
    ChordPowers(h, k, c);
    ChordSquare(s, m, s1, c, y);
    ChordCube(m, u, k);
    ChordLinear(k, c, a, m, u);
    ChordRest(s, u, s1, a, m, h, k, c);
    assert (c * c) * (s1 * s1 - u * u * u - a * u) == (c * c) * (s1 * s1) - (c * c) * (u * u * u) - (c * c) * (a * u);
  }

  lemma ChordPowers(h: int, k: int, c: int)
    requires k == h * h && c == h * k
    ensures c * h == k * k && c * c == k * (k * k)
  {
    Mul4(h, k, h, 1);
    Mul4(h, k, h, k);
  }

  lemma ChordSquare(s: int, m: int, s1: int, c: int, y: int)
    requires y == s * m + s1 * c
    ensures y * y == (s * s) * (m * m) + 2 * ((s * s1) * (m * c)) + (c * c) * (s1 * s1)
  {
    var p, q := s * m, s1 * c;
    assert (p + q) * (p + q) == p * p + 2 * (p * q) + q * q;
    Mul4(s, m, s, m);
    Mul4(s, m, s1, c);
    Mul4(s1, c, s1, c);
  }

  lemma ChordCube(m: int, u: int, k: int)
    ensures var x := m + u * k;
            x * x * x == m * (m * m) + 3 * ((m * m) * (u * k)) + 3 * (m * ((u * u) * (k * k)))
                + (u * u * u) * (k * (k * k))
  {
    var v := u * k;
    assert v * v == (u * u) * (k * k);
    assert v * (v * v) == (u * u * u) * (k * (k * k)) by {
      assert (u * k) * ((u * u) * (k * k)) == (u * (u * u)) * (k * (k * k));
    }
    assert (m + v) * (m + v) == m * m + 2 * (m * v) + v * v;
    assert (m + v) * (m + v) * (m + v) == m * (m * m) + 3 * ((m * m) * v) + 3 * (m * (v * v)) + v * (v * v);
  }

  lemma ChordLinear(k: int, c: int, a: int, m: int, u: int)
    requires c * c == k * (k * k)
    ensures (k * k) * (a * (m + u * k)) == (k * k) * (a * m) + (c * c) * (a * u)
  {
    var kk := k * k;
    assert a * (m + u * k) == a * m + a * (u * k);
    assert kk * (a * m + a * (u * k)) == kk * (a * m) + kk * (a * (u * k));
    Assoc(a, u, k);
    Mul4(kk, 1, a * u, k);
    assert kk * ((a * u) * k) == (kk * k) * (a * u);
  }

  /** What is left is a multiple of how far the two points' curves differ. */
  lemma ChordRest(s: int, u: int, s1: int, a: int, m: int, h: int, k: int, c: int)
    requires k == h * h && c == h * k && c * h == k * k && m == s * s - c - 3 * (u * k)
    ensures (s * s) * (m * m)
      + 2 * ((s * s1) * (m * c)) - m * (m * m) - 3 * ((m * m) * (u * k)) - 3 * (m * ((u * u) * (k * k)))
      - (k * k) * (a * m)
            == (c * m) * (s * s + 2 * (s * s1) - h * (3 * (u * u) + 3 * (u * h) + k) - a * h)
  {
    var t, ss, uk, y := c * m, s * s, u * k, h * (3 * (u * u) + 3 * (u * h) + k);
    ChordSlope(ss, m, uk, c, t);
    ChordBend(u, h, k, c, m, t, y);
    assert t * (a * h) == (k * k) * (a * m) by { Mul4(c, m, h, a); }
    assert t * (s * s1) == (s * s1) * (m * c);
    ChordSpread(t, ss, s * s1, y, a * h);
  }

  lemma ChordSpread(t: int, ss: int, x: int, y: int, z: int)
    ensures t * (ss + 2 * x - y - z) == t * ss + 2 * (t * x) - t * y - t * z
  {
    assert t * (ss + 2 * x - y - z) == t * (ss + 2 * x - y) - t * z;
    assert t * (ss + 2 * x - y) == t * (ss + 2 * x) - t * y;
  }

  lemma ChordSlope(ss: int, m: int, uk: int, c: int, t: int)
    requires t == c * m && m == ss - c - 3 * uk
    ensures ss * (m * m) - m * (m * m) - 3 * ((m * m) * uk) == t * ss - 3 * (t * uk) - t * c
  {
    var mm := m * m;
    assert mm * ss - mm * m - 3 * (mm * uk) == mm * (ss - m - 3 * uk) by {
      assert mm * (ss - m - 3 * uk) == mm * (ss - m) - mm * (3 * uk);
      Assoc(mm, 3, uk);
    }
    assert t * ss - 3 * (t * uk) - t * c == t * m by {
      assert t * (ss - c - 3 * uk) == t * (ss - c) - t * (3 * uk);
      Assoc(t, 3, uk);
    }
    Mul4(c, m, m, 1);
  }

  lemma ChordBend(u: int, h: int, k: int, c: int, m: int, t: int, y: int)
    requires k == h * h && c == h * k && c * h == k * k && t == c * m && y == h * (3 * (u * u) + 3 * (u * h) + k)
    ensures t * y == 3 * (m * ((u * u) * (k * k))) + 3 * (t * (u * k)) + t * c
  {
    var uu := u * u;
    assert h * (u * h) == u * k by { Assoc(h, u, h); Assoc(u, h, h); }
    assert y == 3 * (h * uu) + 3 * (u * k) + c by {
      assert h * (3 * uu + 3 * (u * h) + k) == h * (3 * uu) + h * (3 * (u * h)) + h * k;
      Assoc(h, 3, uu);
      Assoc(3, h, uu);
      Assoc(h, 3, u * h);
      Assoc(3, h, u * h);
    }
    assert t * (h * uu) == m * (uu * (k * k)) by { Mul4(c, m, h, uu); Assoc(m, uu, k * k); }
    assert t * (3 * (h * uu) + 3 * (u * k) + c) == 3 * (t * (h * uu)) + 3 * (t * (u * k)) + t * c by {
      ChordSpread(t, c, u * k, -(3 * (h * uu)), -(u * k));
      Assoc(t, 3, h * uu);
    }
  }

  /** A point brought to the common denominator z1 z2: its defect there is a multiple of its own. */
  lemma Scaled(x: int, y: int, z: int, o: int, b: int, u: int, s: int, w: int)
    requires u == x * (o * o) && s == (y * o) * (o * o) && w == z * o
    ensures var w4 := (w * w) * (w * w); var o2 := o * o;
            s * s - u * u * u + 3 * u * w4 - b * (w4 * (w * w)) == (o2 * (o2 * o2)) * Defect(x, y, z, b)
  {
    var o2, z2 := o * o, z * z;
    var z4, o6, k := z2 * z2, o2 * (o2 * o2), o2 * o2;
    var w4 := (w * w) * (w * w);
    assert w * w == z2 * o2 by { Mul4(z, o, z, o); }
    assert w4 == z4 * k by { Mul4(z2, o2, z2, o2); }
    assert w4 * (w * w) == (z4 * z2) * o6 by { Mul4(z4, k, z2, o2); }
    assert s * s == o6 * (y * y) by { Mul4(y, o, o2, 1); Mul4(y, o, y, o); Mul4(y * o, o2, y * o, o2); Assoc(y * y,
        o2, k); }
    assert u * u == (x * x) * k by { Mul4(x, o2, x, o2); }
    assert u * u * u == o6 * (x * x * x) by { Mul4(x * x, k, x, o2); }
    assert u * w4 == o6 * (x * z4) by { Mul4(x, o2, z4, k); }
    assert b * ((z4 * z2) * o6) == o6 * (b * (z4 * z2)) by { Assoc(b, z4 * z2, o6); }
    ScaledDistribute(o6, y * y, x * x * x, x * z4, b * (z4 * z2));
  }

  lemma ScaledDistribute(k: int, g: int, c: int, l: int, t: int)
    ensures k * (g - c + 3 * l - t) == k * g - k * c + 3 * (k * l) - k * t
  {
    assert k * (g - c + 3 * l - t) == k * (g - c) + k * (3 * l) - k * t;
    Assoc(k, 3, l);
  }

  /** The difference of the two scaled defects, from the differences of the points. */
  lemma DefectsApart(u1: int, s1: int, h: int, s: int, a: int, t: int, u2: int, s2: int)
    requires u2 == u1 + h && s2 == s1 + s
    ensures (s2 * s2 - u2 * u2 * u2 - a * u2 - t) - (s1 * s1 - u1 * u1 * u1 - a * u1 - t)
            == s * s + 2 * (s * s1) - h * (3 * (u1 * u1) + 3 * (u1 * h) + h * h) - a * h
  {
    assert s2 * s2 == s1 * s1 + 2 * (s * s1) + s * s;
    assert a * u2 == a * u1 + a * h;
    ChordCube(u1, h, 1);
    assert h * (3 * (u1 * u1) + 3 * (u1 * h) + h * h) == 3 * ((u1 * u1) * h) + 3 * (u1 * (h * h)) + h * (h * h) by {
      assert h * (3 * (u1 * u1) + 3 * (u1 * h) + h * h) == h * (3 * (u1 * u1)) + h * (3 * (u1 * h)) + h * (h * h);
      Assoc(h, 3, u1 * u1);
      Assoc(3, h, u1 * u1);
      Assoc(h, 3, u1 * h);
      Assoc(3, h, u1 * h);
      Assoc(h, u1, h);
      Assoc(u1, h, h);
    }
  }

  /** jac_add's last formulas, in the terms of the chord. */
  lemma ChordForms(u1: int, s1: int, h: int, s: int, w: int, i2: int, j: int, v: int, x3: int, y3: int, z3: int,
      k: int, c: int, m: int)
    requires i2 == (2 * h) * (2 * h) && j == h * i2 && v == u1 * i2 && k == h * h && c == h * k
      && m == s * s - c - 3 * (u1 * k)
    requires x3 == (2 * s) * (2 * s) - j - v - v && y3 == (2 * s) * (v - x3) - 2 * (s1 * j) && z3 == (2 * w) * h
    ensures x3 == 4 * (m + u1 * k) && y3 == -8 * (s * m + s1 * c) && z3 == 2 * (w * h)
  {
    assert i2 == 4 * k by { Mul4(2, h, 2, h); }
    assert j == 4 * c by { Assoc(h, 4, k); Assoc(4, h, k); }
    assert v == 4 * (u1 * k) by { Assoc(u1, 4, k); Assoc(4, u1, k); }
    assert (2 * s) * (2 * s) == 4 * (s * s) by { Mul4(2, s, 2, s); }
    assert v - x3 == -4 * m;
    assert (2 * s) * (-4 * m) == -8 * (s * m) by { Mul4(2, s, -4, m); }
    assert s1 * j == 4 * (s1 * c) by { Assoc(s1, 4, c); Assoc(4, s1, c); }
    Assoc(2, w, h);
  }

  /** The defect of a point (4x, -8y, 2wh) against that of (x, y) on the scaled curve. */
  lemma ChordScaled(x: int, y: int, w: int, h: int, b: int, k: int, c: int)
    requires k == h * h && c == h * k
    ensures var w4 := (w * w) * (w * w);
            Defect(4 * x, -8 * y, 2 * (w * h), b)
            == 64 * (y * y - x * x * x - (k * k) * ((-3 * w4) * x) - (c * c) * (b * (w4 * (w * w))))
  {
    var ww, z := w * w, 2 * (w * h);
    var w4 := ww * ww;
    ChordPowers(h, k, c);
    assert z * z == 4 * (ww * k) by { Mul4(2, w * h, 2, w * h); Mul4(w, h, w, h); }
    var z4 := (z * z) * (z * z);
    assert z4 == 16 * (w4 * (k * k)) by { Mul4(4, ww * k, 4, ww * k); Mul4(ww, k, ww, k); }
    assert z4 * (z * z) == 64 * ((w4 * ww) * (c * c)) by { Mul4(16, w4 * (k * k), 4, ww * k); Mul4(w4, k * k, ww, k); }
    assert (-8 * y) * (-8 * y) == 64 * (y * y) by { Mul4(-8, y, -8, y); }
    assert (4 * x) * (4 * x) * (4 * x) == 64 * (x * x * x) by { Mul4(4, x, 4, x); Mul4(16, x * x, 4, x); }
    assert 3 * (4 * x) * z4 == 64 * (3 * (x * (w4 * (k * k)))) by { Mul4(12, x, 16, w4 * (k * k)); }
    assert (k * k) * ((-3 * w4) * x) == -3 * (x * (w4 * (k * k))) by {
      Mul4(-3, w4, x, 1);
      Mul4(k * k, 1, -3 * x, w4);
      Mul4(-3, x, k * k, w4);
    }
    assert b * (64 * ((w4 * ww) * (c * c))) == 64 * ((c * c) * (b * (w4 * ww))) by {
      Mul4(b, 64, w4 * ww, c * c);
      Mul4(b, w4 * ww, 64, c * c);
    }
  }

  lemma AdditionExact(u1: int, s1: int, u2: int, s2: int, w: int, b: int, x3: int, y3: int, z3: int, d1: int, d2: int,
                      h: int, s: int, k: int, c: int, m: int)
    requires h == u2 - u1 && s == s2 - s1 && k == h * h && c == h * k && m == s * s - c - 3 * (u1 * k)
    requires x3 == 4 * (m + u1 * k) && y3 == -8 * (s * m + s1 * c) && z3 == 2 * (w * h)
    requires var w4 := (w * w) * (w * w); var t := b * (w4 * (w * w));
             d1 == s1 * s1 - u1 * u1 * u1 + 3 * u1 * w4 - t && d2 == s2 * s2 - u2 * u2 * u2 + 3 * u2 * w4 - t
    ensures Defect(x3, y3, z3, b) == 64 * ((c * m) * (d2 - d1) + (c * c) * d1)
  {
    var w4 := (w * w) * (w * w);
    var a, t := -3 * w4, b * (w4 * (w * w));
    var x, y := m + u1 * k, s * m + s1 * c;
    assert 3 * u1 * w4 == -(a * u1) && 3 * u2 * w4 == -(a * u2);
    ChordScaled(x, y, w, h, b, k, c);
    ChordCore(h, u1, s1, s, a, m, k, c, x, y);
    DefectsApart(u1, s1, h, s, a, t, u2, s2);
    assert s1 * s1 - u1 * u1 * u1 - a * u1 == d1 + t;
    assert (c * c) * (d1 + t) == (c * c) * d1 + (c * c) * t;
  }

  /** Multiples of two multiples of p. */
  lemma StillMultiple(p: int, d1: int, d2: int, f: int, g: int, e: int)
    requires p > 0 && d1 % p == 0 && d2 % p == 0 && e == f * (d2 - d1) + g * d1
    ensures (64 * e) % p == 0
  {
    var k1, k2 := d1 / p, d2 / p;
    assert d1 == k1 * p && d2 == k2 * p;
    var q := f * (k2 - k1) + g * k1;
    assert e == q * p by {
      assert d2 - d1 == (k2 - k1) * p;
      Assoc(f, k2 - k1, p);
      Assoc(g, k1, p);
    }
    Assoc(64, q, p);
    DivModUnique(64 * e, 64 * q, 0, p);
  }

  ghost predicate OnCurve(x: int, y: int, z: int, b: int, p: int)
    requires p > 0
  {
    Defect(x, y, z, b) % p == 0
  }

  /** jac_double keeps points on the curve. */
  lemma DoublingStays(x: int, y: int, z: int, b: int, p: int, x3: int, y3: int, z3: int)
    requires p > 0 && OnCurve(x, y, z, b, p)
    requires var gamma, delta := y * y, z * z;
             var beta, alpha := x * gamma, 3 * ((x - delta) * (x + delta));
             && x3 == alpha * alpha - 8 * beta
             && z3 == (y + z) * (y + z) - gamma - delta
             && y3 == alpha * (4 * beta - x3) - 8 * (gamma * gamma)
    ensures OnCurve(x3, y3, z3, b, p)
  {
    hide Defect;
    DoublingKeeps(x, y, z, b, x3, y3, z3);
    var d, f := Defect(x, y, z, b), y * y * (y * y) * (y * y);
    Assoc(64, f, d);
    StillMultiple(p, d, d, 0, f, f * d);
  }

  /** jac_add keeps points on the curve. */
  lemma AdditionStays(x1: int, y1: int, z1: int, x2: int, y2: int, z2: int, b: int, p: int, x3: int, y3: int, z3: int)
    requires p > 0 && OnCurve(x1, y1, z1, b, p) && OnCurve(x2, y2, z2, b, p)
    requires var u1, u2 := x1 * (z2 * z2), x2 * (z1 * z1);
             var s1, s2 := (y1 * z2) * (z2 * z2), (y2 * z1) * (z1 * z1);
             var h, r := u2 - u1, 2 * (s2 - s1);
             var i2 := (2 * h) * (2 * h);
             var j, v := h * i2, u1 * i2;
             && x3 == r * r - j - v - v
             && y3 == r * (v - x3) - 2 * (s1 * j)
             && z3 == ((z1 + z2) * (z1 + z2) - z1 * z1 - z2 * z2) * h
    ensures OnCurve(x3, y3, z3, b, p)
  {
    hide Defect;
    var u1, u2 := x1 * (z2 * z2), x2 * (z1 * z1);
    var s1, s2 := (y1 * z2) * (z2 * z2), (y2 * z1) * (z1 * z1);
    var w, h, s := z1 * z2, u2 - u1, s2 - s1;
    var k := h * h;
    var c := h * k;
    var m := s * s - c - 3 * (u1 * k);
    assert (z1 + z2) * (z1 + z2) - z1 * z1 - z2 * z2 == 2 * w;
    ChordForms(u1, s1, h, s, w, (2 * h) * (2 * h), h * ((2 * h) * (2 * h)), u1 * ((2 * h) * (2 * h)), x3, y3, z3, k,
        c, m);
    Scaled(x1, y1, z1, z2, b, u1, s1, w);
    Scaled(x2, y2, z2, z1, b, u2, s2, w);
    var e1, e2 := (z2 * z2) * ((z2 * z2) * (z2 * z2)), (z1 * z1) * ((z1 * z1) * (z1 * z1));
    var d1, d2 := e1 * Defect(x1, y1, z1, b), e2 * Defect(x2, y2, z2, b);
    TimesMultiple(e1, Defect(x1, y1, z1, b), p);
    TimesMultiple(e2, Defect(x2, y2, z2, b), p);
    AdditionExact(u1, s1, u2, s2, w, b, x3, y3, z3, d1, d2, h, s, k, c, m);
    StillMultiple(p, d1, d2, c * m, c * c, (c * m) * (d2 - d1) + (c * c) * d1);
  }

  lemma TimesMultiple(e: int, d: int, p: int)
    requires p > 0 && d % p == 0
    ensures (e * d) % p == 0
  {
    Assoc(e, d / p, p);
    DivModUnique(e * d, e * (d / p), 0, p);
  }
}

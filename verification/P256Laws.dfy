/** What P-256's point formulas compute (crypto/p256.c:118-170): with x = X / Z^2 and y = Y / Z^3, doubling is by the
    tangent and adding by the chord of y^2 = x^3 - 3x + b, whatever b. */
module P256Laws {
  import opened Arith
  import opened P256
  import NumberTheory

  lemma Same(x: int, p: int)
    requires p > 0
    ensures Cong(x, x, p)
  {}

  lemma Both(x: int, y: int, u: int, v: int, p: int)
    requires p > 0 && Cong(x, u, p) && Cong(y, v, p)
    ensures Cong(x * y, u * v, p) && Cong(x + y, u + v, p) && Cong(x - y, u - v, p)
  {
    CongMul(x, u, y, v, p);
    CongAdd(x, u, y, v, p);
    CongSub(x, u, y, v, p);
  }

  lemma Multiple(c: int, x: int, u: int, p: int)
    requires p > 0 && Cong(x, u, p)
    ensures Cong(c * x, c * u, p)
  {
    Same(c, p);
    CongMul(c, c, x, u, p);
  }

  lemma Then(x: int, y: int, z: int, p: int)
    requires p > 0 && Cong(x, y, p) && Cong(y, z, p)
    ensures Cong(x, z, p)
  {}

  lemma Mul4(a: int, b: int, c: int, d: int)
    ensures (a * b) * (c * d) == (a * c) * (b * d)
  {
    Assoc(a, b, c * d);
    Assoc(b, c, d);
    Assoc(c, b, d);
    Assoc(a, c, b * d);
  }

  /** q stands for the affine point (x, y). */
  ghost predicate StandsFor(q: Point, x: int, y: int, p: int)
    requires p > 0
  {
    q.Point? && Cong(q.x, x * (q.z * q.z), p) && Cong(q.y, y * ((q.z * q.z) * q.z), p)
  }

  /** What every doubled or added point has: from (x, y) along a line with slope l to the third point's opposite. */
  lemma AlongLine(l: int, x: int, y: int, o: int, z: int, r: int, a: int, v: int, j: int, w: int, x3: int, y3: int,
      p: int)
    requires p > 0 && Cong(z, r, p) && Cong(a, l * r, p) && Cong(v, x * (r * r), p)
    requires Cong(j, (o - x) * (r * r), p) && Cong(w, y * ((r * r) * r), p)
    requires x3 == a * a - j - 2 * v && y3 == a * (v - x3) - w
    ensures Cong(x3, (l * l - x - o) * (z * z), p)
    ensures Cong(y3, (l * (x - (l * l - x - o)) - y) * ((z * z) * z), p)
  {
    hide Cong;
    var rr, k := r * r, l * l - x - o;
    Both(a, a, l * r, l * r, p);
    Mul4(l, r, l, r);
    Multiple(2, v, x * rr, p);
    Both(a * a, j, (l * l) * rr, (o - x) * rr, p);
    Both(a * a - j, 2 * v, (l * l) * rr - (o - x) * rr, 2 * (x * rr), p);
    assert (l * l) * rr - (o - x) * rr - 2 * (x * rr) == k * rr;
    Both(v, x3, x * rr, k * rr, p);
    Both(a, v - x3, l * r, x * rr - k * rr, p);
    assert (l * r) * (x * rr - k * rr) == (l * (x - k)) * (rr * r) by {
      assert x * rr - k * rr == (x - k) * rr;
      Mul4(l, r, x - k, rr);
    }
    Both(a * (v - x3), w, (l * (x - k)) * (rr * r), y * (rr * r), p);
    assert (l * (x - k)) * (rr * r) - y * (rr * r) == (l * (x - k) - y) * (rr * r);
    // back from r to z
    Back(z, r, k, l * (x - k) - y, p);
    Then(x3, k * rr, k * (z * z), p);
    Then(y3, (l * (x - k) - y) * (rr * r), (l * (x - k) - y) * ((z * z) * z), p);
  }

  lemma Back(z: int, r: int, k: int, m: int, p: int)
    requires p > 0 && Cong(z, r, p)
    ensures Cong(k * (r * r), k * (z * z), p) && Cong(m * ((r * r) * r), m * ((z * z) * z), p)
  {
    assert Cong(r, z, p);
    hide Cong;
    Both(r, r, z, z, p);
    Both(r * r, r, z * z, z, p);
    Multiple(k, r * r, z * z, p);
    Multiple(m, (r * r) * r, (z * z) * z, p);
  }

  /** Doubling: l is the tangent's slope at (x, y). */
  lemma TangentLaw(q: Point, x: int, y: int, l: int, p: int)
    requires p > 0 && StandsFor(q, x, y, p) && Cong(2 * y * l, 3 * (x * x) - 3, p)
    ensures var r, z := DoublePoint(q, p), 2 * y * ((q.z * q.z) * (q.z * q.z)); var k := l * l - 2 * x;
            && (r.Infinity? <==> Cong(z, 0, p))
            && (r.Point? ==> Cong(r.z, z, p) && Cong(r.x, k * (r.z * r.z), p)
                             && Cong(r.y, (l * (x - k) - y) * ((r.z * r.z) * r.z), p))
  {
    var gamma, delta := q.y * q.y, q.z * q.z;
    var beta, alpha := q.x * gamma, 3 * ((q.x - delta) * (q.x + delta));
    var x3 := alpha * alpha - 8 * beta;
    var y3, z3 := alpha * (4 * beta - x3) - 8 * (gamma * gamma), (q.y + q.z) * (q.y + q.z) - gamma - delta;
    var z := 2 * y * (delta * delta);
    TangentParts(q, x, y, l, p, delta, gamma, alpha, z);
    assert z3 == 2 * (q.y * q.z);
    ZeroToo(z3, z, p);
    hide Cong;
    assert x3 == alpha * alpha - 0 - 2 * (4 * beta);
    Zero(z, p);
    AlongLine(l, x, y, x, z3, z, alpha, 4 * beta, 0, 8 * (gamma * gamma), x3, y3, p);
  }

  lemma Zero(r: int, p: int)
    requires p > 0
    ensures Cong(0, 0 * (r * r), p)
  {}

  lemma ZeroToo(x: int, y: int, p: int)
    requires p > 0 && Cong(x, y, p)
    ensures x % p == 0 <==> Cong(y, 0, p)
  {
    ModSmall(0, p);
  }

  lemma TangentParts(q: Point, x: int, y: int, l: int, p: int, d: int, gamma: int, alpha: int, z: int)
    requires p > 0 && StandsFor(q, x, y, p) && Cong(2 * y * l, 3 * (x * x) - 3, p)
    requires d == q.z * q.z && gamma == q.y * q.y && alpha == 3 * ((q.x - d) * (q.x + d)) && z == 2 * y * (d * d)
    ensures Cong(2 * (q.y * q.z), z, p) && Cong(alpha, l * z, p) && Cong(4 * (q.x * gamma), x * (z * z), p)
    ensures Cong(8 * (gamma * gamma), y * ((z * z) * z), p)
  {
    hide Cong;
    TangentDenominator(q.y, y, q.z, d, z, p);
    TangentNumerator(q.x, x, y, l, d, alpha, z, p);
    var c := d * q.z;
    Both(q.y, q.y, y * c, y * c, p);
    Both(q.x, gamma, x * d, (y * c) * (y * c), p);
    Multiple(4, q.x * gamma, (x * d) * ((y * c) * (y * c)), p);
    Both(gamma, gamma, (y * c) * (y * c), (y * c) * (y * c), p);
    Multiple(8, gamma * gamma, ((y * c) * (y * c)) * ((y * c) * (y * c)), p);
    TangentPowers(x, y, d, q.z, c, z);
  }

  lemma TangentDenominator(qy: int, y: int, qz: int, d: int, z: int, p: int)
    requires p > 0 && Cong(qy, y * (d * qz), p) && d == qz * qz && z == 2 * y * (d * d)
    ensures Cong(2 * (qy * qz), z, p)
  {
    hide Cong;
    var c := d * qz;
    Same(qz, p);
    Both(qy, qz, y * c, qz, p);
    Multiple(2, qy * qz, (y * c) * qz, p);
    assert (y * c) * qz == y * (d * d) by {
      Assoc(y, c, qz);
      Assoc(d, qz, qz);
    }
    Assoc(2, y, d * d);
  }

  lemma TangentNumerator(qx: int, x: int, y: int, l: int, d: int, alpha: int, z: int, p: int)
    requires p > 0 && Cong(qx, x * d, p) && Cong(2 * y * l, 3 * (x * x) - 3, p)
    requires alpha == 3 * ((qx - d) * (qx + d)) && z == 2 * y * (d * d)
    ensures Cong(alpha, l * z, p)
  {
    hide Cong;
    var dd := d * d;
    Same(d, p);
    Same(dd, p);
    Both(qx, d, x * d, d, p);
    Both(qx - d, qx + d, x * d - d, x * d + d, p);
    Multiple(3, (qx - d) * (qx + d), (x * d - d) * (x * d + d), p);
    TangentSlope(x, d);
    Both(2 * y * l, dd, 3 * (x * x) - 3, dd, p);
    assert (2 * y * l) * dd == l * z by { TurnedProduct(2 * y, l, dd); }
    Turned((2 * y * l) * dd, (3 * (x * x) - 3) * dd, p);
    Then(alpha, (3 * (x * x) - 3) * dd, l * z, p);
  }

  lemma TurnedProduct(a: int, l: int, c: int)
    ensures (a * l) * c == l * (a * c)
  {
    Assoc(l, a, c);
  }

  lemma Turned(x: int, y: int, p: int)
    requires p > 0 && Cong(x, y, p)
    ensures Cong(y, x, p)
  {}

  lemma TangentSlope(x: int, d: int)
    ensures 3 * ((x * d - d) * (x * d + d)) == (3 * (x * x) - 3) * (d * d)
  {
    Mul4(x, d, x, d);
    assert (x * d - d) * (x * d + d) == (x * d) * (x * d) - d * d;
  }

  lemma TangentPowers(x: int, y: int, d: int, z1: int, c: int, z: int)
    requires d == z1 * z1 && c == d * z1 && z == 2 * y * (d * d)
    ensures 4 * ((x * d) * ((y * c) * (y * c))) == x * (z * z)
    ensures 8 * (((y * c) * (y * c)) * ((y * c) * (y * c))) == y * ((z * z) * z)
  {
    var yy, cc, dd := y * y, c * c, d * d;
    Mul4(y, c, y, c);
    assert cc == dd * d by { Mul4(d, z1, d, z1); }
    Mul4(2 * y, dd, 2 * y, dd);
    assert (2 * y) * (2 * y) == 4 * yy;
    // z z = 4 yy dddd, cc d = dd dd
    assert d * cc == dd * dd by { Assoc(d, dd, d); Assoc(d, d, dd); assert d * (dd * d) == dd * dd; }
    Mul4(x, d, yy, cc);
    assert (x * d) * (yy * cc) == (x * yy) * (dd * dd);
    assert x * ((4 * yy) * (dd * dd)) == 4 * ((x * yy) * (dd * dd)) by { Assoc(x, 4 * yy, dd * dd); }
    Mul4(yy, cc, yy, cc);
    assert cc * cc == (dd * dd) * dd by { Mul4(dd, d, dd, d); }
    Mul4(4 * yy, dd * dd, 2 * y, dd);
    Assoc(y, (4 * yy) * (2 * y), (dd * dd) * dd);
    assert y * ((4 * yy) * (2 * y)) == 8 * (yy * yy);
  }

  /** Adding: l is the slope of the chord through (x, y) and (u, v). */
  lemma ChordLaw(q: Point, o: Point, x: int, y: int, u: int, v: int, l: int, p: int)
    requires p > 0 && StandsFor(q, x, y, p) && StandsFor(o, u, v, p) && Cong((u - x) * l, v - y, p)
    requires !Cong(q.x * (o.z * o.z), o.x * (q.z * q.z), p)
    ensures var m := q.z * o.z; var r, z, k := AddPoints(q, o, p), 2 * (u - x) * ((m * m) * m), l * l - x - u;
            && (r.Infinity? <==> Cong(z, 0, p))
            && (r.Point? ==> Cong(r.z, z, p) && Cong(r.x, k * (r.z * r.z), p)
                             && Cong(r.y, (l * (x - k) - y) * ((r.z * r.z) * r.z), p))
  {
    var u1, u2 := q.x * (o.z * o.z), o.x * (q.z * q.z);
    var s1, s2 := (q.y * o.z) * (o.z * o.z), (o.y * q.z) * (q.z * q.z);
    var h, r := u2 - u1, 2 * (s2 - s1);
    var i2 := (2 * h) * (2 * h);
    var j, w := h * i2, u1 * i2;
    var x3 := r * r - j - w - w;
    var m := q.z * o.z;
    var z, z3 := 2 * (u - x) * ((m * m) * m), ((q.z + o.z) * (q.z + o.z) - q.z * q.z - o.z * o.z) * h;
    Brought(q.x, x, q.z, o.z, m, q.y, y, p);
    Brought(o.x, u, o.z, q.z, m, o.y, v, p);
    ChordParts(x, y, u, v, l, p, m, u1, u2, s1, s2, h, i2, z);
    assert z3 == 2 * m * h by { TwiceProduct(q.z, o.z); }
    ZeroToo(z3, z, p);
    hide Cong;
    AlongLine(l, x, y, u, z3, z, r, w, j, 2 * (s1 * j), x3, r * (w - x3) - 2 * (s1 * j), p);
  }

  lemma TwiceProduct(a: int, b: int)
    ensures (a + b) * (a + b) - a * a - b * b == 2 * (a * b)
  {}

  /** A coordinate brought to the common denominator. */
  lemma Brought(qx: int, x: int, z: int, t: int, m: int, qy: int, y: int, p: int)
    requires p > 0 && Cong(qx, x * (z * z), p) && Cong(qy, y * ((z * z) * z), p) && m == z * t
    ensures Cong(qx * (t * t), x * (m * m), p) && Cong((qy * t) * (t * t), y * ((m * m) * m), p)
  {
    hide Cong;
    var tt, zz := t * t, z * z;
    Same(t, p);
    Same(tt, p);
    Both(qx, tt, x * zz, tt, p);
    assert (x * zz) * tt == x * (m * m) by { Assoc(x, zz, tt); Mul4(z, t, z, t); }
    Both(qy, t, y * (zz * z), t, p);
    Both(qy * t, tt, (y * (zz * z)) * t, tt, p);
    assert ((y * (zz * z)) * t) * tt == y * ((m * m) * m) by {
      Assoc(y, zz * z, t);
      Assoc(y, (zz * z) * t, tt);
      Mul4(z, t, z, t);
      Assoc(zz, z, t);
      assert ((zz * z) * t) * tt == (zz * m) * tt;
      assert (zz * m) * tt == (zz * tt) * m;
    }
  }

  lemma ChordParts(x: int, y: int, u: int, v: int, l: int, p: int, m: int, u1: int, u2: int, s1: int, s2: int, h: int,
      i2: int, z: int)
    requires p > 0 && Cong((u - x) * l, v - y, p)
    requires Cong(u1, x * (m * m), p) && Cong(u2, u * (m * m), p)
    requires Cong(s1, y * ((m * m) * m), p) && Cong(s2, v * ((m * m) * m), p)
    requires h == u2 - u1 && i2 == (2 * h) * (2 * h) && z == 2 * (u - x) * ((m * m) * m)
    ensures Cong(2 * m * h, z, p) && Cong(2 * (s2 - s1), l * z, p) && Cong(u1 * i2, x * (z * z), p)
    ensures Cong(h * i2, (u - x) * (z * z), p) && Cong(2 * (s1 * (h * i2)), y * ((z * z) * z), p)
  {
    var mm, d := m * m, u - x;
    var c, n := mm * m, d * mm;
    ChordWidth(x, u, mm, u1, u2, h, p);
    hide Cong;
    assert z == 2 * d * c;
    ChordDenominator(m, mm, d, c, h, z, p);
    ChordNumerator(y, v, l, d, c, s1, s2, z, p);
    ChordScale(x, m, d, n, u1, h, i2, z, p);
    Both(s1, h * i2, y * c, d * (z * z), p);
    Multiple(2, s1 * (h * i2), (y * c) * (d * (z * z)), p);
    LastChord(y, c, d, z);
  }

  lemma ChordWidth(x: int, u: int, mm: int, u1: int, u2: int, h: int, p: int)
    requires p > 0 && Cong(u1, x * mm, p) && Cong(u2, u * mm, p) && h == u2 - u1
    ensures Cong(h, (u - x) * mm, p)
  {
    hide Cong;
    Both(u2, u1, u * mm, x * mm, p);
    assert u * mm - x * mm == (u - x) * mm;
  }

  lemma ChordDenominator(m: int, mm: int, d: int, c: int, h: int, z: int, p: int)
    requires p > 0 && c == mm * m && Cong(h, d * mm, p) && z == 2 * d * c
    ensures Cong(2 * m * h, z, p)
  {
    hide Cong;
    Multiple(2 * m, h, d * mm, p);
    assert m * (d * mm) == d * c by { TurnedProduct(d, m, mm); Assoc(d, mm, m); assert m * (d * mm) == (d * mm) * m; }
    assert (2 * m) * (d * mm) == 2 * (m * (d * mm));
    Assoc(2, d, c);
  }

  lemma ChordNumerator(y: int, v: int, l: int, d: int, c: int, s1: int, s2: int, z: int, p: int)
    requires p > 0 && Cong(d * l, v - y, p) && Cong(s1, y * c, p) && Cong(s2, v * c, p) && z == 2 * d * c
    ensures Cong(2 * (s2 - s1), l * z, p)
  {
    hide Cong;
    Both(s2, s1, v * c, y * c, p);
    assert v * c - y * c == (v - y) * c;
    Same(c, p);
    Both(d * l, c, v - y, c, p);
    Turned((d * l) * c, (v - y) * c, p);
    Then(s2 - s1, (v - y) * c, (d * l) * c, p);
    Multiple(2, s2 - s1, (d * l) * c, p);
    NumeratorForm(d, l, c, z);
  }

  lemma NumeratorForm(d: int, l: int, c: int, z: int)
    requires z == 2 * d * c
    ensures 2 * ((d * l) * c) == l * z
  {
    TurnedProduct(d, l, c);
    Assoc(2, d, c);
    var t := d * c;
    assert l * (2 * t) == 2 * (l * t);
  }

  /** 4 h^2 m^2 stands for z^2. */
  lemma ChordScale(x: int, m: int, d: int, n: int, u1: int, h: int, i2: int, z: int, p: int)
    requires p > 0 && n == d * (m * m) && Cong(h, n, p) && Cong(u1, x * (m * m), p)
    requires i2 == (2 * h) * (2 * h) && z == 2 * d * ((m * m) * m)
    ensures Cong(u1 * i2, x * (z * z), p) && Cong(h * i2, d * (z * z), p)
  {
    hide Cong;
    var mm, e := m * m, (2 * n) * (2 * n);
    Multiple(2, h, n, p);
    Both(2 * h, 2 * h, 2 * n, 2 * n, p);
    assert z == m * (2 * n) by {
      Assoc(2, d, mm * m);
      Assoc(d, mm, m);
    }
    Mul4(m, 2 * n, m, 2 * n);
    Both(u1, i2, x * mm, e, p);
    Assoc(x, mm, e);
    Both(h, i2, n, e, p);
    Assoc(d, mm, e);
  }

  lemma LastChord(y: int, c: int, d: int, z: int)
    requires z == 2 * d * c
    ensures 2 * ((y * c) * (d * (z * z))) == y * ((z * z) * z)
  {
    var zz := z * z;
    Mul4(y, c, d, zz);
    assert (y * c) * (d * zz) == y * ((c * d) * zz) by { Assoc(y, c, d * zz); Assoc(c, d, zz); }
    assert 2 * ((c * d) * zz) == zz * z;
  }

  /** The cases without a chord: infinity is neutral, a point added to itself is doubled, added to its opposite it
      gives infinity. */
  lemma AddCases(q: Point, o: Point, p: int)
    requires p > 0
    ensures q.Infinity? ==> AddPoints(q, o, p) == o
    ensures o.Infinity? ==> AddPoints(q, o, p) == q
    ensures q.Point? && o.Point? && Cong(q.x * (o.z * o.z), o.x * (q.z * q.z), p) ==>
      AddPoints(q, o, p) == if Cong(q.y * ((o.z * o.z) * o.z), o.y * ((q.z * q.z) * q.z), p) then DoublePoint(q, p)
                            else Infinity
    ensures DoublePoint(Infinity, p) == Infinity
  {
    if q.Point? && o.Point? {
      assert (q.y * o.z) * (o.z * o.z) == q.y * ((o.z * o.z) * o.z) by { Assoc(q.y, o.z, o.z * o.z); }
      assert (o.y * q.z) * (q.z * q.z) == o.y * ((q.z * q.z) * q.z) by { Assoc(o.y, q.z, q.z * q.z); }
      hide DoublePoint;
      hide Cong;
    }
  }

  /** The number's laws. */
  lemma TimesLaws(n: nat, q: Point, p: int)
    requires p > 0
    ensures Times(0, q, p) == Infinity && Times(1, q, p) == q
    ensures Times(2 * n, q, p) == DoublePoint(Times(n, q, p), p)
    ensures Times(2 * n + 1, q, p) == AddPoints(DoublePoint(Times(n, q, p), p), q, p)
  {
    TimesNext(n, 0, q, p);
    TimesNext(n, 1, q, p);
    TimesNext(0, 1, q, p);
    AddCases(Infinity, q, p);
    hide AddPoints;
    hide DoublePoint;
  }

  /** Affine coordinates are the quotients X / Z^2 and Y / Z^3 for a prime p. */
  lemma AffineLaw(q: Point, p: int)
    requires NumberTheory.IsPrime(p) && p > 2 && q.Point? && q.z % p != 0
    ensures StandsFor(q, AffineX(q, p), AffineY(q, p), p)
  {
    var zi := Pow(q.z, p - 2);
    var z := q.z;
    NumberTheory.FermatInverse(p, z);
    hide Cong;
    var w := z * zi;
    Both(w, w, 1, 1, p);
    Both(w * w, w, 1 * 1, 1, p);
    Multiple(q.x, w * w, 1, p);
    Multiple(q.y, (w * w) * w, 1, p);
    assert (q.x * (zi * zi)) * (z * z) == q.x * (w * w) by {
      Assoc(q.x, zi * zi, z * z);
      Mul4(zi, zi, z, z);
    }
    assert (q.y * ((zi * zi) * zi)) * ((z * z) * z) == q.y * ((w * w) * w) by {
      Assoc(q.y, (zi * zi) * zi, (z * z) * z);
      Mul4(zi * zi, zi, z * z, z);
      Mul4(zi, zi, z, z);
    }
    Turned(q.x * (w * w), q.x * 1, p);
    Turned(q.y * ((w * w) * w), q.y * 1, p);
  }
}

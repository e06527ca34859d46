/** What the ladder's step and the ladder compute (crypto/x25519.c:102-124): the tangent and chord laws of the curve
    v^2 = u^3 + 486662 u^2 + u modulo 2^255 - 19, and the multiple a scalar's number asks for. */
module MontgomeryLaws {
  import opened Arith
  import opened Bits
  import opened Machine
  import opened Limbs16
  import opened Field25519
  import opened X25519

  // ---- identities over the integers ---------------------------------------------------------------------

  /** The tangent's numerator on the curve with coefficient a. */
  lemma TangentIdentity(u: int, a: int, f: int, t: int, n: int)
    requires f == u * (u * u + a * u + 1) && t == 3 * (u * u) + 2 * a * u + 1 && n == u * u - 1
    ensures t * t - (a + 2 * u) * (4 * f) == n * n
  {
    var uu, au := u * u, a * u;
    var h := uu + au + 1;
    assert t == 2 * h + n by { assert 2 * a * u == 2 * au; }
    assert (a + 2 * u) * (4 * f) == 4 * (h * (h + n)) by {
      Assoc(a + 2 * u, u, h);
      assert (a + 2 * u) * u == au + 2 * uu;
      assert (a + 2 * u) * (4 * f) == 4 * ((a + 2 * u) * f);
    }
    SquareLess(h, n);
  }

  lemma SquareLess(h: int, n: int)
    ensures (2 * h + n) * (2 * h + n) - 4 * (h * (h + n)) == n * n
  {}

  /** The chords through P and Q and through P and -Q: u and w their coordinates, f and g the curve's values there. */
  lemma ChordIdentity(u: int, w: int, a: int, f: int, g: int, d: int, k: int, e: int)
    requires f == u * (u * u + a * u + 1) && g == w * (w * w + a * w + 1)
    requires d == u - w && k == a + u + w && e == d * (u * w - 1)
    ensures (f + g - k * (d * d)) * (f + g - k * (d * d)) - 4 * (f * g) == e * e
  {
    var h, i := u * u + a * u + 1, w * w + a * w + 1;
    var x, y := u * i, w * h;
    assert f * g == x * y by { Cross(u, h, w, i); }
    ChordSum(u, w, a, h, i, d, k);
    ChordDifference(u, w, a, h, i, d);
    SquareDifference(x, y, e);
  }

  lemma SquareDifference(x: int, y: int, e: int)
    requires x - y == e || y - x == e
    ensures (x + y) * (x + y) - 4 * (x * y) == e * e
  {}

  lemma Cross(u: int, h: int, w: int, i: int)
    ensures (u * h) * (w * i) == (u * i) * (w * h)
  {
    Assoc(u, h, w * i);
    Assoc(u, i, w * h);
    Assoc(h, w, i);
    Assoc(i, w, h);
    Assoc(w, h, i);
  }

  lemma ChordSum(u: int, w: int, a: int, h: int, i: int, d: int, k: int)
    requires h == u * u + a * u + 1 && i == w * w + a * w + 1 && d == u - w && k == a + u + w
    ensures u * h + w * i - k * (d * d) == u * i + w * h
  {
    assert h - i == d * k by {
      assert a * u - a * w == a * d;
      assert u * u - w * w == d * (u + w);
      assert d * k == d * a + d * (u + w);
    }
    assert (u * h + w * i) - (u * i + w * h) == d * (h - i) by {
      assert d * (h - i) == u * (h - i) - w * (h - i);
    }
    Assoc(d, d, k);
  }

  lemma ChordDifference(u: int, w: int, a: int, h: int, i: int, d: int)
    requires h == u * u + a * u + 1 && i == w * w + a * w + 1 && d == u - w
    ensures w * h - u * i == d * (u * w - 1)
  {
    assert w * h == w * (u * u) + w * (a * u) + w;
    assert u * i == u * (w * w) + u * (a * w) + u;
    assert w * (a * u) == u * (a * w);
    assert w * (u * u) - u * (w * w) == d * (u * w);
  }

  // ---- the step without its reductions ---------------------------------------------------------------------

  lemma Product(x: int, y: int, u: int, v: int)
    requires Cong(x, u, P) && Cong(y, v, P)
    ensures Cong(F(x * y), u * v, P)
  {
    CongMul(x, u, y, v, P);
    ModMod(x * y, P);
  }

  lemma SumAndDifference(x: int, y: int, u: int, v: int)
    requires Cong(x, u, P) && Cong(y, v, P)
    ensures Cong(F(x + y), u + v, P) && Cong(F(x - y), u - v, P)
  {
    CongAdd(x, u, y, v, P);
    CongSub(x, u, y, v, P);
    ModMod(x + y, P);
    ModMod(x - y, P);
  }

  /** Congruences compose. */
  lemma Then(x: int, y: int, z: int)
    requires Cong(x, y, P) && Cong(y, z, P)
    ensures Cong(x, z, P)
  {}

  /** The doubled half of a step. */
  lemma DoubledHalf(x1: int, s: Ladder, x: int, z: int)
    requires Cong(s.x2, x, P) && Cong(s.z2, z, P)
    ensures var aa, bb := (x + z) * (x + z), (x - z) * (x - z); var e := aa - bb;
            Cong(Step(x1, s).x2, aa * bb, P) && Cong(Step(x1, s).z2, e * (aa + 121665 * e), P)
  {
    hide Cong;
    hide F;
    var a, b := F(s.x2 + s.z2), F(s.x2 - s.z2);
    SumAndDifference(s.x2, s.z2, x, z);
    var aa, bb := (x + z) * (x + z), (x - z) * (x - z);
    Product(a, a, x + z, x + z);
    Product(b, b, x - z, x - z);
    Product(F(a * a), F(b * b), aa, bb);
    SumAndDifference(F(a * a), F(b * b), aa, bb);
    var e := F(F(a * a) - F(b * b));
    Same(121665);
    Product(121665, e, 121665, aa - bb);
    SumAndDifference(F(a * a), F(121665 * e), aa, 121665 * (aa - bb));
    Product(e, F(F(a * a) + F(121665 * e)), aa - bb, aa + 121665 * (aa - bb));
  }

  lemma Same(x: int)
    ensures Cong(x, x, P)
  {}

  /** The added half. */
  lemma AddedHalf(x1: int, s: Ladder, x: int, z: int, y: int, t: int)
    requires Cong(s.x2, x, P) && Cong(s.z2, z, P) && Cong(s.x3, y, P) && Cong(s.z3, t, P)
    ensures var da, cb := (y - t) * (x + z), (y + t) * (x - z);
            Cong(Step(x1, s).x3, (da + cb) * (da + cb), P) && Cong(Step(x1, s).z3, x1 * ((da - cb) * (da - cb)), P)
  {
    hide Cong;
    hide F;
    var a, b, c, d := F(s.x2 + s.z2), F(s.x2 - s.z2), F(s.x3 + s.z3), F(s.x3 - s.z3);
    SumAndDifference(s.x2, s.z2, x, z);
    SumAndDifference(s.x3, s.z3, y, t);
    Product(d, a, y - t, x + z);
    Product(c, b, y + t, x - z);
    var da, cb := (y - t) * (x + z), (y + t) * (x - z);
    SumAndDifference(F(d * a), F(c * b), da, cb);
    var sum, diff := F(F(d * a) + F(c * b)), F(F(d * a) - F(c * b));
    Product(sum, sum, da + cb, da + cb);
    Product(diff, diff, da - cb, da - cb);
    Same(x1);
    Product(x1, F(diff * diff), x1, (da - cb) * (da - cb));
  }

  // ---- the laws of the curve ------------------------------------------------------------------------------------

  /** The state's first point has coordinate u: the step doubles it by the tangent. Its slope is t over 2v, and n over
      d = 4v^2 is the slope's square less 486662 + 2u. */
  lemma TangentLaw(x1: int, s: Ladder, u: int, v: int, t: int, n: int, w: int, d: int)
    requires t == 3 * (u * u) + 2 * 486662 * u + 1 && d == 4 * (v * v) && n == t * t - (486662 + 2 * u) * d
    requires w == (s.z2 * s.z2) * (s.z2 * s.z2)
    ensures Cong(v * v, u * (u * u + 486662 * u + 1), P) && Cong(s.x2, u * s.z2, P)
            ==> Cong(Step(x1, s).z2, w * d, P) && Cong(Step(x1, s).x2, w * n, P)
  {
    if !Cong(v * v, u * (u * u + 486662 * u + 1), P) || !Cong(s.x2, u * s.z2, P) { return; }
    hide Cong;
    hide F;
    var z, f, m := s.z2, u * (u * u + 486662 * u + 1), u * u - 1;
    Same(z);
    DoubledHalf(x1, s, u * z, z);
    DoubledForms(u, z, f, m, w);
    var r := Step(x1, s);
    TangentIdentity(u, 486662, f, t, m);
    // 4f stands for 4v^2
    Same(4);
    Same(w);
    CongMul(4, 4, v * v, f, P);
    CongMul(w, w, d, 4 * f, P);
    Back(r.z2, w * (4 * f), w * d);
    Same(486662 + 2 * u);
    Same(t * t);
    CongMul(486662 + 2 * u, 486662 + 2 * u, d, 4 * f, P);
    CongSub(t * t, t * t, (486662 + 2 * u) * d, (486662 + 2 * u) * (4 * f), P);
    CongMul(w, w, n, m * m, P);
    Back(r.x2, w * (m * m), w * n);
  }

  lemma Back(x: int, y: int, z: int)
    requires Cong(x, y, P) && Cong(z, y, P)
    ensures Cong(x, z, P)
  {}

  /** The doubled half for x = u z. */
  lemma DoubledForms(u: int, z: int, f: int, n: int, w: int)
    requires f == u * (u * u + 486662 * u + 1) && n == u * u - 1 && w == (z * z) * (z * z)
    ensures var aa, bb := (u * z + z) * (u * z + z), (u * z - z) * (u * z - z); var e := aa - bb;
            aa * bb == w * (n * n) && e * (aa + 121665 * e) == w * (4 * f)
  {
    var zz, p, q, h := z * z, (u + 1) * (u + 1), (u - 1) * (u - 1), u * u + 486662 * u + 1;
    Squared(u + 1, z);
    Squared(u - 1, z);
    assert u * z + z == (u + 1) * z && u * z - z == (u - 1) * z;
    Mul4(u + 1, u + 1, u - 1, u - 1);
    assert (u + 1) * (u - 1) == n;
    assert p - q == 4 * u && p + 121665 * (p - q) == h;
    Scaled(p, q, zz, 4 * u, h);
    assert (4 * u) * h == 4 * f;
  }

  lemma Scaled(p: int, q: int, zz: int, d: int, h: int)
    requires p - q == d && p + 121665 * (p - q) == h
    ensures var aa, bb := p * zz, q * zz; var e := aa - bb;
            aa * bb == (zz * zz) * (p * q) && e * (aa + 121665 * e) == (zz * zz) * (d * h)
  {
    Mul4(p, zz, q, zz);
    assert p * zz - q * zz == d * zz;
    assert p * zz + 121665 * (d * zz) == h * zz;
    Mul4(d, zz, h, zz);
  }

  lemma Squared(k: int, z: int)
    ensures (k * z) * (k * z) == (k * k) * (z * z)
  {
    Mul4(k, z, k, z);
  }

  lemma Mul4(a: int, b: int, c: int, d: int)
    ensures (a * b) * (c * d) == (a * c) * (b * d)
  {
    Assoc(a, b, c * d);
    Assoc(b, c, d);
    Assoc(c, b, d);
    Assoc(a, c, b * d);
  }

  /** The state's two points have coordinates u and y, the difference of the two has coordinate x1 by the chord through
      the first and the second's opposite: the step adds them by the chord through both. */
  lemma ChordLaw(x1: int, s: Ladder, u: int, v: int, y: int, t: int)
    ensures var d, w := u - y, 4 * ((s.z2 * s.z2) * (s.z3 * s.z3)); var r := Step(x1, s);
            && Cong(v * v, u * (u * u + 486662 * u + 1), P) && Cong(t * t, y * (y * y + 486662 * y + 1), P)
            && Cong(s.x2, u * s.z2, P) && Cong(s.x3, y * s.z3, P)
            && Cong(x1 * (d * d), (v + t) * (v + t) - (486662 + u + y) * (d * d), P)
            ==> && Cong(r.z3, x1 * (w * (d * d)), P) && Cong(r.x3, w * ((u * y - 1) * (u * y - 1)), P)
                && Cong(r.x3 * (d * d), r.z3 * ((v - t) * (v - t) - (486662 + u + y) * (d * d)), P)
  {
    if || !Cong(v * v, u * (u * u + 486662 * u + 1), P) || !Cong(t * t, y * (y * y + 486662 * y + 1), P)
       || !Cong(s.x2, u * s.z2, P) || !Cong(s.x3, y * s.z3, P)
       || !Cong(x1 * ((u - y) * (u - y)), (v + t) * (v + t) - (486662 + u + y) * ((u - y) * (u - y)), P) {
      return;
    }
    hide Cong;
    hide F;
    var d, k, f, g := u - y, 486662 + u + y, u * (u * u + 486662 * u + 1), y * (y * y + 486662 * y + 1);
    var e, w, dd := d * (u * y - 1), 4 * ((s.z2 * s.z2) * (s.z3 * s.z3)), d * d;
    var r, n := Step(x1, s), (u * y - 1) * (u * y - 1);
    Same(s.z2);
    Same(s.z3);
    AddedHalf(x1, s, u * s.z2, s.z2, y * s.z3, s.z3);
    AddedForms(u, y, s.z2, s.z3, w);
    Assoc(x1, w, dd);
    ChordIdentity(u, y, 486662, f, g, d, k, e);
    ChordProducts(v, t, f, g, k * dd, e, P);
    var sum, minus := (v - t) * (v - t) - k * dd, (v + t) * (v + t) - k * dd;
    assert e * e == dd * n by { Squared(d, u * y - 1); }
    ChordEnd(x1, w, dd, n, sum, minus, r.x3, r.z3);
  }

  /** The added half for x2 = u z2 and x3 = y z3. */
  lemma AddedForms(u: int, y: int, z: int, m: int, w: int)
    requires w == 4 * ((z * z) * (m * m))
    ensures var da, cb := (y * m - m) * (u * z + z), (y * m + m) * (u * z - z);
            && (da + cb) * (da + cb) == w * ((u * y - 1) * (u * y - 1))
            && (da - cb) * (da - cb) == w * ((u - y) * (u - y))
  {
    var c := z * m;
    var da, cb := (y * m - m) * (u * z + z), (y * m + m) * (u * z - z);
    assert da == ((y - 1) * (u + 1)) * c by {
      assert y * m - m == (y - 1) * m && u * z + z == (u + 1) * z;
      Mul4(y - 1, m, u + 1, z);
    }
    assert cb == ((y + 1) * (u - 1)) * c by {
      assert y * m + m == (y + 1) * m && u * z - z == (u - 1) * z;
      Mul4(y + 1, m, u - 1, z);
    }
    SumsOfProducts(u, y, c, da, cb);
    Squared(2 * (u * y - 1), c);
    Squared(2 * (y - u), c);
    Squared(z, m);
    Doubled(u * y - 1, c * c, w);
    Doubled(y - u, c * c, w);
    assert (y - u) * (y - u) == (u - y) * (u - y);
  }

  lemma SumsOfProducts(u: int, y: int, c: int, da: int, cb: int)
    requires da == ((y - 1) * (u + 1)) * c && cb == ((y + 1) * (u - 1)) * c
    ensures da + cb == (2 * (u * y - 1)) * c && da - cb == (2 * (y - u)) * c
  {
    assert (y - 1) * (u + 1) + (y + 1) * (u - 1) == 2 * (u * y - 1);
    assert (y - 1) * (u + 1) - (y + 1) * (u - 1) == 2 * (y - u);
    assert da + cb == ((y - 1) * (u + 1) + (y + 1) * (u - 1)) * c;
    assert da - cb == ((y - 1) * (u + 1) - (y + 1) * (u - 1)) * c;
  }

  lemma Doubled(k: int, c: int, w: int)
    requires w == 4 * c
    ensures ((2 * k) * (2 * k)) * c == w * (k * k)
  {
    assert (2 * k) * (2 * k) == 4 * (k * k);
  }

  /** The two chords' numerators multiply to e^2. */
  lemma ChordProducts(v: int, t: int, f: int, g: int, m: int, e: int, p: int)
    requires p > 0 && Cong(v * v, f, p) && Cong(t * t, g, p) && (f + g - m) * (f + g - m) - 4 * (f * g) == e * e
    ensures Cong(((v - t) * (v - t) - m) * ((v + t) * (v + t) - m), e * e, p)
  {
    hide Cong;
    var x, y := v * v, t * t;
    assert ((v - t) * (v - t) - m) * ((v + t) * (v + t) - m) == (x + y - m) * (x + y - m) - 4 * (x * y) by {
      var q := v * t;
      assert (v - t) * (v - t) == x + y - 2 * q && (v + t) * (v + t) == x + y + 2 * q;
      Conjugates(x + y - m, 2 * q);
      assert (2 * q) * (2 * q) == 4 * (q * q);
      Squared(v, t);
    }
    CongAdd(x, f, y, g, p);
    Itself(m, p);
    CongSub(x + y, f + g, m, m, p);
    CongMul(x + y - m, f + g - m, x + y - m, f + g - m, p);
    CongMul(x, f, y, g, p);
    Itself(4, p);
    CongMul(4, 4, x * y, f * g, p);
    CongSub((x + y - m) * (x + y - m), (f + g - m) * (f + g - m), 4 * (x * y), 4 * (f * g), p);
  }

  lemma Itself(x: int, p: int)
    requires p > 0
    ensures Cong(x, x, p)
  {}

  lemma Conjugates(a: int, b: int)
    ensures (a - b) * (a + b) == a * a - b * b
  {}

  lemma ChordEnd(x1: int, w: int, dd: int, n: int, sum: int, minus: int, r: int, q: int)
    requires Cong(x1 * dd, minus, P) && Cong(sum * minus, dd * n, P) && Cong(r, w * n, P) && Cong(q, x1 * (w * dd), P)
    ensures Cong(r * dd, q * sum, P)
  {
    hide Cong;
    Same(dd);
    Same(w);
    Same(sum);
    CongMul(r, w * n, dd, dd, P);
    CongMul(q, x1 * (w * dd), sum, sum, P);
    CongMul(sum, sum, x1 * dd, minus, P);
    Then(sum * (x1 * dd), sum * minus, dd * n);
    CongMul(w, w, sum * (x1 * dd), dd * n, P);
    assert (x1 * (w * dd)) * sum == w * (sum * (x1 * dd)) by {
      Assoc(w, sum, x1 * dd);
      Assoc(x1, w, dd);
      assert (x1 * w) * dd * sum == (w * sum) * (x1 * dd) by { Mul4(w, x1, dd, sum); Mul4(w, sum, x1, dd); }
    }
    assert (w * n) * dd == w * (dd * n) by { Assoc(w, n, dd); }
    Then(q * sum, w * (sum * (x1 * dd)), w * (dd * n));
    Back(r * dd, w * (dd * n), q * sum);
  }

  /** The first point is the one at infinity: it doubles to itself, and added to a point with coordinate x1 it gives
      that point. */
  lemma InfinityLaw(x1: int, s: Ladder)
    requires Cong(s.z2, 0, P) && Cong(s.x3, x1 * s.z3, P)
    ensures var r, w := Step(x1, s), 4 * ((s.x2 * s.x2) * (s.z3 * s.z3));
            && Cong(r.z2, 0, P) && Cong(r.x2, (s.x2 * s.x2) * (s.x2 * s.x2), P)
            && Cong(r.z3, x1 * w, P) && Cong(r.x3, x1 * r.z3, P)
  {
    hide Cong;
    hide F;
    var x, m := s.x2, s.z3;
    Same(x);
    Same(m);
    DoubledHalf(x1, s, x, 0);
    AddedHalf(x1, s, x, 0, x1 * m, m);
    assert (x + 0) * (x + 0) - (x - 0) * (x - 0) == 0;
    InfinityForms(x1, x, m);
    var r, w := Step(x1, s), 4 * ((x * x) * (m * m));
    Same(x1);
    CongMul(x1, x1, r.z3, x1 * w, P);
    Back(r.x3, x1 * (x1 * w), x1 * r.z3);
  }

  lemma InfinityForms(x1: int, x: int, m: int)
    ensures var da, cb, w := (x1 * m - m) * (x + 0), (x1 * m + m) * (x - 0), 4 * ((x * x) * (m * m));
            (da + cb) * (da + cb) == x1 * (x1 * w) && (da - cb) * (da - cb) == w
  {
    var c := m * x;
    assert (x1 * m - m) * x == (x1 - 1) * c by { Assoc(x1 - 1, m, x); }
    assert (x1 * m + m) * x == (x1 + 1) * c by { Assoc(x1 + 1, m, x); }
    var da, cb := (x1 - 1) * c, (x1 + 1) * c;
    assert da + cb == (2 * x1) * c && da - cb == (-2) * c;
    Squared(2 * x1, c);
    Squared(-2, c);
    Squared(m, x);
    assert (2 * x1) * (2 * x1) == 4 * (x1 * x1);
    var cc := c * c;
    assert (4 * (x1 * x1)) * cc == x1 * (x1 * (4 * cc)) by { Assoc(x1, x1, 4 * cc); }
    assert (m * m) * (x * x) == (x * x) * (m * m);
  }
}

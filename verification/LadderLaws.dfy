/** The whole ladder (crypto/x25519.c:102-126): along any run of points of the curve that the tangent and chord laws
    lead through, what X25519 computes is the coordinate of the point at the scalar's number. */
module LadderLaws {
  import opened Arith
  import opened Machine
  import opened NumberTheory
  import opened Limbs16
  import opened Field25519
  import opened X25519
  import opened MontgomeryLaws

  /** (u, v) is a point of v^2 = u^3 + 486662 u^2 + u modulo p. */
  ghost predicate OnCurve(u: int, v: int, p: int)
    requires p > 0
  {
    Cong(v * v, u * (u * u + 486662 * u + 1), p)
  }

  /** w is the coordinate of twice the point (u, v), by the tangent there. */
  ghost predicate Tangent(u: int, v: int, w: int, p: int)
    requires p > 0
  {
    && v % p != 0
    && Cong(w * (4 * (v * v)),
         (3 * (u * u) + 2 * 486662 * u + 1) * (3 * (u * u) + 2 * 486662 * u + 1) - (486662 + 2 * u) * (4 * (v * v)), p)
  }

  /** w is the coordinate of the sum of (u, v) and (y, t), by the chord through them; x that of their difference. */
  ghost predicate Chord(x: int, u: int, v: int, y: int, t: int, w: int, p: int)
    requires p > 0
  {
    && (u - y) % p != 0
    && Cong(x * ((u - y) * (u - y)), (v + t) * (v + t) - (486662 + u + y) * ((u - y) * (u - y)), p)
    && Cong(w * ((u - y) * (u - y)), (v - t) * (v - t) - (486662 + u + y) * ((u - y) * (u - y)), p)
  }

  /** Point i has coordinates u(i) and v(i). The laws lead from point 1 and its double to points n and n + 1: the pair
      for 2i is the tangent's at i and the chord's through i and i + 1, the pair for 2i + 1 that chord's and the
      tangent's at i + 1. */
  ghost predicate Leads(u: nat -> int, v: nat -> int, n: nat, p: int)
    requires p > 0
  {
    && n > 0 && OnCurve(u(n), v(n), p) && OnCurve(u(n + 1), v(n + 1), p)
    && if n == 1 then u(1) % p != 0 && Tangent(u(1), v(1), u(2), p)
       else
         var i := n / 2;
         && Leads(u, v, i, p)
         && if n % 2 == 0 then
              Tangent(u(i), v(i), u(n), p) && Chord(u(1), u(i), v(i), u(i + 1), v(i + 1), u(n + 1), p)
            else
              Chord(u(1), u(i + 1), v(i + 1), u(i), v(i), u(n), p) && Tangent(u(i + 1), v(i + 1), u(n + 1), p)
  }

  /** The pair stands for two coordinates, neither point at infinity. */
  ghost predicate Stands(s: Ladder, u: int, w: int, p: int)
    requires p > 0
  {
    Cong(s.x2, u * s.z2, p) && Cong(s.x3, w * s.z3, p) && s.z2 % p != 0 && s.z3 % p != 0
  }

  // ---- dividing by what is not zero ------------------------------------------------------------------------

  lemma NonZero(a: int, b: int, p: int)
    requires IsPrime(p) && a % p != 0 && b % p != 0
    ensures (a * b) % p != 0
  {
    if (a * b) % p == 0 { Euclid(p, a, b); }
  }

  lemma CongZero(x: int, y: int, p: int)
    requires p > 0 && Cong(x, y, p)
    ensures x % p == y % p
  {}

  lemma Meet(x: int, y: int, z: int, p: int)
    requires p > 0 && Cong(x, z, p) && Cong(y, z, p)
    ensures Cong(x, y, p)
  {}

  /** What a doubling gives, by the tangent's law: x stands for k g and z for k f, where w f stands for g. */
  lemma Doubled(u: int, v: int, w: int, m: int, k: int, x: int, z: int, p: int)
    requires IsPrime(p) && p > 4 && Tangent(u, v, w, p) && m % p != 0 && k == (m * m) * (m * m)
    requires var t := 3 * (u * u) + 2 * 486662 * u + 1;
             && Cong(z, k * (4 * (v * v)), p) && Cong(x, k * (t * t - (486662 + 2 * u) * (4 * (v * v))), p)
    ensures Cong(x, w * z, p) && z % p != 0
  {
    hide Cong;
    var f, t := 4 * (v * v), 3 * (u * u) + 2 * 486662 * u + 1;
    var g := t * t - (486662 + 2 * u) * f;
    NonZero(m, m, p);
    NonZero(m * m, m * m, p);
    NonZero(v, v, p);
    ModSmall(4, p);
    NonZero(4, v * v, p);
    NonZero(k, f, p);
    CongZero(z, k * f, p);
    Itself(w, p);
    Itself(k, p);
    CongMul(k, k, w * f, g, p);
    CongMul(w, w, z, k * f, p);
    assert w * (k * f) == k * (w * f) by {
      Assoc(w, k, f);
      Assoc(k, w, f);
    }
    CongZero(x, k * g, p);
    CongZero(k * (w * f), k * g, p);
    CongZero(w * z, w * (k * f), p);
    Residues(x, w * z, p);
  }

  lemma Residues(x: int, y: int, p: int)
    requires p > 0 && x % p == y % p
    ensures Cong(x, y, p)
  {}

  /** What an addition gives, by the chord's law. */
  lemma Added(x1: int, u: int, v: int, y: int, t: int, w: int, z2: int, z3: int, x: int, z: int, p: int)
    requires IsPrime(p) && p > 4 && Chord(x1, u, v, y, t, w, p) && x1 % p != 0 && z2 % p != 0 && z3 % p != 0
    requires var d := u - y;
             && Cong(z, x1 * ((4 * ((z2 * z2) * (z3 * z3))) * (d * d)), p)
             && Cong(x * (d * d), z * ((v - t) * (v - t) - (486662 + u + y) * (d * d)), p)
    ensures Cong(x, w * z, p) && z % p != 0
  {
    hide Cong;
    var dd, k := (u - y) * (u - y), 4 * ((z2 * z2) * (z3 * z3));
    NonZero(u - y, u - y, p);
    NonZero(z2, z2, p);
    NonZero(z3, z3, p);
    NonZero(z2 * z2, z3 * z3, p);
    ModSmall(4, p);
    NonZero(4, (z2 * z2) * (z3 * z3), p);
    NonZero(k, dd, p);
    NonZero(x1, k * dd, p);
    CongZero(z, x1 * (k * dd), p);
    Cancel(x, z, w, dd, (v - t) * (v - t) - (486662 + u + y) * dd, p);
  }

  lemma Cancel(x: int, z: int, w: int, d: int, g: int, p: int)
    requires IsPrime(p) && d % p != 0 && Cong(x * d, z * g, p) && Cong(w * d, g, p)
    ensures Cong(x, w * z, p)
  {
    hide Cong;
    Itself(z, p);
    CongMul(z, z, w * d, g, p);
    Meet(x * d, z * (w * d), z * g, p);
    assert z * (w * d) == (w * z) * d by { Assoc(z, w, d); }
    var k := CongWitness(x * d, (w * z) * d, p);
    assert d * (x - w * z) == k * p;
    ProductVanishes(p, d, x - w * z, k);
    CongMultiple(x, w * z, (x - w * z) / p, p);
  }

  // ---- the run -----------------------------------------------------------------------------------------------

  /** The ladder's pair for n is the pair of points n and n + 1. */
  lemma {:induction false} PairFollows(u: nat -> int, v: nat -> int, n: nat, p: int)
    requires p > 0 && IsPrime(p) && Leads(u, v, n, p)
    ensures p == P ==> Stands(Multiples(n, u(1)), u(n), u(n + 1), p) && u(1) % p != 0
  {
    hide Step;
    hide Cong;
    hide Tangent;
    hide Chord;
    if p == P {
      if n == 1 {
        var s := Ladder(u(1), 1, 1, 0);
        var r := Step(u(1), s);
        FirstPair(u(1));
        Itself(u(1), p);
        var slope := 3 * (u(1) * u(1)) + 2 * 486662 * u(1) + 1;
        TangentLaw(u(1), s, u(1), v(1), slope, slope * slope - (486662 + 2 * u(1)) * (4 * (v(1) * v(1))), 1,
          4 * (v(1) * v(1)));
        ModSmall(1, p);
        Doubled(u(1), v(1), u(2), 1, 1, r.x2, r.z2, p);
        FromInfinity(u(1));
        ModSmall(4, p);
        NonZero(4, u(1), p);
        CongZero(r.z3, 4 * u(1), p);
      } else {
        var i := n / 2;
        var m := Multiples(i, u(1));
        PairFollows(u, v, i, p);
        PairOnCurve(u, v, i, p);
        if n % 2 == 0 {
          Next(u(1), m, u(i), v(i), u(i + 1), v(i + 1), u(n), u(n + 1), p);
        } else {
          var s := Ladder(m.x3, m.z3, m.x2, m.z2);
          Next(u(1), s, u(i + 1), v(i + 1), u(i), v(i), u(n + 1), u(n), p);
        }
      }
    }
  }

  lemma PairOnCurve(u: nat -> int, v: nat -> int, i: nat, p: int)
    requires p > 0 && Leads(u, v, i, p)
    ensures OnCurve(u(i), v(i), p) && OnCurve(u(i + 1), v(i + 1), p)
  {
    hide Cong;
    hide Tangent;
    hide Chord;
  }

  /** One step, from a pair that stands for (u, v) and (y, t) to the double of the first and the sum. */
  lemma Next(x1: int, s: Ladder, u: int, v: int, y: int, t: int, w: int, q: int, p: int)
    requires p > 0 && IsPrime(p) && OnCurve(u, v, p) && OnCurve(y, t, p) && x1 % p != 0
    requires Stands(s, u, y, p) && Tangent(u, v, w, p) && Chord(x1, u, v, y, t, q, p)
    ensures p == P ==> Stands(Step(x1, s), w, q, p)
  {
    hide Cong;
    hide Step;
    hide IsPrime;
    if p == P {
      var r := Step(x1, s);
      var slope := 3 * (u * u) + 2 * 486662 * u + 1;
      TangentLaw(x1, s, u, v, slope, slope * slope - (486662 + 2 * u) * (4 * (v * v)),
        (s.z2 * s.z2) * (s.z2 * s.z2), 4 * (v * v));
      ChordLaw(x1, s, u, v, y, t);
      Doubled(u, v, w, s.z2, (s.z2 * s.z2) * (s.z2 * s.z2), r.x2, r.z2, p);
      Added(x1, u, v, y, t, q, s.z2, s.z3, r.x3, r.z3, p);
    }
  }

  lemma FirstPair(x: int)
    ensures var r := Step(x, Ladder(x, 1, 1, 0)); Multiples(1, x) == Ladder(r.x3, r.z3, r.x2, r.z2)
  {
    hide Step;
    assert Multiples(0, x) == Ladder(1, 0, x, 1);
  }

  lemma FromInfinity(x: int)
    ensures var r := Step(x, Ladder(x, 1, 1, 0)); Cong(r.x3, x * r.z3, P) && Cong(r.z3, 4 * x, P)
  {
    hide Cong;
    hide Step;
    var s := Ladder(x, 1, 1, 0);
    var r := Step(x, s);
    Same(x);
    Same(1);
    Same(0);
    AddedHalf(x, s, x, 1, 1, 0);
    SumsAt(x);
    CongMul(x, x, r.z3, 4 * x, P);
    Meet(r.x3, x * r.z3, x * (4 * x), P);
  }

  lemma SumsAt(x: int)
    ensures var da, cb := (1 - 0) * (x + 1), (1 + 0) * (x - 1);
            (da + cb) * (da + cb) == x * (4 * x) && x * ((da - cb) * (da - cb)) == 4 * x
  {}

  /** X25519 gives the coordinate of the point at the clamped scalar's number, on every run of points from the given
      one that the laws lead through to there. */
  lemma ResultFollows(scalar: seq<u8>, point: seq<u8>, t: nat, k: nat, u: nat -> int, v: nat -> int, p: int)
    requires |scalar| == 32 && |point| == 32 && t == 254 && p > 0 && IsPrime(p)
    requires k == Le(scalar) % Pow2(t) - Le(scalar) % 8 + Pow2(t)
    requires u(1) == Le(point) % Pow2(t + 1) % p && Leads(u, v, k, p)
    ensures p == 0x7fff_ffff_ffff_ffff_ffff_ffff_ffff_ffff_ffff_ffff_ffff_ffff_ffff_ffff_ffff_ffed
        ==> RfcX25519(DecodeScalar(scalar), Le(Masked(point))) == u(k) % p
  {
    hide Step;
    hide Multiples;
    hide RfcX25519;
    hide Pow;
    hide Le;
    hide Leads;
    hide Cong;
    hide IsPrime;
    hide Stands;
    hide DecodeScalar;
    hide Masked;
    hide Pow2;
    if p == P {
      ByNumber(scalar, point, t);
      PairFollows(u, v, k, p);
      var r := Multiples(k, u(1));
      StandsFirst(r, u(k), u(k + 1), p);
      Quotient(r.x2, r.z2, u(k), Pow(r.z2, p - 2), p);
    }
  }

  lemma StandsFirst(s: Ladder, u: int, w: int, p: int)
    requires p > 0 && Stands(s, u, w, p)
    ensures Cong(s.x2, u * s.z2, p) && s.z2 % p != 0
  {}

  /** Dividing by the power p - 2. */
  lemma Quotient(x: int, z: int, w: int, q: int, p: int)
    requires IsPrime(p) && p > 2 && Cong(x, w * z, p) && z % p != 0 && q == Pow(z, p - 2)
    ensures x * q % p == w % p
  {
    hide Cong;
    hide Pow;
    FermatInverse(p, z);
    Itself(q, p);
    Itself(w, p);
    CongMul(x, w * z, q, q, p);
    Assoc(w, z, q);
    CongMul(w, w, z * q, 1, p);
    CongZero(x * q, w * (z * q), p);
    CongZero(w * (z * q), w * 1, p);
  }
}

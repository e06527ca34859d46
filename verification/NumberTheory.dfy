/** Primes, Euclid's lemma, Fermat's little theorem, and the RSA exponent law. */
module NumberTheory {
  import opened Arith

  ghost predicate IsPrime(p: int) {
    p > 1 && forall d :: 1 < d < p ==> p % d != 0
  }

  /** Euclid's lemma for a factor already reduced below the prime. */
  lemma {:induction false} EuclidReduced(p: int, a: int, b: int)
    requires IsPrime(p) && 0 < a < p && (a * b) % p == 0
    ensures b % p == 0
    decreases a
  {
    if a > 1 {
      var q, r := p / a, p % a;
      assert p == q * a + r;
      var k := (a * b) / p;
      assert a * b == k * p;
      assert r * b == p * b - q * (a * b) by {
        assert r == p - q * a;
        assert (p - q * a) * b == p * b - (q * a) * b;
        Assoc(q, a, b);
      }
      assert q * (a * b) == (q * k) * p by { Assoc(q, k, p); }
      assert r * b == (b - q * k) * p;
      DivModUnique(r * b, b - q * k, 0, p);
      EuclidReduced(p, r, b);
    }
  }

  lemma Euclid(p: int, a: int, b: int)
    requires IsPrime(p) && (a * b) % p == 0
    ensures a % p == 0 || b % p == 0
  {
    if a % p != 0 {
      ModMod(a, p);
      CongMul(a % p, a, b, b, p);
      EuclidReduced(p, a % p, b);
    }
  }

  // ---- binomial coefficients --------------------------------------------

  ghost function Binom(n: nat, k: nat): nat {
    if k == 0 then 1 else if n == 0 then 0 else Binom(n - 1, k - 1) + Binom(n - 1, k)
  }

  ghost function BinomSum(x: int, n: nat, k: nat): int {
    (if k == 0 then 0 else BinomSum(x, n, k - 1)) + Binom(n, k) * Pow(x, k)
  }

  lemma {:induction false} BinomAbove(n: nat, k: nat)
    requires k > n
    ensures Binom(n, k) == 0
  {
    if n > 0 { BinomAbove(n - 1, k - 1); BinomAbove(n - 1, k); }
  }

  lemma {:induction false} BinomDiagonal(n: nat)
    ensures Binom(n, n) == 1
  {
    if n > 0 { BinomDiagonal(n - 1); BinomAbove(n - 1, n); }
  }

  lemma BinomSumAlgebra(x: int, s: int, t: int, c: int, c': int, y: int)
    requires (x + 1) * s == t + c' * y
    ensures (x + 1) * (s + c * y) == t + (c' + c) * y + c * (x * y)
  {
    calc {
      (x + 1) * (s + c * y);
      (x + 1) * s + (x + 1) * (c * y);
      (x + 1) * s + x * (c * y) + c * y;
      { Assoc(x, c, y); Assoc(c, x, y); }
      t + c' * y + c * (x * y) + c * y;
    }
  }

  lemma {:induction false} BinomSumStep(x: int, n: nat, k: nat)
    ensures (x + 1) * BinomSum(x, n, k) == BinomSum(x, n + 1, k) + Binom(n, k) * Pow(x, k + 1)
  {
    if k == 0 {
      BinomSumAlgebra(x, 0, 0, 1, 0, 1);
      assert Pow(x, 1) == x * Pow(x, 0);
    } else {
      BinomSumStep(x, n, k - 1);
      BinomSumAlgebra(x, BinomSum(x, n, k - 1), BinomSum(x, n + 1, k - 1), Binom(n, k), Binom(n, k - 1), Pow(x, k));
    }
  }

  lemma {:induction false} BinomialTheorem(x: int, n: nat)
    ensures Pow(x + 1, n) == BinomSum(x, n, n)
  {
    if n > 0 {
      BinomialTheorem(x, n - 1);
      BinomSumStep(x, n - 1, n - 1);
      BinomDiagonal(n - 1);
      BinomDiagonal(n);
    }
  }

  lemma AbsorbAlgebra(n: int, k: int, u: int, v: int, w: int)
    requires (k - 1) * u == (n - 1) * v && k * w == (n - 1) * (u - v)
    ensures k * (u + w) == n * u
  {
    assert k * (u + w) == u + (k - 1) * u + k * w;
    assert (n - 1) * v + (n - 1) * (u - v) == (n - 1) * u;
  }

  lemma {:induction false} BinomAbsorb(n: nat, k: nat)
    requires n > 0 && k > 0
    ensures k * Binom(n, k) == n * Binom(n - 1, k - 1)
    decreases n
  {
    if n == 1 {
      if k > 1 { BinomAbove(0, k - 1); BinomAbove(1, k); }
    } else {
      BinomAbsorb(n - 1, k);
      var u, w := Binom(n - 1, k - 1), Binom(n - 1, k);
      var v := if k == 1 then 0 else Binom(n - 2, k - 2);
      assert Binom(n - 2, k - 1) == u - v;
      if k > 1 { BinomAbsorb(n - 1, k - 1); }
      AbsorbAlgebra(n, k, u, v, w);
    }
  }

  lemma PrimeDividesBinom(p: int, k: nat)
    requires IsPrime(p) && 0 < k < p
    ensures Binom(p, k) % p == 0
  {
    BinomAbsorb(p, k);
    var c := Binom(p - 1, k - 1);
    DivModUnique(k * Binom(p, k), c, 0, p);
    EuclidReduced(p, k, Binom(p, k));
  }

  lemma {:induction false} MiddleTermsVanish(p: int, x: int, k: nat)
    requires IsPrime(p) && k < p
    ensures Cong(BinomSum(x, p, k), 1, p)
  {
    if k > 0 {
      MiddleTermsVanish(p, x, k - 1);
      PrimeDividesBinom(p, k);
      ModSmall(0, p);
      CongMul(Binom(p, k), 0, Pow(x, k), Pow(x, k), p);
      CongAdd(BinomSum(x, p, k - 1), 1, Binom(p, k) * Pow(x, k), 0, p);
    }
  }

  /** Fermat's little theorem. */
  lemma {:induction false} Fermat(p: int, x: nat)
    requires IsPrime(p)
    ensures Cong(Pow(x, p), x, p)
  {
    if x > 0 {
      Fermat(p, x - 1);
      BinomialTheorem(x - 1, p);
      MiddleTermsVanish(p, x - 1, p - 1);
      BinomDiagonal(p);
      CongAdd(BinomSum(x - 1, p, p - 1), 1, Pow(x - 1, p), x - 1, p);
    }
  }

  // ---- the RSA exponent law ----------------------------------------------

  /** A power p - 2 is an inverse when p is prime. */
  lemma FermatInverse(p: int, z: int)
    requires IsPrime(p) && z % p != 0 && p > 2
    ensures Cong(z * Pow(z, p - 2), 1, p)
  {
    var r := z % p;
    Fermat(p, r);
    ModMod(z, p);
    CongPow(z, r, p, p);
    var t := z * Pow(z, p - 2);
    assert Pow(z, p) == z * Pow(z, p - 1) && Pow(z, p - 1) == z * Pow(z, p - 2);
    assert Cong(z * t, z, p);
    var k := CongWitness(z * t, z, p);
    assert z * (t - 1) == k * p;
    ProductVanishes(p, z, t - 1, k);
    CongMultiple(t, 1, (t - 1) / p, p);
  }

  lemma ProductVanishes(p: int, z: int, d: int, k: int)
    requires IsPrime(p) && z % p != 0 && z * d == k * p
    ensures d % p == 0
  {
    DivModUnique(z * d, k, 0, p);
    Euclid(p, z, d);
  }

  lemma {:induction false} FermatIterated(p: int, x: nat, t: nat)
    requires IsPrime(p)
    ensures (p - 1) * t >= 0
    ensures Cong(Pow(x, 1 + (p - 1) * t), x, p)
    decreases t
  {
    if t > 0 {
      FermatIterated(p, x, t - 1);
      var e := 1 + (p - 1) * (t - 1);
      assert 1 + (p - 1) * t == e + (p - 1);
      PowAdd(x, e, p - 1);
      CongMul(Pow(x, e), x, Pow(x, p - 1), Pow(x, p - 1), p);
      Fermat(p, x);
    } else {
      assert Pow(x, 1) == x * Pow(x, 0);
    }
  }

  lemma DistinctPrimesDoNotDivide(p: int, q: int)
    requires IsPrime(p) && IsPrime(q) && p != q
    ensures p % q != 0
  {
    if p < q { ModSmall(p, q); }
  }

  lemma CoprimeProduct(p: int, q: int, a: int, b: int)
    requires IsPrime(p) && IsPrime(q) && p != q
    requires Cong(a, b, p) && Cong(a, b, q)
    ensures p * q > 0 && Cong(a, b, p * q)
  {
    var k := CongWitness(a, b, p);
    var l := CongWitness(a, b, q);
    DivModUnique(p * k, l, 0, q);
    DistinctPrimesDoNotDivide(p, q);
    Euclid(q, p, k);
    var w := k / q;
    CoprimeAlgebra(k, w, p, q);
    CongMultiple(a, b, w, p * q);
  }

  lemma CoprimeAlgebra(k: int, w: int, p: int, q: int)
    requires k == w * q && p > 0 && q > 0
    ensures k * p == w * (p * q) && p * q > 0
  {
    Assoc(w, q, p);
  }

  lemma ExponentSplits(a: nat, b: nat, j: nat)
    ensures j * (a * b) == a * (j * b) && j * (a * b) == b * (j * a)
    ensures j * a >= 0 && j * b >= 0
  {
    Assoc(a, j, b);
    Assoc(j, a, b);
    Assoc(b, j, a);
    Assoc(j, b, a);
  }

  lemma ExponentIdentity(p: int, q: int, n: nat, t: nat, u: nat, x: nat)
    requires IsPrime(p) && IsPrime(q) && p != q
    requires n == 1 + (p - 1) * t && n == 1 + (q - 1) * u
    ensures p * q > 0 && Cong(Pow(x, n), x, p * q)
  {
    FermatIterated(p, x, t);
    FermatIterated(q, x, u);
    CoprimeProduct(p, q, Pow(x, n), x);
  }

  /** e*d = 1 + j*(p-1)*(q-1) makes x -> x^(d*e) the identity modulo p*q, for every x. */
  lemma RsaExponentLaw(p: int, q: int, e: nat, d: nat, j: nat, x: nat)
    requires IsPrime(p) && IsPrime(q) && p != q
    requires e * d == 1 + j * ((p - 1) * (q - 1))
    ensures p * q > 0 && Cong(Pow(Pow(x, d), e), x, p * q)
  {
    ExponentSplits(p - 1, q - 1, j);
    var n: nat := d * e;
    ExponentIdentity(p, q, n, j * (q - 1), j * (p - 1), x);
    PowMul(x, d, e);
  }

  // ---- 65537 is prime -----------------------------------------------------

  /** None of b..b+15 divides n. */
  predicate NoDivisorFrom(n: int, b: int)
    requires b > 0
  {
    && n % (b + 0) != 0
    && n % (b + 1) != 0
    && n % (b + 2) != 0
    && n % (b + 3) != 0
    && n % (b + 4) != 0
    && n % (b + 5) != 0
    && n % (b + 6) != 0
    && n % (b + 7) != 0
    && n % (b + 8) != 0
    && n % (b + 9) != 0
    && n % (b + 10) != 0
    && n % (b + 11) != 0
    && n % (b + 12) != 0
    && n % (b + 13) != 0
    && n % (b + 14) != 0
    && n % (b + 15) != 0
  }

  lemma NoDivisorBlock(n: int, b: int, k: int)
    requires 0 < b <= k < b + 16 && NoDivisorFrom(n, b)
    ensures n % k != 0
  {
    if
    case k == b + 0 => assert n % (b + 0) != 0;
    case k == b + 1 => assert n % (b + 1) != 0;
    case k == b + 2 => assert n % (b + 2) != 0;
    case k == b + 3 => assert n % (b + 3) != 0;
    case k == b + 4 => assert n % (b + 4) != 0;
    case k == b + 5 => assert n % (b + 5) != 0;
    case k == b + 6 => assert n % (b + 6) != 0;
    case k == b + 7 => assert n % (b + 7) != 0;
    case k == b + 8 => assert n % (b + 8) != 0;
    case k == b + 9 => assert n % (b + 9) != 0;
    case k == b + 10 => assert n % (b + 10) != 0;
    case k == b + 11 => assert n % (b + 11) != 0;
    case k == b + 12 => assert n % (b + 12) != 0;
    case k == b + 13 => assert n % (b + 13) != 0;
    case k == b + 14 => assert n % (b + 14) != 0;
    case k == b + 15 => assert n % (b + 15) != 0;
  }

  lemma NoSmallDivisor(k: int)
    requires 2 <= k <= 257
    ensures 65537 % k != 0
  {
    if
    case 2 <= k < 18 => NoDivisorBlock(65537, 2, k);
    case 18 <= k < 34 => NoDivisorBlock(65537, 18, k);
    case 34 <= k < 50 => NoDivisorBlock(65537, 34, k);
    case 50 <= k < 66 => NoDivisorBlock(65537, 50, k);
    case 66 <= k < 82 => NoDivisorBlock(65537, 66, k);
    case 82 <= k < 98 => NoDivisorBlock(65537, 82, k);
    case 98 <= k < 114 => NoDivisorBlock(65537, 98, k);
    case 114 <= k < 130 => NoDivisorBlock(65537, 114, k);
    case 130 <= k < 146 => NoDivisorBlock(65537, 130, k);
    case 146 <= k < 162 => NoDivisorBlock(65537, 146, k);
    case 162 <= k < 178 => NoDivisorBlock(65537, 162, k);
    case 178 <= k < 194 => NoDivisorBlock(65537, 178, k);
    case 194 <= k < 210 => NoDivisorBlock(65537, 194, k);
    case 210 <= k < 226 => NoDivisorBlock(65537, 210, k);
    case 226 <= k < 242 => NoDivisorBlock(65537, 226, k);
    case 242 <= k < 258 => NoDivisorBlock(65537, 242, k);
  }

  lemma FermatNumberIsPrime()
    ensures IsPrime(65537)
  {
    forall d | 1 < d < 65537
      ensures 65537 % d != 0
    {
      if 65537 % d == 0 {
        var k := 65537 / d;
        assert k * d == 65537;
        if d <= 256 {
          NoSmallDivisor(d);
        } else {
          if k > 256 { MulGe(k, 257, d); }
          DivModUnique(65537, d, 0, k);
          if k == 1 { assert false; }
          NoSmallDivisor(k);
        }
      }
    }
  }
}

/** AES's byte field: xtime, mul, and MixColumns with its inverse (crypto/aead.c:53,
    crypto/wifi_crypto.c:112-116, crypto/wifi_crypto.c:146-151), section 4.2 and 5.1.3 of FIPS 197. */
module AesField {
  import opened Arith
  import opened Machine
  import opened Bits

  /** xtime: times x, reduced by x^8 + x^4 + x^3 + x + 1. */
  function Xt(a: u8): u8 {
    Xor8(2 * a % 0x100, if a >= 0x80 then 0x1b else 0)
  }

  /** mul's running product: n steps over the bits of b. */
  function Product(a: u8, b: nat, n: nat): u8
    decreases n
  {
    if n == 0 then 0 else Xor8(if b % 2 == 1 then a else 0, Product(Xt(a), b / 2, n - 1))
  }

  /** mul. */
  method Mul(a: u8, b: u8) returns (r: u8)
    ensures r == Product(a, b, 8)
  {
    hide Xor8;
    hide Xt;
    hide Xor;
    r := 0;
    var x, y := a, b;
    var i: nat := 0;
    ghost var n: nat := 8;
    ZeroLeft(Product(a, b, n));
    while i < 8
      invariant 0 <= i <= 8 && n == 8
      invariant Xor8(r, Product(x, y, n - i)) == Product(a, b, n)
    {
      ghost var step: u8 := if y % 2 == 1 then x else 0;
      AssocBytes(r, step, Product(Xt(x), y / 2, n - i - 1));
      ZeroRight(r);
      r := Xor8(r, if y % 2 == 1 then x else 0);
      x := Xt(x);
      y := y / 2;
      i := i + 1;
    }
    ZeroRight(r);
  }

  // ---- the laws of exclusive or on bytes -----------------------------------------------------------

  lemma ZeroRight(a: u8)
    ensures Xor8(a, 0) == a
  {
    XorZero(a);
  }

  lemma ZeroLeft(a: u8)
    ensures Xor8(0, a) == a
  {
    XorZero(a);
    XorCommutes(0, a);
  }

  lemma SelfBytes(a: u8)
    ensures Xor8(a, a) == 0
  {
    XorSelf(a);
  }

  lemma CommutesBytes(a: u8, b: u8)
    ensures Xor8(a, b) == Xor8(b, a)
  {
    XorCommutes(a, b);
  }

  lemma AssocBytes(a: u8, b: u8, c: u8)
    ensures Xor8(Xor8(a, b), c) == Xor8(a, Xor8(b, c))
  {
    hide Xor;
    XorAssoc(a, b, c);
  }

  lemma MiddleBytes(a: u8, b: u8, c: u8, d: u8)
    ensures Xor8(Xor8(a, b), Xor8(c, d)) == Xor8(Xor8(a, c), Xor8(b, d))
  {
    hide Xor;
    XorMiddle(a, b, c, d);
  }

  /** Doubling modulo 256 goes through. */
  lemma DoubledBytes(a: u8, b: u8)
    ensures Xor8(2 * a % 0x100, 2 * b % 0x100) == 2 * Xor8(a, b) % 0x100
    ensures Xor8(a, b) >= 0x80 <==> (a >= 0x80) != (b >= 0x80)
  {
    hide Xor;
    var ah, al, bh, bl := a / 0x80, a % 0x80, b / 0x80, b % 0x80;
    assert Pow2(7) == 0x80;
    XorSplit(ah, al, bh, bl, 7, 0x80);
    XorBound(al, bl, 7);
    XorTop(ah, bh);
    assert 2 * a % 0x100 == 2 * al && 2 * b % 0x100 == 2 * bl;
    XorEven(al, bl);
  }

  lemma XorTop(p: nat, q: nat)
    requires p < 2 && q < 2
    ensures Xor(p, q) == if p == q then 0 else 1
  {
    XorStep(p, q);
    XorZero(0);
  }

  lemma XorEven(x: nat, y: nat)
    ensures Xor(2 * x, 2 * y) == 2 * Xor(x, y)
  {
    XorStep(2 * x, 2 * y);
  }

  lemma XtLinear(a: u8, b: u8)
    ensures Xt(Xor8(a, b)) == Xor8(Xt(a), Xt(b))
  {
    hide Xor8;
    var f: u8, g: u8 := if a >= 0x80 then 0x1b else 0, if b >= 0x80 then 0x1b else 0;
    DoubledBytes(a, b);
    MiddleBytes(2 * a % 0x100, f, 2 * b % 0x100, g);
    SelfBytes(0x1b);
    ZeroRight(0x1b);
    ZeroLeft(0x1b);
    ZeroRight(0);
  }

  lemma {:induction false} ProductLinear(a: u8, c: u8, b: nat, n: nat)
    ensures Product(Xor8(a, c), b, n) == Xor8(Product(a, b, n), Product(c, b, n))
    decreases n
  {
    hide Xor8;
    hide Xt;
    ZeroRight(0);
    if n > 0 {
      XtLinear(a, c);
      ProductLinear(Xt(a), Xt(c), b / 2, n - 1);
      var x: u8, y: u8 := if b % 2 == 1 then a else 0, if b % 2 == 1 then c else 0;
      MiddleBytes(x, Product(Xt(a), b / 2, n - 1), y, Product(Xt(c), b / 2, n - 1));
    }
  }

  // ---- cancellation ------------------------------------------------------------------------------
  // a0 stands for a byte x and a1 .. a4 for x times 2, 4, 8 and 16. Each function below collects what one
  // byte contributes to one byte of the inverse of the mix; what is left is the byte itself, or nothing.

  lemma Half(x: nat, y: nat)
    ensures Xor(x, y) / 2 == Xor(x / 2, y / 2)
    ensures Xor(x, y) % 2 == 1 <==> (x % 2 == 1) != (y % 2 == 1)
  {
    hide Xor;
    XorStep(x, y);
  }

  function Own(a0: nat, a1: nat, a2: nat, a3: nat, a4: nat): nat {
    Xor(Xor(Xor(Xor(a2, Xor(a3, a4)), Xor(a0, Xor(a1, a3))), Xor(a0, Xor(a2, a3))), Xor(Xor(a1, a4), Xor(a0, a3)))
  }

  lemma OwnHalves(a0: nat, a1: nat, a2: nat, a3: nat, a4: nat)
    ensures Own(a0, a1, a2, a3, a4) / 2 == Own(a0 / 2, a1 / 2, a2 / 2, a3 / 2, a4 / 2)
    ensures Own(a0, a1, a2, a3, a4) % 2 == a0 % 2
  {
    hide Xor;
    Half(a3, a4);
    Half(a2, Xor(a3, a4));
    Half(a1, a3);
    Half(a0, Xor(a1, a3));
    Half(Xor(a2, Xor(a3, a4)), Xor(a0, Xor(a1, a3)));
    Half(a2, a3);
    Half(a0, Xor(a2, a3));
    Half(Xor(Xor(a2, Xor(a3, a4)), Xor(a0, Xor(a1, a3))), Xor(a0, Xor(a2, a3)));
    Half(a1, a4);
    Half(a0, a3);
    Half(Xor(a1, a4), Xor(a0, a3));
    Half(Xor(Xor(Xor(a2, Xor(a3, a4)), Xor(a0, Xor(a1, a3))), Xor(a0, Xor(a2, a3))), Xor(Xor(a1, a4), Xor(a0, a3)));
  }

  lemma {:induction false} OwnCancels(a0: nat, a1: nat, a2: nat, a3: nat, a4: nat)
    ensures Own(a0, a1, a2, a3, a4) == a0
    decreases a0 + a1 + a2 + a3 + a4
  {
    XorZero(0);
    if a0 + a1 + a2 + a3 + a4 > 0 {
      OwnHalves(a0, a1, a2, a3, a4);
      OwnCancels(a0 / 2, a1 / 2, a2 / 2, a3 / 2, a4 / 2);
    }
  }

  function Next(a0: nat, a1: nat, a2: nat, a3: nat, a4: nat): nat {
    Xor(Xor(Xor(Xor(Xor(a2, Xor(a3, a4)), Xor(a1, Xor(a2, a3))), Xor(a1, Xor(a2, a4))), Xor(a0, Xor(a2, a3))),
        Xor(a0, a3))
  }

  lemma NextHalves(a0: nat, a1: nat, a2: nat, a3: nat, a4: nat)
    ensures Next(a0, a1, a2, a3, a4) / 2 == Next(a0 / 2, a1 / 2, a2 / 2, a3 / 2, a4 / 2)
    ensures Next(a0, a1, a2, a3, a4) % 2 == 0
  {
    hide Xor;
    Half(a3, a4);
    Half(a2, Xor(a3, a4));
    Half(a2, a3);
    Half(a1, Xor(a2, a3));
    Half(Xor(a2, Xor(a3, a4)), Xor(a1, Xor(a2, a3)));
    Half(a2, a4);
    Half(a1, Xor(a2, a4));
    Half(Xor(Xor(a2, Xor(a3, a4)), Xor(a1, Xor(a2, a3))), Xor(a1, Xor(a2, a4)));
    Half(a0, Xor(a2, a3));
    Half(Xor(Xor(Xor(a2, Xor(a3, a4)), Xor(a1, Xor(a2, a3))), Xor(a1, Xor(a2, a4))), Xor(a0, Xor(a2, a3)));
    Half(a0, a3);
    Half(Xor(Xor(Xor(Xor(a2, Xor(a3, a4)), Xor(a1, Xor(a2, a3))), Xor(a1, Xor(a2, a4))), Xor(a0, Xor(a2, a3))),
        Xor(a0, a3));
  }

  lemma {:induction false} NextCancels(a0: nat, a1: nat, a2: nat, a3: nat, a4: nat)
    ensures Next(a0, a1, a2, a3, a4) == 0
    decreases a0 + a1 + a2 + a3 + a4
  {
    XorZero(0);
    if a0 + a1 + a2 + a3 + a4 > 0 {
      NextHalves(a0, a1, a2, a3, a4);
      NextCancels(a0 / 2, a1 / 2, a2 / 2, a3 / 2, a4 / 2);
    }
  }

  function Across(a0: nat, a1: nat, a2: nat, a3: nat, a4: nat): nat {
    Xor(Xor(Xor(Xor(a1, Xor(a2, a3)), Xor(Xor(a1, Xor(a2, a4)), Xor(a0, Xor(a1, a3)))), Xor(a1, Xor(a3, a4))),
        Xor(a0, a3))
  }

  lemma AcrossHalves(a0: nat, a1: nat, a2: nat, a3: nat, a4: nat)
    ensures Across(a0, a1, a2, a3, a4) / 2 == Across(a0 / 2, a1 / 2, a2 / 2, a3 / 2, a4 / 2)
    ensures Across(a0, a1, a2, a3, a4) % 2 == 0
  {
    hide Xor;
    Half(a2, a3);
    Half(a1, Xor(a2, a3));
    Half(a2, a4);
    Half(a1, Xor(a2, a4));
    Half(a1, a3);
    Half(a0, Xor(a1, a3));
    Half(Xor(a1, Xor(a2, a4)), Xor(a0, Xor(a1, a3)));
    Half(Xor(a1, Xor(a2, a3)), Xor(Xor(a1, Xor(a2, a4)), Xor(a0, Xor(a1, a3))));
    Half(a3, a4);
    Half(a1, Xor(a3, a4));
    Half(Xor(Xor(a1, Xor(a2, a3)), Xor(Xor(a1, Xor(a2, a4)), Xor(a0, Xor(a1, a3)))), Xor(a1, Xor(a3, a4)));
    Half(a0, a3);
    Half(Xor(Xor(Xor(a1, Xor(a2, a3)), Xor(Xor(a1, Xor(a2, a4)), Xor(a0, Xor(a1, a3)))), Xor(a1, Xor(a3, a4))),
        Xor(a0, a3));
  }

  lemma {:induction false} AcrossCancels(a0: nat, a1: nat, a2: nat, a3: nat, a4: nat)
    ensures Across(a0, a1, a2, a3, a4) == 0
    decreases a0 + a1 + a2 + a3 + a4
  {
    XorZero(0);
    if a0 + a1 + a2 + a3 + a4 > 0 {
      AcrossHalves(a0, a1, a2, a3, a4);
      AcrossCancels(a0 / 2, a1 / 2, a2 / 2, a3 / 2, a4 / 2);
    }
  }

  function Before(a0: nat, a1: nat, a2: nat, a3: nat, a4: nat): nat {
    Xor(Xor(Xor(Xor(a1, Xor(a2, a3)), Xor(a0, Xor(a1, a3))), Xor(Xor(a1, Xor(a3, a4)), Xor(a0, Xor(a2, a3)))),
        Xor(a1, a4))
  }

  lemma BeforeHalves(a0: nat, a1: nat, a2: nat, a3: nat, a4: nat)
    ensures Before(a0, a1, a2, a3, a4) / 2 == Before(a0 / 2, a1 / 2, a2 / 2, a3 / 2, a4 / 2)
    ensures Before(a0, a1, a2, a3, a4) % 2 == 0
  {
    hide Xor;
    Half(a2, a3);
    Half(a1, Xor(a2, a3));
    Half(a1, a3);
    Half(a0, Xor(a1, a3));
    Half(Xor(a1, Xor(a2, a3)), Xor(a0, Xor(a1, a3)));
    Half(a3, a4);
    Half(a1, Xor(a3, a4));
    Half(a0, Xor(a2, a3));
    Half(Xor(a1, Xor(a3, a4)), Xor(a0, Xor(a2, a3)));
    Half(Xor(Xor(a1, Xor(a2, a3)), Xor(a0, Xor(a1, a3))), Xor(Xor(a1, Xor(a3, a4)), Xor(a0, Xor(a2, a3))));
    Half(a1, a4);
    Half(Xor(Xor(Xor(a1, Xor(a2, a3)), Xor(a0, Xor(a1, a3))), Xor(Xor(a1, Xor(a3, a4)), Xor(a0, Xor(a2, a3)))),
        Xor(a1, a4));
  }

  lemma {:induction false} BeforeCancels(a0: nat, a1: nat, a2: nat, a3: nat, a4: nat)
    ensures Before(a0, a1, a2, a3, a4) == 0
    decreases a0 + a1 + a2 + a3 + a4
  {
    XorZero(0);
    if a0 + a1 + a2 + a3 + a4 > 0 {
      BeforeHalves(a0, a1, a2, a3, a4);
      BeforeCancels(a0 / 2, a1 / 2, a2 / 2, a3 / 2, a4 / 2);
    }
  }

  // ---- one column ------------------------------------------------------------------------------------

  function Sum4(a: u8, b: u8, c: u8, d: u8): u8 {
    Xor8(Xor8(Xor8(a, b), c), d)
  }

  function Times3(x: u8): u8 {
    Xor8(Xt(x), x)
  }

  /** Four bytes of a state column. */
  datatype Column = Column(a: u8, b: u8, c: u8, d: u8)

  /** MixColumns. */
  function Mix(v: Column): Column {
    Column(Sum4(Xt(v.a), Times3(v.b), v.c, v.d), Sum4(v.a, Xt(v.b), Times3(v.c), v.d),
           Sum4(v.a, v.b, Xt(v.c), Times3(v.d)), Sum4(Times3(v.a), v.b, v.c, Xt(v.d)))
  }

  /** The inverse as `decrypt` writes it. */
  function InvMix(v: Column): Column {
    Column(
      Sum4(Product(v.a, 14, 8), Product(v.b, 11, 8), Product(v.c, 13, 8), Product(v.d, 9, 8)),
      Sum4(Product(v.a, 9, 8), Product(v.b, 14, 8), Product(v.c, 11, 8), Product(v.d, 13, 8)),
      Sum4(Product(v.a, 13, 8), Product(v.b, 9, 8), Product(v.c, 14, 8), Product(v.d, 11, 8)),
      Sum4(Product(v.a, 11, 8), Product(v.b, 13, 8), Product(v.c, 9, 8), Product(v.d, 14, 8)))
  }

  lemma {:induction false} ProductZero(x: u8, n: nat)
    ensures Product(x, 0, n) == 0
    decreases n
  {
    hide Xt;
    ZeroRight(0);
    if n > 0 { ProductZero(Xt(x), n - 1); }
  }

  lemma ProductStep(x: u8, b: nat, n: nat, q: nat)
    requires n > 0 && (b == 2 * q || b == 2 * q + 1)
    ensures Product(x, b, n) == if b == 2 * q then Product(Xt(x), q, n - 1) else Xor8(x, Product(Xt(x), q, n - 1))
  {
    hide Xt;
    hide Xor8;
    assert b / 2 == q && b % 2 == b - 2 * q;
    ZeroLeft(Product(Xt(x), q, n - 1));
  }

  /** The four multipliers of the inverse, as sums of repeated doublings. */
  lemma Multipliers(x: u8, n: nat)
    requires n == 8
    ensures var x1 := Xt(x); var x2 := Xt(x1); var x3 := Xt(x2);
            && Product(x, 14, n) == Xor8(x1, Xor8(x2, x3))
            && Product(x, 11, n) == Xor8(x, Xor8(x1, x3))
            && Product(x, 13, n) == Xor8(x, Xor8(x2, x3))
            && Product(x, 9, n) == Xor8(x, x3)
  {
    hide Xt;
    hide Xor8;
    hide Product;
    var x1 := Xt(x);
    var x2 := Xt(x1);
    var x3 := Xt(x2);
    ProductZero(Xt(x3), n - 4);
    ProductStep(x3, 1, n - 3, 0);
    ZeroRight(x3);
    ProductStep(x2, 3, n - 2, 1);
    ProductStep(x2, 2, n - 2, 1);
    ProductStep(x1, 7, n - 1, 3);
    ProductStep(x1, 5, n - 1, 2);
    ProductStep(x1, 6, n - 1, 3);
    ProductStep(x1, 4, n - 1, 2);
    ProductStep(x, 14, n, 7);
    ProductStep(x, 11, n, 5);
    ProductStep(x, 13, n, 6);
    ProductStep(x, 9, n, 4);
  }

  /** What one byte, mixed, contributes to the four bytes of the inverse: itself once, nothing elsewhere. */
  lemma Contributions(x: u8, n: nat)
    requires n == 8
    ensures Sum4(Product(Xt(x), 14, n), Product(x, 11, n), Product(x, 13, n), Product(Times3(x), 9, n)) == x
    ensures Sum4(Product(Times3(x), 14, n), Product(Xt(x), 11, n), Product(x, 13, n), Product(x, 9, n)) == 0
    ensures Sum4(Product(x, 14, n), Product(Times3(x), 11, n), Product(Xt(x), 13, n), Product(x, 9, n)) == 0
    ensures Sum4(Product(x, 14, n), Product(x, 11, n), Product(Times3(x), 13, n), Product(Xt(x), 9, n)) == 0
  {
    hide Xt;
    hide Xor;
    hide Product;
    var x1 := Xt(x);
    var x2 := Xt(x1);
    var x3 := Xt(x2);
    var x4 := Xt(x3);
    Multipliers(x, n);
    Multipliers(x1, n);
    ProductLinear(x1, x, 14, n);
    ProductLinear(x1, x, 11, n);
    ProductLinear(x1, x, 13, n);
    ProductLinear(x1, x, 9, n);
    OwnCancels(x, x1, x2, x3, x4);
    NextCancels(x, x1, x2, x3, x4);
    AcrossCancels(x, x1, x2, x3, x4);
    BeforeCancels(x, x1, x2, x3, x4);
  }

  lemma Rotated(a: u8, b: u8, c: u8, d: u8)
    ensures Sum4(b, c, d, a) == Sum4(a, b, c, d)
  {
    hide Xor8;
    CommutesBytes(Xor8(Xor8(b, c), d), a);
    AssocBytes(a, Xor8(b, c), d);
    AssocBytes(a, b, c);
  }

  lemma Swapped(a: u8, b: u8, c: u8, d: u8)
    ensures Sum4(b, a, c, d) == Sum4(a, b, c, d) && Sum4(a, b, d, c) == Sum4(a, b, c, d)
  {
    hide Xor8;
    CommutesBytes(a, b);
    AssocBytes(Xor8(a, b), c, d);
    AssocBytes(Xor8(a, b), d, c);
    CommutesBytes(c, d);
  }

  lemma Summed(a: u8, b: u8, c: u8, d: u8, e: u8, f: u8, g: u8, h: u8)
    ensures Xor8(Sum4(a, b, c, d), Sum4(e, f, g, h)) == Sum4(Xor8(a, e), Xor8(b, f), Xor8(c, g), Xor8(d, h))
  {
    hide Xor8;
    MiddleBytes(Xor8(Xor8(a, b), c), d, Xor8(Xor8(e, f), g), h);
    MiddleBytes(Xor8(a, b), c, Xor8(e, f), g);
    MiddleBytes(a, b, e, f);
  }

  /** Adding up by rows or by columns. */
  lemma Transposed(p: Column, q: Column, r: Column, s: Column)
    ensures Sum4(Sum4(p.a, p.b, p.c, p.d), Sum4(q.a, q.b, q.c, q.d), Sum4(r.a, r.b, r.c, r.d), Sum4(s.a, s.b, s.c, s.d))
            == Sum4(Sum4(p.a, q.a, r.a, s.a), Sum4(p.b, q.b, r.b, s.b), Sum4(p.c, q.c, r.c, s.c),
                Sum4(p.d, q.d, r.d, s.d))
  {
    hide Xor8;
    Summed(p.a, p.b, p.c, p.d, q.a, q.b, q.c, q.d);
    Summed(Xor8(p.a, q.a), Xor8(p.b, q.b), Xor8(p.c, q.c), Xor8(p.d, q.d), r.a, r.b, r.c, r.d);
    Summed(Xor8(Xor8(p.a, q.a), r.a), Xor8(Xor8(p.b, q.b), r.b), Xor8(Xor8(p.c, q.c), r.c),
        Xor8(Xor8(p.d, q.d), r.d), s.a, s.b, s.c, s.d);
  }

  lemma ProductSum4(p: u8, q: u8, r: u8, s: u8, b: nat, n: nat)
    ensures Product(Sum4(p, q, r, s), b, n) == Sum4(Product(p, b, n), Product(q, b, n), Product(r, b, n),
      Product(s, b, n))
  {
    hide Xor8;
    hide Product;
    ProductLinear(Xor8(Xor8(p, q), r), s, b, n);
    ProductLinear(Xor8(p, q), r, b, n);
    ProductLinear(p, q, b, n);
  }

  lemma OnlyFirst(x: u8)
    ensures Sum4(x, 0, 0, 0) == x
  {
    hide Xor8;
    ZeroRight(x);
  }

  lemma FirstByte(v: Column, n: nat)
    requires n == 8
    ensures var m := Mix(v);
            Sum4(Product(m.a, 14, n), Product(m.b, 11, n), Product(m.c, 13, n), Product(m.d, 9, n)) == v.a
  {
    hide Xor8;
    hide Product;
    hide Xt;
    hide Sum4;
    hide Times3;
    ProductSum4(Xt(v.a), Times3(v.b), v.c, v.d, 14, n);
    ProductSum4(v.a, Xt(v.b), Times3(v.c), v.d, 11, n);
    ProductSum4(v.a, v.b, Xt(v.c), Times3(v.d), 13, n);
    ProductSum4(Times3(v.a), v.b, v.c, Xt(v.d), 9, n);
    Transposed(Column(Product(Xt(v.a), 14, n), Product(Times3(v.b), 14, n), Product(v.c, 14, n), Product(v.d, 14, n)),
      Column(Product(v.a, 11, n), Product(Xt(v.b), 11, n), Product(Times3(v.c), 11, n), Product(v.d, 11, n)),
      Column(Product(v.a, 13, n), Product(v.b, 13, n), Product(Xt(v.c), 13, n), Product(Times3(v.d), 13, n)),
      Column(Product(Times3(v.a), 9, n), Product(v.b, 9, n), Product(v.c, 9, n), Product(Xt(v.d), 9, n)));
    Contributions(v.a, n);
    Contributions(v.b, n);
    Contributions(v.c, n);
    Contributions(v.d, n);
    OnlyFirst(v.a);
  }

  function Turn(v: Column): Column {
    Column(v.b, v.c, v.d, v.a)
  }

  lemma MixTurns(v: Column)
    ensures Mix(Turn(v)) == Turn(Mix(v))
  {
    hide Sum4;
    hide Xt;
    hide Times3;
    Rotated(v.a, Xt(v.b), Times3(v.c), v.d);
    Rotated(v.a, v.b, Xt(v.c), Times3(v.d));
    Rotated(Times3(v.a), v.b, v.c, Xt(v.d));
    Rotated(Xt(v.a), Times3(v.b), v.c, v.d);
  }

  lemma InvMixTurns(v: Column)
    ensures InvMix(Turn(v)) == Turn(InvMix(v))
  {
    hide Sum4;
    hide Product;
    Rotated(Product(v.a, 9, 8), Product(v.b, 14, 8), Product(v.c, 11, 8), Product(v.d, 13, 8));
    Rotated(Product(v.a, 13, 8), Product(v.b, 9, 8), Product(v.c, 14, 8), Product(v.d, 11, 8));
    Rotated(Product(v.a, 11, 8), Product(v.b, 13, 8), Product(v.c, 9, 8), Product(v.d, 14, 8));
    Rotated(Product(v.a, 14, 8), Product(v.b, 11, 8), Product(v.c, 13, 8), Product(v.d, 9, 8));
  }

  /** Undoing the mix of a column. */
  lemma InvMixUndoes(v: Column)
    ensures InvMix(Mix(v)) == v
  {
    hide Mix;
    hide Sum4;
    hide Product;
    var b, c, d := Turn(v), Turn(Turn(v)), Turn(Turn(Turn(v)));
    FirstByte(v, 8);
    FirstByte(b, 8);
    FirstByte(c, 8);
    FirstByte(d, 8);
    MixTurns(v);
    MixTurns(b);
    MixTurns(c);
    InvMixTurns(Mix(v));
    InvMixTurns(Mix(b));
    InvMixTurns(Mix(c));
  }

  // ---- and the other way round -------------------------------------------------------------------------

  lemma XtZero()
    ensures Xt(0) == 0
  {
    ZeroRight(0);
  }

  lemma {:induction false} XtProduct(x: u8, b: nat, n: nat)
    ensures Xt(Product(x, b, n)) == Product(Xt(x), b, n)
    decreases n
  {
    hide Xor8;
    hide Xt;
    XtZero();
    if n > 0 {
      XtProduct(Xt(x), b / 2, n - 1);
      XtLinear(if b % 2 == 1 then x else 0, Product(Xt(x), b / 2, n - 1));
    }
  }

  lemma Times3Product(x: u8, b: nat, n: nat)
    ensures Times3(Product(x, b, n)) == Product(Times3(x), b, n)
  {
    hide Xor8;
    hide Xt;
    hide Product;
    XtProduct(x, b, n);
    ProductLinear(Xt(x), x, b, n);
  }

  lemma XtSum4(p: u8, q: u8, r: u8, s: u8)
    ensures Xt(Sum4(p, q, r, s)) == Sum4(Xt(p), Xt(q), Xt(r), Xt(s))
    ensures Times3(Sum4(p, q, r, s)) == Sum4(Times3(p), Times3(q), Times3(r), Times3(s))
  {
    hide Xor8;
    hide Xt;
    XtLinear(Xor8(Xor8(p, q), r), s);
    XtLinear(Xor8(p, q), r);
    XtLinear(p, q);
    Summed(Xt(p), Xt(q), Xt(r), Xt(s), p, q, r, s);
  }

  /** What one byte of the inverse contributes to the first byte of its mix. */
  lemma MixedContributions(a: u8, b: u8, c: u8, d: u8, n: nat)
    requires n == 8
    ensures Sum4(Xt(Product(a, 14, n)), Times3(Product(a, 9, n)), Product(a, 13, n), Product(a, 11, n)) == a
    ensures Sum4(Xt(Product(b, 11, n)), Times3(Product(b, 14, n)), Product(b, 9, n), Product(b, 13, n)) == 0
    ensures Sum4(Xt(Product(c, 13, n)), Times3(Product(c, 11, n)), Product(c, 14, n), Product(c, 9, n)) == 0
    ensures Sum4(Xt(Product(d, 9, n)), Times3(Product(d, 13, n)), Product(d, 11, n), Product(d, 14, n)) == 0
  {
    hide *;
    MixedOwn(a, n);
    MixedNext(b, n);
    MixedAcross(c, n);
    MixedBefore(d, n);
  }

  lemma MixedOwn(x: u8, n: nat)
    requires n == 8
    ensures Sum4(Xt(Product(x, 14, n)), Times3(Product(x, 9, n)), Product(x, 13, n), Product(x, 11, n)) == x
  {
    hide Sum4;
    hide Product;
    hide Xt;
    hide Times3;
    Contributions(x, n);
    XtProduct(x, 14, n);
    Times3Product(x, 9, n);
    Reordered(Product(Xt(x), 14, n), Product(x, 11, n), Product(x, 13, n), Product(Times3(x), 9, n));
  }

  lemma MixedNext(x: u8, n: nat)
    requires n == 8
    ensures Sum4(Xt(Product(x, 11, n)), Times3(Product(x, 14, n)), Product(x, 9, n), Product(x, 13, n)) == 0
  {
    hide Sum4;
    hide Product;
    hide Xt;
    hide Times3;
    Contributions(x, n);
    XtProduct(x, 11, n);
    Times3Product(x, 14, n);
    Reordered(Product(Times3(x), 14, n), Product(Xt(x), 11, n), Product(x, 13, n), Product(x, 9, n));
  }

  lemma MixedAcross(x: u8, n: nat)
    requires n == 8
    ensures Sum4(Xt(Product(x, 13, n)), Times3(Product(x, 11, n)), Product(x, 14, n), Product(x, 9, n)) == 0
  {
    hide Sum4;
    hide Product;
    hide Xt;
    hide Times3;
    Contributions(x, n);
    XtProduct(x, 13, n);
    Times3Product(x, 11, n);
    Reordered(Product(x, 14, n), Product(Times3(x), 11, n), Product(Xt(x), 13, n), Product(x, 9, n));
  }

  lemma MixedBefore(x: u8, n: nat)
    requires n == 8
    ensures Sum4(Xt(Product(x, 9, n)), Times3(Product(x, 13, n)), Product(x, 11, n), Product(x, 14, n)) == 0
  {
    hide Sum4;
    hide Product;
    hide Xt;
    hide Times3;
    Contributions(x, n);
    XtProduct(x, 9, n);
    Times3Product(x, 13, n);
    Reordered(Product(x, 14, n), Product(x, 11, n), Product(Times3(x), 13, n), Product(Xt(x), 9, n));
  }

  lemma Reordered(p: u8, q: u8, r: u8, s: u8)
    ensures Sum4(p, s, r, q) == Sum4(p, q, r, s)
    ensures Sum4(q, p, s, r) == Sum4(p, q, r, s)
    ensures Sum4(r, q, p, s) == Sum4(p, q, r, s)
    ensures Sum4(s, r, q, p) == Sum4(p, q, r, s)
  {
    hide Sum4;
    Swapped(p, q, r, s);
    Swapped(q, p, r, s);
    Rotated(p, s, r, q);
    Swapped(s, r, q, p);
    Swapped(r, s, q, p);
    Rotated(r, s, p, q);
    Rotated(q, r, s, p);
    Rotated(s, p, q, r);
    Rotated(p, q, r, s);
    Swapped(s, r, p, q);
    Swapped(r, s, p, q);
    Rotated(s, r, q, p);
    Rotated(r, q, p, s);
    Rotated(q, p, s, r);
  }

  lemma FirstMixed(v: Column)
    ensures Mix(InvMix(v)).a == v.a
  {
    hide Xor8;
    hide Product;
    hide Xt;
    hide Sum4;
    hide Times3;
    var n: nat := 8;
    var p := Column(Product(v.a, 14, 8), Product(v.b, 11, 8), Product(v.c, 13, 8), Product(v.d, 9, 8));
    var q := Column(Product(v.a, 9, 8), Product(v.b, 14, 8), Product(v.c, 11, 8), Product(v.d, 13, 8));
    var r := Column(Product(v.a, 13, 8), Product(v.b, 9, 8), Product(v.c, 14, 8), Product(v.d, 11, 8));
    var s := Column(Product(v.a, 11, 8), Product(v.b, 13, 8), Product(v.c, 9, 8), Product(v.d, 14, 8));
    XtSum4(p.a, p.b, p.c, p.d);
    XtSum4(q.a, q.b, q.c, q.d);
    Transposed(Column(Xt(p.a), Xt(p.b), Xt(p.c), Xt(p.d)),
        Column(Times3(q.a), Times3(q.b), Times3(q.c), Times3(q.d)), r, s);
    MixedContributions(v.a, v.b, v.c, v.d, n);
    OnlyFirst(v.a);
  }

  /** Mixing undoes the inverse. */
  lemma MixUndoes(v: Column)
    ensures Mix(InvMix(v)) == v
  {
    hide Mix;
    hide InvMix;
    var b, c, d := Turn(v), Turn(Turn(v)), Turn(Turn(Turn(v)));
    FirstMixed(v);
    FirstMixed(b);
    FirstMixed(c);
    FirstMixed(d);
    InvMixTurns(v);
    InvMixTurns(b);
    InvMixTurns(c);
    MixTurns(InvMix(v));
    MixTurns(InvMix(b));
    MixTurns(InvMix(c));
  }
}

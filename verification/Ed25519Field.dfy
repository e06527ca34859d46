/** Field operations only Ed25519 uses (crypto/ed25519.c:253-279): comparing elements, and the power behind
    square roots. */
module Ed25519Field {
  import opened Arith
  import opened Machine
  import opened Limbs16
  import opened Field25519
  import opened Bits
  import Streams

  const WORD: nat := 0x1_0000_0000

  /** verify32: the differences collected, and turned into 0 or -1 without a branch. */
  method Verify32(a: seq<u8>, b: seq<u8>) returns (r: int)
    requires |a| == 32 && |b| == 32
    ensures r == if a == b then 0 else -1
  {
    hide And;
    var d := Streams.CtMemcmp(a, b);
    LowBit((d - 1) % WORD / 0x100);
    BorrowShows(d);
    r := And(1, (d - 1) % WORD / 0x100) - 1;
  }

  lemma LowBit(x: nat)
    ensures And(1, x) == x % 2
  {
    var k: nat := 1;
    assert Pow2(k) == 2 * Pow2(k - 1);
    AndLowOnes(x, k);
    ShrIsDiv(x, k, 2);
    AndCommutes(1, x);
  }

  /** Taking one from a byte borrows out of it exactly when it is zero. */
  lemma BorrowShows(d: u8)
    ensures (d - 1) % WORD / 0x100 % 2 == if d == 0 then 1 else 0
  {
    if d == 0 {
      DivModUnique(-1, -1, WORD - 1, WORD);
    } else {
      DivModUnique(d - 1, 0, d - 1, WORD);
    }
  }

  /** neq25519: packing makes equal residues equal byte strings, so comparing bytes compares residues. */
  method Neq25519(a: seq<i64>, b: seq<i64>) returns (r: int)
    requires |a| == 16 && |b| == 16 && Within(a, CARRY_LIMIT) && Within(b, CARRY_LIMIT)
    ensures r == if Cong(Elem(a), Elem(b), P) then 0 else -1
  {
    hide Le;
    hide Elem;
    var c := Pack(a);
    var d := Pack(b);
    if Le(c) == Le(d) { LeInjective(c, d); }
    r := Verify32(c, d);
  }

  /** The exponent once the loop has come down to a. */
  ghost function RootExponent(a: nat): nat
    requires a <= 251
    decreases 251 - a
  {
    if a == 251 then 1 else 2 * RootExponent(a + 1) + (if a == 1 then 0 else 1)
  }

  lemma {:induction false} RootExponentHigh(a: nat)
    requires 2 <= a <= 251
    ensures RootExponent(a) == Pow2(252 - a) - 1
    decreases 251 - a
  {
    if a == 251 {
      assert Pow2(1) == 2 * Pow2(0);
    } else {
      RootExponentHigh(a + 1);
    }
  }

  /** (p - 5) / 8. */
  lemma RootExponentIs(z: nat)
    requires z == 0
    ensures 8 * RootExponent(z) == P - 5
  {
    var two: nat := 2;
    RootExponentHigh(two);
    TwoTo250(252 - two);
    assert RootExponent(z + 1) == 2 * RootExponent(two);
    assert RootExponent(z) == 2 * RootExponent(z + 1) + 1;
  }

  /** pow2523: the (p - 5) / 8-th power. */
  method Pow2523(x: seq<i64>) returns (c: array<i64>)
    requires |x| == 16 && Within(x, MUL_LIMIT)
    ensures fresh(c) && c.Length == 16 && Band(c[..])
    ensures Cong(Elem(c[..]), Pow(Elem(x), (P - 5) / 8), P)
  {
    c := new i64[16](k requires 0 <= k < 16 => x[k]);
    assert c[..] == x;
    ghost var xv := Elem(x);
    assert Pow(xv, 1) == xv * Pow(xv, 0);
    var a := 251;
    while a > 0
      invariant 0 <= a <= 251
      invariant Within(c[..], MUL_LIMIT) && (a < 251 ==> Band(c[..]))
      invariant Cong(Elem(c[..]), Pow(xv, RootExponent(a)), P)
    {
      a := a - 1;
      ghost var cv := Elem(c[..]);
      Fmul(c, c[..], c[..]);
      SquareExponent(Elem(c[..]), cv, xv, RootExponent(a + 1));
      BandWithin(c[..]);
      if a != 1 {
        cv := Elem(c[..]);
        Fmul(c, c[..], x);
        NextExponent(Elem(c[..]), cv, xv, 2 * RootExponent(a + 1));
        BandWithin(c[..]);
      }
    }
    RootExponentIs(a);
  }
}

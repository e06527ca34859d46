/** The binary places of a number, and what exclusive or, and, complement, shifts and joining do to them. */
module Places {
  import opened Arith
  import opened Bits

  lemma PlaceNext(x: nat, i: nat)
    requires i > 0
    ensures x / Pow2(i) == x / 2 / Pow2(i - 1)
  {
    var p := Pow2(i - 1);
    var h := x / 2;
    var q, r := h / p, h % p;
    Assoc(q, 2, p);
    assert x == q * Pow2(i) + (2 * r + x % 2);
    DivModUnique(x, q, 2 * r + x % 2, Pow2(i));
  }

  lemma {:induction false} XorAt(x: nat, y: nat, i: nat)
    ensures Xor(x, y) / Pow2(i) % 2 == (x / Pow2(i) % 2 + y / Pow2(i) % 2) % 2
  {
    hide Xor;
    XorStep(x, y);
    if i == 0 {
      assert Pow2(0) == 1;
    } else {
      XorAt(x / 2, y / 2, i - 1);
      PlaceNext(x, i);
      PlaceNext(y, i);
      PlaceNext(Xor(x, y), i);
    }
  }

  lemma {:induction false} AndAt(x: nat, y: nat, i: nat)
    ensures And(x, y) / Pow2(i) % 2 == (x / Pow2(i) % 2) * (y / Pow2(i) % 2)
  {
    hide And;
    AndStep(x, y);
    if i == 0 {
      assert Pow2(0) == 1;
    } else {
      AndAt(x / 2, y / 2, i - 1);
      PlaceNext(x, i);
      PlaceNext(y, i);
      PlaceNext(And(x, y), i);
    }
  }

  lemma {:induction false} NotAt(x: nat, y: nat, i: nat, n: nat)
    requires i < n && x + y == Pow2(n) - 1
    ensures y / Pow2(i) % 2 == 1 - x / Pow2(i) % 2
    decreases n
  {
    assert Pow2(n) == 2 * Pow2(n - 1);
    assert y % 2 == 1 - x % 2 && x / 2 + y / 2 == Pow2(n - 1) - 1;
    if i == 0 {
      assert Pow2(0) == 1;
    } else {
      NotAt(x / 2, y / 2, i - 1, n - 1);
      PlaceNext(x, i);
      PlaceNext(y, i);
    }
  }

  /** The places of a number shifted right. */
  lemma {:induction false} ShiftedAt(x: nat, k: nat, i: nat)
    ensures x / Pow2(k) / Pow2(i) == x / Pow2(i + k)
  {
    if k == 0 {
      assert Pow2(0) == 1;
    } else {
      PlaceNext(x, k);
      PlaceNext(x, i + k);
      ShiftedAt(x / 2, k - 1, i);
    }
  }

  /** The places of the low part of a sum, and of the part above. */
  lemma {:induction false} JoinedAt(l: nat, h: nat, n: nat, i: nat)
    requires l < Pow2(n)
    ensures h * Pow2(n) >= 0
    ensures (h * Pow2(n) + l) / Pow2(i) % 2 == if i < n then l / Pow2(i) % 2 else h / Pow2(i - n) % 2
    decreases n
  {
    var x := h * Pow2(n) + l;
    if n == 0 {
      assert Pow2(0) == 1;
    } else {
      Assoc(2, h, Pow2(n - 1));
      assert x == 2 * (h * Pow2(n - 1)) + l;
      assert x / 2 == h * Pow2(n - 1) + l / 2 && x % 2 == l % 2;
      if i == 0 {
        assert Pow2(0) == 1;
      } else {
        JoinedAt(l / 2, h, n - 1, i - 1);
        PlaceNext(x, i);
        PlaceNext(l, i);
      }
    }
  }
}

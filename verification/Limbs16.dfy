/** Field elements as sixteen signed limbs of sixteen bits (crypto/x25519.c, crypto/ed25519.c): what they spell. */
module Limbs16 {
  import opened Arith
  import opened Bits
  import Radix

  /** 2^255 - 19. */
  const P: int := 0x7fff_ffff_ffff_ffff_ffff_ffff_ffff_ffff_ffff_ffff_ffff_ffff_ffff_ffff_ffff_ffed
  const TWO256: int := 0x1_0000_0000_0000_0000_0000_0000_0000_0000_0000_0000_0000_0000_0000_0000_0000_0000

  ghost function X(k: nat): int {
    Pow(0x10000, k)
  }

  /** The signed number the first n limbs spell. */
  ghost function L(s: seq<int>, n: nat): int
    requires n <= |s|
  {
    Radix.Value(0x10000, s, n)
  }

  ghost function Elem(s: seq<int>): int
    requires |s| == 16
  {
    L(s, 16)
  }

  /** Every limb at most `b` in magnitude. */
  ghost predicate Within(s: seq<int>, b: int) {
    forall i :: 0 <= i < |s| ==> -b <= s[i] <= b
  }

  /** What two carry passes leave: limbs of sixteen bits, the lowest off by at most 38. */
  ghost predicate Band(s: seq<int>) {
    && |s| == 16
    && -38 <= s[0] <= 65573
    && forall i :: 1 <= i < 16 ==> 0 <= s[i] < 0x10000
  }

  /** Limbs that are digits base 2^16. */
  ghost predicate Digits(s: seq<int>) {
    forall i :: 0 <= i < |s| ==> 0 <= s[i] < 0x10000
  }

  lemma XStep(k: nat)
    ensures X(k) > 0 && X(k + 1) == 0x10000 * X(k)
  {
    PowPositive(0x10000, k);
  }

  lemma X16()
    ensures X(16) == TWO256
  {
    assert X(2) == 0x1_0000_0000 by { assert X(1) == 0x10000 * X(0); }
    PowAdd(0x10000, 2, 2);
    PowAdd(0x10000, 4, 4);
    PowAdd(0x10000, 8, 8);
  }

  lemma LFrame(s: seq<int>, t: seq<int>, n: nat)
    requires n <= |s| && n <= |t| && forall k :: 0 <= k < n ==> s[k] == t[k]
    ensures L(s, n) == L(t, n)
  {
    Radix.Frame(0x10000, s, t, n);
  }

  lemma LUpdate(s: seq<int>, i: nat, v: int, n: nat)
    requires i < n <= |s|
    ensures L(s[i := v], n) == L(s, n) + (v - s[i]) * X(i)
  {
    Radix.Update(0x10000, s, i, v, n);
  }

  lemma DigitsBound(s: seq<int>, n: nat)
    requires n <= |s| && forall i :: 0 <= i < n ==> 0 <= s[i] < 0x10000
    ensures 0 <= L(s, n) < X(n)
  {
    Radix.DigitsBound(0x10000, s, n);
  }

  lemma {:induction false} WithinBound(s: seq<int>, b: int, n: nat)
    requires n <= |s| && b >= 0 && Within(s, b)
    ensures -b * X(n) <= L(s, n) <= b * X(n)
  {
    if n > 0 {
      WithinBound(s, b, n - 1);
      XStep(n - 1);
      var x := X(n - 1);
      MulGe(s[n - 1], -b, x);
      MulGe(b, s[n - 1], x);
      assert b * (0x10000 * x) == 0x10000 * (b * x);
      assert -b * x == -(b * x);
      assert -b * (0x10000 * x) == -(0x10000 * (b * x));
      MulGe(b, 0, x);
    }
  }

  /** The lowest limb against the rest. */
  lemma LLow(s: seq<int>, n: nat)
    requires 0 < n <= |s|
    ensures L(s, n) == s[0] + 0x10000 * L(s[1..], n - 1)
  {
    Radix.Low(0x10000, s, n);
  }

  /** Low limbs and high limbs. */
  lemma LSplit(s: seq<int>, k: nat, n: nat)
    requires k <= n <= |s|
    ensures L(s, n) == L(s, k) + X(k) * L(s[k..], n - k)
  {
    Radix.Split(0x10000, s, k, n);
  }

  lemma LZeros(s: seq<int>, n: nat)
    requires n <= |s| && forall k :: 0 <= k < n ==> s[k] == 0
    ensures L(s, n) == 0
  {
    Radix.Zeros(0x10000, s, n);
  }

  lemma LSum(a: seq<int>, b: seq<int>, c: seq<int>, x: int, n: nat)
    requires n <= |a| && n <= |b| && n <= |c|
    requires forall i :: 0 <= i < n ==> c[i] == a[i] + x * b[i]
    ensures L(c, n) == L(a, n) + x * L(b, n)
  {
    Radix.Sum(0x10000, a, b, c, x, n);
  }

  // ---- car25519 -------------------------------------------------------------------

  /** One step of the carry chain below the top limb. */
  lemma CarryStep(s: seq<int>, i: nat, c: int)
    requires |s| == 16 && i < 15
    ensures Elem(s[i := s[i] - 0x10000 * c][i + 1 := s[i + 1] + c]) == Elem(s)
  {
    var s1 := s[i := s[i] - 0x10000 * c];
    LUpdate(s, i, s[i] - 0x10000 * c, 16);
    LUpdate(s1, i + 1, s[i + 1] + c, 16);
    XStep(i);
    assert c * (0x10000 * X(i)) == (0x10000 * c) * X(i) by { Assoc(c, 0x10000, X(i)); }
    assert (s[i] - 0x10000 * c - s[i]) * X(i) == -((0x10000 * c) * X(i));
  }

  /** The top limb's carry is folded back times 38: the value drops by a multiple of 2^256 - 38. */
  lemma CarryTop(s: seq<int>, c: int)
    requires |s| == 16
    ensures Elem(s[15 := s[15] - 0x10000 * c]) == Elem(s) - c * TWO256
    ensures Elem(s[15 := s[15] - 0x10000 * c][0 := s[0] + 38 * c]) == Elem(s) - c * (TWO256 - 38)
  {
    var s1 := s[15 := s[15] - 0x10000 * c];
    LUpdate(s, 15, s[15] - 0x10000 * c, 16);
    LUpdate(s1, 0, s[0] + 38 * c, 16);
    XStep(15);
    X16();
    assert X(0) == 1;
    assert (0x10000 * c) * X(15) == c * (0x10000 * X(15)) by { Assoc(c, 0x10000, X(15)); }
  }

  /** car25519, over values: k is the carry out of the top, the digits are the rest. */
  ghost predicate Carried(before: seq<int>, after: seq<int>, k: int) {
    && |before| == 16 && |after| == 16
    && (forall i :: 1 <= i < 16 ==> 0 <= after[i] < 0x10000)
    && 0 <= after[0] - 38 * k < 0x10000
    && Elem(after) == Elem(before) - k * (TWO256 - 38)
  }

  /** The carry out is the floor of the value over 2^256. */
  lemma CarriedFloor(before: seq<int>, after: seq<int>, k: int)
    requires Carried(before, after, k)
    ensures k == Elem(before) / TWO256
    ensures 0 <= Elem(after) - 38 * k < TWO256
    ensures Cong(Elem(after), Elem(before), P)
  {
    var d := after[0 := after[0] - 38 * k];
    LUpdate(after, 0, after[0] - 38 * k, 16);
    assert X(0) == 1;
    X16();
    DigitsBound(d, 16);
    assert Elem(before) == k * TWO256 + Elem(d);
    DivModUnique(Elem(before), k, Elem(d), TWO256);
    assert k * (TWO256 - 38) == (2 * k) * P;
    CongMultiple(Elem(after), Elem(before), -(2 * k), P);
  }

  /** Two passes bring any limbs up to 2^60 into the band. */
  lemma TwoPasses(s0: seq<int>, s1: seq<int>, k1: int, s2: seq<int>, k2: int)
    requires Carried(s0, s1, k1) && Carried(s1, s2, k2) && Within(s0, 0x1000_0000_0000_0000)
    ensures Band(s2) && Cong(Elem(s2), Elem(s0), P)
    ensures -1 <= k2 <= 1
  {
    CarriedFloor(s0, s1, k1);
    CarriedFloor(s1, s2, k2);
    X16();
    WithinBound(s0, 0x1000_0000_0000_0000, 16);
  }

  /** A third pass leaves digits. */
  lemma ThirdPass(s2: seq<int>, s3: seq<int>, k3: int)
    requires Band(s2) && Carried(s2, s3, k3)
    ensures Digits(s3) && Cong(Elem(s3), Elem(s2), P) && 0 <= Elem(s3) < TWO256
  {
    CarriedFloor(s2, s3, k3);
    X16();
    BandValue(s2);
    var d := s3[0 := s3[0] - 38 * k3];
    LUpdate(s3, 0, s3[0] - 38 * k3, 16);
    assert X(0) == 1;
    assert Elem(d) == Elem(s2) - k3 * TWO256;
    LLow(d, 16);
    DigitsBound(d[1..], 15);
    DigitsBound(d, 16);
    TopRest(d);
    DigitsBound(s3, 16);
  }

  lemma BandValue(s: seq<int>)
    requires Band(s)
    ensures -38 <= Elem(s) < TWO256 + 38
  {
    LLow(s, 16);
    DigitsBound(s[1..], 15);
    XStep(15);
    X16();
  }

  /** Digits spelling at least 2^256 - 38 have a high lowest digit. */
  lemma TopRest(d: seq<int>)
    requires |d| == 16 && Digits(d)
    ensures Elem(d) >= TWO256 - 38 ==> d[0] >= 0x10000 - 38
    ensures Elem(d) < 38 ==> d[0] < 38
  {
    LLow(d, 16);
    DigitsBound(d[1..], 15);
    XStep(15);
    X16();
  }
}

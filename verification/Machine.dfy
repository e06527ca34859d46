/** The C integer types the code uses, and byte strings as little-endian numbers. */
module Machine {
  import opened Arith
  import opened Radix

  type u8 = x: int | 0 <= x < 0x100
  type u32 = x: int | 0 <= x < 0x1_0000_0000
  type u64 = x: int | 0 <= x < 0x1_0000_0000_0000_0000
  type i64 = x: int | -0x8000_0000_0000_0000 <= x < 0x8000_0000_0000_0000

  lemma NestedQuotients(x: int)
    ensures x / 0x1_0000 == x / 0x100 / 0x100 && x / 0x100_0000 == x / 0x100 / 0x100 / 0x100
  {
    var a, b, c := x / 0x100, x / 0x100 / 0x100, x / 0x100 / 0x100 / 0x100;
    DivModUnique(x, b, a % 0x100 * 0x100 + x % 0x100, 0x1_0000);
    DivModUnique(x, c, b % 0x100 * 0x1_0000 + a % 0x100 * 0x100 + x % 0x100, 0x100_0000);
  }

  /** The number a little-endian byte string spells. */
  ghost function Le(b: seq<int>): int {
    Value(0x100, b, |b|)
  }

  lemma LeBound(b: seq<u8>)
    ensures 0 <= Le(b) < Pow(0x100, |b|)
  {
    DigitsBound(0x100, b, |b|);
  }

  lemma LeConcat(x: seq<int>, y: seq<int>)
    ensures Le(x + y) == Le(x) + Pow(0x100, |x|) * Le(y)
  {
    var z := x + y;
    Split(0x100, z, |x|, |z|);
    Frame(0x100, z, x, |x|);
    assert z[|x|..] == y;
  }

  /** A byte string is determined by its length and what it spells. */
  lemma LeInjective(x: seq<u8>, y: seq<u8>)
    requires |x| == |y| && Le(x) == Le(y)
    ensures x == y
  {
    Injective(0x100, x, y, |x|);
  }

  /** Eight little-endian bytes written out. */
  lemma EightBytes(s: seq<int>, b: int)
    requires |s| >= 8 && b == 0x100
    ensures Value(b, s, 8) == s[0] + 0x100 * s[1] + 0x1_0000 * s[2] + 0x100_0000 * s[3] + 0x1_0000_0000 * s[4]
                              + 0x100_0000_0000 * s[5] + 0x1_0000_0000_0000 * s[6] + 0x100_0000_0000_0000 * s[7]
    ensures Pow(b, 8) == 0x1_0000_0000_0000_0000
  {
    assert Pow(b, 0) == 1;
    assert Pow(b, 1) == b * Pow(b, 0);
    assert Pow(b, 2) == b * Pow(b, 1);
    assert Pow(b, 3) == b * Pow(b, 2);
    assert Pow(b, 4) == b * Pow(b, 3);
    assert Pow(b, 5) == b * Pow(b, 4);
    assert Pow(b, 6) == b * Pow(b, 5);
    assert Pow(b, 7) == b * Pow(b, 6);
    assert Pow(b, 8) == b * Pow(b, 7);
    assert Value(b, s, 0) == 0;
    assert Value(b, s, 1) == Value(b, s, 0) + s[0] * Pow(b, 0);
    assert Value(b, s, 2) == Value(b, s, 1) + s[1] * Pow(b, 1);
    assert Value(b, s, 3) == Value(b, s, 2) + s[2] * Pow(b, 2);
    assert Value(b, s, 4) == Value(b, s, 3) + s[3] * Pow(b, 3);
    assert Value(b, s, 5) == Value(b, s, 4) + s[4] * Pow(b, 4);
    assert Value(b, s, 6) == Value(b, s, 5) + s[5] * Pow(b, 5);
    assert Value(b, s, 7) == Value(b, s, 6) + s[6] * Pow(b, 6);
  }

  lemma SixteenBytes(s: seq<int>)
    requires |s| == 16
    ensures Le(s) == s[0] + 0x100 * s[1] + 0x1_0000 * s[2] + 0x100_0000 * s[3] + 0x1_0000_0000 * s[4]
                     + 0x100_0000_0000 * s[5] + 0x1_0000_0000_0000 * s[6] + 0x100_0000_0000_0000 * s[7]
                     + 0x1_0000_0000_0000_0000 * (s[8] + 0x100 * s[9] + 0x1_0000 * s[10] + 0x100_0000 * s[11]
                     + 0x1_0000_0000 * s[12] + 0x100_0000_0000 * s[13] + 0x1_0000_0000_0000 * s[14]
                         + 0x100_0000_0000_0000 * s[15])
  {
    var b, h := 0x100, s[8..];
    EightBytes(s, b);
    EightBytes(h, b);
    Split(b, s, 8, 16);
  }
}

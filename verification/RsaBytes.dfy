/** Octet strings and integers (section 4 of RFC 8017) against from_be and to_be (crypto/rsa.c:258-270). */
module RsaBytes {
  import opened Arith
  import opened Machine
  import opened Words
  import opened Montgomery

  ghost function Os2ip(b: seq<u8>): nat {
    if |b| == 0 then 0 else 256 * Os2ip(b[..|b| - 1]) + b[|b| - 1]
  }

  ghost function I2osp(x: nat, len: nat): (b: seq<u8>)
    ensures |b| == len
  {
    if len == 0 then [] else I2osp(x / 256, len - 1) + [x % 256]
  }

  lemma {:induction false} I2ospOfOs2ip(b: seq<u8>)
    ensures I2osp(Os2ip(b), |b|) == b
  {
    if |b| > 0 {
      var n := |b| - 1;
      I2ospOfOs2ip(b[..n]);
      assert Os2ip(b) / 256 == Os2ip(b[..n]) && Os2ip(b) % 256 == b[n];
      assert b == b[..n] + [b[n]];
    }
  }

  lemma {:induction false} Os2ipOfI2osp(x: nat, len: nat)
    requires x < Pow(256, len)
    ensures Os2ip(I2osp(x, len)) == x
  {
    if len > 0 {
      var b := I2osp(x, len);
      Os2ipOfI2osp(x / 256, len - 1);
      assert b[..|b| - 1] == I2osp(x / 256, len - 1);
    }
  }

  /** The bytes of a number are its digits to base 256. */
  lemma {:induction false} I2ospByte(t: nat, len: nat, k: nat, p: nat)
    requires k < len && p == Pow(0x100, len - 1 - k) && p > 0
    ensures I2osp(t, len)[k] == t / p % 0x100
    decreases len
  {
    if k == len - 1 {
      assert t / 1 == t;
    } else {
      var p' := Pow(0x100, len - 2 - k);
      PowPositive(0x100, len - 2 - k);
      assert p == 0x100 * p';
      I2ospByte(t / 0x100, len - 1, k, p');
      QuotientOfQuotient(t, p');
    }
  }

  lemma QuotientOfQuotient(t: nat, p: nat)
    requires p > 0
    ensures t / 0x100 / p == t / (0x100 * p)
  {
    var q, r := t / 0x100, t % 0x100;
    var h, b := q / p, q % p;
    assert t == 0x100 * (h * p + b) + r;
    assert 0x100 * (h * p + b) + r == h * (0x100 * p) + (0x100 * b + r) by {
      Assoc(0x100, h, p);
      Assoc(h, 0x100, p);
    }
    DivModUnique(t, h, 0x100 * b + r, 0x100 * p);
  }

  lemma {:induction false} Os2ipConcat(x: seq<u8>, y: seq<u8>)
    ensures Os2ip(x + y) == Os2ip(x) * Pow(256, |y|) + Os2ip(y)
  {
    if |y| == 0 {
      assert x + y == x;
    } else {
      var n := |y| - 1;
      Os2ipConcat(x, y[..n]);
      assert (x + y)[..|x + y| - 1] == x + y[..n];
      assert Os2ip(x) * Pow(256, |y|) == 256 * (Os2ip(x) * Pow(256, n)) by {
        Assoc(Os2ip(x), 256, Pow(256, n));
        Assoc(256, Os2ip(x), Pow(256, n));
      }
    }
  }

  lemma {:induction false} Os2ipBound(b: seq<u8>)
    ensures Os2ip(b) < Pow(256, |b|)
  {
    if |b| > 0 { Os2ipBound(b[..|b| - 1]); }
  }

  lemma {:induction false} BytesAndWords(n: nat)
    ensures Pow(256, 4 * n) == W(n)
  {
    if n > 0 {
      BytesAndWords(n - 1);
      PowAdd(256, 4, 4 * (n - 1));
      assert Pow(256, 4) == BASE by { assert Pow(256, 2) == 0x10000; PowAdd(256, 2, 2); }
    }
  }

  lemma {:induction false} Os2ipZeros(k: nat, b: seq<u8>)
    requires k <= |b| && forall i :: 0 <= i < k ==> b[i] == 0
    ensures Os2ip(b) == Os2ip(b[k..])
  {
    if k > 0 {
      Os2ipZeros(k - 1, b);
      var rest := b[k - 1..];
      assert rest == [b[k - 1]] + b[k..];
      Os2ipConcat([b[k - 1]], b[k..]);
      assert Os2ip([b[k - 1]]) == 256 * Os2ip([]) + b[k - 1];
    }
  }

  /** Four big-endian bytes as a word. */
  function BeWord(b: seq<u8>, at: nat): u32
    requires at + 4 <= |b|
  {
    (b[at] as int) * 0x100_0000 + (b[at + 1] as int) * 0x1_0000 + (b[at + 2] as int) * 0x100 + b[at + 3]
  }

  lemma BeWordIsOs2ip(b: seq<u8>, at: nat)
    requires at + 4 <= |b|
    ensures Os2ip(b[at..at + 4]) == BeWord(b, at)
  {
    var s := b[at..at + 4];
    assert s[..3][..2][..1][..0] == [];
    assert Os2ip(s[..3][..2][..1]) == s[0];
    assert Os2ip(s[..3][..2]) == 256 * Os2ip(s[..3][..2][..1]) + s[1];
    assert Os2ip(s[..3]) == 256 * Os2ip(s[..3][..2]) + s[2];
  }

  lemma {:induction false} WordsOfBytes(b: seq<u8>, w: seq<u32>, k: nat)
    requires k <= |w| && |b| == 4 * |w|
    requires forall i :: 0 <= i < k ==> w[i] == BeWord(b, |b| - 4 * (i + 1))
    ensures V(w, k) == Os2ip(b[|b| - 4 * k..])
  {
    if k > 0 {
      WordsOfBytes(b, w, k - 1);
      var at := |b| - 4 * k;
      var x, y := b[at..at + 4], b[at + 4..];
      assert b[at..] == x + y;
      Os2ipConcat(x, y);
      BeWordIsOs2ip(b, at);
      BytesAndWords(k - 1);
    } else {
      assert b[|b|..] == [];
    }
  }

  /** from_be: big-endian bytes into little-endian words. */
  method FromBe(b: seq<u8>, n: nat) returns (w: seq<u32>)
    requires |b| == 4 * n
    ensures |w| == n && Val(w) == Os2ip(b)
    ensures forall i :: 0 <= i < n ==> w[i] == BeWord(b, |b| - 4 * (i + 1))
  {
    var words := new u32[n];
    var i := 0;
    while i < n
      invariant 0 <= i <= n
      invariant forall k :: 0 <= k < i ==> words[k] == BeWord(b, |b| - 4 * (k + 1))
    {
      words[i] := BeWord(b, |b| - 4 * (i + 1));
      i := i + 1;
    }
    w := words[..];
    WordsOfBytes(b, w, n);
    assert b[0..] == b;
  }

  /** The four bytes at `at` are x, most significant first. */
  predicate Stored(b: seq<u8>, at: nat, x: u32)
    requires at + 4 <= |b|
  {
    && b[at] == x / 0x100_0000
    && b[at + 1] == x / 0x1_0000 % 0x100
    && b[at + 2] == x / 0x100 % 0x100
    && b[at + 3] == x % 0x100
  }

  lemma StoredIsBeWord(b: seq<u8>, at: nat, x: u32)
    requires at + 4 <= |b| && Stored(b, at, x)
    ensures BeWord(b, at) == x
  {
    NestedQuotients(x);
  }

  /** to_be: little-endian words into big-endian bytes, exactly I2OSP of the value. */
  method ToBe(w: seq<u32>) returns (out: seq<u8>)
    ensures out == I2osp(Val(w), 4 * |w|)
  {
    var n := |w|;
    var b := new u8[4 * n];
    var i := 0;
    while i < n
      invariant 0 <= i <= n
      invariant forall k :: 0 <= k < i ==> Stored(b[..], 4 * n - 4 * (k + 1), w[k])
    {
      var at := 4 * n - 4 * (i + 1);
      b[at] := w[i] / 0x100_0000;
      b[at + 1] := w[i] / 0x1_0000 % 0x100;
      b[at + 2] := w[i] / 0x100 % 0x100;
      b[at + 3] := w[i] % 0x100;
      i := i + 1;
    }
    out := b[..];
    forall k | 0 <= k < n
      ensures w[k] == BeWord(out, 4 * n - 4 * (k + 1))
    {
      StoredIsBeWord(out, 4 * n - 4 * (k + 1), w[k]);
    }
    WordsOfBytes(out, w, n);
    assert out[0..] == out;
    I2ospOfOs2ip(out);
  }
}

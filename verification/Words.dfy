/** Little-endian arrays of 32-bit words (crypto/rsa.c): values, comparison, subtraction. */
module Words {
  import opened Arith
  import opened Machine
  import Radix

  const BASE: int := 0x1_0000_0000
  const BASE2: int := 0x1_0000_0000_0000_0000

  /** The weight of word k. */
  ghost function W(k: nat): int {
    Pow(BASE, k)
  }

  /** The number the first n words spell, least significant first. */
  ghost function V(s: seq<int>, n: nat): int
    requires n <= |s|
  {
    Radix.Value(BASE, s, n)
  }

  ghost predicate Odd(x: int) {
    x % 2 == 1
  }

  lemma WStep(k: nat)
    ensures W(k) > 0 && W(k + 1) == BASE * W(k)
  {
    PowPositive(BASE, k);
  }

  lemma VFrame(s: seq<int>, t: seq<int>, n: nat)
    requires n <= |s| && n <= |t| && forall k :: 0 <= k < n ==> s[k] == t[k]
    ensures V(s, n) == V(t, n)
  {
    Radix.Frame(BASE, s, t, n);
  }

  lemma VBound(s: seq<u32>, n: nat)
    requires n <= |s|
    ensures 0 <= V(s, n) < W(n)
  {
    Radix.DigitsBound(BASE, s, n);
  }

  /** The value peeled from the low end. */
  lemma VLow(s: seq<int>, n: nat)
    requires 0 < n <= |s|
    ensures V(s, n) == s[0] + BASE * V(s[1..], n - 1)
  {
    Radix.Low(BASE, s, n);
  }

  lemma VZeros(s: seq<int>, n: nat)
    requires n <= |s| && forall k :: 0 <= k < n ==> s[k] == 0
    ensures V(s, n) == 0
  {
    Radix.Zeros(BASE, s, n);
  }

  /** A single nonzero low word. */
  lemma VSingle(s: seq<int>, n: nat)
    requires 0 < n <= |s| && forall k :: 0 < k < n ==> s[k] == 0
    ensures V(s, n) == s[0]
  {
    Radix.HighZeros(BASE, s, 1, n);
    assert W(0) == 1;
  }

  /** The first word from the top that differs decides. */
  lemma VCompare(s: seq<u32>, t: seq<u32>, i: nat, n: nat)
    requires i < n <= |s| && n <= |t|
    requires s[i] < t[i] && forall k :: i < k < n ==> s[k] == t[k]
    ensures V(s, n) < V(t, n)
  {
    Radix.Compare(BASE, s, t, i, n);
  }

  /** Equal values mean equal words. */
  lemma VInjective(s: seq<u32>, t: seq<u32>, n: nat)
    requires n <= |s| && n <= |t| && V(s, n) == V(t, n)
    ensures forall k :: 0 <= k < n ==> s[k] == t[k]
  {
    Radix.Injective(BASE, s, t, n);
  }

  /** One column of carry propagation. */
  lemma SplitWord(s: int, w: int)
    ensures (s % BASE) * w + (s / BASE) * (BASE * w) == s * w
  {
    var q, r := s / BASE, s % BASE;
    assert s == q * BASE + r;
    Assoc(q, BASE, w);
  }

  /** cmp: 1, 0 or -1 as the values order. */
  method Cmp(a: array<u32>, b: seq<u32>, n: nat) returns (r: int)
    requires n <= a.Length && n <= |b|
    ensures V(a[..], n) > V(b, n) ==> r == 1
    ensures V(a[..], n) == V(b, n) ==> r == 0
    ensures V(a[..], n) < V(b, n) ==> r == -1
  {
    var i := n;
    while i > 0
      invariant 0 <= i <= n
      invariant forall k :: i <= k < n ==> a[k] == b[k]
    {
      i := i - 1;
      if a[i] != b[i] {
        if a[i] > b[i] {
          VCompare(b, a[..], i, n);
          return 1;
        } else {
          VCompare(a[..], b, i, n);
          return -1;
        }
      }
    }
    VFrame(a[..], b, n);
    return 0;
  }

  /** sub in place (r = a): a - b over n words, the borrow out returned. */
  method SubInPlace(a: array<u32>, b: seq<u32>, n: nat) returns (borrow: u32)
    requires n <= a.Length && n <= |b|
    modifies a
    ensures borrow <= 1
    ensures V(a[..], n) == old(V(a[..], n)) - V(b, n) + borrow * W(n)
    ensures forall k :: n <= k < a.Length ==> a[k] == old(a[k])
  {
    borrow := 0;
    var i := 0;
    ghost var a0 := a[..];
    assert W(0) == 1;
    while i < n
      invariant 0 <= i <= n && borrow <= 1
      invariant forall k :: i <= k < a.Length ==> a[k] == a0[k]
      invariant V(a[..], i) == V(a0, i) - V(b, i) + borrow * W(i)
    {
      ghost var before := a[..];
      ghost var oldBorrow := borrow;
      var t: u64 := (a[i] - b[i] - borrow) % BASE2;
      a[i] := t % BASE;
      borrow := t / 0x8000_0000_0000_0000 % 2;
      assert a[i] == a0[i] - b[i] - oldBorrow + borrow * BASE by { BorrowStep(a0[i], b[i], oldBorrow); }
      VFrame(before, a[..], i);
      WStep(i);
      SubAlgebra(V(a0, i), V(b, i), oldBorrow, a0[i], b[i], borrow, W(i));
      i := i + 1;
    }
  }

  lemma BorrowStep(x: u32, y: u32, c: int)
    requires 0 <= c <= 1
    ensures var t := (x - y - c) % BASE2;
            t / 0x8000_0000_0000_0000 % 2 == (if x - y - c < 0 then 1 else 0)
            && t % BASE == x - y - c + (if x - y - c < 0 then BASE else 0)
  {}

  lemma SubAlgebra(va: int, vb: int, c: int, x: int, y: int, c': int, w: int)
    ensures (va - vb + c * w) + (x - y - c + c' * BASE) * w == (va + x * w) - (vb + y * w) + c' * (BASE * w)
  {
    Assoc(c', BASE, w);
  }
}

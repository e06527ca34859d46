/** AES key unwrap (crypto/wifi_crypto.c:156-169) against the key wrap of section 2.2.1 of RFC 3394. */
module KeyWrap {
  import opened Arith
  import opened Machine
  import opened Bits
  import opened AesField
  import opened Aes
  import opened RsaBytes

  /** The registers: A, and R[1] .. R[n] one after the other. */
  datatype Regs = Regs(a: seq<u8>, r: seq<u8>)

  ghost predicate Fits(s: Regs, n: nat) {
    |s.a| == 8 && |s.r| == 8 * n
  }

  /** A step's counter, as eight bytes, added to A. */
  ghost function Counted(a: seq<u8>, t: nat): (r: seq<u8>)
    requires |a| == 8
    ensures |r| == 8
  {
    var c := I2osp(t, 8);
    seq(8, k requires 0 <= k < 8 => Xor8(a[k], c[k]))
  }

  function Block(s: Regs, i: nat): seq<u8>
    requires 8 * i + 8 <= |s.r|
  {
    s.r[8 * i..8 * i + 8]
  }

  function SetBlock(r: seq<u8>, i: nat, b: seq<u8>): seq<u8>
    requires 8 * i + 8 <= |r| && |b| == 8
  {
    r[..8 * i] + b + r[8 * i + 8..]
  }

  /** Step t of the wrap: B = AES(K, A | R[i]); A = MSB(B) xor t; R[i] = LSB(B). */
  ghost function WrapStep(rk: seq<u32>, s: Regs, n: nat, t: nat): (s': Regs)
    requires |rk| == 44 && n > 0 && t > 0 && Fits(s, n)
    ensures Fits(s', n)
  {
    hide Cipher;
    var i := (t - 1) % n;
    var b := Cipher(rk, s.a + Block(s, i));
    Regs(Counted(b[..8], t), SetBlock(s.r, i, b[8..]))
  }

  ghost function UnwrapStep(rk: seq<u32>, s: Regs, n: nat, t: nat): (s': Regs)
    requires |rk| == 44 && n > 0 && t > 0 && Fits(s, n)
    ensures Fits(s', n)
  {
    hide Decipher;
    hide Counted;
    var i := (t - 1) % n;
    var b := Decipher(rk, Counted(s.a, t) + Block(s, i));
    Regs(b[..8], SetBlock(s.r, i, b[8..]))
  }

  /** The first k steps of the wrap. */
  ghost function WrapSteps(rk: seq<u32>, s: Regs, n: nat, k: nat): (s': Regs)
    requires |rk| == 44 && n > 0 && Fits(s, n)
    ensures Fits(s', n)
  {
    hide WrapStep;
    if k == 0 then s else WrapStep(rk, WrapSteps(rk, s, n, k - 1), n, k)
  }

  /** Steps k down to 1 of the unwrap. */
  ghost function UnwrapSteps(rk: seq<u32>, s: Regs, n: nat, k: nat): (s': Regs)
    requires |rk| == 44 && n > 0 && Fits(s, n)
    ensures Fits(s', n)
    decreases k
  {
    hide UnwrapStep;
    if k == 0 then s else UnwrapSteps(rk, UnwrapStep(rk, s, n, k), n, k - 1)
  }

  const IV: seq<u8> := [0xa6, 0xa6, 0xa6, 0xa6, 0xa6, 0xa6, 0xa6, 0xa6]

  /** The wrap of n blocks. */
  ghost function Wrap(key: State, p: seq<u8>): seq<u8>
    requires |p| % 8 == 0 && |p| > 0
  {
    var n := |p| / 8;
    var s := WrapSteps(KeySchedule(key), Regs(IV, p), n, 6 * n);
    s.a + s.r
  }

  // ---- the two undo each other -----------------------------------------------------------------------

  lemma CountedTwice(a: seq<u8>, t: nat)
    requires |a| == 8
    ensures Counted(Counted(a, t), t) == a
  {
    hide Xor8;
    hide I2osp;
    var c := I2osp(t, 8);
    forall k | 0 <= k < 8
      ensures Xor8(Xor8(a[k], c[k]), c[k]) == a[k]
    {
      AssocBytes(a[k], c[k], c[k]);
      SelfBytes(c[k]);
      ZeroRight(a[k]);
    }
  }

  lemma BlockSet(r: seq<u8>, i: nat, b: seq<u8>)
    requires 8 * i + 8 <= |r| && |b| == 8
    ensures SetBlock(r, i, b)[8 * i..8 * i + 8] == b
    ensures forall c :: |c| == 8 ==> SetBlock(SetBlock(r, i, b), i, c) == SetBlock(r, i, c)
    ensures SetBlock(r, i, r[8 * i..8 * i + 8]) == r
  {}

  lemma StepUndone(rk: seq<u32>, s: Regs, n: nat, t: nat)
    requires |rk| == 44 && n > 0 && t > 0 && Fits(s, n)
    ensures UnwrapStep(rk, WrapStep(rk, s, n, t), n, t) == s
  {
    hide Cipher;
    hide Decipher;
    hide Counted;
    hide SetBlock;
    var i := (t - 1) % n;
    var x := s.a + Block(s, i);
    var b := Cipher(rk, x);
    DecipherUndoes(rk, x);
    CountedTwice(b[..8], t);
    BlockSet(s.r, i, b[8..]);
    assert b[..8] + b[8..] == b && x[..8] == s.a && x[8..] == Block(s, i);
  }

  lemma StepRedone(rk: seq<u32>, s: Regs, n: nat, t: nat)
    requires |rk| == 44 && n > 0 && t > 0 && Fits(s, n)
    ensures WrapStep(rk, UnwrapStep(rk, s, n, t), n, t) == s
  {
    hide Cipher;
    hide Decipher;
    hide Counted;
    hide SetBlock;
    var i := (t - 1) % n;
    var y := Counted(s.a, t) + Block(s, i);
    var b := Decipher(rk, y);
    CipherUndoes(rk, y);
    CountedTwice(s.a, t);
    BlockSet(s.r, i, b[8..]);
    assert b[..8] + b[8..] == b && y[..8] == Counted(s.a, t) && y[8..] == Block(s, i);
  }

  lemma {:induction false} StepsUndone(rk: seq<u32>, s: Regs, n: nat, k: nat)
    requires |rk| == 44 && n > 0 && Fits(s, n)
    ensures UnwrapSteps(rk, WrapSteps(rk, s, n, k), n, k) == s
  {
    hide WrapStep;
    hide UnwrapStep;
    if k > 0 {
      StepUndone(rk, WrapSteps(rk, s, n, k - 1), n, k);
      StepsUndone(rk, s, n, k - 1);
    }
  }

  lemma {:induction false} StepsRedone(rk: seq<u32>, s: Regs, n: nat, k: nat)
    requires |rk| == 44 && n > 0 && Fits(s, n)
    ensures WrapSteps(rk, UnwrapSteps(rk, s, n, k), n, k) == s
    decreases k
  {
    hide WrapStep;
    hide UnwrapStep;
    if k > 0 {
      var t := UnwrapStep(rk, s, n, k);
      StepsRedone(rk, t, n, k - 1);
      StepRedone(rk, s, n, k);
    }
  }

  // ---- wifi_key_unwrap -------------------------------------------------------------------------------------

  /** The inner loop that adds the step's counter to the first half of the block. */
  method AddCounter(b: array<u8>, t: nat)
    requires b.Length == 16
    modifies b
    ensures b[..8] == Counted(old(b[..8]), t) && b[8..] == old(b[8..])
  {
    hide Xor8;
    hide I2osp;
    hide Pow;
    ghost var c := I2osp(t, 8);
    ghost var b0 := b[..];
    var k := 0;
    var p := 1;
    OnePower();
    while k < 8
      invariant 0 <= k <= 8 && p == Pow(0x100, k) && p > 0
      invariant forall j :: 0 <= j < 8 ==> b[j] == if j > 7 - k then Xor8(b0[j], c[j]) else b0[j]
      invariant forall j :: 8 <= j < 16 ==> b[j] == b0[j]
    {
      I2ospByte(t, 8, 7 - k, p);
      b[7 - k] := Xor8(b[7 - k], t / p % 0x100);
      NextPower(k);
      p := p * 0x100;
      k := k + 1;
    }
  }

  lemma OnePower()
    ensures Pow(0x100, 0) == 1
  {}

  lemma NextPower(k: nat)
    ensures Pow(0x100, k + 1) == Pow(0x100, k) * 0x100
  {}

  /** One decryption step on the registers a and out. */
  method Step(rk: seq<u32>, a: seq<u8>, out: array<u8>, n: nat, i: nat, t: nat) returns (a': seq<u8>)
    requires |rk| == 44 && n > 0 && out.Length == 8 * n && |a| == 8 && t > 0 && i == (t - 1) % n
    modifies out
    ensures Regs(a', out[..]) == UnwrapStep(rk, Regs(a, old(out[..])), n, t)
  {
    hide Decipher;
    hide Counted;
    ghost var r := out[..];
    var x := a + out[8 * i..8 * i + 8];
    var b := new u8[16](k requires 0 <= k < 16 => x[k]);
    assert b[..8] == a && b[8..] == r[8 * i..8 * i + 8];
    AddCounter(b, t);
    assert b[..] == Counted(a, t) + Block(Regs(a, r), i);
    var d := Decrypt(rk, b[..]);
    a' := d[..8];
    forall k | 0 <= k < 8 { out[8 * i + k] := d[8 + k]; }
    assert out[..] == SetBlock(r, i, d[8..]);
  }

  /** The six passes, from the last block of the last pass to the first of the first. */
  method Passes(rk: seq<u32>, a0: seq<u8>, out: array<u8>, n: nat) returns (a: seq<u8>)
    requires |rk| == 44 && n > 0 && out.Length == 8 * n && |a0| == 8
    modifies out
    ensures Regs(a, out[..]) == UnwrapSteps(rk, Regs(a0, old(out[..])), n, 6 * n)
  {
    hide UnwrapStep;
    a := a0;
    ghost var goal := UnwrapSteps(rk, Regs(a0, out[..]), n, 6 * n);
    var j := 6;
    while j > 0
      invariant 0 <= j <= 6 && |a| == 8
      invariant UnwrapSteps(rk, Regs(a, out[..]), n, n * j) == goal
    {
      j := j - 1;
      var i := n;
      while i > 0
        invariant 0 <= i <= n && |a| == 8
        invariant UnwrapSteps(rk, Regs(a, out[..]), n, n * j + i) == goal
      {
        var t := n * j + i;
        DivModUnique(t - 1, j, i - 1, n);
        a := Step(rk, a, out, n, i - 1, t);
        i := i - 1;
      }
    }
  }

  /** wifi_key_unwrap: -1 and the output untouched for a length it does not take; otherwise the unwrapped
      blocks when the integrity value is right, and -1 with a wiped output when it is not. */
  method KeyUnwrap(kek: State, input: seq<u8>, out: array<u8>) returns (rc: int)
    requires out.Length == |input| - 8 || !(24 <= |input| <= 512 && |input| % 8 == 0)
    modifies out
    ensures !(24 <= |input| <= 512 && |input| % 8 == 0) ==> rc == -1 && out[..] == old(out[..])
    ensures 24 <= |input| <= 512 && |input| % 8 == 0 ==>
      (var n := |input| / 8 - 1;
       var s := UnwrapSteps(KeySchedule(kek), Regs(input[..8], input[8..]), n, 6 * n);
       if s.a == IV then rc == |input| - 8 && out[..] == s.r
       else rc == -1 && forall k :: 0 <= k < out.Length ==> out[k] == 0)
  {
    hide UnwrapSteps;
    hide KeySchedule;
    if |input| < 24 || |input| > 512 || |input| % 8 != 0 {
      return -1;
    }
    var rk := Expand(kek);
    forall k | 0 <= k < out.Length { out[k] := input[8 + k]; }
    assert out[..] == input[8..];
    var n := |input| / 8 - 1;
    var a := Passes(rk, input[..8], out, n);
    var bad := Differs(a);
    if bad {
      forall k | 0 <= k < out.Length { out[k] := 0; }
      return -1;
    }
    rc := |input| - 8;
  }

  /** The integrity check: one or over all eight differences. */
  method Differs(a: seq<u8>) returns (bad: bool)
    requires |a| == 8
    ensures bad <==> a != IV
  {
    bad := false;
    var i := 0;
    while i < 8
      invariant 0 <= i <= 8
      invariant bad <==> exists k :: 0 <= k < i && a[k] != IV[k]
    {
      bad := bad || a[i] != 0xa6;
      i := i + 1;
    }
  }

  /** The outcome of an unwrap, as KeyUnwrap's contract gives it. */
  ghost predicate Accepts(kek: State, input: seq<u8>, p: seq<u8>) {
    && 24 <= |input| <= 512 && |input| % 8 == 0
    && UnwrapSteps(KeySchedule(kek), Regs(input[..8], input[8..]), |input| / 8 - 1, 6 * (|input| / 8 - 1))
        == Regs(IV, p)
  }

  /** Unwrap accepts exactly the wraps, and gives back what was wrapped. */
  lemma AcceptsExactlyWraps(kek: State, input: seq<u8>, p: seq<u8>)
    requires 16 <= |p| <= 504 && |p| % 8 == 0
    ensures Accepts(kek, input, p) <==> input == Wrap(kek, p)
  {
    hide UnwrapSteps;
    hide WrapSteps;
    hide KeySchedule;
    var rk, n := KeySchedule(kek), |p| / 8;
    var w := WrapSteps(rk, Regs(IV, p), n, 6 * n);
    StepsUndone(rk, Regs(IV, p), n, 6 * n);
    assert (w.a + w.r)[..8] == w.a && (w.a + w.r)[8..] == w.r;
    if Accepts(kek, input, p) {
      var s := Regs(input[..8], input[8..]);
      StepsRedone(rk, s, |input| / 8 - 1, 6 * (|input| / 8 - 1));
      assert input == s.a + s.r;
    }
  }
}

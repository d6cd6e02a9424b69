/**
  The key wrap in the shift-register form of section 2.2.1 of RFC 3394, written with nothing but
  the cipher and exclusive or on bytes, and the proof that the code's form, which walks over the
  registers in place, computes the same.
 */
module KeyWrapRfc {
  import opened Packets
  import opened Buffers
  import opened KeyWrap

  /** 256 to the power of `e`. */
  function Power(e: nat): (r: nat)
    ensures r > 0
  {
    if e == 0 then 1 else 256 * Power(e - 1)
  }

  /** Step `t`: encipher the check register with the first register, fold the big-endian `t` in, shift the registers left by one. */
  ghost predicate Shifts(c: Cipher, a: Bytes, r: Bytes, a': Bytes, r': Bytes, t: nat) {
    && |a| == |a'| == 8 && |r| >= 8
    && var b := c.enc(a + r[..8]);
       && (forall k :: 0 <= k < 8 ==> a'[k] == b[k] ^ (((t / Power(7 - k)) % 256) as bv8))
       && r' == r[8..] + b[8..]
  }

  /** `A` and `R` are the check register and the registers after each of the `6 * n` steps. */
  ghost predicate IsTrace(c: Cipher, key: Bytes, A: seq<Bytes>, R: seq<Bytes>) {
    && |A| == |R| == 6 * (|key| / 8) + 1
    && A[0] == [0xA6, 0xA6, 0xA6, 0xA6, 0xA6, 0xA6, 0xA6, 0xA6] && R[0] == key
    && forall t :: 0 <= t < |A| - 1 ==> Shifts(c, A[t], R[t], A[t + 1], R[t + 1], t + 1)
  }

  // ---------------------------------------------------------------- one step

  lemma PowerValues()
    ensures Power(0) == 1 && Power(1) == 0x100 && Power(2) == 0x1_0000 && Power(3) == 0x100_0000 && Power(4) == 0x1_0000_0000
    ensures Power(5) == 0x100_0000_0000 && Power(6) == 0x1_0000_0000_0000 && Power(7) == 0x100_0000_0000_0000
  {
    assert Power(3) == 0x100_0000;
    assert Power(5) == 0x100_0000_0000;
  }

  /** Byte `k` of the step number as a word. */
  lemma WordByte(t: nat, k: nat)
    requires k < 8
    ensures BigEndian(t)[k] == ByteOf(t / Power(7 - k))
  {
    PowerValues();
    hide Power, ByteOf;
    assert k == 0 || k == 1 || k == 2 || k == 3 || k == 4 || k == 5 || k == 6 || k == 7;
  }

  lemma FoldedByte(b: Byte, t: nat, k: nat)
    requires k < 8
    ensures XorByte(b, BigEndian(t)[k]) == b ^ (((t / Power(7 - k)) % 256) as bv8)
  {
    WordByte(t, k);
    hide BigEndian, Power;
  }

  /** The registers with the first `i` moved to the end. */
  function Rotated(r: Bytes, i: nat): (s: Bytes)
    requires 8 * i <= |r|
    ensures |s| == |r|
  {
    r[8 * i..] + r[..8 * i]
  }

  lemma RotatedPut(r: Bytes, i: nat, x: Bytes)
    requires 8 * i + 8 <= |r| && |x| == 8
    ensures Rotated(r, i)[..8] == r[8 * i..8 * i + 8]
    ensures Rotated(Put(r, 8 * i, x), i + 1) == Rotated(r, i)[8..] + x
  {
    var o := 8 * i;
    assert r[o..] == r[o..o + 8] + r[o + 8..];
    assert Put(r, o, x)[o + 8..] == r[o + 8..] && Put(r, o, x)[..o + 8] == r[..o] + x;
    assert Rotated(r, i)[8..] == r[o + 8..] + r[..o];
  }

  /** A step in place on register `i` is a step of the shift register. */
  lemma StepShifts(c: Cipher, s: Regs, i: nat, t: nat)
    requires 8 * i + 8 <= |s.r|
    ensures var s' := WrapStep(c, s, 8 * i, t);
      Shifts(c, s.a, Rotated(s.r, i), s'.a, Rotated(s'.r, i + 1), t)
  {
    hide BigEndian, Power, Rotated, Put, XorByte;
    var b := c.enc(s.a + s.r[8 * i..8 * i + 8]);
    var s' := WrapStep(c, s, 8 * i, t);
    RotatedPut(s.r, i, b[8..]);
    forall k | 0 <= k < 8
      ensures s'.a[k] == b[k] ^ (((t / Power(7 - k)) % 256) as bv8)
    {
      FoldedByte(b[k], t, k);
      assert b[..8][k] == b[k];
    }
  }

  // ---------------------------------------------------------------- all steps

  /** The code's registers after `t` steps. */
  ghost function After(c: Cipher, key: Bytes, t: nat): (s: Regs)
    requires Wrappable(|key|)
    ensures |s.r| == |key|
  {
    var n := |key| / 8;
    WrapRound(c, WrapRounds(c, Regs(IV, key), n, t / n), n, t / n, t % n)
  }

  /** Step `t + 1` is on register `t % n`; after the last register the next round begins. */
  lemma AfterNext(c: Cipher, key: Bytes, t: nat)
    requires Wrappable(|key|)
    ensures var n := |key| / 8; 8 * (t % n) + 8 <= |key| && After(c, key, t + 1) == WrapStep(c, After(c, key, t), 8 * (t % n), t + 1)
  {
    hide WrapStep;
    var n := |key| / 8;
    var j, i := t / n, t % n;
    assert t == n * j + i;
    var s := WrapRounds(c, Regs(IV, key), n, j);
    assert StepNo(n, j, i + 1) == t + 1;
    assert WrapRound(c, s, n, j, i + 1) == WrapStep(c, After(c, key, t), 8 * i, t + 1);
    NextIndex(n, t);
    if i == n - 1 {
      assert WrapRounds(c, Regs(IV, key), n, j + 1) == WrapRound(c, s, n, j, n);
    }
  }

  lemma NextIndex(n: nat, t: nat)
    requires n > 0
    ensures t % n < n - 1 ==> (t + 1) / n == t / n && (t + 1) % n == t % n + 1
    ensures t % n == n - 1 ==> (t + 1) / n == t / n + 1 && (t + 1) % n == 0
  {
    var j, i := t / n, t % n;
    if i < n - 1 {
      DivUnique(n, j, i + 1, t + 1);
    } else {
      assert n * (j + 1) == n * j + n;
      DivUnique(n, j + 1, 0, t + 1);
    }
  }

  lemma DivUnique(n: nat, j: int, i: nat, t: nat)
    requires i < n && t == n * j + i
    ensures t / n == j && t % n == i
  {
    var d := j - t / n;
    assert n * d == n * j - n * (t / n) == t % n - i;
    assert d > 0 ==> n * d >= n;
    assert d < 0 ==> n * d <= -(n as int);
  }

  lemma {:induction false} AfterAll(c: Cipher, key: Bytes)
    requires Wrappable(|key|)
    ensures var s := After(c, key, 6 * (|key| / 8)); Wrapped(c, key) == s.a + s.r
  {
    hide WrapRounds;
    var n := |key| / 8;
    DivUnique(n, 6, 0, 6 * n);
  }

  lemma RotatedEnds(r: Bytes, n: nat)
    requires |r| == 8 * n
    ensures Rotated(r, 0) == r == Rotated(r, n)
  {
  }

  /** The registers after `t` steps in the order of the shift register. */
  lemma AfterShifts(c: Cipher, key: Bytes, t: nat)
    requires Wrappable(|key|)
    ensures var n := |key| / 8; var s, s' := After(c, key, t), After(c, key, t + 1);
      && 8 * (t % n) <= |s.r| && 8 * ((t + 1) % n) <= |s'.r|
      && Shifts(c, s.a, Rotated(s.r, t % n), s'.a, Rotated(s'.r, (t + 1) % n), t + 1)
  {
    hide WrapStep, After, Rotated, Shifts;
    var n := |key| / 8;
    AfterNext(c, key, t);
    StepShifts(c, After(c, key, t), t % n, t + 1);
    NextIndex(n, t);
    RotatedEnds(After(c, key, t + 1).r, n);
  }

  /** The key wrap of the code is the one of the RFC: its output is the last state of the shift register's trace. */
  lemma WrapIsTrace(c: Cipher, key: Bytes) returns (A: seq<Bytes>, R: seq<Bytes>)
    requires Wrappable(|key|)
    ensures IsTrace(c, key, A, R) && Wrapped(c, key) == A[6 * (|key| / 8)] + R[6 * (|key| / 8)]
  {
    hide After, Rotated, Shifts, Wrapped;
    var n := |key| / 8;
    A := seq(6 * n + 1, t requires 0 <= t => After(c, key, t).a);
    R := seq(6 * n + 1, t requires 0 <= t => Rotated(After(c, key, t).r, t % n));
    forall t | 0 <= t < 6 * n
      ensures Shifts(c, A[t], R[t], A[t + 1], R[t + 1], t + 1)
    {
      AfterShifts(c, key, t);
    }
    AfterNone(c, key);
    AfterAll(c, key);
    DivUnique(n, 0, 0, 0);
    DivUnique(n, 6, 0, 6 * n);
    RotatedEnds(After(c, key, 0).r, n);
    RotatedEnds(After(c, key, 6 * n).r, n);
  }

  lemma AfterNone(c: Cipher, key: Bytes)
    requires Wrappable(|key|)
    ensures After(c, key, 0) == Regs([0xA6, 0xA6, 0xA6, 0xA6, 0xA6, 0xA6, 0xA6, 0xA6], key)
  {
    DivUnique(|key| / 8, 0, 0, 0);
  }

  /** There is only one trace, so this determines every wrapped key. */
  lemma {:induction false} TraceUnique(c: Cipher, key: Bytes, A: seq<Bytes>, R: seq<Bytes>, A': seq<Bytes>, R': seq<Bytes>, t: nat)
    requires IsTrace(c, key, A, R) && IsTrace(c, key, A', R') && t < |A|
    ensures A[t] == A'[t] && R[t] == R'[t]
    decreases t
  {
    hide Power;
    if t > 0 {
      TraceUnique(c, key, A, R, A', R', t - 1);
      assert Shifts(c, A[t - 1], R[t - 1], A[t], R[t], t);
      assert Shifts(c, A'[t - 1], R'[t - 1], A'[t], R'[t], t);
    }
  }
}

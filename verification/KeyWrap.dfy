/**
  The fallback AES key wrap: sections 2.2.1 and 2.2.2 of RFC 3394 over an abstract permutation of
  16-byte blocks.

  The functions follow the RFC: six rounds over the 8-byte registers, step number `n * j + i`
  folded into the 64-bit check register as a big-endian word. The methods are the byte loops of
  the code, which work in place and fold in only the bytes of the step number that can be set.
 */
module KeyWrap {
  import opened Arith
  import opened Packets
  import opened Buffers

  const ZERO8: Bytes := [0, 0, 0, 0, 0, 0, 0, 0]

  type Word = s: Bytes | |s| == 8 witness ZERO8
  type Block = s: Bytes | |s| == 16 witness ZERO8 + ZERO8

  const IV: Word := [0xA6, 0xA6, 0xA6, 0xA6, 0xA6, 0xA6, 0xA6, 0xA6]
  const UINT_RANGE: int := 0x1_0000_0000
  const ROUNDS: nat := 6

  /** The key-encrypting key, set up for both directions. */
  datatype Cipher = Cipher(enc: Block -> Block, dec: Block -> Block)

  /** Deciphering undoes enciphering, and the other way round. */
  ghost predicate Permutation(c: Cipher) {
    && (forall b: Block {:trigger c.dec(c.enc(b))} :: c.dec(c.enc(b)) == b)
    && (forall b: Block {:trigger c.enc(c.dec(b))} :: c.enc(c.dec(b)) == b)
  }

  // ---------------------------------------------------------------- the registers

  /** The check register and the key registers, the latter end to end. */
  datatype Regs = Regs(a: Word, r: Bytes)

  function ByteOf(x: nat): Byte {
    (x % 256) as bv8
  }

  /** A step number as a 64-bit big-endian word. */
  function BigEndian(t: nat): Word {
    [ByteOf(t / 0x100_0000_0000_0000), ByteOf(t / 0x1_0000_0000_0000), ByteOf(t / 0x100_0000_0000), ByteOf(t / 0x1_0000_0000),
     ByteOf(t / 0x100_0000), ByteOf(t / 0x1_0000), ByteOf(t / 0x100), ByteOf(t)]
  }

  function XorByte(x: Byte, y: Byte): Byte {
    x ^ y
  }

  lemma XorByteTwice(x: Byte, y: Byte)
    ensures XorByte(XorByte(x, y), y) == x && XorByte(x, 0) == x
  {
  }

  function Xor(a: Word, b: Word): Word {
    seq(8, k requires 0 <= k < 8 => XorByte(a[k], b[k]))
  }

  lemma XorTwice(a: Word, b: Word)
    ensures Xor(Xor(a, b), b) == a
  {
    hide XorByte;
    forall k | 0 <= k < 8
      ensures Xor(Xor(a, b), b)[k] == a[k]
    {
      XorByteTwice(a[k], b[k]);
    }
  }

  /** One wrapping step on the register at `off`. */
  function WrapStep(c: Cipher, s: Regs, off: nat, t: nat): (s': Regs)
    requires off + 8 <= |s.r|
    ensures |s'.r| == |s.r|
  {
    var b := c.enc(s.a + s.r[off..off + 8]);
    Regs(Xor(b[..8], BigEndian(t)), Put(s.r, off, b[8..]))
  }

  function UnwrapStep(c: Cipher, s: Regs, off: nat, t: nat): (s': Regs)
    requires off + 8 <= |s.r|
    ensures |s'.r| == |s.r|
  {
    var b := c.dec(Xor(s.a, BigEndian(t)) + s.r[off..off + 8]);
    Regs(b[..8], Put(s.r, off, b[8..]))
  }

  /** The number of the `i`-th step of round `j`, over `n` registers. */
  function StepNo(n: nat, j: nat, i: nat): nat {
    n * j + i
  }

  /** The first `i` steps of round `j`, over `n` registers. */
  function WrapRound(c: Cipher, s: Regs, n: nat, j: nat, i: nat): (s': Regs)
    requires i <= n && |s.r| == 8 * n
    ensures |s'.r| == |s.r|
    decreases i
  {
    if i == 0 then s else WrapStep(c, WrapRound(c, s, n, j, i - 1), 8 * (i - 1), StepNo(n, j, i))
  }

  /** The first `j` rounds. */
  function WrapRounds(c: Cipher, s: Regs, n: nat, j: nat): (s': Regs)
    requires |s.r| == 8 * n
    ensures |s'.r| == |s.r|
    decreases j
  {
    if j == 0 then s else WrapRound(c, WrapRounds(c, s, n, j - 1), n, j - 1, n)
  }

  /** The steps of round `j` from the `i`-th back to the first. */
  function UnwrapRound(c: Cipher, s: Regs, n: nat, j: nat, i: nat): (s': Regs)
    requires i <= n && |s.r| == 8 * n
    ensures |s'.r| == |s.r|
    decreases i
  {
    if i == 0 then s else UnwrapRound(c, UnwrapStep(c, s, 8 * (i - 1), StepNo(n, j, i)), n, j, i - 1)
  }

  /** The last `j` rounds, backwards. */
  function UnwrapRounds(c: Cipher, s: Regs, n: nat, j: nat): (s': Regs)
    requires |s.r| == 8 * n
    ensures |s'.r| == |s.r|
    decreases j
  {
    if j == 0 then s else UnwrapRounds(c, UnwrapRound(c, s, n, j - 1, n), n, j - 1)
  }

  predicate Wrappable(len: int) {
    len >= 8 && len % 8 == 0
  }

  function Wrapped(c: Cipher, key: Bytes): (w: Bytes)
    requires Wrappable(|key|)
    ensures |w| == |key| + 8
  {
    var s := WrapRounds(c, Regs(IV, key), |key| / 8, ROUNDS);
    s.a + s.r
  }

  /** The registers after all rounds backwards. */
  function Recovered(c: Cipher, w: Bytes): (s: Regs)
    requires Wrappable(|w| - 8)
    ensures |s.r| == |w| - 8
  {
    UnwrapRounds(c, Regs(w[..8], w[8..]), |w| / 8 - 1, ROUNDS)
  }

  function Unwrapped(c: Cipher, w: Bytes): Option<Bytes> {
    if !Wrappable(|w| - 8) then None
    else
      var s := Recovered(c, w);
      if s.a == IV then Some(s.r) else None
  }

  // ---------------------------------------------------------------- unwrapping undoes wrapping, and conversely

  lemma StepsUndo(c: Cipher, s: Regs, off: nat, t: nat)
    requires Permutation(c) && off + 8 <= |s.r|
    ensures UnwrapStep(c, WrapStep(c, s, off, t), off, t) == s
    ensures WrapStep(c, UnwrapStep(c, s, off, t), off, t) == s
  {
    hide Xor, BigEndian, Put;
    var k, w := BigEndian(t), s.r[off..off + 8];
    PutSame(s.r, off, 8);
    var b := c.enc(s.a + w);
    assert b[..8] + b[8..] == b && (s.a + w)[..8] == s.a && (s.a + w)[8..] == w;
    XorTwice(b[..8], k);
    PutPut(s.r, off, b[8..], w);
    var d := c.dec(Xor(s.a, k) + w);
    assert d[..8] + d[8..] == d && (Xor(s.a, k) + w)[..8] == Xor(s.a, k) && (Xor(s.a, k) + w)[8..] == w;
    XorTwice(s.a, k);
    PutPut(s.r, off, d[8..], w);
  }

  lemma {:induction false} RoundsUndo(c: Cipher, s: Regs, n: nat, j: nat, i: nat)
    requires Permutation(c) && i <= n && |s.r| == 8 * n
    ensures UnwrapRound(c, WrapRound(c, s, n, j, i), n, j, i) == s
    ensures WrapRound(c, UnwrapRound(c, s, n, j, i), n, j, i) == s
    decreases i
  {
    hide UnwrapStep, WrapStep, Permutation, StepNo;
    if i > 0 {
      var off, t := 8 * (i - 1), StepNo(n, j, i);
      StepsUndo(c, WrapRound(c, s, n, j, i - 1), off, t);
      RoundsUndo(c, s, n, j, i - 1);
      RoundsUndo(c, UnwrapStep(c, s, off, t), n, j, i - 1);
      StepsUndo(c, s, off, t);
    }
  }

  lemma {:induction false} AllRoundsUndo(c: Cipher, s: Regs, n: nat, j: nat)
    requires Permutation(c) && |s.r| == 8 * n
    ensures UnwrapRounds(c, WrapRounds(c, s, n, j), n, j) == s
    ensures WrapRounds(c, UnwrapRounds(c, s, n, j), n, j) == s
    decreases j
  {
    hide Permutation, WrapRound, UnwrapRound, StepNo;
    if j > 0 {
      RoundsUndo(c, WrapRounds(c, s, n, j - 1), n, j - 1, n);
      AllRoundsUndo(c, s, n, j - 1);
      AllRoundsUndo(c, UnwrapRound(c, s, n, j - 1, n), n, j - 1);
      RoundsUndo(c, s, n, j - 1, n);
    }
  }

  /** Unwrapping a wrapped key gives the key back, for every length the code wraps. */
  lemma UnwrapOfWrap(c: Cipher, key: Bytes)
    requires Permutation(c) && Wrappable(|key|)
    ensures Unwrapped(c, Wrapped(c, key)) == Some(key)
  {
    hide Permutation, WrapRounds, UnwrapRounds;
    var n := |key| / 8;
    var s := WrapRounds(c, Regs(IV, key), n, ROUNDS);
    AllRoundsUndo(c, Regs(IV, key), n, ROUNDS);
    assert Wrapped(c, key)[..8] == s.a && Wrapped(c, key)[8..] == s.r;
  }

  /** Unwrapping accepts an input exactly when it is the wrapping of some key, and returns that key. */
  lemma UnwrapOnlyWrapped(c: Cipher, w: Bytes)
    requires Permutation(c)
    ensures Unwrapped(c, w).Some? <==> exists key :: Wrappable(|key|) && Wrapped(c, key) == w
    ensures Unwrapped(c, w).Some? ==>
      |Unwrapped(c, w).value| == |w| - 8 && Wrapped(c, Unwrapped(c, w).value) == w
  {
    hide Permutation, WrapRounds, UnwrapRounds;
    if Unwrapped(c, w).Some? {
      var n, s0 := |w| / 8 - 1, Regs(w[..8], w[8..]);
      AllRoundsUndo(c, s0, n, ROUNDS);
      assert w == w[..8] + w[8..];
      assert Wrapped(c, Unwrapped(c, w).value) == w;
    }
    forall key | Wrappable(|key|) && Wrapped(c, key) == w
      ensures Unwrapped(c, w).Some?
    {
      UnwrapOfWrap(c, key);
    }
  }

  // ---------------------------------------------------------------- the byte loops

  /** The largest step number of any input fits an unsigned int, so the counter never wraps. */
  lemma StepNumberFits(inlen: nat, j: nat, i: nat)
    requires Wrappable(inlen) && inlen < UINT_RANGE && j < 6 && 1 <= i <= inlen / 8
    ensures 1 <= StepNo(inlen / 8, j, i) <= 6 * (inlen / 8) < UINT_RANGE
  {
    var n := inlen / 8;
    MulMono(j, 5, n);
  }

  lemma NextStep(n: nat, j: nat, i: nat)
    ensures StepNo(n, j, i + 1) == StepNo(n, j, i) + 1
  {
  }

  /** One past the last step of a round is the first step of the next. */
  lemma NextRound(n: nat, j: nat)
    ensures StepNo(n, j, n + 1) == StepNo(n, j + 1, 1) && StepNo(n, j, n) == StepNo(n, j + 1, 0)
  {
    assert n * (j + 1) == n * j + n;
  }

  lemma StepsStart(n: nat)
    ensures StepNo(n, 0, 1) == 1 && StepNo(n, 6, 0) == 6 * n
  {
  }

  /** The bytes of a step number that the code leaves out are zero. */
  lemma HighBytesZero(t: nat)
    requires t < UINT_RANGE
    ensures forall k :: 0 <= k < 4 ==> BigEndian(t)[k] == 0
    ensures t <= 0xff ==> forall k :: 4 <= k < 7 ==> BigEndian(t)[k] == 0
  {
    assert ByteOf(0) == 0;
    hide ByteOf;
    assert t / 0x1_0000_0000 == 0 && t / 0x100_0000_0000 == 0 && t / 0x1_0000_0000_0000 == 0 && t / 0x100_0000_0000_0000 == 0;
  }

  /** So folding in four bytes of the step number, or one when the rest is zero, is folding in all eight. */
  lemma FoldedWord(a: Word, t: nat)
    requires t < UINT_RANGE
    ensures Xor(a, BigEndian(t)) ==
      a[..4] + (if t > 0xff then
                  [XorByte(a[4], ByteOf(t / 0x100_0000)), XorByte(a[5], ByteOf(t / 0x1_0000)), XorByte(a[6], ByteOf(t / 0x100))]
                else a[4..7]) + [XorByte(a[7], ByteOf(t))]
  {
    hide XorByte, ByteOf;
    HighBytesZero(t);
    forall k | 0 <= k < 8
      ensures XorByte(a[k], 0) == a[k]
    {
      XorByteTwice(a[k], 0);
    }
  }

  /** Folds a step number into the check register held in `b[..8]`. */
  method FoldIn(b: array<bv8>, t: int)
    requires b.Length == 16 && 0 <= t < UINT_RANGE
    modifies b
    ensures b[..8] == Xor(old(b[..8]), BigEndian(t)) && b[8..] == old(b[8..])
  {
    hide ByteOf, XorByte, Xor, BigEndian;
    ghost var a := b[..8];
    FoldedWord(a, t);
    b[7] := XorByte(b[7], ByteOf(t));
    if t > 0xff {
      b[6] := XorByte(b[6], ByteOf(t / 0x100));
      b[5] := XorByte(b[5], ByteOf(t / 0x1_0000));
      b[4] := XorByte(b[4], ByteOf(t / 0x100_0000));
    }
    assert b[..4] == a[..4] && b[..8] == b[..4] + b[4..7] + [b[7]];
  }

  /** Puts a register behind the check register. */
  method LoadRegister(b: array<bv8>, w: Bytes)
    requires b.Length == 16 && |w| == 8
    modifies b
    ensures b[..] == old(b[..8]) + w
  {
    CopyInto(b, 8, w);
  }

  /** Overwrites the block. */
  method LoadBlock(b: array<bv8>, e: Bytes)
    requires b.Length == |e| == 16
    modifies b
    ensures b[..] == e && b[..8] == e[..8] && b[8..] == e[8..]
  {
    CopyInto(b, 0, e);
    assert b[..] == e;
  }

  lemma SliceBehind(r: Bytes, off: nat)
    requires off + 16 <= |r|
    ensures r[8 + off..16 + off] == r[8..][off..off + 8]
  {
    var x, y := r[8 + off..16 + off], r[8..][off..off + 8];
    assert |x| == |y| && forall k :: 0 <= k < |x| ==> x[k] == r[8 + off + k] == y[k];
  }

  method WrapOne(c: Cipher, b: array<bv8>, out: array<bv8>, off: nat, t: int)
    requires b.Length == 16 && b != out && off + 16 <= out.Length && 0 <= t < UINT_RANGE
    modifies b, out
    ensures var s := WrapStep(c, Regs(old(b[..8]), old(out[8..])), off, t);
      b[..8] == s.a && out[8..] == s.r && out[..8] == old(out[..8])
  {
    hide Xor, BigEndian, Put;
    SliceBehind(out[..], off);
    LoadRegister(b, out[8 + off..16 + off]);
    var e := c.enc(b[..]);
    LoadBlock(b, e);
    FoldIn(b, t);
    CopyInto(out, 8 + off, e[8..]);
    PutBehind(old(out[..]), off, e[8..]);
  }

  method UnwrapOne(c: Cipher, b: array<bv8>, out: array<bv8>, off: nat, t: int)
    requires b.Length == 16 && b != out && off + 8 <= out.Length && 0 <= t < UINT_RANGE
    modifies b, out
    ensures var s := UnwrapStep(c, Regs(old(b[..8]), old(out[..])), off, t);
      b[..8] == s.a && out[..] == s.r
  {
    hide Xor, BigEndian, Put;
    FoldIn(b, t);
    LoadRegister(b, out[off..off + 8]);
    var d := c.dec(b[..]);
    LoadBlock(b, d);
    CopyInto(out, off, d[8..]);
  }

  /** The inner loop of wrapping: the registers from the first to the last, counting up from `t0`. */
  method WrapPass(c: Cipher, b: array<bv8>, out: array<bv8>, t0: int, ghost j: nat) returns (t: int)
    requires b.Length == 16 && b != out && out.Length >= 8 && Wrappable(out.Length - 8) && out.Length - 8 < UINT_RANGE
    requires j < 6 && t0 == StepNo(out.Length / 8 - 1, j, 1)
    modifies b, out
    ensures t == StepNo(out.Length / 8 - 1, j + 1, 1)
    ensures var n := out.Length / 8 - 1; Regs(b[..8], out[8..]) == WrapRound(c, Regs(old(b[..8]), old(out[8..])), n, j, n)
  {
    hide WrapStep, StepNo;
    t := t0;
    var i := 0;
    ghost var n, k: nat := out.Length / 8 - 1, 0;
    ghost var s0 := Regs(b[..8], out[8..]);
    while i < out.Length - 8
      invariant i == 8 * k && k <= n && t == StepNo(n, j, k + 1)
      invariant Regs(b[..8], out[8..]) == WrapRound(c, s0, n, j, k)
    {
      StepNumberFits(out.Length - 8, j, k + 1);
      WrapOne(c, b, out, i, t);
      NextStep(n, j, k + 1);
      i, t, k := i + 8, t + 1, k + 1;
    }
    NextRound(n, j);
  }

  /** The outer loop of wrapping. */
  method WrapPasses(c: Cipher, b: array<bv8>, out: array<bv8>)
    requires b.Length == 16 && b != out && out.Length >= 8 && Wrappable(out.Length - 8) && out.Length - 8 < UINT_RANGE
    modifies b, out
    ensures Regs(b[..8], out[8..]) == WrapRounds(c, Regs(old(b[..8]), old(out[8..])), out.Length / 8 - 1, ROUNDS)
  {
    hide WrapRound, StepNo;
    var t, j := 1, 0;
    ghost var n := out.Length / 8 - 1;
    ghost var s0 := Regs(b[..8], out[8..]);
    StepsStart(n);
    while j < 6
      invariant 0 <= j <= 6 && t == StepNo(n, j, 1)
      invariant Regs(b[..8], out[8..]) == WrapRounds(c, s0, n, j)
    {
      t := WrapPass(c, b, out, t, j);
      j := j + 1;
    }
  }

  /** crysprFallback_AES_WrapKey. */
  method WrapKey(c: Cipher, out: array<bv8>, key: Bytes) returns (ret: int)
    requires |key| < UINT_RANGE && out.Length == |key| + 8
    modifies out
    ensures ret == if Wrappable(|key|) then 0 else -1
    ensures ret == 0 ==> out[..] == Wrapped(c, key)
    ensures ret != 0 ==> out[..] == old(out[..])
  {
    hide WrapRounds;
    if |key| % 8 != 0 || |key| < 8 {
      return -1;
    }
    var b := new bv8[16];
    CopyInto(out, 8, key);
    CopyInto(b, 0, IV);
    assert b[..8] == IV && out[8..] == key;
    WrapPasses(c, b, out);
    CopyInto(out, 0, b[..8]);
    ret := 0;
  }

  /** The inner loop of unwrapping: the registers from the last to the first, counting down from `t`. */
  method UnwrapPass(c: Cipher, b: array<bv8>, out: array<bv8>, t0: int, ghost j: nat) returns (t: int)
    requires b.Length == 16 && b != out && Wrappable(out.Length) && out.Length < UINT_RANGE
    requires j < 6 && t0 == StepNo(out.Length / 8, j, out.Length / 8)
    modifies b, out
    ensures t == StepNo(out.Length / 8, j, 0)
    ensures Regs(b[..8], out[..]) == UnwrapRound(c, Regs(old(b[..8]), old(out[..])), out.Length / 8, j, out.Length / 8)
  {
    hide UnwrapStep, StepNo;
    t := t0;
    var i, off := 0, out.Length - 8;
    ghost var n, k: nat := out.Length / 8, 0;
    ghost var s0 := Regs(b[..8], out[..]);
    while i < out.Length
      invariant i == 8 * k && k <= n && t == StepNo(n, j, n - k) && off == out.Length - 8 - i
      invariant UnwrapRound(c, Regs(b[..8], out[..]), n, j, n - k) == UnwrapRound(c, s0, n, j, n)
    {
      StepNumberFits(out.Length, j, n - k);
      NextStep(n, j, n - k - 1);
      ghost var s := Regs(b[..8], out[..]);
      UnwrapOne(c, b, out, off, t);
      assert Regs(b[..8], out[..]) == UnwrapStep(c, s, 8 * (n - k - 1), StepNo(n, j, n - k));
      i, t, off, k := i + 8, t - 1, off - 8, k + 1;
    }
  }

  /** The outer loop of unwrapping. */
  method UnwrapPasses(c: Cipher, b: array<bv8>, out: array<bv8>)
    requires b.Length == 16 && b != out && Wrappable(out.Length) && out.Length < UINT_RANGE
    modifies b, out
    ensures Regs(b[..8], out[..]) == UnwrapRounds(c, Regs(old(b[..8]), old(out[..])), out.Length / 8, ROUNDS)
  {
    hide UnwrapRound, StepNo;
    var t, j := 6 * (out.Length / 8), 0;
    ghost var n := out.Length / 8;
    ghost var s0 := Regs(b[..8], out[..]);
    StepsStart(n);
    while j < 6
      invariant 0 <= j <= 6 && t == StepNo(n, 6 - j, 0)
      invariant UnwrapRounds(c, Regs(b[..8], out[..]), n, 6 - j) == UnwrapRounds(c, s0, n, ROUNDS)
    {
      NextRound(n, 5 - j);
      t := UnwrapPass(c, b, out, t, 5 - j);
      j := j + 1;
    }
  }

  /** Loads the wrapped key and unwraps it in place. */
  method UnwrapLoaded(c: Cipher, b: array<bv8>, out: array<bv8>, w: Bytes)
    requires b.Length == 16 && b != out && |w| < UINT_RANGE && out.Length == |w| - 8 && Wrappable(|w| - 8)
    modifies b, out
    ensures Regs(b[..8], out[..]) == Recovered(c, w)
  {
    hide UnwrapRounds;
    CopyInto(b, 0, w[..8]);
    CopyInto(out, 0, w[8..]);
    assert b[..8] == w[..8] && out[..] == w[8..];
    UnwrapPasses(c, b, out);
  }

  /** crysprFallback_AES_UnwrapKey: on a failed integrity check the output is wiped. */
  method UnwrapKey(c: Cipher, out: array<bv8>, w: Bytes) returns (ret: int)
    requires 8 <= |w| < UINT_RANGE && out.Length == |w| - 8
    modifies out
    ensures ret == if Unwrapped(c, w).Some? then 0 else -1
    ensures ret == 0 ==> out[..] == Unwrapped(c, w).value
    ensures Wrappable(|w| - 8) && ret != 0 ==> forall k :: 0 <= k < out.Length ==> out[k] == 0
    ensures !Wrappable(|w| - 8) ==> out[..] == old(out[..])
  {
    hide Recovered;
    var inlen := |w| - 8;
    if inlen % 8 != 0 || inlen < 8 {
      return -1;
    }
    var b := new bv8[16];
    UnwrapLoaded(c, b, out, w);
    if b[..8] != IV {
      Wipe(out);
      return -1;
    }
    ret := 0;
  }
}

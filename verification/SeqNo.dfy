/**
  31-bit circular packet sequence numbers (class CSeqNo).

  A live sequence number is an unbounded integer; what travels in a packet is its
  projection `Wrap`. The lemmas say when the circular operations of the code agree
  with ordinary arithmetic on the unbounded numbers.
 */
module SeqNo {
  const MAX_SEQNO: int := 0x7FFF_FFFF
  const SEQNO_TH: int := 0x3FFF_FFFF

  type Seq31 = n: int | 0 <= n <= MAX_SEQNO

  function Wrap(n: int): Seq31 {
    n % (MAX_SEQNO + 1)
  }

  function Abs(x: int): nat {
    if x < 0 then -x else x
  }

  function SeqOff(seq1: Seq31, seq2: Seq31): int {
    if Abs(seq1 - seq2) < SEQNO_TH then seq2 - seq1
    else if seq1 < seq2 then seq2 - seq1 - MAX_SEQNO - 1
    else seq2 - seq1 + MAX_SEQNO + 1
  }

  function IncSeq(n: Seq31): Seq31 {
    if n == MAX_SEQNO then 0 else n + 1
  }

  function IncSeqBy(n: Seq31, inc: int): Seq31
    requires 0 <= inc <= MAX_SEQNO
  {
    if MAX_SEQNO - n >= inc then n + inc else n - MAX_SEQNO + inc - 1
  }

  function DecSeq(n: Seq31): Seq31 {
    if n == 0 then MAX_SEQNO else n - 1
  }

  /** Distances below the threshold survive the projection to 31 bits, in both directions. */
  lemma SeqOffExact(a: int, b: int)
    requires Abs(b - a) < SEQNO_TH
    ensures SeqOff(Wrap(a), Wrap(b)) == b - a
  {
    var m := MAX_SEQNO + 1;
    var qa, qb := a / m, b / m;
    assert a == qa * m + Wrap(a) && b == qb * m + Wrap(b);
    var d := qb - qa;
    assert b - a == d * m + (Wrap(b) - Wrap(a));
    assert -1 <= d <= 1;
  }

  lemma IncSeqWraps(a: int, inc: int)
    requires 0 <= inc <= MAX_SEQNO
    ensures IncSeqBy(Wrap(a), inc) == Wrap(a + inc)
    ensures IncSeq(Wrap(a)) == Wrap(a + 1)
    ensures DecSeq(Wrap(a + 1)) == Wrap(a)
  {
  }
}

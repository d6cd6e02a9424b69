/** Data packets as both buffers see them: decoded header fields and the payload. */
module Packets {
  import opened Arith
  import opened SeqNo

  type Byte = bv8
  type Bytes = seq<Byte>

  datatype Option<+T> = None | Some(value: T)

  /**
    `first` and `last` are the two bits of the message boundary field (both set means a
    message of one packet), `inOrder` is the in-order delivery flag.
   */
  datatype Packet = Packet(seqno: Seq31, msgno: nat, first: bool, last: bool, inOrder: bool, payload: Bytes)

  /** The payloads of consecutive packets, joined. */
  function Payloads(ps: seq<Packet>): Bytes {
    if ps == [] then [] else ps[0].payload + Payloads(ps[1..])
  }

  lemma {:induction false} PayloadsConcat(a: seq<Packet>, b: seq<Packet>)
    ensures Payloads(a + b) == Payloads(a) + Payloads(b)
  {
    if a == [] {
      assert a + b == b;
    } else {
      var p, x, y := a[0].payload, Payloads(a[1..]), Payloads(b);
      assert (a + b)[1..] == a[1..] + b && (a + b)[0] == a[0];
      assert Payloads(a + b) == p + (x + y) by {
        PayloadsConcat(a[1..], b);
      }
      assert p + (x + y) == (p + x) + y;
    }
  }

  /** The first `n` bytes, or all of them when there are fewer: a copy into a buffer of `n` bytes. */
  function Take(b: Bytes, n: int): Bytes {
    if n <= 0 then [] else if n >= |b| then b else b[..n]
  }

  /** A copy is always a prefix, cut off at the size of the buffer. */
  lemma TakeExact(b: Bytes, n: int)
    ensures Take(b, n) <= b && |Take(b, n)| == Min(Max(0, n), |b|)
  {
  }
}

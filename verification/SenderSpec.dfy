/** The sender buffer on values: the stored blocks in order, and how a message is cut into them. */
module SenderSpec {
  import opened Arith
  import opened Packets
  import opened SeqNo

  const MSGNO_MAX: nat := 0x3FF_FFFF

  /** What the buffer remembers about a block besides its payload. `keySpec` is the encryption key flag. */
  datatype Head = Head(
    seqno: Seq31, msgno: nat, first: bool, last: bool, inOrder: bool,
    keySpec: bv2, origin: int, rexmit: int, ttl: int)

  datatype Blk = Blk(payload: Bytes, head: Head)

  function TotalBytes(bs: seq<Blk>): nat {
    if bs == [] then 0 else |bs[0].payload| + TotalBytes(bs[1..])
  }

  lemma {:induction false} TotalAppend(bs: seq<Blk>, b: Blk)
    ensures TotalBytes(bs + [b]) == TotalBytes(bs) + |b.payload|
  {
    if bs == [] {
      assert bs + [b] == [b];
    } else {
      assert (bs + [b])[1..] == bs[1..] + [b];
      TotalAppend(bs[1..], b);
    }
  }

  // ---------------------------------------------------------------- cutting a message into blocks

  /** Message numbers run from 1 to the maximum and start over. */
  function NextMsgNo(n: nat): nat {
    if n + 1 > MSGNO_MAX then 1 else n + 1
  }

  function NumPackets(len: nat, pktLen: nat): nat
    requires pktLen > 0
  {
    (len + pktLen - 1) / pktLen
  }

  /** Exactly as many packets as needed: one fewer would not hold the message. */
  lemma NumPacketsExact(len: nat, pktLen: nat)
    requires pktLen > 0
    ensures var n := NumPackets(len, pktLen);
      len <= n * pktLen < len + pktLen && (len > 0 ==> n > 0 && (n - 1) * pktLen < len) && (len == 0 <==> n == 0)
  {
    var n := NumPackets(len, pktLen);
    assert len + pktLen - 1 == n * pktLen + (len + pktLen - 1) % pktLen;
    assert (n - 1) * pktLen == n * pktLen - pktLen;
    if n >= 1 {
      assert n * pktLen >= pktLen;
    }
  }

  function Piece(data: Bytes, pktLen: nat, i: nat): Bytes
    requires i * pktLen <= |data|
  {
    if |data| - i * pktLen > pktLen then data[i * pktLen..i * pktLen + pktLen] else data[i * pktLen..]
  }

  /** What the caller says about a message: its first sequence number, its number, delivery order, lifetime and time. */
  datatype MsgCtl = MsgCtl(seqno: Seq31, msgno: nat, inOrder: bool, ttl: int, origin: int)

  function SegmentHead(ctl: MsgCtl, i: nat, n: nat): Head {
    Head(Wrap(ctl.seqno + i), ctl.msgno, i == 0, i == n - 1, ctl.inOrder, 0, ctl.origin, 0, ctl.ttl)
  }

  /** The first `k` of the blocks a message is stored in. */
  function Segments(data: Bytes, pktLen: nat, k: nat, ctl: MsgCtl): (r: seq<Blk>)
    requires pktLen > 0 && k <= NumPackets(|data|, pktLen)
    ensures |r| == k
    decreases k
  {
    if k == 0 then []
    else
      PieceFits(|data|, pktLen, k - 1);
      Segments(data, pktLen, k - 1, ctl) +
      [Blk(Piece(data, pktLen, k - 1),
           SegmentHead(ctl, k - 1, NumPackets(|data|, pktLen)))]
  }

  lemma PieceFits(len: nat, pktLen: nat, i: nat)
    requires pktLen > 0 && i < NumPackets(len, pktLen)
    ensures i * pktLen < len
  {
    NumPacketsExact(len, pktLen);
    MulMono(i, NumPackets(len, pktLen) - 1, pktLen);
  }

  function Message(data: Bytes, pktLen: nat, ctl: MsgCtl): seq<Blk>
    requires pktLen > 0
  {
    Segments(data, pktLen, NumPackets(|data|, pktLen), ctl)
  }

  function Join(bs: seq<Blk>): Bytes {
    if bs == [] then [] else Join(bs[..|bs| - 1]) + bs[|bs| - 1].payload
  }

  lemma {:induction false} SegmentsJoin(data: Bytes, pktLen: nat, k: nat, ctl: MsgCtl)
    requires pktLen > 0 && k <= NumPackets(|data|, pktLen)
    ensures Join(Segments(data, pktLen, k, ctl)) == Take(data, k * pktLen)
    decreases k
  {
    hide Take, NumPackets, Piece;
    if k == 0 {
      TakeNothing(data);
    } else {
      SegmentsJoin(data, pktLen, k - 1, ctl);
      PieceFits(|data|, pktLen, k - 1);
      var bs := Segments(data, pktLen, k, ctl);
      assert bs[..k - 1] == Segments(data, pktLen, k - 1, ctl);
      TakePiece(data, pktLen, k - 1);
    }
  }

  lemma TakeNothing(data: Bytes)
    ensures Take(data, 0) == []
  {
  }

  lemma TakePiece(data: Bytes, pktLen: nat, i: nat)
    requires i * pktLen < |data|
    ensures Take(data, i * pktLen) + Piece(data, pktLen, i) == Take(data, (i + 1) * pktLen)
  {
    var o := i * pktLen;
    assert (i + 1) * pktLen == o + pktLen;
    if |data| - o > pktLen {
      assert data[..o] + data[o..o + pktLen] == data[..o + pktLen];
    } else {
      assert data[..o] + data[o..] == data;
    }
  }

  /** Joining the blocks of a message gives the message back, byte for byte. */
  lemma MessageJoins(data: Bytes, pktLen: nat, ctl: MsgCtl)
    requires pktLen > 0
    ensures Join(Message(data, pktLen, ctl)) == data
  {
    NumPacketsExact(|data|, pktLen);
    SegmentsJoin(data, pktLen, NumPackets(|data|, pktLen), ctl);
  }

  /** Every piece but the last is full. */
  lemma PieceLength(data: Bytes, pktLen: nat, i: nat)
    requires pktLen > 0 && i < NumPackets(|data|, pktLen) && i * pktLen <= |data|
    ensures 0 < |Piece(data, pktLen, i)| <= pktLen
    ensures i < NumPackets(|data|, pktLen) - 1 ==> |Piece(data, pktLen, i)| == pktLen
  {
    hide NumPackets;
    PieceFits(|data|, pktLen, i);
    if i + 1 < NumPackets(|data|, pktLen) {
      PieceFits(|data|, pktLen, i + 1);
      assert (i + 1) * pktLen == i * pktLen + pktLen;
    }
  }

  lemma {:induction false} SegmentAt(data: Bytes, pktLen: nat, k: nat, ctl: MsgCtl, i: nat)
    requires pktLen > 0 && i < k <= NumPackets(|data|, pktLen)
    ensures var b, n := Segments(data, pktLen, k, ctl)[i], NumPackets(|data|, pktLen);
      && b.head == Head(Wrap(ctl.seqno + i), ctl.msgno, i == 0, i == n - 1, ctl.inOrder, 0, ctl.origin, 0, ctl.ttl)
      && 0 < |b.payload| <= pktLen && (i < n - 1 ==> |b.payload| == pktLen)
    decreases k
  {
    hide NumPackets, Piece, Wrap;
    PieceFits(|data|, pktLen, k - 1);
    if i < k - 1 {
      SegmentAt(data, pktLen, k - 1, ctl, i);
    } else {
      PieceLength(data, pktLen, i);
    }
  }

  // ---------------------------------------------------------------- reading and dropping

  predicate Expired(h: Head, now: int) {
    h.ttl >= 0 && now - h.origin > h.ttl
  }

  /** The first block from `i` on whose time to live has not run out. */
  function NextLive(bs: seq<Blk>, i: nat, now: int): (r: nat)
    requires i <= |bs|
    ensures i <= r <= |bs|
    decreases |bs| - i
  {
    if i < |bs| && Expired(bs[i].head, now) then NextLive(bs, i + 1, now) else i
  }

  /** One past the last block from `i` on that carries message number `msgno` without interruption. */
  function MsgRun(bs: seq<Blk>, i: nat, msgno: nat): (r: nat)
    requires i <= |bs|
    ensures i <= r <= |bs|
    decreases |bs| - i
  {
    if i < |bs| && bs[i].head.msgno == msgno then MsgRun(bs, i + 1, msgno) else i
  }

  /** How many blocks at the front are older than `time`. */
  function LateRun(bs: seq<Blk>, i: nat, time: int): (r: nat)
    requires i <= |bs|
    ensures i <= r <= |bs|
    decreases |bs| - i
  {
    if i < |bs| && bs[i].head.origin < time then LateRun(bs, i + 1, time) else i
  }

  /** The blocks from `a` to `b` marked with an encryption key flag. */
  function Keyed(bs: seq<Blk>, a: nat, b: nat, key: bv2): (r: seq<Blk>)
    ensures |r| == |bs|
  {
    seq(|bs|, i requires 0 <= i < |bs| =>
      if a <= i < b then bs[i].(head := bs[i].head.(keySpec := bs[i].head.keySpec | key)) else bs[i])
  }

  lemma KeyedNothing(bs: seq<Blk>, a: nat, key: bv2)
    ensures Keyed(bs, a, a, key) == bs
  {
  }

  lemma KeyedStep(bs: seq<Blk>, a: nat, b: nat, key: bv2)
    requires a <= b < |bs|
    ensures Keyed(bs, a, b, key)[b] == bs[b]
    ensures Keyed(bs, a, b + 1, key) ==
      Keyed(bs, a, b, key)[b := bs[b].(head := bs[b].head.(keySpec := bs[b].head.keySpec | key))]
  {
  }

  datatype Rexmit = NoData | DropRequest(msgno: nat, begin: Seq31, end: Seq31) | Resent(blk: Blk)

  // ---------------------------------------------------------------- what each read leaves behind

  /** One past the last block a first-time read looks at. */
  function SendEnd(bs: seq<Blk>, cur: nat, now: int): (r: nat)
    requires cur <= |bs|
    ensures cur <= r <= |bs|
  {
    var j := NextLive(bs, cur, now);
    if j < |bs| then j + 1 else j
  }

  function AfterSend(bs: seq<Blk>, cur: nat, kflgs: int, now: int): (r: seq<Blk>)
    requires cur <= |bs| && -1 <= kflgs <= 3
    ensures |r| == |bs|
  {
    if kflgs == -1 then bs else Keyed(bs, cur, SendEnd(bs, cur, now), kflgs as bv2)
  }

  function AfterResend(bs: seq<Blk>, i: nat, now: int): (r: seq<Blk>)
    ensures |r| == |bs|
  {
    if i < |bs| && !Expired(bs[i].head, now) then bs[i := bs[i].(head := bs[i].head.(rexmit := now))] else bs
  }

  function ResendCursor(bs: seq<Blk>, cur: nat, i: nat, now: int): (r: nat)
    requires cur <= |bs|
    ensures cur <= r <= |bs|
  {
    if i < |bs| && Expired(bs[i].head, now) then
      var end := MsgRun(bs, i + 1, bs[i].head.msgno);
      if i < cur < end then end else cur
    else cur
  }
}

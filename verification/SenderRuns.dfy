/**
  Runs of the sender buffer: messages submitted, acknowledged, dropped as too late, sent and
  sent again. What is stored is always a suffix of one well-formed stream, and every packet
  handed out is a packet of that stream.
 */
module SenderRuns {
  import opened Packets
  import opened SeqNo
  import opened SenderSpec
  import opened Streams
  import opened ReceiverDelivery

  function ToPacket(b: Blk): Packet {
    Packet(b.head.seqno, b.head.msgno, b.head.first, b.head.last, b.head.inOrder, b.payload)
  }

  function ToPackets(bs: seq<Blk>): (r: seq<Packet>)
    ensures |r| == |bs|
  {
    seq(|bs|, i requires 0 <= i < |bs| => ToPacket(bs[i]))
  }

  /** The stored blocks, the send cursor, and the next message and (unbounded) sequence number. */
  datatype Snd = Snd(bs: seq<Blk>, cur: nat, nextMsgNo: nat, nextSeq: int)

  datatype SndEvent =
    | Submit(data: Bytes, inOrder: bool, ttl: int, origin: int)
    | Ack(k: nat)
    | Late(time: int)
    | Send(kflgs: int, now: int)
    | Resend(i: nat, now: int)

  predicate SndLegal(s: Snd, e: SndEvent) {
    match e
    case Submit(data, _, _, _) => data != []
    case Ack(k) => k <= |s.bs|
    case Send(kflgs, _) => -1 <= kflgs <= 3
    case _ => true
  }

  function CtlOf(s: Snd, e: SndEvent): MsgCtl
    requires e.Submit?
  {
    MsgCtl(Wrap(s.nextSeq), s.nextMsgNo, e.inOrder, e.ttl, e.origin)
  }

  function Cut(s: Snd, k: nat): Snd
    requires k <= |s.bs|
  {
    s.(bs := s.bs[k..], cur := if s.cur <= k then 0 else s.cur - k)
  }

  function SndStep(s: Snd, e: SndEvent, pktLen: nat): Snd
    requires pktLen > 0 && SndLegal(s, e) && s.cur <= |s.bs|
  {
    match e
    case Submit(data, _, _, _) =>
      s.(bs := s.bs + Message(data, pktLen, CtlOf(s, e)), nextMsgNo := NextMsgNo(s.nextMsgNo),
         nextSeq := s.nextSeq + NumPackets(|data|, pktLen))
    case Ack(k) => Cut(s, k)
    case Late(time) => Cut(s, LateRun(s.bs, 0, time))
    case Send(kflgs, now) =>
      s.(bs := AfterSend(s.bs, s.cur, kflgs, now), cur := SendEnd(s.bs, s.cur, now))
    case Resend(i, now) =>
      s.(bs := AfterResend(s.bs, i, now), cur := ResendCursor(s.bs, s.cur, i, now))
  }

  /** The packet an event puts on the wire, if any. */
  function Emits(s: Snd, e: SndEvent): Option<Packet>
    requires s.cur <= |s.bs| && (e.Send? ==> -1 <= e.kflgs <= 3)
  {
    match e
    case Send(kflgs, now) =>
      var j := NextLive(s.bs, s.cur, now);
      if j < |s.bs| then Some(ToPacket(AfterSend(s.bs, s.cur, kflgs, now)[j])) else None
    case Resend(i, now) => if i < |s.bs| && !Expired(s.bs[i].head, now) then Some(ToPacket(s.bs[i])) else None
    case _ => None
  }

  /** The messages handed in so far are `ms`; the stored blocks are the last packets of them. */
  ghost predicate Holding(s: Snd, isn: int, ms: seq<seq<Packet>>) {
    var pk := Flatten(ms);
    && WellFormed(Stream(isn, pk))
    && |s.bs| <= |pk| && IsTail(s.bs, pk)
    && s.nextSeq == isn + |pk| && s.cur <= |s.bs|
    && 1 <= s.nextMsgNo <= MSGNO_MAX
    && (pk != [] ==> pk[|pk| - 1].last && pk[|pk| - 1].msgno != s.nextMsgNo)
  }

  ghost predicate IsTail(bs: seq<Blk>, pk: seq<Packet>)
    requires |bs| <= |pk|
  {
    forall i :: 0 <= i < |bs| ==> ToPacket(bs[i]) == pk[|pk| - |bs| + i]
  }

  lemma {:induction false} FlattenMore<T>(ms: seq<seq<T>>, m: seq<T>)
    ensures Flatten(ms + [m]) == Flatten(ms) + m
  {
    if ms == [] {
      assert ms + [m] == [m];
      assert Flatten<T>([m]) == m + Flatten<T>([m][1..]);
      assert m + [] == m;
    } else {
      FlattenMore(ms[1..], m);
      assert (ms + [m])[1..] == ms[1..] + [m];
      assert ms[0] + (Flatten(ms[1..]) + m) == (ms[0] + Flatten(ms[1..])) + m;
    }
  }

  /** The packets of a submitted message. */
  function MessagePackets(data: Bytes, pktLen: nat, ctl: MsgCtl): seq<Packet>
    requires pktLen > 0
  {
    ToPackets(Message(data, pktLen, ctl))
  }

  lemma MessagePacketAt(data: Bytes, pktLen: nat, ctl: MsgCtl, i: nat)
    requires pktLen > 0 && i < NumPackets(|data|, pktLen)
    ensures |MessagePackets(data, pktLen, ctl)| == NumPackets(|data|, pktLen)
    ensures var p, n := MessagePackets(data, pktLen, ctl)[i], NumPackets(|data|, pktLen);
      p.seqno == Wrap(ctl.seqno + i) && p.msgno == ctl.msgno && p.inOrder == ctl.inOrder
      && (p.first <==> i == 0) && (p.last <==> i == n - 1)
  {
    SegmentAt(data, pktLen, NumPackets(|data|, pktLen), ctl, i);
  }

  lemma WrapShift(q: int, i: nat)
    ensures Wrap(Wrap(q) + i) == Wrap(q + i)
  {
  }

  /** Laying a new message behind a well-formed stream keeps it well-formed. */
  lemma ExtendStream(isn: int, pk: seq<Packet>, data: Bytes, pktLen: nat, ctl: MsgCtl)
    requires pktLen > 0 && data != [] && WellFormed(Stream(isn, pk)) && ctl.seqno == Wrap(isn + |pk|)
    requires pk != [] ==> pk[|pk| - 1].last && pk[|pk| - 1].msgno != ctl.msgno
    ensures WellFormed(Stream(isn, pk + MessagePackets(data, pktLen, ctl)))
  {
    hide NumPackets, Wrap;
    var m, n := MessagePackets(data, pktLen, ctl), NumPackets(|data|, pktLen);
    var r := pk + m;
    NumPacketsExact(|data|, pktLen);
    MessagePacketAt(data, pktLen, ctl, 0);
    forall i | 0 <= i < |r|
      ensures r[i].seqno == Wrap(isn + i)
    {
      if i >= |pk| {
        MessagePacketAt(data, pktLen, ctl, i - |pk|);
        WrapShift(isn + |pk|, i - |pk|);
      }
    }
    forall i | 0 < i < |r|
      ensures Follows(r[i - 1], r[i])
    {
      if i >= |pk| {
        MessagePacketAt(data, pktLen, ctl, i - |pk|);
        if i > |pk| {
          MessagePacketAt(data, pktLen, ctl, i - 1 - |pk|);
        }
      } else {
        assert Follows(pk[i - 1], pk[i]);
      }
    }
  }

  lemma SubmitHolding(s: Snd, isn: int, ms: seq<seq<Packet>>, e: SndEvent, pktLen: nat)
    requires Holding(s, isn, ms) && pktLen > 0 && e.Submit? && e.data != []
    ensures Holding(SndStep(s, e, pktLen), isn, ms + [MessagePackets(e.data, pktLen, CtlOf(s, e))])
  {
    hide WellFormed, NumPackets, Wrap, Message;
    var ctl := CtlOf(s, e);
    var m := MessagePackets(e.data, pktLen, ctl);
    var pk, n := Flatten(ms), NumPackets(|e.data|, pktLen);
    NumPacketsExact(|e.data|, pktLen);
    FlattenMore(ms, m);
    ExtendStream(isn, pk, e.data, pktLen, ctl);
    MessagePacketAt(e.data, pktLen, ctl, n - 1);
    TailGrows(s.bs, pk, Message(e.data, pktLen, ctl));
  }

  lemma TailGrows(bs: seq<Blk>, pk: seq<Packet>, more: seq<Blk>)
    requires |bs| <= |pk| && IsTail(bs, pk)
    ensures IsTail(bs + more, pk + ToPackets(more))
  {
  }

  lemma CutHolding(s: Snd, isn: int, ms: seq<seq<Packet>>, k: nat)
    requires Holding(s, isn, ms) && k <= |s.bs|
    ensures Holding(Cut(s, k), isn, ms)
  {
    hide WellFormed;
  }

  /** Sending changes nothing that travels in a packet. */
  lemma SendKeepsPackets(s: Snd, kflgs: int, now: int)
    requires s.cur <= |s.bs| && -1 <= kflgs <= 3
    ensures ToPackets(AfterSend(s.bs, s.cur, kflgs, now)) == ToPackets(s.bs)
  {
  }

  lemma ResendKeepsPackets(s: Snd, i: nat, now: int)
    ensures ToPackets(AfterResend(s.bs, i, now)) == ToPackets(s.bs)
  {
  }

  lemma SamePackets(s: Snd, t: Snd, isn: int, ms: seq<seq<Packet>>)
    requires Holding(s, isn, ms) && ToPackets(t.bs) == ToPackets(s.bs) && t.cur <= |t.bs|
    requires t.nextMsgNo == s.nextMsgNo && t.nextSeq == s.nextSeq
    ensures Holding(t, isn, ms)
  {
    hide WellFormed;
    assert |t.bs| == |ToPackets(t.bs)| == |s.bs|;
    assert forall i :: 0 <= i < |t.bs| ==> ToPacket(t.bs[i]) == ToPackets(t.bs)[i] == ToPacket(s.bs[i]);
  }

  lemma StepHolding(s: Snd, isn: int, ms: seq<seq<Packet>>, e: SndEvent, pktLen: nat)
    requires Holding(s, isn, ms) && pktLen > 0 && SndLegal(s, e)
    ensures Holding(SndStep(s, e, pktLen), isn,
      if e.Submit? then ms + [MessagePackets(e.data, pktLen, CtlOf(s, e))] else ms)
  {
    hide WellFormed, IsTail, AfterSend, SendEnd, AfterResend, ResendCursor, LateRun, Message;
    match e
    case Submit(_, _, _, _) => SubmitHolding(s, isn, ms, e, pktLen);
    case Ack(k) => CutHolding(s, isn, ms, k);
    case Late(time) => CutHolding(s, isn, ms, LateRun(s.bs, 0, time));
    case Send(kflgs, now) =>
      SendKeepsPackets(s, kflgs, now);
      SamePackets(s, SndStep(s, e, pktLen), isn, ms);
    case Resend(i, now) =>
      ResendKeepsPackets(s, i, now);
      SamePackets(s, SndStep(s, e, pktLen), isn, ms);
  }

  /** Every packet put on the wire is the packet the stream has under its sequence number. */
  lemma EmittedIsOnStream(s: Snd, isn: int, ms: seq<seq<Packet>>, e: SndEvent)
    requires Holding(s, isn, ms) && SndLegal(s, e) && Emits(s, e).Some?
    ensures exists q :: isn <= q < isn + |Flatten(ms)| && Emits(s, e).value == Flatten(ms)[q - isn] && Emits(s, e).value.seqno == Wrap(q)
  {
    hide Holding, WellFormed, Flatten, AfterSend, ToPackets, Wrap;
    var i := if e.Send? then NextLive(s.bs, s.cur, e.now) else e.i;
    if e.Send? {
      SendKeepsPackets(s, e.kflgs, e.now);
      PacketOf(AfterSend(s.bs, s.cur, e.kflgs, e.now), i);
      PacketOf(s.bs, i);
    }
    StoredOnStream(s, isn, ms, i);
  }

  lemma PacketOf(bs: seq<Blk>, i: nat)
    requires i < |bs|
    ensures ToPackets(bs)[i] == ToPacket(bs[i])
  {
  }

  /** A stored block is the packet the stream has under its number. */
  lemma StoredOnStream(s: Snd, isn: int, ms: seq<seq<Packet>>, i: nat)
    requires Holding(s, isn, ms) && i < |s.bs|
    ensures var q := s.nextSeq - |s.bs| + i; var p := ToPacket(s.bs[i]);
      isn <= q < isn + |Flatten(ms)| && p == Flatten(ms)[q - isn] && p.seqno == Wrap(q)
  {
    hide Flatten, Wrap;
    var k := |Flatten(ms)| - |s.bs| + i;
    assert Flatten(ms)[k].seqno == Wrap(isn + k);
  }

  // ---------------------------------------------------------------- retransmission

  lemma {:induction false} RunIsMessage(bs: seq<Blk>, i: nat, m: nat)
    requires i <= |bs|
    ensures var end := MsgRun(bs, i, m);
      (forall k :: i <= k < end ==> bs[k].head.msgno == m) && (end < |bs| ==> bs[end].head.msgno != m)
    decreases |bs| - i
  {
    if i < |bs| && bs[i].head.msgno == m {
      RunIsMessage(bs, i + 1, m);
    }
  }

  /** A block's number, and how its message mark relates to the block stored behind it. */
  lemma StoredNeighbours(s: Snd, isn: int, ms: seq<seq<Packet>>, k: nat)
    requires Holding(s, isn, ms) && k < |s.bs|
    ensures s.bs[k].head.seqno == Wrap(s.nextSeq - |s.bs| + k)
    ensures k + 1 < |s.bs| ==> (s.bs[k].head.last <==> s.bs[k].head.msgno != s.bs[k + 1].head.msgno)
    ensures k + 1 == |s.bs| ==> s.bs[k].head.last
  {
    hide Flatten, Wrap;
    var pk := Flatten(ms);
    var j := |pk| - |s.bs| + k;
    assert ToPacket(s.bs[k]) == pk[j] && pk[j].seqno == Wrap(isn + j);
    if k + 1 < |s.bs| {
      var j' := |pk| - |s.bs| + (k + 1);
      assert ToPacket(s.bs[k + 1]) == pk[j'];
      assert Follows(pk[j' - 1], pk[j']);
    }
  }

  /**
    Retransmission by offset hands out the packet the stream has under the number first plus
    offset, unless its time to live has run out. In that case the dropped range runs exactly to
    the last packet of its message, and a send cursor that had already passed the block is left
    behind the message.
   */
  lemma ResendByOffset(s: Snd, isn: int, ms: seq<seq<Packet>>, i: nat, now: int)
    requires Holding(s, isn, ms) && i < |s.bs|
    ensures var q := s.nextSeq - |s.bs| + i;
      && s.bs[i].head.seqno == Wrap(q)
      && (!Expired(s.bs[i].head, now) ==>
            0 <= q - isn < |Flatten(ms)| && Emits(s, Resend(i, now)) == Some(Flatten(ms)[q - isn]))
      && (Expired(s.bs[i].head, now) ==>
            var end := MsgRun(s.bs, i + 1, s.bs[i].head.msgno);
            && Emits(s, Resend(i, now)) == None
            && s.bs[end - 1].head.last && s.bs[end - 1].head.seqno == Wrap(q + (end - i - 1))
            && (forall k :: i <= k < end ==> s.bs[k].head.msgno == s.bs[i].head.msgno)
            && (forall k :: i <= k < end - 1 ==> !s.bs[k].head.last)
            && (i < s.cur ==> ResendCursor(s.bs, s.cur, i, now) >= end))
  {
    hide Holding, MsgRun, Wrap;
    var m := s.bs[i].head.msgno;
    var end := MsgRun(s.bs, i + 1, m);
    StoredOnStream(s, isn, ms, i);
    RunIsMessage(s.bs, i + 1, m);
    StoredNeighbours(s, isn, ms, i);
    StoredNeighbours(s, isn, ms, end - 1);
    assert s.nextSeq - |s.bs| + (end - 1) == s.nextSeq - |s.bs| + i + (end - i - 1);
    forall k | i <= k < end - 1
      ensures !s.bs[k].head.last
    {
      StoredNeighbours(s, isn, ms, k);
    }
  }

  // ---------------------------------------------------------------- runs

  ghost predicate SndRun(s: Snd, es: seq<SndEvent>, pktLen: nat)
    requires pktLen > 0 && s.cur <= |s.bs|
    decreases |es|
  {
    es == [] ||
    (SndLegal(s, es[0]) && SndStep(s, es[0], pktLen).cur <= |SndStep(s, es[0], pktLen).bs|
     && SndRun(SndStep(s, es[0], pktLen), es[1..], pktLen))
  }

  ghost function SndFinal(s: Snd, es: seq<SndEvent>, pktLen: nat): (r: Snd)
    requires pktLen > 0 && s.cur <= |s.bs| && SndRun(s, es, pktLen)
    ensures r.cur <= |r.bs|
    decreases |es|
  {
    if es == [] then s else SndFinal(SndStep(s, es[0], pktLen), es[1..], pktLen)
  }

  /** The packets of the messages a run submits. */
  ghost function Submitted(s: Snd, es: seq<SndEvent>, pktLen: nat): seq<seq<Packet>>
    requires pktLen > 0 && s.cur <= |s.bs| && SndRun(s, es, pktLen)
    decreases |es|
  {
    if es == [] then []
    else
      (if es[0].Submit? then [MessagePackets(es[0].data, pktLen, CtlOf(s, es[0]))] else []) +
      Submitted(SndStep(s, es[0], pktLen), es[1..], pktLen)
  }

  /** The messages themselves. */
  function Datas(es: seq<SndEvent>): seq<Bytes> {
    if es == [] then [] else (if es[0].Submit? then [es[0].data] else []) + Datas(es[1..])
  }

  lemma {:induction false} RunHolding(s: Snd, isn: int, ms: seq<seq<Packet>>, es: seq<SndEvent>, pktLen: nat)
    requires pktLen > 0 && Holding(s, isn, ms) && SndRun(s, es, pktLen)
    ensures Holding(SndFinal(s, es, pktLen), isn, ms + Submitted(s, es, pktLen))
    decreases |es|
  {
    hide WellFormed, IsTail, Flatten, SndStep, MessagePackets, CtlOf;
    if es == [] {
      assert ms + [] == ms;
    } else {
      var t := SndStep(s, es[0], pktLen);
      var m := if es[0].Submit? then [MessagePackets(es[0].data, pktLen, CtlOf(s, es[0]))] else [];
      StepHolding(s, isn, ms, es[0], pktLen);
      assert ms + [] == ms;
      RunHolding(t, isn, ms + m, es[1..], pktLen);
      assert (ms + m) + Submitted(t, es[1..], pktLen) == ms + (m + Submitted(t, es[1..], pktLen));
    }
  }

  lemma {:induction false} JoinIsPayloads(bs: seq<Blk>)
    ensures Payloads(ToPackets(bs)) == Join(bs)
    decreases |bs|
  {
    if bs != [] {
      var n := |bs| - 1;
      JoinIsPayloads(bs[..n]);
      assert ToPackets(bs) == ToPackets(bs[..n]) + [ToPacket(bs[n])];
      PayloadsConcat(ToPackets(bs[..n]), [ToPacket(bs[n])]);
      assert Payloads([ToPacket(bs[n])]) == bs[n].payload + [];
    }
  }

  /** The payloads of a submitted message, joined, are the message. */
  lemma MessageBytes(data: Bytes, pktLen: nat, ctl: MsgCtl)
    requires pktLen > 0
    ensures Payloads(MessagePackets(data, pktLen, ctl)) == data
  {
    JoinIsPayloads(Message(data, pktLen, ctl));
    MessageJoins(data, pktLen, ctl);
  }

  lemma {:induction false} SubmittedBytes(s: Snd, es: seq<SndEvent>, pktLen: nat)
    requires pktLen > 0 && s.cur <= |s.bs| && SndRun(s, es, pktLen)
    ensures var ms := Submitted(s, es, pktLen);
      |ms| == |Datas(es)| && forall k :: 0 <= k < |ms| ==> Payloads(ms[k]) == Datas(es)[k]
    decreases |es|
  {
    hide SndStep, Payloads, MessagePackets;
    if es != [] {
      SubmittedBytes(SndStep(s, es[0], pktLen), es[1..], pktLen);
      if es[0].Submit? {
        MessageBytes(es[0].data, pktLen, CtlOf(s, es[0]));
      }
    }
  }

  /** The packets of a submitted message are framed as one, and all carry its order flag. */
  lemma MessageFramed(data: Bytes, pktLen: nat, ctl: MsgCtl)
    requires pktLen > 0 && data != []
    ensures Framed(MessagePackets(data, pktLen, ctl))
    ensures ctl.inOrder ==> IsMessage(MessagePackets(data, pktLen, ctl))
  {
    hide NumPackets, MessagePackets;
    NumPacketsExact(|data|, pktLen);
    var m, n := MessagePackets(data, pktLen, ctl), NumPackets(|data|, pktLen);
    MessagePacketAt(data, pktLen, ctl, 0);
    forall j | 0 <= j < |m|
      ensures (ctl.inOrder ==> m[j].inOrder) && (m[j].first <==> j == 0) && (m[j].last <==> j == |m| - 1)
    {
      MessagePacketAt(data, pktLen, ctl, j);
    }
  }

  lemma {:induction false} SubmittedFramed(s: Snd, es: seq<SndEvent>, pktLen: nat)
    requires pktLen > 0 && s.cur <= |s.bs| && SndRun(s, es, pktLen)
    ensures AllFramed(Submitted(s, es, pktLen))
    decreases |es|
  {
    hide SndStep, Framed, MessagePackets;
    if es != [] {
      SubmittedFramed(SndStep(s, es[0], pktLen), es[1..], pktLen);
      if es[0].Submit? {
        MessageFramed(es[0].data, pktLen, CtlOf(s, es[0]));
      }
    }
  }

  lemma {:induction false} SubmittedInOrder(s: Snd, es: seq<SndEvent>, pktLen: nat)
    requires pktLen > 0 && s.cur <= |s.bs| && SndRun(s, es, pktLen)
    requires forall i :: 0 <= i < |es| && es[i].Submit? ==> es[i].inOrder
    ensures AllInOrder(Submitted(s, es, pktLen))
    decreases |es|
  {
    hide SndStep, IsMessage, MessagePackets;
    if es != [] {
      SubmittedInOrder(SndStep(s, es[0], pktLen), es[1..], pktLen);
      if es[0].Submit? {
        MessageFramed(es[0].data, pktLen, CtlOf(s, es[0]));
      }
    }
  }

  lemma InitialHolding(isn: int)
    ensures Holding(Snd([], 0, 1, isn), isn, [])
  {
  }

  /** Over every run from an empty buffer: what is stored is the tail of the messages submitted. */
  lemma RunFromEmpty(isn: int, es: seq<SndEvent>, pktLen: nat)
    requires pktLen > 0 && SndRun(Snd([], 0, 1, isn), es, pktLen)
    ensures var s := Snd([], 0, 1, isn);
      Holding(SndFinal(s, es, pktLen), isn, Submitted(s, es, pktLen))
  {
    hide Holding, SndRun, SndFinal, Submitted;
    var s := Snd([], 0, 1, isn);
    InitialHolding(isn);
    RunHolding(s, isn, [], es, pktLen);
    assert [] + Submitted(s, es, pktLen) == Submitted(s, es, pktLen);
  }
}

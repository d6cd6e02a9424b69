/**
  What the sender buffer sends, skips, drops and numbers, told from what leaves it: every block
  the send cursor passes was sent exactly once, or had expired, or left the buffer; messages are
  numbered one after the other; key flags are stamped once.
 */
module SenderExact {
  import opened Packets
  import opened SenderSpec
  import opened SenderRuns

  // ---------------------------------------------------------------- lifetimes and late blocks

  /** A lifetime runs out right after the time of origin plus its length, for good; a negative one never does. */
  lemma ExpiredExact(h: Head, now: int, later: int)
    ensures h.ttl < 0 ==> !Expired(h, now)
    ensures h.ttl >= 0 ==> !Expired(h, h.origin + h.ttl) && Expired(h, h.origin + h.ttl + 1)
    ensures Expired(h, now) && now <= later ==> Expired(h, later)
  {
  }

  lemma {:induction false} NextLiveExact(bs: seq<Blk>, i: nat, now: int)
    requires i <= |bs|
    ensures var j := NextLive(bs, i, now);
      (forall k :: i <= k < j ==> Expired(bs[k].head, now)) && (j < |bs| ==> !Expired(bs[j].head, now))
    decreases |bs| - i
  {
    hide Expired;
    if i < |bs| && Expired(bs[i].head, now) {
      NextLiveExact(bs, i + 1, now);
    }
  }

  /** Exactly the leading blocks that originate before the time given are too late. */
  lemma {:induction false} LateRunExact(bs: seq<Blk>, i: nat, time: int)
    requires i <= |bs|
    ensures var j := LateRun(bs, i, time);
      (forall k :: i <= k < j ==> bs[k].head.origin < time) && (j < |bs| ==> bs[j].head.origin >= time)
    decreases |bs| - i
  {
    if i < |bs| && bs[i].head.origin < time {
      LateRunExact(bs, i + 1, time);
    }
  }

  /** The byte total is the length of the payloads joined. */
  lemma {:induction false} TotalIsJoined(bs: seq<Blk>)
    ensures TotalBytes(bs) == |Join(bs)|
    decreases |bs|
  {
    if bs != [] {
      var n := |bs| - 1;
      TotalIsJoined(bs[..n]);
      assert bs == bs[..n] + [bs[n]];
      TotalAppend(bs[..n], bs[n]);
    }
  }

  // ---------------------------------------------------------------- what the cursor passes

  /** The number of the block at the send cursor. */
  function CursorNo(s: Snd): int {
    s.nextSeq - |s.bs| + s.cur
  }

  /** How block number `q` was passed by an event that led from `s` to `t`. */
  ghost predicate PassedBy(s: Snd, t: Snd, e: SndEvent, q: int)
    requires s.cur <= |s.bs| && SndLegal(s, e)
  {
    var b := q - (s.nextSeq - |s.bs|);
    && 0 <= b < |s.bs|
    && match e
       case Submit(_, _, _, _) => false
       case Send(_, now) =>
         if Emits(s, e).Some? && q == CursorNo(t) - 1
         then Emits(s, e).value == ToPacket(s.bs[b]) && !Expired(s.bs[b].head, now)
         else Expired(s.bs[b].head, now)
       case Ack(k) => b < k
       case Late(time) => forall c :: 0 <= c <= b ==> s.bs[c].head.origin < time
       case Resend(i, now) =>
         i < b && Expired(s.bs[i].head, now) && s.bs[b].head.msgno == s.bs[i].head.msgno
  }

  /** First-time sending emits the first block from the cursor on that has not expired, and stops right behind it. */
  lemma SendPasses(s: Snd, e: SndEvent, pktLen: nat, q: int)
    requires s.cur <= |s.bs| && SndLegal(s, e) && e.Send? && pktLen > 0
    ensures var t := SndStep(s, e, pktLen);
      && CursorNo(s) <= CursorNo(t)
      && (CursorNo(s) <= q < CursorNo(t) ==> PassedBy(s, t, e, q))
      && (Emits(s, e).Some? ==> CursorNo(s) < CursorNo(t) && PassedBy(s, t, e, CursorNo(t) - 1))
      && (Emits(s, e).None? ==> CursorNo(t) == s.nextSeq)
  {
    hide Expired, Keyed;
    var j := NextLive(s.bs, s.cur, e.now);
    NextLiveExact(s.bs, s.cur, e.now);
    SendKeepsPackets(s, e.kflgs, e.now);
    if j < |s.bs| {
      PacketOf(AfterSend(s.bs, s.cur, e.kflgs, e.now), j);
      PacketOf(s.bs, j);
    }
  }

  lemma ResendPasses(s: Snd, e: SndEvent, pktLen: nat, q: int)
    requires s.cur <= |s.bs| && SndLegal(s, e) && e.Resend? && pktLen > 0
    ensures var t := SndStep(s, e, pktLen);
      && CursorNo(s) <= CursorNo(t)
      && (CursorNo(s) <= q < CursorNo(t) ==> PassedBy(s, t, e, q))
  {
    hide Expired, MsgRun;
    if e.i < |s.bs| {
      RunIsMessage(s.bs, e.i + 1, s.bs[e.i].head.msgno);
    }
  }

  lemma CutPasses(s: Snd, e: SndEvent, pktLen: nat, q: int)
    requires s.cur <= |s.bs| && SndLegal(s, e) && (e.Ack? || e.Late?) && pktLen > 0
    ensures var t := SndStep(s, e, pktLen);
      && CursorNo(s) <= CursorNo(t)
      && (CursorNo(s) <= q < CursorNo(t) ==> PassedBy(s, t, e, q))
  {
    hide LateRun;
    if e.Late? {
      LateRunExact(s.bs, 0, e.time);
    }
  }

  /** Whatever the event, the cursor never goes back, and the event says why each block it passes needs no more sending. */
  lemma StepPasses(s: Snd, e: SndEvent, pktLen: nat, q: int)
    requires s.cur <= |s.bs| && SndLegal(s, e) && pktLen > 0
    ensures var t := SndStep(s, e, pktLen);
      && CursorNo(s) <= CursorNo(t)
      && (CursorNo(s) <= q < CursorNo(t) ==> PassedBy(s, t, e, q))
  {
    hide PassedBy, AfterSend, SendEnd, AfterResend, ResendCursor, LateRun, Message;
    match e
    case Submit(_, _, _, _) => SubmitKeepsCursor(s, e, pktLen);
    case Send(_, _) => SendPasses(s, e, pktLen, q);
    case Resend(_, _) => ResendPasses(s, e, pktLen, q);
    case _ => CutPasses(s, e, pktLen, q);
  }

  lemma SubmitKeepsCursor(s: Snd, e: SndEvent, pktLen: nat)
    requires s.cur <= |s.bs| && SndLegal(s, e) && e.Submit? && pktLen > 0
    ensures CursorNo(SndStep(s, e, pktLen)) == CursorNo(s)
  {
    hide NumPackets, Segments;
  }

  /** The state before event `i` of a run. */
  ghost function SndAt(s: Snd, es: seq<SndEvent>, pktLen: nat, i: nat): (r: Snd)
    requires pktLen > 0 && s.cur <= |s.bs| && SndRun(s, es, pktLen) && i <= |es|
    ensures r.cur <= |r.bs|
    decreases i
  {
    if i == 0 then s else SndAt(SndStep(s, es[0], pktLen), es[1..], pktLen, i - 1)
  }

  lemma {:induction false} SndAtStep(s: Snd, es: seq<SndEvent>, pktLen: nat, i: nat)
    requires pktLen > 0 && s.cur <= |s.bs| && SndRun(s, es, pktLen) && i < |es|
    ensures SndLegal(SndAt(s, es, pktLen, i), es[i])
    ensures SndAt(s, es, pktLen, i + 1) == SndStep(SndAt(s, es, pktLen, i), es[i], pktLen)
    decreases i
  {
    hide SndStep, SndLegal;
    if i > 0 {
      SndAtStep(SndStep(s, es[0], pktLen), es[1..], pktLen, i - 1);
    }
  }

  lemma {:induction false} CursorGrows(s: Snd, es: seq<SndEvent>, pktLen: nat, i: nat, j: nat)
    requires pktLen > 0 && s.cur <= |s.bs| && SndRun(s, es, pktLen) && i <= j <= |es|
    ensures CursorNo(SndAt(s, es, pktLen, i)) <= CursorNo(SndAt(s, es, pktLen, j))
    decreases j
  {
    hide SndStep, SndLegal, SndRun, SndAt, CursorNo;
    if i < j {
      CursorGrows(s, es, pktLen, i, j - 1);
      SndAtStep(s, es, pktLen, j - 1);
      StepPasses(SndAt(s, es, pktLen, j - 1), es[j - 1], pktLen, 0);
    }
  }

  /** The event of a run that passed block number `q`. */
  lemma {:induction false} PassingEvent(s: Snd, es: seq<SndEvent>, pktLen: nat, q: int, n: nat) returns (i: nat)
    requires pktLen > 0 && s.cur <= |s.bs| && SndRun(s, es, pktLen) && n <= |es|
    requires CursorNo(SndAt(s, es, pktLen, 0)) <= q < CursorNo(SndAt(s, es, pktLen, n))
    ensures i < n && CursorNo(SndAt(s, es, pktLen, i)) <= q < CursorNo(SndAt(s, es, pktLen, i + 1))
    decreases n
  {
    hide SndRun, SndAt, CursorNo;
    if n > 0 && CursorNo(SndAt(s, es, pktLen, n - 1)) <= q {
      i := n - 1;
    } else {
      i := PassingEvent(s, es, pktLen, q, n - 1);
    }
  }

  /** A `Send` of a run that puts the block numbered `q` on the wire. */
  ghost predicate SendsNo(s: Snd, es: seq<SndEvent>, pktLen: nat, j: nat, q: int)
    requires pktLen > 0 && s.cur <= |s.bs| && SndRun(s, es, pktLen) && j < |es|
  {
    var u := SndAt(s, es, pktLen, j);
    && es[j].Send? && SndLegal(u, es[j]) && Emits(u, es[j]).Some?
    && q == CursorNo(SndAt(s, es, pktLen, j + 1)) - 1
  }

  /**
    Over every run, each block the send cursor has passed was passed by one event: a `Send` that
    emitted it, a `Send` that found it expired, an acknowledgement or late drop that removed it,
    or a resend that found its message expired. No other `Send` of the run emits it.
   */
  lemma PassedOnce(s: Snd, es: seq<SndEvent>, pktLen: nat, q: int) returns (i: nat)
    requires pktLen > 0 && s.cur <= |s.bs| && SndRun(s, es, pktLen)
    requires CursorNo(SndAt(s, es, pktLen, 0)) <= q < CursorNo(SndAt(s, es, pktLen, |es|))
    ensures i < |es| && SndLegal(SndAt(s, es, pktLen, i), es[i])
    ensures PassedBy(SndAt(s, es, pktLen, i), SndAt(s, es, pktLen, i + 1), es[i], q)
    ensures forall j: nat :: j < |es| && SendsNo(s, es, pktLen, j, q) ==> j == i
  {
    hide SndRun, SndAt, CursorNo, SndStep, SndLegal, PassedBy, Emits;
    i := PassingEvent(s, es, pktLen, q, |es|);
    SndAtStep(s, es, pktLen, i);
    StepPasses(SndAt(s, es, pktLen, i), es[i], pktLen, q);
    forall j: nat | j < |es| && SendsNo(s, es, pktLen, j, q)
      ensures j == i
    {
      SndAtStep(s, es, pktLen, j);
      SendPasses(SndAt(s, es, pktLen, j), es[j], pktLen, q);
      if j < i {
        CursorGrows(s, es, pktLen, j + 1, i);
      } else if i < j {
        CursorGrows(s, es, pktLen, i + 1, j);
      }
    }
  }

  /** A block without a time to live is neither skipped nor turned into a drop request. */
  lemma NoLifetimeIsSent(s: Snd, kflgs: int, i: nat, now: int)
    requires s.cur <= |s.bs| && -1 <= kflgs <= 3
    ensures s.cur < |s.bs| && s.bs[s.cur].head.ttl < 0 ==> Emits(s, Send(kflgs, now)) == Some(ToPacket(s.bs[s.cur]))
    ensures i < |s.bs| && s.bs[i].head.ttl < 0 ==>
      Emits(s, Resend(i, now)) == Some(ToPacket(s.bs[i])) && ResendCursor(s.bs, s.cur, i, now) == s.cur
  {
    hide Keyed, MsgRun;
    SendKeepsPackets(s, kflgs, now);
    if s.cur < |s.bs| {
      PacketOf(AfterSend(s.bs, s.cur, kflgs, now), s.cur);
      PacketOf(s.bs, s.cur);
    }
  }

  // ---------------------------------------------------------------- what stays stored

  /** The block numbered `q` is stored, with packet `p`. */
  predicate Holds(s: Snd, q: int, p: Packet) {
    var b := q - (s.nextSeq - |s.bs|);
    0 <= b < |s.bs| && ToPacket(s.bs[b]) == p
  }

  /** The event acknowledges block number `q`, or drops it together with all older ones as too late. */
  ghost predicate Removes(s: Snd, e: SndEvent, q: int) {
    var b := q - (s.nextSeq - |s.bs|);
    || (e.Ack? && b < e.k)
    || (e.Late? && forall c :: 0 <= c <= b && c < |s.bs| ==> s.bs[c].head.origin < e.time)
  }

  /** A stored block stays stored, under its number and with its packet, unless it is acknowledged or too late. */
  lemma StepRetains(s: Snd, e: SndEvent, pktLen: nat, q: int, p: Packet)
    requires s.cur <= |s.bs| && SndLegal(s, e) && pktLen > 0 && Holds(s, q, p)
    ensures var t := SndStep(s, e, pktLen);
      if Removes(s, e, q) then q < t.nextSeq - |t.bs| else Holds(t, q, p)
  {
    hide Message, NumPackets, LateRun, MsgRun, NextLive, Expired;
    match e
    case Submit(data, _, _, _) => SubmitKeepsCursor(s, e, pktLen);
    case Ack(k) =>
    case Late(time) => LateRunExact(s.bs, 0, time);
    case Send(kflgs, now) =>
    case Resend(i, now) =>
  }

  /** Over every run: a block once stored is stored for as long as no event acknowledges it or drops it as too late. */
  lemma {:induction false} Retained(s: Snd, es: seq<SndEvent>, pktLen: nat, i: nat, j: nat, q: int, p: Packet)
    requires pktLen > 0 && s.cur <= |s.bs| && SndRun(s, es, pktLen) && i <= j <= |es|
    requires Holds(SndAt(s, es, pktLen, i), q, p)
    requires forall k :: i <= k < j ==> !Removes(SndAt(s, es, pktLen, k), es[k], q)
    ensures Holds(SndAt(s, es, pktLen, j), q, p)
    decreases j
  {
    hide SndStep, SndLegal, SndRun, SndAt, Holds, Removes;
    if i < j {
      Retained(s, es, pktLen, i, j - 1, q, p);
      SndAtStep(s, es, pktLen, j - 1);
      StepRetains(SndAt(s, es, pktLen, j - 1), es[j - 1], pktLen, q, p);
    }
  }

  // ---------------------------------------------------------------- key flags

  /** No block from the cursor on carries key flags. */
  ghost predicate Unstamped(s: Snd) {
    forall b :: s.cur <= b < |s.bs| ==> s.bs[b].head.keySpec == 0
  }

  /** A `Send` stamps the blocks it passes with the key flags given, and changes nothing else. */
  lemma SendStamps(s: Snd, kflgs: int, now: int, pktLen: nat, b: nat)
    requires s.cur <= |s.bs| && -1 <= kflgs <= 3 && pktLen > 0 && Unstamped(s) && b < |s.bs|
    ensures var t := SndStep(s, Send(kflgs, now), pktLen);
      && |t.bs| == |s.bs|
      && (s.cur <= b < t.cur && kflgs != -1 ==> t.bs[b] == s.bs[b].(head := s.bs[b].head.(keySpec := kflgs as bv2)))
      && (!(s.cur <= b < t.cur && kflgs != -1) ==> t.bs[b] == s.bs[b])
  {
  }

  /** A resend notes the time in the block it resends, and changes nothing else. */
  lemma ResendStamps(s: Snd, i: nat, now: int, pktLen: nat, b: nat)
    requires s.cur <= |s.bs| && pktLen > 0 && b < |s.bs|
    ensures var t := SndStep(s, Resend(i, now), pktLen);
      && |t.bs| == |s.bs|
      && t.bs[b] == if b == i && Emits(s, Resend(i, now)).Some? then s.bs[b].(head := s.bs[b].head.(rexmit := now)) else s.bs[b]
  {
  }

  lemma StepUnstamped(s: Snd, e: SndEvent, pktLen: nat)
    requires s.cur <= |s.bs| && SndLegal(s, e) && pktLen > 0 && Unstamped(s)
    ensures Unstamped(SndStep(s, e, pktLen))
  {
    hide Message, NumPackets, LateRun, MsgRun, NextLive, Expired;
    match e
    case Submit(data, _, _, _) => MessageUnstamped(data, pktLen, CtlOf(s, e));
    case Ack(k) =>
    case Late(time) =>
    case Send(kflgs, now) =>
    case Resend(i, now) =>
  }

  lemma MessageUnstamped(data: Bytes, pktLen: nat, ctl: MsgCtl)
    requires pktLen > 0
    ensures forall i :: 0 <= i < |Message(data, pktLen, ctl)| ==> Message(data, pktLen, ctl)[i].head.keySpec == 0
  {
    hide NumPackets, Segments;
    forall i | 0 <= i < |Message(data, pktLen, ctl)|
      ensures Message(data, pktLen, ctl)[i].head.keySpec == 0
    {
      SegmentAt(data, pktLen, NumPackets(|data|, pktLen), ctl, i);
    }
  }

  /** Over every run from an empty buffer no block is stamped before it is sent. */
  lemma {:induction false} RunUnstamped(s: Snd, es: seq<SndEvent>, pktLen: nat, i: nat)
    requires pktLen > 0 && s.cur <= |s.bs| && SndRun(s, es, pktLen) && i <= |es| && Unstamped(s)
    ensures Unstamped(SndAt(s, es, pktLen, i))
    decreases i
  {
    hide Unstamped, SndStep, SndLegal;
    if i > 0 {
      StepUnstamped(s, es[0], pktLen);
      RunUnstamped(SndStep(s, es[0], pktLen), es[1..], pktLen, i - 1);
    }
  }

  // ---------------------------------------------------------------- message numbers

  /** The number of the `k`-th message after one numbered `n`: one more each time, from 1 again after the maximum. */
  function NumberAfter(n: nat, k: nat): nat
    requires n > 0
  {
    (n - 1 + k) % MSGNO_MAX + 1
  }

  ghost predicate Numbered(m: seq<Packet>, n: nat) {
    forall j :: 0 <= j < |m| ==> m[j].msgno == n
  }

  lemma {:induction false} SubmittedNumbers(s: Snd, es: seq<SndEvent>, pktLen: nat, k: nat)
    requires pktLen > 0 && s.cur <= |s.bs| && SndRun(s, es, pktLen) && 1 <= s.nextMsgNo <= MSGNO_MAX && k < |Submitted(s, es, pktLen)|
    ensures Numbered(Submitted(s, es, pktLen)[k], NumberAfter(s.nextMsgNo, k))
    decreases |es|
  {
    hide MessagePackets, Numbered, NumPackets, Message, AfterSend, SendEnd, AfterResend, ResendCursor, LateRun;
    var t := SndStep(s, es[0], pktLen);
    if es[0].Submit? {
      if k == 0 {
        MessageNumbered(es[0].data, pktLen, CtlOf(s, es[0]));
      } else {
        SubmittedNumbers(t, es[1..], pktLen, k - 1);
      }
    } else {
      SubmittedNumbers(t, es[1..], pktLen, k);
    }
  }

  lemma MessageNumbered(data: Bytes, pktLen: nat, ctl: MsgCtl)
    requires pktLen > 0
    ensures Numbered(MessagePackets(data, pktLen, ctl), ctl.msgno)
  {
    hide NumPackets, MessagePackets;
    forall j | 0 <= j < |MessagePackets(data, pktLen, ctl)|
      ensures MessagePackets(data, pktLen, ctl)[j].msgno == ctl.msgno
    {
      PacketCount(data, pktLen, ctl);
      MessagePacketAt(data, pktLen, ctl, j);
    }
  }

  lemma PacketCount(data: Bytes, pktLen: nat, ctl: MsgCtl)
    requires pktLen > 0
    ensures |MessagePackets(data, pktLen, ctl)| == NumPackets(|data|, pktLen)
  {
    hide NumPackets, Segments;
  }

  /** Over every run from an empty buffer, message `k` carries number `k % MSGNO_MAX + 1`. */
  lemma MessageNumbers(isn: int, es: seq<SndEvent>, pktLen: nat, k: nat)
    requires pktLen > 0 && SndRun(Snd([], 0, 1, isn), es, pktLen) && k < |Submitted(Snd([], 0, 1, isn), es, pktLen)|
    ensures Numbered(Submitted(Snd([], 0, 1, isn), es, pktLen)[k], k % MSGNO_MAX + 1)
  {
    hide Numbered, SndRun, Submitted;
    SubmittedNumbers(Snd([], 0, 1, isn), es, pktLen, k);
  }

  /** So any `MSGNO_MAX` consecutive messages have different numbers. */
  lemma NumbersDiffer(k: nat, k': nat)
    requires k < k' < k + MSGNO_MAX
    ensures k % MSGNO_MAX + 1 != k' % MSGNO_MAX + 1
  {
  }
}

/** Sender buffer, network and receiver buffer together. */
module EndToEnd {
  import opened Packets
  import opened SeqNo
  import opened ReceiverSpec
  import opened ReceiverRuns
  import opened ReceiverCursor
  import opened ReceiverOutOfOrder
  import opened ReceiverDropMessage
  import opened ReceiverDelivery
  import opened ReceiverExact
  import opened SenderSpec
  import opened SenderRuns
  import opened SenderExact
  import opened Streams

  /**
    After any run of the sender from an empty buffer, a packet it puts on the wire is one the
    receiver theorems allow: the packet the stream has under the number it carries.
   */
  lemma WireEventIsLegal(isn: int, pktLen: nat, sends: seq<SndEvent>, e: SndEvent)
    requires pktLen > 0 && SndRun(Snd([], 0, 1, isn), sends, pktLen)
    requires var s := SndFinal(Snd([], 0, 1, isn), sends, pktLen); SndLegal(s, e) && Emits(s, e).Some?
    ensures var s0 := Snd([], 0, 1, isn); var p := Emits(SndFinal(s0, sends, pktLen), e).value;
      exists q :: p.seqno == Wrap(q) && OnStream(Arrive(q, p), StreamOf(isn, Submitted(s0, sends, pktLen)))
  {
    hide Holding, SndRun, Emits, SndFinal, Submitted, Flatten;
    var s0 := Snd([], 0, 1, isn);
    var s, ms := SndFinal(s0, sends, pktLen), Submitted(s0, sends, pktLen);
    RunFromEmpty(isn, sends, pktLen);
    EmittedIsOnStream(s, isn, ms, e);
    var p := Emits(s, e).value;
    var q :| isn <= q < isn + |Flatten(ms)| && p == Flatten(ms)[q - isn] && p.seqno == Wrap(q);
    assert OnStream(Arrive(q, p), StreamOf(isn, ms));
  }

  /**
    For any run of the sender with messages to be delivered in order, and any run of the receiver
    on the packets of that stream (arbitrary order, duplicates, omissions, interleaved reads), the
    messages read are the first messages submitted, each byte for byte.
   */
  lemma Fidelity(isn: int, pktLen: nat, sends: seq<SndEvent>, size: nat, es: seq<Event>)
    requires pktLen > 0 && size > 0 && SndRun(Snd([], 0, 1, isn), sends, pktLen)
    requires forall i :: 0 <= i < |sends| && sends[i].Submit? ==> sends[i].inOrder
    requires Good(Initial(isn, size, true)) && LegalRun(Initial(isn, size, true), es)
    requires var ms := Submitted(Snd([], 0, 1, isn), sends, pktLen);
      forall i :: 0 <= i < |es| ==> InOrderEvent(es[i], isn, ms)
    ensures var d := Log(Initial(isn, size, true), es);
      |d| <= |Datas(sends)| && forall k :: 0 <= k < |d| ==> Payloads(d[k]) == Datas(sends)[k]
  {
    hide InOrderEvent, LegalRun, Good, SndRun;
    var s0 := Snd([], 0, 1, isn);
    var ms := Submitted(s0, sends, pktLen);
    SubmittedInOrder(s0, sends, pktLen);
    SubmittedBytes(s0, sends, pktLen);
    ReadsArePrefix(isn, ms, size, es);
    var d := Log(Initial(isn, size, true), es);
    assert forall k :: 0 <= k < |d| ==> d[k] == ms[k];
  }

  /** And as soon as every packet of the next message is stored, the next read returns exactly that message. */
  lemma Progress(isn: int, pktLen: nat, sends: seq<SndEvent>, size: nat, es: seq<Event>)
    requires pktLen > 0 && size > 0 && SndRun(Snd([], 0, 1, isn), sends, pktLen)
    requires forall i :: 0 <= i < |sends| && sends[i].Submit? ==> sends[i].inOrder
    requires Good(Initial(isn, size, true)) && LegalRun(Initial(isn, size, true), es)
    requires var ms := Submitted(Snd([], 0, 1, isn), sends, pktLen);
      forall i :: 0 <= i < |es| ==> InOrderEvent(es[i], isn, ms)
    requires var s0 := Initial(isn, size, true); var ms := Submitted(Snd([], 0, 1, isn), sends, pktLen);
      var k := |Log(s0, es)|; k < |ms| && FilledFor(At(s0, es, |es|).slots, |ms[k]|)
    ensures var s0 := Initial(isn, size, true); var s := At(s0, es, |es|); var k := |Log(s0, es)|;
      ReadFrom(s) == 0 && k < |Datas(sends)| && Payloads(ReadPackets(s)) == Datas(sends)[k]
  {
    hide InOrderEvent, LegalRun, Inv, SndRun, Settled;
    var s0 := Snd([], 0, 1, isn);
    var ms := Submitted(s0, sends, pktLen);
    SubmittedInOrder(s0, sends, pktLen);
    SubmittedBytes(s0, sends, pktLen);
    CompleteIsReadable(isn, ms, size, es);
  }

  /**
    In terms of what arrived: when each packet of the next message arrived at some point of the
    run, in whatever order and however often, while the buffer had a slot for it, the next read
    returns exactly that message.
   */
  lemma ArrivedIsRead(isn: int, pktLen: nat, sends: seq<SndEvent>, size: nat, es: seq<Event>)
    requires pktLen > 0 && size > 0 && SndRun(Snd([], 0, 1, isn), sends, pktLen)
    requires forall i :: 0 <= i < |sends| && sends[i].Submit? ==> sends[i].inOrder
    requires Good(Initial(isn, size, true)) && LegalRun(Initial(isn, size, true), es)
    requires var ms := Submitted(Snd([], 0, 1, isn), sends, pktLen);
      forall i :: 0 <= i < |es| ==> InOrderEvent(es[i], isn, ms)
    requires var s0 := Initial(isn, size, true); var ms := Submitted(Snd([], 0, 1, isn), sends, pktLen);
      var k := |Log(s0, es)|;
      k < |ms| && forall q :: 0 <= q - isn - Start(ms, k) < |ms[k]| ==> Arrived(s0, es, |es|, q)
    ensures var s0 := Initial(isn, size, true); var s := At(s0, es, |es|); var k := |Log(s0, es)|;
      ReadFrom(s) == 0 && k < |Datas(sends)| && Payloads(ReadPackets(s)) == Datas(sends)[k]
  {
    hide InOrderEvent, LegalRun, Good, SndRun, Arrived, AllInOrder, At, Log, Start, Submitted;
    var s0 := Initial(isn, size, true);
    var ms := Submitted(Snd([], 0, 1, isn), sends, pktLen);
    SubmittedInOrder(Snd([], 0, 1, isn), sends, pktLen);
    InitialDelivering(isn, ms, size);
    LogIsSlice(s0, isn, ms, 0, es);
    ArrivedIsStored(s0, isn, ms, |Log(s0, es)|, es);
    Progress(isn, pktLen, sends, size, es);
  }

  lemma ArrivedIsStored(s: State, isn: int, ms: seq<seq<Packet>>, k: nat, es: seq<Event>)
    requires Good(s) && LegalRun(s, es) && k < |ms|
    requires forall q :: 0 <= q - isn - Start(ms, k) < |ms[k]| ==> Arrived(s, es, |es|, q)
    requires Delivering(At(s, es, |es|), isn, ms, k)
    ensures FilledFor(At(s, es, |es|).slots, |ms[k]|)
  {
    hide LegalRun, Good, At, Arrived, Delivering, Start;
    var t, n := At(s, es, |es|), |ms[k]|;
    forall j | 0 <= j < n
      ensures j < |t.slots| && t.slots[j].unit.Some?
    {
      OneStored(s, isn, ms, k, es, j);
    }
    assert n > 0 ==> n - 1 < |t.slots| && t.slots[n - 1].unit.Some?;
  }

  lemma OneStored(s: State, isn: int, ms: seq<seq<Packet>>, k: nat, es: seq<Event>, j: nat)
    requires Good(s) && LegalRun(s, es) && k < |ms| && Arrived(s, es, |es|, isn + Start(ms, k) + j)
    requires Delivering(At(s, es, |es|), isn, ms, k)
    ensures j < |At(s, es, |es|).slots| && At(s, es, |es|).slots[j].unit.Some?
  {
    hide LegalRun, Good, At, Start, Faithful, ScanEnd, Arrived;
    var q := isn + Start(ms, k) + j;
    ArrivedStays(s, es, |es|, q);
  }

  lemma SubmittedWellFormed(isn: int, pktLen: nat, sends: seq<SndEvent>)
    requires pktLen > 0 && SndRun(Snd([], 0, 1, isn), sends, pktLen)
    ensures WellFormed(StreamOf(isn, Submitted(Snd([], 0, 1, isn), sends, pktLen)))
  {
    hide SndRun, SndFinal, Submitted, WellFormed, Flatten;
    RunFromEmpty(isn, sends, pktLen);
  }

  /** The next read returns the message, of those submitted as `ms`, that its first packet belongs to. */
  ghost predicate ReadsOneOf(s: State, isn: int, ms: seq<seq<Packet>>, datas: seq<Bytes>) {
    var x := s.base + ReadFrom(s) - isn;
    && Inv(s) && 0 <= x < |Flatten(ms)| && Which(ms, x) < |datas|
    && Payloads(ReadPackets(s)) == datas[Which(ms, x)]
  }

  /**
    Messages of both kinds, in any mixture, with drops at the receiver that cut no message in
    two: every read of every run returns, byte for byte, one of the messages submitted.
   */
  lemma EveryReadIsSubmitted(isn: int, pktLen: nat, sends: seq<SndEvent>, size: nat, es: seq<Event>, i: nat)
    requires pktLen > 0 && size > 0 && SndRun(Snd([], 0, 1, isn), sends, pktLen)
    requires Good(Initial(isn, size, true)) && LegalRun(Initial(isn, size, true), es) && i <= |es|
    requires var st := StreamOf(isn, Submitted(Snd([], 0, 1, isn), sends, pktLen));
      forall j :: 0 <= j < |es| ==> OnStream(es[j], st) && StartsMessage(es[j], st)
    requires ReadFrom(At(Initial(isn, size, true), es, i)) >= 0
    ensures var ms := Submitted(Snd([], 0, 1, isn), sends, pktLen);
      ReadsOneOf(At(Initial(isn, size, true), es, i), isn, ms, Datas(sends))
  {
    hide LegalRun, Inv, SndRun, OnStream, WellFormed, Submitted, Datas, Flatten, Payloads, ReadPackets, At, StartsMessage;
    var s0 := Snd([], 0, 1, isn);
    SubmittedFramed(s0, sends, pktLen);
    SubmittedBytes(s0, sends, pktLen);
    SubmittedWellFormed(isn, pktLen, sends);
    EveryReadIsMessage(isn, Submitted(s0, sends, pktLen), size, es, i);
  }

  /** And no two reads of a run return the same one. */
  lemma NoneReadTwice(isn: int, pktLen: nat, sends: seq<SndEvent>, size: nat, es: seq<Event>, i: nat, j: nat)
    requires pktLen > 0 && size > 0 && SndRun(Snd([], 0, 1, isn), sends, pktLen)
    requires Good(Initial(isn, size, true)) && LegalRun(Initial(isn, size, true), es) && i < j < |es|
    requires var st := StreamOf(isn, Submitted(Snd([], 0, 1, isn), sends, pktLen));
      forall j :: 0 <= j < |es| ==> OnStream(es[j], st) && StartsMessage(es[j], st)
    requires es[i].ReadOne? && es[j].ReadOne?
    requires ReadFrom(At(Initial(isn, size, true), es, i)) >= 0 && ReadFrom(At(Initial(isn, size, true), es, j)) >= 0
    ensures var s, t := At(Initial(isn, size, true), es, i), At(Initial(isn, size, true), es, j);
      var ms := Submitted(Snd([], 0, 1, isn), sends, pktLen);
      var x, y := s.base + ReadFrom(s) - isn, t.base + ReadFrom(t) - isn;
      0 <= x < |Flatten(ms)| && 0 <= y < |Flatten(ms)| && Which(ms, x) != Which(ms, y)
  {
    hide LegalRun, Good, SndRun, OnStream, WellFormed, Submitted, Flatten, At, StartsMessage;
    var s0 := Snd([], 0, 1, isn);
    SubmittedFramed(s0, sends, pktLen);
    SubmittedWellFormed(isn, pktLen, sends);
    NoMessageTwice(isn, Submitted(s0, sends, pktLen), size, es, i, j);
  }

  // ---------------------------------------------------------------- expired messages

  /** The packets of one message of the stream carry one number. */
  lemma {:induction false} OneNumber(st: Stream, a: nat, b: nat)
    requires WellFormed(st) && a <= b < |st.pk| && forall i :: a <= i < b ==> !st.pk[i].last
    ensures st.pk[a].msgno == st.pk[b].msgno
    decreases b - a
  {
    if a < b {
      OneNumber(st, a, b - 1);
      assert Follows(st.pk[b - 1], st.pk[b]);
    }
  }

  /** Message `k` of the stream, from its first to its last packet. */
  lemma MessageIsAt(isn: int, ms: seq<seq<Packet>>, k: nat)
    requires AllFramed(ms) && WellFormed(StreamOf(isn, ms)) && k < |ms|
    ensures Start(ms, k) + |ms[k]| <= |Flatten(ms)| && |ms[k]| > 0
    ensures MessageAt(StreamOf(isn, ms), Flatten(ms)[Start(ms, k)].msgno, isn + Start(ms, k), isn + Start(ms, k) + |ms[k]| - 1)
    ensures forall i :: Start(ms, k) <= i < Start(ms, k) + |ms[k]| ==> (Flatten(ms)[i].last <==> i == Start(ms, k) + |ms[k]| - 1)
  {
    hide Flatten, Start, WellFormed;
    var m, x, pk := ms[k], Start(ms, k), Flatten(ms);
    FlattenSlice(ms, k);
    assert Framed(m);
    assert forall i :: x <= i < x + |m| ==> pk[i] == pk[x..x + |m|][i - x] == m[i - x];
    forall i | x <= i < x + |m|
      ensures pk[i].msgno == pk[x].msgno
    {
      OneNumber(StreamOf(isn, ms), x, i);
    }
  }

  /** With no empty message between them, messages are at least as far apart as their positions. */
  lemma {:induction false} StartGap(ms: seq<seq<Packet>>, a: nat, b: nat)
    requires AllFramed(ms) && a <= b <= |ms|
    ensures Start(ms, b) - Start(ms, a) >= b - a
    decreases b
  {
    hide Start;
    if a < b {
      StartGap(ms, a, b - 1);
      StartNext(ms, b - 1);
      assert Framed(ms[b - 1]);
    }
  }

  /** Packet `x` of the stream carries the number of the message it belongs to. */
  lemma NumberAt(isn: int, pktLen: nat, sends: seq<SndEvent>, x: nat)
    requires pktLen > 0 && SndRun(Snd([], 0, 1, isn), sends, pktLen)
    requires var ms := Submitted(Snd([], 0, 1, isn), sends, pktLen); x < |Flatten(ms)|
    ensures var ms := Submitted(Snd([], 0, 1, isn), sends, pktLen);
      Flatten(ms)[x].msgno == Which(ms, x) % MSGNO_MAX + 1
  {
    hide SndRun, Submitted, Flatten, Start, Which;
    var ms := Submitted(Snd([], 0, 1, isn), sends, pktLen);
    var k := Which(ms, x);
    WhichIs(ms, x);
    FlattenAt(ms, k, x - Start(ms, k));
    MessageNumbers(isn, sends, pktLen, k);
  }

  /** Packets of different messages that are less than the range of numbers apart carry different numbers. */
  lemma NearbyDiffer(isn: int, pktLen: nat, sends: seq<SndEvent>, x: nat, y: nat)
    requires pktLen > 0 && SndRun(Snd([], 0, 1, isn), sends, pktLen)
    requires var ms := Submitted(Snd([], 0, 1, isn), sends, pktLen);
      x < y < |Flatten(ms)| && Which(ms, x) != Which(ms, y)
    requires y - x < MSGNO_MAX
    ensures var ms := Submitted(Snd([], 0, 1, isn), sends, pktLen);
      Flatten(ms)[x].msgno != Flatten(ms)[y].msgno
  {
    hide SndRun, Submitted, Flatten, Start, Which, AllFramed;
    var ms := Submitted(Snd([], 0, 1, isn), sends, pktLen);
    var k, k' := Which(ms, x), Which(ms, y);
    SubmittedFramed(Snd([], 0, 1, isn), sends, pktLen);
    WhichIs(ms, x);
    WhichIs(ms, y);
    StartNext(ms, k);
    StartNext(ms, k');
    if k' < k {
      StartGap(ms, k' + 1, k);
      assert false;
    }
    StartGap(ms, k + 1, k');
    NumberAt(isn, pktLen, sends, x);
    NumberAt(isn, pktLen, sends, y);
    NumbersDiffer(k, k');
  }

  /** A window no longer than the range of message numbers holds no two messages of one number. */
  lemma NumberIsUnique(isn: int, pktLen: nat, sends: seq<SndEvent>, rx: State, k: nat)
    requires pktLen > 0 && SndRun(Snd([], 0, 1, isn), sends, pktLen) && |rx.slots| <= MSGNO_MAX
    requires var ms := Submitted(Snd([], 0, 1, isn), sends, pktLen);
      && k < |ms| && Start(ms, k) + |ms[k]| <= |Flatten(ms)| && |ms[k]| > 0
      && rx.base <= isn + Start(ms, k) + |ms[k]| - 1 < rx.base + |rx.slots|
    ensures var ms := Submitted(Snd([], 0, 1, isn), sends, pktLen); var l := Start(ms, k) + |ms[k]| - 1;
      UniqueInWindow(rx, StreamOf(isn, ms), Flatten(ms)[l].msgno, isn + Start(ms, k), isn + l)
  {
    hide SndRun, Submitted, Flatten, Start, Which;
    var ms := Submitted(Snd([], 0, 1, isn), sends, pktLen);
    var f, l, pk := Start(ms, k), Start(ms, k) + |ms[k]| - 1, Flatten(ms);
    WhichIs(ms, l);
    WhichUnique(ms, l, k);
    forall x | 0 <= x < |pk| && rx.base <= isn + x < rx.base + |rx.slots| && !(f <= x <= l)
      ensures pk[x].msgno != pk[l].msgno
    {
      WhichIs(ms, x);
      if x < l {
        NearbyDiffer(isn, pktLen, sends, x, l);
      } else {
        NearbyDiffer(isn, pktLen, sends, l, x);
      }
    }
  }

  /** A packet lies in one message only. */
  lemma {:induction false} WhichUnique<T>(ss: seq<seq<T>>, x: nat, k: nat)
    requires k < |ss| && Start(ss, k) <= x < Start(ss, k) + |ss[k]| && x < |Flatten(ss)|
    ensures Which(ss, x) == k
    decreases k
  {
    if k > 0 {
      WhichUnique(ss[1..], x - |ss[0]|, k - 1);
    }
  }

  /**
    A block whose time to live ran out, after any run of the sender from an empty buffer: the
    reported range ends at the number of the last block of its message, and the request, carried
    out by a receiver whose buffer is no longer than the range of message numbers, removes exactly
    that message and refuses what still arrives of the range. (A message of one packet that is
    there already stays if the request says so.)
   */
  lemma ExpiredIsDropped(isn: int, pktLen: nat, sends: seq<SndEvent>, i: nat, now: int, rx: State, keep: bool, r: int)
    requires pktLen > 0 && SndRun(Snd([], 0, 1, isn), sends, pktLen)
    requires var s := SndFinal(Snd([], 0, 1, isn), sends, pktLen); i < |s.bs| <= MAX_SEQNO && Expired(s.bs[i].head, now)
    requires Good(rx) && Faithful(rx, StreamOf(isn, Submitted(Snd([], 0, 1, isn), sends, pktLen))) && |rx.slots| <= MSGNO_MAX
    requires var s := SndFinal(Snd([], 0, 1, isn), sends, pktLen);
      var l := s.nextSeq - |s.bs| + MsgRun(s.bs, i + 1, s.bs[i].head.msgno) - 1;
      rx.base <= l < rx.base + |rx.slots| - 1
    ensures var s, ms := SndFinal(Snd([], 0, 1, isn), sends, pktLen), Submitted(Snd([], 0, 1, isn), sends, pktLen);
      var q := s.nextSeq - |s.bs| + i; var end := MsgRun(s.bs, i + 1, s.bs[i].head.msgno);
      && 0 <= q - isn < |Flatten(ms)|
      && IncSeqBy(s.bs[i].head.seqno, end - i - 1) == s.bs[end - 1].head.seqno == Wrap(q + (end - i - 1))
      && DropsMessage(rx, isn, ms, Which(ms, q - isn), q, q + (end - i - 1), s.bs[i].head.msgno, keep, r)
  {
    hide SndRun, SndFinal, Submitted, MsgRun, Flatten, Start, Which, Good, Faithful, Wrap, Expired, Holding, DropsMessage, Framed;
    var s, ms := SndFinal(Snd([], 0, 1, isn), sends, pktLen), Submitted(Snd([], 0, 1, isn), sends, pktLen);
    RunFromEmpty(isn, sends, pktLen);
    var q, msgno := s.nextSeq - |s.bs| + i, s.bs[i].head.msgno;
    var end := MsgRun(s.bs, i + 1, msgno);
    ResendByOffset(s, isn, ms, i, now);
    StoredOnStream(s, isn, ms, i);
    IncSeqWraps(q, end - i - 1);
    SubmittedFramed(Snd([], 0, 1, isn), sends, pktLen);
    SubmittedWellFormed(isn, pktLen, sends);
    WhichIs(ms, q - isn);
    EndOfMessage(s, isn, ms, i, end, Which(ms, q - isn));
    NumberAt(isn, pktLen, sends, q - isn);
    RequestDrops(isn, pktLen, sends, Which(ms, q - isn), q, rx, keep, r);
  }

  /** The request for `lo..l` removes exactly message `k`, which ends at `l`, and refuses what still arrives of the range. */
  ghost predicate DropsMessage(rx: State, isn: int, ms: seq<seq<Packet>>, k: nat, lo: int, l: int, msgno: int, keep: bool, r: int)
    requires k < |ms|
  {
    var f := isn + Start(ms, k);
    && Good(rx) && Legal(rx, DropMsg(lo, l, msgno, keep)) && f <= lo <= l == f + |ms[k]| - 1
    && var t := DropMessage(rx, lo, l, msgno, keep).0;
       if KeptSolo(rx, f, keep) then t.slots == rx.slots && t.base == rx.base
       else
         && (Stored(t, r) <==> Stored(rx, r) && !(f <= r <= l))
         && (Stored(t, r) ==> t.slots[r - t.base] == rx.slots[r - rx.base])
         && (lo <= r <= l ==> Consumed(t, r))
  }

  lemma RequestDrops(isn: int, pktLen: nat, sends: seq<SndEvent>, k: nat, lo: int, rx: State, keep: bool, r: int)
    requires pktLen > 0 && SndRun(Snd([], 0, 1, isn), sends, pktLen)
    requires var ms := Submitted(Snd([], 0, 1, isn), sends, pktLen);
      && Good(rx) && Faithful(rx, StreamOf(isn, ms)) && |rx.slots| <= MSGNO_MAX
      && k < |ms| && isn + Start(ms, k) <= lo < isn + Start(ms, k) + |ms[k]|
      && rx.base < isn + Start(ms, k) + |ms[k]| < rx.base + |rx.slots|
    ensures var ms := Submitted(Snd([], 0, 1, isn), sends, pktLen);
      DropsMessage(rx, isn, ms, k, lo, isn + Start(ms, k) + |ms[k]| - 1, k % MSGNO_MAX + 1, keep, r)
  {
    hide SndRun, Submitted, Flatten, Start, Which, DropMessage, UniqueInWindow, MessageAt, SlotsOk, CursorOk, WellFormed, Faithful, Stored, Consumed, KeptSolo, Framed;
    var ms := Submitted(Snd([], 0, 1, isn), sends, pktLen);
    var f, l := Start(ms, k), Start(ms, k) + |ms[k]| - 1;
    SubmittedFramed(Snd([], 0, 1, isn), sends, pktLen);
    SubmittedWellFormed(isn, pktLen, sends);
    MessageIsAt(isn, ms, k);
    NumberIsUnique(isn, pktLen, sends, rx, k);
    NumberAt(isn, pktLen, sends, f);
    NumberAt(isn, pktLen, sends, l);
    WhichUnique(ms, f, k);
    WhichUnique(ms, l, k);
    DropWholeMessage(rx, StreamOf(isn, ms), lo, k % MSGNO_MAX + 1, isn + f, isn + l, keep, r);
  }

  /** The run of blocks behind an expired one ends where its message ends. */
  lemma EndOfMessage(s: Snd, isn: int, ms: seq<seq<Packet>>, i: nat, end: nat, k: nat)
    requires Holding(s, isn, ms) && AllFramed(ms) && i < end <= |s.bs| && k < |ms|
    requires s.bs[end - 1].head.last && forall j :: i <= j < end - 1 ==> !s.bs[j].head.last
    requires var x := s.nextSeq - |s.bs| + i - isn; Start(ms, k) <= x < Start(ms, k) + |ms[k]|
    ensures var x := s.nextSeq - |s.bs| + i - isn;
      && x + (end - i - 1) == Start(ms, k) + |ms[k]| - 1
      && 0 <= Start(ms, k) < |Flatten(ms)| && s.bs[i].head.msgno == Flatten(ms)[Start(ms, k)].msgno
  {
    hide Flatten, Start, WellFormed;
    var pk := Flatten(ms);
    var x, y := |pk| - |s.bs| + i, Start(ms, k);
    MessageIsAt(isn, ms, k);
    var n := y + |ms[k]| - 1;
    assert forall j :: 0 <= j < |s.bs| ==> ToPacket(s.bs[j]) == pk[|pk| - |s.bs| + j];
    // up to the end of the message no block is a last one, and the first last one is `end - 1`
    assert pk[n].last;
    var e := |pk| - |s.bs| + (end - 1);
    var c := if e < n then e else n;
    assert pk[c].last <==> c == n;
    assert c < e ==> !s.bs[c - (|pk| - |s.bs|)].head.last;
    OneNumber(StreamOf(isn, ms), y, x);
  }
}

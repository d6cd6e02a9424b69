/** In-order delivery: what the application reads is what the stream carries, from its beginning on. */
module ReceiverDelivery {
  import opened Packets
  import opened SeqNo
  import opened ReceiverSpec
  import opened ReceiverInvariant
  import opened ReceiverRuns
  import opened ReceiverCursor
  import opened ReceiverOutOfOrder
  import opened Streams

  // ---------------------------------------------------------------- messages of a stream

  function Flatten<T>(ss: seq<seq<T>>): seq<T> {
    if ss == [] then [] else ss[0] + Flatten(ss[1..])
  }

  /** How many packets come before message `k`. */
  function Start<T>(ss: seq<seq<T>>, k: nat): nat
    requires k <= |ss|
    decreases k
  {
    if k == 0 then 0 else |ss[0]| + Start(ss[1..], k - 1)
  }

  lemma {:induction false} FlattenAt<T>(ss: seq<seq<T>>, k: nat, j: nat)
    requires k < |ss| && j < |ss[k]|
    ensures Start(ss, k) + j < |Flatten(ss)| && Flatten(ss)[Start(ss, k) + j] == ss[k][j]
    decreases k
  {
    if k > 0 {
      FlattenAt(ss[1..], k - 1, j);
    }
  }

  lemma {:induction false} FlattenSlice<T>(ss: seq<seq<T>>, k: nat)
    requires k < |ss|
    ensures Start(ss, k) + |ss[k]| <= |Flatten(ss)| && Flatten(ss)[Start(ss, k)..Start(ss, k) + |ss[k]|] == ss[k]
    decreases k
  {
    if k > 0 {
      FlattenSlice(ss[1..], k - 1);
    }
  }

  lemma {:induction false} StartNext<T>(ss: seq<seq<T>>, k: nat)
    requires k < |ss|
    ensures Start(ss, k + 1) == Start(ss, k) + |ss[k]|
    decreases k
  {
    if k > 0 {
      StartNext(ss[1..], k - 1);
    }
  }

  lemma {:induction false} StartEnd<T>(ss: seq<seq<T>>)
    ensures Start(ss, |ss|) == |Flatten(ss)|
    decreases |ss|
  {
    if ss != [] {
      StartEnd(ss[1..]);
    }
  }

  /** The packets of one message, to be delivered in order. */
  predicate IsMessage(m: seq<Packet>) {
    m != [] && forall j :: 0 <= j < |m| ==>
      m[j].inOrder && (m[j].first <==> j == 0) && (m[j].last <==> j == |m| - 1)
  }

  function StreamOf(isn: int, ms: seq<seq<Packet>>): Stream {
    Stream(isn, Flatten(ms))
  }

  // ---------------------------------------------------------------- message mode

  ghost predicate NoFillers(slots: seq<Entry>) {
    forall k :: 0 <= k < |slots| ==> !Filler(slots[k])
  }

  /** Messages before `k` are delivered; the buffer starts at message `k` and its cursor is exact. */
  ghost predicate Delivering(s: State, isn: int, ms: seq<seq<Packet>>, k: nat) {
    && Good(s) && s.messageApi && s.ooo == -1 && NoFillers(s.slots)
    && Faithful(s, StreamOf(isn, ms))
    && k <= |ms| && s.base == isn + Start(ms, k)
    && s.cursor == ScanEnd(s.slots, true, 0)
  }

  predicate InOrderEvent(e: Event, isn: int, ms: seq<seq<Packet>>) {
    e.ReadOne? || (e.Arrive? && 0 <= e.q - isn < |Flatten(ms)| && e.p == Flatten(ms)[e.q - isn])
  }

  lemma {:induction false} OrderedScan(slots: seq<Entry>, i: nat, pf: int, mn: int)
    requires i <= |slots| && -1 <= pf < |slots|
    requires forall k :: 0 <= k < |slots| && slots[k].unit.Some? ==> slots[k].unit.value.inOrder
    ensures ScanOoo(slots, i, pf, mn) == -1
    decreases |slots| - i
  {
    if i < |slots| {
      OrderedScan(slots, i + 1, -1, -1);
    }
  }

  ghost predicate AllInOrder(ms: seq<seq<Packet>>) {
    forall i :: 0 <= i < |ms| ==> IsMessage(ms[i])
  }

  lemma {:induction false} FlattenOrdered(ms: seq<seq<Packet>>)
    requires AllInOrder(ms)
    ensures forall i :: 0 <= i < |Flatten(ms)| ==> Flatten(ms)[i].inOrder
    decreases |ms|
  {
    if ms != [] {
      assert IsMessage(ms[0]);
      assert AllInOrder(ms[1..]);
      FlattenOrdered(ms[1..]);
    }
  }

  lemma ArriveDelivering(s: State, isn: int, ms: seq<seq<Packet>>, k: nat, q: int, p: Packet)
    requires Delivering(s, isn, ms, k) && AllInOrder(ms) && InOrderEvent(Arrive(q, p), isn, ms) && p.seqno == Wrap(q)
    ensures Delivering(Insert(s, q, p).0, isn, ms, k)
  {
    hide ScanEnd, SlotsOk, CursorOk, Faithful, Flatten, Start;
    InsertFaithful(s, StreamOf(isn, ms), q, p);
    InsertKeeps(s, q, p);
    FlattenOrdered(ms);
    ScanIsChain(s.slots, true, 0);
    InsertOnChain(s, q, p);
  }

  /** The first message in the buffer, when it is all there, is message `k`. */
  lemma NextIsMessage(s: State, isn: int, ms: seq<seq<Packet>>, k: nat)
    requires Delivering(s, isn, ms, k) && AllInOrder(ms) && s.cursor > 0
    ensures k < |ms| && ReadStop(s.slots, 0) == (|ms[k]|, true) && ReadPackets(s) == ms[k]
    ensures |ms[k]| <= s.cursor && Chain(s.slots, true, |ms[k]|, s.cursor)
  {
    hide ScanEnd, SlotsOk, Flatten, Start, Wrap;
    var st := StreamOf(isn, ms);
    ScanIsChain(s.slots, true, 0);
    FirstLink(s);
    var (stop, ended) := ReadStop(s.slots, 0);
    ReadStopMeaning(s.slots, 0);
    assert s.slots[0].unit.value == st.pk[Start(ms, k)];
    StartEnd(ms);
    assert k < |ms|;
    var m := ms[k];
    assert IsMessage(m);
    FlattenSlice(ms, k);
    SlotsAreMessage(s, st.pk, isn, 0, stop, m, Start(ms, k));
  }

  lemma ReadDelivering(s: State, isn: int, ms: seq<seq<Packet>>, k: nat)
    requires Delivering(s, isn, ms, k) && AllInOrder(ms)
    ensures s.cursor == 0 ==> ReadMessage(s) == s
    ensures s.cursor > 0 ==> k < |ms| && ReadPackets(s) == ms[k] && Delivering(ReadMessage(s), isn, ms, k + 1)
  {
    hide ScanEnd, SlotsOk, CursorOk, Faithful, Flatten, Start, Move, Seek, NoFillers;
    if s.cursor > 0 {
      NextIsMessage(s, isn, ms, k);
      StartNext(ms, k);
      ReadMessageKeeps(s);
      ReadNothingNew(s);
      NothingNewFaithful(s, ReadMessage(s), StreamOf(isn, ms));
      var n := |ms[k]|;
      MoveClean(s, n);
      FlattenOrdered(ms);
      StoredOrdered(ReadMessage(s), StreamOf(isn, ms));
      SeekNothing(Move(s, n, false));
      ScanAfterRead(s, n);
    }
  }

  /** Without fillers a move by `n` slots up to the cursor is a plain shift. */
  lemma MoveClean(s: State, n: nat)
    requires Good(s) && NoFillers(s.slots) && n <= s.cursor
    ensures Move(s, n, false) == Advance(s, n) && NoFillers(Advance(s, n).slots)
  {
    hide ScanEnd, SlotsOk, Back;
    FillerRunMeaning(Shift(s.slots, n), 0);
    assert FillerRun(Shift(s.slots, n), 0) == 0;
    AdvanceZero(Advance(s, n));
  }

  lemma StoredOrdered(s: State, st: Stream)
    requires Faithful(s, st) && forall i :: 0 <= i < |st.pk| ==> st.pk[i].inOrder
    ensures forall k :: 0 <= k < |s.slots| && s.slots[k].unit.Some? ==> s.slots[k].unit.value.inOrder
  {
  }

  lemma SeekNothing(s: State)
    requires s.ooo == -1 < |s.slots|
    requires forall k :: 0 <= k < |s.slots| && s.slots[k].unit.Some? ==> s.slots[k].unit.value.inOrder
    ensures Seek(s) == s
  {
    OrderedScan(s.slots, 0, -1, -1);
  }

  /** What the reads of a run returned, in order. */
  ghost function Log(s: State, es: seq<Event>): seq<seq<Packet>>
    requires Good(s) && LegalRun(s, es)
    decreases |es|
  {
    if es == [] then []
    else
      (if es[0].ReadOne? && ReadFrom(s) >= 0 then [ReadPackets(s)] else []) + Log(Step(s, es[0]), es[1..])
  }

  lemma LogNext(s: State, es: seq<Event>)
    requires Good(s) && LegalRun(s, es) && es != []
    ensures Legal(s, es[0]) && Good(Step(s, es[0])) && LegalRun(Step(s, es[0]), es[1..])
    ensures Log(s, es) == (if es[0].ReadOne? && ReadFrom(s) >= 0 then [ReadPackets(s)] else []) + Log(Step(s, es[0]), es[1..])
    ensures At(s, es, |es|) == At(Step(s, es[0]), es[1..], |es[1..]|)
  {
    hide Good, Step, Legal;
  }

  lemma {:induction false} LogIsSlice(s: State, isn: int, ms: seq<seq<Packet>>, k: nat, es: seq<Event>)
    requires Delivering(s, isn, ms, k) && AllInOrder(ms) && LegalRun(s, es)
    requires forall i :: 0 <= i < |es| ==> InOrderEvent(es[i], isn, ms)
    ensures var d := Log(s, es);
      && k + |d| <= |ms| && d == ms[k..k + |d|]
      && Delivering(At(s, es, |es|), isn, ms, k + |d|)
    decreases |es|
  {
    hide AllInOrder, InOrderEvent, Good, Faithful, NoFillers, ScanEnd, Start, Step, Legal, ReadFrom, ReadPackets;
    if es != [] {
      LogNext(s, es);
      hide Log, At, LegalRun;
      var e, t := es[0], Step(s, es[0]);
      var k' := k;
      StepDelivering(s, isn, ms, k, e);
      if e.ReadOne? && ReadFrom(s) >= 0 {
        k' := k + 1;
      }
      LogIsSlice(t, isn, ms, k', es[1..]);
      var d := Log(t, es[1..]);
      if k' == k + 1 {
        SliceJoins(ms, k, d);
      } else {
        assert [] + d == d;
      }
    }
  }

  lemma SliceJoins<T>(ms: seq<T>, k: nat, d: seq<T>)
    requires k + 1 + |d| <= |ms| && d == ms[k + 1..k + 1 + |d|]
    ensures [ms[k]] + d == ms[k..k + |[ms[k]] + d|]
  {
  }

  lemma StepDelivering(s: State, isn: int, ms: seq<seq<Packet>>, k: nat, e: Event)
    requires Delivering(s, isn, ms, k) && AllInOrder(ms) && Legal(s, e) && InOrderEvent(e, isn, ms)
    ensures if e.ReadOne? && ReadFrom(s) >= 0
            then k < |ms| && ReadPackets(s) == ms[k] && Delivering(Step(s, e), isn, ms, k + 1)
            else Delivering(Step(s, e), isn, ms, k)
  {
    hide Insert, ReadMessage, AllInOrder, Faithful, SlotsOk, CursorOk, Start, ScanEnd, NoFillers;
    match e
    case ReadOne => ReadDelivering(s, isn, ms, k);
    case Arrive(q, p) => ArriveDelivering(s, isn, ms, k, q, p);
  }

  lemma InitialDelivering(isn: int, ms: seq<seq<Packet>>, size: nat)
    requires size > 0
    ensures Delivering(Initial(isn, size, true), isn, ms, 0)
  {
  }

  /** Over every run the messages read are exactly the first ones sent, each in full and in order. */
  lemma ReadsArePrefix(isn: int, ms: seq<seq<Packet>>, size: nat, es: seq<Event>)
    requires size > 0 && AllInOrder(ms) && Good(Initial(isn, size, true)) && LegalRun(Initial(isn, size, true), es)
    requires forall i :: 0 <= i < |es| ==> InOrderEvent(es[i], isn, ms)
    ensures Log(Initial(isn, size, true), es) <= ms
  {
    InitialDelivering(isn, ms, size);
    LogIsSlice(Initial(isn, size, true), isn, ms, 0, es);
  }

  /** The first `n` slots all hold a packet. */
  predicate FilledFor(slots: seq<Entry>, n: nat) {
    n <= |slots| && forall j :: 0 <= j < n ==> slots[j].unit.Some?
  }

  /** At any point of a run: as soon as all packets of the next message are stored, a read returns it. */
  lemma CompleteIsReadable(isn: int, ms: seq<seq<Packet>>, size: nat, es: seq<Event>)
    requires size > 0 && AllInOrder(ms) && Good(Initial(isn, size, true)) && LegalRun(Initial(isn, size, true), es)
    requires forall i :: 0 <= i < |es| ==> InOrderEvent(es[i], isn, ms)
    requires var s0 := Initial(isn, size, true); var s := At(s0, es, |es|); var k := |Log(s0, es)|;
      k < |ms| && FilledFor(s.slots, |ms[k]|)
    ensures var s0 := Initial(isn, size, true); var s := At(s0, es, |es|);
      s.cursor > 0 && ReadPackets(s) == ms[|Log(s0, es)|]
  {
    hide SlotsOk, CursorOk, Start, Flatten;
    var s0 := Initial(isn, size, true);
    InitialDelivering(isn, ms, size);
    LogIsSlice(s0, isn, ms, 0, es);
    var s, k := At(s0, es, |es|), |Log(s0, es)|;
    assert IsMessage(ms[k]);
    StoredIsComplete(s, isn, ms, k);
    NextIsMessage(s, isn, ms, k);
  }

  lemma StoredIsComplete(s: State, isn: int, ms: seq<seq<Packet>>, k: nat)
    requires Delivering(s, isn, ms, k) && k < |ms| && IsMessage(ms[k])
    requires FilledFor(s.slots, |ms[k]|)
    ensures s.cursor > 0
  {
    hide SlotsOk, CursorOk, Start, Flatten;
    var m := ms[k];
    forall j: nat | j < |m|
      ensures s.slots[j].unit.value == m[j]
    {
      FlattenAt(ms, k, j);
    }
    EndFound(s.slots, 0, |m| - 1);
  }

  lemma {:induction false} EndFound(slots: seq<Entry>, i: nat, e: nat)
    requires i <= e < |slots| && IsLast(slots[e]) && forall j :: i <= j <= e ==> slots[j].unit.Some?
    ensures MsgEnd(slots, true, i) >= 0
    decreases e - i
  {
    if !IsLast(slots[i]) {
      EndFound(slots, i + 1, e);
    }
  }

  // ---------------------------------------------------------------- messages in any order

  /** The packets of one message, whatever its order flag. */
  predicate Framed(m: seq<Packet>) {
    m != [] && forall j :: 0 <= j < |m| ==> (m[j].first <==> j == 0) && (m[j].last <==> j == |m| - 1)
  }

  ghost predicate AllFramed(ms: seq<seq<Packet>>) {
    forall k :: 0 <= k < |ms| ==> Framed(ms[k])
  }

  /** The message that packet `x` of the stream belongs to. */
  function Which<T>(ss: seq<seq<T>>, x: nat): (k: nat)
    requires x < |Flatten(ss)|
    ensures k < |ss|
    decreases |ss|
  {
    if x < |ss[0]| then 0 else 1 + Which(ss[1..], x - |ss[0]|)
  }

  lemma {:induction false} WhichIs<T>(ss: seq<seq<T>>, x: nat)
    requires x < |Flatten(ss)|
    ensures var k := Which(ss, x); Start(ss, k) <= x < Start(ss, k) + |ss[k]|
    decreases |ss|
  {
    if x >= |ss[0]| {
      WhichIs(ss[1..], x - |ss[0]|);
    }
  }

  /** A read that starts at a first packet and ends at a last one takes out one message of the stream. */
  lemma ReadIsMessage(s: State, isn: int, ms: seq<seq<Packet>>)
    requires Inv(s) && Faithful(s, StreamOf(isn, ms)) && AllFramed(ms) && ReadFrom(s) >= 0
    requires ReadFrom(s) < |s.slots| && IsFirst(s.slots[ReadFrom(s)]) && ReadStop(s.slots, ReadFrom(s)).1
    ensures var x := s.base + ReadFrom(s) - isn;
      && 0 <= x < |Flatten(ms)|
      && x == Start(ms, Which(ms, x)) && ReadPackets(s) == ms[Which(ms, x)]
  {
    hide SlotsOk, CursorOk, Flatten, Start, Which;
    var ro, pk := ReadFrom(s), Flatten(ms);
    var (stop, ended) := ReadStop(s.slots, ro);
    ReadStopMeaning(s.slots, ro);
    var x := s.base + ro - isn;
    assert s.slots[ro].unit.value == pk[x];
    WhichIs(ms, x);
    var k := Which(ms, x);
    var m, j := ms[k], x - Start(ms, k);
    assert Framed(m);
    FlattenAt(ms, k, j);
    assert j == 0;
    FlattenSlice(ms, k);
    SlotsAreMessage(s, pk, isn, ro, stop, m, x);
  }

  lemma SlotsAreMessage(s: State, pk: seq<Packet>, isn: int, ro: nat, stop: nat, m: seq<Packet>, x: nat)
    requires FaithfulSlots(s.base, s.slots, Stream(isn, pk)) && ro < stop <= |s.slots| && x == s.base + ro - isn
    requires Framed(m) && x + |m| <= |pk| && pk[x..x + |m|] == m
    requires forall k :: ro <= k < stop ==> s.slots[k].unit.Some?
    requires IsLast(s.slots[stop - 1]) && forall k :: ro <= k < stop - 1 ==> !IsLast(s.slots[k])
    ensures Units(s.slots[ro..stop]) == m
  {
    forall i | 0 <= i < |m| && ro + i < stop
      ensures s.slots[ro + i].unit.value == m[i]
    {
      assert s.slots[ro + i].unit.value == pk[s.base + (ro + i) - isn] == pk[x + i] == pk[x..x + |m|][i];
    }
    var n := if |m| < stop - ro then |m| else stop - ro;
    assert s.slots[ro + (n - 1)].unit.value == m[n - 1];
    assert n == |m| == stop - ro;
    var us := Units(s.slots[ro..stop]);
    assert |us| == |m| && forall i :: 0 <= i < |m| ==> us[i] == s.slots[ro + i].unit.value;
  }

  /** A `DropTo` whose number starts a message of the stream, or lies outside the stream. */
  predicate StartsMessage(e: Event, st: Stream) {
    e.DropTo? ==> !(0 <= e.q - st.isn < |st.pk|) || st.pk[e.q - st.isn].first
  }

  /** Such a drop cuts no message in two. */
  lemma StartIsClean(s: State, e: Event, st: Stream)
    requires Inv(s) && s.messageApi && Faithful(s, st) && WellFormed(st) && StartsMessage(e, st)
    ensures CleanCut(s, e)
  {
    hide SlotsOk, WellFormed;
    if e.DropTo? && 0 < e.q - s.base < s.cursor {
      var k := e.q - s.base;
      NeighboursFollow(s.base, s.slots, st, k - 1);
      assert s.slots[k].unit.value == st.pk[s.base + k - st.isn];
    }
  }

  /** And any other does: a drop into a readable message leaves the cursor on its remainder. */
  lemma CutKeepsChainIff(s: State, st: Stream, q: int)
    requires Good(s) && s.messageApi && OnChain(s) && Faithful(s, st) && WellFormed(st)
    ensures OnChain(DropUpTo(s, q).0) <==> CleanCut(s, DropTo(q))
  {
    hide SlotsOk, CursorOk, WellFormed, Faithful, DropUpTo;
    CursorInside(s);
    if CleanCut(s, DropTo(q)) {
      DropToOnChain(s, q);
    } else {
      CutLeavesRemainder(s, st, q);
    }
  }

  lemma CutLeavesRemainder(s: State, st: Stream, q: int)
    requires Good(s) && s.messageApi && Faithful(s, st) && WellFormed(st) && !CleanCut(s, DropTo(q))
    ensures !OnChain(DropUpTo(s, q).0)
  {
    hide SlotsOk, WellFormed, FillerRun, ScanEnd, MsgEnd, Back;
    var k := q - s.base;
    assert 0 < k < s.cursor;
    NeighboursFollow(s.base, s.slots, st, k - 1);
    MoveIsPass(ForgetOoo(s, k), k, true);
    StoredAtShift(s, k);
  }

  lemma StoredAtShift(s: State, k: nat)
    requires Inv(s) && k < s.cursor
    ensures Shift(s.slots, k)[0] == s.slots[k] && FillerRun(Shift(s.slots, k), 0) == 0
  {
  }

  lemma RunIsClean(isn: int, st: Stream, size: nat, es: seq<Event>)
    requires size > 0 && WellFormed(st) && st.isn == isn && Good(Initial(isn, size, true)) && LegalRun(Initial(isn, size, true), es)
    requires forall j :: 0 <= j < |es| ==> OnStream(es[j], st) && StartsMessage(es[j], st)
    ensures CleanRun(Initial(isn, size, true), es)
  {
    hide WellFormed, OnStream, StartsMessage, CleanCut, LegalRun, Initial;
    var s0 := Initial(isn, size, true);
    InitialOoo(st, size);
    forall i | 0 <= i < |es|
      ensures CleanCut(At(s0, es, i), es[i])
    {
      RunOoo(s0, st, es, i);
      StartIsClean(At(s0, es, i), es[i], st);
    }
  }

  /**
    Over every run that cuts no message in two, with messages of both kinds and drops: every read
    takes out exactly one message of the stream.
   */
  lemma EveryReadIsMessage(isn: int, ms: seq<seq<Packet>>, size: nat, es: seq<Event>, i: nat)
    requires size > 0 && AllFramed(ms) && WellFormed(StreamOf(isn, ms))
    requires Good(Initial(isn, size, true)) && LegalRun(Initial(isn, size, true), es) && i <= |es|
    requires forall j :: 0 <= j < |es| ==> OnStream(es[j], StreamOf(isn, ms)) && StartsMessage(es[j], StreamOf(isn, ms))
    requires ReadFrom(At(Initial(isn, size, true), es, i)) >= 0
    ensures var s := At(Initial(isn, size, true), es, i); var x := s.base + ReadFrom(s) - isn;
      && 0 <= x < |Flatten(ms)|
      && x == Start(ms, Which(ms, x)) && ReadPackets(s) == ms[Which(ms, x)]
  {
    hide LegalRun, WellFormed, OnStream, StartsMessage, CleanRun, Flatten, Start, Which, ReadPackets;
    var s0, st := Initial(isn, size, true), StreamOf(isn, ms);
    RunIsClean(isn, st, size, es);
    var s := At(s0, es, i);
    InitialOoo(st, size);
    RunOoo(s0, st, es, i);
    StartsOnChain(isn, size);
    RunOnChain(s0, es, i);
    ReadEnds(s);
    ReadsAtFirst(s);
    ReadIsMessage(s, isn, ms);
  }

  lemma StartsOnChain(isn: int, size: nat)
    requires size > 0
    ensures OnChain(Initial(isn, size, true))
  {
  }

  lemma ReadsAtFirst(s: State)
    requires Inv(s) && s.messageApi && OooOk(s) && OnChain(s) && ReadFrom(s) >= 0
    ensures ReadFrom(s) < |s.slots| && IsFirst(s.slots[ReadFrom(s)])
  {
    if s.cursor > 0 {
      FirstLink(s);
    }
  }

  /** And no message twice: two reads of a run take out different messages. */
  lemma NoMessageTwice(isn: int, ms: seq<seq<Packet>>, size: nat, es: seq<Event>, i: nat, j: nat)
    requires size > 0 && AllFramed(ms) && WellFormed(StreamOf(isn, ms))
    requires Good(Initial(isn, size, true)) && LegalRun(Initial(isn, size, true), es) && i < j < |es|
    requires forall j :: 0 <= j < |es| ==> OnStream(es[j], StreamOf(isn, ms)) && StartsMessage(es[j], StreamOf(isn, ms))
    requires es[i].ReadOne? && es[j].ReadOne?
    requires ReadFrom(At(Initial(isn, size, true), es, i)) >= 0 && ReadFrom(At(Initial(isn, size, true), es, j)) >= 0
    ensures var s, t := At(Initial(isn, size, true), es, i), At(Initial(isn, size, true), es, j);
      var x, y := s.base + ReadFrom(s) - isn, t.base + ReadFrom(t) - isn;
      0 <= x < |Flatten(ms)| && 0 <= y < |Flatten(ms)| && Which(ms, x) != Which(ms, y)
  {
    hide LegalRun, WellFormed, OnStream, StartsMessage, Flatten, Start, Which, ReadPackets, AllFramed;
    var s0 := Initial(isn, size, true);
    EveryReadIsMessage(isn, ms, size, es, i);
    EveryReadIsMessage(isn, ms, size, es, j);
    var s, t := At(s0, es, i), At(s0, es, j);
    var q := s.base + ReadFrom(s);
    ReadTakesFirst(s, isn, ms);
    ReadTakesFirst(t, isn, ms);
    AtMostOnce(s0, es, i, j, q);
  }

  lemma ReadTakesFirst(s: State, isn: int, ms: seq<seq<Packet>>)
    requires Good(s) && ReadFrom(s) >= 0
    requires var x := s.base + ReadFrom(s) - isn; 0 <= x < |Flatten(ms)| && ReadPackets(s) == ms[Which(ms, x)]
    requires AllFramed(ms)
    ensures Delivers(s, ReadOne, s.base + ReadFrom(s))
  {
    hide Flatten, Which, SlotsOk, CursorOk;
    assert Framed(ms[Which(ms, s.base + ReadFrom(s) - isn)]);
    assert |ReadPackets(s)| > 0;
  }
}

/**
  The read cursor is maintained incrementally and never recomputed from the start. This module
  shows that it always ends a run of complete messages from the start, and that after every
  accepted arrival it is the end of the longest such run.
 */
module ReceiverCursor {
  import opened Packets
  import opened ReceiverSpec
  import opened ReceiverInvariant
  import opened ReceiverRuns

  /** The slots from `i` up to `c` are a whole number of complete messages. */
  predicate Chain(slots: seq<Entry>, messageApi: bool, i: nat, c: nat)
    requires i <= |slots|
    decreases |slots| - i
  {
    i == c ||
    (Complete(slots, messageApi, i) && Chain(slots, messageApi, MsgEnd(slots, messageApi, i) + 1, c))
  }

  lemma {:induction false} ChainBound(slots: seq<Entry>, api: bool, i: nat, c: nat)
    requires i <= |slots| && Chain(slots, api, i, c)
    ensures i <= c <= |slots|
    decreases |slots| - i
  {
    if i != c {
      ChainBound(slots, api, MsgEnd(slots, api, i) + 1, c);
    }
  }

  /** A scan from the end of a chain gives what a scan from its beginning gives. */
  lemma {:induction false} ChainScan(slots: seq<Entry>, api: bool, i: nat, c: nat)
    requires i <= |slots| && Chain(slots, api, i, c)
    ensures c <= |slots| && ScanEnd(slots, api, c) == ScanEnd(slots, api, i)
    decreases |slots| - i
  {
    if i != c {
      ChainScan(slots, api, MsgEnd(slots, api, i) + 1, c);
    }
  }

  lemma {:induction false} ScanIsChain(slots: seq<Entry>, api: bool, i: nat)
    requires i <= |slots|
    ensures Chain(slots, api, i, ScanEnd(slots, api, i))
    decreases |slots| - i
  {
    if Complete(slots, api, i) {
      ScanIsChain(slots, api, MsgEnd(slots, api, i) + 1);
    }
  }

  /** The scan finds the longest chain. */
  lemma ScanIsLongest(slots: seq<Entry>, api: bool, c: nat)
    requires Chain(slots, api, 0, c)
    ensures c <= ScanEnd(slots, api, 0)
  {
    ChainScan(slots, api, 0, c);
  }

  /** A message stored in full depends only on its own slots. */
  lemma {:induction false} MsgEndLocal(a: seq<Entry>, b: seq<Entry>, api: bool, i: nat, shift: nat)
    requires i + shift < |a| && i < |b| && MsgEnd(a, api, i + shift) >= 0
    requires MsgEnd(a, api, i + shift) - shift < |b|
    requires forall k :: i <= k <= MsgEnd(a, api, i + shift) - shift ==> b[k] == a[k + shift]
    ensures MsgEnd(b, api, i) == MsgEnd(a, api, i + shift) - shift
    decreases |a| - i
  {
    assert b[i] == a[i + shift];
    if api && !IsLast(a[i + shift]) {
      MsgEndLocal(a, b, api, i + 1, shift);
    }
  }

  lemma {:induction false} ChainLocal(a: seq<Entry>, b: seq<Entry>, api: bool, i: nat, c: nat, shift: nat)
    requires i + shift <= c + shift <= |a| && c <= |b| && Chain(a, api, i + shift, c + shift)
    requires forall k :: i <= k < c ==> b[k] == a[k + shift]
    ensures Chain(b, api, i, c)
    decreases |a| - i
  {
    if i != c {
      var e := MsgEnd(a, api, i + shift);
      ChainBound(a, api, e + 1, c + shift);
      MsgEndLocal(a, b, api, i, shift);
      ChainLocal(a, b, api, e - shift + 1, c, shift);
    }
  }

  ghost predicate OnChain(s: State) {
    0 <= s.cursor <= |s.slots| && Chain(s.slots, s.messageApi, 0, s.cursor)
  }

  lemma InsertOnChain(s: State, q: int, p: Packet)
    requires Good(s) && OnChain(s)
    ensures var r := Insert(s, q, p);
      && OnChain(r.0)
      && (r.1 == 0 ==> r.0.cursor == ScanEnd(r.0.slots, s.messageApi, 0))
  {
    hide OnInsertUnordered, Chain, ScanEnd, SlotsOk;
    var r := Insert(s, q, p);
    if r.1 == 0 {
      var slots := r.0.slots;
      assert forall k :: 0 <= k < s.cursor ==> slots[k] == s.slots[k] by {
        assert forall k :: 0 <= k < s.cursor ==> s.slots[k].unit.Some?;
        HeldIsNotEmpty(s);
      }
      ChainLocal(s.slots, slots, s.messageApi, 0, s.cursor, 0);
      ChainScan(slots, s.messageApi, 0, s.cursor);
      ScanIsChain(slots, s.messageApi, 0);
    }
  }

  lemma HeldIsNotEmpty(s: State)
    requires Inv(s)
    ensures forall k :: 0 <= k < |s.slots| && s.slots[k].unit.Some? ==> s.slots[k].status != Empty
  {
  }

  /** The slots from the start to the cursor, less the first `k`, are still a chain after a move. */
  lemma MoveOnChain(s: State, k: nat, rescan: bool)
    requires Inv(s) && (k <= s.cursor ==> Chain(s.slots, s.messageApi, k, s.cursor))
    ensures OnChain(Move(s, k, rescan))
  {
    hide Chain, ScanEnd, FillerRun, Back, SlotsOk;
    var f := FillerRun(Shift(s.slots, k), 0);
    MoveIsPass(s, k, rescan);
    MoveKeeps(s, k, rescan);
    var t := Move(s, k, rescan);
    if k + f <= s.cursor {
      NoFillerBeforeCursor(s, k);
      ChainLocal(s.slots, t.slots, s.messageApi, 0, s.cursor - k, k);
    } else {
      ScanIsChain(t.slots, s.messageApi, 0);
      ChainEmpty(t.slots, s.messageApi);
    }
  }

  lemma ChainEmpty(slots: seq<Entry>, api: bool)
    ensures Chain(slots, api, 0, 0)
  {
  }

  lemma NoFillerBeforeCursor(s: State, k: nat)
    requires Inv(s) && k + FillerRun(Shift(s.slots, k), 0) <= s.cursor
    ensures FillerRun(Shift(s.slots, k), 0) == 0
  {
    FillerRunMeaning(Shift(s.slots, k), 0);
    if k < s.cursor {
      assert Shift(s.slots, k)[0] == s.slots[k];
    }
  }

  /** A read in order takes the first link of the chain. */
  lemma ReadOnChain(s: State)
    requires Good(s) && s.messageApi && OnChain(s)
    ensures OnChain(ReadMessage(s))
  {
    hide Chain, Move, SlotsOk, CursorOk, Seek, MarkRead;
    var ro := ReadFrom(s);
    if ro >= 0 {
      var (stop, ended) := ReadStop(s.slots, ro);
      var s1 := if ended && ro == s.ooo then s.(ooo := -1) else s;
      if ro == 0 {
        if s.cursor > 0 {
          FirstLink(s);
        } else {
          NothingReadable(s.slots, stop);
        }
        MoveOnChain(s1, stop, false);
      } else {
        StopBelowEnd(s, ro);
        MarkReadKeeps(s1, ro, stop);
        var s2 := s1.(slots := MarkRead(s.slots, ro, stop));
        ChainEmpty(s2.slots, s.messageApi);
        MoveOnChain(s2, 0, false);
      }
    }
  }

  lemma NothingReadable(slots: seq<Entry>, stop: nat)
    ensures stop == 0 <= |slots| ==> Chain(slots, true, stop, 0)
  {
  }

  lemma FirstLink(s: State)
    requires Inv(s) && s.messageApi && OnChain(s) && s.cursor > 0
    ensures var stop := ReadStop(s.slots, 0).0;
      stop == MsgEnd(s.slots, true, 0) + 1 <= s.cursor && Chain(s.slots, true, stop, s.cursor)
      && Complete(s.slots, true, 0)
  {
    StopIsEnd(s.slots, 0);
    ChainBound(s.slots, true, MsgEnd(s.slots, true, 0) + 1, s.cursor);
  }

  lemma {:induction false} StopIsEnd(slots: seq<Entry>, i: nat)
    requires i <= |slots| && MsgEnd(slots, true, i) >= 0
    ensures ReadStop(slots, i) == (MsgEnd(slots, true, i) + 1, true)
    decreases |slots| - i
  {
    if !IsLast(slots[i]) {
      StopIsEnd(slots, i + 1);
    }
  }

  lemma DropMessageOnChain(s: State, lo: int, hi: int, msgno: int, keep: bool)
    requires Good(s) && OnChain(s) && lo <= hi && lo - s.base < |s.slots| - 1
    ensures OnChain(DropMessage(s, lo, hi, msgno, keep).0)
  {
    hide Chain, SlotsOk, CursorOk, DropSlots, StillReadable, Touched, FillerRun, ScanEnd, Shift, Seek;
    if s.base <= hi {
      var slots := DropSlots(s, lo, hi, msgno, keep).0;
      DropSlotsKeeps(s, lo, hi, msgno, keep);
      var s1 := s.(slots := slots);
      var t := SkipFillers(s1);
      if Touched(s.slots, slots, s.cursor) {
        ScanIsChain(t.slots, s.messageApi, 0);
      } else {
        UntouchedKeepsCursor(s, slots);
        AdvanceZero(s1);
        UntouchedPrefix(s, slots);
        ChainLocal(s.slots, slots, s.messageApi, 0, s.cursor, 0);
      }
    }
  }

  lemma UntouchedPrefix(s: State, slots: seq<Entry>)
    requires |slots| == |s.slots| && !Touched(s.slots, slots, s.cursor)
    ensures forall k :: 0 <= k < s.cursor && k < |slots| ==> slots[k] == s.slots[k]
  {
  }

  /** A `DropTo` that does not cut a readable message in two: it lands behind the last packet of one, or past the cursor. */
  predicate CleanCut(s: State, e: Event) {
    e.DropTo? ==>
      var k := e.q - s.base;
      k <= 0 || k > s.cursor || (k <= |s.slots| && IsLast(s.slots[k - 1]))
  }

  /** Behind a last packet a chain can be taken apart. */
  lemma {:induction false} ChainSplits(slots: seq<Entry>, i: nat, k: nat, c: nat)
    requires i <= k <= c <= |slots| && Chain(slots, true, i, c) && (k == i || IsLast(slots[k - 1]))
    ensures Chain(slots, true, k, c)
    decreases |slots| - i
  {
    if i < k {
      var e := MsgEnd(slots, true, i);
      MsgEndMeaning(slots, true, i);
      assert k > e;
      ChainBound(slots, true, e + 1, c);
      ChainSplits(slots, e + 1, k, c);
    }
  }

  lemma DropToOnChain(s: State, q: int)
    requires Good(s) && s.messageApi && OnChain(s) && CleanCut(s, DropTo(q))
    ensures OnChain(DropUpTo(s, q).0)
  {
    hide Chain, Move, SlotsOk, CursorOk;
    CursorInside(s);
    var k := q - s.base;
    if k > 0 {
      if k <= s.cursor {
        ChainSplits(s.slots, 0, k, s.cursor);
      }
      MoveOnChain(ForgetOoo(s, k), k, true);
    }
  }

  lemma StepOnChain(s: State, e: Event)
    requires Good(s) && s.messageApi && OnChain(s) && Legal(s, e) && CleanCut(s, e)
    ensures OnChain(Step(s, e))
  {
    hide Chain, OnChain, Insert, ReadMessage, DropUpTo, DropMessage, Good, CleanCut;
    match e
    case Arrive(q, p) => InsertOnChain(s, q, p);
    case ReadOne => ReadOnChain(s);
    case DropTo(q) => DropToOnChain(s, q);
    case DropMsg(lo, hi, msgno, keep) => DropMessageOnChain(s, lo, hi, msgno, keep);
  }

  /** The runs in which no `DropTo` cuts a readable message in two. */
  ghost predicate CleanRun(s: State, es: seq<Event>)
    requires Good(s) && LegalRun(s, es)
  {
    forall i :: 0 <= i < |es| ==> CleanCut(At(s, es, i), es[i])
  }

  lemma {:induction false} RunOnChain(s: State, es: seq<Event>, i: nat)
    requires Good(s) && s.messageApi && OnChain(s) && LegalRun(s, es) && CleanRun(s, es) && i <= |es|
    ensures OnChain(At(s, es, i)) && At(s, es, i).messageApi
    decreases i
  {
    hide OnChain, Good, Legal, Step, LegalRun, CleanCut, At;
    if i > 0 {
      RunOnChain(s, es, i - 1);
      AtStep(s, es, i - 1);
      StepKeeps(At(s, es, i - 1), es[i - 1]);
      StepOnChain(At(s, es, i - 1), es[i - 1]);
    } else {
      AtStart(s, es);
    }
  }

  lemma AtStart(s: State, es: seq<Event>)
    requires Good(s) && LegalRun(s, es)
    ensures At(s, es, 0) == s
  {
  }

  /**
    Over every run from an empty buffer: right after an accepted arrival the cursor equals the
    from-scratch scan, and no run of complete messages from the start is longer.
   */
  lemma CursorIsScan(base: int, size: nat, es: seq<Event>, i: nat)
    requires size > 0 && Good(Initial(base, size, true))
    requires var s := Initial(base, size, true);
      LegalRun(s, es) && CleanRun(s, es) && i < |es| && es[i].Arrive? && Accepts(At(s, es, i), es[i], es[i].q)
    ensures var t := At(Initial(base, size, true), es, i + 1);
      && t.cursor == ScanEnd(t.slots, true, 0)
      && Chain(t.slots, true, 0, t.cursor)
      && forall c: nat :: Chain(t.slots, true, 0, c) ==> c <= t.cursor
  {
    var s := Initial(base, size, true);
    RunOnChain(s, es, i);
    AtStep(s, es, i);
    InsertOnChain(At(s, es, i), es[i].q, es[i].p);
    var t := At(s, es, i + 1);
    forall c: nat | Chain(t.slots, true, 0, c)
      ensures c <= t.cursor
    {
      ScanIsLongest(t.slots, true, c);
    }
  }

  // ---------------------------------------------------------------- after a read

  /** Taking the first message out leaves the cursor where a scan from the new start ends. */
  lemma ScanAfterRead(s: State, n: nat)
    requires Inv(s) && s.cursor == ScanEnd(s.slots, true, 0) && n <= s.cursor
    requires n <= |s.slots| && Chain(s.slots, true, n, s.cursor)
    ensures ScanEnd(Shift(s.slots, n), true, 0) == s.cursor - n
  {
    hide SlotsOk, CursorOk, Chain, MsgEnd;
    var t := Shift(s.slots, n);
    var c := s.cursor - n;
    ChainLocal(s.slots, t, true, 0, c, n);
    ChainScan(t, true, 0, c);
    ScanStops(s.slots, true, 0);
    if Complete(t, true, c) {
      MsgEndMeaning(t, true, c);
      MsgEndBack(s.slots, n, c);
    }
  }

  lemma {:induction false} ScanStops(slots: seq<Entry>, api: bool, i: nat)
    requires i <= |slots|
    ensures !Complete(slots, api, ScanEnd(slots, api, i))
    decreases |slots| - i
  {
    if Complete(slots, api, i) {
      ScanStops(slots, api, MsgEnd(slots, api, i) + 1);
    }
  }

  lemma MsgEndBack(slots: seq<Entry>, n: nat, c: nat)
    requires c < |slots| && Complete(Shift(slots, n), true, c)
    ensures c + n < |slots| && Complete(slots, true, c + n)
  {
    var t := Shift(slots, n);
    MsgEndMeaning(t, true, c);
    var e := MsgEnd(t, true, c);
    assert forall k :: c <= k <= e ==> t[k].unit.Some?;
    assert forall k :: c <= k <= e ==> k + n < |slots| && t[k] == slots[k + n];
    MsgEndAhead(t, slots, c, n, e);
  }

  lemma {:induction false} MsgEndAhead(a: seq<Entry>, b: seq<Entry>, i: nat, n: nat, e: nat)
    requires i <= e < |a| && e + n < |b| && MsgEnd(a, true, i) == e
    requires forall k :: i <= k <= e ==> a[k] == b[k + n]
    ensures MsgEnd(b, true, i + n) == e + n
    decreases e - i
  {
    assert a[i] == b[i + n];
    if !IsLast(a[i]) {
      MsgEndAhead(a, b, i + 1, n, e);
    }
  }

  /** The cursor is where a scan from the start ends. */
  ghost predicate Exact(s: State) {
    s.cursor == ScanEnd(s.slots, s.messageApi, 0)
  }

  /** Where the start lands after a read in order: behind the message and the fillers that follow it. */
  function NextStart(s: State): nat
    requires Inv(s)
  {
    FillerRun(s.slots, ReadStop(s.slots, 0).0)
  }

  /** What a read that starts at slot 0 leaves behind. */
  lemma HeadReadLeaves(s: State)
    requires Good(s) && s.messageApi && ReadFrom(s) == 0
    ensures var t, n := ReadMessage(s), NextStart(s);
      && t.messageApi && t.slots == Shift(s.slots, n)
      && t.cursor == (if n <= s.cursor then s.cursor - n else 0)
      && ReadStop(s.slots, 0).0 <= n < |s.slots|
  {
    hide SlotsOk, CursorOk, ScanEnd, Shift, FillerRun, ScanOoo, Move, Pass, ReadStop;
    CursorInside(s);
    var (stop, ended) := ReadStop(s.slots, 0);
    var s1 := if ended && s.ooo == 0 then s.(ooo := -1) else s;
    MoveIsPass(s1, stop, false);
    StopBelowEnd(s, 0);
    RunShifted(s, stop);
    PassLeaves(s1, NextStart(s));
  }

  lemma PassLeaves(s: State, k: nat)
    requires 0 <= s.cursor < |s.slots| && -1 <= s.ooo < |s.slots|
    ensures Pass(s, k).slots == Shift(s.slots, k) && Pass(s, k).messageApi == s.messageApi
  {
    hide Shift, Back;
  }

  /** The case of a read that starts at slot 0. */
  lemma HeadReadExactIff(s: State)
    requires Good(s) && s.messageApi && Exact(s) && ReadFrom(s) == 0
    ensures Exact(ReadMessage(s)) <==> NextStart(s) <= s.cursor || !Complete(s.slots, true, NextStart(s))
  {
    hide SlotsOk, CursorOk, ScanEnd, Chain, MsgEnd, FillerRun, ReadMessage, ReadStop;
    HeadReadLeaves(s);
    if NextStart(s) > s.cursor {
      CompleteShifted(s.slots, NextStart(s));
      ScanNothing(Shift(s.slots, NextStart(s)));
    } else if s.cursor > 0 {
      ScanIsChain(s.slots, true, 0);
      FirstLink(s);
      var stop := ReadStop(s.slots, 0).0;
      RunShifted(s, stop);
      NoFillerBeforeCursor(s, stop);
      ScanAfterRead(s, stop);
    } else {
      ShiftNone(s.slots);
    }
  }

  /** The case of a read further on: it leaves the start, and an empty scan, where they are. */
  lemma OutOfOrderReadExact(s: State)
    requires Good(s) && s.messageApi && Exact(s) && ReadFrom(s) > 0
    ensures Exact(ReadMessage(s))
  {
    hide SlotsOk, CursorOk, Seek, ScanEnd, Back, Chain, MsgEnd, FillerRun;
    var (stop, ended) := ReadStop(s.slots, ReadFrom(s));
    var s1 := if ended && ReadFrom(s) == s.ooo then s.(ooo := -1) else s;
    StopBelowEnd(s, s.ooo);
    var marked := MarkRead(s.slots, s.ooo, stop);
    MarkReadKeeps(s1, s.ooo, stop);
    HeadKept(s, s.ooo, stop);
    MoveIsPass(s1.(slots := marked), 0, false);
    ScanNothing(s.slots);
    ScanNothing(marked);
    ShiftNone(marked);
    StillIncomplete(s, s.ooo, stop);
  }

  /**
    A read does not recompute the cursor. The cursor stays exact unless the start passes over
    fillers beyond the cursor onto a message that is all there; that message is then not
    reported until the next arrival.
   */
  lemma ReadKeepsExactIff(s: State)
    requires Good(s) && s.messageApi && Exact(s)
    ensures Exact(ReadMessage(s)) <==>
      ReadFrom(s) != 0 || NextStart(s) <= s.cursor || !Complete(s.slots, true, NextStart(s))
  {
    hide NextStart, ScanEnd, Complete, SlotsOk;
    if ReadFrom(s) == 0 {
      HeadReadExactIff(s);
    } else if ReadFrom(s) > 0 {
      OutOfOrderReadExact(s);
    }
  }

  lemma ScanNothing(slots: seq<Entry>)
    ensures ScanEnd(slots, true, 0) == 0 <==> !Complete(slots, true, 0)
  {
  }

  lemma ShiftNone(slots: seq<Entry>)
    ensures Shift(slots, 0) == slots
  {
  }

  /** Marking slots beyond the first one as read moves nothing. */
  lemma HeadKept(s: State, a: nat, b: nat)
    requires Good(s) && 0 < a
    ensures FillerRun(Shift(MarkRead(s.slots, a, b), 0), 0) == 0
  {
    assert Shift(MarkRead(s.slots, a, b), 0)[0] == s.slots[0];
  }

  lemma StillIncomplete(s: State, a: nat, b: nat)
    requires Inv(s) && a < |s.slots| && !Complete(s.slots, true, 0)
    ensures !Complete(MarkRead(s.slots, a, b), true, 0)
  {
    hide SlotsOk, CursorOk, MsgEnd;
    var m := MarkRead(s.slots, a, b);
    if Complete(m, true, 0) {
      MsgEndMeaning(m, true, 0);
      assert forall k :: 0 <= k <= MsgEnd(m, true, 0) ==> s.slots[k] == m[k + 0];
      MsgEndLocal(m, s.slots, true, 0, 0);
    }
  }

  lemma CompleteShifted(slots: seq<Entry>, n: nat)
    requires n < |slots|
    ensures Complete(Shift(slots, n), true, 0) <==> Complete(slots, true, n)
  {
    if Complete(slots, true, n) {
      MsgEndMeaning(slots, true, n);
      MsgEndLocal(slots, Shift(slots, n), true, 0, n);
    }
    if Complete(Shift(slots, n), true, 0) {
      MsgEndBack(slots, n, 0);
    }
  }

  lemma RunShifted(s: State, n: nat)
    requires Inv(s) && n < |s.slots|
    ensures FillerRun(s.slots, n) == n + FillerRun(Shift(s.slots, n), 0) < |s.slots|
  {
    var t := Shift(s.slots, n);
    FillerRunMeaning(s.slots, n);
    FillerRunMeaning(t, 0);
    var a, b := FillerRun(s.slots, n), FillerRun(t, 0);
    assert !Filler(s.slots[|s.slots| - 1]);
    assert a < |s.slots|;
    assert t[a - n] == s.slots[a];
    assert b + n < |s.slots| ==> t[b] == s.slots[b + n];
  }

  // A run in which a message stored in full at the start is not reported: of three messages of
  // one packet each, the second is read out of order before the first arrives.

  const FIRST := Packet(0, 1, true, true, true, [])
  const SECOND := Packet(1, 2, true, true, false, [])
  const THIRD := Packet(2, 3, true, true, true, [])

  function Got(p: Packet): Entry {
    Entry(Some(p), Avail)
  }

  function Snapshot(slots: seq<Entry>, maxOff: int, cursor: int, ooo: int): State {
    State(true, 0, slots, maxOff, cursor, ooo, 0)
  }

  const S1 := Snapshot([EMPTY, Got(SECOND), EMPTY, EMPTY], 2, 0, 1)
  const S2 := Snapshot([EMPTY, Entry(None, Read), EMPTY, EMPTY], 2, 0, -1)
  const S3 := Snapshot([EMPTY, Entry(None, Read), Got(THIRD), EMPTY], 3, 0, -1)
  const S4 := Snapshot([Got(FIRST), Entry(None, Read), Got(THIRD), EMPTY], 3, 1, -1)

  ghost predicate Leads(s: State, e: Event, t: State) {
    Good(s) && Legal(s, e) && Step(s, e) == t && Good(t)
  }

  lemma SecondArrives()
    ensures Leads(Initial(0, 4, true), Arrive(1, SECOND), S1)
  {
    var s0 := Initial(0, 4, true);
    InitialKeeps(0, 4, true);
    assert s0.slots == [EMPTY, EMPTY, EMPTY, EMPTY];
    assert s0.slots[1 := Got(SECOND)] == S1.slots;
    InsertKeeps(s0, 1, SECOND);
  }

  lemma SecondIsRead()
    requires Good(S1)
    ensures Leads(S1, ReadOne, S2)
  {
    assert ReadStop(S1.slots, 1) == (2, true);
    assert MarkRead(S1.slots, 1, 2) == S2.slots;
    ShiftNone(S2.slots);
    assert FillerRun(S2.slots, 0) == 0;
    assert Move(S2, 0, false) == S2;
    NothingToFind(S2.slots);
    ReadMessageKeeps(S1);
  }

  lemma ThirdArrives()
    requires Good(S2)
    ensures Leads(S2, Arrive(2, THIRD), S3)
  {
    assert S2.slots[2 := Got(THIRD)] == S3.slots;
    InsertKeeps(S2, 2, THIRD);
  }

  lemma FirstArrives()
    requires Good(S3)
    ensures Leads(S3, Arrive(0, FIRST), S4)
  {
    assert S3.slots[0 := Got(FIRST)] == S4.slots;
    assert ScanEnd(S4.slots, true, 1) == 1;
    InsertKeeps(S3, 0, FIRST);
  }

  lemma StaleCursorRun()
    ensures var s := Initial(0, 4, true);
      var es := [Arrive(1, SECOND), ReadOne, Arrive(2, THIRD), Arrive(0, FIRST)];
      Good(s) && LegalRun(s, es) && At(s, es, 4) == S4
  {
    hide Good, Legal, Step, Initial;
    SecondArrives();
    SecondIsRead();
    ThirdArrives();
    FirstArrives();
    var e1, e2, e3, e4 := Arrive(1, SECOND), ReadOne, Arrive(2, THIRD), Arrive(0, FIRST);
    assert [e4][1..] == [] && LegalRun(S3, [e4]) && At(S3, [e4], 1) == S4;
    assert [e3, e4][1..] == [e4] && LegalRun(S2, [e3, e4]) && At(S2, [e3, e4], 2) == S4;
    assert [e2, e3, e4][1..] == [e3, e4] && LegalRun(S1, [e2, e3, e4]) && At(S1, [e2, e3, e4], 3) == S4;
    assert [e1, e2, e3, e4][1..] == [e2, e3, e4];
  }

  lemma NothingToFind(slots: seq<Entry>)
    requires |slots| == 4 && forall k :: 0 <= k < 4 ==> slots[k].unit.None? || slots[k].unit.value.inOrder
    ensures ScanOoo(slots, 0, -1, -1) == -1
  {
    assert ScanOoo(slots, 3, -1, -1) == -1;
    assert ScanOoo(slots, 2, -1, -1) == -1;
    assert ScanOoo(slots, 1, -1, -1) == -1;
  }

  /** After the next read the third message is all there, at the start, and is not reported. */
  lemma StaleCursor()
    requires Good(S4)
    ensures var t := ReadMessage(S4); Complete(t.slots, true, 0) && ReadFrom(t) < 0 && !Exact(t)
  {
    var t := [Got(THIRD), EMPTY, EMPTY, EMPTY];
    assert ReadStop(S4.slots, 0) == (1, true);
    assert Shift(S4.slots, 1) == [Entry(None, Read), Got(THIRD), EMPTY, EMPTY];
    assert FillerRun(Shift(S4.slots, 1), 0) == 1;
    assert Shift(Shift(S4.slots, 1), 1) == t;
    assert Complete(t, true, 0);
    NothingToFind(t);
  }
}

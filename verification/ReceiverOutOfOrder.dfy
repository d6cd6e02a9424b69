/**
  Reading out of order, in message mode without timestamp-based delivery. Over every run on a
  well-formed stream, drops included, the remembered position is -1 or the first packet of a
  message stored in full, and -1 with nothing readable in order means that there is none.
 */
module ReceiverOutOfOrder {
  import opened Packets
  import opened ReceiverSpec
  import opened ReceiverInvariant
  import opened ReceiverRuns
  import opened Streams

  /** A message allowed to be read out of order is stored in full from slot `o` on. */
  predicate Whole(slots: seq<Entry>, o: nat) {
    o < |slots| && IsFirst(slots[o]) && StillReadable(slots, o)
  }

  predicate MayRead(e: Entry, msgno: nat) {
    e.unit.Some? && !e.unit.value.inOrder && e.unit.value.msgno == msgno
  }

  /** The last slot of the message that `CheckOoo` found. */
  function LastSlot(slots: seq<Entry>, i: nat, msgno: nat): (e: nat)
    requires i <= |slots| && CheckOoo(slots, i, msgno)
    ensures i <= e < |slots| && IsLast(slots[e])
    ensures forall k :: i <= k <= e ==> MayRead(slots[k], msgno)
    decreases |slots| - i
  {
    if IsLast(slots[i]) then i else LastSlot(slots, i + 1, msgno)
  }

  lemma {:induction false} RunIsReadable(slots: seq<Entry>, i: nat, e: nat, msgno: nat)
    requires i <= e < |slots| && IsLast(slots[e])
    requires forall k :: i <= k <= e ==> MayRead(slots[k], msgno)
    ensures CheckOoo(slots, i, msgno)
    decreases e - i
  {
    assert MayRead(slots[i], msgno);
    if i < e {
      RunIsReadable(slots, i + 1, e, msgno);
    }
  }

  /** Being stored in full depends only on the slots of the message. */
  lemma WholeLocal(a: seq<Entry>, b: seq<Entry>, o: nat, shift: nat)
    requires Whole(a, o + shift)
    requires var e := LastSlot(a, o + shift, a[o + shift].unit.value.msgno);
      e - shift < |b| && forall k :: o <= k <= e - shift ==> b[k] == a[k + shift]
    ensures Whole(b, o)
  {
    var m := a[o + shift].unit.value.msgno;
    var e := LastSlot(a, o + shift, m);
    assert b[o] == a[o + shift];
    assert IsLast(b[e - shift]);
    RunIsReadable(b, o, e - shift, m);
  }

  // ---------------------------------------------------------------- the search

  lemma {:induction false} ScanFindsWhole(slots: seq<Entry>, i: nat, pf: int, mn: int)
    requires i <= |slots| && -1 <= pf < i && (pf < 0 <==> mn < 0)
    requires pf >= 0 ==> IsFirst(slots[pf]) && forall k :: pf <= k < i ==> MayRead(slots[k], mn)
    ensures var r := ScanOoo(slots, i, pf, mn); r >= 0 ==> Whole(slots, r)
    decreases |slots| - i
  {
    if i < |slots| {
      if slots[i].unit.None? || slots[i].unit.value.inOrder {
        ScanFindsWhole(slots, i + 1, -1, -1);
      } else {
        var p := slots[i].unit.value;
        var pf' := if p.first then i else pf;
        var mn' := if p.first then p.msgno else mn;
        if p.msgno != mn' {
          ScanFindsWhole(slots, i + 1, -1, -1);
        } else if p.last {
          RunIsReadable(slots, pf', i, mn');
        } else {
          ScanFindsWhole(slots, i + 1, pf', mn');
        }
      }
    }
  }

  /** The search misses no message stored in full. */
  lemma {:induction false} ScanMissesNone(slots: seq<Entry>, i: nat, pf: int, mn: int, o: nat)
    requires Whole(slots, o) && i <= LastSlot(slots, o, slots[o].unit.value.msgno)
    requires -1 <= pf < i && (pf < 0 <==> mn < 0)
    requires i > o ==> pf >= 0 && mn == slots[o].unit.value.msgno
    ensures ScanOoo(slots, i, pf, mn) >= 0
    decreases |slots| - i
  {
    var m := slots[o].unit.value.msgno;
    var e := LastSlot(slots, o, m);
    if i >= o {
      assert MayRead(slots[i], m);
    }
    if slots[i].unit.None? || slots[i].unit.value.inOrder {
      ScanMissesNone(slots, i + 1, -1, -1, o);
    } else {
      var p := slots[i].unit.value;
      var pf' := if p.first then i else pf;
      var mn' := if p.first then p.msgno else mn;
      if p.msgno != mn' {
        ScanMissesNone(slots, i + 1, -1, -1, o);
      } else if !p.last {
        ScanMissesNone(slots, i + 1, pf', mn', o);
      }
    }
  }

  ghost predicate OooOk(s: State) {
    s.ooo >= 0 ==> Whole(s.slots, s.ooo)
  }

  /** Nothing readable in order and nothing remembered means nothing readable at all. */
  ghost predicate OooLive(s: State) {
    s.ooo < 0 && s.cursor == 0 ==> forall o: nat :: !Whole(s.slots, o)
  }

  lemma SeekFinds(s: State)
    requires Inv(s) && s.messageApi && OooOk(s)
    ensures OooOk(Seek(s)) && OooLive(Seek(s))
  {
    if s.ooo < 0 && s.cursor == 0 {
      ScanFindsWhole(s.slots, 0, -1, -1);
      forall o: nat | Whole(s.slots, o)
        ensures ScanOoo(s.slots, 0, -1, -1) >= 0
      {
        ScanMissesNone(s.slots, 0, -1, -1, o);
      }
    }
  }

  // ---------------------------------------------------------------- arrivals

  /** Leftward from a packet that does not start its message, the scan reaches the packet that does. */
  lemma {:induction false} LeftIsRun(base: int, slots: seq<Entry>, st: Stream, i: int, p: Packet)
    requires WellFormed(st) && FaithfulSlots(base, slots, st)
    requires -1 <= i < |slots| - 1 && slots[i + 1].unit.Some? && slots[i + 1].unit.value == p && !p.first
    ensures var r := ScanLeft(slots, i, p.msgno);
      r >= 0 ==> IsFirst(slots[r]) && forall k :: r <= k <= i ==>
        slots[k].unit.Some? && slots[k].unit.value.msgno == p.msgno && slots[k].unit.value.inOrder == p.inOrder
    decreases i + 1
  {
    if i >= 0 && slots[i].unit.Some? && slots[i].unit.value.msgno == p.msgno {
      NeighboursFollow(base, slots, st, i);
      if !IsFirst(slots[i]) {
        LeftIsRun(base, slots, st, i - 1, slots[i].unit.value);
      }
    }
  }

  lemma {:induction false} RightIsRun(base: int, slots: seq<Entry>, st: Stream, i: nat, p: Packet)
    requires WellFormed(st) && FaithfulSlots(base, slots, st)
    requires 0 < i <= |slots| && slots[i - 1].unit.Some? && slots[i - 1].unit.value == p && !p.last
    ensures var r := ScanRight(slots, i, p.msgno);
      r >= 0 ==> i <= r && IsLast(slots[r]) && forall k :: i <= k <= r ==>
        slots[k].unit.Some? && slots[k].unit.value.msgno == p.msgno && slots[k].unit.value.inOrder == p.inOrder
    decreases |slots| - i
  {
    if i < |slots| && slots[i].unit.Some? && slots[i].unit.value.msgno == p.msgno {
      NeighboursFollow(base, slots, st, i - 1);
      if !IsLast(slots[i]) {
        RightIsRun(base, slots, st, i + 1, slots[i].unit.value);
      }
    }
  }

  /** What an arrival makes the buffer remember is a message stored in full. */
  lemma InsertFindsWhole(base: int, slots: seq<Entry>, st: Stream, off: nat)
    requires WellFormed(st) && FaithfulSlots(base, slots, st)
    requires off < |slots| && slots[off].unit.Some? && !slots[off].unit.value.inOrder
    ensures var r := OnInsertUnordered(slots, off, -1); r >= 0 ==> Whole(slots, r)
  {
    hide ScanLeft, ScanRight, FaithfulSlots;
    var p := slots[off].unit.value;
    var r := OnInsertUnordered(slots, off, -1);
    if r >= 0 {
      var e := off;
      if !p.last {
        RightIsRun(base, slots, st, off + 1, p);
        e := ScanRight(slots, off + 1, p.msgno);
      }
      if !p.first {
        LeftIsRun(base, slots, st, off - 1, p);
      }
      RunIsReadable(slots, r, e, p.msgno);
    }
  }

  lemma {:induction false} LeftReaches(slots: seq<Entry>, o: nat, i: int, m: nat)
    requires o <= i < |slots| && IsFirst(slots[o])
    requires forall k :: o <= k <= i ==> MayRead(slots[k], m)
    ensures ScanLeft(slots, i, m) >= 0
    decreases i + 1
  {
    assert MayRead(slots[i], m);
    if !IsFirst(slots[i]) {
      LeftReaches(slots, o, i - 1, m);
    }
  }

  lemma {:induction false} RightReaches(slots: seq<Entry>, i: nat, e: nat, m: nat)
    requires i <= e < |slots| && IsLast(slots[e])
    requires forall k :: i <= k <= e ==> MayRead(slots[k], m)
    ensures ScanRight(slots, i, m) >= 0
    decreases e - i
  {
    assert MayRead(slots[i], m);
    if !IsLast(slots[i]) {
      RightReaches(slots, i + 1, e, m);
    }
  }

  /** The arrival that completes a message makes the buffer remember one. */
  lemma CompletingIsFound(slots: seq<Entry>, off: nat, o: nat)
    requires Whole(slots, o) && o <= off <= LastSlot(slots, o, slots[o].unit.value.msgno)
    ensures slots[off].unit.Some? && !slots[off].unit.value.inOrder && OnInsertUnordered(slots, off, -1) >= 0
  {
    hide ScanLeft, ScanRight;
    var m := slots[o].unit.value.msgno;
    var e := LastSlot(slots, o, m);
    assert MayRead(slots[off], m);
    if off < e {
      RightReaches(slots, off + 1, e, m);
    }
    if o < off {
      LeftReaches(slots, o, off - 1, m);
    }
  }

  lemma InsertOoo(s: State, st: Stream, q: int, p: Packet)
    requires Good(s) && s.messageApi && OooOk(s) && OooLive(s)
    requires WellFormed(st) && Faithful(Insert(s, q, p).0, st)
    ensures OooOk(Insert(s, q, p).0) && OooLive(Insert(s, q, p).0)
  {
    hide ScanLeft, ScanRight, ScanEnd, CheckOoo, SlotsOk, WellFormed, OnInsertUnordered;
    var r := Insert(s, q, p);
    if r.1 == 0 {
      var off := q - s.base;
      var slots := r.0.slots;
      assert HeldStays(s.slots, slots) by { OnlyEmptyFilled(s, off, p); }
      if s.ooo >= 0 {
        HeldKeepsWhole(s.slots, slots, s.ooo);
        RememberedStays(slots, off, s.ooo);
      } else {
        if !p.inOrder {
          InsertFindsWhole(s.base, slots, st, off);
        }
        forall o: nat | s.cursor == 0 && Whole(slots, o) && r.0.ooo < 0
          ensures false
        {
          NewWholeHasNew(s.slots, slots, off, o);
          CompletingIsFound(slots, off, o);
        }
      }
    }
  }

  lemma RememberedStays(slots: seq<Entry>, off: nat, ooo: int)
    requires 0 <= ooo < |slots| && off < |slots| && slots[off].unit.Some?
    ensures OnInsertUnordered(slots, off, ooo) == ooo
  {
  }

  ghost predicate HeldStays(a: seq<Entry>, b: seq<Entry>) {
    |a| == |b| && forall k :: 0 <= k < |a| && a[k].unit.Some? ==> b[k] == a[k]
  }

  lemma OnlyEmptyFilled(s: State, off: nat, p: Packet)
    requires Inv(s) && off < |s.slots| && s.slots[off].status == Empty
    ensures HeldStays(s.slots, s.slots[off := Entry(Some(p), Avail)])
  {
  }

  lemma WholeRun(a: seq<Entry>, o: nat)
    requires Whole(a, o)
    ensures var m := a[o].unit.value.msgno; var e := LastSlot(a, o, m);
      o <= e < |a| && forall k :: o <= k <= e ==> MayRead(a[k], m)
  {
  }

  lemma HeldKeepsWhole(a: seq<Entry>, b: seq<Entry>, o: nat)
    requires HeldStays(a, b) && Whole(a, o)
    ensures Whole(b, o)
  {
    hide CheckOoo, LastSlot;
    WholeRun(a, o);
    WholeLocal(a, b, o, 0);
  }

  /** A message that is complete only after a slot was filled includes that slot. */
  lemma NewWholeHasNew(a: seq<Entry>, b: seq<Entry>, off: nat, o: nat)
    requires |a| == |b| && off < |a| && b == a[off := b[off]] && Whole(b, o) && !Whole(a, o)
    ensures o <= off <= LastSlot(b, o, b[o].unit.value.msgno)
  {
    var e := LastSlot(b, o, b[o].unit.value.msgno);
    if off < o || e < off {
      WholeLocal(b, a, o, 0);
    }
  }

  // ---------------------------------------------------------------- moving the start

  /** A message stored beyond the passed slots is still there, `k` slots closer. */
  lemma ShiftKeepsWhole(slots: seq<Entry>, o: nat, k: nat)
    requires Whole(slots, o) && k <= o
    ensures Whole(Shift(slots, k), o - k)
  {
    WholeLocal(slots, Shift(slots, k), o - k, k);
  }

  /** A remembered message with none of its packets among the first `k` slots survives the move. */
  lemma MoveOoo(s: State, k: nat, rescan: bool)
    requires Inv(s) && s.messageApi && OooOk(s) && (s.ooo >= 0 ==> k <= s.ooo)
    ensures var t := Seek(Move(s, k, rescan)); OooOk(t) && OooLive(t)
  {
    hide Seek, Shift, ScanEnd, FillerRun, SlotsOk, CursorOk, CheckOoo;
    var f := FillerRun(Shift(s.slots, k), 0);
    MoveIsPass(s, k, rescan);
    MoveKeeps(s, k, rescan);
    if s.ooo >= 0 {
      ShiftKeepsWhole(s.slots, s.ooo, k);
      FillersBeforeWhole(s, k);
      ShiftKeepsWhole(s.slots, s.ooo, k + f);
    }
    SeekFinds(Move(s, k, rescan));
  }

  lemma FillersBeforeWhole(s: State, k: nat)
    requires Inv(s) && 0 <= s.ooo && k <= s.ooo && Whole(s.slots, s.ooo)
    ensures k + FillerRun(Shift(s.slots, k), 0) <= s.ooo
  {
    FillerRunMeaning(Shift(s.slots, k), 0);
    assert Shift(s.slots, k)[s.ooo - k] == s.slots[s.ooo];
  }

  // ---------------------------------------------------------------- reads

  /** A message read in order ends before any other message begins. */
  lemma StopBeforeOther(s: State, st: Stream)
    requires Inv(s) && WellFormed(st) && Faithful(s, st) && s.ooo > 0 && Whole(s.slots, s.ooo)
    ensures ReadStop(s.slots, 0).0 <= s.ooo
  {
    var stop := ReadStop(s.slots, 0).0;
    ReadStopMeaning(s.slots, 0);
    if s.ooo < stop {
      NeighboursFollow(s.base, s.slots, st, s.ooo - 1);
      assert false;
    }
  }

  /** Reading a whole message ends at its last packet. */
  lemma {:induction false} StopAtLast(slots: seq<Entry>, i: nat, m: nat)
    requires i <= |slots| && CheckOoo(slots, i, m)
    ensures ReadStop(slots, i).1
    decreases |slots| - i
  {
    if !IsLast(slots[i]) {
      StopAtLast(slots, i + 1, m);
    }
  }

  lemma ReadOoo(s: State, st: Stream)
    requires Good(s) && s.messageApi && OooOk(s) && OooLive(s)
    requires WellFormed(st) && Faithful(s, st)
    ensures OooOk(ReadMessage(s)) && OooLive(ReadMessage(s))
  {
    hide Move, Seek, SlotsOk, CursorOk, CheckOoo, MarkRead, WellFormed, Faithful, OooLive;
    var ro := ReadFrom(s);
    if ro >= 0 {
      if ro == s.ooo {
        StopAtLast(s.slots, ro, s.slots[ro].unit.value.msgno);
      }
      var (stop, ended) := ReadStop(s.slots, ro);
      var s1 := if ended && ro == s.ooo then s.(ooo := -1) else s;
      if ro == 0 {
        if s.ooo > 0 {
          StopBeforeOther(s, st);
        }
        MoveOoo(s1, stop, false);
      } else {
        StopBelowEnd(s, ro);
        MarkReadKeeps(s1, ro, stop);
        MoveOoo(s1.(slots := MarkRead(s.slots, ro, stop)), 0, false);
      }
    }
  }

  // ---------------------------------------------------------------- drops

  lemma DropToOoo(s: State, q: int)
    requires Good(s) && s.messageApi && OooOk(s) && OooLive(s)
    ensures OooOk(DropUpTo(s, q).0) && OooLive(DropUpTo(s, q).0)
  {
    hide Move, Seek, SlotsOk, CursorOk, OooLive;
    if q > s.base {
      if s.ooo >= 0 {
        assert Counted(s.slots[s.ooo], true);
      }
      MoveOoo(ForgetOoo(s, q - s.base), q - s.base, true);
    }
  }

  lemma DropMessageOoo(s: State, lo: int, hi: int, msgno: int, keep: bool)
    requires Good(s) && s.messageApi && OooOk(s) && OooLive(s) && lo <= hi && lo - s.base < |s.slots| - 1
    ensures var t := DropMessage(s, lo, hi, msgno, keep).0; OooOk(t) && OooLive(t)
  {
    hide DroppedCursor, SlotsOk, CursorOk, DropSlots, StillReadable, OooLive, OooOk, Seek;
    CursorInside(s);
    if s.base <= hi {
      var t := DroppedCursor(s, DropSlots(s, lo, hi, msgno, keep).0);
      var u := if t.ooo >= 0 && !StillReadable(t.slots, t.ooo) then t.(ooo := -1) else t;
      DroppedKeeps(s, lo, hi, msgno, keep);
      KeptIsWhole(s, lo, hi, msgno, keep);
      SeekFinds(u);
    }
  }

  /** What is kept remembered after drops still starts a message: its slot was not touched. */
  lemma KeptIsWhole(s: State, lo: int, hi: int, msgno: int, keep: bool)
    requires Good(s) && OooOk(s) && lo <= hi && s.base <= hi && lo - s.base < |s.slots| - 1
    ensures var t := DroppedCursor(s, DropSlots(s, lo, hi, msgno, keep).0);
      OooOk(if t.ooo >= 0 && !StillReadable(t.slots, t.ooo) then t.(ooo := -1) else t)
  {
    hide ScanEnd, FillerRun, SlotsOk, CursorOk, DropSlots, Touched, CheckOoo;
    var slots := DropSlots(s, lo, hi, msgno, keep).0;
    DropSlotsKeeps(s, lo, hi, msgno, keep);
    SkipSettles(s.(slots := slots));
  }

  /** With an exact cursor at the start, what is remembered out of order is further on. */
  lemma ExactIsNotWholeAtStart(s: State)
    requires Inv(s) && s.messageApi && OooOk(s) && s.cursor == 0 == ScanEnd(s.slots, true, 0)
    ensures s.ooo != 0
  {
    hide SlotsOk;
    if s.ooo == 0 {
      WholeIsComplete(s.slots, 0, s.slots[0].unit.value.msgno);
    }
  }

  lemma {:induction false} WholeIsComplete(slots: seq<Entry>, i: nat, msgno: nat)
    requires i < |slots| && CheckOoo(slots, i, msgno)
    ensures MsgEnd(slots, true, i) >= 0
    decreases |slots| - i
  {
    if !IsLast(slots[i]) {
      WholeIsComplete(slots, i + 1, msgno);
    }
  }

  // ---------------------------------------------------------------- runs on a stream

  /** Every arrival of the run is a packet of the stream: in any order, any number of times, or never. */
  ghost predicate OnStream(e: Event, st: Stream) {
    e.Arrive? ==> 0 <= e.q - st.isn < |st.pk| && e.p == st.pk[e.q - st.isn]
  }

  /** What is stored in `t` was stored in `s` under the same sequence number. */
  ghost predicate NothingNew(s: State, t: State) {
    forall k :: 0 <= k < |t.slots| && t.slots[k].unit.Some? ==>
      0 <= t.base + k - s.base < |s.slots| && s.slots[t.base + k - s.base] == t.slots[k]
  }

  lemma NothingNewFaithful(s: State, t: State, st: Stream)
    requires NothingNew(s, t) && Faithful(s, st)
    ensures Faithful(t, st)
  {
  }

  lemma MoveNothingNew(s: State, s0: State, k: nat, rescan: bool)
    requires Inv(s0) && NothingNew(s, s0)
    ensures NothingNew(s, Seek(Move(s0, k, rescan)))
  {
    hide ScanEnd, FillerRun, Back, SlotsOk, CursorOk, ScanOoo;
    MoveIsPass(s0, k, rescan);
  }

  lemma MarkReadNothingNew(s: State, o: int, a: nat, b: nat)
    ensures NothingNew(s, s.(ooo := o)) && NothingNew(s, s.(slots := MarkRead(s.slots, a, b), ooo := o))
  {
  }

  lemma ReadNothingNew(s: State)
    requires Inv(s)
    ensures NothingNew(s, ReadMessage(s))
  {
    hide Move, Seek, SlotsOk, CursorOk, MarkRead, NothingNew, ReadStop;
    var ro := ReadFrom(s);
    MarkReadNothingNew(s, s.ooo, 0, 0);
    if ro >= 0 {
      var (stop, ended) := ReadStop(s.slots, ro);
      var s1 := if ended && ro == s.ooo then s.(ooo := -1) else s;
      MarkReadNothingNew(s, s1.ooo, ro, stop);
      if ro == 0 {
        MoveNothingNew(s, s1, stop, false);
      } else {
        StopBelowEnd(s, ro);
        MarkReadKeeps(s1, ro, stop);
        MoveNothingNew(s, s1.(slots := MarkRead(s.slots, ro, stop)), 0, false);
      }
    }
  }

  lemma DropToNothingNew(s: State, q: int)
    requires Inv(s)
    ensures NothingNew(s, DropUpTo(s, q).0)
  {
    hide Move, Seek, SlotsOk, CursorOk;
    if q > s.base {
      MoveNothingNew(s, ForgetOoo(s, q - s.base), q - s.base, true);
    }
  }

  lemma DropMessageNothingNew(s: State, lo: int, hi: int, msgno: int, keep: bool)
    requires Inv(s) && lo <= hi && lo - s.base < |s.slots| - 1
    ensures NothingNew(s, DropMessage(s, lo, hi, msgno, keep).0)
  {
    hide ScanEnd, FillerRun, Back, SlotsOk, CursorOk, ScanOoo, DropSlots, Touched, StillReadable;
    if s.base <= hi {
      DropSlotsKeeps(s, lo, hi, msgno, keep);
    }
  }

  lemma StepFaithful(s: State, st: Stream, e: Event)
    requires Good(s) && Legal(s, e) && Faithful(s, st) && OnStream(e, st)
    ensures Faithful(Step(s, e), st)
  {
    hide ReadMessage, DropUpTo, DropMessage, ScanEnd, OnInsertUnordered, SlotsOk, CursorOk, Faithful, NothingNew;
    match e
    case Arrive(q, p) => InsertFaithful(s, st, q, p);
    case ReadOne => ReadNothingNew(s); NothingNewFaithful(s, ReadMessage(s), st);
    case DropTo(q) => DropToNothingNew(s, q); NothingNewFaithful(s, DropUpTo(s, q).0, st);
    case DropMsg(lo, hi, msgno, keep) =>
      DropMessageNothingNew(s, lo, hi, msgno, keep);
      NothingNewFaithful(s, DropMessage(s, lo, hi, msgno, keep).0, st);
  }

  lemma InsertFaithful(s: State, st: Stream, q: int, p: Packet)
    requires Inv(s) && Faithful(s, st) && OnStream(Arrive(q, p), st)
    ensures Faithful(Insert(s, q, p).0, st)
  {
    hide ScanEnd, OnInsertUnordered, SlotsOk, CursorOk;
  }

  ghost predicate OooInv(s: State, st: Stream) {
    s.messageApi && Faithful(s, st) && OooOk(s) && OooLive(s)
  }

  lemma StepOoo(s: State, st: Stream, e: Event)
    requires Good(s) && Legal(s, e) && WellFormed(st) && OooInv(s, st) && OnStream(e, st)
    ensures OooInv(Step(s, e), st)
  {
    hide Insert, ReadMessage, DropUpTo, DropMessage, SlotsOk, CursorOk, Faithful, OooOk, OooLive, WellFormed;
    StepFaithful(s, st, e);
    StepKeeps(s, e);
    match e
    case Arrive(q, p) => InsertOoo(s, st, q, p);
    case ReadOne => ReadOoo(s, st);
    case DropTo(q) => DropToOoo(s, q);
    case DropMsg(lo, hi, msgno, keep) => DropMessageOoo(s, lo, hi, msgno, keep);
  }

  lemma InitialOoo(st: Stream, size: nat)
    requires size > 0
    ensures OooInv(Initial(st.isn, size, true), st) && Good(Initial(st.isn, size, true))
  {
  }

  lemma {:induction false} RunOoo(s: State, st: Stream, es: seq<Event>, i: nat)
    requires Good(s) && WellFormed(st) && OooInv(s, st) && LegalRun(s, es) && i <= |es|
    requires forall j :: 0 <= j < |es| ==> OnStream(es[j], st)
    ensures OooInv(At(s, es, i), st)
    decreases i
  {
    hide OooInv, Good, WellFormed, OnStream, Step, Legal, LegalRun;
    if i > 0 {
      RunOoo(s, st, es, i - 1);
      AtStep(s, es, i - 1);
      StepOoo(At(s, es, i - 1), st, es[i - 1]);
    }
  }

  /** The packets are one message in full: only the last ends it, all carry its number and may be read out of order. */
  predicate OneWholeMessage(ps: seq<Packet>) {
    && ps != [] && ps[0].first && ps[|ps| - 1].last
    && (forall k :: 0 <= k < |ps| - 1 ==> !ps[k].last)
    && (forall k :: 0 <= k < |ps| ==> ps[k].msgno == ps[0].msgno && !ps[k].inOrder)
  }

  /**
    Over every run: the remembered position is that of a whole message, a read never stops at a
    missing packet, an out-of-order read returns exactly one whole message, and a buffer that
    reports nothing to read holds no whole message that may be read out of order.
   */
  lemma OutOfOrderReads(st: Stream, size: nat, es: seq<Event>, i: nat)
    requires size > 0 && WellFormed(st) && Good(Initial(st.isn, size, true))
    requires LegalRun(Initial(st.isn, size, true), es) && i <= |es|
    requires forall j :: 0 <= j < |es| ==> OnStream(es[j], st)
    ensures var s := At(Initial(st.isn, size, true), es, i);
      && (s.ooo >= 0 ==> Whole(s.slots, s.ooo))
      && (ReadFrom(s) >= 0 ==> ReadStop(s.slots, ReadFrom(s)).1)
      && (s.cursor == 0 && s.ooo >= 0 ==> OneWholeMessage(ReadPackets(s)))
      && (ReadFrom(s) < 0 ==> forall o: nat :: !Whole(s.slots, o))
  {
    InitialOoo(st, size);
    RunOoo(Initial(st.isn, size, true), st, es, i);
    var s := At(Initial(st.isn, size, true), es, i);
    ReadEnds(s);
  }

  lemma ReadEnds(s: State)
    requires Inv(s) && s.messageApi && OooOk(s)
    ensures ReadFrom(s) >= 0 ==> ReadStop(s.slots, ReadFrom(s)).1
    ensures s.cursor == 0 && s.ooo >= 0 ==> OneWholeMessage(ReadPackets(s))
  {
    hide SlotsOk;
    if s.cursor > 0 {
      StopBeforeCursor(s.slots, 0, s.cursor - 1);
    } else if s.ooo >= 0 {
      var m := s.slots[s.ooo].unit.value.msgno;
      StopAtLast(s.slots, s.ooo, m);
      ReadStopMeaning(s.slots, s.ooo);
      var e := LastSlot(s.slots, s.ooo, m);
      StopIsLast(s.slots, s.ooo, m);
    }
  }

  lemma {:induction false} StopIsLast(slots: seq<Entry>, i: nat, m: nat)
    requires i <= |slots| && CheckOoo(slots, i, m)
    ensures ReadStop(slots, i).0 == LastSlot(slots, i, m) + 1
    decreases |slots| - i
  {
    if !IsLast(slots[i]) {
      StopIsLast(slots, i + 1, m);
    }
  }

  lemma {:induction false} StopBeforeCursor(slots: seq<Entry>, i: nat, e: nat)
    requires i <= e < |slots| && IsLast(slots[e]) && forall k :: i <= k <= e ==> slots[k].unit.Some?
    ensures ReadStop(slots, i).1 && ReadStop(slots, i).0 <= e + 1
    decreases e - i
  {
    if !IsLast(slots[i]) {
      StopBeforeCursor(slots, i + 1, e);
    }
  }
}

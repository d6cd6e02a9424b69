/**
  What each receiver operation stores, keeps and refuses, number by number: which arrivals are
  accepted, which packets a read or a drop takes out, and how far the start moves. None of it
  looks at how the operations are computed.
 */
module ReceiverExact {
  import opened Arith
  import opened Packets
  import opened SeqNo
  import opened ReceiverSpec
  import opened ReceiverInvariant
  import opened ReceiverRuns
  import opened ReceiverStream
  import opened Streams

  /** The buffer has a slot for number `q`. */
  predicate InWindow(s: State, q: int) {
    0 <= q - s.base < |s.slots| - 1
  }

  /** Number `r` is stored in `t` with the packet it has in `s`. */
  predicate SameStored(s: State, t: State, r: int) {
    Stored(s, r) && Stored(t, r) && t.slots[r - t.base] == s.slots[r - s.base]
  }

  // ---------------------------------------------------------------- arrivals

  /**
    An arrival is accepted if and only if the buffer has a slot for its number and the number is
    neither stored nor delivered nor dropped; the other answers tell which of these failed. An
    accepted packet is stored as it is, and no other slot changes.
   */
  lemma InsertExact(s: State, q: int, p: Packet, r: int)
    requires Inv(s) && p.seqno == Wrap(q)
    ensures var (t, code) := Insert(s, q, p);
      && (code == 0 <==> InWindow(s, q) && !Consumed(s, q) && !Stored(s, q))
      && (code == -1 <==> InWindow(s, q) && (Consumed(s, q) || Stored(s, q)))
      && (code == -2 <==> q < s.base)
      && (code == -3 <==> q >= s.base + |s.slots| - 1)
      && t.base == s.base && |t.slots| == |s.slots|
      && (code == 0 ==> Stored(t, q) && t.slots[q - t.base].unit.value == p)
      && (r != q ==> (Stored(t, r) <==> Stored(s, r)) && (Stored(s, r) ==> SameStored(s, t, r)))
      && (r != q || code != 0 ==> (Consumed(t, r) <==> Consumed(s, r)))
      && (code != 0 ==> t.slots == s.slots)
  {
    hide ScanEnd, OnInsertUnordered, CursorOk;
  }

  // ---------------------------------------------------------------- drops up to a number

  /** Where the start is after a move, and what it then has in front of it. */
  lemma MoveFields(s: State, k: nat, rescan: bool)
    requires Inv(s)
    ensures var t, f := Seek(Move(s, k, rescan)), FillerRun(Shift(s.slots, k), 0);
      && t.base == s.base + k + f && t.slots == Shift(s.slots, k + f)
      && (f > 0 ==> k + f < |s.slots|)
      && forall i :: k <= i < k + f && i < |s.slots| ==> Filler(s.slots[i]) && s.slots[i].unit.None?
  {
    hide Back, ScanEnd, ScanOoo, CursorOk, SlotsOk;
    var f := FillerRun(Shift(s.slots, k), 0);
    MoveIsPass(s, k, rescan);
    FillerRunMeaning(Shift(s.slots, k), 0);
    hide FillerRun, Shift;
    FillersInside(s, k, f);
  }

  /** Moving the start over `k` slots and the fillers behind them. */
  lemma MoveExact(s: State, k: nat, rescan: bool, r: int)
    requires Inv(s)
    ensures var t := Seek(Move(s, k, rescan));
      && s.base + k <= t.base && |t.slots| == |s.slots|
      && (Stored(t, r) <==> Stored(s, r) && r >= s.base + k)
      && (Stored(t, r) ==> SameStored(s, t, r))
      && (s.base + k <= r < t.base ==> Consumed(s, r))
  {
    hide Move, Seek, SlotsOk, CursorOk, FillerRun;
    MoveFields(s, k, rescan);
    var n := k + FillerRun(Shift(s.slots, k), 0);
    ShiftKeeps(s.slots, n, r - s.base);
  }

  lemma ShiftKeeps(slots: seq<Entry>, n: nat, i: int)
    ensures n <= i < |slots| ==> Shift(slots, n)[i - n] == slots[i]
    ensures |slots| <= i < |slots| + n && n <= i ==> Shift(slots, n)[i - n].unit.None?
  {
  }

  lemma FillersInside(s: State, k: nat, f: nat)
    requires SlotsOk(s.base, s.slots, s.maxOff) && f < |s.slots| && forall i :: 0 <= i < f ==> Filler(Shift(s.slots, k)[i])
    ensures f > 0 ==> k + f < |s.slots|
    ensures forall i :: k <= i < k + f && i < |s.slots| ==> Filler(s.slots[i]) && s.slots[i].unit.None?
  {
    if f > 0 {
      assert Filler(Shift(s.slots, k)[f - 1]);
    }
    forall i | k <= i < k + f && i < |s.slots|
      ensures Filler(s.slots[i])
    {
      assert Shift(s.slots, k)[i - k] == s.slots[i];
    }
  }

  /**
    A drop up to number `q` removes what is stored before `q` and nothing else, reports how many
    numbers that is, and moves the start to `q` and from there only over numbers that were
    delivered or dropped before.
   */
  lemma DropUpToExact(s: State, q: int, r: int)
    requires Inv(s)
    ensures var (t, cnt) := DropUpTo(s, q);
      && cnt == Max(0, q - s.base)
      && (Stored(t, r) <==> Stored(s, r) && r >= q)
      && (Stored(t, r) ==> SameStored(s, t, r))
      && Max(s.base, q) <= t.base
      && (Max(s.base, q) <= r < t.base ==> Consumed(s, r))
      && (q <= s.base ==> t == s)
  {
    hide Move, Seek, SlotsOk, CursorOk;
    if q > s.base {
      var s0 := ForgetOoo(s, q - s.base);
      MoveExact(s0, q - s.base, true, r);
    }
  }

  /** The read cursor after it: where it was, or, if the start passed that, behind what is readable from the start on. */
  lemma DropUpToCursor(s: State, q: int)
    requires Inv(s)
    ensures var t := DropUpTo(s, q).0;
      && (t.base <= s.base + s.cursor ==> t.base + t.cursor == s.base + s.cursor)
      && (t.base > s.base + s.cursor ==> 0 <= t.cursor == ScanEnd(t.slots, t.messageApi, 0))
  {
    hide Back, ScanEnd, ScanOoo, SlotsOk, CursorOk, Shift;
    CursorInside(s);
  }

  // ---------------------------------------------------------------- reads

  /** A read takes out exactly the packets it delivers; the start passes only these and fillers. */
  lemma ReadMessageExact(s: State, r: int)
    requires Good(s)
    ensures var t := ReadMessage(s);
      && (Stored(t, r) <==> Stored(s, r) && !Delivers(s, ReadOne, r))
      && (Stored(t, r) ==> SameStored(s, t, r))
      && s.base <= t.base
      && (s.base <= r < t.base ==> Delivers(s, ReadOne, r) || Consumed(s, r))
  {
    hide Move, Seek, SlotsOk, CursorOk, ReadStop;
    CursorInside(s);
    var ro := ReadFrom(s);
    if ro >= 0 {
      var (stop, ended) := ReadStop(s.slots, ro);
      var s1 := if ended && ro == s.ooo then s.(ooo := -1) else s;
      StopBelowEnd(s, ro);
      if ro == 0 {
        MoveExact(s1, stop, false, r);
      } else {
        MarkReadKeeps(s1, ro, stop);
        MoveExact(s1.(slots := MarkRead(s.slots, ro, stop)), 0, false, r);
      }
    }
  }

  /** What is readable in order is read first, from the start on, whatever is remembered out of order. */
  lemma InOrderFirst(s: State)
    requires Good(s) && s.cursor > 0
    ensures Delivers(s, ReadOne, s.base) && Stored(s, s.base) && !Stored(ReadMessage(s), s.base)
  {
    hide Move, Seek, SlotsOk, ReadMessage;
    CursorInside(s);
    ReadMessageExact(s, s.base);
  }

  /** A search for a message readable out of order happens only while nothing is readable in order. */
  lemma SearchesWhenIdle(s: State, e: Event)
    requires Good(s) && Legal(s, e) && !e.Arrive? && s.ooo < 0 && Step(s, e).cursor > 0
    ensures Step(s, e).ooo < 0
  {
    hide ScanEnd, ScanOoo, SlotsOk, CursorOk, Shift, ReadStop, DropSlots, Touched, StillReadable, FillerRun, MarkRead;
    CursorInside(s);
  }

  // ---------------------------------------------------------------- message drops

  /** The backward search for message `msgno` goes on behind the stored packet `j`. */
  predicate Continues(s: State, j: int, msgno: int, keep: bool)
    requires Stored(s, j)
  {
    var p := s.slots[j - s.base].unit.value;
    p.msgno == msgno && !(p.first && (keep || !p.last))
  }

  /** No stored packet of the range starts a message, except for messages of one packet that are dropped. */
  ghost predicate NoneStarts(s: State, lo: int, hi: int, keep: bool) {
    forall k :: lo <= k <= hi && Stored(s, k) ==> Continues(s, k, s.slots[k - s.base].unit.value.msgno, keep)
  }

  /** Packet `r` of message `msgno` is reached going back from `lo` over packets of that message alone. */
  ghost predicate LostBefore(s: State, lo: int, hi: int, msgno: int, keep: bool, r: int) {
    && msgno > 0 && NoneStarts(s, lo, hi, keep)
    && r < lo && Stored(s, r) && s.slots[r - s.base].unit.value.msgno == msgno && !KeptSolo(s, r, keep)
    && forall j :: r < j < lo && Stored(s, j) ==> Continues(s, j, msgno, keep)
  }

  /**
    A message drop loses exactly the packets of its range, except messages to be kept, and, when
    no packet of the range starts the message, those before it that the message runs back to.
    The start passes only numbers consumed before and numbers dropped.
   */
  lemma DropMessageExact(s: State, lo: int, hi: int, msgno: int, keep: bool, r: int)
    requires Inv(s) && lo <= hi && lo - s.base < |s.slots| - 1
    ensures var t := DropMessage(s, lo, hi, msgno, keep).0;
      && (Stored(t, r) ==> SameStored(s, t, r))
      && (s.base <= hi ==> (Stored(t, r) <==>
            Stored(s, r) && !(lo <= r <= hi && !KeptSolo(s, r, keep)) && !LostBefore(s, lo, hi, msgno, keep, r)))
      && (hi < s.base ==> t == s)
      && s.base <= t.base
      && (s.base <= r < t.base ==> Consumed(s, r) || lo <= r <= hi || (Stored(s, r) && !Stored(t, r)))
  {
    hide SlotsOk, CursorOk, DropSlots, ScanEnd, Touched, Seek, StillReadable, SkipFillers, Back, LostBefore, KeptSolo;
    CursorInside(s);
    if s.base <= hi {
      var slots := DropSlots(s, lo, hi, msgno, keep).0;
      DropSlotsKeeps(s, lo, hi, msgno, keep);
      SkipStored(s.(slots := slots), r);
      SkipMoves(s.(slots := slots), r);
      ChangedSlot(s, lo, hi, msgno, keep, r);
      if Stored(s, r) {
        LostByDrop(s, lo, hi, msgno, keep, r);
      }
    }
  }

  lemma SkipMoves(s: State, r: int)
    requires SlotsOk(s.base, s.slots, s.maxOff) && -1 <= s.ooo < |s.slots|
    ensures s.base <= SkipFillers(s).base <= s.base + |s.slots|
    ensures s.base <= r < SkipFillers(s).base ==> Filler(s.slots[r - s.base]) && s.slots[r - s.base].unit.None?
  {
    hide Back;
    FillerRunMeaning(s.slots, 0);
  }

  /** A drop changes only slots of its range and stored packets. */
  lemma ChangedSlot(s: State, lo: int, hi: int, msgno: int, keep: bool, r: int)
    requires Inv(s) && lo <= hi && s.base <= hi && lo - s.base < |s.slots| - 1
    ensures 0 <= r - s.base < |s.slots| && DropSlots(s, lo, hi, msgno, keep).0[r - s.base] != s.slots[r - s.base] ==>
      lo <= r <= hi || Stored(s, r)
  {
    hide Wrap, DropLeft, NoFirstIn, SlotsOk, CursorOk;
    CursorInside(s);
    var a: nat, b: nat := Max(0, lo - s.base), Min(|s.slots| - 1, hi - s.base + 1);
    DropLeftMeaning(MarkDrop(s.slots, a, b, keep), a, msgno, keep);
  }

  lemma LostByDrop(s: State, lo: int, hi: int, msgno: int, keep: bool, r: int)
    requires Inv(s) && lo <= hi && s.base <= hi && lo - s.base < |s.slots| - 1 && Stored(s, r)
    ensures var e := DropSlots(s, lo, hi, msgno, keep).0[r - s.base];
      && (e == s.slots[r - s.base] || e.unit.None?)
      && (e.unit.None? <==> (lo <= r <= hi && !KeptSolo(s, r, keep)) || LostBefore(s, lo, hi, msgno, keep, r))
  {
    hide Wrap, DropLeft, MarkDrop, LostBefore, NoFirstIn, PassesBack, Kept, KeptSolo;
    var a: nat, b: nat := Max(0, lo - s.base), Min(|s.slots| - 1, hi - s.base + 1);
    var marked := MarkDrop(s.slots, a, b, keep);
    assert r - s.base < |s.slots| - 1;
    MarkedAt(s, lo, hi, keep, r);
    StartsIff(s, lo, hi, keep);
    NotLost(s, lo, hi, msgno, keep, r);
    if msgno > 0 && NoFirstIn(s.slots, a, b, keep) {
      DropLeftClosed(marked, a, msgno, keep);
      BackIff(s, lo, hi, msgno, keep, r);
    }
  }

  lemma NotLost(s: State, lo: int, hi: int, msgno: int, keep: bool, r: int)
    ensures !(msgno > 0 && NoneStarts(s, lo, hi, keep) && r < lo) ==> !LostBefore(s, lo, hi, msgno, keep, r)
  {
  }

  lemma MarkedAt(s: State, lo: int, hi: int, keep: bool, r: int)
    requires Inv(s) && lo <= hi && s.base <= hi && lo - s.base < |s.slots| - 1 && Stored(s, r)
    ensures var a: nat, b: nat := Max(0, lo - s.base), Min(|s.slots| - 1, hi - s.base + 1);
      var e := MarkDrop(s.slots, a, b, keep)[r - s.base];
      e == if lo <= r <= hi && !KeptSolo(s, r, keep) then Entry(None, Drop) else s.slots[r - s.base]
  {
    hide Wrap, CursorOk;
    assert s.slots[r - s.base].status != Drop;
  }

  lemma StartsIff(s: State, lo: int, hi: int, keep: bool)
    requires Inv(s) && lo <= hi && s.base <= hi && lo - s.base < |s.slots| - 1
    ensures var a: nat, b: nat := Max(0, lo - s.base), Min(|s.slots| - 1, hi - s.base + 1);
      NoFirstIn(s.slots, a, b, keep) <==> NoneStarts(s, lo, hi, keep)
  {
    hide Wrap, CursorOk;
    var a: nat, b: nat := Max(0, lo - s.base), Min(|s.slots| - 1, hi - s.base + 1);
    if NoFirstIn(s.slots, a, b, keep) {
      assert forall k :: lo <= k <= hi && Stored(s, k) ==> a <= k - s.base < b;
    }
    if NoneStarts(s, lo, hi, keep) {
      forall k | a <= k < b
        ensures !(IsFirst(s.slots[k]) && (keep || !IsLast(s.slots[k])))
      {
        if s.slots[k].unit.Some? {
          assert Stored(s, s.base + k) && Continues(s, s.base + k, s.slots[k].unit.value.msgno, keep);
        }
      }
    }
  }

  /** The backward loop goes on behind this slot. */
  predicate PassesBack(e: Entry, msgno: int, keep: bool) {
    e.unit.Some? ==> e.unit.value.msgno == msgno && !Kept(e, keep) && !Opens(e)
  }

  predicate LosesBack(slots: seq<Entry>, i: int, msgno: int, keep: bool, k: int)
    requires 0 <= k < |slots| && i < |slots|
  {
    && k <= i && slots[k].unit.Some? && slots[k].unit.value.msgno == msgno && !Kept(slots[k], keep)
    && forall j :: k < j <= i ==> PassesBack(slots[j], msgno, keep)
  }

  /** The backward loop in closed form. */
  lemma {:induction false} DropLeftClosed(slots: seq<Entry>, i: int, msgno: int, keep: bool)
    requires -1 <= i < |slots|
    ensures forall k :: 0 <= k < |slots| ==>
      DropLeft(slots, i, msgno, keep).0[k] == if LosesBack(slots, i, msgno, keep, k) then Entry(None, Drop) else slots[k]
    decreases i + 1
  {
    hide Kept, Opens;
    if i >= 0 {
      DropLeftClosed(slots, i - 1, msgno, keep);
      var slots' := slots[i := Entry(None, Drop)];
      DropLeftClosed(slots', i - 1, msgno, keep);
      forall k | 0 <= k < |slots|
        ensures DropLeft(slots, i, msgno, keep).0[k] == if LosesBack(slots, i, msgno, keep, k) then Entry(None, Drop) else slots[k]
      {
        LosesStep(slots, i, msgno, keep, k);
        LosesSame(slots, slots', i - 1, msgno, keep, k);
      }
    }
  }

  lemma LosesStep(slots: seq<Entry>, i: int, msgno: int, keep: bool, k: int)
    requires 0 <= i < |slots| && 0 <= k < |slots|
    ensures k < i ==> (LosesBack(slots, i, msgno, keep, k) <==> LosesBack(slots, i - 1, msgno, keep, k) && PassesBack(slots[i], msgno, keep))
  {
    hide PassesBack;
  }

  lemma LosesSame(a: seq<Entry>, b: seq<Entry>, i: int, msgno: int, keep: bool, k: int)
    requires |a| == |b| && i < |a| && 0 <= k < |a| && forall j :: 0 <= j <= i ==> a[j] == b[j]
    ensures LosesBack(a, i, msgno, keep, k) <==> LosesBack(b, i, msgno, keep, k)
  {
    hide PassesBack;
  }

  /** On the marked slots it loses the packets before the range that the message runs back to. */
  lemma BackIff(s: State, lo: int, hi: int, msgno: int, keep: bool, r: int)
    requires Inv(s) && lo <= hi && s.base <= hi && lo - s.base < |s.slots| - 1 && Stored(s, r)
    requires msgno > 0 && NoneStarts(s, lo, hi, keep)
    ensures var a: nat, b: nat := Max(0, lo - s.base), Min(|s.slots| - 1, hi - s.base + 1);
      LosesBack(MarkDrop(s.slots, a, b, keep), a, msgno, keep, r - s.base) <==> LostBefore(s, lo, hi, msgno, keep, r)
  {
    hide Wrap, CursorOk;
    var a: nat, b: nat := Max(0, lo - s.base), Min(|s.slots| - 1, hi - s.base + 1);
    var marked := MarkDrop(s.slots, a, b, keep);
    assert marked[a].unit.None? by {
      if s.slots[a].unit.Some? {
        assert Stored(s, s.base + a) && Continues(s, s.base + a, s.slots[a].unit.value.msgno, keep);
      }
    }
    if r < lo {
      if LosesBack(marked, a, msgno, keep, r - s.base) {
        forall j | r < j < lo && Stored(s, j)
          ensures Continues(s, j, msgno, keep)
        {
          assert PassesBack(marked[j - s.base], msgno, keep);
        }
      }
      if LostBefore(s, lo, hi, msgno, keep, r) {
        forall j | r - s.base < j <= a
          ensures PassesBack(marked[j], msgno, keep)
        {
          if j < a && marked[j].unit.Some? {
            assert Stored(s, s.base + j) && Continues(s, s.base + j, msgno, keep);
          }
        }
      }
    }
  }

  /** Without a message number exactly the range is lost. */
  lemma DropRangeExact(s: State, lo: int, hi: int, msgno: int, keep: bool, r: int)
    requires Inv(s) && lo <= hi && lo - s.base < |s.slots| - 1 && msgno <= 0
    ensures var t := DropMessage(s, lo, hi, msgno, keep).0;
      Stored(t, r) <==> Stored(s, r) && !(lo <= r <= hi && !KeptSolo(s, r, keep))
  {
    hide DropMessage;
    DropMessageExact(s, lo, hi, msgno, keep, r);
  }

  /** The slots in which two buffers differ. */
  ghost function Changed(a: seq<Entry>, b: seq<Entry>): set<nat>
    requires |a| == |b|
  {
    set k: nat | k < |a| && a[k] != b[k]
  }

  /** Two changes one after the other, of different slots. */
  lemma ChangesAdd(a: seq<Entry>, b: seq<Entry>, c: seq<Entry>)
    requires |a| == |b| == |c|
    requires forall k :: 0 <= k < |a| ==> a[k] == b[k] || (b[k] == c[k])
    ensures |Changed(a, c)| == |Changed(a, b)| + |Changed(b, c)|
  {
    var x, y := Changed(a, b), Changed(b, c);
    assert Changed(a, c) == x + y && x !! y;
  }

  lemma OneChange(a: seq<Entry>, i: nat, e: Entry)
    requires i < |a|
    ensures |Changed(a, a[i := e])| == if a[i] == e then 0 else 1
  {
    assert Changed(a, a[i := e]) == if a[i] == e then {} else {i};
  }

  lemma {:induction false} MarkCount(slots: seq<Entry>, a: nat, b: nat, keep: bool)
    requires a <= b <= |slots|
    ensures |Changed(slots, MarkDrop(slots, a, b, keep))| == DropCount(slots, a, b, keep)
    decreases b - a
  {
    hide Changed;
    if a == b {
      assert MarkDrop(slots, a, b, keep) == slots;
      NoChange(slots);
    } else {
      var later := MarkDrop(slots, a + 1, b, keep);
      var e := if Kept(slots[a], keep) then slots[a] else Entry(None, Drop);
      MarkCount(slots, a + 1, b, keep);
      assert MarkDrop(slots, a, b, keep) == later[a := e] && later[a] == slots[a];
      OneChange(later, a, e);
      ChangesAdd(slots, later, later[a := e]);
    }
  }

  lemma NoChange(slots: seq<Entry>)
    ensures |Changed(slots, slots)| == 0
  {
    assert Changed(slots, slots) == {};
  }

  lemma {:induction false} LeftCount(slots: seq<Entry>, i: int, msgno: int, keep: bool)
    requires -1 <= i < |slots|
    ensures |Changed(slots, DropLeft(slots, i, msgno, keep).0)| == DropLeft(slots, i, msgno, keep).1
    decreases i + 1
  {
    hide Changed, Kept, Opens;
    NoChange(slots);
    if i >= 0 {
      var slots' := slots[i := Entry(None, Drop)];
      LeftCount(slots, i - 1, msgno, keep);
      LeftCount(slots', i - 1, msgno, keep);
      DropLeftMeaning(slots', i - 1, msgno, keep);
      OneChange(slots, i, Entry(None, Drop));
      ChangesAdd(slots, slots', DropLeft(slots', i - 1, msgno, keep).0);
    }
  }

  /** The number a message drop reports is the number of slots it changes. */
  lemma DropCountExact(s: State, lo: int, hi: int, msgno: int, keep: bool)
    requires Inv(s) && lo <= hi && s.base <= hi && lo - s.base < |s.slots| - 1
    ensures DropMessage(s, lo, hi, msgno, keep).1 == |Changed(s.slots, DropSlots(s, lo, hi, msgno, keep).0)|
  {
    hide Changed, DropLeft, DropCount, NoFirstIn, Dropped, SlotsOk, CursorOk;
    CursorInside(s);
    var a: nat, b: nat := Max(0, lo - s.base), Min(|s.slots| - 1, hi - s.base + 1);
    var marked := MarkDrop(s.slots, a, b, keep);
    MarkCount(s.slots, a, b, keep);
    LeftCount(marked, a, msgno, keep);
    DropLeftMeaning(marked, a, msgno, keep);
    ChangesAdd(s.slots, marked, DropLeft(marked, a, msgno, keep).0);
  }

  // ---------------------------------------------------------------- runs

  /** The packet numbered `q` is there, or it has been delivered or dropped. */
  predicate Accounted(s: State, q: int) {
    Stored(s, q) || Consumed(s, q)
  }

  lemma StepAccounted(s: State, e: Event, q: int)
    requires Good(s) && Legal(s, e) && Accounted(s, q)
    ensures Accounted(Step(s, e), q)
  {
    hide Good, Stored, Consumed, Insert, ReadMessage, DropUpTo, DropMessage, Delivers;
    if Consumed(s, q) {
      ConsumedStays(s, e, q);
    } else {
      match e
      case Arrive(q', p) => ArriveKeepsStored(s, q', p, q);
      case ReadOne => ReadMessageExact(s, q); ReadConsumes(s, q);
      case DropTo(q') => GoodIsInv(s); DropUpToExact(s, q', q); DropToConsumes(s, q', q);
      case DropMsg(lo, hi, msgno, keep) => DroppedIsConsumed(s, e, q);
    }
  }

  lemma GoodIsInv(s: State)
    requires Good(s)
    ensures Inv(s)
  {
  }

  lemma ArriveKeepsStored(s: State, q': int, p: Packet, q: int)
    requires Good(s) && p.seqno == Wrap(q') && Stored(s, q)
    ensures Stored(Insert(s, q', p).0, q)
  {
    hide Insert, SlotsOk, CursorOk;
    InsertExact(s, q', p, q);
  }

  lemma DroppedIsConsumed(s: State, e: Event, q: int)
    requires Good(s) && Legal(s, e) && e.DropMsg? && Stored(s, q)
    ensures Accounted(Step(s, e), q)
  {
    hide Good, Stored, Consumed, DropMessage;
    if !Stored(Step(s, e), q) {
      DiscardConsumes(s, e, q);
    }
  }

  lemma {:induction false} RunAccounted(s: State, es: seq<Event>, i: nat, j: nat, q: int)
    requires Good(s) && LegalRun(s, es) && i <= j <= |es| && Accounted(At(s, es, i), q)
    ensures Accounted(At(s, es, j), q)
    decreases j
  {
    hide Accounted, Good, Legal, Step, LegalRun, At;
    if i < j {
      RunAccounted(s, es, i, j - 1, q);
      AtStep(s, es, j - 1);
      StepAccounted(At(s, es, j - 1), es[j - 1], q);
    }
  }

  /** Before event `n` of the run packet `q` arrived while the buffer had a slot for it. */
  ghost predicate Arrived(s: State, es: seq<Event>, n: nat, q: int)
    requires Good(s) && LegalRun(s, es) && n <= |es|
  {
    exists i :: 0 <= i < n && es[i].Arrive? && es[i].q == q && InWindow(At(s, es, i), q)
  }

  /** Nothing is lost, over every run: a packet that arrives while the buffer has a slot for it is there, or delivered or dropped, ever after. */
  lemma ArrivedStays(s: State, es: seq<Event>, n: nat, q: int)
    requires Good(s) && LegalRun(s, es) && n <= |es| && Arrived(s, es, n, q)
    ensures Accounted(At(s, es, n), q)
  {
    hide LegalRun, At, Insert, SlotsOk, CursorOk;
    var i :| 0 <= i < n && es[i].Arrive? && es[i].q == q && InWindow(At(s, es, i), q);
    AtStep(s, es, i);
    InsertExact(At(s, es, i), q, es[i].p, q);
    RunAccounted(s, es, i + 1, n, q);
  }

  // ---------------------------------------------------------------- how far the buffer has heard

  /** One past the highest number heard of. */
  function End(s: State): int {
    s.base + s.maxOff
  }

  lemma MoveEnd(s: State, k: nat, rescan: bool)
    requires Inv(s)
    ensures var t := Seek(Move(s, k, rescan)); End(t) == Max(End(s), t.base)
  {
    hide Back, ScanEnd, ScanOoo, SlotsOk, CursorOk, Shift;
  }

  lemma DropEnd(s: State, slots: seq<Entry>)
    requires Inv(s) && |slots| == |s.slots|
    ensures var t := Dropped(s, slots); End(t) == Max(End(s), t.base)
  {
    hide Back, ScanEnd, ScanOoo, SlotsOk, Shift, Touched, StillReadable;
  }

  /** An arrival within the window moves the end behind itself if it is the furthest; nothing else does, unless the start passes it. */
  lemma StepEnd(s: State, e: Event)
    requires Good(s) && Legal(s, e)
    ensures var t := Step(s, e);
      End(t) == if e.Arrive? && InWindow(s, e.q) then Max(End(s), e.q + 1) else Max(End(s), t.base)
  {
    hide SlotsOk, CursorOk, Move, Seek, ScanEnd, OnInsertUnordered, ReadStop, DropSlots, Dropped;
    CursorInside(s);
    match e
    case Arrive(q, p) =>
    case ReadOne => ReadEnd(s);
    case DropTo(q) =>
      if q > s.base {
        MoveEnd(ForgetOoo(s, q - s.base), q - s.base, true);
      }
    case DropMsg(lo, hi, msgno, keep) =>
      if s.base <= hi {
        DropEnd(s, DropSlots(s, lo, hi, msgno, keep).0);
      }
  }

  lemma ReadEnd(s: State)
    requires Good(s)
    ensures var t := ReadMessage(s); End(t) == Max(End(s), t.base)
  {
    hide Move, Seek, SlotsOk, CursorOk, ReadStop;
    CursorInside(s);
    var ro := ReadFrom(s);
    if ro >= 0 {
      var (stop, ended) := ReadStop(s.slots, ro);
      var s1 := if ended && ro == s.ooo then s.(ooo := -1) else s;
      StopBelowEnd(s, ro);
      if ro == 0 {
        MoveEnd(s1, stop, false);
      } else {
        MarkReadKeeps(s1, ro, stop);
        MoveEnd(s1.(slots := MarkRead(s.slots, ro, stop)), 0, false);
      }
    }
  }

  /** Over every run from an empty buffer: the end is at the start, or right behind a packet that arrived. */
  lemma {:induction false} EndIsHeard(isn: int, size: nat, api: bool, es: seq<Event>, n: nat)
    requires size > 0 && Good(Initial(isn, size, api)) && LegalRun(Initial(isn, size, api), es) && n <= |es|
    ensures var s := At(Initial(isn, size, api), es, n);
      End(s) == s.base || Arrived(Initial(isn, size, api), es, n, End(s) - 1)
    decreases n
  {
    hide Good, Legal, LegalRun, At, Step, InWindow;
    var s0 := Initial(isn, size, api);
    if n == 0 {
      AtStart(s0, es);
    } else {
      var s, t := At(s0, es, n - 1), At(s0, es, n);
      EndIsHeard(isn, size, api, es, n - 1);
      AtStep(s0, es, n - 1);
      StepEnd(s, es[n - 1]);
      StepStart(s, es[n - 1]);
      if End(t) != t.base {
        if End(t) == End(s) {
          assert Arrived(s0, es, n - 1, End(s) - 1);
        } else {
          assert es[n - 1].Arrive? && InWindow(At(s0, es, n - 1), es[n - 1].q);
        }
      }
    }
  }

  lemma AtStart(s: State, es: seq<Event>)
    requires Good(s) && LegalRun(s, es)
    ensures At(s, es, 0) == s
  {
  }

  /** The start never moves back, and the end never falls behind it. */
  lemma StepStart(s: State, e: Event)
    requires Good(s) && Legal(s, e)
    ensures s.base <= Step(s, e).base <= End(Step(s, e))
  {
    hide Good, Insert, ReadMessage, DropUpTo, DropMessage;
    StepKeeps(s, e);
    EndBehindStart(Step(s, e));
    GoodIsInv(s);
    match e
    case Arrive(q, p) => InsertExact(s, q, p, q);
    case ReadOne => ReadMessageExact(s, 0);
    case DropTo(q) => DropUpToExact(s, q, 0);
    case DropMsg(lo, hi, msgno, keep) => DropMessageExact(s, lo, hi, msgno, keep, 0);
  }

  lemma EndBehindStart(s: State)
    requires Good(s)
    ensures s.base <= End(s)
  {
  }

  // ---------------------------------------------------------------- stream mode

  /** A packet read to its last byte leaves the buffer: a read ends at the start of a packet or strictly inside one. */
  lemma {:induction false} ReadEndsInside(s: State, len: int)
    requires StreamReady(s) && NotchOk(s) && len > 0
    ensures var t := ReadStream(s, len).0;
      t.notch == 0 || (t.cursor > 0 && |t.slots| > 0 && t.slots[0].unit.Some? && t.notch < |t.slots[0].unit.value.payload|)
    decreases s.cursor
  {
    hide Back;
    if s.cursor > 0 {
      var n := |s.slots[0].unit.value.payload[s.notch..]|;
      if len > n {
        ReadEndsInside(Advance(s, 1).(notch := 0), len - n);
      }
    }
  }

  lemma AdvanceAccounted(s: State, k: nat, notch: int, q: int)
    requires -1 <= s.ooo < |s.slots| && Accounted(s, q)
    ensures Accounted(Advance(s, k).(notch := notch), q)
  {
    hide Back;
  }

  lemma StreamStepAccounted(s: State, st: Stream, e: StreamEvent, q: int)
    requires Streaming(s, st) && ReceiverStream.Safe(s, e) && Accounted(s, q) && Callable(s, e)
    ensures Accounted(ByteStep(s, e).0, q)
  {
    hide SlotsOk, Insert, ReadStream, DropUpTo, DropMessage, Faithful, NotchOk, Advance;
    match e
    case Got(q', p) => InsertExact(s, q', p, q);
    case ReadBytes(len) =>
      ReadStreamKeeps(s, len);
      var t := ReadStream(s, len).0;
      AdvanceAccounted(s, s.cursor - t.cursor, t.notch, q);
    case CutTo(q') => CutToAccounted(s, q', q);
    case CutRange(lo, hi, msgno, keep) => CutRangeAccounted(s, lo, hi, msgno, keep, q);
  }

  lemma CutToAccounted(s: State, q': int, q: int)
    requires Inv(s) && Accounted(s, q)
    ensures Accounted(DropUpTo(s, q').0, q)
  {
    hide Move, Seek, SlotsOk, CursorOk;
    if q' > s.base {
      MoveConsumes(ForgetOoo(s, q' - s.base), q' - s.base, true, q);
      MoveExact(ForgetOoo(s, q' - s.base), q' - s.base, true, q);
    }
  }

  lemma CutRangeAccounted(s: State, lo: int, hi: int, msgno: int, keep: bool, q: int)
    requires Inv(s) && lo <= hi && lo - s.base < |s.slots| - 1 && Accounted(s, q)
    ensures Accounted(DropMessage(s, lo, hi, msgno, keep).0, q)
  {
    hide SlotsOk, CursorOk, DropSlots, Touched, ScanEnd, Seek, StillReadable, FillerRun, Back, Shift;
    CursorInside(s);
    if s.base <= hi {
      var slots := DropSlots(s, lo, hi, msgno, keep).0;
      DropSlotsKeeps(s, lo, hi, msgno, keep);
      AdvanceAccounted(s.(slots := slots), FillerRun(slots, 0), s.notch, q);
    }
  }

  lemma {:induction false} StreamRunAccounted(s: State, st: Stream, es: seq<StreamEvent>, q: int)
    requires SafeRun(s, st, es) && Accounted(s, q)
    ensures Accounted(Finally(s, st, es), q)
    decreases |es|
  {
    hide Streaming, ReceiverStream.Safe, Accounted, ByteStep;
    if es != [] {
      SafeIsCallable(s, st, es[0]);
      StreamStepAccounted(s, st, es[0], q);
      StreamRunAccounted(ByteStep(s, es[0]).0, st, es[1..], q);
    }
  }

  /** The same in stream mode, whatever safe run follows the arrival. */
  lemma StreamArrivedStays(s: State, st: Stream, es: seq<StreamEvent>)
    requires SafeRun(s, st, es) && es != [] && es[0].Got? && InWindow(s, es[0].q)
    ensures Accounted(Finally(s, st, es), es[0].q)
  {
    hide SlotsOk, CursorOk, Insert, Faithful, NotchOk;
    var q := es[0].q;
    SafeIsCallable(s, st, es[0]);
    InsertExact(s, q, es[0].p, q);
    StreamRunAccounted(ByteStep(s, es[0]).0, st, es[1..], q);
  }
}

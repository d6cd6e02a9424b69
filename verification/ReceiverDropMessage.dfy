/** A drop request for one message: everything stored of it goes, nothing else does, and late packets are refused. */
module ReceiverDropMessage {
  import opened Arith
  import opened Packets
  import opened ReceiverSpec
  import opened ReceiverInvariant
  import opened ReceiverRuns
  import opened Streams

  predicate Carries(e: Entry, msgno: int) {
    e.unit.Some? && e.unit.value.msgno == msgno
  }

  /** Up to slot `i` the packets of message `msgno` are not interleaved with others, and start with a first packet. */
  ghost predicate Together(slots: seq<Entry>, i: int, msgno: int)
    requires i < |slots|
  {
    && (forall j, k :: 0 <= j <= k <= i && Carries(slots[j], msgno) && slots[k].unit.Some? ==> Carries(slots[k], msgno))
    && (forall j, k :: 0 <= j < k <= i && IsFirst(slots[k]) && Carries(slots[k], msgno) ==> !Carries(slots[j], msgno))
    && (forall k :: 0 <= k <= i && slots[k].unit.Some? ==> slots[k].status != Drop)
  }

  /** The backward loop drops exactly the packets of the message. */
  lemma {:induction false} DropLeftExact(slots: seq<Entry>, i: int, msgno: int)
    requires -1 <= i < |slots| && Together(slots, i, msgno)
    ensures var r := DropLeft(slots, i, msgno, false).0;
      forall k :: 0 <= k < |slots| ==>
        r[k] == if k <= i && Carries(slots[k], msgno) then Entry(None, Drop) else slots[k]
    decreases i + 1
  {
    if i >= 0 {
      if slots[i].unit.None? {
        DropLeftExact(slots, i - 1, msgno);
      } else if Carries(slots[i], msgno) && !Opens(slots[i]) {
        var slots' := slots[i := Entry(None, Drop)];
        assert forall k :: 0 <= k < i ==> slots'[k] == slots[k];
        DropLeftExact(slots', i - 1, msgno);
      }
    }
  }

  /** Message `msgno` of the stream occupies the sequence numbers from `f` to `l`. */
  ghost predicate MessageAt(st: Stream, msgno: int, f: int, l: int) {
    && st.isn <= f <= l < st.isn + |st.pk|
    && st.pk[f - st.isn].first
    && (forall i :: f <= st.isn + i <= l ==> st.pk[i].msgno == msgno)
    && (forall i :: f < st.isn + i <= l ==> !st.pk[i].first)
  }

  /** No other packet the buffer can hold carries the same message number. */
  ghost predicate UniqueInWindow(s: State, st: Stream, msgno: int, f: int, l: int) {
    forall i :: 0 <= i < |st.pk| && s.base <= st.isn + i < s.base + |s.slots| && !(f <= st.isn + i <= l) ==>
      st.pk[i].msgno != msgno
  }

  lemma CarriesIsRange(s: State, st: Stream, msgno: int, f: int, l: int, k: nat)
    requires Faithful(s, st) && MessageAt(st, msgno, f, l) && UniqueInWindow(s, st, msgno, f, l)
    requires k < |s.slots| && s.slots[k].unit.Some?
    ensures Carries(s.slots[k], msgno) <==> f <= s.base + k <= l
    ensures f <= s.base + k <= l ==> (IsFirst(s.slots[k]) <==> s.base + k == f)
  {
    assert s.slots[k].unit.value == st.pk[s.base + k - st.isn];
  }

  /** The stored packets of message `msgno` are those numbered from `f` to `l`, and `f` is the first. */
  ghost predicate Ranged(s: State, msgno: int, f: int, l: int) {
    forall k :: 0 <= k < |s.slots| && s.slots[k].unit.Some? ==>
      && (Carries(s.slots[k], msgno) <==> f <= s.base + k <= l)
      && (f <= s.base + k <= l ==> (IsFirst(s.slots[k]) <==> s.base + k == f))
      && s.slots[k].status != Drop
  }

  /** What is left when message `f` to `l` is gone and the part from `lo` on is marked. */
  ghost predicate LeftWithout(s: State, slots: seq<Entry>, lo: int, f: int, l: int) {
    && |slots| == |s.slots|
    && (forall k :: 0 <= k < |slots| ==>
          (slots[k].unit.Some? <==> s.slots[k].unit.Some? && !(f <= s.base + k <= l))
          && (slots[k].unit.Some? ==> slots[k] == s.slots[k]))
    && (forall k :: 0 <= k < |slots| && lo <= s.base + k <= l ==> slots[k].status == Drop)
  }

  /** The range alone is enough when it has the first packet of the message. */
  lemma RangeTakesAll(s: State, msgno: int, lo: int, f: int, l: int)
    requires Ranged(s, msgno, f, l) && f <= lo <= l && s.base <= l < s.base + |s.slots| - 1
    requires !NoFirstIn(s.slots, Max(0, lo - s.base), l - s.base + 1, false)
    ensures LeftWithout(s, MarkDrop(s.slots, Max(0, lo - s.base), l - s.base + 1, false), lo, f, l)
  {
    var a, b := Max(0, lo - s.base), l - s.base + 1;
    var k :| a <= k < b && IsFirst(s.slots[k]);
    assert s.base + k == f;
  }

  /** Otherwise the backward loop takes the rest. */
  lemma BackTakesRest(s: State, msgno: int, lo: int, f: int, l: int)
    requires Ranged(s, msgno, f, l) && f <= lo <= l && s.base <= l < s.base + |s.slots| - 1
    ensures var a := Max(0, lo - s.base); var marked := MarkDrop(s.slots, a, l - s.base + 1, false);
      LeftWithout(s, DropLeft(marked, a, msgno, false).0, lo, f, l)
  {
    hide DropLeft;
    var a: nat := Max(0, lo - s.base);
    var marked := MarkDrop(s.slots, a, l - s.base + 1, false);
    MarkedTogether(s, msgno, lo, f, l);
    hide Together;
    DropLeftExact(marked, a, msgno);
  }

  lemma MarkedTogether(s: State, msgno: int, lo: int, f: int, l: int)
    requires Ranged(s, msgno, f, l) && f <= lo <= l && s.base <= l < s.base + |s.slots| - 1
    ensures var a := Max(0, lo - s.base); Together(MarkDrop(s.slots, a, l - s.base + 1, false), a, msgno)
  {
  }

  /** The two loops together leave exactly the packets of other messages. */
  lemma DropSlotsExact(s: State, st: Stream, lo: int, msgno: int, f: int, l: int)
    requires Good(s) && Faithful(s, st) && msgno > 0
    requires MessageAt(st, msgno, f, l) && UniqueInWindow(s, st, msgno, f, l)
    requires f <= lo <= l && s.base <= l < s.base + |s.slots| - 1
    ensures LeftWithout(s, DropSlots(s, lo, l, msgno, false).0, lo, f, l)
  {
    hide DropLeft, SlotsOk, CursorOk, MessageAt, UniqueInWindow, Faithful, NoFirstIn, MarkDrop, LeftWithout, Carries, IsFirst;
    forall k: nat | k < |s.slots| && s.slots[k].unit.Some?
      ensures Carries(s.slots[k], msgno) <==> f <= s.base + k <= l
      ensures f <= s.base + k <= l ==> (IsFirst(s.slots[k]) <==> s.base + k == f)
    {
      CarriesIsRange(s, st, msgno, f, l, k);
    }
    HeldNotDropped(s);
    assert Ranged(s, msgno, f, l);
    if NoFirstIn(s.slots, Max(0, lo - s.base), l - s.base + 1, false) {
      BackTakesRest(s, msgno, lo, f, l);
    } else {
      RangeTakesAll(s, msgno, lo, f, l);
    }
  }

  lemma HeldNotDropped(s: State)
    requires Inv(s)
    ensures forall k :: 0 <= k < |s.slots| && s.slots[k].unit.Some? ==> s.slots[k].status != Drop
  {
  }

  // ---------------------------------------------------------------- with and without keeping what is there

  /** No packet of message `msgno` up to slot `i` is a message by itself. */
  predicate NoSolo(slots: seq<Entry>, i: int, msgno: int)
    requires i < |slots|
  {
    forall k :: 0 <= k <= i && Carries(slots[k], msgno) ==> !(IsFirst(slots[k]) && IsLast(slots[k]))
  }

  lemma {:induction false} DropLeftSame(slots: seq<Entry>, i: int, msgno: int)
    requires -1 <= i < |slots| && NoSolo(slots, i, msgno)
    ensures DropLeft(slots, i, msgno, true) == DropLeft(slots, i, msgno, false)
    decreases i + 1
  {
    if i >= 0 {
      DropLeftSame(slots, i - 1, msgno);
      var slots' := slots[i := Entry(None, Drop)];
      assert forall k :: 0 <= k < i ==> slots'[k] == slots[k];
      DropLeftSame(slots', i - 1, msgno);
    }
  }

  lemma {:induction false} DropCountSame(slots: seq<Entry>, a: nat, b: nat)
    requires a <= b <= |slots| && forall k :: a <= k < b ==> !(IsFirst(slots[k]) && IsLast(slots[k]))
    ensures DropCount(slots, a, b, true) == DropCount(slots, a, b, false)
    decreases b - a
  {
    if a < b {
      DropCountSame(slots, a + 1, b);
    }
  }

  /** On a well-formed stream no packet of a message of several is a first and a last packet at once. */
  lemma NotSolo(s: State, st: Stream, msgno: int, f: int, l: int, k: nat)
    requires Faithful(s, st) && WellFormed(st) && MessageAt(st, msgno, f, l) && f < l
    requires k < |s.slots| && f <= s.base + k <= l && s.slots[k].unit.Some?
    ensures !(IsFirst(s.slots[k]) && IsLast(s.slots[k]))
  {
    var i := s.base + k - st.isn;
    assert s.slots[k].unit.value == st.pk[i];
    if s.base + k == f {
      assert Follows(st.pk[i + 1 - 1], st.pk[i + 1]);
    }
  }

  /** Unless the message is one stored packet, keeping what is there makes no difference. */
  lemma KeepIsDrop(s: State, st: Stream, lo: int, msgno: int, f: int, l: int)
    requires Good(s) && Faithful(s, st) && WellFormed(st) && msgno > 0
    requires MessageAt(st, msgno, f, l) && UniqueInWindow(s, st, msgno, f, l)
    requires f <= lo <= l && s.base <= l < s.base + |s.slots| - 1 && !KeptSolo(s, f, true)
    ensures DropSlots(s, lo, l, msgno, true) == DropSlots(s, lo, l, msgno, false)
  {
    hide DropLeft, DropCount, SlotsOk, CursorOk, MessageAt, UniqueInWindow, Faithful, WellFormed;
    var a: nat, b: nat := Max(0, lo - s.base), l - s.base + 1;
    forall k: nat | k < |s.slots| && s.slots[k].unit.Some?
      ensures Carries(s.slots[k], msgno) <==> f <= s.base + k <= l
      ensures f <= s.base + k <= l ==> !(IsFirst(s.slots[k]) && IsLast(s.slots[k]))
    {
      CarriesIsRange(s, st, msgno, f, l, k);
      if f <= s.base + k <= l && f < l {
        NotSolo(s, st, msgno, f, l, k);
      }
    }
    var marked := MarkDrop(s.slots, a, b, true);
    assert marked == MarkDrop(s.slots, a, b, false);
    DropCountSame(s.slots, a, b);
    assert NoFirstIn(s.slots, a, b, true) == NoFirstIn(s.slots, a, b, false);
    DropLeftSame(marked, a, msgno);
  }

  /** A message that is one stored packet, to be kept: the slots stay as they are. */
  lemma KeptStays(s: State, st: Stream, lo: int, msgno: int, f: int, l: int)
    requires Good(s) && Faithful(s, st) && WellFormed(st) && msgno > 0 && MessageAt(st, msgno, f, l)
    requires f <= lo <= l && s.base <= l < s.base + |s.slots| - 1 && KeptSolo(s, f, true)
    ensures DropMessage(s, lo, l, msgno, true).0.slots == s.slots && DropMessage(s, lo, l, msgno, true).0.base == s.base
  {
    hide DropLeft, DropCount, SlotsOk, CursorOk, MessageAt, Faithful, WellFormed, Touched, ScanEnd, Seek, StillReadable;
    if f < l {
      NotSolo(s, st, msgno, f, l, f - s.base);
      assert false;
    }
    var a: nat := lo - s.base;
    var slots := DropSlots(s, lo, l, msgno, true).0;
    assert MarkDrop(s.slots, a, a + 1, true) == s.slots;
    assert !NoFirstIn(s.slots, a, a + 1, true);
    assert FillerRun(slots, 0) == 0;
    assert Shift(slots, 0) == slots;
  }

  // ---------------------------------------------------------------- the whole message

  /**
    A drop request with a message number and a suffix of that message inside the window removes
    every stored packet of the message, also those before the suffix, removes no other packet,
    and consumes the whole suffix, so that late arrivals of it are refused. With the instruction
    to keep what is there it does the same, except that a message of one packet that is already
    stored stays and nothing else changes.
   */
  lemma DropWholeMessage(s: State, st: Stream, lo: int, msgno: int, f: int, l: int, keep: bool, q: int)
    requires Good(s) && Faithful(s, st) && msgno > 0 && (keep ==> WellFormed(st))
    requires MessageAt(st, msgno, f, l) && UniqueInWindow(s, st, msgno, f, l)
    requires f <= lo <= l && s.base <= l < s.base + |s.slots| - 1
    ensures var t := DropMessage(s, lo, l, msgno, keep).0;
      if KeptSolo(s, f, keep) then t.slots == s.slots && t.base == s.base
      else
        && (Stored(t, q) <==> Stored(s, q) && !(f <= q <= l))
        && (Stored(t, q) ==> t.slots[q - t.base] == s.slots[q - s.base])
        && (lo <= q <= l ==> Consumed(t, q))
  {
    hide SlotsOk, CursorOk, DropSlots, DropMessage, WellFormed, MessageAt, UniqueInWindow;
    if KeptSolo(s, f, keep) {
      KeptStays(s, st, lo, msgno, f, l);
    } else {
      WholeMessageDropped(s, st, lo, msgno, f, l, q);
      if keep {
        KeepIsDrop(s, st, lo, msgno, f, l);
        SameSlotsSameDrop(s, lo, l, msgno);
      }
    }
  }

  lemma SameSlotsSameDrop(s: State, lo: int, l: int, msgno: int)
    requires Good(s) && lo <= l && s.base <= l && lo - s.base < |s.slots| - 1
    requires DropSlots(s, lo, l, msgno, true) == DropSlots(s, lo, l, msgno, false)
    ensures DropMessage(s, lo, l, msgno, true) == DropMessage(s, lo, l, msgno, false)
  {
    hide DropSlots, Dropped;
  }

  lemma WholeMessageDropped(s: State, st: Stream, lo: int, msgno: int, f: int, l: int, q: int)
    requires Good(s) && Faithful(s, st) && msgno > 0
    requires MessageAt(st, msgno, f, l) && UniqueInWindow(s, st, msgno, f, l)
    requires f <= lo <= l && s.base <= l < s.base + |s.slots| - 1
    ensures var t := DropMessage(s, lo, l, msgno, false).0;
      && (Stored(t, q) <==> Stored(s, q) && !(f <= q <= l))
      && (Stored(t, q) ==> t.slots[q - t.base] == s.slots[q - s.base])
      && (lo <= q <= l ==> Consumed(t, q))
  {
    hide SlotsOk, CursorOk, DropSlots, Consumed, SkipFillers, Touched, ScanEnd, Seek, StillReadable;
    var slots := DropSlots(s, lo, l, msgno, false).0;
    DropSlotsExact(s, st, lo, msgno, f, l);
    DropMessageConsumes(s, lo, l, msgno, false, q);
    DropSlotsKeeps(s, lo, l, msgno, false);
    SkipStored(s.(slots := slots), q);
    if lo <= q <= l {
      DropConsumed(s, slots, q);
    }
  }
}

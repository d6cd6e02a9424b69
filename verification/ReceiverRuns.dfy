/**
  Runs of the receiver buffer: any interleaving of arrivals, reads and drops.

  The theorem of this module is at-most-once: a sequence number that was delivered or dropped
  is never accepted and never delivered again.
 */
module ReceiverRuns {
  import opened Arith
  import opened Packets
  import opened SeqNo
  import opened ReceiverSpec
  import opened ReceiverInvariant

  datatype Event =
    | Arrive(q: int, p: Packet)
    | ReadOne
    | DropTo(q: int)
    | DropMsg(lo: int, hi: int, msgno: int, keep: bool)

  ghost predicate Good(s: State) {
    Inv(s) && Settled(s)
  }

  predicate Legal(s: State, e: Event) {
    match e
    case Arrive(q, p) => p.seqno == Wrap(q)
    case DropMsg(lo, hi, _, _) => lo <= hi && lo - s.base < |s.slots| - 1
    case _ => true
  }

  ghost function Step(s: State, e: Event): State
    requires Good(s) && Legal(s, e)
  {
    match e
    case Arrive(q, p) => Insert(s, q, p).0
    case ReadOne => ReadMessage(s)
    case DropTo(q) => DropUpTo(s, q).0
    case DropMsg(lo, hi, msgno, keep) => DropMessage(s, lo, hi, msgno, keep).0
  }

  lemma StepKeeps(s: State, e: Event)
    requires Good(s) && Legal(s, e)
    ensures Good(Step(s, e)) && |Step(s, e).slots| == |s.slots| && Step(s, e).messageApi == s.messageApi
  {
    hide SlotsOk, CursorOk, Settled, Move, Seek, Dropped, DropSlots, ScanEnd, OnInsertUnordered, ReadStop, MarkRead;
    match e
    case Arrive(q, p) => InsertKeeps(s, q, p);
    case ReadOne => ReadMessageKeeps(s);
    case DropTo(q) => DropUpToKeeps(s, q);
    case DropMsg(lo, hi, msgno, keep) => DropMessageKeeps(s, lo, hi, msgno, keep);
  }

  ghost predicate LegalRun(s: State, es: seq<Event>)
    requires Good(s)
    decreases |es|
  {
    es == [] ||
    (Legal(s, es[0]) && Good(Step(s, es[0])) && LegalRun(Step(s, es[0]), es[1..]))
  }

  /** The state before event `i` of a run. */
  ghost function At(s: State, es: seq<Event>, i: nat): (r: State)
    requires Good(s) && LegalRun(s, es) && i <= |es|
    ensures Good(r)
    decreases i
  {
    if i == 0 then s else At(Step(s, es[0]), es[1..], i - 1)
  }

  lemma {:induction false} AtStep(s: State, es: seq<Event>, i: nat)
    requires Good(s) && LegalRun(s, es) && i < |es|
    ensures Legal(At(s, es, i), es[i])
    ensures At(s, es, i + 1) == Step(At(s, es, i), es[i])
    decreases i
  {
    hide Good, Legal, Step;
    if i > 0 {
      AtStep(Step(s, es[0]), es[1..], i - 1);
      assert es[1..][i - 1] == es[i];
    }
  }

  /** Every event a caller may issue next keeps the run legal. */
  lemma {:induction false} RunExtends(s: State, es: seq<Event>, e: Event)
    requires Good(s) && LegalRun(s, es) && Legal(At(s, es, |es|), e)
    ensures LegalRun(s, es + [e])
    decreases |es|
  {
    hide Good, Legal, Step;
    if es == [] {
      StepKeeps(s, e);
      assert es + [e] == [e];
    } else {
      RunExtends(Step(s, es[0]), es[1..], e);
      assert (es + [e])[1..] == es[1..] + [e];
    }
  }

  // ---------------------------------------------------------------- consumed sequence numbers

  /** `q` was delivered or dropped: it lies before the start or its slot says so. */
  predicate Consumed(s: State, q: int) {
    q < s.base || (q - s.base < |s.slots| && Filler(s.slots[q - s.base]))
  }

  predicate Accepts(s: State, e: Event, q: int)
    requires Good(s)
  {
    e.Arrive? && e.q == q && Insert(s, e.q, e.p).1 == 0
  }

  /** The read takes the packet with sequence number `q` out. */
  predicate Delivers(s: State, e: Event, q: int)
    requires Good(s)
  {
    e.ReadOne? && ReadFrom(s) >= 0 && ReadFrom(s) <= q - s.base < ReadStop(s.slots, ReadFrom(s)).0
  }

  predicate Stored(s: State, q: int) {
    0 <= q - s.base < |s.slots| && s.slots[q - s.base].unit.Some?
  }

  /** A message of one packet that the drop is told to leave alone. */
  predicate KeptSolo(s: State, q: int, keep: bool) {
    keep && Stored(s, q) && IsFirst(s.slots[q - s.base]) && IsLast(s.slots[q - s.base])
  }

  /**
    What a drop discards: everything before the number it is given; or what it takes out of the
    buffer and every number of its range the buffer has a slot for, except messages to be kept.
   */
  ghost predicate Discards(s: State, e: Event, q: int)
    requires Good(s)
  {
    match e
    case DropTo(q') => q < q'
    case DropMsg(lo, hi, _, keep) =>
      Legal(s, e) &&
      ((Stored(s, q) && !Stored(Step(s, e), q)) || (lo <= q <= hi && q - s.base < |s.slots| - 1 && !KeptSolo(s, q, keep)))
    case _ => false
  }

  /** Moving the start never forgets a consumed number, and consumes all it passes. */
  lemma AdvanceConsumes(s: State, k: nat, q: int)
    requires -1 <= s.ooo < |s.slots|
    ensures Consumed(Advance(s, k), q) <==>
      (Consumed(s, q) || q < s.base + k) && (q - s.base < |s.slots| || q < s.base + k)
  {
  }

  lemma MoveConsumes(s: State, k: nat, rescan: bool, q: int)
    requires Inv(s)
    ensures var t := Seek(Move(s, k, rescan));
      (Consumed(s, q) || q < s.base + k ==> Consumed(t, q)) && t.base >= s.base + k
  {
    hide Shift, FillerRun, Back, ScanEnd, ScanOoo;
    AdvanceConsumes(s, k, q);
    AdvanceConsumes(Advance(s, k), FillerRun(Advance(s, k).slots, 0), q);
  }

  lemma InsertConsumes(s: State, q': int, p: Packet, q: int)
    requires Good(s)
    ensures Consumed(s, q) ==> Consumed(Insert(s, q', p).0, q)
  {
    hide ScanEnd, OnInsertUnordered, SlotsOk, CursorOk;
  }

  /** A drop up to `q'` consumes everything before `q'`. */
  lemma DropToConsumes(s: State, q': int, q: int)
    requires Good(s)
    ensures Consumed(s, q) || q < q' ==> Consumed(DropUpTo(s, q').0, q)
  {
    hide Move, Seek, SlotsOk, CursorOk;
    if q' > s.base {
      MoveConsumes(ForgetOoo(s, q' - s.base), q' - s.base, true, q);
    }
  }

  /** No event makes a consumed number fresh again. */
  lemma ConsumedStays(s: State, e: Event, q: int)
    requires Good(s) && Legal(s, e) && Consumed(s, q)
    ensures Consumed(Step(s, e), q)
  {
    hide Consumed, Insert, ReadMessage, DropUpTo, Good;
    match e
    case Arrive(q', p) => InsertConsumes(s, q', p, q);
    case ReadOne => ReadConsumes(s, q);
    case DropTo(q') => DropToConsumes(s, q', q);
    case DropMsg(lo, hi, msgno, keep) =>
      if hi >= s.base {
        DropMessageConsumes(s, lo, hi, msgno, keep, q);
      }
  }

  lemma StoredIsFresh(s: State, q: int)
    requires Inv(s) && Stored(s, q)
    ensures !Consumed(s, q)
  {
  }

  lemma ReadConsumes(s: State, q: int)
    requires Good(s)
    ensures Consumed(s, q) ==> Consumed(ReadMessage(s), q)
    ensures Delivers(s, ReadOne, q) ==> !Consumed(s, q) && Consumed(ReadMessage(s), q)
  {
    hide Move, Seek, SlotsOk, CursorOk;
    CursorInside(s);
    var ro := ReadFrom(s);
    if ro >= 0 {
      var (stop, ended) := ReadStop(s.slots, ro);
      if Delivers(s, ReadOne, q) {
        StoredIsFresh(s, q);
      }
      var s1 := if ended && ro == s.ooo then s.(ooo := -1) else s;
      if ro == 0 {
        MoveConsumes(s1, stop, false, q);
      } else {
        StopBelowEnd(s, ro);
        MarkReadKeeps(s1, ro, stop);
        MoveConsumes(s1.(slots := MarkRead(s.slots, ro, stop)), 0, false, q);
      }
    }
  }

  lemma DropMessageConsumes(s: State, lo: int, hi: int, msgno: int, keep: bool, q: int)
    requires Good(s) && lo <= hi && s.base <= hi && lo - s.base < |s.slots| - 1
    ensures var slots := DropSlots(s, lo, hi, msgno, keep).0;
      Consumed(s, q) || Consumed(s.(slots := slots), q) ==> Consumed(DropMessage(s, lo, hi, msgno, keep).0, q)
  {
    hide Shift, FillerRun, Back, ScanEnd, ScanOoo, DropSlots, StillReadable, Touched, SlotsOk, CursorOk;
    var slots := DropSlots(s, lo, hi, msgno, keep).0;
    DropSlotsKeeps(s, lo, hi, msgno, keep);
    AdvanceConsumes(s.(slots := slots), FillerRun(slots, 0), q);
  }

  /** Passing over fillers loses no packet. */
  lemma SkipStored(s: State, q: int)
    requires SlotsOk(s.base, s.slots, s.maxOff) && -1 <= s.ooo < |s.slots|
    ensures var t := SkipFillers(s);
      && (Stored(t, q) <==> Stored(s, q))
      && (Stored(t, q) ==> t.slots[q - t.base] == s.slots[q - s.base])
  {
    hide FillerRun, Back;
    var n := FillerRun(s.slots, 0);
    FillerRunMeaning(s.slots, 0);
    FillersEmpty(s.base, s.slots, s.maxOff, n);
  }

  lemma DropConsumed(s: State, slots: seq<Entry>, q: int)
    requires |slots| == |s.slots|
    requires q < s.base || (q - s.base < |slots| && slots[q - s.base].status == Drop)
    ensures Consumed(s.(slots := slots), q)
  {
  }

  lemma FillersEmpty(base: int, slots: seq<Entry>, maxOff: int, n: nat)
    requires SlotsOk(base, slots, maxOff) && n <= |slots| && forall k :: 0 <= k < n ==> Filler(slots[k])
    ensures forall k :: 0 <= k < n ==> slots[k].unit.None?
  {
  }

  /** A slot of the range ends up dropped, unless it holds a message to be kept. */
  lemma RangeIsDropped(s: State, lo: int, hi: int, msgno: int, keep: bool, q: int)
    requires Inv(s) && lo <= q <= hi && s.base <= q && q - s.base < |s.slots| - 1 && lo - s.base < |s.slots| - 1
    requires !KeptSolo(s, q, keep)
    ensures DropSlots(s, lo, hi, msgno, keep).0[q - s.base].status == Drop
  {
    hide NoFirstIn, SlotsOk, CursorOk;
    var a: nat, b: nat := Max(0, lo - s.base), Min(|s.slots| - 1, hi - s.base + 1);
    var marked := MarkDrop(s.slots, a, b, keep);
    DropLeftMeaning(marked, a, msgno, keep);
    assert marked[q - s.base].status == Drop;
  }

  /** What a drop discards is consumed. */
  lemma DiscardConsumes(s: State, e: Event, q: int)
    requires Good(s) && Legal(s, e) && Discards(s, e, q)
    ensures Consumed(Step(s, e), q)
  {
    hide DropUpTo, DropSlots, SkipFillers, SlotsOk, CursorOk, ScanEnd, Touched, Seek, StillReadable;
    match e
    case DropTo(q') => DropToConsumes(s, q', q);
    case DropMsg(lo, hi, msgno, keep) =>
      if hi >= s.base {
        var slots := DropSlots(s, lo, hi, msgno, keep).0;
        DropMessageConsumes(s, lo, hi, msgno, keep, q);
        DropSlotsKeeps(s, lo, hi, msgno, keep);
        SkipStored(s.(slots := slots), q);
        if q >= s.base {
          if lo <= q <= hi && q - s.base < |s.slots| - 1 && !KeptSolo(s, q, keep) {
            RangeIsDropped(s, lo, hi, msgno, keep, q);
          }
          DropConsumed(s, slots, q);
        }
      }
  }

  lemma {:induction false} ConsumedLater(s: State, es: seq<Event>, i: nat, j: nat, q: int)
    requires Good(s) && LegalRun(s, es) && i <= j <= |es| && Consumed(At(s, es, i), q)
    ensures Consumed(At(s, es, j), q)
    decreases j
  {
    hide Consumed, Good, Legal, Step, LegalRun, At;
    if i < j {
      ConsumedLater(s, es, i, j - 1, q);
      AtStep(s, es, j - 1);
      ConsumedStays(At(s, es, j - 1), es[j - 1], q);
    }
  }

  /** What an event accepts or delivers was not consumed before it. */
  lemma OnlyFresh(s: State, e: Event, q: int)
    requires Good(s)
    ensures Accepts(s, e, q) || Delivers(s, e, q) ==> !Consumed(s, q)
  {
    if Delivers(s, e, q) {
      ReadConsumes(s, q);
    }
  }

  /** At most once, over every run: delivered or dropped means never accepted or delivered again. */
  lemma AtMostOnce(s: State, es: seq<Event>, i: nat, j: nat, q: int)
    requires Good(s) && LegalRun(s, es) && i < j < |es|
    requires Delivers(At(s, es, i), es[i], q) || Discards(At(s, es, i), es[i], q)
    ensures !Accepts(At(s, es, j), es[j], q) && !Delivers(At(s, es, j), es[j], q)
  {
    hide Good, Legal, LegalRun, Consumed, Accepts, Discards, Insert, ReadMessage, DropUpTo, DropMessage;
    AtStep(s, es, i);
    if Delivers(At(s, es, i), es[i], q) {
      ReadConsumes(At(s, es, i), q);
    } else {
      DiscardConsumes(At(s, es, i), es[i], q);
    }
    ConsumedLater(s, es, i + 1, j, q);
    OnlyFresh(At(s, es, j), es[j], q);
  }
}

/** Every receiver operation keeps the representation invariant, whatever packets the peer sends. */
module ReceiverInvariant {
  import opened Arith
  import opened Packets
  import opened SeqNo
  import opened ReceiverSpec

  lemma InitialKeeps(base: int, size: nat, messageApi: bool)
    requires size > 0
    ensures Inv(Initial(base, size, messageApi)) && Settled(Initial(base, size, messageApi))
  {
  }

  lemma InsertKeeps(s: State, q: int, p: Packet)
    requires Inv(s) && p.seqno == Wrap(q)
    ensures Inv(Insert(s, q, p).0)
    ensures Settled(s) ==> Settled(Insert(s, q, p).0)
  {
    hide ScanEnd, OnInsertUnordered, IsLast;
    var r := Insert(s, q, p);
    if r.1 == 0 {
      InsertCursor(s, r.0.slots, r.0.maxOff);
    }
  }

  lemma InsertCursor(s: State, slots: seq<Entry>, maxOff: int)
    requires CursorOk(s.messageApi, s.slots, s.maxOff, s.cursor) && |slots| == |s.slots|
    requires SlotsOk(s.base, slots, maxOff) && s.maxOff <= maxOff
    requires forall k :: 0 <= k < |slots| && s.slots[k].unit.Some? ==> slots[k] == s.slots[k]
    ensures CursorOk(s.messageApi, slots, maxOff, ScanEnd(slots, s.messageApi, s.cursor))
  {
    hide ScanEnd, Wrap;
    var c := ScanEnd(slots, s.messageApi, s.cursor);
    ScanEndMeaning(slots, s.messageApi, s.cursor);
    assert c > s.cursor ==> slots[c - 1].unit.Some?;
  }

  lemma CursorBelowMax(s: State)
    requires SlotsOk(s.base, s.slots, s.maxOff) && 0 <= s.cursor <= |s.slots|
    requires s.cursor > 0 ==> s.slots[s.cursor - 1].unit.Some?
    ensures s.cursor <= s.maxOff
  {
  }

  lemma RescanKeepsCursor(s: State)
    requires SlotsOk(s.base, s.slots, s.maxOff)
    ensures CursorOk(s.messageApi, s.slots, s.maxOff, ScanEnd(s.slots, s.messageApi, 0))
  {
    ScanEndMeaning(s.slots, s.messageApi, 0);
    CursorBelowMax(s.(cursor := ScanEnd(s.slots, s.messageApi, 0)));
  }

  lemma AdvanceKeepsSlots(s: State, k: nat)
    requires SlotsOk(s.base, s.slots, s.maxOff) && -1 <= s.ooo < |s.slots|
    ensures var t := Advance(s, k); SlotsOk(t.base, t.slots, t.maxOff)
  {
  }

  lemma AdvanceZero(s: State)
    requires -1 <= s.ooo < |s.slots| && s.maxOff >= 0
    ensures Advance(s, 0) == s
  {
    assert Shift(s.slots, 0) == s.slots;
  }

  lemma AdvanceTwice(s: State, a: nat, b: nat)
    requires -1 <= s.ooo < |s.slots|
    ensures Advance(Advance(s, a), b) == Advance(s, a + b)
  {
    ShiftShift(s.slots, a, b);
    BackTwice(s.ooo, a, b, |s.slots|);
  }

  /** Moving the start up to the cursor, or past it and starting over, leaves a good cursor. */
  lemma AdvanceKeepsCursor(s: State, k: nat, rescan: bool)
    requires SlotsOk(s.base, s.slots, s.maxOff) && CursorOk(s.messageApi, s.slots, s.maxOff, s.cursor) && -1 <= s.ooo < |s.slots|
    ensures var t := Recursor(Advance(s, k), rescan); CursorOk(t.messageApi, t.slots, t.maxOff, t.cursor)
  {
    AdvanceKeepsSlots(s, k);
    RescanKeepsCursor(Advance(s, k));
  }

  lemma SkipSettles(s: State)
    requires SlotsOk(s.base, s.slots, s.maxOff) && -1 <= s.ooo < |s.slots|
    ensures Settled(SkipFillers(s))
    ensures FillerRun(s.slots, 0) < |s.slots|
  {
    FillerRunMeaning(s.slots, 0);
    assert !Filler(s.slots[|s.slots| - 1]);
  }

  lemma MoveKeeps(s: State, k: nat, rescan: bool)
    requires Inv(s)
    ensures Inv(Move(s, k, rescan)) && Settled(Move(s, k, rescan))
  {
    hide Shift, ScanEnd, FillerRun, Back, SlotsOk, CursorOk;
    var t := Advance(s, k);
    var f := FillerRun(t.slots, 0);
    AdvanceKeepsSlots(s, k);
    SkipSettles(t);
    AdvanceTwice(s, k, f);
    AdvanceKeepsSlots(s, k + f);
    AdvanceKeepsCursor(s, k + f, rescan);
  }

  /** The window test on positions tells exactly whether the start moved past the cursor. */
  lemma PassCursor(s: State, k: nat)
    requires Inv(s)
    ensures var t := Pass(s, k);
      && (k <= s.cursor ==> t.cursor == s.cursor - k && t.cursor <= t.maxOff)
      && (k > s.cursor && t.cursor <= t.maxOff ==> t.cursor == 0 && t.maxOff == 0)
  {
  }

  lemma MoveIsPass(s: State, k: nat, rescan: bool)
    requires Inv(s)
    ensures var f := FillerRun(Shift(s.slots, k), 0); var t := Pass(s, k + f);
      && SlotsOk(t.base, t.slots, t.maxOff)
      && SlotsOk(Pass(s, k).base, Pass(s, k).slots, Pass(s, k).maxOff)
      && Pass(Pass(s, k), f) == t
      && f < |s.slots|
      && Move(s, k, rescan) == t.(cursor :=
           if k + f <= s.cursor then s.cursor - k - f else if rescan then ScanEnd(t.slots, s.messageApi, 0) else 0)
  {
    hide Shift, ScanEnd, FillerRun, Back, SlotsOk;
    var t := Advance(s, k);
    var f := FillerRun(t.slots, 0);
    AdvanceKeepsSlots(s, k);
    SkipSettles(t);
    AdvanceTwice(s, k, f);
    AdvanceKeepsSlots(s, k + f);
    PassTwice(s, k, f);
  }

  lemma SeekKeeps(s: State)
    requires Inv(s)
    ensures Inv(Seek(s)) && (Settled(s) ==> Settled(Seek(s)))
  {
  }

  lemma DropUpToKeeps(s: State, q: int)
    requires Inv(s)
    ensures Inv(DropUpTo(s, q).0)
    ensures q > s.base || Settled(s) ==> Settled(DropUpTo(s, q).0)
  {
    hide Move, Seek, SlotsOk, CursorOk;
    if q > s.base {
      var s0 := ForgetOoo(s, q - s.base);
      MoveKeeps(s0, q - s.base, true);
      SeekKeeps(Move(s0, q - s.base, true));
    }
  }

  lemma MarkReadKeeps(s: State, a: nat, b: nat)
    requires Inv(s) && s.cursor <= a <= b < |s.slots|
    ensures Inv(s.(slots := MarkRead(s.slots, a, b)))
  {
  }

  lemma StopBelowEnd(s: State, ro: nat)
    requires Inv(s) && ro < |s.slots|
    ensures ReadStop(s.slots, ro).0 < |s.slots|
  {
    assert s.slots[|s.slots| - 1].unit.None?;
  }

  lemma ReadMessageKeeps(s: State)
    requires Inv(s)
    ensures Inv(ReadMessage(s))
    ensures ReadFrom(s) >= 0 || Settled(s) ==> Settled(ReadMessage(s))
  {
    var ro := ReadFrom(s);
    if ro >= 0 {
      var (stop, ended) := ReadStop(s.slots, ro);
      assert stop < |s.slots| by {
        assert s.slots[|s.slots| - 1].unit.None?;
      }
      var s1 := if ended && ro == s.ooo then s.(ooo := -1) else s;
      var s2 := if ro == 0 then s1 else s1.(slots := MarkRead(s1.slots, ro, stop));
      var k := if ro == 0 then stop else 0;
      if ro > 0 {
        MarkReadKeeps(s1, ro, stop);
      }
      MoveKeeps(s2, k, false);
      SeekKeeps(Move(s2, k, false));
    }
  }

  lemma LosingKeepsSlots(base: int, slots: seq<Entry>, maxOff: int, slots': seq<Entry>)
    requires SlotsOk(base, slots, maxOff) && |slots'| == |slots| && slots'[|slots| - 1] == EMPTY
    requires forall k :: 0 <= k < |slots| ==> slots'[k] == slots[k] || slots'[k] == Entry(None, Drop)
    ensures SlotsOk(base, slots', maxOff)
  {
  }

  lemma DropSlotsKeeps(s: State, lo: int, hi: int, msgno: int, keep: bool)
    requires Inv(s) && lo <= hi && s.base <= hi && lo - s.base < |s.slots| - 1
    ensures var slots := DropSlots(s, lo, hi, msgno, keep).0;
      && SlotsOk(s.base, slots, s.maxOff)
      && forall k :: 0 <= k < |slots| ==> slots[k] == s.slots[k] || slots[k] == Entry(None, Drop)
  {
    hide Wrap, NoFirstIn, Kept, IsFirst, IsLast;
    var a, b := Max(0, lo - s.base), Min(|s.slots| - 1, hi - s.base + 1);
    DropLeftMeaning(MarkDrop(s.slots, a, b, keep), a, msgno, keep);
    LosingKeepsSlots(s.base, s.slots, s.maxOff, DropSlots(s, lo, hi, msgno, keep).0);
  }

  /** Drops beyond the cursor leave everything before and at the cursor as it was. */
  lemma UntouchedKeepsCursor(s: State, slots: seq<Entry>)
    requires Inv(s) && Settled(s) && |slots| == |s.slots|
    requires !Touched(s.slots, slots, s.cursor)
    ensures CursorOk(s.messageApi, slots, s.maxOff, s.cursor) && FillerRun(slots, 0) == 0
  {
    assert forall k :: 0 <= k <= s.cursor ==> slots[k] == s.slots[k];
  }

  /**
    When a message drop leaves the read cursor good: it is recomputed only if a slot up to the
    cursor changes. A filler waiting at the start stays as it is unless it was read, not dropped,
    and the range takes it in; the start then passes the cursor.
   */
  predicate CursorSurvives(s: State, lo: int, hi: int)
    requires |s.slots| > 0
  {
    hi < s.base || Settled(s) || (s.slots[0].status == Read && lo <= s.base)
  }

  /** With a filler waiting at the start, that slot changes exactly if it is a read one inside the range. */
  lemma HeadTouched(s: State, lo: int, hi: int, msgno: int, keep: bool)
    requires Inv(s) && !Settled(s) && lo <= hi && s.base <= hi && lo - s.base < |s.slots| - 1
    ensures s.cursor == 0
    ensures Touched(s.slots, DropSlots(s, lo, hi, msgno, keep).0, 0) <==> s.slots[0].status == Read && lo <= s.base
  {
    hide Wrap, NoFirstIn;
    var a, b := Max(0, lo - s.base), Min(|s.slots| - 1, hi - s.base + 1);
    var marked, slots := MarkDrop(s.slots, a, b, keep), DropSlots(s, lo, hi, msgno, keep).0;
    DropLeftMeaning(marked, a, msgno, keep);
    assert marked[0].unit.None? && slots[0] == marked[0];
  }

  lemma DroppedKeepsIff(s: State, lo: int, hi: int, msgno: int, keep: bool)
    requires Inv(s) && lo <= hi && s.base <= hi && lo - s.base < |s.slots| - 1
    ensures var t := DroppedCursor(s, DropSlots(s, lo, hi, msgno, keep).0);
      && (Inv(t) <==> CursorSurvives(s, lo, hi)) && Settled(t) && t.messageApi == s.messageApi
      && -1 <= t.ooo < |t.slots| && (!t.messageApi ==> t.ooo == -1)
  {
    hide Shift, ScanEnd, FillerRun, Back, SlotsOk, DropSlots, Touched, CursorOk;
    CursorInside(s);
    var slots := DropSlots(s, lo, hi, msgno, keep).0;
    DropSlotsKeeps(s, lo, hi, msgno, keep);
    var s1 := s.(slots := slots);
    SkipSettles(s1);
    AdvanceKeepsSlots(s1, FillerRun(slots, 0));
    if Touched(s.slots, slots, s.cursor) {
      RescanKeepsCursor(SkipFillers(s1));
      if !Settled(s) {
        HeadTouched(s, lo, hi, msgno, keep);
      }
    } else if Settled(s) {
      UntouchedKeepsCursor(s, slots);
      AdvanceZero(s1);
    } else {
      HeadTouched(s, lo, hi, msgno, keep);
      PassedCursorLost(s, slots);
    }
  }

  /** A start that passes fillers and leaves the cursor behind breaks the invariant. */
  lemma PassedCursorLost(s: State, slots: seq<Entry>)
    requires Inv(s) && !Settled(s) && s.cursor == 0 && |slots| == |s.slots| && SlotsOk(s.base, slots, s.maxOff)
    requires !Touched(s.slots, slots, 0)
    ensures !Inv(DroppedCursor(s, slots))
  {
    hide Shift, ScanEnd, SlotsOk;
    SkipSettles(s.(slots := slots));
    assert slots[0] == s.slots[0];
    assert s.maxOff < |s.slots|;
  }

  lemma DroppedKeeps(s: State, lo: int, hi: int, msgno: int, keep: bool)
    requires Inv(s) && Settled(s) && lo <= hi && s.base <= hi && lo - s.base < |s.slots| - 1
    ensures var t := DroppedCursor(s, DropSlots(s, lo, hi, msgno, keep).0); Inv(t) && Settled(t) && t.messageApi == s.messageApi
  {
    hide DroppedCursor, DropSlots, Inv;
    DroppedKeepsIff(s, lo, hi, msgno, keep);
  }

  lemma RecheckKeeps(s: State)
    requires Settled(s) && -1 <= s.ooo < |s.slots| && (!s.messageApi ==> s.ooo == -1)
    ensures (Inv(Recheck(s)) <==> Inv(s)) && Settled(Recheck(s))
  {
  }

  lemma CursorInside(s: State)
    requires Inv(s)
    ensures 0 <= s.cursor <= s.maxOff < |s.slots|
  {
  }

  /**
    A message drop keeps the invariant if and only if the cursor survives it. It fails in stream
    mode, where reads leave dropped slots waiting at the start.
   */
  lemma DropMessageKeepsIff(s: State, lo: int, hi: int, msgno: int, keep: bool)
    requires Inv(s) && lo <= hi && lo - s.base < |s.slots| - 1
    ensures Inv(DropMessage(s, lo, hi, msgno, keep).0) <==> CursorSurvives(s, lo, hi)
    ensures s.base <= hi || Settled(s) ==> Settled(DropMessage(s, lo, hi, msgno, keep).0)
  {
    hide DroppedCursor, Recheck, SlotsOk, CursorOk, DropSlots;
    CursorInside(s);
    if s.base <= hi {
      DroppedKeepsIff(s, lo, hi, msgno, keep);
      RecheckKeeps(DroppedCursor(s, DropSlots(s, lo, hi, msgno, keep).0));
    }
  }

  lemma DropMessageKeeps(s: State, lo: int, hi: int, msgno: int, keep: bool)
    requires Inv(s) && Settled(s) && lo <= hi && lo - s.base < |s.slots| - 1
    ensures Inv(DropMessage(s, lo, hi, msgno, keep).0)
    ensures Settled(DropMessage(s, lo, hi, msgno, keep).0)
  {
    hide DropMessage, Inv, Settled;
    DropMessageKeepsIff(s, lo, hi, msgno, keep);
  }

  /** A notch is inside the first packet, and there is one. */
  ghost predicate NotchOk(s: State) {
    s.notch == 0 || (s.cursor > 0 && NotchFits(s) && 0 < s.notch)
  }

  /** What a stream read needs: if there is something to read, the notch is not past its end. */
  ghost predicate NotchFits(s: State) {
    0 <= s.notch && (s.cursor > 0 ==> |s.slots| > 0 && s.slots[0].unit.Some? && s.notch <= |s.slots[0].unit.value.payload|)
  }

  lemma {:induction false} ReadStreamKeeps(s: State, len: int)
    requires Inv(s) && !s.messageApi && NotchFits(s)
    ensures var r := ReadStream(s, len).0;
      && Inv(r) && !r.messageApi && NotchFits(r) && (NotchOk(s) ==> NotchOk(r)) && r.cursor <= s.cursor
      && r == Advance(s, s.cursor - r.cursor).(notch := r.notch)
    decreases s.cursor
  {
    hide Shift, Back, Wrap;
    AdvanceZero(s);
    if s.cursor > 0 && len > 0 {
      var rest := s.slots[0].unit.value.payload[s.notch..];
      if len >= |rest| {
        var t := Advance(s, 1).(notch := 0);
        AdvanceKeepsSlots(s, 1);
        AdvanceKeepsCursor(s, 1, false);
        ReadStreamKeeps(t, len - |rest|);
        var r := ReadStream(t, len - |rest|).0;
        AdvanceTwice(s, 1, t.cursor - r.cursor);
      }
    }
  }
}

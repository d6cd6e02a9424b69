/**
  Stream mode: the application reads bytes, in pieces of any size, across packet boundaries.

  Reads continue exactly where the last one stopped. Drops move the reading position to a packet
  boundary further on, provided they do not take away the packet that is being read: the notch,
  which counts the bytes of it already read, is not reset and would then be applied to another
  packet. The module gives the exact condition for both kinds of drop and runs that violate it.
 */
module ReceiverStream {
  import opened Arith
  import opened Packets
  import opened SeqNo
  import opened ReceiverSpec
  import opened ReceiverInvariant
  import opened ReceiverRuns
  import opened ReceiverOutOfOrder
  import opened Streams

  datatype StreamEvent =
    | Got(q: int, p: Packet)
    | ReadBytes(len: int)
    | CutTo(q: int)
    | CutRange(lo: int, hi: int, msgno: int, keep: bool)

  /** What every safe run keeps. */
  ghost predicate Streaming(s: State, st: Stream) {
    Inv(s) && !s.messageApi && NotchOk(s) && Faithful(s, st) && st.isn <= s.base
  }

  /** The number of stream packets before the start. */
  function Passed(s: State, st: Stream): nat
    requires st.isn <= s.base
  {
    Min(s.base - st.isn, |st.pk|)
  }

  /** The bytes of the stream before the reading position. */
  ghost function Done(s: State, st: Stream): Bytes
    requires st.isn <= s.base
  {
    var b := Passed(s, st);
    Payloads(st.pk[..b]) + (if b < |st.pk| then Take(st.pk[b].payload, s.notch) else [])
  }

  // ---------------------------------------------------------------- reading

  lemma GotStreaming(s: State, st: Stream, q: int, p: Packet)
    requires Streaming(s, st) && p.seqno == Wrap(q) && OnStream(Arrive(q, p), st)
    ensures Streaming(Insert(s, q, p).0, st) && Done(Insert(s, q, p).0, st) == Done(s, st)
  {
    hide ScanEnd, SlotsOk, CursorOk;
    InsertKeeps(s, q, p);
    InsertFaithful(s, st, q, p);
    InsertStored(s, q, p);
  }

  /** An arrival does not disturb the packet that is being read. */
  lemma InsertStored(s: State, q: int, p: Packet)
    requires Inv(s) && !s.messageApi && NotchOk(s) && p.seqno == Wrap(q)
    ensures NotchOk(Insert(s, q, p).0)
  {
    hide Wrap, ScanEnd;
    InsertKeeps(s, q, p);
  }

  /** Reading one packet to its end: the bytes read so far grow by the rest of its payload. */
  lemma DoneNext(s: State, st: Stream)
    requires Streaming(s, st) && s.cursor > 0
    ensures var t := Advance(s, 1).(notch := 0);
      && Streaming(t, st) && Done(t, st) == Done(s, st) + s.slots[0].unit.value.payload[s.notch..]
  {
    hide SlotsOk, Wrap, Back;
    var b := s.base - st.isn;
    assert s.slots[0].unit.value == st.pk[b];
    AdvanceKeepsSlots(s, 1);
    AdvanceKeepsCursor(s, 1, false);
    var p := st.pk[b].payload;
    assert st.pk[..b + 1] == st.pk[..b] + [st.pk[b]];
    PayloadsConcat(st.pk[..b], [st.pk[b]]);
    assert Payloads([st.pk[b]]) == p + [];
    assert Take(p, s.notch) + p[s.notch..] == p;
    assert Payloads(st.pk[..b]) + (Take(p, s.notch) + p[s.notch..]) == Done(s, st) + p[s.notch..];
  }

  lemma DonePart(s: State, st: Stream, len: int)
    requires Streaming(s, st) && s.cursor > 0 && 0 < len < |s.slots[0].unit.value.payload| - s.notch
    ensures var t := s.(notch := s.notch + len);
      && Streaming(t, st) && Done(t, st) == Done(s, st) + s.slots[0].unit.value.payload[s.notch..][..len]
  {
    hide SlotsOk, Wrap;
    var b := s.base - st.isn;
    assert s.slots[0].unit.value == st.pk[b];
    var p := st.pk[b].payload;
    assert Take(p, s.notch + len) == Take(p, s.notch) + p[s.notch..][..len];
    var d := Payloads(st.pk[..b]);
    assert d + (Take(p, s.notch) + p[s.notch..][..len]) == (d + Take(p, s.notch)) + p[s.notch..][..len];
  }

  /** A stream read continues exactly where the last one stopped. */
  lemma {:induction false} ReadContinues(s: State, st: Stream, len: int)
    requires Streaming(s, st)
    ensures var r := ReadStream(s, len); Streaming(r.0, st) && Done(r.0, st) == Done(s, st) + r.1
    decreases s.cursor
  {
    hide SlotsOk, Done, Advance, Faithful;
    if s.cursor == 0 || len <= 0 {
      assert Done(s, st) + [] == Done(s, st);
    } else {
      var rest := s.slots[0].unit.value.payload[s.notch..];
      if len >= |rest| {
        var t := Advance(s, 1).(notch := 0);
        DoneNext(s, st);
        AdvanceCursor(s);
        ReadContinues(t, st, len - |rest|);
        var r := ReadStream(t, len - |rest|);
        assert Done(s, st) + (rest + r.1) == (Done(s, st) + rest) + r.1;
      } else {
        DonePart(s, st, len);
      }
    }
  }

  lemma AdvanceCursor(s: State)
    requires -1 <= s.ooo < |s.slots|
    ensures Advance(s, 1).cursor == s.cursor - 1
  {
  }

  /** The bytes available to a stream read. */
  ghost function Ready(s: State): Bytes
    requires Inv(s) && NotchFits(s)
  {
    var all := Payloads(Units(s.slots[..s.cursor]));
    if s.notch <= |all| then all[s.notch..] else []
  }

  lemma TakeFront(a: Bytes, b: Bytes, len: int)
    ensures 0 < len && |a| <= len ==> Take(a + b, len) == a + Take(b, len - |a|)
    ensures 0 < len < |a| ==> Take(a + b, len) == a[..len]
  {
  }

  /** What is available is the rest of the first packet and what is available behind it. */
  lemma ReadyNext(s: State)
    requires Inv(s) && !s.messageApi && NotchFits(s) && s.cursor > 0
    ensures var t := Advance(s, 1).(notch := 0);
      Inv(t) && NotchFits(t) && Ready(s) == s.slots[0].unit.value.payload[s.notch..] + Ready(t)
  {
    hide SlotsOk, Wrap, Back;
    var ps := Units(s.slots[..s.cursor]);
    var p := s.slots[0].unit.value.payload;
    var t := Advance(s, 1).(notch := 0);
    AdvanceKeepsSlots(s, 1);
    AdvanceKeepsCursor(s, 1, false);
    assert Units(t.slots[..t.cursor]) == ps[1..];
    assert Payloads(ps) == p + Payloads(ps[1..]);
  }

  /** A stream read returns all the available bytes it has room for. */
  lemma {:induction false} ReadTakesAll(s: State, len: int)
    requires Inv(s) && !s.messageApi && NotchFits(s)
    ensures ReadStream(s, len).1 == Take(Ready(s), len)
    decreases s.cursor
  {
    hide SlotsOk, Shift, Back, Units, Payloads;
    if s.cursor > 0 {
      hide Ready;
      var t := Advance(s, 1).(notch := 0);
      var rest := s.slots[0].unit.value.payload[s.notch..];
      ReadyNext(s);
      TakeFront(rest, Ready(t), len);
      if len >= |rest| && len > 0 {
        ReadTakesAll(t, len - |rest|);
      }
    } else {
      NothingReady(s);
    }
  }

  lemma NothingReady(s: State)
    requires Inv(s) && NotchFits(s) && s.cursor == 0
    ensures Ready(s) == []
  {
    assert s.slots[..0] == [];
  }

  // ---------------------------------------------------------------- drops and the notch

  /** The next read starts at a packet boundary, or inside the packet that was being read. */
  predicate Resumes(s: State, t: State) {
    t.notch == 0 || t.base == s.base
  }

  /** A drop up to a number resumes well if and only if no packet is half read or nothing is dropped. */
  lemma CutToIff(s: State, q: int)
    requires Inv(s)
    ensures Resumes(s, DropUpTo(s, q).0) <==> s.notch == 0 || q <= s.base
  {
    hide Shift, FillerRun, Back, ScanEnd, SlotsOk, CursorOk, ScanOoo;
  }

  lemma DropUpToFields(s: State, q: int)
    requires Inv(s)
    ensures var t := DropUpTo(s, q).0; t.notch == s.notch && t.messageApi == s.messageApi && s.base <= t.base
    ensures q > s.base ==> q <= DropUpTo(s, q).0.base
  {
    hide Shift, FillerRun, Back, ScanEnd, SlotsOk, CursorOk, ScanOoo;
  }

  lemma NotchInPayloads(s: State)
    requires Inv(s) && NotchFits(s) && s.cursor > 0
    ensures s.notch <= |Payloads(Units(s.slots[..s.cursor]))|
  {
    var ps := Units(s.slots[..s.cursor]);
    assert Payloads(ps) == ps[0].payload + Payloads(ps[1..]);
  }

  /** The backward loop, starting at slot `a`, comes to the first slot. */
  predicate BackToHead(slots: seq<Entry>, a: nat, msgno: int, keep: bool)
    requires a < |slots|
  {
    forall k :: 0 <= k <= a && slots[k].unit.Some? ==>
      slots[k].unit.value.msgno == msgno && !Kept(slots[k], keep) && (k > 0 ==> !Opens(slots[k]))
  }

  /** A message drop takes the first slot: in the range, or on the way back through its message. */
  predicate TakesHead(s: State, lo: int, hi: int, msgno: int, keep: bool)
    requires |s.slots| > 0 && lo - s.base < |s.slots| - 1
  {
    var b := Min(|s.slots| - 1, hi - s.base + 1);
    && s.base <= hi
    && if lo <= s.base then !Kept(s.slots[0], keep)
       else msgno > 0 && lo <= hi && NoFirstIn(s.slots, lo - s.base, b, keep) && BackToHead(s.slots, lo - s.base - 1, msgno, keep)
  }

  lemma {:induction false} BackTakesHead(slots: seq<Entry>, i: nat, msgno: int, keep: bool)
    requires i < |slots| && slots[0].unit.Some?
    ensures DropLeft(slots, i, msgno, keep).0[0].unit.None? <==> BackToHead(slots, i, msgno, keep)
    ensures DropLeft(slots, i, msgno, keep).0[0].unit.Some? ==> DropLeft(slots, i, msgno, keep).0[0] == slots[0]
    decreases i
  {
    var slots' := slots[i := Entry(None, Drop)];
    if i > 0 {
      BackTakesHead(slots, i - 1, msgno, keep);
      BackTakesHead(slots', i - 1, msgno, keep);
      assert BackToHead(slots, i, msgno, keep) ==> BackToHead(slots, i - 1, msgno, keep);
      assert forall k :: 0 <= k < i ==> slots'[k] == slots[k];
    }
  }

  lemma HeadInRange(s: State, lo: int, hi: int, msgno: int, keep: bool)
    requires Inv(s) && s.slots[0].unit.Some? && lo <= s.base <= hi && lo - s.base < |s.slots| - 1
    ensures var e := DropSlots(s, lo, hi, msgno, keep).0[0];
      e == if Kept(s.slots[0], keep) then s.slots[0] else Entry(None, Drop)
  {
    hide Wrap, DropLeft;
    var b: nat := Min(|s.slots| - 1, hi - s.base + 1);
    assert b > 0;
    DropLeftMeaning(MarkDrop(s.slots, 0, b, keep), 0, msgno, keep);
    assert s.slots[0].status != Drop;
  }

  lemma HeadBeforeRange(s: State, lo: int, hi: int, msgno: int, keep: bool)
    requires Inv(s) && s.slots[0].unit.Some? && s.base < lo <= hi && lo - s.base < |s.slots| - 1
    ensures var e := DropSlots(s, lo, hi, msgno, keep).0[0];
      && (e.unit.None? <==> TakesHead(s, lo, hi, msgno, keep))
      && (e.unit.Some? ==> e == s.slots[0])
  {
    hide Wrap, DropLeft, Opens;
    var a: nat, b: nat := lo - s.base, Min(|s.slots| - 1, hi - s.base + 1);
    var marked := MarkDrop(s.slots, a, b, keep);
    assert forall k :: 0 <= k < a ==> marked[k] == s.slots[k];
    if NoFirstIn(s.slots, a, b, keep) {
      assert marked[a].unit.None?;
      PassNone(marked, a, msgno, keep);
      BackTakesHead(marked, a - 1, msgno, keep);
    }
  }

  lemma PassNone(slots: seq<Entry>, i: nat, msgno: int, keep: bool)
    requires 0 < i < |slots| && slots[i].unit.None?
    ensures DropLeft(slots, i, msgno, keep) == DropLeft(slots, i - 1, msgno, keep)
  {
  }

  /** The first packet goes exactly if the drop takes it. */
  lemma HeadTaken(s: State, lo: int, hi: int, msgno: int, keep: bool)
    requires Inv(s) && s.slots[0].unit.Some? && lo <= hi && s.base <= hi && lo - s.base < |s.slots| - 1
    ensures var e := DropSlots(s, lo, hi, msgno, keep).0[0];
      && (e.unit.None? <==> TakesHead(s, lo, hi, msgno, keep))
      && (e.unit.Some? ==> e == s.slots[0])
      && (e.unit.None? ==> e.status == Drop)
  {
    hide DropSlots, SlotsOk, CursorOk, NoFirstIn, BackToHead, Kept;
    DropSlotsKeeps(s, lo, hi, msgno, keep);
    if lo <= s.base {
      HeadInRange(s, lo, hi, msgno, keep);
    } else {
      HeadBeforeRange(s, lo, hi, msgno, keep);
    }
  }

  /** The fields of a state a message drop leaves behind. */
  lemma DropMessageFields(s: State, lo: int, hi: int, msgno: int, keep: bool)
    requires Inv(s) && !s.messageApi && lo <= hi && s.base <= hi && lo - s.base < |s.slots| - 1
    ensures var t := DropMessage(s, lo, hi, msgno, keep).0; var slots := DropSlots(s, lo, hi, msgno, keep).0;
      && t.notch == s.notch && !t.messageApi && t.base == s.base + FillerRun(slots, 0)
      && t.slots == Shift(slots, FillerRun(slots, 0))
      && (Touched(s.slots, slots, s.cursor) ==> t.cursor == ScanEnd(t.slots, false, 0))
      && (!Touched(s.slots, slots, s.cursor) ==> t.cursor == Back(s.cursor, FillerRun(slots, 0), |slots|))
  {
    hide DropSlots, SlotsOk, Touched, ScanEnd, Back, FillerRun;
  }

  /**
    A message drop resumes well if and only if no packet is half read or the drop does not take
    the first slot.
   */
  lemma CutRangeIff(s: State, lo: int, hi: int, msgno: int, keep: bool)
    requires Inv(s) && !s.messageApi && NotchOk(s) && lo <= hi && lo - s.base < |s.slots| - 1
    ensures Resumes(s, DropMessage(s, lo, hi, msgno, keep).0) <==> s.notch == 0 || !TakesHead(s, lo, hi, msgno, keep)
  {
    hide DropSlots, DropMessage, SlotsOk, Touched, ScanEnd, Back, TakesHead;
    if s.base <= hi {
      DropMessageFields(s, lo, hi, msgno, keep);
      if s.notch != 0 {
        HeadTaken(s, lo, hi, msgno, keep);
        HeadHeld(s);
      }
    } else {
      NothingInRange(s, lo, hi, msgno, keep);
    }
  }

  lemma HeadHeld(s: State)
    requires Inv(s) && s.slots[0].unit.Some?
    ensures !Filler(s.slots[0])
  {
  }

  lemma NothingInRange(s: State, lo: int, hi: int, msgno: int, keep: bool)
    requires Inv(s) && hi < s.base && lo <= hi && lo - s.base < |s.slots| - 1
    ensures !TakesHead(s, lo, hi, msgno, keep) && DropMessage(s, lo, hi, msgno, keep).0 == s
  {
  }

  // ---------------------------------------------------------------- safe runs

  /** An event a caller may issue: a drop must leave the cursor and the half-read packet alone. */
  predicate Safe(s: State, e: StreamEvent)
    requires Inv(s)
  {
    match e
    case Got(q, p) => p.seqno == Wrap(q)
    case ReadBytes(_) => true
    case CutTo(q) => s.notch == 0 || q <= s.base
    case CutRange(lo, hi, msgno, keep) =>
      && lo <= hi && lo - s.base < |s.slots| - 1
      && CursorSurvives(s, lo, hi) && (s.notch == 0 || !TakesHead(s, lo, hi, msgno, keep))
  }

  ghost predicate OnBytes(e: StreamEvent, st: Stream) {
    e.Got? ==> OnStream(Arrive(e.q, e.p), st)
  }

  /** An event the code can carry out. */
  ghost predicate Callable(s: State, e: StreamEvent) {
    && Inv(s) && !s.messageApi && NotchFits(s)
    && (e.CutRange? ==> e.lo <= e.hi && e.lo - s.base < |s.slots| - 1)
  }

  lemma SafeIsCallable(s: State, st: Stream, e: StreamEvent)
    requires Streaming(s, st) && Safe(s, e)
    ensures Callable(s, e)
  {
  }

  ghost function ByteStep(s: State, e: StreamEvent): (State, Bytes)
    requires Callable(s, e)
  {
    match e
    case Got(q, p) => (Insert(s, q, p).0, [])
    case ReadBytes(len) => ReadStream(s, len)
    case CutTo(q) => (DropUpTo(s, q).0, [])
    case CutRange(lo, hi, msgno, keep) => (DropMessage(s, lo, hi, msgno, keep).0, [])
  }

  /** A step either moves the position by the bytes it returns, or over whole packets. */
  ghost predicate Moves(s: State, t: State, st: Stream, b: Bytes, cut: bool)
    requires st.isn <= s.base && st.isn <= t.base
  {
    if cut && t.base != s.base then
      s.base < t.base && s.notch == 0 && t.notch == 0 && b == []
      && Done(t, st) == Done(s, st) + Payloads(st.pk[Passed(s, st)..Passed(t, st)])
    else Done(t, st) == Done(s, st) + b
  }

  /** Moving the start over whole packets moves the position by their payloads. */
  lemma DoneJumps(s: State, t: State, st: Stream)
    requires st.isn <= s.base <= t.base && s.notch == 0 && t.notch == 0
    ensures Passed(s, st) <= Passed(t, st)
    ensures Done(t, st) == Done(s, st) + Payloads(st.pk[Passed(s, st)..Passed(t, st)])
  {
    var a, b := Passed(s, st), Passed(t, st);
    assert st.pk[..b] == st.pk[..a] + st.pk[a..b];
    PayloadsConcat(st.pk[..a], st.pk[a..b]);
    assert Done(s, st) == Payloads(st.pk[..a]) + [] && Done(t, st) == Payloads(st.pk[..b]) + [];
  }

  lemma CutToStep(s: State, st: Stream, q: int)
    requires Streaming(s, st) && Safe(s, CutTo(q))
    ensures var t := DropUpTo(s, q).0; Streaming(t, st) && Moves(s, t, st, [], true)
  {
    hide SlotsOk, CursorOk, DropUpTo, Faithful, Done;
    var t := DropUpTo(s, q).0;
    DropUpToKeeps(s, q);
    DropUpToFields(s, q);
    DropToNothingNew(s, q);
    NothingNewFaithful(s, t, st);
    if q <= s.base {
      DropNothing(s, q);
      assert Done(s, st) + [] == Done(s, st);
    } else {
      DoneJumps(s, t, st);
    }
  }

  lemma DropNothing(s: State, q: int)
    requires Inv(s) && q <= s.base
    ensures DropUpTo(s, q).0 == s
  {
  }

  /** A drop that does not take a half-read packet leaves it first in the buffer. */
  lemma NotchKept(s: State, lo: int, hi: int, msgno: int, keep: bool)
    requires Inv(s) && !s.messageApi && NotchOk(s) && 0 < s.notch
    requires s.base <= hi && lo <= hi && lo - s.base < |s.slots| - 1 && !TakesHead(s, lo, hi, msgno, keep)
    ensures var t := DropMessage(s, lo, hi, msgno, keep).0; NotchOk(t) && t.base == s.base
  {
    hide DropSlots, DropMessage, SlotsOk, Touched, TakesHead;
    var slots := DropSlots(s, lo, hi, msgno, keep).0;
    DropMessageFields(s, lo, hi, msgno, keep);
    HeadTaken(s, lo, hi, msgno, keep);
    HeadHeld(s);
    assert FillerRun(slots, 0) == 0;
    assert Shift(slots, 0) == slots;
  }

  lemma CutRangeStep(s: State, st: Stream, lo: int, hi: int, msgno: int, keep: bool)
    requires Streaming(s, st) && Safe(s, CutRange(lo, hi, msgno, keep))
    ensures var t := DropMessage(s, lo, hi, msgno, keep).0; Streaming(t, st) && Moves(s, t, st, [], true)
  {
    hide SlotsOk, CursorOk, DropMessage, DropSlots, Faithful, Done, TakesHead, Touched, ScanEnd, Back, FillerRun;
    var t := DropMessage(s, lo, hi, msgno, keep).0;
    DropMessageKeepsIff(s, lo, hi, msgno, keep);
    DropMessageNothingNew(s, lo, hi, msgno, keep);
    NothingNewFaithful(s, t, st);
    if hi < s.base {
      NothingInRange(s, lo, hi, msgno, keep);
      assert Done(s, st) + [] == Done(s, st);
    } else {
      DropMessageFields(s, lo, hi, msgno, keep);
      if s.notch != 0 {
        NotchKept(s, lo, hi, msgno, keep);
      }
      if t.base == s.base {
        SamePosition(s, t, st);
      } else {
        DoneJumps(s, t, st);
      }
    }
  }

  lemma SamePosition(s: State, t: State, st: Stream)
    requires st.isn <= s.base == t.base && s.notch == t.notch
    ensures Done(t, st) == Done(s, st) + []
  {
  }

  /** Every safe event keeps what the runs rely on, and moves the reading position as it should. */
  lemma StreamingStep(s: State, st: Stream, e: StreamEvent)
    requires Streaming(s, st) && Safe(s, e) && OnBytes(e, st)
    ensures var r := ByteStep(s, e); Streaming(r.0, st) && Moves(s, r.0, st, r.1, e.CutTo? || e.CutRange?)
  {
    hide Inv, NotchOk, NotchFits, Faithful, Done, Insert, DropUpTo, DropMessage, ReadStream;
    match e
    case Got(q, p) => GotStreaming(s, st, q, p); assert Done(s, st) + [] == Done(s, st);
    case ReadBytes(len) => ReadContinues(s, st, len);
    case CutTo(q) => CutToStep(s, st, q);
    case CutRange(lo, hi, msgno, keep) => CutRangeStep(s, st, lo, hi, msgno, keep);
  }

  // ---------------------------------------------------------------- whole runs

  ghost predicate SafeRun(s: State, st: Stream, es: seq<StreamEvent>)
    decreases |es|
  {
    && Streaming(s, st)
    && (es == [] || (Safe(s, es[0]) && OnBytes(es[0], st) && SafeRun(ByteStep(s, es[0]).0, st, es[1..])))
  }

  /** What a run did, in order: bytes handed out, and the stream packets from `i` to `j` cut out. */
  datatype Piece = Returned(b: Bytes) | CutOut(i: nat, j: nat)

  ghost function Pieces(s: State, st: Stream, es: seq<StreamEvent>): seq<Piece>
    requires SafeRun(s, st, es)
    decreases |es|
  {
    if es == [] then []
    else
      var e, r := es[0], ByteStep(s, es[0]);
      (if !(e.CutTo? || e.CutRange?) then [Returned(r.1)]
       else if r.0.base == s.base then [] else [CutOut(Passed(s, st), Passed(r.0, st))])
      + Pieces(r.0, st, es[1..])
  }

  ghost function Finally(s: State, st: Stream, es: seq<StreamEvent>): (r: State)
    requires SafeRun(s, st, es)
    ensures Streaming(r, st)
    decreases |es|
  {
    if es == [] then s else Finally(ByteStep(s, es[0]).0, st, es[1..])
  }

  function PieceBytes(p: Piece, st: Stream): Bytes {
    match p
    case Returned(b) => b
    case CutOut(i, j) => if i <= j <= |st.pk| then Payloads(st.pk[i..j]) else []
  }

  /** The bytes of all pieces, those cut out included. */
  function Joined(ps: seq<Piece>, st: Stream): Bytes {
    if ps == [] then [] else PieceBytes(ps[0], st) + Joined(ps[1..], st)
  }

  /** The bytes handed out. */
  function Reads(ps: seq<Piece>): Bytes {
    if ps == [] then [] else (if ps[0].Returned? then ps[0].b else []) + Reads(ps[1..])
  }

  lemma JoinedOne(p: Piece, ps: seq<Piece>, st: Stream, d: Bytes)
    ensures d + Joined([p] + ps, st) == (d + PieceBytes(p, st)) + Joined(ps, st)
  {
    assert ([p] + ps)[1..] == ps;
  }

  /** The pieces of a run, end to end, lead from its first reading position to its last. */
  lemma {:induction false} RunMoves(s: State, st: Stream, es: seq<StreamEvent>)
    requires SafeRun(s, st, es)
    ensures Done(Finally(s, st, es), st) == Done(s, st) + Joined(Pieces(s, st, es), st)
    decreases |es|
  {
    hide Inv, NotchOk, NotchFits, Faithful, Done, ByteStep, Callable, Safe, Joined, Payloads, Passed;
    if es == [] {
      NoPieces(st);
      assert Done(s, st) + [] == Done(s, st);
    } else {
      SafeIsCallable(s, st, es[0]);
      var e, r := es[0], ByteStep(s, es[0]);
      StreamingStep(s, st, e);
      RunMoves(r.0, st, es[1..]);
      var ps := Pieces(r.0, st, es[1..]);
      if !(e.CutTo? || e.CutRange?) {
        JoinedOne(Returned(r.1), ps, st, Done(s, st));
      } else if r.0.base == s.base {
        assert [] + ps == ps;
        CutReturnsNothing(s, e);
        assert Done(s, st) + [] == Done(s, st);
      } else {
        PassedInside(s, r.0, st);
        JoinedOne(CutOut(Passed(s, st), Passed(r.0, st)), ps, st, Done(s, st));
      }
    }
  }

  lemma NoPieces(st: Stream)
    ensures Joined([], st) == []
  {
  }

  lemma CutReturnsNothing(s: State, e: StreamEvent)
    requires Callable(s, e) && (e.CutTo? || e.CutRange?)
    ensures ByteStep(s, e).1 == []
  {
    hide DropMessage, DropUpTo, Callable;
  }

  lemma PassedInside(s: State, t: State, st: Stream)
    requires st.isn <= s.base <= t.base
    ensures Passed(s, st) <= Passed(t, st) <= |st.pk|
  {
  }

  lemma DoneIsPrefix(s: State, st: Stream)
    requires st.isn <= s.base
    ensures Done(s, st) <= Payloads(st.pk)
  {
    var b := Passed(s, st);
    assert st.pk[..b] + st.pk[b..] == st.pk;
    PayloadsConcat(st.pk[..b], st.pk[b..]);
  }

  lemma StreamingStarts(st: Stream, size: nat)
    requires size > 0
    ensures Streaming(Initial(st.isn, size, false), st) && Done(Initial(st.isn, size, false), st) == []
  {
    assert st.pk[..0] == [];
  }

  /**
    Over every safe run with drops, the bytes handed out are the payloads in sequence order with
    nothing but whole packets cut out, each where the reading position was at the drop.
   */
  lemma StreamReadsAroundCuts(st: Stream, size: nat, es: seq<StreamEvent>)
    requires size > 0 && SafeRun(Initial(st.isn, size, false), st, es)
    ensures Joined(Pieces(Initial(st.isn, size, false), st, es), st) <= Payloads(st.pk)
  {
    hide Streaming, Done, SafeRun, Pieces, Joined, Payloads;
    var s := Initial(st.isn, size, false);
    StreamingStarts(st, size);
    RunMoves(s, st, es);
    var j := Joined(Pieces(s, st, es), st);
    assert [] + j == j;
    InStream(Finally(s, st, es), st);
  }

  lemma InStream(s: State, st: Stream)
    requires Streaming(s, st)
    ensures Done(s, st) <= Payloads(st.pk)
  {
    DoneIsPrefix(s, st);
  }

  predicate Uncut(es: seq<StreamEvent>, st: Stream) {
    forall i :: 0 <= i < |es| ==>
      es[i].ReadBytes? ||
      (es[i].Got? && 0 <= es[i].q - st.isn < |st.pk| && es[i].p == st.pk[es[i].q - st.isn] && es[i].p.seqno == Wrap(es[i].q))
  }

  /** Runs without drops are always safe, and cut nothing out. */
  lemma {:induction false} UncutIsSafe(s: State, st: Stream, es: seq<StreamEvent>)
    requires Streaming(s, st) && Uncut(es, st)
    ensures SafeRun(s, st, es) && Reads(Pieces(s, st, es)) == Joined(Pieces(s, st, es), st)
    decreases |es|
  {
    hide Inv, NotchOk, NotchFits, Faithful, ByteStep;
    if es != [] {
      StreamingStep(s, st, es[0]);
      SafeIsCallable(s, st, es[0]);
      var r := ByteStep(s, es[0]);
      UncutIsSafe(r.0, st, es[1..]);
      assert ([Returned(r.1)] + Pieces(r.0, st, es[1..]))[1..] == Pieces(r.0, st, es[1..]);
    }
  }

  /**
    Over every stream-mode run without drops, whatever the order of arrival and the sizes read,
    the bytes handed out are a prefix of the payloads in sequence order.
   */
  lemma StreamReadsArePrefix(st: Stream, size: nat, es: seq<StreamEvent>)
    requires size > 0 && Uncut(es, st)
    ensures SafeRun(Initial(st.isn, size, false), st, es)
    ensures Reads(Pieces(Initial(st.isn, size, false), st, es)) <= Payloads(st.pk)
  {
    hide Streaming, SafeRun, Pieces, Joined, Reads, Payloads, Done;
    StreamingStarts(st, size);
    UncutIsSafe(Initial(st.isn, size, false), st, es);
    StreamReadsAroundCuts(st, size, es);
  }

  /** After a drop of either kind that took a half-read packet, the next read skips as many bytes of another one. */
  lemma CutLosesBytes(s: State, e: StreamEvent, len: int)
    requires Callable(s, e) && NotchOk(s) && (e.CutTo? || e.CutRange?) && !Resumes(s, ByteStep(s, e).0)
    requires Inv(ByteStep(s, e).0) && NotchFits(ByteStep(s, e).0)
    ensures var t := ByteStep(s, e).0;
      && s.base < t.base && 0 < t.notch == s.notch && StreamReady(t) && 0 <= t.cursor <= |t.slots|
      && (forall k :: 0 <= k < t.cursor ==> t.slots[k].unit.Some?)
      && (t.cursor > 0 ==> t.notch <= |Payloads(Units(t.slots[..t.cursor]))|)
      && ReadStream(t, len).1 == Take(if t.cursor > 0 then Payloads(Units(t.slots[..t.cursor]))[s.notch..] else [], len)
  {
    hide SlotsOk, Payloads, Units, ReadStream, DropUpTo, DropMessage, DropSlots, Touched, ScanEnd, Shift, FillerRun, Back;
    var t := ByteStep(s, e).0;
    match e {
      case CutTo(q) => DropUpToFields(s, q);
      case CutRange(lo, hi, msgno, keep) =>
        if hi < s.base {
          NothingInRange(s, lo, hi, msgno, keep);
        } else {
          DropMessageFields(s, lo, hi, msgno, keep);
        }
    }
    ReadTakesAll(t, len);
    if t.cursor == 0 {
      NothingReady(t);
    } else {
      NotchInPayloads(t);
    }
  }

  // ---------------------------------------------------------------- runs that are not safe

  function Data(q: int, b: Bytes): Packet {
    Packet(Wrap(q), 1, true, true, true, b)
  }

  function Held(p: Packet): Entry {
    Entry(Some(p), Avail)
  }

  const GONE := Entry(None, Drop)

  function Flat(base: int, slots: seq<Entry>, maxOff: int, cursor: int, notch: int): State {
    State(false, base, slots, maxOff, cursor, -1, notch)
  }

  ghost predicate Leads(s: State, e: StreamEvent, t: State, b: Bytes) {
    Callable(s, e) && ByteStep(s, e) == (t, b)
  }

  const A0 := Initial(0, 5, false)
  const A1 := Flat(0, [Held(Data(0, [1])), EMPTY, EMPTY, EMPTY, EMPTY], 1, 1, 0)
  const A2 := Flat(0, [Held(Data(0, [1])), GONE, EMPTY, EMPTY, EMPTY], 1, 1, 0)
  const A3 := Flat(1, [GONE, EMPTY, EMPTY, EMPTY, EMPTY], 0, 0, 0)

  lemma PacketArrives(b: Bytes)
    ensures Leads(A0, Got(0, Data(0, b)), Flat(0, [Held(Data(0, b)), EMPTY, EMPTY, EMPTY, EMPTY], 1, 1, 0), [])
  {
    InitialKeeps(0, 5, false);
    assert A0.slots == [EMPTY, EMPTY, EMPTY, EMPTY, EMPTY];
    var slots := [Held(Data(0, b)), EMPTY, EMPTY, EMPTY, EMPTY];
    assert A0.slots[0 := Held(Data(0, b))] == slots;
    assert ScanEnd(slots, false, 1) == 1;
    assert ScanEnd(slots, false, 0) == 1;
  }

  lemma NextIsDropped()
    requires Inv(A1)
    ensures Leads(A1, CutRange(1, 1, 0, false), A2, [])
  {
    var slots := DropSlots(A1, 1, 1, 0, false).0;
    assert slots == A2.slots;
    assert A1.slots[1] != slots[1];
    assert Touched(A1.slots, slots, 1);
    assert FillerRun(slots, 0) == 0;
    assert Shift(slots, 0) == slots;
    assert ScanEnd(slots, false, 1) == 1;
    assert ScanEnd(slots, false, 0) == 1;
  }

  lemma FirstIsRead()
    requires Inv(A2)
    ensures Leads(A2, ReadBytes(10), A3, [1])
  {
    assert Shift(A2.slots, 1) == A3.slots;
    assert Advance(A2, 1) == A3;
    assert ReadStream(A3, 9) == (A3, []);
    assert [1] + [] == [1 as bv8];
  }

  /**
    A reachable buffer that a message drop breaks: a read leaves a dropped slot waiting at the
    start, and the next drop moves the start past the read cursor.
   */
  lemma LostCursorRun()
    ensures Leads(A0, Got(0, Data(0, [1])), A1, []) && Leads(A1, CutRange(1, 1, 0, false), A2, [])
    ensures Leads(A2, ReadBytes(10), A3, [1]) && Inv(A3)
    ensures !Inv(DropMessage(A3, 3, 3, 0, false).0)
  {
    hide ByteStep, DropMessage;
    PacketArrives([1]);
    assert Inv(A1);
    NextIsDropped();
    assert Inv(A2);
    FirstIsRead();
    assert Inv(A3) && !Settled(A3);
    DropMessageKeepsIff(A3, 3, 3, 0, false);
  }

  const B1 := Flat(0, [Held(Data(0, [1, 2, 3])), EMPTY, EMPTY, EMPTY, EMPTY], 1, 1, 0)
  const B2 := B1.(notch := 2)
  const B3 := Flat(1, [EMPTY, EMPTY, EMPTY, EMPTY, EMPTY], 0, 0, 2)

  const B4 := Flat(2, [EMPTY, EMPTY, EMPTY, EMPTY, EMPTY], 0, 0, 0)

  function Behind(b: Bytes): State {
    Flat(1, [Held(Data(1, b)), EMPTY, EMPTY, EMPTY, EMPTY], 1, 1, 2)
  }

  lemma TwoBytesRead()
    requires Inv(B1)
    ensures Leads(B1, ReadBytes(2), B2, [1, 2])
  {
    var rest: Bytes := [1, 2, 3];
    assert rest[0..] == rest && rest[..2] == [1, 2];
    assert ReadStream(B1, 2) == (B2, rest[0..][..2]);
  }

  lemma HalfReadDropped()
    requires Inv(B2)
    ensures Leads(B2, CutTo(1), B3, [])
  {
    assert Shift(B2.slots, 1) == B3.slots;
    assert FillerRun(B3.slots, 0) == 0;
    assert Shift(B3.slots, 0) == B3.slots;
    assert ScanEnd(B3.slots, false, 0) == 0;
  }

  lemma NextArrives(b: Bytes)
    requires Inv(B3)
    ensures Leads(B3, Got(1, Data(1, b)), Behind(b), [])
  {
    assert B3.slots[0 := Held(Data(1, b))] == Behind(b).slots;
    assert ScanEnd(Behind(b).slots, false, 1) == 1;
    assert ScanEnd(Behind(b).slots, false, 0) == 1;
  }

  /**
    A run in which a half-read packet is dropped: of a next packet of three bytes two are lost,
    and with a next packet of one byte the notch is past its end.
   */
  lemma LostBytesRun()
    ensures Leads(A0, Got(0, Data(0, [1, 2, 3])), B1, []) && Leads(B1, ReadBytes(2), B2, [1, 2])
    ensures Leads(B2, CutTo(1), B3, []) && Leads(B3, Got(1, Data(1, [4])), Behind([4]), [])
    ensures Leads(B3, Got(1, Data(1, [4, 5, 6])), Behind([4, 5, 6]), [])
    ensures !NotchFits(Behind([4]))
    ensures Leads(Behind([4, 5, 6]), ReadBytes(10), B4, [6])
  {
    hide ByteStep;
    PacketArrives([1, 2, 3]);
    assert Inv(B1);
    TwoBytesRead();
    assert Inv(B2);
    HalfReadDropped();
    assert Inv(B3);
    NextArrives([4]);
    NextArrives([4, 5, 6]);
    LastByteRead();
  }

  lemma LastByteRead()
    ensures Leads(Behind([4, 5, 6]), ReadBytes(10), B4, [6])
  {
    var s := Behind([4, 5, 6]);
    var rest: Bytes := [4, 5, 6];
    assert rest[2..] == [6];
    assert Shift(s.slots, 1) == B4.slots;
    assert Advance(s, 1).(notch := 0) == B4;
    assert ReadStream(B4, 9) == (B4, []);
    assert [6 as bv8] + [] == [6];
  }
}

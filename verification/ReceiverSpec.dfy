/**
  The receiver buffer on values: the circular array is seen as a sequence of slots counted
  from the start position, and `base` is the unbounded sequence number of slot 0.

  The class in ReceiverBuffer.dfy computes exactly these operations on positions of a
  circular array; the theorems over runs are stated on them.
 */
module ReceiverSpec {
  import opened Arith
  import opened Packets
  import opened SeqNo

  datatype Status = Empty | Avail | Read | Drop

  datatype Entry = Entry(unit: Option<Packet>, status: Status)

  const EMPTY: Entry := Entry(None, Empty)

  /**
    `maxOff` is one past the furthest slot received, `cursor` the first slot that cannot be
    read in order, `ooo` the first packet of a message readable out of order (or -1), and
    `notch` the number of bytes already read from slot 0 in stream mode.
   */
  datatype State = State(
    messageApi: bool, base: int, slots: seq<Entry>,
    maxOff: int, cursor: int, ooo: int, notch: int)

  /** A slot with nothing left to read in it, passed over once it becomes the first one. */
  predicate Filler(e: Entry) {
    e.status == Read || e.status == Drop
  }

  predicate IsFirst(e: Entry) {
    e.unit.Some? && e.unit.value.first
  }

  predicate IsLast(e: Entry) {
    e.unit.Some? && e.unit.value.last
  }

  // ---------------------------------------------------------------- invariant

  ghost predicate SlotsOk(base: int, slots: seq<Entry>, maxOff: int) {
    && 0 <= maxOff < |slots|
    && (forall k :: 0 <= k < |slots| ==> (slots[k].status == Avail <==> slots[k].unit.Some?))
    && (forall k :: 0 <= k < |slots| && slots[k].unit.Some? ==>
          k < maxOff && slots[k].unit.value.seqno == Wrap(base + k))
    && slots[|slots| - 1] == EMPTY
  }

  ghost predicate CursorOk(messageApi: bool, slots: seq<Entry>, maxOff: int, cursor: int) {
    && 0 <= cursor <= maxOff < |slots|
    && (forall k :: 0 <= k < cursor ==> slots[k].unit.Some?)
    && (messageApi && cursor > 0 ==> IsLast(slots[cursor - 1]))
  }

  ghost predicate Inv(s: State) {
    && SlotsOk(s.base, s.slots, s.maxOff)
    && CursorOk(s.messageApi, s.slots, s.maxOff, s.cursor)
    && -1 <= s.ooo < |s.slots|
    && (!s.messageApi ==> s.ooo == -1)
    && (s.messageApi ==> s.notch == 0)
  }

  /** No read or dropped slot is left waiting at the start. */
  predicate Settled(s: State) {
    |s.slots| > 0 && !Filler(s.slots[0])
  }

  // ---------------------------------------------------------------- counting stored packets

  predicate Counted(e: Entry, unorderedOnly: bool) {
    e.unit.Some? && (unorderedOnly ==> !e.unit.value.inOrder)
  }

  /** The number of stored packets, or of those without the order flag. */
  function Count(slots: seq<Entry>, unorderedOnly: bool): nat {
    if slots == [] then 0
    else (if Counted(slots[0], unorderedOnly) then 1 else 0) + Count(slots[1..], unorderedOnly)
  }

  lemma {:induction false} CountUpdate(slots: seq<Entry>, b: bool, i: nat, e: Entry)
    requires i < |slots|
    ensures Count(slots[i := e], b)
         == Count(slots, b) - (if Counted(slots[i], b) then 1 else 0) + (if Counted(e, b) then 1 else 0)
  {
    if i == 0 {
      assert slots[0 := e][1..] == slots[1..];
    } else {
      assert slots[i := e][1..] == slots[1..][i - 1 := e];
      CountUpdate(slots[1..], b, i - 1, e);
    }
  }

  lemma {:induction false} CountNone(slots: seq<Entry>, b: bool)
    requires forall k :: 0 <= k < |slots| ==> !Counted(slots[k], b)
    ensures Count(slots, b) == 0
  {
    if slots != [] {
      CountNone(slots[1..], b);
    }
  }

  // ---------------------------------------------------------------- moving the start

  /** The slots as seen after the start position moved `k` slots on, the passed ones emptied. */
  function Shift(slots: seq<Entry>, k: nat): (r: seq<Entry>)
    ensures |r| == |slots|
  {
    seq(|slots|, i requires 0 <= i => if i + k < |slots| then slots[i + k] else EMPTY)
  }

  lemma ShiftShift(slots: seq<Entry>, a: nat, b: nat)
    ensures Shift(Shift(slots, a), b) == Shift(slots, a + b)
  {
  }

  /** The offset, from a start `k` slots further on, of the ring position now at offset `o`. */
  function Back(o: int, k: nat, n: nat): (r: int)
    requires -1 <= o < n
    ensures -1 <= r < n && (r < 0 <==> o < 0)
    ensures k <= o ==> r == o - k
    ensures 0 <= o < k <= o + n ==> r == o - k + n
    decreases k
  {
    if o < 0 || k == 0 then o else Back(if o == 0 then n - 1 else o - 1, k - 1, n)
  }

  lemma {:induction false} BackTwice(o: int, a: nat, b: nat, n: nat)
    requires -1 <= o < n
    ensures Back(Back(o, a, n), b, n) == Back(o, a + b, n)
    decreases a
  {
    if o >= 0 && a > 0 {
      BackTwice(if o == 0 then n - 1 else o - 1, a - 1, b, n);
    }
  }

  function Advance(s: State, k: nat): State
    requires -1 <= s.ooo < |s.slots|
  {
    s.(base := s.base + k, slots := Shift(s.slots, k), maxOff := Max(0, s.maxOff - k),
       cursor := s.cursor - k, ooo := Back(s.ooo, k, |s.slots|))
  }

  /** What moving the start position alone does: every position is `k` slots closer to it. */
  function Turn(s: State, k: nat): State
    requires 0 <= s.cursor < |s.slots| && -1 <= s.ooo < |s.slots|
  {
    s.(slots := Shift(s.slots, k), cursor := Back(s.cursor, k, |s.slots|), ooo := Back(s.ooo, k, |s.slots|))
  }

  /** Moving the start over `k` slots together with its sequence number and the window length. */
  function Pass(s: State, k: nat): State
    requires 0 <= s.cursor < |s.slots| && -1 <= s.ooo < |s.slots|
  {
    Turn(s, k).(base := s.base + k, maxOff := Max(0, s.maxOff - k))
  }

  lemma TurnTwice(s: State, a: nat, b: nat)
    requires 0 <= s.cursor < |s.slots| && -1 <= s.ooo < |s.slots|
    ensures Turn(Turn(s, a), b) == Turn(s, a + b)
  {
    ShiftShift(s.slots, a, b);
    BackTwice(s.cursor, a, b, |s.slots|);
    BackTwice(s.ooo, a, b, |s.slots|);
  }

  lemma PassTwice(s: State, a: nat, b: nat)
    requires 0 <= s.cursor < |s.slots| && -1 <= s.ooo < |s.slots|
    ensures Pass(Pass(s, a), b) == Pass(s, a + b)
  {
    TurnTwice(s, a, b);
    TurnTwice(s.(base := s.base + a, maxOff := Max(0, s.maxOff - a)), a, b);
  }

  lemma PassZero(s: State)
    requires 0 <= s.cursor < |s.slots| && -1 <= s.ooo < |s.slots| && s.maxOff >= 0
    ensures Pass(s, 0) == s && Turn(s, 0) == s
  {
    assert Shift(s.slots, 0) == s.slots;
  }

  /** The number of fillers in front. */
  function FillerRun(slots: seq<Entry>, i: nat): (r: nat)
    requires i <= |slots|
    ensures i <= r <= |slots|
    decreases |slots| - i
  {
    if i < |slots| && Filler(slots[i]) then FillerRun(slots, i + 1) else i
  }

  lemma {:induction false} FillerRunMeaning(slots: seq<Entry>, i: nat)
    requires i <= |slots|
    ensures var r := FillerRun(slots, i);
      (forall k :: i <= k < r ==> Filler(slots[k])) && (r < |slots| ==> !Filler(slots[r]))
    decreases |slots| - i
  {
    if i < |slots| && Filler(slots[i]) {
      FillerRunMeaning(slots, i + 1);
    }
  }

  function SkipFillers(s: State): State
    requires -1 <= s.ooo < |s.slots|
  {
    Advance(s, FillerRun(s.slots, 0))
  }

  // ---------------------------------------------------------------- the in-order read cursor

  /** The slot of the packet that ends the message starting at `i`, or -1 if it is not all stored. */
  function MsgEnd(slots: seq<Entry>, messageApi: bool, i: nat): (r: int)
    requires i <= |slots|
    ensures r == -1 || i <= r < |slots|
    decreases |slots| - i
  {
    if i == |slots| || slots[i].unit.None? then -1
    else if !messageApi || IsLast(slots[i]) then i
    else MsgEnd(slots, messageApi, i + 1)
  }

  lemma {:induction false} MsgEndMeaning(slots: seq<Entry>, messageApi: bool, i: nat)
    requires i <= |slots| && MsgEnd(slots, messageApi, i) >= 0
    ensures var r := MsgEnd(slots, messageApi, i);
      && (forall k :: i <= k <= r ==> slots[k].unit.Some?)
      && (messageApi ==> IsLast(slots[r]) && forall k :: i <= k < r ==> !IsLast(slots[k]))
      && (!messageApi ==> r == i)
    decreases |slots| - i
  {
    if messageApi && !IsLast(slots[i]) {
      MsgEndMeaning(slots, messageApi, i + 1);
    }
  }

  predicate Complete(slots: seq<Entry>, messageApi: bool, i: nat)
    requires i <= |slots|
  {
    && i < |slots|
    && slots[i].unit.Some?
    && (messageApi ==> IsFirst(slots[i]))
    && MsgEnd(slots, messageApi, i) >= 0
  }

  /** From-scratch scan: skips complete messages from `i` on. */
  function ScanEnd(slots: seq<Entry>, messageApi: bool, i: nat): (r: nat)
    requires i <= |slots|
    ensures i <= r <= |slots|
    decreases |slots| - i
  {
    if Complete(slots, messageApi, i) then ScanEnd(slots, messageApi, MsgEnd(slots, messageApi, i) + 1)
    else i
  }

  lemma {:induction false} ScanEndMeaning(slots: seq<Entry>, messageApi: bool, i: nat)
    requires i <= |slots|
    ensures var r := ScanEnd(slots, messageApi, i);
      && (forall k :: i <= k < r ==> slots[k].unit.Some?)
      && (messageApi && r > i ==> IsLast(slots[r - 1]))
    decreases |slots| - i
  {
    if Complete(slots, messageApi, i) {
      MsgEndMeaning(slots, messageApi, i);
      ScanEndMeaning(slots, messageApi, MsgEnd(slots, messageApi, i) + 1);
    }
  }

  function Recursor(s: State, rescan: bool): State {
    if s.cursor >= 0 then s
    else s.(cursor := if rescan then ScanEnd(s.slots, s.messageApi, 0) else 0)
  }

  /** Moves the start `k` slots on and past the fillers found there. */
  function Move(s: State, k: nat, rescan: bool): (r: State)
    requires -1 <= s.ooo < |s.slots|
    ensures |r.slots| == |s.slots| && r.messageApi == s.messageApi
  {
    Recursor(SkipFillers(Advance(s, k)), rescan)
  }

  // ---------------------------------------------------------------- messages readable out of order

  function ScanRight(slots: seq<Entry>, i: nat, msgno: nat): (r: int)
    requires i <= |slots|
    ensures -1 <= r < |slots|
    decreases |slots| - i
  {
    if i == |slots| || slots[i].unit.None? || slots[i].unit.value.msgno != msgno then -1
    else if IsLast(slots[i]) then i
    else ScanRight(slots, i + 1, msgno)
  }

  function ScanLeft(slots: seq<Entry>, i: int, msgno: nat): (r: int)
    requires -1 <= i < |slots|
    ensures -1 <= r <= i
    decreases i + 1
  {
    if i < 0 || slots[i].unit.None? || slots[i].unit.value.msgno != msgno then -1
    else if IsFirst(slots[i]) then i
    else ScanLeft(slots, i - 1, msgno)
  }

  function OnInsertUnordered(slots: seq<Entry>, off: nat, ooo: int): (r: int)
    requires off < |slots| && slots[off].unit.Some? && -1 <= ooo < |slots|
    ensures -1 <= r < |slots|
  {
    var p := slots[off].unit.value;
    if ooo >= 0 then ooo
    else if !p.last && ScanRight(slots, off + 1, p.msgno) < 0 then -1
    else if p.first then off
    else ScanLeft(slots, off - 1, p.msgno)
  }

  function ScanOoo(slots: seq<Entry>, i: nat, posFirst: int, msgno: int): (r: int)
    requires i <= |slots| && -1 <= posFirst < |slots|
    ensures -1 <= r < |slots|
    decreases |slots| - i
  {
    if i == |slots| then -1
    else if slots[i].unit.None? || slots[i].unit.value.inOrder then ScanOoo(slots, i + 1, -1, -1)
    else
      var p := slots[i].unit.value;
      var pf := if p.first then i else posFirst;
      var mn := if p.first then p.msgno else msgno;
      if p.msgno != mn then ScanOoo(slots, i + 1, -1, -1)
      else if p.last then pf
      else ScanOoo(slots, i + 1, pf, mn)
  }

  function Seek(s: State): (r: State)
    ensures r == s.(ooo := r.ooo)
  {
    if s.messageApi && s.ooo < 0 && s.cursor == 0 then s.(ooo := ScanOoo(s.slots, 0, -1, -1)) else s
  }

  /** Packets of message `msgno` without the order flag fill the slots from `i` to its last packet. */
  predicate CheckOoo(slots: seq<Entry>, i: nat, msgno: nat)
    requires i <= |slots|
    decreases |slots| - i
  {
    && i < |slots|
    && slots[i].unit.Some?
    && !slots[i].unit.value.inOrder
    && slots[i].unit.value.msgno == msgno
    && (IsLast(slots[i]) || CheckOoo(slots, i + 1, msgno))
  }

  predicate StillReadable(slots: seq<Entry>, i: nat) {
    i < |slots| && slots[i].unit.Some? && CheckOoo(slots, i, slots[i].unit.value.msgno)
  }

  // ---------------------------------------------------------------- operations

  function Initial(base: int, size: nat, messageApi: bool): State {
    State(messageApi, base, seq(size, _ => EMPTY), 0, 0, -1, 0)
  }

  /** Result codes: 0 stored, -1 already present, read or dropped, -2 before the start, -3 beyond the capacity. */
  function Insert(s: State, q: int, p: Packet): (State, int)
    requires Inv(s)
  {
    var off := q - s.base;
    if off < 0 then (s, -2)
    else if off >= |s.slots| - 1 then (s, -3)
    else
      var s1 := s.(maxOff := Max(s.maxOff, off + 1));
      if s.slots[off].status != Empty then (s1, -1)
      else
        var slots := s.slots[off := Entry(Some(p), Avail)];
        (s1.(slots := slots,
             ooo := if s.messageApi && !p.inOrder then OnInsertUnordered(slots, off, s.ooo) else s.ooo,
             cursor := ScanEnd(slots, s.messageApi, s.cursor)), 0)
  }

  /** The message readable out of order is forgotten if its first packet is among the first `k` slots. */
  function ForgetOoo(s: State, k: nat): State
    requires -1 <= s.ooo < |s.slots|
  {
    if s.messageApi && 0 <= s.ooo < k && Counted(s.slots[s.ooo], true) then s.(ooo := -1) else s
  }

  function DropUpTo(s: State, q: int): (State, int)
    requires -1 <= s.ooo < |s.slots|
  {
    if q <= s.base then (s, 0)
    else
      (Seek(Move(ForgetOoo(s, q - s.base), q - s.base, true)), q - s.base)
  }

  /** One past the packet at which reading from `i` stops, and whether that packet ends its message. */
  function ReadStop(slots: seq<Entry>, i: nat): (r: (nat, bool))
    requires i <= |slots|
    ensures i <= r.0 <= |slots|
    ensures forall k :: i <= k < r.0 ==> slots[k].unit.Some?
    decreases |slots| - i
  {
    if i == |slots| || slots[i].unit.None? then (i, false)
    else if IsLast(slots[i]) then (i + 1, true)
    else ReadStop(slots, i + 1)
  }

  lemma {:induction false} ReadStopMeaning(slots: seq<Entry>, i: nat)
    requires i <= |slots|
    ensures var r := ReadStop(slots, i);
      && (r.1 ==> r.0 > i && IsLast(slots[r.0 - 1]))
      && (forall k :: i <= k < r.0 - 1 ==> !IsLast(slots[k]))
      && (!r.1 ==> (r.0 == |slots| || slots[r.0].unit.None?) && (r.0 > i ==> !IsLast(slots[r.0 - 1])))
    decreases |slots| - i
  {
    if i < |slots| && slots[i].unit.Some? && !IsLast(slots[i]) {
      ReadStopMeaning(slots, i + 1);
    }
  }

  function Units(slots: seq<Entry>): (r: seq<Packet>)
    requires forall k :: 0 <= k < |slots| ==> slots[k].unit.Some?
    ensures |r| == |slots|
    ensures forall k :: 0 <= k < |slots| ==> r[k] == slots[k].unit.value
  {
    seq(|slots|, k requires 0 <= k < |slots| => slots[k].unit.value)
  }

  function MarkRead(slots: seq<Entry>, a: nat, b: nat): (r: seq<Entry>)
    ensures |r| == |slots|
  {
    seq(|slots|, k requires 0 <= k < |slots| => if a <= k < b then Entry(None, Read) else slots[k])
  }

  /** Where the next read starts: at the start if the cursor allows it, else out of order, else nowhere (-1). */
  function ReadFrom(s: State): int {
    if s.cursor > 0 then 0 else s.ooo
  }

  /** The packets the next read takes out. */
  function ReadPackets(s: State): seq<Packet>
    requires Inv(s)
  {
    var ro := ReadFrom(s);
    if ro < 0 then [] else Units(s.slots[ro..ReadStop(s.slots, ro).0])
  }

  function ReadMessage(s: State): State
    requires Inv(s)
  {
    var ro := ReadFrom(s);
    if ro < 0 then s
    else
      var (stop, ended) := ReadStop(s.slots, ro);
      var s1 := if ended && ro == s.ooo then s.(ooo := -1) else s;
      Seek(if ro == 0 then Move(s1, stop, false)
           else Move(s1.(slots := MarkRead(s1.slots, ro, stop)), 0, false))
  }

  predicate Kept(e: Entry, keep: bool) {
    e.status == Drop || (keep && IsFirst(e) && IsLast(e))
  }

  function MarkDrop(slots: seq<Entry>, a: nat, b: nat, keep: bool): (r: seq<Entry>)
    ensures |r| == |slots|
  {
    seq(|slots|, k requires 0 <= k < |slots| =>
      if a <= k < b && !Kept(slots[k], keep) then Entry(None, Drop) else slots[k])
  }

  function DropCount(slots: seq<Entry>, a: nat, b: nat, keep: bool): nat
    requires a <= b <= |slots|
    decreases b - a
  {
    if a == b then 0 else (if Kept(slots[a], keep) then 0 else 1) + DropCount(slots, a + 1, b, keep)
  }

  /** The first packet of a message of several packets (boundary value PB_FIRST). */
  predicate Opens(e: Entry) {
    IsFirst(e) && !IsLast(e)
  }

  /** Nothing in the range says that the message cannot start before it. */
  predicate NoFirstIn(slots: seq<Entry>, a: nat, b: nat, keep: bool)
    requires b <= |slots|
  {
    forall k :: a <= k < b ==> !(IsFirst(slots[k]) && (keep || !IsLast(slots[k])))
  }

  /** Backward from `i`: drops stored packets of message `msgno` down to its first one. */
  function DropLeft(slots: seq<Entry>, i: int, msgno: int, keep: bool): (r: (seq<Entry>, nat))
    requires -1 <= i < |slots|
    ensures |r.0| == |slots|
    decreases i + 1
  {
    if i < 0 then (slots, 0)
    else if slots[i].unit.None? then DropLeft(slots, i - 1, msgno, keep)
    else if slots[i].unit.value.msgno != msgno || Kept(slots[i], keep) then (slots, 0)
    else
      var slots' := slots[i := Entry(None, Drop)];
      if Opens(slots[i]) then (slots', 1)
      else
        var r := DropLeft(slots', i - 1, msgno, keep);
        (r.0, r.1 + 1)
  }

  lemma {:induction false} DropLeftMeaning(slots: seq<Entry>, i: int, msgno: int, keep: bool)
    requires -1 <= i < |slots|
    ensures var r := DropLeft(slots, i, msgno, keep).0;
      && (forall k :: i < k < |slots| ==> r[k] == slots[k])
      && (forall k :: 0 <= k < |slots| ==> r[k] == slots[k] || (slots[k].unit.Some? && r[k] == Entry(None, Drop)))
    decreases i + 1
  {
    if i >= 0 {
      DropLeftMeaning(slots, i - 1, msgno, keep);
      DropLeftMeaning(slots[i := Entry(None, Drop)], i - 1, msgno, keep);
    }
  }

  function DropSlots(s: State, lo: int, hi: int, msgno: int, keep: bool): (r: (seq<Entry>, nat))
    requires |s.slots| > 0 && s.base <= hi && lo <= hi && lo - s.base < |s.slots| - 1
    ensures |r.0| == |s.slots|
  {
    var a, b := Max(0, lo - s.base), Min(|s.slots| - 1, hi - s.base + 1);
    var marked, n := MarkDrop(s.slots, a, b, keep), DropCount(s.slots, a, b, keep);
    if msgno > 0 && NoFirstIn(s.slots, a, b, keep) then
      var r := DropLeft(marked, a, msgno, keep);
      (r.0, n + r.1)
    else (marked, n)
  }

  ghost predicate Touched(old_: seq<Entry>, new_: seq<Entry>, upTo: int)
    requires |old_| == |new_|
  {
    exists k :: 0 <= k <= upTo && k < |old_| && old_[k] != new_[k]
  }

  /**
    The start and the cursor after the slots of `s` lost packets and became `slots`. A cursor that
    is not recomputed stays at its ring position, even if the start passes it.
   */
  ghost function DroppedCursor(s: State, slots: seq<Entry>): State
    requires |slots| == |s.slots| && -1 <= s.ooo < |s.slots| && 0 <= s.cursor < |s.slots|
  {
    var t := SkipFillers(s.(slots := slots));
    t.(cursor := if Touched(s.slots, slots, s.cursor) then ScanEnd(t.slots, t.messageApi, 0)
                 else Back(s.cursor, FillerRun(slots, 0), |slots|))
  }

  function Recheck(s: State): State {
    Seek(if s.messageApi && s.ooo >= 0 && !StillReadable(s.slots, s.ooo) then s.(ooo := -1) else s)
  }

  ghost function Dropped(s: State, slots: seq<Entry>): (r: State)
    requires |slots| == |s.slots| && -1 <= s.ooo < |s.slots| && 0 <= s.cursor < |s.slots|
    ensures |r.slots| == |s.slots| && r.messageApi == s.messageApi
  {
    Recheck(DroppedCursor(s, slots))
  }

  ghost function DropMessage(s: State, lo: int, hi: int, msgno: int, keep: bool): (State, nat)
    requires Inv(s) && lo <= hi && lo - s.base < |s.slots| - 1
  {
    if hi < s.base then (s, 0)
    else
      var (slots, n) := DropSlots(s, lo, hi, msgno, keep);
      (Dropped(s, slots), n)
  }

  /** What a stream read needs: packets up to the cursor, and a notch not past the end of the first. */
  predicate StreamReady(s: State) {
    && 0 <= s.cursor < |s.slots| && -1 <= s.ooo < |s.slots|
    && (forall k :: 0 <= k < s.cursor ==> s.slots[k].unit.Some?)
    && 0 <= s.notch && (s.cursor > 0 ==> s.notch <= |s.slots[0].unit.value.payload|)
  }

  /** Stream mode: takes up to `len` bytes from the slots before the cursor. */
  function ReadStream(s: State, len: int): (r: (State, Bytes))
    requires StreamReady(s)
    decreases s.cursor
  {
    if s.cursor == 0 || len <= 0 then (s, [])
    else
      var rest := s.slots[0].unit.value.payload[s.notch..];
      if len >= |rest| then
        var r := ReadStream(Advance(s, 1).(notch := 0), len - |rest|);
        (r.0, rest + r.1)
      else (s.(notch := s.notch + len), rest[..len])
  }
}

/** The receiver buffer as the code keeps it: cursors over a circular array of entries. */
module ReceiverBuffer {
  import opened Arith
  import opened Packets
  import opened SeqNo
  import opened ReceiverSpec
  import opened ReceiverInvariant

  /** The array read from position `p` around. */
  function Rot(e: seq<Entry>, p: nat): (r: seq<Entry>)
    requires p <= |e|
    ensures |r| == |e|
  {
    e[p..] + e[..p]
  }

  function OffPos(n: nat, pos1: int, pos2: int): int {
    if pos2 >= pos1 then pos2 - pos1 else n + pos2 - pos1
  }

  function IncPos(n: nat, pos: nat, inc: nat): (r: nat)
    requires pos < n
    ensures r < n
    ensures inc <= n ==> r == if pos + inc < n then pos + inc else pos + inc - n
  {
    if n <= pos + inc < 2 * n then ModSub(pos + inc, n); (pos + inc) % n
    else (pos + inc) % n
  }

  lemma ModSub(x: nat, n: nat)
    requires 0 < n <= x < 2 * n
    ensures x % n == x - n
  {
    var q := x / n;
    assert x == q * n + x % n;
    assert q >= 2 ==> q * n >= 2 * n;
    assert q == 1;
  }

  function DecPos(n: nat, pos: nat): nat
    requires pos < n
  {
    if pos - 1 >= 0 then pos - 1 else n - 1
  }

  /** Whether a position lies between the start and the end of the window, both included. */
  function IsInRange(startPos: nat, maxPosOff: nat, n: nat, pos: nat): (r: bool)
    requires startPos < n && maxPosOff < n && pos < n
    ensures r <==> OffPos(n, startPos, pos) <= maxPosOff
  {
    if pos == startPos then true
    else
      var lastPos := IncPos(n, startPos, maxPosOff);
      if lastPos < startPos then pos > startPos || pos <= lastPos
      else pos > startPos && pos <= lastPos
  }

  lemma RotStep(e: seq<Entry>, p: nat)
    requires p < |e| && e[p] == EMPTY
    ensures Rot(e, IncPos(|e|, p, 1)) == Shift(Rot(e, p), 1)
  {
  }

  lemma CountStep(slots: seq<Entry>, k: nat, b: bool)
    requires k <= |slots|
    ensures k < |slots| ==>
      Count(slots[k..], b) == (if Counted(slots[k], b) then 1 else 0) + Count(slots[k + 1..], b)
    ensures k == |slots| ==> Count(slots[k..], b) == 0
  {
    if k < |slots| {
      assert slots[k..][1..] == slots[k + 1..];
    }
  }

  lemma {:induction false} CountPositive(slots: seq<Entry>, k: nat, b: bool)
    requires k < |slots| && Counted(slots[k], b)
    ensures Count(slots, b) > 0
  {
    if k > 0 {
      CountPositive(slots[1..], k - 1, b);
    }
  }

  /** With no packet left that may be read out of order the search finds nothing. */
  lemma {:induction false} ScanOooNone(slots: seq<Entry>, k: nat, posFirst: int, msgno: int)
    requires k <= |slots| && -1 <= posFirst < |slots|
    requires Count(slots[k..], true) == 0
    ensures ScanOoo(slots, k, posFirst, msgno) == -1
    decreases |slots| - k
  {
    if k < |slots| {
      CountStep(slots, k, true);
      ScanOooNone(slots, k + 1, -1, -1);
    }
  }

  lemma OffNext(n: nat, start: nat, pos: nat)
    requires start < n && pos < n && OffPos(n, start, pos) + 1 < n
    ensures OffPos(n, start, IncPos(n, pos, 1)) == OffPos(n, start, pos) + 1
  {
  }

  lemma OffPrev(n: nat, start: nat, pos: nat)
    requires start < n && pos < n
    ensures DecPos(n, pos) < n
    ensures OffPos(n, start, DecPos(n, pos)) == if OffPos(n, start, pos) == 0 then n - 1 else OffPos(n, start, pos) - 1
  {
  }

  /** The position before the start is the one furthest from it. */
  lemma OffLast(n: nat, start: nat, pos: nat)
    requires start < n && pos < n
    ensures pos == DecPos(n, start) <==> OffPos(n, start, pos) == n - 1
  {
  }

  lemma ScanStep(slots: seq<Entry>, messageApi: bool, c: nat)
    requires c < |slots|
    ensures ScanEnd(slots, messageApi, c) ==
      if slots[c].unit.Some? && (messageApi ==> slots[c].unit.value.first) && MsgEnd(slots, messageApi, c) >= 0
      then ScanEnd(slots, messageApi, MsgEnd(slots, messageApi, c) + 1) else c
  {
  }

  /** What the slot invariant says of one slot. */
  lemma StoredBelow(base: int, slots: seq<Entry>, maxOff: int, k: nat)
    requires SlotsOk(base, slots, maxOff) && k < |slots|
    ensures 0 <= maxOff < |slots| && (slots[k].unit.Some? ==> k < maxOff) && (slots[k].unit.Some? <==> slots[k].status == Avail)
  {
  }

  lemma OffOfInc(n: nat, start: nat, k: nat)
    requires start < n && k < n
    ensures OffPos(n, start, IncPos(n, start, k)) == k
  {
  }

  /** Nothing is readable in an empty window. */
  lemma ScanEmpty(base: int, slots: seq<Entry>, messageApi: bool, maxOff: int)
    requires SlotsOk(base, slots, maxOff)
    ensures maxOff == 0 ==> ScanEnd(slots, messageApi, 0) == 0
  {
  }

  lemma HeadPos(n: nat, start: nat)
    requires start < n
    ensures IncPos(n, start, 0) == start
  {
  }

  lemma TurnFrame(s: State, base: int, maxOff: int)
    requires 0 <= s.cursor < |s.slots| && -1 <= s.ooo < |s.slots|
    ensures Turn(s.(base := base, maxOff := maxOff), 1) == Turn(s, 1).(base := base, maxOff := maxOff)
  {
  }

  lemma TurnClears(s: State)
    requires 0 <= s.cursor < |s.slots| && -1 <= s.ooo < |s.slots|
    ensures Turn(s.(slots := s.slots[0 := EMPTY]), 1) == Turn(s, 1)
  {
  }

  lemma ForgetStep(s: State, j: nat)
    requires 0 <= s.cursor < |s.slots| && -1 <= s.ooo < |s.slots|
    ensures var w := Turn(ForgetOoo(s, j), j); Turn(ForgetOoo(w, 1), 1) == Turn(ForgetOoo(s, j + 1), j + 1)
  {
    hide Shift, Back, Turn;
    var s0 := ForgetOoo(s, j);
    TurnTwice(s0, j, 1);
    TurnForgets(s0, j);
    TurnForgets(Turn(s0, j), 1);
    TurnedHead(s0, j);
    TurnTwice(s0.(ooo := -1), j, 1);
  }

  lemma TurnForgets(s: State, j: nat)
    requires 0 <= s.cursor < |s.slots| && -1 <= s.ooo < |s.slots|
    ensures Turn(s.(ooo := -1), j) == Turn(s, j).(ooo := -1) && Turn(s, j).messageApi == s.messageApi
    ensures |Turn(s, j).slots| == |s.slots| && (Turn(s, j).ooo < 0 <==> s.ooo < 0)
    ensures -1 <= Turn(s, j).ooo < |s.slots| && 0 <= Turn(s, j).cursor < |s.slots|
  {
  }

  /** After `j` steps the first slot is slot `j`, and it is empty from the second turn on. */
  lemma TurnedHead(s: State, j: nat)
    requires 0 <= s.cursor < |s.slots| && -1 <= s.ooo < |s.slots|
    ensures j < |s.slots| ==> Turn(s, j).slots[0] == s.slots[j] && (s.ooo >= 0 ==> (Turn(s, j).ooo == 0 <==> s.ooo == j))
    ensures j >= |s.slots| ==> Turn(s, j).slots[0] == EMPTY
  {
  }

  lemma TurnZero(s: State)
    requires 0 <= s.cursor < |s.slots| && -1 <= s.ooo < |s.slots|
    ensures Turn(s, 0) == s
  {
    assert Shift(s.slots, 0) == s.slots;
  }

  lemma FillersHoldNothing(s: State)
    requires SlotsOk(s.base, s.slots, s.maxOff)
    ensures forall k :: 0 <= k < |s.slots| && Filler(s.slots[k]) ==> s.slots[k].unit.None?
  {
  }

  /** The state in the middle of a read that started at slot `ro` and got up to slot `k`. */
  ghost function Taken(v: State, ro: nat, k: nat): State
    requires 0 <= v.cursor < |v.slots| && -1 <= v.ooo < |v.slots|
  {
    if ro == 0 then Pass(v, k) else v.(slots := MarkRead(v.slots, ro, k))
  }

  lemma TakenNothing(v: State, ro: nat)
    requires Inv(v)
    ensures Taken(v, ro, ro) == v
  {
    PassZero(v);
    assert MarkRead(v.slots, ro, ro) == v.slots;
  }

  /** The slot about to be read still holds what it held at the beginning, and lies in the window. */
  lemma TakenSlot(v: State, ro: nat, k: nat)
    requires Inv(v) && ro <= k < |v.slots|
    ensures Taken(v, ro, k).slots[if ro == 0 then 0 else k] == v.slots[k]
    ensures v.slots[k].unit.Some? ==>
      k + 1 < |v.slots| && (ro == 0 ==>
        Taken(v, ro, k).maxOff > 0 && v.slots[k].unit.value.seqno == Wrap(Taken(v, ro, k).base))
  {
  }

  lemma TakenStep(v: State, ro: nat, k: nat)
    requires Inv(v) && ro <= k < |v.slots|
    ensures ro == 0 ==> Pass(Taken(v, ro, k), 1) == Taken(v, ro, k + 1)
    ensures ro > 0 ==> Taken(v, ro, k).(slots := Taken(v, ro, k).slots[k := Entry(None, Read)]) == Taken(v, ro, k + 1)
  {
    if ro == 0 {
      PassTwice(v, k, 1);
    } else {
      assert MarkRead(v.slots, ro, k)[k := Entry(None, Read)] == MarkRead(v.slots, ro, k + 1);
    }
  }

  lemma TakenForgets(v: State, ro: nat, k: nat)
    requires 0 <= v.cursor < |v.slots| && -1 <= v.ooo < |v.slots|
    ensures Taken(v.(ooo := -1), ro, k) == Taken(v, ro, k).(ooo := -1)
  {
  }

  /** What a buffer of `len` bytes receives of the packets in slots `ro` to `k`. */
  ghost function Copied(slots: seq<Entry>, ro: nat, k: nat, len: nat): Bytes
    requires ro <= k <= |slots| && forall m :: ro <= m < k ==> slots[m].unit.Some?
  {
    Take(Payloads(Units(slots[ro..k])), len)
  }

  lemma CopiedNothing(slots: seq<Entry>, ro: nat, len: nat)
    requires ro <= |slots|
    ensures Copied(slots, ro, ro, len) == []
  {
    assert Units(slots[ro..ro]) == [];
  }

  lemma CopiedMore(slots: seq<Entry>, ro: nat, k: nat, len: nat)
    requires ro <= k < |slots| && forall m :: ro <= m <= k ==> slots[m].unit.Some?
    ensures var b := slots[k].unit.value.payload; var d := Copied(slots, ro, k, len);
      |d| <= len && Copied(slots, ro, k + 1, len) == d + b[..Min(len - |d|, |b|)]
  {
    var ps, p := Units(slots[ro..k]), slots[k].unit.value;
    assert Units(slots[ro..k + 1]) == ps + [p];
    PayloadsConcat(ps, [p]);
    assert Payloads([p]) == p.payload + [];
    TakeConcat(Payloads(ps), p.payload, len);
  }

  lemma TakeConcat(a: Bytes, b: Bytes, len: nat)
    ensures var d := Take(a, len); |d| <= len && Take(a + b, len) == d + b[..Min(len - |d|, |b|)]
  {
    if len <= |a| {
      assert (a + b)[..len] == a[..len];
    } else if len < |a| + |b| {
      assert (a + b)[..len] == a + b[..len - |a|];
    }
  }

  /** Dropping packets may have made the buffer forget the message readable out of order. */
  ghost predicate OooAfter(v: State, slots: seq<Entry>, o: int)
    requires |slots| == |v.slots| && -1 <= v.ooo < |v.slots|
  {
    o == v.ooo || (o == -1 && v.ooo >= 0 && slots[v.ooo].unit.None?)
  }

  /** `m` is the first slot that changed, -1 if none did. */
  ghost predicate LeastChange(before: seq<Entry>, after: seq<Entry>, m: int)
    requires |before| == |after|
  {
    if m == -1 then before == after
    else 0 <= m < |before| && before[m] != after[m] && forall k :: 0 <= k < m ==> before[k] == after[k]
  }

  lemma LeastStep(before: seq<Entry>, after: seq<Entry>, m: int, k: nat)
    requires |before| == |after| && k < |after| && m < k && LeastChange(before, after, m)
    requires before[k] == after[k] && after[k].status != Drop
    ensures LeastChange(before, after[k := Entry(None, Drop)], if m == -1 then k else m)
  {
  }

  lemma LeastLower(before: seq<Entry>, after: seq<Entry>, m: int, k: nat)
    requires |before| == |after| && k < |after| && LeastChange(before, after, m)
    requires before[k].status != Drop && forall j :: 0 <= j < k ==> before[j] == after[j]
    ensures LeastChange(before, after[k := Entry(None, Drop)], k)
  {
  }

  lemma DropLeftStep(slots: seq<Entry>, i: int, msgno: int, keep: bool)
    requires -1 <= i < |slots|
    ensures i < 0 ==> DropLeft(slots, i, msgno, keep) == (slots, 0)
    ensures i >= 0 && slots[i].unit.None? ==> DropLeft(slots, i, msgno, keep) == DropLeft(slots, i - 1, msgno, keep)
    ensures i >= 0 && slots[i].unit.Some? && slots[i].status != Drop ==>
      var p, s' := slots[i].unit.value, slots[i := Entry(None, Drop)];
      DropLeft(slots, i, msgno, keep) ==
        if p.msgno != msgno || (keep && p.first && p.last) then (slots, 0)
        else if p.first && !p.last then (s', 1)
        else (DropLeft(s', i - 1, msgno, keep).0, DropLeft(s', i - 1, msgno, keep).1 + 1)
  {
  }

  lemma MarkNothing(slots: seq<Entry>, a: nat, keep: bool)
    ensures MarkDrop(slots, a, a, keep) == slots && LeastChange(slots, slots, -1)
  {
  }

  lemma MarkStep(slots: seq<Entry>, a: nat, k: nat, keep: bool)
    requires a <= k < |slots|
    ensures MarkDrop(slots, a, k, keep)[k] == slots[k]
    ensures MarkDrop(slots, a, k + 1, keep) ==
      if Kept(slots[k], keep) then MarkDrop(slots, a, k, keep)
      else MarkDrop(slots, a, k, keep)[k := Entry(None, Drop)]
  {
  }

  lemma MarkedRange(v: State, a: nat, b: nat, keep: bool)
    requires Inv(v) && (a < b <= |v.slots| || (a == b == 0 && |v.slots| == 1))
    ensures var marked := MarkDrop(v.slots, a, b, keep);
      && (forall k :: 0 <= k < a ==> marked[k] == v.slots[k])
      && (NoFirstIn(v.slots, a, b, keep) ==> marked[a].unit.None?)
      && (forall k :: 0 <= k < |marked| && marked[k].unit.Some? ==> marked[k].status != Drop)
  {
  }

  lemma LeastIsTouched(v: State, slots: seq<Entry>, m: int)
    requires |slots| == |v.slots| && LeastChange(v.slots, slots, m) && v.cursor < |slots|
    ensures Touched(v.slots, slots, v.cursor) <==> m != -1 && m <= v.cursor
  {
  }

  /** A slot that lost its packet is not readable, wherever the start moved. */
  lemma ForgottenIsGone(s: State, f: nat)
    requires 0 <= s.cursor < |s.slots| && -1 <= s.ooo < |s.slots| && f < |s.slots|
    ensures s.ooo >= 0 && s.slots[s.ooo].unit.None? ==>
      !StillReadable(Shift(s.slots, f), Back(s.ooo, f, |s.slots|))
  {
  }

  lemma StreamCallable(s: State)
    requires Inv(s) && NotchFits(s)
    ensures StreamReady(s)
  {
  }

  lemma ReadStreamStops(s: State, rs: int)
    requires StreamReady(s) && (s.cursor == 0 || rs <= 0)
    ensures ReadStream(s, rs) == (s, [])
  {
  }

  lemma NothingBefore(b: Bytes)
    ensures [] + b == b
  {
  }

  lemma StreamHead(s: State)
    requires Inv(s) && s.cursor > 0 && NotchFits(s)
    ensures s.slots[0].unit.Some? && s.slots[0].unit.value.seqno == Wrap(s.base)
    ensures s.maxOff > 0 && 0 <= s.notch <= |s.slots[0].unit.value.payload|
  {
  }

  /** One packet, or part of one, of a stream read. */
  lemma StreamStep(s: State, rs: int)
    requires Inv(s) && !s.messageApi && s.cursor > 0 && NotchFits(s) && rs > 0
    ensures var p := s.slots[0].unit.value.payload;
      var t := if rs >= |p| - s.notch then Pass(s, 1).(notch := 0) else s.(notch := s.notch + rs);
      var u := Min(|p| - s.notch, rs);
      && Inv(t) && NotchFits(t) && (NotchOk(s) ==> NotchOk(t)) && StreamReady(t)
      && ReadStream(s, rs).0 == ReadStream(t, rs - u).0
      && ReadStream(s, rs).1 == p[s.notch..s.notch + u] + ReadStream(t, rs - u).1
      && (t.cursor < s.cursor || (t.cursor == s.cursor && rs - u < rs))
  {
    var p := s.slots[0].unit.value.payload;
    AdvanceKeepsSlots(s, 1);
    AdvanceKeepsCursor(s, 1, false);
    assert Pass(s, 1) == Advance(s, 1);
    assert rs < |p| - s.notch ==> p[s.notch..][..rs] + [] == p[s.notch..][..rs];
    assert p[s.notch..][..Min(|p| - s.notch, rs)] == p[s.notch..s.notch + Min(|p| - s.notch, rs)];
  }

  /** One step of looking for the end of a message. */
  lemma ReadStopHere(slots: seq<Entry>, k: nat)
    requires k < |slots|
    ensures slots[k].unit.None? ==> ReadStop(slots, k) == (k, false)
    ensures slots[k].unit.Some? && slots[k].unit.value.last ==> ReadStop(slots, k) == (k + 1, true)
    ensures slots[k].unit.Some? && !slots[k].unit.value.last ==> ReadStop(slots, k) == ReadStop(slots, k + 1)
  {
  }

  lemma PosOfOff(n: nat, start: nat, pos: nat)
    requires start < n && pos < n
    ensures 0 <= OffPos(n, start, pos) < n && IncPos(n, start, OffPos(n, start, pos)) == pos
  {
  }

  lemma PassHeadSlot(s: State, j: nat)
    requires 0 <= s.cursor < |s.slots| && -1 <= s.ooo < |s.slots| && j < |s.slots|
    ensures Pass(s, j).slots[0] == s.slots[j]
  {
  }

  lemma RotUpdate(e: seq<Entry>, p: nat, k: nat, v: Entry)
    requires p < |e| && k < |e|
    ensures Rot(e[IncPos(|e|, p, k) := v], p) == Rot(e, p)[k := v]
  {
  }

  lemma {:induction false} CountConcat(a: seq<Entry>, c: seq<Entry>, b: bool)
    ensures Count(a + c, b) == Count(a, b) + Count(c, b)
  {
    if a == [] {
      assert a + c == c;
    } else {
      assert (a + c)[1..] == a[1..] + c;
      CountConcat(a[1..], c, b);
    }
  }

  /** The slots that hold a packet, or one without the order flag. */
  ghost function Holders(slots: seq<Entry>, b: bool): set<nat> {
    set k: nat | k < |slots| && slots[k].unit.Some? && !(b && slots[k].unit.value.inOrder)
  }

  lemma HoldersGrow(a: seq<Entry>, e: Entry, b: bool)
    ensures Holders(a + [e], b) == Holders(a, b) + if Counted(e, b) then {|a|} else {}
    ensures |a| !in Holders(a, b)
  {
  }

  /** The count is the number of these slots. */
  lemma {:induction false} CountExact(slots: seq<Entry>, b: bool)
    ensures Count(slots, b) == |Holders(slots, b)|
    decreases |slots|
  {
    hide Holders, Counted;
    if slots == [] {
      HoldersNone(b);
    } else {
      var a, e := slots[..|slots| - 1], slots[|slots| - 1];
      CountExact(a, b);
      CountConcat(a, [e], b);
      HoldersGrow(a, e, b);
      assert slots == a + [e];
    }
  }

  lemma HoldersNone(b: bool)
    ensures Holders([], b) == {}
  {
  }

  lemma RotCount(e: seq<Entry>, p: nat, b: bool)
    requires p <= |e|
    ensures Count(Rot(e, p), b) == Count(e, b)
  {
    CountConcat(e[p..], e[..p], b);
    CountConcat(e[..p], e[p..], b);
    assert e[..p] + e[p..] == e;
  }

  /** The sequence number a packet header stands for, seen from a buffer that starts at `base`. */
  function Locate(base: int, n: Seq31): int {
    base + SeqOff(Wrap(base), n)
  }

  lemma LocateExact(base: int, q: int)
    requires Abs(q - base) < SEQNO_TH
    ensures Locate(base, Wrap(q)) == q
  {
    SeqOffExact(base, q);
  }

  lemma LocateWraps(base: int, n: Seq31)
    ensures Wrap(Locate(base, n)) == n
  {
  }

  class RcvBuffer {
    const entries: array<Entry>
    const messageApi: bool
    var startSeqNo: Seq31
    var startPos: nat
    var firstNonreadPos: nat
    var maxPosOff: int
    var notch: int
    var numOutOfOrder: int
    var firstReadableOoo: int
    var unitsTaken: int
    ghost var base: int

    ghost predicate Wf()
      reads this`startPos, this`firstNonreadPos, this`firstReadableOoo, this`startSeqNo, this`base
    {
      && startPos < entries.Length && firstNonreadPos < entries.Length
      && -1 <= firstReadableOoo < entries.Length
      && startSeqNo == Wrap(base)
    }

    ghost function Slots(): seq<Entry>
      requires startPos <= entries.Length
      reads this`startPos, entries
    {
      Rot(entries[..], startPos)
    }

    ghost function NonreadOff(): int
      reads this`startPos, this`firstNonreadPos
    {
      OffPos(entries.Length, startPos, firstNonreadPos)
    }

    ghost function OooOff(): int
      reads this`startPos, this`firstReadableOoo
    {
      if firstReadableOoo < 0 then -1 else OffPos(entries.Length, startPos, firstReadableOoo)
    }

    ghost function View(): State
      requires Wf()
      reads this, entries
    {
      State(messageApi, base, Slots(), maxPosOff, NonreadOff(), OooOff(), notch)
    }

    /** The two counters: packets stored without the order flag, and units taken from the pool. */
    ghost predicate Counters()
      reads this`numOutOfOrder, this`unitsTaken, entries
    {
      && numOutOfOrder == (if messageApi then Count(entries[..], true) else 0)
      && unitsTaken == Count(entries[..], false)
    }

    ghost predicate Valid()
      reads this, entries
    {
      Wf() && Counters() && Inv(View())
    }

    constructor (initSeqNo: Seq31, size: nat, messageApi: bool)
      requires size > 0
      ensures Valid() && fresh(entries)
      ensures View() == Initial(initSeqNo, size, messageApi)
      ensures unitsTaken == 0
    {
      entries := new Entry[size](_ => EMPTY);
      this.messageApi := messageApi;
      startSeqNo, base := initSeqNo, initSeqNo;
      startPos, firstNonreadPos, maxPosOff, notch := 0, 0, 0, 0;
      numOutOfOrder, firstReadableOoo, unitsTaken := 0, -1, 0;
      new;
      CountNone(entries[..], true);
      CountNone(entries[..], false);
      assert Slots() == seq(size, _ => EMPTY);
      InitialKeeps(initSeqNo, size, messageApi);
    }

    method ReleaseUnitInPos(pos: nat)
      requires pos < entries.Length
      modifies this`unitsTaken, entries
      ensures entries[..] == old(entries[..])[pos := EMPTY]
      ensures old(unitsTaken == Count(entries[..], false)) ==> unitsTaken == Count(entries[..], false)
    {
      var tmp := entries[pos].unit;
      entries[pos] := EMPTY;
      if tmp.Some? {
        unitsTaken := unitsTaken - 1;
      }
      CountUpdate(old(entries[..]), false, pos, EMPTY);
      assert entries[..] == old(entries[..])[pos := EMPTY];
    }

    method DropUnitInPos(pos: nat) returns (dropped: bool)
      requires pos < entries.Length && Counters()
      modifies this`unitsTaken, this`numOutOfOrder, this`firstReadableOoo, entries
      ensures Counters()
      ensures dropped == old(entries[pos].unit.Some?)
      ensures entries[..] == if dropped then old(entries[..])[pos := EMPTY] else old(entries[..])
      ensures firstReadableOoo ==
        if messageApi && pos == old(firstReadableOoo) && old(Counted(entries[pos], true)) then -1
        else old(firstReadableOoo)
    {
      if entries[pos].unit.None? {
        return false;
      }
      if messageApi && !entries[pos].unit.value.inOrder {
        numOutOfOrder := numOutOfOrder - 1;
        if pos == firstReadableOoo {
          firstReadableOoo := -1;
        }
      }
      CountUpdate(entries[..], true, pos, EMPTY);
      ReleaseUnitInPos(pos);
      return true;
    }

    /** Slot `k` is the entry `k` positions after the start. */
    lemma SlotAt(k: nat)
      requires startPos < entries.Length && k < entries.Length
      ensures Slots()[k] == entries[IncPos(entries.Length, startPos, k)]
    {
    }

    /** One step of the start position over a slot that has been emptied. */
    method StepStart()
      requires Wf() && entries[startPos] == EMPTY
      modifies this`startPos
      ensures Wf() && View() == Turn(old(View()), 1)
    {
      RotStep(entries[..], startPos);
      startPos := IncPos(entries.Length, startPos, 1);
    }

    /** Empties the first slot. */
    method ClearHead()
      requires Wf()
      modifies this`unitsTaken, entries
      ensures View() == old(View()).(slots := old(Slots())[0 := EMPTY]) && entries[startPos] == EMPTY
      ensures old(unitsTaken == Count(entries[..], false)) ==> unitsTaken == Count(entries[..], false)
      ensures Count(entries[..], true) == old(Count(entries[..], true)) - (if old(Counted(entries[startPos], true)) then 1 else 0)
    {
      CountUpdate(entries[..], true, startPos, EMPTY);
      RotUpdate(entries[..], startPos, 0, EMPTY);
      ReleaseUnitInPos(startPos);
    }

    /** Takes the first slot, which holds no packet, out of the window. */
    method PassHead()
      requires Wf() && Counters() && maxPosOff >= 0 && entries[startPos].unit.None?
      modifies this`startSeqNo, this`startPos, this`maxPosOff, this`unitsTaken, this`base, entries
      ensures Wf() && Counters() && maxPosOff >= 0 && View() == Pass(old(View()), 1)
    {
      hide Count, Rot, Wrap, Turn, IncPos;
      ghost var v := View();
      startSeqNo := IncSeq(startSeqNo);
      base := base + 1;
      IncSeqWraps(base - 1, 1);
      ClearHead();
      StepStart();
      TurnClears(v.(base := v.base + 1));
      TurnFrame(v, v.base + 1, v.maxOff);
      maxPosOff := maxPosOff - 1;
      if maxPosOff < 0 {
        maxPosOff := 0;
      }
    }

    /** Moves the start past slots that were read out of order or dropped. */
    method ReleaseNextFillerEntries()
      requires Wf() && Counters() && maxPosOff >= 0
      requires forall k :: 0 <= k < |Slots()| && Filler(Slots()[k]) ==> Slots()[k].unit.None?
      requires FillerRun(Slots(), 0) < |Slots()|
      modifies this`startSeqNo, this`startPos, this`maxPosOff, this`unitsTaken, this`base, entries
      ensures Wf() && Counters()
      ensures View() == Pass(old(View()), FillerRun(old(Slots()), 0))
    {
      hide Shift, Back, Count, Rot, Pass, Wrap, FillerRun;
      ghost var v0, j := View(), 0;
      ghost var f := FillerRun(v0.slots, 0);
      FillerRunMeaning(v0.slots, 0);
      PassZero(v0);
      SlotAt(0);
      while entries[startPos].status == Read || entries[startPos].status == Drop
        invariant Wf() && Counters() && 0 <= j <= f && maxPosOff >= 0
        invariant View() == Pass(v0, j) && entries[startPos] == v0.slots[j]
        decreases f - j
      {
        PassHead();
        PassTwice(v0, j, 1);
        j := j + 1;
        SlotAt(0);
        PassHeadSlot(v0, j);
      }
    }

    method UpdateNonreadPos()
      requires Wf() && SlotsOk(base, Slots(), maxPosOff) && NonreadOff() <= maxPosOff
      modifies this`firstNonreadPos
      ensures Wf() && NonreadOff() == ScanEnd(Slots(), messageApi, old(NonreadOff()))
    {
      firstNonreadPos := ScanNonread(firstNonreadPos);
    }

    /** The end of the run of complete messages stored from position `from` on. */
    method ScanNonread(from: nat) returns (pos: nat)
      requires Wf() && SlotsOk(base, Slots(), maxPosOff)
      requires from < entries.Length && OffPos(entries.Length, startPos, from) <= maxPosOff
      ensures pos < entries.Length
      ensures OffPos(entries.Length, startPos, pos)
           == ScanEnd(Slots(), messageApi, OffPos(entries.Length, startPos, from))
    {
      hide Rot, Wrap, IncPos, OffPos, ScanEnd, MsgEnd, SlotsOk;
      var n := entries.Length;
      PosOfOff(n, startPos, from);
      ghost var slots, c0 := Slots(), OffPos(n, startPos, from);
      ghost var c := c0;
      SlotAt(c);
      StoredBelow(base, slots, maxPosOff, c);
      ScanStep(slots, messageApi, c);
      pos := from;
      if maxPosOff == 0 {
        return;
      }
      var endPos := IncPos(n, startPos, maxPosOff);
      while entries[pos].unit.Some? && entries[pos].status == Avail
        invariant pos < n && c == OffPos(n, startPos, pos) <= maxPosOff
        invariant entries[pos] == slots[c]
        invariant ScanEnd(slots, messageApi, c) == ScanEnd(slots, messageApi, c0)
        decreases maxPosOff - c
      {
        ScanStep(slots, messageApi, c);
        StoredBelow(base, slots, maxPosOff, c);
        if messageApi && !entries[pos].unit.value.first {
          break;
        }
        var last := FindMsgEnd(pos, endPos, c);
        if last < 0 {
          break;
        }
        PosOfOff(n, startPos, last);
        OffNext(n, startPos, last);
        pos := IncPos(n, last, 1);
        PosOfOff(n, startPos, pos);
        c := OffPos(n, startPos, pos);
        SlotAt(c);
      }
      StoredBelow(base, slots, maxPosOff, c);
      ScanStep(slots, messageApi, c);
    }

    /** The position of the packet that ends the message stored from position `pos` on, or -1. */
    method FindMsgEnd(pos: nat, endPos: nat, ghost c: nat) returns (last: int)
      requires Wf() && SlotsOk(base, Slots(), maxPosOff)
      requires pos < entries.Length && c == OffPos(entries.Length, startPos, pos) < maxPosOff
      requires endPos == IncPos(entries.Length, startPos, maxPosOff)
      ensures -1 <= last < entries.Length
      ensures (if last < 0 then -1 else OffPos(entries.Length, startPos, last)) == MsgEnd(Slots(), messageApi, c)
      ensures last >= 0 ==> c <= OffPos(entries.Length, startPos, last) < maxPosOff
    {
      hide Rot, Wrap, IncPos, SlotsOk;
      var n := entries.Length;
      var i: nat := pos;
      ghost var slots, k := Slots(), c;
      SlotAt(c);
      StoredBelow(base, slots, maxPosOff, c);
      OffOfInc(n, startPos, maxPosOff);
      while i != endPos
        invariant i < n && c <= k == OffPos(n, startPos, i) <= maxPosOff
        invariant MsgEnd(slots, messageApi, k) == MsgEnd(slots, messageApi, c)
        decreases maxPosOff - k
      {
        SlotAt(k);
        PosOfOff(n, startPos, i);
        if entries[i].unit.None? || entries[pos].status != Avail {
          return -1;
        }
        if !messageApi || entries[i].unit.value.last {
          return i;
        }
        OffNext(n, startPos, i);
        i := IncPos(n, i, 1);
        k := k + 1;
      }
      StoredBelow(base, slots, maxPosOff, maxPosOff);
      return -1;
    }

    /** The position of the last packet of message `msgNo` stored after `pos0` without a gap, or -1. */
    method ScanNotInOrderMessageRight(pos0: nat, msgNo: nat) returns (r: int)
      requires Wf() && SlotsOk(base, Slots(), maxPosOff)
      requires pos0 < entries.Length && OffPos(entries.Length, startPos, pos0) < maxPosOff
      ensures r < 0 <==> ScanRight(Slots(), OffPos(entries.Length, startPos, pos0) + 1, msgNo) < 0
    {
      hide Rot, Wrap, IncPos;
      var n := entries.Length;
      ghost var slots, k0 := Slots(), OffPos(n, startPos, pos0);
      ghost var k := k0;
      var lastPos := IncPos(n, startPos, maxPosOff - 1);
      var pos: nat := pos0;
      while pos != lastPos
        invariant pos < n && k0 <= k == OffPos(n, startPos, pos) < maxPosOff
        invariant ScanRight(slots, k + 1, msgNo) == ScanRight(slots, k0 + 1, msgNo)
        decreases maxPosOff - k
      {
        OffNext(n, startPos, pos);
        pos := IncPos(n, pos, 1);
        k := k + 1;
        SlotAt(k);
        if entries[pos].unit.None? {
          return -1;
        }
        if entries[pos].unit.value.msgno != msgNo {
          return -1;
        }
        if entries[pos].unit.value.last {
          return pos;
        }
      }
      return -1;
    }

    /** The position of the first packet of message `msgNo` stored before `pos0` without a gap, or -1. */
    method ScanNotInOrderMessageLeft(pos0: nat, msgNo: nat) returns (r: int)
      requires Wf() && pos0 < entries.Length
      ensures -1 <= r < entries.Length
      ensures (if r < 0 then -1 else OffPos(entries.Length, startPos, r))
           == ScanLeft(Slots(), OffPos(entries.Length, startPos, pos0) - 1, msgNo)
    {
      hide Rot, Wrap, IncPos;
      var n := entries.Length;
      ghost var slots, k0 := Slots(), OffPos(n, startPos, pos0);
      ghost var k := k0;
      var pos: nat := pos0;
      while pos != startPos
        invariant pos < n && 0 <= k == OffPos(n, startPos, pos) <= k0 < n
        invariant ScanLeft(slots, k - 1, msgNo) == ScanLeft(slots, k0 - 1, msgNo)
        decreases k
      {
        pos := DecPos(n, pos);
        k := k - 1;
        SlotAt(k);
        if entries[pos].unit.None? {
          return -1;
        }
        if entries[pos].unit.value.msgno != msgNo {
          return -1;
        }
        if entries[pos].unit.value.first {
          return pos;
        }
      }
      return -1;
    }

    method OnInsertNotInOrderPacket(insertPos: nat)
      requires Wf() && SlotsOk(base, Slots(), maxPosOff) && numOutOfOrder > 0
      requires insertPos < entries.Length && entries[insertPos].unit.Some?
      requires OffPos(entries.Length, startPos, insertPos) < maxPosOff
      requires Slots()[OffPos(entries.Length, startPos, insertPos)] == entries[insertPos]
      modifies this`firstReadableOoo
      ensures Wf()
      ensures OooOff() == OnInsertUnordered(Slots(), OffPos(entries.Length, startPos, insertPos), old(OooOff()))
    {
      hide Rot, Wrap, SlotsOk, ScanRight, ScanLeft;
      if numOutOfOrder == 0 {
        return;
      }
      if firstReadableOoo >= 0 {
        return;
      }
      var pkt := entries[insertPos].unit.value;
      if !pkt.last {
        var lastPos := ScanNotInOrderMessageRight(insertPos, pkt.msgno);
        if lastPos < 0 {
          return;
        }
      }
      var firstPktPos: int := insertPos;
      if !pkt.first {
        firstPktPos := ScanNotInOrderMessageLeft(insertPos, pkt.msgno);
      }
      if firstPktPos < 0 {
        return;
      }
      firstReadableOoo := firstPktPos;
    }

    /** Whether the message found readable out of order is still all there. */
    method CheckFirstReadableOutOfOrder() returns (ok: bool)
      requires Wf() && SlotsOk(base, Slots(), maxPosOff) && Counters() && messageApi
      ensures ok <==> OooOff() >= 0 && StillReadable(Slots(), OooOff())
    {
      hide Rot, Wrap, IncPos, Count;
      ghost var slots := Slots();
      if numOutOfOrder <= 0 || firstReadableOoo < 0 || maxPosOff == 0 {
        if OooOff() >= 0 && StillReadable(slots, OooOff()) {
          RotCount(entries[..], startPos, true);
          CountPositive(slots, OooOff(), true);
        }
        return false;
      }
      var n := entries.Length;
      ghost var k0 := OooOff();
      ghost var k := k0;
      var endPos := IncPos(n, startPos, maxPosOff);
      var pos: nat := firstReadableOoo;
      var msgno: int := -1;
      while pos != endPos
        invariant pos < n && k0 <= k == OffPos(n, startPos, pos) < n
        invariant msgno == -1 <==> k == k0
        invariant k > k0 ==> slots[k0].unit.Some? && msgno == slots[k0].unit.value.msgno
        invariant k > k0 ==> (StillReadable(slots, k0) <==> CheckOoo(slots, k, msgno))
        decreases n - k
      {
        SlotAt(k);
        if entries[pos].unit.None? {
          return false;
        }
        var pkt := entries[pos].unit.value;
        if pkt.inOrder {
          return false;
        }
        if msgno == -1 {
          msgno := pkt.msgno;
        } else if msgno != pkt.msgno {
          return false;
        }
        if pkt.last {
          return true;
        }
        OffNext(n, startPos, pos);
        pos := IncPos(n, pos, 1);
        k := k + 1;
      }
      SlotAt(k);
      return false;
    }

    /** Looks for the first message that can be read out of order. */
    method UpdateFirstReadableOutOfOrder()
      requires Wf() && SlotsOk(base, Slots(), maxPosOff) && Counters() && messageApi
      modifies this`firstReadableOoo
      ensures Wf()
      ensures OooOff() == if old(OooOff()) < 0 && NonreadOff() == 0 then ScanOoo(Slots(), 0, -1, -1) else old(OooOff())
    {
      RotCount(entries[..], startPos, true);
      if firstNonreadPos != startPos || numOutOfOrder <= 0 || firstReadableOoo >= 0 || maxPosOff == 0 {
        if Count(Slots(), true) == 0 {
          assert Slots()[0..] == Slots();
          ScanOooNone(Slots(), 0, -1, -1);
        }
        if maxPosOff == 0 {
          CountNone(Slots(), true);
        }
        return;
      }
      firstReadableOoo := SearchReadableOutOfOrder();
    }

    method SearchReadableOutOfOrder() returns (r: int)
      requires Wf() && SlotsOk(base, Slots(), maxPosOff) && maxPosOff > 0
      requires numOutOfOrder == Count(Slots(), true)
      ensures -1 <= r < entries.Length
      ensures (if r < 0 then -1 else OffPos(entries.Length, startPos, r)) == ScanOoo(Slots(), 0, -1, -1)
    {
      hide Rot, Wrap, IncPos, Count;
      var n := entries.Length;
      ghost var slots, k := Slots(), 0;
      var outOfOrderPktsRemain := numOutOfOrder;
      var lastPos := IncPos(n, startPos, maxPosOff - 1);
      var posFirst: int := -1;
      var msgNo: int := -1;
      var pos: nat := startPos;
      assert slots[0..] == slots;
      while outOfOrderPktsRemain != 0
        invariant 0 <= k <= n && pos < n && (k < n ==> OffPos(n, startPos, pos) == k)
        invariant outOfOrderPktsRemain == Count(slots[k..], true)
        invariant -1 <= posFirst < n
        invariant ScanOoo(slots, k, if posFirst < 0 then -1 else OffPos(n, startPos, posFirst), msgNo)
               == ScanOoo(slots, 0, -1, -1)
        decreases n - k
      {
        CountStep(slots, k, true);
        SlotAt(k);
        if entries[pos].unit.None? || entries[pos].unit.value.inOrder {
          posFirst, msgNo := -1, -1;
        } else {
          var pkt := entries[pos].unit.value;
          outOfOrderPktsRemain := outOfOrderPktsRemain - 1;
          if pkt.first {
            posFirst := pos;
            msgNo := pkt.msgno;
          }
          if pkt.msgno != msgNo {
            posFirst, msgNo := -1, -1;
          } else if pkt.last {
            return posFirst;
          } else if pos == lastPos {
            CountNone(slots[k + 1..], true);
            ScanOooNone(slots, k + 1, if posFirst < 0 then -1 else OffPos(n, startPos, posFirst), msgNo);
            return -1;
          }
        }
        pos := IncPos(n, pos, 1);
        k := k + 1;
      }
      ScanOooNone(slots, k, if posFirst < 0 then -1 else OffPos(n, startPos, posFirst), msgNo);
      return -1;
    }

    method StoreUnit(pos: nat, unit: Packet, ghost off: nat)
      requires Wf() && Counters() && off < entries.Length && pos == IncPos(entries.Length, startPos, off)
      requires entries[pos].unit.None?
      modifies this`unitsTaken, this`numOutOfOrder, entries
      ensures Wf() && Counters() && entries[pos] == Entry(Some(unit), Avail)
      ensures View() == old(View()).(slots := old(Slots())[off := Entry(Some(unit), Avail)])
      ensures messageApi && !unit.inOrder ==> numOutOfOrder > 0
    {
      ghost var e := Entry(Some(unit), Avail);
      CountUpdate(entries[..], true, pos, e);
      CountUpdate(entries[..], false, pos, e);
      RotUpdate(entries[..], startPos, off, e);
      unitsTaken := unitsTaken + 1;
      entries[pos] := Entry(Some(unit), Avail);
      if messageApi && !unit.inOrder {
        numOutOfOrder := numOutOfOrder + 1;
      }
      assert entries[..] == old(entries[..])[pos := e];
    }

    /** Stores a packet in its free slot and moves the cursors on. */
    method InsertAt(pos: nat, unit: Packet, ghost v: State, ghost off: nat)
      requires Wf() && Counters() && v.messageApi == messageApi && off < entries.Length - 1 && pos == IncPos(entries.Length, startPos, off)
      requires View() == v.(maxOff := Max(v.maxOff, off + 1)) && entries[pos].unit.None? && NonreadOff() <= maxPosOff
      requires SlotsOk(base, Slots()[off := Entry(Some(unit), Avail)], maxPosOff)
      modifies this`unitsTaken, this`numOutOfOrder, this`firstReadableOoo, this`firstNonreadPos, entries
      ensures Wf() && Counters()
      ensures var slots := v.slots[off := Entry(Some(unit), Avail)];
        View() == v.(maxOff := Max(v.maxOff, off + 1), slots := slots,
          ooo := if v.messageApi && !unit.inOrder then OnInsertUnordered(slots, off, v.ooo) else v.ooo,
          cursor := ScanEnd(slots, v.messageApi, v.cursor))
    {
      hide Rot, Wrap, IncPos, Count, ScanEnd, OnInsertUnordered, SlotsOk, OffPos;
      StoreUnit(pos, unit, off);
      OffOfInc(entries.Length, startPos, off);
      if messageApi && !unit.inOrder {
        OnInsertNotInOrderPacket(pos);
      }
      UpdateNonreadPos();
    }

    method Insert(unit: Packet) returns (r: int)
      requires Valid()
      modifies this, entries
      ensures Valid()
      ensures (View(), r) == ReceiverSpec.Insert(old(View()), Locate(old(base), unit.seqno), unit)
      ensures old(Settled(View())) ==> Settled(View())
    {
      hide Rot, Wrap, IncPos, Count, ScanEnd, SeqOff, OffPos, OnInsertUnordered, SlotsOk, CursorOk;
      ghost var v := View();
      ghost var q := Locate(base, unit.seqno);
      LocateWraps(base, unit.seqno);
      InsertKeeps(v, q, unit);
      CursorInside(v);
      var offset := SeqOff(startSeqNo, unit.seqno);
      var n := entries.Length;
      if offset < 0 {
        return -2;
      }
      if offset >= n - 1 {
        return -3;
      }
      var pos := IncPos(n, startPos, offset);
      SlotAt(offset);
      StoredBelow(base, Slots(), maxPosOff, offset);
      if offset >= maxPosOff {
        maxPosOff := offset + 1;
      }
      if entries[pos].status != Empty {
        return -1;
      }
      InsertAt(pos, unit, v, offset);
      return 0;
    }

    /** Marks a slot that holds no packet as empty or dropped. */
    method SetStatus(pos: nat, status: Status)
      requires pos < entries.Length && entries[pos].unit.None? && Counters()
      modifies entries
      ensures entries[..] == old(entries[..])[pos := Entry(None, status)] && Counters()
    {
      CountUpdate(entries[..], true, pos, Entry(None, status));
      CountUpdate(entries[..], false, pos, Entry(None, status));
      entries[pos] := entries[pos].(status := status);
      assert entries[..] == old(entries[..])[pos := Entry(None, status)];
    }

    /** Drops the first slot and moves the start over it. */
    method DropHead()
      requires Wf() && Counters()
      modifies this`startPos, this`unitsTaken, this`numOutOfOrder, this`firstReadableOoo, entries
      ensures Wf() && Counters()
      ensures View() == Turn(ForgetOoo(old(View()), 1), 1)
    {
      hide Count, Rot, Wrap, IncPos, Turn;
      ghost var v, e := View(), entries[..];
      SlotAt(0);
      assert entries[startPos] == v.slots[0] by { HeadPos(entries.Length, startPos); }
      RotUpdate(entries[..], startPos, 0, EMPTY);
      HeadPos(entries.Length, startPos);
      var dropped := DropUnitInPos(startPos);
      SetStatus(startPos, Empty);
      assert entries[..] == e[startPos := EMPTY];
      StepStart();
      TurnClears(ForgetOoo(v, 1));
    }

    /** Once the start has moved: brings the in-order cursor back into the window. */
    method SettleNonread(rescan: bool, ghost s: State, ghost k: nat)
      requires Inv(s) && s.messageApi == messageApi && Wf() && Counters()
      requires View() == Pass(s, k + FillerRun(Shift(s.slots, k), 0))
      modifies this`firstNonreadPos
      ensures Wf() && View() == Move(s, k, rescan) && SlotsOk(base, Slots(), maxPosOff)
    {
      hide Rot, Wrap, IncPos, Count, ScanEnd, Shift, Back, FillerRun, SlotsOk, Move, Pass;
      ghost var f := FillerRun(Shift(s.slots, k), 0);
      MoveIsPass(s, k, rescan);
      PassCursor(s, k + f);
      StoredBelow(base, Slots(), maxPosOff, 0);
      if !IsInRange(startPos, maxPosOff, entries.Length, firstNonreadPos) {
        firstNonreadPos := startPos;
        if rescan {
          UpdateNonreadPos();
        }
      } else {
        ScanEmpty(base, Slots(), messageApi, maxPosOff);
      }
    }

    /** Once the start has moved: brings the two read cursors back into the window. */
    method SettleCursors(rescan: bool, ghost s: State, ghost k: nat)
      requires Inv(s) && s.messageApi == messageApi && Wf() && Counters()
      requires View() == Pass(s, k + FillerRun(Shift(s.slots, k), 0))
      modifies this`firstNonreadPos, this`firstReadableOoo
      ensures Wf() && View() == Seek(Move(s, k, rescan))
    {
      hide Rot, Wrap, IncPos, Count, Shift, Back, FillerRun, ScanOoo, SlotsOk, CheckOoo, Move, Pass;
      SettleNonread(rescan, s, k);
      if messageApi {
        UpdateFirstReadableOutOfOrder();
      }
    }

    /** After the start moved `k` slots: passes over fillers and settles the cursors. */
    method FinishMove(rescan: bool, ghost s: State, ghost k: nat)
      requires Inv(s) && s.messageApi == messageApi && Wf() && Counters() && View() == Pass(s, k)
      modifies this, entries
      ensures Wf() && Counters() && View() == Seek(Move(s, k, rescan))
    {
      hide Rot, Wrap, Count, ScanEnd, Back, FillerRun, ScanOoo, SlotsOk, IncPos, OffPos, Shift, Move, Seek;
      MoveIsPass(s, k, rescan);
      FillersHoldNothing(Pass(s, k));
      ReleaseNextFillerEntries();
      SettleCursors(rescan, s, k);
    }

    method DropHeads(cnt: nat)
      requires Wf() && Counters()
      modifies this`startPos, this`unitsTaken, this`numOutOfOrder, this`firstReadableOoo, entries
      ensures Wf() && Counters()
      ensures View() == Turn(ForgetOoo(old(View()), cnt), cnt)
    {
      hide Rot, Wrap, Count, Shift, Back, Turn;
      ghost var w, j := View(), 0;
      var len := cnt;
      TurnZero(w);
      while len > 0
        invariant Wf() && Counters() && 0 <= j && len + j == cnt
        invariant View() == Turn(ForgetOoo(w, j), j)
      {
        DropHead();
        ForgetStep(w, j);
        len := len - 1;
        j := j + 1;
      }
    }

    method DropUpTo(seqno: Seq31) returns (dropCnt: int)
      requires Valid()
      modifies this, entries
      ensures Valid()
      ensures (View(), dropCnt) == ReceiverSpec.DropUpTo(old(View()), Locate(old(base), seqno))
      ensures dropCnt > 0 || old(Settled(View())) ==> Settled(View())
    {
      hide Rot, Wrap, IncPos, Count, SeqOff, OffPos, Shift, Back, SlotsOk, Move, Seek;
      ghost var v := View();
      ghost var q := Locate(base, seqno);
      LocateWraps(base, seqno);
      DropUpToKeeps(v, q);
      var len := SeqOff(startSeqNo, seqno);
      if len <= 0 {
        return 0;
      }
      maxPosOff := maxPosOff - len;
      if maxPosOff < 0 {
        maxPosOff := 0;
      }
      dropCnt := len;
      DropHeads(len);
      startSeqNo := seqno;
      base := base + dropCnt;
      FinishMove(true, ForgetOoo(v, dropCnt), dropCnt);
    }

    method DropAll() returns (dropCnt: int)
      requires Valid() && entries.Length <= MAX_SEQNO
      modifies this, entries
      ensures Valid()
      ensures old(maxPosOff) == 0 ==> dropCnt == 0 && View() == old(View())
      ensures 0 < old(maxPosOff) ==>
        (View(), dropCnt) == ReceiverSpec.DropUpTo(old(View()), Locate(old(base), Wrap(old(base) + old(maxPosOff))))
      ensures 0 < old(maxPosOff) < SEQNO_TH ==>
        (View(), dropCnt) == ReceiverSpec.DropUpTo(old(View()), old(base) + old(maxPosOff))
    {
      hide Rot, Wrap, Count, SeqOff, Shift, Back, CursorOk, Move, Seek, IncSeqBy, Locate;
      if maxPosOff == 0 {
        return 0;
      }
      IncSeqWraps(base, maxPosOff);
      if maxPosOff < SEQNO_TH {
        LocateExact(base, base + maxPosOff);
      }
      dropCnt := DropUpTo(IncSeqBy(startSeqNo, maxPosOff));
    }

    method CountOutUnit(pos: nat)
      requires pos < entries.Length && entries[pos].unit.Some? && Counters()
      modifies this`numOutOfOrder, this`unitsTaken, entries
      ensures entries[..] == old(entries[..])[pos := EMPTY] && Counters()
    {
      if numOutOfOrder != 0 && !entries[pos].unit.value.inOrder {
        numOutOfOrder := numOutOfOrder - 1;
      }
      if messageApi && !entries[pos].unit.value.inOrder {
        CountPositive(entries[..], pos, true);
      }
      CountUpdate(entries[..], true, pos, EMPTY);
      ReleaseUnitInPos(pos);
    }

    /** Reads out the packet in the first slot and moves the start over it. */
    method TakeHead()
      requires Wf() && Counters() && maxPosOff > 0
      requires entries[startPos].unit.Some? && entries[startPos].unit.value.seqno == startSeqNo
      modifies this`startSeqNo, this`startPos, this`maxPosOff, this`unitsTaken, this`numOutOfOrder, this`base, entries
      ensures Wf() && Counters() && View() == Pass(old(View()), 1)
    {
      hide Count, Rot, Wrap, IncPos, Turn;
      ghost var v := View();
      var pktseqno := entries[startPos].unit.value.seqno;
      HeadPos(entries.Length, startPos);
      RotUpdate(entries[..], startPos, 0, EMPTY);
      CountOutUnit(startPos);
      StepStart();
      TurnClears(v);
      maxPosOff := maxPosOff - 1;
      IncSeqWraps(base, 1);
      startSeqNo := IncSeq(pktseqno);
      base := base + 1;
    }

    /** Reads out the packet at position `pos`, slot `k`, and leaves the slot marked as read. */
    method TakeOutOfOrder(pos: nat, ghost k: nat)
      requires Wf() && Counters() && k < entries.Length && pos == IncPos(entries.Length, startPos, k)
      requires entries[pos].unit.Some?
      modifies this`unitsTaken, this`numOutOfOrder, entries
      ensures Wf() && Counters()
      ensures View() == old(View()).(slots := old(Slots())[k := Entry(None, Read)])
    {
      hide Count, Rot, Wrap, IncPos;
      RotUpdate(entries[..], startPos, k, Entry(None, Read));
      CountOutUnit(pos);
      SetStatus(pos, Read);
      assert entries[..] == old(entries[..])[pos := Entry(None, Read)];
    }

    /** One packet of the reading loop; `next` is the position to read from after it. */
    method TakeOne(i: nat, updateStartPos: bool, ghost v: State, ghost ro: nat, ghost k: nat) returns (next: nat)
      requires Wf() && Counters() && Inv(v) && ro <= k < entries.Length == |v.slots|
      requires View() == Taken(v, ro, k) && (updateStartPos <==> ro == 0)
      requires i < entries.Length && OffPos(entries.Length, startPos, i) == (if ro == 0 then 0 else k)
      requires entries[i] == v.slots[k] && entries[i].unit.Some?
      modifies this`startSeqNo, this`startPos, this`maxPosOff, this`unitsTaken, this`numOutOfOrder, this`base, entries
      ensures Wf() && Counters() && k + 1 < entries.Length && View() == Taken(v, ro, k + 1)
      ensures next < entries.Length && OffPos(entries.Length, startPos, next) == (if ro == 0 then 0 else k + 1)
    {
      hide Count, Rot, Wrap, IncPos, Taken, Pass;
      TakenSlot(v, ro, k);
      TakenStep(v, ro, k);
      PosOfOff(entries.Length, startPos, i);
      if updateStartPos {
        TakeHead();
        next := startPos;
      } else {
        TakeOutOfOrder(i, k);
        OffNext(entries.Length, startPos, i);
        next := IncPos(entries.Length, i, 1);
      }
    }

    /** One pass of the reading loop: copies what there is room for and takes the packet out. */
    method CopyOne(i: nat, updateStartPos: bool, len: nat, data0: Bytes, ghost v: State, ghost ro: nat, ghost k: nat)
      returns (next: nat, data: Bytes, last: bool)
      requires Wf() && Counters() && Inv(v) && ro <= k < entries.Length == |v.slots| && |data0| <= len
      requires View() == Taken(v, ro, k) && (updateStartPos <==> ro == 0)
      requires i < entries.Length && OffPos(entries.Length, startPos, i) == (if ro == 0 then 0 else k)
      requires entries[i] == v.slots[k] && entries[i].unit.Some?
      requires (forall m :: ro <= m < k ==> v.slots[m].unit.Some?) && data0 == Copied(v.slots, ro, k, len)
      modifies this`startSeqNo, this`startPos, this`maxPosOff, this`unitsTaken, this`numOutOfOrder, this`base, entries
      ensures Wf() && Counters() && k + 1 < entries.Length && View() == Taken(v, ro, k + 1)
      ensures next < entries.Length && OffPos(entries.Length, startPos, next) == (if ro == 0 then 0 else k + 1)
      ensures (forall m :: ro <= m < k + 1 ==> v.slots[m].unit.Some?) && data == Copied(v.slots, ro, k + 1, len)
      ensures |data| <= len && last == v.slots[k].unit.value.last
    {
      hide Count, Rot, Wrap, IncPos, Taken, Copied, SlotsOk, CursorOk;
      var pkt := entries[i].unit.value;
      CopiedMore(v.slots, ro, k, len);
      var unitsize := Min(len - |data0|, |pkt.payload|);
      data := data0 + pkt.payload[..unitsize];
      next := TakeOne(i, updateStartPos, v, ro, k);
      last := pkt.last;
    }

    /** The reading loop: takes packets out from `readPos` until one ends its message. */
    method ReadPacketsFrom(readPos: nat, len: nat) returns (data: Bytes)
      requires Valid() && readPos < entries.Length
      modifies this, entries
      ensures Wf() && Counters()
      ensures var v, ro := old(View()), OffPos(entries.Length, old(startPos), readPos);
        var stop := ReadStop(v.slots, ro);
        && View() == Taken(if stop.1 && ro == v.ooo then v.(ooo := -1) else v, ro, stop.0)
        && data == Copied(v.slots, ro, stop.0, len)
    {
      hide Count, Rot, Wrap, IncPos, Taken, Copied, SlotsOk, CursorOk, ReadStop;
      var n := entries.Length;
      ghost var v, ro := View(), OffPos(n, startPos, readPos);
      ghost var k := ro;
      var updateStartPos := readPos == startPos;
      data := [];
      var i: nat := readPos;
      TakenNothing(v, ro);
      CopiedNothing(v.slots, ro, len);
      while true
        invariant Wf() && Counters() && ro <= k < n && View() == Taken(v, ro, k)
        invariant i < n && OffPos(n, startPos, i) == (if ro == 0 then 0 else k)
        invariant firstReadableOoo == old(firstReadableOoo)
        invariant ReadStop(v.slots, k) == ReadStop(v.slots, ro)
        invariant (forall m :: ro <= m < k ==> v.slots[m].unit.Some?)
        invariant data == Copied(v.slots, ro, k, len) && |data| <= len
        decreases n - k
      {
        SlotAt(if ro == 0 then 0 else k);
        TakenSlot(v, ro, k);
        PosOfOff(n, startPos, i);
        ReadStopHere(v.slots, k);
        if entries[i].unit.None? {
          break;
        }
        var last;
        i, data, last := CopyOne(i, updateStartPos, len, data, v, ro, k);
        k := k + 1;
        if last {
          TakenForgets(v, ro, k);
          if readPos == firstReadableOoo {
            firstReadableOoo := -1;
          }
          return;
        }
      }
    }

    method ReadMessage(len: nat) returns (data: Bytes)
      requires Valid() && messageApi
      modifies this, entries
      ensures Valid()
      ensures View() == ReceiverSpec.ReadMessage(old(View()))
      ensures data == Take(Payloads(ReadPackets(old(View()))), len)
      ensures ReadFrom(old(View())) >= 0 || old(Settled(View())) ==> Settled(View())
    {
      hide Rot, Wrap, IncPos, Count, Shift, Back, SlotsOk, Move, Seek, Payloads, MarkRead;
      ghost var v := View();
      ReadMessageKeeps(v);
      var canReadInOrder := firstNonreadPos != startPos;
      if !canReadInOrder && firstReadableOoo < 0 {
        CopiedNothing([], 0, len);
        return [];
      }
      var readPos := if canReadInOrder then startPos else firstReadableOoo;
      ghost var ro := ReadFrom(v);
      data := ReadPacketsFrom(readPos, len);
      ghost var stop := ReadStop(v.slots, ro);
      ghost var s1 := if stop.1 && ro == v.ooo then v.(ooo := -1) else v;
      if ro > 0 {
        StopBelowEnd(v, ro);
        MarkReadKeeps(s1, ro, stop.0);
        PassZero(View());
      }
      FinishMove(false, if ro == 0 then s1 else View(), if ro == 0 then stop.0 else 0);
    }

    /** Drops whatever is at position `pos`, slot `k`, and marks the slot. */
    method DropAt(pos: nat, ghost k: nat)
      requires Wf() && Counters() && k < entries.Length && pos == IncPos(entries.Length, startPos, k)
      modifies this`unitsTaken, this`numOutOfOrder, this`firstReadableOoo, entries
      ensures Wf() && Counters()
      ensures View() == old(View()).(slots := old(Slots())[k := Entry(None, Drop)], ooo := OooOff())
      ensures OooOff() == old(OooOff()) || (OooOff() == -1 && old(OooOff()) == k)
    {
      hide Count, Rot, Wrap, IncPos;
      RotUpdate(entries[..], startPos, k, Entry(None, Drop));
      OffOfInc(entries.Length, startPos, k);
      var dropped := DropUnitInPos(pos);
      SetStatus(pos, Drop);
      assert entries[..] == old(entries[..])[pos := Entry(None, Drop)];
    }

    /** Slot `k` of the range: dropped, unless it was before or holds a message of one packet to be kept. */
    method DropOne(i: nat, keep: bool, cnt0: nat, minOff0: int, byMsgNo0: bool, ghost v: State, ghost startOff: nat, ghost k: nat)
      returns (cnt: nat, minOff: int, byMsgNo: bool)
      requires Wf() && Counters() && -1 <= v.ooo < |v.slots| == entries.Length
      requires i < entries.Length && startOff <= k == OffPos(entries.Length, startPos, i)
      requires View() == v.(slots := MarkDrop(v.slots, startOff, k, keep), ooo := OooOff())
      requires OooAfter(v, Slots(), OooOff()) && LeastChange(v.slots, Slots(), minOff0) && minOff0 < k
      modifies this`unitsTaken, this`numOutOfOrder, this`firstReadableOoo, entries
      ensures Wf() && Counters()
      ensures View() == v.(slots := MarkDrop(v.slots, startOff, k + 1, keep), ooo := OooOff())
      ensures OooAfter(v, Slots(), OooOff()) && LeastChange(v.slots, Slots(), minOff) && minOff < k + 1
      ensures cnt == cnt0 + if Kept(v.slots[k], keep) then 0 else 1
      ensures byMsgNo <==> byMsgNo0 && !(IsFirst(v.slots[k]) && (keep || !IsLast(v.slots[k])))
    {
      hide Count, Rot, Wrap, IncPos, MarkDrop, SlotsOk, CursorOk, LeastChange;
      var n := entries.Length;
      cnt, minOff, byMsgNo := cnt0, minOff0, byMsgNo0;
      SlotAt(k);
      PosOfOff(n, startPos, i);
      MarkStep(v.slots, startOff, k, keep);
      var e := entries[i];
      assert e == v.slots[k];
      if e.unit.Some? && e.unit.value.first && (keep || !e.unit.value.last) {
        byMsgNo := false;
      }
      if e.status != Drop && !(keep && e.unit.Some? && e.unit.value.first && e.unit.value.last) {
        LeastStep(v.slots, Slots(), minOff, k);
        DropAt(i, k);
        cnt := cnt + 1;
        if minOff == -1 {
          minOff := OffPos(n, startPos, i);
        }
      }
    }

    /** Drops the slots of the range; `byMsgNo` tells whether the message may start before it. */
    method DropRange(startOff: nat, endOff: nat, msgno: int, keep: bool) returns (cnt: nat, minOff: int, byMsgNo: bool)
      requires Valid() && startOff <= endOff < entries.Length
      modifies this`unitsTaken, this`numOutOfOrder, this`firstReadableOoo, entries
      ensures Wf() && Counters()
      ensures var v := old(View()); var marked := MarkDrop(v.slots, startOff, endOff, keep);
        && View() == v.(slots := marked, ooo := OooOff())
        && OooAfter(v, marked, OooOff()) && LeastChange(v.slots, marked, minOff)
        && cnt == DropCount(v.slots, startOff, endOff, keep)
        && (byMsgNo <==> msgno > 0 && NoFirstIn(v.slots, startOff, endOff, keep))
    {
      hide Count, Rot, Wrap, IncPos, MarkDrop, SlotsOk, CursorOk, LeastChange, Kept, IsFirst, IsLast;
      var n := entries.Length;
      ghost var v, k := View(), startOff;
      byMsgNo := msgno > 0;
      cnt, minOff := 0, -1;
      var i: nat := IncPos(n, startPos, startOff);
      var endPos := IncPos(n, startPos, endOff);
      OffOfInc(n, startPos, startOff);
      OffOfInc(n, startPos, endOff);
      MarkNothing(v.slots, startOff, keep);
      while i != endPos
        invariant Wf() && Counters() && i < n && startOff <= k == OffPos(n, startPos, i) <= endOff
        invariant View() == v.(slots := MarkDrop(v.slots, startOff, k, keep), ooo := OooOff())
        invariant OooAfter(v, Slots(), OooOff()) && LeastChange(v.slots, Slots(), minOff) && minOff < k
        invariant cnt + DropCount(v.slots, k, endOff, keep) == DropCount(v.slots, startOff, endOff, keep)
        invariant byMsgNo <==> msgno > 0 && NoFirstIn(v.slots, startOff, k, keep)
        decreases endOff - k
      {
        cnt, minOff, byMsgNo := DropOne(i, keep, cnt, minOff, byMsgNo, v, startOff, k);
        OffNext(n, startPos, i);
        i := IncPos(n, i, 1);
        k := k + 1;
      }
    }

    /** One stored packet of the message, on the way back. */
    method DropLeftOne(i: nat, minOff0: int, ghost v: State, ghost k: nat) returns (minOff: int)
      requires Wf() && Counters() && -1 <= v.ooo < |v.slots| == entries.Length
      requires i < entries.Length && k == OffPos(entries.Length, startPos, i) && v.slots[k].status != Drop
      requires View() == v.(slots := Slots(), ooo := OooOff())
      requires OooAfter(v, Slots(), OooOff()) && LeastChange(v.slots, Slots(), minOff0)
      requires forall j :: 0 <= j <= k ==> Slots()[j] == v.slots[j]
      modifies this`unitsTaken, this`numOutOfOrder, this`firstReadableOoo, entries
      ensures Wf() && Counters() && Slots() == old(Slots())[k := Entry(None, Drop)]
      ensures View() == v.(slots := Slots(), ooo := OooOff())
      ensures OooAfter(v, Slots(), OooOff()) && LeastChange(v.slots, Slots(), minOff)
    {
      hide Count, Rot, Wrap, IncPos, LeastChange;
      SlotAt(k);
      PosOfOff(entries.Length, startPos, i);
      LeastLower(v.slots, Slots(), minOff0, k);
      DropAt(i, k);
      minOff := OffPos(entries.Length, startPos, i);
    }

    /** Drops the packets of the message stored before the range, down to its first one. */
    method DropBackward(startOff: nat, msgno: int, keep: bool, cnt0: nat, minOff0: int, ghost v: State)
      returns (cnt: nat, minOff: int)
      requires Wf() && Counters() && -1 <= v.ooo < |v.slots| == entries.Length
      requires startOff < entries.Length - 1 || (startOff == 0 && entries.Length == 1)
      requires View() == v.(slots := Slots(), ooo := OooOff())
      requires OooAfter(v, Slots(), OooOff()) && LeastChange(v.slots, Slots(), minOff0)
      requires forall k :: 0 <= k < startOff ==> Slots()[k] == v.slots[k]
      requires Slots()[startOff].unit.None?
      requires forall k :: 0 <= k < entries.Length && Slots()[k].unit.Some? ==> Slots()[k].status != Drop
      modifies this`unitsTaken, this`numOutOfOrder, this`firstReadableOoo, entries
      ensures Wf() && Counters()
      ensures var r := DropLeft(old(Slots()), startOff, msgno, keep);
        && View() == v.(slots := r.0, ooo := OooOff())
        && OooAfter(v, r.0, OooOff()) && LeastChange(v.slots, r.0, minOff)
        && cnt == cnt0 + r.1
    {
      hide Count, Rot, Wrap, IncPos, DecPos, OffPos, LeastChange, OooAfter, DropLeft, Kept;
      var n := entries.Length;
      ghost var s0, k := Slots(), startOff as int;
      cnt, minOff := cnt0, minOff0;
      var i: nat := IncPos(n, startPos, startOff);
      var stopPos := DecPos(n, startPos);
      OffOfInc(n, startPos, startOff);
      OffLast(n, startPos, i);
      while i != stopPos
        invariant Wf() && Counters() && i < n && -1 <= k <= startOff
        invariant i == stopPos <==> OffPos(n, startPos, i) == n - 1
        invariant OffPos(n, startPos, i) == if k >= 0 then k else n - 1
        invariant View() == v.(slots := Slots(), ooo := OooOff())
        invariant OooAfter(v, Slots(), OooOff()) && LeastChange(v.slots, Slots(), minOff)
        invariant forall j :: 0 <= j <= k && j < startOff ==> Slots()[j] == v.slots[j]
        invariant k == startOff ==> Slots()[k].unit.None?
        invariant forall j :: 0 <= j < n && Slots()[j].unit.Some? ==> Slots()[j].status != Drop
        invariant DropLeft(s0, startOff, msgno, keep).0 == DropLeft(Slots(), k, msgno, keep).0
        invariant cnt0 + DropLeft(s0, startOff, msgno, keep).1 == cnt + DropLeft(Slots(), k, msgno, keep).1
        decreases k
      {
        SlotAt(k);
        PosOfOff(n, startPos, i);
        DropLeftStep(Slots(), k, msgno, keep);
        var e := entries[i];
        if e.unit.Some? {
          if e.unit.value.msgno != msgno {
            return;
          }
          if keep && e.unit.value.first && e.unit.value.last {
            return;
          }
          cnt := cnt + 1;
          minOff := DropLeftOne(i, minOff, v, k);
          if e.unit.value.first && !e.unit.value.last {
            return;
          }
        }
        OffPrev(n, startPos, i);
        i := DecPos(n, i);
        OffLast(n, startPos, i);
        k := k - 1;
      }
      DropLeftStep(Slots(), k, msgno, keep);
      DropLeftStep(Slots(), -1, msgno, keep);
    }

    /** After drops: passes over fillers, recomputes the cursor if needed, and rechecks the out-of-order message. */
    method FinishDrop(needUpdate: bool, ghost v: State, ghost slots: seq<Entry>)
      requires Wf() && Counters() && Inv(v) && v.messageApi == messageApi
      requires |slots| == |v.slots| && SlotsOk(v.base, slots, v.maxOff)
      requires View() == v.(slots := slots, ooo := OooOff()) && OooAfter(v, slots, OooOff())
      requires needUpdate <==> Touched(v.slots, slots, v.cursor)
      modifies this, entries
      ensures Wf() && Counters() && View() == Dropped(v, slots)
    {
      hide Rot, Wrap, IncPos, Count, ScanEnd, Shift, Back, ScanOoo, SlotsOk, CursorOk, FillerRun, StillReadable, Touched;
      ghost var s1 := v.(slots := slots);
      ghost var f := FillerRun(slots, 0);
      SkipSettles(s1);
      AdvanceKeepsSlots(s1, f);
      FillersHoldNothing(s1);
      CursorInside(v);
      ReleaseNextFillerEntries();
      if needUpdate {
        firstNonreadPos := startPos;
        UpdateNonreadPos();
      }
      ForgottenIsGone(s1, f);
      RecheckOutOfOrder(DroppedCursor(v, slots));
    }

    /** Gives up the out-of-order message if it is no longer all there, and looks for another. */
    method RecheckOutOfOrder(ghost s: State)
      requires Wf() && Counters() && SlotsOk(base, Slots(), maxPosOff) && s.messageApi == messageApi
      requires -1 <= s.ooo < |s.slots| && View() == s.(ooo := OooOff()) && (!messageApi ==> s.ooo < 0)
      requires OooOff() == s.ooo || (OooOff() == -1 && s.ooo >= 0 && !StillReadable(s.slots, s.ooo))
      modifies this`firstReadableOoo
      ensures Wf() && View() == Recheck(s)
    {
      hide Rot, Wrap, Count, ScanOoo, SlotsOk, StillReadable;
      if messageApi {
        var ok := CheckFirstReadableOutOfOrder();
        if !ok {
          firstReadableOoo := -1;
        }
        UpdateFirstReadableOutOfOrder();
      }
    }

    /** Both drop loops: over the range, then over the rest of the message before it. */
    method DropPackets(offsetA: int, offsetB: int, msgno: int, keep: bool) returns (cnt: nat, minOff: int)
      requires Valid() && 0 <= offsetB && offsetA <= offsetB && offsetA < entries.Length - 1
      modifies this`unitsTaken, this`numOutOfOrder, this`firstReadableOoo, entries
      ensures Wf() && Counters()
      ensures var v := old(View()); var r := DropSlots(v, v.base + offsetA, v.base + offsetB, msgno, keep);
        && View() == v.(slots := r.0, ooo := OooOff()) && cnt == r.1
        && OooAfter(v, r.0, OooOff()) && LeastChange(v.slots, r.0, minOff)
    {
      hide Rot, Wrap, IncPos, Count, DropLeft, MarkDrop, OffPos, LeastChange, OooAfter, NoFirstIn;
      ghost var v := View();
      var startOff, endOff := Max(0, offsetA), Min(entries.Length - 1, offsetB + 1);
      var byMsgNo;
      cnt, minOff, byMsgNo := DropRange(startOff, endOff, msgno, keep);
      MarkedRange(v, startOff, endOff, keep);
      if byMsgNo {
        cnt, minOff := DropBackward(startOff, msgno, keep, cnt, minOff, v);
      }
    }

    /** What a message drop does to any buffer; the invariant survives it exactly if the cursor does. */
    method DropMessage(seqnolo: Seq31, seqnohi: Seq31, msgno: int, keepExisting: bool) returns (dropCnt: nat)
      requires Valid()
      requires Locate(base, seqnolo) <= Locate(base, seqnohi) && Locate(base, seqnolo) - base < entries.Length - 1
      modifies this, entries
      ensures Wf() && Counters()
      ensures Valid() <==> CursorSurvives(old(View()), Locate(old(base), seqnolo), Locate(old(base), seqnohi))
      ensures Locate(old(base), seqnohi) >= old(base) || old(Settled(View())) ==> Settled(View())
      ensures (View(), dropCnt) == ReceiverSpec.DropMessage(old(View()),
        Locate(old(base), seqnolo), Locate(old(base), seqnohi), msgno, keepExisting)
    {
      hide Rot, Wrap, IncPos, Count, DropSlots, SeqOff, Dropped, SlotsOk, CursorOk, LeastChange, OooAfter;
      ghost var v := View();
      ghost var lo, hi := Locate(base, seqnolo), Locate(base, seqnohi);
      DropMessageKeepsIff(v, lo, hi, msgno, keepExisting);
      var offsetA, offsetB := SeqOff(startSeqNo, seqnolo), SeqOff(startSeqNo, seqnohi);
      if offsetB < 0 {
        return 0;
      }
      var minOff;
      dropCnt, minOff := DropPackets(offsetA, offsetB, msgno, keepExisting);
      ghost var slots := DropSlots(v, lo, hi, msgno, keepExisting).0;
      DropSlotsKeeps(v, lo, hi, msgno, keepExisting);
      CursorInside(v);
      LeastIsTouched(v, slots, minOff);
      FinishDrop(minOff != -1 && minOff <= OffPos(entries.Length, startPos, firstNonreadPos), v, slots);
    }

    /** Copies one packet, or the part of it that is wanted; `rest` is what remains to be copied. */
    method ReadSome(rs: int) returns (chunk: Bytes, rest: int)
      requires Valid() && !messageApi && NotchFits(View()) && startPos != firstNonreadPos && rs > 0
      modifies this, entries
      ensures Valid() && NotchFits(View()) && (old(NotchOk(View())) ==> NotchOk(View()))
      ensures NonreadOff() < old(NonreadOff()) || (NonreadOff() == old(NonreadOff()) && rest < rs)
      ensures StreamReady(old(View())) && StreamReady(View())
      ensures ReadStream(old(View()), rs).0 == ReadStream(View(), rest).0
      ensures ReadStream(old(View()), rs).1 == chunk + ReadStream(View(), rest).1
    {
      hide Rot, Wrap, IncPos, Count, Shift, Back, SlotsOk, ReadStream;
      ghost var s := View();
      StreamHead(s);
      StreamCallable(s);
      SlotAt(0);
      HeadPos(entries.Length, startPos);
      var pkt := entries[startPos].unit.value;
      var remainPktlen := |pkt.payload| - notch;
      var unitsize := Min(remainPktlen, rs);
      chunk := pkt.payload[notch..notch + unitsize];
      StreamStep(s, rs);
      if rs >= remainPktlen {
        TakeHead();
        notch := 0;
      } else {
        notch := notch + rs;
      }
      rest := rs - unitsize;
    }

    /** Stream mode: copies bytes out until `len` of them are copied or the cursor is reached. */
    method ReadBufferTo(len: int) returns (data: Bytes)
      requires Valid() && !messageApi && NotchFits(View())
      modifies this, entries
      ensures Valid() && NotchFits(View()) && (old(NotchOk(View())) ==> NotchOk(View()))
      ensures (View(), data) == ReadStream(old(View()), len)
    {
      hide Rot, Wrap, IncPos, Count, SlotsOk, CursorOk, NotchFits, NotchOk, ReadStream, StreamReady;
      ghost var v := View();
      data := [];
      var rs := len;
      StreamCallable(v);
      NothingBefore(ReadStream(v, len).1);
      while startPos != firstNonreadPos && rs > 0
        invariant Valid() && !messageApi && NotchFits(View()) && (NotchOk(v) ==> NotchOk(View()))
        invariant StreamReady(v) && StreamReady(View())
        invariant ReadStream(v, len).0 == ReadStream(View(), rs).0
        invariant ReadStream(v, len).1 == data + ReadStream(View(), rs).1
        decreases NonreadOff(), rs
      {
        var chunk;
        ghost var d := data;
        chunk, rs := ReadSome(rs);
        data := data + chunk;
        assert d + (chunk + ReadStream(View(), rs).1) == data + ReadStream(View(), rs).1;
      }
      ReadStreamStops(View(), rs);
      assert data + [] == data;
      // the code would reset the cursor here if it were out of the window: it never is
      CursorInside(View());
      assert IsInRange(startPos, maxPosOff, entries.Length, firstNonreadPos);
    }

    /** Whether a read would return something. */
    method IsRcvDataReady() returns (ready: bool)
      requires Valid()
      ensures ready <==> View().cursor > 0 || (View().ooo >= 0 && Count(Slots(), true) > 0 && messageApi)
    {
      RotCount(entries[..], startPos, true);
      if firstNonreadPos != startPos {
        return true;
      }
      return numOutOfOrder > 0 && firstReadableOoo != -1;
    }

    method CountReadable() returns (r: int)
      requires Valid()
      ensures r == View().cursor
    {
      if firstNonreadPos >= startPos {
        return firstNonreadPos - startPos;
      }
      return entries.Length + firstNonreadPos - startPos;
    }
  }
}

/** The sender buffer: a circular linked list of blocks over byte buffers, growing in place. */
module SenderBuffer {
  import opened Arith
  import opened Packets
  import opened SeqNo
  import opened SenderSpec

  /** One link of the ring; its payload lives in `buf` from `ofs` on. */
  class Block {
    const buf: array<Byte>
    const ofs: nat
    var length: nat
    var head: Head
    var next: Block?

    constructor (buf: array<Byte>, ofs: nat)
      ensures this.buf == buf && this.ofs == ofs && next == null && length == 0
    {
      this.buf, this.ofs, length, next := buf, ofs, 0, null;
      head := Head(0, 0, false, false, false, 0, 0, 0, -1);
    }

    ghost predicate Holds(v: Blk)
      reads this`length, this`head, buf
    {
      && length == |v.payload| && head == v.head
      && ofs + length <= buf.Length && buf[ofs..ofs + length] == v.payload
    }

    method Fill(v: Blk)
      requires ofs + |v.payload| <= buf.Length
      modifies this`length, this`head, buf
      ensures Holds(v)
      ensures forall k :: 0 <= k < buf.Length && !(ofs <= k < ofs + |v.payload|) ==> buf[k] == old(buf[k])
    {
      forall j | 0 <= j < |v.payload| {
        buf[ofs + j] := v.payload[j];
      }
      length, head := |v.payload|, v.head;
    }
  }

  ghost predicate Apart(a: Block, b: Block, blockLen: nat) {
    a.buf != b.buf || a.ofs + blockLen <= b.ofs || b.ofs + blockLen <= a.ofs
  }

  ghost predicate Distinct(chain: seq<Block>) {
    forall i, j :: 0 <= i < j < |chain| ==> chain[i] != chain[j]
  }

  ghost predicate Linked(chain: seq<Block>)
    reads (set b | b in chain)`next
  {
    forall i :: 0 <= i < |chain| - 1 ==> chain[i].next == chain[i + 1]
  }

  /** The blocks use `blockLen` bytes each of one buffer, one after another. */
  ghost predicate Spread(chain: seq<Block>, buf: array<Byte>, blockLen: nat) {
    && (forall i :: 0 <= i < |chain| ==> chain[i].buf == buf && chain[i].ofs + blockLen <= buf.Length)
    && (forall i, j :: 0 <= i < j < |chain| ==> chain[i].ofs + blockLen <= chain[j].ofs)
  }

  ghost predicate AllHold(blocks: seq<Block>, vs: seq<Blk>)
    reads (set b | b in blocks)`length, (set b | b in blocks)`head, set b | b in blocks :: b.buf
  {
    |blocks| == |vs| && forall i :: 0 <= i < |vs| ==> blocks[i].Holds(vs[i])
  }

  lemma AllHoldMore(bs: seq<Block>, vs: seq<Blk>, b: Block, v: Blk)
    requires AllHold(bs, vs) && b.Holds(v)
    ensures AllHold(bs + [b], vs + [v])
  {
  }

  /** Every block has its own `blockLen` bytes. */
  ghost predicate Regions(blocks: seq<Block>, blockLen: nat) {
    && (forall i :: 0 <= i < |blocks| ==> blocks[i].ofs + blockLen <= blocks[i].buf.Length)
    && (forall i, j :: 0 <= i < j < |blocks| ==> Apart(blocks[i], blocks[j], blockLen))
  }

  /** The ring with `chain` inserted after position `c`. */
  ghost function Splice(ring: seq<Block>, c: nat, chain: seq<Block>): (r: seq<Block>)
    requires c < |ring|
    ensures |r| == |ring| + |chain|
  {
    ring[..c + 1] + chain + ring[c + 1..]
  }

  lemma SpliceDistinct(ring: seq<Block>, c: nat, chain: seq<Block>)
    requires c < |ring| && Distinct(ring) && Distinct(chain)
    requires forall i, j :: 0 <= i < |ring| && 0 <= j < |chain| ==> ring[i] != chain[j]
    ensures Distinct(Splice(ring, c, chain))
  {
  }

  lemma SpliceRegions(ring: seq<Block>, c: nat, chain: seq<Block>, buf: array<Byte>, blockLen: nat)
    requires c < |ring| && Regions(ring, blockLen) && Spread(chain, buf, blockLen)
    requires forall i :: 0 <= i < |ring| ==> ring[i].buf != buf
    ensures Regions(Splice(ring, c, chain), blockLen)
  {
    var r, n := Splice(ring, c, chain), |chain|;
    forall i, j | 0 <= i < j < |r|
      ensures Apart(r[i], r[j], blockLen)
    {
      var i' := if i <= c then i else if i <= c + n then -1 else i - n;
      var j' := if j <= c then j else if j <= c + n then -1 else j - n;
      if i' >= 0 && j' >= 0 {
        assert Apart(ring[i'], ring[j'], blockLen);
      }
    }
  }

  lemma SpliceAt(ring: seq<Block>, c: nat, chain: seq<Block>)
    requires c < |ring|
    ensures var r, n := Splice(ring, c, chain), |chain|;
      && (forall i :: 0 <= i <= c ==> r[i] == ring[i])
      && (forall i :: c < i <= c + n ==> r[i] == chain[i - c - 1])
      && (forall i :: c + n < i < |r| ==> r[i] == ring[i - n])
  {
  }

  lemma SpliceBlocks(ring: seq<Block>, c: nat, chain: seq<Block>)
    requires c < |ring|
    ensures Splice(ring, c, chain)[..c + 1] == ring[..c + 1]
    ensures forall b :: b in Splice(ring, c, chain) ==> b in ring || b in chain
  {
  }

  lemma DistinctAt(r: seq<Block>, i: nat, j: nat)
    requires Distinct(r) && i < |r| && j < |r|
    ensures r[i] == r[j] <==> i == j
  {
  }

  /** The links of a ring about to be spliced, read through the positions of the result. */
  lemma LinksBefore(ring: seq<Block>, c: nat, chain: seq<Block>)
    requires c < |ring| && chain != [] && Linked(ring) && ring[|ring| - 1].next == ring[0] && Linked(chain)
    ensures var r, n := Splice(ring, c, chain), |chain|;
      && (forall i :: 0 <= i < |r| - 1 && i != c && i != c + n ==> r[i].next == r[i + 1])
      && (c + n + 1 < |r| ==> r[c].next == r[c + n + 1] && r[|r| - 1].next == r[0])
      && (c + n + 1 == |r| ==> r[c].next == r[0])
  {
    SpliceAt(ring, c, chain);
    var r, n := Splice(ring, c, chain), |chain|;
    forall i | 0 <= i < |r| - 1 && i != c && i != c + n
      ensures r[i].next == r[i + 1]
    {
      if i < c {
        LinkedAt(ring, i);
      } else if i < c + n {
        LinkedAt(chain, i - c - 1);
      } else {
        LinkedAt(ring, i - n);
      }
    }
  }

  lemma LinkedAll(chain: seq<Block>)
    requires forall i :: 0 <= i < |chain| - 1 ==> chain[i].next == chain[i + 1]
    ensures Linked(chain)
  {
  }

  lemma LinkedAt(chain: seq<Block>, i: nat)
    requires Linked(chain) && i + 1 < |chain|
    ensures chain[i].next == chain[i + 1]
  {
  }

  lemma FitMore(vs: seq<Blk>, v: Blk, blockLen: nat)
    requires Fit(vs, blockLen) && |v.payload| <= blockLen
    ensures Fit(vs + [v], blockLen)
  {
  }

  ghost predicate Fit(vs: seq<Blk>, blockLen: nat) {
    forall i :: 0 <= i < |vs| ==> |vs[i].payload| <= blockLen
  }

  /** A chain of `n` new blocks over one new buffer. */
  method MakeChain(n: nat, blockLen: nat) returns (head: Block, tail: Block, ghost chain: seq<Block>, ghost buf: array<Byte>)
    requires n > 0
    ensures |chain| == n && head == chain[0] && tail == chain[n - 1] && tail.next == null
    ensures fresh(buf) && forall b :: b in chain ==> fresh(b) && b.buf == buf
    ensures Distinct(chain) && Linked(chain) && Spread(chain, buf, blockLen)
  {
    hide Distinct, Linked, Spread;
    var mem := new Byte[n * blockLen](_ => 0);
    buf := mem;
    MulStep(0, n, blockLen);
    head := new Block(mem, 0);
    tail := head;
    chain := [head];
    ChainOne(head, blockLen);
    var pc := blockLen;
    for i := 1 to n
      invariant |chain| == i && head == chain[0] && tail == chain[i - 1] && tail.next == null
      invariant forall b :: b in chain ==> fresh(b) && b.buf == mem
      invariant Distinct(chain) && Linked(chain) && Spread(chain, mem, blockLen)
      invariant tail.ofs + blockLen == pc == i * blockLen
    {
      MulStep(i, n, blockLen);
      var pb := new Block(mem, pc);
      ghost var chain0 := chain;
      ChainSpread(chain0, pb, blockLen);
      DistinctEnd(chain0);
      LinkSplit(chain0);
      assert tail in chain;
      tail.next := pb;
      LinkJoin(chain0, pb);
      tail := pb;
      chain := chain + [pb];
      pc := pc + blockLen;
    }
  }

  lemma ChainOne(b: Block, blockLen: nat)
    requires b.ofs + blockLen <= b.buf.Length
    ensures Distinct([b]) && Linked([b]) && Spread([b], b.buf, blockLen)
  {
  }

  lemma ChainSpread(chain: seq<Block>, b: Block, blockLen: nat)
    requires chain != [] && Spread(chain, b.buf, blockLen) && b.ofs + blockLen <= b.buf.Length && b !in chain
    requires chain[|chain| - 1].ofs + blockLen == b.ofs && Distinct(chain)
    ensures Spread(chain + [b], b.buf, blockLen) && Distinct(chain + [b])
  {
  }

  lemma DistinctEnd(chain: seq<Block>)
    requires Distinct(chain) && chain != []
    ensures forall i :: 0 <= i < |chain| - 1 ==> chain[i] != chain[|chain| - 1]
  {
  }

  lemma LinkSplit(chain: seq<Block>)
    requires Linked(chain)
    ensures forall i :: 0 <= i < |chain| - 1 ==> chain[i].next == chain[i + 1]
  {
  }

  lemma LinkJoin(chain: seq<Block>, b: Block)
    requires chain != [] && chain[|chain| - 1].next == b
    requires forall i :: 0 <= i < |chain| - 1 ==> chain[i].next == chain[i + 1]
    ensures Linked(chain + [b])
  {
  }

  lemma MulStep(i: nat, n: nat, k: nat)
    requires i < n
    ensures (i + 1) * k == i * k + k <= n * k
  {
    MulMono(i + 1, n, k);
  }

  lemma SeqStart(n: Seq31)
    ensures Wrap(n + 0) == n
  {
  }

  lemma TotalStep(bs: seq<Blk>)
    requires bs != []
    ensures TotalBytes(bs) == |bs[0].payload| + TotalBytes(bs[1..])
  {
  }

  lemma NoBytes(bs: seq<Blk>)
    ensures bs[0..] == bs && TotalBytes(bs[..0]) == 0
  {
  }

  lemma {:induction false} TotalSame(bs: seq<Blk>, i: nat, h: Head)
    requires i < |bs|
    ensures TotalBytes(bs[i := bs[i].(head := h)]) == TotalBytes(bs)
  {
    var bs' := bs[i := bs[i].(head := h)];
    if i == 0 {
      assert bs'[1..] == bs[1..];
    } else {
      assert bs'[1..] == bs[1..][i - 1 := bs[1..][i - 1].(head := h)];
      TotalSame(bs[1..], i - 1, h);
    }
  }

  lemma LateStep(bs: seq<Blk>, d: nat, time: int)
    requires d < |bs|
    ensures LateRun(bs, d, time) == if bs[d].head.origin < time then LateRun(bs, d + 1, time) else d
    ensures TotalBytes(bs[..d + 1]) == TotalBytes(bs[..d]) + |bs[d].payload|
    ensures bs[d..][1..] == bs[d + 1..]
  {
    assert bs[..d + 1] == bs[..d] + [bs[d]];
    TotalAppend(bs[..d], bs[d]);
  }

  lemma LateStop(bs: seq<Blk>, d: nat, time: int)
    requires d <= |bs| && (d < |bs| ==> bs[d].head.origin >= time)
    ensures LateRun(bs, d, time) == d
  {
  }

  lemma FitRest(vs: seq<Blk>, blockLen: nat)
    requires Fit(vs, blockLen) && vs != []
    ensures Fit(vs[1..], blockLen)
  {
  }

  /** What the first block holds, and that the others hold the rest. */
  lemma FirstHolds(bs: seq<Block>, vs: seq<Blk>)
    requires AllHold(bs, vs) && bs != []
    ensures bs[0].length == |vs[0].payload| && bs[0].head == vs[0].head
    ensures AllHold(bs[1..], vs[1..])
  {
  }

  ghost function Rotate(ring: seq<Block>): (r: seq<Block>)
    requires ring != []
    ensures |r| == |ring|
  {
    ring[1..] + [ring[0]]
  }

  /** A ring seen from its second block is the same ring. */
  lemma RotateRing(ring: seq<Block>, blockLen: nat)
    requires |ring| > 1 && Distinct(ring) && Linked(ring) && ring[|ring| - 1].next == ring[0] && Regions(ring, blockLen)
    ensures var r := Rotate(ring);
      Distinct(r) && Linked(r) && r[|r| - 1].next == r[0] && Regions(r, blockLen)
  {
    var r := Rotate(ring);
    forall i, j | 0 <= i < j < |r|
      ensures Apart(r[i], r[j], blockLen) && r[i] != r[j]
    {
      if j < |r| - 1 {
        assert Apart(ring[i + 1], ring[j + 1], blockLen);
      } else {
        assert Apart(ring[0], ring[i + 1], blockLen);
      }
    }
  }

  lemma RotatePrefix(ring: seq<Block>, c: nat)
    requires 0 < c < |ring|
    ensures Rotate(ring)[..c - 1] == ring[..c][1..]
  {
  }

  lemma RotateAt(ring: seq<Block>, i: nat)
    requires 0 < i < |ring|
    ensures Rotate(ring)[i - 1] == ring[i]
  {
  }

  lemma RotateBlocks(ring: seq<Block>)
    requires ring != []
    ensures forall b :: b in Rotate(ring) <==> b in ring
  {
  }

  lemma HeadOnly(ring: seq<Block>, i: nat)
    requires Distinct(ring) && i < |ring| && ring[i] == ring[0]
    ensures i == 0
  {
  }

  class SndBuffer {
    var pFirst: Block
    var pCurr: Block
    var pLast: Block
    var nextMsgNo: nat
    var size: nat
    const unitSize: nat
    const blockLen: nat
    const authTagSize: nat
    var count: nat
    var bytesCount: int

    ghost var ring: seq<Block>
    ghost var contents: seq<Blk>
    ghost var cur: nat

    /** One cycle of `size` blocks starting at the first; the cursors stand at 0, `cur` and `count`. */
    ghost predicate RingOk()
      reads this`ring, this`size, this`cur, this`count, this`pFirst, this`pCurr, this`pLast, (set b | b in ring)`next
    {
      && |ring| == size && cur <= count < size
      && Distinct(ring) && Linked(ring) && ring[size - 1].next == ring[0]
      && pFirst == ring[0] && pCurr == ring[cur] && pLast == ring[count]
    }

    ghost predicate DataOk()
      reads this`ring, this`contents, this`count, this`bytesCount, ring, set b | b in ring :: b.buf
    {
      && |contents| == count <= |ring| && Fit(contents, blockLen)
      && AllHold(ring[..count], contents)
      && bytesCount == TotalBytes(contents)
    }

    ghost predicate Valid()
      reads this, ring, set b | b in ring :: b.buf
    {
      RingOk() && Regions(ring, blockLen) && DataOk() && 0 < unitSize && authTagSize < blockLen && 1 <= nextMsgNo <= MSGNO_MAX
    }

    constructor (size: nat, maxpld: nat, authtag: nat)
      requires size > 0 && authtag < maxpld
      ensures Valid() && contents == [] && cur == 0 && nextMsgNo == 1
      ensures this.size == size && blockLen == maxpld && authTagSize == authtag
      ensures fresh(ring) && forall b :: b in ring ==> fresh(b.buf)
    {
      var head, tail, chain, buf := MakeChain(size, maxpld);
      tail.next := head;
      pFirst, pCurr, pLast := head, head, head;
      nextMsgNo, this.size, unitSize, blockLen, authTagSize := 1, size, size, maxpld, authtag;
      count, bytesCount := 0, 0;
      ring, contents, cur := chain, [], 0;
    }

    /** Writes into the free block after the stored ones; these keep their contents. */
    method FillLast(v: Blk)
      requires Valid() && |v.payload| <= blockLen
      modifies pLast`length, pLast`head, pLast.buf
      ensures Valid() && ring[count].Holds(v)
    {
      hide TotalBytes, Linked;
      pLast.Fill(v);
      forall i | 0 <= i < count
        ensures ring[..count][i].Holds(contents[i])
      {
        assert Apart(ring[i], ring[count], blockLen);
      }
    }

    method Append(v: Blk)
      requires Valid() && count + 1 < size && |v.payload| <= blockLen
      modifies this`count, this`pLast, this`bytesCount, this`contents, pLast`length, pLast`head, pLast.buf
      ensures Valid() && contents == old(contents) + [v] && count == old(count) + 1
    {
      hide TotalBytes, Regions, Distinct, Linked, Fit, AllHold, Block.Holds;
      FillLast(v);
      LinkedAt(ring, count);
      FitMore(contents, v, blockLen);
      TotalAppend(contents, v);
      AllHoldMore(ring[..count], contents, ring[count], v);
      assert ring[..count] + [ring[count]] == ring[..count + 1];
      pLast := pLast.next;
      contents := contents + [v];
      count := count + 1;
      bytesCount := bytesCount + |v.payload|;
    }

    /** Splices `unitSize` new blocks in after the last one; what is stored stays as it is. */
    method Increase()
      requires Valid()
      modifies this`size, this`ring, pLast`next
      ensures Valid() && size == old(size) + unitSize
      ensures forall b :: b in ring ==> b in old(ring) || (fresh(b) && fresh(b.buf))
    {
      hide TotalBytes, Fit, AllHold, Block.Holds, Distinct, Linked, Regions, Spread, Splice;
      var head, tail, chain, buf := MakeChain(unitSize, blockLen);
      SpliceRegions(ring, count, chain, buf, blockLen);
      SpliceDistinct(ring, count, chain);
      SpliceBlocks(ring, count, chain);
      assert tail in chain;
      Relink(tail, head, chain);
      Grow(Splice(ring, count, chain));
    }

    method Grow(ghost r: seq<Block>)
      requires DataOk() && count < |ring| == size
      requires |r| == size + unitSize && Distinct(r) && Linked(r) && r[|r| - 1].next == r[0] && Regions(r, blockLen)
      requires r[..count + 1] == ring[..count + 1] && cur <= count
      requires pFirst == ring[0] && pCurr == ring[cur] && pLast == ring[count]
      requires 0 < unitSize && authTagSize < blockLen && 1 <= nextMsgNo <= MSGNO_MAX
      modifies this`size, this`ring
      ensures Valid() && size == old(size) + unitSize && ring == r
    {
      hide TotalBytes, Fit, AllHold, Block.Holds, Distinct, Linked, Regions;
      assert r[..count] == r[..count + 1][..count] == ring[..count];
      assert forall i :: 0 <= i <= count ==> r[i] == r[..count + 1][i];
      ring := r;
      size := size + unitSize;
    }

    /** The two pointer writes of the splice. */
    method Relink(tail: Block, head: Block, ghost chain: seq<Block>)
      requires RingOk() && chain != [] && head == chain[0] && tail == chain[|chain| - 1]
      requires Linked(chain) && Distinct(Splice(ring, count, chain))
      modifies tail`next, pLast`next
      ensures Linked(Splice(ring, count, chain))
      ensures var r := Splice(ring, count, chain); r[|r| - 1].next == r[0]
    {
      hide Distinct, Linked, Splice;
      ghost var r, n := Splice(ring, count, chain), |chain|;
      ghost var c := count;
      SpliceAt(ring, c, chain);
      LinksBefore(ring, c, chain);
      tail.next := pLast.next;
      pLast.next := head;
      forall i | 0 <= i < |r|
        ensures r[i] == r[c] <==> i == c
        ensures r[i] == r[c + n] <==> i == c + n
      {
        DistinctAt(r, i, c);
        DistinctAt(r, i, c + n);
      }
      LinkedAll(r);
    }

    function MaxPacketLen(): nat
      requires authTagSize < blockLen
    {
      blockLen - authTagSize
    }

    /**
      Cuts `data` into blocks and stores them behind the others. A message number of -1 asks for
      the next internal one; a source time of 0 asks for the current time.
     */
    method AddBuffer(data: Bytes, seqno: Seq31, msgno: int, inOrder: bool, ttl: int, srctime: int, now: int)
      returns (usedMsgNo: nat, nextSeqNo: Seq31)
      requires Valid() && (msgno == -1 || 1 <= msgno <= MSGNO_MAX)
      modifies this, ring, set b | b in ring :: b.buf
      ensures Valid()
      ensures usedMsgNo == (if msgno == -1 then old(nextMsgNo) else msgno) && nextMsgNo == NextMsgNo(usedMsgNo)
      ensures var origin := if srctime != 0 then srctime else now;
        contents == old(contents) + Message(data, MaxPacketLen(), MsgCtl(seqno, usedMsgNo, inOrder, ttl, origin))
      ensures nextSeqNo == Wrap(seqno + NumPackets(|data|, MaxPacketLen())) && cur == old(cur)
      ensures forall b :: b in ring ==> b in old(ring) || (fresh(b) && fresh(b.buf))
    {
      hide RingOk, Regions, DataOk, NumPackets, Wrap;
      var pktLen := MaxPacketLen();
      var numBlocks := NumPackets(|data|, pktLen);
      LastInRing();
      MakeRoom(numBlocks);
      var origin := if srctime != 0 then srctime else now;
      usedMsgNo := if msgno == -1 then nextMsgNo else msgno;
      nextMsgNo := usedMsgNo;
      nextSeqNo := seqno;
      var ctl := MsgCtl(seqno, usedMsgNo, inOrder, ttl, origin);
      ghost var c0 := count;
      SeqStart(seqno);
      for i := 0 to numBlocks
        invariant Valid() && count == c0 + i && numBlocks + c0 < size && nextMsgNo == usedMsgNo && cur == old(cur)
        invariant contents == old(contents) + Segments(data, pktLen, i, ctl)
        invariant nextSeqNo == Wrap(seqno + i)
        invariant forall b :: b in ring ==> b in old(ring) || (fresh(b) && fresh(b.buf))
      {
        LastInRing();
        nextSeqNo := AppendPiece(data, numBlocks, i, nextSeqNo, ctl, old(contents));
      }
      nextMsgNo := NextMsgNo(usedMsgNo);
    }

    /** Stores piece `i` of a message. */
    method AppendPiece(data: Bytes, numBlocks: nat, i: nat, seqno: Seq31, ctl: MsgCtl, ghost before: seq<Blk>)
      returns (nextSeqNo: Seq31)
      requires Valid() && i < numBlocks == NumPackets(|data|, MaxPacketLen()) && count + 1 < size
      requires seqno == Wrap(ctl.seqno + i) && contents == before + Segments(data, MaxPacketLen(), i, ctl)
      modifies this`count, this`pLast, this`bytesCount, this`contents, pLast`length, pLast`head, pLast.buf
      ensures Valid() && count == old(count) + 1 && nextSeqNo == Wrap(ctl.seqno + i + 1)
      ensures contents == before + Segments(data, MaxPacketLen(), i + 1, ctl)
    {
      hide RingOk, Regions, DataOk, NumPackets, Wrap;
      var pktLen := MaxPacketLen();
      PieceFits(|data|, pktLen, i);
      SegmentAt(data, pktLen, i + 1, ctl, i);
      var v := Blk(Piece(data, pktLen, i),
                   Head(seqno, ctl.msgno, i == 0, i == numBlocks - 1, ctl.inOrder, 0, ctl.origin, 0, ctl.ttl));
      Append(v);
      IncSeqWraps(ctl.seqno + i, 1);
      nextSeqNo := IncSeq(seqno);
      assert before + Segments(data, pktLen, i, ctl) + [v] == before + (Segments(data, pktLen, i, ctl) + [v]);
    }

    /** Grows the ring until `numBlocks` more blocks fit with one to spare. */
    method MakeRoom(numBlocks: nat)
      requires Valid()
      modifies this`size, this`ring, pLast`next
      ensures Valid() && numBlocks + count < size
      ensures forall b :: b in ring ==> b in old(ring) || (fresh(b) && fresh(b.buf))
    {
      hide RingOk, Regions, DataOk;
      while numBlocks + count >= size
        invariant Valid()
        invariant forall b :: b in ring ==> b in old(ring) || (fresh(b) && fresh(b.buf))
        decreases numBlocks + count - size
      {
        Increase();
      }
    }

    lemma FirstBlock()
      requires Valid()
      ensures count == |contents| && ring != []
      ensures count > 0 ==> pFirst.length == |contents[0].payload| && pFirst.head == contents[0].head
    {
      if count > 0 {
        FirstHolds(ring[..count], contents);
      }
    }

    lemma LastInRing()
      requires Valid()
      ensures pLast in ring && pCurr in ring && count < size
    {
    }

    /** A send cursor that stands on the first block moves to the next one. */
    method LeaveFirst()
      requires Valid() && count > 0
      modifies this`pCurr, this`cur
      ensures Valid() && cur == (if old(cur) == 0 then 1 else old(cur))
    {
      hide Distinct, Linked, Regions, DataOk;
      LinkedAt(ring, 0);
      if pFirst == pCurr {
        HeadOnly(ring, cur);
        pCurr := pFirst.next;
        cur := 1;
      }
    }

    /** Takes the first block out; a send cursor that stood on it moves along. */
    method DropFirst()
      requires Valid() && count > 0
      modifies this`pFirst, this`pCurr, this`count, this`bytesCount, this`ring, this`contents, this`cur
      ensures Valid() && contents == old(contents)[1..] && cur == (if old(cur) == 0 then 0 else old(cur) - 1)
      ensures old(ring) != [] && ring == Rotate(old(ring))
    {
      hide TotalBytes, Distinct, Linked, Regions, AllHold, Block.Holds, Fit, Rotate;
      LeaveFirst();
      RotatePrefix(ring, count);
      RotateAt(ring, 1);
      RotateAt(ring, cur);
      RotateAt(ring, count);
      FirstHolds(ring[..count], contents);
      TotalStep(contents);
      RotateRing(ring, blockLen);
      FitRest(contents, blockLen);
      LinkedAt(ring, 0);
      Shrink(pFirst.next, pFirst.length, Rotate(ring));
    }

    method Shrink(next: Block, len: nat, ghost r: seq<Block>)
      requires |r| == size && 0 < cur <= count < size && |contents| == count
      requires Distinct(r) && Linked(r) && r[size - 1].next == r[0] && Regions(r, blockLen)
      requires next == r[0] && pCurr == r[cur - 1] && pLast == r[count - 1]
      requires AllHold(r[..count - 1], contents[1..]) && Fit(contents[1..], blockLen)
      requires bytesCount - len == TotalBytes(contents[1..])
      requires 0 < unitSize && authTagSize < blockLen && 1 <= nextMsgNo <= MSGNO_MAX
      modifies this`pFirst, this`count, this`bytesCount, this`ring, this`contents, this`cur
      ensures Valid() && contents == old(contents)[1..] && cur == old(cur) - 1 && ring == r
    {
      hide TotalBytes, Distinct, Linked, Regions, AllHold, Block.Holds, Fit;
      bytesCount := bytesCount - len;
      pFirst := next;
      count := count - 1;
      ring, cur, contents := r, cur - 1, contents[1..];
    }

    method AckData(offset: nat)
      requires Valid() && offset <= count
      modifies this`pFirst, this`pCurr, this`count, this`bytesCount, this`ring, this`contents, this`cur
      ensures Valid() && contents == old(contents)[offset..] && cur == Max(0, old(cur) - offset)
      ensures forall b :: b in ring <==> b in old(ring)
    {
      hide Regions, AllHold, TotalBytes, Fit, Rotate, Distinct, Linked;
      for i := 0 to offset
        invariant Valid() && contents == old(contents)[i..] && cur == Max(0, old(cur) - i)
        invariant forall b :: b in ring <==> b in old(ring)
      {
        ghost var r := ring;
        DropFirst();
        RotateBlocks(r);
      }
    }

    /** Takes out the blocks older than `tooLate` at the front; reports them and the next message number. */
    method DropLateData(tooLate: int) returns (dpkts: nat, dbytes: nat, firstMsgNo: nat)
      requires Valid()
      modifies this`pFirst, this`pCurr, this`count, this`bytesCount, this`ring, this`contents, this`cur
      ensures Valid()
      ensures dpkts == LateRun(old(contents), 0, tooLate) && contents == old(contents)[dpkts..]
      ensures dbytes == TotalBytes(old(contents)[..dpkts]) && cur == Max(0, old(cur) - dpkts)
      ensures firstMsgNo == NextMsgNo(if dpkts == 0 then 0 else old(contents)[dpkts - 1].head.msgno)
      ensures forall b :: b in ring <==> b in old(ring)
    {
      hide RingOk, DataOk, Regions, TotalBytes, LateRun, Rotate;
      dpkts, dbytes := 0, 0;
      var msgno := 0;
      ghost var bs := contents;
      NoBytes(bs);
      FirstBlock();
      while count > 0 && pFirst.head.origin < tooLate
        invariant Valid() && count == |contents| && ring != [] && dpkts <= |bs| && contents == bs[dpkts..] && cur == Max(0, old(cur) - dpkts)
        invariant forall b :: b in ring <==> b in old(ring)
        invariant LateRun(bs, 0, tooLate) == LateRun(bs, dpkts, tooLate)
        invariant count > 0 ==> pFirst.length == |contents[0].payload| && pFirst.head == contents[0].head
        invariant dbytes == TotalBytes(bs[..dpkts])
        invariant msgno == if dpkts == 0 then 0 else bs[dpkts - 1].head.msgno
        decreases count
      {
        LateStep(bs, dpkts, tooLate);
        dbytes := dbytes + pFirst.length;
        msgno := pFirst.head.msgno;
        ghost var r := ring;
        DropFirst();
        RotateBlocks(r);
        FirstBlock();
        dpkts := dpkts + 1;
      }
      LateStop(bs, dpkts, tooLate);
      firstMsgNo := NextMsgNo(msgno);
    }

    /** Replaces the header of the stored block `i`. */
    method Restamp(b: Block, head: Head, ghost i: nat)
      requires Valid() && i < count && b == ring[i]
      modifies b`head, this`contents
      ensures Valid() && contents == old(contents)[i := old(contents)[i].(head := head)]
    {
      hide Linked, Regions, TotalBytes;
      b.head := head;
      contents := contents[i := contents[i].(head := head)];
      TotalSame(old(contents), i, head);
      assert forall j :: 0 <= j < count && j != i ==> ring[j] != ring[i];
    }

    /** What block `i` holds. */
    lemma BlockAt(i: nat)
      requires Valid() && i < count
      ensures i < |ring| && i < |contents| && ring[i].length == |contents[i].payload| && ring[i].head == contents[i].head
      ensures ring[i].ofs + ring[i].length <= ring[i].buf.Length
      ensures ring[i].buf[ring[i].ofs..ring[i].ofs + ring[i].length] == contents[i].payload
    {
      assert ring[..count][i].Holds(contents[i]);
    }

    /** The block at the send cursor. */
    lemma CurrBlock()
      requires Valid()
      ensures cur <= count == |contents| && (pCurr == pLast <==> cur == count)
      ensures pCurr in ring && |ring| == size && cur < size && pCurr == ring[cur]
      ensures cur < count ==> pCurr.head == contents[cur].head && pCurr.length == |contents[cur].payload|
      ensures cur < count ==> pCurr.ofs + pCurr.length <= pCurr.buf.Length
      ensures cur < count ==> pCurr.buf[pCurr.ofs..pCurr.ofs + pCurr.length] == contents[cur].payload
    {
      if cur < count {
        BlockAt(cur);
      }
      DistinctAt(ring, cur, count);
    }

    method StepCurr()
      requires Valid() && cur < count
      modifies this`pCurr, this`cur
      ensures Valid() && cur == old(cur) + 1
    {
      hide Distinct, Linked, Regions, DataOk;
      LinkedAt(ring, cur);
      pCurr := pCurr.next;
      cur := cur + 1;
    }

    /** Stamps the block at the send cursor, hands out a copy of it and moves on. */
    method SendOne(kflgs: int, key: bv2) returns (v: Blk)
      requires Valid() && cur < count && (kflgs == -1 ==> key == 0)
      modifies this`pCurr, this`cur, this`contents, ring
      ensures Valid() && ring == old(ring) && count == old(count) && cur == old(cur) + 1 && (pCurr == pLast <==> cur == count)
      ensures old(cur) < |old(contents)| && |contents| == |old(contents)|
      ensures contents == if kflgs == -1 then old(contents)
        else old(contents)[old(cur) := old(contents)[old(cur)].(head := old(contents)[old(cur)].head.(keySpec := old(contents)[old(cur)].head.keySpec | key))]
      ensures v == contents[old(cur)]
    {
      hide RingOk, Regions, DataOk;
      CurrBlock();
      if kflgs != -1 {
        Restamp(pCurr, pCurr.head.(keySpec := pCurr.head.keySpec | key), cur);
      }
      CurrBlock();
      v := Blk(pCurr.buf[pCurr.ofs..pCurr.ofs + pCurr.length], pCurr.head);
      StepCurr();
      CurrBlock();
    }

    /**
      The next block to be sent for the first time. Blocks whose time to live has run out are
      skipped and counted; with no key available (`kflgs` is -1) the length reported is 0.
     */
    method ReadData(kflgs: int, now: int) returns (readlen: nat, pkt: Option<Blk>, skipped: nat)
      requires Valid() && -1 <= kflgs <= 3
      modifies this`pCurr, this`cur, this`contents, ring
      ensures Valid() && ring == old(ring)
      ensures old(cur) <= |old(contents)|
      ensures var bs, j := old(contents), NextLive(old(contents), old(cur), now);
        && skipped == j - old(cur) && cur == SendEnd(bs, old(cur), now)
        && contents == AfterSend(bs, old(cur), kflgs, now)
        && (j == |bs| ==> pkt == None && readlen == 0)
        && (j < |bs| ==> pkt == Some(contents[j]) && readlen == if kflgs == -1 then 0 else |contents[j].payload|)
      ensures skipped + (if pkt.Some? then 1 else 0) == cur - old(cur)
      ensures pkt.Some? ==> 0 < cur <= |contents| && pkt.value == contents[cur - 1]
    {
      hide Valid, Keyed;
      readlen, pkt, skipped := 0, None, 0;
      ghost var bs, c0 := contents, cur;
      var key: bv2 := if kflgs == -1 then 0 else kflgs as bv2;
      KeyedNothing(bs, c0, key);
      CurrBlock();
      while pCurr != pLast
        invariant Valid() && ring == old(ring) && c0 <= cur <= |bs| == |contents| == count
        invariant pCurr == pLast <==> cur == count
        invariant contents == (if kflgs == -1 then bs else Keyed(bs, c0, cur, key))
        invariant NextLive(bs, cur, now) == NextLive(bs, c0, now) && skipped == cur - c0
        invariant pkt == None && readlen == 0
        decreases count - cur
      {
        KeyedStep(bs, c0, cur, key);
        var v := SendOne(kflgs, key);
        if v.head.ttl >= 0 && now - v.head.origin > v.head.ttl {
          skipped := skipped + 1;
        } else {
          readlen := if kflgs == -1 then 0 else |v.payload|;
          pkt := Some(v);
          break;
        }
      }
    }

    /** The block `offset` positions after the first, or the free block if there are not that many. */
    method WalkTo(offset: int) returns (p: Block, ghost i: nat)
      requires Valid()
      ensures i == Min(Max(0, offset), count) && i < |ring| && p == ring[i] && (p == pLast <==> i == count)
    {
      hide Regions, DataOk, Distinct, Linked;
      p := pFirst;
      i := 0;
      var k := 0;
      DistinctAt(ring, 0, count);
      while k < offset && p != pLast
        invariant 0 <= k == i <= count && (k <= offset || k == 0)
        invariant p == ring[i] && (p == pLast <==> i == count)
        decreases offset - k
      {
        LinkedAt(ring, i);
        p := p.next;
        k := k + 1;
        i := i + 1;
        DistinctAt(ring, i, count);
      }
    }

    /** The number of the message the block at `offset` belongs to, or 0 if there is no such block. */
    method GetMsgNoAt(offset: nat) returns (msgno: nat)
      requires Valid()
      ensures msgno == if offset >= |contents| then 0 else contents[offset].head.msgno
    {
      FirstBlock();
      if offset >= count {
        return 0;
      }
      var p, i := WalkTo(offset);
      BlockAt(i);
      return p.head.msgno;
    }

    /**
      Retransmission. If the block at `offset` outlived its time, a request to drop the rest of
      its message is returned instead, and a send cursor inside that rest moves behind it.
     */
    method ReadDataAt(offset: int, pktSeq: Seq31, now: int) returns (r: Rexmit)
      requires Valid() && size <= MAX_SEQNO
      modifies this`pCurr, this`cur, this`contents, ring
      ensures Valid() && ring == old(ring)
      ensures old(cur) <= |old(contents)|
      ensures var bs, i := old(contents), Max(0, offset);
        && contents == AfterResend(bs, i, now) && cur == ResendCursor(bs, old(cur), i, now)
        && (if i >= |bs| then r == NoData
            else if !Expired(bs[i].head, now) then r == Resent(bs[i])
            else
              var end := MsgRun(bs, i + 1, bs[i].head.msgno);
              && end - i - 1 <= MAX_SEQNO
              && r == DropRequest(bs[i].head.msgno, pktSeq, IncSeqBy(pktSeq, end - i - 1)))
    {
      hide RingOk, Regions, DataOk, MsgRun;
      FirstBlock();
      CurrBlock();
      var p, i := WalkTo(offset);
      if p == pLast {
        return NoData;
      }
      RingBlock(i);
      if p.head.ttl >= 0 && now - p.head.origin > p.head.ttl {
        var msglen := SkipMessage(p, i);
        return DropRequest(p.head.msgno, pktSeq, IncSeqBy(pktSeq, msglen - 1));
      }
      var v := Blk(p.buf[p.ofs..p.ofs + p.length], p.head);
      Restamp(p, p.head.(rexmit := now), i);
      return Resent(v);
    }

    lemma RingBlock(i: nat)
      requires Valid() && i < count
      ensures count < size == |ring| && |contents| == count && ring[i] in ring
      ensures ring[i].head == contents[i].head && ring[i].length == |contents[i].payload|
      ensures ring[i].ofs + ring[i].length <= ring[i].buf.Length
      ensures ring[i].buf[ring[i].ofs..ring[i].ofs + ring[i].length] == contents[i].payload
    {
      BlockAt(i);
    }

    /** Block `k` of the ring, and the step to the one behind it. */
    lemma StepOver(k: nat)
      requires Valid() && k < count
      ensures count == |contents| < |ring| && ring[k].head == contents[k].head && ring[k].next == ring[k + 1]
      ensures (ring[k] == pCurr <==> k == cur) && (ring[k + 1] == pLast <==> k + 1 == count)
    {
      hide Distinct, Linked, Regions, DataOk;
      FirstBlock();
      BlockAt(k);
      LinkedAt(ring, k);
      DistinctAt(ring, k, cur);
      DistinctAt(ring, k + 1, count);
    }

    /** Moves the send cursor to block `k`. */
    method MoveCurr(p: Block, ghost k: nat)
      requires Valid() && k <= count && k < |ring| && p == ring[k]
      modifies this`pCurr, this`cur
      ensures Valid() && cur == k && pCurr == p
    {
      hide Distinct, Linked, Regions, DataOk;
      pCurr := p;
      cur := k;
    }

    /** Walks over the rest of the message that block `i` belongs to, taking the send cursor along. */
    method SkipMessage(p0: Block, ghost i: nat) returns (msglen: nat)
      requires Valid() && i < count && p0 == ring[i]
      modifies this`pCurr, this`cur
      ensures Valid() && contents == old(contents) && i < |contents|
      ensures var end := MsgRun(contents, i + 1, contents[i].head.msgno);
        msglen == end - i && cur == (if i < old(cur) < end then end else old(cur))
    {
      hide Valid;
      StepOver(i);
      var msgno := p0.head.msgno;
      ghost var k, c0 := i + 1, cur;
      var p := p0.next;
      var move := false;
      msglen := 1;
      if k < count {
        StepOver(k);
      }
      while p != pLast && msgno == p.head.msgno
        invariant Valid() && i < k <= count == |contents| < |ring| && p != null && p == ring[k] && (p == pLast <==> k == count)
        invariant k < count ==> p.head == contents[k].head && (p == pCurr <==> k == cur)
        invariant msglen == k - i && MsgRun(contents, k, msgno) == MsgRun(contents, i + 1, msgno)
        invariant (move <==> i < c0 < k) && cur == if move then k else c0
        decreases count - k
      {
        StepOver(k);
        if p == pCurr {
          move := true;
        }
        p := p.next;
        k := k + 1;
        if move {
          MoveCurr(p, k);
        }
        msglen := msglen + 1;
        if k < count {
          StepOver(k);
        }
      }
    }
  }
}

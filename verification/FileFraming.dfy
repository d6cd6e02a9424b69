/**
  File transfer over messages: the sender cuts each file into segments that fit its buffer, the
  receiver rebuilds the files from the segments.

  A segment is one flag byte (bit 0: first segment of a file, bit 1: the file ended inside this
  segment), for a first segment the zero-terminated name, then data. A file whose last segment
  is exactly full never gets the end flag; an empty file is not sent at all.
 */
module FileFraming {
  import opened Packets
  import opened Buffers

  datatype File = File(name: Bytes, data: Bytes)

  function Flags(first: bool, eof: bool): Byte {
    if first then (if eof then 3 else 1) else if eof then 2 else 0
  }

  function Header(name: Bytes, first: bool): Bytes {
    if first then name + [0] else []
  }

  /** The bytes in front of the data: the flag byte, and the name with its terminator. */
  function HeaderSize(name: Bytes, first: bool): nat {
    if first then |name| + 2 else 1
  }

  function Segment(name: Bytes, first: bool, eof: bool, data: Bytes): (m: Bytes)
    ensures m != []
  {
    [Flags(first, eof)] + Header(name, first) + data
  }

  /** The segments of the rest `data` of a file, for a buffer of `size` bytes. */
  function Segments(name: Bytes, first: bool, data: Bytes, size: nat): seq<Bytes>
    requires |name| + 2 < size
    decreases |data|
  {
    var room := size - HeaderSize(name, first);
    if data == [] then []
    else if |data| < room then [Segment(name, first, true, data)]
    else [Segment(name, first, false, data[..room])] + Segments(name, false, data[room..], size)
  }

  // ---------------------------------------------------------------- the sender

  method FillName(buf: array<Byte>, name: Bytes)
    requires |name| + 2 < buf.Length
    modifies buf
    ensures buf[1..|name| + 2] == Header(name, true)
  {
    CopyInto(buf, 1, name + [0]);
  }

  /** Lays a segment out in the buffer behind the header that is already there. */
  method FillSegment(buf: array<Byte>, name: Bytes, first: bool, eof: bool, data: Bytes)
    requires HeaderSize(name, first) + |data| <= buf.Length
    requires buf[1..HeaderSize(name, first)] == Header(name, first)
    modifies buf
    ensures buf[..HeaderSize(name, first) + |data|] == Segment(name, first, eof, data)
  {
    hide Flags;
    ghost var h := HeaderSize(name, first);
    CopyInto(buf, HeaderSize(name, first), data);
    assert buf[1..h] == Header(name, first) && buf[h..h + |data|] == data;
    buf[0] := Flags(first, eof);
    assert buf[1..h] == Header(name, first) && buf[h..h + |data|] == data;
    assert buf[..h + |data|] == [buf[0]] + buf[1..h] + buf[h..h + |data|];
  }

  lemma SegmentsStep(name: Bytes, first: bool, data: Bytes, size: nat)
    requires |name| + 2 < size
    ensures var room := size - HeaderSize(name, first); var eof := |data| < room;
      var n := if eof then |data| else room;
      Segments(name, first, data, size) ==
        (if n > 0 then [Segment(name, first, eof, data[..n])] else [])
        + (if eof then [] else Segments(name, false, data[n..], size))
  {
    hide Segment;
    assert data[..|data|] == data;
  }

  /** What one pass of the loop sends, and what it leaves for the next ones. */
  lemma PassStep(name: Bytes, first: bool, file: Bytes, pos: nat, size: nat, sent: seq<Bytes>)
    requires |name| + 2 < size && pos <= |file|
    ensures var room := size - HeaderSize(name, first); var eof := |file| - pos < room;
      var n := if eof then |file| - pos else room;
      sent + Segments(name, first, file[pos..], size) ==
        (if n > 0 then sent + [Segment(name, first, eof, file[pos..pos + n])] else sent)
        + (if eof then [] else Segments(name, false, file[pos + n..], size))
  {
    hide Segment, Segments;
    SegmentsStep(name, first, file[pos..], size);
    var room := size - HeaderSize(name, first);
    var n := if |file| - pos < room then |file| - pos else room;
    assert file[pos..pos + n] == file[pos..][..n] && file[pos + n..] == file[pos..][n..];
  }

  /** Lays out one segment and sends it; the buffer is then ready for a segment without a name. */
  method SendOne(name: Bytes, first: bool, eof: bool, piece: Bytes, buf: array<Byte>, sent0: seq<Bytes>) returns (sent: seq<Bytes>)
    requires HeaderSize(name, first) + |piece| <= buf.Length
    requires buf[1..HeaderSize(name, first)] == Header(name, first)
    modifies buf
    ensures sent == sent0 + [Segment(name, first, eof, piece)] && buf[1..1] == Header(name, false)
  {
    hide Segment, Header;
    FillSegment(buf, name, first, eof, piece);
    sent := sent0 + [buf[..HeaderSize(name, first) + |piece|]];
    NoHeader(buf[1..1], name);
  }

  /** sendFile: one buffer is reused for all segments; `hdrSize` falls to 1 once a segment went out. */
  method SendFile(name: Bytes, file: Bytes, buf: array<Byte>) returns (sent: seq<Bytes>)
    requires |name| + 2 < buf.Length
    modifies buf
    ensures sent == Segments(name, true, file, buf.Length)
  {
    hide Segments, Segment, Header;
    sent := [];
    FillName(buf, name);
    var hdrSize, pos, done := |name| + 2, 0, false;
    ghost var all, rest := Segments(name, true, file, buf.Length), Segments(name, true, file, buf.Length);
    assert file[0..] == file;
    while !done
      invariant 0 <= pos <= |file| && hdrSize == HeaderSize(name, hdrSize > 1)
      invariant !done ==> buf[1..hdrSize] == Header(name, hdrSize > 1)
      invariant rest == if done then [] else Segments(name, hdrSize > 1, file[pos..], buf.Length)
      invariant sent + rest == all
      decreases !done, |file| - pos
    {
      var isEof := |file| - pos < buf.Length - hdrSize;
      var n := if isEof then |file| - pos else buf.Length - hdrSize;
      PassStep(name, hdrSize > 1, file, pos, buf.Length, sent);
      if n > 0 {
        sent := SendOne(name, hdrSize > 1, isEof, file[pos..pos + n], buf, sent);
        hdrSize := 1;
      }
      pos, done := pos + n, isEof;
      rest := if isEof then [] else Segments(name, false, file[pos..], buf.Length);
    }
  }

  lemma NoHeader(none: Bytes, name: Bytes)
    requires none == []
    ensures Header(name, false) == none
  {
  }

  // ---------------------------------------------------------------- the receiver

  /** The files written so far, by path, and the path of the open file; without one, data is lost. */
  datatype Disk = Disk(files: map<Bytes, Bytes>, open: Option<Bytes>)

  predicate First(msg: Bytes)
    requires msg != []
  {
    msg[0] & 1 != 0
  }

  predicate Eof(msg: Bytes)
    requires msg != []
  {
    msg[0] & 2 != 0
  }

  /** Where the zero byte of the string starting at `i` is; the end when there is none. */
  function Terminator(msg: Bytes, i: nat): (k: nat)
    requires i <= |msg|
    ensures i <= k <= |msg|
    decreases |msg| - i
  {
    if i == |msg| || msg[i] == 0 then i else Terminator(msg, i + 1)
  }

  /** The name in a first segment ends inside the segment. */
  predicate Readable(msg: Bytes) {
    msg != [] && First(msg) ==> Terminator(msg, 1) < |msg|
  }

  function Receive(d: Disk, dst: Bytes, msg: Bytes): Disk
    requires Readable(msg)
  {
    if msg == [] then d
    else
      var k := if First(msg) then Terminator(msg, 1) else 0;
      var d1 := if First(msg) then Disk(d.files[dst + msg[1..k] := []], Some(dst + msg[1..k])) else d;
      if d1.open.None? || d1.open.value !in d1.files then d1
      else
        Disk(d1.files[d1.open.value := d1.files[d1.open.value] + msg[k + 1..]], if Eof(msg) then None else d1.open)
  }

  function ReceiveAll(d: Disk, dst: Bytes, msgs: seq<Bytes>): Disk
    requires forall i :: 0 <= i < |msgs| ==> Readable(msgs[i])
    decreases |msgs|
  {
    if msgs == [] then d else ReceiveAll(Receive(d, dst, msgs[0]), dst, msgs[1..])
  }

  method FindTerminator(msg: Bytes) returns (k: nat)
    requires msg != []
    ensures k == Terminator(msg, 1)
  {
    k := 1;
    while k < |msg| && msg[k] != 0
      invariant 1 <= k <= |msg| && Terminator(msg, k) == Terminator(msg, 1)
    {
      k := k + 1;
    }
  }

  /** receiveFiles: a first segment truncates its file and leaves it open, data goes to the open file. */
  method ReceiveFiles(d: Disk, dst: Bytes, msgs: seq<Bytes>) returns (files: map<Bytes, Bytes>)
    requires forall i :: 0 <= i < |msgs| ==> Readable(msgs[i])
    ensures files == ReceiveAll(d, dst, msgs).files
  {
    files := d.files;
    var ofile := d.open;
    var i := 0;
    while i < |msgs|
      invariant 0 <= i <= |msgs|
      invariant ReceiveAll(Disk(files, ofile), dst, msgs[i..]) == ReceiveAll(d, dst, msgs)
    {
      var msg := msgs[i];
      assert msgs[i..][1..] == msgs[i + 1..];
      i := i + 1;
      if msg == [] {
        continue;
      }
      var hdrSize := 1;
      if First(msg) {
        var k := FindTerminator(msg);
        var path := dst + msg[1..k];
        hdrSize := hdrSize + (k - 1) + 1;
        files, ofile := files[path := []], Some(path);
      }
      if ofile.None? || ofile.value !in files {
        continue;
      }
      files := files[ofile.value := files[ofile.value] + msg[hdrSize..]];
      if Eof(msg) {
        ofile := None;
      }
    }
  }

  // ---------------------------------------------------------------- what a segment says

  predicate ZeroFree(name: Bytes) {
    forall i :: 0 <= i < |name| ==> name[i] != 0
  }

  lemma FlagBits(first: bool, eof: bool)
    ensures (Flags(first, eof) & 1 != 0) == first && (Flags(first, eof) & 2 != 0) == eof
    ensures Flags(first, eof) == (if first then 1 else 0) + (if eof then 2 else 0)
  {
  }

  lemma {:induction false} TerminatorFound(msg: Bytes, i: nat, k: nat)
    requires i <= k < |msg| && msg[k] == 0 && forall j :: i <= j < k ==> msg[j] != 0
    ensures Terminator(msg, i) == k
    decreases k - i
  {
    if i < k {
      TerminatorFound(msg, i + 1, k);
    }
  }

  lemma SegmentRead(name: Bytes, first: bool, eof: bool, data: Bytes)
    requires ZeroFree(name)
    ensures var m := Segment(name, first, eof, data);
      && First(m) == first && Eof(m) == eof && Readable(m)
      && m[0] == (if first then 1 else 0) + (if eof then 2 else 0)
      && (first ==> Terminator(m, 1) == |name| + 1 && m[1..|name| + 1] == name)
      && m[HeaderSize(name, first)..] == data
  {
    hide Flags;
    FlagBits(first, eof);
    var m := Segment(name, first, eof, data);
    if first {
      assert forall j :: 1 <= j < |name| + 1 ==> m[j] == name[j - 1];
      TerminatorFound(m, 1, |name| + 1);
    }
  }

  lemma ReceiveSegment(d: Disk, dst: Bytes, name: Bytes, first: bool, eof: bool, data: Bytes)
    requires ZeroFree(name) && (!first ==> d.open == Some(dst + name) && dst + name in d.files)
    ensures var m := Segment(name, first, eof, data); var path := dst + name;
      && Readable(m)
      && Receive(d, dst, m) ==
           Disk(d.files[path := (if first then [] else d.files[path]) + data], if eof then None else Some(path))
  {
    hide Segment, Terminator, Flags;
    SegmentRead(name, first, eof, data);
  }

  // ---------------------------------------------------------------- the round trip

  lemma {:induction false} SegmentsReadable(name: Bytes, first: bool, data: Bytes, size: nat)
    requires ZeroFree(name) && |name| + 2 < size
    ensures forall i :: 0 <= i < |Segments(name, first, data, size)| ==> Readable(Segments(name, first, data, size)[i])
    decreases |data|
  {
    hide Readable;
    var room := size - HeaderSize(name, first);
    if data != [] {
      if |data| < room {
        SegmentRead(name, first, true, data);
      } else {
        SegmentRead(name, first, false, data[..room]);
        SegmentsReadable(name, false, data[room..], size);
      }
    }
  }

  lemma {:induction false} ReceiveAllConcat(d: Disk, dst: Bytes, a: seq<Bytes>, b: seq<Bytes>)
    requires forall i :: 0 <= i < |a| ==> Readable(a[i])
    requires forall i :: 0 <= i < |b| ==> Readable(b[i])
    ensures ReceiveAll(d, dst, a + b) == ReceiveAll(ReceiveAll(d, dst, a), dst, b)
    decreases |a|
  {
    hide Readable, Receive;
    if a == [] {
      assert a + b == b;
    } else {
      assert (a + b)[1..] == a[1..] + b && (a + b)[0] == a[0];
      ReceiveAllConcat(Receive(d, dst, a[0]), dst, a[1..], b);
    }
  }

  /** The segments of the rest of a file append that rest to the open file. */
  lemma {:induction false} ReceiveRest(d: Disk, dst: Bytes, name: Bytes, first: bool, data: Bytes, size: nat)
    requires ZeroFree(name) && |name| + 2 < size && data != []
    requires !first ==> d.open == Some(dst + name) && dst + name in d.files
    requires forall i :: 0 <= i < |Segments(name, first, data, size)| ==> Readable(Segments(name, first, data, size)[i])
    ensures ReceiveAll(d, dst, Segments(name, first, data, size)).files ==
      d.files[dst + name := (if first then [] else d.files[dst + name]) + data]
    decreases |data|
  {
    hide Receive, Readable, Segment;
    var path, room := dst + name, size - HeaderSize(name, first);
    var old_ := if first then [] else d.files[path];
    var ss := Segments(name, first, data, size);
    var eof := |data| < room;
    var piece := if eof then data else data[..room];
    ReceiveSegment(d, dst, name, first, eof, piece);
    assert ss[0] == Segment(name, first, eof, piece);
    var d1 := Receive(d, dst, ss[0]);
    assert ReceiveAll(d, dst, ss) == ReceiveAll(d1, dst, ss[1..]);
    if !eof {
      assert ss[1..] == Segments(name, false, data[room..], size);
      if data[room..] == [] {
        assert piece == data;
      } else {
        ReceiveRest(d1, dst, name, false, data[room..], size);
        assert (old_ + piece) + data[room..] == old_ + data;
      }
    }
  }

  predicate Sendable(f: File, size: nat) {
    ZeroFree(f.name) && |f.name| + 2 < size
  }

  function SendAll(fs: seq<File>, size: nat): seq<Bytes>
    requires forall i :: 0 <= i < |fs| ==> Sendable(fs[i], size)
    decreases |fs|
  {
    if fs == [] then []
    else assert Sendable(fs[0], size); Segments(fs[0].name, true, fs[0].data, size) + SendAll(fs[1..], size)
  }

  /** Copying the files themselves, one after the other; empty ones are not copied. */
  function CopyAll(files: map<Bytes, Bytes>, dst: Bytes, fs: seq<File>): map<Bytes, Bytes>
    decreases |fs|
  {
    if fs == [] then files
    else CopyAll(if fs[0].data == [] then files else files[dst + fs[0].name := fs[0].data], dst, fs[1..])
  }

  lemma {:induction false} SendAllReadable(fs: seq<File>, size: nat)
    requires forall i :: 0 <= i < |fs| ==> Sendable(fs[i], size)
    ensures forall i :: 0 <= i < |SendAll(fs, size)| ==> Readable(SendAll(fs, size)[i])
    decreases |fs|
  {
    hide Readable, Segments;
    if fs != [] {
      assert Sendable(fs[0], size);
      SegmentsReadable(fs[0].name, true, fs[0].data, size);
      SendAllReadable(fs[1..], size);
    }
  }

  /** Sending files and receiving the segments is copying the files, whatever was open or on disk before. */
  lemma {:induction false} TransferIsCopy(d: Disk, dst: Bytes, fs: seq<File>, size: nat)
    requires forall i :: 0 <= i < |fs| ==> Sendable(fs[i], size)
    requires forall i :: 0 <= i < |SendAll(fs, size)| ==> Readable(SendAll(fs, size)[i])
    ensures ReceiveAll(d, dst, SendAll(fs, size)).files == CopyAll(d.files, dst, fs)
    decreases |fs|
  {
    hide Readable, Receive, Segments;
    if fs != [] {
      assert Sendable(fs[0], size);
      var ss := Segments(fs[0].name, true, fs[0].data, size);
      SegmentsReadable(fs[0].name, true, fs[0].data, size);
      SendAllReadable(fs[1..], size);
      ReceiveAllConcat(d, dst, ss, SendAll(fs[1..], size));
      TransferIsCopy(ReceiveAll(d, dst, ss), dst, fs[1..], size);
      if fs[0].data != [] {
        ReceiveRest(d, dst, fs[0].name, true, fs[0].data, size);
        assert [] + fs[0].data == fs[0].data;
      } else {
        SegmentsStep(fs[0].name, true, fs[0].data, size);
      }
    }
  }

  predicate Distinct(fs: seq<File>) {
    forall i, j :: 0 <= i < j < |fs| ==> fs[i].name != fs[j].name
  }

  /** `p` is not the path of any file that is copied. */
  ghost predicate Untouched(dst: Bytes, fs: seq<File>, p: Bytes) {
    forall i :: 0 <= i < |fs| && fs[i].data != [] ==> p != dst + fs[i].name
  }

  lemma {:induction false} CopyKeeps(files: map<Bytes, Bytes>, dst: Bytes, fs: seq<File>, p: Bytes)
    requires Untouched(dst, fs, p)
    ensures var r := CopyAll(files, dst, fs);
      (p in r <==> p in files) && (p in r ==> r[p] == files[p])
    decreases |fs|
  {
    if fs != [] {
      var files' := if fs[0].data == [] then files else files[dst + fs[0].name := fs[0].data];
      assert Untouched(dst, fs[1..], p);
      assert fs[0].data != [] ==> p != dst + fs[0].name;
      CopyKeeps(files', dst, fs[1..], p);
    }
  }

  lemma {:induction false} CopyPuts(files: map<Bytes, Bytes>, dst: Bytes, fs: seq<File>, i: nat)
    requires Distinct(fs) && i < |fs| && fs[i].data != []
    ensures var r := CopyAll(files, dst, fs);
      dst + fs[i].name in r && r[dst + fs[i].name] == fs[i].data
    decreases |fs|
  {
    var files' := if fs[0].data == [] then files else files[dst + fs[0].name := fs[0].data];
    if i > 0 {
      CopyPuts(files', dst, fs[1..], i - 1);
    } else {
      forall j | 0 <= j < |fs[1..]|
        ensures dst + fs[0].name != dst + fs[1..][j].name
      {
        assert fs[1..][j] == fs[j + 1];
        PrefixCancels(dst, fs[0].name, fs[1..][j].name);
      }
      CopyKeeps(files', dst, fs[1..], dst + fs[0].name);
    }
  }

  lemma PrefixCancels(dst: Bytes, a: Bytes, b: Bytes)
    ensures dst + a == dst + b ==> a == b
  {
    assert (dst + a)[|dst|..] == a && (dst + b)[|dst|..] == b;
  }

  /**
    The round trip: for non-empty files with distinct names, the receiver's files are the
    sender's, byte for byte, and no other file changes.
   */
  lemma RoundTrip(d: Disk, dst: Bytes, fs: seq<File>, size: nat)
    requires Distinct(fs) && forall i :: 0 <= i < |fs| ==> Sendable(fs[i], size) && fs[i].data != []
    ensures forall i :: 0 <= i < |SendAll(fs, size)| ==> Readable(SendAll(fs, size)[i])
    ensures var r := ReceiveAll(d, dst, SendAll(fs, size)).files;
      && (forall i :: 0 <= i < |fs| ==> dst + fs[i].name in r && r[dst + fs[i].name] == fs[i].data)
      && (forall p :: Untouched(dst, fs, p) ==> (p in r <==> p in d.files) && (p in r ==> r[p] == d.files[p]))
  {
    hide Readable, Segments, CopyAll, Untouched;
    SendAllReadable(fs, size);
    TransferIsCopy(d, dst, fs, size);
    forall i: nat | i < |fs|
      ensures var r := CopyAll(d.files, dst, fs); dst + fs[i].name in r && r[dst + fs[i].name] == fs[i].data
    {
      CopyPuts(d.files, dst, fs, i);
    }
    forall p | Untouched(dst, fs, p)
      ensures var r := CopyAll(d.files, dst, fs); (p in r <==> p in d.files) && (p in r ==> r[p] == d.files[p])
    {
      CopyKeeps(d.files, dst, fs, p);
    }
  }

  /** The length of the rest of a file that fills one segment with it and `k` more segments. */
  function FullLength(name: Bytes, first: bool, size: nat, k: nat): int {
    size - HeaderSize(name, first) + k * (size - 1)
  }

  ghost predicate EndsFull(name: Bytes, first: bool, len: nat, size: nat) {
    exists k: nat :: len == FullLength(name, first, size, k)
  }

  lemma EndsFullNext(name: Bytes, first: bool, len: nat, size: nat)
    requires |name| + 2 < size && len > size - HeaderSize(name, first)
    ensures EndsFull(name, first, len, size) <==> EndsFull(name, false, len - (size - HeaderSize(name, first)), size)
  {
    var room, step := size - HeaderSize(name, first), size - 1;
    if k: nat :| len == FullLength(name, first, size, k) {
      assert k > 0 && k * step == step + (k - 1) * step;
      assert len - room == FullLength(name, false, size, k - 1);
    }
    if k: nat :| len - room == FullLength(name, false, size, k) {
      assert (k + 1) * step == step + k * step;
      assert len == FullLength(name, first, size, k + 1);
    }
  }

  /**
    The end flag can only be on the last segment, and it is there exactly when that segment is
    not full: a file that fills its segments exactly ends without the flag.
   */
  lemma {:induction false} EofExactly(name: Bytes, first: bool, data: Bytes, size: nat)
    requires |name| + 2 < size && data != []
    ensures var ss := Segments(name, first, data, size);
      && ss != [] && (forall i :: 0 <= i < |ss| ==> ss[i] != [])
      && (forall i :: 0 <= i < |ss| - 1 ==> !Eof(ss[i]))
      && (Eof(ss[|ss| - 1]) <==> !EndsFull(name, first, |data|, size))
    decreases |data|
  {
    hide Flags, Header, FullLength, EndsFull;
    var room := size - HeaderSize(name, first);
    var ss := Segments(name, first, data, size);
    FlagBits(first, |data| < room);
    if |data| > room {
      var rest := Segments(name, false, data[room..], size);
      EofExactly(name, false, data[room..], size);
      assert forall i :: 0 < i < |ss| ==> ss[i] == rest[i - 1];
      EndsFullNext(name, first, |data|, size);
    } else {
      EndsFullFirst(name, first, |data|, size);
    }
  }

  lemma EndsFullFirst(name: Bytes, first: bool, len: nat, size: nat)
    requires |name| + 2 < size && len <= size - HeaderSize(name, first)
    ensures EndsFull(name, first, len, size) <==> len == size - HeaderSize(name, first)
  {
    assert FullLength(name, first, size, 0) == size - HeaderSize(name, first);
  }

  /** Every segment but the last fills the buffer; each carries data, and only the first one a name. */
  lemma {:induction false} SegmentsFill(name: Bytes, first: bool, data: Bytes, size: nat)
    requires |name| + 2 < size
    ensures var ss := Segments(name, first, data, size);
      && (ss == [] <==> data == [])
      && (forall i :: 0 <= i < |ss| - 1 ==> |ss[i]| == size)
      && (forall i :: 0 <= i < |ss| ==> HeaderSize(name, first && i == 0) < |ss[i]| <= size)
      && (forall i :: 0 <= i < |ss| ==> (First(ss[i]) <==> first && i == 0))
    decreases |data|
  {
    hide Flags;
    var room := size - HeaderSize(name, first);
    FlagBits(first, |data| < room);
    if data != [] && |data| >= room {
      SegmentsFill(name, false, data[room..], size);
    }
  }
}

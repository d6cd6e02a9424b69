/** Byte buffers: what memcpy and memset do to an array. */
module Buffers {
  import opened Packets

  /** Overwrites the bytes of `r` from `off` on with `s`. */
  function Put(r: Bytes, off: nat, s: Bytes): (r': Bytes)
    requires off + |s| <= |r|
    ensures |r'| == |r|
  {
    r[..off] + s + r[off + |s|..]
  }

  lemma PutPut(r: Bytes, off: nat, x: Bytes, y: Bytes)
    requires off + |x| <= |r| && |x| == |y|
    ensures Put(Put(r, off, x), off, y) == Put(r, off, y) && Put(r, off, x)[off..off + |x|] == x
  {
  }

  lemma PutSame(r: Bytes, off: nat, n: nat)
    requires off + n <= |r|
    ensures Put(r, off, r[off..off + n]) == r
  {
  }

  lemma PutBehind(r: Bytes, off: nat, s: Bytes)
    requires 8 + off + |s| <= |r|
    ensures Put(r, 8 + off, s)[8..] == Put(r[8..], off, s) && Put(r, 8 + off, s)[..8] == r[..8]
  {
  }

  /** memcpy into `a` at `off`. */
  method CopyInto(a: array<bv8>, off: nat, s: Bytes)
    requires off + |s| <= a.Length
    modifies a
    ensures a[..] == Put(old(a[..]), off, s)
  {
    forall k | 0 <= k < |s| {
      a[off + k] := s[k];
    }
  }

  /** memset to zero. */
  method Wipe(a: array<bv8>)
    modifies a
    ensures forall k :: 0 <= k < a.Length ==> a[k] == 0
  {
    forall k | 0 <= k < a.Length {
      a[k] := 0;
    }
  }
}

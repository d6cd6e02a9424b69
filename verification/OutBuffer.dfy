/**
  The circular output buffer of the crypto layer: room for six padded messages, handed out front
  to back; a request that no longer fits starts over at the front.
 */
module OutBuffer {
  const OUTMSGMAX: nat := 6
  const CIPHER_BLOCK: nat := 16

  /** `len` rounded up to whole cipher blocks. */
  function PaddedLen(len: nat): nat {
    (len + CIPHER_BLOCK - 1) / CIPHER_BLOCK * CIPHER_BLOCK
  }

  lemma PaddedLenExact(len: nat)
    ensures len <= PaddedLen(len) < len + CIPHER_BLOCK && PaddedLen(len) % CIPHER_BLOCK == 0
  {
  }

  /** Where a request of `len` bytes is placed when `ofs` bytes of `size` are in use. */
  function Place(size: nat, ofs: nat, len: nat): nat {
    if len > size - ofs then 0 else ofs
  }

  class CircleBuffer {
    const size: nat
    var ofs: nat

    ghost predicate Valid() reads this`ofs {
      ofs <= size
    }

    constructor (maxLen: nat)
      ensures Valid() && ofs == 0 && size == OUTMSGMAX * PaddedLen(maxLen)
    {
      size := OUTMSGMAX * PaddedLen(maxLen);
      ofs := 0;
    }

    /** A request longer than the whole buffer is not refused: it is placed at the front and overruns the end. */
    method GetOutbuf(pfxLen: nat, outLen: nat) returns (start: nat)
      requires Valid()
      modifies this`ofs
      ensures start == Place(size, old(ofs), pfxLen + outLen) && ofs == start + pfxLen + outLen
      ensures Valid() <==> pfxLen + outLen <= size
    {
      if pfxLen + outLen > size - ofs {
        ofs := 0;
      }
      start := ofs;
      ofs := ofs + pfxLen + outLen;
    }
  }

  // ---------------------------------------------------------------- runs of requests

  /** The bytes in use before request `i` of a run. */
  function Offset(size: nat, lens: seq<nat>, i: nat): nat
    requires i <= |lens|
    decreases i, 0
  {
    if i == 0 then 0 else Start(size, lens, i - 1) + lens[i - 1]
  }

  /** Where request `i` is placed. */
  function Start(size: nat, lens: seq<nat>, i: nat): nat
    requires i < |lens|
    decreases i, 1
  {
    Place(size, Offset(size, lens, i), lens[i])
  }

  predicate Fit(p: nat, lens: seq<nat>) {
    forall i :: 0 <= i < |lens| ==> lens[i] <= p
  }

  predicate Disjoint(size: nat, lens: seq<nat>, i: nat, j: nat)
    requires i < |lens| && j < |lens|
  {
    || Start(size, lens, i) + lens[i] <= Start(size, lens, j)
    || Start(size, lens, j) + lens[j] <= Start(size, lens, i)
  }

  /** Every region handed out lies inside the buffer. */
  lemma {:induction false} Inside(p: nat, lens: seq<nat>, i: nat)
    requires Fit(p, lens) && i < |lens|
    ensures Offset(OUTMSGMAX * p, lens, i) <= OUTMSGMAX * p
    ensures Start(OUTMSGMAX * p, lens, i) + lens[i] <= OUTMSGMAX * p
  {
    if i > 0 {
      Inside(p, lens, i - 1);
    }
  }

  /** `d` requests of `q` bytes. */
  function Times(d: nat, q: nat): nat {
    if d == 0 then 0 else Times(d - 1, q) + q
  }

  lemma {:induction false} TimesIs(d: nat, q: nat)
    ensures Times(d, q) == d * q
  {
    if d > 0 {
      TimesIs(d - 1, q);
    }
  }

  lemma {:induction false} TimesAdd(a: nat, b: nat, q: nat)
    ensures Times(a + b, q) == Times(a, q) + Times(b, q)
    decreases b
  {
    if b > 0 {
      TimesAdd(a, b - 1, q);
    }
  }

  /**
    A region of `len` bytes at `start`, and the offset `d` requests later. Either there was no
    wraparound in between and the region lies before the offset, or there was one and the offset
    stays below the region by as many requests as are still to come before the `m`-th.
   */
  predicate Clear(m: nat, q: nat, d: nat, start: nat, len: nat, ofs: nat)
    requires 1 <= d <= m
  {
    || (start + len <= ofs <= start + Times(d, q))
    || (ofs <= Times(d - 1, q) && ofs + Times(m - d, q) <= start)
  }

  /** One more request keeps clear of the region. */
  lemma ClearStep(size: nat, m: nat, q: nat, d: nat, start: nat, len: nat, ofs: nat, next: nat)
    requires Times(m + 1, q) <= size + 1 && next <= q && 1 <= d < m && Clear(m, q, d, start, len, ofs)
    ensures var s := Place(size, ofs, next);
      && Clear(m, q, d + 1, start, len, s + next)
      && (start + len <= s || s + next <= start)
  {
    hide Times;
    TimesAdd(m - d - 1, d + 2, q);
    TimesAdd(d, 2, q);
    TimesAdd(d, 1, q);
    TimesAdd(d - 1, 1, q);
    TimesAdd(m - d - 1, 1, q);
    TimesTwo(q);
  }

  lemma TimesTwo(q: nat)
    ensures Times(1, q) == q && Times(2, q) == q + q
  {
    assert Times(1, q) == Times(0, q) + q;
  }

  lemma {:induction false} StaysClear(size: nat, m: nat, q: nat, lens: seq<nat>, i: nat, j: nat)
    requires Fit(q, lens) && Times(m + 1, q) <= size + 1 && i < j <= i + m && j <= |lens|
    ensures Clear(m, q, j - i, Start(size, lens, i), lens[i], Offset(size, lens, j))
    decreases j
  {
    if j > i + 1 {
      StaysClear(size, m, q, lens, i, j - 1);
      var start, ofs := Start(size, lens, i), Offset(size, lens, j - 1);
      ClearStep(size, m, q, j - 1 - i, start, lens[i], ofs, lens[j - 1]);
    } else {
      hide Offset, Start;
      TimesTwo(q);
      OffsetNext(size, lens, i);
    }
  }

  lemma OffsetNext(size: nat, lens: seq<nat>, i: nat)
    requires i < |lens|
    ensures Offset(size, lens, i + 1) == Start(size, lens, i) + lens[i]
  {
  }

  /** Requests of at most `q` bytes: any `m` consecutive regions are disjoint if `m + 1` requests exceed the buffer by at most a byte. */
  lemma ConsecutiveDisjoint(size: nat, m: nat, q: nat, lens: seq<nat>, i: nat, j: nat)
    requires Fit(q, lens) && (m + 1) * q <= size + 1 && i < j < i + m && j < |lens|
    ensures Disjoint(size, lens, i, j)
  {
    hide Times, Offset, Fit;
    TimesIs(m + 1, q);
    StaysClear(size, m, q, lens, i, j);
    assert lens[j] <= q by { FitAt(q, lens, j); }
    ClearStep(size, m, q, j - i, Start(size, lens, i), lens[i], Offset(size, lens, j), lens[j]);
  }

  lemma FitAt(q: nat, lens: seq<nat>, i: nat)
    requires Fit(q, lens) && i < |lens|
    ensures lens[i] <= q
  {
  }

  /** Any five consecutive regions are pairwise disjoint, across wraparounds. */
  lemma FiveDisjoint(p: nat, lens: seq<nat>, i: nat, j: nat)
    requires Fit(p, lens) && i < j < i + 5 && j < |lens|
    ensures Disjoint(OUTMSGMAX * p, lens, i, j)
  {
    hide Fit, Disjoint;
    ConsecutiveDisjoint(OUTMSGMAX * p, 5, p, lens, i, j);
  }

  // ---------------------------------------------------------------- the bound is exact

  /** Where a full request is placed so that a second one no longer fits behind it. */
  function Brink(size: nat, q: nat): nat {
    if 2 * q <= size then size - 2 * q + 1 else 0
  }

  /** Single bytes up to the brink, then requests of `q`. */
  function Crowded(size: nat, q: nat, m: nat): seq<nat> {
    seq(Brink(size, q), _ => 1) + seq(m, _ => q)
  }

  lemma {:induction false} SingleBytes(size: nat, lens: seq<nat>, n: nat)
    requires n <= |lens| && n <= size && forall i :: 0 <= i < n ==> lens[i] == 1
    ensures Offset(size, lens, n) == n
    decreases n
  {
    if n > 0 {
      SingleBytes(size, lens, n - 1);
    }
  }

  /** After the wraparound the requests follow each other from the front. */
  lemma {:induction false} AfterBrink(size: nat, q: nat, m: nat, k: nat)
    requires 0 < q <= size && 1 <= k < m && Times(k, q) <= size
    ensures Start(size, Crowded(size, q, m), Brink(size, q) + k) == Times(k - 1, q)
    decreases k
  {
    var lens, n := Crowded(size, q, m), Brink(size, q);
    assert lens[n] == q && lens[n + k] == q && lens[n + k - 1] == q;
    if k == 1 {
      SingleBytes(size, lens, n);
      OffsetNext(size, lens, n);
    } else {
      AfterBrink(size, q, m, k - 1);
      OffsetNext(size, lens, n + k - 1);
    }
  }

  /** The first `k` for which one request more than `k` exceeds the buffer by more than a byte. */
  lemma {:induction false} FirstTooMany(size: nat, q: nat, m: nat) returns (k: nat)
    requires Times(m + 1, q) > size + 1 && q <= size && m >= 1
    ensures 1 <= k <= m && Times(k + 1, q) > size + 1 && Times(k, q) <= size + 1
    decreases m
  {
    if Times(m, q) <= size + 1 {
      k := m;
    } else {
      TimesTwo(q);
      k := FirstTooMany(size, q, m - 1);
    }
  }

  lemma CrowdedOverlaps(size: nat, q: nat, m: nat) returns (i: nat, j: nat)
    requires 0 < q <= size && m >= 2 && Times(m + 1, q) > size + 1
    ensures var lens := Crowded(size, q, m);
      Fit(q, lens) && i < j < i + m && j < |lens| && !Disjoint(size, lens, i, j)
  {
    hide Times, Offset;
    var lens, n := Crowded(size, q, m), Brink(size, q);
    var k := FirstTooMany(size, q, m);
    TimesTwo(q);
    // with two requests already too many, the second overlaps the first; else the k-th one does
    var e := if k == 1 then 1 else k - 1;
    i, j := n, n + e;
    TimesAdd(k - 1, 2, q);
    TimesAdd(k - 1, 1, q);
    TimesAdd(e - 1, 1, q);
    AfterBrink(size, q, m, e);
    StartsAtBrink(size, q, m);
    assert lens[j] == q;
  }

  lemma StartsAtBrink(size: nat, q: nat, m: nat)
    requires 0 < q <= size && m >= 1
    ensures var lens := Crowded(size, q, m);
      |lens| == Brink(size, q) + m && lens[Brink(size, q)] == q && Start(size, lens, Brink(size, q)) == Brink(size, q)
  {
    SingleBytes(size, Crowded(size, q, m), Brink(size, q));
  }

  /**
    In a buffer of `size` bytes, `m` consecutive regions are kept apart, whatever the requests of
    at most `q` bytes, if and only if `m + 1` requests of `q` exceed the buffer by at most a byte.
   */
  lemma DisjointIff(size: nat, q: nat, m: nat)
    requires 0 < q <= size && m >= 2
    ensures (m + 1) * q <= size + 1 <==>
      forall lens, i: nat, j: nat :: Fit(q, lens) && i < j < i + m && j < |lens| ==> Disjoint(size, lens, i, j)
  {
    hide Fit, Disjoint, Crowded, Times;
    if (m + 1) * q <= size + 1 {
      forall lens, i: nat, j: nat | Fit(q, lens) && i < j < i + m && j < |lens|
        ensures Disjoint(size, lens, i, j)
      {
        ConsecutiveDisjoint(size, m, q, lens, i, j);
      }
    } else {
      TimesIs(m + 1, q);
      var i, j := CrowdedOverlaps(size, q, m);
    }
  }

  /** With room for six messages, six regions are kept apart only below full length. */
  lemma SixDisjointIff(p: nat, q: nat)
    requires 0 < q <= p
    ensures 7 * q <= OUTMSGMAX * p + 1 <==>
      forall lens, i: nat, j: nat :: Fit(q, lens) && i < j < i + 6 && j < |lens| ==> Disjoint(OUTMSGMAX * p, lens, i, j)
  {
    hide Fit, Disjoint;
    DisjointIff(OUTMSGMAX * p, q, 6);
  }
}

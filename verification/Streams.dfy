/** The sequence of packets a well-behaved sender puts on the wire. */
module Streams {
  import opened Packets
  import opened SeqNo
  import opened ReceiverSpec

  /** `pk[i]` carries the unbounded sequence number `isn + i`. */
  datatype Stream = Stream(isn: int, pk: seq<Packet>)

  /** Messages are laid end to end: boundary flags alternate properly, and neighbours have different numbers. */
  ghost predicate WellFormed(st: Stream) {
    && (forall i :: 0 <= i < |st.pk| ==> st.pk[i].seqno == Wrap(st.isn + i))
    && (forall i :: 0 < i < |st.pk| ==> Follows(st.pk[i - 1], st.pk[i]))
    && (|st.pk| > 0 ==> st.pk[0].first)
  }

  predicate Follows(p: Packet, p': Packet) {
    && (p'.first <==> p.last)
    && (p.last <==> p'.msgno != p.msgno)
    && (!p.last ==> p'.inOrder == p.inOrder)
  }

  /** Every stored packet is the one the stream has for its slot. */
  ghost predicate Faithful(s: State, st: Stream) {
    FaithfulSlots(s.base, s.slots, st)
  }

  ghost predicate FaithfulSlots(base: int, slots: seq<Entry>, st: Stream) {
    forall k :: 0 <= k < |slots| && slots[k].unit.Some? ==>
      0 <= base + k - st.isn < |st.pk| && slots[k].unit.value == st.pk[base + k - st.isn]
  }

  /** Stored neighbours are neighbours of the stream. */
  lemma NeighboursFollow(base: int, slots: seq<Entry>, st: Stream, k: nat)
    requires WellFormed(st) && FaithfulSlots(base, slots, st) && k + 1 < |slots|
    requires slots[k].unit.Some? && slots[k + 1].unit.Some?
    ensures Follows(slots[k].unit.value, slots[k + 1].unit.value)
  {
    var i := base + k - st.isn;
    assert slots[k].unit.value == st.pk[i];
    assert slots[k + 1].unit.value == st.pk[i + 1];
    assert Follows(st.pk[i + 1 - 1], st.pk[i + 1]);
  }
}

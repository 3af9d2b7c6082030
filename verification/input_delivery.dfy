/** Delivery in order: what a receive makes available, until nothing more is. */
module InputDelivery {
  import opened SeqNum
  import opened Memory
  import opened ReliableRing
  import opened InputWindow
  import opened InputPath

  /** What the next delivery gives to the reader: the message itself, or the payloads of the
      chain, the first fragment without its first `skip` bytes. */
  ghost function NextContents(v: Receiver, kindOf: KindOf, skip: nat): seq<byte>
    requires v.NextEnd(kindOf).Some?
  {
    var first := v.handled + 1;
    if kindOf(v.stored[first]).NotFragmented? then v.stored[first]
    else Reassembled(v, first, v.NextEnd(kindOf).value, skip)
  }

  /** If the next delivery is a chain, its fragments are longer than their subheaders. */
  ghost predicate ChainReadable(v: Receiver, kindOf: KindOf, skip: nat) {
    var first, end := v.handled + 1, v.NextEnd(kindOf);
    end.Some? && !kindOf(v.stored[first]).NotFragmented? ==>
      skip < |v.stored[first]| && Readable(v, first + 1, end.value)
  }

  /** Every stored fragment is longer than its subheader. */
  ghost predicate FragmentsReadable(v: Receiver, kindOf: KindOf) {
    forall k | k in v.stored :: !kindOf(v.stored[k]).NotFragmented? ==> |v.stored[k]| > SUBHEADER_SIZE
  }

  lemma ReadableChain(v: Receiver, kindOf: KindOf)
    requires FragmentsReadable(v, kindOf)
    ensures ChainReadable(v, kindOf, SUBHEADER_SIZE)
  {
    var first, end := v.handled + 1, v.NextEnd(kindOf);
    if end.Some? && !kindOf(v.stored[first]).NotFragmented? {
      ChainEndIsLast(v, kindOf, first);
      forall k | first + 1 <= k <= end.value
        ensures k in v.stored && |v.stored[k]| > SUBHEADER_SIZE
      {
        assert k == end.value || v.IsIntermediate(kindOf, k);
      }
    }
  }

  /** One delivery, drained. */
  ghost function Deliver(v: Receiver, kindOf: KindOf): Receiver
    requires v.NextEnd(kindOf).Some?
  {
    v.DeliverTo(v.NextEnd(kindOf).value).(drained := v.NextEnd(kindOf).value)
  }

  lemma NextEndIsAhead(v: Receiver, kindOf: KindOf)
    requires v.NextEnd(kindOf).Some?
    ensures v.handled < v.NextEnd(kindOf).value && v.NextEnd(kindOf).value in v.stored
    ensures forall j | v.handled < j <= v.NextEnd(kindOf).value :: j in v.stored
    ensures v.ring.history > 0 || !kindOf(v.stored[v.handled + 1]).NotFragmented? ==> v.NextEnd(kindOf).value <= v.Edge()
  {
    if !kindOf(v.stored[v.handled + 1]).NotFragmented? {
      ChainEndIsLast(v, kindOf, v.handled + 1);
      forall j | v.handled < j <= v.NextEnd(kindOf).value
        ensures j in v.stored
      {
        assert j == v.NextEnd(kindOf).value || v.IsIntermediate(kindOf, j);
      }
    }
  }

  lemma DeliverShrinks(v: Receiver, kindOf: KindOf)
    requires v.NextEnd(kindOf).Some?
    ensures |Deliver(v, kindOf).stored| < |v.stored|
  {
    NextEndIsAhead(v, kindOf);
    var end := v.NextEnd(kindOf).value;
    var smaller := Deliver(v, kindOf).stored;
    assert smaller.Keys <= v.stored.Keys - {end};
    SmallerSet(smaller.Keys, v.stored.Keys - {end});
  }

  lemma SmallerSet(a: set<int>, b: set<int>)
    requires a <= b
    ensures |a| <= |b|
  {
    assert b == a + (b - a);
  }

  ghost function DeliverAll(v: Receiver, kindOf: KindOf): Receiver
    decreases |v.stored|
  {
    if v.NextEnd(kindOf).None? then v
    else
      DeliverShrinks(v, kindOf);
      DeliverAll(Deliver(v, kindOf), kindOf)
  }

  /** The contents of those deliveries, in order. */
  ghost function AllContents(v: Receiver, kindOf: KindOf): seq<seq<byte>>
    decreases |v.stored|
  {
    if v.NextEnd(kindOf).None? then []
    else
      DeliverShrinks(v, kindOf);
      [NextContents(v, kindOf, SUBHEADER_SIZE)] + AllContents(Deliver(v, kindOf), kindOf)
  }

  lemma DeliverStep(v: Receiver, kindOf: KindOf)
    ensures v.NextEnd(kindOf).None? ==> DeliverAll(v, kindOf) == v && AllContents(v, kindOf) == []
    ensures v.NextEnd(kindOf).Some? ==>
      var u := Deliver(v, kindOf);
      && DeliverAll(v, kindOf) == DeliverAll(u, kindOf)
      && AllContents(v, kindOf) == [NextContents(v, kindOf, SUBHEADER_SIZE)] + AllContents(u, kindOf)
      && |u.stored| < |v.stored| && u.drained == u.handled
      && u == v.DeliverTo(v.NextEnd(kindOf).value).(drained := v.NextEnd(kindOf).value)
      && (v.Counters() ==> u.WalkStops(kindOf))
      && (FragmentsReadable(v, kindOf) ==> FragmentsReadable(u, kindOf))
  {
    if v.NextEnd(kindOf).Some? {
      DeliverShrinks(v, kindOf);
      NextEndIsAhead(v, kindOf);
      var u := Deliver(v, kindOf);
      if v.Counters() {
        assert !u.IsIntermediate(kindOf, u.Edge());
      }
    }
  }

  /** Announcements play no part in delivery. */
  lemma AnnounceIsNoise(v: Receiver, kindOf: KindOf, seqNum: uint16)
    ensures var w := v.Announce(seqNum);
      && w.NextEnd(kindOf) == v.NextEnd(kindOf)
      && (v.WalkStops(kindOf) ==> w.WalkStops(kindOf))
      && (FragmentsReadable(v, kindOf) ==> FragmentsReadable(w, kindOf))
  {
    var w := v.Announce(seqNum);
    SameChain(v, w, kindOf, v.handled + 1);
    if v.WalkStops(kindOf) {
      var k :| v.handled < k <= v.Edge() && !v.IsIntermediate(kindOf, k);
      assert !w.IsIntermediate(kindOf, k);
    }
  }

  lemma {:induction false} SameChain(v: Receiver, w: Receiver, kindOf: KindOf, k: int)
    requires w.handled == v.handled && w.ring == v.ring && w.stored == v.stored
    ensures w.ChainEnd(kindOf, k) == v.ChainEnd(kindOf, k)
    decreases v.Edge() + 1 - k
  {
    if k <= v.Edge() && k in v.stored && kindOf(v.stored[k]).IntermediateFragment? {
      SameChain(v, w, kindOf, k + 1);
    }
  }

  /** With nothing deliverable before, the next number is not a stored single message. */
  lemma SettledNext(v: Receiver, kindOf: KindOf)
    requires v.NextEnd(kindOf).None?
    ensures v.handled + 1 in v.stored ==>
      !kindOf(v.stored[v.handled + 1]).NotFragmented? && v.ChainEnd(kindOf, v.handled + 1).None?
  {}

  /** A receive that does not report "ready" has made nothing deliverable. */
  lemma NotReadyIsSettled(v: Receiver, kindOf: KindOf, k: int, message: seq<byte>)
    requires v.NextEnd(kindOf).None? && !v.IsDirect(kindOf, k, message)
    requires var w := v.Received(kindOf, k, message);
      v.IsStoring(kindOf, k, message) && !kindOf(message).NotFragmented? ==> w.ChainEnd(kindOf, w.handled + 1).None?
    ensures v.Received(kindOf, k, message).NextEnd(kindOf).None?
  {
    var w, first := v.Received(kindOf, k, message), v.handled + 1;
    SettledNext(v, kindOf);
    if v.IsStoring(kindOf, k, message) && kindOf(message).NotFragmented? && first in w.stored && w.ChainEnd(kindOf, first).Some? {
      ChainEndIsLast(w, kindOf, first);
      var end := w.ChainEnd(kindOf, first).value;
      forall j | first <= j < end
        ensures v.IsIntermediate(kindOf, j)
      {
        assert w.IsIntermediate(kindOf, j);
      }
      CompleteChainIsFound(v, kindOf, first, end);
      assert false;
    }
  }

  /** With nothing deliverable before, a receive reports "ready" exactly if it delivered its message
      or made something deliverable. */
  lemma ReadyExactly(v: Receiver, kindOf: KindOf, k: int, message: seq<byte>)
    requires v.NextEnd(kindOf).None?
    ensures var w := v.Received(kindOf, k, message);
      v.IsDirect(kindOf, k, message) ||
      (v.IsStoring(kindOf, k, message) && !kindOf(message).NotFragmented? && w.ChainEnd(kindOf, w.handled + 1).Some?)
      <==> w.handled > v.handled || w.NextEnd(kindOf).Some?
  {
    var w := v.Received(kindOf, k, message);
    if v.IsDirect(kindOf, k, message) {
    } else if v.IsStoring(kindOf, k, message) && !kindOf(message).NotFragmented? && w.ChainEnd(kindOf, w.handled + 1).Some? {
      ChainEndIsLast(w, kindOf, w.handled + 1);
    } else {
      NotReadyIsSettled(v, kindOf, k, message);
    }
  }

  /** Deliveries neither lose anything nor make anything up. */
  lemma DeliverKeepsAll(v: Receiver, kindOf: KindOf)
    requires -1 <= v.handled && v.NextEnd(kindOf).Some? && forall j | j in v.stored :: v.handled < j
    ensures forall j | j in Deliver(v, kindOf).stored :: Deliver(v, kindOf).handled < j
    ensures -1 <= Deliver(v, kindOf).handled && forall j :: Has(Deliver(v, kindOf), j) <==> Has(v, j)
  {
    NextEndIsAhead(v, kindOf);
  }

  lemma {:induction false} DeliverAllKeepsAll(v: Receiver, kindOf: KindOf)
    requires -1 <= v.handled && forall j | j in v.stored :: v.handled < j
    ensures forall j :: Has(DeliverAll(v, kindOf), j) <==> Has(v, j)
    decreases |v.stored|
  {
    hide Has, Deliver, Receiver.NextEnd;
    if v.NextEnd(kindOf).Some? {
      DeliverShrinks(v, kindOf);
      DeliverKeepsAll(v, kindOf);
      DeliverAllKeepsAll(Deliver(v, kindOf), kindOf);
    }
  }
}

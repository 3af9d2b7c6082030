/** The steps of the protocol are the contracts of the stream classes: in every safe state the
    calls behind a step meet their preconditions, and have the effect the step says. */
module ProtocolContracts {
  import opened SeqNum
  import opened Memory
  import opened ReliableRing
  import opened SlotGeometry
  import opened OutputWindow
  import opened InputWindow
  import opened InputDelivery
  import opened FragmentChains
  import opened DeliveryOrder
  import opened Protocol

  /** Even with one more message stored, the walk along the fragments comes to an end. */
  lemma WalkAlwaysStops(kindOf: KindOf, r: Receiver, log: seq<seq<byte>>, longest: nat)
    requires Follows(kindOf, r, log) && Chained(kindOf, log, longest) && 1 <= longest <= r.ring.history
    ensures r.WalkStops(kindOf)
  {
    var first := r.handled + 1;
    if first + longest <= |log| {
      assert HasEnd(kindOf, log, first, first + longest);
      var j :| first <= j < first + longest && !kindOf(log[j]).IntermediateFragment?;
      assert !r.IsIntermediate(kindOf, j);
    } else {
      assert !r.IsIntermediate(kindOf, r.handled + longest);
    }
  }

  /** The precondition of InputReliableStream.ReadStream. */
  lemma ReadStreamIsCallable(kindOf: KindOf, w: World, c: Carried)
    requires Safe(kindOf, w) && c in w.net && w.sender.sent - c.number <= SEQ_NUM_MIDSIZE
    ensures w.receiver.drained == w.receiver.handled && w.receiver.NextEnd(kindOf).None?
    ensures var p := Stripped(c.packet, w.sender); var k := Unwrap(w.receiver.handled, p.seqNum);
      && 0 < |p.message| <= w.receiver.ring.Capacity()
      && (k in w.receiver.stored ==> w.receiver.stored[k] == p.message)
      && var t := w.receiver.Received(kindOf, k, p.message);
      t.WalkStops(kindOf) && FragmentsReadable(t, kindOf)
  {
    hide Chained, Completed, Receiver.NextEnd, Receiver.FirstMissing, Wrap, Unwrap, Receiver.WalkStops, AcksOk, Took;
    SafeMeans(kindOf, w, c);
    NumberIsRight(kindOf, w, c.number);
    Distances(kindOf, w);
    var r, log, k := w.receiver, w.sender.Wire(), c.number;
    FollowsAnnounced(kindOf, r, log, Wrap(k), k);
    var a := r.Announce(Wrap(k));
    var t := a.Received(kindOf, k, log[k]);
    TakenFollows(kindOf, a, log, k);
    TookMeans(kindOf, a, t, log, k, if a.IsDirect(kindOf, k, log[k]) then [log[k]] else []);
    WalkAlwaysStops(kindOf, t, log, w.sender.ring.history);
    SameWalk(kindOf, t, r.Received(kindOf, k, log[k]));
  }

  lemma FollowsAnnounced(kindOf: KindOf, r: Receiver, log: seq<seq<byte>>, seqNum: uint16, k: int)
    requires Follows(kindOf, r, log) && r.NextEnd(kindOf).None? && k < |log| && Unwrap(r.announced, seqNum) == k
    ensures Follows(kindOf, r.Announce(seqNum), log) && k <= r.Announce(seqNum).announced
    ensures r.Announce(seqNum).NextEnd(kindOf).None?
  {
    AnnouncedFollows(kindOf, r, log, k, seqNum);
  }

  lemma SameWalk(kindOf: KindOf, t: Receiver, u: Receiver)
    requires t.WalkStops(kindOf) && u.stored == t.stored && u.handled == t.handled && u.ring == t.ring
    ensures u.WalkStops(kindOf)
  {
    var k :| t.handled < k <= t.Edge() && !t.IsIntermediate(kindOf, k);
    assert !u.IsIntermediate(kindOf, k);
  }

  /** The precondition of InputReliableStream.ComputeAcknack; with a sender of at most 16 slots
      the bitmap has room for everything that was announced. */
  lemma ComputeAcknackIsCallable(kindOf: KindOf, w: World)
    requires Safe(kindOf, w)
    ensures w.receiver.drained == w.receiver.handled && w.receiver.FirstMissing() <= w.receiver.Edge()
    ensures w.receiver.FirstMissing() - 1 <= w.receiver.announced
    ensures w.sender.ring.history <= 16 ==> w.receiver.announced < w.receiver.FirstMissing() + 16
  {
    hide Chained, Completed, Receiver.NextEnd, Receiver.FirstMissing;
    Distances(kindOf, w);
  }

  /** What OutputReliableStream.ProcessAcknack needs to free just what was acknowledged. */
  lemma AcksAreInRange(kindOf: KindOf, w: World, i: nat)
    requires Safe(kindOf, w) && w.ackAt <= i < |w.acks|
    ensures OutputWindow.AckInRange(w.sender, w.acks[i].firstUnacked)
  {
    hide Chained, Completed, Receiver.NextEnd, Receiver.FirstMissing, Unwrap, Safe;
    AckIsRight(kindOf, w, i);
  }

  /** The effect of OutputReliableStream.PrepareNextToSend is a sending step. */
  lemma PrepareNextIsSending(v: Sender, m: seq<byte>)
    requires v.Window(m) && v.ring.history > 0 && v.Sendable(m) && SlotBase(v.ring.slotSize, v.ring.history) <= |m|
    ensures var message := v.ring.Message(m, v.sent + 1);
      && v.Sent(m) == SendNext(v, message)
      && v.sent < v.acked + v.ring.history && v.ring.offset < |message| <= v.ring.Capacity()
  {
    hide LenAt, AreaAt, IsPowerOfTwo;
    OutputWindow.WindowMeans(v, m);
    OutputWindow.WindowAt(v, m, v.sent + 1);
    SlotsAreDisjoint(v.ring.slotSize, Slot(v.ring.history, v.sent + 1), v.ring.history);
    PieceIsSlice(v.ring, m, v.sent + 1, 0, v.ring.Len(m, v.sent + 1));
    assert v.ring.Message(m, v.sent + 1) == Piece(v.ring, m, v.sent + 1, 0, v.ring.Len(m, v.sent + 1));
  }

  /** The packets of ResendLost are those of the resending step. */
  lemma {:induction false} LogPacketsAreCarried(s: Sender, first: int, end: int)
    requires 0 <= first <= end <= |s.log|
    ensures forall p :: p in LogPackets(s.log, first, end) <==> exists k | first <= k < end :: CarriedOf(s, k).packet == p
    decreases end - first
  {
    if first < end {
      LogPacketsAreCarried(s, first, end - 1);
      var last := CarriedOf(s, end - 1).packet;
      forall p
        ensures p in LogPackets(s.log, first, end) <==> exists k | first <= k < end :: CarriedOf(s, k).packet == p
      {
        if p == last {
          assert CarriedOf(s, end - 1).packet == p;
        }
      }
    }
  }

  /** Why packets must not be too old: 2^16 - 1 numbers late, one is taken for the next. */
  lemma OldPacketIsMistaken(handled: int)
    ensures Unwrap(handled, Wrap(handled + 1 - SEQ_NUM_SIZE)) == handled + 1
  {
    assert Wrap(handled + 1 - SEQ_NUM_SIZE) == Wrap(handled + 1);
    UnwrapIsUnique(handled, handled + 1);
  }
}

/** Acknowledged is not handled: when the sender frees messages that the receiver has only stored. */
module ProtocolAcks {
  import opened SeqNum
  import opened Memory
  import opened SlotGeometry
  import opened OutputWindow
  import opened InputWindow
  import opened InputDelivery
  import opened FragmentChains
  import opened DeliveryOrder
  import opened Protocol

  /** An acknowledgement goes past what is handled exactly if there are fragments at the front. */
  lemma AckShowsChain(kindOf: KindOf, w: World, nacked: bool)
    requires Safe(kindOf, w)
    ensures AckOf(w.receiver, nacked).number - 1 > w.receiver.handled <==> w.receiver.handled + 1 in w.receiver.stored
    ensures AckOf(w.receiver, nacked).handled == w.receiver.handled
  {
    hide Safe, Wrap;
    Distances(kindOf, w);
    MissingFromIsFirst(w.receiver, w.receiver.handled + 1);
  }

  /** An arriving acknowledgement takes last_acknown past last_handled exactly if it was sent with
      an incomplete chain at the front, and nothing was handled since. */
  lemma AckPassesHandled(kindOf: KindOf, w: World, i: nat)
    requires Safe(kindOf, w) && Enabled(kindOf, w, AckArrives(i))
    ensures var u := Step(kindOf, w, AckArrives(i));
      u.sender.acked > u.receiver.handled <==>
      w.acks[i].number - 1 > w.acks[i].handled && w.acks[i].handled == w.receiver.handled
  {
    hide Chained, Completed, Receiver.NextEnd, Receiver.FirstMissing, Unwrap, Wrap, Sender.Wire;
    AckIsRight(kindOf, w, i);
    var ack, h := w.acks[i], w.receiver.handled;
    assert AcksOk(kindOf, w) && ReceiverOk(kindOf, w);
    assert FromChain(kindOf, w.sender.Wire(), ack) && AtBoundary(kindOf, w.sender.Wire(), h + 1);
    assert !(ack.handled < h < ack.number);
  }

  /** The same over runs. */
  lemma AckPassesHandledInRuns(kindOf: KindOf, w: World, events: seq<Event>, u: World, i: nat)
    requires Initial(w) && Matched(w) && Reaches(kindOf, w, events, u) && Enabled(kindOf, u, AckArrives(i))
    ensures var t := Step(kindOf, u, AckArrives(i));
      t.sender.acked > t.receiver.handled <==>
      u.acks[i].number - 1 > u.acks[i].handled && u.acks[i].handled == u.receiver.handled
  {
    hide Safe, Enabled, Step, Reaches;
    InitialIsSafe(kindOf, w);
    RunIsSafe(kindOf, w, events, u);
    AckPassesHandled(kindOf, u, i);
  }

  /** What lies between the two is stored, and a chain without an end. */
  lemma AckedPastHandled(kindOf: KindOf, w: World)
    requires Safe(kindOf, w)
    ensures forall k | w.receiver.handled < k <= w.sender.acked :: StoredFragment(kindOf, w.receiver, w.sender.Wire(), k)
  {
    Distances(kindOf, w);
    StoredInRow(kindOf, w.receiver, w.sender.Wire(), w.sender.ring.history);
    hide Chained, Completed, Receiver.NextEnd, Receiver.FirstMissing;
  }

  function ByLength(message: seq<byte>): FragmentationInfo {
    if |message| > 4 then IntermediateFragment else NotFragmented
  }

  /** Storing one intermediate fragment with number 0. */
  lemma FirstFragmentIsStored(r: Receiver, message: seq<byte>)
    requires r.handled == r.drained == r.announced == -1 && r.stored == map[] && r.ring.history == 2 && |message| == 5
    ensures var t := AfterRead(ByLength, r, Packet(0, message));
      t == r.(announced := 0, stored := map[0 := message]) && t.FirstMissing() == 1
  {
    var t := r.(announced := 0, stored := map[0 := message]);
    assert r.stored[0 := message] == map[0 := message];
    assert t.ChainEnd(ByLength, 1) == None;
    assert t.MissingFrom(1) == 1;
  }

  lemma OneFragmentIsSendable(s: Sender, message: seq<byte>)
    requires s.log == [] && s.ring.offset == 0 && s.ring.history == 2 && |message| == 5
    ensures var t := SendNext(s, message); t.Wire() == [message] && Chained(ByLength, t.Wire(), 2)
  {
    assert SendNext(s, message).Wire() == [message];
  }

  /** A run in which it happens: one intermediate fragment is sent, stored and acknowledged. */
  lemma AckCanPassHandled() returns (kindOf: KindOf, w: World, events: seq<Event>, u: World)
    ensures Initial(w) && Matched(w) && Reaches(kindOf, w, events, u)
    ensures u.sender.acked > u.receiver.handled
  {
    hide AfterRead, Receiver.FirstMissing, ReadOf, Chained, Sender.Wire, Resent;
    kindOf := ByLength;
    var message: seq<byte> := [0, 0, 0, 0, 1];
    var ring := Ring(24, 2, 0);
    w := World(Sender(ring, -1, -1, 0, []), Receiver(ring, -1, -1, -1, map[], []), {}, {}, [], 0, []);
    var send, arrive, ack := Send(message), Arrive(Carried(0, Packet(0, message)), false, false), AckArrives(0);
    OneFragmentIsSendable(w.sender, message);
    var w1 := Step(kindOf, w, send);
    FirstFragmentIsStored(w.receiver, message);
    var w2 := Step(kindOf, w1, arrive);
    assert w2.acks == [Ack(1, 1, false, -1)];
    u := Step(kindOf, w2, ack);
    events := [send, arrive, ack];
    ReachesInThree(kindOf, w, send, arrive, ack);
  }

  lemma ReachesInThree(kindOf: KindOf, w: World, e1: Event, e2: Event, e3: Event)
    requires Enabled(kindOf, w, e1) && Enabled(kindOf, Step(kindOf, w, e1), e2)
    requires var w2 := Step(kindOf, Step(kindOf, w, e1), e2); Enabled(kindOf, w2, e3)
    ensures var w2 := Step(kindOf, Step(kindOf, w, e1), e2); Reaches(kindOf, w, [e1, e2, e3], Step(kindOf, w2, e3))
  {
    hide Enabled, Step;
    var w1 := Step(kindOf, w, e1);
    var w2 := Step(kindOf, w1, e2);
    assert [e1, e2, e3][1..] == [e2, e3] && [e2, e3][1..] == [e3] && [e3][1..] == [];
    assert Reaches(kindOf, w2, [e3], Step(kindOf, w2, e3));
    assert Reaches(kindOf, w1, [e2, e3], Step(kindOf, w2, e3));
  }
}

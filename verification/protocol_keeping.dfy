/** What the receiver has and the reader gets depends on which packets arrived, not on their order. */
module ProtocolKeeping {
  import opened SeqNum
  import opened Memory
  import opened ReliableRing
  import opened OutputWindow
  import opened InputWindow
  import opened InputDelivery
  import opened FragmentChains
  import opened DeliveryOrder
  import opened Protocol

  /** A packet inside the window, whichever it is, is delivered or stored as it was sent, and nothing
      the receiver has is lost. */
  lemma ArrivalIsKept(kindOf: KindOf, w: World, e: Event)
    requires Safe(kindOf, w) && e.Arrive? && Enabled(kindOf, w, e)
    ensures var k, r, t := e.carried.number, w.receiver, Step(kindOf, w, e).receiver;
      && (forall j :: Has(t, j) <==> Has(r, j) || (j == k && k <= r.handled + r.ring.history))
      && (forall j | Has(t, j) && j > t.handled :: 0 <= j < |w.sender.Wire()| && t.stored[j] == w.sender.Wire()[j])
      && t.delivered <= w.sender.Wire() && |t.delivered| == t.handled + 1
  {
    hide Chained, Completed, Receiver.NextEnd, Receiver.FirstMissing, Receiver.Received, Receiver.Announce, DeliverAll;
    hide NackedIsRight, AcksOk, SenderOk, NetOk, AllContents, Receiver.IsDirect, Unwrap;
    var k, r, p := e.carried.number, w.receiver, Stripped(e.carried.packet, w.sender);
    ReadFollows(kindOf, w, e.carried);
    SafeMeans(kindOf, w, e.carried);
    NumberIsRight(kindOf, w, k);
    Distances(kindOf, w);
    ReceivedFollows(kindOf, r, w.sender.Wire(), k, p.seqNum);
    ReceivedIsKept(r, kindOf, k, p.message);
    var a := r.Received(kindOf, k, p.message);
    AnnounceKeepsAll(a, p.seqNum);
    DeliverAllKeepsAll(a.Announce(p.seqNum), kindOf);
  }

  lemma AnnounceKeepsAll(r: Receiver, seqNum: uint16)
    ensures r.Announce(seqNum).handled == r.handled && forall j :: Has(r.Announce(seqNum), j) <==> Has(r, j)
  {}

  /** The number that a step brings into the window, if it brings one. */
  ghost function Brought(w: World, e: Event): set<int> {
    if e.Arrive? && e.carried.number <= w.receiver.handled + w.receiver.ring.history then {e.carried.number} else {}
  }

  lemma StepKeepsAll(kindOf: KindOf, w: World, e: Event)
    requires Safe(kindOf, w) && Enabled(kindOf, w, e)
    ensures forall j :: Has(Step(kindOf, w, e).receiver, j) <==> Has(w.receiver, j) || j in Brought(w, e)
  {
    hide Safe, AfterRead, ReadOf, Has, Receiver.Announce, NackedIsRight;
    match e
    case Arrive(_, _, _) =>
      ArrivalIsKept(kindOf, w, e);
    case BeatArrives(last, _) =>
      AnnounceKeepsAll(w.receiver, Wrap(last));
    case _ =>
  }

  /** All numbers that were brought into the window during a run. */
  ghost function Arrived(kindOf: KindOf, w: World, events: seq<Event>): set<int>
    decreases |events|
  {
    if events == [] || !Enabled(kindOf, w, events[0]) then {}
    else Brought(w, events[0]) + Arrived(kindOf, Step(kindOf, w, events[0]), events[1..])
  }

  lemma {:induction false} RunKeepsAll(kindOf: KindOf, w: World, events: seq<Event>, u: World)
    requires Safe(kindOf, w) && Reaches(kindOf, w, events, u)
    ensures forall j :: Has(u.receiver, j) <==> Has(w.receiver, j) || j in Arrived(kindOf, w, events)
    decreases |events|
  {
    hide Safe, Enabled, Step, Has, Brought;
    if events != [] {
      StepIsSafe(kindOf, w, events[0]);
      StepKeepsAll(kindOf, w, events[0]);
      RunKeepsAll(kindOf, Step(kindOf, w, events[0]), events[1..], u);
    }
  }

  /** What the reader was given after any run from the start: the messages that are completed before
      the first number f that never came into the window, whatever the order of those that did. */
  lemma ReadIsWhatArrived(kindOf: KindOf, w: World, events: seq<Event>, u: World, f: int)
    requires Initial(w) && Matched(w) && Reaches(kindOf, w, events, u)
    requires 0 <= f && f !in Arrived(kindOf, w, events) && forall j | 0 <= j < f :: j in Arrived(kindOf, w, events)
    ensures f <= |u.sender.Wire()| && u.read == Completed(kindOf, u.sender.Wire(), f)
    ensures forall j :: Has(u.receiver, j) <==> j in Arrived(kindOf, w, events)
  {
    hide Safe, Reaches, Arrived, Receiver.FirstMissing, Receiver.NextEnd, Completed, Chained, Matched, Sender.Wire;
    InitialIsSafe(kindOf, w);
    RunIsSafe(kindOf, w, events, u);
    RunKeepsAll(kindOf, w, events, u);
    NothingAtStart(w);
    SettledAt(kindOf, u, f);
  }

  lemma NothingAtStart(w: World)
    requires Initial(w)
    ensures forall j :: !Has(w.receiver, j)
  {}

  lemma SettledAt(kindOf: KindOf, u: World, f: int)
    requires Safe(kindOf, u) && 0 <= f && !Has(u.receiver, f) && forall j | 0 <= j < f :: Has(u.receiver, j)
    ensures f <= |u.sender.Wire()| && u.read == Completed(kindOf, u.sender.Wire(), f)
  {
    hide Receiver.NextEnd, Completed, Chained, Sender.Wire;
    var r, wire := u.receiver, u.sender.Wire();
    assert f > r.handled;
    Distances(kindOf, u);
    MissingFromIsFirst(r, r.handled + 1);
    assert r.FirstMissing() < f ==> Has(r, r.FirstMissing());
    StoredInRow(kindOf, r, wire, u.sender.ring.history);
    forall k | r.handled < k < f
      ensures 0 <= k < |wire| && kindOf(wire[k]).IntermediateFragment?
    {
      assert StoredFragment(kindOf, r, wire, k);
    }
    NothingCompleted(kindOf, wire, r.handled + 1, f);
  }
}

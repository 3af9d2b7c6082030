/** One loss-free round brings both sides up to date. */
module ProtocolProgress {
  import opened SeqNum
  import opened Memory
  import opened SlotGeometry
  import opened OutputWindow
  import opened InputWindow
  import opened FragmentChains
  import opened DeliveryOrder
  import opened Protocol

  /** events are the arrivals of the packets k, k + 1, ..., in order. */
  ghost predicate Arrivals(s: Sender, k: int, events: seq<Event>) {
    0 <= k && k + |events| == |s.log|
    && forall i | 0 <= i < |events| :: events[i].Arrive? && events[i].kept && events[i].carried == CarriedOf(s, k + i)
  }

  /** A heartbeat arrives, its acknowledgement arrives, everything still missing is resent and
      arrives in order, and the last acknowledgement arrives. */
  ghost predicate IsRound(w: World, events: seq<Event>) {
    var first, n := w.receiver.FirstMissing(), |events|;
    && n >= 4
    && events[0] == Beat
    && events[1].BeatArrives? && events[1].last == w.sender.sent
    && events[2] == AckArrives(|w.acks|)
    && Arrivals(w.sender, first, events[3..n - 1])
    && events[n - 1] == AckArrives(|w.acks| + n - 4)
  }

  lemma {:induction false} ReachesSplit(kindOf: KindOf, w: World, first: seq<Event>, second: seq<Event>, u: World)
      returns (v: World)
    requires Reaches(kindOf, w, first + second, u)
    ensures Reaches(kindOf, w, first, v) && Reaches(kindOf, v, second, u)
    decreases |first|
  {
    hide Enabled, Step;
    if first == [] {
      assert first + second == second;
      v := w;
    } else {
      assert (first + second)[1..] == first[1..] + second;
      v := ReachesSplit(kindOf, Step(kindOf, w, first[0]), first[1..], second, u);
    }
  }

  lemma {:induction false} ReachesJoin(kindOf: KindOf, w: World, first: seq<Event>, v: World,
      second: seq<Event>, u: World)
    requires Reaches(kindOf, w, first, v) && Reaches(kindOf, v, second, u)
    ensures Reaches(kindOf, w, first + second, u)
    decreases |first|
  {
    hide Enabled, Step;
    if first == [] {
      assert first + second == second;
    } else {
      assert (first + second)[1..] == first[1..] + second;
      ReachesJoin(kindOf, Step(kindOf, w, first[0]), first[1..], v, second, u);
    }
  }

  /** The effect of one arrival on what is missing. */
  lemma ArrivalFills(kindOf: KindOf, w: World, e: Event)
    requires Safe(kindOf, w) && e.Arrive? && Enabled(kindOf, w, e)
    requires e.carried.number <= w.receiver.FirstMissing()
    ensures var u := Step(kindOf, w, e);
      && Safe(kindOf, u) && u.sender == w.sender && u.receiver.FirstMissing() > e.carried.number
      && u.acks == w.acks + [AckOf(u.receiver, e.nacked)] && u.ackAt == w.ackAt
  {
    hide Follows, Chained, Completed, Receiver.NextEnd, Receiver.FirstMissing, Wrap, AfterRead, ReadOf, Unwrap, Safe;
    ReadFollows(kindOf, w, e.carried);
    ArriveIsSafe(kindOf, w, e);
  }

  lemma LastAck(kindOf: KindOf, w: World, nacked: bool)
    requires Safe(kindOf, w)
    ensures AckOf(w.receiver, nacked) == Ack(w.receiver.FirstMissing(), Wrap(w.receiver.FirstMissing()), nacked, w.receiver.handled)
    ensures w.receiver.FirstMissing() <= w.sender.sent + 1 == |w.sender.log|
  {
    hide Follows, Chained, Completed, Receiver.NextEnd, Receiver.FirstMissing, Wrap, Safe;
    Distances(kindOf, w);
  }

  /** By induction over the arrivals: in the end nothing is missing, and the last
      acknowledgement says so. */
  lemma {:induction false} ReplayFills(kindOf: KindOf, w: World, k: int, events: seq<Event>, u: World)
    requires Safe(kindOf, w) && Arrivals(w.sender, k, events) && Reaches(kindOf, w, events, u)
    requires k <= w.receiver.FirstMissing()
    ensures Safe(kindOf, u) && u.sender == w.sender && u.ackAt == w.ackAt && w.receiver.FirstMissing() <= |w.sender.log|
    ensures |u.acks| == |w.acks| + |events| && w.acks <= u.acks
    ensures u.receiver.FirstMissing() == |u.sender.log|
    ensures events != [] ==> u.acks[|u.acks| - 1].number == |u.sender.log|
    decreases |events|
  {
    hide Follows, Chained, Completed, Receiver.NextEnd, Receiver.FirstMissing, Wrap, AfterRead, ReadOf, Unwrap;
    hide Safe, Enabled, Step, AckOf;
    LastAck(kindOf, w, true);
    if events != [] {
      var e := events[0];
      var v := Step(kindOf, w, e);
      assert e.carried == CarriedOf(w.sender, k + 0);
      ArrivalFills(kindOf, w, e);
      LastAck(kindOf, v, e.nacked);
      forall i | 0 <= i < |events[1..]|
        ensures events[1..][i].Arrive? && events[1..][i].kept
        ensures events[1..][i].carried == CarriedOf(v.sender, k + 1 + i)
      {
        assert events[i + 1].carried == CarriedOf(w.sender, k + (i + 1));
      }
      ReplayFills(kindOf, v, k + 1, events[1..], u);
    }
  }

  /** The round up to the resends. */
  lemma RoundStarts(kindOf: KindOf, w: World, e: Event)
    requires Safe(kindOf, w) && e.BeatArrives? && e.last == w.sender.sent && w.sender.ring.history <= 16
    requires NackedIsRight(w.receiver.Announce(Wrap(e.last)), e.nacked)
    ensures var w1 := Step(kindOf, w, Beat);
      Enabled(kindOf, w1, e) &&
      var w2 := Step(kindOf, w1, e);
      Enabled(kindOf, w2, AckArrives(|w.acks|)) &&
      var w3 := Step(kindOf, w2, AckArrives(|w.acks|));
      && Safe(kindOf, w3) && w3.sender.log == w.sender.log && w3.sender.sent == w.sender.sent && w3.sender.ring == w.sender.ring
      && w3.receiver.FirstMissing() == w.receiver.FirstMissing() == w3.sender.acked + 1
      && |w3.acks| == |w.acks| + 1 && w3.ackAt == |w.acks| && w3.acks[|w.acks|].number == w.receiver.FirstMissing()
      && (w.receiver.FirstMissing() < |w.sender.log| ==> Resent(w3.sender) <= w3.net)
  {
    hide Follows, Chained, Completed, Receiver.NextEnd, Receiver.FirstMissing, Wrap, Unwrap, Safe, AckOf;
    var w1 := Step(kindOf, w, Beat);
    StepIsSafe(kindOf, w, Beat);
    Distances(kindOf, w);
    NumberIsRight(kindOf, w, e.last);
    SafeFollows(kindOf, w);
    AnnouncedFollows(kindOf, w.receiver, w.sender.Wire(), e.last, Wrap(e.last));
    StepIsSafe(kindOf, w1, e);
    var w2 := Step(kindOf, w1, e);
    LastAck(kindOf, w2, e.nacked);
    AcksStart(kindOf, w);
    StepIsSafe(kindOf, w2, AckArrives(|w.acks|));
    AckIsRight(kindOf, w2, |w.acks|);
  }

  lemma SafeFollows(kindOf: KindOf, w: World)
    requires Safe(kindOf, w)
    ensures Follows(kindOf, w.receiver, w.sender.Wire()) && w.receiver.NextEnd(kindOf).None?
    ensures Chained(kindOf, w.sender.Wire(), w.sender.ring.history)
    ensures -1 <= w.receiver.handled < |w.sender.log|
    ensures w.read == Completed(kindOf, w.sender.Wire(), w.receiver.handled + 1)
  {}

  lemma AcksStart(kindOf: KindOf, w: World)
    requires Safe(kindOf, w)
    ensures w.ackAt <= |w.acks|
  {}

  /** Progress.  However a safe state came about, after one loss-free round the sender is up to
      date and everything is received; unless the log ends inside a chain of fragments,
      everything is also delivered, and the reader has every message. */
  lemma RoundCatchesUp(kindOf: KindOf, w: World, events: seq<Event>, u: World)
    requires Safe(kindOf, w) && w.sender.ring.history <= 16
    requires IsRound(w, events) && Reaches(kindOf, w, events, u)
    ensures u.sender.log == w.sender.log && u.sender.acked == u.sender.sent == w.sender.sent == |w.sender.log| - 1
    ensures u.receiver.FirstMissing() == |u.sender.log|
    ensures AtBoundary(kindOf, u.sender.Wire(), |u.sender.Wire()|) ==>
      u.receiver.delivered == u.sender.Wire() && u.read == Completed(kindOf, u.sender.Wire(), |u.sender.Wire()|)
  {
    hide Follows, Chained, Completed, Receiver.NextEnd, Receiver.FirstMissing, Wrap, Unwrap, Safe, Enabled, Step;
    hide AtBoundary;
    var n, e := |events|, events[1];
    var resends := events[3..n - 1];
    assert events == events[..3] + (resends + [events[n - 1]]);
    var w3 := ReachesSplit(kindOf, w, events[..3], resends + [events[n - 1]], u);
    var w4 := ReachesSplit(kindOf, w3, resends, [events[n - 1]], u);
    ThreeSteps(kindOf, w, e, AckArrives(|w.acks|), events[..3], w3);
    BeatIsRight(kindOf, w, e);
    RoundStarts(kindOf, w, e);
    Distances(kindOf, w3);
    ReplayFills(kindOf, w3, w.receiver.FirstMissing(), resends, w4);
    OneStep(kindOf, w4, events[n - 1], u);
    AckEndsRound(kindOf, w4, u, |w.acks| + n - 4);
    SafeFollows(kindOf, u);
    Distances(kindOf, u);
    if AtBoundary(kindOf, u.sender.Wire(), |u.sender.Wire()|) {
      NothingMissing(kindOf, u.receiver, u.sender.Wire(), u.sender.ring.history);
    }
  }

  lemma BeatIsRight(kindOf: KindOf, w: World, e: Event)
    requires Safe(kindOf, w) && e.BeatArrives? && Enabled(kindOf, Step(kindOf, w, Beat), e)
    ensures NackedIsRight(w.receiver.Announce(Wrap(e.last)), e.nacked)
  {}

  lemma AckEndsRound(kindOf: KindOf, w: World, u: World, i: nat)
    requires Safe(kindOf, w) && w.receiver.FirstMissing() == |w.sender.log|
    requires Enabled(kindOf, w, AckArrives(i)) && u == Step(kindOf, w, AckArrives(i))
    requires w.acks[i].number == |w.sender.log|
    ensures Safe(kindOf, u) && u.sender.acked == u.sender.sent == w.sender.sent == |w.sender.log| - 1
    ensures u.sender.log == w.sender.log && u.receiver == w.receiver
    ensures u.read == w.read && u.sender.ring == w.sender.ring
  {
    hide Follows, Chained, Completed, Receiver.NextEnd, Receiver.FirstMissing, Wrap, Unwrap, Safe;
    AckIsRight(kindOf, w, i);
    Distances(kindOf, w);
    StepIsSafe(kindOf, w, AckArrives(i));
  }

  lemma OneStep(kindOf: KindOf, w: World, e: Event, u: World)
    requires Reaches(kindOf, w, [e], u)
    ensures Enabled(kindOf, w, e) && u == Step(kindOf, w, e)
  {
    hide Enabled, Step;
    assert [e][1..] == [];
  }

  lemma ThreeSteps(kindOf: KindOf, w: World, e: Event, last: Event, events: seq<Event>, u: World)
    requires events == [Beat, e, last]
    ensures Reaches(kindOf, w, events, u) <==>
      Enabled(kindOf, w, Beat) && var w1 := Step(kindOf, w, Beat);
      Enabled(kindOf, w1, e) && var w2 := Step(kindOf, w1, e);
      Enabled(kindOf, w2, last) && u == Step(kindOf, w2, last)
  {
    hide Enabled, Step;
    assert events[1..] == [e, last] && [e, last][1..] == [last] && [last][1..] == [];
    assert Enabled(kindOf, w, Beat) && Enabled(kindOf, Step(kindOf, w, Beat), e) ==>
      Reaches(kindOf, w, events, u) == Reaches(kindOf, Step(kindOf, Step(kindOf, w, Beat), e), [last], u);
  }

  /** The resends can all arrive. */
  lemma {:induction false} ReplayIsPossible(kindOf: KindOf, w: World, k: int) returns (events: seq<Event>, u: World)
    requires Safe(kindOf, w) && w.sender.acked < k <= |w.sender.log| && k <= w.receiver.FirstMissing()
    requires k < |w.sender.log| ==> Resent(w.sender) <= w.net
    ensures Arrivals(w.sender, k, events) && Reaches(kindOf, w, events, u)
    decreases |w.sender.log| - k
  {
    hide Follows, Chained, Completed, Receiver.NextEnd, Receiver.FirstMissing, Wrap, Unwrap, Safe, AfterRead;
    hide ReadOf, AckOf;
    Distances(kindOf, w);
    if k == |w.sender.log| {
      events, u := [], w;
    } else {
      var c := CarriedOf(w.sender, k);
      assert c in Resent(w.sender);
      var t := AfterRead(kindOf, w.receiver, Stripped(c.packet, w.sender));
      var e := Arrive(c, true, t.FirstMissing() <= t.announced);
      assert Enabled(kindOf, w, e);
      ArrivalFills(kindOf, w, e);
      var rest;
      rest, u := ReplayIsPossible(kindOf, Step(kindOf, w, e), k + 1);
      events := [e] + rest;
      assert events[1..] == rest;
    }
  }

  /** From every safe state a loss-free round is possible. */
  lemma RoundIsPossible(kindOf: KindOf, w: World) returns (events: seq<Event>, u: World)
    requires Safe(kindOf, w) && w.sender.ring.history <= 16
    ensures IsRound(w, events) && Reaches(kindOf, w, events, u)
  {
    hide Follows, Chained, Completed, Receiver.NextEnd, Receiver.FirstMissing, Wrap, Unwrap, Safe, Step, AckOf, Resent;
    var r := w.receiver.Announce(Wrap(w.sender.sent));
    var e := BeatArrives(w.sender.sent, r.FirstMissing() <= r.announced);
    RoundStarts(kindOf, w, e);
    var ack := AckArrives(|w.acks|);
    var w3 := Step(kindOf, Step(kindOf, Step(kindOf, w, Beat), e), ack);
    ThreeSteps(kindOf, w, e, ack, [Beat, e, ack], w3);
    Distances(kindOf, w);
    var resends, w4 := ReplayIsPossible(kindOf, w3, w.receiver.FirstMissing());
    ReplayFills(kindOf, w3, w.receiver.FirstMissing(), resends, w4);
    var last := AckArrives(|w.acks| + |resends|);
    u := Step(kindOf, w4, last);
    assert Reaches(kindOf, w4, [last], u) by {
      assert [last][1..] == [];
    }
    ReachesJoin(kindOf, w3, resends, w4, [last], u);
    ReachesJoin(kindOf, w, [Beat, e, ack], w3, resends + [last], u);
    events := [Beat, e, ack] + (resends + [last]);
    assert events[3..|events| - 1] == resends;
  }
}

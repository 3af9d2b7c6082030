/** A loss-free transfer, with the calls of the stream classes: everything is sent, and every packet
    arrives once and in order. */
module ProtocolTransfer {
  import opened SeqNum
  import opened Memory
  import opened ReliableRing
  import opened SlotGeometry
  import opened OutputWindow
  import opened OutputGrant
  import opened OutputStream
  import opened InputStream
  import opened FragmentChains
  import opened Protocol
  import opened ProtocolMemory
  import opened ProtocolTags
  import opened ProtocolArrivals

  import DeliveryOrder
  import InputWindow
  import ProtocolCalls

  /** One more call at the end of a run. */
  lemma {:induction false} RunAppend(kindOf: InputWindow.KindOf, w: World, m: seq<byte>, calls: seq<Call>,
      u: World, n: seq<byte>, c: Call)
    requires RunsTo(kindOf, w, m, calls, u, n) && Possible(kindOf, u, n, c)
    ensures Enabled(kindOf, u, c.event) && RunsTo(kindOf, w, m, calls + [c], Step(kindOf, u, c.event), c.after)
    decreases |calls|
  {
    hide Step, Enabled;
    PossibleMeans(kindOf, u, n, c);
    if calls == [] {
      assert [c][1..] == [];
    } else {
      RunAppend(kindOf, Step(kindOf, w, calls[0].event), calls[0].after, calls[1..], u, n, c);
      assert (calls + [c])[1..] == calls[1..] + [c];
    }
  }

  lemma PossibleMeans(kindOf: InputWindow.KindOf, w: World, m: seq<byte>, c: Call)
    requires Possible(kindOf, w, m, c)
    ensures Enabled(kindOf, w, c.event)
  {}

  ghost predicate NoWrites(calls: seq<Call>) {
    forall i | 0 <= i < |calls| :: !calls[i].event.Write?
  }

  lemma {:induction false} TagsStay(kindOf: InputWindow.KindOf, w: World, m: seq<byte>, calls: seq<Call>, tags: Tags)
    requires NoWrites(calls)
    ensures TagsOfRun(kindOf, w, m, calls, tags) == tags
    decreases |calls|
  {
    hide Step, Enabled;
    if calls != [] && Possible(kindOf, w, m, calls[0]) {
      TagsStay(kindOf, Step(kindOf, w, calls[0].event), calls[0].after, calls[1..], tags);
    }
  }

  /** The kinds fit what is sent, and what is written but not sent yet. */
  ghost predicate SlotsFit(kindOf: InputWindow.KindOf, s: Sender, m: seq<byte>, tags: Tags)
    requires s.ring.history > 0 && |s.log| == s.sent + 1
  {
    forall k | 0 <= k && k in tags :: kindOf(BodyOf(SlotNow(s, m, k), s.ring.offset)) == tags[k]
  }

  /** From s to t slots were sent, as they are. */
  ghost predicate SameSlots(s: Sender, t: Sender, m: seq<byte>)
    requires s.ring.history > 0 && |s.log| == s.sent + 1 && t.ring.history > 0 && |t.log| == t.sent + 1
  {
    forall k | 0 <= k :: SlotNow(t, m, k) == SlotNow(s, m, k)
  }

  lemma SlotsFitSent(kindOf: InputWindow.KindOf, s: Sender, m: seq<byte>, tags: Tags)
    requires s.ring.history > 0 && |s.log| == s.sent + 1 && SlotsFit(kindOf, s, m, tags) && s.sent >= -1
    ensures Fits(kindOf, s.Wire(), tags)
    ensures var t := SendNext(s, s.ring.Message(m, s.sent + 1));
      Fits(kindOf, t.Wire(), tags) && SlotsFit(kindOf, t, m, tags) && SameSlots(s, t, m)
  {
    hide Ring.Message;
    var t := SendNext(s, s.ring.Message(m, s.sent + 1));
    forall k | 0 <= k
      ensures SlotNow(t, m, k) == SlotNow(s, m, k)
    {
      assert k <= s.sent ==> t.log[k] == s.log[k];
    }
  }

  /** The packets from number `first` on are copies under way, in their order. */
  ghost predicate UnderWay(u: World, first: int, packets: seq<Packet>) {
    && 0 <= first && |u.sender.log| == u.sender.sent + 1 && |packets| == u.sender.sent + 1 - first
    && forall k | first <= k <= u.sender.sent ::
         packets[k - first] == CarriedOf(u.sender, k).packet && CarriedOf(u.sender, k) in u.net
  }

  lemma SendStep(kindOf: InputWindow.KindOf, u: World, message: seq<byte>, first: int, packets: seq<Packet>)
    requires Enabled(kindOf, u, Send(message)) && UnderWay(u, first, packets)
    ensures var t := Step(kindOf, u, Send(message));
      && t.sender == SendNext(u.sender, message) && t.receiver == u.receiver && t.read == u.read
      && UnderWay(t, first, packets + [Packet(Wrap(u.sender.sent + 1), message)])
  {
    hide Wrap, Chained, Sender.Wire;
    var t, more := Step(kindOf, u, Send(message)), packets + [Packet(Wrap(u.sender.sent + 1), message)];
    forall k | first <= k <= t.sender.sent
      ensures more[k - first] == CarriedOf(t.sender, k).packet && CarriedOf(t.sender, k) in t.net
    {
      if k <= u.sender.sent {
        assert CarriedOf(t.sender, k) == CarriedOf(u.sender, k);
      }
    }
  }

  /** What holds of a run while its messages are sent. */
  ghost predicate Sending(kindOf: InputWindow.KindOf, w: World, m: seq<byte>, calls: seq<Call>, u: World, tags: Tags) {
    && RunsTo(kindOf, w, m, calls, u, m) && Sound(kindOf, u, m) && Tidy(u.sender, m, tags)
    && u.sender.ring.history > 0 && |u.sender.log| == u.sender.sent + 1 && SlotsFit(kindOf, u.sender, m, tags)
    && u.receiver == w.receiver && u.read == w.read && u.sender.acked == w.sender.acked && u.sender.ring == w.sender.ring
    && |w.sender.log| == w.sender.sent + 1 && SameSlots(w.sender, u.sender, m) && NoWrites(calls)
  }

  lemma StillSending(kindOf: InputWindow.KindOf, w: World, m: seq<byte>, calls: seq<Call>, u: World, tags: Tags,
      c: Call, first: int, packets: seq<Packet>)
    requires Sending(kindOf, w, m, calls, u, tags) && UnderWay(u, first, packets)
    requires Possible(kindOf, u, m, c) && c.event.Send? && c.after == m
    ensures Enabled(kindOf, u, c.event) && Sending(kindOf, w, m, calls + [c], Step(kindOf, u, c.event), tags)
    ensures UnderWay(Step(kindOf, u, c.event), first, packets + [Packet(Wrap(u.sender.sent + 1), c.event.message)])
    ensures var t := Step(kindOf, u, c.event).sender;
      t.sent == u.sender.sent + 1 <= t.acked + t.ring.history && t.acked == u.sender.acked && t.ring == u.sender.ring
  {
    hide RunsTo, Sound, Tidy, SlotsFit, Enabled, Step, UnderWay, Sender.Window, Ring.Message, Ring.Configured, SlotNow;
    CallIsSound(kindOf, u, m, c);
    CallIsTidy(kindOf, u, m, c, tags);
    RunAppend(kindOf, w, m, calls, u, m, c);
    SlotsFitSent(kindOf, u.sender, m, tags);
    SendStep(kindOf, u, c.event.message, first, packets);
    SoundMeans(kindOf, u, m);
  }

  /** Everything that can be sent is. */
  method SendAll(stream: OutputReliableStream, ghost kindOf: InputWindow.KindOf, ghost w: World, ghost tags: Tags)
      returns (packets: seq<Packet>, ghost calls: seq<Call>, ghost u: World)
    requires stream.Valid() && w.sender == stream.View() && Sound(kindOf, w, stream.base.buffer[..])
    requires Tidy(w.sender, stream.base.buffer[..], tags) && SlotsFit(kindOf, w.sender, stream.base.buffer[..], tags)
    modifies stream
    ensures stream.Valid() && stream.View() == u.sender && u.sender.ring.history > 0
    ensures Sending(kindOf, w, stream.base.buffer[..], calls, u, tags) && !u.sender.Sendable(stream.base.buffer[..])
    ensures UnderWay(u, w.sender.sent + 1, packets)
  {
    hide OutputReliableStream.Valid, Sound, Tidy, SlotsFit, RunsTo, Possible, Enabled, Step, UnderWay, Sender.Sendable;
    hide Fits, Sending, Sender.Window, Sender.Wire, Ring.Message, Ring.Len, Tagged, SlotNow, Ring.Configured;
    ghost var m, first := stream.base.buffer[..], w.sender.sent + 1;
    packets, calls, u := [], [], w;
    SendingStarts(kindOf, w, m, tags);
    var more := true;
    while more
      invariant stream.Valid() && stream.base.history > 0 && stream.View() == u.sender
      invariant Sending(kindOf, w, m, calls, u, tags) && UnderWay(u, first, packets)
      invariant u.sender.ring.history == w.sender.ring.history > 0 && u.sender.acked == w.sender.acked
      invariant u.sender.sent <= w.sender.acked + w.sender.ring.history
      invariant !more ==> !u.sender.Sendable(m)
      decreases w.sender.acked + w.sender.ring.history - u.sender.sent, more
    {
      SendingMeans(kindOf, w, m, calls, u, tags);
      SlotsFitSent(kindOf, u.sender, m, tags);
      var packet; ghost var c;
      more, packet, c := ProtocolCalls.Send(stream, kindOf, u, tags);
      if more {
        StillSending(kindOf, w, m, calls, u, tags, c, first, packets);
        packets, calls, u := packets + [packet], calls + [c], Step(kindOf, u, c.event);
      }
    }
  }

  lemma SendingStarts(kindOf: InputWindow.KindOf, w: World, m: seq<byte>, tags: Tags)
    requires Sound(kindOf, w, m) && Tidy(w.sender, m, tags) && SlotsFit(kindOf, w.sender, m, tags)
    ensures Sending(kindOf, w, m, [], w, tags) && UnderWay(w, w.sender.sent + 1, []) && w.sender.ring.history > 0
    ensures w.sender.sent <= w.sender.acked + w.sender.ring.history
  {
    hide Tidy, SlotsFit;
    SoundMeans(kindOf, w, m);
  }

  lemma SendingMeans(kindOf: InputWindow.KindOf, w: World, m: seq<byte>, calls: seq<Call>, u: World, tags: Tags)
    requires Sending(kindOf, w, m, calls, u, tags)
    ensures Sound(kindOf, u, m) && Tidy(u.sender, m, tags) && u.sender.ring.history > 0
    ensures |u.sender.log| == u.sender.sent + 1 && SlotsFit(kindOf, u.sender, m, tags) && u.sender.sent >= -1
    ensures u.sender.ring == w.sender.ring && u.sender.acked == w.sender.acked
  {
    SoundMeans(kindOf, u, m);
  }

  /** What holds of a run while packets arrive: everything before number k is there. */
  ghost predicate Arriving(kindOf: InputWindow.KindOf, w: World, m: seq<byte>, calls: seq<Call>, u: World, k: int) {
    && RunsTo(kindOf, w, m, calls, u, m) && Sound(kindOf, u, m)
    && u.sender == w.sender && u.net == w.net && k <= u.receiver.FirstMissing() && NoWrites(calls)
  }

  lemma StillArriving(kindOf: InputWindow.KindOf, w: World, m: seq<byte>, calls: seq<Call>, u: World, k: int, e: Event)
    requires Arriving(kindOf, w, m, calls, u, k)
    requires Enabled(kindOf, u, e) && e.Arrive? && e.kept && e.carried.number == k
    ensures Arriving(kindOf, w, m, calls + [Call(e, [], m)], Step(kindOf, u, e), k + 1)
  {
    hide RunsTo, Sound, Sender.Window, Ring.Configured, InputWindow.Receiver.FirstMissing, AfterRead, ReadOf;
    SoundMeans(kindOf, u, m);
    var c := Call(e, [], m);
    assert Possible(kindOf, u, m, c);
    CallIsSound(kindOf, u, m, c);
    RunAppend(kindOf, w, m, calls, u, m, c);
    ReadFollows(kindOf, u, e.carried);
  }

  lemma ArrivingStarts(kindOf: InputWindow.KindOf, w: World, m: seq<byte>, first: int, packets: seq<Packet>)
    requires Sound(kindOf, w, m) && first <= w.receiver.FirstMissing() && UnderWay(w, first, packets)
    ensures Arriving(kindOf, w, m, [], w, first)
  {}

  lemma ArrivingMeans(kindOf: InputWindow.KindOf, w: World, m: seq<byte>, calls: seq<Call>, u: World, k: int)
    requires Arriving(kindOf, w, m, calls, u, k)
    ensures Safe(kindOf, u) && u.sender == w.sender && u.net == w.net
  {
    SoundMeans(kindOf, u, m);
  }

  /** Every packet arrives once, in order. */
  method ArriveAll(stream: InputReliableStream, packets: seq<Packet>, offset: nat, ghost first: int,
      ghost kindOf: InputWindow.KindOf, ghost w: World, ghost m: seq<byte>)
      returns (contents: seq<seq<byte>>, ghost calls: seq<Call>, ghost u: World)
    requires stream.Valid() && w.receiver == stream.View() && stream.onGetFragmentationInfo == kindOf
    requires Sound(kindOf, w, m) && offset == w.sender.ring.offset && UnderWay(w, first, packets)
    requires first <= w.receiver.FirstMissing() && w.sender.sent - first <= SEQ_NUM_MIDSIZE
    modifies stream, stream.base.buffer
    ensures Arriving(kindOf, w, m, calls, u, w.sender.sent + 1) && u.read == w.read + contents
  {
    hide InputReliableStream.Valid, Sound, RunsTo, Enabled, Step, Arriving, InputWindow.Receiver.FirstMissing, Safe;
    stream.ValidMeans();
    contents, calls, u := [], [], w;
    ArrivingStarts(kindOf, w, m, first, packets);
    for i := 0 to |packets|
      invariant stream.Valid() && stream.base.history > 0 && u.receiver == stream.View()
      invariant stream.onGetFragmentationInfo == kindOf
      invariant Arriving(kindOf, w, m, calls, u, first + i) && u.read == w.read + contents
    {
      ArrivingMeans(kindOf, w, m, calls, u, first + i);
      ghost var carried := CarriedOf(w.sender, first + i);
      assert packets[first + i - first] == carried.packet;
      var more; ghost var e;
      more, e := ProtocolCalls.Arrive(stream, packets[i].seqNum, BodyOf(packets[i].message, offset), kindOf, u, carried);
      StillArriving(kindOf, w, m, calls, u, first + i, e);
      contents, calls, u := contents + more, calls + [Call(e, [], m)], Step(kindOf, u, e);
    }
  }

  /** After that everything is handled, unless the log ends inside a chain. */
  lemma AllHandled(kindOf: InputWindow.KindOf, w: World, m: seq<byte>, calls: seq<Call>, u: World)
    requires Arriving(kindOf, w, m, calls, u, w.sender.sent + 1)
    requires AtBoundary(kindOf, w.sender.Wire(), |w.sender.Wire()|)
    ensures u.receiver.handled == u.sender.sent && |u.sender.log| == u.sender.sent + 1
    ensures u.read == Completed(kindOf, u.sender.Wire(), |u.sender.Wire()|)
  {
    hide Chained, Completed, InputWindow.Receiver.NextEnd, InputWindow.Receiver.FirstMissing, Sender.Wire;
    SoundMeans(kindOf, u, m);
    Distances(kindOf, u);
    DeliveryOrder.NothingMissing(kindOf, u.receiver, u.sender.Wire(), u.sender.ring.history);
  }

  /** When nothing more can be sent, just the slots in use are sent, and no chain is cut. */
  lemma TaggedIsSent(kindOf: InputWindow.KindOf, s: Sender, m: seq<byte>, tags: Tags)
    requires s.Window(m) && Tidy(s, m, tags) && !s.Sendable(m) && SlotsFit(kindOf, s, m, tags)
    ensures forall k :: k in tags <==> 0 <= k <= s.sent
    ensures AtBoundary(kindOf, s.Wire(), |s.Wire()|)
  {
    hide Ring.Len, Ring.Message, Filled;
    WindowMeans(s, m);
    FlushStops(s, m);
    forall k
      ensures k in tags <==> 0 <= k <= s.sent
    {
      assert k in tags <==> InUse(s, m, k);
    }
    SlotsFitSent(kindOf, s, m, tags);
    if s.sent >= 0 && tags[s.sent].IntermediateFragment? {
      assert false;
    }
  }

  lemma {:induction false} RunConcat(kindOf: InputWindow.KindOf, w: World, m: seq<byte>, a: seq<Call>,
      v: World, l: seq<byte>, b: seq<Call>, u: World, n: seq<byte>)
    requires RunsTo(kindOf, w, m, a, v, l) && RunsTo(kindOf, v, l, b, u, n)
    ensures RunsTo(kindOf, w, m, a + b, u, n)
    decreases |a|
  {
    hide Possible, Step, Enabled;
    if a == [] {
      assert a + b == b;
    } else {
      PossibleMeans(kindOf, w, m, a[0]);
      RunConcat(kindOf, Step(kindOf, w, a[0].event), a[0].after, a[1..], v, l, b, u, n);
      assert (a + b)[1..] == a[1..] + b;
    }
  }

  /** Everything that is written is sent, arrives and is read. */
  method Transfer(sender: OutputReliableStream, receiver: InputReliableStream, ghost kindOf: InputWindow.KindOf,
      ghost w: World, ghost tags: Tags)
      returns (packets: seq<Packet>, contents: seq<seq<byte>>, ghost calls: seq<Call>, ghost u: World)
    requires sender.Valid() && w.sender == sender.View() && Sound(kindOf, w, sender.base.buffer[..])
    requires Tidy(w.sender, sender.base.buffer[..], tags) && SlotsFit(kindOf, w.sender, sender.base.buffer[..], tags)
    requires receiver.Valid() && w.receiver == receiver.View() && receiver.onGetFragmentationInfo == kindOf
    requires w.sender.sent + 1 <= w.receiver.FirstMissing() && receiver.base.buffer != sender.base.buffer
    modifies sender, receiver, receiver.base.buffer
    ensures RunsTo(kindOf, w, sender.base.buffer[..], calls, u, sender.base.buffer[..]) && NoWrites(calls)
    ensures UnderWay(u, w.sender.sent + 1, packets) && u.read == w.read + contents && u.sender.ring == w.sender.ring
    ensures u.sender.ring.history > 0 && SlotsFit(kindOf, u.sender, sender.base.buffer[..], tags)
    ensures |w.sender.log| == w.sender.sent + 1 && SameSlots(w.sender, u.sender, sender.base.buffer[..])
    ensures forall k :: k in tags <==> 0 <= k <= u.sender.sent
    ensures u.receiver.handled == u.sender.sent && u.read == Completed(kindOf, u.sender.Wire(), |u.sender.Wire()|)
  {
    hide OutputReliableStream.Valid, InputReliableStream.Valid, Sound, Tidy, SlotsFit, RunsTo, UnderWay, Sending;
    hide SameSlots, Sender.Sendable, Sender.Window, Sender.Wire, Arriving, Completed;
    hide InputWindow.Receiver.FirstMissing, AtBoundary;
    ghost var m := sender.base.buffer[..];
    ghost var v: World, sends: seq<Call>, arrivals: seq<Call>;
    packets, sends, v := SendAll(sender, kindOf, w, tags);
    SendingMeans(kindOf, w, m, sends, v, tags);
    SendingRuns(kindOf, w, m, sends, v, tags);
    SoundMeans(kindOf, v, m);
    TaggedIsSent(kindOf, v.sender, m, tags);
    contents, arrivals, u := ArriveAll(receiver, packets, sender.offset, w.sender.sent + 1, kindOf, v, m);
    ArrivingMeans(kindOf, v, m, arrivals, u, v.sender.sent + 1);
    ArrivingRuns(kindOf, v, m, arrivals, u, v.sender.sent + 1, w.sender.sent + 1, packets);
    AllHandled(kindOf, v, m, arrivals, u);
    calls := sends + arrivals;
    RunConcat(kindOf, w, m, sends, v, m, arrivals, u, m);
  }

  lemma SendingRuns(kindOf: InputWindow.KindOf, w: World, m: seq<byte>, calls: seq<Call>, u: World, tags: Tags)
    requires Sending(kindOf, w, m, calls, u, tags) && Sound(kindOf, w, m)
    ensures RunsTo(kindOf, w, m, calls, u, m) && NoWrites(calls) && u.receiver == w.receiver && u.read == w.read
    ensures u.sender.sent - w.sender.sent <= SEQ_NUM_MIDSIZE && u.sender.ring.history > 0
    ensures |w.sender.log| == w.sender.sent + 1 && |u.sender.log| == u.sender.sent + 1
    ensures SameSlots(w.sender, u.sender, m)
  {
    hide Tidy, SlotsFit, SameSlots, Safe, RunsTo, Sender.Window;
    SoundMeans(kindOf, w, m);
    SoundMeans(kindOf, u, m);
  }

  lemma ArrivingRuns(kindOf: InputWindow.KindOf, w: World, m: seq<byte>, calls: seq<Call>, u: World, k: int,
      first: int, packets: seq<Packet>)
    requires Arriving(kindOf, w, m, calls, u, k) && UnderWay(w, first, packets)
    ensures RunsTo(kindOf, w, m, calls, u, m) && NoWrites(calls) && UnderWay(u, first, packets)
  {}
}

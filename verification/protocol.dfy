/** The two reliable streams joined by a network that loses, duplicates and reorders.

    A step changes a stream the way the contracts of OutputReliableStream and
    InputReliableStream say; the order of calls is that of srcs/session/session.c.  On the
    wire there are only 16-bit numbers: a step that receives one takes it for the number
    nearest to its own counter. */
module Protocol {
  import opened SeqNum
  import opened Memory
  import opened ReliableRing
  import opened SlotGeometry
  import opened OutputWindow
  import opened InputWindow
  import opened InputDelivery
  import opened FragmentChains
  import opened DeliveryOrder

  /** A copy of a packet under way, with the unbounded number the sender meant. */
  datatype Carried = Carried(number: int, packet: Packet)

  /** An acknowledgement: the number it names, the bits on the wire, and what the receiver had
      handled when it was sent. */
  datatype Ack = Ack(number: int, firstUnacked: uint16, nacked: bool, handled: int)

  datatype World = World(
    sender: Sender,
    receiver: Receiver,
    net: set<Carried>,       // copies of packets under way
    beats: set<int>,         // the last sent numbers of the heartbeats under way
    acks: seq<Ack>,          // every acknowledgement, in the order they were sent
    ackAt: nat,              // acknowledgements keep their order: earlier ones are gone
    read: seq<seq<byte>>)    // what the reader was given

  datatype Event =
    | Write(written: int)
    | Send(message: seq<byte>)
    | Arrive(carried: Carried, kept: bool, nacked: bool)
    | Lose(carried: Carried)
    | Beat
    | BeatArrives(last: int, nacked: bool)
    | AckArrives(i: nat)

  ghost function CarriedOf(s: Sender, k: int): Carried
    requires 0 <= k < |s.log|
  {
    Carried(k, Packet(Wrap(k), s.log[k]))
  }

  ghost function SendNext(s: Sender, message: seq<byte>): Sender {
    s.(sent := s.sent + 1, written := if s.sent + 1 == s.written then s.written + 1 else s.written, log := s.log + [message])
  }

  /** What uxr_process_acknack leaves. */
  ghost function Acknowledged(s: Sender, firstUnacked: uint16): Sender {
    s.(acked := Unwrap(s.acked, firstUnacked) - 1)
  }

  /** The packets of the resend loop. */
  ghost function Resent(s: Sender): set<Carried> {
    set k | 0 <= k < |s.log| && s.acked < k :: CarriedOf(s, k)
  }

  /** What read_message leaves of a packet: the header is gone before read_stream. */
  ghost function Stripped(p: Packet, s: Sender): Packet {
    Packet(p.seqNum, BodyOf(p.message, s.ring.offset))
  }

  /** The receiver after read_stream, and what it gave to the reader. */
  ghost function AfterRead(kindOf: KindOf, r: Receiver, p: Packet): Receiver {
    DeliverAll(r.Received(kindOf, Unwrap(r.handled, p.seqNum), p.message).Announce(p.seqNum), kindOf)
  }

  ghost function ReadOf(kindOf: KindOf, r: Receiver, p: Packet): seq<seq<byte>> {
    var k := Unwrap(r.handled, p.seqNum);
    (if r.IsDirect(kindOf, k, p.message) then [p.message] else [])
    + AllContents(r.Received(kindOf, k, p.message).Announce(p.seqNum), kindOf)
  }

  /** The acknowledgement of uxr_get_first_unacked.  Its answer for a window without an empty slot
      plays no part here, because the first missing number is always inside (see `Distances`). */
  ghost function AckOf(r: Receiver, nacked: bool): Ack {
    Ack(r.FirstMissing(), Wrap(r.FirstMissing()), nacked, r.handled)
  }

  /** Within 16 numbers the bitmap says exactly whether something announced is missing (see
      `InputStream.NackBitmapIsExact`); beyond that nothing is assumed about it. */
  ghost predicate NackedIsRight(r: Receiver, nacked: bool) {
    r.announced < r.FirstMissing() + 16 ==> nacked == (r.FirstMissing() <= r.announced)
  }

  /** Data and heartbeats may be lost, copied and reordered, but nothing arrives that is more
      than 2^15 numbers old; acknowledgements may be lost and copied but keep their order. */
  ghost predicate Enabled(kindOf: KindOf, w: World, e: Event) {
    var s := w.sender;
    match e
    case Write(written) => s.written <= written <= s.acked + s.ring.history
    case Send(message) =>
      && s.sent < s.acked + s.ring.history
      && s.ring.offset < |message| <= s.ring.Capacity()
      && Chained(kindOf, SendNext(s, message).Wire(), s.ring.history)
    case Arrive(c, _, nacked) =>
      && c in w.net && s.sent - c.number <= SEQ_NUM_MIDSIZE
      && NackedIsRight(AfterRead(kindOf, w.receiver, Stripped(c.packet, s)), nacked)
    case Lose(c) => c in w.net
    case Beat => true
    case BeatArrives(last, nacked) =>
      && last in w.beats && s.sent - last <= SEQ_NUM_MIDSIZE
      && NackedIsRight(w.receiver.Announce(Wrap(last)), nacked)
    case AckArrives(i) => w.ackAt <= i < |w.acks|
  }

  ghost function Step(kindOf: KindOf, w: World, e: Event): World
    requires Enabled(kindOf, w, e)
  {
    var s, r := w.sender, w.receiver;
    match e
    case Write(written) => w.(sender := s.(written := written))
    case Send(message) =>
      var t := SendNext(s, message);
      w.(sender := t, net := w.net + {Carried(t.sent, Packet(Wrap(t.sent), message))})
    case Arrive(c, kept, nacked) =>
      var p := Stripped(c.packet, s);
      var t := AfterRead(kindOf, r, p);
      w.(receiver := t, net := if kept then w.net else w.net - {c}, acks := w.acks + [AckOf(t, nacked)],
      read := w.read + ReadOf(kindOf, r, p))
    case Lose(c) => w.(net := w.net - {c})
    case Beat => w.(beats := w.beats + {s.sent})
    case BeatArrives(last, nacked) =>
      var t := r.Announce(Wrap(last));
      w.(receiver := t, acks := w.acks + [AckOf(t, nacked)])
    case AckArrives(i) =>
      var t := Acknowledged(s, w.acks[i].firstUnacked);
      w.(sender := t, net := if w.acks[i].nacked then w.net + Resent(t) else w.net, ackAt := i)
  }

  /** u is reached from w by these events. */
  ghost predicate Reaches(kindOf: KindOf, w: World, events: seq<Event>, u: World)
    decreases |events|
  {
    if events == [] then u == w
    else Enabled(kindOf, w, events[0]) && Reaches(kindOf, Step(kindOf, w, events[0]), events[1..], u)
  }

  /** Two streams just initialised, and nothing under way. */
  ghost predicate Initial(w: World) {
    && w.sender.acked == w.sender.sent == -1 && w.sender.written == 0 && w.sender.log == []
    && w.receiver.handled == w.receiver.drained == w.receiver.announced == -1
    && w.receiver.stored == map[] && w.receiver.delivered == []
    && w.net == {} && w.beats == {} && w.acks == [] && w.ackAt == 0 && w.read == []
  }

  /** The receiver has at least as many slots as the sender, and they are as large. */
  ghost predicate Matched(w: World) {
    && 1 <= w.sender.ring.history <= w.receiver.ring.history <= 0x4000
    && w.sender.ring.Capacity() - w.sender.ring.offset <= w.receiver.ring.Capacity()
  }

  ghost predicate SenderOk(kindOf: KindOf, s: Sender) {
    var holds :=
      && s.Counters() && Chained(kindOf, s.Wire(), s.ring.history)
      && (forall k | 0 <= k < |s.log| :: s.ring.offset < |s.log[k]| <= s.ring.Capacity());
    holds
  }

  ghost predicate ReceiverOk(kindOf: KindOf, w: World) {
    var holds :=
      && Follows(kindOf, w.receiver, w.sender.Wire()) && w.receiver.NextEnd(kindOf).None?
      && 0 <= w.receiver.handled + 1 <= |w.sender.Wire()|
      && w.read == Completed(kindOf, w.sender.Wire(), w.receiver.handled + 1);
    holds
  }

  /** Between what was handled and what was acknowledged there were fragments without an end. */
  ghost predicate FromChain(kindOf: KindOf, log: seq<seq<byte>>, ack: Ack) {
    -1 <= ack.handled < ack.number
    && forall k | ack.handled < k < ack.number :: k < |log| && kindOf(log[k]).IntermediateFragment?
  }

  /** Nothing is acknowledged, or will be, that the receiver does not have. */
  ghost predicate AcksOk(kindOf: KindOf, w: World) {
    var holds :=
      && w.sender.acked < w.receiver.FirstMissing()
      && w.ackAt <= |w.acks|
      && (forall i | w.ackAt <= i < |w.acks| ::
            w.acks[i].firstUnacked == Wrap(w.acks[i].number) && w.sender.acked < w.acks[i].number <= w.receiver.FirstMissing())
      && (forall i | w.ackAt <= i < |w.acks| ::
            w.acks[i].handled <= w.receiver.handled && FromChain(kindOf, w.sender.Wire(), w.acks[i]))
      && (forall i, j | w.ackAt <= i <= j < |w.acks| :: w.acks[i].number <= w.acks[j].number);
    holds
  }

  ghost predicate NetOk(w: World) {
    var holds :=
      && (forall c | c in w.net :: 0 <= c.number < |w.sender.log| && c == CarriedOf(w.sender, c.number))
      && (forall last | last in w.beats :: -1 <= last <= w.sender.sent);
    holds
  }

  /** The invariant of every run. */
  ghost predicate Safe(kindOf: KindOf, w: World) {
    Matched(w) && SenderOk(kindOf, w.sender) && ReceiverOk(kindOf, w) && AcksOk(kindOf, w) && NetOk(w)
  }

  lemma InitialIsSafe(kindOf: KindOf, w: World)
    requires Initial(w) && Matched(w)
    ensures Safe(kindOf, w)
  {
    FirstMissingIs(w.receiver, 0);
    assert Follows(kindOf, w.receiver, w.sender.Wire());
    assert Chained(kindOf, w.sender.Wire(), w.sender.ring.history);
  }

  /** How far the counters of the two sides can be apart. */
  lemma Distances(kindOf: KindOf, w: World)
    requires Safe(kindOf, w)
    ensures w.receiver.ring.history > 0 && w.sender.sent + 1 == |w.sender.log|
    ensures w.receiver.handled < w.receiver.FirstMissing() <= w.receiver.handled + w.sender.ring.history
    ensures w.receiver.FirstMissing() <= w.receiver.Edge()
    ensures w.receiver.FirstMissing() - 1 <= w.receiver.announced <= w.sender.sent
    ensures w.sender.acked < w.receiver.FirstMissing() && w.sender.sent - w.receiver.handled < SEQ_NUM_MIDSIZE
    ensures -1 <= w.sender.acked && w.sender.sent <= w.sender.acked + w.sender.ring.history <= w.sender.acked + 0x4000
  {
    hide Chained, Receiver.FirstMissing, Receiver.NextEnd, Completed;
    SettledHasRoom(kindOf, w.receiver, w.sender.Wire(), w.sender.ring.history);
  }

  /** A packet that is not too old is taken for what it is. */
  lemma NumberIsRight(kindOf: KindOf, w: World, k: int)
    requires Safe(kindOf, w) && -1 <= k <= w.sender.sent && w.sender.sent - k <= SEQ_NUM_MIDSIZE
    ensures Unwrap(w.receiver.handled, Wrap(k)) == k && Unwrap(w.receiver.announced, Wrap(k)) == k
  {
    hide Safe, Unwrap, Wrap, Receiver.FirstMissing;
    Distances(kindOf, w);
    assert w.receiver.handled <= w.receiver.announced;
    UnwrapIsUnique(w.receiver.handled, k);
    UnwrapIsUnique(w.receiver.announced, k);
  }

  lemma AckIsRight(kindOf: KindOf, w: World, i: nat)
    requires Safe(kindOf, w) && w.ackAt <= i < |w.acks|
    ensures Unwrap(w.sender.acked, w.acks[i].firstUnacked) == w.acks[i].number
    ensures w.sender.acked < w.acks[i].number <= w.receiver.FirstMissing() <= w.sender.sent + 1
  {
    hide Unwrap, Wrap, Receiver.FirstMissing, Follows, Chained, Completed, Receiver.NextEnd;
    Distances(kindOf, w);
    UnwrapIsUnique(w.sender.acked, w.acks[i].number);
  }

  lemma WriteIsSafe(kindOf: KindOf, w: World, e: Event)
    requires Safe(kindOf, w) && e.Write? && Enabled(kindOf, w, e)
    ensures Safe(kindOf, Step(kindOf, w, e))
  {
    hide Follows, Chained, Completed, Receiver.NextEnd, Receiver.FirstMissing;
  }

  lemma SendIsSafe(kindOf: KindOf, w: World, e: Event)
    requires Safe(kindOf, w) && e.Send? && Enabled(kindOf, w, e)
    ensures Safe(kindOf, Step(kindOf, w, e))
  {
    hide Follows, Chained, Completed, Receiver.NextEnd, Receiver.FirstMissing, Wrap, AcksOk;
    var s, u := w.sender, Step(kindOf, w, e);
    BodiesGrow(s.log, u.sender.log, s.ring.offset);
    FollowsMore(kindOf, w.receiver, s.Wire(), u.sender.Wire());
    AcksStay(kindOf, w, u);
    assert SenderOk(kindOf, u.sender);
    assert NetOk(u);
  }

  lemma AcksStay(kindOf: KindOf, w: World, u: World)
    requires AcksOk(kindOf, w) && u.receiver == w.receiver && u.acks == w.acks && u.ackAt == w.ackAt
    requires u.sender.acked == w.sender.acked && w.sender.Wire() <= u.sender.Wire()
    ensures AcksOk(kindOf, u)
  {
    hide Sender.Wire, Receiver.FirstMissing, Wrap, FromChain;
    forall i | w.ackAt <= i < |w.acks|
      ensures FromChain(kindOf, u.sender.Wire(), w.acks[i])
    {
      ChainIsStable(kindOf, w.sender.Wire(), u.sender.Wire(), w.acks[i]);
    }
  }

  lemma ChainIsStable(kindOf: KindOf, log: seq<seq<byte>>, more: seq<seq<byte>>, ack: Ack)
    requires FromChain(kindOf, log, ack) && log <= more
    ensures FromChain(kindOf, more, ack)
  {}

  lemma LoseIsSafe(kindOf: KindOf, w: World, e: Event)
    requires Safe(kindOf, w) && (e.Lose? || e.Beat?) && Enabled(kindOf, w, e)
    ensures Safe(kindOf, Step(kindOf, w, e))
  {
    hide Follows, Chained, Completed, Receiver.NextEnd, Receiver.FirstMissing, Wrap;
    assert NetOk(Step(kindOf, w, e));
  }

  /** The receiver moved on, and acknowledges what it has. */
  lemma AckIsSafe(kindOf: KindOf, w: World, r: Receiver, nacked: bool)
    requires Safe(kindOf, w) && r.ring == w.receiver.ring
    requires Follows(kindOf, r, w.sender.Wire()) && r.NextEnd(kindOf).None?
    requires w.receiver.FirstMissing() <= r.FirstMissing() && w.receiver.handled <= r.handled
    ensures AcksOk(kindOf, w.(receiver := r, acks := w.acks + [AckOf(r, nacked)]))
  {
    hide Follows, Chained, Completed, Receiver.NextEnd, Receiver.FirstMissing, Wrap;
    SettledHasRoom(kindOf, r, w.sender.Wire(), w.sender.ring.history);
    AckIsFromChain(kindOf, r, w.sender.Wire(), w.sender.ring.history, nacked);
  }

  lemma AckIsFromChain(kindOf: KindOf, r: Receiver, log: seq<seq<byte>>, longest: nat, nacked: bool)
    requires Follows(kindOf, r, log) && r.NextEnd(kindOf).None? && Chained(kindOf, log, longest)
    requires 1 <= longest <= r.ring.history
    ensures FromChain(kindOf, log, AckOf(r, nacked))
  {
    hide Follows, Chained, Receiver.NextEnd, Receiver.FirstMissing, Wrap;
    FollowsMeans(kindOf, r, log);
    SettledHasRoom(kindOf, r, log, longest);
    StoredInRow(kindOf, r, log, longest);
    forall k | r.handled < k < r.FirstMissing()
      ensures k < |log| && kindOf(log[k]).IntermediateFragment?
    {
      assert StoredFragment(kindOf, r, log, k);
    }
  }

  lemma BeatArrivesIsSafe(kindOf: KindOf, w: World, e: Event)
    requires Safe(kindOf, w) && e.BeatArrives? && Enabled(kindOf, w, e)
    ensures Safe(kindOf, Step(kindOf, w, e))
  {
    hide Follows, Chained, Completed, Receiver.NextEnd, Receiver.FirstMissing, Wrap, AcksOk;
    NumberIsRight(kindOf, w, e.last);
    Distances(kindOf, w);
    AnnouncedFollows(kindOf, w.receiver, w.sender.Wire(), e.last, Wrap(e.last));
    AckIsSafe(kindOf, w, w.receiver.Announce(Wrap(e.last)), e.nacked);
  }

  /** What a reading step does, whichever packet of the network it gets. */
  lemma ReadFollows(kindOf: KindOf, w: World, c: Carried)
    requires Safe(kindOf, w) && c in w.net && w.sender.sent - c.number <= SEQ_NUM_MIDSIZE
    ensures var r, p := w.receiver, Stripped(c.packet, w.sender);
      var t := AfterRead(kindOf, r, p);
      && 0 <= c.number < |w.sender.Wire()| && Unwrap(r.handled, c.packet.seqNum) == c.number
      && p.message == w.sender.Wire()[c.number]
      && Follows(kindOf, t, w.sender.Wire()) && t.NextEnd(kindOf).None? && t.ring == r.ring
      && -1 <= r.handled < |w.sender.Wire()| && -1 <= t.handled < |w.sender.Wire()|
      && t.handled >= r.handled && t.FirstMissing() >= r.FirstMissing() && (c.number == r.FirstMissing() ==> t.FirstMissing() > c.number)
      && t.announced == (if c.number > r.announced then c.number else r.announced)
      && Completed(kindOf, w.sender.Wire(), t.handled + 1) ==
           Completed(kindOf, w.sender.Wire(), r.handled + 1) + ReadOf(kindOf, r, p)
  {
    hide Follows, Chained, Completed, Receiver.NextEnd, Receiver.FirstMissing, Wrap, AfterRead, ReadOf, Unwrap;
    hide Safe, Receiver.Counters, Sender.Counters;
    SafeMeans(kindOf, w, c);
    NumberIsRight(kindOf, w, c.number);
    Distances(kindOf, w);
    ReadInOrder(kindOf, w.receiver, w.sender.Wire(), c.number);
  }

  lemma ReceivedKeepsRing(kindOf: KindOf, r: Receiver, k: int, message: seq<byte>, seqNum: uint16)
    ensures r.Received(kindOf, k, message).Announce(seqNum).ring == r.ring
  {}

  lemma SafeMeans(kindOf: KindOf, w: World, c: Carried)
    requires Safe(kindOf, w) && c in w.net
    ensures 0 <= c.number <= w.sender.sent && |w.sender.log| == w.sender.sent + 1 && c == CarriedOf(w.sender, c.number)
    ensures Follows(kindOf, w.receiver, w.sender.Wire()) && w.receiver.NextEnd(kindOf).None?
    ensures forall k | 0 <= k < |w.sender.Wire()| && !kindOf(w.sender.Wire()[k]).NotFragmented? :: |w.sender.Wire()[k]| > SUBHEADER_SIZE
  {}

  lemma ReadInOrder(kindOf: KindOf, r: Receiver, log: seq<seq<byte>>, k: int)
    requires Follows(kindOf, r, log) && r.NextEnd(kindOf).None? && r.ring.history > 0 && 0 <= k < |log|
    requires Unwrap(r.handled, Wrap(k)) == k == Unwrap(r.announced, Wrap(k)) && r.FirstMissing() <= r.Edge()
    requires forall j | 0 <= j < |log| && !kindOf(log[j]).NotFragmented? :: |log[j]| > SUBHEADER_SIZE
    ensures var p := Packet(Wrap(k), log[k]); var t := AfterRead(kindOf, r, p);
      && Follows(kindOf, t, log) && t.NextEnd(kindOf).None? && t.ring == r.ring
      && -1 <= r.handled < |log| && -1 <= t.handled < |log|
      && t.handled >= r.handled && t.FirstMissing() >= r.FirstMissing() && (k == r.FirstMissing() ==> t.FirstMissing() > k)
      && t.announced == (if k > r.announced then k else r.announced)
      && Completed(kindOf, log, t.handled + 1) == Completed(kindOf, log, r.handled + 1) + ReadOf(kindOf, r, p)
  {
    hide Follows, Receiver.NextEnd, Receiver.FirstMissing, Wrap, DeliverAll, AllContents, Unwrap, Completed;
    hide Receiver.IsDirect, Receiver.Received, Receiver.Announce, Took;
    var w := r.Received(kindOf, k, log[k]).Announce(Wrap(k));
    ReceivedKeepsRing(kindOf, r, k, log[k], Wrap(k));
    ReceivedFollows(kindOf, r, log, k, Wrap(k));
    TookMeans(kindOf, r, w, log, k, if r.IsDirect(kindOf, k, log[k]) then [log[k]] else []);
    DeliverAllFollows(kindOf, w, log);
    FollowsMeans(kindOf, DeliverAll(w, kindOf), log);
  }

  lemma ArriveIsSafe(kindOf: KindOf, w: World, e: Event)
    requires Safe(kindOf, w) && e.Arrive? && Enabled(kindOf, w, e)
    ensures Safe(kindOf, Step(kindOf, w, e))
  {
    hide Follows, Chained, Completed, Receiver.NextEnd, Receiver.FirstMissing, Wrap, AfterRead, ReadOf;
    ReadFollows(kindOf, w, e.carried);
    AckIsSafe(kindOf, w, AfterRead(kindOf, w.receiver, Stripped(e.carried.packet, w.sender)), e.nacked);
    assert NetOk(Step(kindOf, w, e));
  }

  lemma AckArrivesIsSafe(kindOf: KindOf, w: World, e: Event)
    requires Safe(kindOf, w) && e.AckArrives? && Enabled(kindOf, w, e)
    ensures Safe(kindOf, Step(kindOf, w, e))
  {
    hide Follows, Chained, Completed, Receiver.NextEnd, Receiver.FirstMissing, Wrap, Unwrap;
    AckIsRight(kindOf, w, e.i);
    var u := Step(kindOf, w, e);
    assert NetOk(u);
    assert AcksOk(kindOf, u);
  }

  /** Every step keeps the invariant. */
  lemma StepIsSafe(kindOf: KindOf, w: World, e: Event)
    requires Safe(kindOf, w) && Enabled(kindOf, w, e)
    ensures Safe(kindOf, Step(kindOf, w, e))
  {
    hide Safe, Enabled, Step;
    match e
    case Write(_) => WriteIsSafe(kindOf, w, e);
    case Send(_) => SendIsSafe(kindOf, w, e);
    case Arrive(_, _, _) => ArriveIsSafe(kindOf, w, e);
    case Lose(_) => LoseIsSafe(kindOf, w, e);
    case Beat => LoseIsSafe(kindOf, w, e);
    case BeatArrives(_, _) => BeatArrivesIsSafe(kindOf, w, e);
    case AckArrives(_) => AckArrivesIsSafe(kindOf, w, e);
  }

  lemma {:induction false} RunIsSafe(kindOf: KindOf, w: World, events: seq<Event>, u: World)
    requires Safe(kindOf, w) && Reaches(kindOf, w, events, u)
    ensures Safe(kindOf, u)
    decreases |events|
  {
    hide Safe, Enabled, Step;
    if events != [] {
      StepIsSafe(kindOf, w, events[0]);
      RunIsSafe(kindOf, Step(kindOf, w, events[0]), events[1..], u);
    }
  }

  /** End-to-end safety.  After any run the receiver has delivered a prefix of what was sent,
      without gaps or duplicates; the reader got the messages of that prefix, with fragments
      put together; and whatever the sender has freed is delivered, or stored intact. */
  lemma DeliveryIsSafe(kindOf: KindOf, w: World, events: seq<Event>, u: World)
    requires Initial(w) && Matched(w) && Reaches(kindOf, w, events, u)
    ensures u.receiver.delivered <= u.sender.Wire()
    ensures u.read == Completed(kindOf, u.sender.Wire(), |u.receiver.delivered|)
    ensures forall k | 0 <= k <= u.sender.acked && k < |u.sender.Wire()| ::
      k < |u.receiver.delivered| || (k in u.receiver.stored && u.receiver.stored[k] == u.sender.Wire()[k])
  {
    hide Chained, Completed, Receiver.NextEnd, Wrap;
    InitialIsSafe(kindOf, w);
    RunIsSafe(kindOf, w, events, u);
    Distances(kindOf, u);
    MissingFromIsFirst(u.receiver, u.receiver.handled + 1);
  }

  /** Without fragments the reader has exactly a prefix of the log, and the acknowledged number
      never passes the handled one. */
  lemma UnfragmentedDeliveryIsSafe(kindOf: KindOf, w: World, events: seq<Event>, u: World)
    requires Initial(w) && Matched(w) && Reaches(kindOf, w, events, u)
    requires forall k | 0 <= k < |u.sender.Wire()| :: kindOf(u.sender.Wire()[k]).NotFragmented?
    ensures u.read == u.receiver.delivered <= u.sender.Wire()
    ensures u.sender.acked <= u.receiver.handled
  {
    hide Chained, Completed, Wrap;
    DeliveryIsSafe(kindOf, w, events, u);
    InitialIsSafe(kindOf, w);
    RunIsSafe(kindOf, w, events, u);
    Distances(kindOf, u);
    CompletedUnfragmented(kindOf, u.sender.Wire(), u.receiver.handled + 1);
    MissingFromIsFirst(u.receiver, u.receiver.handled + 1);
  }
}

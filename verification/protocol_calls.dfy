/** Calls of the stream classes are steps of the protocol. */
module ProtocolCalls {
  import opened SeqNum
  import opened Memory
  import opened ReliableRing
  import opened SlotGeometry
  import opened OutputWindow
  import opened OutputGrant
  import opened OutputPath
  import opened OutputStream
  import opened InputStream
  import opened Protocol
  import opened ProtocolMemory
  import opened ProtocolTags

  import InputDelivery
  import InputWindow
  import ProtocolContracts

  /** A message that is accepted is a writing step. */
  method Write(stream: OutputReliableStream, message: seq<byte>, ghost kindOf: InputWindow.KindOf, ghost w: World)
      returns (accepted: bool, ghost c: Call)
    requires stream.Valid() && message != [] && w.sender == stream.View() && Sound(kindOf, w, stream.base.buffer[..])
    modifies stream`lastWritten, stream`written, stream.base.buffer
    ensures stream.Valid() && w.sender.ring.Configured()
    ensures accepted == !GrantFor(w.sender, old(stream.base.buffer[..]), |message|).Refused?
    ensures var s, m := w.sender, old(stream.base.buffer[..]); var r := s.ring;
      accepted <==>
        || |message| <= (r.Capacity() - r.offset - SUBHEADER_SIZE) * CountEmpty(r, m, 0, r.history)
        || (CountEmpty(r, m, 0, r.history) > 0 && r.offset + |message| <= r.Capacity())
        || (s.written <= s.acked + r.history && (r.Len(m, s.written) + 3) / 4 * 4 + |message| <= r.Capacity())
    ensures if accepted
      then
        && Possible(kindOf, w, old(stream.base.buffer[..]), c) && c.event.Write?
        && c.message == message && c.after == stream.base.buffer[..]
        && stream.View() == Step(kindOf, w, c.event).sender
      else stream.base.buffer[..] == old(stream.base.buffer[..]) && stream.View() == w.sender
  {
    hide OutputReliableStream.Valid, Sender.Window, GrantFor, MessageWritten, Ring.Configured, Sound, CountEmpty;
    hide Ring.Len;
    ghost var m := stream.base.buffer[..];
    SoundMeans(kindOf, w, m);
    accepted := stream.WriteMessage(message);
    stream.ValidMeans();
    c := Call(Protocol.Beat, message, stream.base.buffer[..]);
    if accepted {
      WriteIsPossible(kindOf, w, m, stream.base.buffer[..], message);
      c := Call(Protocol.Write(GrantFor(w.sender, m, |message|).Last()), message, stream.base.buffer[..]);
    }
  }

  /** A message that is handed out is a sending step, if the receiver will see its kind. */
  method Send(stream: OutputReliableStream, ghost kindOf: InputWindow.KindOf, ghost w: World, ghost tags: Tags)
      returns (dataToSend: bool, packet: Packet, ghost c: Call)
    requires stream.Valid() && w.sender == stream.View() && Sound(kindOf, w, stream.base.buffer[..])
    requires Tidy(w.sender, stream.base.buffer[..], tags)
    requires var m := stream.base.buffer[..];
      w.sender.Sendable(m) ==> Fits(kindOf, SendNext(w.sender, w.sender.ring.Message(m, w.sender.sent + 1)).Wire(), tags)
    modifies stream
    ensures stream.Valid() && dataToSend == w.sender.Sendable(stream.base.buffer[..])
    ensures if dataToSend
      then
        && Possible(kindOf, w, stream.base.buffer[..], c) && c.event.Send? && c.after == stream.base.buffer[..]
        && packet == Packet(Wrap(w.sender.sent + 1), c.event.message)
        && stream.View() == Step(kindOf, w, c.event).sender
      else stream.View() == w.sender
  {
    hide OutputReliableStream.Valid, Sender.Window, Ring.Configured, Sound, Fits, Sender.Sendable, Tidy, Ring.Message;
    ghost var m := stream.base.buffer[..];
    TidyRing(w.sender, m, tags);
    c := Call(Protocol.Beat, [], m);
    if w.sender.Sendable(m) {
      SendIsPossible(kindOf, w, m, tags);
      c := Call(Protocol.Send(w.sender.ring.Message(m, w.sender.sent + 1)), [], m);
    }
    var buffer, length, seqNum;
    dataToSend, buffer, length, seqNum := stream.PrepareNextToSend();
    packet := Packet(seqNum, []);
    if dataToSend {
      packet := Packet(seqNum, stream.base.buffer[buffer..buffer + length]);
    }
  }

  lemma TidyRing(s: Sender, m: seq<byte>, tags: Tags)
    requires Tidy(s, m, tags)
    ensures s.ring.history > 0 && |s.log| == s.sent + 1
  {}

  /** An acknowledgement that may arrive is a step. */
  method Acknowledge(stream: OutputReliableStream, bitmap: uint16, firstUnacked: uint16,
      ghost kindOf: InputWindow.KindOf, ghost w: World, ghost i: nat) returns (ghost c: Call)
    requires stream.Valid() && w.sender == stream.View() && Sound(kindOf, w, stream.base.buffer[..])
    requires Enabled(kindOf, w, AckArrives(i))
    requires w.acks[i].firstUnacked == firstUnacked && w.acks[i].nacked == (bitmap > 0)
    modifies stream, stream.base.buffer
    ensures stream.Valid() && stream.sendLost == w.acks[i].nacked
    ensures Possible(kindOf, w, old(stream.base.buffer[..]), c) && c.event == AckArrives(i)
    ensures c.after == stream.base.buffer[..] && stream.View() == Step(kindOf, w, c.event).sender
  {
    hide OutputReliableStream.Valid, Sender.Window, Ring.Configured, OnlyFreed, AllFreed, AckInRange, Unwrap, Sound;
    hide Possible, Enabled, Step, SameAreas, Safe;
    ghost var m := stream.base.buffer[..];
    SoundMeans(kindOf, w, m);
    AckStep(kindOf, w, i);
    ProtocolContracts.AcksAreInRange(kindOf, w, i);
    stream.ProcessAcknack(bitmap, firstUnacked);
    stream.ValidMeans();
    AckIsPossible(kindOf, w, m, stream.base.buffer[..], i);
    c := Call(AckArrives(i), [], stream.base.buffer[..]);
  }

  lemma AckStep(kindOf: InputWindow.KindOf, w: World, i: nat)
    requires Enabled(kindOf, w, AckArrives(i))
    ensures w.ackAt <= i < |w.acks|
    ensures Step(kindOf, w, AckArrives(i)).sender ==
      w.sender.(acked := Unwrap(w.sender.acked, w.acks[i].firstUnacked) - 1)
  {
    hide Unwrap;
  }

  /** A packet under way that is not too old is a step of the receiver, which is given what the step
      says. */
  method Arrive(stream: InputReliableStream, seqNum: uint16, body: seq<byte>,
      ghost kindOf: InputWindow.KindOf, ghost w: World, ghost carried: Carried)
      returns (contents: seq<seq<byte>>, ghost e: Event)
    requires stream.Valid() && w.receiver == stream.View() && stream.onGetFragmentationInfo == kindOf
    requires Safe(kindOf, w) && carried in w.net && w.sender.sent - carried.number <= SEQ_NUM_MIDSIZE
    requires Packet(seqNum, body) == Stripped(carried.packet, w.sender)
    modifies stream, stream.base.buffer
    ensures stream.Valid() && stream.onGetFragmentationInfo == kindOf
    ensures e.Arrive? && e.carried == carried && e.kept && Enabled(kindOf, w, e)
    ensures stream.View() == Step(kindOf, w, e).receiver && Step(kindOf, w, e).read == w.read + contents
  {
    hide InputReliableStream.Valid, Safe, Unwrap, InputWindow.Receiver.FirstMissing, InputWindow.Receiver.NextEnd;
    hide InputDelivery.DeliverAll, InputDelivery.AllContents, InputDelivery.FragmentsReadable;
    hide InputWindow.Receiver.WalkStops;
    ProtocolContracts.ReadStreamIsCallable(kindOf, w, carried);
    contents := stream.ReadStream(seqNum, body);
    ghost var t := AfterRead(kindOf, w.receiver, Stripped(carried.packet, w.sender));
    e := Protocol.Arrive(carried, true, t.FirstMissing() <= t.announced);
  }

  /** The acknowledgement that the calls of the receiver make up is the one of the protocol. */
  method Answer(stream: InputReliableStream, ghost kindOf: InputWindow.KindOf, ghost w: World)
      returns (bitmap: nat, from: uint16)
    requires stream.Valid() && w.receiver == stream.View() && Safe(kindOf, w) && w.sender.ring.history <= 16
    ensures AckOf(w.receiver, bitmap > 0).firstUnacked == from && bitmap <= 0xFFFF
    ensures bitmap > 0 <==> w.receiver.FirstMissing() <= w.receiver.announced
    ensures NackedIsRight(w.receiver, bitmap > 0)
  {
    hide InputReliableStream.Valid, Safe, InputWindow.Receiver.FirstMissing, InputWindow.Receiver.Window, Bit, Nacked;
    hide LenAt, Ring.Len, Wrap;
    ProtocolContracts.ComputeAcknackIsCallable(kindOf, w);
    stream.ValidMeans();
    bitmap, from := stream.ComputeAcknack();
    NackBitmapIsExact(stream.View(), stream.base.buffer[..], bitmap);
  }

  /** A packet as in `Arrive`, and then the answer of read_stream. */
  method ArriveAndAnswer(stream: InputReliableStream, seqNum: uint16, body: seq<byte>,
      ghost kindOf: InputWindow.KindOf, ghost w: World, ghost carried: Carried)
      returns (contents: seq<seq<byte>>, bitmap: nat, from: uint16, ghost e: Event)
    requires stream.Valid() && w.receiver == stream.View() && stream.onGetFragmentationInfo == kindOf
    requires Safe(kindOf, w) && carried in w.net && w.sender.sent - carried.number <= SEQ_NUM_MIDSIZE
    requires Packet(seqNum, body) == Stripped(carried.packet, w.sender) && w.sender.ring.history <= 16
    modifies stream, stream.base.buffer
    ensures stream.Valid() && e.Arrive? && e.carried == carried && e.kept && Enabled(kindOf, w, e)
    ensures var u := Step(kindOf, w, e);
      && stream.View() == u.receiver && u.read == w.read + contents && Acked(w, u, bitmap, from)
  {
    hide InputReliableStream.Valid, Safe, Enabled, Step, AckOf, NackedIsRight, InputWindow.Receiver.FirstMissing;
    ghost var any;
    contents, any := Arrive(stream, seqNum, body, kindOf, w, carried);
    StepIsSafe(kindOf, w, any);
    SenderStays(kindOf, w, any);
    bitmap, from := Answer(stream, kindOf, Step(kindOf, w, any));
    e := Protocol.Arrive(carried, true, bitmap > 0);
    OtherAnswer(kindOf, w, any, bitmap > 0);
    stream.ValidMeans();
    AckIsAdded(w, Step(kindOf, w, e), stream.View(), bitmap, from);
  }

  /** The step added this acknowledgement, as it goes over the wire. */
  ghost predicate Acked(w: World, u: World, bitmap: nat, from: uint16) {
    && |u.acks| == |w.acks| + 1 && u.acks[..|w.acks|] == w.acks
    && u.acks[|w.acks|].firstUnacked == from && u.acks[|w.acks|].nacked == (bitmap > 0)
  }

  lemma AckIsAdded(w: World, u: World, r: InputWindow.Receiver, bitmap: nat, from: uint16)
    requires u.acks == w.acks + [AckOf(r, bitmap > 0)] && AckOf(r, bitmap > 0).firstUnacked == from
    ensures Acked(w, u, bitmap, from)
  {
    hide InputWindow.Receiver.FirstMissing, Wrap;
  }

  lemma SenderStays(kindOf: InputWindow.KindOf, w: World, e: Event)
    requires Enabled(kindOf, w, e) && (e.Arrive? || e.BeatArrives?)
    ensures Step(kindOf, w, e).sender == w.sender
  {
    hide NackedIsRight, AckOf, AfterRead, ReadOf;
  }

  /** Another answer to the same packet makes no difference to the receiver. */
  lemma OtherAnswer(kindOf: InputWindow.KindOf, w: World, e: Event, nacked: bool)
    requires e.Arrive? && Enabled(kindOf, w, e) && NackedIsRight(Step(kindOf, w, e).receiver, nacked)
    ensures var f := Protocol.Arrive(e.carried, e.kept, nacked);
      && Enabled(kindOf, w, f) && Step(kindOf, w, f).receiver == Step(kindOf, w, e).receiver
      && Step(kindOf, w, f).read == Step(kindOf, w, e).read
      && Step(kindOf, w, f).acks == w.acks + [AckOf(Step(kindOf, w, e).receiver, nacked)]
  {
    hide NackedIsRight, AckOf, AfterRead, ReadOf;
  }

  /** A heartbeat that is not too old, and the answer to it. */
  method HeartbeatArrives(stream: InputReliableStream, first: uint16, last: uint16,
      ghost kindOf: InputWindow.KindOf, ghost w: World, ghost number: int)
      returns (bitmap: nat, from: uint16, ghost e: Event)
    requires stream.Valid() && w.receiver == stream.View() && Safe(kindOf, w) && w.sender.ring.history <= 16
    requires number in w.beats && w.sender.sent - number <= SEQ_NUM_MIDSIZE && last == Wrap(number)
    modifies stream
    ensures stream.Valid() && e == BeatArrives(number, bitmap > 0) && Enabled(kindOf, w, e)
    ensures stream.View() == Step(kindOf, w, e).receiver && Acked(w, Step(kindOf, w, e), bitmap, from)
  {
    hide InputReliableStream.Valid, Safe, AckOf, NackedIsRight, InputWindow.Receiver.FirstMissing, Wrap, Unwrap;
    hide InputWindow.Receiver.Announce;
    stream.ProcessHeartbeat(first, last);
    ghost var any := AnyBeatAnswer(kindOf, w, number);
    StepIsSafe(kindOf, w, any);
    bitmap, from := Answer(stream, kindOf, Step(kindOf, w, any));
    e := BeatArrives(number, bitmap > 0);
    BeatAnswered(kindOf, w, e);
    stream.ValidMeans();
    AckIsAdded(w, Step(kindOf, w, e), stream.View(), bitmap, from);
  }

  lemma BeatAnswered(kindOf: InputWindow.KindOf, w: World, e: Event)
    requires e.BeatArrives? && Enabled(kindOf, w, e)
    ensures Step(kindOf, w, e).acks == w.acks + [AckOf(w.receiver.Announce(Wrap(e.last)), e.nacked)]
  {
    hide NackedIsRight, AckOf;
  }

  lemma AnyBeatAnswer(kindOf: InputWindow.KindOf, w: World, number: int) returns (e: Event)
    requires Safe(kindOf, w) && number in w.beats && w.sender.sent - number <= SEQ_NUM_MIDSIZE
    ensures e.BeatArrives? && e.last == number && Enabled(kindOf, w, e)
    ensures Step(kindOf, w, e).receiver == w.receiver.Announce(Wrap(number)) && Step(kindOf, w, e).sender == w.sender
  {
    hide Safe, Wrap, InputWindow.Receiver.FirstMissing, InputWindow.Receiver.Announce, AckOf;
    var t := w.receiver.Announce(Wrap(number));
    e := BeatArrives(number, t.FirstMissing() <= t.announced);
  }
}

/** Messages that share a slot with fragments, from the writes to what the reader is given. */
module FragmentExamples {
  import opened SeqNum
  import opened Memory
  import opened ReliableRing
  import opened SlotGeometry
  import opened OutputWindow
  import opened OutputGrant
  import opened OutputPath
  import opened OutputStream
  import InputWindow
  import opened InputStream
  import opened FragmentChains
  import opened FragmentSpelling
  import opened Protocol
  import opened ProtocolMemory
  import opened ProtocolMessages
  import opened ProtocolTags
  import opened ProtocolArrivals
  import opened ProtocolTransfer

  import ProtocolCalls

  const NARROW := Ring(24, 4, 4)
  const WIDE := Ring(32, 4, 0)

  /** Nothing sent or acknowledged yet, and slot `open` the one that takes the next message. */
  ghost predicate Unsent(v: Sender, m: seq<byte>, r: Ring, open: int) {
    v.ring == r && v.Window(m) && v.acked == v.sent == -1 && v.written == open
  }

  ghost predicate Lengths(r: Ring, m: seq<byte>, a: nat, b: nat, c: nat)
    requires r.history > 0
  {
    r.Len(m, 0) == a && r.Len(m, 1) == b && r.Len(m, 2) == c
  }

  // Where the messages go

  lemma SeventeenInEmpty(v: Sender, m: seq<byte>)
    requires Unsent(v, m, NARROW, 0) && NARROW.Len(m, 0) == 4
    ensures NARROW.Configured() && GrantFor(v, m, 17) == InFragments(0, 4, 1, 5)
  {
    hide IsPowerOfTwo, LenAt, AreaAt;
    WindowMeans(v, m);
  }

  lemma OneBehindThirteen(v: Sender, m: seq<byte>)
    requires Unsent(v, m, NARROW, 1) && NARROW.Len(m, 1) == 13
    ensures NARROW.Configured() && GrantFor(v, m, 1) == InSlot(1, 16)
  {
    hide IsPowerOfTwo, LenAt, AreaAt;
    WindowMeans(v, m);
  }

  lemma OneInEmpty(v: Sender, m: seq<byte>)
    requires Unsent(v, m, NARROW, 0) && NARROW.Len(m, 0) == 4
    ensures NARROW.Configured() && GrantFor(v, m, 1) == InSlot(0, 4)
  {
    hide IsPowerOfTwo, LenAt, AreaAt;
    WindowMeans(v, m);
  }

  lemma SeventeenBehindFive(v: Sender, m: seq<byte>)
    requires Unsent(v, m, NARROW, 0) && NARROW.Len(m, 0) == 5
    ensures NARROW.Configured() && GrantFor(v, m, 17) == InFragments(0, 8, 1, 9)
  {
    hide IsPowerOfTwo, LenAt, AreaAt;
    WindowMeans(v, m);
  }

  lemma TwentyNineInEmpty(v: Sender, m: seq<byte>)
    requires Unsent(v, m, WIDE, 0) && WIDE.Len(m, 0) == 0
    ensures WIDE.Configured() && GrantFor(v, m, 29) == InFragments(0, 0, 1, 5)
  {
    hide IsPowerOfTwo, LenAt, AreaAt;
    WindowMeans(v, m);
  }

  lemma TwentyNineBehindNine(v: Sender, m: seq<byte>)
    requires Unsent(v, m, WIDE, 1) && WIDE.Len(m, 1) == 9
    ensures WIDE.Configured() && GrantFor(v, m, 29) == InFragments(1, 12, 1, 17)
  {
    hide IsPowerOfTwo, LenAt, AreaAt;
    WindowMeans(v, m);
  }

  /** Two writes, one after the other, with what the protocol makes of them. */
  ghost predicate TwoWrites(kindOf: InputWindow.KindOf, w: World, m: seq<byte>, c1: Call, w1: World, c2: Call,
      w2: World) {
    && Sound(kindOf, w, m) && Tidy(w.sender, m, map[]) && Possible(kindOf, w, m, c1) && c1.event.Write?
    && w1 == Step(kindOf, w, c1.event) && Sound(kindOf, w1, c1.after)
    && Possible(kindOf, w1, c1.after, c2) && c2.event.Write?
    && w2 == Step(kindOf, w1, c2.event) && Sound(kindOf, w2, c2.after)
  }

  ghost function TwoTags(w: World, m: seq<byte>, c1: Call, w1: World, c2: Call): Tags
    requires w.sender.ring.Configured() && w1.sender.ring.Configured()
  {
    TagsAfter(TagsAfter(map[], w, m, c1), w1, c1.after, c2)
  }

  /** What a write leaves of the lengths and the counters. */
  lemma LengthsAfter(kindOf: InputWindow.KindOf, w: World, m: seq<byte>, c: Call, r: Ring)
    requires Sound(kindOf, w, m) && Possible(kindOf, w, m, c) && c.event.Write?
    requires w.sender.ring == r && w.sender.acked == w.sender.sent == -1 && r.history == 4
    ensures r.Configured() && Enabled(kindOf, w, c.event) && |c.message| > 0 && |c.after| == |m|
    ensures var g := GrantOf(w, m, c);
      && !g.Refused? && Unsent(Step(kindOf, w, c.event).sender, c.after, r, g.Last())
      && Lengths(r, c.after, GrantedLen(w.sender, m, |c.message|, g, 0), GrantedLen(w.sender, m, |c.message|, g, 1),
           GrantedLen(w.sender, m, |c.message|, g, 2))
  {
    hide Ring.Configured, GrantFor, Ring.Len, GrantedLen, Sender.Window, Safe, AppendOnly, OthersKept, Payload;
    hide GrantFits;
    GrantIsGood(kindOf, w, m, c);
    var g := GrantOf(w, m, c);
    LengthAt(w.sender, m, c.after, |c.message|, g, 0);
    LengthAt(w.sender, m, c.after, |c.message|, g, 1);
    LengthAt(w.sender, m, c.after, |c.message|, g, 2);
  }

  lemma BehindTheOpenSlot(v: Sender, m: seq<byte>, r: Ring, open: int, k: int)
    requires Unsent(v, m, r, open) && open < k < 4 == r.history
    ensures r.Len(m, k) == r.offset
  {
    hide LenAt, AreaAt, IsPowerOfTwo;
    WindowAt(v, m, k);
  }

  method NewPair(size: nat, offset: nat, kindOf: InputWindow.KindOf)
      returns (sender: OutputReliableStream, receiver: InputReliableStream, ghost w: World)
    requires (size == 96 && offset == 4) || (size == 128 && offset == 0)
    ensures fresh(sender) && fresh(sender.base.buffer) && fresh(receiver) && fresh(receiver.base.buffer)
    ensures sender.Valid() && receiver.Valid() && receiver.onGetFragmentationInfo == kindOf
    ensures sender.base.history > 0 && receiver.base.history > 0 && sender.base.buffer != receiver.base.buffer
    ensures w.sender == sender.View() && w.receiver == receiver.View() && Started(w, sender.base.buffer[..])
    ensures w.sender.ring == Ring(size / 4, 4, offset)
  {
    hide OutputReliableStream.Valid, InputReliableStream.Valid, Sender.Window;
    assert IsPowerOfTwo(2);
    var out, in_ := new byte[size], new byte[size];
    var base, inBase := ReliableStream(out, size, 4), ReliableStream(in_, size, 4);
    LayoutIsGood(base);
    LayoutIsGood(inBase);
    sender := new OutputReliableStream(base, offset);
    receiver := new InputReliableStream(inBase, kindOf);
    sender.ValidMeans();
    receiver.ValidMeans();
    w := World(sender.View(), receiver.View(), {}, {}, [], 0, []);
  }

  /** Two writes on a new stream; the second one may be refused. */
  method WriteTwo(sender: OutputReliableStream, a: seq<byte>, b: seq<byte>, ghost kindOf: InputWindow.KindOf,
      ghost w: World)
      returns (ok: bool, ghost c1: Call, ghost w1: World, ghost c2: Call, ghost w2: World)
    requires sender.Valid() && a != [] && b != [] && w.sender == sender.View() && Started(w, sender.base.buffer[..])
    requires !GrantFor(w.sender, sender.base.buffer[..], |a|).Refused?
    modifies sender, sender.base.buffer
    ensures var m := old(sender.base.buffer[..]);
      && Sound(kindOf, w, m) && Possible(kindOf, w, m, c1) && c1.event.Write? && c1.message == a
      && w1 == Step(kindOf, w, c1.event) && w1.sender.ring.Configured()
      && ok == !GrantFor(w1.sender, c1.after, |b|).Refused?
      && (ok ==> TwoWrites(kindOf, w, m, c1, w1, c2, w2) && c2.message == b && c2.after == sender.base.buffer[..])
      && (ok ==> Tidy(w2.sender, c2.after, TwoTags(w, m, c1, w1, c2)))
    ensures ok ==> sender.Valid() && sender.base.history > 0 && sender.View() == w2.sender && w2.receiver == w.receiver
    ensures ok ==> w2.read == w.read
  {
    hide OutputReliableStream.Valid, Sound, Possible, Step, Enabled, Tidy, GrantFor, Started, TagsAfter;
    ghost var m := sender.base.buffer[..];
    StartIsTidy(kindOf, w, m);
    var accepted;
    accepted, c1 := ProtocolCalls.Write(sender, a, kindOf, w);
    CallIsSound(kindOf, w, m, c1);
    CallIsTidy(kindOf, w, m, c1, map[]);
    WriteLeaves(kindOf, w, c1.event);
    w1 := Step(kindOf, w, c1.event);
    ok, c2 := ProtocolCalls.Write(sender, b, kindOf, w1);
    w2 := w1;
    if ok {
      CallIsSound(kindOf, w1, c1.after, c2);
      CallIsTidy(kindOf, w1, c1.after, c2, TagsAfter(map[], w, m, c1));
      WriteLeaves(kindOf, w1, c2.event);
      w2 := Step(kindOf, w1, c2.event);
    }
  }

  lemma WriteLeaves(kindOf: InputWindow.KindOf, w: World, e: Event)
    requires Enabled(kindOf, w, e) && e.Write?
    ensures Step(kindOf, w, e).receiver == w.receiver && Step(kindOf, w, e).read == w.read
  {}

  lemma UnsentMeans(v: Sender, m: seq<byte>, r: Ring, open: int)
    requires Unsent(v, m, r, open)
    ensures v.ring == r && v.acked == v.sent == -1 && v.Counters() && r.Configured() && |v.log| == 0
  {
    WindowMeans(v, m);
  }

  lemma TwoRuns(kindOf: InputWindow.KindOf, w: World, m: seq<byte>, c1: Call, w1: World, c2: Call, w2: World,
      calls: seq<Call>, u: World)
    requires TwoWrites(kindOf, w, m, c1, w1, c2, w2) && RunsTo(kindOf, w2, c2.after, calls, u, c2.after)
    ensures WrittenThen(kindOf, w, m, c1, [c2] + calls, u, c2.after)
    ensures WrittenThen(kindOf, w1, c1.after, c2, calls, u, c2.after) && |u.sender.log| == u.sender.sent + 1
  {
    hide Sound, Possible, Enabled;
    assert ([c2] + calls)[1..] == calls;
    RunIsSound(kindOf, w2, c2.after, calls, u, c2.after);
    SentIsLogged(kindOf, u, c2.after);
  }

  /** After a transfer the bodies that were sent are those in memory. */
  lemma WireIsMemory(s: Sender, u: Sender, m: seq<byte>, r: Ring, open: int, k: int)
    requires Unsent(s, m, r, open) && r.history == 4 && SlotBase(r.slotSize, 4) <= |m|
    requires u.ring == r && |u.log| == u.sent + 1 && |s.log| == 0 && SameSlots(s, u, m) && 0 <= k <= u.sent && k < 4
    ensures k < |u.Wire()| && u.Wire()[k] == BodyAt(r, m, k) && |u.Wire()[k]| == r.Len(m, k) - r.offset
  {
    hide LenAt, AreaAt, IsPowerOfTwo, Ring.Message;
    WindowAt(s, m, k);
    MessageHasLength(r, m, k);
    assert SlotNow(u, m, k) == SlotNow(s, m, k);
  }

  lemma FitsByLength(kindOf: InputWindow.KindOf, s: Sender, m: seq<byte>, open: int, tags: Tags)
    requires Unsent(s, m, NARROW, open) && SlotBase(24, 4) <= |m| && Lengths(NARROW, m, 20, 17, 4)
    requires forall k | k in tags :: k == 0 || k == 1
    requires forall body | |body| == 16 && 0 in tags :: kindOf(body) == tags[0]
    requires forall body | |body| == 13 && 1 in tags :: kindOf(body) == tags[1]
    ensures |s.log| == s.sent + 1 && SlotsFit(kindOf, s, m, tags)
  {
    hide LenAt, AreaAt, IsPowerOfTwo, Ring.Message;
    WindowMeans(s, m);
    WindowAt(s, m, 0);
    WindowAt(s, m, 1);
    MessageHasLength(NARROW, m, 0);
    MessageHasLength(NARROW, m, 1);
  }

  /** Two writes and the transfer, as one run from the start. */
  lemma TwoRunFits(kindOf: InputWindow.KindOf, w: World, m: seq<byte>, c1: Call, w1: World, c2: Call, w2: World,
      calls: seq<Call>, u: World)
    requires TwoWrites(kindOf, w, m, c1, w1, c2, w2)
    requires RunsTo(kindOf, w2, c2.after, calls, u, c2.after) && NoWrites(calls)
    requires w.sender.ring.Configured() && w1.sender.ring.Configured() && Started(w, m)
    requires u.sender.ring.history > 0 && |u.sender.log| == u.sender.sent + 1
    requires SlotsFit(kindOf, u.sender, c2.after, TwoTags(w, m, c1, w1, c2))
    ensures FittingRun(kindOf, w, m, [c1, c2] + calls, u, c2.after)
  {
    hide Sound, Possible, Enabled, Fits, Step, Started, SlotsFit, TagsAfter;
    RunIsSound(kindOf, w2, c2.after, calls, u, c2.after);
    SentIsLogged(kindOf, u, c2.after);
    SlotsFitSent(kindOf, u.sender, c2.after, TwoTags(w, m, c1, w1, c2));
    TagsStay(kindOf, w2, c2.after, calls, TwoTags(w, m, c1, w1, c2));
    assert ([c1, c2] + calls)[1..] == [c2] + calls && ([c2] + calls)[1..] == calls;
    PossibleMeans(kindOf, w, m, c1);
    PossibleMeans(kindOf, w1, c1.after, c2);
    var tags := TagsAfter(map[], w, m, c1);
    assert TagsOfRun(kindOf, w1, c1.after, [c2] + calls, tags) == TwoTags(w, m, c1, w1, c2);
    assert RunsTo(kindOf, w1, c1.after, [c2] + calls, u, c2.after);
  }

  lemma {:induction false} AloneWithoutWrites(kindOf: InputWindow.KindOf, w: World, m: seq<byte>,
      calls: seq<Call>, u: World)
    requires NoWrites(calls)
    ensures AllAlone(kindOf, w, m, calls, u)
    decreases |calls|
  {
    hide Enabled, Step;
    if calls != [] && Possible(kindOf, w, m, calls[0]) {
      PossibleMeans(kindOf, w, m, calls[0]);
      AloneWithoutWrites(kindOf, Step(kindOf, w, calls[0].event), calls[0].after, calls[1..], u);
    }
  }

  lemma TwoAlone(kindOf: InputWindow.KindOf, w: World, m: seq<byte>, c1: Call, w1: World, c2: Call, w2: World,
      calls: seq<Call>, u: World)
    requires TwoWrites(kindOf, w, m, c1, w1, c2, w2) && NoWrites(calls)
    requires w.sender.ring.Configured() && w1.sender.ring.Configured()
    requires Handled(w, m, c1, u) && Handled(w1, c1.after, c2, u)
    ensures AllAlone(kindOf, w, m, [c1, c2] + calls, u) <==>
      StartsAlone(w.sender.ring.offset, GrantOf(w, m, c1)) && StartsAlone(w1.sender.ring.offset, GrantOf(w1, c1.after, c2))
  {
    hide Sound, Possible, Enabled, Step, StartsAlone, GrantOf;
    AloneWithoutWrites(kindOf, w2, c2.after, calls, u);
    assert ([c1, c2] + calls)[1..] == [c2] + calls && ([c2] + calls)[1..] == calls;
    PossibleMeans(kindOf, w, m, c1);
    PossibleMeans(kindOf, w1, c1.after, c2);
  }

  // A byte behind the last fragment

  function LateKinds(body: seq<byte>): InputWindow.FragmentationInfo {
    if |body| == 16 then InputWindow.IntermediateFragment else InputWindow.LastFragment
  }

  lemma LateGrants(w: World, m: seq<byte>, c1: Call, w1: World)
    requires Sound(LateKinds, w, m) && Unsent(w.sender, m, NARROW, 0) && NARROW.Len(m, 0) == 4
    requires Possible(LateKinds, w, m, c1) && c1.event.Write? && |c1.message| == 17
    requires w1 == Step(LateKinds, w, c1.event)
    ensures NARROW.Configured() && GrantOf(w, m, c1) == InFragments(0, 4, 1, 5)
    ensures Unsent(w1.sender, c1.after, NARROW, 1) && Lengths(NARROW, c1.after, 20, 13, 4)
    ensures GrantFor(w1.sender, c1.after, 1) == InSlot(1, 16)
  {
    hide Sound, Possible, Step, Enabled, GrantFor, Unsent, Ring.Len, IsPowerOfTwo;
    UnsentMeans(w.sender, m, NARROW, 0);
    SeventeenInEmpty(w.sender, m);
    LengthsAfter(LateKinds, w, m, c1, NARROW);
    BehindTheOpenSlot(w.sender, m, NARROW, 0, 2);
    OneBehindThirteen(w1.sender, c1.after);
  }

  /** What the second write leaves. */
  lemma LateWrites(w: World, m: seq<byte>, c1: Call, w1: World, c2: Call, w2: World)
    requires TwoWrites(LateKinds, w, m, c1, w1, c2, w2) && Unsent(w.sender, m, NARROW, 0) && NARROW.Len(m, 0) == 4
    requires |c1.message| == 17 && |c2.message| == 1
    ensures NARROW.Configured() && w.sender.ring == w1.sender.ring == NARROW
    ensures GrantOf(w, m, c1) == InFragments(0, 4, 1, 5) && GrantOf(w1, c1.after, c2) == InSlot(1, 16)
    ensures Unsent(w2.sender, c2.after, NARROW, 1)
    ensures Lengths(NARROW, c2.after, 20, 17, 4) && SlotBase(24, 4) <= |c2.after|
    ensures TwoTags(w, m, c1, w1, c2) == map[0 := InputWindow.IntermediateFragment, 1 := InputWindow.LastFragment]
    ensures Sound(LateKinds, w2, c2.after) && w2.sender.sent == -1 && |w2.sender.log| == 0
    ensures SlotsFit(LateKinds, w2.sender, c2.after, TwoTags(w, m, c1, w1, c2))
  {
    hide Sound, Possible, Step, Enabled, GrantFor, Unsent, Ring.Len, IsPowerOfTwo, Tidy, SlotsFit;
    LateGrants(w, m, c1, w1);
    UnsentMeans(w.sender, m, NARROW, 0);
    UnsentMeans(w1.sender, c1.after, NARROW, 1);
    LengthsAfter(LateKinds, w1, c1.after, c2, NARROW);
    UnsentMeans(w2.sender, c2.after, NARROW, 1);
    SoundMeans(LateKinds, w2, c2.after);
    FitsByLength(LateKinds, w2.sender, c2.after, 1, TwoTags(w, m, c1, w1, c2));
  }

  lemma LateContents(w: World, m: seq<byte>, c1: Call, w1: World, c2: Call, w2: World, calls: seq<Call>, u: World)
    requires TwoWrites(LateKinds, w, m, c1, w1, c2, w2) && Unsent(w.sender, m, NARROW, 0) && NARROW.Len(m, 0) == 4
    requires |c1.message| == 17 && |c2.message| == 1 && RunsTo(LateKinds, w2, c2.after, calls, u, c2.after)
    requires w.sender.ring.Configured() && w1.sender.ring.Configured() && u.sender.ring == NARROW
    requires forall k :: k in TwoTags(w, m, c1, w1, c2) <==> 0 <= k <= u.sender.sent
    requires |w2.sender.log| == w2.sender.sent + 1 && w2.sender.ring.history > 0 && |u.sender.log| == u.sender.sent + 1
    requires SameSlots(w2.sender, u.sender, c2.after)
    requires u.read == Completed(LateKinds, u.sender.Wire(), |u.sender.Wire()|)
    ensures u.sender.sent == 1
    ensures |u.read| == 1 && |u.read[0]| == 21 && u.read[0][..17] == c1.message && u.read[0][20] == c2.message[0]
  {
    hide Sound, Possible, Step, Enabled, GrantFor, Unsent, Ring.Len, IsPowerOfTwo, Tidy, SlotsFit, Joined, SameSlots;
    hide Sender.Wire, WrittenThen, StartsIn, RunsTo, TwoWrites, GrantOf, TwoTags;
    LateWrites(w, m, c1, w1, c2, w2);
    TwoRuns(LateKinds, w, m, c1, w1, c2, w2, calls, u);
    assert 1 in TwoTags(w, m, c1, w1, c2) && 2 !in TwoTags(w, m, c1, w1, c2);
    WireIsMemory(w2.sender, u.sender, c2.after, NARROW, 1, 0);
    WireIsMemory(w2.sender, u.sender, c2.after, NARROW, 1, 1);
    FragmentsOnTheWire(LateKinds, w, m, c1, [c2] + calls, u, c2.after);
    AppendedIsSent(LateKinds, w1, c1.after, c2, calls, u, c2.after);
    var wire := u.sender.Wire();
    ChainIsCompleted(LateKinds, wire);
    LateBytes(wire, Joined(wire[0..2]), c1.message, c2.message);
  }

  lemma LateBytes(wire: seq<seq<byte>>, joined: seq<byte>, message: seq<byte>, late: seq<byte>)
    requires |wire| == 2 && |wire[0]| == 16 && |wire[1]| == 13 && |message| == 17 && |late| == 1
    requires joined == wire[0][4..4] + message + wire[1][9..] && wire[1][12..13] == late
    ensures |joined| == 21 && joined[..17] == message && joined[20] == late[0]
  {
    assert wire[1][12..13][0] == wire[1][12];
  }

  lemma ChainIsCompleted(kindOf: InputWindow.KindOf, wire: seq<seq<byte>>)
    requires |wire| >= 2 && kindOf(wire[0]).IntermediateFragment? && kindOf(wire[1]).LastFragment?
    ensures Completed(kindOf, wire, 2) == [Joined(wire[0..2])]
  {
    hide Joined;
    NothingCompleted(kindOf, wire, 0, 1);
  }

  /** One byte written behind the last fragment, before that is sent, comes to the reader as the end
      of the fragmented message. */
  method LateWriteIsJoined(message: seq<byte>, late: byte)
      returns (contents: seq<seq<byte>>, ghost w: World, ghost m: seq<byte>, ghost run: seq<Call>, ghost u: World)
    requires |message| == 17
    ensures |contents| == 1 && |contents[0]| == 21 && contents[0][..17] == message && contents[0][20] == late
    ensures |run| >= 2 && run[0].message == message && run[1].message == [late] && u.read == contents
    ensures FittingRun(LateKinds, w, m, run, u, run[1].after) && AllArrive(LateKinds, w, m, run, u)
  {
    hide OutputReliableStream.Valid, InputReliableStream.Valid, Sound, Possible, Step, Enabled, GrantFor, Unsent;
    hide Ring.Len;
    hide IsPowerOfTwo, Tidy, SlotsFit, SameSlots, Sender.Wire, RunsTo, TwoWrites, GrantOf, UnderWay, Completed;
    hide TwoTags, Started;
    hide FittingRun, AllArrive, AllAlone, NoWrites;
    var sender, receiver;
    sender, receiver, w := NewPair(96, 4, LateKinds);
    m := sender.base.buffer[..];
    StartIsUnsent(w, m, NARROW);
    SeventeenInEmpty(w.sender, m);
    var ok; ghost var c1, w1, c2, w2;
    ok, c1, w1, c2, w2 := WriteTwo(sender, message, [late], LateKinds, w);
    LateGrants(w, m, c1, w1);
    LateWrites(w, m, c1, w1, c2, w2);
    var packets; ghost var calls;
    packets, contents, calls, u := Transfer(sender, receiver, LateKinds, w2, TwoTags(w, m, c1, w1, c2));
    run := [c1, c2] + calls;
    TwoRuns(LateKinds, w, m, c1, w1, c2, w2, calls, u);
    LateContents(w, m, c1, w1, c2, w2, calls, u);
    TwoRunFits(LateKinds, w, m, c1, w1, c2, w2, calls, u);
    TwoAlone(LateKinds, w, m, c1, w1, c2, w2, calls, u);
    AllMessagesArrive(LateKinds, w, m, run, u, c2.after);
  }

  lemma StartIsUnsent(w: World, m: seq<byte>, r: Ring)
    requires Started(w, m) && w.sender.ring == r
    ensures Unsent(w.sender, m, r, 0) && r.history > 0 && r.Len(m, 0) == r.offset && w.read == []
    ensures w.receiver.FirstMissing() == 0
  {
    hide LenAt, AreaAt;
  }

  // A byte before the first fragment

  function EarlyKinds(body: seq<byte>): InputWindow.FragmentationInfo {
    if |body| == 16 then InputWindow.NotFragmented else InputWindow.LastFragment
  }

  lemma EarlyGrants(w: World, m: seq<byte>, c1: Call, w1: World)
    requires Sound(EarlyKinds, w, m) && Unsent(w.sender, m, NARROW, 0) && NARROW.Len(m, 0) == 4
    requires Possible(EarlyKinds, w, m, c1) && c1.event.Write? && |c1.message| == 1
    requires w1 == Step(EarlyKinds, w, c1.event)
    ensures NARROW.Configured() && GrantOf(w, m, c1) == InSlot(0, 4)
    ensures Unsent(w1.sender, c1.after, NARROW, 0) && Lengths(NARROW, c1.after, 5, 4, 4)
    ensures GrantFor(w1.sender, c1.after, 17) == InFragments(0, 8, 1, 9)
  {
    hide Sound, Possible, Step, Enabled, GrantFor, Unsent, Ring.Len, IsPowerOfTwo;
    UnsentMeans(w.sender, m, NARROW, 0);
    OneInEmpty(w.sender, m);
    LengthsAfter(EarlyKinds, w, m, c1, NARROW);
    BehindTheOpenSlot(w.sender, m, NARROW, 0, 1);
    BehindTheOpenSlot(w.sender, m, NARROW, 0, 2);
    SeventeenBehindFive(w1.sender, c1.after);
  }

  lemma EarlyWrites(w: World, m: seq<byte>, c1: Call, w1: World, c2: Call, w2: World)
    requires TwoWrites(EarlyKinds, w, m, c1, w1, c2, w2) && Unsent(w.sender, m, NARROW, 0) && NARROW.Len(m, 0) == 4
    requires |c1.message| == 1 && |c2.message| == 17
    ensures NARROW.Configured() && w.sender.ring == w1.sender.ring == NARROW
    ensures GrantOf(w, m, c1) == InSlot(0, 4) && GrantOf(w1, c1.after, c2) == InFragments(0, 8, 1, 9)
    ensures Unsent(w2.sender, c2.after, NARROW, 1)
    ensures Lengths(NARROW, c2.after, 20, 17, 4) && SlotBase(24, 4) <= |c2.after|
    ensures TwoTags(w, m, c1, w1, c2) == map[0 := InputWindow.NotFragmented, 1 := InputWindow.LastFragment]
    ensures Sound(EarlyKinds, w2, c2.after) && w2.sender.sent == -1 && |w2.sender.log| == 0
    ensures SlotsFit(EarlyKinds, w2.sender, c2.after, TwoTags(w, m, c1, w1, c2))
  {
    hide Sound, Possible, Step, Enabled, GrantFor, Unsent, Ring.Len, IsPowerOfTwo, Tidy, SlotsFit;
    EarlyGrants(w, m, c1, w1);
    UnsentMeans(w.sender, m, NARROW, 0);
    UnsentMeans(w1.sender, c1.after, NARROW, 0);
    LengthsAfter(EarlyKinds, w1, c1.after, c2, NARROW);
    UnsentMeans(w2.sender, c2.after, NARROW, 1);
    SoundMeans(EarlyKinds, w2, c2.after);
    FitsByLength(EarlyKinds, w2.sender, c2.after, 1, TwoTags(w, m, c1, w1, c2));
  }

  lemma EarlyContents(w: World, m: seq<byte>, c1: Call, w1: World, c2: Call, w2: World, calls: seq<Call>, u: World)
    requires TwoWrites(EarlyKinds, w, m, c1, w1, c2, w2) && Unsent(w.sender, m, NARROW, 0) && NARROW.Len(m, 0) == 4
    requires |c1.message| == 1 && |c2.message| == 17 && RunsTo(EarlyKinds, w2, c2.after, calls, u, c2.after)
    requires w.sender.ring.Configured() && w1.sender.ring.Configured() && u.sender.ring == NARROW
    requires forall k :: k in TwoTags(w, m, c1, w1, c2) <==> 0 <= k <= u.sender.sent
    requires |w2.sender.log| == w2.sender.sent + 1 && w2.sender.ring.history > 0 && |u.sender.log| == u.sender.sent + 1
    requires SameSlots(w2.sender, u.sender, c2.after)
    requires u.read == Completed(EarlyKinds, u.sender.Wire(), |u.sender.Wire()|)
    ensures u.sender.sent == 1 && |u.sender.Wire()| == 2 && |u.sender.Wire()[0]| == 16
    ensures var body := u.sender.Wire()[0];
      && body[0] == c1.message[0] && body[8..] == c2.message[..8] && u.read == [body, c2.message[8..]]
      && Joined(u.sender.Wire()[0..2]) == body[4..8] + c2.message
  {
    hide Sound, Possible, Step, Enabled, GrantFor, Unsent, Ring.Len, IsPowerOfTwo, Tidy, SlotsFit, Joined, SameSlots;
    hide Sender.Wire, WrittenThen, StartsIn, RunsTo, TwoWrites, GrantOf, TwoTags;
    EarlyWrites(w, m, c1, w1, c2, w2);
    TwoRuns(EarlyKinds, w, m, c1, w1, c2, w2, calls, u);
    assert 1 in TwoTags(w, m, c1, w1, c2) && 2 !in TwoTags(w, m, c1, w1, c2);
    WireIsMemory(w2.sender, u.sender, c2.after, NARROW, 1, 0);
    WireIsMemory(w2.sender, u.sender, c2.after, NARROW, 1, 1);
    AppendedIsSent(EarlyKinds, w, m, c1, [c2] + calls, u, c2.after);
    FragmentsOnTheWire(EarlyKinds, w1, c1.after, c2, calls, u, c2.after);
    PiecesOnTheWire(EarlyKinds, w1, c1.after, c2, calls, u, c2.after);
    var wire := u.sender.Wire();
    EarlyBytes(wire, c1.message, c2.message);
    SingleThenLast(EarlyKinds, wire);
  }

  lemma EarlyBytes(wire: seq<seq<byte>>, earlier: seq<byte>, message: seq<byte>)
    requires |wire| == 2 && |wire[0]| == 16 && |wire[1]| == 13 && |message| == 17 && |earlier| == 1
    requires wire[0][0..1] == earlier
    ensures wire[0][0] == earlier[0]
    ensures wire[0][4..8] + message + wire[1][13..] == wire[0][4..8] + message
    ensures message[8..] + wire[1][13..] == message[8..]
  {
    assert wire[0][0..1][0] == wire[0][0];
    assert wire[1][13..] == [];
  }

  lemma SingleThenLast(kindOf: InputWindow.KindOf, wire: seq<seq<byte>>)
    requires |wire| >= 2 && kindOf(wire[0]).NotFragmented? && kindOf(wire[1]).LastFragment?
    ensures Completed(kindOf, wire, 2) == [wire[0], Joined(wire[1..2])]
  {
    hide Joined;
    assert Completed(kindOf, wire, 0) == [];
    assert Completed(kindOf, wire, 1) == [wire[0]];
    assert ChainStart(kindOf, wire, 1) == 1;
  }

  /** A message of 17 bytes behind one byte that was not sent yet: the reader gets the first slot as
      it is, with the byte and the first eight bytes of the message, and then the other nine.  Put
      together as fragments the two bodies would lose the byte, which lies where the subheader of
      the first one should be. */
  method EarlierWriteSplits(message: seq<byte>, earlier: byte)
      returns (packets: seq<Packet>, joined: seq<byte>, contents: seq<seq<byte>>)
    requires |message| == 17
    ensures |packets| == 2 && |packets[0].message| == 20
    ensures var body := packets[0].message[4..];
      && body[0] == earlier && body[8..] == message[..8] && contents == [body, message[8..]]
      && joined == body[4..8] + message
  {
    hide OutputReliableStream.Valid, InputReliableStream.Valid, Sound, Possible, Step, Enabled, GrantFor, Unsent;
    hide Ring.Len;
    hide IsPowerOfTwo, Tidy, SlotsFit, SameSlots, RunsTo, TwoWrites, GrantOf, UnderWay, Completed, TwoTags, Joined;
    hide Sender.Wire;
    var sender, receiver; ghost var w;
    sender, receiver, w := NewPair(96, 4, EarlyKinds);
    ghost var m := sender.base.buffer[..];
    StartIsUnsent(w, m, NARROW);
    OneInEmpty(w.sender, m);
    var ok; ghost var c1, w1, c2, w2;
    ok, c1, w1, c2, w2 := WriteTwo(sender, [earlier], message, EarlyKinds, w);
    EarlyGrants(w, m, c1, w1);
    EarlyWrites(w, m, c1, w1, c2, w2);
    ghost var calls, u;
    packets, contents, calls, u := Transfer(sender, receiver, EarlyKinds, w2, TwoTags(w, m, c1, w1, c2));
    TwoRuns(EarlyKinds, w, m, c1, w1, c2, w2, calls, u);
    EarlyContents(w, m, c1, w1, c2, w2, calls, u);
    TwoPackets(u, packets);
    joined := Joined([BodyOf(packets[0].message, 4), BodyOf(packets[1].message, 4)]);
  }

  lemma TwoPackets(u: World, packets: seq<Packet>)
    requires UnderWay(u, 0, packets) && u.sender.sent == 1 && u.sender.ring == NARROW
    requires |u.sender.Wire()| == 2 && |u.sender.Wire()[0]| == 16
    ensures |packets| == 2 && |packets[0].message| == 20 && u.sender.Wire()[0] == packets[0].message[4..]
    ensures u.sender.Wire()[0..2] == [BodyOf(packets[0].message, 4), BodyOf(packets[1].message, 4)]
  {
    assert packets[0 - 0] == CarriedOf(u.sender, 0).packet && packets[1 - 0] == CarriedOf(u.sender, 1).packet;
  }

  // Two fragmented messages, the second one in the last slot of the first

  function SharedKinds(a: seq<byte>): InputWindow.KindOf {
    (body: seq<byte>) =>
      if |body| == 28 && |a| == 29 && body[16..] == a[12..24] then InputWindow.IntermediateFragment
      else InputWindow.LastFragment
  }

  lemma SharedGrants(kindOf: InputWindow.KindOf, w: World, m: seq<byte>, c1: Call, w1: World)
    requires Sound(kindOf, w, m) && Unsent(w.sender, m, WIDE, 0) && WIDE.Len(m, 0) == 0
    requires Possible(kindOf, w, m, c1) && c1.event.Write? && |c1.message| == 29 && w1 == Step(kindOf, w, c1.event)
    ensures WIDE.Configured() && GrantOf(w, m, c1) == InFragments(0, 0, 1, 5)
    ensures Unsent(w1.sender, c1.after, WIDE, 1) && Lengths(WIDE, c1.after, 28, 9, 0)
    ensures GrantFor(w1.sender, c1.after, 29) == InFragments(1, 12, 1, 17)
  {
    hide Sound, Possible, Step, Enabled, GrantFor, Unsent, Ring.Len, IsPowerOfTwo;
    UnsentMeans(w.sender, m, WIDE, 0);
    TwentyNineInEmpty(w.sender, m);
    LengthsAfter(kindOf, w, m, c1, WIDE);
    BehindTheOpenSlot(w.sender, m, WIDE, 0, 2);
    TwentyNineBehindNine(w1.sender, c1.after);
  }

  /** The bytes that the first slot of a grant gets come last in it. */
  lemma FirstPiece(v: Sender, m: seq<byte>, n: seq<byte>, g: Grant, message: seq<byte>, f: nat)
    requires v.ring == WIDE && WIDE.Configured() && SlotBase(32, 4) <= |n| && |message| == 29
    requires g.InFragments? && g.blocks == 1 && g.at + 4 + f == 28 && f <= 29
    requires Payload(v, n, 29, g) == message && WIDE.Len(n, g.first) == 28
    ensures |BodyAt(WIDE, n, g.first)| == 28 && BodyAt(WIDE, n, g.first)[28 - f..] == message[..f]
  {
    hide IsPowerOfTwo, LenAt, AreaAt, Piece, MorePayload, BodyAt, Payload;
    PayloadOfFragments(v, n, 29, g);
    PieceOfBody(WIDE, n, g.first, g.at + 4, f);
    var piece, more := Piece(WIDE, n, g.first, g.at + 4, f), MorePayload(WIDE, n, g.first + 1, 1, g.last);
    assert (piece + more)[..f] == piece;
  }

  lemma SharedWrites(a: seq<byte>, w: World, m: seq<byte>, c1: Call, w1: World, c2: Call, w2: World)
    requires TwoWrites(SharedKinds(a), w, m, c1, w1, c2, w2) && Unsent(w.sender, m, WIDE, 0) && WIDE.Len(m, 0) == 0
    requires c1.message == a && |a| == |c2.message| == 29
    ensures WIDE.Configured() && w.sender.ring == w1.sender.ring == WIDE
    ensures GrantOf(w, m, c1) == InFragments(0, 0, 1, 5) && GrantOf(w1, c1.after, c2) == InFragments(1, 12, 1, 17)
    ensures Unsent(w2.sender, c2.after, WIDE, 2) && Lengths(WIDE, c2.after, 28, 28, 21) && SlotBase(32, 4) <= |c2.after|
    ensures Sound(SharedKinds(a), w2, c2.after) && w2.sender.sent == -1 && |w2.sender.log| == 0
    ensures TwoTags(w, m, c1, w1, c2) ==
      map[0 := InputWindow.IntermediateFragment, 1 := InputWindow.LastFragment, 2 := InputWindow.LastFragment]
  {
    hide Sound, Possible, Step, Enabled, GrantFor, Unsent, Ring.Len, IsPowerOfTwo, Tidy, SlotsFit;
    var kindOf := SharedKinds(a);
    SharedGrants(kindOf, w, m, c1, w1);
    UnsentMeans(w.sender, m, WIDE, 0);
    UnsentMeans(w1.sender, c1.after, WIDE, 1);
    LengthsAfter(kindOf, w1, c1.after, c2, WIDE);
    UnsentMeans(w2.sender, c2.after, WIDE, 2);
    SoundMeans(kindOf, w2, c2.after);
  }

  lemma SharedFits(a: seq<byte>, w: World, m: seq<byte>, c1: Call, w1: World, c2: Call, w2: World)
    requires TwoWrites(SharedKinds(a), w, m, c1, w1, c2, w2) && Unsent(w.sender, m, WIDE, 0) && WIDE.Len(m, 0) == 0
    requires c1.message == a && |a| == |c2.message| == 29 && a[12..24] != c2.message[..12]
    requires w.sender.ring.Configured() && w1.sender.ring.Configured() && w2.sender.ring.history > 0
    requires |w2.sender.log| == w2.sender.sent + 1
    ensures SlotsFit(SharedKinds(a), w2.sender, c2.after, TwoTags(w, m, c1, w1, c2))
  {
    hide Sound, Possible, Step, Enabled, GrantFor, Ring.Len, IsPowerOfTwo, Tidy, Payload, Sender.Window, Ring.Message;
    hide AppendOnly, LengthsGranted, GrantFits, LenAt, AreaAt;
    var kindOf, n := SharedKinds(a), c2.after;
    SharedGrants(kindOf, w, m, c1, w1);
    SharedWrites(a, w, m, c1, w1, c2, w2);
    GrantIsGood(kindOf, w, m, c1);
    GrantIsGood(kindOf, w1, c1.after, c2);
    SoundMeans(kindOf, w1, c1.after);
    FirstPiece(w.sender, m, c1.after, GrantOf(w, m, c1), a, 24);
    FirstPiece(w1.sender, c1.after, n, GrantOf(w1, c1.after, c2), c2.message, 12);
    assert WIDE.Message(n, 0) == WIDE.Message(c1.after, 0);
    assert BodyAt(WIDE, n, 0)[16..] == BodyAt(WIDE, n, 0)[4..][12..];
    assert a[..24][12..] == a[12..24];
    WindowAt(w2.sender, n, 2);
    MessageHasLength(WIDE, n, 2);
  }

  lemma SharedContents(a: seq<byte>, w: World, m: seq<byte>, c1: Call, w1: World, c2: Call, w2: World,
      calls: seq<Call>, u: World)
    requires TwoWrites(SharedKinds(a), w, m, c1, w1, c2, w2) && Unsent(w.sender, m, WIDE, 0) && WIDE.Len(m, 0) == 0
    requires c1.message == a && |a| == |c2.message| == 29 && RunsTo(SharedKinds(a), w2, c2.after, calls, u, c2.after)
    requires w.sender.ring.Configured() && w1.sender.ring.Configured() && u.sender.ring == WIDE
    requires forall k :: k in TwoTags(w, m, c1, w1, c2) <==> 0 <= k <= u.sender.sent
    requires |w2.sender.log| == w2.sender.sent + 1 && w2.sender.ring.history > 0 && |u.sender.log| == u.sender.sent + 1
    requires SameSlots(w2.sender, u.sender, c2.after)
    requires SlotsFit(SharedKinds(a), u.sender, c2.after, TwoTags(w, m, c1, w1, c2))
    requires u.read == Completed(SharedKinds(a), u.sender.Wire(), |u.sender.Wire()|)
    ensures u.sender.sent == 2
    ensures |u.read| == 2 && |u.read[0]| == 48 && u.read[0][..29] == a && u.read[0][36..] == c2.message[..12]
    ensures u.read[1] == c2.message[12..]
  {
    hide Sound, Possible, Step, Enabled, GrantFor, Unsent, Ring.Len, IsPowerOfTwo, Tidy, SlotsFit, Joined, SameSlots;
    hide Sender.Wire, WrittenThen, StartsIn, RunsTo, TwoWrites, GrantOf, TwoTags, SharedKinds;
    var kindOf, wire := SharedKinds(a), u.sender.Wire();
    SharedWrites(a, w, m, c1, w1, c2, w2);
    TwoRuns(kindOf, w, m, c1, w1, c2, w2, calls, u);
    assert 2 in TwoTags(w, m, c1, w1, c2) && 3 !in TwoTags(w, m, c1, w1, c2);
    WireIsMemory(w2.sender, u.sender, c2.after, WIDE, 2, 0);
    WireIsMemory(w2.sender, u.sender, c2.after, WIDE, 2, 1);
    WireIsMemory(w2.sender, u.sender, c2.after, WIDE, 2, 2);
    SlotsFitSent(kindOf, u.sender, c2.after, TwoTags(w, m, c1, w1, c2));
    FragmentsOnTheWire(kindOf, w, m, c1, [c2] + calls, u, c2.after);
    PiecesOnTheWire(kindOf, w1, c1.after, c2, calls, u, c2.after);
    TwoChains(kindOf, wire);
    SharedBytes(wire, Joined(wire[0..2]), a, c2.message);
  }

  lemma TwoChains(kindOf: InputWindow.KindOf, wire: seq<seq<byte>>)
    requires |wire| >= 3 && kindOf(wire[0]).IntermediateFragment?
    requires kindOf(wire[1]).LastFragment? && kindOf(wire[2]).LastFragment?
    ensures Completed(kindOf, wire, 3) == [Joined(wire[0..2]), Joined(wire[2..3])]
  {
    hide Joined;
    ChainIsCompleted(kindOf, wire);
    assert ChainStart(kindOf, wire, 2) == 2;
  }

  lemma SharedBytes(wire: seq<seq<byte>>, joined: seq<byte>, a: seq<byte>, b: seq<byte>)
    requires |wire| == 3 && |wire[0]| == |wire[1]| == 28 && |wire[2]| == 21 && |a| == |b| == 29
    requires joined == wire[0][4..4] + a + wire[1][9..] && wire[1][16..] == b[..12]
    ensures |joined| == 48 && joined[..29] == a && joined[36..] == b[..12]
    ensures b[12..] + wire[2][21..] == b[12..]
  {
    assert wire[1][9..][7..] == wire[1][16..];
  }

  /** Two messages of 29 bytes, written one after the other: the second one starts in the last slot
      of the first, and the reader gets its pieces in two contents. */
  method TwoMessagesShareASlot(a: seq<byte>, b: seq<byte>)
      returns (contents: seq<seq<byte>>, ghost w: World, ghost m: seq<byte>, ghost run: seq<Call>, ghost u: World)
    requires |a| == |b| == 29 && a[12..24] != b[..12]
    ensures |run| >= 2 && run[0].message == a && run[1].message == b && u.read == contents
    ensures FittingRun(SharedKinds(a), w, m, run, u, run[1].after) && !AllArrive(SharedKinds(a), w, m, run, u)
    ensures |contents| == 2 && |contents[0]| == 48
    ensures contents[0][..29] == a && contents[0][36..] == b[..12] && contents[1] == b[12..]
  {
    hide OutputReliableStream.Valid, InputReliableStream.Valid, Sound, Possible, Step, Enabled, GrantFor, Unsent;
    hide Ring.Len;
    hide IsPowerOfTwo, Tidy, SlotsFit, SameSlots, RunsTo, TwoWrites, GrantOf, UnderWay, Completed, TwoTags, SharedKinds;
    hide Started, FittingRun, AllArrive, AllAlone, NoWrites;
    hide Sender.Wire;
    var kindOf := SharedKinds(a);
    var sender, receiver;
    sender, receiver, w := NewPair(128, 0, kindOf);
    m := sender.base.buffer[..];
    StartIsUnsent(w, m, WIDE);
    TwentyNineInEmpty(w.sender, m);
    var ok; ghost var c1, w1, c2, w2;
    ok, c1, w1, c2, w2 := WriteTwo(sender, a, b, kindOf, w);
    SharedGrants(kindOf, w, m, c1, w1);
    SharedWrites(a, w, m, c1, w1, c2, w2);
    SharedFits(a, w, m, c1, w1, c2, w2);
    var packets; ghost var calls;
    packets, contents, calls, u := Transfer(sender, receiver, kindOf, w2, TwoTags(w, m, c1, w1, c2));
    run := [c1, c2] + calls;
    TwoRuns(kindOf, w, m, c1, w1, c2, w2, calls, u);
    SharedContents(a, w, m, c1, w1, c2, w2, calls, u);
    TwoRunFits(kindOf, w, m, c1, w1, c2, w2, calls, u);
    TwoAlone(kindOf, w, m, c1, w1, c2, w2, calls, u);
    AllMessagesArrive(kindOf, w, m, run, u, c2.after);
  }
}

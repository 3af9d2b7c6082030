/** What is sent of a message, and what the reader makes of that. */
module ProtocolMessages {
  import opened SeqNum
  import opened Memory
  import opened ReliableRing
  import opened SlotGeometry
  import opened OutputWindow
  import opened OutputGrant
  import opened OutputPath
  import opened FragmentChains
  import opened FragmentSpelling
  import opened Protocol
  import opened ProtocolMemory

  import InputWindow
  import MicroCdr

  /** A call that writes a message, and the run behind it up to the world u. */
  ghost predicate WrittenThen(kindOf: InputWindow.KindOf, w: World, m: seq<byte>, c: Call, calls: seq<Call>,
      u: World, n: seq<byte>) {
    && Sound(kindOf, w, m) && Possible(kindOf, w, m, c) && c.event.Write?
    && RunsTo(kindOf, Step(kindOf, w, c.event), c.after, calls, u, n)
  }

  ghost function GrantOf(w: World, m: seq<byte>, c: Call): Grant
    requires w.sender.ring.Configured()
  {
    GrantFor(w.sender, m, |c.message|)
  }

  lemma GrantIsGood(kindOf: InputWindow.KindOf, w: World, m: seq<byte>, c: Call)
    requires Sound(kindOf, w, m) && Possible(kindOf, w, m, c) && c.event.Write?
    ensures w.sender.ring.Configured() && c.message != [] && MessageWritten(w.sender, m, c.after, c.message)
    ensures var g, t := GrantOf(w, m, c), Step(kindOf, w, c.event).sender;
      && !g.Refused? && GrantFits(w.sender, m, |c.message|, g) && Payload(w.sender, c.after, |c.message|, g) == c.message
      && LengthsGranted(w.sender, m, c.after, |c.message|, g)
      && t == w.sender.(written := g.Last()) && |c.after| == |m| && w.sender.Counters()
      && 0 <= w.sender.sent + 1 <= w.sender.written <= g.First() <= g.Last() <= t.acked + t.ring.history
  {
    hide Safe, Ring.Configured, Sender.Window, GrantFor, Ring.Len;
    SoundMeans(kindOf, w, m);
  }

  /** What the slots of a grant are like when they are sent: all but the last as they were written,
      and the last one as it was written or longer. */
  lemma GrantedSlot(kindOf: InputWindow.KindOf, w: World, m: seq<byte>, c: Call, calls: seq<Call>, u: World,
      n: seq<byte>, k: int)
    requires WrittenThen(kindOf, w, m, c, calls, u, n)
    requires w.sender.ring.Configured() && !GrantOf(w, m, c).Refused?
    requires GrantOf(w, m, c).First() <= k <= GrantOf(w, m, c).Last() && k <= u.sender.sent
    ensures 0 <= k && |u.sender.log| == u.sender.sent + 1 && u.sender.ring == w.sender.ring
    ensures w.sender.ring.Message(c.after, k) <= u.sender.log[k] && |u.sender.log[k]| <= w.sender.ring.Capacity()
    ensures |w.sender.ring.Message(c.after, k)| == GrantedLen(w.sender, m, |c.message|, GrantOf(w, m, c), k)
    ensures w.sender.ring.Message(c.after, k) == u.sender.log[k] <==>
      !StartsIn(kindOf, Step(kindOf, w, c.event), c.after, calls, k)
  {
    hide Safe, Ring.Configured, Sender.Window, GrantFor, MessageWritten, Ring.Len, Ring.Message, GrantFits, StartsIn;
    var v := Step(kindOf, w, c.event);
    GrantIsGood(kindOf, w, m, c);
    CallIsSound(kindOf, w, m, c);
    RunIsSound(kindOf, v, c.after, calls, u, n);
    RunGrows(kindOf, v, c.after, calls, u, n, k);
    SlotsAreSmall(kindOf, v, c.after, k);
    SentIsSmall(kindOf, u, n, k);
    LengthAt(w.sender, m, c.after, |c.message|, GrantOf(w, m, c), k);
  }

  lemma SentIsSmall(kindOf: InputWindow.KindOf, u: World, n: seq<byte>, k: int)
    requires Sound(kindOf, u, n) && 0 <= k <= u.sender.sent
    ensures |u.sender.log| == u.sender.sent + 1 && |u.sender.log[k]| <= u.sender.ring.Capacity()
  {
    hide Sender.Window, Chained, Completed;
  }

  lemma FullSlot(v: Sender, m: seq<byte>, length: nat, g: Grant, k: int)
    requires v.ring.Configured() && g.InFragments? && g.first <= k <= g.Last()
    ensures GrantedLen(v, m, length, g, k) ==
      if k < g.Last() then v.ring.Capacity() else v.ring.offset + SUBHEADER_SIZE + g.last
  {}

  lemma GrantedThen(kindOf: InputWindow.KindOf, w: World, m: seq<byte>, c: Call, calls: seq<Call>, u: World,
      n: seq<byte>)
    requires WrittenThen(kindOf, w, m, c, calls, u, n) && w.sender.ring.Configured()
    ensures var g := GrantOf(w, m, c);
      && !g.Refused? && GrantFits(w.sender, m, |c.message|, g) && Payload(w.sender, c.after, |c.message|, g) == c.message
      && LengthsGranted(w.sender, m, c.after, |c.message|, g) && 0 <= g.First() <= g.Last()
      && w.sender.acked < g.First() && g.Last() <= w.sender.acked + w.sender.ring.history
    ensures SlotBase(w.sender.ring.slotSize, w.sender.ring.history) <= |c.after| && w.sender.Counters()
    ensures Sound(kindOf, u, n) && |u.sender.log| == u.sender.sent + 1 && u.sender.ring == w.sender.ring
  {
    hide Safe, Ring.Configured, Sender.Window, GrantFor, Ring.Len, Ring.Message, GrantFits, Payload;
    GrantIsGood(kindOf, w, m, c);
    CallIsSound(kindOf, w, m, c);
    RunIsSound(kindOf, Step(kindOf, w, c.event), c.after, calls, u, n);
    SoundMeans(kindOf, u, n);
  }

  /** What is sent of slot k of a fragmented message is the body the write left, with nothing behind
      it in a full slot. */
  lemma SlotOnTheWire(kindOf: InputWindow.KindOf, w: World, m: seq<byte>, c: Call, calls: seq<Call>, u: World,
      n: seq<byte>, k: int)
    requires WrittenThen(kindOf, w, m, c, calls, u, n) && w.sender.ring.Configured()
    requires GrantOf(w, m, c).InFragments? && GrantOf(w, m, c).Last() <= u.sender.sent
    requires GrantOf(w, m, c).first <= k <= GrantOf(w, m, c).Last()
    ensures var g, wire, body := GrantOf(w, m, c), u.sender.Wire(), BodyAt(w.sender.ring, c.after, k);
      && 0 <= k < |wire| && body <= wire[k] && (k < g.Last() ==> wire[k] == body)
      && (k == g.Last() ==> |body| == SUBHEADER_SIZE + g.last)
      && (wire[k] == body <==> k < g.Last() || !StartsIn(kindOf, Step(kindOf, w, c.event), c.after, calls, k))
  {
    hide Safe, Ring.Configured, Sender.Window, GrantFor, Ring.Len, Ring.Message, StartsIn, WrittenThen;
    hide GrantFits, LengthsGranted, Payload, Sender.Counters, MessageWritten, GrantedLen;
    GrantedThen(kindOf, w, m, c, calls, u, n);
    ConfiguredMeans(w.sender.ring);
    GrantedSlot(kindOf, w, m, c, calls, u, n, k);
    FullSlot(w.sender, m, |c.message|, GrantOf(w, m, c), k);
  }

  /** The bodies of a grant joined, when more has come behind the last of them. */
  lemma JoinedWithMore(v: Sender, m: seq<byte>, n: seq<byte>, length: nat, g: Grant, wire: seq<seq<byte>>)
    requires v.ring.Configured() && v.Counters() && GrantFits(v, m, length, g) && g.InFragments?
    requires LengthsGranted(v, m, n, length, g) && SlotBase(v.ring.slotSize, v.ring.history) <= |n|
    requires g.Last() < |wire| && forall k | g.first <= k < g.Last() :: wire[k] == BodyAt(v.ring, n, k)
    requires BodyAt(v.ring, n, g.Last()) <= wire[g.Last()] && |BodyAt(v.ring, n, g.Last())| == SUBHEADER_SIZE + g.last
    ensures 0 <= g.first <= g.Last() && 0 <= g.at - v.ring.offset
    ensures SUBHEADER_SIZE + g.at - v.ring.offset <= |wire[g.first]| && SUBHEADER_SIZE + g.last <= |wire[g.Last()]|
    ensures Joined(wire[g.first..g.Last() + 1]) ==
      wire[g.first][SUBHEADER_SIZE..SUBHEADER_SIZE + g.at - v.ring.offset] + Payload(v, n, length, g)
      + wire[g.Last()][SUBHEADER_SIZE + g.last..]
  {
    hide Ring.Configured, Sender.Counters, GrantFits, LengthsGranted, Payload, Joined, BodyAt;
    FragmentLengths(v, m, n, length, g);
    var last := BodyAt(v.ring, n, g.Last());
    var log, more := wire[g.Last() := last], wire[g.Last()][|last|..];
    GrantJoined(v, m, n, length, g, log);
    JoinedGrows(wire[g.first..g.Last()], last, more);
    assert wire[g.Last()] == last + more;
    assert wire[g.first..g.Last() + 1] == wire[g.first..g.Last()] + [last + more];
    assert log[g.first..g.Last() + 1] == wire[g.first..g.Last()] + [last];
  }

  /** What is sent of a fragmented message: a reader that puts the bodies together gets what the
      first slot held before without its first four bytes and with a subheader at its end, the
      message, and whatever was written behind it into the last slot before that was sent.  So the
      fragments spell the message and nothing else exactly if the first one starts in an empty
      slot and no later write starts in the last one. */
  lemma FragmentsOnTheWire(kindOf: InputWindow.KindOf, w: World, m: seq<byte>, c: Call, calls: seq<Call>,
      u: World, n: seq<byte>)
    requires WrittenThen(kindOf, w, m, c, calls, u, n)
    requires w.sender.ring.Configured() && GrantOf(w, m, c).InFragments? && GrantOf(w, m, c).Last() <= u.sender.sent
    ensures var g, wire, before := GrantOf(w, m, c), u.sender.Wire(), GrantOf(w, m, c).at - w.sender.ring.offset;
      && 0 <= g.first <= g.Last() < |wire| && 0 <= before && SUBHEADER_SIZE + before <= |wire[g.first]|
      && SUBHEADER_SIZE + g.last <= |wire[g.Last()]|
      && Joined(wire[g.first..g.Last() + 1]) ==
           wire[g.first][SUBHEADER_SIZE..SUBHEADER_SIZE + before] + c.message + wire[g.Last()][SUBHEADER_SIZE + g.last..]
      && (Joined(wire[g.first..g.Last() + 1]) == c.message <==>
            g.at == w.sender.ring.offset && !StartsIn(kindOf, Step(kindOf, w, c.event), c.after, calls, g.Last()))
  {
    hide Safe, Ring.Configured, Sender.Window, GrantFor, StartsIn, WrittenThen, Joined, BodyAt;
    hide GrantFits, LengthsGranted, Payload, Sender.Counters, MessageWritten, Step;
    GrantedThen(kindOf, w, m, c, calls, u, n);
    var g, wire := GrantOf(w, m, c), u.sender.Wire();
    forall k | g.first <= k < g.Last()
      ensures 0 <= k < |wire| && wire[k] == BodyAt(w.sender.ring, c.after, k)
    {
      SlotOnTheWire(kindOf, w, m, c, calls, u, n, k);
    }
    SlotOnTheWire(kindOf, w, m, c, calls, u, n, g.Last());
    JoinedWithMore(w.sender, m, c.after, |c.message|, g, wire);
  }

  /** The slots of a grant have the kinds that its message asks for: a run of fragments that starts
      at a boundary, continues with intermediate fragments and ends with a last one; and no
      fragment if the message comes first in its slot. */
  ghost predicate Marked(kindOf: InputWindow.KindOf, wire: seq<seq<byte>>, offset: nat, g: Grant) {
    match g
    case Refused => false
    case InSlot(k, at) => 0 <= k < |wire| && (at == offset ==> kindOf(wire[k]).NotFragmented?)
    case InFragments(first, at, blocks, last) =>
      && 0 <= first <= g.Last() < |wire| && AtBoundary(kindOf, wire, first)
      && (forall k | first <= k < g.Last() :: kindOf(wire[k]).IntermediateFragment?)
      && kindOf(wire[g.Last()]).LastFragment?
  }

  /** The contents that slot k goes into: as many are completed before it. */
  ghost function HomeOf(kindOf: InputWindow.KindOf, u: World, k: int): nat {
    if 0 <= k <= |u.sender.Wire()| then |Completed(kindOf, u.sender.Wire(), k)| else 0
  }

  lemma SafeRead(kindOf: InputWindow.KindOf, u: World)
    requires Safe(kindOf, u)
    ensures Chained(kindOf, u.sender.Wire(), u.sender.ring.history)
    ensures AtBoundary(kindOf, u.sender.Wire(), u.receiver.handled + 1)
    ensures u.read == Completed(kindOf, u.sender.Wire(), u.receiver.handled + 1)
    ensures u.receiver.handled <= u.sender.sent && |u.sender.log| == u.sender.sent + 1
  {
    hide Chained, Completed, InputWindow.Receiver.NextEnd, InputWindow.Receiver.FirstMissing;
  }

  /** A message that was appended to a slot: it lies in the body that is sent, and behind the
      subheader unless it comes first. */
  lemma AppendedIsSent(kindOf: InputWindow.KindOf, w: World, m: seq<byte>, c: Call, calls: seq<Call>, u: World,
      n: seq<byte>)
    requires WrittenThen(kindOf, w, m, c, calls, u, n)
    requires w.sender.ring.Configured() && GrantOf(w, m, c).InSlot? && GrantOf(w, m, c).k <= u.sender.sent
    ensures var g, wire := GrantOf(w, m, c), u.sender.Wire(); var at := g.at - w.sender.ring.offset;
      && 0 <= g.k < |wire| && 0 <= at && at + |c.message| <= |wire[g.k]| && wire[g.k][at..at + |c.message|] == c.message
      && (at != 0 ==> at >= SUBHEADER_SIZE)
  {
    hide Safe, Ring.Configured, Sender.Window, Ring.Len, Ring.Message, StartsIn, WrittenThen, LengthsGranted;
    hide Sender.Counters, MessageWritten, FreeSlots;
    ConfiguredMeans(w.sender.ring);
    GrantedThen(kindOf, w, m, c, calls, u, n);
    var g, r := GrantOf(w, m, c), w.sender.ring;
    GrantedSlot(kindOf, w, m, c, calls, u, n, g.k);
    LengthAt(w.sender, m, c.after, |c.message|, g, g.k);
    PieceOfBody(r, c.after, g.k, g.at, |c.message|);
    AtIsAligned(w.sender, m, |c.message|);
    var body, at := BodyAt(r, c.after, g.k), g.at - r.offset;
    assert body <= u.sender.Wire()[g.k];
    assert u.sender.Wire()[g.k][at..at + |c.message|] == body[at..at + |c.message|];
  }

  lemma AtIsAligned(v: Sender, m: seq<byte>, length: nat)
    requires v.ring.Configured() && GrantFor(v, m, length).InSlot? && GrantFor(v, m, length).at >= v.ring.offset
    ensures GrantFor(v, m, length).at != v.ring.offset ==> GrantFor(v, m, length).at >= v.ring.offset + SUBHEADER_SIZE
  {
    hide IsPowerOfTwo, FreeSlots;
    var n := v.ring.Len(m, v.written);
    PaddingAligns(n);
    if GrantFor(v, m, length).at != v.ring.offset {
      MultiplesApart(v.ring.offset, OpenSize(v, m));
    }
  }

  lemma PaddingAligns(n: nat)
    ensures (n + MicroCdr.Padding(n, 4)) % 4 == 0
  {
    MicroCdr.AlignedAfter(n, 4);
  }

  lemma MultiplesApart(a: nat, b: nat)
    requires a % 4 == 0 && b % 4 == 0 && a < b
    ensures a + 4 <= b
  {}

  lemma BytesOfEntry(kindOf: InputWindow.KindOf, wire: seq<seq<byte>>, longest: nat, handled: int, k: int,
      at: nat, message: seq<byte>)
      returns (i: nat, j: nat)
    requires Chained(kindOf, wire, longest) && AtBoundary(kindOf, wire, handled + 1) && 0 <= k <= handled
    requires at + |message| <= |wire[k]| && wire[k][at..at + |message|] == message
    requires kindOf(wire[k]).NotFragmented? || at >= SUBHEADER_SIZE
    ensures var read := Completed(kindOf, wire, handled + 1);
      && i == |Completed(kindOf, wire, k)| < |read|
      && j + |message| <= |read[i]| && read[i][j..j + |message|] == message
  {
    hide Chained, Completed, Joined;
    var start, end;
    i, start, end := EntryIsCompleted(kindOf, wire, longest, handled + 1, k);
    if kindOf(wire[k]).NotFragmented? {
      j := at;
    } else {
      j := InJoined(wire, start, end, k, at, |message|);
    }
  }

  lemma BytesOfChain(kindOf: InputWindow.KindOf, wire: seq<seq<byte>>, longest: nat, handled: int, first: int,
      last: int,
      before: seq<byte>, message: seq<byte>, behind: seq<byte>) returns (i: nat, j: nat)
    requires Chained(kindOf, wire, longest) && AtBoundary(kindOf, wire, handled + 1) && 0 <= first <= last <= handled
    requires AtBoundary(kindOf, wire, first) && kindOf(wire[last]).LastFragment?
    requires forall k | first <= k < last :: kindOf(wire[k]).IntermediateFragment?
    requires Joined(wire[first..last + 1]) == before + message + behind
    ensures var read := Completed(kindOf, wire, handled + 1);
      && i == |Completed(kindOf, wire, last)| < |read|
      && j + |message| <= |read[i]| && read[i][j..j + |message|] == message
  {
    hide Chained, Completed, Joined;
    var start, end;
    i, start, end := EntryIsCompleted(kindOf, wire, longest, handled + 1, last);
    ChainIsTheGrant(kindOf, wire, start, end, first, last);
    j := |before|;
    assert (before + message + behind)[j..j + |message|] == message;
  }

  /** A message whose slots have these kinds lies unbroken in one of the contents that the reader
      was given, once the receiver has handled its last slot. */
  lemma MarkedIsRead(kindOf: InputWindow.KindOf, w: World, m: seq<byte>, c: Call, calls: seq<Call>, u: World,
      n: seq<byte>)
      returns (i: nat, j: nat)
    requires WrittenThen(kindOf, w, m, c, calls, u, n) && w.sender.ring.Configured() && !GrantOf(w, m, c).Refused?
    requires Marked(kindOf, u.sender.Wire(), w.sender.ring.offset, GrantOf(w, m, c))
    requires GrantOf(w, m, c).Last() <= u.receiver.handled
    ensures i == HomeOf(kindOf, u, GrantOf(w, m, c).Last()) < |u.read|
    ensures j + |c.message| <= |u.read[i]| && u.read[i][j..j + |c.message|] == c.message
  {
    hide Safe, Ring.Configured, Sender.Window, GrantFor, StartsIn, WrittenThen, Joined, GrantFits, LengthsGranted;
    hide Payload;
    hide Sender.Counters, MessageWritten, Chained, Completed, Sender.Wire, AtBoundary, Sound;
    GrantedThen(kindOf, w, m, c, calls, u, n);
    SoundMeans(kindOf, u, n);
    SafeRead(kindOf, u);
    var g, wire, longest := GrantOf(w, m, c), u.sender.Wire(), u.sender.ring.history;
    var at, handled := g.at - w.sender.ring.offset, u.receiver.handled;
    if g.InSlot? {
      AppendedIsSent(kindOf, w, m, c, calls, u, n);
      i, j := BytesOfEntry(kindOf, wire, longest, handled, g.k, at, c.message);
    } else {
      FragmentsOnTheWire(kindOf, w, m, c, calls, u, n);
      i, j := BytesOfChain(kindOf, wire, longest, handled, g.first, g.Last(),
        wire[g.first][SUBHEADER_SIZE..SUBHEADER_SIZE + at], c.message, wire[g.Last()][SUBHEADER_SIZE + g.last..]);
    }
  }

  lemma ChainIsTheGrant(kindOf: InputWindow.KindOf, wire: seq<seq<byte>>, start: int, end: int, first: int, last: int)
    requires 0 <= start <= last < end <= |wire| && 0 <= first <= last
    requires AtBoundary(kindOf, wire, start) && AtBoundary(kindOf, wire, first) && kindOf(wire[last]).LastFragment?
    requires forall j | start <= j < end - 1 :: kindOf(wire[j]).IntermediateFragment?
    requires forall j | first <= j < last :: kindOf(wire[j]).IntermediateFragment?
    ensures start == first && end == last + 1
  {
    assert !(last < end - 1);
    assert !(start < first);
    assert !(first < start);
  }

  /** Bytes of one part, behind its subheader, lie in what the parts are joined to. */
  lemma InJoined(wire: seq<seq<byte>>, start: int, end: int, k: int, at: nat, size: nat) returns (j: nat)
    requires 0 <= start <= k < end <= |wire| && SUBHEADER_SIZE <= at && at + size <= |wire[k]|
    ensures j + size <= |Joined(wire[start..end])| && Joined(wire[start..end])[j..j + size] == wire[k][at..at + size]
  {
    hide Joined;
    var before, behind := Joined(wire[start..k]), Joined(wire[k + 1..end]);
    JoinedOfTwo(wire[start..k], wire[k..end]);
    JoinedSlice(wire, k, end);
    assert wire[start..end] == wire[start..k] + wire[k..end];
    j := |before| + at - SUBHEADER_SIZE;
    MiddleSlice(before, FragmentBytes(wire[k]), behind, at - SUBHEADER_SIZE, size);
    SliceOfSlice(wire[k], SUBHEADER_SIZE, |wire[k]|, at - SUBHEADER_SIZE, at - SUBHEADER_SIZE + size);
  }

  lemma MiddleSlice(a: seq<byte>, b: seq<byte>, c: seq<byte>, at: nat, size: nat)
    requires at + size <= |b|
    ensures (a + (b + c))[|a| + at..|a| + at + size] == b[at..at + size]
  {
    SliceOfSlice(a + (b + c), |a|, |a| + |b|, at, at + size);
    assert (a + (b + c))[|a|..|a| + |b|] == b;
  }
}

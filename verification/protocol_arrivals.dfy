/** From WriteMessage to the reader: which messages arrive whole, over every run. */
module ProtocolArrivals {
  import opened SeqNum
  import opened Memory
  import opened ReliableRing
  import opened SlotGeometry
  import opened OutputWindow
  import opened OutputGrant
  import opened OutputPath
  import opened FragmentChains
  import opened FragmentSpelling
  import opened Protocol
  import opened ProtocolMemory
  import opened ProtocolMessages
  import opened ProtocolTags

  import InputWindow

  /** A run goes on with a call that writes a message, and the receiver sees the kinds of the slots. */
  ghost predicate WrittenInRun(kindOf: InputWindow.KindOf, w: World, m: seq<byte>, tags: Tags, c: Call,
      calls: seq<Call>, u: World, n: seq<byte>)
  {
    && WrittenThen(kindOf, w, m, c, calls, u, n) && w.sender.ring.Configured() && Tidy(w.sender, m, tags)
    && Fits(kindOf, u.sender.Wire(),
         TagsOfRun(kindOf, Step(kindOf, w, c.event), c.after, calls, TagsAfter(tags, w, m, c)))
  }

  /** The message does not go as fragments behind something else in its first slot. */
  predicate StartsAlone(offset: nat, g: Grant)
    requires !g.Refused?
  {
    g.InSlot? || g.at == offset
  }

  /** The caller can see it before the call: the message fits a slot, or the open slot is empty or
      has no room for more than a subheader. */
  lemma StartsAloneByRoom(v: Sender, m: seq<byte>, length: nat)
    requires v.Window(m) && v.ring.Configured() && length > 0 && !GrantFor(v, m, length).Refused?
    ensures StartsAlone(v.ring.offset, GrantFor(v, m, length)) <==>
      || v.ring.offset + length <= v.ring.Capacity()
      || v.ring.Len(m, v.written) == v.ring.offset
      || OpenSize(v, m) + SUBHEADER_SIZE >= v.ring.Capacity()
  {
    GrantStaysInWindow(v, m, length);
    if v.written <= v.acked + v.ring.history {
      WindowAt(v, m, v.written);
    }
    EmptySlotIsAligned(v, m);
    hide Sender.Window, OpenSize, Ring.Len, BlocksFor, LastFor, IsPowerOfTwo;
  }

  /** A slot that has a tag after the call is sent with it. */
  lemma TagIsSent(kindOf: InputWindow.KindOf, w: World, m: seq<byte>, tags: Tags, c: Call, calls: seq<Call>,
      u: World, n: seq<byte>, k: int)
    requires WrittenInRun(kindOf, w, m, tags, c, calls, u, n) && 0 <= k <= u.sender.sent
    requires k in TagsAfter(tags, w, m, c)
    ensures k < |u.sender.Wire()| && kindOf(u.sender.Wire()[k]) == TagsAfter(tags, w, m, c)[k]
  {
    hide Sound, Ring.Configured, GrantFor, Sender.Wire, Tidy, TagsAfter, TagsOfRun, Possible, Step, Enabled, RunsTo;
    CallIsSound(kindOf, w, m, c);
    CallIsTidy(kindOf, w, m, c, tags);
    RunIsTidy(kindOf, Step(kindOf, w, c.event), c.after, calls, u, n, TagsAfter(tags, w, m, c));
    SentIsLogged(kindOf, u, n);
  }

  lemma SentIsLogged(kindOf: InputWindow.KindOf, u: World, n: seq<byte>)
    requires Sound(kindOf, u, n)
    ensures |u.sender.log| == u.sender.sent + 1
  {
    SoundMeans(kindOf, u, n);
  }

  /** The slots of a grant are sent with the tags of the grant, but for a first slot that was in
      use: that has another kind, and is no intermediate fragment. */
  lemma SlotsOfGrant(kindOf: InputWindow.KindOf, w: World, m: seq<byte>, tags: Tags, c: Call, calls: seq<Call>,
      u: World, n: seq<byte>, k: int)
    requires WrittenInRun(kindOf, w, m, tags, c, calls, u, n) && k <= u.sender.sent
    requires !GrantOf(w, m, c).Refused? && GrantOf(w, m, c).First() <= k <= GrantOf(w, m, c).Last()
    ensures 0 <= k < |u.sender.Wire()|
    ensures k > GrantOf(w, m, c).First() || GrantOf(w, m, c).at == w.sender.ring.offset ==>
      kindOf(u.sender.Wire()[k]) == TagOf(GrantOf(w, m, c), k)
    ensures k == GrantOf(w, m, c).First() && GrantOf(w, m, c).at != w.sender.ring.offset ==>
      !kindOf(u.sender.Wire()[k]).IntermediateFragment?
  {
    hide Sound, Ring.Configured, GrantFor, GrantOf, Sender.Wire, Tidy, TagsOfRun, Possible, Step, Enabled, RunsTo, Fits;
    hide GrantFits, LengthsGranted, Payload, MessageWritten, Sender.Counters, TagOf;
    GoodGrant(kindOf, w, m, tags, c, calls, u, n);
    var g := GrantOf(w, m, c);
    TagIsSent(kindOf, w, m, tags, c, calls, u, n, k);
    FirstSlotTag(w.sender, m, |c.message|, g, tags);
    if k > g.First() {
      TidyIsTagged(w.sender, m, tags);
      FreshSlots(w.sender, m, |c.message|, g, tags, k);
    }
  }

  lemma GoodGrant(kindOf: InputWindow.KindOf, w: World, m: seq<byte>, tags: Tags, c: Call, calls: seq<Call>,
      u: World, n: seq<byte>)
    requires WrittenInRun(kindOf, w, m, tags, c, calls, u, n)
    ensures c.event.Write? && w.sender.Counters() && w.sender.Window(m) && Tidy(w.sender, m, tags)
    ensures var g := GrantOf(w, m, c);
      && g == GrantFor(w.sender, m, |c.message|) && !g.Refused? && GrantFits(w.sender, m, |c.message|, g)
      && 0 <= g.First() <= g.Last()
  {
    hide Safe, Ring.Configured, GrantFor, Sender.Wire, Tidy, TagsOfRun, Possible, Step, Enabled, RunsTo, Fits;
    SoundMeans(kindOf, w, m);
    GrantIsGood(kindOf, w, m, c);
  }

  lemma TidyIsTagged(s: Sender, m: seq<byte>, tags: Tags)
    requires Tidy(s, m, tags)
    ensures s.ring.history > 0 && Tagged(s, m, tags)
  {}

  /** Fragments start behind the header exactly in a slot without a tag; and a slot with a tag that
      can still be written to is no intermediate fragment. */
  lemma FirstSlotTag(s: Sender, m: seq<byte>, length: nat, g: Grant, tags: Tags)
    requires s.ring.Configured() && s.Counters() && s.Window(m) && Tidy(s, m, tags)
    requires g == GrantFor(s, m, length) && !g.Refused? && GrantFits(s, m, length, g)
    ensures g.First() in tags <==> g.at != s.ring.offset
    ensures g.First() in tags ==> !tags[g.First()].IntermediateFragment?
    ensures g.First() - 1 in tags && g.First() !in tags ==> !tags[g.First() - 1].IntermediateFragment?
    ensures g.First() > 0 ==> g.First() - 1 in tags
  {
    hide IsPowerOfTwo, FreeSlots, Ring.Len, Filled;
    EmptySlotIsAligned(s, m);
    FreshSlots(s, m, length, g, tags, g.First() + 1);
    assert g.First() in tags <==> InUse(s, m, g.First());
    assert g.First() - 1 in tags <==> InUse(s, m, g.First() - 1);
  }

  lemma BoundaryBefore(kindOf: InputWindow.KindOf, w: World, m: seq<byte>, tags: Tags, c: Call, calls: seq<Call>,
      u: World, n: seq<byte>)
    requires WrittenInRun(kindOf, w, m, tags, c, calls, u, n)
    requires !GrantOf(w, m, c).Refused? && GrantOf(w, m, c).Last() <= u.sender.sent
    requires GrantOf(w, m, c).at == w.sender.ring.offset
    ensures AtBoundary(kindOf, u.sender.Wire(), GrantOf(w, m, c).First())
  {
    hide Sound, Ring.Configured, GrantFor, GrantOf, Sender.Wire, Tidy, TagsOfRun, Possible, Step, Enabled, RunsTo, Fits;
    hide GrantFits, LengthsGranted, Payload, MessageWritten, Sender.Counters, TagOf;
    GoodGrant(kindOf, w, m, tags, c, calls, u, n);
    var g := GrantOf(w, m, c);
    SlotsOfGrant(kindOf, w, m, tags, c, calls, u, n, g.First());
    FirstSlotTag(w.sender, m, |c.message|, g, tags);
    if g.First() > 0 {
      TagIsSent(kindOf, w, m, tags, c, calls, u, n, g.First() - 1);
    }
  }

  lemma GrantIsMarked(kindOf: InputWindow.KindOf, w: World, m: seq<byte>, tags: Tags, c: Call, calls: seq<Call>,
      u: World, n: seq<byte>)
    requires WrittenInRun(kindOf, w, m, tags, c, calls, u, n)
    requires !GrantOf(w, m, c).Refused? && GrantOf(w, m, c).Last() <= u.sender.sent
    requires StartsAlone(w.sender.ring.offset, GrantOf(w, m, c))
    ensures Marked(kindOf, u.sender.Wire(), w.sender.ring.offset, GrantOf(w, m, c))
  {
    hide WrittenInRun, GrantOf, Sender.Wire;
    GoodGrant(kindOf, w, m, tags, c, calls, u, n);
    var g, wire := GrantOf(w, m, c), u.sender.Wire();
    if g.InFragments? {
      BoundaryBefore(kindOf, w, m, tags, c, calls, u, n);
    }
    SlotsOfGrant(kindOf, w, m, tags, c, calls, u, n, g.Last());
    if g.InFragments? {
      forall k | g.First() <= k < g.Last()
        ensures kindOf(wire[k]).IntermediateFragment?
      {
        SlotsOfGrant(kindOf, w, m, tags, c, calls, u, n, k);
      }
    }
  }

  /** From the writer to the reader, whatever was lost, copied, reordered or resent on the way: a
      message that does not start as fragments behind something else lies unbroken in one of the
      contents that the reader was given, once the receiver has handled its last slot. */
  lemma MessageIsRead(kindOf: InputWindow.KindOf, w: World, m: seq<byte>, tags: Tags, c: Call, calls: seq<Call>,
      u: World, n: seq<byte>) returns (i: nat, j: nat)
    requires WrittenInRun(kindOf, w, m, tags, c, calls, u, n) && !GrantOf(w, m, c).Refused?
    requires StartsAlone(w.sender.ring.offset, GrantOf(w, m, c)) && GrantOf(w, m, c).Last() <= u.receiver.handled
    ensures i == HomeOf(kindOf, u, GrantOf(w, m, c).Last()) < |u.read|
    ensures j + |c.message| <= |u.read[i]| && u.read[i][j..j + |c.message|] == c.message
  {
    hide GrantOf, Sender.Wire, Tidy, Fits, TagsOfRun, TagsAfter, Marked, WrittenThen, StartsAlone, HomeOf;
    HandledIsSent(kindOf, w, m, c, calls, u, n);
    GrantIsMarked(kindOf, w, m, tags, c, calls, u, n);
    i, j := MarkedIsRead(kindOf, w, m, c, calls, u, n);
  }

  lemma HandledIsSent(kindOf: InputWindow.KindOf, w: World, m: seq<byte>, c: Call, calls: seq<Call>, u: World,
      n: seq<byte>)
    requires WrittenThen(kindOf, w, m, c, calls, u, n)
    ensures u.receiver.handled <= u.sender.sent && |u.sender.log| == u.sender.sent + 1 && Sound(kindOf, u, n)
    ensures AtBoundary(kindOf, u.sender.Wire(), u.receiver.handled + 1)
    ensures Chained(kindOf, u.sender.Wire(), u.sender.ring.history)
    ensures u.read == Completed(kindOf, u.sender.Wire(), u.receiver.handled + 1)
  {
    hide Safe, Ring.Configured, Sender.Window, Possible, Step, Enabled, Chained, Completed;
    CallIsSound(kindOf, w, m, c);
    RunIsSound(kindOf, Step(kindOf, w, c.event), c.after, calls, u, n);
    SoundMeans(kindOf, u, n);
    SafeRead(kindOf, u);
  }

  /** What is sent of a fragmented message, slot by slot: its first bytes are the last of the first
      slot, and the other slots join to the rest and what comes behind. */
  lemma PiecesOnTheWire(kindOf: InputWindow.KindOf, w: World, m: seq<byte>, c: Call, calls: seq<Call>,
      u: World, n: seq<byte>)
    requires WrittenThen(kindOf, w, m, c, calls, u, n) && w.sender.ring.Configured()
    requires GrantOf(w, m, c).InFragments? && GrantOf(w, m, c).Last() <= u.sender.sent
    ensures var g, wire := GrantOf(w, m, c), u.sender.Wire(); var f := w.sender.ring.Capacity() - g.at - SUBHEADER_SIZE;
      && 0 <= g.first < g.Last() < |wire| && 0 < f < |c.message| && f + SUBHEADER_SIZE <= |wire[g.first]|
      && SUBHEADER_SIZE + g.last <= |wire[g.Last()]|
      && wire[g.first][|wire[g.first]| - f..] == c.message[..f]
      && Joined(wire[g.first + 1..g.Last() + 1]) == c.message[f..] + wire[g.Last()][SUBHEADER_SIZE + g.last..]
  {
    hide Safe, Ring.Configured, Sender.Window, GrantFor, StartsIn, WrittenThen, Joined, BodyAt, Step, GrantFits;
    hide LengthsGranted, Payload, Sender.Counters, MessageWritten, FragmentBytes;
    FragmentsOnTheWire(kindOf, w, m, c, calls, u, n);
    FirstPieceFills(kindOf, w, m, c, calls, u, n);
    var g, wire, r := GrantOf(w, m, c), u.sender.Wire(), w.sender.ring;
    SlotOnTheWire(kindOf, w, m, c, calls, u, n, g.first);
    JoinedSlice(wire, g.first, g.Last() + 1);
    CutAtFirst(wire[g.first], g.at - r.offset, Joined(wire[g.first + 1..g.Last() + 1]), c.message,
      wire[g.Last()][SUBHEADER_SIZE + g.last..]);
  }

  /** The first slot of a fragmented message is full, and the message does not end in it. */
  lemma FirstPieceFills(kindOf: InputWindow.KindOf, w: World, m: seq<byte>, c: Call, calls: seq<Call>,
      u: World, n: seq<byte>)
    requires WrittenThen(kindOf, w, m, c, calls, u, n) && w.sender.ring.Configured() && GrantOf(w, m, c).InFragments?
    ensures var g, r := GrantOf(w, m, c), w.sender.ring;
      && 0 < r.Capacity() - g.at - SUBHEADER_SIZE < |c.message| && 0 <= g.first < g.Last() && 0 <= g.at - r.offset
      && |BodyAt(r, c.after, g.first)| == r.Capacity() - r.offset
  {
    hide Safe, Ring.Configured, Sender.Window, GrantFor, Ring.Len, StartsIn, WrittenThen, Step, GrantFits;
    hide LengthsGranted, Payload, Sender.Counters, MessageWritten;
    GrantedThen(kindOf, w, m, c, calls, u, n);
    var g, r := GrantOf(w, m, c), w.sender.ring;
    FragmentLengths(w.sender, m, c.after, |c.message|, g);
    MessageIsLonger(w.sender, m, |c.message|, g);
    ConfiguredMeans(r);
    assert r.Len(c.after, g.first) == r.Capacity();
    PieceOfBody(r, c.after, g.first, g.at + SUBHEADER_SIZE, r.Capacity() - g.at - SUBHEADER_SIZE);
  }

  /** Joined bytes cut behind the first slot. */
  lemma CutAtFirst(slot: seq<byte>, before: nat, rest: seq<byte>, message: seq<byte>, behind: seq<byte>)
    requires SUBHEADER_SIZE + before <= |slot| <= SUBHEADER_SIZE + before + |message|
    requires FragmentBytes(slot) + rest == slot[SUBHEADER_SIZE..SUBHEADER_SIZE + before] + message + behind
    ensures var f := |slot| - SUBHEADER_SIZE - before;
      slot[|slot| - f..] == message[..f] && rest == message[f..] + behind
  {
    var head, tail := slot[SUBHEADER_SIZE..SUBHEADER_SIZE + before], slot[SUBHEADER_SIZE + before..];
    assert FragmentBytes(slot) == head + tail;
    CutSame(head, tail, rest, message, behind);
  }

  lemma CutSame(a: seq<byte>, b: seq<byte>, rest: seq<byte>, message: seq<byte>, behind: seq<byte>)
    requires |b| <= |message|
    ensures (a + b) + rest == a + message + behind ==> b == message[..|b|] && rest == message[|b|..] + behind
  {
    if (a + b) + rest == a + message + behind {
      assert ((a + b) + rest)[|a|..] == b + rest;
      assert (a + message + behind)[|a|..] == message + behind;
      assert (b + rest)[..|b|] == b && (b + rest)[|b|..] == rest;
      assert (message + behind)[..|b|] == message[..|b|] && (message + behind)[|b|..] == message[|b|..] + behind;
    }
  }

  lemma MessageIsLonger(v: Sender, m: seq<byte>, length: nat, g: Grant)
    requires v.ring.Configured() && g.InFragments? && GrantFits(v, m, length, g)
    ensures 0 < v.ring.Capacity() - g.at - SUBHEADER_SIZE < length
  {
    ProductOrder(0, g.blocks - 1, Block(v.ring));
  }

  /** The other messages: fragments behind something else are split between two contents.  The
      first piece comes last in the contents of what the slot held before, the rest comes first in
      the next. */
  lemma MessageIsSplit(kindOf: InputWindow.KindOf, w: World, m: seq<byte>, tags: Tags, c: Call, calls: seq<Call>,
      u: World, n: seq<byte>) returns (i: nat, f: nat)
    requires WrittenInRun(kindOf, w, m, tags, c, calls, u, n) && !GrantOf(w, m, c).Refused?
    requires !StartsAlone(w.sender.ring.offset, GrantOf(w, m, c)) && GrantOf(w, m, c).Last() <= u.receiver.handled
    ensures i == HomeOf(kindOf, u, GrantOf(w, m, c).First()) && i + 1 == HomeOf(kindOf, u, GrantOf(w, m, c).Last())
    ensures i + 1 < |u.read| && 0 < f < |c.message| && f <= |u.read[i]|
    ensures u.read[i][|u.read[i]| - f..] == c.message[..f] && c.message[f..] <= u.read[i + 1]
  {
    hide GrantOf, Sender.Wire, Tidy, Fits, TagsOfRun, TagsAfter, WrittenThen, Joined, Completed, Chained, Sound;
    hide Ring.Configured, AtBoundary, WrittenInRun;
    RunOf(kindOf, w, m, tags, c, calls, u, n);
    HandledIsSent(kindOf, w, m, c, calls, u, n);
    PiecesOnTheWire(kindOf, w, m, c, calls, u, n);
    var g, wire, handled := GrantOf(w, m, c), u.sender.Wire(), u.receiver.handled;
    f := w.sender.ring.Capacity() - g.at - SUBHEADER_SIZE;
    forall k | g.First() <= k <= g.Last()
      ensures 0 <= k < |wire| && (k > g.First() ==> kindOf(wire[k]) == TagOf(g, k))
      ensures k == g.First() ==> !kindOf(wire[k]).IntermediateFragment?
    {
      SlotsOfGrant(kindOf, w, m, tags, c, calls, u, n, k);
    }
    i := EndsContents(kindOf, wire, u.sender.ring.history, handled, g.first, f);
    NextHome(kindOf, wire, g.first, g.Last());
    var next := ChainIsContents(kindOf, wire, u.sender.ring.history, handled, g.first + 1, g.Last());
  }

  lemma RunOf(kindOf: InputWindow.KindOf, w: World, m: seq<byte>, tags: Tags, c: Call, calls: seq<Call>,
      u: World, n: seq<byte>)
    requires WrittenInRun(kindOf, w, m, tags, c, calls, u, n)
    ensures WrittenThen(kindOf, w, m, c, calls, u, n) && w.sender.ring.Configured()
  {}

  /** The bytes at the end of an entry that completes contents come last in these. */
  lemma EndsContents(kindOf: InputWindow.KindOf, wire: seq<seq<byte>>, longest: nat, handled: int, k: int, f: nat)
      returns (i: nat)
    requires Chained(kindOf, wire, longest) && AtBoundary(kindOf, wire, handled + 1) && 0 <= k <= handled
    requires !kindOf(wire[k]).IntermediateFragment? && f + SUBHEADER_SIZE <= |wire[k]|
    ensures var read := Completed(kindOf, wire, handled + 1);
      && i == |Completed(kindOf, wire, k)| < |read| && f <= |read[i]|
      && read[i][|read[i]| - f..] == wire[k][|wire[k]| - f..]
  {
    hide Chained, Completed, Joined;
    var start, end;
    i, start, end := EntryIsCompleted(kindOf, wire, longest, handled + 1, k);
    if !kindOf(wire[k]).NotFragmented? {
      assert end == k + 1;
      JoinedOfTwo(wire[start..k], [wire[k]]);
      JoinedOfOne(wire[k]);
      assert wire[start..k + 1] == wire[start..k] + [wire[k]];
    }
  }

  lemma ChainIsContents(kindOf: InputWindow.KindOf, wire: seq<seq<byte>>, longest: nat, handled: int,
      first: int, last: int)
      returns (i: nat)
    requires Chained(kindOf, wire, longest) && AtBoundary(kindOf, wire, handled + 1) && 0 <= first <= last <= handled
    requires AtBoundary(kindOf, wire, first) && kindOf(wire[last]).LastFragment?
    requires forall k | first <= k < last :: kindOf(wire[k]).IntermediateFragment?
    ensures var read := Completed(kindOf, wire, handled + 1);
      i == |Completed(kindOf, wire, last)| < |read| && read[i] == Joined(wire[first..last + 1])
  {
    hide Chained, Completed, Joined;
    var start, end;
    i, start, end := EntryIsCompleted(kindOf, wire, longest, handled + 1, last);
    ChainIsTheGrant(kindOf, wire, start, end, first, last);
  }

  lemma NextHome(kindOf: InputWindow.KindOf, wire: seq<seq<byte>>, first: int, last: int)
    requires 0 <= first < last < |wire| && !kindOf(wire[first]).IntermediateFragment?
    requires forall k | first < k < last :: kindOf(wire[k]).IntermediateFragment?
    ensures AtBoundary(kindOf, wire, first + 1)
    ensures |Completed(kindOf, wire, last)| == |Completed(kindOf, wire, first)| + 1
  {
    hide Joined;
    NothingCompleted(kindOf, wire, first + 1, last);
  }

  predicate LiesAt(message: seq<byte>, contents: seq<byte>, j: nat) {
    j + |message| <= |contents| && contents[j..j + |message|] == message
  }

  ghost predicate LiesIn(message: seq<byte>, contents: seq<byte>) {
    exists j: nat :: LiesAt(message, contents, j)
  }

  /** All slots of the message go into the same contents, and there it lies unbroken. */
  ghost predicate Arrives(kindOf: InputWindow.KindOf, u: World, g: Grant, message: seq<byte>)
    requires !g.Refused?
  {
    && HomeOf(kindOf, u, g.First()) == HomeOf(kindOf, u, g.Last()) < |u.read|
    && LiesIn(message, u.read[HomeOf(kindOf, u, g.Last())])
  }

  lemma HomeOfGrant(kindOf: InputWindow.KindOf, w: World, m: seq<byte>, tags: Tags, c: Call, calls: seq<Call>,
      u: World, n: seq<byte>)
    requires WrittenInRun(kindOf, w, m, tags, c, calls, u, n) && !GrantOf(w, m, c).Refused?
    requires StartsAlone(w.sender.ring.offset, GrantOf(w, m, c)) && GrantOf(w, m, c).Last() <= u.sender.sent
    ensures HomeOf(kindOf, u, GrantOf(w, m, c).First()) == HomeOf(kindOf, u, GrantOf(w, m, c).Last())
  {
    hide GrantOf, Sender.Wire, Completed, Chained, WrittenInRun;
    GoodGrant(kindOf, w, m, tags, c, calls, u, n);
    GrantIsMarked(kindOf, w, m, tags, c, calls, u, n);
    var g := GrantOf(w, m, c);
    if g.InFragments? {
      NothingCompleted(kindOf, u.sender.Wire(), g.First(), g.Last());
    }
  }

  /** Which messages arrive: exactly those that do not start as fragments behind something else. */
  lemma ArrivesExactly(kindOf: InputWindow.KindOf, w: World, m: seq<byte>, tags: Tags, c: Call, calls: seq<Call>,
      u: World, n: seq<byte>)
    requires WrittenInRun(kindOf, w, m, tags, c, calls, u, n) && !GrantOf(w, m, c).Refused?
    requires GrantOf(w, m, c).Last() <= u.receiver.handled
    ensures Arrives(kindOf, u, GrantOf(w, m, c), c.message) <==> StartsAlone(w.sender.ring.offset, GrantOf(w, m, c))
  {
    hide GrantOf, Sender.Wire, WrittenInRun, HomeOf, StartsAlone, Sound;
    RunOf(kindOf, w, m, tags, c, calls, u, n);
    HandledIsSent(kindOf, w, m, c, calls, u, n);
    if StartsAlone(w.sender.ring.offset, GrantOf(w, m, c)) {
      HomeOfGrant(kindOf, w, m, tags, c, calls, u, n);
      var i, j := MessageIsRead(kindOf, w, m, tags, c, calls, u, n);
      assert LiesAt(c.message, u.read[i], j);
    } else {
      var i, f := MessageIsSplit(kindOf, w, m, tags, c, calls, u, n);
    }
  }

  /** Every message of the run whose last slot the receiver has handled arrives. */
  ghost predicate AllArrive(kindOf: InputWindow.KindOf, w: World, m: seq<byte>, calls: seq<Call>, u: World)
    decreases |calls|
  {
    calls != [] && Possible(kindOf, w, m, calls[0]) ==>
      && (Handled(w, m, calls[0], u) ==> Arrives(kindOf, u, GrantOf(w, m, calls[0]), calls[0].message))
      && AllArrive(kindOf, Step(kindOf, w, calls[0].event), calls[0].after, calls[1..], u)
  }

  /** None of them starts as fragments behind something else. */
  ghost predicate AllAlone(kindOf: InputWindow.KindOf, w: World, m: seq<byte>, calls: seq<Call>, u: World)
    decreases |calls|
  {
    calls != [] && Possible(kindOf, w, m, calls[0]) ==>
      && (Handled(w, m, calls[0], u) ==> StartsAlone(w.sender.ring.offset, GrantOf(w, m, calls[0])))
      && AllAlone(kindOf, Step(kindOf, w, calls[0].event), calls[0].after, calls[1..], u)
  }

  ghost predicate Handled(w: World, m: seq<byte>, c: Call, u: World)
    requires w.sender.ring.Configured()
  {
    c.event.Write? && !GrantOf(w, m, c).Refused? && GrantOf(w, m, c).Last() <= u.receiver.handled
  }

  lemma {:induction false} AllArriveExactly(kindOf: InputWindow.KindOf, w: World, m: seq<byte>, calls: seq<Call>,
      u: World, n: seq<byte>, tags: Tags)
    requires Sound(kindOf, w, m) && RunsTo(kindOf, w, m, calls, u, n) && Tidy(w.sender, m, tags)
    requires Fits(kindOf, u.sender.Wire(), TagsOfRun(kindOf, w, m, calls, tags))
    ensures AllArrive(kindOf, w, m, calls, u) <==> AllAlone(kindOf, w, m, calls, u)
    decreases |calls|
  {
    hide Sound, Possible, Step, Enabled, Tidy, GrantOf, Sender.Wire, Fits, Arrives, StartsAlone, TagsAfter;
    if calls != [] {
      var c := calls[0];
      CallIsSound(kindOf, w, m, c);
      CallIsTidy(kindOf, w, m, c, tags);
      AllArriveExactly(kindOf, Step(kindOf, w, c.event), c.after, calls[1..], u, n, TagsAfter(tags, w, m, c));
      if Handled(w, m, c, u) {
        ArrivesExactly(kindOf, w, m, tags, c, calls[1..], u, n);
      }
    }
  }

  /** Two streams just initialised. */
  ghost predicate Started(w: World, m: seq<byte>) {
    && Initial(w) && Matched(w) && w.sender.ring.Configured() && w.sender.Window(m)
    && SlotBase(w.sender.ring.slotSize, w.sender.ring.history) <= |m| && w.sender.ring.Len(m, 0) == w.sender.ring.offset
  }

  lemma StartIsTidy(kindOf: InputWindow.KindOf, w: World, m: seq<byte>)
    requires Started(w, m)
    ensures Sound(kindOf, w, m) && Tidy(w.sender, m, map[])
  {
    hide LenAt, Sender.Window;
    InitialIsSafe(kindOf, w);
  }

  /** A run from the start, of which the receiver sees the kinds that its writes ask for. */
  ghost predicate FittingRun(kindOf: InputWindow.KindOf, w: World, m: seq<byte>, calls: seq<Call>, u: World,
      n: seq<byte>) {
    && Started(w, m) && RunsTo(kindOf, w, m, calls, u, n)
    && Fits(kindOf, u.sender.Wire(), TagsOfRun(kindOf, w, m, calls, map[]))
  }

  /** Over every run from the start, under any kinds that fit its writes: all messages that the
      receiver has handled arrive if and only if none of them starts as fragments in a slot that
      holds something already. */
  lemma AllMessagesArrive(kindOf: InputWindow.KindOf, w: World, m: seq<byte>, calls: seq<Call>, u: World, n: seq<byte>)
    requires FittingRun(kindOf, w, m, calls, u, n)
    ensures AllArrive(kindOf, w, m, calls, u) <==> AllAlone(kindOf, w, m, calls, u)
  {
    hide Started, Sound, Tidy, RunsTo, Fits, AllArrive, AllAlone, Sender.Wire;
    StartIsTidy(kindOf, w, m);
    AllArriveExactly(kindOf, w, m, calls, u, n, map[]);
  }
}

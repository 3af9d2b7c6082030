/** The kinds of the slots.  The headers of fragments are stubs, so which bodies count as fragments
    is a matter of OnGetFragmentationInfo; what it should see in a slot is what the first writer
    of the slot would have put at its beginning. */
module ProtocolTags {
  import opened SeqNum
  import opened Memory
  import opened ReliableRing
  import opened SlotGeometry
  import opened OutputWindow
  import opened OutputGrant
  import opened OutputPath
  import opened FragmentChains
  import opened Protocol
  import opened ProtocolMemory
  import opened ProtocolMessages

  import InputWindow

  type Tags = map<int, InputWindow.FragmentationInfo>

  /** What a grant says of its slots. */
  function TagOf(g: Grant, k: int): InputWindow.FragmentationInfo
    requires !g.Refused?
  {
    if g.InSlot? then InputWindow.NotFragmented
    else if k < g.Last() then InputWindow.IntermediateFragment
    else InputWindow.LastFragment
  }

  /** A slot that has a tag keeps it. */
  ghost function WithGrant(tags: Tags, g: Grant): (more: Tags)
    requires !g.Refused?
    ensures forall k :: k in more <==> k in tags || g.First() <= k <= g.Last()
    ensures forall k | k in more :: more[k] == if k in tags then tags[k] else TagOf(g, k)
  {
    (map k | g.First() <= k <= g.Last() :: TagOf(g, k)) + tags
  }

  ghost function TagsAfter(tags: Tags, w: World, m: seq<byte>, c: Call): Tags
    requires w.sender.ring.Configured()
  {
    if c.event.Write? && !GrantOf(w, m, c).Refused? then WithGrant(tags, GrantOf(w, m, c)) else tags
  }

  /** The tags after a run. */
  ghost function TagsOfRun(kindOf: InputWindow.KindOf, w: World, m: seq<byte>, calls: seq<Call>, tags: Tags): Tags
    decreases |calls|
  {
    if calls == [] || !Possible(kindOf, w, m, calls[0]) then tags
    else TagsOfRun(kindOf, Step(kindOf, w, calls[0].event), calls[0].after, calls[1..], TagsAfter(tags, w, m, calls[0]))
  }

  /** The receiver sees in every body the kind of its slot. */
  ghost predicate Fits(kindOf: InputWindow.KindOf, wire: seq<seq<byte>>, tags: Tags) {
    forall k | 0 <= k < |wire| && k in tags :: kindOf(wire[k]) == tags[k]
  }

  /** Slot k has been written to, or is behind one that has. */
  ghost predicate InUse(s: Sender, m: seq<byte>, k: int)
    requires s.ring.history > 0
  {
    0 <= k < s.written || (k == s.written && k <= s.acked + s.ring.history && s.ring.Len(m, k) > s.ring.offset)
  }

  ghost predicate Tagged(s: Sender, m: seq<byte>, tags: Tags)
    requires s.ring.history > 0
  {
    forall k :: k in tags <==> InUse(s, m, k)
  }

  /** A last fragment comes less than history slots behind slot k. */
  ghost predicate EndsSoon(tags: Tags, k: int, history: nat) {
    exists j | k < j < k + history :: j in tags && tags[j].LastFragment?
  }

  /** Behind an intermediate fragment comes another fragment, and soon a last one. */
  ghost predicate Closed(tags: Tags, history: nat) {
    forall k | k in tags && tags[k].IntermediateFragment? ::
      k + 1 in tags && !tags[k + 1].NotFragmented? && EndsSoon(tags, k, history)
  }

  /** Fragments have bytes behind their subheaders. */
  ghost predicate Filled(s: Sender, m: seq<byte>, tags: Tags)
    requires s.ring.history > 0 && |s.log| == s.sent + 1
  {
    forall k | k in tags && 0 <= k && !tags[k].NotFragmented? :: |SlotNow(s, m, k)| > s.ring.offset + SUBHEADER_SIZE
  }

  ghost predicate Tidy(s: Sender, m: seq<byte>, tags: Tags) {
    && s.ring.history > 0 && |s.log| == s.sent + 1
    && Tagged(s, m, tags) && Closed(tags, s.ring.history) && Filled(s, m, tags)
  }

  lemma WriteTags(s: Sender, m: seq<byte>, n: seq<byte>, length: nat, g: Grant, tags: Tags)
    requires s.ring.Configured() && s.Counters() && length > 0 && GrantFits(s, m, length, g) && !g.Refused?
    requires LengthsGranted(s, m, n, length, g) && Tagged(s, m, tags)
    ensures Tagged(s.(written := g.Last()), n, WithGrant(tags, g))
  {
    hide IsPowerOfTwo, Ring.Len;
    LengthAt(s, m, n, length, g, g.Last());
  }

  lemma FreshSlots(s: Sender, m: seq<byte>, length: nat, g: Grant, tags: Tags, k: int)
    requires s.ring.Configured() && s.Counters() && GrantFits(s, m, length, g) && !g.Refused?
    requires Tagged(s, m, tags) && g.First() < k
    ensures k !in tags
  {}

  lemma WriteCloses(s: Sender, m: seq<byte>, length: nat, g: Grant, tags: Tags)
    requires s.ring.Configured() && s.Counters() && GrantFits(s, m, length, g) && !g.Refused?
    requires Tagged(s, m, tags) && Closed(tags, s.ring.history)
    ensures Closed(WithGrant(tags, g), s.ring.history)
  {
    hide IsPowerOfTwo, Ring.Len, Tagged;
    var more := WithGrant(tags, g);
    forall k | k in more && more[k].IntermediateFragment?
      ensures k + 1 in more && !more[k + 1].NotFragmented? && EndsSoon(more, k, s.ring.history)
    {
      if k in tags {
        var j :| k < j < k + s.ring.history && j in tags && tags[j].LastFragment?;
        assert j in more && more[j].LastFragment?;
      } else {
        FreshSlots(s, m, length, g, tags, k + 1);
        FreshSlots(s, m, length, g, tags, g.Last());
        assert more[g.Last()].LastFragment?;
      }
    }
  }

  lemma SendTags(s: Sender, m: seq<byte>, tags: Tags)
    requires s.Window(m) && s.ring.history > 0 && s.Sendable(m) && Tagged(s, m, tags)
    ensures Tagged(s.Sent(m), m, tags)
  {
    hide Ring.Len, Ring.Message;
    var t := s.Sent(m);
    if t.written <= t.acked + t.ring.history {
      WindowAt(s, m, t.written);
    }
  }

  lemma AckTags(s: Sender, m: seq<byte>, n: seq<byte>, acked: int, tags: Tags)
    requires s.ring.history > 0 && s.Counters() && s.acked <= acked <= s.sent
    requires OnlyFreed(s, acked, m, n) && AllFreed(s, acked, n) && Tagged(s, m, tags)
    ensures Tagged(s.(acked := acked), n, tags)
  {
    hide LenAt;
    if s.written == s.acked + s.ring.history + 1 && s.acked < acked {
      SlotIsPeriodic(s.ring.history, s.acked + 1);
      assert s.ring.Len(n, s.written) == s.ring.Len(n, s.acked + 1);
    }
  }

  lemma FragmentIsLong(v: Sender, m: seq<byte>, length: nat, g: Grant, k: int)
    requires v.ring.Configured() && GrantFits(v, m, length, g) && g.InFragments? && g.first <= k <= g.Last()
    ensures GrantedLen(v, m, length, g, k) > v.ring.offset + SUBHEADER_SIZE
  {
    FullSlot(v, m, length, g, k);
  }

  lemma CallFills(kindOf: InputWindow.KindOf, w: World, m: seq<byte>, c: Call, tags: Tags)
    requires Sound(kindOf, w, m) && Possible(kindOf, w, m, c) && Tidy(w.sender, m, tags)
    ensures w.sender.ring.Configured() && Enabled(kindOf, w, c.event)
    ensures var t := Step(kindOf, w, c.event).sender;
      t.ring == w.sender.ring && |t.log| == t.sent + 1 && Filled(t, c.after, TagsAfter(tags, w, m, c))
  {
    hide Ring.Configured, Possible, Sound, Enabled, Step, GrantFor, SlotNow, GrantFits, LengthsGranted, GrantedLen;
    hide Closed, MessageWritten;
    CallIsSound(kindOf, w, m, c);
    SoundMeans(kindOf, w, m);
    var v, more := Step(kindOf, w, c.event), TagsAfter(tags, w, m, c);
    SoundMeans(kindOf, v, c.after);
    forall k | k in more && 0 <= k && !more[k].NotFragmented?
      ensures |SlotNow(v.sender, c.after, k)| > v.sender.ring.offset + SUBHEADER_SIZE
    {
      if k in tags {
        assert InUse(w.sender, m, k);
        CallGrows(kindOf, w, m, c, k);
      } else {
        GrantIsGood(kindOf, w, m, c);
        var g := GrantOf(w, m, c);
        assert g.InFragments?;
        SentUnchanged(kindOf, w, c.event);
        LengthAt(w.sender, m, c.after, |c.message|, g, k);
        FragmentIsLong(w.sender, m, |c.message|, g, k);
        SlotsAreSmall(kindOf, v, c.after, k);
      }
    }
  }

  lemma SentUnchanged(kindOf: InputWindow.KindOf, w: World, e: Event)
    requires e.Write? && Enabled(kindOf, w, e)
    ensures Step(kindOf, w, e).sender == w.sender.(written := e.written)
  {}

  lemma WriteIsTagged(kindOf: InputWindow.KindOf, w: World, m: seq<byte>, c: Call, tags: Tags)
    requires Sound(kindOf, w, m) && Possible(kindOf, w, m, c) && Tidy(w.sender, m, tags) && c.event.Write?
    ensures w.sender.ring.Configured() && Enabled(kindOf, w, c.event)
    ensures var t, more := Step(kindOf, w, c.event).sender, TagsAfter(tags, w, m, c);
      t.ring == w.sender.ring && Tagged(t, c.after, more) && Closed(more, t.ring.history)
  {
    hide Ring.Configured, Sound, GrantFor, GrantFits, LengthsGranted, Sender.Window, MessageWritten, Closed;
    hide Tagged, Filled;
    GrantIsGood(kindOf, w, m, c);
    SoundMeans(kindOf, w, m);
    WriteTags(w.sender, m, c.after, |c.message|, GrantOf(w, m, c), tags);
    WriteCloses(w.sender, m, |c.message|, GrantOf(w, m, c), tags);
  }

  lemma SendIsTagged(kindOf: InputWindow.KindOf, w: World, m: seq<byte>, c: Call, tags: Tags)
    requires Sound(kindOf, w, m) && Possible(kindOf, w, m, c) && Tidy(w.sender, m, tags) && c.event.Send?
    ensures Enabled(kindOf, w, c.event)
    ensures var t := Step(kindOf, w, c.event).sender;
      t.ring == w.sender.ring && t.ring.history > 0 && Tagged(t, c.after, tags)
  {
    hide Ring.Configured, Sound, Sender.Window, Sender.Sendable, Closed, Tagged, Filled, Ring.Message, Chained;
    hide Sender.Wire;
    SoundMeans(kindOf, w, m);
    SendTags(w.sender, m, tags);
  }

  lemma AckIsTagged(kindOf: InputWindow.KindOf, w: World, m: seq<byte>, c: Call, tags: Tags)
    requires Sound(kindOf, w, m) && Possible(kindOf, w, m, c) && Tidy(w.sender, m, tags) && c.event.AckArrives?
    ensures Enabled(kindOf, w, c.event)
    ensures var t := Step(kindOf, w, c.event).sender;
      t.ring == w.sender.ring && t.ring.history > 0 && Tagged(t, c.after, tags)
  {
    hide Ring.Configured, Sound, Safe, Sender.Window, Closed, Tagged, Filled, OnlyFreed, AllFreed, Unwrap;
    SoundMeans(kindOf, w, m);
    AckIsRight(kindOf, w, c.event.i);
    AckTags(w.sender, m, c.after, Unwrap(w.sender.acked, w.acks[c.event.i].firstUnacked) - 1, tags);
  }

  lemma OthersLeaveSender(kindOf: InputWindow.KindOf, w: World, m: seq<byte>, c: Call)
    requires Possible(kindOf, w, m, c) && !c.event.Write? && !c.event.Send? && !c.event.AckArrives?
    ensures Enabled(kindOf, w, c.event) && Step(kindOf, w, c.event).sender == w.sender && c.after == m
  {
    hide AfterRead, ReadOf;
  }

  lemma CallIsTidy(kindOf: InputWindow.KindOf, w: World, m: seq<byte>, c: Call, tags: Tags)
    requires Sound(kindOf, w, m) && Possible(kindOf, w, m, c) && Tidy(w.sender, m, tags)
    ensures w.sender.ring.Configured() && Enabled(kindOf, w, c.event)
    ensures Tidy(Step(kindOf, w, c.event).sender, c.after, TagsAfter(tags, w, m, c))
  {
    hide Ring.Configured, Sound, Possible, Step, Enabled, GrantOf, Closed, Tagged, Filled;
    CallFills(kindOf, w, m, c, tags);
    match c.event
    case Write(_) => WriteIsTagged(kindOf, w, m, c, tags);
    case Send(_) => SendIsTagged(kindOf, w, m, c, tags);
    case AckArrives(_) => AckIsTagged(kindOf, w, m, c, tags);
    case _ => OthersLeaveSender(kindOf, w, m, c);
  }

  lemma {:induction false} RunIsTidy(kindOf: InputWindow.KindOf, w: World, m: seq<byte>, calls: seq<Call>, u: World,
      n: seq<byte>, tags: Tags)
    requires Sound(kindOf, w, m) && RunsTo(kindOf, w, m, calls, u, n) && Tidy(w.sender, m, tags)
    ensures Sound(kindOf, u, n) && Tidy(u.sender, n, TagsOfRun(kindOf, w, m, calls, tags))
    ensures tags.Keys <= TagsOfRun(kindOf, w, m, calls, tags).Keys
    ensures forall k | k in tags :: TagsOfRun(kindOf, w, m, calls, tags)[k] == tags[k]
    decreases |calls|
  {
    hide Sound, Possible, Step, Enabled, Tidy, GrantFor;
    if calls != [] {
      var c := calls[0];
      CallIsSound(kindOf, w, m, c);
      CallIsTidy(kindOf, w, m, c, tags);
      RunIsTidy(kindOf, Step(kindOf, w, c.event), c.after, calls[1..], u, n, TagsAfter(tags, w, m, c));
    }
  }

  /** With fitting kinds a slot that may be sent never breaks a chain: what a step of the protocol
      asks of a sent message comes from the writes. */
  lemma SendIsPossible(kindOf: InputWindow.KindOf, w: World, m: seq<byte>, tags: Tags)
    requires Sound(kindOf, w, m) && Tidy(w.sender, m, tags) && w.sender.Sendable(m)
    requires Fits(kindOf, SendNext(w.sender, w.sender.ring.Message(m, w.sender.sent + 1)).Wire(), tags)
    ensures w.sender.ring.history > 0
    ensures var message := w.sender.ring.Message(m, w.sender.sent + 1);
      Possible(kindOf, w, m, Call(Send(message), [], m))
  {
    hide Safe, Ring.Configured, Sender.Window, Ring.Len, Ring.Message, Closed, Filled, Tagged, Chained, Bodies;
    SoundMeans(kindOf, w, m);
    var s := w.sender;
    var message := s.ring.Message(m, s.sent + 1);
    var t := SendNext(s, message);
    SendDecision(s, m);
    SlotHasLength(s, m);
    ChainedByTags(kindOf, s, m, message, tags);
  }

  lemma SlotHasLength(s: Sender, m: seq<byte>)
    requires s.Window(m) && s.ring.Configured() && SlotBase(s.ring.slotSize, s.ring.history) <= |m| && s.Sendable(m)
    ensures s.ring.offset < |s.ring.Message(m, s.sent + 1)| <= s.ring.Capacity() && s.sent < s.acked + s.ring.history
  {
    hide LenAt, AreaAt, IsPowerOfTwo, Ring.Message;
    WindowAt(s, m, s.sent + 1);
    MessageHasLength(s.ring, m, s.sent + 1);
  }

  lemma ChainedByTags(kindOf: InputWindow.KindOf, s: Sender, m: seq<byte>, message: seq<byte>, tags: Tags)
    requires Tidy(s, m, tags) && s.Counters() && s.Sendable(m) && message == s.ring.Message(m, s.sent + 1)
    requires Fits(kindOf, SendNext(s, message).Wire(), tags)
    ensures Chained(kindOf, SendNext(s, message).Wire(), s.ring.history)
  {
    hide Ring.Len, Ring.Message;
    var wire, h := SendNext(s, message).Wire(), s.ring.history;
    forall k | 0 <= k < |wire|
      ensures k in tags && kindOf(wire[k]) == tags[k]
      ensures !tags[k].NotFragmented? ==> |wire[k]| > SUBHEADER_SIZE
    {
      assert InUse(s, m, k);
      assert |wire[k]| >= |SlotNow(s, m, k)| - s.ring.offset;
    }
    forall k, end | 0 <= k <= end <= |wire| && end == k + h
      ensures HasEnd(kindOf, wire, k, end)
    {
      if tags[k].IntermediateFragment? {
        var j :| k < j < k + h && j in tags && tags[j].LastFragment?;
        assert !kindOf(wire[j]).IntermediateFragment?;
      } else {
        assert !kindOf(wire[k]).IntermediateFragment?;
      }
    }
    forall k | 0 < k < |wire| && kindOf(wire[k]).NotFragmented?
      ensures !kindOf(wire[k - 1]).IntermediateFragment?
    {
      assert k - 1 in tags && k in tags;
      assert (k - 1) + 1 == k;
    }
  }
}

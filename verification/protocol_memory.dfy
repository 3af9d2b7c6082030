/** The protocol together with the memory of the sender's ring, so that a message can be followed
    from the call that writes it to the reader that gets it. */
module ProtocolMemory {
  import opened SeqNum
  import opened Memory
  import opened ReliableRing
  import opened SlotGeometry
  import opened OutputWindow
  import opened OutputGrant
  import opened OutputPath
  import opened Protocol

  import InputWindow

  /** A step with what it leaves in the memory; `message` is what WriteMessage is called with. */
  datatype Call = Call(event: Event, message: seq<byte>, after: seq<byte>)

  /** The contracts of WriteMessage, PrepareNextToSend and ProcessAcknack say what a call may do to
      the memory; no other call of the sender touches it. */
  ghost predicate Possible(kindOf: InputWindow.KindOf, w: World, m: seq<byte>, c: Call) {
    var s := w.sender;
    && s.ring.Configured() && Enabled(kindOf, w, c.event) && |c.after| == |m|
    && Step(kindOf, w, c.event).sender.Window(c.after)
    && match c.event
       case Write(written) =>
         c.message != [] && MessageWritten(s, m, c.after, c.message) && written == GrantFor(s, m, |c.message|).Last()
       case Send(message) => s.Sendable(m) && message == s.ring.Message(m, s.sent + 1) && c.after == m
       case AckArrives(_) =>
         var acked := Step(kindOf, w, c.event).sender.acked;
         OnlyFreed(s, acked, m, c.after) && AllFreed(s, acked, c.after)
       case _ => c.after == m
  }

  /** From world w with memory m the calls lead to u and n. */
  ghost predicate RunsTo(kindOf: InputWindow.KindOf, w: World, m: seq<byte>, calls: seq<Call>, u: World, n: seq<byte>)
    decreases |calls|
  {
    if calls == [] then u == w && n == m
    else Possible(kindOf, w, m, calls[0]) && RunsTo(kindOf, Step(kindOf, w, calls[0].event), calls[0].after, calls[1..], u, n)
  }

  ghost predicate Sound(kindOf: InputWindow.KindOf, w: World, m: seq<byte>) {
    && Safe(kindOf, w) && w.sender.ring.Configured() && w.sender.Window(m)
    && SlotBase(w.sender.ring.slotSize, w.sender.ring.history) <= |m|
  }

  lemma SoundMeans(kindOf: InputWindow.KindOf, w: World, m: seq<byte>)
    requires Sound(kindOf, w, m)
    ensures Safe(kindOf, w) && w.sender.ring.Configured() && w.sender.Window(m) && w.sender.Counters()
    ensures SlotBase(w.sender.ring.slotSize, w.sender.ring.history) <= |m|
  {}

  /** Slot number k, as it was sent or else as it is in memory. */
  ghost function SlotNow(s: Sender, m: seq<byte>, k: int): seq<byte>
    requires s.ring.history > 0 && 0 <= k && |s.log| == s.sent + 1
  {
    if k <= s.sent then s.log[k] else s.ring.Message(m, k)
  }

  /** The call puts (the first bytes of) a message into slot k. */
  ghost predicate StartsAt(w: World, m: seq<byte>, c: Call, k: int)
    requires w.sender.ring.Configured()
  {
    var g := GrantFor(w.sender, m, |c.message|);
    c.event.Write? && !g.Refused? && g.First() == k
  }

  /** Some call of the run does. */
  ghost predicate StartsIn(kindOf: InputWindow.KindOf, w: World, m: seq<byte>, calls: seq<Call>, k: int)
    decreases |calls|
  {
    calls != [] && Possible(kindOf, w, m, calls[0]) &&
    (StartsAt(w, m, calls[0], k) || StartsIn(kindOf, Step(kindOf, w, calls[0].event), calls[0].after, calls[1..], k))
  }

  /** What the contract of WriteMessage ensures makes a step. */
  lemma WriteIsPossible(kindOf: InputWindow.KindOf, w: World, m: seq<byte>, n: seq<byte>, message: seq<byte>)
    requires Sound(kindOf, w, m) && message != [] && |n| == |m|
    requires w.sender.ring.Configured() && MessageWritten(w.sender, m, n, message)
    requires w.sender.(written := GrantFor(w.sender, m, |message|).Last()).Window(n)
    ensures Possible(kindOf, w, m, Call(Write(GrantFor(w.sender, m, |message|).Last()), message, n))
  {
    hide Safe, Ring.Configured, Sender.Window, GrantFor, Payload, AppendOnly, LengthsGranted, OthersKept;
    SoundMeans(kindOf, w, m);
  }

  /** So does what the contract of ProcessAcknack ensures, for every acknowledgement that may arrive. */
  lemma AckIsPossible(kindOf: InputWindow.KindOf, w: World, m: seq<byte>, n: seq<byte>, i: nat)
    requires Sound(kindOf, w, m) && Enabled(kindOf, w, AckArrives(i)) && |n| == |m| && w.sender.ring.Configured()
    requires var t := w.sender.(acked := Unwrap(w.sender.acked, w.acks[i].firstUnacked) - 1);
      AckInRange(w.sender, w.acks[i].firstUnacked) ==>
        t.Window(n) && OnlyFreed(w.sender, t.acked, m, n) && AllFreed(w.sender, t.acked, n)
    ensures Possible(kindOf, w, m, Call(AckArrives(i), [], n))
  {
    hide Safe, Ring.Configured, Sender.Window, OnlyFreed, AllFreed, Unwrap;
    SoundMeans(kindOf, w, m);
    AckIsRight(kindOf, w, i);
  }

  lemma CallIsSound(kindOf: InputWindow.KindOf, w: World, m: seq<byte>, c: Call)
    requires Sound(kindOf, w, m) && Possible(kindOf, w, m, c)
    ensures Enabled(kindOf, w, c.event) && Sound(kindOf, Step(kindOf, w, c.event), c.after)
    ensures var s, t := w.sender, Step(kindOf, w, c.event).sender;
      && t.ring == s.ring && s.log <= t.log && s.acked <= t.acked && s.sent <= t.sent && s.written <= t.written
  {
    hide Safe, Ring.Configured, Sender.Window, Sender.Sendable, MessageWritten, GrantFor, OnlyFreed, AfterRead;
    hide AllFreed, Unwrap;
    StepIsSafe(kindOf, w, c.event);
    if c.event.AckArrives? {
      AckIsRight(kindOf, w, c.event.i);
    }
  }

  lemma {:induction false} RunIsSound(kindOf: InputWindow.KindOf, w: World, m: seq<byte>, calls: seq<Call>,
      u: World, n: seq<byte>)
    requires Sound(kindOf, w, m) && RunsTo(kindOf, w, m, calls, u, n)
    ensures Sound(kindOf, u, n) && u.sender.ring == w.sender.ring && w.sender.log <= u.sender.log
    decreases |calls|
  {
    hide Sound, Possible, Step, Enabled;
    if calls != [] {
      CallIsSound(kindOf, w, m, calls[0]);
      RunIsSound(kindOf, Step(kindOf, w, calls[0].event), calls[0].after, calls[1..], u, n);
    }
  }

  /** A slot in use keeps what it holds, and grows exactly by the messages that start in it. */
  lemma CallGrows(kindOf: InputWindow.KindOf, w: World, m: seq<byte>, c: Call, k: int)
    requires Sound(kindOf, w, m) && Possible(kindOf, w, m, c)
    requires 0 <= k <= w.sender.written && k <= w.sender.acked + w.sender.ring.history
    ensures Enabled(kindOf, w, c.event)
    ensures var s, t := w.sender, Step(kindOf, w, c.event).sender;
      && k <= t.written && k <= t.acked + t.ring.history
      && s.ring.history > 0 && |s.log| == s.sent + 1 && t.ring == s.ring && |t.log| == t.sent + 1
      && SlotNow(s, m, k) <= SlotNow(t, c.after, k)
      && (SlotNow(s, m, k) == SlotNow(t, c.after, k) <==> !StartsAt(w, m, c, k))
  {
    hide Safe, Ring.Configured, Sender.Window, MessageWritten, GrantFor, OnlyFreed, AfterRead, Unwrap;
    hide Ring.Message, Ring.Len;
    SoundMeans(kindOf, w, m);
    CallIsSound(kindOf, w, m, c);
    SoundMeans(kindOf, Step(kindOf, w, c.event), c.after);
    var s, t := w.sender, Step(kindOf, w, c.event).sender;
    match c.event
    case Write(_) => WriteGrows(s, m, c.after, c.message, k);
    case Send(_) =>
    case AckArrives(_) => AckLeaves(s, t.acked, m, c.after, k);
    case _ =>
  }

  lemma AckLeaves(s: Sender, acked: int, m: seq<byte>, n: seq<byte>, k: int)
    requires s.ring.history > 0 && OnlyFreed(s, acked, m, n)
    ensures acked < k <= s.acked + s.ring.history ==> s.ring.Message(n, k) == s.ring.Message(m, k)
  {}

  lemma WriteGrows(s: Sender, m: seq<byte>, n: seq<byte>, message: seq<byte>, k: int)
    requires s.ring.Configured() && s.Counters() && s.Window(m) && message != [] && MessageWritten(s, m, n, message)
    requires SlotBase(s.ring.slotSize, s.ring.history) <= |m| == |n|
    requires s.(written := GrantFor(s, m, |message|).Last()).Window(n)
    requires 0 <= k <= s.written && k <= s.acked + s.ring.history
    ensures s.ring.history > 0
    ensures SlotNow(s, m, k) <= SlotNow(s, n, k)
    ensures var g := GrantFor(s, m, |message|);
      !g.Refused? && (SlotNow(s, m, k) == SlotNow(s, n, k) <==> g.First() != k)
  {
    hide IsPowerOfTwo, Ring.Message, Ring.Len, Sender.Window, FreeSlots;
    var g := GrantFor(s, m, |message|);
    if k > s.sent {
      WindowAt(s, m, k);
      WindowAt(s.(written := g.Last()), n, k);
      MessageHasLength(s.ring, m, k);
      MessageHasLength(s.ring, n, k);
      assert s.ring.Len(n, k) == GrantedLen(s, m, |message|, g, k);
    }
  }

  /** The same over runs. */
  lemma {:induction false} RunGrows(kindOf: InputWindow.KindOf, w: World, m: seq<byte>, calls: seq<Call>,
      u: World, n: seq<byte>, k: int)
    requires Sound(kindOf, w, m) && RunsTo(kindOf, w, m, calls, u, n)
    requires 0 <= k <= w.sender.written && k <= w.sender.acked + w.sender.ring.history
    ensures var s, t := w.sender, u.sender;
      && s.ring.history > 0 && |s.log| == s.sent + 1 && t.ring == s.ring && |t.log| == t.sent + 1
      && SlotNow(s, m, k) <= SlotNow(t, n, k)
      && (SlotNow(s, m, k) == SlotNow(t, n, k) <==> !StartsIn(kindOf, w, m, calls, k))
    decreases |calls|
  {
    hide Sound, Possible, Step, Enabled, SlotNow, StartsAt, Ring.Configured;
    SoundMeans(kindOf, w, m);
    ConfiguredMeans(w.sender.ring);
    if calls != [] {
      var c := calls[0];
      CallIsSound(kindOf, w, m, c);
      CallGrows(kindOf, w, m, c, k);
      var v := Step(kindOf, w, c.event);
      RunGrows(kindOf, v, c.after, calls[1..], u, n, k);
      PrefixesChain(SlotNow(w.sender, m, k), SlotNow(v.sender, c.after, k), SlotNow(u.sender, n, k));
    }
  }

  lemma PrefixesChain(a: seq<byte>, b: seq<byte>, c: seq<byte>)
    requires a <= b <= c
    ensures a <= c && (a == c <==> a == b && b == c)
  {}

  lemma ConfiguredMeans(r: Ring)
    requires r.Configured()
    ensures r.history > 0
  {}

  lemma SlotsAreSmall(kindOf: InputWindow.KindOf, w: World, m: seq<byte>, k: int)
    requires Sound(kindOf, w, m) && w.sender.acked < k <= w.sender.acked + w.sender.ring.history && w.sender.sent < k
    ensures |w.sender.log| == w.sender.sent + 1 && 0 <= k && w.sender.ring.history > 0
    ensures |SlotNow(w.sender, m, k)| == w.sender.ring.Len(m, k) <= w.sender.ring.Capacity()
  {
    hide Safe;
    WindowAt(w.sender, m, k);
    MessageHasLength(w.sender.ring, m, k);
  }
}

/** The send window of an output reliable stream: what the slot ring means. */
module OutputWindow {
  import opened SeqNum
  import opened Memory
  import opened ReliableRing
  import opened SlotGeometry

  /** A message handed to the transport, with its sequence number. */
  datatype Packet = Packet(seqNum: uint16, message: seq<byte>)

  /** The packets of the log entries first..end. */
  ghost function LogPackets(log: seq<seq<byte>>, first: int, end: int): seq<Packet>
    requires 0 <= first <= end <= |log|
    decreases end - first
  {
    if first == end then [] else LogPackets(log, first, end - 1) + [Packet(Wrap(end - 1), log[end - 1])]
  }

  /** A message behind its header of `offset` bytes. */
  function BodyOf(message: seq<byte>, offset: nat): seq<byte> {
    if offset <= |message| then message[offset..] else []
  }

  ghost function Bodies(log: seq<seq<byte>>, offset: nat): (bodies: seq<seq<byte>>)
    ensures |bodies| == |log| && forall i | 0 <= i < |log| :: bodies[i] == BodyOf(log[i], offset)
  {
    seq(|log|, i requires 0 <= i < |log| => BodyOf(log[i], offset))
  }

  lemma BodiesGrow(log: seq<seq<byte>>, more: seq<seq<byte>>, offset: nat)
    requires log <= more
    ensures Bodies(log, offset) <= Bodies(more, offset)
  {}

  /** The stream in unbounded counters.  Slot k of the ring is free, open, full or sent
      according to where k lies between acked, sent and written; `log` keeps what was sent. */
  datatype Sender = Sender(ring: Ring, acked: int, sent: int, written: int, log: seq<seq<byte>>) {
    /** What was sent, without the headers. */
    ghost function Wire(): (bodies: seq<seq<byte>>)
      ensures |bodies| == |log|
    {
      Bodies(log, ring.offset)
    }

    ghost predicate Counters() {
      -1 <= acked <= sent < written <= acked + ring.history + 1 && |log| == sent + 1
    }

    /** Sent slots hold what was sent, slots up to the open one hold something, slots after
        it are empty. */
    ghost predicate SlotOk(m: seq<byte>, k: int)
      requires ring.history > 0 && |log| == sent + 1 && 0 <= k
    {
      && ring.offset <= ring.Len(m, k) <= ring.Capacity()
      && (k < written ==> ring.offset < ring.Len(m, k))
      && (k > written ==> ring.Len(m, k) == ring.offset)
      && (k <= sent ==> ring.Message(m, k) == log[k])
    }

    /** The window invariant. */
    ghost predicate Window(m: seq<byte>) {
      var holds :=
        && ring.Configured() && Counters()
        && forall k | acked < k <= acked + ring.history :: SlotOk(m, k);
      holds
    }

    /** Sending the next message is possible. */
    ghost predicate Sendable(m: seq<byte>)
      requires ring.history > 0
    {
      sent < acked + ring.history && (sent + 1 < written || ring.offset < ring.Len(m, written))
    }

    ghost function Sent(m: seq<byte>): Sender
      requires ring.history > 0
    {
      this.(sent := sent + 1, written := if sent + 1 == written then written + 1 else written,
      log := log + [ring.Message(m, sent + 1)])
    }
  }

  /** From m to n no slot behind the acknowledged ones lost or got anything. */
  ghost predicate OnlyFreed(v: Sender, acked: int, m: seq<byte>, n: seq<byte>)
    requires v.ring.history > 0
  {
    var holds :=
      forall k | acked < k <= v.acked + v.ring.history ::
        v.ring.Len(n, k) == v.ring.Len(m, k) && v.ring.Message(n, k) == v.ring.Message(m, k);
    holds
  }

  /** An acknowledgement that stands for a number from the last acknowledged to the last sent one. */
  ghost predicate AckInRange(v: Sender, firstUnacked: uint16) {
    v.acked <= Unwrap(v.acked, firstUnacked) - 1 <= v.sent
  }

  /** The slots of the numbers from v.acked + 1 to `acked` are empty. */
  ghost predicate AllFreed(v: Sender, acked: int, n: seq<byte>)
    requires v.ring.history > 0
  {
    var holds := forall k | v.acked < k <= acked :: v.ring.Len(n, k) == v.ring.offset;
    holds
  }

  lemma FreeOneMore(v: Sender, acked: int, n: seq<byte>, n': seq<byte>)
    requires v.ring.history > 0 && AllFreed(v, acked, n)
    requires OnlyLengthSet(n, n', v.ring.slotSize, v.ring.history, Slot(v.ring.history, acked + 1), v.ring.offset)
    ensures AllFreed(v, acked + 1, n')
  {
    hide LenAt, AreaAt;
    forall k | v.acked < k <= acked + 1
      ensures v.ring.Len(n', k) == v.ring.offset
    {
      var slot := Slot(v.ring.history, k);
      assert LenAt(n', v.ring.slotSize, slot) ==
        if slot == Slot(v.ring.history, acked + 1) then v.ring.offset else LenAt(n, v.ring.slotSize, slot);
      assert k <= acked ==> v.ring.Len(n, k) == v.ring.offset;
    }
  }

  lemma FreeNext(v: Sender, acked: int, m: seq<byte>, n: seq<byte>, n': seq<byte>)
    requires v.ring.history > 0 && v.acked <= acked && OnlyFreed(v, acked, m, n)
    requires OnlyLengthSet(n, n', v.ring.slotSize, v.ring.history, Slot(v.ring.history, acked + 1), v.ring.offset)
    ensures OnlyFreed(v, acked + 1, m, n')
  {
    SetInWindow(v.ring, n, n', acked + 1, v.ring.offset);
  }

  lemma SendKeepsWindow(v: Sender, m: seq<byte>)
    requires v.Window(m) && v.Sendable(m)
    ensures v.Sent(m).Window(m)
  {
    var t := v.Sent(m);
    forall k | t.acked < k <= t.acked + t.ring.history
      ensures t.SlotOk(m, k)
    {
      assert v.SlotOk(m, k);
    }
  }

  /** An acknowledged slot is emptied and the window moves on by one; the slot that comes in at
      the far end is the one that was emptied. */
  lemma AckKeepsWindow(v: Sender, m: seq<byte>, n: seq<byte>)
    requires v.Window(m) && v.acked < v.sent
    requires OnlyLengthSet(m, n, v.ring.slotSize, v.ring.history, Slot(v.ring.history, v.acked + 1), v.ring.offset)
    ensures v.(acked := v.acked + 1).Window(n)
  {
    var t := v.(acked := v.acked + 1);
    SetInWindow(v.ring, m, n, t.acked, v.ring.offset);
    SlotIsPeriodic(v.ring.history, t.acked);
    forall k | t.acked < k <= t.acked + t.ring.history
      ensures t.SlotOk(n, k)
    {
      if k < t.acked + t.ring.history {
        assert v.SlotOk(m, k);
      } else {
        assert v.ring.Len(n, k) == v.ring.Len(n, t.acked);
        assert v.SlotOk(m, t.acked);
      }
    }
  }

  /** How many slots an acknowledgement frees: no more than were sent exactly if it stands for a
      number from the last acknowledged to the last sent one, and then just those up to it.  One
      that goes back, as a late copy does, frees every slot of the ring, sent or not. */
  lemma AckFreesWhatItNames(v: Sender, firstUnacked: uint16)
    requires v.Counters() && v.ring.Configured()
    ensures var named, count := Unwrap(v.acked, firstUnacked) - 1, Sub(Sub(firstUnacked, 1), Wrap(v.acked));
      && (count <= v.sent - v.acked <==> AckInRange(v, firstUnacked))
      && (v.acked <= named ==> count == named - v.acked)
      && (named < v.acked ==> count == SEQ_NUM_SIZE - (v.acked - named) && count > v.ring.history)
  {
    hide IsPowerOfTwo, Add, Sub, Unwrap, Wrap;
    var named := Unwrap(v.acked, firstUnacked) - 1;
    CmpSeesUnwrap(v.acked, firstUnacked);
    SubIsExact(named + 1, 1);
    UnwrapIsNear(v.acked, firstUnacked);
    if named >= v.acked {
      SubGivesDistance(named, v.acked);
    } else {
      WrapIsPeriodic(named);
      SubGivesDistance(named + SEQ_NUM_SIZE, v.acked);
    }
  }

  lemma UnwrapIsNear(near: int, seqNum: uint16)
    ensures -SEQ_NUM_MIDSIZE <= Unwrap(near, seqNum) - near < SEQ_NUM_MIDSIZE
  {}

  lemma WrapIsPeriodic(k: int)
    ensures Wrap(k + SEQ_NUM_SIZE) == Wrap(k)
  {}

  lemma WindowAt(v: Sender, m: seq<byte>, k: int)
    requires v.Window(m) && v.acked < k <= v.acked + v.ring.history
    ensures v.ring.history > 0 && |v.log| == v.sent + 1 && v.SlotOk(m, k)
  {}

  lemma SendDecision(v: Sender, m: seq<byte>)
    requires v.Window(m)
    ensures v.ring.history > 0 && v.sent < v.written
    ensures v.Sendable(m) == (v.ring.Len(m, v.sent + 1) > v.ring.offset && v.sent - v.acked != v.ring.history)
    ensures v.Sendable(m) ==> v.Sent(m).Window(m) && v.ring.offset <= v.ring.Len(m, v.sent + 1) <= v.ring.Capacity()
  {
    if v.sent - v.acked < v.ring.history {
      WindowAt(v, m, v.sent + 1);
    }
    if v.Sendable(m) {
      SendKeepsWindow(v, m);
    }
  }

  lemma WindowMeans(v: Sender, m: seq<byte>)
    requires v.Window(m)
    ensures v.ring.Configured() && v.Counters()
  {}

  lemma LogPacketsEmpty(log: seq<seq<byte>>, at: int)
    requires 0 <= at <= |log|
    ensures LogPackets(log, at, at) == []
  {}

  lemma LogPacketsNext(log: seq<seq<byte>>, first: int, end: int)
    requires 0 <= first <= end < |log|
    ensures LogPackets(log, first, end + 1) == LogPackets(log, first, end) + [Packet(Wrap(end), log[end])]
  {}

  lemma {:induction false} LogPacketsPrefix(log: seq<seq<byte>>, more: seq<seq<byte>>, first: int, end: int)
    requires 0 <= first <= end <= |log| && log <= more
    ensures LogPackets(more, first, end) == LogPackets(log, first, end)
    decreases end - first
  {
    hide Wrap;
    if first < end {
      LogPacketsPrefix(log, more, first, end - 1);
    }
  }

  lemma LogPacketsGrow(log: seq<seq<byte>>, more: seq<seq<byte>>, first: int)
    requires 0 <= first <= |log| && log <= more && |more| == |log| + 1
    ensures LogPackets(more, first, |more|) == LogPackets(log, first, |log|) + [Packet(Wrap(|log|), more[|log|])]
  {
    LogPacketsPrefix(log, more, first, |log|);
    LogPacketsNext(more, first, |log|);
  }
}

/** What the receiver has, compared with what was sent. */
module DeliveryOrder {
  import opened SeqNum
  import opened Memory
  import opened ReliableRing
  import opened InputWindow
  import opened InputPath
  import opened InputDelivery
  import opened FragmentChains

  /** The receiver delivered a prefix of the log that cuts no message, and stores messages of
      the log under their own numbers. */
  ghost predicate Follows(kindOf: KindOf, r: Receiver, log: seq<seq<byte>>) {
    var holds :=
      && -1 <= r.drained == r.handled <= r.announced < |log|
      && r.delivered == log[..r.handled + 1]
      && AtBoundary(kindOf, log, r.handled + 1)
      && (forall k | k in r.stored :: r.handled < k <= r.Edge() && k <= r.announced && r.stored[k] == log[k]);
    holds
  }

  lemma FollowsMeans(kindOf: KindOf, r: Receiver, log: seq<seq<byte>>)
    requires Follows(kindOf, r, log)
    ensures -1 <= r.drained == r.handled <= r.announced < |log|
  {}

  lemma FollowsMore(kindOf: KindOf, r: Receiver, log: seq<seq<byte>>, more: seq<seq<byte>>)
    requires Follows(kindOf, r, log) && log <= more
    ensures Follows(kindOf, r, more)
    ensures Completed(kindOf, more, r.handled + 1) == Completed(kindOf, log, r.handled + 1)
  {
    assert more[..r.handled + 1] == log[..r.handled + 1];
    CompletedIsStable(kindOf, log, more, r.handled + 1);
  }

  /** The first missing number is the one number with everything before it and not itself. */
  lemma FirstMissingIs(r: Receiver, f: int)
    requires r.handled < f <= r.Edge() + 1 && f !in r.stored
    requires forall j | r.handled < j < f :: j in r.stored
    ensures r.FirstMissing() == f
  {
    MissingFromIsFirst(r, r.handled + 1);
  }

  /** While nothing is deliverable, fewer numbers are stored in a row than a chain can have. */
  lemma SettledHasRoom(kindOf: KindOf, r: Receiver, log: seq<seq<byte>>, longest: nat)
    requires Follows(kindOf, r, log) && r.NextEnd(kindOf).None? && Chained(kindOf, log, longest)
    requires 1 <= longest <= r.ring.history
    ensures r.handled < r.FirstMissing() <= r.handled + longest
    ensures r.FirstMissing() - 1 <= r.announced
  {
    MissingFromIsFirst(r, r.handled + 1);
    var f, first := r.FirstMissing(), r.handled + 1;
    if f > r.handled + longest {
      assert first + longest - 1 in r.stored;
      assert HasEnd(kindOf, log, first, first + longest);
      ChainIsComplete(kindOf, r, log, longest, first + longest);
      assert false;
    }
    assert f == first || f - 1 in r.stored;
  }

  /** Stored from the first number on, a chain is found at its first end. */
  lemma ChainIsComplete(kindOf: KindOf, r: Receiver, log: seq<seq<byte>>, longest: nat, end: int)
    requires Follows(kindOf, r, log) && Chained(kindOf, log, longest)
    requires r.handled < end <= |log| && HasEnd(kindOf, log, r.handled + 1, end)
    requires forall k | r.handled < k < end :: k in r.stored
    ensures r.NextEnd(kindOf).Some?
  {
    var first := r.handled + 1;
    var last := FirstEnd(kindOf, log, first, end);
    if !kindOf(r.stored[first]).NotFragmented? {
      assert r.stored[first] == log[first] && r.stored[last] == log[last];
      if last > first {
        assert kindOf(log[last - 1]).IntermediateFragment?;
      }
      forall j | first <= j < last
        ensures r.IsIntermediate(kindOf, j)
      {
        assert r.stored[j] == log[j];
      }
      CompleteChainIsFound(r, kindOf, first, last);
    }
  }

  lemma StoredInRowAt(kindOf: KindOf, r: Receiver, log: seq<seq<byte>>, longest: nat, k: int)
    requires Follows(kindOf, r, log) && r.NextEnd(kindOf).None? && Chained(kindOf, log, longest)
    requires r.handled < k < r.FirstMissing()
    ensures k in r.stored && 0 <= k < |log| && r.stored[k] == log[k] && kindOf(log[k]).IntermediateFragment?
  {
    if r.ring.history > 0 {
      MissingFromIsFirst(r, r.handled + 1);
    }
    assert k in r.stored;
    if !kindOf(log[k]).IntermediateFragment? {
      assert HasEnd(kindOf, log, r.handled + 1, k + 1);
      ChainIsComplete(kindOf, r, log, longest, k + 1);
      assert false;
    }
  }

  /** k is stored as it is in the log, and an intermediate fragment. */
  ghost predicate StoredFragment(kindOf: KindOf, r: Receiver, log: seq<seq<byte>>, k: int) {
    k in r.stored && 0 <= k < |log| && r.stored[k] == log[k] && kindOf(log[k]).IntermediateFragment?
  }

  /** While nothing is deliverable, what is stored in a row from the front is an incomplete chain. */
  lemma StoredInRow(kindOf: KindOf, r: Receiver, log: seq<seq<byte>>, longest: nat)
    requires Follows(kindOf, r, log) && r.NextEnd(kindOf).None? && Chained(kindOf, log, longest)
    ensures forall k | r.handled < k < r.FirstMissing() :: StoredFragment(kindOf, r, log, k)
  {
    hide Follows, Chained, Receiver.NextEnd, Receiver.FirstMissing;
    forall k | r.handled < k < r.FirstMissing()
      ensures StoredFragment(kindOf, r, log, k)
    {
      StoredInRowAt(kindOf, r, log, longest, k);
    }
  }

  /** If nothing of the log is missing and it does not end inside a chain, all is delivered. */
  lemma NothingMissing(kindOf: KindOf, r: Receiver, log: seq<seq<byte>>, longest: nat)
    requires Follows(kindOf, r, log) && r.NextEnd(kindOf).None? && Chained(kindOf, log, longest)
    requires r.FirstMissing() == |log| && r.FirstMissing() <= r.Edge() && AtBoundary(kindOf, log, |log|)
    ensures r.handled + 1 == |log| && r.delivered == log
  {
    MissingFromIsFirst(r, r.handled + 1);
    if r.handled + 1 < |log| {
      assert !kindOf(log[|log| - 1]).IntermediateFragment?;
      ChainIsComplete(kindOf, r, log, longest, |log|);
      assert false;
    }
    assert log[..|log|] == log;
  }

  lemma {:induction false} FirstEnd(kindOf: KindOf, log: seq<seq<byte>>, first: int, end: int) returns (j: int)
    requires 0 <= first <= end <= |log| && HasEnd(kindOf, log, first, end)
    ensures first <= j < end && !kindOf(log[j]).IntermediateFragment?
    ensures forall i | first <= i < j :: kindOf(log[i]).IntermediateFragment?
    decreases end - first
  {
    if kindOf(log[first]).IntermediateFragment? {
      var k :| first <= k < end && !kindOf(log[k]).IntermediateFragment?;
      assert k > first;
      assert HasEnd(kindOf, log, first + 1, end);
      j := FirstEnd(kindOf, log, first + 1, end);
    } else {
      j := first;
    }
  }

  lemma StoredIsLogged(kindOf: KindOf, r: Receiver, log: seq<seq<byte>>, k: int)
    requires Follows(kindOf, r, log) && k in r.stored
    ensures 0 <= k < |log| && r.stored[k] == log[k]
  {}

  /** What is stored in a row is what the log says. */
  lemma {:induction false} RunIsLogged(kindOf: KindOf, r: Receiver, log: seq<seq<byte>>, first: int, last: int)
    requires Follows(kindOf, r, log) && r.handled < first <= last + 1 <= |log|
    requires forall k | first <= k <= last :: k in r.stored
    ensures r.Run(first, last) == log[first..last + 1]
    decreases last + 1 - first
  {
    hide Follows;
    FollowsFrom(kindOf, r, log);
    if first <= last {
      StoredIsLogged(kindOf, r, log, first);
      RunIsLogged(kindOf, r, log, first + 1, last);
    }
  }

  lemma FollowsFrom(kindOf: KindOf, r: Receiver, log: seq<seq<byte>>)
    requires Follows(kindOf, r, log)
    ensures -1 <= r.handled && r.handled + 1 <= |log| && r.delivered == log[..r.handled + 1]
  {}

  /** One delivery: still a prefix, and the reader got the next completed message. */
  lemma DeliverFollows(kindOf: KindOf, r: Receiver, log: seq<seq<byte>>)
    requires Follows(kindOf, r, log) && r.NextEnd(kindOf).Some? && r.ring.history > 0
    requires forall k | 0 <= k < |log| && !kindOf(log[k]).NotFragmented? :: |log[k]| > SUBHEADER_SIZE
    ensures var u := Deliver(r, kindOf);
      && Follows(kindOf, u, log) && u.ring == r.ring
      && u.FirstMissing() == r.FirstMissing() && u.announced == r.announced && u.handled > r.handled
      && Completed(kindOf, log, u.handled + 1) ==
           Completed(kindOf, log, r.handled + 1) + [NextContents(r, kindOf, SUBHEADER_SIZE)]
  {
    hide Completed, Receiver.FirstMissing, NextContents, Receiver.Run, AtBoundary;
    NextEndIsAhead(r, kindOf);
    var end, u := r.NextEnd(kindOf).value, Deliver(r, kindOf);
    FollowsFrom(kindOf, r, log);
    RunIsLogged(kindOf, r, log, r.handled + 1, end);
    assert log[..end + 1] == log[..r.handled + 1] + log[r.handled + 1..end + 1];
    MissingAfter(r, u, end);
    EndCompletes(kindOf, r, log);
    assert Follows(kindOf, u, log);
  }

  /** Delivering what is stored changes nothing about what is missing. */
  lemma MissingAfter(r: Receiver, u: Receiver, end: int)
    requires r.ring == u.ring && r.handled < end == u.handled && end <= r.Edge()
    requires forall j | r.handled < j <= end :: j in r.stored
    requires forall k :: k in u.stored <==> k in r.stored && k > end
    requires forall k | k in r.stored :: k <= r.Edge()
    ensures u.FirstMissing() == r.FirstMissing()
  {
    MissingFromIsFirst(r, r.handled + 1);
    var f := r.FirstMissing();
    assert f > end;
    assert forall j | end < j < f :: j in u.stored;
    FirstMissingIs(u, f);
  }

  lemma CompletedAlone(kindOf: KindOf, log: seq<seq<byte>>, k: int)
    requires 0 <= k < |log| && kindOf(log[k]).NotFragmented?
    ensures Completed(kindOf, log, k + 1) == Completed(kindOf, log, k) + [log[k]]
    ensures AtBoundary(kindOf, log, k + 1) && log[..k + 1] == log[..k] + [log[k]]
  {}

  /** The fragments first .. end of the log are a whole chain, which starts at a boundary. */
  ghost predicate WholeChain(kindOf: KindOf, log: seq<seq<byte>>, first: int, end: int) {
    && 0 <= first <= end < |log| && AtBoundary(kindOf, log, first) && kindOf(log[end]).LastFragment?
    && forall k | first <= k < end :: kindOf(log[k]).IntermediateFragment?
  }

  /** A whole chain completes one message. */
  lemma ChainCompletes(kindOf: KindOf, log: seq<seq<byte>>, first: int, end: int)
    requires WholeChain(kindOf, log, first, end)
    ensures AtBoundary(kindOf, log, end + 1)
    ensures Completed(kindOf, log, end + 1) == Completed(kindOf, log, first) + [Joined(log[first..end + 1])]
  {
    hide Joined;
    NothingCompleted(kindOf, log, first, end);
  }

  /** A chain found among what is stored is a whole chain of the log. */
  lemma FoundChainIsWhole(kindOf: KindOf, r: Receiver, log: seq<seq<byte>>)
    requires Follows(kindOf, r, log) && r.NextEnd(kindOf).Some?
    requires r.handled + 1 in r.stored && !kindOf(r.stored[r.handled + 1]).NotFragmented?
    ensures WholeChain(kindOf, log, r.handled + 1, r.NextEnd(kindOf).value)
  {
    var first := r.handled + 1;
    ChainEndIsLast(r, kindOf, first);
    forall k | first <= k < r.NextEnd(kindOf).value
      ensures 0 <= k < |log| && kindOf(log[k]).IntermediateFragment?
    {
      assert r.IsIntermediate(kindOf, k);
    }
  }

  /** What a chain gives to the reader is its fragments joined. */
  lemma ChainContents(kindOf: KindOf, r: Receiver, log: seq<seq<byte>>)
    requires Follows(kindOf, r, log) && r.NextEnd(kindOf).Some? && r.handled + 1 in r.stored
    requires WholeChain(kindOf, log, r.handled + 1, r.NextEnd(kindOf).value)
    requires !kindOf(r.stored[r.handled + 1]).NotFragmented? && |log[r.handled + 1]| > SUBHEADER_SIZE
    ensures NextContents(r, kindOf, SUBHEADER_SIZE) == Joined(log[r.handled + 1..r.NextEnd(kindOf).value + 1])
  {
    hide Follows, WholeChain, Receiver.NextEnd, AtBoundary;
    var first, end := r.handled + 1, r.NextEnd(kindOf).value;
    NextEndIsAhead(r, kindOf);
    FollowsMeans(kindOf, r, log);
    StoredIsLogged(kindOf, r, log, first);
    StoredIsLogged(kindOf, r, log, end);
    RunIsLogged(kindOf, r, log, first + 1, end);
    JoinedSlice(log, first, end + 1);
  }

  /** The next delivery is the next completed message, and ends at a boundary. */
  lemma EndCompletes(kindOf: KindOf, r: Receiver, log: seq<seq<byte>>)
    requires Follows(kindOf, r, log) && r.NextEnd(kindOf).Some?
    requires forall k | 0 <= k < |log| && !kindOf(log[k]).NotFragmented? :: |log[k]| > SUBHEADER_SIZE
    ensures var end := r.NextEnd(kindOf).value;
      && r.handled < end < |log| && AtBoundary(kindOf, log, end + 1)
      && Completed(kindOf, log, end + 1) == Completed(kindOf, log, r.handled + 1) + [NextContents(r, kindOf, SUBHEADER_SIZE)]
  {
    hide Follows, Completed, AtBoundary, Joined;
    NextEndIsAhead(r, kindOf);
    FollowsMeans(kindOf, r, log);
    StoredIsLogged(kindOf, r, log, r.handled + 1);
    if kindOf(r.stored[r.handled + 1]).NotFragmented? {
      CompletedAlone(kindOf, log, r.handled + 1);
    } else {
      FoundChainIsWhole(kindOf, r, log);
      ChainCompletes(kindOf, log, r.handled + 1, r.NextEnd(kindOf).value);
      ChainContents(kindOf, r, log);
    }
  }

  /** All deliveries. */
  lemma {:induction false} DeliverAllFollows(kindOf: KindOf, r: Receiver, log: seq<seq<byte>>)
    requires Follows(kindOf, r, log) && r.ring.history > 0
    requires forall k | 0 <= k < |log| && !kindOf(log[k]).NotFragmented? :: |log[k]| > SUBHEADER_SIZE
    ensures var u := DeliverAll(r, kindOf);
      && Follows(kindOf, u, log) && u.NextEnd(kindOf).None? && u.ring == r.ring
      && u.FirstMissing() == r.FirstMissing() && u.announced == r.announced && u.handled >= r.handled
      && Completed(kindOf, log, u.handled + 1) == Completed(kindOf, log, r.handled + 1) + AllContents(r, kindOf)
    decreases |r.stored|
  {
    hide Follows, Completed, DeliverAll, AllContents, NextContents, Deliver, FragmentsReadable;
    hide Receiver.NextEnd, Receiver.FirstMissing, Receiver.WalkStops, Receiver.DeliverTo;
    DeliverStep(r, kindOf);
    if r.NextEnd(kindOf).Some? {
      DeliverFollows(kindOf, r, log);
      DeliverAllFollows(kindOf, Deliver(r, kindOf), log);
    }
  }

  /** What taking in message k of the log does: the reader gets `now`, and what was first missing
      no longer is if it was k. */
  ghost predicate Took(kindOf: KindOf, r: Receiver, w: Receiver, log: seq<seq<byte>>, k: int, now: seq<seq<byte>>) {
    var holds :=
      && Follows(kindOf, r, log) && Follows(kindOf, w, log)
      && w.handled >= r.handled && w.FirstMissing() >= r.FirstMissing()
      && (k == r.FirstMissing() <= r.Edge() ==> w.FirstMissing() > k)
      && -1 <= r.handled < |log| && -1 <= w.handled < |log|
      && Completed(kindOf, log, w.handled + 1) == Completed(kindOf, log, r.handled + 1) + now;
    holds
  }

  /** The number that is delivered next is missing, and afterwards something later is. */
  lemma NextWasMissing(r: Receiver, w: Receiver, k: int)
    requires k == r.handled + 1 == w.handled && k !in r.stored && r.ring.history > 0 && w.ring.history > 0
    ensures r.FirstMissing() == k < w.FirstMissing()
  {
    MissingFromIsFirst(w, k + 1);
  }

  /** The next number is not stored while nothing is deliverable and it is not a fragment itself. */
  lemma DirectIsMissing(kindOf: KindOf, r: Receiver, log: seq<seq<byte>>, k: int)
    requires Follows(kindOf, r, log) && r.NextEnd(kindOf).None? && 0 <= k < |log| && r.IsDirect(kindOf, k, log[k])
    ensures k == r.handled + 1 && k !in r.stored && kindOf(log[k]).NotFragmented?
  {
    hide AtBoundary;
  }

  /** The delivered prefix grows by one. */
  lemma PrefixGrows(kindOf: KindOf, r: Receiver, w: Receiver, log: seq<seq<byte>>, k: int)
    requires Follows(kindOf, r, log) && k == r.handled + 1 && 0 <= k < |log| && k <= r.announced && k !in r.stored
    requires log[..k + 1] == log[..k] + [log[k]] && AtBoundary(kindOf, log, k + 1)
    requires w == r.(handled := k, drained := k, delivered := r.delivered + [log[k]])
    ensures Follows(kindOf, w, log)
  {
    hide AtBoundary;
  }

  lemma DirectFollows(kindOf: KindOf, r: Receiver, log: seq<seq<byte>>, k: int)
    requires Follows(kindOf, r, log) && r.NextEnd(kindOf).None? && r.ring.history > 0
    requires 0 <= k < |log| && k <= r.announced && r.IsDirect(kindOf, k, log[k])
    ensures Took(kindOf, r, r.Received(kindOf, k, log[k]), log, k, [log[k]])
  {
    hide Follows, Completed, Receiver.NextEnd, Receiver.FirstMissing, Receiver.IsDirect, AtBoundary;
    var w := r.Received(kindOf, k, log[k]);
    DirectIsMissing(kindOf, r, log, k);
    CompletedAlone(kindOf, log, k);
    PrefixGrows(kindOf, r, w, log, k);
    NextWasMissing(r, w, k);
    FollowsMeans(kindOf, r, log);
  }

  lemma StoredFollows(kindOf: KindOf, r: Receiver, log: seq<seq<byte>>, k: int)
    requires Follows(kindOf, r, log)
    requires 0 <= k < |log| && k <= r.announced && r.IsStoring(kindOf, k, log[k])
    ensures Took(kindOf, r, r.Received(kindOf, k, log[k]), log, k, [])
  {
    hide Completed, AtBoundary;
    var w := r.Received(kindOf, k, log[k]);
    MissingFromIsFirst(r, r.handled + 1);
    MissingFromIsFirst(w, w.handled + 1);
    assert Follows(kindOf, w, log);
  }

  lemma DroppedFollows(kindOf: KindOf, r: Receiver, log: seq<seq<byte>>, k: int)
    requires Follows(kindOf, r, log) && r.ring.history > 0
    requires 0 <= k < |log| && !r.IsDirect(kindOf, k, log[k]) && !r.IsStoring(kindOf, k, log[k])
    ensures Took(kindOf, r, r.Received(kindOf, k, log[k]), log, k, [])
  {
    hide Completed, AtBoundary;
    MissingFromIsFirst(r, r.handled + 1);
  }

  /** An announcement of something that was sent. */
  lemma AnnouncedFollows(kindOf: KindOf, r: Receiver, log: seq<seq<byte>>, k: int, seqNum: uint16)
    requires Follows(kindOf, r, log) && k < |log| && Unwrap(r.announced, seqNum) == k
    ensures var w := r.Announce(seqNum);
      && Follows(kindOf, w, log) && w.FirstMissing() == r.FirstMissing()
      && w.NextEnd(kindOf) == r.NextEnd(kindOf)
      && w.announced == if k > r.announced then k else r.announced
  {
    AnnounceIsNoise(r, kindOf, seqNum);
    SameMissing(r, r.Announce(seqNum), r.handled + 1);
    assert Follows(kindOf, r.Announce(seqNum), log);
  }

  lemma {:induction false} SameMissing(r: Receiver, w: Receiver, k: int)
    requires w.stored == r.stored && w.handled == r.handled && w.ring == r.ring
    ensures w.MissingFrom(k) == r.MissingFrom(k)
    decreases r.Edge() + 1 - k
  {
    if k <= r.Edge() && k in r.stored {
      SameMissing(r, w, k + 1);
    }
  }

  /** Announcing the number first makes no difference. */
  lemma AnnouncedThen(kindOf: KindOf, r: Receiver, message: seq<byte>, k: int, seqNum: uint16)
    ensures var a := r.Announce(seqNum);
      && a.handled == r.handled && a.ring == r.ring
      && a.Received(kindOf, k, message) == r.Received(kindOf, k, message).Announce(seqNum)
      && a.Received(kindOf, k, message).announced == a.announced
      && (a.IsDirect(kindOf, k, message) <==> r.IsDirect(kindOf, k, message))
  {
    hide Unwrap;
  }

  /** Taking in an announced message of the log: delivered at once, stored or dropped. */
  lemma TakenFollows(kindOf: KindOf, r: Receiver, log: seq<seq<byte>>, k: int)
    requires Follows(kindOf, r, log) && r.NextEnd(kindOf).None? && r.ring.history > 0
    requires 0 <= k < |log| && k <= r.announced
    ensures Took(kindOf, r, r.Received(kindOf, k, log[k]), log, k,
              if r.IsDirect(kindOf, k, log[k]) then [log[k]] else [])
  {
    hide Follows, Took, Receiver.NextEnd, Receiver.Received, Receiver.IsDirect, Receiver.IsStoring;
    if r.IsDirect(kindOf, k, log[k]) {
      DirectFollows(kindOf, r, log, k);
    } else if r.IsStoring(kindOf, k, log[k]) {
      StoredFollows(kindOf, r, log, k);
    } else {
      DroppedFollows(kindOf, r, log, k);
    }
  }

  lemma TookMeans(kindOf: KindOf, r: Receiver, w: Receiver, log: seq<seq<byte>>, k: int, now: seq<seq<byte>>)
    requires Took(kindOf, r, w, log, k, now)
    ensures Follows(kindOf, w, log) && w.handled >= r.handled && w.FirstMissing() >= r.FirstMissing()
    ensures k == r.FirstMissing() <= r.Edge() ==> w.FirstMissing() > k
    ensures -1 <= r.handled < |log| && -1 <= w.handled < |log|
    ensures Completed(kindOf, log, w.handled + 1) == Completed(kindOf, log, r.handled + 1) + now
  {}

  /** Taking in a message of the log, whichever it is. */
  lemma ReceivedFollows(kindOf: KindOf, r: Receiver, log: seq<seq<byte>>, k: int, seqNum: uint16)
    requires Follows(kindOf, r, log) && r.NextEnd(kindOf).None? && r.ring.history > 0
    requires 0 <= k < |log| && Unwrap(r.announced, seqNum) == k
    ensures var w := r.Received(kindOf, k, log[k]).Announce(seqNum);
      && w.announced == (if k > r.announced then k else r.announced)
      && Took(kindOf, r, w, log, k, if r.IsDirect(kindOf, k, log[k]) then [log[k]] else [])
  {
    hide Unwrap, Follows, Completed, Receiver.NextEnd, Receiver.FirstMissing, Receiver.Received, Receiver.Announce;
    hide Receiver.IsDirect;
    var a := r.Announce(seqNum);
    FollowsMeans(kindOf, r, log);
    AnnouncedFollows(kindOf, r, log, k, seqNum);
    AnnouncedThen(kindOf, r, log[k], k, seqNum);
    TakenFollows(kindOf, a, log, k);
  }
}

/** The receive window of an input reliable stream, in unbounded counters. */
module InputWindow {
  import opened SeqNum
  import opened Memory
  import opened ReliableRing
  import opened SlotGeometry

  datatype FragmentationInfo = NotFragmented | IntermediateFragment | LastFragment

  /** OnGetFragmentationInfo: what a stored message says about itself. */
  type KindOf = seq<byte> -> FragmentationInfo

  datatype Option<T> = None | Some(value: T)

  /** Everything up to `handled` was delivered; `stored` are the messages that arrived early;
      slots up to `drained` are emptied, those of drained + 1 .. handled still are not. */
  datatype Receiver = Receiver(
    ring: Ring, handled: int, drained: int, announced: int,
    stored: map<int, seq<byte>>, delivered: seq<seq<byte>>)
  {
    ghost function Edge(): int {
      handled + ring.history
    }

    ghost predicate Counters() {
      && ring.Configured() && ring.offset == 0
      && -1 <= drained <= handled <= drained + ring.history
      && |delivered| == handled + 1
      && (forall k | k in stored :: handled < k <= Edge() && k <= drained + ring.history)
    }

    /** A slot is empty exactly if nothing is stored for its number; else it holds that. */
    ghost predicate SlotOk(m: seq<byte>, k: int)
      requires ring.history > 0
    {
      && ring.Len(m, k) <= ring.Capacity()
      && (k in stored <==> ring.Len(m, k) != 0)
      && (k in stored ==> ring.Message(m, k) == stored[k])
    }

    /** The window invariant, for the slots that are drained. */
    ghost predicate Window(m: seq<byte>) {
      var holds :=
        && Counters()
        && forall k | handled < k <= drained + ring.history :: SlotOk(m, k);
      holds
    }

    ghost predicate IsIntermediate(kindOf: KindOf, k: int) {
      k in stored && kindOf(stored[k]).IntermediateFragment?
    }

    /** The last fragment of the complete chain that starts at k, if there is one. */
    ghost function ChainEnd(kindOf: KindOf, k: int): Option<int>
      decreases Edge() + 1 - k
    {
      if k > Edge() || k !in stored then None
      else match kindOf(stored[k])
        case NotFragmented => None
        case LastFragment => Some(k)
        case IntermediateFragment => ChainEnd(kindOf, k + 1)
    }

    /** The walk along the fragments comes to an end inside the window. */
    ghost predicate WalkStops(kindOf: KindOf) {
      exists k | handled < k <= Edge() :: !IsIntermediate(kindOf, k)
    }

    ghost function Announce(seqNum: uint16): Receiver {
      this.(announced := if Unwrap(announced, seqNum) > announced then Unwrap(announced, seqNum) else announced)
    }

    ghost predicate Accepts(k: int) {
      handled < k <= Edge()
    }

    ghost predicate IsDirect(kindOf: KindOf, k: int, message: seq<byte>) {
      Accepts(k) && kindOf(message).NotFragmented? && k == handled + 1
    }

    ghost predicate IsStoring(kindOf: KindOf, k: int, message: seq<byte>) {
      Accepts(k) && !IsDirect(kindOf, k, message) && k !in stored
    }

    /** What happens to message k: it is delivered at once, kept for later, or dropped. */
    ghost function Received(kindOf: KindOf, k: int, message: seq<byte>): Receiver {
      if IsDirect(kindOf, k, message) then this.(handled := k, drained := k, delivered := delivered + [message])
      else if IsStoring(kindOf, k, message) then this.(stored := stored[k := message])
      else this
    }

    /** The stored messages first .. last, in order. */
    ghost function Run(first: int, last: int): seq<seq<byte>>
      decreases last + 1 - first
    {
      if first > last || first !in stored then [] else [stored[first]] + Run(first + 1, last)
    }

    /** Delivery of the stored messages up to `last`; their slots are not drained yet, except
        the first. */
    ghost function DeliverTo(last: int): Receiver {
      this.(handled := last, drained := handled + 1, stored := map k | k in stored && k > last :: stored[k],
      delivered := delivered + Run(handled + 1, last))
    }

    /** The next delivery, if one is possible: a single message or a complete chain. */
    ghost function NextEnd(kindOf: KindOf): Option<int> {
      if handled + 1 !in stored then None
      else if kindOf(stored[handled + 1]).NotFragmented? then Some(handled + 1)
      else ChainEnd(kindOf, handled + 1)
    }

    /** The first number that is neither delivered nor stored, from k on. */
    ghost function MissingFrom(k: int): int
      decreases Edge() + 1 - k
    {
      if k > Edge() || k !in stored then k else MissingFrom(k + 1)
    }

    ghost function FirstMissing(): int {
      MissingFrom(handled + 1)
    }
  }

  /** What a receiver has: delivered, or kept for later. */
  ghost predicate Has(v: Receiver, j: int) {
    0 <= j <= v.handled || j in v.stored
  }

  /** A message inside the window is never lost: it is the next one and a whole message, and is
      delivered at once, or it is stored, unless its number is stored already.  Outside the window
      nothing happens. */
  lemma ReceivedIsKept(v: Receiver, kindOf: KindOf, k: int, message: seq<byte>)
    requires -1 <= v.handled
    ensures var w := v.Received(kindOf, k, message);
      && w.ring == v.ring && w.announced == v.announced
      && (forall j :: Has(w, j) <==> Has(v, j) || (j == k && v.handled < k <= v.handled + v.ring.history))
      && (forall j | j in v.stored :: j in w.stored && w.stored[j] == v.stored[j])
      && (forall j | j in w.stored && j !in v.stored :: j == k && w.stored[j] == message)
      && (w.handled != v.handled <==> k == v.handled + 1 && kindOf(message).NotFragmented? && v.ring.history > 0)
      && (w.handled != v.handled ==> w.handled == k && w.delivered == v.delivered + [message] && w.stored == v.stored)
      && (w.handled == v.handled ==> w.delivered == v.delivered)
      && (k in v.stored && w.handled == v.handled ==> w == v)
  {}

  lemma WindowMeans(v: Receiver, m: seq<byte>)
    requires v.Window(m)
    ensures v.Counters() && v.ring.Configured()
  {}

  lemma WindowAt(v: Receiver, m: seq<byte>, k: int)
    requires v.Window(m) && v.handled < k <= v.drained + v.ring.history
    ensures v.ring.history > 0 && v.SlotOk(m, k)
  {}

  /** Where the chain walk ends, by induction along it. */
  lemma {:induction false} ChainEndIsLast(v: Receiver, kindOf: KindOf, k: int)
    requires v.ChainEnd(kindOf, k).Some?
    ensures var last := v.ChainEnd(kindOf, k).value;
      && k <= last <= v.Edge() && last in v.stored && kindOf(v.stored[last]).LastFragment?
      && forall j | k <= j < last :: v.IsIntermediate(kindOf, j)
    decreases v.Edge() + 1 - k
  {
    if kindOf(v.stored[k]).IntermediateFragment? {
      ChainEndIsLast(v, kindOf, k + 1);
    }
  }

  /** The other direction: a complete chain is found. */
  lemma {:induction false} CompleteChainIsFound(v: Receiver, kindOf: KindOf, k: int, last: int)
    requires k <= last <= v.Edge() && last in v.stored && kindOf(v.stored[last]).LastFragment?
    requires forall j | k <= j < last :: v.IsIntermediate(kindOf, j)
    ensures v.ChainEnd(kindOf, k) == Some(last)
    decreases last - k
  {
    if k < last {
      assert v.IsIntermediate(kindOf, k);
      CompleteChainIsFound(v, kindOf, k + 1, last);
    }
  }

  lemma {:induction false} MissingFromIsFirst(v: Receiver, k: int)
    requires k <= v.Edge() + 1
    ensures var f := v.MissingFrom(k);
      && k <= f <= v.Edge() + 1 && (f <= v.Edge() ==> f !in v.stored)
      && forall j | k <= j < f :: j in v.stored
    decreases v.Edge() + 1 - k
  {
    if k <= v.Edge() && k in v.stored {
      MissingFromIsFirst(v, k + 1);
    }
  }

  /** If every window slot holds an intermediate fragment the walk meets one at every step,
      however long it goes on: numbers past the window fall on the same slots again. */
  lemma WalkNeverStops(v: Receiver, m: seq<byte>, kindOf: KindOf, steps: nat)
    requires v.Window(m) && v.drained == v.handled && !v.WalkStops(kindOf)
    ensures v.ring.history > 0
    ensures var k := v.handled + 1 + steps;
      v.ring.Len(m, k) != 0 && kindOf(v.ring.Message(m, k)).IntermediateFragment?
    decreases steps
  {
    WindowMeans(v, m);
    var h := v.ring.history;
    if steps < h {
      assert v.IsIntermediate(kindOf, v.handled + 1 + steps);
      WindowAt(v, m, v.handled + 1 + steps);
    } else {
      WalkNeverStops(v, m, kindOf, steps - h);
      SlotIsPeriodic(h, v.handled + 1 + steps - h);
    }
  }

  /** A direct delivery moves the window by one; the slot that comes in is empty. */
  lemma DirectKeepsWindow(v: Receiver, m: seq<byte>, message: seq<byte>)
    requires v.Window(m) && v.drained == v.handled && v.handled + 1 !in v.stored
    ensures v.(handled := v.handled + 1, drained := v.handled + 1, delivered := v.delivered + [message]).Window(m)
  {
    var t := v.(handled := v.handled + 1, drained := v.handled + 1, delivered := v.delivered + [message]);
    SlotIsPeriodic(v.ring.history, v.handled + 1);
    WindowAt(v, m, v.handled + 1);
    forall k | t.handled < k <= t.drained + t.ring.history
      ensures t.SlotOk(m, k)
    {
      if k <= v.Edge() {
        WindowAt(v, m, k);
      } else {
        assert v.ring.Len(m, k) == v.ring.Len(m, v.handled + 1);
      }
    }
  }

  /** Storing a message fills its slot and touches no other. */
  lemma StoreKeepsWindow(v: Receiver, m: seq<byte>, n: seq<byte>, k: int, message: seq<byte>)
    requires v.Window(m) && v.drained == v.handled && v.handled < k <= v.Edge() && k !in v.stored
    requires v.ring.history > 0 && v.ring.Len(n, k) == |message| && v.ring.Message(n, k) == message
    requires 0 < |message| <= v.ring.Capacity()
    requires forall j | k - v.ring.history < j < k + v.ring.history && j != k ::
               v.ring.Len(n, j) == v.ring.Len(m, j) && v.ring.Message(n, j) == v.ring.Message(m, j)
    ensures v.(stored := v.stored[k := message]).Window(n)
  {
    var t := v.(stored := v.stored[k := message]);
    forall j | t.handled < j <= t.drained + t.ring.history
      ensures t.SlotOk(n, j)
    {
      WindowAt(v, m, j);
    }
  }

  /** Emptying the first slot of a delivery takes it out of the window. */
  lemma DeliverKeepsWindow(v: Receiver, m: seq<byte>, n: seq<byte>, last: int)
    requires v.Window(m) && v.drained == v.handled && v.handled < last <= v.Edge()
    requires forall j | v.handled < j <= last :: j in v.stored
    requires OnlyLengthSet(m, n, v.ring.slotSize, v.ring.history, Slot(v.ring.history, v.handled + 1), 0)
    ensures v.DeliverTo(last).Window(n)
  {
    var t, first := v.DeliverTo(last), v.handled + 1;
    RunLength(v, first, last);
    SetInWindow(v.ring, m, n, first, 0);
    SlotIsPeriodic(v.ring.history, first);
    forall k | t.handled < k <= t.drained + t.ring.history
      ensures t.SlotOk(n, k)
    {
      if k < first + v.ring.history {
        WindowAt(v, m, k);
      } else {
        assert t.ring.Len(n, k) == t.ring.Len(n, first) == 0;
      }
    }
  }

  lemma {:induction false} RunLength(v: Receiver, first: int, last: int)
    requires first <= last + 1 && forall j | first <= j <= last :: j in v.stored
    ensures |v.Run(first, last)| == last + 1 - first
    ensures forall i | 0 <= i <= last - first :: v.Run(first, last)[i] == v.stored[first + i]
    decreases last + 1 - first
  {
    if first <= last {
      RunLength(v, first + 1, last);
      forall i | 0 <= i <= last - first
        ensures v.Run(first, last)[i] == v.stored[first + i]
      {
        if i > 0 {
          assert v.Run(first, last)[i] == v.Run(first + 1, last)[i - 1];
        }
      }
    }
  }

  /** Draining one more slot brings one more number into the window, with an empty slot. */
  lemma DrainKeepsWindow(v: Receiver, m: seq<byte>, n: seq<byte>)
    requires v.Window(m) && v.drained < v.handled
    requires OnlyLengthSet(m, n, v.ring.slotSize, v.ring.history, Slot(v.ring.history, v.drained + 1), 0)
    ensures v.(drained := v.drained + 1).Window(n)
  {
    var t, first := v.(drained := v.drained + 1), v.drained + 1;
    SetInWindow(v.ring, m, n, first, 0);
    SlotIsPeriodic(v.ring.history, first);
    forall k | t.handled < k <= t.drained + t.ring.history
      ensures t.SlotOk(n, k)
    {
      if k < first + v.ring.history {
        WindowAt(v, m, k);
      } else {
        assert t.ring.Len(n, k) == t.ring.Len(n, first) == 0;
      }
    }
  }
}

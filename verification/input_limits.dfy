/** Where the input stream comes to its limits: a window full of intermediate fragments, and a
    reader that goes past the end of its chain. */
module InputLimits {
  import opened SeqNum
  import opened Memory
  import opened ReliableRing
  import opened SlotGeometry
  import opened InputWindow
  import opened InputPath
  import opened InputStream

  /** The messages k, k + 1, ..., received in this order. */
  ghost function ReceiveRun(v: Receiver, kindOf: KindOf, k: int, messages: seq<seq<byte>>): Receiver
    decreases |messages|
  {
    if messages == [] then v else ReceiveRun(v.Received(kindOf, k, messages[0]), kindOf, k + 1, messages[1..])
  }

  /** Intermediate fragments that are received from the front, with nothing stored behind them:
      the walk along them comes to an end exactly if there are less of them than slots. */
  lemma {:induction false} FragmentsFillTheWindow(v: Receiver, kindOf: KindOf, k: int, messages: seq<seq<byte>>)
    requires v.handled < k && forall j | v.handled < j < k && j <= v.Edge() :: v.IsIntermediate(kindOf, j)
    requires forall j | j in v.stored :: j < k
    requires forall i | 0 <= i < |messages| :: kindOf(messages[i]).IntermediateFragment?
    ensures ReceiveRun(v, kindOf, k, messages).WalkStops(kindOf) <==> k + |messages| <= v.Edge()
    decreases |messages|
  {
    if messages == [] {
      if k <= v.Edge() {
        assert !v.IsIntermediate(kindOf, k);
      }
    } else {
      var u := v.Received(kindOf, k, messages[0]);
      forall j | u.handled < j < k + 1 && j <= u.Edge()
        ensures u.IsIntermediate(kindOf, j)
      {
        assert j < k ==> v.IsIntermediate(kindOf, j);
      }
      FragmentsFillTheWindow(u, kindOf, k + 1, messages[1..]);
    }
  }

  const FRAGMENT: seq<byte> := [0, 0, 0, 0, 7]

  const SLOT: seq<byte> := [0, 0, 0, 5, 0, 0, 0, 0, 7, 0, 0, 0, 0, 0, 0, 0]

  /** A receiver with two slots that has stored two fragments. */
  const FULL := Receiver(Ring(16, 2, 0), -1, -1, -1, map[0 := FRAGMENT, 1 := FRAGMENT], [])

  lemma FullRing()
    ensures FULL.ring.Configured()
  {
    assert IsPowerOfTwo(1);
  }

  lemma FullSlots(k: int)
    requires 0 <= k < 2
    ensures FULL.ring.Len(SLOT + SLOT, k) == 5 && FULL.ring.Message(SLOT + SLOT, k) == FRAGMENT
  {
    hide LenAt, AreaAt;
    var m := SLOT + SLOT;
    assert SlotBase(16, 0) == 0 && SlotBase(16, 1) == 16;
    assert m[0..16] == SLOT && m[16..32] == SLOT;
    SlotIsHeld(m, k, 16 * k);
    FragmentInSlot();
  }

  lemma FragmentInSlot()
    ensures SLOT[4..16][..5] == FRAGMENT
  {
    var s := SLOT[4..16];
    assert s[0] == SLOT[4] && s[1] == SLOT[5] && s[2] == SLOT[6] && s[3] == SLOT[7] && s[4] == SLOT[8];
    assert s[..5] == [s[0], s[1], s[2], s[3], s[4]];
  }

  lemma SlotIsHeld(m: seq<byte>, i: nat, p: nat)
    requires p == SlotBase(16, i) && p + 16 <= |m| && m[p..p + 16] == SLOT
    ensures LenAt(m, 16, i) == 5 && AreaAt(m, 16, i) == SLOT[4..16]
  {
    var s := m[p..p + 16];
    assert s[0] == 0 && s[1] == 0 && s[2] == 0 && s[3] == 5;
    assert m[p] == s[0] && m[p + 1] == s[1] && m[p + 2] == s[2] && m[p + 3] == s[3];
    assert FromBe32(0, 0, 0, 5) == 5;
    assert m[p + 4..p + 16] == s[4..16];
  }

  lemma FullWindow(kindOf: KindOf)
    requires kindOf(FRAGMENT).IntermediateFragment?
    ensures FULL.Window(SLOT + SLOT) && !FULL.WalkStops(kindOf)
  {
    hide LenAt, AreaAt, IsPowerOfTwo, Ring.Message, Ring.Len;
    FullRing();
    FullSlots(0);
    FullSlots(1);
    assert FULL.SlotOk(SLOT + SLOT, 0) && FULL.SlotOk(SLOT + SLOT, 1);
    assert FULL.IsIntermediate(kindOf, 0) && FULL.IsIntermediate(kindOf, 1);
  }

  lemma FullIsReached(kindOf: KindOf)
    requires kindOf(FRAGMENT).IntermediateFragment?
    ensures FULL == ReceiveRun(FULL.(stored := map[]), kindOf, 0, [FRAGMENT, FRAGMENT])
  {
    var v := FULL.(stored := map[]);
    assert v.Received(kindOf, 0, FRAGMENT) == v.(stored := map[0 := FRAGMENT]);
    assert v.(stored := map[0 := FRAGMENT]).Received(kindOf, 1, FRAGMENT) == FULL;
    assert [FRAGMENT, FRAGMENT][1..] == [FRAGMENT] && [FRAGMENT][1..] == [];
    assert ReceiveRun(FULL, kindOf, 2, []) == FULL;
    assert ReceiveRun(v.(stored := map[0 := FRAGMENT]), kindOf, 1, [FRAGMENT]) == FULL;
  }

  /** A window in which the walk does not come to an end, and how it gets there: two intermediate
      fragments fill a ring of two slots. */
  lemma WalkCanGoOnForEver(kindOf: KindOf, steps: nat)
    requires kindOf(FRAGMENT).IntermediateFragment?
    ensures FULL == ReceiveRun(FULL.(stored := map[]), kindOf, 0, [FRAGMENT, FRAGMENT])
    ensures FULL.Window(SLOT + SLOT) && FULL.drained == FULL.handled && !FULL.WalkStops(kindOf)
    ensures FULL.ring.Len(SLOT + SLOT, steps) != 0
    ensures kindOf(FULL.ring.Message(SLOT + SLOT, steps)).IntermediateFragment?
  {
    hide Receiver.Window, Receiver.WalkStops, LenAt, AreaAt, ReceiveRun;
    FullWindow(kindOf);
    FullIsReached(kindOf);
    WalkNeverStops(FULL, SLOT + SLOT, kindOf, steps);
  }

  /** The first such run on a stream: after one fragment the walk still comes to an end, and the
      second fragment may not be received. */
  method SecondFragmentIsTooMany(kindOf: KindOf) returns (stream: InputReliableStream)
    requires kindOf(FRAGMENT).IntermediateFragment?
    ensures stream.Valid() && stream.View().WalkStops(kindOf) && stream.View().IsIntermediate(kindOf, 0)
    ensures !stream.View().Received(kindOf, 1, FRAGMENT).WalkStops(kindOf)
  {
    hide InputReliableStream.Valid, Receiver.Window;
    FullRing();
    var buffer := new byte[32];
    var base := ReliableStream(buffer, 32, 2);
    LayoutIsGood(base);
    stream := new InputReliableStream(base, kindOf);
    ghost var v := stream.View();
    stream.ValidMeans();
    assert v == FULL.(stored := map[]);
    assert !v.Received(kindOf, 0, FRAGMENT).IsIntermediate(kindOf, 1);
    var ready, messageStored := stream.Receive(0, FRAGMENT, false);
    assert !stream.View().IsIntermediate(kindOf, 1);
  }

  /** What comes behind the end of a chain: the callback fails unless the next message is already
      stored and has a subheader. */
  lemma PastTheChain(v: Receiver, m: seq<byte>)
    requires v.Window(m) && v.handled < v.drained + v.ring.history
    requires SlotBase(v.ring.slotSize, v.ring.history) <= |m|
    ensures v.ring.history > 0
    ensures v.ring.Len(m, v.handled + 1) < SUBHEADER_SIZE <==>
      v.handled + 1 !in v.stored || |v.stored[v.handled + 1]| < SUBHEADER_SIZE
  {
    hide LenAt, AreaAt, IsPowerOfTwo;
    WindowMeans(v, m);
    WindowAt(v, m, v.handled + 1);
    MessageHasLength(v.ring, m, v.handled + 1);
  }

  /** The call itself, from anywhere in the last slot of the delivered chain. */
  method GoPastTheChain(stream: InputReliableStream, init: nat) returns (failed: bool)
    requires stream.Valid() && stream.handled < stream.drained + stream.base.history
    requires var r := stream.View().ring;
      Start(r, stream.handled) <= init < Start(r, stream.handled) + r.Capacity()
    modifies stream.base.buffer
    ensures failed <==> stream.handled + 1 !in stream.stored || |stream.stored[stream.handled + 1]| < SUBHEADER_SIZE
  {
    hide InputReliableStream.Valid, Receiver.Window, IsPowerOfTwo, LenAt, AreaAt, ReliableStream.Valid, OnlyLengthSet;
    stream.ValidMeans();
    PastTheChain(stream.View(), stream.base.buffer[..]);
    var area;
    failed, area := stream.OnFullInput(init, stream.handled);
  }
}

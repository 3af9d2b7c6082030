/** The input reliable stream: receiving out of order, reassembling, acknowledging. */
module InputStream {
  import opened SeqNum
  import opened Memory
  import opened ReliableRing
  import opened SlotGeometry
  import opened InputWindow
  import opened InputPath
  import opened InputDelivery
  import opened MicroCdr

  /** Bit i of a 16-bit map. */
  predicate Bit(bitmap: nat, i: nat) {
    if i == 0 then bitmap % 2 == 1 else Bit(bitmap / 2, i - 1)
  }

  function Pow2(i: nat): nat {
    if i == 0 then 1 else 2 * Pow2(i - 1)
  }

  lemma {:induction false} SetBit(bitmap: nat, i: nat, j: nat)
    requires bitmap < Pow2(i)
    ensures bitmap + Pow2(i) < Pow2(i + 1)
    ensures Bit(bitmap + Pow2(i), j) == (Bit(bitmap, j) || j == i)
    decreases i
  {
    if i == 0 {
      BitOfSmall(j);
    } else if j > 0 {
      assert (bitmap + Pow2(i)) / 2 == bitmap / 2 + Pow2(i - 1);
      SetBit(bitmap / 2, i - 1, j - 1);
    }
  }

  lemma {:induction false} BitOfSmall(j: nat)
    ensures !Bit(0, j) && (Bit(1, j) <==> j == 0)
  {
    if j > 0 {
      BitOfSmall(j - 1);
    }
  }

  lemma {:induction false} Pow2IsMonotone(i: nat, j: nat)
    requires i <= j
    ensures 1 <= Pow2(i) <= Pow2(j)
  {
    if i < j {
      Pow2IsMonotone(i, j - 1);
    } else if i > 0 {
      Pow2IsMonotone(i - 1, j - 1);
    }
  }

  /** The slot of the i-th number from the first missing one is empty, and the number announced. */
  ghost predicate Nacked(v: Receiver, m: seq<byte>, i: nat)
    requires v.ring.history > 0
  {
    var k := v.FirstMissing() + i;
    k <= v.announced && v.ring.Len(m, k) == 0
  }

  /** A bitmap with those bits is non-zero exactly if something announced is missing, and inside
      the window its bits say exactly what. */
  lemma NackBitmapIsExact(v: Receiver, m: seq<byte>, bitmap: nat)
    requires v.Window(m) && v.ring.history > 0 && v.drained == v.handled && v.FirstMissing() <= v.Edge()
    requires forall i: nat :: Bit(bitmap, i) == (i < 16 && Nacked(v, m, i))
    ensures bitmap > 0 <==> v.FirstMissing() <= v.announced
    ensures forall i: nat | i < 16 && v.FirstMissing() + i <= v.Edge() ::
      Bit(bitmap, i) <==> v.FirstMissing() + i <= v.announced && v.FirstMissing() + i !in v.stored
  {
    hide Bit, Nacked, Receiver.Window, Receiver.FirstMissing;
    var f := v.FirstMissing();
    forall i: nat | i < 16 && f + i <= v.Edge()
      ensures Bit(bitmap, i) <==> f + i <= v.announced && f + i !in v.stored
    {
      NackedAt(v, m, i);
    }
    FirstIsMissing(v);
    assert Bit(bitmap, 0) <==> f + 0 <= v.announced && f + 0 !in v.stored;
    if f > v.announced {
      forall i: nat
        ensures !Bit(bitmap, i)
      {
        NotAnnounced(v, m, i);
      }
      NoBitsIsZero(bitmap);
    } else if bitmap == 0 {
      BitOfSmall(0);
    }
  }

  lemma FirstIsMissing(v: Receiver)
    requires v.ring.history > 0 && v.FirstMissing() <= v.Edge()
    ensures v.FirstMissing() !in v.stored && v.handled < v.FirstMissing()
  {
    MissingFromIsFirst(v, v.handled + 1);
  }

  lemma NotAnnounced(v: Receiver, m: seq<byte>, i: nat)
    requires v.ring.history > 0 && v.FirstMissing() > v.announced
    ensures !Nacked(v, m, i)
  {
    hide Receiver.FirstMissing, LenAt;
  }

  lemma NackedAt(v: Receiver, m: seq<byte>, i: nat)
    requires v.Window(m) && v.ring.history > 0 && v.drained == v.handled && v.FirstMissing() + i <= v.Edge()
    ensures Nacked(v, m, i) <==> v.FirstMissing() + i <= v.announced && v.FirstMissing() + i !in v.stored
  {
    hide LenAt, AreaAt, Receiver.FirstMissing, Receiver.Window;
    FirstIsMissing(v);
    WindowAt(v, m, v.FirstMissing() + i);
  }

  lemma {:induction false} NoBitsIsZero(bitmap: nat)
    requires forall i: nat :: !Bit(bitmap, i)
    ensures bitmap == 0
    decreases bitmap
  {
    if bitmap > 0 {
      assert !Bit(bitmap, 0);
      forall i: nat
        ensures !Bit(bitmap / 2, i)
      {
        assert !Bit(bitmap, i + 1);
      }
      NoBitsIsZero(bitmap / 2);
    }
  }

  class InputReliableStream {
    const base: ReliableStream
    const onGetFragmentationInfo: KindOf
    var lastHandled: uint16
    var lastAnnounced: uint16
    var cleanupFlag: bool

    ghost var handled: int
    ghost var drained: int
    ghost var announced: int
    ghost var stored: map<int, seq<byte>>
    ghost var delivered: seq<seq<byte>>

    ghost function View(): Receiver
      requires base.history > 0
      reads this`handled, this`drained, this`announced, this`stored, this`delivered
    {
      Receiver(Ring(base.SlotSize(), base.history, 0), handled, drained, announced, stored, delivered)
    }

    ghost predicate Valid()
      reads this`lastHandled, this`lastAnnounced, this`handled, this`drained, this`announced, this`stored, this`delivered
      reads base.buffer
    {
      var holds :=
        && base.Valid()
        && lastHandled == Wrap(handled) && lastAnnounced == Wrap(announced)
        && View().Window(base.buffer[..]);
      holds
    }

    lemma ValidMeans()
      requires Valid()
      ensures base.Valid() && View().Window(base.buffer[..]) && View().Counters() && View().ring.Configured()
      ensures lastHandled == Wrap(handled) && lastAnnounced == Wrap(announced)
      ensures SlotBase(base.SlotSize(), base.history) <= base.buffer.Length
      ensures IsPowerOfTwo(base.history) && base.history <= 0x4000
    {}

    lemma ValidFrom()
      requires base.Valid() && View().Window(base.buffer[..])
      requires lastHandled == Wrap(handled) && lastAnnounced == Wrap(announced)
      ensures Valid()
    {}

    /** uxr_init_input_reliable_stream and uxr_reset_input_reliable_stream */
    constructor (base: ReliableStream, onGetFragmentationInfo: KindOf)
      requires base.Valid() && SUBHEADER_SIZE < base.GetCapacity()
      modifies base.buffer
      ensures Valid() && this.base == base && this.onGetFragmentationInfo == onGetFragmentationInfo
      ensures handled == drained == announced == -1 && stored == map[] && delivered == [] && !cleanupFlag
    {
      this.base, this.onGetFragmentationInfo := base, onGetFragmentationInfo;
      lastHandled, lastAnnounced, cleanupFlag := SEQ_NUM_MAX, SEQ_NUM_MAX, false;
      handled, drained, announced, stored, delivered := -1, -1, -1, map[], [];
      new;
      var i := 0;
      while i < base.history
        invariant 0 <= i <= base.history
        invariant forall j: nat | j < i :: LenAt(base.buffer[..], base.SlotSize(), j) == 0
        invariant handled == drained == announced == -1 && stored == map[] && delivered == [] && !cleanupFlag
        invariant lastHandled == lastAnnounced == SEQ_NUM_MAX
      {
        RemainderIsUnique(i, 0, i, base.history);
        base.SetSize(i, 0);
        i := i + 1;
      }
    }

    /** check_last_fragment.  The walk ends because some number of the window is not a stored
        intermediate fragment; without that it would not (see `WalkNeverStops`). */
    method CheckLastFragment() returns (found: bool, lastFragment: uint16)
      requires Valid() && drained == handled && View().WalkStops(onGetFragmentationInfo)
      ensures var end := View().ChainEnd(onGetFragmentationInfo, handled + 1);
        found == end.Some? && (found ==> lastFragment == Wrap(end.value))
    {
      hide InputReliableStream.Valid, Receiver.Window, IsPowerOfTwo, LenAt, AreaAt, ReliableStream.Valid, Wrap;
      hide Add, Receiver.SlotOk;
      ValidMeans();
      ghost var v, m := View(), base.buffer[..];
      ghost var stop :| handled < stop <= v.Edge() && !v.IsIntermediate(onGetFragmentationInfo, stop);
      var next, moreMessages := lastHandled, true;
      ghost var k := handled;
      found := false;
      while moreMessages
        invariant handled <= k <= stop && next == Wrap(k)
        invariant moreMessages ==> k < stop && !found
        invariant moreMessages ==> v.ChainEnd(onGetFragmentationInfo, handled + 1) == v.ChainEnd(onGetFragmentationInfo, k + 1)
        invariant !moreMessages ==> v.ChainEnd(onGetFragmentationInfo, handled + 1) == if found then Some(k) else None
        decreases moreMessages, stop - k
      {
        AddIsExact(k, 1);
        next, k := Add(next, 1), k + 1;
        WindowAt(v, m, k);
        WrapKeepsSlot(base.history, k);
        StoredOrEmpty(v, m, k);
        var size := base.GetSize(next);
        moreMessages := size != 0;
        if moreMessages {
          var p := GetBufferOf(next, k);
          var info := onGetFragmentationInfo(base.buffer[p..p + size]);
          moreMessages := info.IntermediateFragment?;
          if info.LastFragment? {
            found := true;
          }
        }
      }
      lastFragment := next;
    }

    /** uxr_get_reliable_buffer, with what it points to */
    method GetBufferOf(seqNum: uint16, ghost k: int) returns (p: nat)
      requires base.Valid() && View().ring.Configured() && seqNum == Wrap(k)
      ensures p == Start(View().ring, k) && p + View().ring.Capacity() <= base.buffer.Length
    {
      WrapKeepsSlot(base.history, k);
      SlotBaseIsProduct(base.SlotSize(), Slot(base.history, k));
      SlotsAreDisjoint(base.SlotSize(), Slot(base.history, k), base.history);
      p := base.GetBuffer(seqNum);
    }

    /** uxr_get_first_unacked */
    method GetFirstUnacked() returns (firstUnknown: uint16)
      requires Valid() && drained == handled
      ensures firstUnknown == if View().FirstMissing() <= View().Edge() then Wrap(View().FirstMissing()) else Wrap(handled)
    {
      hide InputReliableStream.Valid, Receiver.Window, IsPowerOfTwo, LenAt, AreaAt, ReliableStream.Valid, Wrap, Add;
      ValidMeans();
      ghost var v, m := View(), base.buffer[..];
      firstUnknown := lastHandled;
      var i := 0;
      while i < base.history
        invariant 0 <= i <= base.history
        invariant firstUnknown == lastHandled && v.FirstMissing() == v.MissingFrom(handled + i + 1)
      {
        AddIsExact(handled, i + 1);
        WrapKeepsSlot(base.history, handled + i + 1);
        WindowAt(v, m, handled + i + 1);
        var seqNum := Add(lastHandled, i + 1);
        var size := base.GetSize(seqNum);
        if 0 == size {
          return seqNum;
        }
        i := i + 1;
      }
    }

    /** uxr_process_heartbeat */
    method ProcessHeartbeat(firstSeqNum: uint16, lastSeqNum: uint16)
      requires Valid()
      modifies this`lastAnnounced, this`announced
      ensures Valid() && View() == old(View()).Announce(lastSeqNum)
      ensures var last := Unwrap(old(announced), lastSeqNum);
        announced == if last > old(announced) then last else old(announced)
    {
      hide InputReliableStream.Valid, Receiver.Window, ReliableStream.Valid, Wrap, Cmp, Unwrap;
      ValidMeans();
      ghost var v, m := View(), base.buffer[..];
      AnnounceSees(announced, lastSeqNum);
      AnnouncedIgnored(v, m, lastSeqNum);
      if 0 > Cmp(lastAnnounced, lastSeqNum) {
        lastAnnounced, announced := lastSeqNum, Unwrap(announced, lastSeqNum);
      }
      ValidFrom();
    }

    /** uxr_is_input_up_to_date */
    method IsUpToDate() returns (upToDate: bool)
      requires Valid()
      requires -SEQ_NUM_SIZE < announced - handled < SEQ_NUM_SIZE
      ensures upToDate <==> announced == handled
    {
      WrapIsInjective(announced, handled);
      upToDate := lastAnnounced == lastHandled;
    }

    /** uxr_compute_acknack: `from` is the first missing number, and bit i says whether the slot
        of from + i is empty, for the numbers up to the last announced one and below from + 16.
        The source shifts an int by one bit less than there are such numbers, which it may up to
        30, and cuts the result to 16 bits. */
    method ComputeAcknack() returns (nackBitmap: nat, from: uint16)
      requires Valid() && drained == handled
      requires View().FirstMissing() <= View().Edge()
      requires View().FirstMissing() - 1 <= announced < View().FirstMissing() + 31
      ensures from == Wrap(View().FirstMissing()) && nackBitmap <= 0xFFFF
      ensures forall i: nat :: Bit(nackBitmap, i) == (i < 16 && Nacked(View(), base.buffer[..], i))
    {
      hide InputReliableStream.Valid, Receiver.Window, IsPowerOfTwo, LenAt, AreaAt, ReliableStream.Valid, Wrap;
      hide Add, Sub, Bit, Pow2;
      hide Receiver.FirstMissing;
      ValidMeans();
      ghost var v, m, f := View(), base.buffer[..], View().FirstMissing();
      from := GetFirstUnacked();
      SubIsExact(f, 1);
      SubGivesDistance(announced, f - 1);
      var buffersToAck := Sub(lastAnnounced, Sub(from, 1));
      nackBitmap := 0;
      var i := 0;
      Pow2Zero();
      while i < buffersToAck
        invariant 0 <= i <= buffersToAck && nackBitmap < Pow2(if i < 16 then i else 16)
        invariant forall j: nat :: Bit(nackBitmap, j) == (j < i && j < 16 && Nacked(v, m, j))
      {
        AddIsExact(f, i);
        WrapKeepsSlot(base.history, f + i);
        var seqNum := Add(from, i);
        var size := base.GetSize(seqNum);
        if i < 16 {
          SetBitEverywhere(nackBitmap, i, nackBitmap + Pow2(i));
        }
        if 0 == size && i < 16 {
          nackBitmap := nackBitmap + Pow2(i); // bit i is still clear: the same as | (1 << i)
        }
        assert Nacked(v, m, i) == (size == 0);
        i := i + 1;
      }
      Pow2Of16(if i < 16 then i else 16);
    }

    /** memcpy of a message into its slot, then the slot's length */
    method StoreMessage(seqNum: uint16, message: seq<byte>, ghost k: int)
      requires Valid() && drained == handled && seqNum == Wrap(k) && View().Accepts(k) && k !in stored
      requires 0 < |message| <= View().ring.Capacity()
      modifies base.buffer, this`stored
      ensures Valid() && View() == old(View()).(stored := old(stored)[k := message])
    {
      hide InputReliableStream.Valid, Receiver.Window, IsPowerOfTwo, LenAt, AreaAt, ReliableStream.Valid, Wrap;
      hide SameExcept, Start;
      ValidMeans();
      ghost var v, m := View(), base.buffer[..];
      WrapKeepsSlot(base.history, k);
      var p := GetBufferOf(seqNum, k);
      forall i | 0 <= i < |message| {
        base.buffer[p + i] := message[i];
      }
      ghost var n := base.buffer[..];
      assert n[p..p + |message|] == message;
      base.SetSize(seqNum, |message|);
      StoredInSlot(v.ring, m, n, base.buffer[..], k, message);
      StoreKeepsWindow(v, m, base.buffer[..], k, message);
      stored := stored[k := message];
      ValidFrom();
    }

    /** uxr_receive_reliable_message.  The sequence number stands for the unbounded number
        nearest to the last handled one. */
    method Receive(seqNum: uint16, message: seq<byte>, prior: bool) returns (readyToRead: bool, messageStored: bool)
      requires Valid() && drained == handled
      requires 0 < |message| <= View().ring.Capacity()
      requires Unwrap(handled, seqNum) == handled + 1 && onGetFragmentationInfo(message).NotFragmented? ==> handled + 1 !in stored
      requires !onGetFragmentationInfo(message).NotFragmented? ==>
        View().Received(onGetFragmentationInfo, Unwrap(handled, seqNum), message).WalkStops(onGetFragmentationInfo)
      modifies this`lastHandled, this`lastAnnounced, this`handled, this`drained, this`announced, this`stored, this`delivered, base.buffer
      ensures Valid()
      ensures var v := old(View()); var k := Unwrap(v.handled, seqNum); var w := v.Received(onGetFragmentationInfo, k, message);
        && View() == w.Announce(seqNum)
        && readyToRead == (v.IsDirect(onGetFragmentationInfo, k, message) || (v.IsStoring(onGetFragmentationInfo, k, message) &&
             !onGetFragmentationInfo(message).NotFragmented? && w.ChainEnd(onGetFragmentationInfo, w.handled + 1).Some?))
        && messageStored == if v.IsDirect(onGetFragmentationInfo, k, message) then false
             else v.IsStoring(onGetFragmentationInfo, k, message) || prior
      ensures var k, edge := Unwrap(old(handled), seqNum), old(handled) + base.history;
        && (old(handled) < k <= edge ==> k == handled || (k in stored && stored[k] == if k in old(stored) then old(stored)[k] else message))
        && (k <= old(handled) || k > edge ==> handled == old(handled) && stored == old(stored))
        && (forall j | j in old(stored) :: j in stored && stored[j] == old(stored)[j])
        && (forall j | j in stored && j !in old(stored) :: j == k)
        && (handled == old(handled) ==> messageStored == (prior || stored != old(stored)))
        && (handled != old(handled) ==> handled == k && delivered == old(delivered) + [message] && !messageStored)
      ensures var k := Unwrap(old(announced), seqNum); announced == if k > old(announced) then k else old(announced)
      ensures old(View()).NextEnd(onGetFragmentationInfo).None? ==>
        (readyToRead <==> handled > old(handled) || View().NextEnd(onGetFragmentationInfo).Some?)
    {
      hide InputReliableStream.Valid, Receiver.Window, IsPowerOfTwo, LenAt, AreaAt, ReliableStream.Valid, Wrap;
      hide Cmp, Add, Unwrap;
      hide Receiver.WalkStops, Receiver.ChainEnd, Receiver.NextEnd;
      ValidMeans();
      ghost var v, m, k := View(), base.buffer[..], Unwrap(handled, seqNum);
      readyToRead, messageStored := false, prior;
      ReceiveMeans(v, onGetFragmentationInfo, k, message, seqNum);
      var accepted := InWindow(seqNum, k);
      if accepted {
        var info := onGetFragmentationInfo(message);
        AddIsExact(handled, 1);
        WrapIsInjective(k, handled + 1);
        var next := Add(lastHandled, 1);
        if info.NotFragmented? && seqNum == next {
          DirectKeepsWindow(v, m, message);
          lastHandled, handled, drained, delivered := next, handled + 1, handled + 1, delivered + [message];
          readyToRead, messageStored := true, false;
          ValidFrom();
        } else {
          WrapKeepsSlot(base.history, k);
          StoredOrEmpty(v, m, k);
          var size := base.GetSize(seqNum);
          if 0 == size {
            StoreMessage(seqNum, message, k);
            messageStored := true;
            if !info.NotFragmented? {
              var found, last := CheckLastFragment();
              readyToRead := found;
            }
          }
        }
      }
      ProcessHeartbeat(0, seqNum); // the same comparison and assignment of last_announced
    }

    /** The two comparisons that decide whether a number lies in the receive window. */
    method InWindow(seqNum: uint16, ghost k: int) returns (inside: bool)
      requires Valid() && k == Unwrap(handled, seqNum)
      ensures inside == View().Accepts(k) && seqNum == Wrap(k) && -SEQ_NUM_MIDSIZE <= k - handled < SEQ_NUM_MIDSIZE
    {
      ValidMeans();
      hide InputReliableStream.Valid, Receiver.Window, IsPowerOfTwo, ReliableStream.Valid, Wrap, Add, Cmp;
      CmpSeesUnwrap(handled, seqNum);
      AddIsExact(handled, base.history);
      var lastHistory := Add(lastHandled, base.history);
      if k > handled {
        CmpIsExact(handled + base.history, k);
      }
      inside := 0 > Cmp(lastHandled, seqNum) && 0 <= Cmp(lastHistory, seqNum);
    }

    /** The slot that on_full_input_buffer turns to from anywhere in slot k, and its payload. */
    method NextSlot(init: nat, ghost k: int) returns (historyPosition: uint16, failed: bool, area: Area)
      requires base.Valid() && View().ring.Configured()
      requires Start(View().ring, k) <= init < Start(View().ring, k) + View().ring.Capacity()
      ensures historyPosition % base.history == Slot(base.history, k + 1)
      ensures failed == (View().ring.Len(base.buffer[..], k + 1) < SUBHEADER_SIZE)
      ensures !failed ==> area == ReadArea(View().ring, base.buffer[..], k + 1)
    {
      hide IsPowerOfTwo, LenAt;
      ghost var r := View().ring;
      HistoryPositionInverse(base, Slot(r.history, k), init);
      historyPosition := 1 + base.GetHistoryPosition(init);
      SlotSuccessor(r.history, k);
      RemainderIsUnique(historyPosition, if historyPosition == base.history then 1 else 0, Slot(r.history, k + 1), base.history);
      SlotBaseIsProduct(r.slotSize, Slot(r.history, k + 1));
      var buffer := base.GetBuffer(historyPosition);
      var size := base.GetSize(historyPosition);
      failed, area := size < SUBHEADER_SIZE, Area(0, 0);
      if !failed {
        area := Area(buffer + SUBHEADER_SIZE, buffer + size);
      }
    }

    /** on_full_input_buffer: hands out the next payload; with the clean-up flag set it also
        clears the length of that slot. */
    method OnFullInput(init: nat, ghost k: int) returns (failed: bool, area: Area)
      requires base.Valid() && View().ring.Configured()
      requires Start(View().ring, k) <= init < Start(View().ring, k) + View().ring.Capacity()
      modifies base.buffer
      ensures failed == (old(View().ring.Len(base.buffer[..], k + 1)) < SUBHEADER_SIZE)
      ensures !failed ==> area == ReadArea(View().ring, old(base.buffer[..]), k + 1)
      ensures if cleanupFlag
        then OnlyLengthSet(old(base.buffer[..]), base.buffer[..], base.SlotSize(), base.history, Slot(base.history, k + 1), 0)
        else base.buffer[..] == old(base.buffer[..])
    {
      hide IsPowerOfTwo, LenAt, AreaAt, OnlyLengthSet;
      var historyPosition;
      historyPosition, failed, area := NextSlot(init, k);
      if cleanupFlag {
        base.SetSize(historyPosition, 0);
      }
    }

    /** What on_full_input_buffer will hand out to the reader of the chain that starts at k, and
        how many bytes that is. */
    method CollectAnswers(init: nat, count: nat, ghost k: int) returns (answers: seq<Area>, total: nat)
      requires Valid() && drained == handled && handled < k && k + count <= View().Edge()
      requires Readable(View(), k + 1, k + count)
      requires Start(View().ring, k) <= init < Start(View().ring, k) + View().ring.Capacity()
      ensures answers == ReadAreas(View().ring, base.buffer[..], k + 1, k + count)
      ensures total == |Flat(answers)|
    {
      hide InputReliableStream.Valid, Receiver.Window, IsPowerOfTwo, LenAt, AreaAt, ReliableStream.Valid, ReadArea;
      hide Flat, Start;
      ValidMeans();
      ghost var v, m := View(), base.buffer[..];
      answers, total := [], 0;
      FlatOfNone();
      var at, i := init, 0;
      while i < count
        invariant 0 <= i == |answers| <= count && total == |Flat(answers)|
        invariant Start(v.ring, k + i) <= at < Start(v.ring, k + i) + v.ring.Capacity()
        invariant forall j | 0 <= j < i :: answers[j] == ReadArea(v.ring, m, k + 1 + j)
      {
        var _, failed, area := NextSlot(at, k + i);
        StoredSlot(v, m, k + 1 + i);
        ReadAreaInSlot(v.ring, m, k + 1 + i);
        FlatAppend(answers, area);
        answers, total := answers + [area], total + (area.to - area.from);
        at := area.from;
        i := i + 1;
      }
      AnswersAreReadAreas(v.ring, m, k + 1, k + count, answers);
    }

    /** uxr_next_input_reliable_buffer_available: the next single message, or the next complete
        chain of fragments behind one buffer that runs through all of them. */
    method NextBufferAvailable(ub: UcdrBuffer, fragmentOffset: nat) returns (available: bool, total: nat)
      requires Valid() && drained == handled
      requires View().WalkStops(onGetFragmentationInfo)
      requires ChainReadable(View(), onGetFragmentationInfo, fragmentOffset)
      modifies this`lastHandled, this`handled, this`drained, this`stored, this`delivered, base.buffer, ub
      ensures Valid()
      ensures var v := old(View()); var end := v.NextEnd(onGetFragmentationInfo);
        && available == end.Some?
        && View() == (if available then v.DeliverTo(end.value) else v)
        && (available ==> ub.chain == ReadAreas(v.ring, old(base.buffer[..]), v.handled + 2, end.value))
        && (available ==> ub.St().Valid() && !ub.error && ub.mem == base.buffer && ub.pos == 0)
        && (available ==> total == |ub.path| == |NextContents(v, onGetFragmentationInfo, fragmentOffset)|)
        && (available ==> Holds(base.buffer[..], ub.path, 0, NextContents(v, onGetFragmentationInfo, fragmentOffset)))
        && (available ==> Start(v.ring, v.handled + 1) <= ub.init < Start(v.ring, v.handled + 1) + v.ring.Capacity())
        && (available ==> FirstCleared(v, old(base.buffer[..]), base.buffer[..]))
    {
      hide InputReliableStream.Valid, Receiver.Window, IsPowerOfTwo, LenAt, AreaAt, ReliableStream.Valid, Wrap;
      hide Add, Start;
      hide State.Valid, Holds, NoDuplicates, Receiver.ChainEnd, Receiver.WalkStops, Receiver.DeliverTo;
      hide Reassembled, ChainReadable;
      ValidMeans();
      ghost var v, m, first := View(), base.buffer[..], handled + 1;
      AddIsExact(handled, 1);
      WrapKeepsSlot(base.history, first);
      StoredOrEmpty(v, m, first);
      var next := Add(lastHandled, 1);
      var length := base.GetSize(next);
      available, total := 0 != length, length;
      if available {
        var p := GetBufferOf(next, first);
        var info := onGetFragmentationInfo(base.buffer[p..p + length]);
        if info.NotFragmented? {
          TakeSingle(next, p, length, ub);
        } else {
          available, total := TakeChain(next, p, length, ub, fragmentOffset);
        }
      }
    }

    method TakeSingle(next: uint16, p: nat, length: nat, ub: UcdrBuffer)
      requires Valid() && drained == handled && handled + 1 in stored && next == Wrap(handled + 1)
      requires p == Start(View().ring, handled + 1) && length == |stored[handled + 1]|
      requires onGetFragmentationInfo(stored[handled + 1]).NotFragmented?
      modifies this`lastHandled, this`handled, this`drained, this`stored, this`delivered, base.buffer, ub
      ensures Valid()
      ensures var v := old(View());
        && View() == v.DeliverTo(v.handled + 1)
        && ub.St().Valid() && !ub.error && ub.mem == base.buffer && ub.pos == 0 && ub.init == p && ub.chain == []
        && |ub.path| == |v.stored[v.handled + 1]| && Holds(base.buffer[..], ub.path, 0, v.stored[v.handled + 1])
        && FirstCleared(v, old(base.buffer[..]), base.buffer[..])
    {
      hide InputReliableStream.Valid, Receiver.Window, IsPowerOfTwo, LenAt, AreaAt, ReliableStream.Valid, Wrap, Start;
      hide State.Valid, Holds, OnlyLengthSet, Receiver.DeliverTo;
      ValidMeans();
      ghost var v, m, first := View(), base.buffer[..], handled + 1;
      WrapKeepsSlot(base.history, first);
      StoredOrEmpty(v, m, first);
      ub.InitBuffer(base.buffer, p, length, 0, 0);
      base.SetSize(next, 0);
      SingleIsHeld(v, m, base.buffer[..], first);
      DeliverKeepsWindow(v, m, base.buffer[..], first);
      lastHandled := next;
      Deliver(first);
      DeliverMeans(v, first);
      ValidFrom();
    }

    method TakeChain(next: uint16, p: nat, length: nat, ub: UcdrBuffer, fragmentOffset: nat)
        returns (available: bool, total: nat)
      requires Valid() && drained == handled && handled + 1 in stored && next == Wrap(handled + 1)
      requires View().WalkStops(onGetFragmentationInfo)
      requires p == Start(View().ring, handled + 1) && length == |stored[handled + 1]|
      requires ChainReadable(View(), onGetFragmentationInfo, fragmentOffset)
      requires !onGetFragmentationInfo(stored[handled + 1]).NotFragmented?
      modifies this`lastHandled, this`handled, this`drained, this`stored, this`delivered, base.buffer, ub
      ensures Valid()
      ensures var v := old(View()); var first := v.handled + 1; var end := v.ChainEnd(onGetFragmentationInfo, first);
        && available == end.Some?
        && View() == (if available then v.DeliverTo(end.value) else v)
        && (available ==> ub.chain == ReadAreas(v.ring, old(base.buffer[..]), first + 1, end.value))
        && (available ==> ub.St().Valid() && !ub.error && ub.mem == base.buffer && ub.pos == 0)
        && (available ==> total == |ub.path| == |Reassembled(v, first, end.value, fragmentOffset)|)
        && (available ==> Holds(base.buffer[..], ub.path, 0, Reassembled(v, first, end.value, fragmentOffset)))
        && (available ==> ub.init == p + fragmentOffset && fragmentOffset < length && FirstCleared(v, old(base.buffer[..]), base.buffer[..]))
    {
      hide InputReliableStream.Valid, Receiver.Window, IsPowerOfTwo, LenAt, AreaAt, ReliableStream.Valid, Wrap, Start;
      hide State.Valid, Holds, Receiver.WalkStops, Receiver.ChainEnd, Receiver.DeliverTo, ReadAreas, Reassembled;
      hide ChainReadable, FirstCleared;
      ValidMeans();
      total := 0;
      var last;
      available, last := CheckLastFragment();
      if available {
        ghost var end := View().ChainEnd(onGetFragmentationInfo, handled + 1).value;
        total := HandOutChain(next, last, p, length, ub, fragmentOffset, end);
      }
    }

    /** The complete chain that ends at `end`: one buffer over all of its fragments. */
    method HandOutChain(next: uint16, last: uint16, p: nat, length: nat, ub: UcdrBuffer, fragmentOffset: nat,
        ghost end: int) returns (total: nat)
      requires Valid() && drained == handled && handled + 1 in stored && next == Wrap(handled + 1)
      requires View().ChainEnd(onGetFragmentationInfo, handled + 1) == Some(end) && last == Wrap(end)
      requires p == Start(View().ring, handled + 1) && length == |stored[handled + 1]|
      requires ChainReadable(View(), onGetFragmentationInfo, fragmentOffset)
      requires !onGetFragmentationInfo(stored[handled + 1]).NotFragmented?
      modifies this`lastHandled, this`handled, this`drained, this`stored, this`delivered, base.buffer, ub
      ensures Valid()
      ensures var v := old(View()); var first := v.handled + 1;
        && View() == v.DeliverTo(end) && ub.chain == ReadAreas(v.ring, old(base.buffer[..]), first + 1, end)
        && ub.St().Valid() && !ub.error && ub.mem == base.buffer && ub.pos == 0
        && total == |ub.path| == |Reassembled(v, first, end, fragmentOffset)|
        && Holds(base.buffer[..], ub.path, 0, Reassembled(v, first, end, fragmentOffset))
        && ub.init == p + fragmentOffset && fragmentOffset < length
        && FirstCleared(v, old(base.buffer[..]), base.buffer[..])
    {
      hide InputReliableStream.Valid, Receiver.Window, IsPowerOfTwo, LenAt, AreaAt, ReliableStream.Valid, Wrap;
      hide Sub, Start;
      hide State.Valid, Holds, NoDuplicates, AreasFit, OnlyLengthSet, Receiver.WalkStops, Receiver.ChainEnd;
      hide ReadAreas, Ahead, Reassembled;
      hide Receiver.DeliverTo;
      ValidMeans();
      ghost var v, m, first := View(), base.buffer[..], handled + 1;
      WrapKeepsSlot(base.history, first);
      ChainEndIsLast(v, onGetFragmentationInfo, first);
      ChainIsStored(v, onGetFragmentationInfo, first, end);
      StoredSlot(v, m, first);
      SubGivesDistance(end, first);
      var count := Sub(last, next);
      var answers, more := CollectAnswers(p, count, first);
      total := length - fragmentOffset + more;
      AheadLength(Start(v.ring, first) + fragmentOffset, Start(v.ring, first) + length, answers);
      base.SetSize(next, 0);
      OpenChain(p, length, ub, fragmentOffset, answers, v, m, end);
      DeliverKeepsWindow(v, m, base.buffer[..], end);
      lastHandled := last;
      Deliver(end);
      DeliverMeans(v, end);
      ValidFrom();
    }

    /** ucdr_init_buffer and the on-full callback for the reader of a chain */
    method OpenChain(p: nat, length: nat, ub: UcdrBuffer, fragmentOffset: nat, answers: seq<Area>,
        ghost v: Receiver, ghost m: seq<byte>, ghost end: int)
      requires v.Window(m) && v.drained == v.handled && v.handled + 1 in v.stored && v.ring.history > 0
      requires p == Start(v.ring, v.handled + 1) && length == |v.stored[v.handled + 1]|
      requires v.handled < end <= v.Edge() && fragmentOffset < length && Readable(v, v.handled + 2, end)
      requires SlotBase(v.ring.slotSize, v.ring.history) <= |m| == base.buffer.Length
      requires FirstCleared(v, m, base.buffer[..]) && answers == ReadAreas(v.ring, m, v.handled + 2, end)
      modifies ub
      ensures ub.St().Valid() && !ub.error && ub.mem == base.buffer && ub.pos == 0 && ub.chain == answers
      ensures ub.path == Ahead(p + fragmentOffset, p + length, answers) && ub.init == p + fragmentOffset
      ensures |ub.path| == |Reassembled(v, v.handled + 1, end, fragmentOffset)|
      ensures Holds(base.buffer[..], ub.path, 0, Reassembled(v, v.handled + 1, end, fragmentOffset))
    {
      hide Receiver.Window, IsPowerOfTwo, LenAt, AreaAt, ReliableStream.Valid, Start, Readable;
      hide State.Valid, Holds, NoDuplicates, AreasFit, OnlyLengthSet, ReadAreas, Ahead, Reassembled;
      ReadPathIsGood(v, m, v.handled + 1, end, fragmentOffset);
      ub.InitBuffer(base.buffer, p + fragmentOffset, length - fragmentOffset, 0, 0);
      ub.SetOnFullBuffer(answers, 0);
      ChainIsHeld(v, m, base.buffer[..], v.handled + 1, end, fragmentOffset);
    }

    ghost method Deliver(last: int)
      requires base.history > 0
      modifies this`handled, this`drained, this`stored, this`delivered
      ensures View() == old(View()).DeliverTo(last)
    {
      ghost var t := View().DeliverTo(last);
      handled, drained, stored, delivered := t.handled, t.drained, t.stored, t.delivered;
    }

    /** `count` calls of on_full_input_buffer with the clean-up flag set, the first one from
        anywhere in slot `drained`: they hand out the areas of the next slots and empty these. */
    method DrainChain(init: nat, count: nat) returns (handed: seq<Area>)
      requires Valid() && cleanupFlag && count <= handled - drained
      requires Start(View().ring, drained) <= init < Start(View().ring, drained) + View().ring.Capacity()
      requires Occupied(View(), base.buffer[..])
      modifies this`drained, base.buffer
      ensures Valid() && View() == old(View()).(drained := old(drained) + count)
      ensures handed == ReadAreas(View().ring, old(base.buffer[..]), old(drained) + 1, drained)
      ensures SameAreas(View().ring, old(base.buffer[..]), base.buffer[..])
    {
      hide InputReliableStream.Valid, Receiver.Window, IsPowerOfTwo, LenAt, AreaAt, ReliableStream.Valid, OnlyLengthSet;
      hide ReadArea, Start;
      ValidMeans();
      ghost var v, m, first := View(), base.buffer[..], drained + 1;
      handed := [];
      var at, i := init, 0;
      while i < count
        invariant 0 <= i == |handed| <= count && Valid() && View() == v.(drained := v.drained + i)
        invariant Start(v.ring, drained) <= at < Start(v.ring, drained) + v.ring.Capacity()
        invariant forall j | drained < j <= handled :: v.ring.Len(base.buffer[..], j) == v.ring.Len(m, j)
        invariant forall j | 0 <= j < i :: handed[j] == ReadArea(v.ring, m, first + j)
        invariant SameAreas(v.ring, m, base.buffer[..])
      {
        ValidMeans();
        ghost var w, n := View(), base.buffer[..];
        ReadAreaInSlot(v.ring, n, drained + 1);
        SameReadArea(v.ring, n, m, drained + 1);
        var failed, area := OnFullInput(at, drained);
        DrainKeepsWindow(w, n, base.buffer[..]);
        SetInWindow(v.ring, n, base.buffer[..], drained + 1, 0);
        handed := handed + [area];
        at := area.from;
        drained := drained + 1;
        ValidFrom();
        i := i + 1;
      }
      AnswersAreReadAreas(v.ring, m, first, first + count - 1, handed);
    }

    /** ucdr_advance_buffer over a delivered buffer with the clean-up flag set.  Every area that
        the buffer goes on to is one successful call of on_full_input_buffer, which empties the
        slot of just that area; when all bytes are passed, the whole chain is empty. */
    method AdvanceDelivered(ub: UcdrBuffer, size: nat)
      requires Valid() && cleanupFlag && ub.mem == base.buffer && ub.St().Valid() && !ub.error && size <= ub.St().Left()
      requires Start(View().ring, drained) <= ub.init < Start(View().ring, drained) + View().ring.Capacity()
      requires ub.chain == ReadAreas(View().ring, base.buffer[..], drained + 1, handled)
      requires Occupied(View(), base.buffer[..])
      modifies this`drained, base.buffer, ub
      ensures Valid() && Advanced(old(ub.St()), ub.St(), size) && !ub.error
      ensures View() == old(View()).(drained := handled - |ub.chain|)
      ensures ReadAreas(View().ring, old(base.buffer[..]), old(drained) + 1, drained) <= old(ub.chain)
      ensures size == old(ub.St().Left()) ==> drained == handled && ub.chain == []
      ensures SameAreas(View().ring, old(base.buffer[..]), base.buffer[..])
    {
      hide InputReliableStream.Valid, Receiver.Window, IsPowerOfTwo, LenAt, AreaAt, ReliableStream.Valid, State.Shape;
      hide State.Valid, ReadAreas, Occupied;
      ValidMeans();
      ghost var v, m := View(), base.buffer[..];
      ReadAreasCount(v.ring, m, drained + 1, handled);
      ValidGives(ub.St());
      var init, areas := ub.init, |ub.chain|;
      ub.AdvanceBuffer(size);
      PathEndIsLastArea(ub.St());
      var handed := DrainChain(init, areas - |ub.chain|);
      ReadAreasPrefix(v.ring, m, v.drained + 1, drained, handled);
    }

    /** One turn of the delivery loop of read_stream (srcs/session/session.c), with the reading
        order of read_format_data (srcs/session/read_access.c): the contents are read through a
        second buffer over the same bytes with the clean-up flag off, then the first buffer is
        advanced with the flag on. */
    method ReadNext() returns (available: bool, contents: seq<byte>)
      requires Valid() && drained == handled
      requires View().WalkStops(onGetFragmentationInfo) && ChainReadable(View(), onGetFragmentationInfo, SUBHEADER_SIZE)
      modifies this`lastHandled, this`handled, this`drained, this`stored, this`delivered, this`cleanupFlag, base.buffer
      ensures Valid()
      ensures var v := old(View()); var end := v.NextEnd(onGetFragmentationInfo);
        && available == end.Some?
        && View() == (if available then v.DeliverTo(end.value).(drained := end.value) else v)
        && (available ==> contents == NextContents(v, onGetFragmentationInfo, SUBHEADER_SIZE))
    {
      hide InputReliableStream.Valid, Receiver.Window, IsPowerOfTwo, LenAt, AreaAt, ReliableStream.Valid;
      hide State.Valid, Holds, ReadAreas, Occupied;
      hide Receiver.NextEnd, NextContents, Receiver.WalkStops, ChainReadable, Receiver.DeliverTo, Took, Advanced;
      ValidMeans();
      ghost var v, m := View(), base.buffer[..];
      contents := [];
      var ub := new UcdrBuffer(base.buffer, 0, 0, 0, 0, MACHINE);
      var total;
      available, total := NextBufferAvailable(ub, SUBHEADER_SIZE);
      if available {
        ghost var end, n := v.NextEnd(onGetFragmentationInfo).value, base.buffer[..];
        DeliverMeans(v, end);
        DirtySlots(v, m, n, onGetFragmentationInfo);
        cleanupFlag := false;
        contents := ReadThrough(ub, total, NextContents(v, onGetFragmentationInfo, SUBHEADER_SIZE));
        cleanupFlag := true;
        AdvanceDelivered(ub, total);
      }
    }

    /** temp_buffer of read_format_data: reads what is ahead of ub and leaves ub as it is. */
    method ReadThrough(ub: UcdrBuffer, total: nat, ghost contents: seq<byte>) returns (data: seq<byte>)
      requires ub.St().Valid() && !ub.error && ub.pos == 0
      requires total == |ub.path| == |contents| && Holds(ub.mem[..], ub.path, 0, contents)
      ensures data == contents
    {
      hide State.Valid, Holds, Took, Advanced, NoDuplicates;
      ghost var s := ub.St();
      WholePathAhead(s);
      var temp := new UcdrBuffer(ub.mem, ub.iterator_, ub.fin - ub.iterator_, 0, 0, MACHINE);
      temp.SetOnFullBuffer(ub.chain, ub.minArea);
      ghost var t := temp.St();
      ValidGives(t);
      data := temp.BufferToArray(total, 1);
      WholePathRead(t, temp.St(), ub.mem[..], total, data, contents);
    }

    /** The delivery loop of read_stream: whatever is deliverable is delivered, in order. */
    method DeliverStored() returns (contents: seq<seq<byte>>)
      requires Valid() && drained == handled
      requires View().WalkStops(onGetFragmentationInfo) && FragmentsReadable(View(), onGetFragmentationInfo)
      modifies this, base.buffer
      ensures Valid() && drained == handled
      ensures View() == DeliverAll(old(View()), onGetFragmentationInfo)
      ensures contents == AllContents(old(View()), onGetFragmentationInfo)
    {
      hide InputReliableStream.Valid, Receiver.Window, IsPowerOfTwo, ReliableStream.Valid, Wrap, Unwrap;
      hide FragmentsReadable;
      hide Receiver.ChainEnd, Receiver.WalkStops, Receiver.DeliverTo, NextContents, ChainReadable, DeliverAll;
      hide AllContents, Receiver.NextEnd;
      ValidMeans();
      ghost var v := View();
      contents := [];
      var more, next := true, [];
      while more
        invariant Valid() && drained == handled && View().Counters()
        invariant View().WalkStops(onGetFragmentationInfo) && FragmentsReadable(View(), onGetFragmentationInfo)
        invariant DeliverAll(v, onGetFragmentationInfo) == DeliverAll(View(), onGetFragmentationInfo)
        invariant AllContents(v, onGetFragmentationInfo) == contents + AllContents(View(), onGetFragmentationInfo)
        invariant !more ==> View().NextEnd(onGetFragmentationInfo).None?
        decreases more, |View().stored|
      {
        ghost var u := View();
        ReadableChain(u, onGetFragmentationInfo);
        DeliverStep(u, onGetFragmentationInfo);
        more, next := ReadNext();
        ValidMeans();
        if more {
          contents := contents + [next];
        }
      }
      DeliverStep(View(), onGetFragmentationInfo);
    }

    /** read_stream for a reliable stream (srcs/session/session.c): receive one message, then
        deliver whatever has become deliverable.  A number stands for one message only. */
    method ReadStream(seqNum: uint16, message: seq<byte>) returns (contents: seq<seq<byte>>)
      requires Valid() && drained == handled && View().NextEnd(onGetFragmentationInfo).None?
      requires 0 < |message| <= View().ring.Capacity()
      requires var k := Unwrap(handled, seqNum); k in stored ==> stored[k] == message
      requires var w := View().Received(onGetFragmentationInfo, Unwrap(handled, seqNum), message);
        w.WalkStops(onGetFragmentationInfo) && FragmentsReadable(w, onGetFragmentationInfo)
      modifies this, base.buffer
      ensures Valid() && drained == handled
      ensures var v := old(View()); var k := Unwrap(v.handled, seqNum);
        var w := v.Received(onGetFragmentationInfo, k, message).Announce(seqNum);
        && View() == DeliverAll(w, onGetFragmentationInfo)
        && contents == (if v.IsDirect(onGetFragmentationInfo, k, message) then [message] else []) + AllContents(w, onGetFragmentationInfo)
    {
      hide InputReliableStream.Valid, Receiver.Window, IsPowerOfTwo, ReliableStream.Valid, Wrap, Unwrap;
      hide FragmentsReadable;
      hide Receiver.ChainEnd, Receiver.WalkStops, Receiver.DeliverTo, NextContents, ChainReadable, DeliverAll;
      hide AllContents, Receiver.NextEnd;
      ValidMeans();
      ghost var v, k := View(), Unwrap(handled, seqNum);
      SettledNext(v, onGetFragmentationInfo);
      AnnounceIsNoise(v.Received(onGetFragmentationInfo, k, message), onGetFragmentationInfo, seqNum);
      contents := [];
      var ready, messageStored := Receive(seqNum, message, false);
      if ready {
        if !messageStored {
          contents := [message]; // the buffer of the received message was not taken over
        }
        var more := DeliverStored();
        contents := contents + more;
      } else {
        NotReadyIsSettled(v, onGetFragmentationInfo, k, message);
        DeliverStep(View(), onGetFragmentationInfo);
      }
    }
  }

  lemma Pow2Zero()
    ensures 0 < Pow2(0) && forall j: nat :: !Bit(0, j)
  {
    forall j: nat
      ensures !Bit(0, j)
    {
      BitOfSmall(j);
    }
  }

  lemma Pow2Of16(i: nat)
    requires i <= 16
    ensures Pow2(i) <= 0x1_0000
  {
    Pow2IsMonotone(i, 16);
    assert Pow2(4) == 16;
    assert Pow2(8) == 0x100;
    assert Pow2(12) == 0x1000;
  }

  lemma SetBitEverywhere(bitmap: nat, i: nat, after: nat)
    requires bitmap < Pow2(i) && after == bitmap + Pow2(i)
    ensures bitmap < Pow2(i + 1) && after < Pow2(i + 1)
    ensures forall j: nat :: Bit(after, j) == (Bit(bitmap, j) || j == i)
  {
    Pow2IsMonotone(i, i + 1);
    forall j: nat
      ensures Bit(after, j) == (Bit(bitmap, j) || j == i)
    {
      SetBit(bitmap, i, j);
    }
    SetBit(bitmap, i, 0);
  }

  lemma AnnounceSees(announced: int, seqNum: uint16)
    ensures Cmp(Wrap(announced), seqNum) == Sign(announced - Unwrap(announced, seqNum))
    ensures Wrap(Unwrap(announced, seqNum)) == seqNum
  {
    CmpSeesUnwrap(announced, seqNum);
  }

  /** Announcements play no part in the window. */
  lemma AnnouncedIgnored(v: Receiver, m: seq<byte>, seqNum: uint16)
    requires v.Window(m)
    ensures v.Announce(seqNum).Window(m)
  {
    WindowMeans(v, m);
    var t := v.Announce(seqNum);
    forall k | t.handled < k <= t.drained + t.ring.history
      ensures t.SlotOk(m, k)
    {
      WindowAt(v, m, k);
    }
  }

  /** A window slot is empty, or holds the stored message at the slot's start. */
  lemma StoredOrEmpty(v: Receiver, m: seq<byte>, k: int)
    requires v.Window(m) && v.drained == v.handled && v.handled < k <= v.Edge()
    requires SlotBase(v.ring.slotSize, v.ring.history) <= |m|
    ensures v.ring.history > 0
    ensures k !in v.stored <==> v.ring.Len(m, k) == 0
    ensures v.ring.Len(m, k) <= v.ring.Capacity()
    ensures k in v.stored ==>
      v.ring.Len(m, k) == |v.stored[k]| && Start(v.ring, k) + |v.stored[k]| <= |m| &&
      m[Start(v.ring, k)..Start(v.ring, k) + |v.stored[k]|] == v.stored[k]
  {
    WindowAt(v, m, k);
    if k in v.stored {
      StoredSlot(v, m, k);
    }
  }

  /** Copying a message to the start of a slot and setting the slot's length. */
  lemma StoredInSlot(r: Ring, m: seq<byte>, n: seq<byte>, n': seq<byte>, k: int, message: seq<byte>)
    requires r.Configured() && |message| <= r.Capacity() && SlotBase(r.slotSize, r.history) <= |m| == |n|
    requires var p := Start(r, k);
      && p + |message| <= |n| && n[p..p + |message|] == message
      && forall q | 0 <= q < |m| && !(p <= q < p + |message|) :: n[q] == m[q]
    requires OnlyLengthSet(n, n', r.slotSize, r.history, Slot(r.history, k), |message|)
    ensures r.Len(n', k) == |message| && r.Message(n', k) == message
    ensures forall j | k - r.history < j < k + r.history && j != k :: r.Len(n', j) == r.Len(m, j) && r.Message(n', j) == r.Message(m, j)
  {
    SetInWindow(r, n, n', k, |message|);
    MessageAt(r, n, n', k, message);
    forall j | k - r.history < j < k + r.history && j != k
      ensures r.Len(n, j) == r.Len(m, j) && r.Message(n, j) == r.Message(m, j)
    {
      if j < k {
        SlotsDiffer(r.history, j, k);
      } else {
        SlotsDiffer(r.history, k, j);
      }
      OtherSlotSame(r, m, n, k, j, |message|);
    }
  }

  lemma MessageAt(r: Ring, n: seq<byte>, n': seq<byte>, k: int, message: seq<byte>)
    requires r.Configured() && |message| <= r.Capacity() && SlotBase(r.slotSize, r.history) <= |n|
    requires Start(r, k) + |message| <= |n| && n[Start(r, k)..Start(r, k) + |message|] == message
    requires SameAreas(r, n, n') && r.Len(n', k) == |message|
    ensures r.Message(n', k) == message
  {
    var slot := Slot(r.history, k);
    SlotsAreDisjoint(r.slotSize, slot, r.history);
    assert AreaAt(n', r.slotSize, slot) == AreaAt(n, r.slotSize, slot);
    var area, p := AreaAt(n, r.slotSize, slot), Start(r, k);
    assert area == n[p..p + r.Capacity()];
    assert area[..|message|] == n[p..p + |message|];
  }

  lemma OtherSlotSame(r: Ring, m: seq<byte>, n: seq<byte>, k: int, j: int, size: nat)
    requires r.Configured() && size <= r.Capacity() && SlotBase(r.slotSize, r.history) <= |m| == |n|
    requires Slot(r.history, j) != Slot(r.history, k)
    requires forall q | 0 <= q < |m| && !(Start(r, k) <= q < Start(r, k) + size) :: n[q] == m[q]
    ensures r.Len(n, j) == r.Len(m, j) && r.Message(n, j) == r.Message(m, j)
  {
    var a, b := Slot(r.history, j), Slot(r.history, k);
    SlotsAreDisjoint(r.slotSize, a, r.history);
    if a < b {
      SlotsAreDisjoint(r.slotSize, a, b);
    } else {
      SlotsAreDisjoint(r.slotSize, b, a);
    }
    assert AreaAt(n, r.slotSize, a) == AreaAt(m, r.slotSize, a);
  }

  lemma {:induction false} FlatAppend(areas: seq<Area>, area: Area)
    requires area.from <= area.to
    ensures |Flat(areas + [area])| == |Flat(areas)| + (area.to - area.from)
  {
    if areas == [] {
      FlatCons(area, []);
      FlatOfNone();
      assert [] + [area] == [area] + [];
    } else {
      FlatAppend(areas[1..], area);
      assert (areas + [area])[1..] == areas[1..] + [area];
    }
  }

  /** What a receive does, in the fields of the stream. */
  lemma ReceiveMeans(v: Receiver, kindOf: KindOf, k: int, message: seq<byte>, seqNum: uint16)
    requires -1 <= v.handled
    ensures var u := v.Received(kindOf, k, message); var w := u.Announce(seqNum);
      && w.handled == u.handled && w.stored == u.stored && w.delivered == u.delivered
      && (v.handled < k <= v.Edge() ==> k == w.handled || (k in w.stored && w.stored[k] == if k in v.stored then v.stored[k] else message))
      && (k <= v.handled || k > v.Edge() ==> w.handled == v.handled && w.stored == v.stored)
      && (forall j | j in v.stored :: j in w.stored && w.stored[j] == v.stored[j])
      && (forall j | j in w.stored && j !in v.stored :: j == k)
      && (w.handled == v.handled ==> (v.IsStoring(kindOf, k, message) <==> w.stored != v.stored))
      && (w.handled != v.handled ==> w.handled == k && w.delivered == v.delivered + [message])
      && (w.handled != v.handled <==> v.IsDirect(kindOf, k, message))
      && w.NextEnd(kindOf) == u.NextEnd(kindOf)
    ensures v.NextEnd(kindOf).None? ==>
      var u := v.Received(kindOf, k, message);
      (v.IsDirect(kindOf, k, message) ||
      (v.IsStoring(kindOf, k, message) && !kindOf(message).NotFragmented? && u.ChainEnd(kindOf, u.handled + 1).Some?)
      <==> u.handled > v.handled || u.NextEnd(kindOf).Some?)
  {
    hide Receiver.NextEnd, Receiver.ChainEnd, Unwrap;
    AnnounceIsNoise(v.Received(kindOf, k, message), kindOf, seqNum);
    if v.NextEnd(kindOf).None? {
      ReadyExactly(v, kindOf, k, message);
    }
    var w := v.Received(kindOf, k, message);
    assert v.IsStoring(kindOf, k, message) ==> k in w.stored && k !in v.stored;
  }

  lemma AheadLength(first: nat, end: nat, areas: seq<Area>)
    requires first <= end
    ensures |Ahead(first, end, areas)| == end - first + |Flat(areas)|
  {}

  lemma WholePathRead(s: State, t: State, m: seq<byte>, total: nat, data: seq<byte>, contents: seq<byte>)
    requires s.pos == 0 && !s.error && |s.path| == total == |contents| && Holds(m, s.path, 0, contents)
    requires Advanced(s, t, total) && (!t.error ==> |data| == total && Took(s, t, m, 0, data))
    ensures data == contents
  {
    HoldsIsUnique(m, s.path, 0, data, contents);
  }

  /** Only the length of the first slot of the delivery was changed, to 0. */
  ghost predicate FirstCleared(v: Receiver, m: seq<byte>, n: seq<byte>)
    requires v.ring.history > 0
  {
    OnlyLengthSet(m, n, v.ring.slotSize, v.ring.history, Slot(v.ring.history, v.handled + 1), 0)
  }

  /** Clearing the first length leaves the other slots of the delivery occupied, as they were. */
  lemma DirtySlots(v: Receiver, m: seq<byte>, n: seq<byte>, kindOf: KindOf)
    requires v.Window(m) && v.drained == v.handled && v.NextEnd(kindOf).Some?
    requires ChainReadable(v, kindOf, SUBHEADER_SIZE)
    requires SlotBase(v.ring.slotSize, v.ring.history) <= |m| && v.ring.history > 0 && FirstCleared(v, m, n)
    ensures var first, end := v.handled + 1, v.NextEnd(kindOf).value;
      && Occupied(v.DeliverTo(end), n)
      && ReadAreas(v.ring, n, first + 1, end) == ReadAreas(v.ring, m, first + 1, end)
  {
    hide IsPowerOfTwo, LenAt, AreaAt, Receiver.Window, OnlyLengthSet, ReadAreas;
    var first, end := v.handled + 1, v.NextEnd(kindOf).value;
    if kindOf(v.stored[first]).NotFragmented? {
      SameReadAreas(v.ring, n, m, first + 1, end);
    } else {
      ChainEndIsLast(v, kindOf, first);
      SetInWindow(v.ring, m, n, first, 0);
      forall j | first < j <= end
        ensures SUBHEADER_SIZE < v.ring.Len(n, j) <= v.ring.Capacity()
        ensures v.ring.Len(n, j) == v.ring.Len(m, j)
      {
        StoredSlot(v, m, j);
      }
      SameReadAreas(v.ring, n, m, first + 1, end);
    }
  }

  lemma ReadAreaInSlot(r: Ring, m: seq<byte>, k: int)
    requires r.Configured() && SUBHEADER_SIZE < r.Len(m, k) <= r.Capacity()
    ensures var area := ReadArea(r, m, k); Start(r, k) <= area.from < area.to <= Start(r, k) + r.Capacity()
  {}

  lemma SingleIsHeld(v: Receiver, m: seq<byte>, n: seq<byte>, first: int)
    requires v.Window(m) && v.drained == v.handled && first == v.handled + 1 && first in v.stored
    requires SlotBase(v.ring.slotSize, v.ring.history) <= |m|
    requires OnlyLengthSet(m, n, v.ring.slotSize, v.ring.history, Slot(v.ring.history, first), 0)
    ensures var p := Start(v.ring, first); Holds(n, Range(p, p + |v.stored[first]|), 0, v.stored[first])
  {
    hide IsPowerOfTwo, Start, LenAt, AreaAt, Receiver.Window, OnlyLengthSet;
    WindowMeans(v, m);
    StoredSlot(v, m, first);
    SetInWindow(v.ring, m, n, first, 0);
    LengthSetSizes(m, n, v.ring.slotSize, v.ring.history, Slot(v.ring.history, first), 0);
    var p, s := Start(v.ring, first), v.stored[first];
    forall q | p <= q < p + |s|
      ensures n[q] == m[q]
    {
      SameAreaBytes(v.ring, m, n, first, q);
    }
    assert forall i | 0 <= i < |s| :: s[i] == m[p..p + |s|][i];
  }

  /** Clearing a length leaves what a path through the slots holds. */
  lemma ChainIsHeld(v: Receiver, m: seq<byte>, n: seq<byte>, first: int, last: int, skip: nat)
    requires v.Window(m) && v.drained == v.handled && first == v.handled + 1
    requires first <= last <= v.Edge() && first in v.stored
    requires skip <= |v.stored[first]| && Readable(v, first + 1, last)
    requires SlotBase(v.ring.slotSize, v.ring.history) <= |m|
    requires OnlyLengthSet(m, n, v.ring.slotSize, v.ring.history, Slot(v.ring.history, first), 0)
    ensures v.ring.history > 0
    ensures Holds(n, ReadPath(v.ring, m, first, last, skip), 0, Reassembled(v, first, last, skip))
  {
    hide IsPowerOfTwo, NoDuplicates, Flat, Start, LenAt, AreaAt, Receiver.Window, OnlyLengthSet, Reassembled;
    WindowMeans(v, m);
    ReadPathIsGood(v, m, first, last, skip);
    ReadPathOnSlots(v, m, first, last, skip);
    SetInWindow(v.ring, m, n, first, 0);
    LengthSetSizes(m, n, v.ring.slotSize, v.ring.history, Slot(v.ring.history, first), 0);
    var path, s := ReadPath(v.ring, m, first, last, skip), Reassembled(v, first, last, skip);
    forall i | 0 <= i < |s|
      ensures path[i] < |n| && n[path[i]] == s[i]
    {
      PathOnSlots(v.ring, path, first, last + 1, i);
      var j :| first <= j < last + 1 && InSlotOf(v.ring, j, path[i]);
      SameAreaBytes(v.ring, m, n, j, path[i]);
    }
  }

  lemma LengthSetSizes(m: seq<byte>, n: seq<byte>, slotSize: nat, history: nat, i: nat, length: nat)
    requires OnlyLengthSet(m, n, slotSize, history, i, length)
    ensures |m| == |n|
  {}

  lemma DeliverMeans(v: Receiver, last: int)
    ensures v.DeliverTo(last).handled == last && v.DeliverTo(last).ring == v.ring
    ensures v.DeliverTo(last).announced == v.announced && v.DeliverTo(last).drained == v.handled + 1
  {}

  lemma ChainIsStored(v: Receiver, kindOf: KindOf, first: int, last: int)
    requires first <= last && last in v.stored && forall j | first <= j < last :: v.IsIntermediate(kindOf, j)
    ensures forall j | first <= j <= last :: j in v.stored
  {
    forall j | first <= j <= last
      ensures j in v.stored
    {
      if j < last {
        assert v.IsIntermediate(kindOf, j);
      }
    }
  }
}

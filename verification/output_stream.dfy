/** The output reliable stream: sending, acknowledging and resending. */
module OutputStream {
  import opened SeqNum
  import opened Memory
  import opened ReliableRing
  import opened SlotGeometry
  import opened OutputWindow
  import opened OutputGrant
  import opened OutputPath
  import opened MicroCdr

  /** A length without its first bytes, cut to 32 bits. */
  function SizeBehind(length: uint32, taken: nat): (size: uint32)
    requires taken <= 0x1_0000_0000
    ensures size == if length >= taken then length - taken else 0x1_0000_0000 - (taken - length)
  {
    (length - taken) % 0x1_0000_0000
  }

  class OutputReliableStream {
    const base: ReliableStream
    const offset: nat
    var lastWritten: uint16
    var lastSent: uint16
    var lastAcknown: uint16
    var sendLost: bool
    var nextHeartbeatTries: nat

    ghost var acked: int
    ghost var sent: int
    ghost var written: int
    ghost var log: seq<seq<byte>>

    ghost function View(): Sender
      requires base.history > 0
      reads this
    {
      Sender(Ring(base.SlotSize(), base.history, offset), acked, sent, written, log)
    }

    ghost predicate Valid()
      reads this, base.buffer
    {
      var holds :=
        && base.Valid()
        && lastWritten == Wrap(written) && lastSent == Wrap(sent) && lastAcknown == Wrap(acked)
        && View().Window(base.buffer[..]);
      holds
    }

    lemma ValidMeans()
      requires Valid()
      ensures base.Valid() && View().Window(base.buffer[..]) && View().Counters() && View().ring.Configured()
      ensures lastWritten == Wrap(written) && lastSent == Wrap(sent) && lastAcknown == Wrap(acked)
      ensures SlotBase(base.SlotSize(), base.history) <= base.buffer.Length
    {}

    lemma ValidFrom()
      requires base.Valid() && View().Window(base.buffer[..])
      requires lastWritten == Wrap(written) && lastSent == Wrap(sent) && lastAcknown == Wrap(acked)
      ensures Valid()
    {}

    /** uxr_init_output_reliable_stream and uxr_reset_output_reliable_stream */
    constructor (base: ReliableStream, headerOffset: nat)
      requires base.Valid() && headerOffset % 4 == 0
      requires headerOffset + SUBHEADER_SIZE < base.GetCapacity()
      modifies base.buffer
      ensures Valid() && this.base == base && offset == headerOffset
      ensures acked == -1 && sent == -1 && written == 0 && log == [] && !sendLost
      ensures forall j: nat | j < base.history :: LenAt(base.buffer[..], base.SlotSize(), j) == headerOffset
    {
      this.base, offset := base, headerOffset;
      lastWritten, lastSent, lastAcknown := 0, SEQ_NUM_MAX, SEQ_NUM_MAX;
      nextHeartbeatTries, sendLost := 0, false;
      acked, sent, written, log := -1, -1, 0, [];
      new;
      var i := 0;
      while i < base.history
        invariant 0 <= i <= base.history
        invariant forall j: nat | j < i :: LenAt(base.buffer[..], base.SlotSize(), j) == headerOffset
        invariant acked == -1 && sent == -1 && written == 0 && log == [] && !sendLost
        invariant lastWritten == 0 && lastSent == lastAcknown == SEQ_NUM_MAX
      {
        RemainderIsUnique(i, 0, i, base.history);
        base.SetSize(i, headerOffset);
        i := i + 1;
      }
    }

    /** uxr_is_output_up_to_date */
    method IsUpToDate() returns (upToDate: bool)
      requires Valid()
      ensures upToDate <==> acked == sent
    {
      ValidMeans();
      CmpIsExact(acked, sent);
      upToDate := 0 == Cmp(lastAcknown, lastSent);
    }

    /** uxr_prepare_next_reliable_buffer_to_send: sends the next message exactly when there is
        one and the window has room, and opens a new slot when it was the open one. */
    method PrepareNextToSend() returns (dataToSend: bool, buffer: nat, length: nat, seqNum: uint16)
      requires Valid()
      modifies this
      ensures Valid() && dataToSend == old(View().Sendable(base.buffer[..]))
      ensures View() == if dataToSend then old(View().Sent(base.buffer[..])) else old(View())
      ensures dataToSend ==> seqNum == Wrap(sent)
      ensures dataToSend ==> buffer + length <= base.buffer.Length && base.buffer[buffer..buffer + length] == log[sent]
      ensures sendLost == old(sendLost)
    {
      hide OutputReliableStream.Valid, Sender.Window, Sender.Sendable, Ring.Configured, ReliableStream.Valid;
      hide Cmp, Add, Sub, LenAt, AreaAt, Wrap;
      ValidMeans();
      ghost var v, m := View(), base.buffer[..];
      SendDecision(v, m);
      AddIsExact(sent, 1);
      seqNum := Add(lastSent, 1);
      buffer := base.GetBuffer(seqNum);
      length := base.GetSize(seqNum);
      CmpIsExact(sent + 1, written);
      SubGivesDistance(sent, acked);
      WrapKeepsSlot(base.history, sent + 1);
      dataToSend := 0 >= Cmp(seqNum, lastWritten) && length > offset && Sub(lastSent, lastAcknown) != base.history;
      if dataToSend {
        SlotIsAtBuffer(v, base, sent + 1);
        log := log + [v.ring.Message(m, sent + 1)];
        WrapIsInjective(sent + 1, written);
        lastSent, sent := seqNum, sent + 1;
        if lastSent == lastWritten {
          AddIsExact(written, 1);
          lastWritten, written := Add(lastWritten, 1), written + 1;
        }
        assert View() == v.Sent(m);
      }
      ValidFrom();
    }

    /** One turn of the flush loop: the packet that is handed to the transport, if there is one. */
    method NextPacket() returns (more: bool, packet: Packet)
      requires Valid()
      modifies this
      ensures Valid() && acked == old(acked) && sendLost == old(sendLost) && old(written) <= written
      ensures sent == old(sent) + (if more then 1 else 0) <= acked + base.history && |log| == sent + 1
      ensures more ==> old(log) <= log && packet == Packet(Wrap(sent), log[sent])
      ensures !more ==> log == old(log) && !View().Sendable(base.buffer[..])
    {
      hide OutputReliableStream.Valid, Sender.Window, Sender.Sendable, Ring.Configured, ReliableStream.Valid, Wrap;
      hide LenAt, AreaAt, IsPowerOfTwo, Ring.Message;
      ValidMeans();
      var buffer: nat, length: nat, seqNum: uint16;
      more, buffer, length, seqNum := PrepareNextToSend();
      ValidMeans();
      packet := Packet(seqNum, []);
      if more {
        packet := Packet(seqNum, base.buffer[buffer..buffer + length]);
      }
    }

    /** The reliable part of uxr_flash_output_streams (srcs/session/session.c): sends every
        message in order, once each, until none is left or the window is full. */
    method FlashOutput() returns (packets: seq<Packet>)
      requires Valid()
      modifies this
      ensures Valid() && !View().Sendable(base.buffer[..])
      ensures acked == old(acked) && sendLost == old(sendLost) && old(log) <= log && old(sent) <= sent
      ensures old(written) <= written
      ensures sent == acked + base.history || (sent + 1 == written && View().ring.Len(base.buffer[..], written) == offset)
      ensures |log| == sent + 1 && packets == LogPackets(log, old(sent) + 1, sent + 1)
    {
      hide OutputReliableStream.Valid, Sender.Window, Sender.Sendable, Ring.Configured, ReliableStream.Valid, Wrap;
      hide LogPackets, LenAt, AreaAt, IsPowerOfTwo, Ring.Message, Sender.Counters;
      CountersMean();
      packets := [];
      LogPacketsEmpty(log, sent + 1);
      var more := true;
      while more
        invariant Valid() && |log| == sent + 1 && acked == old(acked) && sendLost == old(sendLost)
        invariant old(log) <= log && old(sent) <= sent && old(written) <= written
        invariant packets == LogPackets(log, old(sent) + 1, sent + 1)
        invariant !more ==> !View().Sendable(base.buffer[..])
        decreases acked + base.history - sent, more
      {
        ghost var before := log;
        var packet;
        more, packet := NextPacket();
        if more {
          packets := packets + [packet];
          LogPacketsGrow(before, log, old(sent) + 1);
        }
      }
      ValidMeans();
      FlushStops(View(), base.buffer[..]);
    }

    lemma CountersMean()
      requires Valid()
      ensures -1 <= sent && |log| == sent + 1 && base.history > 0
    {
      hide Sender.Window, Ring.Configured, ReliableStream.Valid;
      ValidMeans();
    }

    /** uxr_next_reliable_nack_buffer_to_send.  `at` is the unbounded iterator: every sent and
        unacknowledged message comes up in turn, with the bytes it was first sent with. */
    method NextNackToSend(seqNumIt: uint16, ghost at: int)
        returns (updated: bool, buffer: nat, length: nat, next: uint16)
      requires Valid() && acked <= at <= sent && seqNumIt == Wrap(at)
      modifies this`sendLost
      ensures Valid() && updated == (old(sendLost) && at < sent)
      ensures updated ==> sendLost && next == Wrap(at + 1)
      ensures updated ==> buffer + length <= base.buffer.Length && base.buffer[buffer..buffer + length] == log[at + 1]
      ensures !updated ==> !sendLost
    {
      hide OutputReliableStream.Valid, Sender.Window, Sender.Sendable, Ring.Configured, ReliableStream.Valid;
      hide Cmp, Add, LenAt, AreaAt, Wrap;
      ValidMeans();
      updated, buffer, length, next := false, 0, 0, seqNumIt;
      if sendLost {
        var checkNext := true;
        ghost var k := at;
        while checkNext && !updated
          invariant next == Wrap(k) && at <= k <= sent + 1 && sendLost
          invariant checkNext ==> k == if updated then at + 1 else at
          invariant !checkNext ==> !updated && at == sent
          invariant updated ==> at < sent && buffer + length <= base.buffer.Length && base.buffer[buffer..buffer + length] == log[at + 1]
          decreases checkNext, !updated
        {
          AddIsExact(k, 1);
          next, k := Add(next, 1), k + 1;
          CmpIsExact(k, sent);
          checkNext := 0 >= Cmp(next, lastSent);
          if checkNext {
            WrapKeepsSlot(base.history, k);
            SentSlot(View(), base, k);
            buffer := base.GetBuffer(next);
            length := base.GetSize(next);
            updated := length != offset;
          }
        }
        if !updated {
          sendLost := false;
        }
      }
      ValidFrom();
    }

    /** The resend loop of read_submessage_acknack (srcs/session/session.c). */
    method ResendLost() returns (packets: seq<Packet>)
      requires Valid()
      modifies this`sendLost
      ensures Valid() && !sendLost && |log| == sent + 1 && acked <= sent
      ensures packets == if old(sendLost) then LogPackets(log, acked + 1, sent + 1) else []
    {
      hide OutputReliableStream.Valid, Sender.Window, Sender.Sendable, Ring.Configured, ReliableStream.Valid;
      hide Wrap, LogPackets;
      ValidMeans();
      packets := [];
      var it := lastAcknown; // uxr_begin_output_nack_buffer_it
      ghost var at := acked;
      LogPacketsEmpty(log, acked + 1);
      var more: bool, buffer: nat, length: nat, next: uint16 := NextNackToSend(it, at);
      while more
        invariant Valid() && acked <= at <= sent && it == Wrap(at) && |log| == sent + 1
        invariant packets == LogPackets(log, acked + 1, at + 1)
        invariant more == (old(sendLost) && at < sent)
        invariant more ==> sendLost && next == Wrap(at + 1)
        invariant more ==> buffer + length <= base.buffer.Length && base.buffer[buffer..buffer + length] == log[at + 1]
        invariant !more ==> !sendLost
        invariant !old(sendLost) ==> at == acked
        decreases sent - at, more
      {
        packets := packets + [Packet(next, base.buffer[buffer..buffer + length])];
        LogPacketsNext(log, acked + 1, at + 1);
        it, at := next, at + 1;
        more, buffer, length, next := NextNackToSend(it, at);
      }
    }

    /** uxr_process_acknack.  The acknowledgement stands for the unbounded number nearest to the
        last one.  If that lies between the last acknowledged and the last sent message, just the
        slots up to it are emptied.  Nothing checks that it does: any other number makes the loop
        go over slots that were not sent, and empties these too. */
    method ProcessAcknack(bitmap: uint16, firstUnacked: uint16)
      requires Valid()
      modifies this, base.buffer
      ensures base.history > 0 && sendLost == (bitmap > 0) && nextHeartbeatTries == 0
      ensures AckInRange(old(View()), firstUnacked) ==>
        && Valid() && View() == old(View()).(acked := Unwrap(old(acked), firstUnacked) - 1)
        && OnlyFreed(old(View()), acked, old(base.buffer[..]), base.buffer[..])
      ensures acked == old(acked) + Sub(Sub(firstUnacked, 1), old(lastAcknown)) && lastAcknown == Sub(firstUnacked, 1)
      ensures View() == old(View()).(acked := acked) && AllFreed(old(View()), acked, base.buffer[..])
      ensures SameAreas(View().ring, old(base.buffer[..]), base.buffer[..])
    {
      hide OutputReliableStream.Valid, Sender.Window, Sender.Sendable, Ring.Configured, ReliableStream.Valid;
      hide Add, Sub, LenAt, AreaAt, Wrap, Unwrap, OnlyFreed, OnlyLengthSet, AllFreed, AckInRange, SameAreas;
      ValidMeans();
      ghost var v, m, good := View(), base.buffer[..], AckInRange(View(), firstUnacked);
      AckFreesWhatItNames(v, firstUnacked);
      var lastAcked := Sub(firstUnacked, 1);
      var buffersToClean := Sub(lastAcked, lastAcknown);
      NothingFreed(v, m);
      ConfiguredDivides(v);
      var i := 0;
      while i < buffersToClean
        invariant 0 <= i <= buffersToClean && lastAcknown == Wrap(acked) && acked == v.acked + i
        invariant good ==> Valid() && OnlyFreed(v, acked, m, base.buffer[..])
        invariant View() == v.(acked := acked) && lastSent == old(lastSent) && lastWritten == old(lastWritten)
        invariant SameAreas(v.ring, m, base.buffer[..]) && AllFreed(v, acked, base.buffer[..])
      {
        FreeOldest(v, m, good);
        i := i + 1;
      }
      AddDistance(v.acked, lastAcked);
      if good {
        ValidMeans();
      }
      sendLost := 0 < bitmap;
      nextHeartbeatTries := 0;
      if good {
        ValidFrom();
      }
    }

    /** One turn of the loop of uxr_process_acknack. */
    method FreeOldest(ghost v: Sender, ghost m: seq<byte>, ghost good: bool)
      requires base.Valid() && View() == v.(acked := acked) && v.acked <= acked && lastAcknown == Wrap(acked)
      requires offset < 0x1_0000 && (good ==> Valid() && acked < sent && OnlyFreed(v, acked, m, base.buffer[..]))
      requires SameAreas(v.ring, m, base.buffer[..]) && AllFreed(v, acked, base.buffer[..])
      modifies this`lastAcknown, this`acked, base.buffer
      ensures acked == old(acked) + 1 && lastAcknown == Wrap(acked)
      ensures good ==> Valid() && OnlyFreed(v, acked, m, base.buffer[..])
      ensures SameAreas(v.ring, m, base.buffer[..]) && AllFreed(v, acked, base.buffer[..])
    {
      hide OutputReliableStream.Valid, Sender.Window, Ring.Configured;
      hide Add, LenAt, AreaAt, Wrap, OnlyFreed, OnlyLengthSet, AllFreed, SameAreas;
      if good {
        ValidMeans();
      }
      ghost var n := base.buffer[..];
      AddIsExact(acked, 1);
      WrapKeepsSlot(base.history, acked + 1);
      lastAcknown := Add(lastAcknown, 1);
      base.SetSize(lastAcknown, offset);
      SetInWindow(v.ring, n, base.buffer[..], acked + 1, offset);
      AreasStaySame(v.ring, m, n, base.buffer[..]);
      FreeOneMore(v, acked, n, base.buffer[..]);
      if good {
        AckKeepsWindow(v.(acked := acked), n, base.buffer[..]);
        FreeNext(v, acked, m, n, base.buffer[..]);
      }
      acked := acked + 1;
      if good {
        ValidFrom();
      }
    }

    /** get_available_free_slots */
    method GetAvailableFreeSlots() returns (freeSlots: nat)
      requires Valid()
      ensures freeSlots == FreeSlots(View(), base.buffer[..])
    {
      hide OutputReliableStream.Valid, Sender.Window, Ring.Configured, LenAt, FreeSlots;
      ValidMeans();
      freeSlots := 0;
      var i := 0;
      while i < base.history
        invariant 0 <= i <= base.history
        invariant freeSlots == CountEmpty(View().ring, base.buffer[..], 0, i)
      {
        RemainderIsUnique(i, 0, i, base.history);
        var size := base.GetSize(i);
        if size == offset {
          freeSlots := freeSlots + 1;
        }
        i := i + 1;
      }
      CountIsFreeSlots(View(), base.buffer[..]);
    }

    /** on_full_output_buffer: from anywhere in slot k to the payload area of slot k + 1.  It never
        fails; a slot that is too short for a subheader makes the size, cut to 32 bits, wrap. */
    method OnFullOutput(init: nat, ghost k: int) returns (area: Area)
      requires base.Valid() && View().ring.Configured()
      requires Start(View().ring, k) <= init < Start(View().ring, k) + View().ring.Capacity()
      ensures var r, size := View().ring, View().ring.Len(base.buffer[..], k + 1) - offset - SUBHEADER_SIZE;
        && area.from == Start(r, k + 1) + offset + SUBHEADER_SIZE
        && (size >= 0 ==> area == FragmentArea(r, k + 1, size))
        && (size < 0 ==> area.to == area.from + size + 0x1_0000_0000)
    {
      ghost var v := View();
      HistoryPositionInverse(base, Slot(v.ring.history, k), init);
      var historyPosition := 1 + base.GetHistoryPosition(init);
      SlotSuccessor(v.ring.history, k);
      RemainderIsUnique(historyPosition, if historyPosition == base.history then 1 else 0, Slot(v.ring.history, k + 1), base.history);
      SlotBaseIsProduct(v.ring.slotSize, Slot(v.ring.history, k + 1));
      hide IsPowerOfTwo, LenAt;
      var buffer := base.GetBuffer(historyPosition);
      var size := base.GetSize(historyPosition);
      var from := buffer + offset + SUBHEADER_SIZE;
      area := Area(from, from + SizeBehind(size, offset + SUBHEADER_SIZE));
    }

    /** What on_full_output_buffer will hand out to the writer of a fragmented message. */
    method CollectAnswers(init: nat, blocks: nat, ghost first: int, ghost last: nat) returns (answers: seq<Area>)
      requires base.Valid() && View().ring.Configured() && blocks >= 1 && 0 < last <= Block(View().ring)
      requires Start(View().ring, first) <= init < Start(View().ring, first) + View().ring.Capacity()
      requires forall k | first < k < first + blocks :: View().ring.Len(base.buffer[..], k) == View().ring.Capacity()
      requires View().ring.Len(base.buffer[..], first + blocks) == offset + SUBHEADER_SIZE + last
      ensures answers == MoreAreas(View().ring, first + 1, blocks, last)
    {
      hide IsPowerOfTwo, LenAt, ReliableStream.Valid, FragmentArea;
      ghost var v := View();
      answers := [];
      var at := init;
      var i := 0;
      while i < blocks
        invariant 0 <= i == |answers| <= blocks
        invariant Start(v.ring, first + i) <= at < Start(v.ring, first + i) + v.ring.Capacity()
        invariant forall j | 0 <= j < i :: answers[j] == AnswerAt(v.ring, first + 1, blocks, last, j)
      {
        var area := OnFullOutput(at, first + i);
        FragmentAreaInSlot(v.ring, first + 1 + i, if i + 1 == blocks then last else Block(v.ring));
        answers := answers + [area];
        at := area.from;
        i := i + 1;
      }
      AnswersAreMoreAreas(v.ring, first + 1, blocks, last, answers);
    }

    /** The message fits in one slot: the first two branches of the preparation. */
    method GrantInSlot(seqNum: uint16, at: nat, length: nat, ub: UcdrBuffer, ghost k: int)
      requires base.Valid() && View().ring.Configured() && seqNum == Wrap(k) && acked < k <= acked + base.history
      requires at + length <= View().ring.Capacity()
      modifies base.buffer, ub
      ensures GrantMade(View(), old(base.buffer[..]), base.buffer[..], length, InSlot(k, at))
      ensures ub.St().Valid() && !ub.error && ub.mem == base.buffer && ub.pos == 0 && ub.chain == []
      ensures ub.path == GrantPath(View(), length, InSlot(k, at))
    {
      hide IsPowerOfTwo, LenAt, AreaAt, OnlyLengthSet, GrantMade, State.Valid;
      ghost var v, m := View(), base.buffer[..];
      ConfiguredDivides(v);
      WrapKeepsSlot(base.history, k);
      SlotBaseIsProduct(v.ring.slotSize, Slot(v.ring.history, k));
      SlotsAreDisjoint(v.ring.slotSize, Slot(v.ring.history, k), v.ring.history);
      var buffer := base.GetBuffer(seqNum);
      base.SetSize(seqNum, at + length);
      GrantInSlotMade(v, m, base.buffer[..], length, k, at);
      ub.InitBuffer(base.buffer, buffer, at + length, 0, at);
    }

    /** The message is cut into fragments: the third branch, once the counts are known. */
    method GrantFragments(seqNum: uint16, at: nat, blocks: nat, last: nat, ghost length: nat, ub: UcdrBuffer,
        ghost first: int)
        returns (lastSeqNum: uint16)
      requires base.Valid() && View().ring.Configured() && View().Counters() && seqNum == Wrap(first)
      requires GrantFits(View(), base.buffer[..], length, InFragments(first, at, blocks, last))
      modifies base.buffer, ub
      ensures var g := InFragments(first, at, blocks, last);
        && GrantMade(View(), old(base.buffer[..]), base.buffer[..], length, g)
        && ub.path == GrantPath(View(), length, g)
        && ub.minArea == Block(View().ring)
      ensures ub.St().Valid() && !ub.error && ub.mem == base.buffer && ub.pos == 0
      ensures lastSeqNum == Wrap(first + blocks)
    {
      hide IsPowerOfTwo, LenAt, AreaAt, OnlyLengthSet, GrantMade, State.Valid, NoDuplicates, AreasFit;
      hide FragmentsMade, Wrap, Add, GrantPath;
      ghost var v, m := View(), base.buffer[..];
      ghost var g := InFragments(first, at, blocks, last);
      ConfiguredDivides(v);
      var capacity := base.GetCapacity();
      FragmentsStart(v, m, first);
      lastSeqNum := seqNum;
      var i := 0;
      while i < blocks
        invariant 0 <= i <= blocks && lastSeqNum == Wrap(first + i)
        invariant FragmentsMade(v, m, base.buffer[..], first, i)
      {
        ghost var n := base.buffer[..];
        WrapKeepsSlot(base.history, first + i);
        // the FRAGMENT subheader is stubbed out: uxr_buffer_submessage_header writes nothing
        base.SetSize(lastSeqNum, capacity);
        FragmentsStep(v, m, n, base.buffer[..], first, i);
        AddIsExact(first + i, 1);
        lastSeqNum := Add(lastSeqNum, 1);
        i := i + 1;
      }
      ghost var n := base.buffer[..];
      WrapKeepsSlot(base.history, first + blocks);
      base.SetSize(lastSeqNum, offset + SUBHEADER_SIZE + last);
      FragmentsEnd(v, m, n, base.buffer[..], length, g);
      PrepareUserBuffer(seqNum, at, blocks, ub, m, length, g);
    }

    /** ucdr_init_buffer and the on-full callback for the writer of the fragments */
    method PrepareUserBuffer(seqNum: uint16, at: nat, blocks: nat, ub: UcdrBuffer, ghost m: seq<byte>,
        ghost length: nat, ghost g: Grant)
      requires base.Valid() && View().ring.Configured() && View().Counters() && g.InFragments?
      requires seqNum == Wrap(g.first) && at == g.at && blocks == g.blocks
      requires GrantFits(View(), m, length, g) && GrantMade(View(), m, base.buffer[..], length, g)
      modifies ub
      ensures ub.St().Valid() && !ub.error && ub.mem == base.buffer && ub.pos == 0
      ensures ub.path == GrantPath(View(), length, g) && ub.minArea == Block(View().ring)
    {
      hide IsPowerOfTwo, LenAt, AreaAt, NoDuplicates, AreasFit, State.Valid, OnSlots, GrantMade, Ahead, MoreAreas;
      hide ReliableStream.GetBuffer, ReliableStream.Valid, Start, Wrap;
      ghost var v := View();
      GrantPathIsGood(v, m, length, g);
      GrantedLengths(v, m, base.buffer[..], length, g);
      BufferIsStart(v, base, g.first);
      MoreAreasFit(v.ring, g.first + 1, g.blocks, g.last, base.buffer.Length);
      var start := base.GetBuffer(seqNum) + at + SUBHEADER_SIZE;
      var answers := CollectAnswers(start, blocks, g.first, g.last);
      ub.InitBuffer(base.buffer, start, base.GetCapacity() - at - SUBHEADER_SIZE, 0, 0);
      ub.SetOnFullBuffer(answers, Block(v.ring));
    }

    /** uxr_prepare_reliable_buffer_to_write: grants exactly what `GrantFor` says, sets the
        lengths of the granted slots and hands the writer a buffer over just those bytes. */
    method PrepareToWrite(length: nat, ub: UcdrBuffer) returns (available: bool)
      requires Valid() && length > 0
      modifies this`lastWritten, this`written, base.buffer, ub
      ensures Valid() && old(View()).ring.Configured()
      ensures var v, m := old(View()), old(base.buffer[..]); var g := GrantFor(v, m, length);
        && available == !g.Refused?
        && View() == (if available then v.(written := g.Last()) else v)
        && (if available then GrantMade(v, m, base.buffer[..], length, g) else base.buffer[..] == m)
        && (available ==> GrantFits(v, m, length, g) && ub.path == GrantPath(v, length, g))
      ensures available ==> ub.St().Valid() && !ub.error && ub.mem == base.buffer && ub.pos == 0
      ensures var r, m, open := old(View()).ring, old(base.buffer[..]), old(written);
        available <==>
          || length <= (r.Capacity() - offset - SUBHEADER_SIZE) * CountEmpty(r, m, 0, r.history)
          || (CountEmpty(r, m, 0, r.history) > 0 && offset + length <= r.Capacity())
          || (open <= acked + r.history && (r.Len(m, open) + 3) / 4 * 4 + length <= r.Capacity())
    {
      hide OutputReliableStream.Valid, Sender.Window, IsPowerOfTwo, LenAt, AreaAt, ReliableStream.Valid;
      hide GrantMade, State.Valid, Cmp, Add, Wrap, Padding, FreeSlots, BlocksFor, LastFor, CountEmpty;
      ValidMeans();
      AcceptedExactly(View(), base.buffer[..], length);
      ghost var v, m := View(), base.buffer[..];
      ghost var g := GrantFor(v, m, length);
      GrantStaysInWindow(v, m, length);
      ConfiguredDivides(v);
      WrapKeepsSlot(base.history, written);
      var capacity := base.GetCapacity();
      var block := capacity - (offset + SUBHEADER_SIZE);
      var openSize: nat := base.GetSize(lastWritten);
      var remaining := GetAvailableFreeSlots();
      openSize := openSize + Padding(openSize, 4);
      available := false;
      if openSize + length <= capacity {
        available := InWindow(lastWritten, written);
        if available {
          GrantInSlot(lastWritten, openSize, length, ub, written);
        }
      } else if offset + length <= capacity {
        AddIsExact(written, 1);
        var seqNum := Add(lastWritten, 1);
        available := InWindow(seqNum, written + 1);
        if available {
          GrantInSlot(seqNum, offset, length, ub, written + 1);
          lastWritten := seqNum;
        }
      } else if length <= block * remaining {
        available := TryFragments(openSize, length, remaining, ub);
      }
      if available {
        GrantKeepsWindow(v, m, base.buffer[..], length, g);
        written := g.Last();
      }
      ValidFrom();
    }

    /** The space check of the first two branches. */
    method InWindow(seqNum: uint16, ghost k: int) returns (inside: bool)
      requires Valid() && seqNum == Wrap(k) && written <= k <= written + 1
      ensures inside == (k <= acked + base.history)
    {
      ValidMeans();
      AddIsExact(acked, base.history);
      CmpIsExact(k, acked + base.history);
      hide OutputReliableStream.Valid, Wrap, Cmp, Add, IsPowerOfTwo;
      var lastAvailable := Add(lastAcknown, base.history);
      inside := 0 >= Cmp(seqNum, lastAvailable);
    }

    /** The third branch of the preparation; its own test never refuses. */
    method TryFragments(openSize: nat, length: nat, remaining: nat, ub: UcdrBuffer) returns (available: bool)
      requires Valid() && View().ring.Configured() && length > 0
      requires openSize == OpenSize(View(), base.buffer[..]) && remaining == FreeSlots(View(), base.buffer[..])
      requires GrantFor(View(), base.buffer[..], length).InFragments?
      modifies this`lastWritten, base.buffer, ub
      ensures available && base.Valid()
      ensures var v, m := old(View()), old(base.buffer[..]); var g := GrantFor(v, m, length);
        && View() == v && lastWritten == Wrap(g.Last())
        && GrantMade(v, m, base.buffer[..], length, g)
        && GrantFits(v, m, length, g) && ub.path == GrantPath(v, length, g)
      ensures ub.St().Valid() && !ub.error && ub.mem == base.buffer && ub.pos == 0
    {
      hide OutputReliableStream.Valid, Sender.Window, IsPowerOfTwo, LenAt, AreaAt, ReliableStream.Valid;
      hide GrantMade, State.Valid, Cmp, Add, Wrap, FreeSlots, OpenSize;
      ghost var v, m := View(), base.buffer[..];
      ValidMeans();
      ConfiguredDivides(v);
      ghost var g := GrantFor(v, m, length);
      GrantStaysInWindow(v, m, length);
      var capacity := base.GetCapacity();
      var block := capacity - (offset + SUBHEADER_SIZE);
      var seqNum, at := lastWritten, openSize;
      if openSize + SUBHEADER_SIZE >= capacity {
        AddIsExact(written, 1);
        seqNum := Add(seqNum, 1);
        WrapKeepsSlot(base.history, written + 1);
        WindowAt(v, m, written + 1);
        at := base.GetSize(seqNum);
      }
      var rest := length - (capacity - (at + SUBHEADER_SIZE));
      var last, blocks := 0, 0;
      if rest % block == 0 {
        last := block;
        blocks := rest / block;
      } else {
        last := rest % block;
        blocks := rest / block + 1;
      }
      available := blocks <= remaining;
      if available {
        lastWritten := GrantFragments(seqNum, at, blocks, last, length, ub, g.first);
      }
    }

    /** Preparing and then writing the whole message, as the writers of the session layer do (see
        `MessageWritten`).  Nothing that was sent changes before it is acknowledged. */
    method WriteMessage(message: seq<byte>) returns (accepted: bool)
      requires Valid() && message != []
      modifies this`lastWritten, this`written, base.buffer
      ensures Valid() && old(View()).ring.Configured()
      ensures var v, m := old(View()), old(base.buffer[..]); var g := GrantFor(v, m, |message|);
        && accepted == !g.Refused?
        && View() == (if accepted then v.(written := g.Last()) else v)
        && (if accepted then MessageWritten(v, m, base.buffer[..], message) else base.buffer[..] == m)
      ensures var r, m, open := old(View()).ring, old(base.buffer[..]), old(written);
        accepted <==>
          || |message| <= (r.Capacity() - offset - SUBHEADER_SIZE) * CountEmpty(r, m, 0, r.history)
          || (CountEmpty(r, m, 0, r.history) > 0 && offset + |message| <= r.Capacity())
          || (open <= acked + r.history && (r.Len(m, open) + 3) / 4 * 4 + |message| <= r.Capacity())
    {
      hide OutputReliableStream.Valid, Sender.Window, IsPowerOfTwo, LenAt, AreaAt, ReliableStream.Valid, SameExcept;
      hide GrantMade, LengthsGranted, OthersKept, State.Valid, FreeSlots, GrantFor, AppendOnly, Wrote, GrantPath;
      hide OnSlots, NoDuplicates, CountEmpty;
      ValidMeans();
      ghost var v, m := View(), base.buffer[..];
      var ub := new UcdrBuffer(base.buffer, 0, 0, 0, 0, MACHINE);
      accepted := PrepareToWrite(|message|, ub);
      if accepted {
        ghost var n, s := base.buffer[..], ub.St();
        ghost var g := GrantFor(v, m, |message|);
        GrantPathIsGood(v, m, |message|, g);
        ValidMeans();
        ValidGives(s);
        ub.ArrayToBuffer(message, 1);
        WholePathWritten(s, ub.St(), n, base.buffer[..], message);
        WritingKeepsWindow(v, written, n, base.buffer[..], s.path, g.First(), g.Last() + 1);
        PayloadIsMessage(v, base.buffer[..], m, |message|, g, message);
        WritingAppends(v, m, n, base.buffer[..], |message|, g);
        WritingKeepsOthers(v, m, n, base.buffer[..], |message|, g);
        ValidFrom();
      }
    }
  }

  lemma NothingFreed(v: Sender, m: seq<byte>)
    requires v.ring.history > 0
    ensures OnlyFreed(v, v.acked, m, m) && AllFreed(v, v.acked, m) && SameAreas(v.ring, m, m)
  {}

  lemma WholePathWritten(s: State, t: State, m: seq<byte>, n: seq<byte>, message: seq<byte>)
    requires Wrote(s, t, m, n, 0, message) && !s.error && s.pos == 0 && |s.path| == |message|
    ensures Holds(n, s.path, 0, message) && SameExcept(m, n, s.path, 0, |s.path|)
  {}

  lemma BufferIsStart(v: Sender, base: ReliableStream, k: int)
    requires base.Valid() && v.ring.history == base.history && v.ring.slotSize == base.SlotSize()
    ensures base.GetBuffer(Wrap(k)) == Start(v.ring, k) && Start(v.ring, k) + v.ring.Capacity() <= base.buffer.Length
    ensures SlotBase(v.ring.slotSize, v.ring.history) <= base.buffer.Length
  {
    WrapKeepsSlot(base.history, k);
    SlotBaseIsProduct(v.ring.slotSize, Slot(v.ring.history, k));
    SlotsAreDisjoint(v.ring.slotSize, Slot(v.ring.history, k), v.ring.history);
  }

  lemma ConfiguredDivides(v: Sender)
    requires v.ring.Configured()
    ensures IsPowerOfTwo(v.ring.history) && v.ring.history <= SEQ_NUM_SIZE
  {}

  /** A slot that is sent and not acknowledged holds what was sent, and something. */
  lemma SentSlot(v: Sender, base: ReliableStream, k: int)
    requires base.Valid() && v.ring.history == base.history && v.ring.slotSize == base.SlotSize()
    requires v.Window(base.buffer[..]) && v.acked < k <= v.sent
    ensures v.ring.Len(base.buffer[..], k) > v.ring.offset && |v.log| == v.sent + 1 && 0 <= k
    ensures var p, n := base.GetBuffer(Wrap(k)), v.ring.Len(base.buffer[..], k);
      p + n <= base.buffer.Length && v.log[k] == base.buffer[p..p + n]
  {
    WindowAt(v, base.buffer[..], k);
    SlotIsAtBuffer(v, base, k);
  }

  lemma FlushStops(v: Sender, m: seq<byte>)
    requires v.Window(m) && !v.Sendable(m)
    ensures v.sent == v.acked + v.ring.history || (v.sent + 1 == v.written && v.ring.Len(m, v.written) == v.ring.offset)
  {
    if v.sent < v.acked + v.ring.history {
      WindowAt(v, m, v.sent + 1);
    }
  }

  /** The slot's bytes start where GetBuffer points. */
  lemma SlotIsAtBuffer(v: Sender, base: ReliableStream, k: int)
    requires base.Valid() && v.ring.history == base.history && v.ring.slotSize == base.SlotSize()
    requires v.ring.Len(base.buffer[..], k) <= v.ring.Capacity()
    ensures var p, n := base.GetBuffer(Wrap(k)), v.ring.Len(base.buffer[..], k);
      p + n <= base.buffer.Length && v.ring.Message(base.buffer[..], k) == base.buffer[p..p + n]
  {
    WrapKeepsSlot(base.history, k);
    SlotBaseIsProduct(v.ring.slotSize, Slot(v.ring.history, k));
    SlotsAreDisjoint(v.ring.slotSize, Slot(v.ring.history, k), v.ring.history);
  }
}

/** The variable-length ring queue of the transports (lqueue.c), with 16-bit lengths. */
module LQueue {
  import opened Memory
  import ReliableRing
  import opened SeqNum
  import opened LQueueFormat
  import opened LQueueFifo

  datatype ReadType = PopFront | Front | Back

  class VLQueue {
    var buffer: array<byte>
    var bufferLength: uint16
    var writeIndex: uint16
    var readIndex: uint16
    var msgCnt: uint16

    ghost var messages: seq<Message>

    ghost predicate Valid()
      reads this, buffer
    {
      var holds :=
        && buffer.Length == bufferLength && readIndex < bufferLength
        && |Flat(messages)| < bufferLength
        && writeIndex == At(bufferLength, readIndex, |Flat(messages)|)
        && msgCnt == |messages|
        && RingHolds(buffer[..], readIndex, Flat(messages));
      holds
    }

    lemma ValidMeans()
      requires Valid()
      ensures buffer.Length == bufferLength && readIndex < bufferLength && writeIndex < bufferLength
      ensures |Flat(messages)| < bufferLength && writeIndex == At(bufferLength, readIndex, |Flat(messages)|)
      ensures msgCnt == |messages| && RingHolds(buffer[..], readIndex, Flat(messages))
    {}

    lemma ValidFrom()
      requires buffer.Length == bufferLength && readIndex < bufferLength && |Flat(messages)| < bufferLength
      requires writeIndex == At(bufferLength, readIndex, |Flat(messages)|) && msgCnt == |messages|
      requires RingHolds(buffer[..], readIndex, Flat(messages))
      ensures Valid()
    {}

    /** A context block before lqueue_init: it has no memory yet. */
    constructor ()
      ensures fresh(buffer) && messages == []
    {
      buffer, bufferLength := new byte[0], 0;
      writeIndex, readIndex, msgCnt, messages := 0, 0, 0, [];
    }

    /** lqueue_init: an empty queue over all of the memory, unless its length is out of range. */
    method Init(memory: array<byte>) returns (ret: int)
      modifies this, memory
      ensures ret == if 0 < memory.Length < 0x1_0000 then 0 else -1
      ensures ret == 0 ==> Valid() && buffer == memory && messages == [] && readIndex == 0
      ensures ret != 0 ==> unchanged(this) && unchanged(memory)
    {
      if memory.Length >= 0x1_0000 || memory.Length == 0 {
        ret := ERR_PARAM;
      } else {
        forall i | 0 <= i < memory.Length {
          memory[i] := 0;
        }
        bufferLength, writeIndex, readIndex, msgCnt, messages := memory.Length, 0, 0, 0, [];
        buffer := memory;
        ret := OK;
      }
    }

    /** lqueue_empty */
    method Clear() returns (ret: int)
      requires Valid()
      modifies this`writeIndex, this`readIndex, this`msgCnt, this`messages
      ensures Valid() && Answers(Empty, old(messages), bufferLength, messages, ret, []) && messages == [] && ret == 0
    {
      writeIndex, readIndex, msgCnt, messages := 0, 0, 0, [];
      ret := OK;
    }

    /** lqueue_size */
    method Size() returns (ret: int)
      requires Valid()
      ensures Answers(Op.Size, messages, bufferLength, messages, ret, []) && ret == |messages|
    {
      ret := msgCnt;
    }

    /** calcFreeSpace */
    method CalcFreeSpace() returns (freeSpace: nat)
      requires Valid()
      ensures freeSpace + |Flat(messages)| == bufferLength - 1
    {
      freeSpace := if readIndex > writeIndex then readIndex - writeIndex - 1 else bufferLength - writeIndex + readIndex - 1;
    }

    /** lqueue_bfree: ring space is conserved, and an empty ring is known by its indices. */
    method Bfree() returns (ret: int)
      requires Valid()
      ensures ret + Taken(messages) == bufferLength - 1
      ensures writeIndex == readIndex <==> messages == []
      ensures 2 * msgCnt <= bufferLength - 1
    {
      ret := CalcFreeSpace();
      TwoBytesEach(messages);
      FlatIsTaken(messages);
    }

    /** lqueue_btotal: what an empty queue of this length has room for. */
    method Btotal() returns (ret: int)
      requires Valid()
      ensures ret == bufferLength - 1
      ensures forall message: Message ::
        |Encoded(message)| <= ret <==> Answers(Op.Push(message), [], bufferLength, [message], OK, [])
      ensures 0 <= ret - |Flat(messages)| && (messages == [] <==> |Flat(messages)| == 0)
    {
      ret := bufferLength - 1;
      TwoBytesEach(messages);
      NoMessagesNoBytes();
    }

    /** The copying loops of lqueue_push: s goes right behind what the ring spells already. */
    method PutBytes(at: uint16, s: seq<byte>, ghost start: nat, ghost before: seq<byte>) returns (next: uint16)
      requires buffer.Length == bufferLength && |before| + |s| < bufferLength
      requires start < bufferLength && RingHolds(buffer[..], start, before) && at == At(bufferLength, start, |before|)
      modifies buffer
      ensures RingHolds(buffer[..], start, before + s) && next == At(bufferLength, start, |before| + |s|)
    {
      next := at;
      var i := 0;
      while i < |s|
        invariant 0 <= i <= |s| && next == At(bufferLength, start, |before| + i)
        invariant RingHolds(buffer[..], start, before + s[..i])
      {
        ghost var m := buffer[..];
        buffer[next] := s[i];
        RingGrows(m, buffer[..], start, before + s[..i], s[i]);
        assert before + s[..i] + [s[i]] == before + s[..i + 1];
        var index := next + 1;
        if index >= bufferLength {
          index := 0;
        }
        next := index;
        i := i + 1;
      }
      assert s[..i] == s;
    }

    /** lqueue_push: accepted exactly if the length is legal and header and payload fit. */
    method Push(message: seq<byte>) returns (ret: int)
      requires Valid()
      modifies this`writeIndex, this`msgCnt, this`messages, buffer
      ensures Valid() && Answers(Op.Push(message), old(messages), bufferLength, messages, ret, [])
      ensures messages == if ret == 0 then old(messages) + [message] else old(messages)
      ensures ret ==
        if |message| == 0 then -1
        else if |message| > 65535 then -5
        else if Taken(old(messages)) + (if |message| < 64 then 1 else if |message| < 16384 then 2 else 3) + |message|
          <= bufferLength - 1 then 0
        else -2
    {
      hide VLQueue.Valid, RingHolds, Flat, At, Encoded, Taken;
      ValidMeans();
      FlatIsTaken(messages);
      if |message| == 0 {
        return ERR_PARAM;
      }
      var field;
      ret, field := EncodeLength(|message|);
      if ret < OK {
        return;
      }
      var freeSpace := CalcFreeSpace();
      EncodedSize(message);
      if freeSpace < |message| + ret {
        ret := ERR_QUEUE_FULL;
      } else {
        FlatOfTwo(messages, [message]);
        FlatOfOne(message);
        EncodedIs(messages, message);
        TwoBytesEach(messages + [message]);
        var next := PutBytes(writeIndex, field, readIndex, Flat(messages));
        next := PutBytes(next, message, readIndex, Flat(messages) + field);
        messages := messages + [message];
        writeIndex := next;
        msgCnt := msgCnt + 1;
        ret := OK;
        ValidFrom();
      }
    }

    /** decodeLength: over what push wrote, it gives the length of the message and the index of
        its first byte, wherever in the ring the field lies. */
    method DecodeLength(index: uint16, ghost length: nat) returns (ret: nat, next: uint16)
      requires buffer.Length == bufferLength && index < bufferLength && 0 < length < 0x1_0000
      requires RingHolds(buffer[..], index, Header(length)) && |Header(length)| < bufferLength
      ensures ret == length && next == At(bufferLength, index, |Header(length)|)
    {
      hide RingHolds, Header, Shifted, Without, At;
      ghost var h := Header(length);
      var myIndex: nat := index;
      RingByte(buffer[..], index, h, 0);
      HeaderBytes(length, 0);
      var cmd := buffer[myIndex] / 0x40;
      ret := Shifted(buffer[myIndex] % 0x40, cmd); // no bits overlap below: | is +
      myIndex := myIndex + 1;
      NextAt(bufferLength, index, 0, myIndex);
      while cmd > 0
        invariant 0 <= cmd < |h| && 0 < myIndex <= bufferLength
        invariant ret == Without(length, cmd)
        invariant (if myIndex >= bufferLength then 0 else myIndex) == At(bufferLength, index, |h| - cmd)
        decreases cmd
      {
        if myIndex >= bufferLength {
          myIndex := 0;
        }
        RingByte(buffer[..], index, h, |h| - cmd);
        HeaderBytes(length, |h| - cmd);
        NextAt(bufferLength, index, |h| - cmd, myIndex + 1);
        cmd := cmd - 1;
        ret := ret + Shifted(buffer[myIndex], cmd);
        myIndex := myIndex + 1;
      }
      WithoutNothing(length);
      next := if myIndex >= bufferLength then 0 else myIndex;
    }

    /** The copying loop of readInternal. */
    method GetBytes(at: uint16, count: nat, ghost s: seq<byte>) returns (data: seq<byte>, next: uint16)
      requires buffer.Length == bufferLength && |s| == count < bufferLength
      requires RingHolds(buffer[..], at, s) && at < bufferLength
      ensures data == s && next == At(bufferLength, at, count)
    {
      data, next := [], at;
      var i := count;
      while i > 0
        invariant 0 <= i <= count && data == s[..count - i]
        invariant next == At(bufferLength, at, count - i)
      {
        data := data + [buffer[next]];
        var index := next + 1;
        if index >= bufferLength {
          index := 0;
        }
        next := index;
        i := i - 1;
      }
    }

    /** readInternal, for all three kinds of reading.  Reading the back walks over the earlier
        messages; when one of them ends exactly at the end of the buffer the source does not
        wrap the index, and reads behind the buffer: `fault` says that this happens. */
    method ReadInternal(bufSize: nat, readType: ReadType) returns (ret: int, data: seq<byte>, fault: bool)
      requires Valid()
      modifies this`readIndex, this`msgCnt, this`messages
      ensures Valid()
      ensures fault == (readType.Back? && bufSize > 0 && EndsAtLimit(bufferLength, old(readIndex), messages))
      ensures readType.PopFront? ==> Answers(Op.Pop(bufSize), old(messages), bufferLength, messages, ret, data)
      ensures readType.Front? ==> Answers(Op.Front(bufSize), old(messages), bufferLength, messages, ret, data)
      ensures !readType.PopFront? ==> messages == old(messages) && readIndex == old(readIndex)
      ensures readType.Back? && !fault ==> AnswersBack(messages, bufSize, ret, data)
    {
      hide VLQueue.Valid, RingHolds, Flat, At, Header;
      ValidMeans();
      ret, data, fault := 0, [], false;
      if bufSize == 0 {
        ret := ERR_PARAM;
      } else if msgCnt == 0 {
        ret := ERR_QUEUE_EMPTY;
        NoneEndsAtLimit(bufferLength, readIndex, messages);
      } else {
        ghost var k;
        var index;
        ret, index, fault, k := FindMessage(readType);
        if !fault {
          var message := messages[k];
          RingMessage(buffer[..], readIndex, messages, k);
          if ret > bufSize {
            ret := ERR_READ_BUFFER_SZ;
          } else {
            ghost var p := At(bufferLength, readIndex, |Flat(messages[..k])|);
            AtAdds(bufferLength, p, |Header(|message|)|, |message|);
            AtAdds(bufferLength, readIndex, |Flat(messages[..k])|, |Header(|message|)| + |message|);
            data, index := GetBytes(index, ret, message);
            if readType.PopFront? {
              DropFirst(messages, bufferLength, readIndex, writeIndex);
              readIndex, msgCnt, messages := index, msgCnt - 1, messages[1..];
              ValidFrom();
            }
          }
        }
      }
    }

    /** The walk of readInternal to the message to read: its length and the index of its bytes. */
    method FindMessage(readType: ReadType) returns (ret: nat, index: nat, fault: bool, ghost k: nat)
      requires Valid() && messages != []
      ensures k < |messages| && fault == (readType.Back? && EndsAtLimit(bufferLength, readIndex, messages))
      ensures !fault ==> k == (if readType.Back? then |messages| - 1 else 0) && FoundAt(bufferLength, readIndex, messages, k, ret, index)
    {
      hide VLQueue.Valid, RingHolds, Flat, At, Header, EndsAtLimit;
      ValidMeans();
      var i, found := msgCnt, false;
      ret, index, fault, k := 0, readIndex, false, 0;
      WalkStarts(bufferLength, readIndex, messages);
      while !found && !fault
        invariant 0 <= k < |messages| && i == msgCnt - k
        invariant |Flat(messages[..k])| < bufferLength
        invariant !found && !fault ==> index == RawIndex(bufferLength, readIndex, |Flat(messages[..k])|)
        invariant readType.Back? && !fault ==> NoEndBefore(bufferLength, readIndex, messages, if found then |messages| else k)
        invariant !readType.Back? ==> k == 0 && !fault && (!found ==> index == readIndex)
        invariant fault ==> EndsAtLimit(bufferLength, readIndex, messages)
        invariant found ==> !fault && k == (if readType.Back? then |messages| - 1 else 0)
        invariant found ==> FoundAt(bufferLength, readIndex, messages, k, ret, index)
        decreases i, !found, !fault
      {
        RingMessage(buffer[..], readIndex, messages, k);
        RawIndexIs(bufferLength, readIndex, messages, k, index);
        if index >= bufferLength {
          fault := true;
        } else {
          ret, index := DecodeLength(index, |messages[k]|);
          if readType.Back? && i > 1 {
            WalkOn(bufferLength, readIndex, |Flat(messages[..k])|, |Header(ret)|, ret, index);
            EncodedSize(messages[k]);
            i, k := i - 1, k + 1;
            index := index + ret;
            if index > bufferLength {
              index := index - bufferLength;
            }
          } else {
            found := true;
          }
        }
      }
      if found && readType.Back? {
        NoEndAtAll(bufferLength, readIndex, messages);
      }
    }

    /** lqueue_pop */
    method Pop(bufSize: nat) returns (ret: int, data: seq<byte>)
      requires Valid()
      modifies this`readIndex, this`msgCnt, this`messages
      ensures Valid() && Answers(Op.Pop(bufSize), old(messages), bufferLength, messages, ret, data)
      ensures ret > 0 <==> old(messages) != [] && |old(messages)[0]| <= bufSize
      ensures ret > 0 ==> ret == |data| && old(messages) == [data] + messages
      ensures ret <= 0 ==> messages == old(messages) && ret == if bufSize == 0 then -1 else if messages == [] then -3 else -4
    {
      var fault;
      ret, data, fault := ReadInternal(bufSize, PopFront);
    }

    /** lqueue_front */
    method Front(bufSize: nat) returns (ret: int, data: seq<byte>)
      requires Valid()
      modifies this`readIndex, this`msgCnt, this`messages
      ensures Valid() && readIndex == old(readIndex)
      ensures Answers(Op.Front(bufSize), old(messages), bufferLength, messages, ret, data)
      ensures messages == old(messages)
      ensures if bufSize == 0 then ret == -1 else if messages == [] then ret == -3
        else if |messages[0]| > bufSize then ret == -4 else ret == |messages[0]| && data == messages[0]
    {
      var fault;
      ret, data, fault := ReadInternal(bufSize, ReadType.Front);
    }

    /** lqueue_back: the last message, unless an earlier one ends exactly where the buffer ends. */
    method Back(bufSize: nat) returns (ret: int, data: seq<byte>, fault: bool)
      requires Valid()
      modifies this`readIndex, this`msgCnt, this`messages
      ensures Valid() && messages == old(messages) && readIndex == old(readIndex)
      ensures fault == (bufSize > 0 && EndsAtLimit(bufferLength, readIndex, messages))
      ensures !fault ==> AnswersBack(messages, bufSize, ret, data)
      ensures !fault ==>
        if bufSize == 0 then ret == -1 else if messages == [] then ret == -3
        else if |messages[|messages| - 1]| > bufSize then ret == -4
        else ret == |data| && data == messages[|messages| - 1]
    {
      ret, data, fault := ReadInternal(bufSize, ReadType.Back);
    }

    /** The length of the first message, and the index of its bytes. */
    method DecodeFirst() returns (ret: nat, index: uint16)
      requires Valid() && messages != []
      ensures ret == |messages[0]| && |Header(ret)| + ret < bufferLength
      ensures readIndex < bufferLength && index == At(bufferLength, readIndex, |Header(ret)|)
    {
      hide VLQueue.Valid, RingHolds, Flat, At, Header;
      ValidMeans();
      RingMessage(buffer[..], readIndex, messages, 0);
      WalkStarts(bufferLength, readIndex, messages);
      ret, index := DecodeLength(readIndex, |messages[0]|);
    }

    /** lqueue_fsize */
    method FrontSize() returns (ret: int)
      requires Valid()
      ensures Answers(Op.Fsize, messages, bufferLength, messages, ret, [])
      ensures ret == if messages == [] then -3 else |messages[0]|
    {
      hide VLQueue.Valid, Flat, At, Header;
      ValidMeans();
      ret := ERR_QUEUE_EMPTY;
      if msgCnt != 0 {
        var index;
        ret, index := DecodeFirst();
      }
    }

    /** lqueue_pop_noread */
    method PopNoRead() returns (ret: int)
      requires Valid()
      modifies this`readIndex, this`msgCnt, this`messages
      ensures Valid() && Answers(Op.PopNoRead, old(messages), bufferLength, messages, ret, [])
      ensures if old(messages) == [] then messages == [] && ret == -3 else messages == old(messages)[1..] && ret == 0
    {
      hide VLQueue.Valid, RingHolds, Flat, At, Header;
      ValidMeans();
      ret := OK;
      if msgCnt == 0 {
        ret := ERR_QUEUE_EMPTY;
      } else {
        var count: nat, index: nat := DecodeFirst();
        RingMessage(buffer[..], readIndex, messages, 0);
        DropFirst(messages, bufferLength, readIndex, writeIndex);
        WalkStarts(bufferLength, readIndex, messages);
        EncodedSize(messages[0]);
        WalkOn(bufferLength, readIndex, 0, |Header(count)|, count, index);
        readIndex, msgCnt, messages := (index + count) % bufferLength, msgCnt - 1, messages[1..];
        ValidFrom();
      }
    }

    /** lqueue_check_element_exists: 1 exactly if some queued message is the given one. */
    method CheckElementExists(element: seq<byte>) returns (ret: int)
      requires Valid()
      ensures ret == if messages == [] then -1 else if element in messages then 1 else 0
    {
      hide VLQueue.Valid, RingHolds, Flat, At, Header;
      ValidMeans();
      if msgCnt == 0 {
        return ERR_PARAM;
      }
      ret := 0;
      var index, at := 0, readIndex;
      WalkStarts(bufferLength, readIndex, messages);
      while index < msgCnt && ret == 0
        invariant 0 <= index <= msgCnt && ret in {0, 1}
        invariant |Flat(messages[..index])| < bufferLength
        invariant at == At(bufferLength, readIndex, |Flat(messages[..index])|)
        invariant if ret == 0 then element !in messages[..index] else element in messages
        decreases msgCnt - index, ret == 0
      {
        var same, next := CompareMessage(at, element, index);
        if same {
          ret := 1;
        } else {
          assert messages[..index + 1] == messages[..index] + [messages[index]];
          at, index := next, index + 1;
        }
      }
      assert messages[..|messages|] == messages;
    }

    /** One turn of that search: the comparison with message k, and the index of the next one. */
    method CompareMessage(at: uint16, element: seq<byte>, ghost k: nat) returns (same: bool, next: uint16)
      requires Valid() && k < |messages|
      requires |Flat(messages[..k])| < bufferLength && at == At(bufferLength, readIndex, |Flat(messages[..k])|)
      ensures same == (element == messages[k])
      ensures |Flat(messages[..k + 1])| < bufferLength && next == At(bufferLength, readIndex, |Flat(messages[..k + 1])|)
    {
      hide VLQueue.Valid, RingHolds, Flat, At, Header;
      ValidMeans();
      RingMessage(buffer[..], readIndex, messages, k);
      AtIsInside(bufferLength, readIndex, |Flat(messages[..k])|);
      EncodedSize(messages[k]);
      var length: nat, start: nat := DecodeLength(at, |messages[k]|);
      AtIsInside(bufferLength, At(bufferLength, readIndex, |Flat(messages[..k])|), |Header(length)|);
      same := false;
      if length == |element| {
        same := Matches(start, element, messages[k]);
      }
      WalkOn(bufferLength, readIndex, |Flat(messages[..k])|, |Header(length)|, length, start);
      AtIsInside(bufferLength, readIndex, |Flat(messages[..k + 1])|);
      next := (start + length) % bufferLength;
    }

    /** The comparing loop of lqueue_check_element_exists. */
    method Matches(start: nat, element: seq<byte>, ghost message: Message) returns (same: bool)
      requires buffer.Length == bufferLength && start < bufferLength && |element| == |message| < bufferLength
      requires RingHolds(buffer[..], start, message)
      ensures same == (element == message)
    {
      hide RingHolds, At;
      var left, at := |element|, start;
      while left > 0
        invariant 0 <= left <= |element| && at == start + (|element| - left)
        invariant element[..|element| - left] == message[..|element| - left]
      {
        ghost var i := |element| - left;
        RingByte(buffer[..], start, message, i);
        IndexIsRemainder(bufferLength, start, i);
        if buffer[at % bufferLength] != element[|element| - left] {
          return false;
        }
        assert element[..i + 1] == element[..i] + [element[i]] && message[..i + 1] == message[..i] + [message[i]];
        at, left := at + 1, left - 1;
      }
      assert element[..|element|] == element && message[..|message|] == message;
      same := true;
    }
  }

  /** Some message with another one behind it ends exactly where the buffer ends. */
  ghost predicate EndsAtLimit(n: nat, start: nat, messages: seq<Message>) {
    exists k | 0 < k < |messages| :: start + |Flat(messages[..k])| == n
  }

  ghost predicate NoEndBefore(n: nat, start: nat, messages: seq<Message>, last: nat) {
    forall k | 0 < k < last && k < |messages| :: start + |Flat(messages[..k])| != n
  }

  ghost predicate AnswersBack(queue: seq<Message>, bufSize: nat, ret: int, data: seq<byte>) {
    if bufSize == 0 then ret == ERR_PARAM
    else if queue == [] then ret == ERR_QUEUE_EMPTY
    else
      var last := queue[|queue| - 1];
      if |last| > bufSize then ret == ERR_READ_BUFFER_SZ else ret == |last| && data == last
  }

  /** Where the walk of readInternal stands f bytes behind the start: at the very end of the
      buffer it does not wrap. */
  ghost function RawIndex(n: nat, start: nat, f: nat): nat
    requires start < n && f <= n
  {
    if f > 0 && start + f == n then n else At(n, start, f)
  }

  /** index is that of the bytes of message k, and ret its length. */
  ghost predicate FoundAt(n: nat, start: nat, messages: seq<Message>, k: nat, ret: int, index: int) {
    && k < |messages| && ret == |messages[k]| && start < n && |Flat(messages[..k])| < n && |Header(ret)| < n
    && At(n, start, |Flat(messages[..k])|) < n
    && index == At(n, At(n, start, |Flat(messages[..k])|), |Header(ret)|)
  }

  /** encodeLength */
  method EncodeLength(length: nat) returns (ret: int, field: seq<byte>)
    ensures ret == if length == 0 || length > 65535 then -5 else if length < 64 then 1 else if length < 16384 then 2 else 3
    ensures 0 < length <= 65535 ==>
      field == Header(length) && |field| == ret && field[0] / 64 == ret - 1 && FieldValue(field) == length
  {
    ret, field := ERR_RANGE, [];
    if 0 < length < 0x1_0000 {
      HeaderInNumbers(length);
    }
    if length > 0 {
      if length < 0x40 {
        ret, field := 1, [length];
      } else if length < 0x4000 {
        ret, field := 2, [0x40 + length / 0x100, length % 0x100];
      } else if length < 0x1_0000 {
        ret, field := 3, [0x80 + length / 0x1_0000, length / 0x100 % 0x100, length % 0x100];
      }
    }
  }

  lemma RingGrows(m: seq<byte>, n: seq<byte>, start: nat, s: seq<byte>, b: byte)
    requires RingHolds(m, start, s) && |s| < |m|
    requires n == m[At(|m|, start, |s|) := b]
    ensures RingHolds(n, start, s + [b])
  {
    forall i | 0 <= i < |s|
      ensures n[At(|n|, start, i)] == s[i]
    {
      if At(|n|, start, i) == At(|n|, start, |s|) {
        AtIsInjective(|n|, start, i, |s|);
      }
    }
  }

  lemma RingByte(m: seq<byte>, start: nat, s: seq<byte>, i: nat)
    requires RingHolds(m, start, s) && i < |s|
    ensures start < |m| && At(|m|, start, i) < |m| && m[At(|m|, start, i)] == s[i]
    ensures At(|m|, start, 0) == start
  {}

  lemma NextAt(n: nat, start: nat, i: nat, index: nat)
    requires start < n && i < n && index == At(n, start, i) + 1
    ensures index <= n && (if index >= n then 0 else index) == At(n, start, i + 1)
  {}

  lemma EncodedSize(message: Message)
    ensures |Encoded(message)| == |Header(|message|)| + |message|
  {}

  lemma EncodedIs(messages: seq<Message>, message: Message)
    ensures Flat(messages) + Encoded(message) == Flat(messages) + Header(|message|) + message
  {}

  lemma NoneEndsAtLimit(n: nat, start: nat, messages: seq<Message>)
    requires messages == []
    ensures !EndsAtLimit(n, start, messages)
  {}

  lemma EndsAtSix()
    ensures var messages: seq<Message> := [[7, 7], [8]];
      |Flat(messages)| == 5 && EndsAtLimit(6, 3, messages)
    ensures |Encoded([7, 7])| == 3 && |Flat([[7, 7]])| == 3 && |Encoded([8])| == 2
  {
    var messages: seq<Message> := [[7, 7], [8]];
    assert messages[..1] == [[7, 7]] && messages[1..] == [[8]];
    FlatOfTwo(messages[..1], messages[1..]);
    FlatOfOne([7, 7]);
    FlatOfOne([8]);
    assert 3 + |Flat(messages[..1])| == 6;
  }

  /** Five calls after which the back of a queue cannot be read: in a ring of six bytes the first
      of two messages ends at index 6. */
  method BackCanFault() returns (queue: VLQueue, fault: bool)
    ensures fresh(queue) && queue.Valid() && queue.messages == [[7, 7], [8]]
    ensures EndsAtLimit(queue.bufferLength, queue.readIndex, queue.messages) && fault
  {
    hide VLQueue.Valid, Flat, Encoded, EndsAtLimit, RingHolds;
    EndsAtSix();
    NoMessagesNoBytes();
    queue := new VLQueue();
    var memory := new byte[6];
    var ret := queue.Init(memory);
    ret := queue.Push([7, 7]);
    queue.ValidMeans();
    assert queue.messages == [[7, 7]];
    var data;
    ret, data := queue.Pop(2);
    queue.ValidMeans();
    assert queue.messages == [] && queue.readIndex == 3;
    ret := queue.Push([7, 7]);
    assert queue.messages == [[7, 7]];
    ret := queue.Push([8]);
    assert queue.messages == [[7, 7], [8]];
    ret, data, fault := queue.Back(2);
  }

  lemma WalkStarts(n: nat, start: nat, messages: seq<Message>)
    requires start < n
    ensures Flat(messages[..0]) == [] && RawIndex(n, start, 0) == At(n, start, 0) == start
    ensures NoEndBefore(n, start, messages, 0)
  {}

  /** The index is usable exactly if no message ends at the limit here. */
  lemma RawIndexIs(n: nat, start: nat, messages: seq<Message>, k: nat, index: nat)
    requires start < n && k < |messages| && |Flat(messages[..k])| < n
    requires index == RawIndex(n, start, |Flat(messages[..k])|)
    ensures index >= n ==> EndsAtLimit(n, start, messages)
    ensures index < n ==> index == At(n, start, |Flat(messages[..k])|)
    ensures index < n && NoEndBefore(n, start, messages, k) ==> NoEndBefore(n, start, messages, k + 1)
  {
    if k > 0 {
      FlatIsMonotone(messages, 0, k);
    }
    assert messages[..0] == [];
  }

  /** One turn of the walk: behind the header, then behind the message. */
  lemma WalkOn(n: nat, start: nat, f: nat, header: nat, length: nat, index: nat)
    requires start < n && f + header + length < n && 0 < header && 0 < length
    requires At(n, start, f) < n && index == At(n, At(n, start, f), header)
    ensures var next := index + length; (if next > n then next - n else next) == RawIndex(n, start, f + header + length)
    ensures (index + length) % n == At(n, start, f + header + length)
  {
    IndexIsRemainder(n, index, length);
    AtAdds(n, start, f, header);
    AtAdds(n, start, f + header, length);
  }

  lemma NoEndAtAll(n: nat, start: nat, messages: seq<Message>)
    requires NoEndBefore(n, start, messages, |messages|)
    ensures !EndsAtLimit(n, start, messages)
  {}

  lemma IndexIsRemainder(n: nat, start: nat, i: nat)
    requires start < n && i <= n
    ensures (start + i) % n == At(n, start, i)
  {
    ReliableRing.RemainderIsUnique(start + i, if start + i < n then 0 else 1, At(n, start, i), n);
  }

  /** Without its first message the queue starts behind it and ends where it did. */
  lemma DropFirst(messages: seq<Message>, n: nat, start: nat, end: nat)
    requires messages != [] && start < n && |Flat(messages)| < n && end == At(n, start, |Flat(messages)|)
    ensures |Flat(messages[..1])| == |Encoded(messages[0])| < n && At(n, start, |Encoded(messages[0])|) < n
    ensures |Flat(messages[1..])| < n && end == At(n, At(n, start, |Encoded(messages[0])|), |Flat(messages[1..])|)
  {
    FlatAt(messages, 0);
    assert messages[..0] == [] && messages[0..] == messages;
    AtAdds(n, start, |Encoded(messages[0])|, |Flat(messages[1..])|);
  }
}

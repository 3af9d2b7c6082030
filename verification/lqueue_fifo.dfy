/** What the queue means: a bounded first-in first-out list of byte strings. */
module LQueueFifo {
  import opened Memory
  import opened LQueueFormat

  const OK := 0
  const ERR_PARAM := -1
  const ERR_QUEUE_FULL := -2
  const ERR_QUEUE_EMPTY := -3
  const ERR_READ_BUFFER_SZ := -4
  const ERR_RANGE := -5

  datatype Op =
    | Push(message: seq<byte>)
    | Pop(bufSize: nat)
    | Front(bufSize: nat)
    | PopNoRead
    | Fsize
    | Size
    | Empty

  /** The answer of an operation on a queue, and the queue it leaves: a failing operation leaves
      it as it was. */
  ghost predicate Answers(op: Op, queue: seq<Message>, bufferLength: nat, left: seq<Message>, ret: int,
      data: seq<byte>) {
    match op
    case Push(message) =>
      if message == [] then left == queue && ret == ERR_PARAM
      else if |message| >= 0x1_0000 then left == queue && ret == ERR_RANGE
      else if |Flat(queue)| + |Encoded(message)| >= bufferLength then left == queue && ret == ERR_QUEUE_FULL
      else left == queue + [message] && ret == OK
    case Pop(bufSize) =>
      if bufSize == 0 then left == queue && ret == ERR_PARAM
      else if queue == [] then left == queue && ret == ERR_QUEUE_EMPTY
      else if |queue[0]| > bufSize then left == queue && ret == ERR_READ_BUFFER_SZ
      else left == queue[1..] && ret == |queue[0]| && data == queue[0]
    case Front(bufSize) =>
      left == queue &&
      if bufSize == 0 then ret == ERR_PARAM
      else if queue == [] then ret == ERR_QUEUE_EMPTY
      else if |queue[0]| > bufSize then ret == ERR_READ_BUFFER_SZ
      else ret == |queue[0]| && data == queue[0]
    case PopNoRead =>
      if queue == [] then left == queue && ret == ERR_QUEUE_EMPTY
      else left == queue[1..] && ret == OK
    case Fsize => left == queue && ret == if queue == [] then ERR_QUEUE_EMPTY else |queue[0]|
    case Size => left == queue && ret == |queue|
    case Empty => left == [] && ret == OK
  }

  /** One operation with its answer, and the queue after it. */
  datatype Call = Call(op: Op, left: seq<Message>, ret: int, data: seq<byte>)

  /** A run of calls from a queue. */
  ghost predicate Run(queue: seq<Message>, bufferLength: nat, calls: seq<Call>)
    decreases |calls|
  {
    calls == [] ||
    (Answers(calls[0].op, queue, bufferLength, calls[0].left, calls[0].ret, calls[0].data)
     && Run(calls[0].left, bufferLength, calls[1..]))
  }

  ghost function Final(queue: seq<Message>, calls: seq<Call>): seq<Message> {
    if calls == [] then queue else calls[|calls| - 1].left
  }

  ghost function AcceptedBy(call: Call): seq<seq<byte>> {
    if call.op.Push? && call.ret == OK then [call.op.message] else []
  }

  ghost function RemovedBy(queue: seq<Message>, call: Call): seq<seq<byte>> {
    if call.op.Empty? then queue
    else if queue != [] && ((call.op.Pop? && call.ret > 0) || (call.op.PopNoRead? && call.ret == OK)) then [queue[0]]
    else []
  }

  /** The messages that were accepted, in order. */
  ghost function Accepted(calls: seq<Call>): seq<seq<byte>> {
    if calls == [] then [] else AcceptedBy(calls[0]) + Accepted(calls[1..])
  }

  /** The messages that left the queue, in order. */
  ghost function Removed(queue: seq<Message>, calls: seq<Call>): seq<seq<byte>>
    decreases |calls|
  {
    if calls == [] then [] else RemovedBy(queue, calls[0]) + Removed(calls[0].left, calls[1..])
  }

  /** What pop handed out, in order. */
  ghost function Popped(calls: seq<Call>): seq<seq<byte>> {
    if calls == [] then []
    else (if calls[0].op.Pop? && calls[0].ret > 0 then [calls[0].data] else []) + Popped(calls[1..])
  }

  lemma CallKeepsOrder(queue: seq<Message>, bufferLength: nat, call: Call)
    requires Answers(call.op, queue, bufferLength, call.left, call.ret, call.data)
    ensures queue + AcceptedBy(call) == RemovedBy(queue, call) + call.left
    ensures |Flat(queue)| < bufferLength ==> |Flat(call.left)| < bufferLength
  {
    hide Flat, Encoded;
    if call.op.Push? && call.ret == OK {
      FlatOfTwo(queue, [call.op.message]);
      FlatOfOne(call.op.message);
    } else if queue != [] && call.left != queue {
      assert queue == [queue[0]] + queue[1..];
      FlatOfTwo([queue[0]], queue[1..]);
      NoMessagesNoBytes();
    } else {
      NoMessagesNoBytes();
    }
  }

  lemma Regroup(a: seq<seq<byte>>, b: seq<seq<byte>>, c: seq<seq<byte>>, d: seq<seq<byte>>, e: seq<seq<byte>>,
      f: seq<seq<byte>>, g: seq<seq<byte>>)
    requires a + b == c + d && d + e == f + g
    ensures a + (b + e) == (c + f) + g
  {
    assert a + (b + e) == (a + b) + e;
    assert (c + d) + e == c + (d + e);
    assert c + (f + g) == (c + f) + g;
  }

  /** First in, first out, over every run: what was there and what was accepted is what left
      the queue followed by what is still in it, in the same order; and the ring never
      overflows. */
  lemma {:induction false} RunKeepsOrder(queue: seq<Message>, bufferLength: nat, calls: seq<Call>)
    requires Run(queue, bufferLength, calls)
    ensures queue + Accepted(calls) == Removed(queue, calls) + Final(queue, calls)
    ensures |Flat(queue)| < bufferLength ==> |Flat(Final(queue, calls))| < bufferLength
    decreases |calls|
  {
    hide Flat, Answers, AcceptedBy, RemovedBy;
    if calls != [] {
      var call, rest := calls[0], calls[1..];
      CallKeepsOrder(queue, bufferLength, call);
      RunKeepsOrder(call.left, bufferLength, rest);
      Regroup(queue, AcceptedBy(call), RemovedBy(queue, call), call.left, Accepted(rest), Removed(call.left, rest), Final(call.left, rest));
    }
  }

  /** If messages only leave by pop, the reader gets the accepted messages, byte for byte. */
  lemma {:induction false} PoppedIsRemoved(queue: seq<Message>, bufferLength: nat, calls: seq<Call>)
    requires Run(queue, bufferLength, calls)
    requires forall call | call in calls :: !call.op.Empty? && !call.op.PopNoRead?
    ensures Popped(calls) == Removed(queue, calls)
    decreases |calls|
  {
    hide Flat;
    if calls != [] {
      PoppedIsRemoved(calls[0].left, bufferLength, calls[1..]);
      assert calls[0] in calls;
    }
  }
}

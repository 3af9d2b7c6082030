/** The slot ring shared by both reliable streams (uxrReliableStream): one flat buffer cut
    into `history` slots, each a 4-byte length followed by the slot's bytes. */
module ReliableRing {
  import opened SeqNum
  import opened Memory

  const LENGTH_SIZE := 4 // INTERNAL_RELIABLE_BUFFER_OFFSET
  const SUBHEADER_SIZE := 4

  ghost predicate IsPowerOfTwo(n: nat) {
    n == 1 || (n > 1 && n % 2 == 0 && IsPowerOfTwo(n / 2))
  }

  /** Index of the first byte of slot i; recursive so that proofs about slots stay linear. */
  ghost function SlotBase(slotSize: nat, i: nat): nat {
    if i == 0 then 0 else SlotBase(slotSize, i - 1) + slotSize
  }

  lemma {:induction false} SlotBaseIsProduct(slotSize: nat, i: nat)
    ensures SlotBase(slotSize, i) == i * slotSize
  {
    if i > 0 {
      SlotBaseIsProduct(slotSize, i - 1);
      assert i * slotSize == (i - 1) * slotSize + slotSize;
    }
  }

  lemma {:induction false} SlotsAreDisjoint(slotSize: nat, i: nat, j: nat)
    requires i < j
    ensures SlotBase(slotSize, i) + slotSize <= SlotBase(slotSize, j)
  {
    if i < j - 1 {
      SlotsAreDisjoint(slotSize, i, j - 1);
    }
  }

  /** The in-band length of slot i. */
  ghost function LenAt(m: seq<byte>, slotSize: nat, i: nat): nat {
    var p := SlotBase(slotSize, i);
    if p + LENGTH_SIZE <= |m| then FromBe32(m[p], m[p + 1], m[p + 2], m[p + 3]) else 0
  }

  /** The bytes of slot i after its length, up to the end of the slot. */
  ghost function AreaAt(m: seq<byte>, slotSize: nat, i: nat): seq<byte> {
    var p := SlotBase(slotSize, i);
    if LENGTH_SIZE <= slotSize && p + slotSize <= |m| then m[p + LENGTH_SIZE..p + slotSize] else []
  }

  /** From m to n only the length of slot i changed, to `length`. */
  ghost predicate OnlyLengthSet(m: seq<byte>, n: seq<byte>, slotSize: nat, history: nat, i: nat, length: nat) {
    var holds :=
      && |n| == |m|
      && (forall j: nat | j < history :: LenAt(n, slotSize, j) == if j == i then length else LenAt(m, slotSize, j))
      && (forall j: nat | j < history :: AreaAt(n, slotSize, j) == AreaAt(m, slotSize, j));
    holds
  }

  lemma LengthSetMeans(m: seq<byte>, n: seq<byte>, slotSize: nat, history: nat, i: nat, length: uint32)
    requires LENGTH_SIZE <= slotSize && i < history && SlotBase(slotSize, history) <= |m| == |n|
    requires var p := SlotBase(slotSize, i);
      && forall q | 0 <= q < |m| && !(p <= q < p + LENGTH_SIZE) :: n[q] == m[q]
    requires LenAt(n, slotSize, i) == length
    ensures OnlyLengthSet(m, n, slotSize, history, i, length)
  {
    forall j: nat | j < history
      ensures AreaAt(n, slotSize, j) == AreaAt(m, slotSize, j)
      ensures LenAt(n, slotSize, j) == if j == i then length else LenAt(m, slotSize, j)
    {
      SlotsAreDisjoint(slotSize, j, history);
      if j < i {
        SlotsAreDisjoint(slotSize, j, i);
      } else if j > i {
        SlotsAreDisjoint(slotSize, i, j);
      }
    }
  }

  /** The slot that sequence number k uses. */
  ghost function Slot(history: nat, k: int): nat
    requires history > 0
    ensures Slot(history, k) < history
  {
    k % history
  }

  lemma {:induction false} PowerOfTwoDivides(history: nat, n: nat)
    requires IsPowerOfTwo(history) && IsPowerOfTwo(n) && history <= n
    ensures n % history == 0
  {
    if history > 1 {
      if n % 2 == 0 && n > 1 {
        PowerOfTwoDivides(history / 2, n / 2);
        var q := (n / 2) / (history / 2);
        assert n / 2 == q * (history / 2);
        assert n == q * history;
        MultipleHasNoRemainder(q, history);
      }
    }
  }

  lemma MultipleHasNoRemainder(q: int, h: nat)
    requires h > 0
    ensures (q * h) % h == 0
  {
    RemainderIsUnique(q * h, q, 0, h);
  }

  lemma ProductGrows(d: int, h: nat)
    requires d >= 1
    ensures d * h >= h
  {}

  lemma ProductOfDifference(a: int, b: int, h: nat)
    ensures (a - b) * h == a * h - b * h
  {}

  lemma RemainderIsUnique(x: int, q: int, r: int, h: nat)
    requires h > 0 && x == q * h + r && 0 <= r < h
    ensures x % h == r && x / h == q
  {
    var q', r' := x / h, x % h;
    assert x == q' * h + r';
    if q > q' {
      ProductGrows(q - q', h);
      ProductOfDifference(q, q', h);
      assert false;
    } else if q < q' {
      ProductGrows(q' - q, h);
      ProductOfDifference(q', q, h);
      assert false;
    }
  }

  lemma NestedRemainder(k: int, n: nat, h: nat)
    requires n > 0 && h > 0 && n % h == 0
    ensures (k % n) % h == k % h
  {
    var c, u, v := n / h, k / n, k % n;
    var q, r := v / h, v % h;
    assert n == c * h && k == u * n + v && v == q * h + r;
    ProductReassociates(u, c, q, h);
    RemainderIsUnique(k, u * c + q, r, h);
  }

  /** Cutting a counter to 16 bits does not change its slot, because history divides 2^16. */
  lemma WrapKeepsSlot(history: nat, k: int)
    requires IsPowerOfTwo(history) && history <= SEQ_NUM_SIZE
    ensures Wrap(k) % history == Slot(history, k)
  {
    SeqNumSizeIsPowerOfTwo();
    PowerOfTwoDivides(history, SEQ_NUM_SIZE);
    NestedRemainder(k, SEQ_NUM_SIZE, history);
  }

  lemma ProductReassociates(u: int, c: int, q: int, h: int)
    ensures (u * c + q) * h == u * (c * h) + q * h
  {}

  lemma SeqNumSizeIsPowerOfTwo()
    ensures IsPowerOfTwo(SEQ_NUM_SIZE)
  {
    assert IsPowerOfTwo(0x10);
    assert IsPowerOfTwo(0x100);
    assert IsPowerOfTwo(0x1000);
  }

  /** Sequence numbers less than `history` apart never share a slot. */
  lemma SlotsDiffer(history: nat, j: int, k: int)
    requires history > 0 && j < k < j + history
    ensures Slot(history, j) != Slot(history, k)
  {
    if j % history == k % history {
      var d := k / history - j / history;
      assert d * history == (k / history) * history - (j / history) * history;
      assert 0 < d * history < history;
      if d >= 1 {
        ProductGrows(d, history);
      }
      assert false;
    }
  }

  /** Sequence numbers `history` apart share theirs. */
  lemma SlotIsPeriodic(history: nat, k: int)
    requires history > 0
    ensures Slot(history, k + history) == Slot(history, k)
  {
    RemainderIsUnique(k + history, k / history + 1, k % history, history);
  }

  /** Moving to the next sequence number moves to the next slot, back to 0 at the end. */
  lemma SlotSuccessor(history: nat, k: int)
    requires history > 0
    ensures Slot(history, k + 1) == if Slot(history, k) + 1 == history then 0 else Slot(history, k) + 1
  {
    var q, r := k / history, k % history;
    if r + 1 == history {
      assert k + 1 == (q + 1) * history;
      RemainderIsUnique(k + 1, q + 1, 0, history);
    } else {
      RemainderIsUnique(k + 1, q, r + 1, history);
    }
  }

  /** uxrReliableStream */
  datatype ReliableStream = ReliableStream(buffer: array<byte>, size: nat, history: uint16) {

    /** What the streams assume of their memory; the last line follows from the others (see
        `LayoutIsGood`) and is kept here so that every proof has it. */
    ghost predicate Valid() {
      && history > 0
      && IsPowerOfTwo(history) && history <= 0x4000
      && buffer.Length == size
      && LENGTH_SIZE < SlotSize() <= 0xFFFF + LENGTH_SIZE
      && SlotBase(SlotSize(), history) <= size
    }

    function SlotSize(): nat
      requires history > 0
    {
      size / history
    }

    /** Index in `buffer` of the slot's bytes. */
    function GetBuffer(seqNum: uint16): nat
      requires history > 0
    {
      (seqNum % history) * (size / history) + LENGTH_SIZE
    }

    function GetCapacity(): int
      requires history > 0
    {
      size / history - LENGTH_SIZE
    }

    function GetHistoryPosition(position: nat): nat
      requires history > 0 && SlotSize() > 0
    {
      position / (size / history)
    }

    method GetSize(seqNum: uint16) returns (length: uint32)
      requires Valid()
      ensures length == LenAt(buffer[..], SlotSize(), seqNum % history)
    {
      var slot := seqNum % history;
      SlotBaseIsProduct(SlotSize(), slot);
      SlotsAreDisjoint(SlotSize(), slot, history);
      RemainderIsUnique(slot, 0, slot, history);
      var p := GetBuffer(slot) - LENGTH_SIZE;
      length := FromBe32(buffer[p], buffer[p + 1], buffer[p + 2], buffer[p + 3]);
    }

    method SetSize(seqNum: uint16, length: uint32)
      requires Valid()
      modifies buffer
      ensures OnlyLengthSet(old(buffer[..]), buffer[..], SlotSize(), history, seqNum % history, length)
    {
      var slot := seqNum % history;
      ghost var m := buffer[..];
      SlotBaseIsProduct(SlotSize(), slot);
      SlotsAreDisjoint(SlotSize(), slot, history);
      RemainderIsUnique(slot, 0, slot, history);
      var p := GetBuffer(slot) - LENGTH_SIZE;
      var bytes := Be32(length);
      Be32RoundTrip(length);
      buffer[p], buffer[p + 1], buffer[p + 2], buffer[p + 3] := bytes[0], bytes[1], bytes[2], bytes[3];
      LengthSetMeans(m, buffer[..], SlotSize(), history, slot, length);
    }
  }

  lemma QuotientFits(x: nat, d: nat)
    requires d > 0
    ensures d * (x / d) <= x
  {}

  lemma LayoutIsGood(r: ReliableStream)
    requires r.history > 0 && IsPowerOfTwo(r.history) && r.history <= 0x4000
    requires r.buffer.Length == r.size && LENGTH_SIZE < r.SlotSize() <= 0xFFFF + LENGTH_SIZE
    ensures r.Valid()
  {
    SlotBaseIsProduct(r.SlotSize(), r.history);
    QuotientFits(r.size, r.history);
  }

  /** The pointer-to-slot inverse: any position inside slot i maps back to i. */
  lemma HistoryPositionInverse(r: ReliableStream, i: nat, position: nat)
    requires r.Valid() && i < r.history
    requires SlotBase(r.SlotSize(), i) <= position < SlotBase(r.SlotSize(), i) + r.SlotSize()
    ensures r.GetHistoryPosition(position) == i
  {
    SlotBaseIsProduct(r.SlotSize(), i);
    RemainderIsUnique(position, i, position - SlotBase(r.SlotSize(), i), r.SlotSize());
  }
}

/** The bytes a grant covers: where they lie in the ring, and what they spell. */
module OutputPath {
  import opened SeqNum
  import opened Memory
  import opened ReliableRing
  import opened SlotGeometry
  import opened OutputWindow
  import opened OutputGrant
  import opened MicroCdr

  ghost function GrantPath(v: Sender, length: nat, g: Grant): seq<nat>
    requires v.ring.Configured() && !g.Refused?
    requires g.InFragments? ==> g.blocks >= 1 && g.at + SUBHEADER_SIZE < v.ring.Capacity()
  {
    match g
    case InSlot(k, at) => Range(Start(v.ring, k) + at, Start(v.ring, k) + at + length)
    case InFragments(first, at, blocks, last) =>
      Ahead(Start(v.ring, first) + at + SUBHEADER_SIZE, Start(v.ring, first) + v.ring.Capacity(), MoreAreas(v.ring, first + 1, blocks, last))
  }

  /** The granted positions are as many as the request, all different, and all in unsent slots. */
  lemma GrantPathIsGood(v: Sender, m: seq<byte>, length: nat, g: Grant)
    requires v.ring.Configured() && v.Counters() && GrantFits(v, m, length, g) && !g.Refused?
    ensures g.InFragments? ==> g.blocks >= 1 && g.at + SUBHEADER_SIZE < v.ring.Capacity()
    ensures var path := GrantPath(v, length, g);
      |path| == length && NoDuplicates(path) && OnSlots(v.ring, path, g.First(), g.Last() + 1)
  {
    hide IsPowerOfTwo, OnSlots, NoDuplicates, Flat, Start;
    match g
    case InSlot(k, at) =>
      RangeOnSlot(v.ring, k, Start(v.ring, k) + at, Start(v.ring, k) + at + length);
    case InFragments(first, at, blocks, last) =>
      var a, b := Start(v.ring, first) + at + SUBHEADER_SIZE, Start(v.ring, first) + v.ring.Capacity();
      var more := MoreAreas(v.ring, first + 1, blocks, last);
      RangeOnSlot(v.ring, first, a, b);
      MoreAreasOnSlots(v.ring, first + 1, blocks, last);
      OnSlotsConcat(v.ring, Range(a, b), Flat(more), first, first + 1, first + 1 + blocks);
  }

  /** The length of slot k once the grant is made. */
  ghost function GrantedLen(v: Sender, m: seq<byte>, length: nat, g: Grant, k: int): nat
    requires v.ring.Configured()
  {
    if g.InSlot? && k == g.k then g.at + length
    else if g.InFragments? && g.first <= k < g.first + g.blocks then v.ring.Capacity()
    else if g.InFragments? && k == g.first + g.blocks then v.ring.offset + SUBHEADER_SIZE + g.last
    else v.ring.Len(m, k)
  }

  /** Making a grant changed the lengths of its slots and nothing else. */
  ghost predicate GrantMade(v: Sender, m: seq<byte>, n: seq<byte>, length: nat, g: Grant)
    requires v.ring.Configured()
  {
    var made :=
      && SameAreas(v.ring, m, n)
      && forall k | v.acked < k <= v.acked + v.ring.history :: v.ring.Len(n, k) == GrantedLen(v, m, length, g, k);
    made
  }

  lemma GrantedLengths(v: Sender, m: seq<byte>, n: seq<byte>, length: nat, g: Grant)
    requires v.ring.Configured() && v.Counters() && GrantFits(v, m, length, g)
    requires g.InFragments? && GrantMade(v, m, n, length, g)
    ensures forall k | g.first < k < g.first + g.blocks :: v.ring.Len(n, k) == v.ring.Capacity()
    ensures v.ring.Len(n, g.first + g.blocks) == v.ring.offset + SUBHEADER_SIZE + g.last
  {}

  lemma SlotAfterGrant(v: Sender, m: seq<byte>, n: seq<byte>, length: nat, g: Grant, k: int)
    requires v.Window(m) && length > 0 && v.ring.Configured() && GrantFits(v, m, length, g) && !g.Refused?
    requires GrantMade(v, m, n, length, g) && v.acked < k <= v.acked + v.ring.history
    ensures |v.log| == v.sent + 1 && 0 <= k && v.(written := g.Last()).SlotOk(n, k)
  {
    hide Sender.Window, IsPowerOfTwo, LenAt, AreaAt, Ring.Message, SameAreas;
    WindowAt(v, m, k);
    WindowMeans(v, m);
    SameMessage(v.ring, m, n, k);
    var t := v.(written := g.Last());
    assert t.ring.Len(n, k) == v.ring.Len(n, k) == GrantedLen(v, m, length, g, k);
    MessageIgnoresWritten(v, n, k, g.Last());
  }

  lemma MessageIgnoresWritten(v: Sender, m: seq<byte>, k: int, w: int)
    requires v.ring.history > 0
    ensures v.(written := w).ring.Message(m, k) == v.ring.Message(m, k)
  {}

  lemma GrantKeepsWindow(v: Sender, m: seq<byte>, n: seq<byte>, length: nat, g: Grant)
    requires v.Window(m) && length > 0 && v.ring.Configured() && GrantFits(v, m, length, g) && !g.Refused?
    requires GrantMade(v, m, n, length, g)
    ensures v.(written := g.Last()).Window(n)
  {
    hide IsPowerOfTwo, LenAt, AreaAt, Ring.Message, SameAreas, Sender.SlotOk, GrantMade;
    var t := v.(written := g.Last());
    forall k | v.acked < k <= v.acked + v.ring.history
      ensures t.SlotOk(n, k)
    {
      SlotAfterGrant(v, m, n, length, g, k);
    }
  }

  lemma WritingKeepsWindow(v: Sender, w: int, m: seq<byte>, n: seq<byte>, path: seq<nat>, lo: int, hi: int)
    requires v.(written := w).Window(m) && SameExcept(m, n, path, 0, |path|)
    requires v.ring.Configured() && OnSlots(v.ring, path, lo, hi)
    requires SlotBase(v.ring.slotSize, v.ring.history) <= |m|
    requires v.sent < lo <= hi <= v.acked + v.ring.history + 1
    ensures v.(written := w).Window(n)
  {
    hide IsPowerOfTwo, SameExcept, OnSlots, LenAt, AreaAt;
    var t := v.(written := w);
    WindowMeans(t, m);
    forall k | v.acked < k <= v.acked + v.ring.history
      ensures t.SlotOk(n, k)
    {
      WindowAt(t, m, k);
      WritingLeaves(v.ring, m, n, path, lo, hi, k);
    }
  }

  /** The bytes a grant gives to the writer, slot by slot. */
  ghost function Payload(v: Sender, m: seq<byte>, length: nat, g: Grant): seq<byte>
    requires v.ring.history > 0 && !g.Refused? && (g.InFragments? ==> g.blocks >= 1)
  {
    match g
    case InSlot(k, at) => Piece(v.ring, m, k, at, length)
    case InFragments(first, at, blocks, last) =>
      Piece(v.ring, m, first, at + SUBHEADER_SIZE, v.ring.Capacity() - at - SUBHEADER_SIZE) + MorePayload(v.ring, m, first + 1, blocks, last)
  }

  /** Writing over fragments is exact: if the path of a grant holds a message, then the payload
      areas of the slots, one after the other, spell that message, with none left over. */
  lemma PayloadIsMessage(v: Sender, m: seq<byte>, w: seq<byte>, length: nat, g: Grant, s: seq<byte>)
    requires v.ring.Configured() && v.Counters() && GrantFits(v, w, length, g) && !g.Refused?
    requires SlotBase(v.ring.slotSize, v.ring.history) <= |m| && |s| == length
    requires Holds(m, GrantPath(v, length, g), 0, s)
    ensures Payload(v, m, length, g) == s
  {
    hide IsPowerOfTwo, Holds, Flat, Piece, Start, OnSlots, NoDuplicates, MorePayload, MoreAreas;
    GrantPathIsGood(v, w, length, g);
    if g.InSlot? {
      PieceIsSlice(v.ring, m, g.k, g.at, length);
      var a := Start(v.ring, g.k) + g.at;
      assert Range(a, a + length) + [] == GrantPath(v, length, g);
      HeldRange(m, a, a + length, [], s);
    } else {
      FragmentsAreMessage(v.ring, m, g.first, g.at, g.blocks, g.last, s);
    }
  }

  lemma FragmentsAreMessage(r: Ring, m: seq<byte>, first: int, at: nat, blocks: nat, last: nat, s: seq<byte>)
    requires r.Configured() && SlotBase(r.slotSize, r.history) <= |m|
    requires 1 <= blocks <= r.history && last <= Block(r) && at + SUBHEADER_SIZE < r.Capacity()
    requires var path := Ahead(Start(r, first) + at + SUBHEADER_SIZE, Start(r, first) + r.Capacity(), MoreAreas(r, first + 1, blocks, last));
      Holds(m, path, 0, s) && |s| == |path|
    ensures Piece(r, m, first, at + SUBHEADER_SIZE, r.Capacity() - at - SUBHEADER_SIZE) + MorePayload(r, m, first + 1, blocks, last) == s
  {
    hide IsPowerOfTwo, Holds, Flat, Piece, Start, MorePayload, MoreAreas;
    var n := r.Capacity() - at - SUBHEADER_SIZE;
    PieceIsSlice(r, m, first, at + SUBHEADER_SIZE, n);
    var a, more := Start(r, first) + at + SUBHEADER_SIZE, MoreAreas(r, first + 1, blocks, last);
    HeldRange(m, a, a + n, Flat(more), s);
    MorePayloadIsHeld(r, m, first + 1, blocks, last, s[n..]);
    assert s == s[..n] + s[n..];
  }

  lemma GrantInSlotMade(v: Sender, m: seq<byte>, n: seq<byte>, length: nat, k: int, at: nat)
    requires v.ring.Configured() && v.acked < k <= v.acked + v.ring.history
    requires OnlyLengthSet(m, n, v.ring.slotSize, v.ring.history, Slot(v.ring.history, k), at + length)
    ensures GrantMade(v, m, n, length, InSlot(k, at))
  {
    SetInWindow(v.ring, m, n, k, at + length);
  }

  /** The lengths after the first i turns of the fragment loop. */
  ghost predicate FragmentsMade(v: Sender, m: seq<byte>, n: seq<byte>, first: int, i: nat)
    requires v.ring.Configured()
  {
    var made :=
      && SameAreas(v.ring, m, n)
      && forall k | v.acked < k <= v.acked + v.ring.history ::
           v.ring.Len(n, k) == if first <= k < first + i then v.ring.Capacity() else v.ring.Len(m, k);
    made
  }

  lemma FragmentsStart(v: Sender, m: seq<byte>, first: int)
    requires v.ring.Configured()
    ensures FragmentsMade(v, m, m, first, 0)
  {}

  lemma FragmentsStep(v: Sender, m: seq<byte>, n: seq<byte>, n': seq<byte>, first: int, i: nat)
    requires v.ring.Configured() && FragmentsMade(v, m, n, first, i)
    requires v.acked < first && first + i <= v.acked + v.ring.history
    requires OnlyLengthSet(n, n', v.ring.slotSize, v.ring.history, Slot(v.ring.history, first + i), v.ring.Capacity())
    ensures FragmentsMade(v, m, n', first, i + 1)
  {
    SetInWindow(v.ring, n, n', first + i, v.ring.Capacity());
  }

  lemma FragmentsEnd(v: Sender, m: seq<byte>, n: seq<byte>, n': seq<byte>, length: nat, g: Grant)
    requires v.ring.Configured() && g.InFragments? && FragmentsMade(v, m, n, g.first, g.blocks)
    requires v.acked < g.first && g.first + g.blocks <= v.acked + v.ring.history
    requires OnlyLengthSet(n, n', v.ring.slotSize, v.ring.history, Slot(v.ring.history, g.first + g.blocks), v.ring.offset + SUBHEADER_SIZE + g.last)
    ensures GrantMade(v, m, n', length, g)
  {
    SetInWindow(v.ring, n, n', g.first + g.blocks, v.ring.offset + SUBHEADER_SIZE + g.last);
  }

  /** Every slot of the window keeps the bytes it had and may get more. */
  ghost predicate AppendOnly(v: Sender, m: seq<byte>, n: seq<byte>)
    requires v.ring.history > 0
  {
    var kept := forall k | v.acked < k <= v.acked + v.ring.history :: v.ring.Message(m, k) <= v.ring.Message(n, k);
    kept
  }

  /** No byte a slot already had lies on the path of a grant. */
  lemma OldBytesOffPath(v: Sender, m: seq<byte>, length: nat, g: Grant, k: int, i: nat)
    requires v.Window(m) && v.ring.Configured() && length > 0 && GrantFits(v, m, length, g) && !g.Refused?
    requires v.acked < k <= v.acked + v.ring.history && i < v.ring.Len(m, k)
    ensures !Within(GrantPath(v, length, g), 0, length, Start(v.ring, k) + i)
  {
    hide IsPowerOfTwo, OnSlots, Flat, LenAt, Start, Sender.Window;
    var path, p := GrantPath(v, length, g), Start(v.ring, k) + i;
    WindowAt(v, m, k);
    WindowMeans(v, m);
    GrantPathIsGood(v, m, length, g);
    if Within(path, 0, length, p) {
      var x :| 0 <= x < length && path[x] == p;
      PathOnSlots(v.ring, path, g.First(), g.Last() + 1, x);
      var j :| g.First() <= j <= g.Last() && InSlotOf(v.ring, j, p);
      if j < k {
        ByteApart(v.ring, j, k, p);
      } else if k < j {
        ByteApart(v.ring, k, j, p);
      }
      if k == g.First() {
        FirstSlotPart(v, m, length, g, x);
      }
      assert false;
    }
  }

  /** In the first slot the path starts behind the bytes already there. */
  lemma FirstSlotPart(v: Sender, m: seq<byte>, length: nat, g: Grant, x: nat)
    requires v.ring.Configured() && v.Counters() && length > 0
    requires GrantFits(v, m, length, g) && !g.Refused? && x < length
    requires |GrantPath(v, length, g)| == length
    ensures var p := GrantPath(v, length, g)[x]; InSlotOf(v.ring, g.First(), p) ==> p >= Start(v.ring, g.First()) + g.at
  {
    hide IsPowerOfTwo, Start, LenAt;
    if g.InFragments? {
      var a, b := Start(v.ring, g.first) + g.at + SUBHEADER_SIZE, Start(v.ring, g.first) + v.ring.Capacity();
      var more := MoreAreas(v.ring, g.first + 1, g.blocks, g.last);
      if x >= b - a {
        MoreAreasOnSlots(v.ring, g.first + 1, g.blocks, g.last);
        var p := Flat(more)[x - (b - a)];
        assert OnSome(v.ring, g.first + 1, g.first + 1 + g.blocks, p);
        var j :| g.first + 1 <= j < g.first + 1 + g.blocks && InSlotOf(v.ring, j, p);
        SlotsApart(v.ring, g.first, j, p);
      }
    }
  }

  /** Making a grant and writing along its path only ever appends to slots. */
  lemma WritingAppends(v: Sender, m: seq<byte>, n: seq<byte>, n': seq<byte>, length: nat, g: Grant)
    requires v.Window(m) && v.ring.Configured() && length > 0 && GrantFits(v, m, length, g) && !g.Refused?
    requires GrantMade(v, m, n, length, g) && SlotBase(v.ring.slotSize, v.ring.history) <= |m| == |n|
    requires SameExcept(n, n', GrantPath(v, length, g), 0, length)
    ensures AppendOnly(v, m, n')
  {
    hide IsPowerOfTwo, LenAt, AreaAt, Start, Sender.Window, Ring.Message, GrantPath, OnSlots, NoDuplicates;
    WindowMeans(v, m);
    GrantPathIsGood(v, m, length, g);
    var path := GrantPath(v, length, g);
    forall k | v.acked < k <= v.acked + v.ring.history
      ensures v.ring.Message(m, k) <= v.ring.Message(n', k)
    {
      WindowAt(v, m, k);
      assert v.ring.Len(n, k) == GrantedLen(v, m, length, g, k);
      WritingLeaves(v.ring, n, n', path, g.First(), g.Last() + 1, k);
      forall p | Start(v.ring, k) <= p < Start(v.ring, k) + v.ring.Len(m, k) && p < |m|
        ensures n'[p] == m[p]
      {
        SameAreaBytes(v.ring, m, n, k, p);
        OldBytesOffPath(v, m, length, g, k, p - Start(v.ring, k));
      }
      MessagePrefix(v.ring, m, n', k);
    }
  }

  /** The lengths of the window are those of the grant. */
  ghost predicate LengthsGranted(v: Sender, m: seq<byte>, n: seq<byte>, length: nat, g: Grant)
    requires v.ring.Configured()
  {
    var holds := forall k | v.acked < k <= v.acked + v.ring.history :: v.ring.Len(n, k) == GrantedLen(v, m, length, g, k);
    holds
  }

  lemma LengthAt(v: Sender, m: seq<byte>, n: seq<byte>, length: nat, g: Grant, k: int)
    requires v.ring.Configured() && LengthsGranted(v, m, n, length, g) && v.acked < k <= v.acked + v.ring.history
    ensures v.ring.Len(n, k) == GrantedLen(v, m, length, g, k)
  {}

  /** The slots of the window that the grant does not cover hold what they held. */
  ghost predicate OthersKept(v: Sender, m: seq<byte>, n: seq<byte>, g: Grant)
    requires v.ring.history > 0 && !g.Refused?
  {
    var holds :=
      forall k | v.acked < k <= v.acked + v.ring.history && !(g.First() <= k <= g.Last()) :: v.ring.Message(n, k) == v.ring.Message(m, k);
    holds
  }

  lemma WritingKeepsOthers(v: Sender, m: seq<byte>, n: seq<byte>, n': seq<byte>, length: nat, g: Grant)
    requires v.Window(m) && v.ring.Configured() && length > 0 && GrantFits(v, m, length, g) && !g.Refused?
    requires GrantMade(v, m, n, length, g) && SlotBase(v.ring.slotSize, v.ring.history) <= |m| == |n|
    requires SameExcept(n, n', GrantPath(v, length, g), 0, length)
    ensures LengthsGranted(v, m, n', length, g) && OthersKept(v, m, n', g)
  {
    hide IsPowerOfTwo, Ring.Len, Ring.Message, Start, Sender.Window, GrantPath, OnSlots, NoDuplicates, SameExcept;
    WindowMeans(v, m);
    GrantPathIsGood(v, m, length, g);
    var path, lo, hi := GrantPath(v, length, g), g.First(), g.Last() + 1;
    forall k | v.acked < k <= v.acked + v.ring.history
      ensures v.ring.Len(n', k) == GrantedLen(v, m, length, g, k)
      ensures !(g.First() <= k <= g.Last()) ==> v.ring.Message(n', k) == v.ring.Message(m, k)
    {
      assert v.ring.Len(n, k) == GrantedLen(v, m, length, g, k);
      SameMessage(v.ring, m, n, k);
      OtherKept(v.ring, n, n', path, lo, hi, k);
    }
  }

  lemma OtherKept(r: Ring, m: seq<byte>, n: seq<byte>, path: seq<nat>, lo: int, hi: int, k: int)
    requires r.Configured() && SameExcept(m, n, path, 0, |path|) && OnSlots(r, path, lo, hi)
    requires SlotBase(r.slotSize, r.history) <= |m| && hi - r.history <= k < lo + r.history && lo <= hi
    ensures r.Len(n, k) == r.Len(m, k) && (!(lo <= k < hi) ==> r.Message(n, k) == r.Message(m, k))
  {
    hide LenAt, AreaAt, OnSlots, SameExcept, IsPowerOfTwo;
    WritingLeaves(r, m, n, path, lo, hi, k);
    if k >= hi {
      SlotIsPeriodic(r.history, k - r.history);
      WritingLeaves(r, m, n, path, lo, hi, k - r.history);
    }
  }

  /** What writing a message leaves: the areas of its grant spell it, in order and with none left
      over; every slot of the window keeps the bytes it had; the lengths are those of the grant;
      and slots outside the grant are as they were. */
  ghost predicate MessageWritten(v: Sender, m: seq<byte>, n: seq<byte>, message: seq<byte>)
    requires v.ring.Configured()
  {
    var g := GrantFor(v, m, |message|);
    && !g.Refused? && GrantFits(v, m, |message|, g) && Payload(v, n, |message|, g) == message
    && AppendOnly(v, m, n) && LengthsGranted(v, m, n, |message|, g) && OthersKept(v, m, n, g)
  }
}

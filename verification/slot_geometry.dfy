/** Where things lie in a slot ring: slots, the bytes of slots, and paths through several
    slots.  Sequence numbers are unbounded here; number k uses slot k modulo history. */
module SlotGeometry {
  import opened SeqNum
  import opened Memory
  import opened ReliableRing
  import opened MicroCdr

  /** A ring of `history` slots of `slotSize` bytes, the length included; messages start with
      a header of `offset` bytes. */
  datatype Ring = Ring(slotSize: nat, history: nat, offset: nat) {
    /** What the source asks of its configuration (inc/session/session.h:368-370). */
    ghost predicate Configured() {
      && history > 0 && IsPowerOfTwo(history) && history <= 0x4000
      && offset % 4 == 0 && offset + SUBHEADER_SIZE < Capacity() <= 0xFFFF
    }

    function Capacity(): int {
      slotSize - LENGTH_SIZE
    }

    ghost function Len(m: seq<byte>, k: int): nat
      requires history > 0
    {
      LenAt(m, slotSize, Slot(history, k))
    }

    /** The message in the slot of sequence number k. */
    ghost function Message(m: seq<byte>, k: int): seq<byte>
      requires history > 0
    {
      var area, n := AreaAt(m, slotSize, Slot(history, k)), Len(m, k);
      if n <= |area| then area[..n] else []
    }
  }

  /** m and n have the same bytes in every slot, whatever the lengths say. */
  ghost predicate SameAreas(r: Ring, m: seq<byte>, n: seq<byte>) {
    forall j: nat | j < r.history :: AreaAt(n, r.slotSize, j) == AreaAt(m, r.slotSize, j)
  }

  lemma AreasStaySame(r: Ring, m: seq<byte>, n: seq<byte>, n': seq<byte>)
    requires SameAreas(r, m, n) && SameAreas(r, n, n')
    ensures SameAreas(r, m, n')
  {}

  /** Setting one length changes one sequence number of any window around it. */
  lemma SetInWindow(r: Ring, m: seq<byte>, n: seq<byte>, at: int, length: nat)
    requires r.history > 0 && OnlyLengthSet(m, n, r.slotSize, r.history, Slot(r.history, at), length)
    ensures forall k | at - r.history < k < at + r.history :: r.Len(n, k) == if k == at then length else r.Len(m, k)
    ensures forall k | at - r.history < k < at + r.history && k != at :: r.Message(n, k) == r.Message(m, k)
    ensures SameAreas(r, m, n)
  {
    forall k | at - r.history < k < at + r.history
      ensures r.Len(n, k) == if k == at then length else r.Len(m, k)
      ensures k != at ==> r.Message(n, k) == r.Message(m, k)
    {
      if k < at {
        SlotsDiffer(r.history, k, at);
      } else if k > at {
        SlotsDiffer(r.history, at, k);
      }
    }
  }

  lemma SameMessage(r: Ring, m: seq<byte>, n: seq<byte>, k: int)
    requires r.history > 0 && SameAreas(r, m, n)
    ensures r.Len(n, k) == r.Len(m, k) ==> r.Message(n, k) == r.Message(m, k)
  {
    assert AreaAt(n, r.slotSize, Slot(r.history, k)) == AreaAt(m, r.slotSize, Slot(r.history, k));
  }

  /** Index in the ring buffer of the first byte of slot k. */
  ghost function Start(r: Ring, k: int): nat
    requires r.history > 0
  {
    SlotBase(r.slotSize, Slot(r.history, k)) + LENGTH_SIZE
  }

  ghost predicate InSlotOf(r: Ring, k: int, p: int)
    requires r.history > 0
  {
    Start(r, k) + r.offset <= p < Start(r, k) + r.Capacity()
  }

  ghost predicate OnSome(r: Ring, lo: int, hi: int, p: int)
    requires r.history > 0
  {
    exists j | lo <= j < hi :: InSlotOf(r, j, p)
  }

  /** Every position lies in a slot lo..hi, behind its message header. */
  ghost predicate OnSlots(r: Ring, path: seq<nat>, lo: int, hi: int)
    requires r.history > 0
  {
    forall i | 0 <= i < |path| :: OnSome(r, lo, hi, path[i])
  }

  lemma SlotsApart(r: Ring, j: int, k: int, p: int)
    requires r.history > 0 && r.slotSize >= LENGTH_SIZE && j < k < j + r.history
    ensures !(InSlotOf(r, j, p) && InSlotOf(r, k, p))
  {
    SlotsDiffer(r.history, j, k);
    var a, b := Slot(r.history, j), Slot(r.history, k);
    if a < b {
      SlotsAreDisjoint(r.slotSize, a, b);
    } else {
      SlotsAreDisjoint(r.slotSize, b, a);
    }
  }

  lemma SomeApart(r: Ring, lo: int, mid: int, hi: int, p: int, q: int)
    requires r.history > 0 && r.slotSize >= LENGTH_SIZE && lo <= mid <= hi <= lo + r.history
    requires OnSome(r, lo, mid, p) && OnSome(r, mid, hi, q)
    ensures p != q
  {
    var x :| lo <= x < mid && InSlotOf(r, x, p);
    var y :| mid <= y < hi && InSlotOf(r, y, q);
    SlotsApart(r, x, y, p);
  }

  lemma SomeWiden(r: Ring, lo: int, hi: int, lo': int, hi': int, p: int)
    requires r.history > 0 && lo' <= lo <= hi <= hi' && OnSome(r, lo, hi, p)
    ensures OnSome(r, lo', hi', p)
  {}

  lemma RangeOnSlot(r: Ring, k: int, first: nat, end: nat)
    requires r.history > 0 && Start(r, k) + r.offset <= first <= end <= Start(r, k) + r.Capacity()
    ensures OnSlots(r, Range(first, end), k, k + 1) && NoDuplicates(Range(first, end))
  {
    forall i | 0 <= i < end - first
      ensures OnSome(r, k, k + 1, Range(first, end)[i])
    {
      assert InSlotOf(r, k, Range(first, end)[i]);
    }
  }

  lemma OnSlotsConcat(r: Ring, a: seq<nat>, b: seq<nat>, lo: int, mid: int, hi: int)
    requires r.history > 0 && r.slotSize >= LENGTH_SIZE && lo <= mid <= hi <= lo + r.history
    requires OnSlots(r, a, lo, mid) && NoDuplicates(a)
    requires OnSlots(r, b, mid, hi) && NoDuplicates(b)
    ensures OnSlots(r, a + b, lo, hi) && NoDuplicates(a + b)
  {
    hide OnSome;
    forall i, j | 0 <= i < |a| && 0 <= j < |b|
      ensures a[i] != b[j]
    {
      SomeApart(r, lo, mid, hi, a[i], b[j]);
    }
    forall i | 0 <= i < |a + b|
      ensures OnSome(r, lo, hi, (a + b)[i])
    {
      if i < |a| {
        SomeWiden(r, lo, mid, lo, hi, a[i]);
      } else {
        SomeWiden(r, mid, hi, lo, hi, b[i - |a|]);
      }
    }
  }

  lemma PathOnSlots(r: Ring, path: seq<nat>, lo: int, hi: int, x: nat)
    requires r.history > 0 && OnSlots(r, path, lo, hi) && x < |path|
    ensures OnSome(r, lo, hi, path[x])
  {}

  /** A byte of one slot is not a byte of another. */
  lemma ByteApart(r: Ring, j: int, k: int, p: int)
    requires r.Configured() && j < k < j + r.history
    ensures !(Start(r, j) <= p < Start(r, j) + r.Capacity() && Start(r, k) <= p < Start(r, k) + r.Capacity())
  {
    SlotsDiffer(r.history, j, k);
    var a, b := Slot(r.history, j), Slot(r.history, k);
    if a < b {
      SlotsAreDisjoint(r.slotSize, a, b);
    } else {
      SlotsAreDisjoint(r.slotSize, b, a);
    }
  }

  lemma NotInHeader(r: Ring, lo: int, hi: int, slot: nat, q: int)
    requires r.Configured() && slot < r.history
    requires SlotBase(r.slotSize, slot) <= q < SlotBase(r.slotSize, slot) + LENGTH_SIZE
    ensures !OnSome(r, lo, hi, q)
  {
    forall j | lo <= j < hi
      ensures !InSlotOf(r, j, q)
    {
      var other := Slot(r.history, j);
      if other < slot {
        SlotsAreDisjoint(r.slotSize, other, slot);
      } else if other > slot {
        SlotsAreDisjoint(r.slotSize, slot, other);
      }
    }
  }

  lemma NotInOther(r: Ring, lo: int, hi: int, k: int, q: int)
    requires r.Configured() && k < lo <= hi <= k + r.history
    requires SlotBase(r.slotSize, Slot(r.history, k)) + LENGTH_SIZE <= q < SlotBase(r.slotSize, Slot(r.history, k)) + r.slotSize
    ensures !OnSome(r, lo, hi, q)
  {
    forall j | lo <= j < hi
      ensures !InSlotOf(r, j, q)
    {
      SlotsDiffer(r.history, k, j);
      var a, b := Slot(r.history, k), Slot(r.history, j);
      if a < b {
        SlotsAreDisjoint(r.slotSize, a, b);
      } else {
        SlotsAreDisjoint(r.slotSize, b, a);
      }
    }
  }

  /** Writing along the path of a grant touches no length, and no slot outside the grant. */
  lemma WritingLeaves(r: Ring, m: seq<byte>, n: seq<byte>, path: seq<nat>, lo: int, hi: int, k: int)
    requires r.Configured() && SameExcept(m, n, path, 0, |path|) && OnSlots(r, path, lo, hi)
    requires SlotBase(r.slotSize, r.history) <= |m|
    ensures r.Len(n, k) == r.Len(m, k)
    ensures k < lo <= hi <= k + r.history ==> r.Message(n, k) == r.Message(m, k)
  {
    var p := SlotBase(r.slotSize, Slot(r.history, k));
    SlotsAreDisjoint(r.slotSize, Slot(r.history, k), r.history);
    forall q | p <= q < p + LENGTH_SIZE
      ensures n[q] == m[q]
    {
      if Within(path, 0, |path|, q) {
        var i :| 0 <= i < |path| && path[i] == q;
        assert OnSome(r, lo, hi, path[i]);
        NotInHeader(r, lo, hi, Slot(r.history, k), q);
      }
    }
    if k < lo <= hi <= k + r.history {
      forall q | p + LENGTH_SIZE <= q < p + r.slotSize
        ensures n[q] == m[q]
      {
        if Within(path, 0, |path|, q) {
          var i :| 0 <= i < |path| && path[i] == q;
          assert OnSome(r, lo, hi, path[i]);
          NotInOther(r, lo, hi, k, q);
        }
      }
      assert AreaAt(n, r.slotSize, Slot(r.history, k)) == AreaAt(m, r.slotSize, Slot(r.history, k));
    }
  }

  lemma SameAreaBytes(r: Ring, m: seq<byte>, n: seq<byte>, k: int, p: int)
    requires r.Configured() && SameAreas(r, m, n) && SlotBase(r.slotSize, r.history) <= |m| == |n|
    requires Start(r, k) <= p < Start(r, k) + r.Capacity()
    ensures p < |m| && n[p] == m[p]
  {
    SlotsAreDisjoint(r.slotSize, Slot(r.history, k), r.history);
    assert AreaAt(n, r.slotSize, Slot(r.history, k)) == AreaAt(m, r.slotSize, Slot(r.history, k));
    assert AreaAt(m, r.slotSize, Slot(r.history, k))[p - Start(r, k)] == m[p];
    assert AreaAt(n, r.slotSize, Slot(r.history, k))[p - Start(r, k)] == n[p];
  }

  lemma MessagePrefix(r: Ring, m: seq<byte>, n: seq<byte>, k: int)
    requires r.Configured() && SlotBase(r.slotSize, r.history) <= |m| == |n|
    requires r.Len(m, k) <= r.Len(n, k) <= r.Capacity()
    requires forall p | Start(r, k) <= p < Start(r, k) + r.Len(m, k) && p < |m| :: n[p] == m[p]
    ensures r.Message(m, k) <= r.Message(n, k)
  {
    SlotsAreDisjoint(r.slotSize, Slot(r.history, k), r.history);
    var a, b := AreaAt(m, r.slotSize, Slot(r.history, k)), AreaAt(n, r.slotSize, Slot(r.history, k));
    forall i | 0 <= i < r.Len(m, k)
      ensures r.Message(m, k)[i] == r.Message(n, k)[i]
    {
      assert a[i] == m[Start(r, k) + i] && b[i] == n[Start(r, k) + i];
    }
  }

  lemma MessageHasLength(r: Ring, m: seq<byte>, k: int)
    requires r.Configured() && SlotBase(r.slotSize, r.history) <= |m| && r.Len(m, k) <= r.Capacity()
    ensures |r.Message(m, k)| == r.Len(m, k)
  {
    SlotsAreDisjoint(r.slotSize, Slot(r.history, k), r.history);
  }

  /** Bytes of payload in a whole fragment. */
  function Block(r: Ring): int {
    r.Capacity() - r.offset - SUBHEADER_SIZE
  }

  /** The payload area of a fragment with n bytes in slot k. */
  ghost function FragmentArea(r: Ring, k: int, n: nat): Area
    requires r.history > 0
  {
    var p := Start(r, k) + r.offset + SUBHEADER_SIZE;
    Area(p, p + n)
  }

  lemma FragmentAreaInSlot(r: Ring, k: int, n: nat)
    requires r.Configured() && n <= Block(r)
    ensures var area := FragmentArea(r, k, n);
      Start(r, k) <= area.from <= area.to <= Start(r, k) + r.Capacity() && area.from < Start(r, k) + r.Capacity()
  {}

  /** The payload areas of slots k, k + 1, ..., k + blocks - 1; the last one has `last` bytes. */
  ghost function MoreAreas(r: Ring, k: int, blocks: nat, last: nat): (areas: seq<Area>)
    requires r.Configured() && blocks >= 1
    ensures |areas| == blocks
    decreases blocks
  {
    if blocks == 1 then [FragmentArea(r, k, last)]
    else [FragmentArea(r, k, Block(r))] + MoreAreas(r, k + 1, blocks - 1, last)
  }

  lemma FlatCons(area: Area, rest: seq<Area>)
    requires area.from <= area.to
    ensures Flat([area] + rest) == Range(area.from, area.to) + Flat(rest)
  {
    assert ([area] + rest)[1..] == rest;
  }

  lemma FlatOfNone()
    ensures Flat([]) == []
  {}

  lemma OneMoreBlock(block: int, blocks: int)
    ensures block * (blocks - 1) == block + block * (blocks - 1 - 1)
  {}

  lemma {:induction false} MoreAreasOnSlots(r: Ring, k: int, blocks: nat, last: nat)
    requires r.Configured() && 1 <= blocks <= r.history && last <= Block(r)
    ensures var ps := Flat(MoreAreas(r, k, blocks, last));
      && OnSlots(r, ps, k, k + blocks) && NoDuplicates(ps)
      && |ps| == Block(r) * (blocks - 1) + last
    decreases blocks
  {
    hide IsPowerOfTwo, OnSlots, NoDuplicates, Flat, Start;
    var area := FragmentArea(r, k, if blocks == 1 then last else Block(r));
    RangeOnSlot(r, k, area.from, area.to);
    if blocks == 1 {
      FlatCons(area, []);
      assert [area] + [] == [area];
      FlatOfNone();
      assert Range(area.from, area.to) + [] == Range(area.from, area.to);
    } else {
      var rest := MoreAreas(r, k + 1, blocks - 1, last);
      MoreAreasOnSlots(r, k + 1, blocks - 1, last);
      FlatCons(area, rest);
      OnSlotsConcat(r, Range(area.from, area.to), Flat(rest), k, k + 1, k + blocks);
      OneMoreBlock(Block(r), blocks);
    }
  }

  lemma {:induction false} MoreAreasFit(r: Ring, k: int, blocks: nat, last: nat, size: nat)
    requires r.Configured() && 1 <= blocks && 0 < last <= Block(r) && SlotBase(r.slotSize, r.history) <= size
    ensures AreasFit(MoreAreas(r, k, blocks, last), size, Block(r))
    decreases blocks
  {
    SlotsAreDisjoint(r.slotSize, Slot(r.history, k), r.history);
    hide IsPowerOfTwo;
    if blocks > 1 {
      MoreAreasFit(r, k + 1, blocks - 1, last, size);
    }
  }

  /** The j-th area of a run of fragments. */
  ghost function AnswerAt(r: Ring, k: int, blocks: nat, last: nat, j: nat): Area
    requires r.Configured()
  {
    FragmentArea(r, k + j, if j + 1 == blocks then last else Block(r))
  }

  lemma {:induction false} AnswersAreMoreAreas(r: Ring, k: int, blocks: nat, last: nat, answers: seq<Area>)
    requires r.Configured() && blocks >= 1 && |answers| == blocks
    requires forall j | 0 <= j < blocks :: answers[j] == AnswerAt(r, k, blocks, last, j)
    ensures answers == MoreAreas(r, k, blocks, last)
    decreases blocks
  {
    hide IsPowerOfTwo, FragmentArea;
    assert answers[0] == AnswerAt(r, k, blocks, last, 0);
    if blocks > 1 {
      forall j | 0 <= j < blocks - 1
        ensures answers[1..][j] == AnswerAt(r, k + 1, blocks - 1, last, j)
      {
        assert answers[j + 1] == AnswerAt(r, k, blocks, last, j + 1);
      }
      AnswersAreMoreAreas(r, k + 1, blocks - 1, last, answers[1..]);
      assert answers == [answers[0]] + answers[1..];
    } else {
      assert answers == [answers[0]];
    }
  }

  /** n bytes of slot k, from byte `at` of it on. */
  ghost function Piece(r: Ring, m: seq<byte>, k: int, at: nat, n: int): seq<byte>
    requires r.history > 0
  {
    var area := AreaAt(m, r.slotSize, Slot(r.history, k));
    if 0 <= n && at + n <= |area| then area[at..at + n] else []
  }

  lemma SliceOfSlice(m: seq<byte>, a: nat, b: nat, c: nat, d: nat)
    requires a <= b <= |m| && c <= d <= b - a
    ensures m[a..b][c..d] == m[a + c..a + d]
  {
    var s := m[a..b];
    assert forall i | 0 <= i < d - c :: s[c..d][i] == s[c + i] && s[c + i] == m[a + c..a + d][i];
  }

  lemma PieceIsSlice(r: Ring, m: seq<byte>, k: int, at: nat, n: nat)
    requires r.Configured() && at + n <= r.Capacity() && SlotBase(r.slotSize, r.history) <= |m|
    ensures Start(r, k) + at + n <= |m| && Piece(r, m, k, at, n) == m[Start(r, k) + at..Start(r, k) + at + n]
  {
    SlotsAreDisjoint(r.slotSize, Slot(r.history, k), r.history);
    var p := Start(r, k);
    assert AreaAt(m, r.slotSize, Slot(r.history, k)) == m[p..p + r.Capacity()];
    SliceOfSlice(m, p, p + r.Capacity(), at, at + n);
  }

  lemma HeldRange(m: seq<byte>, first: nat, end: nat, rest: seq<nat>, s: seq<byte>)
    requires first <= end <= |m| && Holds(m, Range(first, end) + rest, 0, s) && |s| == end - first + |rest|
    ensures s[..end - first] == m[first..end] && Holds(m, rest, 0, s[end - first..])
  {
    var path, n := Range(first, end) + rest, end - first;
    forall i | 0 <= i < n
      ensures s[i] == m[first + i]
    {
      assert path[i] == first + i;
    }
    forall i | 0 <= i < |rest|
      ensures rest[i] < |m| && m[rest[i]] == s[n..][i]
    {
      assert path[n + i] == rest[i];
    }
  }

  /** The payload in slots k, k + 1, ..., read slot by slot. */
  ghost function MorePayload(r: Ring, m: seq<byte>, k: int, blocks: nat, last: nat): seq<byte>
    requires r.history > 0 && blocks >= 1
    decreases blocks
  {
    if blocks == 1 then Piece(r, m, k, r.offset + SUBHEADER_SIZE, last)
    else Piece(r, m, k, r.offset + SUBHEADER_SIZE, Block(r)) + MorePayload(r, m, k + 1, blocks - 1, last)
  }

  lemma {:induction false} MorePayloadIsHeld(r: Ring, m: seq<byte>, k: int, blocks: nat, last: nat, s: seq<byte>)
    requires r.Configured() && 1 <= blocks && last <= Block(r) && SlotBase(r.slotSize, r.history) <= |m|
    requires var path := Flat(MoreAreas(r, k, blocks, last)); Holds(m, path, 0, s) && |s| == |path|
    ensures MorePayload(r, m, k, blocks, last) == s
    decreases blocks
  {
    hide IsPowerOfTwo, Holds, Flat, Piece, Start;
    var n := if blocks == 1 then last else Block(r);
    var area := FragmentArea(r, k, n);
    PieceIsSlice(r, m, k, r.offset + SUBHEADER_SIZE, n);
    if blocks == 1 {
      FlatCons(area, []);
      assert [area] + [] == [area];
      FlatOfNone();
      HeldRange(m, area.from, area.to, [], s);
    } else {
      var rest := MoreAreas(r, k + 1, blocks - 1, last);
      FlatCons(area, rest);
      HeldRange(m, area.from, area.to, Flat(rest), s);
      MorePayloadIsHeld(r, m, k + 1, blocks - 1, last, s[n..]);
      assert s == s[..n] + s[n..];
    }
  }

  /** How many of the slots of k, k + 1, ..., k + n - 1 are empty. */
  ghost function CountEmpty(r: Ring, m: seq<byte>, k: int, n: nat): nat
    requires r.history > 0
  {
    if n == 0 then 0
    else CountEmpty(r, m, k, n - 1) + (if r.Len(m, k + n - 1) == r.offset then 1 else 0)
  }

  lemma {:induction false} CountFromNext(r: Ring, m: seq<byte>, k: int, n: nat)
    requires r.history > 0
    ensures CountEmpty(r, m, k, n + 1) == (if r.Len(m, k) == r.offset then 1 else 0) + CountEmpty(r, m, k + 1, n)
  {
    if n > 0 {
      CountFromNext(r, m, k, n - 1);
      assert CountEmpty(r, m, k + 1, n) == CountEmpty(r, m, k + 1, n - 1) + (if r.Len(m, k + n) == r.offset then 1 else 0);
    }
  }

  lemma {:induction false} CountIsTheSameAnywhere(r: Ring, m: seq<byte>, k: int)
    requires r.history > 0
    ensures CountEmpty(r, m, k, r.history) == CountEmpty(r, m, 0, r.history)
    decreases if k < 0 then -k else k
  {
    if k != 0 {
      var j := if k < 0 then k else k - 1;
      CountFromNext(r, m, j, r.history);
      SlotIsPeriodic(r.history, j);
      CountIsTheSameAnywhere(r, m, if k < 0 then k + 1 else k - 1);
    }
  }
}

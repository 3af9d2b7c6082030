/** The bytes of a reassembled message: where they lie in the ring, and what they spell. */
module InputPath {
  import opened Memory
  import opened ReliableRing
  import opened SlotGeometry
  import opened InputWindow
  import opened FragmentChains
  import opened MicroCdr

  /** The payloads of the stored fragments first .. last, one after the other. */
  ghost function Payloads(v: Receiver, first: int, last: int): seq<byte> {
    Joined(v.Run(first, last))
  }

  lemma PayloadsStep(v: Receiver, first: int, last: int)
    requires first <= last + 1 && forall k | first <= k <= last :: k in v.stored
    ensures Payloads(v, first, last) ==
      if first > last then [] else FragmentBytes(v.stored[first]) + Payloads(v, first + 1, last)
  {
    if first <= last {
      assert v.Run(first, last) == [v.stored[first]] + v.Run(first + 1, last);
      assert v.Run(first, last)[1..] == v.Run(first + 1, last);
    }
  }

  /** What a reader gets for the chain first .. last when it skips `skip` bytes of the first. */
  ghost function Reassembled(v: Receiver, first: int, last: int, skip: nat): seq<byte> {
    (if first in v.stored && skip <= |v.stored[first]| then v.stored[first][skip..] else []) + Payloads(v, first + 1, last)
  }

  ghost function ReadArea(r: Ring, m: seq<byte>, k: int): Area
    requires r.history > 0
  {
    Area(Start(r, k) + SUBHEADER_SIZE, Start(r, k) + r.Len(m, k))
  }

  ghost function ReadAreas(r: Ring, m: seq<byte>, first: int, last: int): (areas: seq<Area>)
    requires r.history > 0
    decreases last + 1 - first
  {
    if first > last then [] else [ReadArea(r, m, first)] + ReadAreas(r, m, first + 1, last)
  }

  ghost function ReadPath(r: Ring, m: seq<byte>, first: int, last: int, skip: nat): seq<nat>
    requires r.history > 0
  {
    Ahead(Start(r, first) + skip, Start(r, first) + r.Len(m, first), ReadAreas(r, m, first + 1, last))
  }

  /** Every fragment of a chain is longer than its subheader. */
  ghost predicate Readable(v: Receiver, first: int, last: int) {
    && v.handled < first && last <= v.Edge()
    && forall k | first <= k <= last :: k in v.stored && |v.stored[k]| > SUBHEADER_SIZE
  }

  lemma StoredSlot(v: Receiver, m: seq<byte>, k: int)
    requires v.Window(m) && v.drained == v.handled && v.handled < k <= v.Edge() && k in v.stored
    requires SlotBase(v.ring.slotSize, v.ring.history) <= |m|
    ensures v.ring.history > 0 && v.ring.Len(m, k) == |v.stored[k]| && 0 < |v.stored[k]| <= v.ring.Capacity()
    ensures var p := Start(v.ring, k); p + |v.stored[k]| <= |m| && m[p..p + |v.stored[k]|] == v.stored[k]
  {
    WindowMeans(v, m);
    WindowAt(v, m, k);
    PieceIsSlice(v.ring, m, k, 0, v.ring.Len(m, k));
    SlotsAreDisjoint(v.ring.slotSize, Slot(v.ring.history, k), v.ring.history);
    assert v.ring.Message(m, k) == Piece(v.ring, m, k, 0, v.ring.Len(m, k));
  }

  lemma {:induction false} ReadAreasAreGood(v: Receiver, m: seq<byte>, first: int, last: int)
    requires v.Window(m) && v.drained == v.handled && Readable(v, first, last) && first <= last + 1
    requires SlotBase(v.ring.slotSize, v.ring.history) <= |m|
    ensures v.ring.Configured()
    ensures var areas := ReadAreas(v.ring, m, first, last);
      && |areas| == last + 1 - first
      && AreasFit(areas, |m|, 0)
      && OnSlots(v.ring, Flat(areas), first, last + 1) && NoDuplicates(Flat(areas))
      && Holds(m, Flat(areas), 0, Payloads(v, first, last))
      && |Flat(areas)| == |Payloads(v, first, last)|
    decreases last + 1 - first
  {
    hide IsPowerOfTwo, OnSlots, NoDuplicates, Flat, Start, Holds, LenAt, AreaAt, Receiver.Window, Payloads;
    WindowMeans(v, m);
    PayloadsStep(v, first, last);
    if first > last {
      NoAreas(v.ring, m, first);
    } else {
      var area, rest := ReadArea(v.ring, m, first), ReadAreas(v.ring, m, first + 1, last);
      StoredSlot(v, m, first);
      ReadAreasAreGood(v, m, first + 1, last);
      RangeOnSlot(v.ring, first, area.from, area.to);
      FlatCons(area, rest);
      OnSlotsConcat(v.ring, Range(area.from, area.to), Flat(rest), first, first + 1, last + 1);
      var n := |v.stored[first]|;
      SliceOfSlice(m, Start(v.ring, first), Start(v.ring, first) + n, SUBHEADER_SIZE, n);
      HeldConcat(m, area.from, area.to, Flat(rest), FragmentBytes(v.stored[first]), Payloads(v, first + 1, last));
      MoreAreasFitToo(area, rest, |m|);
    }
  }

  lemma MoreAreasFitToo(area: Area, rest: seq<Area>, size: nat)
    requires area.from < area.to <= size && AreasFit(rest, size, 0)
    ensures AreasFit([area] + rest, size, 0)
  {}

  lemma NoAreas(r: Ring, m: seq<byte>, first: int)
    requires r.history > 0
    ensures Flat([]) == [] && OnSlots(r, [], first, first) && NoDuplicates([]) && Holds(m, [], 0, [])
    ensures AreasFit([], |m|, 0)
  {}

  lemma HeldConcat(m: seq<byte>, first: nat, end: nat, rest: seq<nat>, s: seq<byte>, t: seq<byte>)
    requires first <= end <= |m| && s == m[first..end] && Holds(m, rest, 0, t) && |t| == |rest|
    ensures Holds(m, Range(first, end) + rest, 0, s + t)
  {
    var path, n := Range(first, end) + rest, end - first;
    forall i | 0 <= i < n + |t|
      ensures path[i] < |m| && m[path[i]] == (s + t)[i]
    {
      if i < n {
        assert path[i] == first + i;
      } else {
        assert path[i] == rest[i - n];
      }
    }
  }

  /** Reassembly: the path of a chain holds the payloads of its fragments, in order. */
  lemma ReadPathIsGood(v: Receiver, m: seq<byte>, first: int, last: int, skip: nat)
    requires v.Window(m) && v.drained == v.handled && v.handled < first <= last <= v.Edge() && first in v.stored
    requires skip <= |v.stored[first]| && Readable(v, first + 1, last)
    requires SlotBase(v.ring.slotSize, v.ring.history) <= |m|
    ensures v.ring.Configured()
    ensures var path := ReadPath(v.ring, m, first, last, skip);
      && NoDuplicates(path) && Holds(m, path, 0, Reassembled(v, first, last, skip))
      && |path| == |Reassembled(v, first, last, skip)|
    ensures Start(v.ring, first) + v.ring.Len(m, first) <= |m| && skip <= v.ring.Len(m, first) == |v.stored[first]|
    ensures AreasFit(ReadAreas(v.ring, m, first + 1, last), |m|, 0)
    ensures |ReadAreas(v.ring, m, first + 1, last)| == last - first
  {
    hide IsPowerOfTwo, OnSlots, NoDuplicates, Flat, Start, Holds, LenAt, AreaAt, Receiver.Window;
    WindowMeans(v, m);
    StoredSlot(v, m, first);
    ReadAreasAreGood(v, m, first + 1, last);
    var n, a := |v.stored[first]|, Start(v.ring, first) + skip;
    var b := Start(v.ring, first) + n;
    var rest := ReadAreas(v.ring, m, first + 1, last);
    RangeOnSlot(v.ring, first, a, b);
    OnSlotsConcat(v.ring, Range(a, b), Flat(rest), first, first + 1, last + 1);
    SliceOfSlice(m, Start(v.ring, first), b, skip, n);
    HeldConcat(m, a, b, Flat(rest), v.stored[first][skip..], Payloads(v, first + 1, last));
  }

  lemma ReadPathOnSlots(v: Receiver, m: seq<byte>, first: int, last: int, skip: nat)
    requires v.Window(m) && v.drained == v.handled && v.handled < first <= last <= v.Edge() && first in v.stored
    requires skip <= |v.stored[first]| && Readable(v, first + 1, last)
    requires SlotBase(v.ring.slotSize, v.ring.history) <= |m|
    ensures v.ring.history > 0 && OnSlots(v.ring, ReadPath(v.ring, m, first, last, skip), first, last + 1)
  {
    hide IsPowerOfTwo, OnSlots, NoDuplicates, Flat, Start, Holds, LenAt, AreaAt, Receiver.Window;
    WindowMeans(v, m);
    StoredSlot(v, m, first);
    ReadAreasAreGood(v, m, first + 1, last);
    var a, b := Start(v.ring, first) + skip, Start(v.ring, first) + |v.stored[first]|;
    RangeOnSlot(v.ring, first, a, b);
    OnSlotsConcat(v.ring, Range(a, b), Flat(ReadAreas(v.ring, m, first + 1, last)), first, first + 1, last + 1);
  }

  /** The j-th area of a chain. */
  lemma {:induction false} AnswersAreReadAreas(r: Ring, m: seq<byte>, first: int, last: int, answers: seq<Area>)
    requires r.history > 0 && first <= last + 1 && |answers| == last + 1 - first
    requires forall j | 0 <= j < |answers| :: answers[j] == ReadArea(r, m, first + j)
    ensures answers == ReadAreas(r, m, first, last)
    decreases last + 1 - first
  {
    if first <= last {
      assert answers[0] == ReadArea(r, m, first + 0);
      forall j | 0 <= j < |answers[1..]|
        ensures answers[1..][j] == ReadArea(r, m, first + 1 + j)
      {
        assert answers[j + 1] == ReadArea(r, m, first + (j + 1));
      }
      AnswersAreReadAreas(r, m, first + 1, last, answers[1..]);
      assert answers == [answers[0]] + answers[1..];
    }
  }

  /** The slots that are delivered but not drained still hold fragments. */
  ghost predicate Occupied(v: Receiver, m: seq<byte>)
    requires v.ring.history > 0
  {
    var holds := forall j | v.drained < j <= v.handled :: SUBHEADER_SIZE < v.ring.Len(m, j) <= v.ring.Capacity();
    holds
  }

  lemma SameReadArea(r: Ring, m: seq<byte>, n: seq<byte>, k: int)
    requires r.history > 0 && r.Len(m, k) == r.Len(n, k)
    ensures ReadArea(r, m, k) == ReadArea(r, n, k)
  {}

  lemma {:induction false} SameReadAreas(r: Ring, m: seq<byte>, n: seq<byte>, first: int, last: int)
    requires r.history > 0 && forall j | first <= j <= last :: r.Len(m, j) == r.Len(n, j)
    ensures ReadAreas(r, m, first, last) == ReadAreas(r, n, first, last)
    decreases last + 1 - first
  {
    if first <= last {
      SameReadAreas(r, m, n, first + 1, last);
    }
  }

  lemma {:induction false} ReadAreasPrefix(r: Ring, m: seq<byte>, first: int, mid: int, last: int)
    requires r.history > 0 && mid <= last
    ensures ReadAreas(r, m, first, mid) <= ReadAreas(r, m, first, last)
    decreases last + 1 - first
  {
    if first <= mid {
      ReadAreasPrefix(r, m, first + 1, mid, last);
    }
  }

  lemma {:induction false} ReadAreasCount(r: Ring, m: seq<byte>, first: int, last: int)
    requires r.history > 0 && first <= last + 1
    ensures |ReadAreas(r, m, first, last)| == last + 1 - first
    decreases last + 1 - first
  {
    if first <= last {
      ReadAreasCount(r, m, first + 1, last);
    }
  }
}

/** Where uxr_prepare_reliable_buffer_to_write lets the next message go. */
module OutputGrant {
  import opened SeqNum
  import opened Memory
  import opened ReliableRing
  import opened SlotGeometry
  import opened OutputWindow
  import MicroCdr

  /** A refusal, room in one slot after `at` bytes of it, or a run of fragments: `blocks` slots
      filled to the end, the first one from `at` on, and a last one with `last` bytes. */
  datatype Grant =
    | Refused
    | InSlot(k: int, at: nat)
    | InFragments(first: int, at: nat, blocks: nat, last: nat)
  {
    /** The sequence number that is open afterwards. */
    function Last(): int
      requires !Refused?
    {
      if InSlot? then k else first + blocks
    }

    function First(): int
      requires !Refused?
    {
      if InSlot? then k else first
    }
  }

  function BlocksFor(rest: int, block: nat): nat
    requires block > 0
  {
    if rest <= 0 then 0 else if rest % block == 0 then rest / block else rest / block + 1
  }

  function LastFor(rest: int, block: nat): nat
    requires block > 0
  {
    if rest % block == 0 then block else rest % block
  }

  /** Empty slots of the ring, by the window: those after the open one, and that one if empty. */
  ghost function FreeSlots(v: Sender, m: seq<byte>): int
    requires v.ring.history > 0
  {
    if v.written > v.acked + v.ring.history then 0
    else v.acked + v.ring.history - v.written + (if v.ring.Len(m, v.written) == v.ring.offset then 1 else 0)
  }

  ghost function OpenSize(v: Sender, m: seq<byte>): nat
    requires v.ring.history > 0
  {
    var n := v.ring.Len(m, v.written);
    n + MicroCdr.Padding(n, 4)
  }

  /** The decision in unbounded counters. */
  ghost function GrantFor(v: Sender, m: seq<byte>, length: nat): Grant
    requires v.ring.Configured()
  {
    var size, edge := OpenSize(v, m), v.acked + v.ring.history;
    if size + length <= v.ring.Capacity() then
      if v.written <= edge then InSlot(v.written, size) else Refused
    else if v.ring.offset + length <= v.ring.Capacity() then
      if v.written + 1 <= edge then InSlot(v.written + 1, v.ring.offset) else Refused
    else if length <= Block(v.ring) * FreeSlots(v, m) then
      var full := size + SUBHEADER_SIZE >= v.ring.Capacity();
      var at := if full then v.ring.offset else size;
      var rest := length - (v.ring.Capacity() - at - SUBHEADER_SIZE);
      InFragments(if full then v.written + 1 else v.written, at, BlocksFor(rest, Block(v.ring)), LastFor(rest, Block(v.ring)))
    else Refused
  }

  lemma DivisionLaw(x: nat, d: nat)
    requires d > 0
    ensures x == d * (x / d) + x % d && 0 <= x % d < d
  {}

  lemma CeilingBound(rest: nat, block: nat, free: nat)
    requires block > 0 && rest > 0
    ensures rest <= block * free <==> BlocksFor(rest, block) <= free
    ensures rest == block * (BlocksFor(rest, block) - 1) + LastFor(rest, block)
    ensures 0 < LastFor(rest, block) <= block
    ensures BlocksFor(rest, block) >= 1
  {
    DivisionLaw(rest, block);
    var q := rest / block;
    ProductOrder(q, free, block);
    ProductOrder(q + 1, free, block);
    assert block * (q + 1) == block * q + block;
    assert block * (q + 1 - 1) == block * q;
    assert block * (q - 1) == block * q - block;
  }

  lemma ProductOrder(a: int, b: int, block: nat)
    requires block > 0
    ensures a <= b ==> block * a <= block * b
    ensures a > b ==> block * a >= block * b + block
  {
    if a < b {
      ProductGrows(b - a, block);
      ProductOfDifference(b, a, block);
    } else if a > b {
      ProductGrows(a - b, block);
      ProductOfDifference(a, b, block);
    }
  }

  /** The arithmetic of the fragmented case: `first` bytes go into the first slot. */
  lemma FragmentArithmetic(block: nat, first: nat, length: nat, free: nat)
    requires 0 < first <= block && first < length <= block * free
    ensures var n, last := BlocksFor(length - first, block), LastFor(length - first, block);
      && 1 <= n <= free && 0 < last <= block
      && (first == block ==> n <= free - 1)
      && length == first + block * (n - 1) + last
  {
    ProductOrder(free, 0, block);
    assert free > 0;
    CeilingBound(length - first, block, free);
    CeilingBound(length - first, block, free - 1);
    ProductOrder(free - 1, free, block);
    assert block * (free - 1) == block * free - block;
  }

  /** Alignment leaves an empty slot as it is, because the header offset is a multiple of 4. */
  lemma EmptySlotIsAligned(v: Sender, m: seq<byte>)
    requires v.ring.Configured()
    ensures v.ring.Len(m, v.written) == v.ring.offset ==> OpenSize(v, m) == v.ring.offset
    ensures OpenSize(v, m) >= v.ring.Len(m, v.written)
  {}

  /** What a grant promises, whatever the request. */
  ghost predicate GrantFits(v: Sender, m: seq<byte>, length: nat, g: Grant)
    requires v.ring.Configured()
  {
    && (!g.Refused? ==> v.sent < v.written <= g.First() <= g.Last() <= v.acked + v.ring.history)
    && (!g.Refused? ==> g.at >= v.ring.offset && g.at >= v.ring.Len(m, g.First()))
    && (!g.Refused? && g.First() > v.written ==> g.First() == v.written + 1 && g.at == v.ring.offset && v.ring.offset < v.ring.Len(m, v.written))
    && (g.InSlot? ==> g.at + length <= v.ring.Capacity())
    && (g.InFragments? ==> g.blocks >= 1 && 0 < g.last <= Block(v.ring) && g.at + SUBHEADER_SIZE < v.ring.Capacity())
    && (g.InFragments? ==> length == (v.ring.Capacity() - g.at - SUBHEADER_SIZE) + Block(v.ring) * (g.blocks - 1) + g.last)
  }

  /** The guard is enough: whatever is granted stays inside the window, on slots that were
      never sent, and the sizes add up to the request with every fragment non-empty. */
  lemma GrantStaysInWindow(v: Sender, m: seq<byte>, length: nat)
    requires v.Window(m) && length > 0
    ensures v.ring.Configured() && GrantFits(v, m, length, GrantFor(v, m, length))
    ensures GrantFor(v, m, length).InFragments? ==> GrantFor(v, m, length).blocks <= FreeSlots(v, m)
  {
    WindowMeans(v, m);
    if v.written <= v.acked + v.ring.history {
      WindowAt(v, m, v.written);
    }
    if v.written + 1 <= v.acked + v.ring.history {
      WindowAt(v, m, v.written + 1);
    }
    EmptySlotIsAligned(v, m);
    hide Sender.Window, OpenSize, Ring.Len, BlocksFor, LastFor, IsPowerOfTwo;
    var g := GrantFor(v, m, length);
    if g.InFragments? {
      if FreeSlots(v, m) <= 0 {
        ProductOrder(FreeSlots(v, m), 0, Block(v.ring));
      }
      FragmentArithmetic(Block(v.ring), v.ring.Capacity() - g.at - SUBHEADER_SIZE, length, FreeSlots(v, m));
    }
  }

  /** The later test of the source, `necessary_complete_blocks <= remaining_blocks`, would not
      be enough alone: with an empty open slot it also lets through requests that are up to
      one block too long, whose last fragment would take the first slot past the window. */
  lemma LaterTestAloneIsTooWeak(v: Sender, m: seq<byte>, length: nat)
    requires v.Window(m) && v.ring.Configured() && v.written <= v.acked + v.ring.history
    requires v.ring.Len(m, v.written) == v.ring.offset && v.ring.offset + length > v.ring.Capacity()
    requires Block(v.ring) * FreeSlots(v, m) < length <= Block(v.ring) * (FreeSlots(v, m) + 1)
    ensures GrantFor(v, m, length).Refused?
    ensures var blocks := BlocksFor(length - Block(v.ring), Block(v.ring));
      blocks <= FreeSlots(v, m) && v.written + blocks == v.acked + v.ring.history + 1
  {
    EmptySlotIsAligned(v, m);
    hide Sender.Window, OpenSize, Ring.Len, IsPowerOfTwo;
    var free := FreeSlots(v, m);
    OneBlockMore(Block(v.ring), free);
    CeilingBound(length - Block(v.ring), Block(v.ring), free);
    CeilingBound(length - Block(v.ring), Block(v.ring), free - 1);
  }

  lemma OneBlockMore(block: int, n: int)
    ensures block * (n + 1) == block * n + block && block * (n - 1) == block * n - block
  {}

  lemma {:induction false} CountInWindow(v: Sender, m: seq<byte>, n: nat)
    requires v.Window(m) && v.ring.history > 0 && n <= v.ring.history
    ensures CountEmpty(v.ring, m, v.acked + 1, n) ==
      if v.acked + n < v.written then 0
      else v.acked + n - v.written + (if v.ring.Len(m, v.written) == v.ring.offset then 1 else 0)
  {
    WindowMeans(v, m);
    if n > 0 {
      CountInWindow(v, m, n - 1);
      WindowAt(v, m, v.acked + n);
    }
  }

  /** get_available_free_slots counts what the window says is free. */
  lemma CountIsFreeSlots(v: Sender, m: seq<byte>)
    requires v.Window(m) && v.ring.history > 0
    ensures CountEmpty(v.ring, m, 0, v.ring.history) == FreeSlots(v, m)
  {
    CountIsTheSameAnywhere(v.ring, m, v.acked + 1);
    CountInWindow(v, m, v.ring.history);
  }

  /** Up to the next multiple of 4. */
  lemma AlignedUp(n: nat)
    ensures n + MicroCdr.Padding(n, 4) == (n + 3) / 4 * 4
  {}

  /** When a message is accepted, told from lengths and empty slots: it fits fragments over the
      empty slots, or one empty slot without a subheader, or the open slot, if that lies inside
      the window, behind its length up to a multiple of 4. */
  lemma AcceptedExactly(v: Sender, m: seq<byte>, length: nat)
    requires v.Window(m) && length > 0
    ensures v.ring.Configured() && v.ring.history > 0
    ensures var r, empty := v.ring, CountEmpty(v.ring, m, 0, v.ring.history);
      !GrantFor(v, m, length).Refused? <==>
        || length <= (r.Capacity() - r.offset - SUBHEADER_SIZE) * empty
        || (empty > 0 && r.offset + length <= r.Capacity())
        || (v.written <= v.acked + r.history && (r.Len(m, v.written) + 3) / 4 * 4 + length <= r.Capacity())
  {
    WindowMeans(v, m);
    CountIsFreeSlots(v, m);
    AlignedUp(v.ring.Len(m, v.written));
    EmptySlotIsAligned(v, m);
    if v.written <= v.acked + v.ring.history {
      WindowAt(v, m, v.written);
    }
    hide Sender.Window, Ring.Len, BlocksFor, LastFor, IsPowerOfTwo, CountEmpty;
    ProductOrder(FreeSlots(v, m), 0, Block(v.ring));
    ProductOrder(FreeSlots(v, m), 1, Block(v.ring));
  }

  /** The block that a slot takes in fragments is smaller than the slot: with one slot left behind
      an open slot in use, a message of up to a subheader more than that block is accepted too. */
  lemma OneSlotTakesMoreThanABlock(v: Sender, m: seq<byte>, length: nat)
    requires v.Window(m) && v.ring.Configured() && v.ring.history > 0
    requires CountEmpty(v.ring, m, 0, v.ring.history) == 1 && v.ring.Len(m, v.written) > v.ring.offset
    requires Block(v.ring) < length <= Block(v.ring) + SUBHEADER_SIZE
    requires (v.ring.Len(m, v.written) + 3) / 4 * 4 + length > v.ring.Capacity()
    ensures GrantFor(v, m, length) == InSlot(v.written + 1, v.ring.offset) && v.written + 1 == v.acked + v.ring.history
  {
    CountIsFreeSlots(v, m);
    AlignedUp(v.ring.Len(m, v.written));
    hide Sender.Window, Ring.Len, BlocksFor, LastFor, IsPowerOfTwo, CountEmpty;
  }

  /** Where an accepted message goes: as few slots as there can be, from the open one on if that has
      room for more than a subheader. */
  lemma AcceptedWhere(v: Sender, m: seq<byte>, length: nat)
    requires v.Window(m) && length > 0 && v.ring.Configured() && !GrantFor(v, m, length).Refused?
    ensures var g, r, at := GrantFor(v, m, length), v.ring, (v.ring.Len(m, v.written) + 3) / 4 * 4;
      && (at + length <= r.Capacity() ==> g == InSlot(v.written, at))
      && (at + length > r.Capacity() >= r.offset + length ==> g == InSlot(v.written + 1, r.offset))
      && (r.offset + length > r.Capacity() ==> g.InFragments?)
      && (g.InFragments? && at + SUBHEADER_SIZE < r.Capacity() ==> g.first == v.written && g.at == at)
      && (g.InFragments? && at + SUBHEADER_SIZE >= r.Capacity() ==> g.first == v.written + 1 && g.at == r.offset)
      && (g.InFragments? ==>
            var rest := length - (r.Capacity() - g.at - SUBHEADER_SIZE); var block := r.Capacity() - r.offset - SUBHEADER_SIZE;
            && g.blocks > 0 && rest == block * (g.blocks - 1) + g.last && 0 < g.last <= block)
  {
    AlignedUp(v.ring.Len(m, v.written));
    GrantStaysInWindow(v, m, length);
    EmptySlotIsAligned(v, m);
    if v.written <= v.acked + v.ring.history {
      WindowAt(v, m, v.written);
    }
    hide Sender.Window, Ring.Len, BlocksFor, LastFor, IsPowerOfTwo;
  }
}

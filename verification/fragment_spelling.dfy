/** What the fragments of a written message spell, from the slots of the ring to the bodies that
    a reader puts together. */
module FragmentSpelling {
  import opened Memory
  import opened ReliableRing
  import opened SlotGeometry
  import opened OutputWindow
  import opened OutputGrant
  import opened OutputPath
  import opened FragmentChains

  /** The message in slot k behind its header. */
  ghost function BodyAt(r: Ring, m: seq<byte>, k: int): seq<byte>
    requires r.history > 0
  {
    BodyOf(r.Message(m, k), r.offset)
  }

  /** Bytes of a slot, seen from the body of its message. */
  lemma PieceOfBody(r: Ring, m: seq<byte>, k: int, at: nat, n: nat)
    requires r.Configured() && SlotBase(r.slotSize, r.history) <= |m|
    requires r.offset <= at && at + n <= r.Len(m, k) <= r.Capacity()
    ensures |BodyAt(r, m, k)| == r.Len(m, k) - r.offset
    ensures Piece(r, m, k, at, n) == BodyAt(r, m, k)[at - r.offset..at - r.offset + n]
  {
    SlotsAreDisjoint(r.slotSize, Slot(r.history, k), r.history);
    var area, size := AreaAt(m, r.slotSize, Slot(r.history, k)), r.Len(m, k);
    assert |area| == r.Capacity() && r.Message(m, k) == area[..size];
    assert area[..size][r.offset..] == area[r.offset..size];
    SliceOfSlice(area, r.offset, size, at - r.offset, at - r.offset + n);
  }

  lemma FragmentPiece(r: Ring, m: seq<byte>, k: int, n: nat)
    requires r.Configured() && SlotBase(r.slotSize, r.history) <= |m|
    requires n <= Block(r) && r.Len(m, k) == r.offset + SUBHEADER_SIZE + n
    ensures FragmentBytes(BodyAt(r, m, k)) == Piece(r, m, k, r.offset + SUBHEADER_SIZE, n)
  {
    hide IsPowerOfTwo, LenAt, AreaAt, BodyAt, Piece;
    PieceOfBody(r, m, k, r.offset + SUBHEADER_SIZE, n);
  }

  lemma {:induction false} MorePayloadIsJoined(r: Ring, m: seq<byte>, k: int, blocks: nat, last: nat,
      log: seq<seq<byte>>)
    requires r.Configured() && blocks >= 1 && 0 < last <= Block(r) && SlotBase(r.slotSize, r.history) <= |m|
    requires 0 <= k && k + blocks <= |log| && forall i | k <= i < k + blocks :: log[i] == BodyAt(r, m, i)
    requires forall i | k <= i < k + blocks - 1 :: r.Len(m, i) == r.Capacity()
    requires r.Len(m, k + blocks - 1) == r.offset + SUBHEADER_SIZE + last
    ensures Joined(log[k..k + blocks]) == MorePayload(r, m, k, blocks, last)
    decreases blocks
  {
    hide IsPowerOfTwo, LenAt, AreaAt, Piece, BodyAt, FragmentBytes, Joined;
    FragmentPiece(r, m, k, if blocks == 1 then last else Block(r));
    JoinedSlice(log, k, k + blocks);
    if blocks > 1 {
      MorePayloadIsJoined(r, m, k + 1, blocks - 1, last, log);
    } else {
      JoinedOfNone(log, k + 1);
    }
  }

  lemma JoinedOfNone(log: seq<seq<byte>>, k: nat)
    requires k <= |log|
    ensures Joined(log[k..k]) == []
  {}

  lemma {:induction false} JoinedOfTwo(a: seq<seq<byte>>, b: seq<seq<byte>>)
    ensures Joined(a + b) == Joined(a) + Joined(b)
  {
    hide FragmentBytes;
    if a == [] {
      assert a + b == b;
    } else {
      JoinedOfTwo(a[1..], b);
      assert (a + b)[1..] == a[1..] + b;
    }
  }

  /** Bytes appended to the last part come last. */
  lemma JoinedGrows(parts: seq<seq<byte>>, part: seq<byte>, more: seq<byte>)
    requires |part| >= SUBHEADER_SIZE
    ensures Joined(parts + [part + more]) == Joined(parts + [part]) + more
  {
    hide Joined;
    JoinedOfTwo(parts, [part]);
    JoinedOfTwo(parts, [part + more]);
    JoinedOfOne(part);
    JoinedOfOne(part + more);
    assert (part + more)[SUBHEADER_SIZE..] == part[SUBHEADER_SIZE..] + more;
  }

  lemma JoinedOfOne(part: seq<byte>)
    ensures Joined([part]) == FragmentBytes(part)
  {
    assert [part][1..] == [];
  }

  lemma FragmentLengths(v: Sender, m: seq<byte>, n: seq<byte>, length: nat, g: Grant)
    requires v.ring.Configured() && v.Counters() && GrantFits(v, m, length, g) && g.InFragments?
    requires LengthsGranted(v, m, n, length, g)
    ensures 0 <= g.first && g.blocks >= 1 && 0 < g.last <= Block(v.ring)
    ensures v.ring.offset <= g.at < v.ring.Capacity() - SUBHEADER_SIZE
    ensures forall k | g.first <= k < g.first + g.blocks :: v.ring.Len(n, k) == v.ring.Capacity()
    ensures v.ring.Len(n, g.first + g.blocks) == v.ring.offset + SUBHEADER_SIZE + g.last
  {}

  lemma PayloadOfFragments(v: Sender, m: seq<byte>, length: nat, g: Grant)
    requires v.ring.history > 0 && g.InFragments? && g.blocks >= 1
    ensures Payload(v, m, length, g) ==
      Piece(v.ring, m, g.first, g.at + SUBHEADER_SIZE, v.ring.Capacity() - g.at - SUBHEADER_SIZE)
      + MorePayload(v.ring, m, g.first + 1, g.blocks, g.last)
  {
    hide Piece, MorePayload;
  }

  /** Right after a grant: what a reader would put together is what the first slot held before,
      without its first four bytes and with a subheader at its end, and then the payload. */
  lemma GrantJoined(v: Sender, m: seq<byte>, n: seq<byte>, length: nat, g: Grant, log: seq<seq<byte>>)
    requires v.ring.Configured() && v.Counters() && GrantFits(v, m, length, g) && g.InFragments?
    requires LengthsGranted(v, m, n, length, g) && SlotBase(v.ring.slotSize, v.ring.history) <= |n|
    requires g.Last() < |log| && forall i | g.first <= i <= g.Last() :: log[i] == BodyAt(v.ring, n, i)
    ensures 0 <= g.first && 0 <= g.at - v.ring.offset && SUBHEADER_SIZE + g.at - v.ring.offset <= |log[g.first]|
    ensures Joined(log[g.first..g.Last() + 1]) ==
      log[g.first][SUBHEADER_SIZE..SUBHEADER_SIZE + g.at - v.ring.offset] + Payload(v, n, length, g)
  {
    hide IsPowerOfTwo, LenAt, AreaAt, Piece, BodyAt, LengthsGranted, GrantFits, Joined, Payload, MorePayload;
    FragmentLengths(v, m, n, length, g);
    PayloadOfFragments(v, n, length, g);
    MorePayloadIsJoined(v.ring, n, g.first + 1, g.blocks, g.last, log);
    JoinedSlice(log, g.first, g.Last() + 1);
    PieceOfBody(v.ring, n, g.first, g.at + SUBHEADER_SIZE, v.ring.Capacity() - g.at - SUBHEADER_SIZE);
    var body, cut := log[g.first], SUBHEADER_SIZE + g.at - v.ring.offset;
    assert body[SUBHEADER_SIZE..] == body[SUBHEADER_SIZE..cut] + body[cut..];
  }

  /** The fragments of a grant are as `Chained` asks: no more than the sender has slots, each
      with bytes behind its subheader. */
  lemma GrantMakesAChain(v: Sender, m: seq<byte>, n: seq<byte>, length: nat, g: Grant)
    requires v.ring.Configured() && v.Counters() && GrantFits(v, m, length, g) && g.InFragments?
    requires LengthsGranted(v, m, n, length, g) && SlotBase(v.ring.slotSize, v.ring.history) <= |n|
    ensures g.Last() - g.First() + 1 <= v.ring.history
    ensures forall k | g.First() <= k <= g.Last() :: |BodyAt(v.ring, n, k)| > SUBHEADER_SIZE
  {
    hide IsPowerOfTwo, LenAt, AreaAt, LengthsGranted, Piece, BodyAt;
    FragmentLengths(v, m, n, length, g);
    forall k | g.First() <= k <= g.Last()
      ensures |BodyAt(v.ring, n, k)| > SUBHEADER_SIZE
    {
      PieceOfBody(v.ring, n, k, v.ring.offset, 0);
    }
  }
}

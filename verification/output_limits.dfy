/** Where the output stream comes to its limits: a writer that goes past its grant. */
module OutputLimits {
  import opened Memory
  import opened ReliableRing
  import opened SlotGeometry
  import opened OutputWindow
  import opened OutputStream
  import opened MicroCdr

  /** Behind the open slot comes an empty one, or the oldest slot of a window that is used up: only
      there can a subheader have room. */
  lemma PastTheGrant(v: Sender, m: seq<byte>)
    requires v.Window(m) && v.written <= v.acked + v.ring.history
    ensures v.ring.history > 0 && v.ring.Len(m, v.written + 1) >= v.ring.offset
    ensures v.ring.Len(m, v.written + 1) >= v.ring.offset + SUBHEADER_SIZE <==>
      v.written == v.acked + v.ring.history && v.ring.Len(m, v.acked + 1) >= v.ring.offset + SUBHEADER_SIZE
  {
    hide LenAt, AreaAt, IsPowerOfTwo;
    WindowMeans(v, m);
    if v.written < v.acked + v.ring.history {
      WindowAt(v, m, v.written + 1);
    } else {
      WindowAt(v, m, v.acked + 1);
      SlotIsPeriodic(v.ring.history, v.acked + 1);
    }
  }

  /** The call that the writer of a fragmented message makes when it goes past its grant, which ends
      with the open slot: it gets no error but an area, of the size the next slot has room for if
      that slot is the oldest one of a full window and holds a subheader, and of 2^32 bytes more
      otherwise. */
  method GoPastTheGrant(stream: OutputReliableStream, init: nat) returns (area: Area)
    requires stream.Valid() && stream.written <= stream.acked + stream.base.history
    requires var r := stream.View().ring;
      Start(r, stream.written) <= init < Start(r, stream.written) + r.Capacity()
    ensures stream.View().ring.history > 0
    ensures var v, m := stream.View(), stream.base.buffer[..];
      var room := v.ring.Len(m, v.written + 1) - v.ring.offset - SUBHEADER_SIZE;
      && area.from == Start(v.ring, v.written + 1) + v.ring.offset + SUBHEADER_SIZE
      && (area.to - area.from == room <==>
            v.written == v.acked + v.ring.history && v.ring.Len(m, v.acked + 1) >= v.ring.offset + SUBHEADER_SIZE)
      && (area.to - area.from != room ==> area.to - area.from == room + 0x1_0000_0000)
  {
    hide OutputReliableStream.Valid, Sender.Window, IsPowerOfTwo, LenAt, AreaAt, ReliableStream.Valid;
    stream.ValidMeans();
    PastTheGrant(stream.View(), stream.base.buffer[..]);
    area := stream.OnFullOutput(init, stream.written);
  }
}

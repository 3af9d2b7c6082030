/** A sample from its serialiser to the deserialiser at the other end of a reliable stream. */
module SampleDelivery {
  import opened Memory
  import opened MicroCdr
  import opened CdrTokens
  import opened SampleTypes
  import opened WireFormat
  import opened OutputWindow
  import opened OutputGrant
  import opened Protocol
  import opened ProtocolMemory
  import opened ProtocolMessages
  import opened ProtocolTags
  import opened ProtocolArrivals

  import InputWindow
  import SampleCodec

  /** The message is what a writer without an error left along its path for the value. */
  ghost predicate Encodes(w: Log, s: State, m: seq<byte>, value: DataRepresentation, message: seq<byte>) {
    && Written(w, s, m) && !s.error && w.tokens == TokensOf(value)
    && s.pos == w.start.pos + |message| <= |w.start.path| && Holds(m, w.start.path, w.start.pos, message)
  }

  /** A reading buffer over these contents, however they are cut into areas, that has come to
      their byte j, with the byte order and (modulo 8) the offset of the writer. */
  ghost predicate StandsAt(r: State, n: seq<byte>, contents: seq<byte>, j: nat, start: State) {
    && !r.error && r.pos == j && |contents| <= |r.path| && Holds(n, r.path, 0, contents)
    && r.offset % 8 == start.offset % 8 && r.endianness == start.endianness
  }

  lemma EncodedIsAhead(w: Log, s: State, m: seq<byte>, value: DataRepresentation, message: seq<byte>,
      r: State, n: seq<byte>, contents: seq<byte>, j: nat)
    requires Encodes(w, s, m, value, message) && StandsAt(r, n, contents, j, w.start)
    requires j + |message| <= |contents| && contents[j..j + |message|] == message
    ensures Spells(r, n, TokensOf(value))
  {
    hide Written, Spells, TokensOf;
    HeldWithin(n, r.path, 0, contents, j, |message|);
    SampleCodec.WrittenIsSpelled(w, s, m, r, n, message);
  }

  /** Whatever the network did: once the receiver has handled the last slot of a message that
      encodes a value and does not start as fragments behind something else, the reader was given
      contents in which the tokens of the value lie ahead of a buffer that has come to the right
      place. */
  lemma SampleArrives(kindOf: InputWindow.KindOf, w: World, m: seq<byte>, tags: Tags, c: Call, calls: seq<Call>,
      u: World, n: seq<byte>, log: Log, s: State, mem: seq<byte>, value: DataRepresentation) returns (i: nat, j: nat)
    requires WrittenInRun(kindOf, w, m, tags, c, calls, u, n) && !GrantOf(w, m, c).Refused?
    requires StartsAlone(w.sender.ring.offset, GrantOf(w, m, c)) && GrantOf(w, m, c).Last() <= u.receiver.handled
    requires Encodes(log, s, mem, value, c.message)
    ensures i < |u.read|
    ensures forall r, n' | StandsAt(r, n', u.read[i], j, log.start) ::
      Spells(r, n', TokensOf(value)) && RepresentationAt(StreamOf(r, n'), r.offset, value)
  {
    hide WrittenThen, Encodes, RepresentationAt, Spells, TokensOf, GrantOf, Sender.Wire, Fits, Tidy, StartsAlone;
    hide HomeOf;
    i, j := MessageIsRead(kindOf, w, m, tags, c, calls, u, n);
    forall r, n' | StandsAt(r, n', u.read[i], j, log.start)
      ensures Spells(r, n', TokensOf(value)) && RepresentationAt(StreamOf(r, n'), r.offset, value)
    {
      EncodedIsAhead(log, s, mem, value, c.message, r, n', u.read[i], j);
      RepresentationIsSpelled(r, n', value);
    }
  }
}

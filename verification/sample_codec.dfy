/** Serialising and reading back the sample family (srcs/serialization/xrce_types.c), over one
    area or over a chain of them.  A writer adds the tokens of its argument to the log of what
    was written; a reader gives the value whose tokens lie ahead and leaves what follows it. */
module SampleCodec {
  import opened SeqNum
  import opened Memory
  import opened MicroCdr
  import opened CdrTokens
  import opened SampleTypes
  import opened WireFormat

  /** A writer may go on with these tokens: any tokens in a single area, where the macros notice
      its end; over a chain all of them have to fit, because the macros look at one next area
      only (see `State.RoomFor`). */
  ghost predicate Room(s: State, tokens: seq<Token>) {
    var holds :=
      && s.Valid()
      && (s.chain == [] || s.error || (s.minArea >= 4 && Good(tokens) && |Layout(tokens, s.offset, s.endianness)| <= s.Left()));
    holds
  }

  /** A reader may expect these tokens; over a chain they do lie ahead. */
  ghost predicate Expects(ub: UcdrBuffer, tokens: seq<Token>)
    reads ub, ub.mem
  {
    ub.St().Valid() && (ub.chain == [] || ub.error || (ub.minArea >= 4 && Spells(ub.St(), ub.mem[..], tokens)))
  }

  lemma ValidMeans(ub: UcdrBuffer)
    requires ub.St().Valid()
    ensures ub.St().Shape() && ub.lastDataSize in {0, 1, 2, 4, 8} && ub.iterator_ <= ub.fin
  {}

  lemma RoomIsValid(s: State, tokens: seq<Token>)
    requires Room(s, tokens)
    ensures s.Valid()
  {}

  lemma RoomForValue(s: State, image: seq<byte>, rest: seq<Token>)
    requires Room(s, [Basic(image)] + rest) && |image| in {2, 4}
    ensures s.Valid() && s.RoomFor(|image|) && (s.endianness == MACHINE || s.chain == [])
  {
    hide Padding;
    if s.chain != [] && !s.error {
      LayoutCons(Basic(image), rest, s.offset, s.endianness);
    }
  }

  lemma RoomStays(s: State, t: State, m0: seq<byte>, m1: seq<byte>, token: Token, rest: seq<Token>)
    requires GoodToken(token) && t.Valid()
    requires Wrote(s, t, m0, m1, PaddingOf(token, s.offset), BytesOf(token, s.endianness))
    ensures Room(s, [token] + rest) ==> Room(t, rest)
    ensures t.endianness == s.endianness && (s.error ==> t.error)
  {
    hide Padding, Wire, State.Shape, Holds, SameExcept;
    if Room(s, [token] + rest) && s.chain != [] && !s.error {
      LayoutCons(token, rest, s.offset, s.endianness);
    }
  }

  /** A basic value is expected in the machine's byte order or in a single area, and there is room
      for it. */
  lemma ExpectedValue(ub: UcdrBuffer, image: seq<byte>, rest: seq<Token>)
    requires Expects(ub, [Basic(image)] + rest) && |image| in {2, 4}
    ensures ub.St().Valid() && ub.St().RoomFor(|image|) && (ub.endianness == MACHINE || ub.chain == [])
  {
    hide Padding;
    var s := ub.St();
    if s.chain != [] && !s.error {
      LayoutCons(Basic(image), rest, s.offset, s.endianness);
    }
  }

  /** In a single area, or behind an error, a reader may expect what it likes. */
  lemma ExpectsAnything(ub: UcdrBuffer, a: seq<Token>, b: seq<Token>)
    requires Expects(ub, a) && (ub.chain == [] || ub.error)
    ensures Expects(ub, b)
  {}

  lemma ErrorExpectsAnything(ub: UcdrBuffer, a: seq<Token>)
    requires ub.St().Valid() && ub.error
    ensures Expects(ub, a)
  {}

  lemma ExpectsMeans(ub: UcdrBuffer, a: seq<Token>)
    requires Expects(ub, a)
    ensures ub.St().Valid() && (ub.chain == [] || ub.error || Spells(ub.St(), ub.mem[..], a))
  {}

  lemma TookKeeps(s: State, t: State, m: seq<byte>, pad: nat, data: seq<byte>)
    requires Took(s, t, m, pad, data)
    ensures t.endianness == s.endianness && t.minArea == s.minArea
    ensures (s.error ==> t.error) && (s.chain == [] ==> t.chain == [])
  {}

  // Single values (CDR/basic.c, CDR/array.c)

  method SerializeBytes(ub: UcdrBuffer, image: seq<byte>, ghost w: Log, ghost rest: seq<Token>) returns (ok: bool)
    requires |image| in {2, 4} && Room(ub.St(), [Basic(image)] + rest) && Written(w, ub.St(), ub.mem[..])
    modifies ub, ub.mem
    ensures Room(ub.St(), rest) && ub.mem == old(ub.mem) && (old(ub.error) ==> ub.error) && ok == !ub.error
    ensures Written(w.Add([Basic(image)]), ub.St(), ub.mem[..])
  {
    hide State.Valid, Written, Wire, Padding, Wrote, State.RoomFor, Room;
    ghost var s, m := ub.St(), ub.mem[..];
    RoomForValue(s, image, rest);
    ok := ub.SerializeBasic(image, ub.endianness);
    RoomStays(s, ub.St(), m, ub.mem[..], Basic(image), rest);
    TokenWritten(w, s, ub.St(), m, ub.mem[..], Basic(image));
  }

  /** A single byte goes over any buffer. */
  method SerializeUint8(ub: UcdrBuffer, value: byte, ghost w: Log, ghost rest: seq<Token>) returns (ok: bool)
    requires ub.St().Valid() && Written(w, ub.St(), ub.mem[..])
    modifies ub, ub.mem
    ensures ub.St().Valid() && ub.mem == old(ub.mem) && (old(ub.error) ==> ub.error) && ok == !ub.error
    ensures Room(old(ub.St()), [U8(value)] + rest) ==> Room(ub.St(), rest)
    ensures Written(w.Add([U8(value)]), ub.St(), ub.mem[..])
    ensures !ub.error ==> ByteAt(StreamOf(old(ub.St()), ub.mem[..]), old(ub.offset)) == value && ub.offset == old(ub.offset) + 1
  {
    hide Means;
    hide State.Valid, Written, Wrote, Room;
    ghost var s, m := ub.St(), ub.mem[..];
    ok := ub.SerializeByte(value);
    OneByteIsPlain(value, s.offset, s.endianness);
    RoomStays(s, ub.St(), m, ub.mem[..], U8(value), rest);
    TokenWritten(w, s, ub.St(), m, ub.mem[..], U8(value));
    if !ub.error {
      ghost var z := StreamOf(s, ub.mem[..]);
      U8Means(z, s.offset, value);
      WrittenStands(w, s, m, ub.St(), ub.mem[..], [U8(value)], ByteAt(z, s.offset) == value, s.offset + 1);
    }
  }

  lemma OneByteIsPlain(value: byte, offset: nat, endianness: Endianness)
    ensures PaddingOf(U8(value), offset) == 0 && BytesOf(U8(value), endianness) == [value]
  {}

  method SerializeUint16(ub: UcdrBuffer, value: uint16, ghost w: Log, ghost rest: seq<Token>) returns (ok: bool)
    requires Room(ub.St(), [U16(value)] + rest) && Written(w, ub.St(), ub.mem[..])
    modifies ub, ub.mem
    ensures Room(ub.St(), rest) && ub.mem == old(ub.mem) && (old(ub.error) ==> ub.error) && ok == !ub.error
    ensures Written(w.Add([U16(value)]), ub.St(), ub.mem[..])
    ensures !ub.error ==> Uint16At(StreamOf(old(ub.St()), ub.mem[..]), Up2(old(ub.offset)), value) && ub.offset == Up2(old(ub.offset)) + 2
  {
    hide Means, Uint16At, Up2;
    hide Room, Written;
    ghost var s, m := ub.St(), ub.mem[..];
    ok := SerializeBytes(ub, Be16(value), w, rest);
    if !ub.error {
      ghost var z := StreamOf(s, ub.mem[..]);
      U16Means(z, s.offset, value);
      WrittenStands(w, s, m, ub.St(), ub.mem[..], [U16(value)], Uint16At(z, Up2(s.offset), value), Up2(s.offset) + 2);
    }
  }

  method SerializeUint32(ub: UcdrBuffer, value: uint32, ghost w: Log, ghost rest: seq<Token>) returns (ok: bool)
    requires Room(ub.St(), [U32(value)] + rest) && Written(w, ub.St(), ub.mem[..])
    modifies ub, ub.mem
    ensures Room(ub.St(), rest) && ub.mem == old(ub.mem) && (old(ub.error) ==> ub.error) && ok == !ub.error
    ensures Written(w.Add([U32(value)]), ub.St(), ub.mem[..])
    ensures !ub.error ==> Uint32At(StreamOf(old(ub.St()), ub.mem[..]), Up4(old(ub.offset)), value) && ub.offset == Up4(old(ub.offset)) + 4
  {
    hide Means, Uint32At, Up4;
    hide Room, Written;
    ghost var s, m := ub.St(), ub.mem[..];
    ok := SerializeBytes(ub, Be32(value), w, rest);
    if !ub.error {
      ghost var z := StreamOf(s, ub.mem[..]);
      U32Means(z, s.offset, value);
      WrittenStands(w, s, m, ub.St(), ub.mem[..], [U32(value)], Uint32At(z, Up4(s.offset), value), Up4(s.offset) + 4);
    }
  }

  /** ucdr_serialize_array_uint8_t, over any buffer */
  method SerializeArray(ub: UcdrBuffer, array_: seq<byte>, ghost w: Log, ghost rest: seq<Token>) returns (ok: bool)
    requires ub.St().Valid() && Written(w, ub.St(), ub.mem[..])
    modifies ub, ub.mem
    ensures ub.St().Valid() && ub.mem == old(ub.mem) && (old(ub.error) ==> ub.error) && ok == !ub.error
    ensures Room(old(ub.St()), [Block(array_)] + rest) ==> Room(ub.St(), rest)
    ensures Written(w.Add([Block(array_)]), ub.St(), ub.mem[..])
    ensures !ub.error ==> BytesAt(StreamOf(old(ub.St()), ub.mem[..]), old(ub.offset), array_) && ub.offset == old(ub.offset) + |array_|
  {
    ValidMeans(ub);
    hide Means;
    hide Written, Wrote, Room;
    ghost var s, m := ub.St(), ub.mem[..];
    ub.ArrayToBuffer(array_, 1);
    WroteShape(s, ub.St(), m, ub.mem[..], array_);
    RoomStays(s, ub.St(), m, ub.mem[..], Block(array_), rest);
    TokenWritten(w, s, ub.St(), m, ub.mem[..], Block(array_));
    ok := !ub.error;
    if !ub.error {
      ghost var z := StreamOf(s, ub.mem[..]);
      BlockMeans(z, s.offset, array_);
      WrittenStands(w, s, m, ub.St(), ub.mem[..], [Block(array_)], WireFormat.Reaches(z, s.offset + |array_|) && BytesAt(z, s.offset, array_), s.offset + |array_|);
    }
  }

  lemma WroteShape(s: State, t: State, m0: seq<byte>, m1: seq<byte>, data: seq<byte>)
    requires Wrote(s, t, m0, m1, 0, data) && t.lastDataSize == 1
    ensures t.Valid()
  {}

  method DeserializeBytes(ub: UcdrBuffer, prior: seq<byte>, ghost expected: seq<byte>, ghost rest: seq<Token>)
      returns (ok: bool, image: seq<byte>)
    requires |prior| == |expected| && |prior| in {2, 4} && Expects(ub, [Basic(expected)] + rest)
    modifies ub
    ensures Expects(ub, rest) && ub.mem == old(ub.mem)
    ensures (old(ub.error) ==> ub.error) && (old(ub.chain) == [] ==> ub.chain == [])
    ensures ok == !ub.error && |image| == |prior|
    ensures Spells(old(ub.St()), ub.mem[..], [Basic(expected)] + rest) ==>
      ok && image == expected && Spells(ub.St(), ub.mem[..], rest)
    ensures Took(old(ub.St()), ub.St(), ub.mem[..], Padding(old(ub.offset), |prior|), Wire(image, old(ub.endianness)))
  {
    hide State.Valid, Spells, Wire, Padding, Took, State.RoomFor;
    ghost var s, m := ub.St(), ub.mem[..];
    ExpectedValue(ub, expected, rest);
    ok, image := ub.DeserializeBasic(prior, ub.endianness);
    TookKeeps(s, ub.St(), m, Padding(s.offset, |prior|), Wire(image, s.endianness));
    if Spells(s, m, [Basic(expected)] + rest) {
      TokenTaken(s, ub.St(), m, Basic(expected), Wire(image, s.endianness), rest);
      WireIsAnInvolution(image, s.endianness);
      WireIsAnInvolution(expected, s.endianness);
    }
  }

  /** A single byte comes from any buffer. */
  method DeserializeUint8(ub: UcdrBuffer, prior: byte, ghost expected: byte, ghost rest: seq<Token>)
      returns (ok: bool, value: byte)
    requires ub.St().Valid()
    modifies ub
    ensures ub.St().Valid() && ub.mem == old(ub.mem)
    ensures (old(ub.error) ==> ub.error) && (old(ub.chain) == [] ==> ub.chain == [])
    ensures ok == !ub.error && ub.minArea == old(ub.minArea)
    ensures Spells(old(ub.St()), ub.mem[..], [U8(expected)] + rest) ==>
      ok && value == expected && Spells(ub.St(), ub.mem[..], rest)
    ensures !ub.error ==> StreamOf(ub.St(), ub.mem[..]) == old(StreamOf(ub.St(), ub.mem[..]))
    ensures !ub.error ==> ByteAt(old(StreamOf(ub.St(), ub.mem[..])), old(ub.offset)) == value && ub.offset == old(ub.offset) + 1
  {
    hide Means, ByteAt;
    hide State.Valid, Spells, Took;
    ghost var s, m := ub.St(), ub.mem[..];
    ok, value := ub.DeserializeByte(prior);
    TookKeeps(s, ub.St(), m, 0, [value]);
    OneByteIsPlain(expected, s.offset, s.endianness);
    OneByteIsPlain(value, s.offset, s.endianness);
    if Spells(s, m, [U8(expected)] + rest) {
      TokenTaken(s, ub.St(), m, U8(expected), [value], rest);
    }
    if !ub.error {
      ghost var z := StreamOf(s, ub.mem[..]);
      U8Means(z, s.offset, value);
      TakenStands(s, ub.St(), ub.mem[..], U8(value), ByteAt(z, s.offset) == value, s.offset + 1);
    }
  }

  method DeserializeUint16(ub: UcdrBuffer, prior: uint16, ghost expected: uint16, ghost rest: seq<Token>)
      returns (ok: bool, value: uint16)
    requires Expects(ub, [U16(expected)] + rest)
    modifies ub
    ensures Expects(ub, rest) && ub.mem == old(ub.mem)
    ensures (old(ub.error) ==> ub.error) && (old(ub.chain) == [] ==> ub.chain == [])
    ensures ok == !ub.error
    ensures Spells(old(ub.St()), ub.mem[..], [U16(expected)] + rest) ==>
      ok && value == expected && Spells(ub.St(), ub.mem[..], rest)
    ensures !ub.error ==> StreamOf(ub.St(), ub.mem[..]) == old(StreamOf(ub.St(), ub.mem[..]))
    ensures !ub.error ==> Uint16At(old(StreamOf(ub.St(), ub.mem[..])), Up2(old(ub.offset)), value) && ub.offset == Up2(old(ub.offset)) + 2
  {
    hide Means, Uint16At, Up2, Took, Padding, Wire;
    hide State.Valid, Spells, Expects;
    ghost var s := ub.St();
    var image;
    ok, image := DeserializeBytes(ub, Be16(prior), Be16(expected), rest);
    var high: int, low: int := image[0], image[1];
    value := high * 0x100 + low;
    assert Be16(value) == image;
    if !ub.error {
      ghost var z := StreamOf(s, ub.mem[..]);
      U16Means(z, s.offset, value);
      TakenStands(s, ub.St(), ub.mem[..], U16(value), Uint16At(z, Up2(s.offset), value), Up2(s.offset) + 2);
    }
  }

  method DeserializeUint32(ub: UcdrBuffer, prior: uint32, ghost expected: uint32, ghost rest: seq<Token>)
      returns (ok: bool, value: uint32)
    requires Expects(ub, [U32(expected)] + rest)
    modifies ub
    ensures Expects(ub, rest) && ub.mem == old(ub.mem)
    ensures (old(ub.error) ==> ub.error) && (old(ub.chain) == [] ==> ub.chain == [])
    ensures ok == !ub.error
    ensures Spells(old(ub.St()), ub.mem[..], [U32(expected)] + rest) ==>
      ok && value == expected && Spells(ub.St(), ub.mem[..], rest)
    ensures !ub.error ==> StreamOf(ub.St(), ub.mem[..]) == old(StreamOf(ub.St(), ub.mem[..]))
    ensures !ub.error ==> Uint32At(old(StreamOf(ub.St(), ub.mem[..])), Up4(old(ub.offset)), value) && ub.offset == Up4(old(ub.offset)) + 4
  {
    hide Means, Uint32At, Up4, Took, Padding, Wire, Be32, FromBe32;
    hide State.Valid, Spells, Expects;
    ghost var s := ub.St();
    var image;
    ok, image := DeserializeBytes(ub, Be32(prior), Be32(expected), rest);
    Be32RoundTrip(expected);
    value := FromBe32(image[0], image[1], image[2], image[3]);
    Be32OfBytes(image[0], image[1], image[2], image[3]);
    assert image == [image[0], image[1], image[2], image[3]];
    if !ub.error {
      ghost var z := StreamOf(s, ub.mem[..]);
      U32Means(z, s.offset, value);
      TakenStands(s, ub.St(), ub.mem[..], U32(value), Uint32At(z, Up4(s.offset), value), Up4(s.offset) + 4);
    }
  }

  /** ucdr_deserialize_array_uint8_t, from any buffer */
  method DeserializeArray(ub: UcdrBuffer, size: nat, ghost expected: seq<byte>, ghost rest: seq<Token>)
      returns (ok: bool, array_: seq<byte>)
    requires ub.St().Valid()
    modifies ub
    ensures ub.St().Valid() && ub.mem == old(ub.mem)
    ensures (old(ub.error) ==> ub.error) && (old(ub.chain) == [] ==> ub.chain == [])
    ensures ok == !ub.error && |array_| <= size && (old(ub.error) ==> array_ == []) && ub.minArea == old(ub.minArea)
    ensures Spells(old(ub.St()), ub.mem[..], [Block(expected)] + rest) && size == |expected| ==>
      ok && array_ == expected && Spells(ub.St(), ub.mem[..], rest)
    ensures !ub.error ==> |array_| == size
    ensures !ub.error ==> StreamOf(ub.St(), ub.mem[..]) == old(StreamOf(ub.St(), ub.mem[..]))
    ensures !ub.error ==> BytesAt(old(StreamOf(ub.St(), ub.mem[..])), old(ub.offset), array_) && ub.offset == old(ub.offset) + size
  {
    ValidMeans(ub);
    hide Means;
    hide Spells, Took, Advanced;
    ghost var s, m := ub.St(), ub.mem[..];
    array_ := ub.BufferToArray(size, 1);
    AdvancedIsValid(s, ub.St(), size);
    AdvanceKeeps(s, ub.St(), size);
    if Spells(s, m, [Block(expected)] + rest) && size == |expected| {
      RoomForBlock(s, ub.St(), m, expected, rest);
      TokenTaken(s, ub.St(), m, Block(expected), array_, rest);
    }
    if !ub.error {
      ghost var z := StreamOf(s, ub.mem[..]);
      BlockMeans(z, s.offset, array_);
      TakenStands(s, ub.St(), ub.mem[..], Block(array_), WireFormat.Reaches(z, s.offset + |array_|) && BytesAt(z, s.offset, array_), s.offset + |array_|);
    }
    ok := !ub.error;
  }

  lemma RoomForBlock(s: State, t: State, m: seq<byte>, expected: seq<byte>, rest: seq<Token>)
    requires Spells(s, m, [Block(expected)] + rest) && Advanced(s, t, |expected|)
    ensures !t.error
  {
    LayoutCons(Block(expected), rest, s.offset, s.endianness);
  }

  // Sequences of bytes (CDR/sequence.c)

  /** ucdr_serialize_sequence_uint8_t; with no elements it answers true whatever happened */
  method SerializeSequence(ub: UcdrBuffer, array_: SampleData, ghost w: Log, ghost rest: seq<Token>) returns (ok: bool)
    requires Room(ub.St(), TokensOfData(array_) + rest) && Written(w, ub.St(), ub.mem[..])
    modifies ub, ub.mem
    ensures Room(ub.St(), rest) && ub.mem == old(ub.mem)
    ensures (old(ub.error) ==> ub.error) && ok == (array_ == [] || !ub.error)
    ensures Written(w.Add(TokensOfData(array_)), ub.St(), ub.mem[..])
    ensures !ub.error ==> DataAt(StreamOf(old(ub.St()), ub.mem[..]), old(ub.offset), array_) && ub.offset == DataEnd(old(ub.offset), array_)
  {
    hide Means, DataAt, DataEnd;
    hide State.Valid, Room, Written;
    ghost var s, m := ub.St(), ub.mem[..];
    AddIsAssociative(w, [U32(|array_|)], [Block(array_)], rest);
    ok := SerializeUint32(ub, |array_|, w, [Block(array_)] + rest);
    if |array_| == 0 {
      ok := true;
      EmptyBlock(w.Add([U32(0)]), ub.St(), ub.mem[..]);
      EmptyBlockNeedsNoRoom(ub.St(), rest);
    } else {
      RoomIsValid(ub.St(), [Block(array_)] + rest);
      ok := SerializeArray(ub, array_, w.Add([U32(|array_|)]), rest);
    }
    if !ub.error {
      ghost var z := StreamOf(s, ub.mem[..]);
      DataMeans(z, s.offset, array_);
      WrittenStands(w, s, m, ub.St(), ub.mem[..], TokensOfData(array_), DataAt(z, s.offset, array_), DataEnd(s.offset, array_));
    }
  }

  lemma EmptyBlock(w: Log, s: State, m: seq<byte>)
    requires Written(w, s, m)
    ensures Written(w.Add([Block([])]), s, m)
  {
    LayoutConcat(w.tokens, [Block([])], w.start.offset, w.start.endianness);
    LayoutOfOne(Block([]), w.start.offset + |Layout(w.tokens, w.start.offset, w.start.endianness)|, w.start.endianness);
    var cells := Layout(w.tokens, w.start.offset, w.start.endianness);
    assert cells + (Gaps(0) + Octets([])) == cells;
  }

  /** ucdr_deserialize_sequence_uint8_t: a length over the capacity sets the error */
  method DeserializeSequence(ub: UcdrBuffer, ghost expected: seq<byte>, ghost rest: seq<Token>)
      returns (ok: bool, array_: SampleData)
    requires |expected| <= 0xFFFF_FFFF && Expects(ub, [U32(|expected|)] + ([Block(expected)] + rest))
    modifies ub
    ensures Expects(ub, rest) && ub.mem == old(ub.mem)
    ensures (old(ub.error) ==> ub.error) && (old(ub.chain) == [] ==> ub.chain == [])
    ensures (!ub.error ==> ok)
    ensures Spells(old(ub.St()), ub.mem[..], [U32(|expected|)] + ([Block(expected)] + rest)) ==>
      if |expected| <= 512 then ok && array_ == expected && Spells(ub.St(), ub.mem[..], rest)
      else !ok && ub.error
    ensures !ub.error ==> StreamOf(ub.St(), ub.mem[..]) == old(StreamOf(ub.St(), ub.mem[..]))
    ensures !ub.error ==> DataAt(old(StreamOf(ub.St(), ub.mem[..])), old(ub.offset), array_) && ub.offset == DataEnd(old(ub.offset), array_)
  {
    hide Uint32At, Up4, StreamOf;
    hide State.Valid, Spells;
    var prior: uint32 := *;
    var length;
    ok, length := DeserializeUint32(ub, prior, |expected|, [Block(expected)] + rest);
    array_ := [];
    if length > SAMPLE_DATA_SIZE_MAX {
      SetError(ub);
    }
    if length == 0 {
      ok := true;
      if Spells(ub.St(), ub.mem[..], [Block(expected)] + rest) && expected == [] {
        EmptyBlockTaken(ub.St(), ub.mem[..], rest);
      }
    } else {
      var bytes;
      ok, bytes := DeserializeArray(ub, length, expected, rest);
      array_ := bytes;
    }
  }

  method SetError(ub: UcdrBuffer)
    requires ub.St().Valid()
    modifies ub`error
    ensures ub.St().Valid() && ub.error
  {
    ub.error := true;
  }

  lemma EmptyBlockNeedsNoRoom(s: State, rest: seq<Token>)
    requires Room(s, [Block([])] + rest)
    ensures Room(s, rest)
  {
    if s.chain != [] && !s.error {
      LayoutCons(Block([]), rest, s.offset, s.endianness);
    }
  }

  /** Once a writer failed it needs no room. */
  lemma FailedHasRoom(s: State, a: seq<Token>, b: seq<Token>)
    requires Room(s, a) && s.error
    ensures Room(s, b)
  {}

  lemma Regroup(a: seq<Token>, b: seq<Token>, c: seq<Token>)
    ensures (a + b) + c == a + (b + c)
  {}

  lemma EmptyBlockTaken(s: State, m: seq<byte>, rest: seq<Token>)
    requires Spells(s, m, [Block([])] + rest)
    ensures Spells(s, m, rest)
  {
    LayoutCons(Block([]), rest, s.offset, s.endianness);
    assert Gaps(0) + Octets([]) == [];
    var cells := Layout(rest, s.offset, s.endianness);
    assert [] + cells == cells;
  }

  // The sample family

  /** uxr_serialize_SeqNumberAndTimestamp */
  method SerializeSeqNumberAndTimestamp(ub: UcdrBuffer, input: SeqNumberAndTimestamp, ghost w: Log,
      ghost rest: seq<Token>)
      returns (ret: bool)
    requires Room(ub.St(), TokensOfTimestamp(input) + rest) && Written(w, ub.St(), ub.mem[..])
    modifies ub, ub.mem
    ensures Room(ub.St(), rest) && ub.mem == old(ub.mem) && (old(ub.error) ==> ub.error) && ret == !ub.error
    ensures Written(w.Add(TokensOfTimestamp(input)), ub.St(), ub.mem[..])
    ensures !ub.error ==> TimestampAt(StreamOf(old(ub.St()), ub.mem[..]), old(ub.offset), input) && ub.offset == TimestampEnd(old(ub.offset))
  {
    hide Means, TimestampAt, TimestampEnd;
    hide State.Valid, Room, Written;
    ghost var s, m := ub.St(), ub.mem[..];
    AddIsAssociative(w, [U32(input.sequenceNumber)], [U32(input.sessionTimeOffset)], rest);
    ret := SerializeUint32(ub, input.sequenceNumber, w, [U32(input.sessionTimeOffset)] + rest);
    var ok := SerializeUint32(ub, input.sessionTimeOffset, w.Add([U32(input.sequenceNumber)]), rest);
    ret := ret && ok;
    if !ub.error {
      ghost var z := StreamOf(s, ub.mem[..]);
      TimestampMeans(z, s.offset, input);
      WrittenStands(w, s, m, ub.St(), ub.mem[..], TokensOfTimestamp(input), TimestampAt(z, s.offset, input), TimestampEnd(s.offset));
    }
  }

  /** uxr_deserialize_SeqNumberAndTimestamp */
  method DeserializeSeqNumberAndTimestamp(ub: UcdrBuffer, ghost expected: SeqNumberAndTimestamp, ghost rest: seq<Token>)
      returns (ret: bool, output: SeqNumberAndTimestamp)
    requires Expects(ub, TokensOfTimestamp(expected) + rest)
    modifies ub
    ensures Expects(ub, rest) && ub.mem == old(ub.mem)
    ensures (old(ub.error) ==> ub.error) && (old(ub.chain) == [] ==> ub.chain == [])
    ensures ret == !ub.error
    ensures Spells(old(ub.St()), ub.mem[..], TokensOfTimestamp(expected) + rest) ==>
      ret && output == expected && Spells(ub.St(), ub.mem[..], rest)
    ensures !ub.error ==> StreamOf(ub.St(), ub.mem[..]) == old(StreamOf(ub.St(), ub.mem[..]))
    ensures !ub.error ==> TimestampAt(old(StreamOf(ub.St(), ub.mem[..])), old(ub.offset), output) && ub.offset == TimestampEnd(old(ub.offset))
  {
    hide Uint32At, StreamOf;
    hide State.Valid, Spells;
    ghost var tail := [U32(expected.sessionTimeOffset)] + rest;
    assert TokensOfTimestamp(expected) + rest == [U32(expected.sequenceNumber)] + tail;
    var prior: SeqNumberAndTimestamp := *;
    var sequenceNumber, ok, sessionTimeOffset;
    ret, sequenceNumber := DeserializeUint32(ub, prior.sequenceNumber, expected.sequenceNumber, tail);
    ok, sessionTimeOffset := DeserializeUint32(ub, prior.sessionTimeOffset, expected.sessionTimeOffset, rest);
    ret := ret && ok;
    output := SeqNumberAndTimestamp(sequenceNumber, sessionTimeOffset);
  }

  /** uxr_serialize_SampleInfoDetail */
  method SerializeSampleInfoDetail(ub: UcdrBuffer, input: SampleInfoDetail, ghost w: Log, ghost rest: seq<Token>)
      returns (ret: bool)
    requires Room(ub.St(), TokensOfDetail(input) + rest) && Written(w, ub.St(), ub.mem[..])
    modifies ub, ub.mem
    ensures Room(ub.St(), rest) && ub.mem == old(ub.mem) && (old(ub.error) ==> ub.error) && ret == !ub.error
    ensures Written(w.Add(TokensOfDetail(input)), ub.St(), ub.mem[..])
    ensures !ub.error ==> DetailAt(StreamOf(old(ub.St()), ub.mem[..]), old(ub.offset), input) && ub.offset == DetailEnd(old(ub.offset), input)
  {
    hide Means, DetailAt, DetailEnd;
    hide State.Valid, Room, Written;
    ghost var s, m := ub.St(), ub.mem[..];
    AddIsAssociative(w, [U32(input.Format())], DetailBody(input), rest);
    ret := SerializeUint32(ub, input.Format(), w, DetailBody(input) + rest);
    ghost var v := w.Add([U32(input.Format())]);
    if ret {
      match input
      case DetailEmpty(n) =>
        ret := SerializeUint32(ub, n, v, rest);
      case DetailSeqnum(n) =>
        ret := SerializeUint32(ub, n, v, rest);
      case DetailTimestamp(t) =>
        ret := SerializeSeqNumberAndTimestamp(ub, t, v, rest);
      case DetailOther(_) =>
        AddIsAssociative(v, [], [], rest);
    } else {
      DetailIsGood(input);
      FailedAnyway(v, ub.St(), ub.mem[..], DetailBody(input));
      FailedHasRoom(ub.St(), DetailBody(input) + rest, rest);
    }
    if !ub.error {
      ghost var z := StreamOf(s, ub.mem[..]);
      DetailMeans(z, s.offset, input);
      WrittenStands(w, s, m, ub.St(), ub.mem[..], TokensOfDetail(input), DetailAt(z, s.offset, input), DetailEnd(s.offset, input));
    }
  }

  lemma InfoIsGood(x: SampleInfo)
    ensures Good(TokensOfInfo(x))
  {
    DetailIsGood(x.detail);
  }

  lemma DetailIsGood(x: SampleInfoDetail)
    ensures Good(DetailBody(x))
  {}

  /** uxr_deserialize_SampleInfoDetail */
  method DeserializeSampleInfoDetail(ub: UcdrBuffer, ghost expected: SampleInfoDetail, ghost rest: seq<Token>)
      returns (ret: bool, output: SampleInfoDetail)
    requires Expects(ub, TokensOfDetail(expected) + rest)
    requires ub.chain == [] || ub.error || expected.Valid()
    modifies ub
    ensures Expects(ub, rest) && ub.mem == old(ub.mem)
    ensures (old(ub.error) ==> ub.error) && (old(ub.chain) == [] ==> ub.chain == [])
    ensures ret == !ub.error
    ensures expected.Valid() && Spells(old(ub.St()), ub.mem[..], TokensOfDetail(expected) + rest) ==>
      ret && output == expected && Spells(ub.St(), ub.mem[..], rest)
    ensures !ub.error ==> StreamOf(ub.St(), ub.mem[..]) == old(StreamOf(ub.St(), ub.mem[..]))
    ensures !ub.error ==> DetailAt(old(StreamOf(ub.St(), ub.mem[..])), old(ub.offset), output) && ub.offset == DetailEnd(old(ub.offset), output)
  {
    hide Uint32At, StreamOf;
    hide State.Valid, Spells;
    assert TokensOfDetail(expected) + rest == [U32(expected.Format())] + (DetailBody(expected) + rest);
    var prior: uint32 := *;
    var format;
    ret, format := DeserializeUint32(ub, prior, expected.Format(), DetailBody(expected) + rest);
    output := DetailOther(format);
    if ret {
      if format == FORMAT_EMPTY {
        var n;
        ret, n := DeserializeUint32(ub, prior, if expected.DetailEmpty? then expected.sequenceNumber else 0, rest);
        output := DetailEmpty(n);
      } else if format == FORMAT_SEQNUM {
        var n;
        ret, n := DeserializeUint32(ub, prior, if expected.DetailSeqnum? then expected.sessionTimeOffset else 0, rest);
        output := DetailSeqnum(n);
      } else if format == FORMAT_TIMESTAMP {
        var t;
        ret, t := DeserializeSeqNumberAndTimestamp(ub, if expected.DetailTimestamp? then expected.seqnumAndTimestamp else SeqNumberAndTimestamp(0, 0), rest);
        output := DetailTimestamp(t);
      } else {
        assert [] + rest == rest;
      }
    }
  }

  /** uxr_serialize_SampleInfo */
  method SerializeSampleInfo(ub: UcdrBuffer, input: SampleInfo, ghost w: Log, ghost rest: seq<Token>)
      returns (ret: bool)
    requires Room(ub.St(), TokensOfInfo(input) + rest) && Written(w, ub.St(), ub.mem[..])
    modifies ub, ub.mem
    ensures Room(ub.St(), rest) && ub.mem == old(ub.mem) && (old(ub.error) ==> ub.error) && ret == !ub.error
    ensures Written(w.Add(TokensOfInfo(input)), ub.St(), ub.mem[..])
    ensures !ub.error ==> InfoAt(StreamOf(old(ub.St()), ub.mem[..]), old(ub.offset), input) && ub.offset == InfoEnd(old(ub.offset), input)
  {
    hide Means, InfoAt, InfoEnd;
    hide State.Valid, Room, Written;
    ghost var s, m := ub.St(), ub.mem[..];
    AddIsAssociative(w, [U8(input.state)], TokensOfDetail(input.detail), rest);
    RoomIsValid(ub.St(), TokensOfInfo(input) + rest);
    ret := SerializeUint8(ub, input.state, w, TokensOfDetail(input.detail) + rest);
    var ok := SerializeSampleInfoDetail(ub, input.detail, w.Add([U8(input.state)]), rest);
    ret := ret && ok;
    if !ub.error {
      ghost var z := StreamOf(s, ub.mem[..]);
      InfoMeans(z, s.offset, input);
      WrittenStands(w, s, m, ub.St(), ub.mem[..], TokensOfInfo(input), InfoAt(z, s.offset, input), InfoEnd(s.offset, input));
    }
  }

  /** uxr_deserialize_SampleInfo */
  method DeserializeSampleInfo(ub: UcdrBuffer, ghost expected: SampleInfo, ghost rest: seq<Token>)
      returns (ret: bool, output: SampleInfo)
    requires Expects(ub, TokensOfInfo(expected) + rest)
    requires ub.chain == [] || ub.error || expected.detail.Valid()
    modifies ub
    ensures Expects(ub, rest) && ub.mem == old(ub.mem)
    ensures (old(ub.error) ==> ub.error) && (old(ub.chain) == [] ==> ub.chain == [])
    ensures ret == !ub.error
    ensures expected.detail.Valid() && Spells(old(ub.St()), ub.mem[..], TokensOfInfo(expected) + rest) ==>
      ret && output == expected && Spells(ub.St(), ub.mem[..], rest)
    ensures !ub.error ==> StreamOf(ub.St(), ub.mem[..]) == old(StreamOf(ub.St(), ub.mem[..]))
    ensures !ub.error ==> InfoAt(old(StreamOf(ub.St(), ub.mem[..])), old(ub.offset), output) && ub.offset == InfoEnd(old(ub.offset), output)
  {
    hide DetailAt, DetailEnd, ByteAt, StreamOf;
    hide State.Valid, Spells;
    assert TokensOfInfo(expected) + rest == [U8(expected.state)] + (TokensOfDetail(expected.detail) + rest);
    var prior: byte := *;
    var state, ok, detail;
    ret, state := DeserializeUint8(ub, prior, expected.state, TokensOfDetail(expected.detail) + rest);
    ok, detail := DeserializeSampleInfoDetail(ub, expected.detail, rest);
    ret := ret && ok;
    output := SampleInfo(state, detail);
  }

  /** uxr_serialize_SampleInfoDelta */
  method SerializeSampleInfoDelta(ub: UcdrBuffer, input: SampleInfoDelta, ghost w: Log, ghost rest: seq<Token>)
      returns (ret: bool)
    requires Room(ub.St(), TokensOfInfoDelta(input) + rest) && Written(w, ub.St(), ub.mem[..])
    modifies ub, ub.mem
    ensures Room(ub.St(), rest) && ub.mem == old(ub.mem) && (old(ub.error) ==> ub.error) && ret == !ub.error
    ensures Written(w.Add(TokensOfInfoDelta(input)), ub.St(), ub.mem[..])
    ensures !ub.error ==> InfoDeltaAt(StreamOf(old(ub.St()), ub.mem[..]), old(ub.offset), input) && ub.offset == InfoDeltaEnd(old(ub.offset))
  {
    hide Means, InfoDeltaAt, InfoDeltaEnd;
    hide State.Valid, Room, Written;
    ghost var s, m := ub.St(), ub.mem[..];
    ghost var a, b, c := [U8(input.state)], [U8(input.seqNumberDelta)], [U16(input.timestampDelta)];
    AddIsAssociative(w, a, b + c, rest);
    AddIsAssociative(w.Add(a), b, c, rest);
    RoomIsValid(ub.St(), TokensOfInfoDelta(input) + rest);
    ret := SerializeUint8(ub, input.state, w, b + (c + rest));
    var ok := SerializeUint8(ub, input.seqNumberDelta, w.Add(a), c + rest);
    ret := ret && ok;
    ok := SerializeUint16(ub, input.timestampDelta, w.Add(a).Add(b), rest);
    ret := ret && ok;
    if !ub.error {
      ghost var z := StreamOf(s, ub.mem[..]);
      InfoDeltaMeans(z, s.offset, input);
      WrittenStands(w, s, m, ub.St(), ub.mem[..], TokensOfInfoDelta(input), InfoDeltaAt(z, s.offset, input), InfoDeltaEnd(s.offset));
    }
  }

  /** uxr_deserialize_SampleInfoDelta */
  method DeserializeSampleInfoDelta(ub: UcdrBuffer, ghost expected: SampleInfoDelta, ghost rest: seq<Token>)
      returns (ret: bool, output: SampleInfoDelta)
    requires Expects(ub, TokensOfInfoDelta(expected) + rest)
    modifies ub
    ensures Expects(ub, rest) && ub.mem == old(ub.mem)
    ensures (old(ub.error) ==> ub.error) && (old(ub.chain) == [] ==> ub.chain == [])
    ensures ret == !ub.error
    ensures Spells(old(ub.St()), ub.mem[..], TokensOfInfoDelta(expected) + rest) ==>
      ret && output == expected && Spells(ub.St(), ub.mem[..], rest)
    ensures !ub.error ==> StreamOf(ub.St(), ub.mem[..]) == old(StreamOf(ub.St(), ub.mem[..]))
    ensures !ub.error ==> InfoDeltaAt(old(StreamOf(ub.St(), ub.mem[..])), old(ub.offset), output) && ub.offset == InfoDeltaEnd(old(ub.offset))
  {
    hide Uint16At, ByteAt, StreamOf;
    hide State.Valid, Spells;
    ghost var c := [U16(expected.timestampDelta)] + rest;
    assert TokensOfInfoDelta(expected) + rest == [U8(expected.state)] + ([U8(expected.seqNumberDelta)] + c);
    var prior: SampleInfoDelta := *;
    var state, seqNumberDelta, timestampDelta, ok;
    ret, state := DeserializeUint8(ub, prior.state, expected.state, [U8(expected.seqNumberDelta)] + c);
    ok, seqNumberDelta := DeserializeUint8(ub, prior.seqNumberDelta, expected.seqNumberDelta, c);
    ret := ret && ok;
    ok, timestampDelta := DeserializeUint16(ub, prior.timestampDelta, expected.timestampDelta, rest);
    ret := ret && ok;
    output := SampleInfoDelta(state, seqNumberDelta, timestampDelta);
  }

  /** uxr_serialize_SampleData */
  method SerializeSampleData(ub: UcdrBuffer, input: SampleData, ghost w: Log, ghost rest: seq<Token>)
      returns (ret: bool)
    requires Room(ub.St(), TokensOfData(input) + rest) && Written(w, ub.St(), ub.mem[..])
    modifies ub, ub.mem
    ensures Room(ub.St(), rest) && ub.mem == old(ub.mem)
    ensures (old(ub.error) ==> ub.error) && ret == (input == [] || !ub.error)
    ensures Written(w.Add(TokensOfData(input)), ub.St(), ub.mem[..])
    ensures !ub.error ==> DataAt(StreamOf(old(ub.St()), ub.mem[..]), old(ub.offset), input) && ub.offset == DataEnd(old(ub.offset), input)
  {
    hide Means, DataAt, DataEnd;
    hide State.Valid, Room, Written;
    ghost var s, m := ub.St(), ub.mem[..];
    ret := SerializeSequence(ub, input, w, rest);
    if !ub.error {
      ghost var z := StreamOf(s, ub.mem[..]);
      DataMeans(z, s.offset, input);
      WrittenStands(w, s, m, ub.St(), ub.mem[..], TokensOfData(input), DataAt(z, s.offset, input), DataEnd(s.offset, input));
    }
  }

  /** uxr_deserialize_SampleData */
  method DeserializeSampleData(ub: UcdrBuffer, ghost expected: SampleData, ghost rest: seq<Token>)
      returns (ret: bool, output: SampleData)
    requires Expects(ub, TokensOfData(expected) + rest)
    modifies ub
    ensures Expects(ub, rest) && ub.mem == old(ub.mem)
    ensures (old(ub.error) ==> ub.error) && (old(ub.chain) == [] ==> ub.chain == [])
    ensures (!ub.error ==> ret)
    ensures Spells(old(ub.St()), ub.mem[..], TokensOfData(expected) + rest) ==>
      ret && output == expected && Spells(ub.St(), ub.mem[..], rest)
    ensures !ub.error ==> StreamOf(ub.St(), ub.mem[..]) == old(StreamOf(ub.St(), ub.mem[..]))
    ensures !ub.error ==> DataAt(old(StreamOf(ub.St(), ub.mem[..])), old(ub.offset), output) && ub.offset == DataEnd(old(ub.offset), output)
  {
    hide DataAt, DataEnd, StreamOf;
    hide State.Valid, Spells;
    assert TokensOfData(expected) + rest == [U32(|expected|)] + ([Block(expected)] + rest);
    ret, output := DeserializeSequence(ub, expected, rest);
  }

  lemma {:induction false} EachSplit<T(!new)>(tokensOf: T -> seq<Token>, xs: seq<T>, i: nat)
    requires i <= |xs|
    ensures Each(tokensOf, xs) == Each(tokensOf, xs[..i]) + Each(tokensOf, xs[i..])
    decreases i
  {
    EachStart(tokensOf, xs);
    if i > 0 {
      EachSplit(tokensOf, xs, i - 1);
      EachNext(tokensOf, xs, i - 1);
    }
  }

  lemma EachAhead<T(!new)>(tokensOf: T -> seq<Token>, xs: seq<T>, i: nat, rest: seq<Token>)
    requires i < |xs|
    ensures Each(tokensOf, xs[i..]) + rest == tokensOf(xs[i]) + (Each(tokensOf, xs[i + 1..]) + rest)
  {
    EachNext(tokensOf, xs, i);
  }

  lemma SampleDataSeqAreGood(xs: seq<SampleData>)
    ensures Good(Each(TokensOfData, xs))
  {
    if xs != [] {
      SampleDataSeqAreGood(xs[1..]);
    }
  }

  /** uxr_serialize_SampleDataSeq */
  method SerializeSampleDataSeq(ub: UcdrBuffer, input: SampleDataSeq, ghost w: Log, ghost rest: seq<Token>)
      returns (ret: bool)
    requires Room(ub.St(), TokensOfDatas(input) + rest) && Written(w, ub.St(), ub.mem[..])
    modifies ub, ub.mem
    ensures Room(ub.St(), rest) && ub.mem == old(ub.mem) && (old(ub.error) ==> ub.error) && (!ub.error ==> ret)
    ensures Written(w.Add(TokensOfDatas(input)), ub.St(), ub.mem[..])
    ensures !ub.error ==> DataSeqAt(StreamOf(old(ub.St()), ub.mem[..]), old(ub.offset), input) && ub.offset == DataSeqEnd(old(ub.offset), input)
  {
    hide Means, DataSeqAt, DataSeqEnd;
    hide State.Valid, Room, Written, Each, TokensOfData;
    ghost var s, m := ub.St(), ub.mem[..];
    AddIsAssociative(w, [U32(|input|)], Each(TokensOfData, input), rest);
    ret := SerializeUint32(ub, |input|, w, Each(TokensOfData, input) + rest);
    ghost var v := w.Add([U32(|input|)]);
    var i := 0;
    EachStart(TokensOfData, input);
    AddIsAssociative(v, [], [], rest);
    while i < |input| && ret
      invariant 0 <= i <= |input| && ub.mem == old(ub.mem) && (old(ub.error) ==> ub.error) && (!ub.error ==> ret)
      invariant Room(ub.St(), Each(TokensOfData, input[i..]) + rest)
      invariant Written(v.Add(Each(TokensOfData, input[..i])), ub.St(), ub.mem[..])
    {
      ghost var tail := Each(TokensOfData, input[i + 1..]);
      EachNext(TokensOfData, input, i);
      AddIsAssociative(v, Each(TokensOfData, input[..i]), TokensOfData(input[i]), rest);
      Regroup(TokensOfData(input[i]), tail, rest);
      ret := SerializeSampleData(ub, input[i], v.Add(Each(TokensOfData, input[..i])), tail + rest);
      i := i + 1;
    }
    if i < |input| {
      EachSplit(TokensOfData, input, i);
      AddIsAssociative(v, Each(TokensOfData, input[..i]), Each(TokensOfData, input[i..]), rest);
      SampleDataSeqAreGood(input[i..]);
      FailedAnyway(v.Add(Each(TokensOfData, input[..i])), ub.St(), ub.mem[..], Each(TokensOfData, input[i..]));
      FailedHasRoom(ub.St(), Each(TokensOfData, input[i..]) + rest, rest);
    }
    if !ub.error {
      ghost var z := StreamOf(s, ub.mem[..]);
      DataSeqMeans(z, s.offset, input);
      WrittenStands(w, s, m, ub.St(), ub.mem[..], TokensOfDatas(input), DataSeqAt(z, s.offset, input), DataSeqEnd(s.offset, input));
    }
  }

  /** uxr_deserialize_SampleDataSeq */
  method DeserializeSampleDataSeq(ub: UcdrBuffer, ghost expected: seq<SampleData>, ghost rest: seq<Token>)
      returns (ret: bool, output: SampleDataSeq)
    requires |expected| <= 0xFFFF_FFFF && Expects(ub, TokensOfDatas(expected) + rest)
    modifies ub
    ensures Expects(ub, rest) && ub.mem == old(ub.mem)
    ensures (old(ub.error) ==> ub.error) && (old(ub.chain) == [] ==> ub.chain == []) && (!ub.error ==> ret)
    ensures Spells(old(ub.St()), ub.mem[..], TokensOfDatas(expected) + rest) ==>
      if |expected| <= 8 then ret && output == expected && Spells(ub.St(), ub.mem[..], rest)
      else !ret && ub.error
    ensures !ub.error ==> StreamOf(ub.St(), ub.mem[..]) == old(StreamOf(ub.St(), ub.mem[..]))
    ensures !ub.error ==> DataSeqAt(old(StreamOf(ub.St(), ub.mem[..])), old(ub.offset), output) && ub.offset == DataSeqEnd(old(ub.offset), output)
  {
    hide Uint32At, StreamOf, DataAt, DataEnd, DataRunAt, DataRunEnd, Up4;
    hide State.Valid, Spells, Each, TokensOfData, Expects;
    ghost var ahead := Each(TokensOfData, expected) + rest;
    assert TokensOfDatas(expected) + rest == [U32(|expected|)] + ahead;
    ghost var spelled := Spells(ub.St(), ub.mem[..], TokensOfDatas(expected) + rest);
    ExpectsMeans(ub, TokensOfDatas(expected) + rest);
    ghost var z, o := StreamOf(ub.St(), ub.mem[..]), ub.offset;
    var prior: uint32 := *;
    var size;
    ret, size := DeserializeUint32(ub, prior, |expected|, ahead);
    ExpectsMeans(ub, ahead);
    output := [];
    if size > SAMPLE_SEQUENCE_MAX {
      SetError(ub);
      ErrorExpectsAnything(ub, rest);
      ret := false;
    } else {
      ghost var xs: seq<SampleData> := if spelled then expected else seq(size, k => []);
      EachStart(TokensOfData, xs);
      if !spelled {
        ExpectsAnything(ub, ahead, Each(TokensOfData, xs) + rest);
      }
      DataRunStarts(z, Up4(o) + 4);
      var i := 0;
      while i < size && ret
        invariant 0 <= i <= size == |xs| && |output| == i && ub.mem == old(ub.mem) && (!ub.error ==> ret)
        invariant !ub.error ==> StreamOf(ub.St(), ub.mem[..]) == z && Uint32At(z, Up4(o), size)
        invariant !ub.error ==> DataRunAt(z, Up4(o) + 4, output) && ub.offset == DataRunEnd(Up4(o) + 4, output)
        invariant (old(ub.error) ==> ub.error) && (old(ub.chain) == [] ==> ub.chain == [])
        invariant Expects(ub, Each(TokensOfData, xs[i..]) + rest)
        invariant spelled ==> ret && output == xs[..i] && Spells(ub.St(), ub.mem[..], Each(TokensOfData, xs[i..]) + rest)
      {
        EachAhead(TokensOfData, xs, i, rest);
        var element;
        ret, element := DeserializeSampleData(ub, xs[i], Each(TokensOfData, xs[i + 1..]) + rest);
        DataRunGrows(z, Up4(o) + 4, output, element);
        output := output + [element];
        i := i + 1;
      }
      if i < size {
        ExpectsMeans(ub, Each(TokensOfData, xs[i..]) + rest);
        ErrorExpectsAnything(ub, rest);
      }
      assert [] + rest == rest;
    }
  }

  /** uxr_serialize_Sample */
  method SerializeSample(ub: UcdrBuffer, input: Sample, ghost w: Log, ghost rest: seq<Token>) returns (ret: bool)
    requires Room(ub.St(), TokensOfSample(input) + rest) && Written(w, ub.St(), ub.mem[..])
    modifies ub, ub.mem
    ensures Room(ub.St(), rest) && ub.mem == old(ub.mem) && (old(ub.error) ==> ub.error) && (!ub.error ==> ret)
    ensures ub.error && input.data != [] ==> !ret
    ensures Written(w.Add(TokensOfSample(input)), ub.St(), ub.mem[..])
    ensures !ub.error ==> SampleAt(StreamOf(old(ub.St()), ub.mem[..]), old(ub.offset), input) && ub.offset == SampleEnd(old(ub.offset), input)
  {
    hide Means, SampleAt, SampleEnd;
    hide State.Valid, Room, Written;
    ghost var s, m := ub.St(), ub.mem[..];
    AddIsAssociative(w, TokensOfInfo(input.info), TokensOfData(input.data), rest);
    ret := SerializeSampleInfo(ub, input.info, w, TokensOfData(input.data) + rest);
    var ok := SerializeSampleData(ub, input.data, w.Add(TokensOfInfo(input.info)), rest);
    ret := ret && ok;
    if !ub.error {
      ghost var z := StreamOf(s, ub.mem[..]);
      SampleMeans(z, s.offset, input);
      WrittenStands(w, s, m, ub.St(), ub.mem[..], TokensOfSample(input), SampleAt(z, s.offset, input), SampleEnd(s.offset, input));
    }
  }

  /** uxr_deserialize_Sample */
  method DeserializeSample(ub: UcdrBuffer, ghost expected: Sample, ghost rest: seq<Token>)
      returns (ret: bool, output: Sample)
    requires Expects(ub, TokensOfSample(expected) + rest)
    requires ub.chain == [] || ub.error || expected.info.detail.Valid()
    modifies ub
    ensures Expects(ub, rest) && ub.mem == old(ub.mem)
    ensures (old(ub.error) ==> ub.error) && (old(ub.chain) == [] ==> ub.chain == [])
    ensures (!ub.error ==> ret)
    ensures expected.info.detail.Valid() && Spells(old(ub.St()), ub.mem[..], TokensOfSample(expected) + rest) ==>
      ret && output == expected && Spells(ub.St(), ub.mem[..], rest)
    ensures !ub.error ==> StreamOf(ub.St(), ub.mem[..]) == old(StreamOf(ub.St(), ub.mem[..]))
    ensures !ub.error ==> SampleAt(old(StreamOf(ub.St(), ub.mem[..])), old(ub.offset), output) && ub.offset == SampleEnd(old(ub.offset), output)
  {
    hide InfoAt, InfoEnd, DataAt, DataEnd, StreamOf;
    hide State.Valid, Spells;
    ghost var tail := TokensOfData(expected.data) + rest;
    assert TokensOfSample(expected) + rest == TokensOfInfo(expected.info) + tail;
    var info, data, ok;
    ret, info := DeserializeSampleInfo(ub, expected.info, tail);
    ok, data := DeserializeSampleData(ub, expected.data, rest);
    ret := ret && ok;
    output := Sample(info, data);
  }

  lemma SampleSeqAreGood(xs: seq<Sample>)
    ensures Good(Each(TokensOfSample, xs))
  {
    if xs != [] {
      SampleSeqAreGood(xs[1..]);
    }
  }

  /** uxr_serialize_SampleSeq */
  method SerializeSampleSeq(ub: UcdrBuffer, input: SampleSeq, ghost w: Log, ghost rest: seq<Token>) returns (ret: bool)
    requires Room(ub.St(), TokensOfSamples(input) + rest) && Written(w, ub.St(), ub.mem[..])
    modifies ub, ub.mem
    ensures Room(ub.St(), rest) && ub.mem == old(ub.mem) && (old(ub.error) ==> ub.error) && (!ub.error ==> ret)
    ensures Written(w.Add(TokensOfSamples(input)), ub.St(), ub.mem[..])
    ensures !ub.error ==> SampleSeqAt(StreamOf(old(ub.St()), ub.mem[..]), old(ub.offset), input) && ub.offset == SampleSeqEnd(old(ub.offset), input)
  {
    hide Means, SampleSeqAt, SampleSeqEnd;
    hide State.Valid, Room, Written, Each, TokensOfSample;
    ghost var s, m := ub.St(), ub.mem[..];
    AddIsAssociative(w, [U32(|input|)], Each(TokensOfSample, input), rest);
    ret := SerializeUint32(ub, |input|, w, Each(TokensOfSample, input) + rest);
    ghost var v := w.Add([U32(|input|)]);
    var i := 0;
    EachStart(TokensOfSample, input);
    AddIsAssociative(v, [], [], rest);
    while i < |input| && ret
      invariant 0 <= i <= |input| && ub.mem == old(ub.mem) && (old(ub.error) ==> ub.error) && (!ub.error ==> ret)
      invariant Room(ub.St(), Each(TokensOfSample, input[i..]) + rest)
      invariant Written(v.Add(Each(TokensOfSample, input[..i])), ub.St(), ub.mem[..])
    {
      ghost var tail := Each(TokensOfSample, input[i + 1..]);
      EachNext(TokensOfSample, input, i);
      AddIsAssociative(v, Each(TokensOfSample, input[..i]), TokensOfSample(input[i]), rest);
      Regroup(TokensOfSample(input[i]), tail, rest);
      ret := SerializeSample(ub, input[i], v.Add(Each(TokensOfSample, input[..i])), tail + rest);
      i := i + 1;
    }
    if i < |input| {
      EachSplit(TokensOfSample, input, i);
      AddIsAssociative(v, Each(TokensOfSample, input[..i]), Each(TokensOfSample, input[i..]), rest);
      SampleSeqAreGood(input[i..]);
      FailedAnyway(v.Add(Each(TokensOfSample, input[..i])), ub.St(), ub.mem[..], Each(TokensOfSample, input[i..]));
      FailedHasRoom(ub.St(), Each(TokensOfSample, input[i..]) + rest, rest);
    }
    if !ub.error {
      ghost var z := StreamOf(s, ub.mem[..]);
      SampleSeqMeans(z, s.offset, input);
      WrittenStands(w, s, m, ub.St(), ub.mem[..], TokensOfSamples(input), SampleSeqAt(z, s.offset, input), SampleSeqEnd(s.offset, input));
    }
  }

  /** uxr_deserialize_SampleSeq */
  method DeserializeSampleSeq(ub: UcdrBuffer, ghost expected: seq<Sample>, ghost rest: seq<Token>)
      returns (ret: bool, output: SampleSeq)
    requires |expected| <= 0xFFFF_FFFF && Expects(ub, TokensOfSamples(expected) + rest)
    requires ub.chain == [] || ub.error || SamplesAreValid(expected)
    modifies ub
    ensures Expects(ub, rest) && ub.mem == old(ub.mem)
    ensures (old(ub.error) ==> ub.error) && (old(ub.chain) == [] ==> ub.chain == []) && (!ub.error ==> ret)
    ensures SamplesAreValid(expected) && Spells(old(ub.St()), ub.mem[..], TokensOfSamples(expected) + rest) ==>
      if |expected| <= 8 then ret && output == expected && Spells(ub.St(), ub.mem[..], rest)
      else !ret && ub.error
    ensures !ub.error ==> StreamOf(ub.St(), ub.mem[..]) == old(StreamOf(ub.St(), ub.mem[..]))
    ensures !ub.error ==> SampleSeqAt(old(StreamOf(ub.St(), ub.mem[..])), old(ub.offset), output) && ub.offset == SampleSeqEnd(old(ub.offset), output)
  {
    hide Uint32At, StreamOf, SampleAt, SampleEnd, SampleRunAt, SampleRunEnd, Up4;
    hide State.Valid, Spells, Each, TokensOfSample, Expects;
    ghost var ahead := Each(TokensOfSample, expected) + rest;
    assert TokensOfSamples(expected) + rest == [U32(|expected|)] + ahead;
    ghost var spelled := SamplesAreValid(expected) && Spells(ub.St(), ub.mem[..], TokensOfSamples(expected) + rest);
    ExpectsMeans(ub, TokensOfSamples(expected) + rest);
    ghost var z, o := StreamOf(ub.St(), ub.mem[..]), ub.offset;
    var prior: uint32 := *;
    var size;
    ret, size := DeserializeUint32(ub, prior, |expected|, ahead);
    ExpectsMeans(ub, ahead);
    output := [];
    if size > SAMPLE_SEQUENCE_MAX {
      SetError(ub);
      ErrorExpectsAnything(ub, rest);
      ret := false;
    } else {
      ghost var xs: seq<Sample> := if spelled then expected else seq(size, k => Sample(SampleInfo(0, DetailEmpty(0)), []));
      EachStart(TokensOfSample, xs);
      if !spelled {
        ExpectsAnything(ub, ahead, Each(TokensOfSample, xs) + rest);
      }
      SampleRunStarts(z, Up4(o) + 4);
      var i := 0;
      while i < size && ret
        invariant 0 <= i <= size == |xs| && |output| == i && ub.mem == old(ub.mem) && (!ub.error ==> ret)
        invariant !ub.error ==> StreamOf(ub.St(), ub.mem[..]) == z && Uint32At(z, Up4(o), size)
        invariant !ub.error ==> SampleRunAt(z, Up4(o) + 4, output) && ub.offset == SampleRunEnd(Up4(o) + 4, output)
        invariant (old(ub.error) ==> ub.error) && (old(ub.chain) == [] ==> ub.chain == [])
        invariant Expects(ub, Each(TokensOfSample, xs[i..]) + rest)
        invariant spelled ==> ret && output == xs[..i] && Spells(ub.St(), ub.mem[..], Each(TokensOfSample, xs[i..]) + rest)
      {
        EachAhead(TokensOfSample, xs, i, rest);
        var element;
        ret, element := DeserializeSample(ub, xs[i], Each(TokensOfSample, xs[i + 1..]) + rest);
        SampleRunGrows(z, Up4(o) + 4, output, element);
        output := output + [element];
        i := i + 1;
      }
      if i < size {
        ExpectsMeans(ub, Each(TokensOfSample, xs[i..]) + rest);
        ErrorExpectsAnything(ub, rest);
      }
      assert [] + rest == rest;
    }
  }

  /** uxr_serialize_SampleDelta */
  method SerializeSampleDelta(ub: UcdrBuffer, input: SampleDelta, ghost w: Log, ghost rest: seq<Token>)
      returns (ret: bool)
    requires Room(ub.St(), TokensOfDelta(input) + rest) && Written(w, ub.St(), ub.mem[..])
    modifies ub, ub.mem
    ensures Room(ub.St(), rest) && ub.mem == old(ub.mem) && (old(ub.error) ==> ub.error) && (!ub.error ==> ret)
    ensures ub.error && input.data != [] ==> !ret
    ensures Written(w.Add(TokensOfDelta(input)), ub.St(), ub.mem[..])
    ensures !ub.error ==> DeltaAt(StreamOf(old(ub.St()), ub.mem[..]), old(ub.offset), input) && ub.offset == DeltaEnd(old(ub.offset), input)
  {
    hide Means, DeltaAt, DeltaEnd;
    hide State.Valid, Room, Written;
    ghost var s, m := ub.St(), ub.mem[..];
    AddIsAssociative(w, TokensOfInfoDelta(input.infoDelta), TokensOfData(input.data), rest);
    ret := SerializeSampleInfoDelta(ub, input.infoDelta, w, TokensOfData(input.data) + rest);
    var ok := SerializeSampleData(ub, input.data, w.Add(TokensOfInfoDelta(input.infoDelta)), rest);
    ret := ret && ok;
    if !ub.error {
      ghost var z := StreamOf(s, ub.mem[..]);
      DeltaMeans(z, s.offset, input);
      WrittenStands(w, s, m, ub.St(), ub.mem[..], TokensOfDelta(input), DeltaAt(z, s.offset, input), DeltaEnd(s.offset, input));
    }
  }

  /** uxr_deserialize_SampleDelta */
  method DeserializeSampleDelta(ub: UcdrBuffer, ghost expected: SampleDelta, ghost rest: seq<Token>)
      returns (ret: bool, output: SampleDelta)
    requires Expects(ub, TokensOfDelta(expected) + rest)
    modifies ub
    ensures Expects(ub, rest) && ub.mem == old(ub.mem)
    ensures (old(ub.error) ==> ub.error) && (old(ub.chain) == [] ==> ub.chain == [])
    ensures (!ub.error ==> ret)
    ensures Spells(old(ub.St()), ub.mem[..], TokensOfDelta(expected) + rest) ==>
      ret && output == expected && Spells(ub.St(), ub.mem[..], rest)
    ensures !ub.error ==> StreamOf(ub.St(), ub.mem[..]) == old(StreamOf(ub.St(), ub.mem[..]))
    ensures !ub.error ==> DeltaAt(old(StreamOf(ub.St(), ub.mem[..])), old(ub.offset), output) && ub.offset == DeltaEnd(old(ub.offset), output)
  {
    hide InfoDeltaAt, InfoDeltaEnd, DataAt, DataEnd, StreamOf;
    hide State.Valid, Spells;
    ghost var tail := TokensOfData(expected.data) + rest;
    assert TokensOfDelta(expected) + rest == TokensOfInfoDelta(expected.infoDelta) + tail;
    var infoDelta, data, ok;
    ret, infoDelta := DeserializeSampleInfoDelta(ub, expected.infoDelta, tail);
    ok, data := DeserializeSampleData(ub, expected.data, rest);
    ret := ret && ok;
    output := SampleDelta(infoDelta, data);
  }

  lemma SampleDeltaSequenceAreGood(xs: seq<SampleDelta>)
    ensures Good(Each(TokensOfDelta, xs))
  {
    if xs != [] {
      SampleDeltaSequenceAreGood(xs[1..]);
    }
  }

  /** uxr_serialize_SampleDeltaSequence */
  method SerializeSampleDeltaSequence(ub: UcdrBuffer, input: SampleDeltaSequence, ghost w: Log, ghost rest: seq<Token>)
      returns (ret: bool)
    requires Room(ub.St(), TokensOfDeltas(input) + rest) && Written(w, ub.St(), ub.mem[..])
    modifies ub, ub.mem
    ensures Room(ub.St(), rest) && ub.mem == old(ub.mem) && (old(ub.error) ==> ub.error) && (!ub.error ==> ret)
    ensures Written(w.Add(TokensOfDeltas(input)), ub.St(), ub.mem[..])
    ensures !ub.error ==> DeltaSeqAt(StreamOf(old(ub.St()), ub.mem[..]), old(ub.offset), input) && ub.offset == DeltaSeqEnd(old(ub.offset), input)
  {
    hide Means, DeltaSeqAt, DeltaSeqEnd;
    hide State.Valid, Room, Written, Each, TokensOfDelta;
    ghost var s, m := ub.St(), ub.mem[..];
    AddIsAssociative(w, [U32(|input|)], Each(TokensOfDelta, input), rest);
    ret := SerializeUint32(ub, |input|, w, Each(TokensOfDelta, input) + rest);
    ghost var v := w.Add([U32(|input|)]);
    var i := 0;
    EachStart(TokensOfDelta, input);
    AddIsAssociative(v, [], [], rest);
    while i < |input| && ret
      invariant 0 <= i <= |input| && ub.mem == old(ub.mem) && (old(ub.error) ==> ub.error) && (!ub.error ==> ret)
      invariant Room(ub.St(), Each(TokensOfDelta, input[i..]) + rest)
      invariant Written(v.Add(Each(TokensOfDelta, input[..i])), ub.St(), ub.mem[..])
    {
      ghost var tail := Each(TokensOfDelta, input[i + 1..]);
      EachNext(TokensOfDelta, input, i);
      AddIsAssociative(v, Each(TokensOfDelta, input[..i]), TokensOfDelta(input[i]), rest);
      Regroup(TokensOfDelta(input[i]), tail, rest);
      ret := SerializeSampleDelta(ub, input[i], v.Add(Each(TokensOfDelta, input[..i])), tail + rest);
      i := i + 1;
    }
    if i < |input| {
      EachSplit(TokensOfDelta, input, i);
      AddIsAssociative(v, Each(TokensOfDelta, input[..i]), Each(TokensOfDelta, input[i..]), rest);
      SampleDeltaSequenceAreGood(input[i..]);
      FailedAnyway(v.Add(Each(TokensOfDelta, input[..i])), ub.St(), ub.mem[..], Each(TokensOfDelta, input[i..]));
      FailedHasRoom(ub.St(), Each(TokensOfDelta, input[i..]) + rest, rest);
    }
    if !ub.error {
      ghost var z := StreamOf(s, ub.mem[..]);
      DeltaSeqMeans(z, s.offset, input);
      WrittenStands(w, s, m, ub.St(), ub.mem[..], TokensOfDeltas(input), DeltaSeqAt(z, s.offset, input), DeltaSeqEnd(s.offset, input));
    }
  }

  /** uxr_deserialize_SampleDeltaSequence */
  method DeserializeSampleDeltaSequence(ub: UcdrBuffer, ghost expected: seq<SampleDelta>, ghost rest: seq<Token>)
      returns (ret: bool, output: SampleDeltaSequence)
    requires |expected| <= 0xFFFF_FFFF && Expects(ub, TokensOfDeltas(expected) + rest)
    modifies ub
    ensures Expects(ub, rest) && ub.mem == old(ub.mem)
    ensures (old(ub.error) ==> ub.error) && (old(ub.chain) == [] ==> ub.chain == []) && (!ub.error ==> ret)
    ensures Spells(old(ub.St()), ub.mem[..], TokensOfDeltas(expected) + rest) ==>
      if |expected| <= 8 then ret && output == expected && Spells(ub.St(), ub.mem[..], rest)
      else !ret && ub.error
    ensures !ub.error ==> StreamOf(ub.St(), ub.mem[..]) == old(StreamOf(ub.St(), ub.mem[..]))
    ensures !ub.error ==> DeltaSeqAt(old(StreamOf(ub.St(), ub.mem[..])), old(ub.offset), output) && ub.offset == DeltaSeqEnd(old(ub.offset), output)
  {
    hide Uint32At, StreamOf, DeltaAt, DeltaEnd, DeltaRunAt, DeltaRunEnd, Up4;
    hide State.Valid, Spells, Each, TokensOfDelta, Expects;
    ghost var ahead := Each(TokensOfDelta, expected) + rest;
    assert TokensOfDeltas(expected) + rest == [U32(|expected|)] + ahead;
    ghost var spelled := Spells(ub.St(), ub.mem[..], TokensOfDeltas(expected) + rest);
    ExpectsMeans(ub, TokensOfDeltas(expected) + rest);
    ghost var z, o := StreamOf(ub.St(), ub.mem[..]), ub.offset;
    var prior: uint32 := *;
    var size;
    ret, size := DeserializeUint32(ub, prior, |expected|, ahead);
    ExpectsMeans(ub, ahead);
    output := [];
    if size > SAMPLE_SEQUENCE_MAX {
      SetError(ub);
      ErrorExpectsAnything(ub, rest);
      ret := false;
    } else {
      ghost var xs: seq<SampleDelta> := if spelled then expected else seq(size, k => SampleDelta(SampleInfoDelta(0, 0, 0), []));
      EachStart(TokensOfDelta, xs);
      if !spelled {
        ExpectsAnything(ub, ahead, Each(TokensOfDelta, xs) + rest);
      }
      DeltaRunStarts(z, Up4(o) + 4);
      var i := 0;
      while i < size && ret
        invariant 0 <= i <= size == |xs| && |output| == i && ub.mem == old(ub.mem) && (!ub.error ==> ret)
        invariant !ub.error ==> StreamOf(ub.St(), ub.mem[..]) == z && Uint32At(z, Up4(o), size)
        invariant !ub.error ==> DeltaRunAt(z, Up4(o) + 4, output) && ub.offset == DeltaRunEnd(Up4(o) + 4, output)
        invariant (old(ub.error) ==> ub.error) && (old(ub.chain) == [] ==> ub.chain == [])
        invariant Expects(ub, Each(TokensOfDelta, xs[i..]) + rest)
        invariant spelled ==> ret && output == xs[..i] && Spells(ub.St(), ub.mem[..], Each(TokensOfDelta, xs[i..]) + rest)
      {
        EachAhead(TokensOfDelta, xs, i, rest);
        var element;
        ret, element := DeserializeSampleDelta(ub, xs[i], Each(TokensOfDelta, xs[i + 1..]) + rest);
        DeltaRunGrows(z, Up4(o) + 4, output, element);
        output := output + [element];
        i := i + 1;
      }
      if i < size {
        ExpectsMeans(ub, Each(TokensOfDelta, xs[i..]) + rest);
        ErrorExpectsAnything(ub, rest);
      }
      assert [] + rest == rest;
    }
  }

  /** uxr_serialize_PackedSamples */
  method SerializePackedSamples(ub: UcdrBuffer, input: PackedSamples, ghost w: Log, ghost rest: seq<Token>)
      returns (ret: bool)
    requires Room(ub.St(), TokensOfPacked(input) + rest) && Written(w, ub.St(), ub.mem[..])
    modifies ub, ub.mem
    ensures Room(ub.St(), rest) && ub.mem == old(ub.mem) && (old(ub.error) ==> ub.error) && (!ub.error ==> ret)
    ensures Written(w.Add(TokensOfPacked(input)), ub.St(), ub.mem[..])
    ensures !ub.error ==> PackedAt(StreamOf(old(ub.St()), ub.mem[..]), old(ub.offset), input) && ub.offset == PackedEnd(old(ub.offset), input)
  {
    hide Means, PackedAt, PackedEnd;
    hide State.Valid, Room, Written;
    ghost var s, m := ub.St(), ub.mem[..];
    AddIsAssociative(w, TokensOfInfo(input.infoBase), TokensOfDeltas(input.sampleDeltaSeq), rest);
    ret := SerializeSampleInfo(ub, input.infoBase, w, TokensOfDeltas(input.sampleDeltaSeq) + rest);
    var ok := SerializeSampleDeltaSequence(ub, input.sampleDeltaSeq, w.Add(TokensOfInfo(input.infoBase)), rest);
    ret := ret && ok;
    if !ub.error {
      ghost var z := StreamOf(s, ub.mem[..]);
      PackedMeans(z, s.offset, input);
      WrittenStands(w, s, m, ub.St(), ub.mem[..], TokensOfPacked(input), PackedAt(z, s.offset, input), PackedEnd(s.offset, input));
    }
  }

  /** uxr_deserialize_PackedSamples */
  method DeserializePackedSamples(ub: UcdrBuffer, ghost expected: PackedSamples, ghost rest: seq<Token>)
      returns (ret: bool, output: PackedSamples)
    requires Expects(ub, TokensOfPacked(expected) + rest)
    requires ub.chain == [] || ub.error || expected.infoBase.detail.Valid()
    modifies ub
    ensures Expects(ub, rest) && ub.mem == old(ub.mem)
    ensures (old(ub.error) ==> ub.error) && (old(ub.chain) == [] ==> ub.chain == [])
    ensures (!ub.error ==> ret)
    ensures expected.infoBase.detail.Valid() && Spells(old(ub.St()), ub.mem[..], TokensOfPacked(expected) + rest) ==>
      ret && output == expected && Spells(ub.St(), ub.mem[..], rest)
    ensures !ub.error ==> StreamOf(ub.St(), ub.mem[..]) == old(StreamOf(ub.St(), ub.mem[..]))
    ensures !ub.error ==> PackedAt(old(StreamOf(ub.St(), ub.mem[..])), old(ub.offset), output) && ub.offset == PackedEnd(old(ub.offset), output)
  {
    hide InfoAt, InfoEnd, DeltaSeqAt, DeltaSeqEnd, StreamOf;
    hide State.Valid, Spells;
    ghost var tail := TokensOfDeltas(expected.sampleDeltaSeq) + rest;
    assert TokensOfPacked(expected) + rest == TokensOfInfo(expected.infoBase) + tail;
    var infoBase, sampleDeltaSeq, ok;
    ret, infoBase := DeserializeSampleInfo(ub, expected.infoBase, tail);
    ok, sampleDeltaSeq := DeserializeSampleDeltaSequence(ub, expected.sampleDeltaSeq, rest);
    ret := ret && ok;
    output := PackedSamples(infoBase, sampleDeltaSeq);
  }

  lemma SamplePackedSeqAreGood(xs: seq<PackedSamples>)
    ensures Good(Each(TokensOfPacked, xs))
  {
    if xs != [] {
      InfoIsGood(xs[0].infoBase);
      SampleDeltaSequenceAreGood(xs[0].sampleDeltaSeq);
      SamplePackedSeqAreGood(xs[1..]);
    }
  }

  /** uxr_serialize_SamplePackedSeq */
  method SerializeSamplePackedSeq(ub: UcdrBuffer, input: SamplePackedSeq, ghost w: Log, ghost rest: seq<Token>)
      returns (ret: bool)
    requires Room(ub.St(), TokensOfPackeds(input) + rest) && Written(w, ub.St(), ub.mem[..])
    modifies ub, ub.mem
    ensures Room(ub.St(), rest) && ub.mem == old(ub.mem) && (old(ub.error) ==> ub.error) && (!ub.error ==> ret)
    ensures Written(w.Add(TokensOfPackeds(input)), ub.St(), ub.mem[..])
    ensures !ub.error ==> PackedSeqAt(StreamOf(old(ub.St()), ub.mem[..]), old(ub.offset), input) && ub.offset == PackedSeqEnd(old(ub.offset), input)
  {
    hide Means, PackedSeqAt, PackedSeqEnd;
    hide State.Valid, Room, Written, Each, TokensOfPacked;
    ghost var s, m := ub.St(), ub.mem[..];
    AddIsAssociative(w, [U32(|input|)], Each(TokensOfPacked, input), rest);
    ret := SerializeUint32(ub, |input|, w, Each(TokensOfPacked, input) + rest);
    ghost var v := w.Add([U32(|input|)]);
    var i := 0;
    EachStart(TokensOfPacked, input);
    AddIsAssociative(v, [], [], rest);
    while i < |input| && ret
      invariant 0 <= i <= |input| && ub.mem == old(ub.mem) && (old(ub.error) ==> ub.error) && (!ub.error ==> ret)
      invariant Room(ub.St(), Each(TokensOfPacked, input[i..]) + rest)
      invariant Written(v.Add(Each(TokensOfPacked, input[..i])), ub.St(), ub.mem[..])
    {
      ghost var tail := Each(TokensOfPacked, input[i + 1..]);
      EachNext(TokensOfPacked, input, i);
      AddIsAssociative(v, Each(TokensOfPacked, input[..i]), TokensOfPacked(input[i]), rest);
      Regroup(TokensOfPacked(input[i]), tail, rest);
      ret := SerializePackedSamples(ub, input[i], v.Add(Each(TokensOfPacked, input[..i])), tail + rest);
      i := i + 1;
    }
    if i < |input| {
      EachSplit(TokensOfPacked, input, i);
      AddIsAssociative(v, Each(TokensOfPacked, input[..i]), Each(TokensOfPacked, input[i..]), rest);
      SamplePackedSeqAreGood(input[i..]);
      FailedAnyway(v.Add(Each(TokensOfPacked, input[..i])), ub.St(), ub.mem[..], Each(TokensOfPacked, input[i..]));
      FailedHasRoom(ub.St(), Each(TokensOfPacked, input[i..]) + rest, rest);
    }
    if !ub.error {
      ghost var z := StreamOf(s, ub.mem[..]);
      PackedSeqMeans(z, s.offset, input);
      WrittenStands(w, s, m, ub.St(), ub.mem[..], TokensOfPackeds(input), PackedSeqAt(z, s.offset, input), PackedSeqEnd(s.offset, input));
    }
  }

  /** uxr_deserialize_SamplePackedSeq */
  method DeserializeSamplePackedSeq(ub: UcdrBuffer, ghost expected: seq<PackedSamples>, ghost rest: seq<Token>)
      returns (ret: bool, output: SamplePackedSeq)
    requires |expected| <= 0xFFFF_FFFF && Expects(ub, TokensOfPackeds(expected) + rest)
    requires ub.chain == [] || ub.error || PackedAreValid(expected)
    modifies ub
    ensures Expects(ub, rest) && ub.mem == old(ub.mem)
    ensures (old(ub.error) ==> ub.error) && (old(ub.chain) == [] ==> ub.chain == []) && (!ub.error ==> ret)
    ensures PackedAreValid(expected) && Spells(old(ub.St()), ub.mem[..], TokensOfPackeds(expected) + rest) ==>
      if |expected| <= 8 then ret && output == expected && Spells(ub.St(), ub.mem[..], rest)
      else !ret && ub.error
    ensures !ub.error ==> StreamOf(ub.St(), ub.mem[..]) == old(StreamOf(ub.St(), ub.mem[..]))
    ensures !ub.error ==> PackedSeqAt(old(StreamOf(ub.St(), ub.mem[..])), old(ub.offset), output) && ub.offset == PackedSeqEnd(old(ub.offset), output)
  {
    hide Uint32At, StreamOf, PackedAt, PackedEnd, PackedRunAt, PackedRunEnd, Up4;
    hide State.Valid, Spells, Each, TokensOfPacked, Expects;
    ghost var ahead := Each(TokensOfPacked, expected) + rest;
    assert TokensOfPackeds(expected) + rest == [U32(|expected|)] + ahead;
    ghost var spelled := PackedAreValid(expected) && Spells(ub.St(), ub.mem[..], TokensOfPackeds(expected) + rest);
    ExpectsMeans(ub, TokensOfPackeds(expected) + rest);
    ghost var z, o := StreamOf(ub.St(), ub.mem[..]), ub.offset;
    var prior: uint32 := *;
    var size;
    ret, size := DeserializeUint32(ub, prior, |expected|, ahead);
    ExpectsMeans(ub, ahead);
    output := [];
    if size > SAMPLE_SEQUENCE_MAX {
      SetError(ub);
      ErrorExpectsAnything(ub, rest);
      ret := false;
    } else {
      ghost var xs: seq<PackedSamples> := if spelled then expected else seq(size, k => PackedSamples(SampleInfo(0, DetailEmpty(0)), []));
      EachStart(TokensOfPacked, xs);
      if !spelled {
        ExpectsAnything(ub, ahead, Each(TokensOfPacked, xs) + rest);
      }
      PackedRunStarts(z, Up4(o) + 4);
      var i := 0;
      while i < size && ret
        invariant 0 <= i <= size == |xs| && |output| == i && ub.mem == old(ub.mem) && (!ub.error ==> ret)
        invariant !ub.error ==> StreamOf(ub.St(), ub.mem[..]) == z && Uint32At(z, Up4(o), size)
        invariant !ub.error ==> PackedRunAt(z, Up4(o) + 4, output) && ub.offset == PackedRunEnd(Up4(o) + 4, output)
        invariant (old(ub.error) ==> ub.error) && (old(ub.chain) == [] ==> ub.chain == [])
        invariant Expects(ub, Each(TokensOfPacked, xs[i..]) + rest)
        invariant spelled ==> ret && output == xs[..i] && Spells(ub.St(), ub.mem[..], Each(TokensOfPacked, xs[i..]) + rest)
      {
        EachAhead(TokensOfPacked, xs, i, rest);
        var element;
        ret, element := DeserializePackedSamples(ub, xs[i], Each(TokensOfPacked, xs[i + 1..]) + rest);
        PackedRunGrows(z, Up4(o) + 4, output, element);
        output := output + [element];
        i := i + 1;
      }
      if i < size {
        ExpectsMeans(ub, Each(TokensOfPacked, xs[i..]) + rest);
        ErrorExpectsAnything(ub, rest);
      }
      assert [] + rest == rest;
    }
  }

  /** uxr_serialize_DataRepresentation */
  method SerializeDataRepresentation(ub: UcdrBuffer, input: DataRepresentation, ghost w: Log, ghost rest: seq<Token>)
      returns (ret: bool)
    requires Room(ub.St(), TokensOf(input) + rest) && Written(w, ub.St(), ub.mem[..])
    modifies ub, ub.mem
    ensures Room(ub.St(), rest) && ub.mem == old(ub.mem) && (old(ub.error) ==> ub.error) && (!ub.error ==> ret)
    ensures Written(w.Add(TokensOf(input)), ub.St(), ub.mem[..])
    ensures !ub.error ==> RepresentationAt(StreamOf(old(ub.St()), ub.mem[..]), old(ub.offset), input) && ub.offset == RepresentationEnd(old(ub.offset), input)
  {
    hide Means, RepresentationAt, RepresentationEnd;
    hide State.Valid, Room, Written;
    hide TokensOfData, TokensOfSample, TokensOfDatas, TokensOfSamples, TokensOfPacked;
    ghost var s, m := ub.St(), ub.mem[..];
    AddIsAssociative(w, [U8(input.Format())], Body(input), rest);
    RoomIsValid(ub.St(), TokensOf(input) + rest);
    ret := SerializeUint8(ub, input.Format(), w, Body(input) + rest);
    ghost var v := w.Add([U8(input.Format())]);
    if ret {
      match input
      case Data(data) =>
        ret := SerializeSampleData(ub, data, v, rest);
      case OneSample(sample) =>
        ret := SerializeSample(ub, sample, v, rest);
      case DataSeq(xs) =>
        ret := SerializeSampleDataSeq(ub, xs, v, rest);
      case Samples(xs) =>
        ret := SerializeSampleSeq(ub, xs, v, rest);
      case Packed(packed) =>
        ret := SerializePackedSamples(ub, packed, v, rest);
      case Other(_) =>
        AddIsAssociative(v, [], [], rest);
    } else {
      BodyIsGood(input);
      FailedAnyway(v, ub.St(), ub.mem[..], Body(input));
      FailedHasRoom(ub.St(), Body(input) + rest, rest);
    }
    if !ub.error {
      ghost var z := StreamOf(s, ub.mem[..]);
      RepresentationMeans(z, s.offset, input);
      WrittenStands(w, s, m, ub.St(), ub.mem[..], TokensOf(input), RepresentationAt(z, s.offset, input), RepresentationEnd(s.offset, input));
    }
  }

  lemma BodyIsGood(x: DataRepresentation)
    ensures Good(Body(x))
  {
    match x
    case Data(_) =>
    case OneSample(sample) => InfoIsGood(sample.info);
    case DataSeq(xs) => SampleDataSeqAreGood(xs);
    case Samples(xs) => SampleSeqAreGood(xs);
    case Packed(packed) =>
      InfoIsGood(packed.infoBase);
      SampleDeltaSequenceAreGood(packed.sampleDeltaSeq);
    case Other(_) =>
  }

  /** uxr_deserialize_DataRepresentation */
  method DeserializeDataRepresentation(ub: UcdrBuffer, ghost expected: DataRepresentation, ghost rest: seq<Token>)
      returns (ret: bool, output: DataRepresentation)
    requires Expects(ub, TokensOf(expected) + rest)
    requires ub.chain == [] || ub.error || expected.Valid()
    modifies ub
    ensures Expects(ub, rest) && ub.mem == old(ub.mem)
    ensures (old(ub.error) ==> ub.error) && (old(ub.chain) == [] ==> ub.chain == [])
    ensures (!ub.error ==> ret)
    ensures expected.Valid() && Spells(old(ub.St()), ub.mem[..], TokensOf(expected) + rest) ==>
      ret && output == expected && Spells(ub.St(), ub.mem[..], rest)
    ensures !ub.error ==> StreamOf(ub.St(), ub.mem[..]) == old(StreamOf(ub.St(), ub.mem[..]))
    ensures !ub.error ==> RepresentationAt(old(StreamOf(ub.St(), ub.mem[..])), old(ub.offset), output) && ub.offset == RepresentationEnd(old(ub.offset), output)
  {
    hide DataAt, DataEnd, SampleAt, SampleEnd, DataSeqAt, DataSeqEnd, SampleSeqAt, SampleSeqEnd, PackedAt;
    hide PackedEnd, ByteAt, StreamOf;
    hide State.Valid, Spells;
    hide TokensOfData, TokensOfSample, TokensOfDatas, TokensOfSamples, TokensOfPacked;
    assert TokensOf(expected) + rest == [U8(expected.Format())] + (Body(expected) + rest);
    var prior: byte := *;
    var format;
    ret, format := DeserializeUint8(ub, prior, expected.Format(), Body(expected) + rest);
    output := Other(format);
    if ret {
      if format == FORMAT_DATA {
        var data;
        ret, data := DeserializeSampleData(ub, if expected.Data? then expected.data else [], rest);
        output := Data(data);
      } else if format == FORMAT_SAMPLE {
        var sample;
        ret, sample := DeserializeSample(ub, if expected.OneSample? then expected.sample else Sample(SampleInfo(0, DetailEmpty(0)), []), rest);
        output := OneSample(sample);
      } else if format == FORMAT_DATA_SEQ {
        var xs;
        ret, xs := DeserializeSampleDataSeq(ub, if expected.DataSeq? then expected.dataSeq else [], rest);
        output := DataSeq(xs);
      } else if format == FORMAT_SAMPLE_SEQ {
        var xs;
        ret, xs := DeserializeSampleSeq(ub, if expected.Samples? then expected.sampleSeq else [], rest);
        output := Samples(xs);
      } else if format == FORMAT_PACKED_SAMPLES {
        var packed;
        ret, packed := DeserializePackedSamples(ub, if expected.Packed? then expected.packedSamples else PackedSamples(SampleInfo(0, DetailEmpty(0)), []), rest);
        output := Packed(packed);
      } else {
        assert [] + rest == rest;
      }
    }
  }

  /** A reader anywhere else finds what the writer wrote, if its path has the same bytes, its
      offset is the same modulo 8 and its byte order the same.  How either path is cut into
      areas, and the size of the last value on either side, play no part. */
  lemma WrittenIsSpelled(w: Log, s: State, m: seq<byte>, r: State, n: seq<byte>, bytes: seq<byte>)
    requires Written(w, s, m) && !s.error && !r.error
    requires r.offset % 8 == w.start.offset % 8 && r.endianness == w.start.endianness
    requires s.pos == w.start.pos + |bytes| <= |w.start.path| && r.pos + |bytes| <= |r.path|
    requires Holds(m, w.start.path, w.start.pos, bytes) && Holds(n, r.path, r.pos, bytes)
    ensures Spells(r, n, w.tokens)
  {
    hide CellsOf, Layout, State.Shape, SameExcept;
    LayoutIsPeriodic(w.tokens, w.start.offset, r.offset, w.start.endianness);
    var cells := Layout(w.tokens, w.start.offset, w.start.endianness);
    forall i | r.pos <= i < r.pos + |cells|
      ensures cells[i - r.pos].Octet? ==> r.path[i] < |n| && n[r.path[i]] == cells[i - r.pos].value
    {
      var j := w.start.pos + (i - r.pos);
      assert cells[j - w.start.pos] == cells[i - r.pos];
      assert bytes[i - r.pos] == n[r.path[i]] && bytes[j - w.start.pos] == m[w.start.path[j]];
    }
  }

  /** The same for a reader over the very path that the writer started on. */
  lemma SamePathIsSpelled(w: Log, s: State, m: seq<byte>, r: State)
    requires Written(w, s, m) && !s.error && !r.error
    requires r.offset % 8 == w.start.offset % 8 && r.endianness == w.start.endianness
    requires r.path == w.start.path && r.pos == w.start.pos
    ensures Spells(r, m, w.tokens)
  {
    hide Written, Spells, Layout, CellsOf, SameExcept;
    WrittenMeans(w, s, m);
    LayoutIsPeriodic(w.tokens, w.start.offset, r.offset, w.start.endianness);
    SpelledHere(w.tokens, r, m);
  }

  lemma SpelledHere(tokens: seq<Token>, r: State, m: seq<byte>)
    requires Good(tokens) && !r.error && HoldsCells(m, r.path, r.pos, Layout(tokens, r.offset, r.endianness))
    ensures Spells(r, m, tokens)
  {
    hide Layout;
  }

  /** Decoding undoes encoding.  Writer and reader go over the same bytes of memory, each cut into
      areas in its own way, in the same byte order and at offsets equal modulo 8: the writer fails
      exactly if the value does not fit, and otherwise the reader gets the value back. */
  method EncodeThenDecode(writer: UcdrBuffer, reader: UcdrBuffer, value: DataRepresentation)
      returns (failed: bool, ret: bool, copy: DataRepresentation)
    requires value.Valid() && writer != reader && writer.mem == reader.mem && !writer.error && !reader.error
    requires Room(writer.St(), TokensOf(value))
    requires reader.St().Valid() && (reader.chain == [] || reader.minArea >= 4)
    requires reader.path == writer.path && reader.pos == writer.pos
    requires reader.offset % 8 == writer.offset % 8 && reader.endianness == writer.endianness
    modifies writer, reader, writer.mem
    ensures failed <==> RepresentationEnd(old(writer.offset), value) - old(writer.offset) > old(writer.St().Left())
    ensures !failed ==> RepresentationAt(StreamOf(old(writer.St()), writer.mem[..]), old(writer.offset), value)
    ensures !failed ==> ret && copy == value
  {
    hide State.Valid, Written, Spells, TokensOf, Room, Layout, RepresentationAt, RepresentationEnd;
    ghost var start, w, tokens := writer.St(), Log(writer.St(), writer.mem[..], []), TokensOf(value);
    RoomIsValid(start, tokens);
    ValidMeans(writer);
    NothingWrittenYet(start, writer.mem[..]);
    assert w.Add(tokens).tokens == tokens && tokens + [] == tokens;
    BodyIsGood(value);
    ret := SerializeDataRepresentation(writer, value, w, []);
    failed := writer.error;
    ghost var s := writer.St();
    WrittenMeans(w.Add(tokens), s, writer.mem[..]);
    SizeIsEnd(start, s, writer.mem[..], value);
    copy := value;
    if !failed {
      SamePathIsSpelled(w.Add(tokens), s, writer.mem[..], reader.St());
      ret, copy := DeserializeDataRepresentation(reader, value, []);
    }
  }

  /** The value takes as many bytes as there are up to its end. */
  lemma SizeIsEnd(s: State, t: State, m: seq<byte>, value: DataRepresentation)
    requires Good(TokensOf(value)) && Advanced(s, t, |Layout(TokensOf(value), s.offset, s.endianness)|) && !s.error
    ensures t.error <==> RepresentationEnd(s.offset, value) - s.offset > s.Left()
  {
    hide TokensOf, Layout, RepresentationAt, RepresentationEnd;
    RepresentationMeans(StreamOf(s, m), s.offset, value);
  }
}

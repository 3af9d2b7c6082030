/** Encodings of some values, written out. */
module WireExamples {
  import opened SeqNum
  import opened Memory
  import opened MicroCdr
  import opened CdrTokens
  import opened SampleTypes
  import opened WireFormat
  import opened SampleCodec

  /** A fresh memory of n zeros, and a writer at its beginning. */
  method NewWriter(n: nat, endianness: Endianness) returns (ub: UcdrBuffer)
    ensures fresh(ub) && fresh(ub.mem) && ub.mem.Length == n && ub.mem[..] == seq(n, i => 0)
    ensures ub.St().Valid() && !ub.error && ub.endianness == endianness && ub.chain == []
    ensures ub.path == Range(0, n) && ub.pos == 0 && ub.offset == 0
  {
    var mem := new byte[n](i => 0);
    ub := new UcdrBuffer(mem, 0, n, 0, 0, endianness);
  }

  /** Over the whole memory the byte at an offset is the byte at that index. */
  lemma ByteInMemory(z: Stream, o: nat)
    requires z.path == Range(0, |z.memory|) && z.shift == 0 && o < |z.memory|
    ensures ByteAt(z, o) == z.memory[o]
  {}

  /** The bytes of a small number. */
  lemma SmallUint32(z: Stream, o: nat, n: byte)
    requires z.path == Range(0, |z.memory|) && z.shift == 0 && o + 4 <= |z.memory| && Uint32At(z, o, n)
    ensures z.memory[o..o + 4] == if z.big then [0, 0, 0, n] else [n, 0, 0, 0]
  {
    ByteInMemory(z, o);
    ByteInMemory(z, o + 1);
    ByteInMemory(z, o + 2);
    ByteInMemory(z, o + 3);
  }

  /** The sequence number comes before the time offset. */
  method TimestampBytes(endianness: Endianness) returns (bytes: seq<byte>)
    ensures bytes == if endianness.Big? then [0, 0, 0, 1, 0, 0, 0, 2] else [1, 0, 0, 0, 2, 0, 0, 0]
  {
    hide State.Valid, Written, Uint32At, Layout;
    var ub := NewWriter(8, endianness);
    var value := SeqNumberAndTimestamp(1, 2);
    ghost var s, w := ub.St(), Log(ub.St(), ub.mem[..], []);
    Begin(ub, TokensOfTimestamp(value));
    var ret := SerializeSeqNumberAndTimestamp(ub, value, w, []);
    ghost var z := StreamOf(s, ub.mem[..]);
    TimestampMeans(z, 0, value);
    assert w.Add(TokensOfTimestamp(value)).tokens == TokensOfTimestamp(value);
    WrittenFits(w, s, ub.St(), ub.mem[..], TokensOfTimestamp(value), TimestampAt(z, 0, value), 8);
    SmallUint32(z, 0, 1);
    SmallUint32(z, 4, 2);
    bytes := ub.mem[..];
    assert bytes == bytes[0..4] + bytes[4..8];
  }

  /** What a writer in a single area needs before it starts. */
  lemma Begin(ub: UcdrBuffer, tokens: seq<Token>)
    requires ub.St().Valid() && ub.chain == []
    ensures Room(ub.St(), tokens + []) && Written(Log(ub.St(), ub.mem[..], []), ub.St(), ub.mem[..])
  {
    hide Written;
    ValidGives(ub.St());
    NothingWrittenYet(ub.St(), ub.mem[..]);
  }

  /** With room for all of it the writer does not fail. */
  lemma WrittenFits(w: Log, s: State, t: State, m: seq<byte>, tokens: seq<Token>, at: bool, end: nat)
    requires w.start == s && w.tokens == [] && !s.error && s.offset == s.pos == 0 && end <= |s.path|
    requires Written(w.Add(tokens), t, m) && Means(StreamOf(s, m), 0, tokens, at, end)
    ensures !t.error
  {
    hide Layout, HoldsCells, SameExcept, State.Shape;
    assert w.Add(tokens).tokens == tokens;
  }

  /** A delta: two single bytes, and the time in two. */
  method DeltaBytes(endianness: Endianness) returns (bytes: seq<byte>)
    ensures bytes == if endianness.Big? then [7, 8, 1, 2] else [7, 8, 2, 1]
  {
    hide State.Valid, Written, Layout, TokensOfInfoDelta;
    var ub := NewWriter(4, endianness);
    var value := SampleInfoDelta(7, 8, 0x0102);
    ghost var s, w := ub.St(), Log(ub.St(), ub.mem[..], []);
    Begin(ub, TokensOfInfoDelta(value));
    var ret := SerializeSampleInfoDelta(ub, value, w, []);
    ghost var z := StreamOf(s, ub.mem[..]);
    InfoDeltaMeans(z, 0, value);
    WrittenFits(w, s, ub.St(), ub.mem[..], TokensOfInfoDelta(value), InfoDeltaAt(z, 0, value), 4);
    ByteInMemory(z, 0);
    ByteInMemory(z, 1);
    ByteInMemory(z, 2);
    ByteInMemory(z, 3);
    bytes := ub.mem[..];
  }

  lemma TwoBytesAt(z: Stream, o: nat, bytes: seq<byte>)
    requires z.path == Range(0, |z.memory|) && z.shift == 0
    requires o + 2 <= |z.memory| && |bytes| == 2 && BytesAt(z, o, bytes)
    ensures z.memory[o..o + 2] == bytes
  {
    ByteInMemory(z, o);
    ByteInMemory(z, o + 1);
    assert ByteAt(z, o + 0) == bytes[0] && ByteAt(z, o + 1) == bytes[1];
  }

  /** A sample: its format, the state, two bytes of padding, the format of the detail with both
      numbers, the length of the data and the data. */
  method SampleBytes() returns (bytes: seq<byte>)
    ensures |bytes| == 22 && bytes[0] == 0x02 && bytes[1] == 5
    ensures bytes[4..] == [0, 0, 0, 2] + [0, 0, 0, 1] + [0, 0, 0, 3] + [0, 0, 0, 2] + [9, 8]
  {
    hide State.Valid, Written, Layout, TokensOf, RepresentationAt;
    var ub := NewWriter(22, Big);
    var value := OneSample(Sample(SampleInfo(5, DetailTimestamp(SeqNumberAndTimestamp(1, 3))), [9, 8]));
    ghost var s, w := ub.St(), Log(ub.St(), ub.mem[..], []);
    Begin(ub, TokensOf(value));
    var ret := SerializeDataRepresentation(ub, value, w, []);
    ghost var z := StreamOf(s, ub.mem[..]);
    RepresentationMeans(z, 0, value);
    WrittenFits(w, s, ub.St(), ub.mem[..], TokensOf(value), RepresentationAt(z, 0, value), 22);
    bytes := ub.mem[..];
    SampleStands(z, value);
  }

  lemma SampleStands(z: Stream, value: DataRepresentation)
    requires z.path == Range(0, |z.memory|) && z.shift == 0 && z.big && |z.memory| == 22
    requires value == OneSample(Sample(SampleInfo(5, DetailTimestamp(SeqNumberAndTimestamp(1, 3))), [9, 8]))
    requires RepresentationAt(z, 0, value)
    ensures z.memory[0] == 0x02 && z.memory[1] == 5
    ensures z.memory[4..] == [0, 0, 0, 2] + [0, 0, 0, 1] + [0, 0, 0, 3] + [0, 0, 0, 2] + [9, 8]
  {
    hide Uint32At, BytesAt, ByteAt;
    ByteInMemory(z, 0);
    ByteInMemory(z, 1);
    SmallUint32(z, 4, 2);
    SmallUint32(z, 8, 1);
    SmallUint32(z, 12, 3);
    SmallUint32(z, 16, 2);
    TwoBytesAt(z, 20, [9, 8]);
    Slices(z.memory);
  }

  lemma Slices(m: seq<byte>)
    requires |m| == 22
    ensures m[4..] == m[4..8] + m[8..12] + m[12..16] + m[16..20] + m[20..22]
  {}
}

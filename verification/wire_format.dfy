/** The sample family on the wire, byte by byte: which bytes stand at which offset of a CDR stream.
    Single values are aligned to their size and stand in the byte order of the stream. */
module WireFormat {
  import opened SeqNum
  import opened Memory
  import opened MicroCdr
  import opened CdrTokens
  import opened SampleTypes

  /** A CDR stream in memory: the byte at offset o stands at path[o + shift]. */
  datatype Stream = Stream(memory: seq<byte>, path: seq<nat>, shift: int, big: bool)

  ghost function StreamOf(s: State, m: seq<byte>): Stream {
    Stream(m, s.path, s.pos - s.offset, s.endianness.Big?)
  }

  /** The byte at offset o, -1 if the stream has none. */
  ghost function ByteAt(z: Stream, o: int): int {
    var i := o + z.shift;
    if 0 <= i < |z.path| && z.path[i] < |z.memory| then z.memory[z.path[i]] else -1
  }

  // Single values

  ghost predicate Uint16At(z: Stream, o: int, n: int) {
    var b0, b1 := ByteAt(z, o), ByteAt(z, o + 1);
    b0 >= 0 && b1 >= 0 && n == if z.big then b0 * 256 + b1 else b1 * 256 + b0
  }

  ghost predicate Uint32At(z: Stream, o: int, n: int) {
    var b0, b1, b2, b3 := ByteAt(z, o), ByteAt(z, o + 1), ByteAt(z, o + 2), ByteAt(z, o + 3);
    && b0 >= 0 && b1 >= 0 && b2 >= 0 && b3 >= 0
    && n == if z.big
       then b0 * 16777216 + b1 * 65536 + b2 * 256 + b3
       else b3 * 16777216 + b2 * 65536 + b1 * 256 + b0
  }

  ghost predicate BytesAt(z: Stream, o: int, bytes: seq<byte>) {
    forall i | 0 <= i < |bytes| :: ByteAt(z, o + i) == bytes[i]
  }

  /** The next multiple of 2, and of 4. */
  function Up2(o: nat): nat {
    (o + 1) / 2 * 2
  }

  function Up4(o: nat): nat {
    (o + 3) / 4 * 4
  }

  // The sample family (srcs/serialization/xrce_types.c): where each field stands, and where the
  // value ends

  ghost predicate TimestampAt(z: Stream, o: nat, x: SeqNumberAndTimestamp) {
    Uint32At(z, Up4(o), x.sequenceNumber) && Uint32At(z, Up4(o) + 4, x.sessionTimeOffset)
  }

  function TimestampEnd(o: nat): nat {
    Up4(o) + 8
  }

  ghost predicate DetailAt(z: Stream, o: nat, x: SampleInfoDetail) {
    var p := Up4(o);
    match x
    case DetailEmpty(n) => Uint32At(z, p, 0) && Uint32At(z, p + 4, n)
    case DetailSeqnum(n) => Uint32At(z, p, 1) && Uint32At(z, p + 4, n)
    case DetailTimestamp(t) =>
      Uint32At(z, p, 2) && Uint32At(z, p + 4, t.sequenceNumber) && Uint32At(z, p + 8, t.sessionTimeOffset)
    case DetailOther(format) => Uint32At(z, p, format)
  }

  function DetailEnd(o: nat, x: SampleInfoDetail): nat {
    match x
    case DetailEmpty(_) => Up4(o) + 8
    case DetailSeqnum(_) => Up4(o) + 8
    case DetailTimestamp(_) => Up4(o) + 12
    case DetailOther(_) => Up4(o) + 4
  }

  ghost predicate InfoAt(z: Stream, o: nat, x: SampleInfo) {
    ByteAt(z, o) == x.state && DetailAt(z, o + 1, x.detail)
  }

  function InfoEnd(o: nat, x: SampleInfo): nat {
    DetailEnd(o + 1, x.detail)
  }

  ghost predicate InfoDeltaAt(z: Stream, o: nat, x: SampleInfoDelta) {
    ByteAt(z, o) == x.state && ByteAt(z, o + 1) == x.seqNumberDelta && Uint16At(z, Up2(o + 2), x.timestampDelta)
  }

  function InfoDeltaEnd(o: nat): nat {
    Up2(o + 2) + 2
  }

  ghost predicate DataAt(z: Stream, o: nat, x: seq<byte>) {
    Uint32At(z, Up4(o), |x|) && BytesAt(z, Up4(o) + 4, x)
  }

  function DataEnd(o: nat, x: seq<byte>): nat {
    Up4(o) + 4 + |x|
  }

  ghost predicate SampleAt(z: Stream, o: nat, x: Sample) {
    InfoAt(z, o, x.info) && DataAt(z, InfoEnd(o, x.info), x.data)
  }

  function SampleEnd(o: nat, x: Sample): nat {
    DataEnd(InfoEnd(o, x.info), x.data)
  }

  ghost predicate DeltaAt(z: Stream, o: nat, x: SampleDelta) {
    InfoDeltaAt(z, o, x.infoDelta) && DataAt(z, InfoDeltaEnd(o), x.data)
  }

  function DeltaEnd(o: nat, x: SampleDelta): nat {
    DataEnd(InfoDeltaEnd(o), x.data)
  }

  /** The elements of a sequence stand one after the other, behind how many they are. */
  ghost predicate DataRunAt(z: Stream, o: nat, xs: seq<SampleData>)
    decreases |xs|
  {
    xs != [] ==> DataAt(z, o, xs[0]) && DataRunAt(z, DataEnd(o, xs[0]), xs[1..])
  }

  function DataRunEnd(o: nat, xs: seq<SampleData>): nat
    decreases |xs|
  {
    if xs == [] then o else DataRunEnd(DataEnd(o, xs[0]), xs[1..])
  }

  ghost predicate DataSeqAt(z: Stream, o: nat, xs: seq<SampleData>) {
    Uint32At(z, Up4(o), |xs|) && DataRunAt(z, Up4(o) + 4, xs)
  }

  function DataSeqEnd(o: nat, xs: seq<SampleData>): nat {
    DataRunEnd(Up4(o) + 4, xs)
  }

  ghost predicate SampleRunAt(z: Stream, o: nat, xs: seq<Sample>)
    decreases |xs|
  {
    xs != [] ==> SampleAt(z, o, xs[0]) && SampleRunAt(z, SampleEnd(o, xs[0]), xs[1..])
  }

  function SampleRunEnd(o: nat, xs: seq<Sample>): nat
    decreases |xs|
  {
    if xs == [] then o else SampleRunEnd(SampleEnd(o, xs[0]), xs[1..])
  }

  ghost predicate SampleSeqAt(z: Stream, o: nat, xs: seq<Sample>) {
    Uint32At(z, Up4(o), |xs|) && SampleRunAt(z, Up4(o) + 4, xs)
  }

  function SampleSeqEnd(o: nat, xs: seq<Sample>): nat {
    SampleRunEnd(Up4(o) + 4, xs)
  }

  ghost predicate DeltaRunAt(z: Stream, o: nat, xs: seq<SampleDelta>)
    decreases |xs|
  {
    xs != [] ==> DeltaAt(z, o, xs[0]) && DeltaRunAt(z, DeltaEnd(o, xs[0]), xs[1..])
  }

  function DeltaRunEnd(o: nat, xs: seq<SampleDelta>): nat
    decreases |xs|
  {
    if xs == [] then o else DeltaRunEnd(DeltaEnd(o, xs[0]), xs[1..])
  }

  ghost predicate DeltaSeqAt(z: Stream, o: nat, xs: seq<SampleDelta>) {
    Uint32At(z, Up4(o), |xs|) && DeltaRunAt(z, Up4(o) + 4, xs)
  }

  function DeltaSeqEnd(o: nat, xs: seq<SampleDelta>): nat {
    DeltaRunEnd(Up4(o) + 4, xs)
  }

  ghost predicate PackedAt(z: Stream, o: nat, x: PackedSamples) {
    InfoAt(z, o, x.infoBase) && DeltaSeqAt(z, InfoEnd(o, x.infoBase), x.sampleDeltaSeq)
  }

  function PackedEnd(o: nat, x: PackedSamples): nat {
    DeltaSeqEnd(InfoEnd(o, x.infoBase), x.sampleDeltaSeq)
  }

  ghost predicate PackedRunAt(z: Stream, o: nat, xs: seq<PackedSamples>)
    decreases |xs|
  {
    xs != [] ==> PackedAt(z, o, xs[0]) && PackedRunAt(z, PackedEnd(o, xs[0]), xs[1..])
  }

  function PackedRunEnd(o: nat, xs: seq<PackedSamples>): nat
    decreases |xs|
  {
    if xs == [] then o else PackedRunEnd(PackedEnd(o, xs[0]), xs[1..])
  }

  ghost predicate PackedSeqAt(z: Stream, o: nat, xs: seq<PackedSamples>) {
    Uint32At(z, Up4(o), |xs|) && PackedRunAt(z, Up4(o) + 4, xs)
  }

  function PackedSeqEnd(o: nat, xs: seq<PackedSamples>): nat {
    PackedRunEnd(Up4(o) + 4, xs)
  }

  ghost predicate RepresentationAt(z: Stream, o: nat, x: DataRepresentation) {
    match x
    case Data(data) => ByteAt(z, o) == 0x00 && DataAt(z, o + 1, data)
    case OneSample(sample) => ByteAt(z, o) == 0x02 && SampleAt(z, o + 1, sample)
    case DataSeq(xs) => ByteAt(z, o) == 0x08 && DataSeqAt(z, o + 1, xs)
    case Samples(xs) => ByteAt(z, o) == 0x0A && SampleSeqAt(z, o + 1, xs)
    case Packed(packed) => ByteAt(z, o) == 0x0E && PackedAt(z, o + 1, packed)
    case Other(format) => ByteAt(z, o) == format
  }

  function RepresentationEnd(o: nat, x: DataRepresentation): nat {
    match x
    case Data(data) => DataEnd(o + 1, data)
    case OneSample(sample) => SampleEnd(o + 1, sample)
    case DataSeq(xs) => DataSeqEnd(o + 1, xs)
    case Samples(xs) => SampleSeqEnd(o + 1, xs)
    case Packed(packed) => PackedEnd(o + 1, packed)
    case Other(_) => o + 1
  }

  // Tokens are these bytes

  /** The tokens stand in the stream from offset o on. */
  ghost predicate TokensAt(z: Stream, o: nat, tokens: seq<Token>) {
    var holds :=
      && Good(tokens) && o + z.shift >= 0
      && HoldsCells(z.memory, z.path, o + z.shift, Layout(tokens, o, EndiannessOf(z)));
    holds
  }

  function EndiannessOf(z: Stream): Endianness {
    if z.big then Big else Little
  }

  ghost function TokensEnd(z: Stream, o: nat, tokens: seq<Token>): nat
    requires Good(tokens)
  {
    o + |Layout(tokens, o, EndiannessOf(z))|
  }

  /** There is room up to offset o. */
  ghost predicate Reaches(z: Stream, o: int) {
    0 <= o + z.shift <= |z.path|
  }

  /** Good tokens that end at `end`, and stand at o exactly if `at`. */
  ghost predicate Means(z: Stream, o: nat, tokens: seq<Token>, at: bool, end: nat) {
    var holds :=
      && Good(tokens) && TokensEnd(z, o, tokens) == end
      && (Reaches(z, o) ==> (TokensAt(z, o, tokens) <==> at))
      && (TokensAt(z, o, tokens) ==> Reaches(z, end));
    holds
  }

  /** One after the other. */
  lemma BothMean(z: Stream, o: nat, a: seq<Token>, at: bool, mid: nat, b: seq<Token>, bt: bool, end: nat)
    requires Means(z, o, a, at, mid) && Means(z, mid, b, bt, end)
    ensures Means(z, o, a + b, at && bt, end)
  {
    hide Layout, HoldsCells;
    LayoutConcat(a, b, o, EndiannessOf(z));
    var x, y := Layout(a, o, EndiannessOf(z)), Layout(b, mid, EndiannessOf(z));
    if TokensAt(z, o, a + b) {
      CellsSplit(z.memory, z.path, o + z.shift, x, y);
    }
    if TokensAt(z, o, a) && TokensAt(z, mid, b) {
      CellsMeet(z.memory, z.path, o + z.shift, x, y);
    }
    if Reaches(z, o) && TokensAt(z, o, a) {
      CellsFit(z.memory, z.path, o + z.shift, x);
    }
  }

  lemma CellsMeet(m: seq<byte>, path: seq<nat>, at: nat, a: seq<Cell>, b: seq<Cell>)
    requires HoldsCells(m, path, at, a) && HoldsCells(m, path, at + |a|, b)
    ensures HoldsCells(m, path, at, a + b)
  {
    forall i | at <= i < at + |a + b|
      ensures (a + b)[i - at].Octet? ==> path[i] < |m| && m[path[i]] == (a + b)[i - at].value
    {
      if i < at + |a| {
        assert (a + b)[i - at] == a[i - at];
      } else {
        assert (a + b)[i - at] == b[i - at - |a|];
      }
    }
  }

  lemma OctetsMeet(z: Stream, p: nat, bytes: seq<byte>)
    requires Reaches(z, p)
    ensures HoldsCells(z.memory, z.path, p + z.shift, Octets(bytes)) <==> Reaches(z, p + |bytes|) && BytesAt(z, p, bytes)
  {
    var at := p + z.shift;
    if HoldsCells(z.memory, z.path, at, Octets(bytes)) {
      OctetsAreHeld(z.memory, z.path, at, bytes);
      forall i | 0 <= i < |bytes|
        ensures ByteAt(z, p + i) == bytes[i]
      {
        assert z.path[at + i] < |z.memory|;
      }
    }
    if Reaches(z, p + |bytes|) && BytesAt(z, p, bytes) {
      forall i | at <= i < at + |bytes|
        ensures z.path[i] < |z.memory| && z.memory[z.path[i]] == Octets(bytes)[i - at].value
      {
        assert ByteAt(z, p + (i - at)) == bytes[i - at];
      }
    }
  }

  lemma GapsMeet(m: seq<byte>, path: seq<nat>, at: nat, n: nat)
    requires at + n <= |path|
    ensures HoldsCells(m, path, at, Gaps(n))
  {}

  /** One token: padding, and then its bytes. */
  lemma TokenMeans(z: Stream, o: nat, token: Token)
    requires GoodToken(token)
    ensures var p, bytes := o + PaddingOf(token, o), BytesOf(token, EndiannessOf(z));
      Means(z, o, [token], Reaches(z, p + |bytes|) && BytesAt(z, p, bytes), p + |bytes|)
  {
    hide PaddingOf, BytesOf, HoldsCells, BytesAt;
    LayoutOfOne(token, o, EndiannessOf(z));
    var pad, bytes := PaddingOf(token, o), BytesOf(token, EndiannessOf(z));
    var cells := Gaps(pad) + Octets(bytes);
    assert Good([token]);
    if o + z.shift >= 0 && HoldsCells(z.memory, z.path, o + z.shift, cells) {
      CellsFit(z.memory, z.path, o + z.shift, cells);
      CellsSplit(z.memory, z.path, o + z.shift, Gaps(pad), Octets(bytes));
      OctetsMeet(z, o + pad, bytes);
    }
    if Reaches(z, o) && Reaches(z, o + pad + |bytes|) && BytesAt(z, o + pad, bytes) {
      OctetsMeet(z, o + pad, bytes);
      GapsMeet(z.memory, z.path, o + z.shift, pad);
      CellsMeet(z.memory, z.path, o + z.shift, Gaps(pad), Octets(bytes));
    }
  }

  lemma NothingMeans(z: Stream, o: nat)
    ensures Means(z, o, [], true, o)
  {}

  lemma SameMeaning(z: Stream, o: nat, tokens: seq<Token>, at: bool, end: nat, as_: bool)
    requires Means(z, o, tokens, at, end) && (Reaches(z, o) ==> (at <==> as_))
    ensures Means(z, o, tokens, as_, end)
  {}

  lemma UpToEight(o: nat)
    ensures (if o % 8 == 0 then o else o + (8 - o % 8)) == (o + 7) / 8 * 8
  {}

  lemma UpToFour(o: nat)
    ensures (if o % 4 == 0 then o else o + (4 - o % 4)) == (o + 3) / 4 * 4
  {}

  lemma UpToTwo(o: nat)
    ensures (if o % 2 == 0 then o else o + (2 - o % 2)) == (o + 1) / 2 * 2
  {}

  /** The CDR rule for every size: up to the next multiple of it. */
  lemma PaddingIsTheRule(o: nat)
    ensures Padding(o, 1) == 0 && o + Padding(o, 2) == (o + 1) / 2 * 2
    ensures o + Padding(o, 4) == (o + 3) / 4 * 4 && o + Padding(o, 8) == (o + 7) / 8 * 8
  {
    UpToEight(o);
    UpToFour(o);
    UpToTwo(o);
  }

  /** Values are padded to the next multiple of their size. */
  lemma PaddedUp(o: nat)
    ensures o + Padding(o, 2) == Up2(o) && o + Padding(o, 4) == Up4(o) && Padding(o, 1) == 0
  {
    PaddingIsTheRule(o);
  }

  lemma U8Means(z: Stream, o: nat, n: byte)
    ensures Means(z, o, [U8(n)], ByteAt(z, o) == n, o + 1)
  {
    hide Means, Padding;
    TokenMeans(z, o, U8(n));
    PaddedUp(o);
    assert BytesOf(U8(n), EndiannessOf(z)) == [n];
    var at := Reaches(z, o + 1) && BytesAt(z, o, [n]);
    assert BytesAt(z, o, [n]) <==> ByteAt(z, o + 0) == [n][0];
    SameMeaning(z, o, [U8(n)], at, o + 1, ByteAt(z, o) == n);
  }

  lemma U16Means(z: Stream, o: nat, n: uint16)
    ensures Means(z, o, [U16(n)], Uint16At(z, Up2(o), n), Up2(o) + 2)
  {
    hide Means, Padding, Up2;
    TokenMeans(z, o, U16(n));
    PaddedUp(o);
    var p, bytes := Up2(o), BytesOf(U16(n), EndiannessOf(z));
    U16Bytes(z, p, n);
    SameMeaning(z, o, [U16(n)], Reaches(z, p + 2) && BytesAt(z, p, bytes), p + 2, Uint16At(z, p, n));
  }

  lemma U16Bytes(z: Stream, p: nat, n: uint16)
    ensures Reaches(z, p + 2) && BytesAt(z, p, BytesOf(U16(n), EndiannessOf(z))) <==> Uint16At(z, p, n)
  {
    var bytes := BytesOf(U16(n), EndiannessOf(z));
    var high, low := n / 256, n % 256;
    assert if z.big then bytes == [high, low] else bytes == [low, high];
    assert BytesAt(z, p, bytes) <==> ByteAt(z, p + 0) == bytes[0] && ByteAt(z, p + 1) == bytes[1];
  }

  lemma U32Means(z: Stream, o: nat, n: uint32)
    ensures Means(z, o, [U32(n)], Uint32At(z, Up4(o), n), Up4(o) + 4)
  {
    hide Means, Padding, Up4;
    TokenMeans(z, o, U32(n));
    PaddedUp(o);
    var p, bytes := Up4(o), BytesOf(U32(n), EndiannessOf(z));
    U32Bytes(z, p, n);
    SameMeaning(z, o, [U32(n)], Reaches(z, p + 4) && BytesAt(z, p, bytes), p + 4, Uint32At(z, p, n));
  }

  lemma U32Bytes(z: Stream, p: nat, n: uint32)
    ensures Reaches(z, p + 4) && BytesAt(z, p, BytesOf(U32(n), EndiannessOf(z))) <==> Uint32At(z, p, n)
  {
    hide U32, BytesOf;
    var b0, b1, b2, b3 := BytesOfUint32(z, n);
    if z.big {
      FourBytesAt(z, p, b0, b1, b2, b3);
      FourBytesAre(ByteAt(z, p), ByteAt(z, p + 1), ByteAt(z, p + 2), ByteAt(z, p + 3), b0, b1, b2, b3);
    } else {
      FourBytesAt(z, p, b3, b2, b1, b0);
      FourBytesAre(ByteAt(z, p + 3), ByteAt(z, p + 2), ByteAt(z, p + 1), ByteAt(z, p), b0, b1, b2, b3);
    }
  }

  lemma BytesOfUint32(z: Stream, n: uint32) returns (b0: byte, b1: byte, b2: byte, b3: byte)
    ensures BytesOf(U32(n), EndiannessOf(z)) == if z.big then [b0, b1, b2, b3] else [b3, b2, b1, b0]
    ensures n == b0 * 16777216 + b1 * 65536 + b2 * 256 + b3
  {
    hide Be32;
    b0, b1, b2, b3 := BytesOfBe32(n);
  }

  lemma BytesOfBe32(n: uint32) returns (b0: byte, b1: byte, b2: byte, b3: byte)
    ensures Be32(n) == [b0, b1, b2, b3] && n == b0 * 16777216 + b1 * 65536 + b2 * 256 + b3
  {
    var high, low := n / 0x1_0000, n % 0x1_0000;
    b0, b1, b2, b3 := high / 0x100, high % 0x100, low / 0x100, low % 0x100;
  }

  lemma FourBytesAt(z: Stream, p: nat, b0: byte, b1: byte, b2: byte, b3: byte)
    ensures Reaches(z, p + 4) && BytesAt(z, p, [b0, b1, b2, b3]) <==>
      (ByteAt(z, p) == b0 && ByteAt(z, p + 1) == b1 && ByteAt(z, p + 2) == b2 && ByteAt(z, p + 3) == b3)
  {
    var bytes := [b0, b1, b2, b3];
    if BytesAt(z, p, bytes) {
      assert ByteAt(z, p + 0) == bytes[0];
      assert ByteAt(z, p + 1) == bytes[1];
      assert ByteAt(z, p + 2) == bytes[2];
      assert ByteAt(z, p + 3) == bytes[3];
    }
  }

  lemma FourBytesAre(x0: int, x1: int, x2: int, x3: int, b0: byte, b1: byte, b2: byte, b3: byte)
    requires x0 < 256 && x1 < 256 && x2 < 256 && x3 < 256
    ensures (x0 == b0 && x1 == b1 && x2 == b2 && x3 == b3) <==>
      (x0 >= 0 && x1 >= 0 && x2 >= 0 && x3 >= 0
       && b0 * 16777216 + b1 * 65536 + b2 * 256 + b3 == x0 * 16777216 + x1 * 65536 + x2 * 256 + x3)
  {}

  lemma BlockMeans(z: Stream, o: nat, bytes: seq<byte>)
    ensures Means(z, o, [Block(bytes)], Reaches(z, o + |bytes|) && BytesAt(z, o, bytes), o + |bytes|)
  {
    hide Means;
    TokenMeans(z, o, Block(bytes));
  }

  // The tokens of the sample family

  lemma TimestampMeans(z: Stream, o: nat, x: SeqNumberAndTimestamp)
    ensures Means(z, o, TokensOfTimestamp(x), TimestampAt(z, o, x), TimestampEnd(o))
  {
    hide Means, U32, Uint32At;
    U32Means(z, o, x.sequenceNumber);
    U32Means(z, Up4(o) + 4, x.sessionTimeOffset);
    BothMean(z, o, [U32(x.sequenceNumber)], Uint32At(z, Up4(o), x.sequenceNumber), Up4(o) + 4,
      [U32(x.sessionTimeOffset)], Uint32At(z, Up4(o) + 4, x.sessionTimeOffset), Up4(o) + 8);
  }

  lemma DetailMeans(z: Stream, o: nat, x: SampleInfoDetail)
    ensures Means(z, o, TokensOfDetail(x), DetailAt(z, o, x), DetailEnd(o, x))
  {
    hide Means, U32, Uint32At, TokensOfTimestamp;
    var p := Up4(o);
    U32Means(z, o, x.Format());
    match x
    case DetailEmpty(n) =>
      U32Means(z, p + 4, n);
      BothMean(z, o, [U32(0)], Uint32At(z, p, 0), p + 4, [U32(n)], Uint32At(z, p + 4, n), p + 8);
    case DetailSeqnum(n) =>
      U32Means(z, p + 4, n);
      BothMean(z, o, [U32(1)], Uint32At(z, p, 1), p + 4, [U32(n)], Uint32At(z, p + 4, n), p + 8);
    case DetailTimestamp(t) =>
      TimestampMeans(z, p + 4, t);
      BothMean(z, o, [U32(2)], Uint32At(z, p, 2), p + 4, TokensOfTimestamp(t), TimestampAt(z, p + 4, t), p + 12);
    case DetailOther(format) =>
      NothingMeans(z, p + 4);
      BothMean(z, o, [U32(format)], Uint32At(z, p, format), p + 4, [], true, p + 4);
  }

  lemma InfoMeans(z: Stream, o: nat, x: SampleInfo)
    ensures Means(z, o, TokensOfInfo(x), InfoAt(z, o, x), InfoEnd(o, x))
  {
    hide Means, U8, TokensOfDetail, DetailAt, DetailEnd;
    U8Means(z, o, x.state);
    DetailMeans(z, o + 1, x.detail);
    BothMean(z, o, [U8(x.state)], ByteAt(z, o) == x.state, o + 1,
      TokensOfDetail(x.detail), DetailAt(z, o + 1, x.detail), InfoEnd(o, x));
  }

  lemma InfoDeltaMeans(z: Stream, o: nat, x: SampleInfoDelta)
    ensures Means(z, o, TokensOfInfoDelta(x), InfoDeltaAt(z, o, x), InfoDeltaEnd(o))
  {
    hide Means, U8, U16, Uint16At;
    U8Means(z, o, x.state);
    U8Means(z, o + 1, x.seqNumberDelta);
    U16Means(z, o + 2, x.timestampDelta);
    var p := Up2(o + 2);
    BothMean(z, o + 1, [U8(x.seqNumberDelta)], ByteAt(z, o + 1) == x.seqNumberDelta, o + 2,
      [U16(x.timestampDelta)], Uint16At(z, p, x.timestampDelta), p + 2);
    BothMean(z, o, [U8(x.state)], ByteAt(z, o) == x.state, o + 1, [U8(x.seqNumberDelta)] + [U16(x.timestampDelta)],
      ByteAt(z, o + 1) == x.seqNumberDelta && Uint16At(z, p, x.timestampDelta), p + 2);
  }

  lemma DataMeans(z: Stream, o: nat, x: SampleData)
    ensures Means(z, o, TokensOfData(x), DataAt(z, o, x), DataEnd(o, x))
  {
    hide Means, U32, BytesAt;
    var p := Up4(o);
    U32Means(z, o, |x|);
    BlockMeans(z, p + 4, x);
    BothMean(z, o, [U32(|x|)], Uint32At(z, p, |x|), p + 4, [Block(x)], Reaches(z, p + 4 + |x|) && BytesAt(z, p + 4, x), p + 4 + |x|);
    if Uint32At(z, p, |x|) && BytesAt(z, p + 4, x) {
      LastByteReaches(z, p + 4, x);
    }
    SameMeaning(z, o, TokensOfData(x), Uint32At(z, p, |x|) && Reaches(z, p + 4 + |x|) && BytesAt(z, p + 4, x), DataEnd(o, x), DataAt(z, o, x));
  }

  lemma LastByteReaches(z: Stream, o: nat, bytes: seq<byte>)
    requires Reaches(z, o) && BytesAt(z, o, bytes)
    ensures Reaches(z, o + |bytes|)
  {
    if bytes != [] {
      assert ByteAt(z, o + (|bytes| - 1)) == bytes[|bytes| - 1];
    }
  }

  lemma SampleMeans(z: Stream, o: nat, x: Sample)
    ensures Means(z, o, TokensOfSample(x), SampleAt(z, o, x), SampleEnd(o, x))
  {
    hide Means, TokensOfInfo, TokensOfData, InfoAt, DataAt, InfoEnd, DataEnd;
    InfoMeans(z, o, x.info);
    DataMeans(z, InfoEnd(o, x.info), x.data);
    BothMean(z, o, TokensOfInfo(x.info), InfoAt(z, o, x.info), InfoEnd(o, x.info),
      TokensOfData(x.data), DataAt(z, InfoEnd(o, x.info), x.data), SampleEnd(o, x));
  }

  lemma DeltaMeans(z: Stream, o: nat, x: SampleDelta)
    ensures Means(z, o, TokensOfDelta(x), DeltaAt(z, o, x), DeltaEnd(o, x))
  {
    hide Means, TokensOfInfoDelta, TokensOfData, InfoDeltaAt, DataAt, InfoDeltaEnd, DataEnd;
    InfoDeltaMeans(z, o, x.infoDelta);
    DataMeans(z, InfoDeltaEnd(o), x.data);
    BothMean(z, o, TokensOfInfoDelta(x.infoDelta), InfoDeltaAt(z, o, x.infoDelta), InfoDeltaEnd(o),
      TokensOfData(x.data), DataAt(z, InfoDeltaEnd(o), x.data), DeltaEnd(o, x));
  }

  lemma {:induction false} DataRunMeans(z: Stream, o: nat, xs: seq<SampleData>)
    ensures Means(z, o, Each(TokensOfData, xs), DataRunAt(z, o, xs), DataRunEnd(o, xs))
    decreases |xs|
  {
    hide Means, TokensOfData, DataAt, DataEnd;
    if xs == [] {
      NothingMeans(z, o);
    } else {
      var mid := DataEnd(o, xs[0]);
      DataMeans(z, o, xs[0]);
      DataRunMeans(z, mid, xs[1..]);
      BothMean(z, o, TokensOfData(xs[0]), DataAt(z, o, xs[0]), mid,
        Each(TokensOfData, xs[1..]), DataRunAt(z, mid, xs[1..]), DataRunEnd(mid, xs[1..]));
    }
  }

  lemma DataSeqMeans(z: Stream, o: nat, xs: seq<SampleData>)
    requires |xs| <= 0xFFFF_FFFF
    ensures Means(z, o, TokensOfDatas(xs), DataSeqAt(z, o, xs), DataSeqEnd(o, xs))
  {
    hide Means, U32, Each, DataRunAt, DataRunEnd, Uint32At;
    U32Means(z, o, |xs|);
    DataRunMeans(z, Up4(o) + 4, xs);
    BothMean(z, o, [U32(|xs|)], Uint32At(z, Up4(o), |xs|), Up4(o) + 4,
      Each(TokensOfData, xs), DataRunAt(z, Up4(o) + 4, xs), DataSeqEnd(o, xs));
  }

  lemma {:induction false} SampleRunMeans(z: Stream, o: nat, xs: seq<Sample>)
    ensures Means(z, o, Each(TokensOfSample, xs), SampleRunAt(z, o, xs), SampleRunEnd(o, xs))
    decreases |xs|
  {
    hide Means, TokensOfSample, SampleAt, SampleEnd;
    if xs == [] {
      NothingMeans(z, o);
    } else {
      var mid := SampleEnd(o, xs[0]);
      SampleMeans(z, o, xs[0]);
      SampleRunMeans(z, mid, xs[1..]);
      BothMean(z, o, TokensOfSample(xs[0]), SampleAt(z, o, xs[0]), mid,
        Each(TokensOfSample, xs[1..]), SampleRunAt(z, mid, xs[1..]), SampleRunEnd(mid, xs[1..]));
    }
  }

  lemma SampleSeqMeans(z: Stream, o: nat, xs: seq<Sample>)
    requires |xs| <= 0xFFFF_FFFF
    ensures Means(z, o, TokensOfSamples(xs), SampleSeqAt(z, o, xs), SampleSeqEnd(o, xs))
  {
    hide Means, U32, Each, SampleRunAt, SampleRunEnd, Uint32At;
    U32Means(z, o, |xs|);
    SampleRunMeans(z, Up4(o) + 4, xs);
    BothMean(z, o, [U32(|xs|)], Uint32At(z, Up4(o), |xs|), Up4(o) + 4,
      Each(TokensOfSample, xs), SampleRunAt(z, Up4(o) + 4, xs), SampleSeqEnd(o, xs));
  }

  lemma {:induction false} DeltaRunMeans(z: Stream, o: nat, xs: seq<SampleDelta>)
    ensures Means(z, o, Each(TokensOfDelta, xs), DeltaRunAt(z, o, xs), DeltaRunEnd(o, xs))
    decreases |xs|
  {
    hide Means, TokensOfDelta, DeltaAt, DeltaEnd;
    if xs == [] {
      NothingMeans(z, o);
    } else {
      var mid := DeltaEnd(o, xs[0]);
      DeltaMeans(z, o, xs[0]);
      DeltaRunMeans(z, mid, xs[1..]);
      BothMean(z, o, TokensOfDelta(xs[0]), DeltaAt(z, o, xs[0]), mid,
        Each(TokensOfDelta, xs[1..]), DeltaRunAt(z, mid, xs[1..]), DeltaRunEnd(mid, xs[1..]));
    }
  }

  lemma DeltaSeqMeans(z: Stream, o: nat, xs: seq<SampleDelta>)
    requires |xs| <= 0xFFFF_FFFF
    ensures Means(z, o, TokensOfDeltas(xs), DeltaSeqAt(z, o, xs), DeltaSeqEnd(o, xs))
  {
    hide Means, U32, Each, DeltaRunAt, DeltaRunEnd, Uint32At;
    U32Means(z, o, |xs|);
    DeltaRunMeans(z, Up4(o) + 4, xs);
    BothMean(z, o, [U32(|xs|)], Uint32At(z, Up4(o), |xs|), Up4(o) + 4,
      Each(TokensOfDelta, xs), DeltaRunAt(z, Up4(o) + 4, xs), DeltaSeqEnd(o, xs));
  }

  lemma PackedMeans(z: Stream, o: nat, x: PackedSamples)
    ensures Means(z, o, TokensOfPacked(x), PackedAt(z, o, x), PackedEnd(o, x))
  {
    hide Means, TokensOfInfo, TokensOfDeltas, InfoAt, DeltaSeqAt, InfoEnd, DeltaSeqEnd;
    InfoMeans(z, o, x.infoBase);
    DeltaSeqMeans(z, InfoEnd(o, x.infoBase), x.sampleDeltaSeq);
    BothMean(z, o, TokensOfInfo(x.infoBase), InfoAt(z, o, x.infoBase), InfoEnd(o, x.infoBase),
      TokensOfDeltas(x.sampleDeltaSeq), DeltaSeqAt(z, InfoEnd(o, x.infoBase), x.sampleDeltaSeq), PackedEnd(o, x));
  }

  lemma {:induction false} PackedRunMeans(z: Stream, o: nat, xs: seq<PackedSamples>)
    ensures Means(z, o, Each(TokensOfPacked, xs), PackedRunAt(z, o, xs), PackedRunEnd(o, xs))
    decreases |xs|
  {
    hide Means, TokensOfPacked, PackedAt, PackedEnd;
    if xs == [] {
      NothingMeans(z, o);
    } else {
      var mid := PackedEnd(o, xs[0]);
      PackedMeans(z, o, xs[0]);
      PackedRunMeans(z, mid, xs[1..]);
      BothMean(z, o, TokensOfPacked(xs[0]), PackedAt(z, o, xs[0]), mid,
        Each(TokensOfPacked, xs[1..]), PackedRunAt(z, mid, xs[1..]), PackedRunEnd(mid, xs[1..]));
    }
  }

  lemma PackedSeqMeans(z: Stream, o: nat, xs: seq<PackedSamples>)
    requires |xs| <= 0xFFFF_FFFF
    ensures Means(z, o, TokensOfPackeds(xs), PackedSeqAt(z, o, xs), PackedSeqEnd(o, xs))
  {
    hide Means, U32, Each, PackedRunAt, PackedRunEnd, Uint32At;
    U32Means(z, o, |xs|);
    PackedRunMeans(z, Up4(o) + 4, xs);
    BothMean(z, o, [U32(|xs|)], Uint32At(z, Up4(o), |xs|), Up4(o) + 4,
      Each(TokensOfPacked, xs), PackedRunAt(z, Up4(o) + 4, xs), PackedSeqEnd(o, xs));
  }

  /** The format codes are those of xrce_types.h, in one byte in front of the body. */
  lemma RepresentationMeans(z: Stream, o: nat, x: DataRepresentation)
    ensures Means(z, o, TokensOf(x), RepresentationAt(z, o, x), RepresentationEnd(o, x))
  {
    hide Means, U8, TokensOfData, TokensOfSample, TokensOfDatas, TokensOfSamples, TokensOfPacked;
    hide DataAt, SampleAt, DataSeqAt, SampleSeqAt, PackedAt, DataEnd, SampleEnd, DataSeqEnd, SampleSeqEnd;
    hide PackedEnd, ByteAt;
    U8Means(z, o, x.Format());
    var end := RepresentationEnd(o, x);
    match x
    case Data(data) =>
      DataMeans(z, o + 1, data);
      BothMean(z, o, [U8(0x00)], ByteAt(z, o) == 0x00, o + 1, TokensOfData(data), DataAt(z, o + 1, data), end);
    case OneSample(sample) =>
      SampleMeans(z, o + 1, sample);
      BothMean(z, o, [U8(0x02)], ByteAt(z, o) == 0x02, o + 1, TokensOfSample(sample), SampleAt(z, o + 1, sample), end);
    case DataSeq(xs) =>
      DataSeqMeans(z, o + 1, xs);
      BothMean(z, o, [U8(0x08)], ByteAt(z, o) == 0x08, o + 1, TokensOfDatas(xs), DataSeqAt(z, o + 1, xs), end);
    case Samples(xs) =>
      SampleSeqMeans(z, o + 1, xs);
      BothMean(z, o, [U8(0x0A)], ByteAt(z, o) == 0x0A, o + 1, TokensOfSamples(xs), SampleSeqAt(z, o + 1, xs), end);
    case Packed(packed) =>
      PackedMeans(z, o + 1, packed);
      BothMean(z, o, [U8(0x0E)], ByteAt(z, o) == 0x0E, o + 1, TokensOfPacked(packed), PackedAt(z, o + 1, packed), end);
    case Other(format) =>
      NothingMeans(z, o + 1);
      BothMean(z, o, [U8(format)], ByteAt(z, o) == format, o + 1, [], true, o + 1);
  }

  // What writers leave and readers take

  /** What a writer left stands where it started to write. */
  lemma WrittenStands(w: Log, s: State, m0: seq<byte>, t: State, m1: seq<byte>, tokens: seq<Token>, at: bool, end: nat)
    requires Written(w, s, m0) && Written(w.Add(tokens), t, m1) && !t.error && (s.error ==> t.error)
    requires Means(StreamOf(s, m1), s.offset, tokens, at, end)
    ensures at && t.offset == end && StreamOf(t, m1) == StreamOf(s, m1)
  {
    hide Layout, HoldsCells, SameExcept, State.Shape, Written;
    WrittenMeans(w, s, m0);
    WrittenMeans(w.Add(tokens), t, m1);
    LayoutConcat(w.tokens, tokens, w.start.offset, w.start.endianness);
    CellsSplit(m1, s.path, w.start.pos, Layout(w.tokens, w.start.offset, w.start.endianness), Layout(tokens, s.offset, s.endianness));
  }

  /** A value that a reader took stands where it started to read. */
  lemma TakenStands(s: State, t: State, m: seq<byte>, token: Token, at: bool, end: nat)
    requires GoodToken(token) && Took(s, t, m, PaddingOf(token, s.offset), BytesOf(token, s.endianness)) && !t.error
    requires Means(StreamOf(s, m), s.offset, [token], at, end)
    ensures at && t.offset == end && StreamOf(t, m) == StreamOf(s, m) && !s.error
  {
    hide HoldsCells, State.Shape, Holds, PaddingOf, BytesOf, Took, Layout;
    var pad, bytes := PaddingOf(token, s.offset), BytesOf(token, s.endianness);
    LayoutOfOne(token, s.offset, s.endianness);
    TookFits(s, t, m, pad, bytes);
    CellsOfBytes(m, s.path, s.pos, pad, bytes);
  }

  lemma CellsOfBytes(m: seq<byte>, path: seq<nat>, at: nat, pad: nat, bytes: seq<byte>)
    requires Holds(m, path, at + pad, bytes)
    ensures HoldsCells(m, path, at, Gaps(pad) + Octets(bytes))
  {
    hide HoldsCells, Holds;
    HoldsFits(m, path, at + pad, bytes);
    GapsMeet(m, path, at, pad);
    HeldOctets(m, path, at + pad, bytes);
    CellsMeet(m, path, at, Gaps(pad), Octets(bytes));
  }

  lemma HoldsFits(m: seq<byte>, path: seq<nat>, at: nat, bytes: seq<byte>)
    requires Holds(m, path, at, bytes)
    ensures at + |bytes| <= |path|
  {}

  lemma HeldOctets(m: seq<byte>, path: seq<nat>, at: nat, bytes: seq<byte>)
    requires Holds(m, path, at, bytes)
    ensures HoldsCells(m, path, at, Octets(bytes))
  {}

  lemma TookFits(s: State, t: State, m: seq<byte>, pad: nat, bytes: seq<byte>)
    requires Took(s, t, m, pad, bytes) && !t.error
    ensures s.pos + pad + |bytes| <= |s.path| && !s.error && Holds(m, s.path, s.pos + pad, bytes)
    ensures t.pos == s.pos + pad + |bytes| && t.offset == s.offset + pad + |bytes|
    ensures t.path == s.path && t.endianness == s.endianness
  {
    hide State.Shape;
  }

  lemma {:induction false} DataRunGrows(z: Stream, o: nat, xs: seq<SampleData>, x: SampleData)
    ensures DataRunAt(z, o, xs + [x]) <==> DataRunAt(z, o, xs) && DataAt(z, DataRunEnd(o, xs), x)
    ensures DataRunEnd(o, xs + [x]) == DataEnd(DataRunEnd(o, xs), x)
    decreases |xs|
  {
    hide DataAt, DataEnd;
    if xs == [] {
      assert [] + [x] == [x] && [x][1..] == [];
    } else {
      DataRunGrows(z, DataEnd(o, xs[0]), xs[1..], x);
      assert (xs + [x])[1..] == xs[1..] + [x];
    }
  }

  lemma {:induction false} SampleRunGrows(z: Stream, o: nat, xs: seq<Sample>, x: Sample)
    ensures SampleRunAt(z, o, xs + [x]) <==> SampleRunAt(z, o, xs) && SampleAt(z, SampleRunEnd(o, xs), x)
    ensures SampleRunEnd(o, xs + [x]) == SampleEnd(SampleRunEnd(o, xs), x)
    decreases |xs|
  {
    hide SampleAt, SampleEnd;
    if xs == [] {
      assert [] + [x] == [x] && [x][1..] == [];
    } else {
      SampleRunGrows(z, SampleEnd(o, xs[0]), xs[1..], x);
      assert (xs + [x])[1..] == xs[1..] + [x];
    }
  }

  lemma {:induction false} DeltaRunGrows(z: Stream, o: nat, xs: seq<SampleDelta>, x: SampleDelta)
    ensures DeltaRunAt(z, o, xs + [x]) <==> DeltaRunAt(z, o, xs) && DeltaAt(z, DeltaRunEnd(o, xs), x)
    ensures DeltaRunEnd(o, xs + [x]) == DeltaEnd(DeltaRunEnd(o, xs), x)
    decreases |xs|
  {
    hide DeltaAt, DeltaEnd;
    if xs == [] {
      assert [] + [x] == [x] && [x][1..] == [];
    } else {
      DeltaRunGrows(z, DeltaEnd(o, xs[0]), xs[1..], x);
      assert (xs + [x])[1..] == xs[1..] + [x];
    }
  }

  lemma {:induction false} PackedRunGrows(z: Stream, o: nat, xs: seq<PackedSamples>, x: PackedSamples)
    ensures PackedRunAt(z, o, xs + [x]) <==> PackedRunAt(z, o, xs) && PackedAt(z, PackedRunEnd(o, xs), x)
    ensures PackedRunEnd(o, xs + [x]) == PackedEnd(PackedRunEnd(o, xs), x)
    decreases |xs|
  {
    hide PackedAt, PackedEnd;
    if xs == [] {
      assert [] + [x] == [x] && [x][1..] == [];
    } else {
      PackedRunGrows(z, PackedEnd(o, xs[0]), xs[1..], x);
      assert (xs + [x])[1..] == xs[1..] + [x];
    }
  }

  lemma DataRunStarts(z: Stream, o: nat)
    ensures DataRunAt(z, o, []) && DataRunEnd(o, []) == o
  {}

  lemma SampleRunStarts(z: Stream, o: nat)
    ensures SampleRunAt(z, o, []) && SampleRunEnd(o, []) == o
  {}

  lemma DeltaRunStarts(z: Stream, o: nat)
    ensures DeltaRunAt(z, o, []) && DeltaRunEnd(o, []) == o
  {}

  lemma PackedRunStarts(z: Stream, o: nat)
    ensures PackedRunAt(z, o, []) && PackedRunEnd(o, []) == o
  {}

  /** Tokens lie ahead of a buffer exactly if the bytes they mean stand where it is. */
  lemma SpelledExactly(s: State, m: seq<byte>, tokens: seq<Token>, at: bool, end: nat)
    requires Means(StreamOf(s, m), s.offset, tokens, at, end) && !s.error && s.pos <= |s.path|
    ensures Spells(s, m, tokens) <==> at
  {
    hide Layout, HoldsCells;
  }

  /** So a value can be read from just the bytes that its writer leaves. */
  lemma RepresentationIsSpelled(s: State, m: seq<byte>, x: DataRepresentation)
    requires !s.error && s.pos <= |s.path|
    ensures Spells(s, m, TokensOf(x)) <==> RepresentationAt(StreamOf(s, m), s.offset, x)
  {
    hide Means, Spells, TokensOf, RepresentationAt, RepresentationEnd;
    RepresentationMeans(StreamOf(s, m), s.offset, x);
    SpelledExactly(s, m, TokensOf(x), RepresentationAt(StreamOf(s, m), s.offset, x), RepresentationEnd(s.offset, x));
  }
}

/** The sample family of the XRCE types, and the tokens each value is made of. */
module SampleTypes {
  import opened SeqNum
  import opened Memory
  import opened CdrTokens

  const SAMPLE_DATA_SIZE_MAX := 512 // UXR_SAMPLE_DATA_SIZE_MAX
  const SAMPLE_SEQUENCE_MAX := 8 // UXR_SAMPLE_SEQUENCE_MAX and its siblings

  const FORMAT_EMPTY: uint32 := 0
  const FORMAT_SEQNUM: uint32 := 1
  const FORMAT_TIMESTAMP: uint32 := 2

  const FORMAT_DATA: byte := 0x00
  const FORMAT_SAMPLE: byte := 0x02
  const FORMAT_DATA_SEQ: byte := 0x08
  const FORMAT_SAMPLE_SEQ: byte := 0x0A
  const FORMAT_PACKED_SAMPLES: byte := 0x0E

  datatype SeqNumberAndTimestamp = SeqNumberAndTimestamp(sequenceNumber: uint32, sessionTimeOffset: uint32)

  /** The union member that the format selects; other formats select none. */
  datatype SampleInfoDetail =
    | DetailEmpty(sequenceNumber: uint32)
    | DetailSeqnum(sessionTimeOffset: uint32)
    | DetailTimestamp(seqnumAndTimestamp: SeqNumberAndTimestamp)
    | DetailOther(format_: uint32)
  {
    function Format(): uint32 {
      match this
      case DetailEmpty(_) => FORMAT_EMPTY
      case DetailSeqnum(_) => FORMAT_SEQNUM
      case DetailTimestamp(_) => FORMAT_TIMESTAMP
      case DetailOther(format) => format
    }

    ghost predicate Valid() {
      DetailOther? ==> format_ > FORMAT_TIMESTAMP
    }
  }

  datatype SampleInfo = SampleInfo(state: byte, detail: SampleInfoDetail)

  datatype SampleInfoDelta = SampleInfoDelta(state: byte, seqNumberDelta: byte, timestampDelta: uint16)

  type SampleData = data: seq<byte> | |data| <= SAMPLE_DATA_SIZE_MAX

  datatype Sample = Sample(info: SampleInfo, data: SampleData)

  datatype SampleDelta = SampleDelta(infoDelta: SampleInfoDelta, data: SampleData)

  datatype PackedSamples = PackedSamples(infoBase: SampleInfo, sampleDeltaSeq: SampleDeltaSequence)

  type SampleDataSeq = xs: seq<SampleData> | |xs| <= SAMPLE_SEQUENCE_MAX
  type SampleSeq = xs: seq<Sample> | |xs| <= SAMPLE_SEQUENCE_MAX
  type SampleDeltaSequence = xs: seq<SampleDelta> | |xs| <= SAMPLE_SEQUENCE_MAX
  type SamplePackedSeq = xs: seq<PackedSamples> | |xs| <= SAMPLE_SEQUENCE_MAX

  datatype DataRepresentation =
    | Data(data: SampleData)
    | OneSample(sample: Sample)
    | DataSeq(dataSeq: SampleDataSeq)
    | Samples(sampleSeq: SampleSeq)
    | Packed(packedSamples: PackedSamples)
    | Other(format_: byte)
  {
    function Format(): byte {
      match this
      case Data(_) => FORMAT_DATA
      case OneSample(_) => FORMAT_SAMPLE
      case DataSeq(_) => FORMAT_DATA_SEQ
      case Samples(_) => FORMAT_SAMPLE_SEQ
      case Packed(_) => FORMAT_PACKED_SAMPLES
      case Other(format) => format
    }

    /** The format is that of the union member, and so is every format inside. */
    ghost predicate Valid() {
      match this
      case Data(_) => true
      case OneSample(sample) => sample.info.detail.Valid()
      case DataSeq(_) => true
      case Samples(xs) => SamplesAreValid(xs)
      case Packed(packed) => packed.infoBase.detail.Valid()
      case Other(format) => format !in {FORMAT_DATA, FORMAT_SAMPLE, FORMAT_DATA_SEQ, FORMAT_SAMPLE_SEQ, FORMAT_PACKED_SAMPLES}
    }
  }

  ghost predicate SamplesAreValid(xs: seq<Sample>) {
    forall x | x in xs :: x.info.detail.Valid()
  }

  ghost predicate PackedAreValid(xs: seq<PackedSamples>) {
    forall x | x in xs :: x.infoBase.detail.Valid()
  }

  function Be16(n: uint16): (s: seq<byte>)
    ensures |s| == 2
  {
    [n / 0x100, n % 0x100]
  }

  ghost function U8(n: byte): Token {
    Basic([n])
  }

  ghost function U16(n: uint16): Token {
    Basic(Be16(n))
  }

  ghost function U32(n: uint32): Token {
    Basic(Be32(n))
  }

  ghost function TokensOfTimestamp(x: SeqNumberAndTimestamp): seq<Token> {
    [U32(x.sequenceNumber)] + [U32(x.sessionTimeOffset)]
  }

  ghost function TokensOfDetail(x: SampleInfoDetail): seq<Token> {
    [U32(x.Format())] + DetailBody(x)
  }

  ghost function DetailBody(x: SampleInfoDetail): seq<Token> {
    match x
    case DetailEmpty(n) => [U32(n)]
    case DetailSeqnum(n) => [U32(n)]
    case DetailTimestamp(t) => TokensOfTimestamp(t)
    case DetailOther(_) => []
  }

  ghost function TokensOfInfo(x: SampleInfo): seq<Token> {
    [U8(x.state)] + TokensOfDetail(x.detail)
  }

  ghost function TokensOfInfoDelta(x: SampleInfoDelta): seq<Token> {
    [U8(x.state)] + ([U8(x.seqNumberDelta)] + [U16(x.timestampDelta)])
  }

  ghost function TokensOfData(x: SampleData): seq<Token> {
    [U32(|x|)] + [Block(x)]
  }

  ghost function TokensOfSample(x: Sample): seq<Token> {
    TokensOfInfo(x.info) + TokensOfData(x.data)
  }

  ghost function TokensOfDelta(x: SampleDelta): seq<Token> {
    TokensOfInfoDelta(x.infoDelta) + TokensOfData(x.data)
  }

  ghost function TokensOfPacked(x: PackedSamples): seq<Token> {
    TokensOfInfo(x.infoBase) + TokensOfDeltas(x.sampleDeltaSeq)
  }

  /** The elements of a sequence, one after the other. */
  ghost function Each<T(!new)>(tokensOf: T -> seq<Token>, xs: seq<T>): seq<Token> {
    if xs == [] then [] else tokensOf(xs[0]) + Each(tokensOf, xs[1..])
  }

  ghost function TokensOfDatas(xs: seq<SampleData>): seq<Token>
    requires |xs| <= 0xFFFF_FFFF
  {
    [U32(|xs|)] + Each(TokensOfData, xs)
  }

  ghost function TokensOfSamples(xs: seq<Sample>): seq<Token>
    requires |xs| <= 0xFFFF_FFFF
  {
    [U32(|xs|)] + Each(TokensOfSample, xs)
  }

  ghost function TokensOfDeltas(xs: seq<SampleDelta>): seq<Token>
    requires |xs| <= 0xFFFF_FFFF
  {
    [U32(|xs|)] + Each(TokensOfDelta, xs)
  }

  ghost function TokensOfPackeds(xs: seq<PackedSamples>): seq<Token>
    requires |xs| <= 0xFFFF_FFFF
  {
    [U32(|xs|)] + Each(TokensOfPacked, xs)
  }

  ghost function TokensOf(x: DataRepresentation): seq<Token> {
    [U8(x.Format())] + Body(x)
  }

  ghost function Body(x: DataRepresentation): seq<Token> {
    match x
    case Data(data) => TokensOfData(data)
    case OneSample(sample) => TokensOfSample(sample)
    case DataSeq(xs) => TokensOfDatas(xs)
    case Samples(xs) => TokensOfSamples(xs)
    case Packed(packed) => TokensOfPacked(packed)
    case Other(_) => []
  }

  lemma EachStart<T(!new)>(tokensOf: T -> seq<Token>, xs: seq<T>)
    ensures Each(tokensOf, xs[..0]) == [] && xs[0..] == xs && Each(tokensOf, xs[|xs|..]) == [] && xs[..|xs|] == xs
  {}

  lemma {:induction false} EachNext<T(!new)>(tokensOf: T -> seq<Token>, xs: seq<T>, i: nat)
    requires i < |xs|
    ensures Each(tokensOf, xs[..i + 1]) == Each(tokensOf, xs[..i]) + tokensOf(xs[i])
    ensures Each(tokensOf, xs[i..]) == tokensOf(xs[i]) + Each(tokensOf, xs[i + 1..])
    decreases |xs|
  {
    assert xs[i..][1..] == xs[i + 1..];
    if i == 0 {
      assert xs[..1] == [xs[0]] && [xs[0]][1..] == [];
    } else {
      EachNext(tokensOf, xs[1..], i - 1);
      assert xs[..i + 1][1..] == xs[1..][..i] && xs[..i][1..] == xs[1..][..i - 1];
    }
  }
}

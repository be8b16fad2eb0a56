/** The ALAC frame decoder: on every frame an encoder can lay out it writes the encoded samples. */
module AlacFrame {
  import opened Numbers
  import opened AlacBitReader
  import opened AlacRice
  import opened AlacPredictor
  import opened AlacInterlace
  import opened AlacLayout

  /** What the decoder reads from a channel's part of the header. */
  datatype ChannelHeader = ChannelHeader(predictionType: nat, shift: nat, riceModifier: nat, order: nat)

  method ReadCoefficients(reader: BitReader, table: array<int>, ghost c: Channel, ghost rest: Bits, ghost end: nat)
    requires |c.coefficients| == table.Length
    requires forall i | 0 <= i < |c.coefficients| :: FitsSigned(c.coefficients[i], 16)
    requires reader.Facing(CoefficientsThen(c.coefficients, 0, rest), end)
    modifies reader, table
    ensures reader.input == old(reader.input) && reader.Facing(rest, end)
    ensures table[..] == c.coefficients
  {
    Pow2Values();
    hide Pow2, Field, BitReader.Facing;
    for i := 0 to table.Length
      invariant reader.input == old(reader.input)
      invariant reader.Facing(CoefficientsThen(c.coefficients, i, rest), end)
      invariant forall k | 0 <= k < i :: table[k] == c.coefficients[k]
    {
      Wrapped16(c.coefficients[i]);
      var bits := reader.ReadField(16, c.coefficients[i] % 0x1_0000, CoefficientsThen(c.coefficients, i + 1, rest), end);
      table[i] := Wrap16(bits);
    }
  }

  lemma Wrapped16(x: int)
    requires FitsSigned(x, 16)
    ensures Wrap16(x % 0x1_0000) == x
  {
    HalfScales();
  }

  method ReadChannel(reader: BitReader, ghost c: Channel, ghost st: Settings, ghost rest: Bits, ghost end: nat)
    returns (h: ChannelHeader, table: array<int>)
    requires c.Valid(st) && reader.Facing(ChannelThen(c, rest), end)
    modifies reader
    ensures reader.input == old(reader.input) && reader.Facing(rest, end)
    ensures h == ChannelHeader(0, c.shift, c.riceModifier, |c.coefficients|)
    ensures fresh(table) && table[..] == c.coefficients
  {
    Pow2Values();
    assert Pow2(5) == 32;
    hide Pow2, Field, BitReader.Facing, CoefficientsThen;
    ghost var t4 := CoefficientsThen(c.coefficients, 0, rest);
    ghost var t3 := Field(|c.coefficients|, 5) + t4;
    ghost var t2 := Field(c.riceModifier, 3) + t3;
    ghost var t1 := Field(c.shift, 4) + t2;
    var predictionType := reader.ReadField(4, 0, t1, end);
    var shift := reader.ReadField(4, c.shift, t2, end);
    var riceModifier := reader.ReadField(3, c.riceModifier, t3, end);
    var order := reader.ReadField(5, |c.coefficients|, t4, end);
    h := ChannelHeader(predictionType, shift, riceModifier, order);
    table := new int[order];
    ReadCoefficients(reader, table, c, rest, end);
  }

  /** Rice decoding and then the predictor, for one channel. */
  method DecodeChannel(reader: BitReader, errors: array<int>, output: array<int>, count: nat, size: nat,
                       h: ChannelHeader, table: array<int>, st: Settings,
                       ghost samples: seq<int>, ghost c: Channel, ghost rest: Bits, ghost end: nat)
    requires st.Valid() && c.Valid(st) && 1 <= size <= 30
    requires h == ChannelHeader(0, c.shift, c.riceModifier, |c.coefficients|) && table[..] == c.coefficients
    requires errors != output && errors != table && output != table
    requires |samples| == count <= 0x1_0000 && count <= st.maxSamples == errors.Length == output.Length
    requires AllFit(samples, size) && CalmChannel(samples, c, st, size)
    requires reader.Facing(ResidualsThen(samples, c, st, size, rest), end)
    modifies reader, errors, output, table
    ensures reader.input == old(reader.input) && reader.Facing(rest, end)
    ensures output[..count] == samples
  {
    hide *;
    ChannelDecodable(samples, h, table[..], c, st, size);
    FacingResiduals(reader, samples, c, st, size, rest, end);
    ghost var f, input := c.Filter(size), reader.input;
    ghost var e := Encode(samples, f, count);
    EntropyRiceDecode(reader, errors, count, RiceParameters(size, st.kModifier, h.riceModifier * st.historyMult / 4),
                      st.initialHistory, e, end - |rest|);
    FacingRest(reader, rest, end);
    if h.predictionType == 0 {
      DecompressFirAdapt(errors, output, count, table, AlacPredictor.Filter(h.order, h.shift, size, table[..]));
    }
    DecodesExactly(e, output[..count], f);
  }

  /** The parameters read from the header are those the channel was encoded with, and decoding undoes the encoding. */
  lemma ChannelDecodable(samples: seq<int>, h: ChannelHeader, table: seq<int>, c: Channel, st: Settings, size: nat)
    requires st.Valid() && c.Valid(st) && 1 <= size <= 30 && AllFit(samples, size)
    requires h == ChannelHeader(0, c.shift, c.riceModifier, |c.coefficients|) && table == c.coefficients
    ensures var f := c.Filter(size);
      && f.Valid() && f == AlacPredictor.Filter(h.order, h.shift, size, table) && f.coefficients == table
      && h.predictionType == 0 && f.order < st.maxSamples
      && Decode(Encode(samples, f, |samples|), f, |samples|) == samples
    ensures RiceParameters(size, st.kModifier, h.riceModifier * st.historyMult / 4) == c.Rice(st, size)
  {
    EncodeThenDecode(samples, c.Filter(size));
  }

  lemma CompressedFields(x: Block)
    requires x.Valid() && x.layout.compressed
    ensures x.layout.interlacingShift < Pow2(8) && x.layout.leftWeight < Pow2(8)
    ensures CompressedThen(x, []) ==
      Field(x.layout.interlacingShift, 8) + (Field(x.layout.leftWeight, 8) + HeadersThen(x, []))
    ensures x.st.sampleSize - 8 * x.layout.uncompressedBytes + (if x.st.stereo then 1 else 0) == x.ReadSampleSize() <= 25
    ensures x.layout.uncompressedBytes <= 2 && (x.st.stereo ==> |x.right| == |x.left|) && |x.left| <= x.st.maxSamples
  {
    ChannelsFit(x);
    Pow2Values();
  }

  lemma FacingRest(reader: BitReader, rest: Bits, end: nat)
    requires |rest| <= end && reader.Valid() && reader.Position() == end - |rest|
    requires At(reader.Stream(), end - |rest|, rest) && end + 24 <= 8 * |reader.input|
    ensures reader.Facing(rest, end)
  {
  }

  /** The residuals of a channel stand at the cursor, and the rest of the frame right after them. */
  lemma FacingResiduals(reader: BitReader, samples: seq<int>, c: Channel, st: Settings, size: nat,
                        rest: Bits, end: nat)
    requires st.Valid() && c.Valid(st) && 1 <= size <= 30 && |samples| <= 0x1_0000 && AllFit(samples, size)
    requires CalmChannel(samples, c, st, size)
    requires reader.Facing(ResidualsThen(samples, c, st, size, rest), end)
    ensures |rest| <= end && reader.Valid() && reader.SlackAfter(end - |rest|)
    ensures Pending(reader.Stream(), reader.Position(), end - |rest|, Encode(samples, c.Filter(size), |samples|), 0,
                    c.Rice(st, size), st.initialHistory, 0)
    ensures At(reader.Stream(), end - |rest|, rest) && end + 24 <= 8 * |reader.input|
  {
    hide At, Flat, Pow2, AllFit, Encode, EncodeResiduals, Encodable, Channel.Valid, Channel.Filter, Channel.Rice,
      AlacPredictor.Filter.Valid, Settings.Valid;
    ResidualsInRange(samples, c, st, size);
    var e, p := Encode(samples, c.Filter(size), |samples|), c.Rice(st, size);
    AtSplit(reader.Stream(), reader.Position(), EncodeResiduals(e, 0, p, st.initialHistory, 0), rest);
  }

  /** The low bytes that bypass the predictor. */
  method ReadLowBytes(reader: BitReader, lowA: array<int>, lowB: array<int>, count: nat, uncompressedBytes: nat,
                      stereo: bool, ghost x: Block, ghost rest: Bits, ghost end: nat)
    requires 1 <= uncompressedBytes == x.layout.uncompressedBytes <= 2 && stereo == x.st.stereo
    requires count == |x.left| && (stereo ==> |x.right| == count)
    requires lowA != lowB && count <= lowA.Length && count <= lowB.Length
    requires reader.Facing(LowBytesThen(x, 0, rest), end)
    modifies reader, lowA, lowB
    ensures reader.input == old(reader.input) && reader.Facing(rest, end)
    ensures LowParts(x.left, lowA[..count], uncompressedBytes)
    ensures stereo ==> LowParts(x.right, lowB[..count], uncompressedBytes)
  {
    hide Field, Pow2, BitReader.Facing, LowPart;
    for i := 0 to count
      invariant reader.input == old(reader.input) && reader.Facing(LowBytesThen(x, i, rest), end)
      invariant forall k | 0 <= k < i :: lowA[k] == LowPart(x.left[k], uncompressedBytes)
      invariant stereo ==> forall k | 0 <= k < i :: lowB[k] == LowPart(x.right[k], uncompressedBytes)
    {
      ghost var next := LowBytesThen(x, i + 1, rest);
      if stereo {
        ghost var low := LowPart(x.right[i], uncompressedBytes);
        lowA[i] := reader.ReadField(8 * uncompressedBytes, LowPart(x.left[i], uncompressedBytes),
                                    Field(low, 8 * uncompressedBytes) + next, end);
        lowB[i] := reader.ReadField(8 * uncompressedBytes, low, next, end);
      } else {
        lowA[i] := reader.ReadField(8 * uncompressedBytes, LowPart(x.left[i], uncompressedBytes), next, end);
      }
    }
  }

  /** One sample of an uncompressed frame. */
  method ReadRawSample(reader: BitReader, sampleSize: nat, ghost v: int, ghost rest: Bits, ghost end: nat)
    returns (sample: int)
    requires (sampleSize == 16 || sampleSize == 24) && FitsSigned(v, sampleSize)
    requires reader.Facing(RawSampleThen(v, sampleSize, rest), end)
    modifies reader
    ensures reader.input == old(reader.input) && reader.Facing(rest, end)
    ensures sample == v
  {
    Pow2Values();
    RawSample16(v);
    RawSample24(v);
    hide Field, Pow2, BitReader.Facing, FitsSigned;
    if sampleSize <= 16 {
      sample := reader.ReadField(16, v % 0x1_0000, rest, end);
    } else {
      sample := reader.ReadField(16, v / 256 % 0x1_0000, Field(v % 256, 8) + rest, end);
      sample := sample * 256;
      // the low byte of `sample` is clear, so or-ing in eight bits adds them
      var low := reader.ReadField(8, v % 256, rest, end);
      sample := sample + low;
    }
    sample := SignExtended32(sample, sampleSize);
  }

  lemma RawSample16(v: int)
    ensures FitsSigned(v, 16) ==> SignExtended32(v % 0x1_0000, 16) == v
  {
    if FitsSigned(v, 16) {
      HalfScales();
      SignExtension(v % 0x1_0000, 16);
      CongruentBy(v % 0x1_0000, v, 0x1_0000, -(v / 0x1_0000));
      CongruentTransitive(SignExtended32(v % 0x1_0000, 16), v % 0x1_0000, v, 0x1_0000);
      SameSigned(SignExtended32(v % 0x1_0000, 16), v, 16);
    }
  }

  lemma RawSample24(v: int)
    ensures FitsSigned(v, 24) ==> SignExtended32(v / 256 % 0x1_0000 * 256 + v % 256, 24) == v
  {
    if FitsSigned(v, 24) {
      HalfScales();
      var x := v / 256 % 0x1_0000 * 256 + v % 256;
      SignExtension(x, 24);
      CongruentBy(x, v, 0x100_0000, -(v / 0x100_0000));
      CongruentTransitive(SignExtended32(x, 24), x, v, 0x100_0000);
      SameSigned(SignExtended32(x, 24), v, 24);
    }
  }

  method ReadRaw(reader: BitReader, outputA: array<int>, outputB: array<int>, count: nat, sampleSize: nat,
                 stereo: bool, ghost x: Block, ghost rest: Bits, ghost end: nat)
    requires x.Valid() && sampleSize == x.st.sampleSize && stereo == x.st.stereo && count == |x.left|
    requires outputA != outputB && count <= outputA.Length && count <= outputB.Length
    requires reader.Facing(RawThen(x, 0, rest), end)
    modifies reader, outputA, outputB
    ensures reader.input == old(reader.input) && reader.Facing(rest, end)
    ensures outputA[..count] == x.left && (stereo ==> outputB[..count] == x.right)
  {
    hide RawSampleThen, BitReader.Facing, FitsSigned;
    for i := 0 to count
      invariant reader.input == old(reader.input) && reader.Facing(RawThen(x, i, rest), end)
      invariant forall k | 0 <= k < i :: outputA[k] == x.left[k]
      invariant stereo ==> forall k | 0 <= k < i :: outputB[k] == x.right[k]
    {
      ghost var next := RawThen(x, i + 1, rest);
      if stereo {
        outputA[i] := ReadRawSample(reader, sampleSize, x.left[i], RawSampleThen(x.right[i], sampleSize, next), end);
        outputB[i] := ReadRawSample(reader, sampleSize, x.right[i], next, end);
      } else {
        outputA[i] := ReadRawSample(reader, sampleSize, x.left[i], next, end);
      }
    }
  }

  /** Mono output: the left samples alone, at 16 or 24 bits. */
  method WriteMono16(a: array<int>, output: array<byte>, count: nat, ghost v: seq<int>, ghost unused: seq<int>)
    requires count <= a.Length && 2 * count <= output.Length && a[..count] == v && AllFit(v, 16)
    modifies output
    ensures output[..2 * count] == Pcm16(v, unused, false, count)
    ensures forall k | 2 * count <= k < output.Length :: output[k] == old(output[k])
  {
    for i := 0 to count
      invariant output[..2 * i] == Pcm16(v, unused, false, i)
      invariant forall k | 2 * count <= k < output.Length :: output[k] == old(output[k])
    {
      assert a[..count][i] == a[i];
      Wrap16Fits(v[i]);
      WriteSample16(output, 2 * i, Wrap16(a[i]));
    }
  }

  method WriteMono24(a: array<int>, uncompressedBytes: nat, low: array<int>, output: array<byte>, count: nat,
                     ghost v: seq<int>, ghost high: seq<int>, ghost unused: seq<int>)
    requires uncompressedBytes <= 2 && count <= a.Length && count <= low.Length && 3 * count <= output.Length
    requires |v| == count && a[..count] == high && HighParts(v, high, uncompressedBytes)
    requires uncompressedBytes > 0 ==> LowParts(v, low[..count], uncompressedBytes)
    modifies output
    ensures output[..3 * count] == Pcm24(v, unused, false, count)
    ensures forall k | 3 * count <= k < output.Length :: output[k] == old(output[k])
  {
    hide Rejoined, HighPart, LowPart, ByteScale, FitsSigned;
    for i := 0 to count
      invariant output[..3 * i] == Pcm24(v, unused, false, i)
      invariant forall k | 3 * count <= k < output.Length :: output[k] == old(output[k])
    {
      assert a[..count][i] == a[i] && low[..count][i] == low[i];
      PartsRejoin(v[i], low[i], uncompressedBytes);
      WriteSample24(output, 3 * i, Rejoined(a[i], low[i], uncompressedBytes));
    }
  }

  /** Unpredicted samples are the high parts when no bytes bypass the predictor. */
  lemma HighPartsOf(x: Block, v: seq<int>)
    requires x.layout.uncompressedBytes <= 2
    ensures x.st.sampleSize == 24 && AllFit(v, 24) ==> HighParts(v, x.Highs(v), x.layout.uncompressedBytes)
    ensures x.layout.uncompressedBytes == 0 ==> x.Highs(v) == v
  {
  }

  /** What the decoder works with after an uncompressed frame: no low bytes and no weight. */
  ghost function Plain(x: Block): (y: Block)
    ensures y.left == x.left && y.right == x.right && y.st == x.st && y.layout.uncompressedBytes == 0
    ensures |x.left| == |x.right| ==> y.ChannelA() == x.left && y.ChannelB() == x.right
    ensures !x.st.stereo ==> y.ChannelA() == x.left
  {
    var y := x.(layout := x.layout.(compressed := false, uncompressedBytes := 0, interlacingShift := 0, leftWeight := 0));
    HighPartsOf(y, x.left);
    HighPartsOf(y, x.right);
    y
  }

  /** The bytes written for the channels of `y`; 16-bit output takes the high parts as they are. */
  ghost function WrittenBytes(y: Block): (b: seq<byte>)
    requires y.layout.uncompressedBytes <= 2 && (y.st.stereo ==> |y.right| == |y.left|)
    requires y.st.sampleSize == 16 || y.st.sampleSize == 24
    ensures |b| == |y.left| * y.st.BytesPerFrame()
  {
    if y.st.sampleSize == 16 then Pcm16(y.Highs(y.left), y.Highs(y.right), y.st.stereo, |y.left|)
    else Pcm24(y.left, y.right, y.st.stereo, |y.left|)
  }

  /** The high parts fit the width they are written with. */
  ghost predicate Writable(y: Block)
    requires y.layout.uncompressedBytes <= 2
  {
    if y.st.sampleSize == 16 then
      AllFit(y.Highs(y.left), 16) && (y.st.stereo ==> AllFit(y.Highs(y.right), 16))
    else
      y.st.sampleSize == 24 && AllFit(y.left, 24) && (y.st.stereo ==> AllFit(y.right, 24))
  }

  lemma CompressedWritable(x: Block)
    requires x.Valid() && x.layout.compressed
    ensures Writable(x) && WrittenBytes(x) == Output(x)
  {
    if x.st.sampleSize == 16 {
      WrittenFits(x, x.left);
      if x.st.stereo {
        WrittenFits(x, x.right);
      }
    }
  }

  lemma PlainWritable(x: Block)
    requires x.Valid() && !x.layout.compressed
    ensures Writable(Plain(x)) && WrittenBytes(Plain(x)) == Output(x)
  {
    HighPartsOf(Plain(x), x.left);
    HighPartsOf(Plain(x), x.right);
  }

  lemma InterlacedChannels(y: Block)
    requires y.layout.uncompressedBytes <= 2 && y.st.stereo && |y.right| == |y.left|
    ensures Interlaced(y.ChannelA(), y.ChannelB(), y.Highs(y.left), y.Highs(y.right),
                       y.layout.interlacingShift, y.layout.leftWeight)
  {
  }

  class AlacFile {
    const st: Settings
    const predictErrorA: array<int>
    const predictErrorB: array<int>
    const outputSamplesA: array<int>
    const outputSamplesB: array<int>
    const uncompressedBytesA: array<int>
    const uncompressedBytesB: array<int>

    constructor (st: Settings)
      requires st.Valid()
      ensures Valid() && this.st == st && fresh(Buffers())
    {
      this.st := st;
      predictErrorA := new int[st.maxSamples];
      predictErrorB := new int[st.maxSamples];
      outputSamplesA := new int[st.maxSamples];
      outputSamplesB := new int[st.maxSamples];
      uncompressedBytesA := new int[st.maxSamples];
      uncompressedBytesB := new int[st.maxSamples];
    }

    ghost function Buffers(): set<object>
    {
      {predictErrorA, predictErrorB, outputSamplesA, outputSamplesB, uncompressedBytesA, uncompressedBytesB}
    }

    ghost predicate Valid()
    {
      && st.Valid()
      && predictErrorA != predictErrorB && predictErrorA != outputSamplesA && predictErrorB != outputSamplesB
      && predictErrorA != outputSamplesB && predictErrorB != outputSamplesA && outputSamplesA != outputSamplesB
      && uncompressedBytesA != uncompressedBytesB
      && uncompressedBytesA !in {predictErrorA, predictErrorB, outputSamplesA, outputSamplesB}
      && uncompressedBytesB !in {predictErrorA, predictErrorB, outputSamplesA, outputSamplesB}
      && predictErrorA.Length == predictErrorB.Length == st.maxSamples
      && outputSamplesA.Length == outputSamplesB.Length == st.maxSamples
      && uncompressedBytesA.Length == uncompressedBytesB.Length == st.maxSamples
    }

    /** The buffers hold the channels of `x` and, if there are any, its low bytes. */
    ghost predicate Holds(x: Block)
      reads Buffers()
      requires Valid() && x.layout.uncompressedBytes <= 2 && |x.left| <= st.maxSamples
      requires st.stereo == x.st.stereo && (st.stereo ==> |x.right| == |x.left|)
    {
      var n, u := |x.left|, x.layout.uncompressedBytes;
      && outputSamplesA[..n] == x.ChannelA()
      && (st.stereo ==> outputSamplesB[..n] == x.ChannelB())
      && (u > 0 ==> LowParts(x.left, uncompressedBytesA[..n], u))
      && (u > 0 && st.stereo ==> LowParts(x.right, uncompressedBytesB[..n], u))
    }

    /** The headers of the channels. */
    method ReadHeaders(reader: BitReader, ghost x: Block, ghost end: nat)
      returns (ha: ChannelHeader, ta: array<int>, hb: ChannelHeader, tb: array<int>)
      requires Valid() && x.Valid() && x.st == st && x.layout.compressed
      requires reader.Facing(HeadersThen(x, []), end)
      modifies reader
      ensures reader.input == old(reader.input) && reader.Facing(LowThen(x, []), end)
      ensures fresh(ta) && fresh(tb) && ta != tb && ta !in Buffers() && tb !in Buffers()
      ensures ta[..] == x.layout.a.coefficients
      ensures ha == ChannelHeader(0, x.layout.a.shift, x.layout.a.riceModifier, |x.layout.a.coefficients|)
      ensures st.stereo ==> tb[..] == x.layout.b.coefficients
      ensures st.stereo ==>
        hb == ChannelHeader(0, x.layout.b.shift, x.layout.b.riceModifier, |x.layout.b.coefficients|)
    {
      hide LowThen, ChannelThen, BitReader.Facing, Channel.Valid, FitsSigned, AllFit, CalmChannel;
      ghost var low := LowThen(x, []);
      if st.stereo {
        ha, ta := ReadChannel(reader, x.layout.a, st, ChannelThen(x.layout.b, low), end);
        hb, tb := ReadChannel(reader, x.layout.b, st, low, end);
      } else {
        ha, ta := ReadChannel(reader, x.layout.a, st, low, end);
        hb, tb := ChannelHeader(0, 0, 0, 0), new int[0];
      }
    }

    /** The low bytes, if any, and the predicted channels. */
    method ReadChannels(reader: BitReader, count: nat, uncompressedBytes: nat, size: nat,
                        ha: ChannelHeader, ta: array<int>, hb: ChannelHeader, tb: array<int>,
                        ghost x: Block, ghost end: nat)
      requires Valid() && x.Valid() && x.st == st && x.layout.compressed
      requires count == |x.left| && uncompressedBytes == x.layout.uncompressedBytes && size == x.ReadSampleSize()
      requires reader.Facing(LowThen(x, []), end)
      requires ta !in Buffers() && tb !in Buffers() && ta != tb
      requires ta[..] == x.layout.a.coefficients
      requires ha == ChannelHeader(0, x.layout.a.shift, x.layout.a.riceModifier, |x.layout.a.coefficients|)
      requires st.stereo ==> tb[..] == x.layout.b.coefficients
      requires st.stereo ==>
        hb == ChannelHeader(0, x.layout.b.shift, x.layout.b.riceModifier, |x.layout.b.coefficients|)
      modifies reader, Buffers(), ta, tb
      ensures Holds(x)
    {
      ChannelsFit(x);
      hide FirstThen, SecondThen, ResidualsThen, LowBytesThen, BitReader.Facing, Channel.Valid, FitsSigned, AllFit,
        CalmChannel, Block.ChannelA, Block.ChannelB, LowParts;
      if uncompressedBytes > 0 {
        ReadLowBytes(reader, uncompressedBytesA, uncompressedBytesB, count, uncompressedBytes, st.stereo, x,
                     FirstThen(x, []), end);
      }
      DecodeChannels(reader, count, size, ha, ta, hb, tb, x, end);
    }

    method DecodeChannels(reader: BitReader, count: nat, size: nat,
                          ha: ChannelHeader, ta: array<int>, hb: ChannelHeader, tb: array<int>,
                          ghost x: Block, ghost end: nat)
      requires Valid() && x.Valid() && x.st == st && x.layout.compressed
      requires count == |x.left| && size == x.ReadSampleSize()
      requires reader.Facing(FirstThen(x, []), end)
      requires ta !in Buffers() && tb !in Buffers() && ta != tb
      requires ta[..] == x.layout.a.coefficients
      requires ha == ChannelHeader(0, x.layout.a.shift, x.layout.a.riceModifier, |x.layout.a.coefficients|)
      requires st.stereo ==> tb[..] == x.layout.b.coefficients
      requires st.stereo ==>
        hb == ChannelHeader(0, x.layout.b.shift, x.layout.b.riceModifier, |x.layout.b.coefficients|)
      modifies reader, predictErrorA, predictErrorB, outputSamplesA, outputSamplesB, ta, tb
      ensures outputSamplesA[..count] == x.ChannelA()
      ensures st.stereo ==> outputSamplesB[..count] == x.ChannelB()
    {
      ChannelsFit(x);
      hide ResidualsThen, BitReader.Facing, Channel.Valid, FitsSigned, AllFit, CalmChannel,
        Block.ChannelA, Block.ChannelB, Block.Highs;
      DecodeChannel(reader, predictErrorA, outputSamplesA, count, size, ha, ta, st, x.ChannelA(), x.layout.a,
                    SecondThen(x, []), end);
      if st.stereo {
        DecodeChannel(reader, predictErrorB, outputSamplesB, count, size, hb, tb, st, x.ChannelB(), x.layout.b, [], end);
      }
    }

    /** The interlacing shift and weight, which a mono frame carries without using them. */
    method ReadWeights(reader: BitReader, ghost x: Block, ghost end: nat)
      returns (interlacingShift: nat, leftWeight: nat)
      requires x.Valid() && x.layout.compressed && reader.Facing(CompressedThen(x, []), end)
      modifies reader
      ensures reader.input == old(reader.input) && reader.Facing(HeadersThen(x, []), end)
      ensures interlacingShift == x.layout.interlacingShift && leftWeight == x.layout.leftWeight
    {
      hide *;
      CompressedFields(x);
      interlacingShift := reader.ReadField(8, x.layout.interlacingShift,
                                           Field(x.layout.leftWeight, 8) + HeadersThen(x, []), end);
      leftWeight := reader.ReadField(8, x.layout.leftWeight, HeadersThen(x, []), end);
    }

    /** The body of a compressed frame. */
    method ReadCompressed(reader: BitReader, count: nat, uncompressedBytes: nat, ghost x: Block, ghost end: nat)
      returns (interlacingShift: nat, leftWeight: nat)
      requires Valid() && x.Valid() && x.st == st && x.layout.compressed
      requires count == |x.left| && uncompressedBytes == x.layout.uncompressedBytes
      requires reader.Facing(CompressedThen(x, []), end)
      modifies reader, Buffers()
      ensures Holds(x)
      ensures interlacingShift == x.layout.interlacingShift && leftWeight == x.layout.leftWeight
    {
      hide CompressedThen, HeadersThen, BitReader.Facing, Block.Valid, Holds, Block.ReadSampleSize, AlacFile.Valid,
        AlacFile.Buffers;
      CompressedFields(x);
      var size := st.sampleSize - 8 * uncompressedBytes + if st.stereo then 1 else 0;
      interlacingShift, leftWeight := ReadWeights(reader, x, end);
      var ha, ta, hb, tb := ReadHeaders(reader, x, end);
      ReadChannels(reader, count, uncompressedBytes, size, ha, ta, hb, tb, x, end);
    }

    /** The last step: interleave the channels, rejoin the low bytes, and write PCM. */
    method WriteOutput(output: array<byte>, count: nat, uncompressedBytes: nat, interlacingShift: nat, leftWeight: nat,
                       ghost y: Block)
      requires Valid() && y.st == st && count == |y.left| <= st.maxSamples && (st.stereo ==> |y.right| == count)
      requires uncompressedBytes == y.layout.uncompressedBytes <= 2
      requires interlacingShift == y.layout.interlacingShift && leftWeight == y.layout.leftWeight
      requires Holds(y) && Writable(y) && |WrittenBytes(y)| <= output.Length
      requires output as object !in Buffers()
      modifies output
      ensures output[..|WrittenBytes(y)|] == WrittenBytes(y)
      ensures forall k | |WrittenBytes(y)| <= k < output.Length :: output[k] == old(output[k])
    {
      HighPartsOf(y, y.left);
      HighPartsOf(y, y.right);
      if st.stereo {
        InterlacedChannels(y);
        hide Block.ChannelA, Block.ChannelB, Block.Highs, Interlaced, AllFit, HighParts, LowParts;
        if st.sampleSize == 16 {
          assert forall i | 0 <= i < count ::
            FitsSigned(y.Highs(y.left)[i], 16) && FitsSigned(y.Highs(y.right)[i], 16);
          Deinterlace16(outputSamplesA, outputSamplesB, output, count, interlacingShift, leftWeight,
                        y.Highs(y.left), y.Highs(y.right));
        } else {
          Deinterlace24(outputSamplesA, outputSamplesB, uncompressedBytes, uncompressedBytesA, uncompressedBytesB,
                        output, count, interlacingShift, leftWeight, y.left, y.right, y.Highs(y.left), y.Highs(y.right));
        }
      } else {
        assert y.ChannelA() == y.Highs(y.left);
        if st.sampleSize == 16 {
          WriteMono16(outputSamplesA, output, count, y.Highs(y.left), y.Highs(y.right));
        } else {
          WriteMono24(outputSamplesA, uncompressedBytes, uncompressedBytesA, output, count,
                      y.left, y.Highs(y.left), y.right);
        }
      }
    }

    /** The fixed part of the frame header. */
    method ReadFrameHeader(reader: BitReader, ghost x: Block, ghost end: nat)
      returns (channels: nat, hasSize: bool, uncompressedBytes: nat, isNotCompressed: bool)
      requires x.Valid() && x.st == st && reader.Facing(EncodeFrame(x), end)
      modifies reader
      ensures reader.input == old(reader.input) && reader.Facing(SizeThen(x, BodyThen(x, [])), end)
      ensures channels == Flag(st.stereo) && hasSize == x.layout.hasSize
      ensures uncompressedBytes == x.layout.uncompressedBytes && isNotCompressed == !x.layout.compressed
    {
      HeaderWidths();
      hide BodyThen, SizeThen, Field, Pow2, BitReader.Facing, AllFit, FitsSigned, Channel.Valid, CalmChannel;
      ghost var t6 := SizeThen(x, BodyThen(x, []));
      ghost var t5 := Field(Flag(!x.layout.compressed), 1) + t6;
      ghost var t4 := Field(x.layout.uncompressedBytes, 2) + t5;
      ghost var t3 := Field(Flag(x.layout.hasSize), 1) + t4;
      ghost var t2 := Field(x.layout.unknown, 12) + t3;
      ghost var t1 := Field(x.layout.outputWaiting, 4) + t2;
      channels := reader.ReadField(3, Flag(x.st.stereo), t1, end);
      var outputWaiting := reader.ReadField(4, x.layout.outputWaiting, t2, end);
      var unknown := reader.ReadField(12, x.layout.unknown, t3, end);
      var size := reader.ReadField(1, Flag(x.layout.hasSize), t4, end);
      uncompressedBytes := reader.ReadField(2, x.layout.uncompressedBytes, t5, end);
      var raw := reader.ReadField(1, Flag(!x.layout.compressed), t6, end);
      hasSize, isNotCompressed := size != 0, raw != 0;
    }

    /** The number of frames: the default, unless the header carries it. */
    method ReadSize(reader: BitReader, hasSize: bool, ghost x: Block, ghost end: nat) returns (count: nat)
      requires x.Valid() && x.st == st && hasSize == x.layout.hasSize
      requires reader.Facing(SizeThen(x, BodyThen(x, [])), end)
      modifies reader
      ensures reader.input == old(reader.input) && reader.Facing(BodyThen(x, []), end)
      ensures count == |x.left| <= st.maxSamples && (st.stereo ==> |x.right| == count)
    {
      Pow2Values();
      hide BodyThen, Field, Pow2, BitReader.Facing, AllFit, FitsSigned, Channel.Valid, CalmChannel;
      count := st.maxSamples;
      if hasSize {
        count := reader.ReadField(32, |x.left|, BodyThen(x, []), end);
      }
    }

    /** Fills the sample buffers; an uncompressed frame leaves no low bytes and no weight behind. */
    method ReadBody(reader: BitReader, count: nat, headerBytes: nat, isNotCompressed: bool, ghost x: Block, ghost end: nat)
      returns (uncompressedBytes: nat, interlacingShift: nat, leftWeight: nat, ghost y: Block)
      requires Valid() && x.Valid() && x.st == st && count == |x.left|
      requires headerBytes == x.layout.uncompressedBytes && isNotCompressed == !x.layout.compressed
      requires reader.Facing(BodyThen(x, []), end)
      modifies reader, Buffers()
      ensures y.st == st && y.left == x.left && y.right == x.right
      ensures uncompressedBytes == y.layout.uncompressedBytes <= 2
      ensures interlacingShift == y.layout.interlacingShift && leftWeight == y.layout.leftWeight
      ensures Holds(y) && Writable(y) && WrittenBytes(y) == Output(x)
    {
      hide CompressedThen, RawThen, BitReader.Facing, AllFit, FitsSigned, Channel.Valid, CalmChannel,
        Writable, WrittenBytes, Output, Block.ChannelA, Block.ChannelB, Block.Highs;
      if !isNotCompressed {
        y := x;
        uncompressedBytes := headerBytes;
        CompressedWritable(x);
        interlacingShift, leftWeight := ReadCompressed(reader, count, uncompressedBytes, x, end);
      } else {
        y := Plain(x);
        PlainWritable(x);
        ReadRaw(reader, outputSamplesA, outputSamplesB, count, st.sampleSize, st.stereo, x, [], end);
        uncompressedBytes, interlacingShift, leftWeight := 0, 0, 0;
      }
    }

    /**
     Decodes one frame. `allocation` is the size the caller announces for the output buffer; a frame
     that could exceed it is refused before anything is written.
     */
    method DecodeFrame(inbuffer: seq<byte>, output: array<byte>, allocation: nat, ghost x: Block)
      returns (outputSize: nat)
      requires Valid() && x.Valid() && x.st == st
      requires At(Flat(inbuffer), 0, EncodeFrame(x)) && |EncodeFrame(x)| + 24 <= 8 * |inbuffer|
      requires st.maxSamples * st.BytesPerFrame() < 0x8000_0000
      requires allocation <= output.Length && output as object !in Buffers()
      modifies Buffers(), output
      ensures if st.maxSamples * st.BytesPerFrame() > allocation then
          outputSize == 0 && output[..] == old(output[..])
        else
          outputSize == |x.left| * st.BytesPerFrame() == |Output(x)| <= output.Length
          && output[..outputSize] == Output(x)
          && forall k | outputSize <= k < output.Length :: output[k] == old(output[k])
    {
      hide At, Flat, EncodeFrame, BodyThen, SizeThen, Block.Valid, WrittenBytes, Output, Writable, Holds,
        Settings.BytesPerFrame;
      ghost var end := |EncodeFrame(x)|;
      var reader := new BitReader(inbuffer);
      outputSize := st.maxSamples * st.BytesPerFrame();
      if outputSize > allocation {
        return 0;
      }
      var channels, hasSize, headerBytes, isNotCompressed := ReadFrameHeader(reader, x, end);
      var count := ReadSize(reader, hasSize, x, end);
      outputSize := count * st.BytesPerFrame();
      // the second check of the C code, on this size, can no longer fail
      SmallerFrame(count, st.maxSamples, st.BytesPerFrame());
      var uncompressedBytes, interlacingShift, leftWeight, y :=
        ReadBody(reader, count, headerBytes, isNotCompressed, x, end);
      WriteOutput(output, count, uncompressedBytes, interlacingShift, leftWeight, y);
    }
  }

  lemma HeaderWidths()
    ensures Pow2(1) == 2 && Pow2(2) == 4 && Pow2(3) == 8 && Pow2(4) == 16 && Pow2(12) == 4096
  {
    Pow2Add(8, 4);
    Pow2Values();
  }

  lemma SmallerFrame(count: nat, most: nat, width: nat)
    requires count <= most
    ensures count * width <= most * width
  {
  }

  /** A packed frame with three more readable bytes behind it meets the decoder's requirement. */
  lemma PackedFrame(x: Block, slack: seq<byte>)
    requires x.Valid() && |slack| >= 3
    ensures var inbuffer := Pack(EncodeFrame(x)) + slack;
      At(Flat(inbuffer), 0, EncodeFrame(x)) && |EncodeFrame(x)| + 24 <= 8 * |inbuffer|
  {
    hide EncodeFrame, Pack, Flat;
    var code := EncodeFrame(x);
    FlatPack(code);
    FlatAppend(Pack(code), slack);
    assert Flat(Pack(code) + slack)[0..|code|] == Flat(Pack(code))[0..|code|];
  }
}

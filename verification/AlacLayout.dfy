/** The layout of an ALAC frame, as an encoder writes it: the specification the decoder is proved against. */
module AlacLayout {
  import opened Numbers
  import opened AlacRice
  import opened AlacPredictor
  import opened AlacInterlace

  /** The constants of a stream (`setinfo_*` and the arguments of `alac_create`). */
  datatype Settings = Settings(sampleSize: nat, stereo: bool, maxSamples: nat, kModifier: nat,
                               initialHistory: nat, historyMult: nat) {
    predicate Valid() {
      && (sampleSize == 16 || sampleSize == 24)
      && 1 <= maxSamples < 0x8000_0000
      && 1 <= kModifier <= 30 && 1 <= initialHistory <= 255 && historyMult <= 255
    }

    function BytesPerFrame(): nat {
      sampleSize / 8 * (if stereo then 2 else 1)
    }
  }

  /** The part of the header that belongs to one channel. */
  datatype Channel = Channel(shift: nat, riceModifier: nat, coefficients: seq<int>) {
    predicate Valid(st: Settings) {
      && 1 <= shift <= 15 && riceModifier <= 7 && |coefficients| <= 31 && |coefficients| < st.maxSamples
      && 1 <= riceModifier * st.historyMult / 4
      && forall i | 0 <= i < |coefficients| :: FitsSigned(coefficients[i], 16)
    }

    function Filter(size: nat): AlacPredictor.Filter {
      AlacPredictor.Filter(|coefficients|, shift, size, coefficients)
    }

    function Rice(st: Settings, size: nat): RiceParameters {
      RiceParameters(size, st.kModifier, riceModifier * st.historyMult / 4)
    }
  }

  /** On the residuals of the channel no product of history and multiplier overflows that the decoder uses. */
  ghost predicate CalmChannel(samples: seq<int>, c: Channel, st: Settings, size: nat)
    requires c.Valid(st) && 1 <= size <= 30
  {
    Calm(Encode(samples, c.Filter(size), |samples|), 0, c.Rice(st, size), st.initialHistory)
  }

  /** Everything an encoder may choose freely for one frame. */
  datatype Layout = Layout(outputWaiting: nat, unknown: nat, hasSize: bool, uncompressedBytes: nat, compressed: bool,
                           interlacingShift: nat, leftWeight: nat, a: Channel, b: Channel)

  /** A block of samples, with a layout that can carry it. For a mono stream `right` is not used. */
  datatype Block = Block(st: Settings, layout: Layout, left: seq<int>, right: seq<int>) {
    ghost predicate Valid() {
      && st.Valid()
      && |left| <= 0x1_0000 && |left| <= st.maxSamples && AllFit(left, st.sampleSize)
      && (st.stereo ==> |right| == |left| && AllFit(right, st.sampleSize))
      && (layout.hasSize || |left| == st.maxSamples)
      && layout.outputWaiting <= 0xF && layout.unknown <= 0xFFF
      && layout.interlacingShift <= 0xFF && layout.leftWeight <= 0xFF
      && layout.uncompressedBytes <= 3
      && (layout.compressed ==>
            && layout.uncompressedBytes <= (if st.sampleSize == 16 then 1 else 2)
            && layout.a.Valid(st) && CalmChannel(ChannelA(), layout.a, st, ReadSampleSize())
            && (st.stereo ==>
                  && layout.b.Valid(st) && CalmChannel(ChannelB(), layout.b, st, ReadSampleSize())
                  && (layout.leftWeight != 0 ==> layout.interlacingShift <= 31)
                  && (layout.leftWeight > Pow2(layout.interlacingShift) ==> AllFit(ChannelA(), ReadSampleSize()))))
    }

    /** The size of the samples the predictors work on. */
    function ReadSampleSize(): nat
      requires st.Valid() && layout.uncompressedBytes <= (if st.sampleSize == 16 then 1 else 2)
    {
      st.sampleSize - 8 * layout.uncompressedBytes + if st.stereo then 1 else 0
    }

    function Highs(v: seq<int>): (h: seq<int>)
      requires layout.uncompressedBytes <= 2
      ensures |h| == |v|
    {
      seq(|v|, i requires 0 <= i < |v| => HighPart(v[i], layout.uncompressedBytes))
    }

    function ChannelA(): (a: seq<int>)
      requires layout.uncompressedBytes <= 2 && (st.stereo ==> |right| == |left|)
      ensures |a| == |left|
    {
      var l, r := Highs(left), Highs(right);
      if !st.stereo || layout.leftWeight == 0 then l
      else seq(|left|, i requires 0 <= i < |left| => MidOf(l[i], r[i], layout.interlacingShift, layout.leftWeight))
    }

    function ChannelB(): (b: seq<int>)
      requires layout.uncompressedBytes <= 2 && |right| == |left|
      ensures |b| == |left|
    {
      var l, r := Highs(left), Highs(right);
      if layout.leftWeight == 0 then r
      else seq(|left|, i requires 0 <= i < |left| => l[i] - r[i])
    }
  }

  lemma HighFits(x: Block, v: int)
    requires x.Valid() && x.layout.compressed && FitsSigned(v, x.st.sampleSize)
    ensures FitsSigned(HighPart(v, x.layout.uncompressedBytes), x.st.sampleSize - 8 * x.layout.uncompressedBytes)
  {
    hide CalmChannel, Channel.Valid, Block.ChannelA, Block.ChannelB, AllFit;
    if x.st.sampleSize == 24 {
      PartsRejoin(v, LowPart(v, x.layout.uncompressedBytes), x.layout.uncompressedBytes);
    } else {
      HalfScales();
    }
  }

  lemma Doubled(n: nat)
    requires n >= 1
    ensures Pow2(n) == 2 * Pow2(n - 1)
  {
  }

  lemma PairFits(x: Block, l: int, r: int)
    requires x.Valid() && x.layout.compressed && x.st.stereo
    requires var size := x.st.sampleSize - 8 * x.layout.uncompressedBytes; FitsSigned(l, size) && FitsSigned(r, size)
    ensures FitsSigned(l, x.ReadSampleSize()) && FitsSigned(r, x.ReadSampleSize())
    ensures x.layout.leftWeight != 0 ==> FitsSigned(l - r, x.ReadSampleSize())
    ensures x.layout.leftWeight != 0 && x.layout.leftWeight <= Pow2(x.layout.interlacingShift) ==>
      FitsSigned(MidOf(l, r, x.layout.interlacingShift, x.layout.leftWeight), x.ReadSampleSize())
  {
    hide CalmChannel, Channel.Valid, Block.ChannelA, Block.ChannelB, AllFit, MidOf, Pow2, Wrap32;
    var size := x.st.sampleSize - 8 * x.layout.uncompressedBytes;
    Pow2Monotone(size - 1, size);
    Doubled(size);
    if x.layout.leftWeight != 0 && x.layout.leftWeight <= Pow2(x.layout.interlacingShift) {
      if size < 24 {
        Pow2Monotone(size - 1, 15);
        HalfScales();
        NoWrapBelow24(l - r, x.layout.leftWeight);
      }
      MidFits(l, r, size, x.layout.interlacingShift, x.layout.leftWeight);
    }
  }

  /** Whatever the weight, both predicted channels stay within the size the frame announces. */
  lemma ChannelsFit(x: Block)
    requires x.Valid() && x.layout.compressed
    ensures 1 <= x.ReadSampleSize() <= 25
    ensures AllFit(x.ChannelA(), x.ReadSampleSize())
    ensures x.st.stereo ==> AllFit(x.ChannelB(), x.ReadSampleSize())
  {
    var a := x.ChannelA();
    forall i | 0 <= i < |x.left|
      ensures FitsSigned(a[i], x.ReadSampleSize())
      ensures x.st.stereo ==> FitsSigned(x.ChannelB()[i], x.ReadSampleSize())
    {
      HighFits(x, x.left[i]);
      if x.st.stereo {
        HighFits(x, x.right[i]);
        PairFits(x, x.Highs(x.left)[i], x.Highs(x.right)[i]);
      }
    }
  }

  // ---------- the bits, each part followed by the rest of the frame ----------

  function Flag(b: bool): nat
  {
    if b then 1 else 0
  }

  function CoefficientsThen(c: seq<int>, i: nat, rest: Bits): Bits
    requires i <= |c|
    decreases |c| - i
  {
    if i == |c| then rest else Field(c[i] % 0x1_0000, 16) + CoefficientsThen(c, i + 1, rest)
  }

  /** Prediction type 0 (adaptive FIR), quantisation, rice modifier, and the coefficient table. */
  function ChannelThen(c: Channel, rest: Bits): Bits
  {
    Field(0, 4) + (Field(c.shift, 4) + (Field(c.riceModifier, 3)
      + (Field(|c.coefficients|, 5) + CoefficientsThen(c.coefficients, 0, rest))))
  }

  function LowBytesThen(x: Block, i: nat, rest: Bits): Bits
    requires x.layout.uncompressedBytes <= 2 && i <= |x.left| && (x.st.stereo ==> |x.right| == |x.left|)
    decreases |x.left| - i
  {
    var u := x.layout.uncompressedBytes;
    if i == |x.left| then rest
    else
      Field(LowPart(x.left[i], u), 8 * u) +
      (if x.st.stereo then Field(LowPart(x.right[i], u), 8 * u) + LowBytesThen(x, i + 1, rest)
       else LowBytesThen(x, i + 1, rest))
  }

  /** A sample as it is: 16 bits, or the top 16 of 24 bits and then the low 8. */
  function RawSampleThen(v: int, sampleSize: nat, rest: Bits): Bits
  {
    if sampleSize == 16 then Field(v % 0x1_0000, 16) + rest
    else Field(v / 256 % 0x1_0000, 16) + (Field(v % 256, 8) + rest)
  }

  function RawThen(x: Block, i: nat, rest: Bits): Bits
    requires i <= |x.left| && (x.st.stereo ==> |x.right| == |x.left|)
    decreases |x.left| - i
  {
    if i == |x.left| then rest
    else
      RawSampleThen(x.left[i], x.st.sampleSize,
        if x.st.stereo then RawSampleThen(x.right[i], x.st.sampleSize, RawThen(x, i + 1, rest))
        else RawThen(x, i + 1, rest))
  }

  lemma ResidualsInRange(samples: seq<int>, c: Channel, st: Settings, size: nat)
    requires st.Valid() && c.Valid(st) && 1 <= size <= 30 && |samples| <= 0x1_0000 && AllFit(samples, size)
    requires CalmChannel(samples, c, st, size)
    ensures c.Filter(size).Valid()
    ensures Encodable(Encode(samples, c.Filter(size), |samples|), 0, c.Rice(st, size), st.initialHistory, 0)
  {
    hide Encode, Decode, FitsSigned;
    EncodeThenDecode(samples, c.Filter(size));
  }

  /** With a multiplier up to 64 every channel is calm. */
  lemma LowChannelCalm(samples: seq<int>, c: Channel, st: Settings, size: nat)
    requires st.Valid() && c.Valid(st) && 1 <= size <= 30 && |samples| <= 0x1_0000 && AllFit(samples, size)
    requires c.riceModifier * st.historyMult / 4 <= 64
    ensures CalmChannel(samples, c, st, size)
  {
    hide Encode, Decode, FitsSigned, Calm;
    EncodeThenDecode(samples, c.Filter(size));
    LowMultiplierCalm(Encode(samples, c.Filter(size), |samples|), 0, c.Rice(st, size), st.initialHistory, 0);
  }

  /** The residuals of one channel. */
  ghost function ResidualsThen(samples: seq<int>, c: Channel, st: Settings, size: nat, rest: Bits): Bits
    requires st.Valid() && c.Valid(st) && 1 <= size <= 30 && |samples| <= 0x1_0000 && AllFit(samples, size)
    requires CalmChannel(samples, c, st, size)
  {
    ResidualsInRange(samples, c, st, size);
    EncodeResiduals(Encode(samples, c.Filter(size), |samples|), 0, c.Rice(st, size), st.initialHistory, 0) + rest
  }

  /** The residuals of the second channel, if there is one. */
  ghost function SecondThen(x: Block, rest: Bits): Bits
    requires x.Valid() && x.layout.compressed
  {
    ChannelsFit(x);
    if x.st.stereo then ResidualsThen(x.ChannelB(), x.layout.b, x.st, x.ReadSampleSize(), rest) else rest
  }

  ghost function FirstThen(x: Block, rest: Bits): Bits
    requires x.Valid() && x.layout.compressed
  {
    ChannelsFit(x);
    ResidualsThen(x.ChannelA(), x.layout.a, x.st, x.ReadSampleSize(), SecondThen(x, rest))
  }

  ghost function LowThen(x: Block, rest: Bits): Bits
    requires x.Valid() && x.layout.compressed
  {
    if x.layout.uncompressedBytes > 0 then LowBytesThen(x, 0, FirstThen(x, rest)) else FirstThen(x, rest)
  }

  ghost function HeadersThen(x: Block, rest: Bits): Bits
    requires x.Valid() && x.layout.compressed
  {
    ChannelThen(x.layout.a, if x.st.stereo then ChannelThen(x.layout.b, LowThen(x, rest)) else LowThen(x, rest))
  }

  ghost function CompressedThen(x: Block, rest: Bits): Bits
    requires x.Valid() && x.layout.compressed
  {
    Field(x.layout.interlacingShift, 8) + (Field(x.layout.leftWeight, 8) + HeadersThen(x, rest))
  }

  ghost function BodyThen(x: Block, rest: Bits): Bits
    requires x.Valid()
  {
    if x.layout.compressed then CompressedThen(x, rest) else RawThen(x, 0, rest)
  }

  ghost function SizeThen(x: Block, rest: Bits): Bits
  {
    if x.layout.hasSize then Field(|x.left|, 32) + rest else rest
  }

  /** The whole frame. */
  ghost function EncodeFrame(x: Block): Bits
    requires x.Valid()
  {
    Field(Flag(x.st.stereo), 3) + (Field(x.layout.outputWaiting, 4) + (Field(x.layout.unknown, 12)
      + (Field(Flag(x.layout.hasSize), 1) + (Field(x.layout.uncompressedBytes, 2)
      + (Field(Flag(!x.layout.compressed), 1) + SizeThen(x, BodyThen(x, [])))))))
  }

  /** The PCM bytes of the block. */
  ghost function Pcm(x: Block): seq<byte>
    requires x.Valid()
  {
    if x.st.sampleSize == 16 then Pcm16(x.left, x.right, x.st.stereo, |x.left|)
    else Pcm24(x.left, x.right, x.st.stereo, |x.left|)
  }

  /** The samples the decoder writes: its 16-bit output never rejoins the uncompressed low bytes. */
  function Written(x: Block, v: seq<int>): (w: seq<int>)
    requires x.layout.compressed ==> x.layout.uncompressedBytes <= 2
    ensures |w| == |v|
  {
    if x.st.sampleSize == 16 && x.layout.compressed then x.Highs(v) else v
  }

  ghost function Output(x: Block): seq<byte>
    requires x.Valid()
  {
    var l, r := Written(x, x.left), Written(x, x.right);
    if x.st.sampleSize == 16 then Pcm16(l, r, x.st.stereo, |x.left|)
    else Pcm24(l, r, x.st.stereo, |x.left|)
  }

  /** Samples whose low byte carries no information of its own. */
  ghost predicate AllSign(v: seq<int>) {
    forall i | 0 <= i < |v| :: v[i] == 0 || v[i] == -1
  }

  lemma Bytes16Injective(v: int, w: int)
    requires FitsSigned(v, 16) && FitsSigned(w, 16) && Bytes16(v) == Bytes16(w)
    ensures v == w
  {
    HalfScales();
    assert Bytes16(v)[0] == Bytes16(w)[0] && Bytes16(v)[1] == Bytes16(w)[1];
  }

  lemma {:induction false} Pcm16Injective(l: seq<int>, r: seq<int>, l': seq<int>, r': seq<int>, stereo: bool, n: nat)
    requires n <= |l| && n <= |l'| && AllFit(l, 16) && AllFit(l', 16)
    requires stereo ==> n <= |r| && n <= |r'| && AllFit(r, 16) && AllFit(r', 16)
    requires Pcm16(l, r, stereo, n) == Pcm16(l', r', stereo, n)
    ensures forall i | 0 <= i < n :: l[i] == l'[i] && (stereo ==> r[i] == r'[i])
  {
    if n > 0 {
      var p, p' := Pcm16(l, r, stereo, n), Pcm16(l', r', stereo, n);
      var k := |Pcm16(l, r, stereo, n - 1)|;
      assert Pcm16(l, r, stereo, n - 1) == p[..k] == p'[..k] == Pcm16(l', r', stereo, n - 1);
      assert Bytes16(l[n - 1]) == p[k..k + 2] == p'[k..k + 2] == Bytes16(l'[n - 1]);
      Bytes16Injective(l[n - 1], l'[n - 1]);
      if stereo {
        assert Bytes16(r[n - 1]) == p[k + 2..] == p'[k + 2..] == Bytes16(r'[n - 1]);
        Bytes16Injective(r[n - 1], r'[n - 1]);
      }
      Pcm16Injective(l, r, l', r', stereo, n - 1);
    }
  }

  /**
   The output is the block's own PCM for every layout but one: a compressed 16-bit frame that
   announces an uncompressed byte comes out right only if that byte carries no information.
   */
  lemma Lossless(x: Block)
    requires x.Valid()
    ensures Output(x) == Pcm(x) <==>
      (x.st.sampleSize == 16 && x.layout.compressed && x.layout.uncompressedBytes == 1 ==>
         AllSign(x.left) && (x.st.stereo ==> AllSign(x.right)))
  {
    if x.st.sampleSize == 16 && x.layout.compressed {
      if Output(x) == Pcm(x) {
        LosslessOnlyIf(x);
      }
      if x.layout.uncompressedBytes == 0 || (AllSign(x.left) && (x.st.stereo ==> AllSign(x.right))) {
        LosslessIf(x);
      }
    }
  }

  lemma LosslessIf(x: Block)
    requires x.Valid() && x.st.sampleSize == 16 && x.layout.compressed
    requires x.layout.uncompressedBytes == 0 || (AllSign(x.left) && (x.st.stereo ==> AllSign(x.right)))
    ensures Output(x) == Pcm(x)
  {
    hide CalmChannel, Channel.Valid, Block.ChannelA, Block.ChannelB, Block.ReadSampleSize, Pow2, AllFit, MidOf, Wrap32;
    var l, r := Written(x, x.left), Written(x, x.right);
    assert l == x.left;
    if !x.st.stereo {
      Pcm16Mono(l, r, x.right, |x.left|);
    } else {
      assert r == x.right;
    }
  }

  lemma LosslessOnlyIf(x: Block)
    requires x.Valid() && x.st.sampleSize == 16 && x.layout.compressed && Output(x) == Pcm(x)
    ensures x.layout.uncompressedBytes == 1 ==> AllSign(x.left) && (x.st.stereo ==> AllSign(x.right))
  {
    hide CalmChannel, Channel.Valid, Block.ChannelA, Block.ChannelB, Block.ReadSampleSize;
    var l, r := Written(x, x.left), Written(x, x.right);
    HalfScales();
    WrittenFits(x, x.left);
    if x.st.stereo {
      WrittenFits(x, x.right);
    }
    Pcm16Injective(l, r, x.left, x.right, x.st.stereo, |x.left|);
    assert forall i | 0 <= i < |x.left| :: l[i] == HighPart(x.left[i], x.layout.uncompressedBytes);
    assert forall i | 0 <= i < |r| :: r[i] == HighPart(x.right[i], x.layout.uncompressedBytes);
  }

  lemma WrittenFits(x: Block, v: seq<int>)
    requires x.Valid() && x.st.sampleSize == 16 && x.layout.compressed && AllFit(v, 16)
    ensures AllFit(Written(x, v), 16)
  {
    Pow2Monotone(7, 15);
    forall i | 0 <= i < |v|
      ensures FitsSigned(Written(x, v)[i], 16)
    {
      HighFits(x, v[i]);
    }
  }

  /** A frame of one sample whose low byte is lost: the 16-bit sample 1, with an uncompressed byte announced. */
  lemma LowByteLost() returns (x: Block)
    ensures x.Valid() && x.st.sampleSize == 16 && x.left == [1] && Output(x) != Pcm(x)
  {
    var c := Channel(1, 4, []);
    x := Block(Settings(16, false, 1, 14, 10, 40), Layout(0, 0, true, 1, true, 0, 0, c, c), [1], []);
    Pow2Values();
    Pow2Monotone(0, 7);
    Pow2Monotone(0, 15);
    assert x.Highs([1]) == [0] && x.ChannelA() == [0];
    LowChannelCalm([0], c, x.st, 8);
    Lossless(x);
  }

  /** A mono output does not look at the right channel. */
  lemma {:induction false} Pcm16Mono(l: seq<int>, r: seq<int>, r': seq<int>, n: nat)
    requires n <= |l|
    ensures Pcm16(l, r, false, n) == Pcm16(l, r', false, n)
  {
    if n > 0 {
      Pcm16Mono(l, r, r', n - 1);
    }
  }
}

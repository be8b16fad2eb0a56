/** The last stage of the sample path: volume, dither, output format, and the insertion or removal of a frame. */
module PlayerSamples {
  import opened Numbers

  datatype Format = S32LE | S32BE | S32 | S24LE | S24BE | S24 | S24In3LE | S24In3BE | S16LE | S16BE | S16 | S8 | U8

  predicate IsInt32(x: int)
  {
    -0x8000_0000 <= x < 0x8000_0000
  }

  const INT64_MAX: int := 0x7FFF_FFFF_FFFF_FFFF
  const INT64_MIN: int := -0x8000_0000_0000_0000

  predicate IsInt64(x: int)
  {
    INT64_MIN <= x <= INT64_MAX
  }

  function Width(f: Format): nat
  {
    match f
    case S32LE => 32
    case S32BE => 32
    case S32 => 32
    case S24LE => 24
    case S24BE => 24
    case S24 => 24
    case S24In3LE => 24
    case S24In3BE => 24
    case S16LE => 16
    case S16BE => 16
    case S16 => 16
    case S8 => 8
    case U8 => 8
  }

  /** 2 to the power 64 less the width of a format. */
  function Unit(f: Format): (u: nat)
    ensures u > 0
  {
    match Width(f)
    case 32 => 0x1_0000_0000
    case 24 => 0x100_0000_0000
    case 16 => 0x1_0000_0000_0000
    case _ => 0x100_0000_0000_0000
  }

  function Size(f: Format): (n: nat)
    ensures n > 0
  {
    match f
    case S24In3LE => 3
    case S24In3BE => 3
    case _ => if Width(f) == 24 then 4 else Width(f) / 8
  }

  /** `output_bytes_per_frame`: the bytes set aside for a frame of two samples. */
  function BytesPerFrame(f: Format): (n: nat)
    ensures n == if Size(f) == 1 then 4 else 2 * Size(f)
  {
    match f
    case S24In3LE => 6
    case S24In3BE => 6
    case S24 => 8
    case S24LE => 8
    case S24BE => 8
    case S32 => 8
    case S32LE => 8
    case S32BE => 8
    case _ => 4
  }

  /** The size of `outbuf`: for a packet of the most frames at `ratio` output frames each, and `ratio` frames more. */
  function OutputSize(f: Format, maxFrames: nat, ratio: nat): nat
  {
    BytesPerFrame(f) * (maxFrames * ratio + ratio)
  }

  /** A stuffed packet never needs more than is allocated, in any format. */
  lemma OutputFits(f: Format, length: nat, stuff: int, maxFrames: nat, ratio: nat)
    requires length <= maxFrames * ratio && ratio >= 1 && -1 <= stuff <= 1 && length + stuff >= 0
    ensures Size(f) * (2 * (length + stuff)) <= OutputSize(f, maxFrames, ratio)
  {
    var frames, most := length + stuff, maxFrames * ratio + ratio;
    assert 2 * Size(f) <= BytesPerFrame(f);
    Product(frames, 2 * Size(f), BytesPerFrame(f));
    Product(BytesPerFrame(f), frames, most);
    assert Size(f) * (2 * frames) == frames * (2 * Size(f));
  }

  // ---------- one sample ----------

  /** The sample at 64 bits, with the volume in 16 bits applied unless the loudness filter has done so. */
  function Scaled(sample: int, volume: nat, loudness: bool): int
  {
    if loudness then sample * 0x1_0000_0000 else sample * (volume * 0x1_0000)
  }

  /** The 64-bit product cannot overflow for a 32-bit sample and a volume up to 0x10000. */
  lemma ScaledFits(sample: int, volume: nat, loudness: bool)
    requires IsInt32(sample) && volume <= 0x1_0000
    ensures IsInt64(Scaled(sample, volume, loudness))
  {
    if !loudness {
      var v := volume * 0x1_0000;
      assert 0 <= v <= 0x1_0000_0000;
      if sample >= 0 {
        Product(sample, v, 0x1_0000_0000);
      } else {
        Product(-sample, v, 0x1_0000_0000);
        assert sample * v == -((-sample) * v);
      }
    }
  }

  lemma Product(a: nat, b: nat, c: nat)
    requires b <= c
    ensures 0 <= a * b <= a * c
  {
    assert a * c == a * b + a * (c - b);
  }

  /** The difference of two random numbers in `u` steps each: the bit masks are remainders. */
  function Tpdf(u: nat, r: int, previous: int): int
    requires u > 0
  {
    r % u - previous % u
  }

  /** Saturating addition, tested as the code does without overflowing. */
  function Dithered(h: int, t: int): (d: int)
    requires IsInt64(h)
    ensures IsInt64(d) && d == if h + t > INT64_MAX then INT64_MAX else if h + t < INT64_MIN then INT64_MIN else h + t
  {
    if t >= 0 then if INT64_MAX - t >= h then h + t else INT64_MAX
    else if INT64_MIN - t <= h then h + t else INT64_MIN
  }

  /** What is left of a 64-bit sample in a format. */
  function Shifted(h: int, f: Format): int
  {
    h / Unit(f)
  }

  lemma ShiftedRange(h: int, f: Format)
    requires IsInt64(h)
    ensures -0x8000_0000_0000_0000 / Unit(f) <= Shifted(h, f) <= 0x7FFF_FFFF_FFFF_FFFF / Unit(f)
    ensures Width(f) == 32 ==> -0x8000_0000 <= Shifted(h, f) < 0x8000_0000
    ensures Width(f) == 24 ==> -0x80_0000 <= Shifted(h, f) < 0x80_0000
    ensures Width(f) == 16 ==> -0x8000 <= Shifted(h, f) < 0x8000
    ensures Width(f) == 8 ==> -0x80 <= Shifted(h, f) < 0x80
  {
    var u := Unit(f);
    assert u * Shifted(h, f) <= h < u * Shifted(h, f) + u;
  }

  /** Dither moves a sample of the output by one step at most. */
  lemma DitherWithinOneStep(h: int, r: int, previous: int, f: Format)
    requires IsInt64(h)
    ensures Shifted(h, f) - 1 <= Shifted(Dithered(h, Tpdf(Unit(f), r, previous)), f) <= Shifted(h, f) + 1
  {
    var u := Unit(f);
    var t := Tpdf(u, r, previous);
    assert -u < t < u;
    var d := Dithered(h, t);
    StepBound(h, d, u);
  }

  lemma MoreThan(k: int, u: nat, c: nat)
    requires u > 0 && k * u > -(c as int) * u
    ensures k > -(c as int)
  {
    assert (k + c) * u == k * u + c * u;
    var m := -(k + c);
    assert u * m == -((k + c) * u);
    if m >= 1 {
      MulAtLeast(u, m);
    }
  }

  lemma StepBound(h: int, d: int, u: nat)
    requires u > 0 && -(u as int) < d - h < u
    ensures h / u - 1 <= d / u <= h / u + 1
  {
    var p, q := h / u, d / u;
    assert p * u <= h < p * u + u && q * u <= d < q * u + u;
    assert (q - p) * u == q * u - p * u && (p - q) * u == p * u - q * u;
    MoreThan(q - p, u, 2);
    MoreThan(p - q, u, 2);
  }

  function Octet(v: int, k: nat): byte
  {
    (if k == 0 then v else if k == 1 then v / 0x100 else if k == 2 then v / 0x1_0000 else v / 0x100_0000) % 0x100
  }

  /** The bytes written; the formats of the host are little-endian. */
  function Bytes(v: int, f: Format): (b: seq<byte>)
    ensures |b| == Size(f)
    ensures (f.S24LE? ==> b[3] == 0) && (f.S24BE? ==> b[0] == 0)
  {
    match f
    case S32LE => [Octet(v, 0), Octet(v, 1), Octet(v, 2), Octet(v, 3)]
    case S32BE => [Octet(v, 3), Octet(v, 2), Octet(v, 1), Octet(v, 0)]
    case S32 => [Octet(v, 0), Octet(v, 1), Octet(v, 2), Octet(v, 3)]
    case S24LE => [Octet(v, 0), Octet(v, 1), Octet(v, 2), 0]
    case S24BE => [0, Octet(v, 2), Octet(v, 1), Octet(v, 0)]
    case S24 => [Octet(v, 0), Octet(v, 1), Octet(v, 2), Octet(v, 3)]
    case S24In3LE => [Octet(v, 0), Octet(v, 1), Octet(v, 2)]
    case S24In3BE => [Octet(v, 2), Octet(v, 1), Octet(v, 0)]
    case S16LE => [Octet(v, 0), Octet(v, 1)]
    case S16BE => [Octet(v, 1), Octet(v, 0)]
    case S16 => [Octet(v, 0), Octet(v, 1)]
    case S8 => [Octet(v, 0)]
    case U8 => [Octet(v + 128, 0)]
  }

  function Joined(b0: nat, b1: nat, b2: nat, b3: nat): nat
  {
    b0 + 0x100 * b1 + 0x1_0000 * b2 + 0x100_0000 * b3
  }

  function Signed(u: nat, half: nat): int
  {
    if u >= half then u - 2 * half else u
  }

  /** The value a device takes from the bytes of a sample. */
  function ValueOf(b: seq<byte>, f: Format): int
    requires |b| == Size(f)
  {
    match f
    case S32LE => Signed(Joined(b[0], b[1], b[2], b[3]), 0x8000_0000)
    case S32BE => Signed(Joined(b[3], b[2], b[1], b[0]), 0x8000_0000)
    case S32 => Signed(Joined(b[0], b[1], b[2], b[3]), 0x8000_0000)
    case S24LE => Signed(Joined(b[0], b[1], b[2], 0), 0x80_0000)
    case S24BE => Signed(Joined(b[3], b[2], b[1], 0), 0x80_0000)
    case S24 => Signed(Joined(b[0], b[1], b[2], b[3]), 0x8000_0000)
    case S24In3LE => Signed(Joined(b[0], b[1], b[2], 0), 0x80_0000)
    case S24In3BE => Signed(Joined(b[2], b[1], b[0], 0), 0x80_0000)
    case S16LE => Signed(Joined(b[0], b[1], 0, 0), 0x8000)
    case S16BE => Signed(Joined(b[1], b[0], 0, 0), 0x8000)
    case S16 => Signed(Joined(b[0], b[1], 0, 0), 0x8000)
    case S8 => Signed(b[0], 0x80)
    case U8 => b[0] as int - 128
  }

  lemma OctetsOf(v: int)
    ensures Joined(Octet(v, 0), Octet(v, 1), Octet(v, 2), Octet(v, 3)) == v % 0x1_0000_0000
    ensures Joined(Octet(v, 0), Octet(v, 1), Octet(v, 2), 0) == v % 0x100_0000
    ensures Joined(Octet(v, 0), Octet(v, 1), 0, 0) == v % 0x1_0000
  {
    var a: nat, b: nat, c: nat, d: nat := Octet(v, 0), Octet(v, 1), Octet(v, 2), Octet(v, 3);
    var q := v / 0x100 / 0x100 / 0x100 / 0x100;
    assert v / 0x1_0000 == v / 0x100 / 0x100 && v / 0x100_0000 == v / 0x100 / 0x100 / 0x100;
    assert v == (((q * 0x100 + d) * 0x100 + c) * 0x100 + b) * 0x100 + a;
    DivModUnique(v, q, 0x1_0000_0000, Joined(a, b, c, d));
    DivModUnique(v, q * 0x100 + d, 0x100_0000, Joined(a, b, c, 0));
    DivModUnique(v, (q * 0x100 + d) * 0x100 + c, 0x1_0000, Joined(a, b, 0, 0));
  }

  lemma SignedOf(v: int, half: nat)
    requires half > 0 && -(half as int) <= v < half
    ensures Signed(v % (2 * half), half) == v
  {
    if v >= 0 {
      DivModUnique(v, 0, 2 * half, v);
    } else {
      DivModUnique(v, -1, 2 * half, v + 2 * half);
    }
  }

  /** In every format the bytes stand for the shifted sample exactly. */
  lemma BytesStandForSample(h: int, f: Format)
    requires IsInt64(h)
    ensures ValueOf(Bytes(Shifted(h, f), f), f) == Shifted(h, f)
  {
    hide Octet, Signed, Unit, Shifted;
    var v := Shifted(h, f);
    ShiftedRange(h, f);
    OctetsOf(v);
    if f.U8? {
      UnsignedOctet(v);
    } else if Width(f) == 8 {
      SignedOf(v, 0x80);
      FirstOctet(v);
    } else if Width(f) == 16 {
      SignedOf(v, 0x8000);
    } else if Width(f) == 32 || f.S24? {
      SignedOf(v, 0x8000_0000);
    } else {
      SignedOf(v, 0x80_0000);
    }
  }

  lemma FirstOctet(v: int)
    ensures Octet(v, 0) == v % 0x100
  {
  }

  lemma UnsignedOctet(v: int)
    requires -0x80 <= v < 0x80
    ensures Octet(v + 128, 0) as int - 128 == v
  {
  }

  /** At full volume and without dither a 32-bit format reproduces every sample exactly. */
  lemma FullVolumeIsExact(sample: int, f: Format, loudness: bool)
    requires IsInt32(sample) && Width(f) == 32
    ensures ValueOf(Bytes(Shifted(Scaled(sample, 0x1_0000, loudness), f), f), f) == sample
  {
    var h := Scaled(sample, 0x1_0000, loudness);
    ScaledFits(sample, 0x1_0000, loudness);
    DivModUnique(h, sample, 0x1_0000_0000, 0);
    assert Shifted(h, f) == sample;
    BytesStandForSample(h, f);
  }

  // ---------- frames inserted and removed ----------

  /** `mean_32`: half the sum, rounded towards zero. */
  function Mean(a: int, b: int): (m: int)
    requires IsInt32(a) && IsInt32(b)
    ensures IsInt32(m) && -1 <= 2 * m - (a + b) <= 1
    ensures a <= m <= b || b <= m <= a
    ensures if a + b >= 0 then 2 * m <= a + b else 2 * m >= a + b
  {
    if a + b >= 0 then (a + b) / 2 else -(-(a + b) / 2)
  }

  type Samples = s: seq<int> | forall i | 0 <= i < |s| :: IsInt32(s[i])

  function FrameOf(s: seq<int>, i: nat): (int, int)
    requires 2 * i + 1 < |s|
  {
    (s[2 * i], s[2 * i + 1])
  }

  /** Interleaved samples with a frame inserted before frame `at` (1), frame `at` left out (-1), or unchanged. */
  function Stuffed(s: Samples, length: nat, at: nat, stuff: int): (r: Samples)
    requires 2 * length <= |s| && -1 <= stuff <= 1 && (stuff != 0 ==> 1 <= at < length - 1)
    ensures |r| == 2 * (length + stuff)
  {
    if stuff == 0 then s[..2 * length]
    else if stuff == 1 then
      s[..2 * at] + [Mean(s[2 * at - 2], s[2 * at]), Mean(s[2 * at - 1], s[2 * at + 1])] + s[2 * at..2 * length]
    else s[..2 * at] + s[2 * at + 2..2 * length]
  }

  /** From sample `d` on `r` has the `n` frames that `s` has from sample `q` on. */
  ghost predicate SameFrames(r: seq<int>, d: nat, s: seq<int>, q: nat, n: nat)
  {
    d + 2 * n <= |r| && q + 2 * n <= |s| && forall k | d <= k < d + 2 * n :: r[k] == s[k + (q - d)]
  }

  /** The parts of the output. */
  lemma StuffedParts(s: Samples, length: nat, at: nat, stuff: int)
    requires 2 * length <= |s| && -1 <= stuff <= 1 && 1 <= at < length - 1
    ensures var r := Stuffed(s, length, at, stuff);
      && (stuff == 0 ==> SameFrames(r, 0, s, 0, length))
      && (stuff != 0 ==> SameFrames(r, 0, s, 0, at))
      && (stuff == 1 ==> r[2 * at] == Mean(s[2 * at - 2], s[2 * at]) && r[2 * at + 1] == Mean(s[2 * at - 1], s[2 * at + 1]))
      && (stuff == 1 ==> SameFrames(r, 2 * at + 2, s, 2 * at, length - at))
      && (stuff == -1 ==> SameFrames(r, 2 * at, s, 2 * at + 2, length - 1 - at))
  {
    hide Mean;
  }

  /** The frame to insert before or leave out: neither the first nor the last. */
  function Place(rand: nat, length: nat): (at: nat)
    requires length >= 3
    ensures 1 <= at < length - 1
  {
    rand % (length - 2) + 1
  }

  /** Every interior frame is chosen, and each by as many random numbers as any other. */
  lemma PlaceIs(turn: nat, at: nat, length: nat)
    requires 1 <= at < length - 1
    ensures Place(turn * (length - 2) + (at - 1), length) == at
  {
    DivModUnique(turn * (length - 2) + (at - 1), turn, length - 2, at - 1);
  }

  /** Frame by frame: the input in order, but for one interior frame. */
  lemma StuffedFrames(s: Samples, length: nat, at: nat, stuff: int, i: nat)
    requires 2 * length <= |s| && -1 <= stuff <= 1 && (stuff != 0 ==> 1 <= at < length - 1) && i < length + stuff
    ensures var r, f := Stuffed(s, length, at, stuff), FrameOf(Stuffed(s, length, at, stuff), i);
      && (stuff == 0 || i < at ==> f == FrameOf(s, i))
      && (stuff == 1 && i == at ==>
            var p, n := FrameOf(s, at - 1), FrameOf(s, at); f == (Mean(p.0, n.0), Mean(p.1, n.1)))
      && (stuff == 1 && i > at ==> f == FrameOf(s, i - 1))
      && (stuff == -1 && i >= at ==> f == FrameOf(s, i + 1))
  {
    hide Mean;
  }

  // ---------- the conversion of a packet ----------

  /** Everything the conversion depends on: the volume, and the next outputs of the random number generator. */
  datatype Settings = Settings(format: Format, volume: nat, loudness: bool, dither: bool, noise: seq<int>, first: int)
  {
    predicate Valid() {
      volume <= 0x1_0000
    }

    /** The random number before number `k`. */
    function Before(k: nat): int
      requires k <= |noise|
    {
      if k == 0 then first else noise[k - 1]
    }
  }

  /** The bytes of a sample, given the random number for it and the one before. */
  function Converted(c: Settings, sample: int, r: int, previous: int): (b: seq<byte>)
    requires c.Valid() && IsInt32(sample)
    ensures |b| == Size(c.format)
  {
    ScaledFits(sample, c.volume, c.loudness);
    var h := Scaled(sample, c.volume, c.loudness);
    var d := if c.dither then Dithered(h, Tpdf(Unit(c.format), r, previous)) else h;
    Bytes(Shifted(d, c.format), c.format)
  }

  lemma PreviousUnused(c: Settings, sample: int, r: int, p: int, q: int)
    requires c.Valid() && IsInt32(sample) && !c.dither
    ensures Converted(c, sample, r, p) == Converted(c, sample, r, q)
  {
  }

  /** The bytes of a sample, the `k`-th of its packet. */
  function Rendered(c: Settings, sample: int, k: nat): (b: seq<byte>)
    requires c.Valid() && IsInt32(sample) && k < |c.noise|
    ensures |b| == Size(c.format)
  {
    Converted(c, sample, c.noise[k], c.Before(k))
  }

  function RenderedAll(c: Settings, samples: Samples, k: nat): (b: seq<byte>)
    requires c.Valid() && k <= |samples| && k <= |c.noise|
    ensures |b| == Size(c.format) * k
  {
    if k == 0 then [] else RenderedAll(c, samples, k - 1) + Rendered(c, samples[k - 1], k - 1)
  }

  /** Each sample of the output stands where it should and depends on its own sample only. */
  lemma {:induction false} RenderedAt(c: Settings, samples: Samples, k: nat, i: nat)
    requires c.Valid() && i < k <= |samples| && k <= |c.noise|
    ensures var n := Size(c.format);
      && 0 <= n * i <= n * (i + 1) <= |RenderedAll(c, samples, k)|
      && RenderedAll(c, samples, k)[n * i..n * (i + 1)] == Rendered(c, samples[i], i)
  {
    hide Rendered;
    var n := Size(c.format);
    Product(n, i, i + 1);
    Product(n, i + 1, k);
    if i < k - 1 {
      RenderedAt(c, samples, k - 1, i);
    }
    var before, last := RenderedAll(c, samples, k - 1), Rendered(c, samples[k - 1], k - 1);
    assert RenderedAll(c, samples, k) == before + last;
    if i == k - 1 {
      assert (before + last)[n * i..n * (i + 1)] == last;
    } else {
      Product(n, i + 1, k - 1);
      assert (before + last)[n * i..n * (i + 1)] == before[n * i..n * (i + 1)];
    }
  }

  /** A packet converted to a 32-bit format at full volume, without dither, reads back as the very samples. */
  lemma PacketIsExact(c: Settings, samples: Samples, k: nat, i: nat)
    requires c.Valid() && i < k <= |samples| && k <= |c.noise|
    requires Width(c.format) == 32 && !c.dither && (c.loudness || c.volume == 0x1_0000)
    ensures var n := Size(c.format);
      && 0 <= n * i <= n * (i + 1) <= |RenderedAll(c, samples, k)|
      && ValueOf(RenderedAll(c, samples, k)[n * i..n * (i + 1)], c.format) == samples[i]
  {
    hide Width, Size, Unit, Shifted, Bytes, ValueOf, RenderedAll;
    RenderedAt(c, samples, k, i);
    FullVolumeIsExact(samples[i], c.format, c.loudness);
  }

  // ---------- what the bytes stand for, in numbers ----------

  /** One step of a format in units of the 64-bit sample: 2 to the power 64 less 32, 24, 16 or 8. */
  function StepOf(f: Format): nat
  {
    match f
    case S32LE => Pow2(32)
    case S32BE => Pow2(32)
    case S32 => Pow2(32)
    case S24LE => Pow2(40)
    case S24BE => Pow2(40)
    case S24 => Pow2(40)
    case S24In3LE => Pow2(40)
    case S24In3BE => Pow2(40)
    case S16LE => Pow2(48)
    case S16BE => Pow2(48)
    case S16 => Pow2(48)
    case S8 => Pow2(56)
    case U8 => Pow2(56)
  }

  lemma StepIsUnit(f: Format)
    ensures StepOf(f) == Unit(f) >= 1
  {
    Pow2Values();
    hide Pow2;
    Pow2Add(32, 8);
    Pow2Add(32, 16);
    Pow2Add(32, 24);
  }

  lemma FloorIs(x: int, u: nat)
    requires u >= 1
    ensures x / u * u <= x < (x / u + 1) * u
  {
    assert (x / u + 1) * u == x / u * u + u;
  }

  /**
   In every format, at every volume, with dither or without: the sample times the volume, at 64 bits, and
   moved by the difference of two random numbers of up to a step, but not beyond 64 bits, is rounded down
   to the steps of the format.
   */
  lemma ConvertedIs(c: Settings, sample: int, r: int, previous: int)
    requires c.Valid() && IsInt32(sample)
    ensures var v: int, step: int := ValueOf(Converted(c, sample, r, previous), c.format), StepOf(c.format);
      var exact := if c.loudness then sample * 0x1_0000_0000 else sample * c.volume * 0x1_0000;
      var moved := if c.dither then exact + (r % step - previous % step) else exact;
      var most := 0x7FFF_FFFF_FFFF_FFFF;
      v * step <= (if moved > most then most else if moved < -most - 1 then -most - 1 else moved) < (v + 1) * step
  {
    hide Unit, StepOf, Bytes, ValueOf;
    ScaledFits(sample, c.volume, c.loudness);
    StepIsUnit(c.format);
    var h := Scaled(sample, c.volume, c.loudness);
    var d := if c.dither then Dithered(h, Tpdf(Unit(c.format), r, previous)) else h;
    assert IsInt64(d);
    BytesStandForSample(d, c.format);
    FloorIs(d, Unit(c.format));
    Regrouped(sample, c.volume);
  }

  lemma Regrouped(a: int, b: int)
    ensures a * (b * 0x1_0000) == a * b * 0x1_0000
  {
  }

  /** Without dither a sample is multiplied by the volume, in units of 2^16, and rounded down to the format's width. */
  lemma VolumeIsApplied(c: Settings, sample: int, r: int, previous: int)
    requires c.Valid() && IsInt32(sample) && !c.dither && !c.loudness
    ensures var v: int, b := ValueOf(Converted(c, sample, r, previous), c.format), Width(c.format);
      b in {32, 24, 16, 8} && v * Pow2(48 - b) <= sample * c.volume < (v + 1) * Pow2(48 - b)
  {
    hide Converted, ValueOf, Pow2;
    ConvertedIs(c, sample, r, previous);
    ScaledFits(sample, c.volume, false);
    var v := ValueOf(Converted(c, sample, r, previous), c.format);
    var b := Width(c.format);
    Pow2Values();
    Pow2Add(48 - b, 16);
    Descaled(v, sample * c.volume, Pow2(48 - b));
  }

  lemma Descaled(v: int, x: int, p: nat)
    requires v * (p * 0x1_0000) <= x * 0x1_0000 < (v + 1) * (p * 0x1_0000)
    ensures v * p <= x < (v + 1) * p
  {
    assert v * (p * 0x1_0000) == v * p * 0x1_0000 && (v + 1) * (p * 0x1_0000) == (v + 1) * p * 0x1_0000;
  }

  /** The same of every sample of a packet: each stands where it should, at its volume. */
  lemma PacketAtVolume(c: Settings, samples: Samples, k: nat, i: nat)
    requires c.Valid() && i < k <= |samples| && k <= |c.noise| && !c.dither && !c.loudness
    ensures var n, b := Size(c.format), Width(c.format);
      && b in {32, 24, 16, 8} && 0 <= n * i <= n * (i + 1) <= |RenderedAll(c, samples, k)|
      && var v: int := ValueOf(RenderedAll(c, samples, k)[n * i..n * (i + 1)], c.format);
      v * Pow2(48 - b) <= samples[i] * c.volume < (v + 1) * Pow2(48 - b)
  {
    hide Width, Size, Unit, Shifted, Bytes, ValueOf, RenderedAll, Converted, Pow2;
    RenderedAt(c, samples, k, i);
    VolumeIsApplied(c, samples[i], c.noise[i], c.Before(i));
  }

  class Converter {
    const settings: Settings
    var previousRandomNumber: int
    var done: nat  // samples converted so far, each taking one number of the random number generator

    constructor (settings: Settings)
      ensures this.settings == settings && done == 0 && previousRandomNumber == settings.first
    {
      this.settings, previousRandomNumber, done := settings, settings.first, 0;
    }

    /** `process_sample`: writes one sample at `p`; `r` is the next random number. */
    method ProcessSample(sample: int, outp: array<byte>, p: nat, r: int) returns (next: nat)
      requires settings.Valid() && IsInt32(sample) && p + Size(settings.format) <= outp.Length
      modifies outp, `previousRandomNumber
      ensures next == p + Size(settings.format)
      ensures outp[..next] == old(outp[..p]) + Converted(settings, sample, r, old(previousRandomNumber))
      ensures previousRandomNumber == if settings.dither then r else old(previousRandomNumber)
    {
      hide Scaled, Dithered, Tpdf, Unit, Shifted, Bytes, Size, Width;
      var format := settings.format;
      ScaledFits(sample, settings.volume, settings.loudness);
      var hyperSample := Scaled(sample, settings.volume, settings.loudness);
      if settings.dither {
        var tpdf := Tpdf(Unit(format), r, previousRandomNumber);
        previousRandomNumber := r;
        hyperSample := Dithered(hyperSample, tpdf);
      }
      var bytes := Bytes(Shifted(hyperSample, format), format);
      var i := 0;
      while i < |bytes|
        invariant i <= |bytes| == Size(format)
        invariant outp[..p + i] == old(outp[..p]) + bytes[..i]
        modifies outp
      {
        outp[p + i] := bytes[i];
        assert outp[..p + (i + 1)] == outp[..p + i] + [bytes[i]];
        assert bytes[..i + 1] == bytes[..i] + [bytes[i]];
        i := i + 1;
      }
      assert bytes[..i] == bytes;
      next := p + |bytes|;
    }

    /** The samples written so far are the first ones of `expected`. */
    ghost predicate Wrote(outp: array<byte>, p: nat, expected: Samples)
      reads this, outp
    {
      && settings.Valid() && done <= |expected| <= |settings.noise| && p <= outp.Length
      && p == Size(settings.format) * done && Size(settings.format) * |expected| <= outp.Length
      && outp[..p] == RenderedAll(settings, expected, done)
      && (settings.dither ==> previousRandomNumber == settings.Before(done))
    }

    /** Writes the next sample of what is expected. */
    method Emit(sample: int, outp: array<byte>, p: nat, ghost expected: Samples) returns (next: nat)
      requires Wrote(outp, p, expected) && done < |expected| && sample == expected[done]
      modifies outp, `previousRandomNumber, `done
      ensures Wrote(outp, next, expected) && done == old(done) + 1
    {
      hide Converted, Size, Width;
      ghost var size, k := Size(settings.format), done;
      Product(size, k + 1, |expected|);
      assert size * (k + 1) == size * k + size;
      NextRendered(settings, expected, k, previousRandomNumber);
      next := ProcessSample(sample, outp, p, settings.noise[done]);
      done := done + 1;
    }

    /** Converts `n` frames from sample `q` of the input on, which are the next ones expected. */
    method ConvertFrames(inptr: Samples, q: nat, n: nat, outptr: array<byte>, p: nat, ghost expected: Samples)
      returns (next: nat)
      requires Wrote(outptr, p, expected) && SameFrames(expected, done, inptr, q, n)
      modifies outptr, `previousRandomNumber, `done
      ensures Wrote(outptr, next, expected) && done == old(done) + 2 * n
    {
      hide Wrote;
      next := p;
      for i := 0 to n
        invariant Wrote(outptr, next, expected) && done == old(done) + 2 * i
      {
        assert expected[old(done) + 2 * i] == inptr[q + 2 * i];
        assert expected[old(done) + (2 * i + 1)] == inptr[q + (2 * i + 1)];
        next := Emit(inptr[q + 2 * i], outptr, next, expected);
        next := Emit(inptr[q + 2 * i + 1], outptr, next, expected);
      }
    }

    /**
     `stuff_buffer_basic_32`: converts a packet of interleaved stereo samples, with one frame inserted
     or left out at a random place; short packets are never stuffed. The output buffer is the one
     allocated for packets of up to `maxFrames` frames at `ratio` output frames each.
     */
    method StuffBufferBasic(inptr: Samples, length: nat, outptr: array<byte>, stuff: int, rand: nat,
                            ghost maxFrames: nat, ghost ratio: nat)
      returns (frames: nat, amountStuffed: int)
      requires length >= 3 && 2 * length <= |inptr|
      requires settings.Valid() && done == 0 && previousRandomNumber == settings.first
      requires |settings.noise| >= 2 * (length + 1)
      requires ratio >= 1 && length <= maxFrames * ratio
        && outptr.Length == OutputSize(settings.format, maxFrames, ratio)
      modifies outptr, `previousRandomNumber, `done
      ensures amountStuffed == if -1 <= stuff <= 1 && length >= 100 then stuff else 0
      ensures frames == length + amountStuffed
      ensures var size := Size(settings.format) * (2 * frames);
        && size <= outptr.Length
        && outptr[..size] == RenderedAll(settings, Stuffed(inptr, length, Place(rand, length), amountStuffed), 2 * frames)
    {
      hide Size, Width, Mean, RenderedAll, Stuffed, Place, Wrote, SameFrames, OutputSize;
      var tstuff := stuff;
      if stuff > 1 || stuff < -1 || length < 100 {
        tstuff := 0;
      }
      var stuffsamp: nat := length;
      if tstuff != 0 {
        stuffsamp := Place(rand, length);  // there is always a frame before and after
      }
      ghost var at := Place(rand, length);
      ghost var expected := Stuffed(inptr, length, at, tstuff);
      StuffedParts(inptr, length, at, tstuff);
      OutputFits(settings.format, length, tstuff, maxFrames, ratio);
      WroteNothing(outptr, expected);
      var p := ConvertFrames(inptr, 0, stuffsamp, outptr, 0, expected);
      if tstuff != 0 {
        var q := 2 * stuffsamp;
        if tstuff == 1 {
          p := Emit(Mean(inptr[q - 2], inptr[q]), outptr, p, expected);
          p := Emit(Mean(inptr[q - 1], inptr[q + 1]), outptr, p, expected);
        } else if stuff == -1 {
          q := q + 2;
        }
        var remainder := length;
        if tstuff < 0 {
          remainder := remainder + tstuff;
        }
        p := ConvertFrames(inptr, q, remainder - stuffsamp, outptr, p, expected);
      }
      WroteAll(outptr, p, expected);
      frames, amountStuffed := length + tstuff, tstuff;
    }

    lemma WroteNothing(outp: array<byte>, expected: Samples)
      requires settings.Valid() && done == 0 && |expected| <= |settings.noise| && previousRandomNumber == settings.first
      requires Size(settings.format) * |expected| <= outp.Length
      ensures Wrote(outp, 0, expected)
    {
    }

    lemma WroteAll(outp: array<byte>, p: nat, expected: Samples)
      requires Wrote(outp, p, expected) && done == |expected|
      ensures p == Size(settings.format) * |expected| <= outp.Length && settings.Valid()
        && |expected| <= |settings.noise|
      ensures outp[..p] == RenderedAll(settings, expected, |expected|)
    {
    }
  }

  lemma NextRendered(c: Settings, expected: Samples, k: nat, previous: int)
    requires c.Valid() && k < |expected| <= |c.noise| && (c.dither ==> previous == c.Before(k))
    ensures RenderedAll(c, expected, k + 1) ==
      RenderedAll(c, expected, k) + Converted(c, expected[k], c.noise[k], previous)
  {
    hide Converted;
    if !c.dither {
      PreviousUnused(c, expected[k], c.noise[k], previous, c.Before(k));
    }
  }
}

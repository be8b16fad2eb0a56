/** Mid/side decorrelation, the uncompressed low bytes of a sample, and the little-endian PCM output. */
module AlacInterlace {
  import opened Numbers

  // ---------- one stereo pair ----------

  /** The weighted share of the difference: an int32 product, shifted right arithmetically. */
  function Share(difference: int, shift: nat, weight: nat): int
  {
    Wrap32(difference * weight) / Pow2(shift)
  }

  /** What an encoder sends on the first channel: the right sample moved towards the left one. */
  function MidOf(left: int, right: int, shift: nat, weight: nat): int
  {
    right + Share(left - right, shift, weight)
  }

  /** Where the product fits int32, the first channel is a weighted mean of both, rounded down. */
  lemma MidIsWeightedMean(left: int, right: int, shift: nat, weight: nat)
    requires -0x8000_0000 <= (left - right) * weight < 0x8000_0000
    ensures var mid, unit: int := MidOf(left, right, shift, weight), Pow2(shift);
      mid * unit <= right * (unit - weight) + left * weight < (mid + 1) * unit
  {
    var x, unit := (left - right) * weight, Pow2(shift);
    Wrap32Fits(x);
    hide Wrap32, Pow2;
    var q := x / unit;
    assert q * unit <= x < q * unit + unit;
    assert (right + q) * unit == right * unit + q * unit && (right + q + 1) * unit == right * unit + q * unit + unit;
    Expanded(left, right, unit, weight);
  }

  lemma Expanded(left: int, right: int, unit: int, weight: int)
    ensures right * (unit - weight) + left * weight == right * unit + (left - right) * weight
  {
  }

  predicate LegalWeight(shift: nat, weight: nat)
  {
    shift <= 31 && 1 <= weight <= 255 && weight <= Pow2(shift)
  }

  lemma FloorShare(x: int, p: int, low: int, high: int)
    requires p >= 1 && low * p <= x <= high * p
    ensures low <= x / p <= high
  {
    var q := x / p;
    assert q * p <= x < (q + 1) * p by {
      assert x == q * p + x % p && (q + 1) * p == q * p + p;
    }
    AtMost(low, q, p);
    AtMost(q, high, p);
  }

  lemma AtMost(x: int, y: int, p: int)
    requires p >= 1 && x * p < (y + 1) * p
    ensures x <= y
  {
    var m := x - y - 1;
    assert m * p == x * p - (y + 1) * p;
    NonNegative(m, p);
  }

  lemma NonNegative(m: int, p: int)
    ensures m >= 0 && p >= 0 ==> m * p >= 0
  {
  }

  lemma Ordered(x: int, y: int, p: nat)
    requires x <= y
    ensures x * p <= y * p
  {
    assert (y - x) * p >= 0;
  }

  /** A product that does not wrap gives a share between zero and the difference. */
  lemma ExactShare(difference: int, shift: nat, weight: nat)
    requires LegalWeight(shift, weight) && Wrap32(difference * weight) == difference * weight
    ensures difference >= 0 ==> 0 <= Share(difference, shift, weight) <= difference
    ensures difference <= 0 ==> difference <= Share(difference, shift, weight) <= 0
  {
    hide Pow2, Wrap32;
    var x, p := difference * weight, Pow2(shift);
    if difference >= 0 {
      Ordered(weight, p, difference);
      FloorShare(x, p, 0, difference);
    } else {
      Ordered(weight, p, -difference);
      FloorShare(x, p, difference, 0);
    }
  }

  /** A product that wraps needs an eight-bit weight, hence a shift that keeps the share small. */
  lemma WrappedShare(difference: int, shift: nat, weight: nat)
    requires -0x100_0000 < difference < 0x100_0000 && LegalWeight(shift, weight)
    requires Wrap32(difference * weight) != difference * weight
    ensures -0x80_0000 <= Share(difference, shift, weight) <= 0x80_0000
  {
    Pow2Values();
    if shift <= 7 {
      Pow2Monotone(shift, 7);
      assert Pow2(7) == 128 by { assert Pow2(3) == 8 && Pow2(6) == 64; }
      SmallProduct(difference, weight);
    }
    Pow2Monotone(8, shift);
    Ordered(256, Pow2(shift), 0x80_0000);
    var x := Wrap32(difference * weight);
    hide Wrap32, Pow2;
    FloorShare(x, Pow2(shift), -0x80_0000, 0x80_0000);
  }

  lemma SmallProduct(difference: int, weight: nat)
    requires -0x100_0000 < difference < 0x100_0000 && weight <= 128
    ensures Wrap32(difference * weight) == difference * weight
  {
    Ordered(difference, 0xFF_FFFF, weight);
    Ordered(-0xFF_FFFF, difference, weight);
    Wrap32Fits(difference * weight);
  }

  /** The first channel of a pair of `size`-bit samples fits in one bit more. */
  lemma MidFits(left: int, right: int, size: nat, shift: nat, weight: nat)
    requires 1 <= size <= 24 && FitsSigned(left, size) && FitsSigned(right, size)
    requires LegalWeight(shift, weight)
    requires size < 24 ==> Wrap32((left - right) * weight) == (left - right) * weight
    ensures FitsSigned(MidOf(left, right, shift, weight), size + 1)
    ensures FitsSigned(left - right, size + 1)
  {
    Pow2Monotone(size - 1, 23);
    Pow2Values();
    assert Pow2(23) == 0x80_0000;
    assert Pow2(size) == 2 * Pow2(size - 1);
    if Wrap32((left - right) * weight) == (left - right) * weight {
      ExactShare(left - right, shift, weight);
    } else {
      WrappedShare(left - right, shift, weight);
    }
  }

  lemma NoWrapBelow24(difference: int, weight: nat)
    requires -0x2_0000 < difference < 0x2_0000 && weight <= 255
    ensures Wrap32(difference * weight) == difference * weight
  {
    Ordered(difference, 0x2_0000, weight);
    Ordered(-0x2_0000, difference, weight);
    Wrap32Fits(difference * weight);
  }

  /** The decoder's arithmetic for a 24-bit pair, in int32. */
  function RightOf(mid: int, difference: int, shift: nat, weight: nat): int
  {
    Wrap32(mid - Share(difference, shift, weight))
  }

  function LeftOf(right: int, difference: int): int
  {
    Wrap32(right + difference)
  }

  /** Weighted interlacing is undone exactly, even when the weighted product wrapped. */
  lemma PairRestored(left: int, right: int, shift: nat, weight: nat)
    requires FitsSigned(left, 32) && FitsSigned(right, 32)
    ensures var r := RightOf(MidOf(left, right, shift, weight), left - right, shift, weight);
      r == right && LeftOf(r, left - right) == left
  {
    Pow2Values();
    Wrap32Fits(left);
    Wrap32Fits(right);
  }

  /** The 16-bit decoder narrows both samples to int16, which loses nothing of 16-bit samples. */
  lemma PairRestored16(left: int, right: int, shift: nat, weight: nat)
    requires FitsSigned(left, 16) && FitsSigned(right, 16)
    ensures var r := Wrap16(MidOf(left, right, shift, weight) - Share(left - right, shift, weight));
      r == right && Wrap16(r + (left - right)) == left
  {
    hide Share;
    assert Pow2(15) == 0x8000 by { Pow2Values(); }
  }

  // ---------- low bytes that bypass the predictor ----------

  /** `1 << (count * 8)` for the byte counts the format uses. */
  function ByteScale(count: nat): (p: nat)
    requires count <= 2
    ensures p == Pow2(8 * count)
  {
    Pow2Values();
    if count == 0 then 1 else if count == 1 then 0x100 else 0x1_0000
  }

  function HighPart(v: int, count: nat): int
    requires count <= 2
  {
    v / ByteScale(count)
  }

  function LowPart(v: int, count: nat): (low: nat)
    requires count <= 2
    ensures low < ByteScale(count)
  {
    v % ByteScale(count)
  }

  /** 24-bit samples and their high parts. */
  ghost predicate HighParts(v: seq<int>, high: seq<int>, count: nat)
    requires count <= 2
  {
    |high| == |v| && forall i | 0 <= i < |v| :: FitsSigned(v[i], 24) && high[i] == HighPart(v[i], count)
  }

  ghost predicate LowParts(v: seq<int>, low: seq<int>, count: nat)
    requires count <= 2
  {
    |low| == |v| && forall i | 0 <= i < |v| :: low[i] == LowPart(v[i], count)
  }

  lemma HighFits32(v: int, count: nat)
    requires count <= 2 && FitsSigned(v, 24)
    ensures FitsSigned(HighPart(v, count), 32)
  {
    PartsRejoin(v, LowPart(v, count), count);
    Pow2Monotone(23 - 8 * count, 31);
  }

  /** Shift left, then or in the masked low bytes; the two do not overlap. */
  function Rejoined(high: int, low: int, count: nat): int
    requires count <= 2
  {
    if count == 0 then high else Wrap32(high * ByteScale(count)) + low % ByteScale(count)
  }

  lemma PartsRejoin(v: int, low: int, count: nat)
    requires count <= 2 && FitsSigned(v, 24)
    requires count > 0 ==> low == LowPart(v, count)
    ensures Rejoined(HighPart(v, count), low, count) == v
    ensures FitsSigned(HighPart(v, count), 24 - 8 * count)
  {
    HalfScales();
    hide Pow2;
    if count == 1 {
      assert v == v / 0x100 * 0x100 + v % 0x100;
      Wrap32Fits(v / 0x100 * 0x100);
    } else if count == 2 {
      assert v == v / 0x1_0000 * 0x1_0000 + v % 0x1_0000;
      Wrap32Fits(v / 0x1_0000 * 0x1_0000);
    }
  }

  lemma HalfScales()
    ensures Pow2(23) == 0x80_0000 && Pow2(15) == 0x8000 && Pow2(7) == 0x80
  {
    Pow2Values();
    assert Pow2(6) == 64 && Pow2(14) == 0x4000 && Pow2(22) == 0x40_0000;
  }

  // ---------- PCM output ----------

  /** The little-endian bytes of a sample. */
  function Bytes16(v: int): seq<byte>
  {
    [v % 256, v / 256 % 256]
  }

  function Bytes24(v: int): seq<byte>
  {
    [v % 256, v / 256 % 256, v / 0x1_0000 % 256]
  }

  /** The PCM output of the first `n` frames: one sample, or a left and a right one, per frame. */
  function Pcm16(left: seq<int>, right: seq<int>, stereo: bool, n: nat): (b: seq<byte>)
    requires n <= |left| && (stereo ==> n <= |right|)
    ensures |b| == if stereo then 4 * n else 2 * n
  {
    if n == 0 then []
    else
      Pcm16(left, right, stereo, n - 1) + Bytes16(left[n - 1]) + (if stereo then Bytes16(right[n - 1]) else [])
  }

  function Pcm24(left: seq<int>, right: seq<int>, stereo: bool, n: nat): (b: seq<byte>)
    requires n <= |left| && (stereo ==> n <= |right|)
    ensures |b| == if stereo then 6 * n else 3 * n
  {
    if n == 0 then []
    else
      Pcm24(left, right, stereo, n - 1) + Bytes24(left[n - 1]) + (if stereo then Bytes24(right[n - 1]) else [])
  }

  /** The number in two or three bytes, the lowest first. */
  function Join16(a: int, b: int): int
  {
    a + 256 * b
  }

  function Join24(a: int, b: int, c: int): int
  {
    a + 256 * b + 0x1_0000 * c
  }

  /** In 16-bit output the low byte of each sample comes first, and the left sample of a pair. */
  lemma {:induction false} Pcm16At(left: seq<int>, right: seq<int>, stereo: bool, n: nat, i: nat)
    requires i < n <= |left| && (stereo ==> n <= |right|)
    ensures var b := Pcm16(left, right, stereo, n);
      if stereo then
        && Join16(b[4 * i], b[4 * i + 1]) == left[i] % 0x1_0000
        && Join16(b[4 * i + 2], b[4 * i + 3]) == right[i] % 0x1_0000
      else Join16(b[2 * i], b[2 * i + 1]) == left[i] % 0x1_0000
    decreases n
  {
    Digits16(left[i]);
    if stereo {
      Digits16(right[i]);
    }
    hide Bytes16;
    if i < n - 1 {
      Pcm16At(left, right, stereo, n - 1, i);
    }
  }

  lemma Digits16(v: int)
    ensures var b := Bytes16(v); |b| == 2 && Join16(b[0], b[1]) == v % 0x1_0000
  {
    DivModUnique(v, v / 256 / 256, 0x1_0000, v / 256 % 256 * 256 + v % 256);
  }

  lemma Digits24(v: int)
    ensures var b := Bytes24(v); |b| == 3 && Join24(b[0], b[1], b[2]) == v % 0x100_0000
  {
    assert v / 0x1_0000 == v / 256 / 256;
    DivModUnique(v, v / 256 / 256 / 256, 0x100_0000, v / 256 / 256 % 256 * 0x1_0000 + v / 256 % 256 * 256 + v % 256);
  }

  /** And in 24-bit output, in three bytes each. */
  lemma {:induction false} Pcm24At(left: seq<int>, right: seq<int>, stereo: bool, n: nat, i: nat)
    requires i < n <= |left| && (stereo ==> n <= |right|)
    ensures var b := Pcm24(left, right, stereo, n);
      if stereo then
        && Join24(b[6 * i], b[6 * i + 1], b[6 * i + 2]) == left[i] % 0x100_0000
        && Join24(b[6 * i + 3], b[6 * i + 4], b[6 * i + 5]) == right[i] % 0x100_0000
      else Join24(b[3 * i], b[3 * i + 1], b[3 * i + 2]) == left[i] % 0x100_0000
    decreases n
  {
    Digits24(left[i]);
    if stereo {
      Digits24(right[i]);
    }
    hide Bytes24;
    if i < n - 1 {
      Pcm24At(left, right, stereo, n - 1, i);
    }
  }

  method WriteSample16(output: array<byte>, at: nat, sample: int)
    requires at + 2 <= output.Length
    modifies output
    ensures output[..at + 2] == old(output[..at]) + Bytes16(sample)
    ensures forall k | at + 2 <= k < output.Length :: output[k] == old(output[k])
  {
    output[at], output[at + 1] := sample % 256, sample / 256 % 256;
    assert output[..at + 2] == output[..at] + [output[at], output[at + 1]];
  }

  method WriteSample24(output: array<byte>, at: nat, sample: int)
    requires at + 3 <= output.Length
    modifies output
    ensures output[..at + 3] == old(output[..at]) + Bytes24(sample)
    ensures forall k | at + 3 <= k < output.Length :: output[k] == old(output[k])
  {
    output[at], output[at + 1], output[at + 2] := sample % 256, sample / 256 % 256, sample / 0x1_0000 % 256;
    assert output[..at + 3] == output[..at] + [output[at], output[at + 1], output[at + 2]];
  }

  /** The channels an encoder hands to the predictors for a stereo block. */
  ghost predicate Interlaced(a: seq<int>, b: seq<int>, left: seq<int>, right: seq<int>, shift: nat, weight: nat)
  {
    |a| == |b| == |left| == |right| && forall i | 0 <= i < |a| ::
      if weight == 0 then a[i] == left[i] && b[i] == right[i]
      else a[i] == MidOf(left[i], right[i], shift, weight) && b[i] == left[i] - right[i]
  }

  method Deinterlace16(a: array<int>, b: array<int>, output: array<byte>, count: nat, shift: nat, weight: nat,
                       ghost left: seq<int>, ghost right: seq<int>)
    requires count <= a.Length && count <= b.Length && 4 * count <= output.Length
    requires Interlaced(a[..count], b[..count], left, right, shift, weight)
    requires forall i | 0 <= i < count :: FitsSigned(left[i], 16) && FitsSigned(right[i], 16)
    modifies output
    ensures output[..4 * count] == Pcm16(left, right, true, count)
    ensures forall k | 4 * count <= k < output.Length :: output[k] == old(output[k])
  {
    for i := 0 to count
      invariant output[..4 * i] == Pcm16(left, right, true, i)
      invariant forall k | 4 * count <= k < output.Length :: output[k] == old(output[k])
    {
      assert a[..count][i] == a[i] && b[..count][i] == b[i];
      var l, r := RestorePair16(a[i], b[i], shift, weight, left[i], right[i]);
      WriteSample16(output, 4 * i, l);
      WriteSample16(output, 4 * i + 2, r);
    }
  }

  method RestorePair16(a: int, b: int, shift: nat, weight: nat, ghost left: int, ghost right: int)
    returns (l: int, r: int)
    requires FitsSigned(left, 16) && FitsSigned(right, 16)
    requires if weight == 0 then a == left && b == right
      else a == MidOf(left, right, shift, weight) && b == left - right
    ensures l == left && r == right
  {
    hide Share;
    if weight != 0 {
      PairRestored16(left, right, shift, weight);
      r := Wrap16(a - Share(b, shift, weight));
      l := Wrap16(r + b);
    } else {
      Wrap16Fits(left);
      Wrap16Fits(right);
      l, r := Wrap16(a), Wrap16(b);
    }
  }

  lemma Wrap16Fits(x: int)
    requires FitsSigned(x, 16)
    ensures Wrap16(x) == x
  {
    assert Pow2(15) == 0x8000 by { Pow2Values(); }
  }

  method Deinterlace24(a: array<int>, b: array<int>, uncompressedBytes: nat, lowA: array<int>, lowB: array<int>,
                       output: array<byte>, count: nat, shift: nat, weight: nat,
                       ghost left: seq<int>, ghost right: seq<int>,
                       ghost highLeft: seq<int>, ghost highRight: seq<int>)
    requires uncompressedBytes <= 2 && 6 * count <= output.Length
    requires count <= a.Length && count <= b.Length && count <= lowA.Length && count <= lowB.Length
    requires |left| == |right| == count
    requires Interlaced(a[..count], b[..count], highLeft, highRight, shift, weight)
    requires HighParts(left, highLeft, uncompressedBytes) && HighParts(right, highRight, uncompressedBytes)
    requires uncompressedBytes > 0 ==>
      LowParts(left, lowA[..count], uncompressedBytes) && LowParts(right, lowB[..count], uncompressedBytes)
    modifies output
    ensures output[..6 * count] == Pcm24(left, right, true, count)
    ensures forall k | 6 * count <= k < output.Length :: output[k] == old(output[k])
  {
    hide Rejoined, HighPart, LowPart, ByteScale, MidOf, FitsSigned;
    for i := 0 to count
      invariant output[..6 * i] == Pcm24(left, right, true, i)
      invariant forall k | 6 * count <= k < output.Length :: output[k] == old(output[k])
    {
      assert a[..count][i] == a[i] && b[..count][i] == b[i];
      assert lowA[..count][i] == lowA[i] && lowB[..count][i] == lowB[i];
      PartsRejoin(left[i], lowA[i], uncompressedBytes);
      PartsRejoin(right[i], lowB[i], uncompressedBytes);
      HighFits32(left[i], uncompressedBytes);
      HighFits32(right[i], uncompressedBytes);
      var l, r := RestorePair(a[i], b[i], shift, weight, highLeft[i], highRight[i]);
      l := Rejoined(l, lowA[i], uncompressedBytes);
      r := Rejoined(r, lowB[i], uncompressedBytes);
      WriteSample24(output, 6 * i, l);
      WriteSample24(output, 6 * i + 3, r);
    }
  }

  method RestorePair(a: int, b: int, shift: nat, weight: nat, ghost left: int, ghost right: int) returns (l: int, r: int)
    requires FitsSigned(left, 32) && FitsSigned(right, 32)
    requires if weight == 0 then a == left && b == right
      else a == MidOf(left, right, shift, weight) && b == left - right
    ensures l == left && r == right
  {
    if weight != 0 {
      PairRestored(left, right, shift, weight);
      r := RightOf(a, b, shift, weight);
      l := LeftOf(r, b);
    } else {
      l, r := a, b;
    }
  }
}

/**
 The bit cursor of the ALAC decoder: a byte pointer and an accumulator of bits already consumed
 from the byte it points at. Every read is specified on the flat bit string of the input.
 */
module AlacBitReader {
  import opened Numbers

  /** Three consecutive bytes as one big-endian number. */
  function Word24(input: seq<byte>, p: nat): nat
    requires p + 3 <= |input|
  {
    input[p] as int * 0x1_0000 + input[p + 1] as int * 0x100 + input[p + 2]
  }

  /** The 24 bits loaded at a byte offset, read as a number. */
  lemma LoadedWindow(input: seq<byte>, p: nat)
    requires p + 3 <= |input|
    ensures ToNat(Flat(input)[8 * p..8 * p + 24]) == Word24(input, p)
  {
    var s := Flat(input);
    var b0, b1, b2 := s[8 * p..8 * p + 8], s[8 * p + 8..8 * p + 16], s[8 * p + 16..8 * p + 24];
    LoadedByte(input, p);
    LoadedByte(input, p + 1);
    LoadedByte(input, p + 2);
    AppendByte(b0 + b1, b2);
    AppendByte(b0, b1);
    hide ToNat, Flat;
    assert s[8 * p..8 * p + 24] == b0 + b1 + b2;
  }

  lemma AppendByte(a: Bits, b: Bits)
    requires |b| == 8
    ensures ToNat(a + b) == ToNat(a) * 256 + ToNat(b)
  {
    ToNatAppend(a, b);
    Pow2Values();
  }

  lemma LoadedByte(input: seq<byte>, p: nat)
    requires p < |input|
    ensures ToNat(Flat(input)[8 * p..8 * p + 8]) == input[p]
  {
    FlatByte(input, p);
    Pow2Values();
    FieldValue(input[p], 8);
  }

  /** Shifting out the first `skip` bits and keeping the top `bits` bits isolates a slice. */
  lemma ShiftMaskShift(s: Bits, skip: nat, bits: nat)
    requires |s| == 24 && skip + bits <= 24
    ensures ToNat(s) * Pow2(skip) % Pow2(24) / Pow2(24 - bits) == ToNat(s[skip..skip + bits])
  {
    hide ToNat, Pow2;
    var a, m, c := s[..skip], s[skip..skip + bits], s[skip + bits..];
    assert s == a + (m + c);
    ToNatAppend(a, m + c);
    ToNatAppend(m, c);
    ToNatBound(m + c);
    ToNatBound(c);
    Pow2Add(24 - skip, skip);
    Pow2Add(|c|, skip);
    hide *;
    SliceOfNumber(ToNat(a), ToNat(m), ToNat(c), Pow2(skip), Pow2(|c|), Pow2(24 - skip), ToNat(s));
  }

  /** The arithmetic of `readbits_16` yields the next `bits` bits of the stream. */
  lemma WindowRead(input: seq<byte>, p: nat, skip: nat, bits: nat)
    requires p + 3 <= |input| && skip < 8 && bits <= 16
    ensures Word24(input, p) * Pow2(skip) % 0x100_0000 / Pow2(24 - bits)
         == NumberAt(Flat(input), 8 * p + skip, bits)
  {
    var s := Flat(input);
    var window := s[8 * p..8 * p + 24];
    LoadedWindow(input, p);
    ShiftMaskShift(window, skip, bits);
    Pow2Values();
    assert window[skip..skip + bits] == s[8 * p + skip..8 * p + skip + bits];
  }

  lemma SliceOfNumber(a: nat, m: nat, c: nat, p: nat, d: nat, e: nat, v: nat)
    requires p >= 1 && c < d && m * d + c < e && v == a * e + (m * d + c)
    ensures e * p > 0 && d * p > 0
    ensures v * p % (e * p) / (d * p) == m
  {
    var low := m * d + c;
    ShiftedOut(a, low, e, p);
    ShiftedOut(m, c, d, p);
    var ep, dp, lp, cp := e * p, d * p, low * p, c * p;
    DivModUnique(v * p, a, ep, lp);
    DivModUnique(lp, m, dp, cp);
  }

  lemma ShiftedOut(a: nat, low: nat, d: nat, p: nat)
    requires low < d && p >= 1
    ensures (a * d + low) * p == a * (d * p) + low * p
    ensures low * p < d * p
  {
    assert (d - low) * p >= 1;
  }

  lemma LastBit(s: Bits)
    requires |s| > 0
    ensures (ToNat(s) % 2 == 1) == s[|s| - 1]
  {
    DivModUnique(ToNat(s), ToNat(s[..|s| - 1]), 2, if s[|s| - 1] then 1 else 0);
  }

  /** Shifting `c`, which is below `d`, to the top of eight bits leaves `h` above them. */
  lemma AboveByte(h: nat, c: nat, d: nat, p: nat, v: nat)
    requires p >= 1 && c < d && d * p == 128 && v == h * d + c
    ensures v * p / 128 == h
  {
    ShiftedOut(h, c, d, p);
    DivModUnique(v * p, h, 128, c * p);
  }

  /** `readbit` isolates one bit of the byte under the pointer. */
  lemma BitOfByte(s: Bits, skip: nat)
    requires |s| == 8 && skip < 8
    ensures (ToNat(s) * Pow2(skip) / 128 % 2 == 1) == s[skip]
  {
    hide ToNat, Pow2;
    var h, c := s[..skip + 1], s[skip + 1..];
    assert s == h + c;
    ToNatAppend(h, c);
    ToNatBound(c);
    LastBit(h);
    Pow2Add(7 - skip, skip);
    Pow2Values();
    AboveByte(ToNat(h), ToNat(c), Pow2(7 - skip), Pow2(skip), ToNat(s));
  }

  lemma BitRead(input: seq<byte>, p: nat, skip: nat)
    requires p < |input| && skip < 8
    ensures (input[p] as int * Pow2(skip) / 128 % 2 == 1) == Flat(input)[8 * p + skip]
  {
    LoadedByte(input, p);
    BitOfByte(Flat(input)[8 * p..8 * p + 8], skip);
  }

  lemma NumberSplit(s: Bits, pos: nat, a: nat, b: nat)
    requires pos + a + b <= |s|
    ensures NumberAt(s, pos, a + b) == NumberAt(s, pos, a) * Pow2(b) + NumberAt(s, pos + a, b)
  {
    assert s[pos..pos + a + b] == s[pos..pos + a] + s[pos + a..pos + a + b];
    ToNatAppend(s[pos..pos + a], s[pos + a..pos + a + b]);
  }

  class BitReader {
    var input: seq<byte>
    var offset: nat       // the byte pointer, relative to the start of the frame
    var accumulator: nat  // bits of input[offset] that have been consumed

    constructor (inbuffer: seq<byte>)
      ensures Valid() && input == inbuffer && Position() == 0
    {
      input, offset, accumulator := inbuffer, 0, 0;
    }

    ghost predicate Valid()
      reads this
    {
      accumulator < 8
    }

    /** The number of bits consumed so far. */
    ghost function Position(): nat
      reads this
    {
      8 * offset + accumulator
    }

    ghost function Stream(): Bits
      reads this
    {
      Flat(input)
    }

    /** Three bytes can be loaded wherever the cursor stands up to bit `end`. */
    ghost predicate SlackAfter(end: nat)
      reads this
    {
      end + 24 <= 8 * |input|
    }

    /** `code` is what is left of the frame, which ends at bit `end`. */
    ghost predicate Facing(code: Bits, end: nat)
      reads this
    {
      Valid() && SlackAfter(end) && At(Stream(), Position(), code) && Position() + |code| == end
    }

    method ReadBits16(bits: nat) returns (result: nat)
      requires Valid() && bits <= 16 && SlackAfter(Position())
      modifies this
      ensures Valid() && input == old(input)
      ensures Position() == old(Position()) + bits <= |Stream()|
      ensures result == NumberAt(Stream(), old(Position()), bits)
    {
      WindowRead(input, offset, accumulator, bits);
      result := Word24(input, offset);
      result := result * Pow2(accumulator);
      result := result % 0x100_0000;
      result := result / Pow2(24 - bits);
      var newAccumulator := accumulator + bits;
      offset := offset + newAccumulator / 8;
      accumulator := newAccumulator % 8;
    }

    method ReadBits(bits: nat) returns (result: nat)
      requires Valid() && bits <= 32 && SlackAfter(Position() + if bits > 16 then 16 else 0)
      modifies this
      ensures Valid() && input == old(input)
      ensures Position() == old(Position()) + bits <= |Stream()|
      ensures result == NumberAt(Stream(), old(Position()), bits)
    {
      ghost var s, pos := Stream(), Position();
      var remaining := bits;
      result := 0;
      if remaining > 16 {
        remaining := remaining - 16;
        var high := ReadBits16(16);
        result := high * Pow2(remaining);
        NumberSplit(s, pos, 16, remaining);
      }
      // the two fields do not overlap, so their bitwise or is their sum
      var low := ReadBits16(remaining);
      result := result + low;
    }

    method ReadBit() returns (result: bool)
      requires Valid() && SlackAfter(Position())
      modifies this
      ensures Valid() && input == old(input)
      ensures Position() == old(Position()) + 1
      ensures result == Stream()[old(Position())]
    {
      BitRead(input, offset, accumulator);
      result := input[offset] as int * Pow2(accumulator) / 128 % 2 == 1;
      var newAccumulator := accumulator + 1;
      offset := offset + newAccumulator / 8;
      accumulator := newAccumulator % 8;
    }

    /** Steps back; the signed accumulator may go below zero, where `>> 3` and `& 7` round down. */
    method UnreadBits(bits: nat)
      requires Valid() && bits <= Position()
      modifies this
      ensures Valid() && input == old(input)
      ensures Position() == old(Position()) - bits
    {
      var newAccumulator: int := accumulator - bits;
      offset := offset + newAccumulator / 8;
      accumulator := newAccumulator % 8;
    }

    /** Reads a field whose value is known from the layout of the frame. */
    method ReadField(bits: nat, ghost v: nat, ghost rest: Bits, ghost end: nat) returns (result: nat)
      requires 1 <= bits <= 32 && v < Pow2(bits) && Facing(Field(v, bits) + rest, end)
      modifies this
      ensures input == old(input) && Facing(rest, end)
      ensures result == v
    {
      AtField(Stream(), Position(), v, bits, rest);
      FieldRead(Stream(), Position(), v, bits);
      hide At, Flat, NumberAt, Pow2;
      result := ReadBits(bits);
    }
  }
}

/** Fixed-width arithmetic of the C sources, and most-significant-bit-first bit strings. */
module Numbers {

  type byte = x: int | 0 <= x < 256

  function Pow2(n: nat): (p: nat)
    ensures p >= 1
  {
    if n == 0 then 1 else 2 * Pow2(n - 1)
  }

  lemma Pow2Add(a: nat, b: nat)
    ensures Pow2(a + b) == Pow2(a) * Pow2(b)
  {
    if a > 0 {
      Pow2Add(a - 1, b);
      assert Pow2(a + b) == 2 * (Pow2(a - 1) * Pow2(b));
    }
  }

  lemma Pow2Monotone(a: nat, b: nat)
    requires a <= b
    ensures Pow2(a) <= Pow2(b)
  {
    Pow2Add(a, b - a);
    MulAtLeast(Pow2(a), Pow2(b - a));
  }

  lemma MulAtLeast(x: nat, y: nat)
    requires y >= 1
    ensures x <= x * y
  {
    assert x * y == x + x * (y - 1);
  }

  lemma MulAssoc(x: int, y: int, z: int)
    ensures x * (y * z) == y * (x * z)
  {
  }

  lemma Pow2Values()
    ensures Pow2(1) == 2 && Pow2(3) == 8 && Pow2(4) == 16 && Pow2(7) == 128 && Pow2(8) == 256 && Pow2(16) == 65536
    ensures Pow2(24) == 0x100_0000 && Pow2(31) == 0x8000_0000 && Pow2(32) == 0x1_0000_0000
  {
    assert Pow2(2) == 4 && Pow2(4) == 16 && Pow2(6) == 64 && Pow2(8) == 256;
    Pow2Add(8, 8);
    Pow2Add(16, 8);
    Pow2Add(16, 16);
  }

  /** Quotient and remainder are determined by x == q * d + r with r in range. */
  lemma DivModUnique(x: int, q: int, d: int, r: int)
    requires d > 0 && 0 <= r < d && x == q * d + r
    ensures x / d == q && x % d == r
  {
    var q', r' := x / d, x % d;
    assert x == q' * d + r';
    assert (q - q') * d == r' - r by {
      assert (q - q') * d == q * d - q' * d;
    }
    if q > q' {
      MulAtLeast(d, q - q');
    } else if q < q' {
      MulAtLeast(d, q' - q);
    }
  }

  lemma SmallModulus(x: nat, d: nat)
    requires x < d
    ensures x % d == x
  {
    DivModUnique(x, 0, d, x);
  }

  /** The value C stores in an `int32_t` when a result is reduced modulo 2^32. */
  function Wrap32(x: int): int
  {
    (x + 0x8000_0000) % 0x1_0000_0000 - 0x8000_0000
  }

  lemma Wrap32Fits(x: int)
    requires -0x8000_0000 <= x < 0x8000_0000
    ensures Wrap32(x) == x
  {
  }

  lemma Wrap32Congruent(a: int, b: int, m: int)
    requires a - b == m * 0x1_0000_0000
    ensures Wrap32(a) == Wrap32(b)
  {
    var q, r := (b + 0x8000_0000) / 0x1_0000_0000, (b + 0x8000_0000) % 0x1_0000_0000;
    DivModUnique(a + 0x8000_0000, q + m, 0x1_0000_0000, r);
  }

  /** The value C stores in an `int16_t`. */
  function Wrap16(x: int): int
  {
    (x + 0x8000) % 0x1_0000 - 0x8000
  }

  /** `x` is representable as a two's-complement number of `bits` bits. */
  predicate FitsSigned(x: int, bits: nat)
    requires bits >= 1
  {
    var half: int := Pow2(bits - 1);
    -half <= x < half
  }

  /** Shifting left and back in 32 bits leaves the representative of `x` in the signed range. */
  lemma ShiftPair(x: int, h: int, p: int, r: int)
    requires h >= 1 && p >= 1 && h * p == 0x8000_0000
    requires r == (x + h) % (2 * h) && 0 <= r < 2 * h
    ensures Wrap32(x * p) / p == r - h
  {
    var k := (x + h) / (2 * h);
    assert x + h == k * (2 * h) + r;
    assert (x + h) * p == k * 0x1_0000_0000 + r * p by {
      Distribute(k, 2 * h, r, p);
      assert (2 * h) * p == 0x1_0000_0000;
    }
    assert 0 <= r * p < 0x1_0000_0000 by {
      assert (2 * h - r) * p >= 1;
      assert (2 * h - r) * p == (2 * h) * p - r * p;
    }
    assert x * p + 0x8000_0000 == (x + h) * p;
    DivModUnique(x * p + 0x8000_0000, k, 0x1_0000_0000, r * p);
    assert Wrap32(x * p) == (r - h) * p;
    DivModUnique((r - h) * p, r - h, p, 0);
  }

  lemma Distribute(a: int, b: int, c: int, p: int)
    ensures (a * b + c) * p == a * (b * p) + c * p
  {
  }

  // ---------- bit strings, most significant bit first ----------

  type Bits = seq<bool>

  function ToNat(s: Bits): (v: nat)
  {
    if |s| == 0 then 0 else 2 * ToNat(s[..|s| - 1]) + if s[|s| - 1] then 1 else 0
  }

  /** The number that stands in `width` bits at position `pos`. */
  function NumberAt(s: Bits, pos: nat, width: nat): nat
    requires pos + width <= |s|
  {
    ToNat(s[pos..pos + width])
  }

  /** The `width`-bit string of `v`, most significant bit first. */
  function Field(v: nat, width: nat): (s: Bits)
    ensures |s| == width
  {
    if width == 0 then [] else Field(v / 2, width - 1) + [v % 2 == 1]
  }

  lemma {:induction false} FieldValue(v: nat, width: nat)
    requires v < Pow2(width)
    ensures ToNat(Field(v, width)) == v
  {
    if width > 0 {
      FieldValue(v / 2, width - 1);
      var s := Field(v, width);
      assert s[..|s| - 1] == Field(v / 2, width - 1);
    }
  }

  lemma {:induction false} ToNatBound(s: Bits)
    ensures ToNat(s) < Pow2(|s|)
  {
    if |s| > 0 {
      ToNatBound(s[..|s| - 1]);
    }
  }

  lemma {:induction false} ToNatAppend(a: Bits, b: Bits)
    ensures ToNat(a + b) == ToNat(a) * Pow2(|b|) + ToNat(b)
  {
    if |b| == 0 {
      assert a + b == a;
    } else {
      var c, p := b[..|b| - 1], Pow2(|b| - 1);
      ToNatAppend(a, c);
      assert ToNat(a + b) == 2 * ToNat(a + c) + ToNat(b) - 2 * ToNat(c) by {
        assert (a + b)[..|a + b| - 1] == a + c;
      }
      MulAssoc(ToNat(a), 2, p);
    }
  }

  function Ones(n: nat): (s: Bits)
    ensures |s| == n
  {
    seq(n, i => true)
  }

  function Zeros(n: nat): (s: Bits)
    ensures |s| == n
  {
    seq(n, i => false)
  }

  lemma {:induction false} ZerosValue(n: nat)
    ensures ToNat(Zeros(n)) == 0
  {
    if n > 0 {
      ZerosValue(n - 1);
      assert Zeros(n)[..n - 1] == Zeros(n - 1);
    }
  }

  /** The bits of a byte string, each byte most significant bit first. */
  function Flat(bytes: seq<byte>): (s: Bits)
    ensures |s| == 8 * |bytes|
  {
    seq(8 * |bytes|, i requires 0 <= i < 8 * |bytes| => Field(bytes[i / 8], 8)[i % 8])
  }

  lemma FlatByte(bytes: seq<byte>, i: nat)
    requires i < |bytes|
    ensures Flat(bytes)[8 * i..8 * i + 8] == Field(bytes[i], 8)
  {
    var s := Flat(bytes)[8 * i..8 * i + 8];
    forall j | 0 <= j < 8
      ensures s[j] == Field(bytes[i], 8)[j]
    {
      assert (8 * i + j) / 8 == i && (8 * i + j) % 8 == j;
    }
  }

  /** `code` stands at position `pos` of the stream `s`. */
  ghost predicate At(s: Bits, pos: nat, code: Bits)
  {
    pos + |code| <= |s| && s[pos..pos + |code|] == code
  }

  lemma AtSplit(s: Bits, pos: nat, a: Bits, b: Bits)
    requires At(s, pos, a + b)
    ensures At(s, pos, a) && At(s, pos + |a|, b)
  {
    assert s[pos..pos + |a|] == s[pos..pos + |a + b|][..|a|] == a;
    assert s[pos + |a|..pos + |a| + |b|] == s[pos..pos + |a + b|][|a|..] == b;
  }

  /** A field at `pos` reads back as its value. */
  lemma FieldRead(s: Bits, pos: nat, v: nat, width: nat)
    requires v < Pow2(width)
    requires At(s, pos, Field(v, width))
    ensures NumberAt(s, pos, width) == v
  {
    FieldValue(v, width);
    hide ToNat, Pow2;
    assert s[pos..pos + width] == Field(v, width);
  }

  /** A field is followed by what was encoded after it. */
  lemma AtField(s: Bits, pos: nat, v: nat, width: nat, rest: Bits)
    requires v < Pow2(width)
    requires At(s, pos, Field(v, width) + rest)
    ensures At(s, pos, Field(v, width)) && At(s, pos + width, rest)
  {
    AtSplit(s, pos, Field(v, width), rest);
  }

  // ---------- packing bits into bytes ----------

  /** The shortest byte string that starts with `s`; the last byte is padded with zero bits. */
  function Pack(s: Bits): (bytes: seq<byte>)
    ensures |bytes| == (|s| + 7) / 8
  {
    if |s| == 0 then []
    else if |s| < 8 then ByteOfAtMost8(s)
    else
      ByteOfAtMost8(s[..8]) + Pack(s[8..])
  }

  function ByteOfAtMost8(s: Bits): (bytes: seq<byte>)
    requires |s| <= 8
    ensures |bytes| == 1
  {
    var padded := s + Zeros(8 - |s|);
    ToNatBound(padded);
    Pow2Values();
    [ToNat(padded)]
  }

  lemma Halved(x: nat, b: bool)
    ensures var v := 2 * x + if b then 1 else 0; v / 2 == x && (v % 2 == 1) == b
  {
  }

  lemma ToNatLast(init: Bits, b: bool)
    ensures ToNat(init + [b]) == 2 * ToNat(init) + if b then 1 else 0
  {
    assert (init + [b])[..|init|] == init;
  }

  lemma FieldLast(v: nat, width: nat)
    requires width > 0
    ensures Field(v, width) == Field(v / 2, width - 1) + [v % 2 == 1]
  {
  }

  lemma {:induction false} FieldOfToNat(s: Bits)
    ensures Field(ToNat(s), |s|) == s
  {
    hide ToNat, Field;
    if |s| > 0 {
      var init, b := s[..|s| - 1], s[|s| - 1];
      assert s == init + [b];
      ToNatLast(init, b);
      Halved(ToNat(init), b);
      FieldLast(ToNat(s), |s|);
      FieldOfToNat(init);
    } else {
      EmptyField(s);
    }
  }

  lemma EmptyField(s: Bits)
    requires |s| == 0
    ensures Field(ToNat(s), 0) == s
  {
  }

  lemma FlatAppend(a: seq<byte>, b: seq<byte>)
    ensures Flat(a + b) == Flat(a) + Flat(b)
  {
    var l, r := Flat(a + b), Flat(a) + Flat(b);
    forall i | 0 <= i < |l|
      ensures l[i] == r[i]
    {
      if i >= 8 * |a| {
        assert (i - 8 * |a|) / 8 == i / 8 - |a| && (i - 8 * |a|) % 8 == i % 8;
      }
    }
  }

  lemma FlatOfAtMost8(s: Bits)
    requires |s| <= 8
    ensures Flat(ByteOfAtMost8(s)) == s + Zeros(8 - |s|)
  {
    var padded := s + Zeros(8 - |s|);
    FieldOfToNat(padded);
    FlatByte(ByteOfAtMost8(s), 0);
    var f := Flat(ByteOfAtMost8(s));
    assert f == f[0..8];
  }

  /** Packing loses nothing: the packed bytes start with the packed bits. */
  lemma {:induction false} FlatPack(s: Bits)
    ensures At(Flat(Pack(s)), 0, s)
  {
    if |s| == 0 {
    } else if |s| < 8 {
      FlatOfAtMost8(s);
      assert (s + Zeros(8 - |s|))[0..|s|] == s;
    } else {
      FlatPack(s[8..]);
      FlatOfAtMost8(s[..8]);
      FlatAppend(ByteOfAtMost8(s[..8]), Pack(s[8..]));
      var f, g := Flat(Pack(s)), Flat(Pack(s[8..]));
      assert s[..8] + Zeros(0) == s[..8];
      assert f == s[..8] + g;
      assert g[0..|s| - 8] == s[8..];
      assert f[0..|s|] == s[..8] + g[0..|s| - 8] == s;
    }
  }
}

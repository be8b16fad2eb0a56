/**
 The adaptive Rice layer of the ALAC decoder. `EncodeResiduals` lays out the code an encoder
 produces; the decoding methods are proved to invert it and to stop right after it.
 */
module AlacRice {
  import opened Numbers
  import opened AlacBitReader

  const RICE_THRESHOLD: nat := 8
  const HISTORY_LIMIT: nat := 512 * 0xFFFF
  const INT32_MAX: nat := 0x7FFF_FFFF

  // ---------- leading zeros and the code parameter k ----------

  function FloorLog2(x: nat): (l: nat)
    requires x >= 1
    ensures Pow2(l) <= x < Pow2(l + 1)
  {
    if x == 1 then 0 else 1 + FloorLog2(x / 2)
  }

  /** `__builtin_clz` on 32 bits, undefined on zero. */
  function CountLeadingZeros(x: nat): int
    requires 1 <= x <= INT32_MAX
  {
    31 - FloorLog2(x)
  }

  lemma LogBetween(x: nat, low: nat, high: nat)
    requires Pow2(low) <= x < Pow2(high)
    ensures x >= 1 && low <= FloorLog2(x) < high
  {
    var l := FloorLog2(x);
    if l < low { Pow2Monotone(l + 1, low); }
    if l >= high { Pow2Monotone(high, l); }
  }

  /** The parameter for a sample, from the history (the C code's two-branch form). */
  function SampleK(history: int, kModifier: nat): int
    requires 0 <= history <= HISTORY_LIMIT
  {
    var k := 31 - kModifier - CountLeadingZeros(history / 512 + 3);
    if k < 0 then k + kModifier else kModifier
  }

  /** The parameter for the length of a run of zeros. */
  function RunK(history: int): int
    requires 1 <= history < 128
  {
    CountLeadingZeros(history) + (history + 16) / 64 - 24
  }

  lemma SampleKRange(history: int, kModifier: nat)
    requires 0 <= history <= HISTORY_LIMIT && kModifier >= 1
    ensures 1 <= SampleK(history, kModifier) <= 16
    ensures SampleK(history, kModifier) <= kModifier
  {
    Pow2Values();
    LogBetween(history / 512 + 3, 1, 17);
  }

  /** It is the greatest number, up to the modifier, whose power of two is not above a 512th of the history and 3. */
  lemma SampleKIs(history: int, kModifier: nat, k: nat)
    requires 0 <= history <= HISTORY_LIMIT && kModifier >= 1
    ensures SampleK(history, kModifier) == k <==>
      && k <= kModifier && Pow2(k) <= history / 512 + 3
      && forall j: nat | k < j <= kModifier :: Pow2(j) > history / 512 + 3
  {
    hide FloorLog2, Pow2;
    SampleKRange(history, kModifier);
    var x, l := history / 512 + 3, FloorLog2(history / 512 + 3);
    Pow2Values();
    Pow2Add(16, 1);
    LogBetween(x, 1, 17);
    var m: nat := SampleK(history, kModifier);
    assert m == if l < kModifier then l else kModifier;
    Pow2Monotone(m, l);
    forall j: nat | m < j <= kModifier
      ensures Pow2(j) > x
    {
      Pow2Monotone(l + 1, j);
    }
    if k <= kModifier && Pow2(k) <= x && k < m {
      assert Pow2(m) <= x;
    }
  }

  /** The parameter for a run of zeros by the thresholds of the history. */
  lemma RunKIs(history: int)
    requires 1 <= history < 128
    ensures RunK(history) ==
      if history < 2 then 7 else if history < 4 then 6 else if history < 8 then 5 else if history < 16 then 4
      else if history < 32 then 3 else if history < 48 then 2 else if history < 64 then 3 else if history < 112 then 2
      else 3
  {
    hide FloorLog2;
    assert Pow2(0) == 1 && Pow2(1) == 2 && Pow2(2) == 4 && Pow2(3) == 8 && Pow2(4) == 16 && Pow2(5) == 32;
    assert Pow2(6) == 64 && Pow2(7) == 128;
    hide Pow2;
    var l := if history < 2 then 0 else if history < 4 then 1 else if history < 8 then 2 else if history < 16 then 3
      else if history < 32 then 4 else if history < 64 then 5 else 6;
    LogBetween(history, l, l + 1);
  }

  lemma RunKRange(history: int)
    requires 1 <= history < 128
    ensures 2 <= RunK(history) <= 7
  {
    hide RunK;
    RunKIs(history);
  }

  // ---------- the adaptive history ----------

  /** One update of the history after a decoded value, in int32 arithmetic. */
  function NextHistory(history: int, decoded: int, mult: int): int
  {
    if decoded > 0xFFFF then 0xFFFF
    else Wrap32(history + Wrap32(Wrap32(decoded * mult) - Wrap32(history * mult) / 512))
  }

  /** The legal states between two samples: a zero history always carries the sign modifier. */
  predicate HistoryState(history: int, signModifier: int)
  {
    0 <= history <= HISTORY_LIMIT && 0 <= signModifier <= 1 && (history == 0 ==> signModifier == 1)
  }

  lemma HistoryProduct(history: int, mult: int)
    requires 0 <= history <= HISTORY_LIMIT && 0 <= mult <= 64
    ensures 0 <= history * mult <= HISTORY_LIMIT * 64 <= INT32_MAX
  {
    NonNegativeProduct(history, mult);
    NonNegativeProduct(HISTORY_LIMIT - history, mult);
  }

  /** A multiplier is safe for every history in range exactly when it is at most 64. */
  lemma SafeMultiplier(mult: nat)
    ensures (forall history: nat | history <= HISTORY_LIMIT :: history * mult <= INT32_MAX) <==> mult <= 64
  {
    if mult <= 64 {
      forall history: nat | history <= HISTORY_LIMIT
        ensures history * mult <= INT32_MAX
      {
        HistoryProduct(history, mult);
      }
    } else {
      assert HISTORY_LIMIT * mult >= HISTORY_LIMIT * 65 > INT32_MAX;
    }
  }

  /** The update in exact arithmetic. */
  function ExactHistory(history: int, decoded: int, mult: int): int
  {
    if decoded > 0xFFFF then 0xFFFF else history + decoded * mult - history * mult / 512
  }

  /** For every multiplier below 512 the exact leaky sum keeps the history positive and below 512 * 0xFFFF. */
  lemma LeakySumBound(history: nat, decoded: nat, mult: nat)
    requires history <= HISTORY_LIMIT && decoded <= 0xFFFF && 1 <= mult <= 511 && (history == 0 ==> decoded >= 1)
    ensures 1 <= history + decoded * mult - history * mult / 512 <= HISTORY_LIMIT
  {
    var product, gain := history * mult, decoded * mult;
    NonNegativeProduct(history, 511 - mult);
    NonNegativeProduct(HISTORY_LIMIT - history, 512 - mult);
    NonNegativeProduct(0xFFFF - decoded, mult);
    NonNegativeProduct(decoded, mult);
    assert product <= 511 * history && gain <= 0xFFFF * mult;
    assert product >= 512 * (history + 0xFFFF * mult - HISTORY_LIMIT);
    if history == 0 {
      MulAtLeast(mult, decoded);
    }
  }

  lemma NonNegativeProduct(x: nat, y: nat)
    ensures x * y >= 0
  {
  }

  /** If the product of history and multiplier fits int32, the update is the exact one, positive and bounded. */
  lemma HistoryStep(history: int, decoded: nat, mult: int)
    requires 0 <= history <= HISTORY_LIMIT && 1 <= mult <= 511 && (history == 0 ==> decoded >= 1)
    requires decoded <= 0xFFFF ==> history * mult <= INT32_MAX
    ensures NextHistory(history, decoded, mult) == ExactHistory(history, decoded, mult)
    ensures 1 <= NextHistory(history, decoded, mult) <= HISTORY_LIMIT
  {
    if decoded <= 0xFFFF {
      var product, gain := history * mult, decoded * mult;
      NonNegativeProduct(history, mult);
      NonNegativeProduct(decoded, mult);
      NonNegativeProduct(0xFFFF - decoded, mult);
      LeakySumBound(history, decoded, mult);
      assert gain <= 0xFFFF * 511;
      Wrap32Fits(gain);
      Wrap32Fits(product);
      Wrap32Fits(gain - product / 512);
      Wrap32Fits(history + (gain - product / 512));
    }
  }

  /** The update in numbers: the history loses a 512th of its product with the multiplier and gains that of the value. */
  lemma NextHistoryIs(history: int, decoded: nat, mult: int)
    requires 0 <= history <= HISTORY_LIMIT && 1 <= mult <= 511 && (history == 0 ==> decoded >= 1)
    requires decoded <= 0xFFFF ==> history * mult <= INT32_MAX
    ensures NextHistory(history, decoded, mult) ==
      if decoded <= 0xFFFF then history + decoded * mult - history * mult / 512 else 0xFFFF
  {
    HistoryStep(history, decoded, mult);
  }

  // ---------- the history of a whole stream ----------

  /** A history and the next, after a decoded value and perhaps a run of zeros. */
  predicate HistoryGoesOn(signModifier: int, next: int, after: int)
  {
    (after == next && signModifier == 0) || (next < 128 && after == 0 && signModifier == 1)
  }

  /** The history in exact arithmetic through a run of decoded values, each followed or not by a run of zeros. */
  ghost predicate ExactTrace(h: seq<int>, s: seq<int>, d: seq<nat>, mult: int)
  {
    && |h| == |s| == |d| + 1 && HistoryState(h[0], s[0])
    && forall i | 0 <= i < |d| ::
      s[i] <= d[i] && HistoryGoesOn(s[i + 1], ExactHistory(h[i], d[i], mult), h[i + 1])
  }

  /** On every stream the exact history stays in range and no leading-zero count is taken of zero. */
  lemma {:induction false} HistoryAlwaysInRange(h: seq<int>, s: seq<int>, d: seq<nat>, mult: int, i: nat)
    requires 1 <= mult <= 511 && ExactTrace(h, s, d, mult) && i < |h|
    ensures HistoryState(h[i], s[i])
    ensures i < |d| ==> 1 <= ExactHistory(h[i], d[i], mult) <= HISTORY_LIMIT
  {
    if i > 0 {
      HistoryAlwaysInRange(h, s, d, mult, i - 1);
      assert s[i - 1] <= d[i - 1];
    }
    if i < |d| && d[i] <= 0xFFFF {
      assert s[i] <= d[i];
      LeakySumBound(h[i], d[i], mult);
    }
  }

  // ---------- the encoder ----------

  /** The multiplier of the unary prefix: two low masks of k and of maskBits bits, and-ed. */
  function PrefixUnit(k: nat, maskBits: nat): (m: nat)
    requires k >= 1 && maskBits >= 1
    ensures 1 <= m < Pow2(k)
    ensures k == 1 ==> m == 1
  {
    var bits := if k <= maskBits then k else maskBits;
    Pow2Monotone(1, bits);
    Pow2Monotone(bits, k);
    Pow2(bits) - 1
  }

  /** Bit by bit it is the mask of k bits and-ed with the mask of maskBits bits. */
  lemma PrefixUnitBits(k: nat, maskBits: nat, i: nat)
    requires k >= 1 && maskBits >= 1
    ensures PrefixUnit(k, maskBits) / Pow2(i) % 2 == 1 <==> i < k && i < maskBits
    ensures PrefixUnit(k, maskBits) == if k <= maskBits then Pow2(k) - 1 else Pow2(maskBits) - 1
  {
    MaskBit(if k <= maskBits then k else maskBits, i);
  }

  lemma MaskBit(bits: nat, i: nat)
    ensures (Pow2(bits) - 1) / Pow2(i) % 2 == 1 <==> i < bits
  {
    hide Pow2;
    if i < bits {
      Pow2Add(bits - i, i);
      Pow2Add(1, bits - i - 1);
      Pow2Values();
      OddQuotient(Pow2(bits - i - 1), Pow2(i));
    } else {
      Pow2Monotone(bits, i);
      DivModUnique(Pow2(bits) - 1, 0, Pow2(i), Pow2(bits) - 1);
    }
  }

  lemma OddQuotient(r: nat, p: nat)
    requires p >= 1 && r >= 1
    ensures (2 * r * p - 1) / p % 2 == 1
  {
    assert (2 * r - 1) * p == 2 * r * p - p;
    DivModUnique(2 * r * p - 1, 2 * r - 1, p, p - 1);
    DivModUnique(2 * r - 1, r - 1, 2, 1);
  }

  /** The part of a value that a unary prefix of `x` ones stands for. */
  function PrefixValue(x: nat, m: nat): nat
  {
    x * m
  }

  function Quotient(v: nat, m: nat): (q: nat)
    requires m >= 1
  {
    v / m
  }

  function Modulus(v: nat, m: nat): (r: nat)
    requires m >= 1
    ensures r < m && v == PrefixValue(Quotient(v, m), m) + r
    ensures m == 1 ==> r == 0 && Quotient(v, m) == v
  {
    v % m
  }

  /** The code of one value: unary quotient and k-bit remainder, or nine ones and the raw value. */
  function RiceCode(v: nat, size: nat, k: nat, maskBits: nat): (code: Bits)
    requires k >= 1 && maskBits >= 1
    ensures |code| >= 1
  {
    var q := Quotient(v, PrefixUnit(k, maskBits));
    if q > RICE_THRESHOLD then Ones(RICE_THRESHOLD + 1) + Field(v, size)
    else Ones(q) + [false] + Remainder(Modulus(v, PrefixUnit(k, maskBits)), k)
  }

  /** A zero remainder takes k - 1 bits; a remainder r >= 1 takes the k bits of r + 1. */
  function Remainder(r: nat, k: nat): Bits
    requires k >= 1
  {
    if k == 1 then [] else if r == 0 then Zeros(k - 1) else Field(r + 1, k)
  }

  /**
   The code in full, with the unit 2^k - 1 of the prefix, or 2^maskBits - 1 if that is less. Up to eight
   units are sent as ones, and what is left behind a zero; from nine on nine ones and the value itself.
   */
  lemma RiceCodeIs(v: nat, size: nat, k: nat, maskBits: nat) returns (q: nat, r: nat)
    requires k >= 1 && maskBits >= 1
    ensures var unit := Pow2(if k <= maskBits then k else maskBits) - 1;
      unit >= 1 && v == q * unit + r && r < unit
    ensures q >= 9 ==>
      RiceCode(v, size, k, maskBits) == [true, true, true, true, true, true, true, true, true] + Field(v, size)
    ensures q <= 8 ==>
      RiceCode(v, size, k, maskBits) ==
        seq(q, _ => true) + [false] + if k == 1 then [] else if r == 0 then seq(k - 1, _ => false) else Field(r + 1, k)
  {
    var unit := PrefixUnit(k, maskBits);
    q, r := Quotient(v, unit), Modulus(v, unit);
  }

  /** The non-negative code of a signed residual: the sign is in the low bit. */
  function Folded(e: int): nat
  {
    if e >= 0 then 2 * e else -2 * e - 1
  }

  lemma FoldedFits(e: int, size: nat)
    requires size >= 1 && FitsSigned(e, size)
    ensures Folded(e) < Pow2(size)
  {
  }

  /** The number of zeros that start at index `i`. */
  function ZeroRun(r: seq<int>, i: nat): (n: nat)
    requires i <= |r|
    ensures i + n <= |r|
    ensures forall j | i <= j < i + n :: r[j] == 0
    ensures i + n < |r| ==> r[i + n] != 0
    decreases |r| - i
  {
    if i < |r| && r[i] == 0 then 1 + ZeroRun(r, i + 1) else 0
  }

  datatype RiceParameters = RiceParameters(size: nat, kModifier: nat, mult: int) {
    /** What the decoder's int32 arithmetic needs of the stream's constants; samples have at most 25 bits. */
    predicate Valid() {
      1 <= size <= 30 && 1 <= kModifier <= 30 && 1 <= mult <= 511
    }
  }

  /** Residuals a stream can carry at all. */
  predicate InRange(r: seq<int>, p: RiceParameters)
  {
    p.Valid() && |r| <= 0x1_0000 && forall i | 0 <= i < |r| :: FitsSigned(r[i], p.size)
  }

  /** From residual `i` on no product overflows that the decoder uses. */
  predicate Calm(r: seq<int>, i: nat, p: RiceParameters, history: int)
    requires i <= |r|
    decreases |r| - i
  {
    i < |r| ==>
      && (Folded(r[i]) <= 0xFFFF ==> history * p.mult <= INT32_MAX)
      && var h := NextHistory(history, Folded(r[i]), p.mult);
      if h < 128 && i + 1 < |r| then Calm(r, i + 1 + ZeroRun(r, i + 1), p, 0) else Calm(r, i + 1, p, h)
  }

  /** The residuals from index `i` on can be sent in the given state. */
  predicate Encodable(r: seq<int>, i: nat, p: RiceParameters, history: int, signModifier: int)
  {
    && InRange(r, p)
    && i <= |r|
    && HistoryState(history, signModifier)
    && (signModifier == 1 && i < |r| ==> r[i] != 0)
    && Calm(r, i, p, history)
  }

  /** Up to 64 every stream is calm. */
  lemma {:induction false} LowMultiplierCalm(r: seq<int>, i: nat, p: RiceParameters, history: int, signModifier: int)
    requires InRange(r, p) && p.mult <= 64 && i <= |r| && HistoryState(history, signModifier)
    requires signModifier == 1 && i < |r| ==> r[i] != 0
    ensures Calm(r, i, p, history)
    decreases |r| - i
  {
    hide NextHistory;
    if i < |r| {
      HistoryProduct(history, p.mult);
      HistoryStep(history, Folded(r[i]), p.mult);
      var h := NextHistory(history, Folded(r[i]), p.mult);
      if h < 128 && i + 1 < |r| {
        LowMultiplierCalm(r, i + 1 + ZeroRun(r, i + 1), p, 0, 1);
      } else {
        LowMultiplierCalm(r, i + 1, p, h, 0);
      }
    }
  }

  /** The histories when the largest value is decoded again and again. */
  function Loudest(history: int, mult: int, n: nat): (h: int)
    decreases n
  {
    if n == 0 then history else Loudest(NextHistory(history, 0xFFFF, mult), mult, n - 1)
  }

  /** Above 64 the history grows by 65472 at least each time, until the product overflows. */
  lemma {:induction false} LoudestOverflows(history: int, mult: int) returns (n: nat)
    requires 1 <= history <= HISTORY_LIMIT && 65 <= mult <= 511
    ensures 65472 * n <= HISTORY_LIMIT - history
    ensures Loudest(history, mult, n) * mult > INT32_MAX
    decreases HISTORY_LIMIT - history
  {
    if history * mult > INT32_MAX {
      n := 0;
    } else {
      HistoryStep(history, 0xFFFF, mult);
      var product := history * mult;
      NonNegativeProduct(history, mult);
      var next := NextHistory(history, 0xFFFF, mult);
      assert next == history + 0xFFFF * mult - product / 512 >= history + 65472;
      n := LoudestOverflows(next, mult);
      n := n + 1;
    }
  }

  const LOUD: int := -0x8000  // its code is 0xFFFF

  lemma {:induction false} LoudIsCalm(r: seq<int>, i: nat, p: RiceParameters, history: int, n: nat)
    requires 65 <= p.mult <= 511 && 1 <= history <= HISTORY_LIMIT
    requires i + n < |r| && (forall j | 0 <= j < |r| :: r[j] == LOUD) && Calm(r, i, p, history)
    ensures Loudest(history, p.mult, n) * p.mult <= INT32_MAX
    decreases n
  {
    if n > 0 {
      HistoryStep(history, 0xFFFF, p.mult);
      NonNegativeProduct(history, p.mult);
      LoudIsCalm(r, i + 1, p, NextHistory(history, 0xFFFF, p.mult), n - 1);
    }
  }

  /** For samples of 16 bits or more: every stream is calm if and only if the multiplier is at most 64. */
  lemma SafeForAllStreams(p: RiceParameters, initialHistory: int)
    requires p.Valid() && p.size >= 16 && 1 <= initialHistory <= 255
    ensures p.mult <= 64 <==> forall r: seq<int> | InRange(r, p) :: Calm(r, 0, p, initialHistory)
  {
    if p.mult <= 64 {
      forall r: seq<int> | InRange(r, p)
        ensures Calm(r, 0, p, initialHistory)
      {
        LowMultiplierCalm(r, 0, p, initialHistory, 0);
      }
    } else {
      var n := LoudestOverflows(initialHistory, p.mult);
      var r := seq(n + 1, _ => LOUD);
      Pow2Values();
      Pow2Monotone(15, p.size - 1);
      assert InRange(r, p);
      if Calm(r, 0, p, initialHistory) {
        LoudIsCalm(r, 0, p, initialHistory, n);
      }
    }
  }

  /** What the state of the encoder guarantees before residual `i`. */
  lemma SampleState(r: seq<int>, i: nat, p: RiceParameters, history: int, signModifier: int)
    requires Encodable(r, i, p, history, signModifier) && i < |r|
    ensures p.Valid() && HistoryState(history, signModifier)
    ensures 0 <= signModifier <= Folded(r[i]) < Pow2(p.size)
    ensures 1 <= SampleK(history, p.kModifier) <= 16
    ensures var h := NextHistory(history, Folded(r[i]), p.mult);
      1 <= h <= HISTORY_LIMIT && (h < 128 ==> 2 <= RunK(h) <= 7)
  {
    hide Pow2, SampleK, NextHistory, RunK;
    SampleKRange(history, p.kModifier);
    HistoryStep(history, Folded(r[i]), p.mult);
    FoldedFits(r[i], p.size);
    var h := NextHistory(history, Folded(r[i]), p.mult);
    if h < 128 {
      RunKRange(h);
    }
  }

  /** The state behind residual `i` and the zeros that may follow it. */
  lemma NextState(r: seq<int>, i: nat, p: RiceParameters, history: int, signModifier: int)
    requires Encodable(r, i, p, history, signModifier) && i < |r|
    ensures var h := NextHistory(history, Folded(r[i]), p.mult);
      if h < 128 && i + 1 < |r| then Encodable(r, i + 1 + ZeroRun(r, i + 1), p, 0, 1) else Encodable(r, i + 1, p, h, 0)
  {
    hide Pow2, NextHistory;
    SampleState(r, i, p, history, signModifier);
  }

  /** What an encoder sends for residual `i`: its code, the length of a run of zeros, the new state. */
  datatype Sent = Sent(sample: Bits, run: Bits, next: nat, history: int, signModifier: int)

  function SendNext(r: seq<int>, i: nat, p: RiceParameters, history: int, signModifier: int): (sent: Sent)
    requires Encodable(r, i, p, history, signModifier) && i < |r|
    ensures i < sent.next && Encodable(r, sent.next, p, sent.history, sent.signModifier)
  {
    SampleState(r, i, p, history, signModifier);
    NextState(r, i, p, history, signModifier);
    var sample := RiceCode(Folded(r[i]) - signModifier, p.size, SampleK(history, p.kModifier), 32);
    var h := NextHistory(history, Folded(r[i]), p.mult);
    if h < 128 && i + 1 < |r| then
      var z := ZeroRun(r, i + 1);
      Sent(sample, RiceCode(z, 16, RunK(h), p.kModifier), i + 1 + z, 0, 1)
    else
      Sent(sample, [], i + 1, h, 0)
  }

  /** From one residual to the next the history goes on as in exact arithmetic. */
  lemma SentGoesOn(r: seq<int>, i: nat, p: RiceParameters, history: int, signModifier: int)
    requires Encodable(r, i, p, history, signModifier) && i < |r|
    ensures var sent := SendNext(r, i, p, history, signModifier);
      && signModifier <= Folded(r[i])
      && HistoryGoesOn(sent.signModifier, ExactHistory(history, Folded(r[i]), p.mult), sent.history)
  {
    hide NextHistory, SampleK, RunK, Pow2, RiceCode;
    SampleState(r, i, p, history, signModifier);
    HistoryStep(history, Folded(r[i]), p.mult);
  }

  /** The code of the residuals from index `i` on. */
  function EncodeResiduals(r: seq<int>, i: nat, p: RiceParameters, history: int, signModifier: int): Bits
    requires Encodable(r, i, p, history, signModifier)
    decreases |r| - i
  {
    if i == |r| then []
    else
      var sent := SendNext(r, i, p, history, signModifier);
      sent.sample + (sent.run + EncodeResiduals(r, sent.next, p, sent.history, sent.signModifier))
  }

  // ---------- the decoder ----------

  lemma AtIndex(s: Bits, pos: nat, code: Bits, i: nat)
    requires At(s, pos, code) && i < |code|
    ensures s[pos + i] == code[i]
  {
    assert s[pos..pos + |code|][i] == code[i];
  }

  /** The k bits read for a remainder: at most 1 stands for no remainder, otherwise it is r + 1. */
  lemma RemainderRead(s: Bits, pos: nat, r: nat, k: nat)
    requires k >= 2 && r + 1 < Pow2(k) && At(s, pos, Remainder(r, k)) && pos + k <= |s|
    ensures r == 0 ==> NumberAt(s, pos, k) <= 1
    ensures r > 0 ==> NumberAt(s, pos, k) == r + 1
  {
    var bits := s[pos..pos + k];
    if r == 0 {
      assert bits[..k - 1] == Zeros(k - 1);
      ZerosValue(k - 1);
    } else {
      FieldValue(r + 1, k);
    }
  }

  lemma AtBound(s: Bits, pos: nat, code: Bits)
    requires At(s, pos, code)
    ensures pos + |code| <= |s|
  {
  }

  /** Where the parts of one code stand. */
  lemma RiceCodeAt(s: Bits, pos: nat, v: nat, size: nat, k: nat, maskBits: nat)
    requires k >= 1 && maskBits >= 1
    requires At(s, pos, RiceCode(v, size, k, maskBits))
    ensures var m, length := PrefixUnit(k, maskBits), |RiceCode(v, size, k, maskBits)|;
      var q := Quotient(v, m);
      && pos + length <= |s|
      && (forall j | pos <= j < pos + q && j <= pos + RICE_THRESHOLD :: s[j])
      && if q > RICE_THRESHOLD then
           length == RICE_THRESHOLD + 1 + size && At(s, pos + RICE_THRESHOLD + 1, Field(v, size))
         else
           length == q + 1 + |Remainder(Modulus(v, m), k)| && !s[pos + q]
           && At(s, pos + q + 1, Remainder(Modulus(v, m), k))
  {
    hide PrefixUnit, Quotient, Modulus, Remainder, Field, At, Ones;
    var m := PrefixUnit(k, maskBits);
    var q, r := Quotient(v, m), Modulus(v, m);
    if q > RICE_THRESHOLD {
      EscapeAt(s, pos, Field(v, size));
    } else {
      ShortAt(s, pos, q, Remainder(r, k));
    }
  }

  lemma EscapeAt(s: Bits, pos: nat, raw: Bits)
    requires At(s, pos, Ones(RICE_THRESHOLD + 1) + raw)
    ensures |Ones(RICE_THRESHOLD + 1) + raw| == RICE_THRESHOLD + 1 + |raw| && pos + RICE_THRESHOLD + 1 + |raw| <= |s|
    ensures forall j | pos <= j <= pos + RICE_THRESHOLD :: s[j]
    ensures At(s, pos + RICE_THRESHOLD + 1, raw)
  {
    hide At, Ones;
    AtBound(s, pos, Ones(RICE_THRESHOLD + 1) + raw);
    AtSplit(s, pos, Ones(RICE_THRESHOLD + 1), raw);
    assert Ones(RICE_THRESHOLD + 1) + [] == Ones(RICE_THRESHOLD + 1);
    PrefixAt(s, pos, RICE_THRESHOLD + 1, []);
  }

  lemma ShortAt(s: Bits, pos: nat, q: nat, rest: Bits)
    requires At(s, pos, Ones(q) + [false] + rest)
    ensures |Ones(q) + [false] + rest| == q + 1 + |rest| && pos + q + 1 + |rest| <= |s|
    ensures (forall j | pos <= j < pos + q :: s[j]) && !s[pos + q]
    ensures At(s, pos + q + 1, rest)
  {
    hide At, Ones;
    AtBound(s, pos, Ones(q) + [false] + rest);
    AtSplit(s, pos, Ones(q) + [false], rest);
    PrefixAt(s, pos, q, [false]);
  }

  lemma PrefixAt(s: Bits, pos: nat, n: nat, stop: Bits)
    requires At(s, pos, Ones(n) + stop)
    ensures forall j | pos <= j < pos + n :: s[j]
    ensures stop == [false] ==> !s[pos + n]
  {
    var prefix := Ones(n) + stop;
    forall j | pos <= j < pos + |prefix|
      ensures s[j] == prefix[j - pos]
    {
      AtIndex(s, pos, prefix, j - pos);
    }
  }

  /** What the decoder's reads return when they start on a code of `v`. */
  lemma RiceCodeReads(s: Bits, pos: nat, v: nat, size: nat, k: nat, maskBits: nat) returns (q: nat)
    requires k >= 1 && maskBits >= 1 && v < Pow2(size)
    requires At(s, pos, RiceCode(v, size, k, maskBits))
    requires pos + |RiceCode(v, size, k, maskBits)| < |s|
    ensures forall j | pos <= j < pos + q && j <= pos + RICE_THRESHOLD && j < |s| :: s[j]
    ensures var length := |RiceCode(v, size, k, maskBits)|;
      if q > RICE_THRESHOLD then
        length == RICE_THRESHOLD + 1 + size
        && NumberAt(s, pos + RICE_THRESHOLD + 1, size) == v
      else if k == 1 then
        length == q + 1 && !s[pos + q] && v == q
      else
        q + k <= length && !s[pos + q] &&
        var extra, high := NumberAt(s, pos + q + 1, k), PrefixValue(q, PrefixUnit(k, maskBits));
        if extra <= 1 then length == q + k && v == high else length == q + k + 1 && v == high + extra - 1
  {
    var m := PrefixUnit(k, maskBits);
    var r := Modulus(v, m);
    q := Quotient(v, m);
    RiceCodeAt(s, pos, v, size, k, maskBits);
    if q > RICE_THRESHOLD {
      FieldRead(s, pos + RICE_THRESHOLD + 1, v, size);
    } else if k > 1 {
      assert |Remainder(r, k)| == if r == 0 then k - 1 else k;
      RemainderRead(s, pos + q + 1, r, k);
      assert v == PrefixValue(q, m) + r;
    }
    hide *;
  }

  /** The low `size` bits of a value. */
  function MaskedValue(value: nat, size: nat): (r: nat)
    ensures value < Pow2(size) ==> r == value
  {
    if value < Pow2(size) then
      SmallModulus(value, Pow2(size));
      value % Pow2(size)
    else value % Pow2(size)
  }

  /** The ones before the first zero, at most one more than the threshold. */
  method ReadPrefix(reader: BitReader, ghost q: nat) returns (x: nat)
    requires reader.Valid() && reader.SlackAfter(reader.Position() + if q <= RICE_THRESHOLD then q else RICE_THRESHOLD)
    requires forall j | reader.Position() <= j < reader.Position() + q && j <= reader.Position() + RICE_THRESHOLD ::
      reader.Stream()[j]
    requires q <= RICE_THRESHOLD ==> !reader.Stream()[reader.Position() + q]
    modifies reader
    ensures reader.Valid() && reader.input == old(reader.input)
    ensures x == if q <= RICE_THRESHOLD then q else RICE_THRESHOLD + 1
    ensures reader.Position() == old(reader.Position()) + if q <= RICE_THRESHOLD then q + 1 else RICE_THRESHOLD + 1
  {
    ghost var s, p := reader.Stream(), reader.Position();
    x := 0;
    var more := true;
    while x <= RICE_THRESHOLD && more
      invariant reader.Valid() && reader.input == old(reader.input)
      invariant x <= q && x <= RICE_THRESHOLD + 1
      invariant reader.Position() == p + x + if more then 0 else 1
      invariant !more ==> x == q <= RICE_THRESHOLD
      decreases more, RICE_THRESHOLD + 1 - x
    {
      assert x < q ==> s[p + x];
      more := reader.ReadBit();
      if more {
        x := x + 1;
      }
    }
  }

  method EntropyDecodeValue(reader: BitReader, readSampleSize: nat, k: nat, maskBits: nat, ghost v: nat)
    returns (x: nat)
    requires reader.Valid() && 1 <= readSampleSize <= 31 && 1 <= k <= 16 && maskBits >= 1
    requires v < Pow2(readSampleSize)
    requires At(reader.Stream(), reader.Position(), RiceCode(v, readSampleSize, k, maskBits))
    requires reader.SlackAfter(reader.Position() + |RiceCode(v, readSampleSize, k, maskBits)|)
    modifies reader
    ensures reader.Valid() && reader.input == old(reader.input)
    ensures x == v
    ensures reader.Position() == old(reader.Position()) + |RiceCode(v, readSampleSize, k, maskBits)|
  {
    hide At, Flat, RiceCode, ToNat, Field, PrefixUnit, PrefixValue, NumberAt, Pow2, MaskedValue;
    ghost var s, p := reader.Stream(), reader.Position();
    ghost var length := |RiceCode(v, readSampleSize, k, maskBits)|;
    ghost var q := RiceCodeReads(s, p, v, readSampleSize, k, maskBits);
    x := ReadPrefix(reader, q);
    if x > RICE_THRESHOLD {
      var value := reader.ReadBits(readSampleSize);
      x := MaskedValue(value, readSampleSize);
    } else if k != 1 {
      var extraBits := reader.ReadBits(k);
      x := PrefixValue(x, PrefixUnit(k, maskBits));
      if extraBits > 1 {
        x := x + extraBits - 1;
      } else {
        reader.UnreadBits(1);
      }
    }
  }

  /** The signed value the decoder rebuilds from a folded one, and what it means. */
  function Unfolded(decoded: nat): int
  {
    if decoded % 2 == 1 then -((decoded + 1) / 2) else (decoded + 1) / 2
  }

  /** Even values stand for the residuals from 0 up, odd ones for those from -1 down. */
  lemma UnfoldedIs(n: nat)
    ensures Unfolded(2 * n) == n && Unfolded(2 * n + 1) == -(n + 1)
  {
  }

  lemma UnfoldFold(e: int)
    ensures Unfolded(Folded(e)) == e
  {
    if e >= 0 {
      assert (2 * e) % 2 == 0 && (2 * e + 1) / 2 == e;
    } else {
      assert (-2 * e - 1) % 2 == 1;
    }
  }

  /** The code of the residuals from index `i` on fills the stream from `pos` to `end`. */
  ghost predicate Pending(s: Bits, pos: nat, end: nat, r: seq<int>, i: nat, p: RiceParameters,
                          history: int, signModifier: int)
  {
    && Encodable(r, i, p, history, signModifier)
    && At(s, pos, EncodeResiduals(r, i, p, history, signModifier))
    && pos + |EncodeResiduals(r, i, p, history, signModifier)| == end
  }

  /** Between a sample and the length of the run of zeros that follows it. */
  ghost predicate PendingRun(s: Bits, pos: nat, end: nat, r: seq<int>, i: nat, p: RiceParameters, history: int)
  {
    && i < |r| && 1 <= history < 128 && p.Valid()
    && var z := ZeroRun(r, i);
    && var k := RunK(history);
    && 2 <= k <= 7 && z <= 0xFFFF
    && var run := RiceCode(z, 16, k, p.kModifier);
    && pos + |run| <= end && At(s, pos, run) && Pending(s, pos + |run|, end, r, i + z, p, 0, 1)
  }

  /** The sample sent next stands at the cursor, the run of zeros after it, and then the rest. */
  lemma SentStands(s: Bits, pos: nat, end: nat, r: seq<int>, i: nat, p: RiceParameters, history: int, signModifier: int)
    requires i < |r| && Pending(s, pos, end, r, i, p, history, signModifier)
    ensures var sent := SendNext(r, i, p, history, signModifier);
      && At(s, pos, sent.sample) && At(s, pos + |sent.sample|, sent.run)
      && Pending(s, pos + |sent.sample| + |sent.run|, end, r, sent.next, p, sent.history, sent.signModifier)
  {
    hide At, SendNext, Encodable;
    var sent := SendNext(r, i, p, history, signModifier);
    var rest := EncodeResiduals(r, sent.next, p, sent.history, sent.signModifier);
    AtSplit(s, pos, sent.sample, sent.run + rest);
    AtSplit(s, pos + |sent.sample|, sent.run, rest);
  }

  /** What stands at the cursor when the next residual is decoded. */
  lemma NextSample(s: Bits, pos: nat, end: nat, r: seq<int>, i: nat, p: RiceParameters,
                   history: int, signModifier: int) returns (code: Bits)
    requires i < |r| && Pending(s, pos, end, r, i, p, history, signModifier)
    ensures p.Valid() && HistoryState(history, signModifier) && signModifier <= Folded(r[i]) < Pow2(p.size)
    ensures 1 <= SampleK(history, p.kModifier) <= 16
    ensures code == RiceCode(Folded(r[i]) - signModifier, p.size, SampleK(history, p.kModifier), 32)
    ensures At(s, pos, code) && pos + |code| <= end
    ensures var h := NextHistory(history, Folded(r[i]), p.mult);
      1 <= h && if h < 128 && i + 1 < |r| then PendingRun(s, pos + |code|, end, r, i + 1, p, h)
                else Pending(s, pos + |code|, end, r, i + 1, p, h, 0)
  {
    hide At, RiceCode, Pow2, NextHistory, SampleK, RunK, Folded, EncodeResiduals;
    SampleState(r, i, p, history, signModifier);
    SentStands(s, pos, end, r, i, p, history, signModifier);
    code := SendNext(r, i, p, history, signModifier).sample;
  }

  /** What stands at the cursor when the length of a run of zeros is decoded. */
  lemma NextRun(s: Bits, pos: nat, end: nat, r: seq<int>, i: nat, p: RiceParameters, history: int) returns (z: nat)
    requires PendingRun(s, pos, end, r, i, p, history)
    ensures p.kModifier >= 1 && 1 <= history < 128 && 2 <= RunK(history) <= 7
    ensures z <= 0xFFFF && z < Pow2(16) && i + z <= |r| && forall j | i <= j < i + z :: r[j] == 0
    ensures var code := RiceCode(z, 16, RunK(history), p.kModifier);
      At(s, pos, code) && pos + |code| <= end && Pending(s, pos + |code|, end, r, i + z, p, 0, 1)
  {
    hide At, RiceCode;
    Pow2Values();
    z := ZeroRun(r, i);
  }

  method EntropyRiceDecode(reader: BitReader, output: array<int>, outputSize: nat, p: RiceParameters,
                           initialHistory: int, ghost residuals: seq<int>, ghost end: nat)
    requires reader.Valid() && reader.SlackAfter(end) && |residuals| == outputSize <= output.Length
    requires Pending(reader.Stream(), reader.Position(), end, residuals, 0, p, initialHistory, 0)
    modifies reader, output
    ensures reader.Valid() && reader.input == old(reader.input)
    ensures reader.Stream() == old(reader.Stream()) && reader.Position() == end
    ensures output[..outputSize] == residuals
    ensures forall i | outputSize <= i < output.Length :: output[i] == old(output[i])
  {
    hide *;
    var history, signModifier, count := initialHistory, 0, 0;
    while count < outputSize
      invariant 0 <= count <= outputSize
      invariant reader.Valid() && reader.input == old(reader.input)
      invariant reader.Stream() == old(reader.Stream()) && reader.SlackAfter(end)
      invariant Pending(reader.Stream(), reader.Position(), end, residuals, count, p, history, signModifier)
      invariant forall i | 0 <= i < count :: output[i] == residuals[i]
      invariant forall i | outputSize <= i < output.Length :: output[i] == old(output[i])
    {
      output[count], history := DecodeResidual(reader, p, history, signModifier, residuals, count, end);
      signModifier := 0;
      // special case, for compressed blocks of zeros
      if history < 128 && count + 1 < outputSize {
        signModifier := 1;
        var blockSize := DecodeRunLength(reader, p, history, residuals, count + 1, end);
        if blockSize > 0 {
          ClearBlock(output, count + 1, blockSize);
          count := count + blockSize;
        }
        if blockSize > 0xFFFF {
          signModifier := 0;
        }
        history := 0;
      }
      count := count + 1;
    }
    AllDecoded(reader.Stream(), reader.Position(), end, residuals, p, history, signModifier);
  }

  lemma AllDecoded(s: Bits, pos: nat, end: nat, r: seq<int>, p: RiceParameters, history: int, signModifier: int)
    requires Pending(s, pos, end, r, |r|, p, history, signModifier)
    ensures pos == end
  {
  }

  /** One residual and the history after it. */
  method DecodeResidual(reader: BitReader, p: RiceParameters, oldHistory: int, signModifier: int,
                        ghost r: seq<int>, ghost i: nat, ghost end: nat)
    returns (finalValue: int, history: int)
    requires reader.Valid() && i < |r| && reader.SlackAfter(end)
    requires Pending(reader.Stream(), reader.Position(), end, r, i, p, oldHistory, signModifier)
    modifies reader
    ensures reader.Valid() && reader.input == old(reader.input)
    ensures reader.Stream() == old(reader.Stream()) && reader.SlackAfter(end)
    ensures finalValue == r[i]
    ensures if history < 128 && i + 1 < |r|
      then PendingRun(reader.Stream(), reader.Position(), end, r, i + 1, p, history)
      else Pending(reader.Stream(), reader.Position(), end, r, i + 1, p, history, 0)
  {
    hide At, Flat, RiceCode;
    ghost var code := NextSample(reader.Stream(), reader.Position(), end, r, i, p, oldHistory, signModifier);
    UnfoldFold(r[i]);
    hide Pending, PendingRun, RiceCode, Folded, Unfolded, Pow2, SampleK, NextHistory;
    var k := SampleK(oldHistory, p.kModifier);
    // the k modifier mask is not used for samples: all 32 bits are set
    var decodedValue := EntropyDecodeValue(reader, p.size, k, 32, Folded(r[i]) - signModifier);
    decodedValue := decodedValue + signModifier;
    finalValue := Unfolded(decodedValue);
    history := NextHistory(oldHistory, decodedValue, p.mult);
  }

  /** The length of the run of zeros that follows a residual. */
  method DecodeRunLength(reader: BitReader, p: RiceParameters, history: int,
                         ghost r: seq<int>, ghost i: nat, ghost end: nat)
    returns (blockSize: nat)
    requires reader.Valid() && reader.SlackAfter(end)
    requires PendingRun(reader.Stream(), reader.Position(), end, r, i, p, history)
    modifies reader
    ensures reader.Valid() && reader.input == old(reader.input)
    ensures reader.Stream() == old(reader.Stream()) && reader.SlackAfter(end)
    ensures blockSize <= 0xFFFF && i + blockSize <= |r| && forall j | i <= j < i + blockSize :: r[j] == 0
    ensures Pending(reader.Stream(), reader.Position(), end, r, i + blockSize, p, 0, 1)
  {
    hide Pending, PendingRun, At, RiceCode, RunK, ZeroRun, Flat, RiceParameters.Valid;
    ghost var z := NextRun(reader.Stream(), reader.Position(), end, r, i, p, history);
    blockSize := EntropyDecodeValue(reader, 16, RunK(history), p.kModifier, z);
  }

  /** `memset` of a block of samples. */
  method ClearBlock(output: array<int>, from: nat, size: nat)
    requires from + size <= output.Length
    modifies output
    ensures forall i | 0 <= i < output.Length ::
      output[i] == if from <= i < from + size then 0 else old(output[i])
  {
    forall i | from <= i < from + size {
      output[i] := 0;
    }
  }
}

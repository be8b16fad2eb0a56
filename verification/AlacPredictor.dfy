/**
 The sign-LMS adaptive predictor of the ALAC decoder. Each sample is a prediction from earlier
 samples plus a residual; the coefficient table adapts to the sign of every residual. All sums are
 taken in int32 with wrap-around and every sample is sign-extended from the sample size.
 */
module AlacPredictor {
  import opened Numbers

  // ---------- sign extension ----------

  /** `SIGN_EXTENDED32`: shift left in 32 bits, then arithmetically right again. */
  function SignExtended32(x: int, bits: nat): int
    requires 1 <= bits <= 32
  {
    Wrap32(x * Pow2(32 - bits)) / Pow2(32 - bits)
  }

  /** `x` and `y` differ by a multiple of `m`. */
  ghost predicate Congruent(x: int, y: int, m: int)
  {
    exists k: int :: x == y + k * m
  }

  lemma CongruentBy(x: int, y: int, m: int, k: int)
    requires x == y + k * m
    ensures Congruent(x, y, m)
  {
  }

  lemma CongruentTransitive(x: int, y: int, z: int, m: int)
    requires Congruent(x, y, m) && Congruent(y, z, m)
    ensures Congruent(x, z, m)
  {
    var j: int :| x == y + j * m;
    var k: int :| y == z + k * m;
    assert (j + k) * m == j * m + k * m;
    CongruentBy(x, z, m, j + k);
  }

  lemma CongruentSum(x: int, y: int, u: int, v: int, m: int)
    requires Congruent(x, y, m) && Congruent(u, v, m)
    ensures Congruent(x + u, y + v, m)
  {
    var j: int :| x == y + j * m;
    var k: int :| u == v + k * m;
    assert (j + k) * m == j * m + k * m;
    CongruentBy(x + u, y + v, m, j + k);
  }

  /** Two representatives of one residue class in a range of that width are the same. */
  lemma CongruentInRange(x: int, y: int, half: int)
    requires half >= 1 && -half <= x < half && -half <= y < half && Congruent(x, y, 2 * half)
    ensures x == y
  {
    var k: int :| x == y + k * (2 * half);
    if k > 0 {
      MulAtLeast(2 * half, k);
    }
  }

  lemma FloorModulus(x: int, m: int)
    requires m > 0
    ensures 0 <= x % m < m && Congruent(x, x % m, m)
  {
    CongruentBy(x, x % m, m, x / m);
  }

  /** The C macro is the representative of `x` modulo 2^bits in the signed range of that width. */
  lemma SignExtension(x: int, bits: nat)
    requires 1 <= bits <= 32
    ensures FitsSigned(SignExtended32(x, bits), bits)
    ensures Congruent(SignExtended32(x, bits), x, 2 * Pow2(bits - 1))
  {
    hide Pow2, Wrap32;
    var h, p := Pow2(bits - 1), Pow2(32 - bits);
    Pow2Values();
    Pow2Add(bits - 1, 32 - bits);
    var r := (x + h) % (2 * h);
    FloorModulus(x + h, 2 * h);
    ShiftPair(x, h, p, r);
    var k: int :| x + h == r + k * (2 * h);
    assert (-k) * (2 * h) == -(k * (2 * h));
    CongruentBy(r - h, x, 2 * h, -k);
  }

  lemma WrapCongruent(x: int, bits: nat)
    requires 1 <= bits <= 32
    ensures Congruent(Wrap32(x), x, 2 * Pow2(bits - 1))
  {
    var k := (x + 0x8000_0000) / 0x1_0000_0000;
    Pow2Values();
    Pow2Add(bits - 1, 32 - bits);
    assert Wrap32(x) == x + (-k) * 0x1_0000_0000;
    hide *;
    MultipleOfMultiple(x, Wrap32(x), -k, Pow2(bits - 1), Pow2(32 - bits));
  }

  lemma MultipleOfMultiple(x: int, y: int, k: int, h: int, p: int)
    requires h * p == 0x8000_0000 && y == x + k * 0x1_0000_0000
    ensures Congruent(y, x, 2 * h)
  {
    assert (k * p) * (2 * h) == k * (2 * (h * p));
    CongruentBy(y, x, 2 * h, k * p);
  }

  /** Adding back what was taken away restores a sample of the right size, whatever wrapped. */
  lemma ResidualRestores(sample: int, prediction: int, bits: nat)
    requires 1 <= bits <= 32 && FitsSigned(sample, bits)
    ensures SignExtended32(Wrap32(prediction + SignExtended32(sample - prediction, bits)), bits) == sample
  {
    var e := SignExtended32(sample - prediction, bits);
    var m := 2 * Pow2(bits - 1);
    var sum := prediction + e;
    SignExtension(sample - prediction, bits);
    WrapCongruent(sum, bits);
    SignExtension(Wrap32(sum), bits);
    hide *;
    CongruentBy(prediction, prediction, m, 0);
    CongruentSum(prediction, prediction, e, sample - prediction, m);
    CongruentTransitive(SignExtended32(Wrap32(sum), bits), Wrap32(sum), sum, m);
    CongruentTransitive(SignExtended32(Wrap32(sum), bits), sum, sample, m);
    SameSigned(SignExtended32(Wrap32(sum), bits), sample, bits);
  }

  /** A residual of the right size is determined by the sample it leads to. */
  lemma ResidualDetermined(residual: int, prediction: int, bits: nat)
    requires 1 <= bits <= 32 && FitsSigned(residual, bits)
    ensures SignExtended32(SignExtended32(Wrap32(prediction + residual), bits) - prediction, bits) == residual
  {
    hide *;
    var sum := prediction + residual;
    var s := SignExtended32(Wrap32(sum), bits);
    var m := 2 * Pow2(bits - 1);
    WrapCongruent(sum, bits);
    SignExtension(Wrap32(sum), bits);
    SignExtension(s - prediction, bits);
    CongruentTransitive(s, Wrap32(sum), sum, m);
    CongruentBy(-prediction, -prediction, m, 0);
    CongruentSum(s, sum, -prediction, -prediction, m);
    CongruentTransitive(SignExtended32(s - prediction, bits), s - prediction, residual, m);
    SameSigned(SignExtended32(s - prediction, bits), residual, bits);
  }

  lemma SameSigned(x: int, y: int, bits: nat)
    requires bits >= 1 && FitsSigned(x, bits) && FitsSigned(y, bits) && Congruent(x, y, 2 * Pow2(bits - 1))
    ensures x == y
  {
    CongruentInRange(x, y, Pow2(bits - 1));
  }

  // ---------- the adaptive filter ----------

  const DIFFERENCE_ONLY: nat := 31  // predictor_coef_num of all ones

  /** The constants of one channel of a frame. */
  datatype Filter = Filter(order: nat, shift: nat, size: nat, coefficients: seq<int>) {
    predicate Valid() {
      order <= 31 && 1 <= shift <= 15 && 1 <= size <= 32 && |coefficients| >= order
    }
  }

  function Sign(x: int): int {
    if x < 0 then -1 else if x > 0 then 1 else 0
  }

  /** The weighted sum over the first `j` taps for the window that starts at `b`. */
  function TapSum(s: seq<int>, b: nat, table: seq<int>, order: nat, j: nat): int
    requires j <= order <= |table| && b + order < |s|
  {
    if j == 0 then 0
    else Wrap32(TapSum(s, b, table, order, j - 1) + Wrap32(Wrap32(s[b + order - (j - 1)] - s[b]) * table[j - 1]))
  }

  /** The prediction for the sample that follows the window. */
  function Prediction(s: seq<int>, b: nat, table: seq<int>, order: nat, shift: nat): int
    requires order <= |table| && b + order < |s| && shift >= 1
  {
    Wrap32(Wrap32(Pow2(shift - 1) + TapSum(s, b, table, order, order)) / Pow2(shift) + s[b])
  }

  /** Adaptation goes on while the residual keeps the sign it started with. */
  predicate Remaining(error: int, direction: int) {
    error * direction > 0
  }

  /** What is left of the residual after a tap whose window difference is `val`. */
  function ErrorAfterTap(error: int, val: int, sign: int, f: Filter, tap: nat): int
    requires f.Valid() && 1 <= tap <= f.order
  {
    Wrap32(error - Wrap32(Wrap32(val * sign) / Pow2(f.shift) * (f.order - (tap - 1))))
  }

  /**
   The coefficients after adapting taps tap - 1, ..., 0 to a residual; `direction` is its sign, and
   adaptation stops as soon as the residual is used up.
   */
  function Adapted(error: int, direction: int, s: seq<int>, b: nat, table: seq<int>, f: Filter, tap: nat): (t: seq<int>)
    requires f.Valid() && tap <= f.order <= |table| && b + f.order < |s|
    ensures |t| == |table|
    decreases tap
  {
    if tap == 0 || !Remaining(error, direction) then table
    else
      var val := Wrap32(s[b] - s[b + f.order - (tap - 1)]);
      var sign := direction * Sign(val);
      Adapted(ErrorAfterTap(error, val, sign, f, tap), direction, s, b,
              table[tap - 1 := Wrap16(table[tap - 1] - sign)], f, tap - 1)
  }

  /** The coefficient table when sample `i` is predicted: it has seen all earlier residuals. */
  function TableAt(errors: seq<int>, s: seq<int>, f: Filter, i: nat): (t: seq<int>)
    requires f.Valid() && i <= |errors| && i <= |s|
    ensures |t| == |f.coefficients|
    decreases i
  {
    if i <= f.order + 1 then f.coefficients
    else
      var e := errors[i - 1];
      Adapted(e, Sign(e), s, i - 2 - f.order, TableAt(errors, s, f, i - 1), f, f.order)
  }

  /** What is added to residual `i`, given the samples and residuals before it. */
  function PredictionAt(errors: seq<int>, s: seq<int>, f: Filter, i: nat): int
    requires f.Valid() && i <= |errors| && i <= |s|
  {
    if i == 0 || f.order == 0 then 0
    else if f.order == DIFFERENCE_ONLY || i <= f.order then s[i - 1]
    else Prediction(s, i - 1 - f.order, TableAt(errors, s, f, i), f.order, f.shift)
  }

  /** The first sample, and every sample of a filter without coefficients, is copied as it is. */
  predicate Copied(f: Filter, i: nat) {
    i == 0 || f.order == 0
  }

  function SampleFrom(error: int, prediction: int, f: Filter, i: nat): int
    requires f.Valid()
  {
    if Copied(f, i) then error else SignExtended32(Wrap32(prediction + error), f.size)
  }

  function ResidualOf(sample: int, prediction: int, f: Filter, i: nat): int
    requires f.Valid()
  {
    if Copied(f, i) then sample else SignExtended32(sample - prediction, f.size)
  }

  /** `s` is what the decoder makes of `errors`. */
  ghost predicate Decodes(errors: seq<int>, s: seq<int>, f: Filter)
    requires f.Valid()
  {
    |errors| == |s| &&
    forall i | 0 <= i < |s| :: s[i] == SampleFrom(errors[i], PredictionAt(errors, s, f, i), f, i)
  }

  ghost predicate AllFit(s: seq<int>, bits: nat)
    requires bits >= 1
  {
    forall i | 0 <= i < |s| :: FitsSigned(s[i], bits)
  }

  // ---------- the filter is a bijection on samples of the right size ----------

  /** A prediction depends only on what came before. */
  lemma {:induction false} AdaptedPrefix(error: int, direction: int, s: seq<int>, s': seq<int>, b: nat,
                                         table: seq<int>, f: Filter, tap: nat)
    requires f.Valid() && tap <= f.order <= |table| && b + f.order < |s| && b + f.order < |s'|
    requires forall k | 0 <= k <= b + f.order :: s[k] == s'[k]
    ensures Adapted(error, direction, s, b, table, f, tap) == Adapted(error, direction, s', b, table, f, tap)
    decreases tap
  {
    hide Wrap32, Wrap16, Sign, Remaining, ErrorAfterTap;
    if tap > 0 && Remaining(error, direction) {
      var val := Wrap32(s[b] - s[b + f.order - (tap - 1)]);
      var sign := direction * Sign(val);
      AdaptedPrefix(ErrorAfterTap(error, val, sign, f, tap), direction, s, s',
                    b, table[tap - 1 := Wrap16(table[tap - 1] - sign)], f, tap - 1);
    }
  }

  lemma {:induction false} TapSumPrefix(s: seq<int>, s': seq<int>, b: nat, table: seq<int>, order: nat, j: nat)
    requires j <= order <= |table| && b + order < |s| && b + order < |s'|
    requires forall k | 0 <= k <= b + order :: s[k] == s'[k]
    ensures TapSum(s, b, table, order, j) == TapSum(s', b, table, order, j)
  {
    hide Wrap32;
    if j > 0 {
      assert s[b] == s'[b] && s[b + order - (j - 1)] == s'[b + order - (j - 1)];
      TapSumPrefix(s, s', b, table, order, j - 1);
    }
  }

  lemma {:induction false} TablePrefix(e: seq<int>, e': seq<int>, s: seq<int>, s': seq<int>, f: Filter, i: nat)
    requires f.Valid() && i <= |e| && i <= |e'| && i <= |s| && i <= |s'|
    requires forall k | 0 <= k < i :: e[k] == e'[k] && s[k] == s'[k]
    ensures TableAt(e, s, f, i) == TableAt(e', s', f, i)
  {
    if i > f.order + 1 {
      TablePrefix(e, e', s, s', f, i - 1);
      AdaptedPrefix(e[i - 1], Sign(e[i - 1]), s, s', i - 2 - f.order, TableAt(e, s, f, i - 1), f, f.order);
    }
  }

  lemma PredictionPrefix(e: seq<int>, e': seq<int>, s: seq<int>, s': seq<int>, f: Filter, i: nat)
    requires f.Valid() && i <= |e| && i <= |e'| && i <= |s| && i <= |s'|
    requires forall k | 0 <= k < i :: e[k] == e'[k] && s[k] == s'[k]
    ensures PredictionAt(e, s, f, i) == PredictionAt(e', s', f, i)
  {
    hide Wrap32, Pow2, TableAt, TapSum;
    if !Copied(f, i) && f.order != DIFFERENCE_ONLY && i > f.order {
      TablePrefix(e, e', s, s', f, i);
      TapSumPrefix(s, s', i - 1 - f.order, TableAt(e, s, f, i), f.order, f.order);
    }
  }

  /** The residuals an encoder computes for the samples, one after the other. */
  function Encode(s: seq<int>, f: Filter, n: nat): (e: seq<int>)
    requires f.Valid() && n <= |s|
    ensures |e| == n
  {
    if n == 0 then []
    else
      var e := Encode(s, f, n - 1);
      e + [ResidualOf(s[n - 1], PredictionAt(e, s, f, n - 1), f, n - 1)]
  }

  /** The samples the decoder computes for the residuals, one after the other. */
  function Decode(e: seq<int>, f: Filter, n: nat): (s: seq<int>)
    requires f.Valid() && n <= |e|
    ensures |s| == n
  {
    if n == 0 then []
    else
      var s := Decode(e, f, n - 1);
      s + [SampleFrom(e[n - 1], PredictionAt(e, s, f, n - 1), f, n - 1)]
  }

  lemma {:induction false} DecodeUpTo(e: seq<int>, f: Filter, n: nat, i: nat)
    requires f.Valid() && i < n <= |e|
    ensures var s := Decode(e, f, n); s[i] == SampleFrom(e[i], PredictionAt(e, s, f, i), f, i)
  {
    var s, before := Decode(e, f, n), Decode(e, f, n - 1);
    if i < n - 1 {
      DecodeUpTo(e, f, n - 1, i);
    }
    PredictionPrefix(e, e, s, before, f, i);
  }

  lemma {:induction false} EncodeUpTo(s: seq<int>, f: Filter, n: nat, i: nat)
    requires f.Valid() && i < n <= |s|
    ensures var e := Encode(s, f, n); e[i] == ResidualOf(s[i], PredictionAt(e, s, f, i), f, i)
  {
    var e, before := Encode(s, f, n), Encode(s, f, n - 1);
    if i < n - 1 {
      EncodeUpTo(s, f, n - 1, i);
    }
    PredictionPrefix(e, before, s, s, f, i);
  }

  /** Every residual sequence decodes to `Decode` and to nothing else. */
  lemma {:induction false} DecodesExactly(e: seq<int>, s: seq<int>, f: Filter)
    requires f.Valid()
    ensures Decodes(e, s, f) <==> s == Decode(e, f, |e|)
  {
    var d := Decode(e, f, |e|);
    forall i | 0 <= i < |e|
      ensures d[i] == SampleFrom(e[i], PredictionAt(e, d, f, i), f, i)
    {
      DecodeUpTo(e, f, |e|, i);
    }
    if Decodes(e, s, f) {
      SameSamples(e, s, d, f, |e|);
      assert s == d;
    }
  }

  lemma {:induction false} SameSamples(e: seq<int>, s: seq<int>, s': seq<int>, f: Filter, n: nat)
    requires f.Valid() && Decodes(e, s, f) && Decodes(e, s', f) && n <= |e|
    ensures forall i | 0 <= i < n :: s[i] == s'[i]
  {
    hide PredictionAt, SampleFrom;
    if n > 0 {
      SameSamples(e, s, s', f, n - 1);
      PredictionPrefix(e, e, s, s', f, n - 1);
    }
  }

  lemma SampleRestored(s: seq<int>, f: Filter, i: nat)
    requires f.Valid() && AllFit(s, f.size) && i < |s|
    ensures var e := Encode(s, f, |s|);
      FitsSigned(e[i], f.size) && s[i] == SampleFrom(e[i], PredictionAt(e, s, f, i), f, i)
  {
    hide PredictionAt, Encode, FitsSigned, SignExtended32, Wrap32;
    var p := PredictionAt(Encode(s, f, |s|), s, f, i);
    EncodeUpTo(s, f, |s|, i);
    SignExtension(s[i] - p, f.size);
    ResidualRestores(s[i], p, f.size);
  }

  lemma ResidualRecovered(e: seq<int>, f: Filter, i: nat)
    requires f.Valid() && AllFit(e, f.size) && i < |e|
    ensures var s := Decode(e, f, |e|);
      FitsSigned(s[i], f.size) && e[i] == ResidualOf(s[i], PredictionAt(e, s, f, i), f, i)
  {
    hide PredictionAt, Decode, FitsSigned, SignExtended32, Wrap32;
    var p := PredictionAt(e, Decode(e, f, |e|), f, i);
    DecodeUpTo(e, f, |e|, i);
    SignExtension(Wrap32(p + e[i]), f.size);
    ResidualDetermined(e[i], p, f.size);
  }

  /** Every sample sequence of the right size is reached, by residuals of the right size. */
  lemma EncodeThenDecode(s: seq<int>, f: Filter)
    requires f.Valid() && AllFit(s, f.size)
    ensures AllFit(Encode(s, f, |s|), f.size)
    ensures Decodes(Encode(s, f, |s|), s, f) && Decode(Encode(s, f, |s|), f, |s|) == s
  {
    hide PredictionAt, Encode, Decode, FitsSigned, SampleFrom;
    var e := Encode(s, f, |s|);
    forall i | 0 <= i < |s|
      ensures FitsSigned(e[i], f.size) && s[i] == SampleFrom(e[i], PredictionAt(e, s, f, i), f, i)
    {
      SampleRestored(s, f, i);
    }
    DecodesExactly(e, s, f);
  }

  /** Residuals of the right size are recovered from the samples they lead to. */
  lemma DecodeThenEncode(e: seq<int>, f: Filter)
    requires f.Valid() && AllFit(e, f.size)
    ensures AllFit(Decode(e, f, |e|), f.size)
    ensures Encode(Decode(e, f, |e|), f, |e|) == e
  {
    hide PredictionAt, Encode, Decode, FitsSigned, ResidualOf;
    var s := Decode(e, f, |e|);
    forall i | 0 <= i < |e|
      ensures FitsSigned(s[i], f.size) && e[i] == ResidualOf(s[i], PredictionAt(e, s, f, i), f, i)
    {
      ResidualRecovered(e, f, i);
    }
    SameResiduals(s, e, f, |e|);
    assert Encode(s, f, |e|) == e;
  }

  lemma {:induction false} SameResiduals(s: seq<int>, e: seq<int>, f: Filter, n: nat)
    requires f.Valid() && |s| == |e| && n <= |e|
    requires forall i | 0 <= i < |e| :: e[i] == ResidualOf(s[i], PredictionAt(e, s, f, i), f, i)
    ensures forall i | 0 <= i < n :: Encode(s, f, n)[i] == e[i]
  {
    hide PredictionAt, ResidualOf;
    if n > 0 {
      SameResiduals(s, e, f, n - 1);
      PredictionPrefix(Encode(s, f, n - 1), e, s, s, f, n - 1);
    }
  }

  /** Distinct residual sequences of the right size lead to distinct samples. */
  lemma DecodeInjective(e: seq<int>, e': seq<int>, s: seq<int>, f: Filter)
    requires f.Valid() && AllFit(e, f.size) && AllFit(e', f.size)
    requires Decodes(e, s, f) && Decodes(e', s, f)
    ensures e == e'
  {
    DecodesExactly(e, s, f);
    DecodesExactly(e', s, f);
    DecodeThenEncode(e, f);
    DecodeThenEncode(e', f);
  }

  // ---------- the decoder's loops ----------

  method AdaptCoefficients(error: int, direction: int, s: array<int>, b: nat, table: array<int>, f: Filter)
    requires f.Valid() && f.order <= table.Length && b + f.order < s.Length && s != table
    requires direction == Sign(error)
    modifies table
    ensures table[..] == Adapted(error, direction, s[..], b, old(table[..]), f, f.order)
  {
    hide Wrap32, Wrap16, Sign, Remaining, ErrorAfterTap;
    var tap, errorVal := f.order, error;
    while tap > 0 && Remaining(errorVal, direction)
      invariant 0 <= tap <= f.order
      invariant Adapted(errorVal, direction, s[..], b, table[..], f, tap)
             == Adapted(error, direction, s[..], b, old(table[..]), f, f.order)
    {
      var val := Wrap32(s[b] - s[b + f.order - (tap - 1)]);
      var sign := direction * Sign(val);
      ghost var before := table[..];
      table[tap - 1] := Wrap16(table[tap - 1] - sign);
      assert table[..] == before[tap - 1 := Wrap16(before[tap - 1] - sign)];
      errorVal := ErrorAfterTap(errorVal, val, sign, f, tap);
      tap := tap - 1;
    }
  }

  method FilterTaps(s: array<int>, b: nat, table: array<int>, f: Filter) returns (sum: int)
    requires f.Valid() && f.order <= table.Length && b + f.order < s.Length
    ensures sum == TapSum(s[..], b, table[..], f.order, f.order)
  {
    sum := 0;
    for j := 0 to f.order
      invariant sum == TapSum(s[..], b, table[..], f.order, j)
    {
      sum := Wrap32(sum + Wrap32(Wrap32(s[b + f.order - j] - s[b]) * table[j]));
    }
  }

  /** The first `i` samples of `s` are decoded. */
  ghost predicate DecodedUpTo(e: seq<int>, s: seq<int>, f: Filter, i: nat)
    requires f.Valid()
  {
    i <= |e| && i <= |s| && forall k | 0 <= k < i :: s[k] == SampleFrom(e[k], PredictionAt(e, s, f, k), f, k)
  }

  /** Writing sample `i` leaves the earlier samples and the table before it as they were. */
  lemma DecodedNext(e: seq<int>, s: seq<int>, f: Filter, i: nat)
    requires f.Valid() && DecodedUpTo(e, s, f, i) && i < |e| && i < |s|
    ensures var s' := s[i := SampleFrom(e[i], PredictionAt(e, s, f, i), f, i)];
      DecodedUpTo(e, s', f, i + 1) && TableAt(e, s', f, i) == TableAt(e, s, f, i)
  {
    hide PredictionAt, SampleFrom, TableAt;
    var s' := s[i := SampleFrom(e[i], PredictionAt(e, s, f, i), f, i)];
    TablePrefix(e, e, s, s', f, i);
    forall k | 0 <= k < i + 1
      ensures s'[k] == SampleFrom(e[k], PredictionAt(e, s', f, k), f, k)
    {
      PredictionPrefix(e, e, s, s', f, k);
    }
  }

  lemma DecodedAll(e: seq<int>, s: seq<int>, f: Filter, n: nat, done: nat)
    requires f.Valid() && n <= done && DecodedUpTo(e, s, f, done)
    ensures Decodes(e[..n], s[..n], f)
  {
    hide PredictionAt, SampleFrom;
    forall i | 0 <= i < n
      ensures s[..n][i] == SampleFrom(e[..n][i], PredictionAt(e[..n], s[..n], f, i), f, i)
    {
      PredictionPrefix(e, e[..n], s, s[..n], f, i);
    }
  }

  /**
   The decoder. The warm-up runs over `order` samples whatever the length of the frame, so the
   arrays must be longer than that; samples beyond `outputSize` are left arbitrary.
   */
  method DecompressFirAdapt(errors: array<int>, output: array<int>, outputSize: nat, table: array<int>, f: Filter)
    requires f.Valid() && table[..] == f.coefficients
    requires errors != output && errors != table && output != table
    requires outputSize <= output.Length && outputSize <= errors.Length
    requires f.order < output.Length && f.order < errors.Length
    modifies output, table
    ensures Decodes(errors[..outputSize], output[..outputSize], f)
  {
    ghost var e := errors[..];
    assert DecodedUpTo(e, output[..], f, 0);
    hide TableAt, Prediction, DecodedUpTo, Decodes, SignExtended32, Wrap32;
    WriteSample(errors, output, errors[0], 0, table, f);
    if f.order == 0 {
      if outputSize <= 1 {
        DecodedAll(e, output[..], f, outputSize, 1);
        return;
      }
      for i := 1 to outputSize
        invariant DecodedUpTo(e, output[..], f, i)
      {
        WriteSample(errors, output, errors[i], i, table, f);
      }
      DecodedAll(e, output[..], f, outputSize, outputSize);
      return;
    }
    if f.order == DIFFERENCE_ONLY {
      if outputSize <= 1 {
        DecodedAll(e, output[..], f, outputSize, 1);
        return;
      }
      AddDifferences(errors, output, outputSize - 1, table, f);
      DecodedAll(e, output[..], f, outputSize, outputSize);
      return;
    }
    // warm-up samples
    AddDifferences(errors, output, f.order, table, f);
    GeneralCase(errors, output, outputSize, table, f);
  }

  /** Samples 1, ..., count as differences from the sample before. */
  method AddDifferences(errors: array<int>, output: array<int>, count: nat, table: array<int>, f: Filter)
    requires f.Valid() && output != errors && output != table
    requires count < output.Length && count < errors.Length
    requires f.order == DIFFERENCE_ONLY || 0 < count <= f.order
    requires DecodedUpTo(errors[..], output[..], f, 1)
    modifies output
    ensures DecodedUpTo(errors[..], output[..], f, count + 1)
  {
    hide TableAt, Prediction, DecodedUpTo, SignExtended32, Wrap32;
    for i := 0 to count
      invariant DecodedUpTo(errors[..], output[..], f, i + 1)
    {
      WriteSample(errors, output, SignExtended32(Wrap32(output[i] + errors[i + 1]), f.size), i + 1, table, f);
    }
  }

  method GeneralCase(errors: array<int>, output: array<int>, outputSize: nat, table: array<int>, f: Filter)
    requires f.Valid() && 1 <= f.order < DIFFERENCE_ONLY && table[..] == f.coefficients
    requires errors != output && errors != table && output != table
    requires outputSize <= output.Length && outputSize <= errors.Length
    requires f.order < output.Length && f.order < errors.Length
    requires DecodedUpTo(errors[..], output[..], f, f.order + 1)
    modifies output, table
    ensures Decodes(errors[..outputSize], output[..outputSize], f)
  {
    hide *;
    ghost var e := errors[..];
    InitialTable(e, output[..], f);
    var b := 0;  // how far the output pointer has moved
    while b + f.order + 1 < outputSize
      invariant b + f.order + 1 <= output.Length && b + f.order + 1 <= errors.Length
      invariant DecodedUpTo(e, output[..], f, b + f.order + 1)
      invariant table[..] == TableAt(e, output[..], f, b + f.order + 1)
    {
      FilterStep(errors, output, b, table, f);
      b := b + 1;
    }
    DecodedAll(e, output[..], f, outputSize, b + f.order + 1);
    assert errors[..outputSize] == e[..outputSize];
  }

  lemma InitialTable(e: seq<int>, s: seq<int>, f: Filter)
    requires f.Valid() && f.order + 1 <= |e| && f.order + 1 <= |s|
    ensures TableAt(e, s, f, f.order + 1) == f.coefficients
  {
  }

  /** One turn of the general loop: predict, correct, adapt. */
  method FilterStep(errors: array<int>, output: array<int>, b: nat, table: array<int>, f: Filter)
    requires f.Valid() && 1 <= f.order < DIFFERENCE_ONLY && |f.coefficients| == table.Length
    requires errors != output && errors != table && output != table
    requires b + f.order + 1 < output.Length && b + f.order + 1 < errors.Length
    requires DecodedUpTo(errors[..], output[..], f, b + f.order + 1)
    requires table[..] == TableAt(errors[..], output[..], f, b + f.order + 1)
    modifies output, table
    ensures DecodedUpTo(errors[..], output[..], f, b + f.order + 2)
    ensures table[..] == TableAt(errors[..], output[..], f, b + f.order + 2)
  {
    hide DecodedUpTo, Adapted, TapSum, SignExtended32, Wrap32, Pow2, Sign;
    var i := b + f.order + 1;
    var sum := FilterTaps(output, b, table, f);
    var prediction := Wrap32(Wrap32(Pow2(f.shift - 1) + sum) / Pow2(f.shift) + output[b]);
    WriteSample(errors, output, SignExtended32(Wrap32(prediction + errors[i]), f.size), i, table, f);
    AdaptCoefficients(errors[i], Sign(errors[i]), output, b, table, f);
  }

  method WriteSample(errors: array<int>, output: array<int>, sample: int, i: nat, table: array<int>, f: Filter)
    requires f.Valid() && output != errors && output != table && i < errors.Length && i < output.Length
    requires DecodedUpTo(errors[..], output[..], f, i)
    requires sample == SampleFrom(errors[i], PredictionAt(errors[..], output[..], f, i), f, i)
    modifies output
    ensures output[..] == old(output[..])[i := sample]
    ensures DecodedUpTo(errors[..], output[..], f, i + 1)
    ensures TableAt(errors[..], output[..], f, i) == TableAt(errors[..], old(output[..]), f, i)
  {
    DecodedNext(errors[..], output[..], f, i);
    output[i] := sample;
    assert output[..] == old(output[..])[i := sample];
  }
}

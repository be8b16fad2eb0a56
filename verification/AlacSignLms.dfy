/**
 What the adaptive predictor of the ALAC decoder does, in exact arithmetic: which coefficients move
 after a residual and which way, and what a sample is predicted from.
 */
module AlacSignLms {
  import opened Numbers
  import opened AlacPredictor

  function Abs(x: int): nat
  {
    if x < 0 then -x else x
  }

  /** Samples of 25 bits, the widest that a frame can carry. */
  predicate Narrow(s: seq<int>, n: nat)
    requires n <= |s|
  {
    forall k | 0 <= k < n :: -0x100_0000 <= s[k] < 0x100_0000
  }

  // ---------- the coefficients ----------

  /** A difference in whole steps, rounded down or up. */
  function Steps(d: nat, unit: nat, up: bool): (q: nat)
    requires unit >= 1
    ensures q <= d
  {
    StepsBound(d, unit, up);
    if up then (d + (unit - 1)) / unit else d / unit
  }

  lemma StepsBound(d: nat, unit: nat, up: bool)
    requires unit >= 1
    ensures 0 <= (if up then (d + (unit - 1)) / unit else d / unit) <= d
  {
    var x := if up then d + (unit - 1) else d;
    var q := x / unit;
    assert q * unit <= x;
    if q > d {
      assert q * unit >= (d + 1) * unit by { Larger(unit, d + 1, q); }
      assert (d + 1) * unit == d * unit + unit;
      Larger(d, 1, unit);
    }
  }

  lemma Larger(a: nat, b: nat, c: nat)
    requires b <= c
    ensures 0 <= a * b <= a * c
  {
    assert a * c == a * b + a * (c - b);
  }

  function Times(a: nat, b: nat): (c: nat)
  {
    Larger(a, 0, b);
    a * b
  }

  /** By how much tap `i` uses the residual up: its difference in steps, times its weight. */
  function Cost(s: seq<int>, b: nat, order: nat, shift: nat, up: bool, i: nat): nat
    requires i < order && b + order < |s|
  {
    Times(Steps(Abs(s[b + order - i] - s[b]), Pow2(shift), up), order - i)
  }

  /** What the taps from `tap - 1` down to behind tap `j` use up together. */
  function Spent(s: seq<int>, b: nat, order: nat, shift: nat, up: bool, j: nat, tap: nat): nat
    requires j < tap <= order && b + order < |s|
    decreases tap
  {
    if j + 1 == tap then 0 else Spent(s, b, order, shift, up, j, tap - 1) + Cost(s, b, order, shift, up, tap - 1)
  }

  lemma CostBound(s: seq<int>, b: nat, order: nat, shift: nat, up: bool, i: nat)
    requires i < order <= 31 && b + order < |s| && Narrow(s, b + order + 1)
    ensures Cost(s, b, order, shift, up, i) <= 0x4000_0000
  {
    hide Steps, Pow2;
    Larger(Steps(Abs(s[b + order - i] - s[b]), Pow2(shift), up), order - i, 31);
  }

  lemma FloorOfNegative(d: int, unit: int)
    requires unit >= 1 && d >= 0
    ensures (-d) / unit == -((d + (unit - 1)) / unit)
  {
    var q := (d + (unit - 1)) / unit;
    var r := q * unit - d;
    assert q * unit <= d + (unit - 1) < q * unit + unit;
    assert (-q) * unit == -(q * unit);
    DivModUnique(-d, -q, unit, r);
  }

  lemma CostRoundedUp(d: nat, unit: nat, weight: nat)
    requires unit >= 1
    ensures (0 - d) / unit * weight == 0 - Times(Steps(d, unit, true), weight)
  {
    FloorOfNegative(d, unit);
    NegatedProduct(Steps(d, unit, true), weight);
  }

  /** What one tap does to a positive residual: its sign is opposite to the difference, its cost rounded down. */
  lemma TapOfPositive(e: int, s: seq<int>, b: nat, f: Filter, i: nat)
    requires f.Valid() && i < f.order && b + f.order < |s| && Narrow(s, b + f.order + 1) && 0 < e < 0x8000_0000
    ensures var val, d := Wrap32(s[b] - s[b + f.order - i]), s[b + f.order - i] - s[b];
      && 1 * Sign(val) == (if d > 0 then -1 else if d < 0 then 1 else 0)
      && ErrorAfterTap(e, val, 1 * Sign(val), f, i + 1) == e - Cost(s, b, f.order, f.shift, false, i)
  {
    hide Pow2, Wrap32;
    var d, cost := s[b + f.order - i] - s[b], Cost(s, b, f.order, f.shift, false, i);
    CostBound(s, b, f.order, f.shift, false, i);
    Wrap32Fits(-d);
    Wrap32Fits(Abs(d));
    Wrap32Fits(cost);
    Wrap32Fits(e - cost);
    Signs(-d);
  }

  /** And to a negative one: the other way round, the cost rounded up. */
  lemma TapOfNegative(e: int, s: seq<int>, b: nat, f: Filter, i: nat)
    requires f.Valid() && i < f.order && b + f.order < |s| && Narrow(s, b + f.order + 1) && -0x8000_0000 <= e < 0
    ensures var val, d := Wrap32(s[b] - s[b + f.order - i]), s[b + f.order - i] - s[b];
      && -1 * Sign(val) == (if d > 0 then 1 else if d < 0 then -1 else 0)
      && ErrorAfterTap(e, val, -1 * Sign(val), f, i + 1) == e + Cost(s, b, f.order, f.shift, true, i)
  {
    hide Pow2, Wrap32, Times, Steps;
    var d, unit, cost: int := s[b + f.order - i] - s[b], Pow2(f.shift), Cost(s, b, f.order, f.shift, true, i);
    CostBound(s, b, f.order, f.shift, true, i);
    CostRoundedUp(Abs(d), unit, f.order - i);
    Wrap32Fits(-d);
    Wrap32Fits(0 - Abs(d));
    Wrap32Fits(-cost);
    Wrap32Fits(e + cost);
    Signs(-d);
  }

  lemma NegatedProduct(a: int, b: int)
    ensures (-a) * b == -(a * b)
  {
  }

  lemma Signs(x: int)
    ensures x * (1 * Sign(x)) == Abs(x) && x * (-1 * Sign(x)) == 0 - Abs(x)
  {
  }

  /**
   A positive residual moves coefficient `j` by one towards the difference of its tap, exactly as long as
   the taps before it have not used the residual up; taps are gone through from the last one down.
   */
  lemma {:induction false} PositiveMoves(e: int, s: seq<int>, b: nat, table: seq<int>, f: Filter, tap: nat, j: nat)
    requires f.Valid() && j < tap <= f.order <= |table| && b + f.order < |s| && Narrow(s, b + f.order + 1)
    requires e < 0x8000_0000
    ensures var t, d := Adapted(e, 1, s, b, table, f, tap), s[b + f.order - j] - s[b];
      t[j] == if e > Spent(s, b, f.order, f.shift, false, j, tap)
        then Wrap16(table[j] + if d > 0 then 1 else if d < 0 then -1 else 0) else table[j]
    decreases tap
  {
    hide ErrorAfterTap, Wrap32, Wrap16, Sign, Cost, Narrow;
    if e > 0 {
      var i, val := tap - 1, Wrap32(s[b] - s[b + f.order - (tap - 1)]);
      TapOfPositive(e, s, b, f, i);
      var next := table[i := Wrap16(table[i] - 1 * Sign(val))];
      var e' := e - Cost(s, b, f.order, f.shift, false, i);
      if j < i {
        PositiveMoves(e', s, b, next, f, i, j);
      } else {
        HigherKept(e', 1, s, b, next, f, i, j);
      }
    }
  }

  lemma {:induction false} HigherKept(e: int, direction: int, s: seq<int>, b: nat, table: seq<int>, f: Filter, tap: nat,
                                      j: nat)
    requires f.Valid() && tap <= j < |table| && tap <= f.order <= |table| && b + f.order < |s|
    ensures Adapted(e, direction, s, b, table, f, tap)[j] == table[j]
    decreases tap
  {
    hide ErrorAfterTap, Wrap32, Wrap16, Sign;
    if tap > 0 && Remaining(e, direction) {
      var val := Wrap32(s[b] - s[b + f.order - (tap - 1)]);
      var sign := direction * Sign(val);
      HigherKept(ErrorAfterTap(e, val, sign, f, tap), direction, s, b, table[tap - 1 := Wrap16(table[tap - 1] - sign)],
                 f, tap - 1, j);
    }
  }

  /** A negative residual moves it the other way. */
  lemma {:induction false} NegativeMoves(e: int, s: seq<int>, b: nat, table: seq<int>, f: Filter, tap: nat, j: nat)
    requires f.Valid() && j < tap <= f.order <= |table| && b + f.order < |s| && Narrow(s, b + f.order + 1)
    requires e >= -0x8000_0000
    ensures var t, d := Adapted(e, -1, s, b, table, f, tap), s[b + f.order - j] - s[b];
      t[j] == if -e > Spent(s, b, f.order, f.shift, true, j, tap)
        then Wrap16(table[j] - if d > 0 then 1 else if d < 0 then -1 else 0) else table[j]
    decreases tap
  {
    hide ErrorAfterTap, Wrap32, Wrap16, Sign, Cost, Narrow;
    if e < 0 {
      var i, val := tap - 1, Wrap32(s[b] - s[b + f.order - (tap - 1)]);
      TapOfNegative(e, s, b, f, i);
      var next := table[i := Wrap16(table[i] - -1 * Sign(val))];
      var e' := e + Cost(s, b, f.order, f.shift, true, i);
      if j < i {
        NegativeMoves(e', s, b, next, f, i, j);
      } else {
        HigherKept(e', -1, s, b, next, f, i, j);
      }
    }
  }

  /** The coefficients are 16-bit numbers throughout. */
  lemma {:induction false} StaysShort(e: int, direction: int, s: seq<int>, b: nat, table: seq<int>, f: Filter, tap: nat,
                                      j: nat)
    requires f.Valid() && tap <= f.order <= |table| && b + f.order < |s| && j < |table| && -0x8000 <= table[j] < 0x8000
    ensures -0x8000 <= Adapted(e, direction, s, b, table, f, tap)[j] < 0x8000
    decreases tap
  {
    hide ErrorAfterTap, Wrap32, Wrap16, Sign;
    if tap > 0 && Remaining(e, direction) {
      var val := Wrap32(s[b] - s[b + f.order - (tap - 1)]);
      var sign := direction * Sign(val);
      ShortAgain(table[tap - 1] - sign);
      StaysShort(ErrorAfterTap(e, val, sign, f, tap), direction, s, b, table[tap - 1 := Wrap16(table[tap - 1] - sign)],
                 f, tap - 1, j);
    }
  }

  lemma ShortAgain(x: int)
    ensures -0x8000 <= Wrap16(x) < 0x8000
  {
  }

  lemma {:induction false} TableShort(errors: seq<int>, s: seq<int>, f: Filter, i: nat, j: nat)
    requires f.Valid() && i <= |errors| && i <= |s| && j < |f.coefficients| && -0x8000 <= f.coefficients[j] < 0x8000
    ensures -0x8000 <= TableAt(errors, s, f, i)[j] < 0x8000
    decreases i
  {
    if i > f.order + 1 {
      TableShort(errors, s, f, i - 1, j);
      var e := errors[i - 1];
      StaysShort(e, Sign(e), s, i - 2 - f.order, TableAt(errors, s, f, i - 1), f, f.order, j);
    }
  }

  /**
   The law of the sign-LMS filter. After sample `i - 1` the residual of that sample moves coefficient
   `j` by one, up if residual and difference have the same sign, down if they have not, and not at all
   if either is 0 or the taps behind `j` have used the residual up: each by the steps in its difference
   times its weight, rounded down for a positive residual and up for a negative one.
   */
  lemma CoefficientMoves(errors: seq<int>, s: seq<int>, f: Filter, i: nat, j: nat)
    requires f.Valid() && f.order + 1 < i <= |errors| && i <= |s| && j < f.order && Narrow(s, i)
    requires -0x8000 <= f.coefficients[j] < 0x8000 && -0x8000_0000 <= errors[i - 1] < 0x8000_0000
    ensures var before, after := TableAt(errors, s, f, i - 1)[j], TableAt(errors, s, f, i)[j];
      var e, d := errors[i - 1], s[i - 2 - j] - s[i - 2 - f.order];
      var used := Spent(s, i - 2 - f.order, f.order, f.shift, e < 0, j, f.order);
      && (Abs(e) <= used || d == 0 ==> after == before)
      && (Abs(e) > used && ((e > 0 && d > 0) || (e < 0 && d < 0)) ==> after == Wrap16(before + 1))
      && (Abs(e) > used && ((e > 0 && d < 0) || (e < 0 && d > 0)) ==> after == Wrap16(before - 1))
  {
    hide Spent, Adapted, Wrap16, Cost;
    var b, table, e := i - 2 - f.order, TableAt(errors, s, f, i - 1), errors[i - 1];
    TableShort(errors, s, f, i - 1, j);
    Short(table[j]);
    if e > 0 {
      PositiveMoves(e, s, b, table, f, f.order, j);
    } else if e < 0 {
      NegativeMoves(e, s, b, table, f, f.order, j);
    } else {
      NoneMoves(s, b, table, f);
    }
  }

  lemma Short(x: int)
    requires -0x8000 <= x < 0x8000
    ensures Wrap16(x) == x
  {
  }

  lemma NoneMoves(s: seq<int>, b: nat, table: seq<int>, f: Filter)
    requires f.Valid() && f.order <= |table| && b + f.order < |s|
    ensures Adapted(0, Sign(0), s, b, table, f, f.order) == table
  {
  }

  // ---------- the prediction ----------

  /** The weighted sum of the differences of the first `j` taps, as a number. */
  function Dot(s: seq<int>, b: nat, table: seq<int>, order: nat, j: nat): int
    requires j <= order <= |table| && b + order < |s|
  {
    if j == 0 then 0 else Dot(s, b, table, order, j - 1) + table[j - 1] * (s[b + order - (j - 1)] - s[b])
  }

  lemma WrapSum(a: int, d: int, c: int)
    ensures Wrap32(Wrap32(a) + Wrap32(Wrap32(d) * c)) == Wrap32(a + c * d)
  {
    var m, n := (a + 0x8000_0000) / 0x1_0000_0000, (d + 0x8000_0000) / 0x1_0000_0000;
    var p := Wrap32(d) * c;
    var k := (p + 0x8000_0000) / 0x1_0000_0000;
    assert Wrap32(a) == a - m * 0x1_0000_0000 && Wrap32(p) == p - k * 0x1_0000_0000;
    assert Wrap32(d) == d - n * 0x1_0000_0000;
    hide Wrap32;
    Spread(d, n * 0x1_0000_0000, c);
    assert p == c * d - (n * c) * 0x1_0000_0000;
    Wrap32Congruent(Wrap32(a) + Wrap32(p), a + c * d, -m - k - n * c);
  }

  lemma Spread(d: int, m: int, c: int)
    ensures (d - m) * c == c * d - m * c
  {
  }

  /** However it wraps in between, the sum of the code is the number modulo 2^32. */
  lemma {:induction false} TapSumIsDot(s: seq<int>, b: nat, table: seq<int>, order: nat, j: nat)
    requires j <= order <= |table| && b + order < |s|
    ensures TapSum(s, b, table, order, j) == Wrap32(Dot(s, b, table, order, j))
  {
    hide Wrap32;
    if j > 0 {
      TapSumIsDot(s, b, table, order, j - 1);
      WrapSum(Dot(s, b, table, order, j - 1), s[b + order - (j - 1)] - s[b], table[j - 1]);
    } else {
      Wrap32Fits(0);
    }
  }

  /**
   Where the sum fits int32, the prediction is the first sample of the window moved by the sum in units
   of 2^shift, rounded to the nearest.
   */
  lemma PredictionIsNearest(s: seq<int>, b: nat, table: seq<int>, order: nat, shift: nat)
    requires order <= |table| && b + order < |s| && 1 <= shift <= 15 && -0x100_0000 <= s[b] < 0x100_0000
    requires -0x8000_0000 <= Dot(s, b, table, order, order) < 0x8000_0000 - Pow2(shift - 1)
    ensures var p, half: int := Prediction(s, b, table, order, shift), Pow2(shift - 1);
      -half < Pow2(shift) * (p - s[b]) - Dot(s, b, table, order, order) <= half && Pow2(shift) == 2 * half
  {
    hide Wrap32, TapSum, Dot;
    var dot, half, unit := Dot(s, b, table, order, order), Pow2(shift - 1), Pow2(shift);
    TapSumIsDot(s, b, table, order, order);
    Wrap32Fits(dot);
    Wrap32Fits(half + dot);
    hide Pow2;
    var q := (half + dot) / unit;
    Halved(half + dot, unit);
    Wrap32Fits(q + s[b]);
  }

  lemma Halved(x: int, unit: nat)
    requires unit >= 2 && -0x8000_0000 <= x < 0x8000_0000
    ensures var q := x / unit; unit * q <= x < unit * q + unit && -0x4000_0000 <= q < 0x4000_0000
  {
    var q := x / unit;
    assert unit * q <= x < unit * q + unit;
    Grows(unit - 2, if q < 0 then -q - 1 else q);
    assert unit * q == 2 * q + (unit - 2) * q;
    assert q < 0 ==> (unit - 2) * q == -((unit - 2) * (-q - 1)) - (unit - 2);
  }

  lemma Grows(a: nat, b: nat)
    ensures a * b >= 0
  {
  }

  // ---------- the samples ----------

  lemma InRangeStays(x: int, size: nat)
    requires 1 <= size <= 32 && FitsSigned(x, size)
    ensures SignExtended32(Wrap32(x), size) == x
  {
    hide *;
    SignExtension(Wrap32(x), size);
    WrapCongruent(x, size);
    CongruentTransitive(SignExtended32(Wrap32(x), size), Wrap32(x), x, 2 * Pow2(size - 1));
    SameSigned(SignExtended32(Wrap32(x), size), x, size);
  }

  /**
   What a decoded sample is: its residual added to the prediction. That is 0 for the first sample and
   without coefficients, the sample before in the warm-up and for differences only, and otherwise what
   lies nearest to the weighted sum of differences, with the coefficients learnt so far.
   */
  lemma SampleIs(errors: seq<int>, s: seq<int>, f: Filter, i: nat) returns (p: int)
    requires f.Valid() && Decodes(errors, s, f) && i < |s|
    ensures i == 0 || f.order == 0 || FitsSigned(p + errors[i], f.size) ==> s[i] == p + errors[i]
    ensures i == 0 || f.order == 0 ==> p == 0
    ensures i > 0 && f.order > 0 && (f.order == 31 || i <= f.order) ==> p == s[i - 1]
    ensures 0 < f.order < 31 && i > f.order && -0x100_0000 <= s[i - 1 - f.order] < 0x100_0000 ==>
      var b, unit: int := i - 1 - f.order, Pow2(f.shift);
      var dot := Dot(s, b, TableAt(errors, s, f, i), f.order, f.order);
      -0x8000_0000 <= dot < 0x8000_0000 - Pow2(f.shift - 1) ==> -unit < 2 * (unit * (p - s[b]) - dot) <= unit
  {
    hide Dot, TapSum, Wrap32, Pow2, SignExtended32, Prediction, FitsSigned, TableAt;
    p := PredictionAt(errors, s, f, i);
    assert s[i] == SampleFrom(errors[i], p, f, i);
    if !Copied(f, i) && FitsSigned(p + errors[i], f.size) {
      InRangeStays(p + errors[i], f.size);
    }
    if 0 < f.order < 31 && i > f.order && -0x100_0000 <= s[i - 1 - f.order] < 0x100_0000 {
      var b, table := i - 1 - f.order, TableAt(errors, s, f, i);
      if -0x8000_0000 <= Dot(s, b, table, f.order, f.order) < 0x8000_0000 - Pow2(f.shift - 1) {
        PredictionIsNearest(s, b, table, f.order, f.shift);
      }
    }
  }

  /** The coefficients are those of the frame until the first sample behind the warm-up has been decoded. */
  lemma FirstCoefficients(errors: seq<int>, s: seq<int>, f: Filter, i: nat)
    requires f.Valid() && i <= f.order + 1 && i <= |errors| && i <= |s|
    ensures TableAt(errors, s, f, i) == f.coefficients
  {
  }
}

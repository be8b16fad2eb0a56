/** Two streams of residuals and their codes, bit by bit. */
module AlacExamples {
  import opened Numbers
  import opened AlacRice

  const STREAM := RiceParameters(16, 14, 40)
  const RESIDUALS := [1, 0, 0, -3, 20, 2]

  /** The parameters and the histories along the stream, which starts at history 10. */
  lemma Parameters()
    ensures SampleK(10, 14) == 1 && SampleK(0, 14) == 1 && SampleK(200, 14) == 1 && SampleK(1785, 14) == 2 && RunK(90) == 2
    ensures NextHistory(10, 2, 40) == 90 && NextHistory(0, 5, 40) == 200 && NextHistory(200, 40, 40) == 1785
    ensures NextHistory(1785, 4, 40) == 1806
  {
    assert Pow2(0) == 1 && Pow2(1) == 2 && Pow2(2) == 4 && Pow2(3) == 8;
    hide SampleK, RunK, NextHistory, Pow2;
    forall j: nat | j >= 3
      ensures Pow2(j) >= 8
    {
      Pow2Monotone(3, j);
    }
    SampleKIs(10, 14, 1);
    SampleKIs(0, 14, 1);
    SampleKIs(200, 14, 1);
    SampleKIs(1785, 14, 2);
    RunKIs(90);
    NextHistoryIs(10, 2, 40);
    NextHistoryIs(0, 5, 40);
    NextHistoryIs(200, 40, 40);
    NextHistoryIs(1785, 4, 40);
  }

  lemma FortyIn16Bits()
    ensures Field(40, 16) ==
      [false, false, false, false, false, false, false, false, false, false, true, false, true, false, false, false]
  {
    assert Field(5, 3) == [true, false, true];
    assert Field(40, 6) == Field(5, 3) + [false, false, false];
    FieldLeading(40, 6, 10);
  }

  lemma {:induction false} FieldLeading(v: nat, width: nat, zeros: nat)
    requires v < Pow2(width)
    ensures Field(v, width + zeros) == seq(zeros, _ => false) + Field(v, width)
    decreases width
  {
    if width > 0 {
      FieldLeading(v / 2, width - 1, zeros);
    } else {
      NoBits(zeros);
    }
  }

  lemma {:induction false} NoBits(n: nat)
    ensures Field(0, n) == seq(n, _ => false)
  {
    if n > 0 {
      NoBits(n - 1);
    }
  }

  lemma Codes()
    ensures RiceCode(2, 16, 1, 32) == [true, true, false]
    ensures RiceCode(2, 16, 2, 14) == [false, true, true]
    ensures RiceCode(4, 16, 1, 32) == [true, true, true, true, false]
    ensures RiceCode(40, 16, 1, 32) == [true, true, true, true, true, true, true, true, true] + Field(40, 16)
    ensures RiceCode(4, 16, 2, 32) == [true, false, true, false]
  {
    assert Pow2(2) == 4;
  }

  lemma Fits16(x: int)
    requires -0x8000 <= x < 0x8000
    ensures FitsSigned(x, 16)
  {
    Pow2Values();
    Pow2Monotone(15, 16);
    assert Pow2(16) == 2 * Pow2(15);
  }

  lemma Zeros()
    ensures ZeroRun(RESIDUALS, 1) == 2
  {
  }

  lemma CanBeSent()
    ensures Encodable(RESIDUALS, 0, STREAM, 10, 0)
  {
    hide FitsSigned, NextHistory, ZeroRun;
    Parameters();
    Zeros();
    forall i | 0 <= i < 6
      ensures FitsSigned(RESIDUALS[i], 16)
    {
      Fits16(RESIDUALS[i]);
    }
    assert Calm(RESIDUALS, 6, STREAM, 1806);
    assert Calm(RESIDUALS, 5, STREAM, 1785);
    assert Calm(RESIDUALS, 4, STREAM, 200);
    assert Calm(RESIDUALS, 3, STREAM, 0);
  }

  /** The residuals 1, 0, 0, -3, 20 and 2 are 40 bits. */
  lemma KnownCode()
    ensures Encodable(RESIDUALS, 0, STREAM, 10, 0)
    ensures EncodeResiduals(RESIDUALS, 0, STREAM, 10, 0) ==
      [true, true, false]                                                          // 1
      + [false, true, true]                                                        // two zeros
      + [true, true, true, true, false]                                            // -3, one less since it is not 0
      + [true, true, true, true, true, true, true, true, true, false, false, false, false, false, false, false, false,
         false, false, true, false, true, false, false, false]                     // 20, as 40 in 16 bits
      + [true, false, true, false]                                                 // 2, with parameter 2
  {
    CanBeSent();
    Parameters();
    Zeros();
    Codes();
    FortyIn16Bits();
    hide SampleK, RunK, NextHistory, RiceCode, Calm, Field, FitsSigned, ZeroRun;
    var r := RESIDUALS;
    var s0 := SendNext(r, 0, STREAM, 10, 0);
    assert s0 == Sent([true, true, false], [false, true, true], 3, 0, 1);
    var s3 := SendNext(r, 3, STREAM, 0, 1);
    assert s3 == Sent([true, true, true, true, false], [], 4, 200, 0);
    var s4 := SendNext(r, 4, STREAM, 200, 0);
    assert s4 == Sent([true, true, true, true, true, true, true, true, true] + Field(40, 16), [], 5, 1785, 0);
    var s5 := SendNext(r, 5, STREAM, 1785, 0);
    assert s5 == Sent([true, false, true, false], [], 6, 1806, 0);
    assert EncodeResiduals(r, 6, STREAM, 1806, 0) == [];
    assert EncodeResiduals(r, 5, STREAM, 1785, 0) == s5.sample;
    assert EncodeResiduals(r, 4, STREAM, 200, 0) == s4.sample + s5.sample;
    assert EncodeResiduals(r, 3, STREAM, 0, 1) == s3.sample + (s4.sample + s5.sample);
  }

  // ---------- a run with a short mask ----------

  const MASKED := RiceParameters(16, 2, 1)
  const QUIET := [0, 0, 0, 0, 0, 2]

  lemma QuietParameters()
    ensures SampleK(10, 2) == 1 && SampleK(0, 2) == 1 && RunK(10) == 4
    ensures NextHistory(10, 0, 1) == 10 && NextHistory(0, 4, 1) == 4
  {
    assert Pow2(1) == 2 && Pow2(2) == 4;
    hide SampleK, RunK, NextHistory, Pow2;
    SampleKIs(10, 2, 1);
    SampleKIs(0, 2, 1);
    RunKIs(10);
    NextHistoryIs(10, 0, 1);
    NextHistoryIs(0, 4, 1);
  }

  lemma QuietCanBeSent()
    ensures ZeroRun(QUIET, 1) == 4 && Encodable(QUIET, 0, MASKED, 10, 0)
  {
    hide FitsSigned, NextHistory;
    QuietParameters();
    assert ZeroRun(QUIET, 5) == 0;
    assert ZeroRun(QUIET, 3) == 2;
    forall i | 0 <= i < 6
      ensures FitsSigned(QUIET[i], 16)
    {
      Fits16(QUIET[i]);
    }
    assert Calm(QUIET, 6, MASKED, 4);
    assert Calm(QUIET, 5, MASKED, 0);
  }

  lemma QuietCodes()
    ensures RiceCode(0, 16, 1, 32) == [false]
    ensures RiceCode(4, 16, 4, 2) == [true, false, false, false, true, false]
    ensures RiceCode(3, 16, 1, 32) == [true, true, true, false]
  {
    assert Pow2(2) == 4;
    assert Field(2, 4) == [false, false, true, false];
  }

  /** The modifier masks the unit of a run, but not that of a sample: four zeros are one unit of 3 and one. */
  lemma KnownMaskedCode()
    ensures Encodable(QUIET, 0, MASKED, 10, 0)
    ensures EncodeResiduals(QUIET, 0, MASKED, 10, 0) ==
      [false]                                          // 0
      + [true, false, false, false, true, false]       // four zeros
      + [true, true, true, false]                      // 2, one less since it is not 0
  {
    QuietCanBeSent();
    QuietParameters();
    QuietCodes();
    hide SampleK, RunK, NextHistory, RiceCode, Calm, Field, FitsSigned, ZeroRun;
    var s0 := SendNext(QUIET, 0, MASKED, 10, 0);
    assert s0 == Sent([false], [true, false, false, false, true, false], 5, 0, 1);
    var s5 := SendNext(QUIET, 5, MASKED, 0, 1);
    assert s5 == Sent([true, true, true, false], [], 6, 4, 0);
    assert EncodeResiduals(QUIET, 6, MASKED, 4, 0) == [];
    assert EncodeResiduals(QUIET, 5, MASKED, 0, 1) == s5.sample;
  }
}

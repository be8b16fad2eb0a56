/** The statistics of the player thread: running sums over the entries of a circular buffer. */
module PlayerStatistics {

  const TREND_INTERVAL: nat := 1003

  datatype Entry = Entry(syncError: int, correction: int, drift: int)

  function Abs(x: int): nat
  {
    if x < 0 then -x else x
  }

  datatype Sums = Sums(syncErrors: int, drifts: int, corrections: int, insertionsAndDeletions: int)

  function Plus(s: Sums, e: Entry): Sums
  {
    Sums(s.syncErrors + e.syncError, s.drifts + e.drift, s.corrections + e.correction,
         s.insertionsAndDeletions + Abs(e.correction))
  }

  function SumsOf(entries: seq<Entry>): Sums
  {
    if |entries| == 0 then Sums(0, 0, 0, 0) else Plus(SumsOf(entries[..|entries| - 1]), entries[|entries| - 1])
  }

  /** Leaving out the first entry takes just that entry off the sums. */
  lemma {:induction false} SumsWithoutFirst(entries: seq<Entry>)
    requires |entries| > 0
    ensures Plus(SumsOf(entries[1..]), entries[0]) == SumsOf(entries)
  {
    if |entries| > 1 {
      var init := entries[..|entries| - 1];
      SumsWithoutFirst(init);
      assert entries[1..][..|entries| - 2] == init[1..];
    }
  }

  // ---------- the whole history ----------

  datatype Sample = Sample(syncError: int, correction: int)

  /** The entries made for a history of samples: a drift is a change of sync error not made by the correction before it. */
  function Entries(h: seq<Sample>): (e: seq<Entry>)
    ensures |e| == |h|
  {
    if |h| == 0 then []
    else
      var x := h[|h| - 1];
      var drift := if |h| == 1 then 0 else x.syncError - h[|h| - 2].syncError - h[|h| - 2].correction;
      Entries(h[..|h| - 1]) + [Entry(x.syncError, x.correction, drift)]
  }

  function Min(a: nat, b: nat): nat
  {
    if a < b then a else b
  }

  /** The entries of the last 1003 samples. */
  function Latest(h: seq<Sample>): (e: seq<Entry>)
    ensures |e| == Min(|h|, TREND_INTERVAL)
  {
    Entries(h)[|h| - Min(|h|, TREND_INTERVAL)..]
  }

  function Corrections(h: seq<Sample>, i: nat, j: nat): int
    requires i <= j <= |h|
  {
    if i == j then 0 else Corrections(h, i, j - 1) + h[j - 1].correction
  }

  lemma {:induction false} EntryAt(h: seq<Sample>, i: nat)
    requires i < |h|
    ensures var e := Entries(h)[i];
      e.syncError == h[i].syncError && e.correction == h[i].correction
      && e.drift == if i == 0 then 0 else h[i].syncError - h[i - 1].syncError - h[i - 1].correction
  {
    if i < |h| - 1 {
      EntryAt(h[..|h| - 1], i);
    }
  }

  /**
   The drifts telescope: those of samples `i` (not the first) to before `j` add up to the change of
   sync error over them, less the corrections made in between.
   */
  lemma {:induction false} DriftTelescopes(h: seq<Sample>, i: nat, j: nat)
    requires 0 < i <= j <= |h|
    ensures SumsOf(Entries(h)[i..j]).drifts ==
      h[j - 1].syncError - h[i - 1].syncError - Corrections(h, i - 1, j - 1)
    decreases j - i
  {
    if i < j {
      DriftTelescopes(h, i, j - 1);
      EntryAt(h, j - 1);
      var part := Entries(h)[i..j];
      assert part[..|part| - 1] == Entries(h)[i..j - 1];
    }
  }

  lemma LatestIs(h: seq<Sample>)
    requires |h| > 0
    ensures |h| <= TREND_INTERVAL ==> Latest(h) == Entries(h) && Entries(h)[1..] == Entries(h)[1..|h|]
    ensures |h| > TREND_INTERVAL ==> Latest(h) == Entries(h)[|h| - TREND_INTERVAL..|h|]
  {
    hide Entries;
    Slices(Entries(h), Entries(h)[0], if |h| <= TREND_INTERVAL then 1 else |h| - TREND_INTERVAL);
  }

  lemma NothingYet()
    ensures Latest([]) == [] && SumsOf([]) == Sums(0, 0, 0, 0)
  {
  }

  /** The sum of drifts of the last 1003 entries is the difference of the end-point sync errors less the corrections between. */
  lemma DriftOfLatest(h: seq<Sample>)
    requires |h| > 0
    ensures var i := if |h| <= TREND_INTERVAL then 1 else |h| - TREND_INTERVAL;
      SumsOf(Latest(h)).drifts == h[|h| - 1].syncError - h[i - 1].syncError - Corrections(h, i - 1, |h| - 1)
  {
    hide Entries, SumsOf, Corrections, Latest;
    LatestIs(h);
    if |h| <= TREND_INTERVAL {
      DriftTelescopes(h, 1, |h|);
      EntryAt(h, 0);
      SumsWithoutFirst(Entries(h));
    } else {
      DriftTelescopes(h, |h| - TREND_INTERVAL, |h|);
    }
  }

  lemma EntriesStep(h: seq<Sample>, x: Sample)
    ensures Entries(h + [x]) == Entries(h) + [Entries(h + [x])[|h|]]
  {
    assert (h + [x])[..|h + [x]| - 1] == h;
  }

  lemma Slices(all: seq<Entry>, e: Entry, k: nat)
    requires k <= |all|
    ensures (all + [e])[k..] == all[k..] + [e] && all[0..] == all && all[k..|all|] == all[k..]
    ensures k < |all| ==> all[k..][1..] == all[k + 1..]
  {
  }

  lemma LatestStep(h: seq<Sample>, x: Sample)
    ensures Latest(h + [x]) ==
      (if |h| >= TREND_INTERVAL then Latest(h)[1..] else Latest(h)) + [Entries(h + [x])[|h|]]
  {
    hide Entries;
    EntriesStep(h, x);
    var all, e := Entries(h), Entries(h + [x])[|h|];
    if |h| >= TREND_INTERVAL {
      Slices(all, e, |h| + 1 - TREND_INTERVAL);
      Slices(all, e, |h| - TREND_INTERVAL);
    } else {
      Slices(all, e, 0);
    }
  }

  // ---------- the circular buffer ----------

  class Statistics {
    const statistics: array<Entry>
    var number: nat
    var oldest: nat
    var newest: nat
    var sums: Sums
    var previousSyncError: int
    var previousCorrection: int
    ghost var history: seq<Sample>

    /** The buffer holds these entries, from the oldest on, and the running sums are theirs. */
    ghost predicate Keeps(entries: seq<Entry>)
      reads this, statistics
    {
      && statistics.Length == TREND_INTERVAL && oldest < TREND_INTERVAL && number == |entries| <= TREND_INTERVAL
      && newest == Slot(oldest, number) && sums == SumsOf(entries)
      && forall k | 0 <= k < |entries| :: statistics[Slot(oldest, k)] == entries[k]
    }

    /** The buffer keeps the entries of the last 1003 samples. */
    ghost predicate Valid()
      reads this, statistics
    {
      && Keeps(Latest(history))
      && (|history| > 0 ==>
            previousSyncError == history[|history| - 1].syncError
              && previousCorrection == history[|history| - 1].correction)
    }

    constructor ()
      ensures Valid() && history == [] && fresh(statistics)
    {
      hide Latest, SumsOf, Slot;
      NothingYet();
      FirstSlot(0);
      statistics := new Entry[TREND_INTERVAL];
      number, oldest, newest, sums := 0, 0, 0, Sums(0, 0, 0, 0);
      previousSyncError, previousCorrection, history := 0, 0, [];
    }

    /** Takes the oldest entry out of a full buffer and off the sums. */
    method Forget(ghost entries: seq<Entry>)
      requires Keeps(entries) && |entries| == TREND_INTERVAL
      modifies `sums, `oldest, `number
      ensures Keeps(entries[1..])
    {
      hide Slot, SumsOf;
      SumsWithoutFirst(entries);
      FirstSlot(oldest);
      forall k | 0 <= k < |entries|
        ensures k > 0 ==> Slot((oldest + 1) % TREND_INTERVAL, k - 1) == Slot(oldest, k)
      {
        NextSlot(oldest, k);
      }
      var e := statistics[oldest];
      sums := sums.(syncErrors := sums.syncErrors - e.syncError, drifts := sums.drifts - e.drift);
      if e.correction > 0 {
        sums := sums.(insertionsAndDeletions := sums.insertionsAndDeletions - e.correction);
      } else {
        sums := sums.(insertionsAndDeletions := sums.insertionsAndDeletions + e.correction);
      }
      sums := sums.(corrections := sums.corrections - e.correction);
      NextSlot(oldest, TREND_INTERVAL);
      oldest := (oldest + 1) % TREND_INTERVAL;
      number := number - 1;
    }

    /** Puts an entry behind the newest and adds it to the sums. */
    method Add(syncError: int, amountStuffed: int, drift: int, ghost entries: seq<Entry>)
      requires Keeps(entries) && |entries| < TREND_INTERVAL
      modifies `sums, `newest, `number, statistics
      ensures Keeps(entries + [Entry(syncError, amountStuffed, drift)])
    {
      hide Slot, SumsOf;
      SumsWithLast(entries, Entry(syncError, amountStuffed, drift));
      forall k | 0 <= k < |entries|
        ensures Slot(oldest, k) != newest
      {
        SlotsDistinct(oldest, k, |entries|);
      }
      SlotAfter(oldest, number);
      statistics[newest] := Entry(syncError, amountStuffed, drift);
      sums := sums.(syncErrors := sums.syncErrors + syncError, drifts := sums.drifts + statistics[newest].drift);
      if amountStuffed > 0 {
        sums := sums.(insertionsAndDeletions := sums.insertionsAndDeletions + amountStuffed);
      } else {
        sums := sums.(insertionsAndDeletions := sums.insertionsAndDeletions - amountStuffed);
      }
      sums := sums.(corrections := sums.corrections + amountStuffed);
      newest := (newest + 1) % TREND_INTERVAL;
      number := number + 1;
    }

    /** The statistics part of the player loop, for a frame played with this sync error and correction. */
    method Record(syncError: int, amountStuffed: int)
      requires Valid()
      modifies this, statistics
      ensures Valid() && history == old(history) + [Sample(syncError, amountStuffed)]
    {
      hide Slot, SumsOf, Entries, Latest;
      ghost var h, x := history, Sample(syncError, amountStuffed);
      LatestStep(h, x);
      EntryAt(h + [x], |h|);
      if number == TREND_INTERVAL {
        Forget(Latest(h));
      }
      var drift := if number == 0 then 0 else syncError - previousSyncError - previousCorrection;
      Add(syncError, amountStuffed, drift, if |h| >= TREND_INTERVAL then Latest(h)[1..] else Latest(h));
      previousSyncError, previousCorrection := syncError, amountStuffed;
      history := h + [x];
    }
  }

  /** The slot of entry `k`, counted from the oldest. */
  function Slot(oldest: nat, k: nat): (i: nat)
    ensures i < TREND_INTERVAL
  {
    (oldest + k) % TREND_INTERVAL
  }

  lemma FirstSlot(oldest: nat)
    requires oldest < TREND_INTERVAL
    ensures Slot(oldest, 0) == oldest
  {
  }

  lemma NextSlot(oldest: nat, k: nat)
    requires oldest < TREND_INTERVAL && k <= TREND_INTERVAL
    ensures k > 0 ==> Slot((oldest + 1) % TREND_INTERVAL, k - 1) == Slot(oldest, k)
  {
  }

  lemma SlotAfter(oldest: nat, k: nat)
    ensures (Slot(oldest, k) + 1) % TREND_INTERVAL == Slot(oldest, k + 1)
  {
  }

  lemma SlotsDistinct(oldest: nat, i: nat, k: nat)
    requires i < k < i + TREND_INTERVAL
    ensures Slot(oldest, i) != Slot(oldest, k)
  {
    var p, q := (oldest + i) / TREND_INTERVAL, (oldest + k) / TREND_INTERVAL;
    assert k - i == (q - p) * TREND_INTERVAL + (Slot(oldest, k) - Slot(oldest, i));
  }

  lemma SumsWithLast(entries: seq<Entry>, e: Entry)
    ensures SumsOf(entries + [e]) == Plus(SumsOf(entries), e)
  {
    assert (entries + [e])[..|entries + [e]| - 1] == entries;
  }
}

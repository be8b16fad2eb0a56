/** The search for missing packets that ends every `player_put_packet`, and the resend requests it makes. */
module PlayerResends {
  import opened PlayerSlots

  /** The current time and the limits of the resend checks, in unsigned 64-bit nanoseconds. */
  datatype Clock = Clock(now: nat, latency: nat, minimumRemaining: nat, minimumWait: nat, repeatInterval: nat)

  function Minus64(a: nat, b: nat): (d: nat)
    ensures a < 0x1_0000_0000_0000_0000 && b <= a ==> d == a - b
    ensures a < b < 0x1_0000_0000_0000_0000 ==> d == a + 0x1_0000_0000_0000_0000 - b
  {
    (a - b) % 0x1_0000_0000_0000_0000
  }

  predicate TooLate(s: Slot, c: Clock)
  {
    var deadline := Minus64(c.now, c.latency);
    s.initTime < deadline || Minus64(s.initTime, deadline) < c.minimumRemaining
  }

  predicate TooEarly(s: Slot, c: Clock)
  {
    Minus64(c.now, s.initTime) < c.minimumWait
  }

  predicate TooSoon(s: Slot, c: Clock)
  {
    s.resendTime != 0 && Minus64(c.now, s.resendTime) < c.repeatInterval
  }

  /** A missing packet that will be asked for now. */
  predicate DueSlot(s: Slot, c: Clock)
  {
    !s.ready && !TooSoon(s, c) && !TooLate(s, c) && !TooEarly(s, c)
  }

  function Stamp(s: Slot, c: Clock): Slot
  {
    if DueSlot(s, c) then s.(resendTime := c.now, resends := s.resends + 1) else s
  }

  /** Times that do not wrap: the latency reaches back to the start of the clock at most, and nothing is ahead of now. */
  predicate Steady(s: Slot, c: Clock)
  {
    c.latency <= c.now < 0x1_0000_0000_0000_0000 && s.initTime <= c.now && s.resendTime <= c.now
  }

  /**
   A missing packet is asked for if it has been missed for the minimum wait, it was not asked for within the
   repeat interval, and what remains of the latency since it was missed is not less than the minimum.
   */
  lemma DueIs(s: Slot, c: Clock)
    requires Steady(s, c)
    ensures DueSlot(s, c) <==>
      && !s.ready && c.now >= s.initTime + c.minimumWait
      && (s.resendTime == 0 || c.now >= s.resendTime + c.repeatInterval)
      && s.initTime + c.latency >= c.now + c.minimumRemaining
  {
  }

  /** A packet noticed missing at time `t` is asked for from the minimum wait after that on, while enough time remains. */
  lemma NoticedIs(s: Slot, t: nat, c: Clock)
    requires c.latency <= c.now < 0x1_0000_0000_0000_0000 && t <= c.now
    ensures DueSlot(MarkedMissing(s, t), c) <==> c.now >= t + c.minimumWait && t + c.latency >= c.now + c.minimumRemaining
  {
    DueIs(MarkedMissing(s, t), c);
  }

  /** What has been asked for is not asked for again within the repeat interval. */
  lemma NotAskedAgain(s: Slot, c: Clock, d: Clock)
    requires DueSlot(s, c) && 0 < c.now <= d.now < 0x1_0000_0000_0000_0000 && d.now < c.now + d.repeatInterval
    ensures Stamp(s, c).resends == s.resends + 1 && !DueSlot(Stamp(s, c), d) && Stamp(Stamp(s, c), d) == Stamp(s, c)
  {
  }

  // ---------- the window by packet number ----------

  predicate Missing(ring: Ring, n: nat)
  {
    !ring[Idx(n)].ready
  }

  predicate Due(ring: Ring, c: Clock, n: nat)
  {
    DueSlot(ring[Idx(n)], c)
  }

  function CountMissing(ring: Ring, n: nat, w: nat): (k: nat)
    requires n <= w
    ensures k <= w - n
    decreases w - n
  {
    if n == w then 0 else (if Missing(ring, n) then 1 else 0) + CountMissing(ring, n + 1, w)
  }

  function CountDue(ring: Ring, c: Clock, n: nat, w: nat): (k: nat)
    requires n <= w
    ensures k <= w - n
    decreases w - n
  {
    if n == w then 0 else (if Due(ring, c, n) then 1 else 0) + CountDue(ring, c, n + 1, w)
  }

  /** The first missing packet from `n` on, or `w`. */
  function FirstMissing(ring: Ring, n: nat, w: nat): (m: nat)
    requires n <= w
    ensures n <= m <= w && (m < w ==> Missing(ring, m))
    ensures forall k | n <= k < m :: !Missing(ring, k)
    decreases w - n
  {
    if n == w || Missing(ring, n) then n else FirstMissing(ring, n + 1, w)
  }

  predicate NoneMissing(ring: Ring, n: nat, w: nat)
  {
    forall k | n <= k < w :: !Missing(ring, k)
  }

  /** Starting the search later finds the same packets exactly when nothing is missing before that. */
  lemma {:induction false} LaterStart(ring: Ring, n: nat, x: nat, w: nat)
    requires n <= x <= w
    ensures CountMissing(ring, n, w) == CountMissing(ring, x, w) <==> NoneMissing(ring, n, x)
    ensures CountMissing(ring, x, w) <= CountMissing(ring, n, w)
    ensures NoneMissing(ring, n, x) ==> FirstMissing(ring, n, w) == FirstMissing(ring, x, w)
    decreases x - n
  {
    hide Missing;
    if n < x {
      LaterStart(ring, n + 1, x, w);
      assert NoneMissing(ring, n, x) <==> !Missing(ring, n) && NoneMissing(ring, n + 1, x);
    }
  }

  /** The slots after the packets from `x` to before `n` have been stamped. */
  function Stamped(ring: Ring, c: Clock, x: nat, n: nat): Ring
    requires x <= n
    decreases n - x
  {
    if x == n then ring
    else var before := Stamped(ring, c, x, n - 1); before[Idx(n - 1) := Stamp(before[Idx(n - 1)], c)]
  }

  /** Slots are stamped one by one: a slot not reached yet is untouched, and readiness is never touched. */
  lemma {:induction false} StampedSlot(ring: Ring, c: Clock, x: nat, n: nat, m: nat)
    requires x <= n <= x + BUFFER_FRAMES && x <= m < x + BUFFER_FRAMES
    ensures Stamped(ring, c, x, n)[Idx(m)] == if m < n then Stamp(ring[Idx(m)], c) else ring[Idx(m)]
    decreases n - x
  {
    hide Idx, Stamp;
    if x < n {
      StampedSlot(ring, c, x, n - 1, m);
      if m < n - 1 {
        IdxDistinct(m, n - 1);
      } else if n - 1 < m {
        IdxDistinct(n - 1, m);
      }
    }
  }

  // ---------- runs of missing packets ----------

  /** A resend request: `count` packets from number `first` on. */
  datatype Run = Run(first: nat, count: nat)

  /** The requests for the packets from `n` on, given the run being gathered; its count is 0 if there is none. */
  function Runs(ring: Ring, c: Clock, n: nat, w: nat, run: Run): seq<Run>
    requires n <= w
    decreases w - n
  {
    if n == w then []
    else
      var grown := Gathered(ring, c, n, run);
      if Closes(ring, n, w, grown) then [grown] + Runs(ring, c, n + 1, w, Run(0, 0)) else Runs(ring, c, n + 1, w, grown)
  }

  function Gathered(ring: Ring, c: Clock, n: nat, run: Run): Run
  {
    if !Due(ring, c, n) then run else if run.count == 0 then Run(n, 1) else Run(run.first, run.count + 1)
  }

  predicate Closes(ring: Ring, n: nat, w: nat, run: Run)
  {
    (!Missing(ring, n) || n + 1 == w) && run.count > 0
  }

  function Total(runs: seq<Run>): nat
  {
    if |runs| == 0 then 0 else runs[0].count + Total(runs[1..])
  }

  /** The requests as sent, with 16-bit sequence numbers. */
  function OnWire(runs: seq<Run>): (r: seq<Run>)
  {
    if |runs| == 0 then [] else [Run(Seq(runs[0].first), runs[0].count)] + OnWire(runs[1..])
  }

  lemma {:induction false} OnWireTotal(runs: seq<Run>)
    ensures Total(OnWire(runs)) == Total(runs)
  {
    if |runs| > 0 {
      OnWireTotal(runs[1..]);
      var first := [Run(Seq(runs[0].first), runs[0].count)];
      assert (first + OnWire(runs[1..]))[1..] == OnWire(runs[1..]);
    }
  }

  /** What has been remembered, at packet `n`, about the first missing packet from `from` on. */
  predicate Remembered(ring: Ring, from: nat, n: nat, w: nat, remembered: int)
    requires from <= n <= w
  {
    if remembered < 0 then remembered == -1 && FirstMissing(ring, from, w) == FirstMissing(ring, n, w)
    else remembered == Seq(FirstMissing(ring, from, w))
  }

  lemma SearchBegins(ring: Ring, c: Clock, from: nat, w: nat)
    requires from <= w
    ensures Stamped(ring, c, from, from) == ring && Remembered(ring, from, from, w, -1)
    ensures forall enabled: bool :: SoFar(ring, c, from, from, w, Run(0, 0), enabled, [])
  {
  }

  lemma SearchEnds(ring: Ring, c: Clock, from: nat, w: nat, run: Run, enabled: bool, requests: seq<Run>)
    ensures CountMissing(ring, w, w) == 0 && FirstMissing(ring, w, w) == w && OnWire(Runs(ring, c, w, w, run)) == []
    ensures from <= w && SoFar(ring, c, from, w, w, run, enabled, requests) ==>
      requests == if enabled then OnWire(Runs(ring, c, from, w, Run(0, 0))) else []
  {
  }

  lemma {:induction false} StampedReady(ring: Ring, c: Clock, x: nat, n: nat, i: nat)
    requires x <= n && i < BUFFER_FRAMES
    ensures Stamped(ring, c, x, n)[i].ready == ring[i].ready
    decreases n - x
  {
    hide Idx;
    if x < n {
      StampedReady(ring, c, x, n - 1, i);
    }
  }

  lemma {:induction false} StampedCount(ring: Ring, c: Clock, x: nat, n: nat, a: nat, b: nat)
    requires x <= n && a <= b
    ensures CountMissing(Stamped(ring, c, x, n), a, b) == CountMissing(ring, a, b)
    decreases b - a
  {
    hide Stamped;
    if a < b {
      StampedReady(ring, c, x, n, Idx(a));
      StampedCount(ring, c, x, n, a + 1, b);
    }
  }

  lemma DueMissing(s: Slot, c: Clock)
    ensures DueSlot(s, c) ==> !s.ready
  {
  }

  lemma SearchStep(ring: Ring, c: Clock, from: nat, n: nat, w: nat)
    requires from <= n < w <= from + BUFFER_FRAMES
    ensures Missing(ring, n) == !ring[Idx(n)].ready && Due(ring, c, n) == DueSlot(ring[Idx(n)], c)
    ensures DueSlot(ring[Idx(n)], c) ==> !ring[Idx(n)].ready
    ensures Stamped(ring, c, from, n)[Idx(n)] == ring[Idx(n)]
    ensures var before, check := Stamped(ring, c, from, n), ring[Idx(n)];
      Stamped(ring, c, from, n + 1) ==
        if DueSlot(check, c) then before[Idx(n) := check.(resendTime := c.now, resends := check.resends + 1)] else before
    ensures CountMissing(ring, n, w) == (if Missing(ring, n) then 1 else 0) + CountMissing(ring, n + 1, w)
    ensures FirstMissing(ring, n, w) == if Missing(ring, n) then n else FirstMissing(ring, n + 1, w)
  {
    hide Idx, DueSlot;
    StampedSlot(ring, c, from, n, n);
    assert DueSlot(ring[Idx(n)], c) ==> !ring[Idx(n)].ready by {
      DueMissing(ring[Idx(n)], c);
    }
  }

  /** The requests sent so far and those still to come are all the requests of the search. */
  predicate SoFar(ring: Ring, c: Clock, from: nat, n: nat, w: nat, run: Run, enabled: bool, requests: seq<Run>)
    requires from <= n <= w
  {
    if enabled then requests + OnWire(Runs(ring, c, n, w, run)) == OnWire(Runs(ring, c, from, w, Run(0, 0)))
    else requests == []
  }

  lemma SoFarStep(ring: Ring, c: Clock, from: nat, n: nat, w: nat, run: Run, enabled: bool, requests: seq<Run>)
    requires from <= n < w && SoFar(ring, c, from, n, w, run, enabled, requests)
    ensures var grown := Gathered(ring, c, n, run);
      if Closes(ring, n, w, grown) then
        var sent := if enabled then requests + [Run(Seq(grown.first), grown.count)] else requests;
        SoFar(ring, c, from, n + 1, w, Run(0, 0), enabled, sent)
      else SoFar(ring, c, from, n + 1, w, grown, enabled, requests)
  {
    hide Due, Missing, Gathered, Seq, OnWire;
    var grown := Gathered(ring, c, n, run);
    if Closes(ring, n, w, grown) {
      OnWireFirst(grown, Runs(ring, c, n + 1, w, Run(0, 0)), requests);
    }
  }

  lemma OnWireFirst(run: Run, rest: seq<Run>, requests: seq<Run>)
    ensures requests + OnWire([run] + rest) == requests + [Run(Seq(run.first), run.count)] + OnWire(rest)
  {
    hide Seq;
    assert ([run] + rest)[1..] == rest;
  }

  /** The counts of all requests add up to the number of packets stamped as asked for. */
  lemma {:induction false} RequestsCountStamped(ring: Ring, c: Clock, n: nat, w: nat, run: Run)
    requires n <= w && (n == w ==> run.count == 0)
    ensures Total(Runs(ring, c, n, w, run)) == run.count + CountDue(ring, c, n, w)
    decreases w - n
  {
    hide Due, Missing;
    if n < w {
      var grown := Gathered(ring, c, n, run);
      if Closes(ring, n, w, grown) {
        RequestsCountStamped(ring, c, n + 1, w, Run(0, 0));
        var rest := Runs(ring, c, n + 1, w, Run(0, 0));
        assert ([grown] + rest)[1..] == rest;
      } else {
        RequestsCountStamped(ring, c, n + 1, w, grown);
      }
    }
  }

  predicate Covers(runs: seq<Run>, m: nat)
  {
    exists i | 0 <= i < |runs| :: runs[i].first <= m < runs[i].first + runs[i].count
  }

  /** The requests from `lo` on name exactly the packets stamped as asked for. */
  predicate NamesStamped(runs: seq<Run>, ring: Ring, c: Clock, lo: nat, w: nat)
  {
    forall m | lo <= m < w :: Covers(runs, m) <==> Due(ring, c, m)
  }

  predicate AllMissing(ring: Ring, a: nat, d: nat)
  {
    forall k | a <= k <= d :: Missing(ring, k)
  }

  /** No missing packet that is left alone stands, in one stretch of missing packets, between two that are due. */
  predicate Unbroken(ring: Ring, c: Clock, lo: nat, w: nat)
  {
    forall a, b, d | lo <= a < b < d < w && Due(ring, c, a) && Due(ring, c, d)
      && AllMissing(ring, a, d) :: Due(ring, c, b)
  }

  lemma {:induction false} CountDueLast(ring: Ring, c: Clock, n: nat, w: nat)
    requires n <= w
    ensures CountDue(ring, c, n, w + 1) == CountDue(ring, c, n, w) + if Due(ring, c, w) then 1 else 0
    decreases w - n
  {
    hide Due;
    if n < w {
      CountDueLast(ring, c, n + 1, w);
    }
  }

  /** The first packet from `n` on that is not due, or `w`. */
  function FirstNotDue(ring: Ring, c: Clock, n: nat, w: nat): (f: nat)
    requires n <= w
    ensures n <= f <= w && (f < w ==> !Due(ring, c, f))
    ensures forall k | n <= k < f :: Due(ring, c, k)
    decreases w - n
  {
    if n == w || !Due(ring, c, n) then n else FirstNotDue(ring, c, n + 1, w)
  }

  lemma {:induction false} CountDueSplit(ring: Ring, c: Clock, n: nat, f: nat, w: nat)
    requires n <= f <= w && forall k | n <= k < f :: Due(ring, c, k)
    ensures CountDue(ring, c, n, w) == f - n + CountDue(ring, c, f, w)
    decreases f - n
  {
    hide Due;
    if n < f {
      CountDueSplit(ring, c, n + 1, f, w);
    }
  }

  lemma {:induction false} SomeDue(ring: Ring, c: Clock, n: nat, w: nat)
    requires n <= w
    ensures CountDue(ring, c, n, w) > 0 <==> exists d :: n <= d < w && Due(ring, c, d)
    decreases w - n
  {
    hide Due;
    if n < w {
      SomeDue(ring, c, n + 1, w);
    }
  }

  /** One request, gathered in the stretch of missing packets from `first` to before `e`. */
  lemma OneRun(ring: Ring, c: Clock, first: nat, e: nat, run: Run)
    requires first < e && Due(ring, c, first) && AllMissing(ring, first, e - 1)
    requires run == Run(first, CountDue(ring, c, first, e))
    ensures NamesStamped([run], ring, c, first, e) <==> Unbroken(ring, c, first, e)
  {
    hide Due, Missing;
    var f := FirstNotDue(ring, c, first, e);
    CountDueSplit(ring, c, first, f, e);
    SomeDue(ring, c, f, e);
    assert forall m: nat :: Covers([run], m) <==> first <= m < first + run.count by {
      assert [run][0] == run;
    }
    if CountDue(ring, c, f, e) > 0 {
      var d :| f <= d < e && Due(ring, c, d);
      assert Covers([run], f) && !Due(ring, c, f);
      assert first < f < d && AllMissing(ring, first, d);
    }
  }

  ghost predicate Gathering(ring: Ring, c: Clock, n: nat, run: Run)
  {
    run.count > 0 ==>
      && run.first < n && Due(ring, c, run.first) && AllMissing(ring, run.first, n - 1)
      && run.count == CountDue(ring, c, run.first, n)
  }

  lemma GatheringGrows(ring: Ring, c: Clock, n: nat, run: Run)
    requires Gathering(ring, c, n, run)
    ensures var grown := Gathered(ring, c, n, run);
      && (Missing(ring, n) ==> Gathering(ring, c, n + 1, grown))
      && (!Missing(ring, n) ==> grown == run)
  {
    if run.count > 0 {
      CountDueLast(ring, c, run.first, n);
    } else {
      CountDueLast(ring, c, n, n);
    }
  }

  ghost predicate Inside(runs: seq<Run>, lo: nat, w: nat)
  {
    forall i | 0 <= i < |runs| :: lo <= runs[i].first && runs[i].first + runs[i].count <= w
  }

  lemma Joined(ring: Ring, c: Clock, lo: nat, e: nat, n: nat, w: nat, run: Run, rest: seq<Run>)
    requires lo < e <= n <= w && (e < n ==> e + 1 == n && !Missing(ring, e)) && (e == n ==> n == w)
    requires Inside([run], lo, e) && Inside(rest, n, w)
    ensures Inside([run] + rest, lo, w)
    ensures NamesStamped([run] + rest, ring, c, lo, w) <==>
      NamesStamped([run], ring, c, lo, e) && NamesStamped(rest, ring, c, n, w)
    ensures Unbroken(ring, c, lo, w) <==> Unbroken(ring, c, lo, e) && Unbroken(ring, c, n, w)
  {
    assert e < n ==> !Due(ring, c, e);
    hide Missing;
    JoinedNames(ring, c, lo, e, n, w, run, rest);
    JoinedUnbroken(ring, c, lo, e, n, w);
  }

  lemma JoinedCover(run: Run, rest: seq<Run>, m: nat)
    ensures Covers([run] + rest, m) <==> Covers([run], m) || Covers(rest, m)
  {
    var all := [run] + rest;
    if Covers(rest, m) {
      var i :| 0 <= i < |rest| && rest[i].first <= m < rest[i].first + rest[i].count;
      assert all[i + 1] == rest[i];
    }
    if Covers([run], m) {
      assert all[0] == [run][0];
    }
    if Covers(all, m) {
      var i :| 0 <= i < |all| && all[i].first <= m < all[i].first + all[i].count;
      assert i > 0 ==> all[i] == rest[i - 1];
      assert i == 0 ==> all[i] == [run][0];
    }
  }

  lemma JoinedNames(ring: Ring, c: Clock, lo: nat, e: nat, n: nat, w: nat, run: Run, rest: seq<Run>)
    requires lo < e <= n <= w && (e < n ==> e + 1 == n && !Due(ring, c, e))
    requires Inside([run], lo, e) && Inside(rest, n, w)
    ensures NamesStamped([run] + rest, ring, c, lo, w) <==>
      NamesStamped([run], ring, c, lo, e) && NamesStamped(rest, ring, c, n, w)
    ensures Inside([run] + rest, lo, w)
  {
    hide Due;
    assert [run][0] == run;
    forall m: nat
      ensures Covers([run] + rest, m) <==> Covers([run], m) || Covers(rest, m)
      ensures m >= e ==> !Covers([run], m)
      ensures m < n ==> !Covers(rest, m)
    {
      JoinedCover(run, rest, m);
    }
  }

  lemma JoinedUnbroken(ring: Ring, c: Clock, lo: nat, e: nat, n: nat, w: nat)
    requires lo < e <= n <= w && (e < n ==> e + 1 == n && !Missing(ring, e)) && (e == n ==> n == w)
    ensures Unbroken(ring, c, lo, w) <==> Unbroken(ring, c, lo, e) && Unbroken(ring, c, n, w)
  {
    hide Due, Missing;
    forall a, d | lo <= a < d < w && AllMissing(ring, a, d)
      ensures d < e || n <= a
    {
      assert a <= e <= d ==> Missing(ring, e);
    }
  }

  lemma ClosingRun(ring: Ring, c: Clock, n: nat, w: nat, run: Run)
    requires Gathering(ring, c, n, run) && Closes(ring, n, w, Gathered(ring, c, n, run))
    ensures var lo, e := if run.count > 0 then run.first else n, if Missing(ring, n) then n + 1 else n;
      var grown := Gathered(ring, c, n, run);
      && lo < e && Inside([grown], lo, e)
      && (NamesStamped([grown], ring, c, lo, e) <==> Unbroken(ring, c, lo, e))
  {
    hide NamesStamped, Unbroken;
    var lo, e := if run.count > 0 then run.first else n, if Missing(ring, n) then n + 1 else n;
    GatheringGrows(ring, c, n, run);
    OneRun(ring, c, lo, e, Gathered(ring, c, n, run));
  }

  lemma GatheredFirst(ring: Ring, c: Clock, n: nat, run: Run)
    ensures var grown := Gathered(ring, c, n, run);
      && (grown.count > 0 ==> grown.first == if run.count > 0 then run.first else n)
      && (grown.count == 0 ==> run.count == 0 && !Due(ring, c, n))
      && (Missing(ring, n) || grown == run)
  {
  }

  lemma NotClosing(ring: Ring, c: Clock, n: nat, run: Run)
    requires Gathering(ring, c, n, run) && (Gathered(ring, c, n, run).count > 0 ==> Missing(ring, n))
    ensures Gathering(ring, c, n + 1, Gathered(ring, c, n, run))
  {
    hide Missing;
    GatheringGrows(ring, c, n, run);
  }

  lemma NoRun(ring: Ring, c: Clock, n: nat)
    ensures Gathering(ring, c, n, Run(0, 0))
  {
  }

  lemma NothingLeft(ring: Ring, c: Clock, w: nat)
    ensures Inside([], w, w) && NamesStamped([], ring, c, w, w) && Unbroken(ring, c, w, w)
  {
  }

  lemma {:induction false} RunsNameStamped(ring: Ring, c: Clock, n: nat, w: nat, run: Run)
    requires n <= w && Gathering(ring, c, n, run) && (n == w ==> run.count == 0)
    ensures var runs, lo := Runs(ring, c, n, w, run), if run.count > 0 then run.first else n;
      Inside(runs, lo, w) && (NamesStamped(runs, ring, c, lo, w) <==> Unbroken(ring, c, lo, w))
    decreases w - n
  {
    hide Due, Missing, Gathering, Gathered, NamesStamped, Unbroken, Inside;
    if n == w {
      NothingLeft(ring, c, w);
    } else {
      var lo := if run.count > 0 then run.first else n;
      var grown := Gathered(ring, c, n, run);
      GatheringGrows(ring, c, n, run);
      GatheredFirst(ring, c, n, run);
      if Closes(ring, n, w, grown) {
        var e := if Missing(ring, n) then n + 1 else n;
        var rest := Runs(ring, c, n + 1, w, Run(0, 0));
        NoRun(ring, c, n + 1);
        RunsNameStamped(ring, c, n + 1, w, Run(0, 0));
        ClosingRun(ring, c, n, w, run);
        Joined(ring, c, lo, e, n + 1, w, grown, rest);
      } else {
        NotClosing(ring, c, n, run);
        RunsNameStamped(ring, c, n + 1, w, grown);
        if grown.count == 0 {
          NotDueFirst(ring, c, n, w, Runs(ring, c, n + 1, w, grown));
        }
      }
    }
  }

  lemma NotDueFirst(ring: Ring, c: Clock, n: nat, w: nat, runs: seq<Run>)
    requires n < w && !Due(ring, c, n) && Inside(runs, n + 1, w)
    ensures NamesStamped(runs, ring, c, n, w) <==> NamesStamped(runs, ring, c, n + 1, w)
    ensures Unbroken(ring, c, n, w) <==> Unbroken(ring, c, n + 1, w)
    ensures Inside(runs, n, w)
  {
    hide Due, Missing;
    assert !Covers(runs, n);
  }

  /**
   The requests of a search name exactly the packets stamped as asked for, if and only if no missing
   packet left alone stands between two due ones of the same stretch.
   */
  lemma RequestsNameStamped(ring: Ring, c: Clock, x: nat, w: nat)
    requires x <= w
    ensures NamesStamped(Runs(ring, c, x, w, Run(0, 0)), ring, c, x, w) <==> Unbroken(ring, c, x, w)
  {
    RunsNameStamped(ring, c, x, w, Run(0, 0));
  }
}

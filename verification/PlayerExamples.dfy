/** Runs of a new buffer on which it does not do what it is for. */
module PlayerExamples {
  import opened Numbers
  import opened PlayerSlots
  import opened PlayerResends
  import opened PlayerFlush
  import opened PlayerWindow
  import opened PlayerSteps
  import opened PlayerSafety
  import opened PlayerRun

  const ANY_TIME := Clock(0, 0, 0, 0, 0)
  const FRAMES: Frames := [(0, 0)]

  function Arrive(q: nat, timestamp: nat): Event
  {
    Arrival(true, q, timestamp, Decoded(FRAMES), ANY_TIME, false)
  }

  function GetAt(shouldBe: nat): Event
  {
    Get(shouldBe, true, true)
  }

  // ---------- single slots after a step ----------

  /** The search changes no more than the resend fields of a slot. */
  lemma SearchedSlot(s: State, c: Clock, m: nat)
    requires s.read <= s.write
    ensures var a, b := Searching(s, c).ring[Idx(m)], s.ring[Idx(m)]; a == b.(resendTime := a.resendTime, resends := a.resends)
  {
    hide Idx, Stamped;
    StampedSimilar(s.ring, c, SearchFrom(s.remembered, s.read, s.write), s.write);
  }

  lemma UnwrappedNear(w: nat, q: nat)
    requires w < 0x1_0000 && q < 0x1_0000 && -0x8000 <= q - w < 0x8000
    ensures Unwrapped(w, q) == q && Seq(w) == w && Seq(q) == q
  {
  }

  /** A packet not before the end of the window, with no wrap-around in between. */
  lemma EnteredNear(s: State, q: nat, timestamp: nat, decoded: Decoded, now: nat)
    requires s.read <= s.write <= q < s.read + BUFFER_FRAMES && q < 0x1_0000
    ensures var t := Entered(s, q, timestamp, decoded, now);
      var marked := if q > s.write then Marked(s.ring, s.write, q - s.write, now) else s.ring;
      && t == s.(ring := t.ring, holder := t.holder, write := q + 1,
                 accepted := Accepting(s.accepted, q, q, q, timestamp, decoded))
      && t.ring == marked[Idx(q) := Filled(marked[Idx(q)], q, timestamp, decoded, now)]
  {
    hide Unwrapped, Marked, Filled, Idx, Seq, Holding;
    UnwrappedNear(s.write, q);
  }

  lemma AcceptingHere(accepted: map<nat, Packet>, q: nat, timestamp: nat, decoded: Decoded)
    ensures Accepting(accepted, q, q, q, timestamp, decoded) ==
      if decoded.Decoded? then accepted[q := Packet(timestamp, decoded.frames)] else accepted - {q}
  {
  }

  // ---------- steps that go well ----------

  lemma InitialSafe()
    ensures Safe(Initial()) && Held(Initial())
  {
  }

  /** An arrival in original form, not before the end of the window and with no wrap-around in between. */
  lemma ArrivalNear(s: State, e: Event)
    requires Safe(s) && Held(s) && e.Arrival? && e.original && e.seqno < 0x1_0000
    requires s.synced ==> s.write <= e.seqno < s.read + BUFFER_FRAMES
    ensures var t, b := After(s, e), Begun(s, e.seqno);
      && EndOf(s, e).Finished? && Safe(t) && Held(t) && t.synced && t.flushRequested == s.flushRequested
      && t.buffering == s.buffering
      && t.read == b.read && t.write == e.seqno + 1 && t.handed == b.handed
      && t.accepted == (if e.decoded.Decoded? then b.accepted[e.seqno := Packet(e.timestamp, e.decoded.frames)]
                        else b.accepted - {e.seqno})
      && b.read <= b.write <= e.seqno < b.read + BUFFER_FRAMES
      && Stored(s, e) == Entered(b, e.seqno, e.timestamp, e.decoded, e.clock.now)
  {
    hide Sane, Held, Searching, Entered, Accepting, SafeGap, Unwrapped, Remembering, Sound, Complete, Found,
      CountMissing;
    var b := Begun(s, e.seqno);
    UnwrappedNear(b.write, e.seqno);
    EnteredNear(b, e.seqno, e.timestamp, e.decoded, e.clock.now);
    AcceptingHere(b.accepted, e.seqno, e.timestamp, e.decoded);
    NoGap(s, e);
    StepSafe(s, e);
  }

  lemma NoGap(s: State, e: Event)
    requires e.Arrival? && e.seqno < 0x1_0000 && (s.synced ==> s.write <= e.seqno < s.write + BUFFER_FRAMES)
    ensures GapSafe(s, e)
  {
    if s.synced {
      UnwrappedNear(s.write, e.seqno);
    }
  }

  /** A slot of the gap has been marked. */
  lemma {:induction false} MarkedAt(ring: Ring, w: nat, k: nat, now: nat, m: nat)
    requires w <= m < w + k <= w + BUFFER_FRAMES
    ensures Marked(ring, w, k, now)[Idx(m)] == MarkedMissing(ring[Idx(m)], now)
  {
    hide Idx;
    if m < w + k - 1 {
      IdxDistinct(m, w + k - 1);
      MarkedAt(ring, w, k - 1, now, m);
    } else {
      MarkedElsewhere(ring, w, k - 1, now, m);
    }
  }

  /** The slot of number `m` before the search that ends such an arrival. */
  lemma StoredSlot(s: State, e: Event, m: nat)
    requires e.Arrival? && e.original && e.seqno < 0x1_0000 && Ordered(s)
    requires var b := Begun(s, e.seqno);
      b.read <= b.write <= e.seqno < b.read + BUFFER_FRAMES && b.write <= m < b.write + BUFFER_FRAMES
      && Stored(s, e) == Entered(b, e.seqno, e.timestamp, e.decoded, e.clock.now)
    ensures var before, slot := s.ring[Idx(m)], Stored(s, e).ring[Idx(m)];
      slot == if m < e.seqno then MarkedMissing(before, e.clock.now)
              else if m == e.seqno then Filled(before, e.seqno, e.timestamp, e.decoded, e.clock.now)
              else before
  {
    hide Idx, Entered, Filled, MarkedMissing;
    var b, q := Begun(s, e.seqno), e.seqno;
    EnteredNear(b, q, e.timestamp, e.decoded, e.clock.now);
    if q < m {
      IdxDistinct(q, m);
    } else if m < q {
      IdxDistinct(m, q);
    }
    if q > b.write {
      if m < q {
        MarkedAt(b.ring, b.write, q - b.write, e.clock.now, m);
      } else {
        MarkedElsewhere(b.ring, b.write, q - b.write, e.clock.now, m);
      }
    }
  }

  /** All of a window that is missing or out of date is skipped. */
  lemma SkipAll(ring: Ring, r: nat, w: nat, shouldBe: nat)
    requires r <= w < 0x1_0000 && forall n | r <= n < w :: Skippable(ring[Idx(n)], shouldBe)
    ensures SkipTo(ring, r, w, shouldBe) == w
    decreases w - r
  {
    hide Skippable, Idx;
    if r < w {
      SkipAll(ring, r + 1, w, shouldBe);
    }
  }

  /** A pass without a flush that finds everything missing or out of date hands out nothing. */
  lemma PassesAll(s: State, shouldBe: nat)
    requires Safe(s) && Held(s) && s.synced && !s.flushRequested && s.write < 0x1_0000
    requires forall n | s.read <= n < s.write && n in s.accepted :: Wrap32(s.accepted[n].timestamp - shouldBe) < 0
    ensures var t := After(s, GetAt(shouldBe));
      && EndOf(s, GetAt(shouldBe)).Finished? && Safe(t) && Held(t)
      && t == s.(read := s.write, buffering := t.buffering) && (!s.buffering ==> !t.buffering)
  {
    hide Sane, Idx, Wrap32, Stale, Remembering, Sound, Complete;
    forall n | s.read <= n < s.write
      ensures Skippable(s.ring[Idx(n)], shouldBe)
    {
      assert Holds(s.ring, s.accepted, n);
    }
    SkipAll(s.ring, s.read, s.write, shouldBe);
    StepSafe(s, GetAt(shouldBe));
  }

  /** A pass without a flush hands out the frame under the read pointer if it is there and not out of date. */
  lemma HandsOut(s: State, shouldBe: nat)
    requires Safe(s) && Held(s) && s.synced && !s.flushRequested && s.read < s.write && s.read in s.accepted
    requires Wrap32(s.accepted[s.read].timestamp - shouldBe) >= 0
    ensures var t := After(s, GetAt(shouldBe));
      && EndOf(s, GetAt(shouldBe)).Finished? && Safe(t) && Held(t) && !t.buffering
      && t == s.(read := s.read + 1, buffering := false, ring := s.ring[Idx(s.read) := Freed(s.ring[Idx(s.read)])],
                 handed := s.handed + [s.read], served := s.served + [Freed(s.ring[Idx(s.read)])])
  {
    hide Sane, Idx, Wrap32, Remembering, Sound, Complete, Freed, Seq;
    assert Holds(s.ring, s.accepted, s.read);
    HeldStays(s);
    StepSafe(s, GetAt(shouldBe));
  }

  // ---------- order lost ----------

  /** The slot of number 65535 is still ready with packet 64511. */
  predicate Leftover(s: State)
  {
    s.ring[1023].ready && s.ring[1023].seqno == 64511 && s.ring[1023].timestamp == 1000
  }

  /** Packet 64511 comes first, and is skipped once it is out of date. Its slot stays ready. */
  lemma FirstSkipped() returns (s1: State, s2: State)
    ensures s1 == After(Initial(), Arrive(64511, 1000)) && EndOf(Initial(), Arrive(64511, 1000)).Finished?
      && Ordered(s1)
    ensures s2 == After(s1, GetAt(2000)) && EndOf(s1, GetAt(2000)).Finished?
    ensures Safe(s2) && Held(s2) && s2.synced && !s2.flushRequested && Leftover(s2) && s2.handed == []
    ensures s2.read == s2.write == 64512 && s2.accepted == map[64511 := Packet(1000, FRAMES)]
  {
    hide Sane, Held, Searching, Entered;
    InitialSafe();
    ArrivalNear(Initial(), Arrive(64511, 1000));
    s1 := After(Initial(), Arrive(64511, 1000));
    StoredSlot(Initial(), Arrive(64511, 1000), 64511);
    SearchedSlot(Stored(Initial(), Arrive(64511, 1000)), ANY_TIME, 64511);
    PassesAll(s1, 2000);
    s2 := After(s1, GetAt(2000));
  }

  /** A later packet before the wrap-around leaves the slot alone. */
  lemma LeftoverStays(s: State, q: nat, timestamp: nat)
    requires Safe(s) && Held(s) && s.synced && Leftover(s)
    requires 64512 <= s.write <= q < 65535 && q < s.read + BUFFER_FRAMES && (q == 64512 || s.write == 64513)
    ensures var e := Arrive(q, timestamp);
      var t := After(s, e);
      && EndOf(s, e).Finished? && Safe(t) && Held(t) && t.synced && t.flushRequested == s.flushRequested
      && t.buffering == s.buffering && t.read == s.read && t.write == q + 1 && t.handed == s.handed
      && t.accepted == s.accepted[q := Packet(timestamp, FRAMES)]
      && Leftover(t) && (s.write == 64513 ==> t.ring[0].ready == s.ring[0].ready)
  {
    hide Sane, Held, Searching, Entered, Filled, MarkedMissing;
    var e := Arrive(q, timestamp);
    ArrivalNear(s, e);
    StoredSlot(s, e, 65535);
    SearchedSlot(Stored(s, e), ANY_TIME, 65535);
    if s.write == 64513 {
      StoredSlot(s, e, 65536);
      SearchedSlot(Stored(s, e), ANY_TIME, 65536);
    }
  }

  /** The frames up to 2000 and from 5000 to 6000 are out of date when they are looked at, and 3000 is not. */
  lemma Dates()
    ensures Wrap32(1000 - 2000) < 0 && Wrap32(3000 - 2000) >= 0 && Wrap32(5000 - 6000) < 0
  {
  }

  /** Packet 64512 is handed out, and 65534 comes and is skipped once it is out of date. */
  lemma ThenSkipped(s2: State) returns (s3: State, s4: State, s5: State, s6: State)
    requires Safe(s2) && Held(s2) && s2.synced && !s2.flushRequested && Leftover(s2) && s2.handed == []
    requires s2.read == s2.write == 64512 && s2.accepted == map[64511 := Packet(1000, FRAMES)]
    ensures s3 == After(s2, Arrive(64512, 3000)) && EndOf(s2, Arrive(64512, 3000)).Finished? && Ordered(s3)
    ensures s4 == After(s3, GetAt(2000)) && EndOf(s3, GetAt(2000)).Finished? && Ordered(s4)
    ensures s5 == After(s4, Arrive(65534, 5000)) && EndOf(s4, Arrive(65534, 5000)).Finished? && Ordered(s5)
    ensures s6 == After(s5, GetAt(6000)) && EndOf(s5, GetAt(6000)).Finished?
    ensures Safe(s6) && Held(s6) && s6.synced && !s6.flushRequested && !s6.buffering && Leftover(s6)
      && !s6.ring[0].ready
    ensures s6.read == s6.write == 65535 && s6.handed == [64512]
  {
    hide Sane, Held, After, EndOf, Wrap32;
    Dates();
    LeftoverStays(s2, 64512, 3000);
    s3 := After(s2, Arrive(64512, 3000));
    HandsOut(s3, 2000);
    s4 := After(s3, GetAt(2000));
    LeftoverStays(s4, 65534, 5000);
    s5 := After(s4, Arrive(65534, 5000));
    PassesAll(s5, 6000);
    s6 := After(s5, GetAt(6000));
  }

  /** A packet behind the wrap-around leaves the slot of 65535 as it is, though it lies in the gap before it. */
  lemma GapUnmarked(s6: State) returns (s7: State)
    requires Safe(s6) && Held(s6) && s6.synced && !s6.flushRequested && !s6.buffering && Leftover(s6)
      && !s6.ring[0].ready
    requires s6.read == s6.write == 65535 && s6.handed == [64512]
    ensures s7 == After(s6, Arrive(1, 8000)) && EndOf(s6, Arrive(1, 8000)).Finished?
    ensures Safe(s7) && s7.synced && !s7.flushRequested && !s7.buffering && Leftover(s7) && !s7.ring[0].ready
    ensures s7.read == 65535 && s7.write == 65538 && s7.handed == [64512]
    ensures 65537 in s7.accepted && s7.accepted[65537] == Packet(8000, FRAMES)
  {
    hide Sane, Held, Searching, Filled, Remembering, Sound, Complete, Found, CountMissing, SafeGap;
    var e := Arrive(1, 8000);
    s7 := After(s6, e);
    assert Unwrapped(65535, 1) == 65537;
    StepSafe(s6, e);
    SearchedSlot(Stored(s6, e), ANY_TIME, 65535);
    SearchedSlot(Stored(s6, e), ANY_TIME, 65536);
  }

  lemma EightStates(trace: seq<State>, events: seq<Event>)
    requires |trace| == 8 <= |events| && forall i | 0 <= i < 8 :: Ordered(trace[i])
    requires Follows(trace[0], events[0], trace[1]) && Follows(trace[1], events[1], trace[2])
    requires Follows(trace[2], events[2], trace[3]) && Follows(trace[3], events[3], trace[4])
    requires Follows(trace[4], events[4], trace[5]) && Follows(trace[5], events[5], trace[6])
    requires Follows(trace[6], events[6], trace[7])
    ensures RunOf(trace, events)
  {
    hide Follows, Ordered;
  }

  /** The run so far, and two more events. */
  lemma ToTheGap(e: Event, e': Event) returns (trace: seq<State>, events: seq<Event>)
    ensures |trace| == 8 && |events| == 9 && events[7] == e && events[8] == e' && RunOf(trace, events)
      && trace[0] == Initial()
    ensures var s := trace[7];
      && Safe(s) && s.synced && !s.flushRequested && !s.buffering && Leftover(s) && !s.ring[0].ready
      && s.read == 65535 && s.write == 65538 && s.handed == [64512]
      && 65537 in s.accepted && s.accepted[65537] == Packet(8000, FRAMES)
  {
    hide After, EndOf, Held, Leftover, RunOf, Sane;
    var s1, s2 := FirstSkipped();
    var s3, s4, s5, s6 := ThenSkipped(s2);
    var s7 := GapUnmarked(s6);
    trace := [Initial(), s1, s2, s3, s4, s5, s6, s7];
    events := [Arrive(64511, 1000), GetAt(2000), Arrive(64512, 3000), GetAt(2000), Arrive(65534, 5000), GetAt(6000),
               Arrive(1, 8000), e, e'];
    EightStates(trace, events);
  }

  lemma GoingBack(s: State)
    requires Safe(s) && s.synced && !s.flushRequested && !s.buffering && Leftover(s) && !s.ring[0].ready
    requires s.read == 65535 && s.write == 65538 && s.handed == [64512]
    ensures EndOf(s, GetAt(7000)).WentBack?
    ensures var t := After(s, GetAt(7000));
      && t.handed == [64512, 64511] && !Ascending(t.handed, t.read) && t.read == 64512 && !t.ring[Idx(64512)].ready
      && |t.served| > 0 && t.served[|t.served| - 1].timestamp == 1000
  {
    hide Sane, Wrap32;
    UnderReadPointer(s);
    var t := After(s, GetAt(7000));
    assert t.handed[0] > t.handed[1];
  }

  /**
   A run on which order is lost. Packet 64511 is out of date and skipped, 64512 is handed out, 65534 is
   out of date and skipped, and packet 1 of the next round arrives. The slot of 65535, in the gap before
   it, is still ready with packet 64511, which is handed out after 64512; and 64512 is next again.
   */
  lemma OrderLost() returns (trace: seq<State>, events: seq<Event>)
    ensures RunOf(trace, events) && trace[0] == Initial() && |trace| <= |events|
    ensures EndOf(trace[|trace| - 1], events[|trace| - 1]).WentBack?
    ensures var t := After(trace[|trace| - 1], events[|trace| - 1]);
      && t.handed == [64512, 64511] && !Ascending(t.handed, t.read) && t.read == 64512 && !t.ring[Idx(64512)].ready
      && |t.served| > 0 && t.served[|t.served| - 1].timestamp == 1000
  {
    hide RunOf, Safe, Leftover, After, EndOf, Ascending;
    trace, events := ToTheGap(GetAt(7000), GetAt(7000));
    GoingBack(trace[7]);
  }

  /** A request to flush to frame 9000, made in that state, is dropped by the next pass, and frame 8000 stays. */
  lemma FlushDropped() returns (trace: seq<State>, events: seq<Event>)
    ensures RunOf(trace, events) && trace[0] == Initial() && |trace| <= |events| && events[|trace| - 1].Get?
    ensures var s := trace[|trace| - 1];
      && s.flushRequested && s.flushTimestamp == 9000 && s.read < 65537 < s.write
      && 65537 in s.accepted && s.accepted[65537] == Packet(8000, FRAMES)
      && Flushed(s) == s.(flushRequested := false)
  {
    hide RunOf, Leftover, Sane, Follows;
    trace, events := ToTheGap(FlushTo(9000), GetAt(7000));
    var s := After(trace[7], FlushTo(9000));
    RunGrows(trace, events, s);
    trace := trace + [s];
  }

  // ---------- a flush that overruns ----------

  function Long(q: nat, timestamp: nat): Event
  {
    Arrival(true, q, timestamp, Decoded(seq(352, _ => (0, 0))), ANY_TIME, false)
  }

  lemma FourStates(trace: seq<State>, events: seq<Event>)
    requires |trace| == 4 <= |events| && forall i | 0 <= i < 4 :: Ordered(trace[i])
    requires Follows(trace[0], events[0], trace[1]) && Follows(trace[1], events[1], trace[2])
    requires Follows(trace[2], events[2], trace[3])
    ensures RunOf(trace, events)
  {
    hide Follows, Ordered;
  }

  /** Packets 10 and 12 are there, and the slot of 11 has never been used. */
  lemma TwoEnds() returns (s1: State, s2: State)
    ensures s1 == After(Initial(), Long(10, 0x7FFF_FE00)) && EndOf(Initial(), Long(10, 0x7FFF_FE00)).Finished?
      && Ordered(s1)
    ensures s2 == After(s1, Long(12, 0x7FFF_FF80)) && EndOf(s1, Long(12, 0x7FFF_FF80)).Finished?
    ensures Safe(s2) && s2.synced && s2.read == 10 && s2.write == 13
    ensures var a, b, c := s2.ring[10], s2.ring[11], s2.ring[12];
      && a.ready && a.timestamp == 0x7FFF_FE00 && |a.frames| == 352 && !b.ready && b.timestamp == 0 && b.frames == []
      && c.ready && c.timestamp == 0x7FFF_FF80 && |c.frames| == 352
  {
    hide Sane, Held, Searching, Entered;
    var e1, e2 := Long(10, 0x7FFF_FE00), Long(12, 0x7FFF_FF80);
    InitialSafe();
    ArrivalNear(Initial(), e1);
    s1 := After(Initial(), e1);
    StoredSlot(Initial(), e1, 10);
    SearchedSlot(Stored(Initial(), e1), ANY_TIME, 10);
    StoredSlot(Initial(), e1, 11);
    SearchedSlot(Stored(Initial(), e1), ANY_TIME, 11);
    ArrivalNear(s1, e2);
    s2 := After(s1, e2);
    Untouched(s1, e2, 10);
    StoredSlot(s1, e2, 11);
    SearchedSlot(Stored(s1, e2), ANY_TIME, 11);
    StoredSlot(s1, e2, 12);
    SearchedSlot(Stored(s1, e2), ANY_TIME, 12);
  }

  /** A packet of the window before an arrival is as it was but for its resend fields. */
  lemma Untouched(s: State, e: Event, m: nat)
    requires e.Arrival? && e.original && e.seqno < 0x1_0000 && s.synced
      && s.read <= m < s.write <= e.seqno < s.read + BUFFER_FRAMES
    requires Stored(s, e) == Entered(s, e.seqno, e.timestamp, e.decoded, e.clock.now)
    ensures Stored(s, e).ring[Idx(m)] == s.ring[Idx(m)]
    ensures var a, b := After(s, e).ring[Idx(m)], s.ring[Idx(m)]; a == b.(resendTime := a.resendTime, resends := a.resends)
  {
    hide Idx, Entered, Filled, Searching;
    EnteredNear(s, e.seqno, e.timestamp, e.decoded, e.clock.now);
    IdxDistinct(m, e.seqno);
    if e.seqno > s.write {
      MarkedElsewhere(s.ring, s.write, e.seqno - s.write, e.clock.now, m);
    }
    SearchedSlot(Stored(s, e), e.clock, m);
  }

  lemma OverrunTests(a: Slot, b: Slot, c: Slot)
    requires a.timestamp == 0x7FFF_FE00 && |a.frames| == 352 && b.timestamp == 0 && b.frames == []
    requires c.timestamp == 0x7FFF_FF80 && |c.frames| == 352
    ensures var t := 0x7FFF_FFFF;
      && Wrap32(t - a.timestamp) > 0 && Wrap32(LastFrame(c) - t) >= 0 && EndsBefore(a, t) && !EndsBefore(b, t)
      && TooShort(b, t)
  {
  }

  lemma StopsAtEleven(s: State)
    requires s.synced && s.read == 10 && s.write == 13 && s.flushRequested && s.flushTimestamp == 0x7FFF_FFFF
    requires var a, b, c := s.ring[10], s.ring[11], s.ring[12];
      && a.ready && a.timestamp == 0x7FFF_FE00 && |a.frames| == 352 && !b.ready && b.timestamp == 0 && b.frames == []
      && c.ready && c.timestamp == 0x7FFF_FF80 && |c.frames| == 352
    ensures Overruns(s)
  {
    hide EndsBefore, TooShort, LastFrame, Wrap32, Time;
    OverrunTests(s.ring[10], s.ring[11], s.ring[12]);
    assert Idx(10) == 10 && Idx(11) == 11 && Idx(12) == 12;
    assert StopOf(s.ring, 11, 13, 0x7FFF_FFFF) == 11;
  }

  lemma AfterFlushTo(s: State, time: nat)
    requires Ordered(s) && time < 0x1_0000_0000
    ensures Follows(s, FlushTo(time), s.(flushRequested := true, flushTimestamp := time))
  {
  }

  lemma EndsInOverrun(s: State, e: Event)
    requires Ordered(s) && e.Get? && Overruns(s)
    ensures EndOf(s, e).Overrun?
  {
  }

  /** A flush to 0x7FFFFFFF stops at the slot of 11, and would remove 2^31 - 1 frames from none. */
  lemma FlushOverrun() returns (trace: seq<State>, events: seq<Event>)
    ensures RunOf(trace, events) && trace[0] == Initial() && |trace| <= |events|
    ensures EndOf(trace[|trace| - 1], events[|trace| - 1]).Overrun?
  {
    hide RunOf, Sane, After, EndOf, Overruns;
    var s1, s2 := TwoEnds();
    var s3 := s2.(flushRequested := true, flushTimestamp := 0x7FFF_FFFF);
    AfterFlushTo(s2, 0x7FFF_FFFF);
    StopsAtEleven(s3);
    EndsInOverrun(s3, GetAt(0));
    trace := [Initial(), s1, s2, s3];
    events := [Long(10, 0x7FFF_FE00), Long(12, 0x7FFF_FF80), FlushTo(0x7FFF_FFFF), GetAt(0)];
    FourStates(trace, events);
  }

  // ---------- the wrong packets asked for ----------

  /** The limits of the resend checks: ask after 100 and again after 100, with a latency of 1000. */
  function At(now: nat): Clock
  {
    Clock(now, 1000, 0, 100, 100)
  }

  function Heard(q: nat, decoded: Decoded, now: nat): Event
  {
    Arrival(true, q, 0, decoded, At(now), true)
  }

  lemma {:induction false} NotStamped(ring: Ring, c: Clock, x: nat, n: nat, m: nat)
    requires x <= n <= m + BUFFER_FRAMES && m < x + BUFFER_FRAMES && !DueSlot(ring[Idx(m)], c)
    ensures Stamped(ring, c, x, n)[Idx(m)] == ring[Idx(m)]
    decreases n - x
  {
    hide Idx, DueSlot;
    if x < n {
      NotStamped(ring, c, x, n - 1, m);
      if m < n - 1 {
        IdxDistinct(m, n - 1);
      } else if n - 1 < m {
        IdxDistinct(n - 1, m);
      }
    }
  }

  /** The search leaves a slot of the window alone that is not due. */
  lemma NotDueStays(s: State, c: Clock, m: nat)
    requires s.read <= m < s.write <= s.read + BUFFER_FRAMES && !DueSlot(s.ring[Idx(m)], c)
    ensures Searching(s, c).ring[Idx(m)] == s.ring[Idx(m)]
  {
    hide Idx, DueSlot, Stamped, FirstMissing;
    NotStamped(s.ring, c, SearchFrom(s.remembered, s.read, s.write), s.write, m);
  }

  /** Packets 11 to 13 are missing, noticed or received at these times, and not asked for yet. */
  predicate Waiting(ring: Ring, a: nat, b: nat, c: nat)
  {
    && ring[10].ready && ring[14].ready
    && !ring[11].ready && ring[11].initTime == a && ring[11].resendTime == 0
    && !ring[12].ready && ring[12].initTime == b && ring[12].resendTime == 0
    && !ring[13].ready && ring[13].initTime == c && ring[13].resendTime == 0
  }

  /** When 11 to 13 are looked at too early, the search changes none of them and remembers 11. */
  lemma TooEarlyToAsk(s: State, now: nat, b: nat)
    requires s.synced && s.read == 10 && s.write == 15 && s.remembered == 11 && Waiting(s.ring, 1100, b, 1100)
    requires 1100 <= now < 1200 && 1100 <= b <= now
    ensures var t := Searching(s, At(now)); Waiting(t.ring, 1100, b, 1100) && t.remembered == 11
  {
    var c := At(now);
    assert Idx(10) == 10 && Idx(11) == 11 && Idx(12) == 12 && Idx(13) == 13 && Idx(14) == 14;
    assert !DueSlot(s.ring[11], c) && !DueSlot(s.ring[12], c) && !DueSlot(s.ring[13], c);
    assert FirstMissing(s.ring, 11, 15) == 11;
    hide DueSlot, Stamped, FirstMissing, Idx;
    NotDueStays(s, c, 10);
    NotDueStays(s, c, 11);
    NotDueStays(s, c, 12);
    NotDueStays(s, c, 13);
    NotDueStays(s, c, 14);
  }

  const HEARD_FIRST := Heard(10, Decoded(FRAMES), 1000)
  const GAP_NOTICED := Heard(14, Decoded(FRAMES), 1100)
  const SPOILT := Heard(12, Bad, 1190)
  const HEARD_LAST := Heard(15, Decoded(FRAMES), 1210)

  /** Packet 10, and then 14: 11 to 13 are noticed as missing. */
  lemma GapNoticed() returns (s1: State, s2: State)
    ensures s1 == After(Initial(), HEARD_FIRST) && EndOf(Initial(), HEARD_FIRST).Finished? && Ordered(s1)
    ensures s2 == After(s1, GAP_NOTICED) && EndOf(s1, GAP_NOTICED).Finished?
    ensures s2.synced && s2.read == 10 && s2.write == 15 && s2.remembered == 11 && Waiting(s2.ring, 1100, 1100, 1100)
  {
    hide Sane, Held, Entered, Stamped, FirstMissing, SearchFrom, DueSlot;
    InitialSafe();
    ArrivalNear(Initial(), HEARD_FIRST);
    s1 := After(Initial(), HEARD_FIRST);
    StoredSlot(Initial(), HEARD_FIRST, 10);
    Remembers(Stored(Initial(), HEARD_FIRST), At(1000));
    ArrivalNear(s1, GAP_NOTICED);
    s2 := After(s1, GAP_NOTICED);
    Untouched(s1, GAP_NOTICED, 10);
    StoredSlot(s1, GAP_NOTICED, 11);
    StoredSlot(s1, GAP_NOTICED, 12);
    StoredSlot(s1, GAP_NOTICED, 13);
    StoredSlot(s1, GAP_NOTICED, 14);
    TooEarlyToAsk(Stored(s1, GAP_NOTICED), 1100, 1100);
  }

  lemma Remembers(s: State, c: Clock)
    requires s.read == 10 && s.write == 11 && s.ring[10].ready
    ensures Searching(s, c).remembered == 11 && Searching(s, c).ring[10].ready
  {
    assert Idx(10) == 10;
    SearchedSlot(s, c, 10);
  }

  /** A late packet of the window takes its own slot. */
  lemma EnteredLate(s: State, q: nat, timestamp: nat, decoded: Decoded, now: nat)
    requires s.read < q < s.write <= s.read + BUFFER_FRAMES && s.write < 0x1_0000
    ensures var t := Entered(s, q, timestamp, decoded, now);
      && t == s.(ring := t.ring, holder := t.holder, accepted := t.accepted)
      && t.ring == s.ring[Idx(q) := Filled(s.ring[Idx(q)], q, timestamp, decoded, now)]
  {
    hide Unwrapped, Filled, Idx, Seq, Holding, Accepting;
    UnwrappedNear(s.write, q);
  }

  /** An undecodable packet 12, received when 11 to 13 have waited for 90. */
  lemma ThenSpoilt(s2: State) returns (s3: State)
    requires s2.synced && s2.read == 10 && s2.write == 15 && s2.remembered == 11 && Waiting(s2.ring, 1100, 1100, 1100)
    ensures s3 == After(s2, SPOILT) && EndOf(s2, SPOILT).Finished?
    ensures s3.synced && s3.read == 10 && s3.write == 15 && s3.remembered == 11 && Waiting(s3.ring, 1100, 1190, 1100)
  {
    hide Entered, Searching, Unwrapped;
    EnteredLate(s2, 12, 0, Bad, 1190);
    UnwrappedNear(15, 12);
    s3 := After(s2, SPOILT);
    TooEarlyToAsk(Stored(s2, SPOILT), 1190, 1190);
  }

  lemma OneRequest(r: Ring, c: Clock)
    requires Due(r, c, 11) && !Due(r, c, 12) && Due(r, c, 13) && !Due(r, c, 14) && !Due(r, c, 15)
    requires Missing(r, 11) && Missing(r, 12) && Missing(r, 13) && !Missing(r, 14) && !Missing(r, 15)
    ensures Runs(r, c, 11, 16, Run(0, 0)) == [Run(11, 2)]
  {
    hide Due, Missing;
    assert Runs(r, c, 15, 16, Run(0, 0)) == [];
    assert Runs(r, c, 14, 16, Run(11, 2)) == [Run(11, 2)];
    assert Runs(r, c, 13, 16, Run(11, 1)) == [Run(11, 2)];
    assert Runs(r, c, 12, 16, Run(11, 1)) == [Run(11, 2)];
  }

  /** When they have waited for 110, packets 11 and 13 are due and 12 is not, and 11 and 12 are asked for. */
  lemma AsksForTwo(s: State)
    requires s.synced && s.read == 10 && s.write == 16 && s.remembered == 11 && Waiting(s.ring, 1100, 1190, 1100)
      && s.ring[15].ready
    ensures var c := At(1210);
      && Due(s.ring, c, 11) && Missing(s.ring, 12) && !Due(s.ring, c, 12) && Due(s.ring, c, 13)
      && Requests(s, c, true) == [Run(11, 2)]
  {
    hide Due, Missing, Runs, Waiting, OnWire, SearchFrom;
    DueAt1210(s.ring);
    OneRequest(s.ring, At(1210));
    OneOnWire();
  }

  lemma OneOnWire()
    ensures SearchFrom(11, 10, 16) == 11 && OnWire([Run(11, 2)]) == [Run(11, 2)]
  {
    assert OnWire([Run(11, 2)]) == [Run(11, 2)] + OnWire([]);
  }

  lemma DueAt1210(r: Ring)
    requires Waiting(r, 1100, 1190, 1100) && r[15].ready
    ensures var c := At(1210);
      && Due(r, c, 11) && !Due(r, c, 12) && Due(r, c, 13) && !Due(r, c, 14) && !Due(r, c, 15)
      && Missing(r, 11) && Missing(r, 12) && Missing(r, 13) && !Missing(r, 14) && !Missing(r, 15)
  {
    assert Idx(11) == 11 && Idx(12) == 12 && Idx(13) == 13 && Idx(14) == 14 && Idx(15) == 15;
  }

  /**
   A run on which the wrong packets are asked for. Packets 11 to 13 are missing; an undecodable 12 comes,
   so that it is too early to ask for it again when 11 and 13 are due. The request is for two packets
   from 11 on: 12 is asked for, and 13 is not, though it counts as asked for.
   */
  lemma WrongPacketsAskedFor() returns (trace: seq<State>, events: seq<Event>)
    ensures RunOf(trace, events) && trace[0] == Initial() && |trace| <= |events| && events[|trace| - 1].Arrival?
    ensures EndOf(trace[|trace| - 1], events[|trace| - 1]).Finished?
    ensures var e := events[|trace| - 1];
      var stored := Stored(trace[|trace| - 1], e);
      && Due(stored.ring, e.clock, 11) && Missing(stored.ring, 12) && !Due(stored.ring, e.clock, 12)
      && Due(stored.ring, e.clock, 13)
      && Requests(stored, e.clock, e.enabled) == [Run(11, 2)]
  {
    hide RunOf, After, Waiting, Requests, Due, Missing, Safe;
    var s1, s2 := GapNoticed();
    var s3 := ThenSpoilt(s2);
    trace := [Initial(), s1, s2, s3];
    events := [HEARD_FIRST, GAP_NOTICED, SPOILT, HEARD_LAST];
    FourStates(trace, events);
    StillWaiting(s3);
    AsksForTwo(Stored(s3, HEARD_LAST));
  }

  lemma StillWaiting(s: State)
    requires s.synced && s.read == 10 && s.write == 15 && s.remembered == 11 && Waiting(s.ring, 1100, 1190, 1100)
    ensures EndOf(s, HEARD_LAST).Finished?
    ensures var t := Stored(s, HEARD_LAST);
      t.synced && t.read == 10 && t.write == 16 && t.remembered == 11 && Waiting(t.ring, 1100, 1190, 1100)
        && t.ring[15].ready
  {
    hide Entered, Unwrapped;
    EnteredNear(s, 15, 0, Decoded(FRAMES), 1210);
    UnwrappedNear(15, 15);
  }
}

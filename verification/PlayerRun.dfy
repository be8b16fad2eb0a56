/** Whole runs of the jitter buffer: packets arriving, flush requests and frames taken out, in any order. */
module PlayerRun {
  import opened PlayerSlots
  import opened PlayerResends
  import opened PlayerFlush
  import opened PlayerWindow
  import opened PlayerSteps
  import opened PlayerSafety
  import opened PlayerBuffer

  datatype Event =
    | Arrival(original: bool, seqno: nat, timestamp: nat, decoded: Decoded, clock: Clock, enabled: bool)
    | FlushTo(time: nat)
    | Get(shouldBe: nat, bufferingOver: bool, isTime: bool)

  predicate Possible(e: Event)
  {
    match e
    case Arrival(original, seqno, _, decoded, _, _) => seqno < 0x1_0000 && (!original ==> decoded.Decoded?)
    case FlushTo(time) => time < 0x1_0000_0000
    case Get(_, _, _) => true
  }

  /** The state after an arriving packet has been stored, before the search. */
  function Stored(s: State, e: Event): (t: State)
    requires e.Arrival? && Ordered(s)
    ensures t.read <= t.write
  {
    Storing(s, e.original, e.seqno, e.timestamp, e.decoded, e.clock.now)
  }

  /** The state after an event. */
  function After(s: State, e: Event): State
    requires Ordered(s)
  {
    match e
    case Arrival(_, _, _, _, clock, _) => Searching(Stored(s, e), clock)
    case FlushTo(time) => s.(flushRequested := true, flushTimestamp := time)
    case Get(shouldBe, bufferingOver, isTime) => Got(s, shouldBe, bufferingOver, isTime)
  }

  /** A run ends at a packet that takes the window over 1024, at a flush of a slot too short, or with a jump back. */
  datatype End = Finished | Overfull | Overrun | WentBack

  function EndOf(s: State, e: Event): End
    requires Ordered(s)
  {
    match e
    case Arrival(original, seqno, _, _, _, _) =>
      if s.synced && ArrivalOf(s, original, seqno) >= s.read + BUFFER_FRAMES then Overfull else Finished
    case FlushTo(_) => Finished
    case Get(shouldBe, _, _) =>
      if Overruns(s) then Overrun else if GoesBack(Skipped(Flushed(s), shouldBe)) then WentBack else Finished
  }

  /** What a state of a run is: what the slots hold, the order of the pointers, and what has been handed out. */
  predicate Safe(s: State)
  {
    && Sane(s) && s.flushTimestamp < 0x1_0000_0000
    && (s.synced ==> s.first <= s.read <= s.write <= s.read + BUFFER_FRAMES)
  }

  /** A gap that the arrival opens across the wrap-around contains no ready slot. */
  predicate GapSafe(s: State, e: Event)
  {
    e.Arrival? && s.synced && e.original ==> SafeGap(s, e.seqno)
  }

  /** The arrival is not an undecodable packet on a ready slot. */
  predicate Sound(s: State, e: Event)
  {
    e.Arrival? && s.synced ==> !Spoils(s, ArrivalOf(s, e.original, e.seqno), e.decoded)
  }

  /** The search does not start behind a missing packet. */
  predicate Remembering(s: State)
  {
    s.synced ==> PlaceSound(s)
  }

  /** Every step keeps a state safe, and all slots right if and only if the gap is safe. */
  lemma StepSafe(s: State, e: Event)
    requires Safe(s) && Possible(e) && EndOf(s, e).Finished?
    ensures var t := After(s, e);
      && Safe(t) && (Held(s) ==> (Held(t) <==> GapSafe(s, e)))
      && (Remembering(s) && Sound(s, e) ==> Remembering(t))
      && (e.Arrival? && Remembering(s) && Sound(s, e) ==>
            t.read <= t.write && Found(Stored(s, e)) == CountMissing(t.ring, t.read, t.write))
  {
    hide Sane, Held, Storing, Searching, Flushed, Skipped, Released, PlaceSound, PlaceUsable, Found, SafeGap, Spoils,
      Overruns,
      Releases, GoesBack, CountMissing, BUFFER_FRAMES;
    match e
    case Arrival(original, seqno, timestamp, decoded, clock, _) =>
      var t := Stored(s, e);
      StoringSane(s, original, seqno, timestamp, decoded, clock.now);
      Bounds(t);
      SearchingSane(t, clock);
      SearchComplete(t, clock);
      if Remembering(s) && Sound(s, e) {
        StoringUsable(s, original, seqno, timestamp, decoded, clock.now);
      }
    case FlushTo(time) =>
      SameSlots(s, After(s, e));
    case Get(shouldBe, bufferingOver, isTime) =>
      FlushedSane(s);
      SkippedSane(Flushed(s), shouldBe);
      ReleasedSane(Skipped(Flushed(s), shouldBe), bufferingOver, isTime);
      Bounds(After(s, e));
  }

  lemma Bounds(s: State)
    requires Sane(s)
    ensures s.synced ==> s.first <= s.read <= s.write <= s.read + BUFFER_FRAMES
  {
    hide Kept, ServedFrom;
    if s.synced {
      HeldMeans(s);
    }
  }

  /** A flush drops only packets that end before its timestamp, and changes only the one it stops at. */
  lemma FlushPasses(s: State)
    requires Ordered(s)
    ensures !s.flushRequested ==> Flushed(s) == s
    ensures var m := Flushed(s);
      m.synced ==>
        && s.synced && s.read <= m.read <= m.write == s.write && m.first == s.first && m.handed == s.handed
        && m.served == s.served
        && (m.read > s.read ==> Flushing(s))
        && (forall n | s.read <= n < m.read :: EndsBefore(s.ring[Idx(n)], s.flushTimestamp))
        && (forall n | n != m.read :: n in m.accepted <==> n in s.accepted)
        && (forall n | n != m.read && n in s.accepted :: m.accepted[n] == s.accepted[n])
  {
    hide Idx, EndsBefore, AnswerOf, StopOf, TooShort, FromTime, Cleared, Flushed, Overruns, Examined;
    FlushedCases(s);
    if Flushing(s) {
      WithinWindow(s);
      PassedByFlush(s.ring, s.read, s.write, s.flushTimestamp);
    }
  }

  lemma WithinWindow(s: State)
    requires Flushing(s)
    ensures s.synced && s.read < s.write
  {
  }

  /** One pass drops what ends before the flush timestamp and skips what is missing or out of date, and no more. */
  lemma GetPasses(s: State, shouldBe: nat, bufferingOver: bool, isTime: bool)
    requires Ordered(s) && !Overruns(s)
    ensures var m, t := Flushed(s), Got(s, shouldBe, bufferingOver, isTime);
      var p := Skipped(m, shouldBe).read;
      t.accepted == m.accepted &&
      (t.synced ==>
         && m.synced && s.read <= m.read <= p <= s.write == t.write
         && (forall n | s.read <= n < m.read :: Flushing(s) && EndsBefore(s.ring[Idx(n)], s.flushTimestamp))
         && (forall n | m.read <= n < p :: Skippable(m.ring[Idx(n)], shouldBe))
         && (t.read == p || t.read == p + 1 || GoesBack(Skipped(m, shouldBe))))
  {
    hide Idx, EndsBefore, Flushed, Overruns, Skippable, Flushing, Freed, Releases, GoesBack, SkipTo;
    FlushPasses(s);
  }

  /**
   When a frame is handed out, after flush and skip: no sooner than its time, unless it is silent, and not
   while the buffer is still filling. But when it is time and the buffer has filled, every number of the
   window is, whatever is in its slot.
   */
  lemma HandedOutWhen(s: State, shouldBe: nat, bufferingOver: bool, isTime: bool)
    requires Ordered(s) && !Overruns(s)
    ensures var m, t := Skipped(Flushed(s), shouldBe), Got(s, shouldBe, bufferingOver, isTime);
      var slot := m.ring[Idx(m.read)];
      && (m.synced && m.read < m.write && slot.ready && slot.timestamp != 0 && !isTime ==> t.handed == m.handed)
      && (m.buffering && !bufferingOver ==> t.handed == m.handed)
      && (!m.synced || m.read == m.write ==> t.handed == m.handed)
      && (m.synced && m.read < m.write && isTime && (m.buffering ==> bufferingOver && slot.ready) ==>
            && |t.handed| == |m.handed| + 1
            && (!GoesBack(m) ==> t.handed[|m.handed|] == m.read && t.served[|m.served|] == Freed(slot)))
  {
    hide Idx, Flushed, Skipped, Overruns, Stale, Freed;
  }

  lemma {:induction false} PassedByFlush(ring: Ring, r: nat, w: nat, t: nat)
    requires r < w
    ensures forall n | r <= n < StopOf(ring, r, w, t) :: EndsBefore(ring[Idx(n)], t)
    decreases w - r
  {
    hide EndsBefore, Idx;
    if r + 1 < w && EndsBefore(ring[Idx(r)], t) {
      PassedByFlush(ring, r + 1, w, t);
    }
  }

  // ---------- runs ----------

  /** The states of a run, each the next of the one before, up to where it ends. */
  predicate RunOf(trace: seq<State>, events: seq<Event>)
  {
    && 0 < |trace| <= |events| + 1 && (forall i | 0 <= i < |trace| :: Ordered(trace[i]))
    && forall i | 0 <= i < |trace| - 1 :: Follows(trace[i], events[i], trace[i + 1])
  }

  predicate Follows(s: State, e: Event, t: State)
    requires Ordered(s)
  {
    Possible(e) && EndOf(s, e).Finished? && t == After(s, e)
  }

  predicate AllHeld(trace: seq<State>, k: nat)
    requires k < |trace|
  {
    forall i | 0 <= i <= k :: Held(trace[i])
  }

  predicate AllGapsSafe(trace: seq<State>, events: seq<Event>, k: nat)
    requires k <= |trace| && k <= |events|
  {
    forall i | 0 <= i < k :: GapSafe(trace[i], events[i])
  }

  predicate AllSound(trace: seq<State>, events: seq<Event>, k: nat)
    requires k <= |trace| && k <= |events|
  {
    forall i | 0 <= i < k :: Sound(trace[i], events[i])
  }

  /** The search after an arrival finds all that is missing in the window. */
  predicate Complete(s: State, e: Event, t: State)
    requires e.Arrival? && Ordered(s)
  {
    t.read <= t.write && Found(Stored(s, e)) == CountMissing(t.ring, t.read, t.write)
  }

  /**
   On every run from a safe state every state is safe: numbers are handed out once each, in order, with
   the packet accepted for them. All slots hold what they should throughout if and only if every gap
   across the wrap-around is safe. As long as no undecodable packet lands on a ready slot, every search
   is complete.
   */
  lemma {:induction false} RunSafe(trace: seq<State>, events: seq<Event>, k: nat)
    requires RunOf(trace, events) && Safe(trace[0]) && k < |trace|
    ensures Safe(trace[k])
    ensures Held(trace[0]) ==> (AllHeld(trace, k) <==> AllGapsSafe(trace, events, k))
    ensures Remembering(trace[0]) && AllSound(trace, events, k) ==>
      Remembering(trace[k]) && (k > 0 && events[k - 1].Arrival? ==> Complete(trace[k - 1], events[k - 1], trace[k]))
  {
    hide Safe, Held, GapSafe, Sound, Remembering, EndOf, After, Possible, Found, CountMissing;
    if k > 0 {
      RunSafe(trace, events, k - 1);
      assert Follows(trace[k - 1], events[k - 1], trace[k - 1 + 1]);
      StepSafe(trace[k - 1], events[k - 1]);
    }
  }

  /**
   If all slots hold what they should at first and every gap across the wrap-around is safe, the read
   pointer never goes back.
   */
  lemma NeverBack(trace: seq<State>, events: seq<Event>, e: Event)
    requires RunOf(trace, events) && Safe(trace[0]) && Held(trace[0]) && AllGapsSafe(trace, events, |trace| - 1)
    ensures !EndOf(trace[|trace| - 1], e).WentBack?
  {
    hide Safe, Held, GapSafe, Follows, Skipped, Flushed, Overruns, GoesBack, Sane;
    var k := |trace| - 1;
    RunSafe(trace, events, k);
    if e.Get? {
      SafeIsSane(trace[k]);
      FlushedSane(trace[k]);
      SkippedSane(Flushed(trace[k]), e.shouldBe);
      HeldStays(Skipped(Flushed(trace[k]), e.shouldBe));
    }
  }

  lemma SafeIsSane(s: State)
    requires Safe(s)
    ensures Sane(s)
  {
  }

  // ---------- the latest packet ----------

  datatype Latest = None | Some(packet: Packet)

  /** The packet that arrives is for number `n`, and not too late. */
  predicate ArrivesFor(s: State, e: Event, n: nat)
    requires e.Arrival?
  {
    if s.synced then ArrivalOf(s, e.original, e.seqno) == n && !(n <= s.read && n < s.write) else n == e.seqno
  }

  /** The latest packet that arrived for number `n` in the first `k` events, and in time. */
  function LatestFor(trace: seq<State>, events: seq<Event>, k: nat, n: nat): Latest
    requires RunOf(trace, events) && k < |trace|
  {
    if k == 0 || !trace[k].synced then None
    else
      var s, e := trace[k - 1], events[k - 1];
      var before := if s.synced then LatestFor(trace, events, k - 1, n) else None;
      if e.Arrival? && ArrivesFor(s, e, n) then
        if e.decoded.Decoded? then Some(Packet(e.timestamp, e.decoded.frames)) else None
      else before
  }

  /** The packet itself, or what a flush has left of it. */
  ghost predicate IsTail(a: Packet, p: Packet)
  {
    a == p || exists k | 0 < k <= |p.frames| :: a.frames == p.frames[k..]
  }

  predicate NoFlush(trace: seq<State>, events: seq<Event>, k: nat)
    requires k < |trace| <= |events| + 1
  {
    !trace[0].flushRequested && forall i | 0 <= i < k :: !events[i].FlushTo?
  }

  lemma TailOfTail(a: Packet, b: Packet, c: Packet)
    requires IsTail(a, b) && IsTail(b, c)
    ensures IsTail(a, c)
  {
    if a != b && b != c {
      var j :| 0 < j <= |b.frames| && a.frames == b.frames[j..];
      var k :| 0 < k <= |c.frames| && b.frames == c.frames[k..];
      assert a.frames == c.frames[j + k..];
    }
  }

  lemma FromTimeTail(s: Slot, t: nat)
    requires !TooShort(s, t)
    ensures var f := FromTime(s, t); IsTail(Packet(f.timestamp, f.frames), Packet(s.timestamp, s.frames))
  {
  }

  /** What a flush leaves of an accepted packet. */
  lemma FlushTails(s: State, n: nat)
    requires Sane(s) && Ordered(s) && Flushed(s).synced
    ensures s.synced && (n in Flushed(s).accepted <==> n in s.accepted)
    ensures n in s.accepted ==> IsTail(Flushed(s).accepted[n], s.accepted[n])
  {
    hide Idx, EndsBefore, AnswerOf, StopOf, TooShort, FromTime, Cleared, Flushed, Overruns, Examined, IsTail,
      ServedFrom, Recent;
    Itself(if n in s.accepted then s.accepted[n] else Packet(0, []));
    FlushedCases(s);
    if Flushing(s) {
      WithinWindow(s);
      var m := StopOf(s.ring, s.read, s.write, s.flushTimestamp);
      assert SlotKept(s.ring, s.holder, s.accepted, s.first, s.read, s.write, Idx(m));
      if !TooShort(s.ring[Idx(m)], s.flushTimestamp) {
        FromTimeTail(s.ring[Idx(m)], s.flushTimestamp);
      }
    }
  }

  lemma Itself(p: Packet)
    ensures IsTail(p, p)
  {
  }

  lemma LatestStep(trace: seq<State>, events: seq<Event>, k: nat, n: nat)
    requires RunOf(trace, events) && 0 < k < |trace| && Safe(trace[k - 1]) && trace[k].synced
    ensures var s, e, t := trace[k - 1], events[k - 1], trace[k];
      if !s.synced then
        var latest := LatestFor(trace, events, k, n);
        (n in t.accepted <==> latest.Some?) && (latest.Some? ==> t.accepted[n] == latest.packet)
      else if e.Arrival? && ArrivesFor(s, e, n) then
        var latest := LatestFor(trace, events, k, n);
        (n in t.accepted <==> latest.Some?) && (latest.Some? ==> t.accepted[n] == latest.packet)
      else
        && LatestFor(trace, events, k, n) == LatestFor(trace, events, k - 1, n)
        && (n in t.accepted <==> n in s.accepted) && (n in s.accepted ==> IsTail(t.accepted[n], s.accepted[n]))
        && (!s.flushRequested && n in s.accepted ==> t.accepted[n] == s.accepted[n])
  {
    hide Sane, Idx, IsTail, Flushed, Overruns, Arrived, Holding, Stamped, FirstMissing, SearchFrom, Unwrapped,
      SkipTo, Freed, Seq, GoesBack;
    var s, e, t := trace[k - 1], events[k - 1], trace[k];
    assert Follows(s, e, trace[k - 1 + 1]);
    Itself(if n in s.accepted then s.accepted[n] else Packet(0, []));
    AtWrite(s.write);
    AtWrite(if e.Arrival? then e.seqno else 0);
    SeqBelow(if e.Arrival? then e.seqno else 0);
    if e.Get? {
      FlushPasses(s);
      FlushTails(s, n);
    }
  }

  lemma {:induction false} NotRequested(trace: seq<State>, events: seq<Event>, k: nat)
    requires RunOf(trace, events) && k < |trace| && NoFlush(trace, events, k)
    ensures !trace[k].flushRequested
  {
    hide Flushed, Overruns, Arrived, Holding, Stamped, FirstMissing, SearchFrom, SkipTo, Freed, GoesBack, Releases,
      EndOf, Possible;
    if k > 0 {
      NotRequested(trace, events, k - 1);
      assert Follows(trace[k - 1], events[k - 1], trace[k - 1 + 1]);
      FlushPasses(trace[k - 1]);
    }
  }

  /**
   On every run of a new buffer, a packet is accepted for a number exactly if the latest one that
   arrived for it in time could be decoded; and it is that packet, or what flushes have left of it.
   */
  lemma {:induction false} AcceptedIsLatest(trace: seq<State>, events: seq<Event>, k: nat, n: nat)
    requires RunOf(trace, events) && Safe(trace[0]) && !trace[0].synced && k < |trace| && trace[k].synced
    ensures var latest := LatestFor(trace, events, k, n);
      && (n in trace[k].accepted <==> latest.Some?)
      && (latest.Some? ==> IsTail(trace[k].accepted[n], latest.packet))
      && (latest.Some? && NoFlush(trace, events, k) ==> trace[k].accepted[n] == latest.packet)
  {
    hide Safe, IsTail, LatestFor, Follows;
    if k > 0 {
      RunSafe(trace, events, k - 1);
      LatestStep(trace, events, k, n);
      Itself(if n in trace[k].accepted then trace[k].accepted[n] else Packet(0, []));
      if trace[k - 1].synced {
        AcceptedIsLatest(trace, events, k - 1, n);
        if NoFlush(trace, events, k) {
          NotRequested(trace, events, k - 1);
        }
        var latest := LatestFor(trace, events, k - 1, n);
        if n in trace[k].accepted && latest.Some? && IsTail(trace[k].accepted[n], trace[k - 1].accepted[n]) {
          TailOfTail(trace[k].accepted[n], trace[k - 1].accepted[n], latest.packet);
        }
      }
    }
  }

  // ---------- the buffer itself ----------

  lemma ValidIsSafe(buffer: PlayerBuffer)
    requires buffer.Valid()
    ensures buffer.slots.Length == BUFFER_FRAMES && Safe(buffer.Now()) && Ordered(buffer.Now())
  {
    hide Sane, Seq;
    Bounds(buffer.Now());
  }

  /** One event. The counts of all requests made add up to the number of packets stamped. */
  method Step(buffer: PlayerBuffer, e: Event) returns (end: End, missing: nat, requests: seq<Run>)
    requires buffer.Valid() && Possible(e)
    modifies buffer, buffer.slots
    ensures buffer.slots.Length == BUFFER_FRAMES && Ordered(old(buffer.Now())) && end == EndOf(old(buffer.Now()), e)
    ensures buffer.Now() == if end.Overfull? then old(buffer.Now()) else After(old(buffer.Now()), e)
    ensures !end.WentBack? ==> buffer.Valid()
    ensures end.Finished? && e.Arrival? ==>
      var stored := Stored(old(buffer.Now()), e);
      && missing == Found(stored) && requests == Requests(stored, e.clock, e.enabled)
      && (e.enabled ==> Total(requests) == Stamps(stored, e.clock))
  {
    hide Sane, Seq, Storing, Searching, Flushed, Skipped, Found, Requests, Stamps, Overruns, GoesBack, Unwrapped,
      Released, Releases,
      Total, Freed;
    end, missing, requests := Finished, 0, [];
    if e.Arrival? {
      if buffer.synced {
        buffer.FitsMeans(e.original, e.seqno);
      }
      if !buffer.Fits(e.original, e.seqno) {
        end := Overfull;
        return;
      }
      missing, requests := buffer.Put(e.original, e.seqno, e.timestamp, e.decoded, e.clock, e.enabled);
    } else if e.FlushTo? {
      buffer.RequestFlush(e.time);
    } else {
      var released, aliased, overrun, frame := buffer.NextFrame(e.shouldBe, e.bufferingOver, e.isTime);
      end := if overrun then Overrun else if aliased then WentBack else Finished;
    }
  }

  /** Any sequence of events from any valid buffer takes it through the states specified. */
  method Play(buffer: PlayerBuffer, events: seq<Event>)
    returns (end: End, missing: seq<nat>, requests: seq<seq<Run>>, ghost trace: seq<State>)
    requires buffer.Valid() && forall e | e in events :: Possible(e)
    modifies buffer, buffer.slots
    ensures buffer.slots.Length == BUFFER_FRAMES && RunOf(trace, events) && trace[0] == old(buffer.Now())
      && Safe(trace[0])
    ensures |missing| == |requests| == |trace| - 1 && Answers(trace, events, missing, requests)
    ensures end.Finished? ==> |trace| == |events| + 1
    ensures !end.Finished? ==> |trace| <= |events| && end == EndOf(trace[|trace| - 1], events[|trace| - 1])
    ensures var last := trace[|trace| - 1];
      buffer.Now() == if end.Finished? || end.Overfull? then last else After(last, events[|trace| - 1])
    ensures !end.WentBack? ==> buffer.Valid()
  {
    hide *;
    ValidIsSafe(buffer);
    end, missing, requests, trace := Finished, [], [], [buffer.Now()];
    RunBegins(buffer.Now(), events);
    while |missing| < |events|
      invariant |missing| == |requests| == |trace| - 1 <= |events| && trace[|missing|] == buffer.Now() && buffer.Valid()
      invariant end.Finished? && buffer.slots.Length == BUFFER_FRAMES
      invariant RunOf(trace, events) && trace[0] == old(buffer.Now())
      invariant Answers(trace, events, missing, requests)
      decreases |events| - |missing|
    {
      var e := events[|missing|];
      assert e in events;
      var found, asked;
      end, found, asked := Step(buffer, e);
      if !end.Finished? {
        return;
      }
      ValidIsSafe(buffer);
      RunGrows(trace, events, buffer.Now());
      AnswersGrow(trace, events, missing, requests, buffer.Now(), found, asked);
      missing, requests, trace := missing + [found], requests + [asked], trace + [buffer.Now()];
    }
  }

  /** What the searches of a run have found and asked for. */
  predicate Answers(trace: seq<State>, events: seq<Event>, missing: seq<nat>, requests: seq<seq<Run>>)
    requires RunOf(trace, events) && |missing| == |requests| == |trace| - 1
  {
    forall i | 0 <= i < |missing| && events[i].Arrival? ::
      missing[i] == Found(Stored(trace[i], events[i]))
      && requests[i] == Requests(Stored(trace[i], events[i]), events[i].clock, events[i].enabled)
  }

  lemma RunBegins(s: State, events: seq<Event>)
    requires Ordered(s)
    ensures RunOf([s], events) && Answers([s], events, [], [])
  {
  }

  lemma RunGrows(trace: seq<State>, events: seq<Event>, t: State)
    requires RunOf(trace, events) && |trace| <= |events| && Ordered(t) && Possible(events[|trace| - 1])
    requires EndOf(trace[|trace| - 1], events[|trace| - 1]).Finished?
      && t == After(trace[|trace| - 1], events[|trace| - 1])
    ensures RunOf(trace + [t], events)
  {
    hide Ordered, After, EndOf, Possible;
    var all := trace + [t];
    assert Follows(trace[|trace| - 1], events[|trace| - 1], t);
    assert forall i | 0 <= i < |trace| :: all[i] == trace[i];
  }

  lemma AnswersGrow(trace: seq<State>, events: seq<Event>, missing: seq<nat>, requests: seq<seq<Run>>, t: State, found: nat,
                    asked: seq<Run>)
    requires RunOf(trace, events) && RunOf(trace + [t], events)
    requires |missing| == |requests| == |trace| - 1 && Answers(trace, events, missing, requests)
    requires var s, e := trace[|trace| - 1], events[|trace| - 1];
      e.Arrival? ==> found == Found(Stored(s, e)) && asked == Requests(Stored(s, e), e.clock, e.enabled)
    ensures Answers(trace + [t], events, missing + [found], requests + [asked])
  {
    hide Found, Requests, Stored, Ordered, Follows;
    var all, more := trace + [t], missing + [found];
    assert forall i | 0 <= i < |trace| :: all[i] == trace[i];
    assert forall i | 0 <= i < |missing| :: more[i] == missing[i];
  }
}

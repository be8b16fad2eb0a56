/** What every step of the jitter buffer keeps, and when. */
module PlayerSafety {
  import opened Numbers
  import opened PlayerSlots
  import opened PlayerResends
  import opened PlayerFlush
  import opened PlayerWindow
  import opened PlayerStream
  import opened PlayerSteps

  /**
   What every run keeps while the window fits the ring and the read pointer never goes back: what
   ready slots hold, and that numbers are handed out once each, in order, with the packet accepted for
   them or as silence.
   */
  predicate Sane(s: State)
  {
    if s.synced then
      Kept(s.ring, s.holder, s.accepted, s.first, s.read, s.write) && ServedFrom(s.handed, s.served, s.read, s.accepted)
    else NothingReady(s.ring)
  }

  predicate NothingReady(ring: Ring)
  {
    forall i | 0 <= i < BUFFER_FRAMES :: !ring[i].ready
  }

  /** The slots of the window hold exactly the latest packets accepted for their numbers. */
  predicate Held(s: State)
  {
    s.synced ==> AllHold(s.ring, s.accepted, s.read, s.write)
  }

  lemma HeldMeans(s: State)
    requires Sane(s) && s.synced
    ensures Held(s) <==> NoneStale(s.ring, s.read, s.write)
    ensures s.first <= s.read <= s.write <= s.read + BUFFER_FRAMES
  {
    hide Kept, NoneStale, AllHold, ServedFrom;
    AllHoldMeans(s.ring, s.holder, s.accepted, s.first, s.read, s.write);
    KeptBounds(s.ring, s.holder, s.accepted, s.first, s.read, s.write);
  }

  /** A gap across the wrap-around of the sequence numbers contains no slot that still looks ready. */
  predicate SafeGap(s: State, q: nat)
  {
    Unwrapped(s.write, q) > s.write && q < Seq(s.write) ==> NoneReady(s.ring, s.write, Unwrapped(s.write, q))
  }

  // ---------- an arriving packet ----------

  lemma GapSize(a: nat, q: nat)
    requires a < 0x1_0000 && q < 0x1_0000 && IsAfter(a, q)
    ensures Wrap16(q - a) == if q > a then q - a else q - a + 0x1_0000
  {
  }

  /** The gap before a newer packet, as the code computes it, is its size unless the numbers wrap in between. */
  lemma AheadOf(r: nat, w: nat, q: nat)
    requires r <= w <= r + BUFFER_FRAMES && q < 0x1_0000 && w < Unwrapped(w, q) < r + BUFFER_FRAMES
    ensures var n := Unwrapped(w, q);
      q == Seq(n) && q != Seq(w) && (q > Seq(w) ==> q - Seq(w) == n - w) && (q < Seq(w) ==> w / 0x1_0000 < n / 0x1_0000)
  {
    PlaceIsExact(r, w, q);
    GapSize(Seq(w), q);
  }

  /** Moving the end of the window to `n`. The slots between are marked unless the gap is not positive. */
  lemma OpenedKept(ring: Ring, holder: Holders, accepted: map<nat, Packet>, first: nat, r: nat, w: nat, n: nat, gap: int,
                   now: nat)
    requires Kept(ring, holder, accepted, first, r, w) && w < n < r + BUFFER_FRAMES
    requires if gap > 0 then gap == n - w else w / 0x1_0000 < n / 0x1_0000
    ensures var wide := if gap > 0 then Marked(ring, w, gap, now) else ring;
      var held := if gap > 0 then MarkedBy(holder, w, gap) else holder;
      && Kept(wide, held, accepted, first, r, n)
      && (NoneStale(ring, r, w) ==> (NoneStale(wide, r, n) <==> gap > 0 || NoneReady(ring, w, n)))
  {
    hide Kept, Marked, MarkedBy, NoneStale, NoneReady;
    KeptBounds(ring, holder, accepted, first, r, w);
    if gap > 0 {
      KeptMarked(ring, holder, accepted, first, r, w, gap, now);
      if NoneStale(ring, r, w) {
        NoneStaleMarked(ring, r, w, gap, now);
      }
    } else {
      KeptCrossed(ring, holder, accepted, first, r, w, n);
      if NoneStale(ring, r, w) {
        NoneStaleUnmarked(ring, holder, accepted, first, r, w, n);
      }
    }
  }

  /** What arrives is not for a number passed already, so what has been served stays as it was. */
  lemma ServedStays(handed: seq<nat>, served: seq<Slot>, r: nat, accepted: map<nat, Packet>, w: nat, n: nat,
                    timestamp: nat, decoded: Decoded)
    requires ServedFrom(handed, served, r, accepted) && n >= r
    ensures ServedFrom(handed, served, r, Accepting(accepted, r, w, n, timestamp, decoded))
  {
  }

  /** The slot of a packet of the window, or of the one behind it, is filled. */
  lemma FilledKept(ring: Ring, holder: Holders, accepted: map<nat, Packet>, first: nat, r: nat, w: nat, n: nat, timestamp: nat,
                   decoded: Decoded, now: nat)
    requires Kept(ring, holder, accepted, first, r, w) && r <= n <= w && n < r + BUFFER_FRAMES && (n == r ==> n == w)
    ensures var filled := ring[Idx(n) := Filled(ring[Idx(n)], Seq(n), timestamp, decoded, now)];
      var w' := if n == w then w + 1 else w;
      && Kept(filled, holder[Idx(n) := n], Accepting(accepted, r, w, n, timestamp, decoded), first, r, w')
      && (NoneStale(ring, r, w) ==> NoneStale(filled, r, w'))
      && (n == w && NoneStale(filled, r, w') ==> NoneStale(ring, r, w))
  {
    hide Kept, NoneStale, Idx, Seq;
    var slot := Filled(ring[Idx(n)], Seq(n), timestamp, decoded, now);
    KeptBounds(ring, holder, accepted, first, r, w);
    KeptFilled(ring, holder, accepted, first, r, w, n, slot);
    NoneStaleFilled(ring, r, w, n, slot);
    assert Recorded(accepted, n, slot) == Accepting(accepted, r, w, n, timestamp, decoded);
  }

  /** Storing a packet keeps the buffer sane; all slots go on holding what they should exactly if the gap is safe. */
  lemma EnteredSane(s: State, q: nat, timestamp: nat, decoded: Decoded, now: nat)
    requires Sane(s) && s.synced && q < 0x1_0000 && Unwrapped(s.write, q) < s.read + BUFFER_FRAMES
    ensures var t := Entered(s, q, timestamp, decoded, now);
      s.read <= s.write && Sane(t) && (Held(s) ==> (Held(t) <==> SafeGap(s, q)))
  {
    hide Kept, NoneStale, AllHold, ServedFrom, Marked, MarkedBy, Filled, Accepting, NoneReady, Wrap16, Held, Unwrapped;
    var n, gap, r, w := Unwrapped(s.write, q), q - Seq(s.write), s.read, s.write;
    HeldMeans(s);
    PlaceIsExact(r, w, q);
    if n < 0 || (n <= r && n < w) {
      TooLateStays(s.accepted, r, w, n, timestamp, decoded);
      assert Entered(s, q, timestamp, decoded, now) == s;
    } else {
      var wide, held, w' := s.ring, s.holder, w;
      if n > w {
        AheadOf(r, w, q);
        OpenedKept(s.ring, s.holder, s.accepted, s.first, r, w, n, gap, now);
        AcceptedAlike(s.accepted, r, w, n, timestamp, decoded);
        w' := n;
        if gap > 0 {
          wide, held := Marked(s.ring, w, gap, now), MarkedBy(s.holder, w, gap);
        }
      }
      FilledKept(wide, held, s.accepted, s.first, r, w', n, timestamp, decoded, now);
      ServedStays(s.handed, s.served, r, s.accepted, w, n, timestamp, decoded);
      HeldMeans(Entered(s, q, timestamp, decoded, now));
    }
  }

  lemma AcceptedAlike(accepted: map<nat, Packet>, r: nat, w: nat, n: nat, timestamp: nat, decoded: Decoded)
    requires w <= n
    ensures Accepting(accepted, r, n, n, timestamp, decoded) == Accepting(accepted, r, w, n, timestamp, decoded)
  {
  }

  lemma TooLateStays(accepted: map<nat, Packet>, r: nat, w: nat, n: int, timestamp: nat, decoded: Decoded)
    requires n < 0 || (n <= r && n < w)
    ensures Accepting(accepted, r, w, n, timestamp, decoded) == accepted
  {
  }

  /** The first packet, or another one: the buffer is synced and sane. */
  lemma StoringSane(s: State, original: bool, seqno: nat, timestamp: nat, decoded: Decoded, now: nat)
    requires Sane(s) && Ordered(s) && seqno < 0x1_0000
      && (s.synced ==> s.read + BUFFER_FRAMES > ArrivalOf(s, original, seqno))
    ensures var t := Storing(s, original, seqno, timestamp, decoded, now);
      && Sane(t) && t.synced
      && (Held(s) ==> (Held(t) <==> (s.synced && original ==> SafeGap(s, seqno))))
  {
    hide Kept, NoneStale, NoneReady, AllHold, ServedFrom, Entered, Unwrapped;
    AtWrite(s.write);
    AtWrite(seqno);
    var b, q := Begun(s, seqno), if s.synced && !original then Seq(s.write) else seqno;
    if !s.synced {
      KeptAtFirst(s.ring, s.holder, seqno);
      HeldAtFirst(s.ring, seqno);
    }
    SeqBelow(seqno);
    HeldMeans(b);
    EnteredSane(b, q, timestamp, decoded, now);
  }

  /** The number of an arriving packet; only packets in original form have one of their own. */
  function ArrivalOf(s: State, original: bool, seqno: nat): int
  {
    if original then Unwrapped(s.write, seqno) else s.write
  }

  lemma HeldAtFirst(ring: Ring, n: nat)
    ensures AllHold(ring, map[], n, n) && ServedFrom([], [], n, map[])
  {
  }

  lemma SeqBelow(n: nat)
    ensures n < 0x1_0000 ==> Seq(n) == n
  {
  }

  lemma AtWrite(w: nat)
    ensures Unwrapped(w, Seq(w)) == w
  {
  }

  // ---------- the search ----------

  lemma NoneStaleSimilar(ring: Ring, ring': Ring, r: nat, w: nat)
    requires Similar(ring', ring)
    ensures NoneStale(ring, r, w) <==> NoneStale(ring', r, w)
  {
    hide Idx, Seq;
    forall n | r <= n < w
      ensures Stale(ring', n) <==> Stale(ring, n)
    {
      var i := Idx(n);
      assert ring'[i] == ring[i].(resendTime := ring'[i].resendTime, resends := ring'[i].resends);
    }
  }

  lemma SearchingSane(s: State, c: Clock)
    requires Sane(s) && s.synced && s.read <= s.write
    ensures Sane(Searching(s, c)) && (Held(s) <==> Held(Searching(s, c)))
  {
    hide Kept, NoneStale, AllHold, ServedFrom, Stamped, SearchFrom, FirstMissing, Similar, Held;
    var x, t := SearchFrom(s.remembered, s.read, s.write), Searching(s, c);
    StampedSimilar(s.ring, c, x, s.write);
    KeptSimilar(s.ring, t.ring, s.holder, s.accepted, s.first, s.read, s.write);
    NoneStaleSimilar(s.ring, t.ring, s.read, s.write);
    HeldMeans(s);
    HeldMeans(t);
  }

  /** The remembered place lies in the window, or at most 1024 before its end, and nothing is missing before it. */
  predicate PlaceSound(s: State)
  {
    var p := Wrap16(s.remembered - Seq(s.read));
    && s.remembered >= 0 && s.write - s.read - BUFFER_FRAMES <= p <= s.write - s.read
    && (p > 0 ==> NoneMissing(s.ring, s.read, s.read + p))
  }

  /** Nothing is missing before the place where the search will start. */
  predicate PlaceUsable(s: State)
    requires s.read <= s.write
  {
    NoneMissing(s.ring, s.read, SearchFrom(s.remembered, s.read, s.write))
  }

  lemma NoneBeforeFirst(ring: Ring, ring': Ring, r: nat, w: nat)
    requires r <= w && Similar(ring', ring)
    ensures NoneMissing(ring', r, FirstMissing(ring, r, w))
  {
    hide FirstMissing, Idx;
    forall n | r <= n < FirstMissing(ring, r, w)
      ensures !Missing(ring', n)
    {
      assert !Missing(ring, n);
      var i := Idx(n);
      assert ring'[i] == ring[i].(resendTime := ring'[i].resendTime, resends := ring'[i].resends);
    }
  }

  /** From a usable place, and only from one, the search finds all that is missing; and it remembers a sound place. */
  lemma SearchComplete(s: State, c: Clock)
    requires s.read <= s.write <= s.read + BUFFER_FRAMES
    ensures PlaceUsable(s) <==> Found(s) == CountMissing(Searching(s, c).ring, s.read, s.write)
    ensures PlaceUsable(s) ==> PlaceSound(Searching(s, c))
  {
    hide Seq, Wrap16, CountMissing, FirstMissing, Stamped, NoneMissing, Similar, SearchFrom;
    var r, w, x := s.read, s.write, SearchFrom(s.remembered, s.read, s.write);
    LaterStart(s.ring, r, x, w);
    StampedCount(s.ring, c, x, w, r, w);
    StampedSimilar(s.ring, c, x, w);
    var first := FirstMissing(s.ring, r, w);
    SeqDistance(r, first);
    NoneBeforeFirst(s.ring, Searching(s, c).ring, r, w);
  }

  /** An undecodable packet for number `n` lands on a slot of the window that is ready. */
  predicate Spoils(s: State, n: int, decoded: Decoded)
  {
    decoded.Bad? && s.read < n < s.write && s.ring[Idx(n)].ready
  }

  /** Storing a packet that spoils nothing leaves nothing missing before the remembered place. */
  lemma StillUsable(ring: Ring, r: nat, w: nat, n: int, gap: int, q: nat, timestamp: nat, decoded: Decoded, now: nat, x: nat)
    requires r <= x <= w <= r + BUFFER_FRAMES && n < r + BUFFER_FRAMES && NoneMissing(ring, r, x)
    requires n > w && gap > 0 ==> gap == n - w
    requires !(decoded.Bad? && r < n < w && ring[Idx(n)].ready)
    ensures NoneMissing(Arrived(ring, r, w, n, gap, q, timestamp, decoded, now), r, x)
  {
    hide Idx;
    var after := Arrived(ring, r, w, n, gap, q, timestamp, decoded, now);
    forall m | r <= m < x
      ensures !Missing(after, m)
    {
      assert !Missing(ring, m);
      if n > w && gap > 0 {
        MarkedElsewhere(ring, w, gap, now, m);
      }
      if 0 <= n && m < n {
        IdxDistinct(m, n);
      } else if 0 <= n < m && n > r {
        IdxDistinct(n, m);
      }
    }
  }

  lemma EnteredUsable(s: State, q: nat, timestamp: nat, decoded: Decoded, now: nat)
    requires s.read <= s.write <= s.read + BUFFER_FRAMES && q < 0x1_0000
      && Unwrapped(s.write, q) < s.read + BUFFER_FRAMES
    requires PlaceSound(s) && !Spoils(s, Unwrapped(s.write, q), decoded)
    ensures PlaceUsable(Entered(s, q, timestamp, decoded, now))
  {
    hide Seq, Wrap16, Arrived, NoneMissing, Unwrapped, Idx, Accepting, Holding;
    var n, gap, p := Unwrapped(s.write, q), q - Seq(s.write), Wrap16(s.remembered - Seq(s.read));
    if s.write < n {
      AheadOf(s.read, s.write, q);
    }
    NoneAtOnce(Entered(s, q, timestamp, decoded, now).ring, s.read);
    if 0 < p {
      StillUsable(s.ring, s.read, s.write, n, gap, q, timestamp, decoded, now, s.read + p);
    }
  }

  lemma NoneAtOnce(ring: Ring, r: nat)
    ensures NoneMissing(ring, r, r)
  {
  }

  lemma StoringUsable(s: State, original: bool, seqno: nat, timestamp: nat, decoded: Decoded, now: nat)
    requires s.synced ==> s.read <= s.write <= s.read + BUFFER_FRAMES
    requires s.synced ==> ArrivalOf(s, original, seqno) < s.read + BUFFER_FRAMES
    requires seqno < 0x1_0000
    requires s.synced ==> PlaceSound(s) && !Spoils(s, ArrivalOf(s, original, seqno), decoded)
    ensures PlaceUsable(Storing(s, original, seqno, timestamp, decoded, now))
  {
    hide PlaceSound, NoneMissing, Arrived, Unwrapped, Seq, Spoils, Accepting, Holding;
    AtWrite(s.write);
    AtWrite(seqno);
    SeqBelow(seqno);
    if s.synced {
      EnteredUsable(s, if original then seqno else Seq(s.write), timestamp, decoded, now);
    } else {
      NoneAtOnce(Storing(s, original, seqno, timestamp, decoded, now).ring, seqno);
    }
  }

  // ---------- reading on ----------

  lemma WrapShift(r: nat, r': nat, q: int, p: int)
    requires 0 <= r' - r <= BUFFER_FRAMES && p == Wrap16(q - Seq(r)) && -2 * BUFFER_FRAMES <= p <= BUFFER_FRAMES
    ensures Wrap16(q - Seq(r')) == p - (r' - r)
  {
    hide Wrap16;
    Wrap16Range(q - Seq(r));
    var a, b, k := r / 0x1_0000, r' / 0x1_0000, (q - Seq(r) - p) / 0x1_0000;
    assert q - Seq(r') - (p - (r' - r)) == (k + b - a) * 0x1_0000;
    Wrap16Exact(q - Seq(r'), p - (r' - r));
  }

  lemma ServedOn(handed: seq<nat>, served: seq<Slot>, r: nat, accepted: map<nat, Packet>, r': nat)
    requires ServedFrom(handed, served, r, accepted) && r <= r'
    ensures ServedFrom(handed, served, r', accepted)
  {
  }

  /** Moving the read pointer on, up to the write pointer. */
  lemma ReadOn(s: State, r: nat)
    requires Sane(s) && s.synced && s.read <= r <= s.write
    ensures var t := s.(read := r);
      Sane(t) && (Held(s) ==> Held(t)) && (PlaceSound(s) ==> PlaceSound(t))
  {
    hide Kept, NoneStale, AllHold, ServedFrom, Wrap16, Seq, Missing, Held;
    var t := s.(read := r);
    HeldMeans(s);
    KeptAdvanced(s.ring, s.holder, s.accepted, s.first, s.read, s.write, r);
    ServedOn(s.handed, s.served, s.read, s.accepted, r);
    HeldMeans(t);
    if NoneStale(s.ring, s.read, s.write) {
      NoneStaleAdvanced(s.ring, s.read, s.write, r);
    }
    if PlaceSound(s) {
      WrapShift(s.read, r, s.remembered, Wrap16(s.remembered - Seq(s.read)));
    }
  }

  lemma ServedRetimed(handed: seq<nat>, served: seq<Slot>, r: nat, accepted: map<nat, Packet>, ring: Ring, holder: Holders,
                      p: Packet)
    requires ServedFrom(handed, served, r, accepted)
    ensures ServedFrom(handed, served, r, Retimed(accepted, ring, holder, r, p))
  {
  }

  lemma TrimKeepsMarks(ring: Ring, r: nat, s: Slot, w: nat, x: int)
    requires s.ready == ring[Idx(r)].ready && s.seqno == ring[Idx(r)].seqno
    ensures NoneStale(ring, r, w) ==> NoneStale(ring[Idx(r) := s], r, w)
    ensures x >= 0 && NoneMissing(ring, r, x) ==> NoneMissing(ring[Idx(r) := s], r, x)
  {
    hide Idx, Seq;
    var after: Ring := ring[Idx(r) := s];
    assert forall m: nat :: Stale(after, m) <==> Stale(ring, m);
    assert forall m: nat :: Missing(after, m) <==> Missing(ring, m);
  }

  /** Dropping packets up to `n`, and frames of `n`. */
  lemma DroppingSane(s: State, n: nat)
    requires Sane(s) && s.synced && s.read <= n < s.write
    ensures var t := Dropping(s, n);
      Sane(t) && (Held(s) ==> Held(t)) && (PlaceSound(s) ==> PlaceSound(t))
  {
    hide Kept, NoneStale, AllHold, ServedFrom, Wrap16, Wrap32, Seq, Idx, NoneMissing, Held, TooShort, Retimed;
    var m, t, slot := s.(read := n), Dropping(s, n), s.ring[Idx(n)];
    ReadOn(s, n);
    if !TooShort(slot, s.flushTimestamp) {
      var f := FromTime(slot, s.flushTimestamp);
      KeptTrimmed(s.ring, s.holder, s.accepted, s.first, n, s.write, f);
      ServedRetimed(s.handed, s.served, n, s.accepted, s.ring, s.holder, Packet(f.timestamp, f.frames));
      TrimKeepsMarks(s.ring, n, f, s.write, n + Wrap16(s.remembered - Seq(n)));
      HeldMeans(m);
      HeldMeans(t);
    }
  }

  lemma EmptiedSane(s: State)
    ensures Sane(Emptied(s)) && Held(Emptied(s)) && !Emptied(s).synced
  {
  }

  lemma SameSlots(s: State, t: State)
    requires t == s.(flushRequested := t.flushRequested, flushTimestamp := t.flushTimestamp, buffering := t.buffering)
    ensures Sane(s) <==> Sane(t)
    ensures Held(s) <==> Held(t)
    ensures PlaceSound(s) <==> PlaceSound(t)
  {
  }

  lemma FlushedSane(s: State)
    requires Sane(s) && Ordered(s)
    ensures var t := Flushed(s);
      Sane(t) && (Held(s) ==> Held(t)) && (t.synced ==> s.synced && (PlaceSound(s) ==> PlaceSound(t)))
  {
    hide Sane, Held, PlaceSound, Emptied, Dropping, AnswerOf, StopOf, Overruns;
    EmptiedSane(s);
    SameSlots(Emptied(s), Answered(Emptied(s)));
    SameSlots(s, Answered(s));
    SameSlots(s, s.(flushRequested := false));
    FlushedCases(s);
    if Flushing(s) && AnswerOf(s).Within? {
      var n := StopOf(s.ring, s.read, s.write, s.flushTimestamp);
      DroppingSane(s, n);
      SameSlots(Dropping(s, n), Answered(Dropping(s, n)));
    }
  }

  /**
   In a buffer that is one stream of frames, an earlier timestamp than the first frame's has no
   effect. One not later than the last frame's leaves exactly the frames from it on. One for the frame
   behind the last empties the buffer, and so does a later one, which stays pending.
   */
  lemma WholeFlushed(s: State)
    requires Sane(s) && Flushing(s) && s.flushTimestamp < 0x1_0000_0000 && Whole(s.accepted, s.read, s.write)
    ensures var d, total := Wrap32(s.flushTimestamp - s.ring[Idx(s.read)].timestamp), Offset(s.accepted, s.read, s.write);
      var t := Flushed(s);
      && !Overruns(s) && (d <= 0 ==> t == Answered(s))
      && (0 < d < total ==>
            && t.synced && !t.flushRequested && s.read <= t.read < t.write == s.write
            && Contiguous(t.accepted, t.read, t.write) && t.accepted[t.read].timestamp == s.flushTimestamp
            && d <= |Stream(s.accepted, s.read, s.write)|
            && Stream(t.accepted, t.read, t.write) == Stream(s.accepted, s.read, s.write)[d..])
      && (d >= total ==> !t.synced && t.buffering && (t.flushRequested <==> d > total))
  {
    hide Idx, Seq, Kept, Contiguous, Offset, Stream, Dropped, Time, Wrap32, LastFrame, ServedFrom, StopOf, StopsAt,
      EndsBefore, TooShort;
    var ring, r, w, t := s.ring, s.read, s.write, s.flushTimestamp;
    EndSlots(ring, s.holder, s.accepted, s.first, r, w, t);
    var last := ring[Idx(w - 1)];
    if Wrap32(LastFrame(last) - t) >= 0 {
      LastStops(last, t);
      StopMeans(ring, r, w, t);
      var n := StopOf(ring, r, w, t);
      StopsThere(ring, r, n, t);
      WholeTrims(ring, s.holder, s.accepted, s.first, r, w, n, t);
      DropExact(ring, s.holder, s.accepted, s.first, r, w, n, t);
    }
  }

  lemma StopsThere(ring: Ring, r: nat, n: nat, t: nat)
    requires StopsAt(ring, r, n, t)
    ensures r <= n && !EndsBefore(ring[Idx(n)], t)
  {
  }

  lemma SkippedSane(s: State, shouldBe: nat)
    requires Sane(s) && Ordered(s)
    ensures var t := Skipped(s, shouldBe);
      Sane(t) && (Held(s) ==> Held(t)) && (s.synced && PlaceSound(s) ==> PlaceSound(t))
  {
    hide Sane, Held, PlaceSound, SkipTo;
    if s.synced {
      ReadOn(s, SkipTo(s.ring, s.read, s.write, shouldBe));
    }
  }

  // ---------- handing out ----------

  lemma AliasFacts(ring: Ring, holder: Holders, r: nat, w: nat)
    ensures var s, m := ring[Idx(r)], holder[Idx(r)];
      s.seqno == Seq(m) && Idx(m) == Idx(r) && Recent(m, w) && m < w ==> Idx(s.seqno) == Idx(r) && s.seqno != Seq(w)
  {
    var m := holder[Idx(r)];
    IdxOfSeq(m);
    if Recent(m, w) && m < w {
      SeqTooFar(m, w);
    }
  }

  /** A ready slot under the read pointer holds its own number, or it is stale and holds one at least 1024 back. */
  lemma UnderReadPointer(s: State)
    requires Sane(s) && s.synced && s.read < s.write
    ensures Seq(s.read) != Seq(s.write)
    ensures var slot, m := s.ring[Idx(s.read)], s.holder[Idx(s.read)];
      && (GoesBack(s) <==> slot.ready && slot.seqno != Seq(s.read))
      && (GoesBack(s) ==>
            && s.first <= m && m + BUFFER_FRAMES <= s.read && slot.seqno == Seq(m) && Idx(slot.seqno) == Idx(s.read)
            && slot.seqno != Seq(s.write))
  {
    hide Idx, Seq, Kept, ServedFrom, SlotKept, Recent, Present;
    KeptBounds(s.ring, s.holder, s.accepted, s.first, s.read, s.write);
    SeqEqual(s.read, s.write);
    SlotOfWindow(s.ring, s.holder, s.accepted, s.first, s.read, s.write, s.read);
    AliasFacts(s.ring, s.holder, s.read, s.write);
  }

  /** The same in terms of the 16-bit pointers and the slot, as the code looks at them. */
  lemma TakenMeans(s: State, buffering: bool, released: bool, aliased: bool, bufferingOver: bool, isTime: bool)
    requires Sane(s)
    requires !s.synced ==> !aliased && !released
    requires s.synced ==>
      var slot, r, w := s.ring[Idx(s.read)], Seq(s.read), Seq(s.write);
      var at := if aliased then slot.seqno else r;
      && (aliased <==> r != w && slot.ready && slot.seqno != r && Idx(slot.seqno) == Idx(s.read))
      && buffering == (s.buffering && !(slot.ready && bufferingOver))
      && (released <==> !buffering && at != w && (isTime || !slot.ready || slot.timestamp == 0))
    ensures aliased == GoesBack(s) && released == Releases(s, bufferingOver, isTime)
    ensures aliased ==>
      var m := s.holder[Idx(s.read)];
      && s.first <= m && m + BUFFER_FRAMES <= s.read && s.ring[Idx(s.read)].seqno == Seq(m)
  {
    hide Idx, Seq, Kept, ServedFrom;
    if s.synced {
      KeptBounds(s.ring, s.holder, s.accepted, s.first, s.read, s.write);
      if s.read < s.write {
        UnderReadPointer(s);
      }
    }
  }

  lemma ServedNext(handed: seq<nat>, served: seq<Slot>, r: nat, accepted: map<nat, Packet>, frame: Slot)
    requires ServedFrom(handed, served, r, accepted)
    requires if r in accepted then Packet(frame.timestamp, frame.frames) == accepted[r] else frame.timestamp == 0
    ensures ServedFrom(handed + [r], served + [frame], r + 1, accepted)
  {
  }

  lemma FreedFacts(s: Slot)
    ensures var f := Freed(s);
      !f.ready && (if s.ready then Packet(f.timestamp, f.frames) == Packet(s.timestamp, s.frames) else f.timestamp == 0)
  {
  }

  lemma NoneMissingReleased(ring: Ring, r: nat, s: Slot, x: nat)
    requires x <= r + BUFFER_FRAMES && NoneMissing(ring, r + 1, x)
    ensures NoneMissing(ring[Idx(r) := s], r + 1, x)
  {
    hide Idx;
    var after: Ring := ring[Idx(r) := s];
    forall m | r < m < x
      ensures !Missing(after, m)
    {
      assert !Missing(ring, m);
      IdxDistinct(r, m);
    }
  }

  /** Freeing the slot under the read pointer and moving on. */
  lemma Handover(s: State)
    requires Sane(s) && s.synced && s.read < s.write && !Stale(s.ring, s.read)
    ensures var frame := Freed(s.ring[Idx(s.read)]);
      var t := s.(ring := s.ring[Idx(s.read) := frame], read := s.read + 1, handed := s.handed + [s.read],
                  served := s.served + [frame]);
      Sane(t) && (Held(s) ==> Held(t)) && (PlaceSound(s) ==> PlaceSound(t))
  {
    hide Idx, Seq, Kept, Stale, NoneStale, NoneMissing, ServedFrom, Freed, SlotKept, Recent, Present, AllHold,
      Wrap16, Held;
    var r, frame, m := s.read, Freed(s.ring[Idx(s.read)]), s.(read := s.read + 1);
    var t := s.(ring := s.ring[Idx(r) := frame], read := r + 1, handed := s.handed + [r], served := s.served + [frame]);
    HeldMeans(s);
    ReadOn(s, r + 1);
    FreedFacts(s.ring[Idx(r)]);
    SlotOfWindow(s.ring, s.holder, s.accepted, s.first, r, s.write, r);
    KeptReleased(s.ring, s.holder, s.accepted, s.first, r, s.write, frame);
    ServedNext(s.handed, s.served, r, s.accepted, frame);
    HeldMeans(t);
    if NoneStale(s.ring, r, s.write) {
      NoneStaleReleased(s.ring, r, s.write, frame);
    }
    var x := r + 1 + Wrap16(s.remembered - Seq(r + 1));
    if PlaceSound(m) && x > r + 1 {
      NoneMissingReleased(s.ring, r, frame, x);
    }
  }

  lemma ReleasedSane(s: State, bufferingOver: bool, isTime: bool)
    requires Sane(s) && Ordered(s) && !GoesBack(s)
    ensures var t := Released(s, bufferingOver, isTime);
      Sane(t) && (Held(s) ==> Held(t)) && (s.synced && PlaceSound(s) ==> PlaceSound(t))
  {
    hide Sane, Held, PlaceSound, Freed, Stale;
    var t := Released(s, bufferingOver, isTime);
    if Releases(s, bufferingOver, isTime) {
      Handover(s);
      SameSlots(t.(buffering := s.buffering), t);
    } else {
      SameSlots(s, t);
    }
  }

  /** If all slots hold what they should, the read pointer does not go back. */
  lemma HeldStays(s: State)
    requires Sane(s) && Held(s)
    ensures !GoesBack(s)
  {
    hide Kept, ServedFrom, AllHold, Stale, Held;
    if GoesBack(s) {
      HeldMeans(s);
    }
  }
}

/**
 The player's jitter buffer: packets are put in by one thread and taken out by another, under one mutex.
 Every method takes the step that is specified for it.
 */
module PlayerBuffer {
  import opened Numbers
  import opened PlayerSlots
  import opened PlayerResends
  import opened PlayerFlush
  import opened PlayerWindow
  import opened PlayerSteps
  import opened PlayerSafety

  class PlayerBuffer {
    const slots: array<Slot>
    var abRead: nat     // 16 bits
    var abWrite: nat    // 16 bits
    var synced: bool
    var buffering: bool
    var firstPossiblyMissing: int
    var flushRequested: bool
    var flushTimestamp: nat  // 32 bits
    ghost var firstNumber: nat   // the number of the first packet; numbers count on from it without wrapping
    ghost var readNumber: nat    // the number `abRead` stands for
    ghost var writeNumber: nat   // the number `abWrite` stands for
    ghost var accepted: map<nat, Packet>  // the latest packet accepted for each number
    ghost var holder: Holders    // the number last put into each slot
    ghost var handed: seq<nat>   // the numbers of the packets handed out
    ghost var served: seq<Slot>  // the slots handed out

    /** The fields are in range, and the pointers stand for numbers of a window that fits the ring. */
    ghost predicate Linked()
      reads this
    {
      && slots.Length == BUFFER_FRAMES && abRead < 0x1_0000 && abWrite < 0x1_0000
      && -1 <= firstPossiblyMissing < 0x1_0000 && flushTimestamp < 0x1_0000_0000
      && (synced ==>
            && abRead == Seq(readNumber) && abWrite == Seq(writeNumber)
            && readNumber <= writeNumber <= readNumber + BUFFER_FRAMES)
    }

    ghost function Now(): State
      reads this, slots
      requires slots.Length == BUFFER_FRAMES
    {
      State(synced, buffering, flushRequested, flushTimestamp, firstPossiblyMissing, slots[..], holder, firstNumber,
            readNumber, writeNumber, accepted, handed, served)
    }

    ghost predicate Valid()
      reads this, slots
    {
      Linked() && Sane(Now())
    }

    constructor ()
      ensures Valid() && Now() == Initial() && fresh(slots)
    {
      slots := new Slot[BUFFER_FRAMES](_ => UNUSED);
      abRead, abWrite, synced, buffering, firstPossiblyMissing := 0, 0, false, true, -1;
      flushRequested, flushTimestamp := false, 0;
      firstNumber, readNumber, writeNumber, accepted, handed, served := 0, 0, 0, map[], [], [];
      holder := seq(BUFFER_FRAMES, _ => 0);
      new;
      assert slots[..] == Initial().ring && holder == Initial().holder;
    }

    // ---------- an arriving packet ----------

    method MarkMissing(gap: int, now: nat)
      requires slots.Length == BUFFER_FRAMES && gap <= BUFFER_FRAMES && abWrite == Seq(writeNumber)
      modifies slots
      ensures slots[..] == if gap <= 0 then old(slots[..]) else Marked(old(slots[..]), writeNumber, gap, now)
    {
      hide Idx, Seq;
      var i := 0;
      ghost var ring: Ring := slots[..];
      while i < gap
        invariant 0 <= i && (gap >= 0 ==> i <= gap) && (gap < 0 ==> i == 0)
        invariant slots[..] == Marked(ring, writeNumber, i, now)
      {
        SeqSum(writeNumber, i);
        var k := Idx(abWrite + i);
        slots[k] := MarkedMissing(slots[k], now);
        i := i + 1;
      }
    }

    lemma SeqSum(n: nat, i: nat)
      ensures Idx(Seq(n) + i) == Idx(n + i)
    {
      var q := n / 0x1_0000;
      assert n + i == Seq(n) + i + 64 * q * 1024;
      var a, b := (Seq(n) + i) / 1024, (Seq(n) + i) % 1024;
      DivModUnique(n + i, a + 64 * q, 1024, b);
    }

    /**
     Finds the slot of a packet and moves the write pointer behind it. A gap before a newer packet than
     expected is marked as missing unless its size, computed without regard to the wrap-around, is not
     positive. A packet that comes too late has no slot.
     */
    method Place(q: nat, now: nat) returns (stored: bool)
      requires Linked() && synced && q < 0x1_0000 && Unwrapped(writeNumber, q) < readNumber + BUFFER_FRAMES
      modifies `abWrite, `writeNumber, slots
      ensures Linked()
      ensures var n, w, gap := Unwrapped(old(writeNumber), q), old(writeNumber), q - Seq(old(writeNumber));
        && stored == !(n < 0 || (n <= readNumber && n < w))
        && (stored ==> q == Seq(n))
        && writeNumber == (if n < w then w else n + 1)
        && slots[..] == if n > w && gap > 0 then Marked(old(slots[..]), w, gap, now) else old(slots[..])
    {
      hide Idx, Seq, Wrap16, Marked, Unwrapped;
      ghost var n, w := Unwrapped(writeNumber, q), writeNumber;
      PlaceIsExact(readNumber, w, q);
      stored := true;
      if abWrite == q {
        SeqNext(n);
        abWrite, writeNumber := (q + 1) % 0x1_0000, n + 1;
      } else if IsAfter(abWrite, q) {
        AheadOf(readNumber, w, q);
        SeqNext(n);
        MarkMissing(q - abWrite, now);
        abWrite, writeNumber := (q + 1) % 0x1_0000, n + 1;
      } else if !IsAfter(abRead, q) {
        stored := false;
      }
    }

    /** The part of `player_put_packet` that stores a packet once the buffer is synced. */
    method Store(q: nat, timestamp: nat, decoded: Decoded, now: nat)
      requires Linked() && synced && q < 0x1_0000 && Unwrapped(writeNumber, q) < readNumber + BUFFER_FRAMES
      modifies `abWrite, `writeNumber, `accepted, `holder, slots
      ensures Linked() && Now() == Entered(old(Now()), q, timestamp, decoded, now)
    {
      hide Idx, Seq, Wrap16, Marked, MarkedBy, Unwrapped, Filled, Accepting;
      ghost var n, w, gap := Unwrapped(writeNumber, q), writeNumber, q - Seq(writeNumber);
      var stored := Place(q, now);
      if stored {
        IdxOfSeq(n);
        slots[Idx(q)] := Filled(slots[Idx(q)], q, timestamp, decoded, now);
      }
      accepted := Accepting(accepted, readNumber, w, n, timestamp, decoded);
      holder := Holding(holder, readNumber, w, n, gap);
    }

    /** The first packet synchronises the buffer. */
    method Begin(seqno: nat)
      requires Linked() && seqno < 0x1_0000
      modifies `abRead, `abWrite, `synced, `firstNumber, `readNumber, `writeNumber, `accepted, `handed, `served
      ensures Linked() && synced && Now() == Begun(old(Now()), seqno)
    {
      hide Seq;
      if !synced {
        SeqBelow(seqno);
        abWrite, abRead, synced := seqno, seqno, true;
        firstNumber, readNumber, writeNumber, accepted, handed, served := seqno, seqno, seqno, map[], [], [];
      }
    }

    method Start() returns (x: nat)
      requires Linked() && synced
      ensures x == Seq(SearchFrom(firstPossiblyMissing, readNumber, writeNumber))
    {
      x := abRead;
      if firstPossiblyMissing >= 0 {
        SeqDistance(readNumber, writeNumber);
        var bufferSize := Wrap16(abWrite - abRead);
        if bufferSize >= 0 {
          var position := Wrap16(firstPossiblyMissing - abRead);
          if position >= 0 && position < bufferSize {
            x := firstPossiblyMissing;
            SeqOffset(readNumber, position, firstPossiblyMissing);
          }
        }
      }
    }

    /**
     The search at the end of `player_put_packet`, from the remembered place: marks the packets due
     to be asked for and requests them.
     */
    method Search(c: Clock, enabled: bool) returns (missing: nat, requests: seq<Run>)
      requires Linked() && synced
      modifies `firstPossiblyMissing, slots
      ensures Linked() && Now() == Searching(old(Now()), c)
      ensures missing == Found(old(Now())) && requests == Requests(old(Now()), c, enabled)
      ensures enabled ==> Total(requests) == Stamps(old(Now()), c)
    {
      hide Idx, Seq, Wrap16, Due, DueSlot, Runs, SoFar, Total, CountDue,
        Stamped, CountMissing, FirstMissing, OnWire, Stamp;
      ghost var w := writeNumber;
      ghost var ring: Ring := slots[..];
      ghost var from := SearchFrom(firstPossiblyMissing, readNumber, writeNumber);
      var x := Start();
      firstPossiblyMissing := -1;
      missing, requests := 0, [];
      var start: int := -1;
      var count: nat := 0;
      ghost var n, run := from, Run(0, 0);
      SearchBegins(ring, c, from, w);
      while x != abWrite
        invariant from <= n <= w && x == Seq(n) && Linked()
        invariant slots[..] == Stamped(ring, c, from, n)
        invariant missing + CountMissing(ring, n, w) == CountMissing(ring, from, w)
        invariant Remembered(ring, from, n, w, firstPossiblyMissing) && (firstPossiblyMissing < 0 <==> missing == 0)
        invariant count == run.count && start == if count == 0 then -1 else Seq(run.first)
        invariant SoFar(ring, c, from, n, w, run, enabled, requests)
        decreases w - n
      {
        SeqEqual(n, w);
        SearchStep(ring, c, from, n, w);
        SoFarStep(ring, c, from, n, w, run, enabled, requests);
        IdxOfSeq(n);
        SeqNext(n);
        SeqEqual(n + 1, w);
        var check := slots[Idx(x)];
        if !check.ready {
          if firstPossiblyMissing < 0 {
            firstPossiblyMissing := x;
          }
          missing := missing + 1;
          if DueSlot(check, c) {
            if start == -1 {
              start, count := x, 1;
            } else {
              count := count + 1;
            }
            slots[Idx(x)] := check.(resendTime := c.now, resends := check.resends + 1);
          }
        }
        run := Gathered(ring, c, n, run);
        x := (x + 1) % 0x1_0000;
        if (check.ready || x == abWrite) && count > 0 {
          if enabled {
            requests := requests + [Run(start, count)];
          }
          start, count := -1, 0;
          run := Run(0, 0);
        }
        n := n + 1;
      }
      SeqEqual(n, w);
      SearchEnds(ring, c, from, w, run, enabled, requests);
      OnWireTotal(Runs(ring, c, from, w, Run(0, 0)));
      RequestsCountStamped(ring, c, from, w, Run(0, 0));
      if missing == 0 {
        firstPossiblyMissing := abWrite;
      }
    }

    /** `player_put_packet` for an open connection: stores a packet and asks for missing ones. */
    method Put(original: bool, seqno: nat, timestamp: nat, decoded: Decoded, c: Clock, enabled: bool)
      returns (missing: nat, requests: seq<Run>)
      requires Linked() && seqno < 0x1_0000 && (!original ==> decoded.Decoded?)
      requires synced ==> ArrivalOf(Now(), original, seqno) < readNumber + BUFFER_FRAMES
      modifies `abRead, `abWrite, `synced, `firstPossiblyMissing, `firstNumber, `readNumber, `writeNumber, `accepted, `holder,
               `handed, `served, slots
      ensures Linked() && synced && (old(Valid()) ==> Valid())
      ensures var stored := Storing(old(Now()), original, seqno, timestamp, decoded, c.now);
        && Now() == Searching(stored, c) && missing == Found(stored) && requests == Requests(stored, c, enabled)
        && (enabled ==> Total(requests) == Stamps(stored, c))
    {
      hide Sane, Seq, Unwrapped, Entered, Searching, Found, Requests, Stamps, Total;
      AtWrite(writeNumber);
      AtWrite(seqno);
      SeqBelow(seqno);
      if Valid() {
        StoringSane(Now(), original, seqno, timestamp, decoded, c.now);
        SearchingSane(Storing(Now(), original, seqno, timestamp, decoded, c.now), c);
      }
      var q := if synced && !original then abWrite else seqno;
      Begin(seqno);
      Store(q, timestamp, decoded, c.now);
      missing, requests := Search(c, enabled);
    }

    // ---------- a flush ----------

    /** `ab_resync`. */
    method Resync()
      requires Linked()
      modifies `synced, `buffering, slots
      ensures Linked() && Now() == Emptied(old(Now()))
    {
      for i := 0 to BUFFER_FRAMES
        invariant forall k | 0 <= k < BUFFER_FRAMES :: slots[k] == if k < i then Cleared(old(slots[k])) else old(slots[k])
      {
        slots[i] := Cleared(slots[i]);
      }
      synced, buffering := false, true;
      assert slots[..] == Emptied(old(Now())).ring;
    }

    /** `ab_read++`. */
    method Advance()
      requires Linked() && synced && readNumber < writeNumber
      modifies `abRead, `readNumber
      ensures Linked() && readNumber == old(readNumber) + 1
    {
      SeqNext(readNumber);
      abRead, readNumber := (abRead + 1) % 0x1_0000, readNumber + 1;
    }

    /**
     Drops the packets that end before the flush timestamp, up to the first that does not, and the
     frames before it in that one. `overrun` says that this has fewer frames than are to be removed;
     what the code does then is undefined.
     */
    method DropTo() returns (overrun: bool)
      requires Linked() && synced && readNumber < writeNumber
      requires Wrap32(LastFrame(slots[Idx(writeNumber - 1)]) - flushTimestamp) >= 0
      modifies `abRead, `readNumber, `accepted, slots
      ensures Linked() && readNumber == StopOf(old(slots[..]), old(readNumber), writeNumber, flushTimestamp)
      ensures Now() == Dropping(old(Now()), readNumber)
      ensures overrun == TooShort(old(slots[..])[Idx(readNumber)], flushTimestamp)
    {
      hide Idx, Seq, Wrap32, LastFrame, Retimed;
      ghost var r, w, ring, t := readNumber, writeNumber, slots[..], flushTimestamp;
      IdxOfSeq(r);
      LastStops(slots[Idx(w - 1)], t);
      var current := slots[Idx(abRead)];
      while Wrap32(flushTimestamp - LastFrame(current)) > 0
        invariant r <= readNumber < w && Linked() && synced && slots[..] == ring && accepted == old(accepted)
        invariant current == slots[Idx(abRead)] == slots[Idx(readNumber)]
        invariant StopOf(ring, r, w, t) == StopOf(ring, readNumber, w, t)
        decreases w - readNumber
      {
        Advance();
        IdxOfSeq(readNumber);
        current := slots[Idx(abRead)];
      }
      IdxOfSeq(readNumber);
      var framesToRemove := Wrap32(flushTimestamp - current.timestamp);
      overrun := framesToRemove > |current.frames|;
      if overrun {
        return;
      }
      ghost var n, s := readNumber, FromTime(current, flushTimestamp);
      accepted := Retimed(accepted, ring, holder, n, Packet(s.timestamp, s.frames));
      if framesToRemove > 0 {
        slots[Idx(abRead)] := current.(timestamp := flushTimestamp, frames := current.frames[framesToRemove..]);
      }
      assert slots[..] == ring[Idx(n) := s];
    }

    /** What a flush request for a timestamp does to the packets, and what it leaves to be done. */
    method Examine() returns (overrun: bool, flushNeeded: bool, dropRequest: bool)
      requires Linked() && Flushing(Now())
      modifies `abRead, `readNumber, `accepted, slots
      ensures Linked() && overrun == Overruns(old(Now()))
      ensures flushNeeded == (AnswerOf(old(Now())).AtEnd? || AnswerOf(old(Now())).Beyond?)
      ensures dropRequest == (!AnswerOf(old(Now())).Undecided? && !AnswerOf(old(Now())).Beyond?)
      ensures var s := old(Now());
        Now() == if AnswerOf(s).Within? then Dropping(s, StopOf(s.ring, s.read, s.write, s.flushTimestamp)) else s
    {
      hide Idx, Seq, Wrap32, LastFrame, Time, Dropping, StopOf, TooShort;
      overrun, flushNeeded, dropRequest := false, false, false;
      IdxOfSeq(readNumber);
      LastIdx(writeNumber);
      var first, last := slots[Idx(abRead)], slots[Idx(abWrite - 1)];
      if first.ready {
        var offsetFromFirst := Wrap32(flushTimestamp - first.timestamp);
        if last.ready {
          var lastFrame := LastFrame(last);
          if offsetFromFirst > 0 {
            if Wrap32(lastFrame - flushTimestamp) >= 0 {
              overrun := DropTo();
              dropRequest := true;
            } else {
              if flushTimestamp == Time(lastFrame + 1) {
                dropRequest := true;
              }
              flushNeeded := true;
            }
          } else {
            dropRequest := true;
          }
        }
      }
    }

    /** The flush in `buffer_get_frame`. */
    method Flush() returns (overrun: bool)
      requires Linked()
      modifies `abRead, `readNumber, `accepted, `synced, `buffering, `flushRequested, `flushTimestamp, slots
      ensures Linked() && overrun == Overruns(old(Now())) && Now() == Flushed(old(Now()))
    {
      hide Idx, Seq, Wrap32, AnswerOf, Dropping, StopOf, Emptied, Flushed, Overruns;
      FlushedCases(Now());
      overrun := false;
      var flushNeeded, dropRequest := false, false;
      if flushRequested {
        if flushTimestamp == 0 {
          flushNeeded, dropRequest := true, true;
        } else if synced && abWrite - abRead > 0 {
          overrun, flushNeeded, dropRequest := Examine();
          if overrun {
            return;
          }
        } else {
          flushRequested := false;
        }
      }
      if flushNeeded {
        Resync();
      }
      if dropRequest {
        flushRequested, flushTimestamp := false, 0;
      }
    }

    /** A request to flush to a timestamp, made by `do_flush`. */
    method RequestFlush(timestamp: nat)
      requires Linked() && timestamp < 0x1_0000_0000
      modifies `flushRequested, `flushTimestamp
      ensures Linked() && Now() == old(Now()).(flushRequested := true, flushTimestamp := timestamp)
        && (old(Valid()) ==> Valid())
    {
      SameSlots(Now(), Now().(flushRequested := true, flushTimestamp := timestamp));
      flushRequested, flushTimestamp := true, timestamp;
    }

    // ---------- a frame taken out ----------

    /**
     `buffer_get_frame` skips frames that are missing or out of date. It stops at a frame that is
     neither, or when the write pointer is no longer the larger number, wrapped or not.
     */
    method Skip(shouldBe: nat)
      requires Linked()
      modifies `abRead, `readNumber
      ensures Linked() && Now() == Skipped(old(Now()), shouldBe)
    {
      hide Idx, Seq, Wrap32;
      var outOfDate := true;
      ghost var ring, w := slots[..], writeNumber;
      while synced && abWrite - abRead > 0 && outOfDate
        invariant Linked() && (!synced ==> readNumber == old(readNumber))
        invariant synced ==>
          && old(readNumber) <= readNumber
          && SkipTo(ring, old(readNumber), w, shouldBe) == SkipTo(ring, readNumber, w, shouldBe)
        invariant !outOfDate ==> synced && !Skippable(ring[Idx(readNumber)], shouldBe)
        decreases writeNumber - readNumber, outOfDate
      {
        IdxOfSeq(readNumber);
        var s := slots[Idx(abRead)];
        assert s == ring[Idx(readNumber)];
        if s.ready {
          if Wrap32(s.timestamp - shouldBe) < 0 {
            Advance();
          } else {
            outOfDate := false;
          }
        } else {
          Advance();
        }
      }
    }

    /**
     The end of a pass of `buffer_get_frame`, whatever the slots hold: moves the read pointer to the
     number in its slot if that is another one with the same index, and hands out the slot unless it
     must wait. Whether the initial buffering is over and whether it is time for the frame are inputs.
     */
    method Take(bufferingOver: bool, isTime: bool) returns (released: bool, aliased: bool, frame: Slot)
      requires slots.Length == BUFFER_FRAMES
      modifies `abRead, `buffering, slots
      ensures var s := old(slots[Idx(abRead)]);
        var at := if aliased then s.seqno else old(abRead);
        && (aliased <==>
              synced && old(abRead) != abWrite && s.ready && s.seqno != old(abRead) && Idx(s.seqno) == Idx(old(abRead)))
        && buffering == (old(buffering) && !(synced && s.ready && bufferingOver))
        && (released <==> synced && !buffering && at != abWrite && (isTime || !s.ready || s.timestamp == 0))
        && abRead == (if released then (at + 1) % 0x1_0000 else at)
        && (released ==> frame == Freed(s))
        && slots[..] == if released then old(slots[..])[Idx(old(abRead)) := frame] else old(slots[..])
    {
      hide Idx;
      released, aliased, frame := false, false, slots[0];
      if !synced {
        return;
      }
      var i := Idx(abRead);
      var current := slots[i];
      if abRead != abWrite && current.ready {
        if current.seqno != abRead && Idx(current.seqno) == Idx(abRead) {
          abRead := current.seqno;
          aliased := true;
        }
      }
      if current.ready && buffering && bufferingOver {
        buffering := false;
      }
      var doWait := current.ready && current.timestamp != 0 && !isTime;
      if !doWait && abRead == abWrite {
        doWait := true;
      }
      if buffering || doWait {
        return;
      }
      if !current.ready {
        current := current.(timestamp := 0);  // a silent frame is to be substituted
      }
      current := current.(ready := false);
      slots[i] := current;
      abRead := (abRead + 1) % 0x1_0000;
      released, frame := true, current;
    }

    /**
     What this makes of a buffer on a run: each number is handed out once, in order, unless a stale slot
     is under the read pointer. Then the read pointer goes back 1024 numbers or more.
     */
    method Release(bufferingOver: bool, isTime: bool) returns (released: bool, aliased: bool, frame: Slot)
      requires Valid()
      modifies `abRead, `buffering, `readNumber, `handed, `served, slots
      ensures slots.Length == BUFFER_FRAMES && (synced ==> abRead == Seq(readNumber)) && (!aliased ==> Linked())
      ensures aliased == GoesBack(old(Now())) && released == Releases(old(Now()), bufferingOver, isTime)
      ensures released ==> frame == Freed(old(slots[Idx(readNumber)]))
      ensures Now() == Released(old(Now()), bufferingOver, isTime)
      ensures aliased ==>
        firstNumber <= readNumber && readNumber + BUFFER_FRAMES <= old(readNumber) + if released then 1 else 0
    {
      hide Idx, Seq, Sane, Freed, Released, GoesBack, Releases;
      ghost var s, r := Now(), readNumber;
      IdxOfSeq(r);
      released, aliased, frame := Take(bufferingOver, isTime);
      TakenMeans(s, buffering, released, aliased, bufferingOver, isTime);
      ghost var at := if aliased then holder[Idx(r)] else r;
      if released {
        SeqNext(at);
        handed, served, readNumber := handed + [at], served + [frame], at + 1;
      } else if synced {
        readNumber := at;
      }
      ReleasedIs(s, Now(), bufferingOver, isTime);
    }

    /** One pass of `buffer_get_frame`: flush, skip, and hand out the next frame or wait. */
    method NextFrame(shouldBe: nat, bufferingOver: bool, isTime: bool)
      returns (released: bool, aliased: bool, overrun: bool, frame: Slot)
      requires Valid()
      modifies `abRead, `readNumber, `accepted, `synced, `buffering, `flushRequested, `flushTimestamp, `handed, `served, slots
      ensures slots.Length == BUFFER_FRAMES && (synced ==> abRead == Seq(readNumber)) && (!aliased ==> Valid())
      ensures overrun == Overruns(old(Now())) && Now() == Got(old(Now()), shouldBe, bufferingOver, isTime)
      ensures var s := Skipped(Flushed(old(Now())), shouldBe);
        && aliased == (!overrun && GoesBack(s)) && released == (!overrun && Releases(s, bufferingOver, isTime))
        && (released ==> frame == Freed(s.ring[Idx(s.read)]))
        && (aliased ==> firstNumber <= readNumber && readNumber + BUFFER_FRAMES <= s.read + if released then 1 else 0)
    {
      hide Sane, Seq, Idx, Flushed, Skipped, Released, Releases, GoesBack, Overruns, Freed;
      released, aliased, frame := false, false, slots[0];
      FlushedSane(Now());
      SkippedSane(Flushed(Now()), shouldBe);
      overrun := Flush();
      if !overrun {
        Skip(shouldBe);
        if !GoesBack(Now()) {
          ReleasedSane(Now(), bufferingOver, isTime);
        }
        released, aliased, frame := Release(bufferingOver, isTime);
      }
    }

    // ---------- the window ----------

    /** An arriving packet does not take the window over 1024 packets. */
    predicate Fits(original: bool, seqno: nat)
      reads this
    {
      synced ==> Wrap16(abWrite - abRead) + (if original then Wrap16(seqno - abWrite) else 0) < BUFFER_FRAMES
    }

    lemma FitsMeans(original: bool, seqno: nat)
      requires Linked() && synced && seqno < 0x1_0000
      ensures Fits(original, seqno) <==> ArrivalOf(Now(), original, seqno) < readNumber + BUFFER_FRAMES
    {
      hide Wrap16;
      SeqDistance(readNumber, writeNumber);
    }
  }

  lemma LastIdx(w: nat)
    requires Seq(w) > 0 && w > 0
    ensures Idx(Seq(w) - 1) == Idx(w - 1)
  {
    var q := w / 0x1_0000;
    assert w - 1 == q * 0x1_0000 + (Seq(w) - 1);
    DivModUnique(w - 1, q, 0x1_0000, Seq(w) - 1);
    IdxOfSeq(w - 1);
  }
}

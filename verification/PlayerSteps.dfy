/** The steps of the jitter buffer as functions on its state: a packet that arrives, a flush, a frame taken out. */
module PlayerSteps {
  import opened Numbers
  import opened PlayerSlots
  import opened PlayerResends
  import opened PlayerFlush
  import opened PlayerWindow
  import opened PlayerStream

  datatype Decoded = Bad | Decoded(frames: Frames)

  /** What a packet leaves in its slot; a bad packet leaves the slot not ready. */
  function Filled(s: Slot, seqno: nat, timestamp: nat, decoded: Decoded, now: nat): Slot
  {
    match decoded
    case Decoded(frames) =>
      s.(ready := true, seqno := seqno, timestamp := timestamp, frames := frames, initTime := now, resendTime := 0)
    case Bad =>
      s.(ready := false, seqno := 0, timestamp := 0, initTime := now, resendTime := 0, resends := 0)
  }

  /** The slots after packet `n` has been stored, with `w` the next one expected; a numerically positive gap is marked. */
  function Placed(ring: Ring, w: nat, n: nat, gap: int, seqno: nat, timestamp: nat, decoded: Decoded, now: nat): Ring
  {
    var marked := if n > w && gap > 0 then Marked(ring, w, gap, now) else ring;
    marked[Idx(n) := Filled(marked[Idx(n)], seqno, timestamp, decoded, now)]
  }

  /** The slots after a packet has arrived; one that comes too late changes nothing. */
  function Arrived(ring: Ring, r: nat, w: nat, n: int, gap: int, seqno: nat, timestamp: nat, decoded: Decoded,
                   now: nat): Ring
  {
    if n < 0 || (n <= r && n < w) then ring else Placed(ring, w, n, gap, seqno, timestamp, decoded, now)
  }

  function Cleared(s: Slot): Slot
  {
    s.(ready := false, resends := 0, resendTime := 0, initTime := 0, seqno := 0)
  }

  /** A slot as it is handed out; one that is not ready is to be played as silence. */
  function Freed(s: Slot): Slot
  {
    if s.ready then s.(ready := false) else s.(timestamp := 0)
  }

  predicate Ascending(s: seq<nat>, bound: nat)
  {
    (forall i, j | 0 <= i < j < |s| :: s[i] < s[j]) && forall i | 0 <= i < |s| :: s[i] < bound
  }

  /** The accepted packets after one for number `n` has arrived in a window from `r` on. */
  function Accepting(accepted: map<nat, Packet>, r: nat, w: nat, n: int, timestamp: nat, decoded: Decoded): map<nat, Packet>
  {
    if n <= r && n < w then accepted  // too late
    else if n < 0 then accepted
    else if decoded.Decoded? then accepted[n as nat := Packet(timestamp, decoded.frames)]
    else accepted - {n as nat}
  }

  /** Numbers are handed out once each, in order, with the packet accepted for them or as silence. */
  predicate ServedFrom(handed: seq<nat>, served: seq<Slot>, r: nat, accepted: map<nat, Packet>)
  {
    && Ascending(handed, r) && |served| == |handed|
    && forall j | 0 <= j < |handed| ::
      if handed[j] in accepted then Packet(served[j].timestamp, served[j].frames) == accepted[handed[j]]
      else served[j].timestamp == 0
  }

  /**
   The state of the buffer. Packets are numbered without wrapping from the first one, `first`, on;
   `read` and `write` are the numbers the pointers stand for, and mean nothing unless synced.
   */
  datatype State = State(synced: bool, buffering: bool, flushRequested: bool, flushTimestamp: nat, remembered: int,
                         ring: Ring, holder: Holders, first: nat, read: nat, write: nat, accepted: map<nat, Packet>,
                         handed: seq<nat>, served: seq<Slot>)

  const UNUSED := Slot(false, 0, 0, [], 0, 0, 0)

  /**
   A bad packet leaves its slot as one just noticed missing, and that is as one never used, but for the
   time and the old data. A good one is not waited for any longer; the number of requests made for the
   slot is kept.
   */
  lemma FilledIs(s: Slot, seqno: nat, timestamp: nat, frames: Frames, now: nat)
    ensures Filled(s, seqno, timestamp, Bad, now) == MarkedMissing(s, now) == UNUSED.(frames := s.frames, initTime := now)
    ensures Filled(s, seqno, timestamp, Decoded(frames), now) == Slot(true, seqno, timestamp, frames, now, 0, s.resends)
  {
  }

  /** And so is a slot of an emptied buffer, but for the old timestamp and data. */
  lemma ClearedIs(s: Slot)
    ensures Cleared(s) == UNUSED.(timestamp := s.timestamp, frames := s.frames)
  {
  }

  /** A new buffer. */
  function Initial(): State
  {
    State(false, true, false, 0, -1, seq(BUFFER_FRAMES, _ => UNUSED), seq(BUFFER_FRAMES, _ => 0), 0, 0, 0, map[], [], [])
  }

  predicate Ordered(s: State)
  {
    s.synced ==> s.read <= s.write
  }

  // ---------- an arriving packet ----------

  /** The first packet starts a new numbering. */
  function Begun(s: State, seqno: nat): State
  {
    if s.synced then s
    else s.(synced := true, first := seqno, read := seqno, write := seqno, accepted := map[], handed := [], served := [])
  }

  /** The numbers put into the slots, after one for `n` has arrived. */
  function Holding(holder: Holders, r: nat, w: nat, n: int, gap: int): Holders
  {
    if n < 0 || (n <= r && n < w) then holder
    else (if n > w && gap > 0 then MarkedBy(holder, w, gap) else holder)[Idx(n) := n]
  }

  /** A packet with this 16-bit number has been stored. */
  function Entered(s: State, q: nat, timestamp: nat, decoded: Decoded, now: nat): (t: State)
    requires s.read <= s.write
    ensures t.read <= t.write && t == s.(ring := t.ring, holder := t.holder, write := t.write, accepted := t.accepted)
  {
    var n, gap := Unwrapped(s.write, q), q - Seq(s.write);
    s.(ring := Arrived(s.ring, s.read, s.write, n, gap, q, timestamp, decoded, now),
       holder := Holding(s.holder, s.read, s.write, n, gap), write := if n < s.write then s.write else n + 1,
       accepted := Accepting(s.accepted, s.read, s.write, n, timestamp, decoded))
  }

  /** A packet has been stored; one that is not in original form takes the next number. */
  function Storing(s: State, original: bool, seqno: nat, timestamp: nat, decoded: Decoded, now: nat): (t: State)
    requires Ordered(s)
    ensures t.read <= t.write && t.synced && t.flushTimestamp == s.flushTimestamp
  {
    Entered(Begun(s, seqno), if s.synced && !original then Seq(s.write) else seqno, timestamp, decoded, now)
  }

  /** Where the search for missing packets starts. */
  function SearchFrom(remembered: int, r: nat, w: nat): (x: nat)
    requires r <= w
    ensures r <= x <= w
  {
    var p := Wrap16(remembered - Seq(r));
    if remembered >= 0 && 0 <= p < w - r then r + p else r
  }

  /** The search stamps what is due and remembers the first packet missing. */
  function Searching(s: State, c: Clock): (t: State)
    requires s.read <= s.write
    ensures t == s.(ring := t.ring, remembered := t.remembered)
  {
    var x := SearchFrom(s.remembered, s.read, s.write);
    s.(ring := Stamped(s.ring, c, x, s.write), remembered := Seq(FirstMissing(s.ring, x, s.write)))
  }

  /** The number of missing packets that the search finds. */
  function Found(s: State): nat
    requires s.read <= s.write
  {
    CountMissing(s.ring, SearchFrom(s.remembered, s.read, s.write), s.write)
  }

  /** The requests that the search makes. */
  function Requests(s: State, c: Clock, enabled: bool): seq<Run>
    requires s.read <= s.write
  {
    if enabled then OnWire(Runs(s.ring, c, SearchFrom(s.remembered, s.read, s.write), s.write, Run(0, 0))) else []
  }

  /** The number of packets that it stamps. */
  function Stamps(s: State, c: Clock): nat
    requires s.read <= s.write
  {
    CountDue(s.ring, c, SearchFrom(s.remembered, s.read, s.write), s.write)
  }

  // ---------- a flush ----------

  /** The flush finds something to look at: the write pointer is the larger number, wrapped or not. */
  predicate Examined(s: State)
  {
    s.synced && s.read < s.write && Seq(s.write) > Seq(s.read)
  }

  /** A flush to a timestamp will look at the slots. */
  predicate Flushing(s: State)
  {
    s.flushRequested && s.flushTimestamp != 0 && Examined(s)
  }

  /** Where the slots at the ends of the window say that the flush timestamp lies. */
  datatype Answer = Undecided | Earlier | Within | AtEnd | Beyond

  function AnswerOf(s: State): Answer
    requires s.read < s.write
  {
    var first, last, t := s.ring[Idx(s.read)], s.ring[Idx(s.write - 1)], s.flushTimestamp;
    if !first.ready || !last.ready then Undecided
    else if Wrap32(t - first.timestamp) <= 0 then Earlier
    else if Wrap32(LastFrame(last) - t) >= 0 then Within
    else if t == Time(LastFrame(last) + 1) then AtEnd
    else Beyond
  }

  /** The first packet that does not end before `t`, or the last one. */
  function StopOf(ring: Ring, r: nat, w: nat, t: nat): (n: nat)
    requires r < w
    ensures r <= n < w
    decreases w - r
  {
    if r + 1 < w && EndsBefore(ring[Idx(r)], t) then StopOf(ring, r + 1, w, t) else r
  }

  lemma {:induction false} StopMeans(ring: Ring, r: nat, w: nat, t: nat)
    requires r < w && !EndsBefore(ring[Idx(w - 1)], t)
    ensures StopsAt(ring, r, StopOf(ring, r, w, t), t)
    decreases w - r
  {
    hide EndsBefore, Idx;
    if r + 1 < w && EndsBefore(ring[Idx(r)], t) {
      StopMeans(ring, r + 1, w, t);
    }
  }

  /** The packets before `n` have been dropped, and the frames of `n` before the flush timestamp. */
  function Dropping(s: State, n: nat): State
  {
    var slot := s.ring[Idx(n)];
    if TooShort(slot, s.flushTimestamp) then s.(read := n)  // what the code does now is undefined
    else
      s.(read := n, ring := s.ring[Idx(n) := FromTime(slot, s.flushTimestamp)],
         accepted := Dropped(s.accepted, s.ring, s.holder, n, s.flushTimestamp))
  }

  /** The flush would remove more frames from a slot than it has. */
  predicate Overruns(s: State)
  {
    && Flushing(s) && AnswerOf(s).Within?
    && TooShort(s.ring[Idx(StopOf(s.ring, s.read, s.write, s.flushTimestamp))], s.flushTimestamp)
  }

  function Emptied(s: State): State
  {
    s.(synced := false, buffering := true,
       ring := seq(BUFFER_FRAMES, i requires 0 <= i < BUFFER_FRAMES => Cleared(s.ring[i])))
  }

  function Answered(s: State): State
  {
    s.(flushRequested := false, flushTimestamp := 0)
  }

  function Flushed(s: State): (t: State)
    requires Ordered(s)
    ensures Ordered(t) && (t.synced ==> s.synced) && (t.flushTimestamp == s.flushTimestamp || t.flushTimestamp == 0)
  {
    if !s.flushRequested then s
    else if s.flushTimestamp == 0 then Answered(Emptied(s))
    else if !Examined(s) then s.(flushRequested := false)
    else
      match AnswerOf(s)
      case Undecided => s
      case Earlier => Answered(s)
      case Within =>
        var t := Dropping(s, StopOf(s.ring, s.read, s.write, s.flushTimestamp));
        if Overruns(s) then t else Answered(t)
      case AtEnd => Answered(Emptied(s))
      case Beyond => Emptied(s)
  }

  /** A flush to a timestamp drops packets, empties the buffer or does nothing, and then stays pending or not. */
  lemma FlushedCases(s: State)
    requires Ordered(s)
    ensures !s.flushRequested ==> Flushed(s) == s
    ensures s.flushRequested && s.flushTimestamp == 0 ==> Flushed(s) == Answered(Emptied(s))
    ensures s.flushRequested && s.flushTimestamp != 0 && !Flushing(s) ==> Flushed(s) == s.(flushRequested := false)
    ensures Overruns(s) ==> Flushing(s) && AnswerOf(s).Within?
    ensures Flushing(s) ==>
      var a := AnswerOf(s);
      var t := if a.Within? then Dropping(s, StopOf(s.ring, s.read, s.write, s.flushTimestamp))
               else if a.AtEnd? || a.Beyond? then Emptied(s) else s;
      Flushed(s) == if a.Undecided? || a.Beyond? || Overruns(s) then t else Answered(t)
  {
  }

  // ---------- a frame taken out ----------

  /** A slot that is to be skipped: nothing in it, or a packet out of date. */
  predicate Skippable(s: Slot, shouldBe: nat)
  {
    s.ready ==> Wrap32(s.timestamp - shouldBe) < 0
  }

  /** Out of date is a packet whose timestamp is the earlier one, within 2^31 frames of the one that should be playing. */
  lemma SkippableIs(s: Slot, shouldBe: nat)
    requires -0x8000_0000 <= s.timestamp - shouldBe < 0x8000_0000
    ensures Skippable(s, shouldBe) <==> !s.ready || s.timestamp < shouldBe
  {
  }

  /** The first packet that is not to be skipped, or where the write pointer is no longer the larger number. */
  function SkipTo(ring: Ring, r: nat, w: nat, shouldBe: nat): (p: nat)
    requires r <= w
    ensures r <= p <= w && forall n | r <= n < p :: Skippable(ring[Idx(n)], shouldBe)
    ensures Seq(w) <= Seq(p) || !Skippable(ring[Idx(p)], shouldBe)
    decreases w - r
  {
    if r < w && Seq(w) > Seq(r) && Skippable(ring[Idx(r)], shouldBe) then SkipTo(ring, r + 1, w, shouldBe) else r
  }

  function Skipped(s: State, shouldBe: nat): (t: State)
    requires Ordered(s)
    ensures Ordered(t) && t == s.(read := t.read) && (!s.synced ==> t == s)
  {
    if s.synced then s.(read := SkipTo(s.ring, s.read, s.write, shouldBe)) else s
  }

  /** The slot under the read pointer is stale, and the read pointer goes back to the number in it. */
  predicate GoesBack(s: State)
  {
    s.synced && s.read < s.write && Stale(s.ring, s.read)
  }

  /** A frame is handed out. */
  predicate Releases(s: State, bufferingOver: bool, isTime: bool)
  {
    var slot := s.ring[Idx(s.read)];
    && s.synced && s.read < s.write && !(s.buffering && !(slot.ready && bufferingOver))
    && (isTime || !slot.ready || slot.timestamp == 0)
  }

  function Released(s: State, bufferingOver: bool, isTime: bool): (t: State)
    ensures t == s.(buffering := t.buffering, ring := t.ring, read := t.read, handed := t.handed, served := t.served)
  {
    if !s.synced then s
    else
      var slot, at := s.ring[Idx(s.read)], if GoesBack(s) then s.holder[Idx(s.read)] else s.read;
      var t := s.(buffering := s.buffering && !(slot.ready && bufferingOver));
      if Releases(s, bufferingOver, isTime) then
        t.(ring := s.ring[Idx(s.read) := Freed(slot)], read := at + 1, handed := s.handed + [at],
           served := s.served + [Freed(slot)])
      else t.(read := at)
  }

  lemma ReleasedIs(s: State, t: State, bufferingOver: bool, isTime: bool)
    requires t == s.(buffering := t.buffering, ring := t.ring, read := t.read, handed := t.handed, served := t.served)
    requires !s.synced ==> t == s
    requires s.synced ==>
      var slot, at := s.ring[Idx(s.read)], if GoesBack(s) then s.holder[Idx(s.read)] else s.read;
      && t.buffering == (s.buffering && !(slot.ready && bufferingOver))
      && if Releases(s, bufferingOver, isTime) then
           t.ring == s.ring[Idx(s.read) := Freed(slot)] && t.read == at + 1 && t.handed == s.handed + [at]
           && t.served == s.served + [Freed(slot)]
         else t.ring == s.ring && t.read == at && t.handed == s.handed && t.served == s.served
    ensures t == Released(s, bufferingOver, isTime)
  {
  }

  /** One pass of `buffer_get_frame`. */
  function Got(s: State, shouldBe: nat, bufferingOver: bool, isTime: bool): State
    requires Ordered(s)
  {
    if Overruns(s) then Flushed(s) else Released(Skipped(Flushed(s), shouldBe), bufferingOver, isTime)
  }
}

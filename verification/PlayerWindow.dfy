/**
 What every slot of the jitter buffer holds, on every run: slots are not cleared when their frames are
 skipped, so a slot can still be ready with a packet passed long ago.
 */
module PlayerWindow {
  import opened PlayerSlots
  import opened PlayerResends

  /** The number of the packet last put into each slot. */
  type Holders = s: seq<nat> | |s| == BUFFER_FRAMES witness seq(BUFFER_FRAMES, _ => 0)

  /** A packet among the last 1024 numbers, or the last 2048 if the 16-bit numbers have wrapped since. */
  predicate Recent(m: nat, w: nat)
  {
    w <= m + BUFFER_FRAMES || (w <= m + 2 * BUFFER_FRAMES && m / 0x1_0000 < w / 0x1_0000)
  }

  /**
   A ready slot holds a packet put in since the first one, into its own slot, not long ago; and if its
   number has not been passed yet, the latest packet accepted for it.
   */
  predicate SlotKept(ring: Ring, holder: Holders, accepted: map<nat, Packet>, first: nat, r: nat, w: nat, i: nat)
    requires i < BUFFER_FRAMES
  {
    ring[i].ready ==>
      var m := holder[i];
      && first <= m < w && Idx(m) == i && ring[i].seqno == Seq(m) && Recent(m, w)
      && (m >= r ==> m in accepted && Packet(ring[i].timestamp, ring[i].frames) == accepted[m])
  }

  /** An accepted packet not passed yet is in its slot. */
  predicate Present(ring: Ring, holder: Holders, accepted: map<nat, Packet>, n: nat)
  {
    n in accepted ==> ring[Idx(n)].ready && holder[Idx(n)] == n
  }

  /** What holds of the slots on every run while the window fits the ring. */
  predicate Kept(ring: Ring, holder: Holders, accepted: map<nat, Packet>, first: nat, r: nat, w: nat)
  {
    && first <= r <= w <= r + BUFFER_FRAMES
    && (forall i | 0 <= i < BUFFER_FRAMES :: SlotKept(ring, holder, accepted, first, r, w, i))
    && (forall n | r <= n < w :: Present(ring, holder, accepted, n))
    && (forall n | n in accepted :: n < w)
  }

  /** The slot of packet `n` is ready with another packet's number. */
  predicate Stale(ring: Ring, n: nat)
  {
    ring[Idx(n)].ready && ring[Idx(n)].seqno != Seq(n)
  }

  predicate NoneStale(ring: Ring, r: nat, w: nat)
  {
    forall n | r <= n < w :: !Stale(ring, n)
  }

  // ---------- what a slot of the window can hold ----------

  lemma SameSlot(m: nat, n: nat)
    requires Idx(m) == Idx(n) && m != n
    ensures m + BUFFER_FRAMES <= n || n + BUFFER_FRAMES <= m
  {
    if m < n < m + BUFFER_FRAMES {
      IdxDistinct(m, n);
    }
    if n < m < n + BUFFER_FRAMES {
      IdxDistinct(n, m);
    }
  }

  lemma SeqTooFar(m: nat, n: nat)
    requires m < n < m + 0x1_0000
    ensures Seq(m) != Seq(n)
  {
    var p, q := m / 0x1_0000, n / 0x1_0000;
    assert n - m == (q - p) * 0x1_0000 + (Seq(n) - Seq(m));
  }

  /**
   A slot of the window holds its own packet, which was accepted, or is not ready, or is stale: then it
   holds one at least 1024 numbers back, which has been passed.
   */
  lemma SlotOfWindow(ring: Ring, holder: Holders, accepted: map<nat, Packet>, first: nat, r: nat, w: nat, n: nat)
    requires Kept(ring, holder, accepted, first, r, w) && r <= n < w
    ensures var s, m := ring[Idx(n)], holder[Idx(n)];
      && (n in accepted <==> s.ready && !Stale(ring, n))
      && (n in accepted ==> s.seqno == Seq(n) && Packet(s.timestamp, s.frames) == accepted[n])
      && (Stale(ring, n) ==> first <= m && m + BUFFER_FRAMES <= n && Idx(m) == Idx(n) && s.seqno == Seq(m) && Recent(m, w))
  {
    hide Idx, Seq;
    assert SlotKept(ring, holder, accepted, first, r, w, Idx(n));
    assert Present(ring, holder, accepted, n);
    var m := holder[Idx(n)];
    if ring[Idx(n)].ready && m != n {
      SameSlot(m, n);
      SeqTooFar(m, n);
    }
  }

  /** All slots of the window hold what they should exactly when none is stale. */
  lemma AllHoldMeans(ring: Ring, holder: Holders, accepted: map<nat, Packet>, first: nat, r: nat, w: nat)
    requires Kept(ring, holder, accepted, first, r, w)
    ensures AllHold(ring, accepted, r, w) <==> NoneStale(ring, r, w)
  {
    hide Kept, Idx, Seq, Stale, Present, SlotKept;
    assert r <= w <= r + BUFFER_FRAMES && forall n | n in accepted :: n < w by {
      KeptBounds(ring, holder, accepted, first, r, w);
    }
    forall n | r <= n < w
      ensures Holds(ring, accepted, n) <==> !Stale(ring, n)
    {
      SlotOfWindow(ring, holder, accepted, first, r, w, n);
      StaleMeans(ring, n);
    }
  }

  lemma StaleMeans(ring: Ring, n: nat)
    ensures Stale(ring, n) <==> ring[Idx(n)].ready && ring[Idx(n)].seqno != Seq(n)
  {
  }

  lemma KeptBounds(ring: Ring, holder: Holders, accepted: map<nat, Packet>, first: nat, r: nat, w: nat)
    requires Kept(ring, holder, accepted, first, r, w)
    ensures first <= r <= w <= r + BUFFER_FRAMES && forall n | n in accepted :: n < w
  {
  }

  /** A packet filled in is not stale, and changes nothing for the others of the window. */
  lemma StaleFilled(ring: Ring, r: nat, n: nat, s: Slot, m: nat)
    requires r <= n < r + BUFFER_FRAMES && r <= m < r + BUFFER_FRAMES && (s.ready ==> s.seqno == Seq(n))
    ensures Stale(ring[Idx(n) := s], m) <==> m != n && Stale(ring, m)
  {
    hide Idx, Seq;
    if m < n {
      IdxDistinct(m, n);
    } else if m > n {
      IdxDistinct(n, m);
    }
  }

  lemma NoneStaleFilled(ring: Ring, r: nat, w: nat, n: nat, s: Slot)
    requires r <= n <= w && n < r + BUFFER_FRAMES && w <= r + BUFFER_FRAMES && (s.ready ==> s.seqno == Seq(n))
    ensures NoneStale(ring, r, w) ==> NoneStale(ring[Idx(n) := s], r, if n == w then w + 1 else w)
    ensures n == w ==> (NoneStale(ring[Idx(n) := s], r, w + 1) <==> NoneStale(ring, r, w))
  {
    hide Idx, Seq, Stale;
    var after: Ring := ring[Idx(n) := s];
    forall m | r <= m < if n == w then w + 1 else w
      ensures Stale(after, m) <==> m != n && Stale(ring, m)
    {
      StaleFilled(ring, r, n, s, m);
    }
  }

  lemma {:induction false} NoneStaleMarked(ring: Ring, r: nat, w: nat, k: nat, now: nat)
    requires r <= w && w + k <= r + BUFFER_FRAMES && NoneStale(ring, r, w)
    ensures NoneStale(Marked(ring, w, k, now), r, w + k)
  {
    hide Idx, NoneStale;
    if k > 0 {
      NoneStaleMarked(ring, r, w, k - 1, now);
      var before, n := Marked(ring, w, k - 1, now), w + k - 1;
      NoneStaleFilled(before, r, n, n, MarkedMissing(before[Idx(n)], now));
    }
  }

  lemma NoneStaleAdvanced(ring: Ring, r: nat, w: nat, r': nat)
    requires NoneStale(ring, r, w) && r <= r'
    ensures NoneStale(ring, r', w)
  {
  }

  lemma NoneStaleReleased(ring: Ring, r: nat, w: nat, s: Slot)
    requires NoneStale(ring, r, w) && r < w <= r + BUFFER_FRAMES && !s.ready
    ensures NoneStale(ring[Idx(r) := s], r + 1, w)
  {
    hide Idx, Seq, Stale;
    var after: Ring := ring[Idx(r) := s];
    forall m | r < m < w
      ensures !Stale(after, m)
    {
      StaleFilled(ring, r, r, s, m);
    }
  }

  /** Moving the end of the window without marking the gap is right exactly when no slot in the gap is ready. */
  lemma NoneStaleUnmarked(ring: Ring, holder: Holders, accepted: map<nat, Packet>, first: nat, r: nat, w: nat, s: nat)
    requires Kept(ring, holder, accepted, first, r, s) && r <= w <= s && NoneStale(ring, r, w)
    requires forall n | n in accepted :: n < w
    ensures NoneStale(ring, r, s) <==> NoneReady(ring, w, s)
  {
    hide Kept, Idx, Seq, Stale;
    forall n | w <= n < s
      ensures Stale(ring, n) <==> ring[Idx(n)].ready
    {
      SlotOfWindow(ring, holder, accepted, first, r, s, n);
      StaleMeans(ring, n);
    }
  }

  // ---------- what keeps it ----------

  lemma RecentNext(m: nat, w: nat)
    requires m < w && Recent(m, w) && Idx(m) != Idx(w)
    ensures Recent(m, w + 1)
  {
    assert Idx(m + BUFFER_FRAMES) == Idx(m) && Idx(m + 2 * BUFFER_FRAMES) == Idx(m);
    assert w / 0x1_0000 <= (w + 1) / 0x1_0000;
  }

  /** Filling a slot of the window, or the one behind it. */
  lemma KeptFilled(ring: Ring, holder: Holders, accepted: map<nat, Packet>, first: nat, r: nat, w: nat, n: nat, s: Slot)
    requires Kept(ring, holder, accepted, first, r, w) && r <= n <= w && n < r + BUFFER_FRAMES
    requires s.ready ==> s.seqno == Seq(n)
    ensures Kept(ring[Idx(n) := s], holder[Idx(n) := n], Recorded(accepted, n, s), first, r, if n == w then w + 1 else w)
  {
    hide Idx, Seq, Recent;
    var ring': Ring, holder': Holders := ring[Idx(n) := s], holder[Idx(n) := n];
    var accepted', w' := Recorded(accepted, n, s), if n == w then w + 1 else w;
    RecentSelf(n, w');
    forall i | 0 <= i < BUFFER_FRAMES
      ensures SlotKept(ring', holder', accepted', first, r, w', i)
    {
      assert SlotKept(ring, holder, accepted, first, r, w, i);
      if i != Idx(n) && ring[i].ready && n == w {
        RecentNext(holder[i], w);
      }
    }
    forall m | r <= m < w'
      ensures Present(ring', holder', accepted', m)
    {
      assert m != w ==> Present(ring, holder, accepted, m);
      if m < n {
        IdxDistinct(m, n);
      } else if m > n {
        IdxDistinct(n, m);
      }
    }
  }

  lemma RecentSelf(n: nat, w: nat)
    requires w <= n + BUFFER_FRAMES
    ensures Recent(n, w)
  {
  }

  /** The holders after `k` packets from `w` on have been marked as missing. */
  function MarkedBy(holder: Holders, w: nat, k: nat): Holders
  {
    if k == 0 then holder else MarkedBy(holder, w, k - 1)[Idx(w + k - 1) := w + k - 1]
  }

  lemma {:induction false} KeptMarked(ring: Ring, holder: Holders, accepted: map<nat, Packet>, first: nat, r: nat, w: nat,
                                      k: nat, now: nat)
    requires Kept(ring, holder, accepted, first, r, w) && w + k <= r + BUFFER_FRAMES
    ensures Kept(Marked(ring, w, k, now), MarkedBy(holder, w, k), accepted, first, r, w + k)
  {
    hide Kept;
    if k > 0 {
      KeptMarked(ring, holder, accepted, first, r, w, k - 1, now);
      var before, held, n := Marked(ring, w, k - 1, now), MarkedBy(holder, w, k - 1), w + k - 1;
      KeptBounds(ring, holder, accepted, first, r, w);
      assert accepted - {n} == accepted;
      KeptFilled(before, held, accepted, first, r, n, n, MarkedMissing(before[Idx(n)], now));
    }
  }

  lemma RecentCrossed(m: nat, w: nat, s: nat)
    requires m < w <= s < w + BUFFER_FRAMES && w / 0x1_0000 < s / 0x1_0000 && Recent(m, w)
    ensures Recent(m, s)
  {
    var a, b, c := m / 0x1_0000, w / 0x1_0000, s / 0x1_0000;
    assert a <= b < c && 0x1_0000 * c <= s && m < 0x1_0000 * (a + 1);
  }

  /** Moving the end of the window over a gap that crosses the wrap-around, without marking it. */
  lemma KeptCrossed(ring: Ring, holder: Holders, accepted: map<nat, Packet>, first: nat, r: nat, w: nat, s: nat)
    requires Kept(ring, holder, accepted, first, r, w) && w <= s < r + BUFFER_FRAMES && w / 0x1_0000 < s / 0x1_0000
    ensures Kept(ring, holder, accepted, first, r, s)
  {
    hide Idx, Seq, Recent;
    forall i | 0 <= i < BUFFER_FRAMES
      ensures SlotKept(ring, holder, accepted, first, r, s, i)
    {
      assert SlotKept(ring, holder, accepted, first, r, w, i);
      if ring[i].ready {
        RecentCrossed(holder[i], w, s);
      }
    }
    forall n | r <= n < s
      ensures Present(ring, holder, accepted, n)
    {
      assert n < w ==> Present(ring, holder, accepted, n);
    }
  }

  lemma KeptAdvanced(ring: Ring, holder: Holders, accepted: map<nat, Packet>, first: nat, r: nat, w: nat, r': nat)
    requires Kept(ring, holder, accepted, first, r, w) && r <= r' <= w
    ensures Kept(ring, holder, accepted, first, r', w)
  {
    hide Idx, Seq, Recent;
    forall i | 0 <= i < BUFFER_FRAMES
      ensures SlotKept(ring, holder, accepted, first, r', w, i)
    {
      assert SlotKept(ring, holder, accepted, first, r, w, i);
    }
  }

  /** Clearing the slot of the packet that is passed. */
  lemma KeptReleased(ring: Ring, holder: Holders, accepted: map<nat, Packet>, first: nat, r: nat, w: nat, s: Slot)
    requires Kept(ring, holder, accepted, first, r, w) && r < w && !s.ready
    ensures Kept(ring[Idx(r) := s], holder, accepted, first, r + 1, w)
  {
    hide Idx, Seq, Recent;
    var ring': Ring, r' := ring[Idx(r) := s], r + 1;
    forall i | 0 <= i < BUFFER_FRAMES
      ensures SlotKept(ring', holder, accepted, first, r', w, i)
    {
      assert SlotKept(ring, holder, accepted, first, r, w, i);
    }
    forall n | r + 1 <= n < w
      ensures Present(ring', holder, accepted, n)
    {
      assert Present(ring, holder, accepted, n);
      IdxDistinct(r, n);
    }
  }

  /** What accepted packets become when the packet in slot `n` is trimmed: only its own number's is changed. */
  function Retimed(accepted: map<nat, Packet>, ring: Ring, holder: Holders, n: nat, p: Packet): map<nat, Packet>
  {
    if ring[Idx(n)].ready && holder[Idx(n)] == n then accepted[n := p] else accepted
  }

  /** Trimming the packet in the slot under the read pointer. */
  lemma KeptTrimmed(ring: Ring, holder: Holders, accepted: map<nat, Packet>, first: nat, r: nat, w: nat, s: Slot)
    requires Kept(ring, holder, accepted, first, r, w) && r < w
    requires s.ready == ring[Idx(r)].ready && s.seqno == ring[Idx(r)].seqno
    ensures Kept(ring[Idx(r) := s], holder, Retimed(accepted, ring, holder, r, Packet(s.timestamp, s.frames)), first, r, w)
  {
    hide Idx, Seq, Recent;
    var ring': Ring := ring[Idx(r) := s];
    var accepted' := Retimed(accepted, ring, holder, r, Packet(s.timestamp, s.frames));
    forall i | 0 <= i < BUFFER_FRAMES
      ensures SlotKept(ring', holder, accepted', first, r, w, i)
    {
      assert SlotKept(ring, holder, accepted, first, r, w, i);
      if i == Idx(r) && ring[i].ready && holder[i] > r {
        SameSlot(holder[i], r);
      }
    }
    forall n | r <= n < w
      ensures Present(ring', holder, accepted', n)
    {
      assert Present(ring, holder, accepted, n);
    }
  }

  /** The slots differ in their resend fields at most. */
  predicate Similar(a: Ring, b: Ring)
  {
    forall i | 0 <= i < BUFFER_FRAMES :: a[i] == b[i].(resendTime := a[i].resendTime, resends := a[i].resends)
  }

  lemma KeptSimilar(ring: Ring, ring': Ring, holder: Holders, accepted: map<nat, Packet>, first: nat, r: nat, w: nat)
    requires Kept(ring, holder, accepted, first, r, w) && Similar(ring', ring)
    ensures Kept(ring', holder, accepted, first, r, w)
  {
    hide Idx, Seq, Recent;
    forall i | 0 <= i < BUFFER_FRAMES
      ensures SlotKept(ring', holder, accepted, first, r, w, i)
    {
      assert SlotKept(ring, holder, accepted, first, r, w, i);
      assert ring'[i] == ring[i].(resendTime := ring'[i].resendTime, resends := ring'[i].resends);
    }
    forall n | r <= n < w
      ensures Present(ring', holder, accepted, n)
    {
      assert Present(ring, holder, accepted, n);
      var i := Idx(n);
      assert ring'[i] == ring[i].(resendTime := ring'[i].resendTime, resends := ring'[i].resends);
    }
  }

  lemma {:induction false} StampedSimilar(ring: Ring, c: Clock, x: nat, n: nat)
    requires x <= n
    ensures Similar(Stamped(ring, c, x, n), ring)
    decreases n - x
  {
    hide Idx;
    if x < n {
      StampedSimilar(ring, c, x, n - 1);
    }
  }

  /** With no ready slot the first packet can have any number. */
  lemma KeptAtFirst(ring: Ring, holder: Holders, n: nat)
    requires forall i | 0 <= i < BUFFER_FRAMES :: !ring[i].ready
    ensures Kept(ring, holder, map[], n, n, n)
  {
  }
}

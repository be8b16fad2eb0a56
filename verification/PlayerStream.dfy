/** What a flush to a timestamp makes of a buffer whose frames are one stream. */
module PlayerStream {
  import opened Numbers
  import opened PlayerSlots
  import opened PlayerFlush
  import opened PlayerWindow

  /** The frames of packets `r` to before `w` are one stream of less than 2^31 frames. */
  predicate Whole(accepted: map<nat, Packet>, r: nat, w: nat)
  {
    r < w && Contiguous(accepted, r, w) && Offset(accepted, r, w) < 0x8000_0000
  }

  /** The accepted packets after a flush to `t` that stops at `n`. */
  function Dropped(accepted: map<nat, Packet>, ring: Ring, holder: Holders, n: nat, t: nat): map<nat, Packet>
    requires !TooShort(ring[Idx(n)], t)
  {
    var s := FromTime(ring[Idx(n)], t);
    Retimed(accepted, ring, holder, n, Packet(s.timestamp, s.frames))
  }

  lemma PacketThere(ring: Ring, holder: Holders, accepted: map<nat, Packet>, first: nat, r: nat, w: nat, n: nat)
    requires Kept(ring, holder, accepted, first, r, w) && Contiguous(accepted, r, w) && r <= n < w
    ensures var s := ring[Idx(n)];
      n in accepted && s.ready && holder[Idx(n)] == n && Packet(s.timestamp, s.frames) == accepted[n]
  {
    hide Idx, Seq, Stale, Time, SlotKept, Recent;
    SlotOfWindow(ring, holder, accepted, first, r, w, n);
    assert Present(ring, holder, accepted, n);
  }

  lemma {:induction false} Reached(ring: Ring, holder: Holders, accepted: map<nat, Packet>, first: nat, r: nat, w: nat, n: nat,
                                   t: nat, d: int)
    requires Kept(ring, holder, accepted, first, r, w) && Reaching(accepted, r, w, r, t, d)
    requires r <= n < w && forall m | r <= m < n :: EndsBefore(ring[Idx(m)], t)
    ensures Reaching(accepted, r, w, n, t, d)
    decreases n
  {
    hide Idx, Kept, Wrap32, Time, Contiguous, Offset;
    if r < n {
      Reached(ring, holder, accepted, first, r, w, n - 1, t, d);
      ContiguousIn(accepted, r, w, n - 1, t, d);
      PacketThere(ring, holder, accepted, first, r, w, n - 1);
      ReachingStep(accepted, r, w, n - 1, t, d);
      assert EndsBefore(ring[Idx(n - 1)], t);
    }
  }

  lemma ContiguousIn(packets: map<nat, Packet>, r: nat, w: nat, n: nat, t: nat, d: int)
    requires Reaching(packets, r, w, n, t, d)
    ensures Contiguous(packets, r, w)
  {
  }

  /** In such a buffer no slot is too short. */
  lemma WholeTrims(ring: Ring, holder: Holders, accepted: map<nat, Packet>, first: nat, r: nat, w: nat, n: nat, t: nat)
    requires Kept(ring, holder, accepted, first, r, w) && Whole(accepted, r, w)
    requires r <= n < w && !EndsBefore(ring[Idx(n)], t)
    ensures !TooShort(ring[Idx(n)], t)
  {
    hide Idx, Kept, Wrap32, Time, Offset, EndsBefore, TooShort;
    PacketThere(ring, holder, accepted, first, r, w, n);
    TrimFits(ring[Idx(n)], t);
  }

  /** If time `t` lies behind the first frame and not behind the last, exactly the frames from it on are left. */
  lemma DropExact(ring: Ring, holder: Holders, accepted: map<nat, Packet>, first: nat, r: nat, w: nat, n: nat, t: nat)
    requires Kept(ring, holder, accepted, first, r, w) && Whole(accepted, r, w) && t < 0x1_0000_0000
    requires n < w && StopsAt(ring, r, n, t) && !TooShort(ring[Idx(n)], t)
    ensures var d, after := Wrap32(t - ring[Idx(r)].timestamp), Dropped(accepted, ring, holder, n, t);
      0 < d < Offset(accepted, r, w) ==>
        && Contiguous(after, n, w) && after[n].timestamp == t && d <= |Stream(accepted, r, w)|
        && Stream(after, n, w) == Stream(accepted, r, w)[d..]
  {
    hide Idx, Kept, Wrap32, Time, Contiguous, Offset, Stream, Reaching;
    var d := Wrap32(t - ring[Idx(r)].timestamp);
    AllThere(accepted, r, w);
    if 0 < d < Offset(accepted, r, w) {
      PacketThere(ring, holder, accepted, first, r, w, r);
      ReachingFirst(accepted, r, w, t);
      Reached(ring, holder, accepted, first, r, w, n, t, d);
      PacketThere(ring, holder, accepted, first, r, w, n);
      ReachingStep(accepted, r, w, n, t, d);
      var k := Wrap32(t - ring[Idx(n)].timestamp);
      StreamTrimmed(accepted, r, n, w, k);
      TrimNothing(accepted, r, w, n);
      TrimmedIs(accepted, n, k, t);
    }
  }

  lemma AllThere(packets: map<nat, Packet>, r: nat, w: nat)
    requires Contiguous(packets, r, w)
    ensures forall m | r <= m < w :: m in packets
  {
  }

  lemma TrimmedIs(packets: map<nat, Packet>, n: nat, k: nat, t: nat)
    requires n in packets && k < |packets[n].frames| && t == Time(packets[n].timestamp + k)
    ensures Trimmed(packets[n], k) == Packet(t, packets[n].frames[k..])
  {
  }

  /** The tests of the code on the two end slots tell where the flush timestamp lies. */
  lemma EndSlots(ring: Ring, holder: Holders, accepted: map<nat, Packet>, first: nat, r: nat, w: nat, t: nat)
    requires Kept(ring, holder, accepted, first, r, w) && Whole(accepted, r, w) && t < 0x1_0000_0000
    ensures var d, total, last := Wrap32(t - ring[Idx(r)].timestamp), Offset(accepted, r, w), LastFrame(ring[Idx(w - 1)]);
      && ring[Idx(r)].ready && ring[Idx(w - 1)].ready && total > 0
      && (d > 0 ==> (Wrap32(last - t) >= 0 <==> d < total) && (t == Time(last + 1) <==> d == total))
  {
    hide Idx, Kept, Wrap32, Time, Contiguous, Offset;
    PacketThere(ring, holder, accepted, first, r, w, r);
    PacketThere(ring, holder, accepted, first, r, w, w - 1);
    FlushCases(accepted, r, w, t);
  }
}

/** The frames in the buffer as one stream with 32-bit timestamps, and what a flush to a timestamp leaves of it. */
module PlayerFlush {
  import opened Numbers
  import opened PlayerSlots

  function Time(t: int): nat
  {
    t % 0x1_0000_0000
  }

  /** Packets `r` to before `w` are all there, none empty, each starting where the one before ends. */
  predicate Contiguous(packets: map<nat, Packet>, r: nat, w: nat)
  {
    && (forall n | r <= n < w :: n in packets && |packets[n].frames| > 0 && packets[n].timestamp < 0x1_0000_0000)
    && (forall n | r < n < w :: packets[n].timestamp == Time(packets[n - 1].timestamp + |packets[n - 1].frames|))
  }

  /** The number of frames in packets `r` to before `n`. */
  function Offset(packets: map<nat, Packet>, r: nat, n: nat): (k: nat)
    requires r <= n && forall m | r <= m < n :: m in packets
    decreases n - r
  {
    if r == n then 0 else Offset(packets, r, n - 1) + |packets[n - 1].frames|
  }

  /** The frames of packets `n` to before `w`. */
  function Stream(packets: map<nat, Packet>, n: nat, w: nat): seq<Frame>
    requires n <= w && forall m | n <= m < w :: m in packets
    decreases w - n
  {
    if n == w then [] else packets[n].frames + Stream(packets, n + 1, w)
  }

  lemma TimeStep(a: int, b: int, c: int)
    requires b == Time(a)
    ensures Time(b + c) == Time(a + c)
  {
    var k := a / 0x1_0000_0000;
    assert a + c == k * 0x1_0000_0000 + (b + c);
    var q, r := (b + c) / 0x1_0000_0000, (b + c) % 0x1_0000_0000;
    DivModUnique(a + c, k + q, 0x1_0000_0000, r);
  }

  lemma {:induction false} TimestampAt(packets: map<nat, Packet>, r: nat, w: nat, n: nat)
    requires Contiguous(packets, r, w) && r <= n < w
    ensures packets[n].timestamp == Time(packets[r].timestamp + Offset(packets, r, n))
    decreases n - r
  {
    if r < n {
      TimestampAt(packets, r, w, n - 1);
      TimeStep(packets[r].timestamp + Offset(packets, r, n - 1), packets[n - 1].timestamp, |packets[n - 1].frames|);
    }
  }

  lemma {:induction false} OffsetOrder(packets: map<nat, Packet>, r: nat, n: nat, w: nat)
    requires r <= n <= w && forall m | r <= m < w :: m in packets
    ensures Offset(packets, r, n) <= Offset(packets, r, w)
    decreases w - n
  {
    if n < w {
      OffsetOrder(packets, r, n + 1, w);
    }
  }

  lemma {:induction false} OffsetFront(packets: map<nat, Packet>, r: nat, w: nat)
    requires r < w && forall m | r <= m < w :: m in packets
    ensures Offset(packets, r, w) == |packets[r].frames| + Offset(packets, r + 1, w)
    decreases w
  {
    if r + 1 < w {
      OffsetFront(packets, r, w - 1);
    }
  }

  lemma DropBoth(a: seq<Frame>, b: seq<Frame>, k: nat)
    requires k <= |b|
    ensures (a + b)[|a| + k..] == b[k..]
  {
  }

  lemma {:induction false} StreamDrop(packets: map<nat, Packet>, r: nat, n: nat, w: nat)
    requires r <= n <= w && forall m | r <= m < w :: m in packets
    ensures Offset(packets, r, n) <= |Stream(packets, r, w)|
    ensures Stream(packets, r, w)[Offset(packets, r, n)..] == Stream(packets, n, w)
    decreases n - r
  {
    if r < n {
      StreamDrop(packets, r + 1, n, w);
      OffsetFront(packets, r, n);
      DropBoth(packets[r].frames, Stream(packets, r + 1, w), Offset(packets, r + 1, n));
    }
  }

  lemma {:induction false} StreamAgrees(p: map<nat, Packet>, q: map<nat, Packet>, n: nat, w: nat)
    requires n <= w && forall m | n <= m < w :: m in p && m in q && p[m] == q[m]
    ensures Stream(p, n, w) == Stream(q, n, w)
    decreases w - n
  {
    if n < w {
      StreamAgrees(p, q, n + 1, w);
    }
  }

  /** Packet `n` without its first `k` frames. */
  function Trimmed(p: Packet, k: nat): Packet
    requires k < |p.frames|
  {
    Packet(Time(p.timestamp + k), p.frames[k..])
  }

  lemma TrimmedContiguous(packets: map<nat, Packet>, n: nat, w: nat, k: nat)
    requires Contiguous(packets, n, w) && n < w && k < |packets[n].frames|
    ensures Contiguous(packets[n := Trimmed(packets[n], k)], n, w)
  {
    hide Time;
    TimeBound(packets[n].timestamp + k);
    TimeStep(packets[n].timestamp + k, Trimmed(packets[n], k).timestamp, |packets[n].frames| - k);
  }

  lemma TrimNothing(packets: map<nat, Packet>, r: nat, w: nat, n: nat)
    requires Contiguous(packets, r, w) && r <= n < w
    ensures n in packets && |packets[n].frames| > 0 && packets[n := Trimmed(packets[n], 0)] == packets
  {
    assert Trimmed(packets[n], 0) == packets[n];
  }

  lemma DropTwice(s: seq<Frame>, a: nat, b: nat)
    requires a + b <= |s|
    ensures s[a..][b..] == s[a + b..]
  {
  }

  lemma DropFirst(a: seq<Frame>, b: seq<Frame>, k: nat)
    requires k <= |a|
    ensures (a + b)[k..] == a[k..] + b
  {
  }

  lemma TrimmedStream(packets: map<nat, Packet>, n: nat, w: nat, k: nat)
    requires n < w && (forall m | n <= m < w :: m in packets) && k < |packets[n].frames|
    ensures Stream(packets[n := Trimmed(packets[n], k)], n, w) == packets[n].frames[k..] + Stream(packets, n + 1, w)
    ensures Stream(packets, n, w) == packets[n].frames + Stream(packets, n + 1, w)
  {
    hide Time;
    StreamAgrees(packets, packets[n := Trimmed(packets[n], k)], n + 1, w);
  }

  /** Dropping the packets before `n` and the first `k` frames of `n` drops exactly that many frames of the stream. */
  lemma StreamTrimmed(packets: map<nat, Packet>, r: nat, n: nat, w: nat, k: nat)
    requires Contiguous(packets, r, w) && r <= n < w && k < |packets[n].frames|
    ensures var after := packets[n := Trimmed(packets[n], k)];
      && Contiguous(after, n, w) && Offset(packets, r, n) + k <= |Stream(packets, r, w)|
      && Stream(after, n, w) == Stream(packets, r, w)[Offset(packets, r, n) + k..]
  {
    hide Time, Offset, Stream, Trimmed;
    TrimmedContiguous(packets, n, w, k);
    StreamDrop(packets, r, n, w);
    TrimmedStream(packets, n, w, k);
    DropTwice(Stream(packets, r, w), Offset(packets, r, n), k);
    DropFirst(packets[n].frames, Stream(packets, n + 1, w), k);
  }

  lemma TimeBound(t: int)
    ensures Time(t) < 0x1_0000_0000
  {
  }

  /** Differences of timestamps are true distances below 2^31. */
  lemma TimeDistance(a: int, b: int)
    requires -0x8000_0000 <= a - b < 0x8000_0000
    ensures Wrap32(Time(a) - Time(b)) == a - b
  {
    var p, q := a / 0x1_0000_0000, b / 0x1_0000_0000;
    assert Time(a) - Time(b) + 0x8000_0000 == (q - p) * 0x1_0000_0000 + (a - b + 0x8000_0000);
    DivModUnique(Time(a) - Time(b) + 0x8000_0000, q - p, 0x1_0000_0000, a - b + 0x8000_0000);
  }

  lemma DistanceOf(t: nat, base: nat)
    requires t < 0x1_0000_0000 && base < 0x1_0000_0000
    ensures t == Time(base + Wrap32(t - base)) && -0x8000_0000 <= Wrap32(t - base) < 0x8000_0000
  {
    var d := Wrap32(t - base);
    var k := (t - base + 0x8000_0000) / 0x1_0000_0000;
    assert base + d == -k * 0x1_0000_0000 + t;
    DivModUnique(base + d, -k, 0x1_0000_0000, t);
  }

  /** Time `t` lies `d` frames after the start of packet `r`, within the packets, and not before packet `n`. */
  predicate Reaching(packets: map<nat, Packet>, r: nat, w: nat, n: nat, t: nat, d: int)
  {
    && Contiguous(packets, r, w) && r <= n < w && Offset(packets, r, w) < 0x8000_0000
    && 0 < d < Offset(packets, r, w) && t == Time(packets[r].timestamp + d) && Offset(packets, r, n) <= d
  }

  lemma ReachingFirst(packets: map<nat, Packet>, r: nat, w: nat, t: nat)
    requires Contiguous(packets, r, w) && r < w && Offset(packets, r, w) < 0x8000_0000 && t < 0x1_0000_0000
    requires 0 < Wrap32(t - packets[r].timestamp) < Offset(packets, r, w)
    ensures Reaching(packets, r, w, r, t, Wrap32(t - packets[r].timestamp))
  {
    hide Time, Wrap32;
    DistanceOf(t, packets[r].timestamp);
  }

  /** The frames from the last one of packet `n` to time `t`, as the code computes them, say whether `t` lies behind it. */
  lemma ReachingStep(packets: map<nat, Packet>, r: nat, w: nat, n: nat, t: nat, d: int)
    requires Reaching(packets, r, w, n, t, d)
    ensures |packets[n].frames| > 0
    ensures var p, beyond := packets[n], Wrap32(t - Time(packets[n].timestamp + |packets[n].frames| - 1));
      && (beyond > 0 ==> n + 1 < w && Reaching(packets, r, w, n + 1, t, d))
      && (beyond <= 0 ==>
            var k := Wrap32(t - p.timestamp);
            0 <= k < |p.frames| && d == Offset(packets, r, n) + k && t == Time(p.timestamp + k))
  {
    hide Time, Wrap32;
    var base, length, o := packets[r].timestamp, PacketLength(packets, r, w, n), Offset(packets, r, n);
    TimestampAt(packets, r, w, n);
    TimeStep(base + o, packets[n].timestamp, length - 1);
    TimeStep(base + o, packets[n].timestamp, d - o);
    OffsetOrder(packets, r, n + 1, w);
    TimeDistance(base + d, base + o + (length - 1));
    TimeDistance(base + d, base + o);
  }

  function PacketLength(packets: map<nat, Packet>, r: nat, w: nat, n: nat): (k: nat)
    requires Contiguous(packets, r, w) && r <= n < w
    ensures n in packets && k == |packets[n].frames| > 0
  {
    |packets[n].frames|
  }

  lemma LastTime(packets: map<nat, Packet>, r: nat, w: nat)
    requires Contiguous(packets, r, w) && r < w
    ensures Offset(packets, r, w) > 0 && packets[r].timestamp < 0x1_0000_0000
    ensures Time(packets[w - 1].timestamp + |packets[w - 1].frames| - 1) ==
      Time(packets[r].timestamp + Offset(packets, r, w) - 1)
  {
    hide Time;
    TimestampAt(packets, r, w, w - 1);
    TimeStep(packets[r].timestamp + Offset(packets, r, w - 1), packets[w - 1].timestamp, |packets[w - 1].frames| - 1);
  }

  /** The tests of the code on a time `d` frames after `base`, against the last of `total` frames. */
  lemma TimeCases(base: nat, total: nat, d: int)
    requires 0 < total < 0x8000_0000 && 0 < d < 0x8000_0000
    ensures var t, lastFrame := Time(base + d), Time(base + total - 1);
      (Wrap32(lastFrame - t) >= 0 <==> d < total) && (t == Time(lastFrame + 1) <==> d == total)
  {
    hide Time, Wrap32;
    TimeStep(base + total - 1, Time(base + total - 1), 1);
    TimeDistance(base + total - 1, base + d);
    TimeDistance(base + total, base + d);
    WrapZero();
  }

  /** How the code tells where time `t` lies: before the packets, in them, at their end, or beyond. */
  lemma FlushCases(packets: map<nat, Packet>, r: nat, w: nat, t: nat)
    requires Contiguous(packets, r, w) && r < w && Offset(packets, r, w) < 0x8000_0000 && t < 0x1_0000_0000
    ensures var d, total := Wrap32(t - packets[r].timestamp), Offset(packets, r, w);
      var lastFrame := Time(packets[w - 1].timestamp + |packets[w - 1].frames| - 1);
      && total > 0 && packets[r].timestamp < 0x1_0000_0000
      && (d > 0 ==> (Wrap32(lastFrame - t) >= 0 <==> d < total) && (t == Time(lastFrame + 1) <==> d == total))
  {
    hide Time, Wrap32, Offset;
    var base, d := packets[r].timestamp, Wrap32(t - packets[r].timestamp);
    LastTime(packets, r, w);
    DistanceOf(t, base);
    if d > 0 {
      TimeCases(base, Offset(packets, r, w), d);
    }
  }

  lemma WrapZero()
    ensures Wrap32(0) == 0
  {
  }

  // ---------- what the loop of the code looks at ----------

  /** The timestamp of the last frame of a slot, whatever it holds. */
  function LastFrame(s: Slot): (t: nat)
    ensures t < 0x1_0000_0000
  {
    Time(s.timestamp + |s.frames| - 1)
  }

  /** The slot ends before time `t`, as the code tells it. */
  predicate EndsBefore(s: Slot, t: nat)
  {
    Wrap32(t - LastFrame(s)) > 0
  }

  /** The loop that drops packets stops at `n`. */
  predicate StopsAt(ring: Ring, r: nat, n: nat, t: nat)
  {
    r <= n && (forall m | r <= m < n :: EndsBefore(ring[Idx(m)], t)) && !EndsBefore(ring[Idx(n)], t)
  }

  /** The code would remove more frames from the slot than it has. */
  predicate TooShort(s: Slot, t: nat)
  {
    Wrap32(t - s.timestamp) > |s.frames|
  }

  /** The slot without the frames before time `t`. */
  function FromTime(s: Slot, t: nat): Slot
    requires !TooShort(s, t)
  {
    var k := Wrap32(t - s.timestamp);
    if k > 0 then s.(timestamp := t, frames := s.frames[k..]) else s
  }

  lemma Wrap32Shift(a: int, k: int)
    requires -0x8000_0000 <= Wrap32(a) + k < 0x8000_0000
    ensures Wrap32(a + k) == Wrap32(a) + k
  {
    var d := Wrap32(a);
    var m := (a + 0x8000_0000) / 0x1_0000_0000;
    assert a - d == m * 0x1_0000_0000;
    Wrap32Congruent(a + k, d + k, m);
  }

  /** The slot the loop stops at is too short exactly if it is empty and stamped 2^31 - 1 frames before `t`. */
  lemma TrimFits(s: Slot, t: nat)
    requires !EndsBefore(s, t)
    ensures TooShort(s, t) <==> |s.frames| == 0 && Wrap32(t - s.timestamp) == 0x7FFF_FFFF
  {
    hide Wrap32;
    var e := s.timestamp + |s.frames| - 1;
    var m := e / 0x1_0000_0000;
    assert t - LastFrame(s) - (t - e) == m * 0x1_0000_0000;
    Wrap32Congruent(t - LastFrame(s), t - e, m);
    Wrap32Bounds(t - s.timestamp);
    assert t - e == t - s.timestamp + (1 - |s.frames|);
    if Wrap32(t - s.timestamp) > |s.frames| && Wrap32(t - s.timestamp) - |s.frames| < 0x7FFF_FFFF {
      Wrap32Shift(t - s.timestamp, 1 - |s.frames|);
    }
  }

  lemma Wrap32Bounds(a: int)
    ensures -0x8000_0000 <= Wrap32(a) < 0x8000_0000
  {
  }

  /** The last slot of a window that ends at or after `t` stops the loop. */
  lemma LastStops(s: Slot, t: nat)
    requires Wrap32(LastFrame(s) - t) >= 0
    ensures !EndsBefore(s, t)
  {
    var a := LastFrame(s) - t;
    var k := (a + 0x8000_0000) / 0x1_0000_0000;
    assert -a + Wrap32(a) == -k * 0x1_0000_0000;
    Wrap32Congruent(-a, -Wrap32(a), -k);
  }
}

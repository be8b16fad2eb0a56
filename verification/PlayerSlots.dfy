/**
 The slots of the player's jitter buffer, as values: 16-bit sequence numbers in a ring of 1024, and
 the search for missing packets.
 */
module PlayerSlots {
  import opened Numbers

  const BUFFER_FRAMES: nat := 1024

  type Frame = (int, int)

  /** The frames of a packet; their number is an `int`. */
  type Frames = f: seq<Frame> | |f| < 0x8000_0000

  datatype Packet = Packet(timestamp: nat, frames: Frames)

  /** A slot; `timestamp`, `seqno` and `frames` mean nothing unless it is ready. */
  datatype Slot = Slot(ready: bool, seqno: nat, timestamp: nat, frames: Frames, initTime: nat, resendTime: nat,
                       resends: nat)

  // ---------- sequence numbers ----------

  /** `is_after`: the second sequence number is strictly after the first. */
  predicate IsAfter(a: nat, b: nat)
  {
    Wrap16(b - a) > 0
  }

  /** The slot of a packet with this number, wrapped or not. */
  function Idx(n: nat): (i: nat)
    ensures i < BUFFER_FRAMES
  {
    n % BUFFER_FRAMES
  }

  function Seq(n: nat): (q: nat)
    ensures q < 0x1_0000
  {
    n % 0x1_0000
  }

  /** The slot depends on the 16-bit number only. */
  lemma IdxOfSeq(n: nat)
    ensures Idx(Seq(n)) == Idx(n)
  {
    var k, r := n / 0x1_0000, n % 0x1_0000;
    var a, b := r / 1024, r % 1024;
    DivModUnique(n, 64 * k + a, 1024, b);
  }

  lemma SeqNext(n: nat)
    ensures (Seq(n) + 1) % 0x1_0000 == Seq(n + 1)
  {
  }

  /** Within the window, different packets have different sequence numbers. */
  lemma SeqEqual(m: nat, n: nat)
    requires m <= n <= m + BUFFER_FRAMES
    ensures Seq(m) == Seq(n) <==> m == n
  {
    var p, q := m / 0x1_0000, n / 0x1_0000;
    assert n - m == (q - p) * 0x1_0000 + (Seq(n) - Seq(m));
  }

  /** Within 1024 consecutive packets no two share a slot. */
  lemma IdxDistinct(m: nat, n: nat)
    requires m < n < m + BUFFER_FRAMES
    ensures Idx(m) != Idx(n)
  {
    var p, q := m / 1024, n / 1024;
    assert n - m == (q - p) * 1024 + (Idx(n) - Idx(m));
  }

  datatype Place = Next | Ahead | Late | TooLate

  /** How a packet that is not the first one is classified. */
  function PlaceOf(abRead: nat, abWrite: nat, seqno: nat): Place
  {
    if abWrite == seqno then Next
    else if IsAfter(abWrite, seqno) then Ahead
    else if IsAfter(abRead, seqno) then Late
    else TooLate
  }

  /** The number a 16-bit sequence number stands for: the one nearest to the next expected one. */
  function Unwrapped(w: nat, seqno: nat): int
  {
    w + Wrap16(seqno - Seq(w))
  }

  lemma Wrap16Exact(x: int, d: int)
    requires -0x8000 <= d < 0x8000 && (x - d) % 0x1_0000 == 0
    ensures Wrap16(x) == d
  {
    var k := (x - d) / 0x1_0000;
    assert x + 0x8000 == k * 0x1_0000 + (d + 0x8000);
    DivModUnique(x + 0x8000, k, 0x1_0000, d + 0x8000);
  }

  lemma Wrap16Range(x: int)
    ensures -0x8000 <= Wrap16(x) < 0x8000 && (x - Wrap16(x)) % 0x1_0000 == 0
  {
    var k, r := (x + 0x8000) / 0x1_0000, (x + 0x8000) % 0x1_0000;
    assert x - Wrap16(x) == k * 0x1_0000;
  }

  /** The signed distance of two 16-bit numbers is the true distance when that is less than 2^15. */
  lemma SeqDistance(a: nat, b: nat)
    requires -0x8000 <= b - a < 0x8000
    ensures Wrap16(Seq(b) - Seq(a)) == b - a
  {
    var p, q := a / 0x1_0000, b / 0x1_0000;
    assert Seq(b) - Seq(a) - (b - a) == (p - q) * 0x1_0000;
    Wrap16Exact(Seq(b) - Seq(a), b - a);
  }

  /** The 16-bit tests classify by true order, while the window is no larger than the ring. */
  lemma PlaceIsExact(r: nat, w: nat, seqno: nat)
    requires r <= w <= r + BUFFER_FRAMES && seqno < 0x1_0000
    ensures var s, place := Unwrapped(w, seqno), PlaceOf(Seq(r), Seq(w), seqno);
      && (s >= 0 ==> Seq(s) == seqno)
      && (place.Next? <==> s == w) && (place.Ahead? <==> w < s)
      && (place.Late? <==> r < s < w) && (place.TooLate? <==> s <= r && s < w)
  {
    hide Wrap16;
    var d := Wrap16(seqno - Seq(w));
    Wrap16Range(seqno - Seq(w));
    SeqShift(w, seqno, d);
    var k := Wrap16(seqno - Seq(r));
    Wrap16Range(seqno - Seq(r));
    SameShift(r, w, seqno, k, d);
  }

  lemma SeqOffset(r: nat, p: nat, q: nat)
    requires q < 0x1_0000 && p == Wrap16(q - Seq(r))
    ensures Seq(r + p) == q
  {
    hide Wrap16;
    Wrap16Range(q - Seq(r));
    SeqShift(r, q, p);
  }

  lemma SeqShift(w: nat, seqno: nat, d: int)
    requires seqno < 0x1_0000 && (seqno - Seq(w) - d) % 0x1_0000 == 0
    ensures w + d >= 0 ==> Seq(w + d) == seqno
    ensures -0x8000 <= d < 0x8000 ==> (d == 0 <==> Seq(w) == seqno)
  {
    var q, j := w / 0x1_0000, (seqno - Seq(w) - d) / 0x1_0000;
    assert w + d == (q - j) * 0x1_0000 + seqno;
    DivModUnique(w + d, q - j, 0x1_0000, seqno);
  }

  lemma SameShift(r: nat, w: nat, seqno: nat, k: int, d: int)
    requires r <= w <= r + BUFFER_FRAMES && -0x8000 <= k < 0x8000 && -0x8000 <= d < 0x8000
    requires (seqno - Seq(r) - k) % 0x1_0000 == 0 && (seqno - Seq(w) - d) % 0x1_0000 == 0
    ensures d <= 0 ==> (k > 0 <==> w + d > r)
  {
    var p, q := r / 0x1_0000, w / 0x1_0000;
    var i, j := (seqno - Seq(r) - k) / 0x1_0000, (seqno - Seq(w) - d) / 0x1_0000;
    assert r + k == (p - i) * 0x1_0000 + seqno && w + d == (q - j) * 0x1_0000 + seqno;
    var m := (p - i) - (q - j);
    assert r + k - (w + d) == m * 0x1_0000;
    assert -2 < m < 2;
  }

  // ---------- what the slots hold ----------

  type Ring = s: seq<Slot> | |s| == BUFFER_FRAMES witness seq(BUFFER_FRAMES, _ => Slot(false, 0, 0, [], 0, 0, 0))

  /** Slot of packet `n`: ready exactly if a packet was accepted for `n`, and then holding the latest one. */
  predicate Holds(ring: Ring, accepted: map<nat, Packet>, n: nat)
  {
    var s := ring[Idx(n)];
    && (s.ready <==> n in accepted)
    && (s.ready ==> s.seqno == Seq(n) && Packet(s.timestamp, s.frames) == accepted[n])
  }

  predicate AllHold(ring: Ring, accepted: map<nat, Packet>, r: nat, w: nat)
  {
    && r <= w <= r + BUFFER_FRAMES
    && (forall n | r <= n < w :: Holds(ring, accepted, n))
    && (forall n | n in accepted :: n < w)
  }

  /** The packet, if any, that a slot filled for `n` records as accepted. */
  function Recorded(accepted: map<nat, Packet>, n: nat, s: Slot): map<nat, Packet>
  {
    if s.ready then accepted[n := Packet(s.timestamp, s.frames)] else accepted - {n}
  }

  function MarkedMissing(s: Slot, now: nat): Slot
  {
    s.(ready := false, resends := 0, initTime := now, resendTime := 0, timestamp := 0, seqno := 0)
  }

  /** The slots after `k` packets from `w` on have been marked as missing. */
  function Marked(ring: Ring, w: nat, k: nat, now: nat): Ring
  {
    if k == 0 then ring
    else var before := Marked(ring, w, k - 1, now); before[Idx(w + k - 1) := MarkedMissing(before[Idx(w + k - 1)], now)]
  }

  /** Marking a gap touches no slot of the window before it, nor the ones behind it. */
  lemma {:induction false} MarkedElsewhere(ring: Ring, w: nat, k: nat, now: nat, n: nat)
    requires w + k <= n + BUFFER_FRAMES && (n < w || w + k <= n < w + BUFFER_FRAMES)
    ensures Marked(ring, w, k, now)[Idx(n)] == ring[Idx(n)]
  {
    hide Idx;
    if k > 0 {
      MarkedElsewhere(ring, w, k - 1, now, n);
      if n < w {
        IdxDistinct(n, w + k - 1);
      } else {
        IdxDistinct(w + k - 1, n);
      }
    }
  }

  predicate NoneReady(ring: Ring, n: nat, w: nat)
  {
    forall m | n <= m < w :: !ring[Idx(m)].ready
  }
}

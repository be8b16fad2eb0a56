/** The circular byte queue between the player and the PulseAudio callback. */
module PulseQueue {
  import opened Numbers

  const SIZE: nat := 44100 * 4 * 2 * 2

  /** What `pa_stream_begin_write` and `pa_stream_write` do in one round: success, a buffer, and room for some bytes. */
  datatype Grant = Grant(ok: bool, hasBuffer: bool, room: nat, written: bool)

  function Least(a: nat, b: nat): nat
  {
    if a < b then a else b
  }

  /** How many bytes the rounds from `i` on deliver: what is wanted, queued and granted, until one fails. */
  function Transferred(grants: seq<Grant>, i: nat, wanted: nat, queued: nat): (n: nat)
    ensures n <= wanted && n <= queued
    decreases |grants| - i
  {
    if i >= |grants| || wanted == 0 || queued == 0 || !grants[i].ok then 0
    else if !grants[i].hasBuffer then Transferred(grants, i + 1, wanted, queued)
    else
      var n := Least(grants[i].room, Least(wanted, queued));
      if grants[i].written then n + Transferred(grants, i + 1, wanted - n, queued - n) else n
  }

  /** The room granted from round `i` on, up to the first round that fails or whose bytes are not taken. */
  function Room(grants: seq<Grant>, i: nat): nat
    decreases |grants| - i
  {
    if i >= |grants| || !grants[i].ok then 0
    else if !grants[i].hasBuffer then Room(grants, i + 1)
    else grants[i].room + if grants[i].written then Room(grants, i + 1) else 0
  }

  /** What is delivered is the least of what is wanted, what is queued and the room granted. */
  lemma {:induction false} TransferredIs(grants: seq<Grant>, i: nat, wanted: nat, queued: nat)
    ensures var n := Transferred(grants, i, wanted, queued);
      n <= Room(grants, i) && (n == wanted || n == queued || n == Room(grants, i))
    decreases |grants| - i
  {
    if i < |grants| && wanted > 0 && queued > 0 && grants[i].ok {
      var n := if grants[i].hasBuffer then Least(grants[i].room, Least(wanted, queued)) else 0;
      TransferredIs(grants, i + 1, wanted - n, queued - n);
    }
  }

  /** The place of a byte `i` positions after the start of the buffer, wrapping round once or twice. */
  function PlaceOf(i: nat): (p: nat)
    requires i < 3 * SIZE
    ensures p < SIZE
  {
    if i < SIZE then i else if i < 2 * SIZE then i - SIZE else i - 2 * SIZE
  }

  /** From `toq` on, wrapping round, stand the bytes of the queue. */
  predicate Holds(b: seq<byte>, toq: nat, queue: seq<byte>)
  {
    && |b| == SIZE && toq <= SIZE && |queue| <= SIZE
    && forall k | 0 <= k < |queue| :: b[PlaceOf(toq + k)] == queue[k]
  }

  /** The write pointer is where the queue ends, modulo the size. */
  predicate Ends(toq: nat, eoq: nat, occupancy: nat)
  {
    toq <= SIZE && eoq <= SIZE && (eoq - toq - occupancy) % SIZE == 0
  }

  lemma EndPlace(toq: nat, eoq: nat, occupancy: nat, j: nat)
    requires Ends(toq, eoq, occupancy) && occupancy <= SIZE && j < SIZE
    ensures toq + occupancy + j < 3 * SIZE ==> PlaceOf(toq + occupancy + j) == PlaceOf(eoq + j)
  {
    var m := (eoq - toq - occupancy) / SIZE;
    assert eoq == toq + occupancy + m * SIZE;
    assert -2 <= m <= 1;
  }

  lemma EndBound(toq: nat, eoq: nat, occupancy: nat)
    requires Ends(toq, eoq, occupancy)
    ensures toq <= SIZE && eoq <= SIZE
  {
  }

  lemma EndMoved(toq: nat, eoq: nat, occupancy: nat, n: nat, eoq': nat)
    requires Ends(toq, eoq, occupancy) && eoq' <= SIZE && (eoq' == eoq + n || eoq' == eoq + n - SIZE)
    ensures Ends(toq, eoq', occupancy + n)
  {
    var m := (eoq - toq - occupancy) / SIZE;
    assert eoq - toq - occupancy == m * SIZE;
    assert eoq' - toq - (occupancy + n) == (if eoq' == eoq + n then m else m - 1) * SIZE;
  }

  lemma StartMoved(toq: nat, eoq: nat, occupancy: nat, n: nat, toq': nat)
    requires Ends(toq, eoq, occupancy) && n <= occupancy && toq' <= SIZE && (toq' == toq + n || toq' == toq + n - SIZE)
    ensures Ends(toq', eoq, occupancy - n)
  {
    var m := (eoq - toq - occupancy) / SIZE;
    assert eoq - toq - occupancy == m * SIZE;
    assert eoq - toq' - (occupancy - n) == (if toq' == toq + n then m else m + 1) * SIZE;
  }

  /** One of the `n` places from `eoq` on, wrapping round. */
  predicate Covered(p: nat, eoq: nat, n: nat)
  {
    eoq <= p < eoq + n || p + SIZE < eoq + n
  }

  lemma NotCovered(toq: nat, eoq: nat, occupancy: nat, k: nat, n: nat)
    requires Ends(toq, eoq, occupancy) && k < occupancy && occupancy + n <= SIZE
    ensures !Covered(PlaceOf(toq + k), eoq, n)
  {
    var m := (eoq - toq - occupancy) / SIZE;
    assert eoq == toq + occupancy + m * SIZE;
    assert m == -2 || m == -1 || m == 0 || m == 1;
  }

  /** Writing behind the queue, in one piece or wrapped, makes the queue longer and leaves its bytes alone. */
  lemma Written(b: seq<byte>, toq: nat, eoq: nat, queue: seq<byte>, data: seq<byte>, b': seq<byte>)
    requires Holds(b, toq, queue) && Ends(toq, eoq, |queue|) && eoq <= SIZE && |queue| + |data| <= SIZE && |b'| == SIZE
    requires forall j | 0 <= j < |data| :: b'[PlaceOf(eoq + j)] == data[j]
    requires forall p | 0 <= p < SIZE && !Covered(p, eoq, |data|) :: b'[p] == b[p]
    ensures Holds(b', toq, queue + data)
  {
    hide Ends, Covered, PlaceOf;
    forall k | 0 <= k < |queue + data|
      ensures b'[PlaceOf(toq + k)] == (queue + data)[k]
    {
      if k < |queue| {
        NotCovered(toq, eoq, |queue|, k, |data|);
      } else {
        EndPlace(toq, eoq, |queue|, k - |queue|);
        assert b'[PlaceOf(eoq + (k - |queue|))] == data[k - |queue|];
      }
    }
  }

  lemma Delivered(all: seq<byte>, bytes: seq<byte>, q: seq<byte>, n: nat, had: seq<byte>)
    requires bytes + q == all && n <= |q|
    ensures (bytes + q[..n]) + q[n..] == all && (had + bytes) + q[..n] == had + (bytes + q[..n])
  {
  }

  lemma Split(all: seq<byte>, bytes: seq<byte>, q: seq<byte>)
    requires bytes + q == all
    ensures bytes <= all && q == all[|bytes|..]
  {
  }

  /** Reading bytes off the front leaves the rest in place. */
  lemma Taken(b: seq<byte>, toq: nat, queue: seq<byte>, n: nat, toq': nat)
    requires Holds(b, toq, queue) && n <= |queue| && toq' <= SIZE && (toq' == toq + n || toq' == toq + n - SIZE)
    ensures Holds(b, toq', queue[n..])
  {
    forall k | 0 <= k < |queue| - n
      ensures b[PlaceOf(toq' + k)] == queue[n..][k]
    {
      assert b[PlaceOf(toq + (n + k))] == queue[n + k];
    }
  }

  class PulseQueue {
    const buffer: array<byte>
    var toq: nat        // offset of the next byte to play
    var eoq: nat        // offset of the next byte to be written
    var occupancy: nat
    ghost var queue: seq<byte>
    ghost var written: seq<byte>    // everything written since the last flush
    ghost var delivered: seq<byte>  // everything delivered since then

    /** A queue of bytes: what has been delivered and what is queued are what was written, in order. */
    ghost predicate Valid()
      reads this, buffer
    {
      && buffer.Length == SIZE && Holds(buffer[..], toq, queue) && occupancy == |queue| && Ends(toq, eoq, occupancy)
      && written == delivered + queue
    }

    constructor ()
      ensures Valid() && queue == [] && written == [] && fresh(buffer) && buffer.Length == 705600
    {
      buffer := new byte[SIZE];
      toq, eoq, occupancy := 0, 0, 0;
      queue, written, delivered := [], [], [];
    }

    /** `memcpy` into the buffer. */
    method Copy(at: nat, data: seq<byte>)
      requires at + |data| <= buffer.Length
      modifies buffer
      ensures forall j | 0 <= j < |data| :: buffer[at + j] == data[j]
      ensures forall p | 0 <= p < buffer.Length && !(at <= p < at + |data|) :: buffer[p] == old(buffer[p])
    {
      for i := 0 to |data|
        invariant forall j | 0 <= j < i :: buffer[at + j] == data[j]
        invariant forall p | 0 <= p < buffer.Length && !(at <= p < at + i) :: buffer[p] == old(buffer[p])
      {
        buffer[at + i] := data[i];
      }
    }

    /** The two ways `play` copies: in one piece, or wrapped round at the end of the buffer. */
    method CopyIn(data: seq<byte>)
      requires buffer.Length == SIZE && eoq <= SIZE && |data| <= SIZE
      modifies buffer
      ensures forall j | 0 <= j < |data| :: buffer[PlaceOf(eoq + j)] == data[j]
      ensures forall p | 0 <= p < SIZE && !Covered(p, eoq, |data|) :: buffer[p] == old(buffer[p])
    {
      var spaceToEnd := SIZE - eoq;
      if spaceToEnd >= |data| {
        Copy(eoq, data);
      } else {
        Copy(eoq, data[..spaceToEnd]);
        Copy(0, data[spaceToEnd..]);
        forall j | 0 <= j < |data|
          ensures buffer[PlaceOf(eoq + j)] == data[j]
        {
          assert j >= spaceToEnd ==> data[spaceToEnd..][j - spaceToEnd] == data[j];
        }
      }
    }

    /** `play`: puts bytes into the queue, wrapped round if they reach the end of the buffer. */
    method Play(data: seq<byte>)
      requires Valid() && occupancy + |data| <= SIZE
      modifies this, buffer
      ensures Valid() && queue == old(queue) + data && written == old(written) + data && delivered == old(delivered)
    {
      hide Holds, Ends, Covered, PlaceOf;
      EndBound(toq, eoq, |queue|);
      ghost var before, start := buffer[..], eoq;
      CopyIn(data);
      var spaceToEnd := SIZE - eoq;
      if spaceToEnd >= |data| {
        occupancy := occupancy + |data|;
        eoq := eoq + |data|;
      } else {
        occupancy := occupancy + |data|;
        eoq := |data| - spaceToEnd;
      }
      Written(before, toq, start, queue, data, buffer[..]);
      EndMoved(toq, start, |queue|, |data|, eoq);
      assert (delivered + queue) + data == delivered + (queue + data);
      queue, written := queue + data, written + data;
    }

    /** The bytes to be delivered in one round, out of one or two places of the buffer. */
    method Take(n: nat) returns (bytes: seq<byte>)
      requires Valid() && n <= occupancy
      modifies `toq, `occupancy, `queue, `delivered
      ensures Valid() && bytes == old(queue)[..n] && queue == old(queue)[n..]
      ensures delivered == old(delivered) + bytes
    {
      hide Ends;
      EndBound(toq, eoq, |queue|);
      ghost var start := toq;
      if n <= SIZE - toq {
        bytes := buffer[toq..toq + n];
        toq := toq + n;
        occupancy := occupancy - n;
      } else {
        var first := SIZE - toq;
        bytes := buffer[toq..] + buffer[..n - first];
        toq := n - first;
        occupancy := occupancy - n;
      }
      forall k | 0 <= k < n
        ensures bytes[k] == queue[k]
      {
        assert queue[k] == buffer[..][PlaceOf(start + k)];
      }
      Taken(buffer[..], start, queue, n, toq);
      StartMoved(start, eoq, |queue|, n, toq);
      Delivered(delivered + queue, delivered, queue, n, []);
      queue, delivered := queue[n..], delivered + queue[..n];
    }

    /**
     `stream_write_cb`: delivers up to `requested` bytes, in rounds for which PulseAudio grants room
     for no more than was asked for.
     */
    method StreamWrite(requested: nat, grants: seq<Grant>) returns (bytes: seq<byte>)
      requires Valid()
      modifies `toq, `occupancy, `queue, `delivered
      ensures Valid() && |bytes| <= requested && bytes <= old(queue) && queue == old(queue)[|bytes|..]
      ensures delivered == old(delivered) + bytes && |bytes| == Transferred(grants, 0, requested, old(occupancy))
    {
      hide Holds, Ends;
      var bytesToTransfer: nat, ok := requested, true;
      bytes := [];
      ghost var all, had := queue, delivered;
      var i := 0;
      while i < |grants| && bytesToTransfer > 0 && occupancy > 0 && ok
        invariant i <= |grants| && bytesToTransfer + |bytes| == requested
        invariant Valid() && bytes + queue == all && delivered == had + bytes
        invariant |bytes| + (if ok then Transferred(grants, i, bytesToTransfer, occupancy) else 0) ==
          Transferred(grants, 0, requested, old(occupancy))
        decreases |grants| - i
      {
        var n := bytesToTransfer;
        if occupancy < n {
          n := occupancy;
        }
        n := if grants[i].room < n then grants[i].room else n;
        ok := grants[i].ok;
        if ok && grants[i].hasBuffer {
          Delivered(all, bytes, queue, n, had);
          var part := Take(n);
          bytes := bytes + part;
          ok := grants[i].written;
          bytesToTransfer := bytesToTransfer - n;
        }
        i := i + 1;
      }
      Split(all, bytes, queue);
    }

    /** `flush`, and `stop`, which does the same. */
    method Flush()
      requires Valid()
      modifies this
      ensures Valid() && queue == [] && written == [] && delivered == []
    {
      toq, eoq, occupancy := 0, 0, 0;
      queue, written, delivered := [], [], [];
    }
  }
}

/** The remote volume of one speaker among several, kept as an overall volume and relative ones in per cent. */
module DacpVolume {
  import opened Numbers

  datatype Speaker = Speaker(number: int, active: bool, volume: nat)

  /** What the server holds. */
  datatype Server = Server(overall: nat, speakers: seq<Speaker>)
  {
    predicate Valid() {
      overall <= 100 && forall i | 0 <= i < |speakers| :: speakers[i].volume <= 100
    }
  }

  datatype Command = IncludeSpeaker(number: int, volume: int) | SetSpeaker(number: int, volume: int)

  predicate Listed(speakers: seq<Speaker>, number: int)
  {
    exists i | 0 <= i < |speakers| :: speakers[i].number == number
  }

  function ActiveCount(speakers: seq<Speaker>, n: nat): (k: nat)
    requires n <= |speakers|
  {
    if n == 0 then 0 else ActiveCount(speakers, n - 1) + if speakers[n - 1].active then 1 else 0
  }

  /** An active speaker other than this one. */
  predicate Other(s: Speaker, number: int)
  {
    s.number != number && s.active
  }

  /** The highest relative volume of the other active speakers, 0 if there is none. */
  ghost predicate Highest(speakers: seq<Speaker>, number: int, n: nat, h: nat)
    requires n <= |speakers|
  {
    && (forall i | 0 <= i < n && Other(speakers[i], number) :: speakers[i].volume <= h)
    && (h > 0 ==> exists i | 0 <= i < n :: Other(speakers[i], number) && speakers[i].volume == h)
  }

  // ---------- the server ----------

  function WithVolume(speakers: seq<Speaker>, number: int, v: nat): (r: seq<Speaker>)
    ensures |r| == |speakers|
    ensures forall i | 0 <= i < |r| :: r[i] == if speakers[i].number == number then speakers[i].(volume := v) else speakers[i]
  {
    if |speakers| == 0 then []
    else
      var s := speakers[|speakers| - 1];
      WithVolume(speakers[..|speakers| - 1], number, v) + [if s.number == number then s.(volume := v) else s]
  }

  /**
   Including a speaker at a volume makes that the overall volume, with the speaker at 100 per cent;
   setting a speaker's volume sets its relative volume.
   */
  function Apply(server: Server, c: Command): Server
  {
    match c
    case IncludeSpeaker(number, v) =>
      if v < 0 then server else Server(v, WithVolume(server.speakers, number, 100))
    case SetSpeaker(number, v) =>
      if v < 0 then server else server.(speakers := WithVolume(server.speakers, number, v))
  }

  function ApplyAll(server: Server, cs: seq<Command>): Server
  {
    if |cs| == 0 then server else Apply(ApplyAll(server, cs[..|cs| - 1]), cs[|cs| - 1])
  }

  /** The relative volume last found for a speaker in the first `n`, 0 if there is none. */
  function Relative(speakers: seq<Speaker>, number: int, n: nat): nat
    requires n <= |speakers|
  {
    if n == 0 then 0
    else if speakers[n - 1].number == number then speakers[n - 1].volume
    else Relative(speakers, number, n - 1)
  }

  function Actual(overall: int, relative: int): int
  {
    (overall * relative + 50) / 100
  }

  /** The volume of a speaker on a server. */
  function VolumeOf(server: Server, number: int): int
  {
    Actual(server.overall, Relative(server.speakers, number, |server.speakers|))
  }

  lemma {:induction false} RelativeSet(speakers: seq<Speaker>, number: int, v: nat, n: nat)
    requires n <= |speakers| && Listed(speakers[..n], number)
    ensures Relative(WithVolume(speakers, number, v), number, n) == v
  {
    if speakers[n - 1].number != number {
      var i :| 0 <= i < n && speakers[..n][i].number == number;
      assert speakers[..n - 1][i].number == number;
      RelativeSet(speakers, number, v, n - 1);
    }
  }

  lemma ListedStays(speakers: seq<Speaker>, number: int, v: nat)
    requires Listed(speakers, number)
    ensures Listed(WithVolume(speakers, number, v), number)
  {
    var i :| 0 <= i < |speakers| && speakers[i].number == number;
    assert WithVolume(speakers, number, v)[i].number == number;
  }

  // ---------- rounding ----------

  function RelativeFor(v: int, h: int): int
    requires h > 0
  {
    (v * 100 + h / 2) / h
  }

  lemma FullIsExact(v: int)
    ensures Actual(v, 100) == v
  {
  }

  /** Rounding to a whole per cent of `h` and back gives the same volume, and never more than 100 per cent. */
  lemma RelativeIsExact(v: nat, h: nat)
    requires v <= h && 0 < h <= 100
    ensures Actual(h, RelativeFor(v, h)) == v && 0 <= RelativeFor(v, h) <= 100
  {
    var q := RelativeFor(v, h);
    Quotient(v * 100 + h / 2, h);
    if q > 100 {
      Greater(q, 101, h);
    }
    if h == 100 {
      DivModUnique(v * 100 + 50, v, 100, 50);
    }
    var y := h * q + 50;
    DivModUnique(y, v, 100, y - v * 100);
  }

  lemma Quotient(x: nat, h: nat)
    requires h > 0
    ensures 0 <= x / h && h * (x / h) <= x < h * (x / h) + h
  {
  }

  lemma Greater(a: nat, b: nat, c: nat)
    requires a >= b
    ensures a * c >= b * c
  {
    assert a * c == b * c + (a - b) * c;
  }

  // ---------- the client ----------

  /** The scan of `dacp_get_volume`. */
  method GetVolume(server: Server, machineNumber: int) returns (volume: int)
    ensures volume == VolumeOf(server, machineNumber)
  {
    var relative := 0;
    for i := 0 to |server.speakers|
      invariant relative == Relative(server.speakers, machineNumber, i)
    {
      if server.speakers[i].number == machineNumber {
        relative := server.speakers[i].volume;
      }
    }
    volume := (server.overall * relative + 50) / 100;
  }

  /** The loop over the other speakers in `dacp_set_volume`. */
  method HighestOther(speakers: seq<Speaker>, machineNumber: int) returns (highest: nat)
    ensures Highest(speakers, machineNumber, |speakers|, highest)
  {
    highest := 0;
    for i := 0 to |speakers|
      invariant Highest(speakers, machineNumber, i, highest)
    {
      if speakers[i].number != machineNumber && speakers[i].active && speakers[i].volume > highest {
        highest := speakers[i].volume;
      }
    }
  }

  /**
   `dacp_set_volume`: the commands sent for a volume. Carried out, they give exactly that volume when
   read back, if this speaker is listed and any is active; an invalid volume sends nothing.
   */
  method SetVolume(server: Server, machineNumber: int, vo: int) returns (commands: seq<Command>, valid: bool)
    requires server.Valid()
    ensures valid == (0 <= vo <= 100)
    ensures !valid || ActiveCount(server.speakers, |server.speakers|) == 0 ==> commands == []
    ensures valid && ActiveCount(server.speakers, |server.speakers|) > 0 && Listed(server.speakers, machineNumber) ==>
      VolumeOf(ApplyAll(server, commands), machineNumber) == vo && ApplyAll(server, commands).Valid()
    ensures valid && ActiveCount(server.speakers, |server.speakers|) > 1 ==>
      KeepsUp(server, machineNumber, ApplyAll(server, commands).overall)
  {
    commands, valid := [], 0 <= vo <= 100;
    if !valid {
      return;
    }
    var active := 0;
    for i := 0 to |server.speakers|
      invariant active == ActiveCount(server.speakers, i)
    {
      if server.speakers[i].active {
        active := active + 1;
      }
    }
    hide ActiveCount, Actual, RelativeFor, Apply, ApplyAll, VolumeOf, Listed, WithVolume;
    if active == 1 {
      commands := [IncludeSpeaker(machineNumber, vo)];
      Included(server, machineNumber, vo);
    } else if active != 0 {
      FullIsExact(server.overall);
      if vo >= server.overall {
        commands := [IncludeSpeaker(machineNumber, vo)];
        Included(server, machineNumber, vo);
        NoneAboveOverall(server, machineNumber);
      } else {
        var highest := HighestOther(server.speakers, machineNumber);
        NoneAboveHighest(server, machineNumber, highest);
        var highestOther := Actual(server.overall, highest);
        if highestOther <= vo {
          commands := [IncludeSpeaker(machineNumber, vo)];
          Included(server, machineNumber, vo);
        } else {
          if server.overall > highestOther {
            commands := [IncludeSpeaker(machineNumber, highestOther)];
          }
          if highestOther != 0 {
            var desired := RelativeFor(vo, highestOther);
            commands := commands + [SetSpeaker(machineNumber, desired)];
            SetBelow(server, machineNumber, vo, highestOther);
          }
        }
      }
    }
  }

  /** The overall volume is not below that of any other active speaker, rounded. */
  ghost predicate KeepsUp(server: Server, number: int, overall: int)
  {
    forall i | 0 <= i < |server.speakers| && Other(server.speakers[i], number) ::
      Actual(server.overall, server.speakers[i].volume) <= overall
  }

  lemma ActualGrows(overall: nat, a: nat, b: nat)
    requires a <= b
    ensures 0 <= Actual(overall, a) <= Actual(overall, b)
  {
    Greater(b, a, overall);
    assert overall * a == a * overall && overall * b == b * overall;
  }

  lemma NoneAboveOverall(server: Server, number: int)
    requires server.Valid()
    ensures KeepsUp(server, number, server.overall)
  {
    hide Actual;
    FullIsExact(server.overall);
    forall i | 0 <= i < |server.speakers|
      ensures Actual(server.overall, server.speakers[i].volume) <= server.overall
    {
      ActualGrows(server.overall, server.speakers[i].volume, 100);
    }
  }

  lemma NoneAboveHighest(server: Server, number: int, highest: nat)
    requires server.Valid() && Highest(server.speakers, number, |server.speakers|, highest)
    ensures KeepsUp(server, number, Actual(server.overall, highest))
      && 0 <= Actual(server.overall, highest) <= server.overall
  {
    hide Actual;
    FullIsExact(server.overall);
    ActualGrows(server.overall, highest, 100);
    forall i | 0 <= i < |server.speakers| && Other(server.speakers[i], number)
      ensures Actual(server.overall, server.speakers[i].volume) <= Actual(server.overall, highest)
    {
      ActualGrows(server.overall, server.speakers[i].volume, highest);
    }
  }

  lemma ApplyOne(server: Server, c: Command)
    ensures ApplyAll(server, [c]) == Apply(server, c)
  {
    assert [c][..0] == [];
  }

  lemma ApplyTwo(server: Server, c: Command, d: Command)
    ensures ApplyAll(server, [c] + [d]) == Apply(Apply(server, c), d)
  {
    assert ([c] + [d])[..1] == [c];
    ApplyOne(server, c);
  }

  lemma Included(server: Server, number: int, v: nat)
    requires server.Valid() && v <= 100
    ensures var after := ApplyAll(server, [IncludeSpeaker(number, v)]);
      && after.overall == v && after.Valid()
      && (Listed(server.speakers, number) ==> VolumeOf(after, number) == v && Listed(after.speakers, number))
  {
    ApplyOne(server, IncludeSpeaker(number, v));
    if Listed(server.speakers, number) {
      assert server.speakers[..|server.speakers|] == server.speakers;
      RelativeSet(server.speakers, number, 100, |server.speakers|);
      ListedStays(server.speakers, number, 100);
      FullIsExact(v);
    }
  }

  lemma SetRelative(server: Server, number: int, v: nat)
    requires server.Valid() && v < server.overall
    ensures var after := Apply(server, SetSpeaker(number, RelativeFor(v, server.overall)));
      after.overall == server.overall && after.Valid()
        && (Listed(server.speakers, number) ==> VolumeOf(after, number) == v)
  {
    RelativeIsExact(v, server.overall);
    if Listed(server.speakers, number) {
      assert server.speakers[..|server.speakers|] == server.speakers;
      RelativeSet(server.speakers, number, RelativeFor(v, server.overall), |server.speakers|);
    }
  }

  /** Lowering the overall volume to `h` if it is higher, and then setting a relative volume below that. */
  lemma SetBelow(server: Server, number: int, v: nat, h: nat)
    requires server.Valid() && v < h <= server.overall
    ensures var cs := (if server.overall > h then [IncludeSpeaker(number, h)] else [])
        + [SetSpeaker(number, RelativeFor(v, h))];
      var after := ApplyAll(server, cs);
      after.overall == h && after.Valid() && (Listed(server.speakers, number) ==> VolumeOf(after, number) == v)
  {
    hide RelativeFor, VolumeOf, Apply, ApplyAll, Listed;
    var own := SetSpeaker(number, RelativeFor(v, h));
    if server.overall > h {
      var lower := IncludeSpeaker(number, h);
      ApplyTwo(server, lower, own);
      ApplyOne(server, lower);
      Included(server, number, h);
      SetRelative(Apply(server, lower), number, v);
    } else {
      ApplyOne(server, own);
      assert [] + [own] == [own];
      SetRelative(server, number, v);
    }
  }
}

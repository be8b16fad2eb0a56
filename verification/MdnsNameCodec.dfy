/** Writing, measuring and expanding names in a packet buffer. */
module MdnsNameCodec {
  import opened Numbers
  import opened MdnsNames

  class CompressionList {
    var entries: seq<Entry>

    /** A new list holds one dummy entry with the empty name, which never matches. */
    constructor ()
      ensures entries == [Entry(Root, 0)]
    {
      entries := [Entry(Root, 0)];
    }

    method Find(n: Name) returns (i: nat)
      ensures i == Lookup(entries, n)
    {
      i := 0;
      while i < |entries| && entries[i].name != n
        invariant i <= |entries| && Lookup(entries, n) == i + Lookup(entries[i..], n)
      {
        i := i + 1;
      }
    }
  }

  /** `pkt` holds `bytes` at `off`, and elsewhere what it held before. */
  ghost predicate WrittenAt(before: seq<byte>, after: seq<byte>, off: nat, bytes: seq<byte>)
  {
    && |before| == |after| && off + |bytes| <= |after| && Has(after, off, bytes)
    && (forall k | 0 <= k < off :: after[k] == before[k])
    && forall k | off + |bytes| <= k < |after| :: after[k] == before[k]
  }

  lemma WrittenThen(a: seq<byte>, b: seq<byte>, c: seq<byte>, off: nat, x: seq<byte>, y: seq<byte>)
    requires WrittenAt(a, b, off, x) && WrittenAt(b, c, off + |x|, y)
    ensures WrittenAt(a, c, off, x + y)
  {
    forall k | 0 <= k < |x|
      ensures c[off + k] == x[k]
    {
      assert b[off + k] == x[k];
    }
    HasSplit(c, off, x, y);
  }

  /** Bytes that stand at `off` once they are written after a prefix. */
  lemma WrittenSuffix(before: seq<byte>, after: seq<byte>, off: nat, bytes: seq<byte>)
    requires WrittenAt(before, after, off, bytes)
    ensures after[..off + |bytes|] == before[..off] + bytes
  {
    var l, r := after[..off + |bytes|], before[..off] + bytes;
    forall k | 0 <= k < |l|
      ensures l[k] == r[k]
    {
      if k >= off {
        assert after[off + (k - off)] == bytes[k - off];
      }
    }
  }

  method WriteBytes(pkt: array<byte>, off: nat, bytes: seq<byte>)
    requires off + |bytes| <= pkt.Length
    modifies pkt
    ensures WrittenAt(old(pkt[..]), pkt[..], off, bytes)
  {
    for i := 0 to |bytes|
      invariant forall k | 0 <= k < i :: pkt[off + k] == bytes[k]
      invariant forall k | 0 <= k < off :: pkt[k] == old(pkt[k])
      invariant forall k | off + |bytes| <= k < pkt.Length :: pkt[k] == old(pkt[k])
    {
      pkt[off + i] := bytes[i];
    }
  }

  /** Writes `bytes` behind what has been written since `origin`. */
  method Append(pkt: array<byte>, p: nat, bytes: seq<byte>, ghost origin: seq<byte>, ghost off: nat, ghost done: seq<byte>)
    requires WrittenAt(origin, pkt[..], off, done) && p == off + |done| && p + |bytes| <= pkt.Length
    modifies pkt
    ensures WrittenAt(origin, pkt[..], off, done + bytes)
  {
    ghost var before := pkt[..];
    WriteBytes(pkt, p, bytes);
    WrittenThen(origin, before, pkt[..], off, done, bytes);
  }

  /** `mdns_encode_name`: returns the number of bytes written. */
  method EncodeNameAt(pkt: array<byte>, off: nat, name: Name, comp: CompressionList) returns (len: nat)
    requires name.Valid() && off + |EncodeName(off, name, comp.entries).bytes| <= pkt.Length
    modifies pkt, comp
    ensures var w := EncodeName(off, name, old(comp.entries));
      && len == |w.bytes|
      && WrittenAt(old(pkt[..]), pkt[..], off, w.bytes)
      && comp.entries == w.comp
  {
    hide WrittenAt, Pointer, Lookup, EncodeName, Name.Valid;
    var n, p := name, off;
    ghost var w := EncodeName(off, name, comp.entries);
    ghost var origin := pkt[..];
    ghost var done: seq<byte> := [];
    NothingWritten(origin, off);
    len := 0;
    while n.Label?
      invariant n.Valid() && p == off + len && len == |done|
      invariant WrittenAt(origin, pkt[..], off, done)
      invariant EncodeName(p, n, comp.entries).comp == w.comp
      invariant done + EncodeName(p, n, comp.entries).bytes == w.bytes
      decreases n
    {
      EncodeNameStep(p, n, comp.entries);
      var i := comp.Find(n);
      if i < |comp.entries| {
        PointerLength(comp.entries[i].pos);
        Append(pkt, p, Pointer(comp.entries[i].pos), origin, off, done);
        len := len + 2;
        return;
      }
      // copy this segment; labels contain no NUL, so `strncpy` copies all of it
      var segment := [|n.text| as byte] + n.text;
      ghost var rest := EncodeName(p + |segment|, n.rest, comp.entries + [Entry(n, p)]);
      Regroup(done, segment, rest.bytes);
      Append(pkt, p, segment, origin, off, done);
      comp.entries := comp.entries + [Entry(n, p)];
      done := done + segment;
      p := p + |segment|;
      len := len + |segment|;
      n := n.rest;
    }
    EncodeRoot(p, comp.entries);
    Append(pkt, p, [0], origin, off, done);
    len := len + 1;
  }

  lemma Regroup(a: seq<byte>, b: seq<byte>, c: seq<byte>)
    ensures a + (b + c) == (a + b) + c
  {
  }

  lemma NothingWritten(s: seq<byte>, off: nat)
    requires off <= |s|
    ensures WrittenAt(s, s, off, [])
  {
  }

  lemma PointerLength(pos: nat)
    ensures |Pointer(pos)| == 2
  {
  }

  /** `label_len`. */
  method LabelLen(pkt: array<byte>, pktLen: nat, off: nat) returns (len: nat)
    requires pktLen <= pkt.Length
    ensures len == LabelLength(pkt[..pktLen], off)
  {
    ghost var s := pkt[..pktLen];
    var p := off;
    len := 0;
    while p < pktLen
      invariant LabelLength(s, off) == len + LabelLength(s, p)
      decreases pktLen - p
    {
      if pkt[p] == 0 {
        return len + 1;
      } else if IsPointer(pkt[p]) {
        return len + 2;
      } else {
        len := len + pkt[p] as nat + 1;
        p := p + pkt[p] as nat + 1;
      }
    }
  }

  /** Where the loops of `uncompress_nlabel` find the label at `p`: here, or where a pointer leads. */
  method NextLabel(pkt: array<byte>, pktLen: nat, p: nat, ghost n: Name) returns (t: nat, llen: nat)
    requires pktLen <= pkt.Length && n.Valid() && n.Label? && DecodesAt(pkt[..pktLen], p, n)
    ensures LabelAt(pkt[..pktLen], t, n.text) && llen == |n.text| + 1 && t + llen <= pktLen
    ensures DecodesAt(pkt[..pktLen], t + llen, n.rest)
  {
    t := p;
    if IsPointer(pkt[p]) {
      t := pkt[p] as nat % 0x40 * 0x100 + pkt[p + 1] as nat;
    }
    llen := pkt[t] as nat + 1;
  }

  /** The expanded C string with its terminating NUL, or nothing when `off` is past the packet. */
  method Uncompress(pkt: array<byte>, pktLen: nat, off: nat, ghost name: Name) returns (str: array?<byte>)
    requires pktLen <= pkt.Length
    requires off < pktLen ==> name.Valid() && DecodesAt(pkt[..pktLen], off, name)
    ensures off >= pktLen <==> str == null
    ensures str != null ==> fresh(str) && str[..] == name.Raw() + [0]
  {
    if off >= pktLen {
      return null;
    }
    var len := MeasureName(pkt, pktLen, off, name);
    str := new byte[len + 1];
    CopyName(pkt, pktLen, off, name, str);
  }

  /** First pass: the length of the expanded name. */
  method MeasureName(pkt: array<byte>, pktLen: nat, off: nat, ghost name: Name) returns (len: nat)
    requires pktLen <= pkt.Length && name.Valid() && DecodesAt(pkt[..pktLen], off, name)
    ensures len == |name.Raw()|
  {
    hide DecodesAt, LabelAt;
    ghost var s, n := pkt[..pktLen], name;
    var p: nat := off;
    len := 0;
    AtByte(s, p, n);
    while p < pktLen && pkt[p] != 0
      invariant p < pktLen && n.Valid() && DecodesAt(s, p, n) && len + |n.Raw()| == |name.Raw()|
      invariant s[p] == 0 <==> n == Root
      decreases n
    {
      var t, llen := NextLabel(pkt, pktLen, p, n);
      len := len + llen;
      p := t + llen;
      n := n.rest;
      AtByte(s, p, n);
    }
  }

  /** Second pass: copy the labels and terminate the string. */
  method CopyName(pkt: array<byte>, pktLen: nat, off: nat, ghost name: Name, str: array<byte>)
    requires pktLen <= pkt.Length && name.Valid() && DecodesAt(pkt[..pktLen], off, name)
    requires str.Length == |name.Raw()| + 1 && str != pkt
    modifies str
    ensures str[..] == name.Raw() + [0]
  {
    hide DecodesAt, LabelAt;
    ghost var s, n, done := pkt[..pktLen], name, [];
    var p: nat, sp: nat := off, 0;
    AtByte(s, p, n);
    while p < pktLen && pkt[p] != 0
      invariant pkt[..pktLen] == s && p < pktLen && sp < str.Length
      invariant n.Valid() && DecodesAt(s, p, n)
      invariant str[..sp] == done && done + n.Raw() == name.Raw()
      invariant s[p] == 0 <==> n == Root
      decreases n
    {
      var t, llen := NextLabel(pkt, pktLen, p, n);
      CopyLabel(pkt, pktLen, t, n.text, str, sp);
      Regroup(done, [|n.text| as byte] + n.text, n.rest.Raw());
      done := done + ([|n.text| as byte] + n.text);
      sp := sp + llen;
      p := t + llen;
      n := n.rest;
      AtByte(s, p, n);
    }
    str[sp] := 0;
    assert str[..] == str[..sp] + [0];
  }

  /** The byte at a name's offset tells whether it is over. */
  lemma AtByte(s: seq<byte>, p: nat, n: Name)
    requires n.Valid() && DecodesAt(s, p, n)
    ensures p < |s| && (s[p] == 0 <==> n == Root)
  {
  }

  /** Copies a length byte and its label; the label contains no NUL. */
  method CopyLabel(pkt: array<byte>, pktLen: nat, t: nat, ghost l: seq<byte>, str: array<byte>, sp: nat)
    requires pktLen <= pkt.Length && LabelAt(pkt[..pktLen], t, l) && str != pkt
    requires sp + |l| + 1 <= str.Length
    modifies str
    ensures str[..sp + |l| + 1] == old(str[..sp]) + ([|l| as byte] + l)
  {
    var llen := pkt[t] as nat + 1;
    for i := 0 to llen
      invariant forall k | sp <= k < sp + i :: str[k] == pkt[t + (k - sp)]
      invariant forall k | 0 <= k < sp :: str[k] == old(str[k])
    {
      str[sp + i] := pkt[t + i];
    }
    ghost var segment := [|l| as byte] + l;
    forall k | 0 <= k < |segment|
      ensures str[sp + k] == segment[k]
    {
      assert str[sp + k] == pkt[t + (sp + k - sp)];
      if k > 0 {
        assert pkt[..pktLen][t + 1 + (k - 1)] == l[k - 1];
      }
    }
    assert str[..sp + |l| + 1] == str[..sp] + str[sp..sp + |l| + 1];
  }
}

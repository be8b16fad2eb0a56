/** Resource records: how they are laid out in a packet and what the parser makes of them. */
module MdnsRecords {
  import opened Numbers
  import opened MdnsNames

  /** Record data. `Opaque` stands for data the parser skips, whatever its type. */
  datatype RData =
    | A(addr: nat)
    | AAAA(octets: seq<byte>)
    | PTR(target: Name)
    | TXT(strings: seq<seq<byte>>)
    | SRV(priority: nat, weight: nat, port: nat, host: Name)
    | NSEC(bitmap: seq<byte>)
    | Opaque(code: nat)

  datatype Record = Record(name: Name, class_: nat, cacheFlush: bool, ttl: nat, data: RData)

  function TypeCode(d: RData): nat
  {
    match d
    case A(_) => 0x01
    case PTR(_) => 0x0C
    case TXT(_) => 0x10
    case AAAA(_) => 0x1C
    case SRV(_, _, _, _) => 0x21
    case NSEC(_) => 0x2F
    case Opaque(code) => code
  }

  /** The responder's own strings come from `create_label`: at most 63 bytes, and no NUL. */
  predicate TxtValid(strings: seq<seq<byte>>)
  {
    |strings| >= 1 && forall i | 0 <= i < |strings| :: |strings[i]| <= 63 && 0 !in strings[i]
  }

  /** Records the encoder can be given. */
  predicate RecordValid(r: Record)
  {
    && r.name.Valid() && r.class_ < 0x1_0000 && r.ttl < 0x1_0000_0000
    && match r.data
       case A(addr) => addr < 0x1_0000_0000
       case AAAA(octets) => |octets| == 16
       case PTR(target) => target.Valid()
       case TXT(strings) => TxtValid(strings)
       case SRV(priority, weight, port, host) =>
         priority < 0x1_0000 && weight < 0x1_0000 && port < 0x1_0000 && host.Valid()
       case NSEC(bitmap) => |bitmap| == 5
       case Opaque(code) => code < 0x1_0000 && code !in {0x01, 0x0C, 0x10, 0x1C}
  }

  /** `htonl` on a little-endian host, and its own inverse. */
  function Swap32(v: nat): (w: nat)
    ensures w < 0x1_0000_0000
  {
    v % 0x100 * 0x100_0000 + v / 0x100 % 0x100 * 0x1_0000 + v / 0x1_0000 % 0x100 * 0x100 + v / 0x100_0000 % 0x100
  }

  lemma SwapTwice(v: nat)
    requires v < 0x1_0000_0000
    ensures Swap32(Swap32(v)) == v
  {
    var a, b, c, d := v % 0x100, v / 0x100 % 0x100, v / 0x1_0000 % 0x100, v / 0x100_0000 % 0x100;
    assert v / 0x1_0000 == v / 0x100 / 0x100 && v / 0x100_0000 == v / 0x100 / 0x100 / 0x100;
    assert v == ((d * 0x100 + c) * 0x100 + b) * 0x100 + a;
    hide Swap32;
    Octets(a, b, c, d);
    Octets(d, c, b, a);
  }

  lemma Octets(a: nat, b: nat, c: nat, d: nat)
    requires a < 0x100 && b < 0x100 && c < 0x100 && d < 0x100
    ensures Swap32(((d * 0x100 + c) * 0x100 + b) * 0x100 + a) == ((a * 0x100 + b) * 0x100 + c) * 0x100 + d
  {
    var v := ((d * 0x100 + c) * 0x100 + b) * 0x100 + a;
    assert v % 0x100 == a && v / 0x100 == (d * 0x100 + c) * 0x100 + b;
    assert v / 0x100 % 0x100 == b && v / 0x100 / 0x100 == d * 0x100 + c;
    assert v / 0x100 / 0x100 % 0x100 == c && v / 0x100 / 0x100 / 0x100 == d;
    assert v / 0x1_0000 == v / 0x100 / 0x100 && v / 0x100_0000 == v / 0x100 / 0x100 / 0x100;
  }

  lemma BigEndian(a: byte, b: byte, c: byte, d: byte)
    ensures U32(((a as int * 0x100 + b) * 0x100 + c) * 0x100 + d) == [a, b, c, d]
  {
    var x: nat := a as int * 0x100 + b;
    var y: nat := x * 0x100 + c;
    var v: nat := y * 0x100 + d;
    DivModUnique(v, y, 0x100, d);
    DivModUnique(y, x, 0x100, c);
    DivModUnique(x, a, 0x100, b);
    DivModUnique(v, x, 0x1_0000, c as int * 0x100 + d);
    DivModUnique(v, a, 0x100_0000, (b as int * 0x100 + c) * 0x100 + d);
  }

  /** An address kept in memory in network order is sent in that order: its first octet first. */
  lemma OctetsOnWire(a: byte, b: byte, c: byte, d: byte)
    ensures U32(Swap32(((d as int * 0x100 + c) * 0x100 + b) * 0x100 + a)) == [a, b, c, d]
  {
    hide U32, Swap32;
    Octets(a, b, c, d);
    BigEndian(a, b, c, d);
  }

  // ---------- encoding ----------

  /** `(rr_class & ~0x8000) | (cache_flush << 15)`. */
  function ClassField(class_: nat, cacheFlush: bool): nat
  {
    class_ % 0x8000 + if cacheFlush then 0x8000 else 0
  }

  function TxtBytes(strings: seq<seq<byte>>, i: nat): seq<byte>
    requires i <= |strings|
    decreases |strings| - i
  {
    if i == |strings| then [] else ([|strings[i]| % 0x100] + strings[i]) + TxtBytes(strings, i + 1)
  }

  function EncodeData(off: nat, r: Record, comp: seq<Entry>): (w: Written)
    ensures comp <= w.comp
  {
    match r.data
    case A(addr) => Written(U32(Swap32(addr)), comp)
    case AAAA(octets) => Written(octets, comp)
    case PTR(target) => EncodeName(off, target, comp)
    case TXT(strings) => Written(TxtBytes(strings, 0), comp)
    case SRV(priority, weight, port, host) =>
      var w := EncodeName(off + 6, host, comp);
      Written(U16(priority) + (U16(weight) + (U16(port) + w.bytes)), w.comp)
    case NSEC(bitmap) =>
      var w := EncodeName(off, r.name, comp);
      Written(w.bytes + ([0, |bitmap| % 0x100] + bitmap), w.comp)
    case Opaque(_) => Written([], comp)
  }

  /** Type, class and cache-flush bit, time to live, and data length. */
  function FixedPart(r: Record, length: nat): (b: seq<byte>)
    ensures |b| == 10
  {
    U16(TypeCode(r.data)) + (U16(ClassField(r.class_, r.cacheFlush)) + (U32(r.ttl) + U16(length)))
  }

  function EncodeRecord(off: nat, r: Record, comp: seq<Entry>): (w: Written)
    ensures |w.bytes| >= 11 && comp <= w.comp
  {
    var n := EncodeName(off, r.name, comp);
    var d := EncodeData(off + |n.bytes| + 10, r, n.comp);
    Written(n.bytes + (FixedPart(r, |d.bytes|) + d.bytes), d.comp)
  }

  /** The length of the data of a record fits the field for it. */
  predicate DataFits(off: nat, r: Record, comp: seq<Entry>)
  {
    var n := EncodeName(off, r.name, comp);
    |EncodeData(off + |n.bytes| + 10, r, n.comp).bytes| < 0x1_0000
  }

  /** The pointers of the names that the parser expands lead below 0x4000: of the record and of a PTR target. */
  predicate RecordGood(off: nat, r: Record, comp: seq<Entry>)
  {
    var n := EncodeName(off, r.name, comp);
    PointerGood(off, r.name, comp) && (r.data.PTR? ==> PointerGood(off + |n.bytes| + 10, r.data.target, n.comp))
  }

  /** They do, or lead to the same names by coincidence. */
  ghost predicate RecordLeads(s: seq<byte>, off: nat, r: Record, comp: seq<Entry>)
  {
    var n := EncodeName(off, r.name, comp);
    var d := off + |n.bytes| + 10;
    && (PointerGood(off, r.name, comp) || Coincides(s, off, r.name, comp))
    && (r.data.PTR? ==> PointerGood(d, r.data.target, n.comp) || Coincides(s, d, r.data.target, n.comp))
  }

  /** All is good below 0x4000. */
  lemma LowRecord(off: nat, r: Record, comp: seq<Entry>)
    requires Low(comp) && off + |EncodeRecord(off, r, comp).bytes| <= 0x4000
    ensures RecordGood(off, r, comp) && DataFits(off, r, comp) && Low(EncodeRecord(off, r, comp).comp)
  {
    hide EncodeName, PointerGood, Low, TxtBytes, U16, U32, Swap32;
    var n := EncodeName(off, r.name, comp);
    var d := off + |n.bytes| + 10;
    LowPointer(off, r.name, comp);
    match r.data
    case PTR(target) => LowPointer(d, target, n.comp);
    case SRV(_, _, _, host) => LowPointer(d + 6, host, n.comp);
    case NSEC(_) => LowPointer(d, r.name, n.comp);
    case _ =>
  }

  /** Where the parts of an encoded record stand. */
  ghost predicate Laid(s: seq<byte>, off: nat, r: Record, comp: seq<Entry>)
  {
    var n := EncodeName(off, r.name, comp);
    var p := off + |n.bytes|;
    var d := EncodeData(p + 10, r, n.comp);
    && DecodesAt(s, off, r.name) && Has(s, off, n.bytes) && LabelLength(s, off) == |n.bytes|
    && Has(s, p, FixedPart(r, |d.bytes|)) && Has(s, p + 10, d.bytes)
    && (r.data.PTR? ==> DecodesAt(s, p + 10, r.data.target))
  }

  /** The data of a record keeps the entries that can be pointed to usable. */
  lemma EncodeDataOk(s: seq<byte>, off: nat, r: Record, comp: seq<Entry>)
    requires RecordValid(r) && Has(s, off, EncodeData(off, r, comp).bytes) && LowOk(s, comp) && Before(comp, off)
    ensures var w := EncodeData(off, r, comp); LowOk(s, w.comp) && Before(w.comp, off + |w.bytes|)
    ensures r.data.PTR? ==>
      (DecodesAt(s, off, r.data.target) <==> PointerGood(off, r.data.target, comp) || Coincides(s, off, r.data.target, comp))
  {
    hide LowOk, EncodeName, DecodesAt, U16, U32, Swap32, TxtBytes, PointerGood, Coincides, Has;
    match r.data
    case PTR(target) =>
      EncodeNameOk(s, off, target, comp);
    case SRV(priority, weight, port, host) =>
      var n := EncodeName(off + 6, host, comp);
      HasSplit(s, off, U16(priority), U16(weight) + (U16(port) + n.bytes));
      HasSplit(s, off + 2, U16(weight), U16(port) + n.bytes);
      HasSplit(s, off + 4, U16(port), n.bytes);
      EncodeNameOk(s, off + 6, host, comp);
    case NSEC(bitmap) =>
      var n := EncodeName(off, r.name, comp);
      HasSplit(s, off, n.bytes, [0, |bitmap| % 0x100] + bitmap);
      EncodeNameOk(s, off, r.name, comp);
    case _ =>
  }

  /**
   The data of a SRV record, which the parser skips: priority, weight and port, in this order, and a name
   that is the host if and only if its pointer leads to it.
   */
  lemma ServiceData(s: seq<byte>, off: nat, r: Record, comp: seq<Entry>)
    requires RecordValid(r) && r.data.SRV? && Has(s, off, EncodeData(off, r, comp).bytes)
    requires LowOk(s, comp) && Before(comp, off)
    ensures off + 6 <= |s| && Read16(s, off) == r.data.priority && Read16(s, off + 2) == r.data.weight
    ensures Read16(s, off + 4) == r.data.port
    ensures DecodesAt(s, off + 6, r.data.host) <==>
      PointerGood(off + 6, r.data.host, comp) || Coincides(s, off + 6, r.data.host, comp)
  {
    hide LowOk, EncodeName, DecodesAt, U16, Read16, PointerGood, Coincides, Has;
    var n := EncodeName(off + 6, r.data.host, comp);
    var a, b, c := U16(r.data.priority), U16(r.data.weight), U16(r.data.port);
    HasSplit(s, off, a, b + (c + n.bytes));
    HasSplit(s, off + 2, b, c + n.bytes);
    HasSplit(s, off + 4, c, n.bytes);
    Has16(s, off, r.data.priority);
    Has16(s, off + 2, r.data.weight);
    Has16(s, off + 4, r.data.port);
    HasFirst(s, off + 6, n.bytes);
    EncodeNameOk(s, off + 6, r.data.host, comp);
  }

  /** The data of an NSEC record: the name of the record itself, and one window of five bytes. */
  lemma NextSecureData(s: seq<byte>, off: nat, r: Record, comp: seq<Entry>)
    requires RecordValid(r) && r.data.NSEC? && Has(s, off, EncodeData(off, r, comp).bytes)
    requires LowOk(s, comp) && Before(comp, off)
    ensures DecodesAt(s, off, r.name) <==> PointerGood(off, r.name, comp) || Coincides(s, off, r.name, comp)
    ensures Has(s, off + LabelLength(s, off), [0, 5] + r.data.bitmap)
  {
    hide LowOk, EncodeName, DecodesAt, LabelLength, PointerGood, Coincides, Has;
    var n := EncodeName(off, r.name, comp);
    HasSplit(s, off, n.bytes, [0, 5] + r.data.bitmap);
    EncodeNameOk(s, off, r.name, comp);
    EncodedLength(s, off, r.name, comp);
  }

  /** The names in a record that the parser expands stand where they were written. */
  ghost predicate NamesStand(s: seq<byte>, off: nat, r: Record, comp: seq<Entry>)
  {
    && DecodesAt(s, off, r.name)
    && (r.data.PTR? ==> DecodesAt(s, off + |EncodeName(off, r.name, comp).bytes| + 10, r.data.target))
  }

  /**
   Wherever a record is written, its names stand if and only if their pointers lead there; and the
   entries that can be pointed to stay usable.
   */
  lemma EncodeRecordOk(s: seq<byte>, off: nat, r: Record, comp: seq<Entry>)
    requires RecordValid(r) && Has(s, off, EncodeRecord(off, r, comp).bytes) && LowOk(s, comp) && Before(comp, off)
    ensures var w := EncodeRecord(off, r, comp); LowOk(s, w.comp) && Before(w.comp, off + |w.bytes|)
    ensures NamesStand(s, off, r, comp) <==> RecordLeads(s, off, r, comp)
  {
    hide LowOk, DecodesAt, EncodeName, EncodeData, FixedPart, RecordValid, PointerGood, Coincides, Has;
    var n := EncodeName(off, r.name, comp);
    var p := off + |n.bytes|;
    var d := EncodeData(p + 10, r, n.comp);
    RecordNames(r);
    HasSplit(s, off, n.bytes, FixedPart(r, |d.bytes|) + d.bytes);
    HasSplit(s, p, FixedPart(r, |d.bytes|), d.bytes);
    EncodeNameOk(s, off, r.name, comp);
    BeforeMore(n.comp, p, p + 10);
    EncodeDataOk(s, p + 10, r, n.comp);
  }

  lemma BeforeMore(comp: seq<Entry>, a: nat, b: nat)
    requires Before(comp, a) && a <= b
    ensures Before(comp, b)
  {
  }

  lemma RecordNames(r: Record)
    requires RecordValid(r)
    ensures r.name.Valid()
  {
  }

  // ---------- parsing ----------

  datatype Parsed = Malformed | Parsed(record: Record, size: nat)

  datatype ParsedTxt = BadTxt | ParsedTxt(strings: seq<seq<byte>>, end: nat)

  /** What `strncpy` copies: everything behind the first NUL becomes NUL. */
  function CString(s: seq<byte>): (t: seq<byte>)
    ensures |t| == |s|
    ensures 0 !in s ==> t == s
  {
    if |s| == 0 then []
    else if s[0] == 0 then seq(|s|, i => 0)
    else [s[0]] + CString(s[1..])
  }

  lemma {:induction false} CStringIs(s: seq<byte>, i: nat)
    requires i < |s|
    ensures CString(s)[i] == if 0 in s[..i] then 0 else s[i]
  {
    if s[0] != 0 && i > 0 {
      CStringIs(s[1..], i - 1);
      assert s[..i] == [s[0]] + s[1..][..i - 1];
    }
  }

  /** The strings of a TXT record from `p` up to `e`; a label must stay within the packet and below 63 bytes. */
  function ParseTxt(s: seq<byte>, p: nat, e: nat): (r: ParsedTxt)
    requires p < e <= |s|
    ensures r.ParsedTxt? ==> e <= r.end <= |s|
    decreases e - p
  {
    var len := s[p] as nat + 1;
    if p + len > |s| || len > 63 then BadTxt
    else
      var text := CString(s[p + 1..p + len]);
      if p + len >= e then ParsedTxt([text], p + len)
      else
        var more := ParseTxt(s, p + len, e);
        if more.BadTxt? then BadTxt else ParsedTxt([text] + more.strings, more.end)
  }

  /** The only name that stands at an offset. */
  ghost function NameAt(s: seq<byte>, off: nat): (n: Name)
    requires exists n: Name :: n.Valid() && DecodesAt(s, off, n)
    ensures n.Valid() && DecodesAt(s, off, n)
  {
    var n: Name :| n.Valid() && DecodesAt(s, off, n);
    n
  }

  ghost predicate NameReadable(s: seq<byte>, off: nat)
  {
    exists n: Name :: n.Valid() && DecodesAt(s, off, n)
  }

  /** What the parser reads without checking: names that expand, and the ten fixed bytes. */
  ghost predicate RecordReadable(s: seq<byte>, off: nat)
  {
    off < |s| ==>
      && NameReadable(s, off)
      && var p := off + LabelLength(s, off);
      && p + 10 <= |s|
      && (Read16(s, p) == 0x0C && p + 10 < |s| ==> NameReadable(s, p + 10))
  }

  /** `rr_class` as parsed: the mask meant for the cache-flush bit clears bit 7 instead. */
  function ParsedClass(field: nat): nat
  {
    field - field / 0x80 % 2 * 0x80
  }

  /** `mdns_parse_rr` on the first |s| bytes of the buffer. */
  ghost function ParseRecord(s: seq<byte>, off: nat): Parsed
    requires RecordReadable(s, off)
  {
    if off >= |s| then Malformed
    else
      var p := off + LabelLength(s, off);
      var code, field, ttl, length := Read16(s, p), Read16(s, p + 2), Read32(s, p + 4), Read16(s, p + 8);
      var d, e := p + 10, p + 10 + length;
      var header := Record(NameAt(s, off), ParsedClass(field), field >= 0x8000, ttl, Opaque(code));
      if e > |s| then Malformed
      else if code == 0x01 then
        if length < 4 then Malformed else Parsed(header.(data := A(Swap32(Read32(s, d)))), d + 4 - off)
      else if code == 0x1C then
        if length < 16 then Malformed else Parsed(header.(data := AAAA(s[d..d + 16])), d + 16 - off)
      else if code == 0x0C then
        if d >= |s| then Malformed else Parsed(header.(data := PTR(NameAt(s, d))), e - off)
      else if code == 0x10 then
        if length == 0 then Parsed(header.(data := TXT([[]])), d - off)
        else
          var t := ParseTxt(s, d, e);
          if t.BadTxt? then Malformed else Parsed(header.(data := TXT(t.strings)), t.end - off)
      else Parsed(header, e - off)
  }

  /** Class and cache-flush bit come back exactly if bit 7 is clear and the flag is what bit 15 of the class says. */
  lemma ClassRoundTrip(class_: nat, cacheFlush: bool)
    requires class_ < 0x1_0000
    ensures ParsedClass(ClassField(class_, cacheFlush)) == class_
      <==> (cacheFlush == (class_ >= 0x8000)) && class_ / 0x80 % 2 == 0
  {
    var low, top, flag := class_ % 0x8000, class_ / 0x8000, if cacheFlush then 1 else 0;
    var b, rest := low / 0x80, low % 0x80;
    DivModUnique(low + 0x8000 * flag, b + 0x100 * flag, 0x80, rest);
    DivModUnique(class_, b + 0x100 * top, 0x80, rest);
  }

  /** The class 1 of a record with the cache-flush bit, such as the responder's own, comes back as 0x8001. */
  lemma ClassLost()
    ensures ParsedClass(ClassField(1, true)) == 0x8001
  {
  }

  /** A string of 63 bytes, which `create_label` makes, is refused. */
  lemma LongStringRefused(c: byte)
    requires c != 0
    ensures var strings := [seq(63, _ => c)];
      TxtValid(strings) && |TxtBytes(strings, 0)| == 64 && ParseTxt(TxtBytes(strings, 0), 0, 64) == BadTxt
  {
    var strings := [seq(63, _ => c)];
    assert TxtBytes(strings, 1) == [];
    assert TxtBytes(strings, 0) == [63] + strings[0];
  }

  lemma HasEnds(s: seq<byte>, i: nat, part: seq<byte>)
    requires Has(s, i, part)
    ensures i + |part| <= |s|
  {
  }

  /** A string of up to 62 bytes is read and the rest of the data parsed behind it; one of 63 bytes is refused. */
  lemma OneString(s: seq<byte>, d: nat, text: seq<byte>, e: nat)
    requires |text| <= 63 && 0 !in text && Has(s, d, [|text| as byte] + text)
    requires d + 1 + |text| <= e <= |s|
    ensures |text| == 63 ==> ParseTxt(s, d, e) == BadTxt
    ensures |text| <= 62 && d + 1 + |text| == e ==> ParseTxt(s, d, e) == ParsedTxt([text], e)
    ensures |text| <= 62 && d + 1 + |text| < e ==>
      var more := ParseTxt(s, d + 1 + |text|, e);
      ParseTxt(s, d, e) == if more.BadTxt? then BadTxt else ParsedTxt([text] + more.strings, more.end)
  {
    var first := [|text| as byte] + text;
    assert s[d + 0] == first[0];
    assert s[d + 1..d + 1 + |text|] == text by {
      forall k | 0 <= k < |text|
        ensures s[d + 1 + k] == text[k]
      {
        assert s[d + (1 + k)] == first[1 + k];
      }
    }
  }

  lemma {:induction false} TxtRoundTrip(s: seq<byte>, d: nat, strings: seq<seq<byte>>, i: nat)
    requires TxtValid(strings) && i < |strings| && Has(s, d, TxtBytes(strings, i))
    ensures |TxtBytes(strings, i)| >= 1 && d + |TxtBytes(strings, i)| <= |s|
    ensures (forall j | i <= j < |strings| :: |strings[j]| <= 62) ==>
      ParseTxt(s, d, d + |TxtBytes(strings, i)|) == ParsedTxt(strings[i..], d + |TxtBytes(strings, i)|)
    ensures (exists j | i <= j < |strings| :: |strings[j]| == 63) ==>
      ParseTxt(s, d, d + |TxtBytes(strings, i)|) == BadTxt
    decreases |strings| - i
  {
    hide Has, ParseTxt;
    var first, rest := [|strings[i]| as byte] + strings[i], TxtBytes(strings, i + 1);
    HasSplit(s, d, first, rest);
    HasEnds(s, d, TxtBytes(strings, i));
    OneString(s, d, strings[i], d + |TxtBytes(strings, i)|);
    if i + 1 < |strings| {
      TxtRoundTrip(s, d + |first|, strings, i + 1);
      assert strings[i..] == [strings[i]] + strings[i + 1..];
    } else {
      assert strings[i..] == [strings[i]];
    }
  }

  /** What the parser returns for an encoded record: SRV and NSEC data are skipped. */
  function Expected(r: Record): Record
  {
    Record(r.name, ParsedClass(ClassField(r.class_, r.cacheFlush)), r.cacheFlush, r.ttl,
           match r.data
           case SRV(_, _, _, _) => Opaque(0x21)
           case NSEC(_) => Opaque(0x2F)
           case data => data)
  }

  /** `copy_label` refuses strings of 63 bytes. */
  predicate Parsable(r: Record)
  {
    r.data.TXT? ==> forall i | 0 <= i < |r.data.strings| :: |r.data.strings[i]| <= 62
  }

  lemma NameFound(s: seq<byte>, off: nat, n: Name)
    requires n.Valid() && DecodesAt(s, off, n)
    ensures NameReadable(s, off) && NameAt(s, off) == n
  {
    DecodesUnique(s, off, n, NameAt(s, off));
  }

  /** The fixed part of a laid-out record reads back. */
  lemma FixedRead(s: seq<byte>, p: nat, r: Record, length: nat)
    requires RecordValid(r) && length < 0x1_0000 && Has(s, p, FixedPart(r, length))
    ensures p + 10 <= |s| && Read16(s, p) == TypeCode(r.data)
    ensures Read16(s, p + 2) == ClassField(r.class_, r.cacheFlush) && Read32(s, p + 4) == r.ttl
    ensures Read16(s, p + 8) == length
    ensures Read16(s, p + 2) >= 0x8000 <==> r.cacheFlush
  {
    var a, b, c, d := U16(TypeCode(r.data)), U16(ClassField(r.class_, r.cacheFlush)), U32(r.ttl), U16(length);
    assert Has(s, p, a + (b + (c + d)));
    hide U16, U32, Has, Read16, Read32;
    HasSplit(s, p, a, b + (c + d));
    HasSplit(s, p + 2, b, c + d);
    HasSplit(s, p + 4, c, d);
    Has16(s, p, TypeCode(r.data));
    Has16(s, p + 2, ClassField(r.class_, r.cacheFlush));
    Has32(s, p + 4, r.ttl);
    Has16(s, p + 8, length);
  }

  /**
   A laid-out record parses back, with a size that leads exactly to the next record; a TXT record
   with a 63-byte string does not parse.
   */
  lemma LaidRoundTrip(s: seq<byte>, off: nat, r: Record, comp: seq<Entry>)
    requires RecordValid(r) && Laid(s, off, r, comp) && DataFits(off, r, comp)
    ensures RecordReadable(s, off)
    ensures ParseRecord(s, off) ==
      if Parsable(r) then Parsed(Expected(r), |EncodeRecord(off, r, comp).bytes|) else Malformed
  {
    hide DecodesAt, EncodeName, LabelLength, Read16, Read32, FixedPart, Swap32, NameReadable, ParseTxt,
      ClassField, ParsedClass, Name.Valid;
    var n := EncodeName(off, r.name, comp);
    var p := off + |n.bytes|;
    var d := EncodeData(p + 10, r, n.comp);
    NameFound(s, off, r.name);
    FixedRead(s, p, r, |d.bytes|);
    match r.data
    case A(addr) =>
      Has32(s, p + 10, Swap32(addr));
      SwapTwice(addr);
    case AAAA(octets) =>
      assert s[p + 10..p + 26] == octets;
    case PTR(target) =>
      NameFound(s, p + 10, target);
    case TXT(strings) =>
      TxtRoundTrip(s, p + 10, strings, 0);
      assert strings[0..] == strings;
    case _ =>
  }

  lemma NamesLaid(s: seq<byte>, off: nat, r: Record, comp: seq<Entry>)
    requires RecordValid(r) && Has(s, off, EncodeRecord(off, r, comp).bytes)
    ensures Laid(s, off, r, comp) <==> NamesStand(s, off, r, comp)
    ensures var n := EncodeName(off, r.name, comp); LabelLength(s, off) == |n.bytes| && off < |s|
  {
    hide DecodesAt, EncodeName, EncodeData, FixedPart, LabelLength, Has, RecordValid;
    var n := EncodeName(off, r.name, comp);
    var p := off + |n.bytes|;
    var d := EncodeData(p + 10, r, n.comp);
    RecordNames(r);
    HasSplit(s, off, n.bytes, FixedPart(r, |d.bytes|) + d.bytes);
    HasSplit(s, p, FixedPart(r, |d.bytes|), d.bytes);
    EncodedLength(s, off, r.name, comp);
    HasFirst(s, off, n.bytes);
  }

  /** A TXT record with a 63-byte string does not parse, whatever its name has become. */
  lemma NotParsed(s: seq<byte>, off: nat, r: Record, comp: seq<Entry>)
    requires RecordValid(r) && !Parsable(r) && DataFits(off, r, comp)
    requires Has(s, off, EncodeRecord(off, r, comp).bytes) && RecordReadable(s, off)
    ensures ParseRecord(s, off) == Malformed
  {
    hide DecodesAt, EncodeName, LabelLength, Read16, Read32, FixedPart, Swap32, NameReadable, ParseTxt, ClassField,
      ParsedClass,
      Name.Valid, Has;
    var n := EncodeName(off, r.name, comp);
    var p := off + |n.bytes|;
    var d := EncodeData(p + 10, r, n.comp);
    NamesLaid(s, off, r, comp);
    HasSplit(s, off, n.bytes, FixedPart(r, |d.bytes|) + d.bytes);
    HasSplit(s, p, FixedPart(r, |d.bytes|), d.bytes);
    FixedRead(s, p, r, |d.bytes|);
    TxtRoundTrip(s, p + 10, r.data.strings, 0);
  }

  /**
   Wherever a record is written, and whatever follows, it comes back with a size that leads exactly to
   the next one, if and only if it can be parsed and its pointers lead to its names.
   */
  lemma RecordRoundTrip(s: seq<byte>, off: nat, r: Record, comp: seq<Entry>)
    requires RecordValid(r) && DataFits(off, r, comp)
    requires Has(s, off, EncodeRecord(off, r, comp).bytes) && LowOk(s, comp) && Before(comp, off)
    ensures RecordLeads(s, off, r, comp) ==>
      && RecordReadable(s, off)
      && ParseRecord(s, off) == if Parsable(r) then Parsed(Expected(r), |EncodeRecord(off, r, comp).bytes|) else Malformed
    ensures RecordReadable(s, off) && ParseRecord(s, off).Parsed? && ParseRecord(s, off).record == Expected(r) ==>
      Parsable(r) && RecordLeads(s, off, r, comp)
  {
    hide DecodesAt, EncodeName, LabelLength, Read16, Read32, FixedPart, Swap32, ParseTxt, EncodeData, ClassField,
      ParsedClass,
      Name.Valid, Has, RecordLeads, LowOk, DataFits, Parsable, RecordValid;
    EncodeRecordOk(s, off, r, comp);
    NamesLaid(s, off, r, comp);
    if NamesStand(s, off, r, comp) {
      LaidRoundTrip(s, off, r, comp);
    }
    if !Parsable(r) && RecordReadable(s, off) {
      NotParsed(s, off, r, comp);
    }
  }
}

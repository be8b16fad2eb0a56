/** The packet encoder and parser as they run over a packet buffer. */
module MdnsPacketCodec {
  import opened Numbers
  import opened MdnsNames
  import opened MdnsNameCodec
  import opened MdnsRecords
  import opened MdnsPackets

  // ---------- encoding ----------

  /** Bytes that were skipped earlier are filled in at last. */
  lemma FillIn(origin: seq<byte>, a: seq<byte>, b: seq<byte>, off: nat,
               x: seq<byte>, stale: seq<byte>, fresh_: seq<byte>, y: seq<byte>)
    requires WrittenAt(origin, a, off, x + (stale + y)) && |stale| == |fresh_|
    requires WrittenAt(a, b, off + |x|, fresh_)
    ensures WrittenAt(origin, b, off, x + (fresh_ + y))
  {
    HasSplit(a, off, x, stale + y);
    HasSplit(a, off + |x|, stale, y);
    assert Has(b, off, x) by {
      forall k | 0 <= k < |x| ensures b[off + k] == x[k] { assert a[off + k] == x[k]; }
    }
    assert Has(b, off + |x| + |fresh_|, y) by {
      forall k | 0 <= k < |y| ensures b[off + |x| + |fresh_| + k] == y[k] {
        assert a[off + |x| + |stale| + k] == y[k];
      }
    }
    HasSplit(b, off + |x|, fresh_, y);
    HasSplit(b, off, x, fresh_ + y);
  }

  /** Skipping over bytes leaves what they held. */
  lemma Skipped(origin: seq<byte>, s: seq<byte>, off: nat, x: seq<byte>, n: nat)
    requires WrittenAt(origin, s, off, x) && off + |x| + n <= |s|
    ensures WrittenAt(origin, s, off, x + s[off + |x|..off + |x| + n])
  {
    HasSplit(s, off, x, s[off + |x|..off + |x| + n]);
  }

  /** The strings of a TXT record, one after the other. */
  method EncodeStrings(pkt: array<byte>, off: nat, strings: seq<seq<byte>>)
    requires TxtValid(strings) && off + |TxtBytes(strings, 0)| <= pkt.Length
    modifies pkt
    ensures WrittenAt(old(pkt[..]), pkt[..], off, TxtBytes(strings, 0))
  {
    hide WrittenAt;
    ghost var origin, done := pkt[..], [];
    var p := off;
    NothingWritten(origin, off);
    for i := 0 to |strings|
      invariant p == off + |done| && WrittenAt(origin, pkt[..], off, done)
      invariant done + TxtBytes(strings, i) == TxtBytes(strings, 0)
    {
      var segment := [|strings[i]| as byte] + strings[i];
      Regroup(done, segment, TxtBytes(strings, i + 1));
      Append(pkt, p, segment, origin, off, done);
      done := done + segment;
      p := p + |segment|;
    }
    assert done + [] == done;
  }

  method EncodeDataAt(pkt: array<byte>, off: nat, r: Record, comp: CompressionList) returns (len: nat)
    requires RecordValid(r) && off + |EncodeData(off, r, comp.entries).bytes| <= pkt.Length
    modifies pkt, comp
    ensures var w := EncodeData(off, r, old(comp.entries));
      len == |w.bytes| && WrittenAt(old(pkt[..]), pkt[..], off, w.bytes) && comp.entries == w.comp
  {
    hide WrittenAt, EncodeName, TxtBytes, Swap32;
    ghost var origin, entries := pkt[..], comp.entries;
    match r.data
    case A(addr) =>
      WriteBytes(pkt, off, U32(Swap32(addr)));
      len := 4;
    case AAAA(octets) =>
      WriteBytes(pkt, off, octets);
      len := |octets|;
    case PTR(target) =>
      len := EncodeNameAt(pkt, off, target, comp);
    case TXT(strings) =>
      EncodeStrings(pkt, off, strings);
      len := |TxtBytes(strings, 0)|;
    case SRV(priority, weight, port, host) =>
      WriteBytes(pkt, off, U16(priority) + (U16(weight) + U16(port)));
      ghost var mid, fixed := pkt[..], U16(priority) + (U16(weight) + U16(port));
      len := EncodeNameAt(pkt, off + 6, host, comp);
      len := len + 6;
      WrittenThen(origin, mid, pkt[..], off, fixed, EncodeName(off + 6, host, entries).bytes);
      assert EncodeData(off, r, entries).bytes == fixed + EncodeName(off + 6, host, entries).bytes;
    case NSEC(bitmap) =>
      len := EncodeNameAt(pkt, off, r.name, comp);
      ghost var mid, name := pkt[..], EncodeName(off, r.name, entries).bytes;
      // window block number, bitmap length, bitmap
      WriteBytes(pkt, off + len, [0, |bitmap| as byte] + bitmap);
      WrittenThen(origin, mid, pkt[..], off, name, [0, |bitmap| as byte] + bitmap);
      len := len + 2 + |bitmap|;
    case Opaque(_) =>
      NothingWritten(origin, off);
      len := 0;
  }

  /** Name, type, class and time to live. */
  function HeadBytes(off: nat, r: Record, comp: seq<Entry>): (b: seq<byte>)
    ensures |b| == |EncodeName(off, r.name, comp).bytes| + 8
  {
    EncodeName(off, r.name, comp).bytes
      + (U16(TypeCode(r.data)) + (U16(ClassField(r.class_, r.cacheFlush)) + U32(r.ttl)))
  }

  method EncodeHeadAt(pkt: array<byte>, off: nat, r: Record, comp: CompressionList) returns (len: nat)
    requires r.name.Valid() && off + |HeadBytes(off, r, comp.entries)| <= pkt.Length
    modifies pkt, comp
    ensures len == |HeadBytes(off, r, old(comp.entries))|
    ensures WrittenAt(old(pkt[..]), pkt[..], off, HeadBytes(off, r, old(comp.entries)))
    ensures comp.entries == EncodeName(off, r.name, old(comp.entries)).comp
  {
    hide WrittenAt, EncodeName, U16, U32, ClassField, TypeCode;
    ghost var origin := pkt[..];
    ghost var name := EncodeName(off, r.name, comp.entries).bytes;
    len := EncodeNameAt(pkt, off, r.name, comp);
    Append(pkt, off + len, U16(TypeCode(r.data)) + (U16(ClassField(r.class_, r.cacheFlush)) + U32(r.ttl)),
           origin, off, name);
    len := len + 8;
  }

  /** `mdns_encode_rr`: the data length is filled in after the data. */
  method EncodeRecordAt(pkt: array<byte>, off: nat, r: Record, comp: CompressionList) returns (len: nat)
    requires RecordValid(r) && off + |EncodeRecord(off, r, comp.entries).bytes| <= pkt.Length
    modifies pkt, comp
    ensures var w := EncodeRecord(off, r, old(comp.entries));
      len == |w.bytes| && WrittenAt(old(pkt[..]), pkt[..], off, w.bytes) && comp.entries == w.comp
  {
    hide *;
    RecordNames(r);
    RecordLength(off, r, comp.entries);
    ghost var origin, entries := pkt[..], comp.entries;
    var l := EncodeHeadAt(pkt, off, r, comp);
    var p := off + l + 2;  // the data length is filled in later
    ghost var beforeData := pkt[..];
    var dataLen := EncodeDataAt(pkt, p, r, comp);
    ghost var beforeLength := pkt[..];
    WriteBytes(pkt, p - 2, U16(dataLen));
    FilledIn(origin, beforeData, beforeLength, pkt[..], off, r, entries);
    len := l + 2 + dataLen;
  }

  /** The head of a record, then the data behind two bytes left out, then those two. */
  lemma FilledIn(origin: seq<byte>, s: seq<byte>, t: seq<byte>, u: seq<byte>, off: nat, r: Record, comp: seq<Entry>)
    requires WrittenAt(origin, s, off, HeadBytes(off, r, comp))
    requires var p, n := off + |HeadBytes(off, r, comp)| + 2, EncodeName(off, r.name, comp);
      var d := EncodeData(p, r, n.comp).bytes;
      p <= |s| && WrittenAt(s, t, p, d) && WrittenAt(t, u, p - 2, U16(|d|))
    ensures WrittenAt(origin, u, off, EncodeRecord(off, r, comp).bytes)
  {
    hide WrittenAt, HeadBytes, EncodeName, EncodeData, EncodeRecord, U16;
    var head := HeadBytes(off, r, comp);
    var d := EncodeData(off + |head| + 2, r, EncodeName(off, r.name, comp).comp).bytes;
    var stale := s[off + |head|..off + |head| + 2];
    RecordBytes(off, r, comp);
    Skipped(origin, s, off, head, 2);
    WrittenThen(origin, s, t, off, head + stale, d);
    Regroup(head, stale, d);
    FillIn(origin, t, u, off, head, stale, U16(|d|), d);
  }

  lemma RecordLength(off: nat, r: Record, comp: seq<Entry>)
    ensures var p, n := off + |HeadBytes(off, r, comp)| + 2, EncodeName(off, r.name, comp);
      var d := EncodeData(p, r, n.comp);
      |EncodeRecord(off, r, comp).bytes| == p + |d.bytes| - off && EncodeRecord(off, r, comp).comp == d.comp
  {
    hide HeadBytes, EncodeName, EncodeData, EncodeRecord, U16;
    RecordBytes(off, r, comp);
  }

  lemma RecordBytes(off: nat, r: Record, comp: seq<Entry>)
    ensures var n := EncodeName(off, r.name, comp);
      var d := EncodeData(off + |n.bytes| + 10, r, n.comp);
      EncodeRecord(off, r, comp) == Written(HeadBytes(off, r, comp) + (U16(|d.bytes|) + d.bytes), d.comp)
  {
    hide EncodeName, EncodeData, U16, U32, TypeCode, ClassField;
    var n := EncodeName(off, r.name, comp).bytes;
    var data := EncodeData(off + |n| + 10, r, EncodeName(off, r.name, comp).comp).bytes;
    var t, c, l, rest := U16(TypeCode(r.data)), U16(ClassField(r.class_, r.cacheFlush)), U32(r.ttl), U16(|data|) + data;
    Regroup(n, t + (c + l), rest);
    Regroup(t, c + l, rest);
    Regroup(c, l, rest);
    Regroup(t, c + (l + U16(|data|)), data);
    Regroup(c, l + U16(|data|), data);
    Regroup(l, U16(|data|), data);
  }

  /** The records of one section after the other; -1 once the packet has outgrown `pktLen`. */
  method EncodeRecordsAt(pkt: array<byte>, pktLen: nat, start: nat, rs: seq<Record>, comp: CompressionList)
    returns (end: int)
    requires AllValid(rs) && start + |EncodeRecords(start, rs, 0, comp.entries).bytes| <= pkt.Length
    modifies pkt, comp
    ensures var w := EncodeRecords(start, rs, 0, old(comp.entries));
      if rs == [] || start + |w.bytes| < pktLen then
        end == start + |w.bytes| && WrittenAt(old(pkt[..]), pkt[..], start, w.bytes)
      else end == -1
  {
    hide WrittenAt, EncodeRecord, RecordValid;
    ghost var origin, entries, done := pkt[..], comp.entries, [];
    ghost var w := EncodeRecords(start, rs, 0, entries);
    var off := start;
    NothingWritten(origin, start);
    for i := 0 to |rs|
      invariant off == start + |done| && WrittenAt(origin, pkt[..], start, done)
      invariant done + EncodeRecords(off, rs, i, comp.entries).bytes == w.bytes
      invariant i > 0 ==> off < pktLen
    {
      ghost var before := pkt[..];
      ghost var one := EncodeRecord(off, rs[i], comp.entries);
      ghost var rest := EncodeRecords(off + |one.bytes|, rs, i + 1, one.comp);
      Regroup(done, one.bytes, rest.bytes);
      var l := EncodeRecordAt(pkt, off, rs[i], comp);
      WrittenThen(origin, before, pkt[..], start, done, one.bytes);
      done := done + one.bytes;
      off := off + l;
      if off >= pktLen {
        return -1;
      }
    }
    end := off;
    assert done + [] == done;
  }

  method EncodePacketAt(p: Packet, pkt: array<byte>, pktLen: nat) returns (len: int)
    requires ReplyValid(p) && |EncodePacket(p)| <= pkt.Length
    modifies pkt
    ensures if AllRecords(p) == [] || |EncodePacket(p)| < pktLen then
        len == |EncodePacket(p)| && pkt[..len] == EncodePacket(p)
      else len == -1
  {
    hide WrittenAt, EncodeRecords, AllRecords, AllValid, U16;
    ghost var origin := pkt[..];
    WriteBytes(pkt, 0, Header(p));
    ghost var mid := pkt[..];
    var comp := new CompressionList();
    ghost var rs := EncodeRecords(12, AllRecords(p), 0, comp.entries).bytes;
    len := EncodeRecordsAt(pkt, pktLen, 12, AllRecords(p), comp);
    if len >= 0 {
      WrittenThen(origin, mid, pkt[..], 0, Header(p), rs);
      WrittenSuffix(origin, pkt[..], 0, Header(p) + rs);
    }
  }

  // ---------- parsing ----------

  method ReadU16(pkt: array<byte>, i: nat, ghost s: seq<byte>) returns (v: nat)
    requires i + 2 <= |s| <= pkt.Length && s == pkt[..|s|]
    ensures v == Read16(s, i)
  {
    v := pkt[i] as int * 0x100 + pkt[i + 1];
  }

  method ReadU32(pkt: array<byte>, i: nat, ghost s: seq<byte>) returns (v: nat)
    requires i + 4 <= |s| <= pkt.Length && s == pkt[..|s|]
    ensures v == Read32(s, i)
  {
    v := pkt[i] as int * 0x100_0000 + pkt[i + 1] as int * 0x1_0000 + pkt[i + 2] as int * 0x100 + pkt[i + 3];
  }

  /** `uncompress_nlabel` on a name that expands. */
  method ReadName(pkt: array<byte>, pktLen: nat, off: nat) returns (name: Name)
    requires pktLen <= pkt.Length && off < pktLen && NameReadable(pkt[..pktLen], off)
    ensures name == NameAt(pkt[..pktLen], off)
  {
    ghost var n := NameAt(pkt[..pktLen], off);
    var str := Uncompress(pkt, pktLen, off, n);
    assert str[..str.Length - 1] == n.Raw();
    NameOfRaw(n);
    name := NameOf(str[..str.Length - 1]);
  }

  /** `copy_label`: a string that runs past the packet or is 63 bytes long is refused. */
  method CopyTxt(pkt: array<byte>, pktLen: nat, off: nat) returns (ok: bool, text: seq<byte>)
    requires off < pktLen <= pkt.Length
    ensures ok == (off + pkt[off] as nat + 1 <= pktLen && pkt[off] as nat + 1 <= 63)
    ensures ok ==> text == CString(pkt[..pktLen][off + 1..off + pkt[off] as nat + 1])
  {
    var len := pkt[off] as nat + 1;
    ok, text := false, [];
    if off + len > pktLen || len > 63 {
      return;
    }
    ok, text := true, CString(pkt[off + 1..off + len]);
    assert pkt[..pktLen][off + 1..off + len] == pkt[off + 1..off + len];
  }

  method ParseTxtAt(pkt: array<byte>, pktLen: nat, start: nat, e: nat) returns (r: ParsedTxt)
    requires start < e <= pktLen <= pkt.Length
    ensures r == ParseTxt(pkt[..pktLen], start, e)
  {
    hide CString, ParseTxt;
    ghost var s := pkt[..pktLen];
    var p, strings := start, [];
    while true
      invariant start <= p < e
      invariant ParseTxt(s, start, e) == Prepend(strings, ParseTxt(s, p, e))
      decreases e - p
    {
      ParseTxtStep(s, p, e);
      var ok, text := CopyTxt(pkt, pktLen, p);
      if !ok {
        return BadTxt;
      }
      p := p + pkt[p] as nat + 1;
      if p >= e {
        return ParsedTxt(strings + [text], p);
      }
      PrependMore(strings, text, ParseTxt(s, p, e));
      strings := strings + [text];
    }
  }

  function Prepend(strings: seq<seq<byte>>, t: ParsedTxt): ParsedTxt
  {
    if t.BadTxt? then BadTxt else ParsedTxt(strings + t.strings, t.end)
  }

  lemma ParseTxtStep(s: seq<byte>, p: nat, e: nat)
    requires p < e <= |s|
    ensures var end := p + s[p] as nat + 1;
      ParseTxt(s, p, e) ==
        if end > |s| || s[p] > 62 then BadTxt
        else if end >= e then ParsedTxt([CString(s[p + 1..end])], end)
        else Prepend([CString(s[p + 1..end])], ParseTxt(s, end, e))
  {
  }

  lemma PrependMore(strings: seq<seq<byte>>, text: seq<byte>, t: ParsedTxt)
    ensures Prepend(strings + [text], t) == Prepend(strings, Prepend([text], t))
  {
    if t.ParsedTxt? {
      assert (strings + [text]) + t.strings == strings + ([text] + t.strings);
    }
  }

  /** The data of a record whose length fits the packet; the new end, or nothing for bad data. */
  method ParseDataAt(pkt: array<byte>, pktLen: nat, d: nat, code: nat, length: nat)
    returns (ok: bool, data: RData, end: nat)
    requires d + length <= pktLen <= pkt.Length
    requires code == 0x0C && d < pktLen ==> NameReadable(pkt[..pktLen], d)
    ensures var s := pkt[..pktLen];
      if code == 0x01 then ok == (length >= 4) && (ok ==> data == A(Swap32(Read32(s, d))) && end == d + 4)
      else if code == 0x1C then ok == (length >= 16) && (ok ==> data == AAAA(s[d..d + 16]) && end == d + 16)
      else if code == 0x0C then ok == (d < pktLen) && (ok ==> data == PTR(NameAt(s, d)) && end == d + length)
      else if code == 0x10 then
        if length == 0 then ok && data == TXT([[]]) && end == d
        else
          var t := ParseTxt(s, d, d + length);
          ok == t.ParsedTxt? && (ok ==> data == TXT(t.strings) && end == t.end)
      else ok && data == Opaque(code) && end == d + length
  {
    ghost var s := pkt[..pktLen];
    hide NameReadable, ParseTxt, Swap32, Read32, DecodesAt, CString, LabelLength, Name.Valid, IsPointer, Target;
    ok, data, end := true, Opaque(code), d + length;
    if code == 0x01 {
      if length < 4 {
        ok := false;
      } else {
        var addr := ReadU32(pkt, d, s);
        data, end := A(Swap32(addr)), d + 4;
      }
    } else if code == 0x1C {
      if length < 16 {
        ok := false;
      } else {
        data, end := AAAA(pkt[d..d + 16]), d + 16;
        assert s[d..d + 16] == pkt[d..d + 16];
      }
    } else if code == 0x0C {
      if d >= pktLen {
        ok := false;
      } else {
        var name := ReadName(pkt, pktLen, d);
        data := PTR(name);
      }
    } else if code == 0x10 {
      if length == 0 {
        data, end := TXT([[]]), d;
      } else {
        var t := ParseTxtAt(pkt, pktLen, d, d + length);
        if t.BadTxt? {
          ok := false;
        } else {
          data, end := TXT(t.strings), t.end;
        }
      }
    }
  }

  /** `mdns_parse_rr`. */
  method ParseRecordAt(pkt: array<byte>, pktLen: nat, off: nat) returns (r: Parsed)
    requires pktLen <= pkt.Length && RecordReadable(pkt[..pktLen], off)
    ensures r == ParseRecord(pkt[..pktLen], off)
  {
    hide NameReadable, ParseTxt, Swap32, Read32, Read16, LabelLength, ParsedClass;
    ghost var s := pkt[..pktLen];
    if off >= pktLen {
      return Malformed;
    }
    var name := ReadName(pkt, pktLen, off);
    var l := LabelLen(pkt, pktLen, off);
    var p := off + l;
    var code := ReadU16(pkt, p, s);
    var field := ReadU16(pkt, p + 2, s);
    var ttl := ReadU32(pkt, p + 4, s);
    var length := ReadU16(pkt, p + 8, s);
    if p + 10 + length > pktLen {
      return Malformed;
    }
    var ok, data, end := ParseDataAt(pkt, pktLen, p + 10, code, length);
    if !ok {
      return Malformed;
    }
    r := Parsed(Record(name, ParsedClass(field), field >= 0x8000, ttl, data), end - off);
  }

  method ParseRecordsAt(pkt: array<byte>, pktLen: nat, start: nat, count: nat) returns (r: ParsedList)
    requires pktLen <= pkt.Length && RecordsReadable(pkt[..pktLen], start, count)
    ensures r == ParseRecords(pkt[..pktLen], start, count)
  {
    hide RecordReadable, ParseRecord;
    ghost var s := pkt[..pktLen];
    var off: nat, records: seq<Record> := start, [];
    for i := 0 to count
      invariant RecordsReadable(s, off, count - i)
      invariant ParseRecords(s, start, count) == After(records, ParseRecords(s, off, count - i))
    {
      var one := ParseRecordAt(pkt, pktLen, off);
      if one.Malformed? {
        return Failed;
      }
      off := off + one.size;
      AfterMore(records, one.record, ParseRecords(s, off, count - i - 1));
      records := records + [one.record];
    }
    r := ParsedList(records);
  }

  function After(records: seq<Record>, rest: ParsedList): ParsedList
  {
    if rest.Failed? then Failed else ParsedList(records + rest.records)
  }

  lemma AfterMore(records: seq<Record>, r: Record, rest: ParsedList)
    ensures After(records + [r], rest) == After(records, After([r], rest))
  {
    if rest.ParsedList? {
      assert (records + [r]) + rest.records == records + ([r] + rest.records);
    }
  }

  /** `mdns_parse_qn`. */
  method ParseQuestionAt(pkt: array<byte>, pktLen: nat, off: nat) returns (q: ParsedQuestion)
    requires pktLen <= pkt.Length && QuestionReadable(pkt[..pktLen], off)
    ensures q == ParseQuestion(pkt[..pktLen], off)
  {
    hide NameReadable, Read16, LabelLength, ParsedClass;
    ghost var s := pkt[..pktLen];
    if off >= pktLen {
      return BadQuestion;
    }
    var name := ReadName(pkt, pktLen, off);
    var l := LabelLen(pkt, pktLen, off);
    var code := ReadU16(pkt, off + l, s);
    var field := ReadU16(pkt, off + l + 2, s);
    q := ParsedQuestion(Question(name, code, field >= 0x8000, ParsedClass(field)), l + 4);
  }

  method ParseQuestionsAt(pkt: array<byte>, pktLen: nat, start: nat, count: nat) returns (r: ParsedQuestions)
    requires pktLen <= pkt.Length && QuestionsReadable(pkt[..pktLen], start, count)
    ensures r == ParseQuestions(pkt[..pktLen], start, count)
  {
    hide QuestionReadable, ParseQuestion;
    ghost var s := pkt[..pktLen];
    var off: nat, questions: seq<Question> := start, [];
    for i := 0 to count
      invariant QuestionsReadable(s, off, count - i)
      invariant ParseQuestions(s, start, count) == AfterQ(questions, ParseQuestions(s, off, count - i))
    {
      var one := ParseQuestionAt(pkt, pktLen, off);
      if one.BadQuestion? {
        return NoQuestions;
      }
      off := off + one.size;
      AfterMoreQ(questions, one.question, ParseQuestions(s, off, count - i - 1));
      questions := questions + [one.question];
    }
    r := ParsedQuestions(questions, off);
  }

  function AfterQ(questions: seq<Question>, rest: ParsedQuestions): ParsedQuestions
  {
    if rest.NoQuestions? then NoQuestions else ParsedQuestions(questions + rest.questions, rest.end)
  }

  lemma AfterMoreQ(questions: seq<Question>, q: Question, rest: ParsedQuestions)
    ensures AfterQ(questions + [q], rest) == AfterQ(questions, AfterQ([q], rest))
  {
    if rest.ParsedQuestions? {
      assert (questions + [q]) + rest.questions == questions + ([q] + rest.questions);
    }
  }

  /** `mdns_parse_pkt`. */
  method ParsePacketAt(pkt: array<byte>, pktLen: nat) returns (r: ParsedPacket)
    requires pktLen <= pkt.Length && PacketReadable(pkt[..pktLen])
    ensures r == ParsePacket(pkt[..pktLen])
  {
    hide QuestionsReadable, RecordsReadable, ParseQuestions, ParseRecords, Read16;
    ghost var s := pkt[..pktLen];
    if pktLen < 12 {
      return BadPacket;
    }
    var id := ReadU16(pkt, 0, s);
    var flags := ReadU16(pkt, 2, s);
    var numQuestions := ReadU16(pkt, 4, s);
    var numAnswers := ReadU16(pkt, 6, s);
    var numAuthority := ReadU16(pkt, 8, s);
    var numAdditional := ReadU16(pkt, 10, s);
    var q := ParseQuestionsAt(pkt, pktLen, 12, numQuestions);
    if q.NoQuestions? {
      return BadPacket;
    }
    var a := ParseRecordsAt(pkt, pktLen, q.end, numAnswers);
    if a.Failed? {
      return BadPacket;
    }
    r := ParsedPacket(Packet(id, flags, numQuestions, numAnswers, numAuthority, numAdditional,
                             q.questions, a.records, [], []));
  }
}

/** Whole packets: header, questions, and resource records in three sections. */
module MdnsPackets {
  import opened Numbers
  import opened MdnsNames
  import opened MdnsRecords

  datatype Question = Question(name: Name, code: nat, unicast: bool, class_: nat)

  datatype Packet = Packet(id: nat, flags: nat, numQuestions: nat, numAnswers: nat, numAuthority: nat, numAdditional: nat,
                           questions: seq<Question>, answers: seq<Record>, authority: seq<Record>,
                           additional: seq<Record>)

  function Header(p: Packet): (b: seq<byte>)
    ensures |b| == 12
  {
    U16(p.id) + (U16(p.flags) + (U16(p.numQuestions) + (U16(p.numAnswers)
      + (U16(p.numAuthority) + U16(p.numAdditional)))))
  }

  /** The records from index `i` on. */
  function EncodeRecords(off: nat, rs: seq<Record>, i: nat, comp: seq<Entry>): Written
    requires i <= |rs|
    decreases |rs| - i
  {
    if i == |rs| then Written([], comp)
    else
      var w := EncodeRecord(off, rs[i], comp);
      var rest := EncodeRecords(off + |w.bytes|, rs, i + 1, w.comp);
      Written(w.bytes + rest.bytes, rest.comp)
  }

  function AllRecords(p: Packet): seq<Record>
  {
    p.answers + p.authority + p.additional
  }

  /** `mdns_encode_pkt`: questions are not encoded. */
  function EncodePacket(p: Packet): seq<byte>
  {
    Header(p) + EncodeRecords(12, AllRecords(p), 0, [Entry(Root, 0)]).bytes
  }

  // ---------- parsing ----------

  datatype ParsedList = Failed | ParsedList(records: seq<Record>)

  /** The first `count` records from `off` on can be read without leaving the packet unchecked. */
  ghost predicate RecordsReadable(s: seq<byte>, off: nat, count: nat)
    decreases count
  {
    count > 0 ==>
      && RecordReadable(s, off)
      && var r := ParseRecord(s, off);
      && (r.Parsed? ==> RecordsReadable(s, off + r.size, count - 1))
  }

  ghost function ParseRecords(s: seq<byte>, off: nat, count: nat): ParsedList
    requires RecordsReadable(s, off, count)
    decreases count
  {
    if count == 0 then ParsedList([])
    else
      var r := ParseRecord(s, off);
      if r.Malformed? then Failed
      else
        var rest := ParseRecords(s, off + r.size, count - 1);
        if rest.Failed? then Failed else ParsedList([r.record] + rest.records)
  }

  ghost predicate QuestionReadable(s: seq<byte>, off: nat)
  {
    off < |s| ==> NameReadable(s, off) && off + LabelLength(s, off) + 4 <= |s|
  }

  datatype ParsedQuestion = BadQuestion | ParsedQuestion(question: Question, size: nat)

  ghost function ParseQuestion(s: seq<byte>, off: nat): ParsedQuestion
    requires QuestionReadable(s, off)
  {
    if off >= |s| then BadQuestion
    else
      var p := off + LabelLength(s, off);
      var field := Read16(s, p + 2);
      ParsedQuestion(Question(NameAt(s, off), Read16(s, p), field >= 0x8000, ParsedClass(field)), p + 4 - off)
  }

  datatype ParsedQuestions = NoQuestions | ParsedQuestions(questions: seq<Question>, end: nat)

  ghost predicate QuestionsReadable(s: seq<byte>, off: nat, count: nat)
    decreases count
  {
    count > 0 ==>
      && QuestionReadable(s, off)
      && var q := ParseQuestion(s, off);
      && (q.ParsedQuestion? ==> QuestionsReadable(s, off + q.size, count - 1))
  }

  ghost function ParseQuestions(s: seq<byte>, off: nat, count: nat): ParsedQuestions
    requires QuestionsReadable(s, off, count)
    decreases count
  {
    if count == 0 then ParsedQuestions([], off)
    else
      var q := ParseQuestion(s, off);
      if q.BadQuestion? then NoQuestions
      else
        var rest := ParseQuestions(s, off + q.size, count - 1);
        if rest.NoQuestions? then NoQuestions else ParsedQuestions([q.question] + rest.questions, rest.end)
  }

  datatype ParsedPacket = BadPacket | ParsedPacket(packet: Packet)

  ghost predicate PacketReadable(s: seq<byte>)
  {
    |s| >= 12 ==>
      && QuestionsReadable(s, 12, Read16(s, 4))
      && var q := ParseQuestions(s, 12, Read16(s, 4));
      && (q.ParsedQuestions? ==> RecordsReadable(s, q.end, Read16(s, 6)))
  }

  /** `mdns_parse_pkt`: the authority and additional sections are not parsed. */
  ghost function ParsePacket(s: seq<byte>): ParsedPacket
    requires PacketReadable(s)
  {
    if |s| < 12 then BadPacket
    else
      var q := ParseQuestions(s, 12, Read16(s, 4));
      if q.NoQuestions? then BadPacket
      else
        var r := ParseRecords(s, q.end, Read16(s, 6));
        if r.Failed? then BadPacket
        else
          ParsedPacket(Packet(Read16(s, 0), Read16(s, 2), Read16(s, 4), Read16(s, 6), Read16(s, 8), Read16(s, 10),
                              q.questions, r.records, [], []))
  }

  // ---------- the round trip ----------

  predicate AllValid(rs: seq<Record>)
  {
    forall i | 0 <= i < |rs| :: RecordValid(rs[i])
  }

  predicate AllParsable(rs: seq<Record>, i: nat, count: nat)
    requires i + count <= |rs|
  {
    forall j | i <= j < i + count :: Parsable(rs[j])
  }

  function ExpectedAll(rs: seq<Record>, i: nat, count: nat): (e: seq<Record>)
    requires i + count <= |rs|
    ensures |e| == count && forall j | 0 <= j < count :: e[j] == Expected(rs[i + j])
    decreases count
  {
    if count == 0 then [] else [Expected(rs[i])] + ExpectedAll(rs, i + 1, count - 1)
  }

  /** The lengths of the data of `count` records from index `i` on fit their fields. */
  predicate AllFit(off: nat, rs: seq<Record>, i: nat, comp: seq<Entry>, count: nat)
    requires i + count <= |rs|
    decreases count
  {
    count > 0 ==>
      && DataFits(off, rs[i], comp)
      && var w := EncodeRecord(off, rs[i], comp);
      AllFit(off + |w.bytes|, rs, i + 1, w.comp, count - 1)
  }

  /** The pointers in them that the parser follows lead below 0x4000. */
  predicate AllGood(off: nat, rs: seq<Record>, i: nat, comp: seq<Entry>, count: nat)
    requires i + count <= |rs|
    decreases count
  {
    count > 0 ==>
      && RecordGood(off, rs[i], comp)
      && var w := EncodeRecord(off, rs[i], comp);
      AllGood(off + |w.bytes|, rs, i + 1, w.comp, count - 1)
  }

  /** They do, or lead to the same names by coincidence. */
  ghost predicate AllLead(s: seq<byte>, off: nat, rs: seq<Record>, i: nat, comp: seq<Entry>, count: nat)
    requires i + count <= |rs|
    decreases count
  {
    count > 0 ==>
      && RecordLeads(s, off, rs[i], comp)
      && var w := EncodeRecord(off, rs[i], comp);
      AllLead(s, off + |w.bytes|, rs, i + 1, w.comp, count - 1)
  }

  lemma {:induction false} GoodLead(s: seq<byte>, off: nat, rs: seq<Record>, i: nat, comp: seq<Entry>, count: nat)
    requires i + count <= |rs| && AllGood(off, rs, i, comp, count)
    ensures AllLead(s, off, rs, i, comp, count)
    decreases count
  {
    hide EncodeRecord, PointerGood, Coincides, EncodeName;
    if count > 0 {
      var w := EncodeRecord(off, rs[i], comp);
      GoodLead(s, off + |w.bytes|, rs, i + 1, w.comp, count - 1);
    }
  }

  /**
   Records written one behind the other parse back one behind the other if their pointers lead to their
   names, and only then, except that one that cannot be parsed makes the parser give up.
   */
  lemma {:induction false} RecordsRoundTrip(s: seq<byte>, off: nat, rs: seq<Record>, i: nat, comp: seq<Entry>, count: nat)
    requires AllValid(rs) && i + count <= |rs| && AllFit(off, rs, i, comp, count)
    requires Has(s, off, EncodeRecords(off, rs, i, comp).bytes) && LowOk(s, comp) && Before(comp, off)
    ensures AllLead(s, off, rs, i, comp, count) ==>
      && RecordsReadable(s, off, count)
      && ParseRecords(s, off, count) == if AllParsable(rs, i, count) then ParsedList(ExpectedAll(rs, i, count)) else Failed
    ensures RecordsReadable(s, off, count) && ParseRecords(s, off, count) == ParsedList(ExpectedAll(rs, i, count)) ==>
      AllParsable(rs, i, count) && AllLead(s, off, rs, i, comp, count)
    decreases count
  {
    hide EncodeRecord, ParseRecord, RecordReadable, RecordValid, Parsable, Expected, RecordLeads, DataFits, Has,
      LowOk, Before;
    if count > 0 {
      var w := EncodeRecord(off, rs[i], comp);
      var next := off + |w.bytes|;
      var rest := EncodeRecords(next, rs, i + 1, w.comp);
      HasSplit(s, off, w.bytes, rest.bytes);
      EncodeRecordOk(s, off, rs[i], comp);
      RecordRoundTrip(s, off, rs[i], comp);
      RecordsRoundTrip(s, next, rs, i + 1, w.comp, count - 1);
      assert ExpectedAll(rs, i, count)[0] == Expected(rs[i]);
      if RecordLeads(s, off, rs[i], comp) && Parsable(rs[i]) && RecordsReadable(s, next, count - 1) {
        var more, expected := ParseRecords(s, next, count - 1), ExpectedAll(rs, i + 1, count - 1);
        if more.ParsedList? {
          assert ([Expected(rs[i])] + more.records)[1..] == more.records
            && ([Expected(rs[i])] + expected)[1..] == expected;
        }
      }
    }
  }

  /** A reply as the responder builds it. */
  predicate ReplyValid(p: Packet)
  {
    && p.id < 0x1_0000 && p.flags < 0x1_0000 && p.numQuestions == 0
    && p.numAnswers == |p.answers| < 0x1_0000 && p.numAuthority < 0x1_0000 && p.numAdditional < 0x1_0000
    && AllValid(AllRecords(p))
  }

  lemma HeaderRead(s: seq<byte>, p: Packet)
    requires ReplyValid(p) && Has(s, 0, Header(p))
    ensures |s| >= 12 && Read16(s, 0) == p.id && Read16(s, 2) == p.flags && Read16(s, 4) == p.numQuestions
    ensures Read16(s, 6) == p.numAnswers && Read16(s, 8) == p.numAuthority && Read16(s, 10) == p.numAdditional
  {
    var a, b, c, d, e, f := U16(p.id), U16(p.flags), U16(p.numQuestions), U16(p.numAnswers), U16(p.numAuthority),
      U16(p.numAdditional);
    assert Has(s, 0, a + (b + (c + (d + (e + f)))));
    hide U16, Has, Read16, AllValid;
    HasSplit(s, 0, a, b + (c + (d + (e + f))));
    HasSplit(s, 2, b, c + (d + (e + f)));
    HasSplit(s, 4, c, d + (e + f));
    HasSplit(s, 6, d, e + f);
    HasSplit(s, 8, e, f);
    Has16(s, 0, p.id);
    Has16(s, 2, p.flags);
    Has16(s, 4, p.numQuestions);
    Has16(s, 6, p.numAnswers);
    Has16(s, 8, p.numAuthority);
    Has16(s, 10, p.numAdditional);
  }

  const START := [Entry(Root, 0)]

  /** The pointers in the answers lead below 0x4000: no name that is parsed repeats one first written behind. */
  predicate AnswersGood(p: Packet)
  {
    AllGood(12, AllRecords(p), 0, START, |p.answers|)
  }

  /** They do, or lead to the same names by coincidence. */
  ghost predicate AnswersLead(p: Packet)
  {
    AllLead(EncodePacket(p), 12, AllRecords(p), 0, START, |p.answers|)
  }

  predicate AnswersFit(p: Packet)
  {
    AllFit(12, AllRecords(p), 0, START, |p.answers|)
  }

  /** Where the first `count` records from index `i` on end. */
  function EndOf(off: nat, rs: seq<Record>, i: nat, comp: seq<Entry>, count: nat): (e: nat)
    requires i + count <= |rs|
    ensures off <= e
    decreases count
  {
    if count == 0 then off
    else
      var w := EncodeRecord(off, rs[i], comp);
      EndOf(off + |w.bytes|, rs, i + 1, w.comp, count - 1)
  }

  lemma {:induction false} LowRecords(off: nat, rs: seq<Record>, i: nat, comp: seq<Entry>, count: nat)
    requires i + count <= |rs| && Low(comp) && EndOf(off, rs, i, comp, count) <= 0x4000
    ensures AllGood(off, rs, i, comp, count) && AllFit(off, rs, i, comp, count)
    decreases count
  {
    hide EncodeRecord, RecordGood, Low, DataFits;
    if count > 0 {
      var w := EncodeRecord(off, rs[i], comp);
      LowRecord(off, rs[i], comp);
      LowRecords(off + |w.bytes|, rs, i + 1, w.comp, count - 1);
    }
  }

  /** So they do when the answers end within the first 0x4000 bytes, whatever additional records follow. */
  lemma LowAnswers(p: Packet)
    requires EndOf(12, AllRecords(p), 0, START, |p.answers|) <= 0x4000
    ensures AnswersGood(p) && AnswersFit(p)
  {
    LowRecords(12, AllRecords(p), 0, START, |p.answers|);
  }

  lemma GoodAnswersLead(p: Packet)
    requires AnswersGood(p)
    ensures AnswersLead(p)
  {
    GoodLead(EncodePacket(p), 12, AllRecords(p), 0, START, |p.answers|);
  }

  /** What the parser makes of a reply that comes back: the class and the skipped data are as `Expected` says. */
  function ComesBack(p: Packet): Packet
  {
    p.(answers := ExpectedAll(p.answers, 0, |p.answers|), questions := [], authority := [], additional := [])
  }

  /**
   A reply, whatever its length, parses back to the same header and answers if and only if the pointers
   in its answers lead to their names and no answer is a TXT record with a 63-byte string.
   */
  lemma PacketRoundTrip(p: Packet)
    requires ReplyValid(p) && AnswersFit(p)
    ensures PacketReadable(EncodePacket(p)) && ParsePacket(EncodePacket(p)) == ParsedPacket(ComesBack(p)) <==>
      AnswersLead(p) && AllParsable(p.answers, 0, |p.answers|)
    ensures AnswersLead(p) && !AllParsable(p.answers, 0, |p.answers|) ==>
      PacketReadable(EncodePacket(p)) && ParsePacket(EncodePacket(p)) == BadPacket
  {
    var s, rs := EncodePacket(p), AllRecords(p);
    HasRecords(p);
    HeaderRead(s, p);
    hide Header, EncodePacket, Has, EncodeRecords, AllValid, RecordsReadable, ParseRecords, Parsable, Expected, AllFit,
      AllLead, LowOk, Before;
    assert forall j | 0 <= j < |p.answers| :: rs[j] == p.answers[j];
    assert AllParsable(rs, 0, |p.answers|) <==> AllParsable(p.answers, 0, |p.answers|);
    assert ExpectedAll(rs, 0, |p.answers|) == ExpectedAll(p.answers, 0, |p.answers|);
    var q := ParseQuestions(s, 12, 0);
    RecordsRoundTrip(s, 12, rs, 0, START, |p.answers|);
  }

  /**
   The sections stand one behind the other: answers, authority, additional. The parser reads the answers
   only, but would read all records in this order if the header said that they are answers.
   */
  lemma SectionsStand(p: Packet)
    requires ReplyValid(p) && AllFit(12, AllRecords(p), 0, START, |AllRecords(p)|)
    requires AllLead(EncodePacket(p), 12, AllRecords(p), 0, START, |AllRecords(p)|)
    requires AllParsable(AllRecords(p), 0, |AllRecords(p)|)
    ensures var s, rs := EncodePacket(p), p.answers + p.authority + p.additional;
      RecordsReadable(s, 12, |rs|) && ParseRecords(s, 12, |rs|) == ParsedList(ExpectedAll(rs, 0, |rs|))
  {
    var rs := AllRecords(p);
    HasRecords(p);
    hide EncodePacket, EncodeRecords, AllValid, RecordsReadable, ParseRecords, AllParsable, ExpectedAll, AllFit, AllLead,
      LowOk, Before, Has;
    RecordsRoundTrip(EncodePacket(p), 12, rs, 0, START, |rs|);
  }

  lemma HasRecords(p: Packet)
    ensures Has(EncodePacket(p), 0, Header(p))
    ensures Has(EncodePacket(p), 12, EncodeRecords(12, AllRecords(p), 0, START).bytes)
    ensures LowOk(EncodePacket(p), START) && Before(START, 12)
  {
  }

  // ---------- a reply that does not come back ----------

  function Fillers(n: nat): (strings: seq<seq<byte>>)
    ensures |strings| == n
    ensures forall i | 0 <= i < n :: |strings[i]| == 62 && forall k | 0 <= k < 62 :: strings[i][k] == 0x62
  {
    seq(n, _ => seq(62, _ => 0x62))
  }

  function Fill(): Record
  {
    Record(Root, 1, false, 120, TXT(Fillers(300)))
  }

  function Address(): Record
  {
    Record(Label([0x61], Root), 1, false, 120, A(1))
  }

  /** Three answers: a long TXT record, and two addresses of a name that is first written behind it. */
  function LongReply(): Packet
  {
    Packet(0, 0x8400, 0, 3, 0, 0, [], [Fill(), Address(), Address()], [], [])
  }

  /** The 300 strings of 62 bytes are 18900 bytes, and none of these is 1. */
  lemma {:induction false} FillerBytes(n: nat, i: nat)
    requires i <= n
    ensures var b := TxtBytes(Fillers(n), i);
      |b| == 63 * (n - i) && forall k | 0 <= k < |b| :: b[k] != 1
    decreases n - i
  {
    if i < n {
      FillerBytes(n, i + 1);
    }
  }

  /** How the reply is laid out: the name is written at 18923, and then pointed to from 18940. */
  lemma LongLayout()
    ensures var n := Label([0x61], Root);
      var w0 := EncodeRecord(12, Fill(), START);
      var w1 := EncodeRecord(18923, Address(), w0.comp);
      && |w0.bytes| == 18911 && w0.comp == START && |EncodeData(23, Fill(), START).bytes| == 18900
      && |w1.bytes| == 17 && w1.comp == START + [Entry(n, 18923)] && DataFits(12, Fill(), START)
      && DataFits(18923, Address(), START) && DataFits(18940, Address(), w1.comp)
      && Lookup(w1.comp, n) == 1 && !PointerGood(18940, n, w1.comp)
      && EncodeName(18940, n, w1.comp).bytes == Pointer(18923)
  {
    FillerBytes(300, 0);
    var n := Label([0x61], Root);
    assert Lookup(START, n) == 1;
    assert (START + [Entry(n, 18923)])[1..] == [Entry(n, 18923)];
    assert Lookup([Entry(n, 18923)], n) == 0;
  }

  lemma LongValid()
    ensures ReplyValid(LongReply()) && AllParsable(LongReply().answers, 0, 3)
  {
    forall i | 0 <= i < 3
      ensures RecordValid(AllRecords(LongReply())[i])
    {
    }
  }

  /** What stands where the pointer to 18923 leads, at 2539, is in the middle of a string. */
  lemma InTheMiddle()
    ensures var s := EncodePacket(LongReply()); |s| > 2539 && s[2539] != 1
  {
    hide EncodeRecord, EncodeName, TxtBytes;
    var w := EncodeRecord(12, Fill(), START);
    FillerBytes(300, 0);
    LongLayout();
    var s := EncodePacket(LongReply());
    var rest := EncodeRecords(12 + |w.bytes|, AllRecords(LongReply()), 1, w.comp);
    assert s == Header(LongReply()) + (w.bytes + rest.bytes);
    assert s[2539] == w.bytes[2527];
    DataOfFill();
  }

  lemma DataOfFill()
    ensures var w := EncodeRecord(12, Fill(), START);
      |w.bytes| == 18911 && |TxtBytes(Fillers(300), 0)| == 18900 && w.bytes[2527] == TxtBytes(Fillers(300), 0)[2516]
  {
    FillerBytes(300, 0);
    hide TxtBytes;
    var d := EncodeData(23, Fill(), START);
    assert EncodeName(12, Root, START) == Written([0], START);
    assert EncodeRecord(12, Fill(), START).bytes == [0] + (FixedPart(Fill(), |d.bytes|) + d.bytes);
  }

  /** The name of the last answer is lost: its pointer leads elsewhere, and what stands there is not the name. */
  lemma NameLost()
    ensures ReplyValid(LongReply()) && AnswersFit(LongReply()) && AllParsable(LongReply().answers, 0, 3)
    ensures !AnswersGood(LongReply()) && !AnswersLead(LongReply())
    ensures var p, s := LongReply(), EncodePacket(LongReply());
      !(PacketReadable(s) && ParsePacket(s) == ParsedPacket(ComesBack(p)))
  {
    LongValid();
    LongLayout();
    InTheMiddle();
    hide EncodeRecord, TxtBytes, EncodePacket, PacketReadable, ParsePacket, ReplyValid, Parsable, DataFits, Fillers;
    var p, s, rs := LongReply(), EncodePacket(LongReply()), AllRecords(LongReply());
    var n, w0 := Label([0x61], Root), EncodeRecord(12, Fill(), START);
    var w1 := EncodeRecord(18923, Address(), w0.comp);
    assert !Coincides(s, 18940, n, w1.comp);
    assert !RecordLeads(s, 18940, rs[2], w1.comp);
    assert !AllLead(s, 18940, rs, 2, w1.comp, 1);
    assert !AllLead(s, 18923, rs, 1, w0.comp, 2);
    assert !RecordGood(18940, rs[2], w1.comp);
    assert !AllGood(18940, rs, 2, w1.comp, 1);
    assert !AllGood(18923, rs, 1, w0.comp, 2);
    assert AllFit(18940, rs, 2, w1.comp, 1);
    assert AllFit(18923, rs, 1, w0.comp, 2);
    PacketRoundTrip(p);
  }
}

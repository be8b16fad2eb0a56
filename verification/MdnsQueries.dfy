/**
 Queries, the only input of the responder: how an asker lays them out, that they parse back, and what
 answers they get. The layout is that of section 4 of RFC 1035, with the unicast bit of section 5.4 of
 RFC 6762.
 */
module MdnsQueries {
  import opened Numbers
  import opened MdnsNames
  import opened MdnsRecords
  import opened MdnsPackets
  import opened MdnsStore
  import opened MdnsLists
  import opened MdnsResponder

  /** A question as it is asked. */
  datatype Ask = Ask(name: Name, code: nat, class_: nat, unicast: bool) {
    predicate Valid() {
      name.Valid() && code < 0x1_0000 && class_ < 0x8000
    }
  }

  predicate AllAsks(asks: seq<Ask>)
  {
    forall i | 0 <= i < |asks| :: asks[i].Valid()
  }

  // ---------- the layout ----------

  /** Behind the name: the type, and the class with the unicast bit on top. */
  function AskTail(a: Ask): (b: seq<byte>)
    ensures |b| == 4
  {
    U16(a.code) + U16(if a.unicast then a.class_ + 0x8000 else a.class_)
  }

  function EncodeAsk(off: nat, a: Ask, comp: seq<Entry>): (w: Written)
    ensures |w.bytes| >= 5 && comp <= w.comp
  {
    var n := EncodeName(off, a.name, comp);
    Written(n.bytes + AskTail(a), n.comp)
  }

  /** The questions from index `i` on. */
  function EncodeAsks(off: nat, asks: seq<Ask>, i: nat, comp: seq<Entry>): Written
    requires i <= |asks|
    decreases |asks| - i
  {
    if i == |asks| then Written([], comp)
    else
      var w := EncodeAsk(off, asks[i], comp);
      var rest := EncodeAsks(off + |w.bytes|, asks, i + 1, w.comp);
      Written(w.bytes + rest.bytes, rest.comp)
  }

  /** What an asker sends: a header, its questions, and the answers it knows. */
  datatype Query = Query(id: nat, flags: nat, asks: seq<Ask>, known: seq<Record>) {
    predicate Valid() {
      && id < 0x1_0000 && flags < 0x1_0000 && |asks| < 0x1_0000 && |known| < 0x1_0000
      && AllAsks(asks) && AllValid(known)
    }
  }

  function QueryHeader(q: Query): (b: seq<byte>)
    ensures |b| == 12
  {
    U16(q.id) + (U16(q.flags) + (U16(|q.asks|) + (U16(|q.known|) + [0, 0, 0, 0])))
  }

  function EncodeQuery(q: Query): seq<byte>
  {
    var w := EncodeAsks(12, q.asks, 0, START);
    QueryHeader(q) + (w.bytes + EncodeRecords(12 + |w.bytes|, q.known, 0, w.comp).bytes)
  }

  // ---------- where the pointers lead ----------

  ghost predicate AskLeads(s: seq<byte>, off: nat, a: Ask, comp: seq<Entry>)
  {
    PointerGood(off, a.name, comp) || Coincides(s, off, a.name, comp)
  }

  ghost predicate AsksLead(s: seq<byte>, off: nat, asks: seq<Ask>, i: nat, comp: seq<Entry>)
    requires i <= |asks|
    decreases |asks| - i
  {
    i < |asks| ==>
      && AskLeads(s, off, asks[i], comp)
      && var w := EncodeAsk(off, asks[i], comp);
      AsksLead(s, off + |w.bytes|, asks, i + 1, w.comp)
  }

  ghost predicate KnownLead(q: Query)
  {
    var w := EncodeAsks(12, q.asks, 0, START);
    AllLead(EncodeQuery(q), 12 + |w.bytes|, q.known, 0, w.comp, |q.known|)
  }

  /** The pointers in the query lead to their names. */
  ghost predicate QueryLeads(q: Query)
  {
    AsksLead(EncodeQuery(q), 12, q.asks, 0, START) && KnownLead(q)
  }

  predicate QueryFits(q: Query)
  {
    var w := EncodeAsks(12, q.asks, 0, START);
    AllFit(12 + |w.bytes|, q.known, 0, w.comp, |q.known|)
  }

  // ---------- the round trip ----------

  /** What the parser makes of a question: all of it, with the class masked as for records. */
  function ExpectedAsk(a: Ask): Question
  {
    Question(a.name, a.code, a.unicast, ParsedClass(if a.unicast then a.class_ + 0x8000 else a.class_))
  }

  function ExpectedAsks(asks: seq<Ask>, i: nat): (qs: seq<Question>)
    requires i <= |asks|
    ensures |qs| == |asks| - i && forall j | 0 <= j < |qs| :: qs[j] == ExpectedAsk(asks[i + j])
    decreases |asks| - i
  {
    if i == |asks| then [] else [ExpectedAsk(asks[i])] + ExpectedAsks(asks, i + 1)
  }

  lemma AskTailRead(s: seq<byte>, p: nat, a: Ask)
    requires a.Valid() && Has(s, p, AskTail(a))
    ensures p + 4 <= |s| && Read16(s, p) == a.code
    ensures var field := Read16(s, p + 2); field % 0x8000 == a.class_ && (field >= 0x8000 <==> a.unicast)
    ensures ParsedClass(Read16(s, p + 2)) == ExpectedAsk(a).class_
  {
    var field := if a.unicast then a.class_ + 0x8000 else a.class_;
    HasSplit(s, p, U16(a.code), U16(field));
    Has16(s, p, a.code);
    Has16(s, p + 2, field);
    assert Has(s, p + 2, U16(field));
  }

  predicate IsAsk(q: ParsedQuestion, a: Ask)
  {
    q.ParsedQuestion? && q.question == ExpectedAsk(a)
  }

  /** A question parses back, with the size that leads to what follows, if and only if its pointer leads to its name. */
  lemma QuestionRoundTrip(s: seq<byte>, off: nat, a: Ask, comp: seq<Entry>)
    requires a.Valid() && Has(s, off, EncodeAsk(off, a, comp).bytes) && LowOk(s, comp) && Before(comp, off)
    ensures var w := EncodeAsk(off, a, comp); LowOk(s, w.comp) && Before(w.comp, off + |w.bytes|)
    ensures AskLeads(s, off, a, comp) ==>
      QuestionReadable(s, off) && ParseQuestion(s, off) == ParsedQuestion(ExpectedAsk(a), |EncodeAsk(off, a, comp).bytes|)
    ensures QuestionReadable(s, off) && IsAsk(ParseQuestion(s, off), a) ==> AskLeads(s, off, a, comp)
  {
    hide LowOk, DecodesAt, EncodeName, PointerGood, Coincides, Has, AskTail, Read16, LabelLength, ParsedClass, Name.Valid;
    var n := EncodeName(off, a.name, comp);
    HasSplit(s, off, n.bytes, AskTail(a));
    EncodeNameOk(s, off, a.name, comp);
    BeforeMore(n.comp, off + |n.bytes|, off + |n.bytes| + 4);
    EncodedLength(s, off, a.name, comp);
    HasFirst(s, off, n.bytes);
    AskTailRead(s, off + |n.bytes|, a);
    if DecodesAt(s, off, a.name) {
      NameFound(s, off, a.name);
    }
  }

  /** Questions parse back one behind the other if and only if their pointers lead to their names. */
  lemma {:induction false} QuestionsRoundTrip(s: seq<byte>, off: nat, asks: seq<Ask>, i: nat, comp: seq<Entry>)
    requires AllAsks(asks) && i <= |asks|
    requires Has(s, off, EncodeAsks(off, asks, i, comp).bytes) && LowOk(s, comp) && Before(comp, off)
    ensures var w := EncodeAsks(off, asks, i, comp);
      && LowOk(s, w.comp) && Before(w.comp, off + |w.bytes|)
      && (AsksLead(s, off, asks, i, comp) ==>
            && QuestionsReadable(s, off, |asks| - i)
            && ParseQuestions(s, off, |asks| - i) == ParsedQuestions(ExpectedAsks(asks, i), off + |w.bytes|))
    ensures QuestionsReadable(s, off, |asks| - i) && IsAsks(ParseQuestions(s, off, |asks| - i), asks, i) ==>
      AsksLead(s, off, asks, i, comp)
    decreases |asks| - i
  {
    hide EncodeAsk, ParseQuestion, QuestionReadable, AskLeads, ExpectedAsk, Ask.Valid, LowOk, Before, Has;
    if i < |asks| {
      var w := EncodeAsk(off, asks[i], comp);
      var rest := EncodeAsks(off + |w.bytes|, asks, i + 1, w.comp);
      HasSplit(s, off, w.bytes, rest.bytes);
      QuestionRoundTrip(s, off, asks[i], comp);
      QuestionsRoundTrip(s, off + |w.bytes|, asks, i + 1, w.comp);
      if QuestionsReadable(s, off, |asks| - i) && IsAsks(ParseQuestions(s, off, |asks| - i), asks, i) {
        var q := ParseQuestion(s, off);
        var more := ParseQuestions(s, off + q.size, |asks| - i - 1);
        assert ExpectedAsks(asks, i)[0] == ExpectedAsk(asks[i]);
        assert ([q.question] + more.questions)[1..] == more.questions;
        assert ([ExpectedAsk(asks[i])] + ExpectedAsks(asks, i + 1))[1..] == ExpectedAsks(asks, i + 1);
      }
    }
  }

  predicate IsAsks(qs: ParsedQuestions, asks: seq<Ask>, i: nat)
    requires i <= |asks|
  {
    qs.ParsedQuestions? && qs.questions == ExpectedAsks(asks, i)
  }

  lemma QueryHeaderRead(s: seq<byte>, q: Query)
    requires q.Valid() && Has(s, 0, QueryHeader(q))
    ensures |s| >= 12 && Read16(s, 0) == q.id && Read16(s, 2) == q.flags && Read16(s, 4) == |q.asks|
    ensures Read16(s, 6) == |q.known| && Read16(s, 8) == 0 && Read16(s, 10) == 0
  {
    var a, b, c, d, e := U16(q.id), U16(q.flags), U16(|q.asks|), U16(|q.known|), [0, 0, 0, 0];
    assert Has(s, 0, a + (b + (c + (d + e))));
    assert |a| == 2 && |b| == 2 && |c| == 2 && |d| == 2;
    HasSplit(s, 0, a, b + (c + (d + e)));
    HasSplit(s, 2, b, c + (d + e));
    HasSplit(s, 4, c, d + e);
    HasSplit(s, 6, d, e);
    Has16(s, 0, q.id);
    Has16(s, 2, q.flags);
    Has16(s, 4, |q.asks|);
    Has16(s, 6, |q.known|);
    assert s[8 + 0] == e[0] && s[8 + 1] == e[1] && s[8 + 2] == e[2] && s[8 + 3] == e[3];
  }

  /** What the responder's parser makes of a query that comes through. */
  function Received(q: Query): Packet
  {
    Packet(q.id, q.flags, |q.asks|, |q.known|, 0, 0, ExpectedAsks(q.asks, 0), ExpectedAll(q.known, 0, |q.known|), [], [])
  }

  /** Where the parts of a query stand. */
  lemma QueryStands(q: Query)
    ensures var s, w := EncodeQuery(q), EncodeAsks(12, q.asks, 0, START);
      && Has(s, 0, QueryHeader(q)) && Has(s, 12, w.bytes)
      && Has(s, 12 + |w.bytes|, EncodeRecords(12 + |w.bytes|, q.known, 0, w.comp).bytes)
  {
    hide EncodeAsks, EncodeRecords, QueryHeader, Has;
    var s, header, w := EncodeQuery(q), QueryHeader(q), EncodeAsks(12, q.asks, 0, START);
    var records := EncodeRecords(12 + |w.bytes|, q.known, 0, w.comp).bytes;
    Itself(s);
    HasSplit(s, 0, header, w.bytes + records);
    HasSplit(s, 12, w.bytes, records);
  }

  lemma QuestionsPart(q: Query)
    requires q.Valid()
    ensures var s, n, end := EncodeQuery(q), |q.asks|, 12 + |EncodeAsks(12, q.asks, 0, START).bytes|;
      && (AsksLead(s, 12, q.asks, 0, START) ==>
            QuestionsReadable(s, 12, n) && ParseQuestions(s, 12, n) == ParsedQuestions(ExpectedAsks(q.asks, 0), end))
      && (QuestionsReadable(s, 12, n) && IsAsks(ParseQuestions(s, 12, n), q.asks, 0) ==>
            AsksLead(s, 12, q.asks, 0, START))
  {
    hide EncodeAsks, EncodeQuery, EncodeRecords, QuestionsReadable, ParseQuestions, AsksLead, AllAsks, AllValid, Has,
      LowOk, Before, IsAsks, ExpectedAsks, QueryHeader;
    StartIsGood(EncodeQuery(q));
    QueryStands(q);
    QuestionsRoundTrip(EncodeQuery(q), 12, q.asks, 0, START);
  }

  lemma KnownPart(q: Query)
    requires q.Valid() && QueryFits(q)
    ensures var s, k, end := EncodeQuery(q), |q.known|, 12 + |EncodeAsks(12, q.asks, 0, START).bytes|;
      && (KnownLead(q) && AllParsable(q.known, 0, k) ==>
            RecordsReadable(s, end, k) && ParseRecords(s, end, k) == ParsedList(ExpectedAll(q.known, 0, k)))
      && (RecordsReadable(s, end, k) && ParseRecords(s, end, k) == ParsedList(ExpectedAll(q.known, 0, k)) ==>
            AllParsable(q.known, 0, k) && KnownLead(q))
  {
    hide EncodeAsks, EncodeQuery, EncodeRecords, RecordsReadable, ParseRecords, AllLead, AllAsks, AllValid, Has, LowOk,
      Before, AllParsable, AllFit, QueryHeader;
    var w := EncodeAsks(12, q.asks, 0, START);
    StartIsGood(EncodeQuery(q));
    QueryStands(q);
    QuestionsRoundTrip(EncodeQuery(q), 12, q.asks, 0, START);
    RecordsRoundTrip(EncodeQuery(q), 12 + |w.bytes|, q.known, 0, w.comp, |q.known|);
  }

  lemma Itself(s: seq<byte>)
    ensures Has(s, 0, s)
  {
  }

  /**
   A query of any length comes through, with every question and every known answer, if and only if its
   pointers lead to their names and no known answer holds a string of 63 bytes.
   */
  lemma QueryRoundTrip(q: Query)
    requires q.Valid() && QueryFits(q)
    ensures PacketReadable(EncodeQuery(q)) && ParsePacket(EncodeQuery(q)) == ParsedPacket(Received(q)) <==>
      QueryLeads(q) && AllParsable(q.known, 0, |q.known|)
  {
    hide EncodeQuery, EncodeAsks, QuestionsReadable, ParseQuestions, RecordsReadable, ParseRecords, KnownLead, AsksLead,
      Parsable, Expected, Read16, QueryFits, Query.Valid;
    QueryStands(q);
    QueryHeaderRead(EncodeQuery(q), q);
    QuestionsPart(q);
    KnownPart(q);
  }

  lemma StartIsGood(s: seq<byte>)
    ensures LowOk(s, START) && Before(START, 12)
  {
  }

  lemma {:induction false} LowAsks(s: seq<byte>, off: nat, asks: seq<Ask>, i: nat, comp: seq<Entry>)
    requires i <= |asks| && Low(comp) && off + |EncodeAsks(off, asks, i, comp).bytes| <= 0x4000
    ensures AsksLead(s, off, asks, i, comp) && Low(EncodeAsks(off, asks, i, comp).comp)
    decreases |asks| - i
  {
    hide EncodeName, Low, PointerGood, Coincides, AskTail;
    if i < |asks| {
      var w := EncodeAsk(off, asks[i], comp);
      LowPointer(off, asks[i].name, comp);
      LowAsks(s, off + |w.bytes|, asks, i + 1, w.comp);
    }
  }

  lemma {:induction false} WholeEnd(off: nat, rs: seq<Record>, i: nat, comp: seq<Entry>)
    requires i <= |rs|
    ensures EndOf(off, rs, i, comp, |rs| - i) == off + |EncodeRecords(off, rs, i, comp).bytes|
    decreases |rs| - i
  {
    hide EncodeRecord;
    if i < |rs| {
      var w := EncodeRecord(off, rs[i], comp);
      WholeEnd(off + |w.bytes|, rs, i + 1, w.comp);
    }
  }

  /** They do in a query of up to 0x4000 bytes. */
  lemma LowQuery(q: Query)
    requires |EncodeQuery(q)| <= 0x4000
    ensures QueryLeads(q) && QueryFits(q)
  {
    hide EncodeAsks, EncodeRecords, AsksLead, AllLead, AllGood, AllFit, QueryHeader;
    var w := EncodeAsks(12, q.asks, 0, START);
    LowAsks(EncodeQuery(q), 12, q.asks, 0, START);
    WholeEnd(12 + |w.bytes|, q.known, 0, w.comp);
    LowRecords(12 + |w.bytes|, q.known, 0, w.comp, |q.known|);
    GoodLead(EncodeQuery(q), 12 + |w.bytes|, q.known, 0, w.comp, |q.known|);
  }

  // ---------- the answers ----------

  /** A question, not unicast, asks for the name of the record and for its type, or for any type but NSEC. */
  predicate AskedFor(asks: seq<Ask>, x: Record)
  {
    exists k | 0 <= k < |asks| ::
      && !asks[k].unicast && asks[k].name == x.name
      && (asks[k].code == TypeCode(x.data) || (asks[k].code == 255 && TypeCode(x.data) != 47))
  }

  lemma AskedReceived(q: Query, x: Stored)
    ensures Asked(ExpectedAsks(q.asks, 0), |q.asks|, x) <==> AskedFor(q.asks, x.record)
  {
    var qs := ExpectedAsks(q.asks, 0);
    assert forall k | 0 <= k < |q.asks| :: qs[k] == ExpectedAsk(q.asks[0 + k]);
    assert forall k | 0 <= k < |q.asks| ::
      qs[k].unicast == q.asks[k].unicast && qs[k].name == q.asks[k].name && qs[k].code == q.asks[k].code;
  }

  /** The answers to a query are the stored records that it asks for, less those that its known answers suppress. */
  lemma QueryAnswered(store: seq<Stored>, q: Query)
    requires q.Valid() && QueryFits(q) && QueryLeads(q) && AllParsable(q.known, 0, |q.known|)
    ensures PacketReadable(EncodeQuery(q)) && ParsePacket(EncodeQuery(q)) == ParsedPacket(Received(q))
    ensures forall x :: x in Answers(store, Received(q)) <==>
      x in store && AskedFor(q.asks, x.record) && !Suppressed(q.known, x.record)
  {
    hide Answers, Asked, AskedFor, Suppressed, Expected, EncodeQuery, ParsePacket, PacketReadable, QueryLeads, QueryFits,
      ExpectedAsks, Parsable;
    QueryRoundTrip(q);
    AnswersAreExact(store, Received(q));
    forall x: Stored
      ensures Asked(ExpectedAsks(q.asks, 0), |q.asks|, x) <==> AskedFor(q.asks, x.record)
      ensures Suppressed(ExpectedAll(q.known, 0, |q.known|), x.record) <==> Suppressed(q.known, x.record)
    {
      AskedReceived(q, x);
      ParsedSuppresses(q.known, ExpectedAll(q.known, 0, |q.known|), x.record);
    }
  }

  /** If the records can be told apart, they are those that it asks for and does not know by the rule. */
  lemma QueryAnsweredByRule(store: seq<Stored>, q: Query)
    requires q.Valid() && QueryFits(q) && QueryLeads(q) && AllParsable(q.known, 0, |q.known|)
    requires forall x | x in store :: Told(q.known, x.record)
    ensures forall x :: x in Answers(store, Received(q)) <==>
      x in store && AskedFor(q.asks, x.record) && !Known(q.known, x.record)
  {
    hide Answers, AskedFor, Suppressed, Expected, EncodeQuery, QueryLeads, QueryFits, Parsable, Told, Known;
    QueryAnswered(store, q);
    forall x | x in store
      ensures Suppressed(q.known, x.record) <==> Known(q.known, x.record)
    {
      ShortTtls(q);
      SuppressedKnown(q.known, ExpectedAll(q.known, 0, |q.known|), x.record);
      ParsedSuppresses(q.known, ExpectedAll(q.known, 0, |q.known|), x.record);
    }
  }

  lemma ShortTtls(q: Query)
    requires q.Valid()
    ensures forall i | 0 <= i < |q.known| :: q.known[i].ttl < 0x1_0000_0000
  {
    forall i | 0 <= i < |q.known|
      ensures q.known[i].ttl < 0x1_0000_0000
    {
      assert RecordValid(q.known[i]);
    }
  }

  /**
   Every speaker of a service is found: a stored PTR that is asked for is answered unless the asker has
   named its own target, whatever other targets of the name it knows; and then it is left out exactly if
   the first time it is named with at least half its time to live.
   */
  lemma EveryTargetFound(store: seq<Stored>, q: Query, x: Stored)
    requires q.Valid() && QueryFits(q) && QueryLeads(q) && AllParsable(q.known, 0, |q.known|)
    requires x in store && x.record.data.PTR? && AskedFor(q.asks, x.record)
    ensures x in Answers(store, Received(q)) <==>
      forall i | 0 <= i < |q.known| && q.known[i].name == x.record.name && q.known[i].data == PTR(x.record.data.target) ::
        q.known[i].ttl < x.record.ttl / 2
        || exists k | 0 <= k < i :: q.known[k].name == x.record.name && q.known[k].data == PTR(x.record.data.target)
  {
    hide Answers, AskedFor, Suppressed, Expected, EncodeQuery, QueryLeads, QueryFits, Parsable;
    QueryAnswered(store, q);
    PtrSuppressed(q.known, x.record);
  }

  /**
   From the bytes of the query to what the asker makes of the bytes of the reply: if no stored record
   holds a string of 63 bytes, it hears, under the identifier of its query, exactly the records that it
   asked for and that its known answers do not suppress.
   */
  lemma AskedAndHeard(store: seq<Stored>, q: Query)
    requires q.Valid() && QueryFits(q) && QueryLeads(q) && AllParsable(q.known, 0, |q.known|)
    requires forall x | x in store :: RecordValid(x.record) && Parsable(x.record)
    requires |Answers(store, Received(q))| < 0x1_0000
    requires AnswersLead(ReplyTo(store, Received(q))) && AnswersFit(ReplyTo(store, Received(q)))
    ensures var s := EncodePacket(ReplyTo(store, Received(q)));
      && PacketReadable(s) && ParsePacket(s).ParsedPacket?
      && ParsePacket(s).packet.id == q.id
      && forall r: Record :: r in ParsePacket(s).packet.answers <==>
        exists x :: x in store && AskedFor(q.asks, x.record) && !Suppressed(q.known, x.record) && r == Expected(x.record)
  {
    hide Answers, AskedFor, Suppressed, Expected, EncodeQuery, QueryLeads, QueryFits, Parsable, EncodePacket, ParsePacket,
      PacketReadable, AnswersLead, AnswersFit, RecordValid, Query.Valid;
    HeaderOf(q);
    QueryAnswered(store, q);
    ReplyReachesAsker(store, Received(q));
    var ans, s := Answers(store, Received(q)), EncodePacket(ReplyTo(store, Received(q)));
    assert ParsePacket(s).ParsedPacket?;
    var heard := ParsePacket(s).packet.answers;
    forall r: Record
      ensures r in heard <==>
        exists x :: x in store && AskedFor(q.asks, x.record) && !Suppressed(q.known, x.record) && r == Expected(x.record)
    {
      if r in heard {
        var i :| 0 <= i < |heard| && heard[i] == r;
        assert ans[i] in ans && r == Expected(ans[i].record);
      }
      if x :| x in store && AskedFor(q.asks, x.record) && !Suppressed(q.known, x.record) && r == Expected(x.record) {
        assert x in ans;
        var i :| 0 <= i < |ans| && ans[i] == x;
        assert heard[i] == r;
      }
    }
  }

  lemma HeaderOf(q: Query)
    requires q.Valid()
    ensures Received(q).id == q.id < 0x1_0000
  {
  }
}

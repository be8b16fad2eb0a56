/**
 How the mDNS responder answers a query: the stored records that match, less those the asker knows
 already, and everything related to them in the additional section.
 */
module MdnsResponder {
  import opened MdnsNames
  import opened MdnsRecords
  import opened MdnsPackets
  import opened MdnsStore
  import opened MdnsLists

  // ---------- related records ----------

  /** What a reply to `x` should also carry, as section 12 of RFC 6763 has it. */
  predicate RelatesTo(x: Stored, y: Stored)
  {
    match x.record.data
    case PTR(target) => Selects(y, target, RR_ANY)
    case SRV(_, _, _, host) => Selects(y, host, RR_ANY) || Selects(y, x.record.name, RR_TXT)
    case A(_) => Selects(y, x.record.name, RR_NSEC)
    case AAAA(_) => Selects(y, x.record.name, RR_NSEC)
    case _ => false
  }

  /** The same by the numbers of the types: 12, 33, 1 and 28 bring along any but NSEC, TXT and NSEC of a name. */
  lemma RelatesToIs(x: Stored, y: Stored)
    ensures var d, name, t := x.record.data, y.record.name, TypeCode(y.record.data);
      RelatesTo(x, y) <==>
        || (d.PTR? && name == d.target && t != 47)
        || (d.SRV? && ((name == d.host && t != 47) || (name == x.record.name && t == 16)))
        || ((d.A? || d.AAAA?) && name == x.record.name && t == 47)
  {
  }

  /** The related records of a store, in the order they are added. */
  function Related(store: seq<Stored>, x: Stored): (r: seq<Stored>)
    ensures forall y :: y in r <==> y in store && RelatesTo(x, y)
  {
    match x.record.data
    case PTR(target) => Matching(store, target, RR_ANY)
    case SRV(_, _, _, host) => Matching(store, host, RR_ANY) + Matching(store, x.record.name, RR_TXT)
    case A(_) => Matching(store, x.record.name, RR_NSEC)
    case AAAA(_) => Matching(store, x.record.name, RR_NSEC)
    case _ => []
  }

  predicate Subset(s: seq<Stored>, t: seq<Stored>)
  {
    forall x | x in s :: x in t
  }

  lemma {:induction false} DistinctCount(s: seq<Stored>)
    requires Distinct(s)
    ensures |set x | x in s| == |s|
  {
    if |s| > 0 {
      var init, last := s[..|s| - 1], s[|s| - 1];
      DistinctCount(init);
      assert (set x | x in s) == (set x | x in init) + {last};
    }
  }

  lemma {:induction false} Cardinal(s: seq<Stored>)
    ensures |set x | x in s| <= |s|
  {
    if |s| > 0 {
      var init, last := s[..|s| - 1], s[|s| - 1];
      Cardinal(init);
      assert (set x | x in s) == (set x | x in init) + {last};
    }
  }

  /** A list without duplicates from a store is no longer than the store. */
  lemma NoLonger(s: seq<Stored>, store: seq<Stored>)
    requires Distinct(s) && Subset(s, store)
    ensures |s| <= |store|
  {
    DistinctCount(s);
    Cardinal(store);
    var a, b := set x | x in s, set x | x in store;
    assert a <= b;
    SubsetSize(a, b);
  }

  lemma {:induction false} SubsetSize(a: set<Stored>, b: set<Stored>)
    requires a <= b
    ensures |a| <= |b|
  {
    if a != {} {
      var x :| x in a;
      SubsetSize(a - {x}, b - {x});
    }
  }

  /** The list after the related records of `from[..i]` have been added to `list`. */
  function Gathered(store: seq<Stored>, from: seq<Stored>, i: nat, list: seq<Stored>): seq<Stored>
    requires i <= |from|
  {
    if i == 0 then list else AppendAll(Gathered(store, from, i - 1, list), Related(store, from[i - 1]))
  }

  /**
   The list after the related records of its own elements from index `i` on have been added to it,
   the new elements included. It ends because duplicates are refused and the store is finite.
   */
  function Grown(store: seq<Stored>, list: seq<Stored>, i: nat): seq<Stored>
    requires Distinct(list) && Subset(list, store)
    decreases |store| - i
  {
    NoLonger(list, store);
    if i >= |list| then list
    else
      var more := AppendAll(list, Related(store, list[i]));
      AppendAllFacts(list, Related(store, list[i]));
      Grown(store, more, i + 1)
  }

  /** Everything in `base` has its related records in `list`. */
  predicate Covers(store: seq<Stored>, list: seq<Stored>, base: seq<Stored>)
  {
    forall x, y | x in base && y in store && RelatesTo(x, y) :: y in list
  }

  lemma {:induction false} GatheredFacts(store: seq<Stored>, from: seq<Stored>, i: nat, list: seq<Stored>)
    requires i <= |from| && Distinct(list) && Subset(list, store)
    ensures var r := Gathered(store, from, i, list);
      Distinct(r) && Subset(r, store) && list <= r && Covers(store, r, from[..i])
  {
    hide RelatesTo, AppendAll, Related;
    if i > 0 {
      GatheredFacts(store, from, i - 1, list);
      AppendAllFacts(Gathered(store, from, i - 1, list), Related(store, from[i - 1]));
      assert from[..i] == from[..i - 1] + [from[i - 1]];
    }
  }

  /** Nothing is gathered that is not related to what was gone through. */
  lemma {:induction false} GatheredOnly(store: seq<Stored>, from: seq<Stored>, i: nat, list: seq<Stored>)
    requires i <= |from| && Distinct(list) && Subset(list, store)
    ensures forall y | y in Gathered(store, from, i, list) ::
      y in list || exists k | 0 <= k < i :: RelatesTo(from[k], y)
  {
    hide RelatesTo, AppendAll;
    if i > 0 {
      GatheredOnly(store, from, i - 1, list);
      GatheredFacts(store, from, i - 1, list);
      AppendAllFacts(Gathered(store, from, i - 1, list), Related(store, from[i - 1]));
    }
  }

  lemma {:induction false} GrownFacts(store: seq<Stored>, list: seq<Stored>, i: nat)
    requires Distinct(list) && Subset(list, store) && i <= |list| && Covers(store, list, list[..i])
    ensures var r := Grown(store, list, i);
      Distinct(r) && Subset(r, store) && list <= r && Covers(store, r, r)
    decreases |store| - i
  {
    hide RelatesTo;
    NoLonger(list, store);
    if i < |list| {
      var more := AppendAll(list, Related(store, list[i]));
      AppendAllFacts(list, Related(store, list[i]));
      assert more[..i] == list[..i] && more[i] == list[i];
      assert forall x :: x in more[..i + 1] <==> x in more[..i] || x == more[i];
      GrownFacts(store, more, i + 1);
    } else {
      assert list[..i] == list;
    }
  }

  /** A set closed under "related", within the store. */
  ghost predicate Closed(store: seq<Stored>, all: iset<Stored>)
  {
    forall x, y | x in all && y in store && RelatesTo(x, y) :: y in all
  }

  lemma {:induction false} GrownLeast(store: seq<Stored>, list: seq<Stored>, i: nat, all: iset<Stored>)
    requires Distinct(list) && Subset(list, store) && i <= |list|
    requires Closed(store, all) && forall x | x in list :: x in all
    ensures forall x | x in Grown(store, list, i) :: x in all
    decreases |store| - i
  {
    hide RelatesTo;
    NoLonger(list, store);
    if i < |list| {
      var more := AppendAll(list, Related(store, list[i]));
      AppendAllFacts(list, Related(store, list[i]));
      GrownLeast(store, more, i + 1, all);
    }
  }

  /** The additional section for some answers: two sweeps, as the responder makes them. */
  function Additional(store: seq<Stored>, answers: seq<Stored>): seq<Stored>
  {
    var first := Gathered(store, answers, |answers|, []);
    GatheredFacts(store, answers, |answers|, []);
    Grown(store, first, 0)
  }

  /**
   The additional section holds no record twice, everything related to an answer, and everything
   related to its own records; and it is the least such set.
   */
  lemma AdditionalIsLeastClosure(store: seq<Stored>, answers: seq<Stored>)
    ensures var r := Additional(store, answers);
      Distinct(r) && Subset(r, store) && Covers(store, r, answers) && Covers(store, r, r)
    ensures forall all: iset<Stored> |
      Closed(store, all) && (forall x, y | x in answers && y in store && RelatesTo(x, y) :: y in all) ::
      forall x | x in Additional(store, answers) :: x in all
  {
    hide RelatesTo;
    var first := Gathered(store, answers, |answers|, []);
    GatheredFacts(store, answers, |answers|, []);
    GatheredOnly(store, answers, |answers|, []);
    assert answers[..|answers|] == answers;
    GrownFacts(store, first, 0);
    forall all: iset<Stored> |
      Closed(store, all) && (forall x, y | x in answers && y in store && RelatesTo(x, y) :: y in all)
      ensures forall x | x in Additional(store, answers) :: x in all
    {
      GrownLeast(store, first, 0, all);
    }
  }

  // ---------- answers ----------

  /** The records collected for the first `i` questions; unicast questions are skipped. */
  function Collected(store: seq<Stored>, qs: seq<Question>, i: nat): seq<Stored>
    requires i <= |qs|
  {
    if i == 0 then []
    else if qs[i - 1].unicast then Collected(store, qs, i - 1)
    else AppendAll(Collected(store, qs, i - 1), Matching(store, qs[i - 1].name, qs[i - 1].code))
  }

  predicate Asked(qs: seq<Question>, i: nat, x: Stored)
    requires i <= |qs|
  {
    exists k | 0 <= k < i :: !qs[k].unicast && Selects(x, qs[k].name, qs[k].code)
  }

  function Answers(store: seq<Stored>, query: Packet): seq<Stored>
  {
    Unsuppressed(Collected(store, query.questions, |query.questions|), query.answers)
  }

  lemma {:induction false} CollectedMembers(store: seq<Stored>, qs: seq<Question>, i: nat)
    requires i <= |qs|
    ensures Distinct(Collected(store, qs, i))
    ensures forall x :: x in Collected(store, qs, i) <==> x in store && Asked(qs, i, x)
  {
    hide Selects;
    if i > 0 {
      CollectedMembers(store, qs, i - 1);
      var q := qs[i - 1];
      forall x ensures Asked(qs, i, x) <==> Asked(qs, i - 1, x) || (!q.unicast && Selects(x, q.name, q.code)) {
      }
      AppendAllFacts(Collected(store, qs, i - 1), Matching(store, q.name, q.code));
    }
  }

  /** The answers are, without duplicates, the stored records asked for and not known to the asker. */
  lemma AnswersAreExact(store: seq<Stored>, query: Packet)
    ensures Distinct(Answers(store, query))
    ensures forall x :: x in Answers(store, query) <==>
      x in store && Asked(query.questions, |query.questions|, x) && !Suppressed(query.answers, x.record)
  {
    hide Asked, Suppressed;
    CollectedMembers(store, query.questions, |query.questions|);
    UnsuppressedMembers(Collected(store, query.questions, |query.questions|), query.answers);
  }

  /** If the asker's records can be told apart, the answers are the stored records asked for that it does not know. */
  lemma AnswersByRule(store: seq<Stored>, query: Packet, sent: seq<Record>)
    requires |query.answers| == |sent|
    requires forall i | 0 <= i < |sent| :: query.answers[i] == Expected(sent[i]) && sent[i].ttl < 0x1_0000_0000
    requires forall x | x in store :: Told(sent, x.record)
    ensures forall x :: x in Answers(store, query) <==>
      x in store && Asked(query.questions, |query.questions|, x) && !Known(sent, x.record)
  {
    hide Answers, Asked, Suppressed, Known, Told, Expected;
    AnswersAreExact(store, query);
    forall x | x in store
      ensures Suppressed(query.answers, x.record) <==> Known(sent, x.record)
    {
      SuppressedKnown(sent, query.answers, x.record);
    }
  }

  lemma {:induction false} AppendAllToNone(xs: seq<Stored>)
    requires Distinct(xs)
    ensures AppendAll([], xs) == xs
  {
    if |xs| > 0 {
      AppendAllToNone(xs[..|xs| - 1]);
      AppendAllFacts([], xs[..|xs| - 1]);
      forall i | 0 <= i < |xs| - 1
        ensures xs[i] != xs[|xs| - 1]
      {
      }
    }
  }

  lemma {:induction false} MatchingDistinct(s: seq<Stored>, name: Name, code: nat)
    requires Distinct(s)
    ensures Distinct(Matching(s, name, code))
    decreases |s|
  {
    hide Selects;
    if |s| > 0 {
      var init, last := s[..|s| - 1], s[|s| - 1];
      MatchingDistinct(init, name, code);
      assert last !in init by {
        forall i | 0 <= i < |init|
          ensures init[i] != last
        {
          assert s[i] != s[|s| - 1];
        }
      }
    }
  }

  /** The answer to one question is the matching records of the store in the order they were added, less the known ones. */
  lemma OneQuestionInOrder(store: seq<Stored>, query: Packet)
    requires Distinct(store) && |query.questions| == 1 && !query.questions[0].unicast
    ensures Answers(store, query) ==
      Unsuppressed(Matching(store, query.questions[0].name, query.questions[0].code), query.answers)
  {
    hide Unsuppressed, Matching, AppendAll;
    var q := query.questions[0];
    MatchingDistinct(store, q.name, q.code);
    AppendAllToNone(Matching(store, q.name, q.code));
    assert Collected(store, query.questions, 0) == [];
  }

  // ---------- from the query to the asker ----------

  function Records(s: seq<Stored>): (r: seq<Record>)
    ensures |r| == |s| && forall i | 0 <= i < |s| :: r[i] == s[i].record
  {
    seq(|s|, i requires 0 <= i < |s| => s[i].record)
  }

  /** The reply to a query, as a packet. */
  function ReplyTo(store: seq<Stored>, query: Packet): Packet
  {
    var ans := Answers(store, query);
    var add := Additional(store, ans);
    Packet(query.id, RESPONSE_FLAGS, 0, |ans| % 0x1_0000, 0, |add| % 0x1_0000, [], Records(ans), [], Records(add))
  }

  lemma ReplyIsValid(store: seq<Stored>, query: Packet)
    requires query.id < 0x1_0000 && |Answers(store, query)| < 0x1_0000
    requires forall x | x in store :: RecordValid(x.record)
    ensures ReplyValid(ReplyTo(store, query))
  {
    hide Answers, Additional, RecordValid, RelatesTo, Selects, Asked, Suppressed;
    AnswersAreExact(store, query);
    var ans := Answers(store, query);
    AdditionalIsLeastClosure(store, ans);
    var add := Additional(store, ans);
    forall i | 0 <= i < |Records(ans) + [] + Records(add)|
      ensures RecordValid((Records(ans) + [] + Records(add))[i])
    {
      assert (Records(ans) + [] + Records(add))[i] == if i < |ans| then ans[i].record else add[i - |ans|].record;
    }
  }

  /** What the asker's parser makes of the encoded reply: the answers, in order, unless one of them cannot be parsed. */
  lemma ReplyReachesAsker(store: seq<Stored>, query: Packet)
    requires query.id < 0x1_0000 && |Answers(store, query)| < 0x1_0000
    requires forall x | x in store :: RecordValid(x.record)
    requires AnswersLead(ReplyTo(store, query)) && AnswersFit(ReplyTo(store, query))
    ensures var p, s := ReplyTo(store, query), EncodePacket(ReplyTo(store, query));
      var n := |Answers(store, query)|;
      && PacketReadable(s)
      && (ParsePacket(s).ParsedPacket? <==> forall x | x in Answers(store, query) :: Parsable(x.record))
      && (ParsePacket(s).ParsedPacket? ==>
            && ParsePacket(s).packet.id == query.id && |ParsePacket(s).packet.answers| == n
            && forall i | 0 <= i < n :: ParsePacket(s).packet.answers[i] == Expected(Answers(store, query)[i].record))
  {
    hide Answers, Additional, RecordValid, Parsable, Expected, EncodePacket, ParsePacket, PacketReadable,
      AnswersLead, AnswersFit;
    ReplyIsValid(store, query);
    PacketRoundTrip(ReplyTo(store, query));
    var ans := Answers(store, query);
    assert AllParsable(Records(ans), 0, |ans|) <==> forall x | x in ans :: Parsable(x.record) by {
      if AllParsable(Records(ans), 0, |ans|) {
        forall i | 0 <= i < |ans|
          ensures Parsable(ans[i].record)
        {
          assert Parsable(Records(ans)[i]);
        }
      }
    }
  }

  // ---------- the responder ----------

  ghost predicate Apart(a: seq<RrNode>, b: seq<RrNode>)
  {
    forall i, j | 0 <= i < |a| && 0 <= j < |b| :: a[i] != b[j]
  }

  lemma MatchingNone(groups: seq<Group>, added: seq<Stored>, name: Name, code: nat)
    requires Indexed(groups, added) && !HasGroup(groups, name)
    ensures Matching(added, name, code) == []
  {
    FirstMember(Matching(added, name, code));
  }

  /** What looking at record number `i` of a group does to a list. */
  lemma PopulateStep(s: seq<Stored>, rr: seq<Stored>, i: nat, name: Name, code: nat)
    requires i < |rr|
    ensures AppendAll(s, Matching(rr[..i + 1], name, code)) ==
      var before := AppendAll(s, Matching(rr[..i], name, code));
      if Selects(rr[i], name, code) then AppendUnique(before, rr[i]) else before
  {
    var m := Matching(rr[..i], name, code);
    assert rr[..i + 1][..i] == rr[..i];
    assert (m + [rr[i]])[..|m + [rr[i]]| - 1] == m;
  }

  lemma OfGroup(groups: seq<Group>, added: seq<Stored>, i: nat, code: nat)
    requires Indexed(groups, added) && i < |groups|
    ensures Matching(groups[i].rr, groups[i].name, code) == Matching(added, groups[i].name, code)
    ensures forall k | 0 <= k < |groups[i].rr| :: groups[i].rr[k].record.name == groups[i].name
  {
    MatchingInGroup(added, groups[i].name, code);
  }

  lemma SelectsMeans(x: Stored, name: Name, code: nat)
    ensures Selects(x, name, code) <==>
      !(code == RR_ANY && TypeCode(x.record.data) == RR_NSEC) && (code == TypeCode(x.record.data) || code == RR_ANY)
      && name == x.record.name
  {
  }

  lemma AppendNone(s: seq<Stored>)
    ensures AppendAll(s, []) == s
  {
  }

  lemma MatchingOfNone(s: seq<Stored>, name: Name, code: nat)
    ensures Matching(s[..0], name, code) == []
  {
  }

  /** `populate_answers`: adds the stored records for a name and type to a list, and counts the new ones. */
  method Populate(server: Store, list: RrList, name: Name, code: nat) returns (num: nat)
    requires server.Valid() && list.Valid()
    modifies list, list.spine
    ensures list.Valid() && list.Extended()
    ensures list.Items() == AppendAll(old(list.Items()), Matching(server.added, name, code))
    ensures num == |list.spine| - |old(list.spine)|
  {
    hide Indexed, Matching, AppendAll, AppendUnique, HasGroup, RrList.Valid, Selects;
    num := 0;
    var g := server.Find(name);
    if g >= |server.groups| {
      MatchingNone(server.groups, server.added, name, code);
      AppendNone(list.Items());
      return;
    }
    var rr := server.groups[g].rr;
    OfGroup(server.groups, server.added, g, code);
    MatchingOfNone(rr, name, code);
    AppendNone(list.Items());
    var n := 0;
    while n < |rr|
      invariant 0 <= n <= |rr| && list.Valid() && list.Extended()
      invariant list.Items() == AppendAll(old(list.Items()), Matching(rr[..n], name, code))
      invariant num == |list.spine| - |old(list.spine)|
    {
      PopulateStep(old(list.Items()), rr, n, name, code);
      var t := TypeCode(rr[n].record.data);
      SelectsMeans(rr[n], name, code);
      if !(code == RR_ANY && t == RR_NSEC) && (code == t || code == RR_ANY) && name == rr[n].record.name {
        var more := list.Append(rr[n]);
        num := num + more;
      }
      n := n + 1;
    }
    assert rr[..n] == rr;
  }

  /** A sweep over a list, or over the list it adds to, has come to index `i`. */
  ghost predicate Sweeping(store: seq<Stored>, own: bool, from: seq<Stored>, before: seq<Stored>, i: nat, now: seq<Stored>)
  {
    && Distinct(before) && Subset(before, store) && Distinct(now) && Subset(now, store)
    && if own then Grown(store, now, i) == Grown(store, before, 0)
       else i <= |from| && now == Gathered(store, from, i, before)
  }

  lemma SweepStart(store: seq<Stored>, own: bool, from: seq<Stored>, list: seq<Stored>)
    requires Distinct(list) && Subset(list, store)
    ensures Sweeping(store, own, from, list, 0, list)
  {
  }

  lemma SweepStep(store: seq<Stored>, own: bool, from: seq<Stored>, before: seq<Stored>, i: nat, now: seq<Stored>)
    requires Sweeping(store, own, from, before, i, now) && i < |if own then now else from|
    ensures i < |if own then store else from|
    ensures Sweeping(store, own, from, before, i + 1, AppendAll(now, Related(store, (if own then now else from)[i])))
  {
    hide AppendAll, Related, Distinct, Subset;
    NoLonger(now, store);
    var x := (if own then now else from)[i];
    AppendAllFacts(now, Related(store, x));
    StillFromStore(store, now, x);
  }

  lemma SweepEnd(store: seq<Stored>, own: bool, from: seq<Stored>, before: seq<Stored>, now: seq<Stored>)
    requires var i := |if own then now else from|; Sweeping(store, own, from, before, i, now)
    ensures Distinct(before) && Subset(before, store)
    ensures now == if own then Grown(store, before, 0) else Gathered(store, from, |from|, before)
  {
    hide AppendAll, Related;
  }

  lemma StillFromStore(store: seq<Stored>, list: seq<Stored>, x: Stored)
    requires Distinct(list) && Subset(list, store)
    ensures var more := AppendAll(list, Related(store, x)); Distinct(more) && Subset(more, store)
  {
    AppendAllFacts(list, Related(store, x));
  }

  lemma Count16(length: nat, n: nat)
    ensures (length % 0x1_0000 + n) % 0x1_0000 == (length + n) % 0x1_0000
  {
  }

  lemma Count16Less(length: nat, n: nat)
    requires n <= length
    ensures (length % 0x1_0000 - n) % 0x1_0000 == (length - n) % 0x1_0000
  {
  }

  lemma StillApart(a: seq<RrNode>, before: seq<RrNode>, b: seq<RrNode>)
    requires Within(a, before) && Apart(before, b)
    ensures Apart(a, b)
  {
    forall i, j | 0 <= i < |a| && 0 <= j < |b|
      ensures a[i] != b[j]
    {
      assert a[i] in before;
    }
  }

  lemma CollectedNone(store: seq<Stored>, qs: seq<Question>)
    ensures Collected(store, qs, 0) == []
  {
  }

  lemma CollectedStep(store: seq<Stored>, qs: seq<Question>, i: nat)
    requires i < |qs|
    ensures Collected(store, qs, i + 1) == if qs[i].unicast then Collected(store, qs, i)
      else AppendAll(Collected(store, qs, i), Matching(store, qs[i].name, qs[i].code))
  {
  }

  const RESPONSE_FLAGS: nat := 0x8000 + 0x400  // response, authoritative

  /** Not a response, and operation code 0. */
  predicate StandardQuery(flags: nat)
  {
    flags / 0x8000 % 2 == 0 && flags / 0x800 % 0x10 == 0
  }

  /** Of the 16 flag bits the top five are clear. */
  lemma StandardQueryIs(flags: nat)
    requires flags < 0x1_0000
    ensures StandardQuery(flags) <==> flags < 0x800
  {
  }

  class Reply {
    var id: nat
    var flags: nat
    var numAnswers: nat     // 16 bits
    var numAdditional: nat  // 16 bits
    const ans: RrList
    const add: RrList

    /** The lists share no node and the counts are the lengths, in 16 bits. */
    ghost predicate Valid()
      reads this, ans, add, ans.spine, add.spine
    {
      && ans != add && ans.Valid() && add.Valid() && Apart(ans.spine, add.spine)
      && numAnswers == |ans.spine| % 0x1_0000 && numAdditional == |add.spine| % 0x1_0000
    }

    constructor ()
      ensures Valid() && ans.spine == [] && add.spine == []
      ensures fresh(ans) && fresh(add)
    {
      ans := new RrList();
      add := new RrList();
      id, flags, numAnswers, numAdditional := 0, 0, 0, 0;
    }

    lemma NextOf(list: RrList, i: nat)
      requires Valid() && (list == ans || list == add) && i < |list.spine|
      ensures list.spine[i].next == if i + 1 < |list.spine| then list.spine[i + 1] else null
    {
      list.NextOf(i);
    }

    lemma HeadOf(list: RrList)
      requires Valid() && (list == ans || list == add)
      ensures list.head == if |list.spine| == 0 then null else list.spine[0]
    {
    }

    /** Adds the records for a name and type to the additional list and counts the new ones. */
    method AddMatching(server: Store, name: Name, code: nat)
      requires Valid() && server.Valid()
      modifies `numAdditional, add, add.spine
      ensures Valid() && add.Extended() && ans.spine == old(ans.spine)
      ensures add.Items() == AppendAll(old(add.Items()), Matching(server.added, name, code))
    {
      hide Matching, AppendAll, Linked, Indexed, Elements;
      var n := Populate(server, add, name, code);
      Count16(|old(add.spine)|, n);
      numAdditional := (numAdditional + n) % 0x1_0000;
    }

    /** The body of `add_related_rr`'s loop. */
    method AddOne(server: Store, x: Stored)
      requires Valid() && server.Valid()
      modifies `numAdditional, add, add.spine
      ensures Valid() && add.Extended() && ans.spine == old(ans.spine)
      ensures add.Items() == AppendAll(old(add.Items()), Related(server.added, x))
    {
      hide Matching, AppendAll, Linked, Indexed, Elements, Apart, RrList.Valid;
      AppendNone(add.Items());
      match x.record.data {
        case PTR(target) =>
          AddMatching(server, target, RR_ANY);
        case SRV(_, _, _, host) =>
          AppendAllConcat(add.Items(), Matching(server.added, host, RR_ANY), Matching(server.added, x.record.name, RR_TXT));
          AddMatching(server, host, RR_ANY);
          AddMatching(server, x.record.name, RR_TXT);
        case A(_) =>
          AddMatching(server, x.record.name, RR_NSEC);
        case AAAA(_) =>
          AddMatching(server, x.record.name, RR_NSEC);
        case _ =>
      }
    }

    /**
     `add_related_rr`: adds to the additional list what is related to a list of the reply. The list
     may be the additional list itself, which then grows while it is being walked.
     */
    method AddRelated(server: Store, list: RrList)
      requires Valid() && server.Valid() && (list == ans || list == add)
      requires Distinct(add.Items()) && Subset(add.Items(), server.added)
      modifies `numAdditional, add, add.spine
      ensures Valid() && add.Extended() && ans.spine == old(ans.spine)
      ensures add.Items() == if list == add then Grown(server.added, old(add.Items()), 0)
        else Gathered(server.added, ans.Items(), |ans.Items()|, old(add.Items()))
    {
      hide Sweeping, Grown, Gathered, AppendAll, Related, Apart, Linked, Elements, Indexed, RrList.Valid;
      ghost var own, store, before, from := list == add, server.added, add.Items(), ans.Items();
      ghost var i := 0;
      var e := list.head;
      HeadOf(list);
      SweepStart(store, own, from, before);
      while e != null
        invariant 0 <= i <= |list.spine| && e == (if i < |list.spine| then list.spine[i] else null)
        invariant Valid() && add.Extended() && ans.spine == old(ans.spine)
        invariant Sweeping(store, own, from, before, i, add.Items())
        decreases |if own then store else from| - i
      {
        SweepStep(store, own, from, before, i, add.Items());
        AddOne(server, e.e);
        NextOf(list, i);
        e := e.next;
        i := i + 1;
      }
      SweepEnd(store, own, from, before, add.Items());
    }

    /** `mdns_init_reply`. */
    method Init(id: nat)
      requires Valid()
      modifies this, ans, add
      ensures Valid() && ans.spine == [] && add.spine == []
      ensures this.id == id && flags == RESPONSE_FLAGS == 0x8400
    {
      this.id, flags, numAnswers, numAdditional := id, RESPONSE_FLAGS, 0, 0;
      ans.Clear();
      add.Clear();
    }

    /** The loop over the questions. */
    method Collect(server: Store, qs: seq<Question>)
      requires Valid() && server.Valid() && ans.spine == []
      modifies `numAnswers, ans, ans.spine
      ensures Valid() && add.spine == old(add.spine)
      ensures ans.Items() == Collected(server.added, qs, |qs|) && ans.Extended()
    {
      hide Collected, Matching, AppendAll, Linked, Indexed;
      ghost var store := server.added;
      CollectedNone(store, qs);
      for i := 0 to |qs|
        invariant Valid() && ans.Extended() && add.spine == old(add.spine)
        invariant ans.Items() == Collected(store, qs, i)
      {
        CollectedStep(store, qs, i);
        if qs[i].unicast {
          continue;
        }
        var n := Populate(server, ans, qs[i].name, qs[i].code);
        Count16(|ans.spine| - n, n);
        numAnswers := (numAnswers + n) % 0x1_0000;
      }
    }

    /** Removes from the answers those the asker knows already. */
    method Discard(known: seq<Record>)
      requires Valid()
      modifies `numAnswers, ans, ans.spine
      ensures Valid() && add.spine == old(add.spine)
      ensures ans.Items() == Unsuppressed(old(ans.Items()), known)
    {
      hide Unsuppressed, Linked, Elements;
      var removed := ans.RemoveKnown(known);
      Count16Less(|old(ans.spine)|, removed);
      numAnswers := (numAnswers - removed) % 0x1_0000;
      StillApart(ans.spine, old(ans.spine), add.spine);
    }

    /** `process_mdns_pkt`. */
    method ProcessPacket(server: Store, query: Packet) returns (result: nat)
      requires Valid() && server.Valid() && query.numQuestions == |query.questions|
      modifies this, ans, add, ans.spine, add.spine
      ensures Valid()
      ensures StandardQuery(query.flags) ==>
        id == query.id && flags == RESPONSE_FLAGS && ans.Items() == Answers(server.added, query)
        && add.Items() == Additional(server.added, ans.Items()) && result == numAnswers
      ensures !StandardQuery(query.flags) ==>
        result == 0 && id == old(id) && flags == old(flags)
        && ans.Items() == old(ans.Items()) && add.Items() == old(add.Items())
    {
      hide Collected, Unsuppressed, Gathered, Grown, Apart, Linked, Indexed, Elements;
      if !StandardQuery(query.flags) {
        return 0;
      }
      Init(query.id);
      Collect(server, query.questions);
      Discard(query.answers);
      ghost var store := server.added;
      GatheredFacts(store, ans.Items(), |ans.Items()|, []);
      AddRelated(server, ans);
      AddRelated(server, add);
      result := numAnswers;
    }
  }
}

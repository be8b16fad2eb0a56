/** The linked lists of records in a reply, and the removal of known answers from one (section 7.1 of RFC 6762). */
module MdnsLists {
  import opened MdnsNames
  import opened MdnsRecords
  import opened MdnsStore

  // ---------- known answers ----------

  /** Same type and name, and for PTR the same target. */
  predicate Matches(known: Record, x: Record)
  {
    && TypeCode(known.data) == TypeCode(x.data) && known.name == x.name
    && (x.data.PTR? ==> known.data.PTR? && known.data.target == x.data.target)
  }

  predicate HasHalfTtl(known: Record, x: Record)
  {
    known.ttl >= x.ttl / 2
  }

  /** `rr_entry_match`: the first known answer that matches, or the number of known answers. */
  method FirstMatch(known: seq<Record>, x: Record) returns (i: nat)
    ensures i <= |known| && (i < |known| ==> Matches(known[i], x))
    ensures forall k | 0 <= k < i :: !Matches(known[k], x)
  {
    i := 0;
    while i < |known| && !Matches(known[i], x)
      invariant i <= |known|
      invariant forall k | 0 <= k < i :: !Matches(known[k], x)
    {
      i := i + 1;
    }
  }

  /** An answer is suppressed when the first known answer that matches has at least half its time to live. */
  predicate Suppressed(known: seq<Record>, x: Record)
  {
    exists i | 0 <= i < |known| ::
      Matches(known[i], x) && HasHalfTtl(known[i], x) && forall k | 0 <= k < i :: !Matches(known[k], x)
  }

  /** A known answer for the same name that is a PTR to the same target. */
  predicate NamesTarget(known: Record, x: Record)
    requires x.data.PTR?
  {
    known.name == x.name && known.data == PTR(x.data.target)
  }

  /**
   A PTR answer is suppressed if and only if its own target has been named as that of its name, the first
   time with at least half its time to live, rounded down. Other targets of the name do not matter.
   */
  lemma PtrSuppressed(known: seq<Record>, x: Record)
    requires x.data.PTR?
    ensures Suppressed(known, x) <==>
      exists i | 0 <= i < |known| ::
        NamesTarget(known[i], x) && known[i].ttl >= x.ttl / 2 && forall k | 0 <= k < i :: !NamesTarget(known[k], x)
  {
    assert forall k | 0 <= k < |known| :: Matches(known[k], x) <==> NamesTarget(known[k], x);
  }

  /** Any other answer is suppressed if and only if the first known answer of its name and type has that time to live. */
  lemma OtherSuppressed(known: seq<Record>, x: Record)
    requires !x.data.PTR?
    ensures Suppressed(known, x) <==>
      exists i | 0 <= i < |known| ::
        && known[i].name == x.name && TypeCode(known[i].data) == TypeCode(x.data) && known[i].ttl >= x.ttl / 2
        && forall k | 0 <= k < i :: !(known[k].name == x.name && TypeCode(known[k].data) == TypeCode(x.data))
  {
    assert forall k | 0 <= k < |known| ::
      Matches(known[k], x) <==> known[k].name == x.name && TypeCode(known[k].data) == TypeCode(x.data);
  }

  // ---------- the rule of section 7.1 ----------

  /** The same resource record: name, class and data, and so the type, whatever its time to live. */
  predicate Same(known: Record, x: Record)
  {
    known.name == x.name && known.class_ == x.class_ && known.data == x.data
  }

  /** The asker has sent this record with at least half its time to live. */
  predicate Known(sent: seq<Record>, x: Record)
  {
    exists i | 0 <= i < |sent| :: Same(sent[i], x) && 2 * sent[i].ttl >= x.ttl
  }

  predicate NoMatch(sent: seq<Record>, x: Record, i: nat)
    requires i <= |sent|
  {
    forall k | 0 <= k < i :: !Matches(sent[k], x)
  }

  /** The record itself is the first to match it, and is sent once only. */
  predicate ToldOnce(sent: seq<Record>, x: Record)
  {
    exists i | 0 <= i < |sent| ::
      Same(sent[i], x) && NoMatch(sent, x, i) && forall k | i < k < |sent| :: !Same(sent[k], x)
  }

  /** The code tells apart whether the asker knows the record, whatever times to live it has sent. */
  predicate Told(sent: seq<Record>, x: Record)
  {
    || NoMatch(sent, x, |sent|)
    || (if x.ttl == 0 then exists i | 0 <= i < |sent| :: Same(sent[i], x) else x.ttl % 2 == 0 && ToldOnce(sent, x))
  }

  type Ttl = t: nat | t < 0x1_0000_0000

  function WithTtls(sent: seq<Record>, ttls: seq<Ttl>): (r: seq<Record>)
    requires |ttls| == |sent|
    ensures |r| == |sent| && forall i | 0 <= i < |sent| :: r[i] == sent[i].(ttl := ttls[i])
  {
    seq(|sent|, i requires 0 <= i < |sent| => sent[i].(ttl := ttls[i]))
  }

  ghost predicate RuleKept(sent: seq<Record>, x: Record)
  {
    forall ttls: seq<Ttl> | |ttls| == |sent| :: Suppressed(WithTtls(sent, ttls), x) <==> Known(WithTtls(sent, ttls), x)
  }

  /** A list of times to live with one value at `i` and another elsewhere. */
  function OneTtl(n: nat, i: nat, a: Ttl, b: Ttl): (ttls: seq<Ttl>)
    ensures |ttls| == n && forall k | 0 <= k < n :: ttls[k] == if k == i then a else b
  {
    seq(n, k => if k == i then a else b)
  }

  lemma ToldKeepsRule(sent: seq<Record>, x: Record)
    requires Told(sent, x)
    ensures RuleKept(sent, x)
  {
    forall ttls: seq<Ttl> | |ttls| == |sent|
      ensures Suppressed(WithTtls(sent, ttls), x) <==> Known(WithTtls(sent, ttls), x)
    {
      var known := WithTtls(sent, ttls);
      assert forall k | 0 <= k < |sent| :: Matches(known[k], x) <==> Matches(sent[k], x);
      assert forall k | 0 <= k < |sent| :: Same(known[k], x) ==> Matches(known[k], x);
      var f := FirstOf(sent, x);
      FirstMatchDecides(known, x, f);
    }
  }

  /** The first record that matches, or the number of records. */
  function FirstOf(sent: seq<Record>, x: Record): (f: nat)
    ensures f <= |sent| && NoMatch(sent, x, f) && (f < |sent| ==> Matches(sent[f], x))
  {
    if |sent| == 0 || Matches(sent[0], x) then 0
    else
      var f := FirstOf(sent[1..], x);
      assert forall k | 0 < k < |sent| :: sent[k] == sent[1..][k - 1];
      f + 1
  }

  lemma RuleTold(sent: seq<Record>, x: Record)
    requires RuleKept(sent, x) && x.ttl < 0x1_0000_0000
    ensures Told(sent, x)
  {
    var f, n := FirstOf(sent, x), |sent|;
    if f < n {
      AtTtls(sent, x, f, OneTtl(n, f, x.ttl, 0));
      AtTtls(sent, x, f, OneTtl(n, f, x.ttl / 2, 0));
      AtTtls(sent, x, f, OneTtl(n, f, 0, x.ttl));
    }
  }

  lemma AtTtls(sent: seq<Record>, x: Record, f: nat, ttls: seq<Ttl>)
    requires RuleKept(sent, x) && |ttls| == |sent| && f < |sent| && NoMatch(sent, x, f) && Matches(sent[f], x)
    ensures ttls[f] >= x.ttl / 2 <==> exists i | 0 <= i < |sent| :: Same(sent[i], x) && 2 * ttls[i] >= x.ttl
  {
    var known := WithTtls(sent, ttls);
    assert forall k | 0 <= k < |sent| :: Matches(known[k], x) <==> Matches(sent[k], x);
    assert forall k | 0 <= k < |sent| :: Same(known[k], x) <==> Same(sent[k], x);
    FirstMatchDecides(known, x, f);
    assert Suppressed(known, x) <==> Known(known, x);
  }

  /**
   For a store and what an asker has sent: whatever the times to live sent, exactly the known answers
   are suppressed, if and only if for every stored record nothing sent matches it, or it is itself the
   first that does, is sent once, and its own time to live is even.
   */
  lemma SuppressionIsRule(store: seq<Stored>, sent: seq<Record>)
    requires forall e | e in store :: e.record.ttl < 0x1_0000_0000
    ensures (forall e | e in store :: Told(sent, e.record)) <==> forall e | e in store :: RuleKept(sent, e.record)
  {
    hide Told, RuleKept;
    forall e | e in store
      ensures Told(sent, e.record) <==> RuleKept(sent, e.record)
    {
      if Told(sent, e.record) {
        ToldKeepsRule(sent, e.record);
      }
      if RuleKept(sent, e.record) {
        RuleTold(sent, e.record);
      }
    }
  }

  /** What the asker has sent and what the parser makes of it suppress the same answers. */
  lemma ParsedSuppresses(sent: seq<Record>, parsed: seq<Record>, x: Record)
    requires |parsed| == |sent| && forall i | 0 <= i < |sent| :: parsed[i] == Expected(sent[i])
    ensures Suppressed(parsed, x) <==> Suppressed(sent, x)
  {
    assert forall i | 0 <= i < |sent| :: Matches(parsed[i], x) <==> Matches(sent[i], x);
    var f := FirstOf(sent, x);
    FirstMatchDecides(sent, x, f);
    FirstMatchDecides(parsed, x, f);
  }

  /** On such a store the records suppressed are the ones the asker knows, by the rule of section 7.1. */
  lemma SuppressedKnown(sent: seq<Record>, parsed: seq<Record>, x: Record)
    requires |parsed| == |sent|
    requires forall i | 0 <= i < |sent| :: parsed[i] == Expected(sent[i]) && sent[i].ttl < 0x1_0000_0000
    requires Told(sent, x)
    ensures Suppressed(parsed, x) <==> Known(sent, x)
  {
    ParsedSuppresses(sent, parsed, x);
    ToldKeepsRule(sent, x);
    var ttls: seq<Ttl> := seq(|sent|, i requires 0 <= i < |sent| => sent[i].ttl);
    assert WithTtls(sent, ttls) == sent;
  }

  /** One address of a host with two suppresses the other; an odd time to live is halved downwards; the first copy decides. */
  lemma WrongAnswersSuppressed(n: Name)
    ensures var x, y := Record(n, 1, true, 120, A(1)), Record(n, 1, true, 120, A(2));
      && Suppressed([x], y) && !Known([x], y)
      && Suppressed([x.(ttl := 2)], x.(ttl := 5)) && !Known([x.(ttl := 2)], x.(ttl := 5))
      && !Suppressed([x.(ttl := 0), x], x) && Known([x.(ttl := 0), x], x)
  {
    var x, y := Record(n, 1, true, 120, A(1)), Record(n, 1, true, 120, A(2));
    assert Matches([x][0], y) && Matches([x.(ttl := 2)][0], x.(ttl := 5));
    assert Matches([x.(ttl := 0), x][0], x) && Same([x.(ttl := 0), x][1], x);
  }

  lemma FirstMatchDecides(known: seq<Record>, x: Record, i: nat)
    requires i <= |known| && (i < |known| ==> Matches(known[i], x)) && forall k | 0 <= k < i :: !Matches(known[k], x)
    ensures Suppressed(known, x) <==> i < |known| && HasHalfTtl(known[i], x)
  {
  }

  function Unsuppressed(s: seq<Stored>, known: seq<Record>): (r: seq<Stored>)
    decreases |s|
  {
    if |s| == 0 then []
    else
      var rest, last := Unsuppressed(s[..|s| - 1], known), s[|s| - 1];
      if Suppressed(known, last.record) then rest else rest + [last]
  }

  lemma {:induction false} UnsuppressedMembers(s: seq<Stored>, known: seq<Record>)
    ensures forall x :: x in Unsuppressed(s, known) <==> x in s && !Suppressed(known, x.record)
    ensures Distinct(s) ==> Distinct(Unsuppressed(s, known))
    decreases |s|
  {
    if |s| > 0 {
      UnsuppressedMembers(s[..|s| - 1], known);
      assert forall x :: x in s <==> x in s[..|s| - 1] || x == s[|s| - 1];
    }
  }

  lemma UnsuppressedStep(s: seq<Stored>, i: nat, known: seq<Record>)
    requires i < |s|
    ensures Unsuppressed(s[..i + 1], known) ==
      Unsuppressed(s[..i], known) + if Suppressed(known, s[i].record) then [] else [s[i]]
  {
    assert s[..i + 1][..i] == s[..i];
  }

  // ---------- linked lists ----------

  class RrNode {
    const e: Stored
    var next: RrNode?

    constructor (e: Stored)
      ensures this.e == e && next == null
    {
      this.e, next := e, null;
    }
  }

  ghost function Elements(nodes: seq<RrNode>): (s: seq<Stored>)
    ensures |s| == |nodes| && forall i | 0 <= i < |nodes| :: s[i] == nodes[i].e
  {
    seq(|nodes|, i requires 0 <= i < |nodes| => nodes[i].e)
  }

  ghost predicate Linked(nodes: seq<RrNode>)
    reads nodes
  {
    && (forall i | 0 <= i < |nodes| :: nodes[i].next == if i + 1 < |nodes| then nodes[i + 1] else null)
    && (forall i, j | 0 <= i < j < |nodes| :: nodes[i] != nodes[j])
  }

  ghost predicate Within(nodes: seq<RrNode>, before: seq<RrNode>)
  {
    forall i | 0 <= i < |nodes| :: nodes[i] in before
  }

  lemma NothingSeen(nodes: seq<RrNode>, items: seq<Stored>, known: seq<Record>)
    ensures Elements(nodes[..0]) == Unsuppressed(items[..0], known) && Within(nodes, nodes)
  {
  }

  lemma ElementsStep(nodes: seq<RrNode>, k: nat)
    requires k < |nodes|
    ensures Elements(nodes[..k + 1]) == Elements(nodes[..k]) + [nodes[k].e]
  {
  }

  lemma StillToSee(before: seq<RrNode>, i: nat, nodes: seq<RrNode>, k: nat)
    requires i < |before| && k < |nodes| && nodes[k..] == before[i..]
    ensures Elements(before)[i] == nodes[k].e && nodes[k + 1..] == before[i + 1..]
  {
    assert nodes[k..][0] == before[i..][0];
    assert nodes[k..][1..] == before[i..][1..];
    assert nodes[k..][1..] == nodes[k + 1..] && before[i..][1..] == before[i + 1..];
  }

  lemma NodeRemoved(nodes: seq<RrNode>, before: seq<RrNode>, k: nat)
    requires k < |nodes| && Within(nodes, before)
    ensures Within(nodes[..k] + nodes[k + 1..], before)
    ensures (nodes[..k] + nodes[k + 1..])[..k] == nodes[..k] && (nodes[..k] + nodes[k + 1..])[k..] == nodes[k + 1..]
    ensures |nodes[..k] + nodes[k + 1..]| == |nodes| - 1 && (k > 0 ==> nodes[k - 1] in before)
    ensures k + 1 < |nodes| ==> (nodes[..k] + nodes[k + 1..])[k] == nodes[k + 1]
    ensures k > 0 ==> (nodes[..k] + nodes[k + 1..])[k - 1] == nodes[k - 1]
  {
  }

  class RrList {
    var head: RrNode?
    ghost var spine: seq<RrNode>

    ghost predicate Valid()
      reads this, spine
    {
      head == (if |spine| == 0 then null else spine[0]) && Linked(spine)
    }

    ghost function Items(): seq<Stored>
      reads this
    {
      Elements(spine)
    }

    /** The list kept its nodes and only new nodes were put behind them. */
    twostate predicate Extended()
      reads this
    {
      old(spine) <= spine && forall k | |old(spine)| <= k < |spine| :: fresh(spine[k])
    }

    lemma NextOf(i: nat)
      requires Valid() && i < |spine|
      ensures spine[i].next == if i + 1 < |spine| then spine[i + 1] else null
    {
    }

    constructor ()
      ensures Valid() && spine == []
    {
      head, spine := null, [];
    }

    method Clear()
      modifies this
      ensures Valid() && spine == []
    {
      head, spine := null, [];
    }

    /** `rr_list_append`: a record already in the list is not added again. */
    method Append(rr: Stored) returns (added: nat)
      requires Valid()
      modifies this, spine
      ensures Valid() && Extended()
      ensures Items() == AppendUnique(old(Items()), rr)
      ensures added == |spine| - |old(spine)|
    {
      ghost var items := Items();
      var node := new RrNode(rr);
      assert Valid();
      if head == null {
        head := node;
        spine := [node];
        return 1;
      }
      var e, taile := head, null;
      ghost var i := 0;
      while e != null
        invariant 0 <= i <= |spine| && e == (if i < |spine| then spine[i] else null)
        invariant forall k | 0 <= k < i :: spine[k].e != rr
        invariant i == |spine| ==> taile == spine[|spine| - 1]
        decreases |spine| - i
        modifies {}
      {
        if e.e == rr {
          assert items[i] == rr;
          return 0;
        }
        NextOf(i);
        if e.next == null {
          taile := e;
        }
        e := e.next;
        i := i + 1;
      }
      assert rr !in items;
      taile.next := node;
      spine := spine + [node];
      assert Items() == items + [rr];
      added := 1;
    }

    /** Takes node number `k` out, given the node before it. */
    method Unlink(prev: RrNode?, ans: RrNode, ghost k: nat)
      requires Valid() && k < |spine| && ans == spine[k] && prev == (if k == 0 then null else spine[k - 1])
      modifies this, if prev == null then {} else {prev}
      ensures Valid() && spine == old(spine)[..k] + old(spine)[k + 1..]
    {
      NextOf(k);
      ghost var was, now := spine, spine[..k] + spine[k + 1..];
      forall i | 0 <= i < |now|
        ensures now[i] == was[if i < k then i else i + 1]
        ensures now[i].next ==
          if i + 1 < k then was[i + 1]
          else if i + 1 == k then was[k]
          else if i + 2 < |was| then was[i + 2] else null
      {
        NextOf(if i < k then i else i + 1);
      }
      if prev == null {
        head := ans.next;
      } else {
        prev.next := ans.next;
      }
      spine := now;
    }

    /** The removal loop of `process_mdns_pkt`: unlinks in place the answers the asker already knows. */
    method RemoveKnown(known: seq<Record>) returns (removed: nat)
      requires Valid()
      modifies this, spine
      ensures Valid() && Items() == Unsuppressed(old(Items()), known)
      ensures Within(spine, old(spine))
      ensures removed == |old(spine)| - |spine|
    {
      hide Suppressed, Matches, Linked, HasHalfTtl, TypeCode, Unsuppressed, Elements, Within;
      ghost var before, items := spine, Items();
      ghost var k, i := 0, 0;  // nodes kept so far, nodes looked at so far
      removed := 0;
      var ans, prev := head, null;
      NothingSeen(spine, items, known);
      while ans != null
        invariant 0 <= k <= i <= |before| && k == i - removed && |spine| == |before| - removed
        invariant Valid() && spine[k..] == before[i..] && Within(spine, before)
        invariant ans == (if k < |spine| then spine[k] else null)
        invariant prev == (if k == 0 then null else spine[k - 1])
        invariant Elements(spine[..k]) == Unsuppressed(items[..i], known)
        decreases |before| - i
      {
        NextOf(k);
        var nextAns := ans.next;
        var m := FirstMatch(known, ans.e.record);
        FirstMatchDecides(known, ans.e.record, m);
        UnsuppressedStep(items, i, known);
        StillToSee(before, i, spine, k);
        if m < |known| && HasHalfTtl(known[m], ans.e.record) {
          NodeRemoved(spine, before, k);
          Unlink(prev, ans, k);
          ans := prev;
          removed := removed + 1;
        } else {
          ElementsStep(spine, k);
          k := k + 1;
        }
        prev := ans;
        ans := nextAns;
        i := i + 1;
      }
      assert spine[..k] == spine && items[..i] == items;
    }
  }
}

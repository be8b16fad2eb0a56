/** The name-indexed record store of the mDNS responder, and record lists as values. */
module MdnsStore {
  import opened MdnsNames
  import opened MdnsRecords

  /** A record in memory; records are told apart by their address, not by their contents. */
  datatype Stored = Stored(address: nat, record: Record)

  const RR_ANY: nat := 0xFF
  const RR_NSEC: nat := 0x2F
  const RR_TXT: nat := 0x10

  // ---------- lists as values ----------

  function AppendUnique(s: seq<Stored>, x: Stored): seq<Stored>
  {
    if x in s then s else s + [x]
  }

  function AppendAll(s: seq<Stored>, xs: seq<Stored>): (r: seq<Stored>)
    decreases |xs|
  {
    if |xs| == 0 then s else AppendUnique(AppendAll(s, xs[..|xs| - 1]), xs[|xs| - 1])
  }

  predicate Distinct(s: seq<Stored>)
  {
    forall i, j | 0 <= i < j < |s| :: s[i] != s[j]
  }

  lemma {:induction false} AppendAllFacts(s: seq<Stored>, xs: seq<Stored>)
    ensures s <= AppendAll(s, xs)
    ensures Distinct(s) ==> Distinct(AppendAll(s, xs))
    ensures forall x :: x in AppendAll(s, xs) <==> x in s || x in xs
  {
    if |xs| > 0 {
      var init, last := xs[..|xs| - 1], xs[|xs| - 1];
      AppendAllFacts(s, init);
      assert forall x :: x in xs <==> x in init || x == last;
    }
  }

  lemma {:induction false} AppendAllConcat(s: seq<Stored>, xs: seq<Stored>, ys: seq<Stored>)
    ensures AppendAll(s, xs + ys) == AppendAll(AppendAll(s, xs), ys)
    decreases |ys|
  {
    if |ys| == 0 {
      assert xs + ys == xs;
    } else {
      assert (xs + ys)[..|xs + ys| - 1] == xs + ys[..|ys| - 1];
      AppendAllConcat(s, xs, ys[..|ys| - 1]);
    }
  }

  /** The elements of `s` that a query for `name` and `code` selects: any type but NSEC for ANY. */
  predicate Selects(x: Stored, name: Name, code: nat)
  {
    var t := TypeCode(x.record.data);
    x.record.name == name && (code == t || code == RR_ANY) && !(code == RR_ANY && t == RR_NSEC)
  }

  function Matching(s: seq<Stored>, name: Name, code: nat): (r: seq<Stored>)
    ensures forall x :: x in r <==> x in s && Selects(x, name, code)
    decreases |s|
  {
    if |s| == 0 then []
    else
      var rest, last := Matching(s[..|s| - 1], name, code), s[|s| - 1];
      assert forall x :: x in s <==> x in s[..|s| - 1] || x == last;
      if Selects(last, name, code) then rest + [last] else rest
  }

  function ByName(s: seq<Stored>, name: Name): (r: seq<Stored>)
    ensures forall x :: x in r <==> x in s && x.record.name == name
    decreases |s|
  {
    if |s| == 0 then []
    else
      var rest, last := ByName(s[..|s| - 1], name), s[|s| - 1];
      assert forall x :: x in s <==> x in s[..|s| - 1] || x == last;
      if last.record.name == name then rest + [last] else rest
  }

  /** Looking in the group of a name is the same as looking through all records. */
  lemma {:induction false} MatchingInGroup(s: seq<Stored>, name: Name, code: nat)
    ensures Matching(ByName(s, name), name, code) == Matching(s, name, code)
    decreases |s|
  {
    if |s| > 0 {
      var init, last := s[..|s| - 1], s[|s| - 1];
      MatchingInGroup(init, name, code);
      if last.record.name == name {
        assert ByName(s, name)[..|ByName(s, name)| - 1] == ByName(init, name);
      }
    }
  }

  /** Adding a record moves only the group of its own name. */
  lemma ByNameAppend(s: seq<Stored>, x: Stored, name: Name)
    ensures ByName(AppendUnique(s, x), name) ==
      if x.record.name == name then AppendUnique(ByName(s, name), x) else ByName(s, name)
  {
    if x !in s {
      assert (s + [x])[..|s + [x]| - 1] == s;
    }
  }

  // ---------- the store ----------

  datatype Group = Group(name: Name, rr: seq<Stored>)

  predicate HasGroup(groups: seq<Group>, name: Name)
  {
    exists i | 0 <= i < |groups| :: groups[i].name == name
  }

  /** The index agrees with a scan of all records added: one group a name, holding the records of that name in order. */
  predicate Indexed(groups: seq<Group>, added: seq<Stored>)
  {
    && Distinct(added)
    && (forall i, j | 0 <= i < j < |groups| :: groups[i].name != groups[j].name)
    && (forall i | 0 <= i < |groups| :: groups[i].rr == ByName(added, groups[i].name))
    && (forall x | x in added :: HasGroup(groups, x.record.name))
  }

  lemma GroupExtended(groups: seq<Group>, added: seq<Stored>, x: Stored, i: nat)
    requires Indexed(groups, added) && i < |groups| && groups[i].name == x.record.name
    ensures Indexed(groups[i := groups[i].(rr := AppendUnique(groups[i].rr, x))], AppendUnique(added, x))
  {
    hide ByName;
    var after := groups[i := groups[i].(rr := AppendUnique(groups[i].rr, x))];
    forall k | 0 <= k < |groups|
      ensures after[k].rr == ByName(AppendUnique(added, x), after[k].name)
    {
      ByNameAppend(added, x, groups[k].name);
      assert k != i ==> groups[k].name != groups[i].name;
    }
    forall y | y in AppendUnique(added, x)
      ensures HasGroup(after, y.record.name)
    {
      var k :| 0 <= k < |groups| && groups[k].name == y.record.name;
      assert after[k].name == y.record.name;
    }
  }

  lemma FirstMember(s: seq<Stored>)
    ensures s == [] || s[0] in s
  {
  }

  lemma GroupPrepended(groups: seq<Group>, added: seq<Stored>, x: Stored)
    requires Indexed(groups, added) && !HasGroup(groups, x.record.name)
    ensures Indexed([Group(x.record.name, [x])] + groups, AppendUnique(added, x))
  {
    hide ByName;
    var after := [Group(x.record.name, [x])] + groups;
    assert x !in added;
    assert ByName(added, x.record.name) == [] by {
      FirstMember(ByName(added, x.record.name));
    }
    forall k | 0 <= k < |after|
      ensures after[k].rr == ByName(AppendUnique(added, x), after[k].name)
    {
      ByNameAppend(added, x, after[k].name);
      assert k > 0 ==> after[k] == groups[k - 1];
    }
    forall y | y in AppendUnique(added, x)
      ensures HasGroup(after, y.record.name)
    {
      if y == x {
        assert after[0].name == x.record.name;
      } else {
        var k :| 0 <= k < |groups| && groups[k].name == y.record.name;
        assert after[k + 1].name == y.record.name;
      }
    }
  }

  class Store {
    var groups: seq<Group>
    ghost var added: seq<Stored>  // every record added so far, in order

    ghost predicate Valid()
      reads this
    {
      Indexed(groups, added)
    }

    constructor ()
      ensures Valid() && added == []
    {
      groups, added := [], [];
    }

    /** `rr_group_find`. */
    method Find(name: Name) returns (i: nat)
      ensures i < |groups| ==> groups[i].name == name
      ensures i >= |groups| ==> !HasGroup(groups, name)
    {
      i := 0;
      while i < |groups| && groups[i].name != name
        invariant forall k | 0 <= k < i && k < |groups| :: groups[k].name != name
      {
        i := i + 1;
      }
    }

    /** `rr_group_add`. */
    method Add(rr: Stored)
      requires Valid()
      modifies this
      ensures Valid() && added == AppendUnique(old(added), rr)
    {
      hide AppendUnique, Indexed;
      var i := Find(rr.record.name);
      if i < |groups| {
        GroupExtended(groups, added, rr, i);
        groups := groups[i := groups[i].(rr := AppendUnique(groups[i].rr, rr))];
      } else {
        GroupPrepended(groups, added, rr);
        groups := [Group(rr.record.name, [rr])] + groups;
      }
      added := AppendUnique(added, rr);
    }
  }
}

/**
 DNS names and their compressed form in a packet, as described in section 4.1.4 of RFC 1035.
 A name is a list of labels; in memory the program keeps it as a C string of length-prefixed labels.
 */
module MdnsNames {
  import opened Numbers

  datatype Name = Root | Label(text: seq<byte>, rest: Name) {
    /** Labels have 1 to 63 bytes and contain no NUL, since names are C strings. */
    predicate Valid() {
      Label? ==> 1 <= |text| <= 63 && 0 !in text && rest.Valid()
    }

    function Size(): nat {
      if Root? then 0 else 1 + rest.Size()
    }

    /** The C string: length-prefixed labels, without the terminating NUL. */
    function Raw(): (s: seq<byte>)
      requires Valid()
    {
      if Root? then [] else [|text| as byte] + text + rest.Raw()
    }
  }

  /** The labels of a C string. */
  function NameOf(s: seq<byte>): Name
  {
    if |s| == 0 || s[0] == 0 || s[0] as nat >= |s| then Root
    else Label(s[1..s[0] as nat + 1], NameOf(s[s[0] as nat + 1..]))
  }

  lemma {:induction false} NameOfRaw(n: Name)
    requires n.Valid()
    ensures NameOf(n.Raw()) == n
  {
    if n.Label? {
      var s, k := n.Raw(), |n.text| + 1;
      assert s[1..k] == n.text && s[k..] == n.rest.Raw();
      NameOfRaw(n.rest);
    }
  }

  /** `strcmp` on the C strings decides equality of names. */
  lemma RawInjective(n: Name, m: Name)
    requires n.Valid() && m.Valid()
    ensures n.Raw() == m.Raw() <==> n == m
  {
    NameOfRaw(n);
    NameOfRaw(m);
  }

  // ---------- big-endian numbers ----------

  function U16(v: nat): (b: seq<byte>)
    ensures |b| == 2
  {
    [v / 0x100 % 0x100, v % 0x100]
  }

  function U32(v: nat): (b: seq<byte>)
    ensures |b| == 4
  {
    [v / 0x100_0000 % 0x100, v / 0x1_0000 % 0x100, v / 0x100 % 0x100, v % 0x100]
  }

  function Read16(s: seq<byte>, i: nat): (v: nat)
    requires i + 2 <= |s|
    ensures v < 0x1_0000
  {
    s[i] as int * 0x100 + s[i + 1]
  }

  function Read32(s: seq<byte>, i: nat): (v: nat)
    requires i + 4 <= |s|
    ensures v < 0x1_0000_0000
  {
    s[i] as int * 0x100_0000 + s[i + 1] as int * 0x1_0000 + s[i + 2] as int * 0x100 + s[i + 3]
  }

  /** `part` stands at offset `i` of `s`. */
  ghost predicate Has(s: seq<byte>, i: nat, part: seq<byte>)
  {
    i + |part| <= |s| && forall k | 0 <= k < |part| :: s[i + k] == part[k]
  }

  lemma HasSplit(s: seq<byte>, i: nat, a: seq<byte>, b: seq<byte>)
    ensures Has(s, i, a + b) <==> Has(s, i, a) && Has(s, i + |a|, b)
  {
    if Has(s, i, a) && Has(s, i + |a|, b) {
      forall k | 0 <= k < |a + b|
        ensures s[i + k] == (a + b)[k]
      {
        if k >= |a| {
          assert s[i + |a| + (k - |a|)] == b[k - |a|];
        }
      }
    }
    if Has(s, i, a + b) {
      forall k | 0 <= k < |b|
        ensures s[i + |a| + k] == b[k]
      {
        assert s[i + (|a| + k)] == (a + b)[|a| + k];
      }
      forall k | 0 <= k < |a|
        ensures s[i + k] == a[k]
      {
        assert (a + b)[k] == a[k];
      }
    }
  }

  lemma Has16(s: seq<byte>, i: nat, v: nat)
    requires Has(s, i, U16(v)) && v < 0x1_0000
    ensures Read16(s, i) == v
  {
    assert s[i + 0] == U16(v)[0] && s[i + 1] == U16(v)[1];
  }

  lemma Digits(v: nat)
    requires v < 0x1_0000_0000
    ensures v / 0x100_0000 % 0x100 * 0x100_0000 + v / 0x1_0000 % 0x100 * 0x1_0000 + v / 0x100 % 0x100 * 0x100 + v % 0x100 == v
  {
    var x, y := v / 0x100, v / 0x1_0000;
    var z := v / 0x100_0000;
    assert v == x * 0x100 + v % 0x100 && x == y * 0x100 + x % 0x100;
    assert y == z * 0x100 + y % 0x100 && z < 0x100;
  }

  lemma Has32(s: seq<byte>, i: nat, v: nat)
    requires Has(s, i, U32(v)) && v < 0x1_0000_0000
    ensures Read32(s, i) == v
  {
    Digits(v);
    assert s[i + 0] == U32(v)[0] && s[i + 1] == U32(v)[1] && s[i + 2] == U32(v)[2] && s[i + 3] == U32(v)[3];
  }

  // ---------- compressed names in a packet ----------

  /** The label `l` stands literally at offset `t`. */
  ghost predicate LabelAt(s: seq<byte>, t: nat, l: seq<byte>)
  {
    1 <= |l| <= 63 && t < |s| && s[t] as nat == |l| && Has(s, t + 1, l)
  }

  predicate IsPointer(b: byte) {
    b >= 0xC0
  }

  function Target(s: seq<byte>, off: nat): (t: nat)
    requires off + 2 <= |s|
  {
    s[off] as nat % 0x40 * 0x100 + s[off + 1] as nat
  }

  /** The name at offset `off`; a pointer leads to a literal label, after which the name goes on. */
  ghost predicate DecodesAt(s: seq<byte>, off: nat, n: Name)
    decreases n
  {
    match n
    case Root => off < |s| && s[off] == 0
    case Label(l, rest) =>
      off < |s| &&
      if IsPointer(s[off]) then
        off + 2 <= |s| && LabelAt(s, Target(s, off), l) && DecodesAt(s, Target(s, off) + 1 + |l|, rest)
      else
        LabelAt(s, off, l) && DecodesAt(s, off + 1 + |l|, rest)
  }

  /** At most one name stands at an offset. */
  lemma {:induction false} DecodesUnique(s: seq<byte>, off: nat, n: Name, m: Name)
    requires DecodesAt(s, off, n) && DecodesAt(s, off, m)
    ensures n == m
    decreases n
  {
    if n.Label? {
      var t := if IsPointer(s[off]) then Target(s, off) else off;
      assert m.Label? && |n.text| == |m.text|;
      assert n.text == m.text by {
        forall k | 0 <= k < |n.text|
          ensures n.text[k] == m.text[k]
        {
          assert s[t + 1 + k] == n.text[k];
        }
      }
      DecodesUnique(s, t + 1 + |n.text|, n.rest, m.rest);
    }
  }

  // ---------- the encoder ----------

  /** One element of the compression list: a name and where it was written. */
  datatype Entry = Entry(name: Name, pos: nat)

  /** The index of the first entry for `n`, or |comp|. */
  function Lookup(comp: seq<Entry>, n: Name): (i: nat)
    ensures i <= |comp|
    ensures i < |comp| ==> comp[i].name == n
  {
    if |comp| == 0 then 0 else if comp[0].name == n then 0 else 1 + Lookup(comp[1..], n)
  }

  /** The two bytes `0xC000 | (pos & ~0xC000)`, in 16 bits. */
  function Pointer(pos: nat): (b: seq<byte>)
    ensures |b| == 2
  {
    U16(0xC000 + pos % 0x4000)
  }

  lemma PointerBytes(p: nat)
    requires p < 0x4000
    ensures (0xC000 + p) / 0x100 == 0xC0 + p / 0x100 && p / 0x100 < 0x40
    ensures (0xC0 + p / 0x100) % 0x40 * 0x100 + p % 0x100 == p && (0xC000 + p) % 0x100 == p % 0x100
  {
    var h := p / 0x100;
    assert (0xC0 + h) % 0x40 == h;
  }

  /** A pointer leads back to the position it was made for exactly when that is below 0x4000. */
  lemma PointerTarget(s: seq<byte>, off: nat, pos: nat)
    requires Has(s, off, Pointer(pos))
    ensures IsPointer(s[off]) && (Target(s, off) == pos <==> pos < 0x4000)
  {
    PointerBytes(pos % 0x4000);
    assert s[off + 0] == Pointer(pos)[0] && s[off + 1] == Pointer(pos)[1];
  }

  datatype Written = Written(bytes: seq<byte>, comp: seq<Entry>)

  /** The bytes written for a name at offset `off`, and the compression list afterwards. */
  function EncodeName(off: nat, n: Name, comp: seq<Entry>): (w: Written)
    ensures |w.bytes| >= 1 && comp <= w.comp
    decreases n
  {
    match n
    case Root => Written([0], comp)
    case Label(l, rest) =>
      var i := Lookup(comp, n);
      if i < |comp| then Written(Pointer(comp[i].pos), comp)
      else
        var w := EncodeName(off + 1 + |l|, rest, comp + [Entry(n, off)]);
        Written([|l| % 0x100] + l + w.bytes, w.comp)
  }

  lemma EncodeNameStep(off: nat, n: Name, comp: seq<Entry>)
    requires n.Valid() && n.Label?
    ensures 1 <= |n.text| <= 63 && n.rest.Valid()
    ensures var i := Lookup(comp, n);
      if i < |comp| then EncodeName(off, n, comp) == Written(Pointer(comp[i].pos), comp)
      else
        var w := EncodeName(off + 1 + |n.text|, n.rest, comp + [Entry(n, off)]);
        EncodeName(off, n, comp) == Written(([|n.text| as byte] + n.text) + w.bytes, w.comp)
  {
  }

  lemma EncodeRoot(off: nat, comp: seq<Entry>)
    ensures EncodeName(off, Root, comp) == Written([0], comp)
  {
  }

  /** A stored entry whose position holds its name, the first label literally. */
  ghost predicate EntryOk(s: seq<byte>, e: Entry)
  {
    e.name.Label? ==>
      LabelAt(s, e.pos, e.name.text) && DecodesAt(s, e.pos + 1 + |e.name.text|, e.name.rest)
  }

  /** The entries that can be pointed to hold their names. */
  ghost predicate LowOk(s: seq<byte>, comp: seq<Entry>)
  {
    forall i | 0 <= i < |comp| && comp[i].pos < 0x4000 :: EntryOk(s, comp[i])
  }

  /** All entries lie before `off`. */
  predicate Before(comp: seq<Entry>, off: nat)
  {
    forall i | 0 <= i < |comp| :: comp[i].pos < off
  }

  /** The pointer that ends a name being written, if there is one, leads where it should. */
  predicate PointerGood(off: nat, n: Name, comp: seq<Entry>)
    decreases n
  {
    match n
    case Root => true
    case Label(l, rest) =>
      var i := Lookup(comp, n);
      if i < |comp| then comp[i].pos < 0x4000 else PointerGood(off + 1 + |l|, rest, comp + [Entry(n, off)])
  }

  /** It leads elsewhere, but what stands there happens to be the same name. */
  ghost predicate Coincides(s: seq<byte>, off: nat, n: Name, comp: seq<Entry>)
    decreases n
  {
    match n
    case Root => false
    case Label(l, rest) =>
      var i := Lookup(comp, n);
      if i < |comp| then comp[i].pos >= 0x4000 && EntryOk(s, Entry(n, comp[i].pos % 0x4000))
      else Coincides(s, off + 1 + |l|, rest, comp + [Entry(n, off)])
  }

  /** A pointer made for a position stands for what is at that position below 0x4000. */
  lemma PointerMeans(s: seq<byte>, off: nat, n: Name, pos: nat)
    requires n.Label? && Has(s, off, Pointer(pos))
    ensures DecodesAt(s, off, n) <==> EntryOk(s, Entry(n, pos % 0x4000))
  {
    hide LabelAt;
    PointerBytes(pos % 0x4000);
    assert s[off + 0] == Pointer(pos)[0] && s[off + 1] == Pointer(pos)[1];
    assert Target(s, off) == pos % 0x4000;
  }

  lemma LiteralDecodes(s: seq<byte>, off: nat, n: Name)
    requires n.Label? && LabelAt(s, off, n.text)
    ensures DecodesAt(s, off, n) <==> DecodesAt(s, off + 1 + |n.text|, n.rest)
    ensures DecodesAt(s, off, n) ==> EntryOk(s, Entry(n, off))
  {
  }

  lemma LabelStands(s: seq<byte>, off: nat, l: seq<byte>)
    requires 1 <= |l| <= 63 && Has(s, off, [|l| as byte] + l)
    ensures LabelAt(s, off, l)
  {
    assert s[off + 0] == ([|l| as byte] + l)[0];
    HasSplit(s, off, [|l| as byte], l);
  }

  lemma RootStands(s: seq<byte>, off: nat, comp: seq<Entry>)
    requires Has(s, off, EncodeName(off, Root, comp).bytes)
    ensures DecodesAt(s, off, Root) && PointerGood(off, Root, comp)
  {
    assert s[off + 0] == [0][0];
  }

  /**
   The entries that can be pointed to while the name `n` is being written: those of names no longer than
   it. Entries for its longer suffixes are not finished yet; they cannot match.
   */
  ghost predicate UsableFor(s: seq<byte>, comp: seq<Entry>, n: Name)
  {
    forall i | 0 <= i < |comp| && comp[i].name.Size() <= n.Size() && comp[i].pos < 0x4000 :: EntryOk(s, comp[i])
  }

  lemma UsableForRest(s: seq<byte>, comp: seq<Entry>, n: Name, off: nat)
    requires n.Label? && UsableFor(s, comp, n)
    ensures UsableFor(s, comp + [Entry(n, off)], n.rest)
  {
    hide EntryOk;
  }

  /** A name written behind entries that all lie below 0x4000 has a good pointer. */
  lemma {:induction false} GoodPointer(off: nat, n: Name, comp: seq<Entry>)
    requires forall i | 0 <= i < |comp| && comp[i].name.Size() <= n.Size() :: comp[i].pos < 0x4000
    ensures PointerGood(off, n, comp)
    decreases n
  {
    if n.Label? && Lookup(comp, n) == |comp| {
      GoodPointer(off + 1 + |n.text|, n.rest, comp + [Entry(n, off)]);
    }
  }

  lemma PointerStep(s: seq<byte>, off: nat, n: Name, comp: seq<Entry>)
    requires n.Label?
    ensures var i := Lookup(comp, n);
      if i < |comp| then
        && PointerGood(off, n, comp) == (comp[i].pos < 0x4000)
        && Coincides(s, off, n, comp) == (comp[i].pos >= 0x4000 && EntryOk(s, Entry(n, comp[i].pos % 0x4000)))
      else
        var comp1 := comp + [Entry(n, off)];
        && PointerGood(off, n, comp) == PointerGood(off + 1 + |n.text|, n.rest, comp1)
        && Coincides(s, off, n, comp) == Coincides(s, off + 1 + |n.text|, n.rest, comp1)
  {
  }

  /**
   Wherever a name is written, it decodes to itself if and only if the pointer that ends it leads below
   0x4000, or by coincidence to the same name. Whether it does or not, the entries that it adds and that
   can be pointed to hold their names.
   */
  lemma {:induction false} EncodedDecodes(s: seq<byte>, off: nat, n: Name, comp: seq<Entry>)
    requires n.Valid() && Has(s, off, EncodeName(off, n, comp).bytes) && UsableFor(s, comp, n) && Before(comp, off)
    ensures DecodesAt(s, off, n) <==> PointerGood(off, n, comp) || Coincides(s, off, n, comp)
    ensures var w := EncodeName(off, n, comp);
      forall i | |comp| <= i < |w.comp| :: w.comp[i].pos < off + |w.bytes|
        && (w.comp[i].pos < 0x4000 ==> EntryOk(s, w.comp[i]))
    decreases n
  {
    hide EncodeName, Lookup, Target, Pointer, EntryOk, LabelAt, DecodesAt, UsableFor, Name.Size, PointerGood,
      Coincides, Has;
    var w := EncodeName(off, n, comp);
    if n.Root? {
      EncodeRoot(off, comp);
      RootStands(s, off, comp);
    } else {
      EncodeNameStep(off, n, comp);
      PointerStep(s, off, n, comp);
      var i := Lookup(comp, n);
      if i < |comp| {
        PointerMeans(s, off, n, comp[i].pos);
        UsableEntry(s, comp, n, i);
      } else {
        var l, comp1, off1 := n.text, comp + [Entry(n, off)], off + 1 + |n.text|;
        var w1 := EncodeName(off1, n.rest, comp1);
        HasSplit(s, off, [|l| as byte] + l, w1.bytes);
        UsableForRest(s, comp, n, off);
        EncodedDecodes(s, off1, n.rest, comp1);
        LabelStands(s, off, l);
        LiteralDecodes(s, off, n);
        if off < 0x4000 {
          GoodPointer(off1, n.rest, comp1);
        }
        assert w.comp[|comp|] == Entry(n, off);
      }
    }
  }

  lemma UsableEntry(s: seq<byte>, comp: seq<Entry>, n: Name, i: nat)
    requires UsableFor(s, comp, n) && i < |comp| && comp[i].name == n
    ensures comp[i].pos < 0x4000 ==> EntryOk(s, comp[i])
  {
  }

  /** Writing a name keeps the entries that can be pointed to usable. */
  lemma EncodeNameOk(s: seq<byte>, off: nat, n: Name, comp: seq<Entry>)
    requires n.Valid() && Has(s, off, EncodeName(off, n, comp).bytes) && LowOk(s, comp) && Before(comp, off)
    ensures DecodesAt(s, off, n) <==> PointerGood(off, n, comp) || Coincides(s, off, n, comp)
    ensures var w := EncodeName(off, n, comp); LowOk(s, w.comp) && Before(w.comp, off + |w.bytes|)
  {
    hide EntryOk, EncodeName, DecodesAt, PointerGood, Coincides, Has;
    EncodedDecodes(s, off, n, comp);
  }

  /** All entries lie below 0x4000. */
  predicate Low(comp: seq<Entry>)
  {
    forall i | 0 <= i < |comp| :: comp[i].pos < 0x4000
  }

  /** Below 0x4000 all pointers lead back. */
  lemma {:induction false} LowPointer(off: nat, n: Name, comp: seq<Entry>)
    requires Low(comp) && off + |EncodeName(off, n, comp).bytes| <= 0x4000
    ensures PointerGood(off, n, comp) && Low(EncodeName(off, n, comp).comp)
    decreases n
  {
    if n.Label? && Lookup(comp, n) == |comp| {
      LowPointer(off + 1 + |n.text|, n.rest, comp + [Entry(n, off)]);
    }
  }

  // ---------- the length of a name field ----------

  /** `label_len`: how far a name field extends, without following pointers. */
  function LabelLength(s: seq<byte>, off: nat): (len: nat)
    decreases |s| - off
  {
    if off >= |s| then 0
    else if s[off] == 0 then 1
    else if IsPointer(s[off]) then 2
    else s[off] as nat + 1 + LabelLength(s, off + s[off] as nat + 1)
  }

  lemma HasFirst(s: seq<byte>, off: nat, b: seq<byte>)
    requires |b| > 0 && Has(s, off, b)
    ensures off < |s| && s[off] == b[0]
  {
    assert s[off + 0] == b[0];
  }

  /** The field of an encoded name is as long as what the encoder wrote. */
  lemma {:induction false} EncodedLength(s: seq<byte>, off: nat, n: Name, comp: seq<Entry>)
    requires n.Valid() && Has(s, off, EncodeName(off, n, comp).bytes)
    ensures LabelLength(s, off) == |EncodeName(off, n, comp).bytes|
    decreases n
  {
    hide EncodeName, Lookup, Pointer, Target, Has, Name.Size;
    var w := EncodeName(off, n, comp);
    HasFirst(s, off, w.bytes);
    if n.Root? {
      EncodeRoot(off, comp);
    } else {
      EncodeNameStep(off, n, comp);
      var i := Lookup(comp, n);
      if i < |comp| {
        PointerTarget(s, off, comp[i].pos);
        assert |Pointer(comp[i].pos)| == 2;
      } else {
        var l := n.text;
        assert w.bytes[0] as nat == |l|;
        var w1 := EncodeName(off + 1 + |l|, n.rest, comp + [Entry(n, off)]);
        HasSplit(s, off, [|l| as byte] + l, w1.bytes);
        EncodedLength(s, off + 1 + |l|, n.rest, comp + [Entry(n, off)]);
      }
    }
  }
}

/** One reply, byte by byte: a service, and the SRV, TXT, address and NSEC records that go with it. */
module MdnsExamples {
  import opened Numbers
  import opened MdnsNames
  import opened MdnsRecords
  import opened MdnsPackets

  const LOCAL := Label([0x6C], Root)
  const SERVICE := Label([0x72], LOCAL)
  const INSTANCE := Label([0x61], SERVICE)
  const HOST := Label([0x68], LOCAL)

  const POINTED := Record(SERVICE, 1, false, 120, PTR(INSTANCE))
  const LOCATED := Record(INSTANCE, 1, true, 120, SRV(1, 2, 5000, HOST))
  const DESCRIBED := Record(INSTANCE, 1, true, 4500, TXT([[0x78, 0x3D, 0x31]]))
  const ADDRESSED := Record(HOST, 1, true, 120, A(0x0201_A8C0))  // 192.168.1.2 on a little-endian host
  const DENIED := Record(HOST, 1, true, 120, NSEC([0x40, 0, 0, 0, 8]))

  function ServiceReply(): Packet
  {
    Packet(7, 0x8400, 0, 1, 0, 4, [], [POINTED], [], [LOCATED, DESCRIBED, ADDRESSED, DENIED])
  }

  const C1 := [Entry(Root, 0), Entry(SERVICE, 12), Entry(LOCAL, 14), Entry(INSTANCE, 27)]
  const C2 := C1 + [Entry(HOST, 49)]

  lemma {:induction false} Found(c: seq<Entry>, n: Name, i: nat)
    requires i <= |c| && (i < |c| ==> c[i].name == n) && forall k | 0 <= k < i :: c[k].name != n
    ensures Lookup(c, n) == i
  {
    if i > 0 {
      Found(c[1..], n, i - 1);
    }
  }

  lemma ServiceName()
    ensures EncodeName(12, SERVICE, [Entry(Root, 0)]) == Written([1, 0x72, 1, 0x6C, 0], C1[..3])
  {
    hide Lookup, Pointer;
    var c0 := [Entry(Root, 0)];
    Found(c0, SERVICE, 1);
    Found(c0 + [Entry(SERVICE, 12)], LOCAL, 2);
    EncodeRoot(16, c0 + [Entry(SERVICE, 12)] + [Entry(LOCAL, 14)]);
  }

  lemma InstanceName()
    ensures EncodeName(27, INSTANCE, C1[..3]) == Written([1, 0x61, 0xC0, 12], C1)
  {
    hide Lookup;
    Found(C1[..3], INSTANCE, 3);
    Found(C1[..3] + [Entry(INSTANCE, 27)], SERVICE, 1);
  }

  lemma HostName()
    ensures EncodeName(49, HOST, C1) == Written([1, 0x68, 0xC0, 14], C2)
  {
    hide Lookup;
    Found(C1, HOST, 4);
    Found(C1 + [Entry(HOST, 49)], LOCAL, 2);
  }

  /** Once written, the names are pointed to. */
  lemma Pointers(off: nat)
    ensures EncodeName(off, INSTANCE, C1) == Written([0xC0, 27], C1)
    ensures EncodeName(off, INSTANCE, C2) == Written([0xC0, 27], C2)
    ensures EncodeName(off, HOST, C2) == Written([0xC0, 49], C2)
  {
    hide Lookup;
    Found(C1, INSTANCE, 3);
    Found(C2, INSTANCE, 3);
    Found(C2, HOST, 4);
  }

  /** A record is its name, its fixed part and its data. */
  lemma Assembled(off: nat, r: Record, comp: seq<Entry>, name: Written, fixed: seq<byte>, data: Written)
    requires EncodeName(off, r.name, comp) == name && FixedPart(r, |data.bytes|) == fixed
    requires EncodeData(off + |name.bytes| + 10, r, name.comp) == data
    ensures EncodeRecord(off, r, comp) == Written(name.bytes + (fixed + data.bytes), data.comp)
  {
  }

  lemma DataOfPointed()
    ensures EncodeData(27, POINTED, C1[..3]) == Written([1, 0x61, 0xC0, 12], C1)
  {
    hide EncodeName;
    InstanceName();
  }

  lemma FixedOfPointed()
    ensures FixedPart(POINTED, 4) == [0, 12, 0, 1, 0, 0, 0, 120, 0, 4]
  {
  }

  lemma Pointed()
    ensures EncodeRecord(12, POINTED, [Entry(Root, 0)]) ==
      Written([1, 0x72, 1, 0x6C, 0] + ([0, 12, 0, 1, 0, 0, 0, 120, 0, 4] + [1, 0x61, 0xC0, 12]), C1)
  {
    hide EncodeName, EncodeData, EncodeRecord, FixedPart;
    ServiceName();
    DataOfPointed();
    FixedOfPointed();
    Assembled(12, POINTED, [Entry(Root, 0)], Written([1, 0x72, 1, 0x6C, 0], C1[..3]),
              [0, 12, 0, 1, 0, 0, 0, 120, 0, 4], Written([1, 0x61, 0xC0, 12], C1));
  }

  lemma DataOfLocated()
    ensures EncodeData(43, LOCATED, C1) == Written([0, 1, 0, 2, 0x13, 0x88, 1, 0x68, 0xC0, 14], C2)
  {
    hide EncodeName;
    HostName();
  }

  lemma FixedOfLocated()
    ensures FixedPart(LOCATED, 10) == [0, 33, 0x80, 1, 0, 0, 0, 120, 0, 10]
  {
  }

  lemma Located()
    ensures EncodeRecord(31, LOCATED, C1) ==
      Written([0xC0, 27] + ([0, 33, 0x80, 1, 0, 0, 0, 120, 0, 10] + [0, 1, 0, 2, 0x13, 0x88, 1, 0x68, 0xC0, 14]), C2)
  {
    hide EncodeName, EncodeData, EncodeRecord, FixedPart;
    Pointers(31);
    DataOfLocated();
    FixedOfLocated();
    Assembled(31, LOCATED, C1, Written([0xC0, 27], C1),
              [0, 33, 0x80, 1, 0, 0, 0, 120, 0, 10], Written([0, 1, 0, 2, 0x13, 0x88, 1, 0x68, 0xC0, 14], C2));
  }

  lemma DataOfDescribed()
    ensures EncodeData(65, DESCRIBED, C2) == Written([3, 0x78, 0x3D, 0x31], C2)
  {
    hide EncodeName;
    var strings: seq<seq<byte>> := [[0x78, 0x3D, 0x31]];
    assert TxtBytes(strings, 1) == [];
    assert TxtBytes(strings, 0) == [3, 0x78, 0x3D, 0x31];
  }

  lemma FixedOfDescribed()
    ensures FixedPart(DESCRIBED, 4) == [0, 16, 0x80, 1, 0, 0, 0x11, 0x94, 0, 4]
  {
  }

  lemma Described()
    ensures EncodeRecord(53, DESCRIBED, C2) ==
      Written([0xC0, 27] + ([0, 16, 0x80, 1, 0, 0, 0x11, 0x94, 0, 4] + [3, 0x78, 0x3D, 0x31]), C2)
  {
    hide EncodeName, EncodeData, EncodeRecord, FixedPart;
    Pointers(53);
    DataOfDescribed();
    FixedOfDescribed();
    Assembled(53, DESCRIBED, C2, Written([0xC0, 27], C2),
              [0, 16, 0x80, 1, 0, 0, 0x11, 0x94, 0, 4], Written([3, 0x78, 0x3D, 0x31], C2));
  }

  lemma DataOfAddressed()
    ensures EncodeData(81, ADDRESSED, C2) == Written([192, 168, 1, 2], C2)
  {
    hide U32, Swap32;
    OctetsOnWire(192, 168, 1, 2);
  }

  lemma FixedOfAddressed()
    ensures FixedPart(ADDRESSED, 4) == [0, 1, 0x80, 1, 0, 0, 0, 120, 0, 4]
  {
  }

  lemma Addressed()
    ensures EncodeRecord(69, ADDRESSED, C2) ==
      Written([0xC0, 49] + ([0, 1, 0x80, 1, 0, 0, 0, 120, 0, 4] + [192, 168, 1, 2]), C2)
  {
    hide EncodeName, EncodeData, EncodeRecord, FixedPart;
    Pointers(69);
    DataOfAddressed();
    FixedOfAddressed();
    Assembled(69, ADDRESSED, C2, Written([0xC0, 49], C2),
              [0, 1, 0x80, 1, 0, 0, 0, 120, 0, 4], Written([192, 168, 1, 2], C2));
  }

  lemma DataOfDenied()
    ensures EncodeData(97, DENIED, C2) == Written([0xC0, 49, 0, 5, 0x40, 0, 0, 0, 8], C2)
  {
    hide EncodeName;
    Pointers(97);
  }

  lemma FixedOfDenied()
    ensures FixedPart(DENIED, 9) == [0, 47, 0x80, 1, 0, 0, 0, 120, 0, 9]
  {
  }

  lemma Denied()
    ensures EncodeRecord(85, DENIED, C2) ==
      Written([0xC0, 49] + ([0, 47, 0x80, 1, 0, 0, 0, 120, 0, 9] + [0xC0, 49, 0, 5, 0x40, 0, 0, 0, 8]), C2)
  {
    hide EncodeName, EncodeData, EncodeRecord, FixedPart;
    Pointers(85);
    DataOfDenied();
    FixedOfDenied();
    Assembled(85, DENIED, C2, Written([0xC0, 49], C2),
              [0, 47, 0x80, 1, 0, 0, 0, 120, 0, 9], Written([0xC0, 49, 0, 5, 0x40, 0, 0, 0, 8], C2));
  }

  /** The reply in full: the header, and five records with names pointed to where they can be. */
  lemma KnownReply()
    ensures EncodePacket(ServiceReply()) ==
      [0, 7, 0x84, 0, 0, 0, 0, 1, 0, 0, 0, 4]
      + ([1, 0x72, 1, 0x6C, 0] + ([0, 12, 0, 1, 0, 0, 0, 120, 0, 4] + [1, 0x61, 0xC0, 12]))
      + ([0xC0, 27] + ([0, 33, 0x80, 1, 0, 0, 0, 120, 0, 10] + [0, 1, 0, 2, 0x13, 0x88, 1, 0x68, 0xC0, 14]))
      + ([0xC0, 27] + ([0, 16, 0x80, 1, 0, 0, 0x11, 0x94, 0, 4] + [3, 0x78, 0x3D, 0x31]))
      + ([0xC0, 49] + ([0, 1, 0x80, 1, 0, 0, 0, 120, 0, 4] + [192, 168, 1, 2]))
      + ([0xC0, 49] + ([0, 47, 0x80, 1, 0, 0, 0, 120, 0, 9] + [0xC0, 49, 0, 5, 0x40, 0, 0, 0, 8]))
  {
    hide EncodeRecord, Header;
    Pointed();
    Located();
    Described();
    Addressed();
    Denied();
    HeaderBytes();
    var rs := AllRecords(ServiceReply());
    assert rs == [POINTED, LOCATED, DESCRIBED, ADDRESSED, DENIED];
    var e5, e4 := EncodeRecords(106, rs, 5, C2), EncodeRecords(85, rs, 4, C2);
    var e3, e2, e1 := EncodeRecords(69, rs, 3, C2), EncodeRecords(53, rs, 2, C2), EncodeRecords(31, rs, 1, C1);
    assert e5.bytes == [];
    assert e4.bytes == EncodeRecord(85, DENIED, C2).bytes;
    assert e3.bytes == EncodeRecord(69, ADDRESSED, C2).bytes + e4.bytes;
    assert e2.bytes == EncodeRecord(53, DESCRIBED, C2).bytes + e3.bytes;
    assert e1.bytes == EncodeRecord(31, LOCATED, C1).bytes + e2.bytes;
  }

  lemma HeaderBytes()
    ensures Header(ServiceReply()) == [0, 7, 0x84, 0, 0, 0, 0, 1, 0, 0, 0, 4]
  {
  }
}

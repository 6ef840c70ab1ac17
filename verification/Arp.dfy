/** arp.c: building, receiving and answering ARP frames, on the bytes of the wire. */
module Arp {
  import opened Words
  import opened ByteOrder
  import opened ArpTable
  import opened ArpCache

  const ARP_REQUEST: U16 := 1
  const ARP_REPLY: U16 := 2
  const HTYPE_ETHERNET := 1
  const TYPE_ARP: U16 := 0x0806
  const TYPE_IPV4: U16 := 0x0800
  const ETH_MAC_ADDRESS_LENGTH: Byte := 6
  const IPV4_ADDR_LEN: Byte := 4
  const ARP_FRAME_LENGTH := 28

  /** A host: its address, its mac in host order, and the order its processor runs in. */
  datatype Config = Config(ip: U32, mac: Mac, big: bool)

  function WireMac(c: Config): Mac {
    HtonMac(c.mac, c.big)
  }

  /** An `arp_frame_t` as the processor sees its fields. */
  datatype ArpFrame = ArpFrame(
    hardwareType: U16, protocolType: U16, hardwareLength: Byte, protocolLength: Byte, opcode: U16,
    srcMac: Mac, srcIp: U32, destMac: Mac, destIp: U32)

  /** The packed structure laid over the first 28 bytes of a payload. */
  function Parse(p: seq<Byte>, big: bool): ArpFrame
    requires |p| >= ARP_FRAME_LENGTH
  {
    ArpFrame(Load16(p[0..2], big), Load16(p[2..4], big), p[4], p[5], Load16(p[6..8], big),
             p[8..14], Load32(p[14..18], big), p[18..24], Load32(p[24..28], big))
  }

  function Layout(f: ArpFrame, big: bool): seq<Byte> {
    Store16(f.hardwareType, big) + Store16(f.protocolType, big) + [f.hardwareLength, f.protocolLength]
    + Store16(f.opcode, big) + f.srcMac + Store32(f.srcIp, big) + f.destMac + Store32(f.destIp, big)
  }

  /** arp_build_frame. */
  function BuildFrame(c: Config, opcode: U16, destHw: Mac, destIp: U32): ArpFrame {
    ArpFrame(Htons(HTYPE_ETHERNET, c.big), Htons(TYPE_IPV4, c.big), ETH_MAC_ADDRESS_LENGTH, IPV4_ADDR_LEN,
             Htons(opcode, c.big), HtonMac(c.mac, c.big), Htonl(c.ip, c.big), HtonMac(destHw, c.big), Htonl(destIp, c.big))
  }

  /** The bytes of a frame as RFC 826 lays it out for Ethernet and IPv4. */
  function ArpBytes(opcode: U16, srcMac: Mac, srcIp: seq<Byte>, destMac: Mac, destIp: seq<Byte>): seq<Byte> {
    [0, 1, 8, 0, 6, 4] + Bytes16(opcode) + srcMac + srcIp + destMac + destIp
  }

  /** What arp_build_frame builds has the same bytes on the wire in either processor order. */
  lemma {:induction false} BuiltBytes(c: Config, opcode: U16, destHw: Mac, destIp: U32)
    ensures Layout(BuildFrame(c, opcode, destHw, destIp), c.big) ==
            ArpBytes(opcode, WireMac(c), Bytes32(c.ip), HtonMac(destHw, c.big), Bytes32(destIp))
  {
    FieldOfHtons(HTYPE_ETHERNET, c.big);
    FieldOfHtons(TYPE_IPV4, c.big);
    FieldOfHtons(opcode, c.big);
    FieldOfHtonl(c.ip, c.big);
    FieldOfHtonl(destIp, c.big);
    assert Bytes16(HTYPE_ETHERNET) + Bytes16(TYPE_IPV4) + [6, 4] == [0, 1, 8, 0, 6, 4];
  }

  lemma {:induction false} RequestLayout(srcMac: Mac, srcIp: seq<Byte>, destMac: Mac, destIp: seq<Byte>)
    ensures ArpBytes(1, srcMac, srcIp, destMac, destIp) == [0, 1, 8, 0, 6, 4, 0, 1] + srcMac + srcIp + destMac + destIp
  {
    assert [0, 1, 8, 0, 6, 4] + Bytes16(1) == [0, 1, 8, 0, 6, 4, 0, 1];
  }

  lemma {:induction false} ReplyLayout(srcMac: Mac, srcIp: seq<Byte>, destMac: Mac, destIp: seq<Byte>)
    ensures ArpBytes(2, srcMac, srcIp, destMac, destIp) == [0, 1, 8, 0, 6, 4, 0, 2] + srcMac + srcIp + destMac + destIp
  {
    assert [0, 1, 8, 0, 6, 4] + Bytes16(2) == [0, 1, 8, 0, 6, 4, 0, 2];
  }

  /** A frame handed to ethernet_send: destination on the wire, type and payload. */
  datatype Outgoing = Outgoing(dest: Mac, etherType: U16, payload: seq<Byte>)

  predicate Supported(f: ArpFrame, big: bool) {
    && Ntohs(f.hardwareType, big) == HTYPE_ETHERNET && f.hardwareLength == ETH_MAC_ADDRESS_LENGTH
    && Ntohs(f.protocolType, big) == TYPE_IPV4 && f.protocolLength == IPV4_ADDR_LEN
  }

  /** arp_handle_request: the reply to a frame, addressed to its sender. */
  function Reply(c: Config, f: ArpFrame): Outgoing {
    var hw := NtohMac(f.srcMac, c.big);
    Outgoing(HtonMac(hw, c.big), TYPE_ARP, Layout(BuildFrame(c, ARP_REPLY, hw, Ntohl(f.srcIp, c.big)), c.big))
  }

  /** arp_send_request. */
  function Request(c: Config, ip: U32): Outgoing {
    Outgoing(HtonMac(BROADCAST_MAC, c.big), TYPE_ARP, Layout(BuildFrame(c, ARP_REQUEST, NULL_MAC, ip), c.big))
  }

  /** The effect of arp_receive on table t, with the clock readings rs of the scan and the
      reading now of the insertion. */
  predicate Receives(c: Config, t: seq<Entry>, p: seq<Byte>, rs: seq<Reading>, now: U64,
                           t': seq<Entry>, out: seq<Outgoing>)
    requires |p| >= ARP_FRAME_LENGTH && |rs| == |t| <= MAX_ARP_TABLE_ENTRIES
  {
    var f := Parse(p, c.big);
    if !Supported(f, c.big) then t' == t && out == [] else Accepted(c, t, f, rs, now, t', out)
  }

  /** The same for a supported frame. */
  predicate Accepted(c: Config, t: seq<Entry>, f: ArpFrame, rs: seq<Reading>, now: U64,
                           t': seq<Entry>, out: seq<Outgoing>)
    requires |rs| == |t| <= MAX_ARP_TABLE_ENTRIES
  {
    var mac, ip := NtohMac(f.srcMac, c.big), Ntohl(f.srcIp, c.big);
    var merged := LastHit(t, ip, rs, |t|) != NOT_FOUND;
    var t1 := AfterUpdate(t, mac, ip, rs);
    var forUs := Ntohl(f.destIp, c.big) == c.ip;
    && (if forUs && !merged && t != [] then AfterAdd(t1, mac, ip, now, t') else t' == t1)
    && out == if forUs && Ntohs(f.opcode, c.big) == ARP_REQUEST then [Reply(c, f)] else []
  }

  // --------------------------------------------------------------- RFC 826

  /** "Packet Reception" of RFC 826, on wire bytes, for a cache that ages and is bounded:
      unsupported hardware or protocol is ignored; a sender already cached is updated; if
      the target is us, a sender not cached is added; and a request is answered by a reply
      with the addresses swapped and ours filled in. */
  ghost predicate Rfc826(c: Config, m: Cache, p: seq<Byte>, m': Cache, out: seq<Outgoing>, lo: nat, hi: nat)
    requires |p| >= ARP_FRAME_LENGTH
  {
    if !ForIpv4(p) then m' == m && out == []
    else Handled(c, m, p[8..14], Wire32(p[14..18]), ForUs(c, p), m', lo, hi) && out == Answer(c, p)
  }

  /** Hardware Ethernet and protocol IPv4. */
  predicate ForIpv4(p: seq<Byte>)
    requires |p| >= ARP_FRAME_LENGTH
  {
    p[0..2] == [0, 1] && p[2..4] == [8, 0] && p[4] == 6 && p[5] == 4
  }

  predicate ForUs(c: Config, p: seq<Byte>)
    requires |p| >= ARP_FRAME_LENGTH
  {
    p[24..28] == Bytes32(c.ip)
  }

  function Answer(c: Config, p: seq<Byte>): seq<Outgoing>
    requires |p| >= ARP_FRAME_LENGTH
  {
    if ForUs(c, p) && p[6..8] == [0, 1] then
      [Outgoing(p[8..14], 0x0806, [0, 1, 8, 0, 6, 4, 0, 2] + WireMac(c) + Bytes32(c.ip) + p[8..14] + p[14..18])]
    else []
  }

  /** The sender is merged into the cache and, if the frame is for us, in it afterwards. */
  ghost predicate Handled(c: Config, m: Cache, mac: Mac, ip: U32, forUs: bool, m': Cache, lo: nat, hi: nat) {
    exists m1: Cache, merged: bool :: Merged(c, m, mac, ip, m1, merged, lo, hi) &&
      if forUs && !merged then
        exists now: nat :: lo <= now <= hi && Inserted(m1, m', NtohMac(mac, c.big), ip, now)
      else m' == m1
  }

  /** The cache after ageing, with the sender's mac updated if the sender is cached. */
  ghost predicate Merged(c: Config, m: Cache, mac: Mac, ip: U32, m1: Cache, merged: bool, lo: nat, hi: nat) {
    exists a: Cache :: Aged(m, a, ip, merged, lo, hi) && Updated(a, m1, NtohMac(mac, c.big), ip)
  }

  lemma {:induction false} TypesOfParsed(p: seq<Byte>, big: bool)
    requires |p| >= ARP_FRAME_LENGTH
    ensures var f := Parse(p, big);
      && Ntohs(f.hardwareType, big) == Wire16(p[0..2]) && Ntohs(f.protocolType, big) == Wire16(p[2..4])
      && Ntohs(f.opcode, big) == Wire16(p[6..8])
  {
    NtohsOfField(p[0..2], big);
    NtohsOfField(p[2..4], big);
    NtohsOfField(p[6..8], big);
  }

  lemma {:induction false} AddressesOfParsed(p: seq<Byte>, big: bool)
    requires |p| >= ARP_FRAME_LENGTH
    ensures Ntohl(Parse(p, big).srcIp, big) == Wire32(p[14..18]) && Ntohl(Parse(p, big).destIp, big) == Wire32(p[24..28])
  {
    NtohlOfField(p[14..18], big);
    NtohlOfField(p[24..28], big);
  }

  lemma {:induction false} TypeIs(b: seq<Byte>)
    requires |b| == 2
    ensures Wire16(b) == 1 <==> b == [0, 1]
    ensures Wire16(b) == 0x0800 <==> b == [8, 0]
  {
  }

  lemma {:induction false} FieldsOfParsed(p: seq<Byte>, big: bool)
    requires |p| >= ARP_FRAME_LENGTH
    ensures var f := Parse(p, big);
      && (Supported(f, big) <==> p[0..2] == [0, 1] && p[2..4] == [8, 0] && p[4] == 6 && p[5] == 4)
      && Ntohl(f.srcIp, big) == Wire32(p[14..18]) && Ntohl(f.destIp, big) == Wire32(p[24..28])
      && (Ntohs(f.opcode, big) == ARP_REQUEST <==> p[6..8] == [0, 1])
  {
    TypesOfParsed(p, big);
    TypeIs(p[0..2]);
    TypeIs(p[2..4]);
    TypeIs(p[6..8]);
    AddressesOfParsed(p, big);
  }

  /** The reply's target fields are the very sender bytes of the request. */
  lemma {:induction false} ReplyBytes(c: Config, p: seq<Byte>)
    requires |p| >= ARP_FRAME_LENGTH
    ensures Reply(c, Parse(p, c.big)) ==
            Outgoing(p[8..14], 0x0806, [0, 1, 8, 0, 6, 4, 0, 2] + WireMac(c) + Bytes32(c.ip) + p[8..14] + p[14..18])
  {
    var hw := NtohMac(p[8..14], c.big);
    FieldsOfParsed(p, c.big);
    BuiltBytes(c, ARP_REPLY, hw, Wire32(p[14..18]));
    ReplyLayout(WireMac(c), Bytes32(c.ip), p[8..14], p[14..18]);
    RoundTripsMac(p[8..14], c.big);
    BytesOfWire32(p[14..18]);
  }

  lemma {:induction false} WireIs(b: seq<Byte>, x: U32)
    requires |b| == 4
    ensures Wire32(b) == x <==> b == Bytes32(x)
  {
    BytesOfWire32(b);
    WireOfBytes32(x);
  }

  /** The frames arp_receive handles by the book, with the clock readings it takes: those it
      ignores; those with a sender address, unless the sender is to be added while the clock
      shows zero; and those without, if they are for others and meet no free slot, or only
      overwrite free slots with what they hold. */
  predicate ByTheBook(c: Config, t: seq<Entry>, p: seq<Byte>, rs: seq<Reading>, now: U64)
    requires |p| >= ARP_FRAME_LENGTH && |rs| == |t|
  {
    var f := Parse(p, c.big);
    var ip, forUs := Ntohl(f.srcIp, c.big), Ntohl(f.destIp, c.big) == c.ip;
    !Supported(f, c.big) || Manageable(t, NtohMac(f.srcMac, c.big), ip, forUs, rs, now)
  }

  /** The same for a supported frame from this sender. */
  predicate Manageable(t: seq<Entry>, mac: Mac, ip: U32, forUs: bool, rs: seq<Reading>, now: U64)
    requires |rs| == |t|
  {
    if ip != 0 then now != 0 || !forUs else !forUs && Harmless(t, mac, ip, rs)
  }

  lemma {:induction false} MergedByUpdate(c: Config, t: seq<Entry>, mac: Mac, ip: U32, rs: seq<Reading>, lo: nat, hi: nat)
    requires WellFormed(t, lo) && Readings(t, rs, lo, hi) && Harmless(t, NtohMac(mac, c.big), ip, rs)
    ensures WellFormed(AfterUpdate(t, NtohMac(mac, c.big), ip, rs), hi)
    ensures var m1 := Bindings(AfterUpdate(t, NtohMac(mac, c.big), ip, rs));
      Merged(c, Bindings(t), mac, ip, m1, ip in m1, lo, hi)
  {
    UpdateRefinesCache(t, NtohMac(mac, c.big), ip, rs, lo, hi);
    if Searchable(t, ip) {
      FindAges(t, ip, rs, lo, hi);
      FoundMeansKept(t, ip, rs, lo, hi);
    } else {
      NothingStamped(t, ip, rs, lo, hi);
    }
    var a := Bindings(AfterFind(t, ip, rs));
    assert Aged(Bindings(t), a, ip, ip in a, lo, hi);
  }

  /** For a sender with an address, the code's flag says whether it is cached. */
  lemma {:induction false} FlagIsCached(t: seq<Entry>, mac: Mac, ip: U32, rs: seq<Reading>, lo: nat, hi: nat)
    requires WellFormed(t, lo) && Readings(t, rs, lo, hi) && ip != 0
    ensures WellFormed(AfterUpdate(t, mac, ip, rs), hi)
    ensures LastHit(t, ip, rs, |t|) != NOT_FOUND <==> ip in Bindings(AfterUpdate(t, mac, ip, rs))
    ensures LastHit(t, ip, rs, |t|) != NOT_FOUND ==> hi != 0
  {
    UpdateRefinesCache(t, mac, ip, rs, lo, hi);
    FoundMeansKept(t, ip, rs, lo, hi);
    HitIsSlot(t, ip, rs, lo, hi);
  }

  /** The table part of arp_receive, for a supported frame. */
  ghost predicate TableAfter(t: seq<Entry>, mac: Mac, ip: U32, forUs: bool, rs: seq<Reading>, now: U64, t': seq<Entry>)
    requires |rs| == |t| <= MAX_ARP_TABLE_ENTRIES
  {
    var t1 := AfterUpdate(t, mac, ip, rs);
    if forUs && LastHit(t, ip, rs, |t|) == NOT_FOUND then AfterAdd(t1, mac, ip, now, t') else t' == t1
  }

  lemma {:induction false} SenderMerged(c: Config, t: seq<Entry>, mac: Mac, ip: U32, forUs: bool, rs: seq<Reading>,
                                        now: U64, t': seq<Entry>, lo: nat)
    requires WellFormed(t, lo) && Readings(t, rs, lo, now) && Harmless(t, NtohMac(mac, c.big), ip, rs)
    requires t' == AfterUpdate(t, NtohMac(mac, c.big), ip, rs)
    requires forUs ==> WellFormed(t', now) && ip in Bindings(t')
    ensures WellFormed(t', now) && Handled(c, Bindings(t), mac, ip, forUs, Bindings(t'), lo, now)
  {
    MergedByUpdate(c, t, mac, ip, rs, lo, now);
  }

  lemma {:induction false} SenderAdded(c: Config, t: seq<Entry>, mac: Mac, ip: U32, rs: seq<Reading>, now: U64,
                                       t': seq<Entry>, lo: nat)
    requires WellFormed(t, lo) && Readings(t, rs, lo, now) && ip != 0 && LastHit(t, ip, rs, |t|) == NOT_FOUND
    requires AfterAdd(AfterUpdate(t, NtohMac(mac, c.big), ip, rs), NtohMac(mac, c.big), ip, now, t')
    ensures now != 0 <==> WellFormed(t', now) && Handled(c, Bindings(t), mac, ip, true, Bindings(t'), lo, now)
  {
    var t1 := AfterUpdate(t, NtohMac(mac, c.big), ip, rs);
    FlagIsCached(t, NtohMac(mac, c.big), ip, rs, lo, now);
    MergedByUpdate(c, t, mac, ip, rs, lo, now);
    AddRefinesCache(t1, now, NtohMac(mac, c.big), ip, now, t');
    if now != 0 {
      assert Merged(c, Bindings(t), mac, ip, Bindings(t1), false, lo, now);
      assert Inserted(Bindings(t1), Bindings(t'), NtohMac(mac, c.big), ip, now);
    }
  }

  lemma {:induction false} MergedIsCached(c: Config, m: Cache, mac: Mac, ip: U32, m1: Cache, merged: bool, lo: nat, hi: nat)
    requires Merged(c, m, mac, ip, m1, merged, lo, hi)
    ensures merged ==> ip in m
  {
    var a: Cache :| Aged(m, a, ip, merged, lo, hi);
  }

  /** A sender without an address, in a frame for us, is never handled as RFC 826 says. */
  lemma {:induction false} ZeroNotHandled(c: Config, m: Cache, mac: Mac, m': Cache, lo: nat, hi: nat)
    requires 0 !in m && 0 !in m'
    ensures !Handled(c, m, mac, 0, true, m', lo, hi)
  {
    forall m1: Cache, merged: bool | Merged(c, m, mac, 0, m1, merged, lo, hi)
      ensures merged ==> 0 in m
    {
      MergedIsCached(c, m, mac, 0, m1, merged, lo, hi);
    }
  }

  lemma {:induction false} SenderHandled(c: Config, t: seq<Entry>, mac: Mac, ip: U32, forUs: bool, rs: seq<Reading>,
                                         now: U64, t': seq<Entry>, lo: nat)
    requires WellFormed(t, lo) && Readings(t, rs, lo, now)
    requires TableAfter(t, NtohMac(mac, c.big), ip, forUs, rs, now, t')
    ensures Manageable(t, NtohMac(mac, c.big), ip, forUs, rs, now) <==>
            WellFormed(t', now) && Handled(c, Bindings(t), mac, ip, forUs, Bindings(t'), lo, now)
  {
    if ip != 0 {
      FlagIsCached(t, NtohMac(mac, c.big), ip, rs, lo, now);
      if forUs && LastHit(t, ip, rs, |t|) == NOT_FOUND {
        SenderAdded(c, t, mac, ip, rs, now, t', lo);
      } else {
        SenderMerged(c, t, mac, ip, forUs, rs, now, t', lo);
      }
    } else if forUs {
      ZeroNotBound(t, lo);
      if WellFormed(t', now) {
        ZeroNotBound(t', now);
        ZeroNotHandled(c, Bindings(t), mac, Bindings(t'), lo, now);
      }
    } else {
      UpdateRefinesCache(t, NtohMac(mac, c.big), ip, rs, lo, now);
      if Harmless(t, NtohMac(mac, c.big), ip, rs) {
        SenderMerged(c, t, mac, ip, forUs, rs, now, t', lo);
      }
    }
  }

  // A frame in terms of its wire bytes.

  lemma {:induction false} AcceptedTable(c: Config, t: seq<Entry>, p: seq<Byte>, rs: seq<Reading>, now: U64,
                                         t': seq<Entry>, out: seq<Outgoing>)
    requires |rs| == |t| == MAX_ARP_TABLE_ENTRIES && |p| >= ARP_FRAME_LENGTH
    requires Accepted(c, t, Parse(p, c.big), rs, now, t', out)
    ensures TableAfter(t, NtohMac(p[8..14], c.big), Wire32(p[14..18]), ForUs(c, p), rs, now, t')
  {
    AddressesOfParsed(p, c.big);
    WireIs(p[24..28], c.ip);
  }

  lemma {:induction false} AcceptedAnswer(c: Config, t: seq<Entry>, p: seq<Byte>, rs: seq<Reading>, now: U64,
                                          t': seq<Entry>, out: seq<Outgoing>)
    requires |rs| == |t| <= MAX_ARP_TABLE_ENTRIES && |p| >= ARP_FRAME_LENGTH
    requires Accepted(c, t, Parse(p, c.big), rs, now, t', out)
    ensures out == Answer(c, p)
  {
    AsksUs(c, p);
    ReplyBytes(c, p);
  }

  lemma {:induction false} AsksUs(c: Config, p: seq<Byte>)
    requires |p| >= ARP_FRAME_LENGTH
    ensures var f := Parse(p, c.big);
      Ntohl(f.destIp, c.big) == c.ip && Ntohs(f.opcode, c.big) == ARP_REQUEST <==> ForUs(c, p) && p[6..8] == [0, 1]
  {
    TypesOfParsed(p, c.big);
    TypeIs(p[6..8]);
    AddressesOfParsed(p, c.big);
    WireIs(p[24..28], c.ip);
  }

  lemma {:induction false} ByTheBookBytes(c: Config, t: seq<Entry>, p: seq<Byte>, rs: seq<Reading>, now: U64)
    requires |p| >= ARP_FRAME_LENGTH && |rs| == |t|
    ensures Supported(Parse(p, c.big), c.big) <==> ForIpv4(p)
    ensures ByTheBook(c, t, p, rs, now) <==>
            !ForIpv4(p) || Manageable(t, NtohMac(p[8..14], c.big), Wire32(p[14..18]), ForUs(c, p), rs, now)
  {
    FieldsOfParsed(p, c.big);
    WireIs(p[24..28], c.ip);
  }

  /** arp_receive leaves the table in order and does what RFC 826 says exactly for the frames
      it handles by the book. */
  lemma {:induction false} ReceiveFollowsRfc826(c: Config, t: seq<Entry>, p: seq<Byte>, rs: seq<Reading>, now: U64,
                                                t': seq<Entry>, out: seq<Outgoing>, lo: nat)
    requires WellFormed(t, lo) && Readings(t, rs, lo, now) && |p| >= ARP_FRAME_LENGTH
    requires Receives(c, t, p, rs, now, t', out)
    ensures ByTheBook(c, t, p, rs, now) <==>
            WellFormed(t', now) && Rfc826(c, Bindings(t), p, Bindings(t'), out, lo, now)
  {
    ByTheBookBytes(c, t, p, rs, now);
    if ForIpv4(p) {
      AcceptedTable(c, t, p, rs, now, t', out);
      AcceptedAnswer(c, t, p, rs, now, t', out);
      SenderHandled(c, t, p[8..14], Wire32(p[14..18]), ForUs(c, p), rs, now, t', lo);
    } else {
      LaterWellFormed(t, lo, now);
    }
  }

  lemma {:induction false} TableInOrder(t: seq<Entry>, mac: Mac, ip: U32, forUs: bool, rs: seq<Reading>, now: U64,
                                        t': seq<Entry>, lo: nat)
    requires WellFormed(t, lo) && Readings(t, rs, lo, now) && TableAfter(t, mac, ip, forUs, rs, now, t')
    ensures WellFormed(t', now) <==>
            if ip != 0 then now != 0 || !forUs else Harmless(t, mac, ip, rs) && (forUs ==> !Searchable(t, ip))
  {
    var t1 := AfterUpdate(t, mac, ip, rs);
    UpdateRefinesCache(t, mac, ip, rs, lo, now);
    if ip != 0 {
      FlagIsCached(t, mac, ip, rs, lo, now);
    } else if Searchable(t, ip) {
      HitIsSlot(t, ip, rs, lo, now);
      assert Taken(t[0]);
    } else {
      ZeroIsFound(t, ip, rs, lo, now);
    }
    if forUs && LastHit(t, ip, rs, |t|) == NOT_FOUND {
      ZeroNotBound(t1, now);
      AddRefinesCache(t1, now, mac, ip, now, t');
    }
  }

  /** The frames that leave the table in order. They are those handled by the book and one kind
      more: sent to us without a sender address while the clock shows zero, which nothing is
      made of. */
  lemma {:induction false} ReceiveKeepsWellFormed(c: Config, t: seq<Entry>, p: seq<Byte>, rs: seq<Reading>, now: U64,
                                                  t': seq<Entry>, out: seq<Outgoing>, lo: nat)
    requires WellFormed(t, lo) && Readings(t, rs, lo, now) && |p| >= ARP_FRAME_LENGTH
    requires Receives(c, t, p, rs, now, t', out)
    ensures var f := Parse(p, c.big);
            var mac, ip, forUs := NtohMac(f.srcMac, c.big), Ntohl(f.srcIp, c.big), Ntohl(f.destIp, c.big) == c.ip;
      WellFormed(t', now) <==>
      || !Supported(f, c.big)
      || (if ip != 0 then now != 0 || !forUs else Harmless(t, mac, ip, rs) && (forUs ==> !Searchable(t, ip)))
  {
    var f := Parse(p, c.big);
    if Supported(f, c.big) {
      var mac, ip, forUs := NtohMac(f.srcMac, c.big), Ntohl(f.srcIp, c.big), Ntohl(f.destIp, c.big) == c.ip;
      TableInOrder(t, mac, ip, forUs, rs, now, t', lo);
    } else {
      LaterWellFormed(t, lo, now);
    }
  }

  lemma {:induction false} SliceOfPrefix(p: seq<Byte>, n: nat, i: nat, j: nat)
    requires i <= j <= n <= |p|
    ensures p[..n][i..j] == p[i..j]
  {
  }

  lemma {:induction false} ParsePrefix(p: seq<Byte>, big: bool)
    requires |p| >= ARP_FRAME_LENGTH
    ensures Parse(p, big) == Parse(p[..ARP_FRAME_LENGTH], big)
  {
    SliceOfPrefix(p, ARP_FRAME_LENGTH, 0, 2);
    SliceOfPrefix(p, ARP_FRAME_LENGTH, 2, 4);
    SliceOfPrefix(p, ARP_FRAME_LENGTH, 6, 8);
    SliceOfPrefix(p, ARP_FRAME_LENGTH, 8, 14);
    SliceOfPrefix(p, ARP_FRAME_LENGTH, 14, 18);
    SliceOfPrefix(p, ARP_FRAME_LENGTH, 18, 24);
    SliceOfPrefix(p, ARP_FRAME_LENGTH, 24, 28);
  }

  /** Only the first 28 bytes of a payload matter. A frame may be shorter: the code then reads
      what else is in the packet's slot. */
  lemma {:induction false} FirstBytesMatter(c: Config, t: seq<Entry>, p: seq<Byte>, q: seq<Byte>, rs: seq<Reading>, now: U64,
                                            t': seq<Entry>, out: seq<Outgoing>)
    requires |p| >= ARP_FRAME_LENGTH && |q| >= ARP_FRAME_LENGTH && p[..ARP_FRAME_LENGTH] == q[..ARP_FRAME_LENGTH]
    requires |rs| == |t| <= MAX_ARP_TABLE_ENTRIES
    ensures Receives(c, t, p, rs, now, t', out) <==> Receives(c, t, q, rs, now, t', out)
  {
    ParsePrefix(p, c.big);
    ParsePrefix(q, c.big);
  }

  lemma {:induction false} FieldsOfBytes(opcode: U16, srcMac: Mac, srcIp: seq<Byte>, destMac: Mac, destIp: seq<Byte>)
    requires |srcIp| == |destIp| == 4
    ensures var p := ArpBytes(opcode, srcMac, srcIp, destMac, destIp);
      && |p| == ARP_FRAME_LENGTH
      && p[0..2] == [0, 1] && p[2..4] == [8, 0] && p[4] == 6 && p[5] == 4
      && p[8..14] == srcMac && p[14..18] == srcIp && p[24..28] == destIp
  {
  }

  // ------------------------------------------------- asking and answering

  /** The null and the broadcast address are the same in either order. */
  lemma {:induction false} SameReversed(big: bool)
    ensures HtonMac(NULL_MAC, big) == [0, 0, 0, 0, 0, 0]
    ensures HtonMac(BROADCAST_MAC, big) == [0xff, 0xff, 0xff, 0xff, 0xff, 0xff]
  {
  }

  /** A request is broadcast: it asks every host for the mac of this address. */
  lemma {:induction false} RequestBytes(c: Config, ip: U32)
    ensures Request(c, ip) ==
            Outgoing([0xff, 0xff, 0xff, 0xff, 0xff, 0xff], 0x0806,
                     [0, 1, 8, 0, 6, 4, 0, 1] + WireMac(c) + Bytes32(c.ip) + [0, 0, 0, 0, 0, 0] + Bytes32(ip))
  {
    BuiltBytes(c, ARP_REQUEST, NULL_MAC, ip);
    SameReversed(c.big);
    RequestLayout(WireMac(c), Bytes32(c.ip), NULL_MAC, Bytes32(ip));
  }

  /** The bytes of the reply of c to asker. */
  function ReplyTo(asker: Config, c: Config): seq<Byte> {
    [0, 1, 8, 0, 6, 4, 0, 2] + WireMac(c) + Bytes32(c.ip) + WireMac(asker) + Bytes32(asker.ip)
  }

  lemma {:induction false} OpcodeOfBytes(opcode: U16, srcMac: Mac, srcIp: seq<Byte>, destMac: Mac, destIp: seq<Byte>)
    requires |srcIp| == |destIp| == 4
    ensures ArpBytes(opcode, srcMac, srcIp, destMac, destIp)[6..8] == Bytes16(opcode)
  {
  }

  /** A request as its receivers read it. */
  lemma {:induction false} RequestIs(asker: Config, ip: U32, p: seq<Byte>)
    requires p == Request(asker, ip).payload
    ensures |p| == ARP_FRAME_LENGTH && ForIpv4(p) && p[6..8] == [0, 1]
    ensures p[8..14] == WireMac(asker) && p[14..18] == Bytes32(asker.ip) && p[24..28] == Bytes32(ip)
  {
    BuiltBytes(asker, ARP_REQUEST, NULL_MAC, ip);
    var dest := HtonMac(NULL_MAC, asker.big);
    FieldsOfBytes(ARP_REQUEST, WireMac(asker), Bytes32(asker.ip), dest, Bytes32(ip));
    OpcodeOfBytes(ARP_REQUEST, WireMac(asker), Bytes32(asker.ip), dest, Bytes32(ip));
  }

  lemma {:induction false} ReceivedAnswer(c: Config, t: seq<Entry>, p: seq<Byte>, rs: seq<Reading>, now: U64,
                                          t': seq<Entry>, out: seq<Outgoing>)
    requires |rs| == |t| <= MAX_ARP_TABLE_ENTRIES && |p| >= ARP_FRAME_LENGTH && ForIpv4(p)
    requires Receives(c, t, p, rs, now, t', out)
    ensures Accepted(c, t, Parse(p, c.big), rs, now, t', out) && out == Answer(c, p)
  {
    FieldsOfParsed(p, c.big);
    AcceptedAnswer(c, t, p, rs, now, t', out);
  }

  lemma {:induction false} SameAddress(a: U32, b: U32)
    ensures Bytes32(a) == Bytes32(b) <==> a == b
  {
    WireOfBytes32(a);
    WireOfBytes32(b);
  }

  /** Of all hosts, the one whose address is asked for answers a request, with one reply to the
      mac that asked. */
  lemma {:induction false} RequestAnswered(asker: Config, c: Config, ip: U32, p: seq<Byte>, t: seq<Entry>, rs: seq<Reading>,
                                           now: U64, t': seq<Entry>, out: seq<Outgoing>)
    requires |rs| == |t| <= MAX_ARP_TABLE_ENTRIES && |p| >= ARP_FRAME_LENGTH
    requires p == Request(asker, ip).payload && Receives(c, t, p, rs, now, t', out)
    ensures out == if ip == c.ip then [Outgoing(WireMac(asker), 0x0806, ReplyTo(asker, c))] else []
  {
    RequestIs(asker, ip, p);
    ReceivedAnswer(c, t, p, rs, now, t', out);
    SameAddress(ip, c.ip);
  }

  /** Who receives the reply knows the mac, unless the clock still shows zero. */
  lemma {:induction false} ReplyLearned(asker: Config, c: Config, t: seq<Entry>, rs: seq<Reading>, now: U64,
                                        t': seq<Entry>, out: seq<Outgoing>, lo: nat)
    requires WellFormed(t, lo) && Readings(t, rs, lo, now) && now != 0 && c.ip != 0
    requires Receives(asker, t, ReplyTo(asker, c), rs, now, t', out)
    ensures WellFormed(t', now) && out == []
    ensures c.ip in Bindings(t') && HtonMac(Bindings(t')[c.ip].mac, asker.big) == WireMac(c)
  {
    var p := ReplyTo(asker, c);
    ReplyToIs(asker, c);
    ReceivedAnswer(asker, t, p, rs, now, t', out);
    AcceptedTable(asker, t, p, rs, now, t', out);
    WireOfBytes32(c.ip);
    RoundTripsMac(WireMac(c), asker.big);
    SenderKnown(t, NtohMac(WireMac(c), asker.big), c.ip, rs, now, t', lo);
  }

  lemma {:induction false} ReplyToIs(asker: Config, c: Config)
    ensures var p := ReplyTo(asker, c);
      && |p| == ARP_FRAME_LENGTH && ForIpv4(p) && ForUs(asker, p)
      && p[6..8] == [0, 2] && p[8..14] == WireMac(c) && p[14..18] == Bytes32(c.ip)
  {
    ReplyLayout(WireMac(c), Bytes32(c.ip), WireMac(asker), Bytes32(asker.ip));
    FieldsOfBytes(2, WireMac(c), Bytes32(c.ip), WireMac(asker), Bytes32(asker.ip));
    OpcodeOfBytes(2, WireMac(c), Bytes32(c.ip), WireMac(asker), Bytes32(asker.ip));
  }

  lemma {:induction false} SenderKnown(t: seq<Entry>, mac: Mac, ip: U32, rs: seq<Reading>, now: U64, t': seq<Entry>, lo: nat)
    requires WellFormed(t, lo) && Readings(t, rs, lo, now) && now != 0 && ip != 0
    requires TableAfter(t, mac, ip, true, rs, now, t')
    ensures WellFormed(t', now) && ip in Bindings(t') && Bindings(t')[ip].mac == mac
  {
    FlagIsCached(t, mac, ip, rs, lo, now);
    UpdateRefinesCache(t, mac, ip, rs, lo, now);
    if LastHit(t, ip, rs, |t|) == NOT_FOUND {
      AddRefinesCache(AfterUpdate(t, mac, ip, rs), now, mac, ip, now, t');
    }
  }

  const EMPTY_TABLE := seq(MAX_ARP_TABLE_ENTRIES, _ => NULL_ENTRY)

  /** Looking for address zero in an empty table after the first second. */
  lemma {:induction false} StampedTable(mac: Mac) returns (rs: seq<Reading>, t': seq<Entry>)
    ensures WellFormed(EMPTY_TABLE, 1) && Readings(EMPTY_TABLE, rs, 1, 1)
    ensures t' == AfterUpdate(EMPTY_TABLE, mac, 0, rs) && !WellFormed(t', 1)
  {
    rs := seq(MAX_ARP_TABLE_ENTRIES, _ => Reading(1, 1));
    t' := AfterUpdate(EMPTY_TABLE, mac, 0, rs);
    assert !Taken(EMPTY_TABLE[0]) && rs[0].refresh == 1;
    UpdateRefinesCache(EMPTY_TABLE, mac, 0, rs, 1, 1);
  }

  /** An address probe as we read it. */
  lemma {:induction false} ProbeParsed(c: Config, mac: Mac, target: seq<Byte>)
    requires |target| == 4 && target != Bytes32(c.ip)
    ensures var p := ArpBytes(ARP_REQUEST, mac, [0, 0, 0, 0], NULL_MAC, target);
      && |p| == ARP_FRAME_LENGTH
      && var f := Parse(p, c.big);
      && Supported(f, c.big) && f.srcMac == mac && Ntohl(f.srcIp, c.big) == 0 && Ntohl(f.destIp, c.big) != c.ip
  {
    FieldsOfBytes(ARP_REQUEST, mac, [0, 0, 0, 0], NULL_MAC, target);
    FieldsOfParsed(ArpBytes(ARP_REQUEST, mac, [0, 0, 0, 0], NULL_MAC, target), c.big);
    WireIs(target, c.ip);
  }

  /** What goes wrong without a sender address: an address probe for somebody else, as sent
      before a host has an address, puts an empty table out of order. */
  lemma {:induction false} ProbeStampsFreeSlots(c: Config, mac: Mac, target: seq<Byte>)
    returns (rs: seq<Reading>, t': seq<Entry>)
    requires |target| == 4 && target != Bytes32(c.ip)
    ensures var p := ArpBytes(ARP_REQUEST, mac, [0, 0, 0, 0], NULL_MAC, target);
      && |p| == ARP_FRAME_LENGTH && WellFormed(EMPTY_TABLE, 1) && Readings(EMPTY_TABLE, rs, 1, 1)
      && Receives(c, EMPTY_TABLE, p, rs, 1, t', []) && !WellFormed(t', 1)
  {
    rs, t' := StampedTable(NtohMac(mac, c.big));
    ProbeParsed(c, mac, target);
  }

  /** Adding a sender to an empty table in the first second. */
  lemma {:induction false} ForgottenTable(mac: Mac, sender: U32) returns (rs: seq<Reading>, t': seq<Entry>)
    requires sender != 0
    ensures WellFormed(EMPTY_TABLE, 0) && Readings(EMPTY_TABLE, rs, 0, 0)
    ensures TableAfter(EMPTY_TABLE, mac, sender, true, rs, 0, t') && !WellFormed(t', 0)
  {
    rs := seq(MAX_ARP_TABLE_ENTRIES, _ => Reading(0, 0));
    t' := EMPTY_TABLE[0 := Entry(sender, mac, 0)];
    assert AfterUpdate(EMPTY_TABLE, mac, sender, rs) == EMPTY_TABLE;
    assert Victim(EMPTY_TABLE, 0);
    assert t'[0].time == 0 && t'[0] != NULL_ENTRY;
  }

  /** A reply as we read it. */
  lemma {:induction false} ReplyParsed(c: Config, mac: Mac, sender: U32)
    ensures var p := ArpBytes(ARP_REPLY, mac, Bytes32(sender), WireMac(c), Bytes32(c.ip));
      && |p| == ARP_FRAME_LENGTH
      && var f := Parse(p, c.big);
      && Supported(f, c.big) && f.srcMac == mac && Ntohl(f.srcIp, c.big) == sender && Ntohl(f.destIp, c.big) == c.ip
      && Ntohs(f.opcode, c.big) != ARP_REQUEST
  {
    FieldsOfBytes(ARP_REPLY, mac, Bytes32(sender), WireMac(c), Bytes32(c.ip));
    FieldsOfParsed(ArpBytes(ARP_REPLY, mac, Bytes32(sender), WireMac(c), Bytes32(c.ip)), c.big);
    WireOfBytes32(sender);
    WireOfBytes32(c.ip);
  }

  /** What goes wrong while the clock shows zero: the reply to our own first request is written
      into a slot that still counts as free. */
  lemma {:induction false} FirstSecondForgets(c: Config, mac: Mac, sender: U32)
    returns (rs: seq<Reading>, t': seq<Entry>)
    requires sender != 0
    ensures var p := ArpBytes(ARP_REPLY, mac, Bytes32(sender), WireMac(c), Bytes32(c.ip));
      && |p| == ARP_FRAME_LENGTH && WellFormed(EMPTY_TABLE, 0) && Readings(EMPTY_TABLE, rs, 0, 0)
      && Receives(c, EMPTY_TABLE, p, rs, 0, t', []) && !WellFormed(t', 0)
  {
    rs, t' := ForgottenTable(NtohMac(mac, c.big), sender);
    ReplyParsed(c, mac, sender);
  }

  // --------------------------------------------------------------- the code

  class ArpNode {
    const config: Config
    const routing: Routing
    var sent: seq<Outgoing>

    ghost predicate Valid()
      reads this, routing, routing.table
    {
      routing.Valid()
    }

    constructor (config: Config, routing: Routing)
      requires routing.Valid()
      ensures Valid() && this.config == config && this.routing == routing && sent == []
    {
      this.config := config;
      this.routing := routing;
      sent := [];
    }

    /** ethernet_send, as far as its callers here are concerned. */
    method EthernetSend(destMac: Mac, etherType: U16, payload: seq<Byte>)
      modifies this`sent
      ensures sent == old(sent) + [Outgoing(HtonMac(destMac, config.big), etherType, payload)]
    {
      var dest := ConvertMac(destMac, config.big);
      sent := sent + [Outgoing(dest, etherType, payload)];
    }

    method SendRequest(ip: U32)
      modifies this`sent
      ensures sent == old(sent) + [Request(config, ip)]
    {
      var frame := BuildFrame(config, ARP_REQUEST, NULL_MAC, ip);
      EthernetSend(BROADCAST_MAC, TYPE_ARP, Layout(frame, config.big));
    }

    method HandleRequest(frame: ArpFrame)
      modifies this`sent
      ensures sent == old(sent) + [Reply(config, frame)]
    {
      var hw := ConvertMac(frame.srcMac, config.big);
      var arpFrame := BuildFrame(config, ARP_REPLY, hw, Ntohl(frame.srcIp, config.big));
      EthernetSend(hw, TYPE_ARP, Layout(arpFrame, config.big));
    }

    /** arp_receive. The payload is the packet's slot from there on: the code does not ask how
        long the frame was. */
    method Receive(payload: seq<Byte>) returns (ghost rs: seq<Reading>, ghost now: U64, ghost out: seq<Outgoing>)
      requires Valid() && |payload| >= ARP_FRAME_LENGTH
      modifies this`sent, routing.clock, routing.table
      ensures Valid() && |rs| == |old(routing.Slots())| && sent == old(sent) + out
      ensures Monotone(rs, old(routing.clock.seconds), now) && now == routing.clock.seconds
      ensures Receives(config, old(routing.Slots()), payload, rs, now, routing.Slots(), out)
    {
      var frame := Parse(payload, config.big);
      now, out := routing.clock.seconds, [];
      rs := seq(|routing.Slots()|, _ => Reading(now, now));
      if Ntohs(frame.hardwareType, config.big) != HTYPE_ETHERNET || frame.hardwareLength != ETH_MAC_ADDRESS_LENGTH {
        return;
      }
      if Ntohs(frame.protocolType, config.big) != TYPE_IPV4 || frame.protocolLength != IPV4_ADDR_LEN {
        return;
      }
      rs, now, out := MergeAndAnswer(frame);
    }

    /** The rest of arp_receive, for a supported frame. */
    method MergeAndAnswer(frame: ArpFrame) returns (ghost rs: seq<Reading>, ghost now: U64, ghost out: seq<Outgoing>)
      requires Valid()
      modifies this`sent, routing.clock, routing.table
      ensures Valid() && |rs| == |old(routing.Slots())| && sent == old(sent) + out
      ensures Monotone(rs, old(routing.clock.seconds), now) && now == routing.clock.seconds
      ensures Accepted(config, old(routing.Slots()), frame, rs, now, routing.Slots(), out)
    {
      rs, now := Merge(frame);
      out := Answer(frame);
    }

    /** The reply to a request for our address. */
    method Answer(frame: ArpFrame) returns (ghost out: seq<Outgoing>)
      modifies this`sent
      ensures sent == old(sent) + out
      ensures out == if Ntohl(frame.destIp, config.big) == config.ip && Ntohs(frame.opcode, config.big) == ARP_REQUEST
                     then [Reply(config, frame)] else []
    {
      out := [];
      if Ntohl(frame.destIp, config.big) == config.ip && Ntohs(frame.opcode, config.big) == ARP_REQUEST {
        HandleRequest(frame);
        out := [Reply(config, frame)];
      }
    }

    /** The part of arp_receive that changes the table, for a supported frame. */
    method Merge(frame: ArpFrame) returns (ghost rs: seq<Reading>, ghost now: U64)
      requires Valid()
      modifies routing.clock, routing.table
      ensures Valid() && |rs| == |old(routing.Slots())|
      ensures Monotone(rs, old(routing.clock.seconds), now) && now == routing.clock.seconds
      ensures var t, mac, ip := old(routing.Slots()), NtohMac(frame.srcMac, config.big), Ntohl(frame.srcIp, config.big);
              var t1 := AfterUpdate(t, mac, ip, rs);
        if Ntohl(frame.destIp, config.big) == config.ip && LastHit(t, ip, rs, |t|) == NOT_FOUND && t != []
        then AfterAdd(t1, mac, ip, now, routing.Slots()) else routing.Slots() == t1
    {
      var srcMac := ConvertMac(frame.srcMac, config.big);
      var srcIp := Ntohl(frame.srcIp, config.big);
      var mergeFlag;
      mergeFlag, rs := routing.Update(srcMac, srcIp);
      if Ntohl(frame.destIp, config.big) == config.ip {
        if !mergeFlag {
          routing.AddEntry(srcMac, srcIp);
        }
      }
      now := routing.clock.seconds;
    }

    /** arp_table_get_mac: a lookup, and a request if it finds nothing. */
    method GetMac(ip: U32) returns (mac: Mac, ghost rs: seq<Reading>)
      requires Valid()
      modifies this`sent, routing.clock, routing.table
      ensures Valid() && |rs| == |old(routing.Slots())|
      ensures Monotone(rs, old(routing.clock.seconds), routing.clock.seconds)
      ensures routing.Slots() == AfterFind(old(routing.Slots()), ip, rs)
      ensures mac == LookedUp(old(routing.Slots()), ip, rs)
      ensures sent == old(sent) + if mac == NULL_MAC && routing.table != null then [Request(config, ip)] else []
    {
      if routing.table == null {
        return NULL_MAC, [];
      }
      mac, rs := routing.Lookup(ip);
      var missing := MacAddressEqual(NULL_MAC, mac);
      if missing {
        SendRequest(ip);
        mac := NULL_MAC;
      }
    }
  }
}

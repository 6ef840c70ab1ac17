/** ARP frames all the way to the card: a frame built on the stack goes through ethernet_send,
    and what the card puts on the wire is the frame of RFC 826 in an Ethernet frame. */
module ArpWire {
  import opened Words
  import opened Heap
  import opened Malloc
  import opened ByteOrder
  import opened Transmit
  import opened Ethernet
  import opened Arp

  /** An ARP payload in a minimal Ethernet frame: to and from these wire addresses. */
  function OnTheWire(dest: Mac, src: Mac, arp: seq<Byte>): seq<Byte>
    requires |arp| == ARP_FRAME_LENGTH
  {
    dest + src + [8, 6] + arp + Zeros(MINIMUM_PAYLOAD - ARP_FRAME_LENGTH)
  }

  lemma {:induction false} FrameOnTheWire(dest: Mac, src: Mac, big: bool, arp: seq<Byte>)
    requires |arp| == ARP_FRAME_LENGTH
    ensures Frame(FrameHeader(dest, src, TYPE_ARP, big), arp) == OnTheWire(HtonMac(dest, big), HtonMac(src, big), arp)
  {
    assert Bytes16(TYPE_ARP) == [8, 6];
  }

  lemma {:induction false} TransmittedArp(m: seq<Byte>, a: nat, dest: Mac, src: Mac, big: bool, arp: seq<Byte>)
    requires |arp| == ARP_FRAME_LENGTH && At(m, a, arp)
    ensures Transmitted(Frame(FrameHeader(dest, src, TYPE_ARP, big), m[a..a + ARP_FRAME_LENGTH])) ==
            [OnTheWire(HtonMac(dest, big), HtonMac(src, big), arp)]
  {
    FrameOnTheWire(dest, src, big, arp);
    TransmittedWhole(FrameHeader(dest, src, TYPE_ARP, big), arp);
  }

  /** The stores of a local structure into client memory. */
  method StoreLocal(alloc: Allocator, a: U32, bytes: seq<Byte>)
    requires alloc.Valid() && a + |bytes| <= TWO_32
    requires forall b :: Inside(a, |bytes|, b) ==> ClientByte(alloc.listHead, alloc.heap, b)
    modifies alloc.mem
    ensures alloc.Valid() && At(alloc.mem[..], a, bytes)
    ensures OnlyChanged(old(alloc.mem[..]), alloc.mem[..], a, |bytes|)
  {
    ghost var m := alloc.mem[..];
    StoreBytes(alloc.mem, a, bytes);
    LocalHarmless(m, alloc.mem[..], alloc.listHead, alloc.heap, a, |bytes|);
  }

  lemma {:induction false} LocalHarmless(m: seq<Byte>, m': seq<Byte>, listHead: nat, h: Heap, a: nat, n: nat)
    requires Holds(m, listHead, h) && OnlyChanged(m, m', a, n)
    requires forall b :: Inside(a, n, b) ==> ClientByte(listHead, h, b)
    ensures Holds(m', listHead, h)
  {
    forall b | 0 <= b < TWO_32 && !ClientByte(listHead, h, b)
      ensures m'[b] == m[b]
    {
      assert !Inside(a, n, b);
    }
    ClientWritesHarmless(m, m', listHead, h);
  }

  /** The bytes of an ARP frame, a local structure at `local`, are sent. */
  method SendFrame(alloc: Allocator, card: TxCard, dest: Mac, arp: seq<Byte>, big: bool, local: U32, patience: nat)
    requires alloc.Valid() && card.Idle() && card.mem == alloc.mem
    requires |arp| == ARP_FRAME_LENGTH && Room(alloc.heap, HEADER + MINIMUM_PAYLOAD)
    requires local + MINIMUM_PAYLOAD <= TWO_32
    requires forall b :: Inside(local, ARP_FRAME_LENGTH, b) ==> ClientByte(alloc.listHead, alloc.heap, b)
    modifies alloc, alloc.mem, card, card.descs
    ensures alloc.Valid() && card.Idle()
    ensures alloc.heap == Borrowed(old(alloc.heap), HEADER + MINIMUM_PAYLOAD)
    ensures card.wire == old(card.wire) + if card.present then
                           [OnTheWire(HtonMac(dest, big), HtonMac(card.mac, big), arp)]
                         else []
  {
    StoreLocal(alloc, local, arp);
    TransmittedArp(alloc.mem[..], local, dest, card.mac, big, arp);
    EthernetSend(alloc, card, dest, TYPE_ARP, big, local, ARP_FRAME_LENGTH, patience);
  }

  /** What the card carries for a frame handed to ethernet_send. */
  function Carried(c: Config, o: Outgoing): seq<Byte>
    requires |o.payload| == ARP_FRAME_LENGTH
  {
    OnTheWire(o.dest, WireMac(c), o.payload)
  }

  lemma {:induction false} LengthOfBuilt(c: Config, opcode: U16, hw: Mac, ip: U32)
    ensures |Layout(BuildFrame(c, opcode, hw, ip), c.big)| == ARP_FRAME_LENGTH
  {
    BuiltBytes(c, opcode, hw, ip);
  }

  /** The sixty bytes that answer a request with payload p: an Ethernet frame from us to the
      sender, in it a reply of RFC 826 whose target is the sender as it gave itself, and zeros. */
  lemma {:induction false} ReplyCarried(c: Config, p: seq<Byte>)
    requires |p| >= ARP_FRAME_LENGTH
    ensures |Reply(c, Parse(p, c.big)).payload| == ARP_FRAME_LENGTH
    ensures Carried(c, Reply(c, Parse(p, c.big))) ==
            p[8..14] + WireMac(c) + [8, 6]
            + ([0, 1, 8, 0, 6, 4, 0, 2] + WireMac(c) + Bytes32(c.ip) + p[8..14] + p[14..18]) + Zeros(18)
    ensures |Carried(c, Reply(c, Parse(p, c.big)))| == 60
  {
    ReplyBytes(c, p);
    var hw := NtohMac(p[8..14], c.big);
    LengthOfBuilt(c, ARP_REPLY, hw, Ntohl(Parse(p, c.big).srcIp, c.big));
  }

  /** The sixty bytes of a request. */
  lemma {:induction false} RequestCarried(c: Config, ip: U32)
    ensures |Request(c, ip).payload| == ARP_FRAME_LENGTH && |Carried(c, Request(c, ip))| == 60
    ensures Carried(c, Request(c, ip)) ==
            [0xff, 0xff, 0xff, 0xff, 0xff, 0xff] + WireMac(c) + [8, 6]
            + ([0, 1, 8, 0, 6, 4, 0, 1] + WireMac(c) + Bytes32(c.ip) + [0, 0, 0, 0, 0, 0] + Bytes32(ip)) + Zeros(18)
  {
    RequestBytes(c, ip);
  }

  /** arp_handle_request: the card carries the reply. */
  method HandleRequest(alloc: Allocator, card: TxCard, c: Config, frame: ArpFrame, local: U32, patience: nat)
    requires alloc.Valid() && card.Idle() && card.mem == alloc.mem && card.mac == c.mac
    requires Room(alloc.heap, HEADER + MINIMUM_PAYLOAD) && local + MINIMUM_PAYLOAD <= TWO_32
    requires forall b :: Inside(local, ARP_FRAME_LENGTH, b) ==> ClientByte(alloc.listHead, alloc.heap, b)
    modifies alloc, alloc.mem, card, card.descs
    ensures alloc.Valid() && card.Idle() && alloc.heap == Borrowed(old(alloc.heap), HEADER + MINIMUM_PAYLOAD)
    ensures |Reply(c, frame).payload| == ARP_FRAME_LENGTH
    ensures card.wire == old(card.wire) + if card.present then [Carried(c, Reply(c, frame))] else []
  {
    var hw := ConvertMac(frame.srcMac, c.big);
    LengthOfBuilt(c, ARP_REPLY, hw, Ntohl(frame.srcIp, c.big));
    var reply := BuildFrame(c, ARP_REPLY, hw, Ntohl(frame.srcIp, c.big));
    SendFrame(alloc, card, hw, Layout(reply, c.big), c.big, local, patience);
  }

  /** arp_send_request: the card carries the request. */
  method SendRequest(alloc: Allocator, card: TxCard, c: Config, ip: U32, local: U32, patience: nat)
    requires alloc.Valid() && card.Idle() && card.mem == alloc.mem && card.mac == c.mac
    requires Room(alloc.heap, HEADER + MINIMUM_PAYLOAD) && local + MINIMUM_PAYLOAD <= TWO_32
    requires forall b :: Inside(local, ARP_FRAME_LENGTH, b) ==> ClientByte(alloc.listHead, alloc.heap, b)
    modifies alloc, alloc.mem, card, card.descs
    ensures alloc.Valid() && card.Idle() && alloc.heap == Borrowed(old(alloc.heap), HEADER + MINIMUM_PAYLOAD)
    ensures |Request(c, ip).payload| == ARP_FRAME_LENGTH
    ensures card.wire == old(card.wire) + if card.present then [Carried(c, Request(c, ip))] else []
  {
    LengthOfBuilt(c, ARP_REQUEST, NULL_MAC, ip);
    var frame := BuildFrame(c, ARP_REQUEST, NULL_MAC, ip);
    SendFrame(alloc, card, BROADCAST_MAC, Layout(frame, c.big), c.big, local, patience);
  }
}

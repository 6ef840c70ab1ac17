/** ipv4_send: resolve the destination, wait for an ARP reply for at most five seconds, and
    hand the data to the Ethernet layer. Between its statements the network task may receive
    what is on the wire, and the other hosts do what they like. Every execution is a run of
    the network in ArpNetwork, so the destination it finds is the true one. */
module Ipv4 {
  import opened Words
  import opened ByteOrder
  import opened ArpTable
  import opened Arp
  import opened ArpNetwork

  /** How a call stands after a given number of turns of its loop. Nothing in the code ends
      the loop if neither a reply comes nor the clock advances. */
  datatype Outcome = Sent | TimedOut | StillWaiting

  /** The IPv4 frames among those handed to ethernet_send. */
  function Ipv4Frames(out: seq<Outgoing>): seq<Outgoing> {
    if out == [] then []
    else
      var last := out[|out| - 1];
      Ipv4Frames(out[..|out| - 1]) + if last.etherType == TYPE_IPV4 then [last] else []
  }

  lemma {:induction false} Ipv4FramesOfMore(out: seq<Outgoing>, o: Outgoing)
    ensures Ipv4Frames(out + [o]) == Ipv4Frames(out) + if o.etherType == TYPE_IPV4 then [o] else []
  {
    assert (out + [o])[..|out|] == out;
  }

  lemma {:induction false} ArpFramesDoNotCount(out: seq<Outgoing>, more: seq<Outgoing>)
    requires forall o <- more :: o.etherType == TYPE_ARP
    ensures Ipv4Frames(out + more) == Ipv4Frames(out)
    decreases |more|
  {
    if more == [] {
      assert out + more == out;
    } else {
      var n := |more| - 1;
      ArpFramesDoNotCount(out, more[..n]);
      assert out + more == (out + more[..n]) + [more[n]];
      Ipv4FramesOfMore(out + more[..n], more[n]);
    }
  }

  /** The IPv4 frames host h sent in a run, as ethernet_send got them. */
  function FramesOf(frames: seq<IpFrame>, h: nat): seq<Outgoing> {
    if frames == [] then []
    else
      var last := frames[|frames| - 1];
      FramesOf(frames[..|frames| - 1], h)
      + if last.host == h then [Outgoing(last.dest, TYPE_IPV4, last.data)] else []
  }

  lemma {:induction false} FramesOfMore(frames: seq<IpFrame>, f: IpFrame, h: nat)
    ensures FramesOf(frames + [f], h) ==
            FramesOf(frames, h) + if f.host == h then [Outgoing(f.dest, TYPE_IPV4, f.data)] else []
  {
    assert (frames + [f])[..|frames|] == frames;
  }

  /** The ARP payloads among what a host sent are on the wire. */
  ghost predicate OnWire(sent: seq<Outgoing>, wire: set<seq<Byte>>) {
    forall o <- sent :: o.etherType == TYPE_ARP ==> o.payload in wire
  }

  lemma {:induction false} RepliesAreArp(c: Config, t: seq<Entry>, p: seq<Byte>, rs: seq<Reading>, now: U64,
                                         t': seq<Entry>, out: seq<Outgoing>)
    requires |p| >= ARP_FRAME_LENGTH && |rs| == |t| <= MAX_ARP_TABLE_ENTRIES && Receives(c, t, p, rs, now, t', out)
    ensures forall o <- out :: o.etherType == TYPE_ARP
  {
  }

  lemma {:induction false} MoreOnWire(sent: seq<Outgoing>, out: seq<Outgoing>, wire: set<seq<Byte>>)
    requires OnWire(sent, wire)
    ensures OnWire(sent + out, wire + Payloads(out))
  {
  }

  /** What another host does leaves our node and our frames alone. */
  lemma {:induction false} OthersElsewhere(cs: seq<Config>, s: Net, m: Move, me: nat)
    requires Enabled(cs, s, m) && m.host != me && me < |cs|
    ensures var s' := Next(cs, s, m);
      && |s'.nodes| == |s.nodes| && s'.nodes[me] == s.nodes[me] && s.wire <= s'.wire
      && FramesOf(s'.frames, me) == FramesOf(s.frames, me)
  {
    if m.TestMac? {
      var w := s.nodes[m.host].sender;
      FramesOfMore(s.frames, IpFrame(m.host, w.ip, w.data, HtonMac(w.dest, cs[m.host].big)), me);
    }
  }

  lemma {:induction false} OneMore(cs: seq<Config>, s: Net, moves: seq<Move>, m: Move)
    requires Enabled(cs, After(cs, s, moves), m)
    ensures After(cs, s, moves + [m]) == Next(cs, After(cs, s, moves), m)
  {
    assert (moves + [m])[..|moves|] == moves;
  }

  /** How often host h looked an address up, or found it had one, in the loop of ipv4_send. */
  function LookupsBy(moves: seq<Move>, h: nat): nat {
    if moves == [] then 0
    else
      var last := moves[|moves| - 1];
      LookupsBy(moves[..|moves| - 1], h) + if last.TestMac? && last.host == h then 1 else 0
  }

  lemma {:induction false} LookupsOfMore(moves: seq<Move>, m: Move, h: nat)
    ensures LookupsBy(moves + [m], h) == LookupsBy(moves, h) + if m.TestMac? && m.host == h then 1 else 0
  {
    assert (moves + [m])[..|moves|] == moves;
  }

  lemma {:induction false} DeliveryShows(cs: seq<Config>, s: Net, m: Move, n: Node)
    requires Enabled(cs, s, m) && m.Deliver? && n == s.nodes[m.host].(table := m.table, clock := m.now)
    ensures Next(cs, s, m) == s.(nodes := s.nodes[m.host := n], wire := s.wire + Payloads(m.out))
  {
  }

  lemma {:induction false} SendShows(cs: seq<Config>, s: Net, m: Move, f: IpFrame)
    requires m.TestMac? && Enabled(cs, s, m)
    requires var w := s.nodes[m.host].sender;
      w.dest != NULL_MAC && f == IpFrame(m.host, w.ip, w.data, HtonMac(w.dest, cs[m.host].big))
    ensures Next(cs, s, m) ==
            s.(nodes := s.nodes[m.host := s.nodes[m.host].(sender := Idle)], frames := s.frames + [f],
               results := s.results + [Return(m.host, f.ip, f.data, 0)])
  {
  }

  lemma {:induction false} SuffixIs(sent: seq<Outgoing>, out: seq<Outgoing>)
    ensures (sent + out)[|sent|..] == out
  {
  }

  /** What a lookup puts on the wire. */
  function Asking(c: Config, ip: U32, asks: bool): set<seq<Byte>> {
    if asks then {Request(c, ip).payload} else {}
  }

  lemma {:induction false} CallShows(cs: seq<Config>, s: Net, m: Move, n: Node, asks: bool)
    requires Enabled(cs, s, m) && m.Call?
    requires var t := s.nodes[m.host].table;
      && n == Node(AfterFind(t, m.ip, m.rs), m.now, Asked(m.ip, m.data, LookedUp(t, m.ip, m.rs)))
      && asks == (LookedUp(t, m.ip, m.rs) == NULL_MAC && t != [])
    ensures Next(cs, s, m) == s.(nodes := s.nodes[m.host := n], wire := s.wire + Asking(cs[m.host], m.ip, asks))
  {
  }

  /** In every run, the destination a host waits with is that of the true owner. */
  lemma {:induction false} DestinationTrue(cs: seq<Config>, s: Net, moves: seq<Move>, h: nat) returns (owner: nat)
    requires Distinct(cs) && Initial(cs, s) && h < |cs| == |After(cs, s, moves).nodes|
    requires var w := After(cs, s, moves).nodes[h].sender; !w.Idle? && w.dest != NULL_MAC
    ensures var w := After(cs, s, moves).nodes[h].sender;
      owner < |cs| && cs[owner].ip == w.ip && HtonMac(w.dest, cs[h].big) == WireMac(cs[owner])
  {
    OwnersFit(cs);
    RunKeepsInv(cs, s, moves, OwnersOf(cs));
    assert TrueNode(After(cs, s, moves).nodes[h], cs[h].big, OwnersOf(cs));
    var w := After(cs, s, moves).nodes[h].sender;
    owner :| 0 <= owner < |cs| && cs[owner].ip == w.ip;
  }

  class Ipv4Layer {
    const node: ArpNode
    const cs: seq<Config>     // all hosts of the network
    const me: nat             // which of them we are
    var net: Net              // the network; our own part of it mirrors the node
    ghost var origin: Net
    ghost var trace: seq<Move>

    /** The network is the outcome of the recorded moves, and shows the node as it is. */
    ghost predicate Valid()
      reads this, node, node.routing, node.routing.table, node.routing.clock
    {
      && node.Valid() && Distinct(cs) && me < |cs| == |net.nodes| && cs[me] == node.config
      && Initial(cs, origin) && After(cs, origin, trace) == net
      && net.nodes[me].table == node.routing.Slots() && net.nodes[me].clock == node.routing.clock.seconds
      && Ipv4Frames(node.sent) == FramesOf(net.frames, me) && OnWire(node.sent, net.wire)
    }

    /** Nothing is sent, and the call of ipv4_send is here, after so many lookups in its loop. */
    ghost predicate CallIs(sender: Sender, frames: seq<Outgoing>, moves: seq<Move>, lookups: nat)
      requires me < |net.nodes|
      reads this, node
    {
      && net.nodes[me].sender == sender && Ipv4Frames(node.sent) == frames
      && moves <= trace && LookupsBy(trace, me) == LookupsBy(moves, me) + lookups
    }

    constructor (node: ArpNode, cs: seq<Config>, me: nat)
      requires node.Valid() && Distinct(cs) && me < |cs| && cs[me] == node.config
      requires node.routing.table == null && node.sent == []
      ensures Valid() && this.node == node && this.cs == cs && this.me == me && trace == []
      ensures net.nodes[me].sender.Idle?
    {
      this.node, this.cs, this.me := node, cs, me;
      var now := node.routing.clock.seconds;
      net := Net(seq(|cs|, _ => Node([], now, Idle)), {}, [], []);
      trace := [];
      new;
      origin := net;
    }

    /** Records a move whose effect the network already shows. */
    ghost method Commit(before: Net, m: Move)
      requires After(cs, origin, trace) == before && Enabled(cs, before, m) && net == Next(cs, before, m)
      modifies this`trace
      ensures After(cs, origin, trace) == net && trace == old(trace) + [m]
      ensures LookupsBy(trace, me) == LookupsBy(old(trace), me) + if m.TestMac? && m.host == me then 1 else 0
    {
      OneMore(cs, origin, trace, m);
      LookupsOfMore(trace, m, me);
      trace := trace + [m];
    }

    // ----------------------------------------------- what goes on meanwhile

    /** routing_init. */
    method RoutingInit(mallocSucceeds: bool)
      requires Valid()
      modifies this`net, this`trace, node.routing
      ensures old(node.routing.table) == null && mallocSucceeds ==>
                trace == old(trace) + [Init(me)] && node.routing.Slots() == seq(10, _ => NULL_ENTRY)
      ensures old(node.routing.table) != null || !mallocSucceeds ==>
                trace == old(trace) && node.routing.table == old(node.routing.table)
      ensures Valid() && CallIs(old(net.nodes[me].sender), old(Ipv4Frames(node.sent)), old(trace), 0)
    {
      ghost var before := net;
      var missing := node.routing.table == null;
      node.routing.Init(mallocSucceeds);
      if missing && mallocSucceeds {
        net := net.(nodes := net.nodes[me := net.nodes[me].(table := node.routing.Slots())]);
        Commit(before, Init(me));
      }
    }

    /** A move of another host. */
    method OtherMoves(m: Move)
      requires Valid() && Enabled(cs, net, m) && m.host != me
      modifies this`net, this`trace
      ensures trace == old(trace) + [m]
      ensures Valid() && CallIs(old(net.nodes[me].sender), old(Ipv4Frames(node.sent)), old(trace), 0)
    {
      ghost var before := net;
      OthersElsewhere(cs, net, m, me);
      net := Next(cs, net, m);
      Commit(before, m);
    }

    /** The network task receives a frame that is on the wire. */
    method ReceiveOne(payload: seq<Byte>) returns (ghost m: Move)
      requires Valid() && |payload| >= ARP_FRAME_LENGTH && payload[..ARP_FRAME_LENGTH] in net.wire
      modifies this`net, this`trace, node`sent, node.routing.clock, node.routing.table
      ensures Valid() && CallIs(old(net.nodes[me].sender), old(Ipv4Frames(node.sent)), old(trace), 0)
      ensures old(node.routing.clock.seconds) <= node.routing.clock.seconds
      ensures trace == old(trace) + [m] && m.Deliver? && m.host == me && m.payload == payload
      ensures m.table == node.routing.Slots() && node.sent == old(node.sent) + m.out
    {
      var k := |node.sent|;
      m := ReadFrame(payload);
      SuffixIs(old(node.sent), m.out);
      ShowDelivery(k, m);
    }

    /** The network shows what arp_receive did. */
    method ShowDelivery(k: nat, ghost m: Move)
      requires node.Valid() && Distinct(cs) && me < |cs| == |net.nodes| && cs[me] == node.config
      requires Initial(cs, origin) && After(cs, origin, trace) == net
      requires m.Deliver? && m.host == me && Enabled(cs, net, m)
      requires m.table == node.routing.Slots() && m.now == node.routing.clock.seconds
      requires k <= |node.sent| && m.out == node.sent[k..]
      requires Ipv4Frames(node.sent) == FramesOf(net.frames, me) && OnWire(node.sent, net.wire + Payloads(m.out))
      modifies this`net, this`trace
      ensures Valid() && net.nodes[me].sender == old(net.nodes[me].sender) && trace == old(trace) + [m]
      ensures LookupsBy(trace, me) == LookupsBy(old(trace), me)
    {
      ghost var before := net;
      var n := net.nodes[me].(table := node.routing.Slots(), clock := node.routing.clock.seconds);
      DeliveryShows(cs, net, m, n);
      net := net.(nodes := net.nodes[me := n], wire := net.wire + Payloads(node.sent[k..]));
      Commit(before, m);
    }

    /** arp_receive, before the network shows what it did: the move it makes. */
    method ReadFrame(payload: seq<Byte>) returns (ghost m: Move)
      requires Valid() && |payload| >= ARP_FRAME_LENGTH && payload[..ARP_FRAME_LENGTH] in net.wire
      modifies node`sent, node.routing.clock, node.routing.table
      ensures node.Valid() && m.Deliver? && m.host == me && m.payload == payload && Enabled(cs, net, m)
      ensures node.sent == old(node.sent) + m.out
      ensures m.table == node.routing.Slots() && m.now == node.routing.clock.seconds
      ensures old(node.routing.clock.seconds) <= node.routing.clock.seconds
      ensures Ipv4Frames(node.sent) == old(Ipv4Frames(node.sent)) && OnWire(node.sent, net.wire + Payloads(m.out))
    {
      ghost var sent := node.sent;
      ghost var rs, now, out := node.Receive(payload);
      RepliesAreArp(node.config, net.nodes[me].table, payload, rs, now, node.routing.Slots(), out);
      ArpFramesDoNotCount(sent, out);
      MoreOnWire(sent, out, net.wire);
      m := Deliver(me, payload, rs, now, node.routing.Slots(), out);
    }

    /** Any number of moves of other hosts, and of frames received. */
    method World()
      requires Valid()
      modifies this`net, this`trace, node`sent, node.routing.clock, node.routing.table
      ensures Valid() && CallIs(old(net.nodes[me].sender), old(Ipv4Frames(node.sent)), old(trace), 0)
      ensures old(node.routing.clock.seconds) <= node.routing.clock.seconds
    {
      var n: nat :| n >= 0;
      for i := 0 to n
        invariant Valid() && CallIs(old(net.nodes[me].sender), old(Ipv4Frames(node.sent)), old(trace), 0)
        invariant old(node.routing.clock.seconds) <= node.routing.clock.seconds
      {
        var m: Move := *;
        if m.host != me && Enabled(cs, net, m) {
          OtherMoves(m);
        } else if m.Deliver? && |m.payload| >= ARP_FRAME_LENGTH && m.payload[..ARP_FRAME_LENGTH] in net.wire {
          ghost var _ := ReceiveOne(m.payload);
        }
      }
    }

    // ------------------------------------------ the statements of ipv4_send

    /** `dest_mac = arp_table_get_mac(ip)`. */
    method AskMac(ip: U32, payload: seq<Byte>) returns (mac: Mac, ghost rs: seq<Reading>)
      requires Valid() && net.nodes[me].sender.Idle?
      modifies this`net, this`trace, node`sent, node.routing.clock, node.routing.table
      ensures Valid() && CallIs(Asked(ip, payload, mac), old(Ipv4Frames(node.sent)), old(trace), 0)
      ensures old(node.routing.clock.seconds) <= node.routing.clock.seconds
      ensures trace == old(trace) + [Call(me, ip, payload, rs, node.routing.clock.seconds)]
      ensures |rs| == |old(node.routing.Slots())| <= 10 && mac == LookedUp(old(node.routing.Slots()), ip, rs)
    {
      var asks;
      mac, asks, rs := AskNode(ip);
      ShowCall(ip, payload, mac, asks, rs);
    }

    /** arp_table_get_mac, before the network shows what it did; asks says that it sent a request. */
    method AskNode(ip: U32) returns (mac: Mac, asks: bool, ghost rs: seq<Reading>)
      requires Valid()
      modifies node`sent, node.routing.clock, node.routing.table
      ensures node.Valid() && Scans(net.nodes[me], rs, node.routing.clock.seconds)
      ensures node.routing.Slots() == AfterFind(net.nodes[me].table, ip, rs)
      ensures mac == LookedUp(net.nodes[me].table, ip, rs) && asks == (mac == NULL_MAC && net.nodes[me].table != [])
      ensures Ipv4Frames(node.sent) == old(Ipv4Frames(node.sent))
      ensures OnWire(node.sent, net.wire + Asking(node.config, ip, asks))
    {
      ghost var sent := node.sent;
      asks := node.routing.table != null;
      mac, rs := node.GetMac(ip);
      asks := asks && mac == NULL_MAC;
      ghost var out := if asks then [Request(node.config, ip)] else [];
      ArpFramesDoNotCount(sent, out);
      MoreOnWire(sent, out, net.wire);
      assert Payloads(out) == Asking(node.config, ip, asks);
    }

    /** The network shows what arp_table_get_mac did. */
    method ShowCall(ip: U32, payload: seq<Byte>, mac: Mac, asks: bool, ghost rs: seq<Reading>)
      requires node.Valid() && Distinct(cs) && me < |cs| == |net.nodes| && cs[me] == node.config
      requires Initial(cs, origin) && After(cs, origin, trace) == net && net.nodes[me].sender.Idle?
      requires Scans(net.nodes[me], rs, node.routing.clock.seconds)
      requires node.routing.Slots() == AfterFind(net.nodes[me].table, ip, rs)
      requires mac == LookedUp(net.nodes[me].table, ip, rs) && asks == (mac == NULL_MAC && net.nodes[me].table != [])
      requires Ipv4Frames(node.sent) == FramesOf(net.frames, me)
      requires OnWire(node.sent, net.wire + Asking(node.config, ip, asks))
      modifies this`net, this`trace
      ensures Valid() && net.nodes[me].sender == Asked(ip, payload, mac)
      ensures trace == old(trace) + [Call(me, ip, payload, rs, node.routing.clock.seconds)]
      ensures LookupsBy(trace, me) == LookupsBy(old(trace), me)
    {
      ghost var before := net;
      ghost var m := Call(me, ip, payload, rs, node.routing.clock.seconds);
      var n := Node(node.routing.Slots(), node.routing.clock.seconds, Asked(ip, payload, mac));
      CallShows(cs, net, m, n, asks);
      net := net.(nodes := net.nodes[me := n], wire := net.wire + Asking(node.config, ip, asks));
      Commit(before, m);
    }

    /** `start = clock_seconds()`. */
    method TakeStart(ghost w: Sender) returns (start: U64)
      requires Valid() && net.nodes[me].sender == w && w.Asked?
      modifies this`net, this`trace, node.routing.clock
      ensures Valid() && CallIs(Looping(w.ip, w.data, w.dest, start), old(Ipv4Frames(node.sent)), old(trace), 0)
      ensures trace == old(trace) + [ReadStart(me, start)]
      ensures old(node.routing.clock.seconds) <= start == node.routing.clock.seconds
    {
      ghost var before := net;
      start := node.routing.clock.Seconds();
      var s := net.nodes[me].sender;
      net := net.(nodes := net.nodes[me := net.nodes[me].(clock := start, sender := Looping(s.ip, s.data, s.dest, start))]);
      Commit(before, ReadStart(me, start));
    }

    /** The loop's condition holds: `dest_mac = arp_table_lookup(ip)`. */
    method LookAgain(ip: U32, ghost w: Sender) returns (mac: Mac, ghost rs: seq<Reading>)
      requires Valid() && net.nodes[me].sender == w && w.Looping? && w.ip == ip && w.dest == NULL_MAC
      modifies this`net, this`trace, node.routing.clock, node.routing.table
      ensures Valid() && CallIs(LookedAgain(ip, w.data, mac, w.start), old(Ipv4Frames(node.sent)), old(trace), 1)
      ensures old(node.routing.clock.seconds) <= node.routing.clock.seconds
      ensures trace == old(trace) + [TestMac(me, rs, node.routing.clock.seconds)]
      ensures |rs| == |old(node.routing.Slots())| <= 10 && mac == LookedUp(old(node.routing.Slots()), ip, rs)
    {
      ghost var before := net;
      mac, rs := node.routing.Lookup(ip);
      var s := net.nodes[me].sender;
      var n := Node(node.routing.Slots(), node.routing.clock.seconds, LookedAgain(s.ip, s.data, mac, s.start));
      net := net.(nodes := net.nodes[me := n]);
      Commit(before, TestMac(me, rs, node.routing.clock.seconds));
    }

    /** `clock_seconds() - start > WAIT_ON_ARP_TIMEOUT`. */
    method TestDeadline(start: U64, ghost w: Sender) returns (late: bool)
      requires Valid() && net.nodes[me].sender == w && w.LookedAgain? && w.start == start
      modifies this`net, this`trace, node.routing.clock
      ensures Valid()
      ensures CallIs(if late then Idle else Looping(w.ip, w.data, w.dest, start), old(Ipv4Frames(node.sent)), old(trace), 0)
      ensures trace == old(trace) + [TestTimeout(me, node.routing.clock.seconds)]
      ensures old(node.routing.clock.seconds) <= node.routing.clock.seconds
      ensures late <==> node.routing.clock.seconds > start + WAIT_ON_ARP_TIMEOUT
    {
      ghost var before := net;
      var now := node.routing.clock.Seconds();
      late := now - start > WAIT_ON_ARP_TIMEOUT;
      var s := net.nodes[me].sender;
      if late {
        net := net.(nodes := net.nodes[me := net.nodes[me].(clock := now, sender := Idle)],
                    results := net.results + [Return(me, s.ip, s.data, -1)]);
      } else {
        net := net.(nodes := net.nodes[me := net.nodes[me].(clock := now, sender := Looping(s.ip, s.data, s.dest, s.start))]);
      }
      Commit(before, TestTimeout(me, now));
    }

    /** The loop's condition fails: `ethernet_send(dest_mac, TYPE_IPv4, payload, len)`. */
    method Send(destMac: Mac, payload: seq<Byte>, ghost w: Sender) returns (ghost owner: nat)
      requires Valid() && net.nodes[me].sender == w && w.Looping? && w.dest == destMac != NULL_MAC && w.data == payload
      modifies this`net, this`trace, node`sent
      ensures Valid() && net.nodes[me].sender.Idle? && old(trace) <= trace
      ensures owner < |cs| && cs[owner].ip == w.ip
      ensures Ipv4Frames(node.sent) == Ipv4Frames(old(node.sent)) + [Outgoing(WireMac(cs[owner]), TYPE_IPV4, payload)]
    {
      owner := DestinationTrue(cs, origin, trace, me);
      HandOver(destMac, payload, w);
    }

    method HandOver(destMac: Mac, payload: seq<Byte>, ghost w: Sender)
      requires Valid() && net.nodes[me].sender == w && w.Looping? && w.dest == destMac != NULL_MAC && w.data == payload
      modifies this`net, this`trace, node`sent
      ensures Valid() && net.nodes[me].sender.Idle? && old(trace) <= trace
      ensures Ipv4Frames(node.sent) ==
              Ipv4Frames(old(node.sent)) + [Outgoing(HtonMac(destMac, node.config.big), TYPE_IPV4, payload)]
    {
      ghost var sent := node.sent;
      node.EthernetSend(destMac, TYPE_IPV4, payload);
      Ipv4FramesOfMore(sent, Outgoing(HtonMac(destMac, node.config.big), TYPE_IPV4, payload));
      ShowSend(w);
    }

    /** The network shows the frame. */
    method ShowSend(ghost w: Sender)
      requires node.Valid() && Distinct(cs) && me < |cs| == |net.nodes| && cs[me] == node.config
      requires Initial(cs, origin) && After(cs, origin, trace) == net
      requires net.nodes[me].table == node.routing.Slots() && net.nodes[me].clock == node.routing.clock.seconds
      requires net.nodes[me].sender == w && w.Looping? && w.dest != NULL_MAC
      requires Ipv4Frames(node.sent) ==
               FramesOf(net.frames, me) + [Outgoing(HtonMac(w.dest, node.config.big), TYPE_IPV4, w.data)]
      requires OnWire(node.sent, net.wire)
      modifies this`net, this`trace
      ensures Valid() && net.nodes[me].sender.Idle? && old(trace) <= trace
    {
      ghost var before := net;
      var s := net.nodes[me].sender;
      var f := IpFrame(me, s.ip, s.data, HtonMac(s.dest, node.config.big));
      FramesOfMore(net.frames, f, me);
      ghost var now := node.routing.clock.seconds;
      ghost var m := TestMac(me, seq(|net.nodes[me].table|, _ => Reading(now, now)), now);
      SendShows(cs, net, m, f);
      net := net.(nodes := net.nodes[me := net.nodes[me].(sender := Idle)], frames := net.frames + [f],
                  results := net.results + [Return(me, s.ip, s.data, 0)]);
      Commit(before, m);
    }

    /** ipv4_send, for up to a given number of turns of its loop. If it returns 0 it has sent
        exactly one IPv4 frame, the data, to the host that has the address; otherwise none. If
        its first lookup finds a mac it returns 0. It gives up only after more than five
        seconds, and at the first test after them. It is still waiting only if it has taken
        all its turns, and the lookups of all of them found nothing. */
    method Ipv4Send(ip: U32, payload: seq<Byte>, turns: nat) returns (outcome: Outcome, ghost owner: nat)
      requires Valid() && net.nodes[me].sender.Idle?
      modifies this`net, this`trace, node`sent, node.routing.clock, node.routing.table
      ensures Valid() && old(trace) < trace
      ensures var first := trace[|old(trace)|];
        && first.Call? && first.host == me && first.ip == ip && first.data == payload
        && |first.rs| == |old(node.routing.Slots())| <= 10
        && (LookedUp(old(node.routing.Slots()), ip, first.rs) != NULL_MAC ==> outcome == Sent)
      ensures outcome == Sent ==>
                && owner < |cs| && cs[owner].ip == ip
                && Ipv4Frames(node.sent) ==
                   Ipv4Frames(old(node.sent)) + [Outgoing(WireMac(cs[owner]), TYPE_IPV4, payload)]
      ensures outcome != Sent ==> Ipv4Frames(node.sent) == Ipv4Frames(old(node.sent))
      ensures outcome == TimedOut ==> node.routing.clock.seconds > old(node.routing.clock.seconds) + 5
      ensures outcome == StillWaiting <==> !net.nodes[me].sender.Idle?
      ensures outcome == StillWaiting ==>
                && LookupsBy(trace, me) == LookupsBy(old(trace), me) + turns
                && var w := net.nodes[me].sender;
                && w.Looping? && w.ip == ip && w.data == payload && w.dest == NULL_MAC
                && (turns > 0 ==> node.routing.clock.seconds <= w.start + 5)
    {
      var destMac, start;
      ghost var rs;
      destMac, start, rs := StartCall(ip, payload);
      outcome, owner := FinishCall(ip, payload, destMac, start, turns);
    }

    /** ipv4_send up to its loop. */
    method StartCall(ip: U32, payload: seq<Byte>) returns (mac: Mac, start: U64, ghost rs: seq<Reading>)
      requires Valid() && net.nodes[me].sender.Idle?
      modifies this`net, this`trace, node`sent, node.routing.clock, node.routing.table
      ensures Valid() && CallIs(Looping(ip, payload, mac, start), old(Ipv4Frames(node.sent)), old(trace), 0)
      ensures old(node.routing.clock.seconds) <= start
      ensures old(trace) < trace
      ensures var m := trace[|old(trace)|]; m.Call? && m.host == me && m.ip == ip && m.data == payload && m.rs == rs
      ensures |rs| == |old(node.routing.Slots())| <= 10 && mac == LookedUp(old(node.routing.Slots()), ip, rs)
    {
      mac, rs := AskMac(ip, payload);
      World();
      start := TakeStart(Asked(ip, payload, mac));
    }

    /** The loop of ipv4_send and what follows it. */
    method FinishCall(ip: U32, payload: seq<Byte>, destMac: Mac, start: U64, turns: nat)
      returns (outcome: Outcome, ghost owner: nat)
      requires Valid() && net.nodes[me].sender == Looping(ip, payload, destMac, start)
      modifies this`net, this`trace, node`sent, node.routing.clock, node.routing.table
      ensures Valid() && old(trace) <= trace
      ensures destMac != NULL_MAC ==> outcome == Sent
      ensures outcome == Sent ==>
                && net.nodes[me].sender.Idle? && owner < |cs| && cs[owner].ip == ip
                && Ipv4Frames(node.sent) ==
                   Ipv4Frames(old(node.sent)) + [Outgoing(WireMac(cs[owner]), TYPE_IPV4, payload)]
      ensures outcome != Sent ==> Ipv4Frames(node.sent) == Ipv4Frames(old(node.sent))
      ensures outcome == TimedOut ==> net.nodes[me].sender.Idle? && node.routing.clock.seconds > start + 5
      ensures outcome == StillWaiting ==>
                && LookupsBy(trace, me) == LookupsBy(old(trace), me) + turns
                && net.nodes[me].sender == Looping(ip, payload, NULL_MAC, start)
                && (turns > 0 ==> node.routing.clock.seconds <= start + 5)
    {
      var mac;
      outcome, mac := WaitForMac(ip, destMac, start, turns, Looping(ip, payload, destMac, start));
      owner := 0;
      if outcome == Sent {
        World();
        owner := Send(mac, payload, Looping(ip, payload, mac, start));
      }
    }

    /** The loop of ipv4_send; the outcome Sent stands for leaving it with a mac. */
    method WaitForMac(ip: U32, destMac: Mac, start: U64, turns: nat, ghost w: Sender) returns (outcome: Outcome, mac: Mac)
      requires Valid() && net.nodes[me].sender == w && w.Looping? && w == Looping(ip, w.data, destMac, start)
      modifies this`net, this`trace, node`sent, node.routing.clock, node.routing.table
      ensures Valid() && Ipv4Frames(node.sent) == old(Ipv4Frames(node.sent)) && old(trace) <= trace
      ensures net.nodes[me].sender == if outcome == TimedOut then Idle else Looping(ip, w.data, mac, start)
      ensures destMac != NULL_MAC ==> outcome == Sent
      ensures outcome == Sent ==> mac != NULL_MAC
      ensures outcome == StillWaiting ==> mac == NULL_MAC && LookupsBy(trace, me) == LookupsBy(old(trace), me) + turns
      ensures outcome == TimedOut ==> node.routing.clock.seconds > start + WAIT_ON_ARP_TIMEOUT
      ensures outcome == StillWaiting && turns > 0 ==> node.routing.clock.seconds <= start + WAIT_ON_ARP_TIMEOUT
    {
      mac := destMac;
      var turn := 0;
      var missing := MacAddressEqual(mac, NULL_MAC);
      while missing
        invariant Valid() && turn <= turns && (missing <==> mac == NULL_MAC)
        invariant CallIs(Looping(ip, w.data, mac, start), old(Ipv4Frames(node.sent)), old(trace), turn)
        invariant destMac != NULL_MAC ==> !missing
        invariant turn > 0 ==> node.routing.clock.seconds <= start + WAIT_ON_ARP_TIMEOUT
        decreases turns - turn
      {
        if turn == turns {
          outcome := StillWaiting;
          return;
        }
        var late;
        late, mac := TurnOnce(ip, start, Looping(ip, w.data, mac, start));
        if late {
          outcome := TimedOut;
          return;
        }
        missing := MacAddressEqual(mac, NULL_MAC);
        turn := turn + 1;
      }
      outcome := Sent;
    }

    /** The body of the loop. */
    method TurnOnce(ip: U32, start: U64, ghost w: Sender) returns (late: bool, mac: Mac)
      requires Valid() && net.nodes[me].sender == w && w.Looping? && w == Looping(ip, w.data, NULL_MAC, start)
      modifies this`net, this`trace, node`sent, node.routing.clock, node.routing.table
      ensures Valid()
      ensures CallIs(if late then Idle else Looping(ip, w.data, mac, start), old(Ipv4Frames(node.sent)), old(trace), 1)
      ensures late <==> node.routing.clock.seconds > start + WAIT_ON_ARP_TIMEOUT
    {
      World();
      ghost var rs;
      mac, rs := LookAgain(ip, w);
      World();
      late := TestDeadline(start, LookedAgain(ip, w.data, mac, start));
    }
  }
}

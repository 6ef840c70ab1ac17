/** A network of hosts that all run this code: ARP frames may be lost, duplicated, delayed
    and reordered at will, since whatever was ever sent may be delivered to anybody at any
    time. Every binding any host learns is true, and ipv4_send reaches only true owners. */
module ArpNetwork {
  import opened Words
  import opened ByteOrder
  import opened ArpTable
  import opened Arp

  const WAIT_ON_ARP_TIMEOUT := 5

  type Owners = map<U32, Mac>

  /** Addresses are nonzero and no two hosts share one. */
  predicate Distinct(cs: seq<Config>) {
    && (forall i :: 0 <= i < |cs| ==> cs[i].ip != 0)
    && (forall i, j :: 0 <= i < j < |cs| ==> cs[i].ip != cs[j].ip)
  }

  /** Who truly owns which address: the mac on the wire. */
  function OwnersOf(cs: seq<Config>): Owners
    requires Distinct(cs)
  {
    map i | 0 <= i < |cs| :: cs[i].ip := WireMac(cs[i])
  }

  predicate TrueEntry(e: Entry, big: bool, owners: Owners) {
    if e.ip == 0 then e.mac == NULL_MAC else e.ip in owners && HtonMac(e.mac, big) == owners[e.ip]
  }

  predicate TrueTable(t: seq<Entry>, big: bool, owners: Owners) {
    |t| <= MAX_ARP_TABLE_ENTRIES && forall i :: 0 <= i < |t| ==> TrueEntry(t[i], big, owners)
  }

  /** The sender fields of an ARP payload tell the truth. */
  predicate Honest(p: seq<Byte>, owners: Owners) {
    && |p| >= ARP_FRAME_LENGTH
    && Wire32(p[14..18]) in owners && p[8..14] == owners[Wire32(p[14..18])]
  }

  // --------------------------------------------- each operation keeps the truth

  lemma {:induction false} FindKeepsTruth(t: seq<Entry>, ip: U32, rs: seq<Reading>, big: bool, owners: Owners)
    requires TrueTable(t, big, owners) && |rs| == |t|
    ensures TrueTable(AfterFind(t, ip, rs), big, owners)
    ensures var mac := LookedUp(t, ip, rs); mac != NULL_MAC ==> ip in owners && HtonMac(mac, big) == owners[ip]
  {
  }

  lemma {:induction false} UpdateKeepsTruth(t: seq<Entry>, mac: Mac, ip: U32, rs: seq<Reading>, big: bool, owners: Owners)
    requires TrueTable(t, big, owners) && |rs| == |t|
    requires ip != 0 && ip in owners && HtonMac(mac, big) == owners[ip]
    ensures TrueTable(AfterUpdate(t, mac, ip, rs), big, owners)
  {
    FindKeepsTruth(t, ip, rs, big, owners);
  }

  lemma {:induction false} AddKeepsTruth(t: seq<Entry>, mac: Mac, ip: U32, now: U64, t': seq<Entry>, big: bool, owners: Owners)
    requires TrueTable(t, big, owners) && AfterAdd(t, mac, ip, now, t')
    requires ip != 0 && ip in owners && HtonMac(mac, big) == owners[ip]
    ensures TrueTable(t', big, owners)
  {
  }

  /** The sender fields of what a host sends are its own. */
  lemma {:induction false} OwnFields(c: Config, opcode: U16, hw: Mac, ip: U32, owners: Owners)
    requires c.ip in owners && owners[c.ip] == WireMac(c)
    ensures Honest(Layout(BuildFrame(c, opcode, hw, ip), c.big), owners)
    ensures |Layout(BuildFrame(c, opcode, hw, ip), c.big)| == ARP_FRAME_LENGTH
  {
    BuiltBytes(c, opcode, hw, ip);
    FieldsOfBytes(opcode, WireMac(c), Bytes32(c.ip), HtonMac(hw, c.big), Bytes32(ip));
    WireOfBytes32(c.ip);
  }

  /** The sender fields of an honest frame, as arp_receive reads them. */
  lemma {:induction false} SenderIsTrue(c: Config, p: seq<Byte>, owners: Owners)
    requires Honest(p, owners)
    ensures var f := Parse(p, c.big);
      Ntohl(f.srcIp, c.big) in owners && HtonMac(NtohMac(f.srcMac, c.big), c.big) == owners[Ntohl(f.srcIp, c.big)]
  {
    FieldsOfParsed(p, c.big);
    RoundTripsMac(p[8..14], c.big);
  }

  lemma {:induction false} MergeKeepsTruth(t: seq<Entry>, mac: Mac, ip: U32, rs: seq<Reading>, now: U64, t': seq<Entry>,
                                           big: bool, owners: Owners)
    requires TrueTable(t, big, owners) && |rs| == |t|
    requires ip != 0 && ip in owners && HtonMac(mac, big) == owners[ip]
    requires var t1 := AfterUpdate(t, mac, ip, rs); t' == t1 || AfterAdd(t1, mac, ip, now, t')
    ensures TrueTable(t', big, owners)
  {
    var t1 := AfterUpdate(t, mac, ip, rs);
    UpdateKeepsTruth(t, mac, ip, rs, big, owners);
    if t' != t1 {
      AddKeepsTruth(t1, mac, ip, now, t', big, owners);
    }
  }

  lemma {:induction false} AcceptedKeepsTruth(c: Config, t: seq<Entry>, f: ArpFrame, rs: seq<Reading>, now: U64,
                                              t': seq<Entry>, out: seq<Outgoing>, owners: Owners)
    requires TrueTable(t, c.big, owners) && 0 !in owners
    requires c.ip in owners && owners[c.ip] == WireMac(c)
    requires var ip := Ntohl(f.srcIp, c.big); ip in owners && HtonMac(NtohMac(f.srcMac, c.big), c.big) == owners[ip]
    requires |rs| == |t| && Accepted(c, t, f, rs, now, t', out)
    ensures TrueTable(t', c.big, owners)
    ensures forall o <- out :: Honest(o.payload, owners) && |o.payload| == ARP_FRAME_LENGTH
  {
    var mac, ip := NtohMac(f.srcMac, c.big), Ntohl(f.srcIp, c.big);
    MergeKeepsTruth(t, mac, ip, rs, now, t', c.big, owners);
    OwnFields(c, ARP_REPLY, mac, ip, owners);
  }

  lemma {:induction false} ReceiveKeepsTruth(c: Config, t: seq<Entry>, p: seq<Byte>, rs: seq<Reading>, now: U64,
                                             t': seq<Entry>, out: seq<Outgoing>, owners: Owners)
    requires TrueTable(t, c.big, owners) && Honest(p, owners) && 0 !in owners
    requires c.ip in owners && owners[c.ip] == WireMac(c)
    requires |rs| == |t| && Receives(c, t, p, rs, now, t', out)
    ensures TrueTable(t', c.big, owners)
    ensures forall o <- out :: Honest(o.payload, owners) && |o.payload| == ARP_FRAME_LENGTH
  {
    var f := Parse(p, c.big);
    if Supported(f, c.big) {
      SenderIsTrue(c, p, owners);
      AcceptedKeepsTruth(c, t, f, rs, now, t', out, owners);
    }
  }

  // --------------------------------------------------------------- the machine

  /** Where a host's call of ipv4_send is: after arp_table_get_mac, at the loop's condition,
      or between the lookup and the timeout test in the loop's body. */
  datatype Sender =
    | Idle
    | Asked(ip: U32, data: seq<Byte>, dest: Mac)
    | Looping(ip: U32, data: seq<Byte>, dest: Mac, start: nat)
    | LookedAgain(ip: U32, data: seq<Byte>, dest: Mac, start: nat)

  /** An empty table stands for one not yet allocated. */
  datatype Node = Node(table: seq<Entry>, clock: nat, sender: Sender)

  datatype IpFrame = IpFrame(host: nat, ip: U32, data: seq<Byte>, dest: Mac)

  datatype Return = Return(host: nat, ip: U32, data: seq<Byte>, code: int)

  /** wire: every ARP payload ever sent; frames: the IPv4 frames sent; results: the results
      of the calls of ipv4_send. */
  datatype Net = Net(nodes: seq<Node>, wire: set<seq<Byte>>, frames: seq<IpFrame>, results: seq<Return>)

  datatype Move =
    | Init(host: nat)
    | Deliver(host: nat, payload: seq<Byte>, rs: seq<Reading>, now: U64, table: seq<Entry>, out: seq<Outgoing>)
    | Call(host: nat, ip: U32, data: seq<Byte>, rs: seq<Reading>, now: U64)
    | ReadStart(host: nat, now: U64)
    | TestMac(host: nat, rs: seq<Reading>, now: U64)
    | TestTimeout(host: nat, now: U64)

  predicate Scans(n: Node, rs: seq<Reading>, now: U64) {
    |rs| == |n.table| <= MAX_ARP_TABLE_ENTRIES && Monotone(rs, n.clock, now)
  }

  predicate Enabled(cs: seq<Config>, s: Net, m: Move) {
    && m.host < |cs| == |s.nodes|
    && var n := s.nodes[m.host];
    match m
    case Init(_) => n.table == []
    case Deliver(_, p, rs, now, t', out) =>
      && |p| >= ARP_FRAME_LENGTH && p[..ARP_FRAME_LENGTH] in s.wire
      && Scans(n, rs, now) && Receives(cs[m.host], n.table, p, rs, now, t', out)
    case Call(_, _, _, rs, now) => n.sender.Idle? && Scans(n, rs, now)
    case ReadStart(_, now) => n.sender.Asked? && n.clock <= now
    case TestMac(_, rs, now) => n.sender.Looping? && Scans(n, rs, now)
    case TestTimeout(_, now) => n.sender.LookedAgain? && n.clock <= now
  }

  function Payloads(out: seq<Outgoing>): set<seq<Byte>> {
    set i | 0 <= i < |out| :: out[i].payload
  }

  function Next(cs: seq<Config>, s: Net, m: Move): Net
    requires Enabled(cs, s, m)
  {
    var h := m.host;
    var c, n := cs[h], s.nodes[h];
    match m
    case Init(_) => s.(nodes := s.nodes[h := n.(table := seq(MAX_ARP_TABLE_ENTRIES, _ => NULL_ENTRY))])
    case Deliver(_, p, rs, now, t', out) =>
      s.(nodes := s.nodes[h := n.(table := t', clock := now)], wire := s.wire + Payloads(out))
    case Call(_, ip, data, rs, now) =>
      var mac := LookedUp(n.table, ip, rs);
      var asks := mac == NULL_MAC && n.table != [];
      s.(nodes := s.nodes[h := Node(AfterFind(n.table, ip, rs), now, Asked(ip, data, mac))],
         wire := s.wire + if asks then {Request(c, ip).payload} else {})
    case ReadStart(_, now) =>
      var w := n.sender;
      s.(nodes := s.nodes[h := n.(clock := now, sender := Looping(w.ip, w.data, w.dest, now))])
    case TestMac(_, rs, now) =>
      var w := n.sender;
      if w.dest == NULL_MAC then
        s.(nodes := s.nodes[h := Node(AfterFind(n.table, w.ip, rs), now,
                                      LookedAgain(w.ip, w.data, LookedUp(n.table, w.ip, rs), w.start))])
      else
        s.(nodes := s.nodes[h := n.(sender := Idle)],
           frames := s.frames + [IpFrame(h, w.ip, w.data, HtonMac(w.dest, c.big))],
           results := s.results + [Return(h, w.ip, w.data, 0)])
    case TestTimeout(_, now) =>
      var w := n.sender;
      if now - w.start > WAIT_ON_ARP_TIMEOUT then
        s.(nodes := s.nodes[h := n.(clock := now, sender := Idle)],
           results := s.results + [Return(h, w.ip, w.data, -1)])
      else
        s.(nodes := s.nodes[h := n.(clock := now, sender := Looping(w.ip, w.data, w.dest, w.start))])
  }

  predicate Initial(cs: seq<Config>, s: Net) {
    && |s.nodes| == |cs| && s.wire == {} && s.frames == [] && s.results == []
    && forall h :: 0 <= h < |s.nodes| ==> s.nodes[h].table == [] && s.nodes[h].sender.Idle?
  }

  ghost function After(cs: seq<Config>, s: Net, moves: seq<Move>): Net {
    if moves == [] then s
    else
      var b := After(cs, s, moves[..|moves| - 1]);
      if Enabled(cs, b, moves[|moves| - 1]) then Next(cs, b, moves[|moves| - 1]) else b
  }

  // ----------------------------------------------------------------- safety

  predicate TrueSender(w: Sender, big: bool, owners: Owners) {
    !w.Idle? && w.dest != NULL_MAC ==> w.ip in owners && HtonMac(w.dest, big) == owners[w.ip]
  }

  /** The calls that returned 0, in order. */
  function Successes(results: seq<Return>): seq<Return> {
    if results == [] then []
    else
      var last := results[|results| - 1];
      Successes(results[..|results| - 1]) + if last.code == 0 then [last] else []
  }

  /** The frame a successful call sends: to the owner of the address it was given. */
  function FrameOf(r: Return, owners: Owners): IpFrame {
    IpFrame(r.host, r.ip, r.data, if r.ip in owners then owners[r.ip] else NULL_MAC)
  }

  ghost predicate FramesAccounted(s: Net, owners: Owners) {
    var ok := Successes(s.results);
    && |s.frames| == |ok|
    && forall i :: 0 <= i < |ok| ==> ok[i].ip in owners && s.frames[i] == FrameOf(ok[i], owners)
  }

  predicate TrueNode(n: Node, big: bool, owners: Owners) {
    TrueTable(n.table, big, owners) && TrueSender(n.sender, big, owners)
  }

  ghost predicate TrueNodes(cs: seq<Config>, nodes: seq<Node>, owners: Owners) {
    |nodes| == |cs| && forall h :: 0 <= h < |cs| ==> TrueNode(nodes[h], cs[h].big, owners)
  }

  ghost predicate HonestWire(wire: set<seq<Byte>>, owners: Owners) {
    forall p <- wire :: Honest(p, owners) && |p| == ARP_FRAME_LENGTH
  }

  ghost predicate Inv(cs: seq<Config>, s: Net, owners: Owners) {
    TrueNodes(cs, s.nodes, owners) && HonestWire(s.wire, owners) && FramesAccounted(s, owners)
  }

  predicate Fits(cs: seq<Config>, owners: Owners) {
    0 !in owners && forall h :: 0 <= h < |cs| ==> cs[h].ip in owners && owners[cs[h].ip] == WireMac(cs[h])
  }

  lemma {:induction false} OwnersFit(cs: seq<Config>)
    requires Distinct(cs)
    ensures Fits(cs, OwnersOf(cs))
  {
  }

  lemma {:induction false} HonestPrefix(p: seq<Byte>, owners: Owners)
    requires |p| >= ARP_FRAME_LENGTH && Honest(p[..ARP_FRAME_LENGTH], owners)
    ensures Honest(p, owners)
  {
    var q := p[..ARP_FRAME_LENGTH];
    assert q[14..18] == p[14..18] && q[8..14] == p[8..14];
  }

  lemma {:induction false} SuccessesOfMore(results: seq<Return>, r: Return)
    ensures Successes(results + [r]) == Successes(results) + if r.code == 0 then [r] else []
  {
    assert (results + [r])[..|results|] == results;
  }

  lemma {:induction false} DeliverKeepsInv(cs: seq<Config>, s: Net, m: Move, owners: Owners)
    requires Fits(cs, owners) && Inv(cs, s, owners) && m.Deliver? && Enabled(cs, s, m)
    ensures Inv(cs, Next(cs, s, m), owners)
  {
    var n := s.nodes[m.host];
    assert TrueNode(n, cs[m.host].big, owners);
    HonestPrefix(m.payload, owners);
    ReceiveKeepsTruth(cs[m.host], n.table, m.payload, m.rs, m.now, m.table, m.out, owners);
    Delivered(cs, s, m, owners);
  }

  /** The new state, from a true table and honest frames. */
  lemma {:induction false} Delivered(cs: seq<Config>, s: Net, m: Move, owners: Owners)
    requires Inv(cs, s, owners) && m.Deliver? && Enabled(cs, s, m)
    requires TrueTable(m.table, cs[m.host].big, owners)
    requires forall o <- m.out :: Honest(o.payload, owners) && |o.payload| == ARP_FRAME_LENGTH
    ensures Inv(cs, Next(cs, s, m), owners)
  {
    var n := s.nodes[m.host];
    assert TrueNode(n, cs[m.host].big, owners);
    OneNodeChanges(cs, s.nodes, m.host, n.(table := m.table, clock := m.now), owners);
    HonestPayloads(s.wire, m.out, owners);
  }

  lemma {:induction false} OneNodeChanges(cs: seq<Config>, nodes: seq<Node>, h: nat, n: Node, owners: Owners)
    requires TrueNodes(cs, nodes, owners) && h < |cs| && TrueNode(n, cs[h].big, owners)
    ensures TrueNodes(cs, nodes[h := n], owners)
  {
  }

  lemma {:induction false} HonestPayloads(wire: set<seq<Byte>>, out: seq<Outgoing>, owners: Owners)
    requires HonestWire(wire, owners)
    requires forall o <- out :: Honest(o.payload, owners) && |o.payload| == ARP_FRAME_LENGTH
    ensures HonestWire(wire + Payloads(out), owners)
  {
  }

  lemma {:induction false} CallKeepsInv(cs: seq<Config>, s: Net, m: Move, owners: Owners)
    requires Fits(cs, owners) && Inv(cs, s, owners) && m.Call? && Enabled(cs, s, m)
    ensures Inv(cs, Next(cs, s, m), owners)
  {
    var n := s.nodes[m.host];
    assert TrueNode(n, cs[m.host].big, owners);
    FindKeepsTruth(n.table, m.ip, m.rs, cs[m.host].big, owners);
    OwnFields(cs[m.host], ARP_REQUEST, NULL_MAC, m.ip, owners);
    var sender := Asked(m.ip, m.data, LookedUp(n.table, m.ip, m.rs));
    assert TrueNode(Node(AfterFind(n.table, m.ip, m.rs), m.now, sender), cs[m.host].big, owners);
    var request := Request(cs[m.host], m.ip).payload;
    assert HonestWire(s.wire + {request}, owners) && HonestWire(s.wire + {}, owners);
    assert TrueNodes(cs, Next(cs, s, m).nodes, owners);
  }

  lemma {:induction false} TestMacKeepsInv(cs: seq<Config>, s: Net, m: Move, owners: Owners)
    requires Inv(cs, s, owners) && m.TestMac? && Enabled(cs, s, m)
    ensures Inv(cs, Next(cs, s, m), owners)
  {
    var n := s.nodes[m.host];
    var w := n.sender;
    assert TrueNode(n, cs[m.host].big, owners);
    if w.dest == NULL_MAC {
      FindKeepsTruth(n.table, w.ip, m.rs, cs[m.host].big, owners);
      assert TrueNode(Next(cs, s, m).nodes[m.host], cs[m.host].big, owners);
    } else {
      SendAccounted(s, IpFrame(m.host, w.ip, w.data, HtonMac(w.dest, cs[m.host].big)), owners);
      assert TrueNode(n.(sender := Idle), cs[m.host].big, owners);
    }
  }

  lemma {:induction false} SendAccounted(s: Net, f: IpFrame, owners: Owners)
    requires FramesAccounted(s, owners) && f.ip in owners && f.dest == owners[f.ip]
    ensures FramesAccounted(s.(frames := s.frames + [f], results := s.results + [Return(f.host, f.ip, f.data, 0)]), owners)
  {
    SuccessesOfMore(s.results, Return(f.host, f.ip, f.data, 0));
  }

  lemma {:induction false} InitKeepsInv(cs: seq<Config>, s: Net, m: Move, owners: Owners)
    requires Inv(cs, s, owners) && Enabled(cs, s, m) && m.Init?
    ensures Inv(cs, Next(cs, s, m), owners)
  {
    assert TrueNode(s.nodes[m.host], cs[m.host].big, owners);
    OneNodeChanges(cs, s.nodes, m.host, Next(cs, s, m).nodes[m.host], owners);
  }

  lemma {:induction false} StartKeepsInv(cs: seq<Config>, s: Net, m: Move, owners: Owners)
    requires Inv(cs, s, owners) && Enabled(cs, s, m) && m.ReadStart?
    ensures Inv(cs, Next(cs, s, m), owners)
  {
    assert TrueNode(s.nodes[m.host], cs[m.host].big, owners);
    OneNodeChanges(cs, s.nodes, m.host, Next(cs, s, m).nodes[m.host], owners);
  }

  lemma {:induction false} TimeoutKeepsInv(cs: seq<Config>, s: Net, m: Move, owners: Owners)
    requires Inv(cs, s, owners) && Enabled(cs, s, m) && m.TestTimeout?
    ensures Inv(cs, Next(cs, s, m), owners)
  {
    var n := s.nodes[m.host];
    assert TrueNode(n, cs[m.host].big, owners);
    OneNodeChanges(cs, s.nodes, m.host, Next(cs, s, m).nodes[m.host], owners);
    SuccessesOfMore(s.results, Return(m.host, n.sender.ip, n.sender.data, -1));
  }

  lemma {:induction false} RunKeepsInv(cs: seq<Config>, s: Net, moves: seq<Move>, owners: Owners)
    requires Fits(cs, owners) && Initial(cs, s)
    ensures Inv(cs, After(cs, s, moves), owners)
  {
    if moves == [] {
    } else {
      var b := After(cs, s, moves[..|moves| - 1]);
      var m := moves[|moves| - 1];
      RunKeepsInv(cs, s, moves[..|moves| - 1], owners);
      if Enabled(cs, b, m) {
        match m
        case Deliver(_, _, _, _, _, _) => DeliverKeepsInv(cs, b, m, owners);
        case Call(_, _, _, _, _) => CallKeepsInv(cs, b, m, owners);
        case TestMac(_, _, _) => TestMacKeepsInv(cs, b, m, owners);
        case Init(_) => InitKeepsInv(cs, b, m, owners);
        case ReadStart(_, _) => StartKeepsInv(cs, b, m, owners);
        case TestTimeout(_, _) => TimeoutKeepsInv(cs, b, m, owners);
      }
    }
  }

  /** In every run, an entry with a nonzero address names the host that has this address,
      with the mac this host has on the wire. */
  lemma {:induction false} EveryBindingTrue(cs: seq<Config>, s: Net, moves: seq<Move>, h: nat, i: nat) returns (owner: nat)
    requires Distinct(cs) && Initial(cs, s)
    requires var s' := After(cs, s, moves);
      h < |cs| == |s'.nodes| && i < |s'.nodes[h].table| && s'.nodes[h].table[i].ip != 0
    ensures var e := After(cs, s, moves).nodes[h].table[i];
      owner < |cs| && cs[owner].ip == e.ip && HtonMac(e.mac, cs[h].big) == WireMac(cs[owner])
  {
    OwnersFit(cs);
    RunKeepsInv(cs, s, moves, OwnersOf(cs));
    assert TrueNode(After(cs, s, moves).nodes[h], cs[h].big, OwnersOf(cs));
    var e := After(cs, s, moves).nodes[h].table[i];
    assert TrueEntry(e, cs[h].big, OwnersOf(cs));
    owner :| 0 <= owner < |cs| && cs[owner].ip == e.ip;
  }

  /** In every run, the IPv4 frames sent are exactly one for each call of ipv4_send that
      returned 0, in order, with its data, to the mac of the host that has the address. */
  lemma {:induction false} EverySendReachesOwner(cs: seq<Config>, s: Net, moves: seq<Move>, k: nat) returns (owner: nat)
    requires Distinct(cs) && Initial(cs, s)
    requires k < |Successes(After(cs, s, moves).results)|
    ensures var s' := After(cs, s, moves); var r := Successes(s'.results)[k];
      && |s'.frames| == |Successes(s'.results)|
      && owner < |cs| && cs[owner].ip == r.ip
      && s'.frames[k] == IpFrame(r.host, r.ip, r.data, WireMac(cs[owner]))
  {
    OwnersFit(cs);
    RunKeepsInv(cs, s, moves, OwnersOf(cs));
    var r := Successes(After(cs, s, moves).results)[k];
    owner :| 0 <= owner < |cs| && cs[owner].ip == r.ip;
  }
}

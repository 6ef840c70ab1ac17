/** receive_packet, insert_packet and the network task as code over the shared rings. The
    card is let loose between any two statements of the handler, and handler and card
    between any two statements of the task. Every execution is a run of the machine in
    RxPath, so what holds in all its reachable states holds here at every statement. */
module RxDriver {
  import opened Words
  import opened Collections
  import opened RxPath

  class ReceivePath {
    const descs: array<Descriptor>
    const buffers: array<seq<Byte>>
    const slots: array<Packet>
    const present: bool            // e1000->pci_device is set
    var head: nat
    var tail: nat
    var card: Card
    var arrivals: seq<Frame>       // frames still to come in on the wire
    var rxCur: nat
    var start: nat                 // recv_queue_start
    var end: nat                   // recv_queue_end
    ghost var driver: Driver
    ghost var task: Task
    ghost var filled: seq<Frame>
    ghost var passed: nat
    ghost var verdicts: seq<Verdict>
    ghost var delivered: seq<seq<Byte>>
    ghost var origin: State
    ghost var trace: seq<Move>

    ghost function View(): State
      reads this, descs, buffers, slots
    {
      State(descs[..], buffers[..], head, tail, card, rxCur, driver, slots[..], start, end, task,
            filled, passed, verdicts, delivered)
    }

    /** The present state is the outcome of the recorded moves. */
    ghost predicate Valid()
      reads this, descs, buffers, slots
    {
      && buffers as object != slots && buffers as object != descs && slots as object != descs
      && History(origin, trace) && After(origin, trace) == View()
    }

    /** init_receive_descriptors, and the static initial values of the queue. */
    constructor (present: bool, arrivals: seq<Frame>)
      ensures Valid() && Initial(View()) && trace == [] && origin == View()
      ensures this.present == present && this.arrivals == arrivals
      ensures fresh(descs) && fresh(buffers) && fresh(slots)
    {
      this.present, this.arrivals := present, arrivals;
      descs := new Descriptor[DESCRIPTORS](_ => Descriptor(0, false));
      buffers := new seq<Byte>[DESCRIPTORS](_ => seq(MAX_PACKET_SIZE, _ => 0));
      slots := new Packet[SLOTS](_ => Packet(0, seq(MAX_PACKET_SIZE, _ => 0)));
      head, tail, card, rxCur := 0, DESCRIPTORS - 1, Waiting, 0;
      start, end, driver, task := 0, 0, NoIrq, Poll;
      filled, passed, verdicts, delivered, trace := [], 0, [], [], [];
      new;
      origin := View();
    }

    /** Later in the same run, with nothing of the task's changed. */
    ghost predicate Continues(s: State, moves: seq<Move>, o: State)
      reads this
    {
      && start == s.start && task == s.task && delivered == s.delivered
      && moves <= trace && origin == o
    }

    ghost predicate HandlerUnchanged(s: State)
      reads this, descs, buffers, slots
    {
      && driver == s.driver && rxCur == s.rxCur && passed == s.passed && verdicts == s.verdicts
      && slots[..] == s.slots && start == s.start && end == s.end && task == s.task && delivered == s.delivered
    }

    /** The handler has dealt with every frame the card completed. */
    ghost predicate Drained()
      reads this
    {
      passed == |filled| == |verdicts|
    }

    /** Frames that have come in, are coming in or will come in, and are not dealt with. */
    ghost function Ahead(): int
      reads this
    {
      |arrivals| + |filled| - passed + if card.Data? || card.Length? || card.Done? then 1 else 0
    }

    /** Records a move whose effect the fields already show. */
    ghost method Commit(before: State, m: Move)
      requires buffers as object != slots && buffers as object != descs && slots as object != descs
      requires History(origin, trace) && After(origin, trace) == before && Enabled(before, m)
      requires View() == Next(before, m)
      modifies this`trace
      ensures Valid() && trace == old(trace) + [m]
    {
      OneMore(origin, trace, m);
      trace := trace + [m];
    }

    // --------------------------------------------------- steps of the card

    /** A frame comes in, and a descriptor is free for it. */
    method CardAccepts()
      requires Valid() && card.Waiting? && head != tail && arrivals != []
      modifies this
      ensures Valid() && HandlerUnchanged(old(View())) && Ahead() == old(Ahead())
      ensures trace == old(trace) + [CardMove(old(arrivals)[0])] && origin == old(origin)
    {
      ghost var before := View();
      StaysInBounds(origin, trace);
      ghost var m := CardMove(arrivals[0]);
      card := Data(arrivals[0], 0);
      arrivals := arrivals[1..];
      Commit(before, m);
    }

    /** DMA of one byte of the frame, or the end of the data. */
    method CardWritesData()
      requires Valid() && card.Data?
      modifies this, buffers
      ensures Valid() && HandlerUnchanged(old(View())) && Ahead() == old(Ahead())
      ensures trace == old(trace) + [CardMove([])] && origin == old(origin)
    {
      ghost var before := View();
      StaysInBounds(origin, trace);
      if card.k < |card.frame| {
        buffers[head] := buffers[head][card.k := card.frame[card.k]];
        card := card.(k := card.k + 1);
      } else {
        card := Length(card.frame);
      }
      Commit(before, CardMove([]));
    }

    /** DMA of the length into the descriptor. */
    method CardWritesLength()
      requires Valid() && card.Length?
      modifies this, descs
      ensures Valid() && HandlerUnchanged(old(View())) && Ahead() == old(Ahead())
      ensures trace == old(trace) + [CardMove([])] && origin == old(origin)
    {
      ghost var before := View();
      StaysInBounds(origin, trace);
      descs[head] := descs[head].(length := |card.frame|);
      card := Done(card.frame);
      Commit(before, CardMove([]));
    }

    /** DMA of the status, with the done bit. */
    method CardWritesStatus()
      requires Valid() && card.Done?
      modifies this, descs
      ensures Valid() && HandlerUnchanged(old(View())) && Ahead() == old(Ahead())
      ensures trace == old(trace) + [CardMove([])] && origin == old(origin)
    {
      ghost var before := View();
      StaysInBounds(origin, trace);
      descs[head] := descs[head].(done := true);
      filled := filled + [card.frame];
      card := Advance;
      Commit(before, CardMove([]));
    }

    /** The head register moves on. */
    method CardAdvances()
      requires Valid() && card.Advance?
      modifies this
      ensures Valid() && HandlerUnchanged(old(View())) && Ahead() == old(Ahead())
      ensures trace == old(trace) + [CardMove([])] && origin == old(origin)
    {
      ghost var before := View();
      PutHead();
      AfterHeadAdvanced(origin, trace, before, View());
      trace := trace + [CardMove([])];
    }

    method PutHead()
      modifies this`head, this`card
      ensures View() == old(View()).(head := (old(head) + 1) % DESCRIPTORS, card := Waiting)
    {
      head := (head + 1) % DESCRIPTORS;
      card := Waiting;
    }

    /** Any number of moves of the card. */
    method RunCard()
      requires Valid()
      modifies this, descs, buffers
      ensures Valid() && HandlerUnchanged(old(View())) && Ahead() == old(Ahead())
      ensures old(trace) <= trace && origin == old(origin)
    {
      var n: nat :| n >= 0;
      for i := 0 to n
        invariant Valid() && HandlerUnchanged(old(View())) && Ahead() == old(Ahead())
        invariant old(trace) <= trace && origin == old(origin)
      {
        match card
        case Waiting => if present && head != tail && arrivals != [] { CardAccepts(); }
        case Data(_, _) => CardWritesData();
        case Length(_) => CardWritesLength();
        case Done(_) => CardWritesStatus();
        case Advance => CardAdvances();
      }
    }

    // ------------------------------------------- statements of the handler

    /** `(recv_queue_end + 1) % MAX_PACKET_COUNT != recv_queue_start`. */
    method TestRoom(data: nat, len: nat) returns (newEnd: nat)
      requires Valid() && driver == TestFull(data, len)
      modifies this
      ensures Valid() && passed == old(passed) && rxCur == old(rxCur)
      ensures driver == if newEnd != start then PutLength(data, len, newEnd) else ClearStatus
      ensures Continues(old(View()), old(trace), old(origin)) && Ahead() == old(Ahead())
    {
      newEnd := (end + 1) % SLOTS;
      if newEnd != start {
        FindRoom(data, len, newEnd);
      } else {
        FindNone(data, len);
      }
    }

    /** The test in insert_packet holds. */
    ghost method FindRoom(data: nat, len: nat, newEnd: nat)
      requires Valid() && driver == TestFull(data, len) && newEnd == (end + 1) % SLOTS != start
      modifies this`driver, this`trace
      ensures Valid() && driver == PutLength(data, len, newEnd) && old(trace) <= trace
    {
      ghost var before := View();
      AfterRoomSeen(origin, trace, before, before.(driver := PutLength(data, len, newEnd)));
      driver := PutLength(data, len, newEnd);
      trace := trace + [DriverMove];
    }

    /** The test in insert_packet fails. */
    ghost method FindNone(data: nat, len: nat)
      requires Valid() && driver == TestFull(data, len) && (end + 1) % SLOTS == start
      modifies this`driver, this`verdicts, this`trace
      ensures Valid() && driver == ClearStatus && old(trace) <= trace
    {
      ghost var before := View();
      ghost var more := verdicts + [Verdict(Queued(before), false)];
      AfterNoRoomSeen(origin, trace, before, before.(driver := ClearStatus, verdicts := more));
      driver, verdicts := ClearStatus, more;
      trace := trace + [DriverMove];
    }

    /** `recv_packet_queue[recv_queue_end].length = len`. */
    method StoreLength(data: nat, len: nat, ghost newEnd: nat)
      requires Valid() && driver == PutLength(data, len, newEnd)
      modifies this, slots
      ensures Valid() && driver == Copy(data, len, newEnd, 0)
      ensures Continues(old(View()), old(trace), old(origin)) && Ahead() == old(Ahead())
    {
      ghost var before := View();
      StaysInBounds(origin, trace);
      slots[end] := slots[end].(length := len);
      driver := Copy(data, len, newEnd, 0);
      Commit(before, DriverMove);
    }

    /** One byte of the memcpy. */
    method StoreByte(data: nat, len: nat, ghost newEnd: nat, k: nat)
      requires Valid() && driver == Copy(data, len, newEnd, k) && k < len
      modifies this, slots
      ensures Valid() && driver == Copy(data, len, newEnd, k + 1)
      ensures Continues(old(View()), old(trace), old(origin)) && Ahead() == old(Ahead())
    {
      ghost var before := View();
      StaysInBounds(origin, trace);
      PutByte(data, len, newEnd, k);
      Commit(before, DriverMove);
    }

    method PutByte(data: nat, len: nat, ghost newEnd: nat, k: nat)
      requires buffers as object != slots && buffers as object != descs && slots as object != descs
      requires end < slots.Length && data < buffers.Length && k < |buffers[data]| && k < |slots[end].data|
      modifies this`driver, slots
      ensures View() == old(View()).(driver := Copy(data, len, newEnd, k + 1),
                                     slots := old(slots[..])[end := old(slots[end]).(data := old(slots[end].data)[k := buffers[data][k]])])
    {
      slots[end] := slots[end].(data := slots[end].data[k := buffers[data][k]]);
      driver := Copy(data, len, newEnd, k + 1);
    }

    /** The memcpy is done. */
    method EndCopy(data: nat, len: nat, ghost newEnd: nat)
      requires Valid() && driver == Copy(data, len, newEnd, len)
      modifies this
      ensures Valid() && driver == PutEnd(newEnd)
      ensures Continues(old(View()), old(trace), old(origin)) && Ahead() == old(Ahead())
    {
      ghost var before := View();
      StaysInBounds(origin, trace);
      driver := PutEnd(newEnd);
      Commit(before, DriverMove);
    }

    /** `recv_queue_end = new_end`. */
    method StoreEnd(newEnd: nat)
      requires Valid() && driver == PutEnd(newEnd)
      modifies this
      ensures Valid() && driver == ClearStatus
      ensures Continues(old(View()), old(trace), old(origin)) && Ahead() == old(Ahead())
    {
      ghost var before := View();
      StaysInBounds(origin, trace);
      end := newEnd;
      driver, verdicts := ClearStatus, verdicts + [Verdict(Queued(before), true)];
      Commit(before, DriverMove);
    }

    /** The test of the done bit. */
    method TestStatus() returns (done: bool)
      requires Valid() && driver == TestDone
      modifies this
      ensures Valid() && (driver == if done then ReadAddr else NoIrq) && (!done ==> Drained())
      ensures Continues(old(View()), old(trace), old(origin)) && Ahead() == old(Ahead())
    {
      ghost var before := View();
      StaysInBounds(origin, trace);
      done := descs[rxCur].done;
      if !done {
        DrainedAfter(origin, trace);
      }
      driver := if done then ReadAddr else NoIrq;
      Commit(before, DriverMove);
    }

    /** `buf = rx_descs[rx_cur].addr`. */
    method LoadAddr() returns (buf: nat)
      requires Valid() && driver == ReadAddr
      modifies this
      ensures Valid() && driver == ReadLength(buf)
      ensures Continues(old(View()), old(trace), old(origin)) && Ahead() == old(Ahead())
    {
      ghost var before := View();
      StaysInBounds(origin, trace);
      buf := rxCur;
      driver := ReadLength(buf);
      Commit(before, DriverMove);
    }

    /** `len = rx_descs[rx_cur].length`. */
    method LoadLength(buf: nat) returns (len: nat)
      requires Valid() && driver == ReadLength(buf)
      modifies this
      ensures Valid() && driver == TestFull(buf, len)
      ensures Continues(old(View()), old(trace), old(origin)) && Ahead() == old(Ahead())
    {
      ghost var before := View();
      StaysInBounds(origin, trace);
      len := descs[rxCur].length;
      driver := TestFull(buf, len);
      Commit(before, DriverMove);
    }

    /** `rx_descs[rx_cur].status = 0`. */
    method StoreStatus()
      requires Valid() && driver == ClearStatus
      modifies this, descs
      ensures Valid() && driver == AdvanceCur
      ensures Continues(old(View()), old(trace), old(origin)) && Ahead() == old(Ahead())
    {
      ghost var before := View();
      StaysInBounds(origin, trace);
      descs[rxCur] := descs[rxCur].(done := false);
      driver := AdvanceCur;
      Commit(before, DriverMove);
    }

    /** `old_cur = rx_cur; rx_cur = (rx_cur + 1) % E1000_NUM_RX_DESC`. */
    method StoreCur() returns (oldCur: nat)
      requires Valid() && driver == AdvanceCur
      modifies this
      ensures Valid() && driver == WriteTail(oldCur) && Continues(old(View()), old(trace), old(origin))
      ensures 0 <= Ahead() < old(Ahead())
    {
      oldCur := MoveCur();
      StaysInBounds(origin, trace);
    }

    method MoveCur() returns (oldCur: nat)
      requires Valid() && driver == AdvanceCur
      modifies this`rxCur, this`passed, this`driver, this`trace
      ensures Valid() && driver == WriteTail(oldCur) && passed == old(passed) + 1 && old(trace) <= trace
    {
      ghost var before := View();
      oldCur := PutCur();
      AfterCurAdvanced(origin, trace, before, View());
      trace := trace + [DriverMove];
    }

    method PutCur() returns (oldCur: nat)
      modifies this`rxCur, this`passed, this`driver
      ensures oldCur == old(rxCur)
      ensures View() == old(View()).(rxCur := (oldCur + 1) % DESCRIPTORS, passed := old(passed) + 1, driver := WriteTail(oldCur))
    {
      oldCur := rxCur;
      rxCur, passed := (rxCur + 1) % DESCRIPTORS, passed + 1;
      driver := WriteTail(oldCur);
    }

    /** `write_command(REG_RXDESCTAIL, old_cur)`. */
    method StoreTail(oldCur: nat)
      requires Valid() && driver == WriteTail(oldCur)
      modifies this
      ensures Valid() && driver == TestDone
      ensures Continues(old(View()), old(trace), old(origin)) && Ahead() == old(Ahead())
    {
      ghost var before := View();
      StaysInBounds(origin, trace);
      tail := oldCur;
      driver := TestDone;
      Commit(before, DriverMove);
    }

    // --------------------------------------------------------- the handler

    method InsertPacket(data: nat, len: nat)
      requires Valid() && driver == TestFull(data, len)
      modifies this, descs, buffers, slots
      ensures Valid() && driver == ClearStatus
      ensures Continues(old(View()), old(trace), old(origin)) && Ahead() == old(Ahead())
    {
      var newEnd := TestRoom(data, len);
      if newEnd != start {
        RunCard();
        StoreLength(data, len, newEnd);
        for k := 0 to len
          invariant Valid() && driver == Copy(data, len, newEnd, k)
          invariant Continues(old(View()), old(trace), old(origin)) && Ahead() == old(Ahead())
        {
          RunCard();
          StoreByte(data, len, newEnd, k);
        }
        EndCopy(data, len, newEnd);
        RunCard();
        StoreEnd(newEnd);
      }
    }

    /** receive_packet: if there is a card, the interrupt handler empties the descriptor ring.
        When it returns it has dealt with every frame the card has completed, those that were
        there when it began among them. Without a card nothing happens. */
    method ReceivePacket()
      requires Valid() && driver == NoIrq
      modifies this, descs, buffers, slots
      ensures Valid() && driver == NoIrq && Continues(old(View()), old(trace), old(origin))
      ensures present ==> passed == |filled| == |verdicts| && passed >= |old(filled)|
      ensures !present ==> View() == old(View()) && trace == old(trace)
    {
      if !present {
        return;
      }
      Drain();
      LaterGrows(origin, old(trace), trace);
    }

    /** The loop of receive_packet. It ends because only finitely many frames are ahead. */
    method Drain()
      requires Valid() && driver == NoIrq
      modifies this, descs, buffers, slots
      ensures Valid() && driver == NoIrq && Continues(old(View()), old(trace), old(origin)) && Drained()
    {
      EnterHandler();
      RunCard();
      var done := TestStatus();
      while done
        invariant Valid() && (driver == if done then ReadAddr else NoIrq) && (!done ==> Drained())
        invariant Continues(old(View()), old(trace), old(origin))
        decreases Ahead()
      {
        HandleFrame();
        RunCard();
        done := TestStatus();
      }
    }

    /** The body of the loop: the frame at rx_cur goes into the queue, and its descriptor back
        to the card. */
    method HandleFrame()
      requires Valid() && driver == ReadAddr
      modifies this, descs, buffers, slots
      ensures Valid() && driver == TestDone
      ensures Continues(old(View()), old(trace), old(origin)) && 0 <= Ahead() < old(Ahead())
    {
      RunCard();
      var buf := LoadAddr();
      RunCard();
      var len := LoadLength(buf);
      RunCard();
      InsertPacket(buf, len);
      RunCard();
      StoreStatus();
      RunCard();
      var oldCur := StoreCur();
      RunCard();
      StoreTail(oldCur);
    }

    method EnterHandler()
      requires Valid() && driver == NoIrq
      modifies this
      ensures Valid() && driver == TestDone && Continues(old(View()), old(trace), old(origin))
    {
      ghost var before := View();
      StaysInBounds(origin, trace);
      driver := TestDone;
      Commit(before, Irq);
    }

    // ------------------------------------------------------------ the task

    /** Anything the card and any number of interrupts do between two task statements. */
    method Elsewhere()
      requires Valid() && driver == NoIrq
      modifies this, descs, buffers, slots
      ensures Valid() && driver == NoIrq && Continues(old(View()), old(trace), old(origin))
    {
      RunCard();
      var n: nat :| n >= 0;
      for i := 0 to n
        invariant Valid() && driver == NoIrq && Continues(old(View()), old(trace), old(origin))
      {
        ReceivePacket();
        RunCard();
      }
    }

    /** `recv_queue_start != recv_queue_end`, as new_packet_available tests it. */
    method NewPacketAvailable() returns (available: bool)
      requires Valid() && driver == NoIrq && task == Poll
      modifies this
      ensures Valid() && driver == NoIrq && task == if available then TestEmpty else Poll
      ensures available <==> start != end
      ensures start == old(start) && end == old(end)
      ensures delivered == old(delivered) && old(trace) <= trace && origin == old(origin)
    {
      ghost var before := View();
      StaysInBounds(origin, trace);
      available := start != end;
      task := if available then TestEmpty else Poll;
      Commit(before, TaskMove);
    }

    /** What the test at the start of remove_packet means after a poll of the queue: it is not
        empty, and the task goes on. */
    ghost method SeenNotEmpty()
      requires Valid() && driver == NoIrq && task == TestEmpty
      modifies this`task, this`trace
      ensures Valid() && task == Take && start != end && old(trace) <= trace
    {
      ghost var before := View();
      StaysInBounds(origin, trace);
      task := Take;
      Commit(before, TaskMove);
    }

    /** What the same test means without a poll before it: it is one. */
    ghost method SeenAtOnce()
      requires Valid() && driver == NoIrq && task == Poll
      modifies this`task, this`trace
      ensures Valid() && task == (if start == end then Poll else TestEmpty) && old(trace) <= trace
    {
      ghost var before := View();
      StaysInBounds(origin, trace);
      task := if start == end then Poll else TestEmpty;
      Commit(before, TaskMove);
    }

    /** `recv_queue_start == recv_queue_end`. */
    method TestQueueEmpty() returns (empty: bool)
      requires Valid() && driver == NoIrq && (task == Poll || task == TestEmpty)
      modifies this`task, this`trace
      ensures Valid() && task == (if empty then Poll else Take) && old(trace) <= trace
      ensures (empty <==> start == end) && (old(task) == TestEmpty ==> !empty)
    {
      empty := start == end;
      if task == Poll {
        SeenAtOnce();
      }
      if task == TestEmpty {
        SeenNotEmpty();
      }
    }

    /** `packet = &recv_packet_queue[recv_queue_start]`. */
    method PacketPointer() returns (packet: nat)
      requires Valid() && driver == NoIrq && task == Take
      modifies this
      ensures Valid() && driver == NoIrq && task == Shift(packet)
      ensures delivered == old(delivered) && old(trace) <= trace && origin == old(origin)
    {
      ghost var before := View();
      StaysInBounds(origin, trace);
      packet := start;
      task := Shift(packet);
      Commit(before, TaskMove);
    }

    /** `recv_queue_start = (recv_queue_start + 1) % MAX_PACKET_COUNT`. */
    method StoreStart(packet: nat)
      requires Valid() && driver == NoIrq && task == Shift(packet)
      modifies this
      ensures Valid() && driver == NoIrq && task == Use(packet)
      ensures |delivered| == |old(delivered)| + 1 && old(delivered) <= delivered
      ensures old(trace) <= trace && origin == old(origin)
    {
      ghost var before := View();
      StaysInBounds(origin, trace);
      PutStart(packet);
      AfterStartMoved(origin, trace, before, View());
      trace := trace + [TaskMove];
    }

    method PutStart(ghost packet: nat)
      requires packet < slots.Length
      modifies this`start, this`task, this`delivered
      ensures View() == old(View()).(start := (old(start) + 1) % SLOTS, task := Use(packet),
                                     delivered := old(delivered) + [Content(slots[packet])])
    {
      start := (start + 1) % SLOTS;
      task, delivered := Use(packet), delivered + [Content(slots[packet])];
    }

    /** remove_packet, with interrupts between its statements: a slot index, or None for the
        null pointer, which is never the answer after a poll that saw a packet. */
    method RemovePacket() returns (packet: Option<nat>)
      requires Valid() && driver == NoIrq && (task == Poll || task == TestEmpty)
      modifies this, descs, buffers, slots
      ensures Valid() && driver == NoIrq && old(trace) <= trace && origin == old(origin)
      ensures packet.None? <==> old(start) == old(end)
      ensures packet.None? ==> task == Poll && delivered == old(delivered) && old(task) == Poll
      ensures packet.Some? ==>
                task == Use(packet.value) && |delivered| == |old(delivered)| + 1 && old(delivered) <= delivered
    {
      var empty := TestQueueEmpty();
      if empty {
        return None;
      }
      Elsewhere();
      var p := PacketPointer();
      Elsewhere();
      StoreStart(p);
      packet := Some(p);
    }

    /** The task has read the packet it was given, and is done with it. */
    method UsePacket(packet: nat) returns (bytes: seq<Byte>)
      requires Valid() && driver == NoIrq && task == Use(packet)
      modifies this
      ensures Valid() && driver == NoIrq && task == Poll
      ensures delivered == old(delivered) && delivered != [] && bytes == delivered[|delivered| - 1]
      ensures old(trace) <= trace && origin == old(origin)
    {
      ghost var before := View();
      StaysInBounds(origin, trace);
      UsedPacketIntact(origin, trace);
      bytes := slots[packet].data[..slots[packet].length];
      task := Poll;
      Commit(before, TaskMove);
    }

    /** One turn of the loop of network_task_recv: it takes a packet exactly if its poll finds
        the queue not empty, and so if it was not empty before. Then the bytes the task reads
        through its pointer, after any further interrupts, are those of the oldest frame not
        yet delivered. */
    method NetworkTaskTurn() returns (got: bool, bytes: seq<Byte>)
      requires Valid() && driver == NoIrq && task == Poll
      modifies this, descs, buffers, slots
      ensures Valid() && driver == NoIrq && task == Poll
      ensures delivered == if got then old(delivered) + [bytes] else old(delivered)
      ensures old(start) != old(end) ==> got
      ensures !got ==> start == end
      ensures old(trace) <= trace && origin == old(origin)
    {
      bytes := [];
      Elsewhere();
      if old(start) != old(end) {
        LaterNotEmpty(origin, old(trace), trace);
      }
      got := NewPacketAvailable();
      if got {
        bytes := DeliverPacket();
      }
    }

    /** The rest of the turn when a packet is there. */
    method DeliverPacket() returns (bytes: seq<Byte>)
      requires Valid() && driver == NoIrq && task == TestEmpty
      modifies this, descs, buffers, slots
      ensures Valid() && driver == NoIrq && task == Poll
      ensures delivered == old(delivered) + [bytes] && old(trace) <= trace && origin == old(origin)
    {
      Elsewhere();
      var packet := RemovePacket();
      Elsewhere();
      bytes := UsePacket(packet.value);
      OneLonger(old(delivered), delivered);
    }

    static lemma {:induction false} OneLonger(a: seq<seq<Byte>>, b: seq<seq<Byte>>)
      requires a <= b && |b| == |a| + 1
      ensures b == a + [b[|b| - 1]]
    {
      assert b[..|a|] == a;
    }
  }
}

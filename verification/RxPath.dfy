/** The receive path as a machine of atomic moves: the card filling descriptors by DMA, the
    interrupt handler draining them into the packet queue, and the network task emptying
    the queue. The card may move between any two statements of the handler or the task;
    the task may not move while the handler runs. */
module RxPath {
  import opened Words

  const DESCRIPTORS := 32         // E1000_NUM_RX_DESC
  const SLOTS := 128              // MAX_PACKET_COUNT
  const MAX_PACKET_SIZE := 8192

  type Frame = f: seq<Byte> | |f| <= MAX_PACKET_SIZE

  datatype Descriptor = Descriptor(length: nat, done: bool)
  datatype Packet = Packet(length: U16, data: seq<Byte>)

  /** Where the card is: waiting, writing byte k of a frame, about to write the length,
      about to set the done bit, or about to advance its head. */
  datatype Card = Waiting | Data(frame: Frame, k: nat) | Length(frame: Frame) | Done(frame: Frame) | Advance

  /** The next statement of receive_packet and of the insert_packet it calls. */
  datatype Driver =
    | NoIrq
    | TestDone
    | ReadAddr
    | ReadLength(buf: nat)
    | TestFull(buf: nat, len: nat)
    | PutLength(buf: nat, len: nat, newEnd: nat)
    | Copy(buf: nat, len: nat, newEnd: nat, k: nat)
    | PutEnd(newEnd: nat)
    | ClearStatus
    | AdvanceCur
    | WriteTail(oldCur: nat)

  /** The next statement of network_task_recv and of the remove_packet it calls. Fault is
      the use of the null pointer remove_packet returns on an empty queue. */
  datatype Task = Poll | TestEmpty | Take | Shift(packet: nat) | Use(packet: nat) | Fault

  /** What became of a frame the driver took: the queue length insert_packet saw, and
      whether it kept the frame. */
  datatype Verdict = Verdict(queued: int, kept: bool)

  datatype State = State(
    descs: seq<Descriptor>, buffers: seq<seq<Byte>>, head: nat, tail: nat, card: Card,
    rxCur: nat, driver: Driver,
    slots: seq<Packet>, start: nat, end: nat, task: Task,
    // history
    filled: seq<Frame>,         // frames the card completed, in order
    passed: nat,                // how often the driver advanced rx_cur
    verdicts: seq<Verdict>,     // one for each frame the driver dealt with
    delivered: seq<seq<Byte>>)  // packets remove_packet handed to the task

  datatype Move = CardMove(frame: Frame) | Irq | DriverMove | TaskMove

  predicate Shaped(s: State) {
    && |s.descs| == |s.buffers| == DESCRIPTORS && |s.slots| == SLOTS
    && (forall i :: 0 <= i < DESCRIPTORS ==> |s.buffers[i]| == MAX_PACKET_SIZE)
    && (forall i :: 0 <= i < SLOTS ==> |s.slots[i].data| == MAX_PACKET_SIZE)
    && s.head < DESCRIPTORS && s.tail < DESCRIPTORS && s.rxCur < DESCRIPTORS
    && s.start < SLOTS && s.end < SLOTS
  }

  /** init_receive_descriptors has run, and the queue indices are zero. */
  predicate Initial(s: State) {
    && Shaped(s)
    && (forall i :: 0 <= i < DESCRIPTORS ==> !s.descs[i].done)
    && s.head == 0 && s.tail == DESCRIPTORS - 1 && s.rxCur == 0 && s.start == s.end == 0
    && s.card == Waiting && s.driver == NoIrq && s.task == Poll
    && s.filled == [] && s.passed == 0 && s.verdicts == [] && s.delivered == []
  }

  function Queued(s: State): int {
    if s.start <= s.end then s.end - s.start else s.end + SLOTS - s.start
  }

  predicate Enabled(s: State, m: Move) {
    match m
    case CardMove(_) => s.card.Waiting? ==> s.head != s.tail
    case Irq => s.driver.NoIrq?
    case DriverMove => !s.driver.NoIrq?
    case TaskMove => s.driver.NoIrq? && !s.task.Fault?
  }

  // --------------------------------------------------------------- the card

  function CardStep(s: State, frame: Frame): State
    requires Shaped(s)
  {
    match s.card
    case Waiting => s.(card := Data(frame, 0))
    case Data(f, k) =>
      if k < |f| then
        s.(buffers := s.buffers[s.head := s.buffers[s.head][k := f[k]]], card := Data(f, k + 1))
      else s.(card := Length(f))
    case Length(f) =>
      s.(descs := s.descs[s.head := s.descs[s.head].(length := |f|)], card := Done(f))
    case Done(f) =>
      s.(descs := s.descs[s.head := s.descs[s.head].(done := true)], card := Advance, filled := s.filled + [f])
    case Advance =>
      s.(head := (s.head + 1) % DESCRIPTORS, card := Waiting)
  }

  // ------------------------------------------------- the interrupt handler

  /** The locals of the handler index what they should. */
  predicate Locals(s: State)
    requires Shaped(s)
  {
    match s.driver
    case ReadLength(buf) => buf < DESCRIPTORS
    case TestFull(buf, len) => buf < DESCRIPTORS && len <= MAX_PACKET_SIZE
    case PutLength(buf, len, newEnd) => buf < DESCRIPTORS && len <= MAX_PACKET_SIZE && newEnd < SLOTS
    case Copy(buf, len, newEnd, k) => buf < DESCRIPTORS && k <= len <= MAX_PACKET_SIZE && newEnd < SLOTS
    case PutEnd(newEnd) => newEnd < SLOTS
    case WriteTail(oldCur) => oldCur < DESCRIPTORS
    case _ => true
  }

  function DriverStep(s: State): State
    requires Shaped(s) && Locals(s)
  {
    match s.driver
    case NoIrq => s
    case TestDone => s.(driver := if s.descs[s.rxCur].done then ReadAddr else NoIrq)
    case ReadAddr => s.(driver := ReadLength(s.rxCur))
    case ReadLength(buf) => s.(driver := TestFull(buf, s.descs[s.rxCur].length))
    case TestFull(buf, len) =>
      var newEnd := (s.end + 1) % SLOTS;
      if newEnd != s.start then s.(driver := PutLength(buf, len, newEnd))
      else s.(driver := ClearStatus, verdicts := s.verdicts + [Verdict(Queued(s), false)])
    case PutLength(buf, len, newEnd) =>
      s.(slots := s.slots[s.end := s.slots[s.end].(length := len)], driver := Copy(buf, len, newEnd, 0))
    case Copy(buf, len, newEnd, k) =>
      if k < len then
        s.(slots := s.slots[s.end := s.slots[s.end].(data := s.slots[s.end].data[k := s.buffers[buf][k]])],
           driver := Copy(buf, len, newEnd, k + 1))
      else s.(driver := PutEnd(newEnd))
    case PutEnd(newEnd) =>
      s.(end := newEnd, driver := ClearStatus, verdicts := s.verdicts + [Verdict(Queued(s), true)])
    case ClearStatus =>
      s.(descs := s.descs[s.rxCur := s.descs[s.rxCur].(done := false)], driver := AdvanceCur)
    case AdvanceCur =>
      s.(rxCur := (s.rxCur + 1) % DESCRIPTORS, passed := s.passed + 1, driver := WriteTail(s.rxCur))
    case WriteTail(oldCur) =>
      s.(tail := oldCur, driver := TestDone)
  }

  // ---------------------------------------------------------------- the task

  /** The bytes of a packet that its length covers. */
  function Content(p: Packet): seq<Byte> {
    if p.length <= |p.data| then p.data[..p.length] else p.data
  }

  function TaskStep(s: State): State
    requires Shaped(s)
    requires s.task.Shift? ==> s.task.packet < SLOTS
  {
    match s.task
    case Poll => s.(task := if s.start != s.end then TestEmpty else Poll)
    case TestEmpty => s.(task := if s.start == s.end then Fault else Take)
    case Take => s.(task := Shift(s.start))
    case Shift(p) =>
      s.(start := (s.start + 1) % SLOTS, task := Use(p), delivered := s.delivered + [Content(s.slots[p])])
    case Use(_) => s.(task := Poll)
    case Fault => s
  }

  // ------------------------------------------------------------- invariants

  /** The frames among the first |verdicts| that insert_packet kept. */
  function Kept(frames: seq<Frame>, verdicts: seq<Verdict>): (k: seq<Frame>)
    requires |verdicts| <= |frames|
  {
    if verdicts == [] then []
    else
      var n := |verdicts| - 1;
      Kept(frames, verdicts[..n]) + if verdicts[n].kept then [frames[n]] else []
  }

  lemma {:induction false} KeptOfMoreFrames(frames: seq<Frame>, f: Frame, verdicts: seq<Verdict>)
    requires |verdicts| <= |frames|
    ensures Kept(frames + [f], verdicts) == Kept(frames, verdicts)
  {
    if verdicts == [] {
    } else {
      KeptOfMoreFrames(frames, f, verdicts[..|verdicts| - 1]);
    }
  }

  lemma {:induction false} KeptOfNextVerdict(frames: seq<Frame>, verdicts: seq<Verdict>, v: Verdict)
    requires |verdicts| < |frames|
    ensures Kept(frames, verdicts + [v]) == Kept(frames, verdicts) + if v.kept then [frames[|verdicts|]] else []
  {
    assert (verdicts + [v])[..|verdicts|] == verdicts;
  }

  function KeptVerdicts(verdicts: seq<Verdict>): nat {
    if verdicts == [] then 0
    else KeptVerdicts(verdicts[..|verdicts| - 1]) + if verdicts[|verdicts| - 1].kept then 1 else 0
  }

  /** Each frame kept is where it belongs: after those kept before it, and there are no others. */
  lemma {:induction false} KeptInOrder(frames: seq<Frame>, verdicts: seq<Verdict>, i: nat)
    requires i < |verdicts| <= |frames|
    ensures |Kept(frames, verdicts)| == KeptVerdicts(verdicts)
    ensures verdicts[i].kept ==>
              var place := KeptVerdicts(verdicts[..i]);
              place < |Kept(frames, verdicts)| && Kept(frames, verdicts)[place] == frames[i]
    decreases |verdicts|
  {
    var n := |verdicts| - 1;
    if n == 0 {
      assert verdicts[..0] == [];
    } else {
      KeptInOrder(frames, verdicts[..n], if i < n then i else 0);
      if i < n {
        assert verdicts[..n][..i] == verdicts[..i];
      }
    }
  }

  /** How many descriptors the card's head register has passed. */
  function HeadCount(s: State): int {
    |s.filled| - if s.card.Advance? then 1 else 0
  }

  /** How many descriptors the driver has given back through the tail register. */
  function Released(s: State): int {
    s.passed - if s.driver.WriteTail? then 1 else 0
  }

  /** The first descriptor, counted from the start, whose done bit the driver has not cleared. */
  function Cleared(s: State): int {
    s.passed + if s.driver.AdvanceCur? then 1 else 0
  }

  predicate Filling(s: State) {
    s.card.Data? || s.card.Length? || s.card.Done?
  }

  /** The handler is dealing with descriptor rx_cur. */
  predicate Handling(s: State) {
    !s.driver.NoIrq? && !s.driver.TestDone? && !s.driver.WriteTail?
  }

  /** Descriptor d and buffer b hold frame f. */
  predicate Carries(d: Descriptor, b: seq<Byte>, f: Frame) {
    d.length == |f| && |f| <= |b| && b[..|f|] == f
  }

  predicate Written(b: seq<Byte>, f: Frame, k: nat) {
    k <= |f| && k <= |b| && b[..k] == f[..k]
  }

  ghost predicate RegistersInv(s: State) {
    && Shaped(s)
    && s.head == HeadCount(s) % DESCRIPTORS && HeadCount(s) >= 0
    && s.rxCur == s.passed % DESCRIPTORS
    && s.tail == (Released(s) + DESCRIPTORS - 1) % DESCRIPTORS && Released(s) >= 0
    && s.passed <= |s.filled| <= Released(s) + DESCRIPTORS - 1
    && (Filling(s) ==> |s.filled| < Released(s) + DESCRIPTORS - 1)
    && (Handling(s) ==> s.passed < |s.filled|)
  }

  /** The done bits are set on exactly the descriptors from rx_cur up to the card's head. */
  ghost predicate DoneBits(s: State)
    requires Shaped(s)
  {
    forall c :: Cleared(s) <= c < Cleared(s) + DESCRIPTORS ==> (s.descs[c % DESCRIPTORS].done <==> c < |s.filled|)
  }

  ghost predicate Contents(s: State)
    requires Shaped(s)
  {
    forall c :: s.passed <= c < |s.filled| ==>
      Carries(s.descs[c % DESCRIPTORS], s.buffers[c % DESCRIPTORS], s.filled[c])
  }

  ghost predicate Progress(s: State)
    requires Shaped(s)
  {
    match s.card
    case Data(f, k) => Written(s.buffers[s.head], f, k)
    case Length(f) => Written(s.buffers[s.head], f, |f|)
    case Done(f) => Carries(s.descs[s.head], s.buffers[s.head], f)
    case _ => true
  }

  ghost predicate RingInv(s: State) {
    RegistersInv(s) && DoneBits(s) && Contents(s) && Progress(s)
  }

  lemma {:induction false} DescriptorsApart(c: int, d: int)
    requires c < d < c + DESCRIPTORS
    ensures c % DESCRIPTORS != d % DESCRIPTORS
  {
  }

  lemma {:induction false} SlotsApart(c: int, d: int)
    requires c < d < c + SLOTS
    ensures c % SLOTS != d % SLOTS
  {
  }

  lemma {:induction false} ModAdd(x: int, y: int)
    ensures (x % DESCRIPTORS + y) % DESCRIPTORS == (x + y) % DESCRIPTORS
  {
  }

  lemma {:induction false} SlotsModAdd(x: int, y: int)
    ensures (x % SLOTS + y) % SLOTS == (x + y) % SLOTS
  {
  }

  /** While the card fills a descriptor, no descriptor counted by c is that one. */
  lemma {:induction false} FillingApart(s: State)
    requires RegistersInv(s) && Filling(s)
    ensures s.head == |s.filled| % DESCRIPTORS
    ensures forall c :: s.passed <= c < |s.filled| ==> c % DESCRIPTORS != s.head
    ensures forall c :: |s.filled| < c < Cleared(s) + DESCRIPTORS ==> c % DESCRIPTORS != s.head
  {
    var n := |s.filled|;
    forall c | s.passed <= c < n ensures c % DESCRIPTORS != s.head { DescriptorsApart(c, n); }
    forall c | n < c < Cleared(s) + DESCRIPTORS ensures c % DESCRIPTORS != s.head { DescriptorsApart(n, c); }
  }

  lemma {:induction false} CardKeepsRegisters(s: State, frame: Frame)
    requires RegistersInv(s) && Enabled(s, CardMove(frame))
    ensures RegistersInv(CardStep(s, frame))
  {
    if s.card.Waiting? {
      RoomToFill(s);
    } else if s.card.Advance? {
      ModAdd(HeadCount(s), 1);
    }
    assert Released(CardStep(s, frame)) == Released(s);
  }

  /** A head short of the tail means that a descriptor is free for the card. */
  lemma {:induction false} RoomToFill(s: State)
    requires RegistersInv(s) && s.card.Waiting? && s.head != s.tail
    ensures |s.filled| < Released(s) + DESCRIPTORS - 1
  {
  }

  lemma {:induction false} CardKeepsProgress(s: State, frame: Frame)
    requires RegistersInv(s) && Progress(s)
    ensures Progress(CardStep(s, frame))
  {
    if s.card.Data? && s.card.k < |s.card.frame| {
      var b := s.buffers[s.head];
      var f, k := s.card.frame, s.card.k;
      assert b[k := f[k]][..k + 1] == b[..k] + [f[k]];
      assert f[..k + 1] == f[..k] + [f[k]];
    }
  }

  lemma {:induction false} CardKeepsDoneBits(s: State, frame: Frame)
    requires RingInv(s)
    ensures DoneBits(CardStep(s, frame))
  {
    if Filling(s) {
      FillingApart(s);
    }
  }

  lemma {:induction false} CardKeepsContents(s: State, frame: Frame)
    requires RingInv(s)
    ensures Contents(CardStep(s, frame))
  {
    if Filling(s) {
      FillingApart(s);
    }
  }

  lemma {:induction false} CardKeepsRing(s: State, frame: Frame)
    requires RingInv(s) && Enabled(s, CardMove(frame))
    ensures RingInv(CardStep(s, frame))
  {
    CardKeepsRegisters(s, frame);
    CardKeepsProgress(s, frame);
    CardKeepsDoneBits(s, frame);
    CardKeepsContents(s, frame);
  }

  /** A set done bit at rx_cur means that the card has completed that descriptor. */
  lemma {:induction false} DoneMeansFilled(s: State)
    requires RingInv(s) && s.driver.TestDone?
    ensures s.descs[s.rxCur].done <==> s.passed < |s.filled|
  {
    assert s.descs[s.passed % DESCRIPTORS].done <==> s.passed < |s.filled|;
  }

  lemma {:induction false} AdvanceKeepsRegisters(s: State)
    requires RegistersInv(s) && s.driver.AdvanceCur?
    ensures RegistersInv(DriverStep(s))
  {
    var s' := DriverStep(s);
    ModAdd(s.passed, 1);
    assert Released(s') == Released(s) && HeadCount(s') == HeadCount(s);
  }

  lemma {:induction false} TailKeepsRegisters(s: State)
    requires RegistersInv(s) && s.driver.WriteTail?
    requires s.driver.oldCur == (s.passed - 1) % DESCRIPTORS
    ensures RegistersInv(DriverStep(s))
  {
    var s' := DriverStep(s);
    assert Released(s') == Released(s) + 1 == s.passed && HeadCount(s') == HeadCount(s);
    assert (s.passed + DESCRIPTORS - 1) % DESCRIPTORS == (s.passed - 1) % DESCRIPTORS;
  }

  lemma {:induction false} OtherKeepsRegisters(s: State)
    requires RegistersInv(s) && Locals(s) && !s.driver.AdvanceCur? && !s.driver.WriteTail?
    requires s.driver.TestDone? && s.descs[s.rxCur].done ==> s.passed < |s.filled|
    ensures RegistersInv(DriverStep(s))
  {
    var s' := DriverStep(s);
    assert Released(s') == Released(s) && HeadCount(s') == HeadCount(s);
  }

  lemma {:induction false} ClearKeepsDoneBits(s: State)
    requires RingInv(s) && s.driver.ClearStatus?
    ensures Shaped(DriverStep(s)) && DoneBits(DriverStep(s))
  {
    var s' := DriverStep(s);
    forall c | Cleared(s') <= c < Cleared(s') + DESCRIPTORS
      ensures s'.descs[c % DESCRIPTORS].done <==> c < |s'.filled|
    {
      if c == s.passed + DESCRIPTORS {
        ModAdd(c, -DESCRIPTORS);
        assert c % DESCRIPTORS == s.rxCur;
      } else {
        DescriptorsApart(s.passed, c);
        assert s.descs[c % DESCRIPTORS].done <==> c < |s.filled|;
      }
    }
  }

  lemma {:induction false} ClearKeepsBuffers(s: State)
    requires RingInv(s) && s.driver.ClearStatus?
    ensures var s' := DriverStep(s); Shaped(s') && DoneBits(s') && Contents(s') && Progress(s')
  {
    ClearKeepsDoneBits(s);
  }

  lemma {:induction false} AdvanceKeepsBuffers(s: State)
    requires RingInv(s) && s.driver.AdvanceCur?
    ensures var s' := DriverStep(s); Shaped(s') && DoneBits(s') && Contents(s') && Progress(s')
  {
    assert Cleared(DriverStep(s)) == Cleared(s);
  }

  lemma {:induction false} OtherKeepsBuffers(s: State)
    requires RingInv(s) && Locals(s) && !s.driver.ClearStatus? && !s.driver.AdvanceCur?
    ensures var s' := DriverStep(s); Shaped(s') && DoneBits(s') && Contents(s') && Progress(s')
  {
    var s' := DriverStep(s);
    assert s'.descs == s.descs && s'.buffers == s.buffers && s'.passed == s.passed && Cleared(s') == Cleared(s);
  }

  // --------------------------------------------------------- the packet queue

  predicate HoldsFrame(p: Packet, f: seq<Byte>) {
    p.length == |f| && |f| <= |p.data| && p.data[..|f|] == f
  }

  ghost predicate IndicesInv(s: State) {
    && |s.verdicts| == s.passed + (if s.driver.ClearStatus? || s.driver.AdvanceCur? then 1 else 0)
    && |s.verdicts| <= |s.filled|
    && var kept := |Kept(s.filled, s.verdicts)|;
      && |s.delivered| <= kept <= |s.delivered| + SLOTS - 1
      && s.end == kept % SLOTS && s.start == |s.delivered| % SLOTS
  }

  /** What was delivered is a prefix of what was kept, and the queue holds the rest. */
  ghost predicate Fifo(s: State)
    requires Shaped(s) && IndicesInv(s)
  {
    var k := Kept(s.filled, s.verdicts);
    && (forall c :: 0 <= c < |s.delivered| ==> s.delivered[c] == k[c])
    && (forall c :: |s.delivered| <= c < |k| ==> HoldsFrame(s.slots[c % SLOTS], k[c]))
  }

  /** insert_packet refuses a frame exactly when 127 packets are queued. */
  ghost predicate VerdictsInv(s: State) {
    forall i :: 0 <= i < |s.verdicts| ==>
      var v := s.verdicts[i];
      0 <= v.queued < SLOTS && (v.kept <==> v.queued < SLOTS - 1)
  }

  /** The packet the task works on is the one slot insert_packet never writes. */
  ghost predicate TaskInv(s: State)
    requires Shaped(s) && IndicesInv(s)
  {
    match s.task
    case Poll => true
    case TestEmpty => s.start != s.end
    case Take => s.start != s.end
    case Shift(p) => s.start != s.end && p == s.start
    case Use(p) => s.delivered != [] && p == (|s.delivered| - 1) % SLOTS &&
                   HoldsFrame(s.slots[p], s.delivered[|s.delivered| - 1])
    case Fault => false
  }

  predicate Room(s: State, newEnd: nat) {
    newEnd == (s.end + 1) % SLOTS && newEnd != s.start
  }

  /** The handler's locals describe the frame at rx_cur, and the copy is as far as k says. */
  ghost predicate HandlerInv(s: State)
    requires Shaped(s)
  {
    match s.driver
    case ReadLength(buf) => buf == s.rxCur
    case TestFull(buf, len) => buf == s.rxCur && s.passed < |s.filled| && len == |s.filled[s.passed]|
    case PutLength(buf, len, newEnd) =>
      buf == s.rxCur && s.passed < |s.filled| && len == |s.filled[s.passed]| && Room(s, newEnd)
    case Copy(buf, len, newEnd, k) =>
      && buf == s.rxCur && s.passed < |s.filled| && len == |s.filled[s.passed]| && Room(s, newEnd)
      && s.slots[s.end].length == len && Written(s.slots[s.end].data, s.filled[s.passed], k)
    case PutEnd(newEnd) =>
      s.passed < |s.filled| && Room(s, newEnd) && HoldsFrame(s.slots[s.end], s.filled[s.passed])
    case WriteTail(oldCur) => oldCur == (s.passed - 1) % DESCRIPTORS
    case _ => true
  }

  ghost predicate QueueInv(s: State) {
    Shaped(s) && IndicesInv(s) && Fifo(s) && VerdictsInv(s) && TaskInv(s) && HandlerInv(s)
  }

  ghost predicate Inv(s: State) {
    RingInv(s) && QueueInv(s)
  }

  lemma {:induction false} QueuedIs(s: State)
    requires Shaped(s) && IndicesInv(s)
    ensures Queued(s) == |Kept(s.filled, s.verdicts)| - |s.delivered|
    ensures (s.end + 1) % SLOTS == s.start <==> Queued(s) == SLOTS - 1
  {
  }

  lemma {:induction false} InvGivesLocals(s: State)
    requires Inv(s)
    ensures Locals(s)
    ensures s.task.Shift? ==> s.task.packet < SLOTS
  {
  }

  /** The queue's invariant looks at neither the descriptors nor the card, and at the list
      of completed frames only where it cannot change. */
  lemma {:induction false} QueueOfMoreFrames(s: State, s': State)
    requires QueueInv(s) && Shaped(s') && s.filled <= s'.filled && |s'.filled| <= |s.filled| + 1
    requires s' == s.(descs := s'.descs, buffers := s'.buffers, head := s'.head, card := s'.card, filled := s'.filled)
    ensures QueueInv(s')
  {
    if |s'.filled| > |s.filled| {
      var f := s'.filled[|s.filled|];
      assert s'.filled == s.filled + [f];
      KeptOfMoreFrames(s.filled, f, s.verdicts);
    } else {
      assert s'.filled == s.filled;
    }
    assert Kept(s'.filled, s'.verdicts) == Kept(s.filled, s.verdicts);
    assert IndicesInv(s') && Fifo(s') && VerdictsInv(s') && TaskInv(s');
  }

  lemma {:induction false} CardKeepsQueue(s: State, frame: Frame)
    requires QueueInv(s)
    ensures QueueInv(CardStep(s, frame))
  {
    QueueOfMoreFrames(s, CardStep(s, frame));
  }

  lemma {:induction false} TestFullKeepsQueue(s: State)
    requires QueueInv(s) && Locals(s) && s.driver.TestFull?
    ensures QueueInv(DriverStep(s))
  {
    QueuedIs(s);
    if (s.end + 1) % SLOTS == s.start {
      RefusalKeepsQueue(s);
      assert DriverStep(s) == s.(driver := ClearStatus, verdicts := s.verdicts + [Verdict(Queued(s), false)]);
    } else {
      AcceptanceKeepsQueue(s);
      assert DriverStep(s) == s.(driver := PutLength(s.driver.buf, s.driver.len, (s.end + 1) % SLOTS));
    }
  }

  lemma {:induction false} AcceptanceKeepsQueue(s: State)
    requires QueueInv(s) && s.driver.TestFull? && (s.end + 1) % SLOTS != s.start
    ensures QueueInv(s.(driver := PutLength(s.driver.buf, s.driver.len, (s.end + 1) % SLOTS)))
  {
    var s' := s.(driver := PutLength(s.driver.buf, s.driver.len, (s.end + 1) % SLOTS));
    assert IndicesInv(s');
    assert Fifo(s');
    assert TaskInv(s');
  }

  lemma {:induction false} RefusalKeepsQueue(s: State)
    requires QueueInv(s) && s.driver.TestFull? && s.passed < |s.filled|
    requires Queued(s) == SLOTS - 1
    ensures QueueInv(s.(driver := ClearStatus, verdicts := s.verdicts + [Verdict(Queued(s), false)]))
  {
    var s' := s.(driver := ClearStatus, verdicts := s.verdicts + [Verdict(Queued(s), false)]);
    KeptOfNextVerdict(s.filled, s.verdicts, Verdict(Queued(s), false));
    assert Kept(s'.filled, s'.verdicts) == Kept(s.filled, s.verdicts);
    assert IndicesInv(s') && Fifo(s') && VerdictsInv(s') && TaskInv(s');
  }

  /** A change to the slot at the end of a queue with room leaves every queued packet and
      the packet in use alone. */
  lemma {:induction false} EndSlotIsFree(s: State, newEnd: nat)
    requires Shaped(s) && IndicesInv(s) && Room(s, newEnd)
    ensures var k := |Kept(s.filled, s.verdicts)|;
      && k < |s.delivered| + SLOTS - 1
      && (forall c :: |s.delivered| - 1 <= c < k ==> c % SLOTS != s.end)
  {
    var k := |Kept(s.filled, s.verdicts)|;
    QueuedIs(s);
    forall c | |s.delivered| - 1 <= c < k
      ensures c % SLOTS != s.end
    {
      SlotsApart(c, k);
    }
  }

  lemma {:induction false} EndSlotKeepsFifo(s: State, newEnd: nat, p: Packet, driver: Driver)
    requires QueueInv(s) && Room(s, newEnd) && |p.data| == MAX_PACKET_SIZE
    requires !s.driver.ClearStatus? && !s.driver.AdvanceCur? && !driver.ClearStatus? && !driver.AdvanceCur?
    ensures var s' := s.(slots := s.slots[s.end := p], driver := driver);
      Shaped(s') && IndicesInv(s') && Fifo(s') && VerdictsInv(s') && TaskInv(s')
  {
    EndSlotIsFree(s, newEnd);
  }

  lemma {:induction false} LengthKeepsQueue(s: State)
    requires Inv(s) && Locals(s) && s.driver.PutLength?
    ensures QueueInv(DriverStep(s))
  {
    var s' := DriverStep(s);
    EndSlotKeepsFifo(s, s.driver.newEnd, s'.slots[s.end], s'.driver);
  }

  lemma {:induction false} OneByteMore(data: seq<Byte>, f: Frame, k: nat)
    requires Written(data, f, k) && k < |f| && k < |data|
    ensures Written(data[k := f[k]], f, k + 1)
  {
    assert data[k := f[k]][..k + 1] == data[..k] + [f[k]];
    assert f[..k + 1] == f[..k] + [f[k]];
  }

  lemma {:induction false} ByteOfFrame(s: State, k: nat)
    requires RingInv(s) && Handling(s) && k < |s.filled[s.passed]|
    ensures k < |s.buffers[s.rxCur]| && s.buffers[s.rxCur][k] == s.filled[s.passed][k]
  {
    var f := s.filled[s.passed];
    assert Carries(s.descs[s.passed % DESCRIPTORS], s.buffers[s.passed % DESCRIPTORS], f);
    assert s.buffers[s.rxCur][..|f|][k] == f[k];
  }

  lemma {:induction false} ByteKeepsQueue(s: State)
    requires Inv(s) && Locals(s) && s.driver.Copy? && s.driver.k < s.driver.len
    ensures QueueInv(DriverStep(s))
  {
    var s', k := DriverStep(s), s.driver.k;
    EndSlotKeepsFifo(s, s.driver.newEnd, s'.slots[s.end], s'.driver);
    ByteOfFrame(s, k);
    OneByteMore(s.slots[s.end].data, s.filled[s.passed], k);
  }

  lemma {:induction false} CopyEndKeepsQueue(s: State)
    requires Inv(s) && Locals(s) && s.driver.Copy? && s.driver.k >= s.driver.len
    ensures QueueInv(DriverStep(s))
  {
    var s', f := DriverStep(s), s.filled[s.passed];
    assert f[..s.driver.k] == f;
    assert IndicesInv(s') && Fifo(s');
  }

  lemma {:induction false} CopyKeepsQueue(s: State)
    requires Inv(s) && Locals(s) && (s.driver.PutLength? || s.driver.Copy?)
    ensures QueueInv(DriverStep(s))
  {
    if s.driver.PutLength? {
      LengthKeepsQueue(s);
    } else if s.driver.k < s.driver.len {
      ByteKeepsQueue(s);
    } else {
      CopyEndKeepsQueue(s);
    }
  }

  lemma {:induction false} PutEndKeepsQueue(s: State)
    requires QueueInv(s) && s.driver.PutEnd?
    ensures QueueInv(DriverStep(s))
  {
    var s' := DriverStep(s);
    QueuedIs(s);
    EndSlotIsFree(s, s.driver.newEnd);
    KeptOfNextVerdict(s.filled, s.verdicts, Verdict(Queued(s), true));
    SlotsModAdd(|Kept(s.filled, s.verdicts)|, 1);
    assert Kept(s'.filled, s'.verdicts) == Kept(s.filled, s.verdicts) + [s.filled[s.passed]];
    assert IndicesInv(s');
    assert VerdictsInv(s');
    PutEndKeepsFifo(s, s');
  }

  lemma {:induction false} PutEndKeepsFifo(s: State, s': State)
    requires QueueInv(s) && s.driver.PutEnd? && Shaped(s') && IndicesInv(s')
    requires s'.slots == s.slots && s'.delivered == s.delivered && s'.task == s.task && s'.start == s.start
    requires s'.end != s.start && s.end == |Kept(s.filled, s.verdicts)| % SLOTS
    requires Kept(s'.filled, s'.verdicts) == Kept(s.filled, s.verdicts) + [s.filled[s.passed]]
    ensures Fifo(s') && TaskInv(s')
  {
  }

  lemma {:induction false} OtherKeepsQueue(s: State)
    requires Inv(s) && Locals(s)
    requires !s.driver.TestFull? && !s.driver.PutLength? && !s.driver.Copy? && !s.driver.PutEnd?
    ensures QueueInv(DriverStep(s))
  {
    if s.driver.ReadLength? {
      assert Carries(s.descs[s.passed % DESCRIPTORS], s.buffers[s.passed % DESCRIPTORS], s.filled[s.passed]);
    }
  }

  lemma {:induction false} ShiftKeepsQueue(s: State)
    requires QueueInv(s) && s.driver.NoIrq? && s.task.Shift?
    ensures QueueInv(TaskStep(s))
  {
    var s' := TaskStep(s);
    var k := Kept(s.filled, s.verdicts);
    var d := |s.delivered|;
    QueuedIs(s);
    SlotsModAdd(d, 1);
    assert HoldsFrame(s.slots[d % SLOTS], k[d]);
    assert s'.delivered == s.delivered + [k[d]];
    assert IndicesInv(s');
    assert Fifo(s');
    assert TaskInv(s');
  }

  lemma {:induction false} TaskKeepsQueue(s: State)
    requires QueueInv(s) && Enabled(s, TaskMove)
    ensures QueueInv(TaskStep(s))
  {
    if s.task.Shift? {
      ShiftKeepsQueue(s);
    } else {
      var s' := TaskStep(s);
      assert IndicesInv(s') && Fifo(s');
    }
  }

  // ------------------------------------------------------------------- runs

  lemma {:induction false} DriverKeepsRing(s: State)
    requires RingInv(s) && Locals(s)
    requires s.driver.WriteTail? ==> s.driver.oldCur == (s.passed - 1) % DESCRIPTORS
    ensures RingInv(DriverStep(s))
  {
    match s.driver
    case ClearStatus => OtherKeepsRegisters(s); ClearKeepsBuffers(s);
    case AdvanceCur => AdvanceKeepsRegisters(s); AdvanceKeepsBuffers(s);
    case WriteTail(_) => TailKeepsRegisters(s); OtherKeepsBuffers(s);
    case TestDone => DoneMeansFilled(s); OtherKeepsRegisters(s); OtherKeepsBuffers(s);
    case _ => OtherKeepsRegisters(s); OtherKeepsBuffers(s);
  }

  lemma {:induction false} DriverKeepsInv(s: State)
    requires Inv(s) && Enabled(s, DriverMove)
    ensures Locals(s) && Inv(DriverStep(s))
  {
    InvGivesLocals(s);
    DriverKeepsRing(s);
    match s.driver
    case TestFull(_, _) => TestFullKeepsQueue(s);
    case PutLength(_, _, _) => CopyKeepsQueue(s);
    case Copy(_, _, _, _) => CopyKeepsQueue(s);
    case PutEnd(_) => PutEndKeepsQueue(s);
    case _ => OtherKeepsQueue(s);
  }

  function Step(s: State, m: Move): State
    requires Shaped(s) && Locals(s) && (s.task.Shift? ==> s.task.packet < SLOTS)
  {
    match m
    case CardMove(frame) => CardStep(s, frame)
    case Irq => s.(driver := TestDone)
    case DriverMove => DriverStep(s)
    case TaskMove => TaskStep(s)
  }

  lemma {:induction false} StepKeepsInv(s: State, m: Move)
    requires Inv(s) && Enabled(s, m)
    ensures Locals(s) && (s.task.Shift? ==> s.task.packet < SLOTS)
    ensures Inv(Step(s, m))
  {
    InvGivesLocals(s);
    match m
    case CardMove(frame) => CardKeepsRing(s, frame); CardKeepsQueue(s, frame);
    case Irq => IrqKeepsInv(s);
    case DriverMove => DriverKeepsInv(s);
    case TaskMove => TaskKeepsQueue(s); TaskKeepsRing(s);
  }

  lemma {:induction false} IrqKeepsInv(s: State)
    requires Inv(s) && s.driver.NoIrq?
    ensures Inv(s.(driver := TestDone))
  {
    var s' := s.(driver := TestDone);
    assert RegistersInv(s') && DoneBits(s') && Contents(s');
    assert IndicesInv(s') && Fifo(s');
  }

  /** The ring's invariant does not look at the queue. */
  lemma {:induction false} RingIgnoresQueue(s: State, s': State)
    requires RingInv(s) && Shaped(s')
    requires s'.descs == s.descs && s'.buffers == s.buffers && s'.head == s.head && s'.tail == s.tail && s'.card == s.card
    requires s'.rxCur == s.rxCur && s'.driver == s.driver && s'.filled == s.filled && s'.passed == s.passed
    ensures RingInv(s')
  {
  }

  lemma {:induction false} TaskKeepsRing(s: State)
    requires Inv(s) && s.driver.NoIrq?
    ensures s.task.Shift? ==> s.task.packet < SLOTS
    ensures RingInv(TaskStep(s))
  {
    RingIgnoresQueue(s, TaskStep(s));
  }

  /** Every index is in range, so every move is defined; true in all reachable states. */
  predicate InBounds(s: State) {
    Shaped(s) && Locals(s) && (s.task.Shift? ==> s.task.packet < SLOTS)
  }

  function Next(s: State, m: Move): State {
    if InBounds(s) then Step(s, m) else s
  }

  /** The state after the moves, from s0. */
  ghost function After(s0: State, moves: seq<Move>): State {
    if moves == [] then s0 else Next(After(s0, moves[..|moves| - 1]), moves[|moves| - 1])
  }

  /** s0 is initial and each of the moves is possible when it happens. */
  ghost predicate History(s0: State, moves: seq<Move>) {
    if moves == [] then Initial(s0)
    else
      && History(s0, moves[..|moves| - 1])
      && Enabled(After(s0, moves[..|moves| - 1]), moves[|moves| - 1])
  }

  lemma {:induction false} OneMore(s0: State, moves: seq<Move>, m: Move)
    ensures After(s0, moves + [m]) == Next(After(s0, moves), m)
    ensures History(s0, moves + [m]) <==> History(s0, moves) && Enabled(After(s0, moves), m)
  {
    assert (moves + [m])[..|moves|] == moves;
  }

  lemma {:induction false} InitialInv(s: State)
    requires Initial(s)
    ensures Inv(s)
  {
    assert RingInv(s);
    assert QueueInv(s);
  }

  /** The invariant holds after every history. */
  lemma {:induction false} HistoryKeepsInv(s0: State, moves: seq<Move>)
    requires History(s0, moves)
    ensures Inv(After(s0, moves)) && InBounds(After(s0, moves))
  {
    if moves == [] {
      InitialInv(s0);
    } else {
      var s := After(s0, moves[..|moves| - 1]);
      HistoryKeepsInv(s0, moves[..|moves| - 1]);
      StepKeepsInv(s, moves[|moves| - 1]);
    }
    InvGivesLocals(After(s0, moves));
  }

  ghost predicate Reachable(s: State) {
    exists s0, moves :: History(s0, moves) && After(s0, moves) == s
  }

  lemma {:induction false} ReachableInv(s: State)
    requires Reachable(s)
    ensures Inv(s) && InBounds(s)
  {
    var s0, moves :| History(s0, moves) && After(s0, moves) == s;
    HistoryKeepsInv(s0, moves);
  }

  lemma {:induction false} StaysInBounds(s0: State, moves: seq<Move>)
    requires History(s0, moves)
    ensures InBounds(After(s0, moves))
    ensures After(s0, moves).passed <= |After(s0, moves).filled|
    ensures After(s0, moves).task == TestEmpty ==> After(s0, moves).start != After(s0, moves).end
  {
    HistoryKeepsInv(s0, moves);
  }

  // Some of the handler's steps, and what they are at the end of a history.

  lemma {:induction false} AfterRoomSeen(s0: State, moves: seq<Move>, s: State, s': State)
    requires History(s0, moves) && After(s0, moves) == s
    requires s.driver.TestFull? && (s.end + 1) % SLOTS != s.start
    requires s' == s.(driver := PutLength(s.driver.buf, s.driver.len, (s.end + 1) % SLOTS))
    ensures History(s0, moves + [DriverMove]) && After(s0, moves + [DriverMove]) == s'
  {
    StaysInBounds(s0, moves);
    RoomSeen(s);
    OneMore(s0, moves, DriverMove);
  }

  lemma {:induction false} RoomSeen(s: State)
    requires InBounds(s) && s.driver.TestFull? && (s.end + 1) % SLOTS != s.start
    ensures Next(s, DriverMove) == s.(driver := PutLength(s.driver.buf, s.driver.len, (s.end + 1) % SLOTS))
  {
  }

  lemma {:induction false} AfterNoRoomSeen(s0: State, moves: seq<Move>, s: State, s': State)
    requires History(s0, moves) && After(s0, moves) == s
    requires s.driver.TestFull? && (s.end + 1) % SLOTS == s.start
    requires s' == s.(driver := ClearStatus, verdicts := s.verdicts + [Verdict(Queued(s), false)])
    ensures History(s0, moves + [DriverMove]) && After(s0, moves + [DriverMove]) == s'
  {
    StaysInBounds(s0, moves);
    NoRoomSeen(s);
    OneMore(s0, moves, DriverMove);
  }

  lemma {:induction false} NoRoomSeen(s: State)
    requires InBounds(s) && s.driver.TestFull? && (s.end + 1) % SLOTS == s.start
    ensures Next(s, DriverMove) == s.(driver := ClearStatus, verdicts := s.verdicts + [Verdict(Queued(s), false)])
  {
  }

  lemma {:induction false} AfterCurAdvanced(s0: State, moves: seq<Move>, s: State, s': State)
    requires History(s0, moves) && After(s0, moves) == s && s.driver.AdvanceCur?
    requires s' == s.(rxCur := (s.rxCur + 1) % DESCRIPTORS, passed := s.passed + 1, driver := WriteTail(s.rxCur))
    ensures History(s0, moves + [DriverMove]) && After(s0, moves + [DriverMove]) == s'
  {
    StaysInBounds(s0, moves);
    CurAdvanced(s);
    OneMore(s0, moves, DriverMove);
  }

  lemma {:induction false} CurAdvanced(s: State)
    requires InBounds(s) && s.driver.AdvanceCur?
    ensures Next(s, DriverMove) ==
            s.(rxCur := (s.rxCur + 1) % DESCRIPTORS, passed := s.passed + 1, driver := WriteTail(s.rxCur))
  {
  }

  lemma {:induction false} AfterHeadAdvanced(s0: State, moves: seq<Move>, s: State, s': State)
    requires History(s0, moves) && After(s0, moves) == s && s.card.Advance?
    requires s' == s.(head := (s.head + 1) % DESCRIPTORS, card := Waiting)
    ensures History(s0, moves + [CardMove([])]) && After(s0, moves + [CardMove([])]) == s'
  {
    StaysInBounds(s0, moves);
    HeadAdvanced(s);
    OneMore(s0, moves, CardMove([]));
  }

  lemma {:induction false} HeadAdvanced(s: State)
    requires InBounds(s) && s.card.Advance?
    ensures Next(s, CardMove([])) == s.(head := (s.head + 1) % DESCRIPTORS, card := Waiting)
  {
  }

  lemma {:induction false} AfterStartMoved(s0: State, moves: seq<Move>, s: State, s': State)
    requires History(s0, moves) && After(s0, moves) == s && s.driver.NoIrq? && s.task.Shift?
    requires s.task.packet < |s.slots| ==>
      s' == s.(start := (s.start + 1) % SLOTS, task := Use(s.task.packet),
               delivered := s.delivered + [Content(s.slots[s.task.packet])])
    ensures History(s0, moves + [TaskMove]) && After(s0, moves + [TaskMove]) == s'
  {
    StaysInBounds(s0, moves);
    StartMoved(s);
    OneMore(s0, moves, TaskMove);
  }

  lemma {:induction false} StartMoved(s: State)
    requires InBounds(s) && s.task.Shift?
    ensures Next(s, TaskMove) ==
            s.(start := (s.start + 1) % SLOTS, task := Use(s.task.packet),
               delivered := s.delivered + [Content(s.slots[s.task.packet])])
  {
  }

  lemma {:induction false} UsedPacketIntact(s0: State, moves: seq<Move>)
    requires History(s0, moves) && After(s0, moves).task.Use?
    ensures var s := After(s0, moves);
      && s.task.packet < |s.slots| && s.delivered != []
      && s.slots[s.task.packet].length <= |s.slots[s.task.packet].data|
      && Content(s.slots[s.task.packet]) == s.delivered[|s.delivered| - 1]
  {
    UsedPacketIsDelivered(After(s0, moves));
  }

  // ------------------------------------------------ what only ever grows

  /** How many frames insert_packet kept. */
  function KeptCount(s: State): nat
    requires |s.verdicts| <= |s.filled|
  {
    |Kept(s.filled, s.verdicts)|
  }

  lemma {:induction false} CardGrows(s: State, frame: Frame)
    requires Inv(s)
    ensures |CardStep(s, frame).filled| >= |s.filled| && CardStep(s, frame).verdicts == s.verdicts
    ensures KeptCount(CardStep(s, frame)) == KeptCount(s)
  {
    if s.card.Done? {
      KeptOfMoreFrames(s.filled, s.card.frame, s.verdicts);
    }
  }

  lemma {:induction false} DriverGrows(s: State)
    requires Inv(s) && Locals(s)
    ensures DriverStep(s).filled == s.filled && |DriverStep(s).verdicts| <= |s.filled|
    ensures KeptCount(DriverStep(s)) >= KeptCount(s)
  {
    if s.driver.TestFull? || s.driver.PutEnd? {
      KeptOfNextVerdict(s.filled, s.verdicts, Verdict(Queued(s), true));
      KeptOfNextVerdict(s.filled, s.verdicts, Verdict(Queued(s), false));
    }
  }

  lemma {:induction false} StepGrows(s: State, m: Move)
    requires Inv(s) && InBounds(s) && Enabled(s, m)
    ensures |Step(s, m).filled| >= |s.filled| && |Step(s, m).verdicts| <= |Step(s, m).filled|
    ensures KeptCount(Step(s, m)) >= KeptCount(s)
  {
    match m
    case CardMove(frame) => CardGrows(s, frame);
    case Irq =>
    case DriverMove => DriverGrows(s);
    case TaskMove =>
  }

  lemma {:induction false} OneMoreGrows(s0: State, moves: seq<Move>, m: Move)
    requires History(s0, moves + [m])
    ensures History(s0, moves) && Inv(After(s0, moves)) && Inv(After(s0, moves + [m]))
    ensures |After(s0, moves).filled| <= |After(s0, moves + [m]).filled|
    ensures KeptCount(After(s0, moves)) <= KeptCount(After(s0, moves + [m]))
  {
    HistoryKeepsInv(s0, moves + [m]);
    OneMore(s0, moves, m);
    HistoryKeepsInv(s0, moves);
    StepGrows(After(s0, moves), m);
  }

  /** Completed and kept frames only become more. */
  lemma {:induction false} HistoryGrows(s0: State, moves: seq<Move>, more: seq<Move>)
    requires History(s0, moves + more)
    ensures History(s0, moves) && Inv(After(s0, moves)) && Inv(After(s0, moves + more))
    ensures |After(s0, moves).filled| <= |After(s0, moves + more).filled|
    ensures KeptCount(After(s0, moves)) <= KeptCount(After(s0, moves + more))
    decreases |more|
  {
    if more == [] {
      assert moves + more == moves;
      HistoryKeepsInv(s0, moves);
    } else {
      var n := |more| - 1;
      var before := moves + more[..n];
      assert moves + more == before + [more[n]];
      OneMoreGrows(s0, before, more[n]);
      HistoryGrows(s0, moves, more[..n]);
    }
  }

  lemma {:induction false} LaterGrows(s0: State, moves: seq<Move>, all: seq<Move>)
    requires History(s0, all) && moves <= all
    ensures |After(s0, moves).filled| <= |After(s0, all).filled|
  {
    assert all == moves + all[|moves|..];
    HistoryGrows(s0, moves, all[|moves|..]);
  }

  lemma {:induction false} LaterNotEmpty(s0: State, moves: seq<Move>, all: seq<Move>)
    requires History(s0, all) && moves <= all
    requires After(s0, all).delivered == After(s0, moves).delivered
    requires After(s0, moves).start != After(s0, moves).end
    ensures After(s0, all).start != After(s0, all).end
  {
    assert all == moves + all[|moves|..];
    QueueStays(s0, moves, all[|moves|..]);
  }

  lemma {:induction false} DrainedAfter(s0: State, moves: seq<Move>)
    requires History(s0, moves) && After(s0, moves).driver.TestDone?
    requires var s := After(s0, moves); Shaped(s) ==> !s.descs[s.rxCur].done
    ensures var s := After(s0, moves); s.passed == |s.filled| == |s.verdicts|
  {
    StaysInBounds(s0, moves);
    HandlerDrains(After(s0, moves));
  }

  /** A queue that is not empty stays so until the task takes a packet. */
  lemma {:induction false} QueueStays(s0: State, moves: seq<Move>, more: seq<Move>)
    requires History(s0, moves + more)
    requires After(s0, moves + more).delivered == After(s0, moves).delivered
    requires After(s0, moves).start != After(s0, moves).end
    ensures After(s0, moves + more).start != After(s0, moves + more).end
  {
    HistoryGrows(s0, moves, more);
    QueuedIs(After(s0, moves));
    QueuedIs(After(s0, moves + more));
  }

  // ----------------------------------------------------------- main results

  /** The done bit of the k-th descriptor from i on, around the ring. */
  predicate DoneFrom(s: State, i: nat, k: nat)
    requires Shaped(s)
  {
    s.descs[(i + k) % DESCRIPTORS].done
  }

  /** The descriptors with the done bit set are the n descriptors from rx_cur on (one later
      while rx_cur is about to follow a cleared bit), up to the card's head (one later while
      the head is about to follow a set bit). The tail is one behind rx_cur except between
      the two writes that advance them, and at least one descriptor is never done. */
  lemma {:induction false} DescriptorOwnership(s: State) returns (n: nat)
    requires Reachable(s)
    ensures Shaped(s) && n < DESCRIPTORS
    ensures var first := s.rxCur + if s.driver.AdvanceCur? then 1 else 0;
      && (forall k :: 0 <= k < DESCRIPTORS ==> (DoneFrom(s, first, k) <==> k < n))
      && (s.head + if s.card.Advance? then 1 else 0) % DESCRIPTORS == (first + n) % DESCRIPTORS
    ensures !s.driver.WriteTail? ==> s.tail == (s.rxCur + DESCRIPTORS - 1) % DESCRIPTORS
    ensures s.driver.WriteTail? ==> s.tail == (s.rxCur + DESCRIPTORS - 2) % DESCRIPTORS
  {
    ReachableInv(s);
    n := |s.filled| - Cleared(s);
    var first := s.rxCur + if s.driver.AdvanceCur? then 1 else 0;
    RegisterValues(s, n);
    forall k | 0 <= k < DESCRIPTORS
      ensures DoneFrom(s, first, k) <==> k < n
    {
      DoneFromIs(s, first, k, n);
    }
  }

  lemma {:induction false} DoneFromIs(s: State, first: nat, k: nat, n: nat)
    requires RegistersInv(s) && DoneBits(s) && k < DESCRIPTORS && n == |s.filled| - Cleared(s)
    requires first == s.rxCur + if s.driver.AdvanceCur? then 1 else 0
    ensures DoneFrom(s, first, k) <==> k < n
  {
    ModAdd(s.passed, first - s.rxCur + k);
    assert s.descs[(Cleared(s) + k) % DESCRIPTORS].done <==> Cleared(s) + k < |s.filled|;
  }

  lemma {:induction false} RegisterValues(s: State, n: nat)
    requires RegistersInv(s) && n == |s.filled| - Cleared(s)
    ensures var first := s.rxCur + if s.driver.AdvanceCur? then 1 else 0;
      (s.head + if s.card.Advance? then 1 else 0) % DESCRIPTORS == (first + n) % DESCRIPTORS
    ensures !s.driver.WriteTail? ==> s.tail == (s.rxCur + DESCRIPTORS - 1) % DESCRIPTORS
    ensures s.driver.WriteTail? ==> s.tail == (s.rxCur + DESCRIPTORS - 2) % DESCRIPTORS
  {
    ModAdd(HeadCount(s), if s.card.Advance? then 1 else 0);
    ModAdd(s.passed, (if s.driver.AdvanceCur? then 1 else 0) + n);
    ModAdd(s.passed, if s.driver.WriteTail? then DESCRIPTORS - 2 else DESCRIPTORS - 1);
  }

  /** The handler only ever looks at a descriptor the card has completed, and finds in it
      the oldest frame it has not yet dealt with; the card only ever writes a descriptor
      that is neither done nor in the handler's hands. */
  lemma {:induction false} ExclusiveDescriptors(s: State)
    requires Reachable(s)
    ensures Shaped(s)
    ensures Handling(s) ==>
              && s.passed < |s.filled|
              && Carries(s.descs[s.rxCur], s.buffers[s.rxCur], s.filled[s.passed])
    ensures Filling(s) ==> !s.descs[s.head].done && (Handling(s) ==> s.head != s.rxCur)
  {
    ReachableInv(s);
    if Handling(s) {
      assert Carries(s.descs[s.passed % DESCRIPTORS], s.buffers[s.passed % DESCRIPTORS], s.filled[s.passed]);
    }
    if Filling(s) {
      FillingApart(s);
      assert s.descs[|s.filled| % DESCRIPTORS].done <==> |s.filled| < |s.filled|;
      if Handling(s) {
        assert s.passed % DESCRIPTORS != s.head;
      }
    }
  }

  /** The packets in the queue, oldest first. */
  function Queue(s: State): seq<seq<Byte>>
    requires Shaped(s)
  {
    seq(Queued(s), k requires 0 <= k < Queued(s) => Content(s.slots[(s.start + k) % SLOTS]))
  }

  /** What the task was given, followed by what is queued, is byte for byte the frames the
      handler took from the card, in order, without those it refused; and it refuses a
      frame exactly when it finds 127 packets queued. */
  lemma {:induction false} EndToEndFifo(s: State)
    requires Reachable(s)
    ensures Shaped(s) && s.passed <= |s.verdicts| <= |s.filled| && |s.verdicts| <= s.passed + 1
    ensures s.delivered + Queue(s) == Kept(s.filled, s.verdicts)
    ensures forall i :: 0 <= i < |s.verdicts| ==>
              0 <= s.verdicts[i].queued < 128 && (s.verdicts[i].kept <==> s.verdicts[i].queued != 127)
  {
    ReachableInv(s);
    QueueIsKept(s);
  }

  lemma {:induction false} TwoParts<T>(a: seq<T>, b: seq<T>, whole: seq<T>)
    requires |a| + |b| == |whole|
    requires forall i :: 0 <= i < |a| ==> a[i] == whole[i]
    requires forall i :: 0 <= i < |b| ==> b[i] == whole[|a| + i]
    ensures a + b == whole
  {
  }

  lemma {:induction false} QueueIsKept(s: State)
    requires QueueInv(s)
    ensures s.delivered + Queue(s) == Kept(s.filled, s.verdicts)
  {
    QueuedIs(s);
    forall j | 0 <= j < |Queue(s)|
      ensures Queue(s)[j] == Kept(s.filled, s.verdicts)[|s.delivered| + j]
    {
      QueuedPacket(s, j);
    }
    TwoParts(s.delivered, Queue(s), Kept(s.filled, s.verdicts));
  }

  lemma {:induction false} QueuedPacket(s: State, j: nat)
    requires QueueInv(s) && j < Queued(s)
    ensures |s.delivered| + j < |Kept(s.filled, s.verdicts)|
    ensures Content(s.slots[(s.start + j) % SLOTS]) == Kept(s.filled, s.verdicts)[|s.delivered| + j]
  {
    QueuedIs(s);
    var d := |s.delivered|;
    assert HoldsFrame(s.slots[(d + j) % SLOTS], Kept(s.filled, s.verdicts)[d + j]);
    SlotsModAdd(d, j);
  }

  /** The task never uses the null pointer of an empty queue. */
  lemma {:induction false} NoNullPacket(s: State)
    requires Reachable(s)
    ensures s.task != Fault
  {
    ReachableInv(s);
  }

  /** When the handler finds no done bit and returns, it has dealt with every frame the card
      completed. */
  lemma {:induction false} HandlerDrains(s: State)
    requires Reachable(s) && Shaped(s) && s.driver.TestDone? && !s.descs[s.rxCur].done
    ensures s.passed == |s.filled| == |s.verdicts|
  {
    ReachableInv(s);
    DoneMeansFilled(s);
  }

  /** The task holds packet p: it has the pointer, before or after recv_queue_start moves on. */
  predicate Holding(s: State, p: nat) {
    s.task == Shift(p) || s.task == Use(p)
  }

  lemma {:induction false} HeldSlotUntouched(s: State, m: Move, p: nat)
    requires Inv(s) && Enabled(s, m) && Holding(s, p)
    ensures Locals(s) && p < SLOTS && Step(s, m).slots[p] == s.slots[p]
  {
    InvGivesLocals(s);
    if m.DriverMove? {
      match s.driver
      case PutLength(_, _, newEnd) => HeldSlotNotAtEnd(s, newEnd, p);
      case Copy(_, _, newEnd, _) => HeldSlotNotAtEnd(s, newEnd, p);
      case _ =>
    }
  }

  lemma {:induction false} HeldSlotNotAtEnd(s: State, newEnd: nat, p: nat)
    requires QueueInv(s) && Holding(s, p) && Room(s, newEnd)
    ensures p != s.end
  {
    EndSlotIsFree(s, newEnd);
  }

  lemma {:induction false} HeldSlotUntouchedByOne(s0: State, moves: seq<Move>, m: Move, p: nat)
    requires History(s0, moves + [m]) && Holding(After(s0, moves), p)
    ensures var s, s' := After(s0, moves), After(s0, moves + [m]);
      p < |s.slots| == |s'.slots| && s'.slots[p] == s.slots[p]
  {
    OneMore(s0, moves, m);
    HistoryKeepsInv(s0, moves);
    HeldSlotUntouched(After(s0, moves), m, p);
  }

  /** As long as the task holds a packet, its slot keeps length and data, whatever frames
      arrive and however many interrupts insert packets in the meantime. */
  lemma {:induction false} HeldPacketStable(s0: State, moves: seq<Move>, more: seq<Move>, p: nat)
    requires History(s0, moves + more)
    requires forall k :: 0 <= k <= |more| ==> Holding(After(s0, moves + more[..k]), p)
    ensures var s, s' := After(s0, moves), After(s0, moves + more);
      p < |s.slots| == |s'.slots| && s'.slots[p] == s.slots[p]
    decreases |more|
  {
    if more == [] {
      assert moves + more == moves == moves + more[..0];
      HistoryKeepsInv(s0, moves);
      InvGivesLocals(After(s0, moves));
      HeldInBounds(After(s0, moves), p);
    } else {
      var n := |more| - 1;
      assert moves + more == (moves + more[..n]) + [more[n]];
      OneMore(s0, moves + more[..n], more[n]);
      HeldSlotUntouchedByOne(s0, moves + more[..n], more[n], p);
      forall k | 0 <= k <= n ensures Holding(After(s0, moves + more[..n][..k]), p) {
        assert more[..n][..k] == more[..k];
      }
      HeldPacketStable(s0, moves, more[..n], p);
    }
  }

  lemma {:induction false} HeldInBounds(s: State, p: nat)
    requires QueueInv(s) && Holding(s, p)
    ensures p < SLOTS == |s.slots|
  {
  }

  /** What the task reads once remove_packet has returned is the packet it delivered. */
  lemma {:induction false} UsedPacketIsDelivered(s: State)
    requires Reachable(s) && s.task.Use?
    ensures s.task.packet < |s.slots| && s.delivered != []
    ensures HoldsFrame(s.slots[s.task.packet], s.delivered[|s.delivered| - 1])
  {
    ReachableInv(s);
  }
}

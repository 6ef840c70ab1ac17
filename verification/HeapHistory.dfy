/** Whole histories of the allocator: requests, releases of live blocks, and stores by clients
    into bytes that are theirs, in any order. */
module HeapHistory {
  import opened Words
  import opened Heap
  import opened Malloc

  datatype Op = Request(size: U32) | Return(ptr: U32, block: nat) | Store(a: nat, b: Byte)

  ghost predicate Permitted(listHead: nat, h: Heap, op: Op)
    requires WellFormed(h)
  {
    match op
    case Request(size) => Sound(h, size)
    case Return(ptr, i) => Live(h, i) && ptr == Payload(h, i)
    case Store(a, _) => ClientByte(listHead, h, a)
  }

  /** The calls of the abstract heap that an operation makes. */
  function CallsOf(op: Op): seq<Call> {
    match op
    case Request(size) => [Alloc(BlockFor(size))]
    case Return(_, i) => [Release(i)]
    case Store(_, _) => []
  }

  ghost function HeapAfter(h: Heap, op: Op): Heap
    requires WellFormed(h)
  {
    match op
    case Request(size) => AfterMalloc(h, BlockFor(size)).0
    case Return(_, i) => AfterFree(h, i)
    case Store(_, _) => h
  }

  lemma {:induction false} HeapStays(listHead: nat, h: Heap, op: Op)
    requires WellFormed(h) && Permitted(listHead, h, op)
    ensures WellFormed(HeapAfter(h, op))
  {
    match op
    case Request(size) =>
      MallocSteps(h, BlockFor(size));
    case Return(_, i) => FreeSteps(h, i);
    case Store(_, _) =>
  }

  /** Every operation of the history is permitted when its turn comes. */
  ghost predicate Orderly(listHead: nat, h: Heap, ops: seq<Op>)
    requires WellFormed(h)
    decreases |ops|
  {
    ops == [] ||
    (Permitted(listHead, h, ops[0]) &&
     (HeapStays(listHead, h, ops[0]); Orderly(listHead, HeapAfter(h, ops[0]), ops[1..])))
  }

  function AllCalls(ops: seq<Op>): seq<Call> {
    if ops == [] then [] else CallsOf(ops[0]) + AllCalls(ops[1..])
  }

  /** Byte a belongs to clients before, between and after the operations. */
  ghost predicate Kept(listHead: nat, h: Heap, ops: seq<Op>, a: nat)
    requires WellFormed(h) && Orderly(listHead, h, ops)
    decreases |ops|
  {
    && ClientByte(listHead, h, a)
    && (ops != [] ==>
          (HeapStays(listHead, h, ops[0]); Kept(listHead, HeapAfter(h, ops[0]), ops[1..], a)))
  }

  /** The value last stored at a, which held v before. */
  function LastStored(ops: seq<Op>, a: nat, v: Byte): Byte {
    if ops == [] then v
    else LastStored(ops[1..], a, if ops[0].Store? && ops[0].a == a then ops[0].b else v)
  }

  lemma {:induction false} CallsLegal(listHead: nat, h: Heap, ops: seq<Op>)
    requires WellFormed(h) && Orderly(listHead, h, ops)
    ensures Legal(h, AllCalls(ops))
    decreases |ops|
  {
    if ops == [] {
    } else {
      HeapStays(listHead, h, ops[0]);
      var h' := HeapAfter(h, ops[0]);
      CallsLegal(listHead, h', ops[1..]);
      var rest := AllCalls(ops[1..]);
      match ops[0]
      case Request(size) =>
        FirstCall(h, Alloc(BlockFor(size)), rest);
      case Return(_, i) => FirstCall(h, Release(i), rest);
      case Store(_, _) => assert AllCalls(ops) == rest;
    }
  }

  lemma {:induction false} FirstCall(h: Heap, c: Call, rest: seq<Call>)
    requires WellFormed(h) && Allowed(h, c)
    requires WellFormed(Step(h, c)) && Legal(Step(h, c), rest)
    ensures Legal(h, [c] + rest) && Run(h, [c] + rest) == Run(Step(h, c), rest)
  {
    assert ([c] + rest)[1..] == rest;
  }

  lemma {:induction false} RunOfMore(listHead: nat, h: Heap, ops: seq<Op>)
    requires WellFormed(h) && ops != [] && Orderly(listHead, h, ops)
    ensures WellFormed(HeapAfter(h, ops[0])) && Orderly(listHead, HeapAfter(h, ops[0]), ops[1..])
    ensures Legal(h, AllCalls(ops)) && Legal(HeapAfter(h, ops[0]), AllCalls(ops[1..]))
    ensures Run(h, AllCalls(ops)) == Run(HeapAfter(h, ops[0]), AllCalls(ops[1..]))
  {
    HeapStays(listHead, h, ops[0]);
    CallsLegal(listHead, h, ops);
    CallsLegal(listHead, HeapAfter(h, ops[0]), ops[1..]);
    var rest := AllCalls(ops[1..]);
    match ops[0]
    case Request(size) =>
      FirstCall(h, Alloc(BlockFor(size)), rest);
    case Return(_, i) => FirstCall(h, Release(i), rest);
    case Store(_, _) => assert AllCalls(ops) == rest;
  }

  /** Bytes kept through a history hold what was last stored in them. */
  ghost predicate Remembered(m: seq<Byte>, m': seq<Byte>, listHead: nat, h: Heap, ops: seq<Op>)
    requires |m| == |m'| == TWO_32 && WellFormed(h) && Orderly(listHead, h, ops)
  {
    forall a :: 0 <= a < TWO_32 && Kept(listHead, h, ops, a) ==> m'[a] == LastStored(ops, a, m[a])
  }

  lemma {:induction false} BlockStays(listHead: nat, h: Heap, op: Op, i: nat)
    requires WellFormed(h) && Permitted(listHead, h, op) && Live(h, i) && !(op.Return? && op.block == i)
    ensures var h' := HeapAfter(h, op);
      && WellFormed(h') && Live(h', i)
      && h'.sizes[i] == h.sizes[i] && Start(h'.sizes, i) == Start(h.sizes, i)
  {
    match op
    case Request(size) =>
      MallocSteps(h, BlockFor(size));
    case Return(_, j) => FreeSteps(h, j);
    case Store(_, _) =>
  }

  /** The payload of a live block that is not returned is kept. */
  lemma {:induction false} PayloadKept(listHead: nat, h: Heap, ops: seq<Op>, i: nat, a: nat)
    requires GoodListHead(listHead) && WellFormed(h) && Orderly(listHead, h, ops)
    requires Live(h, i) && Payload(h, i) <= a < Start(h.sizes, i) + h.sizes[i]
    requires forall op <- ops :: op.Return? ==> op.block != i
    ensures Kept(listHead, h, ops, a)
    decreases |ops|
  {
    LiveIsClient(listHead, h, i, a);
    if ops == [] {
    } else {
      BlockStays(listHead, h, ops[0], i);
      PayloadKept(listHead, HeapAfter(h, ops[0]), ops[1..], i, a);
    }
  }

  lemma {:induction false} RememberedMore(m: seq<Byte>, m1: seq<Byte>, m2: seq<Byte>, listHead: nat, h: Heap, ops: seq<Op>)
    requires |m| == |m1| == |m2| == TWO_32
    requires WellFormed(h) && ops != [] && Orderly(listHead, h, ops)
    requires WellFormed(HeapAfter(h, ops[0])) && Orderly(listHead, HeapAfter(h, ops[0]), ops[1..])
    requires if ops[0].Store? then ops[0].a < TWO_32 && m1 == m[ops[0].a := ops[0].b] else Untouched(m, m1, listHead, h)
    requires Remembered(m1, m2, listHead, HeapAfter(h, ops[0]), ops[1..])
    ensures Remembered(m, m2, listHead, h, ops)
  {
    forall a | 0 <= a < TWO_32 && Kept(listHead, h, ops, a)
      ensures m2[a] == LastStored(ops, a, m[a])
    {
      assert Kept(listHead, HeapAfter(h, ops[0]), ops[1..], a);
    }
  }

  /** One operation on the allocator. */
  method Perform(alloc: Allocator, op: Op)
    requires alloc.Valid() && Permitted(alloc.listHead, alloc.heap, op)
    modifies alloc, alloc.mem
    ensures alloc.Valid() && alloc.heap == HeapAfter(old(alloc.heap), op)
    ensures if op.Store? then op.a < TWO_32 && alloc.mem[..] == old(alloc.mem[..])[op.a := op.b]
            else Untouched(old(alloc.mem[..]), alloc.mem[..], alloc.listHead, old(alloc.heap))
  {
    match op
    case Request(size) => var _ := alloc.Malloc(size);
    case Return(ptr, i) => alloc.Free(ptr, i);
    case Store(a, b) => alloc.ClientStore(a, b);
  }

  /** After any orderly history, memory holds the heap that the abstract calls lead to: the
      headers tile it, the list in memory is its free list. And every byte that belonged to
      clients throughout holds what was last stored there. */
  method Replay(alloc: Allocator, ops: seq<Op>)
    requires alloc.Valid() && Orderly(alloc.listHead, alloc.heap, ops)
    modifies alloc, alloc.mem
    ensures alloc.Valid()
    ensures Legal(old(alloc.heap), AllCalls(ops)) && alloc.heap == Run(old(alloc.heap), AllCalls(ops))
    ensures Remembered(old(alloc.mem[..]), alloc.mem[..], alloc.listHead, old(alloc.heap), ops)
    decreases |ops|
  {
    ghost var h, m := alloc.heap, alloc.mem[..];
    if ops == [] {
      return;
    }
    RunOfMore(alloc.listHead, h, ops);
    Perform(alloc, ops[0]);
    ghost var m1 := alloc.mem[..];
    Replay(alloc, ops[1..]);
    RememberedMore(m, m1, alloc.mem[..], alloc.listHead, h, ops);
  }
}

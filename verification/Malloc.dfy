/** The allocator itself: sbrk, malloc and free over the kernel's byte memory, with the
    free list threaded through the block headers. */
module Malloc {
  import opened Words
  import opened Collections
  import opened Heap

  const NULL := 0
  const ENOMEM := 12

  /** `free_block_list_head` is a static structure of eight bytes outside the heap. */
  predicate GoodListHead(listHead: nat) {
    && 4 <= listHead && listHead + 8 <= TWO_32
    && (listHead + 8 <= HEAP_START || HEAP_END <= listHead)
  }

  /** The address the j-th `next` pointer of the list must hold. */
  function FreeAddress(h: Heap, j: nat): U32
    requires WellFormed(h) && j <= |h.free|
  {
    if j == |h.free| then NULL
    else
      BlockPlace(h, h.free[j]);
      Start(h.sizes, h.free[j])
  }

  /** The address of the j-th `next` pointer: what `head` points to after j steps. */
  function Cell(listHead: nat, h: Heap, j: nat): nat
    requires WellFormed(h) && j <= |h.free|
  {
    if j == 0 then listHead else Start(h.sizes, h.free[j - 1])
  }

  /** Memory m holds heap h: every header records its block's extent, and following the
      `next` pointers from the list head visits the free list in order and ends in NULL. */
  ghost predicate Holds(m: seq<Byte>, listHead: nat, h: Heap) {
    && |m| == TWO_32 && GoodListHead(listHead) && WellFormed(h)
    && (forall i :: 0 <= i < |h.sizes| ==> Header(m, h, i))
    && (forall j :: 0 <= j <= |h.free| ==> Link(m, listHead, h, j))
  }

  ghost predicate Header(m: seq<Byte>, h: Heap, i: nat)
    requires |m| == TWO_32 && WellFormed(h) && i < |h.sizes|
  {
    Start(h.sizes, i) + 8 <= TWO_32 && Word(m, Start(h.sizes, i) + 4) == h.sizes[i]
  }

  ghost predicate Link(m: seq<Byte>, listHead: nat, h: Heap, j: nat)
    requires |m| == TWO_32 && WellFormed(h) && j <= |h.free|
  {
    Cell(listHead, h, j) + 4 <= TWO_32 && Word(m, Cell(listHead, h, j)) == FreeAddress(h, j)
  }

  /** A byte a client may use: inside a live payload, or outside the heap altogether. */
  ghost predicate ClientByte(listHead: nat, h: Heap, a: nat) {
    && a < TWO_32
    && !(listHead <= a < listHead + 8)
    && (HEAP_START <= a < HEAP_END ==>
          exists i: nat :: Live(h, i) && Payload(h, i) <= a < Start(h.sizes, i) + h.sizes[i])
  }

  /** No client byte changes from m to m'. */
  ghost predicate Untouched(m: seq<Byte>, m': seq<Byte>, listHead: nat, h: Heap)
    requires |m| == |m'| == TWO_32
  {
    forall a :: 0 <= a < TWO_32 && ClientByte(listHead, h, a) ==> m'[a] == m[a]
  }

  // ------------------------------------------------------------ separation

  lemma {:induction false} BlockPlace(h: Heap, i: nat)
    requires WellFormed(h) && i < |h.sizes|
    ensures HEAP_START <= Start(h.sizes, i) && Start(h.sizes, i) + OVERHEAD <= Break(h) <= HEAP_END
  {
    BlocksApart(h, i, i);
    assert IsBlockSize(h.sizes[i]);
  }

  lemma {:induction false} HeadersApart(h: Heap, i: nat, j: nat)
    requires WellFormed(h) && i < |h.sizes| && j < |h.sizes| && i != j
    ensures Start(h.sizes, i) + OVERHEAD <= Start(h.sizes, j) || Start(h.sizes, j) + OVERHEAD <= Start(h.sizes, i)
  {
    BlocksApart(h, i, j);
    assert IsBlockSize(h.sizes[i]) && IsBlockSize(h.sizes[j]);
  }

  /** No header byte belongs to a client. */
  lemma {:induction false} HeaderNotClient(listHead: nat, h: Heap, j: nat, a: nat)
    requires WellFormed(h) && j < |h.sizes| && Start(h.sizes, j) <= a < Payload(h, j)
    ensures !ClientByte(listHead, h, a) && a < HEAP_END
  {
    BlockPlace(h, j);
    if ClientByte(listHead, h, a) {
      var i: nat :| Live(h, i) && Payload(h, i) <= a < Start(h.sizes, i) + h.sizes[i];
      PayloadsDisjoint(h, i, j, a);
    }
  }

  /** No byte of the heap past the break belongs to a client. */
  lemma {:induction false} UnusedNotClient(listHead: nat, h: Heap, a: nat)
    requires WellFormed(h) && Break(h) <= a < HEAP_END
    ensures !ClientByte(listHead, h, a)
  {
    if ClientByte(listHead, h, a) {
      var i: nat :| Live(h, i) && Payload(h, i) <= a < Start(h.sizes, i) + h.sizes[i];
      BlocksApart(h, i, i);
    }
  }

  /** The payload of a live block consists of client bytes. */
  lemma {:induction false} LiveIsClient(listHead: nat, h: Heap, i: nat, a: nat)
    requires WellFormed(h) && GoodListHead(listHead) && Live(h, i)
    requires Payload(h, i) <= a < Start(h.sizes, i) + h.sizes[i]
    ensures ClientByte(listHead, h, a)
  {
    BlocksApart(h, i, i);
  }

  lemma {:induction false} SameHeader(m: seq<Byte>, m': seq<Byte>, listHead: nat, h: Heap, i: nat, a: nat)
    requires |m| == |m'| == TWO_32 && WellFormed(h) && i < |h.sizes|
    requires forall a :: 0 <= a < TWO_32 && !ClientByte(listHead, h, a) ==> m'[a] == m[a]
    requires Start(h.sizes, i) <= a <= Start(h.sizes, i) + 12
    ensures a + 4 <= TWO_32 && Word(m', a) == Word(m, a)
  {
    HeaderNotClient(listHead, h, i, a);
    HeaderNotClient(listHead, h, i, a + 1);
    HeaderNotClient(listHead, h, i, a + 2);
    HeaderNotClient(listHead, h, i, a + 3);
  }

  /** Memories that agree wherever clients have no business hold the same heap. */
  lemma {:induction false} ClientWritesHarmless(m: seq<Byte>, m': seq<Byte>, listHead: nat, h: Heap)
    requires Holds(m, listHead, h) && |m'| == TWO_32
    requires forall a :: 0 <= a < TWO_32 && !ClientByte(listHead, h, a) ==> m'[a] == m[a]
    ensures Holds(m', listHead, h)
  {
    forall i | 0 <= i < |h.sizes|
      ensures Header(m', h, i)
    {
      assert Header(m, h, i);
      SameHeader(m, m', listHead, h, i, Start(h.sizes, i) + 4);
    }
    forall j | 0 <= j <= |h.free|
      ensures Link(m', listHead, h, j)
    {
      assert Link(m, listHead, h, j);
      if j > 0 {
        SameHeader(m, m', listHead, h, h.free[j - 1], Cell(listHead, h, j));
      }
    }
  }

  // ---------------------------------------------- the three list operations

  lemma {:induction false} UnlinkedAddresses(listHead: nat, h: Heap, k: nat, j: nat)
    requires WellFormed(h) && k < |h.free| && j < |h.free|
    ensures var h' := h.(free := Without(h.free, k));
      && WellFormed(h')
      && (j != k ==> var j0 := if j < k then j else j + 1;
                     Cell(listHead, h', j) == Cell(listHead, h, j0) && FreeAddress(h', j) == FreeAddress(h, j0))
      && (j == k ==> Cell(listHead, h', j) == Cell(listHead, h, k) && FreeAddress(h', j) == FreeAddress(h, k + 1))
  {
    WithoutKeepsDistinct(h.free, k);
  }

  /** A store through `head` leaves every header's size field alone. */
  lemma {:induction false} CellStoreKeepsHeaders(m: seq<Byte>, listHead: nat, h: Heap, k: nat, w: U32, i: nat)
    requires Holds(m, listHead, h) && k <= |h.free| && i < |h.sizes|
    ensures Cell(listHead, h, k) + 4 <= TWO_32
    ensures Header(PutWord(m, Cell(listHead, h, k), w), h, i)
  {
    assert Header(m, h, i) && Link(m, listHead, h, k);
    BlockPlace(h, i);
    if k > 0 {
      BlockPlace(h, h.free[k - 1]);
      if i != h.free[k - 1] { HeadersApart(h, i, h.free[k - 1]); }
    }
    WordElsewhere(m, Cell(listHead, h, k), w, Start(h.sizes, i) + 4);
  }

  /** `*head = block->next` takes block k off the list. */
  lemma {:induction false} Unlink(m: seq<Byte>, listHead: nat, h: Heap, k: nat)
    requires Holds(m, listHead, h) && k < |h.free|
    ensures Cell(listHead, h, k) + 4 <= TWO_32
    ensures var m' := PutWord(m, Cell(listHead, h, k), FreeAddress(h, k + 1));
      Holds(m', listHead, h.(free := Without(h.free, k))) && Untouched(m, m', listHead, h)
  {
    var h' := h.(free := Without(h.free, k));
    var w := FreeAddress(h, k + 1);
    CellStoreKeepsHeaders(m, listHead, h, k, w, h.free[k]);
    var m' := PutWord(m, Cell(listHead, h, k), w);
    UnlinkedAddresses(listHead, h, k, k);
    forall i | 0 <= i < |h'.sizes|
      ensures Header(m', h', i)
    {
      CellStoreKeepsHeaders(m, listHead, h, k, w, i);
    }
    forall j | 0 <= j <= |h'.free|
      ensures Link(m', listHead, h', j)
    {
      UnlinkKeepsLink(m, listHead, h, k, j);
    }
    CellStoreUntouched(m, listHead, h, k, w);
  }

  lemma {:induction false} UnlinkKeepsLink(m: seq<Byte>, listHead: nat, h: Heap, k: nat, j: nat)
    requires Holds(m, listHead, h) && k < |h.free| && j < |h.free|
    requires Cell(listHead, h, k) + 4 <= TWO_32
    ensures WellFormed(h.(free := Without(h.free, k)))
    ensures Link(PutWord(m, Cell(listHead, h, k), FreeAddress(h, k + 1)), listHead, h.(free := Without(h.free, k)), j)
  {
    var c := Cell(listHead, h, k);
    UnlinkedAddresses(listHead, h, k, j);
    if j == k {
      WordOfPutWord(m, c, FreeAddress(h, k + 1));
    } else {
      var j0 := if j < k then j else j + 1;
      assert Link(m, listHead, h, j0);
      CellsApart(listHead, h, k, j0);
      WordElsewhere(m, c, FreeAddress(h, k + 1), Cell(listHead, h, j0));
    }
  }

  lemma {:induction false} CellStoreUntouched(m: seq<Byte>, listHead: nat, h: Heap, k: nat, w: U32)
    requires Holds(m, listHead, h) && k <= |h.free| && Cell(listHead, h, k) + 4 <= TWO_32
    ensures Untouched(m, PutWord(m, Cell(listHead, h, k), w), listHead, h)
  {
    if k > 0 {
      forall a | Cell(listHead, h, k) <= a < Cell(listHead, h, k) + 4
        ensures !ClientByte(listHead, h, a)
      {
        HeaderNotClient(listHead, h, h.free[k - 1], a);
      }
    }
  }

  lemma {:induction false} CellsApart(listHead: nat, h: Heap, j: nat, k: nat)
    requires WellFormed(h) && GoodListHead(listHead) && j <= |h.free| && k <= |h.free| && j != k
    ensures Cell(listHead, h, j) + 4 <= Cell(listHead, h, k) || Cell(listHead, h, k) + 4 <= Cell(listHead, h, j)
  {
    if j > 0 { BlockPlace(h, h.free[j - 1]); }
    if k > 0 { BlockPlace(h, h.free[k - 1]); }
    if j > 0 && k > 0 {
      HeadersApart(h, h.free[j - 1], h.free[k - 1]);
    }
  }

  lemma {:induction false} ExtendUntouched(m: seq<Byte>, listHead: nat, h: Heap, n: U32)
    requires Holds(m, listHead, h) && IsBlockSize(n) && Break(h) + n <= HEAP_END
    ensures Untouched(m, PutWord(m, Break(h) + 4, n), listHead, h)
  {
    forall a | Break(h) <= a < Break(h) + OVERHEAD
      ensures !ClientByte(listHead, h, a)
    {
      UnusedNotClient(listHead, h, a);
    }
  }

  /** Starts and free addresses are the same in a heap with one block more. */
  lemma {:induction false} ExtendedPlaces(listHead: nat, h: Heap, n: U32)
    requires WellFormed(h) && IsBlockSize(n) && Break(h) + n <= HEAP_END
    ensures var h' := h.(sizes := h.sizes + [n]);
      && WellFormed(h')
      && (forall i :: 0 <= i <= |h.sizes| ==> Start(h'.sizes, i) == Start(h.sizes, i))
      && (forall j :: 0 <= j <= |h.free| ==> Cell(listHead, h', j) == Cell(listHead, h, j) && FreeAddress(h', j) == FreeAddress(h, j))
  {
    var h' := h.(sizes := h.sizes + [n]);
    forall i | 0 <= i <= |h.sizes|
      ensures Start(h'.sizes, i) == Start(h.sizes, i)
    {
      StartOfExtended(h.sizes, n, i);
    }
  }

  lemma {:induction false} ExtendKeepsHeader(m: seq<Byte>, listHead: nat, h: Heap, n: U32, i: nat)
    requires Holds(m, listHead, h) && Break(h) + 8 <= TWO_32 && i < |h.sizes|
    ensures Header(PutWord(m, Break(h) + 4, n), h, i)
  {
    assert Header(m, h, i);
    BlockPlace(h, i);
    WordElsewhere(m, Break(h) + 4, n, Start(h.sizes, i) + 4);
  }

  lemma {:induction false} ExtendKeepsLink(m: seq<Byte>, listHead: nat, h: Heap, n: U32, j: nat)
    requires Holds(m, listHead, h) && Break(h) + 8 <= HEAP_END && j <= |h.free|
    ensures Link(PutWord(m, Break(h) + 4, n), listHead, h, j)
  {
    assert Link(m, listHead, h, j);
    if j > 0 {
      BlockPlace(h, h.free[j - 1]);
    }
    WordElsewhere(m, Break(h) + 4, n, Cell(listHead, h, j));
  }

  /** `block->size = size` at the old break adds a live block of n bytes. */
  lemma {:induction false} Extend(m: seq<Byte>, listHead: nat, h: Heap, n: U32)
    requires Holds(m, listHead, h) && IsBlockSize(n) && Break(h) + n <= HEAP_END
    ensures Holds(PutWord(m, Break(h) + 4, n), listHead, h.(sizes := h.sizes + [n]))
    ensures Untouched(m, PutWord(m, Break(h) + 4, n), listHead, h)
  {
    ExtendUntouched(m, listHead, h, n);
    ExtendedPlaces(listHead, h, n);
    var h' := h.(sizes := h.sizes + [n]);
    var m' := PutWord(m, Break(h) + 4, n);
    forall i | 0 <= i < |h'.sizes|
      ensures Header(m', h', i)
    {
      if i == |h.sizes| {
        WordOfPutWord(m, Break(h) + 4, n);
      } else {
        ExtendKeepsHeader(m, listHead, h, n, i);
      }
    }
    forall j | 0 <= j <= |h'.free|
      ensures Link(m', listHead, h', j)
    {
      ExtendKeepsLink(m, listHead, h, n, j);
    }
  }

  /** The memory after the two stores of free. */
  function Pushed(m: seq<Byte>, listHead: nat, b: U32): seq<Byte>
    requires |m| == TWO_32 && listHead + 4 <= TWO_32 && b + 4 <= TWO_32
  {
    PutWord(PutWord(m, b, Word(m, listHead)), listHead, b)
  }

  /** A word away from both stores stays as it is. */
  lemma {:induction false} PushedElsewhere(m: seq<Byte>, listHead: nat, b: U32, a: nat)
    requires |m| == TWO_32 && listHead + 4 <= TWO_32 && b + 4 <= TWO_32 && a + 4 <= TWO_32
    requires (a + 4 <= b || b + 4 <= a) && (a + 4 <= listHead || listHead + 4 <= a)
    ensures Word(Pushed(m, listHead, b), a) == Word(m, a)
  {
    WordElsewhere(m, b, Word(m, listHead), a);
    WordElsewhere(PutWord(m, b, Word(m, listHead)), listHead, b, a);
  }

  lemma {:induction false} PushKeepsHeader(m: seq<Byte>, listHead: nat, h: Heap, i: nat, k: nat)
    requires Holds(m, listHead, h) && Live(h, i) && k < |h.sizes|
    ensures Start(h.sizes, i) + 4 <= TWO_32 && WellFormed(AfterFree(h, i))
    ensures Header(Pushed(m, listHead, Start(h.sizes, i)), AfterFree(h, i), k)
  {
    FreeSteps(h, i);
    assert Header(m, h, k);
    BlockPlace(h, i);
    BlockPlace(h, k);
    if k != i {
      HeadersApart(h, k, i);
    }
    PushedElsewhere(m, listHead, Start(h.sizes, i), Start(h.sizes, k) + 4);
  }

  lemma {:induction false} PushKeepsLink(m: seq<Byte>, listHead: nat, h: Heap, i: nat, j: nat)
    requires Holds(m, listHead, h) && Live(h, i) && 2 <= j <= |h.free| + 1
    ensures Start(h.sizes, i) + 4 <= TWO_32 && WellFormed(AfterFree(h, i))
    ensures Link(Pushed(m, listHead, Start(h.sizes, i)), listHead, AfterFree(h, i), j)
  {
    FreeSteps(h, i);
    assert Link(m, listHead, h, j - 1);
    var f := h.free[j - 2];
    BlockPlace(h, i);
    BlockPlace(h, f);
    HeadersApart(h, f, i);
    PushedElsewhere(m, listHead, Start(h.sizes, i), Start(h.sizes, f));
    assert FreeAddress(AfterFree(h, i), j) == FreeAddress(h, j - 1);
  }

  lemma {:induction false} PushLinks(m: seq<Byte>, listHead: nat, h: Heap, i: nat, j: nat)
    requires Holds(m, listHead, h) && Live(h, i) && j <= |h.free| + 1
    ensures Start(h.sizes, i) + 4 <= TWO_32 && WellFormed(AfterFree(h, i))
    ensures Link(Pushed(m, listHead, Start(h.sizes, i)), listHead, AfterFree(h, i), j)
  {
    var b := Start(h.sizes, i);
    FreeSteps(h, i);
    BlockPlace(h, i);
    var m1 := PutWord(m, b, Word(m, listHead));
    if j == 0 {
      WordOfPutWord(m1, listHead, b);
    } else if j == 1 {
      FirstLink(m, listHead, h);
      WordOfPutWord(m, b, Word(m, listHead));
      WordElsewhere(m1, listHead, b, b);
      assert FreeAddress(AfterFree(h, i), 1) == FreeAddress(h, 0);
    } else {
      PushKeepsLink(m, listHead, h, i, j);
    }
  }

  /** The two stores of free put block i at the front of the list. */
  lemma {:induction false} Push(m: seq<Byte>, listHead: nat, h: Heap, i: nat)
    requires Holds(m, listHead, h) && Live(h, i)
    ensures Start(h.sizes, i) + 4 <= TWO_32
    ensures Holds(Pushed(m, listHead, Start(h.sizes, i)), listHead, AfterFree(h, i))
    ensures Untouched(m, Pushed(m, listHead, Start(h.sizes, i)), listHead, h)
  {
    BlockPlace(h, i);
    FreeSteps(h, i);
    forall a | Start(h.sizes, i) <= a < Start(h.sizes, i) + 4
      ensures !ClientByte(listHead, h, a)
    {
      HeaderNotClient(listHead, h, i, a);
    }
    forall k | 0 <= k < |h.sizes|
      ensures Header(Pushed(m, listHead, Start(h.sizes, i)), AfterFree(h, i), k)
    {
      PushKeepsHeader(m, listHead, h, i, k);
    }
    forall j | 0 <= j <= |h.free| + 1
      ensures Link(Pushed(m, listHead, Start(h.sizes, i)), listHead, AfterFree(h, i), j)
    {
      PushLinks(m, listHead, h, i, j);
    }
  }

  // ------------------------------------------------------------- the break

  /** The test in sbrk keeps the break rising exactly when the 32-bit sum does not wrap. */
  lemma {:induction false} BreakRises(brk: U32, increment: U32)
    requires HEAP_START <= brk <= HEAP_END
    ensures Add32(brk, increment) > HEAP_END || Add32(brk, increment) >= brk <==> brk + increment < TWO_32
  {
  }

  /** Requests on which no 32-bit sum wraps. */
  predicate NoWrap(brk: U32, size: U32) {
    size + 31 < TWO_32 && brk + Rounded(size) < TWO_32
  }

  /** Requests that leave the heap in order: a free block fits, or the break can tell how far
      it is to rise. These are more than those above: a request near 2^32 may well be given a
      block, only not one of its size. */
  ghost predicate Sound(h: Heap, size: U32)
    requires WellFormed(h)
  {
    || FirstFit(h.sizes, h.free, Rounded(size)) < |h.free|
    || (Rounded(size) != 0 && Break(h) + Rounded(size) < TWO_32)
  }

  /** The least block that may be handed out for a request; every block has room for a header. */
  function BlockFor(size: U32): (n: U32)
    ensures IsBlockSize(n)
  {
    RoundedIsLeast(size, 0);
    if Rounded(size) == 0 then OVERHEAD else Rounded(size)
  }

  /** A free block fits a request exactly if it has the block's least size. */
  lemma {:induction false} BlockForFits(h: Heap, size: U32)
    requires WellFormed(h)
    ensures FirstFit(h.sizes, h.free, BlockFor(size)) == FirstFit(h.sizes, h.free, Rounded(size))
  {
    var k := FirstFit(h.sizes, h.free, Rounded(size));
    if k < |h.free| {
      assert IsBlockSize(h.sizes[h.free[k]]);
    }
    if Rounded(size) == 0 && |h.free| > 0 {
      assert IsBlockSize(h.sizes[h.free[0]]);
    }
    FirstFitIs(h, BlockFor(size), k);
  }

  /** Every store of malloc, for every request and in every heap: what memory and break are
      afterwards, and the result. */
  ghost predicate Stores(m: seq<Byte>, listHead: nat, h: Heap, size: U32, m': seq<Byte>, brk': U32, r: U32)
    requires |m| == TWO_32 && WellFormed(h)
  {
    var n, k := Rounded(size), FirstFit(h.sizes, h.free, Rounded(size));
    if k < |h.free| then
      && Cell(listHead, h, k) + 4 <= TWO_32 && m' == PutWord(m, Cell(listHead, h, k), FreeAddress(h, k + 1))
      && brk' == Break(h) && r == FreeAddress(h, k) + OVERHEAD
    else if Add32(Break(h), n) > HEAP_END then
      m' == m && brk' == Break(h) && r == NULL
    else
      m' == PutWord(m, Break(h) + 4, n) && brk' == Add32(Break(h), n) && r == Break(h) + OVERHEAD
  }

  /** The abstract step for a block of n bytes, and the pointer for its result. */
  ghost predicate HandedOut(h: Heap, n: nat, h': Heap, r: nat)
    requires WellFormed(h)
  {
    && h' == AfterMalloc(h, n).0
    && match AfterMalloc(h, n).1
       case None => r == NULL
       case Some(i) => i < |h'.sizes| && r == Payload(h', i)
  }

  /** What a caller of malloc gets: the heap of the abstract step, and a pointer to the
      block it handed out, aligned and with room for the request, or NULL. */
  ghost predicate Served(h: Heap, size: U32, h': Heap, r: U32)
    requires WellFormed(h)
  {
    && IsBlockSize(Rounded(size))
    && h' == AfterMalloc(h, Rounded(size)).0
    && match AfterMalloc(h, Rounded(size)).1
       case None => r == NULL
       case Some(i) =>
         && i < |h'.sizes| && r == Payload(h', i) && r % 16 == 0
         && r + size <= Start(h'.sizes, i) + h'.sizes[i] <= HEAP_END
  }

  lemma {:induction false} Walk(m: seq<Byte>, listHead: nat, h: Heap, k: nat)
    requires Holds(m, listHead, h) && k <= |h.free| && FreeAddress(h, k) != NULL
    ensures k < |h.free| && Cell(listHead, h, k) + 4 <= TWO_32
    ensures var block := FreeAddress(h, k);
      && HEAP_START <= block && block + OVERHEAD <= HEAP_END && block == Cell(listHead, h, k + 1)
      && Word(m, block + 4) == h.sizes[h.free[k]]
      && Word(m, block) == FreeAddress(h, k + 1)
  {
    BlockPlace(h, h.free[k]);
    assert Header(m, h, h.free[k]) && Link(m, listHead, h, k) && Link(m, listHead, h, k + 1);
  }

  lemma {:induction false} FirstLink(m: seq<Byte>, listHead: nat, h: Heap)
    requires Holds(m, listHead, h)
    ensures Word(m, listHead) == FreeAddress(h, 0)
  {
    assert Link(m, listHead, h, 0);
  }

  lemma {:induction false} EndOfList(h: Heap, k: nat)
    requires WellFormed(h) && k <= |h.free| && FreeAddress(h, k) == NULL
    ensures k == |h.free|
  {
  }

  lemma {:induction false} FirstFitIs(h: Heap, n: nat, k: nat)
    requires WellFormed(h) && k <= |h.free|
    requires forall j :: 0 <= j < k ==> h.sizes[h.free[j]] < n
    requires k < |h.free| ==> h.sizes[h.free[k]] >= n
    ensures FirstFit(h.sizes, h.free, n) == k
  {
  }

  /** The outcome of malloc(size): memory m, heap h and break brk become m', h' and brk'. The
      stores are known in every case. For a sound request the new memory holds the heap of the
      abstract step, and client bytes are unchanged. When no sum wraps the caller is served.
      malloc keeps its promise of `size` bytes exactly then, apart from the requests within
      15 bytes of 2^32 that an exhausted heap refuses. */
  ghost predicate Outcome(m: seq<Byte>, listHead: nat, h: Heap, size: U32, m': seq<Byte>, h': Heap, brk': U32, r: U32)
    requires |m| == TWO_32 && WellFormed(h)
  {
    && |m'| == TWO_32 && Stores(m, listHead, h, size, m', brk', r)
    && (Sound(h, size) ==>
          && Holds(m', listHead, h') && brk' == Break(h')
          && HandedOut(h, BlockFor(size), h', r)
          && Untouched(m, m', listHead, h))
    && (NoWrap(Break(h), size) ==> Sound(h, size) && Served(h, size, h', r))
    && ((r != NULL ==> r + size <= HEAP_END) <==>
        NoWrap(Break(h), size) || (size + 15 >= TWO_32 && h.free == [] && Break(h) == HEAP_END))
  }

  /** The other requests, exactly, are those for which malloc returns a pointer past the break. */
  lemma {:induction false} UnsoundIsPastBreak(m: seq<Byte>, listHead: nat, h: Heap, size: U32, m': seq<Byte>, brk': U32, r: U32)
    requires |m| == TWO_32 && WellFormed(h) && Stores(m, listHead, h, size, m', brk', r)
    ensures Sound(h, size) <==> r <= brk'
  {
    var k := FirstFit(h.sizes, h.free, Rounded(size));
    RoundedIsLeast(size, 0);
    if k < |h.free| {
      BlocksApart(h, h.free[k], h.free[k]);
      assert IsBlockSize(h.sizes[h.free[k]]);
    }
  }

  /** The promise is broken for the very first request, if it is for all but 16 bytes of the
      address space: malloc returns a pointer to the start of an empty heap. */
  lemma {:induction false} PromiseBroken(m: seq<Byte>, listHead: nat, m': seq<Byte>, h': Heap, brk': U32, r: U32)
    requires |m| == TWO_32 && WellFormed(EMPTY) && Outcome(m, listHead, EMPTY, 0xFFFF_FFF0, m', h', brk', r)
    ensures r == HEAP_START + OVERHEAD && brk' == HEAP_START && r + 0xFFFF_FFF0 > HEAP_END
  {
  }

  lemma {:induction false} TakenHandedOut(h: Heap, k: nat, size: U32)
    requires WellFormed(h) && k < |h.free| && h.sizes[h.free[k]] >= Rounded(size)
    requires forall j :: 0 <= j < k ==> h.sizes[h.free[j]] < Rounded(size)
    ensures HandedOut(h, BlockFor(size), h.(free := Without(h.free, k)), FreeAddress(h, k) + OVERHEAD)
    ensures FirstFit(h.sizes, h.free, Rounded(size)) == k
  {
    FirstFitIs(h, Rounded(size), k);
    BlockForFits(h, size);
    BlockPlace(h, h.free[k]);
  }

  lemma {:induction false} Taken(m: seq<Byte>, listHead: nat, h: Heap, k: nat, size: U32)
    requires Holds(m, listHead, h) && k < |h.free| && h.sizes[h.free[k]] >= Rounded(size)
    requires forall j :: 0 <= j < k ==> h.sizes[h.free[j]] < Rounded(size)
    ensures Cell(listHead, h, k) + 4 <= TWO_32 && FreeAddress(h, k) + OVERHEAD <= HEAP_END
    ensures Outcome(m, listHead, h, size,
                    PutWord(m, Cell(listHead, h, k), FreeAddress(h, k + 1)), h.(free := Without(h.free, k)), Break(h),
                    FreeAddress(h, k) + OVERHEAD)
  {
    Unlink(m, listHead, h, k);
    TakenHandedOut(h, k, size);
    TakenServed(h, k, size);
  }

  lemma {:induction false} TakenServed(h: Heap, k: nat, size: U32)
    requires WellFormed(h) && k < |h.free| && h.sizes[h.free[k]] >= Rounded(size)
    requires forall j :: 0 <= j < k ==> h.sizes[h.free[j]] < Rounded(size)
    ensures HEAP_START + OVERHEAD <= FreeAddress(h, k) + OVERHEAD <= HEAP_END
    ensures NoWrap(Break(h), size) ==> Served(h, size, h.(free := Without(h.free, k)), FreeAddress(h, k) + OVERHEAD)
    ensures FreeAddress(h, k) + OVERHEAD + size <= HEAP_END <==> NoWrap(Break(h), size)
  {
    var i := h.free[k];
    FirstFitIs(h, Rounded(size), k);
    BlockPlace(h, i);
    BlocksApart(h, i, i);
    RoundedIsLeast(size, 0);
  }

  lemma {:induction false} NoneFits(h: Heap, size: U32)
    requires WellFormed(h) && size + 31 >= TWO_32
    requires forall j :: 0 <= j < |h.free| ==> h.sizes[h.free[j]] < Rounded(size)
    ensures h.free == []
  {
    assert h.free != [] ==> IsBlockSize(h.sizes[h.free[0]]);
  }

  lemma {:induction false} NoneFitsServed(h: Heap, size: U32)
    requires WellFormed(h) && NoWrap(Break(h), size)
    requires forall j :: 0 <= j < |h.free| ==> h.sizes[h.free[j]] < Rounded(size)
    ensures var n := Rounded(size);
      if Break(h) + n > HEAP_END then Served(h, size, h, NULL)
      else Served(h, size, h.(sizes := h.sizes + [n]), Break(h) + OVERHEAD)
  {
    FirstFitIs(h, Rounded(size), |h.free|);
    RoundedIsLeast(size, 0);
    StartsAligned(h.sizes, |h.sizes|);
    StartOfExtended(h.sizes, Rounded(size), |h.sizes|);
  }

  /** Which requests sbrk's wrapping test lets through although memory is short. */
  lemma {:induction false} ShortOfMemory(brk: U32, size: U32)
    requires HEAP_START <= brk <= HEAP_END && brk % 16 == 0
    ensures Add32(brk, Rounded(size)) <= HEAP_END ==> (brk + OVERHEAD + size <= HEAP_END <==> NoWrap(brk, size))
    ensures Add32(brk, Rounded(size)) > HEAP_END && !NoWrap(brk, size) <==> size + 15 >= TWO_32 && brk == HEAP_END
  {
    RoundedIsLeast(size, 0);
  }

  lemma {:induction false} NoneFitsHandedOut(h: Heap, size: U32)
    requires WellFormed(h)
    requires forall j :: 0 <= j < |h.free| ==> h.sizes[h.free[j]] < Rounded(size)
    ensures FirstFit(h.sizes, h.free, Rounded(size)) == |h.free|
    ensures Sound(h, size) ==>
      var n := Rounded(size);
      && IsBlockSize(n) && n == BlockFor(size)
      && if Break(h) + n > HEAP_END then HandedOut(h, n, h, NULL)
         else HandedOut(h, n, h.(sizes := h.sizes + [n]), Break(h) + OVERHEAD)
  {
    FirstFitIs(h, Rounded(size), |h.free|);
    RoundedIsLeast(size, 0);
    if Sound(h, size) {
      StartOfExtended(h.sizes, Rounded(size), |h.sizes|);
    }
  }

  lemma {:induction false} RefusedPromise(h: Heap, size: U32)
    requires WellFormed(h) && Add32(Break(h), Rounded(size)) > HEAP_END
    requires forall j :: 0 <= j < |h.free| ==> h.sizes[h.free[j]] < Rounded(size)
    ensures NoWrap(Break(h), size) || (size + 15 >= TWO_32 && h.free == [] && Break(h) == HEAP_END)
    ensures Sound(h, size) ==> Break(h) + Rounded(size) > HEAP_END
  {
    NoneFitsHandedOut(h, size);
    StartsAligned(h.sizes, |h.sizes|);
    ShortOfMemory(Break(h), size);
    if size + 31 >= TWO_32 {
      NoneFits(h, size);
    }
  }

  lemma {:induction false} Refused(m: seq<Byte>, listHead: nat, h: Heap, size: U32)
    requires Holds(m, listHead, h)
    requires forall j :: 0 <= j < |h.free| ==> h.sizes[h.free[j]] < Rounded(size)
    requires Add32(Break(h), Rounded(size)) > HEAP_END
    ensures Outcome(m, listHead, h, size, m, h, Break(h), NULL)
  {
    RefusedPromise(h, size);
    NoneFitsHandedOut(h, size);
    if NoWrap(Break(h), size) {
      NoneFitsServed(h, size);
    }
  }

  /** The heap once malloc has raised the break; with a wrapping sum it stands for nothing. */
  ghost function Grown(h: Heap, size: U32): Heap
    requires WellFormed(h)
  {
    if Sound(h, size) then h.(sizes := h.sizes + [Rounded(size)]) else h
  }

  lemma {:induction false} CarvedPromise(h: Heap, size: U32)
    requires WellFormed(h) && Add32(Break(h), Rounded(size)) <= HEAP_END
    requires forall j :: 0 <= j < |h.free| ==> h.sizes[h.free[j]] < Rounded(size)
    ensures Break(h) + OVERHEAD + size <= HEAP_END <==>
            NoWrap(Break(h), size) || (size + 15 >= TWO_32 && h.free == [] && Break(h) == HEAP_END)
    ensures Sound(h, size) ==> Break(h) + Rounded(size) <= HEAP_END
  {
    NoneFitsHandedOut(h, size);
    StartsAligned(h.sizes, |h.sizes|);
    ShortOfMemory(Break(h), size);
  }

  lemma {:induction false} Carved(m: seq<Byte>, listHead: nat, h: Heap, size: U32)
    requires Holds(m, listHead, h)
    requires forall j :: 0 <= j < |h.free| ==> h.sizes[h.free[j]] < Rounded(size)
    requires Add32(Break(h), Rounded(size)) <= HEAP_END
    ensures Outcome(m, listHead, h, size,
                    PutWord(m, Break(h) + 4, Rounded(size)), Grown(h, size), Add32(Break(h), Rounded(size)),
                    Break(h) + OVERHEAD)
  {
    CarvedPromise(h, size);
    NoneFitsHandedOut(h, size);
    if NoWrap(Break(h), size) {
      NoneFitsServed(h, size);
    }
    if Sound(h, size) {
      CarvedSafely(m, listHead, h, size);
    }
  }

  lemma {:induction false} CarvedSafely(m: seq<Byte>, listHead: nat, h: Heap, size: U32)
    requires Holds(m, listHead, h) && IsBlockSize(Rounded(size)) && Break(h) + Rounded(size) < TWO_32
    requires Add32(Break(h), Rounded(size)) <= HEAP_END
    ensures var m', h' := PutWord(m, Break(h) + 4, Rounded(size)), h.(sizes := h.sizes + [Rounded(size)]);
      Holds(m', listHead, h') && Untouched(m, m', listHead, h)
      && Break(h') == Break(h) + Rounded(size) == Add32(Break(h), Rounded(size))
  {
    Extend(m, listHead, h, Rounded(size));
    StartOfExtended(h.sizes, Rounded(size), |h.sizes|);
  }

  class Allocator {
    const mem: array<Byte>
    const listHead: nat
    var brk: U32          // current_heap_address
    var errno: int
    ghost var heap: Heap

    ghost predicate Valid()
      reads this, mem
    {
      && mem.Length == TWO_32
      && Holds(mem[..], listHead, heap)
      && brk == Break(heap)
    }

    /** The static initial state: an empty list and a break at HEAP_START. */
    constructor (mem: array<Byte>, listHead: nat)
      requires mem.Length == TWO_32 && GoodListHead(listHead)
      requires Word(mem[..], listHead) == NULL
      ensures Valid() && heap == EMPTY && this.mem == mem && this.listHead == listHead
    {
      this.mem := mem;
      this.listHead := listHead;
      brk := HEAP_START;
      errno := 0;
      heap := EMPTY;
    }

    method StoreWord(a: nat, w: U32)
      requires a + 4 <= mem.Length
      modifies mem
      ensures mem[..] == PutWord(old(mem[..]), a, w)
    {
      mem[a] := w % 0x100;
      mem[a + 1] := w / 0x100 % 0x100;
      mem[a + 2] := w / 0x1_0000 % 0x100;
      mem[a + 3] := w / 0x100_0000;
    }

    method Sbrk(increment: U32) returns (ptr: U32)
      modifies this`brk, this`errno
      ensures Add32(old(brk), increment) > HEAP_END ==> ptr == NULL && brk == old(brk) && errno == ENOMEM
      ensures Add32(old(brk), increment) <= HEAP_END ==>
                ptr == old(brk) && brk == Add32(old(brk), increment) && errno == old(errno)
    {
      if Add32(brk, increment) > HEAP_END {
        errno := ENOMEM;
        return NULL;
      }
      ptr := brk;
      brk := Add32(brk, increment);
    }

    static method BlockSize(size: U32) returns (n: U32)
      ensures n == Rounded(size)
    {
      AlignIsRounding(size);
      n := Align16(Add32(size, OVERHEAD));
    }

    method Malloc(size: U32) returns (r: U32)
      requires Valid()
      modifies this, mem
      ensures Outcome(old(mem[..]), listHead, old(heap), size, mem[..], heap, brk, r)
      ensures errno == if r == NULL then ENOMEM else old(errno)
    {
      var n := BlockSize(size);
      var block, head;
      ghost var k;
      block, head, k := Search(n);
      if block != NULL {
        r := Take(block, head, k, size);
      } else {
        r := Carve(n, size);
      }
    }

    /** The loop of malloc, up to the block that is large enough or the end of the list. */
    method Search(n: U32) returns (block: U32, head: nat, ghost k: nat)
      requires Valid()
      ensures k <= |heap.free| && forall j :: 0 <= j < k ==> heap.sizes[heap.free[j]] < n
      ensures if block == NULL then k == |heap.free| else k < |heap.free| && heap.sizes[heap.free[k]] >= n
      ensures block == FreeAddress(heap, k) && head == Cell(listHead, heap, k)
    {
      FirstLink(mem[..], listHead, heap);
      block, head, k := Word(mem[..], listHead), listHead, 0;
      while block != NULL
        invariant k <= |heap.free| && block == FreeAddress(heap, k) && head == Cell(listHead, heap, k)
        invariant forall j :: 0 <= j < k ==> heap.sizes[heap.free[j]] < n
        decreases |heap.free| - k
      {
        Walk(mem[..], listHead, heap, k);
        if Word(mem[..], block + 4) >= n {
          return;
        }
        head := block;
        block := Word(mem[..], block);
        k := k + 1;
      }
      EndOfList(heap, k);
    }

    /** The block found: remove it from the list and return its payload. */
    method Take(block: U32, head: nat, ghost k: nat, ghost size: U32) returns (r: U32)
      requires Valid() && k < |heap.free| && heap.sizes[heap.free[k]] >= Rounded(size)
      requires forall j :: 0 <= j < k ==> heap.sizes[heap.free[j]] < Rounded(size)
      requires block == FreeAddress(heap, k) != NULL && head == Cell(listHead, heap, k)
      modifies this`heap, mem
      ensures Outcome(old(mem[..]), listHead, old(heap), size, mem[..], heap, brk, r) && r != NULL
    {
      Walk(mem[..], listHead, heap, k);
      Taken(mem[..], listHead, heap, k, size);
      StoreWord(head, Word(mem[..], block));
      heap := heap.(free := Without(heap.free, k));
      return block + OVERHEAD;
    }

    /** The rest of malloc, once no free block fits. */
    method Carve(n: U32, ghost size: U32) returns (r: U32)
      requires Valid() && n == Rounded(size)
      requires forall j :: 0 <= j < |heap.free| ==> heap.sizes[heap.free[j]] < n
      modifies this, mem
      ensures Outcome(old(mem[..]), listHead, old(heap), size, mem[..], heap, brk, r)
      ensures errno == if r == NULL then ENOMEM else old(errno)
    {
      var block := Sbrk(n);
      if block == NULL {
        Refused(mem[..], listHead, heap, size);
        errno := ENOMEM;
        return NULL;
      }
      Carved(mem[..], listHead, heap, size);
      StoreWord(block + 4, n);
      heap := Grown(heap, size);
      return block + OVERHEAD;
    }

    method Free(ptr: U32, ghost i: nat)
      requires Valid() && Live(heap, i) && ptr == Payload(heap, i)
      modifies this`heap, mem
      ensures Valid() && heap == AfterFree(old(heap), i)
      ensures Untouched(old(mem[..]), mem[..], listHead, old(heap))
    {
      BlockPlace(heap, i);
      Push(mem[..], listHead, heap, i);
      var block := ptr - OVERHEAD;
      StoreWord(block, Word(mem[..], listHead));
      StoreWord(listHead, block);
      heap := AfterFree(heap, i);
    }

    /** A client stores a byte where clients may. */
    method ClientStore(a: nat, b: Byte)
      requires Valid() && ClientByte(listHead, heap, a)
      modifies mem
      ensures Valid() && mem[..] == old(mem[..])[a := b]
    {
      ClientWritesHarmless(mem[..], mem[..][a := b], listHead, heap);
      mem[a] := b;
    }
  }
}

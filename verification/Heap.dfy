/** The heap as a history of blocks: what malloc and free mean, apart from the memory
    the free list is threaded through. Blocks are carved off the break in order, are
    never split and never merged; a free block is named by its index. */
module Heap {
  import opened Words
  import opened Collections

  const HEAP_START := 0x500_0000
  const HEAP_SIZE := 0x100_0000
  const HEAP_END := HEAP_START + HEAP_SIZE
  const OVERHEAD := 16

  /** sizes: the extents of all blocks ever carved off, lowest address first;
      free: the free list, head first. */
  datatype Heap = Heap(sizes: seq<nat>, free: seq<nat>)

  const EMPTY := Heap([], [])

  function Start(sizes: seq<nat>, i: nat): (a: nat)
    requires i <= |sizes|
    ensures a >= HEAP_START
  {
    if i == 0 then HEAP_START else Start(sizes, i - 1) + sizes[i - 1]
  }

  function Break(h: Heap): nat {
    Start(h.sizes, |h.sizes|)
  }

  /** What malloc returns for block i: the first byte past its header. */
  function Payload(h: Heap, i: nat): nat
    requires i < |h.sizes|
  {
    Start(h.sizes, i) + OVERHEAD
  }

  predicate IsBlockSize(n: nat) {
    n >= OVERHEAD && n % 16 == 0
  }

  ghost predicate Distinct(s: seq<nat>) {
    forall j, k :: 0 <= j < k < |s| ==> s[j] != s[k]
  }

  ghost predicate WellFormed(h: Heap) {
    && (forall i :: 0 <= i < |h.sizes| ==> IsBlockSize(h.sizes[i]))
    && (forall j :: 0 <= j < |h.free| ==> h.free[j] < |h.sizes|)
    && Distinct(h.free)
    && Break(h) <= HEAP_END
  }

  predicate Live(h: Heap, i: nat) {
    i < |h.sizes| && i !in h.free
  }

  // ---------------------------------------------------------------- requests

  /** The bit mask of `ALIGN_16`, in unsigned 32-bit arithmetic. */
  function Align16(val: U32): U32 {
    AndMinus16(Add32(val, 15));
    BitAnd(Add32(val, 15), 0xFFFF_FFF0)
  }

  /** The block size for a request: `size + overhead` rounded up to a multiple of 16,
      as far as 32 bits reach. */
  function Rounded(size: U32): U32 {
    if size + 31 < TWO_32 then (size + 31) / 16 * 16
    else if size + 15 < TWO_32 then 0
    else 16
  }

  lemma {:induction false} PaddedRoundedDown(size: U32, v: nat)
    requires v == Add32(Add32(size, OVERHEAD), 15)
    ensures v - v % 16 == Rounded(size)
  {
    assert v == if size + 31 < TWO_32 then size + 31 else size + 31 - TWO_32;
  }

  /** The mask computes the block size. */
  lemma {:induction false} AlignIsRounding(size: U32)
    ensures Align16(Add32(size, OVERHEAD)) == Rounded(size)
  {
    var v := Add32(Add32(size, OVERHEAD), 15);
    AndMinus16(v);
    PaddedRoundedDown(size, v);
  }

  /** As long as nothing wraps, the block size is the least multiple of 16 that leaves room
      for the header; and it leaves room for the request exactly when nothing wraps. */
  lemma {:induction false} RoundedIsLeast(size: U32, n: nat)
    ensures Rounded(size) % 16 == 0
    ensures size + 31 < TWO_32 && n % 16 == 0 && n >= size + OVERHEAD ==> size + OVERHEAD <= Rounded(size) <= n
    ensures Rounded(size) >= size + OVERHEAD <==> size + 31 < TWO_32
  {
  }

  // ------------------------------------------------------------- first fit

  /** Position on the free list of the first block of at least n bytes, or its length. */
  function FirstFit(sizes: seq<nat>, free: seq<nat>, n: nat): (k: nat)
    requires forall j :: 0 <= j < |free| ==> free[j] < |sizes|
    ensures k <= |free|
    ensures forall j :: 0 <= j < k ==> sizes[free[j]] < n
    ensures k < |free| ==> sizes[free[k]] >= n
  {
    if free == [] || sizes[free[0]] >= n then 0 else 1 + FirstFit(sizes, free[1..], n)
  }

  function Without(s: seq<nat>, k: nat): seq<nat>
    requires k < |s|
  {
    s[..k] + s[k + 1..]
  }

  /** malloc for a block of n bytes: the heap after, and the block handed out. */
  function AfterMalloc(h: Heap, n: nat): (Heap, Option<nat>)
    requires WellFormed(h)
  {
    var k := FirstFit(h.sizes, h.free, n);
    if k < |h.free| then (h.(free := Without(h.free, k)), Some(h.free[k]))
    else if Break(h) + n > HEAP_END then (h, None)
    else (h.(sizes := h.sizes + [n]), Some(|h.sizes|))
  }

  function AfterFree(h: Heap, i: nat): Heap {
    h.(free := [i] + h.free)
  }

  // ------------------------------------------------------------- layout

  lemma {:induction false} StartOfExtended(sizes: seq<nat>, n: nat, i: nat)
    requires i <= |sizes|
    ensures Start(sizes + [n], i) == Start(sizes, i)
  {
    if i == 0 {
    } else {
      StartOfExtended(sizes, n, i - 1);
    }
  }

  lemma {:induction false} StartsAscend(sizes: seq<nat>, i: nat, j: nat)
    requires i < j <= |sizes|
    ensures Start(sizes, i) + sizes[i] <= Start(sizes, j)
  {
    if i == j - 1 {
    } else {
      StartsAscend(sizes, i, j - 1);
    }
  }

  lemma {:induction false} StartsAligned(sizes: seq<nat>, i: nat)
    requires i <= |sizes|
    requires forall k :: 0 <= k < |sizes| ==> IsBlockSize(sizes[k])
    ensures Start(sizes, i) % 16 == 0
  {
    if i == 0 {
    } else {
      StartsAligned(sizes, i - 1);
    }
  }

  /** Two blocks are at least a header apart, and both end below the break. */
  lemma {:induction false} BlocksApart(h: Heap, i: nat, j: nat)
    requires WellFormed(h) && i < |h.sizes| && j < |h.sizes|
    ensures Start(h.sizes, i) % 16 == 0
    ensures HEAP_START <= Start(h.sizes, i) && Start(h.sizes, i) + h.sizes[i] <= Break(h)
    ensures i < j ==> Start(h.sizes, i) + h.sizes[i] <= Start(h.sizes, j)
    ensures j < i ==> Start(h.sizes, j) + h.sizes[j] <= Start(h.sizes, i)
  {
    StartsAligned(h.sizes, i);
    StartsAscend(h.sizes, i, |h.sizes|);
    if i < j {
      StartsAscend(h.sizes, i, j);
    } else if j < i {
      StartsAscend(h.sizes, j, i);
    }
  }

  /** The blocks tile the heap: every address from HEAP_START up to the break belongs to
      exactly one block. */
  lemma {:induction false} BlocksTile(h: Heap, a: nat) returns (i: nat)
    requires WellFormed(h) && HEAP_START <= a < Break(h)
    ensures i < |h.sizes| && Start(h.sizes, i) <= a < Start(h.sizes, i) + h.sizes[i]
    ensures forall j :: 0 <= j < |h.sizes| && Start(h.sizes, j) <= a < Start(h.sizes, j) + h.sizes[j] ==> j == i
  {
    i := |h.sizes| - 1;
    while a < Start(h.sizes, i)
      invariant i < |h.sizes| && a < Start(h.sizes, i + 1)
    {
      i := i - 1;
    }
    forall j | 0 <= j < |h.sizes| && Start(h.sizes, j) <= a < Start(h.sizes, j) + h.sizes[j]
      ensures j == i
    {
      BlocksApart(h, i, j);
    }
  }

  /** Live payloads are 16-byte aligned, lie inside the heap, and are disjoint from each
      other and from the header of every block, free or live. */
  lemma {:induction false} PayloadsDisjoint(h: Heap, i: nat, j: nat, a: nat)
    requires WellFormed(h) && i < |h.sizes| && j < |h.sizes|
    requires Payload(h, i) <= a < Start(h.sizes, i) + h.sizes[i]
    ensures Payload(h, i) % 16 == 0 && HEAP_START + OVERHEAD <= a < HEAP_END
    ensures !(Start(h.sizes, j) <= a < Payload(h, j))
    ensures i != j ==> !(Payload(h, j) <= a < Start(h.sizes, j) + h.sizes[j])
  {
    assert IsBlockSize(h.sizes[j]);
    BlocksApart(h, i, j);
  }

  // --------------------------------------------------- steps keep the shape

  lemma {:induction false} WithoutKeepsDistinct(s: seq<nat>, k: nat)
    requires k < |s| && Distinct(s)
    ensures Distinct(Without(s, k))
    ensures s[k] !in Without(s, k)
    ensures forall x :: x in s ==> x == s[k] || x in Without(s, k)
    ensures forall x :: x in Without(s, k) ==> x in s
  {
    var w := Without(s, k);
    assert forall j :: 0 <= j < |w| ==> w[j] == s[if j < k then j else j + 1];
    forall x | x in s && x != s[k]
      ensures x in w
    {
      var j :| 0 <= j < |s| && s[j] == x;
      assert w[if j < k then j else j - 1] == x;
    }
  }

  /** malloc keeps the heap well formed, returns a block that was not live and is live
      now, big enough for n, and changes the status of no other block. */
  lemma {:induction false} MallocSteps(h: Heap, n: nat)
    requires WellFormed(h) && IsBlockSize(n)
    ensures var (h', r) := AfterMalloc(h, n);
      && WellFormed(h')
      && (r == None ==> h' == h && Break(h) + n > HEAP_END && forall i <- h.free :: h.sizes[i] < n)
      && (r.Some? ==>
            && !Live(h, r.value) && Live(h', r.value) && h'.sizes[r.value] >= n
            && (forall i :: i != r.value ==> (Live(h', i) <==> Live(h, i)))
            && (forall i :: 0 <= i < |h.sizes| ==>
                  h'.sizes[i] == h.sizes[i] && Start(h'.sizes, i) == Start(h.sizes, i)))
  {
    var (h', r) := AfterMalloc(h, n);
    var k := FirstFit(h.sizes, h.free, n);
    if k < |h.free| {
      WithoutKeepsDistinct(h.free, k);
    } else if r.Some? {
      forall i | 0 <= i <= |h.sizes|
        ensures Start(h'.sizes, i) == Start(h.sizes, i)
      {
        StartOfExtended(h.sizes, n, i);
      }
    }
  }

  /** malloc takes the first free block that is large enough out of the list and leaves the
      others in their order, or it carves a new block off, behind all others. */
  lemma {:induction false} MallocTakesFirst(h: Heap, n: nat, k: nat)
    requires WellFormed(h) && k <= |h.free|
    requires forall j :: 0 <= j < k ==> h.sizes[h.free[j]] < n
    requires k < |h.free| ==> h.sizes[h.free[k]] >= n
    ensures AfterMalloc(h, n) ==
            if k < |h.free| then (Heap(h.sizes, h.free[..k] + h.free[k + 1..]), Some(h.free[k]))
            else if Break(h) + n > 0x600_0000 then (h, None)
            else (Heap(h.sizes + [n], h.free), Some(|h.sizes|))
  {
  }

  lemma {:induction false} FreeSteps(h: Heap, i: nat)
    requires WellFormed(h) && Live(h, i)
    ensures WellFormed(AfterFree(h, i))
    ensures forall j :: Live(AfterFree(h, i), j) <==> j != i && Live(h, j)
  {
  }

  // ----------------------------------------------------------- histories

  datatype Call = Alloc(n: nat) | Release(block: nat)

  ghost predicate Allowed(h: Heap, c: Call) {
    match c
    case Alloc(n) => IsBlockSize(n)
    case Release(i) => Live(h, i)
  }

  function Step(h: Heap, c: Call): Heap
    requires WellFormed(h)
  {
    match c
    case Alloc(n) => AfterMalloc(h, n).0
    case Release(i) => AfterFree(h, i)
  }

  lemma {:induction false} StepKeepsWellFormed(h: Heap, c: Call)
    requires WellFormed(h) && Allowed(h, c)
    ensures WellFormed(Step(h, c))
    ensures |Step(h, c).sizes| >= |h.sizes|
  {
    if c.Alloc? {
      MallocSteps(h, c.n);
    } else {
      FreeSteps(h, c.block);
    }
  }

  /** A history whose releases name live blocks only. */
  ghost predicate Legal(h: Heap, calls: seq<Call>)
    requires WellFormed(h)
    decreases |calls|
  {
    calls == [] ||
    (Allowed(h, calls[0]) &&
     (StepKeepsWellFormed(h, calls[0]); Legal(Step(h, calls[0]), calls[1..])))
  }

  ghost function Run(h: Heap, calls: seq<Call>): (h': Heap)
    requires WellFormed(h) && Legal(h, calls)
    ensures WellFormed(h')
    decreases |calls|
  {
    if calls == [] then h
    else
      StepKeepsWellFormed(h, calls[0]);
      Run(Step(h, calls[0]), calls[1..])
  }

  function LiveCount(h: Heap): int {
    |h.sizes| - |h.free|
  }

  /** The largest number of blocks live at once anywhere in the history. */
  ghost function Peak(h: Heap, calls: seq<Call>): int
    requires WellFormed(h) && Legal(h, calls)
    decreases |calls|
  {
    if calls == [] then LiveCount(h)
    else
      StepKeepsWellFormed(h, calls[0]);
      var rest := Peak(Step(h, calls[0]), calls[1..]);
      if rest > LiveCount(h) then rest else LiveCount(h)
  }

  predicate Uniform(h: Heap, r: nat) {
    forall i :: 0 <= i < |h.sizes| ==> h.sizes[i] == r
  }

  lemma {:induction false} UniformBreak(sizes: seq<nat>, r: nat, i: nat)
    requires i <= |sizes| && forall k :: 0 <= k < |sizes| ==> sizes[k] == r
    ensures Start(sizes, i) == HEAP_START + i * r
  {
    if i == 0 {
    } else {
      UniformBreak(sizes, r, i - 1);
      assert i * r == (i - 1) * r + r;
    }
  }

  lemma {:induction false} UniformRun(h: Heap, calls: seq<Call>, r: nat)
    requires WellFormed(h) && Legal(h, calls) && Uniform(h, r)
    requires forall c <- calls :: c.Alloc? ==> c.n == r
    ensures Uniform(Run(h, calls), r)
    ensures var p := Peak(h, calls);
      |Run(h, calls).sizes| == if p > |h.sizes| then p else |h.sizes|
    decreases |calls|
  {
    if calls == [] {
    } else {
      StepKeepsWellFormed(h, calls[0]);
      UniformRun(Step(h, calls[0]), calls[1..], r);
    }
  }

  /** In any history whose requests all round to one size, the heap grows to exactly that
      size times the largest number of blocks ever live at once. */
  lemma {:induction false} HeapGrowth(calls: seq<Call>, r: nat)
    requires Legal(EMPTY, calls)
    requires forall c <- calls :: c.Alloc? ==> c.n == r
    ensures Break(Run(EMPTY, calls)) - HEAP_START == r * Peak(EMPTY, calls)
  {
    UniformRun(EMPTY, calls, r);
    PeakAtLeast(EMPTY, calls);
    UniformExtent(Run(EMPTY, calls), r, Peak(EMPTY, calls));
  }

  lemma {:induction false} UniformExtent(h: Heap, r: nat, count: nat)
    requires Uniform(h, r) && |h.sizes| == count
    ensures Break(h) - HEAP_START == r * count
  {
    UniformBreak(h.sizes, r, |h.sizes|);
  }

  lemma {:induction false} PeakAtLeast(h: Heap, calls: seq<Call>)
    requires WellFormed(h) && Legal(h, calls)
    ensures Peak(h, calls) >= LiveCount(h)
  {
  }
}

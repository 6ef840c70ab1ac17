/** ethernet.c: a payload is copied into an allocated frame, padded, handed to the card, and
    the frame is freed. */
module Ethernet {
  import opened Words
  import opened Collections
  import opened Heap
  import opened Malloc
  import opened ByteOrder
  import opened Transmit

  const HEADER := 14
  const MINIMUM_PAYLOAD := 46

  /** The payload length after padding. */
  function Padded(len: nat): nat {
    if len < MINIMUM_PAYLOAD then MINIMUM_PAYLOAD else len
  }

  function Zeros(n: nat): seq<Byte> {
    seq(n, _ => 0)
  }

  function FrameHeader(dest: Mac, src: Mac, ethType: U16, big: bool): (h: seq<Byte>)
    ensures |h| == HEADER
  {
    HtonMac(dest, big) + HtonMac(src, big) + Bytes16(ethType)
  }

  /** The frame for a payload: header, payload, and zeros up to the least length. */
  function Frame(header: seq<Byte>, payload: seq<Byte>): (f: seq<Byte>)
    requires |header| == HEADER
    ensures |f| == HEADER + Padded(|payload|)
  {
    header + payload + Zeros(Padded(|payload|) - |payload|)
  }

  /** What the card transmits for a frame: the length goes through a 16-bit parameter. */
  function Transmitted(f: seq<Byte>): seq<seq<Byte>> {
    Frames(f[..|f| % TWO_16])
  }

  /** A frame is transmitted as it is exactly if its length fits 16 bits. */
  lemma {:induction false} TransmittedWhole(header: seq<Byte>, payload: seq<Byte>)
    requires |header| == HEADER
    ensures Transmitted(Frame(header, payload)) == [Frame(header, payload)] <==> HEADER + |payload| < TWO_16
  {
    var f := Frame(header, payload);
    if |f| < TWO_16 {
      assert f[..|f|] == f;
    }
  }

  /** A frame of exactly 65536 bytes is not transmitted at all. */
  lemma {:induction false} NothingTransmitted(header: seq<Byte>)
    requires |header| == HEADER
    ensures Transmitted(Frame(header, Zeros(TWO_16 - HEADER))) == []
  {
  }

  lemma {:induction false} HeaderParts(dest: Mac, src: Mac, ethType: U16, big: bool)
    ensures var h := FrameHeader(dest, src, ethType, big);
      h[0..6] == HtonMac(dest, big) && h[6..12] == HtonMac(src, big) && h[12..14] == Bytes16(ethType)
  {
  }

  lemma {:induction false} FrameParts(header: seq<Byte>, payload: seq<Byte>)
    requires |header| == HEADER
    ensures var f := Frame(header, payload);
      && f[0..6] == header[0..6] && f[6..12] == header[6..12] && f[12..14] == header[12..14]
      && f[HEADER..HEADER + |payload|] == payload
      && forall i :: HEADER + |payload| <= i < |f| ==> f[i] == 0
  {
  }

  /** A receiver of the frame finds the addresses, the type and the payload in it; the rest is
      zeros, up to the 60 bytes Ethernet asks for. */
  lemma {:induction false} FrameReadsBack(dest: Mac, src: Mac, ethType: U16, big: bool, payload: seq<Byte>)
    ensures var f := Frame(FrameHeader(dest, src, ethType, big), payload);
      && |f| == (if |payload| < 46 then 60 else 14 + |payload|)
      && NtohMac(f[0..6], big) == dest && NtohMac(f[6..12], big) == src && Wire16(f[12..14]) == ethType
      && f[HEADER..HEADER + |payload|] == payload
      && forall i :: HEADER + |payload| <= i < |f| ==> f[i] == 0
  {
    HeaderParts(dest, src, ethType, big);
    FrameParts(FrameHeader(dest, src, ethType, big), payload);
    RoundTripsMac(dest, big);
    RoundTripsMac(src, big);
  }

  // ------------------------------------------------------- bytes in memory

  ghost predicate At(m: seq<Byte>, a: nat, bytes: seq<Byte>) {
    a + |bytes| <= |m| && m[a..a + |bytes|] == bytes
  }

  predicate Inside(a: int, n: nat, b: int) {
    a <= b < a + n
  }

  /** No byte of [b, b + k) lies in [a, a + n). */
  ghost predicate Clear(b: nat, k: nat, a: nat, n: nat) {
    forall c :: Inside(b, k, c) ==> !Inside(a, n, c)
  }

  /** Only bytes of [a, a + n) differ between m and m'. */
  ghost predicate OnlyChanged(m: seq<Byte>, m': seq<Byte>, a: nat, n: nat) {
    |m'| == |m| && forall b :: 0 <= b < |m| && !Inside(a, n, b) ==> m'[b] == m[b]
  }

  lemma {:induction false} AtJoined(m: seq<Byte>, a: nat, x: seq<Byte>, y: seq<Byte>)
    requires At(m, a, x) && At(m, a + |x|, y)
    ensures At(m, a, x + y)
  {
    assert m[a..a + |x| + |y|] == m[a..a + |x|] + m[a + |x|..a + |x| + |y|];
  }

  lemma {:induction false} AtKept(m: seq<Byte>, m': seq<Byte>, a: nat, n: nat, b: nat, x: seq<Byte>)
    requires At(m, b, x) && OnlyChanged(m, m', a, n)
    requires Clear(b, |x|, a, n)
    ensures At(m', b, x)
  {
    forall c | b <= c < b + |x|
      ensures m'[c] == m[c]
    {
      assert Inside(b, |x|, c);
    }
  }

  lemma {:induction false} ChangedTwice(m: seq<Byte>, m1: seq<Byte>, m2: seq<Byte>,
                                        a: nat, n: nat, b: nat, k: nat)
    requires OnlyChanged(m, m1, a, n) && OnlyChanged(m1, m2, b, k)
    requires a <= b && b + k <= a + n
    ensures OnlyChanged(m, m2, a, n)
  {
  }

  method StoreBytes(mem: array<Byte>, a: nat, bytes: seq<Byte>)
    requires a + |bytes| <= mem.Length
    modifies mem
    ensures At(mem[..], a, bytes) && OnlyChanged(old(mem[..]), mem[..], a, |bytes|)
  {
    for i := 0 to |bytes|
      invariant forall k :: 0 <= k < i ==> mem[a + k] == bytes[k]
      invariant forall b :: 0 <= b < mem.Length && !(a <= b < a + |bytes|) ==> mem[b] == old(mem[b])
    {
      mem[a + i] := bytes[i];
    }
    assert mem[..][a..a + |bytes|] == bytes;
  }

  /** memcpy, from the first byte to the last. Bytes of the source that lie in the destination
      may have been overwritten by the time they are read; the others arrive. */
  method Memcpy(mem: array<Byte>, dest: nat, src: nat, n: nat)
    requires dest + n <= mem.Length && src + n <= mem.Length
    modifies mem
    ensures OnlyChanged(old(mem[..]), mem[..], dest, n)
    ensures forall b :: Inside(dest, n, b) && !Inside(dest, n, b - dest + src) ==> mem[b] == old(mem[b - dest + src])
  {
    for i := 0 to n
      invariant forall b :: Inside(dest, i, b) && !Inside(dest, n, b - dest + src) ==> mem[b] == old(mem[b - dest + src])
      invariant forall b :: 0 <= b < mem.Length && !Inside(dest, n, b) ==> mem[b] == old(mem[b])
    {
      mem[dest + i] := mem[src + i];
    }
  }

  method Memset(mem: array<Byte>, a: nat, c: Byte, n: nat)
    requires a + n <= mem.Length
    modifies mem
    ensures OnlyChanged(old(mem[..]), mem[..], a, n)
    ensures forall k :: a <= k < a + n ==> mem[k] == c
  {
    for i := a to a + n
      invariant forall k :: a <= k < i ==> mem[k] == c
      invariant forall b :: 0 <= b < mem.Length && !(a <= b < a + n) ==> mem[b] == old(mem[b])
    {
      mem[i] := c;
    }
  }

  lemma {:induction false} Copied(m: seq<Byte>, m': seq<Byte>, dest: nat, p: nat, len: nat)
    requires |m| == |m'| && dest + Padded(len) <= |m| && p + Padded(len) <= |m|
    requires Clear(p, len, dest, Padded(len))
    requires forall b :: Inside(dest, Padded(len), b) && !Inside(dest, Padded(len), b - dest + p) ==> m'[b] == m[b - dest + p]
    ensures At(m', dest, m[p..p + len])
  {
    forall b | dest <= b < dest + len
      ensures m'[b] == m[b - dest + p]
    {
      assert Inside(dest, Padded(len), b) && Inside(p, len, b - dest + p);
    }
  }

  /** The payload and its padding: memcpy reads the padded length from p, and memset clears
      what was read past the payload. */
  method FillPayload(mem: array<Byte>, dest: nat, p: nat, len: nat)
    requires dest + Padded(len) <= mem.Length && p + Padded(len) <= mem.Length
    requires Clear(p, len, dest, Padded(len))
    modifies mem
    ensures OnlyChanged(old(mem[..]), mem[..], dest, Padded(len))
    ensures At(mem[..], dest, old(mem[p..p + len]) + Zeros(Padded(len) - len))
  {
    var padding := if len < MINIMUM_PAYLOAD then MINIMUM_PAYLOAD - len else 0;
    ghost var m0, payload := mem[..], mem[p..p + len];
    Memcpy(mem, dest, p, len + padding);
    ghost var m1 := mem[..];
    Copied(m0, m1, dest, p, len);
    if padding != 0 {
      Memset(mem, dest + len, 0, padding);
    }
    ghost var m2 := mem[..];
    assert OnlyChanged(m1, m2, dest + len, padding);
    ChangedTwice(m0, m1, m2, dest, Padded(len), dest + len, padding);
    AtKept(m1, m2, dest + len, padding, dest, payload);
    assert At(m2, dest + len, Zeros(padding));
    AtJoined(m2, dest, payload, Zeros(padding));
  }

  /** The whole frame at a, for the payload at p. */
  method FillFrame(mem: array<Byte>, a: nat, header: seq<Byte>, p: nat, len: nat)
    requires |header| == HEADER
    requires a + HEADER + Padded(len) <= mem.Length && p + Padded(len) <= mem.Length
    requires Clear(p, len, a, HEADER + Padded(len))
    modifies mem
    ensures OnlyChanged(old(mem[..]), mem[..], a, HEADER + Padded(len))
    ensures At(mem[..], a, Frame(header, old(mem[p..p + len])))
  {
    ghost var m0, payload := mem[..], mem[p..p + len];
    StoreBytes(mem, a, header);
    ghost var m1 := mem[..];
    AtKept(m0, m1, a, HEADER, p, payload);
    FillPayload(mem, a + HEADER, p, len);
    ghost var m2 := mem[..];
    AtKept(m1, m2, a + HEADER, Padded(len), a, header);
    AtJoined(m2, a, header, payload + Zeros(Padded(len) - len));
    assert Frame(header, payload) == header + (payload + Zeros(Padded(len) - len));
    ChangedTwice(m0, m1, m2, a, HEADER + Padded(len), a + HEADER, Padded(len));
  }

  // ------------------------------------------------------ the frame's block

  /** The allocator can serve a request for size bytes. */
  ghost predicate Room(h: Heap, size: nat)
    requires WellFormed(h)
  {
    && size < TWO_32 && NoWrap(Break(h), size)
    && AfterMalloc(h, Rounded(size)).1.Some?
  }

  /** The heap after a block for size bytes has been allocated and freed again. */
  ghost function Borrowed(h: Heap, size: U32): Heap
    requires WellFormed(h) && Room(h, size)
  {
    var (h', block) := AfterMalloc(h, Rounded(size));
    AfterFree(h', block.value)
  }

  /** A frame's block is live only while it is sent. */
  lemma {:induction false} BorrowedKeepsLive(h: Heap, size: U32)
    requires WellFormed(h) && Room(h, size)
    ensures WellFormed(Borrowed(h, size))
    ensures forall j :: Live(Borrowed(h, size), j) <==> Live(h, j)
  {
    RoundedIsLeast(size, 0);
    MallocSteps(h, Rounded(size));
    var (h', block) := AfterMalloc(h, Rounded(size));
    FreeSteps(h', block.value);
  }

  /** Once a frame has been sent, frames that are no longer reuse its block: they neither move
      the break nor change the free list. */
  lemma {:induction false} LaterFramesReuse(h: Heap, size: U32, later: U32)
    requires WellFormed(h) && Room(h, size) && later <= size
    ensures WellFormed(Borrowed(h, size)) && Room(Borrowed(h, size), later)
    ensures Borrowed(Borrowed(h, size), later) == Borrowed(h, size)
  {
    BorrowedKeepsLive(h, size);
    RoundedIsLeast(size, 0);
    RoundedIsLeast(later, Rounded(size));
    MallocSteps(h, Rounded(size));
    var b := Borrowed(h, size);
    BreakMoves(h, Rounded(size));
    assert FirstFit(b.sizes, b.free, Rounded(later)) == 0;
    assert Without(b.free, 0) == b.free[1..];
  }

  lemma {:induction false} BreakMoves(h: Heap, n: nat)
    requires WellFormed(h)
    ensures var (h', r) := AfterMalloc(h, n);
      Break(h') == Break(h) || Break(h') == Break(h) + n
  {
    StartOfExtended(h.sizes, n, |h.sizes|);
  }

  /** A client byte is no part of the block malloc hands out next, and remains a client byte. */
  lemma {:induction false} ClientNotFresh(listHead: nat, h: Heap, n: nat, a: nat)
    requires WellFormed(h) && IsBlockSize(n) && ClientByte(listHead, h, a) && AfterMalloc(h, n).1.Some?
    ensures var (h', r) := AfterMalloc(h, n);
      && WellFormed(h') && r.value < |h'.sizes| && ClientByte(listHead, h', a)
      && !(Payload(h', r.value) <= a < Start(h'.sizes, r.value) + h'.sizes[r.value])
  {
    MallocSteps(h, n);
    var (h', r) := AfterMalloc(h, n);
    if HEAP_START <= a < HEAP_END {
      var i: nat :| Live(h, i) && Payload(h, i) <= a < Start(h.sizes, i) + h.sizes[i];
      assert Live(h', i);
      PayloadsDisjoint(h', i, r.value, a);
    } else {
      BlocksApart(h', r.value, r.value);
    }
  }

  /** Filling the block leaves the heap in memory as it is. */
  lemma {:induction false} FillingHarmless(m: seq<Byte>, m': seq<Byte>, listHead: nat, h: Heap, i: nat, n: nat)
    requires Holds(m, listHead, h) && Live(h, i) && OnlyChanged(m, m', Payload(h, i), n)
    requires Payload(h, i) + n <= Start(h.sizes, i) + h.sizes[i]
    ensures Holds(m', listHead, h)
  {
    forall a | 0 <= a < TWO_32 && !ClientByte(listHead, h, a)
      ensures m'[a] == m[a]
    {
      if Inside(Payload(h, i), n, a) {
        LiveIsClient(listHead, h, i, a);
      }
    }
    ClientWritesHarmless(m, m', listHead, h);
  }

  /** Allocating and filling a block changes no client byte. */
  lemma {:induction false} FillingUntouched(m0: seq<Byte>, m1: seq<Byte>, m2: seq<Byte>,
                                            listHead: nat, h: Heap, n: nat, len: nat)
    requires WellFormed(h) && IsBlockSize(n) && AfterMalloc(h, n).1.Some?
    requires |m0| == |m1| == |m2| == TWO_32 && Untouched(m0, m1, listHead, h)
    requires var (h', r) := AfterMalloc(h, n);
      && WellFormed(h') && r.value < |h'.sizes| && OnlyChanged(m1, m2, Payload(h', r.value), len)
      && Payload(h', r.value) + len <= Start(h'.sizes, r.value) + h'.sizes[r.value]
    ensures Untouched(m0, m2, listHead, h)
  {
    var (h', r) := AfterMalloc(h, n);
    forall a | 0 <= a < TWO_32 && ClientByte(listHead, h, a)
      ensures m2[a] == m0[a]
    {
      ClientNotFresh(listHead, h, n, a);
      assert !Inside(Payload(h', r.value), len, a);
    }
  }

  /** Freeing the block again changes no client byte either. */
  lemma {:induction false} FreeingUntouched(m0: seq<Byte>, m2: seq<Byte>, m3: seq<Byte>, listHead: nat, h: Heap, n: nat)
    requires WellFormed(h) && IsBlockSize(n) && AfterMalloc(h, n).1.Some?
    requires |m0| == |m2| == |m3| == TWO_32
    requires Untouched(m0, m2, listHead, h) && Untouched(m2, m3, listHead, AfterMalloc(h, n).0)
    ensures Untouched(m0, m3, listHead, h)
  {
    forall a | 0 <= a < TWO_32 && ClientByte(listHead, h, a)
      ensures m3[a] == m0[a]
    {
      ClientNotFresh(listHead, h, n, a);
    }
  }

  /** The payload of a caller is clear of the frame's block. */
  lemma {:induction false} PayloadClear(listHead: nat, h: Heap, n: nat, p: nat, len: nat, size: nat)
    requires WellFormed(h) && IsBlockSize(n) && AfterMalloc(h, n).1.Some?
    requires forall a :: Inside(p, len, a) ==> ClientByte(listHead, h, a)
    requires var (h', r) := AfterMalloc(h, n);
      && WellFormed(h') && r.value < |h'.sizes|
      && Payload(h', r.value) + size <= Start(h'.sizes, r.value) + h'.sizes[r.value]
    ensures var (h', r) := AfterMalloc(h, n); Clear(p, len, Payload(h', r.value), size)
  {
    var (h', r) := AfterMalloc(h, n);
    forall c | Inside(p, len, c)
      ensures !Inside(Payload(h', r.value), size, c)
    {
      ClientNotFresh(listHead, h, n, c);
    }
  }

  // ------------------------------------------------------------- the code

  /** malloc for a frame, given that there is room. */
  method AllocateFrame(alloc: Allocator, size: U32) returns (r: U32, ghost i: nat)
    requires alloc.Valid() && Room(alloc.heap, size)
    modifies alloc, alloc.mem
    ensures alloc.Valid() && alloc.errno == old(alloc.errno)
    ensures AfterMalloc(old(alloc.heap), Rounded(size)) == (alloc.heap, Some(i))
    ensures Live(alloc.heap, i) && r == Payload(alloc.heap, i)
    ensures r + size <= Start(alloc.heap.sizes, i) + alloc.heap.sizes[i] <= HEAP_END
    ensures Untouched(old(alloc.mem[..]), alloc.mem[..], alloc.listHead, old(alloc.heap))
  {
    RoundedIsLeast(size, 0);
    MallocSteps(alloc.heap, Rounded(size));
    i := AfterMalloc(alloc.heap, Rounded(size)).1.value;
    r := alloc.Malloc(size);
  }

  /** The three header fields, as they lie in memory. */
  method BuildHeader(dest: Mac, src: Mac, ethType: U16, big: bool) returns (h: seq<Byte>)
    ensures h == FrameHeader(dest, src, ethType, big)
  {
    var destWire: seq<Byte> := ConvertMac(dest, big);
    var srcWire: seq<Byte> := ConvertMac(src, big);
    FieldOfHtons(ethType, big);
    h := destWire + srcWire + Store16(Htons(ethType, big), big);
  }

  /** The stores into the allocated frame. */
  method FillBlock(alloc: Allocator, a: U32, ghost i: nat, header: seq<Byte>, p: U32, len: U32)
    requires alloc.Valid() && Live(alloc.heap, i) && a == Payload(alloc.heap, i) && |header| == HEADER
    requires a + HEADER + Padded(len) <= Start(alloc.heap.sizes, i) + alloc.heap.sizes[i] <= HEAP_END
    requires p + Padded(len) <= TWO_32 && Clear(p, len, a, HEADER + Padded(len))
    modifies alloc.mem
    ensures alloc.Valid()
    ensures OnlyChanged(old(alloc.mem[..]), alloc.mem[..], a, HEADER + Padded(len))
    ensures At(alloc.mem[..], a, Frame(header, old(alloc.mem[p..p + len])))
  {
    ghost var m := alloc.mem[..];
    FillFrame(alloc.mem, a, header, p, len);
    FillingHarmless(m, alloc.mem[..], alloc.listHead, alloc.heap, i, HEADER + Padded(len));
  }

  /** The call of e1000_send_packet for a frame in memory. */
  method HandOver(card: TxCard, a: U32, n: U32, patience: nat, ghost frame: seq<Byte>)
    requires card.Idle() && At(card.mem[..], a, frame) && |frame| == n
    modifies card, card.descs
    ensures card.Idle()
    ensures card.wire == old(card.wire) + if card.present then Transmitted(frame) else []
  {
    var _ := card.SendPacket(a, n % TWO_16, patience);
    assert card.mem[..][a..a + n] == frame;
    assert card.mem[a..a + n % TWO_16] == frame[..n % TWO_16];
  }

  /** Allocation and stores together. */
  method PrepareFrame(alloc: Allocator, header: seq<Byte>, p: U32, len: U32) returns (r: U32, size: U32, ghost i: nat)
    requires alloc.Valid() && |header| == HEADER
    requires Room(alloc.heap, HEADER + Padded(len)) && p + Padded(len) <= TWO_32
    requires forall a :: Inside(p, len, a) ==> ClientByte(alloc.listHead, alloc.heap, a)
    modifies alloc, alloc.mem
    ensures alloc.Valid() && alloc.errno == old(alloc.errno) && size == HEADER + Padded(len)
    ensures AfterMalloc(old(alloc.heap), Rounded(size)) == (alloc.heap, Some(i))
    ensures Live(alloc.heap, i) && r == Payload(alloc.heap, i)
    ensures At(alloc.mem[..], r, Frame(header, old(alloc.mem[p..p + len])))
    ensures Untouched(old(alloc.mem[..]), alloc.mem[..], alloc.listHead, old(alloc.heap))
  {
    var padding := if len < MINIMUM_PAYLOAD then MINIMUM_PAYLOAD - len else 0;
    size := HEADER + (padding + len);
    ghost var h, m0 := alloc.heap, alloc.mem[..];
    RoundedIsLeast(size, 0);
    r, i := AllocateFrame(alloc, size);
    ghost var m1 := alloc.mem[..];
    PayloadClear(alloc.listHead, h, Rounded(size), p, len, size);
    SamePayload(m0, m1, alloc.listHead, h, p, len);
    FillBlock(alloc, r, i, header, p, len);
    FillingUntouched(m0, m1, alloc.mem[..], alloc.listHead, h, Rounded(size), size);
  }

  /** ethernet_send, for a payload of client bytes at p and an allocator with room. The source
      may lie in any client memory, as long as the padded length can be read there. */
  method EthernetSend(alloc: Allocator, card: TxCard, dest: Mac, ethType: U16, big: bool, p: U32, len: U32, patience: nat)
    requires alloc.Valid() && card.Idle() && card.mem == alloc.mem
    requires Room(alloc.heap, HEADER + Padded(len)) && p + Padded(len) <= TWO_32
    requires forall a :: Inside(p, len, a) ==> ClientByte(alloc.listHead, alloc.heap, a)
    modifies alloc, alloc.mem, card, card.descs
    ensures alloc.Valid() && card.Idle() && alloc.errno == old(alloc.errno)
    ensures var frame := Frame(FrameHeader(dest, card.mac, ethType, big), old(alloc.mem[p..p + len]));
      card.wire == old(card.wire) + if card.present then Transmitted(frame) else []
    ensures alloc.heap == Borrowed(old(alloc.heap), HEADER + Padded(len))
    ensures Untouched(old(alloc.mem[..]), alloc.mem[..], alloc.listHead, old(alloc.heap))
  {
    ghost var h, m0, payload := alloc.heap, alloc.mem[..], alloc.mem[p..p + len];
    var header := BuildHeader(dest, card.mac, ethType, big);
    var a, size;
    ghost var i;
    a, size, i := PrepareFrame(alloc, header, p, len);
    ghost var m2 := alloc.mem[..];
    HandOver(card, a, size, patience, Frame(header, payload));
    alloc.Free(a, i);
    RoundedIsLeast(size, 0);
    FreeingUntouched(m0, m2, alloc.mem[..], alloc.listHead, h, Rounded(size));
  }

  lemma {:induction false} SamePayload(m: seq<Byte>, m': seq<Byte>, listHead: nat, h: Heap, p: nat, len: nat)
    requires |m| == |m'| == TWO_32 && p + len <= TWO_32 && Untouched(m, m', listHead, h)
    requires forall a :: Inside(p, len, a) ==> ClientByte(listHead, h, a)
    ensures m'[p..p + len] == m[p..p + len]
  {
    forall a | p <= a < p + len
      ensures m'[a] == m[a]
    {
      assert Inside(p, len, a);
    }
  }
}

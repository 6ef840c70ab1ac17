/** pci_mmio.c: stores of 8 to 64 bits at any address of a bus that takes whole aligned
    32-bit words only, built from word reads, shifts, masks and word stores. Addresses are
    32 bits wide and wrap around. */
module PciMmio {
  import opened Words

  // ------------------------------------------------------- bytes of a word

  /** Shifts by whole bytes, as `w << n * 8` and `w >> n * 8`. */
  function Left(w: bv32, n: nat): bv32
    requires n < 4
  {
    match n
    case 0 => w
    case 1 => w << 8
    case 2 => w << 16
    case _ => w << 24
  }

  function Right(w: bv32, n: nat): bv32
    requires n < 4
  {
    match n
    case 0 => w
    case 1 => w >> 8
    case 2 => w >> 16
    case _ => w >> 24
  }

  function Left64(w: bv64, n: nat): bv64
    requires 1 <= n < 4
  {
    match n
    case 1 => w << 8
    case 2 => w << 16
    case _ => w << 24
  }

  function Right64(w: bv64, n: nat): bv64
    requires 1 <= n < 8
  {
    match n
    case 1 => w >> 8
    case 2 => w >> 16
    case 3 => w >> 24
    case 4 => w >> 32
    case 5 => w >> 40
    case 6 => w >> 48
    case _ => w >> 56
  }

  /** The cast to uint32_t. */
  function Low32(w: bv64): bv32 {
    (w & 0xFFFF_FFFF) as bv32
  }

  /** The bytes of a value, least significant first. */
  function Bytes(w: bv32): (b: seq<bv8>)
    ensures |b| == 4
  {
    [(w & 0xFF) as bv8, ((w >> 8) & 0xFF) as bv8, ((w >> 16) & 0xFF) as bv8, (w >> 24) as bv8]
  }

  function Bytes2(w: bv16): (b: seq<bv8>)
    ensures |b| == 2
  {
    [(w & 0xFF) as bv8, (w >> 8) as bv8]
  }

  // The values that the bytes stand for, least significant first.

  lemma {:induction false} ValueOfBytes2(w: bv16)
    ensures var b := Bytes2(w); (b[0] as bv16) + 0x100 * (b[1] as bv16) == w
  {
  }

  lemma {:induction false} ValueOfBytes(w: bv32)
    ensures var b := Bytes(w);
      (b[0] as bv32) + 0x100 * (b[1] as bv32) + 0x1_0000 * (b[2] as bv32) + 0x100_0000 * (b[3] as bv32) == w
  {
  }

  function Pack(b0: bv8, b1: bv8, b2: bv8, b3: bv8): bv32 {
    (b0 as bv32) | ((b1 as bv32) << 8) | ((b2 as bv32) << 16) | ((b3 as bv32) << 24)
  }

  lemma {:induction false} BytesOfPack(b0: bv8, b1: bv8, b2: bv8, b3: bv8)
    ensures Bytes(Pack(b0, b1, b2, b3)) == [b0, b1, b2, b3]
  {
  }

  /** Byte k of a value, and 0 beside it. */
  function At(b: seq<bv8>, k: int): bv8 {
    if 0 <= k < |b| then b[k] else 0
  }

  lemma {:induction false} BytesOfLeft(w: bv32, n: nat)
    requires n < 4
    ensures var b := Bytes(w);
      Bytes(Left(w, n)) == if n == 0 then b else if n == 1 then [0, b[0], b[1], b[2]]
                           else if n == 2 then [0, 0, b[0], b[1]] else [0, 0, 0, b[0]]
  {
    LeftBytes(w);
  }

  lemma {:induction false} LeftBytes(w: bv32)
    ensures var b := Bytes(w);
      && Bytes(w << 8) == [0, b[0], b[1], b[2]]
      && Bytes(w << 16) == [0, 0, b[0], b[1]]
      && Bytes(w << 24) == [0, 0, 0, b[0]]
  {
  }

  lemma {:induction false} BytesOfRight(w: bv32, n: nat)
    requires n < 4
    ensures var b := Bytes(w);
      Bytes(Right(w, n)) == if n == 0 then b else if n == 1 then [b[1], b[2], b[3], 0]
                            else if n == 2 then [b[2], b[3], 0, 0] else [b[3], 0, 0, 0]
  {
    RightBytes(w);
  }

  lemma {:induction false} RightBytes(w: bv32)
    ensures var b := Bytes(w);
      && Bytes(w >> 8) == [b[1], b[2], b[3], 0]
      && Bytes(w >> 16) == [b[2], b[3], 0, 0]
      && Bytes(w >> 24) == [b[3], 0, 0, 0]
  {
  }

  /** A shift moves the bytes and fills up with zeros. */
  lemma {:induction false} Moved(b: seq<bv8>, left: seq<bv8>, right: seq<bv8>, n: nat)
    requires |b| == 4 && n < 4
    requires left == if n == 0 then b else if n == 1 then [0, b[0], b[1], b[2]]
                     else if n == 2 then [0, 0, b[0], b[1]] else [0, 0, 0, b[0]]
    requires right == if n == 0 then b else if n == 1 then [b[1], b[2], b[3], 0]
                      else if n == 2 then [b[2], b[3], 0, 0] else [b[3], 0, 0, 0]
    ensures forall k :: 0 <= k < 4 ==> left[k] == At(b, k - n) && right[k] == At(b, k + n)
  {
  }

  /** z is the bitwise "or" of x and y as far as one of them is zero. */
  ghost predicate Joined(x: seq<bv8>, y: seq<bv8>, z: seq<bv8>) {
    && |x| == |y| == |z| == 4
    && (forall k :: 0 <= k < 4 && y[k] == 0 ==> z[k] == x[k])
    && (forall k :: 0 <= k < 4 && x[k] == 0 ==> z[k] == y[k])
  }

  lemma {:induction false} OrWithZero(a: bv32, b: bv32)
    ensures Bytes(b)[0] == 0 ==> Bytes(a | b)[0] == Bytes(a)[0]
    ensures Bytes(b)[1] == 0 ==> Bytes(a | b)[1] == Bytes(a)[1]
    ensures Bytes(b)[2] == 0 ==> Bytes(a | b)[2] == Bytes(a)[2]
    ensures Bytes(b)[3] == 0 ==> Bytes(a | b)[3] == Bytes(a)[3]
  {
  }

  lemma {:induction false} OrJoins(x: seq<bv8>, y: seq<bv8>, z: seq<bv8>)
    requires |x| == |y| == |z| == 4
    requires y[0] == 0 ==> z[0] == x[0]
    requires y[1] == 0 ==> z[1] == x[1]
    requires y[2] == 0 ==> z[2] == x[2]
    requires y[3] == 0 ==> z[3] == x[3]
    requires x[0] == 0 ==> z[0] == y[0]
    requires x[1] == 0 ==> z[1] == y[1]
    requires x[2] == 0 ==> z[2] == y[2]
    requires x[3] == 0 ==> z[3] == y[3]
    ensures Joined(x, y, z)
  {
    forall k | 0 <= k < 4
      ensures (y[k] == 0 ==> z[k] == x[k]) && (x[k] == 0 ==> z[k] == y[k])
    {
      if k == 0 {} else if k == 1 {} else if k == 2 {}
    }
  }

  lemma {:induction false} OrIsJoin(a: bv32, b: bv32)
    ensures Joined(Bytes(a), Bytes(b), Bytes(a | b))
  {
    OrWithZero(a, b);
    OrWithZero(b, a);
    OrCommutes(a, b);
    OrJoins(Bytes(a), Bytes(b), Bytes(a | b));
  }

  method Or(a: bv32, b: bv32) returns (w: bv32)
    ensures Joined(Bytes(a), Bytes(b), Bytes(w))
  {
    OrIsJoin(a, b);
    w := a | b;
  }

  lemma {:induction false} OrCommutes(a: bv32, b: bv32)
    ensures a | b == b | a
  {
  }

  /** m is b moved n bytes up, or -n bytes down, and filled up with zeros. */
  ghost predicate IsMoved(b: seq<bv8>, m: seq<bv8>, n: int) {
    |b| == |m| == 4 && forall k :: 0 <= k < 4 ==> m[k] == At(b, k - n)
  }

  lemma {:induction false} ShiftsMove(w: bv32, n: int)
    requires 0 <= n < 4
    ensures IsMoved(Bytes(w), Bytes(Left(w, n)), n) && IsMoved(Bytes(w), Bytes(Right(w, n)), -n)
  {
    BytesOfLeft(w, n);
    BytesOfRight(w, n);
    Moved(Bytes(w), Bytes(Left(w, n)), Bytes(Right(w, n)), n);
  }

  /** `w << n * 8`. */
  method ShiftLeft(w: bv32, n: int) returns (r: bv32)
    requires 0 <= n < 4
    ensures IsMoved(Bytes(w), Bytes(r), n)
  {
    ShiftsMove(w, n);
    r := Left(w, n);
  }

  /** `w >> n * 8`. */
  method ShiftRight(w: bv32, n: int) returns (r: bv32)
    requires 0 <= n < 4
    ensures IsMoved(Bytes(w), Bytes(r), -n)
  {
    ShiftsMove(w, n);
    r := Right(w, n);
  }

  lemma {:induction false} LowBytes(r: seq<bv8>, up: seq<bv8>, down: seq<bv8>, v: seq<bv8>, moved: seq<bv8>, z: seq<bv8>, o: int)
    requires 1 <= o < 4 && IsMoved(r, up, 4 - o) && IsMoved(up, down, o - 4) && IsMoved(v, moved, o)
    requires Joined(down, moved, z)
    ensures z == r[..o] + v[..4 - o]
  {
    forall k | 0 <= k < 4
      ensures z[k] == if k < o then r[k] else v[k - o]
    {
      assert down[k] == At(up, k + 4 - o) && moved[k] == At(v, k - o);
    }
  }

  lemma {:induction false} HighBytes(u: seq<bv8>, down: seq<bv8>, up: seq<bv8>, v: seq<bv8>, moved: seq<bv8>, z: seq<bv8>, o: int)
    requires 1 <= o < 4 && IsMoved(u, down, -o) && IsMoved(down, up, o) && IsMoved(v, moved, o - 4)
    requires Joined(up, moved, z)
    ensures z == v[4 - o..] + u[o..]
  {
    forall k | 0 <= k < 4
      ensures z[k] == if k < o then v[k + 4 - o] else u[k]
    {
      assert up[k] == At(down, k - o) && moved[k] == At(v, k + 4 - o);
    }
  }

  /** `((read << (4 - o) * 8) >> (4 - o) * 8) | value << o * 8`. */
  method LowerWord(read: bv32, value: bv32, o: int) returns (w: bv32)
    requires 1 <= o < 4
    ensures Bytes(w) == Bytes(read)[..o] + Bytes(value)[..4 - o]
  {
    var up := ShiftLeft(read, 4 - o);
    var down := ShiftRight(up, 4 - o);
    var moved := ShiftLeft(value, o);
    w := Or(down, moved);
    LowBytes(Bytes(read), Bytes(up), Bytes(down), Bytes(value), Bytes(moved), Bytes(w), o);
  }

  /** `((read >> o * 8) << o * 8) | value >> (4 - o) * 8`. */
  method UpperWord(read: bv32, value: bv32, o: int) returns (w: bv32)
    requires 1 <= o < 4
    ensures Bytes(w) == Bytes(value)[4 - o..] + Bytes(read)[o..]
  {
    var down := ShiftRight(read, o);
    var up := ShiftLeft(down, o);
    var moved := ShiftRight(value, 4 - o);
    w := Or(up, moved);
    HighBytes(Bytes(read), Bytes(down), Bytes(up), Bytes(value), Bytes(moved), Bytes(w), o);
  }

  lemma {:induction false} AndNotZero(a: bv32, b: bv32)
    ensures Bytes(b)[0] == 0 ==> Bytes(a & !b)[0] == Bytes(a)[0]
    ensures Bytes(b)[1] == 0 ==> Bytes(a & !b)[1] == Bytes(a)[1]
  {
  }

  lemma {:induction false} AndNotZeroAbove(a: bv32, b: bv32)
    ensures Bytes(b)[2] == 0 ==> Bytes(a & !b)[2] == Bytes(a)[2]
    ensures Bytes(b)[3] == 0 ==> Bytes(a & !b)[3] == Bytes(a)[3]
  {
  }

  lemma {:induction false} AndNotOnes(a: bv32, b: bv32)
    ensures Bytes(b)[0] == 0xFF ==> Bytes(a & !b)[0] == 0
    ensures Bytes(b)[1] == 0xFF ==> Bytes(a & !b)[1] == 0
    ensures Bytes(b)[2] == 0xFF ==> Bytes(a & !b)[2] == 0
    ensures Bytes(b)[3] == 0xFF ==> Bytes(a & !b)[3] == 0
  {
  }

  ghost predicate Masked(x: seq<bv8>, m: seq<bv8>, z: seq<bv8>) {
    && |x| == |m| == |z| == 4
    && forall k :: 0 <= k < 4 ==> (m[k] == 0 ==> z[k] == x[k]) && (m[k] == 0xFF ==> z[k] == 0)
  }

  method AndNot(a: bv32, mask: bv32) returns (w: bv32)
    ensures Masked(Bytes(a), Bytes(mask), Bytes(w))
  {
    w := a & !mask;
    AndNotZero(a, mask);
    AndNotZeroAbove(a, mask);
    AndNotOnes(a, mask);
    ghost var x, m, z := Bytes(a), Bytes(mask), Bytes(w);
    forall k | 0 <= k < 4
      ensures (m[k] == 0 ==> z[k] == x[k]) && (m[k] == 0xFF ==> z[k] == 0)
    {
      if k == 0 {} else if k == 1 {} else if k == 2 {}
    }
  }

  lemma {:induction false} InsertedBytes(r: seq<bv8>, field: seq<bv8>, mask: seq<bv8>, kept: seq<bv8>, v: seq<bv8>,
                                         moved: seq<bv8>, z: seq<bv8>, n: int, o: int)
    requires |field| == |v| == 4 && 0 <= o && 1 <= n && o + n <= 4
    requires forall k :: 0 <= k < 4 ==> field[k] == (if k < n then 0xFF else 0) && (k >= n ==> v[k] == 0)
    requires IsMoved(field, mask, o) && Masked(r, mask, kept) && IsMoved(v, moved, o) && Joined(kept, moved, z)
    ensures z == r[..o] + v[..n] + r[o + n..]
  {
    forall k | 0 <= k < 4
      ensures z[k] == if o <= k < o + n then v[k - o] else r[k]
    {
      assert mask[k] == At(field, k - o) && moved[k] == At(v, k - o);
    }
  }

  /** `(read & ~(field << o * 8)) | value << o * 8` for a field of n bytes. */
  method InsertBytes(read: bv32, field: bv32, value: bv32, n: int, o: int) returns (w: bv32)
    requires 0 <= o && 1 <= n && o + n <= 4
    requires forall k :: 0 <= k < 4 ==>
               Bytes(field)[k] == (if k < n then 0xFF else 0) && (k >= n ==> Bytes(value)[k] == 0)
    ensures Bytes(w) == Bytes(read)[..o] + Bytes(value)[..n] + Bytes(read)[o + n..]
  {
    var mask := ShiftLeft(field, o);
    var kept := AndNot(read, mask);
    var moved := ShiftLeft(value, o);
    w := Or(kept, moved);
    InsertedBytes(Bytes(read), Bytes(field), Bytes(mask), Bytes(kept), Bytes(value), Bytes(moved), Bytes(w), n, o);
  }

  /** The constant 0xFF, and a byte as a 32-bit value. */
  method Widen8(value: bv8) returns (field: bv32, wide: bv32)
    ensures Bytes(field) == [0xFF, 0, 0, 0] && Bytes(wide) == [value, 0, 0, 0]
  {
    field, wide := 0xFF, value as bv32;
  }

  method Widen16(value: bv16) returns (field: bv32, wide: bv32)
    ensures Bytes(field) == [0xFF, 0xFF, 0, 0] && Bytes(wide) == Bytes2(value) + [0, 0]
  {
    field, wide := 0xFFFF, value as bv32;
  }

  /** `(read & ~(0xFF << o * 8)) | value << o * 8`. */
  method Insert8(read: bv32, value: bv8, o: int) returns (w: bv32)
    requires 0 <= o < 4
    ensures Bytes(w) == Bytes(read)[..o] + [value] + Bytes(read)[o + 1..]
  {
    var field, wide := Widen8(value);
    w := InsertBytes(read, field, wide, 1, o);
  }

  /** `(read & ~(0xFFFF << o * 8)) | value << o * 8`. */
  method Insert16(read: bv32, value: bv16, o: int) returns (w: bv32)
    requires 0 <= o < 3
    ensures Bytes(w) == Bytes(read)[..o] + Bytes2(value) + Bytes(read)[o + 2..]
  {
    var field, wide := Widen16(value);
    w := InsertBytes(read, field, wide, 2, o);
    assert Bytes(wide)[..2] == Bytes2(value);
  }

  /** The words of a 16-bit store across a word boundary. */
  method Lower16(read: bv32, value: bv16) returns (w: bv32)
    ensures Bytes(w) == Bytes(read)[..3] + Bytes2(value)[..1]
  {
    var field, wide := Widen16(value);
    w := LowerWord(read, wide, 3);
    assert Bytes(wide)[..1] == Bytes2(value)[..1];
  }

  method Upper16(read: bv32, value: bv16) returns (w: bv32)
    ensures Bytes(w) == Bytes2(value)[1..] + Bytes(read)[1..]
  {
    var down := ShiftRight(read, 1);
    var up := ShiftLeft(down, 1);
    var high := HighByte(value);
    w := Or(up, high);
    HighBytes(Bytes(read), Bytes(down), Bytes(up), [0, 0, 0] + Bytes(high)[..1], Bytes(high), Bytes(w), 1);
  }

  /** `value >> 8`. */
  method HighByte(value: bv16) returns (w: bv32)
    ensures Bytes(w) == Bytes2(value)[1..] + [0, 0, 0]
  {
    w := (value >> 8) as bv32;
  }

  // 64-bit values: each cast of a shifted value is made of 32-bit shifts of its halves.

  function High32(w: bv64): bv32 {
    Low32(w >> 32)
  }

  lemma {:induction false} LowBy1(v: bv64)
    ensures Low32(v << 8) == Low32(v) << 8
  {
  }

  lemma {:induction false} LowBy2(v: bv64)
    ensures Low32(v << 16) == Low32(v) << 16
  {
  }

  lemma {:induction false} LowBy3(v: bv64)
    ensures Low32(v << 24) == Low32(v) << 24
  {
  }

  lemma {:induction false} MiddleBy1(v: bv64)
    ensures Low32(v >> 8) == (Low32(v) >> 8) | (High32(v) << 24)
  {
  }

  lemma {:induction false} MiddleBy2(v: bv64)
    ensures Low32(v >> 16) == (Low32(v) >> 16) | (High32(v) << 16)
  {
  }

  lemma {:induction false} MiddleBy3(v: bv64)
    ensures Low32(v >> 24) == (Low32(v) >> 24) | (High32(v) << 8)
  {
  }

  lemma {:induction false} HighBy1(v: bv64)
    ensures Low32(v >> 40) == High32(v) >> 8
  {
  }

  lemma {:induction false} HighBy2(v: bv64)
    ensures Low32(v >> 48) == High32(v) >> 16
  {
  }

  lemma {:induction false} HighBy3(v: bv64)
    ensures Low32(v >> 56) == High32(v) >> 24
  {
  }

  lemma {:induction false} LowShift(v: bv64, o: int)
    requires 1 <= o <= 3
    ensures Low32(Left64(v, o)) == Left(Low32(v), o)
  {
    if o == 1 {
      LowBy1(v);
    } else if o == 2 {
      LowBy2(v);
    } else {
      LowBy3(v);
    }
  }

  lemma {:induction false} MiddleShift(v: bv64, o: int)
    requires 1 <= o <= 3
    ensures Low32(Right64(v, 4 - o)) == Right(Low32(v), 4 - o) | Left(High32(v), o)
  {
    if o == 1 {
      MiddleBy3(v);
    } else if o == 2 {
      MiddleBy2(v);
    } else {
      MiddleBy1(v);
    }
  }

  lemma {:induction false} HighShift(v: bv64, o: int)
    requires 1 <= o <= 3
    ensures Low32(Right64(v, 8 - o)) == Right(High32(v), 4 - o)
  {
    if o == 1 {
      HighBy3(v);
    } else if o == 2 {
      HighBy2(v);
    } else {
      HighBy1(v);
    }
  }

  /** `(uint32_t) (value << o * 8)`. */
  method CastLeft64(v: bv64, o: int) returns (w: bv32)
    requires 1 <= o <= 3
    ensures IsMoved(Bytes(Low32(v)), Bytes(w), o)
  {
    LowShift(v, o);
    ShiftsMove(Low32(v), o);
    w := Low32(Left64(v, o));
  }

  /** `(uint32_t) (value >> (8 - o) * 8)`. */
  method CastRight64(v: bv64, o: int) returns (w: bv32)
    requires 1 <= o <= 3
    ensures IsMoved(Bytes(High32(v)), Bytes(w), o - 4)
  {
    HighShift(v, o);
    ShiftsMove(High32(v), 4 - o);
    w := Low32(Right64(v, 8 - o));
  }

  lemma {:induction false} BytesAround(low: seq<bv8>, high: seq<bv8>, down: seq<bv8>, up: seq<bv8>, z: seq<bv8>, o: int)
    requires 1 <= o <= 3 && IsMoved(low, down, o - 4) && IsMoved(high, up, o) && Joined(down, up, z)
    ensures z == low[4 - o..] + high[..4 - o]
  {
    forall k | 0 <= k < 4
      ensures z[k] == if k < o then low[k + 4 - o] else high[k - o]
    {
      assert down[k] == At(low, k + 4 - o) && up[k] == At(high, k - o);
    }
  }

  /** `(uint32_t) (value >> (4 - o) * 8)`. */
  method CastMiddle64(v: bv64, o: int) returns (w: bv32)
    requires 1 <= o <= 3
    ensures Bytes(w) == Bytes(Low32(v))[4 - o..] + Bytes(High32(v))[..4 - o]
  {
    ghost var down, up := MiddleParts(v, o);
    w := Low32(Right64(v, 4 - o));
    MiddleBytes(Low32(v), High32(v), down, up, w, o);
  }

  /** The middle word joins the upper end of the low half and the lower end of the high half. */
  lemma {:induction false} MiddleParts(v: bv64, o: int) returns (down: bv32, up: bv32)
    requires 1 <= o <= 3
    ensures IsMoved(Bytes(Low32(v)), Bytes(down), o - 4) && IsMoved(Bytes(High32(v)), Bytes(up), o)
    ensures Low32(Right64(v, 4 - o)) == down | up
  {
    MiddleShift(v, o);
    ShiftsMove(Low32(v), 4 - o);
    ShiftsMove(High32(v), o);
    down, up := Right(Low32(v), 4 - o), Left(High32(v), o);
  }

  lemma {:induction false} MiddleBytes(low: bv32, high: bv32, down: bv32, up: bv32, w: bv32, o: int)
    requires 1 <= o <= 3 && IsMoved(Bytes(low), Bytes(down), o - 4) && IsMoved(Bytes(high), Bytes(up), o)
    requires w == down | up
    ensures Bytes(w) == Bytes(low)[4 - o..] + Bytes(high)[..4 - o]
  {
    OrIsJoin(down, up);
    BytesAround(Bytes(low), Bytes(high), Bytes(down), Bytes(up), Bytes(w), o);
  }

  /** The bytes of a 64-bit value. */
  function Bytes8(v: bv64): (b: seq<bv8>)
    ensures |b| == 8
  {
    Bytes(Low32(v)) + Bytes(High32(v))
  }

  lemma {:induction false} ValueOfHalves(v: bv64)
    ensures var l, h := Bytes(Low32(v)), Bytes(High32(v));
      (l[0] as bv64) + 0x100 * (l[1] as bv64) + 0x1_0000 * (l[2] as bv64) + 0x100_0000 * (l[3] as bv64)
      + 0x1_0000_0000 * ((h[0] as bv64) + 0x100 * (h[1] as bv64) + 0x1_0000 * (h[2] as bv64) + 0x100_0000 * (h[3] as bv64))
      == v
  {
  }

  lemma {:induction false} ValueOfBytes8(v: bv64)
    ensures var b := Bytes8(v);
      (b[0] as bv64) + 0x100 * (b[1] as bv64) + 0x1_0000 * (b[2] as bv64) + 0x100_0000 * (b[3] as bv64)
      + 0x1_0000_0000 * ((b[4] as bv64) + 0x100 * (b[5] as bv64) + 0x1_0000 * (b[6] as bv64) + 0x100_0000 * (b[7] as bv64))
      == v
  {
    ValueOfHalves(v);
    var l, h, b := Bytes(Low32(v)), Bytes(High32(v)), Bytes8(v);
    assert b == l + h;
  }

  lemma {:induction false} Halves(v: bv64, o: int)
    requires 0 <= o <= 4
    ensures Bytes8(v)[..o] == Bytes(Low32(v))[..o] && Bytes8(v)[4 + o..] == Bytes(High32(v))[o..]
    ensures Bytes8(v)[o..4 + o] == Bytes(Low32(v))[o..] + Bytes(High32(v))[..o]
  {
    HalvesOf(Bytes(Low32(v)), Bytes(High32(v)), o);
  }

  lemma {:induction false} HalvesOf<T>(low: seq<T>, high: seq<T>, o: int)
    requires 0 <= o <= 4 && |low| == |high| == 4
    ensures (low + high)[..o] == low[..o] && (low + high)[4 + o..] == high[o..]
    ensures (low + high)[o..4 + o] == low[o..] + high[..o]
  {
  }

  method LowerWord64(read: bv32, value: bv64, o: int) returns (w: bv32)
    requires 1 <= o < 4
    ensures Bytes(w) == Bytes(read)[..o] + Bytes8(value)[..4 - o]
  {
    var up := ShiftLeft(read, 4 - o);
    var down := ShiftRight(up, 4 - o);
    var moved := CastLeft64(value, o);
    w := Or(down, moved);
    LowBytes(Bytes(read), Bytes(up), Bytes(down), Bytes(Low32(value)), Bytes(moved), Bytes(w), o);
    Halves(value, 4 - o);
  }

  method MiddleWord64(value: bv64, o: int) returns (w: bv32)
    requires 1 <= o < 4
    ensures Bytes(w) == Bytes8(value)[4 - o..8 - o]
  {
    w := CastMiddle64(value, o);
    Halves(value, 4 - o);
  }

  method UpperWord64(read: bv32, value: bv64, o: int) returns (w: bv32)
    requires 1 <= o < 4
    ensures Bytes(w) == Bytes8(value)[8 - o..] + Bytes(read)[o..]
  {
    var down := ShiftRight(read, o);
    var up := ShiftLeft(down, o);
    var moved := CastRight64(value, o);
    w := Or(up, moved);
    HighBytes(Bytes(read), Bytes(down), Bytes(up), Bytes(High32(value)), Bytes(moved), Bytes(w), o);
    Halves(value, 4 - o);
  }

  // ------------------------------------------------------------- the bus

  /** How far address x lies behind a, around the address space. */
  function Distance(a: U32, x: int): nat {
    (x - a) % TWO_32
  }

  /** m' is m with the given bytes at address a, and nothing else changed. */
  ghost predicate Stored<T>(m: seq<T>, m': seq<T>, a: U32, bytes: seq<T>) {
    && |m| == |m'| == TWO_32
    && forall x :: 0 <= x < TWO_32 ==>
         m'[x] == if Distance(a, x) < |bytes| then bytes[Distance(a, x)] else m[x]
  }

  /** Two stores side by side are one. */
  lemma {:induction false} StoredBoth<T>(m: seq<T>, m1: seq<T>, m2: seq<T>, a: U32, b1: seq<T>, b2: seq<T>)
    requires |b1| + |b2| <= 12
    requires Stored(m, m1, a, b1) && Stored(m1, m2, Add32(a, |b1|), b2)
    ensures Stored(m, m2, a, b1 + b2)
  {
    forall x | 0 <= x < TWO_32
      ensures m2[x] == if Distance(a, x) < |b1 + b2| then (b1 + b2)[Distance(a, x)] else m[x]
    {
      NextDistance(a, |b1|, x);
    }
  }

  lemma {:induction false} NextDistance(a: U32, n: nat, x: int)
    requires n <= 12 && 0 <= x < TWO_32
    ensures var d := Distance(a, x);
      Distance(Add32(a, n), x) == if d >= n then d - n else d - n + TWO_32
  {
  }

  lemma {:induction false} FarDistance(a: U32, x: int)
    requires 0 <= x < TWO_32
    ensures (a + Distance(a, x)) % TWO_32 == x
  {
  }

  /** A store that writes back what was there around the field is a store of the field. */
  lemma {:induction false} StoredField<T>(m: seq<T>, m': seq<T>, base: U32, b: seq<T>, o: nat, bytes: seq<T>)
    requires |b| <= 12 && o + |bytes| <= |b| && Stored(m, m', base, b)
    requires b[o..o + |bytes|] == bytes
    requires forall k :: 0 <= k < |b| && !(o <= k < o + |bytes|) ==> b[k] == m[Add32(base, k)]
    ensures Stored(m, m', Add32(base, o), bytes)
  {
    forall x | 0 <= x < TWO_32
      ensures m'[x] == if Distance(Add32(base, o), x) < |bytes| then bytes[Distance(Add32(base, o), x)] else m[x]
    {
      NextDistance(base, o, x);
      var d := Distance(base, x);
      FarDistance(base, x);
      if o <= d < o + |bytes| {
        assert bytes[d - o] == b[o..o + |bytes|][d - o];
      }
    }
  }

  lemma {:induction false} NoWrap(a: U32, k: nat)
    requires a + k < TWO_32
    ensures Add32(a, k) == a + k
  {
  }

  lemma {:induction false} StoredInWord<T>(m: seq<T>, m': seq<T>, base: U32, o: nat, read: seq<T>, word: seq<T>, v: seq<T>)
    requires o + |v| <= 4 && |read| == |word| == 4 && base + 4 <= |m|
    requires Stored(m, m', base, word) && read == m[base..base + 4]
    requires word == read[..o] + v + read[o + |v|..]
    ensures Stored(m, m', Add32(base, o), v)
  {
    FieldInWord(o, read, word, v);
    forall k | 0 <= k < 4 && !(o <= k < o + |v|)
      ensures word[k] == m[Add32(base, k)]
    {
      NoWrap(base, k);
    }
    StoredField(m, m', base, word, o, v);
  }

  lemma {:induction false} FieldInWord<T>(o: nat, read: seq<T>, word: seq<T>, v: seq<T>)
    requires o + |v| <= |read| && word == read[..o] + v + read[o + |v|..]
    ensures word[o..o + |v|] == v
    ensures forall k :: 0 <= k < |read| && !(o <= k < o + |v|) ==> word[k] == read[k]
  {
  }

  /** What a read finds right behind a store is not changed by the store. */
  lemma {:induction false} ReadBehind<T>(m: seq<T>, m1: seq<T>, a: U32, b: seq<T>, read: seq<T>)
    requires |b| <= 8 && |read| == 4 && Stored(m, m1, a, b) && Add32(a, |b|) % 4 == 0
    requires read == m1[Add32(a, |b|)..Add32(a, |b|) + 4]
    ensures forall k :: 0 <= k < 4 ==> read[k] == m[Add32(a, |b| + k)]
  {
    var c := Add32(a, |b|);
    forall k | 0 <= k < 4
      ensures read[k] == m[Add32(a, |b| + k)]
    {
      NoWrap(c, k);
      NextDistance(a, |b|, c + k);
      StepFurther(a, |b|, k);
    }
  }

  lemma {:induction false} StepFurther(a: U32, n: nat, k: nat)
    requires n <= 8 && k < 4 && Add32(a, n) + k < TWO_32
    ensures Add32(a, n) + k == Add32(a, n + k) && Distance(a, Add32(a, n) + k) == n + k
  {
  }

  /** The bytes around the value in the words of an unaligned store are those read. */
  lemma {:induction false} KeptAround<T>(m: seq<T>, m1: seq<T>, base: U32, o: nat, read: seq<T>, next: seq<T>,
                                         first: seq<T>, last: seq<T>, v: seq<T>, k: nat)
    requires 1 <= o < 4 && base % 4 == 0 && |m| == TWO_32 && |read| == |next| == |last| == 4
    requires |first| % 4 == 0 && 4 <= |first| <= 8 && |first| < o + |v| <= |first| + 4
    requires Stored(m, m1, base, first)
    requires read == m[base..base + 4] && Add32(base, |first|) % 4 == 0
    requires next == m1[Add32(base, |first|)..Add32(base, |first|) + 4]
    requires first == read[..o] + v[..|first| - o] && last == v[|first| - o..] + next[o + |v| - |first|..]
    requires k < |first| + 4 && !(o <= k < o + |v|)
    ensures (first + last)[k] == m[Add32(base, k)]
  {
    if k < o {
      NoWrap(base, k);
      assert (first + last)[k] == read[k];
    } else {
      ReadBehind(m, m1, base, first, next);
      TailKept(first, last, v, next, o, k);
    }
  }

  lemma {:induction false} TailKept<T>(first: seq<T>, last: seq<T>, v: seq<T>, next: seq<T>, o: nat, k: nat)
    requires |last| == |next| == 4 && |first| < o + |v| <= |first| + 4 && o <= |first|
    requires last == v[|first| - o..] + next[o + |v| - |first|..] && o + |v| <= k < |first| + 4
    ensures (first + last)[k] == next[k - |first|]
  {
  }

  lemma {:induction false} FieldAcross<T>(read: seq<T>, next: seq<T>, first: seq<T>, last: seq<T>, v: seq<T>, o: nat)
    requires o <= |read| && |read| == |next| == |last| == 4 && o < |first| < o + |v| <= |first| + 4
    requires first == read[..o] + v[..|first| - o] && last == v[|first| - o..] + next[o + |v| - |first|..]
    ensures (first + last)[o..o + |v|] == v
  {
  }

  /** Words that keep o bytes below the value and the rest of the last word above it store
      the value o bytes further on. */
  lemma {:induction false} StoredAcross<T>(m: seq<T>, m1: seq<T>, m2: seq<T>, base: U32, o: nat,
                                           read: seq<T>, next: seq<T>, first: seq<T>, last: seq<T>, v: seq<T>)
    requires 1 <= o < 4 && base % 4 == 0 && |m| == TWO_32 && |read| == |next| == |last| == 4
    requires |first| % 4 == 0 && 4 <= |first| <= 8 && |first| < o + |v| <= |first| + 4
    requires Stored(m, m1, base, first) && Stored(m1, m2, Add32(base, |first|), last)
    requires read == m[base..base + 4] && Add32(base, |first|) % 4 == 0
    requires next == m1[Add32(base, |first|)..Add32(base, |first|) + 4]
    requires first == read[..o] + v[..|first| - o] && last == v[|first| - o..] + next[o + |v| - |first|..]
    ensures Stored(m, m2, Add32(base, o), v)
  {
    var b := first + last;
    forall k | 0 <= k < |b| && !(o <= k < o + |v|)
      ensures b[k] == m[Add32(base, k)]
    {
      KeptAround(m, m1, base, o, read, next, first, last, v, k);
    }
    StoredBoth(m, m1, m2, base, first, last);
    FieldAcross(read, next, first, last, v, o);
    StoredField(m, m2, base, b, o, v);
  }

  lemma {:induction false} AlignedStep(a: U32, n: nat)
    requires a % 4 == 0 && n % 4 == 0 && n <= 8
    ensures Add32(a, n) % 4 == 0
  {
    if a + n < TWO_32 {
      NoWrap(a, n);
    } else {
      assert Add32(a, n) == a + n - TWO_32;
    }
  }

  class PciBus {
    const mem: array<bv8>

    ghost predicate Valid() {
      mem.Length == TWO_32
    }

    constructor (mem: array<bv8>)
      requires mem.Length == TWO_32
      ensures Valid() && this.mem == mem
    {
      this.mem := mem;
    }

    /** pci_read32 at an aligned address. */
    method ReadWord(address: U32) returns (w: bv32)
      requires Valid() && address % 4 == 0
      ensures Bytes(w) == mem[..][address..address + 4]
    {
      w := Pack(mem[address], mem[address + 1], mem[address + 2], mem[address + 3]);
      BytesOfPack(mem[address], mem[address + 1], mem[address + 2], mem[address + 3]);
    }

    /** write_word, which works at aligned addresses only. */
    method WriteWord(address: U32, value: bv32)
      requires Valid() && address % 4 == 0
      modifies mem
      ensures Stored(old(mem[..]), mem[..], address, Bytes(value))
    {
      mem[address], mem[address + 1] := Bytes(value)[0], Bytes(value)[1];
      mem[address + 2], mem[address + 3] := Bytes(value)[2], Bytes(value)[3];
      forall x | 0 <= x < TWO_32
        ensures mem[x] == if Distance(address, x) < 4 then Bytes(value)[Distance(address, x)] else old(mem[x])
      {
        NearDistance(address, x);
      }
    }

    method PciWrite8(address: U32, value: bv8)
      requires Valid()
      modifies mem
      ensures Stored(old(mem[..]), mem[..], address, [value])
    {
      var offset := address % 4;
      NoWrap(address - offset, offset);
      WriteInside8(address - offset, value, offset);
    }

    /** The read and the store of pci_write8, in the word at base. */
    method WriteInside8(base: U32, value: bv8, offset: nat)
      requires Valid() && base % 4 == 0 && offset < 4
      modifies mem
      ensures Stored(old(mem[..]), mem[..], Add32(base, offset), [value])
    {
      var wordRead := ReadWord(base);
      var word := Insert8(wordRead, value, offset);
      WriteWord(base, word);
      StoredInWord(old(mem[..]), mem[..], base, offset, Bytes(wordRead), Bytes(word), [value]);
    }

    method PciWrite16(address: U32, value: bv16)
      requires Valid()
      modifies mem
      ensures Stored(old(mem[..]), mem[..], address, Bytes2(value))
    {
      var offset := address % 4;
      if offset != 3 {
        NoWrap(address - offset, offset);
        WriteInside16(address - offset, value, offset);
      } else {
        WriteAcross16(address, value);
      }
    }

    /** The branch of pci_write16 that writes inside the word at base. */
    method WriteInside16(base: U32, value: bv16, offset: nat)
      requires Valid() && base % 4 == 0 && offset < 3
      modifies mem
      ensures Stored(old(mem[..]), mem[..], Add32(base, offset), Bytes2(value))
    {
      var wordRead := ReadWord(base);
      var word := Insert16(wordRead, value, offset);
      WriteWord(base, word);
      StoredInWord(old(mem[..]), mem[..], base, offset, Bytes(wordRead), Bytes(word), Bytes2(value));
    }

    /** The branch of pci_write16 that writes between two words. */
    method WriteAcross16(address: U32, value: bv16)
      requires Valid() && address % 4 == 3
      modifies mem
      ensures Stored(old(mem[..]), mem[..], address, Bytes2(value))
    {
      var second := SecondWord(address, 3);
      ghost var read := WriteLower16(address - 3, value);
      ghost var between, lower := mem[..], read[..3] + Bytes2(value)[..1];
      ghost var next := WriteUpper16(second, value);
      ghost var upper := Bytes2(value)[1..] + next[1..];
      StoredAcrossHalf(old(mem[..]), between, mem[..], address - 3, second, address, read, next, lower, upper, Bytes2(value));
    }

    method WriteLower16(a: U32, value: bv16) returns (ghost read: seq<bv8>)
      requires Valid() && a % 4 == 0
      modifies mem
      ensures read == old(mem[..])[a..a + 4]
      ensures Stored(old(mem[..]), mem[..], a, read[..3] + Bytes2(value)[..1])
    {
      var lowerRead := ReadWord(a);
      read := mem[..][a..a + 4];
      var lower := Lower16(lowerRead, value);
      WriteWord(a, lower);
    }

    method WriteUpper16(a: U32, value: bv16) returns (ghost read: seq<bv8>)
      requires Valid() && a % 4 == 0
      modifies mem
      ensures read == old(mem[..])[a..a + 4]
      ensures Stored(old(mem[..]), mem[..], a, Bytes2(value)[1..] + read[1..])
    {
      var upperRead := ReadWord(a);
      read := mem[..][a..a + 4];
      var upper := Upper16(upperRead, value);
      WriteWord(a, upper);
    }

    method PciWrite32(address: U32, value: bv32)
      requires Valid()
      modifies mem
      ensures Stored(old(mem[..]), mem[..], address, Bytes(value))
    {
      var lowerOffset := address % 4;
      if lowerOffset != 0 {
        WriteAcross32(address, address - lowerOffset, value, lowerOffset);
      } else {
        WriteWord(address, value);
      }
    }

    /** The branch of pci_write32 that writes between two words. */
    method WriteAcross32(address: U32, ghost base: U32, value: bv32, lowerOffset: nat)
      requires Valid() && base % 4 == 0 && 1 <= lowerOffset < 4 && base + lowerOffset == address
      modifies mem
      ensures Stored(old(mem[..]), mem[..], address, Bytes(value))
    {
      var second := SecondWord(address, lowerOffset);
      ghost var read := WriteLower32(address - lowerOffset, value, lowerOffset);
      ghost var between, lower := mem[..], read[..lowerOffset] + Bytes(value)[..4 - lowerOffset];
      ghost var next := WriteUpper32(second, value, lowerOffset);
      ghost var upper := Bytes(value)[4 - lowerOffset..] + next[lowerOffset..];
      StoredAcrossTwo(old(mem[..]), between, mem[..], base, second, address, lowerOffset, read, next, lower, upper,
                      Bytes(value));
    }

    /** `address + upper_offset`. */
    static method SecondWord(address: U32, lowerOffset: nat) returns (a: U32)
      requires 1 <= lowerOffset < 4 && lowerOffset <= address && address % 4 == lowerOffset
      ensures a == Add32(address - lowerOffset, 4) && a % 4 == 0
    {
      var upperOffset := 4 - lowerOffset;
      Advance(address, lowerOffset);
      AlignedStep(address - lowerOffset, 4);
      a := Add32(address, upperOffset);
    }

    method WriteLower32(a: U32, value: bv32, o: nat) returns (ghost read: seq<bv8>)
      requires Valid() && a % 4 == 0 && 1 <= o < 4
      modifies mem
      ensures read == old(mem[..])[a..a + 4]
      ensures Stored(old(mem[..]), mem[..], a, read[..o] + Bytes(value)[..4 - o])
    {
      var lowerRead := ReadWord(a);
      read := mem[..][a..a + 4];
      var lower := LowerWord(lowerRead, value, o);
      WriteWord(a, lower);
    }

    method WriteUpper32(a: U32, value: bv32, o: nat) returns (ghost read: seq<bv8>)
      requires Valid() && a % 4 == 0 && 1 <= o < 4
      modifies mem
      ensures read == old(mem[..])[a..a + 4]
      ensures Stored(old(mem[..]), mem[..], a, Bytes(value)[4 - o..] + read[o..])
    {
      var upperRead := ReadWord(a);
      read := mem[..][a..a + 4];
      var upper := UpperWord(upperRead, value, o);
      WriteWord(a, upper);
    }

    method PciWrite64(address: U32, value: bv64)
      requires Valid()
      modifies mem
      ensures Stored(old(mem[..]), mem[..], address, Bytes8(value))
    {
      var lowerOffset := address % 4;
      if lowerOffset != 0 {
        WriteAcross64(address, address - lowerOffset, value, lowerOffset);
      } else {
        WriteWord(address, Low32(value));
        ghost var between := mem[..];
        AlignedStep(address, 4);
        WriteWord(Add32(address, 4), High32(value));
        StoredBoth(old(mem[..]), between, mem[..], address, Bytes(Low32(value)), Bytes(High32(value)));
      }
    }

    /** The branch of pci_write64 that writes between three words. */
    method WriteAcross64(address: U32, ghost base: U32, value: bv64, lowerOffset: nat)
      requires Valid() && base % 4 == 0 && 1 <= lowerOffset < 4 && base + lowerOffset == address
      modifies mem
      ensures Stored(old(mem[..]), mem[..], address, Bytes8(value))
    {
      var third := ThirdWord(address, lowerOffset);
      ghost var read, first := WriteFirst64(address, base, value, lowerOffset);
      ghost var between := mem[..];
      ghost var next := WriteUpper64(third, value, lowerOffset);
      ghost var upper := Bytes8(value)[8 - lowerOffset..] + next[lowerOffset..];
      StoredAcrossThree(old(mem[..]), between, mem[..], base, third, address, lowerOffset, read, next, first, upper,
                        Bytes8(value));
    }

    /** `address + 4 + upper_offset`. */
    static method ThirdWord(address: U32, lowerOffset: nat) returns (a: U32)
      requires 1 <= lowerOffset < 4 && lowerOffset <= address && address % 4 == lowerOffset
      ensures a == Add32(address - lowerOffset, 8) && a % 4 == 0
    {
      var upperOffset := 4 - lowerOffset;
      Advance(address, lowerOffset);
      AlignedStep(address - lowerOffset, 8);
      a := Add32(Add32(address, 4), upperOffset);
    }

    /** The first two of the three words. */
    method WriteFirst64(address: U32, ghost base: U32, value: bv64, lowerOffset: nat)
      returns (ghost read: seq<bv8>, ghost first: seq<bv8>)
      requires Valid() && base % 4 == 0 && 1 <= lowerOffset < 4 && base + lowerOffset == address
      modifies mem
      ensures read == old(mem[..])[base..base + 4]
      ensures first == read[..lowerOffset] + Bytes8(value)[..8 - lowerOffset]
      ensures Stored(old(mem[..]), mem[..], base, first)
    {
      var second := SecondWord(address, lowerOffset);
      read := WriteLower64(address - lowerOffset, value, lowerOffset);
      ghost var between, lower := mem[..], read[..lowerOffset] + Bytes8(value)[..4 - lowerOffset];
      WriteMiddle64(second, value, lowerOffset);
      ghost var middle := Bytes8(value)[4 - lowerOffset..8 - lowerOffset];
      StoredBoth(old(mem[..]), between, mem[..], base, lower, middle);
      first := read[..lowerOffset] + Bytes8(value)[..8 - lowerOffset];
      assert first == lower + middle;
    }

    method WriteLower64(a: U32, value: bv64, o: nat) returns (ghost read: seq<bv8>)
      requires Valid() && a % 4 == 0 && 1 <= o < 4
      modifies mem
      ensures read == old(mem[..])[a..a + 4]
      ensures Stored(old(mem[..]), mem[..], a, read[..o] + Bytes8(value)[..4 - o])
    {
      var lowerRead := ReadWord(a);
      read := mem[..][a..a + 4];
      var lower := LowerWord64(lowerRead, value, o);
      WriteWord(a, lower);
    }

    method WriteMiddle64(a: U32, value: bv64, o: nat)
      requires Valid() && a % 4 == 0 && 1 <= o < 4
      modifies mem
      ensures Stored(old(mem[..]), mem[..], a, Bytes8(value)[4 - o..8 - o])
    {
      var middle := MiddleWord64(value, o);
      WriteWord(a, middle);
    }

    method WriteUpper64(a: U32, value: bv64, o: nat) returns (ghost read: seq<bv8>)
      requires Valid() && a % 4 == 0 && 1 <= o < 4
      modifies mem
      ensures read == old(mem[..])[a..a + 4]
      ensures Stored(old(mem[..]), mem[..], a, Bytes8(value)[8 - o..] + read[o..])
    {
      var upperRead := ReadWord(a);
      read := mem[..][a..a + 4];
      var upper := UpperWord64(upperRead, value, o);
      WriteWord(a, upper);
    }
  }

  lemma {:induction false} StoredAcrossTwo<T>(m: seq<T>, m1: seq<T>, m2: seq<T>, base: U32, second: U32, address: U32,
                                              o: nat, read: seq<T>, next: seq<T>, lower: seq<T>, upper: seq<T>, v: seq<T>)
    requires 1 <= o < 4 && base % 4 == 0 && |m| == TWO_32 && 4 < o + |v| <= 8
    requires address == base + o && second == Add32(base, 4) && second % 4 == 0
    requires |read| == |next| == |lower| == |upper| == 4
    requires Stored(m, m1, base, lower) && Stored(m1, m2, second, upper)
    requires read == m[base..base + 4] && next == m1[second..second + 4]
    requires lower == read[..o] + v[..4 - o] && upper == v[4 - o..] + next[o + |v| - 4..]
    ensures Stored(m, m2, address, v)
  {
    StoredAcross(m, m1, m2, base, o, read, next, lower, upper, v);
    NoWrap(base, o);
  }

  lemma {:induction false} StoredAcrossHalf<T>(m: seq<T>, m1: seq<T>, m2: seq<T>, base: U32, second: U32, address: U32,
                                               read: seq<T>, next: seq<T>, lower: seq<T>, upper: seq<T>, v: seq<T>)
    requires base % 4 == 0 && |m| == TWO_32 && |v| == 2
    requires address == base + 3 && second == Add32(base, 4) && second % 4 == 0
    requires |read| == |next| == |lower| == |upper| == 4
    requires Stored(m, m1, base, lower) && Stored(m1, m2, second, upper)
    requires read == m[base..base + 4] && next == m1[second..second + 4]
    requires lower == read[..3] + v[..1] && upper == v[1..] + next[1..]
    ensures Stored(m, m2, address, v)
  {
    StoredAcrossTwo(m, m1, m2, base, second, address, 3, read, next, lower, upper, v);
  }

  lemma {:induction false} StoredAcrossThree<T>(m: seq<T>, m1: seq<T>, m2: seq<T>, base: U32, third: U32, address: U32,
                                                o: nat, read: seq<T>, next: seq<T>, first: seq<T>, upper: seq<T>, v: seq<T>)
    requires 1 <= o < 4 && base % 4 == 0 && |m| == TWO_32 && |v| == 8
    requires address == base + o && third == Add32(base, 8) && third % 4 == 0
    requires |read| == |next| == |upper| == 4 && |first| == 8
    requires Stored(m, m1, base, first) && Stored(m1, m2, third, upper)
    requires read == m[base..base + 4] && next == m1[third..third + 4]
    requires first == read[..o] + v[..8 - o] && upper == v[8 - o..] + next[o..]
    ensures Stored(m, m2, address, v)
  {
    StoredAcross(m, m1, m2, base, o, read, next, first, upper, v);
    NoWrap(base, o);
  }

  /** The next words behind an unaligned address. */
  lemma {:induction false} Advance(a: U32, o: nat)
    requires 1 <= o < 4 && o <= a && a % 4 == o
    ensures Add32(a, 4 - o) == Add32(a - o, 4) && Add32(a - o, o) == a
    ensures Add32(Add32(a, 4), 4 - o) == Add32(a - o, 8)
  {
    NoWrap(a - o, o);
  }

  lemma {:induction false} NearDistance(a: U32, x: int)
    requires 0 <= x < TWO_32 && a % 4 == 0
    ensures Distance(a, x) < 4 <==> a <= x < a + 4
    ensures a <= x < a + 4 ==> Distance(a, x) == x - a
  {
  }
}

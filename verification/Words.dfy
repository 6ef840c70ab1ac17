/** Machine words: the fixed-width unsigned integers the kernel computes with, the
    bitwise "and" on them, and little-endian 32-bit words inside a byte memory. */
module Words {

  const TWO_16 := 0x1_0000
  const TWO_32 := 0x1_0000_0000
  const TWO_64 := 0x1_0000_0000_0000_0000

  type Byte = x: int | 0 <= x < 0x100
  type U16 = x: int | 0 <= x < 0x1_0000
  type U32 = x: int | 0 <= x < 0x1_0000_0000
  type U64 = x: int | 0 <= x < 0x1_0000_0000_0000_0000

  /** Unsigned 32-bit addition, with the wrap-around of the C operator. */
  function Add32(a: U32, b: U32): U32 {
    (a + b) % TWO_32
  }

  /** The C operator `&` on unsigned values, bit by bit. */
  function BitAnd(x: nat, y: nat): nat {
    if x == 0 || y == 0 then 0
    else (if x % 2 == 1 && y % 2 == 1 then 1 else 0) + 2 * BitAnd(x / 2, y / 2)
  }

  function Pow2(n: nat): (p: nat)
    ensures p > 0
  {
    if n == 0 then 1 else 2 * Pow2(n - 1)
  }

  lemma {:induction false} AndAllOnes(x: nat, n: nat)
    requires x < Pow2(n)
    ensures BitAnd(x, Pow2(n) - 1) == x
  {
    if n == 0 || x == 0 {
    } else {
      AndAllOnes(x / 2, n - 1);
    }
  }

  lemma {:induction false} AndEven(x: nat, half: nat)
    ensures BitAnd(x, 2 * half) == 2 * BitAnd(x / 2, half)
  {
  }

  lemma {:induction false} AndFourfold(x: nat, mask: nat)
    ensures BitAnd(x, 4 * mask) == 4 * BitAnd(x / 4, mask)
  {
    AndEven(x, 2 * mask);
    AndEven(x / 2, mask);
    assert x / 2 / 2 == x / 4;
  }

  lemma {:induction false} AndSixteenfold(x: nat, mask: nat)
    ensures BitAnd(x, 16 * mask) == 16 * BitAnd(x / 16, mask)
  {
    AndFourfold(x, 4 * mask);
    AndFourfold(x / 4, mask);
    assert x / 4 / 4 == x / 16;
  }

  lemma {:induction false} Pow2At28()
    ensures Pow2(28) == 0x1000_0000
  {
    assert Pow2(8) == 0x100;
    assert Pow2(16) == 0x1_0000;
    assert Pow2(24) == 0x100_0000;
  }

  /** Clearing the four low bits of a 32-bit word rounds down to a multiple of 16. */
  lemma {:induction false} AndMinus16(x: U32)
    ensures BitAnd(x, 0xFFFF_FFF0) == x - x % 16
  {
    var ones := Pow2(28) - 1;
    Pow2At28();
    AndAllOnes(x / 16, 28);
    AndSixteenfold(x, ones);
  }

  /** The little-endian 32-bit word at address a. */
  function Word(m: seq<Byte>, a: nat): U32
    requires a + 4 <= |m|
  {
    (m[a] as int) + 0x100 * (m[a + 1] as int) + 0x1_0000 * (m[a + 2] as int) + 0x100_0000 * (m[a + 3] as int)
  }

  /** The memory after a 32-bit store of w at address a. */
  function PutWord(m: seq<Byte>, a: nat, w: U32): (m': seq<Byte>)
    requires a + 4 <= |m|
    ensures |m'| == |m|
    ensures forall b :: 0 <= b < |m| && !(a <= b < a + 4) ==> m'[b] == m[b]
  {
    m[a := w % 0x100][a + 1 := w / 0x100 % 0x100][a + 2 := w / 0x1_0000 % 0x100][a + 3 := w / 0x100_0000]
  }

  lemma {:induction false} WordOfPutWord(m: seq<Byte>, a: nat, w: U32)
    requires a + 4 <= |m|
    ensures Word(PutWord(m, a, w), a) == w
  {
    BytesOfWord(w);
  }

  lemma {:induction false} BytesOfWord(w: U32)
    ensures w % 0x100 + 0x100 * (w / 0x100 % 0x100) + 0x1_0000 * (w / 0x1_0000 % 0x100)
            + 0x100_0000 * (w / 0x100_0000) == w
  {
    var h := w / 0x100;
    var k := w / 0x1_0000;
    assert k == h / 0x100 && w / 0x100_0000 == k / 0x100;
    assert w == w % 0x100 + 0x100 * h;
    assert h == h % 0x100 + 0x100 * k;
    assert k == k % 0x100 + 0x100 * (k / 0x100);
  }

  lemma {:induction false} WordElsewhere(m: seq<Byte>, a: nat, w: U32, b: nat)
    requires a + 4 <= |m| && b + 4 <= |m|
    requires b + 4 <= a || a + 4 <= b
    ensures Word(PutWord(m, a, w), b) == Word(m, b)
  {
  }
}

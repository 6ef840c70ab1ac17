/** Byte order: the conversions of network_io.c, what they do to a value in the memory of
    a processor of either order, and their round trips. */
module ByteOrder {
  import opened Words
  import opened Collections

  const MAC_LENGTH := 6

  /** A `mac_address_t`: on the wire, or in host order. */
  type Mac = m: seq<Byte> | |m| == 6 witness [0, 0, 0, 0, 0, 0]

  const NULL_MAC: Mac := [0, 0, 0, 0, 0, 0]
  const BROADCAST_MAC: Mac := [0xff, 0xff, 0xff, 0xff, 0xff, 0xff]

  /** The value of two or four wire bytes, most significant first. */
  function Wire16(b: seq<Byte>): U16
    requires |b| == 2
  {
    0x100 * (b[0] as int) + (b[1] as int)
  }

  function Wire32(b: seq<Byte>): U32
    requires |b| == 4
  {
    0x100_0000 * (b[0] as int) + 0x1_0000 * (b[1] as int) + 0x100 * (b[2] as int) + (b[3] as int)
  }

  function Bytes16(x: U16): seq<Byte> {
    [x / 0x100, x % 0x100]
  }

  function Bytes32(x: U32): seq<Byte> {
    [x / 0x100_0000, x / 0x1_0000 % 0x100, x / 0x100 % 0x100, x % 0x100]
  }

  /** What a processor reads from, and writes to, memory as a 16- or 32-bit value. */
  function Load16(b: seq<Byte>, big: bool): U16
    requires |b| == 2
  {
    Wire16(if big then b else Reverse(b))
  }

  function Load32(b: seq<Byte>, big: bool): U32
    requires |b| == 4
  {
    Wire32(if big then b else Reverse(b))
  }

  function Store16(x: U16, big: bool): seq<Byte> {
    if big then Bytes16(x) else Reverse(Bytes16(x))
  }

  function Store32(x: U32, big: bool): seq<Byte> {
    if big then Bytes32(x) else Reverse(Bytes32(x))
  }

  /** `__builtin_bswap16` and `__builtin_bswap32`. */
  function Bswap16(x: U16): U16 {
    x % 0x100 * 0x100 + x / 0x100
  }

  function Bswap32(x: U32): U32 {
    x % 0x100 * 0x100_0000 + x / 0x100 % 0x100 * 0x1_0000 + x / 0x1_0000 % 0x100 * 0x100 + x / 0x100_0000
  }

  function Htons(x: U16, big: bool): U16 { if big then x else Bswap16(x) }

  function Htonl(x: U32, big: bool): U32 { if big then x else Bswap32(x) }

  function Ntohs(x: U16, big: bool): U16 { if big then x else Bswap16(x) }

  function Ntohl(x: U32, big: bool): U32 { if big then x else Bswap32(x) }

  /** hton_mac and ntoh_mac, as functions: their bodies are the same. */
  function HtonMac(m: Mac, big: bool): Mac { if big then m else Reverse(m) }

  function NtohMac(m: Mac, big: bool): Mac { HtonMac(m, big) }

  /** The loop of hton_mac, which is also that of ntoh_mac. */
  method ConvertMac(mac: Mac, big: bool) returns (r: Mac)
    ensures r == HtonMac(mac, big) == NtohMac(mac, big)
    ensures forall i :: 0 <= i < 6 ==> r[i] == if big then mac[i] else mac[5 - i]
  {
    if big {
      return mac;
    }
    var address := new Byte[6](_ => 0);
    for i := 0 to 6
      invariant forall k :: 0 <= k < i ==> address[5 - k] == mac[k]
    {
      address[5 - i] := mac[i];
    }
    r := address[..];
    assert r == Reverse(mac);
  }

  method MacAddressEqual(mac1: Mac, mac2: Mac) returns (equal: bool)
    ensures equal <==> mac1 == mac2
  {
    for i := 0 to MAC_LENGTH
      invariant mac1[..i] == mac2[..i]
    {
      if mac1[i] != mac2[i] {
        return false;
      }
    }
    return true;
  }

  // ------------------------------------------------------------ round trips

  lemma {:induction false} WireOfBytes32(x: U32)
    ensures Wire32(Bytes32(x)) == x
  {
    BytesOfWord(x);
  }

  /** The bytes of a value spell it most significant first. */
  lemma {:induction false} MostSignificantFirst(x: U32)
    ensures var b := Bytes32(x);
      && |b| == 4
      && x == (b[0] as int) * 0x100_0000 + (b[1] as int) * 0x1_0000 + (b[2] as int) * 0x100 + (b[3] as int)
  {
    WireOfBytes32(x);
  }

  lemma {:induction false} BytesOfWire32(b: seq<Byte>)
    requires |b| == 4
    ensures Bytes32(Wire32(b)) == b
  {
    var x := Wire32(b);
    assert x / 0x100_0000 == b[0] as int;
    assert x / 0x1_0000 == 0x100 * (b[0] as int) + (b[1] as int);
    assert x / 0x100 == 0x1_0000 * (b[0] as int) + 0x100 * (b[1] as int) + (b[2] as int);
  }

  lemma {:induction false} BytesOfWire16(b: seq<Byte>)
    requires |b| == 2
    ensures Bytes16(Wire16(b)) == b
  {
  }

  /** Swapping a value is reversing its bytes. */
  lemma {:induction false} SwapIsReverse32(b: seq<Byte>)
    requires |b| == 4
    ensures Bswap32(Wire32(b)) == Wire32(Reverse(b))
  {
    BytesOfWire32(b);
    var x := Wire32(b);
    assert Bytes32(x)[1] == b[1] && Bytes32(x)[2] == b[2];
  }

  lemma {:induction false} SwapIsReverse16(b: seq<Byte>)
    requires |b| == 2
    ensures Bswap16(Wire16(b)) == Wire16(Reverse(b))
  {
    BytesOfWire16(b);
  }

  lemma {:induction false} ReverseTwice(b: seq<Byte>)
    ensures Reverse(Reverse(b)) == b
  {
  }

  /** On a little-endian processor htonl and htons turn the bytes of a value around; on the other
      they leave it alone. */
  lemma {:induction false} TurnedAround32(x: U32, big: bool)
    ensures var b := Bytes32(x); Bytes32(Htonl(x, big)) == if big then b else [b[3], b[2], b[1], b[0]]
  {
    WireOfBytes32(x);
    SwapIsReverse32(Bytes32(x));
    BytesOfWire32(Reverse(Bytes32(x)));
  }

  lemma {:induction false} TurnedAround16(x: U16, big: bool)
    ensures var b := Bytes16(x); Bytes16(Htons(x, big)) == if big then b else [b[1], b[0]]
  {
    SwapIsReverse16(Bytes16(x));
    BytesOfWire16(Reverse(Bytes16(x)));
  }

  /** Whatever the processor's order, ntohl of a field is the number its wire bytes spell. */
  lemma {:induction false} NtohlOfField(b: seq<Byte>, big: bool)
    requires |b| == 4
    ensures Ntohl(Load32(b, big), big) == Wire32(b)
  {
    SwapIsReverse32(Reverse(b));
    ReverseTwice(b);
  }

  lemma {:induction false} NtohsOfField(b: seq<Byte>, big: bool)
    requires |b| == 2
    ensures Ntohs(Load16(b, big), big) == Wire16(b)
  {
    SwapIsReverse16(Reverse(b));
    ReverseTwice(b);
  }

  /** Storing htonl of a value puts its bytes on the wire most significant first. */
  lemma {:induction false} FieldOfHtonl(x: U32, big: bool)
    ensures Store32(Htonl(x, big), big) == Bytes32(x)
  {
    WireOfBytes32(x);
    SwapIsReverse32(Bytes32(x));
    BytesOfWire32(Reverse(Bytes32(x)));
    ReverseTwice(Bytes32(x));
  }

  lemma {:induction false} FieldOfHtons(x: U16, big: bool)
    ensures Store16(Htons(x, big), big) == Bytes16(x)
  {
    SwapIsReverse16(Bytes16(x));
    BytesOfWire16(Reverse(Bytes16(x)));
    ReverseTwice(Bytes16(x));
  }

  lemma {:induction false} SwapTwice32(x: U32)
    ensures Bswap32(Bswap32(x)) == x
  {
    var b := Bytes32(x);
    WireOfBytes32(x);
    SwapIsReverse32(b);
    SwapIsReverse32(Reverse(b));
    ReverseTwice(b);
  }

  /** The conversions undo each other. */
  lemma {:induction false} RoundTrips32(x: U32, big: bool)
    ensures Ntohl(Htonl(x, big), big) == x && Htonl(Ntohl(x, big), big) == x
  {
    if !big {
      SwapTwice32(x);
    }
  }

  lemma {:induction false} RoundTrips16(x: U16, big: bool)
    ensures Ntohs(Htons(x, big), big) == x && Htons(Ntohs(x, big), big) == x
  {
    assert x == x / 0x100 * 0x100 + x % 0x100;
    assert Bswap16(x) / 0x100 == x % 0x100 && Bswap16(x) % 0x100 == x / 0x100;
  }

  lemma {:induction false} RoundTripsMac(m: Mac, big: bool)
    ensures NtohMac(HtonMac(m, big), big) == m && HtonMac(NtohMac(m, big), big) == m
  {
    ReverseTwice(m);
  }
}

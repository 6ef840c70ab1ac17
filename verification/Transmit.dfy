/** The transmit side of the e1000 driver: a ring of eight descriptors, the card that works
    through it on its own, and e1000_send_packet, which waits for the card. */
module Transmit {
  import opened Words
  import opened ByteOrder

  const NUM_TX_DESC := 8
  const CMD_EOP: Byte := 1
  const CMD_IFCS: Byte := 2
  const CMD_RS: Byte := 8
  const NO_CARD: U32 := 0xFFFF_FFFF

  datatype TxDesc = TxDesc(addr: U64, length: U16, cmd: Byte, status: Byte)

  /** The descriptor e1000_send_packet writes. */
  function Filled(addr: U32, length: U16): TxDesc {
    TxDesc(addr, length, CMD_EOP + CMD_IFCS + CMD_RS, 0)
  }

  /** What the card puts on the wire for a buffer: an empty descriptor transmits nothing. */
  function Frames(bytes: seq<Byte>): seq<seq<Byte>> {
    if bytes == [] then [] else [bytes]
  }

  class TxCard {
    const mem: array<Byte>
    const present: bool      // e1000->pci_device is set
    const mac: Mac
    const descs: array<TxDesc>
    var txCur: nat
    var head: nat
    var tail: nat
    var fetched: seq<Byte>   // what the card has read of the buffer so far
    var packet: seq<Byte>    // the packet put together from descriptors before the end of packet
    var wire: seq<seq<Byte>> // the frames that got out with a check sequence

    ghost predicate Valid()
      reads this
    {
      && mem.Length == TWO_32 && descs.Length == NUM_TX_DESC
      && txCur < NUM_TX_DESC && head < NUM_TX_DESC && tail < NUM_TX_DESC
    }

    /** The card owns no descriptor. */
    ghost predicate Idle()
      reads this
    {
      Valid() && head == tail == txCur && fetched == [] && packet == []
    }

    /** init_transmit_descriptors. */
    constructor (mem: array<Byte>, present: bool, mac: Mac)
      requires mem.Length == TWO_32
      ensures Idle() && this.mem == mem && this.present == present && this.mac == mac && wire == []
      ensures fresh(descs)
    {
      this.mem, this.present, this.mac := mem, present, mac;
      descs := new TxDesc[NUM_TX_DESC](_ => TxDesc(0, 0, 0, 0));
      txCur, head, tail, fetched, packet, wire := 0, 0, 0, [], [], [];
    }

    /** One descriptor is with the card: it is fetching the buffer from memory. */
    ghost predicate Working(p: U32, len: U16)
      reads this, mem, descs
    {
      && Valid() && p + len <= TWO_32
      && tail == txCur == (head + 1) % NUM_TX_DESC
      && descs[head] == Filled(p, len)
      && |fetched| <= len && fetched == mem[p..p + |fetched|] && packet == []
    }

    /** A step of the card: it fetches one more byte of the buffer. Or, once it has them all, it
        adds them to the packet; at the end of a packet (bit 0 of the command) it transmits that,
        which no receiver takes without a check sequence (bit 1); it reports the descriptor done
        if asked to (bit 3), and moves on. */
    method CardStep(ghost p: U32, ghost len: U16)
      requires Working(p, len)
      modifies this`head, this`fetched, this`packet, this`wire, descs
      ensures old(|fetched|) < len ==>
                Working(p, len) && |fetched| == old(|fetched|) + 1 && head == old(head) && wire == old(wire)
      ensures old(|fetched|) == len ==>
                && Idle() && descs[old(head)].status != 0 && wire == old(wire) + Frames(mem[p..p + len])
    {
      var d := descs[head];
      if |fetched| < d.length {
        fetched := fetched + [mem[d.addr + |fetched|]];
      } else {
        assert [] + fetched == fetched && fetched == mem[p..p + len];
        packet, fetched := packet + fetched, [];
        if d.cmd % 2 == 1 {
          wire := wire + if d.cmd / 2 % 2 == 1 then Frames(packet) else [];
          packet := [];
        }
        descs[head] := if d.cmd / 8 % 2 == 1 then d.(status := 1) else d;
        head := (head + 1) % NUM_TX_DESC;
      }
    }

    /** e1000_send_packet. Between two polls of the status the card makes a step or does
        nothing; it does nothing for at most `patience` polls. */
    method SendPacket(p: U32, len: U16, patience: nat) returns (r: U32)
      requires Idle() && p + len <= TWO_32
      modifies this, descs
      ensures Idle()
      ensures !present ==> r == 0xFFFF_FFFF && wire == old(wire)
      ensures present ==> r == 0 && wire == old(wire) + Frames(mem[p..p + len])
    {
      if !present {
        return NO_CARD;
      }
      var curr := txCur;
      descs[curr] := Filled(p, len);
      txCur := (txCur + 1) % NUM_TX_DESC;
      tail := txCur;
      var idle: nat := patience;
      while descs[curr].status == 0
        invariant Valid() && curr < NUM_TX_DESC && |fetched| <= len
        invariant descs[curr].status == 0 ==> Working(p, len) && head == curr && wire == old(wire)
        invariant descs[curr].status != 0 ==> Idle() && wire == old(wire) + Frames(mem[p..p + len])
        decreases idle + (if descs[curr].status == 0 then 1 + len - |fetched| else 0)
      {
        var busy: bool := *;
        if busy || idle == 0 {
          CardStep(p, len);
        } else {
          idle := idle - 1;
        }
      }
      r := 0;
    }
  }
}

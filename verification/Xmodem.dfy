/** The packet level of the XMODEM receiver in bootloader/rp2350/flash_program.c, and its
    composition with a stop-and-wait sender (sections 7 and 8 of the XMODEM/YMODEM Protocol
    Reference). */
module Xmodem {
  import opened Machine
  import Ccitt

  const SOH: byte := 0x01
  const STX: byte := 0x02
  const EOT: byte := 0x04
  const ACK: byte := 0x06
  const NAK: byte := 0x15
  const CAN: byte := 0x18
  const MAXRETRANS: nat := 25

  /** The plain checksum, an unsigned char. */
  function Sum8(bs: seq<byte>): byte {
    if bs == [] then 0 else (Sum8(bs[..|bs| - 1]) + bs[|bs| - 1]) % 256
  }

  /** A packet holds one start byte, two numbers, the block and one or two check bytes. */
  function TrailerSize(crc: bool): nat {
    if crc then 2 else 1
  }

  function BlockSize(start: byte): nat {
    if start == SOH then 128 else 1024
  }

  predicate IsPacket(crc: bool, f: seq<byte>) {
    f != [] && (f[0] == SOH || f[0] == STX) && |f| == 3 + BlockSize(f[0]) + TrailerSize(crc)
  }

  function Block(crc: bool, f: seq<byte>): seq<byte>
    requires IsPacket(crc, f)
  {
    f[3..3 + BlockSize(f[0])]
  }

  function BigEndian(high: int, low: int): int {
    high * 256 + low
  }

  /** check() */
  predicate Checks(crc: bool, block: seq<byte>, trailer: seq<byte>)
    requires |trailer| == TrailerSize(crc)
  {
    if crc then Ccitt.Crc16(block) == BigEndian(trailer[0], trailer[1]) else Sum8(block) == trailer[0]
  }

  /** The sum of all bytes. */
  function Total(bs: seq<byte>): nat {
    if bs == [] then 0 else bs[0] + Total(bs[1..])
  }

  lemma {:induction false} TotalLast(bs: seq<byte>, b: byte)
    ensures Total(bs + [b]) == Total(bs) + b
  {
    if bs != [] {
      TotalLast(bs[1..], b);
      assert (bs + [b])[1..] == bs[1..] + [b];
    } else {
      assert ([b])[1..] == [] && bs + [b] == [b];
    }
  }

  lemma {:induction false} SumIsTotal(bs: seq<byte>)
    ensures Sum8(bs) == Total(bs) % 256
  {
    if bs != [] {
      var front, last := bs[..|bs| - 1], bs[|bs| - 1];
      SumIsTotal(front);
      TotalLast(front, last);
      assert bs == front + [last];
      RestOfSum(Total(front), last);
    }
  }

  lemma RestOfSum(a: nat, b: nat)
    ensures (a % 256 + b) % 256 == (a + b) % 256
  {
  }

  /** The tests of check() in terms of the block: with the 16-bit checksum the two bytes of the trailer,
      high byte first, are the remainder of the block and two zero bytes divided by
      x^16 + x^12 + x^5 + 1; without it its byte is the sum of the block modulo 256. */
  ghost predicate Matches(crc: bool, block: seq<byte>, trailer: seq<byte>)
    requires |trailer| == TrailerSize(crc)
  {
    if crc then Ccitt.Leaves(block, (trailer[0] as int) * 0x100 + trailer[1]) else trailer[0] == Total(block) % 256
  }

  lemma ChecksExactly(crc: bool, block: seq<byte>, trailer: seq<byte>)
    requires |trailer| == TrailerSize(crc)
    ensures Checks(crc, block, trailer) <==> Matches(crc, block, trailer)
  {
    if crc {
      Ccitt.CrcIsRemainder(block, (trailer[0] as int) * 0x100 + trailer[1]);
    } else {
      SumIsTotal(block);
    }
  }

  /** What the receiver tests before it looks at the packet number. */
  predicate Undamaged(crc: bool, f: seq<byte>)
    requires IsPacket(crc, f)
  {
    f[1] == 255 - f[2] && Checks(crc, Block(crc, f), f[3 + BlockSize(f[0])..])
  }

  /** The receiver: the packets it has accepted as new, the number it expects next, and its
      remaining patience. */
  datatype Rx = Rx(accepted: seq<seq<byte>>, packetno: byte, retrans: int)

  const RX0 := Rx([], 1, MAXRETRANS)

  datatype Reply = Acknowledge | Refuse | Cancel

  /** Lines 320-345: what a complete packet does.  The source compares the number with
      packetno - 1 as an int, so nothing counts as a duplicate while packetno is 0. */
  function Receive(rx: Rx, crc: bool, f: seq<byte>): (Rx, Reply)
    requires IsPacket(crc, f)
  {
    if !(Undamaged(crc, f) && (f[1] == rx.packetno || f[1] == rx.packetno - 1)) then (rx, Refuse)
    else
      var rx' := if f[1] == rx.packetno then Rx(rx.accepted + [f], (rx.packetno + 1) % 256, MAXRETRANS + 1) else rx;
      var rx'' := rx'.(retrans := rx'.retrans - 1);
      if rx''.retrans <= 0 then (rx'', Cancel) else (rx'', Acknowledge)
  }

  predicate AllPackets(crc: bool, fs: seq<seq<byte>>) {
    forall i :: 0 <= i < |fs| ==> IsPacket(crc, fs[i])
  }

  /** The receiver after a sequence of complete packets. */
  function ReceiveAll(rx: Rx, crc: bool, fs: seq<seq<byte>>): Rx
    requires AllPackets(crc, fs)
  {
    if fs == [] then rx else Receive(ReceiveAll(rx, crc, fs[..|fs| - 1]), crc, fs[|fs| - 1]).0
  }

  /** The blocks of the accepted packets, one after the other. */
  function Payload(crc: bool, fs: seq<seq<byte>>): seq<byte>
    requires AllPackets(crc, fs)
  {
    if fs == [] then [] else Payload(crc, fs[..|fs| - 1]) + Block(crc, fs[|fs| - 1])
  }

  /** What the receiver has accepted is numbered 1, 2, 3, ... modulo 256, and every packet of it
      was undamaged. */
  ghost predicate Sound(rx: Rx, crc: bool) {
    && AllPackets(crc, rx.accepted)
    && rx.packetno == (|rx.accepted| + 1) % 256
    && forall k :: 0 <= k < |rx.accepted| ==> rx.accepted[k][1] == (k + 1) % 256 && Undamaged(crc, rx.accepted[k])
  }

  lemma ReceiveSound(rx: Rx, crc: bool, f: seq<byte>)
    requires Sound(rx, crc) && IsPacket(crc, f)
    ensures Sound(Receive(rx, crc, f).0, crc)
  {
  }

  lemma {:induction false} ReceiveAllSound(crc: bool, fs: seq<seq<byte>>)
    requires AllPackets(crc, fs)
    ensures Sound(ReceiveAll(RX0, crc, fs), crc)
  {
    if fs != [] {
      ReceiveAllSound(crc, fs[..|fs| - 1]);
      ReceiveSound(ReceiveAll(RX0, crc, fs[..|fs| - 1]), crc, fs[|fs| - 1]);
    }
  }

  /** An undamaged packet with the number that is waited for. */
  predicate IsNew(rx: Rx, crc: bool, f: seq<byte>)
    requires IsPacket(crc, f)
  {
    Undamaged(crc, f) && f[1] == rx.packetno
  }

  /** An undamaged packet with the number before it. */
  predicate IsDuplicate(rx: Rx, crc: bool, f: seq<byte>)
    requires IsPacket(crc, f)
  {
    Undamaged(crc, f) && f[1] == rx.packetno - 1
  }

  /** How many duplicates have come since the last new packet. */
  function Duplicates(crc: bool, fs: seq<seq<byte>>): nat
    requires AllPackets(crc, fs)
  {
    if fs == [] then 0
    else
      var front, f := fs[..|fs| - 1], fs[|fs| - 1];
      var rx := ReceiveAll(RX0, crc, front);
      if IsNew(rx, crc, f) then 0
      else Duplicates(crc, front) + if IsDuplicate(rx, crc, f) then 1 else 0
  }

  /** How many packets have been acknowledged since the last new one. */
  function Acknowledged(crc: bool, fs: seq<seq<byte>>): nat
    requires AllPackets(crc, fs)
  {
    if fs == [] then 0
    else
      var front, f := fs[..|fs| - 1], fs[|fs| - 1];
      var rx := ReceiveAll(RX0, crc, front);
      if IsNew(rx, crc, f) then 0
      else Acknowledged(crc, front) + if Receive(rx, crc, f).1 == Acknowledge then 1 else 0
  }

  /** What one packet does to the receiver, by its kind. */
  lemma ReceiveKinds(rx: Rx, crc: bool, f: seq<byte>)
    requires IsPacket(crc, f)
    ensures
      IsNew(rx, crc, f) ==>
        Receive(rx, crc, f) == (Rx(rx.accepted + [f], (rx.packetno + 1) % 256, MAXRETRANS), Acknowledge)
    ensures
      IsDuplicate(rx, crc, f) ==>
        Receive(rx, crc, f) == (rx.(retrans := rx.retrans - 1), if rx.retrans <= 1 then Cancel else Acknowledge)
    ensures !IsNew(rx, crc, f) && !IsDuplicate(rx, crc, f) ==> Receive(rx, crc, f) == (rx, Refuse)
  {
  }

  /** Between two new packets at most 24 duplicates are acknowledged, whatever else comes, and the
      first 24 are; the counter of the source keeps track of them. */
  lemma {:induction false} DuplicatesBounded(crc: bool, fs: seq<seq<byte>>)
    requires AllPackets(crc, fs)
    ensures Acknowledged(crc, fs) == Min(Duplicates(crc, fs), 24) <= 24
    ensures ReceiveAll(RX0, crc, fs).retrans == MAXRETRANS - Duplicates(crc, fs)
    ensures ReceiveAll(RX0, crc, fs).retrans > 0 <==> Duplicates(crc, fs) <= 24
  {
    if fs != [] {
      var front, f := fs[..|fs| - 1], fs[|fs| - 1];
      DuplicatesBounded(crc, front);
      ReceiveKinds(ReceiveAll(RX0, crc, front), crc, f);
    }
  }
}

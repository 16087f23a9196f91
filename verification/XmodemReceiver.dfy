/** xmodemReceive of bootloader/rp2350/flash_program.c, byte by byte, on a line whose behaviour is
    arbitrary but ends in silence. */
module XmodemReceiver {
  import opened Machine
  import opened Xmodem
  import opened XmodemLine
  import Ccitt
  import B = Crc8
  import K = CcittTable
  import W = XmodemWire
  import P = XmodemProtocol

  /** The serial line: the bytes and timeouts to come, after which there are only timeouts, and
      everything that was written. */
  class Line {
    const input: seq<Input>
    var at: nat
    var output: seq<byte>

    constructor (input: seq<Input>)
      ensures this.input == input && at == 0 && output == []
    {
      this.input := input;
      at := 0;
      output := [];
    }

    method InByte() returns (c: Input)
      modifies this`at
      ensures at == old(at) + 1
      ensures c == InputAt(input, old(at))
    {
      c := if at < |input| then input[at] else -1;
      at := at + 1;
    }

    method OutByte(b: byte)
      modifies this`output
      ensures output == old(output) + [b]
    {
      output := output + [b];
    }

    /** flushinput, which reads up to the first timeout. */
    method Flush()
      modifies this`at
      ensures at == FlushEnd(input, old(at))
    {
      var c := InByte();
      while c >= 0
        invariant FlushEnd(input, old(at)) == if c >= 0 then FlushEnd(input, at) else at
        invariant c >= 0 ==> at <= |input|
        decreases |input| - at, c >= 0
      {
        c := InByte();
      }
    }

    /** The three CAN bytes of a cancelled transfer. */
    method OutCancel()
      modifies this`output
      ensures output == old(output) + [CAN, CAN, CAN]
    {
      ghost var before := output;
      OutByte(CAN);
      OutByte(CAN);
      OutByte(CAN);
      assert output == before + [CAN, CAN, CAN];
    }
  }

  /** The checksum loop. */
  method Sum(buf: array<byte>, from: nat, sz: nat) returns (s: byte)
    requires from + sz <= buf.Length
    ensures s == Sum8(buf[from..from + sz])
  {
    s := 0;
    for i := 0 to sz
      invariant s == Sum8(buf[from..from + i])
    {
      assert buf[from..from + i + 1] == buf[from..from + i] + [buf[from + i]];
      s := (s + buf[from + i]) % 256;
    }
  }

  lemma CrcOne(buf: array<byte>, from: nat, i: nat, crc: u16, r: u16)
    requires from + i < buf.Length && crc == Ccitt.Crc16(buf[from..from + i])
    requires r == Ccitt.Step(crc, buf[from + i])
    ensures r == Ccitt.Crc16(buf[from..from + i + 1])
  {
    var bs := buf[from..from + i + 1];
    assert bs[..|bs| - 1] == buf[from..from + i];
  }

  /** One round of crc16_ccitt, with the table. */
  method CrcRound(crc: u16, b: byte) returns (r: u16)
    ensures r == Ccitt.Step(crc, b)
  {
    K.TableIsEntry(B.ByteXor(crc / 256, b));
    r := Ccitt.WordXor(Ccitt.UpByte(crc), K.Tab(B.ByteXor(crc / 256, b)));
  }

  /** crc16_ccitt */
  method Crc(buf: array<byte>, from: nat, sz: nat) returns (crc: u16)
    requires from + sz <= buf.Length
    ensures crc == Ccitt.Crc16(buf[from..from + sz])
  {
    crc := 0;
    assert buf[from..from] == [];
    for i := 0 to sz
      invariant crc == Ccitt.Crc16(buf[from..from + i])
    {
      ghost var before := crc;
      crc := CrcRound(crc, buf[from + i]);
      CrcOne(buf, from, i, before, crc);
    }
  }

  /** check() */
  method Check(crc: bool, buf: array<byte>, from: nat, sz: nat) returns (good: bool)
    requires from + sz + TrailerSize(crc) <= buf.Length
    ensures good <==> Checks(crc, buf[from..from + sz], buf[from + sz..from + sz + TrailerSize(crc)])
    ensures good <==> Matches(crc, buf[from..from + sz], buf[from + sz..from + sz + TrailerSize(crc)])
  {
    ChecksExactly(crc, buf[from..from + sz], buf[from + sz..from + sz + TrailerSize(crc)]);
    if crc {
      var w := Crc(buf, from, sz);
      good := w == BigEndian(buf[from + sz], buf[from + sz + 1]);
    } else {
      var s := Sum(buf, from, sz);
      good := s == buf[from + sz];
    }
  }

  /** One try to get the start of a packet. */
  method TryStart(line: Line) returns (r: Awaited)
    modifies line
    ensures (r, line.at) == TryOne(line.input, old(line.at))
    ensures line.output == if r.EndOfText? || r.Cancelled? then old(line.output) + [ACK] else old(line.output)
  {
    var c := line.InByte();
    if c == SOH || c == STX {
      return Start(c);
    }
    if c == EOT {
      line.Flush();
      line.OutByte(ACK);
      return EndOfText;
    }
    if c == CAN {
      c := line.InByte();
      if c == CAN {
        line.Flush();
        line.OutByte(ACK);
        return Cancelled;
      }
    }
    r := Nothing;
  }

  /** Lines 277-302: up to 16 tries to get the start of a packet.  A trychar of 0 means none. */
  method Search(line: Line, trychar: byte) returns (r: Awaited)
    modifies line
    ensures (r, line.at, line.output) == Seek(line.input, old(line.at), trychar, old(line.output), TRIES)
  {
    ghost var result := Seek(line.input, line.at, trychar, line.output, TRIES);
    var retry := 0;
    while retry < TRIES
      invariant 0 <= retry <= TRIES
      invariant Seek(line.input, line.at, trychar, line.output, TRIES - retry) == result
    {
      if trychar != 0 {
        line.OutByte(trychar);
      }
      r := TryStart(line);
      if !r.Nothing? {
        return;
      }
      retry := retry + 1;
    }
    r := Nothing;
  }

  /** The same; `seen` is the position of the byte that decided. */
  method Await(line: Line, trychar: byte) returns (r: Awaited, ghost seen: nat)
    modifies line
    ensures (r, line.at, line.output) == Seek(line.input, old(line.at), trychar, old(line.output), TRIES)
    ensures !r.Nothing? ==> old(line.at) <= seen < |line.input|
    ensures r.EndOfText? ==> line.input[seen] == EOT && EndsWith(line.output, [ACK])
    ensures
      r.Cancelled? ==>
        seen + 1 < |line.input| && line.input[seen] == line.input[seen + 1] == CAN && EndsWith(line.output, [ACK])
  {
    seen := SeekSeen(line.input, line.at, trychar, line.output, TRIES);
    r := Search(line, trychar);
  }

  /** Lines 313-318: the rest of a packet of n bytes whose first byte has been read. */
  method ReadPacket(line: Line, xbuff: array<byte>, start: byte, n: nat) returns (complete: bool)
    requires 1 <= n <= xbuff.Length
    requires 1 <= line.at <= |line.input| && line.input[line.at - 1] == start
    modifies line`at, xbuff
    ensures line.at == ReadEnd(line.input, old(line.at), old(line.at) - 1 + n) >= old(line.at)
    ensures complete <==> Whole(line.input, old(line.at) - 1, n)
    ensures complete ==> line.at == old(line.at) - 1 + n && CameAt(line.input, old(line.at) - 1, xbuff[..n])
    ensures complete ==> xbuff[0] == start
  {
    ghost var from := line.at - 1;
    xbuff[0] := start;
    var i := 1;
    while i < n
      invariant 1 <= i <= n && line.at == from + i <= |line.input|
      invariant forall j :: 0 <= j < i ==> line.input[from + j] == xbuff[j]
      invariant forall k :: from <= k < from + i ==> line.input[k] >= 0
      invariant xbuff[0] == start
      invariant ReadEnd(line.input, line.at, from + n) == ReadEnd(line.input, old(line.at), from + n)
    {
      var c := line.InByte();
      if c < 0 {
        assert from + i < |line.input| ==> line.input[from + i] < 0;
        return false;
      }
      xbuff[i] := c;
      i := i + 1;
    }
    complete := true;
  }

  /** dest holds as much of the data as fits into destsz bytes, and is untouched behind it. */
  ghost predicate Stored(dest: seq<byte>, init: seq<byte>, destsz: int, len: nat, data: seq<byte>) {
    && len == Min(|data|, Max(destsz, 0))
    && |dest| == |init| && len <= |dest|
    && dest[..len] == data[..len]
    && dest[len..] == init[len..]
  }

  /** Lines 324-329: the part of a new block that still fits is appended. */
  method Append(dest: array<byte>, destsz: int, len: nat, xbuff: array<byte>, bufsz: nat, ghost init: seq<byte>,
                ghost data: seq<byte>)
    returns (len': nat)
    requires destsz <= dest.Length && dest != xbuff
    requires 3 + bufsz <= xbuff.Length
    requires Stored(dest[..], init, destsz, len, data)
    modifies dest
    ensures Stored(dest[..], init, destsz, len', data + xbuff[3..3 + bufsz])
  {
    ghost var before := dest[..];
    var count := destsz - len;
    if count > bufsz {
      count := bufsz;
    }
    len' := len;
    if count > 0 {
      forall i | 0 <= i < count {
        dest[len + i] := xbuff[3 + i];
      }
      len' := len + count;
      assert dest[..len'] == before[..len] + xbuff[3..3 + count];
    }
  }

  /** The variables of the receive loop agree with the packet-level receiver. */
  ghost predicate Tracks(dest: seq<byte>, init: seq<byte>, destsz: int, crc: bool, packetno: byte, len: nat,
                         retrans: int, rx: Rx)
  {
    && AllPackets(crc, rx.accepted)
    && packetno == rx.packetno && retrans == rx.retrans
    && Stored(dest, init, destsz, len, Payload(crc, rx.accepted))
  }

  lemma PayloadAppend(crc: bool, fs: seq<seq<byte>>, f: seq<byte>)
    requires AllPackets(crc, fs) && IsPacket(crc, f)
    ensures AllPackets(crc, fs + [f]) && Payload(crc, fs + [f]) == Payload(crc, fs) + Block(crc, f)
  {
    assert (fs + [f])[..|fs|] == fs;
  }

  /** A part of f, which is the beginning of the array. */
  lemma PartOf(a: array<byte>, f: seq<byte>, lo: nat, hi: nat)
    requires lo <= hi <= |f| <= a.Length && f == a[..|f|]
    ensures a[lo..hi] == f[lo..hi]
  {
    forall k | 0 <= k < hi - lo ensures a[lo..hi][k] == f[lo..hi][k] {
      assert f[lo + k] == a[..|f|][lo + k];
    }
  }

  /** The condition of lines 320-322. */
  method Acceptable(xbuff: array<byte>, bufsz: nat, crc: bool, packetno: byte, ghost f: seq<byte>) returns (ok: bool)
    requires IsPacket(crc, f) && |f| <= xbuff.Length && f == xbuff[..|f|] && bufsz == BlockSize(f[0])
    ensures ok <==> Undamaged(crc, f) && (f[1] == packetno || f[1] == packetno - 1)
  {
    PartOf(xbuff, f, 3, 3 + bufsz);
    PartOf(xbuff, f, 3 + bufsz, |f|);
    assert f[3 + bufsz..|f|] == f[3 + bufsz..];
    var passed := Check(crc, xbuff, 3, bufsz);
    ok := xbuff[1] == 255 - xbuff[2] && (xbuff[1] == packetno || xbuff[1] == packetno - 1) && passed;
  }

  /** Lines 320-345: a complete packet in xbuff is tested, stored if it is new, and answered. */
  method TakePacket(dest: array<byte>, destsz: int, xbuff: array<byte>, bufsz: nat, crc: bool,
                    packetno: byte, len: nat, retrans: int, ghost init: seq<byte>, ghost rx: Rx, ghost f: seq<byte>)
    returns (packetno': byte, len': nat, retrans': int, reply: Reply)
    requires destsz <= dest.Length && dest != xbuff
    requires IsPacket(crc, f) && |f| <= xbuff.Length && f == xbuff[..|f|] && bufsz == BlockSize(f[0])
    requires Tracks(dest[..], init, destsz, crc, packetno, len, retrans, rx)
    modifies dest
    ensures Receive(rx, crc, f).1 == reply
    ensures Tracks(dest[..], init, destsz, crc, packetno', len', retrans', Receive(rx, crc, f).0)
  {
    packetno', len', retrans' := packetno, len, retrans;
    PartOf(xbuff, f, 3, 3 + bufsz);
    var ok := Acceptable(xbuff, bufsz, crc, packetno, f);
    if !ok {
      return packetno', len', retrans', Refuse;
    }
    if xbuff[1] == packetno {
      PayloadAppend(crc, rx.accepted, f);
      len' := Append(dest, destsz, len, xbuff, bufsz, init, Payload(crc, rx.accepted));
      packetno' := (packetno + 1) % 256;
      retrans' := MAXRETRANS + 1;
    }
    retrans' := retrans' - 1;
    reply := if retrans' <= 0 then Cancel else Acknowledge;
  }

  /** The packets fs were read from the line at the positions `starts`, in order and without
      overlap, the last one ending at or before position `at`. */
  ghost predicate CameInOrder(input: seq<Input>, starts: seq<nat>, fs: seq<seq<byte>>, at: nat) {
    && |starts| == |fs|
    && (forall k :: 0 <= k < |fs| ==> CameAt(input, starts[k], fs[k]) && starts[k] + |fs[k]| <= at)
    && (forall j, k :: 0 <= j < k < |fs| ==> starts[j] + |fs[j]| <= starts[k])
  }

  lemma CameLater(input: seq<Input>, starts: seq<nat>, fs: seq<seq<byte>>, at: nat, later: nat)
    requires CameInOrder(input, starts, fs, at) && at <= later
    ensures CameInOrder(input, starts, fs, later)
  {
  }

  lemma CameNext(input: seq<Input>, starts: seq<nat>, fs: seq<seq<byte>>, from: nat, f: seq<byte>, at: nat)
    requires CameInOrder(input, starts, fs, from) && CameAt(input, from, f) && from + |f| <= at
    ensures CameInOrder(input, starts + [from], fs + [f], at)
  {
    var ss, gs := starts + [from], fs + [f];
    forall k | 0 <= k < |gs| ensures CameAt(input, ss[k], gs[k]) && ss[k] + |gs[k]| <= at {
      assert k < |fs| ==> ss[k] == starts[k] && gs[k] == fs[k];
    }
    forall j, k | 0 <= j < k < |gs| ensures ss[j] + |gs[j]| <= ss[k] {
      assert ss[j] == starts[j] && gs[j] == fs[j];
    }
  }

  /** Until the last packet the receiver has not lost its patience. */
  ghost predicate PatientUntilLast(crc: bool, fs: seq<seq<byte>>)
    requires AllPackets(crc, fs)
  {
    forall k :: 0 <= k < |fs| ==> ReceiveAll(RX0, crc, fs[..k]).retrans > 0
  }

  lemma ReceiveOneMore(crc: bool, fs: seq<seq<byte>>, f: seq<byte>)
    requires AllPackets(crc, fs) && IsPacket(crc, f)
    requires PatientUntilLast(crc, fs) && ReceiveAll(RX0, crc, fs).retrans > 0
    ensures AllPackets(crc, fs + [f]) && PatientUntilLast(crc, fs + [f])
    ensures ReceiveAll(RX0, crc, fs + [f]) == Receive(ReceiveAll(RX0, crc, fs), crc, f).0
  {
    var all := fs + [f];
    assert all[..|fs|] == fs;
    forall k | 0 <= k < |all| ensures ReceiveAll(RX0, crc, all[..k]).retrans > 0 {
      assert k < |fs| ==> all[..k] == fs[..k];
    }
  }

  /** The search for a ZMODEM header. */
  method SkipZmodem(line: Line)
    modifies line
    ensures (line.at, line.output) == Zmodem(line.input, old(line.at), old(line.output), HEADER_TRIES)
    ensures line.at > old(line.at)
    ensures
      (forall k :: old(line.at) <= k < old(line.at) + 3 ==> InputAt(line.input, k) != 'Z' as int) ==>
        line.at == old(line.at) + 3
  {
    ghost var result := Zmodem(line.input, line.at, line.output, HEADER_TRIES);
    var tries := 0;
    while tries < HEADER_TRIES
      invariant 0 <= tries <= HEADER_TRIES && line.at == old(line.at) + tries
      invariant Zmodem(line.input, line.at, line.output, HEADER_TRIES - tries) == result
    {
      var c := line.InByte();
      if c == 'Z' as int {
        line.OutByte(NAK);
        return;
      }
      tries := tries + 1;
    }
  }

  /** What has been received when a transfer ends, successfully or not. */
  ghost predicate Received(input: seq<Input>, dest: seq<byte>, init: seq<byte>, destsz: int, len: nat,
                           crc: bool, starts: seq<nat>, fs: seq<seq<byte>>, at: nat) {
    && AllPackets(crc, fs) && CameInOrder(input, starts, fs, at) && PatientUntilLast(crc, fs)
    && var rx := ReceiveAll(RX0, crc, fs);
       AllPackets(crc, rx.accepted) && Stored(dest, init, destsz, len, Payload(crc, rx.accepted))
  }

  /** The receiver's variables together with the packets that led to them. */
  ghost predicate State(input: seq<Input>, dest: seq<byte>, init: seq<byte>, destsz: int, crc: bool,
                        packetno: byte, len: nat, retrans: int, starts: seq<nat>, fs: seq<seq<byte>>, at: nat) {
    && AllPackets(crc, fs) && CameInOrder(input, starts, fs, at) && PatientUntilLast(crc, fs)
    && Tracks(dest, init, destsz, crc, packetno, len, retrans, ReceiveAll(RX0, crc, fs))
  }

  /** A packet that came whole is taken and answered as Receive says, any other one is refused. */
  ghost predicate Answered(input: seq<Input>, from: nat, at: nat, start: byte, crc: bool,
                           fs: seq<seq<byte>>, fs': seq<seq<byte>>, reply: Reply)
    requires AllPackets(crc, fs) && AllPackets(crc, fs')
  {
    var n := PacketSize(start, crc);
    if Whole(input, from, n) then
      && |fs'| == |fs| + 1 && fs'[..|fs|] == fs && CameAt(input, from, fs'[|fs|]) && |fs'[|fs|]| == n
      && reply == Receive(ReceiveAll(RX0, crc, fs), crc, fs'[|fs|]).1
      && (reply == Acknowledge ==> at == from + n)
    else
      fs' == fs && reply == Refuse
  }

  /** A complete packet f, read from position `from` on, is taken. */
  method TakeWhole(dest: array<byte>, destsz: int, xbuff: array<byte>, crc: bool, packetno: byte, len: nat,
                   retrans: int, ghost input: seq<Input>, ghost at: nat, ghost from: nat, ghost f: seq<byte>,
                   ghost init: seq<byte>, ghost starts: seq<nat>, ghost fs: seq<seq<byte>>)
    returns (packetno': byte, len': nat, retrans': int, reply: Reply)
    requires destsz <= dest.Length && dest != xbuff && |f| <= xbuff.Length
    requires IsPacket(crc, f) && f == xbuff[..|f|] && CameAt(input, from, f) && from + |f| <= at
    requires State(input, dest[..], init, destsz, crc, packetno, len, retrans, starts, fs, from)
    requires retrans > 0
    modifies dest
    ensures State(input, dest[..], init, destsz, crc, packetno', len', retrans', starts + [from], fs + [f], at)
    ensures reply == Receive(ReceiveAll(RX0, crc, fs), crc, f).1
    ensures reply == Cancel <==> retrans' <= 0
  {
    ghost var rx := ReceiveAll(RX0, crc, fs);
    ReceiveOneMore(crc, fs, f);
    CameNext(input, starts, fs, from, f, at);
    packetno', len', retrans', reply :=
      TakePacket(dest, destsz, xbuff, BlockSize(xbuff[0]), crc, packetno, len, retrans, init, rx, f);
  }

  /** From a start byte to the reply: one packet is read and, if it is complete, taken. */
  method OnePacket(line: Line, dest: array<byte>, destsz: int, xbuff: array<byte>, start: byte, crc: bool,
                   packetno: byte, len: nat, retrans: int,
                   ghost init: seq<byte>, ghost starts: seq<nat>, ghost fs: seq<seq<byte>>)
    returns (packetno': byte, len': nat, retrans': int, reply: Reply,
             ghost starts': seq<nat>, ghost fs': seq<seq<byte>>)
    requires destsz <= dest.Length && dest != xbuff && xbuff.Length == 1030
    requires Started(line.input, line.at, start)
    requires State(line.input, dest[..], init, destsz, crc, packetno, len, retrans, starts, fs, line.at - 1)
    requires retrans > 0
    modifies line`at, dest, xbuff
    ensures line.at == ReadEnd(line.input, old(line.at), old(line.at) - 1 + PacketSize(start, crc)) >= old(line.at)
    ensures State(line.input, dest[..], init, destsz, crc, packetno', len', retrans', starts', fs', line.at)
    ensures reply == Cancel <==> retrans' <= 0
    ensures Answered(line.input, old(line.at) - 1, line.at, start, crc, fs, fs', reply)
  {
    ghost var from, before, input := line.at - 1, dest[..], line.input;
    var n := PacketSize(start, crc);
    var complete := ReadPacket(line, xbuff, start, n);
    assert dest[..] == before;
    if !complete {
      CameLater(input, starts, fs, from, line.at);
      return packetno, len, retrans, Refuse, starts, fs;
    }
    ghost var f := xbuff[..n];
    packetno', len', retrans', reply :=
      TakeWhole(dest, destsz, xbuff, crc, packetno, len, retrans, input, line.at, from, f, init, starts, fs);
    starts', fs' := starts + [from], fs + [f];
  }

  /** The reply to one packet; `s` is where the receiver stands. */
  method Answer(line: Line, reply: Reply, ghost s: Station)
    requires s.at == line.at && s.output == line.output
    modifies line
    ensures Replied(line.input, s, reply) == s.(at := line.at, output := line.output)
  {
    if reply == Acknowledge {
      line.OutByte(ACK);
      return;
    }
    line.Flush();
    if reply == Cancel {
      line.OutCancel();
    } else {
      line.OutByte(NAK);
    }
  }

  /** The reply to a packet that was read up to `stop`, in terms of the line. */
  lemma ServeIs(input: seq<Input>, s: Station, start: byte, fs: seq<seq<byte>>, fs': seq<seq<byte>>, stop: nat,
                reply: Reply, s': Station)
    requires Started(input, s.at, start) && AllPackets(s.crc, fs) && AllPackets(s.crc, fs')
    requires s.rx == ReceiveAll(RX0, s.crc, fs) && stop == ReadEnd(input, s.at, s.at - 1 + PacketSize(start, s.crc))
    requires Answered(input, s.at - 1, stop, start, s.crc, fs, fs', reply)
    requires s' == Replied(input, s.(rx := ReceiveAll(RX0, s.crc, fs'), at := stop), reply)
    ensures Serve(input, s, start) == if reply == Cancel then Over(TooMany, s') else Onward(s')
    ensures reply == Cancel ==> EndsWith(s'.output, [CAN, CAN, CAN])
  {
    if Whole(input, s.at - 1, PacketSize(start, s.crc)) {
      var f := fs'[|fs|];
      ReceiveLastOf(s.crc, fs, fs', f);
      ServeIsWhole(input, s, start, stop, s', f, (ReceiveAll(RX0, s.crc, fs'), reply));
    }
  }

  lemma ServeIsWhole(input: seq<Input>, s: Station, start: byte, stop: nat, s': Station, f: seq<byte>, r: (Rx, Reply))
    requires Started(input, s.at, start) && Whole(input, s.at - 1, PacketSize(start, s.crc))
    requires IsPacket(s.crc, f) && CameAt(input, s.at - 1, f) && |f| == PacketSize(start, s.crc)
    requires Receive(s.rx, s.crc, f) == r && stop == ReadEnd(input, s.at, s.at - 1 + PacketSize(start, s.crc))
    requires s' == Replied(input, s.(rx := r.0, at := stop), r.1)
    ensures Serve(input, s, start) == if r.1 == Cancel then Over(TooMany, s') else Onward(s')
  {
    SameBytes(input, s.at - 1, f, Frame(input, s.at - 1, PacketSize(start, s.crc)));
    ServeWhole(input, s, start, f, r);
  }

  lemma ReceiveLastOf(crc: bool, fs: seq<seq<byte>>, fs': seq<seq<byte>>, f: seq<byte>)
    requires AllPackets(crc, fs') && |fs'| == |fs| + 1 && fs'[..|fs|] == fs && fs'[|fs|] == f
    ensures AllPackets(crc, fs) && IsPacket(crc, f)
    ensures ReceiveAll(RX0, crc, fs') == Receive(ReceiveAll(RX0, crc, fs), crc, f).0
  {
    assert forall i :: 0 <= i < |fs| ==> fs[i] == fs'[i];
  }

  /** Lines 310-345: one packet is read, taken and answered. */
  method PacketRound(line: Line, dest: array<byte>, destsz: int, xbuff: array<byte>, start: byte, crc: bool,
                     packetno: byte, len: nat, retrans: int,
                     ghost init: seq<byte>, ghost starts: seq<nat>, ghost fs: seq<seq<byte>>)
    returns (packetno': byte, len': nat, retrans': int, reply: Reply,
             ghost starts': seq<nat>, ghost fs': seq<seq<byte>>)
    requires destsz <= dest.Length && dest != xbuff && xbuff.Length == 1030
    requires Started(line.input, line.at, start)
    requires State(line.input, dest[..], init, destsz, crc, packetno, len, retrans, starts, fs, line.at - 1)
    requires retrans > 0
    modifies line, dest, xbuff
    ensures line.at >= old(line.at)
    ensures State(line.input, dest[..], init, destsz, crc, packetno', len', retrans', starts', fs', line.at)
    ensures reply == Cancel <==> retrans' <= 0
    ensures
      var s := Station(crc, 0, ReceiveAll(RX0, crc, fs), old(line.at), old(line.output));
      var s' := Station(crc, 0, ReceiveAll(RX0, crc, fs'), line.at, line.output);
      Serve(line.input, s, start) == if reply == Cancel then Over(TooMany, s') else Onward(s')
    ensures reply == Cancel ==> EndsWith(line.output, [CAN, CAN, CAN])
  {
    ghost var s := Station(crc, 0, ReceiveAll(RX0, crc, fs), line.at, line.output);
    packetno', len', retrans', reply, starts', fs' :=
      OnePacket(line, dest, destsz, xbuff, start, crc, packetno, len, retrans, init, starts, fs);
    ghost var stop, held := line.at, dest[..];
    AnswerPacket(line, reply, s, start, fs, fs');
    assert dest[..] == held;
    StateLater(line.input, held, init, destsz, crc, packetno', len', retrans', starts', fs', stop, line.at);
  }

  /** The reply to a packet that has just been read from the station s on. */
  method AnswerPacket(line: Line, reply: Reply, ghost s: Station, start: byte,
                      ghost fs: seq<seq<byte>>, ghost fs': seq<seq<byte>>)
    requires Started(line.input, s.at, start) && AllPackets(s.crc, fs) && AllPackets(s.crc, fs')
    requires s.rx == ReceiveAll(RX0, s.crc, fs) && line.output == s.output
    requires line.at == ReadEnd(line.input, s.at, s.at - 1 + PacketSize(start, s.crc))
    requires Answered(line.input, s.at - 1, line.at, start, s.crc, fs, fs', reply)
    modifies line
    ensures line.at >= old(line.at)
    ensures
      var s' := s.(rx := ReceiveAll(RX0, s.crc, fs'), at := line.at, output := line.output);
      Serve(line.input, s, start) == if reply == Cancel then Over(TooMany, s') else Onward(s')
    ensures reply == Cancel ==> EndsWith(line.output, [CAN, CAN, CAN])
  {
    ghost var stop := line.at;
    ghost var s' := s.(rx := ReceiveAll(RX0, s.crc, fs'), at := stop);
    Answer(line, reply, s');
    ServeIs(line.input, s, start, fs, fs', stop, reply, s'.(at := line.at, output := line.output));
  }

  lemma StateLater(input: seq<Input>, dest: seq<byte>, init: seq<byte>, destsz: int, crc: bool, packetno: byte,
                   len: nat, retrans: int, starts: seq<nat>, fs: seq<seq<byte>>, at: nat, later: nat)
    requires State(input, dest, init, destsz, crc, packetno, len, retrans, starts, fs, at) && at <= later
    ensures State(input, dest, init, destsz, crc, packetno, len, retrans, starts, fs, later)
  {
    CameLater(input, starts, fs, at, later);
  }

  /** What the result code says: the data is complete and its end has been acknowledged, the
      sender cancelled, or the receiver has cancelled. */
  ghost predicate Ended(input: seq<Input>, output: seq<byte>, code: int, len: nat, seen: nat) {
    && -3 <= code
    && (code >= 0 ==> code == len && seen < |input| && input[seen] == EOT && EndsWith(output, [ACK]))
    && (code == -1 ==> seen + 1 < |input| && input[seen] == input[seen + 1] == CAN && EndsWith(output, [ACK]))
    && (code == -2 || code == -3 ==> EndsWith(output, [CAN, CAN, CAN]))
  }

  /** The variables of the receive loop. */
  datatype Vars = Vars(crc: bool, trychar: byte, packetno: byte, len: nat, retrans: int)

  /** The receiver's place on the line, after the packets fs. */
  ghost function Here(v: Vars, fs: seq<seq<byte>>, at: nat, output: seq<byte>): Station
    requires AllPackets(v.crc, fs)
  {
    Station(v.crc, v.trychar, ReceiveAll(RX0, v.crc, fs), at, output)
  }

  function EndOf(code: int): End {
    if code >= 0 then Complete else if code == -1 then BySender else if code == -2 then Silence else TooMany
  }

  ghost function CourseOf(ends: bool, code: int, s: Station): Course {
    if ends then Over(EndOf(code), s) else Onward(s)
  }

  /** The state at the head of the loop. */
  ghost predicate Going(input: seq<Input>, dest: seq<byte>, init: seq<byte>, destsz: int, v: Vars,
                        starts: seq<nat>, fs: seq<seq<byte>>, at: nat) {
    && v.retrans > 0 && (v.trychar == 'C' as int ==> fs == [])
    && State(input, dest, init, destsz, v.crc, v.packetno, v.len, v.retrans, starts, fs, at)
  }

  /** What one round of the outer loop does, from the variables v and the packets fs at position
      `at` to v' and fs' at position at'. */
  ghost predicate Turned(input: seq<Input>, dest: seq<byte>, init: seq<byte>, destsz: int,
                         v: Vars, fs: seq<seq<byte>>, at: nat, output: seq<byte>, ends: bool, code: int,
                         v': Vars, starts': seq<nat>, fs': seq<seq<byte>>, at': nat, output': seq<byte>, seen: nat)
  {
    && AllPackets(v.crc, fs) && AllPackets(v'.crc, fs')
    && Step(input, Here(v, fs, at, output)) == CourseOf(ends, code, Here(v', fs', at', output'))
    && (ends ==>
          && Received(input, dest, init, destsz, v'.len, v'.crc, starts', fs', seen)
          && Ended(input, output', code, v'.len, seen)
          && (code == -3 <==> ReceiveAll(RX0, v'.crc, fs').retrans <= 0))
    && (!ends ==> Going(input, dest, init, destsz, v', starts', fs', at'))
  }

  /** The variables after a start byte was found. */
  function Settled(v: Vars): Vars {
    v.(crc := v.crc || v.trychar == 'C' as int, trychar := 0)
  }

  lemma StepStart(input: seq<Input>, v: Vars, w: Vars, fs: seq<seq<byte>>, at: nat, output: seq<byte>, c: byte,
                  at': nat, output': seq<byte>)
    requires AllPackets(v.crc, fs) && (v.trychar == 'C' as int ==> fs == []) && w == Settled(v)
    requires Seek(input, at, v.trychar, output, TRIES) == (Start(c), at', output')
    ensures AllPackets(w.crc, fs)
    ensures Step(input, Here(v, fs, at, output)) == Serve(input, Here(w, fs, at', output'), c)
  {
  }

  lemma SettledGoing(input: seq<Input>, dest: seq<byte>, init: seq<byte>, destsz: int, v: Vars, w: Vars,
                     starts: seq<nat>, fs: seq<seq<byte>>, at: nat, at': nat)
    requires Going(input, dest, init, destsz, v, starts, fs, at) && at <= at' && w == Settled(v)
    ensures Going(input, dest, init, destsz, w, starts, fs, at')
  {
    CameLater(input, starts, fs, at, at');
  }

  /** The packet that starts with c is taken; `w` are the variables with the checksum settled. */
  method TakeStart(line: Line, dest: array<byte>, destsz: int, xbuff: array<byte>, c: byte, w: Vars,
                   ghost init: seq<byte>, ghost starts: seq<nat>, ghost fs: seq<seq<byte>>)
    returns (ends: bool, v': Vars, ghost starts': seq<nat>, ghost fs': seq<seq<byte>>)
    requires destsz <= dest.Length && dest != xbuff && xbuff.Length == 1030
    requires Started(line.input, line.at, c) && w.trychar == 0
    requires Going(line.input, dest[..], init, destsz, w, starts, fs, line.at - 1)
    modifies line, dest, xbuff
    ensures v'.trychar == 0 && v'.crc == w.crc
    ensures if ends then Received(line.input, dest[..], init, destsz, v'.len, v'.crc, starts', fs', line.at)
            else Going(line.input, dest[..], init, destsz, v', starts', fs', line.at)
    ensures ends ==> EndsWith(line.output, [CAN, CAN, CAN]) && ReceiveAll(RX0, v'.crc, fs').retrans <= 0
    ensures AllPackets(v'.crc, fs')
    ensures
      Serve(line.input, Here(w, fs, old(line.at), old(line.output)), c)
      == CourseOf(ends, -3, Here(v', fs', line.at, line.output))
  {
    var packetno, len, retrans, answer;
    packetno, len, retrans, answer, starts', fs' :=
      PacketRound(line, dest, destsz, xbuff, c, w.crc, w.packetno, w.len, w.retrans, init, starts, fs);
    v' := Vars(w.crc, 0, packetno, len, retrans);
    ends := answer == Cancel;
  }

  /** The rest of a round in which a start byte c was found. */
  method TurnStart(line: Line, dest: array<byte>, destsz: int, xbuff: array<byte>, c: byte, v: Vars,
                   ghost init: seq<byte>, ghost starts: seq<nat>, ghost fs: seq<seq<byte>>,
                   ghost at: nat, ghost output: seq<byte>)
    returns (ends: bool, v': Vars, ghost starts': seq<nat>, ghost fs': seq<seq<byte>>)
    requires destsz <= dest.Length && dest != xbuff && xbuff.Length == 1030
    requires Going(line.input, dest[..], init, destsz, v, starts, fs, at)
    requires Seek(line.input, at, v.trychar, output, TRIES) == (Start(c), line.at, line.output)
    modifies line, dest, xbuff
    ensures
      Turned(line.input, dest[..], init, destsz, v, fs, at, output, ends, -3,
             v', starts', fs', line.at, line.output, line.at)
  {
    var w := Settled(v);
    StepStart(line.input, v, w, fs, at, output, c, line.at, line.output);
    SettledGoing(line.input, dest[..], init, destsz, v, w, starts, fs, at, line.at - 1);
    ends, v', starts', fs' := TakeStart(line, dest, destsz, xbuff, c, w, init, starts, fs);
  }

  /** The rest of a round in which no packet started: the text has ended, the sender has cancelled,
      or nothing came. */
  method NoStart(line: Line, r: Awaited, v: Vars, ghost dest: seq<byte>, ghost init: seq<byte>, ghost destsz: int,
                 ghost starts: seq<nat>, ghost fs: seq<seq<byte>>,
                 ghost at: nat, ghost output: seq<byte>, ghost seen: nat)
    returns (ends: bool, code: int, v': Vars, ghost seen': nat)
    requires Going(line.input, dest, init, destsz, v, starts, fs, at) && !r.Start?
    requires Seek(line.input, at, v.trychar, output, TRIES) == (r, line.at, line.output)
    requires !r.Nothing? ==> at <= seen < |line.input|
    requires r.EndOfText? ==> line.input[seen] == EOT && EndsWith(line.output, [ACK])
    requires
      r.Cancelled? ==>
        seen + 1 < |line.input| && line.input[seen] == line.input[seen + 1] == CAN && EndsWith(line.output, [ACK])
    modifies line
    ensures
      Turned(line.input, dest, init, destsz, v, fs, at, output, ends, code,
             v', starts, fs, line.at, line.output, seen')
    ensures ends <==> !r.Nothing? || v.trychar != 'C' as int
    ensures v' == if ends then v else v.(trychar := NAK)
    ensures r.EndOfText? ==> code == v.len
    ensures r.Cancelled? ==> code == -1
    ensures r.Nothing? ==> code == -2
  {
    ends, code, v', seen' := true, -2, v, seen;
    if r.Nothing? {
      if v.trychar == 'C' as int {
        CameLater(line.input, starts, fs, at, line.at);
        ends, v' := false, v.(trychar := NAK);
        return;
      }
      line.Flush();
      line.OutCancel();
      seen' := at;
    } else {
      CameLater(line.input, starts, fs, at, seen);
      code := if r.EndOfText? then v.len else -1;
    }
  }

  /** One round of the outer loop.  No code means that the loop goes on. */
  method Turn(line: Line, dest: array<byte>, destsz: int, xbuff: array<byte>, v: Vars, ghost init: seq<byte>,
              ghost starts: seq<nat>, ghost fs: seq<seq<byte>>)
    returns (ends: bool, code: int, v': Vars, ghost starts': seq<nat>, ghost fs': seq<seq<byte>>, ghost seen: nat)
    requires destsz <= dest.Length && dest != xbuff && xbuff.Length == 1030
    requires Going(line.input, dest[..], init, destsz, v, starts, fs, line.at)
    modifies line, dest, xbuff
    ensures
      Turned(line.input, dest[..], init, destsz, v, fs, old(line.at), old(line.output), ends, code,
             v', starts', fs', line.at, line.output, seen)
  {
    ghost var at, held, output := line.at, dest[..], line.output;
    var r;
    r, seen := Await(line, v.trychar);
    assert dest[..] == held;
    if r.Start? {
      code := -3;
      ends, v', starts', fs' := TurnStart(line, dest, destsz, xbuff, r.c, v, init, starts, fs, at, output);
      seen := line.at;
    } else {
      starts', fs' := starts, fs;
      ends, code, v', seen := NoStart(line, r, v, held, init, destsz, starts, fs, at, output, seen);
      assert dest[..] == held;
    }
  }

  /** xmodemReceive.  The result is the number of bytes received, -1 when the sender cancelled,
      -2 when nothing more came, or -3 when too many packets were repeated; `seen` is where the
      end or the cancellation came, behind all packets.  On every line it reads, takes and answers
      what CallCourse says, and termination shows that silence always ends a transfer. */
  method ReceiveOnLine(line: Line, dest: array<byte>, destsz: int)
    returns (code: int, ghost len: nat, ghost course: Station, ghost starts: seq<nat>, ghost fs: seq<seq<byte>>,
             ghost seen: nat)
    requires destsz <= dest.Length
    modifies line, dest
    ensures Received(line.input, dest[..], old(dest[..]), destsz, len, course.crc, starts, fs, seen)
    ensures Ended(line.input, line.output, code, len, seen)
    ensures code == -3 <==> ReceiveAll(RX0, course.crc, fs).retrans <= 0
    ensures CallCourse(line.input, old(line.at), old(line.output)) == Over(EndOf(code), course)
    ensures course.rx == ReceiveAll(RX0, course.crc, fs) && course.at == line.at && course.output == line.output
  {
    ghost var init := dest[..];
    var xbuff := new byte[1030];
    var v := Vars(false, 'C' as int, 1, 0, MAXRETRANS);
    starts, fs := [], [];
    SkipZmodem(line);
    ghost var result := Transfer(line.input, Here(v, fs, line.at, line.output));
    while true
      invariant fresh(xbuff) && xbuff.Length == 1030
      invariant Going(line.input, dest[..], init, destsz, v, starts, fs, line.at)
      invariant Transfer(line.input, Here(v, fs, line.at, line.output)) == result
      decreases Left(line.input, line.at), v.trychar == 'C' as int
    {
      var ends;
      ends, code, v, starts, fs, seen := Turn(line, dest, destsz, xbuff, v, init, starts, fs);
      if ends {
        len, course := v.len, Here(v, fs, line.at, line.output);
        return;
      }
    }
  }

  /** xmodemReceive on any line.  A line that carries a file without loss delivers all of it.  One that
      carries the exchanges es with their losses delivers the first blocks of the file, and reports
      success exactly when the sender got all of them through. */
  method XmodemReceive(line: Line, dest: array<byte>, destsz: int, ghost blocks: seq<seq<byte>>, ghost es: seq<P.Event>)
    returns (code: int, ghost len: nat, ghost course: Station, ghost starts: seq<nat>, ghost fs: seq<seq<byte>>,
             ghost seen: nat)
    requires destsz <= dest.Length && P.AreBlocks(blocks)
    modifies line, dest
    ensures Received(line.input, dest[..], old(dest[..]), destsz, len, course.crc, starts, fs, seen)
    ensures Ended(line.input, line.output, code, len, seen)
    ensures code == -3 <==> ReceiveAll(RX0, course.crc, fs).retrans <= 0
    ensures CallCourse(line.input, old(line.at), old(line.output)) == Over(EndOf(code), course)
    ensures course.rx == ReceiveAll(RX0, course.crc, fs) && course.at == line.at && course.output == line.output
    ensures
      old(line.at) == 0 && Carries(line.input, P.PacketsOf(blocks)) ==>
        code >= 0 && Stored(dest[..], old(dest[..]), destsz, code, P.Concat(blocks))
    ensures
      old(line.at) == 0 && W.CarriesLossy(line.input, blocks, es) ==>
        Delivered(dest[..], old(dest[..]), destsz, code, len, blocks, P.Run(blocks, true, P.START, es))
  {
    ghost var input, at, output := line.input, line.at, line.output;
    code, len, course, starts, fs, seen := ReceiveOnLine(line, dest, destsz);
    if at == 0 && Carries(input, P.PacketsOf(blocks)) {
      CleanCourse(input, blocks, output);
      WholeFile(blocks, course.crc);
    }
    if at == 0 && W.CarriesLossy(input, blocks, es) {
      W.LossyCourse(input, blocks, es, output);
      W.LossyPayload(blocks, es, P.Run(blocks, true, P.START, es), course.crc);
      assert blocks[..|blocks|] == blocks;
    }
  }

  /** The blocks that the receiver of the exchange has accepted are in the destination, as far as they
      fit, and the result code says how the exchange ended. */
  ghost predicate Delivered(dest: seq<byte>, init: seq<byte>, destsz: int, code: int, len: nat,
                            blocks: seq<seq<byte>>, end: P.System)
  {
    && |end.rx.accepted| <= |blocks|
    && Stored(dest, init, destsz, len, P.Concat(blocks[..|end.rx.accepted|]))
    && (code == -3 <==> end.cancelled)
    && (code >= 0 <==> !end.cancelled && end.sent == |blocks|)
    && (code >= 0 ==> Stored(dest, init, destsz, code, P.Concat(blocks)))
  }

  /** The packets of a file carry the whole file. */
  lemma WholeFile(blocks: seq<seq<byte>>, crc: bool)
    requires P.AreBlocks(blocks) && (blocks == [] || crc)
    ensures AllPackets(crc, P.PacketsOf(blocks)) && Payload(crc, P.PacketsOf(blocks)) == P.Concat(blocks)
  {
    if blocks != [] {
      P.PacketsArePackets(blocks);
      P.AcceptedIsPrefix(blocks, true, P.PacketsOf(blocks));
      assert blocks[..|blocks|] == blocks;
    }
  }
}

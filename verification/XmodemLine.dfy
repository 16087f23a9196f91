/** What xmodemReceive of bootloader/rp2350/flash_program.c does to its line: which bytes it reads
    and which it writes, as functions of the bytes and timeouts that come. */
module XmodemLine {
  import opened Machine
  import opened Xmodem
  import P = XmodemProtocol

  const TRIES: nat := 16

  /** What one call of _inbyte sees: a byte, or -1 for a timeout. */
  type Input = c: int | -1 <= c < 256

  /** Behind the end of the input there are only timeouts. */
  function InputAt(input: seq<Input>, p: nat): Input {
    if p < |input| then input[p] else -1
  }

  /** The bytes f came over the line from position p on, without a timeout in between. */
  ghost predicate CameAt(input: seq<Input>, p: nat, f: seq<byte>) {
    p + |f| <= |input| && forall i :: 0 <= i < |f| ==> input[p + i] == f[i]
  }

  lemma SameBytes(input: seq<Input>, at: nat, f: seq<byte>, p: seq<byte>)
    requires CameAt(input, at, f) && CameAt(input, at, p) && |f| == |p|
    ensures f == p
  {
    forall i | 0 <= i < |f| ensures f[i] == p[i] {
      assert input[at + i] == f[i] && input[at + i] == p[i];
    }
  }

  /** No timeout among the n inputs from position p on. */
  ghost predicate Whole(input: seq<Input>, p: nat, n: nat) {
    p + n <= |input| && forall i :: p <= i < p + n ==> input[i] >= 0
  }

  /** The position after a flush: just behind the first timeout. */
  function FlushEnd(input: seq<Input>, p: nat): (q: nat)
    ensures p < q && InputAt(input, q - 1) < 0
    ensures forall i :: p <= i < q - 1 ==> InputAt(input, i) >= 0
    decreases |input| - p
  {
    if InputAt(input, p) < 0 then p + 1 else FlushEnd(input, p + 1)
  }

  /** The position after reading up to `end`, or just behind the first timeout before it. */
  function ReadEnd(input: seq<Input>, p: nat, end: nat): (q: nat)
    ensures p <= q
    decreases end - p
  {
    if p >= end then p else if InputAt(input, p) < 0 then p + 1 else ReadEnd(input, p + 1, end)
  }

  datatype Awaited = Start(c: byte) | EndOfText | Cancelled | Nothing

  /** One try to get the start of a packet, with the position after it. */
  function TryOne(input: seq<Input>, p: nat): (r: (Awaited, nat))
    ensures r.1 > p
    ensures r.0.Start? ==> (r.0.c == SOH || r.0.c == STX) && r.1 == p + 1 <= |input| && input[p] == r.0.c
  {
    var c := InputAt(input, p);
    if c == SOH || c == STX then (Start(c), p + 1)
    else if c == EOT then (EndOfText, FlushEnd(input, p + 1))
    else if c != CAN then (Nothing, p + 1)
    else if InputAt(input, p + 1) == CAN then (Cancelled, FlushEnd(input, p + 2))
    else (Nothing, p + 2)
  }

  function Offered(output: seq<byte>, trychar: byte): seq<byte> {
    if trychar != 0 then output + [trychar] else output
  }

  /** Lines 277-302: the tries to get the start of a packet; with the position and the output
      after them.  A trychar of 0 means none. */
  function Seek(input: seq<Input>, p: nat, trychar: byte, output: seq<byte>, tries: nat): (r: (Awaited, nat, seq<byte>))
    ensures r.1 >= p && (tries > 0 ==> r.1 > p)
    ensures r.0.Start? ==> (r.0.c == SOH || r.0.c == STX) && p < r.1 <= |input| && input[r.1 - 1] == r.0.c
    decreases tries, p
  {
    if tries == 0 then (Nothing, p, output)
    else
      var (r, q) := TryOne(input, p);
      if r.Start? then (r, q, Offered(output, trychar))
      else if r.Nothing? then Seek(input, q, trychar, Offered(output, trychar), tries - 1)
      else (r, q, Offered(output, trychar) + [ACK])
  }

  ghost predicate EndsWith(output: seq<byte>, tail: seq<byte>) {
    |output| >= |tail| && output[|output| - |tail|..] == tail
  }

  /** What ended the search: `seen` is the position of the byte that decided. */
  lemma {:induction false} SeekSeen(input: seq<Input>, p: nat, trychar: byte, output: seq<byte>, tries: nat)
    returns (seen: nat)
    ensures
      var (r, at, out) := Seek(input, p, trychar, output, tries);
      && (!r.Nothing? ==> p <= seen < |input|)
      && (r.EndOfText? ==> input[seen] == EOT && EndsWith(out, [ACK]))
      && (r.Cancelled? ==> seen + 1 < |input| && input[seen] == input[seen + 1] == CAN && EndsWith(out, [ACK]))
    decreases tries, p
  {
    seen := p;
    if tries > 0 {
      var (r, q) := TryOne(input, p);
      if r.Nothing? {
        seen := SeekSeen(input, q, trychar, Offered(output, trychar), tries - 1);
      }
    }
  }

  /** The receiver between two packets, with its place on the line. */
  datatype Station = Station(crc: bool, trychar: byte, rx: Rx, at: nat, output: seq<byte>)

  datatype End = Complete | BySender | Silence | TooMany

  datatype Course = Onward(s: Station) | Over(end: End, s: Station)

  /** The reply to one packet. */
  function Replied(input: seq<Input>, s: Station, reply: Reply): (s': Station)
    ensures s'.at >= s.at
  {
    if reply == Acknowledge then s.(output := s.output + [ACK])
    else s.(at := FlushEnd(input, s.at), output := s.output + if reply == Cancel then [CAN, CAN, CAN] else [NAK])
  }

  function PacketSize(start: byte, crc: bool): nat {
    3 + BlockSize(start) + TrailerSize(crc)
  }

  ghost function Frame(input: seq<Input>, p: nat, n: nat): (f: seq<byte>)
    requires Whole(input, p, n)
    ensures |f| == n && forall i :: 0 <= i < n ==> f[i] == input[p + i]
  {
    seq(n, i requires 0 <= i < n => input[p + i])
  }

  lemma ServeWhole(input: seq<Input>, s: Station, start: byte, f: seq<byte>, r: (Rx, Reply))
    requires Started(input, s.at, start) && Whole(input, s.at - 1, PacketSize(start, s.crc))
    requires f == Frame(input, s.at - 1, PacketSize(start, s.crc)) && IsPacket(s.crc, f) && Receive(s.rx, s.crc, f) == r
    ensures
      var stop := ReadEnd(input, s.at, s.at - 1 + PacketSize(start, s.crc));
      var s' := Replied(input, s.(rx := r.0, at := stop), r.1);
      Serve(input, s, start) == if r.1 == Cancel then Over(TooMany, s') else Onward(s')
  {
  }

  ghost predicate Started(input: seq<Input>, at: nat, start: byte) {
    1 <= at <= |input| && input[at - 1] == start && (start == SOH || start == STX)
  }

  /** Lines 310-346: a packet is read behind its start byte, and taken and answered if it is whole. */
  ghost function Serve(input: seq<Input>, s: Station, start: byte): (c: Course)
    requires Started(input, s.at, start)
    ensures c.s.at >= s.at && c.s.trychar == s.trychar
  {
    var from, n := s.at - 1, PacketSize(start, s.crc);
    var stop := ReadEnd(input, s.at, from + n);
    if !Whole(input, from, n) then Onward(Replied(input, s.(at := stop), Refuse))
    else
      var (rx, reply) := Receive(s.rx, s.crc, Frame(input, from, n));
      var s' := Replied(input, s.(rx := rx, at := stop), reply);
      if reply == Cancel then Over(TooMany, s') else Onward(s')
  }

  /** The rest of a round of the outer loop, with so many tries left. */
  ghost function Resume(input: seq<Input>, s: Station, tries: nat): (c: Course)
    ensures tries > 0 ==> s.at < c.s.at
    ensures c.Onward? && s.at >= |input| ==> s.trychar == 'C' as int
    ensures c.Onward? ==> c.s.trychar == 0 || (s.trychar == 'C' as int && c.s.trychar == NAK)
  {
    var (r, at, output) := Seek(input, s.at, s.trychar, s.output, tries);
    var s' := s.(at := at, output := output);
    match r
    case Start(c) => Serve(input, s'.(crc := s.crc || s.trychar == 'C' as int, trychar := 0), c)
    case EndOfText => Over(Complete, s')
    case Cancelled => Over(BySender, s')
    case Nothing =>
      if s.trychar == 'C' as int then Onward(s'.(trychar := NAK))
      else Over(Silence, s'.(at := FlushEnd(input, at), output := output + [CAN, CAN, CAN]))
  }

  /** One round of the outer loop. */
  ghost function Step(input: seq<Input>, s: Station): Course {
    Resume(input, s, TRIES)
  }

  function Left(input: seq<Input>, at: nat): nat {
    if at < |input| then |input| - at else 0
  }

  /** The whole loop: it ends on every line. */
  ghost function Transfer(input: seq<Input>, s: Station): Course
    decreases Left(input, s.at), s.trychar == 'C' as int
  {
    var c := Step(input, s);
    if c.Over? then c else Transfer(input, c.s)
  }

  /** Lines 268-274: up to `tries` inputs are read in search of a ZMODEM header. */
  function Zmodem(input: seq<Input>, p: nat, output: seq<byte>, tries: nat): (nat, seq<byte>)
    decreases tries, p
  {
    if tries == 0 then (p, output)
    else if InputAt(input, p) == 'Z' as int then (p + 1, output + [NAK])
    else Zmodem(input, p + 1, output, tries - 1)
  }

  const HEADER_TRIES: nat := 3

  /** What a call does to the line from position p on. */
  ghost function CallCourse(input: seq<Input>, p: nat, output: seq<byte>): Course {
    var (at, out) := Zmodem(input, p, output, HEADER_TRIES);
    Transfer(input, Station(false, 'C' as int, RX0, at, out))
  }

  // ---------- a line that carries a file without loss

  /** Three timeouts while the receiver looks for a ZMODEM header, the packets, and the end. */
  ghost predicate Carries(input: seq<Input>, ps: seq<seq<byte>>) {
    var c := P.Concat(ps);
    && |input| == 3 + |c| + 1 && input[0] == input[1] == input[2] == -1 && input[3 + |c|] == EOT
    && forall i :: 0 <= i < |c| ==> input[3 + i] == c[i]
  }

  /** The receiver stands before packet k, with all packets before it accepted. */
  ghost predicate OnTrack(input: seq<Input>, ps: seq<seq<byte>>, k: nat, s: Station) {
    && Carries(input, ps) && AllPackets(true, ps) && P.Smooth(ps)
    && k <= |ps| && s.at == 3 + |P.Concat(ps[..k])| && s.rx == Rx(ps[..k], (k + 1) % 256, MAXRETRANS)
    && (if k == 0 then s.trychar == 'C' as int else s.crc && s.trychar == 0)
  }

  /** On track the next packet lies where the receiver reads. */
  lemma NextIsThere(input: seq<Input>, ps: seq<seq<byte>>, k: nat, at: nat)
    requires Carries(input, ps) && AllPackets(true, ps) && k < |ps| && at == 3 + |P.Concat(ps[..k])|
    ensures
      var p := ps[k];
      && CameAt(input, at, p) && Whole(input, at, |p|) && (p[0] == SOH || p[0] == STX) && |p| == PacketSize(p[0], true)
      && |P.Concat(ps[..k + 1])| == |P.Concat(ps[..k])| + |p|
  {
    var p, c := ps[k], P.Concat(ps);
    P.PieceAt(ps, k);
    assert IsPacket(true, p);
    forall i | 0 <= i < |p| ensures input[at + i] == p[i] {
      assert c[at - 3 + i] == P.Concat(ps[..k + 1])[at - 3 + i] == p[i];
    }
    forall i | at <= i < at + |p| ensures input[i] >= 0 {
      assert input[at + (i - at)] == p[i - at];
    }
  }

  lemma {:induction false} ReadEndWhole(input: seq<Input>, p: nat, end: nat)
    requires p <= end <= |input| && forall i :: p <= i < end ==> input[i] >= 0
    ensures ReadEnd(input, p, end) == end
    decreases end - p
  {
    if p < end {
      ReadEndWhole(input, p + 1, end);
    }
  }

  /** A start byte is found by the next try. */
  lemma SeekStart(input: seq<Input>, at: nat, trychar: byte, output: seq<byte>, c: byte, tries: nat)
    requires tries > 0 && at < |input| && input[at] == c && (c == SOH || c == STX)
    ensures Seek(input, at, trychar, output, tries) == (Start(c), at + 1, Offered(output, trychar))
  {
  }

  /** A whole packet that is acknowledged leaves the receiver just behind it. */
  lemma ServeAcknowledged(input: seq<Input>, s: Station, p: seq<byte>, rx: Rx)
    requires s.crc && s.at >= 1 && IsPacket(true, p)
    requires CameAt(input, s.at - 1, p) && Whole(input, s.at - 1, |p|)
    requires Receive(s.rx, true, p) == (rx, Acknowledge)
    ensures Started(input, s.at, p[0])
    ensures
      Serve(input, s, p[0]) == Onward(s.(rx := rx, at := s.at - 1 + |p|, output := s.output + [ACK]))
  {
    var from := s.at - 1;
    assert input[from + 0] == p[0];
    SameBytes(input, from, Frame(input, from, |p|), p);
    ReadEndWhole(input, s.at, from + |p|);
    ServeWhole(input, s, p[0], p, (rx, Acknowledge));
  }

  /** The station behind the packet p, which has been accepted. */
  function Behind(s: Station, p: seq<byte>, rx: Rx): Station {
    Station(true, 0, rx, s.at + |p|, Offered(s.output, s.trychar) + [ACK])
  }

  /** A packet that lies where the receiver reads, and that it would acknowledge, is taken. */
  lemma StepTakes(input: seq<Input>, s: Station, p: seq<byte>, rx: Rx)
    requires s.crc || s.trychar == 'C' as int
    requires IsPacket(true, p) && CameAt(input, s.at, p) && Whole(input, s.at, |p|)
    requires Receive(s.rx, true, p) == (rx, Acknowledge)
    ensures Step(input, s) == Onward(Behind(s, p, rx))
  {
    var w := Station(true, 0, s.rx, s.at + 1, Offered(s.output, s.trychar));
    assert input[s.at + 0] == p[0];
    SeekStart(input, s.at, s.trychar, s.output, p[0], TRIES);
    ServeAcknowledged(input, w, p, rx);
    ResumeIsServe(input, s, TRIES, p[0], w, Onward(Behind(s, p, rx)));
  }

  /** The next packet is taken and acknowledged. */
  lemma StepOnTrack(input: seq<Input>, ps: seq<seq<byte>>, k: nat, s: Station) returns (s': Station)
    requires OnTrack(input, ps, k, s) && k < |ps|
    ensures Step(input, s) == Onward(s') && OnTrack(input, ps, k + 1, s')
  {
    var p, rx := ps[k], Rx(ps[..k + 1], (k + 2) % 256, MAXRETRANS);
    NextIsThere(input, ps, k, s.at);
    assert ps[..k + 1] == ps[..k] + [p];
    s' := Behind(s, p, rx);
    StepTakes(input, s, p, rx);
    NextOnTrack(input, ps, k, s, s');
  }

  lemma NextOnTrack(input: seq<Input>, ps: seq<seq<byte>>, k: nat, s: Station, s': Station)
    requires OnTrack(input, ps, k, s) && k < |ps|
    requires s'.rx == Rx(ps[..k + 1], (k + 2) % 256, MAXRETRANS) && s'.at == s.at + |ps[k]|
    requires s'.crc && s'.trychar == 0
    ensures OnTrack(input, ps, k + 1, s')
  {
    P.PieceAt(ps, k);
  }

  lemma ResumeIsServe(input: seq<Input>, s: Station, tries: nat, c: byte, w: Station, next: Course)
    requires Seek(input, s.at, s.trychar, s.output, tries) == (Start(c), w.at, w.output)
    requires w == s.(crc := s.crc || s.trychar == 'C' as int, trychar := 0, at := w.at, output := w.output)
    requires Serve(input, w, c) == next
    ensures Resume(input, s, tries) == next
  {
  }

  /** Behind the last packet the transfer is complete. */
  lemma EndOnTrack(input: seq<Input>, ps: seq<seq<byte>>, s: Station)
    requires OnTrack(input, ps, |ps|, s)
    ensures Step(input, s).Over? && Step(input, s).end == Complete
    ensures Step(input, s).s.rx == s.rx && Step(input, s).s.crc == s.crc
  {
    assert ps[..|ps|] == ps;
  }

  lemma {:induction false} TransferOnTrack(input: seq<Input>, ps: seq<seq<byte>>, k: nat, s: Station)
    requires OnTrack(input, ps, k, s)
    ensures
      var c := Transfer(input, s);
      c.Over? && c.end == Complete && c.s.rx.accepted == ps && (ps == [] || c.s.crc)
    decreases |ps| - k
  {
    if k < |ps| {
      var s' := StepOnTrack(input, ps, k, s);
      TransferOnTrack(input, ps, k + 1, s');
    } else {
      assert ps[..|ps|] == ps;
      EndOnTrack(input, ps, s);
    }
  }

  lemma NoHeader(input: seq<Input>, output: seq<byte>)
    requires |input| >= 3 && input[0] == input[1] == input[2] == -1
    ensures Zmodem(input, 0, output, HEADER_TRIES) == (3, output)
  {
    assert Zmodem(input, 1, output, 2) == Zmodem(input, 2, output, 1) == Zmodem(input, 3, output, 0);
  }

  /** On a line that carries the packets of a file every one of them is accepted, in order and with
      the 16-bit checksum, and the transfer is complete. */
  lemma CleanCourse(input: seq<Input>, blocks: seq<seq<byte>>, output: seq<byte>)
    requires P.AreBlocks(blocks) && Carries(input, P.PacketsOf(blocks))
    ensures
      var c := CallCourse(input, 0, output);
      && c.Over? && c.end == Complete && c.s.rx.accepted == P.PacketsOf(blocks)
      && (blocks == [] || c.s.crc)
  {
    var ps := P.PacketsOf(blocks);
    P.PacketsAreSmooth(blocks, ps);
    NoHeader(input, output);
    assert ps[..0] == [];
    TransferOnTrack(input, ps, 0, Station(false, 'C' as int, RX0, 3, output));
  }

  // ---------- the bytes themselves

  /** `q` is just behind the first timeout from position p on. */
  predicate BehindTimeout(input: seq<Input>, p: nat, q: nat) {
    p < q && InputAt(input, q - 1) < 0 && forall i :: p <= i < q - 1 ==> InputAt(input, i) >= 0
  }

  /** A packet starts with 0x01 or 0x02, the text ends with 0x04, and 0x18 twice cancels; behind an end
      and a cancellation the input is flushed. */
  lemma TryExactly(input: seq<Input>, p: nat)
    ensures
      var (r, q) := TryOne(input, p);
      && (r.Start? <==> InputAt(input, p) == 0x01 || InputAt(input, p) == 0x02)
      && (r.EndOfText? <==> InputAt(input, p) == 0x04)
      && (r.Cancelled? <==> InputAt(input, p) == InputAt(input, p + 1) == 0x18)
      && (r.EndOfText? ==> BehindTimeout(input, p + 1, q))
      && (r.Cancelled? ==> BehindTimeout(input, p + 2, q))
  {
  }

  /** A packet is acknowledged with 0x06 at once; otherwise the input is flushed before 0x15 or, to cancel,
      0x18 three times. */
  lemma ReplyExactly(input: seq<Input>, s: Station, reply: Reply)
    ensures
      var s' := Replied(input, s, reply);
      match reply
      case Acknowledge => s' == s.(output := s.output + [0x06])
      case Refuse => s' == s.(at := s'.at, output := s.output + [0x15]) && BehindTimeout(input, s.at, s'.at)
      case Cancel =>
        s' == s.(at := s'.at, output := s.output + [0x18, 0x18, 0x18]) && BehindTimeout(input, s.at, s'.at)
  {
  }

  /** The search for a ZMODEM header ends behind the first Z among three inputs, which is answered with
      0x15, or behind the three. */
  lemma {:induction false} HeaderExactly(input: seq<Input>, p: nat, output: seq<byte>, tries: nat, q: nat)
    requires p <= q <= p + tries && forall i :: p <= i < q ==> InputAt(input, i) != 'Z' as int
    requires q < p + tries ==> InputAt(input, q) == 'Z' as int
    ensures Zmodem(input, p, output, tries) == if q < p + tries then (q + 1, output + [0x15]) else (q, output)
    decreases tries, p
  {
    if tries > 0 && p < q {
      HeaderExactly(input, p + 1, output, tries - 1, q);
    }
  }

  // ---------- a line that stays silent

  lemma {:induction false} SeekSilent(input: seq<Input>, p: nat, trychar: byte, output: seq<byte>, tries: nat)
    requires p >= |input| && trychar != 0
    ensures Seek(input, p, trychar, output, tries) == (Nothing, p + tries, output + seq(tries, _ => trychar))
    decreases tries, p
  {
    if tries > 0 {
      SeekSilent(input, p + 1, trychar, output + [trychar], tries - 1);
      assert output + [trychar] + seq(tries - 1, _ => trychar) == output + seq(tries, _ => trychar);
    } else {
      assert output + seq(0, _ => trychar) == output;
    }
  }

  lemma {:induction false} ZmodemSilent(input: seq<Input>, p: nat, output: seq<byte>, tries: nat)
    requires p >= |input|
    ensures Zmodem(input, p, output, tries) == (p + tries, output)
    decreases tries, p
  {
    if tries > 0 {
      ZmodemSilent(input, p + 1, output, tries - 1);
    }
  }

  lemma StepSilent(input: seq<Input>, s: Station, out: seq<byte>)
    requires s.at >= |input| && s.trychar != 0 && out == s.output + seq(TRIES, _ => s.trychar)
    ensures
      Step(input, s)
      == if s.trychar == 'C' as int then Onward(s.(trychar := NAK, at := s.at + TRIES, output := out))
         else Over(Silence, s.(at := s.at + TRIES + 1, output := out + [CAN, CAN, CAN]))
  {
    SeekSilent(input, s.at, s.trychar, s.output, TRIES);
    assert FlushEnd(input, s.at + TRIES) == s.at + TRIES + 1;
  }

  /** Without a sender the receiver asks sixteen times for the 16-bit checksum and sixteen times for the
      plain one, and then cancels. */
  lemma SilentCall(input: seq<Input>, p: nat, output: seq<byte>)
    requires p >= |input|
    ensures
      var c := CallCourse(input, p, output);
      && c.Over? && c.end == Silence && c.s.rx.accepted == [] && c.s.at == p + 36
      && c.s.output
         == output + seq(16, _ => 0x43) + seq(16, _ => 0x15) + [0x18, 0x18, 0x18]
  {
    ZmodemSilent(input, p, output, HEADER_TRIES);
    var s := Station(false, 'C' as int, RX0, p + HEADER_TRIES, output);
    var once := output + seq(TRIES, _ => s.trychar);
    StepSilent(input, s, once);
    var s' := s.(trychar := NAK, at := s.at + TRIES, output := once);
    var twice := once + seq(TRIES, _ => s'.trychar);
    StepSilent(input, s', twice);
    assert Transfer(input, s) == Transfer(input, s') == Step(input, s');
    assert seq(TRIES, _ => s.trychar) == seq(16, _ => 0x43);
    assert seq(TRIES, _ => s'.trychar) == seq(16, _ => 0x15);
  }
}

/** The lossy exchange of XmodemProtocol, byte by byte: what the sender's packets and the losses leave
    on the line, and that the receiver of XmodemLine goes through it as through the exchange. */
module XmodemWire {
  import opened Machine
  import opened Xmodem
  import opened XmodemLine
  import opened XmodemProtocol

  // ---------- the bytes and timeouts on the line

  function Inputs(f: seq<byte>): (r: seq<Input>)
    ensures |r| == |f| && forall i :: 0 <= i < |f| ==> r[i] == f[i]
  {
    seq(|f|, i requires 0 <= i < |f| => f[i])
  }

  predicate Done(blocks: seq<seq<byte>>, s: System) {
    s.sent >= |blocks| || s.cancelled
  }

  /** A packet, or something else of its shape, and then a timeout; or only the timeout. */
  function Segment(blocks: seq<seq<byte>>, s: System, e: Event): seq<Input>
    requires AreBlocks(blocks) && !Done(blocks, s)
  {
    match e
    case PacketLost => [-1]
    case Damaged(f) => Inputs(f) + [-1]
    case _ => Inputs(Packet(true, blocks[s.sent], s.sent)) + [-1]
  }

  /** What is on the line for the exchanges es; after the last block the sender ends the text. */
  function Wire(blocks: seq<seq<byte>>, s: System, es: seq<Event>): seq<Input>
    requires AreBlocks(blocks) && Possible(true, es)
    decreases |es|
  {
    if es == [] then if s.sent == |blocks| && !s.cancelled then [EOT] else []
    else if Done(blocks, s) then Wire(blocks, s, es[1..])
    else Segment(blocks, s, es[0]) + Wire(blocks, Exchange(blocks, true, s, es[0]), es[1..])
  }

  /** The receiver never has to wait through all of its tries: fewer than `tries` packets are lost in
      a row, and fewer than 15 behind one that came. */
  predicate Patient(blocks: seq<seq<byte>>, s: System, es: seq<Event>, tries: nat)
    requires AreBlocks(blocks) && Possible(true, es)
    decreases |es|
  {
    tries > 0
    && (es == [] || Done(blocks, s)
        || Patient(blocks, Exchange(blocks, true, s, es[0]), es[1..],
                   if es[0].PacketLost? then tries - 1 else TRIES - 1))
  }

  // ---------- a transfer in the middle of a search

  /** The rest of a transfer in the middle of a search. */
  ghost function Rest(input: seq<Input>, s: Station, tries: nat): Course {
    var c := Resume(input, s, tries);
    if c.Over? then c else Transfer(input, c.s)
  }

  lemma RestIsTransfer(input: seq<Input>, s: Station)
    ensures Rest(input, s, TRIES) == Transfer(input, s)
  {
  }

  lemma SeekTimeout(input: seq<Input>, p: nat, trychar: byte, output: seq<byte>, tries: nat)
    requires tries > 0 && InputAt(input, p) == -1
    ensures
      Seek(input, p, trychar, output, tries) == Seek(input, p + 1, trychar, Offered(output, trychar), tries - 1)
  {
  }

  /** A round depends on the search alone. */
  lemma SameSearch(input: seq<Input>, s: Station, s': Station, tries: nat, tries': nat)
    requires s' == s.(at := s'.at, output := s'.output)
    requires
      Seek(input, s.at, s.trychar, s.output, tries) == Seek(input, s'.at, s'.trychar, s'.output, tries')
    ensures Resume(input, s, tries) == Resume(input, s', tries')
  {
  }

  /** A timeout costs one try. */
  lemma TimeoutPasses(input: seq<Input>, s: Station, tries: nat)
    requires tries > 0 && InputAt(input, s.at) == -1
    ensures Rest(input, s, tries) == Rest(input, s.(at := s.at + 1, output := Offered(s.output, s.trychar)), tries - 1)
  {
    SeekTimeout(input, s.at, s.trychar, s.output, tries);
    SameSearch(input, s, s.(at := s.at + 1, output := Offered(s.output, s.trychar)), tries, tries - 1);
  }

  /** The next try finds a start byte. */
  lemma StartFound(input: seq<Input>, s: Station, tries: nat, c: byte, w: Station, next: Course)
    requires tries > 0 && s.at < |input| && input[s.at] == c && (c == SOH || c == STX)
    requires w == Station(s.crc || s.trychar == 'C' as int, 0, s.rx, s.at + 1, Offered(s.output, s.trychar))
    requires Serve(input, w, c) == next
    ensures Rest(input, s, tries) == if next.Over? then next else Transfer(input, next.s)
  {
    SeekStart(input, s.at, s.trychar, s.output, c, tries);
    ResumeIsServe(input, s, tries, c, w, next);
  }

  /** How the receiver stands after the packet p and its timeout. */
  function After(s: Station, p: seq<byte>, rx: Rx, reply: Reply): Station {
    var out := Offered(s.output, s.trychar);
    if reply == Acknowledge then Station(true, 0, rx, s.at + |p|, out + [ACK])
    else Station(true, 0, rx, s.at + |p| + 1, out + if reply == Cancel then [CAN, CAN, CAN] else [NAK])
  }

  /** A whole packet in front of a timeout is taken and answered. */
  lemma PacketServed(input: seq<Input>, s: Station, tries: nat, p: seq<byte>, rx: Rx, reply: Reply)
    requires tries > 0 && (s.crc || s.trychar == 'C' as int)
    requires IsPacket(true, p) && CameAt(input, s.at, p) && InputAt(input, s.at + |p|) == -1
    requires Receive(s.rx, true, p) == (rx, reply)
    ensures
      var s' := After(s, p, rx, reply);
      Rest(input, s, tries) == if reply == Cancel then Over(TooMany, s') else Transfer(input, s')
  {
    var w := Station(true, 0, s.rx, s.at + 1, Offered(s.output, s.trychar));
    assert input[s.at + 0] == p[0];
    WholeServed(input, w, p, (rx, reply));
    AfterIsServed(input, s, w, p, rx, reply);
    StartFound(input, s, tries, p[0], w, Served(input, w, p, (rx, reply)));
  }

  lemma FlushHere(input: seq<Input>, p: nat)
    requires InputAt(input, p) == -1
    ensures FlushEnd(input, p) == p + 1
  {
  }

  /** What serving the packet p leads to, when the receiver makes r of it. */
  ghost function Served(input: seq<Input>, w: Station, p: seq<byte>, r: (Rx, Reply)): Course
    requires w.at >= 1
  {
    var s := Replied(input, w.(rx := r.0, at := w.at - 1 + |p|), r.1);
    if r.1 == Cancel then Over(TooMany, s) else Onward(s)
  }

  lemma AfterIsServed(input: seq<Input>, s: Station, w: Station, p: seq<byte>, rx: Rx, reply: Reply)
    requires InputAt(input, s.at + |p|) == -1
    requires w == Station(true, 0, s.rx, s.at + 1, Offered(s.output, s.trychar))
    ensures
      var s' := After(s, p, rx, reply);
      Served(input, w, p, (rx, reply)) == if reply == Cancel then Over(TooMany, s') else Onward(s')
  {
    FlushHere(input, s.at + |p|);
  }

  lemma WholeServed(input: seq<Input>, w: Station, p: seq<byte>, r: (Rx, Reply))
    requires w.crc && w.at >= 1 && IsPacket(true, p) && CameAt(input, w.at - 1, p)
    requires Receive(w.rx, true, p) == r
    ensures Started(input, w.at, p[0]) && Serve(input, w, p[0]) == Served(input, w, p, r)
  {
    var from := w.at - 1;
    assert input[from + 0] == p[0];
    CameIsWhole(input, from, p);
    SameBytes(input, from, Frame(input, from, |p|), p);
    ReadEndWhole(input, w.at, from + |p|);
    ServeWhole(input, w, p[0], p, r);
  }

  lemma CameIsWhole(input: seq<Input>, from: nat, p: seq<byte>)
    requires CameAt(input, from, p)
    ensures Whole(input, from, |p|)
  {
    forall i | from <= i < from + |p| ensures input[i] >= 0 {
      assert input[from + (i - from)] == p[i - from];
    }
  }

  /** When nothing more comes the transfer ends, whatever was being waited for. */
  lemma SilenceEnds(input: seq<Input>, s: Station, tries: nat)
    requires s.at >= |input|
    ensures
      var c := Rest(input, s, tries);
      c.Over? && c.end == Silence && c.s.rx == s.rx && c.s.crc == s.crc
  {
    NothingFound(input, s.at, s.trychar, s.output, tries);
    var c := Resume(input, s, tries);
    if c.Onward? {
      NothingFound(input, c.s.at, c.s.trychar, c.s.output, TRIES);
    }
  }

  lemma {:induction false} NothingFound(input: seq<Input>, p: nat, trychar: byte, output: seq<byte>, tries: nat)
    requires p >= |input|
    ensures Seek(input, p, trychar, output, tries).0 == Nothing && Seek(input, p, trychar, output, tries).1 >= p
    decreases tries
  {
    if tries > 0 {
      NothingFound(input, p + 1, trychar, Offered(output, trychar), tries - 1);
    }
  }

  /** The end of the text is found by the next try. */
  lemma EndFound(input: seq<Input>, s: Station, tries: nat)
    requires tries > 0 && InputAt(input, s.at) == EOT
    ensures
      var c := Rest(input, s, tries);
      c.Over? && c.end == Complete && c.s.rx == s.rx && c.s.crc == s.crc
  {
  }

  // ---------- the receiver goes through the line as through the exchange

  ghost predicate Ready(s: Station) {
    (s.crc && s.trychar == 0) || (s.trychar == 'C' as int && s.rx.accepted == [])
  }

  /** The rest of the line begins with f and a timeout, and goes on with `more`. */
  lemma SegmentParts(input: seq<Input>, at: nat, f: seq<byte>, more: seq<Input>)
    requires at <= |input| && input[at..] == Inputs(f) + [-1] + more
    ensures CameAt(input, at, f) && InputAt(input, at + |f|) == -1
    ensures at + |f| + 1 <= |input| && input[at + |f| + 1..] == more
  {
    var rest := input[at..];
    forall i | 0 <= i < |f| ensures input[at + i] == f[i] {
      assert rest[i] == f[i];
    }
    assert rest[|f|] == -1 && rest[|f| + 1..] == more;
  }

  lemma {:induction false} CancelledStays(blocks: seq<seq<byte>>, s: System, es: seq<Event>)
    requires AreBlocks(blocks) && Possible(true, es) && Done(blocks, s)
    ensures Run(blocks, true, s, es) == s
    decreases |es|
  {
    if es != [] {
      CancelledStays(blocks, s, es[1..]);
    }
  }

  lemma {:induction false} WireDone(blocks: seq<seq<byte>>, s: System, es: seq<Event>)
    requires AreBlocks(blocks) && Possible(true, es) && Done(blocks, s)
    ensures Wire(blocks, s, es) == Wire(blocks, s, [])
    decreases |es|
  {
    if es != [] {
      WireDone(blocks, s, es[1..]);
    }
  }

  /** How the transfer ends, and with which receiver, in terms of the exchange. */
  ghost predicate Agrees(c: Course, blocks: seq<seq<byte>>, end: System) {
    && c.Over? && c.s.rx == end.rx && (c.s.crc || c.s.rx.accepted == [])
    && c.end == if end.cancelled then TooMany else if end.sent == |blocks| then Complete else Silence
  }

  lemma WireEnds(blocks: seq<seq<byte>>, sys: System, input: seq<Input>, s: Station, tries: nat)
    requires AreBlocks(blocks) && !sys.cancelled && tries > 0
    requires s.at <= |input| && input[s.at..] == Wire(blocks, sys, []) && s.rx == sys.rx && Ready(s)
    ensures Agrees(Rest(input, s, tries), blocks, sys)
  {
    if sys.sent == |blocks| {
      assert input[s.at..][0] == EOT;
      EndFound(input, s, tries);
    } else {
      SilenceEnds(input, s, tries);
    }
  }

  /** The timeout behind an acknowledged packet costs the next search a try. */
  lemma AckPasses(input: seq<Input>, s: Station, more: seq<Input>) returns (s': Station)
    requires s.at < |input| && input[s.at] == -1 && input[s.at + 1..] == more
    ensures s' == s.(at := s.at + 1, output := Offered(s.output, s.trychar))
    ensures Transfer(input, s) == Rest(input, s', TRIES - 1) && s'.at <= |input| && input[s'.at..] == more
  {
    RestIsTransfer(input, s);
    TimeoutPasses(input, s, TRIES);
    s' := s.(at := s.at + 1, output := Offered(s.output, s.trychar));
  }

  /** Anything of a packet's shape that comes: where the receiver goes on. */
  lemma SegmentTaken(input: seq<Input>, s: Station, tries: nat, f: seq<byte>, rx: Rx, reply: Reply, more: seq<Input>)
    returns (s': Station, tries': nat)
    requires tries > 0 && Ready(s) && s.at <= |input| && input[s.at..] == Inputs(f) + [-1] + more
    requires IsPacket(true, f) && Receive(s.rx, true, f) == (rx, reply)
    ensures s'.rx == rx && s'.crc && s'.trychar == 0 && tries' >= TRIES - 1
    ensures reply == Cancel ==> Rest(input, s, tries) == Over(TooMany, s')
    ensures reply != Cancel ==> Rest(input, s, tries) == Rest(input, s', tries')
    ensures reply != Cancel ==> s'.at <= |input| && input[s'.at..] == more
  {
    SegmentParts(input, s.at, f, more);
    PacketServed(input, s, tries, f, rx, reply);
    s', tries' := After(s, f, rx, reply), TRIES;
    if reply == Acknowledge {
      tries' := TRIES - 1;
      s' := AckPasses(input, s', more);
    } else if reply == Refuse {
      RestIsTransfer(input, s');
    }
  }

  lemma MoreTries(blocks: seq<seq<byte>>, s: System, es: seq<Event>, tries: nat, tries': nat)
    requires AreBlocks(blocks) && Possible(true, es) && Patient(blocks, s, es, tries) && tries' >= tries
    ensures Patient(blocks, s, es, tries')
    decreases |es|
  {
    if es != [] && !Done(blocks, s) && es[0].PacketLost? {
      MoreTries(blocks, Exchange(blocks, true, s, es[0]), es[1..], tries - 1, tries' - 1);
    }
  }

  /** From any point of the exchange on. */
  lemma {:induction false} WireCourse(blocks: seq<seq<byte>>, sys: System, es: seq<Event>, input: seq<Input>,
                                      s: Station, tries: nat)
    requires AreBlocks(blocks) && Possible(true, es) && !sys.cancelled && Patient(blocks, sys, es, tries)
    requires s.at <= |input| && input[s.at..] == Wire(blocks, sys, es) && s.rx == sys.rx && Ready(s)
    ensures Agrees(Rest(input, s, tries), blocks, Run(blocks, true, sys, es))
    decreases |es|
  {
    if es == [] || Done(blocks, sys) {
      EndsHere(blocks, sys, es);
      WireEnds(blocks, sys, input, s, tries);
    } else {
      var sys' := Exchange(blocks, true, sys, es[0]);
      var more := Wire(blocks, sys', es[1..]);
      if es[0].PacketLost? {
        assert input[s.at..][0] == -1 && input[s.at..][1..] == more;
        TimeoutPasses(input, s, tries);
        var s' := s.(at := s.at + 1, output := Offered(s.output, s.trychar));
        assert input[s'.at..] == more;
        WireCourse(blocks, sys', es[1..], input, s', tries - 1);
      } else {
        var f := if es[0].Damaged? then es[0].f else Packet(true, blocks[sys.sent], sys.sent);
        PacketShape(true, blocks[sys.sent], sys.sent);
        var (rx, reply) := Receive(s.rx, true, f);
        var s', tries' := SegmentTaken(input, s, tries, f, rx, reply, more);
        if reply == Cancel {
          CancelledStays(blocks, sys', es[1..]);
        } else {
          MoreTries(blocks, sys', es[1..], TRIES - 1, tries');
          WireCourse(blocks, sys', es[1..], input, s', tries');
        }
      }
    }
  }

  lemma EndsHere(blocks: seq<seq<byte>>, s: System, es: seq<Event>)
    requires AreBlocks(blocks) && Possible(true, es) && (es == [] || Done(blocks, s))
    ensures Run(blocks, true, s, es) == s && Wire(blocks, s, es) == Wire(blocks, s, [])
  {
    if es != [] {
      CancelledStays(blocks, s, es);
      WireDone(blocks, s, es);
    }
  }

  /** The whole line: three timeouts during the search for a ZMODEM header, then the exchange. */
  function LossyLine(blocks: seq<seq<byte>>, es: seq<Event>): seq<Input>
    requires AreBlocks(blocks) && Possible(true, es)
  {
    [-1, -1, -1] + Wire(blocks, START, es)
  }

  /** The line carries the exchanges es for these blocks. */
  ghost predicate CarriesLossy(input: seq<Input>, blocks: seq<seq<byte>>, es: seq<Event>) {
    && AreBlocks(blocks) && Possible(true, es) && Patient(blocks, START, es, TRIES)
    && input == LossyLine(blocks, es)
  }

  /** On a line with any losses and detected damage, as long as they leave the receiver a try, it
      ends with exactly the packets that the exchange has it accept; it reports success exactly when
      the sender got the last block through. */
  lemma LossyCourse(input: seq<Input>, blocks: seq<seq<byte>>, es: seq<Event>, output: seq<byte>)
    requires CarriesLossy(input, blocks, es)
    ensures Agrees(CallCourse(input, 0, output), blocks, Run(blocks, true, START, es))
  {
    NoHeader(input, output);
    var s := Station(false, 'C' as int, RX0, 3, output);
    assert input[3..] == Wire(blocks, START, es);
    WireCourse(blocks, START, es, input, s, TRIES);
    RestIsTransfer(input, s);
  }

  lemma AcceptedPayload(blocks: seq<seq<byte>>, s: System, crc: bool)
    requires AreBlocks(blocks) && InStep(blocks, true, s)
    requires crc || s.rx.accepted == []
    ensures AllPackets(crc, s.rx.accepted) && |s.rx.accepted| <= |blocks|
    ensures Payload(crc, s.rx.accepted) == Concat(blocks[..|s.rx.accepted|])
    ensures s.sent == |blocks| ==> |s.rx.accepted| == |blocks|
  {
    if crc {
      AcceptedIsPrefix(blocks, true, s.rx.accepted);
    }
  }

  lemma EndInStep(blocks: seq<seq<byte>>, crc: bool, es: seq<Event>, end: System)
    requires AreBlocks(blocks) && Possible(crc, es) && end == Run(blocks, crc, START, es)
    ensures InStep(blocks, crc, end)
  {
    RunKeepsStep(blocks, crc, START, es);
  }

  /** What has been received then: the first blocks of the file, all of them when the sender is done. */
  lemma LossyPayload(blocks: seq<seq<byte>>, es: seq<Event>, end: System, crc: bool)
    requires AreBlocks(blocks) && Possible(true, es) && end == Run(blocks, true, START, es)
    requires crc || end.rx.accepted == []
    ensures AllPackets(crc, end.rx.accepted) && |end.rx.accepted| <= |blocks|
    ensures Payload(crc, end.rx.accepted) == Concat(blocks[..|end.rx.accepted|])
    ensures end.sent == |blocks| ==> |end.rx.accepted| == |blocks|
  {
    EndInStep(blocks, true, es, end);
    AcceptedPayload(blocks, end, crc);
  }

  predicate NoneLost(es: seq<Event>) {
    forall i :: 0 <= i < |es| ==> !es[i].PacketLost?
  }

  lemma {:induction false} PatientIfNoneLost(blocks: seq<seq<byte>>, s: System, es: seq<Event>, tries: nat)
    requires AreBlocks(blocks) && Possible(true, es) && NoneLost(es) && tries > 0
    ensures Patient(blocks, s, es, tries)
    decreases |es|
  {
    if es != [] && !Done(blocks, s) {
      PatientIfNoneLost(blocks, Exchange(blocks, true, s, es[0]), es[1..], TRIES - 1);
    }
  }

  lemma StuckRun(blocks: seq<seq<byte>>, crc: bool, k: nat, first: seq<Event>, more: seq<Event>, es: seq<Event>)
    returns (end: System)
    requires AreBlocks(blocks) && k < |blocks| && k % 256 == 254 && Possible(crc, more)
    requires first == Deliveries(k) + [ReplyLost] && es == first + more
    ensures Possible(crc, es) && end == Run(blocks, crc, START, es)
    ensures end.sent == k && |end.rx.accepted| == k + 1 && !end.cancelled
  {
    StuckWitness(blocks, crc, k);
    RunConcat(blocks, crc, START, first, more);
    end := Run(blocks, crc, START, first);
    EndInStep(blocks, crc, first, end);
    StuckForever(blocks, crc, end, more);
  }

  /** The stuck transfer, byte by byte: 254 blocks modulo 256 go through, the reply to the next one is
      lost, and whatever packets the sender sends from then on, the receiver takes none of them and
      ends with a synchronisation error. */
  lemma StuckOnTheLine(blocks: seq<seq<byte>>, k: nat, more: seq<Event>, es: seq<Event>, input: seq<Input>,
                       output: seq<byte>) returns (c: Course)
    requires AreBlocks(blocks) && k < |blocks| && k % 256 == 254 && Possible(true, more) && NoneLost(more)
    requires es == Deliveries(k) + [ReplyLost] + more && Possible(true, es) && input == LossyLine(blocks, es)
    ensures c == CallCourse(input, 0, output)
    ensures c.Over? && c.end == Silence && |c.s.rx.accepted| == k + 1
  {
    var end := StuckRun(blocks, true, k, Deliveries(k) + [ReplyLost], more, es);
    PatientIfNoneLost(blocks, START, es, TRIES);
    c := LossyEnd(input, blocks, es, output, end);
  }

  lemma LossyEnd(input: seq<Input>, blocks: seq<seq<byte>>, es: seq<Event>, output: seq<byte>, end: System)
    returns (c: Course)
    requires CarriesLossy(input, blocks, es) && end == Run(blocks, true, START, es)
    ensures c == CallCourse(input, 0, output) && Agrees(c, blocks, end)
  {
    LossyCourse(input, blocks, es, output);
    c := CallCourse(input, 0, output);
  }
}

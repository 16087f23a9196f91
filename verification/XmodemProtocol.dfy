/** The receiver of Xmodem composed with a stop-and-wait sender over a line that may lose or
    damage packets and lose replies. */
module XmodemProtocol {
  import opened Machine
  import opened Xmodem
  import Ccitt

  /** The file to send, already cut into blocks of 128 or 1024 bytes. */
  predicate AreBlocks(blocks: seq<seq<byte>>) {
    forall i :: 0 <= i < |blocks| ==> |blocks[i]| == 128 || |blocks[i]| == 1024
  }

  function Trailer(crc: bool, block: seq<byte>): (t: seq<byte>)
    ensures |t| == TrailerSize(crc)
  {
    if crc then [Ccitt.Crc16(block) / 256, Ccitt.Crc16(block) % 256] else [Sum8(block)]
  }

  /** The packet that carries a block under number (k + 1) modulo 256. */
  function Packet(crc: bool, block: seq<byte>, k: nat): seq<byte>
    requires |block| == 128 || |block| == 1024
  {
    [if |block| == 128 then SOH else STX, (k + 1) % 256, 255 - (k + 1) % 256] + block + Trailer(crc, block)
  }

  lemma PacketShape(crc: bool, block: seq<byte>, k: nat)
    requires |block| == 128 || |block| == 1024
    ensures IsPacket(crc, Packet(crc, block, k))
    ensures Block(crc, Packet(crc, block, k)) == block
    ensures Packet(crc, block, k)[0] == if |block| == 128 then 0x01 else 0x02
    ensures Packet(crc, block, k)[1] == (k + 1) % 256 && Packet(crc, block, k)[2] == 255 - (k + 1) % 256
    ensures Undamaged(crc, Packet(crc, block, k))
    ensures Matches(crc, block, Packet(crc, block, k)[3 + |block|..])
  {
    var f := Packet(crc, block, k);
    assert f[3..3 + |block|] == block;
    assert f[3 + |block|..] == Trailer(crc, block);
    TrailerChecks(crc, block);
    ChecksExactly(crc, block, Trailer(crc, block));
  }

  lemma TrailerChecks(crc: bool, block: seq<byte>)
    ensures Checks(crc, block, Trailer(crc, block))
  {
  }

  /** What happens to one packet and its reply. */
  datatype Event =
    | Delivered               // the packet and the reply arrive
    | ReplyLost               // the packet arrives, the reply does not
    | PacketLost              // the receiver times out; whatever it says, the sender repeats
    | Damaged(f: seq<byte>)   // something else arrives, and it does not pass the tests

  /** How many blocks the sender believes to be delivered, the receiver, and whether the
      receiver has given up. */
  datatype System = System(sent: nat, rx: Rx, cancelled: bool)

  const START := System(0, RX0, false)

  predicate PossibleEvent(crc: bool, e: Event) {
    e.Damaged? ==> IsPacket(crc, e.f) && !Undamaged(crc, e.f)
  }

  /** One exchange.  Both sides stop when the file is out or the receiver has cancelled. */
  function Exchange(blocks: seq<seq<byte>>, crc: bool, s: System, e: Event): System
    requires AreBlocks(blocks) && PossibleEvent(crc, e)
  {
    if s.sent >= |blocks| || s.cancelled || e.PacketLost? then s
    else if e.Damaged? then s.(rx := Receive(s.rx, crc, e.f).0)
    else
      PacketShape(crc, blocks[s.sent], s.sent);
      var (rx', reply) := Receive(s.rx, crc, Packet(crc, blocks[s.sent], s.sent));
      System(if reply == Acknowledge && e.Delivered? then s.sent + 1 else s.sent, rx', reply == Cancel)
  }

  function Run(blocks: seq<seq<byte>>, crc: bool, s: System, es: seq<Event>): System
    requires AreBlocks(blocks) && forall i :: 0 <= i < |es| ==> PossibleEvent(crc, es[i])
    decreases |es|
  {
    if es == [] then s else Run(blocks, crc, Exchange(blocks, crc, s, es[0]), es[1..])
  }

  function Concat(blocks: seq<seq<byte>>): seq<byte> {
    if blocks == [] then [] else Concat(blocks[..|blocks| - 1]) + blocks[|blocks| - 1]
  }

  /** The receiver is level with the sender, or exactly one block ahead because the last
      acknowledgement was lost; and what it has accepted is what was sent. */
  ghost predicate InStep(blocks: seq<seq<byte>>, crc: bool, s: System)
    requires AreBlocks(blocks)
  {
    var n := |s.rx.accepted|;
    && s.sent <= n <= s.sent + 1 && n <= |blocks|
    && s.rx.packetno == (n + 1) % 256
    && AllPackets(crc, s.rx.accepted)
    && forall k :: 0 <= k < n ==> s.rx.accepted[k] == Packet(crc, blocks[k], k)
  }

  /** The packet that the receiver expects is accepted and acknowledged. */
  lemma ExpectedPacket(crc: bool, rx: Rx, block: seq<byte>, k: nat)
    requires |block| == 128 || |block| == 1024
    requires rx.packetno == (k + 1) % 256
    ensures IsPacket(crc, Packet(crc, block, k))
    ensures
      Receive(rx, crc, Packet(crc, block, k))
      == (Rx(rx.accepted + [Packet(crc, block, k)], (k + 2) % 256, MAXRETRANS), Acknowledge)
  {
    PacketShape(crc, block, k);
  }

  /** What the receiver answers to a repeated packet. */
  function Repeated(rx: Rx): (Rx, Reply) {
    if rx.packetno == 0 then (rx, Refuse)
    else (rx.(retrans := rx.retrans - 1), if rx.retrans <= 1 then Cancel else Acknowledge)
  }

  /** The packet before it is acknowledged again, unless the expected number is 0. */
  lemma RepeatedPacket(crc: bool, rx: Rx, block: seq<byte>, k: nat)
    requires |block| == 128 || |block| == 1024
    requires rx.packetno == (k + 2) % 256
    ensures IsPacket(crc, Packet(crc, block, k))
    ensures Receive(rx, crc, Packet(crc, block, k)) == Repeated(rx)
  {
    PacketShape(crc, block, k);
    NumbersDiffer(k);
  }

  lemma InStepAppend(blocks: seq<seq<byte>>, crc: bool, s: System, s': System, f: seq<byte>)
    requires AreBlocks(blocks) && InStep(blocks, crc, s) && s.sent < |blocks| && |s.rx.accepted| == s.sent
    requires IsPacket(crc, f) && f == Packet(crc, blocks[s.sent], s.sent)
    requires s'.rx.accepted == s.rx.accepted + [f] && s'.rx.packetno == (s.sent + 2) % 256
    requires s.sent <= s'.sent <= s.sent + 1
    ensures InStep(blocks, crc, s')
  {
    forall k | 0 <= k < |s'.rx.accepted|
      ensures s'.rx.accepted[k] == Packet(crc, blocks[k], k) && IsPacket(crc, s'.rx.accepted[k])
    {
      if k < s.sent {
        assert s'.rx.accepted[k] == s.rx.accepted[k];
      }
    }
  }

  lemma LevelExchange(blocks: seq<seq<byte>>, crc: bool, s: System, e: Event)
    requires AreBlocks(blocks) && InStep(blocks, crc, s)
    requires (e.Delivered? || e.ReplyLost?) && s.sent < |blocks| && !s.cancelled && |s.rx.accepted| == s.sent
    ensures InStep(blocks, crc, Exchange(blocks, crc, s, e))
  {
    ExpectedPacket(crc, s.rx, blocks[s.sent], s.sent);
    InStepAppend(blocks, crc, s, Exchange(blocks, crc, s, e), Packet(crc, blocks[s.sent], s.sent));
  }

  /** The exchange, when the receiver answers the packet of the next block with r. */
  lemma ExchangeIs(blocks: seq<seq<byte>>, crc: bool, s: System, e: Event, f: seq<byte>, r: (Rx, Reply))
    requires AreBlocks(blocks) && (e.Delivered? || e.ReplyLost?) && s.sent < |blocks| && !s.cancelled
    requires f == Packet(crc, blocks[s.sent], s.sent) && IsPacket(crc, f) && Receive(s.rx, crc, f) == r
    ensures
      Exchange(blocks, crc, s, e)
      == System(if r.1 == Acknowledge && e.Delivered? then s.sent + 1 else s.sent, r.0, r.1 == Cancel)
  {
  }

  /** A repeated packet changes nothing but the patience, and what the sender believes. */
  lemma RepeatedExchange(blocks: seq<seq<byte>>, crc: bool, s: System, e: Event)
    requires AreBlocks(blocks) && (e.Delivered? || e.ReplyLost?) && s.sent < |blocks| && !s.cancelled
    requires s.rx.packetno == (s.sent + 2) % 256
    ensures
      var r := Repeated(s.rx);
      Exchange(blocks, crc, s, e)
      == System(if r.1 == Acknowledge && e.Delivered? then s.sent + 1 else s.sent, r.0, r.1 == Cancel)
  {
    RepeatedPacket(crc, s.rx, blocks[s.sent], s.sent);
    ExchangeIs(blocks, crc, s, e, Packet(crc, blocks[s.sent], s.sent), Repeated(s.rx));
  }

  lemma InStepSame(blocks: seq<seq<byte>>, crc: bool, s: System, s': System)
    requires AreBlocks(blocks) && InStep(blocks, crc, s)
    requires s'.rx.accepted == s.rx.accepted && s'.rx.packetno == s.rx.packetno
    requires s'.sent <= |s.rx.accepted| <= s'.sent + 1
    ensures InStep(blocks, crc, s')
  {
  }

  lemma AheadExchange(blocks: seq<seq<byte>>, crc: bool, s: System, e: Event)
    requires AreBlocks(blocks) && InStep(blocks, crc, s)
    requires (e.Delivered? || e.ReplyLost?) && s.sent < |blocks| && !s.cancelled && |s.rx.accepted| == s.sent + 1
    ensures InStep(blocks, crc, Exchange(blocks, crc, s, e))
  {
    RepeatedExchange(blocks, crc, s, e);
    InStepSame(blocks, crc, s, Exchange(blocks, crc, s, e));
  }

  lemma ExchangeKeepsStep(blocks: seq<seq<byte>>, crc: bool, s: System, e: Event)
    requires AreBlocks(blocks) && PossibleEvent(crc, e) && InStep(blocks, crc, s)
    ensures InStep(blocks, crc, Exchange(blocks, crc, s, e))
  {
    if s.sent < |blocks| && !s.cancelled && (e.Delivered? || e.ReplyLost?) {
      if |s.rx.accepted| == s.sent {
        LevelExchange(blocks, crc, s, e);
      } else {
        AheadExchange(blocks, crc, s, e);
      }
    }
  }

  lemma NumbersDiffer(k: nat)
    ensures (k + 1) % 256 != (k + 2) % 256
    ensures (k + 2) % 256 != 0 ==> (k + 1) % 256 == (k + 2) % 256 - 1
    ensures (k + 2) % 256 == 0 ==> (k + 1) % 256 == 255
  {
  }

  lemma {:induction false} RunKeepsStep(blocks: seq<seq<byte>>, crc: bool, s: System, es: seq<Event>)
    requires AreBlocks(blocks) && forall i :: 0 <= i < |es| ==> PossibleEvent(crc, es[i])
    requires InStep(blocks, crc, s)
    ensures InStep(blocks, crc, Run(blocks, crc, s, es))
    decreases |es|
  {
    if es != [] {
      ExchangeKeepsStep(blocks, crc, s, es[0]);
      RunKeepsStep(blocks, crc, Exchange(blocks, crc, s, es[0]), es[1..]);
    }
  }

  lemma {:induction false} AcceptedIsPrefix(blocks: seq<seq<byte>>, crc: bool, fs: seq<seq<byte>>)
    requires AreBlocks(blocks) && AllPackets(crc, fs) && |fs| <= |blocks|
    requires forall k :: 0 <= k < |fs| ==> fs[k] == Packet(crc, blocks[k], k)
    ensures Payload(crc, fs) == Concat(blocks[..|fs|])
  {
    if fs != [] {
      var n := |fs| - 1;
      AcceptedIsPrefix(blocks, crc, fs[..n]);
      PacketShape(crc, blocks[n], n);
      assert blocks[..n + 1][..n] == blocks[..n];
    }
  }

  lemma {:induction false} ConcatPrefix(blocks: seq<seq<byte>>, n: nat)
    requires n <= |blocks|
    ensures Concat(blocks[..n]) <= Concat(blocks)
  {
    if n < |blocks| {
      var front := blocks[..|blocks| - 1];
      ConcatPrefix(front, n);
      assert front[..n] == blocks[..n];
    } else {
      assert blocks[..n] == blocks;
    }
  }

  /** Safety: after any run the received data is a prefix of the data sent, across any number of
      wraparounds of the packet number; once the sender is done it is all of the data. */
  lemma ReceivedIsPrefix(blocks: seq<seq<byte>>, crc: bool, es: seq<Event>)
    requires AreBlocks(blocks) && forall i :: 0 <= i < |es| ==> PossibleEvent(crc, es[i])
    ensures
      var s := Run(blocks, crc, START, es);
      && AllPackets(crc, s.rx.accepted)
      && Payload(crc, s.rx.accepted) <= Concat(blocks)
      && (s.sent == |blocks| ==> Payload(crc, s.rx.accepted) == Concat(blocks))
  {
    var s := Run(blocks, crc, START, es);
    RunKeepsStep(blocks, crc, START, es);
    StepIsPrefix(blocks, crc, s);
  }

  lemma StepIsPrefix(blocks: seq<seq<byte>>, crc: bool, s: System)
    requires AreBlocks(blocks) && InStep(blocks, crc, s)
    ensures AllPackets(crc, s.rx.accepted) && Payload(crc, s.rx.accepted) <= Concat(blocks)
    ensures s.sent == |blocks| ==> Payload(crc, s.rx.accepted) == Concat(blocks)
  {
    AcceptedIsPrefix(blocks, crc, s.rx.accepted);
    ConcatPrefix(blocks, |s.rx.accepted|);
    assert blocks[..|blocks|] == blocks;
  }

  /** The receiver has block 256 * m + 254 and its acknowledgement was lost: its expected number
      has wrapped to 0, and the repeated packet 255 is not recognised as a duplicate. */
  predicate Stuck(s: System) {
    |s.rx.accepted| == s.sent + 1 && s.rx.packetno == 0
  }

  /** Progress: an exchange without loss takes the sender to the next block exactly when the
      receiver is not stuck and does not run out of patience. */
  lemma ProgressExactly(blocks: seq<seq<byte>>, crc: bool, s: System)
    requires AreBlocks(blocks) && InStep(blocks, crc, s) && s.sent < |blocks| && !s.cancelled
    ensures
      Exchange(blocks, crc, s, Delivered).sent == s.sent + 1
      <==> !Stuck(s) && (|s.rx.accepted| == s.sent || s.rx.retrans > 1)
  {
    if |s.rx.accepted| == s.sent {
      ExpectedPacket(crc, s.rx, blocks[s.sent], s.sent);
    } else {
      RepeatedPacket(crc, s.rx, blocks[s.sent], s.sent);
    }
  }

  lemma StuckStep(blocks: seq<seq<byte>>, crc: bool, s: System, e: Event)
    requires AreBlocks(blocks) && PossibleEvent(crc, e)
    requires InStep(blocks, crc, s) && Stuck(s) && !s.cancelled
    ensures Exchange(blocks, crc, s, e) == s
  {
    if e.Delivered? || e.ReplyLost? {
      RepeatedExchange(blocks, crc, s, e);
    }
  }

  /** A stuck system stays as it is, whatever the line does. */
  lemma {:induction false} StuckForever(blocks: seq<seq<byte>>, crc: bool, s: System, es: seq<Event>)
    requires AreBlocks(blocks) && forall i :: 0 <= i < |es| ==> PossibleEvent(crc, es[i])
    requires InStep(blocks, crc, s) && Stuck(s) && !s.cancelled
    ensures Run(blocks, crc, s, es) == s
    decreases |es|
  {
    if es != [] {
      StuckStep(blocks, crc, s, es[0]);
      StuckForever(blocks, crc, s, es[1..]);
    }
  }

  /** The stuck state is reached exactly when the number has wrapped and one reply is missing. */
  lemma StuckExactly(blocks: seq<seq<byte>>, crc: bool, s: System)
    requires AreBlocks(blocks) && InStep(blocks, crc, s)
    ensures Stuck(s) <==> |s.rx.accepted| == s.sent + 1 && s.sent % 256 == 254
  {
  }

  // ---------- which states are reached, and from which of them a transfer can finish

  function Deliveries(n: nat): seq<Event> {
    seq(n, i => Delivered)
  }

  predicate Level(s: System) {
    |s.rx.accepted| == s.sent && !s.cancelled
  }

  predicate Possible(crc: bool, es: seq<Event>) {
    forall i :: 0 <= i < |es| ==> PossibleEvent(crc, es[i])
  }

  lemma {:induction false} RunConcat(blocks: seq<seq<byte>>, crc: bool, s: System, es: seq<Event>, fs: seq<Event>)
    requires AreBlocks(blocks) && Possible(crc, es) && Possible(crc, fs)
    ensures Possible(crc, es + fs)
    ensures Run(blocks, crc, s, es + fs) == Run(blocks, crc, Run(blocks, crc, s, es), fs)
    decreases |es|
  {
    if es == [] {
      assert es + fs == fs;
    } else {
      RunConcat(blocks, crc, Exchange(blocks, crc, s, es[0]), es[1..], fs);
      assert (es + fs)[1..] == es[1..] + fs;
    }
  }

  lemma RunOne(blocks: seq<seq<byte>>, crc: bool, s: System, e: Event)
    requires AreBlocks(blocks) && PossibleEvent(crc, e)
    ensures Run(blocks, crc, s, [e]) == Exchange(blocks, crc, s, e)
  {
    assert [e][1..] == [];
  }

  /** With sender and receiver level, a packet that arrives is taken. */
  lemma LevelStep(blocks: seq<seq<byte>>, crc: bool, s: System, e: Event)
    requires AreBlocks(blocks) && InStep(blocks, crc, s) && Level(s) && s.sent < |blocks|
    requires e.Delivered? || e.ReplyLost?
    ensures
      var s' := Exchange(blocks, crc, s, e);
      && InStep(blocks, crc, s') && |s'.rx.accepted| == s.sent + 1 && !s'.cancelled
      && s'.sent == if e.Delivered? then s.sent + 1 else s.sent
  {
    ExpectedPacket(crc, s.rx, blocks[s.sent], s.sent);
    LevelExchange(blocks, crc, s, e);
  }

  lemma DeliverOne(blocks: seq<seq<byte>>, crc: bool, s: System, n: nat)
    requires AreBlocks(blocks) && n > 0
    ensures
      Run(blocks, crc, s, Deliveries(n))
      == Run(blocks, crc, Exchange(blocks, crc, s, Delivered), Deliveries(n - 1))
  {
    assert Deliveries(n)[1..] == Deliveries(n - 1);
  }

  lemma {:induction false} DeliveriesAdvance(blocks: seq<seq<byte>>, crc: bool, s: System, n: nat)
    requires AreBlocks(blocks) && InStep(blocks, crc, s) && Level(s) && s.sent + n <= |blocks|
    ensures
      var s' := Run(blocks, crc, s, Deliveries(n));
      InStep(blocks, crc, s') && Level(s') && s'.sent == s.sent + n
    decreases n
  {
    if n > 0 {
      LevelStep(blocks, crc, s, Delivered);
      DeliveriesAdvance(blocks, crc, Exchange(blocks, crc, s, Delivered), n - 1);
      DeliverOne(blocks, crc, s, n);
    }
  }

  /** After k blocks went through, the loss of one reply leaves the system stuck if k is 254
      modulo 256. */
  lemma StuckWitness(blocks: seq<seq<byte>>, crc: bool, k: nat)
    requires AreBlocks(blocks) && k < |blocks| && k % 256 == 254
    ensures
      Possible(crc, Deliveries(k) + [ReplyLost])
      && var s := Run(blocks, crc, START, Deliveries(k) + [ReplyLost]);
         Stuck(s) && s.sent == k && !s.cancelled
  {
    DeliveriesAdvance(blocks, crc, START, k);
    var s := Run(blocks, crc, START, Deliveries(k));
    RunConcat(blocks, crc, START, Deliveries(k), [ReplyLost]);
    RunOne(blocks, crc, s, ReplyLost);
    LevelStep(blocks, crc, s, ReplyLost);
    StuckExactly(blocks, crc, Exchange(blocks, crc, s, ReplyLost));
  }

  /** A transfer can get stuck exactly when it has at least 255 blocks. */
  lemma StuckReachable(blocks: seq<seq<byte>>, crc: bool)
    requires AreBlocks(blocks)
    ensures (exists es :: Possible(crc, es) && Stuck(Run(blocks, crc, START, es))) <==> |blocks| >= 255
  {
    if |blocks| >= 255 {
      StuckWitness(blocks, crc, 254);
    }
    forall es | Possible(crc, es) && Stuck(Run(blocks, crc, START, es)) ensures |blocks| >= 255 {
      RunKeepsStep(blocks, crc, START, es);
      StuckExactly(blocks, crc, Run(blocks, crc, START, es));
    }
  }

  /** The sender cannot get any further: the receiver has given up, is stuck, or will give up at
      the next repeated packet. */
  predicate Doomed(s: System) {
    s.cancelled || (|s.rx.accepted| == s.sent + 1 && (s.rx.packetno == 0 || s.rx.retrans <= 1))
  }

  lemma DoomedStep(blocks: seq<seq<byte>>, crc: bool, s: System, e: Event)
    requires AreBlocks(blocks) && PossibleEvent(crc, e) && InStep(blocks, crc, s) && Doomed(s)
    ensures
      var s' := Exchange(blocks, crc, s, e);
      InStep(blocks, crc, s') && Doomed(s') && s'.sent == s.sent
  {
    ExchangeKeepsStep(blocks, crc, s, e);
    if s.sent < |blocks| && !s.cancelled && (e.Delivered? || e.ReplyLost?) {
      RepeatedExchange(blocks, crc, s, e);
    }
  }

  lemma {:induction false} DoomedForever(blocks: seq<seq<byte>>, crc: bool, s: System, es: seq<Event>)
    requires AreBlocks(blocks) && Possible(crc, es) && InStep(blocks, crc, s) && Doomed(s)
    ensures Run(blocks, crc, s, es).sent == s.sent
    decreases |es|
  {
    if es != [] {
      DoomedStep(blocks, crc, s, es[0]);
      DoomedForever(blocks, crc, Exchange(blocks, crc, s, es[0]), es[1..]);
    }
  }

  lemma AheadDelivers(blocks: seq<seq<byte>>, crc: bool, s: System)
    requires AreBlocks(blocks) && InStep(blocks, crc, s) && s.sent < |blocks| && !Level(s) && !Doomed(s)
    ensures
      var s' := Exchange(blocks, crc, s, Delivered);
      InStep(blocks, crc, s') && Level(s') && s'.sent == s.sent + 1
  {
    RepeatedExchange(blocks, crc, s, Delivered);
    AheadExchange(blocks, crc, s, Delivered);
  }

  /** If the line stops losing, the packets that are left go through one after the other. */
  lemma FinishWitness(blocks: seq<seq<byte>>, crc: bool, s: System)
    requires AreBlocks(blocks) && InStep(blocks, crc, s) && !Doomed(s)
    ensures Run(blocks, crc, s, Deliveries(|blocks| - s.sent)).sent == |blocks|
  {
    var n := |blocks| - s.sent;
    if Level(s) {
      DeliveriesAdvance(blocks, crc, s, n);
    } else if n > 0 {
      AheadDelivers(blocks, crc, s);
      DeliverOne(blocks, crc, s, n);
      DeliveriesAdvance(blocks, crc, Exchange(blocks, crc, s, Delivered), n - 1);
    }
  }

  /** From a state in step the transfer can still be finished exactly when it is finished or not
      doomed. */
  lemma FinishExactly(blocks: seq<seq<byte>>, crc: bool, s: System)
    requires AreBlocks(blocks) && InStep(blocks, crc, s)
    ensures
      (exists es :: Possible(crc, es) && Run(blocks, crc, s, es).sent == |blocks|)
      <==> (s.sent == |blocks| || !Doomed(s))
  {
    if s.sent == |blocks| {
      assert Possible(crc, []) && Run(blocks, crc, s, []).sent == |blocks|;
    } else if !Doomed(s) {
      FinishWitness(blocks, crc, s);
      assert Possible(crc, Deliveries(|blocks| - s.sent));
    } else {
      forall es | Possible(crc, es) ensures Run(blocks, crc, s, es).sent != |blocks| {
        DoomedForever(blocks, crc, s, es);
      }
    }
  }

  // ---------- a transfer without loss

  /** The packets of a file, in order. */
  function PacketsOf(blocks: seq<seq<byte>>): (ps: seq<seq<byte>>)
    requires AreBlocks(blocks)
    ensures |ps| == |blocks| && forall k :: 0 <= k < |ps| ==> ps[k] == Packet(true, blocks[k], k)
  {
    seq(|blocks|, k requires 0 <= k < |blocks| => Packet(true, blocks[k], k))
  }

  lemma PacketsArePackets(blocks: seq<seq<byte>>)
    requires AreBlocks(blocks)
    ensures AllPackets(true, PacketsOf(blocks))
  {
    forall k | 0 <= k < |blocks| ensures IsPacket(true, PacketsOf(blocks)[k]) {
      PacketShape(true, blocks[k], k);
    }
  }

  /** Each packet is the one that the receiver waits for after those before it. */
  ghost predicate Smooth(ps: seq<seq<byte>>)
    requires AllPackets(true, ps)
  {
    forall rx: Rx, k: nat :: k < |ps| && rx.packetno == (k + 1) % 256 ==>
      Receive(rx, true, ps[k]) == (Rx(rx.accepted + [ps[k]], (k + 2) % 256, MAXRETRANS), Acknowledge)
  }

  lemma PacketsAreSmooth(blocks: seq<seq<byte>>, ps: seq<seq<byte>>)
    requires AreBlocks(blocks) && ps == PacketsOf(blocks)
    ensures AllPackets(true, ps) && Smooth(ps)
  {
    PacketsArePackets(blocks);
    forall rx: Rx, k: nat | k < |ps| && rx.packetno == (k + 1) % 256
      ensures Receive(rx, true, ps[k]) == (Rx(rx.accepted + [ps[k]], (k + 2) % 256, MAXRETRANS), Acknowledge)
    {
      ExpectedPacket(true, rx, blocks[k], k);
    }
  }

  lemma ReceiveLast(crc: bool, front: seq<seq<byte>>, f: seq<byte>)
    requires AllPackets(crc, front) && IsPacket(crc, f)
    ensures AllPackets(crc, front + [f])
    ensures ReceiveAll(RX0, crc, front + [f]) == Receive(ReceiveAll(RX0, crc, front), crc, f).0
  {
    assert (front + [f])[..|front|] == front;
  }

  /** The receiver takes the packets of a file as they come. */
  lemma {:induction false} ReceiveInOrder(ps: seq<seq<byte>>, k: nat)
    requires AllPackets(true, ps) && Smooth(ps) && k <= |ps|
    ensures ReceiveAll(RX0, true, ps[..k]) == Rx(ps[..k], (k + 1) % 256, MAXRETRANS)
  {
    if k > 0 {
      ReceiveInOrder(ps, k - 1);
      InOrderStep(ps, k - 1, k);
    }
  }

  lemma InOrderStep(ps: seq<seq<byte>>, n: nat, k: nat)
    requires AllPackets(true, ps) && Smooth(ps) && k == n + 1 <= |ps|
    requires ReceiveAll(RX0, true, ps[..n]) == Rx(ps[..n], (n + 1) % 256, MAXRETRANS)
    ensures ReceiveAll(RX0, true, ps[..k]) == Rx(ps[..k], (k + 1) % 256, MAXRETRANS)
  {
    assert ps[..k] == ps[..n] + [ps[n]];
    ReceiveLast(true, ps[..n], ps[n]);
  }

  /** Where packet k lies among all of them. */
  lemma {:induction false} PieceAt(ps: seq<seq<byte>>, k: nat)
    requires k < |ps|
    ensures Concat(ps[..k + 1]) == Concat(ps[..k]) + ps[k]
    ensures Concat(ps[..k + 1]) <= Concat(ps)
  {
    assert ps[..k + 1][..k] == ps[..k];
    ConcatPrefix(ps, k + 1);
  }
}

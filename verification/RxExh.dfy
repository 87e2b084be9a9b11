/**
 * The responder: rx_exh_fsm turns packets into memory writes, msn_table keeps the address and the remaining length of
 * every queue pair between packets.
 */
module RxExh {
  import opened Psn
  import opened LocalReq
  import RxIbh
  import ReadResponse

  datatype DmaState = DmaState(msn: nat, vaddr: nat, dma_length: nat)

  datatype WriteCmd = WriteCmd(addr: nat, len: nat, custom: bool)

  /** A packet that passed the sequence check; readAddr is the address that a read response takes from its queue. */
  datatype RxPacket = RxPacket(op: OpCode, qpn: nat, psn: PSN, header: Header, udpLength: nat, readAddr: nat)

  // ---------------------------------------------------------------- one packet

  /** 32-bit difference. */
  function Minus(a: nat, b: nat): (r: nat)
    ensures a >= b && a < 0x1_0000_0000 ==> r == a - b
  {
    (a - b) % 0x1_0000_0000
  }

  function Plus64(a: nat, b: nat): (r: nat)
    ensures a + b < 0x1_0000_0000_0000_0000 ==> r == a + b
  {
    (a + b) % 0x1_0000_0000_0000_0000
  }

  predicate StartsWrite(op: OpCode)
  {
    op.WriteOnly? || op.WriteFirst? || op.PartOnly? || op.PartFirst?
  }

  predicate ContinuesWrite(op: OpCode)
  {
    op.WriteMiddle? || op.WriteLast? || op.PartMiddle? || op.PartLast?
  }

  predicate StartsResponse(op: OpCode)
  {
    op.ReadRespOnly? || op.ReadRespFirst?
  }

  /** The header fits the opcode, as rx_process_exh parses it. */
  predicate Parsed(p: RxPacket)
  {
    StartsWrite(p.op) || p.op.ReadRequest? || p.op.ReadConsistentRequest? <==> p.header.Reth?
  }

  /** The state machine stays with these packets: a write of no bytes, and a read that it does not know. */
  predicate Stalls(op: OpCode, header: Header)
  {
    (StartsWrite(op) && header.Reth? && header.length == 0) || op.ReadPointerRequest?
  }

  /** The state machine gets past the packet. */
  predicate Processable(p: RxPacket)
  {
    Parsed(p) && !Stalls(p.op, p.header)
  }

  /** What a packet does: the next state of its queue pair, and the memory writes. */
  function Receive(d: DmaState, p: RxPacket): (DmaState, seq<WriteCmd>)
    requires Processable(p)
  {
    var msn := (d.msn + 1) % 0x100_0000;
    if StartsWrite(p.op) then
      var n := Minus(p.udpLength, 8 + 12 + 16 + 4);
      var part := p.op.PartOnly? || p.op.PartFirst?;
      (DmaState(msn, Plus64(p.header.vaddr, n), Minus(p.header.length, n)),
       [WriteCmd(p.header.vaddr, if part then p.header.length else n, part)])
    else if ContinuesWrite(p.op) then
      var n := Minus(p.udpLength, 8 + 12 + 4);
      (DmaState(msn, Plus64(d.vaddr, n), Minus(d.dma_length, n)),
       if p.op.WriteMiddle? || p.op.WriteLast? then [WriteCmd(d.vaddr, n, false)] else [])
    else if p.op.ReadRequest? || p.op.ReadConsistentRequest? then
      (if p.header.length != 0 then DmaState(msn, 0, 0) else d, [])
    else if StartsResponse(p.op) then
      var n := Minus(p.udpLength, 8 + 12 + 4 + 4);
      (DmaState(d.msn, Plus64(p.readAddr, n), 0), [WriteCmd(p.readAddr, n, false)])
    else if p.op.ReadRespLast? then
      (d, [WriteCmd(d.vaddr, Minus(p.udpLength, 8 + 12 + 4 + 4), false)])
    else if p.op.ReadRespMiddle? then
      var n := Minus(p.udpLength, 8 + 12 + 4);
      (DmaState(msn, Plus64(d.vaddr, n), 0), [WriteCmd(d.vaddr, n, false)])
    else (d, [])
  }

  /** Message numbers count the packets of writes, the reads with bytes and the middle packets of answers. */
  lemma MessageNumber(d: DmaState, p: RxPacket)
    requires Processable(p)
    ensures Receive(d, p).0.msn
            == match p.op
               case WriteOnly | WriteFirst | WriteMiddle | WriteLast => (d.msn + 1) % 0x100_0000
               case PartOnly | PartFirst | PartMiddle | PartLast => (d.msn + 1) % 0x100_0000
               case ReadRequest | ReadConsistentRequest =>
                 if p.header.Reth? && p.header.length != 0 then (d.msn + 1) % 0x100_0000 else d.msn
               case ReadRespMiddle => (d.msn + 1) % 0x100_0000
               case _ => d.msn
  {
  }

  /** What the other packets leave: headers are UDP 8, BTH 12, AETH 4 at both ends of an answer, checksum 4 bytes. */
  lemma AddressLeft(d: DmaState, p: RxPacket)
    requires Processable(p) && 28 <= p.udpLength < 65536
    requires d.vaddr + p.udpLength < 0x1_0000_0000_0000_0000 && p.readAddr + p.udpLength < 0x1_0000_0000_0000_0000
    requires p.udpLength <= d.dma_length < 0x1_0000_0000
    ensures ContinuesWrite(p.op) ==>
              && Receive(d, p).0.vaddr == d.vaddr + (p.udpLength - 24)
              && Receive(d, p).0.dma_length == d.dma_length - (p.udpLength - 24)
    ensures p.op.ReadRequest? || p.op.ReadConsistentRequest? ==>
              if p.header.length != 0 then Receive(d, p).0.vaddr == 0 && Receive(d, p).0.dma_length == 0
              else Receive(d, p).0 == d
    ensures p.op.ReadRespOnly? || p.op.ReadRespFirst? ==>
              && Receive(d, p).0 == DmaState(d.msn, p.readAddr + (p.udpLength - 28), 0)
              && Receive(d, p).1 == [WriteCmd(p.readAddr, p.udpLength - 28, false)]
    ensures p.op.ReadRespMiddle? ==>
              && Receive(d, p).0.vaddr == d.vaddr + (p.udpLength - 24) && Receive(d, p).0.dma_length == 0
              && Receive(d, p).1 == [WriteCmd(d.vaddr, p.udpLength - 24, false)]
    ensures p.op.ReadRespLast? ==> Receive(d, p) == (d, [WriteCmd(d.vaddr, p.udpLength - 28, false)])
  {
  }

  /**
   * A partial write goes to the custom route as one command of its whole length, with its first packet. The payload is
   * what the UDP length holds besides the headers: UDP 8, BTH 12, RETH 16 and checksum 4 bytes.
   */
  lemma PartIsOneCommand(d: DmaState, p: RxPacket)
    requires Processable(p) && 40 <= p.udpLength < 65536 && p.header.Reth? && p.udpLength - 40 <= p.header.length
    requires p.header.length < 0x1_0000_0000 && p.header.vaddr + p.header.length < 0x1_0000_0000_0000_0000
    ensures p.op.PartOnly? || p.op.PartFirst? ==>
              Receive(d, p).1 == [WriteCmd(p.header.vaddr, p.header.length, true)]
    ensures p.op.WriteOnly? || p.op.WriteFirst? ==>
              Receive(d, p).1 == [WriteCmd(p.header.vaddr, p.udpLength - 40, false)]
    ensures StartsWrite(p.op) ==>
              && Receive(d, p).0.vaddr == p.header.vaddr + (p.udpLength - 40)
              && Receive(d, p).0.dma_length == p.header.length - (p.udpLength - 40)
    ensures p.op.PartMiddle? || p.op.PartLast? ==> Receive(d, p).1 == []
  {
  }

  // ---------------------------------------------------------------- many packets

  ghost predicate AllProcessable(log: seq<RxPacket>)
  {
    forall k :: 0 <= k < |log| ==> Processable(log[k])
  }

  function StateAfter(init: DmaState, log: seq<RxPacket>, qp: nat): DmaState
    requires AllProcessable(log)
  {
    if log == [] then init
    else
      var d, p := StateAfter(init, log[..|log| - 1], qp), log[|log| - 1];
      if p.qpn == qp then Receive(d, p).0 else d
  }

  /** The memory writes of one queue pair. */
  function CommandsOf(init: DmaState, log: seq<RxPacket>, qp: nat): seq<WriteCmd>
    requires AllProcessable(log)
  {
    if log == [] then []
    else
      var n := |log| - 1;
      CommandsOf(init, log[..n], qp)
      + (if log[n].qpn == qp then Receive(StateAfter(init, log[..n], qp), log[n]).1 else [])
  }

  /** The memory writes of all queue pairs, in the order of the packets. */
  function Commands(init: seq<DmaState>, log: seq<RxPacket>): seq<WriteCmd>
    requires AllProcessable(log) && forall k :: 0 <= k < |log| ==> log[k].qpn < |init|
  {
    if log == [] then []
    else
      var n := |log| - 1;
      Commands(init, log[..n]) + Receive(StateAfter(init[log[n].qpn], log[..n], log[n].qpn), log[n]).1
  }

  /** The queue pair that each of all the memory writes is for. */
  function Owners(init: seq<DmaState>, log: seq<RxPacket>): seq<nat>
    requires AllProcessable(log) && forall k :: 0 <= k < |log| ==> log[k].qpn < |init|
  {
    if log == [] then []
    else
      var n := |log| - 1;
      var cmds := Receive(StateAfter(init[log[n].qpn], log[..n], log[n].qpn), log[n]).1;
      Owners(init, log[..n]) + seq(|cmds|, _ => log[n].qpn)
  }

  /** The memory writes whose owner is a queue pair, in order. */
  function Select(cmds: seq<WriteCmd>, owners: seq<nat>, qp: nat): seq<WriteCmd>
    requires |cmds| == |owners|
  {
    if cmds == [] then []
    else
      var n := |cmds| - 1;
      Select(cmds[..n], owners[..n], qp) + (if owners[n] == qp then [cmds[n]] else [])
  }

  lemma {:induction false} SelectMore(cmds: seq<WriteCmd>, owners: seq<nat>, more: seq<WriteCmd>, owner: nat, qp: nat)
    requires |cmds| == |owners|
    ensures var tags := seq(|more|, _ => owner);
            Select(cmds + more, owners + tags, qp) == Select(cmds, owners, qp) + (if owner == qp then more else [])
    decreases |more|
  {
    var tags := seq(|more|, _ => owner);
    if more == [] {
      assert cmds + more == cmds && owners + tags == owners;
    } else {
      var n := |more| - 1;
      SelectMore(cmds, owners, more[..n], owner, qp);
      var all, allTags := cmds + more, owners + tags;
      assert all[..|all| - 1] == cmds + more[..n] && allTags[..|all| - 1] == owners + seq(n, _ => owner);
      assert all[|all| - 1] == more[n] && allTags[|all| - 1] == owner;
      assert more[..n] + [more[n]] == more;
    }
  }

  /** What a queue pair's packets write is what of all the memory writes belongs to it. */
  lemma {:induction false} SelectIsOwn(init: seq<DmaState>, log: seq<RxPacket>, qp: nat)
    requires AllProcessable(log) && qp < |init| && forall k :: 0 <= k < |log| ==> log[k].qpn < |init|
    ensures |Owners(init, log)| == |Commands(init, log)|
    ensures Select(Commands(init, log), Owners(init, log), qp) == CommandsOf(init[qp], log, qp)
  {
    if log != [] {
      var n := |log| - 1;
      SelectIsOwn(init, log[..n], qp);
      var cmds := Receive(StateAfter(init[log[n].qpn], log[..n], log[n].qpn), log[n]).1;
      SelectMore(Commands(init, log[..n]), Owners(init, log[..n]), cmds, log[n].qpn, qp);
    }
  }

  /** The acknowledgements: one for every packet of a write. */
  function Acks(log: seq<RxPacket>): seq<RxIbh.AckEvent>
  {
    if log == [] then []
    else
      var p := log[|log| - 1];
      Acks(log[..|log| - 1])
      + (if StartsWrite(p.op) || ContinuesWrite(p.op) then [RxIbh.AckEvent(p.qpn, 0, false, false)] else [])
  }

  /** The reads that are to be answered, with the number of the request. */
  function Reads(log: seq<RxPacket>): seq<ReadResponse.Request>
    requires AllProcessable(log)
  {
    if log == [] then []
    else
      var p := log[|log| - 1];
      Reads(log[..|log| - 1])
      + (if (p.op.ReadRequest? || p.op.ReadConsistentRequest?) && p.header.length != 0
         then [ReadResponse.Request(p.qpn, p.header.vaddr, p.header.length, p.psn)] else [])
  }

  lemma AnswersNext(log: seq<RxPacket>, p: RxPacket)
    requires AllProcessable(log) && Processable(p)
    ensures AllProcessable(log + [p])
    ensures Acks(log + [p]) ==
            Acks(log)
            + (if StartsWrite(p.op) || ContinuesWrite(p.op) then [RxIbh.AckEvent(p.qpn, 0, false, false)] else [])
    ensures Reads(log + [p]) ==
            Reads(log)
            + (if (p.op.ReadRequest? || p.op.ReadConsistentRequest?) && p.header.length != 0
               then [ReadResponse.Request(p.qpn, p.header.vaddr, p.header.length, p.psn)] else [])
  {
    hide Processable;
    assert (log + [p])[..|log|] == log;
  }

  /** The packets of one queue pair, without acknowledgements. */
  function Own(log: seq<RxPacket>, qp: nat): seq<RxPacket>
  {
    if log == [] then []
    else
      Own(log[..|log| - 1], qp)
      + (if log[|log| - 1].qpn == qp && !log[|log| - 1].op.Ack? then [log[|log| - 1]] else [])
  }

  lemma {:induction false} OwnProcessable(log: seq<RxPacket>, qp: nat)
    requires AllProcessable(log)
    ensures AllProcessable(Own(log, qp)) && forall k :: 0 <= k < |Own(log, qp)| ==> Own(log, qp)[k].qpn == qp
  {
    if log != [] {
      OwnProcessable(log[..|log| - 1], qp);
    }
  }

  /** Other queue pairs and acknowledgements do not matter. */
  lemma {:induction false} OnlyOwnPackets(init: DmaState, log: seq<RxPacket>, qp: nat)
    requires AllProcessable(log)
    ensures AllProcessable(Own(log, qp))
    ensures StateAfter(init, log, qp) == StateAfter(init, Own(log, qp), qp)
    ensures CommandsOf(init, log, qp) == CommandsOf(init, Own(log, qp), qp)
  {
    hide Receive, Processable;
    OwnProcessable(log, qp);
    if log != [] {
      var n := |log| - 1;
      OnlyOwnPackets(init, log[..n], qp);
      OwnNext(log, qp);
      assert log == log[..n] + [log[n]];
      if log[n].qpn != qp {
        OtherPacketMore(init, log[..n], log[n], qp);
      } else {
        hide Own;
        OnePacketMore(init, log[..n], log[n], qp);
        if log[n].op.Ack? {
          AckDoesNothing(StateAfter(init, log[..n], qp), log[n]);
        } else {
          OnePacketMore(init, Own(log[..n], qp), log[n], qp);
        }
      }
    }
  }

  lemma OwnNext(log: seq<RxPacket>, qp: nat)
    requires log != []
    ensures var n := |log| - 1;
            Own(log, qp)
            == if log[n].qpn == qp && !log[n].op.Ack? then Own(log[..n], qp) + [log[n]] else Own(log[..n], qp)
  {
  }

  lemma OtherPacketMore(init: DmaState, log: seq<RxPacket>, p: RxPacket, qp: nat)
    requires AllProcessable(log) && Processable(p) && p.qpn != qp
    ensures AllProcessable(log + [p])
    ensures StateAfter(init, log + [p], qp) == StateAfter(init, log, qp)
    ensures CommandsOf(init, log + [p], qp) == CommandsOf(init, log, qp)
  {
    hide Receive, Processable;
    assert (log + [p])[..|log|] == log;
  }

  lemma OnePacketMore(init: DmaState, log: seq<RxPacket>, p: RxPacket, qp: nat)
    requires AllProcessable(log) && Processable(p) && p.qpn == qp
    ensures AllProcessable(log + [p])
    ensures var r := Receive(StateAfter(init, log, qp), p);
            StateAfter(init, log + [p], qp) == r.0 && CommandsOf(init, log + [p], qp) == CommandsOf(init, log, qp) + r.1
  {
    hide Receive, Processable;
    assert (log + [p])[..|log|] == log;
  }

  lemma AckDoesNothing(d: DmaState, p: RxPacket)
    requires Processable(p) && p.op.Ack?
    ensures Receive(d, p) == (d, [])
  {
  }

  /** Packets in two parts. */
  lemma {:induction false} InTwoParts(init: DmaState, a: seq<RxPacket>, b: seq<RxPacket>, qp: nat)
    requires AllProcessable(a) && AllProcessable(b)
    ensures AllProcessable(a + b)
    ensures StateAfter(init, a + b, qp) == StateAfter(StateAfter(init, a, qp), b, qp)
    ensures CommandsOf(init, a + b, qp) == CommandsOf(init, a, qp) + CommandsOf(StateAfter(init, a, qp), b, qp)
  {
    hide Receive;
    if b == [] {
      assert a + b == a;
    } else {
      InTwoParts(init, a, b[..|b| - 1], qp);
      assert (a + b)[..|a + b| - 1] == a + b[..|b| - 1];
    }
  }

  // ---------------------------------------------------------------- writes across the network

  /** The packet of an event as the responder gets it; the UDP layer counts its own header of 8 bytes. */
  function Wire(ev: TxEvent, pmtu: nat, psn: PSN): RxPacket
    requires IsWriteOrPart(ev.op) || ev.op.ReadRequest? || ev.op.ReadConsistentRequest?
  {
    var p := GenerateExh(ev, pmtu);
    RxPacket(p.op, p.qpn, psn, p.header, (p.udpLen + 8) % 65536, 0)
  }

  /** The lengths on the wire: UDP 8, BTH 12, RETH 16 where the packet names an address, the payload, and checksum 4. */
  lemma WireLengths(ev: TxEvent, pmtu: nat, psn: PSN)
    requires ev.length < 65000 && pmtu < 65000
    ensures ev.op.WriteOnly? || ev.op.PartOnly? ==>
              && Wire(ev, pmtu, psn).udpLength == 8 + 12 + 16 + ev.length + 4
              && Wire(ev, pmtu, psn).header == Reth(ev.addr, ev.length)
    ensures ev.op.WriteFirst? || ev.op.PartFirst? ==>
              && Wire(ev, pmtu, psn).udpLength == 8 + 12 + 16 + pmtu + 4
              && Wire(ev, pmtu, psn).header == Reth(ev.addr, ev.length)
    ensures ev.op.WriteMiddle? || ev.op.WriteLast? || ev.op.PartMiddle? || ev.op.PartLast? ==>
              && Wire(ev, pmtu, psn).udpLength == 8 + 12 + ev.length + 4
              && Wire(ev, pmtu, psn).header == NoHeader
    ensures ev.op.ReadRequest? || ev.op.ReadConsistentRequest? ==>
              && Wire(ev, pmtu, psn).udpLength == 8 + 12 + 16 + 4
              && Wire(ev, pmtu, psn).header == Reth(ev.addr, ev.length)
    ensures IsWriteOrPart(ev.op) || ev.op.ReadRequest? || ev.op.ReadConsistentRequest? ==>
              Wire(ev, pmtu, psn).op == ev.op && Wire(ev, pmtu, psn).qpn == ev.qpn && Wire(ev, pmtu, psn).psn == psn
  {
  }

  predicate WriteEvents(evs: seq<TxEvent>)
  {
    forall k :: 0 <= k < |evs| ==> IsWriteOrPart(evs[k].op)
  }

  /** The packets are numbered one after the other. */
  function WireAll(evs: seq<TxEvent>, pmtu: nat, psn: PSN): (r: seq<RxPacket>)
    requires WriteEvents(evs)
    ensures |r| == |evs| && forall k :: 0 <= k < |r| ==> r[k] == Wire(evs[k], pmtu, Advance(psn, k))
  {
    seq(|evs|, k requires 0 <= k < |evs| => Wire(evs[k], pmtu, Advance(psn, k)))
  }

  lemma WireFirst(ev: TxEvent, evs: seq<TxEvent>, pmtu: nat, psn: PSN)
    requires IsWriteOrPart(ev.op) && WriteEvents(evs)
    ensures WriteEvents([ev] + evs)
    ensures WireAll([ev] + evs, pmtu, psn) == [Wire(ev, pmtu, psn)] + WireAll(evs, pmtu, Advance(psn, 1))
  {
    hide Wire, WireAll, Advance;
    var all, rest := WireAll([ev] + evs, pmtu, psn), WireAll(evs, pmtu, Advance(psn, 1));
    forall k | 0 <= k < |evs|
      ensures all[k + 1] == rest[k]
    {
      AdvanceTwice(psn, 1, k);
    }
    AdvanceNone(psn);
    assert all[0] == Wire(ev, pmtu, psn);
    assert all == [all[0]] + rest;
  }

  /** Commands that write len bytes from start on, one piece behind the other. */
  predicate Tiles(cmds: seq<WriteCmd>, start: nat, len: nat)
  {
    if cmds == [] then len == 0
    else
      && cmds[0].addr == start && 0 < cmds[0].len <= len && !cmds[0].custom
      && Tiles(cmds[1..], start + cmds[0].len, len - cmds[0].len)
  }

  predicate Writes(c: WriteCmd, addr: nat)
  {
    c.addr <= addr < c.addr + c.len
  }

  /** Such commands write every byte of the range exactly once, and no other byte. */
  lemma {:induction false} TilesCoverOnce(cmds: seq<WriteCmd>, start: nat, len: nat, addr: nat)
    requires Tiles(cmds, start, len)
    ensures start <= addr < start + len <==> exists k :: 0 <= k < |cmds| && Writes(cmds[k], addr)
    ensures forall j, k :: 0 <= j < |cmds| && 0 <= k < |cmds| && Writes(cmds[j], addr) && Writes(cmds[k], addr) ==>
              j == k
  {
    if cmds != [] {
      TilesCoverOnce(cmds[1..], start + cmds[0].len, len - cmds[0].len, addr);
      forall k | 1 <= k < |cmds| && Writes(cmds[k], addr)
        ensures addr >= start + cmds[0].len
      {
        assert Writes(cmds[1..][k - 1], addr);
      }
      forall j, k | 0 <= j < |cmds| && 0 <= k < |cmds| && Writes(cmds[j], addr) && Writes(cmds[k], addr)
        ensures j == k
      {
        if j > 0 && k > 0 {
          assert Writes(cmds[1..][j - 1], addr) && Writes(cmds[1..][k - 1], addr);
        }
      }
      if start <= addr < start + len {
        if addr < start + cmds[0].len {
          assert Writes(cmds[0], addr);
        } else {
          var k :| 0 <= k < |cmds[1..]| && Writes(cmds[1..][k], addr);
          assert Writes(cmds[k + 1], addr);
        }
      }
    }
  }

  /** Packets fit UDP, requests fit their fields. */
  predicate Fits(m: TxMeta, pmtu: nat)
  {
    && 0 < pmtu && pmtu + 48 < 65536
    && m.op.AppWrite? && m.length < 0x1_0000_0000 && m.remote_vaddr < ADDRESSES
  }

  lemma {:induction false} RestAreWrites(m: TxMeta, pmtu: nat)
    requires 0 < pmtu
    ensures WriteEvents(Rest(m, pmtu))
    decreases m.length
  {
    if m.length > pmtu {
      RestAreWrites(Shortened(m, pmtu), pmtu);
    }
  }

  lemma SegmentsAreWrites(m: TxMeta, pmtu: nat)
    requires 0 < pmtu && IsWrite(m.op)
    ensures WriteEvents(Segments(m, pmtu))
  {
    if m.length > pmtu {
      RestAreWrites(Shortened(m, pmtu), pmtu);
    }
  }

  lemma OnePacket(d: DmaState, p: RxPacket, qp: nat)
    requires Processable(p) && p.qpn == qp
    ensures AllProcessable([p]) && StateAfter(d, [p], qp) == Receive(d, p).0
    ensures CommandsOf(d, [p], qp) == Receive(d, p).1
  {
    hide Receive, Processable;
    assert [p][..0] == [] && [p][0] == p;
    assert StateAfter(d, [], qp) == d && CommandsOf(d, [], qp) == [];
  }

  lemma PacketThenRest(d: DmaState, ev: TxEvent, evs: seq<TxEvent>, pmtu: nat, psn: PSN, qp: nat)
    requires IsWriteOrPart(ev.op) && WriteEvents(evs) && ev.qpn == qp
    requires Processable(Wire(ev, pmtu, psn)) && AllProcessable(WireAll(evs, pmtu, Advance(psn, 1)))
    ensures WriteEvents([ev] + evs) && AllProcessable(WireAll([ev] + evs, pmtu, psn))
    ensures var r := Receive(d, Wire(ev, pmtu, psn));
            && StateAfter(d, WireAll([ev] + evs, pmtu, psn), qp)
                == StateAfter(r.0, WireAll(evs, pmtu, Advance(psn, 1)), qp)
            && CommandsOf(d, WireAll([ev] + evs, pmtu, psn), qp)
                == r.1 + CommandsOf(r.0, WireAll(evs, pmtu, Advance(psn, 1)), qp)
  {
    hide Receive, Processable, Wire;
    var p := Wire(ev, pmtu, psn);
    assert p.qpn == qp by { WireKeepsQueue(ev, pmtu, psn); }
    OnePacket(d, p, qp);
    WireFirst(ev, evs, pmtu, psn);
    InTwoParts(d, [p], WireAll(evs, pmtu, Advance(psn, 1)), qp);
  }

  lemma WireKeepsQueue(ev: TxEvent, pmtu: nat, psn: PSN)
    requires IsWriteOrPart(ev.op)
    ensures Wire(ev, pmtu, psn).qpn == ev.qpn
  {
  }

  lemma ContinuesAt(ev: TxEvent, pmtu: nat, psn: PSN, d: DmaState)
    requires 0 < ev.length <= d.dma_length < 0x1_0000_0000 && ev.length + 48 < 65536
    requires d.vaddr + ev.length < 0x1_0000_0000_0000_0000 && (ev.op.WriteMiddle? || ev.op.WriteLast?)
    ensures Processable(Wire(ev, pmtu, psn))
    ensures var r := Receive(d, Wire(ev, pmtu, psn));
            && r.0.vaddr == d.vaddr + ev.length && r.0.dma_length == d.dma_length - ev.length
            && r.1 == [WriteCmd(d.vaddr, ev.length, false)]
  {
    var p := Wire(ev, pmtu, psn);
    assert p.header == NoHeader && p.udpLength == ev.length + 24;
    hide Wire;
    assert Minus(p.udpLength, 24) == ev.length && Minus(d.dma_length, ev.length) == d.dma_length - ev.length;
    assert Plus64(d.vaddr, ev.length) == d.vaddr + ev.length;
    hide Minus, Plus64;
  }

  lemma StartsAt(ev: TxEvent, pmtu: nat, psn: PSN, d: DmaState, n: nat)
    requires 0 < n <= ev.length < 0x1_0000_0000 && n + 48 < 65536 && ev.addr < ADDRESSES
    requires (ev.op.WriteOnly? && n == ev.length) || (ev.op.WriteFirst? && n == pmtu)
    ensures Processable(Wire(ev, pmtu, psn))
    ensures var r := Receive(d, Wire(ev, pmtu, psn));
            && r.0.vaddr == ev.addr + n && r.0.dma_length == ev.length - n
            && r.1 == [WriteCmd(ev.addr, n, false)]
  {
    var p := Wire(ev, pmtu, psn);
    assert p.header == Reth(ev.addr, ev.length) && p.udpLength == n + 40;
    hide Wire;
    assert Minus(p.udpLength, 40) == n && Minus(ev.length, n) == ev.length - n && Plus64(ev.addr, n) == ev.addr + n;
    hide Minus, Plus64;
  }

  lemma TilesMore(cmds: seq<WriteCmd>, start: nat, n: nat, len: nat)
    requires 0 < n <= len
    ensures Tiles(cmds, start + n, len - n) ==> Tiles([WriteCmd(start, n, false)] + cmds, start, len)
  {
    assert ([WriteCmd(start, n, false)] + cmds)[1..] == cmds;
  }

  lemma NoPackets(d: DmaState, pmtu: nat, psn: PSN, qp: nat)
    ensures WriteEvents([]) && AllProcessable(WireAll([], pmtu, psn))
    ensures CommandsOf(d, WireAll([], pmtu, psn), qp) == [] && StateAfter(d, WireAll([], pmtu, psn), qp) == d
    ensures Tiles([], d.vaddr, 0)
  {
  }

  lemma {:induction false} RestTiles(m: TxMeta, pmtu: nat, psn: PSN, d: DmaState)
    requires Fits(m, pmtu) && 0 < m.length == d.dma_length && d.vaddr + m.length < 0x1_0000_0000_0000_0000
    ensures WriteEvents(Rest(m, pmtu)) && AllProcessable(WireAll(Rest(m, pmtu), pmtu, psn))
    ensures Tiles(CommandsOf(d, WireAll(Rest(m, pmtu), pmtu, psn), m.qpn), d.vaddr, m.length)
    ensures StateAfter(d, WireAll(Rest(m, pmtu), pmtu, psn), m.qpn).dma_length == 0
    decreases m.length
  {
    hide Wire, Receive, CommandsOf, StateAfter, WireAll, Tiles, Processable, AllProcessable, WriteEvents;
    RestAreWrites(m, pmtu);
    var n := if m.length <= pmtu then m.length else pmtu;
    var ev := TxEvent(if m.length <= pmtu then WriteLast else WriteMiddle, m.qpn, m.remote_vaddr, n);
    var next := Shortened(m, n);
    var rest := if m.length <= pmtu then [] else Rest(next, pmtu);
    ContinuesAt(ev, pmtu, psn, d);
    var r := Receive(d, Wire(ev, pmtu, psn));
    if m.length > pmtu {
      RestTiles(next, pmtu, Advance(psn, 1), r.0);
    }
    assert Rest(m, pmtu) == [ev] + rest;
    hide Rest;
    NoPackets(r.0, pmtu, Advance(psn, 1), m.qpn);
    PacketThenRest(d, ev, rest, pmtu, psn, m.qpn);
    TilesMore(CommandsOf(r.0, WireAll(rest, pmtu, Advance(psn, 1)), m.qpn), d.vaddr, n, m.length);
  }

  /**
   * A write of any length, cut into packets and sent: the responder's memory writes lie one behind the other and cover
   * exactly the range that was asked for, whatever the queue pair did before, and nothing remains to be written.
   */
  lemma WriteTiles(m: TxMeta, pmtu: nat, psn: PSN, d: DmaState)
    requires Fits(m, pmtu) && 0 < m.length
    ensures WriteEvents(Segments(m, pmtu)) && AllProcessable(WireAll(Segments(m, pmtu), pmtu, psn))
    ensures Tiles(CommandsOf(d, WireAll(Segments(m, pmtu), pmtu, psn), m.qpn), m.remote_vaddr, m.length)
    ensures StateAfter(d, WireAll(Segments(m, pmtu), pmtu, psn), m.qpn).dma_length == 0
  {
    hide Wire, Receive, CommandsOf, StateAfter, WireAll, Tiles, Processable, AllProcessable, WriteEvents;
    SegmentsAreWrites(m, pmtu);
    var n := if m.length <= pmtu then m.length else pmtu;
    var ev := TxEvent(if m.length <= pmtu then WriteOnly else WriteFirst, m.qpn, m.remote_vaddr, m.length);
    var next := Shortened(m, n);
    var rest := if m.length <= pmtu then [] else Rest(next, pmtu);
    StartsAt(ev, pmtu, psn, d, n);
    var r := Receive(d, Wire(ev, pmtu, psn));
    if m.length > pmtu {
      RestTiles(next, pmtu, Advance(psn, 1), r.0);
    }
    assert Segments(m, pmtu) == [ev] + rest;
    hide Rest, Segments;
    NoPackets(r.0, pmtu, Advance(psn, 1), m.qpn);
    PacketThenRest(d, ev, rest, pmtu, psn, m.qpn);
    TilesMore(CommandsOf(r.0, WireAll(rest, pmtu, Advance(psn, 1)), m.qpn), m.remote_vaddr, n, m.length);
  }

  /**
   * The same in the middle of any traffic: the packets may mix with those of other queue pairs and with
   * acknowledgements. before is what the queue pair received earlier.
   */
  lemma WriteArrives(init: DmaState, log: seq<RxPacket>, before: seq<RxPacket>, m: TxMeta, pmtu: nat, psn: PSN)
    returns (cmds: seq<WriteCmd>)
    requires AllProcessable(log) && AllProcessable(before) && Fits(m, pmtu) && 0 < m.length
    requires WriteEvents(Segments(m, pmtu)) && Own(log, m.qpn) == before + WireAll(Segments(m, pmtu), pmtu, psn)
    ensures CommandsOf(init, log, m.qpn) == CommandsOf(init, before, m.qpn) + cmds
    ensures Tiles(cmds, m.remote_vaddr, m.length) && StateAfter(init, log, m.qpn).dma_length == 0
  {
    hide Segments, WireAll, Receive, Tiles, Own, CommandsOf, StateAfter;
    var d, packets := StateAfter(init, before, m.qpn), WireAll(Segments(m, pmtu), pmtu, psn);
    WriteTiles(m, pmtu, psn, d);
    OnlyOwnPackets(init, log, m.qpn);
    InTwoParts(init, before, packets, m.qpn);
    cmds := CommandsOf(d, packets, m.qpn);
  }

  // ---------------------------------------------------------------- the two processes

  datatype MsnReq = ReadMsn(qpn: nat) | WriteMsn(qpn: nat, d: DmaState)

  datatype FsmState = META | DMA_META | DATA

  /** rx_exh_fsm and msn_table, with the FIFOs between them. Every schedule of the two is possible. */
  class Responder {
    var state: FsmState
    var meta: RxIbh.IbhMeta
    var exHeader: Header
    var dmaMeta: DmaState
    var udpLength: nat
    var consumeReadAddr: bool
    var readReqAddr: nat
    const table: array<DmaState>
    var msnReq: seq<MsnReq>
    var msnRsp: seq<DmaState>
    var metaIn: seq<RxIbh.IbhMeta>
    var headerIn: seq<Header>
    var udpLengthIn: seq<nat>
    var readAddrIn: seq<nat>
    var memoryWriteCmd: seq<WriteCmd>
    var ackEvents: seq<RxIbh.AckEvent>
    var readRequests: seq<ReadResponse.Request>
    ghost const init: seq<DmaState>
    ghost var log: seq<RxPacket>
    /** The packet at hand, and those whose parts wait in the FIFOs. */
    ghost var current: RxPacket
    ghost var waiting: seq<RxPacket>

    ghost function Effective(qp: nat): DmaState
      requires qp < table.Length
      reads this`msnReq, table
    {
      Pending(msnReq, table[qp], qp)
    }

    /** The packets whose lengths are not read yet. */
    ghost function Late(): seq<RxPacket>
      reads this`state, this`current, this`waiting
    {
      if state.DMA_META? then [current] + waiting else waiting
    }

    /** The FIFOs hold the parts of the packets that wait; lengths and addresses also those of the packet at hand. */
    ghost predicate Queues()
      reads this`state, this`meta, this`exHeader, this`udpLength, this`consumeReadAddr, this`readReqAddr, this`metaIn,
            this`headerIn, this`udpLengthIn, this`readAddrIn, this`current, this`waiting
    {
      && metaIn == Metas(waiting) && headerIn == Headers(waiting)
      && udpLengthIn == Lengths(Late()) && readAddrIn == ReadAddrs(Late())
      && (forall k :: 0 <= k < |waiting| ==> Parsed(waiting[k]) && waiting[k].qpn < table.Length)
      && (!state.META? ==> Parsed(current) && current.qpn < table.Length
                           && meta == RxIbh.IbhMeta(current.op, current.qpn, current.psn) && exHeader == current.header
                           && consumeReadAddr == StartsResponse(current.op))
      && (state.DATA? ==> udpLength == current.udpLength && (consumeReadAddr ==> readReqAddr == current.readAddr))
    }

    ghost predicate Channel()
      reads this`state, this`msnReq, this`msnRsp, this`current, this`dmaMeta, table
    {
      && (forall k :: 0 <= k < |msnReq| ==> msnReq[k].qpn < table.Length)
      && match state
         case META => msnRsp == [] && (msnReq == [] || (|msnReq| == 1 && msnReq[0].WriteMsn?))
         case DMA_META =>
           || (msnRsp == [] && (msnReq == [ReadMsn(current.qpn)]
                                || (|msnReq| == 2 && msnReq[0].WriteMsn? && msnReq[1] == ReadMsn(current.qpn))))
           || (msnReq == [] && current.qpn < table.Length && msnRsp == [table[current.qpn]])
         case DATA => msnReq == [] && msnRsp == [] && current.qpn < table.Length && dmaMeta == table[current.qpn]
    }

    ghost predicate Valid()
      reads this, table
    {
      && |init| == table.Length && Queues() && Channel() && AllProcessable(log) && AnswersFor(log)
      && (forall qp :: 0 <= qp < table.Length ==> Effective(qp) == StateAfter(init[qp], log, qp))
    }

    /** What has been sent on is what a history says. */
    ghost predicate AnswersFor(history: seq<RxPacket>)
      requires AllProcessable(history)
      reads this`memoryWriteCmd, this`ackEvents, this`readRequests
    {
      && (forall k :: 0 <= k < |history| ==> history[k].qpn < |init|)
      && memoryWriteCmd == Commands(init, history) && ackEvents == Acks(history) && readRequests == Reads(history)
    }

    constructor (entries: seq<DmaState>)
      ensures Valid() && log == [] && waiting == [] && state.META? && init == entries && fresh(table)
    {
      table := new DmaState[|entries|](i requires 0 <= i < |entries| => entries[i]);
      state, meta, exHeader, dmaMeta := META, RxIbh.IbhMeta(Ack, 0, 0), NoHeader, DmaState(0, 0, 0);
      udpLength, consumeReadAddr, readReqAddr := 0, false, 0;
      msnReq, msnRsp, metaIn, headerIn, udpLengthIn, readAddrIn := [], [], [], [], [], [];
      memoryWriteCmd, ackEvents, readRequests := [], [], [];
      init, log, waiting := entries, [], [];
      current := RxPacket(Ack, 0, 0, NoHeader, 0, 0);
    }

    /** One step of msn_table. */
    method MsnTable()
      requires Valid()
      modifies this`msnReq, this`msnRsp, table
      ensures Valid()
      ensures if old(msnReq) == [] then msnReq == [] && msnRsp == old(msnRsp) && table[..] == old(table[..])
              else
                && msnReq == old(msnReq)[1..]
                && match old(msnReq)[0]
                   case WriteMsn(qpn, d) => msnRsp == old(msnRsp) && table[..] == old(table[..])[qpn := d]
                   case ReadMsn(qpn) => msnRsp == old(msnRsp) + [table[qpn]] && table[..] == old(table[..])
    {
      hide StateAfter, AnswersFor, AllProcessable, Metas, Headers, Lengths, ReadAddrs, Parsed;
      if msnReq != [] {
        var rxRequest := msnReq[0];
        msnReq := msnReq[1..];
        match rxRequest
        case WriteMsn(qpn, d) => table[qpn] := d;
        case ReadMsn(qpn) => msnRsp := msnRsp + [table[qpn]];
      }
    }

    /** One step of rx_exh_fsm. */
    method RxExhFsm()
      requires Valid()
      modifies this
      ensures Valid()
      ensures Taken() == old(Taken())
      ensures state == match old(state)
                       case META => if old(waiting) != [] then DMA_META else META
                       case DMA_META => if old(msnRsp) != [] then DATA else DMA_META
                       case DATA => if old(Stuck()) then DATA else META
      ensures old(Stuck()) ==>
                && Stuck() && current == old(current) && meta == old(meta) && exHeader == old(exHeader)
                && metaIn == old(metaIn) && headerIn == old(headerIn) && udpLengthIn == old(udpLengthIn)
                && readAddrIn == old(readAddrIn) && msnReq == old(msnReq) && msnRsp == old(msnRsp)
                && memoryWriteCmd == old(memoryWriteCmd) && ackEvents == old(ackEvents)
                && readRequests == old(readRequests) && log == old(log)
      ensures if old(state).META? && old(waiting) != [] then waiting == old(waiting)[1..] else waiting == old(waiting)
    {
      hide Valid;
      if state.META? {
        SomethingWaits();
        if metaIn != [] && headerIn != [] {
          TakePacket();
        }
      } else if state.DMA_META? {
        SomethingWaits();
        if msnRsp != [] && udpLengthIn != [] && (!consumeReadAddr || readAddrIn != []) {
          TakeState();
        }
      } else {
        Data();
      }
    }

    /** All parts of a packet arrive together, so that the tests for one of them agree. */
    lemma SomethingWaits()
      requires Valid()
      ensures waiting == [] <==> metaIn == []
      ensures waiting == [] <==> headerIn == []
      ensures state.DMA_META? ==> udpLengthIn != [] && (consumeReadAddr ==> readAddrIn != [])
    {
      hide Channel, StateAfter, Commands, Acks, Reads, AllProcessable, Parsed, StartsResponse, Effective;
    }

    /** The state machine stays with the packet at hand. */
    ghost predicate Stuck()
      reads this`state, this`current
    {
      state.DATA? && Stalls(current.op, current.header)
    }

    /**
     * Any schedule: packets arrive, and the two processes take steps, in any order. Once the state machine stays with a
     * packet it does so for good: nothing more is carried out.
     */
    method Run(schedule: seq<Act>)
      requires Valid()
      requires forall k :: 0 <= k < |schedule| && schedule[k].Arrive? ==>
                 Parsed(schedule[k].p) && schedule[k].p.qpn < table.Length
      modifies this, table
      ensures Valid() && Taken() == old(Taken()) + Arrivals(schedule)
      ensures old(Stuck()) ==>
                && Stuck() && log == old(log) && memoryWriteCmd == old(memoryWriteCmd)
                && ackEvents == old(ackEvents) && readRequests == old(readRequests)
    {
      hide Valid, Taken, Stuck;
      assert schedule[..|schedule|] == schedule;
      for i := 0 to |schedule|
        invariant Valid() && Taken() == old(Taken()) + Arrivals(schedule[..i])
        invariant old(Stuck()) ==>
                    && Stuck() && log == old(log) && memoryWriteCmd == old(memoryWriteCmd)
                    && ackEvents == old(ackEvents) && readRequests == old(readRequests)
      {
        assert schedule[..i + 1][..i] == schedule[..i];
        match schedule[i] {
          case Arrive(p) => PacketIn(p);
          case RxExhStep => RxExhFsm();
          case MsnTableStep => MsnTable();
        }
      }
    }

    /** The packets so far: those that are done, the one at hand, and those that wait. */
    ghost function Taken(): seq<RxPacket>
      reads this`log, this`state, this`current, this`waiting
    {
      log + (if state.META? then [] else [current]) + waiting
    }

    /**
     * What happens when no packet arrives any more: exactly the packets before the first one that stalls are carried
     * out. So all are, and nothing gets stuck, if and only if none of them stalls.
     */
    method Settle()
      requires Valid()
      modifies this, table
      ensures Valid() && log == Passing(old(Taken())) && Taken() == old(Taken())
      ensures (state.META? && waiting == []) <==> AllProcessable(old(Taken()))
      ensures !AllProcessable(old(Taken())) ==>
                Stuck() && |log| < |old(Taken())| && current == old(Taken())[|log|]
    {
      hide StateAfter, AnswersFor, AllProcessable, Parsed, Stalls, Metas, Headers, Lengths, ReadAddrs, Effective;
      while (!state.META? || metaIn != []) && !(state.DATA? && Stalls(meta.op, exHeader))
        invariant Valid() && Taken() == old(Taken())
        decreases |waiting|, match state case META => 0 case DMA_META => 2 case DATA => 1, |msnReq|
      {
        if state.DMA_META? && msnReq != [] {
          MsnTable();
        } else {
          SomethingWaits();
          RxExhFsm();
        }
      }
      Settled();
    }

    lemma Settled()
      requires Valid() && ((state.META? && metaIn == []) || (state.DATA? && Stalls(meta.op, exHeader)))
      ensures log == Passing(Taken()) && ((state.META? && waiting == []) <==> AllProcessable(Taken()))
      ensures !AllProcessable(Taken()) ==> Stuck() && |log| < |Taken()| && current == Taken()[|log|]
    {
      hide StateAfter, AnswersFor, Stalls, Metas, Headers, Lengths, ReadAddrs, Effective, Channel, Passing;
      SomethingWaits();
      var rest := (if state.META? then [] else [current]) + waiting;
      PassingIs(log, rest);
      assert log + rest == Taken();
    }

    method TakePacket()
      requires Valid() && state.META? && metaIn != [] && headerIn != []
      modifies this`current, this`waiting, this`meta, this`metaIn, this`exHeader, this`headerIn, this`msnReq,
               this`consumeReadAddr, this`state
      ensures Valid() && log == old(log) && state.DMA_META? && [current] + waiting == old(waiting)
    {
      hide StateAfter, AnswersFor, AllProcessable, Queues, Pending;
      QuestionChangesNothing(msnReq, metaIn[0].dest_qp);
      ReadPacket();
      msnReq := msnReq + [ReadMsn(meta.dest_qp)];
    }

    method ReadPacket()
      requires Queues() && state.META? && metaIn != [] && headerIn != []
      modifies this`current, this`waiting, this`meta, this`metaIn, this`exHeader, this`headerIn, this`consumeReadAddr,
               this`state
      ensures Queues() && state.DMA_META? && [current] + waiting == old(waiting)
      ensures meta == old(metaIn)[0] && meta.dest_qp == current.qpn < table.Length
    {
      hide Parsed, Metas, Headers, Lengths, ReadAddrs, StartsResponse;
      FirstParts(waiting);
      ghost var others := waiting[1..];
      current, waiting := waiting[0], others;
      meta, metaIn := metaIn[0], metaIn[1..];
      exHeader, headerIn := headerIn[0], headerIn[1..];
      consumeReadAddr := StartsResponse(meta.op);
      state := DMA_META;
      assert Late() == old(waiting);
    }

    method TakeState()
      requires Valid() && state.DMA_META? && msnRsp != [] && udpLengthIn != [] && (consumeReadAddr ==> readAddrIn != [])
      modifies this`dmaMeta, this`msnRsp, this`udpLength, this`udpLengthIn, this`readReqAddr, this`readAddrIn,
               this`state
      ensures Valid() && log == old(log) && state.DATA? && current == old(current) && waiting == old(waiting)
    {
      hide StateAfter, AnswersFor, AllProcessable, Queues, Effective;
      assert current.qpn < table.Length;
      ReadParts();
      dmaMeta, msnRsp := msnRsp[0], msnRsp[1..];
    }

    method ReadParts()
      requires Queues() && state.DMA_META? && udpLengthIn != [] && (consumeReadAddr ==> readAddrIn != [])
      modifies this`udpLength, this`udpLengthIn, this`readReqAddr, this`readAddrIn, this`state
      ensures Queues() && state.DATA?
    {
      hide Parsed, Metas, Headers, Lengths, ReadAddrs, StartsResponse;
      PartsOfFirst(current, waiting);
      udpLength, udpLengthIn := udpLengthIn[0], udpLengthIn[1..];
      if consumeReadAddr {
        readReqAddr, readAddrIn := readAddrIn[0], readAddrIn[1..];
      }
      state := DATA;
    }

    method Data()
      requires Valid() && state.DATA?
      modifies this`memoryWriteCmd, this`ackEvents, this`readRequests, this`msnReq, this`state, this`log
      ensures Valid() && current == old(current) && waiting == old(waiting)
      ensures if Stalls(current.op, current.header) then
                && log == old(log) && state.DATA? && msnReq == old(msnReq) && memoryWriteCmd == old(memoryWriteCmd)
                && ackEvents == old(ackEvents) && readRequests == old(readRequests)
              else log == old(log) + [current] && state.META?
    {
      hide StateAfter, AllProcessable, Receive, Queues, Stalls, Parsed, StartsResponse, AnswersFor, Effective;
      AtHand();
      InRange();
      NothingPending();
      var done, update := Answer();
      if done {
        Finish(update);
      }
    }

    /** The packet at hand is done; the table gets its update, if it leaves one. */
    method Finish(update: seq<MsnReq>)
      requires |init| == table.Length && Queues() && Channel() && state.DATA? && AllProcessable(log)
      requires forall qp :: 0 <= qp < table.Length ==> Effective(qp) == StateAfter(init[qp], log, qp)
      requires !Stalls(current.op, current.header) && Parsed(current)
      requires forall k :: 0 <= k < |log| ==> log[k].qpn < |init|
      requires AllProcessable(log + [current]) && AnswersFor(log + [current])
      requires var d' := Receive(dmaMeta, current).0;
               update == [WriteMsn(current.qpn, d')] || (update == [] && d' == dmaMeta)
      modifies this`msnReq, this`state, this`log
      ensures Valid() && log == old(log) + [current] && state.META?
    {
      hide StateAfter, AllProcessable, Receive, Queues, Stalls, Parsed, AnswersFor;
      OneMore(init, log, current);
      assert forall qp :: 0 <= qp < table.Length ==> Effective(qp) == table[qp];
      msnReq := update;
      Leave();
      log := log + [current];
    }

    lemma NothingPending()
      requires Channel() && state.DATA?
      ensures dmaMeta == Effective(current.qpn) && forall qp :: 0 <= qp < table.Length ==> Effective(qp) == table[qp]
    {
    }

    lemma InRange()
      requires AllProcessable(log) && AnswersFor(log)
      ensures forall k :: 0 <= k < |log| ==> log[k].qpn < |init|
    {
    }

    method Answer() returns (done: bool, update: seq<MsnReq>)
      requires AllProcessable(log) && AnswersFor(log) && Parsed(current) && current.qpn < |init|
      requires meta == RxIbh.IbhMeta(current.op, current.qpn, current.psn) && exHeader == current.header
      requires udpLength == current.udpLength && (StartsResponse(current.op) ==> readReqAddr == current.readAddr)
      requires dmaMeta == StateAfter(init[current.qpn], log, current.qpn)
      modifies this`memoryWriteCmd, this`ackEvents, this`readRequests
      ensures done == !Stalls(current.op, current.header)
      ensures done ==>
                && AllProcessable(log + [current]) && AnswersFor(log + [current])
                && var d' := Receive(dmaMeta, current).0;
                   update == [WriteMsn(current.qpn, d')] || (update == [] && d' == dmaMeta)
      ensures !done ==>
                && memoryWriteCmd == old(memoryWriteCmd) && ackEvents == old(ackEvents)
                && readRequests == old(readRequests)
    {
      hide StateAfter, Commands, Acks, Reads, AllProcessable, Receive, Stalls, Parsed, StartsResponse, StartsWrite,
           ContinuesWrite;
      if !Stalls(current.op, current.header) {
        AnswersNext(log, current);
        OneMore(init, log, current);
      }
      var cmds, acks, requests;
      done, update, cmds, acks, requests := Act();
      memoryWriteCmd, ackEvents, readRequests := memoryWriteCmd + cmds, ackEvents + acks, readRequests + requests;
    }

    lemma AtHand()
      requires Queues() && state.DATA?
      ensures Parsed(current) && meta == RxIbh.IbhMeta(current.op, current.qpn, current.psn)
      ensures exHeader == current.header && udpLength == current.udpLength
      ensures StartsResponse(current.op) ==> readReqAddr == current.readAddr
    {
    }

    method Leave()
      requires Queues() && state.DATA?
      modifies this`state
      ensures Queues() && state.META?
    {
      hide Parsed, Metas, Headers, Lengths, ReadAddrs;
      state := META;
    }

    /** The switch over the opcodes. Without done the state machine stays where it is. */
    method Act()
      returns (done: bool, update: seq<MsnReq>, cmds: seq<WriteCmd>, acks: seq<RxIbh.AckEvent>,
               requests: seq<ReadResponse.Request>)
      requires Parsed(current) && meta == RxIbh.IbhMeta(current.op, current.qpn, current.psn)
      requires exHeader == current.header
      requires udpLength == current.udpLength && (StartsResponse(current.op) ==> readReqAddr == current.readAddr)
      ensures done == !Stalls(current.op, current.header)
      ensures !done ==> update == [] && cmds == [] && acks == [] && requests == []
      ensures done ==>
                && cmds == Receive(dmaMeta, current).1
                && var d' := Receive(dmaMeta, current).0;
                   update == [WriteMsn(current.qpn, d')] || (update == [] && d' == dmaMeta)
      ensures acks == (if done && (StartsWrite(current.op) || ContinuesWrite(current.op))
                       then [RxIbh.AckEvent(current.qpn, 0, false, false)] else [])
      ensures var h := current.header;
              requests == if (current.op.ReadRequest? || current.op.ReadConsistentRequest?) && h.length != 0
                          then [ReadResponse.Request(current.qpn, h.vaddr, h.length, current.psn)]
                          else []
    {
      done, update, cmds, acks, requests := true, [], [], [], [];
      var op, qpn := meta.op, meta.dest_qp;
      var msn := (dmaMeta.msn + 1) % 0x100_0000;
      if op.WriteOnly? || op.WriteFirst? || op.PartOnly? || op.PartFirst? {
        done := exHeader.length != 0;
        if done {
          var payLoadLength := Minus(udpLength, 8 + 12 + 16 + 4);
          var headerLen := exHeader.length;
          var remainingLength := Minus(headerLen, payLoadLength);
          if op.WriteOnly? || op.WriteFirst? {
            cmds := [WriteCmd(exHeader.vaddr, payLoadLength, false)];
          } else {
            cmds := [WriteCmd(exHeader.vaddr, headerLen, true)];
          }
          update := [WriteMsn(qpn, DmaState(msn, Plus64(exHeader.vaddr, payLoadLength), remainingLength))];
          acks := [RxIbh.AckEvent(qpn, 0, false, false)];
        }
      } else if op.WriteMiddle? || op.WriteLast? || op.PartMiddle? || op.PartLast? {
        var payLoadLength := Minus(udpLength, 8 + 12 + 4);
        var remainingLength := Minus(dmaMeta.dma_length, payLoadLength);
        if op.WriteMiddle? || op.WriteLast? {
          cmds := [WriteCmd(dmaMeta.vaddr, payLoadLength, false)];
        }
        update := [WriteMsn(qpn, DmaState(msn, Plus64(dmaMeta.vaddr, payLoadLength), remainingLength))];
        acks := [RxIbh.AckEvent(qpn, 0, false, false)];
      } else if op.ReadRequest? || op.ReadConsistentRequest? {
        if exHeader.length != 0 {
          requests := [ReadResponse.Request(qpn, exHeader.vaddr, exHeader.length, meta.psn)];
          update := [WriteMsn(qpn, DmaState(msn, 0, 0))];
        }
      } else if op.ReadRespOnly? || op.ReadRespFirst? || op.ReadRespLast? {
        var payLoadLength := Minus(udpLength, 8 + 12 + 4 + 4);
        if !op.ReadRespLast? {
          cmds := [WriteCmd(readReqAddr, payLoadLength, false)];
          update := [WriteMsn(qpn, DmaState(dmaMeta.msn, Plus64(readReqAddr, payLoadLength), 0))];
        } else {
          cmds := [WriteCmd(dmaMeta.vaddr, payLoadLength, false)];
        }
      } else if op.ReadRespMiddle? {
        var payLoadLength := Minus(udpLength, 8 + 12 + 4);
        cmds := [WriteCmd(dmaMeta.vaddr, payLoadLength, false)];
        update := [WriteMsn(qpn, DmaState(msn, Plus64(dmaMeta.vaddr, payLoadLength), 0))];
      } else {
        done := op.Ack?;
      }
    }

    /** A packet arrives with all its parts. */
    method PacketIn(p: RxPacket)
      requires Valid() && Parsed(p) && p.qpn < table.Length
      modifies this`metaIn, this`headerIn, this`udpLengthIn, this`readAddrIn, this`waiting
      ensures Valid() && waiting == old(waiting) + [p] && log == old(log) && Taken() == old(Taken()) + [p]
    {
      hide StateAfter, AnswersFor, AllProcessable, Parsed, Queues, Effective, Channel;
      ArriveParts(p);
      assert Taken() == old(Taken()) + [p];
    }

    method ArriveParts(p: RxPacket)
      requires Queues() && Parsed(p) && p.qpn < table.Length
      modifies this`metaIn, this`headerIn, this`udpLengthIn, this`readAddrIn, this`waiting
      ensures Queues() && waiting == old(waiting) + [p]
    {
      hide Parsed, Metas, Headers, Lengths, ReadAddrs, StartsResponse;
      LastParts(waiting, p);
      LastParts([current] + waiting, p);
      assert [current] + (waiting + [p]) == [current] + waiting + [p];
      metaIn, headerIn := metaIn + [RxIbh.IbhMeta(p.op, p.qpn, p.psn)], headerIn + [p.header];
      udpLengthIn := udpLengthIn + [p.udpLength];
      if StartsResponse(p.op) {
        readAddrIn := readAddrIn + [p.readAddr];
      }
      waiting := waiting + [p];
    }
  }

  /** The packets before the first one that stalls. */
  function Passing(ps: seq<RxPacket>): (r: seq<RxPacket>)
    ensures r <= ps && forall k :: 0 <= k < |r| ==> !Stalls(r[k].op, r[k].header)
    ensures |r| < |ps| ==> Stalls(ps[|r|].op, ps[|r|].header)
  {
    if ps == [] || Stalls(ps[0].op, ps[0].header) then [] else [ps[0]] + Passing(ps[1..])
  }

  lemma PassingIs(done: seq<RxPacket>, rest: seq<RxPacket>)
    requires AllProcessable(done) && forall k :: 0 <= k < |rest| ==> Parsed(rest[k])
    requires rest == [] || Stalls(rest[0].op, rest[0].header)
    ensures Passing(done + rest) == done && (AllProcessable(done + rest) <==> rest == [])
  {
    var all, r := done + rest, Passing(done + rest);
    assert forall k :: 0 <= k < |done| ==> all[k] == done[k];
    assert rest != [] ==> all[|done|] == rest[0];
    assert forall k :: 0 <= k < |r| ==> r[k] == all[k];
  }

  datatype Act = Arrive(p: RxPacket) | RxExhStep | MsnTableStep

  function Arrivals(schedule: seq<Act>): seq<RxPacket>
  {
    if schedule == [] then []
    else
      var last := schedule[|schedule| - 1];
      Arrivals(schedule[..|schedule| - 1]) + (if last.Arrive? then [last.p] else [])
  }

  /**
   * A write of no bytes is one packet, and that packet stalls the responder: the source's own requester can stop the
   * other side.
   */
  lemma EmptyWriteStalls(m: TxMeta, pmtu: nat, psn: PSN)
    requires 0 < pmtu && IsWrite(m.op) && m.length == 0
    ensures var evs := Segments(m, pmtu);
            |evs| == 1 && IsWriteOrPart(evs[0].op) && Stalls(evs[0].op, Wire(evs[0], pmtu, psn).header)
  {
  }

  /** The packets of a write pass, unless it has no bytes. */
  lemma {:induction false} WritesPass(m: TxMeta, pmtu: nat, psn: PSN)
    requires 0 < pmtu && IsWrite(m.op)
    ensures WriteEvents(Segments(m, pmtu))
    ensures AllProcessable(WireAll(Segments(m, pmtu), pmtu, psn)) <==> m.length > 0
  {
    hide Rest;
    SegmentsAreWrites(m, pmtu);
    var evs, ps := Segments(m, pmtu), WireAll(Segments(m, pmtu), pmtu, psn);
    if m.length == 0 {
      EmptyWriteStalls(m, pmtu, psn);
      assert !Processable(ps[0]);
    } else {
      PartsOfWrite(m, pmtu);
      hide Segments, Processable, Wire;
      forall k | 0 <= k < |ps|
        ensures Processable(ps[k])
      {
        PartPasses(evs[k], pmtu, Advance(psn, k));
      }
    }
  }

  lemma PartPasses(ev: TxEvent, pmtu: nat, psn: PSN)
    requires ContinuesWrite(ev.op) || (StartsWrite(ev.op) && ev.length > 0)
    ensures Processable(Wire(ev, pmtu, psn))
  {
  }

  /** A write with bytes starts with a header of its length, and goes on with packets that have none. */
  lemma PartsOfWrite(m: TxMeta, pmtu: nat)
    requires 0 < pmtu && IsWrite(m.op) && m.length > 0
    ensures forall k :: 0 <= k < |Segments(m, pmtu)| ==>
              var ev := Segments(m, pmtu)[k]; ContinuesWrite(ev.op) || (StartsWrite(ev.op) && ev.length > 0)
  {
    RestContinues(m, pmtu);
    hide Rest;
    var evs := Segments(m, pmtu);
    forall k | 0 <= k < |evs|
      ensures ContinuesWrite(evs[k].op) || (StartsWrite(evs[k].op) && evs[k].length > 0)
    {
      if k > 0 {
        assert evs[k] == Rest(Shortened(m, pmtu), pmtu)[k - 1];
      }
    }
  }

  lemma {:induction false} RestAllContinue(m: TxMeta, pmtu: nat)
    requires 0 < pmtu
    ensures forall k :: 0 <= k < |Rest(m, pmtu)| ==> ContinuesWrite(Rest(m, pmtu)[k].op)
    decreases m.length
  {
    if m.length > pmtu {
      RestAllContinue(Shortened(m, pmtu), pmtu);
    }
  }

  lemma RestContinues(m: TxMeta, pmtu: nat)
    requires 0 < pmtu
    ensures m.length > pmtu ==>
              var rest := Rest(Shortened(m, pmtu), pmtu);
              forall k :: 0 <= k < |rest| ==> ContinuesWrite(rest[k].op)
  {
    if m.length > pmtu {
      RestAllContinue(Shortened(m, pmtu), pmtu);
    }
  }

  /**
   * The memory writes in the FIFO that belong to a write's queue pair end with that write's, and these cover its range.
   */
  lemma WriteInMemory(r: Responder, before: seq<RxPacket>, m: TxMeta, pmtu: nat, psn: PSN) returns (cmds: seq<WriteCmd>)
    requires r.Valid() && m.qpn < |r.init| && AllProcessable(before) && Fits(m, pmtu) && 0 < m.length
    requires WriteEvents(Segments(m, pmtu)) && Own(r.log, m.qpn) == before + WireAll(Segments(m, pmtu), pmtu, psn)
    ensures |Owners(r.init, r.log)| == |r.memoryWriteCmd|
    ensures Select(r.memoryWriteCmd, Owners(r.init, r.log), m.qpn) == CommandsOf(r.init[m.qpn], before, m.qpn) + cmds
    ensures Tiles(cmds, m.remote_vaddr, m.length)
  {
    hide StateAfter, CommandsOf, Commands, Owners, Select, Own, Segments, WireAll, Tiles, Receive;
    SelectIsOwn(r.init, r.log, m.qpn);
    cmds := WriteArrives(r.init[m.qpn], r.log, before, m, pmtu, psn);
  }

  /** From arrival to memory: when the packets of a write have arrived and nothing stalls, its bytes are written. */
  method SettleWrite(r: Responder, ghost before: seq<RxPacket>, ghost m: TxMeta, ghost pmtu: nat, ghost psn: PSN)
    returns (ghost cmds: seq<WriteCmd>)
    requires r.Valid() && AllProcessable(r.Taken()) && m.qpn < |r.init|
    requires AllProcessable(before) && Fits(m, pmtu) && 0 < m.length
    requires WriteEvents(Segments(m, pmtu)) && Own(r.Taken(), m.qpn) == before + WireAll(Segments(m, pmtu), pmtu, psn)
    modifies r, r.table
    ensures r.Valid() && |Owners(r.init, r.log)| == |r.memoryWriteCmd|
    ensures Select(r.memoryWriteCmd, Owners(r.init, r.log), m.qpn) == CommandsOf(r.init[m.qpn], before, m.qpn) + cmds
    ensures Tiles(cmds, m.remote_vaddr, m.length)
  {
    hide StateAfter, CommandsOf, Commands, Owners, Select, Own, Segments, WireAll, Tiles, Receive, Fits;
    r.Settle();
    AllTaken(r);
    cmds := WriteInMemory(r, before, m, pmtu, psn);
  }

  lemma AllTaken(r: Responder)
    requires r.state.META? && r.waiting == []
    ensures r.log == r.Taken()
  {
  }

  /** An entry of the table, once the pending update is carried out. */
  function Pending(msnReq: seq<MsnReq>, entry: DmaState, qp: nat): DmaState
  {
    if msnReq != [] && msnReq[0].WriteMsn? && msnReq[0].qpn == qp then msnReq[0].d else entry
  }

  lemma QuestionChangesNothing(msnReq: seq<MsnReq>, q: nat)
    ensures forall entry, qp :: Pending(msnReq + [ReadMsn(q)], entry, qp) == Pending(msnReq, entry, qp)
  {
  }

  function Metas(ps: seq<RxPacket>): seq<RxIbh.IbhMeta>
  {
    if ps == [] then [] else [RxIbh.IbhMeta(ps[0].op, ps[0].qpn, ps[0].psn)] + Metas(ps[1..])
  }

  function Headers(ps: seq<RxPacket>): seq<Header>
  {
    if ps == [] then [] else [ps[0].header] + Headers(ps[1..])
  }

  function Lengths(ps: seq<RxPacket>): seq<nat>
  {
    if ps == [] then [] else [ps[0].udpLength] + Lengths(ps[1..])
  }

  function ReadAddrs(ps: seq<RxPacket>): seq<nat>
  {
    if ps == [] then [] else (if StartsResponse(ps[0].op) then [ps[0].readAddr] else []) + ReadAddrs(ps[1..])
  }

  lemma FirstParts(ps: seq<RxPacket>)
    requires Metas(ps) != [] || Lengths(ps) != []
    ensures ps != [] && Metas(ps)[0] == RxIbh.IbhMeta(ps[0].op, ps[0].qpn, ps[0].psn)
    ensures Metas(ps)[1..] == Metas(ps[1..])
    ensures Headers(ps)[0] == ps[0].header && Headers(ps)[1..] == Headers(ps[1..])
    ensures Lengths(ps)[0] == ps[0].udpLength && Lengths(ps)[1..] == Lengths(ps[1..])
    ensures if StartsResponse(ps[0].op) then ReadAddrs(ps) == [ps[0].readAddr] + ReadAddrs(ps[1..])
            else ReadAddrs(ps) == ReadAddrs(ps[1..])
  {
  }

  lemma PartsOfFirst(p: RxPacket, ps: seq<RxPacket>)
    ensures Lengths([p] + ps) == [p.udpLength] + Lengths(ps)
    ensures ReadAddrs([p] + ps) == (if StartsResponse(p.op) then [p.readAddr] else []) + ReadAddrs(ps)
  {
    assert ([p] + ps)[1..] == ps && Lengths([p] + ps) != [];
    FirstParts([p] + ps);
  }

  lemma LastParts(ps: seq<RxPacket>, p: RxPacket)
    ensures Metas(ps + [p]) == Metas(ps) + [RxIbh.IbhMeta(p.op, p.qpn, p.psn)]
    ensures Headers(ps + [p]) == Headers(ps) + [p.header]
    ensures Lengths(ps + [p]) == Lengths(ps) + [p.udpLength]
    ensures ReadAddrs(ps + [p]) == ReadAddrs(ps) + (if StartsResponse(p.op) then [p.readAddr] else [])
  {
    hide Metas, Headers, Lengths, ReadAddrs, StartsResponse;
    LastHeader(ps, p);
    LastLength(ps, p);
  }

  lemma {:induction false} LastHeader(ps: seq<RxPacket>, p: RxPacket)
    ensures Metas(ps + [p]) == Metas(ps) + [RxIbh.IbhMeta(p.op, p.qpn, p.psn)]
    ensures Headers(ps + [p]) == Headers(ps) + [p.header]
  {
    if ps == [] {
      assert [] + [p] == [p] && [p][1..] == [];
    } else {
      LastHeader(ps[1..], p);
      assert (ps + [p])[1..] == ps[1..] + [p] && (ps + [p])[0] == ps[0];
    }
  }

  lemma {:induction false} LastLength(ps: seq<RxPacket>, p: RxPacket)
    ensures Lengths(ps + [p]) == Lengths(ps) + [p.udpLength]
    ensures ReadAddrs(ps + [p]) == ReadAddrs(ps) + (if StartsResponse(p.op) then [p.readAddr] else [])
  {
    hide StartsResponse;
    if ps == [] {
      assert [] + [p] == [p] && [p][1..] == [];
    } else {
      LastLength(ps[1..], p);
      assert (ps + [p])[1..] == ps[1..] + [p] && (ps + [p])[0] == ps[0];
    }
  }

  lemma OneMore(init: seq<DmaState>, log: seq<RxPacket>, p: RxPacket)
    requires AllProcessable(log) && Processable(p) && p.qpn < |init|
    requires forall k :: 0 <= k < |log| ==> log[k].qpn < |init|
    ensures AllProcessable(log + [p])
    ensures var r := Receive(StateAfter(init[p.qpn], log, p.qpn), p);
            && Commands(init, log + [p]) == Commands(init, log) + r.1
            && forall qp :: 0 <= qp < |init| ==>
                 StateAfter(init[qp], log + [p], qp) == if qp == p.qpn then r.0 else StateAfter(init[qp], log, qp)
  {
    hide Receive, Processable;
    assert (log + [p])[..|log|] == log;
  }
}

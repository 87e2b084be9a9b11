/**
 * Reads across the network: generate_exh gives the responses their headers, and the requester's rx_exh_fsm turns them
 * into writes to its own memory.
 */
module ReadArrival {
  import opened Psn
  import opened LocalReq
  import opened RxExh
  import opened ReadResponse

  /**
   * A response as queue pair qp of the requester gets it. local is the address that waits in the requester's queue for
   * this read; only the first packet takes it from there. The UDP layer counts its own header of 8 bytes.
   */
  function WireResponse(ev: RespEvent, qp: nat, local: nat): RxPacket
  {
    if ev.op.ReadRespMiddle?
    then RxPacket(ev.op, qp, ev.psn, NoHeader, ((12 + ev.length + 4) % 65536 + 8) % 65536, local)
    else RxPacket(ev.op, qp, ev.psn, Aeth(false), ((12 + 4 + ev.length + 4) % 65536 + 8) % 65536, local)
  }

  /** The lengths on the wire: UDP 8, BTH 12, AETH 4 but in the middle, the payload, and checksum 4. */
  lemma ResponseLengths(ev: RespEvent, qp: nat, local: nat)
    requires ev.length < 65000
    ensures ev.op.ReadRespMiddle? ==>
              WireResponse(ev, qp, local) == RxPacket(ev.op, qp, ev.psn, NoHeader, 8 + 12 + ev.length + 4, local)
    ensures ev.op.ReadRespOnly? || ev.op.ReadRespFirst? || ev.op.ReadRespLast? ==>
              WireResponse(ev, qp, local) == RxPacket(ev.op, qp, ev.psn, Aeth(false), 8 + 12 + 4 + ev.length + 4, local)
  {
  }

  predicate IsResponseEvent(ev: RespEvent)
  {
    ev.op.ReadRespOnly? || ev.op.ReadRespFirst? || ev.op.ReadRespMiddle? || ev.op.ReadRespLast?
  }

  function WireResponses(evs: seq<RespEvent>, qp: nat, local: nat): (r: seq<RxPacket>)
    ensures |r| == |evs| && forall k :: 0 <= k < |r| ==> r[k] == WireResponse(evs[k], qp, local)
  {
    seq(|evs|, k requires 0 <= k < |evs| => WireResponse(evs[k], qp, local))
  }

  lemma ResponseThenRest(d: DmaState, ev: RespEvent, evs: seq<RespEvent>, qp: nat, local: nat)
    requires Processable(WireResponse(ev, qp, local)) && AllProcessable(WireResponses(evs, qp, local))
    ensures AllProcessable(WireResponses([ev] + evs, qp, local))
    ensures var r := Receive(d, WireResponse(ev, qp, local));
            CommandsOf(d, WireResponses([ev] + evs, qp, local), qp) ==
            r.1 + CommandsOf(r.0, WireResponses(evs, qp, local), qp)
  {
    var p, rest := WireResponse(ev, qp, local), WireResponses(evs, qp, local);
    assert p.qpn == qp;
    hide Receive, Processable, WireResponse;
    OnePacket(d, p, qp);
    assert WireResponses([ev] + evs, qp, local) == [p] + rest;
    InTwoParts(d, [p], rest, qp);
  }

  /** Every packet is written where the one before ended. */
  lemma OneResponse(d: DmaState, ev: RespEvent, qp: nat, local: nat)
    requires IsResponseEvent(ev) && ev.length + 48 < 65536
    ensures Processable(WireResponse(ev, qp, local))
    ensures var r := Receive(d, WireResponse(ev, qp, local));
            var at := if ev.op.ReadRespOnly? || ev.op.ReadRespFirst? then local else d.vaddr;
            && r.1 == [WriteCmd(at, ev.length, false)]
            && (!ev.op.ReadRespLast? && at + ev.length < 0x1_0000_0000_0000_0000 ==> r.0.vaddr == at + ev.length)
  {
    var p := WireResponse(ev, qp, local);
    assert p.udpLength == ev.length + (if ev.op.ReadRespMiddle? then 24 else 28);
    assert p.op == ev.op && p.readAddr == local;
    assert p.header.Reth? <==> false;
    hide WireResponse;
    assert Minus(p.udpLength, if ev.op.ReadRespMiddle? then 24 else 28) == ev.length;
    hide Minus;
  }

  lemma NoResponses(d: DmaState, qp: nat, local: nat)
    ensures AllProcessable(WireResponses([], qp, local)) && CommandsOf(d, WireResponses([], qp, local), qp) == []
    ensures Tiles([], d.vaddr, 0)
  {
  }

  lemma {:induction false} MoreTiles(r: Request, pmtu: nat, qp: nat, local: nat, d: DmaState)
    requires 0 < pmtu && pmtu + 48 < 65536 && 0 < r.dma_length && d.vaddr + r.dma_length < 0x1_0000_0000_0000_0000
    ensures AllProcessable(WireResponses(More(r, pmtu), qp, local))
    ensures Tiles(CommandsOf(d, WireResponses(More(r, pmtu), qp, local), qp), d.vaddr, r.dma_length)
    decreases r.dma_length
  {
    hide WireResponse, WireResponses, Receive, CommandsOf, Tiles, Processable, AllProcessable;
    var n := if r.dma_length <= pmtu then r.dma_length else pmtu;
    var ev := RespEvent(if r.dma_length <= pmtu then ReadRespLast else ReadRespMiddle, r.qpn, n, Advance(r.psn, 1));
    var next := Left(r, n).(psn := Advance(r.psn, 1));
    var rest := if r.dma_length <= pmtu then [] else More(next, pmtu);
    OneResponse(d, ev, qp, local);
    var d' := Receive(d, WireResponse(ev, qp, local)).0;
    NoResponses(d', qp, local);
    if r.dma_length > pmtu {
      MoreTiles(next, pmtu, qp, local, d');
      TilesMore(CommandsOf(d', WireResponses(rest, qp, local), qp), d.vaddr, n, r.dma_length);
    } else {
      NothingMore(d.vaddr, n);
    }
    assert More(r, pmtu) == [ev] + rest;
    hide More;
    ResponseThenRest(d, ev, rest, qp, local);
    assert [WriteCmd(d.vaddr, n, false)] + [] == [WriteCmd(d.vaddr, n, false)];
  }

  lemma NothingMore(start: nat, n: nat)
    requires 0 < n
    ensures Tiles([WriteCmd(start, n, false)], start, n)
  {
    assert [WriteCmd(start, n, false)][1..] == [];
  }

  /**
   * A read of any length: the responses that the other side generates are written one behind the other and cover
   * exactly the local range that the read named, whatever the queue pair did before.
   */
  lemma ReadTiles(r: Request, pmtu: nat, qp: nat, local: nat, d: DmaState)
    requires 0 < pmtu && pmtu + 48 < 65536 && 0 < r.dma_length && local + r.dma_length < 0x1_0000_0000_0000_0000
    ensures AllProcessable(WireResponses(Responses(r, pmtu), qp, local))
    ensures Tiles(CommandsOf(d, WireResponses(Responses(r, pmtu), qp, local), qp), local, r.dma_length)
  {
    hide WireResponse, WireResponses, Receive, CommandsOf, Tiles, Processable, AllProcessable, More;
    var n := if r.dma_length <= pmtu then r.dma_length else pmtu;
    var ev := RespEvent(if r.dma_length <= pmtu then ReadRespOnly else ReadRespFirst, r.qpn, n, r.psn);
    var next := Left(r, n);
    var rest := if r.dma_length <= pmtu then [] else More(next, pmtu);
    OneResponse(d, ev, qp, local);
    var d' := Receive(d, WireResponse(ev, qp, local)).0;
    NoResponses(d', qp, local);
    if r.dma_length > pmtu {
      MoreTiles(next, pmtu, qp, local, d');
      TilesMore(CommandsOf(d', WireResponses(rest, qp, local), qp), local, n, r.dma_length);
    } else {
      NothingMore(local, n);
    }
    assert Responses(r, pmtu) == [ev] + rest;
    hide Responses;
    ResponseThenRest(d, ev, rest, qp, local);
    assert [WriteCmd(local, n, false)] + [] == [WriteCmd(local, n, false)];
  }

  /**
   * The same in the middle of any traffic of other queue pairs and of acknowledgements. before is what the queue pair
   * received earlier.
   */
  lemma ReadArrives(init: DmaState, log: seq<RxPacket>, before: seq<RxPacket>, r: Request, pmtu: nat, qp: nat,
                    local: nat)
    returns (cmds: seq<WriteCmd>)
    requires AllProcessable(log) && AllProcessable(before)
    requires 0 < pmtu && pmtu + 48 < 65536 && 0 < r.dma_length && local + r.dma_length < 0x1_0000_0000_0000_0000
    requires Own(log, qp) == before + WireResponses(Responses(r, pmtu), qp, local)
    ensures CommandsOf(init, log, qp) == CommandsOf(init, before, qp) + cmds
    ensures Tiles(cmds, local, r.dma_length)
  {
    hide Responses, WireResponses, Receive, Tiles, Own, CommandsOf, StateAfter;
    var d, packets := StateAfter(init, before, qp), WireResponses(Responses(r, pmtu), qp, local);
    ReadTiles(r, pmtu, qp, local, d);
    OnlyOwnPackets(init, log, qp);
    InTwoParts(init, before, packets, qp);
    cmds := CommandsOf(d, packets, qp);
  }

  /** The memory writes in the FIFO that belong to the reader's queue pair end with those of the read. */
  lemma ReadInMemory(x: Responder, before: seq<RxPacket>, r: Request, pmtu: nat, qp: nat, local: nat)
    returns (cmds: seq<WriteCmd>)
    requires x.Valid() && qp < |x.init| && AllProcessable(before)
    requires 0 < pmtu && pmtu + 48 < 65536 && 0 < r.dma_length && local + r.dma_length < 0x1_0000_0000_0000_0000
    requires Own(x.log, qp) == before + WireResponses(Responses(r, pmtu), qp, local)
    ensures |Owners(x.init, x.log)| == |x.memoryWriteCmd|
    ensures Select(x.memoryWriteCmd, Owners(x.init, x.log), qp) == CommandsOf(x.init[qp], before, qp) + cmds
    ensures Tiles(cmds, local, r.dma_length)
  {
    hide StateAfter, CommandsOf, Commands, Owners, Select, Own, Responses, WireResponses, Tiles, Receive;
    SelectIsOwn(x.init, x.log, qp);
    cmds := ReadArrives(x.init[qp], x.log, before, r, pmtu, qp, local);
  }
}

/** A write in progress and another packet of its queue pair. */
module WriteIntruder {
  import opened Psn
  import opened LocalReq
  import opened RxExh
  import opened Intruder

  /** The packets of a write after the first one. */
  lemma RestOfWrite(m: TxMeta, pmtu: nat, psn: PSN, k: nat)
    requires Fits(m, pmtu) && 0 < m.length && WriteEvents(Segments(m, pmtu)) && 0 < k <= |Segments(m, pmtu)|
    ensures AllContinue(WireAll(Segments(m, pmtu), pmtu, psn)[k..], m.qpn)
  {
    var evs := Segments(m, pmtu);
    RestSmall(m, pmtu);
    forall i | k <= i < |evs|
      ensures Continues(WireAll(evs, pmtu, psn)[i], m.qpn)
    {
      assert evs[i] == Rest(Shortened(m, pmtu), pmtu)[i - 1];
      hide Rest, Segments;
      WirePayload(evs[i], pmtu, Advance(psn, i));
    }
  }

  lemma RestSmall(m: TxMeta, pmtu: nat)
    requires 0 < pmtu && m.op.AppWrite?
    ensures m.length > pmtu ==> AllSmall(Rest(Shortened(m, pmtu), pmtu), m.qpn, pmtu)
  {
    if m.length > pmtu {
      RestIsSmall(Shortened(m, pmtu), pmtu);
    }
  }

  ghost predicate AllSmall(evs: seq<TxEvent>, qp: nat, pmtu: nat)
  {
    forall k :: 0 <= k < |evs| ==>
      && evs[k].qpn == qp && 0 < evs[k].length <= pmtu && (evs[k].op.WriteMiddle? || evs[k].op.WriteLast?)
  }

  lemma {:induction false} RestIsSmall(m: TxMeta, pmtu: nat)
    requires 0 < pmtu && 0 < m.length && m.op.AppWrite?
    ensures AllSmall(Rest(m, pmtu), m.qpn, pmtu)
    decreases m.length
  {
    if m.length > pmtu {
      RestIsSmall(Shortened(m, pmtu), pmtu);
    }
  }

  lemma WirePayload(ev: TxEvent, pmtu: nat, psn: PSN)
    requires (ev.op.WriteMiddle? || ev.op.WriteLast?) && 0 < ev.length && ev.length + 48 < 65536
    ensures Continues(Wire(ev, pmtu, psn), ev.qpn) && Payload(Wire(ev, pmtu, psn)) == ev.length
  {
    var p := Wire(ev, pmtu, psn);
    assert p.udpLength == ev.length + 24 && p.header == NoHeader && p.op == ev.op;
  }

  lemma FirstOfWrite(m: TxMeta, pmtu: nat, psn: PSN)
    requires Fits(m, pmtu) && pmtu < m.length && WriteEvents(Segments(m, pmtu))
    ensures var ps := WireAll(Segments(m, pmtu), pmtu, psn);
            ps != [] && ps[0].qpn == m.qpn && StartsWrite(ps[0].op)
  {
  }

  /**
   * A write of more than one packet, cut anywhere by another packet of its queue pair, whatever the queue pair did
   * before: it covers its range if and only if that packet is harmless.
   */
  lemma IntruderExact(m: TxMeta, pmtu: nat, psn: PSN, k: nat, d0: DmaState, p: RxPacket)
    returns (d: DmaState, A: seq<WriteCmd>, P: seq<WriteCmd>, B: seq<WriteCmd>)
    requires Fits(m, pmtu) && pmtu < m.length && WriteEvents(Segments(m, pmtu)) && 0 < k < |Segments(m, pmtu)|
    requires Processable(p) && p.qpn == m.qpn
    ensures var ps := WireAll(Segments(m, pmtu), pmtu, psn);
            IsDisturbed(d0, ps[..k], p, ps[k..], m.qpn, m.remote_vaddr, m.length, d, A, P, B)
  {
    WriteAtCut(m, pmtu, psn, k, d0);
    hide *;
    var ps := WireAll(Segments(m, pmtu), pmtu, psn);
    d, A, P, B := Disturbed(d0, ps[..k], p, ps[k..], m.qpn, m.remote_vaddr, m.length);
  }

  lemma WriteAtCut(m: TxMeta, pmtu: nat, psn: PSN, k: nat, d0: DmaState)
    requires Fits(m, pmtu) && pmtu < m.length && WriteEvents(Segments(m, pmtu)) && 0 < k < |Segments(m, pmtu)|
    ensures var ps := WireAll(Segments(m, pmtu), pmtu, psn);
            AtCut(d0, ps[..k], ps[k..], m.qpn, m.remote_vaddr, m.length)
  {
    WriteTiles(m, pmtu, psn, d0);
    RestOfWrite(m, pmtu, psn, k);
    FirstOfWrite(m, pmtu, psn);
    RangeFits(m, pmtu);
    hide *;
    CutAnywhere(WireAll(Segments(m, pmtu), pmtu, psn), k, d0, m.qpn, m.remote_vaddr, m.length);
  }

  lemma RangeFits(m: TxMeta, pmtu: nat)
    requires Fits(m, pmtu)
    ensures m.remote_vaddr + m.length < 0x1_0000_0000_0000_0000
  {
  }

  /** A case of it: a read of 64 bytes is answered between the two packets of a write. */
  lemma ResponseIntrudes(d: DmaState)
    ensures var first := RxPacket(WriteFirst, 0, 0, Reth(0x1000, 2816), 1408 + 40, 0);
            var response := RxPacket(ReadRespOnly, 0, 0, Aeth(false), 64 + 28, 0x9000);
            var last := RxPacket(WriteLast, 0, 1, NoHeader, 1408 + 24, 0);
            var log := [first] + [response] + [last];
            && AllProcessable(log)
            && CommandsOf(d, log, 0) ==
               [WriteCmd(0x1000, 1408, false)] + [WriteCmd(0x9000, 64, false)] + [WriteCmd(0x9040, 1408, false)]
  {
    var first := RxPacket(WriteFirst, 0, 0, Reth(0x1000, 2816), 1408 + 40, 0);
    var response := RxPacket(ReadRespOnly, 0, 0, Aeth(false), 64 + 28, 0x9000);
    var last := RxPacket(WriteLast, 0, 1, NoHeader, 1408 + 24, 0);
    OnePacket(d, first, 0);
    OnePacketMore(d, [first], response, 0);
    OnePacketMore(d, [first] + [response], last, 0);
  }
}

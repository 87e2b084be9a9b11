/** The answer to a read in progress and another packet of the reader's queue pair. */
module ReadIntruder {
  import opened Psn
  import opened RxExh
  import opened ReadResponse
  import opened ReadArrival
  import opened Intruder

  /** The packets of an answer after the first one. */
  lemma RestOfAnswer(r: Request, pmtu: nat, qp: nat, local: nat, k: nat)
    requires 0 < pmtu && pmtu + 48 < 65536 && 0 < r.dma_length && 0 < k <= |Responses(r, pmtu)|
    ensures AllContinue(WireResponses(Responses(r, pmtu), qp, local)[k..], qp)
  {
    ResponsesAre(r, pmtu);
    hide Responses;
    var evs := Responses(r, pmtu);
    var ps := WireResponses(evs, qp, local);
    forall i | 0 <= i < |ps[k..]|
      ensures Continues(ps[k..][i], qp) && (i < |ps[k..]| - 1 ==> !ps[k..][i].op.ReadRespLast?)
    {
      assert ps[k..][i] == WireResponse(evs[k + i], qp, local) && evs[k + i].op == OpOf(k + i, |evs|);
      AnswerPayload(evs[k + i], qp, local);
    }
  }

  lemma AnswerPayload(ev: RespEvent, qp: nat, local: nat)
    requires (ev.op.ReadRespMiddle? || ev.op.ReadRespLast?) && 0 < ev.length && ev.length + 48 < 65536
    ensures Continues(WireResponse(ev, qp, local), qp) && WireResponse(ev, qp, local).op == ev.op
  {
    var p := WireResponse(ev, qp, local);
    assert p.op == ev.op && p.udpLength == ev.length + (if ev.op.ReadRespMiddle? then 24 else 28);
  }

  lemma FirstOfAnswer(r: Request, pmtu: nat, qp: nat, local: nat)
    requires 0 < pmtu && 0 < r.dma_length
    ensures var ps := WireResponses(Responses(r, pmtu), qp, local);
            ps != [] && ps[0].qpn == qp && StartsResponse(ps[0].op)
  {
    assert WireResponses(Responses(r, pmtu), qp, local)[0] == WireResponse(Responses(r, pmtu)[0], qp, local);
  }

  lemma AnswerAtCut(r: Request, pmtu: nat, qp: nat, local: nat, k: nat, d0: DmaState)
    requires 0 < pmtu && pmtu + 48 < 65536 && 0 < r.dma_length && 0 < k < |Responses(r, pmtu)|
    requires local + r.dma_length < 0x1_0000_0000_0000_0000
    ensures var ps := WireResponses(Responses(r, pmtu), qp, local);
            AtCut(d0, ps[..k], ps[k..], qp, local, r.dma_length)
  {
    ReadTiles(r, pmtu, qp, local, d0);
    RestOfAnswer(r, pmtu, qp, local, k);
    FirstOfAnswer(r, pmtu, qp, local);
    hide *;
    CutAnywhere(WireResponses(Responses(r, pmtu), qp, local), k, d0, qp, local, r.dma_length);
  }

  /**
   * An answer of more than one packet, cut anywhere by another packet of its queue pair. It reaches its range as a
   * whole if and only if that packet is harmless.
   */
  lemma IntruderExact(r: Request, pmtu: nat, qp: nat, local: nat, k: nat, d0: DmaState, p: RxPacket)
    returns (d: DmaState, A: seq<WriteCmd>, P: seq<WriteCmd>, B: seq<WriteCmd>)
    requires 0 < pmtu && pmtu + 48 < 65536 && 0 < r.dma_length && 0 < k < |Responses(r, pmtu)|
    requires local + r.dma_length < 0x1_0000_0000_0000_0000 && Processable(p) && p.qpn == qp
    ensures var ps := WireResponses(Responses(r, pmtu), qp, local);
            IsDisturbed(d0, ps[..k], p, ps[k..], qp, local, r.dma_length, d, A, P, B)
  {
    AnswerAtCut(r, pmtu, qp, local, k, d0);
    hide *;
    var ps := WireResponses(Responses(r, pmtu), qp, local);
    d, A, P, B := Disturbed(d0, ps[..k], p, ps[k..], qp, local, r.dma_length);
  }
}

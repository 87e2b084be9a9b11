/**
 * The requester and the responses to a read: rx_ibh_fsm with the request side of state_table takes each of them as new,
 * and both sides count alike.
 */
module ReadAccepted {
  import opened Psn
  import opened RxIbh
  import opened ReadResponse
  import TxIbh

  predicate IsResponseOn(e: Event, qp: nat)
  {
    e.meta.dest_qp == qp && IsResponse(e.meta.op)
  }

  /** The responses and acknowledgements that a history holds for a queue pair. */
  function ResponsesOn(log: seq<Event>, qp: nat): seq<(OpCode, PSN)>
  {
    if log == [] then []
    else
      var e := log[|log| - 1];
      ResponsesOn(log[..|log| - 1], qp) + (if IsResponseOn(e, qp) then [(e.meta.op, e.meta.psn)] else [])
  }

  /** As rx_process_exh counts them: one packet each, and none of them a negative acknowledgement. */
  ghost predicate Single(log: seq<Event>, qp: nat)
  {
    forall k :: 0 <= k < |log| && IsResponseOn(log[k], qp) ==> !log[k].emeta.isNak && log[k].emeta.numPkg == 1
  }

  function Sent(evs: seq<RespEvent>): (r: seq<(OpCode, PSN)>)
    ensures |r| == |evs| && forall k :: 0 <= k < |r| ==> r[k] == (evs[k].op, evs[k].psn)
  {
    seq(|evs|, k requires 0 <= k < |evs| => (evs[k].op, evs[k].psn))
  }

  /** Response packets that are numbered on from psn. */
  ghost predicate Consecutive(sent: seq<(OpCode, PSN)>, psn: PSN)
  {
    forall k :: 0 <= k < |sent| ==> IsResponse(sent[k].0) && !sent[k].0.Ack? && sent[k].1 == Advance(psn, k)
  }

  lemma SentAreConsecutive(r: Request, pmtu: nat)
    requires 0 < pmtu && 0 < r.dma_length
    ensures Consecutive(Sent(Responses(r, pmtu)), r.psn)
  {
    ResponsesAre(r, pmtu);
    hide Responses, Advance;
  }

  /**
   * A requester that waits for a number and then gets responses numbered on from it, in order, takes each of them as
   * new, whatever arrives in between for its own requests from the other side or for other queue pairs.
   */
  lemma {:induction false} ConsecutiveAreAccepted(start: seq<PSN>, before: seq<Event>, rest: seq<Event>, qp: nat,
                                                  sent: seq<(OpCode, PSN)>, psn: PSN)
    requires GenuineResponses(start, before + rest) && qp < |start| && Single(rest, qp)
    requires ExpectedResponse(start[qp], before, qp) == psn
    requires Consecutive(sent, psn) && ResponsesOn(rest, qp) <= sent
    ensures forall k :: 0 <= k < |rest| && IsResponseOn(rest[k], qp) ==> rest[k].verdict.New?
    ensures ExpectedResponse(start[qp], before + rest, qp) == Advance(psn, |ResponsesOn(rest, qp)|)
    decreases |rest|
  {
    hide Advance;
    if rest == [] {
      assert before + rest == before;
      AdvanceNone(psn);
    } else {
      var n := |rest| - 1;
      var all, front, e := before + rest, rest[..n], rest[n];
      assert all[..|all| - 1] == before + front && all[|all| - 1] == e;
      var m := |ResponsesOn(front, qp)|;
      assert ResponsesOn(front, qp) <= ResponsesOn(rest, qp);
      ConsecutiveAreAccepted(start, before, front, qp, sent, psn);
      AdvanceTwice(psn, m, 1);
      hide GenuineResponses;
      if IsResponseOn(e, qp) {
        assert ResponsesOn(rest, qp)[m] == (e.meta.op, e.meta.psn) && ResponsesOn(rest, qp)[m] == sent[m];
        assert JustifiedResponse(start, before + front, e);
      }
    }
  }

  /**
   * hs are the headers that the requester's generate_ibh wrote for items, where item i is a read and item j the next
   * request of its queue pair. The responses of the other side to the read, whose number is that of the header, are all
   * taken as new, and after the last one the requester waits for the number of the next request if and only if the
   * packet count, in 24 bits, fits its 22 bits; every length of up to 0x3F_FFFF packets does.
   */
  lemma BothSidesCount(start: seq<PSN>, before: seq<Event>, rest: seq<Event>, qp: nat, r: Request, pmtu: nat,
                       hs: seq<TxIbh.Bth>, sendStart: seq<PSN>, items: seq<TxIbh.Item>, i: nat, j: nat)
    requires 0 < pmtu && 0 < r.dma_length
    requires TxIbh.LocalsAreRequests(items) && TxIbh.AllHeaders(hs, sendStart, TxIbh.MetasOf(items, pmtu))
    requires i < j < |items| && items[i].LocalItem? && items[j].LocalItem?
    requires IsReadRequest(items[i].event.op) && items[i].event.qpn == items[j].event.qpn == qp
    requires forall k :: i < k < j && items[k].LocalItem? ==> items[k].event.qpn != qp
    requires |hs| == |items| && r.psn == hs[i].psn && r.dma_length == items[i].event.length
    requires GenuineResponses(start, before + rest) && qp < |start| && Single(rest, qp)
    requires ExpectedResponse(start[qp], before, qp) == hs[i].psn && ResponsesOn(rest, qp) == Sent(Responses(r, pmtu))
    ensures forall k :: 0 <= k < |rest| && IsResponseOn(rest[k], qp) ==> rest[k].verdict.New?
    ensures ExpectedResponse(start[qp], before + rest, qp) == hs[j].psn
            <==> (r.dma_length + (pmtu - 1)) / pmtu % PSNS < 0x40_0000
    ensures r.dma_length <= 0x3F_FFFF * pmtu ==>
              && ExpectedResponse(start[qp], before + rest, qp) == hs[j].psn
              && hs[j].psn == Advance(hs[i].psn, |Responses(r, pmtu)|)
  {
    hide *;
    AllTaken(start, before, rest, qp, r, pmtu);
    TxIbh.NextRequest(hs, sendStart, items, pmtu, i, j);
    CountIs(r.dma_length, pmtu);
    SameCount(r.psn, r.dma_length, pmtu);
  }

  /** All responses are taken, and the requester then waits for the number behind them. */
  lemma AllTaken(start: seq<PSN>, before: seq<Event>, rest: seq<Event>, qp: nat, r: Request, pmtu: nat)
    requires 0 < pmtu && 0 < r.dma_length
    requires GenuineResponses(start, before + rest) && qp < |start| && Single(rest, qp)
    requires ExpectedResponse(start[qp], before, qp) == r.psn && ResponsesOn(rest, qp) == Sent(Responses(r, pmtu))
    ensures forall k :: 0 <= k < |rest| && IsResponseOn(rest[k], qp) ==> rest[k].verdict.New?
    ensures |Responses(r, pmtu)| == (r.dma_length + (pmtu - 1)) / pmtu
    ensures ExpectedResponse(start[qp], before + rest, qp) == Advance(r.psn, |Responses(r, pmtu)|)
  {
    hide Responses, GenuineResponses, ExpectedResponse, Advance;
    SentAreConsecutive(r, pmtu);
    ConsecutiveAreAccepted(start, before, rest, qp, Sent(Responses(r, pmtu)), r.psn);
    ResponsesAre(r, pmtu);
  }

  lemma CountIs(length: nat, pmtu: nat)
    requires 0 < pmtu
    ensures NumPkg(length, pmtu) == (length + (pmtu - 1)) / pmtu % 0x40_0000
  {
  }

  lemma SameCount(psn: PSN, length: nat, pmtu: nat)
    requires 0 < pmtu
    ensures 0 <= (length + (pmtu - 1)) / pmtu
    ensures var n: nat := (length + (pmtu - 1)) / pmtu;
            && (Advance(psn, n) == Advance(psn, NumPkg(length, pmtu)) <==> n % PSNS < 0x40_0000)
            && (length <= 0x3F_FFFF * pmtu ==> Advance(psn, n) == Advance(psn, NumPkg(length, pmtu)))
  {
    CountFits(length, pmtu);
    SameNumber(psn, (length + (pmtu - 1)) / pmtu);
    hide Advance;
  }

  lemma SameNumber(psn: PSN, n: nat)
    ensures Advance(psn, n) == Advance(psn, n % 0x40_0000) <==> n % PSNS < 0x40_0000
  {
    var q := n / PSNS;
    assert n == PSNS * q + n % PSNS;
    assert n % 0x40_0000 == n % PSNS % 0x40_0000;
    assert Advance(psn, n) == (psn + n % PSNS) % PSNS;
  }
}

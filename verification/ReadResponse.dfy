/**
 * Read responses: handle_read_requests numbers and sizes the packets, both sides count them, and tx_pkg_arbiter cuts
 * the memory's burst accordingly.
 */
module ReadResponse {
  import opened Powers
  import opened Psn
  import LocalReq

  datatype Request = Request(qpn: nat, vaddr: nat, dma_length: nat, psn: PSN)

  datatype RespEvent = RespEvent(op: OpCode, qpn: nat, length: nat, psn: PSN)

  datatype ReadCmd = ReadCmd(qpn: nat, addr: nat, len: nat)

  // ---------------------------------------------------------------- handle_read_requests

  /** The packets of a response from the second one on; r is what is left, psn is that of the packet before. */
  function More(r: Request, pmtu: nat): seq<RespEvent>
    requires 0 < pmtu
    decreases r.dma_length
  {
    var psn := Advance(r.psn, 1);
    if r.dma_length <= pmtu then [RespEvent(ReadRespLast, r.qpn, r.dma_length, psn)]
    else [RespEvent(ReadRespMiddle, r.qpn, pmtu, psn)] + More(Left(r, pmtu).(psn := psn), pmtu)
  }

  function Left(r: Request, pmtu: nat): Request
    requires pmtu <= r.dma_length
  {
    r.(vaddr := (r.vaddr + pmtu) % LocalReq.ADDRESSES, dma_length := r.dma_length - pmtu)
  }

  function Responses(r: Request, pmtu: nat): seq<RespEvent>
    requires 0 < pmtu
  {
    if r.dma_length <= pmtu then [RespEvent(ReadRespOnly, r.qpn, r.dma_length, r.psn)]
    else [RespEvent(ReadRespFirst, r.qpn, pmtu, r.psn)] + More(Left(r, pmtu), pmtu)
  }

  function AllResponses(rs: seq<Request>, pmtu: nat): seq<RespEvent>
    requires 0 < pmtu
  {
    if rs == [] then [] else AllResponses(rs[..|rs| - 1], pmtu) + Responses(rs[|rs| - 1], pmtu)
  }

  function AllReads(rs: seq<Request>): seq<ReadCmd>
  {
    if rs == [] then []
    else AllReads(rs[..|rs| - 1]) + [ReadCmd(rs[|rs| - 1].qpn, rs[|rs| - 1].vaddr, rs[|rs| - 1].dma_length)]
  }

  lemma OneRequestMore(rs: seq<Request>, r: Request, pmtu: nat)
    requires 0 < pmtu
    ensures AllResponses(rs + [r], pmtu) == AllResponses(rs, pmtu) + Responses(r, pmtu)
    ensures AllReads(rs + [r]) == AllReads(rs) + [ReadCmd(r.qpn, r.vaddr, r.dma_length)]
  {
    assert (rs + [r])[..|rs|] == rs;
  }

  class ReadRequestHandler {
    const pmtu: nat
    var generating: bool
    var request: Request
    var requestIn: seq<Request>
    var memoryReadCmd: seq<ReadCmd>
    var readEventFifo: seq<RespEvent>
    ghost var taken: seq<Request>

    ghost predicate Valid()
      reads this
    {
      && 0 < pmtu
      && readEventFifo + (if generating then More(request, pmtu) else []) == AllResponses(taken, pmtu)
      && memoryReadCmd == AllReads(taken)
    }

    constructor (pmtu: nat)
      requires 0 < pmtu
      ensures Valid() && this.pmtu == pmtu && taken == [] && requestIn == [] && readEventFifo == [] && !generating
    {
      this.pmtu := pmtu;
      generating, request := false, Request(0, 0, 0, 0);
      requestIn, memoryReadCmd, readEventFifo, taken := [], [], [], [];
    }

    /** One step: one packet event, as long as there is a request. The memory is asked once per request. */
    method Step()
      requires Valid()
      modifies this
      ensures Valid() && taken + requestIn == old(taken + requestIn)
      ensures old(readEventFifo) <= readEventFifo
      ensures old(generating || requestIn != []) ==> |readEventFifo| == |old(readEventFifo)| + 1
    {
      hide Valid;
      if !generating {
        if requestIn != [] {
          TakeRequest();
        }
      } else {
        Generate();
      }
    }

    method TakeRequest()
      requires Valid() && !generating && requestIn != []
      modifies this
      ensures Valid() && taken + requestIn == old(taken + requestIn)
      ensures old(readEventFifo) <= readEventFifo && |readEventFifo| == |old(readEventFifo)| + 1
      ensures var r := old(requestIn)[0]; memoryReadCmd == old(memoryReadCmd) + [ReadCmd(r.qpn, r.vaddr, r.dma_length)]
    {
      hide AllResponses, AllReads, More;
      request, requestIn := requestIn[0], requestIn[1..];
      ghost var r := request;
      OneRequestMore(taken, r, pmtu);
      taken := taken + [r];
      var readAddr, readLength, dmaLength := request.vaddr, request.dma_length, request.dma_length;
      var readOpcode := ReadRespOnly;
      if request.dma_length > pmtu {
        readLength := pmtu;
        request := request.(vaddr := (request.vaddr + pmtu) % LocalReq.ADDRESSES,
                            dma_length := request.dma_length - pmtu);
        readOpcode := ReadRespFirst;
        generating := true;
      }
      memoryReadCmd := memoryReadCmd + [ReadCmd(request.qpn, readAddr, dmaLength)];
      ghost var event := RespEvent(readOpcode, request.qpn, readLength, request.psn);
      readEventFifo := readEventFifo + [RespEvent(readOpcode, request.qpn, readLength, request.psn)];
      assert Responses(r, pmtu) == [event] + (if generating then More(request, pmtu) else []);
    }

    method Generate()
      requires Valid() && generating
      modifies this
      ensures Valid() && taken == old(taken) && requestIn == old(requestIn)
      ensures old(readEventFifo) <= readEventFifo && |readEventFifo| == |old(readEventFifo)| + 1
    {
      hide AllResponses, AllReads, Advance;
      var readLength := request.dma_length;
      var readOpcode;
      if request.dma_length > pmtu {
        readLength := pmtu;
        request := request.(vaddr := (request.vaddr + pmtu) % LocalReq.ADDRESSES,
                            dma_length := request.dma_length - pmtu);
        readOpcode := ReadRespMiddle;
      } else {
        readOpcode := ReadRespLast;
        generating := false;
      }
      request := request.(psn := Advance(request.psn, 1));
      readEventFifo := readEventFifo + [RespEvent(readOpcode, request.qpn, readLength, request.psn)];
    }
  }

  // ---------------------------------------------------------------- counts

  /** The number of packets that both sides compute for a read, as a 22-bit number. */
  function NumPkg(length: nat, pmtu: nat): nat
    requires 0 < pmtu
  {
    (length + (pmtu - 1)) / pmtu % 0x40_0000
  }

  /** The count fits exactly when it is below 2^22, and then nothing is cut off. */
  lemma CountFits(length: nat, pmtu: nat)
    requires 0 < pmtu
    ensures NumPkg(length, pmtu) == (length + (pmtu - 1)) / pmtu <==> length <= 0x3F_FFFF * pmtu
  {
    var n := length + (pmtu - 1);
    var q, r := n / pmtu, n % pmtu;
    assert n == pmtu * q + r;
    if q <= 0x3F_FFFF {
      MulMonotone(pmtu, q, 0x3F_FFFF);
    } else {
      MulMonotone(pmtu, 0x40_0000, q);
    }
  }

  /** Every 32-bit length is counted exactly if packets have at least 1025 bytes. */
  lemma EveryLengthFits(pmtu: nat)
    requires 0 < pmtu
    ensures (forall length: nat :: length < 0x1_0000_0000 ==> NumPkg(length, pmtu) == (length + (pmtu - 1)) / pmtu)
            <==> pmtu >= 1025
  {
    if pmtu >= 1025 {
      forall length: nat | length < 0x1_0000_0000
        ensures NumPkg(length, pmtu) == (length + (pmtu - 1)) / pmtu
      {
        CountFits(length, pmtu);
      }
    } else {
      CountFits(0x3F_FFFF * pmtu + 1, pmtu);
    }
  }

  /** With packets of 1024 bytes a read of almost 4 GB counts as no packet at all. */
  lemma CountLost()
    ensures 0x3F_FFFF * 1024 + 1 < 0x1_0000_0000 && NumPkg(0x3F_FFFF * 1024 + 1, 1024) == 0
  {
  }

  /** One packet more for every pmtu bytes more. */
  lemma CountNext(length: nat, pmtu: nat)
    requires pmtu < length && 0 < pmtu
    ensures (length + (pmtu - 1)) / pmtu == (length - pmtu + (pmtu - 1)) / pmtu + 1
  {
    var m := length - pmtu + (pmtu - 1);
    var q, r := m / pmtu, m % pmtu;
    assert m == pmtu * q + r;
    OneMore(q, pmtu);
    assert (q + 1) * pmtu == pmtu * (q + 1) && q * pmtu == pmtu * q;
    DivUnique(length + (pmtu - 1), pmtu, q + 1, r);
  }

  lemma CountOne(length: nat, pmtu: nat)
    requires 0 < length <= pmtu
    ensures (length + (pmtu - 1)) / pmtu == 1
  {
    DivUnique(length + (pmtu - 1), pmtu, 1, length - 1);
  }

  /** The bytes of some packets. */
  function Sum(evs: seq<RespEvent>): nat
  {
    if evs == [] then 0 else evs[0].length + Sum(evs[1..])
  }

  /** Consecutive packets of one queue pair from a number on; all but the last are full. */
  ghost predicate Numbered(evs: seq<RespEvent>, qpn: nat, psn: PSN, pmtu: nat)
  {
    forall k :: 0 <= k < |evs| ==>
      && evs[k].qpn == qpn && evs[k].psn == Advance(psn, k)
      && 0 < evs[k].length <= pmtu && (k < |evs| - 1 ==> evs[k].length == pmtu)
  }

  lemma {:induction false} MoreIs(r: Request, pmtu: nat)
    requires 0 < pmtu && 0 < r.dma_length
    ensures var evs := More(r, pmtu);
            && |evs| == (r.dma_length + (pmtu - 1)) / pmtu && Sum(evs) == r.dma_length
            && Numbered(evs, r.qpn, Advance(r.psn, 1), pmtu)
            && forall k :: 0 <= k < |evs| ==> evs[k].op == if k < |evs| - 1 then ReadRespMiddle else ReadRespLast
    decreases r.dma_length
  {
    var evs := More(r, pmtu);
    var psn := Advance(r.psn, 1);
    if r.dma_length <= pmtu {
      CountOne(r.dma_length, pmtu);
    } else {
      var left := Left(r, pmtu).(psn := psn);
      MoreIs(left, pmtu);
      CountNext(r.dma_length, pmtu);
      assert evs[1..] == More(left, pmtu);
      NumberedNext(evs, r.qpn, psn, pmtu);
    }
  }

  lemma NumberedNext(evs: seq<RespEvent>, qpn: nat, psn: PSN, pmtu: nat)
    requires |evs| > 1 && evs[0].qpn == qpn && evs[0].psn == psn && evs[0].length == pmtu > 0
    requires Numbered(evs[1..], qpn, Advance(psn, 1), pmtu)
    ensures Numbered(evs, qpn, psn, pmtu)
  {
    forall k | 0 <= k < |evs|
      ensures evs[k].qpn == qpn && evs[k].psn == Advance(psn, k)
      ensures 0 < evs[k].length <= pmtu && (k < |evs| - 1 ==> evs[k].length == pmtu)
    {
      if k > 0 {
        assert evs[k] == evs[1..][k - 1];
        AdvanceTwice(psn, 1, k - 1);
      }
    }
  }

  /** The opcodes of a response of n packets. */
  function OpOf(k: nat, n: nat): OpCode
  {
    if n == 1 then ReadRespOnly
    else if k == 0 then ReadRespFirst
    else if k == n - 1 then ReadRespLast
    else ReadRespMiddle
  }

  /**
   * A read of length > 0 gives ceil(length / pmtu) packets with consecutive numbers from the request's on; they are
   * ONLY, or FIRST MIDDLE* LAST, and their lengths add up to the request.
   */
  lemma ResponsesAre(r: Request, pmtu: nat)
    requires 0 < pmtu && 0 < r.dma_length
    ensures var evs := Responses(r, pmtu);
            && |evs| == (r.dma_length + (pmtu - 1)) / pmtu && Sum(evs) == r.dma_length
            && Numbered(evs, r.qpn, r.psn, pmtu)
            && forall k :: 0 <= k < |evs| ==> evs[k].op == OpOf(k, |evs|)
    ensures var evs := Responses(r, pmtu);
            && (|evs| == 1 ==> evs[0].op.ReadRespOnly?)
            && (|evs| > 1 ==> evs[0].op.ReadRespFirst? && evs[|evs| - 1].op.ReadRespLast?)
            && (forall k :: 0 < k < |evs| - 1 ==> evs[k].op.ReadRespMiddle?)
            && (forall k :: 0 <= k < |evs| ==> evs[k].qpn == r.qpn && evs[k].psn == Advance(r.psn, k))
            && (forall k :: 0 <= k < |evs| - 1 ==> evs[k].length == pmtu)
  {
    var evs := Responses(r, pmtu);
    if r.dma_length <= pmtu {
      CountOne(r.dma_length, pmtu);
    } else {
      MoreIs(Left(r, pmtu), pmtu);
      CountNext(r.dma_length, pmtu);
      assert evs[1..] == More(Left(r, pmtu), pmtu);
      NumberedNext(evs, r.qpn, r.psn, pmtu);
    }
  }
}

/**
 * The receive side of reliable transport: the process rx_ibh_fsm and the process state_table, which exchange requests
 * and replies through FIFOs. Every schedule of the two is possible.
 */
module RxIbh {
  import opened Psn
  import opened Options

  datatype StateTableEntry = StateTableEntry(resp_epsn: PSN, resp_old_outstanding: PSN, req_next_psn: PSN,
                                             req_old_unack: PSN, req_old_valid: PSN, retryCounter: nat)

  datatype RxStateReq =
    | Read(qpn: nat, isResponse: bool)
    | Write(qpn: nat, epsn: PSN, retryCounter: nat, isResponse: bool)

  datatype RxStateRsp = RxStateRsp(epsn: PSN, oldest: PSN, max_forward: PSN, retryCounter: nat)

  datatype TxStateReq = TxRead(qpn: nat) | TxWrite(qpn: nat, psn: PSN)

  datatype IbhMeta = IbhMeta(op: OpCode, dest_qp: nat, psn: PSN)

  datatype ExhMeta = ExhMeta(isNak: bool, numPkg: nat)

  datatype AckEvent = AckEvent(qpn: nat, psn: PSN, validPsn: bool, isNak: bool)

  datatype FwdPolicy = FwdPolicy(isDrop: bool, ackOnly: bool)

  // ---------------------------------------------------------------- histories

  /**
   * A processed packet: the verdict, and the acknowledgements that it triggered. For a response, next is the number of
   * the next request of its queue pair at the time at which the table was read.
   */
  datatype Event = Event(meta: IbhMeta, emeta: ExhMeta, verdict: Verdict, reply: seq<AckEvent>, next: Option<PSN>)

  /** A request on qp that was taken as new. */
  predicate Accepted(e: Event, qp: nat)
  {
    e.meta.dest_qp == qp && !IsResponse(e.meta.op) && e.verdict.New? && !e.emeta.isNak
  }

  predicate Rejected(e: Event, qp: nat)
  {
    e.meta.dest_qp == qp && !IsResponse(e.meta.op) && e.verdict.Invalid?
  }

  predicate SentNak(e: Event, qp: nat)
  {
    exists k :: 0 <= k < |e.reply| && e.reply[k].isNak && e.reply[k].qpn == qp
  }

  /** The number that the next request has to have: where the packets of the last accepted one end. */
  function Expected(start: PSN, log: seq<Event>, qp: nat): PSN
  {
    if log == [] then start
    else
      var e := log[|log| - 1];
      if Accepted(e, qp) then Advance(e.meta.psn, e.emeta.numPkg) else Expected(start, log[..|log| - 1], qp)
  }

  /** No request was rejected since the last accepted one. */
  predicate Armed(log: seq<Event>, qp: nat)
  {
    if log == [] then true
    else
      var e := log[|log| - 1];
      Accepted(e, qp) || (!Rejected(e, qp) && Armed(log[..|log| - 1], qp))
  }

  /** What the packets before a packet make of it. */
  ghost predicate Justified(start: seq<PSN>, log: seq<Event>, e: Event)
  {
    var qp := e.meta.dest_qp;
    if IsResponse(e.meta.op) then forall k :: 0 <= k < |e.reply| ==> !e.reply[k].isNak
    else
      && qp < |start|
      && var epsn := Expected(start[qp], log, qp);
      && e.verdict == (if e.meta.psn == epsn then New
                       else if Ahead(start[qp], e.meta.psn) < Ahead(start[qp], epsn) then Duplicate
                       else Invalid)
      && e.reply == (if e.verdict.Invalid? && Armed(log, qp) then [AckEvent(qp, epsn, true, true)]
                     else if e.verdict.Duplicate? && IsWriteOrPart(e.meta.op) then [AckEvent(qp, 0, false, false)]
                     else [])
  }

  /** A response on qp that was taken as new, and is no negative acknowledgement. */
  predicate AcceptedResponse(e: Event, qp: nat)
  {
    e.meta.dest_qp == qp && IsResponse(e.meta.op) && e.verdict.New? && !e.emeta.isNak
  }

  /** The oldest number that is not acknowledged: where the packets of the last accepted response end. */
  function ExpectedResponse(start: PSN, log: seq<Event>, qp: nat): PSN
  {
    if log == [] then start
    else
      var e := log[|log| - 1];
      if AcceptedResponse(e, qp) then Advance(e.meta.psn, e.emeta.numPkg)
      else ExpectedResponse(start, log[..|log| - 1], qp)
  }

  /**
   * What the packets before a response make of it. An acknowledgement is new exactly if its number was sent and is not
   * acknowledged yet, and any number passes when all are.
   */
  ghost predicate JustifiedResponse(start: seq<PSN>, log: seq<Event>, e: Event)
  {
    var qp := e.meta.dest_qp;
    IsResponse(e.meta.op) ==>
      && qp < |start| && e.next.Some?
      && var epsn, next := ExpectedResponse(start[qp], log, qp), e.next.value;
         e.verdict == if e.meta.psn == epsn then New
                      else if e.meta.op.Ack? && (next == epsn || Ahead(epsn, e.meta.psn) < Ahead(epsn, next)) then New
                      else if Ahead(start[qp], e.meta.psn) < Ahead(start[qp], epsn) then Duplicate
                      else Invalid
  }

  ghost predicate GenuineResponses(start: seq<PSN>, log: seq<Event>)
  {
    || log == []
    || (GenuineResponses(start, log[..|log| - 1]) && JustifiedResponse(start, log[..|log| - 1], log[|log| - 1]))
  }

  /** All acknowledgements of a history. */
  function Replies(log: seq<Event>): seq<AckEvent>
  {
    if log == [] then [] else Replies(log[..|log| - 1]) + log[|log| - 1].reply
  }

  type Packet = (IbhMeta, ExhMeta)

  /** The packets of a history. */
  function Packets(log: seq<Event>): seq<Packet>
  {
    if log == [] then []
    else Packets(log[..|log| - 1]) + [(log[|log| - 1].meta, log[|log| - 1].emeta)]
  }

  lemma PacketsNext(log: seq<Event>, e: Event)
    ensures Packets(log + [e]) == Packets(log) + [(e.meta, e.emeta)]
  {
    assert (log + [e])[..|log|] == log;
  }

  /** The two parts of packets. */
  function Paired(a: seq<IbhMeta>, b: seq<ExhMeta>): (r: seq<Packet>)
    requires |a| == |b|
    ensures |r| == |a| && forall k :: 0 <= k < |r| ==> r[k] == (a[k], b[k])
  {
    seq(|a|, k requires 0 <= k < |a| => (a[k], b[k]))
  }

  lemma PairedFirst(a: seq<IbhMeta>, b: seq<ExhMeta>)
    requires |a| == |b| > 0
    ensures Paired(a, b) == [(a[0], b[0])] + Paired(a[1..], b[1..])
  {
  }

  lemma PairedLast(a: seq<IbhMeta>, b: seq<ExhMeta>, m: IbhMeta, x: ExhMeta)
    requires |a| == |b|
    ensures Paired(a + [m], b + [x]) == Paired(a, b) + [(m, x)]
  {
  }

  ghost predicate Genuine(start: seq<PSN>, log: seq<Event>)
  {
    log == [] || (Genuine(start, log[..|log| - 1]) && Justified(start, log[..|log| - 1], log[|log| - 1]))
  }

  /** How a packet is treated, given the reply of the state table. */
  ghost predicate Handled(meta: IbhMeta, emeta: ExhMeta, verdict: Verdict, reply: seq<AckEvent>,
                          update: seq<RxStateReq>, qpState: RxStateRsp)
  {
    var isResponse := IsResponse(meta.op);
    var nak := verdict.Invalid? && !meta.op.Ack? && qpState.retryCounter == 7;
    && verdict == Classify(meta.op, meta.psn, qpState.epsn, qpState.oldest, qpState.max_forward)
    && reply == (if nak then [AckEvent(meta.dest_qp, if isResponse then meta.psn else qpState.epsn, true, true)]
                 else if verdict.Duplicate? && IsWriteOrPart(meta.op) then [AckEvent(meta.dest_qp, 0, false, false)]
                 else [])
    && update == (if verdict.New? && !emeta.isNak
                  then [Write(meta.dest_qp, Advance(meta.psn, emeta.numPkg), 7, isResponse)]
                  else if verdict.Invalid? && !meta.op.Ack?
                  then [Write(meta.dest_qp, qpState.epsn, if nak then 6 else qpState.retryCounter, isResponse)]
                  else [])
  }

  /** Packets whose payload waits for the decision whether it is dropped. */
  predicate HasPayload(op: OpCode)
  {
    !op.Ack? && !IsReadRequest(op)
  }

  predicate PassesOn(e: Event)
  {
    e.verdict.New? || (e.verdict.Duplicate? && IsReadRequest(e.meta.op))
  }

  predicate OnlyAcknowledged(e: Event)
  {
    e.verdict.Duplicate? && IsWriteOrPart(e.meta.op)
  }

  /** The headers that go on to rx_exh_fsm. */
  function PassedOn(log: seq<Event>): seq<IbhMeta>
  {
    if log == [] then []
    else
      var e := log[|log| - 1];
      PassedOn(log[..|log| - 1]) + (if PassesOn(e) then [e.meta] else [])
  }

  /** The decisions on the packets' headers: one for each. */
  function Policies(log: seq<Event>): (r: seq<FwdPolicy>)
    ensures |r| == |log|
  {
    if log == [] then []
    else
      var e := log[|log| - 1];
      Policies(log[..|log| - 1]) + [FwdPolicy(!PassesOn(e) && !OnlyAcknowledged(e), OnlyAcknowledged(e))]
  }

  /** The decisions on the packets' payloads, as the source makes them. */
  function Drops(log: seq<Event>): seq<bool>
  {
    if log == [] then []
    else
      var e := log[|log| - 1];
      Drops(log[..|log| - 1])
      + (if e.meta.op.Ack? || (IsReadRequest(e.meta.op) && e.verdict.New?) then [] else [!PassesOn(e)])
  }

  /** The count of dropped packets leaves out duplicate responses. */
  function Dropped(log: seq<Event>): nat
  {
    if log == [] then 0
    else
      var e := log[|log| - 1];
      Dropped(log[..|log| - 1]) + (if e.verdict.Invalid? || OnlyAcknowledged(e) then 1 else 0)
  }

  lemma SendsNext(log: seq<Event>, e: Event)
    ensures PassedOn(log + [e]) == PassedOn(log) + (if PassesOn(e) then [e.meta] else [])
    ensures Policies(log + [e]) ==
            Policies(log) + [FwdPolicy(!PassesOn(e) && !OnlyAcknowledged(e), OnlyAcknowledged(e))]
    ensures Drops(log + [e]) ==
            Drops(log)
            + (if e.meta.op.Ack? || (IsReadRequest(e.meta.op) && e.verdict.New?) then [] else [!PassesOn(e)])
    ensures Dropped(log + [e]) == Dropped(log) + (if e.verdict.Invalid? || OnlyAcknowledged(e) then 1 else 0)
  {
    assert (log + [e])[..|log|] == log;
  }

  // ---------------------------------------------------------------- the two processes

  /** What state_table answers. */
  function View(entry: StateTableEntry, isResponse: bool): RxStateRsp
  {
    if isResponse
    then RxStateRsp(entry.req_old_unack, entry.req_old_valid, (entry.req_next_psn - 1) % PSNS, 0)
    else RxStateRsp(entry.resp_epsn, entry.resp_old_outstanding, entry.resp_epsn, entry.retryCounter)
  }

  /** The send side may have gone on since the answer: then next is older than the entry's number. */
  predicate AnswersResponse(answer: RxStateRsp, entry: StateTableEntry, next: PSN)
  {
    && answer.epsn == entry.req_old_unack && answer.oldest == entry.req_old_valid && answer.retryCounter == 0
    && answer.max_forward == (next - 1) % PSNS
  }

  /**
   * An acknowledgement, judged with the answer from an entry: as long as something is outstanding, it is new exactly if
   * its number is one of those from the oldest unacknowledged one up to the one before the next request.
   */
  lemma AckOfEntry(entry: StateTableEntry, psn: PSN)
    requires entry.req_old_unack != entry.req_next_psn
    ensures var answer := View(entry, true);
            Classify(Ack, psn, answer.epsn, answer.oldest, answer.max_forward).New?
            <==> Ahead(entry.req_old_unack, psn) < Ahead(entry.req_old_unack, entry.req_next_psn)
  {
    AckExact(entry.req_old_unack, entry.req_next_psn);
    AheadIs(entry.req_old_unack, entry.req_next_psn);
  }

  /** With nothing outstanding, every acknowledgement is new. */
  lemma AckOfIdleEntry(entry: StateTableEntry, psn: PSN)
    requires entry.req_old_unack == entry.req_next_psn
    ensures var answer := View(entry, true);
            Classify(Ack, psn, answer.epsn, answer.oldest, answer.max_forward).New?
  {
    NothingOutstanding(psn, entry.req_old_unack);
  }

  /** Numbers from the first to the last. */
  ghost predicate LeadsTo(numbers: seq<PSN>, first: PSN, last: PSN)
  {
    numbers != [] && numbers[0] == first && numbers[|numbers| - 1] == last
  }

  ghost predicate IsReached(reached: seq<seq<PSN>>, qp: nat, psn: PSN)
  {
    qp < |reached| && psn in reached[qp]
  }

  /** Every response was judged by a number that the send side of its queue pair had. */
  ghost predicate NextsReached(reached: seq<seq<PSN>>, log: seq<Event>)
  {
    forall k :: 0 <= k < |log| && IsResponse(log[k].meta.op) ==>
      log[k].next.Some? && IsReached(reached, log[k].meta.dest_qp, log[k].next.value)
  }

  lemma ReachedMore(reached: seq<seq<PSN>>, log: seq<Event>, qp: nat, first: PSN, last: PSN, psn: PSN)
    requires qp < |reached| && LeadsTo(reached[qp], first, last) && NextsReached(reached, log)
    ensures var numbers := reached[qp] + [psn];
            LeadsTo(numbers, first, psn) && NextsReached(reached[qp := numbers], log)
    ensures forall q: nat, x: PSN :: IsReached(reached, q, x) ==> IsReached(reached[qp := reached[qp] + [psn]], q, x)
  {
  }

  lemma JudgedMore(reached: seq<seq<PSN>>, log: seq<Event>, e: Event)
    requires NextsReached(reached, log)
    requires IsResponse(e.meta.op) ==> e.next.Some? && IsReached(reached, e.meta.dest_qp, e.next.value)
    ensures NextsReached(reached, log + [e])
  {
    hide IsReached, IsResponse;
  }

  lemma LastIsReached(reached: seq<seq<PSN>>, qp: nat, first: PSN, last: PSN)
    requires qp < |reached| && LeadsTo(reached[qp], first, last)
    ensures IsReached(reached, qp, last)
  {
  }

  class Receiver {
    // rx_ibh_fsm
    var processing: bool
    var meta: IbhMeta
    var emeta: ExhMeta
    var isResponse: bool
    var droppedPackets: nat
    // state_table
    const table: array<StateTableEntry>
    // FIFOs between them, into them and out of them
    var updReq: seq<RxStateReq>
    var rsp: seq<RxStateRsp>
    var metaIn: seq<IbhMeta>
    var exhMetaIn: seq<ExhMeta>
    var txReq: seq<TxStateReq>
    var txRsp: seq<StateTableEntry>
    var metaOut: seq<IbhMeta>
    var events: seq<AckEvent>
    var dropFifo: seq<bool>
    var dropMetaFifo: seq<FwdPolicy>
    // what happened since the queue pairs were set up with these numbers
    ghost const start: seq<PSN>
    ghost const reqStart: seq<PSN>
    ghost var log: seq<Event>
    ghost var arrived: seq<Packet>
    // the numbers of the next request that every queue pair has had, and the one that the last answer names
    ghost var reached: seq<seq<PSN>>
    ghost var answered: PSN

    /** Every packet that arrived is judged once, in the order of arrival: the others are still waiting. */
    ghost predicate InOrder()
      reads this`metaIn, this`exhMetaIn, this`arrived, this`log, this`processing, this`meta, this`emeta
    {
      && |metaIn| == |exhMetaIn|
      && arrived == Packets(log) + (if processing then [(meta, emeta)] else [])
                    + Paired(metaIn, exhMetaIn)
    }

    /** What the table holds once the pending update is carried out. */
    ghost function Effective(qp: nat): (PSN, nat)
      requires qp < table.Length
      reads this`updReq, table
    {
      if updReq != [] && updReq[0].Write? && !updReq[0].isResponse && updReq[0].qpn == qp
      then (updReq[0].epsn, updReq[0].retryCounter)
      else (table[qp].resp_epsn, table[qp].retryCounter)
    }


    ghost function EffectiveUnack(qp: nat): PSN
      requires qp < table.Length
      reads this`updReq, table
    {
      if updReq != [] && updReq[0].Write? && updReq[0].isResponse && updReq[0].qpn == qp
      then updReq[0].epsn
      else table[qp].req_old_unack
    }

    /** The send side starts with the number of the setup, and responses were judged by numbers of its own. */
    ghost predicate ReachedOk()
      reads this`reached, this`log, table
    {
      && |reached| == |reqStart| == table.Length && NextsReached(reached, log)
      && forall qp :: 0 <= qp < table.Length ==> LeadsTo(reached[qp], reqStart[qp], table[qp].req_next_psn)
    }

    /** The table agrees with what came back on requests. */
    ghost predicate RequesterOk()
      reads this`updReq, this`log, table
    {
      && |reqStart| == table.Length && GenuineResponses(reqStart, log)
      && forall qp :: 0 <= qp < table.Length ==>
           EffectiveUnack(qp) == ExpectedResponse(reqStart[qp], log, qp) && table[qp].req_old_valid == reqStart[qp]
    }

    /** At most one update and one question are under way, in this order, or one answer. */
    ghost predicate FifosOk()
      reads this`updReq, this`rsp, this`metaIn, this`txReq, this`processing, this`meta, this`isResponse, this`reached,
            this`answered, table
    {
      && (forall k :: 0 <= k < |updReq| ==> updReq[k].qpn < table.Length)
      && (forall k :: 0 <= k < |metaIn| ==> metaIn[k].dest_qp < table.Length)
      && (forall k :: 0 <= k < |txReq| ==> txReq[k].qpn < table.Length)
      && if !processing then rsp == [] && (updReq == [] || (|updReq| == 1 && updReq[0].Write?))
         else
           && meta.dest_qp < table.Length && isResponse == IsResponse(meta.op)
           && var read := Read(meta.dest_qp, isResponse);
              || (rsp == [] && (updReq == [read] || (|updReq| == 2 && updReq[0].Write? && updReq[1] == read)))
              || (updReq == [] && |rsp| == 1
                  && (isResponse ==> AnswersResponse(rsp[0], table[meta.dest_qp], answered))
                  && (isResponse ==> IsReached(reached, meta.dest_qp, answered))
                  && (!isResponse ==> rsp[0] == View(table[meta.dest_qp], false)))
    }

    /** What went to the later stages is what a history says. */
    ghost predicate SentFor(history: seq<Event>)
      reads this`metaOut, this`dropMetaFifo, this`dropFifo, this`droppedPackets
    {
      && metaOut == PassedOn(history) && dropMetaFifo == Policies(history) && dropFifo == Drops(history)
      && droppedPackets == Dropped(history) % 0x1_0000_0000
    }

    /** The table agrees with the requests of the other side. */
    ghost predicate ResponderOk()
      reads this`updReq, this`log, table
    {
      && |start| == table.Length && Genuine(start, log)
      && forall qp :: 0 <= qp < table.Length ==>
           && Effective(qp) == (Expected(start[qp], log, qp), if Armed(log, qp) then 7 else 6)
           && table[qp].resp_old_outstanding == start[qp]
    }

    /** The table agrees with the history of every queue pair. */
    ghost predicate Valid()
      reads this, table
    {
      && FifosOk() && events == Replies(log) && InOrder() && SentFor(log) && ResponderOk() && RequesterOk()
      && ReachedOk()
    }

    /** All queue pairs are set up; a retry counter of 0xF does not fit three bits. */
    constructor (localPsn: seq<PSN>, remotePsn: seq<PSN>)
      requires |localPsn| == |remotePsn|
      ensures Valid() && log == [] && start == localPsn && reqStart == remotePsn && fresh(table)
      ensures metaIn == [] && exhMetaIn == [] && events == []
    {
      table := new StateTableEntry[|localPsn|](i requires 0 <= i < |localPsn| == |remotePsn| =>
        StateTableEntry(localPsn[i], localPsn[i], remotePsn[i], remotePsn[i], remotePsn[i], 0xF % 8));
      processing, isResponse, droppedPackets := false, false, 0;
      meta, emeta := IbhMeta(Ack, 0, 0), ExhMeta(false, 0);
      updReq, rsp, metaIn, exhMetaIn, txReq, txRsp := [], [], [], [], [], [];
      metaOut, events, dropFifo, dropMetaFifo := [], [], [], [];
      start, reqStart, log, arrived := localPsn, remotePsn, [], [];
      reached, answered := seq(|remotePsn|, i requires 0 <= i < |remotePsn| => [remotePsn[i]]), 0;
    }

    /** One step of state_table. Requests from the receive side come first. */
    method StateTable()
      requires Valid()
      modifies this`updReq, this`rsp, this`txReq, this`txRsp, this`reached, this`answered, table
      ensures Valid()
      ensures if old(updReq) != [] then
                && txReq == old(txReq) && txRsp == old(txRsp) && reached == old(reached)
                && ReceiverServed(old(updReq), old(rsp), old(table[..]))
              else
                && updReq == [] && rsp == old(rsp) && answered == old(answered)
                && if old(txReq) != [] then SenderServed(old(txReq), old(txRsp), old(table[..]), old(reached))
                   else txReq == [] && txRsp == old(txRsp) && table[..] == old(table[..]) && reached == old(reached)
    {
      hide Genuine, GenuineResponses, Expected, ExpectedResponse, Armed, Replies, Packets, SentFor, InOrder, LeadsTo,
           NextsReached, IsReached;
      if updReq != [] {
        ServeReceiver();
      } else if txReq != [] {
        ServeSender();
      }
    }

    /** The first request of the receive side is answered, or has changed its entry. */
    ghost predicate ReceiverServed(requests: seq<RxStateReq>, answers: seq<RxStateRsp>, entries: seq<StateTableEntry>)
      requires requests != []
      reads this, table
    {
      && updReq == requests[1..] && requests[0].qpn < table.Length == |entries|
      && match requests[0]
         case Write(qpn, epsn, retryCounter, isRsp) =>
           var entry := entries[qpn];
           && rsp == answers
           && table[..] == entries[qpn := if isRsp then entry.(req_old_unack := epsn)
                                          else entry.(resp_epsn := epsn, retryCounter := retryCounter)]
         case Read(qpn, isRsp) =>
           var entry := entries[qpn];
           && table[..] == entries && answered == entry.req_next_psn
           && rsp == answers + [if isRsp
                                then RxStateRsp(entry.req_old_unack, entry.req_old_valid,
                                                (entry.req_next_psn - 1) % 0x100_0000, 0)
                                else RxStateRsp(entry.resp_epsn, entry.resp_old_outstanding, entry.resp_epsn,
                                                entry.retryCounter)]
    }

    /** The same for the send side, which numbers its packets with req_next_psn. */
    ghost predicate SenderServed(requests: seq<TxStateReq>, answers: seq<StateTableEntry>,
                                 entries: seq<StateTableEntry>, numbers: seq<seq<PSN>>)
      requires requests != []
      reads this, table
    {
      && txReq == requests[1..] && requests[0].qpn < table.Length == |entries| == |numbers|
      && match requests[0]
         case TxWrite(qpn, psn) =>
           && txRsp == answers && table[..] == entries[qpn := entries[qpn].(req_next_psn := psn)]
           && reached == numbers[qpn := numbers[qpn] + [psn]]
         case TxRead(qpn) => txRsp == answers + [entries[qpn]] && table[..] == entries && reached == numbers
    }

    method ServeReceiver()
      requires Valid() && updReq != []
      modifies this`updReq, this`rsp, this`answered, table
      ensures Valid() && ReceiverServed(old(updReq), old(rsp), old(table[..]))
    {
      hide Valid, ReceiverServed;
      if updReq[0].Write? {
        ApplyUpdate();
      } else {
        AnswerQuestion();
      }
    }

    method ApplyUpdate()
      requires Valid() && updReq != [] && updReq[0].Write?
      modifies this`updReq, table
      ensures Valid() && ReceiverServed(old(updReq), old(rsp), old(table[..]))
    {
      hide Genuine, GenuineResponses, Expected, ExpectedResponse, Armed, Replies, Packets, SentFor, InOrder, LeadsTo,
           NextsReached, IsReached;
      var rxRequest := updReq[0];
      updReq := updReq[1..];
      var qpn := rxRequest.qpn;
      if rxRequest.isResponse {
        table[qpn] := table[qpn].(req_old_unack := rxRequest.epsn);
      } else {
        table[qpn] := table[qpn].(resp_epsn := rxRequest.epsn, retryCounter := rxRequest.retryCounter);
      }
    }

    method AnswerQuestion()
      requires Valid() && updReq != [] && updReq[0].Read?
      modifies this`updReq, this`rsp, this`answered
      ensures Valid() && ReceiverServed(old(updReq), old(rsp), old(table[..]))
    {
      hide Genuine, GenuineResponses, Expected, ExpectedResponse, Armed, Replies, Packets, SentFor, InOrder, LeadsTo,
           NextsReached, IsReached;
      var rxRequest := updReq[0];
      updReq := updReq[1..];
      var qpn, isRsp := rxRequest.qpn, rxRequest.isResponse;
      LastIsReached(reached, qpn, reqStart[qpn], table[qpn].req_next_psn);
      rsp := rsp + [View(table[qpn], isRsp)];
      answered := table[qpn].req_next_psn;
    }

    method ServeSender()
      requires Valid() && updReq == [] && txReq != []
      modifies this`txReq, this`txRsp, this`reached, table
      ensures Valid() && SenderServed(old(txReq), old(txRsp), old(table[..]), old(reached))
    {
      hide Valid, SenderServed;
      if txReq[0].TxWrite? {
        MoveNumber();
      } else {
        TellSender();
      }
    }

    method MoveNumber()
      requires Valid() && updReq == [] && txReq != [] && txReq[0].TxWrite?
      modifies this`txReq, this`reached, table
      ensures Valid() && SenderServed(old(txReq), old(txRsp), old(table[..]), old(reached))
    {
      hide Genuine, GenuineResponses, Expected, ExpectedResponse, Armed, Replies, Packets, SentFor, InOrder, LeadsTo,
           NextsReached, IsReached;
      var qpn, psn := txReq[0].qpn, txReq[0].psn;
      txReq := txReq[1..];
      ReachedMore(reached, log, qpn, reqStart[qpn], table[qpn].req_next_psn, psn);
      table[qpn] := table[qpn].(req_next_psn := psn);
      reached := reached[qpn := reached[qpn] + [psn]];
    }

    method TellSender()
      requires Valid() && updReq == [] && txReq != [] && txReq[0].TxRead?
      modifies this`txReq, this`txRsp
      ensures Valid() && SenderServed(old(txReq), old(txRsp), old(table[..]), old(reached))
    {
      hide Genuine, GenuineResponses, Expected, ExpectedResponse, Armed, Replies, Packets, SentFor, InOrder, LeadsTo,
           NextsReached, IsReached, ResponderOk, RequesterOk;
      var qpn := txReq[0].qpn;
      txReq := txReq[1..];
      txRsp := txRsp + [table[qpn]];
    }

    /** One step of rx_ibh_fsm. It processes at most one packet. */
    method RxIbhFsm()
      requires Valid()
      modifies this
      ensures Valid() && txReq == old(txReq) && reached == old(reached)
      ensures old(log) <= log && |log| <= |old(log)| + 1 && arrived == old(arrived)
      ensures if old(processing) && old(rsp) != [] then
                !processing && |log| == |old(log)| + 1 && metaIn == old(metaIn)
              else if !old(processing) && old(metaIn) != [] then
                processing && log == old(log) && metaIn == old(metaIn)[1..]
              else processing == old(processing) && log == old(log) && metaIn == old(metaIn)
    {
      hide Genuine, GenuineResponses, Expected, ExpectedResponse, Armed, Replies, Packets, SentFor, LeadsTo,
           NextsReached, IsReached;

      if !processing {
        if metaIn != [] && exhMetaIn != [] {
          Load();
        }
      } else if rsp != [] {
        Process();
      }
    }

    method Load()
      requires Valid() && !processing && metaIn != [] && exhMetaIn != []
      modifies this`meta, this`metaIn, this`emeta, this`exhMetaIn, this`isResponse, this`updReq, this`processing
      ensures Valid() && log == old(log) && txReq == old(txReq) && arrived == old(arrived)
      ensures processing && metaIn == old(metaIn)[1..]
    {
      hide Genuine, GenuineResponses, Expected, ExpectedResponse, Armed, Replies, Packets, SentFor, InOrder, LeadsTo,
           NextsReached, IsReached;
      NextPacket();
      isResponse := IsResponse(meta.op);
      updReq := updReq + [Read(meta.dest_qp, isResponse)];
    }

    method NextPacket()
      requires InOrder() && !processing && metaIn != [] && exhMetaIn != []
      modifies this`meta, this`metaIn, this`emeta, this`exhMetaIn, this`processing
      ensures InOrder() && processing && meta == old(metaIn)[0] && metaIn == old(metaIn)[1..]
    {
      hide Packets, Paired;
      PairedFirst(metaIn, exhMetaIn);
      meta, metaIn := metaIn[0], metaIn[1..];
      emeta, exhMetaIn := exhMetaIn[0], exhMetaIn[1..];
      processing := true;
    }

    /** Acts on a verdict: what becomes of the packet, its acknowledgement, and the update of the state table. */
    method Handle(qpState: RxStateRsp, ghost next: Option<PSN>)
      returns (verdict: Verdict, reply: seq<AckEvent>, update: seq<RxStateReq>)
      modifies this`dropFifo, this`dropMetaFifo, this`metaOut, this`droppedPackets
      requires isResponse == IsResponse(meta.op) && SentFor(log)
      ensures Handled(meta, emeta, verdict, reply, update, qpState)
      ensures SentFor(log + [Event(meta, emeta, verdict, reply, next)])
    {
      OneRole(meta.op);
      hide PassedOn, Policies, Drops, Dropped, IsWriteOrPart, IsReadRequest, IsResponse;
      reply, update := [], [];
      verdict := Classify(meta.op, meta.psn, qpState.epsn, qpState.oldest, qpState.max_forward);
      hide Classify;
      if verdict.New? {
        if !meta.op.Ack? && !IsReadRequest(meta.op) {
          dropFifo := dropFifo + [false];
        }
        dropMetaFifo := dropMetaFifo + [FwdPolicy(false, false)];
        metaOut := metaOut + [meta];
        if !emeta.isNak {
          update := [Write(meta.dest_qp, Advance(meta.psn, emeta.numPkg), 7, isResponse)];
        }
      } else if verdict.Duplicate? {
        if IsReadRequest(meta.op) {
          dropFifo := dropFifo + [false];
          dropMetaFifo := dropMetaFifo + [FwdPolicy(false, false)];
          metaOut := metaOut + [meta];
        } else if IsWriteOrPart(meta.op) {
          reply := [AckEvent(meta.dest_qp, 0, false, false)];
          droppedPackets := (droppedPackets + 1) % 0x1_0000_0000;
          dropFifo := dropFifo + [true];
          dropMetaFifo := dropMetaFifo + [FwdPolicy(false, true)];
        } else {
          if !meta.op.Ack? {
            dropFifo := dropFifo + [true];
          }
          dropMetaFifo := dropMetaFifo + [FwdPolicy(true, false)];
        }
      } else {
        droppedPackets := (droppedPackets + 1) % 0x1_0000_0000;
        dropMetaFifo := dropMetaFifo + [FwdPolicy(true, false)];
        if !meta.op.Ack? {
          dropFifo := dropFifo + [true];
          var retryCounter := qpState.retryCounter;
          if retryCounter == 7 {
            reply := [AckEvent(meta.dest_qp, if isResponse then meta.psn else qpState.epsn, true, true)];
            retryCounter := retryCounter - 1;
          }
          update := [Write(meta.dest_qp, qpState.epsn, retryCounter, isResponse)];
        }
      }
      SendsNext(log, Event(meta, emeta, verdict, reply, next));
    }

    lemma OneRole(op: OpCode)
      ensures IsReadRequest(op) ==> !IsWriteOrPart(op) && !op.Ack?
      ensures IsWriteOrPart(op) ==> !op.Ack?
      ensures op.Ack? ==> IsResponse(op)
    {
    }

    method Process()
      requires Valid() && processing && rsp != []
      modifies this
      ensures Valid() && txReq == old(txReq) && arrived == old(arrived) && reached == old(reached)
      ensures |log| == |old(log)| + 1 && old(log) <= log && !processing && metaIn == old(metaIn)
      ensures isResponse ==> log[|old(log)|].next == Some(old(answered))
    {
      hide Genuine, GenuineResponses, Expected, ExpectedResponse, Armed, Classify, Packets, Replies, IsWriteOrPart,
           IsReadRequest, Advance, SentFor, LeadsTo, NextsReached, IsReached;
      hide Effective, EffectiveUnack, ResponderOk, RequesterOk, ReachedOk;
      var qpState := rsp[0];
      rsp := rsp[1..];
      ghost var next := if isResponse then Some(answered) else None;
      var verdict, reply, update := Handle(qpState, next);
      Commit(Event(meta, emeta, verdict, reply, next), reply, update, qpState);
    }

    /** The packet is done: its update is on the way, its acknowledgement is out. */
    method Commit(ghost e: Event, reply: seq<AckEvent>, update: seq<RxStateReq>, ghost qpState: RxStateRsp)
      requires meta.dest_qp < table.Length && updReq == [] && rsp == [] && isResponse == IsResponse(meta.op)
      requires forall k :: 0 <= k < |metaIn| ==> metaIn[k].dest_qp < table.Length
      requires forall k :: 0 <= k < |txReq| ==> txReq[k].qpn < table.Length
      requires events == Replies(log) && ResponderOk() && RequesterOk() && ReachedOk() && processing && InOrder()
      requires e.meta == meta && e.emeta == emeta && e.reply == reply && SentFor(log + [e])
      requires isResponse ==> e.next == Some(answered) && IsReached(reached, meta.dest_qp, answered)
      requires if isResponse then AnswersResponse(qpState, table[meta.dest_qp], answered)
               else qpState == View(table[meta.dest_qp], false)
      requires Handled(meta, emeta, e.verdict, e.reply, update, qpState)
      modifies this`updReq, this`events, this`processing, this`log
      ensures Valid() && log == old(log) + [e] && !processing
    {
      hide Genuine, GenuineResponses, Expected, ExpectedResponse, Armed, Classify, Replies, IsWriteOrPart,
           IsReadRequest, Advance, IsResponse, SentFor, InOrder, LeadsTo, NextsReached, IsReached;
      ghost var qp := meta.dest_qp;
      assert Effective(qp) == (table[qp].resp_epsn, table[qp].retryCounter);
      assert EffectiveUnack(qp) == table[qp].req_old_unack;
      LogNext(start, log, e, update, qpState);
      ResponseNext(reqStart, log, e, update, qpState);
      hide Handled, View, AnswersResponse;
      JudgedMore(reached, log, e);
      Close(e, reply, update);
    }

    method Close(ghost e: Event, reply: seq<AckEvent>, update: seq<RxStateReq>)
      requires meta.dest_qp < table.Length && updReq == [] && rsp == []
      requires forall k :: 0 <= k < |metaIn| ==> metaIn[k].dest_qp < table.Length
      requires forall k :: 0 <= k < |txReq| ==> txReq[k].qpn < table.Length
      requires events == Replies(log) && ResponderOk() && RequesterOk() && ReachedOk() && processing && InOrder()
      requires e.meta == meta && e.emeta == emeta && e.reply == reply && SentFor(log + [e])
      requires NextsReached(reached, log + [e])
      requires Genuine(start, log + [e]) && Replies(log + [e]) == Replies(log) + e.reply
      requires GenuineResponses(reqStart, log + [e])
      requires |update| <= 1 && (update != [] ==> update[0].Write? && update[0].qpn == meta.dest_qp)
      requires forall qp :: 0 <= qp < |start| ==>
                 if update != [] && !update[0].isResponse && update[0].qpn == qp then
                   Expected(start[qp], log + [e], qp) == update[0].epsn
                   && update[0].retryCounter == if Armed(log + [e], qp) then 7 else 6
                 else
                   Expected(start[qp], log + [e], qp) == Expected(start[qp], log, qp)
                   && Armed(log + [e], qp) == Armed(log, qp)
      requires forall qp :: 0 <= qp < |reqStart| ==>
                 ExpectedResponse(reqStart[qp], log + [e], qp) ==
                 if update != [] && update[0].isResponse && update[0].qpn == qp then update[0].epsn
                 else ExpectedResponse(reqStart[qp], log, qp)
      modifies this`updReq, this`events, this`processing, this`log
      ensures Valid() && log == old(log) + [e] && !processing
    {
      hide Genuine, GenuineResponses, Expected, ExpectedResponse, Armed, Replies, SentFor, InOrder, LeadsTo,
           NextsReached;
      updReq := updReq + update;
      events := events + reply;
      Judged(e);
    }

    /** The packet at hand becomes history. */
    method Judged(ghost e: Event)
      requires InOrder() && processing && e.meta == meta && e.emeta == emeta
      modifies this`processing, this`log
      ensures InOrder() && !processing && log == old(log) + [e]
    {
      hide Packets, Paired;
      PacketsNext(log, e);
      processing := false;
      log := log + [e];
    }

    /** Any schedule: packets arrive, senders ask, and the two processes take steps, in any order. */
    method Run(schedule: seq<Act>)
      requires Valid()
      requires forall k :: 0 <= k < |schedule| ==> schedule[k].InRange(table.Length)
      modifies this, table
      ensures Valid() && old(log) <= log && old(arrived) <= arrived
    {
      hide Valid;
      for i := 0 to |schedule|
        invariant Valid() && old(log) <= log && old(arrived) <= arrived
      {
        match schedule[i] {
          case Arrive(m, x) => PacketIn(m, x);
          case Send(request) => SendIn(request);
          case RxIbhFsmStep => RxIbhFsm();
          case StateTableStep => StateTable();
        }
      }
    }

    /** Nothing gets stuck: when no packet arrives any more, all that have arrived are judged. */
    method Settle()
      requires Valid()
      modifies this, table
      ensures Valid() && old(log) <= log && arrived == old(arrived) == Packets(log)
      ensures !processing && metaIn == []
    {
      hide Genuine, GenuineResponses, Expected, ExpectedResponse, Armed, Replies, Packets, SentFor, LeadsTo,
           NextsReached, IsReached;
      while processing || metaIn != []
        invariant Valid() && old(log) <= log && arrived == old(arrived)
        decreases |metaIn|, if processing then 1 else 0, |updReq|
      {
        if updReq != [] {
          StateTable();
        } else {
          RxIbhFsm();
        }
      }
      assert arrived == Packets(log) + [] + Paired(metaIn, exhMetaIn);
    }

    method PacketIn(m: IbhMeta, x: ExhMeta)
      requires Valid() && m.dest_qp < table.Length
      modifies this`metaIn, this`exhMetaIn, this`arrived
      ensures Valid() && arrived == old(arrived) + [(m, x)] && log == old(log)
    {
      hide Genuine, GenuineResponses, Expected, ExpectedResponse, Armed, Replies, Packets, SentFor, Paired, LeadsTo,
           NextsReached, IsReached;
      PairedLast(metaIn, exhMetaIn, m, x);
      metaIn, exhMetaIn := metaIn + [m], exhMetaIn + [x];
      arrived := arrived + [(m, x)];
    }

    method SendIn(request: TxStateReq)
      requires Valid() && request.qpn < table.Length
      modifies this`txReq
      ensures Valid() && txReq == old(txReq) + [request]
    {
      hide Genuine, GenuineResponses, Expected, ExpectedResponse, Armed, Replies, Packets, SentFor, LeadsTo,
           NextsReached, IsReached;
      txReq := txReq + [request];
    }
  }

  datatype Act = Arrive(m: IbhMeta, x: ExhMeta) | Send(request: TxStateReq) | RxIbhFsmStep | StateTableStep
  {
    predicate InRange(n: nat)
    {
      match this
      case Arrive(m, _) => m.dest_qp < n
      case Send(request) => request.qpn < n
      case _ => true
    }
  }

  /** The reply of the state table is right, so the packet is treated as the history demands. */
  lemma LogNext(start: seq<PSN>, log: seq<Event>, e: Event, update: seq<RxStateReq>, qpState: RxStateRsp)
    requires Genuine(start, log) && e.meta.dest_qp < |start|
    requires Handled(e.meta, e.emeta, e.verdict, e.reply, update, qpState)
    requires var qp := e.meta.dest_qp;
             if IsResponse(e.meta.op) then qpState.retryCounter == 0
             else qpState == RxStateRsp(Expected(start[qp], log, qp), start[qp], Expected(start[qp], log, qp),
                                        if Armed(log, qp) then 7 else 6)
    ensures Genuine(start, log + [e]) && Replies(log + [e]) == Replies(log) + e.reply
    ensures |update| <= 1 && (update != [] ==> update[0].Write? && update[0].qpn == e.meta.dest_qp
                                               && update[0].isResponse == IsResponse(e.meta.op))
    ensures forall qp :: 0 <= qp < |start| ==>
              if update != [] && !update[0].isResponse && update[0].qpn == qp then
                Expected(start[qp], log + [e], qp) == update[0].epsn
                && update[0].retryCounter == if Armed(log + [e], qp) then 7 else 6
              else
                Expected(start[qp], log + [e], qp) == Expected(start[qp], log, qp)
                && Armed(log + [e], qp) == Armed(log, qp)
  {
    assert (log + [e])[..|log|] == log;
    if !IsResponse(e.meta.op) {
      RequestVerdict(e.meta.op, e.meta.psn, qpState.epsn, qpState.oldest, qpState.max_forward);
    }
  }

  /** The same for responses. */
  lemma ResponseNext(start: seq<PSN>, log: seq<Event>, e: Event, update: seq<RxStateReq>, qpState: RxStateRsp)
    requires GenuineResponses(start, log) && e.meta.dest_qp < |start|
    requires Handled(e.meta, e.emeta, e.verdict, e.reply, update, qpState)
    requires var qp := e.meta.dest_qp;
             IsResponse(e.meta.op) ==>
               && qpState.epsn == ExpectedResponse(start[qp], log, qp) && qpState.oldest == start[qp]
               && qpState.retryCounter == 0 && e.next.Some? && qpState.max_forward == (e.next.value - 1) % PSNS
    ensures GenuineResponses(start, log + [e])
    ensures forall qp :: 0 <= qp < |start| ==>
              ExpectedResponse(start[qp], log + [e], qp) ==
              if update != [] && update[0].Write? && update[0].isResponse && update[0].qpn == qp then update[0].epsn
              else ExpectedResponse(start[qp], log, qp)
  {
    assert (log + [e])[..|log|] == log;
    if IsResponse(e.meta.op) {
      ResponseVerdict(e.meta.op, e.meta.psn, qpState.epsn, qpState.oldest, e.next.value);
      hide Classify, Advance, Ahead;
    }
  }

  lemma ResponseVerdict(op: OpCode, psn: PSN, epsn: PSN, oldest: PSN, next: PSN)
    ensures Classify(op, psn, epsn, oldest, (next - 1) % PSNS) ==
            if psn == epsn then New
            else if op.Ack? && (next == epsn || Ahead(epsn, psn) < Ahead(epsn, next)) then New
            else if Ahead(oldest, psn) < Ahead(oldest, epsn) then Duplicate
            else Invalid
  {
    DuplicateWindow(psn, epsn, oldest);
    if next == epsn {
      NothingOutstanding(psn, epsn);
    } else {
      AckExact(epsn, next);
    }
    hide AckInWindow, InDuplicateWindow, Ahead;
  }

  // ---------------------------------------------------------------- what histories promise

  lemma {:induction false} EventJustified(start: seq<PSN>, log: seq<Event>, k: nat)
    requires Genuine(start, log) && k < |log|
    ensures Justified(start, log[..k], log[k])
  {
    hide Justified;
    var n := |log| - 1;
    if k < n {
      EventJustified(start, log[..n], k);
      assert log[..n][..k] == log[..k];
    }
  }

  /** The number of packets that the accepted requests stand for. */
  function Total(log: seq<Event>, qp: nat): nat
  {
    if log == [] then 0
    else Total(log[..|log| - 1], qp) + (if Accepted(log[|log| - 1], qp) then log[|log| - 1].emeta.numPkg else 0)
  }

  lemma {:induction false} LastAccepted(start: PSN, log: seq<Event>, qp: nat, i: nat)
    requires i < |log| && Accepted(log[i], qp) && forall k :: i < k < |log| ==> !Accepted(log[k], qp)
    ensures Expected(start, log, qp) == Advance(log[i].meta.psn, log[i].emeta.numPkg)
  {
    if i < |log| - 1 {
      LastAccepted(start, log[..|log| - 1], qp, i);
    }
  }

  lemma {:induction false} NoneAccepted(start: PSN, log: seq<Event>, qp: nat)
    requires forall k :: 0 <= k < |log| ==> !Accepted(log[k], qp)
    ensures Expected(start, log, qp) == start
  {
    if log != [] {
      NoneAccepted(start, log[..|log| - 1], qp);
    }
  }

  /** Accepted requests follow each other without a gap; the first one has the number of the setup. */
  lemma GaplessChain(start: seq<PSN>, log: seq<Event>, qp: nat, j: nat)
    requires Genuine(start, log) && j < |log| && Accepted(log[j], qp)
    ensures qp < |start|
    ensures (forall k :: 0 <= k < j ==> !Accepted(log[k], qp)) ==> log[j].meta.psn == start[qp]
    ensures forall i :: 0 <= i < j && Accepted(log[i], qp) && (forall k :: i < k < j ==> !Accepted(log[k], qp)) ==>
              log[j].meta.psn == Advance(log[i].meta.psn, log[i].emeta.numPkg)
  {
    EventJustified(start, log, j);
    if forall k :: 0 <= k < j ==> !Accepted(log[k], qp) {
      NoneAccepted(start[qp], log[..j], qp);
    }
    forall i | 0 <= i < j && Accepted(log[i], qp) && (forall k :: i < k < j ==> !Accepted(log[k], qp))
      ensures log[j].meta.psn == Advance(log[i].meta.psn, log[i].emeta.numPkg)
    {
      LastAccepted(start[qp], log[..j], qp, i);
    }
  }

  /** Between a rejected request and a state that is armed again, a request was accepted. */
  lemma {:induction false} AcceptedSince(log: seq<Event>, qp: nat, i: nat) returns (k: nat)
    requires i < |log| && Rejected(log[i], qp) && Armed(log, qp)
    ensures i < k < |log| && Accepted(log[k], qp)
  {
    var n := |log| - 1;
    if Accepted(log[n], qp) {
      k := n;
    } else {
      k := AcceptedSince(log[..n], qp, i);
    }
  }

  lemma NakIsRejection(start: seq<PSN>, log: seq<Event>, qp: nat, i: nat)
    requires Genuine(start, log) && i < |log| && SentNak(log[i], qp)
    ensures Rejected(log[i], qp) && Armed(log[..i], qp)
  {
    EventJustified(start, log, i);
  }

  /** Between two negative acknowledgements of a queue pair, a request is accepted. */
  lemma OneNakBetweenAccepted(start: seq<PSN>, log: seq<Event>, qp: nat, i: nat, j: nat) returns (k: nat)
    requires Genuine(start, log) && i < j < |log| && SentNak(log[i], qp) && SentNak(log[j], qp)
    ensures i < k < j && Accepted(log[k], qp)
  {
    NakIsRejection(start, log, qp, i);
    NakIsRejection(start, log, qp, j);
    k := AcceptedSince(log[..j], qp, i);
  }

  /** And none is missing: a rejected request is answered, by itself or by an earlier one since the last accepted. */
  lemma {:induction false} RejectionIsAnswered(start: seq<PSN>, log: seq<Event>, qp: nat, j: nat) returns (i: nat)
    requires Genuine(start, log) && j < |log| && Rejected(log[j], qp)
    ensures i <= j && SentNak(log[i], qp) && forall k :: i < k <= j ==> !Accepted(log[k], qp)
    decreases j
  {
    EventJustified(start, log, j);
    if Armed(log[..j], qp) {
      i := j;
      assert log[j].reply[0].isNak;
    } else {
      var m := RejectedBefore(log[..j], qp);
      i := RejectionIsAnswered(start, log, qp, m);
    }
  }

  lemma {:induction false} RejectedBefore(log: seq<Event>, qp: nat) returns (m: nat)
    requires !Armed(log, qp)
    ensures m < |log| && Rejected(log[m], qp) && forall k :: m < k < |log| ==> !Accepted(log[k], qp)
  {
    var n := |log| - 1;
    if Rejected(log[n], qp) {
      m := n;
    } else {
      m := RejectedBefore(log[..n], qp);
    }
  }

  /** What becomes of a packet: its header, its acknowledgement, the decision on its header, and the count. */
  lemma Fate(start: seq<PSN>, log: seq<Event>, k: nat)
    requires Genuine(start, log) && k < |log| && !IsResponse(log[k].meta.op)
    ensures log[k].meta.dest_qp < |start|
    ensures var e, qp := log[k], log[k].meta.dest_qp;
            var before, here := log[..k], log[..k + 1];
            && (e.verdict.New? ==>
                  && e.reply == [] && PassedOn(here) == PassedOn(before) + [e.meta]
                  && Policies(here) == Policies(before) + [FwdPolicy(false, false)] && Dropped(here) == Dropped(before))
            && (e.verdict.Duplicate? && IsReadRequest(e.meta.op) ==>
                  && e.reply == [] && PassedOn(here) == PassedOn(before) + [e.meta]
                  && Policies(here) == Policies(before) + [FwdPolicy(false, false)] && Dropped(here) == Dropped(before))
            && (e.verdict.Duplicate? && IsWriteOrPart(e.meta.op) ==>
                  && e.reply == [AckEvent(qp, 0, false, false)] && PassedOn(here) == PassedOn(before)
                  && Policies(here) == Policies(before) + [FwdPolicy(false, true)]
                  && Dropped(here) == Dropped(before) + 1)
            && (e.verdict.Invalid? ==>
                  && e.reply == (if Armed(before, qp) then [AckEvent(qp, Expected(start[qp], before, qp), true, true)]
                                 else [])
                  && PassedOn(here) == PassedOn(before)
                  && Policies(here) == Policies(before) + [FwdPolicy(true, false)]
                  && Dropped(here) == Dropped(before) + 1)
  {
    var e, before, here := log[k], log[..k], log[..k + 1];
    EventJustified(start, log, k);
    assert here == before + [e];
    SendsNext(before, e);
    hide PassedOn, Policies, Dropped, Genuine, Expected, Armed, Ahead, Drops, IsResponse;
  }

  /** The number that a negative acknowledgement names is the one behind the last accepted request. */
  lemma NakNames(start: seq<PSN>, log: seq<Event>, qp: nat, j: nat, i: nat)
    requires Genuine(start, log) && i < j < |log| && SentNak(log[j], qp) && Accepted(log[i], qp)
    requires forall k :: i < k < j ==> !Accepted(log[k], qp)
    ensures log[j].reply == [AckEvent(qp, Advance(log[i].meta.psn, log[i].emeta.numPkg), true, true)]
  {
    EventJustified(start, log, j);
    NakIsRejection(start, log, qp, j);
    LastAccepted(start[qp], log[..j], qp, i);
  }

  lemma {:induction false} ResponseJustified(start: seq<PSN>, log: seq<Event>, k: nat)
    requires GenuineResponses(start, log) && k < |log|
    ensures JustifiedResponse(start, log[..k], log[k])
  {
    hide JustifiedResponse;
    var n := |log| - 1;
    if k < n {
      ResponseJustified(start, log[..n], k);
      assert log[..n][..k] == log[..k];
    }
  }

  /**
   * An acknowledgement in a history is new exactly if its number was sent and is not acknowledged yet, as long as there
   * is such a number; it then acknowledges everything up to it, whether or not it names the oldest one.
   */
  lemma AckExactInHistory(start: seq<PSN>, log: seq<Event>, k: nat)
    requires GenuineResponses(start, log) && k < |log| && log[k].meta.op.Ack?
    ensures log[k].meta.dest_qp < |start| && log[k].next.Some?
    ensures var e, qp := log[k], log[k].meta.dest_qp;
            var oldest, next := ExpectedResponse(start[qp], log[..k], qp), e.next.value;
            && (next != oldest ==> (e.verdict.New? <==> Ahead(oldest, e.meta.psn) < Ahead(oldest, next)))
            && (next == oldest ==> e.verdict.New?)
            && ExpectedResponse(start[qp], log[..k + 1], qp)
               == if e.verdict.New? && !e.emeta.isNak then Advance(e.meta.psn, e.emeta.numPkg) else oldest
  {
    ResponseJustified(start, log, k);
    assert log[..k + 1][..k] == log[..k];
    var qp := log[k].meta.dest_qp;
    AheadIs(ExpectedResponse(start[qp], log[..k], qp), log[k].next.value);
    hide GenuineResponses;
  }

  // ---------------------------------------------------------------- decisions on payloads

  /** One decision for each packet with a payload, in order: it is dropped unless the packet is passed on. */
  function PayloadDecisions(log: seq<Event>): seq<bool>
  {
    if log == [] then []
    else
      var e := log[|log| - 1];
      PayloadDecisions(log[..|log| - 1]) + (if HasPayload(e.meta.op) then [!PassesOn(e)] else [])
  }

  function RepeatedReads(log: seq<Event>): nat
  {
    if log == [] then 0
    else
      var e := log[|log| - 1];
      RepeatedReads(log[..|log| - 1]) + (if IsReadRequest(e.meta.op) && !e.verdict.New? then 1 else 0)
  }

  lemma {:induction false} DecisionCount(log: seq<Event>)
    ensures |Drops(log)| == |PayloadDecisions(log)| + RepeatedReads(log)
    ensures RepeatedReads(log) == 0 ==> Drops(log) == PayloadDecisions(log)
    ensures RepeatedReads(log) == 0
            <==> forall k :: 0 <= k < |log| && IsReadRequest(log[k].meta.op) ==> log[k].verdict.New?
  {
    if log != [] {
      DecisionCount(log[..|log| - 1]);
    }
  }

  /**
   * The decisions match the payloads exactly as long as every read request is new: any other one leaves behind a
   * decision that the payload of a later packet then gets.
   */
  lemma DecisionsMatch(log: seq<Event>)
    ensures Drops(log) == PayloadDecisions(log) <==>
            forall k :: 0 <= k < |log| && IsReadRequest(log[k].meta.op) ==> log[k].verdict.New?
  {
    DecisionCount(log);
  }

  /**
   * From every history in which the decisions still match, a read request with any number but the expected one, and
   * then the expected write: the write is accepted, and its payload gets the decision that the read left. Its payload
   * is dropped, although it is accepted, exactly if the read's number lies outside the window of duplicates.
   */
  lemma ReadTakesTurn(start: seq<PSN>, log: seq<Event>, qp: nat, read: IbhMeta, x: ExhMeta, write: IbhMeta, y: ExhMeta)
    returns (e: Event, w: Event)
    requires Genuine(start, log) && qp < |start| && Drops(log) == PayloadDecisions(log)
    requires IsReadRequest(read.op) && read.dest_qp == qp && read.psn != Expected(start[qp], log, qp)
    requires IsWriteOrPart(write.op) && write.dest_qp == qp && write.psn == Expected(start[qp], log, qp)
    ensures e.meta == read && e.emeta == x && w.meta == write && w.emeta == y && w.reply == []
    ensures e.next == w.next == None
    ensures e.reply == if e.verdict.Invalid? && Armed(log, qp)
                       then [AckEvent(qp, Expected(start[qp], log, qp), true, true)]
                       else []
    ensures Genuine(start, log + [e] + [w]) && !e.verdict.New? && w.verdict.New?
    ensures e.verdict.Invalid? <==> Ahead(start[qp], read.psn) >= Ahead(start[qp], Expected(start[qp], log, qp))
    ensures PayloadDecisions(log + [e] + [w]) == PayloadDecisions(log) + [false]
    ensures Drops(log + [e] + [w]) == PayloadDecisions(log) + [e.verdict.Invalid?] + [false]
  {
    e := UnexpectedRead(start, log, qp, read, x);
    w := Event(write, y, New, [], None);
    ExpectedWrite(start, log + [e], qp, w);
  }

  lemma UnexpectedRead(start: seq<PSN>, log: seq<Event>, qp: nat, read: IbhMeta, x: ExhMeta) returns (e: Event)
    requires Genuine(start, log) && qp < |start|
    requires IsReadRequest(read.op) && read.dest_qp == qp && read.psn != Expected(start[qp], log, qp)
    ensures e.meta == read && e.emeta == x && e.next == None && Genuine(start, log + [e]) && !e.verdict.New?
    ensures e.reply == if e.verdict.Invalid? && Armed(log, qp)
                       then [AckEvent(qp, Expected(start[qp], log, qp), true, true)]
                       else []
    ensures e.verdict.Invalid? <==> Ahead(start[qp], read.psn) >= Ahead(start[qp], Expected(start[qp], log, qp))
    ensures Expected(start[qp], log + [e], qp) == Expected(start[qp], log, qp)
    ensures PayloadDecisions(log + [e]) == PayloadDecisions(log)
    ensures Drops(log + [e]) == Drops(log) + [e.verdict.Invalid?]
  {
    hide Genuine, Drops, PayloadDecisions, Expected, Armed, Ahead;
    var epsn := Expected(start[qp], log, qp);
    var inside := Ahead(start[qp], read.psn) < Ahead(start[qp], epsn);
    e := Event(read, x, if inside then Duplicate else Invalid,
               if !inside && Armed(log, qp) then [AckEvent(qp, epsn, true, true)] else [], None);
    HistoryMore(start, log, e, qp);
  }

  lemma ExpectedWrite(start: seq<PSN>, log: seq<Event>, qp: nat, w: Event)
    requires Genuine(start, log) && qp < |start| && IsWriteOrPart(w.meta.op) && w.meta.dest_qp == qp
    requires w.meta.psn == Expected(start[qp], log, qp) && w.verdict.New? && w.reply == []
    ensures Genuine(start, log + [w])
    ensures PayloadDecisions(log + [w]) == PayloadDecisions(log) + [false] && Drops(log + [w]) == Drops(log) + [false]
  {
    hide Genuine, Drops, PayloadDecisions, Expected, Armed, Ahead;
    HistoryMore(start, log, w, qp);
  }

  lemma HistoryMore(start: seq<PSN>, log: seq<Event>, e: Event, qp: nat)
    requires Genuine(start, log) && Justified(start, log, e) && qp < |start|
    ensures Genuine(start, log + [e])
    ensures !e.verdict.New? ==> Expected(start[qp], log + [e], qp) == Expected(start[qp], log, qp)
    ensures PayloadDecisions(log + [e])
            == PayloadDecisions(log) + (if HasPayload(e.meta.op) then [!PassesOn(e)] else [])
    ensures Drops(log + [e]) ==
            Drops(log)
            + (if e.meta.op.Ack? || (IsReadRequest(e.meta.op) && e.verdict.New?) then [] else [!PassesOn(e)])
  {
    assert (log + [e])[..|log|] == log;
  }

  /** A case of it: a read, the same read again, and a write. */
  lemma RepeatedReadMisleads(start: seq<PSN>, qp: nat, read: IbhMeta, x: ExhMeta, write: IbhMeta, y: ExhMeta)
    requires qp < |start| && read.op.ReadRequest? && write.op.WriteOnly? && read.dest_qp == qp == write.dest_qp
    requires read.psn == start[qp] && 0 < x.numPkg < PSNS && !x.isNak && write.psn == Advance(read.psn, x.numPkg)
    ensures var log := [Event(read, x, New, [], None)] + [Event(read, x, Duplicate, [], None)]
                       + [Event(write, y, New, [], None)];
            && Genuine(start, log) && PayloadDecisions(log) == [false] && Drops(log) == [false, false]
  {
    var first := Event(read, x, New, [], None);
    FirstRead(start, qp, first);
    AdvanceIs(read.psn, x.numPkg);
    hide Genuine, Expected, Ahead, Advance, Drops, PayloadDecisions, Armed;
    var e, w := ReadTakesTurn(start, [first], qp, read, x, write, y);
    assert e == Event(read, x, Duplicate, [], None) && w == Event(write, y, New, [], None);
  }

  lemma FirstRead(start: seq<PSN>, qp: nat, e: Event)
    requires qp < |start| && IsReadRequest(e.meta.op) && e.meta.dest_qp == qp && e.meta.psn == start[qp]
    requires e.verdict.New? && e.reply == [] && !e.emeta.isNak
    ensures Genuine(start, [e]) && Expected(start[qp], [e], qp) == Advance(e.meta.psn, e.emeta.numPkg)
    ensures Drops([e]) == [] && PayloadDecisions([e]) == []
  {
    HistoryMore(start, [], e, qp);
    assert [] + [e] == [e] && [e][..0] == [];
  }

  lemma AdvanceIs(psn: PSN, n: nat)
    requires 0 < n < PSNS
    ensures Advance(psn, n) != psn && Ahead(psn, Advance(psn, n)) == n && Ahead(psn, psn) == 0
  {
  }

  /** Another one: a read from the future as the first packet, and a write, which is accepted and loses its payload. */
  lemma AcceptedWriteDropped(start: seq<PSN>, qp: nat, read: IbhMeta, x: ExhMeta, write: IbhMeta, y: ExhMeta)
    requires qp < |start| && read.op.ReadRequest? && write.op.WriteOnly? && read.dest_qp == qp == write.dest_qp
    requires read.psn != start[qp] && write.psn == start[qp]
    ensures var nak := AckEvent(qp, start[qp], true, true);
            var log := [Event(read, x, Invalid, [nak], None), Event(write, y, New, [], None)];
            && Genuine(start, log) && PayloadDecisions(log) == [false] && Drops(log) == [true, false]
  {
    var e, w := ReadTakesTurn(start, [], qp, read, x, write, y);
    hide Genuine;
    assert [] + [e] + [w] == [e, w];
  }

  // ---------------------------------------------------------------- what counts as a duplicate

  /** The number belongs to a packet of an accepted request. */
  ghost predicate Covered(log: seq<Event>, qp: nat, psn: PSN)
  {
    exists i, k: nat :: 0 <= i < |log| && Accepted(log[i], qp) && PacketOf(log[i], k, psn)
  }

  predicate PacketOf(e: Event, k: nat, psn: PSN)
  {
    k < e.emeta.numPkg && psn == Advance(e.meta.psn, k)
  }

  lemma {:induction false} ExpectedIsTotal(start: seq<PSN>, log: seq<Event>, qp: nat)
    requires Genuine(start, log) && qp < |start|
    ensures Expected(start[qp], log, qp) == Advance(start[qp], Total(log, qp))
  {
    if log != [] {
      ExpectedIsTotal(start, log[..|log| - 1], qp);
    }
  }

  /** The accepted packets are numbered on from the number of the setup. */
  lemma {:induction false} CoveredAre(start: seq<PSN>, log: seq<Event>, qp: nat, psn: PSN)
    requires Genuine(start, log) && qp < |start|
    ensures Covered(log, qp, psn) <==> exists m: nat :: m < Total(log, qp) && psn == Advance(start[qp], m)
  {
    if log != [] {
      var n := |log| - 1;
      var front, e := log[..n], log[n];
      CoveredAre(start, front, qp, psn);
      ExpectedIsTotal(start, front, qp);
      CoveredMore(log, qp, psn);
      if Accepted(e, qp) {
        AdvanceIsMore(start[qp], Total(front, qp), e, psn);
      }
    }
  }

  lemma CoveredMore(log: seq<Event>, qp: nat, psn: PSN)
    requires log != []
    ensures var n := |log| - 1;
            Covered(log, qp, psn) <==>
            Covered(log[..n], qp, psn) || (Accepted(log[n], qp) && exists k: nat :: PacketOf(log[n], k, psn))
  {
    var n := |log| - 1;
    if Covered(log, qp, psn) {
      var i, k: nat :| 0 <= i < |log| && Accepted(log[i], qp) && PacketOf(log[i], k, psn);
      assert i < n ==> log[..n][i] == log[i];
    }
    if Covered(log[..n], qp, psn) {
      var i, k: nat :| 0 <= i < n && Accepted(log[..n][i], qp) && PacketOf(log[..n][i], k, psn);
      assert log[i] == log[..n][i];
    }
  }

  lemma AdvanceIsMore(start: PSN, total: nat, e: Event, psn: PSN)
    requires e.meta.psn == Advance(start, total)
    ensures (exists m: nat :: m < total + e.emeta.numPkg && psn == Advance(start, m)) <==>
            (exists m: nat :: m < total && psn == Advance(start, m)) || (exists k: nat :: PacketOf(e, k, psn))
  {
    forall k: nat
      ensures Advance(e.meta.psn, k) == Advance(start, total + k)
    {
      AdvanceTwice(start, total, k);
    }
    if m: nat :| m < total + e.emeta.numPkg && psn == Advance(start, m) {
      if m >= total {
        assert PacketOf(e, m - total, psn);
      }
    }
  }

  /**
   * The window of duplicates starts at the number of the setup and never moves. It holds exactly the numbers of
   * accepted packets, for every number but the expected one, if and only if fewer than 2^24 packets were accepted, or
   * one less than a multiple of that.
   */
  lemma DuplicatesExact(start: seq<PSN>, log: seq<Event>, qp: nat)
    requires Genuine(start, log) && qp < |start|
    ensures var total := Total(log, qp);
            (forall psn: PSN :: psn != Expected(start[qp], log, qp) ==>
               (Ahead(start[qp], psn) < Ahead(start[qp], Expected(start[qp], log, qp)) <==> Covered(log, qp, psn)))
            <==> (total < PSNS || total % PSNS == PSNS - 1)
  {
    var total, first := Total(log, qp), start[qp];
    ExpectedIsTotal(start, log, qp);
    forall psn: PSN
      ensures Covered(log, qp, psn) <==> Ahead(first, psn) < total
    {
      CoveredAre(start, log, qp, psn);
      WithinTotal(first, psn, total);
    }
    hide Covered, Genuine, Total, Ahead, Advance;
    WindowExact(first, total);
  }

  /** So, until then, a request with another number than the expected one is a duplicate exactly if it was accepted. */
  lemma DuplicateWasAccepted(start: seq<PSN>, log: seq<Event>, k: nat)
    requires Genuine(start, log) && k < |log| && !IsResponse(log[k].meta.op)
    ensures log[k].meta.dest_qp < |start|
    ensures var e, qp := log[k], log[k].meta.dest_qp;
            Total(log[..k], qp) < 0x100_0000 && !e.verdict.New? ==>
              (e.verdict.Duplicate? <==> Covered(log[..k], qp, e.meta.psn))
  {
    EventJustified(start, log, k);
    GenuinePrefix(start, log, k);
    DuplicatesExact(start, log[..k], log[k].meta.dest_qp);
    hide Covered, Genuine, Total, Expected, Armed, Ahead;
  }

  lemma {:induction false} GenuinePrefix(start: seq<PSN>, log: seq<Event>, k: nat)
    requires Genuine(start, log) && k <= |log|
    ensures Genuine(start, log[..k])
  {
    var n := |log| - 1;
    if k <= n {
      GenuinePrefix(start, log[..n], k);
      assert log[..n][..k] == log[..k];
    } else {
      assert log[..k] == log;
    }
  }

  /** When the numbers have gone round once, every number has been used, and the window holds none of them. */
  lemma WindowEmpty(start: seq<PSN>, log: seq<Event>, qp: nat, psn: PSN)
    requires Genuine(start, log) && qp < |start| && Total(log, qp) == PSNS
    ensures Covered(log, qp, psn) && !(Ahead(start[qp], psn) < Ahead(start[qp], Expected(start[qp], log, qp)))
  {
    CoveredAre(start, log, qp, psn);
    WithinTotal(start[qp], psn, PSNS);
    ExpectedIsTotal(start, log, qp);
    AheadOfStart(start[qp], PSNS);
  }

  /** Histories with any number of accepted packets exist: writes of one packet, one after the other. */
  lemma {:induction false} ManyWrites(start: seq<PSN>, qp: nat, n: nat) returns (log: seq<Event>)
    requires qp < |start|
    ensures Genuine(start, log) && Total(log, qp) == n
  {
    if n == 0 {
      log := [];
    } else {
      var before := ManyWrites(start, qp, n - 1);
      var e := Event(IbhMeta(WriteOnly, qp, Expected(start[qp], before, qp)), ExhMeta(false, 1), New, [],
                     None);
      assert Justified(start, before, e);
      hide Genuine, Justified, Expected;
      HistoryMore(start, before, e, qp);
      log := before + [e];
      assert log[..|log| - 1] == before;
    }
  }

  /** So the window does become empty. */
  lemma WindowBecomesEmpty(start: seq<PSN>, qp: nat, psn: PSN) returns (log: seq<Event>)
    requires qp < |start|
    ensures Genuine(start, log) && Total(log, qp) == PSNS
    ensures Covered(log, qp, psn) && !(Ahead(start[qp], psn) < Ahead(start[qp], Expected(start[qp], log, qp)))
  {
    hide *;
    log := ManyWrites(start, qp, PSNS);
    WindowEmpty(start, log, qp, psn);
  }

  lemma WindowExact(first: PSN, total: nat)
    ensures var last := Advance(first, total);
            (forall psn: PSN :: psn != last ==> (Ahead(first, psn) < Ahead(first, last) <==> Ahead(first, psn) < total))
            <==> (total < PSNS || total % PSNS == PSNS - 1)
  {
    var last := Advance(first, total);
    AheadOfStart(first, total);
    if total >= PSNS {
      if total % PSNS != PSNS - 1 {
        var psn := Advance(first, total % PSNS + 1);
        AheadOfStart(first, total % PSNS + 1);
        assert psn != last && Ahead(first, psn) < total;
      } else {
        forall psn: PSN | psn != last
          ensures Ahead(first, psn) < Ahead(first, last)
        {
          assert Advance(first, Ahead(first, psn)) == psn && Advance(first, Ahead(first, last)) == last;
        }
      }
    }
  }

  lemma AheadOfStart(first: PSN, n: nat)
    ensures Ahead(first, Advance(first, n)) == n % PSNS
  {
  }

  lemma WithinTotal(first: PSN, psn: PSN, total: nat)
    ensures (exists m: nat :: m < total && psn == Advance(first, m)) <==> Ahead(first, psn) < total
  {
    if m: nat :| m < total && psn == Advance(first, m) {
      AheadOfStart(first, m);
      assert m % PSNS <= m;
    }
  }
}

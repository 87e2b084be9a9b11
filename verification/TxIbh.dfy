/**
 * The send side of reliable transport: meta_merger brings acknowledgements, read responses and local requests together,
 * generate_ibh gives each packet its number, which for requests comes from state_table. Every schedule is possible.
 */
module TxIbh {
  import opened Psn
  import opened RxIbh
  import LocalReq
  import ReadResponse

  /** What meta_merger takes from its three inputs. */
  datatype Item =
    | AckItem(ack: AckEvent)
    | ReadItem(response: ReadResponse.RespEvent)
    | LocalItem(event: LocalReq.TxEvent)

  /** What generate_ibh gets to know of a packet. */
  datatype TxMeta = TxMeta(op: OpCode, dest_qp: nat, psn: PSN, validPsn: bool, numPkg: nat)

  /** The header that leaves: qp is the local queue pair. */
  datatype Bth = Bth(op: OpCode, qp: nat, psn: PSN, ackReq: bool)

  function MetaOf(item: Item, pmtu: nat): TxMeta
    requires 0 < pmtu
  {
    match item
    case AckItem(a) => TxMeta(Ack, a.qpn, a.psn, a.validPsn, 1)
    case ReadItem(r) => TxMeta(r.op, r.qpn, r.psn, true, 1)
    case LocalItem(e) =>
      TxMeta(e.op, e.qpn, 0, false, if IsReadRequest(e.op) then ReadResponse.NumPkg(e.length, pmtu) else 1)
  }

  function QueueOf(item: Item): nat
  {
    match item
    case AckItem(a) => a.qpn
    case ReadItem(r) => r.qpn
    case LocalItem(e) => e.qpn
  }

  /** Local events are requests. */
  predicate IsRequest(e: LocalReq.TxEvent)
  {
    IsWriteOrPart(e.op) || IsReadRequest(e.op)
  }

  // ---------------------------------------------------------------- numbers

  predicate IsNumbered(m: TxMeta, qp: nat)
  {
    m.dest_qp == qp && !m.validPsn && !m.op.Ack?
  }

  /** The number of the next request: each request takes as many numbers as it has packets. */
  function NextPsn(start: PSN, ms: seq<TxMeta>, qp: nat): PSN
  {
    if ms == [] then start
    else
      var n := |ms| - 1;
      var before := NextPsn(start, ms[..n], qp);
      if IsNumbered(ms[n], qp) then Advance(before, ms[n].numPkg) else before
  }

  /**
   * The header of a packet after others. An acknowledgement without a number gets one that depends on the receive side.
   */
  predicate HeaderIs(h: Bth, start: PSN, before: seq<TxMeta>, m: TxMeta)
  {
    && h.op == m.op && h.qp == m.dest_qp && h.ackReq == (!m.validPsn && !m.op.Ack?)
    && (m.validPsn ==> h.psn == m.psn)
    && (IsNumbered(m, m.dest_qp) ==> h.psn == NextPsn(start, before, m.dest_qp))
  }

  ghost predicate AllHeaders(hs: seq<Bth>, start: seq<PSN>, ms: seq<TxMeta>)
  {
    |hs| == |ms|
    && forall k :: 0 <= k < |ms| ==> ms[k].dest_qp < |start| && HeaderIs(hs[k], start[ms[k].dest_qp], ms[..k], ms[k])
  }

  lemma NextPsnMore(start: PSN, ms: seq<TxMeta>, m: TxMeta, qp: nat)
    ensures NextPsn(start, ms + [m], qp) ==
            if IsNumbered(m, qp) then Advance(NextPsn(start, ms, qp), m.numPkg) else NextPsn(start, ms, qp)
  {
    assert (ms + [m])[..|ms|] == ms;
  }

  lemma HeaderMore(hs: seq<Bth>, start: seq<PSN>, ms: seq<TxMeta>, h: Bth, m: TxMeta)
    requires AllHeaders(hs, start, ms) && m.dest_qp < |start| && HeaderIs(h, start[m.dest_qp], ms, m)
    ensures AllHeaders(hs + [h], start, ms + [m])
  {
    hide HeaderIs;
    var all := ms + [m];
    forall k | 0 <= k < |all|
      ensures all[k].dest_qp < |start| && HeaderIs((hs + [h])[k], start[all[k].dest_qp], all[..k], all[k])
    {
      if k < |ms| {
        assert all[..k] == ms[..k];
      } else {
        assert all[..k] == ms;
      }
    }
  }

  // ---------------------------------------------------------------- the inputs, each in its order

  function AcksOf(items: seq<Item>): seq<AckEvent>
  {
    if items == [] then []
    else
      var n := |items| - 1;
      AcksOf(items[..n]) + (if items[n].AckItem? then [items[n].ack] else [])
  }

  function ReadsOf(items: seq<Item>): seq<ReadResponse.RespEvent>
  {
    if items == [] then []
    else
      var n := |items| - 1;
      ReadsOf(items[..n]) + (if items[n].ReadItem? then [items[n].response] else [])
  }

  function LocalsOf(items: seq<Item>): seq<LocalReq.TxEvent>
  {
    if items == [] then []
    else
      var n := |items| - 1;
      LocalsOf(items[..n]) + (if items[n].LocalItem? then [items[n].event] else [])
  }

  function MetasOf(items: seq<Item>, pmtu: nat): (r: seq<TxMeta>)
    requires 0 < pmtu
    ensures |r| == |items| && forall k :: 0 <= k < |r| ==> r[k] == MetaOf(items[k], pmtu)
  {
    seq(|items|, k requires 0 <= k < |items| => MetaOf(items[k], pmtu))
  }

  lemma ItemMore(items: seq<Item>, item: Item, pmtu: nat)
    requires 0 < pmtu
    ensures AcksOf(items + [item]) == AcksOf(items) + (if item.AckItem? then [item.ack] else [])
    ensures ReadsOf(items + [item]) == ReadsOf(items) + (if item.ReadItem? then [item.response] else [])
    ensures LocalsOf(items + [item]) == LocalsOf(items) + (if item.LocalItem? then [item.event] else [])
    ensures MetasOf(items + [item], pmtu) == MetasOf(items, pmtu) + [MetaOf(item, pmtu)]
  {
    assert (items + [item])[..|items|] == items;
  }

  // ---------------------------------------------------------------- what the headers say

  /** How many numbers a local event takes: one for a packet of a write, and one per packet of an answer, in 22 bits. */
  function Takes(e: LocalReq.TxEvent, pmtu: nat): nat
    requires 0 < pmtu
  {
    if IsReadRequest(e.op) then (e.length + (pmtu - 1)) / pmtu % 0x40_0000 else 1
  }

  /** How many numbers the local events of a queue pair take. */
  function Numbers(events: seq<LocalReq.TxEvent>, qp: nat, pmtu: nat): nat
    requires 0 < pmtu
  {
    if events == [] then 0
    else
      var e := events[|events| - 1];
      var before := Numbers(events[..|events| - 1], qp, pmtu);
      if e.qpn == qp then before + Takes(e, pmtu) else before
  }

  ghost predicate LocalsAreRequests(items: seq<Item>)
  {
    forall k :: 0 <= k < |items| && items[k].LocalItem? ==> IsRequest(items[k].event)
  }

  lemma {:induction false} NextIsNumbers(start: PSN, items: seq<Item>, qp: nat, pmtu: nat)
    requires 0 < pmtu && LocalsAreRequests(items)
    ensures NextPsn(start, MetasOf(items, pmtu), qp) == Advance(start, Numbers(LocalsOf(items), qp, pmtu))
    decreases |items|
  {
    hide Advance, MetasOf, NextPsn, LocalsOf, Numbers, Takes, MetaOf, IsNumbered, IsRequest;
    if items == [] {
      NoNumbers(start, qp, pmtu);
    } else {
      var n := |items| - 1;
      var front, item := items[..n], items[n];
      assert items == front + [item];
      NextIsNumbers(start, front, qp, pmtu);
      ItemMore(front, item, pmtu);
      NextPsnMore(start, MetasOf(front, pmtu), MetaOf(item, pmtu), qp);
      NumberedItem(item, qp, pmtu);
      if item.LocalItem? {
        NumbersMore(LocalsOf(front), item.event, qp, pmtu);
        AdvanceTwice(start, Numbers(LocalsOf(front), qp, pmtu), Takes(item.event, pmtu));
      } else {
        assert LocalsOf(front) + [] == LocalsOf(front);
      }
    }
  }

  lemma NoNumbers(start: PSN, qp: nat, pmtu: nat)
    requires 0 < pmtu
    ensures NextPsn(start, MetasOf([], pmtu), qp) == Advance(start, Numbers(LocalsOf([]), qp, pmtu))
  {
    AdvanceNone(start);
  }

  lemma NumberedItem(item: Item, qp: nat, pmtu: nat)
    requires 0 < pmtu && (item.LocalItem? ==> IsRequest(item.event))
    ensures IsNumbered(MetaOf(item, pmtu), qp) <==> item.LocalItem? && item.event.qpn == qp
    ensures item.LocalItem? ==> MetaOf(item, pmtu).numPkg == Takes(item.event, pmtu)
  {
  }

  lemma NumbersMore(events: seq<LocalReq.TxEvent>, e: LocalReq.TxEvent, qp: nat, pmtu: nat)
    requires 0 < pmtu
    ensures Numbers(events + [e], qp, pmtu) == Numbers(events, qp, pmtu)
                                                  + (if e.qpn == qp then Takes(e, pmtu) else 0)
  {
    assert (events + [e])[..|events|] == events;
  }

  /**
   * The headers, whatever went before: a local event gets the number of the setup and behind it one for every packet
   * before it, a read response and an acknowledgement with a number get that one.
   */
  lemma HeadersAre(hs: seq<Bth>, start: seq<PSN>, items: seq<Item>, pmtu: nat, k: nat)
    requires 0 < pmtu && LocalsAreRequests(items) && AllHeaders(hs, start, MetasOf(items, pmtu)) && k < |items|
    ensures |hs| == |items| && QueueOf(items[k]) < |start|
    ensures items[k].LocalItem? ==>
              && hs[k].op == items[k].event.op && hs[k].qp == items[k].event.qpn && hs[k].ackReq
              && hs[k].psn
                 == Advance(start[items[k].event.qpn], Numbers(LocalsOf(items[..k]), items[k].event.qpn, pmtu))
    ensures items[k].ReadItem? ==>
              hs[k] == Bth(items[k].response.op, items[k].response.qpn, items[k].response.psn, false)
    ensures items[k].AckItem? && items[k].ack.validPsn ==>
              hs[k] == Bth(Ack, items[k].ack.qpn, items[k].ack.psn, false)
  {
    var ms := MetasOf(items, pmtu);
    assert ms[..k] == MetasOf(items[..k], pmtu);
    assert HeaderIs(hs[k], start[ms[k].dest_qp], ms[..k], ms[k]);
    NextIsNumbers(start[ms[k].dest_qp], items[..k], ms[k].dest_qp, pmtu);
    hide NextPsn, Advance, Numbers, LocalsOf, MetasOf;
  }

  lemma {:induction false} NoneOfQueue(items: seq<Item>, i: nat, j: nat, qp: nat, pmtu: nat)
    requires 0 < pmtu && i <= j <= |items|
    requires forall k :: i <= k < j && items[k].LocalItem? ==> items[k].event.qpn != qp
    ensures Numbers(LocalsOf(items[..j]), qp, pmtu) == Numbers(LocalsOf(items[..i]), qp, pmtu)
    decreases j
  {
    if i < j {
      NoneOfQueue(items, i, j - 1, qp, pmtu);
      assert items[..j] == items[..j - 1] + [items[j - 1]];
      ItemMore(items[..j - 1], items[j - 1], pmtu);
      hide LocalsOf, Numbers;
      if items[j - 1].LocalItem? {
        NumbersMore(LocalsOf(items[..j - 1]), items[j - 1].event, qp, pmtu);
      } else {
        assert LocalsOf(items[..j - 1]) + [] == LocalsOf(items[..j - 1]);
      }
    }
  }

  /** The first request of a queue pair has the number of the setup. */
  lemma FirstRequest(hs: seq<Bth>, start: seq<PSN>, items: seq<Item>, pmtu: nat, j: nat)
    requires 0 < pmtu && LocalsAreRequests(items) && AllHeaders(hs, start, MetasOf(items, pmtu))
    requires j < |items| && items[j].LocalItem?
    requires forall k :: 0 <= k < j && items[k].LocalItem? ==> items[k].event.qpn != items[j].event.qpn
    ensures |hs| == |items| && items[j].event.qpn < |start| && hs[j].psn == start[items[j].event.qpn]
  {
    var qp := items[j].event.qpn;
    HeadersAre(hs, start, items, pmtu, j);
    NoneOfQueue(items, 0, j, qp, pmtu);
    assert items[..0] == [] && LocalsOf([]) == [];
    AdvanceNone(start[qp]);
  }

  /**
   * The next request has the number behind it: one further on behind a packet of a write, and behind a read as many
   * further on as its answer has packets, in 22 bits.
   */
  lemma NextRequest(hs: seq<Bth>, start: seq<PSN>, items: seq<Item>, pmtu: nat, i: nat, j: nat)
    requires 0 < pmtu && LocalsAreRequests(items) && AllHeaders(hs, start, MetasOf(items, pmtu))
    requires i < j < |items| && items[i].LocalItem? && items[j].LocalItem? && items[i].event.qpn == items[j].event.qpn
    requires forall k :: i < k < j && items[k].LocalItem? ==> items[k].event.qpn != items[j].event.qpn
    ensures |hs| == |items|
    ensures var e := items[i].event;
            && hs[i].op == e.op && hs[i].qp == hs[j].qp == e.qpn
            && hs[j].psn
               == Advance(hs[i].psn, if IsReadRequest(e.op) then (e.length + (pmtu - 1)) / pmtu % 0x40_0000 else 1)
  {
    NextTakes(hs, start, items, pmtu, i, j);
    hide Advance, MetasOf, AllHeaders;
  }

  lemma NextTakes(hs: seq<Bth>, start: seq<PSN>, items: seq<Item>, pmtu: nat, i: nat, j: nat)
    requires 0 < pmtu && LocalsAreRequests(items) && AllHeaders(hs, start, MetasOf(items, pmtu))
    requires i < j < |items| && items[i].LocalItem? && items[j].LocalItem? && items[i].event.qpn == items[j].event.qpn
    requires forall k :: i < k < j && items[k].LocalItem? ==> items[k].event.qpn != items[j].event.qpn
    ensures |hs| == |items| && hs[i].op == items[i].event.op && hs[i].qp == hs[j].qp == items[i].event.qpn
    ensures hs[j].psn == Advance(hs[i].psn, Takes(items[i].event, pmtu))
  {
    hide Advance, Numbers, LocalsOf, MetasOf, AllHeaders, Takes;
    var e := items[i].event;
    HeadersAre(hs, start, items, pmtu, i);
    HeadersAre(hs, start, items, pmtu, j);
    NoneOfQueue(items, i + 1, j, e.qpn, pmtu);
    assert items[..i + 1] == items[..i] + [items[i]];
    ItemMore(items[..i], items[i], pmtu);
    NumbersMore(LocalsOf(items[..i]), e, e.qpn, pmtu);
    AdvanceTwice(start[e.qpn], Numbers(LocalsOf(items[..i]), e.qpn, pmtu), Takes(e, pmtu));
  }

  // ---------------------------------------------------------------- the processes

  class Sender {
    const pmtu: nat
    // meta_merger
    var ackIn: seq<AckEvent>
    var readIn: seq<ReadResponse.RespEvent>
    var appIn: seq<LocalReq.TxEvent>
    var exhMeta: seq<Item>
    // generate_ibh
    var ibhMeta: seq<TxMeta>
    var getPsn: bool
    var meta: TxMeta
    var headers: seq<Bth>
    // state_table, as far as the send side sees it
    const table: array<StateTableEntry>
    var txReq: seq<TxStateReq>
    var txRsp: seq<StateTableEntry>
    // the numbers of the setup, what arrived, and the packets that have got a number
    ghost const start: seq<PSN>
    ghost var acks: seq<AckEvent>
    ghost var responses: seq<ReadResponse.RespEvent>
    ghost var requests: seq<LocalReq.TxEvent>
    ghost var done: seq<TxMeta>

    /** Every input goes on in its own order, and to both outputs. */
    ghost predicate Merged()
      reads this`ackIn, this`readIn, this`appIn, this`exhMeta, this`acks, this`responses, this`requests
    {
      && acks == AcksOf(exhMeta) + ackIn && responses == ReadsOf(exhMeta) + readIn
      && requests == LocalsOf(exhMeta) + appIn
      && (forall k :: 0 <= k < |ackIn| ==> ackIn[k].qpn < table.Length)
      && (forall k :: 0 <= k < |readIn| ==> readIn[k].qpn < table.Length)
      && (forall k :: 0 <= k < |appIn| ==> appIn[k].qpn < table.Length && IsRequest(appIn[k]))
      && (forall k :: 0 <= k < |exhMeta| ==> QueueOf(exhMeta[k]) < table.Length) && LocalsAreRequests(exhMeta)
    }

    /** Packets get their headers in the order in which they were merged. */
    ghost predicate InOrder()
      requires 0 < pmtu
      reads this`exhMeta, this`ibhMeta, this`getPsn, this`meta, this`done
    {
      MetasOf(exhMeta, pmtu) == done + (if getPsn then [meta] else []) + ibhMeta
    }

    /** The next number of a queue pair, once the pending update is carried out. */
    ghost function Next(qp: nat): PSN
      requires qp < table.Length
      reads this`txReq, table
    {
      if txReq != [] && txReq[0].TxWrite? && txReq[0].qpn == qp then txReq[0].psn else table[qp].req_next_psn
    }

    /** At most one update and one question are under way, in this order, or one answer. */
    ghost predicate Channel()
      reads this`txReq, this`txRsp, this`getPsn, this`meta, table
    {
      && (forall k :: 0 <= k < |txReq| ==> txReq[k].qpn < table.Length)
      && if !getPsn then txRsp == [] && (txReq == [] || (|txReq| == 1 && txReq[0].TxWrite?))
         else
           && meta.dest_qp < table.Length && !meta.validPsn
           && var read := TxRead(meta.dest_qp);
              || (txRsp == [] && (txReq == [read] || (|txReq| == 2 && txReq[0].TxWrite? && txReq[1] == read)))
              || (txReq == [] && |txRsp| == 1 && txRsp[0].req_next_psn == table[meta.dest_qp].req_next_psn)
    }

    ghost predicate Valid()
      reads this, table
    {
      && 0 < pmtu && |start| == table.Length && Merged() && InOrder() && Channel()
      && AllHeaders(headers, start, done)
      && forall qp :: 0 <= qp < table.Length ==> Next(qp) == NextPsn(start[qp], done, qp)
    }

    /** Requests start at the number that the setup names for the other side. */
    constructor (pmtu: nat, localPsn: seq<PSN>, remotePsn: seq<PSN>)
      requires 0 < pmtu && |localPsn| == |remotePsn|
      ensures Valid() && this.pmtu == pmtu && start == remotePsn && fresh(table)
      ensures done == [] && headers == [] && exhMeta == [] && acks == [] && responses == [] && requests == []
    {
      this.pmtu := pmtu;
      table := new StateTableEntry[|localPsn|](i requires 0 <= i < |localPsn| == |remotePsn| =>
        StateTableEntry(localPsn[i], localPsn[i], remotePsn[i], remotePsn[i], remotePsn[i], 0xF % 8));
      ackIn, readIn, appIn, exhMeta, ibhMeta, headers, txReq, txRsp := [], [], [], [], [], [], [], [];
      getPsn, meta := false, TxMeta(Ack, 0, 0, false, 1);
      start, acks, responses, requests, done := remotePsn, [], [], [], [];
    }

    /** One step of meta_merger: acknowledgements go first, then read responses. */
    method MetaMerger()
      requires Valid()
      modifies this`ackIn, this`readIn, this`appIn, this`exhMeta, this`ibhMeta
      ensures Valid()
      ensures if old(ackIn) != [] then
                && ackIn == old(ackIn)[1..] && readIn == old(readIn) && appIn == old(appIn)
                && exhMeta == old(exhMeta) + [AckItem(old(ackIn)[0])]
              else if old(readIn) != [] then
                && ackIn == [] && readIn == old(readIn)[1..] && appIn == old(appIn)
                && exhMeta == old(exhMeta) + [ReadItem(old(readIn)[0])]
              else if old(appIn) != [] then
                && ackIn == [] && readIn == [] && appIn == old(appIn)[1..]
                && exhMeta == old(exhMeta) + [LocalItem(old(appIn)[0])]
              else ackIn == [] && readIn == [] && appIn == [] && exhMeta == old(exhMeta)
    {
      hide AllHeaders, NextPsn, Next, Channel, AcksOf, ReadsOf, LocalsOf, MetasOf, Merged;
      if ackIn != [] {
        MergeAck();
      } else if readIn != [] {
        MergeRead();
      } else if appIn != [] {
        MergeLocal();
      }
    }

    method MergeAck()
      requires 0 < pmtu && Merged() && InOrder() && ackIn != []
      modifies this`ackIn, this`exhMeta, this`ibhMeta
      ensures Merged() && InOrder() && ackIn == old(ackIn)[1..] && exhMeta == old(exhMeta) + [AckItem(old(ackIn)[0])]
    {
      hide AcksOf, ReadsOf, LocalsOf, MetasOf;
      var aev := ackIn[0];
      ackIn := ackIn[1..];
      Emit(AckItem(aev), TxMeta(Ack, aev.qpn, aev.psn, aev.validPsn, 1));
    }

    method MergeRead()
      requires 0 < pmtu && Merged() && InOrder() && readIn != []
      modifies this`readIn, this`exhMeta, this`ibhMeta
      ensures Merged() && InOrder() && readIn == old(readIn)[1..]
      ensures exhMeta == old(exhMeta) + [ReadItem(old(readIn)[0])]
    {
      hide AcksOf, ReadsOf, LocalsOf, MetasOf;
      var ev := readIn[0];
      readIn := readIn[1..];
      Emit(ReadItem(ev), TxMeta(ev.op, ev.qpn, ev.psn, true, 1));
    }

    method MergeLocal()
      requires 0 < pmtu && Merged() && InOrder() && appIn != []
      modifies this`appIn, this`exhMeta, this`ibhMeta
      ensures Merged() && InOrder() && appIn == old(appIn)[1..] && exhMeta == old(exhMeta) + [LocalItem(old(appIn)[0])]
      ensures var e := old(appIn)[0];
              ibhMeta == old(ibhMeta)
                         + [TxMeta(e.op, e.qpn, 0, false,
                                   if IsReadRequest(e.op) then (e.length + (pmtu - 1)) / pmtu % 0x40_0000 else 1)]
    {
      hide AcksOf, ReadsOf, LocalsOf, MetasOf;
      var ev := appIn[0];
      appIn := appIn[1..];
      var numPkg := 1;
      if IsReadRequest(ev.op) {
        numPkg := ReadResponse.NumPkg(ev.length, pmtu);
      }
      Emit(LocalItem(ev), TxMeta(ev.op, ev.qpn, 0, false, numPkg));
    }

    /** The two outputs of meta_merger. */
    method Emit(item: Item, m: TxMeta)
      requires 0 < pmtu && m == MetaOf(item, pmtu) && InOrder()
      modifies this`exhMeta, this`ibhMeta
      ensures InOrder() && exhMeta == old(exhMeta) + [item] && ibhMeta == old(ibhMeta) + [m]
      ensures AcksOf(exhMeta) == old(AcksOf(exhMeta)) + (if item.AckItem? then [item.ack] else [])
      ensures ReadsOf(exhMeta) == old(ReadsOf(exhMeta)) + (if item.ReadItem? then [item.response] else [])
      ensures LocalsOf(exhMeta) == old(LocalsOf(exhMeta)) + (if item.LocalItem? then [item.event] else [])
    {
      ItemMore(exhMeta, item, pmtu);
      hide AcksOf, ReadsOf, LocalsOf, MetasOf, MetaOf;
      exhMeta := exhMeta + [item];
      ibhMeta := ibhMeta + [m];
    }

    /** One step of generate_ibh. */
    method GenerateIbh()
      requires Valid()
      modifies this`ibhMeta, this`getPsn, this`meta, this`headers, this`txReq, this`txRsp, this`done
      ensures Valid()
      ensures if old(getPsn) then
                ibhMeta == old(ibhMeta) && getPsn == (old(txRsp) == [])
              else
                && ibhMeta == (if old(ibhMeta) != [] then old(ibhMeta)[1..] else [])
                && getPsn == (old(ibhMeta) != [] && !old(ibhMeta)[0].validPsn)
      ensures old(headers) <= headers && old(done) <= done
    {
      hide Merged;
      if !getPsn {
        if ibhMeta != [] {
          TakeMeta();
        }
      } else if txRsp != [] {
        TakePsn();
      }
    }

    method TakeMeta()
      requires Valid() && !getPsn && ibhMeta != []
      modifies this`ibhMeta, this`getPsn, this`meta, this`headers, this`txReq, this`done
      ensures Valid() && ibhMeta == old(ibhMeta)[1..] && meta == old(ibhMeta)[0] && getPsn == !meta.validPsn
      ensures old(headers) <= headers && old(done) <= done
    {
      hide AllHeaders, NextPsn, Merged, MetasOf;
      FromMerger(|done|);
      ghost var all := MetasOf(exhMeta, pmtu);
      assert all[|done|] == ibhMeta[0] && all == done + [ibhMeta[0]] + ibhMeta[1..];
      meta, ibhMeta := ibhMeta[0], ibhMeta[1..];
      var header := Bth(meta.op, meta.dest_qp, meta.psn, false);
      if meta.validPsn {
        ghost var before := done;
        HeaderMore(headers, start, done, header, meta);
        forall qp | 0 <= qp < table.Length
          ensures NextPsn(start[qp], before + [meta], qp) == NextPsn(start[qp], before, qp)
        {
          NextPsnMore(start[qp], before, meta, qp);
        }
        headers := headers + [header];
        done := done + [meta];
      } else {
        txReq := txReq + [TxRead(meta.dest_qp)];
        getPsn := true;
      }
    }

    /** Whatever was merged belongs to a queue pair that exists. */
    lemma FromMerger(k: nat)
      requires 0 < pmtu && Merged() && k < |exhMeta|
      ensures MetasOf(exhMeta, pmtu)[k].dest_qp < table.Length
    {
    }

    /** The packet gets the number from the table; a request moves the table's number on. */
    method TakePsn()
      requires Valid() && getPsn && txRsp != []
      modifies this`getPsn, this`headers, this`txReq, this`txRsp, this`done
      ensures headers == old(headers) + [Bth(meta.op, meta.dest_qp,
                                             if meta.op.Ack? then (old(txRsp)[0].resp_epsn - 1) % PSNS
                                             else old(txRsp)[0].req_next_psn, !meta.op.Ack?)]
      ensures Valid() && !getPsn && ibhMeta == old(ibhMeta) && old(headers) <= headers && old(done) <= done
    {
      hide AllHeaders, NextPsn, Merged, MetasOf;
      var qpState := txRsp[0];
      txRsp := txRsp[1..];
      assert Next(meta.dest_qp) == qpState.req_next_psn;
      var header;
      if meta.op.Ack? {
        header := Bth(meta.op, meta.dest_qp, (qpState.resp_epsn - 1) % PSNS, false);
      } else {
        header := Bth(meta.op, meta.dest_qp, qpState.req_next_psn, true);
        txReq := txReq + [TxWrite(meta.dest_qp, Advance(qpState.req_next_psn, meta.numPkg))];
      }
      ghost var before := done;
      HeaderMore(headers, start, done, header, meta);
      forall qp | 0 <= qp < table.Length
        ensures Next(qp) == NextPsn(start[qp], before + [meta], qp)
      {
        NextPsnMore(start[qp], before, meta, qp);
      }
      headers := headers + [header];
      done := done + [meta];
      getPsn := false;
    }

    /** One step of state_table for the send side. */
    method StateTable()
      requires Valid()
      modifies this`txReq, this`txRsp, table
      ensures Valid() && txReq == (if old(txReq) != [] then old(txReq)[1..] else [])
    {
      hide AllHeaders, NextPsn, Merged, InOrder;
      if txReq != [] {
        var txRequest := txReq[0];
        txReq := txReq[1..];
        match txRequest
        case TxWrite(qpn, psn) => table[qpn] := table[qpn].(req_next_psn := psn);
        case TxRead(qpn) => txRsp := txRsp + [table[qpn]];
      }
    }

    /** The receive side changes an entry; it never touches the next number. */
    method ReceiveSide(qp: nat, entry: StateTableEntry)
      requires Valid() && qp < table.Length && entry.req_next_psn == table[qp].req_next_psn
      modifies table
      ensures Valid() && table[..] == old(table[..])[qp := entry]
    {
      hide AllHeaders, NextPsn, Merged, InOrder;
      table[qp] := entry;
    }

    method AckArrives(a: AckEvent)
      requires Valid() && a.qpn < table.Length
      modifies this`ackIn, this`acks
      ensures Valid() && acks == old(acks) + [a]
    {
      hide AllHeaders, NextPsn, AcksOf, ReadsOf, LocalsOf, InOrder, Channel;
      ackIn, acks := ackIn + [a], acks + [a];
    }

    method ResponseArrives(r: ReadResponse.RespEvent)
      requires Valid() && r.qpn < table.Length
      modifies this`readIn, this`responses
      ensures Valid() && responses == old(responses) + [r]
    {
      hide AllHeaders, NextPsn, AcksOf, ReadsOf, LocalsOf, InOrder, Channel;
      readIn, responses := readIn + [r], responses + [r];
    }

    method RequestArrives(e: LocalReq.TxEvent)
      requires Valid() && e.qpn < table.Length && IsRequest(e)
      modifies this`appIn, this`requests
      ensures Valid() && requests == old(requests) + [e]
    {
      hide AllHeaders, NextPsn, AcksOf, ReadsOf, LocalsOf, InOrder, Channel;
      appIn, requests := appIn + [e], requests + [e];
    }

    /** Any schedule: inputs arrive, the receive side changes the table, and the processes take steps, in any order. */
    method Run(schedule: seq<Act>)
      requires Valid() && forall k :: 0 <= k < |schedule| ==> schedule[k].InRange(table.Length)
      modifies this, table
      ensures Valid() && old(acks) <= acks && old(responses) <= responses && old(requests) <= requests
      ensures old(headers) <= headers && old(done) <= done && old(exhMeta) <= exhMeta
    {
      hide Valid;
      for i := 0 to |schedule|
        invariant Valid() && old(acks) <= acks && old(responses) <= responses && old(requests) <= requests
        invariant old(headers) <= headers && old(done) <= done && old(exhMeta) <= exhMeta
      {
        match schedule[i] {
          case AckAct(a) => AckArrives(a);
          case ResponseAct(r) => ResponseArrives(r);
          case RequestAct(e) => RequestArrives(e);
          case ReceiveAct(qp, epsn, unack, retryCounter) =>
            ReceiveSide(qp, table[qp].(resp_epsn := epsn, req_old_unack := unack, retryCounter := retryCounter));
          case MetaMergerStep => MetaMerger();
          case GenerateIbhStep => GenerateIbh();
          case StateTableStep => StateTable();
        }
      }
    }

    /** Nothing gets stuck: whatever has arrived leaves with a header. */
    method Settle()
      requires Valid()
      modifies this`ackIn, this`readIn, this`appIn, this`exhMeta, this`ibhMeta, this`getPsn, this`meta, this`headers,
               this`txReq, this`txRsp, this`done, table
      ensures Valid() && |headers| == |exhMeta|
      ensures acks == AcksOf(exhMeta) && responses == ReadsOf(exhMeta) && requests == LocalsOf(exhMeta)
      ensures forall k :: 0 <= k < |exhMeta| ==> QueueOf(exhMeta[k]) < |start|
      ensures forall k :: 0 <= k < |exhMeta| && exhMeta[k].LocalItem? ==>
                && headers[k].op == exhMeta[k].event.op && headers[k].qp == QueueOf(exhMeta[k]) && headers[k].ackReq
                && headers[k].psn
                   == Advance(start[QueueOf(exhMeta[k])], Numbers(LocalsOf(exhMeta[..k]), QueueOf(exhMeta[k]), pmtu))
      ensures forall k :: 0 <= k < |exhMeta| && exhMeta[k].ReadItem? ==>
                headers[k] == Bth(exhMeta[k].response.op, exhMeta[k].response.qpn, exhMeta[k].response.psn, false)
      ensures forall k :: 0 <= k < |exhMeta| && exhMeta[k].AckItem? && exhMeta[k].ack.validPsn ==>
                headers[k] == Bth(Ack, exhMeta[k].ack.qpn, exhMeta[k].ack.psn, false)
      ensures AllHeaders(headers, start, MetasOf(exhMeta, pmtu)) && LocalsAreRequests(exhMeta)
    {
      CarryOutAll();
      hide NextPsn, AcksOf, ReadsOf, LocalsOf, MetasOf, AllHeaders, Numbers, Advance, LocalsAreRequests;
      forall k | 0 <= k < |exhMeta|
        ensures QueueOf(exhMeta[k]) < |start|
        ensures exhMeta[k].LocalItem? ==>
                  && headers[k].op == exhMeta[k].event.op && headers[k].qp == QueueOf(exhMeta[k]) && headers[k].ackReq
                  && headers[k].psn
                     == Advance(start[QueueOf(exhMeta[k])], Numbers(LocalsOf(exhMeta[..k]), QueueOf(exhMeta[k]), pmtu))
        ensures exhMeta[k].ReadItem? ==>
                  headers[k] == Bth(exhMeta[k].response.op, exhMeta[k].response.qpn, exhMeta[k].response.psn, false)
        ensures exhMeta[k].AckItem? && exhMeta[k].ack.validPsn ==>
                  headers[k] == Bth(Ack, exhMeta[k].ack.qpn, exhMeta[k].ack.psn, false)
      {
        HeadersAre(headers, start, exhMeta, pmtu, k);
      }
    }

    method CarryOutAll()
      requires Valid()
      modifies this`ackIn, this`readIn, this`appIn, this`exhMeta, this`ibhMeta, this`getPsn, this`meta, this`headers,
               this`txReq, this`txRsp, this`done, table
      ensures Valid() && |headers| == |exhMeta|
      ensures acks == AcksOf(exhMeta) && responses == ReadsOf(exhMeta) && requests == LocalsOf(exhMeta)
      ensures done == MetasOf(exhMeta, pmtu)
    {
      hide NextPsn, AcksOf, ReadsOf, LocalsOf, MetasOf;
      while ackIn != [] || readIn != [] || appIn != []
        invariant Valid()
        decreases |ackIn| + |readIn| + |appIn|
      {
        MetaMerger();
      }
      while getPsn || ibhMeta != []
        invariant Valid() && ackIn == [] && readIn == [] && appIn == []
        decreases |ibhMeta|, if getPsn then 1 else 0, |txReq|
      {
        if getPsn && txReq != [] {
          StateTable();
        } else {
          GenerateIbh();
        }
      }
    }
  }

  datatype Act =
    | AckAct(a: AckEvent)
    | ResponseAct(r: ReadResponse.RespEvent)
    | RequestAct(e: LocalReq.TxEvent)
    | ReceiveAct(qp: nat, epsn: PSN, unack: PSN, retryCounter: nat)
    | MetaMergerStep | GenerateIbhStep | StateTableStep
  {
    predicate InRange(n: nat)
    {
      match this
      case AckAct(a) => a.qpn < n
      case ResponseAct(r) => r.qpn < n
      case RequestAct(e) => e.qpn < n && IsRequest(e)
      case ReceiveAct(qp, _, _, _) => qp < n
      case _ => true
    }
  }

  // ---------------------------------------------------------------- the numbers of requests

  /** A request's number, and how many numbers it takes. */
  type Span = (PSN, nat)

  /** Where spans end. */
  function ChainEnd(start: PSN, spans: seq<Span>): PSN
  {
    if spans == [] then start else Advance(spans[|spans| - 1].0, spans[|spans| - 1].1)
  }

  /** Spans that follow each other without a gap from a number on. */
  ghost predicate IsChain(start: PSN, spans: seq<Span>)
  {
    forall k :: 0 <= k < |spans| ==> spans[k].0 == ChainEnd(start, spans[..k])
  }

  lemma ChainMore(start: PSN, spans: seq<Span>, s: Span)
    requires IsChain(start, spans) && s.0 == ChainEnd(start, spans)
    ensures IsChain(start, spans + [s]) && ChainEnd(start, spans + [s]) == Advance(s.0, s.1)
  {
    var all := spans + [s];
    forall k | 0 <= k < |all|
      ensures all[k].0 == ChainEnd(start, all[..k])
    {
      if k < |spans| {
        assert all[..k] == spans[..k];
      } else {
        assert all[..k] == spans;
      }
    }
  }

  /** The requests of a queue pair, as they were sent. */
  function SentSpans(hs: seq<Bth>, ms: seq<TxMeta>, qp: nat): seq<Span>
    requires |hs| == |ms|
  {
    if ms == [] then []
    else
      var n := |ms| - 1;
      SentSpans(hs[..n], ms[..n], qp) + (if IsNumbered(ms[n], qp) then [(hs[n].psn, ms[n].numPkg)] else [])
  }

  /** For every schedule, the requests of a queue pair are numbered without a gap, from the number of the setup on. */
  lemma {:induction false} SentIsChain(hs: seq<Bth>, start: seq<PSN>, ms: seq<TxMeta>, qp: nat)
    requires AllHeaders(hs, start, ms) && qp < |start|
    ensures IsChain(start[qp], SentSpans(hs, ms, qp))
    ensures ChainEnd(start[qp], SentSpans(hs, ms, qp)) == NextPsn(start[qp], ms, qp)
  {
    if ms != [] {
      var n := |ms| - 1;
      assert AllHeaders(hs[..n], start, ms[..n]) by {
        forall k | 0 <= k < n
          ensures HeaderIs(hs[..n][k], start[ms[..n][k].dest_qp], ms[..n][..k], ms[..n][k])
        {
          assert ms[..n][..k] == ms[..k];
        }
      }
      SentIsChain(hs[..n], start, ms[..n], qp);
      assert HeaderIs(hs[n], start[ms[n].dest_qp], ms[..n], ms[n]);
      if IsNumbered(ms[n], qp) {
        ChainMore(start[qp], SentSpans(hs[..n], ms[..n], qp), (hs[n].psn, ms[n].numPkg));
      }
    }
  }

  /** The requests that a receiver gets on a queue pair. */
  function ReceivedSpans(log: seq<Event>, qp: nat): seq<Span>
  {
    if log == [] then []
    else
      var e := log[|log| - 1];
      ReceivedSpans(log[..|log| - 1], qp)
      + (if e.meta.dest_qp == qp && !IsResponse(e.meta.op) then [(e.meta.psn, e.emeta.numPkg)] else [])
  }

  /** Requests carry no negative acknowledgement. */
  ghost predicate NoNaks(log: seq<Event>, qp: nat)
  {
    forall k :: 0 <= k < |log| && log[k].meta.dest_qp == qp && !IsResponse(log[k].meta.op) ==> !log[k].emeta.isNak
  }

  /**
   * A receiver that gets a chain of requests without loss and in order takes each of them as new, whatever else it
   * gets in between.
   */
  lemma {:induction false} ChainIsAccepted(start: seq<PSN>, log: seq<Event>, qp: nat, spans: seq<Span>)
    requires Genuine(start, log) && qp < |start| && NoNaks(log, qp)
    requires IsChain(start[qp], spans) && ReceivedSpans(log, qp) <= spans
    ensures forall k :: 0 <= k < |log| && log[k].meta.dest_qp == qp && !IsResponse(log[k].meta.op) ==>
              log[k].verdict.New?
    ensures Expected(start[qp], log, qp) == ChainEnd(start[qp], ReceivedSpans(log, qp))
  {
    if log != [] {
      var n := |log| - 1;
      var before, e := log[..n], log[n];
      assert ReceivedSpans(before, qp) <= ReceivedSpans(log, qp);
      ChainIsAccepted(start, before, qp, spans);
      if e.meta.dest_qp == qp && !IsResponse(e.meta.op) {
        var m := |ReceivedSpans(before, qp)|;
        assert spans[m] == ReceivedSpans(log, qp)[m] == (e.meta.psn, e.emeta.numPkg);
        assert spans[..m] == ReceivedSpans(before, qp);
      }
    }
  }

  /**
   * Both sides together: what the sender of one side numbered, the receiver of the other side accepts completely, when
   * the network neither loses nor reorders it and both were set up with the same number.
   */
  lemma SentIsAccepted(hs: seq<Bth>, start: seq<PSN>, ms: seq<TxMeta>, qp: nat, peerStart: seq<PSN>, log: seq<Event>,
                       peerQp: nat)
    requires AllHeaders(hs, start, ms) && qp < |start|
    requires Genuine(peerStart, log) && peerQp < |peerStart| && peerStart[peerQp] == start[qp] && NoNaks(log, peerQp)
    requires ReceivedSpans(log, peerQp) <= SentSpans(hs, ms, qp)
    ensures forall k :: 0 <= k < |log| && log[k].meta.dest_qp == peerQp && !IsResponse(log[k].meta.op) ==>
              log[k].verdict.New?
    ensures ReceivedSpans(log, peerQp) == SentSpans(hs, ms, qp) ==>
              Expected(peerStart[peerQp], log, peerQp) == NextPsn(start[qp], ms, qp)
  {
    SentIsChain(hs, start, ms, qp);
    ChainIsAccepted(peerStart, log, peerQp, SentSpans(hs, ms, qp));
  }
}

/**
 * From one side's requests to the other side's memory, through the numbering of the sender, the sequence check of the
 * receiver and the responder, when the network neither loses nor reorders packets.
 */
module Delivery {
  import opened Psn
  import opened LocalReq
  import opened RxIbh
  import opened RxExh
  import opened ReadQueue
  import TxIbh

  // ---------------------------------------------------------------- from the sequence check to the responder

  /** The packets whose headers a history judged. */
  ghost predicate HeadersOf(log: seq<Event>, fs: seq<RxPacket>)
  {
    |log| == |fs| && forall k :: 0 <= k < |log| ==> log[k].meta == IbhMeta(fs[k].op, fs[k].qpn, fs[k].psn)
  }

  /** Those that go on to rx_exh_fsm. */
  function Forwarded(log: seq<Event>, fs: seq<RxPacket>): seq<RxPacket>
    requires |log| == |fs|
  {
    if log == [] then []
    else
      var n := |log| - 1;
      Forwarded(log[..n], fs[..n]) + (if PassesOn(log[n]) then [fs[n]] else [])
  }

  /** Their headers are what rx_ibh_fsm writes to its output. */
  lemma {:induction false} ForwardedArePassedOn(log: seq<Event>, fs: seq<RxPacket>)
    requires HeadersOf(log, fs)
    ensures var out, metas := Forwarded(log, fs), PassedOn(log);
            |out| == |metas| && forall k :: 0 <= k < |out| ==> metas[k] == IbhMeta(out[k].op, out[k].qpn, out[k].psn)
    decreases |log|
  {
    if log != [] {
      ForwardedArePassedOn(log[..|log| - 1], fs[..|log| - 1]);
    }
  }

  /** A queue pair that gets requests only. */
  ghost predicate OnlyRequests(fs: seq<RxPacket>, qp: nat)
  {
    forall k :: 0 <= k < |fs| && fs[k].qpn == qp ==> !IsResponse(fs[k].op)
  }

  ghost predicate AllNew(log: seq<Event>, qp: nat)
  {
    forall k :: 0 <= k < |log| && log[k].meta.dest_qp == qp && !IsResponse(log[k].meta.op) ==> log[k].verdict.New?
  }

  /** Where every request is new, all packets of the queue pair go on. */
  lemma {:induction false} AllGoOn(log: seq<Event>, fs: seq<RxPacket>, qp: nat)
    requires HeadersOf(log, fs) && OnlyRequests(fs, qp) && AllNew(log, qp)
    ensures Own(Forwarded(log, fs), qp) == Own(fs, qp)
    decreases |log|
  {
    if log == [] {
      assert Forwarded(log, fs) == fs;
    } else {
      var n := |log| - 1;
      var before := Forwarded(log[..n], fs[..n]);
      AllGoOn(log[..n], fs[..n], qp);
      hide Own;
      assert log[n].meta == IbhMeta(fs[n].op, fs[n].qpn, fs[n].psn);
      assert fs[n].qpn == qp ==> PassesOn(log[n]) && !fs[n].op.Ack?;
      OwnNext(fs, qp);
      OwnNext(before + [fs[n]], qp);
      assert (before + [fs[n]])[..|before|] == before;
      assert before + [] == before;
    }
  }

  // ---------------------------------------------------------------- numbers do not matter to the memory

  ghost predicate SameButNumbers(a: seq<RxPacket>, b: seq<RxPacket>)
  {
    |a| == |b| && forall k :: 0 <= k < |a| ==> a[k] == b[k].(psn := a[k].psn)
  }

  lemma {:induction false} NumbersDoNotMatter(d: DmaState, a: seq<RxPacket>, b: seq<RxPacket>, qp: nat)
    requires SameButNumbers(a, b) && AllProcessable(a) && AllProcessable(b)
    ensures StateAfter(d, a, qp) == StateAfter(d, b, qp) && CommandsOf(d, a, qp) == CommandsOf(d, b, qp)
    decreases |a|
  {
    if a != [] {
      var n := |a| - 1;
      NumbersDoNotMatter(d, a[..n], b[..n], qp);
      assert forall d: DmaState :: Receive(d, a[n]) == Receive(d, b[n]);
      hide Receive;
    }
  }

  // ---------------------------------------------------------------- many requests

  function RequestsOf(requests: seq<TxMeta>, qp: nat): seq<TxMeta>
  {
    if requests == [] then []
    else
      var m := requests[|requests| - 1];
      RequestsOf(requests[..|requests| - 1], qp) + (if m.qpn == qp then [m] else [])
  }

  function EventsOf(evs: seq<TxEvent>, qp: nat): seq<TxEvent>
  {
    if evs == [] then []
    else
      var e := evs[|evs| - 1];
      EventsOf(evs[..|evs| - 1], qp) + (if e.qpn == qp then [e] else [])
  }

  lemma {:induction false} EventsInTwo(a: seq<TxEvent>, b: seq<TxEvent>, qp: nat)
    ensures EventsOf(a + b, qp) == EventsOf(a, qp) + EventsOf(b, qp)
    decreases |b|
  {
    if b == [] {
      assert a + b == a;
    } else {
      assert (a + b)[..|a + b| - 1] == a + b[..|b| - 1] && (a + b)[|a + b| - 1] == b[|b| - 1];
      EventsInTwo(a, b[..|b| - 1], qp);
    }
  }

  lemma {:induction false} EventsOfOne(evs: seq<TxEvent>, owner: nat, qp: nat)
    requires forall k :: 0 <= k < |evs| ==> evs[k].qpn == owner
    ensures EventsOf(evs, qp) == if owner == qp then evs else []
    decreases |evs|
  {
    if evs != [] {
      EventsOfOne(evs[..|evs| - 1], owner, qp);
    }
  }

  lemma {:induction false} RestOwner(m: TxMeta, pmtu: nat)
    requires 0 < pmtu
    ensures forall k :: 0 <= k < |Rest(m, pmtu)| ==> Rest(m, pmtu)[k].qpn == m.qpn
    decreases m.length
  {
    if m.length > pmtu {
      RestOwner(Shortened(m, pmtu), pmtu);
    }
  }

  lemma SegmentsOwner(m: TxMeta, pmtu: nat)
    requires 0 < pmtu
    ensures forall k :: 0 <= k < |Segments(m, pmtu)| ==> Segments(m, pmtu)[k].qpn == m.qpn
  {
    if m.length > pmtu {
      RestOwner(Shortened(m, pmtu), pmtu);
    }
  }

  lemma LastSegments(requests: seq<TxMeta>, pmtu: nat, qp: nat)
    requires 0 < pmtu && requests != []
    ensures var n := |requests| - 1;
            && AllSegments(requests, pmtu) == AllSegments(requests[..n], pmtu) + Segments(requests[n], pmtu)
            && RequestsOf(requests, qp) ==
               if requests[n].qpn == qp then RequestsOf(requests[..n], qp) + [requests[n]]
               else RequestsOf(requests[..n], qp)
  {
  }

  /** The events of a queue pair are those of its requests. */
  lemma {:induction false} EventsAreRequests(requests: seq<TxMeta>, pmtu: nat, qp: nat)
    requires 0 < pmtu
    ensures EventsOf(AllSegments(requests, pmtu), qp) == AllSegments(RequestsOf(requests, qp), pmtu)
    decreases |requests|
  {
    if requests != [] {
      var n := |requests| - 1;
      var m := requests[n];
      EventsAreRequests(requests[..n], pmtu, qp);
      SegmentsOwner(m, pmtu);
      EventsOfOne(Segments(m, pmtu), m.qpn, qp);
      EventsInTwo(AllSegments(requests[..n], pmtu), Segments(m, pmtu), qp);
      AllSegmentsNext(RequestsOf(requests[..n], qp), m, pmtu);
      LastSegments(requests, pmtu, qp);
      hide Segments, EventsOf, AllSegments, RequestsOf;
    }
  }

  function Flatten(groups: seq<seq<WriteCmd>>): seq<WriteCmd>
  {
    if groups == [] then [] else Flatten(groups[..|groups| - 1]) + groups[|groups| - 1]
  }

  /** The fields of a request have the widths of the source, and packets fit UDP. */
  ghost predicate AllFit(requests: seq<TxMeta>, pmtu: nat)
  {
    0 < pmtu && pmtu + 48 < 65536 && forall i :: 0 <= i < |requests| ==> FieldsFit(requests[i])
  }

  /** What a request does to the memory: a write fills its range. */
  predicate Done(m: TxMeta, cmds: seq<WriteCmd>)
  {
    m.op.AppWrite? ==> Tiles(cmds, m.remote_vaddr, m.length)
  }

  lemma OneDone(d: DmaState, m: TxMeta, ps: seq<RxPacket>, pmtu: nat)
    requires 0 < pmtu && pmtu + 48 < 65536 && FieldsFit(m) && !IsEmptyWrite(m)
    requires WiredAs(ps, Segments(m, pmtu), pmtu)
    ensures AllProcessable(ps) && Done(m, CommandsOf(d, ps, m.qpn))
  {
    OneRequest(m, ps, pmtu);
    if m.op.AppWrite? {
      WriteTiles(m, pmtu, 0, d);
      var qs := WireAll(Segments(m, pmtu), pmtu, 0);
      assert SameButNumbers(ps, qs) by { WiredSame(ps, Segments(m, pmtu), pmtu); }
      hide Segments, WireAll, CommandsOf, StateAfter, AllProcessable;
      NumbersDoNotMatter(d, ps, qs, m.qpn);
    }
  }

  lemma WiredSame(ps: seq<RxPacket>, evs: seq<TxEvent>, pmtu: nat)
    requires WiredAs(ps, evs, pmtu) && WriteEvents(evs)
    ensures SameButNumbers(ps, WireAll(evs, pmtu, 0))
  {
    forall k | 0 <= k < |ps|
      ensures ps[k] == WireAll(evs, pmtu, 0)[k].(psn := ps[k].psn)
    {
      assert IsWire(ps[k], evs[k], pmtu);
    }
  }

  /** Requests that arrive one after the other are carried out one after the other. */
  lemma {:induction false} RequestsDone(d: DmaState, requests: seq<TxMeta>, ps: seq<RxPacket>, pmtu: nat, qp: nat)
    returns (groups: seq<seq<WriteCmd>>)
    requires AllFit(requests, pmtu)
    requires forall i :: 0 <= i < |requests| ==> !IsEmptyWrite(requests[i]) && requests[i].qpn == qp
    requires WiredAs(ps, AllSegments(requests, pmtu), pmtu)
    ensures AllProcessable(ps) && |groups| == |requests| && CommandsOf(d, ps, qp) == Flatten(groups)
    ensures forall i :: 0 <= i < |requests| ==> Done(requests[i], groups[i])
    decreases |requests|
  {
    hide Segments, WiredAs, CommandsOf, StateAfter, Done, FieldsFit, IsEmptyWrite;
    if requests == [] {
      NothingSent(d, ps, pmtu, qp);
      groups := [];
    } else {
      var n := |requests| - 1;
      var front, last := AllSegments(requests[..n], pmtu), Segments(requests[n], pmtu);
      assert AllSegments(requests, pmtu) == front + last;
      hide AllSegments;
      WiredInTwo(ps, front, last, pmtu);
      var a, b := ps[..|front|], ps[|front|..];
      groups := RequestsDone(d, requests[..n], a, pmtu, qp);
      var d' := StateAfter(d, a, qp);
      OneDone(d', requests[n], b, pmtu);
      hide AllProcessable;
      InTwoParts(d, a, b, qp);
      var g := CommandsOf(d', b, qp);
      assert (groups + [g])[..n] == groups;
      groups := groups + [g];
    }
  }

  lemma NothingSent(d: DmaState, ps: seq<RxPacket>, pmtu: nat, qp: nat)
    requires 0 < pmtu && WiredAs(ps, AllSegments([], pmtu), pmtu)
    ensures AllProcessable(ps) && CommandsOf(d, ps, qp) == []
  {
  }

  // ---------------------------------------------------------------- all the way

  /**
   * requests are what one side's local_req_handler took; hs and ms are the headers that its generate_ibh wrote and what
   * it numbered. The other side's receiver judged the packets fs, with history log, and its responder x has carried out
   * what went on. If the queue pair got the requests' packets, all of them and in order, with the numbers that they
   * were sent with, then every write of the queue pair is in the other side's memory, one after the other.
   */
  lemma SentIsInMemory(requests: seq<TxMeta>, pmtu: nat, qp: nat, hs: seq<TxIbh.Bth>, ms: seq<TxIbh.TxMeta>,
                       sendStart: seq<PSN>, start: seq<PSN>, log: seq<Event>, fs: seq<RxPacket>, x: Responder)
    returns (groups: seq<seq<WriteCmd>>)
    requires AllFit(requests, pmtu) && forall i :: 0 <= i < |requests| ==> !IsEmptyWrite(requests[i])
    requires TxIbh.AllHeaders(hs, sendStart, ms) && qp < |sendStart|
    requires Genuine(start, log) && qp < |start| && start[qp] == sendStart[qp] && TxIbh.NoNaks(log, qp)
    requires TxIbh.ReceivedSpans(log, qp) <= TxIbh.SentSpans(hs, ms, qp)
    requires HeadersOf(log, fs) && OnlyRequests(fs, qp)
    requires WiredAs(Own(fs, qp), EventsOf(AllSegments(requests, pmtu), qp), pmtu)
    requires x.Valid() && x.log == Forwarded(log, fs) && qp < |x.init|
    ensures |Owners(x.init, x.log)| == |x.memoryWriteCmd|
    ensures Select(x.memoryWriteCmd, Owners(x.init, x.log), qp) == Flatten(groups)
    ensures var own := RequestsOf(requests, qp);
            |groups| == |own| && forall i :: 0 <= i < |own| ==> Done(own[i], groups[i])
  {
    TxIbh.SentIsAccepted(hs, sendStart, ms, qp, start, log, qp);
    assert AllNew(log, qp);
    AllGoOn(log, fs, qp);
    EventsAreRequests(requests, pmtu, qp);
    OwnRequests(requests, pmtu, qp);
    SelectIsOwn(x.init, x.log, qp);
    OnlyOwnPackets(x.init[qp], x.log, qp);
    hide RequestsOf, AllSegments, EventsOf, WiredAs, Own, Forwarded, CommandsOf, Commands, StateAfter, Select, Owners,
         Flatten, Done;
    groups := RequestsDone(x.init[qp], RequestsOf(requests, qp), Own(fs, qp), pmtu, qp);
  }

  lemma {:induction false} OwnRequests(requests: seq<TxMeta>, pmtu: nat, qp: nat)
    requires AllFit(requests, pmtu) && forall i :: 0 <= i < |requests| ==> !IsEmptyWrite(requests[i])
    ensures AllFit(RequestsOf(requests, qp), pmtu)
    ensures forall i :: 0 <= i < |RequestsOf(requests, qp)| ==>
              !IsEmptyWrite(RequestsOf(requests, qp)[i]) && RequestsOf(requests, qp)[i].qpn == qp
    decreases |requests|
  {
    if requests != [] {
      OwnRequests(requests[..|requests| - 1], pmtu, qp);
    }
  }
}

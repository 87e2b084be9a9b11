/**
 * From reads to the memory: local_req_handler leaves the local address of every read in the queue of its queue pair,
 * the other side answers the reads that have bytes, and every answer takes the next address from the queue.
 */
module ReadQueue {
  import opened Psn
  import opened LocalReq
  import opened RxExh
  import opened ReadResponse
  import opened ReadArrival

  // ---------------------------------------------------------------- the queue

  /** The addresses of a queue pair, in order. */
  function QueueOf(addrs: seq<(nat, nat)>, qp: nat): seq<nat>
  {
    if addrs == [] then []
    else
      var n := |addrs| - 1;
      QueueOf(addrs[..n], qp) + (if addrs[n].0 == qp then [addrs[n].1] else [])
  }

  lemma QueueNext(addrs: seq<(nat, nat)>, a: (nat, nat), qp: nat)
    ensures QueueOf(addrs + [a], qp) == QueueOf(addrs, qp) + (if a.0 == qp then [a.1] else [])
  {
    assert (addrs + [a])[..|addrs|] == addrs;
  }

  /** The reads among the requests of a queue pair. */
  function ReadsBy(requests: seq<TxMeta>, qp: nat): seq<TxMeta>
  {
    if requests == [] then []
    else
      var n := |requests| - 1;
      ReadsBy(requests[..n], qp) + (if !IsWrite(requests[n].op) && requests[n].qpn == qp then [requests[n]] else [])
  }

  lemma {:induction false} QueueIsReads(requests: seq<TxMeta>, qp: nat)
    ensures var queue, reads' := QueueOf(AllReadAddrs(requests), qp), ReadsBy(requests, qp);
            |queue| == |reads'| && forall i :: 0 <= i < |queue| ==> queue[i] == reads'[i].local_vaddr
    decreases |requests|
  {
    if requests != [] {
      var n := |requests| - 1;
      var addrs := AllReadAddrs(requests[..n]);
      QueueIsReads(requests[..n], qp);
      if !IsWrite(requests[n].op) {
        var last := (requests[n].qpn, requests[n].local_vaddr);
        QueueNext(addrs, last, qp);
      } else {
        assert addrs + [] == addrs;
      }
    }
  }

  /** The addresses that packets take from the queue. */
  function Popped(ps: seq<RxPacket>): seq<nat>
  {
    if ps == [] then []
    else (if StartsResponse(ps[0].op) then [ps[0].readAddr] else []) + Popped(ps[1..])
  }

  lemma PoppedFirst(ps: seq<RxPacket>)
    requires ps != []
    ensures Popped(ps) == (if StartsResponse(ps[0].op) then [ps[0].readAddr] else []) + Popped(ps[1..])
  {
  }

  lemma {:induction false} PoppedInTwo(a: seq<RxPacket>, b: seq<RxPacket>)
    ensures Popped(a + b) == Popped(a) + Popped(b)
    decreases |a|
  {
    if a == [] {
      assert a + b == b;
    } else {
      assert (a + b)[1..] == a[1..] + b && (a + b)[0] == a[0];
      PoppedInTwo(a[1..], b);
      PoppedFirst(a);
      PoppedFirst(a + b);
      hide Popped, StartsResponse;
    }
  }

  lemma {:induction false} NothingPopped(ps: seq<RxPacket>)
    requires forall k :: 0 <= k < |ps| ==> !StartsResponse(ps[k].op)
    ensures Popped(ps) == []
    decreases |ps|
  {
    if ps != [] {
      NothingPopped(ps[1..]);
    }
  }

  /** A read takes one address, with its first packet. */
  lemma OnePopped(r: Request, pmtu: nat, qp: nat, local: nat)
    requires 0 < pmtu && 0 < r.dma_length
    ensures Popped(WireResponses(Responses(r, pmtu), qp, local)) == [local]
  {
    ResponsesAre(r, pmtu);
    hide Responses;
    var evs := Responses(r, pmtu);
    var ps := WireResponses(evs, qp, local);
    assert ps[0] == WireResponse(evs[0], qp, local);
    forall k | 0 <= k < |ps[1..]|
      ensures !StartsResponse(ps[1..][k].op)
    {
      assert ps[1..][k] == WireResponse(evs[k + 1], qp, local) && evs[k + 1].op == OpOf(k + 1, |evs|);
    }
    NothingPopped(ps[1..]);
  }

  // ---------------------------------------------------------------- what the other side answers

  /** A write of no bytes: with its packet the other side stops. */
  predicate IsEmptyWrite(m: TxMeta)
  {
    IsWrite(m.op) && m.length == 0
  }

  /** Reads of no bytes get no answer, and reads that chase pointers do not leave. */
  predicate IsAnswered(m: TxMeta)
  {
    (m.op.AppRead? || m.op.AppReadConsistent?) && m.length > 0
  }

  /** The requests before the first empty write. */
  function Served(requests: seq<TxMeta>): (r: seq<TxMeta>)
    ensures r <= requests && forall i :: 0 <= i < |r| ==> !IsEmptyWrite(r[i])
    ensures |r| < |requests| ==> IsEmptyWrite(requests[|r|])
  {
    if requests == [] || IsEmptyWrite(requests[0]) then [] else [requests[0]] + Served(requests[1..])
  }

  function AnsweredBy(requests: seq<TxMeta>, qp: nat): seq<TxMeta>
  {
    if requests == [] then []
    else
      var m := requests[|requests| - 1];
      AnsweredBy(requests[..|requests| - 1], qp) + AnsweredOne(m, qp)
  }

  predicate Wireable(ev: TxEvent)
  {
    IsWriteOrPart(ev.op) || ev.op.ReadRequest? || ev.op.ReadConsistentRequest?
  }

  /** The packet of an event as the other side gets it, with whatever number. */
  predicate IsWire(p: RxPacket, ev: TxEvent, pmtu: nat)
  {
    Wireable(ev) && p == Wire(ev, pmtu, p.psn)
  }

  ghost predicate WiredAs(ps: seq<RxPacket>, evs: seq<TxEvent>, pmtu: nat)
  {
    |ps| == |evs| && forall k :: 0 <= k < |ps| ==> IsWire(ps[k], evs[k], pmtu)
  }

  function OfQueue(rs: seq<Request>, qp: nat): seq<Request>
  {
    if rs == [] then []
    else OfQueue(rs[..|rs| - 1], qp) + (if rs[|rs| - 1].qpn == qp then [rs[|rs| - 1]] else [])
  }

  ghost predicate Answers(rs: seq<Request>, ms: seq<TxMeta>)
  {
    |rs| == |ms| && forall i :: 0 <= i < |rs| ==>
      rs[i].qpn == ms[i].qpn && rs[i].vaddr == ms[i].remote_vaddr && rs[i].dma_length == ms[i].length
  }

  lemma {:induction false} ReadsInTwo(a: seq<RxPacket>, b: seq<RxPacket>)
    requires AllProcessable(a) && AllProcessable(b)
    ensures AllProcessable(a + b) && Reads(a + b) == Reads(a) + Reads(b)
    decreases |b|
  {
    hide Processable;
    if b == [] {
      assert a + b == a;
    } else {
      var n := |b| - 1;
      ReadsInTwo(a, b[..n]);
      assert a + b == (a + b[..n]) + [b[n]] && b == b[..n] + [b[n]];
      AnswersNext(a + b[..n], b[n]);
      AnswersNext(b[..n], b[n]);
      hide Reads;
    }
  }

  lemma {:induction false} OfQueueInTwo(a: seq<Request>, b: seq<Request>, qp: nat)
    ensures OfQueue(a + b, qp) == OfQueue(a, qp) + OfQueue(b, qp)
    decreases |b|
  {
    if b == [] {
      assert a + b == a;
    } else {
      var n := |b| - 1;
      assert (a + b)[..|a + b| - 1] == a + b[..n] && (a + b)[|a + b| - 1] == b[n];
      OfQueueInTwo(a, b[..n], qp);
    }
  }

  lemma {:induction false} NoReads(ps: seq<RxPacket>)
    requires AllProcessable(ps) && forall k :: 0 <= k < |ps| ==> IsWriteOrPart(ps[k].op)
    ensures Reads(ps) == []
    decreases |ps|
  {
    if ps != [] {
      NoReads(ps[..|ps| - 1]);
    }
  }

  lemma NumberDoesNotMatter(ev: TxEvent, pmtu: nat, a: PSN, b: PSN)
    requires Wireable(ev)
    ensures Processable(Wire(ev, pmtu, a)) <==> Processable(Wire(ev, pmtu, b))
    ensures Wire(ev, pmtu, a).op == ev.op
  {
  }

  /** The packets of a request pass, unless it is an empty write; a read with bytes leaves itself to be answered. */
  lemma OneRequest(m: TxMeta, ps: seq<RxPacket>, pmtu: nat)
    requires 0 < pmtu && !IsEmptyWrite(m) && WiredAs(ps, Segments(m, pmtu), pmtu)
    ensures AllProcessable(ps) && OneRead(m, Reads(ps))
  {
    if IsWrite(m.op) {
      OneWrite(m, ps, pmtu);
    } else if ps != [] {
      assert IsWire(ps[0], Segments(m, pmtu)[0], pmtu);
      assert ps[..0] == [];
    }
  }

  /** What a request leaves to be answered. */
  predicate OneRead(m: TxMeta, rs: seq<Request>)
  {
    if IsAnswered(m) then
      |rs| == 1 && rs[0].qpn == m.qpn && rs[0].vaddr == m.remote_vaddr && rs[0].dma_length == m.length
    else rs == []
  }

  lemma OneWrite(m: TxMeta, ps: seq<RxPacket>, pmtu: nat)
    requires 0 < pmtu && IsWrite(m.op) && m.length > 0 && WiredAs(ps, Segments(m, pmtu), pmtu)
    ensures AllProcessable(ps) && Reads(ps) == []
  {
    WritesPass(m, pmtu, 0);
    hide Segments;
    var evs := Segments(m, pmtu);
    forall k | 0 <= k < |ps|
      ensures Processable(ps[k]) && IsWriteOrPart(ps[k].op)
    {
      assert IsWire(ps[k], evs[k], pmtu);
      NumberDoesNotMatter(evs[k], pmtu, ps[k].psn, Advance(0, k));
      assert Processable(WireAll(evs, pmtu, 0)[k]);
    }
    NoReads(ps);
  }

  /** The reads that the other side answers are those with bytes, in order. */
  lemma {:induction false} ReadsAre(requests: seq<TxMeta>, ps: seq<RxPacket>, pmtu: nat, qp: nat)
    requires 0 < pmtu && (forall i :: 0 <= i < |requests| ==> !IsEmptyWrite(requests[i]))
    requires WiredAs(ps, AllSegments(requests, pmtu), pmtu)
    ensures AllProcessable(ps) && Answers(OfQueue(Reads(ps), qp), AnsweredBy(requests, qp))
    decreases |requests|
  {
    if requests != [] {
      var n := |requests| - 1;
      var m, front, last := requests[n], AllSegments(requests[..n], pmtu), Segments(requests[n], pmtu);
      var a, b := ps[..|front|], ps[|front|..];
      LastRequest(requests, pmtu, qp);
      assert !IsEmptyWrite(m);
      hide Segments, AllSegments, OfQueue, Reads, AnsweredBy, WiredAs, IsAnswered, AllProcessable, Answers, OneRead,
           IsEmptyWrite;
      WiredInTwo(ps, front, last, pmtu);
      ReadsAre(requests[..n], a, pmtu, qp);
      OneRequest(m, b, pmtu);
      ReadsInTwo(a, b);
      OfQueueInTwo(Reads(a), Reads(b), qp);
      OneMoreAnswer(OfQueue(Reads(a), qp), AnsweredBy(requests[..n], qp), m, Reads(b), qp);
    }
  }

  lemma LastRequest(requests: seq<TxMeta>, pmtu: nat, qp: nat)
    requires 0 < pmtu && requests != []
    ensures var n := |requests| - 1;
            && AllSegments(requests, pmtu) == AllSegments(requests[..n], pmtu) + Segments(requests[n], pmtu)
            && AnsweredBy(requests, qp) == AnsweredBy(requests[..n], qp) + AnsweredOne(requests[n], qp)
  {
  }

  function AnsweredOne(m: TxMeta, qp: nat): seq<TxMeta>
  {
    if IsAnswered(m) && m.qpn == qp then [m] else []
  }

  lemma OneMoreAnswer(rs: seq<Request>, ms: seq<TxMeta>, m: TxMeta, more: seq<Request>, qp: nat)
    requires Answers(rs, ms) && OneRead(m, more)
    ensures Answers(rs + OfQueue(more, qp), ms + AnsweredOne(m, qp))
  {
    OneOfQueue(more, qp);
  }

  lemma OneOfQueue(rs: seq<Request>, qp: nat)
    requires |rs| <= 1
    ensures OfQueue(rs, qp) == if rs != [] && rs[0].qpn == qp then rs else []
  {
  }

  lemma WiredInTwo(ps: seq<RxPacket>, a: seq<TxEvent>, b: seq<TxEvent>, pmtu: nat)
    requires WiredAs(ps, a + b, pmtu)
    ensures |ps| == |a| + |b| && ps[..|a|] + ps[|a|..] == ps
    ensures WiredAs(ps[..|a|], a, pmtu) && WiredAs(ps[|a|..], b, pmtu)
  {
    hide IsWire;
    forall k | 0 <= k < |a|
      ensures IsWire(ps[..|a|][k], a[k], pmtu)
    {
      assert (a + b)[k] == a[k];
    }
    forall k | 0 <= k < |b|
      ensures IsWire(ps[|a|..][k], b[k], pmtu)
    {
      assert (a + b)[|a| + k] == b[k];
    }
  }

  lemma {:induction false} SegmentsInTwo(a: seq<TxMeta>, b: seq<TxMeta>, pmtu: nat)
    requires 0 < pmtu
    ensures AllSegments(a + b, pmtu) == AllSegments(a, pmtu) + AllSegments(b, pmtu)
    decreases |b|
  {
    hide Segments;
    if b == [] {
      assert a + b == a;
    } else {
      var n := |b| - 1;
      assert (a + b)[..|a + b| - 1] == a + b[..n] && (a + b)[|a + b| - 1] == b[n];
      SegmentsInTwo(a, b[..n], pmtu);
    }
  }

  /** What the other side carries out of all that was sent: the packets of the requests before the first empty write. */
  lemma PassingIsServed(requests: seq<TxMeta>, ps: seq<RxPacket>, pmtu: nat, qp: nat)
    requires 0 < pmtu && WiredAs(ps, AllSegments(requests, pmtu), pmtu)
    ensures AllProcessable(Passing(ps))
    ensures Answers(OfQueue(Reads(Passing(ps)), qp), AnsweredBy(Served(requests), qp))
  {
    hide AllSegments, WiredAs, Served, AllProcessable, Parsed, Passing, Stalls, OfQueue, Reads, AnsweredBy, Answers,
         IsEmptyWrite, Segments;
    var served := Served(requests);
    var rest := requests[|served|..];
    ServedFirst(requests);
    var front, tail := AllSegments(served, pmtu), AllSegments(rest, pmtu);
    SegmentsInTwo(served, rest, pmtu);
    WiredInTwo(ps, front, tail, pmtu);
    var a, b := ps[..|front|], ps[|front|..];
    ReadsAre(served, a, pmtu, qp);
    EmptyStalls(b, rest, pmtu);
    PassingIs(a, b);
  }

  lemma ServedFirst(requests: seq<TxMeta>)
    ensures var served := Served(requests); requests == served + requests[|served|..]
    ensures var rest := requests[|Served(requests)|..]; rest != [] ==> IsEmptyWrite(rest[0])
  {
  }

  /** The requests that an empty write comes first in get no further. */
  lemma EmptyStalls(ps: seq<RxPacket>, requests: seq<TxMeta>, pmtu: nat)
    requires 0 < pmtu && WiredAs(ps, AllSegments(requests, pmtu), pmtu)
    requires requests != [] ==> IsEmptyWrite(requests[0])
    ensures forall k :: 0 <= k < |ps| ==> Parsed(ps[k])
    ensures ps != [] ==> Stalls(ps[0].op, ps[0].header)
  {
    if requests != [] {
      EmptyFirst(requests, pmtu);
    } else {
      NoEvents(pmtu);
    }
    hide AllSegments;
    RestStalls(ps, AllSegments(requests, pmtu), pmtu);
  }

  lemma NoEvents(pmtu: nat)
    requires 0 < pmtu
    ensures AllSegments([], pmtu) == []
  {
  }

  /** The packet of an empty write is one that the other side does not get past. */
  lemma RestStalls(ps: seq<RxPacket>, evs: seq<TxEvent>, pmtu: nat)
    requires WiredAs(ps, evs, pmtu)
    requires evs != [] ==> (evs[0].op.WriteOnly? || evs[0].op.PartOnly?) && evs[0].length == 0
    ensures forall k :: 0 <= k < |ps| ==> Parsed(ps[k])
    ensures |ps| == |evs| && (ps != [] ==> Stalls(ps[0].op, ps[0].header))
  {
    forall k | 0 <= k < |ps|
      ensures Parsed(ps[k])
    {
      assert IsWire(ps[k], evs[k], pmtu);
    }
    assert ps != [] ==> IsWire(ps[0], evs[0], pmtu);
  }

  /** The events of requests that begin with an empty write begin with its one event. */
  lemma {:induction false} EmptyFirst(requests: seq<TxMeta>, pmtu: nat)
    requires 0 < pmtu && requests != [] && IsEmptyWrite(requests[0])
    ensures var evs := AllSegments(requests, pmtu);
            evs != [] && (evs[0].op.WriteOnly? || evs[0].op.PartOnly?) && evs[0].length == 0
    decreases |requests|
  {
    if |requests| == 1 {
      assert requests[..0] == [] && AllSegments([], pmtu) == [];
    } else {
      EmptyFirst(requests[..|requests| - 1], pmtu);
    }
  }

  // ---------------------------------------------------------------- the answers

  /** What a queue pair of the requester gets: gaps hold other packets of it, before the answer to each read. */
  function WireReads(gaps: seq<seq<RxPacket>>, rs: seq<Request>, pmtu: nat, qp: nat, locals: seq<nat>): seq<RxPacket>
    requires 0 < pmtu && |gaps| == |locals| == |rs|
  {
    if rs == [] then []
    else
      var n := |rs| - 1;
      WireReads(gaps[..n], rs[..n], pmtu, qp, locals[..n]) + gaps[n]
      + WireResponses(Responses(rs[n], pmtu), qp, locals[n])
  }

  /** Other packets take no address: they start no answer. */
  ghost predicate AreGaps(gaps: seq<seq<RxPacket>>)
  {
    forall i :: 0 <= i < |gaps| ==> IsGap(gaps[i])
  }

  ghost predicate IsGap(ps: seq<RxPacket>)
  {
    AllProcessable(ps) && Popped(ps) == []
  }

  lemma {:induction false} AllPopped(gaps: seq<seq<RxPacket>>, rs: seq<Request>, pmtu: nat, qp: nat, locals: seq<nat>)
    requires 0 < pmtu && |gaps| == |locals| == |rs| && AreGaps(gaps)
    requires forall i :: 0 <= i < |rs| ==> 0 < rs[i].dma_length
    ensures Popped(WireReads(gaps, rs, pmtu, qp, locals)) == locals
    decreases |rs|
  {
    hide WireResponses, Responses;
    if rs == [] {
      assert WireReads(gaps, rs, pmtu, qp, locals) == [];
    } else {
      var n := |rs| - 1;
      var before := WireReads(gaps[..n], rs[..n], pmtu, qp, locals[..n]);
      var last := WireResponses(Responses(rs[n], pmtu), qp, locals[n]);
      AllPopped(gaps[..n], rs[..n], pmtu, qp, locals[..n]);
      assert IsGap(gaps[n]);
      hide Popped;
      OnePopped(rs[n], pmtu, qp, locals[n]);
      PoppedInTwo(before, gaps[n]);
      PoppedInTwo(before + gaps[n], last);
      assert WireReads(gaps, rs, pmtu, qp, locals) == before + gaps[n] + last;
      hide WireReads;
      assert locals[..n] + [locals[n]] == locals;
    }
  }

  /** The memory writes of the gaps and of the answers between them. */
  function Interleaved(others: seq<seq<WriteCmd>>, groups: seq<seq<WriteCmd>>): seq<WriteCmd>
    requires |others| == |groups|
  {
    if groups == [] then []
    else
      var n := |groups| - 1;
      Interleaved(others[..n], groups[..n]) + others[n] + groups[n]
  }

  lemma LastRead(gaps: seq<seq<RxPacket>>, rs: seq<Request>, pmtu: nat, qp: nat, locals: seq<nat>)
    requires 0 < pmtu && |gaps| == |locals| == |rs| && rs != []
    ensures var n := |rs| - 1;
            WireReads(gaps, rs, pmtu, qp, locals)
            == WireReads(gaps[..n], rs[..n], pmtu, qp, locals[..n]) + gaps[n]
               + WireResponses(Responses(rs[n], pmtu), qp, locals[n])
  {
  }

  lemma LastGroup(others: seq<seq<WriteCmd>>, groups: seq<seq<WriteCmd>>, o: seq<WriteCmd>, g: seq<WriteCmd>)
    requires |others| == |groups|
    ensures Interleaved(others + [o], groups + [g]) == Interleaved(others, groups) + o + g
  {
    assert (others + [o])[..|others|] == others && (groups + [g])[..|groups|] == groups;
  }

  /** A read whose answer can be written: it has bytes, and its range ends below 2^64. */
  predicate Writable(r: Request, local: nat)
  {
    0 < r.dma_length && local + r.dma_length < 0x1_0000_0000_0000_0000
  }

  ghost predicate GroupsTile(groups: seq<seq<WriteCmd>>, rs: seq<Request>, locals: seq<nat>)
    requires |locals| == |rs|
  {
    |groups| == |rs| && forall i :: 0 <= i < |rs| ==> Tiles(groups[i], locals[i], rs[i].dma_length)
  }

  /** One more answer after other packets. */
  lemma LastTiles(d: DmaState, before: seq<RxPacket>, gap: seq<RxPacket>, r: Request, pmtu: nat, qp: nat, local: nat)
    returns (o: seq<WriteCmd>, g: seq<WriteCmd>)
    requires 0 < pmtu && pmtu + 48 < 65536 && Writable(r, local) && AllProcessable(before) && IsGap(gap)
    ensures var ps := before + gap + WireResponses(Responses(r, pmtu), qp, local);
            AllProcessable(ps) && CommandsOf(d, ps, qp) == CommandsOf(d, before, qp) + o + g
    ensures Tiles(g, local, r.dma_length)
  {
    var last := WireResponses(Responses(r, pmtu), qp, local);
    var d1 := StateAfter(d, before, qp);
    var d2 := StateAfter(d1, gap, qp);
    ReadTiles(r, pmtu, qp, local, d2);
    GapPasses(gap);
    hide Responses, WireResponses, Receive, Tiles, CommandsOf, StateAfter, Processable, Popped, IsGap;
    BothPass(before, gap);
    BothPass(before + gap, last);
    hide AllProcessable;
    InTwoParts(d, before, gap, qp);
    InTwoParts(d, before + gap, last, qp);
    o, g := CommandsOf(d1, gap, qp), CommandsOf(d2, last, qp);
  }

  lemma BothPass(a: seq<RxPacket>, b: seq<RxPacket>)
    requires AllProcessable(a) && AllProcessable(b)
    ensures AllProcessable(a + b)
  {
  }

  lemma NothingWired(d: DmaState, pmtu: nat, qp: nat)
    requires 0 < pmtu
    ensures WireReads([], [], pmtu, qp, []) == [] && AllProcessable([]) && CommandsOf(d, [], qp) == []
  {
    NoResponses(d, qp, 0);
    assert WireResponses([], qp, 0) == [];
  }

  /** Every answer is written to the address that it took, whatever comes before it. */
  lemma {:induction false} AnswersTile(d: DmaState, gaps: seq<seq<RxPacket>>, rs: seq<Request>, pmtu: nat, qp: nat,
                                       locals: seq<nat>)
    returns (others: seq<seq<WriteCmd>>, groups: seq<seq<WriteCmd>>)
    requires 0 < pmtu && pmtu + 48 < 65536 && |gaps| == |locals| == |rs| && AreGaps(gaps)
    requires forall i :: 0 <= i < |rs| ==> Writable(rs[i], locals[i])
    ensures AllProcessable(WireReads(gaps, rs, pmtu, qp, locals))
    ensures |others| == |rs| && GroupsTile(groups, rs, locals)
    ensures CommandsOf(d, WireReads(gaps, rs, pmtu, qp, locals), qp) == Interleaved(others, groups)
    decreases |rs|
  {
    hide Responses, WireResponses, Tiles, CommandsOf, AllProcessable, WireReads, Interleaved, Writable, IsGap;
    if rs == [] {
      NothingWired(d, pmtu, qp);
      assert gaps == [] && locals == [];
      others, groups := [], [];
      NothingInterleaved();
    } else {
      var n := |rs| - 1;
      var others0, groups0 := AnswersTile(d, gaps[..n], rs[..n], pmtu, qp, locals[..n]);
      assert IsGap(gaps[n]) && Writable(rs[n], locals[n]);
      LastRead(gaps, rs, pmtu, qp, locals);
      var before := WireReads(gaps[..n], rs[..n], pmtu, qp, locals[..n]);
      var o, g := LastTiles(d, before, gaps[n], rs[n], pmtu, qp, locals[n]);
      LastGroup(others0, groups0, o, g);
      others, groups := others0 + [o], groups0 + [g];
      OneMoreGroup(groups0, g, rs, locals);
    }
  }

  lemma NothingInterleaved()
    ensures Interleaved([], []) == []
  {
  }

  lemma OneMoreGroup(groups: seq<seq<WriteCmd>>, g: seq<WriteCmd>, rs: seq<Request>, locals: seq<nat>)
    requires |locals| == |rs| && rs != []
    requires GroupsTile(groups, rs[..|rs| - 1], locals[..|rs| - 1])
    requires Tiles(g, locals[|rs| - 1], rs[|rs| - 1].dma_length)
    ensures GroupsTile(groups + [g], rs, locals)
  {
    hide Tiles;
    var n := |rs| - 1;
    forall i | 0 <= i < |rs|
      ensures Tiles((groups + [g])[i], locals[i], rs[i].dma_length)
    {
      if i < n {
        assert Tiles(groups[i], locals[..n][i], rs[..n][i].dma_length);
      }
    }
  }

  /** The fields of a request have the widths of the source. */
  predicate FieldsFit(m: TxMeta)
  {
    m.local_vaddr < ADDRESSES && m.remote_vaddr < ADDRESSES && m.length < 0x1_0000_0000
  }

  // ---------------------------------------------------------------- the condition

  /**
   * From the requests to the memory. requests are all that local_req_handler took, sent their packets as the other side
   * gets them, rs the reads of queue pair qp that it has answered so far. The answers arrive one after the other, with
   * other packets of the queue pair between them, and take their addresses from the queue. Answer i is then written to
   * the address of the i-th read that was requested. So all answers reach the ranges that their own reads named if and
   * only if these addresses are those of the reads that are answered.
   */
  lemma AnswersExact(init: DmaState, requests: seq<TxMeta>, sent: seq<RxPacket>, rs: seq<Request>, log: seq<RxPacket>,
                     gaps: seq<seq<RxPacket>>, tail: seq<RxPacket>, locals: seq<nat>, pmtu: nat, qp: nat)
    returns (others: seq<seq<WriteCmd>>, groups: seq<seq<WriteCmd>>)
    requires 0 < pmtu && pmtu + 48 < 65536 && forall i :: 0 <= i < |requests| ==> FieldsFit(requests[i])
    requires WiredAs(sent, AllSegments(requests, pmtu), pmtu)
    requires AllProcessable(Passing(sent)) && rs <= OfQueue(Reads(Passing(sent)), qp)
    requires AllProcessable(log) && |gaps| == |locals| == |rs| && AreGaps(gaps) && IsGap(tail)
    requires Own(log, qp) == WireReads(gaps, rs, pmtu, qp, locals) + tail
    requires Popped(Own(log, qp)) <= QueueOf(AllReadAddrs(requests), qp)
    ensures |others| == |groups| == |rs| <= |AnsweredBy(Served(requests), qp)| <= |ReadsBy(requests, qp)|
    ensures Interleaved(others, groups) <= CommandsOf(init, log, qp)
    ensures forall i :: 0 <= i < |rs| ==>
              Tiles(groups[i], ReadsBy(requests, qp)[i].local_vaddr, AnsweredBy(Served(requests), qp)[i].length)
    ensures (forall i :: 0 <= i < |rs| ==>
               var m := AnsweredBy(Served(requests), qp)[i]; Tiles(groups[i], m.local_vaddr, m.length))
            <==> (forall i :: 0 <= i < |rs| ==>
                    ReadsBy(requests, qp)[i].local_vaddr == AnsweredBy(Served(requests), qp)[i].local_vaddr)
  {
    var asked, answered := ReadsBy(requests, qp), AnsweredBy(Served(requests), qp);
    LocalsAre(requests, sent, rs, gaps, tail, locals, pmtu, qp, Own(log, qp));
    hide WireReads, Own, QueueOf, ReadsBy, AllReadAddrs, CommandsOf, StateAfter, Tiles, Popped, Served, AnsweredBy,
         OfQueue, Reads, Passing, AllSegments, WiredAs, Interleaved, AllProcessable, AreGaps, IsGap;
    assert IsGap(tail) ==> AllProcessable(tail) by { GapPasses(tail); }
    others, groups := AnswersTile(init, gaps, rs, pmtu, qp, locals);
    OnlyOwnPackets(init, log, qp);
    InTwoParts(init, WireReads(gaps, rs, pmtu, qp, locals), tail, qp);
    forall i | 0 <= i < |rs|
      ensures Tiles(groups[i], asked[i].local_vaddr, answered[i].length)
      ensures Tiles(groups[i], answered[i].local_vaddr, answered[i].length)
              <==> asked[i].local_vaddr == answered[i].local_vaddr
    {
      OneStart(groups[i], asked[i].local_vaddr, answered[i].local_vaddr, answered[i].length);
    }
  }

  lemma GapPasses(ps: seq<RxPacket>)
    ensures IsGap(ps) ==> AllProcessable(ps)
  {
  }

  /** The addresses that answers take are those of the reads that were asked for, one after the other. */
  lemma LocalsAre(requests: seq<TxMeta>, sent: seq<RxPacket>, rs: seq<Request>, gaps: seq<seq<RxPacket>>,
                  tail: seq<RxPacket>, locals: seq<nat>, pmtu: nat, qp: nat, own: seq<RxPacket>)
    requires 0 < pmtu && (forall i :: 0 <= i < |requests| ==> FieldsFit(requests[i]))
    requires WiredAs(sent, AllSegments(requests, pmtu), pmtu)
    requires AllProcessable(Passing(sent)) && rs <= OfQueue(Reads(Passing(sent)), qp)
    requires |gaps| == |locals| == |rs| && AreGaps(gaps) && IsGap(tail)
    requires own == WireReads(gaps, rs, pmtu, qp, locals) + tail && Popped(own) <= QueueOf(AllReadAddrs(requests), qp)
    ensures var asked, answered := ReadsBy(requests, qp), AnsweredBy(Served(requests), qp);
            && |rs| <= |answered| <= |asked|
            && forall i :: 0 <= i < |rs| ==>
                 && locals[i] == asked[i].local_vaddr < ADDRESSES
                 && 0 < rs[i].dma_length == answered[i].length < 0x1_0000_0000
  {
    hide WireReads, QueueOf, ReadsBy, AllReadAddrs, Popped, Served, AnsweredBy, OfQueue, Reads, Passing, AllSegments,
         WiredAs, AllProcessable, AreGaps;
    AnsweredLengths(requests, sent, rs, pmtu, qp);
    AskedFit(requests, qp);
    ServedAreAsked(requests, qp);
    AllPopped(gaps, rs, pmtu, qp, locals);
    LocalsFirst(WireReads(gaps, rs, pmtu, qp, locals), tail);
    QueueIsReads(requests, qp);
    hide *;
    ThroughQueue(locals, QueueOf(AllReadAddrs(requests), qp), ReadsBy(requests, qp));
  }

  /** The addresses that are taken are the first of the queue. */
  lemma LocalsFirst(ps: seq<RxPacket>, tail: seq<RxPacket>)
    requires IsGap(tail)
    ensures Popped(ps + tail) == Popped(ps)
  {
    PoppedInTwo(ps, tail);
    assert Popped(ps) + [] == Popped(ps);
  }

  lemma ThroughQueue(locals: seq<nat>, queue: seq<nat>, asked: seq<TxMeta>)
    requires locals <= queue && |queue| == |asked|
    requires forall i :: 0 <= i < |queue| ==> queue[i] == asked[i].local_vaddr
    requires forall i :: 0 <= i < |asked| ==> FieldsFit(asked[i])
    ensures forall i :: 0 <= i < |locals| ==> locals[i] == asked[i].local_vaddr < ADDRESSES
  {
    forall i | 0 <= i < |locals|
      ensures locals[i] == asked[i].local_vaddr < ADDRESSES
    {
      assert locals[i] == queue[i] && FieldsFit(asked[i]);
    }
  }

  /** Every answer has the length of its read, and is not empty. */
  lemma AnsweredLengths(requests: seq<TxMeta>, sent: seq<RxPacket>, rs: seq<Request>, pmtu: nat, qp: nat)
    requires 0 < pmtu && (forall i :: 0 <= i < |requests| ==> FieldsFit(requests[i]))
    requires WiredAs(sent, AllSegments(requests, pmtu), pmtu)
    requires AllProcessable(Passing(sent)) && rs <= OfQueue(Reads(Passing(sent)), qp)
    ensures var answered := AnsweredBy(Served(requests), qp);
            |rs| <= |answered|
            && forall i :: 0 <= i < |rs| ==> 0 < rs[i].dma_length == answered[i].length < 0x1_0000_0000
  {
    hide AnsweredBy, OfQueue, Reads, Passing, AllSegments, WiredAs, AllProcessable;
    PassingIsServed(requests, sent, pmtu, qp);
    AnsweredFit(Served(requests), qp);
    hide Served;
    forall i | 0 <= i < |rs|
      ensures var m := AnsweredBy(Served(requests), qp)[i]; 0 < rs[i].dma_length == m.length < 0x1_0000_0000
    {
      assert rs[i] == OfQueue(Reads(Passing(sent)), qp)[i];
      assert FieldsFit(AnsweredBy(Served(requests), qp)[i]) && IsAnswered(AnsweredBy(Served(requests), qp)[i]);
    }
  }

  lemma OneStart(cmds: seq<WriteCmd>, a: nat, b: nat, n: nat)
    requires Tiles(cmds, a, n) && 0 < n
    ensures Tiles(cmds, b, n) <==> a == b
  {
  }

  lemma {:induction false} AnsweredFit(requests: seq<TxMeta>, qp: nat)
    requires forall i :: 0 <= i < |requests| ==> FieldsFit(requests[i])
    ensures forall i :: 0 <= i < |AnsweredBy(requests, qp)| ==>
              FieldsFit(AnsweredBy(requests, qp)[i]) && IsAnswered(AnsweredBy(requests, qp)[i])
    decreases |requests|
  {
    if requests != [] {
      AnsweredFit(requests[..|requests| - 1], qp);
    }
  }

  lemma {:induction false} AskedFit(requests: seq<TxMeta>, qp: nat)
    requires forall i :: 0 <= i < |requests| ==> FieldsFit(requests[i])
    ensures forall i :: 0 <= i < |ReadsBy(requests, qp)| ==> FieldsFit(ReadsBy(requests, qp)[i])
    decreases |requests|
  {
    if requests != [] {
      AskedFit(requests[..|requests| - 1], qp);
    }
  }

  lemma {:induction false} AnsweredAreAsked(requests: seq<TxMeta>, qp: nat)
    ensures |AnsweredBy(requests, qp)| <= |ReadsBy(requests, qp)|
    decreases |requests|
  {
    if requests != [] {
      AnsweredAreAsked(requests[..|requests| - 1], qp);
    }
  }

  lemma {:induction false} LaterRequests(front: seq<TxMeta>, rest: seq<TxMeta>, qp: nat)
    ensures ReadsBy(front, qp) <= ReadsBy(front + rest, qp) && AnsweredBy(front, qp) <= AnsweredBy(front + rest, qp)
    decreases |rest|
  {
    if rest == [] {
      assert front + rest == front;
    } else {
      var n := |rest| - 1;
      assert (front + rest)[..|front + rest| - 1] == front + rest[..n];
      LaterRequests(front, rest[..n], qp);
    }
  }

  lemma ServedAreAsked(requests: seq<TxMeta>, qp: nat)
    ensures |AnsweredBy(Served(requests), qp)| <= |ReadsBy(requests, qp)|
  {
    var served := Served(requests);
    assert served + requests[|served|..] == requests;
    LaterRequests(served, requests[|served|..], qp);
    AnsweredAreAsked(served, qp);
  }

  /** The condition holds whenever no read without an answer comes before one with. */
  lemma {:induction false} NoneSkipped(requests: seq<TxMeta>, qp: nat)
    requires AnswersFirst(requests, qp)
    ensures AnsweredBy(requests, qp) <= ReadsBy(requests, qp)
    ensures AllAnswered(requests, qp) ==> AnsweredBy(requests, qp) == ReadsBy(requests, qp)
    decreases |requests|
  {
    if requests != [] {
      var n := |requests| - 1;
      NoneSkipped(requests[..n], qp);
      if IsRead(requests[n], qp) && IsAnswered(requests[n]) {
        assert AllAnswered(requests[..n], qp);
      }
    }
  }

  ghost predicate AnswersFirst(requests: seq<TxMeta>, qp: nat)
  {
    forall i, j :: 0 <= i < j < |requests| ==>
      IsRead(requests[i], qp) && IsRead(requests[j], qp) && IsAnswered(requests[j]) ==> IsAnswered(requests[i])
  }

  ghost predicate AllAnswered(requests: seq<TxMeta>, qp: nat)
  {
    forall i :: 0 <= i < |requests| ==> IsRead(requests[i], qp) ==> IsAnswered(requests[i])
  }

  predicate IsRead(m: TxMeta, qp: nat)
  {
    !IsWrite(m.op) && m.qpn == qp
  }

  /** A read of no bytes, and one of 64 bytes: the answer to the second goes to the address of the first. */
  lemma EmptyReadShifts(d: DmaState, remote: nat)
    requires remote < ADDRESSES
    ensures var requests := [TxMeta(AppRead, 0, 0x1000, remote, 0), TxMeta(AppRead, 0, 0x2000, remote, 64)];
            var answer := WireResponse(RespEvent(ReadRespOnly, 0, 64, 1), 0, 0x1000);
            && QueueOf(AllReadAddrs(requests), 0) == [0x1000, 0x2000]
            && AnsweredBy(Served(requests), 0) == [requests[1]]
            && Popped([answer]) == [0x1000] && AllProcessable([answer])
            && CommandsOf(d, [answer], 0) == [WriteCmd(0x1000, 64, false)]
  {
    var a, b := TxMeta(AppRead, 0, 0x1000, remote, 0), TxMeta(AppRead, 0, 0x2000, remote, 64);
    var requests := [a] + [b];
    assert requests == [a, b];
    RequestsNext([], a);
    RequestsNext([a], b);
    assert [] + [a] == [a];
    assert AllReadAddrs(requests) == [(0, 0x1000)] + [(0, 0x2000)];
    QueueNext([], (0, 0x1000), 0);
    QueueNext([(0, 0x1000)], (0, 0x2000), 0);
    assert [] + [(0, 0x1000)] == [(0, 0x1000 as nat)];
    assert requests[..1] == [a] && [a][..0] == [];
    assert Served(requests) == requests;
    assert AnsweredBy([a], 0) == [];
    var answer := WireResponse(RespEvent(ReadRespOnly, 0, 64, 1), 0, 0x1000);
    OneResponse(d, RespEvent(ReadRespOnly, 0, 64, 1), 0, 0x1000);
    OnePacket(d, answer, 0);
    assert [answer][1..] == [];
  }
}

/** The requester: local_req_handler cuts requests into packet events, generate_exh gives every event its header. */
module LocalReq {
  import opened Powers
  import opened Psn

  datatype AppOp = AppRead | AppWrite | AppPart | AppPointer | AppReadConsistent

  datatype TxMeta = TxMeta(op: AppOp, qpn: nat, local_vaddr: nat, remote_vaddr: nat, length: nat)

  /** The event of a packet that is to be sent. */
  datatype TxEvent = TxEvent(op: OpCode, qpn: nat, addr: nat, length: nat)

  datatype MemCmd = MemCmd(qpn: nat, addr: nat, len: nat)

  const ADDRESSES: nat := 0x1_0000_0000_0000

  predicate IsWrite(op: AppOp)
  {
    op.AppWrite? || op.AppPart?
  }

  /** The packets of a request from the second one on. */
  function Rest(m: TxMeta, pmtu: nat): seq<TxEvent>
    requires 0 < pmtu
    decreases m.length
  {
    if m.length <= pmtu
    then [TxEvent(if m.op.AppPart? then PartLast else WriteLast, m.qpn, m.remote_vaddr, m.length)]
    else
      [TxEvent(if m.op.AppPart? then PartMiddle else WriteMiddle, m.qpn, m.remote_vaddr, pmtu)]
      + Rest(Shortened(m, pmtu), pmtu)
  }

  function Shortened(m: TxMeta, pmtu: nat): TxMeta
    requires pmtu <= m.length
  {
    m.(local_vaddr := (m.local_vaddr + pmtu) % ADDRESSES, remote_vaddr := (m.remote_vaddr + pmtu) % ADDRESSES,
       length := m.length - pmtu)
  }

  /**
   * All packets of a request; the first one carries the whole length. A read that chases pointers has none, as in the
   * build without them.
   */
  function Segments(m: TxMeta, pmtu: nat): seq<TxEvent>
    requires 0 < pmtu
  {
    match m.op
    case AppRead => [TxEvent(ReadRequest, m.qpn, m.remote_vaddr, m.length)]
    case AppReadConsistent => [TxEvent(ReadConsistentRequest, m.qpn, m.remote_vaddr, m.length)]
    case AppPointer => []
    case _ =>
      if m.length <= pmtu
      then [TxEvent(if m.op.AppPart? then PartOnly else WriteOnly, m.qpn, m.remote_vaddr, m.length)]
      else
        [TxEvent(if m.op.AppPart? then PartFirst else WriteFirst, m.qpn, m.remote_vaddr, m.length)]
        + Rest(Shortened(m, pmtu), pmtu)
  }

  function AllSegments(requests: seq<TxMeta>, pmtu: nat): seq<TxEvent>
    requires 0 < pmtu
  {
    if requests == [] then []
    else AllSegments(requests[..|requests| - 1], pmtu) + Segments(requests[|requests| - 1], pmtu)
  }

  lemma AllSegmentsNext(requests: seq<TxMeta>, m: TxMeta, pmtu: nat)
    requires 0 < pmtu
    ensures AllSegments(requests + [m], pmtu) == AllSegments(requests, pmtu) + Segments(m, pmtu)
  {
    assert (requests + [m])[..|requests|] == requests;
  }

  /** What is asked of the memory: a write's bytes, all at once. */
  function AllMemCmds(requests: seq<TxMeta>): seq<MemCmd>
  {
    if requests == [] then []
    else
      var m := requests[|requests| - 1];
      AllMemCmds(requests[..|requests| - 1]) + (if IsWrite(m.op) then [MemCmd(m.qpn, m.local_vaddr, m.length)] else [])
  }

  /** Where the responses to reads are to go. */
  function AllReadAddrs(requests: seq<TxMeta>): seq<(nat, nat)>
  {
    if requests == [] then []
    else
      var m := requests[|requests| - 1];
      AllReadAddrs(requests[..|requests| - 1]) + (if IsWrite(m.op) then [] else [(m.qpn, m.local_vaddr)])
  }

  lemma RequestsNext(requests: seq<TxMeta>, m: TxMeta)
    ensures AllMemCmds(requests + [m]) ==
            AllMemCmds(requests) + (if IsWrite(m.op) then [MemCmd(m.qpn, m.local_vaddr, m.length)] else [])
    ensures AllReadAddrs(requests + [m])
            == AllReadAddrs(requests) + (if IsWrite(m.op) then [] else [(m.qpn, m.local_vaddr)])
  {
    assert (requests + [m])[..|requests|] == requests;
  }

  /**
   * A write of length > 0 gives ceil(length / pmtu) packets: ONLY, or FIRST MIDDLE* LAST. Each names where its bytes
   * go; the first one carries the whole length, the ones in the middle are full, and the last one has what is left.
   */
  lemma SegmentsAre(m: TxMeta, pmtu: nat)
    requires 0 < pmtu && IsWrite(m.op) && 0 < m.length
    ensures var evs, n := Segments(m, pmtu), (m.length + (pmtu - 1)) / pmtu;
            && |evs| == n && 0 < n && (n - 1) * pmtu < m.length <= n * pmtu
            && (n == 1 ==> evs[0].op == if m.op.AppPart? then PartOnly else WriteOnly)
            && (n > 1 ==> evs[0].op == if m.op.AppPart? then PartFirst else WriteFirst)
            && evs[0].qpn == m.qpn && evs[0].addr == m.remote_vaddr && evs[0].length == m.length
            && forall k :: 0 < k < n ==>
                 && evs[k].qpn == m.qpn && evs[k].addr == (m.remote_vaddr + k * pmtu) % 0x1_0000_0000_0000
                 && (k < n - 1 ==>
                       evs[k].length == pmtu && evs[k].op == if m.op.AppPart? then PartMiddle else WriteMiddle)
                 && (k == n - 1 ==>
                       && evs[k].length == m.length - k * pmtu
                       && evs[k].op == if m.op.AppPart? then PartLast else WriteLast)
  {
    hide Rest;
    PacketCount(m.length, pmtu);
    if m.length > pmtu {
      PartsAre(m, pmtu);
      hide Segments;
    }
  }

  lemma PartsAre(m: TxMeta, pmtu: nat)
    requires 0 < pmtu < m.length && IsWrite(m.op)
    ensures var evs, n := Segments(m, pmtu), (m.length + (pmtu - 1)) / pmtu;
            |evs| == n && forall k :: 0 < k < n ==> IsPart(m, pmtu, evs[k], k, n)
  {
    var n := (m.length + (pmtu - 1)) / pmtu;
    PacketCount(m.length, pmtu);
    var evs, rest := Segments(m, pmtu), Rest(Shortened(m, pmtu), pmtu);
    CountMore(m.length, pmtu);
    RestIs(m, Shortened(m, pmtu), pmtu, 1, n);
    assert forall k :: 0 < k < n ==> evs[k] == rest[k - 1];
    hide Segments, Rest, IsPart;
  }

  /** Packet k of n, behind the first one. */
  predicate IsPart(m: TxMeta, pmtu: nat, ev: TxEvent, k: nat, n: nat)
    requires 0 < pmtu
  {
    && ev.qpn == m.qpn && ev.addr == (m.remote_vaddr + k * pmtu) % 0x1_0000_0000_0000
    && (k < n - 1 ==> ev.length == pmtu && ev.op == if m.op.AppPart? then PartMiddle else WriteMiddle)
    && (k == n - 1 ==> ev.length == m.length - k * pmtu && ev.op == if m.op.AppPart? then PartLast else WriteLast)
  }

  lemma PacketCount(length: nat, pmtu: nat)
    requires 0 < pmtu && 0 < length
    ensures var n := (length + (pmtu - 1)) / pmtu; 0 < n && (n - 1) * pmtu < length <= n * pmtu
    ensures length <= pmtu ==> (length + (pmtu - 1)) / pmtu == 1
  {
    var v := length + (pmtu - 1);
    var n, r := v / pmtu, v % pmtu;
    assert v == pmtu * n + r && n * pmtu == pmtu * n;
    assert n == 0 ==> v == r;
    assert (n - 1) * pmtu == n * pmtu - pmtu;
    if length <= pmtu {
      DivUnique(v, pmtu, 1, length - 1);
    }
  }

  lemma CountMore(length: nat, pmtu: nat)
    requires 0 < pmtu < length
    ensures (length + (pmtu - 1)) / pmtu == (length - pmtu + (pmtu - 1)) / pmtu + 1
  {
    var v := length - pmtu + (pmtu - 1);
    var q, r := v / pmtu, v % pmtu;
    assert v == pmtu * q + r && pmtu * (q + 1) == pmtu * q + pmtu;
    DivUnique(length + (pmtu - 1), pmtu, q + 1, r);
  }

  /** What is left after k packets gives the others. */
  lemma {:induction false} RestIs(m: TxMeta, left: TxMeta, pmtu: nat, k: nat, n: nat)
    requires 0 < pmtu && 0 < k && 0 < left.length && left.op == m.op && left.qpn == m.qpn
    requires k * pmtu + left.length == m.length && left.remote_vaddr == (m.remote_vaddr + k * pmtu) % ADDRESSES
    requires n == k + (left.length + (pmtu - 1)) / pmtu
    ensures |Rest(left, pmtu)| == n - k
    ensures forall i :: 0 <= i < n - k ==> IsPart(m, pmtu, Rest(left, pmtu)[i], k + i, n)
    decreases left.length
  {
    hide IsPart;
    PacketCount(left.length, pmtu);
    if left.length <= pmtu {
      assert n == k + 1;
      PartIs(m, pmtu, Rest(left, pmtu)[0], k, n);
    } else {
      var next, evs := Shortened(left, pmtu), Rest(left, pmtu);
      assert evs == [evs[0]] + Rest(next, pmtu);
      CountMore(left.length, pmtu);
      PacketCount(next.length, pmtu);
      OneMore(k, pmtu);
      PartIs(m, pmtu, evs[0], k, n);
      NextAddress(m.remote_vaddr, k * pmtu, pmtu);
      hide Rest;
      RestIs(m, next, pmtu, k + 1, n);
      forall i | 0 <= i < n - k
        ensures IsPart(m, pmtu, evs[i], k + i, n)
      {
        if i > 0 {
          assert evs[i] == Rest(next, pmtu)[i - 1];
        }
      }
    }
  }

  lemma PartIs(m: TxMeta, pmtu: nat, ev: TxEvent, k: nat, n: nat)
    requires 0 < pmtu && ev.qpn == m.qpn && ev.addr == (m.remote_vaddr + k * pmtu) % ADDRESSES && k < n
    requires k < n - 1 ==> ev.length == pmtu && ev.op == if m.op.AppPart? then PartMiddle else WriteMiddle
    requires k == n - 1 ==>
               ev.length == m.length - k * pmtu && ev.op == if m.op.AppPart? then PartLast else WriteLast
    ensures IsPart(m, pmtu, ev, k, n)
  {
  }

  lemma NextAddress(a: nat, b: nat, c: nat)
    ensures ((a + b) % ADDRESSES + c) % ADDRESSES == (a + (b + c)) % ADDRESSES
  {
  }

  /** Reads are one packet each; one that chases pointers has none. */
  lemma ReadSegments(m: TxMeta, pmtu: nat)
    requires 0 < pmtu && !IsWrite(m.op)
    ensures m.op.AppRead? ==> Segments(m, pmtu) == [TxEvent(ReadRequest, m.qpn, m.remote_vaddr, m.length)]
    ensures m.op.AppReadConsistent? ==>
              Segments(m, pmtu) == [TxEvent(ReadConsistentRequest, m.qpn, m.remote_vaddr, m.length)]
    ensures m.op.AppPointer? ==> Segments(m, pmtu) == []
  {
  }

  class LocalReqHandler {
    const pmtu: nat
    var generating: bool
    var meta: TxMeta
    // FIFOs
    var txMetaIn: seq<TxMeta>
    var memCmdFifo: seq<MemCmd>
    var readAddrFifo: seq<(nat, nat)>
    var txEvents: seq<TxEvent>
    ghost var taken: seq<TxMeta>

    /** The events so far, and those that are still to come of the request at hand, are those of all requests taken. */
    ghost predicate Valid()
      reads this
    {
      && 0 < pmtu
      && txEvents + (if generating then Rest(meta, pmtu) else []) == AllSegments(taken, pmtu)
      && memCmdFifo == AllMemCmds(taken) && readAddrFifo == AllReadAddrs(taken)
    }

    constructor (pmtu: nat)
      requires 0 < pmtu
      ensures Valid() && this.pmtu == pmtu && txEvents == [] && taken == [] && txMetaIn == [] && !generating
    {
      this.pmtu := pmtu;
      generating, meta := false, TxMeta(AppRead, 0, 0, 0, 0);
      txMetaIn, memCmdFifo, readAddrFifo, txEvents, taken := [], [], [], [], [];
    }

    /** One step: it takes a request, or continues the one at hand. Either gives an event, if it is no pointer read. */
    method Step()
      requires Valid()
      modifies this
      ensures Valid() && taken + txMetaIn == old(taken + txMetaIn)
      ensures old(txEvents) <= txEvents
      ensures if old(generating) then |txEvents| == |old(txEvents)| + 1 && txMetaIn == old(txMetaIn)
              else if old(txMetaIn) != [] then
                && txMetaIn == old(txMetaIn)[1..]
                && |txEvents| == |old(txEvents)| + (if old(txMetaIn)[0].op.AppPointer? then 0 else 1)
              else txEvents == old(txEvents)
    {
      hide Valid;
      if !generating {
        if txMetaIn != [] {
          TakeRequest();
        }
      } else {
        Generate();
      }
    }

    /**
     * A write asks the memory once, for all its bytes. A read leaves its local address, a pointer read does only that.
     */
    method TakeRequest()
      requires Valid() && !generating && txMetaIn != []
      modifies this
      ensures Valid() && taken + txMetaIn == old(taken + txMetaIn)
      ensures old(txEvents) <= txEvents && txMetaIn == old(txMetaIn)[1..]
      ensures |txEvents| == |old(txEvents)| + (if old(txMetaIn)[0].op.AppPointer? then 0 else 1)
      ensures var m := old(txMetaIn)[0];
              if m.op.AppWrite? || m.op.AppPart? then
                && memCmdFifo == old(memCmdFifo) + [MemCmd(m.qpn, m.local_vaddr, m.length)]
                && readAddrFifo == old(readAddrFifo)
              else memCmdFifo == old(memCmdFifo) && readAddrFifo == old(readAddrFifo) + [(m.qpn, m.local_vaddr)]
    {
      hide AllSegments, Rest, AllMemCmds, AllReadAddrs;
      meta := txMetaIn[0];
      ghost var m := meta;
      AllSegmentsNext(taken, m, pmtu);
      RequestsNext(taken, m);
      taken := taken + [m];
      txMetaIn := txMetaIn[1..];
      ghost var events: seq<TxEvent> := [];
      if meta.op.AppRead? || meta.op.AppPointer? || meta.op.AppReadConsistent? {
        if !meta.op.AppPointer? {
          var op := if meta.op.AppRead? then ReadRequest else ReadConsistentRequest;
          events := [TxEvent(op, meta.qpn, meta.remote_vaddr, meta.length)];
          txEvents := txEvents + [TxEvent(op, meta.qpn, meta.remote_vaddr, meta.length)];
        }
        readAddrFifo := readAddrFifo + [(meta.qpn, meta.local_vaddr)];
      } else {
        var laddr, raddr, dmaLength := meta.local_vaddr, meta.remote_vaddr, meta.length;
        var writeOpcode := if meta.op.AppPart? then PartOnly else WriteOnly;
        if meta.length > pmtu {
          meta := meta.(local_vaddr := (meta.local_vaddr + pmtu) % ADDRESSES,
                        remote_vaddr := (meta.remote_vaddr + pmtu) % ADDRESSES, length := meta.length - pmtu);
          writeOpcode := if meta.op.AppPart? then PartFirst else WriteFirst;
          generating := true;
        }
        memCmdFifo := memCmdFifo + [MemCmd(meta.qpn, laddr, dmaLength)];
        events := [TxEvent(writeOpcode, meta.qpn, raddr, dmaLength)];
        txEvents := txEvents + [TxEvent(writeOpcode, meta.qpn, raddr, dmaLength)];
      }
      assert Segments(m, pmtu) == events + (if generating then Rest(meta, pmtu) else []);
    }

    /** The next packet of a write. */
    method Generate()
      requires Valid() && generating
      modifies this
      ensures Valid() && taken == old(taken) && txMetaIn == old(txMetaIn)
      ensures old(txEvents) <= txEvents && |txEvents| == |old(txEvents)| + 1
    {
      hide AllSegments, AllMemCmds, AllReadAddrs;
      var raddr, length := meta.remote_vaddr, meta.length;
      var writeOpcode;
      if meta.length > pmtu {
        length := pmtu;
        meta := meta.(local_vaddr := (meta.local_vaddr + pmtu) % ADDRESSES,
                      remote_vaddr := (meta.remote_vaddr + pmtu) % ADDRESSES, length := meta.length - pmtu);
        writeOpcode := if meta.op.AppPart? then PartMiddle else WriteMiddle;
      } else {
        writeOpcode := if meta.op.AppPart? then PartLast else WriteLast;
        generating := false;
      }
      txEvents := txEvents + [TxEvent(writeOpcode, meta.qpn, raddr, length)];
    }
  }

  // ---------------------------------------------------------------- headers

  datatype Header = Reth(vaddr: nat, length: nat) | Aeth(isNak: bool) | NoHeader

  /** A packet: its opcode, its extension header, and the length that generate_exh hands to the UDP layer. */
  datatype Packet = Packet(op: OpCode, qpn: nat, header: Header, udpLen: nat)

  /** What generate_exh does for a packet of a request, in 16-bit arithmetic. */
  function GenerateExh(ev: TxEvent, pmtu: nat): Packet
    requires IsWriteOrPart(ev.op) || ev.op.ReadRequest? || ev.op.ReadConsistentRequest?
  {
    match ev.op
    case WriteOnly => Packet(ev.op, ev.qpn, Reth(ev.addr, ev.length), (12 + 16 + ev.length + 4) % 65536)
    case PartOnly => Packet(ev.op, ev.qpn, Reth(ev.addr, ev.length), (12 + 16 + ev.length + 4) % 65536)
    case WriteFirst => Packet(ev.op, ev.qpn, Reth(ev.addr, ev.length), (12 + 16 + pmtu + 4) % 65536)
    case PartFirst => Packet(ev.op, ev.qpn, Reth(ev.addr, ev.length), (12 + 16 + pmtu + 4) % 65536)
    case ReadRequest => Packet(ev.op, ev.qpn, Reth(ev.addr, ev.length), 12 + 16 + 0 + 4)
    case ReadConsistentRequest => Packet(ev.op, ev.qpn, Reth(ev.addr, ev.length), 12 + 16 + 0 + 4)
    case _ => Packet(ev.op, ev.qpn, NoHeader, (12 + ev.length + 4) % 65536)
  }
}

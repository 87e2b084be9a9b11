/**
 * Something in progress, a write or the answer to a read, and another packet of its queue pair: msn_table has one
 * address per queue pair, so the rest goes to wherever that packet leaves it.
 */
module Intruder {
  import opened Psn
  import opened LocalReq
  import opened RxExh

  // ---------------------------------------------------------------- packets that go on

  /** Packets that go on where the one before ended; only the last packet of an answer leaves the address alone. */
  ghost predicate AllContinue(ps: seq<RxPacket>, qp: nat)
  {
    forall k :: 0 <= k < |ps| ==> Continues(ps[k], qp) && (k < |ps| - 1 ==> !ps[k].op.ReadRespLast?)
  }

  predicate Continues(p: RxPacket, qp: nat)
  {
    && p.qpn == qp && Payload(p) > 0
    && match p.op
       case WriteMiddle | WriteLast | ReadRespMiddle => p.header.NoHeader?
       case ReadRespLast => p.header.Aeth?
       case _ => false
  }

  /** The bytes behind the headers, and the checksum, as the state machine computes them for a packet's opcode. */
  function Payload(p: RxPacket): nat
  {
    Minus(p.udpLength, if StartsWrite(p.op) then 40 else if StartsResponse(p.op) || p.op.ReadRespLast? then 28 else 24)
  }

  function Bytes(ps: seq<RxPacket>): nat
  {
    if ps == [] then 0 else Payload(ps[0]) + Bytes(ps[1..])
  }

  lemma ContinueOnce(d: DmaState, p: RxPacket, qp: nat)
    requires Continues(p, qp)
    ensures Processable(p) && Receive(d, p).1 == [WriteCmd(d.vaddr, Payload(p), false)]
    ensures Receive(d, p).0.vaddr == if p.op.ReadRespLast? then d.vaddr else Plus64(d.vaddr, Payload(p))
  {
  }

  lemma AllPass(ps: seq<RxPacket>, qp: nat)
    requires AllContinue(ps, qp)
    ensures AllProcessable(ps)
  {
    forall k | 0 <= k < |ps|
      ensures Processable(ps[k])
    {
      ContinueOnce(DmaState(0, 0, 0), ps[k], qp);
    }
  }

  lemma FirstContinues(d: DmaState, ps: seq<RxPacket>, qp: nat)
    requires AllContinue(ps, qp) && ps != []
    ensures AllProcessable(ps) && AllProcessable(ps[1..]) && AllContinue(ps[1..], qp) && Processable(ps[0])
    ensures var r := Receive(d, ps[0]); CommandsOf(d, ps, qp) == r.1 + CommandsOf(r.0, ps[1..], qp)
  {
    AllPass(ps, qp);
    hide Receive, Continues, CommandsOf, StateAfter, Processable;
    OnePacket(d, ps[0], qp);
    InTwoParts(d, [ps[0]], ps[1..], qp);
    assert [ps[0]] + ps[1..] == ps;
  }

  lemma NoneLeft(d: DmaState, qp: nat)
    ensures AllProcessable([]) && CommandsOf(d, [], qp) == [] && Bytes([]) == 0
  {
  }

  lemma OneTile(start: nat, n: nat)
    requires 0 < n
    ensures Tiles([WriteCmd(start, n, false)], start, n)
  {
    assert [WriteCmd(start, n, false)][1..] == [];
  }

  /** The first packet is written at the address in the table, and the others go on behind it. */
  lemma FirstTile(d: DmaState, ps: seq<RxPacket>, qp: nat) returns (d': DmaState, n: nat)
    requires AllContinue(ps, qp) && ps != []
    ensures n > 0 && Bytes(ps) == n + Bytes(ps[1..]) && AllContinue(ps[1..], qp)
    ensures AllProcessable(ps) && AllProcessable(ps[1..])
    ensures CommandsOf(d, ps, qp) == [WriteCmd(d.vaddr, n, false)] + CommandsOf(d', ps[1..], qp)
    ensures |ps| > 1 && d.vaddr + n < 0x1_0000_0000_0000_0000 ==> d'.vaddr == d.vaddr + n
  {
    hide CommandsOf, Receive, Continues, AllProcessable, Tiles;
    FirstContinues(d, ps, qp);
    d', n := Receive(d, ps[0]).0, Payload(ps[0]);
    ContinueOnce(d, ps[0], qp);
    PositivePayload(ps[0], qp);
    hide Payload;
  }

  lemma PositivePayload(p: RxPacket, qp: nat)
    requires Continues(p, qp)
    ensures Payload(p) > 0
  {
  }

  /** The rest goes on from the address in the table, wherever that is. */
  lemma {:induction false} RestFrom(d: DmaState, ps: seq<RxPacket>, qp: nat)
    requires AllContinue(ps, qp) && ps != []
    ensures AllProcessable(ps)
    ensures d.vaddr + Bytes(ps) < 0x1_0000_0000_0000_0000 ==> Tiles(CommandsOf(d, ps, qp), d.vaddr, Bytes(ps))
    decreases |ps|
  {
    hide CommandsOf, AllProcessable, AllContinue, Bytes, Tiles;
    var d', n := FirstTile(d, ps, qp);
    var rest, first := CommandsOf(d', ps[1..], qp), [WriteCmd(d.vaddr, n, false)];
    if |ps| == 1 {
      NoneLeft(d', qp);
      assert ps[1..] == [] && first + rest == first;
      OneTile(d.vaddr, n);
    } else {
      RestFrom(d', ps[1..], qp);
      if d.vaddr + Bytes(ps) < 0x1_0000_0000_0000_0000 {
        TilesMore(rest, d.vaddr, n, Bytes(ps));
      }
    }
  }

  lemma RestStart(d: DmaState, ps: seq<RxPacket>, qp: nat)
    requires AllContinue(ps, qp) && ps != []
    ensures AllProcessable(ps) && CommandsOf(d, ps, qp) != [] && CommandsOf(d, ps, qp)[0].addr == d.vaddr
  {
    FirstContinues(d, ps, qp);
    ContinueOnce(d, ps[0], qp);
    hide Receive, Payload, CommandsOf;
  }

  /** Only the address in the table matters for where the rest goes. */
  lemma {:induction false} SameAddress(d: DmaState, e: DmaState, ps: seq<RxPacket>, qp: nat)
    requires AllContinue(ps, qp) && d.vaddr == e.vaddr
    ensures AllProcessable(ps) && CommandsOf(d, ps, qp) == CommandsOf(e, ps, qp)
    decreases |ps|
  {
    AllPass(ps, qp);
    if ps != [] {
      FirstContinues(d, ps, qp);
      FirstContinues(e, ps, qp);
      ContinueOnce(d, ps[0], qp);
      ContinueOnce(e, ps[0], qp);
      hide Receive, CommandsOf, AllProcessable, AllContinue, Continues;
      SameAddress(Receive(d, ps[0]).0, Receive(e, ps[0]).0, ps[1..], qp);
    } else {
      NoneLeft(d, qp);
      NoneLeft(e, qp);
    }
  }

  lemma {:induction false} SumOfRest(d: DmaState, ps: seq<RxPacket>, qp: nat)
    requires AllContinue(ps, qp)
    ensures AllProcessable(ps) && Sum(CommandsOf(d, ps, qp)) == Bytes(ps)
    decreases |ps|
  {
    AllPass(ps, qp);
    if ps != [] {
      var r := Receive(d, ps[0]);
      FirstContinues(d, ps, qp);
      ContinueOnce(d, ps[0], qp);
      hide Receive, Payload, CommandsOf, AllProcessable, AllContinue, Continues;
      SumOfRest(r.0, ps[1..], qp);
      assert (r.1 + CommandsOf(r.0, ps[1..], qp))[1..] == CommandsOf(r.0, ps[1..], qp);
    } else {
      NoneLeft(d, qp);
    }
  }

  // ---------------------------------------------------------------- tiles

  /** Tiles in two parts: the second starts where the first ends. */
  lemma {:induction false} TilesInTwo(a: seq<WriteCmd>, b: seq<WriteCmd>, start: nat, len: nat) returns (n: nat)
    requires Tiles(a + b, start, len)
    ensures n <= len && n == Sum(a) && Tiles(a, start, n) && Tiles(b, start + n, len - n)
    decreases |a|
  {
    if a == [] {
      assert a + b == b;
      n := 0;
    } else {
      assert (a + b)[1..] == a[1..] + b;
      n := TilesInTwo(a[1..], b, start + a[0].len, len - a[0].len);
      n := n + a[0].len;
    }
  }

  function Sum(cmds: seq<WriteCmd>): nat
  {
    if cmds == [] then 0 else cmds[0].len + Sum(cmds[1..])
  }

  lemma {:induction false} TilesSum(cmds: seq<WriteCmd>, start: nat, len: nat)
    requires Tiles(cmds, start, len)
    ensures Sum(cmds) == len
    decreases |cmds|
  {
    if cmds != [] {
      TilesSum(cmds[1..], start + cmds[0].len, len - cmds[0].len);
    }
  }

  lemma TilesStart(cmds: seq<WriteCmd>, start: nat, len: nat)
    requires Tiles(cmds, start, len) && cmds != []
    ensures cmds[0].addr == start && 0 < len
  {
  }

  lemma SecondStart(a: seq<WriteCmd>, b: seq<WriteCmd>, start: nat, len: nat)
    requires b != []
    ensures Tiles(a + b, start, len) ==> b[0].addr == start + Sum(a)
  {
    if Tiles(a + b, start, len) {
      var n := TilesInTwo(a, b, start, len);
      TilesStart(b, start + n, len - n);
    }
  }

  lemma CutOf(a: seq<WriteCmd>, b: seq<WriteCmd>, start: nat, len: nat)
    requires Tiles(a + b, start, len) && a != [] && b != []
    ensures 0 < Sum(a) < len && Tiles(a, start, Sum(a)) && b[0].addr == start + Sum(a) && Sum(b) == len - Sum(a)
  {
    var n := TilesInTwo(a, b, start, len);
    TilesStart(a, start, n);
    TilesStart(b, start + n, len - n);
    TilesSum(b, start + n, len - n);
  }

  // ---------------------------------------------------------------- the intruder

  /** The address that a packet leaves in the table. */
  function AddressAfter(at: nat, p: RxPacket): nat
  {
    if StartsWrite(p.op) && p.header.Reth? then Plus64(p.header.vaddr, Payload(p))
    else if ContinuesWrite(p.op) || p.op.ReadRespMiddle? then Plus64(at, Payload(p))
    else if StartsResponse(p.op) then Plus64(p.readAddr, Payload(p))
    else if p.header.Reth? && p.header.length > 0 then 0
    else at
  }

  lemma AddressIs(d: DmaState, p: RxPacket)
    requires Processable(p)
    ensures Receive(d, p).0.vaddr == AddressAfter(d.vaddr, p)
  {
  }

  /** What a packet has to look like to do no harm to what goes on at an address. */
  predicate Harmless(at: nat, p: RxPacket)
  {
    match p.op
    case WriteMiddle | WriteLast | PartMiddle | PartLast | ReadRespMiddle => Payload(p) == 0
    case ReadRespOnly | ReadRespFirst => Plus64(p.readAddr, Payload(p)) == at
    case ReadRequest | ReadConsistentRequest => p.header.Reth? && p.header.length == 0
    case ReadRespLast | Ack => true
    case _ => p.header.Reth? && Plus64(p.header.vaddr, Payload(p)) == at
  }

  lemma HarmlessIs(d: DmaState, p: RxPacket)
    requires Processable(p) && 0 < d.vaddr < 0x1_0000_0000_0000_0000
    ensures Receive(d, p).0.vaddr == d.vaddr <==> Harmless(d.vaddr, p)
  {
    AddressIs(d, p);
    hide Receive;
    PlusNothing(d.vaddr, Payload(p));
  }

  lemma PlusNothing(at: nat, n: nat)
    requires at < 0x1_0000_0000_0000_0000 && n < 0x1_0000_0000
    ensures Plus64(at, n) == at <==> n == 0
  {
  }

  lemma SplitProcessable(ps: seq<RxPacket>, k: nat)
    requires AllProcessable(ps) && k <= |ps|
    ensures AllProcessable(ps[..k]) && AllProcessable(ps[k..]) && ps[..k] + ps[k..] == ps
  {
  }

  lemma Interrupted(d0: DmaState, a: seq<RxPacket>, p: RxPacket, b: seq<RxPacket>, qp: nat)
    requires AllProcessable(a) && AllProcessable(b) && Processable(p) && p.qpn == qp
    ensures AllProcessable(a + [p] + b)
    ensures var r := Receive(StateAfter(d0, a, qp), p);
            CommandsOf(d0, a + [p] + b, qp) == CommandsOf(d0, a, qp) + r.1 + CommandsOf(r.0, b, qp)
  {
    hide Receive, CommandsOf, StateAfter, Processable;
    OnePacketMore(d0, a, p, qp);
    InTwoParts(d0, a + [p], b, qp);
  }

  // ---------------------------------------------------------------- the cut

  /** Packets in two parts that write a range without an intruder; the second part goes on where the first one ended. */
  ghost predicate AtCut(d0: DmaState, a: seq<RxPacket>, b: seq<RxPacket>, qp: nat, start: nat, len: nat)
  {
    && AllProcessable(a) && AllProcessable(b) && AllContinue(b, qp) && b != []
    && start + len < 0x1_0000_0000_0000_0000
    && var d, first := StateAfter(d0, a, qp), CommandsOf(d0, a, qp);
       && 0 < Sum(first) < len && Tiles(first, start, Sum(first)) && d.vaddr == start + Sum(first)
       && Bytes(b) == len - Sum(first) && Tiles(first + CommandsOf(d, b, qp), start, len)
  }

  /** The first packet is written. */
  lemma FirstWrites(d0: DmaState, a: seq<RxPacket>, qp: nat)
    requires AllProcessable(a) && a != [] && a[0].qpn == qp && (StartsWrite(a[0].op) || StartsResponse(a[0].op))
    ensures CommandsOf(d0, a, qp) != []
  {
    assert Receive(d0, a[0]).1 != [];
    hide Receive, CommandsOf, StateAfter, Processable;
    assert [a[0]] + a[1..] == a;
    OnePacket(d0, a[0], qp);
    InTwoParts(d0, [a[0]], a[1..], qp);
  }

  /** Every cut of packets that write a range is one. */
  lemma CutAnywhere(ps: seq<RxPacket>, k: nat, d0: DmaState, qp: nat, start: nat, len: nat)
    requires AllProcessable(ps) && 0 < k < |ps| && AllContinue(ps[k..], qp)
    requires ps[0].qpn == qp && (StartsWrite(ps[0].op) || StartsResponse(ps[0].op))
    requires Tiles(CommandsOf(d0, ps, qp), start, len) && start + len < 0x1_0000_0000_0000_0000
    ensures AtCut(d0, ps[..k], ps[k..], qp, start, len)
  {
    hide CommandsOf, StateAfter, Tiles, AllContinue, Bytes, Sum, StartsWrite, StartsResponse, Processable;
    SplitProcessable(ps, k);
    var a, b := ps[..k], ps[k..];
    assert a[0] == ps[0];
    InTwoParts(d0, a, b, qp);
    var first, d := CommandsOf(d0, a, qp), StateAfter(d0, a, qp);
    FirstWrites(d0, a, qp);
    RestStart(d, b, qp);
    SumOfRest(d, b, qp);
    CutOf(first, CommandsOf(d, b, qp), start, len);
  }

  /** The rest after the intruder: it goes on from the address that the intruder leaves. */
  lemma RestAfter(d: DmaState, p: RxPacket, b: seq<RxPacket>, qp: nat)
    requires AllContinue(b, qp) && AllProcessable(b) && b != [] && Processable(p)
    ensures var B := CommandsOf(Receive(d, p).0, b, qp);
            && B != [] && B[0].addr == AddressAfter(d.vaddr, p)
            && (AddressAfter(d.vaddr, p) + Bytes(b) < 0x1_0000_0000_0000_0000 ==>
                  Tiles(B, AddressAfter(d.vaddr, p), Bytes(b)))
            && (AddressAfter(d.vaddr, p) == d.vaddr ==> B == CommandsOf(d, b, qp))
  {
    AddressIs(d, p);
    hide Receive, CommandsOf, Tiles, AllContinue, Bytes, AddressAfter, Processable;
    var d' := Receive(d, p).0;
    RestFrom(d', b, qp);
    RestStart(d', b, qp);
    if d'.vaddr == d.vaddr {
      SameAddress(d, d', b, qp);
    }
  }

  /** The whole is right if and only if the rest starts where the first part ended. */
  lemma WholeExact(a: seq<WriteCmd>, b: seq<WriteCmd>, undisturbed: seq<WriteCmd>, start: nat, len: nat, at: nat)
    requires b != [] && b[0].addr == at && Tiles(a + undisturbed, start, len)
    requires at == start + Sum(a) ==> b == undisturbed
    ensures Tiles(a + b, start, len) <==> at == start + Sum(a)
  {
    SecondStart(a, b, start, len);
  }

  /**
   * A are the writes before the intruder, P its own, B those of the rest, and d is the state that the intruder meets.
   * The rest goes on from the address that the intruder leaves. The whole covers the range if and only if the intruder
   * leaves the address alone, which its opcode and fields show.
   */
  ghost predicate IsDisturbed(d0: DmaState, a: seq<RxPacket>, p: RxPacket, b: seq<RxPacket>, qp: nat, start: nat,
                              len: nat, d: DmaState, A: seq<WriteCmd>, P: seq<WriteCmd>, B: seq<WriteCmd>)
  {
    && AllProcessable(a) && AllProcessable(b) && AllProcessable(a + [p] + b) && Processable(p)
    && d == StateAfter(d0, a, qp) && A == CommandsOf(d0, a, qp) && P == Receive(d, p).1
    && B == CommandsOf(Receive(d, p).0, b, qp) && CommandsOf(d0, a + [p] + b, qp) == A + P + B
    && 0 < Sum(A) < len && Tiles(A, start, Sum(A)) && d.vaddr == start + Sum(A)
    && (AddressAfter(d.vaddr, p) + (len - Sum(A)) < 0x1_0000_0000_0000_0000 ==>
          Tiles(B, AddressAfter(d.vaddr, p), len - Sum(A)))
    && (Tiles(A + B, start, len) <==> Harmless(d.vaddr, p))
  }

  lemma Disturbed(d0: DmaState, a: seq<RxPacket>, p: RxPacket, b: seq<RxPacket>, qp: nat, start: nat, len: nat)
    returns (d: DmaState, A: seq<WriteCmd>, P: seq<WriteCmd>, B: seq<WriteCmd>)
    requires AtCut(d0, a, b, qp, start, len) && Processable(p) && p.qpn == qp
    ensures IsDisturbed(d0, a, p, b, qp, start, len, d, A, P, B)
  {
    hide CommandsOf, StateAfter, Tiles, AllContinue, Bytes, Sum, Receive, AddressAfter, Harmless, Processable,
         AllProcessable;
    d := StateAfter(d0, a, qp);
    A, P, B := CommandsOf(d0, a, qp), Receive(d, p).1, CommandsOf(Receive(d, p).0, b, qp);
    Interrupted(d0, a, p, b, qp);
    RestAfter(d, p, b, qp);
    AddressIs(d, p);
    HarmlessIs(d, p);
    WholeExact(A, B, CommandsOf(d, b, qp), start, len, AddressAfter(d.vaddr, p));
  }
}

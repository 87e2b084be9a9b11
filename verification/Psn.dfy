/** Packet sequence numbers: 24-bit numbers, compared in windows. */
module Psn {

  const PSNS: nat := 0x100_0000

  type PSN = x: int | 0 <= x < PSNS

  datatype OpCode =
    | WriteFirst | WriteMiddle | WriteLast | WriteOnly
    | ReadRequest | ReadRespFirst | ReadRespMiddle | ReadRespLast | ReadRespOnly
    | Ack
    | PartOnly | PartFirst | PartMiddle | PartLast
    | ReadPointerRequest | ReadConsistentRequest

  predicate IsResponse(op: OpCode)
  {
    op.ReadRespFirst? || op.ReadRespMiddle? || op.ReadRespLast? || op.ReadRespOnly? || op.Ack?
  }

  predicate IsWriteOrPart(op: OpCode)
  {
    op.WriteFirst? || op.WriteMiddle? || op.WriteLast? || op.WriteOnly?
    || op.PartOnly? || op.PartFirst? || op.PartMiddle? || op.PartLast?
  }

  predicate IsReadRequest(op: OpCode)
  {
    op.ReadRequest? || op.ReadPointerRequest? || op.ReadConsistentRequest?
  }

  /** The three kinds of opcodes: what answers a request, what carries a payload to be written, and what asks. */
  lemma Roles(op: OpCode)
    ensures IsResponse(op) <==> op in {ReadRespFirst, ReadRespMiddle, ReadRespLast, ReadRespOnly, Ack}
    ensures IsReadRequest(op) <==> op in {ReadRequest, ReadPointerRequest, ReadConsistentRequest}
    ensures IsWriteOrPart(op) <==> !IsResponse(op) && !IsReadRequest(op)
  {
  }

  /** A number n places further on. */
  function Advance(psn: PSN, n: nat): PSN
  {
    (psn + n) % PSNS
  }

  /** How far a number is ahead of another. */
  function Ahead(from: PSN, psn: PSN): (n: nat)
    ensures n < PSNS && Advance(from, n) == psn
  {
    (psn - from) % PSNS
  }

  // ---------------------------------------------------------------- the source's comparisons

  predicate AckInWindow(psn: PSN, epsn: PSN, max_forward: PSN)
  {
    (epsn <= psn && psn <= max_forward) || ((epsn <= psn || psn <= max_forward) && max_forward < epsn)
  }

  predicate InDuplicateWindow(psn: PSN, epsn: PSN, oldest: PSN)
  {
    || (oldest < epsn && psn < epsn && psn >= oldest)
    || (oldest > epsn && (psn < epsn || psn >= oldest))
  }

  /** The comparisons are windows that may run over the end of the number range. */
  lemma AckWindow(psn: PSN, epsn: PSN, max_forward: PSN)
    ensures AckInWindow(psn, epsn, max_forward) <==> Ahead(epsn, psn) <= Ahead(epsn, max_forward)
  {
    AheadIs(epsn, psn);
    AheadIs(epsn, max_forward);
  }

  lemma DuplicateWindow(psn: PSN, epsn: PSN, oldest: PSN)
    ensures InDuplicateWindow(psn, epsn, oldest) <==> Ahead(oldest, psn) < Ahead(oldest, epsn)
  {
    AheadIs(oldest, psn);
    AheadIs(oldest, epsn);
  }

  lemma AheadIs(from: PSN, psn: PSN)
    ensures Ahead(from, psn) == if psn >= from then psn - from else psn - from + 0x100_0000
  {
  }

  /**
   * The window accepts exactly the numbers that were sent and not acknowledged, from epsn up to the one before next, if
   * and only if there are any.
   */
  lemma AckExact(epsn: PSN, next: PSN)
    ensures (forall psn: PSN :: AckInWindow(psn, epsn, (next - 1) % PSNS) <==> Ahead(epsn, psn) < Ahead(epsn, next))
            <==> next != epsn
  {
    AheadIs(epsn, next);
    AheadIs(epsn, (next - 1) % PSNS);
    forall psn: PSN
      ensures AckInWindow(psn, epsn, (next - 1) % PSNS) <==> Ahead(epsn, psn) <= Ahead(epsn, (next - 1) % PSNS)
    {
      AckWindow(psn, epsn, (next - 1) % PSNS);
    }
    if next == epsn {
      NothingOutstanding(epsn, epsn);
    }
  }

  /** With nothing outstanding the number before the expected one is the last to forward: every number passes. */
  lemma NothingOutstanding(psn: PSN, epsn: PSN)
    ensures AckInWindow(psn, epsn, (epsn - 1) % PSNS)
  {
    AckWindow(psn, epsn, (epsn - 1) % PSNS);
    AheadIs(epsn, (epsn - 1) % PSNS);
  }

  // ---------------------------------------------------------------- verdicts

  datatype Verdict = New | Duplicate | Invalid

  /** What rx_ibh_fsm makes of a packet, given the reply of the state table. */
  function Classify(op: OpCode, psn: PSN, epsn: PSN, oldest: PSN, max_forward: PSN): Verdict
  {
    if epsn == psn || (op.Ack? && AckInWindow(psn, epsn, max_forward)) then New
    else if InDuplicateWindow(psn, epsn, oldest) then Duplicate
    else Invalid
  }

  /** A request is new exactly at the expected number, and a duplicate exactly in the window before it. */
  lemma RequestVerdict(op: OpCode, psn: PSN, epsn: PSN, oldest: PSN, max_forward: PSN)
    requires !op.Ack?
    ensures Classify(op, psn, epsn, oldest, max_forward) ==
            if psn == epsn then New else if Ahead(oldest, psn) < Ahead(oldest, epsn) then Duplicate else Invalid
  {
    DuplicateWindow(psn, epsn, oldest);
  }

  lemma AckVerdict(psn: PSN, epsn: PSN, oldest: PSN, max_forward: PSN)
    ensures Classify(Ack, psn, epsn, oldest, max_forward) == New <==> Ahead(epsn, psn) <= Ahead(epsn, max_forward)
  {
    AckWindow(psn, epsn, max_forward);
    AheadIs(epsn, psn);
  }

  lemma AdvanceNone(psn: PSN)
    ensures Advance(psn, 0) == psn
  {
  }

  lemma AdvanceOne(psn: PSN)
    ensures Advance(psn, 1) == if psn == 0xFF_FFFF then 0 else psn + 1
  {
  }

  lemma AdvanceTwice(psn: PSN, m: nat, n: nat)
    ensures Advance(Advance(psn, m), n) == Advance(psn, m + n)
  {
  }
}

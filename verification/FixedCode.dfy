/**
 * The fixed codes of section 3.2.6 of RFC 1951, word by word, and what a fixed block reads where such a word stands.
 */
module FixedCode {
  import opened Powers
  import opened Bits
  import opened Tries
  import opened Canonical
  import opened Tokens
  import opened RunLengths
  import opened InflateSpec
  import opened BlockBits

  // ---------------------------------------------------------------- the words

  lemma {:induction false} CountFill(a: seq<nat>, v: nat, n: nat, l: nat)
    ensures CountLen(a + Fill(v, n), l) == CountLen(a, l) + (if v == l then n else 0)
  {
    if n == 0 {
      assert a + Fill(v, 0) == a;
    } else {
      var s := a + Fill(v, n);
      CountFill(a, v, n - 1, l);
      assert s[..|s| - 1] == a + Fill(v, n - 1) && s[|s| - 1] == v;
    }
  }

  /** How many of the first s symbols have a length. */
  function CountBefore(s: nat, l: nat): nat
    requires s <= 288
  {
    if l == 8 then (if s <= 144 then s else if s <= 280 then 144 else s - 136)
    else if l == 9 then (if s <= 144 then 0 else if s <= 256 then s - 144 else 112)
    else if l == 7 then (if s <= 256 then 0 else if s <= 280 then s - 256 else 24)
    else 0
  }

  lemma CountedBefore(s: nat, l: nat)
    requires s <= 288
    ensures |FIXED_LL| == 288 && CountLen(FIXED_LL[..s], l) == CountBefore(s, l)
  {
    hide CountLen;
    var a, b, c := Fill(8, 144), Fill(9, 112), Fill(7, 24);
    FixedComplete();
    CountNone(l);
    if s <= 144 {
      CountFill([], 8, s, l);
      assert FIXED_LL[..s] == [] + Fill(8, s);
    } else if s <= 256 {
      CountFill([], 8, 144, l);
      CountFill([] + a, 9, s - 144, l);
      assert FIXED_LL[..s] == [] + a + Fill(9, s - 144);
    } else if s <= 280 {
      CountFill([], 8, 144, l);
      CountFill([] + a, 9, 112, l);
      CountFill([] + a + b, 7, s - 256, l);
      assert FIXED_LL[..s] == [] + a + b + Fill(7, s - 256);
    } else {
      CountFill([], 8, 144, l);
      CountFill([] + a, 9, 112, l);
      CountFill([] + a + b, 7, 24, l);
      CountFill([] + a + b + c, 8, s - 280, l);
      assert FIXED_LL[..s] == [] + a + b + c + Fill(8, s - 280);
    }
  }

  lemma CountNone(l: nat)
    ensures CountLen([], l) == 0
  {
  }

  lemma FirstNext(lengths: seq<nat>, l: nat)
    ensures FirstCode(lengths, 0) == 0
    ensures FirstCode(lengths, l + 1) == 2 * (FirstCode(lengths, l) + (if l == 0 then 0 else CountLen(lengths, l)))
  {
  }

  lemma FixedFirst()
    ensures FirstCode(FIXED_LL, 7) == 0 && FirstCode(FIXED_LL, 8) == 48 && FirstCode(FIXED_LL, 9) == 400
  {
    hide FirstCode, CountLen;
    assert FIXED_LL[..288] == FIXED_LL by { FixedComplete(); }
    forall l: nat
      ensures CountLen(FIXED_LL, l) == CountBefore(288, l)
    {
      CountedBefore(288, l);
    }
    FirstNext(FIXED_LL, 0);
    FirstNext(FIXED_LL, 1);
    FirstNext(FIXED_LL, 2);
    FirstNext(FIXED_LL, 3);
    FirstNext(FIXED_LL, 4);
    FirstNext(FIXED_LL, 5);
    FirstNext(FIXED_LL, 6);
    FirstNext(FIXED_LL, 7);
    FirstNext(FIXED_LL, 8);
  }

  /** The table of section 3.2.6: literals and lengths. */
  lemma LiteralWords(s: nat)
    requires s < 288
    ensures |FIXED_LL| == 288
    ensures s <= 143 ==> Word(FIXED_LL, s) == MsbBits(48 + s, 8)
    ensures 144 <= s <= 255 ==> Word(FIXED_LL, s) == MsbBits(400 + (s - 144), 9)
    ensures 256 <= s <= 279 ==> Word(FIXED_LL, s) == MsbBits(s - 256, 7)
    ensures 280 <= s ==> Word(FIXED_LL, s) == MsbBits(192 + (s - 280), 8)
  {
    hide FirstCode, CountLen, MsbBits, FIXED_LL;
    FixedLength(s);
    FixedFirst();
    CountedBefore(s, FIXED_LL[s]);
  }

  lemma FixedLength(s: nat)
    requires s < 288
    ensures |FIXED_LL| == 288
    ensures FIXED_LL[s] == if s <= 143 then 8 else if s <= 255 then 9 else if s <= 279 then 7 else 8
  {
  }

  /** And distances. */
  lemma DistanceWords(s: nat)
    requires s < 32
    ensures |FIXED_D| == 32 && Word(FIXED_D, s) == MsbBits(s, 5)
  {
    FixedComplete();
    forall l: nat
      ensures CountLen(FIXED_D, l) == if l == 5 then 32 else 0
    {
      CountNone(l);
      CountFill([], 5, 32, l);
      assert [] + Fill(5, 32) == FIXED_D;
    }
    CountNone(5);
    CountFill([], 5, s, 5);
    assert FIXED_D[..s] == [] + Fill(5, s);
    hide FirstCode, CountLen, MsbBits;
    FirstNext(FIXED_D, 0);
    FirstNext(FIXED_D, 1);
    FirstNext(FIXED_D, 2);
    FirstNext(FIXED_D, 3);
    FirstNext(FIXED_D, 4);
  }

  // ---------------------------------------------------------------- what is read

  /** A symbol is read where its word of the table stands. */
  lemma FixedSymbol(bits: BitString, bp: nat, s: nat, w: BitString)
    requires s < 288 && At(bits, bp, w)
    requires w == if s <= 143 then MsbBits(48 + s, 8)
                  else if s <= 255 then MsbBits(400 + (s - 144), 9)
                  else if s <= 279 then MsbBits(s - 256, 7)
                  else MsbBits(192 + (s - 280), 8)
    ensures Complete(FIXED_LL, 15) && Present(FIXED_LL, s) && Word(FIXED_LL, s) == w
    ensures Walk(CodeTree(FIXED_LL, 15), bits, bp) == Symbol(s, bp + |w|)
  {
    FixedComplete();
    LiteralWords(s);
    hide Walk, CodeTree, Complete, MsbBits;
    assert |w| == |Word(FIXED_LL, s)| == FIXED_LL[s];
    SymbolAt(FIXED_LL, 15, s, bits, bp);
  }

  /** A literal in a fixed block. */
  lemma FixedLiteral(bits: BitString, bp: nat, b: byte, out: seq<byte>)
    requires At(bits, bp, if b <= 143 then MsbBits(48 + b, 8) else MsbBits(256 + b, 9))
    ensures Complete(FIXED_LL, 15) && Complete(FIXED_D, 15)
    ensures ReadBlock(bits, bp, CodeTree(FIXED_LL, 15), CodeTree(FIXED_D, 15), out) ==
            ReadBlock(bits, bp + (if b <= 143 then 8 else 9), CodeTree(FIXED_LL, 15), CodeTree(FIXED_D, 15), out + [b])
  {
    FixedComplete();
    hide Walk, CodeTree, Complete, MsbBits, ReadBlock;
    FixedSymbol(bits, bp, b, if b <= 143 then MsbBits(48 + b, 8) else MsbBits(256 + b, 9));
    LiteralStep(bits, bp, CodeTree(FIXED_LL, 15), CodeTree(FIXED_D, 15), out, b, bp + (if b <= 143 then 8 else 9));
  }

  /** Seven zeros end a fixed block. */
  lemma FixedEnd(bits: BitString, bp: nat, out: seq<byte>)
    requires bp + 7 <= |bits| && forall k :: bp <= k < bp + 7 ==> !bits[k]
    ensures Complete(FIXED_LL, 15) && Complete(FIXED_D, 15)
    ensures ReadBlock(bits, bp, CodeTree(FIXED_LL, 15), CodeTree(FIXED_D, 15), out) == Done(out, bp + 7)
  {
    FixedComplete();
    hide Walk, CodeTree, Complete, ReadBlock;
    forall k | 0 <= k < 7
      ensures bits[bp..bp + 7][k] == MsbBits(0, 7)[k]
    {
      MsbBitsAt(0, 7, k);
      ZeroDivided(Pow2(6 - k));
    }
    FixedSymbol(bits, bp, 256, MsbBits(0, 7));
    EndStep(bits, bp, CodeTree(FIXED_LL, 15), CodeTree(FIXED_D, 15), out, bp + 7);
  }

  lemma ZeroDivided(d: nat)
    requires d > 0
    ensures 0 / d == 0
  {
  }

  /** A copy in a fixed block: length symbol, extra bits, five bits of distance symbol, extra bits. */
  lemma FixedCopy(bits: BitString, bp: nat, l: nat, x: nat, s: nat, y: nat, out: seq<byte>, w: BitString)
    requires l <= 28 && s <= 29 && x < Pow2(LENGTHEXTRA[l]) && y < Pow2(DISTANCEEXTRA[s])
    requires LENGTHBASE[l] + x <= 258 && DISTANCEBASE[s] + y <= 32768
    requires 1 <= DISTANCEBASE[s] + y <= |out| && At(bits, bp, w) && bp + |w| < |bits|
    requires w == (if l <= 22 then MsbBits(l + 1, 7) else MsbBits(192 + (l - 23), 8))
                  + (LsbBits(x, LENGTHEXTRA[l]) + MsbBits(s, 5) + LsbBits(y, DISTANCEEXTRA[s]))
    ensures Complete(FIXED_LL, 15) && Complete(FIXED_D, 15)
    ensures ReadBlock(bits, bp, CodeTree(FIXED_LL, 15), CodeTree(FIXED_D, 15), out) ==
            ReadBlock(bits, bp + |w|, CodeTree(FIXED_LL, 15), CodeTree(FIXED_D, 15),
                      CopyBack(out, LENGTHBASE[l] + x, DISTANCEBASE[s] + y))
  {
    hide *;
    BasesStart(l, s);
    CopyFits(|out|, LENGTHBASE[l] + x, DISTANCEBASE[s] + y);
    FixedComplete();
    DistanceWords(s);
    var c := if l <= 22 then MsbBits(l + 1, 7) else MsbBits(192 + (l - 23), 8);
    var rest := LsbBits(x, LENGTHEXTRA[l]) + MsbBits(s, 5) + LsbBits(y, DISTANCEEXTRA[s]);
    assert |w| == |c| + (LENGTHEXTRA[l] + 5 + DISTANCEEXTRA[s]);
    AtSplit(bits, bp, c, rest);
    FixedSymbol(bits, bp, l + 257, c);
    PartsRead(bits, bp + |c|, FIXED_D, l, s, x, y);
    CopyStep(bits, bp, CodeTree(FIXED_LL, 15), CodeTree(FIXED_D, 15), out, l, LENGTHBASE[l] + x, DISTANCEBASE[s] + y,
             bp + |c|, bp + |w|);
  }

  lemma CopyFits(have: nat, length: nat, distance: nat)
    requires 3 <= length <= 258 && 1 <= distance <= 32768 && distance <= have
    ensures ValidToken(have, Copy(length, distance)) && FIRST_LENGTH_CODE_INDEX == 257
  {
  }

  lemma BasesStart(l: nat, s: nat)
    requires l <= 28 && s <= 29
    ensures |LENGTHBASE| == |LENGTHEXTRA| == 29 && |DISTANCEBASE| == |DISTANCEEXTRA| == 30
    ensures LENGTHBASE[l] >= 3 && 1 <= DISTANCEBASE[s]
    ensures |FIXED_D| == 32 && Present(FIXED_D, s) && FIXED_D[s] == 5
  {
  }

  /** A stream of three bytes, as other encoders write it too. */
  lemma OneLetter()
    ensures Inflate(BytesBits([0x4B, 0x04, 0x00]), 0, []) == Done([97], 18)
  {
    hide *;
    var bits := BytesBits([0x4B, 0x04, 0x00]);
    LetterBits();
    FixedComplete();
    LetterAt(bits);
    FixedLiteral(bits, 3, 97, []);
    FixedEnd(bits, 11, [97]);
    FixedIs(bits, 3, []);
    assert [] + [97 as byte] == [97];
    InflateStep(bits, 0, true, 1, [], [97], 18);
  }

  lemma FixedIs(bits: BitString, bp: nat, out: seq<byte>)
    requires bp <= |bits|
    ensures Complete(FIXED_LL, 15) && Complete(FIXED_D, 15)
    ensures ReadBody(bits, bp, 1, out) == ReadBlock(bits, bp, CodeTree(FIXED_LL, 15), CodeTree(FIXED_D, 15), out)
  {
    FixedComplete();
  }

  lemma LetterAt(bits: BitString)
    requires |bits| == 24 && bits[3] && !bits[4] && !bits[5] && bits[6] && !bits[7] && !bits[8] && !bits[9] && bits[10]
    ensures At(bits, 3, MsbBits(145, 8))
  {
    Pow2Bytes();
    hide Pow2, MsbBits;
    forall k | 0 <= k < 8
      ensures bits[3..11][k] == MsbBits(145, 8)[k]
    {
      MsbBitsAt(145, 8, k);
    }
  }

  lemma LetterBits()
    ensures var bits := BytesBits([0x4B, 0x04, 0x00]);
            && |bits| == 24 && bits[0] && bits[1] && !bits[2] && bits[3] && !bits[4] && !bits[5] && bits[6] && !bits[7]
            && !bits[8] && !bits[9] && bits[10] && forall k :: 11 <= k < 24 ==> !bits[k]
  {
    Pow2Bytes();
    hide Pow2;
    var bits := BytesBits([0x4B, 0x04, 0x00]);
    forall k | 11 <= k < 24
      ensures !bits[k]
    {
      if k < 16 {
        assert bits[k] == BitOf(4, k - 8);
      } else {
        assert bits[k] == BitOf(0, k - 16);
      }
    }
  }
}

/** The bits of compressed blocks, as sections 3.2.3 to 3.2.7 of RFC 1951 lay them out, and why they read back. */
module BlockBits {
  import opened Powers
  import opened Bits
  import opened Tries
  import opened Canonical
  import opened Huffman
  import opened Tokens
  import opened RunLengths
  import opened InflateSpec

  /** The word w stands at position pos. */
  predicate At(bits: BitString, pos: nat, w: BitString)
  {
    pos + |w| <= |bits| && bits[pos..pos + |w|] == w
  }

  lemma AtSplit(bits: BitString, pos: nat, a: BitString, b: BitString)
    requires At(bits, pos, a + b)
    ensures At(bits, pos, a) && At(bits, pos + |a|, b)
  {
    var w := bits[pos..pos + |a + b|];
    assert w[..|a|] == a && w[|a|..] == b;
    assert bits[pos..pos + |a|] == w[..|a|];
    assert bits[pos + |a|..pos + |a| + |b|] == w[|a|..];
  }

  /** A number of n bits is read back. */
  lemma FieldAt(bits: BitString, pos: nat, v: nat, n: nat)
    requires At(bits, pos, LsbBits(v, n)) && v < Pow2(n)
    ensures pos + n <= |bits| && Field(bits, pos, n) == v
  {
    ReadBack(bits, pos, v, n);
  }

  predicate Present(lengths: seq<nat>, s: nat)
  {
    s < |lengths| && lengths[s] > 0
  }

  /** The word of a present symbol is read as that symbol. */
  lemma SymbolAt(lengths: seq<nat>, maxbitlen: nat, s: nat, bits: BitString, pos: nat)
    requires Complete(lengths, maxbitlen) && Present(lengths, s) && At(bits, pos, Word(lengths, s))
    ensures Walk(CodeTree(lengths, maxbitlen), bits, pos) == Symbol(s, pos + lengths[s])
  {
    WordDecodes(lengths, maxbitlen, s, bits, pos);
  }

  // ---------------------------------------------------------------- tokens

  function LengthIndex(length: nat): (l: nat)
    ensures l < 29
  {
    CodeIndex(LENGTHBASE, length)
  }

  function DistanceIndex(distance: nat): (d: nat)
    ensures d < 30
  {
    CodeIndex(DISTANCEBASE, distance)
  }

  /** Both codes have a word for the token. */
  predicate HasWords(ll: seq<nat>, d: seq<nat>, t: Token)
  {
    match t
    case Literal(b) => Present(ll, b)
    case Copy(length, distance) =>
      && 3 <= length <= 258 && 1 <= distance <= 32768
      && Present(ll, LengthIndex(length) + FIRST_LENGTH_CODE_INDEX)
      && Present(d, DistanceIndex(distance))
  }

  function ExtraLength(length: nat): (x: nat)
    requires 3 <= length <= 258
    ensures x < Pow2(LENGTHEXTRA[LengthIndex(length)])
    ensures LENGTHBASE[LengthIndex(length)] + x == length
  {
    TokenFits(length, 1);
    length - LENGTHBASE[LengthIndex(length)]
  }

  function ExtraDistance(distance: nat): (x: nat)
    requires 1 <= distance <= 32768
    ensures x < Pow2(DISTANCEEXTRA[DistanceIndex(distance)])
    ensures DISTANCEBASE[DistanceIndex(distance)] + x == distance
  {
    TokenFits(3, distance);
    distance - DISTANCEBASE[DistanceIndex(distance)]
  }

  function TokenBits(ll: seq<nat>, d: seq<nat>, t: Token): BitString
    requires HasWords(ll, d, t)
  {
    match t
    case Literal(b) => Word(ll, b)
    case Copy(length, distance) =>
      Word(ll, LengthIndex(length) + FIRST_LENGTH_CODE_INDEX)
      + LsbBits(ExtraLength(length), LENGTHEXTRA[LengthIndex(length)])
      + Word(d, DistanceIndex(distance))
      + LsbBits(ExtraDistance(distance), DISTANCEEXTRA[DistanceIndex(distance)])
  }

  predicate Sized(t: Token)
  {
    t.Copy? ==> 3 <= t.length <= 258 && 1 <= t.distance <= 32768
  }

  function LlSymbol(t: Token): (s: nat)
    ensures s < 286
  {
    match t
    case Literal(b) => b
    case Copy(length, _) => LengthIndex(length) + FIRST_LENGTH_CODE_INDEX
  }

  /** The pieces of a token, each with its symbol present. */
  lemma TokenParts(ll: seq<nat>, d: seq<nat>, t: Token)
    requires HasWords(ll, d, t)
    ensures Present(ll, LlSymbol(t))
    ensures t.Literal? ==> TokenBits(ll, d, t) == Word(ll, LlSymbol(t))
    ensures t.Copy? ==> Sized(t) && Present(d, DistanceIndex(t.distance))
    ensures t.Copy? ==> LlSymbol(t) == LengthIndex(t.length) + FIRST_LENGTH_CODE_INDEX
    ensures t.Copy? ==>
              TokenBits(ll, d, t) ==
              Word(ll, LlSymbol(t)) + LsbBits(ExtraLength(t.length), LENGTHEXTRA[LengthIndex(t.length)])
              + Word(d, DistanceIndex(t.distance))
              + LsbBits(ExtraDistance(t.distance), DISTANCEEXTRA[DistanceIndex(t.distance)])
  {
    hide LsbBits, Word, CodeIndex;
  }

  ghost predicate AllHaveWords(ll: seq<nat>, d: seq<nat>, toks: seq<Token>)
  {
    forall i :: 0 <= i < |toks| ==> HasWords(ll, d, toks[i])
  }

  ghost function TokensBits(ll: seq<nat>, d: seq<nat>, toks: seq<Token>): BitString
    requires AllHaveWords(ll, d, toks)
  {
    if toks == [] then [] else
      TokensBits(ll, d, toks[..|toks| - 1]) + TokenBits(ll, d, toks[|toks| - 1])
  }

  lemma CopyReads(bits: BitString, p: nat, d: seq<nat>, length: nat, distance: nat)
    requires Complete(d, 15) && Present(d, DistanceIndex(distance))
    requires 3 <= length <= 258 && 1 <= distance <= 32768
    requires At(bits, p, LsbBits(ExtraLength(length), LENGTHEXTRA[LengthIndex(length)])
                         + Word(d, DistanceIndex(distance))
                         + LsbBits(ExtraDistance(distance), DISTANCEEXTRA[DistanceIndex(distance)]))
    requires p + LENGTHEXTRA[LengthIndex(length)] + d[DistanceIndex(distance)]
             + DISTANCEEXTRA[DistanceIndex(distance)] < |bits|
    ensures ReadCopy(bits, p, CodeTree(d, 15), LengthIndex(length)) ==
            Done(Copy(length, distance),
                 p + LENGTHEXTRA[LengthIndex(length)] + d[DistanceIndex(distance)]
                 + DISTANCEEXTRA[DistanceIndex(distance)])
  {
    hide Field, LsbBits, Walk, CodeTree, Complete, CodeIndex, At, ReadCopy, Pow2;
    PartsRead(bits, p, d, LengthIndex(length), DistanceIndex(distance), ExtraLength(length), ExtraDistance(distance));
  }

  lemma PartsRead(bits: BitString, p: nat, d: seq<nat>, l: nat, s: nat, x: nat, y: nat)
    requires Complete(d, 15) && Present(d, s) && l <= 28 && s <= 29
    requires x < Pow2(LENGTHEXTRA[l]) && y < Pow2(DISTANCEEXTRA[s])
    requires At(bits, p, LsbBits(x, LENGTHEXTRA[l]) + Word(d, s) + LsbBits(y, DISTANCEEXTRA[s]))
    requires p + LENGTHEXTRA[l] + d[s] + DISTANCEEXTRA[s] < |bits|
    ensures ReadCopy(bits, p, CodeTree(d, 15), l) ==
            Done(Copy(LENGTHBASE[l] + x, DISTANCEBASE[s] + y), p + LENGTHEXTRA[l] + d[s] + DISTANCEEXTRA[s])
  {
    hide Field, LsbBits, Walk, CodeTree, Complete, CodeIndex, At, ReadCopy, Pow2;
    var a, b, c := LsbBits(x, LENGTHEXTRA[l]), Word(d, s), LsbBits(y, DISTANCEEXTRA[s]);
    AtSplit(bits, p, a + b, c);
    AtSplit(bits, p, a, b);
    FieldAt(bits, p, x, LENGTHEXTRA[l]);
    SymbolAt(d, 15, s, bits, p + LENGTHEXTRA[l]);
    FieldAt(bits, p + LENGTHEXTRA[l] + d[s], y, DISTANCEEXTRA[s]);
    ReadCopyStep(bits, p, CodeTree(d, 15), l, s, p + LENGTHEXTRA[l] + d[s]);
  }

  lemma ReadCopyStep(bits: BitString, p: nat, td: Trie, l: nat, s: nat, p': nat)
    requires td.Node? && l <= 28 && s <= 29 && p < |bits| && p + LENGTHEXTRA[l] <= |bits| && p' < |bits|
    requires Walk(td, bits, p + LENGTHEXTRA[l]) == Symbol(s, p') && p' + DISTANCEEXTRA[s] <= |bits|
    ensures ReadCopy(bits, p, td, l) ==
            Done(Copy(LENGTHBASE[l] + Field(bits, p, LENGTHEXTRA[l]),
                      DISTANCEBASE[s] + Field(bits, p', DISTANCEEXTRA[s])),
                 p' + DISTANCEEXTRA[s])
  {
    hide Walk, Field;
  }

  /** One token is read, when something follows it. */
  lemma TokenReads(bits: BitString, bp: nat, ll: seq<nat>, d: seq<nat>, t: Token, out: seq<byte>)
    requires Complete(ll, 15) && Complete(d, 15) && HasWords(ll, d, t) && ValidToken(|out|, t)
    requires At(bits, bp, TokenBits(ll, d, t)) && bp + |TokenBits(ll, d, t)| < |bits|
    ensures ReadBlock(bits, bp, CodeTree(ll, 15), CodeTree(d, 15), out) ==
            ReadBlock(bits, bp + |TokenBits(ll, d, t)|, CodeTree(ll, 15), CodeTree(d, 15), Apply(out, t))
  {
    hide Walk, CodeTree, Complete, LengthIndex, DistanceIndex, ExtraLength, ExtraDistance, ReadCopy, CopyBack, At,
         LsbBits, ReadBlock, TokenBits, HasWords, Word;
    TokenParts(ll, d, t);
    var s := LlSymbol(t);
    if t.Copy? {
      var length, distance := t.length, t.distance;
      var l, e := LengthIndex(length), DistanceIndex(distance);
      var w, a, b, c := Word(ll, s), LsbBits(ExtraLength(length), LENGTHEXTRA[l]),
                        Word(d, e), LsbBits(ExtraDistance(distance), DISTANCEEXTRA[e]);
      assert w + a + b + c == w + (a + b + c);
      AtSplit(bits, bp, w, a + b + c);
      SymbolAt(ll, 15, s, bits, bp);
      CopyReads(bits, bp + |w|, d, length, distance);
      CopyStep(bits, bp, CodeTree(ll, 15), CodeTree(d, 15), out, l, length, distance, bp + |w|,
               bp + |TokenBits(ll, d, t)|);
    } else {
      SymbolAt(ll, 15, s, bits, bp);
      LiteralStep(bits, bp, CodeTree(ll, 15), CodeTree(d, 15), out, t.b, bp + ll[s]);
    }
  }

  lemma LiteralStep(bits: BitString, bp: nat, tll: Trie, td: Trie, out: seq<byte>, b: byte, p: nat)
    requires tll.Node? && td.Node? && bp <= |bits| && Walk(tll, bits, bp) == Symbol(b, p)
    ensures ReadBlock(bits, bp, tll, td, out) == ReadBlock(bits, p, tll, td, out + [b])
  {
    hide Walk, ReadCopy, CopyBack;
  }

  lemma EndStep(bits: BitString, bp: nat, tll: Trie, td: Trie, out: seq<byte>, p: nat)
    requires tll.Node? && td.Node? && bp <= |bits| && Walk(tll, bits, bp) == Symbol(256, p)
    ensures ReadBlock(bits, bp, tll, td, out) == Done(out, p)
  {
    hide Walk, ReadCopy, CopyBack;
  }

  lemma CopyStep(bits: BitString, bp: nat, tll: Trie, td: Trie, out: seq<byte>, l: nat, length: nat, distance: nat,
                 p: nat, p': nat)
    requires tll.Node? && td.Node? && bp <= |bits| && l < 29 && ValidToken(|out|, Copy(length, distance))
    requires Walk(tll, bits, bp) == Symbol(l + FIRST_LENGTH_CODE_INDEX, p)
    requires ReadCopy(bits, p, td, l) == Done(Copy(length, distance), p')
    ensures ReadBlock(bits, bp, tll, td, out) == ReadBlock(bits, p', tll, td, CopyBack(out, length, distance))
  {
    hide Walk, ReadCopy, CopyBack;
  }

  /** The last token of a valid sequence fits what the others expand to. */
  lemma {:induction false} ValidFront(hist: seq<byte>, toks: seq<Token>, t: Token)
    requires ValidTokens(hist, toks + [t])
    ensures ValidTokens(hist, toks) && ValidToken(|Expand(hist, toks)|, t)
    ensures Expand(hist, toks + [t]) == Apply(Expand(hist, toks), t)
    decreases |toks|
  {
    if toks == [] {
      assert ([] + [t])[1..] == [] && ([] + [t])[0] == t;
      assert Expand(Apply(hist, t), []) == Apply(hist, t);
    } else {
      assert (toks + [t])[1..] == toks[1..] + [t] && (toks + [t])[0] == toks[0];
      ValidFront(Apply(hist, toks[0]), toks[1..], t);
    }
  }

  lemma {:induction false} TokensRead(bits: BitString, bp: nat, ll: seq<nat>, d: seq<nat>, toks: seq<Token>,
                                      out: seq<byte>)
    requires Complete(ll, 15) && Complete(d, 15) && AllHaveWords(ll, d, toks) && ValidTokens(out, toks)
    requires At(bits, bp, TokensBits(ll, d, toks)) && bp + |TokensBits(ll, d, toks)| < |bits|
    ensures ReadBlock(bits, bp, CodeTree(ll, 15), CodeTree(d, 15), out) ==
            ReadBlock(bits, bp + |TokensBits(ll, d, toks)|, CodeTree(ll, 15), CodeTree(d, 15), Expand(out, toks))
    decreases |toks|
  {
    hide ReadBlock, CodeTree, Complete, TokenBits, HasWords, At;
    if toks != [] {
      var front, t := toks[..|toks| - 1], toks[|toks| - 1];
      assert toks == front + [t];
      ValidFront(out, front, t);
      AtSplit(bits, bp, TokensBits(ll, d, front), TokenBits(ll, d, t));
      TokensRead(bits, bp, ll, d, front, out);
      TokenReads(bits, bp + |TokensBits(ll, d, front)|, ll, d, t, Expand(out, front));
    }
  }

  /** All tokens and the end code. */
  ghost function DataBits(ll: seq<nat>, d: seq<nat>, toks: seq<Token>): BitString
    requires AllHaveWords(ll, d, toks) && Present(ll, 256)
  {
    TokensBits(ll, d, toks) + Word(ll, 256)
  }

  lemma DataReads(bits: BitString, bp: nat, ll: seq<nat>, d: seq<nat>, toks: seq<Token>, out: seq<byte>)
    requires Complete(ll, 15) && Complete(d, 15) && AllHaveWords(ll, d, toks) && Present(ll, 256)
    requires ValidTokens(out, toks) && At(bits, bp, DataBits(ll, d, toks))
    ensures ReadBlock(bits, bp, CodeTree(ll, 15), CodeTree(d, 15), out) ==
            Done(Expand(out, toks), bp + |DataBits(ll, d, toks)|)
  {
    hide CodeTree, Complete, TokensBits, Walk, Expand, ReadBlock, AllHaveWords, ValidTokens;
    AtSplit(bits, bp, TokensBits(ll, d, toks), Word(ll, 256));
    TokensRead(bits, bp, ll, d, toks, out);
    var p := bp + |TokensBits(ll, d, toks)|;
    SymbolAt(ll, 15, 256, bits, p);
    EndStep(bits, p, CodeTree(ll, 15), CodeTree(d, 15), Expand(out, toks), p + ll[256]);
  }

  // ---------------------------------------------------------------- runs of code lengths

  function RunSymbol(r: Run): nat
  {
    match r
    case Len(v) => v
    case Again(_) => 16
    case Zeros(_) => 17
    case ManyZeros(_) => 18
  }

  function RunBits(cl: seq<nat>, r: Run): BitString
    requires Present(cl, RunSymbol(r))
  {
    match r
    case Len(v) => Word(cl, v)
    case Again(n) => if n < 3 then [] else Word(cl, 16) + LsbBits(n - 3, 2)
    case Zeros(n) => if n < 3 then [] else Word(cl, 17) + LsbBits(n - 3, 3)
    case ManyZeros(n) => if n < 11 then [] else Word(cl, 18) + LsbBits(n - 11, 7)
  }

  ghost predicate AllPresent(cl: seq<nat>, rs: seq<Run>)
  {
    forall i :: 0 <= i < |rs| ==> Present(cl, RunSymbol(rs[i]))
  }

  ghost function RunsBits(cl: seq<nat>, rs: seq<Run>): BitString
    requires AllPresent(cl, rs)
  {
    if rs == [] then [] else RunsBits(cl, rs[..|rs| - 1]) + RunBits(cl, rs[|rs| - 1])
  }

  /** One run is read, and its repeat field fits. */
  lemma RunReads(bits: BitString, bp: nat, cl: seq<nat>, r: Run, total: nat, have: seq<nat>)
    requires Complete(cl, 7) && Present(cl, RunSymbol(r)) && ValidRun(|have|, r)
    requires At(bits, bp, RunBits(cl, r)) && |ApplyRun(have, r)| <= total
    ensures ReadRuns(bits, bp, CodeTree(cl, 7), total, have) ==
            ReadRuns(bits, bp + |RunBits(cl, r)|, CodeTree(cl, 7), total, ApplyRun(have, r))
  {
    hide Walk, CodeTree, Complete, Field, Fill, Word, LsbBits, ReadRuns, At, Pow2;
    match r
    case Len(v) =>
      SymbolAt(cl, 7, v, bits, bp);
      LengthStep(bits, bp, CodeTree(cl, 7), total, have, v, bp + cl[v]);
    case Again(n) => AgainRead(bits, bp, cl, n, total, have);
    case Zeros(n) => ZerosRead(bits, bp, cl, n, total, have);
    case ManyZeros(n) => ManyZerosRead(bits, bp, cl, n, total, have);
  }

  lemma AgainRead(bits: BitString, bp: nat, cl: seq<nat>, n: nat, total: nat, have: seq<nat>)
    requires Complete(cl, 7) && Present(cl, 16) && 3 <= n <= 6 && have != [] && |have| + n <= total
    requires At(bits, bp, Word(cl, 16) + LsbBits(n - 3, 2))
    ensures |Word(cl, 16) + LsbBits(n - 3, 2)| == cl[16] + 2 && bp + cl[16] + 2 <= |bits|
    ensures ReadRuns(bits, bp, CodeTree(cl, 7), total, have) ==
            ReadRuns(bits, bp + cl[16] + 2, CodeTree(cl, 7), total, have + Fill(have[|have| - 1], n))
  {
    hide Walk, CodeTree, Complete, Field, Fill, Word, LsbBits, ReadRuns, At, Pow2;
    assert n - 3 < Pow2(2) by { Pow2Bytes(); }
    RepeatAt(bits, bp, cl, 16, n - 3, 2);
    AgainStep(bits, bp, CodeTree(cl, 7), total, have, n, bp + cl[16]);
  }

  lemma ZerosRead(bits: BitString, bp: nat, cl: seq<nat>, n: nat, total: nat, have: seq<nat>)
    requires Complete(cl, 7) && Present(cl, 17) && 3 <= n <= 10 && |have| + n <= total
    requires At(bits, bp, Word(cl, 17) + LsbBits(n - 3, 3))
    ensures |Word(cl, 17) + LsbBits(n - 3, 3)| == cl[17] + 3 && bp + cl[17] + 3 <= |bits|
    ensures ReadRuns(bits, bp, CodeTree(cl, 7), total, have) ==
            ReadRuns(bits, bp + cl[17] + 3, CodeTree(cl, 7), total, have + Fill(0, n))
  {
    hide Walk, CodeTree, Complete, Field, Fill, Word, LsbBits, ReadRuns, At, Pow2;
    assert n - 3 < Pow2(3) by { Pow2Bytes(); }
    RepeatAt(bits, bp, cl, 17, n - 3, 3);
    ZerosStep(bits, bp, CodeTree(cl, 7), total, have, n, bp + cl[17]);
  }

  lemma ManyZerosRead(bits: BitString, bp: nat, cl: seq<nat>, n: nat, total: nat, have: seq<nat>)
    requires Complete(cl, 7) && Present(cl, 18) && 11 <= n <= 138 && |have| + n <= total
    requires At(bits, bp, Word(cl, 18) + LsbBits(n - 11, 7))
    ensures |Word(cl, 18) + LsbBits(n - 11, 7)| == cl[18] + 7 && bp + cl[18] + 7 <= |bits|
    ensures ReadRuns(bits, bp, CodeTree(cl, 7), total, have) ==
            ReadRuns(bits, bp + cl[18] + 7, CodeTree(cl, 7), total, have + Fill(0, n))
  {
    hide Walk, CodeTree, Complete, Field, Fill, Word, LsbBits, ReadRuns, At, Pow2;
    assert n - 11 < Pow2(7) by { Pow2Bytes(); }
    RepeatAt(bits, bp, cl, 18, n - 11, 7);
    ManyZerosStep(bits, bp, CodeTree(cl, 7), total, have, n, bp + cl[18]);
  }

  lemma RepeatAt(bits: BitString, bp: nat, cl: seq<nat>, code: nat, field: nat, nbits: nat)
    requires Complete(cl, 7) && Present(cl, code) && field < Pow2(nbits) && nbits > 0
    requires At(bits, bp, Word(cl, code) + LsbBits(field, nbits))
    ensures CodeTree(cl, 7).Node? && bp <= |bits| && |Word(cl, code) + LsbBits(field, nbits)| == cl[code] + nbits
    ensures Walk(CodeTree(cl, 7), bits, bp) == Symbol(code, bp + cl[code])
    ensures bp + cl[code] + nbits <= |bits| && Field(bits, bp + cl[code], nbits) == field
  {
    hide Walk, CodeTree, Complete, Field, LsbBits;
    AtSplit(bits, bp, Word(cl, code), LsbBits(field, nbits));
    SymbolAt(cl, 7, code, bits, bp);
    FieldAt(bits, bp + cl[code], field, nbits);
  }

  lemma LengthStep(bits: BitString, bp: nat, t: Trie, total: nat, have: seq<nat>, v: nat, p: nat)
    requires t.Node? && bp <= |bits| && |have| < total && v <= 15 && Walk(t, bits, bp) == Symbol(v, p)
    ensures ReadRuns(bits, bp, t, total, have) == ReadRuns(bits, p, t, total, have + [v])
  {
    hide Walk, Field, Fill;
  }

  lemma AgainStep(bits: BitString, bp: nat, t: Trie, total: nat, have: seq<nat>, n: nat, p: nat)
    requires t.Node? && bp <= |bits| && 3 <= n <= 6 && have != [] && |have| + n <= total
    requires Walk(t, bits, bp) == Symbol(16, p) && p + 2 <= |bits| && Field(bits, p, 2) == n - 3
    ensures ReadRuns(bits, bp, t, total, have) == ReadRuns(bits, p + 2, t, total, have + Fill(have[|have| - 1], n))
  {
    hide Walk, Field, Fill;
  }

  lemma ZerosStep(bits: BitString, bp: nat, t: Trie, total: nat, have: seq<nat>, n: nat, p: nat)
    requires t.Node? && bp <= |bits| && 3 <= n <= 10 && |have| + n <= total
    requires Walk(t, bits, bp) == Symbol(17, p) && p + 3 <= |bits| && Field(bits, p, 3) == n - 3
    ensures ReadRuns(bits, bp, t, total, have) == ReadRuns(bits, p + 3, t, total, have + Fill(0, n))
  {
    hide Walk, Field, Fill;
  }

  lemma ManyZerosStep(bits: BitString, bp: nat, t: Trie, total: nat, have: seq<nat>, n: nat, p: nat)
    requires t.Node? && bp <= |bits| && 11 <= n <= 138 && |have| + n <= total
    requires Walk(t, bits, bp) == Symbol(18, p) && p + 7 <= |bits| && Field(bits, p, 7) == n - 11
    ensures ReadRuns(bits, bp, t, total, have) == ReadRuns(bits, p + 7, t, total, have + Fill(0, n))
  {
    hide Walk, Field, Fill;
  }

  lemma {:induction false} ValidRunsFront(have: seq<nat>, rs: seq<Run>, r: Run)
    requires ValidRuns(have, rs + [r])
    ensures ValidRuns(have, rs) && ValidRun(|ExpandRuns(have, rs)|, r)
    ensures ExpandRuns(have, rs + [r]) == ApplyRun(ExpandRuns(have, rs), r)
    decreases |rs|
  {
    if rs == [] {
      assert ([] + [r])[1..] == [] && ([] + [r])[0] == r;
      assert ExpandRuns(ApplyRun(have, r), []) == ApplyRun(have, r);
    } else {
      assert (rs + [r])[1..] == rs[1..] + [r] && (rs + [r])[0] == rs[0];
      ValidRunsFront(ApplyRun(have, rs[0]), rs[1..], r);
    }
  }

  lemma {:induction false} RunsRead(bits: BitString, bp: nat, cl: seq<nat>, rs: seq<Run>, total: nat)
    requires Complete(cl, 7) && AllPresent(cl, rs) && ValidRuns([], rs)
    requires At(bits, bp, RunsBits(cl, rs)) && |ExpandRuns([], rs)| <= total
    ensures ReadRuns(bits, bp, CodeTree(cl, 7), total, []) ==
            ReadRuns(bits, bp + |RunsBits(cl, rs)|, CodeTree(cl, 7), total, ExpandRuns([], rs))
    decreases |rs|
  {
    hide ReadRuns, CodeTree, Complete, RunBits, RunSymbol, At, ApplyRun;
    if rs != [] {
      var front, r := rs[..|rs| - 1], rs[|rs| - 1];
      assert rs == front + [r];
      ValidRunsFront([], front, r);
      AtSplit(bits, bp, RunsBits(cl, front), RunBits(cl, r));
      RunsRead(bits, bp, cl, front, total);
      RunReads(bits, bp + |RunsBits(cl, front)|, cl, r, total, ExpandRuns([], front));
    }
  }

  // ---------------------------------------------------------------- the dynamic header

  function ClBits(cl: seq<nat>, n: nat): (r: BitString)
    requires |cl| == NUM_CODE_LENGTH_CODES && n <= NUM_CODE_LENGTH_CODES
    ensures |r| == 3 * n
  {
    if n == 0 then [] else ClBits(cl, n - 1) + LsbBits(cl[Order(n - 1)], 3)
  }

  lemma {:induction false} ClBitsAt(bits: BitString, p: nat, cl: seq<nat>, n: nat, i: nat)
    requires |cl| == NUM_CODE_LENGTH_CODES && i < n <= NUM_CODE_LENGTH_CODES && At(bits, p, ClBits(cl, n))
    ensures At(bits, p + 3 * i, LsbBits(cl[Order(i)], 3))
  {
    assert ClBits(cl, n) == ClBits(cl, n - 1) + LsbBits(cl[Order(n - 1)], 3);
    hide ClBits, At, LsbBits, Order;
    AtSplit(bits, p, ClBits(cl, n - 1), LsbBits(cl[Order(n - 1)], 3));
    if i < n - 1 {
      ClBitsAt(bits, p, cl, n - 1, i);
    }
  }

  /** The code length code lengths that a header of n entries can carry. */
  ghost predicate ClFits(cl: seq<nat>, n: nat)
  {
    && |cl| == NUM_CODE_LENGTH_CODES && 4 <= n <= NUM_CODE_LENGTH_CODES && Complete(cl, 7)
    && forall i :: n <= i < NUM_CODE_LENGTH_CODES ==> cl[Order(i)] == 0
  }

  lemma ClBitsRead(bits: BitString, p: nat, cl: seq<nat>, n: nat)
    requires ClFits(cl, n) && At(bits, p, ClBits(cl, n))
    ensures ClLengths(bits, p, n) == cl
  {
    hide ClBits, At, Field, LsbBits, Order, Place;
    assert p + 3 * n <= |bits| by { assert |ClBits(cl, n)| == 3 * n; ClBitsEnd(bits, p, cl, n); }
    forall s | 0 <= s < NUM_CODE_LENGTH_CODES
      ensures ClLengths(bits, p, n)[s] == cl[s]
    {
      var i := Place(s);
      OrderPlace(s);
      if i < n {
        ClBitsAt(bits, p, cl, n, i);
        assert Pow2(3) == 8 by { Pow2Bytes(); }
        FieldAt(bits, p + 3 * i, cl[s], 3);
      }
    }
  }

  lemma ClBitsEnd(bits: BitString, p: nat, cl: seq<nat>, n: nat)
    requires |cl| == NUM_CODE_LENGTH_CODES && n <= NUM_CODE_LENGTH_CODES && At(bits, p, ClBits(cl, n))
    ensures p + 3 * n <= |bits|
  {
  }

  function CountBits(hlit: nat, hdist: nat, n: nat): (r: BitString)
    requires hlit >= 257 && hdist >= 1 && n >= 4
    ensures |r| == 14
  {
    LsbBits(hlit - 257, 5) + LsbBits(hdist - 1, 5) + LsbBits(n - 4, 4)
  }

  ghost function HeaderBits(hlit: nat, hdist: nat, n: nat, cl: seq<nat>, rs: seq<Run>): BitString
    requires hlit >= 257 && hdist >= 1 && ClFits(cl, n) && AllPresent(cl, rs)
  {
    CountBits(hlit, hdist, n) + ClBits(cl, n) + RunsBits(cl, rs)
  }

  lemma CountsRead(bits: BitString, bp: nat, hlit: nat, hdist: nat, n: nat)
    requires 257 <= hlit <= 288 && 1 <= hdist <= 32 && 4 <= n <= 19
    requires At(bits, bp, CountBits(hlit, hdist, n))
    ensures bp + 14 <= |bits|
    ensures Field(bits, bp, 5) == hlit - 257 && Field(bits, bp + 5, 5) == hdist - 1
    ensures Field(bits, bp + 10, 4) == n - 4
  {
    hide LsbBits, Field;
    assert Pow2(5) == 32 && Pow2(4) == 16 by { Pow2Bytes(); }
    var a, b, c := LsbBits(hlit - 257, 5), LsbBits(hdist - 1, 5), LsbBits(n - 4, 4);
    AtSplit(bits, bp, a + b, c);
    AtSplit(bits, bp, a, b);
    FieldAt(bits, bp, hlit - 257, 5);
    FieldAt(bits, bp + 5, hdist - 1, 5);
    FieldAt(bits, bp + 10, n - 4, 4);
  }

  lemma ClCodeReads(bits: BitString, bp: nat, hlit: nat, hdist: nat, n: nat, cl: seq<nat>)
    requires 257 <= hlit <= 288 && 1 <= hdist <= 32 && ClFits(cl, n)
    requires At(bits, bp, CountBits(hlit, hdist, n) + ClBits(cl, n))
    ensures ReadClCode(bits, bp) == Done((hlit, hdist, cl), bp + 14 + 3 * n)
  {
    hide CountBits, ClBits, Field, Complete, ClLengths;
    AtSplit(bits, bp, CountBits(hlit, hdist, n), ClBits(cl, n));
    CountsRead(bits, bp, hlit, hdist, n);
    ClBitsRead(bits, bp + 14, cl, n);
    assert bp + 26 <= |bits|;
  }

  /** The header gives back both lists of code lengths. */
  lemma HeaderReads(bits: BitString, bp: nat, n: nat, cl: seq<nat>, rs: seq<Run>, ll: seq<nat>, d: seq<nat>)
    requires 257 <= |ll| <= 288 && 1 <= |d| <= 32 && ClFits(cl, n) && AllPresent(cl, rs)
    requires ValidRuns([], rs) && ExpandRuns([], rs) == ll + d && ll[256] > 0
    requires At(bits, bp, HeaderBits(|ll|, |d|, n, cl, rs))
    ensures ReadHeader(bits, bp) ==
            Done((PadTo(ll, 288), PadTo(d, 32)),
                 bp + |HeaderBits(|ll|, |d|, n, cl, rs)|)
  {
    hide CountBits, ClBits, RunsBits, ClFits, AllPresent, CodeTree, At, ReadClCode, ReadRuns, ReadHeader, ExpandRuns,
         ValidRuns, Complete, PadTo;
    ClComplete(cl, n);
    var counts, lens := CountBits(|ll|, |d|, n), ClBits(cl, n);
    AtSplit(bits, bp, counts + lens, RunsBits(cl, rs));
    ClCodeReads(bits, bp, |ll|, |d|, n, cl);
    RunsRead(bits, bp + 14 + 3 * n, cl, rs, |ll| + |d|);
    var p := bp + 14 + 3 * n + |RunsBits(cl, rs)|;
    RunsEnd(bits, p, CodeTree(cl, 7), ll + d);
    HeaderStep(bits, bp, cl, ll, d, bp + 14 + 3 * n, p);
  }

  lemma RunsEnd(bits: BitString, p: nat, t: Trie, have: seq<nat>)
    requires t.Node? && p <= |bits|
    ensures ReadRuns(bits, p, t, |have|, have) == Done(have, p)
  {
  }

  lemma PaddedAt(s: seq<nat>, n: nat, i: nat)
    requires i < |s| <= n
    ensures PadTo(s, n)[i] == s[i]
  {
  }

  lemma HeaderStep(bits: BitString, bp: nat, cl: seq<nat>, ll: seq<nat>, d: seq<nat>, p: nat, p': nat)
    requires 257 <= |ll| <= 288 && 1 <= |d| <= 32 && Complete(cl, 7) && ll[256] > 0 && bp <= |bits| && p <= |bits|
    requires ReadClCode(bits, bp) == Done((|ll|, |d|, cl), p)
    requires ReadRuns(bits, p, CodeTree(cl, 7), |ll| + |d|, []) == Done(ll + d, p')
    ensures ReadHeader(bits, bp) == Done((PadTo(ll, 288), PadTo(d, 32)), p')
  {
    hide ReadClCode, ReadRuns, CodeTree, Complete, PadTo;
    assert (ll + d)[..|ll|] == ll && (ll + d)[|ll|..] == d;
    PaddedAt(ll, 288, 256);
  }

  lemma ClComplete(cl: seq<nat>, n: nat)
    requires ClFits(cl, n)
    ensures Complete(cl, 7) && |cl| == NUM_CODE_LENGTH_CODES && 4 <= n <= NUM_CODE_LENGTH_CODES
  {
  }

  // ---------------------------------------------------------------- whole blocks

  /** Wherever this body stands, reading it after out gives out'. */
  ghost predicate IsBody(body: BitString, btype: nat, out: seq<byte>, out': seq<byte>)
    requires btype <= 2
  {
    forall bits: BitString, bp: nat :: At(bits, bp, body) ==> ReadBody(bits, bp, btype, out) == Done(out', bp + |body|)
  }

  lemma FixedBody(toks: seq<Token>, out: seq<byte>)
    requires AllHaveWords(FIXED_LL, FIXED_D, toks) && ValidTokens(out, toks)
    ensures Present(FIXED_LL, 256)
    ensures IsBody(DataBits(FIXED_LL, FIXED_D, toks), 1, out, Expand(out, toks))
  {
    FixedComplete();
    hide AllHaveWords, ValidTokens, Expand, CodeTree, ReadBlock;
    var body := DataBits(FIXED_LL, FIXED_D, toks);
    forall bits: BitString, bp: nat | At(bits, bp, body)
      ensures ReadBody(bits, bp, 1, out) == Done(Expand(out, toks), bp + |body|)
    {
      DataReads(bits, bp, FIXED_LL, FIXED_D, toks, out);
    }
  }

  lemma PaddedTree(lengths: seq<nat>, n: nat)
    requires Complete(lengths, 15) && |lengths| <= n
    ensures Complete(PadTo(lengths, n), 15)
    ensures CodeTree(PadTo(lengths, n), 15) == CodeTree(lengths, 15)
  {
    PadLengths(lengths, 15, n - |lengths|);
    assert PadTo(lengths, n) == lengths + seq(n - |lengths|, _ => 0);
  }

  lemma DynamicStep(bits: BitString, bp: nat, ll: seq<nat>, d: seq<nat>, out: seq<byte>, p: nat)
    requires Complete(ll, 15) && Complete(d, 15) && |ll| <= 288 && |d| <= 32 && bp <= |bits| && p <= |bits|
    requires ReadHeader(bits, bp) == Done((PadTo(ll, 288), PadTo(d, 32)), p)
    ensures ReadBody(bits, bp, 2, out) == ReadBlock(bits, p, CodeTree(ll, 15), CodeTree(d, 15), out)
  {
    hide ReadHeader, ReadBlock, CodeTree, Complete;
    PaddedTree(ll, 288);
    PaddedTree(d, 32);
  }

  lemma DynamicBody(n: nat, cl: seq<nat>, rs: seq<Run>, ll: seq<nat>, d: seq<nat>, toks: seq<Token>, out: seq<byte>)
    requires 257 <= |ll| <= 288 && 1 <= |d| <= 32 && ClFits(cl, n) && AllPresent(cl, rs)
    requires ValidRuns([], rs) && ExpandRuns([], rs) == ll + d
    requires Complete(ll, 15) && Complete(d, 15) && AllHaveWords(ll, d, toks) && Present(ll, 256)
    requires ValidTokens(out, toks)
    ensures IsBody(HeaderBits(|ll|, |d|, n, cl, rs) + DataBits(ll, d, toks), 2, out, Expand(out, toks))
  {
    hide HeaderBits, DataBits, AllHaveWords, ValidTokens, Expand, ReadBody, Complete, ClFits, AllPresent, ExpandRuns,
         ValidRuns, Present;
    var body := HeaderBits(|ll|, |d|, n, cl, rs) + DataBits(ll, d, toks);
    forall bits: BitString, bp: nat | At(bits, bp, body)
      ensures ReadBody(bits, bp, 2, out) == Done(Expand(out, toks), bp + |body|)
    {
      DynamicReads(bits, bp, n, cl, rs, ll, d, toks, out);
    }
  }

  lemma DynamicReads(bits: BitString, bp: nat, n: nat, cl: seq<nat>, rs: seq<Run>, ll: seq<nat>, d: seq<nat>,
                     toks: seq<Token>, out: seq<byte>)
    requires 257 <= |ll| <= 288 && 1 <= |d| <= 32 && ClFits(cl, n) && AllPresent(cl, rs)
    requires ValidRuns([], rs) && ExpandRuns([], rs) == ll + d
    requires Complete(ll, 15) && Complete(d, 15) && AllHaveWords(ll, d, toks) && Present(ll, 256)
    requires ValidTokens(out, toks)
    requires bp <= |bits| && At(bits, bp, HeaderBits(|ll|, |d|, n, cl, rs) + DataBits(ll, d, toks))
    ensures ReadBody(bits, bp, 2, out) ==
            Done(Expand(out, toks), bp + |HeaderBits(|ll|, |d|, n, cl, rs) + DataBits(ll, d, toks)|)
  {
    hide HeaderBits, DataBits, AllHaveWords, ValidTokens, Expand, CodeTree, ReadBlock, Complete, ClFits,
         AllPresent, ExpandRuns, ValidRuns, ReadHeader, ReadBody, PadTo, At;
    var header, data := HeaderBits(|ll|, |d|, n, cl, rs), DataBits(ll, d, toks);
    AtSplit(bits, bp, header, data);
    HeaderReads(bits, bp, n, cl, rs, ll, d);
    DataReads(bits, bp + |header|, ll, d, toks, out);
    DynamicStep(bits, bp, ll, d, out, bp + |header|);
  }

  // ---------------------------------------------------------------- streams of blocks

  function BlockHead(final: bool, btype: nat): BitString
    requires btype <= 2
  {
    [final, btype % 2 == 1, btype / 2 == 1]
  }

  /** Reading W from the start, in whatever stream begins with W, gives out and leads on to what follows W. */
  ghost predicate LeadsTo(W: BitString, out: seq<byte>)
  {
    forall bits: BitString :: At(bits, 0, W) ==> Inflate(bits, 0, []) == Inflate(bits, |W|, out)
  }

  /** Reading W from the start, in whatever stream begins with W, gives exactly out. */
  ghost predicate Inflates(W: BitString, out: seq<byte>)
  {
    forall bits: BitString :: At(bits, 0, W) ==> Inflate(bits, 0, []) == Done(out, |W|)
  }

  lemma NoBlocks()
    ensures LeadsTo([], [])
  {
  }

  lemma OneBlockMore(W: BitString, out: seq<byte>, final: bool, btype: nat, body: BitString, out': seq<byte>)
    requires LeadsTo(W, out) && btype <= 2 && IsBody(body, btype, out, out')
    ensures !final ==> LeadsTo(W + BlockHead(final, btype) + body, out')
    ensures final ==> Inflates(W + BlockHead(final, btype) + body, out')
  {
    hide Inflate, At, IsBody;
    var V, head := W + BlockHead(final, btype) + body, BlockHead(final, btype);
    forall bits: BitString | At(bits, 0, V)
      ensures |V| <= |bits|
      ensures Inflate(bits, 0, []) == if final then Done(out', |V|) else Inflate(bits, |V|, out')
    {
      AtFits(bits, 0, V);
      AtSplit(bits, 0, W + head, body);
      AtSplit(bits, 0, W, head);
      UseLead(bits, W, out);
      NextBlock(bits, |W|, final, btype, body, out, out');
    }
  }

  lemma AtFits(bits: BitString, pos: nat, w: BitString)
    requires At(bits, pos, w)
    ensures pos + |w| <= |bits|
  {
  }

  lemma UseLead(bits: BitString, W: BitString, out: seq<byte>)
    requires LeadsTo(W, out) && At(bits, 0, W)
    ensures |W| <= |bits| && Inflate(bits, 0, []) == Inflate(bits, |W|, out)
  {
    hide Inflate;
  }

  lemma NextBlock(bits: BitString, bp: nat, final: bool, btype: nat, body: BitString, out: seq<byte>, out': seq<byte>)
    requires btype <= 2 && IsBody(body, btype, out, out')
    requires At(bits, bp, BlockHead(final, btype)) && At(bits, bp + 3, body)
    ensures Inflate(bits, bp, out) ==
            if final then Done(out', bp + 3 + |body|) else Inflate(bits, bp + 3 + |body|, out')
  {
    hide ReadBody, IsBody, At, BlockHead, Inflate;
    HeadAt(bits, bp, final, btype);
    UseBody(bits, bp + 3, btype, body, out, out');
    InflateStep(bits, bp, final, btype, out, out', bp + 3 + |body|);
  }

  lemma InflateStep(bits: BitString, bp: nat, final: bool, btype: nat, out: seq<byte>, out': seq<byte>, p: nat)
    requires bp + 3 <= |bits| && btype <= 2 && bits[bp] == final
    requires (if bits[bp + 1] then 1 else 0) + (if bits[bp + 2] then 2 else 0) == btype
    requires ReadBody(bits, bp + 3, btype, out) == Done(out', p)
    ensures p <= |bits| && Inflate(bits, bp, out) == if final then Done(out', p) else Inflate(bits, p, out')
  {
    hide ReadBody;
  }

  lemma HeadAt(bits: BitString, bp: nat, final: bool, btype: nat)
    requires btype <= 2 && At(bits, bp, BlockHead(final, btype))
    ensures bp + 3 <= |bits| && bits[bp] == final
    ensures (if bits[bp + 1] then 1 else 0) + (if bits[bp + 2] then 2 else 0) == btype
  {
    var three := bits[bp..bp + 3];
    assert three == BlockHead(final, btype);
    assert three[0] == bits[bp] && three[1] == bits[bp + 1] && three[2] == bits[bp + 2];
  }

  lemma UseBody(bits: BitString, bp: nat, btype: nat, body: BitString, out: seq<byte>, out': seq<byte>)
    requires btype <= 2 && IsBody(body, btype, out, out') && At(bits, bp, body)
    ensures bp + |body| <= |bits| && ReadBody(bits, bp, btype, out) == Done(out', bp + |body|)
  {
  }
}

/** The deflater: tokens and code lengths become bits; stored, fixed and dynamic blocks; streams of blocks. */
module Deflater {
  import opened Powers
  import opened Bits
  import opened Canonical
  import opened Huffman
  import opened PackageMerge
  import opened MergeOptimal
  import opened CodeLengths
  import opened Tokens
  import opened Lz77
  import opened RunLengths
  import opened InflateSpec
  import opened BlockBits
  import Inflater

  datatype Settings = Settings(btype: nat, use_lz77: bool, windowsize: nat, minmatch: nat, nicematch: nat,
                               lazymatching: bool)

  // ---------------------------------------------------------------- trees from frequencies

  lemma {:induction false} PresentPrefix(freq: seq<nat>, n: nat, k: nat)
    requires k <= n <= |freq|
    ensures NumPresent(freq[..n], k) == NumPresent(freq, k) <= k
  {
    if k > 0 {
      PresentPrefix(freq, n, k - 1);
    }
  }

  /** A complete code with a word for every symbol that occurs; absent symbols at the end are cut off. */
  method MakeFromFrequencies(frequencies: seq<nat>, mincodes: nat, maxbitlen: nat)
    returns (error: nat, tree: HuffmanTree)
    requires 2 <= mincodes <= |frequencies| <= 288 && 0 < maxbitlen <= 15 && |frequencies| <= Pow2(maxbitlen)
    ensures error == 0 && ValidTree(tree) && tree.maxbitlen == maxbitlen
    ensures mincodes <= tree.numcodes <= |frequencies|
    ensures forall s :: 0 <= s < |frequencies| && frequencies[s] > 0 ==> Present(tree.lengths, s)
    ensures var freq := frequencies[..tree.numcodes];
            NumPresent(freq, |freq|) >= 2 ==>
              && Admissible(tree.lengths, freq, maxbitlen)
              && forall alt :: Admissible(alt, freq, maxbitlen) ==>
                   Cost(tree.lengths, freq, |freq|) <= Cost(alt, freq, |freq|)
  {
    hide ValidTree, Complete, Admissible, Cost, NumPresent;
    var numcodes := |frequencies|;
    while frequencies[numcodes - 1] == 0 && numcodes > mincodes
      invariant mincodes <= numcodes <= |frequencies|
      invariant forall s :: numcodes <= s < |frequencies| ==> frequencies[s] == 0
    {
      numcodes := numcodes - 1;
    }
    PresentPrefix(frequencies, numcodes, numcodes);
    var ok, lengths;
    error, ok, lengths := HuffmanCodeLengths(frequencies[..numcodes], maxbitlen);
    CompleteBounded(lengths, maxbitlen);
    error, tree := MakeFromLengths2(lengths, maxbitlen);
    ValidSizes(tree);
  }

  lemma CompleteBounded(lengths: seq<nat>, maxbitlen: nat)
    requires Complete(lengths, maxbitlen)
    ensures Bounded(lengths, maxbitlen)
  {
  }

  lemma ValidSizes(tree: HuffmanTree)
    requires ValidTree(tree)
    ensures tree.numcodes == |tree.lengths| == |tree.tree1d| && Complete(tree.lengths, tree.maxbitlen)
  {
  }

  // ---------------------------------------------------------------- values and tokens

  ghost predicate AllSized(toks: seq<Token>)
  {
    forall i :: 0 <= i < |toks| ==> Sized(toks[i])
  }

  lemma {:induction false} ValidAreSized(hist: seq<byte>, toks: seq<Token>)
    requires ValidTokens(hist, toks)
    ensures AllSized(toks)
    decreases |toks|
  {
    if toks != [] {
      ValidAreSized(Apply(hist, toks[0]), toks[1..]);
      forall i | 0 <= i < |toks|
        ensures Sized(toks[i])
      {
        assert i > 0 ==> toks[i] == toks[1..][i - 1];
      }
    }
  }

  lemma FlatSized(t: Token)
    requires Sized(t)
    ensures t.Literal? ==> Flat(t) == [t.b]
    ensures t.Copy? ==> Flat(t) == [LengthIndex(t.length) + FIRST_LENGTH_CODE_INDEX, ExtraLength(t.length),
                                    DistanceIndex(t.distance), ExtraDistance(t.distance)]
  {
    if t.Copy? {
      TokenFits(t.length, t.distance);
    }
  }

  lemma {:induction false} FlatPrefix(toks: seq<Token>, k: nat)
    requires k <= |toks|
    ensures FlatAll(toks[..k]) <= FlatAll(toks)
  {
    if k < |toks| {
      FlatPrefix(toks[..|toks| - 1], k);
      assert toks[..|toks| - 1][..k] == toks[..k];
    } else {
      assert toks[..k] == toks;
    }
  }

  /** Where the values of token k stand. */
  lemma FlatAt(toks: seq<Token>, k: nat)
    requires k < |toks|
    ensures var i, n := |FlatAll(toks[..k])|, |Flat(toks[k])|;
            && |FlatAll(toks[..k + 1])| == i + n <= |FlatAll(toks)|
            && FlatAll(toks)[i..i + n] == Flat(toks[k])
  {
    hide Flat, FlatAll;
    FlatPrefix(toks, k + 1);
    assert toks[..k + 1] == toks[..k] + [toks[k]];
    FlatAllAppend(toks[..k], toks[k]);
    var i, n := |FlatAll(toks[..k])|, |Flat(toks[k])|;
    assert FlatAll(toks)[i..i + n] == FlatAll(toks)[..i + n][i..];
  }

  lemma FlatNone(toks: seq<Token>)
    ensures toks[..0] == [] && FlatAll(toks[..0]) == []
  {
  }

  /** The literal and length symbols, and the distance symbols, of a token sequence. */
  function LlSymbols(toks: seq<Token>): seq<nat>
  {
    if toks == [] then [] else LlSymbols(toks[..|toks| - 1]) + [LlSymbol(toks[|toks| - 1])]
  }

  function DistanceSymbols(toks: seq<Token>): seq<nat>
  {
    if toks == [] then [] else
      DistanceSymbols(toks[..|toks| - 1]) + DistanceSymbol(toks[|toks| - 1])
  }

  function DistanceSymbol(t: Token): seq<nat>
  {
    match t
    case Literal(_) => []
    case Copy(_, distance) => [DistanceIndex(distance)]
  }

  lemma SymbolsNext(toks: seq<Token>, k: nat)
    requires k < |toks|
    ensures LlSymbols(toks[..k + 1]) == LlSymbols(toks[..k]) + [LlSymbol(toks[k])]
    ensures DistanceSymbols(toks[..k + 1]) == DistanceSymbols(toks[..k]) + DistanceSymbol(toks[k])
  {
    assert toks[..k + 1][..k] == toks[..k];
  }

  lemma NoSymbols(toks: seq<Token>)
    ensures LlSymbols(toks[..0]) == DistanceSymbols(toks[..0]) == []
  {
  }

  lemma {:induction false} SymbolsIn(toks: seq<Token>, i: nat)
    requires i < |toks|
    ensures match toks[i]
            case Literal(b) => b in LlSymbols(toks)
            case Copy(length, distance) =>
              LlSymbol(toks[i]) in LlSymbols(toks) && DistanceIndex(distance) in DistanceSymbols(toks)
  {
    if i < |toks| - 1 {
      SymbolsIn(toks[..|toks| - 1], i);
    }
  }

  /** Counts the symbols; the end code counts once. */
  method CountFrequencies(values: seq<nat>, ghost toks: seq<Token>) returns (ll: array<nat>, d: array<nat>)
    requires values == FlatAll(toks) && AllSized(toks)
    ensures ll.Length == 286 && d.Length == 30
    ensures forall s :: 0 <= s < 286 ==> ll[s] == if s == 256 then 1 else multiset(LlSymbols(toks))[s]
    ensures forall s :: 0 <= s < 30 ==> d[s] == multiset(DistanceSymbols(toks))[s]
  {
    hide Flat, FlatAll, LlSymbols, DistanceSymbols, Sized, CodeIndex;
    ll := new nat[286](_ => 0);
    d := new nat[30](_ => 0);
    var i: nat := 0;
    ghost var k: nat := 0;
    FlatNone(toks);
    NoSymbols(toks);
    while i < |values|
      invariant k <= |toks| && i == |FlatAll(toks[..k])|
      invariant forall s :: 0 <= s < 286 ==> ll[s] == multiset(LlSymbols(toks[..k]))[s]
      invariant forall s :: 0 <= s < 30 ==> d[s] == multiset(DistanceSymbols(toks[..k]))[s]
      decreases |values| - i
    {
      NotDone(toks, k);
      FlatAt(toks, k);
      SymbolsNext(toks, k);
      ValuesAt(values, i, toks[k]);
      var symbol := values[i];
      ll[symbol] := ll[symbol] + 1;
      if symbol > 256 {
        var dist := values[i + 2];
        d[dist] := d[dist] + 1;
        i := i + 3;
      }
      i := i + 1;
      k := k + 1;
    }
    AllDone(toks, k);
    ll[256] := 1;
  }

  lemma NotDone(toks: seq<Token>, k: nat)
    requires k <= |toks| && |FlatAll(toks[..k])| < |FlatAll(toks)|
    ensures k < |toks|
  {
    assert toks[..|toks|] == toks;
  }

  lemma AllDone(toks: seq<Token>, k: nat)
    requires k <= |toks| && |FlatAll(toks[..k])| >= |FlatAll(toks)| && AllSized(toks)
    ensures toks[..k] == toks
  {
    if k < |toks| {
      FlatAt(toks, k);
      assert Sized(toks[k]);
      FlatSized(toks[k]);
    }
  }

  /** The values of one token, position by position. */
  lemma ValuesAt(values: seq<nat>, i: nat, t: Token)
    requires Sized(t) && i + |Flat(t)| <= |values| && values[i..i + |Flat(t)|] == Flat(t)
    ensures |Flat(t)| == if t.Copy? then 4 else 1
    ensures i + |Flat(t)| <= |values| && values[i] == LlSymbol(t)
    ensures (values[i] > 256) == t.Copy?
    ensures t.Copy? ==>
              && values[i + 1] == ExtraLength(t.length)
              && values[i + 2] == DistanceIndex(t.distance)
              && values[i + 3] == ExtraDistance(t.distance)
  {
    FlatSized(t);
    var slice := values[i..i + |Flat(t)|];
    assert values[i] == slice[0];
    if t.Copy? {
      assert values[i + 1] == slice[1] && values[i + 2] == slice[2] && values[i + 3] == slice[3];
    }
  }

  // ---------------------------------------------------------------- writing tokens

  /** The values at index i, and what they stand for. */
  method WriteToken(bp: nat, out: UcVector, values: seq<nat>, i: nat, tree_ll: HuffmanTree, tree_d: HuffmanTree,
                    ghost t: Token, ghost base: nat) returns (bp': nat, i': nat)
    requires Padded(out.data, base, bp) && ValidTree(tree_ll) && ValidTree(tree_d)
    requires HasWords(tree_ll.lengths, tree_d.lengths, t)
    requires i + |Flat(t)| <= |values| && values[i..i + |Flat(t)|] == Flat(t)
    modifies out
    ensures i' == i + |Flat(t)|
    ensures bp' == bp + |TokenBits(tree_ll.lengths, tree_d.lengths, t)| && Padded(out.data, base, bp')
    ensures out.data[..base] == old(out.data[..base])
    ensures Stream(out.data, base, bp') ==
            old(Stream(out.data, base, bp)) + TokenBits(tree_ll.lengths, tree_d.lengths, t)
  {
    hide ValidTree, Padded, Stream, LsbBits, Flat, Word, LengthIndex, DistanceIndex, ExtraLength, ExtraDistance,
         TokenBits, HasWords;
    ghost var ll, d, before := tree_ll.lengths, tree_d.lengths, Stream(out.data, base, bp);
    HasWordsSized(ll, d, t);
    TokenParts(ll, d, t);
    ValuesAt(values, i, t);
    ValidSizes(tree_ll);
    ValidSizes(tree_d);
    var val := values[i];
    i' := i;
    bp' := AddHuffmanSymbol(bp, out, tree_ll, val, base);
    if val > 256 {
      var length_index := val - FIRST_LENGTH_CODE_INDEX;
      var n_length_extra_bits := LENGTHEXTRA[length_index];
      i' := i' + 1;
      var length_extra_bits := values[i'];
      i' := i' + 1;
      var distance_code := values[i'];
      var n_distance_extra_bits := DISTANCEEXTRA[distance_code];
      i' := i' + 1;
      var distance_extra_bits := values[i'];
      bp' := AddBitsToStream(bp', out, length_extra_bits, n_length_extra_bits, base);
      bp' := AddHuffmanSymbol(bp', out, tree_d, distance_code, base);
      bp' := AddBitsToStream(bp', out, distance_extra_bits, n_distance_extra_bits, base);
      Regroup(before, Word(ll, val), LsbBits(length_extra_bits, n_length_extra_bits), Word(d, distance_code),
              LsbBits(distance_extra_bits, n_distance_extra_bits));
    }
    i' := i' + 1;
  }

  lemma Regroup(s: BitString, a: BitString, b: BitString, c: BitString, d: BitString)
    ensures s + a + b + c + d == s + (a + b + c + d)
    ensures s + a + b + c == s + a + (b + c)
  {
  }

  method WriteLZ77data(bp: nat, out: UcVector, values: seq<nat>, tree_ll: HuffmanTree, tree_d: HuffmanTree,
                       ghost toks: seq<Token>, ghost base: nat) returns (bp': nat)
    requires Padded(out.data, base, bp) && ValidTree(tree_ll) && ValidTree(tree_d)
    requires values == FlatAll(toks) && AllHaveWords(tree_ll.lengths, tree_d.lengths, toks)
    modifies out
    ensures bp' == bp + |TokensBits(tree_ll.lengths, tree_d.lengths, toks)| && Padded(out.data, base, bp')
    ensures out.data[..base] == old(out.data[..base])
    ensures Stream(out.data, base, bp') ==
            old(Stream(out.data, base, bp)) + TokensBits(tree_ll.lengths, tree_d.lengths, toks)
  {
    hide ValidTree, Padded, Stream, Flat, FlatAll, TokenBits, HasWords;
    ghost var ll, d := tree_ll.lengths, tree_d.lengths;
    var i: nat := 0;
    ghost var k: nat := 0;
    bp' := bp;
    FlatNone(toks);
    while i < |values|
      invariant k <= |toks| && i == |FlatAll(toks[..k])|
      invariant bp' == bp + |TokensBits(ll, d, toks[..k])| && Padded(out.data, base, bp')
      invariant out.data[..base] == old(out.data[..base])
      invariant Stream(out.data, base, bp') == old(Stream(out.data, base, bp)) + TokensBits(ll, d, toks[..k])
      decreases |values| - i
    {
      NotDone(toks, k);
      FlatAt(toks, k);
      HasWordsSized(ll, d, toks[k]);
      assert toks[..k + 1][..k] == toks[..k];
      bp', i := WriteToken(bp', out, values, i, tree_ll, tree_d, toks[k], base);
      k := k + 1;
    }
    WordsSized(ll, d, toks);
    AllDone(toks, k);
  }

  lemma HasWordsSized(ll: seq<nat>, d: seq<nat>, t: Token)
    requires HasWords(ll, d, t)
    ensures Sized(t) && Flat(t) != []
  {
    FlatSized(t);
  }

  lemma WordsSized(ll: seq<nat>, d: seq<nat>, toks: seq<Token>)
    requires AllHaveWords(ll, d, toks)
    ensures AllSized(toks)
  {
    forall i | 0 <= i < |toks|
      ensures Sized(toks[i])
    {
      HasWordsSized(ll, d, toks[i]);
    }
  }

  // ---------------------------------------------------------------- fixed blocks

  /** Without LZ77 every byte is a literal. */
  function Literals(s: seq<byte>): (r: seq<Token>)
    ensures |r| == |s| && forall i :: 0 <= i < |s| ==> r[i] == Literal(s[i])
  {
    seq(|s|, i requires 0 <= i < |s| => Literal(s[i]))
  }

  lemma {:induction false} LiteralsExpand(hist: seq<byte>, s: seq<byte>)
    ensures ValidTokens(hist, Literals(s)) && Expand(hist, Literals(s)) == hist + s
    ensures FlatAll(Literals(s)) == s
  {
    if s == [] {
      assert hist + s == hist && Literals(s) == [];
    } else {
      hide ValidTokens, Expand, FlatAll;
      var front, last := s[..|s| - 1], s[|s| - 1];
      LiteralsExpand(hist, front);
      assert Literals(s) == Literals(front) + [Literal(last)];
      ExpandAppend(hist, Literals(front), Literal(last));
      FlatAllAppend(Literals(front), Literal(last));
      assert hist + s == hist + front + [last];
      assert s == front + [last];
    }
  }

  lemma FixedWords(toks: seq<Token>)
    requires AllSized(toks)
    ensures AllHaveWords(FIXED_LL, FIXED_D, toks) && Present(FIXED_LL, 256)
  {
    FixedComplete();
    assert forall i :: 0 <= i < 288 ==> FIXED_LL[i] > 0;
    assert forall i :: 0 <= i < 32 ==> FIXED_D[i] > 0;
    forall i | 0 <= i < |toks|
      ensures HasWords(FIXED_LL, FIXED_D, toks[i])
    {
      assert Sized(toks[i]);
    }
  }

  method WriteHead(bp: nat, out: UcVector, final: bool, btype: nat, ghost base: nat) returns (bp': nat)
    requires Padded(out.data, base, bp) && btype <= 2
    modifies out
    ensures bp' == bp + 3 && Padded(out.data, base, bp')
    ensures out.data[..base] == old(out.data[..base])
    ensures Stream(out.data, base, bp') == old(Stream(out.data, base, bp)) + BlockHead(final, btype)
  {
    hide Padded, Stream;
    bp' := AddBitToStream(bp, out, final, base);
    bp' := AddBitToStream(bp', out, btype % 2 == 1, base);
    bp' := AddBitToStream(bp', out, btype / 2 == 1, base);
  }

  /** Tokens that continue the text are of the sizes the format allows. */
  lemma CoversSized(data: seq<byte>, inpos: nat, pos: nat, toks: seq<Token>)
    requires Covers(data, inpos, pos, toks)
    ensures AllSized(toks)
  {
    ValidAreSized(data[..inpos], toks);
  }

  lemma LiteralsCover(data: seq<byte>, datapos: nat, dataend: nat)
    requires datapos <= dataend <= |data|
    ensures Covers(data, datapos, dataend, Literals(data[datapos..dataend]))
    ensures FlatAll(Literals(data[datapos..dataend])) == data[datapos..dataend]
  {
    LiteralsExpand(data[..datapos], data[datapos..dataend]);
    assert data[..datapos] + data[datapos..dataend] == data[..dataend];
  }

  lemma LiteralBits(ll: seq<nat>, d: seq<nat>, toks: seq<Token>, k: nat)
    requires AllHaveWords(ll, d, toks) && k < |toks| && toks[k].Literal?
    ensures Present(ll, toks[k].b)
    ensures TokensBits(ll, d, toks[..k + 1]) == TokensBits(ll, d, toks[..k]) + Word(ll, toks[k].b)
  {
    assert toks[..k + 1][..k] == toks[..k];
    assert HasWords(ll, d, toks[k]);
  }

  /** Every byte as its own symbol. */
  method WriteLiterals(bp: nat, out: UcVector, data: seq<byte>, datapos: nat, dataend: nat, tree_ll: HuffmanTree,
                       ghost d: seq<nat>, ghost base: nat) returns (bp': nat)
    requires Padded(out.data, base, bp) && ValidTree(tree_ll) && datapos <= dataend <= |data|
    requires AllHaveWords(tree_ll.lengths, d, Literals(data[datapos..dataend]))
    modifies out
    ensures Padded(out.data, base, bp') && out.data[..base] == old(out.data[..base])
    ensures Stream(out.data, base, bp') == old(Stream(out.data, base, bp))
                                           + TokensBits(tree_ll.lengths, d, Literals(data[datapos..dataend]))
  {
    hide ValidTree, Padded, Stream, Word, TokenBits, HasWords;
    ghost var ll, toks := tree_ll.lengths, Literals(data[datapos..dataend]);
    ValidSizes(tree_ll);
    bp' := bp;
    for i := datapos to dataend
      invariant Padded(out.data, base, bp') && out.data[..base] == old(out.data[..base])
      invariant Stream(out.data, base, bp') == old(Stream(out.data, base, bp)) + TokensBits(ll, d, toks[..i - datapos])
    {
      LiteralBits(ll, d, toks, i - datapos);
      bp' := AddHuffmanSymbol(bp', out, tree_ll, data[i], base);
    }
    assert toks[..dataend - datapos] == toks;
  }

  /** A block with the fixed codes. The body stands for the bytes from datapos on, after those before it. */
  method DeflateFixed(out: UcVector, bp: nat, hash: Hash, data: seq<byte>, datapos: nat, dataend: nat,
                      settings: Settings, final: bool, ghost base: nat)
    returns (error: nat, bp': nat, ghost body: BitString)
    requires Padded(out.data, base, bp) && datapos <= dataend <= |data| < 0x1_0000_0000
    requires settings.use_lz77 ==> hash.Valid(data, datapos, hash.windowsize >= 8192)
    modifies out, hash.head, hash.val, hash.chain, hash.zeros
    ensures error == 0 && Padded(out.data, base, bp') && out.data[..base] == old(out.data[..base])
    ensures settings.use_lz77 ==> hash.Valid(data, dataend, hash.windowsize >= 8192)
    ensures Stream(out.data, base, bp') == old(Stream(out.data, base, bp)) + BlockHead(final, 1) + body
    ensures IsBody(body, 1, data[..datapos], data[..dataend])
  {
    hide ValidTree, Padded, Stream, Word, Hash.Valid, AllHaveWords, AllSized, IsBody, TokensBits, Expand, ValidTokens,
         FlatAll, Present, BlockHead, InWindow;
    var tree_ll, tree_d;
    error, tree_ll := Inflater.GenerateFixedLitLenTree();
    error, tree_d := Inflater.GenerateFixedDistanceTree();
    ValidSizes(tree_ll);
    bp' := WriteHead(bp, out, final, 1, base);
    ghost var toks;
    if settings.use_lz77 {
      var e, values;
      e, values, toks := EncodeLZ77(hash, data, datapos, dataend, settings.minmatch, settings.nicematch,
                                    settings.lazymatching);
      CoversSized(data, datapos, dataend, toks);
      FixedWords(toks);
      bp' := WriteLZ77data(bp', out, values, tree_ll, tree_d, toks, base);
    } else {
      toks := Literals(data[datapos..dataend]);
      LiteralsCover(data, datapos, dataend);
      CoversSized(data, datapos, dataend, toks);
      FixedWords(toks);
      bp' := WriteLiterals(bp', out, data, datapos, dataend, tree_ll, FIXED_D, base);
    }
    bp' := AddHuffmanSymbol(bp', out, tree_ll, 256, base);
    body := DataBits(FIXED_LL, FIXED_D, toks);
    FixedBody(toks, data[..datapos]);
    Regroup(old(Stream(out.data, base, bp)), BlockHead(final, 1), TokensBits(FIXED_LL, FIXED_D, toks),
            Word(FIXED_LL, 256), []);
  }

  // ---------------------------------------------------------------- dynamic blocks

  /**
   * The values of a dynamic block. Without LZ77 the source stores byte i at index i of a list that has only
   * dataend - datapos places: ok is false when that goes past the end of the list.
   */
  method DynamicValues(hash: Hash, data: seq<byte>, datapos: nat, dataend: nat, settings: Settings)
    returns (error: int, ok: bool, values: seq<nat>, ghost toks: seq<Token>)
    requires datapos <= dataend <= |data| < 0x1_0000_0000
    requires settings.use_lz77 ==> hash.Valid(data, datapos, hash.windowsize >= 8192)
    modifies hash.head, hash.val, hash.chain, hash.zeros
    ensures ok == (settings.use_lz77 || datapos == 0 || datapos == dataend)
    ensures settings.use_lz77 ==> hash.Valid(data, dataend, hash.windowsize >= 8192)
    ensures ok ==> error == 0 && values == FlatAll(toks) && Covers(data, datapos, dataend, toks)
  {
    hide Hash.Valid, FlatAll, Covers, InWindow;
    error, ok, values, toks := 0, true, [], [];
    var datasize := dataend - datapos;
    if settings.use_lz77 {
      error, values, toks := EncodeLZ77(hash, data, datapos, dataend, settings.minmatch, settings.nicematch,
                                        settings.lazymatching);
    } else {
      var list := new nat[datasize];
      var i := datapos;
      while i < dataend
        invariant datapos <= i <= dataend && (i == datapos || i <= datasize)
        invariant forall k :: datapos <= k < i ==> list[k] == data[k]
      {
        if i >= datasize {
          ok := false;
          return;
        }
        list[i] := data[i];
        i := i + 1;
      }
      LiteralsCover(data, datapos, dataend);
      values, toks := list[..], Literals(data[datapos..dataend]);
      assert values == data[datapos..dataend];
    }
  }

  /** Every symbol that occurs got a word. */
  lemma CountedWords(toks: seq<Token>, freq_ll: seq<nat>, freq_d: seq<nat>, ll: seq<nat>, d: seq<nat>)
    requires AllSized(toks) && |freq_ll| == 286 && |freq_d| == 30
    requires forall s :: 0 <= s < 286 ==> freq_ll[s] == if s == 256 then 1 else multiset(LlSymbols(toks))[s]
    requires forall s :: 0 <= s < 30 ==> freq_d[s] == multiset(DistanceSymbols(toks))[s]
    requires forall s :: 0 <= s < 286 && freq_ll[s] > 0 ==> Present(ll, s)
    requires forall s :: 0 <= s < 30 && freq_d[s] > 0 ==> Present(d, s)
    ensures AllHaveWords(ll, d, toks) && Present(ll, 256)
  {
    assert freq_ll[256] > 0;
    hide Present, LengthIndex, DistanceIndex;
    forall i | 0 <= i < |toks|
      ensures HasWords(ll, d, toks[i])
    {
      SymbolsIn(toks, i);
      assert Sized(toks[i]);
      if toks[i].Copy? {
        assert freq_ll[LlSymbol(toks[i])] > 0;
        assert freq_d[DistanceIndex(toks[i].distance)] > 0;
      } else {
        assert freq_ll[toks[i].b] > 0;
      }
    }
  }

  // ---------------------------------------------------------------- runs as values

  lemma {:induction false} FlatRunsPrefix(rs: seq<Run>, k: nat)
    requires k <= |rs|
    ensures FlatRuns(rs[..k]) <= FlatRuns(rs)
  {
    if k < |rs| {
      FlatRunsPrefix(rs[..|rs| - 1], k);
      assert rs[..|rs| - 1][..k] == rs[..k];
    } else {
      assert rs[..k] == rs;
    }
  }

  ghost predicate AllRunsFit(rs: seq<Run>)
  {
    forall i :: 0 <= i < |rs| ==> RunFits(rs[i])
  }

  predicate RunFits(r: Run)
  {
    match r
    case Len(v) => v <= 15
    case Again(n) => 3 <= n <= 6
    case Zeros(n) => 3 <= n <= 10
    case ManyZeros(n) => 11 <= n <= 138
  }

  lemma {:induction false} ValidRunsFit(have: seq<nat>, rs: seq<Run>)
    requires ValidRuns(have, rs)
    ensures AllRunsFit(rs)
    decreases |rs|
  {
    if rs != [] {
      ValidRunsFit(ApplyRun(have, rs[0]), rs[1..]);
      forall i | 0 <= i < |rs|
        ensures RunFits(rs[i])
      {
        assert i > 0 ==> rs[i] == rs[1..][i - 1];
      }
    }
  }

  /** The values of run k stand at the end of the values of the first k + 1 runs. */
  lemma FlatRunAt(rs: seq<Run>, k: nat)
    requires k < |rs|
    ensures var e, i, n := FlatRuns(rs), |FlatRuns(rs[..k])|, |FlatRun(rs[k])|;
            |FlatRuns(rs[..k + 1])| == i + n <= |e| && e[i..i + n] == FlatRun(rs[k])
  {
    hide FlatRun, FlatRuns;
    FlatRunsPrefix(rs, k + 1);
    assert rs[..k + 1] == rs[..k] + [rs[k]];
    FlatRunsAppend(rs[..k], rs[k]);
    var i, n := |FlatRuns(rs[..k])|, |FlatRun(rs[k])|;
    assert FlatRuns(rs)[i..i + n] == FlatRuns(rs)[..i + n][i..];
  }

  /** The values of run k: its symbol, and its repeat field if it has one. */
  lemma RunAt(rs: seq<Run>, k: nat)
    requires k < |rs| && AllRunsFit(rs)
    ensures var e, i := FlatRuns(rs), |FlatRuns(rs[..k])|;
            && |FlatRuns(rs[..k + 1])| == i + (if rs[k].Len? then 1 else 2) <= |e|
            && e[i] == RunSymbol(rs[k]) <= 18 && (rs[k].Len? <==> e[i] < 16)
            && (!rs[k].Len? ==> e[i + 1] == RunField(rs[k]))
  {
    hide FlatRuns;
    assert RunFits(rs[k]);
    FlatRunAt(rs, k);
    var i, n := |FlatRuns(rs[..k])|, |FlatRun(rs[k])|;
    var slice := FlatRuns(rs)[i..i + n];
    assert n == if rs[k].Len? then 1 else 2;
    assert FlatRuns(rs)[i] == slice[0] == RunSymbol(rs[k]);
    if n == 2 {
      assert FlatRuns(rs)[i + 1] == slice[1] == RunField(rs[k]);
    }
  }

  /** The repeat field of a run, and its width. */
  function RunField(r: Run): nat
    requires RunFits(r)
  {
    match r
    case Len(_) => 0
    case Again(n) => n - 3
    case Zeros(n) => n - 3
    case ManyZeros(n) => n - 11
  }

  lemma RunsLeft(rs: seq<Run>, k: nat)
    requires k <= |rs| && AllRunsFit(rs)
    ensures |FlatRuns(rs[..k])| < |FlatRuns(rs)| <==> k < |rs|
  {
    if k < |rs| {
      RunAt(rs, k);
    } else {
      assert rs[..k] == rs;
    }
  }

  lemma NoRuns(rs: seq<Run>, cl: seq<nat>)
    ensures rs[..0] == [] && FlatRuns(rs[..0]) == [] && RunSymbols(rs[..0]) == [] && RunsBits(cl, []) == []
  {
  }

  function RunSymbols(rs: seq<Run>): seq<nat>
  {
    if rs == [] then [] else RunSymbols(rs[..|rs| - 1]) + [RunSymbol(rs[|rs| - 1])]
  }

  lemma {:induction false} RunSymbolIn(rs: seq<Run>, i: nat)
    requires i < |rs|
    ensures RunSymbol(rs[i]) in RunSymbols(rs)
  {
    if i < |rs| - 1 {
      RunSymbolIn(rs[..|rs| - 1], i);
    }
  }

  /** Counts the code length symbols; repeat fields do not count. */
  method CountRuns(e: seq<nat>, ghost rs: seq<Run>) returns (frequencies_cl: array<nat>)
    requires e == FlatRuns(rs) && AllRunsFit(rs)
    ensures frequencies_cl.Length == NUM_CODE_LENGTH_CODES
    ensures forall s :: 0 <= s < NUM_CODE_LENGTH_CODES ==> frequencies_cl[s] == multiset(RunSymbols(rs))[s]
  {
    hide FlatRuns, AllRunsFit, RunSymbols;
    frequencies_cl := new nat[NUM_CODE_LENGTH_CODES](_ => 0);
    var i: nat := 0;
    ghost var k: nat := 0;
    NoRuns(rs, []);
    while i < |e|
      invariant k <= |rs| && i == |FlatRuns(rs[..k])|
      invariant forall s :: 0 <= s < NUM_CODE_LENGTH_CODES ==> frequencies_cl[s] == multiset(RunSymbols(rs[..k]))[s]
      decreases |e| - i
    {
      RunsLeft(rs, k);
      RunAt(rs, k);
      RunSymbolsNext(rs, k);
      frequencies_cl[e[i]] := frequencies_cl[e[i]] + 1;
      if e[i] >= 16 {
        i := i + 1;
      }
      i := i + 1;
      k := k + 1;
    }
    RunsLeft(rs, k);
    assert rs[..k] == rs;
  }

  lemma RunSymbolsNext(rs: seq<Run>, k: nat)
    requires k < |rs|
    ensures RunSymbols(rs[..k + 1]) == RunSymbols(rs[..k]) + [RunSymbol(rs[k])]
  {
    assert rs[..k + 1][..k] == rs[..k];
  }

  /** The value at index i, with its repeat field. */
  method WriteRun(bp: nat, out: UcVector, e: seq<nat>, i: nat, tree_cl: HuffmanTree, ghost r: Run, ghost base: nat)
    returns (bp': nat, i': nat)
    requires Padded(out.data, base, bp) && ValidTree(tree_cl)
    requires RunFits(r) && Present(tree_cl.lengths, RunSymbol(r))
    requires i + (if r.Len? then 1 else 2) <= |e| && e[i] == RunSymbol(r)
    requires !r.Len? ==> e[i + 1] == RunField(r)
    modifies out
    ensures i' == i + (if r.Len? then 1 else 2)
    ensures Padded(out.data, base, bp') && out.data[..base] == old(out.data[..base])
    ensures Stream(out.data, base, bp') == old(Stream(out.data, base, bp)) + RunBits(tree_cl.lengths, r)
  {
    hide ValidTree, Padded, Stream, Word, LsbBits;
    ValidSizes(tree_cl);
    i' := i;
    bp' := AddHuffmanSymbol(bp, out, tree_cl, e[i'], base);
    if e[i'] == 16 {
      i' := i' + 1;
      bp' := AddBitsToStream(bp', out, e[i'], 2, base);
    } else if e[i'] == 17 {
      i' := i' + 1;
      bp' := AddBitsToStream(bp', out, e[i'], 3, base);
    } else if e[i'] == 18 {
      i' := i' + 1;
      bp' := AddBitsToStream(bp', out, e[i'], 7, base);
    }
    i' := i' + 1;
  }

  method WriteRuns(bp: nat, out: UcVector, e: seq<nat>, tree_cl: HuffmanTree, ghost rs: seq<Run>, ghost base: nat)
    returns (bp': nat)
    requires Padded(out.data, base, bp) && ValidTree(tree_cl)
    requires e == FlatRuns(rs) && AllRunsFit(rs) && AllPresent(tree_cl.lengths, rs)
    modifies out
    ensures Padded(out.data, base, bp') && out.data[..base] == old(out.data[..base])
    ensures Stream(out.data, base, bp') == old(Stream(out.data, base, bp)) + RunsBits(tree_cl.lengths, rs)
  {
    hide ValidTree, Padded, Stream, FlatRuns, AllRunsFit, RunBits, RunSymbol, RunField;
    ghost var cl, before := tree_cl.lengths, Stream(out.data, base, bp);
    bp' := bp;
    var i: nat := 0;
    ghost var k: nat := 0;
    NoRuns(rs, cl);
    while i < |e|
      invariant k <= |rs| && i == |FlatRuns(rs[..k])|
      invariant Padded(out.data, base, bp') && out.data[..base] == old(out.data[..base])
      invariant Stream(out.data, base, bp') == before + RunsBits(cl, rs[..k])
      decreases |e| - i
    {
      RunsLeft(rs, k);
      RunAt(rs, k);
      RunsBitsNext(cl, rs, k);
      bp', i := WriteRun(bp', out, e, i, tree_cl, rs[k], base);
      k := k + 1;
    }
    RunsLeft(rs, k);
    assert rs[..k] == rs;
  }

  lemma RunsBitsNext(cl: seq<nat>, rs: seq<Run>, k: nat)
    requires k < |rs| && AllPresent(cl, rs) && AllRunsFit(rs)
    ensures RunFits(rs[k]) && Present(cl, RunSymbol(rs[k]))
    ensures RunsBits(cl, rs[..k + 1]) == RunsBits(cl, rs[..k]) + RunBits(cl, rs[k])
  {
    assert rs[..k + 1][..k] == rs[..k];
  }

  // ---------------------------------------------------------------- the dynamic header

  /** The code length code lengths in header order, without the zeros at the end. */
  method ClOrder(cl: seq<nat>) returns (bitlen_cl: seq<nat>)
    requires Complete(cl, 7) && |cl| == NUM_CODE_LENGTH_CODES
    ensures ClFits(cl, |bitlen_cl|)
    ensures forall i :: 0 <= i < |bitlen_cl| ==> bitlen_cl[i] == cl[Order(i)]
  {
    hide Complete, Order;
    bitlen_cl := [];
    for i := 0 to NUM_CODE_LENGTH_CODES
      invariant |bitlen_cl| == i && forall k :: 0 <= k < i ==> bitlen_cl[k] == cl[Order(k)]
    {
      bitlen_cl := bitlen_cl + [cl[Order(i)]];
    }
    while bitlen_cl[|bitlen_cl| - 1] == 0 && |bitlen_cl| > 4
      invariant 4 <= |bitlen_cl| <= NUM_CODE_LENGTH_CODES
      invariant forall k :: 0 <= k < |bitlen_cl| ==> bitlen_cl[k] == cl[Order(k)]
      invariant forall k :: |bitlen_cl| <= k < NUM_CODE_LENGTH_CODES ==> cl[Order(k)] == 0
    {
      bitlen_cl := bitlen_cl[..|bitlen_cl| - 1];
    }
  }

  method WriteHeader(bp: nat, out: UcVector, numcodes_ll: nat, numcodes_d: nat, bitlen_cl: seq<nat>, e: seq<nat>,
                     tree_cl: HuffmanTree, ghost rs: seq<Run>, ghost base: nat)
    returns (bp': nat, ghost n: nat)
    requires Padded(out.data, base, bp) && ValidTree(tree_cl)
    requires numcodes_ll >= 257 && numcodes_d >= 1 && ClFits(tree_cl.lengths, |bitlen_cl|)
    requires forall i :: 0 <= i < |bitlen_cl| ==> bitlen_cl[i] == tree_cl.lengths[Order(i)]
    requires e == FlatRuns(rs) && AllRunsFit(rs) && AllPresent(tree_cl.lengths, rs)
    modifies out
    ensures Padded(out.data, base, bp') && out.data[..base] == old(out.data[..base])
    ensures ClFits(tree_cl.lengths, n)
    ensures Stream(out.data, base, bp') ==
            old(Stream(out.data, base, bp)) + HeaderBits(numcodes_ll, numcodes_d, n, tree_cl.lengths, rs)
  {
    hide ValidTree, Padded, Stream, FlatRuns, AllRunsFit, LsbBits, RunsBits, AllPresent, Complete, Order;
    ghost var cl, before := tree_cl.lengths, Stream(out.data, base, bp);
    var hlit, hdist := numcodes_ll - 257, numcodes_d - 1;
    var hclen := TrimZeros(bitlen_cl, cl);
    n := hclen + 4;
    ClComplete(cl, n);
    hide ClFits, CountBits, ClBits;
    bp' := WriteCounts(bp, out, hlit, hdist, hclen, base);
    bp' := WriteClLengths(bp', out, bitlen_cl, hclen + 4, cl, base);
    bp' := WriteRuns(bp', out, e, tree_cl, rs, base);
    Regroup(before, CountBits(numcodes_ll, numcodes_d, n), ClBits(cl, n), RunsBits(cl, rs), []);
  }

  /** Zeros at the end are not written. */
  method TrimZeros(bitlen_cl: seq<nat>, ghost cl: seq<nat>) returns (hclen: nat)
    requires ClFits(cl, |bitlen_cl|)
    requires forall i :: 0 <= i < |bitlen_cl| ==> bitlen_cl[i] == cl[Order(i)]
    ensures hclen + 4 <= |bitlen_cl| && ClFits(cl, hclen + 4)
  {
    hide Complete;
    hclen := |bitlen_cl| - 4;
    while bitlen_cl[hclen + 4 - 1] == 0 && hclen > 0
      invariant hclen <= |bitlen_cl| - 4 && ClFits(cl, hclen + 4)
    {
      hclen := hclen - 1;
    }
  }

  method WriteCounts(bp: nat, out: UcVector, hlit: nat, hdist: nat, hclen: nat, ghost base: nat) returns (bp': nat)
    requires Padded(out.data, base, bp)
    modifies out
    ensures Padded(out.data, base, bp') && out.data[..base] == old(out.data[..base])
    ensures Stream(out.data, base, bp') == old(Stream(out.data, base, bp)) + CountBits(hlit + 257, hdist + 1, hclen + 4)
  {
    hide Padded, Stream, LsbBits;
    bp' := AddBitsToStream(bp, out, hlit, 5, base);
    bp' := AddBitsToStream(bp', out, hdist, 5, base);
    bp' := AddBitsToStream(bp', out, hclen, 4, base);
  }

  method WriteClLengths(bp: nat, out: UcVector, bitlen_cl: seq<nat>, n: nat, ghost cl: seq<nat>, ghost base: nat)
    returns (bp': nat)
    requires Padded(out.data, base, bp) && n <= |bitlen_cl| <= |cl| == NUM_CODE_LENGTH_CODES
    requires forall i :: 0 <= i < |bitlen_cl| ==> bitlen_cl[i] == cl[Order(i)]
    modifies out
    ensures Padded(out.data, base, bp') && out.data[..base] == old(out.data[..base])
    ensures Stream(out.data, base, bp') == old(Stream(out.data, base, bp)) + ClBits(cl, n)
  {
    hide Padded, Stream, LsbBits, Order;
    bp' := bp;
    for i := 0 to n
      invariant Padded(out.data, base, bp') && out.data[..base] == old(out.data[..base])
      invariant Stream(out.data, base, bp') == old(Stream(out.data, base, bp)) + ClBits(cl, i)
    {
      bp' := AddBitsToStream(bp', out, bitlen_cl[i], 3, base);
    }
  }

  /** Codes in which everything that occurs, and the end code, has a word. */
  method TokenTrees(values: seq<nat>, ghost toks: seq<Token>) returns (tree_ll: HuffmanTree, tree_d: HuffmanTree)
    requires values == FlatAll(toks) && AllSized(toks)
    ensures ValidTree(tree_ll) && tree_ll.maxbitlen == 15 && 257 <= tree_ll.numcodes <= 286
    ensures ValidTree(tree_d) && tree_d.maxbitlen == 15 && 2 <= tree_d.numcodes <= 30
    ensures AllHaveWords(tree_ll.lengths, tree_d.lengths, toks) && Present(tree_ll.lengths, 256)
  {
    hide ValidTree, FlatAll, AllSized, AllHaveWords, Present, NumPresent, Admissible, Cost, LlSymbols, DistanceSymbols;
    var frequencies_ll, frequencies_d := CountFrequencies(values, toks);
    assert Pow2(15) == 32768 by { Pow2Bytes(); Pow2Add(8, 7); }
    var error;
    error, tree_ll := MakeFromFrequencies(frequencies_ll[..], 257, 15);
    error, tree_d := MakeFromFrequencies(frequencies_d[..], 2, 15);
    CountedWords(toks, frequencies_ll[..], frequencies_d[..], tree_ll.lengths, tree_d.lengths);
  }

  /** The run-length coded lengths, and the code for their symbols. */
  method LengthTree(bitlen_lld: seq<nat>)
    returns (e: seq<nat>, tree_cl: HuffmanTree, bitlen_cl: seq<nat>, ghost rs: seq<Run>)
    requires Bounded(bitlen_lld, 15)
    ensures e == FlatRuns(rs) && ValidRuns([], rs) && ExpandRuns([], rs) == bitlen_lld && AllRunsFit(rs)
    ensures ValidTree(tree_cl) && AllPresent(tree_cl.lengths, rs) && ClFits(tree_cl.lengths, |bitlen_cl|)
    ensures forall i :: 0 <= i < |bitlen_cl| ==> bitlen_cl[i] == tree_cl.lengths[Order(i)]
  {
    hide ValidTree, FlatRuns, ExpandRuns, AllRunsFit, Present, NumPresent, Admissible, Cost, RunSymbols, Complete,
         ClFits, RunSymbol, Order;
    e, rs := EncodeRuns(bitlen_lld);
    ValidRunsFit([], rs);
    hide ValidRuns;
    var frequencies_cl := CountRuns(e, rs);
    assert Pow2(7) == 128 by { Pow2Bytes(); }
    var error;
    error, tree_cl := MakeFromFrequencies(frequencies_cl[..], frequencies_cl.Length, 7);
    ValidSizes(tree_cl);
    bitlen_cl := ClOrder(tree_cl.lengths);
    RunsPresent(rs, frequencies_cl[..], tree_cl.lengths);
  }

  lemma RunsPresent(rs: seq<Run>, freq: seq<nat>, cl: seq<nat>)
    requires AllRunsFit(rs) && |freq| == NUM_CODE_LENGTH_CODES
    requires forall s :: 0 <= s < NUM_CODE_LENGTH_CODES ==> freq[s] == multiset(RunSymbols(rs))[s]
    requires forall s :: 0 <= s < NUM_CODE_LENGTH_CODES && freq[s] > 0 ==> Present(cl, s)
    ensures AllPresent(cl, rs)
  {
    forall i | 0 <= i < |rs|
      ensures Present(cl, RunSymbol(rs[i]))
    {
      RunSymbolIn(rs, i);
      assert RunFits(rs[i]);
      assert freq[RunSymbol(rs[i])] > 0;
    }
  }

  lemma TwoBounded(tree_ll: HuffmanTree, tree_d: HuffmanTree)
    requires ValidTree(tree_ll) && ValidTree(tree_d) && tree_ll.maxbitlen == tree_d.maxbitlen == 15
    ensures Bounded(tree_ll.lengths + tree_d.lengths, 15)
    ensures Complete(tree_ll.lengths, 15) && Complete(tree_d.lengths, 15)
    ensures |tree_ll.lengths| == tree_ll.numcodes && |tree_d.lengths| == tree_d.numcodes
  {
  }

  /** A block with its own codes. The body stands for the bytes from datapos on, after those before it. */
  method DeflateDynamic(out: UcVector, bp: nat, hash: Hash, data: seq<byte>, datapos: nat, dataend: nat,
                        settings: Settings, final: bool, ghost base: nat)
    returns (error: int, ok: bool, bp': nat, ghost body: BitString)
    requires Padded(out.data, base, bp) && datapos <= dataend <= |data| < 0x1_0000_0000
    requires settings.use_lz77 ==> hash.Valid(data, datapos, hash.windowsize >= 8192)
    modifies out, hash.head, hash.val, hash.chain, hash.zeros
    ensures ok == (settings.use_lz77 || datapos == 0 || datapos == dataend)
    ensures settings.use_lz77 ==> hash.Valid(data, dataend, hash.windowsize >= 8192)
    ensures ok ==> error == 0 && Padded(out.data, base, bp') && out.data[..base] == old(out.data[..base])
    ensures ok ==> Stream(out.data, base, bp') == old(Stream(out.data, base, bp)) + BlockHead(final, 2) + body
    ensures ok ==> IsBody(body, 2, data[..datapos], data[..dataend])
  {
    hide ValidTree, Padded, Stream, Word, Hash.Valid, AllHaveWords, AllSized, IsBody, TokensBits, Expand, ValidTokens,
         FlatAll, Present, BlockHead, HeaderBits, Covers, FlatRuns, ValidRuns, ExpandRuns, AllRunsFit, AllPresent,
         ClFits, Complete;
    var values;
    ghost var toks;
    bp', body := bp, [];
    error, ok, values, toks := DynamicValues(hash, data, datapos, dataend, settings);
    if !ok {
      return;
    }
    CoversSized(data, datapos, dataend, toks);
    CoversExpand(data, datapos, dataend, toks);
    var tree_ll, tree_d := TokenTrees(values, toks);
    TwoBounded(tree_ll, tree_d);
    var e, tree_cl, bitlen_cl;
    ghost var rs;
    e, tree_cl, bitlen_cl, rs := LengthTree(tree_ll.lengths + tree_d.lengths);
    bp' := WriteHead(bp, out, final, 2, base);
    ghost var n;
    bp', n := WriteHeader(bp', out, tree_ll.numcodes, tree_d.numcodes, bitlen_cl, e, tree_cl, rs, base);
    bp' := WriteLZ77data(bp', out, values, tree_ll, tree_d, toks, base);
    error := if tree_ll.lengths[256] == 0 then 64 else 0;
    EndPresent(tree_ll.lengths);
    if error == 0 {
      bp' := AddHuffmanSymbol(bp', out, tree_ll, 256, base);
    }
    ghost var ll, d := tree_ll.lengths, tree_d.lengths;
    ghost var header := HeaderBits(|ll|, |d|, n, tree_cl.lengths, rs);
    body := header + DataBits(ll, d, toks);
    DynamicBody(n, tree_cl.lengths, rs, ll, d, toks, data[..datapos]);
    Regroup(old(Stream(out.data, base, bp)) + BlockHead(final, 2), header, TokensBits(ll, d, toks), Word(ll, 256), []);
  }

  lemma EndPresent(ll: seq<nat>)
    requires Present(ll, 256)
    ensures |ll| > 256 && ll[256] > 0
  {
  }

  lemma CoversExpand(data: seq<byte>, datapos: nat, dataend: nat, toks: seq<Token>)
    requires Covers(data, datapos, dataend, toks)
    ensures datapos <= dataend <= |data| && ValidTokens(data[..datapos], toks)
    ensures Expand(data[..datapos], toks) == data[..dataend]
  {
  }
}

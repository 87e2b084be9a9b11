/** The Huffman trees of the codec: code assignment from lengths, and symbols in the bit stream. */
module Huffman {
  import opened Powers
  import opened Bits
  import opened Tries
  import opened Canonical
  import opened HuffmanTable

  datatype HuffmanTree = HuffmanTree(tree2d: seq<nat>, tree1d: seq<nat>, lengths: seq<nat>,
                                     maxbitlen: nat, numcodes: nat)

  // ---------------------------------------------------------------- from lengths to a tree

  /** next_code as the source computes it: the count of absent symbols is not set to 0. */
  function RawFirst(lengths: seq<nat>, l: nat): nat
  {
    if l == 0 then 0 else 2 * (RawFirst(lengths, l - 1) + CountLen(lengths, l - 1))
  }

  /** The absent symbols only add a multiple of 2^l, which the l bits of a word do not show. */
  lemma {:induction false} RawFirstIs(lengths: seq<nat>, l: nat)
    requires l > 0
    ensures RawFirst(lengths, l) == FirstCode(lengths, l) + CountLen(lengths, 0) * Pow2(l)
  {
    if l > 1 {
      RawFirstIs(lengths, l - 1);
      RawStep(RawFirst(lengths, l - 1), FirstCode(lengths, l - 1), CountLen(lengths, 0), Pow2(l - 1),
              CountLen(lengths, l - 1));
    } else {
      assert RawFirst(lengths, 0) == 0 && FirstCode(lengths, 0) == 0;
      assert Pow2(1) == 2;
    }
  }

  lemma RawStep(r: nat, f: nat, c: nat, p: nat, n: nat)
    requires r == f + c * p
    ensures 2 * (r + n) == 2 * (f + n) + c * (2 * p)
  {
  }

  lemma RawCodeIsCanonical(lengths: seq<nat>, maxbitlen: nat, n: nat)
    requires Complete(lengths, maxbitlen) && n < |lengths| && lengths[n] > 0
    ensures var raw := RawFirst(lengths, lengths[n]) + CountLen(lengths[..n], lengths[n]);
            raw % Pow2(lengths[n]) == CanonCode(lengths, n)
  {
    var l := lengths[n];
    hide CountLen, FirstCode;
    RawFirstIs(lengths, l);
    CodeFits(lengths, n);
    FilledFits(lengths, maxbitlen, l);
    AddMultiple(CanonCode(lengths, n), CountLen(lengths, 0), Pow2(l));
  }

  lemma AddMultiple(r: nat, c: nat, p: nat)
    requires r < p
    ensures (r + c * p) % p == r
  {
    DivUnique(r + c * p, p, c, r);
  }

  /** The number of symbols of length at most l. */
  function CountTo(lengths: seq<nat>, l: nat): nat
  {
    CountLen(lengths, l) + (if l == 0 then 0 else CountTo(lengths, l - 1))
  }

  lemma {:induction false} CountToFits(lengths: seq<nat>, l: nat)
    ensures CountTo(lengths, l) <= |lengths|
    ensures lengths != [] ==> CountTo(lengths, l) == CountTo(lengths[..|lengths| - 1], l)
                                                    + (if lengths[|lengths| - 1] <= l then 1 else 0)
    decreases |lengths|, l
  {
    if lengths != [] {
      CountToFits(lengths[..|lengths| - 1], l);
      if l > 0 {
        CountToFits(lengths, l - 1);
      }
    } else if l > 0 {
      CountToFits(lengths, l - 1);
      CountToEmpty(l);
    }
  }

  lemma {:induction false} CountToEmpty(l: nat)
    ensures CountTo([], l) == 0
  {
    if l > 0 {
      CountToEmpty(l - 1);
    }
  }

  /** No code leaves the 32-bit range, for any lengths: 288 symbols of at most 15 bits. */
  lemma {:induction false} RawCodeBound(lengths: seq<nat>, l: nat)
    ensures RawFirst(lengths, l) + CountLen(lengths, l) <= CountTo(lengths, l) * Pow2(l)
  {
    if l > 0 {
      RawCodeBound(lengths, l - 1);
      BoundStep(RawFirst(lengths, l - 1) + CountLen(lengths, l - 1), CountTo(lengths, l - 1),
                CountLen(lengths, l), Pow2(l - 1));
    } else {
      assert Pow2(0) == 1;
    }
  }

  lemma BoundStep(r: nat, a: nat, c: nat, p: nat)
    requires r <= a * p && p > 0
    ensures 2 * r + c <= (a + c) * (2 * p)
  {
    assert (a + c) * (2 * p) == 2 * (a * p) + c * (2 * p);
    MulMonotone(c, 1, 2 * p);
  }

  lemma RawCodeFits(lengths: seq<nat>, maxbitlen: nat, l: nat)
    requires |lengths| <= 288 && l <= maxbitlen <= 15
    ensures RawFirst(lengths, l) + CountLen(lengths, l) < 0x1_0000_0000
  {
    RawCodeBound(lengths, l);
    CountToFits(lengths, l);
    Pow2Monotone(l, 15);
    assert Pow2(15) == 32768 by {
      Pow2Bytes();
      Pow2Add(8, 7);
    }
    MulMonotone(CountTo(lengths, l), Pow2(l), 32768);
    assert CountTo(lengths, l) * 32768 <= 288 * 32768;
  }

  /** The tree is ready for both directions, and it is the canonical one of its lengths. */
  ghost predicate ValidTree(tree: HuffmanTree)
  {
    && Complete(tree.lengths, tree.maxbitlen)
    && tree.numcodes == |tree.lengths| == |tree.tree1d|
    && Represents(tree.tree2d, tree.numcodes, 0, CanonTrie(tree.lengths, tree.maxbitlen))
    && forall n :: 0 <= n < tree.numcodes ==>
         tree.tree1d[n] % Pow2(tree.lengths[n]) == CanonCode(tree.lengths, n) % Pow2(tree.lengths[n])
  }

  method MakeFromLengths2(lengths: seq<nat>, maxbitlen: nat) returns (error: nat, tree: HuffmanTree)
    requires 2 <= |lengths| <= 288 && maxbitlen <= 15 && Bounded(lengths, maxbitlen)
    ensures error in {0, 55}
    ensures tree.lengths == lengths && tree.maxbitlen == maxbitlen && tree.numcodes == |lengths|
    ensures |tree.tree2d| == 2 * |lengths| && |tree.tree1d| == |lengths|
    ensures forall n :: 0 <= n < |lengths| && lengths[n] > 0 ==> tree.tree1d[n] < 0x1_0000_0000
    ensures Complete(lengths, maxbitlen) ==> error == 0 && ValidTree(tree)
  {
    hide CountLen, CanonTrie, KraftSum, CanonCode, Represents, IsTrieOf;
    var numcodes := |lengths|;
    var blcount := CountLengths(lengths, maxbitlen);
    var nextcode := FirstCodes(lengths, maxbitlen, blcount);
    var tree1d := GiveOutCodes(lengths, maxbitlen, nextcode);
    ghost var t := if Complete(lengths, maxbitlen) then CanonTrie(lengths, maxbitlen) else Leaf(0);
    CodesAreCanonical(lengths, maxbitlen, tree1d);
    var tree2d;
    error, tree2d := Make2DTree(tree1d, lengths, t);
    tree := HuffmanTree(tree2d, tree1d, lengths, maxbitlen, numcodes);
  }

  /** Step 2: the first code of each length. */
  method FirstCodes(lengths: seq<nat>, maxbitlen: nat, blcount: array<nat>) returns (nextcode: array<nat>)
    requires blcount.Length == maxbitlen + 1 && forall l :: 0 <= l <= maxbitlen ==> blcount[l] == CountLen(lengths, l)
    ensures fresh(nextcode) && nextcode.Length == maxbitlen + 1
    ensures forall l :: 0 <= l <= maxbitlen ==> nextcode[l] == RawFirst(lengths, l)
  {
    hide CountLen, RawFirst;
    RawStart(lengths);
    nextcode := new nat[maxbitlen + 1](_ => 0);
    for bits := 1 to maxbitlen + 1
      modifies nextcode
      invariant forall l :: 0 <= l < bits ==> nextcode[l] == RawFirst(lengths, l)
    {
      RawNext(lengths, bits);
      nextcode[bits] := (nextcode[bits - 1] + blcount[bits - 1]) * 2;
    }
  }

  lemma RawStart(lengths: seq<nat>)
    ensures RawFirst(lengths, 0) == 0
  {
  }

  lemma RawNext(lengths: seq<nat>, l: nat)
    requires l > 0
    ensures RawFirst(lengths, l) == 2 * (RawFirst(lengths, l - 1) + CountLen(lengths, l - 1))
  {
  }

  lemma NoBits()
    ensures Pow2(0) == 1
  {
  }

  lemma CountNone(l: nat)
    ensures CountLen([], l) == 0
  {
  }

  lemma CountNext(lengths: seq<nat>, n: nat)
    requires n < |lengths|
    ensures forall l :: CountLen(lengths[..n + 1], l) == CountLen(lengths[..n], l) + (if lengths[n] == l then 1 else 0)
  {
    assert lengths[..n + 1][..n] == lengths[..n];
  }

  /** Step 3: symbols of one length get consecutive codes. */
  method GiveOutCodes(lengths: seq<nat>, maxbitlen: nat, nextcode: array<nat>) returns (codes: seq<nat>)
    requires Bounded(lengths, maxbitlen) && nextcode.Length == maxbitlen + 1
    requires forall l :: 0 <= l <= maxbitlen ==> nextcode[l] == RawFirst(lengths, l)
    modifies nextcode
    ensures |codes| == |lengths|
    ensures forall m :: 0 <= m < |lengths| && lengths[m] > 0 ==>
              codes[m] == RawFirst(lengths, lengths[m]) + CountLen(lengths[..m], lengths[m])
  {
    hide RawFirst, CountLen;
    var tree1d := new nat[|lengths|];
    forall l
      ensures CountLen(lengths[..0], l) == 0
    {
      CountNone(l);
    }
    for n := 0 to |lengths|
      invariant forall l :: 0 < l <= maxbitlen ==>
                  nextcode[l] == RawFirst(lengths, l) + CountLen(lengths[..n], l)
      invariant forall m :: 0 <= m < n && lengths[m] > 0 ==>
                  tree1d[m] == RawFirst(lengths, lengths[m]) + CountLen(lengths[..m], lengths[m])
    {
      CountNext(lengths, n);
      if lengths[n] != 0 {
        tree1d[n] := nextcode[lengths[n]];
        nextcode[lengths[n]] := nextcode[lengths[n]] + 1;
      }
    }
    codes := tree1d[..];
  }

  method CountLengths(lengths: seq<nat>, maxbitlen: nat) returns (blcount: array<nat>)
    requires Bounded(lengths, maxbitlen)
    ensures fresh(blcount) && blcount.Length == maxbitlen + 1
    ensures forall l :: 0 <= l <= maxbitlen ==> blcount[l] == CountLen(lengths, l)
  {
    blcount := new nat[maxbitlen + 1](_ => 0);
    for bits := 0 to |lengths|
      invariant forall l :: 0 <= l <= maxbitlen ==> blcount[l] == CountLen(lengths[..bits], l)
    {
      assert lengths[..bits + 1][..bits] == lengths[..bits];
      blcount[lengths[bits]] := blcount[lengths[bits]] + 1;
    }
    assert lengths[..|lengths|] == lengths;
  }

  lemma CodesAreCanonical(lengths: seq<nat>, maxbitlen: nat, tree1d: seq<nat>)
    requires |tree1d| == |lengths| <= 288 && maxbitlen <= 15 && Bounded(lengths, maxbitlen)
    requires forall m :: 0 <= m < |lengths| && lengths[m] > 0 ==>
               tree1d[m] == RawFirst(lengths, lengths[m]) + CountLen(lengths[..m], lengths[m])
    ensures forall n :: 0 <= n < |lengths| && lengths[n] > 0 ==> tree1d[n] < 0x1_0000_0000
    ensures Complete(lengths, maxbitlen) ==>
              && IsTrieOf(CanonTrie(lengths, maxbitlen), WordsOf(tree1d, lengths))
              && forall n :: 0 <= n < |lengths| ==>
                   tree1d[n] % Pow2(lengths[n]) == CanonCode(lengths, n) % Pow2(lengths[n])
  {
    hide CanonTrie, CanonCode, Pow2, IsTrieOf, RawFirst, CountLen;
    forall n | 0 <= n < |lengths| && lengths[n] > 0
      ensures tree1d[n] < 0x1_0000_0000
    {
      RawCodeFits(lengths, maxbitlen, lengths[n]);
      CountMonotone(lengths, lengths[n], n, |lengths|);
      assert lengths[..|lengths|] == lengths;
    }
    if Complete(lengths, maxbitlen) {
      forall n | 0 <= n < |lengths|
        ensures tree1d[n] % Pow2(lengths[n]) == CanonCode(lengths, n) % Pow2(lengths[n])
        ensures MsbBits(tree1d[n], lengths[n]) == Word(lengths, n)
      {
        if lengths[n] > 0 {
          RawCodeIsCanonical(lengths, maxbitlen, n);
          CodeFits(lengths, n);
          FilledFits(lengths, maxbitlen, lengths[n]);
          ModSmall(CanonCode(lengths, n), Pow2(lengths[n]));
        } else {
          NoBits();
        }
        MsbBitsMod(tree1d[n], CanonCode(lengths, n), lengths[n]);
      }
      assert WordsOf(tree1d, lengths) == Words(lengths);
      CanonTrieOfWords(lengths, maxbitlen);
    }
  }

  // ---------------------------------------------------------------- symbols in the stream

  /** (unsigned)(-1): no symbol. */
  const NO_CODE: nat := 0xFFFF_FFFF

  /**
   * Reads one symbol. When the table represents a code tree, the result is that tree's, on every input:
   * the symbol whose word is at the bit pointer, or NO_CODE when the input ends first.
   */
  method HuffmanDecodeSymbol(bytes: seq<byte>, bp: nat, codetree: HuffmanTree, ghost t: Trie)
    returns (ct: nat, bp': nat)
    requires 0 < codetree.numcodes && |codetree.tree2d| == 2 * codetree.numcodes
    ensures bp <= bp' && (bp' == bp || bp' <= 8 * |bytes|)
    ensures ct == NO_CODE || (ct < codetree.numcodes && bp < bp' <= 8 * |bytes|)
    ensures Represents(codetree.tree2d, codetree.numcodes, 0, t) ==>
              match Walk(t, BytesBits(bytes), bp)
              case Symbol(s, p) => ct == s < codetree.numcodes && bp' == p
              case Exhausted => ct == NO_CODE
  {
    hide Represents, EntryIs, Walk;
    var treepos: nat := 0;
    bp' := bp;
    ghost var u := t;
    ghost var good := Represents(codetree.tree2d, codetree.numcodes, 0, t);
    while true
      invariant bp <= bp' && (bp' == bp || bp' <= 8 * |bytes|) && treepos < codetree.numcodes
      invariant good ==> Represents(codetree.tree2d, codetree.numcodes, treepos, u)
      invariant good ==> Walk(u, BytesBits(bytes), bp') == Walk(t, BytesBits(bytes), bp)
      decreases 8 * |bytes| - bp'
    {
      if good {
        TableStep(codetree.tree2d, codetree.numcodes, treepos, u, BytesBits(bytes), bp');
      }
      if bp' >= 8 * |bytes| {
        return NO_CODE, bp';
      }
      var bit := ReadBit(bp', bytes);
      ct := codetree.tree2d[2 * treepos + Index(bit)];
      bp' := bp' + 1;
      if ct < codetree.numcodes {
        return ct, bp';
      }
      treepos := ct - codetree.numcodes;
      if treepos >= codetree.numcodes {
        return NO_CODE, bp';
      }
      if good {
        u := Child(u, bit);
      }
    }
  }

  /** One step down the table is one step down the tree. */
  lemma TableStep(s: seq<nat>, numcodes: nat, k: nat, u: Trie, bits: BitString, pos: nat)
    requires Represents(s, numcodes, k, u)
    ensures u.Node?
    ensures pos >= |bits| ==> Walk(u, bits, pos) == Exhausted
    ensures pos < |bits| ==>
              var e, c := s[2 * k + Index(bits[pos])], Child(u, bits[pos]);
              && (e < numcodes ==> Walk(u, bits, pos) == Symbol(e, pos + 1))
              && (e >= numcodes ==> Walk(u, bits, pos) == Walk(c, bits, pos + 1))
              && (e >= numcodes ==> e - numcodes < numcodes && Represents(s, numcodes, e - numcodes, c))
  {
    if pos < |bits| {
      var c := Child(u, bits[pos]);
      assert EntryIs(s, numcodes, s[2 * k + Index(bits[pos])], c);
      assert Walk(u, bits, pos) == Walk(c, bits, pos + 1);
      if c.Leaf? {
        assert Walk(c, bits, pos + 1) == Symbol(c.sym, pos + 1);
      } else {
        assert Represents(s, numcodes, s[2 * k + Index(bits[pos])] - numcodes, c);
      }
    }
  }

  /** Writes the word of a symbol. */
  method AddHuffmanSymbol(bp: nat, out: UcVector, tree: HuffmanTree, sym: nat, ghost base: nat) returns (bp': nat)
    requires Padded(out.data, base, bp)
    requires ValidTree(tree) && sym < tree.numcodes
    modifies out
    ensures bp' == bp + tree.lengths[sym] && Padded(out.data, base, bp')
    ensures out.data[..base] == old(out.data[..base])
    ensures Stream(out.data, base, bp') == old(Stream(out.data, base, bp)) + Word(tree.lengths, sym)
  {
    MsbBitsMod(tree.tree1d[sym], CanonCode(tree.lengths, sym), tree.lengths[sym]);
    bp' := AddBitsToStreamReversed(bp, out, tree.tree1d[sym], tree.lengths[sym], base);
  }

  /** The word of a present symbol decodes to the symbol, wherever it stands in the stream. */
  lemma WordDecodes(lengths: seq<nat>, maxbitlen: nat, sym: nat, bits: BitString, pos: nat)
    requires Complete(lengths, maxbitlen) && sym < |lengths| && lengths[sym] > 0
    requires pos + lengths[sym] <= |bits| && bits[pos..pos + lengths[sym]] == Word(lengths, sym)
    ensures Walk(CanonTrie(lengths, maxbitlen), bits, pos) == Symbol(sym, pos + lengths[sym])
  {
    CanonTrieOfWords(lengths, maxbitlen);
    assert Words(lengths)[sym] == Word(lengths, sym);
    WalkReadsWord(CanonTrie(lengths, maxbitlen), Word(lengths, sym), sym, bits, pos);
  }

  /** What decodes is the word of a present symbol: the converse. */
  lemma DecodedWord(lengths: seq<nat>, maxbitlen: nat, bits: BitString, pos: nat)
    requires Complete(lengths, maxbitlen) && pos <= |bits|
    requires Walk(CanonTrie(lengths, maxbitlen), bits, pos).Symbol?
    ensures var w := Walk(CanonTrie(lengths, maxbitlen), bits, pos);
            && w.sym < |lengths| && 0 < lengths[w.sym]
            && w.pos == pos + lengths[w.sym] <= |bits|
            && bits[pos..w.pos] == Word(lengths, w.sym)
  {
    CanonTrieOfWords(lengths, maxbitlen);
    var t := CanonTrie(lengths, maxbitlen);
    WalkFoundWord(t, bits, pos);
    var w := Walk(t, bits, pos);
    assert Words(lengths)[w.sym] == bits[pos..w.pos];
    assert |bits[pos..w.pos]| == w.pos - pos;
  }
}

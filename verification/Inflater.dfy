/** The inflater: loops over a byte buffer with a bit pointer, filling the output buffer in place. */
module Inflater {
  import opened Powers
  import opened Bits
  import opened Tries
  import opened Canonical
  import opened HuffmanTable
  import opened Huffman
  import opened Tokens
  import opened RunLengths
  import opened InflateSpec

  // ---------------------------------------------------------------- trees

  method GenerateFixedLitLenTree() returns (error: nat, tree: HuffmanTree)
    ensures error == 0 && ValidTree(tree) && tree.lengths == FIXED_LL && tree.maxbitlen == 15
  {
    var bitlen := new nat[NUM_DEFLATE_CODE_SYMBOLS](_ => 0);
    for i := 0 to 144
      invariant forall k :: 0 <= k < i ==> bitlen[k] == 8
    {
      bitlen[i] := 8;
    }
    for i := 144 to 256
      invariant forall k :: 0 <= k < i ==> bitlen[k] == if k < 144 then 8 else 9
    {
      bitlen[i] := 9;
    }
    for i := 256 to 280
      invariant forall k :: 0 <= k < i ==> bitlen[k] == if k < 144 then 8 else if k < 256 then 9 else 7
    {
      bitlen[i] := 7;
    }
    for i := 280 to 288
      invariant forall k :: 0 <= k < i ==>
                  bitlen[k] == if k < 144 then 8 else if k < 256 then 9 else if k < 280 then 7 else 8
    {
      bitlen[i] := 8;
    }
    FixedComplete();
    assert bitlen[..] == FIXED_LL;
    error, tree := MakeFromLengths2(bitlen[..], 15);
  }

  method GenerateFixedDistanceTree() returns (error: nat, tree: HuffmanTree)
    ensures error == 0 && ValidTree(tree) && tree.lengths == FIXED_D && tree.maxbitlen == 15
  {
    var bitlen := new nat[NUM_DISTANCE_SYMBOLS](_ => 0);
    for i := 0 to NUM_DISTANCE_SYMBOLS
      invariant forall k :: 0 <= k < i ==> bitlen[k] == 5
    {
      bitlen[i] := 5;
    }
    FixedComplete();
    assert bitlen[..] == FIXED_D;
    error, tree := MakeFromLengths2(bitlen[..], 15);
  }

  /** A table of the right size for a code of n symbols; it is only a tree if the code is complete. */
  predicate Usable(tree: HuffmanTree, n: nat)
  {
    tree.numcodes == n > 0 && |tree.tree2d| == 2 * n
  }

  /** Reads the code length code lengths. */
  method ReadClLengths(bytes: seq<byte>, bp: nat, hclen: nat) returns (cl: seq<nat>, bp': nat)
    requires hclen <= NUM_CODE_LENGTH_CODES
    ensures bp' == bp + 3 * hclen && |cl| == NUM_CODE_LENGTH_CODES && Bounded(cl, 7)
    ensures bp' <= 8 * |bytes| ==> cl == ClLengths(BytesBits(bytes), bp, hclen)
  {
    hide Order, Place, BytesBits, LsbValue;
    var bitlen_cl := new nat[NUM_CODE_LENGTH_CODES](_ => 0);
    bp' := bp;
    ghost var bits := BytesBits(bytes);
    for i := 0 to NUM_CODE_LENGTH_CODES
      invariant bp' == bp + 3 * (if i < hclen then i else hclen)
      invariant forall s :: 0 <= s < NUM_CODE_LENGTH_CODES ==> bitlen_cl[s] <= 7
      invariant bp + 3 * hclen <= 8 * |bytes| ==> forall s :: 0 <= s < NUM_CODE_LENGTH_CODES && Place(s) < i ==>
                  bitlen_cl[s] == if Place(s) < hclen then Field(bits, bp + 3 * Place(s), 3) else 0
    {
      OrderPlace(i);
      forall s | 0 <= s < NUM_CODE_LENGTH_CODES && Place(s) == i
        ensures s == Order(i)
      {
        OrderPlace(s);
      }
      if i < hclen {
        var v;
        v, bp' := ReadBitsFromStream(bp', bytes, 3);
        assert Pow2(3) == 8;
        bitlen_cl[Order(i)] := v;
      } else {
        bitlen_cl[Order(i)] := 0;
      }
    }
    cl := bitlen_cl[..];
  }

  /** The two length arrays hold the list read so far: the first hlit lengths and the others; the rest is 0. */
  ghost predicate Holds(ll: array<nat>, d: array<nat>, hlit: nat, have: seq<nat>)
    reads ll, d
  {
    && ll.Length == NUM_DEFLATE_CODE_SYMBOLS && d.Length == NUM_DISTANCE_SYMBOLS
    && hlit <= ll.Length && |have| <= hlit + d.Length
    && (forall k :: 0 <= k < ll.Length ==> ll[k] == if k < hlit && k < |have| then have[k] else 0)
    && (forall k :: 0 <= k < d.Length ==> d[k] == if hlit + k < |have| then have[hlit + k] else 0)
  }

  method AppendLengths(ll: array<nat>, d: array<nat>, hlit: nat, total: nat, i: nat, value: nat, n: nat,
                       ghost have: seq<nat>)
    returns (i': nat, full: bool)
    requires ll != d && Holds(ll, d, hlit, have) && i == |have| && i <= total <= hlit + d.Length
    modifies ll, d
    ensures full == (i + n > total)
    ensures i' == (if full then total else i + n)
    ensures Holds(ll, d, hlit, have + Fill(value, i' - i))
  {
    i' := i;
    full := false;
    for k := 0 to n
      invariant i' == i + k <= total && !full
      invariant Holds(ll, d, hlit, have + Fill(value, k))
    {
      if i' >= total {
        full := true;
        return;
      }
      assert have + Fill(value, k + 1) == have + Fill(value, k) + [value];
      if i' < hlit {
        ll[i'] := value;
      } else {
        d[i' - hlit] := value;
      }
      i' := i' + 1;
    }
  }

  /**
   * Reads the code lengths of both alphabets. On success the arrays hold the list that ReadRuns describes; on
   * failure the error code is the one ReadRuns gives. t is the tree of tree_cl, if live holds at all.
   */
  method ReadLengths(bytes: seq<byte>, bp: nat, tree_cl: HuffmanTree, hlit: nat, hdist: nat,
                     ll: array<nat>, d: array<nat>, ghost live: bool, ghost t: Trie)
    returns (error: nat, bp': nat, ghost have: seq<nat>)
    requires Usable(tree_cl, NUM_CODE_LENGTH_CODES) && ll != d && Holds(ll, d, hlit, [])
    requires hdist <= d.Length
    requires live ==> bp <= 8 * |bytes| && Represents(tree_cl.tree2d, tree_cl.numcodes, 0, t)
    modifies ll, d
    ensures bp <= bp'
    ensures error == 0 ==> |have| == hlit + hdist && Holds(ll, d, hlit, have)
    ensures error == 0 ==> forall k :: 0 <= k < |have| ==> have[k] <= 15
    ensures live ==> t.Node?
    ensures live ==>
              match ReadRuns(BytesBits(bytes), bp, t, hlit + hdist, [])
              case Done(lens, p) => error == 0 && have == lens && bp' == p
              case Fail(code) => error == code
              case Undef => true
  {
    hide Represents, Walk, BytesBits, LsbValue, Holds, Fill, Pow2;
    ghost var bits := BytesBits(bytes);
    ghost var good := live;
    have := [];
    if live {
      RootIsNode(tree_cl.tree2d, tree_cl.numcodes, t);
    }
    var total := hlit + hdist;
    error, bp' := 0, bp;
    var i: nat := 0;
    while i < total && error == 0
      invariant bp <= bp'
      invariant i == |have| <= total && Holds(ll, d, hlit, have)
      invariant forall k :: 0 <= k < |have| ==> have[k] <= 15
      invariant good ==> live && t.Node?
      invariant good && error == 0 ==>
                  && bp' <= 8 * |bytes|
                  && ReadRuns(bits, bp, t, total, []) == ReadRuns(bits, bp', t, total, have)
      invariant good && error != 0 ==> ReadRuns(bits, bp, t, total, []) == Fail(error)
      invariant live && !good ==> ReadRuns(bits, bp, t, total, []) == Undef
      decreases total - i, if error == 0 then 1 else 0
    {
      var code, p := HuffmanDecodeSymbol(bytes, bp', tree_cl, t);
      bp' := p;
      if code <= 15 {
        var full;
        i, full := AppendLengths(ll, d, hlit, total, i, code, 1, have);
        assert have + Fill(code, 1) == have + [code];
        have := have + [code];
      } else if code == NO_CODE {
        error := if bp' > 8 * |bytes| then 10 else 11;
      } else if bp' >= 8 * |bytes| {
        error := 50;
      } else if code == 16 && i == 0 {
        error := 54;
      } else {
        var nbits := if code == 16 then 2 else if code == 17 then 3 else 7;
        var field;
        field, bp' := ReadBitsFromStream(bp', bytes, nbits);
        if bp' > 8 * |bytes| {
          good := false;
        }
        var value := 0;
        if code == 16 {
          LastLength(ll, d, hlit, have);
          value := if i < hlit + 1 then ll[i - 1] else d[i - hlit - 1];
        }
        ghost var n := (if code == 18 then 11 else 3) + field;
        var full;
        ghost var i0 := i;
        i, full := AppendLengths(ll, d, hlit, total, i, value, (if code == 18 then 11 else 3) + field, have);
        have := have + Fill(value, i - i0);
        if full {
          error := code - 3;
        }
      }
    }
  }

  /** The previous length is in the array that index i - 1 belongs to. */
  lemma LastLength(ll: array<nat>, d: array<nat>, hlit: nat, have: seq<nat>)
    requires Holds(ll, d, hlit, have) && have != []
    ensures var i := |have|;
            if i < hlit + 1 then i - 1 < ll.Length && ll[i - 1] == have[i - 1]
            else i - hlit - 1 < d.Length && d[i - hlit - 1] == have[i - 1]
  {
  }

  lemma RootIsNode(s: seq<nat>, numcodes: nat, t: Trie)
    requires Represents(s, numcodes, 0, t)
    ensures t.Node?
  {
  }

  // ---------------------------------------------------------------- dynamic trees

  /** The start of the dynamic header, up to the tree of the code length code. */
  method ReadClTree(bytes: seq<byte>, bp: nat)
    returns (error: nat, bp': nat, hlit: nat, hdist: nat, tree_cl: HuffmanTree, ghost live: bool, ghost t: Trie)
    requires bp <= 8 * |bytes|
    ensures bp <= bp'
    ensures error == 0 ==>
              257 <= hlit <= NUM_DEFLATE_CODE_SYMBOLS && hdist <= NUM_DISTANCE_SYMBOLS
              && Usable(tree_cl, NUM_CODE_LENGTH_CODES)
    ensures live ==> bp' <= 8 * |bytes| && Represents(tree_cl.tree2d, tree_cl.numcodes, 0, t)
    ensures match ReadClCode(BytesBits(bytes), bp)
            case Fail(code) => error == code != 0
            case Undef => !live
            case Done(h, p) => error == 0 && live && bp' == p && hlit == h.0 && hdist == h.1 && t == CodeTree(h.2, 7)
  {
    hide BytesBits, Represents, CanonTrie, ValidTree, KraftSum, ClLengths;
    var inlength := |bytes|;
    live, t := false, Leaf(0);
    hlit, hdist, tree_cl := 0, 0, HuffmanTree([], [], [], 0, 0);
    if inlength >= 2 && bp / 8 >= inlength - 2 {
      return 49, bp, hlit, hdist, tree_cl, live, t;
    }
    var hclen;
    hlit, bp' := ReadBitsFromStream(bp, bytes, 5);
    hdist, bp' := ReadBitsFromStream(bp', bytes, 5);
    hclen, bp' := ReadBitsFromStream(bp', bytes, 4);
    assert Pow2(5) == 32 && Pow2(4) == 16 by { Pow2Bytes(); }
    hlit, hdist, hclen := hlit + 257, hdist + 1, hclen + 4;
    var bitlen_cl;
    bitlen_cl, bp' := ReadClLengths(bytes, bp', hclen);
    error, tree_cl := MakeFromLengths2(bitlen_cl, 7);
    live := bp' <= 8 * |bytes| && Complete(bitlen_cl, 7);
    t := ClTree(tree_cl, bitlen_cl, live);
  }

  method GetTreeInflateDynamic(bytes: seq<byte>, bp: nat)
    returns (error: nat, bp': nat, tree_ll: HuffmanTree, tree_d: HuffmanTree)
    requires bp <= 8 * |bytes|
    ensures bp <= bp'
    ensures error == 0 ==> Usable(tree_ll, NUM_DEFLATE_CODE_SYMBOLS) && Usable(tree_d, NUM_DISTANCE_SYMBOLS)
    ensures match ReadHeader(BytesBits(bytes), bp)
            case Fail(code) => error == code != 0
            case Undef => true
            case Done(codes, p) =>
              Complete(codes.0, 15) && Complete(codes.1, 15) ==>
                && error == 0 && bp' == p && ValidTree(tree_ll) && ValidTree(tree_d)
                && tree_ll.lengths == codes.0 && tree_d.lengths == codes.1
                && tree_ll.maxbitlen == tree_d.maxbitlen == 15
  {
    hide BytesBits, ReadRuns, ReadClCode, Represents, CanonTrie, ValidTree, KraftSum, CodeTree, Holds;
    tree_ll, tree_d := HuffmanTree([], [], [], 0, 0), HuffmanTree([], [], [], 0, 0);
    var hlit, hdist, tree_cl;
    ghost var live, t;
    error, bp', hlit, hdist, tree_cl, live, t := ReadClTree(bytes, bp);
    if error != 0 {
      return;
    }
    var ll := new nat[NUM_DEFLATE_CODE_SYMBOLS](_ => 0);
    var d := new nat[NUM_DISTANCE_SYMBOLS](_ => 0);
    NothingHeld(ll, d, hlit);
    ghost var have;
    error, bp', have := ReadLengths(bytes, bp', tree_cl, hlit, hdist, ll, d, live, t);
    if error != 0 {
      return;
    }
    LengthArrays(ll, d, hlit, hdist, have);
    if ll[256] == 0 {
      error := 64;
      return;
    }
    error, tree_ll := MakeFromLengths2(ll[..], 15);
    if error != 0 {
      return;
    }
    error, tree_d := MakeFromLengths2(d[..], 15);
  }

  lemma NothingHeld(ll: array<nat>, d: array<nat>, hlit: nat)
    requires ll.Length == NUM_DEFLATE_CODE_SYMBOLS && d.Length == NUM_DISTANCE_SYMBOLS && hlit <= ll.Length
    requires forall k :: 0 <= k < ll.Length ==> ll[k] == 0
    requires forall k :: 0 <= k < d.Length ==> d[k] == 0
    ensures Holds(ll, d, hlit, [])
  {
  }

  lemma ClTree(tree: HuffmanTree, lengths: seq<nat>, live: bool) returns (t: Trie)
    requires live ==> Complete(lengths, 7) && ValidTree(tree) && tree.lengths == lengths && tree.maxbitlen == 7
    ensures live ==> t == CodeTree(lengths, 7) && Represents(tree.tree2d, tree.numcodes, 0, t)
  {
    t := if live then CodeTree(lengths, 7) else Leaf(0);
  }

  /** The arrays are the two halves of the list, padded with zeros. */
  lemma LengthArrays(ll: array<nat>, d: array<nat>, hlit: nat, hdist: nat, have: seq<nat>)
    requires Holds(ll, d, hlit, have) && |have| == hlit + hdist
    requires forall k :: 0 <= k < |have| ==> have[k] <= 15
    ensures ll.Length == NUM_DEFLATE_CODE_SYMBOLS && d.Length == NUM_DISTANCE_SYMBOLS
    ensures |have[..hlit]| <= ll.Length && |have[hlit..]| <= d.Length
    ensures ll[..] == PadTo(have[..hlit], NUM_DEFLATE_CODE_SYMBOLS)
    ensures d[..] == PadTo(have[hlit..], NUM_DISTANCE_SYMBOLS)
    ensures Bounded(ll[..], 15) && Bounded(d[..], 15)
  {
  }

  // ---------------------------------------------------------------- block contents

  /** Copies length bytes from distance back, byte by byte; backward wraps at the place where the copy started. */
  method CopyForward(out: UcVector, pos: nat, length: nat, distance: nat) returns (pos': nat)
    requires 1 <= distance <= pos && pos + length <= |out.data|
    modifies out
    ensures pos' == pos + length && |out.data| == old(|out.data|)
    ensures out.data[..pos'] == CopyBack(old(out.data)[..pos], length, distance)
  {
    var start := pos;
    var backward := start - distance;
    pos' := pos;
    for forward := 0 to length
      invariant pos' == start + forward && |out.data| == old(|out.data|)
      invariant out.data[..start] == old(out.data)[..start]
      invariant backward == start - distance + forward % distance < start
      invariant forall k :: 0 <= k < forward ==> out.data[start + k] == old(out.data)[start - distance + k % distance]
    {
      assert out.data[backward] == out.data[..start][backward];
      out.data := out.data[pos' := out.data[backward]];
      pos' := pos' + 1;
      ModNext(forward, distance);
      backward := backward + 1;
      if backward >= start {
        backward := start - distance;
      }
    }
    var hist := old(out.data)[..start];
    forall i | 0 <= i < pos'
      ensures out.data[i] == CopyBack(hist, length, distance)[i]
    {
      if i < start {
        assert CopyBack(hist, length, distance)[..start][i] == hist[i];
        assert out.data[i] == out.data[..start][i];
      } else {
        CopyAt(hist, length, distance, i - start);
      }
    }
  }

  lemma TableSizes()
    ensures |LENGTHBASE| == |LENGTHEXTRA| == 29 && |DISTANCEBASE| == |DISTANCEEXTRA| == 30
    ensures forall d :: 0 <= d < 30 ==> DISTANCEBASE[d] >= 1
  {
    TablesIncrease();
  }

  /** Reads what follows a length symbol. */
  method ReadLengthDistance(bytes: seq<byte>, bp: nat, tree_d: HuffmanTree, code_ll: nat, ghost td: Trie,
                            ghost live: bool)
    returns (error: nat, bp': nat, length: nat, distance: nat)
    requires FIRST_LENGTH_CODE_INDEX <= code_ll <= LAST_LENGTH_CODE_INDEX
    requires Usable(tree_d, NUM_DISTANCE_SYMBOLS) && bp <= 8 * |bytes|
    requires live ==> td.Node? && Represents(tree_d.tree2d, tree_d.numcodes, 0, td)
    ensures bp <= bp' && (error == 0 ==> bp < bp' && distance >= 1)
    ensures live ==>
              match ReadCopy(BytesBits(bytes), bp, td, code_ll - FIRST_LENGTH_CODE_INDEX)
              case Fail(code) => error == code != 0
              case Undef => true
              case Done(copy, p) => error == 0 && bp' == p && copy == Copy(length, distance)
  {
    TableSizes();
    hide BytesBits, Walk, Represents, LsbValue, Pow2, BitOf, Child;
    hide LENGTHBASE, LENGTHEXTRA, DISTANCEBASE, DISTANCEEXTRA;
    error, bp', distance := 0, bp, 0;
    length := LENGTHBASE[code_ll - FIRST_LENGTH_CODE_INDEX];
    var numextrabits_l := LENGTHEXTRA[code_ll - FIRST_LENGTH_CODE_INDEX];
    if bp >= 8 * |bytes| {
      error := 51;
      return;
    }
    var extra;
    extra, bp' := ReadBitsFromStream(bp', bytes, numextrabits_l);
    assert bp' <= 8 * |bytes| ==> extra == Field(BytesBits(bytes), bp, numextrabits_l);
    length := length + extra;
    var code_d;
    code_d, bp' := HuffmanDecodeSymbol(bytes, bp', tree_d, td);
    if code_d > 29 {
      error := 18;
      return;
    }
    distance := DISTANCEBASE[code_d];
    var numextrabits_d := DISTANCEEXTRA[code_d];
    if bp' >= 8 * |bytes| {
      error := 51;
      return;
    }
    ghost var p := bp';
    extra, bp' := ReadBitsFromStream(bp', bytes, numextrabits_d);
    assert bp' <= 8 * |bytes| ==> extra == Field(BytesBits(bytes), p, numextrabits_d);
    hide Field;
    distance := distance + extra;
  }

  /** Stores one byte at pos, with twice the room if it does not fit. */
  method PutByte(out: UcVector, pos: nat, b: byte)
    requires pos <= |out.data|
    modifies out
    ensures pos < |out.data| && out.data[..pos + 1] == old(out.data[..pos]) + [b]
  {
    if pos >= |out.data| {
      out.Resize((pos + 1) * 2);
    }
    assert out.data[..pos] == old(out.data[..pos]);
    out.data := out.data[pos := b];
  }

  /** Carries out a copy, with twice the room if it does not fit. */
  method PutCopy(out: UcVector, pos: nat, length: nat, distance: nat) returns (pos': nat)
    requires 1 <= distance <= pos <= |out.data|
    modifies out
    ensures pos' == pos + length <= |out.data|
    ensures out.data[..pos'] == CopyBack(old(out.data[..pos]), length, distance)
  {
    if pos + length >= |out.data| {
      out.Resize((pos + length) * 2);
    }
    assert out.data[..pos] == old(out.data[..pos]);
    pos' := CopyForward(out, pos, length, distance);
  }

  /** Decodes symbols up to the end code into the output buffer, whatever the buffer held behind pos. */
  method InflateSymbols(out: UcVector, bytes: seq<byte>, bp: nat, pos: nat, tree_ll: HuffmanTree,
                        tree_d: HuffmanTree, ghost tll: Trie, ghost td: Trie, ghost live: bool)
    returns (error: nat, bp': nat, pos': nat)
    requires pos <= |out.data| && (live ==> bp <= 8 * |bytes|)
    requires Usable(tree_ll, NUM_DEFLATE_CODE_SYMBOLS) && Usable(tree_d, NUM_DISTANCE_SYMBOLS)
    requires live ==> tll.Node? && Represents(tree_ll.tree2d, tree_ll.numcodes, 0, tll)
    requires live ==> td.Node? && Represents(tree_d.tree2d, tree_d.numcodes, 0, td)
    modifies out
    ensures pos' <= |out.data|
    ensures error == 0 ==> bp < bp' <= 8 * |bytes|
    ensures live ==>
              match ReadBlock(BytesBits(bytes), bp, tll, td, old(out.data[..pos]))
              case Done(o, p) => error == 0 && bp' == p && out.data[..pos'] == o
              case Fail(code) => error == code
              case Undef => true
  {
    hide BytesBits, Walk, Represents, ReadCopy, CopyBack;
    ghost var bits, out0 := BytesBits(bytes), out.data[..pos];
    ghost var good := live;
    error, bp', pos' := 0, bp, pos;
    var end := false;
    while error == 0 && !end
      invariant bp <= bp' && pos' <= |out.data|
      invariant end ==> bp < bp' <= 8 * |bytes| && error == 0
      invariant good ==> live
      invariant good && !end && error == 0 ==>
                  && bp' <= 8 * |bytes|
                  && ReadBlock(bits, bp, tll, td, out0) == ReadBlock(bits, bp', tll, td, out.data[..pos'])
      invariant good && end ==> ReadBlock(bits, bp, tll, td, out0) == Done(out.data[..pos'], bp')
      invariant good && error != 0 ==> ReadBlock(bits, bp, tll, td, out0) == Fail(error)
      invariant live && !good ==> ReadBlock(bits, bp, tll, td, out0) == Undef
      decreases if bp' <= 8 * |bytes| then 8 * |bytes| - bp' else 0, if error == 0 && !end then 1 else 0
    {
      var code_ll;
      code_ll, bp' := HuffmanDecodeSymbol(bytes, bp', tree_ll, tll);
      if code_ll <= 255 {
        PutByte(out, pos', code_ll);
        pos' := pos' + 1;
      } else if FIRST_LENGTH_CODE_INDEX <= code_ll <= LAST_LENGTH_CODE_INDEX {
        var length, distance;
        ghost var at := bp';
        error, bp', length, distance := ReadLengthDistance(bytes, bp', tree_d, code_ll, td, good);
        good := good && !ReadCopy(bits, at, td, code_ll - FIRST_LENGTH_CODE_INDEX).Undef?;
        if error == 0 {
          if distance > pos' {
            error := 52;
          } else {
            pos' := PutCopy(out, pos', length, distance);
          }
        }
      } else if code_ll == 256 {
        end := true;
      } else {
        error := if bp' > 8 * |bytes| then 10 else 11;
      }
    }
  }

  /** A block with fixed or dynamic codes. */
  method InflateHuffmanBlock(out: UcVector, bytes: seq<byte>, bp: nat, pos: nat, btype: nat)
    returns (error: nat, bp': nat, pos': nat)
    requires bp <= 8 * |bytes| && pos <= |out.data| && 1 <= btype <= 2
    modifies out
    ensures pos' <= |out.data|
    ensures error == 0 ==> bp < bp' <= 8 * |bytes|
    ensures match ReadBody(BytesBits(bytes), bp, btype, old(out.data[..pos]))
            case Done(o, p) => error == 0 && bp' == p && out.data[..pos'] == o
            case Fail(code) => error == code
            case Undef => true
  {
    hide BytesBits, ReadHeader, ReadBlock, ReadStored, ValidTree, KraftSum, Represents, CanonTrie, CodeTree;
    var tree_ll, tree_d;
    pos' := pos;
    ghost var codes, live := (FIXED_LL, FIXED_D), true;
    FixedComplete();
    if btype == 1 {
      bp' := bp;
      error, tree_ll := GenerateFixedLitLenTree();
      error, tree_d := GenerateFixedDistanceTree();
    } else {
      ghost var header := ReadHeader(BytesBits(bytes), bp);
      error, bp', tree_ll, tree_d := GetTreeInflateDynamic(bytes, bp);
      if header.Done? && Complete(header.value.0, 15) && Complete(header.value.1, 15) {
        codes := header.value;
      } else {
        live := false;
      }
    }
    if error == 0 {
      ghost var tll, td := CodeTree(codes.0, 15), CodeTree(codes.1, 15);
      if live {
        TreesRepresent(tree_ll, tree_d, codes.0, codes.1);
      }
      error, bp', pos' := InflateSymbols(out, bytes, bp', pos, tree_ll, tree_d, tll, td, live);
    }
  }

  lemma TreesRepresent(tree_ll: HuffmanTree, tree_d: HuffmanTree, ll: seq<nat>, d: seq<nat>)
    requires ValidTree(tree_ll) && tree_ll.lengths == ll && tree_ll.maxbitlen == 15
    requires ValidTree(tree_d) && tree_d.lengths == d && tree_d.maxbitlen == 15
    ensures Represents(tree_ll.tree2d, tree_ll.numcodes, 0, CodeTree(ll, 15))
    ensures Represents(tree_d.tree2d, tree_d.numcodes, 0, CodeTree(d, 15))
  {
  }

  /** in[p]. Past the end of the buffer the source reads whatever memory holds there. */
  method ReadByte(bytes: seq<byte>, p: nat) returns (b: byte)
    ensures p < |bytes| ==> b == bytes[p] == ByteAt(BytesBits(bytes), p)
  {
    if p < |bytes| {
      ByteOfBits(bytes, p);
      b := bytes[p];
    } else {
      b := *;
    }
  }

  /** A stored block. The source's test inlength - 4 is unsigned, so it cannot fail on inputs under 4 bytes. */
  method InflateNoCompression(out: UcVector, bytes: seq<byte>, bp: nat, pos: nat)
    returns (error: nat, bp': nat, pos': nat)
    requires bp <= 8 * |bytes| && pos <= |out.data|
    modifies out
    ensures pos' <= |out.data|
    ensures error == 0 ==> bp < bp' <= 8 * |bytes|
    ensures match ReadStored(BytesBits(bytes), bp, old(out.data[..pos]))
            case Done(o, p) => error == 0 && bp' == p && out.data[..pos'] == o
            case Fail(code) => error == code
            case Undef => true
  {
    hide BytesBits, ByteAt;
    ghost var bits := BytesBits(bytes);
    var inlength := |bytes|;
    error, pos' := 0, pos;
    bp' := bp;
    while bp' % 8 != 0
      invariant bp <= bp' <= (bp + 7) / 8 * 8
      decreases (bp + 7) / 8 * 8 - bp'
    {
      bp' := bp' + 1;
    }
    var p := bp' / 8;
    assert p == (bp + 7) / 8;
    if inlength >= 4 && p >= inlength - 4 {
      error := 52;
      return;
    }
    var lo: nat := ReadByte(bytes, p);
    var hi: nat := ReadByte(bytes, p + 1);
    var len: nat := lo + 256 * hi;
    p := p + 2;
    lo := ReadByte(bytes, p);
    hi := ReadByte(bytes, p + 1);
    var nlen: nat := lo + 256 * hi;
    p := p + 2;
    if len + nlen != 65535 {
      error := 21;
      return;
    }
    if pos' + len >= |out.data| {
      out.Resize(pos' + len);
    }
    if p + len > inlength {
      error := 23;
      return;
    }
    assert out.data[..pos] == old(out.data[..pos]);
    BytesOfBits(bytes, p, len);
    CopyStored(out, bytes, pos, p, len);
    pos', p := pos + len, p + len;
    bp' := p * 8;
  }

  /** The literal bytes of a stored block. */
  method CopyStored(out: UcVector, bytes: seq<byte>, pos: nat, p: nat, len: nat)
    requires pos + len <= |out.data| && p + len <= |bytes|
    modifies out
    ensures |out.data| == old(|out.data|)
    ensures out.data[..pos + len] == old(out.data[..pos]) + bytes[p..p + len]
  {
    for n := 0 to len
      invariant |out.data| == old(|out.data|)
      invariant out.data[..pos + n] == old(out.data[..pos]) + bytes[p..p + n]
    {
      out.data := out.data[pos + n := bytes[p + n]];
      assert bytes[p..p + n + 1] == bytes[p..p + n] + [bytes[p + n]];
      assert out.data[..pos + n + 1] == out.data[..pos + n] + [bytes[p + n]];
    }
  }

  /**
   * Inflates a whole buffer. out may hold anything before; afterwards, on success, it holds exactly the bytes that
   * the stream describes, and on failure the error code is the one the stream calls for.
   */
  method Inflatev(out: UcVector, bytes: seq<byte>) returns (error: nat)
    modifies out
    ensures match Inflate(BytesBits(bytes), 0, [])
            case Done(o, _) => error == 0 && out.data == o
            case Fail(code) => error == code
            case Undef => true
  {
    hide BytesBits, ReadBody;
    ghost var bits := BytesBits(bytes);
    var bp: nat := 0;
    var final := false;
    var pos: nat := 0;
    error := 0;
    ghost var good := true;
    while !final
      invariant bp <= 8 * |bytes| && pos <= |out.data|
      invariant good && !final ==> Inflate(bits, 0, []) == Inflate(bits, bp, out.data[..pos])
      invariant good && final ==> Inflate(bits, 0, []) == Done(out.data[..pos], bp)
      invariant !good ==> Inflate(bits, 0, []) == Undef
      decreases if final then 0 else 1, 8 * |bytes| - bp
    {
      if bp + 2 >= |bytes| * 8 {
        return 52;
      }
      ghost var bp0 := bp;
      final := ReadBit(bp, bytes);
      var low := ReadBit(bp + 1, bytes);
      var high := ReadBit(bp + 2, bytes);
      bp := bp + 3;
      var btype := (if low then 1 else 0) + (if high then 2 else 0);
      ghost var body := if btype == 3 then Undef else ReadBody(bits, bp, btype, out.data[..pos]);
      if btype == 3 {
        return 20;
      } else if btype == 0 {
        assert body == ReadStored(bits, bp, out.data[..pos]) by { StoredBody(bits, bp, out.data[..pos]); }
        error, bp, pos := InflateNoCompression(out, bytes, bp, pos);
      } else {
        error, bp, pos := InflateHuffmanBlock(out, bytes, bp, pos, btype);
      }
      if error != 0 {
        return;
      }
      good := good && !body.Undef?;
    }
    out.Resize(pos);
  }

  lemma StoredBody(bits: BitString, bp: nat, out: seq<byte>)
    requires bp <= |bits|
    ensures ReadBody(bits, bp, 0, out) == ReadStored(bits, bp, out)
  {
  }
}

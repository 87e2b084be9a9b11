/**
 * The inflater as a function of the bits: section 3.2.3 of RFC 1951, with the source's error codes.
 * Undef stands for inputs on which the source reads behind its buffer, or that carry an incomplete or
 * oversubscribed code.
 */
module InflateSpec {
  import opened Powers
  import opened Bits
  import opened Tries
  import opened Canonical
  import opened Tokens
  import opened RunLengths

  datatype Outcome<+T> = Done(value: T, bp: nat) | Fail(code: nat) | Undef

  const NUM_DEFLATE_CODE_SYMBOLS: nat := 288
  const NUM_DISTANCE_SYMBOLS: nat := 32
  const NUM_CODE_LENGTH_CODES: nat := 19

  const CLCL_ORDER: seq<nat> := [16, 17, 18, 0, 8, 7, 9, 6, 10, 5, 11, 4, 12, 3, 13, 2, 14, 1, 15]

  /** Where each code length symbol stands in CLCL_ORDER. */
  const CLCL_PLACE: seq<nat> := [3, 17, 15, 13, 11, 9, 7, 5, 4, 6, 8, 10, 12, 14, 16, 18, 0, 1, 2]

  function Order(i: nat): (s: nat)
    requires i < NUM_CODE_LENGTH_CODES
    ensures s < NUM_CODE_LENGTH_CODES
  {
    CLCL_ORDER[i]
  }

  function Place(s: nat): (i: nat)
    requires s < NUM_CODE_LENGTH_CODES
    ensures i < NUM_CODE_LENGTH_CODES
  {
    CLCL_PLACE[s]
  }

  /** CLCL_ORDER is a permutation. */
  lemma OrderPlace(s: nat)
    requires s < NUM_CODE_LENGTH_CODES
    ensures Order(Place(s)) == s && Place(Order(s)) == s
  {
    if s < 10 {
      assert Order(Place(s)) == s;
    }
  }

  /** The order of section 3.2.7: the repeat codes, then 0, then outwards from 8, the larger one first. */
  lemma OrderIs(i: nat)
    requires i < NUM_CODE_LENGTH_CODES
    ensures i < 3 ==> Order(i) == 16 + i
    ensures i == 3 ==> Order(i) == 0
    ensures i >= 4 && i % 2 == 0 ==> Order(i) == 8 + (i - 4) / 2
    ensures i >= 4 && i % 2 == 1 ==> Order(i) == 7 - (i - 5) / 2
  {
  }

  // ---------------------------------------------------------------- bytes and fields

  function Field(bits: BitString, bp: nat, n: nat): (r: nat)
    requires bp + n <= |bits|
    ensures r < Pow2(n)
  {
    LsbValue(bits[bp..bp + n])
  }

  function ByteAt(bits: BitString, p: nat): byte
    requires 8 * p + 8 <= |bits|
  {
    assert Pow2(8) == 256 by { Pow2Bytes(); }
    Field(bits, 8 * p, 8)
  }

  function BytesAt(bits: BitString, p: nat, n: nat): (r: seq<byte>)
    requires 8 * (p + n) <= |bits|
    ensures |r| == n
  {
    seq<byte>(n, i requires 0 <= i < n => ByteAt(bits, p + i))
  }

  lemma BitInByte(s: seq<byte>, p: nat, k: nat)
    requires p < |s| && k < 8
    ensures BytesBits(s)[8 * p + k] == BitOf(s[p], k)
  {
    assert (8 * p + k) / 8 == p && (8 * p + k) % 8 == k;
  }

  /** The bits of a buffer give back its bytes. */
  lemma ByteOfBits(s: seq<byte>, p: nat)
    requires p < |s|
    ensures ByteAt(BytesBits(s), p) == s[p]
  {
    hide BytesBits, LsbBits, LsbValue, Pow2;
    var window := BytesBits(s)[8 * p..8 * p + 8];
    forall k | 0 <= k < 8
      ensures window[k] == LsbBits(s[p], 8)[k]
    {
      LsbBitsAt(s[p], 8, k);
      BitInByte(s, p, k);
    }
    assert window == LsbBits(s[p], 8);
    LsbValueOfBits(s[p], 8);
    assert Pow2(8) == 256 by { Pow2Bytes(); }
  }

  lemma BytesOfBits(s: seq<byte>, p: nat, n: nat)
    requires p + n <= |s|
    ensures BytesAt(BytesBits(s), p, n) == s[p..p + n]
  {
    forall i | 0 <= i < n
      ensures BytesAt(BytesBits(s), p, n)[i] == s[p..p + n][i]
    {
      ByteOfBits(s, p + i);
    }
  }

  // ---------------------------------------------------------------- the dynamic header

  /** The code lengths of both alphabets, read one after the other until there are total of them. */
  function ReadRuns(bits: BitString, bp: nat, t: Trie, total: nat, have: seq<nat>): (r: Outcome<seq<nat>>)
    requires t.Node? && bp <= |bits|
    ensures r.Done? ==> bp <= r.bp <= |bits| && |r.value| >= total
    ensures r.Done? && |have| <= total ==> |r.value| == total
    ensures r.Fail? ==> r.code != 0
    decreases if |have| < total then total - |have| else 0
  {
    if |have| >= total then Done(have, bp)
    else
      match Walk(t, bits, bp)
      case Exhausted => Fail(11)
      case Symbol(code, p) =>
        if code <= 15 then ReadRuns(bits, p, t, total, have + [code])
        else if code > 18 then Fail(16)
        else if p >= |bits| then Fail(50)
        else if code == 16 && have == [] then Fail(54)
        else
          var nbits := if code == 16 then 2 else if code == 17 then 3 else 7;
          if p + nbits > |bits| then Undef
          else
            var n := (if code == 18 then 11 else 3) + Field(bits, p, nbits);
            if |have| + n > total then Fail(code - 3)
            else ReadRuns(bits, p + nbits, t, total, have + Fill(if code == 16 then have[|have| - 1] else 0, n))
  }

  /** The lengths of the code length code: 3 bits each, in the order of CLCL_ORDER, the rest 0. */
  function ClLengths(bits: BitString, bp: nat, n: nat): (r: seq<nat>)
    requires n <= NUM_CODE_LENGTH_CODES && bp + 3 * n <= |bits|
    ensures |r| == NUM_CODE_LENGTH_CODES
  {
    seq(NUM_CODE_LENGTH_CODES, s requires 0 <= s < NUM_CODE_LENGTH_CODES =>
      var i := Place(s); if i < n then Field(bits, bp + 3 * i, 3) else 0)
  }

  function PadTo(s: seq<nat>, n: nat): (r: seq<nat>)
    requires |s| <= n
    ensures |r| == n
  {
    s + Fill(0, n - |s|)
  }

  /** The start of the header: how many lengths there are of either alphabet, and the code length code. */
  function ReadClCode(bits: BitString, bp: nat): (r: Outcome<(nat, nat, seq<nat>)>)
    requires bp <= |bits|
    ensures r.Done? ==> bp < r.bp <= |bits|
    ensures r.Fail? ==> r.code != 0
    ensures r.Done? ==> 257 <= r.value.0 <= NUM_DEFLATE_CODE_SYMBOLS && 1 <= r.value.1 <= NUM_DISTANCE_SYMBOLS
    ensures r.Done? ==> Complete(r.value.2, 7)
  {
    var inlength := |bits| / 8;
    if inlength >= 2 && bp / 8 >= inlength - 2 then Fail(49)
    else if bp + 14 > |bits| then Undef
    else
      assert Pow2(5) == 32 && Pow2(4) == 16 by { Pow2Bytes(); }
      var hlit := Field(bits, bp, 5) + 257;
      var hdist := Field(bits, bp + 5, 5) + 1;
      var hclen := Field(bits, bp + 10, 4) + 4;
      if bp + 14 + 3 * hclen > |bits| then Undef
      else
        var cl := ClLengths(bits, bp + 14, hclen);
        if Complete(cl, 7) then Done((hlit, hdist, cl), bp + 14 + 3 * hclen) else Undef
  }

  /** Both alphabets' code lengths. */
  function ReadHeader(bits: BitString, bp: nat): (r: Outcome<(seq<nat>, seq<nat>)>)
    requires bp <= |bits|
    ensures r.Done? ==> bp < r.bp <= |bits|
    ensures r.Fail? ==> r.code != 0
    ensures r.Done? ==> |r.value.0| == NUM_DEFLATE_CODE_SYMBOLS && |r.value.1| == NUM_DISTANCE_SYMBOLS
  {
    match ReadClCode(bits, bp)
    case Fail(code) => Fail(code)
    case Undef => Undef
    case Done(h, p) =>
      match ReadRuns(bits, p, CodeTree(h.2, 7), h.0 + h.1, [])
      case Fail(code) => Fail(code)
      case Undef => Undef
      case Done(lens, bp') =>
        var ll := PadTo(lens[..h.0], NUM_DEFLATE_CODE_SYMBOLS);
        if ll[256] == 0 then Fail(64)
        else Done((ll, PadTo(lens[h.0..], NUM_DISTANCE_SYMBOLS)), bp')
  }

  /** The tree of a complete code. */
  function CodeTree(lengths: seq<nat>, maxbitlen: nat): (t: Trie)
    requires Complete(lengths, maxbitlen)
    ensures t.Node?
  {
    CanonTrieOfWords(lengths, maxbitlen);
    CanonTrie(lengths, maxbitlen)
  }

  // ---------------------------------------------------------------- block contents

  /** Literals and copies up to the end code. */
  function ReadBlock(bits: BitString, bp: nat, tll: Trie, td: Trie, out: seq<byte>): (r: Outcome<seq<byte>>)
    requires tll.Node? && td.Node? && bp <= |bits|
    ensures r.Done? ==> bp < r.bp <= |bits|
    ensures r.Fail? ==> r.code != 0
    decreases |bits| - bp
  {
    match Walk(tll, bits, bp)
    case Exhausted => Fail(11)
    case Symbol(c, p) =>
      if c <= 255 then ReadBlock(bits, p, tll, td, out + [c])
      else if c == 256 then Done(out, p)
      else if c > LAST_LENGTH_CODE_INDEX then Fail(11)
      else
        match ReadCopy(bits, p, td, c - FIRST_LENGTH_CODE_INDEX)
        case Fail(code) => Fail(code)
        case Undef => Undef
        case Done(copy, p') =>
          if copy.distance > |out| then Fail(52)
          else ReadBlock(bits, p', tll, td, CopyBack(out, copy.length, copy.distance))
  }

  /** What follows a length symbol: extra length bits, the distance symbol, extra distance bits. */
  function ReadCopy(bits: BitString, p: nat, td: Trie, l: nat): (r: Outcome<Token>)
    requires td.Node? && p <= |bits| && l <= 28
    ensures r.Fail? ==> r.code != 0
    ensures r.Done? ==> p < r.bp <= |bits| && r.value.Copy? && r.value.distance >= 1
  {
    if p >= |bits| then Fail(51)
    else if p + LENGTHEXTRA[l] > |bits| then Undef
    else
      match Walk(td, bits, p + LENGTHEXTRA[l])
      case Exhausted => Fail(18)
      case Symbol(d, p') =>
        if d > 29 then Fail(18)
        else if p' >= |bits| then Fail(51)
        else if p' + DISTANCEEXTRA[d] > |bits| then Undef
        else
          Done(Copy(LENGTHBASE[l] + Field(bits, p, LENGTHEXTRA[l]),
                    DISTANCEBASE[d] + Field(bits, p', DISTANCEEXTRA[d])),
               p' + DISTANCEEXTRA[d])
  }

  /** A stored block: LEN and its complement at the next byte boundary, then LEN bytes. */
  function ReadStored(bits: BitString, bp: nat, out: seq<byte>): (r: Outcome<seq<byte>>)
    requires bp <= |bits|
    ensures r.Done? ==> bp < r.bp <= |bits|
    ensures r.Fail? ==> r.code != 0
  {
    var inlength := |bits| / 8;
    var p := (bp + 7) / 8;
    if inlength < 4 then Undef
    else if p >= inlength - 4 then Fail(52)
    else
      var len := ByteAt(bits, p) + 256 * ByteAt(bits, p + 1);
      var nlen := ByteAt(bits, p + 2) + 256 * ByteAt(bits, p + 3);
      if len + nlen != 65535 then Fail(21)
      else if p + 4 + len > inlength then Fail(23)
      else Done(out + BytesAt(bits, p + 4, len), 8 * (p + 4 + len))
  }

  // ---------------------------------------------------------------- fixed codes

  const FIXED_LL: seq<nat> := Fill(8, 144) + Fill(9, 112) + Fill(7, 24) + Fill(8, 8)
  const FIXED_D: seq<nat> := Fill(5, 32)

  lemma {:induction false} KraftFill(a: seq<nat>, v: nat, n: nat, maxbitlen: nat)
    requires Bounded(a, maxbitlen) && 0 < v <= maxbitlen
    ensures Bounded(a + Fill(v, n), maxbitlen)
    ensures KraftSum(a + Fill(v, n), maxbitlen) == KraftSum(a, maxbitlen) + n * Pow2(maxbitlen - v)
  {
    hide KraftSum, Pow2;
    if n == 0 {
      assert a + Fill(v, 0) == a;
    } else {
      KraftFill(a, v, n - 1, maxbitlen);
      OneMore(n - 1, Pow2(maxbitlen - v));
      assert a + Fill(v, n) == a + Fill(v, n - 1) + [v];
      KraftOne(a + Fill(v, n - 1), v, maxbitlen);
    }
  }

  lemma KraftOne(a: seq<nat>, v: nat, maxbitlen: nat)
    requires Bounded(a, maxbitlen) && 0 < v <= maxbitlen
    ensures Bounded(a + [v], maxbitlen)
    ensures KraftSum(a + [v], maxbitlen) == KraftSum(a, maxbitlen) + Pow2(maxbitlen - v)
  {
    assert (a + [v])[..|a|] == a;
  }

  lemma FixedComplete()
    ensures |FIXED_LL| == 288 && |FIXED_D| == 32
    ensures Complete(FIXED_LL, 15) && Complete(FIXED_D, 15)
  {
    assert Pow2(6) == 64 && Pow2(7) == 128 && Pow2(8) == 256 by { Pow2Bytes(); }
    assert Pow2(10) == 1024 && Pow2(15) == 32768 by { Pow2Bytes(); Pow2Add(8, 2); Pow2Add(8, 7); }
    var a := Fill(8, 144);
    var b, c := a + Fill(9, 112), a + Fill(9, 112) + Fill(7, 24);
    assert [] + a == a && [] + Fill(5, 32) == FIXED_D;
    KraftFill([], 8, 144, 15);
    KraftFill(a, 9, 112, 15);
    KraftFill(b, 7, 24, 15);
    KraftFill(c, 8, 8, 15);
    KraftFill([], 5, 32, 15);
  }

  // ---------------------------------------------------------------- the whole stream

  /** One block after its three header bits. */
  function ReadBody(bits: BitString, bp: nat, btype: nat, out: seq<byte>): (r: Outcome<seq<byte>>)
    requires bp <= |bits| && btype <= 2
    ensures r.Done? ==> bp < r.bp <= |bits|
    ensures r.Fail? ==> r.code != 0
  {
    if btype == 0 then ReadStored(bits, bp, out)
    else if btype == 1 then
      FixedComplete();
      ReadBlock(bits, bp, CodeTree(FIXED_LL, 15), CodeTree(FIXED_D, 15), out)
    else
      match ReadHeader(bits, bp)
      case Fail(code) => Fail(code)
      case Undef => Undef
      case Done(codes, bp') =>
        if !Complete(codes.0, 15) || !Complete(codes.1, 15) then Undef
        else ReadBlock(bits, bp', CodeTree(codes.0, 15), CodeTree(codes.1, 15), out)
  }

  /** All blocks up to the final one. */
  function Inflate(bits: BitString, bp: nat, out: seq<byte>): Outcome<seq<byte>>
    requires bp <= |bits|
    decreases |bits| - bp
  {
    if bp + 2 >= |bits| then Fail(52)
    else
      var btype := (if bits[bp + 1] then 1 else 0) + (if bits[bp + 2] then 2 else 0);
      if btype == 3 then Fail(20)
      else
        match ReadBody(bits, bp + 3, btype, out)
        case Fail(code) => Fail(code)
        case Undef => Undef
        case Done(out', bp') => if bits[bp] then Done(out', bp') else Inflate(bits, bp', out')
  }

  // ---------------------------------------------------------------- which error

  /** The stream ends in a block's first three bits, or the block's type does not exist. */
  lemma StreamErrors(bits: BitString, bp: nat, out: seq<byte>)
    requires bp <= |bits|
    ensures bp + 2 >= |bits| ==> Inflate(bits, bp, out) == Fail(52)
    ensures bp + 2 < |bits| && bits[bp + 1] && bits[bp + 2] ==> Inflate(bits, bp, out) == Fail(20)
  {
  }

  /** No room for LEN and NLEN, one that is not the other's complement, or too few bytes. */
  lemma StoredErrors(bits: BitString, bp: nat, out: seq<byte>, p: nat)
    requires bp <= |bits| && p == (bp + 7) / 8 && 4 <= |bits| / 8
    ensures p + 4 >= |bits| / 8 ==> ReadStored(bits, bp, out) == Fail(52)
    ensures p + 4 < |bits| / 8 ==>
              var len: nat := ByteAt(bits, p) as int + 256 * ByteAt(bits, p + 1);
              var nlen: nat := ByteAt(bits, p + 2) as int + 256 * ByteAt(bits, p + 3);
              && (len + nlen != 65535 ==> ReadStored(bits, bp, out) == Fail(21))
              && (len + nlen == 65535 && p + 4 + len > |bits| / 8 ==> ReadStored(bits, bp, out) == Fail(23))
              && (len + nlen == 65535 && p + 4 + len <= |bits| / 8 ==>
                    ReadStored(bits, bp, out) == Done(out + BytesAt(bits, p + 4, len), 8 * (p + 4 + len)))
  {
  }

  /** In the data of a block: no symbol, an unused symbol, no distance, or a distance from before the start. */
  lemma BlockErrors(bits: BitString, bp: nat, tll: Trie, td: Trie, out: seq<byte>, s: nat, p: nat)
    requires tll.Node? && td.Node? && bp <= |bits|
    ensures Walk(tll, bits, bp).Exhausted? ==> ReadBlock(bits, bp, tll, td, out) == Fail(11)
    ensures Walk(tll, bits, bp) == Symbol(s, p) && s > 285 ==> ReadBlock(bits, bp, tll, td, out) == Fail(11)
    ensures Walk(tll, bits, bp) == Symbol(s, p) && 257 <= s <= 285 ==>
              && p <= |bits| && var copy := ReadCopy(bits, p, td, s - 257);
              && (copy.Fail? ==> ReadBlock(bits, bp, tll, td, out) == Fail(copy.code))
              && (copy.Done? && copy.value.distance > |out| ==> ReadBlock(bits, bp, tll, td, out) == Fail(52))
  {
    hide Walk, ReadCopy, CopyBack;
  }

  lemma CopyErrors(bits: BitString, p: nat, td: Trie, l: nat, s: nat, p': nat)
    requires td.Node? && p <= |bits| && l <= 28
    ensures p == |bits| ==> ReadCopy(bits, p, td, l) == Fail(51)
    ensures p < |bits| && p + LENGTHEXTRA[l] <= |bits| ==>
              var r := Walk(td, bits, p + LENGTHEXTRA[l]);
              && (r.Exhausted? ==> ReadCopy(bits, p, td, l) == Fail(18))
              && (r == Symbol(s, p') && s > 29 ==> ReadCopy(bits, p, td, l) == Fail(18))
              && (r == Symbol(s, p') && s <= 29 && p' == |bits| ==> ReadCopy(bits, p, td, l) == Fail(51))
  {
    hide Walk, Field;
  }

  /** In the code lengths: no symbol, an unused one, no room, nothing to repeat, or too many lengths. */
  lemma RunErrors(bits: BitString, bp: nat, t: Trie, total: nat, have: seq<nat>, code: nat, p: nat)
    requires t.Node? && bp <= |bits| && |have| < total
    ensures Walk(t, bits, bp).Exhausted? ==> ReadRuns(bits, bp, t, total, have) == Fail(11)
    ensures Walk(t, bits, bp) == Symbol(code, p) ==>
              && p <= |bits|
              && (code > 18 ==> ReadRuns(bits, bp, t, total, have) == Fail(16))
              && (16 <= code <= 18 && p == |bits| ==> ReadRuns(bits, bp, t, total, have) == Fail(50))
              && (code == 16 && p < |bits| && have == [] ==> ReadRuns(bits, bp, t, total, have) == Fail(54))
              && (code == 16 && p + 2 <= |bits| && have != [] && |have| + 3 + Field(bits, p, 2) > total ==>
                    ReadRuns(bits, bp, t, total, have) == Fail(13))
              && (code == 17 && p + 3 <= |bits| && |have| + 3 + Field(bits, p, 3) > total ==>
                    ReadRuns(bits, bp, t, total, have) == Fail(14))
              && (code == 18 && p + 7 <= |bits| && |have| + 11 + Field(bits, p, 7) > total ==>
                    ReadRuns(bits, bp, t, total, have) == Fail(15))
  {
    hide Walk, Field, Fill;
  }

  /** The stream ends in the header, or there is no word for the end code. */
  lemma HeaderErrors(bits: BitString, bp: nat, hlit: nat, hdist: nat, cl: seq<nat>, p: nat, lens: seq<nat>, p': nat)
    requires bp <= |bits| && p <= |bits|
    ensures 2 <= |bits| / 8 <= bp / 8 + 2 ==> ReadHeader(bits, bp) == Fail(49)
    ensures ReadClCode(bits, bp) == Done((hlit, hdist, cl), p)
            && ReadRuns(bits, p, CodeTree(cl, 7), hlit + hdist, []) == Done(lens, p') && lens[256] == 0 ==>
              ReadHeader(bits, bp) == Fail(64)
  {
    hide ReadRuns, CodeTree, Field, ClLengths;
  }
}

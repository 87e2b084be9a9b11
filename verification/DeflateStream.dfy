/** Streams of blocks, and the round trip: inflating what the deflater wrote gives back the input. */
module DeflateStream {
  import opened Powers
  import opened Bits
  import opened Lz77
  import opened InflateSpec
  import opened BlockBits
  import opened Deflater
  import Inflater

  // ---------------------------------------------------------------- stored blocks

  /** A stored block: the header byte, the length, its complement, and the bytes. */
  function StoredBytes(final: bool, chunk: seq<byte>): seq<byte>
    requires |chunk| <= 65535
  {
    StoredHead(final, |chunk|) + chunk
  }

  function StoredHead(final: bool, len: nat): seq<byte>
    requires len <= 65535
  {
    [if final then 1 else 0, len % 256, len / 256, (65535 - len) % 256, (65535 - len) / 256]
  }

  /** Section 3.2.4 of RFC 1951: BFINAL in a byte of its own, LEN and its complement, low byte first, then the bytes. */
  lemma StoredLayout(final: bool, chunk: seq<byte>)
    requires |chunk| <= 65535
    ensures var s := StoredBytes(final, chunk);
            && |s| == 5 + |chunk| && s[5..] == chunk && s[0] == (if final then 1 else 0)
            && s[1] == |chunk| % 256 && s[2] == |chunk| / 256 && s[3] == 255 - s[1] && s[4] == 255 - s[2]
  {
  }

  /** A stream that begins with the bits of s has the bytes of s. */
  lemma ByteInStream(bits: BitString, s: seq<byte>, p: nat)
    requires At(bits, 0, BytesBits(s)) && p < |s|
    ensures 8 * p + 8 <= |bits| && ByteAt(bits, p) == s[p]
  {
    hide BytesBits, ByteAt;
    ByteOfBits(s, p);
    SameByte(bits, BytesBits(s), p);
  }

  lemma SameByte(bits: BitString, prefix: BitString, p: nat)
    requires At(bits, 0, prefix) && 8 * p + 8 <= |prefix|
    ensures 8 * p + 8 <= |bits| && ByteAt(bits, p) == ByteAt(prefix, p)
  {
    assert bits[..|prefix|] == prefix;
    assert bits[8 * p..8 * p + 8] == prefix[8 * p..8 * p + 8];
  }

  lemma HeaderByte(bits: BitString, s: seq<byte>, p: nat, final: bool)
    requires At(bits, 0, BytesBits(s)) && p < |s| && s[p] == if final then 1 else 0
    ensures 8 * p + 8 <= |bits|
    ensures bits[8 * p] == final && !bits[8 * p + 1] && !bits[8 * p + 2]
  {
    Pow2Bytes();
    BitInByte(s, p, 0);
    BitInByte(s, p, 1);
    BitInByte(s, p, 2);
    hide BytesBits;
    var prefix := BytesBits(s);
    assert bits[..|prefix|] == prefix;
  }

  lemma StoredReads(bits: BitString, s: seq<byte>, final: bool, chunk: seq<byte>, out: seq<byte>)
    requires 1 <= |chunk| <= 65535 && At(bits, 0, BytesBits(s + StoredBytes(final, chunk)))
    ensures 8 * |s + StoredBytes(final, chunk)| <= |bits|
    ensures ReadStored(bits, 8 * |s| + 3, out) == Done(out + chunk, 8 * |s + StoredBytes(final, chunk)|)
  {
    hide BytesBits, ByteAt;
    var t, n := s + StoredBytes(final, chunk), |s|;
    ByteInStream(bits, t, |t| - 1);
    ByteInStream(bits, t, n + 1);
    ByteInStream(bits, t, n + 2);
    ByteInStream(bits, t, n + 3);
    ByteInStream(bits, t, n + 4);
    assert (8 * n + 3 + 7) / 8 == n + 1;
    assert BytesAt(bits, n + 5, |chunk|) == chunk by {
      forall i | 0 <= i < |chunk|
        ensures BytesAt(bits, n + 5, |chunk|)[i] == chunk[i]
      {
        ByteInStream(bits, t, n + 5 + i);
      }
    }
  }

  lemma StoredBlockMore(s: seq<byte>, out: seq<byte>, final: bool, chunk: seq<byte>)
    requires LeadsTo(BytesBits(s), out) && 1 <= |chunk| <= 65535
    ensures !final ==> LeadsTo(BytesBits(s + StoredBytes(final, chunk)), out + chunk)
    ensures final ==> Inflates(BytesBits(s + StoredBytes(final, chunk)), out + chunk)
  {
    hide BytesBits, ReadStored, StoredBytes, Inflate;
    var t := s + StoredBytes(final, chunk);
    BytesBitsAppend(s, StoredBytes(final, chunk));
    forall bits: BitString | At(bits, 0, BytesBits(t))
      ensures Inflate(bits, 0, []) ==
              if final then Done(out + chunk, 8 * |t|) else Inflate(bits, 8 * |t|, out + chunk)
    {
      AtSplit(bits, 0, BytesBits(s), BytesBits(StoredBytes(final, chunk)));
      assert Inflate(bits, 0, []) == Inflate(bits, 8 * |s|, out);
      NextStored(bits, s, final, chunk, out);
    }
  }

  lemma NextStored(bits: BitString, s: seq<byte>, final: bool, chunk: seq<byte>, out: seq<byte>)
    requires 1 <= |chunk| <= 65535 && At(bits, 0, BytesBits(s + StoredBytes(final, chunk)))
    ensures var n := 8 * |s + StoredBytes(final, chunk)|;
            && n <= |bits|
            && Inflate(bits, 8 * |s|, out) == if final then Done(out + chunk, n) else Inflate(bits, n, out + chunk)
  {
    hide BytesBits, ReadStored, At, Inflate, ReadBody;
    var t := s + StoredBytes(final, chunk);
    HeaderByte(bits, t, |s|, final);
    StoredReads(bits, s, final, chunk, out);
    Inflater.StoredBody(bits, 8 * |s| + 3, out);
    InflateStep(bits, 8 * |s|, final, 0, out, out + chunk, 8 * |t|);
  }

  method DeflateNoCompression(out: UcVector, data: seq<byte>, ghost base: nat) returns (error: nat)
    requires |data| < 0x1_0000_0000 && |out.data| == base
    modifies out
    ensures error == 0 && |out.data| >= base && out.data[..base] == old(out.data)
    ensures data == [] ==> out.data == old(out.data)
    ensures data != [] ==> Inflates(BytesBits(out.data[base..]), data)
    ensures |out.data| == base + |data| + 5 * ((|data| + 65534) / 65535)
  {
    hide LeadsTo, Inflates, BytesBits, StoredBytes;
    var datasize := |data|;
    var numdeflateblocks := (datasize + 65534) / 65535;
    var datapos: nat := 0;
    ghost var written: seq<byte> := [];
    NothingRead();
    for i := 0 to numdeflateblocks
      invariant datapos == if i * 65535 < datasize then i * 65535 else datasize
      invariant out.data == old(out.data) + written
      invariant i < numdeflateblocks || data == [] ==> LeadsTo(BytesBits(written), data[..datapos])
      invariant i == numdeflateblocks && data != [] ==> Inflates(BytesBits(written), data)
      invariant data == [] ==> written == []
      invariant |written| == 5 * i + datapos
    {
      var final := i == numdeflateblocks - 1;
      var len := if datasize - datapos < 65535 then datasize - datapos else 65535;
      ghost var start, chunk := datapos, data[datapos..datapos + len];
      datapos := WriteStored(out, data, datapos, len, final);
      StoredLayout(final, chunk);
      StoredBlockMore(written, data[..start], final, chunk);
      assert data[..start] + chunk == data[..datapos];
      assert final ==> datapos == datasize;
      assert data[..datasize] == data;
      written := written + StoredBytes(final, chunk);
    }
    error := 0;
    assert data[..datasize] == data;
    assert out.data[base..] == written;
  }

  /** The block of len bytes from datapos on. */
  method WriteStored(out: UcVector, data: seq<byte>, datapos: nat, len: nat, final: bool) returns (datapos': nat)
    requires len == if |data| - datapos < 65535 then |data| - datapos else 65535
    requires datapos <= |data|
    modifies out
    ensures datapos' == datapos + len <= |data|
    ensures out.data == old(out.data) + StoredBytes(final, data[datapos..datapos'])
  {
    hide StoredHead;
    PushStoredHead(out, final, len);
    datapos' := datapos;
    var j: nat := 0;
    while j < 65535 && datapos' < |data|
      invariant datapos' == datapos + j && j <= len
      invariant out.data == old(out.data) + StoredHead(final, len) + data[datapos..datapos']
    {
      out.PushBack(data[datapos']);
      assert data[datapos..datapos' + 1] == data[datapos..datapos'] + [data[datapos']];
      datapos' := datapos' + 1;
      j := j + 1;
    }
  }

  lemma NothingRead()
    ensures LeadsTo(BytesBits([]), [])
  {
    NoBlocks();
    assert BytesBits([]) == [];
  }

  method PushStoredHead(out: UcVector, final: bool, len: nat)
    requires len <= 65535
    modifies out
    ensures out.data == old(out.data) + StoredHead(final, len)
  {
    var nlen := 65535 - len;
    out.PushBack(if final then 1 else 0);
    out.PushBack(len % 256);
    out.PushBack(len / 256);
    out.PushBack(nlen % 256);
    out.PushBack(nlen / 256);
  }

  // ---------------------------------------------------------------- all blocks

  /** The block size of dynamic blocks. */
  function BlockSize(insize: nat): nat
  {
    if insize / 8 + 8 < 65535 then 65535 else insize / 8 + 8
  }

  /**
   * More than one dynamic block without LZ77: the source then writes behind the end of its list of values, which it
   * indexes by the position in the input.
   */
  predicate WritesOutside(settings: Settings, insize: nat)
  {
    settings.btype == 2 && !settings.use_lz77 && insize > 65535
  }

  /** A block of fixed codes is as large as the input, and the source divides by that size. */
  predicate DividesByZero(settings: Settings, insize: nat)
  {
    settings.btype == 1 && insize == 0
  }

  /** Where block i starts. */
  function BlockStart(i: nat, blocksize: nat, insize: nat): (r: nat)
    ensures r <= insize
  {
    if i * blocksize < insize then i * blocksize else insize
  }

  lemma BlockCount(insize: nat, blocksize: nat)
    requires blocksize > 0
    ensures var n := (insize + blocksize - 1) / blocksize;
            && n * blocksize >= insize
            && (n > 0 ==> (n - 1) * blocksize < insize)
            && (n == 0 <==> insize == 0)
            && (n <= 1 <==> insize <= blocksize)
  {
    var n := (insize + blocksize - 1) / blocksize;
    var r := (insize + blocksize - 1) % blocksize;
    assert insize + blocksize - 1 == blocksize * n + r;
    assert n > 0 ==> (n - 1) * blocksize == n * blocksize - blocksize;
    if n >= 2 {
      MulMonotone(blocksize, 1, n - 1);
    }
  }

  lemma BlockBefore(i: nat, n: nat, blocksize: nat, insize: nat)
    requires i < n && (n - 1) * blocksize < insize
    ensures i * blocksize < insize && (i + 1) * blocksize == i * blocksize + blocksize
  {
    MulMonotone(blocksize, i, n - 1);
  }

  /** Inflating these bytes succeeds and gives exactly data. */
  ghost predicate InflatesTo(bytes: seq<byte>, data: seq<byte>)
  {
    var r := Inflate(BytesBits(bytes), 0, []);
    r.Done? && r.value == data
  }

  lemma StreamInflates(buffer: seq<byte>, base: nat, bp: nat, data: seq<byte>)
    requires Padded(buffer, base, bp) && Inflates(Stream(buffer, base, bp), data)
    ensures InflatesTo(buffer[base..], data)
  {
    hide BytesBits, Inflate;
    assert At(BytesBits(buffer[base..]), 0, Stream(buffer, base, bp));
  }

  lemma BytesInflate(bytes: seq<byte>, data: seq<byte>)
    requires Inflates(BytesBits(bytes), data)
    ensures InflatesTo(bytes, data)
  {
    hide BytesBits, Inflate;
    var bits := BytesBits(bytes);
    assert bits[0..|bits|] == bits;
    assert At(bits, 0, bits);
  }

  lemma StreamStart(buffer: seq<byte>)
    ensures Padded(buffer, |buffer|, 0) && Stream(buffer, |buffer|, 0) == []
  {
  }

  /** Blocks of one type, each behind its header; the last one says so if the stream ends with it. */
  function BlocksBits(bodies: seq<BitString>, btype: nat, end: bool): BitString
    requires btype <= 2
  {
    if bodies == [] then []
    else
      var n := |bodies| - 1;
      BlocksBits(bodies[..n], btype, false) + BlockHead(end, btype) + bodies[n]
  }

  /** The three header bits of a block: the last one or not, and its type, low bit first. */
  lemma HeadBits(final: bool)
    ensures BlockHead(final, 0) == [final, false, false]
    ensures BlockHead(final, 1) == [final, true, false]
    ensures BlockHead(final, 2) == [final, false, true]
  {
  }

  lemma BlocksNext(bodies: seq<BitString>, btype: nat, end: bool, body: BitString)
    requires btype <= 2
    ensures BlocksBits(bodies + [body], btype, end)
            == BlocksBits(bodies, btype, false) + BlockHead(end, btype) + body
  {
    assert (bodies + [body])[..|bodies|] == bodies;
  }

  /** One block of the stream. */
  method DeflateBlock(out: UcVector, bp: nat, hash: Hash, data: seq<byte>, start: nat, end: nat, settings: Settings,
                      final: bool, ghost base: nat)
    returns (error: int, ok: bool, bp': nat, ghost body: BitString)
    requires 1 <= settings.btype <= 2
    requires Padded(out.data, base, bp) && start <= end <= |data| < 0x1_0000_0000
    requires settings.use_lz77 ==> hash.Valid(data, start, hash.windowsize >= 8192)
    requires LeadsTo(Stream(out.data, base, bp), data[..start])
    modifies out, hash.head, hash.val, hash.chain, hash.zeros
    ensures ok == (settings.btype == 1 || settings.use_lz77 || start == 0 || start == end)
    ensures settings.use_lz77 ==> hash.Valid(data, end, hash.windowsize >= 8192)
    ensures ok ==> error == 0 && Padded(out.data, base, bp') && out.data[..base] == old(out.data[..base])
    ensures ok ==>
              && Stream(out.data, base, bp')
                 == old(Stream(out.data, base, bp)) + BlockHead(final, settings.btype) + body
              && IsBody(body, settings.btype, data[..start], data[..end])
    ensures ok && !final ==> LeadsTo(Stream(out.data, base, bp'), data[..end])
    ensures ok && final ==> Inflates(Stream(out.data, base, bp'), data[..end])
  {
    hide Padded, Stream, LeadsTo, Inflates, Hash.Valid, IsBody, BlockHead;
    ghost var before := Stream(out.data, base, bp);
    if settings.btype == 1 {
      ok := true;
      error, bp', body := DeflateFixed(out, bp, hash, data, start, end, settings, final, base);
    } else {
      error, ok, bp', body := DeflateDynamic(out, bp, hash, data, start, end, settings, final, base);
    }
    if ok {
      OneBlockMore(before, data[..start], final, settings.btype, body, data[..end]);
    }
  }

  /**
   * Deflates data behind what out holds already. Where the source stays inside its buffers, the bytes it appends
   * inflate to data, for every setting; only a stored stream of no data is empty instead. bodies are the blocks that
   * it consists of, all of the type that the settings name; stored blocks take 5 bytes more than their data.
   */
  method Deflatev(out: UcVector, data: seq<byte>, settings: Settings)
    returns (error: int, ok: bool, ghost bodies: seq<BitString>)
    requires |data| < 0x1_0000_0000
    requires 1 <= settings.btype <= 2 ==> 1 <= settings.windowsize <= 32768
    modifies out
    ensures settings.btype > 2 ==> error == 61 && out.data == old(out.data)
    ensures ok <==> !WritesOutside(settings, |data|) && !DividesByZero(settings, |data|)
    ensures ok && settings.btype <= 2 ==> error == 0 && old(out.data) <= out.data
    ensures ok && settings.btype <= 2 && (settings.btype > 0 || data != []) ==>
              InflatesTo(out.data[old(|out.data|)..], data)
    ensures settings.btype == 0 && data == [] ==> out.data == old(out.data)
    ensures settings.btype == 0 ==> |out.data| == |old(out.data)| + |data| + 5 * ((|data| + 65534) / 65535)
    ensures ok && 1 <= settings.btype <= 2 ==>
              && |bodies| == NumBlocks(settings.btype, |data|)
              && StartsWith(out.data[|old(out.data)|..], BlocksBits(bodies, settings.btype, true))
  {
    hide Padded, Stream, LeadsTo, Inflates, InflatesTo, Hash.Valid, BytesBits;
    ok, bodies := true, [];
    ghost var base := |out.data|;
    var insize := |data|;
    if settings.btype > 2 {
      return 61, ok, [];
    }
    if settings.btype == 0 {
      error := DeflateNoCompression(out, data, base);
      if data != [] {
        BytesInflate(out.data[base..], data);
      }
      return;
    }
    error, ok, bodies := DeflateBlocks(out, data, settings, base);
  }

  /**
   * A fixed stream is one block; a dynamic one has blocks of 65535 bytes, or of an eighth of the input and 8 if that is
   * more.
   */
  function NumBlocks(btype: nat, insize: nat): nat
  {
    var blocksize := if btype == 1 then insize else BlockSize(insize);
    if blocksize == 0 || insize == 0 then 1 else (insize + blocksize - 1) / blocksize
  }

  /** The bytes hold these bits, and zeros up to the next byte. */
  ghost predicate StartsWith(bytes: seq<byte>, bits: BitString)
  {
    && |bytes| == (|bits| + 7) / 8 && BytesBits(bytes)[..|bits|] == bits
    && forall k: nat :: |bits| <= k < 8 * |bytes| ==> !BytesBits(bytes)[k]
  }

  lemma StreamStarts(buffer: seq<byte>, base: nat, bp: nat)
    requires Padded(buffer, base, bp)
    ensures StartsWith(buffer[base..], Stream(buffer, base, bp))
  {
    hide BytesBits;
  }

  /** The blocks of fixed or dynamic codes; their hash lives through all of them. */
  method DeflateBlocks(out: UcVector, data: seq<byte>, settings: Settings, ghost base: nat)
    returns (error: int, ok: bool, ghost bodies: seq<BitString>)
    requires |data| < 0x1_0000_0000 && 1 <= settings.btype <= 2 && |out.data| == base
    requires 1 <= settings.windowsize <= 32768
    modifies out
    ensures ok <==> !WritesOutside(settings, |data|) && !DividesByZero(settings, |data|)
    ensures ok ==> error == 0 && old(out.data) <= out.data && InflatesTo(out.data[base..], data)
    ensures ok ==> |bodies| == NumBlocks(settings.btype, |data|)
    ensures ok ==> StartsWith(out.data[base..], BlocksBits(bodies, settings.btype, true))
  {
    hide Padded, Stream, LeadsTo, Inflates, InflatesTo, Hash.Valid, BytesBits, StartsWith, BlocksBits,
         BlockHead, IsBody, Written;
    ok, bodies := true, [];
    var insize := |data|;
    var blocksize := if settings.btype == 1 then insize else BlockSize(insize);
    if blocksize == 0 {
      return 0, false, [];
    }
    var numdeflateblocks := (insize + blocksize - 1) / blocksize;
    BlockCount(insize, blocksize);
    if numdeflateblocks == 0 {
      numdeflateblocks := 1;
    }
    var hash := new Hash(settings.windowsize, data, settings.windowsize >= 8192);
    error := 0;
    var bp: nat := 0;
    NothingWritten(out.data, settings.btype);
    var i: nat := 0;
    while i < numdeflateblocks && error == 0
      invariant i <= numdeflateblocks && error == 0 && ok
      invariant |out.data| >= base && out.data[..base] == old(out.data) && |bodies| == i
      invariant settings.use_lz77 ==> hash.Valid(data, BlockStart(i, blocksize, insize), hash.windowsize >= 8192)
      invariant i < numdeflateblocks ==>
                  Written(out.data, base, bp, bodies, settings.btype, data[..BlockStart(i, blocksize, insize)], false)
      invariant i == numdeflateblocks ==> Written(out.data, base, bp, bodies, settings.btype, data, true)
      invariant i > 1 ==> settings.btype == 1 || settings.use_lz77
      decreases numdeflateblocks - i
    {
      var final := i == numdeflateblocks - 1;
      var start, end := BlockBounds(i, numdeflateblocks, blocksize, insize);
      ghost var body, buffer, p := [], out.data, bp;
      WrittenIs(buffer, base, p, bodies, settings.btype, data[..start]);
      error, ok, bp, body := DeflateBlock(out, bp, hash, data, start, end, settings, final, base);
      if !ok {
        return;
      }
      OneMoreWritten(buffer, base, p, bodies, settings.btype, data[..start], out.data, bp, body, data[..end], final);
      bodies := bodies + [body];
      assert data[..insize] == data;
      i := i + 1;
    }
    AllWritten(out.data, base, bp, bodies, settings.btype, data);
  }

  /** The blocks written so far stand for text; last says whether the stream ends with them. */
  ghost predicate Written(buffer: seq<byte>, base: nat, bp: nat, bodies: seq<BitString>, btype: nat, text: seq<byte>,
                          last: bool)
  {
    && btype <= 2 && Padded(buffer, base, bp) && Stream(buffer, base, bp) == BlocksBits(bodies, btype, last)
    && if last then Inflates(Stream(buffer, base, bp), text) else LeadsTo(Stream(buffer, base, bp), text)
  }

  lemma NothingWritten(buffer: seq<byte>, btype: nat)
    requires btype <= 2
    ensures Written(buffer, |buffer|, 0, [], btype, [], false)
  {
    StreamStart(buffer);
    NoBlocks();
    hide Inflate;
  }

  lemma WrittenIs(buffer: seq<byte>, base: nat, bp: nat, bodies: seq<BitString>, btype: nat, text: seq<byte>)
    requires Written(buffer, base, bp, bodies, btype, text, false)
    ensures Padded(buffer, base, bp) && LeadsTo(Stream(buffer, base, bp), text)
  {
  }

  lemma OneMoreWritten(buffer: seq<byte>, base: nat, bp: nat, bodies: seq<BitString>, btype: nat, text: seq<byte>,
                       buffer': seq<byte>, bp': nat, body: BitString, text': seq<byte>, last: bool)
    requires Written(buffer, base, bp, bodies, btype, text, false) && Padded(buffer', base, bp')
    requires Stream(buffer', base, bp') == Stream(buffer, base, bp) + BlockHead(last, btype) + body
    requires if last then Inflates(Stream(buffer', base, bp'), text') else LeadsTo(Stream(buffer', base, bp'), text')
    ensures Written(buffer', base, bp', bodies + [body], btype, text', last)
  {
    hide Padded, Stream, Inflates, LeadsTo, BlocksBits, BlockHead;
    BlocksNext(bodies, btype, last, body);
  }

  lemma AllWritten(buffer: seq<byte>, base: nat, bp: nat, bodies: seq<BitString>, btype: nat, data: seq<byte>)
    requires Written(buffer, base, bp, bodies, btype, data, true)
    ensures base <= |buffer| && InflatesTo(buffer[base..], data)
    ensures StartsWith(buffer[base..], BlocksBits(bodies, btype, true))
  {
    hide Padded, Stream, Inflates, LeadsTo, BlocksBits, InflatesTo, StartsWith;
    StreamInflates(buffer, base, bp, data);
    StreamStarts(buffer, base, bp);
  }

  method BlockBounds(i: nat, n: nat, blocksize: nat, insize: nat) returns (start: nat, end: nat)
    requires i < n && 0 < blocksize && n * blocksize >= insize && (insize == 0 ==> n == 1)
    requires insize > 0 ==> (n - 1) * blocksize < insize
    ensures start == BlockStart(i, blocksize, insize) && start <= end <= insize
    ensures end == (if i == n - 1 then insize else BlockStart(i + 1, blocksize, insize))
    ensures (start == 0 <==> i == 0 || insize == 0) && (start == end <==> insize == 0)
  {
    start, end := i * blocksize, i * blocksize + blocksize;
    if insize > 0 {
      BlockBefore(i, n, blocksize, insize);
    }
    if i > 0 {
      MulMonotone(blocksize, 1, i);
    }
    if i < n - 1 {
      MulMonotone(blocksize, i + 1, n - 1);
    }
    if end > insize {
      end := insize;
    }
  }

  // ---------------------------------------------------------------- the round trip

  /** Deflates into a new buffer and inflates into another one that holds whatever it holds. */
  method RoundTrip(data: seq<byte>, settings: Settings, used: seq<byte>)
    returns (error: int, ok: bool, result: seq<byte>)
    requires |data| < 0x1_0000_0000 && settings.btype <= 2
    requires settings.btype > 0 ==> 1 <= settings.windowsize <= 32768
    ensures ok <==> !WritesOutside(settings, |data|) && !DividesByZero(settings, |data|)
    ensures ok && (settings.btype > 0 || data != []) ==> error == 0 && result == data
    ensures settings.btype == 0 && data == [] ==> error == 52
  {
    hide BytesBits;
    var packed := new UcVector([]);
    var unpacked := new UcVector(used);
    ghost var bodies;
    error, ok, bodies := Deflatev(packed, data, settings);
    if !ok {
      return error, ok, [];
    }
    assert packed.data[0..] == packed.data;
    error := Inflater.Inflatev(unpacked, packed.data);
    result := unpacked.data;
  }
}

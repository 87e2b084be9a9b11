/**
 * The LZ77 encoder: a circular hash chain proposes earlier positions, lazy matching defers a match by one byte.
 * The chain is only a cache of proposals; every match is compared byte by byte, or is known to be zeros.
 */
module Lz77 {
  import Powers
  import opened Bits
  import opened Tokens

  const HASH_NUM_VALUES: nat := 65536

  // ---------------------------------------------------------------- the circular buffers

  /** The last position below done that shares slot w of a window. */
  function Latest(done: nat, windowsize: nat, w: nat): (r: nat)
    requires w < windowsize && w < done
    ensures r < done
  {
    done - 1 - (done - 1 - w) % windowsize
  }

  lemma LatestIs(done: nat, windowsize: nat, w: nat, p: nat)
    requires w < windowsize && p < done <= p + windowsize && p % windowsize == w
    ensures w < done && Latest(done, windowsize, w) == p
  {
    var q := p / windowsize;
    assert p == windowsize * q + w;
    var d := done - 1 - p;
    assert done - 1 - w == windowsize * q + d;
    Powers.DivUnique(done - 1 - w, windowsize, q, d);
  }

  lemma LatestNext(done: nat, windowsize: nat, w: nat)
    requires w < windowsize && w < done && w != done % windowsize
    ensures Latest(done + 1, windowsize, w) == Latest(done, windowsize, w)
  {
    var x := done - 1 - w;
    var q, r := x / windowsize, x % windowsize;
    assert x == windowsize * q + r;
    if r == windowsize - 1 {
      assert done == windowsize * (q + 1) + w;
      Powers.DivUnique(done, windowsize, q + 1, w);
    } else {
      assert done - w == windowsize * q + (r + 1);
      Powers.DivUnique(done - w, windowsize, q, r + 1);
    }
  }

  lemma SlotVisited(done: nat, windowsize: nat)
    requires windowsize > 0
    ensures done % windowsize <= done
  {
  }

  /** n zero bytes start at position p. */
  ghost predicate ZerosAt(data: seq<byte>, p: nat, n: nat)
  {
    p + n <= |data| && forall i :: p <= i < p + n ==> data[i] == 0
  }

  class Hash {
    const windowsize: nat
    const head: array<int>
    const val: array<int>
    const chain: array<nat>
    const zeros: array<nat>

    ghost predicate Shape()
      reads this
    {
      && 1 <= windowsize <= 32768
      && head.Length == HASH_NUM_VALUES
      && val.Length == chain.Length == zeros.Length == windowsize
      && head != val && chain != zeros
    }

    /**
     * Positions below done are entered. Slots refer to entered slots only, a slot without history refers to
     * itself, and a slot of hash value 0 knows a run of zeros at the last position entered there.
     */
    ghost predicate Valid(data: seq<byte>, done: nat, usezeros: bool)
      reads this, head, val, chain, zeros
    {
      && Shape()
      && (forall h :: 0 <= h < HASH_NUM_VALUES ==> head[h] == -1 || (0 <= head[h] < windowsize && head[h] < done))
      && (forall w :: 0 <= w < windowsize ==> SlotOk(w, done))
      && (usezeros ==> forall w :: 0 <= w < windowsize ==> ZeroOk(data, w, done))
    }

    ghost predicate SlotOk(w: nat, done: nat)
      requires Shape() && w < windowsize
      reads this, chain, val
    {
      && chain[w] < windowsize
      && (chain[w] == w || (chain[w] < done && w < done))
      && -1 <= val[w] < HASH_NUM_VALUES
      && (w >= done ==> val[w] == -1)
    }

    ghost predicate ZeroOk(data: seq<byte>, w: nat, done: nat)
      requires Shape() && w < windowsize
      reads this, val, zeros
    {
      val[w] == 0 ==> w < done && zeros[w] <= 258 && ZerosAt(data, Latest(done, windowsize, w), zeros[w])
    }

    constructor (windowsize: nat, data: seq<byte>, usezeros: bool)
      requires 1 <= windowsize <= 32768
      ensures this.windowsize == windowsize && Valid(data, 0, usezeros)
      ensures fresh(head) && fresh(val) && fresh(chain) && fresh(zeros)
    {
      this.windowsize := windowsize;
      head := new int[HASH_NUM_VALUES](_ => -1);
      val := new int[windowsize](_ => -1);
      chain := new nat[windowsize](i => i);
      zeros := new nat[windowsize];
    }

    /** Makes pos the newest position of its hash value. */
    method UpdateHashChain(pos: nat, hashval: nat, ghost done: nat)
      requires Shape() && hashval < HASH_NUM_VALUES && pos < done
      requires head[hashval] == -1 || (0 <= head[hashval] < windowsize && head[hashval] < done)
      modifies head, val, chain
      ensures var w := pos % windowsize;
              && val[..] == old(val[..])[w := hashval]
              && head[..] == old(head[..])[hashval := w]
              && chain[..] == (if old(head[hashval]) != -1 then old(chain[..])[w := old(head[hashval])]
                               else old(chain[..]))
    {
      var wpos := pos % windowsize;
      val[wpos] := hashval;
      if head[hashval] != -1 {
        chain[wpos] := head[hashval];
      }
      head[hashval] := wpos;
    }

    /**
     * Enters position pos, for the first time or once more, and returns its hash value. When hash value 0 is
     * met, the run of zeros there is counted and stored as well; otherwise numzeros is passed through.
     */
    method Enter(data: seq<byte>, insize: nat, pos: nat, usezeros: bool, numzeros: nat, ghost done: nat)
      returns (hashval: nat, numzeros': nat)
      requires pos < insize <= |data| && (pos == done || pos + 1 == done)
      requires Valid(data, done, usezeros)
      modifies head, val, chain, zeros
      ensures Valid(data, pos + 1, usezeros)
      ensures hashval < HASH_NUM_VALUES && Shape()
      ensures val[pos % windowsize] == hashval && 0 <= head[hashval] == pos % windowsize < windowsize
      ensures if usezeros && hashval == 0 then numzeros' <= 258 && pos + numzeros' <= insize
                                               && ZerosAt(data, pos, numzeros')
              else numzeros' == numzeros
    {
      ghost var w := pos % windowsize;
      SlotVisited(pos, windowsize);
      hashval := GetHash(data, insize, pos);
      numzeros' := numzeros;
      UpdateHashChain(pos, hashval, pos + 1);
      if usezeros && hashval == 0 {
        numzeros' := CountZeros(data, insize, pos);
        zeros[pos % windowsize] := numzeros';
      }
      forall s {:trigger SlotOk(s, pos + 1)} | 0 <= s < windowsize
        ensures SlotOk(s, pos + 1)
      {
        assert old(SlotOk(s, done));
      }
      if usezeros {
        forall s {:trigger ZeroOk(data, s, pos + 1)} | 0 <= s < windowsize
          ensures ZeroOk(data, s, pos + 1)
        {
          assert old(ZeroOk(data, s, done));
          if s == w {
            LatestIs(pos + 1, windowsize, w, pos);
          } else if pos == done && val[s] == 0 {
            LatestNext(done, windowsize, s);
          }
        }
      }
    }

    /** Forgets the newest position of a hash value. */
    method Forget(hashval: nat, ghost data: seq<byte>, ghost done: nat, ghost usezeros: bool)
      requires hashval < HASH_NUM_VALUES && Valid(data, done, usezeros)
      modifies head
      ensures Valid(data, done, usezeros)
    {
      head[hashval] := -1;
      assert forall w :: 0 <= w < windowsize ==> old(SlotOk(w, done)) ==> SlotOk(w, done);
      assert usezeros ==> forall w :: 0 <= w < windowsize ==> old(ZeroOk(data, w, done)) ==> ZeroOk(data, w, done);
    }
  }

  /** A hash of up to three bytes; only that it is below HASH_NUM_VALUES matters. */
  method GetHash(data: seq<byte>, size: nat, pos: nat) returns (r: nat)
    requires size <= |data|
    ensures r < HASH_NUM_VALUES
  {
    if pos >= size {
      return 0;
    }
    var amount := if pos + 3 >= size then size - pos else 3;
    var result: bv32 := 0;
    for i := 0 to amount {
      result := result ^ (data[pos + i] as bv32 << (i * 2));
    }
    r := result as int % HASH_NUM_VALUES;
  }

  method CountZeros(data: seq<byte>, size: nat, pos: nat) returns (n: nat)
    requires pos <= size <= |data|
    ensures n <= 258 && pos + n <= size && ZerosAt(data, pos, n)
    ensures n < 258 && pos + n < size ==> data[pos + n] != 0
  {
    var end := if pos + MAX_SUPPORTED_DEFLATE_LENGTH > size then size else pos + MAX_SUPPORTED_DEFLATE_LENGTH;
    n := 0;
    while pos + n != end && data[pos + n] == 0
      invariant pos + n <= end && ZerosAt(data, pos, n)
      decreases end - n
    {
      n := n + 1;
    }
  }

  // ---------------------------------------------------------------- the search

  /** A match at pos that may be written as a copy. Length 0 means none was found. */
  ghost predicate MatchAt(data: seq<byte>, insize: nat, windowsize: nat, pos: nat, length: nat, offset: nat)
  {
    || length == 0
    || (length <= 258 && pos + length <= insize <= |data| && offset < windowsize && Repeats(data, pos, length, offset))
  }

  /** Two runs of zeros repeat each other. */
  lemma ZerosRepeat(data: seq<byte>, pos: nat, n: nat, offset: nat)
    requires 1 <= offset <= pos && ZerosAt(data, pos, n) && ZerosAt(data, pos - offset, n)
    ensures Repeats(data, pos, n, offset)
  {
    forall i | pos <= i < pos + n
      ensures data[i] == data[i - offset]
    {
      assert data[i] == 0;
      assert data[i - offset] == 0;
    }
  }

  /** The distance back to the position that slot h stands for, seen from pos. */
  lemma SlotDistance(windowsize: nat, pos: nat, h: nat) returns (offset: nat)
    requires windowsize > 0 && h < windowsize && h <= pos
    ensures var w := pos % windowsize;
            offset == (if h <= w then w - h else w - h + windowsize)
    ensures offset < windowsize && offset <= pos
    ensures Latest(pos + 1, windowsize, h) == pos - offset
  {
    var w, q := pos % windowsize, pos / windowsize;
    offset := if h <= w then w - h else w - h + windowsize;
    SlotBack(windowsize, pos, h, q, w);
    LatestIs(pos + 1, windowsize, h, pos - offset);
  }

  lemma SlotBack(windowsize: nat, pos: nat, h: nat, q: nat, w: nat)
    requires windowsize > 0 && h < windowsize && h <= pos
    requires pos == windowsize * q + w && w < windowsize
    ensures var offset := if h <= w then w - h else w - h + windowsize;
            offset < windowsize && offset <= pos && (pos - offset) % windowsize == h
  {
    if h <= w {
      Powers.DivUnique(pos - (w - h), windowsize, q, h);
    } else {
      Powers.LessOne(windowsize, q) by {
        assert windowsize * 0 == 0;
      }
      Powers.DivUnique(pos - (w - h + windowsize), windowsize, q - 1, h);
    }
  }

  // ---------------------------------------------------------------- the longest match

  /** How far the text from pos on equals the text offset bytes earlier, up to last. */
  function MatchLength(data: seq<byte>, pos: nat, offset: nat, last: nat): nat
    requires last <= |data|
    decreases if pos < last then last - pos else 0
  {
    if pos >= last || offset > pos || data[pos] != data[pos - offset] then 0
    else 1 + MatchLength(data, pos + 1, offset, last)
  }

  lemma {:induction false} MatchLengthIs(data: seq<byte>, pos: nat, offset: nat, last: nat, n: nat)
    requires pos + n <= last <= |data| && Repeats(data, pos, n, offset)
    requires pos + n < last ==> data[pos + n] != data[pos - offset + n]
    ensures MatchLength(data, pos, offset, last) == n
    decreases n
  {
    if n > 0 {
      MatchLengthIs(data, pos + 1, offset, last, n - 1);
    }
  }

  /** The distance back from slot wpos to a slot, in the circular window. */
  function OffsetOf(slot: nat, wpos: nat, windowsize: nat): nat
    requires slot < windowsize && wpos < windowsize
  {
    if slot <= wpos then wpos - slot else wpos - slot + windowsize
  }

  ghost predicate IsChain(chain: seq<nat>, windowsize: nat)
  {
    |chain| == windowsize && forall w :: 0 <= w < windowsize ==> chain[w] < windowsize
  }

  /** The chain has come to the end of the circular window. */
  predicate WentRound(wpos: nat, prevpos: nat, hashpos: nat)
  {
    || (prevpos < wpos && hashpos > prevpos && hashpos <= wpos)
    || (prevpos > wpos && (hashpos <= wpos || hashpos > prevpos))
  }

  /** The slots that the search visits, as long as it is not content with what it found. */
  ghost function Visited(chain: seq<nat>, windowsize: nat, wpos: nat, prevpos: nat, hashpos: nat, count: nat)
    : (r: seq<nat>)
    requires IsChain(chain, windowsize) && hashpos < windowsize
    ensures forall k :: 0 <= k < |r| ==> r[k] < windowsize
    decreases count
  {
    if WentRound(wpos, prevpos, hashpos) || count == 0 then []
    else
      [hashpos]
      + (if hashpos == chain[hashpos] then [] else Visited(chain, windowsize, wpos, hashpos, chain[hashpos], count - 1))
  }

  predicate IsNice(length: nat, nicematch: nat)
  {
    length >= nicematch || length == MAX_SUPPORTED_DEFLATE_LENGTH
  }

  /**
   * The first of the longest matches at some slots, or the first one that is nice; length and offset are the best so
   * far.
   */
  ghost function Best(data: seq<byte>, pos: nat, last: nat, windowsize: nat, slots: seq<nat>, nicematch: nat,
                      length: nat, offset: nat): (nat, nat)
    requires last <= |data| && 0 < windowsize && forall k :: 0 <= k < |slots| ==> slots[k] < windowsize
    decreases |slots|
  {
    if slots == [] then (length, offset)
    else
      var o := OffsetOf(slots[0], pos % windowsize, windowsize);
      var n := MatchLength(data, pos, o, last);
      if o == 0 || n <= length then Best(data, pos, last, windowsize, slots[1..], nicematch, length, offset)
      else if IsNice(n, nicematch) then (n, o)
      else Best(data, pos, last, windowsize, slots[1..], nicematch, n, o)
  }

  /** No visited slot has a longer match, unless the search was content earlier; and some visited slot has this one. */
  lemma {:induction false} BestIsLongest(data: seq<byte>, pos: nat, last: nat, windowsize: nat, slots: seq<nat>,
                                         nicematch: nat, length: nat, offset: nat)
    requires last <= |data| && 0 < windowsize && forall k :: 0 <= k < |slots| ==> slots[k] < windowsize
    ensures var best := Best(data, pos, last, windowsize, slots, nicematch, length, offset);
            && best.0 >= length
            && (best == (length, offset)
                || exists k :: 0 <= k < |slots| && SlotMatch(data, pos, last, windowsize, slots[k], best.0, best.1))
            && (IsNice(best.0, nicematch)
                || forall k :: 0 <= k < |slots| ==> SlotAtMost(data, pos, last, windowsize, slots[k], best.0))
    decreases |slots|
  {
    if slots != [] {
      var o := OffsetOf(slots[0], pos % windowsize, windowsize);
      var n := MatchLength(data, pos, o, last);
      var rest := slots[1..];
      if o == 0 || n <= length {
        BestIsLongest(data, pos, last, windowsize, rest, nicematch, length, offset);
      } else if !IsNice(n, nicematch) {
        BestIsLongest(data, pos, last, windowsize, rest, nicematch, n, o);
        assert SlotMatch(data, pos, last, windowsize, slots[0], n, o);
      } else {
        assert SlotMatch(data, pos, last, windowsize, slots[0], n, o);
      }
      assert forall k :: 1 <= k < |slots| ==> slots[k] == rest[k - 1];
      assert forall k :: 0 <= k < |rest| ==> rest[k] == slots[k + 1];
    }
  }

  ghost predicate SlotMatch(data: seq<byte>, pos: nat, last: nat, windowsize: nat, slot: nat, length: nat, offset: nat)
    requires last <= |data| && slot < windowsize
  {
    OffsetOf(slot, pos % windowsize, windowsize) == offset && MatchLength(data, pos, offset, last) == length
  }

  ghost predicate SlotAtMost(data: seq<byte>, pos: nat, last: nat, windowsize: nat, slot: nat, length: nat)
    requires last <= |data| && slot < windowsize
  {
    var o := OffsetOf(slot, pos % windowsize, windowsize);
    o > 0 ==> MatchLength(data, pos, o, last) <= length
  }

  /** Where a match at pos has to end. */
  function LastOf(insize: nat, pos: nat): nat
  {
    if insize < pos + MAX_SUPPORTED_DEFLATE_LENGTH then insize else pos + MAX_SUPPORTED_DEFLATE_LENGTH
  }

  /** What the search along the chain of a hash value comes to. */
  ghost function Found(hash: Hash, data: seq<byte>, insize: nat, pos: nat, hashval: nat, maxchainlength: nat,
                       nicematch: nat): (nat, nat)
    requires hash.Shape() && IsChain(hash.chain[..], hash.windowsize) && 0 < hash.windowsize
    requires pos < insize <= |data| && hashval < HASH_NUM_VALUES && 0 <= hash.head[hashval] < hash.windowsize
    reads hash, hash.head, hash.val, hash.chain
  {
    var w := pos % hash.windowsize;
    if hash.val[w] != hashval then (0, 0)
    else
      var first := hash.head[hashval];
      var slots := Visited(hash.chain[..], hash.windowsize, w, first, hash.chain[first], maxchainlength);
      Best(data, pos, LastOf(insize, pos), hash.windowsize, slots, nicematch, 0, 0)
  }

  /** Follows the chain of the position's hash value and keeps the longest match. */
  method LongestMatch(hash: Hash, data: seq<byte>, insize: nat, pos: nat, hashval: nat, numzeros: nat,
                      usezeros: bool, maxchainlength: nat, nicematch: nat)
    returns (length: nat, offset: nat)
    requires pos < insize <= |data| && hash.Valid(data, pos + 1, usezeros)
    requires hashval < HASH_NUM_VALUES && 0 <= hash.head[hashval] < hash.windowsize
    requires usezeros && hashval == 0 ==> numzeros <= 258 && pos + numzeros <= insize && ZerosAt(data, pos, numzeros)
    ensures MatchAt(data, insize, hash.windowsize, pos, length, offset)
    ensures IsChain(hash.chain[..], hash.windowsize)
    ensures (length, offset) == Found(hash, data, insize, pos, hashval, maxchainlength, nicematch)
  {
    hide Best, Visited, MatchLength;
    var windowsize := hash.windowsize;
    var wpos := pos % windowsize;
    length, offset := 0, 0;
    var prevpos: nat := hash.head[hashval];
    ChainOk(hash, data, pos + 1, usezeros);
    assert hash.SlotOk(prevpos, pos + 1);
    var hashpos: nat := hash.chain[prevpos];
    var last := LastOf(insize, pos);
    if hash.val[wpos] == hashval {
      ghost var chain := hash.chain[..];
      ghost var found := Found(hash, data, insize, pos, hashval, maxchainlength, nicematch);
      var chainlength := 0;
      while true
        invariant hashpos < windowsize && hashpos <= pos && chainlength <= maxchainlength
        invariant MatchAt(data, insize, windowsize, pos, length, offset)
        invariant found == Best(data, pos, last, windowsize,
                                Visited(chain, windowsize, wpos, prevpos, hashpos, maxchainlength - chainlength),
                                nicematch, length, offset)
        decreases maxchainlength - chainlength
      {
        VisitedStep(chain, data, pos, last, windowsize, prevpos, hashpos, maxchainlength - chainlength, nicematch,
                    length, offset);
        if prevpos < wpos && hashpos > prevpos && hashpos <= wpos {
          break;
        }
        if prevpos > wpos && (hashpos <= wpos || hashpos > prevpos) {
          break;
        }
        if chainlength >= maxchainlength {
          break;
        }
        chainlength := chainlength + 1;
        var currentOffset := if hashpos <= wpos then wpos - hashpos else wpos - hashpos + windowsize;
        ghost var back := SlotDistance(windowsize, pos, hashpos);
        if currentOffset > 0 {
          var currentLength := MatchAtSlot(hash, data, pos, hashval, numzeros, usezeros, hashpos, currentOffset, last);
          if currentLength > length {
            length, offset := currentLength, currentOffset;
            if currentLength >= nicematch || currentLength == MAX_SUPPORTED_DEFLATE_LENGTH {
              break;
            }
          }
        }
        assert hash.SlotOk(hashpos, pos + 1);
        if hashpos == hash.chain[hashpos] {
          break;
        }
        prevpos := hashpos;
        hashpos := hash.chain[hashpos];
      }
    }
  }

  lemma ChainOk(hash: Hash, data: seq<byte>, done: nat, usezeros: bool)
    requires hash.Valid(data, done, usezeros)
    ensures IsChain(hash.chain[..], hash.windowsize) && 0 < hash.windowsize
  {
    forall w | 0 <= w < hash.windowsize
      ensures hash.chain[..][w] < hash.windowsize
    {
      assert hash.SlotOk(w, done);
    }
  }

  /** One turn of the search, on the visited slots. */
  lemma VisitedStep(chain: seq<nat>, data: seq<byte>, pos: nat, last: nat, windowsize: nat, prevpos: nat, hashpos: nat,
                    count: nat, nicematch: nat, length: nat, offset: nat)
    requires IsChain(chain, windowsize) && 0 < windowsize && hashpos < windowsize && last <= |data|
    ensures var w := pos % windowsize;
            var o, next := OffsetOf(hashpos, w, windowsize), chain[hashpos];
            var n := MatchLength(data, pos, o, last);
            var better := o > 0 && n > length;
            var l, f := if better then n else length, if better then o else offset;
            Best(data, pos, last, windowsize, Visited(chain, windowsize, w, prevpos, hashpos, count), nicematch,
                 length, offset)
            == if WentRound(w, prevpos, hashpos) || count == 0 then (length, offset)
               else if (better && IsNice(n, nicematch)) || hashpos == next then (l, f)
               else Best(data, pos, last, windowsize, Visited(chain, windowsize, w, hashpos, next, count - 1),
                         nicematch, l, f)
  {
    var w := pos % windowsize;
    var slots := Visited(chain, windowsize, w, prevpos, hashpos, count);
    if !WentRound(w, prevpos, hashpos) && count > 0 {
      var next := chain[hashpos];
      var rest := if hashpos == next then [] else Visited(chain, windowsize, w, hashpos, next, count - 1);
      assert slots == [hashpos] + rest && slots[1..] == rest;
    }
  }

  /** The length of the match at a slot; zeros that are known to be equal are skipped. */
  method MatchAtSlot(hash: Hash, data: seq<byte>, pos: nat, hashval: nat, numzeros: nat, usezeros: bool, hashpos: nat,
                     offset: nat, last: nat) returns (length: nat)
    requires pos < last <= |data| && hash.Valid(data, pos + 1, usezeros) && hashpos < hash.windowsize
    requires 1 <= offset <= pos && hashpos <= pos && Latest(pos + 1, hash.windowsize, hashpos) == pos - offset
    requires usezeros && hashval == 0 ==>
               numzeros <= 258 && pos + numzeros <= last && ZerosAt(data, pos, numzeros)
    ensures pos + length <= last && Repeats(data, pos, length, offset)
    ensures length == MatchLength(data, pos, offset, last)
  {
    var skip: nat := 0;
    if usezeros && hashval == 0 && hash.val[hashpos] == 0 {
      assert hash.ZeroOk(data, hashpos, pos + 1);
      skip := if hash.zeros[hashpos] > numzeros then numzeros else hash.zeros[hashpos];
      ZerosRepeat(data, pos, skip, offset);
    }
    length := CompareFrom(data, pos, offset, skip, last);
    MatchLengthIs(data, pos, offset, last, length);
  }

  /** Compares forward byte by byte, starting behind skip bytes that are known to be equal. */
  method CompareFrom(data: seq<byte>, pos: nat, offset: nat, skip: nat, last: nat) returns (length: nat)
    requires pos + skip <= last <= |data| && Repeats(data, pos, skip, offset)
    ensures pos + length <= last && Repeats(data, pos, length, offset)
    ensures pos + length < last ==> data[pos + length] != data[pos - offset + length]
  {
    length := skip;
    while pos + length != last && data[pos - offset + length] == data[pos + length]
      invariant pos + length <= last && Repeats(data, pos, length, offset)
      decreases last - length
    {
      length := length + 1;
    }
  }

  // ---------------------------------------------------------------- the encoder

  /** The largest base that is at most a value, and what is left of the value. */
  method CodeAndRest(base: seq<nat>, value: nat) returns (code: nat, rest: nat)
    requires base != [] && Increasing(base) && base[0] <= value
    ensures code == CodeIndex(base, value) < |base| && base[code] <= value && rest == value - base[code]
  {
    code := SearchCodeIndex(base, value);
    rest := value - base[code];
  }

  method AddLengthDistance(values: seq<nat>, length: nat, distance: nat) returns (values': seq<nat>)
    requires 3 <= length <= 258 && 1 <= distance <= 32768
    ensures values' == values + Flat(Copy(length, distance))
  {
    hide CodeIndex, Increasing;
    TablesIncrease();
    TokenFits(length, distance);
    var lengthCode, extraLength := CodeAndRest(LENGTHBASE, length);
    var distCode, extraDistance := CodeAndRest(DISTANCEBASE, distance);
    values' := values + [lengthCode + FIRST_LENGTH_CODE_INDEX, extraLength, distCode, extraDistance];
  }

  /** What the tokens stand for after the bytes before inpos: the text up to pos. */
  ghost predicate Covers(data: seq<byte>, inpos: nat, pos: nat, toks: seq<Token>)
  {
    && inpos <= pos <= |data|
    && ValidTokens(data[..inpos], toks)
    && Expand(data[..inpos], toks) == data[..pos]
  }

  lemma CoverLiteral(data: seq<byte>, inpos: nat, pos: nat, toks: seq<Token>)
    requires Covers(data, inpos, pos, toks) && pos < |data|
    ensures Covers(data, inpos, pos + 1, toks + [Literal(data[pos])])
  {
    ExpandAppend(data[..inpos], toks, Literal(data[pos]));
    assert data[..pos] + [data[pos]] == data[..pos + 1];
  }

  lemma CoverCopy(data: seq<byte>, inpos: nat, pos: nat, toks: seq<Token>, length: nat, offset: nat)
    requires Covers(data, inpos, pos, toks)
    requires 3 <= length <= 258 && offset <= 32768 && Repeats(data, pos, length, offset)
    ensures Covers(data, inpos, pos + length, toks + [Copy(length, offset)])
  {
    ExpandAppend(data[..inpos], toks, Copy(length, offset));
    CopyMatches(data, pos, length, offset);
  }

  lemma NothingYet(data: seq<byte>, inpos: nat, windowsize: nat)
    requires inpos <= |data|
    ensures FlatAll([]) == [] && Covers(data, inpos, inpos, []) && InWindow([], windowsize)
  {
  }

  /** The copies reach back less than the window. */
  ghost predicate InWindow(toks: seq<Token>, windowsize: nat)
  {
    forall i :: 0 <= i < |toks| && toks[i].Copy? ==> toks[i].distance < windowsize
  }

  /**
   * Encodes data[inpos..insize]. The hash may hold anything the earlier calls left there. The values stand for
   * tokens that expand to exactly those bytes, after the bytes before them; error codes are never returned.
   */
  method EncodeLZ77(hash: Hash, data: seq<byte>, inpos: nat, insize: nat, minmatch: nat, nicematch: nat,
                    lazymatching: bool)
    returns (error: int, out: seq<nat>, ghost toks: seq<Token>)
    requires inpos <= insize <= |data| && insize < 0x1_0000_0000
    requires hash.Valid(data, inpos, hash.windowsize >= 8192)
    modifies hash.head, hash.val, hash.chain, hash.zeros
    ensures error == 0
    ensures hash.Valid(data, insize, hash.windowsize >= 8192)
    ensures out == FlatAll(toks) && Covers(data, inpos, insize, toks) && InWindow(toks, hash.windowsize)
  {
    hide FlatAll, InWindow, Repeats, CodeIndex, Hash.Valid, Found, IsChain, MatchAt, ZerosAt;
    error, out, toks := 0, [], [];
    NothingYet(data, inpos, hash.windowsize);
    hide Covers;
    var windowsize := hash.windowsize;
    var numzeros: nat := 0;
    var usezeros := windowsize >= 8192;
    var maxchainlength := if windowsize >= 8192 then windowsize else windowsize / 8;
    var maxlazymatch := if windowsize >= 8192 then MAX_SUPPORTED_DEFLATE_LENGTH else 64;
    var lazy := false;
    var lazylength: nat, lazyoffset: nat := 0, 0;
    var pos := inpos;
    ghost var done := inpos;
    while pos < insize
      invariant inpos <= pos <= done <= insize && done <= pos + 1
      invariant hash.Valid(data, done, usezeros)
      invariant out == FlatAll(toks) && InWindow(toks, windowsize)
      invariant !lazy ==> Covers(data, inpos, pos, toks)
      invariant lazy ==> lazymatching && 0 < pos < insize && Covers(data, inpos, pos - 1, toks) && done == pos
      invariant lazy ==> lazylength >= 3 && MatchAt(data, insize, windowsize, pos - 1, lazylength, lazyoffset)
      decreases insize - pos, lazy
    {
      var hashval;
      hashval, numzeros := hash.Enter(data, insize, pos, usezeros, numzeros, done);
      done := pos + 1;
      var length, offset :=
        LongestMatch(hash, data, insize, pos, hashval, numzeros, usezeros, maxchainlength, nicematch);
      MatchInWindow(data, insize, windowsize, pos, length, offset);
      if lazymatching {
        if !lazy && length >= 3 && length <= maxlazymatch && length < MAX_SUPPORTED_DEFLATE_LENGTH {
          lazy, lazylength, lazyoffset := true, length, offset;
          pos := pos + 1;
          continue;
        }
        if lazy {
          lazy := false;
          if pos == 0 {
            error := 81;
            break;
          }
          if length > lazylength + 1 {
            out, toks := PushLiteral(out, data, inpos, pos - 1, toks, windowsize);
          } else {
            length, offset := lazylength, lazyoffset;
            hash.Forget(hashval, data, done, usezeros);
            pos := pos - 1;
          }
        }
      }
      MatchInWindow(data, insize, windowsize, pos, length, offset);
      if length >= 3 && offset > windowsize {
        error := 86;
        break;
      }
      out, pos, toks := Emit(hash, out, data, inpos, insize, pos, length, offset, minmatch, usezeros, toks, done);
      done := if done < pos then pos else done;
    }
  }

  lemma MatchInWindow(data: seq<byte>, insize: nat, windowsize: nat, pos: nat, length: nat, offset: nat)
    requires MatchAt(data, insize, windowsize, pos, length, offset)
    ensures length > 0 ==> offset < windowsize && length <= 258 && pos + length <= insize <= |data|
    ensures length > 0 ==> Repeats(data, pos, length, offset)
  {
  }

  /** Writes the byte at pos as a literal, or the match there as a copy, and moves on behind it. */
  method Emit(hash: Hash, out: seq<nat>, data: seq<byte>, ghost inpos: nat, insize: nat, pos: nat, length: nat,
              offset: nat, minmatch: nat, usezeros: bool, ghost toks: seq<Token>, ghost done: nat)
    returns (out': seq<nat>, pos': nat, ghost toks': seq<Token>)
    requires pos < insize <= |data| && (done == pos + 1 || done == pos + 2) && done <= insize
    requires hash.Valid(data, done, usezeros) && MatchAt(data, insize, hash.windowsize, pos, length, offset)
    requires Covers(data, inpos, pos, toks) && out == FlatAll(toks) && InWindow(toks, hash.windowsize)
    modifies hash.head, hash.val, hash.chain, hash.zeros
    ensures pos < pos' <= insize && hash.Valid(data, if done < pos' then pos' else done, usezeros)
    ensures out' == FlatAll(toks') && Covers(data, inpos, pos', toks') && InWindow(toks', hash.windowsize)
    ensures pos' == if length < 3 || length < minmatch || (length == 3 && offset > 4096) then pos + 1 else pos + length
  {
    hide FlatAll, Covers, InWindow, Repeats, CodeIndex, Hash.Valid, Hash.Shape, MatchAt, Flat;
    HashShape(hash, data, done, usezeros);
    MatchInWindow(data, insize, hash.windowsize, pos, length, offset);
    if length < 3 || length < minmatch || (length == 3 && offset > 4096) {
      out', toks' := PushLiteral(out, data, inpos, pos, toks, hash.windowsize);
      pos' := pos;
    } else {
      out', toks' := PushCopy(out, data, inpos, pos, length, offset, toks, hash.windowsize);
      pos' := EnterCopied(hash, data, insize, pos, length, usezeros, done);
    }
    pos' := pos' + 1;
  }

  lemma HashShape(hash: Hash, data: seq<byte>, done: nat, usezeros: bool)
    requires hash.Valid(data, done, usezeros)
    ensures 1 <= hash.windowsize <= 32768
  {
  }

  method PushLiteral(out: seq<nat>, data: seq<byte>, ghost inpos: nat, pos: nat, ghost toks: seq<Token>,
                     ghost windowsize: nat)
    returns (out': seq<nat>, ghost toks': seq<Token>)
    requires pos < |data| && Covers(data, inpos, pos, toks) && out == FlatAll(toks) && InWindow(toks, windowsize)
    ensures out' == out + [data[pos]]
    ensures out' == FlatAll(toks') && Covers(data, inpos, pos + 1, toks') && InWindow(toks', windowsize)
  {
    out', toks' := out + [data[pos]], toks + [Literal(data[pos])];
    CoverLiteral(data, inpos, pos, toks);
    FlatAllAppend(toks, Literal(data[pos]));
  }

  method PushCopy(out: seq<nat>, ghost data: seq<byte>, ghost inpos: nat, ghost pos: nat, length: nat, offset: nat,
                  ghost toks: seq<Token>, ghost windowsize: nat)
    returns (out': seq<nat>, ghost toks': seq<Token>)
    requires Covers(data, inpos, pos, toks) && out == FlatAll(toks) && InWindow(toks, windowsize)
    requires 3 <= length <= 258 && offset < windowsize <= 32768 && Repeats(data, pos, length, offset)
    ensures out' == out + Flat(Copy(length, offset))
    ensures out' == FlatAll(toks') && Covers(data, inpos, pos + length, toks') && InWindow(toks', windowsize)
  {
    toks' := toks + [Copy(length, offset)];
    out' := AddLengthDistance(out, length, offset);
    CoverCopy(data, inpos, pos, toks, length, offset);
    FlatAllAppend(toks, Copy(length, offset));
  }

  /** Enters the positions that a copy skips. The first of them may have been entered before. */
  method EnterCopied(hash: Hash, data: seq<byte>, insize: nat, start: nat, length: nat, usezeros: bool, ghost done: nat)
    returns (pos: nat)
    requires length >= 2 && start + length <= insize <= |data| && (done == start + 1 || done == start + 2)
    requires hash.Valid(data, done, usezeros)
    modifies hash.head, hash.val, hash.chain, hash.zeros
    ensures pos == start + length - 1
    ensures hash.Valid(data, pos + 1, usezeros)
  {
    pos := start;
    ghost var entered := done;
    for i := 1 to length
      invariant pos == start + i - 1
      invariant entered == pos + 1 || (i == 1 && entered == pos + 2)
      invariant hash.Valid(data, entered, usezeros)
    {
      pos := pos + 1;
      var hashval, unused := hash.Enter(data, insize, pos, usezeros, 0, entered);
      entered := pos + 1;
    }
  }
}

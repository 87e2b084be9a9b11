/** Bit streams over byte buffers: least significant bit of each byte first. */
module Bits {
  import opened Powers

  type byte = x: int | 0 <= x < 256

  type BitString = seq<bool>

  /** Bit k of a byte: the value of (b >> k) & 1. */
  predicate BitOf(b: byte, k: nat)
    requires k < 8
  {
    b / Pow2(k) % 2 == 1
  }

  /** The byte b | (bit << k). */
  function OrBit(b: byte, k: nat, bit: bool): (r: byte)
    requires k < 8
    ensures forall j: nat :: j < 8 ==> BitOf(r, j) == (BitOf(b, j) || (j == k && bit))
  {
    Pow2Bytes();
    if bit && !BitOf(b, k) then
      OrBitSets(b, k);
      b + Pow2(k)
    else b
  }

  lemma Pow2Bytes()
    ensures Pow2(0) == 1 && Pow2(1) == 2 && Pow2(2) == 4 && Pow2(3) == 8
    ensures Pow2(4) == 16 && Pow2(5) == 32 && Pow2(6) == 64 && Pow2(7) == 128 && Pow2(8) == 256
  {
    assert Pow2(3) == 8;
    assert Pow2(5) == 32;
    assert Pow2(7) == 128;
  }

  lemma OrBitSets(b: byte, k: nat)
    requires k < 8 && !BitOf(b, k)
    ensures b + Pow2(k) < 256
    ensures forall j: nat :: j < 8 ==> BitOf(b + Pow2(k), j) == (BitOf(b, j) || j == k)
  {
    OrBitFits(b, k);
    forall j: nat | j < 8
      ensures BitOf(b + Pow2(k), j) == (BitOf(b, j) || j == k)
    {
      OrBitAt(b, k, j);
    }
  }

  lemma OrBitFits(b: byte, k: nat)
    requires k < 8 && !BitOf(b, k)
    ensures b + Pow2(k) < 256
  {
    Pow2Bytes();
    if k == 0 { } else if k == 1 { } else if k == 2 { } else if k == 3 { }
    else if k == 4 { } else if k == 5 { } else if k == 6 { } else { }
  }

  /** Adding 2^k where bit k is clear changes no other bit. */
  lemma {:induction false} OrBitAt(b: nat, k: nat, j: nat)
    requires b / Pow2(k) % 2 == 0
    ensures ((b + Pow2(k)) / Pow2(j) % 2 == 1) == (b / Pow2(j) % 2 == 1 || j == k)
  {
    assert b / Pow2(0) == b && (b + Pow2(k)) / Pow2(0) == b + Pow2(k);
    if j > 0 {
      DivPow2Step(b, j - 1);
      DivPow2Step(b + Pow2(k), j - 1);
      if k > 0 {
        DivPow2Step(b, k - 1);
        assert (b + Pow2(k)) / 2 == b / 2 + Pow2(k - 1);
        OrBitAt(b / 2, k - 1, j - 1);
      } else {
        assert (b + Pow2(k)) / 2 == b / 2;
      }
    }
  }

  /** The bits of a buffer in stream order. */
  function BytesBits(s: seq<byte>): (r: BitString)
    ensures |r| == 8 * |s|
  {
    seq(8 * |s|, i requires 0 <= i < 8 * |s| => BitOf(s[i / 8], i % 8))
  }

  lemma BytesBitsAppend(s: seq<byte>, t: seq<byte>)
    ensures BytesBits(s + t) == BytesBits(s) + BytesBits(t)
  {
    var l, r := BytesBits(s + t), BytesBits(s) + BytesBits(t);
    forall i | 0 <= i < |l|
      ensures l[i] == r[i]
    {
      if i >= 8 * |s| {
        assert i / 8 - |s| == (i - 8 * |s|) / 8;
      }
    }
  }

  /** Equal bits mean equal bytes. */
  lemma BytesBitsInjective(s: seq<byte>, t: seq<byte>)
    requires BytesBits(s) == BytesBits(t)
    ensures s == t
  {
    forall i | 0 <= i < |s|
      ensures s[i] == t[i]
    {
      forall k: nat | k < 8
        ensures BitOf(s[i], k) == BitOf(t[i], k)
      {
        assert BytesBits(s)[8 * i + k] == BitOf(s[i], k);
        assert BytesBits(t)[8 * i + k] == BitOf(t[i], k);
      }
      ByteFromBits(s[i], t[i]);
    }
  }

  lemma ByteFromBits(a: byte, b: byte)
    requires forall k: nat :: k < 8 ==> BitOf(a, k) == BitOf(b, k)
    ensures a == b
  {
    EqualBits(a, b, 8);
    assert Pow2(8) == 256 by { Pow2Bytes(); }
  }

  lemma {:induction false} EqualBits(a: byte, b: byte, n: nat)
    requires n <= 8 && forall k: nat :: k < n ==> BitOf(a, k) == BitOf(b, k)
    ensures a % Pow2(n) == b % Pow2(n)
  {
    if n > 0 {
      EqualBits(a, b, n - 1);
      assert BitOf(a, n - 1) == BitOf(b, n - 1);
      ModPow2Step(a, n - 1);
      ModPow2Step(b, n - 1);
    }
  }

  // ---------------------------------------------------------------- numbers as bits

  /** The low n bits of v, least significant first. */
  function LsbBits(v: nat, n: nat): (r: BitString)
    ensures |r| == n
  {
    if n == 0 then [] else LsbBits(v, n - 1) + [v / Pow2(n - 1) % 2 == 1]
  }

  /** The low n bits of v, most significant first. */
  function MsbBits(v: nat, n: nat): (r: BitString)
    ensures |r| == n
  {
    if n == 0 then [] else [v / Pow2(n - 1) % 2 == 1] + MsbBits(v, n - 1)
  }

  /** The number that bits denote, least significant first. */
  function LsbValue(b: BitString): (r: nat)
    ensures r < Pow2(|b|)
  {
    if b == [] then 0
    else LsbValue(b[..|b| - 1]) + (if b[|b| - 1] then Pow2(|b| - 1) else 0)
  }

  lemma {:induction false} LsbValueOfBits(v: nat, n: nat)
    ensures LsbValue(LsbBits(v, n)) == v % Pow2(n)
  {
    if n > 0 {
      LsbValueOfBits(v, n - 1);
      assert LsbBits(v, n)[..n - 1] == LsbBits(v, n - 1);
      ModPow2Step(v, n - 1);
    }
  }

  lemma ModPow2Step(v: nat, n: nat)
    ensures v % Pow2(n + 1) == v % Pow2(n) + (if v / Pow2(n) % 2 == 1 then Pow2(n) else 0)
  {
    var p := Pow2(n);
    var q := v / p;
    var r := v % p + (if q % 2 == 1 then p else 0);
    assert v == p * q + v % p;
    assert q == 2 * (q / 2) + q % 2;
    assert p * (2 * (q / 2)) == (2 * p) * (q / 2);
    if q % 2 == 1 {
      assert p * q == p * (2 * (q / 2)) + p;
    }
    DivUnique(v, 2 * p, q / 2, r);
  }

  lemma {:induction false} MsbBitsAt(v: nat, n: nat, i: nat)
    requires i < n
    ensures MsbBits(v, n)[i] == (v / Pow2(n - 1 - i) % 2 == 1)
  {
    if i > 0 {
      MsbBitsAt(v, n - 1, i - 1);
    }
  }

  lemma {:induction false} LsbBitsAt(v: nat, n: nat, i: nat)
    requires i < n
    ensures LsbBits(v, n)[i] == (v / Pow2(i) % 2 == 1)
  {
    if i < n - 1 {
      LsbBitsAt(v, n - 1, i);
    }
  }

  lemma {:induction false} LsbBitsPrefix(v: nat, n: nat, i: nat)
    requires i <= n
    ensures LsbBits(v, n)[..i] == LsbBits(v, i)
  {
    if i < n {
      LsbBitsPrefix(v, n - 1, i);
      assert LsbBits(v, n)[..i] == LsbBits(v, n - 1)[..i];
    } else {
      assert LsbBits(v, n)[..n] == LsbBits(v, n);
    }
  }

  lemma {:induction false} MsbBitsMod(v: nat, w: nat, n: nat)
    requires v % Pow2(n) == w % Pow2(n)
    ensures MsbBits(v, n) == MsbBits(w, n)
  {
    if n > 0 {
      ModPow2Step(v, n - 1);
      ModPow2Step(w, n - 1);
      MsbBitsMod(v, w, n - 1);
    }
  }

  // ---------------------------------------------------------------- writing

  /** The growing byte buffer of the encoder. */
  class UcVector {
    var data: seq<byte>

    constructor (init: seq<byte>)
      ensures data == init
    {
      data := init;
    }

    method PushBack(c: byte)
      modifies this
      ensures data == old(data) + [c]
    {
      data := data + [c];
    }

    /** Changes the size. New bytes hold whatever the memory holds. */
    method Resize(size: nat)
      modifies this
      ensures |data| == size
      ensures forall i :: 0 <= i < size && i < old(|data|) ==> data[i] == old(data[i])
    {
      if size <= |data| {
        data := data[..size];
      } else {
        var more := new byte[size - |data|];
        data := data + more[..];
      }
    }
  }

  /** The first bp bits that follow position base of a buffer. */
  ghost function Stream(data: seq<byte>, base: nat, bp: nat): (r: BitString)
    requires Padded(data, base, bp)
    ensures |r| == bp
  {
    BytesBits(data[base..])[..bp]
  }

  /** The buffer ends with the last byte that bit pointer bp has reached, and unused bits are 0. */
  ghost predicate Padded(data: seq<byte>, base: nat, bp: nat): (r: bool)
    ensures r ==> base <= |data|
  {
    && base <= |data|
    && |data| - base == (bp + 7) / 8
    && forall i: nat :: bp <= i < 8 * (|data| - base) ==> !BytesBits(data[base..])[i]
  }

  method AddBitToStream(bp: nat, out: UcVector, bit: bool, ghost base: nat) returns (bp': nat)
    requires Padded(out.data, base, bp)
    modifies out
    ensures bp' == bp + 1 && Padded(out.data, base, bp')
    ensures out.data[..base] == old(out.data[..base])
    ensures Stream(out.data, base, bp') == old(Stream(out.data, base, bp)) + [bit]
  {
    hide BytesBits, OrBit, BitOf, Pow2;
    ghost var s0 := out.data[base..];
    if bp % 8 == 0 {
      out.PushBack(0);
      assert out.data[base..] == s0 + [0];
      NextByte(s0, bp);
    }
    ghost var s1 := out.data[base..];
    var last := |out.data| - 1;
    out.data := out.data[last := OrBit(out.data[last], bp % 8, bit)];
    assert out.data[base..] == s1[|s1| - 1 := OrBit(s1[|s1| - 1], bp % 8, bit)];
    bp' := bp + 1;
    BitPlaced(s1, bp, bit);
  }

  /** A byte of 0 for the next bit. */
  lemma NextByte(s: seq<byte>, bp: nat)
    requires 8 * |s| == bp
    ensures BytesBits(s + [0])[..bp] == BytesBits(s)[..bp]
    ensures forall i: nat :: bp <= i < bp + 8 ==> !BytesBits(s + [0])[i]
  {
    hide BytesBits;
    ZeroByte();
    BytesBitsAppend(s, [0]);
  }

  /** The next bit in the last byte, where only zeros follow. */
  lemma BitPlaced(s: seq<byte>, bp: nat, bit: bool)
    requires |s| > 0 && (bp + 8) / 8 == |s| && forall i: nat :: bp <= i < 8 * |s| ==> !BytesBits(s)[i]
    ensures var t := s[|s| - 1 := OrBit(s[|s| - 1], bp % 8, bit)];
            && BytesBits(t)[..bp + 1] == BytesBits(s)[..bp] + [bit]
            && forall i: nat :: bp + 1 <= i < 8 * |t| ==> !BytesBits(t)[i]
  {
    hide BytesBits, OrBit;
    SetLastBit(s, bp, bit);
  }

  lemma ZeroByte()
    ensures BytesBits([0]) == seq(8, _ => false)
  {
    Pow2Bytes();
  }

  lemma SetLastBit(s: seq<byte>, bp: nat, bit: bool)
    requires |s| > 0 && (bp + 8) / 8 == |s| && !BytesBits(s)[bp]
    ensures BytesBits(s[|s| - 1 := OrBit(s[|s| - 1], bp % 8, bit)]) == BytesBits(s)[bp := bit]
  {
    var t := s[|s| - 1 := OrBit(s[|s| - 1], bp % 8, bit)];
    forall i | 0 <= i < 8 * |s|
      ensures BytesBits(t)[i] == BytesBits(s)[bp := bit][i]
    {
      if i / 8 == |s| - 1 {
        assert (i % 8 == bp % 8) == (i == bp);
      }
    }
  }

  method AddBitsToStream(bp: nat, out: UcVector, value: nat, nbits: nat, ghost base: nat) returns (bp': nat)
    requires Padded(out.data, base, bp)
    modifies out
    ensures bp' == bp + nbits && Padded(out.data, base, bp')
    ensures out.data[..base] == old(out.data[..base])
    ensures Stream(out.data, base, bp') == old(Stream(out.data, base, bp)) + LsbBits(value, nbits)
  {
    hide Padded, Stream;
    bp' := bp;
    for i := 0 to nbits
      invariant bp' == bp + i && Padded(out.data, base, bp')
      invariant out.data[..base] == old(out.data[..base])
      invariant Stream(out.data, base, bp') == old(Stream(out.data, base, bp)) + LsbBits(value, i)
    {
      bp' := AddBitToStream(bp', out, value / Pow2(i) % 2 == 1, base);
    }
  }

  method AddBitsToStreamReversed(bp: nat, out: UcVector, value: nat, nbits: nat, ghost base: nat) returns (bp': nat)
    requires Padded(out.data, base, bp)
    modifies out
    ensures bp' == bp + nbits && Padded(out.data, base, bp')
    ensures out.data[..base] == old(out.data[..base])
    ensures Stream(out.data, base, bp') == old(Stream(out.data, base, bp)) + MsbBits(value, nbits)
  {
    hide Padded, Stream;
    bp' := bp;
    for i := 0 to nbits
      invariant bp' == bp + i && Padded(out.data, base, bp')
      invariant out.data[..base] == old(out.data[..base])
      invariant Stream(out.data, base, bp') == old(Stream(out.data, base, bp)) + MsbBits(value, nbits)[..i]
    {
      MsbBitsAt(value, nbits, i);
      bp' := AddBitToStream(bp', out, value / Pow2(nbits - 1 - i) % 2 == 1, base);
    }
  }

  // ---------------------------------------------------------------- reading

  /** READBIT. Past the end of the buffer the source reads whatever memory holds there. */
  method ReadBit(bp: nat, bytes: seq<byte>) returns (bit: bool)
    ensures bp < 8 * |bytes| ==> bit == BytesBits(bytes)[bp]
  {
    if bp / 8 < |bytes| {
      bit := bytes[bp / 8] / Pow2(bp % 8) % 2 == 1;
    } else {
      bit := *;
    }
  }

  method ReadBitsFromStream(bp: nat, bytes: seq<byte>, nbits: nat) returns (result: nat, bp': nat)
    ensures bp' == bp + nbits
    ensures result < Pow2(nbits)
    ensures bp' <= 8 * |bytes| ==> result == LsbValue(BytesBits(bytes)[bp..bp'])
  {
    hide BytesBits, LsbValue, Pow2;
    result, bp' := 0, bp;
    NoValue(BytesBits(bytes), bp);
    for i := 0 to nbits
      invariant bp' == bp + i
      invariant result < Pow2(i)
      invariant bp' <= 8 * |bytes| ==> result == LsbValue(BytesBits(bytes)[bp..bp'])
    {
      var bit := ReadBit(bp', bytes);
      result := result + (if bit then Pow2(i) else 0);
      ValueNext(BytesBits(bytes), bp, i);
      bp' := bp' + 1;
    }
  }

  lemma NoValue(bits: BitString, bp: nat)
    ensures Pow2(0) == 1 && (bp <= |bits| ==> LsbValue(bits[bp..bp]) == 0)
  {
  }

  lemma ValueNext(bits: BitString, bp: nat, i: nat)
    ensures Pow2(i + 1) == 2 * Pow2(i)
    ensures bp + i < |bits| ==>
              LsbValue(bits[bp..bp + i + 1]) == LsbValue(bits[bp..bp + i]) + (if bits[bp + i] then Pow2(i) else 0)
  {
    if bp + i < |bits| {
      assert bits[bp..bp + i + 1][..i] == bits[bp..bp + i];
    }
  }

  /** What the writer wrote, the reader reads back. */
  lemma ReadBack(bits: BitString, pos: nat, v: nat, n: nat)
    requires pos + n <= |bits| && bits[pos..pos + n] == LsbBits(v, n) && v < Pow2(n)
    ensures LsbValue(bits[pos..pos + n]) == v
  {
    LsbValueOfBits(v, n);
    ModSmall(v, Pow2(n));
  }

  lemma ModSmall(v: nat, d: nat)
    requires v < d
    ensures v % d == v
  {
  }
}

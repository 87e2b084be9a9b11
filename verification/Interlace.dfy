/** Interlacing and deinterlacing of images in buffers, by bytes and by bits. */
module Interlace {
  import opened Powers
  import opened Bits
  import opened Adam7

  /** The size of an image, and its bits per pixel. */
  datatype Geometry = Geometry(w: nat, h: nat, bpp: nat)

  /** Pixels of some bits within a byte, or of whole bytes; sizes are 32-bit numbers in the source. */
  predicate ValidGeometry(g: Geometry)
  {
    0 < g.bpp && (g.bpp < 8 || g.bpp % 8 == 0) && g.w * g.h * g.bpp + 7 < 0x1_0000_0000
  }

  // ---------------------------------------------------------------- places of pixels

  /** Bytes of a pixel, or bits if it is smaller than a byte. */
  function PixelSize(g: Geometry): nat
  {
    if g.bpp >= 8 then g.bpp / 8 else g.bpp
  }

  /** The byte at which a reduced image starts. */
  function PassStart(i: nat, g: Geometry): nat
    requires i <= 7
  {
    if i == 0 then 0 else PassStart(i - 1, g) + (Offset(Area(i - 1, g.w, g.h), g.bpp) + 7) / 8
  }

  /** The same in the unit of the pixels. */
  function Base(i: nat, g: Geometry): nat
    requires i <= 7
  {
    if g.bpp >= 8 then PassStart(i, g) else 8 * PassStart(i, g)
  }

  lemma BaseNext(i: nat, g: Geometry)
    requires i < 7 && ValidGeometry(g)
    ensures Base(i, g) + Offset(Area(i, g.w, g.h), PixelSize(g)) <= Base(i + 1, g)
  {
    var a, n := Area(i, g.w, g.h), PixelSize(g);
    hide Area;
    if g.bpp >= 8 {
      assert g.bpp == 8 * n;
      assert a * (8 * n) == 8 * (a * n);
      DivUnique(a * g.bpp + 7, 8, a * n, 7);
    } else {
      assert 8 * ((a * n + 7) / 8) >= a * n;
    }
  }

  lemma {:induction false} BaseMonotone(i: nat, j: nat, g: Geometry)
    requires i <= j <= 7 && ValidGeometry(g)
    ensures Base(i, g) <= Base(j, g)
  {
    if i < j {
      BaseMonotone(i, j - 1, g);
      BaseNext(j - 1, g);
    }
  }

  /** The number of a pixel, row by row. */
  function Linear(w: nat, r: nat, c: nat): nat
  {
    r * w + c
  }

  function Offset(n: nat, u: nat): nat
  {
    n * u
  }

  /** Where a pixel of the image stands: in the interlaced buffer, or in the plain one. */
  function Place(p: Spot, g: Geometry, interlaced: bool): nat
    requires p.pass < 7
  {
    if interlaced then Base(p.pass, g) + Offset(Linear(PassW(p.pass, g.w, g.h), p.y, p.x), PixelSize(g))
    else Offset(Linear(g.w, Row(p), Column(p)), PixelSize(g))
  }

  function Total(g: Geometry, interlaced: bool): nat
  {
    if interlaced then Base(7, g) else Offset(Offset(g.h, g.w), PixelSize(g))
  }

  lemma LinearUnique(w: nat, r1: nat, c1: nat, r2: nat, c2: nat)
    requires c1 < w && c2 < w && Linear(w, r1, c1) == Linear(w, r2, c2)
    ensures r1 == r2 && c1 == c2
  {
    DivUnique(r1 * w + c1, w, r1, c1);
    DivUnique(r1 * w + c1, w, r2, c2);
  }

  lemma LinearFits(w: nat, n: nat, r: nat, c: nat)
    requires c < w && r < n
    ensures Linear(w, r, c) < Offset(n, w)
  {
    MulMonotone(w, r + 1, n);
    OneMore(r, w);
    assert w * (r + 1) == (r + 1) * w && w * n == n * w;
  }

  lemma SlotBefore(a: nat, b: nat, u: nat)
    requires a < b
    ensures Offset(a, u) + u <= Offset(b, u)
  {
    OneMore(a, u);
    MulMonotone(u, a + 1, b);
    assert u * (a + 1) == (a + 1) * u && u * b == b * u;
  }

  lemma PassPlaceFits(p: Spot, g: Geometry)
    requires InPass(p, g.w, g.h) && ValidGeometry(g)
    ensures Place(p, g, true) + PixelSize(g) <= Base(p.pass + 1, g)
  {
    hide Base, PixelSize, PassW, PassH, Linear;
    var n := Linear(PassW(p.pass, g.w, g.h), p.y, p.x);
    LinearFits(PassW(p.pass, g.w, g.h), PassH(p.pass, g.w, g.h), p.y, p.x);
    assert Area(p.pass, g.w, g.h) == Offset(PassH(p.pass, g.w, g.h), PassW(p.pass, g.w, g.h));
    hide Offset, Area;
    SlotBefore(n, Area(p.pass, g.w, g.h), PixelSize(g));
    BaseNext(p.pass, g);
  }

  /** Pixels stay inside the buffer... */
  lemma PlaceFits(p: Spot, g: Geometry, interlaced: bool)
    requires InPass(p, g.w, g.h) && ValidGeometry(g)
    ensures Place(p, g, interlaced) + PixelSize(g) <= Total(g, interlaced)
  {
    if interlaced {
      PassPlaceFits(p, g);
      BaseMonotone(p.pass + 1, 7, g);
    } else {
      hide Offset, Linear;
      InPassIs(p, g.w, g.h);
      LinearFits(g.w, g.h, Row(p), Column(p));
      SlotBefore(Linear(g.w, Row(p), Column(p)), Offset(g.h, g.w), PixelSize(g));
    }
  }

  /** ... and do not overlap. */
  lemma PlacesDisjoint(p: Spot, q: Spot, g: Geometry, interlaced: bool)
    requires InPass(p, g.w, g.h) && InPass(q, g.w, g.h) && p != q && ValidGeometry(g)
    ensures Place(p, g, interlaced) + PixelSize(g) <= Place(q, g, interlaced)
         || Place(q, g, interlaced) + PixelSize(g) <= Place(p, g, interlaced)
  {
    if interlaced {
      PassPlacesDisjoint(p, q, g);
    } else {
      PlainPlacesDisjoint(p, q, g);
    }
  }

  lemma PassPlacesDisjoint(p: Spot, q: Spot, g: Geometry)
    requires InPass(p, g.w, g.h) && InPass(q, g.w, g.h) && p != q && ValidGeometry(g)
    ensures Place(p, g, true) + PixelSize(g) <= Place(q, g, true)
            || Place(q, g, true) + PixelSize(g) <= Place(p, g, true)
  {
    hide Base, PixelSize, Offset, Linear, PassW, PassH;
    if p.pass < q.pass {
      PassPlaceFits(p, g);
      BaseMonotone(p.pass + 1, q.pass, g);
    } else if q.pass < p.pass {
      PassPlaceFits(q, g);
      BaseMonotone(q.pass + 1, p.pass, g);
    } else {
      var w := PassW(p.pass, g.w, g.h);
      var m, n := Linear(w, p.y, p.x), Linear(w, q.y, q.x);
      if m == n {
        LinearUnique(w, p.y, p.x, q.y, q.x);
      } else if m < n {
        SlotBefore(m, n, PixelSize(g));
      } else {
        SlotBefore(n, m, PixelSize(g));
      }
    }
  }

  lemma PlainPlacesDisjoint(p: Spot, q: Spot, g: Geometry)
    requires InPass(p, g.w, g.h) && InPass(q, g.w, g.h) && p != q && ValidGeometry(g)
    ensures Place(p, g, false) + PixelSize(g) <= Place(q, g, false)
            || Place(q, g, false) + PixelSize(g) <= Place(p, g, false)
  {
    hide PixelSize, Offset, Linear, Row, Column, SpotOf, PassW, PassH;
    InPassIs(p, g.w, g.h);
    InPassIs(q, g.w, g.h);
    SpotUnique(p);
    SpotUnique(q);
    var m, n := Linear(g.w, Row(p), Column(p)), Linear(g.w, Row(q), Column(q));
    if m == n {
      LinearUnique(g.w, Row(p), Column(p), Row(q), Column(q));
    } else if m < n {
      SlotBefore(m, n, PixelSize(g));
    } else {
      SlotBefore(n, m, PixelSize(g));
    }
  }

  // ---------------------------------------------------------------- where the pixels stand

  /** In the plain buffer: row by row, pixel by pixel. In the interlaced one: row by row in the reduced image. */
  lemma PlaceIs(p: Spot, g: Geometry)
    requires InPass(p, g.w, g.h)
    ensures g.bpp >= 8 ==>
              && Place(p, g, false) == (Row(p) * g.w + Column(p)) * (g.bpp / 8)
              && Place(p, g, true) == PassStart(p.pass, g) + (p.y * PassW(p.pass, g.w, g.h) + p.x) * (g.bpp / 8)
    ensures g.bpp < 8 ==>
              && Place(p, g, false) == (Row(p) * g.w + Column(p)) * g.bpp
              && Place(p, g, true) == 8 * PassStart(p.pass, g) + (p.y * PassW(p.pass, g.w, g.h) + p.x) * g.bpp
  {
    hide PassStart, PassW, PassH;
  }

  /** Earlier passes come first in the interlaced buffer, and in a pass the pixels in the order of the image. */
  lemma InterlacedOrder(p: Spot, q: Spot, g: Geometry)
    requires InPass(p, g.w, g.h) && InPass(q, g.w, g.h) && ValidGeometry(g)
    requires p.pass < q.pass || (p.pass == q.pass && (Row(p) < Row(q) || (Row(p) == Row(q) && Column(p) < Column(q))))
    ensures Place(p, g, true) + PixelSize(g) <= Place(q, g, true)
  {
    if p.pass < q.pass {
      hide Base, PixelSize, Offset, Linear, PassW, PassH;
      PassPlaceFits(p, g);
      BaseMonotone(p.pass + 1, q.pass, g);
    } else {
      PassInOrder(p, q);
      PassInOrder(q, p);
      hide Base, PixelSize, Offset, PassH, Row, Column;
      LinearOrder(PassW(p.pass, g.w, g.h), p.y, p.x, q.y, q.x);
      hide PassW, Linear;
      var w := PassW(p.pass, g.w, g.h);
      SlotBefore(Linear(w, p.y, p.x), Linear(w, q.y, q.x), PixelSize(g));
    }
  }

  lemma LinearOrder(w: nat, r1: nat, c1: nat, r2: nat, c2: nat)
    requires c1 < w && (r1 < r2 || (r1 == r2 && c1 < c2))
    ensures Linear(w, r1, c1) < Linear(w, r2, c2)
  {
    if r1 < r2 {
      OneMore(r1, w);
      MulMonotone(w, r1 + 1, r2);
      assert w * (r1 + 1) == (r1 + 1) * w && w * r2 == r2 * w;
    }
  }

  // ---------------------------------------------------------------- buffers as bytes or as bits

  /** The bits of a buffer, the most significant of every byte first. */
  function MsbStream(s: seq<byte>): (r: seq<nat>)
    ensures |r| == 8 * |s|
  {
    seq(8 * |s|, k requires 0 <= k < 8 * |s| => if BitOf(s[k / 8], 7 - k % 8) then 1 else 0)
  }

  /** A buffer in the unit of its pixels. */
  function Units(s: seq<byte>, bits: bool): (r: seq<nat>)
    ensures |r| == if bits then 8 * |s| else |s|
  {
    if bits then MsbStream(s) else s
  }

  /** Clears bit k of a byte. */
  function ClearBit(b: byte, k: nat): (r: byte)
    requires k < 8
    ensures forall j: nat :: j < 8 ==> BitOf(r, j) == (BitOf(b, j) && j != k)
  {
    if BitOf(b, k) then
      ClearedBits(b, k);
      b - Pow2(k)
    else b
  }

  lemma TakeOff(b: nat, p: nat) returns (c: nat)
    requires p > 0 && b / p % 2 == 1
    ensures c + p == b && c / p % 2 == 0
  {
    var q, r := b / p, b % p;
    assert b == p * q + r && q == 2 * (q / 2) + 1;
    assert p * q == p * (q - 1) + p;
    c := p * (q - 1) + r;
    DivUnique(c, p, q - 1, r);
  }

  lemma ClearedBits(b: byte, k: nat)
    requires k < 8 && BitOf(b, k)
    ensures 0 <= b - Pow2(k) && forall j: nat :: j < 8 ==> BitOf(b - Pow2(k), j) == (BitOf(b, j) && j != k)
  {
    var c := TakeOff(b, Pow2(k));
    hide Pow2;
    forall j: nat | j < 8
      ensures (c / Pow2(j) % 2 == 1) == (b / Pow2(j) % 2 == 1 && j != k)
    {
      OrBitAt(c, k, j);
    }
  }

  /** A byte of the buffer changes in one bit. */
  lemma OneBitChanges(s: seq<byte>, pos: nat, b: byte, bit: bool)
    requires pos < 8 * |s|
    requires forall j: nat :: j < 8 ==> BitOf(b, j) == if j == 7 - pos % 8 then bit else BitOf(s[pos / 8], j)
    ensures MsbStream(s[pos / 8 := b]) == MsbStream(s)[pos := if bit then 1 else 0]
  {
    var t := s[pos / 8 := b];
    forall k | 0 <= k < 8 * |s|
      ensures MsbStream(t)[k] == MsbStream(s)[pos := if bit then 1 else 0][k]
    {
      assert k == 8 * (k / 8) + k % 8 && pos == 8 * (pos / 8) + pos % 8;
    }
  }

  method ReadBitFromReversedStream(bitstream: array<byte>, bitpointer: nat) returns (bit: bool)
    requires bitpointer < 8 * bitstream.Length
    ensures MsbStream(bitstream[..])[bitpointer] == if bit then 1 else 0
  {
    bit := bitstream[bitpointer / 8] / Pow2(7 - bitpointer % 8) % 2 == 1;
  }

  method SetBitOfReversedStream(bitstream: array<byte>, bitpointer: nat, bit: bool)
    requires bitpointer < 8 * bitstream.Length
    modifies bitstream
    ensures MsbStream(bitstream[..]) == old(MsbStream(bitstream[..]))[bitpointer := if bit then 1 else 0]
  {
    hide MsbStream, BitOf;
    var at, k := bitpointer / 8, 7 - bitpointer % 8;
    var b := if bit then OrBit(bitstream[at], k, true) else ClearBit(bitstream[at], k);
    OneBitChanges(bitstream[..], bitpointer, b, bit);
    ghost var after := bitstream[..][at := b];
    bitstream[at] := b;
    assert bitstream[..] == after;
  }

  /** Only sets bits: it needs a bit that is 0 before. */
  method SetBitOfReversedStream0(bitstream: array<byte>, bitpointer: nat, bit: bool)
    requires bitpointer < 8 * bitstream.Length && MsbStream(bitstream[..])[bitpointer] == 0
    modifies bitstream
    ensures MsbStream(bitstream[..]) == old(MsbStream(bitstream[..]))[bitpointer := if bit then 1 else 0]
  {
    var at, k := bitpointer / 8, 7 - bitpointer % 8;
    assert !BitOf(bitstream[at], k);
    hide MsbStream, BitOf;
    if bit {
      var b := OrBit(bitstream[at], k, true);
      OneBitChanges(bitstream[..], bitpointer, b, bit);
      ghost var after := bitstream[..][at := b];
      bitstream[at] := b;
      assert bitstream[..] == after;
    } else {
      OneBitChanges(bitstream[..], bitpointer, bitstream[at], bit);
      assert bitstream[..][at := bitstream[at]] == bitstream[..];
    }
  }

  // ---------------------------------------------------------------- moving pixels

  /** Sizes of the passes and the bytes at which they start. */
  method GetPassValues(g: Geometry) returns (passw: seq<nat>, passh: seq<nat>, passstart: seq<nat>)
    requires ValidGeometry(g)
    ensures |passw| == 7 && |passh| == 7 && |passstart| == 8
    ensures forall i :: 0 <= i < 7 ==> passw[i] == PassW(i, g.w, g.h) && passh[i] == PassH(i, g.w, g.h)
    ensures forall i :: 0 <= i <= 7 ==> passstart[i] == PassStart(i, g)
  {
    passw, passh := PassSizes(g.w, g.h);
    hide PassW, PassH, PassStart;
    NoPassYet(g);
    passstart := [0];
    for i := 0 to 7
      invariant |passstart| == i + 1 && forall k :: 0 <= k <= i ==> passstart[k] == PassStart(k, g)
    {
      NextPassStart(i, g);
      passstart := passstart + [passstart[i] + (passh[i] * passw[i] * g.bpp + 7) / 8];
    }
  }

  lemma NoPassYet(g: Geometry)
    ensures PassStart(0, g) == 0
  {
  }

  lemma NextPassStart(i: nat, g: Geometry)
    requires i < 7
    ensures PassStart(i + 1, g) == PassStart(i, g) + (PassH(i, g.w, g.h) * PassW(i, g.w, g.h) * g.bpp + 7) / 8
  {
    hide PassW, PassH;
  }

  method PassSizes(w: nat, h: nat) returns (passw: seq<nat>, passh: seq<nat>)
    ensures |passw| == |passh| == 7
    ensures forall i :: 0 <= i < 7 ==> passw[i] == PassW(i, w, h) && passh[i] == PassH(i, w, h)
  {
    passw, passh := [], [];
    for i := 0 to 7
      invariant |passw| == |passh| == i
      invariant forall k :: 0 <= k < i ==> passw[k] == PassW(k, w, h) && passh[k] == PassH(k, w, h)
    {
      var a := (w + ADAM7_DX[i] - ADAM7_IX[i] - 1) / ADAM7_DX[i];
      var b := (h + ADAM7_DY[i] - ADAM7_IY[i] - 1) / ADAM7_DY[i];
      assert a == Count(w, ADAM7_DX[i], ADAM7_IX[i]) && b == Count(h, ADAM7_DY[i], ADAM7_IY[i]);
      hide Count;
      if a == 0 {
        b := 0;
      }
      if b == 0 {
        a := 0;
      }
      passw, passh := passw + [a], passh + [b];
    }
  }

  function Patched(u: seq<nat>, at: nat, piece: seq<nat>): (r: seq<nat>)
    requires at + |piece| <= |u|
    ensures |r| == |u|
  {
    u[..at] + piece + u[at + |piece|..]
  }

  lemma PatchedElsewhere(u: seq<nat>, at: nat, piece: seq<nat>, k: nat)
    requires at + |piece| <= k < |u|
    ensures Patched(u, at, piece)[k] == u[k]
  {
  }

  lemma PatchedNothing(u: seq<nat>, at: nat, v: seq<nat>, s: nat)
    requires at <= |u| && s <= |v|
    ensures Patched(u, at, v[s..s + 0]) == u
  {
  }

  /** Copies one pixel; blank says that only bits are set, in a place of zeros. */
  method CopyPixel(out: array<byte>, o: nat, inp: array<byte>, s: nat, n: nat, bits: bool, blank: bool)
    requires out != inp && (blank ==> bits)
    requires o + n <= |Units(out[..], bits)| && s + n <= |Units(inp[..], bits)|
    requires blank ==> forall k :: o <= k < o + n ==> Units(out[..], bits)[k] == 0
    modifies out
    ensures Units(out[..], bits) == Patched(old(Units(out[..], bits)), o, Units(inp[..], bits)[s..s + n])
  {
    hide MsbStream, Units, Patched;
    ghost var before, source := Units(out[..], bits), Units(inp[..], bits);
    PatchedNothing(before, o, source, s);
    for b := 0 to n
      invariant Units(out[..], bits) == Patched(before, o, source[s..s + b])
    {
      ghost var u := Units(out[..], bits);
      PatchedElsewhere(before, o, source[s..s + b], o + b);
      CopyUnit(out, o + b, inp, s + b, bits, blank);
      PatchedNext(before, o, source, s, b);
    }
  }

  /** Copies one byte or one bit. */
  method CopyUnit(out: array<byte>, o: nat, inp: array<byte>, s: nat, bits: bool, blank: bool)
    requires out != inp && (blank ==> bits)
    requires o < |Units(out[..], bits)| && s < |Units(inp[..], bits)|
    requires blank ==> Units(out[..], bits)[o] == 0
    modifies out
    ensures Units(out[..], bits) == old(Units(out[..], bits))[o := Units(inp[..], bits)[s]]
  {
    hide MsbStream;
    if !bits {
      out[o] := inp[s];
    } else {
      var bit := ReadBitFromReversedStream(inp, s);
      if blank {
        SetBitOfReversedStream0(out, o, bit);
      } else {
        SetBitOfReversedStream(out, o, bit);
      }
    }
  }

  lemma PatchedNext(u: seq<nat>, o: nat, v: seq<nat>, s: nat, b: nat)
    requires o + b < |u| && s + b < |v|
    ensures Patched(u, o, v[s..s + b])[o + b := v[s + b]] == Patched(u, o, v[s..s + (b + 1)])
  {
  }

  /** The order in which pixels are moved. */
  predicate Before(p: Spot, c: Spot)
  {
    p.pass < c.pass || (p.pass == c.pass && (p.y < c.y || (p.y == c.y && p.x < c.x)))
  }

  predicate SamePixel(u: seq<nat>, i: nat, v: seq<nat>, j: nat, n: nat)
  {
    i + n <= |u| && j + n <= |v| && u[i..i + n] == v[j..j + n]
  }

  predicate Zeros(u: seq<nat>, i: nat, n: nat)
  {
    i + n <= |u| && forall k :: i <= k < i + n ==> u[k] == 0
  }

  /** The pixels before c are moved: to the interlaced order, or back from it. */
  ghost predicate Moved(u: seq<nat>, v: seq<nat>, g: Geometry, interlaced: bool, c: Spot)
  {
    forall p: Spot :: InPass(p, g.w, g.h) && Before(p, c) ==>
      SamePixel(u, Place(p, g, interlaced), v, Place(p, g, !interlaced), PixelSize(g))
  }

  ghost predicate BlankFrom(u: seq<nat>, g: Geometry, interlaced: bool, c: Spot)
  {
    forall p: Spot :: InPass(p, g.w, g.h) && !Before(p, c) ==> Zeros(u, Place(p, g, interlaced), PixelSize(g))
  }

  /** Both buffers have room for all pixels. */
  predicate RoomFor(u: seq<nat>, v: seq<nat>, g: Geometry, interlaced: bool)
  {
    Total(g, interlaced) <= |u| && Total(g, !interlaced) <= |v|
  }

  lemma MovedNext(u: seq<nat>, v: seq<nat>, g: Geometry, interlaced: bool, c: Spot, blank: bool)
    requires ValidGeometry(g) && InPass(c, g.w, g.h) && RoomFor(u, v, g, interlaced)
    requires Moved(u, v, g, interlaced, c) && (blank ==> BlankFrom(u, g, interlaced, c))
    ensures Place(c, g, interlaced) + PixelSize(g) <= |u| && Place(c, g, !interlaced) + PixelSize(g) <= |v|
    ensures blank ==> Zeros(u, Place(c, g, interlaced), PixelSize(g))
    ensures var u' :=
            Patched(u, Place(c, g, interlaced), v[Place(c, g, !interlaced)..Place(c, g, !interlaced) + PixelSize(g)]);
            && Moved(u', v, g, interlaced, c.(x := c.x + 1))
            && (blank ==> BlankFrom(u', g, interlaced, c.(x := c.x + 1)))
  {
    hide Place, Total, PixelSize, InPass, ValidGeometry, SamePixel, Zeros, Patched;
    PlaceFits(c, g, interlaced);
    PlaceFits(c, g, !interlaced);
    var n, at, from := PixelSize(g), Place(c, g, interlaced), Place(c, g, !interlaced);
    var u' := Patched(u, at, v[from..from + n]);
    PatchedIsCopy(u, at, v, from, n);
    var c' := c.(x := c.x + 1);
    forall p: Spot | InPass(p, g.w, g.h) && p != c
      ensures Before(p, c') == Before(p, c)
      ensures Before(p, c) ==> SamePixel(u', Place(p, g, interlaced), v, Place(p, g, !interlaced), n)
      ensures blank && !Before(p, c) ==> Zeros(u', Place(p, g, interlaced), n)
    {
      PlacesDisjoint(p, c, g, interlaced);
      PlaceFits(p, g, interlaced);
      PixelKept(u, u', at, Place(p, g, interlaced), v, Place(p, g, !interlaced), n);
    }
    assert Before(c, c');
  }

  lemma PixelKept(u: seq<nat>, u': seq<nat>, at: nat, i: nat, v: seq<nat>, j: nat, n: nat)
    requires |u'| == |u| && i + n <= |u| && (at + n <= i || i + n <= at)
    requires forall k :: 0 <= k < |u| && !(at <= k < at + n) ==> u'[k] == u[k]
    ensures SamePixel(u, i, v, j, n) ==> SamePixel(u', i, v, j, n)
    ensures Zeros(u, i, n) ==> Zeros(u', i, n)
  {
    assert u'[i..i + n] == u[i..i + n];
  }

  lemma PatchedIsCopy(u: seq<nat>, at: nat, v: seq<nat>, from: nat, n: nat)
    requires at + n <= |u| && from + n <= |v|
    ensures SamePixel(Patched(u, at, v[from..from + n]), at, v, from, n)
    ensures forall k :: 0 <= k < |u| && !(at <= k < at + n) ==> Patched(u, at, v[from..from + n])[k] == u[k]
  {
  }

  /** Two places in the order with no pixel between them. */
  lemma MovedSame(u: seq<nat>, v: seq<nat>, g: Geometry, interlaced: bool, c: Spot, c': Spot, blank: bool)
    requires Moved(u, v, g, interlaced, c) && (blank ==> BlankFrom(u, g, interlaced, c))
    requires forall p: Spot :: InPass(p, g.w, g.h) ==> Before(p, c) == Before(p, c')
    ensures Moved(u, v, g, interlaced, c') && (blank ==> BlankFrom(u, g, interlaced, c'))
  {
    hide InPass, Before, Place, PixelSize;
  }

  /** The pixels of one pass, row by row. */
  method MovePass(out: array<byte>, inp: array<byte>, g: Geometry, interlaced: bool, blank: bool, i: nat,
                  passw: nat, passh: nat, passstart: nat, ghost v: seq<nat>)
    requires out != inp && ValidGeometry(g) && i < 7 && (blank ==> g.bpp < 8)
    requires passw == PassW(i, g.w, g.h) && passh == PassH(i, g.w, g.h) && passstart == PassStart(i, g)
    requires v == Units(inp[..], g.bpp < 8) && RoomFor(Units(out[..], g.bpp < 8), v, g, interlaced)
    requires Moved(Units(out[..], g.bpp < 8), v, g, interlaced, Spot(i, 0, 0))
    requires blank ==> BlankFrom(Units(out[..], g.bpp < 8), g, interlaced, Spot(i, 0, 0))
    modifies out
    ensures Moved(Units(out[..], g.bpp < 8), v, g, interlaced, Spot(i + 1, 0, 0))
    ensures blank ==> BlankFrom(Units(out[..], g.bpp < 8), g, interlaced, Spot(i + 1, 0, 0))
  {
    hide Units, Moved, BlankFrom, PassW, PassH, PassStart, ValidGeometry, Total, Place, PixelSize, Patched;
    var bits, n := g.bpp < 8, PixelSize(g);
    for y := 0 to passh
      invariant Moved(Units(out[..], bits), v, g, interlaced, Spot(i, y, 0))
      invariant blank ==> BlankFrom(Units(out[..], bits), g, interlaced, Spot(i, y, 0))
    {
      for x := 0 to passw
        invariant Moved(Units(out[..], bits), v, g, interlaced, Spot(i, y, x))
        invariant blank ==> BlankFrom(Units(out[..], bits), g, interlaced, Spot(i, y, x))
      {
        ghost var c := Spot(i, y, x);
        var inter, plain := PixelPlaces(i, y, x, g, passw, passstart);
        MovedNext(Units(out[..], bits), v, g, interlaced, c, blank);
        CopyPixel(out, if interlaced then inter else plain, inp, if interlaced then plain else inter, n, bits, blank);
      }
      MovedSame(Units(out[..], bits), v, g, interlaced, Spot(i, y, passw), Spot(i, y + 1, 0), blank);
    }
    MovedSame(Units(out[..], bits), v, g, interlaced, Spot(i, passh, 0), Spot(i + 1, 0, 0), blank);
  }

  method PixelPlaces(i: nat, y: nat, x: nat, g: Geometry, passw: nat, passstart: nat) returns (inter: nat, plain: nat)
    requires i < 7 && passw == PassW(i, g.w, g.h) && passstart == PassStart(i, g)
    ensures inter == Place(Spot(i, y, x), g, true) && plain == Place(Spot(i, y, x), g, false)
  {
    hide PassStart, PassW, Offset, Linear;
    var n := if g.bpp >= 8 then g.bpp / 8 else g.bpp;
    var pixel := (ADAM7_IY[i] + y * ADAM7_DY[i]) * g.w + ADAM7_IX[i] + x * ADAM7_DX[i];
    PixelNumber(Spot(i, y, x), g.w, pixel);
    LinearIs(passw, y, x);
    var inPass := y * passw + x;
    inter := (if g.bpp >= 8 then passstart else 8 * passstart) + inPass * n;
    plain := pixel * n;
    OffsetIs(pixel, n);
    OffsetIs(inPass, n);
  }

  lemma LinearIs(w: nat, r: nat, c: nat)
    ensures r * w + c == Linear(w, r, c)
  {
  }

  lemma OffsetIs(n: nat, u: nat)
    ensures n * u == Offset(n, u)
  {
  }

  lemma PixelNumber(p: Spot, w: nat, pixel: int)
    requires p.pass < 7
    requires pixel == (ADAM7_IY[p.pass] + p.y * ADAM7_DY[p.pass]) * w + ADAM7_IX[p.pass] + p.x * ADAM7_DX[p.pass]
    ensures pixel == Linear(w, Row(p), Column(p))
  {
  }

  /** All seven passes. */
  method MovePixels(out: array<byte>, inp: array<byte>, g: Geometry, interlaced: bool, blank: bool)
    requires out != inp && ValidGeometry(g) && (blank ==> g.bpp < 8)
    requires RoomFor(Units(out[..], g.bpp < 8), Units(inp[..], g.bpp < 8), g, interlaced)
    requires blank ==> forall k :: 0 <= k < out.Length ==> out[k] == 0
    modifies out
    ensures Moved(Units(out[..], g.bpp < 8), Units(inp[..], g.bpp < 8), g, interlaced, Spot(7, 0, 0))
  {
    var passw, passh, passstart := GetPassValues(g);
    ghost var v := Units(inp[..], g.bpp < 8);
    if blank {
      ZeroBuffer(out[..], g, interlaced);
    }
    hide Moved, BlankFrom, PassW, PassH, PassStart, ValidGeometry, Total, Place, PixelSize, MsbStream;
    assert Moved(Units(out[..], g.bpp < 8), v, g, interlaced, Spot(0, 0, 0)) by {
      NothingMoved(Units(out[..], g.bpp < 8), v, g, interlaced);
    }
    for i := 0 to 7
      invariant Moved(Units(out[..], g.bpp < 8), v, g, interlaced, Spot(i, 0, 0))
      invariant blank ==> BlankFrom(Units(out[..], g.bpp < 8), g, interlaced, Spot(i, 0, 0))
    {
      MovePass(out, inp, g, interlaced, blank, i, passw[i], passh[i], passstart[i], v);
    }
  }

  lemma NothingMoved(u: seq<nat>, v: seq<nat>, g: Geometry, interlaced: bool)
    ensures Moved(u, v, g, interlaced, Spot(0, 0, 0))
  {
  }

  lemma ZeroBuffer(s: seq<byte>, g: Geometry, interlaced: bool)
    requires ValidGeometry(g) && Total(g, interlaced) <= |Units(s, true)|
    requires forall k :: 0 <= k < |s| ==> s[k] == 0
    ensures BlankFrom(Units(s, true), g, interlaced, Spot(0, 0, 0))
  {
    forall k | 0 <= k < 8 * |s|
      ensures MsbStream(s)[k] == 0
    {
      assert s[k / 8] == 0;
    }
    hide MsbStream, Total, Place, PixelSize, InPass;
    forall p: Spot | InPass(p, g.w, g.h)
      ensures Zeros(Units(s, true), Place(p, g, interlaced), PixelSize(g))
    {
      PlaceFits(p, g, interlaced);
    }
  }

  method Adam7Interlace(out: array<byte>, inp: array<byte>, g: Geometry)
    requires out != inp && ValidGeometry(g)
    requires RoomFor(Units(out[..], g.bpp < 8), Units(inp[..], g.bpp < 8), g, true)
    modifies out
    ensures Moved(Units(out[..], g.bpp < 8), Units(inp[..], g.bpp < 8), g, true, Spot(7, 0, 0))
  {
    MovePixels(out, inp, g, true, false);
  }

  /** Needs an output of zeros for pixels smaller than a byte. */
  method Adam7Deinterlace(out: array<byte>, inp: array<byte>, g: Geometry)
    requires out != inp && ValidGeometry(g)
    requires RoomFor(Units(out[..], g.bpp < 8), Units(inp[..], g.bpp < 8), g, false)
    requires g.bpp < 8 ==> forall k :: 0 <= k < out.Length ==> out[k] == 0
    modifies out
    ensures Moved(Units(out[..], g.bpp < 8), Units(inp[..], g.bpp < 8), g, false, Spot(7, 0, 0))
  {
    MovePixels(out, inp, g, false, g.bpp < 8);
  }

  // ---------------------------------------------------------------- there and back

  /** The image has the same pixels after interlacing and deinterlacing. */
  lemma DeinterlaceInterlace(image: seq<nat>, inter: seq<nat>, result: seq<nat>, g: Geometry)
    requires ValidGeometry(g) && Total(g, false) <= |image| && Total(g, false) <= |result|
    requires Moved(inter, image, g, true, Spot(7, 0, 0)) && Moved(result, inter, g, false, Spot(7, 0, 0))
    ensures result[..Total(g, false)] == image[..Total(g, false)]
  {
    forall k | 0 <= k < Total(g, false)
      ensures result[k] == image[k]
    {
      UnitKept(image, inter, result, g, k);
    }
  }

  /** Every unit of the image belongs to a pixel. */
  lemma PixelOfUnit(g: Geometry, k: nat) returns (p: Spot)
    requires ValidGeometry(g) && k < Total(g, false)
    ensures InPass(p, g.w, g.h) && Place(p, g, false) <= k < Place(p, g, false) + PixelSize(g)
  {
    hide InPass, Row, Column, SpotOf;
    var n := PixelSize(g);
    var pixel := k / n;
    QuotientBelow(k, n, Offset(g.h, g.w));
    QuotientBelow(pixel, g.w, g.h);
    SpotOfPixel(pixel / g.w, pixel % g.w);
    p := SpotOf(pixel / g.w, pixel % g.w);
    InPassIs(p, g.w, g.h);
  }

  lemma QuotientBelow(k: nat, n: nat, m: nat)
    requires k < Offset(m, n)
    ensures n > 0 && k / n < m && Offset(k / n, n) <= k < Offset(k / n, n) + n && k == Linear(n, k / n, k % n)
  {
    assert n > 0;
    var q := k / n;
    assert k == n * q + k % n && n * q == q * n && n * m == m * n;
    if q >= m {
      MulMonotone(n, m, q);
    }
  }

  lemma UnitKept(image: seq<nat>, inter: seq<nat>, result: seq<nat>, g: Geometry, k: nat)
    requires ValidGeometry(g) && k < Total(g, false) && Total(g, false) <= |image| && Total(g, false) <= |result|
    requires Moved(inter, image, g, true, Spot(7, 0, 0)) && Moved(result, inter, g, false, Spot(7, 0, 0))
    ensures result[k] == image[k]
  {
    var p := PixelOfUnit(g, k);
    hide InPass, Place, PixelSize, Total, ValidGeometry;
    var n, a, b := PixelSize(g), Place(p, g, false), Place(p, g, true);
    assert SamePixel(inter, b, image, a, n) && SamePixel(result, a, inter, b, n);
    assert result[k] == result[a..a + n][k - a] && image[k] == image[a..a + n][k - a];
  }

  /** Interlaces into a buffer and deinterlaces into another: the image comes back, for every size and depth. */
  method RoundTrip(image: array<byte>, inter: array<byte>, result: array<byte>, g: Geometry)
    requires ValidGeometry(g) && image != inter && inter != result && image != result
    requires RoomFor(Units(inter[..], g.bpp < 8), Units(image[..], g.bpp < 8), g, true)
    requires |result[..]| == |image[..]|
    requires g.bpp < 8 ==> forall k :: 0 <= k < result.Length ==> result[k] == 0
    modifies inter, result
    ensures Total(g, false) <= |Units(result[..], g.bpp < 8)| == |Units(image[..], g.bpp < 8)|
    ensures Units(result[..], g.bpp < 8)[..Total(g, false)] == Units(image[..], g.bpp < 8)[..Total(g, false)]
  {
    hide Total, Moved, ValidGeometry, MsbStream;
    Adam7Interlace(inter, image, g);
    Adam7Deinterlace(result, inter, g);
    DeinterlaceInterlace(Units(image[..], g.bpp < 8), Units(inter[..], g.bpp < 8), Units(result[..], g.bpp < 8), g);
  }
}

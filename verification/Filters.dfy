/** The five scanline filters of PNG and their inverses, clause 9 of the PNG specification, second edition. */
module Filters {
  import opened Powers
  import opened Bits

  /** The line before, if there is one; before the first line the specification puts zeros. */
  datatype Prior = First | After(line: seq<byte>)

  function Above(prior: Prior, i: nat): byte
  {
    if prior.After? && i < |prior.line| then prior.line[i] else 0
  }

  // ---------------------------------------------------------------- predictors

  function Abs(x: int): nat
  {
    if x < 0 then -x else x
  }

  /** The source's predictor. */
  function PaethPredictor(a: byte, b: byte, c: byte): (r: byte)
    ensures r == Paeth(a, b, c)
  {
    var pa, pb, pc := Abs(b - c), Abs(a - c), Abs(a + b - c - c);
    if pc < pa && pc < pb then c else if pb < pa then b else a
  }

  /** Clause 9.4: of left, above and upper left the one nearest to their linear estimate, in this order. */
  function Paeth(a: byte, b: byte, c: byte): byte
  {
    var p := a + b - c;
    var pa, pb, pc := Abs(p - a), Abs(p - b), Abs(p - c);
    if pa <= pb && pa <= pc then a else if pb <= pc then b else c
  }

  /** What a filter type predicts for byte i of a line: from the bytes to the left, above and upper left. */
  function Predict(filterType: nat, left: seq<byte>, prior: Prior, i: nat, w: nat): byte
    requires i <= |left| && 0 < w
  {
    var a := if i >= w then left[i - w] else 0;
    var b := Above(prior, i);
    var c := if i >= w then Above(prior, i - w) else 0;
    match filterType
    case 1 => a
    case 2 => b
    case 3 => (a + b) / 2
    case 4 => Paeth(a, b, c)
    case _ => 0
  }

  /** The prediction as the source computes it, with its shortcuts for the first pixel and the first line. */
  function Shortcut(filterType: nat, firstPixel: bool, firstLine: bool, a: byte, b: byte, c: byte): byte
  {
    match filterType
    case 1 => if firstPixel then 0 else a
    case 2 => if firstLine then 0 else b
    case 3 =>
      if firstLine then (if firstPixel then 0 else a / 2)
      else if firstPixel then b / 2
      else (a + b) / 2
    case 4 =>
      if firstLine then (if firstPixel then 0 else a)
      else if firstPixel then b
      else PaethPredictor(a, b, c)
    case _ => 0
  }

  lemma ShortcutIsPrediction(filterType: nat, left: seq<byte>, prior: Prior, i: nat, w: nat, a: byte, b: byte, c: byte)
    requires i <= |left| && 0 < w && (prior.After? ==> i < |prior.line|)
    requires i >= w ==> a == left[i - w]
    requires prior.After? ==> b == prior.line[i] && (i >= w ==> c == prior.line[i - w])
    ensures Shortcut(filterType, i < w, prior.First?, a, b, c) == Predict(filterType, left, prior, i, w)
  {
  }

  // ---------------------------------------------------------------- lines

  function Filtered(line: seq<byte>, prior: Prior, w: nat, filterType: nat): (r: seq<byte>)
    requires 0 < w
    ensures |r| == |line|
  {
    seq<byte>(|line|, i requires 0 <= i < |line| => (line[i] - Predict(filterType, line, prior, i, w)) % 256)
  }

  function Unfiltered(f: seq<byte>, prior: Prior, w: nat, filterType: nat): (r: seq<byte>)
    requires 0 < w
    ensures |r| == |f|
  {
    if f == [] then []
    else
      var front := Unfiltered(f[..|f| - 1], prior, w, filterType);
      front + [(f[|f| - 1] + Predict(filterType, front, prior, |front|, w)) % 256]
  }

  lemma PredictPrefix(filterType: nat, left: seq<byte>, prior: Prior, i: nat, w: nat)
    requires i <= |left| && 0 < w
    ensures Predict(filterType, left[..i], prior, i, w) == Predict(filterType, left, prior, i, w)
  {
  }

  lemma FilteredPrefix(line: seq<byte>, prior: Prior, w: nat, filterType: nat, n: nat)
    requires 0 < w && n <= |line|
    ensures Filtered(line, prior, w, filterType)[..n] == Filtered(line[..n], prior, w, filterType)
  {
    forall i | 0 <= i < n
      ensures Filtered(line, prior, w, filterType)[i] == Filtered(line[..n], prior, w, filterType)[i]
    {
      PredictPrefix(filterType, line, prior, i, w);
      PredictPrefix(filterType, line[..n], prior, i, w);
      assert line[..n][..i] == line[..i];
    }
  }

  /** Unfiltering undoes filtering, for every line, line before, pixel width and type. */
  lemma {:induction false} UnfilterFilter(line: seq<byte>, prior: Prior, w: nat, filterType: nat)
    requires 0 < w
    ensures Unfiltered(Filtered(line, prior, w, filterType), prior, w, filterType) == line
  {
    if line != [] {
      var n := |line| - 1;
      var f, front := Filtered(line, prior, w, filterType), line[..n];
      hide Predict, Filtered, Unfiltered;
      FilteredPrefix(line, prior, w, filterType, n);
      UnfilterFilter(front, prior, w, filterType);
      UnfilterNext(f, prior, w, filterType, n);
      FilteredAt(line, prior, w, filterType, n);
      PredictPrefix(filterType, line, prior, n, w);
      SubAdd(line[n], Predict(filterType, line, prior, n, w));
      assert line == front + [line[n]] && f[..n + 1] == f;
    }
  }

  lemma FilteredAt(line: seq<byte>, prior: Prior, w: nat, filterType: nat, i: nat)
    requires 0 < w && i < |line|
    ensures Filtered(line, prior, w, filterType)[i] == (line[i] - Predict(filterType, line, prior, i, w)) % 256
  {
  }

  lemma SubAdd(x: byte, p: byte)
    ensures ((x - p) % 256 + p) % 256 == x && ((x + p) % 256 - p) % 256 == x
  {
  }

  lemma {:induction false} UnfilteredPrefix(f: seq<byte>, prior: Prior, w: nat, filterType: nat, n: nat)
    requires 0 < w && n <= |f|
    ensures Unfiltered(f, prior, w, filterType)[..n] == Unfiltered(f[..n], prior, w, filterType)
  {
    if n == |f| {
      assert f[..n] == f;
    } else {
      UnfilteredPrefix(f[..|f| - 1], prior, w, filterType, n);
      assert f[..|f| - 1][..n] == f[..n];
    }
  }

  /** And filtering undoes unfiltering: every filtered line is the image of exactly one line. */
  lemma FilterUnfilter(f: seq<byte>, prior: Prior, w: nat, filterType: nat)
    requires 0 < w
    ensures Filtered(Unfiltered(f, prior, w, filterType), prior, w, filterType) == f
  {
    hide Predict, Filtered, Unfiltered;
    var line := Unfiltered(f, prior, w, filterType);
    forall i | 0 <= i < |f|
      ensures Filtered(line, prior, w, filterType)[i] == f[i]
    {
      UnfilteredPrefix(f, prior, w, filterType, i);
      UnfilteredPrefix(f, prior, w, filterType, i + 1);
      UnfilterNext(f, prior, w, filterType, i);
      assert line[i] == line[..i + 1][i];
      PredictPrefix(filterType, line, prior, i, w);
      FilteredAt(line, prior, w, filterType, i);
      SubAdd(f[i], Predict(filterType, line, prior, i, w));
    }
  }

  // ---------------------------------------------------------------- the equations of clause 9.2

  /** The distance of two numbers. */
  predicate Apart(d: int, x: int, y: int)
  {
    d >= 0 && (d == x - y || d == y - x)
  }

  /** What the types predict from the bytes to the left, above and to the upper left. */
  lemma Predictions(left: seq<byte>, prior: Prior, w: nat, i: nat, a: int, b: int, c: int, da: int, db: int, dc: int)
    requires 0 < w && i <= |left|
    requires a == if i >= w then left[i - w] else 0
    requires b == if prior.After? && i < |prior.line| then prior.line[i] else 0
    requires c == if i >= w && prior.After? && i - w < |prior.line| then prior.line[i - w] else 0
    requires Apart(da, a + b - c, a) && Apart(db, a + b - c, b) && Apart(dc, a + b - c, c)
    ensures Predict(0, left, prior, i, w) == 0 && Predict(1, left, prior, i, w) == a
    ensures Predict(2, left, prior, i, w) == b && Predict(3, left, prior, i, w) == (a + b) / 2
    ensures da <= db && da <= dc ==> Predict(4, left, prior, i, w) == a
    ensures db < da && db <= dc ==> Predict(4, left, prior, i, w) == b
    ensures dc < da && dc < db ==> Predict(4, left, prior, i, w) == c
  {
    assert Above(prior, i) == b && (if i >= w then Above(prior, i - w) else 0) == c;
    hide Above;
  }

  /**
   * Byte i of a reconstructed line r, from the filtered line f: left, up and upLeft are bytes of r and of the line
   * above, and 0 outside; dl, du and dul are their distances to left + up - upLeft.
   */
  lemma Reconstruction(f: seq<byte>, prior: Prior, w: nat, i: nat, filterType: nat, r: seq<byte>,
                       left: int, up: int, upLeft: int, dl: int, du: int, dul: int)
    requires 0 < w && i < |f| && r == Unfiltered(f, prior, w, filterType)
    requires left == if i >= w then r[i - w] else 0
    requires up == if prior.After? && i < |prior.line| then prior.line[i] else 0
    requires upLeft == if i >= w && prior.After? && i - w < |prior.line| then prior.line[i - w] else 0
    requires dl >= 0 && (dl == up - upLeft || dl == upLeft - up)
    requires du >= 0 && (du == left - upLeft || du == upLeft - left)
    requires dul >= 0 && (dul == left + up - 2 * upLeft || dul == 2 * upLeft - left - up)
    ensures filterType == 0 ==> r[i] == f[i]
    ensures filterType == 1 ==> r[i] == (f[i] + left) % 256
    ensures filterType == 2 ==> r[i] == (f[i] + up) % 256
    ensures filterType == 3 ==> r[i] == (f[i] + (left + up) / 2) % 256
    ensures filterType == 4 && dl <= du && dl <= dul ==> r[i] == (f[i] + left) % 256
    ensures filterType == 4 && du < dl && du <= dul ==> r[i] == (f[i] + up) % 256
    ensures filterType == 4 && dul < dl && dul < du ==> r[i] == (f[i] + upLeft) % 256
  {
    hide Predict, Unfiltered;
    UnfilteredPrefix(f, prior, w, filterType, i);
    UnfilteredPrefix(f, prior, w, filterType, i + 1);
    UnfilterNext(f, prior, w, filterType, i);
    assert r[i] == r[..i + 1][i];
    PredictPrefix(filterType, r, prior, i, w);
    Predictions(r, prior, w, i, left, up, upLeft, dl, du, dul);
  }

  /** Byte i of a filtered line f, from the line itself. */
  lemma Filtering(line: seq<byte>, prior: Prior, w: nat, i: nat, filterType: nat, f: seq<byte>,
                  left: int, up: int, upLeft: int, dl: int, du: int, dul: int)
    requires 0 < w && i < |line| && f == Filtered(line, prior, w, filterType)
    requires left == if i >= w then line[i - w] else 0
    requires up == if prior.After? && i < |prior.line| then prior.line[i] else 0
    requires upLeft == if i >= w && prior.After? && i - w < |prior.line| then prior.line[i - w] else 0
    requires dl >= 0 && (dl == up - upLeft || dl == upLeft - up)
    requires du >= 0 && (du == left - upLeft || du == upLeft - left)
    requires dul >= 0 && (dul == left + up - 2 * upLeft || dul == 2 * upLeft - left - up)
    ensures filterType == 0 ==> f[i] == line[i]
    ensures filterType == 1 ==> f[i] == (line[i] - left) % 256
    ensures filterType == 2 ==> f[i] == (line[i] - up) % 256
    ensures filterType == 3 ==> f[i] == (line[i] - (left + up) / 2) % 256
    ensures filterType == 4 && dl <= du && dl <= dul ==> f[i] == (line[i] - left) % 256
    ensures filterType == 4 && du < dl && du <= dul ==> f[i] == (line[i] - up) % 256
    ensures filterType == 4 && dul < dl && dul < du ==> f[i] == (line[i] - upLeft) % 256
  {
    hide Predict, Filtered;
    FilteredAt(line, prior, w, filterType, i);
    Predictions(line, prior, w, i, left, up, upLeft, dl, du, dul);
  }

  // ---------------------------------------------------------------- one line in a buffer

  method FilterScanline(out: array<byte>, o: nat, scanline: seq<byte>, prior: Prior, bytewidth: nat, filterType: nat)
    requires filterType <= 4 && 0 < bytewidth <= |scanline| && o + |scanline| <= out.Length
    requires prior.After? ==> |prior.line| == |scanline|
    modifies out
    ensures out[o..o + |scanline|] == Filtered(scanline, prior, bytewidth, filterType)
    ensures forall k :: 0 <= k < out.Length && !(o <= k < o + |scanline|) ==> out[k] == old(out[k])
  {
    hide Predict, Shortcut;
    var length := |scanline|;
    for i := 0 to length
      invariant forall k :: 0 <= k < i ==> out[o + k] == Filtered(scanline, prior, bytewidth, filterType)[k]
      invariant forall k :: 0 <= k < out.Length && !(o <= k < o + i) ==> out[k] == old(out[k])
    {
      var a := if i >= bytewidth then scanline[i - bytewidth] else 0;
      var b := if prior.After? then prior.line[i] else 0;
      var c := if prior.After? && i >= bytewidth then prior.line[i - bytewidth] else 0;
      ShortcutIsPrediction(filterType, scanline, prior, i, bytewidth, a, b, c);
      out[o + i] := (scanline[i] - Shortcut(filterType, i < bytewidth, prior.First?, a, b, c)) % 256;
    }
  }

  /** The line in out before position o, if there is one. */
  ghost function LineBefore(out: seq<byte>, o: nat, length: nat, firstLine: bool): Prior
    requires !firstLine ==> length <= o <= |out|
  {
    if firstLine then First else After(out[o - length..o])
  }

  /**
   * Reconstructs a line. The filtered line may be in the same buffer, at the same place or behind it: every byte is
   * read before it is overwritten, so the result is that of two separate buffers.
   */
  method UnfilterScanline(out: array<byte>, o: nat, inp: array<byte>, s: nat, firstLine: bool, bytewidth: nat,
                          filterType: nat, length: nat) returns (error: nat)
    requires 0 < bytewidth <= length && o + length <= out.Length && s + length <= inp.Length
    requires out == inp ==> o <= s
    requires !firstLine ==> length <= o
    modifies out
    ensures error == if filterType <= 4 then 0 else 36
    ensures filterType <= 4 ==>
              out[o..o + length] ==
              Unfiltered(old(inp[s..s + length]), LineBefore(old(out[..]), o, length, firstLine), bytewidth, filterType)
    ensures forall k :: 0 <= k < out.Length && !(o <= k < o + length) ==> out[k] == old(out[k])
  {
    if filterType > 4 {
      return 36;
    }
    ReconLine(out, o, inp, s, firstLine, bytewidth, filterType, length);
    error := 0;
  }

  method ReconLine(out: array<byte>, o: nat, inp: array<byte>, s: nat, firstLine: bool, bytewidth: nat,
                   filterType: nat, length: nat)
    requires 0 < bytewidth <= length && o + length <= out.Length && s + length <= inp.Length
    requires (out == inp ==> o <= s) && (!firstLine ==> length <= o)
    modifies out
    ensures out[o..o + length] ==
            Unfiltered(old(inp[s..s + length]), LineBefore(old(out[..]), o, length, firstLine), bytewidth, filterType)
    ensures forall k :: 0 <= k < out.Length && !(o <= k < o + length) ==> out[k] == old(out[k])
  {
    hide Predict, Unfiltered, LineBefore;
    ghost var f := inp[s..s + length];
    ghost var prior := LineBefore(out[..], o, length, firstLine);
    NoneUnfiltered(prior, bytewidth, filterType);
    for i := 0 to length
      invariant forall k :: i <= k < length ==> inp[s + k] == f[k]
      invariant forall k :: 0 <= k < o || o + i <= k < out.Length ==> out[k] == old(out[k])
      invariant out[o..o + i] == Unfiltered(f[..i], prior, bytewidth, filterType)
    {
      ghost var front := out[o..o + i];
      BeforeStays(old(out[..]), out[..], o, length, firstLine);
      var value := ReconByte(out, o, inp[s + i], i, firstLine, bytewidth, filterType, length, prior);
      UnfilterNext(f, prior, bytewidth, filterType, i);
      out[o + i] := value;
      assert out[o..o + (i + 1)] == front + [value];
    }
    assert f[..length] == f;
  }

  lemma NoneUnfiltered(prior: Prior, w: nat, filterType: nat)
    requires 0 < w
    ensures Unfiltered([], prior, w, filterType) == []
  {
  }

  lemma BeforeStays(a: seq<byte>, b: seq<byte>, o: nat, length: nat, firstLine: bool)
    requires |a| == |b| && o <= |a| && (!firstLine ==> length <= o)
    requires forall k :: 0 <= k < o ==> b[k] == a[k]
    ensures LineBefore(b, o, length, firstLine) == LineBefore(a, o, length, firstLine)
  {
  }

  /** Byte i of a line whose first i bytes are reconstructed. */
  method ReconByte(out: array<byte>, o: nat, x: byte, i: nat, firstLine: bool, bytewidth: nat, filterType: nat,
                   length: nat, ghost prior: Prior) returns (value: byte)
    requires 0 < bytewidth && i < length && o + length <= out.Length && (!firstLine ==> length <= o)
    requires prior == LineBefore(out[..], o, length, firstLine)
    ensures value == (x + Predict(filterType, out[o..o + i], prior, i, bytewidth)) % 256
  {
    hide Predict, Shortcut;
    var a := if i >= bytewidth then out[o + i - bytewidth] else 0;
    var b := if firstLine then 0 else out[o - length + i];
    var c := if !firstLine && i >= bytewidth then out[o - length + i - bytewidth] else 0;
    ShortcutIsPrediction(filterType, out[o..o + i], prior, i, bytewidth, a, b, c);
    value := (x + Shortcut(filterType, i < bytewidth, firstLine, a, b, c)) % 256;
  }

  lemma UnfilterNext(f: seq<byte>, prior: Prior, w: nat, filterType: nat, i: nat)
    requires 0 < w && i < |f|
    ensures var front := Unfiltered(f[..i], prior, w, filterType);
            Unfiltered(f[..i + 1], prior, w, filterType) ==
            front + [(f[i] + Predict(filterType, front, prior, i, w)) % 256]
  {
    assert f[..i + 1][..i] == f[..i];
  }

  // ---------------------------------------------------------------- whole images

  /** A reconstructed image, or a filter type that does not exist. */
  datatype Image = Image(bytes: seq<byte>) | BadFilter

  /** Line y of an image of lines of L bytes. */
  function Line(img: seq<byte>, L: nat, y: nat): (r: seq<byte>)
    requires (y + 1) * L <= |img|
    ensures |r| == L
  {
    assert (y + 1) * L == y * L + L;
    img[y * L..y * L + L]
  }

  function PriorLine(img: seq<byte>, L: nat, y: nat): Prior
    requires y * L <= |img|
  {
    if y == 0 then First else After(Line(img, L, y - 1))
  }

  /** The first h lines, each behind its filter type. */
  function FilterRows(img: seq<byte>, types: seq<nat>, L: nat, w: nat, h: nat): (r: seq<byte>)
    requires h * L <= |img| && h <= |types| && 0 < w && forall y :: 0 <= y < |types| ==> types[y] <= 4
    ensures |r| == h * (1 + L)
  {
    if h == 0 then []
    else
      RowSizes(L, h - 1, |img|);
      FilterRows(img, types, L, w, h - 1) + [types[h - 1]]
      + Filtered(Line(img, L, h - 1), PriorLine(img, L, h - 1), w, types[h - 1])
  }

  lemma RowSizes(L: nat, y: nat, size: nat)
    ensures (y + 1) * L == y * L + L && (y + 1) * (1 + L) == y * (1 + L) + 1 + L && y * (1 + L) == y + y * L
    ensures (y + 1) * L <= size ==> y * L <= size
  {
  }

  /** Reconstructs one more line behind an image, from its filter type and its filtered bytes. */
  function NextRow(before: Image, row: seq<byte>, L: nat, w: nat, y: nat): (r: Image)
    requires |row| == 1 + L && 0 < w && (before.Image? ==> |before.bytes| == y * L)
    ensures r.Image? ==> before.Image? && |r.bytes| == |before.bytes| + L
  {
    if before.BadFilter? || row[0] > 4 then BadFilter
    else Image(before.bytes + Unfiltered(row[1..], PriorLine(before.bytes, L, y), w, row[0]))
  }

  /** Line y with its filter type. */
  function FilteredRow(f: seq<byte>, L: nat, y: nat): (r: seq<byte>)
    requires (y + 1) * (1 + L) <= |f|
    ensures |r| == 1 + L
  {
    RowSizes(L, y, 0);
    f[y * (1 + L)..y * (1 + L) + 1 + L]
  }

  /** Reconstructs the first h lines. */
  function UnfilterRows(f: seq<byte>, L: nat, w: nat, h: nat): (r: Image)
    requires h * (1 + L) <= |f| && 0 < w
    ensures r.Image? ==> |r.bytes| == h * L
  {
    if h == 0 then Image([])
    else
      RowSizes(L, h - 1, |f|);
      NextRow(UnfilterRows(f, L, w, h - 1), FilteredRow(f, L, h - 1), L, w, h - 1)
  }

  lemma LinePrefix(img: seq<byte>, L: nat, y: nat, n: nat)
    requires (y + 1) * L <= n <= |img|
    ensures Line(img[..n], L, y) == Line(img, L, y)
  {
    RowSizes(L, y, n);
  }

  lemma LineAppend(img: seq<byte>, L: nat, y: nat)
    requires (y + 1) * L <= |img|
    ensures y * L <= |img| && img[..(y + 1) * L] == img[..y * L] + Line(img, L, y)
  {
    RowSizes(L, y, |img|);
  }

  lemma {:induction false} UnfilterRowsPrefix(f: seq<byte>, g: seq<byte>, L: nat, w: nat, h: nat)
    requires h * (1 + L) <= |f| && 0 < w
    ensures h * (1 + L) <= |f + g| && UnfilterRows(f + g, L, w, h) == UnfilterRows(f, L, w, h)
  {
    hide NextRow;
    if h > 0 {
      RowSizes(L, h - 1, |f|);
      UnfilterRowsPrefix(f, g, L, w, h - 1);
      assert FilteredRow(f + g, L, h - 1) == FilteredRow(f, L, h - 1);
    }
  }

  /** Unfiltering undoes filtering on whole images, for every choice of a filter type per line. */
  lemma {:induction false} ImageRoundTrip(img: seq<byte>, types: seq<nat>, L: nat, w: nat, h: nat)
    requires h * L <= |img| && h <= |types| && 0 < w && forall y :: 0 <= y < |types| ==> types[y] <= 4
    ensures UnfilterRows(FilterRows(img, types, L, w, h), L, w, h) == Image(img[..h * L])
  {
    hide Unfiltered, Filtered;
    if h == 0 {
      assert img[..0] == [];
    } else {
      RowSizes(L, h - 1, |img|);
      ImageRoundTrip(img, types, L, w, h - 1);
      RowRoundTrip(img, types, L, w, h);
    }
  }

  lemma PriorPrefix(img: seq<byte>, L: nat, y: nat)
    requires y * L <= |img|
    ensures PriorLine(img[..y * L], L, y) == PriorLine(img, L, y)
  {
    if y > 0 {
      RowSizes(L, y - 1, y * L);
      LinePrefix(img, L, y - 1, y * L);
    }
  }

  lemma RowRoundTrip(img: seq<byte>, types: seq<nat>, L: nat, w: nat, h: nat)
    requires 0 < h && h * L <= |img| && h <= |types| && 0 < w && forall y :: 0 <= y < |types| ==> types[y] <= 4
    requires (h - 1) * L <= |img|
    requires UnfilterRows(FilterRows(img, types, L, w, h - 1), L, w, h - 1) == Image(img[..(h - 1) * L])
    ensures UnfilterRows(FilterRows(img, types, L, w, h), L, w, h) == Image(img[..h * L])
  {
    hide Unfiltered, Filtered, Line, PriorLine, FilterRows, UnfilterRows, FilteredRow, NextRow;
    var y := h - 1;
    RowSizes(L, y, |img|);
    var row := [types[y]] + Filtered(Line(img, L, y), PriorLine(img, L, y), w, types[y]);
    var before := FilterRows(img, types, L, w, y);
    LastFilterRow(img, types, L, w, h);
    UnfilterRowsPrefix(before, row, L, w, y);
    RowBehind(before, row, L, y);
    LastRow(before + row, L, w, h);
    NextRowBack(img, L, w, y, types[y]);
  }

  lemma LastFilterRow(img: seq<byte>, types: seq<nat>, L: nat, w: nat, h: nat)
    requires 0 < h && h * L <= |img| && h <= |types| && 0 < w && forall y :: 0 <= y < |types| ==> types[y] <= 4
    requires (h - 1) * L <= |img|
    ensures FilterRows(img, types, L, w, h)
            == FilterRows(img, types, L, w, h - 1)
               + ([types[h - 1]] + Filtered(Line(img, L, h - 1), PriorLine(img, L, h - 1), w, types[h - 1]))
  {
  }

  lemma RowBehind(before: seq<byte>, row: seq<byte>, L: nat, y: nat)
    requires |before| == y * (1 + L) && |row| == 1 + L
    ensures (y + 1) * (1 + L) == |before + row| && FilteredRow(before + row, L, y) == row
  {
    RowSizes(L, y, 0);
  }

  /** One line of the image comes back. */
  lemma NextRowBack(img: seq<byte>, L: nat, w: nat, y: nat, filterType: nat)
    requires (y + 1) * L <= |img| && y * L <= |img| && 0 < w && filterType <= 4
    ensures var row := [filterType] + Filtered(Line(img, L, y), PriorLine(img, L, y), w, filterType);
            NextRow(Image(img[..y * L]), row, L, w, y) == Image(img[..(y + 1) * L])
  {
    hide Unfiltered, Filtered, Line, PriorLine;
    var line, prior := Line(img, L, y), PriorLine(img, L, y);
    PriorPrefix(img, L, y);
    UnfilterFilter(line, prior, w, filterType);
    LineAppend(img, L, y);
    assert ([filterType] + Filtered(line, prior, w, filterType))[1..] == Filtered(line, prior, w, filterType);
  }

  lemma LastRow(f: seq<byte>, L: nat, w: nat, h: nat)
    requires 0 < h && h * (1 + L) <= |f| && 0 < w && (h - 1) * (1 + L) <= |f|
    ensures UnfilterRows(f, L, w, h) == NextRow(UnfilterRows(f, L, w, h - 1), FilteredRow(f, L, h - 1), L, w, h - 1)
  {
    hide NextRow;
  }

  /** Every line of a reconstructed image: from its filtered bytes, its type and the line above. */
  lemma ReconstructedLine(f: seq<byte>, L: nat, w: nat, h: nat, y: nat, img: seq<byte>)
    requires 0 < w && y < h && h * (1 + L) <= |f| && UnfilterRows(f, L, w, h) == Image(img)
    ensures |img| == h * L && y * L + L <= |img| && y * (1 + L) + 1 + L <= |f| && (y > 0 ==> L <= y * L)
    ensures var p, q := y * (1 + L), y * L;
            && f[p] <= 4
            && img[q..q + L] == Unfiltered(f[p + 1..p + 1 + L], if y == 0 then First else After(img[q - L..q]), w, f[p])
  {
    LineOf(f, L, w, h, y, img);
    hide Unfiltered, UnfilterRows;
  }

  /** Line y of the image is at q, and its filtered bytes behind their type at p. */
  ghost predicate IsLine(f: seq<byte>, img: seq<byte>, L: nat, w: nat, y: nat, p: nat, q: nat)
  {
    && 0 < w && q + L <= |img| && p + 1 + L <= |f| && (y > 0 ==> L <= q) && f[p] <= 4
    && img[q..q + L] == Unfiltered(f[p + 1..p + 1 + L], if y == 0 then First else After(img[q - L..q]), w, f[p])
  }

  lemma {:induction false} LineOf(f: seq<byte>, L: nat, w: nat, h: nat, y: nat, img: seq<byte>)
    requires 0 < w && y < h && h * (1 + L) <= |f| && UnfilterRows(f, L, w, h) == Image(img)
    ensures |img| == h * L && IsLine(f, img, L, w, y, y * (1 + L), y * L)
    decreases h
  {
    hide UnfilterRows, IsLine, PriorLine;
    RowFits(L, h - 1, h);
    LastLine(f, L, w, h, img);
    if y < h - 1 {
      LineOf(f, L, w, h - 1, y, img[..(h - 1) * L]);
      LineStays(f, img, (h - 1) * L, L, w, y, y * (1 + L), y * L);
    }
  }

  lemma LineStays(f: seq<byte>, img: seq<byte>, n: nat, L: nat, w: nat, y: nat, p: nat, q: nat)
    requires n <= |img| && IsLine(f, img[..n], L, w, y, p, q)
    ensures IsLine(f, img, L, w, y, p, q)
  {
    hide Unfiltered;
    SameSlice(img, n, q, q + L);
    if y > 0 {
      SameSlice(img, n, q - L, q);
    }
  }

  lemma SameSlice(s: seq<byte>, n: nat, a: nat, b: nat)
    requires a <= b <= n <= |s|
    ensures s[..n][a..b] == s[a..b]
  {
  }

  lemma LastLine(f: seq<byte>, L: nat, w: nat, h: nat, img: seq<byte>)
    requires 0 < w && 0 < h && h * (1 + L) <= |f| && UnfilterRows(f, L, w, h) == Image(img)
    requires (h - 1) * (1 + L) + 1 + L == h * (1 + L) && (h - 1) * L + L == h * L
    ensures |img| == h * L && UnfilterRows(f, L, w, h - 1) == Image(img[..(h - 1) * L])
    ensures IsLine(f, img, L, w, h - 1, (h - 1) * (1 + L), (h - 1) * L)
  {
    hide Unfiltered, UnfilterRows, PriorLine, FilteredRow;
    var p, n := (h - 1) * (1 + L), (h - 1) * L;
    LastRow(f, L, w, h);
    RowSlice(f, L, h - 1);
    var before, row := UnfilterRows(f, L, w, h - 1), FilteredRow(f, L, h - 1);
    assert row[1..] == f[p + 1..p + 1 + L] && row[0] == f[p];
    assert img[..n] == before.bytes;
    LinesAre(img, L, h - 1);
    PriorPrefix(img, L, h - 1);
  }

  predicate HasBadType(f: seq<byte>, L: nat, y: nat)
  {
    y * (1 + L) < |f| && f[y * (1 + L)] > 4
  }

  /** No image comes of it exactly when some line has a type that does not exist. */
  lemma {:induction false} BadExact(f: seq<byte>, L: nat, w: nat, h: nat)
    requires 0 < w && h * (1 + L) <= |f|
    ensures UnfilterRows(f, L, w, h) == BadFilter <==> exists y :: 0 <= y < h && HasBadType(f, L, y)
  {
    hide UnfilterRows, HasBadType;
    if h == 0 {
      NoRows(f, L, w);
      AllRowsDone(f, L, w, 0, [], 0);
    } else {
      RowFits(L, h - 1, h);
      BadExact(f, L, w, h - 1);
      LastBad(f, L, w, h);
      if HasBadType(f, L, h - 1) {
      } else {
        assert forall y :: 0 <= y < h && HasBadType(f, L, y) ==> y < h - 1;
      }
    }
  }

  lemma LastBad(f: seq<byte>, L: nat, w: nat, h: nat)
    requires 0 < w && 0 < h && h * (1 + L) <= |f| && h * (1 + L) == (h - 1) * (1 + L) + 1 + L
    ensures UnfilterRows(f, L, w, h) == BadFilter
            <==> UnfilterRows(f, L, w, h - 1) == BadFilter || HasBadType(f, L, h - 1)
  {
    hide Unfiltered, PriorLine, FilteredRow, UnfilterRows;
    LastRow(f, L, w, h);
    RowSlice(f, L, h - 1);
  }

  /** Every line of a filtered image: its type, then its filtered bytes. */
  lemma {:induction false} FilteredLine(img: seq<byte>, types: seq<nat>, L: nat, w: nat, h: nat, y: nat)
    requires y < h && h * L <= |img| && h <= |types| && 0 < w && forall k :: 0 <= k < |types| ==> types[k] <= 4
    ensures y * L + L <= |img| && y * (1 + L) + 1 + L <= h * (1 + L) && (y > 0 ==> L <= y * L)
    ensures var f, p := FilterRows(img, types, L, w, h), y * (1 + L);
            && f[p] == types[y]
            && f[p + 1..p + 1 + L] ==
               Filtered(img[y * L..y * L + L], if y == 0 then First else After(img[y * L - L..y * L]), w, types[y])
    decreases h
  {
    hide Filtered, FilterRows, Line, PriorLine;
    RowFits(L, y, h);
    RowFits(L, h - 1, h);
    LastFilterRow(img, types, L, w, h);
    var front, p := FilterRows(img, types, L, w, h - 1), y * (1 + L);
    if y < h - 1 {
      RowFits(L, y, h - 1);
      FilteredLine(img, types, L, w, h - 1, y);
      assert FilterRows(img, types, L, w, h)[p..p + 1 + L] == front[p..p + 1 + L];
    } else {
      LinesAre(img, L, y);
    }
  }

  lemma LinesAre(img: seq<byte>, L: nat, y: nat)
    requires (y + 1) * L == y * L + L <= |img|
    ensures Line(img, L, y) == img[y * L..y * L + L] && (y > 0 ==> L <= y * L)
    ensures PriorLine(img, L, y) == if y == 0 then First else After(img[y * L - L..y * L])
  {
    if y > 0 {
      RowSizes(L, y - 1, y * L);
    }
  }

  // ---------------------------------------------------------------- whole images in buffers

  method UnfilterImage(out: array<byte>, inp: array<byte>, w: nat, h: nat, bpp: nat) returns (error: nat)
    requires 0 < w && 0 < bpp && w * bpp + 7 < 0x1_0000_0000
    requires h * ((w * bpp + 7) / 8) <= out.Length && h * (1 + (w * bpp + 7) / 8) <= inp.Length
    modifies out
    ensures match UnfilterRows(old(inp[..]), (w * bpp + 7) / 8, (bpp + 7) / 8, h)
            case Image(img) => error == 0 && out[..|img|] == img
            case BadFilter => error == 36
  {
    MulMonotone(bpp, 1, w);
    error := UnfilterLines(out, inp, (w * bpp + 7) / 8, (bpp + 7) / 8, h);
  }

  method UnfilterLines(out: array<byte>, inp: array<byte>, L: nat, bytewidth: nat, h: nat) returns (error: nat)
    requires 0 < bytewidth <= L && h * L <= out.Length && h * (1 + L) <= inp.Length
    modifies out
    ensures match UnfilterRows(old(inp[..]), L, bytewidth, h)
            case Image(img) => error == 0 && out[..|img|] == img
            case BadFilter => error == 36
  {
    hide UnfilterRows, NextRow, Unfiltered, PriorLine, LineBefore, FilteredRow, RowsDone;
    ghost var f := inp[..];
    var outindex: nat, inindex: nat := 0, 0;
    NoRows(f, L, bytewidth);
    for y := 0 to h
      invariant outindex <= out.Length && RowsDone(f, L, bytewidth, y, out[..outindex], inindex)
      invariant forall k :: inindex <= k < inp.Length ==> inp[k] == f[k]
    {
      ghost var img := out[..outindex];
      RowStart(f, out[..], L, bytewidth, y, h, outindex, inindex);
      assert inp[inindex..inindex + 1 + L] == f[inindex..inindex + 1 + L];
      error := UnfilterRow(out, inp, outindex, inindex, y == 0, L, bytewidth);
      RowEnd(f, L, bytewidth, y, h, img, inindex, out[..outindex + L], error);
      if error != 0 {
        return;
      }
      outindex, inindex := L * (y + 1), (1 + L) * (y + 1);
    }
    AllRowsDone(f, L, bytewidth, h, out[..outindex], inindex);
    error := 0;
  }

  /** The first y lines are reconstructed, and the next one starts at inindex. */
  ghost predicate RowsDone(f: seq<byte>, L: nat, w: nat, y: nat, img: seq<byte>, inindex: nat)
  {
    && 0 < w && y * (1 + L) == inindex <= |f| && |img| == y * L && inindex == y + |img|
    && UnfilterRows(f, L, w, y) == Image(img)
  }

  lemma RowStart(f: seq<byte>, out: seq<byte>, L: nat, w: nat, y: nat, h: nat, outindex: nat, inindex: nat)
    requires outindex <= |out| && RowsDone(f, L, w, y, out[..outindex], inindex)
    requires y < h && h * L <= |out| && h * (1 + L) <= |f|
    ensures outindex <= inindex && outindex + L <= |out| && inindex + 1 + L <= |f| && (y > 0 ==> L <= outindex)
    ensures L * (y + 1) == outindex + L && (1 + L) * (y + 1) == inindex + 1 + L
    ensures outindex == y * L && LineBefore(out, outindex, L, y == 0) == PriorLine(out[..outindex], L, y)
  {
    hide LineBefore, PriorLine, UnfilterRows;
    RowFits(L, y, h);
    RowBefore(out, out[..outindex], L, y);
  }

  lemma RowEnd(f: seq<byte>, L: nat, w: nat, y: nat, h: nat, img: seq<byte>, inindex: nat, img': seq<byte>, error: nat)
    requires RowsDone(f, L, w, y, img, inindex) && inindex + 1 + L <= |f| && |img| == y * L
    requires y < h && h * (1 + L) <= |f|
    requires var row := f[inindex..inindex + 1 + L];
             && error == (if row[0] > 4 then 36 else 0)
             && (error == 0 ==> img' == img + Unfiltered(row[1..], PriorLine(img, L, y), w, row[0]))
    ensures error == 0 ==> RowsDone(f, L, w, y + 1, img', inindex + 1 + L)
    ensures error != 0 ==> UnfilterRows(f, L, w, h) == BadFilter
  {
    hide UnfilterRows, Unfiltered, PriorLine, FilteredRow;
    RowFits(L, y, h);
    RowSlice(f, L, y);
    RowDone(f, img, L, w, y);
    if error != 0 {
      BadStays(f, L, w, y + 1, h);
    }
  }

  lemma AllRowsDone(f: seq<byte>, L: nat, w: nat, h: nat, img: seq<byte>, inindex: nat)
    requires RowsDone(f, L, w, h, img, inindex)
    ensures h * (1 + L) <= |f| && UnfilterRows(f, L, w, h) == Image(img)
  {
  }

  /** One line of the image, at its place in both buffers. */
  method UnfilterRow(out: array<byte>, inp: array<byte>, outindex: nat, inindex: nat, firstLine: bool, L: nat,
                     bytewidth: nat) returns (error: nat)
    requires 0 < bytewidth <= L && outindex + L <= out.Length && inindex + 1 + L <= inp.Length
    requires outindex <= inindex && (!firstLine ==> L <= outindex)
    modifies out
    ensures var row, prior := old(inp[inindex..inindex + 1 + L]), LineBefore(old(out[..]), outindex, L, firstLine);
            && error == (if row[0] > 4 then 36 else 0)
            && (error == 0 ==>
                  out[..outindex + L] == old(out[..outindex]) + Unfiltered(row[1..], prior, bytewidth, row[0]))
    ensures forall k :: inindex + 1 + L <= k < inp.Length ==> inp[k] == old(inp[k])
  {
    hide Unfiltered, LineBefore;
    ghost var row := inp[inindex..inindex + 1 + L];
    var filterType := inp[inindex];
    assert inp[inindex + 1..inindex + 1 + L] == row[1..];
    error := UnfilterScanline(out, outindex, inp, inindex + 1, firstLine, bytewidth, filterType, L);
    assert out[..outindex + L] == out[..outindex] + out[outindex..outindex + L];
    assert out[..outindex] == old(out[..outindex]);
  }

  lemma NoRows(f: seq<byte>, L: nat, w: nat)
    requires 0 < w
    ensures RowsDone(f, L, w, 0, [], 0)
  {
  }

  lemma RowSlice(f: seq<byte>, L: nat, y: nat)
    requires (y + 1) * (1 + L) <= |f|
    ensures y * (1 + L) + 1 + L <= |f| && FilteredRow(f, L, y) == f[y * (1 + L)..y * (1 + L) + 1 + L]
  {
    RowSizes(L, y, 0);
  }

  lemma RowFits(L: nat, y: nat, h: nat)
    requires y < h
    ensures (y + 1) * L <= h * L && (y + 1) * (1 + L) <= h * (1 + L)
    ensures (y + 1) * L == y * L + L && (y + 1) * (1 + L) == y * (1 + L) + 1 + L
    ensures L * y == y * L && (1 + L) * y == y * (1 + L) == y + y * L
  {
    MulMonotone(L, y + 1, h);
    MulMonotone(1 + L, y + 1, h);
    RowSizes(L, y, 0);
  }

  lemma RowBefore(out: seq<byte>, img: seq<byte>, L: nat, y: nat)
    requires y * L <= |out| && out[..y * L] == img
    ensures y > 0 ==> L <= y * L
    ensures LineBefore(out, y * L, L, y == 0) == PriorLine(img, L, y)
  {
    if y > 0 {
      RowSizes(L, y - 1, y * L);
      assert out[y * L - L..y * L] == img[(y - 1) * L..(y - 1) * L + L];
    }
  }

  lemma RowDone(f: seq<byte>, img: seq<byte>, L: nat, w: nat, y: nat)
    requires 0 < w && (y + 1) * (1 + L) <= |f| && y * (1 + L) <= |f|
    requires |img| == y * L && UnfilterRows(f, L, w, y) == Image(img)
    ensures var row := FilteredRow(f, L, y);
            UnfilterRows(f, L, w, y + 1) ==
            if row[0] > 4 then BadFilter else Image(img + Unfiltered(row[1..], PriorLine(img, L, y), w, row[0]))
  {
    LastRow(f, L, w, y + 1);
  }

  lemma {:induction false} BadStays(f: seq<byte>, L: nat, w: nat, k: nat, h: nat)
    requires 0 < w && k <= h && h * (1 + L) <= |f| && k * (1 + L) <= |f| && UnfilterRows(f, L, w, k) == BadFilter
    ensures UnfilterRows(f, L, w, h) == BadFilter
  {
    hide UnfilterRows, FilteredRow, Unfiltered;
    if k < h {
      RowSizes(L, h - 1, |f|);
      BadStays(f, L, w, k, h - 1);
      LastRow(f, L, w, h);
    }
  }

  /** Filters with one given type per line. */
  method FilterImage(out: array<byte>, img: seq<byte>, types: seq<nat>, w: nat, h: nat, bpp: nat) returns (error: nat)
    requires 0 < w && w * bpp + 7 < 0x1_0000_0000
    requires h * ((w * bpp + 7) / 8) <= |img| && h * (1 + (w * bpp + 7) / 8) <= out.Length
    requires |types| == h && forall y :: 0 <= y < h ==> types[y] <= 4
    modifies out
    ensures error == if bpp == 0 then 31 else 0
    ensures bpp > 0 ==>
              var L := (w * bpp + 7) / 8;
              out[..h * (1 + L)] == FilterRows(img, types, L, (bpp + 7) / 8, h)
  {
    if bpp == 0 {
      return 31;
    }
    MulMonotone(bpp, 1, w);
    FilterLines(out, img, types, (w * bpp + 7) / 8, (bpp + 7) / 8, h);
    error := 0;
  }

  method FilterLines(out: array<byte>, img: seq<byte>, types: seq<nat>, L: nat, bytewidth: nat, h: nat)
    requires 0 < bytewidth <= L && h * L <= |img| && h * (1 + L) <= out.Length
    requires |types| == h && forall y :: 0 <= y < h ==> types[y] <= 4
    modifies out
    ensures out[..h * (1 + L)] == FilterRows(img, types, L, bytewidth, h)
  {
    hide FilterRows, Filtered, PriorLine, Line;
    var outindex: nat := 0;
    NothingFiltered(img, types, L, bytewidth);
    for y := 0 to h
      invariant outindex == y * (1 + L) <= out.Length && y * L <= |img|
      invariant out[..outindex] == FilterRows(img, types, L, bytewidth, y)
    {
      RowFits(L, y, h);
      var inindex := L * y;
      LineIs(img, L, y);
      var prior := if y == 0 then First else After(img[inindex - L..inindex]);
      FilterRow(out, outindex, img[inindex..inindex + L], prior, bytewidth, types[y]);
      FilterNext(img, types, L, bytewidth, y);
      outindex := (1 + L) * (y + 1);
    }
  }

  /** The filter type, then the filtered line. */
  method FilterRow(out: array<byte>, o: nat, line: seq<byte>, prior: Prior, bytewidth: nat, filterType: nat)
    requires filterType <= 4 && 0 < bytewidth <= |line| && o + 1 + |line| <= out.Length
    requires prior.After? ==> |prior.line| == |line|
    modifies out
    ensures out[..o + 1 + |line|] == old(out[..o]) + [filterType] + Filtered(line, prior, bytewidth, filterType)
  {
    hide Filtered;
    out[o] := filterType;
    FilterScanline(out, o + 1, line, prior, bytewidth, filterType);
  }

  lemma NothingFiltered(img: seq<byte>, types: seq<nat>, L: nat, w: nat)
    requires 0 < w && forall y :: 0 <= y < |types| ==> types[y] <= 4
    ensures 0 * (1 + L) == 0 == 0 * L && FilterRows(img, types, L, w, 0) == []
  {
  }

  lemma LineIs(img: seq<byte>, L: nat, y: nat)
    requires (y + 1) * L <= |img| && y * L <= |img|
    ensures (y + 1) * L == y * L + L && img[y * L..y * L + L] == Line(img, L, y)
    ensures y > 0 ==> L <= y * L && PriorLine(img, L, y) == After(img[y * L - L..y * L])
    ensures y == 0 ==> PriorLine(img, L, y) == First
  {
    RowSizes(L, y, |img|);
    if y > 0 {
      RowSizes(L, y - 1, |img|);
    }
  }

  lemma FilterNext(img: seq<byte>, types: seq<nat>, L: nat, w: nat, y: nat)
    requires (y + 1) * L <= |img| && y * L <= |img| && y < |types| && 0 < w
    requires forall y :: 0 <= y < |types| ==> types[y] <= 4
    ensures FilterRows(img, types, L, w, y + 1) ==
            FilterRows(img, types, L, w, y) + [types[y]] + Filtered(Line(img, L, y), PriorLine(img, L, y), w, types[y])
  {
  }

  /** Filters an image into a buffer and unfilters it there, in place. */
  method RoundTripInPlace(buffer: array<byte>, img: seq<byte>, types: seq<nat>, w: nat, h: nat, bpp: nat)
    requires 0 < w && 0 < bpp && w * bpp + 7 < 0x1_0000_0000
    requires |img| == h * ((w * bpp + 7) / 8) && buffer.Length == h * (1 + (w * bpp + 7) / 8)
    requires |types| == h && forall y :: 0 <= y < h ==> types[y] <= 4
    modifies buffer
    ensures |img| <= buffer.Length && buffer[..|img|] == img
  {
    hide FilterRows, UnfilterRows;
    var L := (w * bpp + 7) / 8;
    RowSizes(L, h, 0);
    var error := FilterImage(buffer, img, types, w, h, bpp);
    assert buffer[..] == buffer[..h * (1 + L)];
    ImageRoundTrip(img, types, L, (bpp + 7) / 8, h);
    error := UnfilterImage(buffer, buffer, w, h, bpp);
  }
}

/** Byte shifters for streams of words: filler in front of every packet, and its removal. */
module AxiShift {
  import opened Bits
  import opened Options

  /** A word of n bytes: which of them count, and whether a packet ends. */
  datatype Word = Word(data: seq<byte>, keep: seq<bool>, last: bool)

  /** The first k bytes of a word count. */
  predicate Keeps(w: Word, n: nat, k: nat)
  {
    |w.data| == n && |w.keep| == n && k <= n && forall i :: 0 <= i < n ==> w.keep[i] == (i < k)
  }

  /** Every word but the last of a packet is full, the last one is not empty. */
  predicate WellFormed(w: Word, n: nat)
  {
    exists k :: 0 < k <= n && Keeps(w, n, k) && (!w.last ==> k == n)
  }

  ghost predicate AllWellFormed(ws: seq<Word>, n: nat)
  {
    forall j :: 0 <= j < |ws| ==> WellFormed(ws[j], n)
  }

  /** The stream ends with a packet. */
  predicate Complete(ws: seq<Word>)
  {
    ws == [] || ws[|ws| - 1].last
  }

  /** Bytes that do not count may differ. */
  predicate Same(a: Word, b: Word)
  {
    && a.keep == b.keep && a.last == b.last && |a.data| == |b.data| == |a.keep|
    && forall i :: 0 <= i < |a.keep| && a.keep[i] ==> a.data[i] == b.data[i]
  }

  ghost predicate AllSame(a: seq<Word>, b: seq<Word>)
  {
    |a| == |b| && forall j :: 0 <= j < |a| ==> Same(a[j], b[j])
  }

  predicate NoneKept(keep: seq<bool>)
  {
    forall i :: 0 <= i < |keep| ==> !keep[i]
  }

  function Zeros(n: nat): (r: seq<byte>)
    ensures |r| == n && forall i :: 0 <= i < n ==> r[i] == 0
  {
    seq<byte>(n, _ => 0)
  }

  function Flags(n: nat, b: bool): (r: seq<bool>)
    ensures |r| == n && forall i :: 0 <= i < n ==> r[i] == b
  {
    seq(n, _ => b)
  }

  // ---------------------------------------------------------------- what the shifters do

  predicate Sizes(n: nat, offset: nat)
  {
    offset < n && offset <= 32
  }

  predicate Fits(w: Word, n: nat)
  {
    |w.data| == n && |w.keep| == n
  }

  /** A word moved up by offset bytes, with the end of the word before it, or with filler that counts. */
  function Up(prev: Option<Word>, w: Word, n: nat, offset: nat): (r: Word)
    requires Sizes(n, offset) && Fits(w, n) && (prev.Some? ==> Fits(prev.value, n))
    ensures Fits(r, n)
  {
    var tailData := if prev.Some? then prev.value.data[n - offset..] else Zeros(offset);
    var tailKeep := if prev.Some? then prev.value.keep[n - offset..] else Flags(offset, true);
    Word(tailData + w.data[..n - offset], tailKeep + w.keep[..n - offset], NoneKept(w.keep[n - offset..]))
  }

  /** The end of a last word that needs a word of its own. */
  function Overflow(w: Word, n: nat, offset: nat): (r: Word)
    requires Sizes(n, offset) && Fits(w, n)
    ensures Fits(r, n)
  {
    Word(w.data[n - offset..] + Zeros(n - offset), w.keep[n - offset..] + Flags(n - offset, false), true)
  }

  /** The word before, within the packet. */
  function PrevOf(w: Word): Option<Word>
  {
    if w.last then None else Some(w)
  }

  function LeftOut(prev: Option<Word>, w: Word, n: nat, offset: nat): (r: seq<Word>)
    requires Sizes(n, offset) && Fits(w, n) && (prev.Some? ==> Fits(prev.value, n))
    ensures r != [] && forall j :: 0 <= j < |r| ==> Fits(r[j], n)
  {
    if offset == 0 then [w]
    else
      var up := Up(prev, w, n, offset);
      [up] + (if w.last && !up.last then [Overflow(w, n, offset)] else [])
  }

  ghost predicate AllFit(ws: seq<Word>, n: nat)
  {
    forall j :: 0 <= j < |ws| ==> Fits(ws[j], n)
  }

  function LeftShifted(prev: Option<Word>, ws: seq<Word>, n: nat, offset: nat): (r: seq<Word>)
    requires Sizes(n, offset) && AllFit(ws, n) && (prev.Some? ==> Fits(prev.value, n))
    ensures AllFit(r, n) && |r| >= |ws|
    decreases |ws|
  {
    if ws == [] then [] else LeftOut(prev, ws[0], n, offset) + LeftShifted(PrevOf(ws[0]), ws[1..], n, offset)
  }

  /** Two words moved down by offset bytes. */
  function Down(prev: Word, w: Word, n: nat, offset: nat): (r: Word)
    requires Sizes(n, offset) && Fits(w, n) && Fits(prev, n)
    ensures Fits(r, n)
  {
    Word(prev.data[offset..] + w.data[..offset], prev.keep[offset..] + w.keep[..offset], NoneKept(w.keep[offset..]))
  }

  function Remainder(w: Word, n: nat, offset: nat): (r: Word)
    requires Sizes(n, offset) && Fits(w, n)
    ensures Fits(r, n)
  {
    Word(w.data[offset..] + Zeros(offset), w.keep[offset..] + Flags(offset, false), true)
  }

  function RightOut(prev: Option<Word>, w: Word, n: nat, offset: nat): (r: seq<Word>)
    requires Sizes(n, offset) && Fits(w, n) && (prev.Some? ==> Fits(prev.value, n))
    ensures forall j :: 0 <= j < |r| ==> Fits(r[j], n)
  {
    if offset == 0 then [w]
    else if prev.Some? then
      var down := Down(prev.value, w, n, offset);
      [down] + (if w.last && !down.last then [Remainder(w, n, offset)] else [])
    else if w.last then [Remainder(w, n, offset)]
    else []
  }

  function RightShifted(prev: Option<Word>, ws: seq<Word>, n: nat, offset: nat): (r: seq<Word>)
    requires Sizes(n, offset) && AllFit(ws, n) && (prev.Some? ==> Fits(prev.value, n))
    ensures AllFit(r, n)
    decreases |ws|
  {
    if ws == [] then [] else RightOut(prev, ws[0], n, offset) + RightShifted(PrevOf(ws[0]), ws[1..], n, offset)
  }

  // ---------------------------------------------------------------- there and back

  lemma SameJoin(a: seq<Word>, b: seq<Word>, c: seq<Word>, d: seq<Word>)
    requires AllSame(a, b) && AllSame(c, d)
    ensures AllSame(a + c, b + d)
  {
  }

  /** A last word comes back whole, from one word or from two. */
  lemma LastComesBack(prev: Option<Word>, w: Word, n: nat, offset: nat)
    requires Sizes(n, offset) && 0 < offset && WellFormed(w, n) && (prev.Some? ==> Fits(prev.value, n)) && w.last
    ensures var vs := LeftOut(prev, w, n, offset);
            && vs[|vs| - 1].last && (|vs| == 2 ==> !vs[0].last)
            && AllSame(RightShifted(None, vs, n, offset), [w])
  {
    var up := Up(prev, w, n, offset);
    if NoneKept(w.keep[n - offset..]) {
      RemainderOfUp(prev, w, n, offset);
      hide Up, Remainder, Overflow, Down, RightShifted;
      OneWordRight(up, n, offset);
    } else {
      DownOfOverflow(prev, w, n, offset);
      NotLast(prev, w, n, offset);
      hide Up, Remainder, Overflow, Down, RightShifted;
      TwoWordsRight(up, Overflow(w, n, offset), n, offset);
    }
  }

  lemma NotLast(prev: Option<Word>, w: Word, n: nat, offset: nat)
    requires Sizes(n, offset) && 0 < offset && Fits(w, n) && (prev.Some? ==> Fits(prev.value, n))
    requires !NoneKept(w.keep[n - offset..])
    ensures !Up(prev, w, n, offset).last
    ensures Down(Up(prev, w, n, offset), Overflow(w, n, offset), n, offset).last
  {
    assert NoneKept(Overflow(w, n, offset).keep[offset..]);
  }

  lemma OneWordRight(v: Word, n: nat, offset: nat)
    requires Sizes(n, offset) && 0 < offset && Fits(v, n) && v.last
    ensures RightShifted(None, [v], n, offset) == [Remainder(v, n, offset)]
  {
    hide Remainder;
    assert [v][1..] == [];
    assert RightShifted(PrevOf(v), [], n, offset) == [];
  }

  lemma TwoWordsRight(u: Word, v: Word, n: nat, offset: nat)
    requires Sizes(n, offset) && 0 < offset && Fits(u, n) && Fits(v, n) && !u.last && v.last
    requires Down(u, v, n, offset).last
    ensures RightShifted(None, [u, v], n, offset) == [Down(u, v, n, offset)]
  {
    hide Remainder, Down;
    assert [u, v][1..] == [v] && [v][1..] == [];
    assert RightShifted(PrevOf(v), [], n, offset) == [];
    assert RightShifted(Some(u), [v], n, offset) == [Down(u, v, n, offset)];
  }

  lemma RemainderOfUp(prev: Option<Word>, w: Word, n: nat, offset: nat)
    requires Sizes(n, offset) && 0 < offset && WellFormed(w, n) && (prev.Some? ==> Fits(prev.value, n)) && w.last
    requires NoneKept(w.keep[n - offset..])
    ensures Up(prev, w, n, offset).last && Same(Remainder(Up(prev, w, n, offset), n, offset), w)
  {
    var r := Remainder(Up(prev, w, n, offset), n, offset);
    forall i | 0 <= i < n
      ensures r.keep[i] == w.keep[i]
    {
      if i >= n - offset {
        assert !w.keep[n - offset..][i - (n - offset)];
      }
    }
    assert r.keep == w.keep;
  }

  lemma DownOfOverflow(prev: Option<Word>, w: Word, n: nat, offset: nat)
    requires Sizes(n, offset) && 0 < offset && Fits(w, n) && (prev.Some? ==> Fits(prev.value, n)) && w.last
    ensures Down(Up(prev, w, n, offset), Overflow(w, n, offset), n, offset) == w && Overflow(w, n, offset).last
    ensures Same(w, w)
  {
    var r := Down(Up(prev, w, n, offset), Overflow(w, n, offset), n, offset);
    assert r.data == w.data && r.keep == w.keep;
  }

  /** A full word that is not the last comes back from itself and the next word. */
  lemma FullComesBack(prev: Option<Word>, w: Word, next: Word, vs: seq<Word>, n: nat, offset: nat)
    requires Sizes(n, offset) && 0 < offset && WellFormed(w, n) && WellFormed(next, n) && !w.last
    requires prev.Some? ==> Fits(prev.value, n)
    requires AllFit(vs, n) && vs != [] && vs[0] == Up(Some(w), next, n, offset)
    ensures LeftOut(prev, w, n, offset) == [Up(prev, w, n, offset)] && !Up(prev, w, n, offset).last
    ensures RightShifted(Some(Up(prev, w, n, offset)), vs, n, offset) == [w] + RightShifted(None, vs, n, offset)
  {
    assert Fits(w, n) && Fits(next, n);
    hide Up, Down, Remainder, WellFormed, RightShifted;
    var up := Up(prev, w, n, offset);
    DownOfUps(prev, w, next, n, offset);
    UpNotLast(prev, w, n, offset);
    SecondWord(up, vs, n, offset, w);
  }

  lemma UpNotLast(prev: Option<Word>, w: Word, n: nat, offset: nat)
    requires Sizes(n, offset) && 0 < offset && WellFormed(w, n) && !w.last && (prev.Some? ==> Fits(prev.value, n))
    ensures !Up(prev, w, n, offset).last
  {
    assert w.keep[n - offset..][0];
  }

  lemma SecondWord(up: Word, vs: seq<Word>, n: nat, offset: nat, w: Word)
    requires Sizes(n, offset) && 0 < offset && Fits(up, n) && AllFit(vs, n) && vs != []
    requires Down(up, vs[0], n, offset) == w && !w.last
    ensures RightShifted(Some(up), vs, n, offset) == [w] + RightShifted(None, vs, n, offset)
  {
    hide Up, Down, Remainder;
  }

  lemma DownOfUps(prev: Option<Word>, w: Word, next: Word, n: nat, offset: nat)
    requires Sizes(n, offset) && 0 < offset && WellFormed(w, n) && WellFormed(next, n) && !w.last
    requires prev.Some? ==> Fits(prev.value, n)
    ensures Down(Up(prev, w, n, offset), Up(Some(w), next, n, offset), n, offset) == w
  {
    var up, v := Up(prev, w, n, offset), Up(Some(w), next, n, offset);
    var down := Down(up, v, n, offset);
    assert down.data == w.data && down.keep == w.keep;
    assert v.keep[offset..][0] == next.keep[0];
  }

  /**
   * Right after left by the same offset is the identity on streams of packets: the same words with the same keep and
   * last flags, and the same bytes where they count.
   */
  lemma {:induction false} RightAfterLeft(prev: Option<Word>, ws: seq<Word>, n: nat, offset: nat)
    requires Sizes(n, offset) && AllWellFormed(ws, n) && Complete(ws) && (prev.Some? ==> Fits(prev.value, n))
    ensures AllFit(ws, n) && AllSame(RightShifted(None, LeftShifted(prev, ws, n, offset), n, offset), ws)
    decreases |ws|
  {
    hide Up, Overflow, Remainder, Down, Same, RightOut, LeftOut;
    if ws != [] {
      var w, rest := ws[0], ws[1..];
      RightAfterLeft(PrevOf(w), rest, n, offset);
      var vs := LeftShifted(PrevOf(w), rest, n, offset);
      assert ws == [w] + rest;
      if offset == 0 {
        AtOffsetZero(prev, w, vs, n);
        SameJoin([w], [w], RightShifted(None, vs, n, offset), rest);
      } else if w.last {
        var out := LeftOut(prev, w, n, offset);
        LastComesBack(prev, w, n, offset);
        RightInParts(None, out, vs, n, offset);
        SameJoin(RightShifted(None, out, n, offset), [w], RightShifted(None, vs, n, offset), rest);
      } else {
        FirstOfRest(w, rest, n, offset);
        FullComesBack(prev, w, rest[0], vs, n, offset);
        StartOfPacket(Up(prev, w, n, offset), vs, n, offset);
        SameJoin([w], [w], RightShifted(None, vs, n, offset), rest);
      }
    }
  }

  lemma AtOffsetZero(prev: Option<Word>, w: Word, vs: seq<Word>, n: nat)
    requires 0 < n && WellFormed(w, n) && AllFit(vs, n) && (prev.Some? ==> Fits(prev.value, n))
    ensures LeftOut(prev, w, n, 0) == [w]
    ensures AllFit([w] + vs, n) && RightShifted(None, [w] + vs, n, 0) == [w] + RightShifted(None, vs, n, 0)
    ensures AllSame([w], [w])
  {
    assert ([w] + vs)[1..] == vs;
    PassThrough(PrevOf(w), vs, n);
  }

  lemma FirstOfRest(w: Word, rest: seq<Word>, n: nat, offset: nat)
    requires Sizes(n, offset) && 0 < offset && AllWellFormed(rest, n) && rest != [] && Fits(w, n) && !w.last
    ensures AllFit(rest, n)
    ensures var vs := LeftShifted(PrevOf(w), rest, n, offset); vs != [] && vs[0] == Up(Some(w), rest[0], n, offset)
    ensures AllSame([w], [w])
  {
    hide Up, Overflow;
  }

  /** The first word of a packet is only kept for the next one. */
  lemma StartOfPacket(up: Word, vs: seq<Word>, n: nat, offset: nat)
    requires Sizes(n, offset) && 0 < offset && AllFit(vs, n) && Fits(up, n) && !up.last
    ensures AllFit([up] + vs, n) && RightShifted(None, [up] + vs, n, offset) == RightShifted(Some(up), vs, n, offset)
  {
    hide Down, Remainder;
    assert ([up] + vs)[1..] == vs;
  }

  lemma PassThrough(prev: Option<Word>, vs: seq<Word>, n: nat)
    requires 0 < n && AllFit(vs, n) && (prev.Some? ==> Fits(prev.value, n))
    ensures RightShifted(prev, vs, n, 0) == RightShifted(None, vs, n, 0)
  {
  }

  /** Packets are shifted one by one. */
  lemma {:induction false} RightInParts(prev: Option<Word>, a: seq<Word>, b: seq<Word>, n: nat, offset: nat)
    requires Sizes(n, offset) && AllFit(a, n) && AllFit(b, n) && (prev.Some? ==> Fits(prev.value, n))
    requires a != [] && a[|a| - 1].last
    ensures AllFit(a + b, n)
    ensures RightShifted(prev, a + b, n, offset) == RightShifted(prev, a, n, offset) + RightShifted(None, b, n, offset)
    decreases |a|
  {
    hide RightOut, Fits;
    assert (a + b)[0] == a[0] && (a + b)[1..] == a[1..] + b;
    if |a| == 1 {
      assert a[1..] == [] && a[1..] + b == b;
    } else {
      RightInParts(PrevOf(a[0]), a[1..], b, n, offset);
      hide PrevOf, RightShifted;
      RightFirst(prev, a, n, offset);
      RightFirst(prev, a + b, n, offset);
    }
  }

  lemma RightFirst(prev: Option<Word>, ws: seq<Word>, n: nat, offset: nat)
    requires Sizes(n, offset) && AllFit(ws, n) && (prev.Some? ==> Fits(prev.value, n)) && ws != []
    ensures RightShifted(prev, ws, n, offset) ==
            RightOut(prev, ws[0], n, offset) + RightShifted(PrevOf(ws[0]), ws[1..], n, offset)
  {
  }

  // ---------------------------------------------------------------- bytes of packets

  /** The bytes that count. */
  function Kept(data: seq<byte>, keep: seq<bool>): seq<byte>
    requires |data| == |keep|
  {
    if data == [] then []
    else
      var n := |data| - 1;
      Kept(data[..n], keep[..n]) + (if keep[n] then [data[n]] else [])
  }

  lemma {:induction false} KeptInParts(d: seq<byte>, k: seq<bool>, e: seq<byte>, l: seq<bool>)
    requires |d| == |k| && |e| == |l|
    ensures Kept(d + e, k + l) == Kept(d, k) + Kept(e, l)
  {
    if e == [] {
      assert d + e == d && k + l == k;
    } else {
      var n := |e| - 1;
      KeptInParts(d, k, e[..n], l[..n]);
      assert (d + e)[..|d| + n] == d + e[..n] && (k + l)[..|d| + n] == k + l[..n];
    }
  }

  lemma {:induction false} NothingKept(d: seq<byte>, k: seq<bool>)
    requires |d| == |k| && NoneKept(k)
    ensures Kept(d, k) == []
  {
    if d != [] {
      NothingKept(d[..|d| - 1], k[..|d| - 1]);
    }
  }

  lemma {:induction false} AllKept(d: seq<byte>, k: seq<bool>)
    requires |d| == |k| && forall i :: 0 <= i < |k| ==> k[i]
    ensures Kept(d, k) == d
  {
    if d != [] {
      AllKept(d[..|d| - 1], k[..|d| - 1]);
      assert d == d[..|d| - 1] + [d[|d| - 1]];
    }
  }

  function Bytes(ws: seq<Word>, n: nat): seq<byte>
    requires AllFit(ws, n)
  {
    if ws == [] then [] else Kept(ws[0].data, ws[0].keep) + Bytes(ws[1..], n)
  }

  /** One packet: only its last word says so. */
  ghost predicate IsPacket(ws: seq<Word>, n: nat)
  {
    ws != [] && AllWellFormed(ws, n) && forall j :: 0 <= j < |ws| ==> ws[j].last == (j == |ws| - 1)
  }

  /** The bytes that go in front of a word: the end of the word before it, or the filler. */
  function Front(prev: Option<Word>, n: nat, offset: nat): seq<byte>
    requires Sizes(n, offset) && (prev.Some? ==> Fits(prev.value, n))
  {
    if prev.Some? then Kept(prev.value.data[n - offset..], prev.value.keep[n - offset..]) else Zeros(offset)
  }

  lemma KeptOfUp(prev: Option<Word>, w: Word, n: nat, offset: nat)
    requires Sizes(n, offset) && Fits(w, n) && (prev.Some? ==> Fits(prev.value, n))
    ensures var up := Up(prev, w, n, offset);
            Kept(up.data, up.keep) == Front(prev, n, offset) + Kept(w.data[..n - offset], w.keep[..n - offset])
    ensures Kept(w.data, w.keep) == Kept(w.data[..n - offset], w.keep[..n - offset]) + Front(Some(w), n, offset)
  {
    hide Kept;
    var m := n - offset;
    AllKept(Zeros(offset), Flags(offset, true));
    KeptInParts(if prev.Some? then prev.value.data[m..] else Zeros(offset),
                if prev.Some? then prev.value.keep[m..] else Flags(offset, true), w.data[..m], w.keep[..m]);
    KeptInParts(w.data[..m], w.keep[..m], w.data[m..], w.keep[m..]);
    assert w.data == w.data[..m] + w.data[m..] && w.keep == w.keep[..m] + w.keep[m..];
  }

  lemma KeptOfOverflow(w: Word, n: nat, offset: nat)
    requires Sizes(n, offset) && Fits(w, n)
    ensures var over := Overflow(w, n, offset); Kept(over.data, over.keep) == Front(Some(w), n, offset)
  {
    hide Kept;
    KeptInParts(w.data[n - offset..], w.keep[n - offset..], Zeros(n - offset), Flags(n - offset, false));
    NothingKept(Zeros(n - offset), Flags(n - offset, false));
  }

  /** Left shift puts the filler in front of a packet and changes none of its bytes. */
  lemma {:induction false} LeftShiftBytes(prev: Option<Word>, ws: seq<Word>, n: nat, offset: nat)
    requires Sizes(n, offset) && 0 < offset && AllFit(ws, n) && (prev.Some? ==> Fits(prev.value, n))
    requires ws != [] && forall j :: 0 <= j < |ws| ==> ws[j].last == (j == |ws| - 1)
    ensures Bytes(LeftShifted(prev, ws, n, offset), n) == Front(prev, n, offset) + Bytes(ws, n)
    decreases |ws|
  {
    hide Kept, Up, Overflow, Front;
    var w, rest := ws[0], ws[1..];
    var up := Up(prev, w, n, offset);
    KeptOfUp(prev, w, n, offset);
    if w.last {
      hide LeftShifted, LeftOut, Bytes;
      LastBytes(prev, w, n, offset);
      LeftFirst(prev, ws, n, offset);
      LeftNone(PrevOf(w), n, offset);
      BytesOne(w, n);
      assert ws == [w] && rest == [];
      assert LeftShifted(prev, ws, n, offset) == LeftOut(prev, w, n, offset);
    } else {
      LeftShiftBytes(PrevOf(w), rest, n, offset);
      var vs := LeftShifted(PrevOf(w), rest, n, offset);
      LeftFirst(prev, ws, n, offset);
      hide LeftShifted, LeftOut;
      assert ([up] + vs)[1..] == vs;
      BytesFirst([up] + vs, n);
      BytesFirst(ws, n);
    }
  }

  lemma BytesFirst(ws: seq<Word>, n: nat)
    requires AllFit(ws, n) && ws != []
    ensures Bytes(ws, n) == Kept(ws[0].data, ws[0].keep) + Bytes(ws[1..], n)
  {
  }

  lemma LastBytes(prev: Option<Word>, w: Word, n: nat, offset: nat)
    requires Sizes(n, offset) && 0 < offset && Fits(w, n) && (prev.Some? ==> Fits(prev.value, n)) && w.last
    ensures Bytes(LeftOut(prev, w, n, offset), n) == Front(prev, n, offset) + Kept(w.data, w.keep)
  {
    hide Kept, Bytes;
    var up, over := Up(prev, w, n, offset), Overflow(w, n, offset);
    KeptOfUp(prev, w, n, offset);
    KeptOfOverflow(w, n, offset);
    BytesOne(up, n);
    if up.last {
      NothingKept(w.data[n - offset..], w.keep[n - offset..]);
      assert LeftOut(prev, w, n, offset) == [up];
      assert Kept(w.data, w.keep) == Kept(w.data[..n - offset], w.keep[..n - offset]);
    } else {
      BytesOne(over, n);
      BytesFirst([up, over], n);
      assert LeftOut(prev, w, n, offset) == [up, over] && [up, over][1..] == [over];
      assert Front(prev, n, offset) + Kept(w.data, w.keep) == Kept(up.data, up.keep) + Kept(over.data, over.keep);
    }
  }

  lemma BytesOne(w: Word, n: nat)
    requires Fits(w, n)
    ensures Bytes([w], n) == Kept(w.data, w.keep)
  {
    hide Kept;
    assert Bytes([w][1..], n) == [];
  }

  /** A packet from its start: offset zeros, then its bytes. */
  lemma LeftShiftWhole(ws: seq<Word>, n: nat, offset: nat)
    requires Sizes(n, offset) && 0 < offset && AllFit(ws, n)
    requires ws != [] && forall j :: 0 <= j < |ws| ==> ws[j].last == (j == |ws| - 1)
    ensures Bytes(LeftShifted(None, ws, n, offset), n) == seq<byte>(offset, _ => 0) + Bytes(ws, n)
  {
    LeftShiftBytes(None, ws, n, offset);
    hide LeftShifted, Bytes;
    assert Front(None, n, offset) == seq<byte>(offset, _ => 0);
  }

  /** Right shift takes the first offset bytes of a packet away and changes none of the others. */
  lemma RightShiftWhole(ws: seq<Word>, n: nat, offset: nat)
    requires Sizes(n, offset) && 0 < offset && AllFit(ws, n)
    requires ws != [] && forall j :: 0 <= j < |ws| ==> ws[j].last == (j == |ws| - 1)
    requires forall i :: 0 <= i < offset ==> ws[0].keep[i]
    ensures offset <= |Bytes(ws, n)| && Bytes(RightShifted(None, ws, n, offset), n) == Bytes(ws, n)[offset..]
  {
    hide RightShifted, Kept, RightOut, Remainder, Down, Bytes;
    var w, rest := ws[0], ws[1..];
    BytesFirst(ws, n);
    FrontTaken(w, n, offset);
    RightFirst(None, ws, n, offset);
    RightStart(w, n, offset);
    if w.last {
      assert ws == [w] && rest == [];
      RightNone(PrevOf(w), n, offset);
      BytesNone(n);
      assert [Remainder(w, n, offset)] + [] == [Remainder(w, n, offset)];
      KeptOfRemainder(w, n, offset);
      BytesOne(Remainder(w, n, offset), n);
      assert Kept(w.data, w.keep) + [] == Kept(w.data, w.keep);
    } else {
      assert [] + RightShifted(Some(w), rest, n, offset) == RightShifted(Some(w), rest, n, offset);
      RightShiftRest(w, rest, n, offset);
    }
  }

  lemma BytesNone(n: nat)
    ensures Bytes([], n) == []
  {
  }

  lemma FrontTaken(w: Word, n: nat, offset: nat)
    requires Sizes(n, offset) && Fits(w, n) && forall i :: 0 <= i < offset ==> w.keep[i]
    ensures |Kept(w.data, w.keep)| >= offset
    ensures Kept(w.data, w.keep)[offset..] == Kept(w.data[offset..], w.keep[offset..])
  {
    KeptInParts(w.data[..offset], w.keep[..offset], w.data[offset..], w.keep[offset..]);
    AllKept(w.data[..offset], w.keep[..offset]);
    hide Kept;
    assert w.data == w.data[..offset] + w.data[offset..] && w.keep == w.keep[..offset] + w.keep[offset..];
  }

  lemma RightStart(w: Word, n: nat, offset: nat)
    requires Sizes(n, offset) && 0 < offset && Fits(w, n)
    ensures RightOut(None, w, n, offset) == if w.last then [Remainder(w, n, offset)] else []
  {
  }

  lemma RightNone(prev: Option<Word>, n: nat, offset: nat)
    requires Sizes(n, offset) && (prev.Some? ==> Fits(prev.value, n))
    ensures RightShifted(prev, [], n, offset) == []
  {
  }

  lemma KeptOfRemainder(w: Word, n: nat, offset: nat)
    requires Sizes(n, offset) && Fits(w, n)
    ensures var r := Remainder(w, n, offset); Kept(r.data, r.keep) == Kept(w.data[offset..], w.keep[offset..])
  {
    hide Kept;
    KeptInParts(w.data[offset..], w.keep[offset..], Zeros(offset), Flags(offset, false));
    NothingKept(Zeros(offset), Flags(offset, false));
  }

  lemma KeptOfDown(prev: Word, w: Word, n: nat, offset: nat)
    requires Sizes(n, offset) && Fits(w, n) && Fits(prev, n)
    ensures var down := Down(prev, w, n, offset);
            Kept(down.data, down.keep)
            == Kept(prev.data[offset..], prev.keep[offset..]) + Kept(w.data[..offset], w.keep[..offset])
    ensures Kept(w.data, w.keep)
            == Kept(w.data[..offset], w.keep[..offset]) + Kept(w.data[offset..], w.keep[offset..])
    ensures Down(prev, w, n, offset).last ==> Kept(w.data[offset..], w.keep[offset..]) == []
  {
    hide Kept;
    KeptInParts(prev.data[offset..], prev.keep[offset..], w.data[..offset], w.keep[..offset]);
    KeptInParts(w.data[..offset], w.keep[..offset], w.data[offset..], w.keep[offset..]);
    assert w.data == w.data[..offset] + w.data[offset..] && w.keep == w.keep[..offset] + w.keep[offset..];
    if Down(prev, w, n, offset).last {
      NothingKept(w.data[offset..], w.keep[offset..]);
    }
  }

  /** Within a packet: what is left of the word before, then the bytes of the others. */
  lemma {:induction false} RightShiftRest(prev: Word, ws: seq<Word>, n: nat, offset: nat)
    requires Sizes(n, offset) && 0 < offset && AllFit(ws, n) && Fits(prev, n)
    requires ws != [] && forall j :: 0 <= j < |ws| ==> ws[j].last == (j == |ws| - 1)
    ensures Bytes(RightShifted(Some(prev), ws, n, offset), n)
            == Kept(prev.data[offset..], prev.keep[offset..]) + Bytes(ws, n)
    decreases |ws|
  {
    hide RightShifted, Kept, Remainder, Down, Bytes, RightOut;
    var w, rest := ws[0], ws[1..];
    BytesFirst(ws, n);
    RightFirst(Some(prev), ws, n, offset);
    if w.last {
      assert ws == [w] && rest == [];
      RightNone(PrevOf(w), n, offset);
      BytesNone(n);
      RightEnd(prev, w, n, offset);
      assert Kept(w.data, w.keep) + [] == Kept(w.data, w.keep);
    } else {
      RightShiftRest(w, rest, n, offset);
      RightMiddle(prev, w, RightShifted(Some(w), rest, n, offset), n, offset);
      Joined(Kept(prev.data[offset..], prev.keep[offset..]), Kept(w.data[..offset], w.keep[..offset]),
             Kept(w.data[offset..], w.keep[offset..]), Bytes(rest, n));
    }
  }

  lemma Joined(a: seq<byte>, b: seq<byte>, c: seq<byte>, d: seq<byte>)
    ensures a + b + (c + d) == a + (b + c + d)
  {
  }

  lemma RightMiddle(prev: Word, w: Word, vs: seq<Word>, n: nat, offset: nat)
    requires Sizes(n, offset) && 0 < offset && Fits(w, n) && Fits(prev, n) && !w.last && AllFit(vs, n)
    ensures Bytes(RightOut(Some(prev), w, n, offset) + vs, n)
            == Kept(prev.data[offset..], prev.keep[offset..]) + Kept(w.data[..offset], w.keep[..offset]) + Bytes(vs, n)
    ensures Kept(w.data, w.keep)
            == Kept(w.data[..offset], w.keep[..offset]) + Kept(w.data[offset..], w.keep[offset..])
  {
    hide Kept, Remainder, Down, Bytes;
    var down := Down(prev, w, n, offset);
    KeptOfDown(prev, w, n, offset);
    assert RightOut(Some(prev), w, n, offset) == [down];
    BytesFirst([down] + vs, n);
    assert ([down] + vs)[1..] == vs;
  }

  lemma RightEnd(prev: Word, w: Word, n: nat, offset: nat)
    requires Sizes(n, offset) && 0 < offset && Fits(w, n) && Fits(prev, n) && w.last
    ensures Bytes(RightOut(Some(prev), w, n, offset) + [], n)
            == Kept(prev.data[offset..], prev.keep[offset..]) + Kept(w.data, w.keep)
  {
    hide Kept, Remainder, Down, Bytes;
    var down, r := Down(prev, w, n, offset), Remainder(w, n, offset);
    KeptOfDown(prev, w, n, offset);
    KeptOfRemainder(w, n, offset);
    BytesOne(down, n);
    if down.last {
      assert RightOut(Some(prev), w, n, offset) + [] == [down];
    } else {
      BytesOne(r, n);
      BytesFirst([down, r], n);
      assert RightOut(Some(prev), w, n, offset) + [] == [down, r] && [down, r][1..] == [r];
    }
  }

  /** The shifted packet is a packet again. */
  lemma {:induction false} LeftShiftPacket(prev: Option<Word>, ws: seq<Word>, n: nat, offset: nat)
    requires Sizes(n, offset) && 0 < offset && IsPacket(ws, n)
    requires prev.Some? ==> WellFormed(prev.value, n) && !prev.value.last
    ensures AllFit(ws, n) && IsPacket(LeftShifted(prev, ws, n, offset), n)
    decreases |ws|
  {
    hide Up, Overflow, WellFormed;
    assert AllFit(ws, n) by { WellFormedFit(ws, n); }
    if prev.Some? {
      WellFormedFit([prev.value], n);
      assert Fits([prev.value][0], n);
    }
    var w, rest := ws[0], ws[1..];
    UpWellFormed(prev, w, n, offset);
    var up, over := Up(prev, w, n, offset), Overflow(w, n, offset);
    if w.last {
      assert rest == [] && LeftShifted(None, rest, n, offset) == [];
    } else {
      LeftShiftPacket(PrevOf(w), rest, n, offset);
      var vs := LeftShifted(PrevOf(w), rest, n, offset);
      assert LeftShifted(prev, ws, n, offset) == [up] + vs;
    }
  }

  lemma WellFormedFit(ws: seq<Word>, n: nat)
    requires AllWellFormed(ws, n)
    ensures AllFit(ws, n)
  {
  }

  lemma UpWellFormed(prev: Option<Word>, w: Word, n: nat, offset: nat)
    requires Sizes(n, offset) && 0 < offset && WellFormed(w, n)
    requires prev.Some? ==> WellFormed(prev.value, n) && !prev.value.last
    ensures Fits(w, n) && (prev.Some? ==> Fits(prev.value, n))
    ensures var up := Up(prev, w, n, offset);
            && WellFormed(up, n) && (!w.last ==> !up.last)
            && (!up.last ==> WellFormed(Overflow(w, n, offset), n) && Overflow(w, n, offset).last)
  {
    var k :| 0 < k <= n && Keeps(w, n, k) && (!w.last ==> k == n);
    var up := Up(prev, w, n, offset);
    var m := n - offset;
    UpKeeps(prev, w, n, offset, k);
    if k > m {
      assert w.keep[m..][0];
      assert Keeps(Overflow(w, n, offset), n, k - m);
    }
  }

  lemma UpKeeps(prev: Option<Word>, w: Word, n: nat, offset: nat, k: nat)
    requires Sizes(n, offset) && Keeps(w, n, k) && Fits(w, n)
    requires prev.Some? ==> Fits(prev.value, n) && Keeps(prev.value, n, n)
    ensures Keeps(Up(prev, w, n, offset), n, if k > n - offset then n else offset + k)
    ensures k <= n - offset ==> NoneKept(w.keep[n - offset..])
  {
    var up := Up(prev, w, n, offset);
    var tail := if prev.Some? then prev.value.keep[n - offset..] else Flags(offset, true);
    assert up.keep == tail + w.keep[..n - offset] && |tail| == offset;
    forall i | 0 <= i < n
      ensures up.keep[i] == (i < offset + k)
    {
      if i < offset {
        assert up.keep[i] == tail[i];
      } else {
        assert up.keep[i] == w.keep[i - offset];
      }
    }
  }

  // ---------------------------------------------------------------- the two state machines

  /** The word before, after a stream has passed. */
  function PrevAfter(ws: seq<Word>): Option<Word>
  {
    if ws == [] then None else PrevOf(ws[|ws| - 1])
  }

  lemma {:induction false} LeftShiftedNext(prev: Option<Word>, ws: seq<Word>, w: Word, n: nat, offset: nat)
    requires Sizes(n, offset) && AllFit(ws, n) && Fits(w, n) && (prev.Some? ==> Fits(prev.value, n))
    ensures AllFit(ws + [w], n)
    ensures var p := if ws == [] then prev else PrevAfter(ws);
            (p.Some? ==> Fits(p.value, n))
            && LeftShifted(prev, ws + [w], n, offset) == LeftShifted(prev, ws, n, offset) + LeftOut(p, w, n, offset)
    decreases |ws|
  {
    hide LeftOut, Fits, LeftShifted;
    if ws == [] {
      assert [] + [w] == [w] && [w][1..] == [];
      LeftNone(prev, n, offset);
      LeftNone(PrevOf(w), n, offset);
      LeftFirst(prev, [w], n, offset);
    } else {
      assert (ws + [w])[1..] == ws[1..] + [w] && (ws + [w])[0] == ws[0];
      LeftShiftedNext(PrevOf(ws[0]), ws[1..], w, n, offset);
      assert PrevAfter(ws) == if ws[1..] == [] then PrevOf(ws[0]) else PrevAfter(ws[1..]);
      hide PrevAfter, PrevOf;
      LeftFirst(prev, ws, n, offset);
      LeftFirst(prev, ws + [w], n, offset);
    }
  }

  lemma NextFits(input: seq<Word>, n: nat)
    requires AllFit(input, n) && input != []
    ensures Fits(input[0], n) && AllFit(input[1..], n)
  {
  }

  lemma LeftNone(prev: Option<Word>, n: nat, offset: nat)
    requires Sizes(n, offset) && (prev.Some? ==> Fits(prev.value, n))
    ensures LeftShifted(prev, [], n, offset) == []
  {
  }

  lemma LeftFirst(prev: Option<Word>, ws: seq<Word>, n: nat, offset: nat)
    requires Sizes(n, offset) && AllFit(ws, n) && (prev.Some? ==> Fits(prev.value, n)) && ws != []
    ensures LeftShifted(prev, ws, n, offset) ==
            LeftOut(prev, ws[0], n, offset) + LeftShifted(PrevOf(ws[0]), ws[1..], n, offset)
  {
  }

  lemma {:induction false} RightShiftedNext(prev: Option<Word>, ws: seq<Word>, w: Word, n: nat, offset: nat)
    requires Sizes(n, offset) && AllFit(ws, n) && Fits(w, n) && (prev.Some? ==> Fits(prev.value, n))
    ensures AllFit(ws + [w], n)
    ensures var p := if ws == [] then prev else PrevAfter(ws);
            (p.Some? ==> Fits(p.value, n))
            && RightShifted(prev, ws + [w], n, offset) == RightShifted(prev, ws, n, offset) + RightOut(p, w, n, offset)
    decreases |ws|
  {
    hide RightOut;
    if ws == [] {
      assert [] + [w] == [w] && [w][1..] == [];
      assert RightShifted(PrevOf(w), [], n, offset) == [];
    } else {
      assert (ws + [w])[1..] == ws[1..] + [w] && (ws + [w])[0] == ws[0];
      RightShiftedNext(PrevOf(ws[0]), ws[1..], w, n, offset);
    }
  }

  /** lshiftWordByOctet: one call, one step; nothing happens when no word has arrived. */
  class LeftShifter {
    const n: nat
    const offset: nat
    var firstWord: bool
    var writeRemainder: bool
    var prevWord: Word
    var input: seq<Word>
    var output: seq<Word>
    ghost var taken: seq<Word>

    /** What is sent, and the remainder if one is due, is the shifted stream of the words taken. */
    ghost predicate Valid()
      reads this
    {
      && Sizes(n, offset) && AllFit(taken, n) && AllFit(input, n) && Fits(prevWord, n)
      && (writeRemainder ==> 0 < offset && prevWord.last && taken != [] && prevWord == taken[|taken| - 1])
      && (0 < offset ==> PrevAfter(taken) == if firstWord then None else Some(prevWord))
      && output + (if writeRemainder then [Overflow(prevWord, n, offset)] else [])
         == LeftShifted(None, taken, n, offset)
    }

    constructor (n: nat, offset: nat)
      requires Sizes(n, offset)
      ensures Valid() && this.n == n && this.offset == offset && taken == [] && output == [] && input == []
    {
      this.n, this.offset := n, offset;
      firstWord, writeRemainder, prevWord := true, false, Word(Zeros(n), Flags(n, false), false);
      input, output, taken := [], [], [];
    }

    method Step()
      requires Valid()
      modifies this
      ensures Valid() && taken + input == old(taken + input) && old(output) <= output
      ensures |output| == |old(output)| + (if old(writeRemainder || input != []) then 1 else 0)
      ensures if old(writeRemainder) then input == old(input) && !writeRemainder
              else old(input) != [] ==> input == old(input)[1..]
    {
      hide LeftShifted, Overflow, Up;
      if writeRemainder {
        output := output + [Overflow(prevWord, n, offset)];
        writeRemainder := false;
      } else if input != [] {
        Shift();
      }
    }

    method Shift()
      requires Valid() && !writeRemainder && input != []
      modifies this
      ensures Valid() && taken + input == old(taken + input) && old(output) <= output
      ensures |output| == |old(output)| + 1 && input == old(input)[1..]
    {
      hide LeftShifted, Overflow, Up, AllFit;
      NextFits(input, n);
      var currWord := input[0];
      LeftShiftedNext(None, taken, currWord, n, offset);
      input := input[1..];
      if offset == 0 {
        output := output + [currWord];
      } else {
        var sendWord := Up(if firstWord then None else Some(prevWord), currWord, n, offset);
        output := output + [sendWord];
        prevWord := currWord;
        firstWord := false;
        if currWord.last {
          firstWord := true;
          writeRemainder := !sendWord.last;
        }
      }
      taken := taken + [currWord];
    }
  }

  /** rshiftWordByOctet, for words without a destination. */
  class RightShifter {
    const n: nat
    const offset: nat
    var remainder: bool
    var firstWord: bool
    var prevWord: Word
    var input: seq<Word>
    var output: seq<Word>
    ghost var taken: seq<Word>

    ghost predicate Valid()
      reads this
    {
      && Sizes(n, offset) && AllFit(taken, n) && AllFit(input, n) && Fits(prevWord, n)
      && (remainder ==> 0 < offset && prevWord.last && taken != [] && prevWord == taken[|taken| - 1])
      && (0 < offset ==> PrevAfter(taken) == if firstWord then None else Some(prevWord))
      && (offset == 0 ==> !firstWord)
      && output + (if remainder then [Remainder(prevWord, n, offset)] else []) == RightShifted(None, taken, n, offset)
    }

    constructor (n: nat, offset: nat)
      requires Sizes(n, offset)
      ensures Valid() && this.n == n && this.offset == offset && taken == [] && output == [] && input == []
    {
      this.n, this.offset := n, offset;
      remainder, firstWord, prevWord := false, offset != 0, Word(Zeros(n), Flags(n, false), false);
      input, output, taken := [], [], [];
    }

    /** The first word of a packet is held back: no word is sent for it. */
    method Step()
      requires Valid()
      modifies this
      ensures Valid() && taken + input == old(taken + input) && old(output) <= output
      ensures |output| == |old(output)| + (if old(remainder || (input != [] && !firstWord)) then 1 else 0)
      ensures if old(remainder) then input == old(input) && !remainder
              else old(input) != [] ==> input == old(input)[1..]
    {
      hide RightShifted, Remainder, Down;
      if remainder {
        output := output + [Remainder(prevWord, n, offset)];
        remainder := false;
      } else if input != [] {
        Shift();
      }
    }

    method Shift()
      requires Valid() && !remainder && input != []
      modifies this
      ensures Valid() && taken + input == old(taken + input) && old(output) <= output
      ensures |output| == |old(output)| + (if old(firstWord) then 0 else 1) && input == old(input)[1..]
    {
      hide RightShifted, Remainder, Down, AllFit;
      NextFits(input, n);
      var currWord := input[0];
      RightShiftedNext(None, taken, currWord, n, offset);
      input := input[1..];
      var sendLast := false;
      if !firstWord {
        var sendWord := if offset == 0 then currWord else Down(prevWord, currWord, n, offset);
        sendLast := sendWord.last;
        output := output + [sendWord];
      }
      prevWord := currWord;
      firstWord := false;
      if currWord.last {
        firstWord := offset != 0;
        if !sendLast {
          remainder := true;
        }
      }
      taken := taken + [currWord];
    }
  }

  /** What happens next in a pipeline: a word arrives, a shifter takes a step, a word is handed on between them. */
  datatype Move = WordArrives | LeftStep | HandOn | RightStep

  /** A left shifter feeding a right shifter: fed words have arrived, handed words have passed between them. */
  ghost predicate Connected(left: LeftShifter, right: RightShifter, ws: seq<Word>, fed: nat, handed: nat)
    reads left, right
  {
    && left.Valid() && right.Valid() && left.n == right.n && left.offset == right.offset
    && fed <= |ws| && handed <= |left.output|
    && left.taken + left.input == ws[..fed]
    && right.taken + right.input == left.output[..handed]
  }

  /** One move; where there is nothing to do, nothing happens. */
  method MakeMove(left: LeftShifter, right: RightShifter, ws: seq<Word>, move: Move, fed: nat, handed: nat)
    returns (fed': nat, handed': nat)
    requires Connected(left, right, ws, fed, handed) && AllFit(ws, left.n)
    modifies left, right
    ensures Connected(left, right, ws, fed', handed')
  {
    hide LeftShifted, RightShifted;
    fed', handed' := fed, handed;
    match move {
      case WordArrives =>
        if fed < |ws| {
          left.input := left.input + [ws[fed]];
          assert ws[..fed + 1] == ws[..fed] + [ws[fed]];
          fed' := fed + 1;
        }
      case LeftStep => left.Step();
      case HandOn =>
        if handed < |left.output| {
          OutputFits(left);
          right.input := right.input + [left.output[handed]];
          assert left.output[..handed + 1] == left.output[..handed] + [left.output[handed]];
          handed' := handed + 1;
        }
      case RightStep => right.Step();
    }
  }

  lemma OutputFits(left: LeftShifter)
    requires left.Valid()
    ensures AllFit(left.output, left.n)
  {
    var all := LeftShifted(None, left.taken, left.n, left.offset);
    assert forall j :: 0 <= j < |left.output| ==> left.output[j] == all[j];
  }

  /** The left shifter does not stop before its input is used up... */
  method DrainLeft(left: LeftShifter, right: RightShifter, ws: seq<Word>, fed: nat, handed: nat)
    requires Connected(left, right, ws, fed, handed) && AllFit(ws, left.n)
    modifies left
    ensures Connected(left, right, ws, |ws|, handed) && left.input == [] && !left.writeRemainder
  {
    hide LeftShifted, RightShifted;
    assert ws[fed..] + [] == ws[fed..] && ws[..fed] + ws[fed..] == ws[..|ws|];
    left.input := left.input + ws[fed..];
    while left.writeRemainder || left.input != []
      invariant Connected(left, right, ws, |ws|, handed)
      decreases |left.input|, if left.writeRemainder then 1 else 0
    {
      left.Step();
    }
  }

  /** ... and neither does the right one. */
  method DrainRight(left: LeftShifter, right: RightShifter, ws: seq<Word>, fed: nat, handed: nat)
    requires Connected(left, right, ws, fed, handed)
    modifies right
    ensures Connected(left, right, ws, fed, |left.output|) && right.input == [] && !right.remainder
  {
    hide LeftShifted, RightShifted;
    OutputFits(left);
    var all := left.output;
    assert all[..handed] + all[handed..] == all[..|all|];
    right.input := right.input + all[handed..];
    while right.remainder || right.input != []
      invariant Connected(left, right, ws, fed, |left.output|)
      decreases |right.input|, if right.remainder then 1 else 0
    {
      right.Step();
    }
  }

  lemma AllThrough(left: LeftShifter, right: RightShifter, ws: seq<Word>)
    requires Connected(left, right, ws, |ws|, |left.output|) && AllWellFormed(ws, left.n) && Complete(ws)
    requires left.input == right.input == [] && !left.writeRemainder && !right.remainder
    ensures AllSame(right.output, ws)
  {
    hide LeftShifted, RightShifted;
    assert left.taken == ws && right.taken == left.output;
    assert left.output + [] == left.output && right.output + [] == right.output;
    RightAfterLeft(None, ws, left.n, left.offset);
  }

  /**
   * A left shifter feeding a right shifter is the identity on streams of packets: for every order in which words
   * arrive and the shifters take their steps or wait.
   */
  method ShiftThereAndBack(ws: seq<Word>, n: nat, offset: nat, schedule: seq<Move>) returns (out: seq<Word>)
    requires Sizes(n, offset) && AllWellFormed(ws, n) && Complete(ws)
    ensures AllSame(out, ws)
  {
    hide LeftShifted, RightShifted;
    WellFormedFit(ws, n);
    var left := new LeftShifter(n, offset);
    var right := new RightShifter(n, offset);
    var fed, handed := 0, 0;
    for i := 0 to |schedule|
      invariant fresh(left) && fresh(right) && left.n == n && left.offset == offset
      invariant Connected(left, right, ws, fed, handed)
    {
      fed, handed := MakeMove(left, right, ws, schedule[i], fed, handed);
    }
    DrainLeft(left, right, ws, fed, handed);
    DrainRight(left, right, ws, |ws|, handed);
    AllThrough(left, right, ws);
    out := right.output;
  }
}

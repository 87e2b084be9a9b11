/** Stream width converters: words of n bytes are packed D to a wide word, and unpacked again. */
module AxiWidth {
  import opened Powers
  import opened Bits
  import opened AxiShift

  // ---------------------------------------------------------------- groups

  /** The byte at which word j starts. */
  function At(j: nat, n: nat): nat
  {
    j * n
  }

  /** The words that one wide word holds: D of them, or fewer at the end of a packet. */
  ghost predicate IsGroup(g: seq<Word>, n: nat, D: nat)
  {
    && 0 < |g| <= D && AllWellFormed(g, n)
    && (forall j :: 0 <= j < |g| - 1 ==> !g[j].last)
    && (|g| == D || g[|g| - 1].last)
  }

  /** Word j starts at byte At(j, n) of the wide word; bytes and keep flags behind the last one: none count. */
  ghost predicate Packs(w: Word, g: seq<Word>, n: nat, D: nat)
  {
    && Fits(w, At(D, n)) && g != [] && At(|g|, n) <= At(D, n) && w.last == g[|g| - 1].last
    && (forall j :: 0 <= j < |g| ==> PartIs(w, j, g[j], n))
    && (forall i :: At(|g|, n) <= i < At(D, n) ==> !w.keep[i])
  }

  ghost predicate PartIs(w: Word, j: nat, v: Word, n: nat)
  {
    && Fits(v, n) && At(j, n) + n <= |w.data| && |w.keep| == |w.data|
    && w.data[At(j, n)..At(j, n) + n] == v.data && w.keep[At(j, n)..At(j, n) + n] == v.keep
  }

  function Flatten(gs: seq<seq<Word>>): seq<Word>
  {
    if gs == [] then [] else Flatten(gs[..|gs| - 1]) + gs[|gs| - 1]
  }

  lemma FlattenNext(gs: seq<seq<Word>>, g: seq<Word>)
    ensures Flatten(gs + [g]) == Flatten(gs) + g
  {
    assert (gs + [g])[..|gs|] == gs;
  }

  /** Wide words, one for each group. */
  ghost predicate AllPack(ws: seq<Word>, gs: seq<seq<Word>>, n: nat, D: nat)
  {
    |ws| == |gs| && forall j :: 0 <= j < |ws| ==> IsGroup(gs[j], n, D) && Packs(ws[j], gs[j], n, D)
  }

  lemma Offsets(j: nat, k: nat, n: nat)
    requires j < k
    ensures At(j, n) + n == At(j + 1, n) <= At(k, n) && At(0, n) == 0
  {
    OneMore(j, n);
    MulMonotone(n, j + 1, k);
    assert n * (j + 1) == (j + 1) * n && n * k == k * n;
  }

  // ---------------------------------------------------------------- increaseStreamWidth

  class Widener {
    const n: nat
    const D: nat
    var count: nat
    var data: seq<byte>
    var keep: seq<bool>
    var last: bool
    var input: seq<Word>
    var output: seq<Word>
    ghost var taken: seq<Word>
    ghost var groups: seq<seq<Word>>
    ghost var pending: seq<Word>

    ghost function Temp(): Word
      reads this`data, this`keep, this`last
    {
      Word(data, keep, last)
    }

    /** The words taken are those of the wide words written, and those that wait in the wide word at hand. */
    ghost predicate Valid()
      reads this
    {
      && 0 < n && 2 <= D && |data| == |keep| == At(D, n) && count == |pending| < D && At(count, n) <= At(D, n)
      && AllWellFormed(taken, n) && AllWellFormed(input, n) && AllWellFormed(pending, n)
      && AllPack(output, groups, n, D) && taken == Flatten(groups) + pending
      && (forall j :: 0 <= j < count ==> !pending[j].last && PartIs(Temp(), j, pending[j], n))
      && (forall i :: At(count, n) <= i < At(D, n) ==> !keep[i])
    }

    constructor (n: nat, D: nat)
      requires 0 < n && 2 <= D
      ensures Valid() && this.n == n && this.D == D && taken == [] && input == [] && output == []
    {
      this.n, this.D := n, D;
      count, last := 0, false;
      data, keep := Zeros(At(D, n)), Flags(At(D, n), false);
      input, output, taken, groups, pending := [], [], [], [], [];
    }

    /** One step. The data of the wide word keeps what an earlier word left; only its keep flags are cleared. */
    method Step()
      requires Valid()
      modifies this
      ensures Valid() && taken + input == old(taken + input) && old(output) <= output
      ensures old(input) != [] ==> input == old(input)[1..]
    {
      if input != [] {
        var currWord := input[0];
        assert WellFormed(currWord, n);
        Offsets(count, D, n);
        Place(currWord);
        if currWord.last || count == D {
          Write();
        }
      }
    }

    /** Puts the word into the wide word. */
    method Place(currWord: Word)
      requires Valid() && input != [] && currWord == input[0] && WellFormed(currWord, n)
      requires At(count, n) + n == At(count + 1, n) <= At(D, n)
      modifies this`count, this`data, this`keep, this`last, this`input, this`taken, this`pending
      ensures 0 < n && 2 <= D && |data| == |keep| == At(D, n) && 0 < count == |pending| <= D && At(count, n) <= At(D, n)
      ensures AllWellFormed(taken, n) && AllWellFormed(input, n) && AllWellFormed(pending, n)
      ensures taken == Flatten(groups) + pending && taken + input == old(taken + input) && input == old(input)[1..]
      ensures last == pending[count - 1].last == currWord.last
      ensures forall j :: 0 <= j < count - 1 ==> !pending[j].last
      ensures forall j :: 0 <= j < count ==> PartIs(Temp(), j, pending[j], n)
      ensures forall i :: At(count, n) <= i < At(D, n) ==> !keep[i]
    {
      hide Flatten, WellFormed, At, PartIs, AllWellFormed, AllPack;
      ghost var before := Temp();
      var at := At(count, n);
      FitsIfWellFormed(currWord, n);
      TakeWord(taken, input, pending, n);
      data := data[..at] + currWord.data + data[at + n..];
      keep := keep[..at] + currWord.keep + keep[at + n..];
      last := currWord.last;
      PlacedIn(before, Temp(), count, currWord, pending, n);
      count := count + 1;
      input := input[1..];
      taken := taken + [currWord];
      pending := pending + [currWord];
    }

    /** Sends the wide word. */
    method Write()
      requires 0 < n && 2 <= D && |data| == |keep| == At(D, n) && 0 < count == |pending| <= D
      requires At(count, n) <= At(D, n)
      requires AllWellFormed(taken, n) && AllWellFormed(input, n) && AllWellFormed(pending, n)
      requires AllPack(output, groups, n, D) && taken == Flatten(groups) + pending
      requires last == pending[count - 1].last && (last || count == D)
      requires forall j :: 0 <= j < count - 1 ==> !pending[j].last
      requires forall j :: 0 <= j < count ==> PartIs(Temp(), j, pending[j], n)
      requires forall i :: At(count, n) <= i < At(D, n) ==> !keep[i]
      modifies this`count, this`keep, this`output, this`groups, this`pending
      ensures Valid() && old(output) <= output
    {
      hide Flatten, WellFormed, PartIs;
      FlattenNext(groups, pending);
      assert Packs(Temp(), pending, n, D) && IsGroup(pending, n, D);
      output := output + [Word(data, keep, last)];
      groups, pending := groups + [pending], [];
      assert Flatten(groups) + pending == Flatten(groups);
      count := 0;
      keep := Flags(|keep|, false);
    }
  }

  lemma TakeWord(taken: seq<Word>, input: seq<Word>, pending: seq<Word>, n: nat)
    requires AllWellFormed(taken, n) && AllWellFormed(input, n) && AllWellFormed(pending, n) && input != []
    ensures AllWellFormed(taken + [input[0]], n) && AllWellFormed(input[1..], n)
    ensures AllWellFormed(pending + [input[0]], n) && taken + [input[0]] + input[1..] == taken + input
  {
    hide WellFormed;
  }

  /** A word put at its place leaves the words before it alone, and everything behind it. */
  lemma PlacedIn(w: Word, w': Word, c: nat, v: Word, pending: seq<Word>, n: nat)
    requires |w.data| == |w.keep| && At(c, n) + n <= |w.data| && Fits(v, n) && |pending| == c
    requires w'.data == w.data[..At(c, n)] + v.data + w.data[At(c, n) + n..]
    requires w'.keep == w.keep[..At(c, n)] + v.keep + w.keep[At(c, n) + n..]
    requires forall j :: 0 <= j < c ==> PartIs(w, j, pending[j], n)
    ensures |w'.data| == |w'.keep| == |w.data|
    ensures forall j :: 0 <= j <= c ==> PartIs(w', j, (pending + [v])[j], n)
    ensures forall i :: At(c, n) + n <= i < |w.keep| ==> w'.keep[i] == w.keep[i]
  {
    hide At;
    forall j | 0 <= j < c
      ensures PartIs(w', j, pending[j], n)
    {
      Offsets(j, c, n);
      assert w'.data[At(j, n)..At(j, n) + n] == w.data[At(j, n)..At(j, n) + n];
      assert w'.keep[At(j, n)..At(j, n) + n] == w.keep[At(j, n)..At(j, n) + n];
    }
    assert PartIs(w', c, v, n);
  }

  lemma FitsIfWellFormed(w: Word, n: nat)
    requires WellFormed(w, n)
    ensures Fits(w, n)
  {
  }

  // ---------------------------------------------------------------- reduceStreamWidth

  /**
   * Part j of a wide word: it is the last one if the next part holds nothing, or if it is part D - 1 of the last word.
   */
  function Part(w: Word, j: nat, n: nat, D: nat): Word
    requires j < D && Fits(w, At(D, n)) && 0 < n && At(j, n) + n <= At(D, n)
    requires j < D - 1 ==> At(j + 1, n) < At(D, n)
  {
    Word(w.data[At(j, n)..At(j, n) + n], w.keep[At(j, n)..At(j, n) + n],
         if j < D - 1 then !w.keep[At(j + 1, n)] else w.last)
  }

  function Parts(w: Word, j: nat, n: nat, D: nat): seq<Word>
    requires j < D && Fits(w, At(D, n)) && 0 < n
    decreases D - j
  {
    Offsets(j, D, n);
    if j == D - 1 then [Part(w, j, n, D)]
    else
      Offsets(j + 1, D, n);
      var part := Part(w, j, n, D);
      if part.last then [part] else [part] + Parts(w, j + 1, n, D)
  }

  /** Unpacking a wide word gives the words that were packed, whole. */
  lemma {:induction false} PartsOfPacked(w: Word, g: seq<Word>, n: nat, D: nat, j: nat)
    requires 0 < n && IsGroup(g, n, D) && Packs(w, g, n, D) && j < |g|
    ensures Parts(w, j, n, D) == g[j..]
    decreases D - j
  {
    Offsets(j, D, n);
    assert PartIs(w, j, g[j], n);
    if j == D - 1 {
      assert g[j..] == [g[j]];
    } else {
      Offsets(j + 1, D, n);
      NextPartKept(w, g, n, D, j);
      assert Part(w, j, n, D) == g[j];
      if j < |g| - 1 {
        PartsOfPacked(w, g, n, D, j + 1);
        assert g[j..] == [g[j]] + g[j + 1..];
      } else {
        assert g[j..] == [g[j]];
      }
    }
  }

  /** The first keep flag of the next part says whether there is a next word. */
  lemma NextPartKept(w: Word, g: seq<Word>, n: nat, D: nat, j: nat)
    requires 0 < n && IsGroup(g, n, D) && Packs(w, g, n, D) && j < |g| && j < D - 1 && At(j + 1, n) < At(D, n)
    ensures w.keep[At(j + 1, n)] == (j < |g| - 1)
    ensures (j < |g| - 1) == !g[j].last
  {
    if j < |g| - 1 {
      assert PartIs(w, j + 1, g[j + 1], n) && WellFormed(g[j + 1], n);
      var m := At(j + 1, n);
      assert w.keep[m] == w.keep[m..m + n][0] == g[j + 1].keep[0];
    } else {
      assert At(j + 1, n) == At(|g|, n);
    }
  }

  /** The wide word after count shifts; the top part keeps what was there, but none of it counts. */
  ghost predicate ShiftedTo(data: seq<byte>, keep: seq<bool>, w: Word, count: nat, n: nat, D: nat): (r: bool)
    ensures r ==> Fits(w, At(D, n)) && |data| == |keep| == At(D, n)
  {
    && Fits(w, At(D, n)) && |data| == |keep| == At(D, n) && count <= D && At(D - count, n) + At(count, n) == At(D, n)
    && forall i :: 0 <= i < At(D - count, n) ==>
         data[i] == w.data[At(count, n) + i] && keep[i] == w.keep[At(count, n) + i]
  }

  lemma ShiftOnce(data: seq<byte>, keep: seq<bool>, w: Word, count: nat, n: nat, D: nat)
    requires 0 < n && count < D && ShiftedTo(data, keep, w, count, n, D)
    ensures n <= At(D, n) && At(D - 1, n) + n == At(D, n)
    ensures ShiftedTo(data[n..] + data[At(D - 1, n)..], keep[n..] + Flags(n, false), w, count + 1, n, D)
  {
    Offsets(D - 1, D, n);
    Offsets(count, D, n);
    Offsets(D - count - 1, D, n);
    hide At;
  }

  class Narrower {
    const n: nat
    const D: nat
    var second: bool
    var count: nat
    var data: seq<byte>
    var keep: seq<bool>
    var last: bool
    var input: seq<Word>
    var output: seq<Word>
    ghost var taken: seq<Word>
    ghost var wide: Word

    /** What is written, and what is still to come of the wide word at hand, are the parts of the words taken. */
    ghost predicate Valid()
      reads this
    {
      && 0 < n && 2 <= D && AllFit(taken, At(D, n)) && AllFit(input, At(D, n))
      && |data| == |keep| == At(D, n)
      && (second ==> 1 <= count < D && ShiftedTo(data, keep, wide, count, n, D) && last == wide.last)
      && output + (if second then Parts(wide, count, n, D) else []) == AllParts(taken, n, D)
    }

    constructor (n: nat, D: nat)
      requires 0 < n && 2 <= D
      ensures Valid() && this.n == n && this.D == D && taken == [] && input == [] && output == []
    {
      this.n, this.D := n, D;
      second, count, last := false, 0, false;
      data, keep := Zeros(At(D, n)), Flags(At(D, n), false);
      input, output, taken := [], [], [];
    }

    method Step()
      requires Valid()
      modifies this
      ensures Valid() && taken + input == old(taken + input) && old(output) <= output
      ensures |output| == |old(output)| + (if old(second || input != []) then 1 else 0)
      ensures if old(second) then input == old(input) && (second ==> old(count) < count < D)
              else old(input) != [] ==> input == old(input)[1..]
    {
      hide Parts, AllParts, ShiftedTo;
      if !second {
        if input != [] {
          First();
        }
      } else {
        Second();
      }
    }

    method Shift(ghost w: Word, ghost c: nat)
      requires 0 < n && 2 <= D && c < D && ShiftedTo(data, keep, w, c, n, D)
      modifies this`data, this`keep
      ensures ShiftedTo(data, keep, w, c + 1, n, D)
    {
      hide At;
      ShiftOnce(data, keep, w, c, n, D);
      data := data[n..] + data[At(D - 1, n)..];
      keep := keep[n..] + Flags(n, false);
    }

    method First()
      requires Valid() && !second && input != []
      modifies this
      ensures Valid() && taken + input == old(taken + input) && old(output) <= output
      ensures |output| == |old(output)| + 1 && input == old(input)[1..]
    {
      hide AllParts, Parts, Part, At, ShiftedTo, AllFit;
      NextFits(input, At(D, n));
      var currWord := input[0];
      AllPartsNext(taken, currWord, n, D);
      FirstPart(currWord, n, D);
      input := input[1..];
      wide := currWord;
      data, keep, last := currWord.data, currWord.keep, currWord.last;
      output := output + [Word(data[..n], keep[..n], !keep[n])];
      if keep[n] {
        count := 1;
        second := true;
      }
      taken := taken + [currWord];
      NotShifted(currWord, n, D);
      Shift(wide, 0);
    }

    method Second()
      requires Valid() && second
      modifies this
      ensures Valid() && taken == old(taken) && input == old(input) && old(output) <= output
      ensures |output| == |old(output)| + 1 && (second ==> old(count) < count < D)
    {
      hide AllParts, Parts, Part, At, ShiftedTo;
      NextPart(data, keep, wide, count, n, D);
      ghost var c := count;
      var tempLast := if count < D - 1 then !keep[n] else last;
      ghost var rest := Parts(wide, count, n, D);
      output := output + [Word(data[..n], keep[..n], tempLast)];
      Shift(wide, count);
      count := count + 1;
      if count == D || tempLast {
        second := false;
      }
    }
  }

  lemma NotShifted(w: Word, n: nat, D: nat)
    requires Fits(w, At(D, n))
    ensures ShiftedTo(w.data, w.keep, w, 0, n, D)
  {
  }

  lemma FirstPart(w: Word, n: nat, D: nat)
    requires 0 < n && 2 <= D && Fits(w, At(D, n))
    ensures n < At(D, n)
    ensures var part := Word(w.data[..n], w.keep[..n], !w.keep[n]);
            Parts(w, 0, n, D) == [part] + (if w.keep[n] then Parts(w, 1, n, D) else [])
  {
    Offsets(0, D, n);
    Offsets(1, D, n);
    assert Part(w, 0, n, D) == Word(w.data[..n], w.keep[..n], !w.keep[n]);
  }

  lemma NextPart(data: seq<byte>, keep: seq<bool>, w: Word, count: nat, n: nat, D: nat)
    requires 0 < n && count < D && ShiftedTo(data, keep, w, count, n, D)
    ensures n <= At(D, n) && (count < D - 1 ==> n < At(D, n))
    ensures var last := if count < D - 1 then !keep[n] else w.last;
            var part := Word(data[..n], keep[..n], last);
            Parts(w, count, n, D) == [part] + (if count == D - 1 || last then [] else Parts(w, count + 1, n, D))
  {
    hide At;
    Offsets(0, D, n);
    Offsets(count, D, n);
    Offsets(D - count - 1, D, n);
    if count < D - 1 {
      Offsets(count + 1, D, n);
      Offsets(D - count - 2, D, n);
    }
    var part := Part(w, count, n, D);
    assert data[..n] == part.data && keep[..n] == part.keep;
  }

  lemma AllPartsNext(ws: seq<Word>, w: Word, n: nat, D: nat)
    requires 0 < n && 2 <= D && AllFit(ws, At(D, n)) && Fits(w, At(D, n))
    ensures AllFit(ws + [w], At(D, n)) && AllParts(ws + [w], n, D) == AllParts(ws, n, D) + Parts(w, 0, n, D)
  {
    assert (ws + [w])[..|ws|] == ws;
  }

  function AllParts(ws: seq<Word>, n: nat, D: nat): seq<Word>
    requires 0 < n && 0 < D && AllFit(ws, At(D, n))
  {
    if ws == [] then [] else AllParts(ws[..|ws| - 1], n, D) + Parts(ws[|ws| - 1], 0, n, D)
  }

  /**
   * Narrowing what was widened gives back the stream: every word with all its bytes, its keep flags and its last flag.
   */
  lemma {:induction false} NarrowAfterWide(ws: seq<Word>, gs: seq<seq<Word>>, n: nat, D: nat)
    requires 0 < n && 2 <= D && AllPack(ws, gs, n, D)
    ensures AllFit(ws, At(D, n)) && AllParts(ws, n, D) == Flatten(gs)
  {
    hide Parts, IsGroup;
    if ws != [] {
      var k := |ws| - 1;
      NarrowAfterWide(ws[..k], gs[..k], n, D);
      assert IsGroup(gs[k], n, D) && Packs(ws[k], gs[k], n, D);
      WholeGroup(ws[k], gs[k], n, D);
    }
  }

  lemma WholeGroup(w: Word, g: seq<Word>, n: nat, D: nat)
    requires 0 < n && IsGroup(g, n, D) && Packs(w, g, n, D)
    ensures 0 < D && Fits(w, At(D, n)) && Parts(w, 0, n, D) == g
  {
    PartsOfPacked(w, g, n, D, 0);
    assert g[0..] == g;
  }

  // ---------------------------------------------------------------- bytes of wide words

  /** A wide word holds the bytes of its words in order, and ends a packet where the last of them does. */
  lemma PackedBytes(w: Word, g: seq<Word>, n: nat, D: nat)
    requires 0 < n && IsGroup(g, n, D) && Packs(w, g, n, D) && AllFit(g, n)
    ensures Kept(w.data, w.keep) == Bytes(g, n) && w.last == g[|g| - 1].last
  {
    hide Kept, Bytes, At, AllFit, PartIs, IsGroup;
    var m := At(|g|, n);
    PackedPrefix(w, g, n, D, |g|);
    assert g[..|g|] == g;
    assert w.data == w.data[..m] + w.data[m..] && w.keep == w.keep[..m] + w.keep[m..];
    KeptInParts(w.data[..m], w.keep[..m], w.data[m..], w.keep[m..]);
    NothingKept(w.data[m..], w.keep[m..]);
  }

  lemma {:induction false} PackedPrefix(w: Word, g: seq<Word>, n: nat, D: nat, j: nat)
    requires 0 < n && Packs(w, g, n, D) && AllFit(g, n) && j <= |g|
    ensures At(j, n) <= At(|g|, n) && Kept(w.data[..At(j, n)], w.keep[..At(j, n)]) == Bytes(g[..j], n)
  {
    hide At, Kept, Bytes, Packs, PartIs, AllFit, Fits;
    PacksPart(w, g, n, D, j);
    if j == 0 {
      PackedNone(w, g, n);
    } else {
      PackedPrefix(w, g, n, D, j - 1);
      Offsets(j - 1, |g|, n);
      KeptMore(w, At(j - 1, n), g[j - 1], n);
      BytesNext(g[..j - 1], g[j - 1], n);
      assert g[..j] == g[..j - 1] + [g[j - 1]];
    }
  }

  lemma PacksPart(w: Word, g: seq<Word>, n: nat, D: nat, j: nat)
    requires Packs(w, g, n, D) && AllFit(g, n) && j <= |g|
    ensures g != [] && At(|g|, n) <= |w.data| == |w.keep| && AllFit(g[..j], n)
    ensures j > 0 ==>
              var m, v := At(j - 1, n), g[j - 1];
              && Fits(v, n) && m + n <= |w.data| && w.data[m..m + n] == v.data && w.keep[m..m + n] == v.keep
              && AllFit(g[..j - 1], n)
  {
    hide At, Fits;
    assert j > 0 ==> PartIs(w, j - 1, g[j - 1], n);
    SizesOf(w, At(D, n));
  }

  lemma SizesOf(w: Word, n: nat)
    ensures Fits(w, n) ==> |w.data| == |w.keep| == n
  {
  }

  lemma PackedNone(w: Word, g: seq<Word>, n: nat)
    requires g != [] && |w.data| == |w.keep|
    ensures At(0, n) == 0 <= At(|g|, n) && Kept(w.data[..At(0, n)], w.keep[..At(0, n)]) == Bytes(g[..0], n)
  {
    Offsets(0, |g|, n);
    assert w.data[..0] == [] && g[..0] == [];
  }

  lemma KeptMore(w: Word, m: nat, v: Word, n: nat)
    requires Fits(v, n) && m + n <= |w.data| == |w.keep| && w.data[m..m + n] == v.data && w.keep[m..m + n] == v.keep
    ensures Kept(w.data[..m + n], w.keep[..m + n]) == Kept(w.data[..m], w.keep[..m]) + Kept(v.data, v.keep)
  {
    hide Kept;
    assert w.data[..m + n] == w.data[..m] + w.data[m..m + n] && w.keep[..m + n] == w.keep[..m] + w.keep[m..m + n];
    KeptInParts(w.data[..m], w.keep[..m], v.data, v.keep);
  }

  lemma {:induction false} BytesNext(ws: seq<Word>, w: Word, n: nat)
    requires AllFit(ws, n) && Fits(w, n)
    ensures AllFit(ws + [w], n) && Bytes(ws + [w], n) == Bytes(ws, n) + Kept(w.data, w.keep)
  {
    hide Kept;
    if ws == [] {
      assert [] + [w] == [w] && [w][1..] == [];
      assert Bytes([], n) == [];
    } else {
      BytesNext(ws[1..], w, n);
      assert (ws + [w])[1..] == ws[1..] + [w] && (ws + [w])[0] == ws[0];
    }
  }

  /**
   * What happens next in a pipeline: a word arrives, a converter takes a step, a wide word is handed on between them.
   */
  datatype Move = WordArrives | WidenStep | HandOn | NarrowStep

  /** A widener feeding a narrower: fed words have arrived, handed wide words have passed between them. */
  ghost predicate Connected(wide: Widener, narrow: Narrower, ws: seq<Word>, fed: nat, handed: nat)
    reads wide, narrow
  {
    && wide.Valid() && narrow.Valid() && wide.n == narrow.n && wide.D == narrow.D
    && fed <= |ws| && handed <= |wide.output|
    && wide.taken + wide.input == ws[..fed]
    && narrow.taken + narrow.input == wide.output[..handed]
  }

  lemma OutputFits(wide: Widener)
    requires wide.Valid()
    ensures AllFit(wide.output, At(wide.D, wide.n))
  {
    NarrowAfterWide(wide.output, wide.groups, wide.n, wide.D);
  }

  /** One move; where there is nothing to do, nothing happens. */
  method MakeMove(wide: Widener, narrow: Narrower, ws: seq<Word>, move: Move, fed: nat, handed: nat)
    returns (fed': nat, handed': nat)
    requires Connected(wide, narrow, ws, fed, handed) && AllWellFormed(ws, wide.n)
    modifies wide, narrow
    ensures Connected(wide, narrow, ws, fed', handed')
  {
    hide AllParts, Parts, ShiftedTo, PartIs, Flatten, AllPack;
    fed', handed' := fed, handed;
    match move {
      case WordArrives =>
        if fed < |ws| {
          wide.input := wide.input + [ws[fed]];
          assert ws[..fed + 1] == ws[..fed] + [ws[fed]];
          fed' := fed + 1;
        }
      case WidenStep => wide.Step();
      case HandOn =>
        if handed < |wide.output| {
          OutputFits(wide);
          narrow.input := narrow.input + [wide.output[handed]];
          assert wide.output[..handed + 1] == wide.output[..handed] + [wide.output[handed]];
          handed' := handed + 1;
        }
      case NarrowStep => narrow.Step();
    }
  }

  /** The widener does not stop before its input is used up... */
  method DrainWide(wide: Widener, narrow: Narrower, ws: seq<Word>, fed: nat, handed: nat)
    requires Connected(wide, narrow, ws, fed, handed) && AllWellFormed(ws, wide.n)
    modifies wide
    ensures Connected(wide, narrow, ws, |ws|, handed) && wide.input == []
  {
    hide AllParts, Parts, ShiftedTo, PartIs, Flatten, AllPack;
    assert ws[..fed] + ws[fed..] == ws[..|ws|];
    wide.input := wide.input + ws[fed..];
    while wide.input != []
      invariant Connected(wide, narrow, ws, |ws|, handed)
      decreases |wide.input|
    {
      wide.Step();
    }
  }

  /** ... and neither does the narrower. */
  method DrainNarrow(wide: Widener, narrow: Narrower, ws: seq<Word>, fed: nat, handed: nat)
    requires Connected(wide, narrow, ws, fed, handed)
    modifies narrow
    ensures Connected(wide, narrow, ws, fed, |wide.output|) && narrow.input == [] && !narrow.second
  {
    hide AllParts, Parts, ShiftedTo, PartIs, Flatten, AllPack;
    OutputFits(wide);
    var all := wide.output;
    assert all[..handed] + all[handed..] == all[..|all|];
    narrow.input := narrow.input + all[handed..];
    while narrow.second || narrow.input != []
      invariant Connected(wide, narrow, ws, fed, |wide.output|)
      decreases |narrow.input|, if narrow.second then narrow.D - narrow.count else 0
    {
      narrow.Step();
    }
  }

  /** A stream that ends with a packet has no words that wait for more. */
  lemma EndsWithGroup(a: seq<Word>, p: seq<Word>)
    requires Complete(a + p) && forall j :: 0 <= j < |p| ==> !p[j].last
    ensures p == []
  {
    assert p != [] ==> (a + p)[|a + p| - 1] == p[|p| - 1];
  }

  lemma AllThrough(wide: Widener, narrow: Narrower, ws: seq<Word>)
    requires Connected(wide, narrow, ws, |ws|, |wide.output|) && Complete(ws)
    requires wide.input == [] && narrow.input == [] && !narrow.second
    ensures narrow.output == ws
  {
    hide AllParts, Parts, ShiftedTo, PartIs, Flatten, AllPack;
    assert wide.taken == ws && narrow.taken == wide.output;
    assert narrow.output + [] == narrow.output;
    EndsWithGroup(Flatten(wide.groups), wide.pending);
    assert Flatten(wide.groups) + [] == Flatten(wide.groups);
    NarrowAfterWide(wide.output, wide.groups, wide.n, wide.D);
  }

  /**
   * A widener feeding a narrower is the identity on streams of packets, for every order in which words arrive and
   * the converters take their steps or wait.
   */
  method WidenAndNarrow(ws: seq<Word>, n: nat, D: nat, schedule: seq<Move>) returns (out: seq<Word>)
    requires 0 < n && 2 <= D && AllWellFormed(ws, n) && Complete(ws)
    ensures out == ws
  {
    hide AllParts, Parts, ShiftedTo, PartIs, Flatten, AllPack;
    var wide := new Widener(n, D);
    var narrow := new Narrower(n, D);
    var fed, handed := 0, 0;
    for i := 0 to |schedule|
      invariant fresh(wide) && fresh(narrow) && wide.n == n && wide.D == D
      invariant Connected(wide, narrow, ws, fed, handed)
    {
      fed, handed := MakeMove(wide, narrow, ws, schedule[i], fed, handed);
    }
    DrainWide(wide, narrow, ws, fed, handed);
    DrainNarrow(wide, narrow, ws, |ws|, handed);
    AllThrough(wide, narrow, ws);
    out := narrow.output;
  }
}

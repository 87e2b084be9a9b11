/** Code lengths from symbol frequencies: the package-merge loops over rows of coins. */
module CodeLengths {
  import opened Powers
  import opened Canonical
  import opened CoinSort
  import opened PackageMerge
  import opened MergeOptimal

  const NO_COIN: Coin := Coin([], 0)

  // ---------------------------------------------------------------- coins and the trees they stand for

  /** A reordering of the coins of some trees is the coins of a reordering of the trees. */
  lemma {:induction false} Reorder(ts: seq<Tree>, freq: seq<nat>, coins: seq<Coin>) returns (ts': seq<Tree>)
    requires multiset(coins) == multiset(CoinsOf(ts, freq))
    ensures CoinsOf(ts', freq) == coins && multiset(ts') == multiset(ts)
    decreases |coins|
  {
    hide CoinOf;
    SameSize(coins, CoinsOf(ts, freq));
    if coins == [] {
      ts' := [];
    } else {
      var i := MatchLast(coins, CoinsOf(ts, freq));
      var front := Without(coins, |coins| - 1);
      CoinsWithout(ts, freq, i);
      var head := Reorder(Without(ts, i), freq, front);
      ts' := head + [ts[i]];
      hide Without;
      WithoutMultiset(ts, i);
      CoinsAppend(head, ts[i], freq);
      LastOff(coins);
    }
  }

  lemma CoinsWithout(ts: seq<Tree>, freq: seq<nat>, i: nat)
    requires i < |ts|
    ensures CoinsOf(Without(ts, i), freq) == Without(CoinsOf(ts, freq), i)
    ensures CoinsOf(ts, freq)[i] == CoinOf(ts[i], freq)
  {
    hide CoinOf;
  }

  lemma CoinsAppend(head: seq<Tree>, t: Tree, freq: seq<nat>)
    ensures CoinsOf(head + [t], freq) == CoinsOf(head, freq) + [CoinOf(t, freq)]
    ensures multiset(head + [t]) == multiset(head) + multiset{t}
  {
    hide CoinOf;
  }

  lemma LastOff(coins: seq<Coin>)
    requires coins != []
    ensures coins == Without(coins, |coins| - 1) + [coins[|coins| - 1]]
  {
  }

  lemma SortedIsAscending(ts: seq<Tree>, freq: seq<nat>)
    requires Sorted(CoinsOf(ts, freq))
    ensures Ascending(ts, freq)
  {
    forall i, j | 0 <= i < j < |ts|
      ensures UseWeight(Uses(ts[i]), freq) <= UseWeight(Uses(ts[j]), freq)
    {
      assert CoinsOf(ts, freq)[i].weight <= CoinsOf(ts, freq)[j].weight;
    }
  }

  lemma PairCoin(a: Tree, b: Tree, freq: seq<nat>)
    ensures CoinOf(Pair(a, b), freq)
         == Coin(CoinOf(a, freq).symbols + CoinOf(b, freq).symbols, CoinOf(a, freq).weight + CoinOf(b, freq).weight)
  {
    WeightValueAppend(Uses(a), Uses(b), freq);
    assert Symbols(Uses(a) + Uses(b)) == Symbols(Uses(a)) + Symbols(Uses(b));
  }

  lemma SingleCoin(s: nat, l: nat, freq: seq<nat>)
    requires s < |freq|
    ensures CoinOf(Single(s, l), freq) == Coin([s], freq[s])
  {
    var u := [Use(s, l)];
    assert UseWeight(u, freq) == UseWeight(u[..0], freq) + Freq(freq, s);
    assert Symbols(u) == [s];
  }

  lemma RowsAppend(rows: seq<seq<Tree>>, freq: seq<nat>, maxbitlen: nat, row: seq<Tree>)
    requires AreRows(rows, freq, maxbitlen) && |rows| <= maxbitlen
    requires Ascending(row, freq)
    requires multiset(row) == multiset(RowContents(rows, freq, maxbitlen, |rows|))
    ensures AreRows(rows + [row], freq, maxbitlen)
  {
    hide Ascending, Singles, Packages;
    var all := rows + [row];
    forall j | 0 <= j < |all|
      ensures IsRow(all, freq, maxbitlen, j)
    {
      assert RowContents(all, freq, maxbitlen, j) == RowContents(rows, freq, maxbitlen, j);
      if j < |rows| {
        assert IsRow(rows, freq, maxbitlen, j);
      }
    }
  }

  // ---------------------------------------------------------------- the loops

  /** The coins that hold no symbol yet. */
  ghost predicate Empty(coins: array<Coin>, from: nat)
    reads coins
  {
    forall k :: from <= k < coins.Length ==> coins[k].symbols == []
  }

  method InitCoins(coins: array<Coin>, num: nat)
    requires num <= coins.Length && Empty(coins, num)
    modifies coins
    ensures Empty(coins, 0)
  {
    for i := 0 to num
      invariant Empty(coins, num)
      invariant forall k :: 0 <= k < i ==> coins[k].symbols == []
    {
      coins[i] := coins[i].(symbols := []);
    }
  }

  /** Puts the coins of the present symbols at offset from of a row that is empty there. */
  method AppendSymbolCoins(coins: array<Coin>, from: nat, frequencies: seq<nat>, ghost level: nat)
    requires from + NumPresent(frequencies, |frequencies|) <= coins.Length && Empty(coins, from)
    modifies coins
    ensures var n := NumPresent(frequencies, |frequencies|);
            && coins[..from] == old(coins[..from])
            && coins[from..from + n] == CoinsOf(Singles(frequencies, level, |frequencies|), frequencies)
            && Empty(coins, from + n)
  {
    var j: nat := 0;
    hide NumPresent, Singles, CoinsOf, Placed;
    ghost var s := coins[..];
    NoneYet(s, from, frequencies, level);
    for i := 0 to |frequencies|
      invariant j == NumPresent(frequencies, i) <= NumPresent(frequencies, |frequencies|)
      invariant Placed(s, coins[..], from, CoinsOf(Singles(frequencies, level, i), frequencies), j)
    {
      PresentMonotone(frequencies, i + 1);
      OneMoreSymbol(frequencies, i, level);
      if frequencies[i] != 0 {
        OneMorePlaced(s, coins[..], from, CoinsOf(Singles(frequencies, level, i), frequencies), j, i, frequencies[i]);
        var coin := Coin(coins[from + j].symbols + [i], frequencies[i]);
        coins[from + j] := coin;
        j := j + 1;
      }
    }
    AllPlaced(s, coins, from, CoinsOf(Singles(frequencies, level, |frequencies|), frequencies), j);
  }

  /** j coins stand at offset from of a row, and empty coins behind them. */
  ghost predicate Placed(s: seq<Coin>, s': seq<Coin>, from: nat, placed: seq<Coin>, j: nat)
  {
    && |s'| == |s| && |placed| == j && from + j <= |s'|
    && s'[..from] == s[..from] && s'[from..from + j] == placed
    && forall k :: from + j <= k < |s'| ==> s'[k].symbols == []
  }

  lemma OneMorePlaced(s: seq<Coin>, s': seq<Coin>, from: nat, placed: seq<Coin>, j: nat, i: nat, weight: nat)
    requires Placed(s, s', from, placed, j) && from + j < |s'|
    ensures s'[from + j].symbols + [i] == [i]
    ensures Placed(s, s'[from + j := Coin([i], weight)], from, placed + [Coin([i], weight)], j + 1)
  {
    var coin := Coin([i], weight);
    var next := s'[from + j := coin];
    assert next[from..from + j + 1] == next[from..from + j] + [coin] && next[from..from + j] == s'[from..from + j];
    assert next[..from] == s'[..from];
  }

  lemma AllPlaced(s: seq<Coin>, coins: array<Coin>, from: nat, placed: seq<Coin>, j: nat)
    requires Placed(s, coins[..], from, placed, j)
    ensures |s| == coins.Length && from + j <= coins.Length && coins[..from] == s[..from]
    ensures coins[from..from + j] == placed && Empty(coins, from + j)
  {
    assert coins[..][..from] == coins[..from] && coins[..][from..from + j] == coins[from..from + j];
    assert forall k :: from + j <= k < coins.Length ==> coins[k] == coins[..][k];
  }

  lemma NoneYet(s: seq<Coin>, from: nat, frequencies: seq<nat>, level: nat)
    requires from <= |s| && forall k :: from <= k < |s| ==> s[k].symbols == []
    ensures NumPresent(frequencies, 0) == 0
    ensures Placed(s, s, from, CoinsOf(Singles(frequencies, level, 0), frequencies), 0)
  {
  }

  lemma OneMoreSymbol(frequencies: seq<nat>, i: nat, level: nat)
    requires i < |frequencies|
    ensures NumPresent(frequencies, i + 1) == NumPresent(frequencies, i) + (if frequencies[i] != 0 then 1 else 0)
    ensures var coins := CoinsOf(Singles(frequencies, level, i), frequencies);
            CoinsOf(Singles(frequencies, level, i + 1), frequencies)
            == if frequencies[i] != 0 then coins + [Coin([i], frequencies[i])] else coins
  {
    SingleCoin(i, level, frequencies);
    hide CoinOf;
  }

  lemma {:induction false} PresentMonotone(freq: seq<nat>, k: nat)
    requires k <= |freq|
    ensures NumPresent(freq, k) <= NumPresent(freq, |freq|)
    decreases |freq| - k
  {
    if k < |freq| {
      PresentMonotone(freq, k + 1);
    }
  }

  /** Merges the coins of the previous row two by two into an empty row. */
  method MergeCoins(coins: array<Coin>, prev: array<Coin>, numprev: nat, freq: seq<nat>, ghost ts: seq<Tree>)
    returns (numcoins: nat)
    requires coins != prev && numprev <= prev.Length && numprev / 2 <= coins.Length
    requires Empty(coins, 0)
    requires prev[..numprev] == CoinsOf(ts, freq)
    modifies coins
    ensures numcoins == numprev / 2
    ensures coins[..numcoins] == CoinsOf(Packages(ts), freq) && Empty(coins, numcoins)
  {
    hide CoinOf;
    numcoins := 0;
    var i: nat := 0;
    while i + 1 < numprev
      invariant i == 2 * numcoins && numcoins <= numprev / 2
      invariant coins[..numcoins] == CoinsOf(Packages(ts), freq)[..numcoins]
      invariant Empty(coins, numcoins)
    {
      var a, b := prev[i], prev[i + 1];
      assert a == prev[..numprev][i] == CoinOf(ts[i], freq);
      assert b == prev[..numprev][i + 1] == CoinOf(ts[i + 1], freq);
      PairCoin(ts[i], ts[i + 1], freq);
      coins[numcoins] := Coin(a.symbols + b.symbols, a.weight + b.weight);
      assert coins[numcoins] == CoinsOf(Packages(ts), freq)[numcoins];
      numcoins := numcoins + 1;
      assert coins[..numcoins] == coins[..numcoins - 1] + [coins[numcoins - 1]];
      i := i + 2;
    }
  }

  /** Sorts the first num coins of a row; the trees they stand for are reordered with them. */
  method SortRow(coins: array<Coin>, num: nat, freq: seq<nat>, ghost ts: seq<Tree>) returns (ghost ts': seq<Tree>)
    requires num <= coins.Length && coins[..num] == CoinsOf(ts, freq) && Empty(coins, num)
    modifies coins
    ensures coins[..num] == CoinsOf(ts', freq) && Empty(coins, num)
    ensures Ascending(ts', freq) && multiset(ts') == multiset(ts)
  {
    SortCoins(coins, num);
    forall k | num <= k < coins.Length
      ensures coins[k].symbols == []
    {
      assert coins[k] == coins[num..][k - num];
    }
    ts' := Reorder(ts, freq, coins[..num]);
    SortedIsAscending(ts', freq);
  }

  /** All rows of the algorithm; the result holds the last one. */
  method MakeRows(frequencies: seq<nat>, maxbitlen: nat, numpresent: nat)
    returns (coins: array<Coin>, numcoins: nat, ghost rows: seq<seq<Tree>>)
    requires numpresent == NumPresent(frequencies, |frequencies|) && maxbitlen > 0
    requires 2 <= numpresent <= Pow2(maxbitlen)
    ensures AreRows(rows, frequencies, maxbitlen) && |rows| == maxbitlen + 1
    ensures fresh(coins) && numcoins == |rows[maxbitlen]| <= coins.Length
    ensures coins[..numcoins] == CoinsOf(rows[maxbitlen], frequencies)
  {
    hide AllUses, Uses, UseWeight, Singles, Packages, Ascending, CoinOf, AreRows, IsRow, NumPresent;
    var coinmem := numpresent * 2;
    coins := new Coin[coinmem](_ => NO_COIN);
    var prev_row := new Coin[coinmem](_ => NO_COIN);
    AppendSymbolCoins(coins, 0, frequencies, 0);
    numcoins := numpresent;
    assert coins[..numcoins] == coins[0..0 + numcoins];
    ghost var row := SortRow(coins, numcoins, frequencies, Singles(frequencies, 0, |frequencies|));
    rows := FirstRow(frequencies, maxbitlen, row);
    var numprev: nat := 0;
    for j := 1 to maxbitlen + 1
      invariant coins != prev_row && coins.Length == prev_row.Length == coinmem
      invariant fresh(coins) && fresh(prev_row)
      invariant AreRows(rows, frequencies, maxbitlen) && |rows| == j
      invariant numcoins == |rows[j - 1]| <= coinmem && coins[..numcoins] == CoinsOf(rows[j - 1], frequencies)
      invariant Empty(coins, numcoins) && numprev <= coinmem && Empty(prev_row, numprev)
    {
      RowLength(rows, frequencies, maxbitlen, j - 1);
      prev_row, coins := coins, prev_row;
      numprev, numcoins := numcoins, numprev;
      numcoins, row := FillRow(coins, prev_row, numcoins, numprev, frequencies, maxbitlen, numpresent, j, rows);
      rows := rows + [row];
    }
  }

  /** One turn of the outer loop: a row from the one before it. */
  method FillRow(coins: array<Coin>, prev: array<Coin>, num: nat, numprev: nat, frequencies: seq<nat>, maxbitlen: nat,
                 numpresent: nat, j: nat, ghost rows: seq<seq<Tree>>) returns (numcoins: nat, ghost row: seq<Tree>)
    requires coins != prev && coins.Length == prev.Length == 2 * numpresent && num <= coins.Length
    requires numpresent == NumPresent(frequencies, |frequencies|) && Empty(coins, num)
    requires AreRows(rows, frequencies, maxbitlen) && 0 < |rows| == j <= maxbitlen
    requires numprev == |rows[j - 1]| < 2 * numpresent && prev[..numprev] == CoinsOf(rows[j - 1], frequencies)
    modifies coins
    ensures numcoins == |row| <= coins.Length && coins[..numcoins] == CoinsOf(row, frequencies)
    ensures Empty(coins, numcoins) && AreRows(rows + [row], frequencies, maxbitlen)
  {
    hide AllUses, Uses, UseWeight, Singles, Packages, Ascending, CoinOf, AreRows, IsRow, NumPresent;
    InitCoins(coins, num);
    numcoins := MergeCoins(coins, prev, numprev, frequencies, rows[j - 1]);
    ghost var contents := Packages(rows[j - 1]);
    if j < maxbitlen {
      AppendSymbolCoins(coins, numcoins, frequencies, j);
      ghost var k := numcoins;
      numcoins := numcoins + numpresent;
      assert coins[..numcoins] == coins[..k] + coins[k..numcoins];
      CoinsConcat(contents, Singles(frequencies, j, |frequencies|), frequencies);
      contents := contents + Singles(frequencies, j, |frequencies|);
    }
    assert contents == RowContents(rows, frequencies, maxbitlen, j);
    row := SortRow(coins, numcoins, frequencies, contents);
    SameSize(row, contents);
    RowsAppend(rows, frequencies, maxbitlen, row);
  }

  lemma CoinsConcat(a: seq<Tree>, b: seq<Tree>, freq: seq<nat>)
    ensures CoinsOf(a + b, freq) == CoinsOf(a, freq) + CoinsOf(b, freq)
  {
    hide CoinOf;
  }

  lemma FirstRow(freq: seq<nat>, maxbitlen: nat, row: seq<Tree>) returns (rows: seq<seq<Tree>>)
    requires maxbitlen > 0 && Ascending(row, freq)
    requires multiset(row) == multiset(Singles(freq, 0, |freq|))
    ensures rows == [row] && AreRows(rows, freq, maxbitlen)
  {
    assert RowContents([], freq, maxbitlen, 0) == Singles(freq, 0, |freq|);
    assert AreRows([], freq, maxbitlen);
    RowsAppend([], freq, maxbitlen, row);
    assert [] + [row] == [row];
    rows := [row];
  }

  /** Adds up how often each symbol occurs in the first num coins. */
  method CountSymbols(coins: array<Coin>, num: nat, numcodes: nat, freq: seq<nat>, ghost ts: seq<Tree>)
    returns (lengths: seq<nat>)
    requires num == |ts| <= coins.Length && coins[..num] == CoinsOf(ts, freq)
    requires forall u :: u in AllUses(ts) ==> u.sym < numcodes
    ensures |lengths| == numcodes && CountsOf(lengths, ts)
  {
    hide AllUses, UseWeight, Uses;
    var result := new nat[numcodes](_ => 0);
    NoCoins([], 0, 0);
    for i := 0 to num
      invariant forall s :: 0 <= s < numcodes ==> result[s] == Occurrences(Symbols(AllUses(ts[..i])), s)
    {
      ghost var before := AllUses(ts[..i]);
      var syms := coins[i].symbols;
      assert coins[i] == coins[..num][i];
      assert syms == Symbols(Uses(ts[i]));
      SymbolsBelow(ts, i, numcodes);
      assert Symbols(before) + syms[..0] == Symbols(before);
      for j := 0 to |syms|
        invariant forall s :: 0 <= s < numcodes ==> result[s] == Occurrences(Symbols(before) + syms[..j], s)
      {
        assert (Symbols(before) + syms[..j + 1])[..|before| + j] == Symbols(before) + syms[..j];
        assert syms[j] in syms;
        result[syms[j]] := result[syms[j]] + 1;
      }
      NextUses(ts, i);
      assert Symbols(AllUses(ts[..i + 1])) == Symbols(before) + syms[..|syms|];
    }
    assert ts[..num] == ts;
    lengths := result[..];
  }

  lemma NextUses(ts: seq<Tree>, i: nat)
    requires i < |ts|
    ensures AllUses(ts[..i + 1]) == AllUses(ts[..i]) + Uses(ts[i])
  {
    assert ts[..i + 1][..i] == ts[..i];
  }

  lemma SymbolsBelow(ts: seq<Tree>, i: nat, numcodes: nat)
    requires i < |ts| && forall u :: u in AllUses(ts) ==> u.sym < numcodes
    ensures forall s :: s in Symbols(Uses(ts[i])) ==> s < numcodes
  {
    UsesIn(ts, i);
    hide AllUses, Uses;
  }

  lemma UsesIn(ts: seq<Tree>, i: nat)
    requires i < |ts|
    ensures forall u :: u in Uses(ts[i]) ==> u in AllUses(ts)
  {
    hide Uses;
    var a, b, c := ts[..i], [ts[i]], ts[i + 1..];
    assert ts == a + (b + c);
    AllUsesAppend(a, b + c);
    AllUsesAppend(b, c);
    AllUsesOne(ts[i]);
    hide AllUses;
  }

  // ---------------------------------------------------------------- the entry point

  /**
   * The lengths of an optimal code of at most maxbitlen bits. Alphabets with fewer than two present symbols
   * get two words of one bit. The lengths always form a complete code. In an alphabet of one symbol the source writes
   * the second word's length behind the end of its list: then ok is false.
   */
  method HuffmanCodeLengths(frequencies: seq<nat>, maxbitlen: nat) returns (error: nat, ok: bool, lengths: seq<nat>)
    requires maxbitlen > 0
    requires NumPresent(frequencies, |frequencies|) <= Pow2(maxbitlen)
    ensures ok <==> |frequencies| != 1
    ensures |frequencies| == 0 ==> error == 80
    ensures |frequencies| > 1 ==>
              && error == 0 && |lengths| == |frequencies|
              && Complete(lengths, maxbitlen)
              && forall i :: 0 <= i < |frequencies| && frequencies[i] > 0 ==> lengths[i] > 0
    ensures NumPresent(frequencies, |frequencies|) >= 2 ==>
              && Admissible(lengths, frequencies, maxbitlen)
              && forall alt :: Admissible(alt, frequencies, maxbitlen) ==>
                   Cost(lengths, frequencies, |frequencies|) <= Cost(alt, frequencies, |frequencies|)
  {
    var numcodes := |frequencies|;
    ok := true;
    if numcodes == 0 {
      return 80, ok, [];
    }
    var numpresent: nat := 0;
    for i := 0 to numcodes
      invariant numpresent == NumPresent(frequencies, i)
    {
      if frequencies[i] > 0 {
        numpresent := numpresent + 1;
      }
    }
    error := 0;
    if numpresent <= 1 && numcodes == 1 {
      return 0, false, [];
    }
    if numpresent == 0 {
      lengths := TwoWords(numcodes, 0, 1, maxbitlen);
      NonePresent(frequencies, numcodes);
    } else if numpresent == 1 {
      var i := FirstPresent(frequencies);
      lengths := TwoWords(numcodes, i, if i == 0 then 1 else 0, maxbitlen);
    } else {
      var coins, numcoins;
      ghost var rows;
      coins, numcoins, rows := MakeRows(frequencies, maxbitlen, numpresent);
      RowLength(rows, frequencies, maxbitlen, maxbitlen);
      ghost var chosen := rows[maxbitlen][..numpresent - 1];
      ChosenSymbols(rows, frequencies, maxbitlen, numpresent - 1);
      assert coins[..numpresent - 1] == coins[..numcoins][..numpresent - 1];
      lengths := CountSymbols(coins, numpresent - 1, numcodes, frequencies, chosen);
      PackageMergeCorrect(rows, frequencies, maxbitlen, lengths);
    }
  }

  lemma ChosenSymbols(rows: seq<seq<Tree>>, freq: seq<nat>, maxbitlen: nat, k: nat)
    requires AreRows(rows, freq, maxbitlen) && |rows| == maxbitlen + 1 && k <= |rows[maxbitlen]|
    ensures CoinsOf(rows[maxbitlen][..k], freq) == CoinsOf(rows[maxbitlen], freq)[..k]
    ensures forall u :: u in AllUses(rows[maxbitlen][..k]) ==> u.sym < |freq|
  {
    RowHonest(rows, freq, maxbitlen, maxbitlen);
    HonestPrefix(rows[maxbitlen], freq, maxbitlen, Pow2(maxbitlen), k);
    HonestSymbols(rows[maxbitlen][..k], freq, maxbitlen, Pow2(maxbitlen));
  }

  lemma {:induction false} NonePresent(freq: seq<nat>, k: nat)
    requires k <= |freq| && NumPresent(freq, k) == 0
    ensures forall i :: 0 <= i < k ==> freq[i] == 0
  {
    if k > 0 {
      NonePresent(freq, k - 1);
    }
  }

  /** The only present symbol. */
  method FirstPresent(frequencies: seq<nat>) returns (i: nat)
    requires NumPresent(frequencies, |frequencies|) == 1
    ensures i < |frequencies| && forall j :: 0 <= j < |frequencies| ==> (frequencies[j] > 0 <==> j == i)
  {
    i := 0;
    while frequencies[i] == 0
      invariant i < |frequencies|
      invariant NumPresent(frequencies, i) == 0
      decreases |frequencies| - i
    {
      assert NumPresent(frequencies, i + 1) == 0;
      i := i + 1;
    }
    NonePresent(frequencies, i);
    OnlyOne(frequencies, i, |frequencies|);
  }

  lemma {:induction false} OnlyOne(freq: seq<nat>, i: nat, k: nat)
    requires i < k <= |freq| && NumPresent(freq, i) == 0 && freq[i] > 0 && NumPresent(freq, k) == 1
    ensures forall j :: i < j < k ==> freq[j] == 0
  {
    if i + 1 < k {
      PresentGrows(freq, i + 1, k - 1);
      OnlyOne(freq, i, k - 1);
    }
  }

  lemma {:induction false} PresentGrows(freq: seq<nat>, j: nat, k: nat)
    requires j <= k <= |freq|
    ensures NumPresent(freq, j) <= NumPresent(freq, k)
  {
    if j < k {
      PresentGrows(freq, j, k - 1);
    }
  }

  /** Lengths with exactly two words, of one bit each. */
  method TwoWords(numcodes: nat, a: nat, b: nat, maxbitlen: nat) returns (lengths: seq<nat>)
    requires a < numcodes && b < numcodes && a != b && maxbitlen > 0
    ensures |lengths| == numcodes && Complete(lengths, maxbitlen)
    ensures forall i :: 0 <= i < numcodes ==> lengths[i] == if i == a || i == b then 1 else 0
  {
    lengths := seq(numcodes, i => if i == a || i == b then 1 else 0);
    TwoWordsKraft(lengths, a, b, maxbitlen, numcodes);
    assert lengths[..numcodes] == lengths;
  }

  lemma {:induction false} TwoWordsKraft(lengths: seq<nat>, a: nat, b: nat, maxbitlen: nat, k: nat)
    requires k <= |lengths| && a != b && maxbitlen > 0
    requires forall i :: 0 <= i < |lengths| ==> lengths[i] == if i == a || i == b then 1 else 0
    ensures KraftSum(lengths[..k], maxbitlen)
         == (if a < k then Pow2(maxbitlen - 1) else 0) + (if b < k then Pow2(maxbitlen - 1) else 0)
  {
    if k > 0 {
      TwoWordsKraft(lengths, a, b, maxbitlen, k - 1);
      assert lengths[..k][..k - 1] == lengths[..k - 1];
    }
  }
}

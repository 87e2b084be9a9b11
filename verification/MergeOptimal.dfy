/**
 * Package-merge is right: the code lengths read off the last row form a complete code,
 * and no other admissible code is cheaper.
 */
module MergeOptimal {
  import opened Powers
  import opened Bits
  import opened Canonical
  import opened PackageMerge

  // ---------------------------------------------------------------- codes as choices of coins

  /** Any code for the present symbols that the decoder could use: lengths 1..maxbitlen, Kraft sum at most 1. */
  ghost predicate Admissible(alt: seq<nat>, freq: seq<nat>, maxbitlen: nat)
  {
    && |alt| == |freq|
    && Bounded(alt, maxbitlen)
    && (forall i :: 0 <= i < |freq| ==> (alt[i] > 0 <==> freq[i] > 0))
    && KraftSum(alt, maxbitlen) <= Pow2(maxbitlen)
  }

  /** The size of the coded text, in bits. */
  function Cost(lengths: seq<nat>, freq: seq<nat>, k: nat): nat
    requires k <= |lengths| && k <= |freq|
  {
    if k == 0 then 0 else Cost(lengths, freq, k - 1) + lengths[k - 1] * freq[k - 1]
  }

  /** The coins of level l that code alt pays with: a symbol of length x uses the x most valuable levels. */
  function Chosen(alt: seq<nat>, maxbitlen: nat, l: nat, k: nat): seq<Tree>
    requires k <= |alt|
  {
    if k == 0 then []
    else Chosen(alt, maxbitlen, l, k - 1) + (if Pays(alt[k - 1], maxbitlen, l) then [Single(k - 1, l)] else [])
  }

  predicate Pays(x: nat, maxbitlen: nat, l: nat)
  {
    x > 0 && x + l >= maxbitlen
  }

  lemma {:induction false} ChosenFromSingles(alt: seq<nat>, freq: seq<nat>, maxbitlen: nat, l: nat, k: nat)
    requires Admissible(alt, freq, maxbitlen) && k <= |alt|
    ensures multiset(Chosen(alt, maxbitlen, l, k)) <= multiset(Singles(freq, l, k))
  {
    hide KraftSum;
    if k > 0 {
      ChosenFromSingles(alt, freq, maxbitlen, l, k - 1);
      var t := Single(k - 1, l);
      var a: seq<Tree> := if Pays(alt[k - 1], maxbitlen, l) then [t] else [];
      var b: seq<Tree> := if freq[k - 1] != 0 then [t] else [];
      assert alt[k - 1] > 0 ==> freq[k - 1] > 0;
      Together(Chosen(alt, maxbitlen, l, k - 1), Singles(freq, l, k - 1), a, b);
    }
  }

  /** How many whole coins of level j the code's coins up to that level make. */
  function WholeCoins(alt: seq<nat>, maxbitlen: nat, j: nat): nat
  {
    |Chosen(alt, maxbitlen, j, |alt|)| + (if j == 0 then 0 else WholeCoins(alt, maxbitlen, j - 1) / 2)
  }

  /** What the code's coins up to level j weigh. */
  function ChosenWeight(alt: seq<nat>, freq: seq<nat>, maxbitlen: nat, j: nat): nat
  {
    Weight(Chosen(alt, maxbitlen, j, |alt|), freq) + (if j == 0 then 0 else ChosenWeight(alt, freq, maxbitlen, j - 1))
  }

  /** In every row, the cheapest coins of some number cost no more than any code's coins of that worth. */
  lemma {:induction false} RowIsCheapest(rows: seq<seq<Tree>>, freq: seq<nat>, maxbitlen: nat, alt: seq<nat>, j: nat)
    requires AreRows(rows, freq, maxbitlen) && j < |rows| && j < maxbitlen
    requires Admissible(alt, freq, maxbitlen)
    ensures var v := WholeCoins(alt, maxbitlen, j);
            v <= |rows[j]| && Weight(rows[j][..v], freq) <= ChosenWeight(alt, freq, maxbitlen, j)
  {
    hide AllUses, UseWeight, Weight, Chosen, Singles, Packages, Admissible, Ascending, AreRows;
    var ch := Chosen(alt, maxbitlen, j, |alt|);
    UseRow(rows, freq, maxbitlen, j);
    assert |alt| == |freq| by { AdmissibleSize(alt, freq, maxbitlen); }
    ChosenFromSingles(alt, freq, maxbitlen, j, |alt|);
    if j == 0 {
      assert RowContents(rows, freq, maxbitlen, 0) == Singles(freq, 0, |freq|);
      CheapestPrefix(rows[0], ch, freq);
    } else {
      RowIsCheapest(rows, freq, maxbitlen, alt, j - 1);
      var m := WholeCoins(alt, maxbitlen, j - 1) / 2;
      var sub := PackagePrefix(rows[j - 1], m, WholeCoins(alt, maxbitlen, j - 1), freq);
      Together(sub, Packages(rows[j - 1]), ch, Singles(freq, j, |freq|));
      CheapestPrefix(rows[j], sub + ch, freq);
      WeightAppend(sub, ch, freq);
    }
  }

  lemma AdmissibleSize(alt: seq<nat>, freq: seq<nat>, maxbitlen: nat)
    requires Admissible(alt, freq, maxbitlen)
    ensures |alt| == |freq|
  {
  }

  lemma UseRow(rows: seq<seq<Tree>>, freq: seq<nat>, maxbitlen: nat, j: nat)
    requires AreRows(rows, freq, maxbitlen) && j < |rows|
    ensures Ascending(rows[j], freq) && multiset(rows[j]) == multiset(RowContents(rows, freq, maxbitlen, j))
  {
    assert IsRow(rows, freq, maxbitlen, j);
  }

  /** The packages that the first v coins of a row make. */
  lemma PackagePrefix(row: seq<Tree>, m: nat, v: nat, freq: seq<nat>) returns (sub: seq<Tree>)
    requires v <= |row| && m == v / 2
    ensures |sub| == m && multiset(sub) <= multiset(Packages(row))
    ensures Weight(sub, freq) <= Weight(row[..v], freq)
  {
    sub := Packages(row)[..m];
    assert Packages(row) == sub + Packages(row)[m..];
    PackagesUses(row, m);
    var a, b := row[..2 * m], row[2 * m..v];
    assert row[..v] == a + b;
    WeightAppend(a, b, freq);
  }

  lemma Together(a: seq<Tree>, a': seq<Tree>, b: seq<Tree>, b': seq<Tree>)
    requires multiset(a) <= multiset(a') && multiset(b) <= multiset(b')
    ensures multiset(a + b) <= multiset(a' + b')
  {
  }

  // ---------------------------------------------------------------- the same sums, symbol by symbol

  /** What the coins of a symbol of length x are worth, levels 0..j. */
  function PaidValue(x: nat, maxbitlen: nat, j: nat): nat
  {
    (if Pays(x, maxbitlen, j) then Pow2(j) else 0) + (if j == 0 then 0 else PaidValue(x, maxbitlen, j - 1))
  }

  function PaidCount(x: nat, maxbitlen: nat, j: nat): nat
  {
    (if Pays(x, maxbitlen, j) then 1 else 0) + (if j == 0 then 0 else PaidCount(x, maxbitlen, j - 1))
  }

  lemma {:induction false} PaidTotals(x: nat, maxbitlen: nat, j: nat)
    requires x <= maxbitlen
    ensures x == 0 || j + 1 <= maxbitlen - x ==> PaidValue(x, maxbitlen, j) == 0 == PaidCount(x, maxbitlen, j)
    ensures x > 0 && j + 1 >= maxbitlen - x ==>
              && PaidValue(x, maxbitlen, j) + Pow2(maxbitlen - x) == Pow2(j + 1)
              && PaidCount(x, maxbitlen, j) == j + 1 - (maxbitlen - x)
  {
    if j > 0 {
      PaidTotals(x, maxbitlen, j - 1);
    } else {
      assert Pow2(0) == 1 && Pow2(1) == 2;
    }
  }

  function ValueTo(alt: seq<nat>, maxbitlen: nat, j: nat, k: nat): nat
    requires k <= |alt|
  {
    if k == 0 then 0 else ValueTo(alt, maxbitlen, j, k - 1) + PaidValue(alt[k - 1], maxbitlen, j)
  }

  function WeightTo(alt: seq<nat>, freq: seq<nat>, maxbitlen: nat, j: nat, k: nat): nat
    requires k <= |alt|
  {
    if k == 0 then 0
    else WeightTo(alt, freq, maxbitlen, j, k - 1) + PaidCount(alt[k - 1], maxbitlen, j) * Freq(freq, k - 1)
  }

  lemma {:induction false} ValueLevel(alt: seq<nat>, maxbitlen: nat, j: nat, k: nat)
    requires k <= |alt|
    ensures ValueTo(alt, maxbitlen, j, k)
         == |Chosen(alt, maxbitlen, j, k)| * Pow2(j) + (if j == 0 then 0 else ValueTo(alt, maxbitlen, j - 1, k))
  {
    if k > 0 {
      ValueLevel(alt, maxbitlen, j, k - 1);
      OneMore(|Chosen(alt, maxbitlen, j, k - 1)|, Pow2(j));
    }
  }

  lemma {:induction false} WeightLevel(alt: seq<nat>, freq: seq<nat>, maxbitlen: nat, j: nat, k: nat)
    requires k <= |alt|
    ensures WeightTo(alt, freq, maxbitlen, j, k)
         == Weight(Chosen(alt, maxbitlen, j, k), freq)
            + (if j == 0 then 0 else WeightTo(alt, freq, maxbitlen, j - 1, k))
  {
    hide AllUses, Uses, UseWeight;
    if k == 0 {
      NoWeight(freq);
    } else {
      WeightLevel(alt, freq, maxbitlen, j, k - 1);
      var front := Chosen(alt, maxbitlen, j, k - 1);
      OneMore(if j == 0 then 0 else PaidCount(alt[k - 1], maxbitlen, j - 1), Freq(freq, k - 1));
      if Pays(alt[k - 1], maxbitlen, j) {
        WeightAppend(front, [Single(k - 1, j)], freq);
        OneWeight(k - 1, j, freq);
      } else {
        assert Chosen(alt, maxbitlen, j, k) == front;
      }
    }
  }

  lemma NoWeight(freq: seq<nat>)
    ensures Weight([], freq) == 0
  {
  }

  lemma OneWeight(s: nat, l: nat, freq: seq<nat>)
    ensures Weight([Single(s, l)], freq) == Freq(freq, s)
  {
    AllUsesOne(Single(s, l));
    SingleUse(s, l);
    var u := [Use(s, l)];
    assert UseWeight(u, freq) == UseWeight(u[..0], freq) + Freq(freq, s);
  }

  /** Rounding down at every level loses less than one coin in all. */
  lemma {:induction false} WholeCoinsValue(alt: seq<nat>, maxbitlen: nat, j: nat)
    ensures ValueTo(alt, maxbitlen, j, |alt|) < (WholeCoins(alt, maxbitlen, j) + 1) * Pow2(j)
  {
    ValueLevel(alt, maxbitlen, j, |alt|);
    var q := |Chosen(alt, maxbitlen, j, |alt|)|;
    if j == 0 {
      assert Pow2(0) == 1;
    } else {
      WholeCoinsValue(alt, maxbitlen, j - 1);
      RoundDown(ValueTo(alt, maxbitlen, j - 1, |alt|), WholeCoins(alt, maxbitlen, j - 1), q, Pow2(j - 1));
    }
  }

  lemma RoundDown(value: nat, v: nat, q: nat, p: nat)
    requires value < (v + 1) * p
    ensures value + q * (2 * p) < (q + v / 2 + 1) * (2 * p)
  {
    var h := v / 2;
    MulMonotone(p, v + 1, 2 * h + 2);
    assert (q + h + 1) * (2 * p) == q * (2 * p) + p * (2 * h + 2);
    assert (v + 1) * p == p * (v + 1);
  }

  lemma {:induction false} WeightByLevels(alt: seq<nat>, freq: seq<nat>, maxbitlen: nat, j: nat)
    ensures ChosenWeight(alt, freq, maxbitlen, j) == WeightTo(alt, freq, maxbitlen, j, |alt|)
  {
    WeightLevel(alt, freq, maxbitlen, j, |alt|);
    if j > 0 {
      WeightByLevels(alt, freq, maxbitlen, j - 1);
    }
  }

  /** Over all levels, a code pays exactly its cost ... */
  lemma {:induction false} FullWeight(alt: seq<nat>, freq: seq<nat>, maxbitlen: nat, k: nat)
    requires Bounded(alt, maxbitlen) && |alt| == |freq| && k <= |alt| && maxbitlen > 0
    ensures WeightTo(alt, freq, maxbitlen, maxbitlen - 1, k) == Cost(alt, freq, k)
  {
    if k > 0 {
      FullWeight(alt, freq, maxbitlen, k - 1);
      PaidTotals(alt[k - 1], maxbitlen, maxbitlen - 1);
    }
  }

  function NumUsed(alt: seq<nat>, k: nat): (r: nat)
    requires k <= |alt|
    ensures r <= k
  {
    if k == 0 then 0 else NumUsed(alt, k - 1) + (if alt[k - 1] > 0 then 1 else 0)
  }

  /** ... and the worth of its coins is the number of symbols less the Kraft sum. */
  lemma {:induction false} FullValue(alt: seq<nat>, maxbitlen: nat, k: nat)
    requires Bounded(alt, maxbitlen) && k <= |alt| && maxbitlen > 0
    ensures Bounded(alt[..k], maxbitlen)
    ensures ValueTo(alt, maxbitlen, maxbitlen - 1, k) + KraftSum(alt[..k], maxbitlen)
         == NumUsed(alt, k) * Pow2(maxbitlen)
  {
    if k > 0 {
      FullValue(alt, maxbitlen, k - 1);
      PaidTotals(alt[k - 1], maxbitlen, maxbitlen - 1);
      assert alt[..k][..k - 1] == alt[..k - 1];
      OneMore(NumUsed(alt, k - 1), Pow2(maxbitlen));
    }
  }

  lemma {:induction false} UsedIsPresent(alt: seq<nat>, freq: seq<nat>, maxbitlen: nat, k: nat)
    requires Admissible(alt, freq, maxbitlen) && k <= |alt|
    ensures NumUsed(alt, k) == NumPresent(freq, k)
  {
    if k > 0 {
      UsedIsPresent(alt, freq, maxbitlen, k - 1);
    }
  }

  /** The first n - 1 coins of the last row cost no more than any admissible code. */
  lemma LastRowIsCheapest(rows: seq<seq<Tree>>, freq: seq<nat>, maxbitlen: nat, alt: seq<nat>)
    requires AreRows(rows, freq, maxbitlen) && |rows| == maxbitlen + 1 && maxbitlen > 0
    requires Admissible(alt, freq, maxbitlen)
    requires 2 <= NumPresent(freq, |freq|) <= Pow2(maxbitlen)
    ensures var n := NumPresent(freq, |freq|);
            n - 1 <= |rows[maxbitlen]|
            && Weight(rows[maxbitlen][..n - 1], freq) <= Cost(alt, freq, |freq|)
  {
    hide AllUses, UseWeight, Weight, Chosen, Singles, Packages;
    var j := maxbitlen - 1;
    var v := WholeCoins(alt, maxbitlen, j);
    var n := NumPresent(freq, |freq|);
    RowIsCheapest(rows, freq, maxbitlen, alt, j);
    WeightByLevels(alt, freq, maxbitlen, j);
    FullWeight(alt, freq, maxbitlen, |alt|);
    EnoughCoins(alt, freq, maxbitlen);
    var sub := PackagePrefix(rows[j], v / 2, v, freq);
    assert IsRow(rows, freq, maxbitlen, maxbitlen);
    assert RowContents(rows, freq, maxbitlen, maxbitlen) == Packages(rows[j]);
    CheapestPrefix(rows[maxbitlen], sub, freq);
    var row := rows[maxbitlen][..v / 2];
    assert row == rows[maxbitlen][..n - 1] + rows[maxbitlen][n - 1..v / 2];
    WeightAppend(rows[maxbitlen][..n - 1], rows[maxbitlen][n - 1..v / 2], freq);
  }

  lemma EnoughCoins(alt: seq<nat>, freq: seq<nat>, maxbitlen: nat)
    requires Admissible(alt, freq, maxbitlen) && maxbitlen > 0
    ensures WholeCoins(alt, maxbitlen, maxbitlen - 1) / 2 >= NumPresent(freq, |freq|) - 1
  {
    var j := maxbitlen - 1;
    FullValue(alt, maxbitlen, |alt|);
    assert alt[..|alt|] == alt;
    UsedIsPresent(alt, freq, maxbitlen, |alt|);
    WholeCoinsValue(alt, maxbitlen, j);
    var n, v, p := NumPresent(freq, |freq|), WholeCoins(alt, maxbitlen, j), Pow2(j);
    CountFromValue(n, v, p, ValueTo(alt, maxbitlen, j, |alt|));
  }

  lemma CountFromValue(n: nat, v: nat, p: nat, value: nat)
    requires value + 2 * p >= n * (2 * p) && value < (v + 1) * p
    ensures v / 2 >= n - 1
  {
    assert n * (2 * p) - 2 * p == (2 * n - 2) * p;
    assert (2 * n - 2) * p < (v + 1) * p;
    if 2 * n - 2 >= v + 1 {
      MulMonotone(p, v + 1, 2 * n - 2);
    }
  }

  // ---------------------------------------------------------------- the lengths read off the last row

  function Occurrences(symbols: seq<nat>, s: nat): nat
  {
    if symbols == [] then 0
    else Occurrences(symbols[..|symbols| - 1], s) + (if symbols[|symbols| - 1] == s then 1 else 0)
  }

  /** Every use of symbol s, level by level below l. */
  function LevelCount(m: multiset<Use>, s: nat, l: nat): nat
  {
    if l == 0 then 0 else LevelCount(m, s, l - 1) + m[Use(s, l - 1)]
  }

  function LevelValue(m: multiset<Use>, s: nat, l: nat): nat
  {
    if l == 0 then 0 else LevelValue(m, s, l - 1) + m[Use(s, l - 1)] * Pow2(l - 1)
  }

  function GridValue(m: multiset<Use>, l: nat, k: nat): nat
  {
    if k == 0 then 0 else GridValue(m, l, k - 1) + LevelValue(m, k - 1, l)
  }

  lemma {:induction false} LevelAdd(m: multiset<Use>, u: Use, s: nat, l: nat)
    ensures LevelCount(m + multiset{u}, s, l) == LevelCount(m, s, l) + (if u.sym == s && u.level < l then 1 else 0)
    ensures LevelValue(m + multiset{u}, s, l)
         == LevelValue(m, s, l) + (if u.sym == s && u.level < l then Pow2(u.level) else 0)
  {
    if l > 0 {
      LevelAdd(m, u, s, l - 1);
      var v := Use(s, l - 1);
      assert (m + multiset{u})[v] == m[v] + (if v == u then 1 else 0);
      OneMore(m[v], Pow2(l - 1));
    }
  }

  lemma {:induction false} GridAdd(m: multiset<Use>, u: Use, l: nat, k: nat)
    ensures GridValue(m + multiset{u}, l, k)
         == GridValue(m, l, k) + (if u.sym < k && u.level < l then Pow2(u.level) else 0)
  {
    if k > 0 {
      GridAdd(m, u, l, k - 1);
      LevelAdd(m, u, k - 1, l);
    }
  }

  lemma {:induction false} NoUses(l: nat, s: nat, k: nat)
    ensures LevelCount(multiset{}, s, l) == 0 && LevelValue(multiset{}, s, l) == 0
    ensures GridValue(multiset{}, l, k) == 0
    decreases l, k
  {
    if l > 0 {
      NoUses(l - 1, s, 0);
    }
    if k > 0 {
      NoUses(l, k - 1, k - 1);
    }
  }

  /** Counting uses along the list or level by level is the same, and so is their worth. */
  lemma {:induction false} UsesByLevel(us: seq<Use>, levels: nat, k: nat, s: nat)
    requires forall u :: u in us ==> u.level < levels && u.sym < k
    ensures Occurrences(Symbols(us), s) == LevelCount(multiset(us), s, levels)
    ensures UseValue(us) == GridValue(multiset(us), levels, k)
  {
    if us == [] {
      NoUses(levels, s, k);
    } else {
      var front, u := us[..|us| - 1], us[|us| - 1];
      UsesByLevel(front, levels, k, s);
      assert us == front + [u];
      assert multiset(us) == multiset(front) + multiset{u};
      LevelAdd(multiset(front), u, s, levels);
      GridAdd(multiset(front), u, levels, k);
      assert Symbols(us)[..|us| - 1] == Symbols(front);
    }
  }

  /** c different levels are worth at most the c most valuable ones. */
  lemma {:induction false} LevelsWorth(m: multiset<Use>, s: nat, l: nat)
    requires forall u :: u in m ==> m[u] == 1
    ensures LevelCount(m, s, l) <= l
    ensures LevelValue(m, s, l) + Pow2(l - LevelCount(m, s, l)) <= Pow2(l)
  {
    if l > 0 {
      LevelsWorth(m, s, l - 1);
      var c := LevelCount(m, s, l - 1);
      if Use(s, l - 1) in m {
        assert m[Use(s, l - 1)] == 1;
        assert LevelCount(m, s, l) == c + 1;
      } else {
        assert m[Use(s, l - 1)] == 0;
        Pow2Monotone(l - 1 - c, l - 1);
        assert l - c == (l - 1 - c) + 1;
      }
    }
  }

  /** What codes of these lengths are worth: the number of symbols less the Kraft sum. */
  function Gain(lengths: seq<nat>, maxbitlen: nat, k: nat): nat
    requires Bounded(lengths, maxbitlen) && k <= |lengths|
  {
    if k == 0 then 0
    else
      Pow2Monotone(maxbitlen - lengths[k - 1], maxbitlen);
      Gain(lengths, maxbitlen, k - 1) + (Pow2(maxbitlen) - Pow2(maxbitlen - lengths[k - 1]))
  }

  lemma {:induction false} GridAtMostGain(m: multiset<Use>, lengths: seq<nat>, maxbitlen: nat, k: nat)
    requires k <= |lengths| && Bounded(lengths, maxbitlen)
    requires forall u :: u in m ==> m[u] == 1
    requires forall s :: 0 <= s < |lengths| ==> lengths[s] == LevelCount(m, s, maxbitlen)
    ensures GridValue(m, maxbitlen, k) <= Gain(lengths, maxbitlen, k)
  {
    if k > 0 {
      GridAtMostGain(m, lengths, maxbitlen, k - 1);
      LevelsWorth(m, k - 1, maxbitlen);
    }
  }

  lemma {:induction false} GainIsKraft(lengths: seq<nat>, maxbitlen: nat, k: nat)
    requires Bounded(lengths, maxbitlen) && k <= |lengths|
    ensures Bounded(lengths[..k], maxbitlen)
    ensures Gain(lengths, maxbitlen, k) + KraftSum(lengths[..k], maxbitlen) == NumUsed(lengths, k) * Pow2(maxbitlen)
    ensures NumUsed(lengths, k) > 0 ==> KraftSum(lengths[..k], maxbitlen) > 0
  {
    if k > 0 {
      GainIsKraft(lengths, maxbitlen, k - 1);
      assert lengths[..k][..k - 1] == lengths[..k - 1];
      OneMore(NumUsed(lengths, k - 1), Pow2(maxbitlen));
    }
  }

  /** The lengths that the algorithm reads off the chosen coins: how often each symbol occurs in them. */
  ghost predicate CountsOf(lengths: seq<nat>, coins: seq<Tree>)
  {
    forall s :: 0 <= s < |lengths| ==> lengths[s] == Occurrences(Symbols(AllUses(coins)), s)
  }

  /** The lengths are admissible: the Kraft sum is at most 1 and exactly the present symbols have a code. */
  lemma LengthsAdmissible(lengths: seq<nat>, coins: seq<Tree>, freq: seq<nat>, maxbitlen: nat)
    requires |lengths| == |freq| && CountsOf(lengths, coins)
    requires Honest(coins, freq, maxbitlen, Pow2(maxbitlen))
    requires |coins| == NumPresent(freq, |freq|) - 1 && |coins| >= 1
    ensures Admissible(lengths, freq, maxbitlen)
  {
    hide AllUses, UseValue, Symbols, Occurrences, LevelCount, GridValue, Gain, KraftSum, NumUsed, NumPresent;
    var us := AllUses(coins);
    var m := multiset(us);
    var k := |freq|;
    forall u | u in us
      ensures u.level < maxbitlen && u.sym < k
    {
      assert u in m;
    }
    forall s | 0 <= s < k
      ensures lengths[s] == LevelCount(m, s, maxbitlen) <= maxbitlen
      ensures lengths[s] > 0 ==> freq[s] > 0
    {
      UsesByLevel(us, maxbitlen, k, s);
      LevelsWorth(m, s, maxbitlen);
      if lengths[s] > 0 {
        var u := Occurs(us, s);
        assert u in m;
      }
    }
    UsesByLevel(us, maxbitlen, k, 0);
    CoinsWorth(coins, Pow2(maxbitlen));
    GridAtMostGain(m, lengths, maxbitlen, k);
    GainIsKraft(lengths, maxbitlen, k);
    assert lengths[..k] == lengths;
    UsedAtMostPresent(lengths, freq, k);
    CountsMatch(NumUsed(lengths, k), |coins|, Pow2(maxbitlen), Gain(lengths, maxbitlen, k),
                KraftSum(lengths, maxbitlen));
    AllPresentUsed(lengths, freq, k);
  }

  lemma CountsMatch(used: nat, coins: nat, p: nat, gain: nat, kraft: nat)
    requires p > 0 && coins >= 1
    requires used <= coins + 1 && coins * p <= gain && gain + kraft == used * p
    requires used > 0 ==> kraft > 0
    ensures used == coins + 1 && kraft <= p
  {
    if used <= coins {
      MulMonotone(p, used, coins);
      MulAtLeast(p, coins);
    } else {
      OneMore(coins, p);
    }
  }

  lemma {:induction false} Occurs(us: seq<Use>, s: nat) returns (u: Use)
    requires Occurrences(Symbols(us), s) > 0
    ensures u in us && u.sym == s
  {
    var front := us[..|us| - 1];
    assert Symbols(us)[..|us| - 1] == Symbols(front);
    if us[|us| - 1].sym == s {
      u := us[|us| - 1];
    } else {
      u := Occurs(front, s);
    }
  }

  lemma {:induction false} CoinsWorth(ts: seq<Tree>, worth: nat)
    requires forall t :: t in ts ==> UseValue(Uses(t)) == worth
    ensures UseValue(AllUses(ts)) == |ts| * worth
  {
    if ts != [] {
      CoinsWorth(ts[..|ts| - 1], worth);
      WeightValueAppend(AllUses(ts[..|ts| - 1]), Uses(ts[|ts| - 1]), []);
      OneMore(|ts| - 1, worth);
    }
  }

  lemma {:induction false} UsedAtMostPresent(lengths: seq<nat>, freq: seq<nat>, k: nat)
    requires |lengths| == |freq| && k <= |freq|
    requires forall s :: 0 <= s < |freq| && lengths[s] > 0 ==> freq[s] > 0
    ensures NumUsed(lengths, k) <= NumPresent(freq, k)
  {
    if k > 0 {
      UsedAtMostPresent(lengths, freq, k - 1);
    }
  }

  lemma {:induction false} AllPresentUsed(lengths: seq<nat>, freq: seq<nat>, k: nat)
    requires |lengths| == |freq| && k <= |freq|
    requires forall s :: 0 <= s < |freq| && lengths[s] > 0 ==> freq[s] > 0
    requires NumUsed(lengths, k) == NumPresent(freq, k)
    ensures forall s :: 0 <= s < k ==> (lengths[s] > 0 <==> freq[s] > 0)
  {
    if k > 0 {
      UsedAtMostPresent(lengths, freq, k - 1);
      AllPresentUsed(lengths, freq, k - 1);
    }
  }

  // ---------------------------------------------------------------- the code is complete

  /** All terms of the Kraft sum are multiples of the smallest. */
  lemma {:induction false} KraftMultiple(lengths: seq<nat>, maxbitlen: nat, top: nat) returns (q: nat)
    requires Bounded(lengths, maxbitlen) && Bounded(lengths, top) && top <= maxbitlen
    ensures KraftSum(lengths, maxbitlen) == q * Pow2(maxbitlen - top)
  {
    if lengths == [] {
      q := 0;
    } else {
      var x := lengths[|lengths| - 1];
      q := KraftMultiple(lengths[..|lengths| - 1], maxbitlen, top);
      if x != 0 {
        Pow2Add(top - x, maxbitlen - top);
        Distribute(q, Pow2(top - x), Pow2(maxbitlen - top));
        q := q + Pow2(top - x);
      }
    }
  }

  lemma Distribute(q: nat, r: nat, p: nat)
    ensures (q + r) * p == q * p + r * p
  {
  }

  lemma {:induction false} KraftShorten(lengths: seq<nat>, maxbitlen: nat, i: nat)
    requires Bounded(lengths, maxbitlen) && i < |lengths| && lengths[i] >= 2
    ensures Bounded(lengths[i := lengths[i] - 1], maxbitlen)
    ensures KraftSum(lengths[i := lengths[i] - 1], maxbitlen)
         == KraftSum(lengths, maxbitlen) + Pow2(maxbitlen - lengths[i])
  {
    var shorter := lengths[i := lengths[i] - 1];
    if i == |lengths| - 1 {
      assert shorter[..i] == lengths[..i];
    } else {
      assert shorter[..|lengths| - 1] == lengths[..|lengths| - 1][i := lengths[i] - 1];
      KraftShorten(lengths[..|lengths| - 1], maxbitlen, i);
    }
  }

  lemma {:induction false} CostShorten(lengths: seq<nat>, freq: seq<nat>, i: nat, k: nat)
    requires |lengths| == |freq| && i < k <= |freq| && lengths[i] >= 1
    ensures Cost(lengths[i := lengths[i] - 1], freq, k) == Cost(lengths, freq, k) - freq[i]
  {
    if k - 1 == i {
      CostFrame(lengths, lengths[i := lengths[i] - 1], freq, i);
      OneMore(lengths[i] - 1, freq[i]);
    } else {
      CostShorten(lengths, freq, i, k - 1);
    }
  }

  lemma {:induction false} CostFrame(a: seq<nat>, b: seq<nat>, freq: seq<nat>, k: nat)
    requires |a| == |b| == |freq| && k <= |freq| && a[..k] == b[..k]
    ensures Cost(a, freq, k) == Cost(b, freq, k)
  {
    if k > 0 {
      assert a[k - 1] == a[..k][k - 1] == b[..k][k - 1] == b[k - 1];
      assert a[..k - 1] == a[..k][..k - 1] == b[..k][..k - 1] == b[..k - 1];
      CostFrame(a, b, freq, k - 1);
    }
  }

  lemma {:induction false} Longest(lengths: seq<nat>) returns (i: nat)
    requires lengths != []
    ensures i < |lengths| && forall j :: 0 <= j < |lengths| ==> lengths[j] <= lengths[i]
  {
    if |lengths| == 1 {
      i := 0;
    } else {
      i := Longest(lengths[..|lengths| - 1]);
      if lengths[i] < lengths[|lengths| - 1] {
        i := |lengths| - 1;
      }
    }
  }

  lemma {:induction false} KraftOfOnes(lengths: seq<nat>, maxbitlen: nat, k: nat)
    requires maxbitlen > 0 && Bounded(lengths, maxbitlen) && Bounded(lengths, 1) && k <= |lengths|
    ensures Bounded(lengths[..k], maxbitlen)
    ensures KraftSum(lengths[..k], maxbitlen) == NumUsed(lengths, k) * Pow2(maxbitlen - 1)
  {
    if k > 0 {
      KraftOfOnes(lengths, maxbitlen, k - 1);
      assert lengths[..k][..k - 1] == lengths[..k - 1];
      OneMore(NumUsed(lengths, k - 1), Pow2(maxbitlen - 1));
    }
  }

  lemma OnesFill(lengths: seq<nat>, maxbitlen: nat)
    requires maxbitlen > 0 && Bounded(lengths, maxbitlen) && Bounded(lengths, 1)
    requires NumUsed(lengths, |lengths|) >= 2 && KraftSum(lengths, maxbitlen) <= Pow2(maxbitlen)
    ensures KraftSum(lengths, maxbitlen) == Pow2(maxbitlen)
  {
    hide KraftSum, NumUsed, Bounded;
    KraftOfOnes(lengths, maxbitlen, |lengths|);
    assert lengths[..|lengths|] == lengths;
    AtLeastTwice(NumUsed(lengths, |lengths|), Pow2(maxbitlen - 1));
  }

  lemma AtLeastTwice(n: nat, p: nat)
    requires n >= 2
    ensures n * p >= 2 * p
  {
    MulMonotone(p, 2, n);
  }

  /** An admissible code that nothing beats is complete: otherwise its longest word could be shortened. */
  lemma CheapestIsComplete(lengths: seq<nat>, freq: seq<nat>, maxbitlen: nat)
    requires Admissible(lengths, freq, maxbitlen) && maxbitlen > 0
    requires NumPresent(freq, |freq|) >= 2
    requires forall alt :: Admissible(alt, freq, maxbitlen) ==>
               Cost(lengths, freq, |freq|) <= Cost(alt, freq, |freq|)
    ensures Complete(lengths, maxbitlen)
  {
    hide KraftSum, Cost, NumUsed, NumPresent;
    UsedIsPresent(lengths, freq, maxbitlen, |freq|);
    var i := Longest(lengths);
    if lengths[i] <= 1 {
      OnesFill(lengths, maxbitlen);
    } else if KraftSum(lengths, maxbitlen) < Pow2(maxbitlen) {
      ShortenLongest(lengths, freq, maxbitlen, i);
    }
  }

  lemma ShortenLongest(lengths: seq<nat>, freq: seq<nat>, maxbitlen: nat, i: nat)
    requires Admissible(lengths, freq, maxbitlen) && KraftSum(lengths, maxbitlen) < Pow2(maxbitlen)
    requires i < |lengths| && lengths[i] >= 2 && Bounded(lengths, lengths[i])
    ensures Admissible(lengths[i := lengths[i] - 1], freq, maxbitlen)
    ensures Cost(lengths[i := lengths[i] - 1], freq, |freq|) < Cost(lengths, freq, |freq|)
  {
    hide KraftSum, Cost;
    var top := lengths[i];
    var q := KraftMultiple(lengths, maxbitlen, top);
    Pow2Add(top, maxbitlen - top);
    NextMultiple(q, Pow2(top), Pow2(maxbitlen - top));
    KraftShorten(lengths, maxbitlen, i);
    CostShorten(lengths, freq, i, |freq|);
  }

  lemma NextMultiple(q: nat, r: nat, p: nat)
    requires q * p < r * p
    ensures q * p + p <= r * p
  {
    assert q < r;
    MulMonotone(p, q + 1, r);
    assert p * (q + 1) == q * p + p;
  }

  lemma {:induction false} UseWeightIsCost(us: seq<Use>, lengths: seq<nat>, freq: seq<nat>)
    requires |lengths| == |freq|
    requires forall u :: u in us ==> u.sym < |freq|
    requires forall s :: 0 <= s < |lengths| ==> lengths[s] == Occurrences(Symbols(us), s)
    ensures UseWeight(us, freq) == Cost(lengths, freq, |freq|)
    decreases |us|
  {
    if us == [] {
      CostOfNothing(lengths, freq, |freq|);
    } else {
      var front, s := us[..|us| - 1], us[|us| - 1].sym;
      assert Symbols(us)[..|us| - 1] == Symbols(front);
      assert us[|us| - 1] in us;
      var fewer := lengths[s := lengths[s] - 1];
      UseWeightIsCost(front, fewer, freq);
      CostShorten(lengths, freq, s, |freq|);
    }
  }

  lemma {:induction false} CostOfNothing(lengths: seq<nat>, freq: seq<nat>, k: nat)
    requires |lengths| == |freq| && k <= |freq|
    requires forall s :: 0 <= s < |lengths| ==> lengths[s] == 0
    ensures Cost(lengths, freq, k) == 0
  {
    if k > 0 {
      CostOfNothing(lengths, freq, k - 1);
    }
  }

  /**
   * Package-merge: whatever order equal coins end up in, the lengths counted on the first n - 1 coins of the
   * last row are a complete code of the present symbols, within maxbitlen, and of minimal cost.
   */
  lemma PackageMergeCorrect(rows: seq<seq<Tree>>, freq: seq<nat>, maxbitlen: nat, lengths: seq<nat>)
    requires AreRows(rows, freq, maxbitlen) && |rows| == maxbitlen + 1 && maxbitlen > 0
    requires 2 <= NumPresent(freq, |freq|) <= Pow2(maxbitlen)
    requires NumPresent(freq, |freq|) - 1 <= |rows[maxbitlen]|
    requires |lengths| == |freq| && CountsOf(lengths, rows[maxbitlen][..NumPresent(freq, |freq|) - 1])
    ensures Admissible(lengths, freq, maxbitlen) && Complete(lengths, maxbitlen)
    ensures forall alt :: Admissible(alt, freq, maxbitlen) ==>
              Cost(lengths, freq, |freq|) <= Cost(alt, freq, |freq|)
  {
    hide AreRows, Honest, AllUses, UseWeight, Bounded, Cost, NumPresent, Complete, KraftSum, Symbols, Occurrences;
    var n := NumPresent(freq, |freq|);
    var coins := rows[maxbitlen][..n - 1];
    RowHonest(rows, freq, maxbitlen, maxbitlen);
    HonestPrefix(rows[maxbitlen], freq, maxbitlen, Pow2(maxbitlen), n - 1);
    LengthsAdmissible(lengths, coins, freq, maxbitlen);
    HonestSymbols(coins, freq, maxbitlen, Pow2(maxbitlen));
    UseWeightIsCost(AllUses(coins), lengths, freq);
    forall alt | Admissible(alt, freq, maxbitlen)
      ensures Cost(lengths, freq, |freq|) <= Cost(alt, freq, |freq|)
    {
      LastRowIsCheapest(rows, freq, maxbitlen, alt);
    }
    CheapestIsComplete(lengths, freq, maxbitlen);
  }

  // ---------------------------------------------------------------- what the cost is

  /** The bits of a text: one word per symbol. */
  function Encoded(lengths: seq<nat>, text: seq<nat>): BitString
    requires forall i :: 0 <= i < |text| ==> text[i] < |lengths|
  {
    if text == [] then [] else Encoded(lengths, text[..|text| - 1]) + Word(lengths, text[|text| - 1])
  }

  /** The cost of a code is the number of bits of any text whose symbols occur as often as the frequencies say. */
  lemma {:induction false} CostIsSize(lengths: seq<nat>, freq: seq<nat>, text: seq<nat>)
    requires |lengths| == |freq| && forall i :: 0 <= i < |text| ==> text[i] < |lengths|
    requires forall s :: 0 <= s < |freq| ==> freq[s] == Occurrences(text, s)
    ensures Cost(lengths, freq, |freq|) == |Encoded(lengths, text)|
    decreases |text|
  {
    if text == [] {
      CostOfNoText(lengths, freq, |freq|);
    } else {
      var front, last := text[..|text| - 1], text[|text| - 1];
      OccurrencesLast(text, last);
      var before := freq[last := freq[last] - 1];
      forall s | 0 <= s < |freq|
        ensures before[s] == Occurrences(front, s)
      {
        OccurrencesLast(text, s);
      }
      CostIsSize(lengths, before, front);
      CostOfOne(lengths, before, freq, last, |freq|);
    }
  }

  lemma OccurrencesLast(text: seq<nat>, s: nat)
    requires text != []
    ensures Occurrences(text, s)
            == Occurrences(text[..|text| - 1], s) + (if text[|text| - 1] == s then 1 else 0)
  {
  }

  lemma {:induction false} CostOfNoText(lengths: seq<nat>, freq: seq<nat>, k: nat)
    requires k <= |lengths| == |freq| && forall s :: 0 <= s < |freq| ==> freq[s] == 0
    ensures Cost(lengths, freq, k) == 0
  {
    if k > 0 {
      CostOfNoText(lengths, freq, k - 1);
    }
  }

  lemma {:induction false} CostOfOne(lengths: seq<nat>, before: seq<nat>, freq: seq<nat>, s: nat, k: nat)
    requires k <= |lengths| == |freq| == |before| && s < |freq| && freq == before[s := before[s] + 1]
    ensures Cost(lengths, freq, k) == Cost(lengths, before, k) + (if s < k then lengths[s] else 0)
  {
    if k > 0 {
      CostOfOne(lengths, before, freq, s, k - 1);
      if s == k - 1 {
        assert lengths[s] * (before[s] + 1) == lengths[s] * before[s] + lengths[s];
      }
    }
  }

  lemma HonestSymbols(ts: seq<Tree>, freq: seq<nat>, levels: nat, worth: nat)
    requires Honest(ts, freq, levels, worth)
    ensures forall u :: u in AllUses(ts) ==> u.sym < |freq|
  {
    forall u | u in AllUses(ts)
      ensures u.sym < |freq|
    {
      assert u in multiset(AllUses(ts));
    }
  }
}

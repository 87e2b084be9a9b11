/**
 * The coin collector's problem behind package-merge: rows of coins, what a row's cheapest coins are worth,
 * and why the cheapest coins of the last row are an optimal complete code.
 */
module PackageMerge {
  import opened Powers
  import opened CoinSort

  // ---------------------------------------------------------------- coins as trees

  /** How a coin came about: one symbol at one level, or a package of two coins of the level below. */
  datatype Tree = Single(sym: nat, level: nat) | Pair(left: Tree, right: Tree)

  /** One use of a symbol at a level; the level's coins are worth 2^level. */
  datatype Use = Use(sym: nat, level: nat)

  function Uses(t: Tree): seq<Use>
  {
    match t
    case Single(s, l) => [Use(s, l)]
    case Pair(a, b) => Uses(a) + Uses(b)
  }

  function AllUses(ts: seq<Tree>): seq<Use>
  {
    if ts == [] then [] else AllUses(ts[..|ts| - 1]) + Uses(ts[|ts| - 1])
  }

  function Symbols(u: seq<Use>): (r: seq<nat>)
    ensures |r| == |u|
  {
    seq(|u|, i requires 0 <= i < |u| => u[i].sym)
  }

  function Freq(freq: seq<nat>, s: nat): nat
  {
    if s < |freq| then freq[s] else 0
  }

  function UseWeight(u: seq<Use>, freq: seq<nat>): nat
  {
    if u == [] then 0 else UseWeight(u[..|u| - 1], freq) + Freq(freq, u[|u| - 1].sym)
  }

  function UseValue(u: seq<Use>): nat
  {
    if u == [] then 0 else UseValue(u[..|u| - 1]) + Pow2(u[|u| - 1].level)
  }

  function CoinOf(t: Tree, freq: seq<nat>): Coin
  {
    Coin(Symbols(Uses(t)), UseWeight(Uses(t), freq))
  }

  function CoinsOf(ts: seq<Tree>, freq: seq<nat>): (r: seq<Coin>)
    ensures |r| == |ts|
  {
    seq(|ts|, i requires 0 <= i < |ts| => CoinOf(ts[i], freq))
  }

  function Weight(ts: seq<Tree>, freq: seq<nat>): nat
  {
    UseWeight(AllUses(ts), freq)
  }

  lemma {:induction false} WeightValueAppend(u: seq<Use>, v: seq<Use>, freq: seq<nat>)
    ensures UseWeight(u + v, freq) == UseWeight(u, freq) + UseWeight(v, freq)
    ensures UseValue(u + v) == UseValue(u) + UseValue(v)
  {
    if v == [] {
      assert u + v == u;
    } else {
      assert (u + v)[..|u + v| - 1] == u + v[..|v| - 1];
      WeightValueAppend(u, v[..|v| - 1], freq);
    }
  }

  lemma {:induction false} AllUsesAppend(a: seq<Tree>, b: seq<Tree>)
    ensures AllUses(a + b) == AllUses(a) + AllUses(b)
  {
    if b == [] {
      assert a + b == a;
    } else {
      hide Uses;
      var c := b[..|b| - 1];
      assert (a + b)[..|a + b| - 1] == a + c;
      AllUsesAppend(a, c);
      assert AllUses(a + b) == AllUses(a + c) + Uses(b[|b| - 1]);
    }
  }

  lemma WeightAppend(a: seq<Tree>, b: seq<Tree>, freq: seq<nat>)
    ensures Weight(a + b, freq) == Weight(a, freq) + Weight(b, freq)
  {
    AllUsesAppend(a, b);
    WeightValueAppend(AllUses(a), AllUses(b), freq);
  }

  lemma AllUsesOne(t: Tree)
    ensures AllUses([t]) == Uses(t)
  {
    assert [t][..0] == [];
    assert AllUses([]) == [];
  }

  function Without<T>(s: seq<T>, i: nat): (r: seq<T>)
    requires i < |s|
    ensures |r| == |s| - 1
  {
    s[..i] + s[i + 1..]
  }

  lemma WithoutMultiset<T>(s: seq<T>, i: nat)
    requires i < |s|
    ensures multiset(s) == multiset(Without(s, i)) + multiset{s[i]}
  {
    assert s == s[..i] + ([s[i]] + s[i + 1..]);
  }

  /** Taking one coin out of a collection. */
  lemma TakeOut(ts: seq<Tree>, i: nat, freq: seq<nat>)
    requires i < |ts|
    ensures multiset(AllUses(ts)) == multiset(AllUses(Without(ts, i))) + multiset(Uses(ts[i]))
    ensures Weight(ts, freq) == Weight(Without(ts, i), freq) + UseWeight(Uses(ts[i]), freq)
  {
    hide AllUses, Uses, UseWeight;
    assert ts == ts[..i] + ([ts[i]] + ts[i + 1..]);
    AllUsesAppend(ts[..i], [ts[i]] + ts[i + 1..]);
    AllUsesAppend([ts[i]], ts[i + 1..]);
    AllUsesAppend(ts[..i], ts[i + 1..]);
    AllUsesOne(ts[i]);
    WeightAppend(ts[..i], [ts[i]] + ts[i + 1..], freq);
    WeightAppend([ts[i]], ts[i + 1..], freq);
    WeightAppend(ts[..i], ts[i + 1..], freq);
  }

  /** Equal collections lose an equal coin and stay equal. */
  lemma MatchLast<T>(a: seq<T>, b: seq<T>) returns (i: nat)
    requires a != [] && multiset(a) == multiset(b)
    ensures i < |b| && b[i] == a[|a| - 1]
    ensures multiset(Without(a, |a| - 1)) == multiset(Without(b, i))
  {
    var x := a[|a| - 1];
    assert x in multiset(b);
    i :| 0 <= i < |b| && b[i] == x;
    WithoutMultiset(a, |a| - 1);
    WithoutMultiset(b, i);
    CancelOne(multiset(Without(a, |a| - 1)), multiset(Without(b, i)), x);
  }

  lemma CancelOne<T>(m: multiset<T>, n: multiset<T>, x: T)
    requires m + multiset{x} == n + multiset{x}
    ensures m == n
  {
    assert m == (m + multiset{x}) - multiset{x};
    assert n == (n + multiset{x}) - multiset{x};
  }

  lemma {:induction false} SameCoins(a: seq<Tree>, b: seq<Tree>, freq: seq<nat>)
    requires multiset(a) == multiset(b)
    ensures multiset(AllUses(a)) == multiset(AllUses(b))
    ensures Weight(a, freq) == Weight(b, freq)
    decreases |a|
  {
    if a == [] {
      assert |multiset(b)| == 0;
    } else {
      hide AllUses, Uses, UseWeight, Weight, Without;
      var i := MatchLast(a, b);
      TakeOut(a, |a| - 1, freq);
      TakeOut(b, i, freq);
      SameCoins(Without(a, |a| - 1), Without(b, i), freq);
    }
  }

  // ---------------------------------------------------------------- the cheapest coins of a row

  ghost predicate Ascending(ts: seq<Tree>, freq: seq<nat>)
  {
    forall i, j :: 0 <= i < j < |ts| ==> UseWeight(Uses(ts[i]), freq) <= UseWeight(Uses(ts[j]), freq)
  }

  /** The first coins of an ascending row cost no more than any other choice of as many. */
  lemma {:induction false} CheapestPrefix(row: seq<Tree>, sub: seq<Tree>, freq: seq<nat>)
    requires Ascending(row, freq) && multiset(sub) <= multiset(row)
    ensures |sub| <= |row| && Weight(row[..|sub|], freq) <= Weight(sub, freq)
    decreases |row|
  {
    hide AllUses, Uses, UseWeight, Weight, Without, Ascending;
    SubmultisetSize(sub, row);
    if |sub| == |row| {
      assert row[..|sub|] == row;
      SameCoins(row, sub, freq);
    } else {
      var last, front := row[|row| - 1], row[..|row| - 1];
      assert row == front + [last];
      AscendingFront(row, freq);
      if last in sub {
        var i, rest := DropLast(sub, front, last);
        TakeOut(sub, i, freq);
        CheapestPrefix(front, rest, freq);
        assert front[..|rest|] == row[..|rest|];
        LongerPrefix(row, |rest|, freq);
        LastIsHeaviest(row, |rest|, freq);
      } else {
        DropAbsent(sub, front, last);
        CheapestPrefix(front, sub, freq);
        assert front[..|sub|] == row[..|sub|];
      }
    }
  }

  lemma LastIsHeaviest(row: seq<Tree>, k: nat, freq: seq<nat>)
    requires Ascending(row, freq) && k < |row|
    ensures UseWeight(Uses(row[k]), freq) <= UseWeight(Uses(row[|row| - 1]), freq)
  {
  }

  lemma AscendingFront(row: seq<Tree>, freq: seq<nat>)
    requires Ascending(row, freq) && row != []
    ensures Ascending(row[..|row| - 1], freq)
  {
    hide UseWeight, Uses;
  }

  lemma DropLast(sub: seq<Tree>, front: seq<Tree>, last: Tree) returns (i: nat, rest: seq<Tree>)
    requires last in sub && multiset(sub) <= multiset(front + [last])
    ensures i < |sub| && sub[i] == last && rest == Without(sub, i) && multiset(rest) <= multiset(front)
  {
    i :| 0 <= i < |sub| && sub[i] == last;
    rest := Without(sub, i);
    WithoutMultiset(sub, i);
    DropPresent(multiset(rest), front, last);
  }

  lemma LongerPrefix(row: seq<Tree>, k: nat, freq: seq<nat>)
    requires k < |row|
    ensures Weight(row[..k + 1], freq) == Weight(row[..k], freq) + UseWeight(Uses(row[k]), freq)
  {
    assert row[..k + 1] == row[..k] + [row[k]];
    WeightAppend(row[..k], [row[k]], freq);
    AllUsesOne(row[k]);
  }

  lemma DropPresent(m: multiset<Tree>, front: seq<Tree>, last: Tree)
    requires m + multiset{last} <= multiset(front + [last])
    ensures m <= multiset(front)
  {
    forall t
      ensures m[t] <= multiset(front)[t]
    {
      assert (m + multiset{last})[t] <= multiset(front + [last])[t];
    }
  }

  lemma DropAbsent(sub: seq<Tree>, front: seq<Tree>, last: Tree)
    requires multiset(sub) <= multiset(front + [last]) && last !in sub
    ensures multiset(sub) <= multiset(front)
  {
    forall t
      ensures multiset(sub)[t] <= multiset(front)[t]
    {
      assert multiset(front + [last])[t] == multiset(front)[t] + multiset{last}[t];
      if t == last {
        assert last !in multiset(sub);
      }
    }
  }

  lemma SubmultisetSize(sub: seq<Tree>, row: seq<Tree>)
    requires multiset(sub) <= multiset(row)
    ensures |sub| <= |row|
    ensures |sub| == |row| ==> multiset(sub) == multiset(row)
  {
    var extra := multiset(row) - multiset(sub);
    assert multiset(row) == multiset(sub) + extra;
    assert |multiset(row)| == |multiset(sub)| + |extra|;
    if |sub| == |row| {
      assert extra == multiset{};
    }
  }

  // ---------------------------------------------------------------- rows

  /** The coins of the present symbols below k at one level. */
  function Singles(freq: seq<nat>, level: nat, k: nat): (r: seq<Tree>)
    requires k <= |freq|
    ensures |r| == NumPresent(freq, k)
  {
    if k == 0 then []
    else Singles(freq, level, k - 1) + (if freq[k - 1] != 0 then [Single(k - 1, level)] else [])
  }

  function NumPresent(freq: seq<nat>, k: nat): (r: nat)
    requires k <= |freq|
    ensures r <= k
  {
    if k == 0 then 0 else NumPresent(freq, k - 1) + (if freq[k - 1] != 0 then 1 else 0)
  }

  /** The coins of a row merged two by two; an odd one at the end is dropped. */
  function Packages(ts: seq<Tree>): (r: seq<Tree>)
    ensures |r| == |ts| / 2
  {
    seq(|ts| / 2, i requires 0 <= i < |ts| / 2 => Pair(ts[2 * i], ts[2 * i + 1]))
  }

  lemma {:induction false} PackagesUses(ts: seq<Tree>, m: nat)
    requires m <= |ts| / 2
    ensures AllUses(Packages(ts)[..m]) == AllUses(ts[..2 * m])
  {
    if m > 0 {
      PackagesUses(ts, m - 1);
      var a := ts[..2 * m - 2];
      assert Packages(ts)[..m][..m - 1] == Packages(ts)[..m - 1];
      var b := ts[..2 * m - 1];
      assert ts[..2 * m][..2 * m - 1] == b;
      assert b[..2 * m - 2] == a;
      assert AllUses(b) == AllUses(a) + Uses(ts[2 * m - 2]);
      assert AllUses(ts[..2 * m]) == AllUses(b) + Uses(ts[2 * m - 1]);
      assert AllUses(Packages(ts)[..m]) == AllUses(a) + Uses(Packages(ts)[m - 1]);
    }
  }

  /** The contents of row j before it is sorted. */
  function RowContents(rows: seq<seq<Tree>>, freq: seq<nat>, maxbitlen: nat, j: nat): seq<Tree>
    requires j <= |rows|
  {
    (if j == 0 then [] else Packages(rows[j - 1])) + (if j < maxbitlen then Singles(freq, j, |freq|) else [])
  }

  /** The rows of the algorithm: each holds the packages of the one before and fresh symbols, ascending. */
  ghost predicate AreRows(rows: seq<seq<Tree>>, freq: seq<nat>, maxbitlen: nat)
  {
    && |rows| <= maxbitlen + 1
    && forall j :: 0 <= j < |rows| ==> IsRow(rows, freq, maxbitlen, j)
  }

  ghost predicate IsRow(rows: seq<seq<Tree>>, freq: seq<nat>, maxbitlen: nat, j: nat)
    requires j < |rows|
  {
    Ascending(rows[j], freq) && multiset(rows[j]) == multiset(RowContents(rows, freq, maxbitlen, j))
  }

  /** A row holds fewer than 2n coins for n present symbols; the shortfall halves from row to row. */
  lemma {:induction false} RowLength(rows: seq<seq<Tree>>, freq: seq<nat>, maxbitlen: nat, j: nat)
    requires AreRows(rows, freq, maxbitlen) && j < |rows|
    requires 2 <= NumPresent(freq, |freq|) <= Pow2(maxbitlen)
    ensures var n := NumPresent(freq, |freq|);
            && (j < maxbitlen ==> n <= |rows[j]| < 2 * n && 2 * n <= |rows[j]| + Pow2(maxbitlen - j))
            && (j == maxbitlen > 0 ==> n - 1 <= |rows[j]| <= n)
  {
    hide NumPresent, Singles;
    SameSize(rows[j], RowContents(rows, freq, maxbitlen, j)) by {
      assert IsRow(rows, freq, maxbitlen, j);
    }
    if j > 0 {
      hide AreRows;
      RowLength(rows, freq, maxbitlen, j - 1);
      assert Pow2(1) == 2;
    }
  }

  lemma SameSize<T>(a: seq<T>, b: seq<T>)
    requires multiset(a) == multiset(b)
    ensures |a| == |b|
  {
    assert |multiset(a)| == |multiset(b)|;
  }

  // ---------------------------------------------------------------- what a row is made of

  /** No symbol is used twice at one level, and every coin of row j is worth 2^j. */
  ghost predicate Honest(ts: seq<Tree>, freq: seq<nat>, levels: nat, worth: nat)
  {
    && HonestUses(multiset(AllUses(ts)), freq, levels)
    && (forall t :: t in ts ==> UseValue(Uses(t)) == worth)
  }

  ghost predicate HonestUses(m: multiset<Use>, freq: seq<nat>, levels: nat)
  {
    forall u :: u in m ==> m[u] == 1 && u.level < levels && Freq(freq, u.sym) > 0
  }

  ghost predicate AllAtLevel(m: multiset<Use>, level: nat)
  {
    forall u :: u in m ==> u.level == level
  }

  lemma {:induction false} SinglesHonest(freq: seq<nat>, level: nat, k: nat)
    requires k <= |freq|
    ensures Honest(Singles(freq, level, k), freq, level + 1, Pow2(level))
    ensures AllAtLevel(multiset(AllUses(Singles(freq, level, k))), level)
    ensures forall u :: u in AllUses(Singles(freq, level, k)) ==> u.sym < k
  {
    hide AllUses, UseValue, Uses, HonestUses, Pow2, NumPresent;
    if k == 0 {
      NoCoins(freq, level + 1, Pow2(level));
    } else {
      SinglesHonest(freq, level, k - 1);
      if freq[k - 1] != 0 {
        var front := Singles(freq, level, k - 1);
        OneSingleMore(front, freq, level, k - 1);
        assert Singles(freq, level, k) == front + [Single(k - 1, level)];
      } else {
        assert Singles(freq, level, k) == Singles(freq, level, k - 1);
      }
    }
  }

  lemma OneSingleMore(front: seq<Tree>, freq: seq<nat>, level: nat, s: nat)
    requires s < |freq| && freq[s] != 0 && Honest(front, freq, level + 1, Pow2(level))
    requires AllAtLevel(multiset(AllUses(front)), level) && forall u :: u in AllUses(front) ==> u.sym < s
    ensures Honest(front + [Single(s, level)], freq, level + 1, Pow2(level))
    ensures AllAtLevel(multiset(AllUses(front + [Single(s, level)])), level)
    ensures forall u :: u in AllUses(front + [Single(s, level)]) ==> u.sym < s + 1
  {
    hide AllUses, UseValue, Uses, HonestUses, Pow2;
    var t := Single(s, level);
    AllUsesAppend(front, [t]);
    AllUsesOne(t);
    SingleUse(s, level);
    AddUse(AllUses(front), Use(s, level), freq, level + 1);
  }

  lemma SingleUse(s: nat, level: nat)
    ensures Uses(Single(s, level)) == [Use(s, level)]
    ensures UseValue(Uses(Single(s, level))) == Pow2(level)
  {
    var u := [Use(s, level)];
    assert UseValue(u) == UseValue(u[..0]) + Pow2(level);
  }

  lemma AddUse(us: seq<Use>, u: Use, freq: seq<nat>, levels: nat)
    requires HonestUses(multiset(us), freq, levels) && u !in us
    requires u.level < levels && Freq(freq, u.sym) > 0
    ensures HonestUses(multiset(us + [u]), freq, levels)
  {
    forall v | v in multiset(us + [u])
      ensures multiset(us + [u])[v] == 1 && v.level < levels && Freq(freq, v.sym) > 0
    {
      assert multiset(us + [u])[v] == multiset(us)[v] + multiset{u}[v];
      assert v in us ==> v in multiset(us);
    }
  }

  lemma HonestPrefix(ts: seq<Tree>, freq: seq<nat>, levels: nat, worth: nat, k: nat)
    requires Honest(ts, freq, levels, worth) && k <= |ts|
    ensures Honest(ts[..k], freq, levels, worth)
  {
    hide AllUses, UseValue;
    assert ts == ts[..k] + ts[k..];
    AllUsesAppend(ts[..k], ts[k..]);
    PartHonest(multiset(AllUses(ts[..k])), multiset(AllUses(ts[k..])), freq, levels);
  }

  lemma PartHonest(a: multiset<Use>, b: multiset<Use>, freq: seq<nat>, levels: nat)
    requires HonestUses(a + b, freq, levels)
    ensures HonestUses(a, freq, levels)
  {
    forall u | u in a
      ensures a[u] == 1 && u.level < levels && Freq(freq, u.sym) > 0
    {
      assert u in a + b;
    }
  }

  lemma HonestPackages(ts: seq<Tree>, freq: seq<nat>, levels: nat, worth: nat)
    requires Honest(ts, freq, levels, worth)
    ensures Honest(Packages(ts), freq, levels, 2 * worth)
  {
    hide AllUses, UseValue;
    var m := |ts| / 2;
    PackagesUses(ts, m);
    assert Packages(ts)[..m] == Packages(ts);
    HonestPrefix(ts, freq, levels, worth, 2 * m);
    forall t | t in Packages(ts)
      ensures UseValue(Uses(t)) == 2 * worth
    {
      var i :| 0 <= i < m && t == Pair(ts[2 * i], ts[2 * i + 1]);
      WeightValueAppend(Uses(ts[2 * i]), Uses(ts[2 * i + 1]), freq);
    }
  }

  lemma {:induction false} RowHonest(rows: seq<seq<Tree>>, freq: seq<nat>, maxbitlen: nat, j: nat)
    requires AreRows(rows, freq, maxbitlen) && j < |rows|
    ensures Honest(rows[j], freq, if j < maxbitlen then j + 1 else j, Pow2(j))
  {
    hide AllUses, UseValue, Singles, Packages;
    assert IsRow(rows, freq, maxbitlen, j);
    var a := if j == 0 then [] else Packages(rows[j - 1]);
    var b := if j < maxbitlen then Singles(freq, j, |freq|) else [];
    if j > 0 {
      RowHonest(rows, freq, maxbitlen, j - 1);
      HonestPackages(rows[j - 1], freq, j, Pow2(j - 1));
    } else {
      NoCoins(freq, 0, 1);
    }
    NoCoins(freq, j, Pow2(j));
    SinglesHonest(freq, j, |freq|);
    AllUsesAppend(a, b);
    SameCoins(rows[j], a + b, freq);
    JoinUses(multiset(AllUses(a)), multiset(AllUses(b)), freq, j, if j < maxbitlen then j + 1 else j);
    forall t | t in rows[j]
      ensures UseValue(Uses(t)) == Pow2(j)
    {
      assert t in multiset(rows[j]);
      assert t in a || t in b;
    }
  }

  lemma NoCoins(freq: seq<nat>, levels: nat, worth: nat)
    ensures AllUses([]) == [] && Honest([], freq, levels, worth)
  {
  }

  lemma JoinUses(a: multiset<Use>, b: multiset<Use>, freq: seq<nat>, j: nat, levels: nat)
    requires HonestUses(a, freq, j) && HonestUses(b, freq, levels) && AllAtLevel(b, j)
    requires j <= levels
    ensures HonestUses(a + b, freq, levels)
  {
    forall u | u in a + b
      ensures (a + b)[u] == 1 && u.level < levels && Freq(freq, u.sym) > 0
    {
      assert (a + b)[u] == a[u] + b[u];
    }
  }
}

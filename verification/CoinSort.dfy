/** The combsort that orders a row of coins by weight. */
module CoinSort {

  /** A coin of the coin collector's problem: the symbols merged into it and their total weight. */
  datatype Coin = Coin(symbols: seq<nat>, weight: nat)

  ghost predicate Sorted(s: seq<Coin>)
  {
    forall i, j :: 0 <= i < j < |s| ==> s[i].weight <= s[j].weight
  }

  function TotalWeight(s: seq<Coin>): nat
  {
    if s == [] then 0 else TotalWeight(s[..|s| - 1]) + s[|s| - 1].weight
  }

  /** Grows with every exchange that moves a heavier coin up; bounds the number of passes. */
  function Potential(s: seq<Coin>): nat
  {
    if s == [] then 0 else Potential(s[..|s| - 1]) + (|s| - 1) * s[|s| - 1].weight
  }

  lemma {:induction false} Replace(s: seq<Coin>, i: nat, c: Coin)
    requires i < |s|
    ensures TotalWeight(s[i := c]) == TotalWeight(s) + c.weight - s[i].weight
    ensures Potential(s[i := c]) == Potential(s) + i * c.weight - i * s[i].weight
  {
    var t := s[i := c];
    if i == |s| - 1 {
      assert t[..i] == s[..i];
    } else {
      assert t[..|s| - 1] == s[..|s| - 1][i := c];
      Replace(s[..|s| - 1], i, c);
    }
  }

  function Exchanged(s: seq<Coin>, i: nat, j: nat): seq<Coin>
    requires i < j < |s|
  {
    s[i := s[j]][j := s[i]]
  }

  lemma Exchange(s: seq<Coin>, i: nat, j: nat)
    requires i < j < |s| && s[j].weight < s[i].weight
    ensures multiset(Exchanged(s, i, j)) == multiset(s)
    ensures TotalWeight(Exchanged(s, i, j)) == TotalWeight(s)
    ensures Potential(Exchanged(s, i, j)) > Potential(s)
  {
    hide TotalWeight, Potential;
    Replace(s, i, s[j]);
    Replace(s[i := s[j]], j, s[i]);
    ExchangeGain(i, j, s[i].weight, s[j].weight);
  }

  lemma ExchangeGain(i: nat, j: nat, a: nat, b: nat)
    requires i < j && b < a
    ensures i * b - i * a + j * a - j * b > 0
  {
    assert i * b - i * a + j * a - j * b == (j - i) * (a - b);
    assert (j - i) * (a - b) > 0;
  }

  lemma {:induction false} PotentialBound(s: seq<Coin>)
    ensures Potential(s) <= |s| * TotalWeight(s)
  {
    if s != [] {
      var front, w := s[..|s| - 1], s[|s| - 1].weight;
      PotentialBound(front);
      assert |s| * (TotalWeight(front) + w) == (|s| - 1) * TotalWeight(front) + TotalWeight(front) + (|s| - 1) * w + w;
    }
  }

  lemma {:induction false} AdjacentSorted(s: seq<Coin>)
    requires forall i :: 0 <= i < |s| - 1 ==> s[i].weight <= s[i + 1].weight
    ensures Sorted(s)
  {
    if s != [] {
      var front := s[..|s| - 1];
      AdjacentSorted(front);
      forall i | 0 <= i < |s| - 1
        ensures s[i].weight <= s[|s| - 1].weight
      {
        assert front[i].weight <= front[|front| - 1].weight;
        assert s[|s| - 2].weight <= s[|s| - 2 + 1].weight;
      }
      assert forall i, j :: 0 <= i < j < |front| ==> front[i] == s[i] && front[j] == s[j];
    }
  }

  /** Shrinks the gap: a factor 1.3, but 11 instead of 9 or 10, and at least 1. */
  function NextGap(gap: nat): (r: nat)
    ensures r >= 1
    ensures gap > 1 ==> r < gap
    ensures gap == 1 ==> r == 1
    ensures gap >= 1 ==> r <= gap
  {
    var g := gap * 10 / 13;
    if g == 9 || g == 10 then 11 else if g < 1 then 1 else g
  }

  method SortCoins(data: array<Coin>, amount: nat)
    requires amount <= data.Length
    modifies data
    ensures Sorted(data[..amount])
    ensures multiset(data[..amount]) == multiset(old(data[..amount]))
    ensures data[amount..] == old(data[amount..])
  {
    hide TotalWeight, Potential;
    var gap := amount;
    var swapped := false;
    ghost var bound := amount * TotalWeight(data[..amount]);
    PotentialBound(data[..amount]);
    while gap > 1 || swapped
      invariant gap <= amount && (swapped ==> gap >= 1)
      invariant multiset(data[..amount]) == multiset(old(data[..amount]))
      invariant amount * TotalWeight(data[..amount]) == bound && Potential(data[..amount]) <= bound
      invariant data[amount..] == old(data[amount..])
      invariant gap <= 1 && !swapped ==> Sorted(data[..amount])
      decreases gap, bound - Potential(data[..amount]), swapped
    {
      gap := NextGap(gap);
      swapped := Pass(data, amount, gap);
      PotentialBound(data[..amount]);
    }
  }

  /** One pass over the pairs at distance gap. */
  method Pass(data: array<Coin>, amount: nat, gap: nat) returns (swapped: bool)
    requires 1 <= gap <= amount <= data.Length
    modifies data
    ensures multiset(data[..amount]) == multiset(old(data[..amount]))
    ensures TotalWeight(data[..amount]) == old(TotalWeight(data[..amount]))
    ensures data[amount..] == old(data[amount..])
    ensures swapped ==> Potential(data[..amount]) > old(Potential(data[..amount]))
    ensures !swapped ==> data[..amount] == old(data[..amount])
    ensures !swapped && gap == 1 ==> Sorted(data[..amount])
  {
    hide TotalWeight, Potential;
    swapped := false;
    for i := 0 to amount - gap
      invariant multiset(data[..amount]) == multiset(old(data[..amount]))
      invariant TotalWeight(data[..amount]) == old(TotalWeight(data[..amount]))
      invariant data[amount..] == old(data[amount..])
      invariant swapped ==> Potential(data[..amount]) > old(Potential(data[..amount]))
      invariant !swapped ==> data[..amount] == old(data[..amount])
      invariant !swapped ==> forall k :: 0 <= k < i ==> data[k].weight <= data[k + gap].weight
    {
      var j := i + gap;
      if data[j].weight < data[i].weight {
        ghost var s := data[..amount];
        data[i], data[j] := data[j], data[i];
        assert data[..amount] == Exchanged(s, i, j);
        Exchange(s, i, j);
        swapped := true;
      }
    }
    if gap == 1 && !swapped {
      AdjacentSorted(data[..amount]);
    }
  }
}

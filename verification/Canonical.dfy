/** Canonical Huffman codes: the assignment of section 3.2.2 of RFC 1951 and the tree it denotes. */
module Canonical {
  import opened Powers
  import opened Bits
  import opened Tries
  import opened Options

  // ---------------------------------------------------------------- the RFC's definitions

  /** bl_count[l]: how many symbols have code length l. */
  function CountLen(lengths: seq<nat>, l: nat): (r: nat)
    ensures r <= |lengths|
  {
    if lengths == [] then 0
    else CountLen(lengths[..|lengths| - 1], l) + (if lengths[|lengths| - 1] == l then 1 else 0)
  }

  /** bl_count with bl_count[0] set to 0, as the RFC prescribes. */
  function Used(lengths: seq<nat>, l: nat): nat
  {
    if l == 0 then 0 else CountLen(lengths, l)
  }

  /** next_code[l] before any code is given out. */
  function FirstCode(lengths: seq<nat>, l: nat): nat
  {
    if l == 0 then 0 else 2 * (FirstCode(lengths, l - 1) + Used(lengths, l - 1))
  }

  /** The code of symbol n: consecutive values in symbol order for each length. */
  function CanonCode(lengths: seq<nat>, n: nat): nat
    requires n < |lengths|
  {
    FirstCode(lengths, lengths[n]) + CountLen(lengths[..n], lengths[n])
  }

  function Word(lengths: seq<nat>, n: nat): (r: BitString)
    requires n < |lengths|
    ensures |r| == lengths[n]
  {
    MsbBits(CanonCode(lengths, n), lengths[n])
  }

  function Words(lengths: seq<nat>): (r: seq<BitString>)
    ensures |r| == |lengths|
  {
    seq(|lengths|, n requires 0 <= n < |lengths| => Word(lengths, n))
  }

  /** The Kraft sum of the present symbols, in units of 2^-maxbitlen. */
  function KraftSum(lengths: seq<nat>, maxbitlen: nat): nat
    requires Bounded(lengths, maxbitlen)
  {
    if lengths == [] then 0
    else
      var x := lengths[|lengths| - 1];
      KraftSum(lengths[..|lengths| - 1], maxbitlen) + (if x == 0 then 0 else Pow2(maxbitlen - x))
  }

  predicate Bounded(lengths: seq<nat>, maxbitlen: nat)
  {
    forall n :: 0 <= n < |lengths| ==> lengths[n] <= maxbitlen
  }

  /** A complete code: at least two symbols, and the Kraft sum is exactly 1. */
  predicate Complete(lengths: seq<nat>, maxbitlen: nat)
  {
    && Bounded(lengths, maxbitlen)
    && maxbitlen > 0
    && KraftSum(lengths, maxbitlen) == Pow2(maxbitlen)
  }

  // ---------------------------------------------------------------- levels of the tree

  /** How many nodes of level l are words or lie below words. */
  function Filled(lengths: seq<nat>, l: nat): nat
  {
    FirstCode(lengths, l) + Used(lengths, l)
  }

  lemma {:induction false} FilledLast(lengths: seq<nat>, l: nat)
    requires lengths != []
    ensures var x := lengths[|lengths| - 1];
            Filled(lengths, l) == Filled(lengths[..|lengths| - 1], l) + (if 0 < x <= l then Pow2(l - x) else 0)
  {
    if l > 0 {
      FilledLast(lengths, l - 1);
    }
  }

  lemma {:induction false} FilledEmpty(l: nat)
    ensures Filled([], l) == 0
  {
    if l > 0 {
      FilledEmpty(l - 1);
    }
  }

  lemma {:induction false} KraftIsFilled(lengths: seq<nat>, maxbitlen: nat)
    requires Bounded(lengths, maxbitlen)
    ensures KraftSum(lengths, maxbitlen) == Filled(lengths, maxbitlen)
  {
    if lengths == [] {
      FilledEmpty(maxbitlen);
    } else {
      FilledLast(lengths, maxbitlen);
      KraftIsFilled(lengths[..|lengths| - 1], maxbitlen);
    }
  }

  lemma {:induction false} FilledGrows(lengths: seq<nat>, d: nat, l: nat)
    requires d <= l
    ensures Filled(lengths, l) >= Pow2(l - d) * Filled(lengths, d)
    ensures d < l ==> FirstCode(lengths, l) >= Pow2(l - d) * Filled(lengths, d)
  {
    if d < l {
      FilledGrows(lengths, d, l - 1);
      DoubleProduct(Pow2(l - 1 - d), Filled(lengths, d), Filled(lengths, l - 1));
      assert Pow2(l - d) == 2 * Pow2(l - 1 - d);
    }
  }

  lemma DoubleProduct(p: nat, f: nat, g: nat)
    requires p * f <= g
    ensures (2 * p) * f <= 2 * g
  {
  }

  lemma FilledFits(lengths: seq<nat>, maxbitlen: nat, l: nat)
    requires Complete(lengths, maxbitlen) && l <= maxbitlen
    ensures Filled(lengths, l) <= Pow2(l)
  {
    KraftIsFilled(lengths, maxbitlen);
    FilledGrows(lengths, l, maxbitlen);
    Pow2Add(maxbitlen - l, l);
    MulCancel(Pow2(maxbitlen - l), Filled(lengths, l), Pow2(l));
  }

  lemma MulCancel(k: nat, a: nat, b: nat)
    requires k > 0 && k * a <= k * b
    ensures a <= b
  {
    assert k * (a - b) == k * a - k * b;
    if a > b {
      MulAtLeast(k, a - b);
    }
  }

  // ---------------------------------------------------------------- the k-th symbol of a length

  function NthOfLen(lengths: seq<nat>, l: nat, k: nat): (r: nat)
    requires k < CountLen(lengths, l)
    ensures r < |lengths| && lengths[r] == l && CountLen(lengths[..r], l) == k
  {
    var front := lengths[..|lengths| - 1];
    if k < CountLen(front, l) then
      var r := NthOfLen(front, l, k);
      assert front[..r] == lengths[..r];
      r
    else |lengths| - 1
  }

  lemma {:induction false} CountMonotone(lengths: seq<nat>, l: nat, m: nat, n: nat)
    requires m <= n <= |lengths|
    ensures CountLen(lengths[..m], l) <= CountLen(lengths[..n], l)
    ensures m < n && lengths[m] == l ==> CountLen(lengths[..m], l) < CountLen(lengths[..n], l)
  {
    if m < n {
      assert lengths[..n][..n - 1] == lengths[..n - 1];
      CountMonotone(lengths, l, m, n - 1);
    }
  }

  lemma CodeFits(lengths: seq<nat>, n: nat)
    requires n < |lengths| && lengths[n] > 0
    ensures CanonCode(lengths, n) < Filled(lengths, lengths[n])
  {
    CountMonotone(lengths, lengths[n], n, |lengths|);
    assert lengths[..|lengths|] == lengths;
  }

  // ---------------------------------------------------------------- the two rules of section 3.2.2

  /** Codes of one length have consecutive values, in the order of their symbols. */
  lemma SameLengthInOrder(lengths: seq<nat>, m: nat, n: nat)
    requires m < n < |lengths| && lengths[m] == lengths[n]
    ensures CanonCode(lengths, m) < CanonCode(lengths, n)
    ensures (forall k :: m < k < n ==> lengths[k] != lengths[n]) ==> CanonCode(lengths, n) == CanonCode(lengths, m) + 1
  {
    var l := lengths[n];
    CountMonotone(lengths, l, m, n);
    if forall k :: m < k < n ==> lengths[k] != l {
      NoneBetween(lengths, l, m + 1, n);
      assert lengths[..m + 1][..m] == lengths[..m];
    }
  }

  lemma {:induction false} NoneBetween(lengths: seq<nat>, l: nat, m: nat, n: nat)
    requires m <= n <= |lengths| && forall k :: m <= k < n ==> lengths[k] != l
    ensures CountLen(lengths[..n], l) == CountLen(lengths[..m], l)
  {
    if m < n {
      assert lengths[..n][..n - 1] == lengths[..n - 1];
      NoneBetween(lengths, l, m, n - 1);
    }
  }

  /** Shorter codes come before longer ones: what begins with a shorter word comes before every longer word. */
  lemma ShorterFirst(lengths: seq<nat>, m: nat, n: nat)
    requires m < |lengths| && n < |lengths| && 0 < lengths[m] < lengths[n]
    ensures (CanonCode(lengths, m) + 1) * Pow2(lengths[n] - lengths[m]) <= CanonCode(lengths, n)
  {
    hide FirstCode, CountLen, Used, Pow2;
    var p := Pow2(lengths[n] - lengths[m]);
    CodeFits(lengths, m);
    FilledGrows(lengths, lengths[m], lengths[n]);
    MulMonotone(p, CanonCode(lengths, m) + 1, Filled(lengths, lengths[m]));
    assert (CanonCode(lengths, m) + 1) * p == p * (CanonCode(lengths, m) + 1);
  }

  // ---------------------------------------------------------------- the tree

  /** The subtree at value v of level d, given that no shorter word covers that node. */
  function Build(lengths: seq<nat>, maxbitlen: nat, d: nat, v: nat): Trie
    requires Filled(lengths, maxbitlen) == Pow2(maxbitlen)
    requires d <= maxbitlen && FirstCode(lengths, d) <= v < Pow2(d)
    decreases maxbitlen - d
  {
    if v < Filled(lengths, d) then Leaf(NthOfLen(lengths, d, v - FirstCode(lengths, d)))
    else Node(Build(lengths, maxbitlen, d + 1, 2 * v), Build(lengths, maxbitlen, d + 1, 2 * v + 1))
  }

  function CanonTrie(lengths: seq<nat>, maxbitlen: nat): Trie
    requires Complete(lengths, maxbitlen)
  {
    KraftIsFilled(lengths, maxbitlen);
    Build(lengths, maxbitlen, 0, 0)
  }

  /** Every present symbol's word leads to its leaf. */
  lemma {:induction false} WordLeadsToLeaf(lengths: seq<nat>, maxbitlen: nat, d: nat, v: nat, n: nat)
    requires Filled(lengths, maxbitlen) == Pow2(maxbitlen)
    requires d <= maxbitlen && FirstCode(lengths, d) <= v < Pow2(d)
    requires n < |lengths| && d <= lengths[n] <= maxbitlen && lengths[n] > 0
    requires v == CanonCode(lengths, n) / Pow2(lengths[n] - d)
    ensures Follow(Build(lengths, maxbitlen, d, v), MsbBits(CanonCode(lengths, n), lengths[n] - d)) == Some(Leaf(n))
    decreases maxbitlen - d
  {
    hide Build, FirstCode, CountLen, Used;
    var l, c := lengths[n], CanonCode(lengths, n);
    if d == l {
      WordEnds(lengths, maxbitlen, n);
      assert Pow2(0) == 1;
    } else {
      FilledGrows(lengths, d, l);
      QuotientAtLeast(c, Pow2(l - d), Filled(lengths, d));
      var b, v' := NextBit(c, l - d - 1);
      StepDown(lengths, maxbitlen, d, v, b, MsbBits(c, l - d - 1));
      WordLeadsToLeaf(lengths, maxbitlen, d + 1, v', n);
      assert MsbBits(c, l - d) == [b] + MsbBits(c, l - d - 1);
    }
  }

  lemma WordEnds(lengths: seq<nat>, maxbitlen: nat, n: nat)
    requires Filled(lengths, maxbitlen) == Pow2(maxbitlen)
    requires n < |lengths| && 0 < lengths[n] <= maxbitlen && CanonCode(lengths, n) < Pow2(lengths[n])
    ensures Build(lengths, maxbitlen, lengths[n], CanonCode(lengths, n)) == Leaf(n)
  {
    CodeFits(lengths, n);
    NthIsSymbol(lengths, n);
  }

  /** The node that a word passes on the next level. */
  lemma NextBit(c: nat, m: nat) returns (b: bool, v': nat)
    ensures b == (c / Pow2(m) % 2 == 1) && v' == c / Pow2(m)
    ensures v' == 2 * (c / Pow2(m + 1)) + (if b then 1 else 0)
    ensures MsbBits(c, m + 1) == [b] + MsbBits(c, m)
  {
    DivPow2Step(c, m);
    b, v' := c / Pow2(m) % 2 == 1, c / Pow2(m);
  }

  lemma StepDown(lengths: seq<nat>, maxbitlen: nat, d: nat, v: nat, b: bool, p: BitString)
    requires Filled(lengths, maxbitlen) == Pow2(maxbitlen)
    requires d <= maxbitlen && FirstCode(lengths, d) <= v < Pow2(d)
    requires v >= Filled(lengths, d)
    ensures d < maxbitlen
    ensures var v' := 2 * v + (if b then 1 else 0);
            && FirstCode(lengths, d + 1) <= v' < Pow2(d + 1)
            && Follow(Build(lengths, maxbitlen, d, v), [b] + p) == Follow(Build(lengths, maxbitlen, d + 1, v'), p)
  {
    assert ([b] + p)[1..] == p;
  }

  lemma NthIsSymbol(lengths: seq<nat>, n: nat)
    requires n < |lengths|
    ensures var k := CountLen(lengths[..n], lengths[n]);
            k < CountLen(lengths, lengths[n]) && NthOfLen(lengths, lengths[n], k) == n
  {
    var l := lengths[n];
    CountMonotone(lengths, l, n, |lengths|);
    assert lengths[..|lengths|] == lengths;
    var m := NthOfLen(lengths, l, CountLen(lengths[..n], l));
    if m < n {
      CountMonotone(lengths, l, m, n);
    } else if n < m {
      CountMonotone(lengths, l, n, m);
    }
  }

  lemma QuotientAtLeast(c: nat, p: nat, f: nat)
    requires p > 0 && c >= p * f
    ensures c / p >= f
  {
    assert p * (f - c / p) == p * f - p * (c / p);
    if c / p < f {
      MulAtLeast(p, f - c / p);
    }
  }

  /** Every leaf is the end of its symbol's word. */
  lemma {:induction false} LeafIsWord(lengths: seq<nat>, maxbitlen: nat, d: nat, v: nat, p: BitString)
    requires Filled(lengths, maxbitlen) == Pow2(maxbitlen)
    requires d <= maxbitlen && FirstCode(lengths, d) <= v < Pow2(d)
    requires Follow(Build(lengths, maxbitlen, d, v), p).Some?
    requires Follow(Build(lengths, maxbitlen, d, v), p).value.Leaf?
    ensures var n := Follow(Build(lengths, maxbitlen, d, v), p).value.sym;
            && n < |lengths| && lengths[n] == d + |p|
            && CanonCode(lengths, n) / Pow2(|p|) == v
            && MsbBits(CanonCode(lengths, n), |p|) == p
    decreases maxbitlen - d
  {
    hide FirstCode, CountLen, Used;
    if p == [] {
      assert Pow2(0) == 1;
    } else {
      NotLeafYet(lengths, maxbitlen, d, v, p);
      var v' := 2 * v + (if p[0] then 1 else 0);
      assert p == [p[0]] + p[1..];
      StepDown(lengths, maxbitlen, d, v, p[0], p[1..]);
      LeafIsWord(lengths, maxbitlen, d + 1, v', p[1..]);
      var n := Follow(Build(lengths, maxbitlen, d, v), p).value.sym;
      var b, w := NextBit(CanonCode(lengths, n), |p| - 1);
      assert w == v';
    }
  }

  /** The canonical words of a complete code are exactly the paths of its tree. */
  lemma CanonTrieOfWords(lengths: seq<nat>, maxbitlen: nat)
    requires Complete(lengths, maxbitlen)
    ensures IsTrieOf(CanonTrie(lengths, maxbitlen), Words(lengths))
  {
    KraftIsFilled(lengths, maxbitlen);
    var t := CanonTrie(lengths, maxbitlen);
    forall n | 0 <= n < |lengths| && Words(lengths)[n] != []
      ensures Follow(t, Words(lengths)[n]) == Some(Leaf(n))
    {
      CodeFits(lengths, n);
      FilledFits(lengths, maxbitlen, lengths[n]);
      SmallQuotient(CanonCode(lengths, n), Pow2(lengths[n]));
      WordLeadsToLeaf(lengths, maxbitlen, 0, 0, n);
    }
    forall p | Follow(t, p).Some? && Follow(t, p).value.Leaf?
      ensures var s := Follow(t, p).value.sym; s < |lengths| && Words(lengths)[s] == p
    {
      LeafIsWord(lengths, maxbitlen, 0, 0, p);
    }
  }

  lemma NotLeafYet(lengths: seq<nat>, maxbitlen: nat, d: nat, v: nat, p: BitString)
    requires Filled(lengths, maxbitlen) == Pow2(maxbitlen)
    requires d <= maxbitlen && FirstCode(lengths, d) <= v < Pow2(d)
    requires p != [] && Follow(Build(lengths, maxbitlen, d, v), p).Some?
    ensures v >= Filled(lengths, d)
  {
  }

  lemma SmallQuotient(c: nat, p: nat)
    requires c < p
    ensures c / p == 0
  {
  }

  /** Zero lengths at the end change neither the words nor completeness. */
  lemma {:induction false} PadLengths(lengths: seq<nat>, maxbitlen: nat, k: nat)
    requires Complete(lengths, maxbitlen)
    ensures var longer := lengths + seq(k, _ => 0);
            && Complete(longer, maxbitlen)
            && CanonTrie(longer, maxbitlen) == CanonTrie(lengths, maxbitlen)
  {
    if k == 0 {
      assert lengths + seq(0, _ => 0) == lengths;
    } else {
      var shorter := lengths + seq(k - 1, _ => 0);
      var longer := lengths + seq(k, _ => 0);
      PadLengths(lengths, maxbitlen, k - 1);
      assert longer[..|longer| - 1] == shorter;
      KraftIsFilled(shorter, maxbitlen);
      KraftIsFilled(longer, maxbitlen);
      PadBuild(shorter, longer, maxbitlen, 0, 0);
    }
  }

  lemma {:induction false} PadLevel(shorter: seq<nat>, longer: seq<nat>, l: nat)
    requires longer == shorter + [0]
    ensures FirstCode(longer, l) == FirstCode(shorter, l) && Used(longer, l) == Used(shorter, l)
  {
    assert longer[..|longer| - 1] == shorter;
    if l > 0 {
      PadLevel(shorter, longer, l - 1);
    }
  }

  lemma PadFilled(shorter: seq<nat>, longer: seq<nat>, l: nat)
    requires longer == shorter + [0]
    ensures Filled(longer, l) == Filled(shorter, l)
  {
    PadLevel(shorter, longer, l);
  }

  lemma PadNth(shorter: seq<nat>, longer: seq<nat>, l: nat, k: nat)
    requires longer == shorter + [0]
    requires l > 0 && k < CountLen(shorter, l)
    ensures k < CountLen(longer, l) && NthOfLen(longer, l, k) == NthOfLen(shorter, l, k)
  {
    assert longer[..|longer| - 1] == shorter;
  }

  lemma {:induction false} PadBuild(shorter: seq<nat>, longer: seq<nat>, maxbitlen: nat, d: nat, v: nat)
    requires longer == shorter + [0]
    requires Filled(shorter, maxbitlen) == Pow2(maxbitlen) == Filled(longer, maxbitlen)
    requires d <= maxbitlen && FirstCode(shorter, d) <= v < Pow2(d)
    ensures FirstCode(longer, d) <= v
    ensures Build(longer, maxbitlen, d, v) == Build(shorter, maxbitlen, d, v)
    decreases maxbitlen - d
  {
    PadLevel(shorter, longer, d);
    PadFilled(shorter, longer, d);
    hide Build, FirstCode, Filled, Pow2;
    if v < Filled(shorter, d) {
      PadLeaf(shorter, longer, maxbitlen, d, v);
    } else {
      BuildNode(shorter, maxbitlen, d, v);
      BuildNode(longer, maxbitlen, d, v);
      PadBuild(shorter, longer, maxbitlen, d + 1, 2 * v);
      PadBuild(shorter, longer, maxbitlen, d + 1, 2 * v + 1);
    }
  }

  lemma PadLeaf(shorter: seq<nat>, longer: seq<nat>, maxbitlen: nat, d: nat, v: nat)
    requires longer == shorter + [0]
    requires Filled(shorter, maxbitlen) == Pow2(maxbitlen) == Filled(longer, maxbitlen)
    requires d <= maxbitlen && FirstCode(shorter, d) == FirstCode(longer, d) <= v < Pow2(d)
    requires v < Filled(shorter, d) == Filled(longer, d)
    ensures Build(longer, maxbitlen, d, v) == Build(shorter, maxbitlen, d, v)
  {
    PadNth(shorter, longer, d, v - FirstCode(shorter, d));
  }

  lemma BuildNode(lengths: seq<nat>, maxbitlen: nat, d: nat, v: nat)
    requires Filled(lengths, maxbitlen) == Pow2(maxbitlen)
    requires d <= maxbitlen && FirstCode(lengths, d) <= v < Pow2(d) && v >= Filled(lengths, d)
    ensures d < maxbitlen && FirstCode(lengths, d + 1) <= 2 * v && 2 * v + 1 < Pow2(d + 1)
    ensures Build(lengths, maxbitlen, d, v)
         == Node(Build(lengths, maxbitlen, d + 1, 2 * v), Build(lengths, maxbitlen, d + 1, 2 * v + 1))
  {
  }
}

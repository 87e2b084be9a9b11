/** The decoder's two-row table of a Huffman tree, and its construction from the symbols' words. */
module HuffmanTable {
  import opened Powers
  import opened Bits
  import opened Tries
  import opened Options

  /** The mark of a table entry that is not filled yet. */
  const UNFILLED: nat := 32767

  function Index(b: bool): nat {
    if b then 1 else 0
  }

  // ---------------------------------------------------------------- what the table means

  /** Node k of the table, with everything below it, is the tree t. */
  ghost predicate Represents(s: seq<nat>, numcodes: nat, k: nat, t: Trie)
    decreases t, 0
  {
    && t.Node?
    && k < numcodes
    && |s| == 2 * numcodes
    && EntryIs(s, numcodes, s[2 * k], t.zero)
    && EntryIs(s, numcodes, s[2 * k + 1], t.one)
  }

  ghost predicate EntryIs(s: seq<nat>, numcodes: nat, e: nat, t: Trie)
    decreases t, 1
  {
    match t
    case Leaf(sym) => e == sym < numcodes
    case Node(_, _) => numcodes <= e && Represents(s, numcodes, e - numcodes, t)
  }

  lemma {:induction false} RepresentsFrame(s: seq<nat>, s': seq<nat>, numcodes: nat, k: nat, t: Trie)
    requires Represents(s, numcodes, k, t) && |s| == |s'| && 2 * numcodes <= UNFILLED
    requires forall i :: 0 <= i < |s| && s[i] != UNFILLED ==> s'[i] == s[i]
    ensures Represents(s', numcodes, k, t)
    decreases t, 0
  {
    EntryFrame(s, s', numcodes, s[2 * k], t.zero);
    EntryFrame(s, s', numcodes, s[2 * k + 1], t.one);
  }

  lemma {:induction false} EntryFrame(s: seq<nat>, s': seq<nat>, numcodes: nat, e: nat, t: Trie)
    requires EntryIs(s, numcodes, e, t) && |s| == |s'| && 2 * numcodes <= UNFILLED
    requires forall i :: 0 <= i < |s| && s[i] != UNFILLED ==> s'[i] == s[i]
    ensures EntryIs(s', numcodes, e, t) && e != UNFILLED
    decreases t, 1
  {
    if t.Node? {
      RepresentsFrame(s, s', numcodes, e - numcodes, t);
    }
  }

  // ---------------------------------------------------------------- the table while it is filled

  /** What entry b of node k may hold after the words of the symbols below n are in the table. */
  ghost predicate EntryOk(s: seq<nat>, numcodes: nat, paths: seq<BitString>, t: Trie, n: nat, k: nat, b: bool)
    requires |s| == 2 * numcodes && k < numcodes && k < |paths|
  {
    var e := s[2 * k + Index(b)];
    || e == UNFILLED
    || (e < numcodes && e < n && Follow(t, paths[k] + [b]) == Some(Leaf(e)))
    || (numcodes < e < numcodes + |paths| && paths[e - numcodes] == paths[k] + [b])
  }

  /** paths[k] is the position of node k in t; parents[k] is the node above it. */
  ghost predicate Linked(s: seq<nat>, numcodes: nat, paths: seq<BitString>, parents: seq<nat>, t: Trie, n: nat)
  {
    && |s| == 2 * numcodes <= UNFILLED
    && 1 <= |paths| == |parents| < numcodes
    && Positions(paths, t)
    && Entries(s, numcodes, paths, t, n)
    && (forall i :: 2 * |paths| <= i < |s| ==> s[i] == UNFILLED)
    && Parents(s, numcodes, paths, parents)
  }

  ghost predicate Parents(s: seq<nat>, numcodes: nat, paths: seq<BitString>, parents: seq<nat>)
    requires |s| == 2 * numcodes && |paths| == |parents| < numcodes
  {
    forall k :: 1 <= k < |paths| ==> ParentOk(s, numcodes, paths, parents, k)
  }

  ghost predicate Positions(paths: seq<BitString>, t: Trie)
  {
    && 1 <= |paths|
    && paths[0] == []
    && (forall i, j :: 0 <= i < j < |paths| ==> paths[i] != paths[j])
    && (forall k :: 0 <= k < |paths| ==> Follow(t, paths[k]).Some? && Follow(t, paths[k]).value.Node?)
  }

  ghost predicate Entries(s: seq<nat>, numcodes: nat, paths: seq<BitString>, t: Trie, n: nat)
    requires |s| == 2 * numcodes && |paths| < numcodes
  {
    forall k, b :: 0 <= k < |paths| ==> EntryOk(s, numcodes, paths, t, n, k, b)
  }

  ghost predicate ParentOk(s: seq<nat>, numcodes: nat, paths: seq<BitString>, parents: seq<nat>, k: nat)
    requires |s| == 2 * numcodes && |paths| == |parents| < numcodes && k < |paths|
  {
    && parents[k] < k
    && paths[k] != []
    && var b := paths[k][|paths[k]| - 1];
    && paths[k] == paths[parents[k]] + [b]
    && s[2 * parents[k] + Index(b)] == numcodes + k
  }

  /** The word w is in the table: every node on its way has the entry that leads on. */
  ghost predicate Inserted(s: seq<nat>, paths: seq<BitString>, w: BitString)
    requires 2 * |paths| <= |s|
  {
    forall k :: 0 <= k < |paths| && paths[k] < w ==> s[2 * k + Index(w[|paths[k]|])] != UNFILLED
  }

  lemma {:induction false} DistinctBound(paths: seq<BitString>, all: set<BitString>)
    requires forall i, j :: 0 <= i < j < |paths| ==> paths[i] != paths[j]
    requires forall k :: 0 <= k < |paths| ==> paths[k] in all
    ensures |paths| <= |all|
  {
    if paths != [] {
      var l := |paths| - 1;
      DistinctBound(paths[..l], all - {paths[l]});
      assert all == (all - {paths[l]}) + {paths[l]};
    }
  }

  /** There is room for every node that the tree has. */
  lemma RoomForNode(numcodes: nat, paths: seq<BitString>, t: Trie, codes: seq<BitString>, q: BitString)
    requires IsTrieOf(t, codes) && |codes| == numcodes
    requires forall i, j :: 0 <= i < j < |paths| ==> paths[i] != paths[j]
    requires forall k :: 0 <= k < |paths| ==> Follow(t, paths[k]).Some? && Follow(t, paths[k]).value.Node?
    requires q !in paths && Follow(t, q).Some? && Follow(t, q).value.Node?
    ensures |paths| + 1 < numcodes
  {
    var all := paths + [q];
    forall k | 0 <= k < |all|
      ensures all[k] in InternalPaths(t)
    {
      InternalPathsAre(t, all[k]);
    }
    DistinctBound(all, InternalPaths(t));
    InternalBound(t, codes);
  }

  /** A proper prefix of a word ends at an internal node. */
  lemma PrefixIsInternal(t: Trie, w: BitString, n: nat, i: nat)
    requires Follow(t, w) == Some(Leaf(n)) && i < |w|
    ensures Follow(t, w[..i]).Some? && Follow(t, w[..i]).value.Node?
  {
    assert w == w[..i] + w[i..];
    FollowAppend(t, w[..i], w[i..]);
  }

  /** A filled entry on the way of a new word is the address of the next node on that way. */
  lemma FilledLeadsOn(s: seq<nat>, numcodes: nat, paths: seq<BitString>, parents: seq<nat>, t: Trie, n: nat,
                      w: BitString, k: nat, i: nat)
    requires Linked(s, numcodes, paths, parents, t, n)
    requires Follow(t, w) == Some(Leaf(n)) && i < |w|
    requires k < |paths| && paths[k] == w[..i] && s[2 * k + Index(w[i])] != UNFILLED
    ensures i + 1 < |w|
    ensures var e := s[2 * k + Index(w[i])];
            numcodes < e < numcodes + |paths| && paths[e - numcodes] == w[..i + 1]
  {
    FilledEntry(s, numcodes, paths, parents, t, n, w, k, i);
    hide Linked, Follow;
    assert w[..|w|] == w;
    if i + 1 < |w| {
      PrefixIsInternal(t, w, n, i + 1);
    }
  }

  /** A filled entry is the leaf or the node at the position below it. */
  lemma FilledEntry(s: seq<nat>, numcodes: nat, paths: seq<BitString>, parents: seq<nat>, t: Trie, n: nat,
                    w: BitString, k: nat, i: nat)
    requires Linked(s, numcodes, paths, parents, t, n)
    requires i < |w| && k < |paths| && paths[k] == w[..i] && s[2 * k + Index(w[i])] != UNFILLED
    ensures var e, q := s[2 * k + Index(w[i])], w[..i + 1];
            || (e < n && Follow(t, q) == Some(Leaf(e)))
            || (numcodes < e < numcodes + |paths| && paths[e - numcodes] == q
                && Follow(t, q).Some? && Follow(t, q).value.Node?)
  {
    assert paths[k] + [w[i]] == w[..i + 1];
    assert EntryOk(s, numcodes, paths, t, n, k, w[i]);
    hide Entries, Parents, Follow;
  }

  lemma PlaceLeaf(s: seq<nat>, numcodes: nat, paths: seq<BitString>, parents: seq<nat>, t: Trie, n: nat,
                  w: BitString, k: nat)
    requires Linked(s, numcodes, paths, parents, t, n) && n < numcodes
    requires w != [] && Follow(t, w) == Some(Leaf(n))
    requires k < |paths| && paths[k] == w[..|w| - 1] && s[2 * k + Index(w[|w| - 1])] == UNFILLED
    ensures Linked(s[2 * k + Index(w[|w| - 1]) := n], numcodes, paths, parents, t, n + 1)
  {
    var b := w[|w| - 1];
    assert w == paths[k] + [b];
    LeafEntries(s, numcodes, paths, t, n, k, b);
    ParentsKeep(s, s[2 * k + Index(b) := n], numcodes, paths, parents);
  }

  lemma LeafEntries(s: seq<nat>, numcodes: nat, paths: seq<BitString>, t: Trie, n: nat, k: nat, b: bool)
    requires |s| == 2 * numcodes <= UNFILLED && |paths| < numcodes && n < numcodes
    requires Entries(s, numcodes, paths, t, n)
    requires k < |paths| && s[2 * k + Index(b)] == UNFILLED
    requires Follow(t, paths[k] + [b]) == Some(Leaf(n))
    ensures Entries(s[2 * k + Index(b) := n], numcodes, paths, t, n + 1)
  {
    var s' := s[2 * k + Index(b) := n];
    forall k', b' {:trigger EntryOk(s', numcodes, paths, t, n + 1, k', b')} | 0 <= k' < |paths|
      ensures EntryOk(s', numcodes, paths, t, n + 1, k', b')
    {
      assert EntryOk(s, numcodes, paths, t, n, k', b');
      SameEntry(k, b, k', b');
    }
  }

  lemma ParentsKeep(s: seq<nat>, s': seq<nat>, numcodes: nat, paths: seq<BitString>, parents: seq<nat>)
    requires |s| == |s'| == 2 * numcodes <= UNFILLED && |paths| == |parents| < numcodes
    requires Parents(s, numcodes, paths, parents)
    requires forall i :: 0 <= i < |s| && s[i] != UNFILLED ==> s'[i] == s[i]
    ensures Parents(s', numcodes, paths, parents)
  {
    forall k | 1 <= k < |paths|
      ensures ParentOk(s', numcodes, paths, parents, k)
    {
      assert ParentOk(s, numcodes, paths, parents, k);
    }
  }

  lemma ParentUnique(p: BitString, c: BitString, p': BitString, b': bool)
    requires c != [] && c == p + [c[|c| - 1]]
    ensures c == p' + [b'] ==> p == p' && c[|c| - 1] == b'
  {
    assert c[..|c| - 1] == p;
    assert (p' + [b'])[..|p'|] == p';
  }

  lemma SameEntry(k: nat, b: bool, k': nat, b': bool)
    ensures 2 * k + Index(b) == 2 * k' + Index(b') <==> k == k' && b == b'
  {
  }

  lemma PlaceNode(s: seq<nat>, numcodes: nat, paths: seq<BitString>, parents: seq<nat>, t: Trie, n: nat,
                  codes: seq<BitString>, k: nat, b: bool)
    requires Linked(s, numcodes, paths, parents, t, n)
    requires IsTrieOf(t, codes) && |codes| == numcodes
    requires k < |paths| && s[2 * k + Index(b)] == UNFILLED
    requires var q := paths[k] + [b]; Follow(t, q).Some? && Follow(t, q).value.Node?
    ensures paths[k] + [b] !in paths
    ensures Linked(s[2 * k + Index(b) := numcodes + |paths|], numcodes, paths + [paths[k] + [b]],
                   parents + [k], t, n)
  {
    var q := paths[k] + [b];
    forall j | 0 <= j < |paths|
      ensures paths[j] != q
    {
      if j > 0 {
        assert ParentOk(s, numcodes, paths, parents, j);
        ParentUnique(paths[parents[j]], paths[j], paths[k], b);
      }
    }
    RoomForNode(numcodes, paths, t, codes, q);
    var s' := s[2 * k + Index(b) := numcodes + |paths|];
    NewEntries(s, numcodes, paths, t, n, k, b);
    ParentsKeep(s, s', numcodes, paths, parents);
    NewParents(s', numcodes, paths, parents, k, b);
  }

  lemma NewEntries(s: seq<nat>, numcodes: nat, paths: seq<BitString>, t: Trie, n: nat, k: nat, b: bool)
    requires |s| == 2 * numcodes <= UNFILLED && |paths| + 1 < numcodes
    requires Entries(s, numcodes, paths, t, n)
    requires forall i :: 2 * |paths| <= i < |s| ==> s[i] == UNFILLED
    requires k < |paths| && s[2 * k + Index(b)] == UNFILLED
    ensures Entries(s[2 * k + Index(b) := numcodes + |paths|], numcodes, paths + [paths[k] + [b]], t, n)
  {
    var s', paths' := s[2 * k + Index(b) := numcodes + |paths|], paths + [paths[k] + [b]];
    forall k', b' {:trigger EntryOk(s', numcodes, paths', t, n, k', b')} | 0 <= k' < |paths'|
      ensures EntryOk(s', numcodes, paths', t, n, k', b')
    {
      SameEntry(k, b, k', b');
      if k' < |paths| {
        assert EntryOk(s, numcodes, paths, t, n, k', b');
      }
    }
  }

  lemma NewParents(s: seq<nat>, numcodes: nat, paths: seq<BitString>, parents: seq<nat>, k: nat, b: bool)
    requires |s| == 2 * numcodes <= UNFILLED && 1 <= |paths| == |parents| < numcodes - 1
    requires Parents(s, numcodes, paths, parents)
    requires k < |paths| && s[2 * k + Index(b)] == numcodes + |paths|
    ensures Parents(s, numcodes, paths + [paths[k] + [b]], parents + [k])
  {
    forall j | 1 <= j < |paths| + 1
      ensures ParentOk(s, numcodes, paths + [paths[k] + [b]], parents + [k], j)
    {
      if j < |paths| {
        assert ParentOk(s, numcodes, paths, parents, j);
      }
    }
  }

  /** A new node is not on the way of a word that is already in the table. */
  lemma InsertedKeeps(s: seq<nat>, numcodes: nat, paths: seq<BitString>, parents: seq<nat>, t: Trie, n: nat,
                      w: BitString, k: nat, b: bool)
    requires Linked(s, numcodes, paths, parents, t, n)
    requires Inserted(s, paths, w)
    requires k < |paths| && s[2 * k + Index(b)] == UNFILLED && |paths| + 1 < numcodes
    ensures Inserted(s[2 * k + Index(b) := numcodes + |paths|], paths + [paths[k] + [b]], w)
  {
    var q := paths[k] + [b];
    var s' := s[2 * k + Index(b) := numcodes + |paths|];
    forall j | 0 <= j < |paths| + 1 && (paths + [q])[j] < w
      ensures s'[2 * j + Index(w[|(paths + [q])[j]|])] != UNFILLED
    {
      if j == |paths| {
        PrefixStep(paths[k], b, w);
      }
    }
  }

  lemma PrefixStep(p: BitString, b: bool, w: BitString)
    requires p + [b] <= w
    ensures p < w && w[|p|] == b
  {
    assert w[..|p|] == (p + [b])[..|p|] == p;
    assert w[|p|] == (p + [b])[|p|];
  }

  /** Some word goes on from a node in a given direction. */
  lemma WordThrough(t: Trie, codes: seq<BitString>, path: BitString, u: Trie, b: bool) returns (m: nat)
    requires IsTrieOf(t, codes) && Follow(t, path) == Some(u) && u.Node?
    ensures Follow(t, path + [b]) == Some(Child(u, b))
    ensures m < |codes| && path < codes[m] && codes[m][|path|] == b
  {
    var q := path + [b];
    FollowAppend(t, path, [b]);
    assert Follow(u, [b]) == Some(Child(u, b));
    var tail;
    tail, m := SomeLeaf(Child(u, b));
    FollowAppend(t, q, tail);
    assert codes[m] == q + tail;
  }

  /** When every word is in, the table represents the tree. */
  lemma {:induction false} AllInserted(s: seq<nat>, numcodes: nat, paths: seq<BitString>, parents: seq<nat>, t: Trie,
                                       codes: seq<BitString>, k: nat, u: Trie)
    requires Linked(s, numcodes, paths, parents, t, numcodes)
    requires IsTrieOf(t, codes) && |codes| == numcodes
    requires forall m :: 0 <= m < numcodes && codes[m] != [] ==> Inserted(s, paths, codes[m])
    requires k < |paths| && Follow(t, paths[k]) == Some(u)
    ensures Represents(s, numcodes, k, u)
    decreases u
  {
    forall b: bool
      ensures EntryIs(s, numcodes, s[2 * k + Index(b)], Child(u, b))
    {
      var m := WordThrough(t, codes, paths[k], u, b);
      assert EntryOk(s, numcodes, paths, t, numcodes, k, b);
      if Child(u, b).Node? {
        AllInserted(s, numcodes, paths, parents, t, codes, s[2 * k + Index(b)] - numcodes, Child(u, b));
      }
    }
    assert EntryIs(s, numcodes, s[2 * k + Index(false)], u.zero);
    assert EntryIs(s, numcodes, s[2 * k + Index(true)], u.one);
  }

  lemma {:induction false} SomeLeaf(t: Trie) returns (p: BitString, n: nat)
    ensures Follow(t, p) == Some(Leaf(n))
  {
    match t
    case Leaf(s) => p, n := [], s;
    case Node(l, r) =>
      p, n := SomeLeaf(l);
      assert ([false] + p)[1..] == p;
      p := [false] + p;
  }

  // ---------------------------------------------------------------- steps of the fill loop

  /** The words of the symbols below n are in the table. */
  ghost predicate Table(s: seq<nat>, paths: seq<BitString>, parents: seq<nat>, t: Trie, codes: seq<BitString>, n: nat)
  {
    && IsTrieOf(t, codes)
    && n <= |codes|
    && Linked(s, |codes|, paths, parents, t, n)
    && forall m :: 0 <= m < n && codes[m] != [] ==> Inserted(s, paths, codes[m])
  }

  /** The first i bits of the word of symbol n are in the table too, and lead to node k. */
  ghost predicate Midway(s: seq<nat>, paths: seq<BitString>, parents: seq<nat>, t: Trie, codes: seq<BitString>,
                         n: nat, i: nat, k: nat)
  {
    && Table(s, paths, parents, t, codes, n)
    && n < |codes|
    && i < |codes[n]|
    && k < |paths|
    && paths[k] == codes[n][..i]
    && InsertedTo(s, paths, codes[n], i)
  }

  ghost predicate InsertedTo(s: seq<nat>, paths: seq<BitString>, w: BitString, i: nat)
    requires 2 * |paths| <= |s|
  {
    forall k :: 0 <= k < |paths| && paths[k] < w && |paths[k]| < i ==> s[2 * k + Index(w[|paths[k]|])] != UNFILLED
  }

  lemma StartSymbol(s: seq<nat>, paths: seq<BitString>, parents: seq<nat>, t: Trie, codes: seq<BitString>, n: nat)
    requires Table(s, paths, parents, t, codes, n) && n < |codes|
    ensures codes[n] == [] ==> Table(s, paths, parents, t, codes, n + 1)
    ensures codes[n] != [] ==> Midway(s, paths, parents, t, codes, n, 0, 0)
  {
    if codes[n] == [] {
      forall k, b {:trigger EntryOk(s, |codes|, paths, t, n + 1, k, b)} | 0 <= k < |paths|
        ensures EntryOk(s, |codes|, paths, t, n + 1, k, b)
      {
        assert EntryOk(s, |codes|, paths, t, n, k, b);
      }
    }
  }

  /** Node k is the only one at its position. */
  lemma InsertedOneMore(s: seq<nat>, paths: seq<BitString>, t: Trie, w: BitString, i: nat, k: nat)
    requires Positions(paths, t) && 2 * |paths| <= |s|
    requires InsertedTo(s, paths, w, i) && i < |w|
    requires k < |paths| && paths[k] == w[..i] && s[2 * k + Index(w[i])] != UNFILLED
    ensures InsertedTo(s, paths, w, i + 1)
  {
    forall j | 0 <= j < |paths| && paths[j] < w && |paths[j]| < i + 1
      ensures s[2 * j + Index(w[|paths[j]|])] != UNFILLED
    {
      if |paths[j]| == i {
        assert paths[j] == w[..i];
        assert j == k;
      }
    }
  }

  lemma StepFollow(s: seq<nat>, paths: seq<BitString>, parents: seq<nat>, t: Trie, codes: seq<BitString>,
                   n: nat, i: nat, k: nat)
    requires Midway(s, paths, parents, t, codes, n, i, k)
    requires s[2 * k + Index(codes[n][i])] != UNFILLED
    ensures s[2 * k + Index(codes[n][i])] > |codes|
    ensures Midway(s, paths, parents, t, codes, n, i + 1, s[2 * k + Index(codes[n][i])] - |codes|)
  {
    FilledLeadsOn(s, |codes|, paths, parents, t, n, codes[n], k, i);
    InsertedOneMore(s, paths, t, codes[n], i, k);
  }

  lemma StepLeaf(s: seq<nat>, paths: seq<BitString>, parents: seq<nat>, t: Trie, codes: seq<BitString>,
                 n: nat, i: nat, k: nat)
    requires Midway(s, paths, parents, t, codes, n, i, k) && i + 1 == |codes[n]|
    requires s[2 * k + Index(codes[n][i])] == UNFILLED
    ensures Table(s[2 * k + Index(codes[n][i]) := n], paths, parents, t, codes, n + 1)
  {
    var w := codes[n];
    var s' := s[2 * k + Index(w[i]) := n];
    PlaceLeaf(s, |codes|, paths, parents, t, n, w, k);
    InsertedOneMore(s', paths, t, w, i, k);
    forall m | 0 <= m < n + 1 && codes[m] != []
      ensures Inserted(s', paths, codes[m])
    {
      if m < n {
        assert Inserted(s, paths, codes[m]);
      }
    }
  }

  lemma StepNode(s: seq<nat>, paths: seq<BitString>, parents: seq<nat>, t: Trie, codes: seq<BitString>,
                 n: nat, i: nat, k: nat)
    requires Midway(s, paths, parents, t, codes, n, i, k) && i + 1 < |codes[n]|
    requires s[2 * k + Index(codes[n][i])] == UNFILLED
    ensures Midway(s[2 * k + Index(codes[n][i]) := |codes| + |paths|], paths + [codes[n][..i + 1]], parents + [k],
                   t, codes, n, i + 1, |paths|)
  {
    var w, q := codes[n], codes[n][..i + 1];
    var s' := s[2 * k + Index(w[i]) := |codes| + |paths|];
    assert q == paths[k] + [w[i]];
    PrefixIsInternal(t, w, n, i + 1);
    PlaceNode(s, |codes|, paths, parents, t, n, codes, k, w[i]);
    EarlierKeep(s, paths, parents, t, codes, n, k, w[i]);
    NewNodeInserted(s, paths, w, i, k, |codes|);
    InsertedOneMore(s', paths + [q], t, w, i, k);
  }

  lemma EarlierKeep(s: seq<nat>, paths: seq<BitString>, parents: seq<nat>, t: Trie, codes: seq<BitString>, n: nat,
                    k: nat, b: bool)
    requires Table(s, paths, parents, t, codes, n) && |paths| + 1 < |codes|
    requires k < |paths| && s[2 * k + Index(b)] == UNFILLED
    ensures forall m :: 0 <= m < n && codes[m] != [] ==>
              Inserted(s[2 * k + Index(b) := |codes| + |paths|], paths + [paths[k] + [b]], codes[m])
  {
    forall m | 0 <= m < n && codes[m] != []
      ensures Inserted(s[2 * k + Index(b) := |codes| + |paths|], paths + [paths[k] + [b]], codes[m])
    {
      InsertedKeeps(s, |codes|, paths, parents, t, n, codes[m], k, b);
    }
  }

  lemma NewNodeInserted(s: seq<nat>, paths: seq<BitString>, w: BitString, i: nat, k: nat, numcodes: nat)
    requires 2 * |paths| + 2 <= |s| && i + 1 < |w| && k < |paths|
    requires InsertedTo(s, paths, w, i) && s[2 * k + Index(w[i])] == UNFILLED
    requires numcodes + |paths| < UNFILLED
    ensures InsertedTo(s[2 * k + Index(w[i]) := numcodes + |paths|], paths + [w[..i + 1]], w, i)
  {
  }

  /** One turn of the inner loop: s' is the table after the word's bit i was handled at node k. */
  lemma Step(s: seq<nat>, s': seq<nat>, paths: seq<BitString>, parents: seq<nat>, t: Trie, codes: seq<BitString>,
             n: nat, i: nat, k: nat) returns (paths': seq<BitString>, parents': seq<nat>)
    requires Midway(s, paths, parents, t, codes, n, i, k)
    requires var at := 2 * k + Index(codes[n][i]); var empty := at < |s| && s[at] == UNFILLED;
             if !empty then s' == s
             else if i + 1 == |codes[n]| then s' == s[at := n]
             else s' == s[at := |codes| + |paths|]
    ensures var at := 2 * k + Index(codes[n][i]); var empty := at < |s| && s[at] == UNFILLED;
            if empty && i + 1 == |codes[n]| then Table(s', paths', parents', t, codes, n + 1) && |paths'| == |paths|
            else if empty then
              Midway(s', paths', parents', t, codes, n, i + 1, |paths|) && |paths'| == |paths| + 1
            else
              && at < |s| && s[at] > |codes| && |paths'| == |paths|
              && Midway(s', paths', parents', t, codes, n, i + 1, s[at] - |codes|)
  {
    paths', parents' := paths, parents;
    if s[2 * k + Index(codes[n][i])] != UNFILLED {
      StepFollow(s, paths, parents, t, codes, n, i, k);
    } else if i + 1 == |codes[n]| {
      StepLeaf(s, paths, parents, t, codes, n, i, k);
    } else {
      StepNode(s, paths, parents, t, codes, n, i, k);
      paths', parents' := paths + [codes[n][..i + 1]], parents + [k];
    }
  }

  // ---------------------------------------------------------------- construction

  ghost function WordsOf(tree1d: seq<nat>, lengths: seq<nat>): (r: seq<BitString>)
    requires |tree1d| == |lengths|
    ensures |r| == |lengths|
  {
    seq(|lengths|, n requires 0 <= n < |lengths| => MsbBits(tree1d[n], lengths[n]))
  }

  lemma EmptyTable(s: seq<nat>, t: Trie, codes: seq<BitString>)
    requires IsTrieOf(t, codes)
    requires |s| == 2 * |codes| <= UNFILLED && forall i :: 0 <= i < |s| ==> s[i] == UNFILLED
    ensures Table(s, [[]], [0], t, codes, 0)
  {
    InternalBound(t, codes);
    InternalPathsAre(t, []);
    assert |InternalPaths(t)| > 0;
  }

  lemma MidwaySizes(s: seq<nat>, paths: seq<BitString>, parents: seq<nat>, t: Trie, codes: seq<BitString>,
                    n: nat, i: nat, k: nat)
    requires Midway(s, paths, parents, t, codes, n, i, k)
    ensures |s| == 2 * |codes| && k < |paths| < |codes| && n < |codes| && i < |codes[n]|
  {
    LinkedSizes(s, |codes|, paths, parents, t, n);
  }

  lemma LinkedSizes(s: seq<nat>, numcodes: nat, paths: seq<BitString>, parents: seq<nat>, t: Trie, n: nat)
    requires Linked(s, numcodes, paths, parents, t, n)
    ensures |s| == 2 * numcodes && |paths| < numcodes
  {
  }

  /** Unsigned 32-bit subtraction. */
  function Sub32(a: nat, b: nat): nat
    requires b < 0x1_0000_0000
  {
    (a + 0x1_0000_0000 - b) % 0x1_0000_0000
  }

  /**
   * Fills the decoder's table. The value 55 reports that the words need more nodes than there are.
   * t is the tree that the words denote, when they form a complete prefix code.
   */
  method Make2DTree(tree1d: seq<nat>, lengths: seq<nat>, ghost t: Trie) returns (error: nat, result: seq<nat>)
    requires |tree1d| == |lengths| && 2 <= |lengths| && 2 * |lengths| <= UNFILLED
    ensures error in {0, 55} && |result| == 2 * |lengths|
    ensures IsTrieOf(t, WordsOf(tree1d, lengths)) ==> error == 0 && Represents(result, |lengths|, 0, t)
  {
    hide Linked, InsertedTo, Inserted, IsTrieOf, Represents, EntryIs, Midway, Table;
    var numcodes := |lengths|;
    var tree2d := new nat[numcodes * 2](_ => UNFILLED);
    var nodefilled: nat, treepos: nat := 0, 0;
    ghost var codes := WordsOf(tree1d, lengths);
    assert forall n :: 0 <= n < |lengths| ==> codes[n] == MsbBits(tree1d[n], lengths[n]);
    hide WordsOf, MsbBits;
    ghost var good := IsTrieOf(t, codes);
    ghost var paths: seq<BitString>, parents: seq<nat> := [[]], [0];
    if good {
      EmptyTable(tree2d[..], t, codes);
    }
    for n := 0 to numcodes
      invariant good ==> Table(tree2d[..], paths, parents, t, codes, n)
      invariant good ==> nodefilled == |paths| - 1 && treepos == 0
    {
      error, treepos, nodefilled, paths, parents :=
        AddWord(tree2d, numcodes, n, tree1d[n], lengths[n], treepos, nodefilled, good, t, codes, paths, parents);
      if error != 0 {
        return error, tree2d[..];
      }
    }
    ghost var s := tree2d[..];
    ClearUnfilled(tree2d);
    if good {
      TableDone(s, tree2d[..], paths, parents, t, codes);
    }
    return 0, tree2d[..];
  }

  /** The inner loop: the word of symbol n. */
  method AddWord(tree2d: array<nat>, numcodes: nat, n: nat, code: nat, length: nat, pos: nat, filled: nat,
                 ghost good: bool, ghost t: Trie, ghost codes: seq<BitString>,
                 ghost paths: seq<BitString>, ghost parents: seq<nat>)
    returns (error: nat, treepos: nat, nodefilled: nat, ghost paths': seq<BitString>, ghost parents': seq<nat>)
    requires 2 <= numcodes == |codes| && tree2d.Length == 2 * numcodes <= UNFILLED
    requires n < numcodes && codes[n] == MsbBits(code, length)
    requires good ==> Table(tree2d[..], paths, parents, t, codes, n) && filled == |paths| - 1 && pos == 0
    modifies tree2d
    ensures error in {0, 55} && (good ==> error == 0)
    ensures good ==> Table(tree2d[..], paths', parents', t, codes, n + 1) && nodefilled == |paths'| - 1 && treepos == 0
  {
    hide Linked, InsertedTo, Inserted, IsTrieOf, EntryIs, Midway, Table;
    ghost var w := codes[n];
    treepos, nodefilled, paths', parents' := pos, filled, paths, parents;
    if good {
      StartSymbol(tree2d[..], paths, parents, t, codes, n);
    }
    assert |w| == length;
    hide MsbBits, Index, Pow2;
    for i := 0 to length
      invariant good && i == length ==> Table(tree2d[..], paths', parents', t, codes, n + 1) && treepos == 0
      invariant good && i < length ==> Midway(tree2d[..], paths', parents', t, codes, n, i, treepos)
      invariant good ==> nodefilled == |paths'| - 1
    {
      TurnBit(code, length, i);
      if good {
        MidwaySizes(tree2d[..], paths', parents', t, codes, n, i, treepos);
      }
      var bit := code / Pow2(length - i - 1) % 2;
      if treepos > numcodes - 2 {
        return 55, treepos, nodefilled, paths', parents';
      }
      ghost var s, k := tree2d[..], treepos;
      treepos, nodefilled := Turn(tree2d, numcodes, n, bit, i + 1 == length, treepos, nodefilled);
      if good {
        paths', parents' := Step(s, tree2d[..], paths', parents', t, codes, n, i, k);
      }
    }
    error := 0;
  }

  lemma TurnBit(code: nat, length: nat, i: nat)
    requires i < length
    ensures |MsbBits(code, length)| == length
    ensures code / Pow2(length - i - 1) % 2 == Index(MsbBits(code, length)[i])
  {
    MsbBitsAt(code, length, i);
  }

  /** One turn of the inner loop: down one level, with a new leaf or node where there is none. */
  method Turn(tree2d: array<nat>, numcodes: nat, n: nat, bit: nat, last: bool, treepos: nat, nodefilled: nat)
    returns (treepos': nat, nodefilled': nat)
    requires tree2d.Length == 2 * numcodes <= UNFILLED && bit < 2 && treepos + 2 <= numcodes
    modifies tree2d
    ensures var at, s := 2 * treepos + bit, old(tree2d[..]);
            if s[at] != UNFILLED then
              tree2d[..] == s && treepos' == Sub32(s[at], numcodes) && nodefilled' == nodefilled
            else if last then
              tree2d[..] == s[at := n] && treepos' == 0 && nodefilled' == nodefilled
            else
              tree2d[..] == s[at := nodefilled + 1 + numcodes] && treepos' == nodefilled' == nodefilled + 1
  {
    treepos', nodefilled' := treepos, nodefilled;
    var at := 2 * treepos + bit;
    if tree2d[at] == UNFILLED {
      if last {
        tree2d[at] := n;
        treepos' := 0;
      } else {
        nodefilled' := nodefilled + 1;
        tree2d[at] := nodefilled' + numcodes;
        treepos' := nodefilled';
      }
    } else {
      treepos' := Sub32(tree2d[at], numcodes);
    }
  }

  lemma TableDone(s: seq<nat>, s': seq<nat>, paths: seq<BitString>, parents: seq<nat>, t: Trie, codes: seq<BitString>)
    requires Table(s, paths, parents, t, codes, |codes|) && |s'| == |s|
    requires forall i :: 0 <= i < |s| && s[i] != UNFILLED ==> s'[i] == s[i]
    ensures Represents(s', |codes|, 0, t)
  {
    AllInserted(s, |codes|, paths, parents, t, codes, 0, t);
    RepresentsFrame(s, s', |codes|, 0, t);
  }

  /** The closing loop of the construction: entries that were never filled become 0. */
  method ClearUnfilled(tree2d: array<nat>)
    modifies tree2d
    ensures forall i :: 0 <= i < tree2d.Length ==>
              tree2d[i] == if old(tree2d[i]) == UNFILLED then 0 else old(tree2d[i])
  {
    for n := 0 to tree2d.Length
      invariant forall i :: 0 <= i < n ==> tree2d[i] == if old(tree2d[i]) == UNFILLED then 0 else old(tree2d[i])
      invariant forall i :: n <= i < tree2d.Length ==> tree2d[i] == old(tree2d[i])
    {
      if tree2d[n] == UNFILLED {
        tree2d[n] := 0;
      }
    }
  }
}

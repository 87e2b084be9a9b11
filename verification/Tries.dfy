/** Binary code trees: the meaning that both representations of a Huffman tree share. */
module Tries {
  import opened Bits
  import opened Options

  datatype Trie = Leaf(sym: nat) | Node(zero: Trie, one: Trie)

  function Child(t: Trie, b: bool): Trie
    requires t.Node?
  {
    if b then t.one else t.zero
  }

  /** The subtree at the end of a path from the root, if the path stays in the tree. */
  function Follow(t: Trie, path: BitString): Option<Trie>
  {
    if path == [] then Some(t)
    else match t
      case Leaf(_) => None
      case Node(_, _) => Follow(Child(t, path[0]), path[1..])
  }

  lemma {:induction false} FollowAppend(t: Trie, p: BitString, q: BitString)
    ensures Follow(t, p + q) == (if Follow(t, p).Some? then Follow(Follow(t, p).value, q) else None)
  {
    if p == [] {
      assert p + q == q;
    } else {
      assert (p + q)[1..] == p[1..] + q;
      if t.Node? {
        FollowAppend(Child(t, p[0]), p[1..], q);
      }
    }
  }

  /** The words of a tree: codes[n] is the path to the leaf of symbol n, empty if n is absent. */
  ghost predicate IsTrieOf(t: Trie, codes: seq<BitString>)
  {
    && t.Node?
    && (forall n :: 0 <= n < |codes| && codes[n] != [] ==> Follow(t, codes[n]) == Some(Leaf(n)))
    && (forall p :: Follow(t, p).Some? && Follow(t, p).value.Leaf? ==>
          var s := Follow(t, p).value.sym; s < |codes| && codes[s] == p)
  }

  /** No word of a tree is a prefix of another one. */
  lemma PrefixFree(t: Trie, codes: seq<BitString>, m: nat, n: nat)
    requires IsTrieOf(t, codes) && m < |codes| && n < |codes| && m != n
    requires codes[m] != [] && codes[n] != []
    ensures !(codes[m] <= codes[n])
  {
    if codes[m] <= codes[n] {
      var q := codes[n][|codes[m]|..];
      assert codes[n] == codes[m] + q;
      FollowAppend(t, codes[m], q);
    }
  }

  // ---------------------------------------------------------------- decoding

  datatype Walked = Symbol(sym: nat, pos: nat) | Exhausted

  /** Reads one symbol: goes down from the root, one bit a step. */
  function Walk(t: Trie, bits: BitString, pos: nat): (r: Walked)
    ensures r.Symbol? && t.Node? ==> pos < r.pos <= |bits|
    ensures r.Symbol? && t.Leaf? ==> r.pos == pos
  {
    match t
    case Leaf(s) => Symbol(s, pos)
    case Node(_, _) =>
      if pos >= |bits| then Exhausted else Walk(Child(t, bits[pos]), bits, pos + 1)
  }

  /** A word at the read position decodes to its symbol, and only the word is consumed. */
  lemma {:induction false} WalkReadsWord(t: Trie, path: BitString, s: nat, bits: BitString, pos: nat)
    requires Follow(t, path) == Some(Leaf(s))
    requires pos + |path| <= |bits| && bits[pos..pos + |path|] == path
    ensures Walk(t, bits, pos) == Symbol(s, pos + |path|)
  {
    if path != [] {
      assert bits[pos] == path[0];
      assert bits[pos + 1..pos + |path|] == path[1..];
      WalkReadsWord(Child(t, path[0]), path[1..], s, bits, pos + 1);
    }
  }

  /** What is decoded was a word of the tree: the converse of WalkReadsWord. */
  lemma {:induction false} WalkFoundWord(t: Trie, bits: BitString, pos: nat)
    requires pos <= |bits| && Walk(t, bits, pos).Symbol?
    ensures var w := Walk(t, bits, pos);
            pos <= w.pos <= |bits| && Follow(t, bits[pos..w.pos]) == Some(Leaf(w.sym))
  {
    if t.Node? {
      WalkFoundWord(Child(t, bits[pos]), bits, pos + 1);
      var w := Walk(t, bits, pos);
      assert bits[pos..w.pos][1..] == bits[pos + 1..w.pos];
    }
  }

  // ---------------------------------------------------------------- sizes

  function Leaves(t: Trie): (r: nat)
    ensures r >= 1
  {
    match t
    case Leaf(_) => 1
    case Node(l, r) => Leaves(l) + Leaves(r)
  }

  ghost function InternalPaths(t: Trie): set<BitString>
  {
    match t
    case Leaf(_) => {}
    case Node(l, r) =>
      {[]} + (set p | p in InternalPaths(l) :: [false] + p) + (set p | p in InternalPaths(r) :: [true] + p)
  }

  lemma {:induction false} InternalPathsAre(t: Trie, p: BitString)
    ensures p in InternalPaths(t) <==> Follow(t, p).Some? && Follow(t, p).value.Node?
  {
    if t.Node? && p != [] {
      assert p == [p[0]] + p[1..];
      InternalPathsAre(Child(t, p[0]), p[1..]);
      forall q | [false] + q == p || [true] + q == p
        ensures q == p[1..]
      {
        assert ([false] + q)[1..] == q && ([true] + q)[1..] == q;
      }
    }
  }

  lemma {:induction false} PrependCardinality(b: bool, s: set<BitString>)
    ensures |set p | p in s :: [b] + p| == |s|
  {
    if s != {} {
      var x :| x in s;
      var rest := s - {x};
      PrependCardinality(b, rest);
      var img := set p | p in s :: [b] + p;
      var imgRest := set p | p in rest :: [b] + p;
      forall p | p in rest
        ensures [b] + p != [b] + x
      {
        assert ([b] + p)[1..] == p && ([b] + x)[1..] == x;
      }
      assert img == imgRest + {[b] + x};
      assert [b] + x !in imgRest;
    }
  }

  /** A tree has one internal node fewer than leaves. */
  lemma {:induction false} InternalCount(t: Trie)
    ensures |InternalPaths(t)| == Leaves(t) - 1
  {
    match t
    case Leaf(_) =>
    case Node(l, r) =>
      InternalCount(l);
      InternalCount(r);
      PrependCardinality(false, InternalPaths(l));
      PrependCardinality(true, InternalPaths(r));
      var a := set p | p in InternalPaths(l) :: [false] + p;
      var b := set p | p in InternalPaths(r) :: [true] + p;
      forall p | p in a
        ensures p !in b
      {
        assert !p[0];
      }
      assert a !! b;
      assert {[]} !! (a + b);
      assert InternalPaths(t) == {[]} + (a + b);
  }

  ghost function LeafSyms(t: Trie): set<nat>
  {
    match t
    case Leaf(s) => {s}
    case Node(l, r) => LeafSyms(l) + LeafSyms(r)
  }

  lemma {:induction false} SymHasPath(t: Trie, s: nat) returns (p: BitString)
    requires s in LeafSyms(t)
    ensures Follow(t, p) == Some(Leaf(s))
  {
    match t
    case Leaf(_) => p := [];
    case Node(l, r) =>
      var b := s !in LeafSyms(l);
      var q := SymHasPath(Child(t, b), s);
      p := [b] + q;
      assert p[1..] == q;
  }

  lemma SymUnderChild(t: Trie, at: BitString, codes: seq<BitString>, b: bool, s: nat)
    requires t.Node? && s in LeafSyms(Child(t, b))
    requires forall p :: Follow(t, p).Some? && Follow(t, p).value.Leaf? ==>
               var s := Follow(t, p).value.sym; s < |codes| && codes[s] == at + p
    ensures s < |codes| && |codes[s]| > |at| && codes[s][|at|] == b
  {
    var p := SymHasPath(Child(t, b), s);
    assert ([b] + p)[1..] == p;
    assert Follow(t, [b] + p) == Some(Leaf(s));
  }

  /** The symbols below a node, when no symbol is at two leaves. */
  lemma {:induction false} LeavesAreSyms(t: Trie, at: BitString, codes: seq<BitString>)
    requires forall p :: Follow(t, p).Some? && Follow(t, p).value.Leaf? ==>
               var s := Follow(t, p).value.sym; s < |codes| && codes[s] == at + p
    ensures |LeafSyms(t)| == Leaves(t)
  {
    if t.Node? {
      forall b: bool, p | Follow(Child(t, b), p).Some? && Follow(Child(t, b), p).value.Leaf?
        ensures var s := Follow(Child(t, b), p).value.sym; s < |codes| && codes[s] == (at + [b]) + p
      {
        assert ([b] + p)[1..] == p;
        assert Follow(t, [b] + p) == Follow(Child(t, b), p);
        assert at + ([b] + p) == (at + [b]) + p;
      }
      LeavesAreSyms(t.zero, at + [false], codes);
      LeavesAreSyms(t.one, at + [true], codes);
      forall s | s in LeafSyms(t.zero)
        ensures s !in LeafSyms(t.one)
      {
        SymUnderChild(t, at, codes, false, s);
        if s in LeafSyms(t.one) {
          SymUnderChild(t, at, codes, true, s);
        }
      }
      assert LeafSyms(t.zero) !! LeafSyms(t.one);
    }
  }

  /** A code with |codes| symbols needs at most |codes| - 1 internal nodes. */
  lemma InternalBound(t: Trie, codes: seq<BitString>)
    requires IsTrieOf(t, codes)
    ensures |InternalPaths(t)| <= |codes| - 1
  {
    InternalCount(t);
    forall p | Follow(t, p).Some? && Follow(t, p).value.Leaf?
      ensures var s := Follow(t, p).value.sym; s < |codes| && codes[s] == [] + p
    {
      assert [] + p == p;
    }
    LeavesAreSyms(t, [], codes);
    forall s | s in LeafSyms(t)
      ensures s < |codes|
    {
      var p := SymHasPath(t, s);
    }
    BoundedSet(LeafSyms(t), |codes|);
  }

  lemma {:induction false} BoundedSet(s: set<nat>, n: nat)
    requires forall x :: x in s ==> x < n
    ensures |s| <= n
  {
    if n > 0 {
      BoundedSet(s - {n - 1}, n - 1);
      if n - 1 in s {
        assert s == (s - {n - 1}) + {n - 1};
      } else {
        assert s == s - {n - 1};
      }
    } else {
      assert s == {};
    }
  }
}

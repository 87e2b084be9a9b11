/** The cuckoo hash table of the network stack: nine tables, a bounded chain of evictions. */
module Cuckoo {

  const NUM_TABLES: nat := 9
  const MAX_TRIALS: nat := 12

  datatype Entry = Entry(key: nat, value: nat, valid: bool)

  /** A key and its value. */
  type Pair = (nat, nat)

  // ---------------------------------------------------------------- what the tables hold

  /** The pair of a valid entry. */
  function Held(e: Entry): multiset<Pair>
  {
    if e.valid then multiset{(e.key, e.value)} else multiset{}
  }

  function RowPairs(row: seq<Entry>): multiset<Pair>
  {
    if row == [] then multiset{} else RowPairs(row[..|row| - 1]) + Held(row[|row| - 1])
  }

  function Pairs(rows: seq<seq<Entry>>): multiset<Pair>
  {
    if rows == [] then multiset{} else Pairs(rows[..|rows| - 1]) + RowPairs(rows[|rows| - 1])
  }

  lemma Commute(p: multiset<Pair>, a: multiset<Pair>, b: multiset<Pair>)
    ensures p + a + b == p + b + a
  {
  }

  lemma AddBoth(p': multiset<Pair>, a: multiset<Pair>, p: multiset<Pair>, b: multiset<Pair>, l: multiset<Pair>)
    requires p' + a == p + b
    ensures p' + l + a == p + l + b
  {
    forall x: Pair
      ensures (p' + l + a)[x] == (p + l + b)[x]
    {
      assert (p' + a)[x] == (p + b)[x];
    }
  }

  lemma {:induction false} RowUpdate(row: seq<Entry>, a: nat, e: Entry)
    requires a < |row|
    ensures RowPairs(row[a := e]) + Held(row[a]) == RowPairs(row) + Held(e)
  {
    hide Held;
    var n := |row| - 1;
    var row' := row[a := e];
    if a == n {
      assert row'[..n] == row[..n];
      Commute(RowPairs(row[..n]), Held(e), Held(row[n]));
    } else {
      RowUpdate(row[..n], a, e);
      assert row'[..n] == row[..n][a := e];
      AddBoth(RowPairs(row'[..n]), Held(row[a]), RowPairs(row[..n]), Held(e), Held(row[n]));
    }
  }

  lemma {:induction false} RowsUpdate(rows: seq<seq<Entry>>, i: nat, row: seq<Entry>)
    requires i < |rows|
    ensures Pairs(rows[i := row]) + RowPairs(rows[i]) == Pairs(rows) + RowPairs(row)
  {
    var n := |rows| - 1;
    var rows' := rows[i := row];
    if i == n {
      assert rows'[..n] == rows[..n];
      Commute(Pairs(rows[..n]), RowPairs(row), RowPairs(rows[n]));
    } else {
      RowsUpdate(rows[..n], i, row);
      assert rows'[..n] == rows[..n][i := row];
      AddBoth(Pairs(rows'[..n]), RowPairs(rows[i]), Pairs(rows[..n]), RowPairs(row), RowPairs(rows[n]));
    }
  }

  /** Overwriting one cell exchanges what it held for what it now holds. */
  lemma CellUpdate(rows: seq<seq<Entry>>, i: nat, a: nat, e: Entry)
    requires i < |rows| && a < |rows[i]|
    ensures Pairs(rows[i := rows[i][a := e]]) + Held(rows[i][a]) == Pairs(rows) + Held(e)
  {
    RowUpdate(rows[i], a, e);
    RowsUpdate(rows, i, rows[i][a := e]);
    Exchange(Pairs(rows[i := rows[i][a := e]]), RowPairs(rows[i]), Pairs(rows), RowPairs(rows[i][a := e]),
             Held(rows[i][a]), Held(e));
  }

  lemma Exchange(p': multiset<Pair>, r: multiset<Pair>, p: multiset<Pair>, r': multiset<Pair>, h: multiset<Pair>,
                 h': multiset<Pair>)
    requires p' + r == p + r' && r' + h == r + h'
    ensures p' + h == p + h'
  {
    forall x: Pair
      ensures (p' + h)[x] == (p + h')[x]
    {
      assert (p' + r)[x] == (p + r')[x] && (r' + h)[x] == (r + h')[x];
    }
  }

  lemma Cancel(p: multiset<Pair>, q: multiset<Pair>, h: multiset<Pair>)
    requires p + h == q + h
    ensures p == q
  {
    forall x: Pair
      ensures p[x] == q[x]
    {
      assert (p + h)[x] == (q + h)[x];
    }
  }

  lemma {:induction false} RowPairHasCell(row: seq<Entry>, p: Pair) returns (a: nat)
    requires p in RowPairs(row)
    ensures a < |row| && row[a] == Entry(p.0, p.1, true)
  {
    if p in Held(row[|row| - 1]) {
      a := |row| - 1;
    } else {
      a := RowPairHasCell(row[..|row| - 1], p);
    }
  }

  lemma {:induction false} PairHasCell(rows: seq<seq<Entry>>, p: Pair) returns (i: nat, a: nat)
    requires p in Pairs(rows)
    ensures i < |rows| && a < |rows[i]| && rows[i][a] == Entry(p.0, p.1, true)
  {
    if p in RowPairs(rows[|rows| - 1]) {
      i := |rows| - 1;
      a := RowPairHasCell(rows[i], p);
    } else {
      i, a := PairHasCell(rows[..|rows| - 1], p);
    }
  }

  lemma CellHasPair(rows: seq<seq<Entry>>, i: nat, a: nat)
    requires i < |rows| && a < |rows[i]| && rows[i][a].valid
    ensures (rows[i][a].key, rows[i][a].value) in Pairs(rows)
  {
    var e := rows[i][a];
    CellUpdate(rows, i, a, Entry(0, 0, false));
    var p := (e.key, e.value);
    assert Held(e)[p] == 1;
    assert Pairs(rows)[p] + Held(Entry(0, 0, false))[p] ==
           (Pairs(rows[i := rows[i][a := Entry(0, 0, false)]]) + Held(e))[p];
  }

  /** The addresses of a key in all tables. */
  function Addresses(hash: (nat, nat) -> nat, key: nat): (r: seq<nat>)
    ensures |r| == NUM_TABLES && forall i :: 0 <= i < NUM_TABLES ==> r[i] == hash(i, key)
  {
    seq(NUM_TABLES, i requires 0 <= i < NUM_TABLES => hash(i, key))
  }

  // ---------------------------------------------------------------- what the operations mean

  datatype Op = Lookup(key: nat) | Insert(key: nat, value: nat) | Remove(key: nat)

  /** hit or success, and the value of a lookup that hits. */
  datatype Reply = Reply(done: bool, value: nat)

  ghost predicate HasKey(held: multiset<Pair>, key: nat)
  {
    exists v: nat :: (key, v) in held
  }

  /** One operation on the held pairs: a failed insertion loses exactly one pair, possibly the new one. */
  ghost predicate Follows(held: multiset<Pair>, op: Op, r: Reply, held': multiset<Pair>)
  {
    match op
    case Lookup(key) =>
      held' == held && (r.done <==> HasKey(held, key)) && (r.done ==> (key, r.value) in held)
    case Insert(key, value) =>
      if r.done then held' == held + multiset{(key, value)}
      else exists lost :: LosesOne(held + multiset{(key, value)}, lost, held')
    case Remove(key) =>
      && (r.done <==> HasKey(held, key))
      && forall p: Pair :: held'[p] == if p.0 == key then 0 else held[p]
  }

  ghost predicate LosesOne(all: multiset<Pair>, lost: Pair, held: multiset<Pair>)
  {
    lost in all && held == all - multiset{lost}
  }

  // ---------------------------------------------------------------- what the loops compute

  ghost predicate HasShape(rows: seq<seq<Entry>>, hash: (nat, nat) -> nat, size: nat)
  {
    && |rows| == NUM_TABLES
    && (forall i :: 0 <= i < NUM_TABLES ==> |rows[i]| == size)
    && forall i, k :: 0 <= i < NUM_TABLES && 0 <= k ==> hash(i, k) < size
  }

  /** The cell of table i at the address of a key. */
  ghost function Cell(rows: seq<seq<Entry>>, hash: (nat, nat) -> nat, size: nat, i: nat, key: nat): Entry
    requires HasShape(rows, hash, size) && i < NUM_TABLES
  {
    rows[i][hash(i, key)]
  }

  ghost function Put(rows: seq<seq<Entry>>, hash: (nat, nat) -> nat, size: nat, i: nat, e: Entry): (r: seq<seq<Entry>>)
    requires HasShape(rows, hash, size) && i < NUM_TABLES
    ensures HasShape(r, hash, size)
  {
    rows[i := rows[i][hash(i, e.key) := e]]
  }

  /** The last of the first n tables that holds a key at its address there, or -1. */
  ghost function LastMatch(rows: seq<seq<Entry>>, hash: (nat, nat) -> nat, size: nat, key: nat, n: nat): (r: int)
    requires HasShape(rows, hash, size) && n <= NUM_TABLES
    ensures -1 <= r < n
  {
    if n == 0 then -1
    else
      var e := Cell(rows, hash, size, n - 1, key);
      if e.valid && e.key == key then n - 1 else LastMatch(rows, hash, size, key, n - 1)
  }

  /** The last of the first n tables that is free at the address of a key, or -1. */
  ghost function LastFree(rows: seq<seq<Entry>>, hash: (nat, nat) -> nat, size: nat, key: nat, n: nat): (r: int)
    requires HasShape(rows, hash, size) && n <= NUM_TABLES
    ensures -1 <= r < n
    ensures r != -1 ==> !Cell(rows, hash, size, r, key).valid
  {
    if n == 0 then -1
    else if !Cell(rows, hash, size, n - 1, key).valid then n - 1
    else LastFree(rows, hash, size, key, n - 1)
  }

  /** It is free, and all tables behind it are occupied at the key's address; all of them are if there is none. */
  lemma {:induction false} LastFreeIs(rows: seq<seq<Entry>>, hash: (nat, nat) -> nat, size: nat, key: nat, n: nat)
    requires HasShape(rows, hash, size) && n <= NUM_TABLES
    ensures var r := LastFree(rows, hash, size, key, n);
            && (r >= 0 ==> !rows[r][hash(r, key)].valid)
            && forall i :: 0 <= i < n && r < i ==> rows[i][hash(i, key)].valid
  {
    if n > 0 {
      LastFreeIs(rows, hash, size, key, n - 1);
    }
  }

  /** It holds the key, and no table behind it does. */
  lemma {:induction false} LastMatchIs(rows: seq<seq<Entry>>, hash: (nat, nat) -> nat, size: nat, key: nat, n: nat)
    requires HasShape(rows, hash, size) && n <= NUM_TABLES
    ensures var r := LastMatch(rows, hash, size, key, n);
            && (r >= 0 ==> rows[r][hash(r, key)].valid && rows[r][hash(r, key)].key == key)
            && forall i :: 0 <= i < n && r < i ==> !(rows[i][hash(i, key)].valid && rows[i][hash(i, key)].key == key)
  {
    if n > 0 {
      LastMatchIs(rows, hash, size, key, n - 1);
    }
  }

  /** What a lookup answers. */
  ghost function Answer(rows: seq<seq<Entry>>, hash: (nat, nat) -> nat, size: nat, key: nat): Reply
    requires HasShape(rows, hash, size)
  {
    var slot := LastMatch(rows, hash, size, key, NUM_TABLES);
    if slot == -1 then Reply(false, 0) else Reply(true, Cell(rows, hash, size, slot, key).value)
  }

  /** Tables after an insertion, and whether it succeeded; if not, lost is the entry that has no place any more. */
  datatype Inserted = Inserted(rows: seq<seq<Entry>>, done: bool, lost: Entry)

  /** The trials of an insertion, one after the other. */
  ghost function Trials(rows: seq<seq<Entry>>, hash: (nat, nat) -> nat, size: nat, e: Entry, victimIdx: nat,
                        victimBit: nat, trials: nat): (r: Inserted)
    requires HasShape(rows, hash, size) && victimIdx < NUM_TABLES && victimBit < 2
    ensures HasShape(r.rows, hash, size)
    decreases trials
  {
    if trials == 0 then Inserted(rows, false, e)
    else
      var slot := LastFree(rows, hash, size, e.key, NUM_TABLES);
      if slot != -1 then Inserted(Put(rows, hash, size, slot, e), true, e)
      else
        var v := hash(victimIdx, e.key) % 8 + victimBit;
        Trials(Put(rows, hash, size, v, e), hash, size, Cell(rows, hash, size, v, e.key), (victimIdx + 1) % NUM_TABLES,
               1 - victimBit, trials - 1)
  }

  lemma TrialsStep(rows: seq<seq<Entry>>, hash: (nat, nat) -> nat, size: nat, e: Entry, victimIdx: nat, victimBit: nat,
                   trials: nat)
    requires HasShape(rows, hash, size) && victimIdx < NUM_TABLES && victimBit < 2 && trials > 0
    ensures var slot, v := LastFree(rows, hash, size, e.key, NUM_TABLES), hash(victimIdx, e.key) % 8 + victimBit;
            Trials(rows, hash, size, e, victimIdx, victimBit, trials) ==
            if slot != -1 then Inserted(Put(rows, hash, size, slot, e), true, e)
            else Trials(Put(rows, hash, size, v, e), hash, size, Cell(rows, hash, size, v, e.key),
                        (victimIdx + 1) % NUM_TABLES, 1 - victimBit, trials - 1)
  {
  }

  lemma TrialsEnd(rows: seq<seq<Entry>>, hash: (nat, nat) -> nat, size: nat, e: Entry, victimIdx: nat, victimBit: nat)
    requires HasShape(rows, hash, size) && victimIdx < NUM_TABLES && victimBit < 2
    ensures Trials(rows, hash, size, e, victimIdx, victimBit, 0) == Inserted(rows, false, e)
  {
  }

  lemma {:induction false} NoneFree(rows: seq<seq<Entry>>, hash: (nat, nat) -> nat, size: nat, key: nat, n: nat)
    requires HasShape(rows, hash, size) && n <= NUM_TABLES && LastFree(rows, hash, size, key, n) == -1
    ensures forall i :: 0 <= i < n ==> Cell(rows, hash, size, i, key).valid
  {
    if n > 0 {
      NoneFree(rows, hash, size, key, n - 1);
    }
  }

  lemma PutPairs(rows: seq<seq<Entry>>, hash: (nat, nat) -> nat, size: nat, i: nat, e: Entry)
    requires HasShape(rows, hash, size) && i < NUM_TABLES
    ensures var was := Cell(rows, hash, size, i, e.key);
            && Pairs(Put(rows, hash, size, i, e)) + Held(was) == Pairs(rows) + Held(e)
            && (!was.valid ==> Pairs(Put(rows, hash, size, i, e)) == Pairs(rows) + Held(e))
  {
    CellUpdate(rows, i, hash(i, e.key), e);
  }

  /** An insertion that succeeds loses nothing; one that fails loses one entry. */
  ghost predicate Conserved(before: multiset<Pair>, e: Entry, after: multiset<Pair>, done: bool, lost: Entry)
  {
    if done then after == before + Held(e) else lost.valid && after + Held(lost) == before + Held(e)
  }

  lemma ConservedStep(before: multiset<Pair>, e: Entry, between: multiset<Pair>, victim: Entry, after: multiset<Pair>,
                      done: bool, lost: Entry)
    requires between + Held(victim) == before + Held(e) && Conserved(between, victim, after, done, lost)
    ensures Conserved(before, e, after, done, lost)
  {
  }

  lemma ConservedFollows(before: multiset<Pair>, key: nat, value: nat, after: multiset<Pair>, done: bool, lost: Entry)
    requires Conserved(before, Entry(key, value, true), after, done, lost)
    ensures Follows(before, Insert(key, value), Reply(done, 0), after) && (!done ==> |after| == |before|)
    ensures !done ==> LosesOne(before + multiset{(key, value)}, (lost.key, lost.value), after)
  {
    if !done {
      var l, all := (lost.key, lost.value), before + multiset{(key, value)};
      assert after + multiset{l} == all;
      assert all[l] == after[l] + 1;
      Cancel(after, all - multiset{l}, multiset{l});
      assert LosesOne(all, l, after);
    }
  }

  /** The trials lose nothing when they succeed, and the last victim when they do not. */
  lemma {:induction false} TrialsConserve(rows: seq<seq<Entry>>, hash: (nat, nat) -> nat, size: nat, e: Entry,
                                          victimIdx: nat, victimBit: nat, trials: nat)
    requires HasShape(rows, hash, size) && victimIdx < NUM_TABLES && victimBit < 2 && e.valid
    ensures var t := Trials(rows, hash, size, e, victimIdx, victimBit, trials);
            Conserved(Pairs(rows), e, Pairs(t.rows), t.done, t.lost)
    decreases trials
  {
    hide Trials, Pairs, HasShape, LastFree, Cell, Put;
    if trials == 0 {
      TrialsEnd(rows, hash, size, e, victimIdx, victimBit);
    } else {
      TrialsStep(rows, hash, size, e, victimIdx, victimBit, trials);
      var slot, v := LastFree(rows, hash, size, e.key, NUM_TABLES), hash(victimIdx, e.key) % 8 + victimBit;
      if slot != -1 {
        PutPairs(rows, hash, size, slot, e);
      } else {
        var next, victim := Put(rows, hash, size, v, e), Cell(rows, hash, size, v, e.key);
        NoneFree(rows, hash, size, e.key, NUM_TABLES);
        PutPairs(rows, hash, size, v, e);
        var idx := (victimIdx + 1) % NUM_TABLES;
        TrialsConserve(next, hash, size, victim, idx, 1 - victimBit, trials - 1);
        var t := Trials(next, hash, size, victim, idx, 1 - victimBit, trials - 1);
        hide Conserved, Held;
        ConservedStep(Pairs(rows), e, Pairs(next), victim, Pairs(t.rows), t.done, t.lost);
      }
    }
  }

  lemma TrialsFollow(rows: seq<seq<Entry>>, hash: (nat, nat) -> nat, size: nat, key: nat, value: nat,
                     victimIdx: nat, victimBit: nat, trials: nat)
    requires HasShape(rows, hash, size) && victimIdx < NUM_TABLES && victimBit < 2
    ensures var t := Trials(rows, hash, size, Entry(key, value, true), victimIdx, victimBit, trials);
            && Follows(Pairs(rows), Insert(key, value), Reply(t.done, 0), Pairs(t.rows))
            && (!t.done ==> |Pairs(t.rows)| == |Pairs(rows)|)
  {
    hide Trials, Pairs, HasShape, Conserved, Follows;
    var t := Trials(rows, hash, size, Entry(key, value, true), victimIdx, victimBit, trials);
    TrialsConserve(rows, hash, size, Entry(key, value, true), victimIdx, victimBit, trials);
    ConservedFollows(Pairs(rows), key, value, Pairs(t.rows), t.done, t.lost);
  }

  // ---------------------------------------------------------------- the tables

  lemma EmptyHoldsNothing(rows: seq<seq<Entry>>)
    requires forall i, a :: 0 <= i < |rows| && 0 <= a < |rows[i]| ==> !rows[i][a].valid
    ensures Pairs(rows) == multiset{}
  {
    if Pairs(rows) != multiset{} {
      var p :| p in Pairs(rows);
      var i, a := PairHasCell(rows, p);
    }
  }

  class HashTable {
    const size: nat
    const hash: (nat, nat) -> nat
    const tables: array2<Entry>
    var victimBit: nat
    var insertFailureCounter: nat

    ghost predicate Shape()
    {
      && tables.Length0 == NUM_TABLES && tables.Length1 == size
      && forall i, k :: 0 <= i < NUM_TABLES && 0 <= k ==> hash(i, k) < size
    }

    /** Every valid entry of table i stands at the address that hash i gives its key. */
    ghost predicate Valid()
      reads this, tables
    {
      && Shape()
      && victimBit < 2 && insertFailureCounter < 0x1_0000
      && forall i, a :: 0 <= i < NUM_TABLES && 0 <= a < size && tables[i, a].valid ==> hash(i, tables[i, a].key) == a
    }

    ghost function Rows(): (r: seq<seq<Entry>>)
      requires Shape()
      reads tables
      ensures HasShape(r, hash, size)
      ensures forall i, a :: 0 <= i < NUM_TABLES && 0 <= a < size ==> r[i][a] == tables[i, a]
    {
      seq(NUM_TABLES, i requires 0 <= i < NUM_TABLES && Shape() reads tables =>
        seq(size, a requires 0 <= a < size && Shape() reads tables => tables[i, a]))
    }

    /** The pairs that the tables hold. */
    ghost function Contents(): multiset<Pair>
      requires Shape()
      reads tables
    {
      Pairs(Rows())
    }

    constructor (size: nat, hash: (nat, nat) -> nat)
      requires forall i, k :: 0 <= i < NUM_TABLES && 0 <= k ==> hash(i, k) < size
      ensures Valid() && Contents() == multiset{} && fresh(tables) && tables.Length0 == 9 && tables.Length1 == size
      ensures this.size == size && this.hash == hash
    {
      this.size := size;
      this.hash := hash;
      tables := new Entry[NUM_TABLES, size]((_, _) => Entry(0, 0, false));
      victimBit := 0;
      insertFailureCounter := 0;
      new;
      EmptyHoldsNothing(Rows());
    }

    /** Writes one cell. */
    method Write(i: nat, a: nat, e: Entry)
      requires Shape() && i < NUM_TABLES && a < size
      modifies tables
      ensures tables[i, a] == e && Rows() == old(Rows())[i := old(Rows())[i][a := e]]
      ensures forall k, b :: 0 <= k < NUM_TABLES && 0 <= b < size && (k, b) != (i, a) ==>
                tables[k, b] == old(tables[k, b])
      ensures Contents() + Held(old(tables[i, a])) == old(Contents()) + Held(e)
    {
      hide Pairs;
      ghost var before := Rows();
      ghost var after := before[i := before[i][a := e]];
      CellUpdate(before, i, a, e);
      tables[i, a] := e;
      forall k | 0 <= k < NUM_TABLES
        ensures Rows()[k] == after[k]
      {
        assert forall b :: 0 <= b < size ==> Rows()[k][b] == after[k][b];
      }
      assert Rows() == after;
    }

    /** Where a key is held, it is held at one of its addresses. */
    lemma HeldAtAddress(key: nat)
      requires Valid()
      ensures HasKey(Contents(), key) <==> exists i :: 0 <= i < NUM_TABLES && Matches(i, key)
      ensures forall i :: 0 <= i < NUM_TABLES && Matches(i, key) ==>
                (key, tables[i, hash(i, key)].value) in Contents()
    {
      if HasKey(Contents(), key) {
        var v: nat :| (key, v) in Contents();
        var i, a := PairHasCell(Rows(), (key, v));
        assert tables[i, a] == Entry(key, v, true);
        assert Matches(i, key);
      }
      forall i | 0 <= i < NUM_TABLES && Matches(i, key)
        ensures (key, tables[i, hash(i, key)].value) in Contents()
      {
        CellHasPair(Rows(), i, hash(i, key));
      }
    }

    ghost predicate Matches(i: nat, key: nat)
      requires Shape() && i < NUM_TABLES
      reads tables
    {
      tables[i, hash(i, key)].valid && tables[i, hash(i, key)].key == key
    }

    /** The value in the last of the tables that hold the key. */
    method LookupKey(key: nat) returns (r: Reply)
      requires Valid()
      ensures r == Answer(Rows(), hash, size, key)
      ensures Follows(Contents(), Lookup(key), r, Contents())
    {
      hide Rows;
      var slot := -1;
      for i := 0 to NUM_TABLES
        invariant -1 <= slot < i && (slot != -1 ==> Matches(slot, key))
        invariant slot == LastMatch(Rows(), hash, size, key, i)
        invariant slot == -1 ==> forall k :: 0 <= k < i ==> !Matches(k, key)
      {
        var entry := tables[i, hash(i, key)];
        if entry.valid && entry.key == key {
          slot := i;
        }
      }
      HeldAtAddress(key);
      r := if slot != -1 then Reply(true, tables[slot, hash(slot, key)].value) else Reply(false, 0);
    }

    /** One step of the removal: the entry in table i, if it has the key, becomes invalid. */
    method RemoveFrom(i: nat, key: nat) returns (found: bool)
      requires Valid() && i < NUM_TABLES
      modifies tables
      ensures Valid() && found == old(Matches(i, key)) && !Matches(i, key)
      ensures forall k :: 0 <= k < NUM_TABLES && k != i ==> Matches(k, key) == old(Matches(k, key))
      ensures forall p: Pair :: p.0 != key ==> Contents()[p] == old(Contents())[p]
    {
      hide Rows, Pairs;
      var entry := tables[i, hash(i, key)];
      found := entry.valid && entry.key == key;
      if found {
        hide Contents;
        Write(i, hash(i, key), entry.(valid := false));
        OthersStay(Contents(), old(Contents()), entry);
      }
    }

    lemma OthersStay(now: multiset<Pair>, before: multiset<Pair>, e: Entry)
      requires e.valid && now + Held(e) == before + Held(e.(valid := false))
      ensures forall p: Pair :: p.0 != e.key ==> now[p] == before[p]
    {
      forall p: Pair | p.0 != e.key
        ensures now[p] == before[p]
      {
        assert (now + Held(e))[p] == (before + Held(e.(valid := false)))[p];
      }
    }

    /** Removes every entry of the key. */
    method RemoveKey(key: nat) returns (r: Reply)
      requires Valid()
      modifies tables
      ensures Valid() && Follows(old(Contents()), Remove(key), r, Contents())
    {
      HeldAtAddress(key);
      hide Rows, Pairs, Contents, Valid, Matches, HasKey, Follows;
      r := Reply(false, 0);
      for i := 0 to NUM_TABLES
        modifies tables
        invariant Valid() && Shape()
        invariant forall p: Pair :: p.0 != key ==> Contents()[p] == old(Contents())[p]
        invariant forall k :: 0 <= k < i ==> !Matches(k, key)
        invariant forall k :: i <= k < NUM_TABLES ==> Matches(k, key) == old(Matches(k, key))
        invariant r.done <==> exists k :: 0 <= k < i && old(Matches(k, key))
      {
        var found := RemoveFrom(i, key);
        if found {
          r := Reply(true, 0);
        }
      }
      HeldAtAddress(key);
      NoneHeld(Contents(), key);
      RemovalFollows(old(Contents()), key, r, Contents());
    }

    lemma RemovalFollows(held: multiset<Pair>, key: nat, r: Reply, held': multiset<Pair>)
      requires r.done <==> HasKey(held, key)
      requires forall p: Pair :: p.0 != key ==> held'[p] == held[p]
      requires forall p: Pair :: p.0 == key ==> held'[p] == 0
      ensures Follows(held, Remove(key), r, held')
    {
    }

    lemma NoneHeld(held: multiset<Pair>, key: nat)
      requires !HasKey(held, key)
      ensures forall p: Pair :: p.0 == key ==> held[p] == 0
    {
      forall p: Pair | p.0 == key
        ensures held[p] == 0
      {
        assert (key, p.1) !in held;
      }
    }

    // -------------------------------------------------------------- insertion

    /**
     * One trial of the insertion loop: the entry goes into the last table that is free at its address there, or
     * else takes the place of a victim, which becomes the entry of the next trial.
     */
    method Trial(currentEntry: Entry, victimIdx: nat) returns (success: bool, nextEntry: Entry, nextIdx: nat)
      requires Valid() && currentEntry.valid && victimIdx < NUM_TABLES
      modifies tables, this`victimBit
      ensures Valid() && nextIdx < NUM_TABLES
      ensures var slot := LastFree(old(Rows()), hash, size, currentEntry.key, NUM_TABLES);
              && success == (slot != -1)
              && if success then Rows() == Put(old(Rows()), hash, size, slot, currentEntry)
                 else
                   var v := hash(victimIdx, currentEntry.key) % 8 + old(victimBit);
                   && nextEntry == Cell(old(Rows()), hash, size, v, currentEntry.key)
                   && Rows() == Put(old(Rows()), hash, size, v, currentEntry)
                   && nextIdx == (victimIdx + 1) % NUM_TABLES
      ensures victimBit == 1 - old(victimBit)
      ensures !success ==> nextEntry.valid
      ensures insertFailureCounter == old(insertFailureCounter)
    {
      assert Shape() && victimBit < 2;
      hide Rows, Pairs, Contents, Valid, HasShape;
      var hashes, currentEntries, slot := ReadCells(currentEntry.key);
      if slot == -1 {
        NoneFree(Rows(), hash, size, currentEntry.key, NUM_TABLES);
      }
      hide LastFree, Cell, Put;
      success := slot != -1;
      ghost var at;
      at, nextEntry, nextIdx := Replace(currentEntries, hashes, slot, victimIdx, currentEntry);
      WriteBack(currentEntries, hashes, at, currentEntry);
      NextVictim();
    }

    /** The entry goes into the free cell, or the victim makes room for it. */
    method Replace(currentEntries: array<Entry>, hashes: seq<nat>, slot: int, victimIdx: nat, currentEntry: Entry)
      returns (ghost at: nat, nextEntry: Entry, nextIdx: nat)
      requires currentEntries.Length == |hashes| == NUM_TABLES && -1 <= slot < NUM_TABLES && victimBit < 2
      requires victimIdx < NUM_TABLES
      modifies currentEntries
      ensures at == (if slot != -1 then slot else hashes[victimIdx] % 8 + victimBit) && at < NUM_TABLES
      ensures currentEntries[..] == old(currentEntries[..])[at := currentEntry] && nextIdx < NUM_TABLES
      ensures slot == -1 ==> nextEntry == old(currentEntries[at]) && nextIdx == (victimIdx + 1) % NUM_TABLES
    {
      nextEntry, nextIdx := currentEntry, victimIdx;
      if slot != -1 {
        at := slot;
        currentEntries[slot] := currentEntry;
      } else {
        var victimPos := hashes[victimIdx] % (NUM_TABLES - 1) + victimBit;
        at := victimPos;
        nextEntry := currentEntries[victimPos];
        currentEntries[victimPos] := currentEntry;
        nextIdx := if victimIdx + 1 == NUM_TABLES then 0 else victimIdx + 1;
      }
    }

    method NextVictim()
      requires Valid()
      modifies this`victimBit
      ensures Valid() && victimBit == 1 - old(victimBit) && Rows() == old(Rows())
    {
      victimBit := (victimBit + 1) % 2;
    }

    /** The nine cells of a key, and the last free one among them. */
    method ReadCells(key: nat) returns (hashes: seq<nat>, currentEntries: array<Entry>, slot: int)
      requires Valid()
      ensures |hashes| == NUM_TABLES == currentEntries.Length && fresh(currentEntries)
      ensures forall i :: 0 <= i < NUM_TABLES ==> hashes[i] == hash(i, key)
      ensures forall i :: 0 <= i < NUM_TABLES ==> currentEntries[i] == tables[i, hashes[i]]
      ensures forall i :: 0 <= i < NUM_TABLES ==> currentEntries[i] == Cell(Rows(), hash, size, i, key)
      ensures slot == LastFree(Rows(), hash, size, key, NUM_TABLES)
    {
      hide Rows;
      hashes := Addresses(hash, key);
      currentEntries := new Entry[NUM_TABLES](_ => Entry(0, 0, false));
      slot := -1;
      for i := 0 to NUM_TABLES
        modifies currentEntries
        invariant slot == LastFree(Rows(), hash, size, key, i)
        invariant forall k :: 0 <= k < i ==> currentEntries[k] == tables[k, hashes[k]]
      {
        currentEntries[i] := tables[i, hashes[i]];
        if !currentEntries[i].valid {
          slot := i;
        }
      }
    }

    /** All nine entries are written back; only the one at table at differs from what is there. */
    method WriteBack(currentEntries: array<Entry>, hashes: seq<nat>, ghost at: nat, ghost e: Entry)
      requires Valid() && currentEntries.Length == NUM_TABLES == |hashes| && at < NUM_TABLES
      requires forall i :: 0 <= i < NUM_TABLES ==> hashes[i] < size
      requires forall i :: 0 <= i < NUM_TABLES && i != at ==> currentEntries[i] == tables[i, hashes[i]]
      requires currentEntries[at] == e && e.valid && hashes[at] == hash(at, e.key)
      modifies tables
      ensures Valid() && Rows() == Put(old(Rows()), hash, size, at, e)
    {
      hide Rows, Pairs, Contents;
      for i := 0 to NUM_TABLES
        modifies tables
        invariant Valid()
        invariant forall k :: 0 <= k < NUM_TABLES && (k != at || i <= at) ==>
                    tables[k, hashes[k]] == old(tables[k, hashes[k]])
        invariant Rows() == if i <= at then old(Rows()) else Put(old(Rows()), hash, size, at, e)
      {
        ghost var rows := Rows();
        Write(i, hashes[i], currentEntries[i]);
        if i != at {
          SameRows(rows, i, hashes[i]);
        }
      }
    }

    lemma SameRows(rows: seq<seq<Entry>>, i: nat, a: nat)
      requires i < |rows| && a < |rows[i]|
      ensures rows[i := rows[i][a := rows[i][a]]] == rows
    {
      assert rows[i][a := rows[i][a]] == rows[i];
    }

    /**
     * Inserts a pair. On success it is there and nothing else has changed; after MAX_TRIALS evictions in a row the
     * last victim is lost.
     */
    method InsertPair(key: nat, value: nat) returns (r: Reply, regInsertFailureCount: nat)
      requires Valid()
      modifies tables, this`victimBit, this`insertFailureCounter
      ensures Valid() && Follows(old(Contents()), Insert(key, value), r, Contents())
      ensures !r.done ==> |Contents()| == |old(Contents())|
      ensures var t := Trials(old(Rows()), hash, size, Entry(key, value, true), 0, old(victimBit), 12);
              Rows() == t.rows && r.done == t.done
      ensures regInsertFailureCount == old(insertFailureCounter)
      ensures insertFailureCounter
              == (if r.done then old(insertFailureCounter) else (old(insertFailureCounter) + 1) % 0x1_0000)
    {
      hide Rows, Pairs, Trials, Put, LastFree, Cell, HasShape, Follows;
      ghost var outcome := Trials(Rows(), hash, size, Entry(key, value, true), 0, victimBit, MAX_TRIALS);
      regInsertFailureCount := insertFailureCounter;
      var currentEntry := Entry(key, value, true);
      ghost var before := Rows();
      var victimIdx: nat := 0;
      var success := false;
      var j: nat := 0;
      while j < MAX_TRIALS && !success
        modifies tables, this`victimBit
        invariant j <= MAX_TRIALS && Valid() && victimIdx < NUM_TABLES
        invariant insertFailureCounter == old(insertFailureCounter)
        invariant !success ==> currentEntry.valid
        invariant if success then Rows() == outcome.rows && outcome.done
                  else Trials(Rows(), hash, size, currentEntry, victimIdx, victimBit, MAX_TRIALS - j) == outcome
      {
        TrialsStep(Rows(), hash, size, currentEntry, victimIdx, victimBit, MAX_TRIALS - j);
        success, currentEntry, victimIdx := Trial(currentEntry, victimIdx);
        j := j + 1;
      }
      r := Reply(success, 0);
      if !success {
        TrialsEnd(Rows(), hash, size, currentEntry, victimIdx, victimBit);
        insertFailureCounter := (insertFailureCounter + 1) % 0x1_0000;
      }
      TrialsFollow(before, hash, size, key, value, 0, old(victimBit), MAX_TRIALS);
    }

    method CarryOut(op: Op) returns (r: Reply)
      requires Valid()
      modifies tables, this`victimBit, this`insertFailureCounter
      ensures Valid() && Follows(old(Contents()), op, r, Contents())
    {
      hide Valid, Contents, Follows, Rows, Answer, Trials;
      match op {
        case Lookup(key) => r := LookupKey(key);
        case Insert(key, value) =>
          var count;
          r, count := InsertPair(key, value);
        case Remove(key) => r := RemoveKey(key);
      }
    }

    /** Carries out requests in the order in which they arrive, lookups and updates mixed. */
    method Run(ops: seq<Op>) returns (replies: seq<Reply>, ghost states: seq<multiset<Pair>>)
      requires Valid()
      modifies tables, this`victimBit, this`insertFailureCounter
      ensures Valid() && IsRun(ops, replies, states)
      ensures states[0] == old(Contents()) && states[|ops|] == Contents()
    {
      assert Shape();
      hide Valid, Contents, Follows, IsRun, Rows, Pairs;
      NoSteps(Contents());
      replies, states := [], [Contents()];
      for i := 0 to |ops|
        invariant Valid() && Shape()
        invariant IsRun(ops[..i], replies, states) && |states| == i + 1
        invariant states[0] == old(Contents()) && states[i] == Contents()
      {
        var r := CarryOut(ops[i]);
        RunAppend(ops[..i], replies, states, ops[i], r, Contents());
        assert ops[..i + 1] == ops[..i] + [ops[i]];
        replies, states := replies + [r], states + [Contents()];
      }
      assert ops[..|ops|] == ops;
    }
  }

  /** A run: every reply and every next state is what the operation allows in the state before it. */
  ghost predicate IsRun(ops: seq<Op>, replies: seq<Reply>, states: seq<multiset<Pair>>)
  {
    && |replies| == |ops| && |states| == |ops| + 1
    && forall i :: 0 <= i < |ops| ==> Follows(states[i], ops[i], replies[i], states[i + 1])
  }

  lemma NoSteps(held: multiset<Pair>)
    ensures IsRun([], [], [held])
  {
  }

  lemma RunAppend(ops: seq<Op>, replies: seq<Reply>, states: seq<multiset<Pair>>, op: Op, r: Reply,
                  held: multiset<Pair>)
    requires IsRun(ops, replies, states) && Follows(states[|ops|], op, r, held)
    ensures IsRun(ops + [op], replies + [r], states + [held])
  {
    hide Follows;
  }

  // ---------------------------------------------------------------- a finite map

  /** The pairs held are exactly the pairs of a map. */
  ghost predicate Agrees(m: map<nat, nat>, held: multiset<Pair>)
  {
    forall p: Pair :: held[p] == if p.0 in m && m[p.0] == p.1 then 1 else 0
  }

  /** The operations on a map. An insertion that fails costs exactly one key with its value. */
  ghost predicate MapStep(m: map<nat, nat>, op: Op, r: Reply, m': map<nat, nat>)
  {
    match op
    case Lookup(key) => m' == m && (r.done <==> key in m) && (r.done ==> r.value == m[key])
    case Insert(key, value) =>
      if r.done then m' == m[key := value]
      else exists lost: nat :: lost in m[key := value] && m' == m[key := value] - {lost}
    case Remove(key) => (r.done <==> key in m) && m' == m - {key}
  }

  lemma StepRefines(m: map<nat, nat>, held: multiset<Pair>, op: Op, r: Reply, held': multiset<Pair>)
    returns (m': map<nat, nat>)
    requires Agrees(m, held) && Follows(held, op, r, held')
    requires op.Insert? ==> op.key !in m
    ensures MapStep(m, op, r, m') && Agrees(m', held')
  {
    match op
    case Lookup(key) =>
      KeysAgree(m, held, key);
      m' := m;
      if r.done {
        assert held[(key, r.value)] > 0;
      }
    case Insert(key, value) =>
      m' := InsertRefines(m, held, key, value, r, held');
    case Remove(key) =>
      KeysAgree(m, held, key);
      m' := m - {key};
  }

  lemma InsertRefines(m: map<nat, nat>, held: multiset<Pair>, key: nat, value: nat, r: Reply, held': multiset<Pair>)
    returns (m': map<nat, nat>)
    requires Agrees(m, held) && Follows(held, Insert(key, value), r, held') && key !in m
    ensures MapStep(m, Insert(key, value), r, m') && Agrees(m', held')
  {
    var all, sum := m[key := value], held + multiset{(key, value)};
    m' := all;
    AddRefines(m, held, key, value);
    hide Agrees;
    if !r.done {
      var lost :| LosesOne(sum, lost, held');
      LossRefines(all, sum, lost, held');
      m' := all - {lost.0};
    }
  }

  lemma AddRefines(m: map<nat, nat>, held: multiset<Pair>, key: nat, value: nat)
    requires Agrees(m, held) && key !in m
    ensures Agrees(m[key := value], held + multiset{(key, value)})
  {
  }

  lemma LossRefines(m: map<nat, nat>, held: multiset<Pair>, lost: Pair, held': multiset<Pair>)
    requires Agrees(m, held) && LosesOne(held, lost, held')
    ensures lost.0 in m && Agrees(m - {lost.0}, held')
  {
    assert held[lost] > 0;
  }

  lemma KeysAgree(m: map<nat, nat>, held: multiset<Pair>, key: nat)
    requires Agrees(m, held)
    ensures HasKey(held, key) <==> key in m
  {
    if key in m {
      assert held[(key, m[key])] == 1;
    }
    if HasKey(held, key) {
      var v: nat :| (key, v) in held;
      assert held[(key, v)] > 0;
    }
  }

  /** Over every run from empty tables in which only absent keys are inserted, the tables are a finite map. */
  lemma {:induction false} RunRefinesMap(ops: seq<Op>, replies: seq<Reply>, states: seq<multiset<Pair>>)
    returns (maps: seq<map<nat, nat>>)
    requires IsRun(ops, replies, states) && states[0] == multiset{}
    requires forall i :: 0 <= i < |ops| && ops[i].Insert? ==> !HasKey(states[i], ops[i].key)
    ensures |maps| == |ops| + 1 && maps[0] == map[]
    ensures forall i :: 0 <= i <= |ops| ==> Agrees(maps[i], states[i])
    ensures forall i :: 0 <= i < |ops| ==> MapStep(maps[i], ops[i], replies[i], maps[i + 1])
    decreases |ops|
  {
    hide Follows, MapStep;
    if ops == [] {
      maps := [map[]];
    } else {
      var n := |ops| - 1;
      var before := RunRefinesMap(ops[..n], replies[..n], states[..n + 1]);
      assert Follows(states[n], ops[n], replies[n], states[n + 1]);
      KeysAgree(before[n], states[n], ops[n].key);
      var m := StepRefines(before[n], states[n], ops[n], replies[n], states[n + 1]);
      maps := before + [m];
      forall i | 0 <= i < |ops|
        ensures MapStep(maps[i], ops[i], replies[i], maps[i + 1])
      {
        if i < n {
          assert MapStep(before[i], ops[..n][i], replies[..n][i], before[i + 1]);
        }
      }
    }
  }

  // ---------------------------------------------------------------- keys that are there already

  /** No map has a key twice. */
  lemma TwoPairs(held: multiset<Pair>, key: nat, first: nat, second: nat)
    requires held[(key, first)] >= 1 && held[(key, second)] >= (if first == second then 2 else 1)
    ensures forall m :: !Agrees(m, held)
  {
    forall m
      ensures !Agrees(m, held)
    {
      if key in m {
        var p := (key, if m[key] == first then second else first);
        assert held[p] != if m[key] == p.1 then 1 else 0;
      } else {
        assert held[(key, first)] != 0;
      }
    }
  }

  /** A successful insertion leaves a map exactly if the key was not there. */
  lemma MapAfterInsert(m: map<nat, nat>, held: multiset<Pair>, key: nat, value: nat, held': multiset<Pair>)
    requires Agrees(m, held) && Follows(held, Insert(key, value), Reply(true, 0), held')
    ensures (exists m' :: Agrees(m', held')) <==> key !in m
  {
    if key in m {
      assert held[(key, m[key])] == 1;
      TwoPairs(held', key, m[key], value);
    } else {
      AddRefines(m, held, key, value);
      assert Agrees(m[key := value], held');
    }
  }

  /** A failed one leaves a map exactly if the key was not there, or if one of its two pairs is the one that is lost. */
  lemma MapAfterLoss(m: map<nat, nat>, held: multiset<Pair>, key: nat, value: nat, lost: Pair, held': multiset<Pair>)
    requires Agrees(m, held) && LosesOne(held + multiset{(key, value)}, lost, held')
    ensures (exists m' :: Agrees(m', held')) <==> key !in m || lost.0 == key
  {
    var sum := held + multiset{(key, value)};
    if key !in m {
      AddRefines(m, held, key, value);
      LossRefines(m[key := value], sum, lost, held');
      assert Agrees(m[key := value] - {lost.0}, held');
    } else if lost.0 == key {
      var first := m[key];
      assert held[(key, first)] == 1 && sum[lost] > 0;
      assert lost.1 == first || lost.1 == value;
      var m' := m[key := if lost.1 == first then value else first];
      assert Agrees(m', held');
    } else {
      assert held[(key, m[key])] == 1;
      TwoPairs(held', key, m[key], value);
    }
  }

  /**
   * What an insertion makes of tables that stand for a map: they stand for one afterwards if and only if the key was
   * absent, or the chain of evictions, which the tables before the call determine, loses one of the key's two pairs.
   */
  lemma MapAfterTrials(m: map<nat, nat>, rows: seq<seq<Entry>>, hash: (nat, nat) -> nat, size: nat, key: nat,
                       value: nat, victimBit: nat)
    requires HasShape(rows, hash, size) && victimBit < 2 && Agrees(m, Pairs(rows))
    ensures var t := Trials(rows, hash, size, Entry(key, value, true), 0, victimBit, 12);
            (exists m' :: Agrees(m', Pairs(t.rows))) <==> key !in m || (!t.done && t.lost.key == key)
  {
    hide Trials, Pairs, HasShape, Agrees, Conserved, Follows, LosesOne;
    var t := Trials(rows, hash, size, Entry(key, value, true), 0, victimBit, MAX_TRIALS);
    TrialsConserve(rows, hash, size, Entry(key, value, true), 0, victimBit, MAX_TRIALS);
    ConservedFollows(Pairs(rows), key, value, Pairs(t.rows), t.done, t.lost);
    if t.done {
      MapAfterInsert(m, Pairs(rows), key, value, Pairs(t.rows));
    } else {
      MapAfterLoss(m, Pairs(rows), key, value, (t.lost.key, t.lost.value), Pairs(t.rows));
    }
  }

  lemma {:induction false} MatchIsValid(rows: seq<seq<Entry>>, hash: (nat, nat) -> nat, size: nat, key: nat, n: nat)
    requires HasShape(rows, hash, size) && n <= NUM_TABLES
    ensures var t := LastMatch(rows, hash, size, key, n); t != -1 ==> Cell(rows, hash, size, t, key).valid
  {
    if n > 0 {
      MatchIsValid(rows, hash, size, key, n - 1);
    }
  }

  lemma {:induction false} NotLastMatch(rows: seq<seq<Entry>>, hash: (nat, nat) -> nat, size: nat, s: nat, e: Entry,
                                        n: nat)
    requires HasShape(rows, hash, size) && s < NUM_TABLES && n <= NUM_TABLES && e.valid
    requires !Cell(rows, hash, size, s, e.key).valid
    ensures var t := LastMatch(rows, hash, size, e.key, n);
            LastMatch(Put(rows, hash, size, s, e), hash, size, e.key, n) == if s < n && t < s then s else t
  {
    if n > 0 {
      NotLastMatch(rows, hash, size, s, e, n - 1);
    }
  }

  /** With a free cell the first trial ends the insertion, in the last table with one. */
  lemma InsertIntoFree(rows: seq<seq<Entry>>, hash: (nat, nat) -> nat, size: nat, e: Entry, victimBit: nat)
    requires HasShape(rows, hash, size) && victimBit < 2
    ensures var s := LastFree(rows, hash, size, e.key, NUM_TABLES);
            s != -1 ==>
              Trials(rows, hash, size, e, 0, victimBit, MAX_TRIALS) == Inserted(Put(rows, hash, size, s, e), true, e)
  {
  }

  /**
   * A key that is held already is inserted while a cell is free for it: a lookup then answers with the new value
   * exactly if the last free table is behind the last one that holds the key, and else goes on to answer with the old
   * one.
   */
  lemma OldValueSurvives(rows: seq<seq<Entry>>, hash: (nat, nat) -> nat, size: nat, key: nat, value: nat,
                         victimBit: nat)
    requires HasShape(rows, hash, size) && victimBit < 2 && LastFree(rows, hash, size, key, NUM_TABLES) != -1
    ensures var after := Trials(rows, hash, size, Entry(key, value, true), 0, victimBit, MAX_TRIALS);
            && after.done
            && Answer(after.rows, hash, size, key) ==
               if LastFree(rows, hash, size, key, NUM_TABLES) > LastMatch(rows, hash, size, key, NUM_TABLES)
               then Reply(true, value) else Answer(rows, hash, size, key)
  {
    var e, s := Entry(key, value, true), LastFree(rows, hash, size, key, NUM_TABLES);
    InsertIntoFree(rows, hash, size, e, victimBit);
    NotLastMatch(rows, hash, size, s, e, NUM_TABLES);
    MatchIsValid(rows, hash, size, key, NUM_TABLES);
    hide LastFree, LastMatch, Trials;
  }
}

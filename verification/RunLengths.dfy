/** Run-length coding of code lengths with the repeat codes 16, 17 and 18. */
module RunLengths {

  /** A code length, or a repetition: of the previous length, or of zeros. */
  datatype Run = Len(v: nat) | Again(n: nat) | Zeros(n: nat) | ManyZeros(n: nat)

  /** What fits the format: 4-bit lengths, repeat counts of 2, 3 and 7 extra bits, and something to repeat. */
  predicate ValidRun(have: nat, r: Run)
  {
    match r
    case Len(v) => v <= 15
    case Again(n) => 3 <= n <= 6 && have > 0
    case Zeros(n) => 3 <= n <= 10
    case ManyZeros(n) => 11 <= n <= 138
  }

  function Fill(v: nat, n: nat): (r: seq<nat>)
    ensures |r| == n && forall i :: 0 <= i < n ==> r[i] == v
  {
    seq(n, _ => v)
  }

  function ApplyRun(have: seq<nat>, r: Run): (s: seq<nat>)
    requires ValidRun(|have|, r)
    ensures |s| > |have|
  {
    match r
    case Len(v) => have + [v]
    case Again(n) => have + Fill(have[|have| - 1], n)
    case Zeros(n) => have + Fill(0, n)
    case ManyZeros(n) => have + Fill(0, n)
  }

  predicate ValidRuns(have: seq<nat>, rs: seq<Run>)
    decreases |rs|
  {
    rs == [] || (ValidRun(|have|, rs[0]) && ValidRuns(ApplyRun(have, rs[0]), rs[1..]))
  }

  function ExpandRuns(have: seq<nat>, rs: seq<Run>): (s: seq<nat>)
    requires ValidRuns(have, rs)
    ensures |s| >= |have| && (rs != [] ==> |s| > |have|)
    decreases |rs|
  {
    if rs == [] then have else ExpandRuns(ApplyRun(have, rs[0]), rs[1..])
  }

  lemma {:induction false} ExpandRunsAppend(have: seq<nat>, rs: seq<Run>, r: Run)
    requires ValidRuns(have, rs) && ValidRun(|ExpandRuns(have, rs)|, r)
    ensures ValidRuns(have, rs + [r])
    ensures ExpandRuns(have, rs + [r]) == ApplyRun(ExpandRuns(have, rs), r)
    decreases |rs|
  {
    if rs == [] {
      assert ([] + [r])[1..] == [];
      assert ExpandRuns(ApplyRun(have, r), []) == ApplyRun(have, r);
    } else {
      assert (rs + [r])[1..] == rs[1..] + [r];
      ExpandRunsAppend(ApplyRun(have, rs[0]), rs[1..], r);
    }
  }

  /** The values that stand for a run in the encoder's list: the code, then its repeat field. */
  function FlatRun(r: Run): seq<nat>
  {
    match r
    case Len(v) => [v]
    case Again(n) => if n >= 3 then [16, n - 3] else []
    case Zeros(n) => if n >= 3 then [17, n - 3] else []
    case ManyZeros(n) => if n >= 11 then [18, n - 11] else []
  }

  function FlatRuns(rs: seq<Run>): seq<nat>
  {
    if rs == [] then [] else FlatRuns(rs[..|rs| - 1]) + FlatRun(rs[|rs| - 1])
  }

  lemma FlatRunsAppend(rs: seq<Run>, r: Run)
    ensures FlatRuns(rs + [r]) == FlatRuns(rs) + FlatRun(r)
  {
    assert (rs + [r])[..|rs|] == rs;
  }

  // ---------------------------------------------------------------- the encoder's loop

  /** The runs written so far stand for the first i lengths. */
  ghost predicate Coded(bitlen: seq<nat>, i: nat, e: seq<nat>, rs: seq<Run>)
  {
    i <= |bitlen| && e == FlatRuns(rs) && ValidRuns([], rs) && ExpandRuns([], rs) == bitlen[..i]
  }

  /** One more run continues the coded lengths. */
  lemma CodedNext(bitlen: seq<nat>, i: nat, e: seq<nat>, rs: seq<Run>, r: Run, n: nat)
    requires Coded(bitlen, i, e, rs) && ValidRun(i, r)
    requires i + n <= |bitlen| && bitlen[..i + n] == ApplyRun(bitlen[..i], r)
    ensures Coded(bitlen, i + n, e + FlatRun(r), rs + [r])
  {
    ExpandRunsAppend([], rs, r);
    FlatRunsAppend(rs, r);
  }

  /** Codes a list of code lengths. The list may run from one alphabet into the next. */
  method EncodeRuns(bitlen: seq<nat>) returns (e: seq<nat>, ghost rs: seq<Run>)
    requires forall k :: 0 <= k < |bitlen| ==> bitlen[k] <= 15
    ensures e == FlatRuns(rs) && ValidRuns([], rs) && ExpandRuns([], rs) == bitlen
  {
    e, rs := [], [];
    assert Coded(bitlen, 0, e, rs);
    hide FlatRuns, ExpandRuns, ValidRuns, Coded;
    var i: nat := 0;
    while i < |bitlen|
      invariant Coded(bitlen, i, e, rs)
    {
      var j: nat := 0;
      while i + j + 1 < |bitlen| && bitlen[i + j + 1] == bitlen[i]
        invariant i + j < |bitlen| && forall k :: i <= k <= i + j ==> bitlen[k] == bitlen[i]
      {
        j := j + 1;
      }
      if bitlen[i] == 0 && j >= 2 {
        e, rs, i := EncodeZeros(bitlen, i, j, e, rs);
      } else if j >= 3 {
        e, rs, i := EncodeRepeats(bitlen, i, j, e, rs);
      } else {
        CodedOne(bitlen, i, e, rs);
        e, rs := e + [bitlen[i]], rs + [Len(bitlen[i])];
      }
      i := i + 1;
    }
    AllCoded(bitlen, i, e, rs);
  }

  lemma CodedOne(bitlen: seq<nat>, i: nat, e: seq<nat>, rs: seq<Run>)
    requires Coded(bitlen, i, e, rs) && i < |bitlen| && bitlen[i] <= 15
    ensures Coded(bitlen, i + 1, e + [bitlen[i]], rs + [Len(bitlen[i])])
  {
    assert bitlen[..i + 1] == bitlen[..i] + [bitlen[i]];
    CodedNext(bitlen, i, e, rs, Len(bitlen[i]), 1);
  }

  lemma AllCoded(bitlen: seq<nat>, i: nat, e: seq<nat>, rs: seq<Run>)
    requires Coded(bitlen, i, e, rs) && i >= |bitlen|
    ensures e == FlatRuns(rs) && ValidRuns([], rs) && ExpandRuns([], rs) == bitlen
  {
    assert bitlen[..|bitlen|] == bitlen;
  }

  /** A zero followed by j zeros: at most 138 of them in one run. */
  method EncodeZeros(bitlen: seq<nat>, i: nat, more: nat, e: seq<nat>, ghost rs: seq<Run>)
    returns (e': seq<nat>, ghost rs': seq<Run>, i': nat)
    requires Coded(bitlen, i, e, rs) && more >= 2 && i + more < |bitlen|
    requires forall k :: i <= k <= i + more ==> bitlen[k] == 0
    ensures i' == (if more < 138 then i + more else i + 137) && Coded(bitlen, i' + 1, e', rs')
  {
    var j := more + 1;
    ghost var r;
    if j <= 10 {
      r := Zeros(j);
      e' := e + [17] + [j - 3];
    } else {
      if j > 138 {
        j := 138;
      }
      r := ManyZeros(j);
      e' := e + [18] + [j - 11];
    }
    assert e' == e + FlatRun(r);
    assert bitlen[..i + j] == bitlen[..i] + Fill(0, j);
    CodedNext(bitlen, i, e, rs, r, j);
    rs' := rs + [r];
    i' := i + (j - 1);
  }

  /** A length followed by j equal ones: the length itself, then repetitions of it, six at a time. */
  method EncodeRepeats(bitlen: seq<nat>, i: nat, j: nat, e: seq<nat>, ghost rs: seq<Run>)
    returns (e': seq<nat>, ghost rs': seq<Run>, i': nat)
    requires Coded(bitlen, i, e, rs) && j >= 3 && i + j < |bitlen| && bitlen[i] <= 15
    requires forall k :: i <= k <= i + j ==> bitlen[k] == bitlen[i]
    ensures i <= i' <= i + j && Coded(bitlen, i' + 1, e', rs')
    ensures i' == if j % 6 >= 3 then i + j else i + j - j % 6
  {
    hide Coded;
    var num, rest := j / 6, j % 6;
    CodedOne(bitlen, i, e, rs);
    e', rs' := e + [bitlen[i]], rs + [Len(bitlen[i])];
    ghost var at := i + 1;
    for k := 0 to num
      invariant at == i + 1 + 6 * k && Coded(bitlen, at, e', rs')
    {
      RepeatOnce(bitlen, i, j, at, 6, e', rs');
      e', rs' := e' + [16] + [6 - 3], rs' + [Again(6)];
      at := at + 6;
    }
    if rest >= 3 {
      RepeatOnce(bitlen, i, j, at, rest, e', rs');
      e', rs' := e' + [16] + [rest - 3], rs' + [Again(rest)];
      i' := i + j;
    } else {
      i' := i + (j - rest);
    }
  }

  lemma RepeatOnce(bitlen: seq<nat>, i: nat, j: nat, at: nat, n: nat, e: seq<nat>, rs: seq<Run>)
    requires Coded(bitlen, at, e, rs) && 3 <= n <= 6
    requires i < at && at + n <= i + j + 1 <= |bitlen|
    requires forall k :: i <= k <= i + j ==> bitlen[k] == bitlen[i]
    ensures Coded(bitlen, at + n, e + [16] + [n - 3], rs + [Again(n)])
  {
    assert bitlen[..at][at - 1] == bitlen[i];
    assert bitlen[..at + n] == bitlen[..at] + Fill(bitlen[i], n);
    CodedNext(bitlen, at, e, rs, Again(n), n);
    assert e + [16] + [n - 3] == e + [16, n - 3];
  }
}

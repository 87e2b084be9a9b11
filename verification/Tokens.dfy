/** LZ77 tokens: what they expand to, and how they are written as length and distance symbols. */
module Tokens {
  import Powers
  import opened Bits

  const FIRST_LENGTH_CODE_INDEX: nat := 257
  const LAST_LENGTH_CODE_INDEX: nat := 285

  const LENGTHBASE: seq<nat> := [
    3, 4, 5, 6, 7, 8, 9, 10, 11, 13, 15, 17, 19, 23, 27, 31, 35, 43, 51, 59, 67, 83, 99, 115, 131, 163, 195, 227, 258]

  const LENGTHEXTRA: seq<nat> := [
    0, 0, 0, 0, 0, 0, 0, 0, 1, 1, 1, 1, 2, 2, 2, 2, 3, 3, 3, 3, 4, 4, 4, 4, 5, 5, 5, 5, 0]

  const DISTANCEBASE: seq<nat> := [
    1, 2, 3, 4, 5, 7, 9, 13, 17, 25, 33, 49, 65, 97, 129, 193, 257, 385, 513, 769, 1025, 1537, 2049, 3073, 4097, 6145,
    8193, 12289, 16385, 24577]

  const DISTANCEEXTRA: seq<nat> := [
    0, 0, 0, 0, 1, 1, 2, 2, 3, 3, 4, 4, 5, 5, 6, 6, 7, 7, 8, 8, 9, 9, 10, 10, 11, 11, 12, 12, 13, 13]

  const MAX_SUPPORTED_DEFLATE_LENGTH: nat := 258

  // ---------------------------------------------------------------- meaning

  datatype Token = Literal(b: byte) | Copy(length: nat, distance: nat)

  /** A token that the format can hold, after some bytes are already there. */
  predicate ValidToken(have: nat, t: Token)
  {
    match t
    case Literal(_) => true
    case Copy(length, distance) => 3 <= length <= 258 && 1 <= distance <= 32768 && distance <= have
  }

  /** Repeats length bytes from distance back; the source may run into the bytes just produced. */
  function CopyBack(hist: seq<byte>, length: nat, distance: nat): (r: seq<byte>)
    requires 1 <= distance <= |hist|
    ensures |r| == |hist| + length && r[..|hist|] == hist
    decreases length
  {
    if length == 0 then hist
    else
      var r := CopyBack(hist + [hist[|hist| - distance]], length - 1, distance);
      assert r[..|hist|] == r[..|hist| + 1][..|hist|];
      r
  }

  function Apply(hist: seq<byte>, t: Token): (r: seq<byte>)
    requires ValidToken(|hist|, t)
    ensures |r| >= |hist| && r[..|hist|] == hist
  {
    match t
    case Literal(b) => hist + [b]
    case Copy(length, distance) => CopyBack(hist, length, distance)
  }

  predicate ValidTokens(hist: seq<byte>, toks: seq<Token>)
    decreases |toks|
  {
    toks == [] || (ValidToken(|hist|, toks[0]) && ValidTokens(Apply(hist, toks[0]), toks[1..]))
  }

  /** The bytes after expanding all tokens, history included. */
  function Expand(hist: seq<byte>, toks: seq<Token>): (r: seq<byte>)
    requires ValidTokens(hist, toks)
    ensures |r| >= |hist|
    decreases |toks|
  {
    if toks == [] then hist else Expand(Apply(hist, toks[0]), toks[1..])
  }

  lemma {:induction false} ExpandAppend(hist: seq<byte>, toks: seq<Token>, t: Token)
    requires ValidTokens(hist, toks) && ValidToken(|Expand(hist, toks)|, t)
    ensures ValidTokens(hist, toks + [t])
    ensures Expand(hist, toks + [t]) == Apply(Expand(hist, toks), t)
    decreases |toks|
  {
    if toks == [] {
      assert ([] + [t])[1..] == [];
      assert Expand(Apply(hist, t), []) == Apply(hist, t);
    } else {
      assert (toks + [t])[1..] == toks[1..] + [t];
      ExpandAppend(Apply(hist, toks[0]), toks[1..], t);
    }
  }

  /** The closed form of a copy: the last distance bytes over and over. */
  lemma {:induction false} CopyAt(hist: seq<byte>, length: nat, distance: nat, k: nat)
    requires 1 <= distance <= |hist| && k < length
    ensures 0 <= |hist| - distance + k % distance < |hist|
    ensures CopyBack(hist, length, distance)[|hist| + k] == hist[|hist| - distance + k % distance]
    decreases length
  {
    var next := hist + [hist[|hist| - distance]];
    var r := CopyBack(next, length - 1, distance);
    if k == 0 {
      assert 0 % distance == 0;
      assert r[..|next|][|hist|] == next[|hist|];
    } else {
      CopyAt(next, length - 1, distance, k - 1);
      ModNext(k - 1, distance);
    }
  }

  lemma ModNext(k: nat, d: nat)
    requires d > 0
    ensures (k + 1) % d == if k % d == d - 1 then 0 else k % d + 1
  {
    var q, r := k / d, k % d;
    assert k + 1 == d * q + (r + 1);
    if r == d - 1 {
      assert k + 1 == d * (q + 1) + 0;
      Powers.DivUnique(k + 1, d, q + 1, 0);
    } else {
      Powers.DivUnique(k + 1, d, q, r + 1);
    }
  }

  /** The text from p to p + length equals the text distance bytes earlier. */
  ghost predicate Repeats(text: seq<byte>, p: nat, length: nat, distance: nat)
  {
    p + length <= |text| && 1 <= distance <= p && forall i :: p <= i < p + length ==> text[i] == text[i - distance]
  }

  /** Where a text repeats itself, a copy reproduces it. */
  lemma {:induction false} CopyMatches(text: seq<byte>, p: nat, length: nat, distance: nat)
    requires Repeats(text, p, length, distance)
    ensures CopyBack(text[..p], length, distance) == text[..p + length]
    decreases length
  {
    if length > 0 {
      assert text[p] == text[p - distance];
      assert text[..p] + [text[p]] == text[..p + 1];
      CopyMatches(text, p + 1, length - 1, distance);
    }
  }

  // ---------------------------------------------------------------- symbols

  /** The index of the largest base that is at most the value. */
  function CodeIndex(base: seq<nat>, value: nat): (r: nat)
    requires base != []
    ensures r < |base|
  {
    if |base| == 1 || base[|base| - 1] <= value then |base| - 1 else CodeIndex(base[..|base| - 1], value)
  }

  ghost predicate Increasing(s: seq<nat>)
  {
    forall i, j :: 0 <= i < j < |s| ==> s[i] < s[j]
  }

  lemma {:induction false} CodeIndexIs(base: seq<nat>, value: nat, r: nat)
    requires Increasing(base) && r < |base| && base[r] <= value && (r + 1 < |base| ==> value < base[r + 1])
    ensures CodeIndex(base, value) == r
  {
    if r + 1 < |base| {
      var front := base[..|base| - 1];
      assert base[|base| - 1] > value;
      CodeIndexIs(front, value, r);
    }
  }

  /** Binary search. A value below the first base gives the last index. */
  method SearchCodeIndex(base: seq<nat>, value: nat) returns (r: nat)
    requires base != [] && Increasing(base)
    ensures r < |base|
    ensures base[0] <= value ==> base[r] <= value && (r + 1 < |base| ==> value < base[r + 1])
    ensures base[0] <= value ==> r == CodeIndex(base, value)
    ensures value < base[0] ==> r == |base| - 1
  {
    var left: nat, right: nat := 1, |base| - 1;
    while left <= right
      invariant 1 <= left <= |base| && right < |base|
      invariant base[0] <= value ==> base[left - 1] <= value
      invariant right + 1 < |base| ==> value < base[right]
      decreases right + 1 - left
    {
      var mid := (left + right) / 2;
      if base[mid] <= value {
        left := mid + 1;
      } else if base[mid - 1] > value {
        right := mid - 1;
      } else {
        CodeIndexIs(base, value, mid - 1);
        return mid - 1;
      }
    }
    r := |base| - 1;
    if base[0] <= value {
      CodeIndexIs(base, value, r);
    }
  }

  lemma TablesIncrease()
    ensures Increasing(LENGTHBASE) && Increasing(DISTANCEBASE)
    ensures |LENGTHBASE| == |LENGTHEXTRA| == 29 && |DISTANCEBASE| == |DISTANCEEXTRA| == 30
  {
    assert forall i :: 0 <= i < 28 ==> LENGTHBASE[i] < LENGTHBASE[i + 1];
    assert forall i :: 0 <= i < 29 ==> DISTANCEBASE[i] < DISTANCEBASE[i + 1];
    StepsIncrease(LENGTHBASE);
    StepsIncrease(DISTANCEBASE);
  }

  lemma {:induction false} StepsIncrease(s: seq<nat>)
    requires forall i :: 0 <= i < |s| - 1 ==> s[i] < s[i + 1]
    ensures Increasing(s)
  {
    if |s| > 1 {
      StepsIncrease(s[..|s| - 1]);
      forall i, j | 0 <= i < j < |s|
        ensures s[i] < s[j]
      {
        assert i < |s| - 2 ==> s[..|s| - 1][i] < s[..|s| - 1][|s| - 2];
      }
    }
  }

  /** The values that stand for a token in the encoder's list. */
  function Flat(t: Token): seq<nat>
  {
    match t
    case Literal(b) => [b]
    case Copy(length, distance) =>
      var l, d := CodeIndex(LENGTHBASE, length), CodeIndex(DISTANCEBASE, distance);
      if LENGTHBASE[l] <= length && DISTANCEBASE[d] <= distance then
        [l + FIRST_LENGTH_CODE_INDEX, length - LENGTHBASE[l], d, distance - DISTANCEBASE[d]]
      else []
  }

  function FlatAll(toks: seq<Token>): seq<nat>
  {
    if toks == [] then [] else FlatAll(toks[..|toks| - 1]) + Flat(toks[|toks| - 1])
  }

  lemma FlatAllAppend(toks: seq<Token>, t: Token)
    ensures FlatAll(toks + [t]) == FlatAll(toks) + Flat(t)
  {
    assert (toks + [t])[..|toks|] == toks;
  }

  /** Every admissible length and distance has a symbol whose extra bits hold the rest. */
  lemma TokenFits(length: nat, distance: nat)
    requires 3 <= length <= 258 && 1 <= distance <= 32768
    ensures var l, d := CodeIndex(LENGTHBASE, length), CodeIndex(DISTANCEBASE, distance);
            && l < 29 && d < 30
            && LENGTHBASE[l] <= length && DISTANCEBASE[d] <= distance
            && length - LENGTHBASE[l] < Powers.Pow2(LENGTHEXTRA[l])
            && distance - DISTANCEBASE[d] < Powers.Pow2(DISTANCEEXTRA[d])
  {
    LengthFits(length);
    DistanceFits(distance);
  }

  lemma LengthFits(length: nat)
    requires 3 <= length <= 258
    ensures var l := CodeIndex(LENGTHBASE, length);
            l < 29 && LENGTHBASE[l] <= length && length - LENGTHBASE[l] < Powers.Pow2(LENGTHEXTRA[l])
  {
    var l := Locate(LENGTHBASE, length, 28);
    if l < 28 {
      LengthGaps(l);
    }
  }

  lemma DistanceFits(distance: nat)
    requires 1 <= distance <= 32768
    ensures var d := CodeIndex(DISTANCEBASE, distance);
            d < 30 && DISTANCEBASE[d] <= distance && distance - DISTANCEBASE[d] < Powers.Pow2(DISTANCEEXTRA[d])
  {
    var d := Locate(DISTANCEBASE, distance, 29);
    DistanceGaps(d);
  }

  /** The index found is the last one at most the value. */
  lemma {:induction false} Locate(base: seq<nat>, value: nat, n: nat) returns (r: nat)
    requires Increasing(base) && n < |base| && base[0] <= value
    requires n + 1 < |base| ==> value < base[n + 1]
    ensures r == CodeIndex(base, value) && r <= n
    ensures base[r] <= value && (r + 1 < |base| ==> value < base[r + 1])
  {
    if base[n] <= value {
      r := n;
      CodeIndexIs(base, value, n);
    } else {
      r := Locate(base, value, n - 1);
    }
  }

  /** The lengths of section 3.2.5 of RFC 1951: eight without extra bits, then four for each number of bits, and 258. */
  lemma LengthTable(l: nat)
    requires l <= 28
    ensures l < 8 ==> LENGTHEXTRA[l] == 0 && LENGTHBASE[l] == 3 + l
    ensures 8 <= l < 28 ==> LENGTHEXTRA[l] == l / 4 - 1 && LENGTHBASE[l] == 3 + (4 + l % 4) * Powers.Pow2(l / 4 - 1)
    ensures l == 28 ==> LENGTHEXTRA[l] == 0 && LENGTHBASE[l] == 258
  {
    Pow2Bytes();
    hide Powers.Pow2;
    if l < 16 {
    } else {
    }
  }

  /** And its distances: four without extra bits, then two for each number of bits. */
  lemma DistanceTable(d: nat)
    requires d <= 29
    ensures d < 4 ==> DISTANCEEXTRA[d] == 0 && DISTANCEBASE[d] == 1 + d
    ensures d >= 4 ==>
              DISTANCEEXTRA[d] == d / 2 - 1 && DISTANCEBASE[d] == 1 + (2 + d % 2) * Powers.Pow2(d / 2 - 1)
  {
    Pow2Bytes();
    LargePowers();
    hide Powers.Pow2;
    if d < 10 {
    } else if d < 20 {
    } else {
    }
  }

  /** Every length below 258 has one symbol and one value of its extra bits only. */
  lemma OneLengthSymbol(l: nat, x: nat, l': nat, x': nat)
    requires l <= 28 && x < Powers.Pow2(LENGTHEXTRA[l]) && l' <= 28 && x' < Powers.Pow2(LENGTHEXTRA[l'])
    requires LENGTHBASE[l] + x == LENGTHBASE[l'] + x' < 258
    ensures l == l' && x == x'
  {
    TablesIncrease();
    if l < 27 {
      LengthStep(l);
    }
    if l' < 27 {
      LengthStep(l');
    }
    hide LENGTHEXTRA;
  }

  lemma LengthStep(l: nat)
    requires l < 27
    ensures LENGTHBASE[l + 1] == LENGTHBASE[l] + Powers.Pow2(LENGTHEXTRA[l])
  {
    Pow2Bytes();
    hide Powers.Pow2;
    if l < 14 {
    } else {
    }
  }

  /** And so has every distance. */
  lemma OneDistanceSymbol(d: nat, y: nat, d': nat, y': nat)
    requires d <= 29 && y < Powers.Pow2(DISTANCEEXTRA[d]) && d' <= 29 && y' < Powers.Pow2(DISTANCEEXTRA[d'])
    requires DISTANCEBASE[d] + y == DISTANCEBASE[d'] + y'
    ensures d == d' && y == y'
  {
    TablesIncrease();
    if d < 29 {
      DistanceStep(d);
    }
    if d' < 29 {
      DistanceStep(d');
    }
    hide DISTANCEEXTRA, Powers.Pow2;
  }

  lemma DistanceStep(d: nat)
    requires d < 29
    ensures DISTANCEBASE[d + 1] == DISTANCEBASE[d] + Powers.Pow2(DISTANCEEXTRA[d])
  {
    Pow2Bytes();
    LargePowers();
    hide Powers.Pow2;
    if d < 10 {
    } else if d < 20 {
    } else {
    }
  }

  /** Neighbouring bases are at most 2^extra apart, so the extra bits reach every value between them. */
  lemma LengthGaps(l: nat)
    requires l < 28
    ensures LENGTHBASE[l + 1] - LENGTHBASE[l] <= Powers.Pow2(LENGTHEXTRA[l])
  {
    if l < 27 {
      LengthStep(l);
    } else {
      Pow2Bytes();
    }
  }

  lemma DistanceGaps(d: nat)
    requires d < 30
    ensures (if d == 29 then 32769 else DISTANCEBASE[d + 1]) - DISTANCEBASE[d] <= Powers.Pow2(DISTANCEEXTRA[d])
  {
    if d < 29 {
      DistanceStep(d);
    } else {
      LargePowers();
    }
  }

  lemma LargePowers()
    ensures Powers.Pow2(9) == 512 && Powers.Pow2(10) == 1024 && Powers.Pow2(11) == 2048
    ensures Powers.Pow2(12) == 4096 && Powers.Pow2(13) == 8192
  {
    Pow2Bytes();
    assert Powers.Pow2(10) == 1024;
    assert Powers.Pow2(12) == 4096;
  }
}

/** The Adler-32 checksum with the modulus deferred for 5550 bytes. */
module Adler {
  import Powers
  import opened Bits

  const BASE: nat := 65521

  /** One byte more, with the modulus. */
  function Next(s: (nat, nat), d: byte): (r: (nat, nat))
    ensures r.0 < BASE && r.1 < BASE
  {
    ((s.0 + d) % BASE, (s.1 + (s.0 + d) % BASE) % BASE)
  }

  /** Both sums with the modulus taken after every byte, section 8.2 of RFC 1950. */
  function Sums(s1: nat, s2: nat, data: seq<byte>): (nat, nat)
  {
    if data == [] then (s1, s2) else Next(Sums(s1, s2, data[..|data| - 1]), data[|data| - 1])
  }

  /** The checksum of a text in two parts: the second part continues the first. */
  lemma {:induction false} SumsAppend(s1: nat, s2: nat, a: seq<byte>, b: seq<byte>)
    ensures var s := Sums(s1, s2, a); Sums(s1, s2, a + b) == Sums(s.0, s.1, b)
  {
    if b == [] {
      assert a + b == a;
    } else {
      SumsAppend(s1, s2, a, b[..|b| - 1]);
      assert (a + b)[..|a + b| - 1] == a + b[..|b| - 1];
    }
  }

  /** With this, the sums of one byte determine those of every text. */
  lemma SumsOfByte(s1: nat, s2: nat, d: byte)
    ensures Sums(s1, s2, []) == (s1, s2)
    ensures Sums(s1, s2, [d]) == ((s1 + d) % 65521, (s2 + (s1 + d) % 65521) % 65521)
  {
    assert [d][..0] == [];
  }

  /** A deferred modulus is not missed later. */
  lemma Deferred(s1: nat, s2: nat, a: nat, b: nat, d: byte)
    requires s1 % BASE == a % BASE && s2 % BASE == b % BASE
    ensures var s := Next((a, b), d);
            (s1 + d) % BASE == s.0 == s.0 % BASE && (s2 + (s1 + d)) % BASE == s.1 == s.1 % BASE
  {
    var q, p := s1 / BASE - a / BASE, s2 / BASE - b / BASE;
    assert s1 == a + BASE * q && s2 == b + BASE * p;
    SameResidue(a + d, s1 + d, q);
    var r := (a + d) / BASE;
    assert a + d == BASE * r + (a + d) % BASE;
    SameResidue(b + (a + d) % BASE, s2 + (s1 + d), p + q + r);
  }

  lemma SameResidue(x: nat, y: nat, k: int)
    requires y == x + BASE * k
    ensures x % BASE == y % BASE
  {
  }

  /** The largest values the sums can reach in a block of k bytes. */
  function Limit(k: nat): (nat, nat)
  {
    if k == 0 then (65535, 65535) else (Limit(k - 1).0 + 255, Limit(k - 1).1 + Limit(k - 1).0 + 255)
  }

  lemma {:induction false} LimitIs(k: nat)
    ensures Limit(k).0 == 65535 + 255 * k
    ensures 2 * Limit(k).1 == 131070 + 131070 * k + 255 * (k * k + k)
  {
    if k > 0 {
      LimitIs(k - 1);
      assert k * k == (k - 1) * (k - 1) + 2 * (k - 1) + 1;
    }
  }

  /** In 5550 steps, from whatever 16-bit values, neither sum leaves 32 bits. */
  lemma NoOverflow(k: nat)
    requires k <= 5550
    ensures Limit(k).0 < 0x1_0000_0000 && Limit(k).1 < 0x1_0000_0000
  {
    LimitIs(k);
    assert k * k <= 5550 * 5550 by { Square(k); }
  }

  lemma Square(k: nat)
    requires k <= 5550
    ensures k * k <= 5550 * 5550
  {
    Powers.MulMonotone(k, k, 5550);
    Powers.MulMonotone(5550, k, 5550);
  }

  type uint32 = x: int | 0 <= x < 0x1_0000_0000

  /** The sums stay in 32-bit variables, and the result is that of the modulus after every byte. */
  method UpdateAdler32(adler: uint32, data: seq<byte>) returns (r: uint32)
    ensures data == [] ==> r == adler
    ensures data != [] ==>
              var s := Sums(adler % 65536, adler / 65536, data);
              s.0 < BASE && s.1 < BASE && r == s.1 * 65536 + s.0
  {
    hide Limit;
    var s1: uint32, s2: uint32 := adler % 65536, adler / 65536;
    var len: nat, at: nat := |data|, 0;
    while len > 0
      invariant at + len == |data| && s1 < 65536 && s2 < 65536
      invariant at == 0 ==> s1 == adler % 65536 && s2 == adler / 65536
      invariant at > 0 ==> (s1, s2) == Sums(adler % 65536, adler / 65536, data[..at]) && s1 < BASE && s2 < BASE
    {
      assert data[..0] == [];
      s1, s2, at, len := AddBlock(adler, data, s1, s2, at, len);
    }
    assert data[..|data|] == data;
    r := s2 * 65536 + s1;
  }

  /** Sums whose modulus was left out, and those with it. */
  predicate Congruent(s1: nat, s2: nat, s: (nat, nat))
  {
    s1 % BASE == s.0 % BASE && s2 % BASE == s.1 % BASE
  }

  lemma CongruentStart(s1: nat, s2: nat)
    ensures Congruent(s1, s2, (s1, s2))
  {
  }

  lemma CongruentNext(s1: nat, s2: nat, s: (nat, nat), d: byte)
    requires Congruent(s1, s2, s)
    ensures Congruent(s1 + d, s2 + (s1 + d), Next(s, d))
  {
    Deferred(s1, s2, s.0, s.1, d);
  }

  lemma CongruentEnd(s1: nat, s2: nat, s: (nat, nat))
    requires Congruent(s1, s2, s) && s.0 < BASE && s.1 < BASE
    ensures (s1 % BASE, s2 % BASE) == s
  {
  }

  method AddBlock(ghost adler: uint32, data: seq<byte>, start1: uint32, start2: uint32, at: nat, len: nat)
    returns (s1: uint32, s2: uint32, at': nat, len': nat)
    requires 0 < len && at + len == |data| && start1 < 65536 && start2 < 65536
    requires (start1, start2) == Sums(adler % 65536, adler / 65536, data[..at])
    ensures at < at' && at' + len' == |data| && s1 < BASE && s2 < BASE
    ensures (s1, s2) == Sums(adler % 65536, adler / 65536, data[..at'])
  {
    hide Limit, Sums, Next, Congruent;
    CongruentStart(start1, start2);
    s1, s2, at' := start1, start2, at;
    var amount := if len > 5550 then 5550 else len;
    len' := len - amount;
    ghost var total := amount;
    assert Limit(0) == (65535, 65535) by { LimitIs(0); }
    while amount > 0
      invariant 0 <= amount <= total && at' == at + (total - amount) <= |data|
      invariant s1 <= Limit(total - amount).0 && s2 <= Limit(total - amount).1
      invariant var s := Sums(adler % 65536, adler / 65536, data[..at']);
                Congruent(s1, s2, s) && (at' > at ==> s.0 < BASE && s.1 < BASE)
    {
      ghost var k := total - amount;
      NoOverflow(k + 1);
      NextLimit(k);
      SumsNext(adler % 65536, adler / 65536, data, at');
      ghost var s := Sums(adler % 65536, adler / 65536, data[..at']);
      CongruentNext(s1, s2, s, data[at']);
      s1 := s1 + data[at'];
      s2 := s2 + s1;
      at' := at' + 1;
      amount := amount - 1;
    }
    CongruentEnd(s1, s2, Sums(adler % 65536, adler / 65536, data[..at']));
    s1 := s1 % BASE;
    s2 := s2 % BASE;
  }

  lemma SumsNext(s1: nat, s2: nat, data: seq<byte>, at: nat)
    requires at < |data|
    ensures Sums(s1, s2, data[..at + 1]) == Next(Sums(s1, s2, data[..at]), data[at])
  {
    assert data[..at + 1][..at] == data[..at];
  }

  lemma NextLimit(k: nat)
    ensures Limit(k + 1) == (Limit(k).0 + 255, Limit(k).1 + Limit(k).0 + 255)
  {
  }

  method Adler32(data: seq<byte>) returns (r: uint32)
    ensures var s := Sums(1, 0, data); r == s.1 * 65536 + s.0
  {
    r := UpdateAdler32(1, data);
  }
}

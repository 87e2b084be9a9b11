/** Adam7 interlacing, clause 8 of the PNG specification, second edition: seven passes over one image. */
module Adam7 {
  import opened Powers

  const ADAM7_IX: seq<nat> := [0, 4, 0, 2, 0, 1, 0]
  const ADAM7_IY: seq<nat> := [0, 0, 4, 0, 2, 0, 1]
  const ADAM7_DX: seq<nat> := [8, 8, 4, 4, 2, 2, 1]
  const ADAM7_DY: seq<nat> := [8, 8, 8, 4, 4, 2, 2]

  /** A pixel of a reduced image. */
  datatype Spot = Spot(pass: nat, y: nat, x: nat)

  // ---------------------------------------------------------------- the seven reduced images

  /** How many of 0..n-1 are o, o + d, o + 2d, ... */
  function Count(n: nat, d: nat, o: nat): nat
    requires o < d
  {
    (n + d - o - 1) / d
  }

  lemma CountIs(n: nat, d: nat, o: nat, k: nat)
    requires o < d
    ensures k < Count(n, d, o) <==> o + k * d < n
  {
    var m := n + d - o - 1;
    var q, r := m / d, m % d;
    assert m == d * q + r;
    if k < q {
      MulMonotone(d, k + 1, q);
      assert d * (k + 1) == k * d + d;
    } else {
      MulMonotone(d, q, k);
      assert d * k == k * d;
    }
  }

  /** Every other one of the numbers counted, and the others. */
  lemma CountHalves(n: nat, d: nat, o: nat)
    requires o < d
    ensures Count(n, 2 * d, o) + Count(n, 2 * d, o + d) == Count(n, d, o)
  {
    Halves(n + d - o - 1, d);
  }

  lemma Halves(m: nat, d: nat)
    requires d > 0
    ensures m / (2 * d) + (m + d) / (2 * d) == m / d
  {
    var q, r := m / d, m % d;
    assert m == d * q + r;
    OneMore(q, d);
    assert m + d == d * (q + 1) + r;
    DivUnique(m + d, d, q + 1, r);
    DivMul(m, d, 2);
    DivMul(m + d, d, 2);
    assert d * 2 == 2 * d;
    HalfAndHalf(q);
  }

  lemma HalfAndHalf(q: nat)
    ensures q / 2 + (q + 1) / 2 == q
  {
  }

  function PassW(i: nat, w: nat, h: nat): (r: nat)
    requires i < 7
  {
    var a, b := Count(w, ADAM7_DX[i], ADAM7_IX[i]), Count(h, ADAM7_DY[i], ADAM7_IY[i]);
    if b == 0 then 0 else a
  }

  function PassH(i: nat, w: nat, h: nat): (r: nat)
    requires i < 7
  {
    var a, b := Count(w, ADAM7_DX[i], ADAM7_IX[i]), Count(h, ADAM7_DY[i], ADAM7_IY[i]);
    if a == 0 then 0 else b
  }

  predicate InPass(p: Spot, w: nat, h: nat): (r: bool)
    ensures r ==> p.pass < 7
  {
    p.pass < 7 && p.x < PassW(p.pass, w, h) && p.y < PassH(p.pass, w, h)
  }

  function Row(p: Spot): nat
    requires p.pass < 7
  {
    ADAM7_IY[p.pass] + p.y * ADAM7_DY[p.pass]
  }

  function Column(p: Spot): nat
    requires p.pass < 7
  {
    ADAM7_IX[p.pass] + p.x * ADAM7_DX[p.pass]
  }

  /** The reduced images hold exactly the pixels that lie in the image. */
  lemma InPassIs(p: Spot, w: nat, h: nat)
    requires p.pass < 7
    ensures InPass(p, w, h) <==> Row(p) < h && Column(p) < w
  {
    CountIs(w, ADAM7_DX[p.pass], ADAM7_IX[p.pass], p.x);
    CountIs(h, ADAM7_DY[p.pass], ADAM7_IY[p.pass], p.y);
    hide Count;
  }

  /** The pass of a pixel, and its place there. */
  function SpotOf(row: nat, column: nat): (p: Spot)
    ensures p.pass < 7
  {
    if row % 2 == 1 then Spot(6, row / 2, column)
    else if column % 2 == 1 then Spot(5, row / 2, column / 2)
    else if row % 4 == 2 then Spot(4, row / 4, column / 2)
    else if column % 4 == 2 then Spot(3, row / 4, column / 4)
    else if row % 8 == 4 then Spot(2, row / 8, column / 4)
    else if column % 8 == 4 then Spot(1, row / 8, column / 8)
    else Spot(0, row / 8, column / 8)
  }

  /** Remainders of 8 determine the smaller ones. */
  lemma SmallRemainders(v: nat)
    ensures v % 4 == v % 8 % 4 && v % 2 == v % 4 % 2
    ensures v == 8 * (v / 8) + v % 8 && v == 4 * (v / 4) + v % 4 && v == 2 * (v / 2) + v % 2
  {
    var q, r := v / 8, v % 8;
    DivUnique(v, 4, 2 * q + r / 4, r % 4);
    var q', r' := v / 4, v % 4;
    DivUnique(v, 2, 2 * q' + r' / 2, r' % 2);
  }

  /** Every pixel has a spot... */
  lemma SpotOfPixel(row: nat, column: nat)
    ensures var p := SpotOf(row, column); Row(p) == row && Column(p) == column
  {
    SmallRemainders(row);
    SmallRemainders(column);
  }

  lemma OffsetOf(o: nat, d: nat, k: nat)
    requires o < d
    ensures (o + k * d) % d == o && (o + k * d) / d == k
  {
    DivUnique(o + k * d, d, k, o);
  }

  /** ... and no other: the seven passes are a bijection. */
  lemma SpotUnique(p: Spot)
    requires p.pass < 7
    ensures SpotOf(Row(p), Column(p)) == p
  {
    OffsetOf(ADAM7_IY[p.pass], ADAM7_DY[p.pass], p.y);
    OffsetOf(ADAM7_IX[p.pass], ADAM7_DX[p.pass], p.x);
    SpotFound(p, Row(p), Column(p));
  }

  lemma SpotFound(p: Spot, row: nat, column: nat)
    requires p.pass < 7
    requires row % ADAM7_DY[p.pass] == ADAM7_IY[p.pass] && row / ADAM7_DY[p.pass] == p.y
    requires column % ADAM7_DX[p.pass] == ADAM7_IX[p.pass] && column / ADAM7_DX[p.pass] == p.x
    ensures SpotOf(row, column) == p
  {
    SmallRemainders(row);
    SmallRemainders(column);
  }

  // ---------------------------------------------------------------- progressive display

  /**
   * What clause 8.2 is for: after each pass the pixels so far are a grid that the next one makes finer. A pixel lies in
   * the first passes exactly if its row and its column are multiples of the grid's distances.
   */
  lemma FirstPasses(p: Spot)
    requires p.pass < 7
    ensures p.pass == 0 <==> Row(p) % 8 == 0 && Column(p) % 8 == 0
    ensures p.pass <= 1 <==> Row(p) % 8 == 0 && Column(p) % 4 == 0
    ensures p.pass <= 2 <==> Row(p) % 4 == 0 && Column(p) % 4 == 0
    ensures p.pass <= 3 <==> Row(p) % 4 == 0 && Column(p) % 2 == 0
    ensures p.pass <= 4 <==> Row(p) % 2 == 0 && Column(p) % 2 == 0
    ensures p.pass <= 5 <==> Row(p) % 2 == 0
  {
    SpotUnique(p);
    SmallRemainders(Row(p));
    SmallRemainders(Column(p));
    hide Row, Column;
  }

  /** In a pass the pixels keep their order: row by row, and from left to right. */
  lemma PassInOrder(p: Spot, q: Spot)
    requires p.pass == q.pass < 7
    ensures p.y < q.y <==> Row(p) < Row(q)
    ensures p.x < q.x <==> Column(p) < Column(q)
  {
    Scaled(p.y, q.y, ADAM7_DY[p.pass]);
    Scaled(p.x, q.x, ADAM7_DX[p.pass]);
  }

  lemma Scaled(a: nat, b: nat, d: nat)
    requires d > 0
    ensures a < b <==> a * d < b * d
  {
    if a < b {
      MulMonotone(d, a + 1, b);
      OneMore(a, d);
    } else {
      MulMonotone(d, b, a);
    }
  }

  /** A pass without columns has no rows either, and the other way round. */
  lemma EmptyPass(i: nat, w: nat, h: nat)
    requires i < 7
    ensures PassW(i, w, h) == 0 <==> PassH(i, w, h) == 0
    ensures PassW(i, w, h) > 0 ==>
              forall k: nat :: k < PassW(i, w, h) <==> Column(Spot(i, 0, k)) < w
    ensures PassH(i, w, h) > 0 ==>
              forall k: nat :: k < PassH(i, w, h) <==> Row(Spot(i, k, 0)) < h
  {
    forall k: nat
      ensures k < Count(w, ADAM7_DX[i], ADAM7_IX[i]) <==> Column(Spot(i, 0, k)) < w
    {
      CountIs(w, ADAM7_DX[i], ADAM7_IX[i], k);
    }
    forall k: nat
      ensures k < Count(h, ADAM7_DY[i], ADAM7_IY[i]) <==> Row(Spot(i, k, 0)) < h
    {
      CountIs(h, ADAM7_DY[i], ADAM7_IY[i], k);
    }
    hide Count, Row, Column;
  }

  /** Number of pixels in the first n passes. */
  function Pixels(n: nat, w: nat, h: nat): nat
    requires n <= 7
  {
    if n == 0 then 0 else Pixels(n - 1, w, h) + Area(n - 1, w, h)
  }

  function Area(i: nat, w: nat, h: nat): nat
    requires i < 7
  {
    PassH(i, w, h) * PassW(i, w, h)
  }

  lemma AreaIs(i: nat, w: nat, h: nat)
    requires i < 7
    ensures Area(i, w, h) == Count(h, ADAM7_DY[i], ADAM7_IY[i]) * Count(w, ADAM7_DX[i], ADAM7_IX[i])
  {
    hide Count;
  }

  lemma Distribute(a: nat, b: nat, sum: nat, c: nat)
    requires sum == a + b
    ensures a * c + b * c == sum * c && c * a + c * b == c * sum
  {
  }

  /** The passes hold all pixels of the image. */
  lemma AreasSum(w: nat, h: nat)
    ensures Pixels(7, w, h) == w * h
  {
    AllPixels(w, h);
    CountHalves(w, 4, 0);
    CountHalves(h, 4, 0);
    CountHalves(w, 2, 0);
    CountHalves(h, 2, 0);
    CountHalves(w, 1, 0);
    CountHalves(h, 1, 0);
    assert Count(w, 1, 0) == w && Count(h, 1, 0) == h;
    hide Count, Pixels;
    var w4, w2, h4, h2 := Count(w, 4, 0), Count(w, 2, 0), Count(h, 4, 0), Count(h, 2, 0);
    Distribute(Count(w, 8, 0), Count(w, 8, 4), w4, Count(h, 8, 0));
    Distribute(Count(h, 8, 0), Count(h, 8, 4), h4, w4);
    Distribute(w4, Count(w, 4, 2), w2, h4);
    Distribute(h4, Count(h, 4, 2), h2, w2);
    Distribute(w2, Count(w, 2, 1), w, h2);
    Distribute(h2, Count(h, 2, 1), h, w);
  }

  lemma AllPixels(w: nat, h: nat)
    ensures Pixels(7, w, h) ==
            Count(h, 8, 0) * Count(w, 8, 0) + Count(h, 8, 0) * Count(w, 8, 4) + Count(h, 8, 4) * Count(w, 4, 0)
            + Count(h, 4, 0) * Count(w, 4, 2) + Count(h, 4, 2) * Count(w, 2, 0) + Count(h, 2, 0) * Count(w, 2, 1)
            + Count(h, 2, 1) * Count(w, 1, 0)
  {
    hide Count, Area;
    AreaIs(0, w, h);
    AreaIs(1, w, h);
    AreaIs(2, w, h);
    AreaIs(3, w, h);
    AreaIs(4, w, h);
    AreaIs(5, w, h);
    AreaIs(6, w, h);
    assert Pixels(1, w, h) == Area(0, w, h);
    assert Pixels(3, w, h) == Pixels(1, w, h) + Area(1, w, h) + Area(2, w, h);
    assert Pixels(5, w, h) == Pixels(3, w, h) + Area(3, w, h) + Area(4, w, h);
  }
}

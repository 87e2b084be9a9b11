/** Powers of two, as the shifts of the source use them. */
module Powers {

  function Pow2(n: nat): (r: nat)
    ensures r > 0
  {
    if n == 0 then 1 else 2 * Pow2(n - 1)
  }

  lemma {:induction false} Pow2Add(a: nat, b: nat)
    ensures Pow2(a + b) == Pow2(a) * Pow2(b)
  {
    if b == 0 {
    } else {
      Pow2Add(a, b - 1);
      assert Pow2(a + b) == 2 * (Pow2(a) * Pow2(b - 1));
      assert Pow2(a) * Pow2(b) == Pow2(a) * (2 * Pow2(b - 1));
    }
  }

  lemma {:induction false} Pow2Monotone(a: nat, b: nat)
    requires a <= b
    ensures Pow2(a) <= Pow2(b)
  {
    if a < b {
      Pow2Monotone(a, b - 1);
    }
  }

  /** Dropping one more low bit halves what is left. */
  lemma DivPow2Step(v: nat, n: nat)
    ensures v / Pow2(n + 1) == v / 2 / Pow2(n) == v / Pow2(n) / 2
  {
    DivMul(v, 2, Pow2(n));
    DivMul(v, Pow2(n), 2);
  }

  lemma DivMul(v: nat, a: nat, b: nat)
    requires a > 0 && b > 0
    ensures a * b > 0 && v / (a * b) == v / a / b
  {
    var w := v / a;
    NestedQuotient(v, a, b, w, w / b, v % a, w % b);
  }

  lemma NestedQuotient(v: nat, a: nat, b: nat, w: nat, q: nat, r1: nat, r2: nat)
    requires a > 0 && b > 0
    requires v == a * w + r1 && r1 < a
    requires w == b * q + r2 && r2 < b
    ensures a * b > 0 && v / (a * b) == q
  {
    SplitProduct(a, b, q, r2);
    MulMonotone(a, r2, b - 1);
    LessOne(a, b);
    MulAtLeast(a, b);
    DivUnique(v, a * b, q, a * r2 + r1);
  }

  lemma SplitProduct(a: nat, b: nat, q: nat, r: nat)
    ensures a * (b * q + r) == (a * b) * q + a * r
  {
  }

  lemma LessOne(a: nat, b: nat)
    requires b > 0
    ensures a * (b - 1) == a * b - a
  {
  }

  lemma MulMonotone(a: nat, x: nat, y: nat)
    requires x <= y
    ensures a * x <= a * y
  {
  }

  lemma DivUnique(v: nat, d: nat, q: nat, r: nat)
    requires d > 0 && v == d * q + r && r < d
    ensures v / d == q && v % d == r
  {
    var q' := v / d;
    assert d * (q - q') == v % d - r;
    if q' < q {
      MulAtLeast(d, q - q');
    } else if q' > q {
      MulAtLeast(d, q' - q);
    }
  }

  lemma MulAtLeast(d: nat, k: nat)
    requires k >= 1
    ensures d * k >= d
  {
  }

  lemma OneMore(n: nat, p: nat)
    ensures (n + 1) * p == n * p + p
  {
  }
}

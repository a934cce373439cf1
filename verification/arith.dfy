/**
 * Floor and ceiling division of naturals.
 *
 * Both roundings are used only through their adjunction with multiplication (`FloorAdjoint`,
 * `CeilAdjoint`); every other rounding fact in the project is a consequence of these two.
 */
module Arith {

  function CeilDiv(n: nat, d: nat): nat
    requires d > 0
  {
    if n % d == 0 then n / d else n / d + 1
  }

  lemma MulLe(x: nat, y: nat, z: nat)
    requires x <= y
    ensures x * z <= y * z
  {
  }

  lemma MulLeSigned(x: int, y: int, z: nat)
    requires x <= y
    ensures x * z <= y * z
  {
    assert (y - x) * z >= 0;
  }

  lemma MulLt(x: nat, y: nat, z: nat)
    requires x < y && 0 < z
    ensures x * z < y * z
  {
  }

  /** Cancels a positive common factor. */
  lemma MulCancelLe(x: nat, y: nat, z: nat)
    requires 0 < z
    ensures x * z <= y * z <==> x <= y
  {
    if y < x {
      MulLt(y, x, z);
    }
  }

  lemma FloorAdjoint(n: nat, d: nat, q: nat)
    requires d > 0
    ensures q <= n / d <==> q * d <= n
  {
    var k := n / d;
    assert n == k * d + n % d;
    if q <= k {
      MulLe(q, k, d);
    } else {
      MulLe(k + 1, q, d);
    }
  }

  lemma CeilAdjoint(n: nat, d: nat, q: nat)
    requires d > 0
    ensures CeilDiv(n, d) <= q <==> n <= q * d
  {
    var k := n / d;
    assert n == k * d + n % d;
    if q < k {
      MulLe(q + 1, k, d);
    } else if q == k {
    } else {
      MulLe(k + 1, q, d);
    }
  }

  lemma FloorIsUnique(n: nat, d: nat, v: nat)
    requires d > 0
    requires v * d <= n < (v + 1) * d
    ensures n / d == v
  {
    FloorAdjoint(n, d, v);
    FloorAdjoint(n, d, v + 1);
  }

  lemma FloorLeCeil(n: nat, d: nat)
    requires d > 0
    ensures n / d <= CeilDiv(n, d) <= n / d + 1
  {
  }

  /** Dividing twice and rounding down each time is dividing once by the product. */
  lemma NestedFloor(n: nat, a: nat, b: nat)
    requires a > 0 && b > 0
    ensures a * b > 0
    ensures (n / a) / b == n / (a * b)
  {
    MulLt(0, a, b);
    var v := (n / a) / b;
    FloorAdjoint(n / a, b, v);
    FloorAdjoint(n, a, v * b);
    FloorAdjoint(n / a, b, v + 1);
    FloorAdjoint(n, a, (v + 1) * b);
    assert v * b * a == v * (a * b);
    assert (v + 1) * b * a == (v + 1) * (a * b);
    FloorIsUnique(n, a * b, v);
  }

  /** Dividing twice and rounding up each time is dividing once by the product. */
  lemma NestedCeil(n: nat, a: nat, b: nat)
    requires a > 0 && b > 0
    ensures a * b > 0
    ensures CeilDiv(CeilDiv(n, a), b) == CeilDiv(n, a * b)
  {
    MulLt(0, a, b);
    var v := CeilDiv(CeilDiv(n, a), b);
    var w := CeilDiv(n, a * b);
    CeilAdjoint(CeilDiv(n, a), b, v);
    CeilAdjoint(n, a, v * b);
    assert v * b * a == v * (a * b);
    CeilAdjoint(n, a * b, v);
    CeilAdjoint(n, a * b, w);
    assert w * b * a == w * (a * b);
    CeilAdjoint(n, a, w * b);
    CeilAdjoint(CeilDiv(n, a), b, w);
  }

  lemma SwapFactors(a: nat, b: nat, c: nat)
    ensures (a * b) * c == (a * c) * b
  {
  }

  /** n1/d1 <= n2/d2 as fractions orders their floors. */
  lemma FloorMonotone(n1: nat, d1: nat, n2: nat, d2: nat)
    requires d1 > 0 && d2 > 0
    requires n1 * d2 <= n2 * d1
    ensures n1 / d1 <= n2 / d2
  {
    var f := n1 / d1;
    FloorAdjoint(n1, d1, f);
    MulLe(f * d1, n1, d2);
    SwapFactors(f, d1, d2);
    MulCancelLe(f * d2, n2, d1);
    FloorAdjoint(n2, d2, f);
  }

  lemma CrossSum(f1: nat, d1: nat, f2: nat, d2: nat)
    ensures (f1 * d1) * d2 + (f2 * d2) * d1 == (f1 + f2) * (d1 * d2)
  {
    assert (f1 * d1) * d2 == f1 * (d1 * d2);
    assert (f2 * d2) * d1 == f2 * (d1 * d2);
  }

  /** If n1/d1 + n2/d2 == n/d as fractions, the two floors add up to at most the floor of the sum. */
  lemma FloorOfSum(n1: nat, d1: nat, n2: nat, d2: nat, n: nat, d: nat)
    requires d1 > 0 && d2 > 0 && d > 0
    requires (n1 * d2 + n2 * d1) * d == n * (d1 * d2)
    ensures n1 / d1 + n2 / d2 <= n / d
  {
    var f1, f2 := n1 / d1, n2 / d2;
    var dd := d1 * d2;
    MulLt(0, d1, d2);
    FloorAdjoint(n1, d1, f1);
    FloorAdjoint(n2, d2, f2);
    MulLe(f1 * d1, n1, d2);
    MulLe(f2 * d2, n2, d1);
    CrossSum(f1, d1, f2, d2);
    MulLe((f1 + f2) * dd, n1 * d2 + n2 * d1, d);
    SwapFactors(f1 + f2, dd, d);
    MulCancelLe((f1 + f2) * d, n, dd);
    FloorAdjoint(n, d, f1 + f2);
  }

  /** Under the same hypothesis the two ceilings add up to at least the ceiling of the sum. */
  lemma CeilOfSum(n1: nat, d1: nat, n2: nat, d2: nat, n: nat, d: nat)
    requires d1 > 0 && d2 > 0 && d > 0
    requires (n1 * d2 + n2 * d1) * d == n * (d1 * d2)
    ensures CeilDiv(n, d) <= CeilDiv(n1, d1) + CeilDiv(n2, d2)
  {
    var c1, c2 := CeilDiv(n1, d1), CeilDiv(n2, d2);
    var dd := d1 * d2;
    MulLt(0, d1, d2);
    CeilAdjoint(n1, d1, c1);
    CeilAdjoint(n2, d2, c2);
    MulLe(n1, c1 * d1, d2);
    MulLe(n2, c2 * d2, d1);
    CrossSum(c1, d1, c2, d2);
    MulLe(n1 * d2 + n2 * d1, (c1 + c2) * dd, d);
    SwapFactors(c1 + c2, dd, d);
    MulCancelLe(n, (c1 + c2) * d, dd);
    CeilAdjoint(n, d, c1 + c2);
  }

  /** A larger numerator over no larger a denominator: its ceiling exceeds the other's floor. */
  lemma FloorBelowCeil(n1: nat, d1: nat, n2: nat, d2: nat)
    requires n1 < n2 && 0 < d2 <= d1
    ensures n1 / d1 < CeilDiv(n2, d2)
  {
    var v := n1 / d1;
    FloorAdjoint(n1, d1, v);
    CeilAdjoint(n2, d2, v);
    MulLe(d2, d1, v);
  }
}

// Division rounded up, and products of ordered factors.

module CeilingDivision {
  function DivCeil(a: nat, b: nat): nat
    requires b > 0
  {
    (a + b - 1) / b
  }

  lemma MulMonotone(x: int, y: int, m: nat)
    requires x <= y
    ensures x * m <= y * m
  {
  }

  lemma MulStrict(x: int, y: int, m: nat)
    requires x < y && m > 0
    ensures x * m < y * m
  {
  }

  lemma ProductBetween(x: nat, x': nat, y: nat, y': nat)
    requires x <= x' && y <= y'
    ensures x * y <= x' * y'
  {
    MulMonotone(x, x', y);
    MulMonotone(y, y', x');
  }

  lemma ProductBelow(x: nat, x': nat, y: nat, y': nat)
    requires x < x' && y < y'
    ensures x * y < x' * y'
  {
    MulMonotone(x, x', y);
    MulStrict(y, y', x');
  }

  lemma CancelFactor(x: int, y: int, m: nat)
    requires m > 0 && x * m < y * m
    ensures x < y
  {
  }

  lemma Regroup(a: int, b: int, c: int, d: int)
    ensures (a * (b * c)) * d == (a * d * b) * c
  {
  }

  lemma DivCeilBounds(a: nat, b: nat)
    requires b > 0
    ensures DivCeil(a, b) * b >= a
    ensures a > 0 ==> DivCeil(a, b) > 0 && (DivCeil(a, b) - 1) * b < a
    ensures a == 0 ==> DivCeil(a, b) == 0
  {
    var d := DivCeil(a, b);
    assert d * b <= a + b - 1 < d * b + b;
    assert (d - 1) * b == d * b - b;
  }

  /** The least whole number of `b`s reaching `a`. */
  lemma DivCeilLeast(a: nat, b: nat, n: nat)
    requires b > 0 && n * b >= a
    ensures DivCeil(a, b) <= n
  {
    DivCeilBounds(a, b);
    if a > 0 {
      CancelFactor(DivCeil(a, b) - 1, n, b);
    }
  }

  lemma DivCeilMonotone(a: nat, a': nat, b: nat)
    requires b > 0 && a <= a'
    ensures DivCeil(a, b) <= DivCeil(a', b)
  {
    DivCeilBounds(a', b);
    DivCeilLeast(a, b, DivCeil(a', b));
  }

  lemma CancelLeast(x: int, y: int, m: nat)
    requires m > 0 && x * m <= y * m
    ensures x <= y
  {
    if y < x {
      MulStrict(y, x, m);
    }
  }

  lemma DivCeilExact(n: nat, b: nat)
    requires b > 0
    ensures DivCeil(n * b, b) == n
  {
    DivCeilBounds(n * b, b);
    DivCeilLeast(n * b, b, n);
    if n > 0 {
      MulMonotone(1, n, b);
      CancelLeast(n, DivCeil(n * b, b), b);
    }
  }
}

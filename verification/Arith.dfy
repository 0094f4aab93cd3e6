/** Facts about multiplication and division, kept apart from the proofs that use them. */
module Arith {
  lemma {:induction false} DivBounds(n: nat, d: nat)
    requires d > 0
    ensures (n / d) * d <= n < (n / d) * d + d
  {
  }

  lemma {:induction false} LeMul(a: int, b: int, d: nat)
    requires a <= b
    ensures a * d <= b * d
  {
  }

  lemma {:induction false} DivShift(n: nat, d: nat)
    requires d > 0
    ensures (n + d) / d == n / d + 1
  {
    DivBounds(n, d);
    DivBounds(n + d, d);
    DivUnique(n + d, d, n / d + 1);
  }

  lemma {:induction false} DivUnique(n: nat, d: nat, q: nat)
    requires d > 0 && q * d <= n < q * d + d
    ensures n / d == q
  {
    DivBounds(n, d);
    var p := n / d;
    if p < q {
      LeMul(p + 1, q, d);
    } else if q < p {
      LeMul(q + 1, p, d);
    }
  }

  lemma {:induction false} MultipleMod(a: nat, m: nat)
    requires m > 0
    ensures a * m % m == 0
  {
    DivUnique(a * m, m, a);
    assert a * m == (a * m / m) * m + a * m % m;
  }

  lemma {:induction false} DivLess(n: nat, d: nat)
    requires d > 0
    ensures n / d <= n
  {
    DivBounds(n, d);
    LeMul(1, d, n / d);
    assert d * (n / d) == (n / d) * d;
  }

  lemma {:induction false} Regroup(a: nat, b: nat, c: nat)
    ensures (a * b) * c == a * (b * c)
  {
  }

  lemma {:induction false} Distribute(a: nat, b: nat, c: nat)
    ensures (a + b) * c == a * c + b * c
  {
  }

  lemma {:induction false} Positive(a: nat, b: nat)
    requires a > 0 && b > 0
    ensures a * b > 0
  {
  }
}

/** Facts about division and remainder that the counters and selectors share. */
module Arithmetic {

  lemma {:induction false} MulMono(n: nat, a: int, b: int)
    requires a <= b
    ensures n * a <= n * b
    decreases n
  {
    if n != 0 {
      MulMono(n - 1, a, b);
      assert n * a == (n - 1) * a + a && n * b == (n - 1) * b + b;
    }
  }

  /** Quotient and remainder are the only pair that recomposes to x. */
  lemma {:induction false} DivModUnique(x: int, n: nat, q: int, r: int)
    requires 0 <= r < n && x == n * q + r
    ensures x / n == q && x % n == r
  {
    var q', r' := x / n, x % n;
    assert x == n * q' + r';
    if q > q' {
      MulMono(n, q' + 1, q);
    } else if q < q' {
      MulMono(n, q + 1, q');
    }
  }

  lemma {:induction false} ModStep(k: nat, n: nat)
    requires n > 0
    ensures (k + 1) % n == if k % n == n - 1 then 0 else k % n + 1
    ensures (k + 1) / n == if k % n == n - 1 then k / n + 1 else k / n
  {
    var q, r := k / n, k % n;
    assert k == n * q + r;
    if r == n - 1 {
      assert n * (q + 1) == n * q + n;
      DivModUnique(k + 1, n, q + 1, 0);
    } else {
      DivModUnique(k + 1, n, q, r + 1);
    }
  }

  /** Shifting by a whole number of periods does not change a remainder. */
  lemma {:induction false} ModShift(k: int, n: nat, m: int)
    requires n > 0
    ensures (k + n * m) % n == k % n && (k + n * m) / n == k / n + m
  {
    var q, r := k / n, k % n;
    assert k == n * q + r;
    assert n * (q + m) == n * q + n * m;
    DivModUnique(k + n * m, n, q + m, r);
  }

  /** Numbers less than n apart leave different remainders. */
  lemma {:induction false} ModsDiffer(i: nat, j: nat, n: nat)
    requires i < j < i + n
    ensures i % n != j % n
  {
    var qi, qj := i / n, j / n;
    assert i == n * qi + i % n && j == n * qj + j % n;
    if qj > qi {
      MulMono(n, qi + 1, qj);
    } else {
      MulMono(n, qj, qi);
    }
  }

  lemma {:induction false} TwoPlaces(a: nat, b: nat, q: nat, r: nat, low: nat)
    requires r < b && low < a
    ensures a * (b * q + r) + low == (a * b) * q + (a * r + low)
    ensures a * r + low < a * b
  {
    assert a * (b * q + r) == a * (b * q) + a * r;
    assert a * (b * q) == (a * b) * q;
    MulMono(a, r + 1, b);
    assert a * (r + 1) == a * r + a;
  }

  lemma {:induction false} DivBoth(v: nat, a: nat, b: nat, n: nat, h: nat, q: nat, r: nat, low: nat)
    requires n == a * b && h == b * q + r && v == a * h + low && r < b && low < a
    ensures n > 0 && v / n == q && v % n == a * r + low
  {
    TwoPlaces(a, b, q, r, low);
    DivModUnique(v, n, q, a * r + low);
  }

  lemma {:induction false} DivParts(v: nat, a: nat)
    requires a > 0
    ensures v == a * (v / a) + v % a && v % a < a
  {
  }

  /** Dividing in two steps. */
  lemma {:induction false} DivTwice(v: nat, a: nat, b: nat)
    requires a > 0 && b > 0
    ensures a * b > 0 && v / a / b == v / (a * b) && v % (a * b) == a * (v / a % b) + v % a
  {
    DivParts(v, a);
    DivParts(v / a, b);
    DivBoth(v, a, b, a * b, v / a, v / a / b, v / a % b, v % a);
  }

  /** The numbers below n. */
  ghost function Below(n: nat): (s: set<nat>)
    ensures |s| == n
    ensures forall x: nat :: x in s <==> x < n
  {
    if n == 0 then {} else Below(n - 1) + {n - 1}
  }

  /** A random number is below p percent of n exactly if it and all smaller ones are at most p percent. */
  lemma {:induction false} BelowShare(r: nat, n: nat, p: nat)
    ensures r < n * p / 100 <==> 100 * (r + 1) <= n * p
  {
  }

  /** Of n random numbers the first p percent are below p percent of n. */
  lemma {:induction false} SharesCount(hits: set<nat>, n: nat, p: nat)
    requires p <= 100
    requires forall r: nat :: r in hits <==> r < n && 100 * (r + 1) <= n * p
    ensures |hits| == n * p / 100
  {
    MulMono(n, p, 100);
    forall r: nat
      ensures r in hits <==> r in Below(n * p / 100)
    {
      BelowShare(r, n, p);
    }
    assert hits == Below(n * p / 100);
  }
}

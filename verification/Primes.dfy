/** Prime search for hash table sizes: trial division and the next prime.

    Models modules/mod_common/ngx_comm_math.c. The square root is the exact integer one. */
module Primes {

  predicate Prime(n: int) {
    n >= 2 && forall d :: 2 <= d < n ==> n % d != 0
  }

  /** The largest `r` whose square is at most `n`. */
  function Isqrt(n: nat): (r: nat)
    ensures r * r <= n < (r + 1) * (r + 1)
  {
    if n == 0 then 0
    else
      var r := Isqrt(n - 1);
      if (r + 1) * (r + 1) <= n then r + 1 else r
  }

  lemma DivideExact(n: nat, d: nat)
    requires d > 0 && n % d == 0
    ensures n == d * (n / d)
  {
  }

  lemma ProductAtLeast(a: nat, b: nat, c: nat, d: nat)
    requires a >= c && b >= d
    ensures a * b >= c * d
  {
    assert a * b == (a - c) * b + c * b;
    assert c * b == c * (b - d) + c * d;
  }

  /** A multiple of `d` leaves no remainder. */
  lemma ModOfMultiple(n: nat, d: nat, k: nat)
    requires d > 0 && n == d * k
    ensures n % d == 0
  {
    var q, r := n / d, n % d;
    assert d * q + r == d * k;
    if k > q {
      ProductAtLeast(d, k, d, q + 1);
    } else if k < q {
      ProductAtLeast(d, q, d, k + 1);
    }
  }

  /** A composite number has a divisor no larger than its square root. */
  lemma SmallDivisor(n: nat, d: nat, r: nat) returns (e: nat)
    requires 2 <= d < n && n % d == 0 && n < (r + 1) * (r + 1)
    ensures 2 <= e <= r && n % e == 0
  {
    if d <= r {
      return d;
    }
    e := n / d;
    DivideExact(n, d);
    assert n == e * d;
    assert e != 0 && e != 1;
    if e >= r + 1 {
      ProductAtLeast(d, e, r + 1, r + 1);
    }
    ModOfMultiple(n, e, d);
  }

  lemma RootIsSmaller(n: nat, r: nat)
    requires n >= 2 && r * r <= n
    ensures r < n
  {
    if r >= n {
      ProductAtLeast(r, r, n, n);
      ProductAtLeast(n, n, n, 2);
    }
  }

  /** ngx_comm_is_prime */
  method IsPrime(n: int) returns (r: bool)
    ensures r <==> Prime(n)
  {
    if n < 2 {
      return false;
    }
    var max := Isqrt(n);
    RootIsSmaller(n, max);
    var i := 2;
    while i <= max
      invariant i >= 2 && forall d :: 2 <= d < i && d <= max ==> n % d != 0
    {
      if n % i == 0 {
        return false;
      }
      i := i + 1;
    }
    if d :| 2 <= d < n && n % d == 0 {
      var e := SmallDivisor(n, d, max);
    }
    return true;
  }

  // ------------------------------------------------- there is always a next prime

  function Factorial(n: nat): (f: nat)
    ensures f >= 1
  {
    if n == 0 then 1 else n * Factorial(n - 1)
  }

  lemma MultipleOfMultiple(a: nat, b: nat, d: nat)
    requires d > 0 && b % d == 0
    ensures (a * b) % d == 0
  {
    DivideExact(b, d);
    assert a * (d * (b / d)) == d * (a * (b / d));
    ModOfMultiple(a * b, d, a * (b / d));
  }

  lemma {:induction false} FactorialDivides(n: nat, d: nat)
    requires 1 <= d <= n
    ensures Factorial(n) % d == 0
  {
    if d == n {
      ModOfMultiple(Factorial(n), n, Factorial(n - 1));
    } else {
      FactorialDivides(n - 1, d);
      MultipleOfMultiple(n, Factorial(n - 1), d);
    }
  }

  lemma DividesThrough(m: nat, d: nat, e: nat)
    requires d > 0 && e > 0 && m % d == 0 && d % e == 0
    ensures m % e == 0
  {
    DivideExact(m, d);
    assert m == (m / d) * d;
    MultipleOfMultiple(m / d, d, e);
  }

  lemma NeighboursShareNoDivisor(f: nat, d: nat)
    requires d >= 2 && f % d == 0
    ensures (f + 1) % d != 0
  {
    DivideExact(f, d);
    var a := f / d;
    if (f + 1) % d == 0 {
      DivideExact(f + 1, d);
      var b := (f + 1) / d;
      assert d * b == d * a + 1;
      if b > a {
        ProductAtLeast(d, b, d, a + 1);
      } else {
        ProductAtLeast(d, a, d, b);
      }
    }
  }

  /** The least divisor above 1 is prime. */
  lemma LeastDivisor(m: nat) returns (d: nat)
    requires m >= 2
    ensures 2 <= d <= m && m % d == 0 && Prime(d)
  {
    d := 2;
    while m % d != 0
      invariant 2 <= d <= m && forall k :: 2 <= k < d ==> m % k != 0
      decreases m - d
    {
      d := d + 1;
    }
    forall k | 2 <= k < d ensures d % k != 0 {
      if d % k == 0 {
        DividesThrough(m, d, k);
      }
    }
  }

  /** Euclid's argument: a divisor of n! + 1 is above n. */
  lemma PrimeAbove(n: nat) returns (p: nat)
    ensures p > n && Prime(p)
  {
    var m := Factorial(n) + 1;
    p := LeastDivisor(m);
    if p <= n {
      FactorialDivides(n, p);
      NeighboursShareNoDivisor(Factorial(n), p);
    }
  }

  /** ngx_comm_generate_greater_prime: ends, and with the least prime that is not below `n`. */
  method GenerateGreaterPrime(n: int) returns (p: int)
    ensures Prime(p) && p >= n && forall q :: n <= q < p ==> !Prime(q)
  {
    ghost var bound := PrimeAbove(if n < 0 then 0 else n);
    p := n;
    var found := IsPrime(p);
    while !found
      invariant n <= p <= bound && (found <==> Prime(p))
      invariant forall q :: n <= q < p ==> !Prime(q)
      decreases bound - p, !found
    {
      p := p + 1;
      found := IsPrime(p);
    }
  }
}

/**
 * Prime utilities behind the Matula tree code: a trial-division primality
 * test, the k-th prime (1-indexed, the first prime is 2) and the position of
 * a prime in the sequence of primes.
 *
 * The specification side is ghost: `Prime` is the textbook definition,
 * `PrimeCount(p)` counts the primes in [2, p] and `PrimeAt(k)` is the k-th
 * prime. The methods follow the source's loops and are proved against them.
 */
module Primes {
  import opened Arith

  /** The two ways the prime utilities reject their argument (a ValueError in the source). */
  datatype PrimeError = IndexBelowOne(k: int) | NotPrime(p: int)

  datatype Result<T> = Ok(value: T) | Err(error: PrimeError)

  /** Divisibility is transitive. */
  lemma DividesTrans(a: int, b: int, c: int)
    requires a > 0 && b > 0
    requires b % a == 0 && c % b == 0
    ensures c % a == 0
  {
    var m := b / a;
    var k := c / b;
    assert b == a * m;
    assert c == b * k;
    assert c == a * (m * k);
    MulModZero(a, m * k);
  }

  /** A multiple of d plus one is not a multiple of d when d >= 2. */
  lemma SuccOfMultiple(d: int, x: int)
    requires d >= 2 && x % d == 0
    ensures (x + 1) % d == 1
  {
    var q := x / d;
    assert x == d * q;
    DivModUnique(x + 1, d, q, 1);
  }

  // ---------------------------------------------------------------------------
  // Specification
  // ---------------------------------------------------------------------------

  /** n is prime: at least 2 and without a divisor strictly between 1 and n. */
  ghost predicate Prime(n: int)
  {
    n >= 2 && forall d :: 2 <= d < n ==> n % d != 0
  }

  /** The number of primes in [2, p]. */
  ghost function PrimeCount(p: int): (c: nat)
    ensures c <= if p >= 1 then p - 1 else 0
    decreases p
  {
    if p < 2 then 0 else PrimeCount(p - 1) + (if Prime(p) then 1 else 0)
  }

  /** Every integer n >= 2 has a prime divisor. */
  lemma {:induction false} HasPrimeDivisor(n: int)
    requires n >= 2
    ensures exists q :: Prime(q) && n % q == 0
    decreases n
  {
    if !Prime(n) {
      var d :| 2 <= d < n && n % d == 0;
      HasPrimeDivisor(d);
      var q :| Prime(q) && d % q == 0;
      DividesTrans(q, d, n);
    } else {
      assert n % n == 0;
    }
  }

  ghost function Factorial(n: nat): (f: nat)
    ensures f >= 1
  {
    if n == 0 then 1 else n * Factorial(n - 1)
  }

  lemma {:induction false} FactorialDivisible(n: nat, d: int)
    requires 1 <= d <= n
    ensures Factorial(n) % d == 0
  {
    var f := Factorial(n - 1);
    assert Factorial(n) == n * f;
    if d == n {
      MulModZero(n, f);
    } else {
      FactorialDivisible(n - 1, d);
      var g := f * n;
      MulModZero(f, n);
      DividesTrans(d, f, g);
    }
  }

  /** Euclid: a prime divisor of p! + 1 lies above p, so the primes are unbounded. */
  lemma PrimeAbove(p: nat)
    ensures exists q :: q > p && Prime(q)
  {
    var m := Factorial(p) + 1;
    HasPrimeDivisor(m);
    var q :| Prime(q) && m % q == 0;
    if q <= p {
      FactorialDivisible(p, q);
      SuccOfMultiple(q, Factorial(p));
      assert false;
    }
  }

  /** The least prime in [i, w], where w is a prime known to lie beyond i. */
  ghost function LeastPrimeFrom(i: int, w: int): (q: int)
    requires i <= w && Prime(w)
    ensures i <= q <= w && Prime(q)
    ensures forall r :: i <= r < q ==> !Prime(r)
    decreases w - i
  {
    if Prime(i) then i else LeastPrimeFrom(i + 1, w)
  }

  /** The least prime greater than p. */
  ghost function NextPrime(p: nat): (q: nat)
    ensures q > p && Prime(q)
    ensures forall r :: p < r < q ==> !Prime(r)
  {
    PrimeAbove(p);
    var w :| w > p && Prime(w);
    LeastPrimeFrom(p + 1, w)
  }

  lemma {:induction false} PrimeCountFlat(p: int, r: int)
    requires p <= r
    requires forall x :: p < x <= r ==> !Prime(x)
    ensures PrimeCount(r) == PrimeCount(p)
    decreases r - p
  {
    if r > p {
      PrimeCountFlat(p, r - 1);
    }
  }

  lemma {:induction false} PrimeCountMonotone(a: int, b: int)
    requires a <= b
    ensures PrimeCount(a) <= PrimeCount(b)
    decreases b - a
  {
    if a < b {
      PrimeCountMonotone(a, b - 1);
    }
  }

  /** Passing a prime strictly increases the count. */
  lemma PrimeCountStrict(a: int, b: int)
    requires a < b && Prime(b)
    ensures PrimeCount(a) < PrimeCount(b)
  {
    PrimeCountMonotone(a, b - 1);
  }

  /** The k-th prime, 1-indexed. */
  ghost function PrimeAt(k: int): (p: nat)
    requires k >= 1
    ensures Prime(p) && PrimeCount(p) == k
    decreases k
  {
    if k == 1 then
      assert Prime(2);
      2
    else
      var prev := PrimeAt(k - 1);
      var q := NextPrime(prev);
      PrimeCountFlat(prev, q - 1);
      q
  }

  /** A prime is determined by its position: PrimeAt inverts PrimeCount on primes. */
  lemma PrimeAtCount(p: int)
    requires Prime(p)
    ensures PrimeCount(p) >= 1 && PrimeAt(PrimeCount(p)) == p
  {
    var q := PrimeAt(PrimeCount(p));
    if q < p {
      PrimeCountStrict(q, p);
    } else if p < q {
      PrimeCountStrict(p, q);
    }
  }

  /** The position of a prime is below the prime itself. */
  lemma PrimeIndexBelow(p: int)
    requires Prime(p)
    ensures 1 <= PrimeCount(p) < p
  {
  }

  // ---------------------------------------------------------------------------
  // Implementation
  // ---------------------------------------------------------------------------

  lemma OddHasNoEvenDivisor(n: int, d: int)
    requires n % 2 == 1 && d >= 2 && d % 2 == 0
    ensures n % d != 0
  {
    if n % d == 0 {
      DividesTrans(2, d, n);
    }
  }

  lemma CofactorAtLeastTwo(n: int, d: int, q: int)
    requires n == d * q && 2 <= d < n
    ensures q >= 2
  {
    if q <= 1 {
      MulMonotone(q, 1, d);
    }
  }

  lemma CofactorBelow(n: int, d: int, q: int, i: int)
    requires n == d * q && 0 <= i <= d && q >= 0 && i * i > n
    ensures q < i
  {
    if q >= i {
      MulMonotone(i, d, q);
      MulMonotone(i, q, i);
    }
  }

  /** The cofactor of a proper divisor d of n is itself a proper divisor, and d times it is n. */
  lemma Cofactor(n: int, d: int)
    requires 2 <= d < n && n % d == 0
    ensures 2 <= n / d && n % (n / d) == 0 && n == d * (n / d)
  {
    var q := n / d;
    assert n == d * q;
    CofactorAtLeastTwo(n, d, q);
    MulModZero(q, d);
  }

  /** With no divisor below i and i * i > n, n has no divisor at all. */
  lemma NoSmallDivisorMeansPrime(n: int, i: int)
    requires n >= 2 && i >= 2 && i * i > n
    requires forall d :: 2 <= d < i ==> n % d != 0
    ensures Prime(n)
  {
    forall d | 2 <= d < n
      ensures n % d != 0
    {
      if n % d == 0 && d >= i {
        Cofactor(n, d);
        CofactorBelow(n, d, n / d, i);
      }
    }
  }

  /** is_prime: the n < 2, n == 2 and even shortcuts, then odd trial division while i * i <= n. */
  method IsPrime(n: int) returns (b: bool)
    ensures b == Prime(n)
  {
    if n < 2 {
      return false;
    }
    if n == 2 {
      return true;
    }
    if n % 2 == 0 {
      return false;
    }
    var i := 3;
    while i * i <= n
      invariant i >= 3 && i % 2 == 1
      invariant forall d :: 2 <= d < i ==> n % d != 0
    {
      if n % i == 0 {
        SquareBelow(i, n);
        return false;
      }
      TrialStep(n, i);
      i := i + 2;
    }
    NoSmallDivisorMeansPrime(n, i);
    return true;
  }

  lemma SquareBelow(i: int, n: int)
    requires i >= 2 && i * i <= n
    ensures i < n
  {
    MulMonotone(2, i, i);
  }

  /** One trial division step: an odd n not divisible by the odd i has no divisor below i + 2. */
  lemma TrialStep(n: int, i: int)
    requires n % 2 == 1 && i >= 3 && i % 2 == 1 && n % i != 0
    requires forall d :: 2 <= d < i ==> n % d != 0
    ensures forall d :: 2 <= d < i + 2 ==> n % d != 0
  {
    OddHasNoEvenDivisor(n, i + 1);
  }

  /** nth_prime: count primes upward from 2 until the k-th one. */
  method NthPrime(k: int) returns (r: Result<int>)
    ensures k < 1 ==> r == Err(IndexBelowOne(k))
    ensures k >= 1 ==> r == Ok(PrimeAt(k))
  {
    if k < 1 {
      return Err(IndexBelowOne(k));
    }
    var count := 0;
    var num := 1;
    while count < k
      invariant 1 <= num <= PrimeAt(k)
      invariant count == PrimeCount(num) && count <= k
      invariant count == k ==> num == PrimeAt(k)
      decreases PrimeAt(k) - num
    {
      num := num + 1;
      var b := IsPrime(num);
      if b {
        count := count + 1;
        if count == k {
          PrimeAtCount(num);
        }
      }
    }
    return Ok(num);
  }

  /** prime_index: reject a non-prime, else count the primes in [2, p]. */
  method PrimeIndex(p: int) returns (r: Result<int>)
    ensures !Prime(p) ==> r == Err(NotPrime(p))
    ensures Prime(p) ==> r == Ok(PrimeCount(p))
  {
    var isp := IsPrime(p);
    if !isp {
      return Err(NotPrime(p));
    }
    var count := 0;
    for i := 2 to p + 1
      invariant count == PrimeCount(i - 1)
    {
      var b := IsPrime(i);
      if b {
        count := count + 1;
      }
    }
    return Ok(count);
  }

  /** Concrete values: the fifth prime is 11 and 11 sits at position 5. */
  lemma FifthPrime()
    ensures PrimeCount(11) == 5 && PrimeAt(5) == 11
  {
    assert !Prime(4) by { assert 4 % 2 == 0; }
    assert !Prime(6) by { assert 6 % 2 == 0; }
    assert !Prime(8) by { assert 8 % 2 == 0; }
    assert !Prime(9) by { assert 9 % 3 == 0; }
    assert !Prime(10) by { assert 10 % 2 == 0; }
    assert Prime(2) && Prime(3) && Prime(5) && Prime(7) && Prime(11);
    assert PrimeCount(11) == 5;
    PrimeAtCount(11);
  }
}

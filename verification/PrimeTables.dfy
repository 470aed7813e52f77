/**
 The prime tables of the samples: trial division, a sieve, and a table that combines both.
 Integers are mathematical integers.

 The main results: both tables agree with primality, and asking for the next prime terminates
 (there are infinitely many primes) and gives the least prime above the argument exactly for
 the arguments the tables can handle.
 */
module PrimeTables {
  import opened Arithmetic

  ghost predicate Prime(n: int) {
    n >= 2 && forall d | 2 <= d < n :: n % d != 0
  }

  /** The least prime above p. */
  ghost predicate IsNextPrime(p: int, q: int) {
    q > p && Prime(q) && forall n | p < n < q :: !Prime(n)
  }

  // ---------------------------------------------------------------------------
  // Divisors
  // ---------------------------------------------------------------------------

  lemma DividesThrough(n: int, m: int, d: int)
    requires m > 0 && d > 0 && n % m == 0 && m % d == 0
    ensures n % d == 0
  {
    var a := ModFactor(n, m);
    var b := ModFactor(m, d);
    assert n == a * b * d by {
      assert a * (b * d) == a * b * d;
    }
    MultipleMod(a * b, d);
  }

  /** Every number from 2 on has a prime divisor. */
  lemma {:induction false} PrimeDivisor(n: int) returns (q: int)
    requires n >= 2
    ensures Prime(q) && q <= n && n % q == 0
    decreases n
  {
    if Prime(n) {
      return n;
    }
    var d :| 2 <= d < n && n % d == 0;
    q := PrimeDivisor(d);
    DividesThrough(n, d, q);
  }

  lemma CofactorAtLeastTwo(n: int, k: int, e: int)
    requires 0 < e < n && n == k * e
    ensures k >= 2
  {
    if k <= 1 {
      MulMono(k, 1, e);
    }
  }

  /** A composite number has a divisor at or below its square root. */
  lemma SmallDivisor(n: int) returns (d: int)
    requires n >= 2 && !Prime(n)
    ensures d >= 2 && d * d <= n && n % d == 0
  {
    var e :| 2 <= e < n && n % e == 0;
    var k := ModFactor(n, e);
    CofactorAtLeastTwo(n, k, e);
    if e <= k {
      d := e;
      MulMono(e, k, e);
    } else {
      d := k;
      MulMono(k, e, k);
      assert n == e * k;
      MultipleMod(e, k);
    }
  }

  // ---------------------------------------------------------------------------
  // Infinitely many primes
  // ---------------------------------------------------------------------------

  function Factorial(n: nat): (f: nat)
    ensures f >= 1
  {
    if n == 0 then 1 else n * Factorial(n - 1)
  }

  lemma {:induction false} FactorialDivisible(n: nat, d: nat)
    requires 1 <= d <= n
    ensures Factorial(n) % d == 0
  {
    if d == n {
      MultipleMod(Factorial(n - 1), n);
      assert Factorial(n) == Factorial(n - 1) * n;
    } else {
      FactorialDivisible(n - 1, d);
      var k := ModFactor(Factorial(n - 1), d);
      assert n * (k * d) == (n * k) * d;
      MultipleMod(n * k, d);
    }
  }

  lemma ConsecutiveMultiples(m: int, d: int)
    requires d >= 2 && m % d == 0
    ensures (m + 1) % d != 0
  {
    var k := ModFactor(m, d);
    DivModUnique(m + 1, d, k, 1);
  }

  /** Euclid: some prime lies above every number. */
  lemma PrimeAbove(p: nat) returns (q: int)
    ensures q > p && Prime(q)
  {
    var m := Factorial(p);
    q := PrimeDivisor(m + 1);
    if q <= p {
      FactorialDivisible(p, q);
      ConsecutiveMultiples(m, q);
    }
  }

  // ---------------------------------------------------------------------------
  // Trial division
  // ---------------------------------------------------------------------------

  method OnTheFlyIsPrime(n: int) returns (prime: bool)
    ensures prime <==> Prime(n)
  {
    if n <= 1 {
      return false;
    }
    var i := 2;
    while i * i <= n
      invariant i >= 2
      invariant forall d | 2 <= d < i :: n % d != 0
      decreases n - i
    {
      MulMono(2, i, i);
      if n % i == 0 {
        return false;
      }
      i := i + 1;
    }
    if !Prime(n) {
      var d := SmallDivisor(n);
      SquareMono(i, d);
    }
    return true;
  }

  /** The least prime above p, or -1 for every negative p. */
  method OnTheFlyGetNextPrime(p: int) returns (q: int)
    ensures if p >= 0 then IsNextPrime(p, q) else q == -1
  {
    var n := p + 1;
    ghost var bound := 0;
    if p >= 0 {
      bound := PrimeAbove(p);
    }
    while n > 0
      invariant p >= 0 ==> p < n <= bound
      invariant p < 0 ==> n == p + 1
      invariant forall m | p < m < n :: !Prime(m)
      decreases bound - n
    {
      var prime := OnTheFlyIsPrime(n);
      if prime {
        return n;
      }
      n := n + 1;
    }
    return -1;
  }

  // ---------------------------------------------------------------------------
  // The sieve
  // ---------------------------------------------------------------------------

  /** No number from 2 to i-1 divides n properly. */
  ghost predicate Unmarked(n: int, i: int) {
    forall d | 2 <= d < i && d < n :: n % d != 0
  }

  /** A multiple of a composite number has been marked for a smaller divisor already. */
  lemma CompositeAddsNothing(n: int, i: int)
    requires i >= 2 && !Unmarked(i, i) && n > i
    ensures Unmarked(n, i + 1) <==> Unmarked(n, i)
  {
    var d :| 2 <= d < i && d < i && i % d == 0;
    if n % i == 0 {
      DividesThrough(n, i, d);
    }
  }

  lemma NoMultipleBetween(i: int, k: int, n: int)
    requires i > 0 && k * i < n < (k + 1) * i
    ensures n % i != 0
  {
    assert (k + 1) * i == k * i + i;
    DivModUnique(n, i, k, n - k * i);
  }

  class PreCalculatedPrimeTable {
    const isPrime: array<bool>

    ghost predicate Valid()
      reads this, isPrime
    {
      isPrime.Length >= 2 && forall n | 0 <= n < isPrime.Length :: isPrime[n] <==> Prime(n)
    }

    /** The table for the numbers up to max. */
    constructor (max: int)
      requires max >= 1
      ensures Valid() && fresh(isPrime) && isPrime.Length == max + 1
    {
      isPrime := new bool[max + 1](_ => true);
      new;
      CalculatePrimesUpTo(isPrime, max);
    }

    predicate IsPrime(n: int)
      requires Valid()
      reads this, isPrime
      ensures IsPrime(n) <==> Prime(n) && n < isPrime.Length
    {
      0 <= n < isPrime.Length && isPrime[n]
    }

    /** The least prime above p if the table reaches that far, otherwise -1. */
    method GetNextPrime(p: int) returns (q: int)
      requires Valid() && p >= -1
      ensures if q == -1 then forall n | p < n < isPrime.Length :: !Prime(n)
              else q < isPrime.Length && IsNextPrime(p, q)
    {
      var n := p + 1;
      while n < isPrime.Length
        invariant p < n
        invariant forall m | p < m < n && m < isPrime.Length :: !Prime(m)
      {
        if isPrime[n] {
          return n;
        }
        n := n + 1;
      }
      return -1;
    }
  }

  /** The multiples of i from the second up to the one before the k-th. */
  ghost function MultiplesBelow(i: int, k: nat): set<int> {
    if k <= 2 then {} else MultiplesBelow(i, k - 1) + {(k - 1) * i}
  }

  lemma {:induction false} MultiplesBelowExact(i: int, k: nat, n: int)
    requires i >= 2 && k >= 2
    ensures n in MultiplesBelow(i, k) <==> i < n < k * i && n % i == 0
  {
    MulMono(2, k, i);
    if k == 2 {
      if i < n < 2 * i {
        NoMultipleBetween(i, 1, n);
      }
    } else {
      MultiplesBelowExact(i, k - 1, n);
      assert k * i == (k - 1) * i + i;
      MulMono(2, k - 1, i);
      if n == (k - 1) * i {
        MultipleMod(k - 1, i);
      } else if (k - 1) * i < n < k * i {
        NoMultipleBetween(i, k - 1, n);
      }
    }
  }

  /** Clears the proper multiples of i. */
  method MarkMultiples(isPrime: array<bool>, max: int, i: int)
    requires 2 <= i <= max && isPrime.Length == max + 1
    modifies isPrime
    ensures forall n | 0 <= n <= max :: isPrime[n] == (old(isPrime[n]) && !(n > i && n % i == 0))
  {
    ghost var k := 2;
    var j := 2 * i;
    while j <= max
      invariant k >= 2 && j == k * i > 0
      invariant forall n | 0 <= n <= max :: isPrime[n] == (old(isPrime[n]) && n !in MultiplesBelow(i, k))
      decreases max + 1 - j
    {
      isPrime[j] := false;
      j := j + i;
      k := k + 1;
    }
    forall n | 0 <= n <= max
      ensures n in MultiplesBelow(i, k) <==> n > i && n % i == 0
    {
      MultiplesBelowExact(i, k, n);
    }
  }

  /** The sieve of Eratosthenes over an array that starts out all true. */
  method CalculatePrimesUpTo(isPrime: array<bool>, max: int)
    requires max >= 1 && isPrime.Length == max + 1
    requires forall n | 0 <= n <= max :: isPrime[n]
    modifies isPrime
    ensures forall n | 0 <= n <= max :: isPrime[n] <==> Prime(n)
  {
    isPrime[0], isPrime[1] := false, false;
    for i := 2 to max + 1
      invariant !isPrime[0] && !isPrime[1]
      invariant forall n | 2 <= n <= max :: isPrime[n] <==> Unmarked(n, i)
    {
      if !isPrime[i] {
        forall n | i < n <= max
          ensures Unmarked(n, i + 1) <==> Unmarked(n, i)
        {
          CompositeAddsNothing(n, i);
        }
        continue;
      }
      MarkMultiples(isPrime, max, i);
    }
  }

  // ---------------------------------------------------------------------------
  // Both together
  // ---------------------------------------------------------------------------

  class HybridPrimeTable {
    const precalc: PreCalculatedPrimeTable?
    const maxPrecalculated: int

    ghost predicate Valid()
      reads this, precalc, if precalc == null then {} else {precalc.isPrime}
    {
      precalc != null ==> precalc.Valid() && precalc.isPrime.Length == maxPrecalculated + 1
    }

    constructor (forceOnTheFly: bool, maxPrecalculated: int)
      requires forceOnTheFly || maxPrecalculated >= 1
      ensures Valid()
      ensures this.maxPrecalculated == maxPrecalculated && (precalc == null <==> forceOnTheFly)
    {
      this.maxPrecalculated := maxPrecalculated;
      if forceOnTheFly {
        precalc := null;
      } else {
        var table := new PreCalculatedPrimeTable(maxPrecalculated);
        precalc := table;
      }
    }

    method IsPrime(n: int) returns (prime: bool)
      requires Valid()
      ensures prime <==> Prime(n)
    {
      if precalc != null && n < maxPrecalculated {
        prime := precalc.IsPrime(n);
      } else {
        prime := OnTheFlyIsPrime(n);
      }
    }

    /** The least prime above p exactly when p is not negative, or the table can still be asked
        about -1 and holds the prime 2. */
    method GetNextPrime(p: int) returns (q: int)
      requires Valid() && (precalc != null ==> p >= -1)
      ensures IsNextPrime(p, q) <==> p >= 0 || (precalc != null && maxPrecalculated >= 2)
      ensures !IsNextPrime(p, q) ==> q == -1
    {
      q := -1;
      if precalc != null && p < maxPrecalculated {
        q := precalc.GetNextPrime(p);
        if p == -1 && maxPrecalculated >= 2 {
          assert Prime(2);
        }
      }
      if q == -1 {
        q := OnTheFlyGetNextPrime(p);
      }
    }
  }
}

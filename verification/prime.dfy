/** The primality helpers of the repository: `is_prime` and `next_prime`.
    `floor(sqrt(n))` in the trial-division bound is modelled exactly, as `i * i <= n`. */
module Prime {
  import Arith

  /** The mathematical notion the helpers are meant to decide: no divisor strictly between 1 and n. */
  ghost predicate NoProperDivisor(n: int) {
    forall d :: 2 <= d < n ==> n % d != 0
  }

  /** The trial-division loop of `is_prime`: tries i, i + 2, i + 4, ... while the square of the
      candidate is at most n, and reports whether none of them divides n. */
  function OddTrial(n: int, i: int): bool
    requires i >= 3
    decreases n - i
  {
    if i * i > n then true
    else if n % i == 0 then false
    else
      Arith.MulPositive(i, i);
      OddTrial(n, i + 2)
  }

  /** `is_prime`: -1 for n < 2, 1 for a prime, 0 otherwise. */
  function IsPrime(n: int): (r: int)
    ensures r == -1 || r == 0 || r == 1
    ensures r == -1 <==> n < 2
  {
    if n < 2 then -1
    else if n < 4 then 1
    else if n % 2 == 0 then 0
    else if OddTrial(n, 3) then 1 else 0
  }

  /** `next_prime` as written: it steps forward WHILE `is_prime` answers 1, so it returns the first
      integer at or above n for which `is_prime` does not answer 1. */
  function NextPrime(n: int): (r: int)
    ensures r >= n
    ensures IsPrime(n) != 1 ==> r == n
    ensures IsPrime(r) != 1
    ensures forall m :: n <= m < r ==> IsPrime(m) == 1
    ensures IsPrime(n) == 1 && n >= 3 ==> r == n + 1
    ensures n >= 2 ==> r <= n + 2
    decreases if IsPrime(n) != 1 then 0 else if n == 2 then 2 else 1
  {
    if IsPrime(n) != 1 then n
    else if n == 2 then
      assert IsPrime(3) == 1 && IsPrime(4) == 0;
      NextPrime(3)
    else
      PrimeThenEven(n);
      NextPrime(n + 1)
  }

  /** A prime from 3 up is odd, so its successor is even and `is_prime` rejects it. */
  lemma PrimeThenEven(n: int)
    requires n >= 3 && IsPrime(n) == 1
    ensures IsPrime(n + 1) == 0
  {
    assert n % 2 == 1;
  }

  /** Trial division from i finds nothing when nothing from i up to n divides n. */
  lemma {:induction false} OddTrialPasses(n: int, i: int)
    requires i >= 3
    requires forall d :: i <= d < n ==> n % d != 0
    ensures OddTrial(n, i)
    decreases n - i
  {
    if i * i <= n {
      Arith.MulPositive(i, i);
      assert i * i >= 3 * i by { Arith.MulMonoLeft(3, i, i); }
      OddTrialPasses(n, i + 2);
    }
  }

  /** Trial division from i fails when a divisor e >= i with e * e <= n is reached by steps of two. */
  lemma {:induction false} OddTrialFinds(n: int, i: int, e: int)
    requires 3 <= i <= e && (e - i) % 2 == 0
    requires e * e <= n && n % e == 0
    ensures !OddTrial(n, i)
    decreases e - i
  {
    assert i * i <= n by { Arith.SquareMono(i, e); }
    if n % i != 0 {
      assert e - i >= 2;
      OddTrialFinds(n, i + 2, e);
    }
  }

  /** The cofactor of a proper divisor is at least 2. */
  lemma Cofactor(n: int, d: int) returns (q: int)
    requires 2 <= d < n && n % d == 0
    ensures n == d * q && q >= 2
  {
    q := n / d;
    assert n == d * q + n % d;
    if q <= 0 {
      Arith.MulMonoLeft(0, -q, d);
      assert false;
    } else if q == 1 {
      assert false;
    }
  }

  /** A composite n has a divisor e >= 2 with e * e <= n; for odd n that divisor is odd. */
  lemma SmallDivisor(n: int, d: int) returns (e: int)
    requires 2 <= d < n && n % d == 0
    ensures 2 <= e && e * e <= n && n % e == 0
    ensures n % 2 == 1 ==> e % 2 == 1
  {
    var q := Cofactor(n, d);
    var c;
    if d * d <= n {
      e, c := d, q;
    } else {
      e, c := q, d;
      assert q < d by {
        if q >= d {
          Arith.MulMonoLeft(d, q, d);
        }
      }
      Arith.MulMonoLeft(q, d, q);
      Arith.ModOfMultiple(d, q);
    }
    assert n == e * c;
    if e % 2 == 0 {
      Arith.EvenProduct(e, c);
    }
  }

  /** `is_prime` decides primality: for n >= 2 it answers 1 exactly when n has no proper divisor,
      and it answers -1 exactly below 2. */
  lemma IsPrimeCorrect(n: int)
    ensures n < 2 <==> IsPrime(n) == -1
    ensures n >= 2 ==> (IsPrime(n) == 1 <==> NoProperDivisor(n))
  {
    if n >= 2 {
      if IsPrime(n) == 1 {
        IsPrimeSound(n);
      }
      if NoProperDivisor(n) {
        IsPrimeComplete(n);
      }
    }
  }

  lemma IsPrimeSound(n: int)
    requires IsPrime(n) == 1
    ensures NoProperDivisor(n)
  {
    if n == 3 {
      forall d | 2 <= d < n
        ensures n % d != 0
      {
        assert d == 2;
      }
    } else if n >= 4 {
      forall d | 2 <= d < n
        ensures n % d != 0
      {
        if n % d == 0 {
          assert n % 2 == 1 && OddTrial(n, 3);
          var e := SmallDivisor(n, d);
          assert (e - 3) % 2 == 0;
          OddTrialFinds(n, 3, e);
        }
      }
    }
  }

  lemma IsPrimeComplete(n: int)
    requires n >= 2 && NoProperDivisor(n)
    ensures IsPrime(n) == 1
  {
    if n >= 4 {
      assert n % 2 != 0;
      OddTrialPasses(n, 3);
    }
  }

  /** The small cases `is_prime` answers before its loop. */
  lemma IsPrimeSmallCases(n: int)
    ensures IsPrime(2) == 1 && IsPrime(3) == 1
    ensures n >= 4 && n % 2 == 0 ==> IsPrime(n) == 0
  {
  }

  /** The initial base size 53 is prime, so `next_prime(53)` is 54. */
  lemma NextPrimeOfInitSize()
    ensures IsPrime(53) == 1
    ensures NextPrime(53) == 54
  {
    assert OddTrial(53, 3);
  }
}

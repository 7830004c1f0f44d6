/** The string hash and the double-hashing probe sequence: `ht_hash` and `ht_get_hash`.
    `pow` is taken as exact integer power; character codes are taken as non-negative. */
module Hash {
  import Arith

  /** The two multipliers, `HT_PRIME_1` and `HT_PRIME_2`. */
  const HT_PRIME_1: int := 157
  const HT_PRIME_2: int := 211

  function Pow(a: int, e: nat): int
    decreases e
  {
    if e == 0 then 1 else a * Pow(a, e - 1)
  }

  /** The loop of `ht_hash` from index i on, with running value acc: each step adds
      a^(len-(i+1)) * s[i] and reduces modulo m. */
  function HashFrom(s: string, a: int, m: int, i: nat, acc: int): (r: int)
    requires m > 0 && i <= |s| && 0 <= acc < m
    ensures 0 <= r < m
    decreases |s| - i
  {
    if i == |s| then acc
    else HashFrom(s, a, m, i + 1, (acc + Pow(a, |s| - (i + 1)) * (s[i] as int)) % m)
  }

  /** `ht_hash(s, a, m)`. */
  function StrHash(s: string, a: int, m: int): (r: int)
    requires m > 0
    ensures 0 <= r < m
  {
    HashFrom(s, a, m, 0, 0)
  }

  /** The unreduced polynomial tail: the sum of s[j] * a^(|s|-1-j) over j >= i. */
  function Terms(s: string, a: int, i: nat): int
    requires i <= |s|
    decreases |s| - i
  {
    if i == |s| then 0 else Pow(a, |s| - (i + 1)) * (s[i] as int) + Terms(s, a, i + 1)
  }

  /** The string read as a polynomial in a with its character codes as coefficients. */
  function Polynomial(s: string, a: int): int {
    Terms(s, a, 0)
  }

  lemma {:induction false} HashFromTerms(s: string, a: int, m: int, i: nat, acc: int)
    requires m > 0 && i <= |s| && 0 <= acc < m
    ensures HashFrom(s, a, m, i, acc) == (acc + Terms(s, a, i)) % m
    decreases |s| - i
  {
    if i < |s| {
      var t := Pow(a, |s| - (i + 1)) * (s[i] as int);
      HashFromTerms(s, a, m, i + 1, (acc + t) % m);
      Arith.ModAddLeft(acc + t, Terms(s, a, i + 1), m);
    }
  }

  /** Reducing at every step, as `ht_hash` does, gives the polynomial reduced once at the end. */
  lemma HashIsPolynomial(s: string, a: int, m: int)
    requires m > 0
    ensures StrHash(s, a, m) == Polynomial(s, a) % m
  {
    HashFromTerms(s, a, m, 0, 0);
  }

  /** `ht_get_hash`: attempt number `attempt` of the double-hashing probe sequence over n buckets. */
  function GetHash(s: string, n: int, attempt: nat): (r: int)
    requires n > 0
    ensures 0 <= r < n
    ensures attempt == 0 ==> r == StrHash(s, HT_PRIME_1, n)
  {
    var h := StrHash(s, HT_PRIME_1, n);
    var step := StrHash(s, HT_PRIME_2, n) + 1;
    Arith.ModOfSmall(h, n);
    (h + attempt * step) % n
  }

  /** The probe sequence only depends on the attempt number modulo n, so it repeats with period n:
      the first n attempts visit every slot the sequence ever visits. */
  lemma ProbePeriodic(s: string, n: int, attempt: nat)
    requires n > 0
    ensures GetHash(s, n, attempt) == GetHash(s, n, attempt % n)
    ensures GetHash(s, n, attempt + n) == GetHash(s, n, attempt)
  {
    var h := StrHash(s, HT_PRIME_1, n);
    var step := StrHash(s, HT_PRIME_2, n) + 1;
    var q := attempt / n;
    var rem := attempt % n;
    assert attempt == q * n + rem;
    assert h + attempt * step == (h + rem * step) + (q * step) * n;
    Arith.ModShift(h + rem * step, q * step, n);
    assert h + (attempt + n) * step == (h + attempt * step) + step * n;
    Arith.ModShift(h + attempt * step, step, n);
  }

  lemma {:induction false} PowCongruent(a: int, b: int, m: int, e: nat)
    requires m > 0 && a % m == b % m
    ensures Pow(a, e) % m == Pow(b, e) % m
    decreases e
  {
    if e > 0 {
      PowCongruent(a, b, m, e - 1);
      Arith.ModMulCongruent(Pow(a, e - 1), Pow(b, e - 1), a, m);
      Arith.ModMulCongruent(a, b, Pow(b, e - 1), m);
    }
  }

  lemma {:induction false} TermsCongruent(s: string, a: int, b: int, m: int, i: nat)
    requires m > 0 && a % m == b % m && i <= |s|
    ensures Terms(s, a, i) % m == Terms(s, b, i) % m
    decreases |s| - i
  {
    if i < |s| {
      var e := |s| - (i + 1);
      PowCongruent(a, b, m, e);
      Arith.ModMulCongruent(Pow(a, e), Pow(b, e), s[i] as int, m);
      TermsCongruent(s, a, b, m, i + 1);
      Arith.ModAddCongruent(Pow(a, e) * (s[i] as int), Pow(b, e) * (s[i] as int),
                            Terms(s, a, i + 1), Terms(s, b, i + 1), m);
    }
  }

  /** Two multipliers congruent modulo the bucket count give the same hash for every string. */
  lemma HashCongruent(s: string, a: int, b: int, m: int)
    requires m > 0 && a % m == b % m
    ensures StrHash(s, a, m) == StrHash(s, b, m)
  {
    HashIsPolynomial(s, a, m);
    HashIsPolynomial(s, b, m);
    TermsCongruent(s, a, b, m, 0);
  }

  /** At 54 buckets (the initial table) the two hashes coincide for every key, because
      211 - 157 = 54; the probe step is then always hash_a + 1. */
  lemma InitialHashesCoincide(s: string)
    ensures StrHash(s, HT_PRIME_1, 54) == StrHash(s, HT_PRIME_2, 54)
    ensures forall attempt: nat {:trigger GetHash(s, 54, attempt)} ::
      GetHash(s, 54, attempt) == (StrHash(s, HT_PRIME_1, 54) * (attempt + 1) + attempt) % 54
  {
    HashCongruent(s, HT_PRIME_1, HT_PRIME_2, 54);
    var h := StrHash(s, HT_PRIME_1, 54);
    forall attempt: nat
      ensures GetHash(s, 54, attempt) == (h * (attempt + 1) + attempt) % 54
    {
      assert h + attempt * (h + 1) == h * (attempt + 1) + attempt;
    }
  }
}

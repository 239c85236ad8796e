/** Trial-division primality test on the 6k +/- 1 wheel (`is_prime`). */
module Primality {
  import opened Results
  import opened Power

  /** The witness `is_prime` reports for a composite number. */
  datatype PrimeError = PrimeError(divisor: int)

  /** `n` is prime: greater than one with no divisor in `[2, n - 1]`. */
  ghost predicate IsPrimeNumber(n: int)
  {
    n > 1 && forall d :: 2 <= d < n ==> n % d != 0
  }

  /** No integer in `[2, bound)` divides `n`. */
  ghost predicate NoDivisorBelow(n: int, bound: int)
  {
    forall d :: 2 <= d < bound ==> n % d != 0
  }

  /** `d` is the least divisor of `n` in `[2, n - 1]`. */
  ghost predicate IsLeastDivisor(d: int, n: int)
  {
    2 <= d < n && n % d == 0 && NoDivisorBelow(n, d)
  }

  /** Returns whether `n` is prime and, for a composite `n > 3`, a divisor of it.
      For `n <= 3` the answer is just `n > 1`: 0, 1 and every negative number are
      reported not prime and without a witness. */
  method IsPrime(n: int) returns (prime: bool, error: Option<PrimeError>)
    ensures prime <==> IsPrimeNumber(n)
    ensures n <= 3 ==> prime == (n > 1) && error == None
    ensures error.Some? <==> !prime && n > 3
    ensures error.Some? ==> IsLeastDivisor(error.value.divisor, n)
  {
    if n <= 3 {
      return n > 1, None;
    }
    if n % 2 == 0 {
      return false, Some(PrimeError(2));
    }
    if n % 3 == 0 {
      ExtendNoDivisor(n, 2);
      return false, Some(PrimeError(3));
    }
    WheelStart(n);
    var i := 5;
    while i * i <= n
      invariant 5 <= i && i % 6 == 5
      invariant NoDivisorBelow(n, i)
      decreases n - i
    {
      WheelStep(n, i);
      if n % i == 0 {
        return false, Some(PrimeError(i));
      }
      if n % (i + 2) == 0 {
        return false, Some(PrimeError(i + 2));
      }
      i := i + 6;
    }
    NoDivisorAboveRoot(n, i);
    return true, None;
  }

  /** While `i * i <= n`, both candidates `i` and `i + 2` lie below `n`. */
  lemma CandidatesBelow(n: int, i: int)
    requires i >= 5 && i * i <= n
    ensures i + 2 < n
  {
    MulLe(5, i, i);
  }

  /** One turn of the wheel: a divisor found at `i` or `i + 2` is the least
      one, and finding none extends the divisor-free range to `i + 6`. */
  lemma WheelStep(n: int, i: int)
    requires i >= 5 && i % 6 == 5 && i * i <= n
    requires n % 2 != 0 && n % 3 != 0
    requires NoDivisorBelow(n, i)
    ensures i + 2 < n
    ensures n % i == 0 ==> IsLeastDivisor(i, n)
    ensures n % i != 0 && n % (i + 2) == 0 ==> IsLeastDivisor(i + 2, n)
    ensures n % i != 0 && n % (i + 2) != 0 ==> NoDivisorBelow(n, i + 6)
  {
    CandidatesBelow(n, i);
    if n % i != 0 {
      WheelResidues(i);
      NotDividedVia(2, i + 1, n);
      ExtendNoDivisor(n, i);
      ExtendNoDivisor(n, i + 1);
      if n % (i + 2) != 0 {
        WheelSkips(n, i);
      }
    }
  }

  /** A number divisible by neither 2 nor 3 has no divisor in `[2, 5)`. */
  lemma WheelStart(n: int)
    requires n % 2 != 0 && n % 3 != 0
    ensures NoDivisorBelow(n, 5)
  {
    forall d | 2 <= d < 5 ensures n % d != 0 {
      if d == 4 && n % 4 == 0 {
        DividesTransitive(2, 4, n);
      }
    }
  }

  /** Between two wheel candidates `i` and `i + 6` (with `i % 6 == 5`), only
      `i` and `i + 2` can divide a number that neither 2 nor 3 divides. */
  lemma WheelSkips(n: int, i: int)
    requires i >= 5 && i % 6 == 5
    requires n % 2 != 0 && n % 3 != 0
    requires NoDivisorBelow(n, i) && n % i != 0 && n % (i + 2) != 0
    ensures NoDivisorBelow(n, i + 6)
  {
    WheelResidues(i);
    NotDividedVia(2, i + 1, n);
    NotDividedVia(2, i + 3, n);
    NotDividedVia(3, i + 4, n);
    NotDividedVia(2, i + 5, n);
    ExtendNoDivisor(n, i);
    ExtendNoDivisor(n, i + 1);
    ExtendNoDivisor(n, i + 2);
    ExtendNoDivisor(n, i + 3);
    ExtendNoDivisor(n, i + 4);
    ExtendNoDivisor(n, i + 5);
  }

  /** The numbers between two wheel candidates are multiples of 2 or 3. */
  lemma WheelResidues(i: int)
    requires i % 6 == 5
    ensures (i + 1) % 2 == 0 && (i + 3) % 2 == 0 && (i + 4) % 3 == 0 && (i + 5) % 2 == 0
  {
    var k := i / 6;
    assert i == 6 * k + 5;
    assert i + 1 == (3 * k + 3) * 2;
    assert i + 3 == (3 * k + 4) * 2;
    assert i + 4 == (2 * k + 3) * 3;
    assert i + 5 == (3 * k + 5) * 2;
    ModOfMultiple(3 * k + 3, 2);
    ModOfMultiple(3 * k + 4, 2);
    ModOfMultiple(2 * k + 3, 3);
    ModOfMultiple(3 * k + 5, 2);
  }

  /** A non-divisor at `bound` extends the divisor-free range by one. */
  lemma ExtendNoDivisor(n: int, bound: int)
    requires NoDivisorBelow(n, bound) && (bound >= 2 ==> n % bound != 0)
    ensures NoDivisorBelow(n, bound + 1)
  {
  }

  /** A multiple `d` of `p` cannot divide a number that `p` does not divide. */
  lemma NotDividedVia(p: int, d: int, n: int)
    requires p > 0 && d > 0 && d % p == 0 && n % p != 0
    ensures n % d != 0
  {
    if n % d == 0 {
      DividesTransitive(p, d, n);
    }
  }

  /** Once `i * i > n`, a divisor of `n` at or above `i` would leave a cofactor
      below `i`, so no divisor below `i` means `n` is prime. */
  lemma NoDivisorAboveRoot(n: int, i: int)
    requires n > 1 && i >= 2 && i * i > n
    requires NoDivisorBelow(n, i)
    ensures IsPrimeNumber(n)
  {
    forall d | 2 <= d < n ensures n % d != 0 {
      if n % d == 0 && d >= i {
        CofactorBelowRoot(n, d, i);
      }
    }
  }

  /** The cofactor of a divisor `d >= i` of `n < i * i` is a divisor below `i`. */
  lemma CofactorBelowRoot(n: int, d: int, i: int)
    requires i >= 2 && i * i > n && i <= d < n && n % d == 0
    ensures 2 <= n / d < i && n % (n / d) == 0
  {
    var e := n / d;
    assert n == e * d;
    if e < 2 {
      MulLe(e, 1, d);
    } else if e >= i {
      MulLe(i, e, d);
      MulLe(i, d, i);
    } else {
      ModOfMultiple(d, e);
      assert d * e == e * d;
    }
  }

  /** The divisor `is_prime` reports is itself prime: any divisor of it would be
      a smaller divisor of `n`. */
  lemma LeastDivisorIsPrime(d: int, n: int)
    requires IsLeastDivisor(d, n)
    ensures IsPrimeNumber(d)
  {
    forall e | 2 <= e < d ensures d % e != 0 {
      if d % e == 0 {
        DividesTransitive(e, d, n);
      }
    }
  }

  /** The least divisor determines the exact cofactor `n // d`. */
  lemma LeastDivisorCofactor(d: int, n: int)
    requires IsLeastDivisor(d, n)
    ensures n / d * d == n && 2 <= n / d < n
  {
    var e := n / d;
    assert n == e * d;
    if e < 2 {
      MulLe(e, 1, d);
    } else {
      MulLe(2, d, e);
      assert d * e == e * d;
    }
  }
}

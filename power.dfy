/** Integer exponentiation, the modular identities the key exchange rests on,
    and Python's `int.bit_length`. */
module Power {

  /** `b ** e` on Python's unbounded integers (so `Pow(0, 0) == 1`). */
  function Pow(b: int, e: nat): int
  {
    if e == 0 then 1 else b * Pow(b, e - 1)
  }

  /** Euclidean division is unique: any `q * n + r` with `0 <= r < n` is the
      quotient and remainder of its value. */
  lemma DivModUnique(a: int, n: int, q: int, r: int)
    requires n > 0 && 0 <= r < n && a == q * n + r
    ensures a / n == q && a % n == r
  {
    var q', r' := a / n, a % n;
    assert q' * n + r' == q * n + r;
    if q > q' {
      MulAtLeast(q - q', n);
    } else if q < q' {
      MulAtLeast(q' - q, n);
    }
  }

  /** Multiplying by a factor of at least one does not shrink a positive number. */
  lemma MulAtLeast(m: int, n: int)
    requires m >= 1 && n > 0
    ensures m * n >= n
  {
    assert m * n == (m - 1) * n + n;
  }

  /** Multiplication by a non-negative number is monotone. */
  lemma MulLe(a: int, b: int, c: int)
    requires a <= b && c >= 0
    ensures a * c <= b * c
  {
    assert b * c - a * c == (b - a) * c;
  }

  /** Adding a multiple of `n` does not change the remainder. */
  lemma ModAddMultiple(x: int, k: int, n: int)
    requires n > 0
    ensures (x + k * n) % n == x % n
  {
    DivModUnique(x + k * n, n, x / n + k, x % n);
  }

  /** A product is a multiple of each positive factor. */
  lemma ModOfMultiple(k: int, d: int)
    requires d > 0
    ensures (k * d) % d == 0
  {
    ModAddMultiple(0, k, d);
  }

  /** Divisibility is transitive: `p | d` and `d | n` give `p | n`. */
  lemma DividesTransitive(p: int, d: int, n: int)
    requires p > 0 && d > 0
    requires d % p == 0 && n % d == 0
    ensures n % p == 0
  {
    var a, b := n / d, d / p;
    assert d == b * p;
    assert n == a * d;
    assert n == (a * b) * p;
    ModOfMultiple(a * b, p);
  }

  /** Reducing the left factor first does not change a product's remainder. */
  lemma MulModLeft(a: int, b: int, n: int)
    requires n > 0
    ensures ((a % n) * b) % n == (a * b) % n
  {
    var q := a / n;
    assert a == q * n + a % n;
    assert a * b == (a % n) * b + (q * b) * n;
    ModAddMultiple((a % n) * b, q * b, n);
  }

  /** `b ** (x + y) == b ** x * b ** y`. */
  lemma {:induction false} PowAdd(b: int, x: nat, y: nat)
    ensures Pow(b, x + y) == Pow(b, x) * Pow(b, y)
  {
    if x > 0 {
      PowAdd(b, x - 1, y);
      assert Pow(b, x + y) == b * Pow(b, x - 1 + y);
    }
  }

  /** `(b ** x) ** y == b ** (x * y)`. */
  lemma {:induction false} PowMul(b: int, x: nat, y: nat)
    ensures Pow(Pow(b, x), y) == Pow(b, x * y)
  {
    if y > 0 {
      PowMul(b, x, y - 1);
      assert x * y == x * (y - 1) + x;
      PowAdd(b, x * (y - 1), x);
    }
  }

  /** Reducing the right factor first does not change a product's remainder. */
  lemma MulModRight(a: int, b: int, n: int)
    requires n > 0
    ensures (a * (b % n)) % n == (a * b) % n
  {
    MulModLeft(b, a, n);
    assert a * (b % n) == (b % n) * a;
    assert a * b == b * a;
  }

  /** Reducing the base modulo `n` first does not change `b ** e % n`. */
  lemma {:induction false} PowModBase(b: int, e: nat, n: int)
    requires n > 0
    ensures Pow(b % n, e) % n == Pow(b, e) % n
  {
    if e > 0 {
      var p', p := Pow(b % n, e - 1), Pow(b, e - 1);
      PowModBase(b, e - 1, n);
      assert Pow(b % n, e) == (b % n) * p';
      assert Pow(b, e) == b * p;
      MulModLeft(b, p', n);
      MulModRight(b, p', n);
      MulModRight(b, p, n);
    }
  }

  /** Powers of two grow with the exponent and are at least one. */
  lemma {:induction false} PowMonotone(x: nat, y: nat)
    requires x <= y
    ensures 1 <= Pow(2, x) <= Pow(2, y)
  {
    if x < y {
      PowMonotone(x, y - 1);
    } else if x > 0 {
      PowMonotone(x - 1, y - 1);
    }
  }

  /** Python's `int.bit_length()` on non-negative values: the number of
      binary digits, with `BitLength(0) == 0`. */
  function BitLength(n: nat): nat
  {
    if n == 0 then 0 else 1 + BitLength(n / 2)
  }

  /** A positive `n` has exactly `BitLength(n)` binary digits. */
  lemma {:induction false} BitLengthBounds(n: nat)
    requires n > 0
    ensures BitLength(n) >= 1
    ensures Pow(2, BitLength(n) - 1) <= n < Pow(2, BitLength(n))
  {
    if n > 1 {
      var m := n / 2;
      BitLengthBounds(m);
      var len := BitLength(m);
      assert BitLength(n) == len + 1;
      assert Pow(2, len + 1) == 2 * Pow(2, len);
      assert Pow(2, len) == 2 * Pow(2, len - 1);
      assert n == 2 * m || n == 2 * m + 1;
    }
  }

  /** A positive `n` has fewer than `k` bits exactly when it is below `2 ** (k - 1)`. */
  lemma BitLengthBelow(n: nat, k: nat)
    requires n > 0 && k >= 1
    ensures BitLength(n) < k <==> n < Pow(2, k - 1)
  {
    BitLengthBounds(n);
    var len := BitLength(n);
    if len < k {
      PowMonotone(len, k - 1);
    } else {
      PowMonotone(k - 1, len - 1);
    }
  }
}

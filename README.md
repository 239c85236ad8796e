# Diffie-Hellman key exchange, modelled in Dafny

This project models the core of a small explanatory Python implementation of the
Diffie-Hellman key exchange (`diffie_hellman/diffie_hellman.py`). Two parties agree on a
shared secret from public parameters `(g, n)` and private secrets. The model covers:

- the trial-division primality test `is_prime` on the 6k +/- 1 wheel;
- the exhaustive primitive-root scan `is_primitive_root_modulo_n`, which fills a
  dictionary of residues and stops at the first repeat;
- the validating records `DiffieHellmanConstants` and `DiffieHellman`;
- `calculate_public`, `calculate_shared` and the exchange `diffie_hellman`.

Layout, one module per file:

- `results.dfy` (`Results`): `Option` and `Result`. The `ValueError`s the source raises
  become `Failure` values carrying the error's payload (`DhError`).
- `power.dfy` (`Power`): `Pow` (Python's `**` on unbounded integers) and `BitLength`
  (`int.bit_length`). It also holds the division, remainder and exponent lemmas that
  the exchange's correctness rests on.
- `primality.dfy` (`Primality`): `IsPrime` is a method with the source's `while` loop.
  Its loop invariant says that nothing below the current wheel candidate divides `n`.
- `primitive_root.dfy` (`PrimitiveRoot`): `IsPrimitiveRoot` is a method with the
  source's loop. The dictionary is a `map<int, nat>`, and the invariant is that it maps
  each residue seen so far to the only exponent that has produced it.
- `diffie_hellman.dfy` (`DiffieHellman`): the two records are datatypes built by
  factories. `NewConstants` is a method because it runs the two checks above;
  `NewParticipant`, `Public`, `Shared` and `Exchange` are functions. The source's
  `assert alice_shared == bob_shared` is an `assert` in `Exchange`, and the verifier
  proves it never fails.
- `examples.dfy` (`DiffieHellmanExamples`): the concrete cases from
  `diffie_hellman/diffie_hellman_test.py`, stated as lemmas.

Behaviour kept from the code, edge cases included:

- `IsPrime` answers `n > 1` for every `n <= 3`, so every negative number is "not prime",
  with no witness.
- Because of that, `DiffieHellmanConstants` with a negative `n` gets to the composite
  message with no divisor. The source then raises an `AttributeError`, not a
  `ValueError`; the model returns a distinct `NegativeModulus` failure. The checks run in
  the source's order: zero, one, negative (missing witness), composite, then
  primitive root.
- The weak-modulus advisory is computed after the primality check passes and before the
  primitive-root check, as in the source. It is returned as the flag `weak`.
- For `n <= 3` the scan covers at most two exponents. So, for example, `g = 0` passes it
  modulo 3 (`ZeroPassesScanModThree`), although 0 is not a primitive root. The model
  keeps this. `ValidConstants` means "prime, and passes the scan", which is the
  source's notion.
- A secret equal to `n` is accepted: the check is `secret > n`, even though the message
  says "less than".

The `## Model` table lists each member's verified contract.

## Model

| member | source | states |
|---|---|---|
| `Primality.IsPrime` | diffie_hellman/diffie_hellman.py:16-31 | The answer is true exactly when `n > 1` and no `d` in `[2, n-1]` divides `n`. For `n <= 3` it is `n > 1` with no witness. A witness is returned exactly when `n > 3` is composite, and it is the least divisor of `n` in `[2, n-1]`. |
| `Primality.WheelStart` | diffie_hellman/diffie_hellman.py:20-24 | Once 2 and 3 do not divide `n`, nothing in `[2, 5)` does, so the wheel may start at 5. |
| `Primality.WheelSkips` | diffie_hellman/diffie_hellman.py:25-30 | With `i % 6 == 5`, testing only `i` and `i + 2` before moving to `i + 6` misses no divisor of a number that 2 and 3 do not divide. |
| `Primality.WheelStep` | diffie_hellman/diffie_hellman.py:25-30 | One turn of the loop: a divisor found at `i` or `i + 2` is the least divisor of `n`. If neither divides `n`, nothing below `i + 6` does. Both candidates lie below `n`. |
| `Primality.NoDivisorAboveRoot` | diffie_hellman/diffie_hellman.py:25 | If nothing below `i` divides `n` and `i * i > n`, then `n` is prime, so stopping at the square root is sound. |
| `Primality.CofactorBelowRoot` | diffie_hellman/diffie_hellman.py:25 | A divisor `d >= i` of `n < i * i` has a cofactor `n / d` in `[2, i)` that also divides `n`. |
| `Primality.LeastDivisorIsPrime` | diffie_hellman/diffie_hellman.py:20-29 | The witness `is_prime` returns is itself prime. |
| `Primality.LeastDivisorCofactor` | diffie_hellman/diffie_hellman.py:71-72 | For the returned witness `d`, `n // d` is exact (`n // d * d == n`) and lies in `[2, n-1]`. |
| `PrimitiveRoot.IsPrimitiveRoot` | diffie_hellman/diffie_hellman.py:42-55 | The answer is true exactly when `n <= 1` or `g**0 .. g**(n-2)` are pairwise distinct mod `n`. It is true exactly when there is no error. An error is the first collision: `0 <= previous < current <= n-2`, both powers leave `remainder`, and all powers before `current` are distinct. |
| `PrimitiveRoot.AddFirstExponent` | diffie_hellman/diffie_hellman.py:49-54 | Storing a residue not yet in the dictionary, at exponent `i`, keeps the invariant: every residue maps to the only exponent below `i + 1` that produced it. |
| `PrimitiveRoot.RepeatIsFirstCollision` | diffie_hellman/diffie_hellman.py:50-53 | A residue found in the dictionary gives the first collision `(i, remainder, remainders[remainder])`, and then `g` fails the scan. |
| `PrimitiveRoot.CollisionShifts` | diffie_hellman/diffie_hellman.py:49-53 | If `g**current` and `g**previous` agree mod `n`, so do `g**(current+k)` and `g**(previous+k)` for every `k`. |
| `PrimitiveRoot.PowersRepeatAfterCollision` | diffie_hellman/diffie_hellman.py:46-53 | After the reported collision, every power of `g` mod `n` equals one of the first `current` powers (`current < n - 1`). |
| `DiffieHellman.NewConstants` | diffie_hellman/diffie_hellman.py:63-85 | Succeeds, with `Constants(g, n)`, exactly when `n` is prime and `g` passes the scan. Otherwise it fails with: zero for `n == 0`; one for `n == 1`; `NegativeModulus` for `n < 0`; for a composite `n >= 2`, the least divisor and an exact cofactor; for a prime `n`, the scan's first collision. `weak` holds exactly when `n` is prime and has fewer than 2048 bits. |
| `DiffieHellman.NewParticipant` | diffie_hellman/diffie_hellman.py:93-99 | Succeeds exactly when `1 <= secret <= n`, and the success is a valid participant. A secret below 1 fails as too small, which is checked first; a secret above `n` fails as too large. |
| `DiffieHellman.Public` | diffie_hellman/diffie_hellman.py:102-104 | For a valid participant, the public value lies in `[0, n)`. |
| `DiffieHellman.Shared` | diffie_hellman/diffie_hellman.py:107-109 | For a valid participant, the shared value lies in `[0, n)`. |
| `DiffieHellman.SharedSecretAgreement` | diffie_hellman/diffie_hellman.py:123-128 | Under equal parameters, `Shared(alice, Public(bob)) == Shared(bob, Public(alice)) == g**(a*b) % n`. |
| `DiffieHellman.Exchange` | diffie_hellman/diffie_hellman.py:112-130 | Fails exactly when the two parameter sets differ, and the failure names both sets. Otherwise the two sides agree, so the assert holds, and the shared value is `g**(a*b) % n`. |
| `Power.PowModBase` | diffie_hellman/diffie_hellman.py:123-126 | `(b % n)**e % n == b**e % n`: reducing the public value before raising it changes nothing. |
| `Power.PowMul` | diffie_hellman/diffie_hellman.py:123-126 | `(b**x)**y == b**(x*y)`. |
| `Power.BitLengthBounds` | diffie_hellman/diffie_hellman.py:74 | For `n > 0`, `2**(BitLength(n)-1) <= n < 2**BitLength(n)`, which is the meaning of `int.bit_length`. |
| `Power.BitLengthBelow` | diffie_hellman/diffie_hellman.py:74-77 | For `n > 0`, `BitLength(n) < k` exactly when `n < 2**(k-1)`. With `NewConstants`, the advisory therefore fires exactly for prime moduli below `2**2047`. |
| `DiffieHellmanExamples.ModulusExamples` | diffie_hellman/diffie_hellman_test.py:60-80 | 0, 1 and 10 are not prime. 10's least divisor is 2, with cofactor 5. 23 is prime and has bit length 5. |
| `DiffieHellmanExamples.FiveIsARootModTwentyThree` | diffie_hellman/diffie_hellman_test.py:88-91 | 5 passes the scan modulo 23. |
| `DiffieHellmanExamples.FourIsNotARootModTwentyThree` | diffie_hellman/diffie_hellman_test.py:83-85 | 4 does not pass the scan modulo 23. |
| `DiffieHellmanExamples.PowerTable` | diffie_hellman/diffie_hellman.py:48-49 | A table that starts at `1 % n` and multiplies by `g` mod `n` at each step lists `g**i % n`. |
| `DiffieHellmanExamples.ConstantsAdvisoryExample` | diffie_hellman/diffie_hellman_test.py:75-91 | Calling the factory with `(5, 23)` yields `Success(Constants(5, 23))` and raises the weak-modulus advisory. |
| `DiffieHellmanExamples.ConstantsExamples` | diffie_hellman/diffie_hellman_test.py:60-91 | `(5, 23)` is a valid parameter set. `(2, 0)`, `(2, 1)`, `(2, 10)` and `(4, 23)` are not. |
| `DiffieHellmanExamples.ZeroPassesScanModThree` | diffie_hellman/diffie_hellman.py:47-55 | `g = 0` passes the scan modulo 3, because the scan is too short to see a repeat. |
| `DiffieHellmanExamples.SecretExamples` | diffie_hellman/diffie_hellman_test.py:94-105 | Secrets -3, 0 and -100 are too small. Secrets 100, 1000 and 20000 are too large. The secret 23 is accepted. |
| `DiffieHellmanExamples.ExchangeExamples` | diffie_hellman/diffie_hellman_test.py:108-136 | With `(5, 23)`, secrets 4 and 3 give public values 4 and 10 and the shared value 18 from both sides. The exchange returns 18. It fails with a mismatch against `(7, 23)`. |

## Left out

- The `__main__` command-line block (argument parsing and printing) is I/O glue and is not modelled.
- The `print` calls are not modelled. The weak-modulus warning is the returned flag `weak`; its message text and the echoes of the public values are left out.
- The wording of the `ValueError` messages is left out. Only their payloads are kept: divisor and cofactor, the collision triple, the violated bound, and both parameter sets on a mismatch.
- `DiffieHellman.Public`: its own contract gives only the range of the value. What the value is, `g ** secret % n`, is what `SharedSecretAgreement` and `Exchange` build on.
- `DiffieHellman.Shared`: likewise, its own contract gives only the range; the agreement lemma and `Exchange` state its value.
- Python dataclasses are mutable, so their fields could be reassigned after validation. The model treats both records as immutable values, which is how the code uses them.
- Running time is not modelled: the O(n) scan and the cost of big-integer powers. Dafny's `int` is unbounded, as Python's is.
- `assert` statements are not disabled (Python's `-O`). `Exchange` is proved to return the agreed value, so the assert is never reached as a failure.
- No cryptographic claims are modelled (randomness, side channels), and the code makes none.

/** The Diffie-Hellman records and the exchange: `DiffieHellmanConstants`,
    `DiffieHellman`, `calculate_public`, `calculate_shared` and `diffie_hellman`. */
module DiffieHellman {
  import opened Results
  import opened Power
  import opened Primality
  import opened PrimitiveRoot

  /** Below this many bits the modulus draws the weak-modulus advisory. */
  const RecommendedBitLength: nat := 2048

  /** The public parameters: generator `g` and modulus `n`. Two sets are equal
      exactly when both fields are. */
  datatype Constants = Constants(g: int, n: int)

  /** One participant: the shared parameters and a private secret. */
  datatype Participant = Participant(constants: Constants, secret: int)

  /** The `ValueError`s the constructors and the exchange raise, by payload. */
  datatype DhError =
    | InvalidModulusZero
    | InvalidModulusOne
    | Composite(divisor: int, cofactor: int)
      /** A negative modulus: `is_prime` gives no witness, so building the
          composite message fails on the missing divisor (an `AttributeError`). */
    | NegativeModulus
    | NotPrimitiveRoot(current: int, remainder: int, previous: int)
    | SecretTooSmall(secret: int)
    | SecretTooLarge(secret: int, n: int)
    | ParameterMismatch(alice: Constants, bob: Constants)

  /** What `DiffieHellmanConstants` establishes about its fields. */
  ghost predicate ValidConstants(c: Constants)
  {
    IsPrimeNumber(c.n) && PassesRootScan(c.g, c.n)
  }

  /** What `DiffieHellman` establishes about its secret. */
  predicate ValidParticipant(p: Participant)
  {
    1 <= p.secret <= p.constants.n
  }

  /** `DiffieHellmanConstants(g, n)`: checks that `n` is prime, then that `g`
      passes the primitive-root scan. `weak` is the weak-modulus advisory,
      raised once the primality check has passed and before the root check. */
  method NewConstants(g: int, n: int) returns (r: Result<Constants, DhError>, weak: bool)
    ensures r.Success? <==> ValidConstants(Constants(g, n))
    ensures r.Success? ==> r.value == Constants(g, n)
    ensures n == 0 ==> r == Failure(InvalidModulusZero)
    ensures n == 1 ==> r == Failure(InvalidModulusOne)
    ensures n < 0 ==> r == Failure(NegativeModulus)
    ensures n >= 2 && !IsPrimeNumber(n) ==>
      r.Failure? && r.error.Composite? &&
      IsLeastDivisor(r.error.divisor, n) && r.error.divisor * r.error.cofactor == n
    ensures IsPrimeNumber(n) && !PassesRootScan(g, n) ==>
      r.Failure? && r.error.NotPrimitiveRoot? &&
      IsFirstCollision(g, n, PrimitiveRootError(r.error.current, r.error.remainder, r.error.previous))
    ensures weak <==> n >= 2 && IsPrimeNumber(n) && BitLength(n) < RecommendedBitLength
  {
    weak := false;
    var prime, primeError := IsPrime(n);
    if !prime {
      if n == 0 {
        return Failure(InvalidModulusZero), weak;
      }
      if n == 1 {
        return Failure(InvalidModulusOne), weak;
      }
      if primeError.None? {
        return Failure(NegativeModulus), weak;
      }
      var d := primeError.value.divisor;
      LeastDivisorCofactor(d, n);
      return Failure(Composite(d, n / d)), weak;
    }
    weak := BitLength(n) < RecommendedBitLength;
    var root, rootError := IsPrimitiveRoot(g, n);
    if !root {
      var e := rootError.value;
      return Failure(NotPrimitiveRoot(e.current, e.remainder, e.previous)), weak;
    }
    return Success(Constants(g, n)), weak;
  }

  /** `DiffieHellman(constants, secret)`: the secret must lie in `[1, n]`; the
      lower bound is checked first. */
  function NewParticipant(constants: Constants, secret: int): (r: Result<Participant, DhError>)
    ensures r.Success? <==> 1 <= secret <= constants.n
    ensures r.Success? ==> r.value == Participant(constants, secret) && ValidParticipant(r.value)
    ensures secret < 1 ==> r == Failure(SecretTooSmall(secret))
    ensures 1 <= secret && constants.n < secret ==> r == Failure(SecretTooLarge(secret, constants.n))
  {
    if secret < 1 then Failure(SecretTooSmall(secret))
    else if secret > constants.n then Failure(SecretTooLarge(secret, constants.n))
    else Success(Participant(constants, secret))
  }

  /** `calculate_public`: `g ** secret % n`. */
  function Public(p: Participant): (r: int)
    requires ValidParticipant(p)
    ensures 0 <= r < p.constants.n
  {
    Pow(p.constants.g, p.secret) % p.constants.n
  }

  /** `calculate_shared`: the peer's public value raised to the secret, modulo `n`. */
  function Shared(p: Participant, public: int): (r: int)
    requires ValidParticipant(p)
    ensures 0 <= r < p.constants.n
  {
    Pow(public, p.secret) % p.constants.n
  }

  /** The shared value computed from a peer's public value is `g ** (a * b) % n`,
      whichever side computes it. */
  lemma SharedSecretAgreement(alice: Participant, bob: Participant)
    requires ValidParticipant(alice) && ValidParticipant(bob)
    requires alice.constants == bob.constants
    ensures Shared(alice, Public(bob)) == Shared(bob, Public(alice))
    ensures Shared(bob, Public(alice)) ==
            Pow(alice.constants.g, alice.secret * bob.secret) % alice.constants.n
  {
    var g, n, a, b := alice.constants.g, alice.constants.n, alice.secret, bob.secret;
    PowModBase(Pow(g, a), b, n);
    PowMul(g, a, b);
    PowModBase(Pow(g, b), a, n);
    PowMul(g, b, a);
    assert a * b == b * a;
  }

  /** `diffie_hellman(alice, bob)`: rejects differing parameters, otherwise
      both sides compute the shared value and agree on it. */
  function Exchange(alice: Participant, bob: Participant): (r: Result<int, DhError>)
    requires ValidParticipant(alice) && ValidParticipant(bob)
    ensures r.Failure? <==> alice.constants != bob.constants
    ensures r.Failure? ==> r.error == ParameterMismatch(alice.constants, bob.constants)
    ensures r.Success? ==>
      r.value == Shared(alice, Public(bob)) && r.value == Shared(bob, Public(alice)) &&
      r.value == Pow(alice.constants.g, alice.secret * bob.secret) % alice.constants.n
  {
    if alice.constants != bob.constants then
      Failure(ParameterMismatch(alice.constants, bob.constants))
    else
      var alicePublic := Public(alice);
      var bobPublic := Public(bob);
      var aliceShared := Shared(alice, bobPublic);
      var bobShared := Shared(bob, alicePublic);
      SharedSecretAgreement(alice, bob);
      assert aliceShared == bobShared;
      Success(aliceShared)
  }
}

/** The concrete cases the repository's tests check, stated on the model. */
module DiffieHellmanExamples {
  import opened Results
  import opened Power
  import opened Primality
  import opened PrimitiveRoot
  import opened DiffieHellman

  /** 0, 1 and 10 are rejected as moduli, 23 is prime; 10's least divisor is 2
      with cofactor 5. */
  lemma ModulusExamples()
    ensures !IsPrimeNumber(0) && !IsPrimeNumber(1)
    ensures !IsPrimeNumber(10) && IsLeastDivisor(2, 10) && 10 / 2 == 5
    ensures IsPrimeNumber(23) && BitLength(23) == 5
  {
    assert 10 % 2 == 0;
    forall d | 2 <= d < 23 ensures 23 % d != 0 {
      assert d == 2 || d == 3 || d == 4 || d == 5 || d == 6 || d == 7 || d == 8 ||
             d == 9 || d == 10 || d == 11 || d == 12 || d == 13 || d == 14 || d == 15 ||
             d == 16 || d == 17 || d == 18 || d == 19 || d == 20 || d == 21 || d == 22;
    }
  }

  /** 4 is not a primitive root modulo 23: `4 ** 11 % 23 == 4 ** 0 % 23 == 1`. */
  lemma FourIsNotARootModTwentyThree()
    ensures !PassesRootScan(4, 23)
  {
    assert Pow(4, 11) % 23 == 1 == Pow(4, 0) % 23;
  }

  /** A table that starts at `1 % n` and multiplies by `g` modulo `n` at each
      step lists the powers `g ** i % n`. */
  lemma {:induction false} PowerTable(s: seq<int>, g: int, n: int, i: nat)
    requires n > 0 && 0 < |s| && s[0] == 1 % n
    requires forall j :: 0 <= j < |s| - 1 ==> s[j + 1] == (g * s[j]) % n
    requires i < |s|
    ensures Pow(g, i) % n == s[i]
  {
    if i > 0 {
      var p := Pow(g, i - 1);
      PowerTable(s, g, n, i - 1);
      assert s[i] == (g * s[i - 1]) % n;
      MulModRight(g, p, n);
    }
  }

  /** 5 is a primitive root modulo 23: its powers `5 ** 0 .. 5 ** 21` modulo 23
      are the 22 values of `residues`, which `index` maps back to their
      positions, so no two coincide. */
  lemma FiveIsARootModTwentyThree()
    ensures PassesRootScan(5, 23)
  {
    var residues := [1, 5, 2, 10, 4, 20, 8, 17, 16, 11, 9, 22, 18, 21, 13, 19, 3, 15, 6, 7, 12, 14];
    var index := [0, 0, 2, 16, 4, 1, 18, 19, 6, 10, 3, 9, 20, 14, 21, 17, 8, 7, 12, 15, 5, 13, 11];
    forall i | 0 <= i < 22 ensures (i < 21 ==> residues[i + 1] == (5 * residues[i]) % 23) &&
                                   0 <= residues[i] < 23 && index[residues[i]] == i {
      assert i == 0 || i == 1 || i == 2 || i == 3 || i == 4 || i == 5 || i == 6 || i == 7 ||
             i == 8 || i == 9 || i == 10 || i == 11 || i == 12 || i == 13 || i == 14 ||
             i == 15 || i == 16 || i == 17 || i == 18 || i == 19 || i == 20 || i == 21;
    }
    forall i | 0 <= i < 22 ensures Pow(5, i) % 23 == residues[i] {
      PowerTable(residues, 5, 23, i);
    }
  }

  /** The parameter sets the tests build: `(5, 23)` is valid; `(2, 0)`, `(2, 1)`,
      `(2, 10)` and `(4, 23)` are not. */
  lemma ConstantsExamples()
    ensures ValidConstants(Constants(5, 23))
    ensures !ValidConstants(Constants(2, 0)) && !ValidConstants(Constants(2, 1))
    ensures !ValidConstants(Constants(2, 10)) && !ValidConstants(Constants(4, 23))
  {
    ModulusExamples();
    FiveIsARootModTwentyThree();
    FourIsNotARootModTwentyThree();
  }

  /** Building the parameters `(5, 23)` through the factory succeeds and raises
      the weak-modulus advisory (23 has 5 bits, fewer than 2048). */
  method ConstantsAdvisoryExample() returns (r: Result<Constants, DhError>, weak: bool)
    ensures r == Success(Constants(5, 23)) && weak
  {
    ConstantsExamples();
    ModulusExamples();
    r, weak := NewConstants(5, 23);
  }

  /** For `n <= 3` the scan is too short to see a repeat: 0 passes it modulo 3. */
  lemma ZeroPassesScanModThree()
    ensures PassesRootScan(0, 3)
  {
    assert Pow(0, 0) % 3 == 1 && Pow(0, 1) % 3 == 0;
  }

  /** Secrets outside `[1, 23]` are rejected with the bound they violate; 23 itself is accepted. */
  lemma SecretExamples()
    ensures NewParticipant(Constants(5, 23), -3) == Failure(SecretTooSmall(-3))
    ensures NewParticipant(Constants(5, 23), 0) == Failure(SecretTooSmall(0))
    ensures NewParticipant(Constants(5, 23), -100) == Failure(SecretTooSmall(-100))
    ensures NewParticipant(Constants(5, 23), 100) == Failure(SecretTooLarge(100, 23))
    ensures NewParticipant(Constants(5, 23), 1000) == Failure(SecretTooLarge(1000, 23))
    ensures NewParticipant(Constants(5, 23), 20000) == Failure(SecretTooLarge(20000, 23))
    ensures NewParticipant(Constants(5, 23), 23).Success?
  {
  }

  /** With `g = 5, n = 23`, secrets 4 and 3 give public values 4 and 10 and the
      shared value 18; parameters `(7, 23)` against `(5, 23)` are a mismatch. */
  lemma ExchangeExamples()
    ensures Public(Participant(Constants(5, 23), 4)) == 4
    ensures Public(Participant(Constants(5, 23), 3)) == 10
    ensures Shared(Participant(Constants(5, 23), 4), 10) == 18
    ensures Shared(Participant(Constants(5, 23), 3), 4) == 18
    ensures Exchange(Participant(Constants(5, 23), 4), Participant(Constants(5, 23), 3)) == Success(18)
    ensures Exchange(Participant(Constants(5, 23), 4), Participant(Constants(7, 23), 3)) ==
            Failure(ParameterMismatch(Constants(5, 23), Constants(7, 23)))
  {
    assert Pow(5, 4) == 625 && Pow(5, 3) == 125;
    assert Pow(10, 4) == 10000 && Pow(4, 3) == 64;
  }
}

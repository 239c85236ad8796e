/** Exhaustive primitive-root test (`is_primitive_root_modulo_n`): scan the
    powers `g ** i % n` for `i` in `0 .. n - 2` and stop at the first repeat. */
module PrimitiveRoot {
  import opened Results
  import opened Power

  /** The collision `is_primitive_root_modulo_n` reports: `g ** current % n` was
      already produced by the earlier exponent `previous`. */
  datatype PrimitiveRootError = PrimitiveRootError(current: int, remainder: int, previous: int)

  /** The residues `g ** i % n` for `0 <= i < m` are pairwise distinct. */
  ghost predicate DistinctPowers(g: int, n: int, m: int)
    requires n > 0
  {
    forall j, k :: 0 <= j < k < m ==> Pow(g, j) % n != Pow(g, k) % n
  }

  /** What the scan accepts: for `n <= 1` the exponent range is empty; otherwise
      `g ** 0 .. g ** (n - 2)` are pairwise distinct modulo `n`. */
  ghost predicate PassesRootScan(g: int, n: int)
  {
    n <= 1 || DistinctPowers(g, n, n - 1)
  }

  /** `e` is the first repeated residue of the scan: both exponents are in the
      scanned range, both powers leave `remainder`, and every power before
      `current` was new. */
  ghost predicate IsFirstCollision(g: int, n: int, e: PrimitiveRootError)
  {
    n >= 2 && 0 <= e.previous < e.current < n - 1 &&
    Pow(g, e.current) % n == e.remainder &&
    Pow(g, e.previous) % n == e.remainder &&
    DistinctPowers(g, n, e.current)
  }

  /** The dictionary built by the scan after `i` steps maps every residue seen
      to the exponent that first (and so far only) produced it. */
  ghost predicate FirstExponents(remainders: map<int, nat>, g: int, n: int, i: nat)
    requires n > 0
  {
    (forall r :: r in remainders ==> remainders[r] < i && Pow(g, remainders[r]) % n == r) &&
    (forall j :: 0 <= j < i ==> Pow(g, j) % n in remainders) &&
    DistinctPowers(g, n, i)
  }

  /** Returns whether the powers of `g` modulo `n` never repeat over the
      exponents `0 .. n - 2`, and otherwise the first repeat. */
  method IsPrimitiveRoot(g: int, n: int) returns (root: bool, error: Option<PrimitiveRootError>)
    ensures root <==> PassesRootScan(g, n)
    ensures root <==> error == None
    ensures error.Some? ==> IsFirstCollision(g, n, error.value)
  {
    var remainders: map<int, nat> := map[];
    var i: nat := 0;
    while i < n - 1
      invariant i == 0 || i <= n - 1
      invariant i > 0 ==> n >= 2
      invariant n >= 2 ==> FirstExponents(remainders, g, n, i)
    {
      var remainder := Pow(g, i) % n;
      if remainder in remainders {
        var e := PrimitiveRootError(i, remainder, remainders[remainder]);
        RepeatIsFirstCollision(remainders, g, n, i);
        return false, Some(e);
      }
      AddFirstExponent(remainders, g, n, i);
      remainders := remainders[remainder := i];
      i := i + 1;
    }
    return true, None;
  }

  /** Recording a new residue at exponent `i` keeps the dictionary invariant. */
  lemma AddFirstExponent(remainders: map<int, nat>, g: int, n: int, i: nat)
    requires n > 0 && FirstExponents(remainders, g, n, i)
    requires Pow(g, i) % n !in remainders
    ensures FirstExponents(remainders[Pow(g, i) % n := i], g, n, i + 1)
  {
    var r := Pow(g, i) % n;
    var m := remainders[r := i];
    forall j | 0 <= j < i + 1 ensures Pow(g, j) % n in m {
      if j < i {
        assert Pow(g, j) % n in remainders;
      }
    }
    forall j, k | 0 <= j < k < i + 1 ensures Pow(g, j) % n != Pow(g, k) % n {
      if k == i {
        assert Pow(g, j) % n in remainders;
      }
    }
  }

  /** A residue already in the dictionary at exponent `i` is the first collision,
      and the scan then fails. */
  lemma RepeatIsFirstCollision(remainders: map<int, nat>, g: int, n: int, i: nat)
    requires 2 <= n && i < n - 1 && FirstExponents(remainders, g, n, i)
    requires Pow(g, i) % n in remainders
    ensures IsFirstCollision(g, n, PrimitiveRootError(i, Pow(g, i) % n, remainders[Pow(g, i) % n]))
    ensures !PassesRootScan(g, n)
  {
    var previous := remainders[Pow(g, i) % n];
    assert Pow(g, previous) % n == Pow(g, i) % n;
  }

  /** Once two exponents collide, the powers repeat from there on:
      `g ** (current + k) % n == g ** (previous + k) % n`. */
  lemma CollisionShifts(g: int, n: int, current: nat, previous: nat, k: nat)
    requires n > 0 && Pow(g, current) % n == Pow(g, previous) % n
    ensures Pow(g, current + k) % n == Pow(g, previous + k) % n
  {
    PowAdd(g, current, k);
    PowAdd(g, previous, k);
    MulModLeft(Pow(g, current), Pow(g, k), n);
    MulModLeft(Pow(g, previous), Pow(g, k), n);
  }

  /** After the first collision, every power of `g` modulo `n` is one the scan
      had already seen before `current`: `g` produces fewer than `n - 1`
      residues, so it cannot generate all of them. */
  lemma {:induction false} PowersRepeatAfterCollision(g: int, n: int, e: PrimitiveRootError, m: nat)
    requires IsFirstCollision(g, n, e)
    ensures exists j :: 0 <= j < e.current && Pow(g, m) % n == Pow(g, j) % n
    decreases m
  {
    if m >= e.current {
      var k := m - e.current;
      var m' := e.previous + k;
      CollisionShifts(g, n, e.current, e.previous, k);
      assert Pow(g, m) % n == Pow(g, m') % n;
      PowersRepeatAfterCollision(g, n, e, m');
    }
  }
}

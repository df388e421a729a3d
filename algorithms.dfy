/**
 * The number-theoretic core: generic square-and-multiply exponentiation over
 * an associative operation, modular multiplication, the decomposition
 * n = 2^k * q of an even number, one Miller-Rabin round, and the probable-prime
 * test that combines trial division with Miller-Rabin rounds.
 *
 * Arbitrary-precision integers are modelled by `nat`: every value the program
 * forms is non-negative, so the C++ remainder (which truncates) and Dafny's
 * Euclidean remainder agree, and `n & 1`, `n >>= 1` are `n % 2`, `n / 2`.
 */
module Algorithms {
  import opened Arithmetic

  // ---------------------------------------------------------------------------
  // Binary operations and their identity elements
  // ---------------------------------------------------------------------------

  /**
   * A binary operation together with its identity element: the function object
   * passed to `power` and the `identity_element` overload chosen for it.
   */
  datatype Operation<!T> = Operation(apply: (T, T) -> T, identity: T)

  ghost predicate Associative<T(!new)>(f: (T, T) -> T) {
    forall a, b, c :: f(f(a, b), c) == f(a, f(b, c))
  }

  /** `e` is a two-sided identity of `f` on every value that `inDomain` admits. */
  ghost predicate IdentityOn<T(!new)>(f: (T, T) -> T, e: T, inDomain: T -> bool) {
    forall a :: inDomain(a) ==> f(e, a) == a && f(a, e) == a
  }

  /** `std::plus` with identity 0. */
  function Plus(): (op: Operation<int>)
    ensures Associative(op.apply) && IdentityOn(op.apply, op.identity, _ => true)
  {
    Operation((a: int, b: int) => a + b, 0)
  }

  /** `std::multiplies` with identity 1. */
  function Multiplies(): (op: Operation<int>)
    ensures Associative(op.apply) && IdentityOn(op.apply, op.identity, _ => true)
  {
    var op := Operation((a: int, b: int) => a * b, 1);
    assert Associative(op.apply) by {
      forall a: int, b: int, c: int ensures op.apply(op.apply(a, b), c) == op.apply(a, op.apply(b, c)) {
        assert (a * b) * c == a * (b * c);
      }
    }
    op
  }

  /** `std::logical_and` with identity true. */
  function LogicalAnd(): (op: Operation<bool>)
    ensures Associative(op.apply) && IdentityOn(op.apply, op.identity, _ => true)
  {
    Operation((a: bool, b: bool) => a && b, true)
  }

  /** `std::logical_or` with identity false. */
  function LogicalOr(): (op: Operation<bool>)
    ensures Associative(op.apply) && IdentityOn(op.apply, op.identity, _ => true)
  {
    Operation((a: bool, b: bool) => a || b, false)
  }

  /**
   * `modulo_multiply`: multiplication followed by the remainder modulo a fixed
   * modulus, with identity 1. The operation is associative and always yields a
   * residue; 1 is an identity only on residues, and only when the modulus
   * exceeds 1.
   */
  function ModuloMultiply(modulus: nat): (op: Operation<nat>)
    requires modulus > 0
    ensures Associative(op.apply)
    ensures forall a: nat, b: nat :: op.apply(a, b) < modulus
    ensures modulus > 1 ==> IdentityOn(op.apply, op.identity, (a: nat) => a < modulus)
    ensures modulus == 1 ==> op.identity != op.apply(op.identity, op.identity)
  {
    var op := Operation<nat>.Operation((a: nat, b: nat) => (a * b) % modulus, 1);
    assert Associative(op.apply) by {
      forall a: nat, b: nat, c: nat
        ensures op.apply(op.apply(a, b), c) == op.apply(a, op.apply(b, c))
      {
        ModuloMultiplyAssociates(a, b, c, modulus);
      }
    }
    assert forall a: nat, b: nat :: op.apply(a, b) == (a * b) % modulus;
    assert modulus > 1 ==> IdentityOn(op.apply, op.identity, (a: nat) => a < modulus) by {
      forall a: nat | a < modulus
        ensures op.apply(1, a) == a && op.apply(a, 1) == a
      {
        DivModUnique(a, modulus, 0, a);
      }
    }
    op
  }

  lemma ModuloMultiplyAssociates(a: nat, b: nat, c: nat, m: nat)
    requires m > 0
    ensures ((a * b) % m * c) % m == (a * ((b * c) % m)) % m
  {
    MulModLeft(a * b, c, m);
    MulModRight(a, b * c, m);
    assert (a * b) * c == a * (b * c);
  }

  // ---------------------------------------------------------------------------
  // power: square-and-multiply exponentiation
  // ---------------------------------------------------------------------------

  /** x combined with itself n times (n >= 1): f(x, f(x, ... x)). */
  function Repeat<T>(x: T, n: nat, f: (T, T) -> T): T
    requires n >= 1
  {
    if n == 1 then x else f(x, Repeat(x, n - 1, f))
  }

  lemma {:induction false} RepeatAdd<T(!new)>(x: T, a: nat, b: nat, f: (T, T) -> T)
    requires Associative(f) && a >= 1 && b >= 1
    ensures Repeat(x, a + b, f) == f(Repeat(x, a, f), Repeat(x, b, f))
    decreases a
  {
    if a > 1 {
      RepeatAdd(x, a - 1, b, f);
      calc {
        Repeat(x, a + b, f);
        f(x, Repeat(x, a - 1 + b, f));
        f(x, f(Repeat(x, a - 1, f), Repeat(x, b, f)));
        f(f(x, Repeat(x, a - 1, f)), Repeat(x, b, f));
      }
    }
  }

  /** Combining an identity element with itself any number of times gives it back. */
  lemma {:induction false} RepeatIdentity<T(!new)>(e: T, n: nat, f: (T, T) -> T, inDomain: T -> bool)
    requires n >= 1 && inDomain(e) && IdentityOn(f, e, inDomain)
    ensures Repeat(e, n, f) == e
    decreases n
  {
    if n > 1 {
      RepeatIdentity(e, n - 1, f, inDomain);
    }
  }

  /** With `std::multiplies`, x combined with itself n times is x^n. */
  lemma {:induction false} RepeatMultiplies(x: nat, n: nat)
    requires n >= 1
    ensures Repeat<int>(x, n, Multiplies().apply) == Pow(x, n)
    decreases n
  {
    if n > 1 {
      RepeatMultiplies(x, n - 1);
    }
  }

  /** Squaring the base halves the exponent: x^(2n) == (x*x)^n. */
  lemma {:induction false} RepeatDouble<T(!new)>(x: T, n: nat, f: (T, T) -> T)
    requires Associative(f) && n >= 1
    ensures Repeat(x, 2 * n, f) == Repeat(f(x, x), n, f)
    decreases n
  {
    if n > 1 {
      RepeatAdd(x, 2, 2 * (n - 1), f);
      RepeatDouble(x, n - 1, f);
    }
  }

  /** An odd exponent splits into one factor x and the square of x to half the exponent. */
  lemma RepeatOdd<T(!new)>(x: T, e: nat, f: (T, T) -> T)
    requires Associative(f) && e % 2 == 1
    ensures Repeat(x, e, f) == if e / 2 == 0 then x else f(x, Repeat(f(x, x), e / 2, f))
  {
    if e / 2 > 0 {
      RepeatDouble(x, e / 2, f);
    }
  }

  /**
   * One step of the second loop of `power`: with x already squared, the
   * pending value f(r, x^e) equals the new accumulator combined with the square
   * of x to the power e / 2.
   */
  lemma PowerStep<T(!new)>(r: T, x: T, e: nat, f: (T, T) -> T)
    requires Associative(f) && e >= 1
    ensures var r' := if e % 2 != 0 then f(r, x) else r;
            f(r, Repeat(x, e, f)) == if e / 2 == 0 then r' else f(r', Repeat(f(x, x), e / 2, f))
  {
    if e % 2 != 0 {
      RepeatOdd(x, e, f);
    } else {
      RepeatDouble(x, e / 2, f);
    }
  }

  /**
   * `power(x, n, op)`: strips the trailing zero bits of n by squaring x, then
   * folds in the running square for every remaining set bit. The result is the
   * identity element for n == 0 and x combined with itself n times otherwise.
   */
  method Power<T(!new)>(x: T, n: nat, op: Operation<T>) returns (r: T)
    requires Associative(op.apply)
    ensures n == 0 ==> r == op.identity
    ensures n >= 1 ==> r == Repeat(x, n, op.apply)
  {
    if n == 0 {
      return op.identity;
    }
    ghost var target := Repeat(x, n, op.apply);
    var base, e := x, n;
    while e % 2 == 0
      invariant e >= 1 && Repeat(base, e, op.apply) == target
      decreases e
    {
      RepeatDouble(base, e / 2, op.apply);
      e := e / 2;
      base := op.apply(base, base);
    }

    RepeatOdd(base, e, op.apply);
    r := base;
    e := e / 2;
    while e != 0
      invariant target == if e == 0 then r else op.apply(r, Repeat(op.apply(base, base), e, op.apply))
      decreases e
    {
      base := op.apply(base, base);
      PowerStep(r, base, e, op.apply);
      if e % 2 != 0 {
        r := op.apply(r, base);
      }
      e := e / 2;
    }
  }

  /**
   * With modular multiplication, x combined with itself n times is x^n mod m
   * for a residue x.
   */
  lemma {:induction false} RepeatModuloMultiply(x: nat, n: nat, m: nat)
    requires m > 0 && x < m && n >= 1
    ensures Repeat<nat>(x, n, ModuloMultiply(m).apply) == Pow(x, n) % m
    decreases n
  {
    if n == 1 {
      assert Pow(x, 1) == x;
      DivModUnique(x, m, 0, x);
    } else {
      RepeatModuloMultiply(x, n - 1, m);
      calc {
        Repeat<nat>(x, n, ModuloMultiply(m).apply);
        (x * Repeat<nat>(x, n - 1, ModuloMultiply(m).apply)) % m;
        (x * (Pow(x, n - 1) % m)) % m;
        { MulModRight(x, Pow(x, n - 1), m); }
        (x * Pow(x, n - 1)) % m;
      }
    }
  }

  // ---------------------------------------------------------------------------
  // find_q_and_k: n == 2^k * q with q odd
  // ---------------------------------------------------------------------------

  /** The decomposition n == 2^k * q, q odd, of a positive n. */
  function Decompose(n: nat): (r: (nat, nat))
    requires n > 0
    ensures r.0 % 2 == 1 && n == Pow(2, r.1) * r.0
    decreases n
  {
    if n % 2 == 1 then (n, 0)
    else
      var (q, k) := Decompose(n / 2);
      PowTwoSucc(k, q);
      (q, k + 1)
  }

  /** The decomposition is unique: q is the odd part of n and k its power of two. */
  lemma {:induction false} DecompositionUnique(q1: nat, k1: nat, q2: nat, k2: nat)
    requires q1 % 2 == 1 && q2 % 2 == 1
    requires Pow(2, k1) * q1 == Pow(2, k2) * q2
    ensures q1 == q2 && k1 == k2
    decreases k1
  {
    if k1 > 0 && k2 > 0 {
      PowTwoSucc(k1 - 1, q1);
      PowTwoSucc(k2 - 1, q2);
      DecompositionUnique(q1, k1 - 1, q2, k2 - 1);
    } else if k1 > 0 {
      OddTimesPowerOfTwo(q1, k1);
    } else if k2 > 0 {
      OddTimesPowerOfTwo(q2, k2);
    }
  }

  lemma OddTimesPowerOfTwo(q: nat, k: nat)
    requires k > 0
    ensures (Pow(2, k) * q) % 2 == 0
  {
    PowTwoSucc(k - 1, q);
    DivModUnique(Pow(2, k) * q, 2, Pow(2, k - 1) * q, 0);
  }

  /**
   * `find_q_and_k(n)`: halve n while it is even, counting the halvings. The
   * source loops forever on n == 0, hence the precondition.
   */
  method FindQAndK(n: nat) returns (q: nat, k: nat)
    requires n > 0
    ensures (q, k) == Decompose(n)
  {
    q, k := n, 0;
    while q % 2 == 0
      invariant q > 0 && n == Pow(2, k) * q
      decreases q
    {
      PowTwoSucc(k, q / 2);
      q := q / 2;
      k := k + 1;
    }
    DecompositionUnique(q, k, Decompose(n).0, Decompose(n).1);
  }

  // ---------------------------------------------------------------------------
  // miller_rabin_test: one witness round
  // ---------------------------------------------------------------------------

  /** The i-th term of a round's squaring chain: w^(2^i * q) mod n. */
  function ChainTerm(n: nat, q: nat, w: nat, i: nat): nat
    requires n > 0
  {
    Pow(w, Pow(2, i) * q) % n
  }

  /**
   * The closed form of one round: the witness passes when w^q mod n is 1 or
   * n - 1, or when some later term w^(2^i * q) mod n with i < k is n - 1.
   */
  ghost predicate MillerRabinPasses(n: nat, q: nat, k: nat, w: nat)
    requires n > 1
  {
    ChainTerm(n, q, w, 0) == 1 || ChainTerm(n, q, w, 0) == n - 1
    || exists i: nat :: i < k && ChainTerm(n, q, w, i) == n - 1
  }

  /** Each term of the chain is the square of the previous one, modulo n. */
  lemma ChainTermStep(n: nat, q: nat, w: nat, i: nat)
    requires n > 0
    ensures ChainTerm(n, q, w, i + 1) == (ChainTerm(n, q, w, i) * ChainTerm(n, q, w, i)) % n
  {
    var e := Pow(2, i) * q;
    assert Pow(2, i + 1) * q == e + e;
    PowAdd(w, e, e);
    var p := Pow(w, e);
    calc {
      ChainTerm(n, q, w, i + 1);
      (p * p) % n;
      { MulModLeft(p, p, m := n); }
      ((p % n) * p) % n;
      { MulModRight(p % n, p, n); }
      ((p % n) * (p % n)) % n;
    }
  }

  /** Once the chain reaches 1 it stays at 1. */
  lemma {:induction false} ChainStaysOne(n: nat, q: nat, w: nat, i: nat, j: nat)
    requires n > 1 && i <= j && ChainTerm(n, q, w, i) == 1
    ensures ChainTerm(n, q, w, j) == 1
    decreases j - i
  {
    if i < j {
      ChainTermStep(n, q, w, i);
      DivModUnique(1, n, 0, 1);
      ChainStaysOne(n, q, w, i + 1, j);
    }
  }

  /**
   * `miller_rabin_test(n, q, k, w)`: computes x = w^q mod n with `power` and
   * modular multiplication, passes at once if x is 1 or n - 1, then squares x
   * up to k - 1 times, passing on n - 1 and failing on 1. The comment at
   * algorithms.h:63 is the loop's first invariant.
   */
  method MillerRabinTest(n: nat, q: nat, k: nat, w: nat) returns (r: bool)
    requires n > 1 && q % 2 == 1 && n - 1 == Pow(2, k) * q
    requires w < n
    ensures r == MillerRabinPasses(n, q, k, w)
  {
    var mmult := ModuloMultiply(n);
    var x := Power(w, q, mmult);
    RepeatModuloMultiply(w, q, n);
    assert x == ChainTerm(n, q, w, 0);
    if x == 1 || x == n - 1 {
      return true;
    }

    var i: nat := 1;
    while i < k
      invariant 1 <= i && (k >= 1 ==> i <= k)
      invariant x == ChainTerm(n, q, w, i - 1)
      invariant forall j: nat :: j < i ==> ChainTerm(n, q, w, j) != n - 1
      invariant ChainTerm(n, q, w, 0) != 1
    {
      ChainTermStep(n, q, w, i - 1);
      x := mmult.apply(x, x);
      if x == n - 1 {
        return true;
      }
      if x == 1 {
        forall j: nat | i <= j < k
          ensures ChainTerm(n, q, w, j) != n - 1
        {
          ChainStaysOne(n, q, w, i, j);
        }
        return false;
      }
      i := i + 1;
    }
    return false;
  }

  /**
   * A passing round implies the Fermat condition w^(n-1) mod n == 1:
   * a witness that violates Fermat's condition always fails the round.
   */
  lemma MillerRabinPassImpliesFermat(n: nat, q: nat, k: nat, w: nat)
    requires n > 1 && q % 2 == 1 && k >= 1 && n - 1 == Pow(2, k) * q
    requires MillerRabinPasses(n, q, k, w)
    ensures Pow(w, n - 1) % n == 1
  {
    assert ChainTerm(n, q, w, k) == Pow(w, n - 1) % n;
    if ChainTerm(n, q, w, 0) == 1 {
      ChainStaysOne(n, q, w, 0, k);
    } else {
      var i: nat :| i < k && ChainTerm(n, q, w, i) == n - 1;
      ChainTermStep(n, q, w, i);
      MinusOneSquared(n);
      ChainStaysOne(n, q, w, i + 1, k);
    }
  }

  // ---------------------------------------------------------------------------
  // is_prime: trial division, then one Miller-Rabin round per witness
  // ---------------------------------------------------------------------------

  /** An entry of the trial-division table: a divisor between 5 and 251. */
  type TableEntry = p: nat | 5 <= p <= 251 witness 5

  /** The table of small primes 5..251 tried before any Miller-Rabin round. */
  const SmallPrimes: seq<TableEntry> := [
    5, 7, 11, 13, 17, 19, 23, 29, 31, 37, 41, 43, 47, 53, 59, 61, 67, 71, 73, 79, 83, 89, 97, 101, 103, 107,
    109, 113, 127, 131, 137, 139, 149, 151, 157, 163, 167, 173, 179, 181, 191, 193, 197, 199, 211, 223, 227,
    229, 233, 239, 241, 251
  ]

  /** The table holds 52 entries between 5 and 251; the last one tried is 251. */
  lemma SmallPrimesTable()
    ensures |SmallPrimes| == 52 && SmallPrimes[|SmallPrimes| - 1] == 251
    ensures forall i :: 0 <= i < |SmallPrimes| ==> 5 <= SmallPrimes[i] <= 251
  {
  }

  /** The default number of Miller-Rabin rounds, `CountChecks`. */
  const DefaultCountChecks: nat := 100

  /** The largest value of `std::uint64_t`, the upper bound of the witness distribution. */
  const UInt64Max: nat := 0xFFFF_FFFF_FFFF_FFFF

  predicate Divides(d: nat, n: nat) {
    d != 0 && n % d == 0
  }

  ghost predicate IsComposite(n: nat) {
    exists d: nat :: 1 < d < n && Divides(d, n)
  }

  /** No entry of the table divides n. */
  ghost predicate PassesTrialDivision(n: nat) {
    forall i :: 0 <= i < |SmallPrimes| ==> n % SmallPrimes[i] != 0
  }

  /** The largest witness drawn for n: min(n - 1, 2^64 - 1). */
  function MaxWitness(n: nat): (m: nat)
    requires n > 0
    ensures m <= n - 1 && m <= UInt64Max
    ensures m == n - 1 || m == UInt64Max
  {
    if n - 1 > UInt64Max then UInt64Max else n - 1
  }

  /** Every witness lies in the range of the source's distribution, [3, MaxWitness(n)]. */
  ghost predicate WitnessesInRange(n: nat, witnesses: seq<nat>)
    requires n > 0
  {
    forall i :: 0 <= i < |witnesses| ==> 3 <= witnesses[i] <= MaxWitness(n)
  }

  /**
   * The verdict of `is_prime(n)` after the Miller-Rabin rounds for the given
   * witnesses: n passed trial division and every round so far, where
   * n - 1 == 2^k * q. Defined round by round, in the order the rounds run.
   */
  ghost predicate IsProbablePrime(n: nat, witnesses: seq<nat>)
    requires n > 1
    decreases |witnesses|
  {
    if |witnesses| == 0 then PassesTrialDivision(n)
    else
      var (q, k) := Decompose(n - 1);
      IsProbablePrime(n, witnesses[..|witnesses| - 1]) && MillerRabinPasses(n, q, k, witnesses[|witnesses| - 1])
  }

  /**
   * The round-by-round verdict is the all-at-once one: no table entry divides n
   * and every witness passes its round.
   */
  lemma {:induction false} ProbablePrimeIffAllRoundsPass(n: nat, witnesses: seq<nat>)
    requires n > 1
    ensures IsProbablePrime(n, witnesses) <==>
      PassesTrialDivision(n)
      && forall i :: 0 <= i < |witnesses| ==>
        MillerRabinPasses(n, Decompose(n - 1).0, Decompose(n - 1).1, witnesses[i])
    decreases |witnesses|
  {
    if |witnesses| > 0 {
      var m := |witnesses| - 1;
      ProbablePrimeIffAllRoundsPass(n, witnesses[..m]);
      assert forall i :: 0 <= i < m ==> witnesses[..m][i] == witnesses[i];
    }
  }

  /** A candidate that passes all rounds passed every earlier prefix of them. */
  lemma {:induction false} ProbablePrimeNeedsEarlierRounds(n: nat, witnesses: seq<nat>, m: nat)
    requires n > 1 && m <= |witnesses|
    ensures IsProbablePrime(n, witnesses) ==> IsProbablePrime(n, witnesses[..m])
    decreases |witnesses|
  {
    if m < |witnesses| {
      var last := |witnesses| - 1;
      ProbablePrimeNeedsEarlierRounds(n, witnesses[..last], m);
      assert witnesses[..last][..m] == witnesses[..m];
    } else {
      assert witnesses[..m] == witnesses;
    }
  }

  /**
   * `is_prime(n)`: rejects n as soon as a table entry divides it, then runs one
   * Miller-Rabin round per witness and rejects at the first failing round.
   */
  method IsPrime(n: nat, witnesses: seq<nat>) returns (r: bool)
    requires n % 2 == 1 && n > 251
    requires WitnessesInRange(n, witnesses)
    ensures r == IsProbablePrime(n, witnesses)
  {
    for i := 0 to |SmallPrimes|
      invariant forall j :: 0 <= j < i ==> n % SmallPrimes[j] != 0
    {
      if n % SmallPrimes[i] == 0 {
        ProbablePrimeNeedsEarlierRounds(n, witnesses, 0);
        return false;
      }
    }

    var maxN := n - 1;
    var q, k := FindQAndK(maxN);
    assert witnesses[..0] == [];
    for i := 0 to |witnesses|
      invariant IsProbablePrime(n, witnesses[..i])
    {
      var passed := MillerRabinTest(n, q, k, witnesses[i]);
      assert witnesses[..i + 1][..i] == witnesses[..i];
      if !passed {
        ProbablePrimeNeedsEarlierRounds(n, witnesses, i + 1);
        return false;
      }
    }
    assert witnesses[..|witnesses|] == witnesses;
    return true;
  }

  /** Trial-division rejection is sound: an n above 251 with a table divisor is composite. */
  lemma TrialDivisionRejectionSound(n: nat)
    requires n > 251 && !PassesTrialDivision(n)
    ensures IsComposite(n)
  {
    var i :| 0 <= i < |SmallPrimes| && n % SmallPrimes[i] == 0;
    assert 1 < SmallPrimes[i] < n && Divides(SmallPrimes[i], n);
  }

  /** Every witness that `is_prime` accepted satisfies Fermat's condition for n. */
  lemma ProbablePrimeSatisfiesFermat(n: nat, witnesses: seq<nat>, i: nat)
    requires n % 2 == 1 && n > 251
    requires IsProbablePrime(n, witnesses) && i < |witnesses|
    ensures Pow(witnesses[i], n - 1) % n == 1
  {
    ProbablePrimeIffAllRoundsPass(n, witnesses);
    var (q, k) := Decompose(n - 1);
    MillerRabinPassImpliesFermat(n, q, k, witnesses[i]);
  }
}

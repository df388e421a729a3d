# GeneratePrimeNumbers in Dafny

This project is a Dafny model of GeneratePrimeNumbers, a C++ program that searches for large probable primes. The program scans the odd numbers from 2^2048 + 1 (MIN) upwards. `main` divides the span of 10000 by `hardware_concurrency() - 1`, rounding down, to get a width. It then cuts ranges of that width, starting at MIN, for as long as a range's start lies below MIN + 10000 (MAX). When the width does not divide 10000, this gives more ranges than threads, and the last range ends past MAX. For example, with 7 threads the width is 1428, so there are 8 ranges and the last one ends at MIN + 11424. One worker thread scans each range. Each worker tests its candidates with trial division by the 52 table entries 5..251. After that it runs 100 Miller-Rabin rounds, each with a random witness. Probable primes go to a shared writer, which counts them. The writer itself accepts every prime it is given. It is the workers that stop: each worker stops once the writer holds 10 primes, and it also checks again just before writing.

The model has three modules:

- `Arithmetic`: natural-number exponentiation (`Pow`) and the facts about Euclidean division and remainder that the other modules need.
- `Algorithms` models `algorithms.h`:
  - the `Operation` datatype, a binary operation paired with its `identity_element`;
  - the associative operations `std::plus`, `std::multiplies`, `std::logical_and`, `std::logical_or` and `modulo_multiply`;
  - `power`, square-and-multiply exponentiation, as an imperative method with two loops;
  - `find_q_and_k`;
  - `miller_rabin_test`;
  - `is_prime`.
- `Search` models `main.cpp`:
  - `PrimesWriter` as a class whose counter and output are fields;
  - `WritePrimes` as a class whose `Run` method is the scan loop of `operator()`;
  - the partition loop of `main`;
  - `main` itself, as a sequential run of the workers.

The big integers (`boost::multiprecision::cpp_int`) are modelled as `nat`. Every value the program forms is non-negative, so for these values C++'s truncating `%` equals Dafny's Euclidean `%`. `n & 1` is `n % 2` and `n >>= 1` is `n / 2`.

Each method is proved against a specification function:

- `Power` computes `Repeat(x, n, op)`, the operand combined with itself n times.
- `FindQAndK` computes the decomposition n = 2^k * q with q odd.
- `MillerRabinTest` decides the closed-form predicate `MillerRabinPasses`:
  - w^q mod n is 1 or n - 1, or
  - some w^(2^i * q) mod n with i < k is n - 1.
- `IsPrime` decides `IsProbablePrime`, which is defined round by round.
- `WritePrimes.Run` appends `Scan(...)` to the writer's output.
- `Partition` returns `Cuts(...)`.

Lemmas then state what these functions mean:

- a passing round satisfies Fermat's condition;
- a scan writes only approved odd numbers of its range, in increasing order;
- a scan writes exactly the first `target - count` probable primes of its range;
- consecutive scans compose into one scan;
- the cut ranges are contiguous, pairwise disjoint and cover the interval.

## Model

| member | source | states |
|---|---|---|
| Algorithms.Plus | GeneratePrimeNumbers/algorithms.h:19 | `std::plus` is associative and 0 is its two-sided identity |
| Algorithms.Multiplies | GeneratePrimeNumbers/algorithms.h:20 | `std::multiplies` is associative and 1 is its two-sided identity |
| Algorithms.LogicalAnd | GeneratePrimeNumbers/algorithms.h:21 | `std::logical_and` is associative and `true` is its two-sided identity |
| Algorithms.LogicalOr | GeneratePrimeNumbers/algorithms.h:22 | `std::logical_or` is associative and `false` is its two-sided identity |
| Algorithms.ModuloMultiply | GeneratePrimeNumbers/algorithms.h:7-23 | `modulo_multiply` with identity 1 is associative and always yields a residue below the modulus; 1 is an identity on residues when the modulus exceeds 1, and is not one when the modulus is 1 |
| Algorithms.ModuloMultiplyAssociates | GeneratePrimeNumbers/algorithms.h:12 | reducing modulo m after each product gives the same result in either grouping |
| Algorithms.RepeatIdentity | GeneratePrimeNumbers/algorithms.h:26-50 | for an identity element e of the operation, combining e with itself n times gives e, so `power(identity, n, op)` is the identity |
| Algorithms.RepeatMultiplies | GeneratePrimeNumbers/algorithms.h:26-50 | `power` with `std::multiplies` computes x^n |
| Algorithms.RepeatDouble | GeneratePrimeNumbers/algorithms.h:32-36 | for an associative operation, x combined 2n times equals (x op x) combined n times; this is the first loop's step |
| Algorithms.PowerStep | GeneratePrimeNumbers/algorithms.h:40-47 | one iteration of the second loop keeps the accumulator combined with the pending power equal to the final result |
| Algorithms.Power | GeneratePrimeNumbers/algorithms.h:26-50 | `power(x, n, op)` returns the identity element for n == 0, and x combined with itself n times for n >= 1 |
| Algorithms.RepeatModuloMultiply | GeneratePrimeNumbers/algorithms.h:56-57 | `power` with `modulo_multiply(m)` on a residue x computes x^n mod m |
| Algorithms.Decompose | GeneratePrimeNumbers/algorithms.h:72-83 | a positive n is 2^k * q with q odd |
| Algorithms.DecompositionUnique | GeneratePrimeNumbers/algorithms.h:72-83 | that decomposition is unique |
| Algorithms.FindQAndK | GeneratePrimeNumbers/algorithms.h:72-83 | `find_q_and_k(n)` returns the decomposition: an odd q and a k with n == 2^k * q |
| Algorithms.ChainTermStep | GeneratePrimeNumbers/algorithms.h:63-64 | squaring modulo n moves the chain from w^(2^(i-1) q) to w^(2^i q) mod n, the loop invariant written at line 63 |
| Algorithms.ChainStaysOne | GeneratePrimeNumbers/algorithms.h:66 | once the chain reaches 1 it stays 1, so it never reaches n - 1 later and returning false is right |
| Algorithms.MillerRabinTest | GeneratePrimeNumbers/algorithms.h:52-70 | `miller_rabin_test` returns true exactly when w^q mod n is 1 or n - 1, or some w^(2^i q) mod n with i < k is n - 1 |
| Algorithms.MillerRabinPassImpliesFermat | GeneratePrimeNumbers/algorithms.h:52-70 | a witness that passes a round satisfies w^(n-1) mod n == 1 |
| Algorithms.ProbablePrimeIffAllRoundsPass | GeneratePrimeNumbers/algorithms.h:98-113 | the round-by-round verdict holds iff no table entry divides n and every witness passes its round |
| Algorithms.ProbablePrimeNeedsEarlierRounds | GeneratePrimeNumbers/algorithms.h:108-113 | a candidate accepted after all rounds was accepted after every earlier prefix of them, so the early `return false` is right |
| Algorithms.SmallPrimesTable | GeneratePrimeNumbers/algorithms.h:92-96 | the trial-division table has 52 entries, each between 5 and 251, and the last one is 251 |
| Algorithms.MaxWitness | GeneratePrimeNumbers/algorithms.h:104-105 | `maxVal` is min(n - 1, 2^64 - 1): at most both bounds, and equal to one of them |
| Algorithms.IsPrime | GeneratePrimeNumbers/algorithms.h:86-116 | `is_prime` returns the verdict: trial division by 5..251, then a Miller-Rabin round per witness with n - 1 == 2^k * q |
| Algorithms.TrialDivisionRejectionSound | GeneratePrimeNumbers/algorithms.h:98-102 | an n above 251 that a table entry divides is composite |
| Algorithms.ProbablePrimeSatisfiesFermat | GeneratePrimeNumbers/algorithms.h:86-116 | every witness of an accepted n satisfies Fermat's condition for n |
| Search.PrimesWriter.constructor | GeneratePrimeNumbers/main.cpp:26-32 | a new writer has written nothing and wants `countPrimes` primes |
| Search.PrimesWriter.EnoughPrimes | GeneratePrimeNumbers/main.cpp:34 | true exactly when the output holds at least the requested number of primes |
| Search.PrimesWriter.Write | GeneratePrimeNumbers/main.cpp:35-40 | appends the prime to the output and counts it; once the target is met it stays met |
| Search.FirstCandidate | GeneratePrimeNumbers/main.cpp:60-61 | the first candidate is odd and is `from` or `from + 1` |
| Search.WritePrimes.constructor | GeneratePrimeNumbers/main.cpp:52-56 | the worker holds its range, the shared writer and its witness source |
| Search.WritePrimes.Run | GeneratePrimeNumbers/main.cpp:58-73 | `operator()` appends to the writer exactly the scan of its range: each probable prime in order, until the range ends or the writer has enough |
| Search.ScanStep | GeneratePrimeNumbers/main.cpp:63-71 | one loop iteration writes the candidate exactly when it is a probable prime and the target is not met, and the rest is the scan from p + 2 |
| Search.ScanSound | GeneratePrimeNumbers/main.cpp:58-73 | every number a scan writes is odd, lies in the range and passed `is_prime` |
| Search.ScanIncreasing | GeneratePrimeNumbers/main.cpp:58-73 | a scan writes in strictly increasing order |
| Search.ScanTakesFirstPrimes | GeneratePrimeNumbers/main.cpp:58-73 | a scan writes exactly the first target - count probable primes of its range, or all of them if there are fewer |
| Search.CountNeverExceedsTarget | GeneratePrimeNumbers/main.cpp:63-68 | a sequential scan never writes past the target, and it stops short of the target only when it has written every probable prime of the range |
| Search.ScanSplit | GeneratePrimeNumbers/main.cpp:95-106 | consecutive workers on one writer behave like a single worker over the union of their ranges |
| Search.CutsCover | GeneratePrimeNumbers/main.cpp:95-101 | the cut ranges are contiguous from `from`, each has width w and starts in [from, hi), there is at least one iff from < hi, and the last one reaches hi |
| Search.CutsCount | GeneratePrimeNumbers/main.cpp:95-101 | there are ceil((hi - from) / w) cut ranges |
| Search.Partition | GeneratePrimeNumbers/main.cpp:95-101 | the partition loop returns the cut ranges, so they are contiguous, of width `numbersPerThread`, and ceil((hi - lo) / width) in number, and they reach hi |
| Search.ContiguousDisjoint | GeneratePrimeNumbers/main.cpp:95-101 | no two workers' ranges overlap |
| Search.ContiguousCovers | GeneratePrimeNumbers/main.cpp:95-101 | every number of [lo, hi) lies in some worker's range |
| Search.SearchPrimes | GeneratePrimeNumbers/main.cpp:89-106 | the ranges are exactly the cuts of [lo, hi) of width (hi - lo) / workers, so they are contiguous and the last ends in [hi, hi + width). With the workers run in range order, the writer ends holding the scan of that whole interval, with target `countPrimes` |
| Search.MinPrimeNumber | GeneratePrimeNumbers/main.cpp:20 | MIN_PRIME_NUMBER = `power(2, bits, std::multiplies)` + 1, and it is odd, so the first worker starts at it |
| Search.MinPrimeNumberAboveTable | GeneratePrimeNumbers/main.cpp:16-20 | MIN_PRIME_NUMBER = 2^2048 + 1 exceeds 251, as `is_prime` asserts of every candidate |
| Search.NumbersPerThreadAsWritten | GeneratePrimeNumbers/main.cpp:89-90 | the width as written fails (division by zero) exactly when `hardware_concurrency()` is 1 |
| Search.NumbersPerThreadAsWrittenFails | GeneratePrimeNumbers/main.cpp:89-90 | with 1 hardware thread the width is undefined; with 0 or 10002 hardware threads it is 0 |
| Search.NumbersPerThreadAsWrittenZero | GeneratePrimeNumbers/main.cpp:89-90 | for a span below 2^32 - 1, the width as written is 0 exactly when `hardware_concurrency()` is 0 or exceeds the span plus one |
| Search.WorkerCount | GeneratePrimeNumbers/main.cpp:89 | the corrected worker count is between 1 and the span, and is `hardware_concurrency() - 1` whenever that is in range |
| Search.WorkerCountGivesPositiveWidth | GeneratePrimeNumbers/main.cpp:89-90 | with the corrected worker count the width is at least 1 |
| Search.GeneratePrimes | GeneratePrimeNumbers/main.cpp:83-106 | `main` with the corrected worker count: the ranges are the cuts of [MIN, MIN + 10000) of width 10000 / `WorkerCount`, and the last ends before MIN + 10000 + width. The writer wants 10 primes and ends holding the scan of those ranges |

## Left out

- Threads, `std::async`, `std::atomic_int64_t` and the mutex are not modelled. The workers run one after another, in range order, on one writer. Concurrently, several workers can pass the `EnoughPrimes()` check at main.cpp:67 before any of them writes, so the real program can write a few more than 10 primes. It also need not write the smallest ones. The sequential model shows neither effect.
- File output is modelled as a ghost sequence `written`, one element per line. The console timing at main.cpp:103-109 is not modelled.
- `std::random_device`, `std::mt19937` and `std::uniform_int_distribution` are not modelled. The witnesses are a parameter instead: a sequence for `IsPrime`, and a function from candidate to sequence for each worker. `WitnessesInRange` and `WitnessSource` require that each witness lies in [3, min(n - 1, 2^64 - 1)], that distribution's range.
- `std::thread::hardware_concurrency()` is a parameter of `GeneratePrimes` and of the finding members.
- MIN_PRIME_NUMBER is a parameter of `GeneratePrimes` and is not computed there from 2048. `MinPrimeNumber(bits)` is proved equal to `power(2, bits, std::multiplies)` + 1, and `MinPrimeNumberAboveTable` shows that it exceeds 251 for every bits >= 8.
- Search.PrimesWriter.Write: the 64-bit signed counter is modelled as an unbounded `int`. It cannot overflow at 10 primes.
- Algorithms.MillerRabinTest: requires w < n. With w >= n and q == 1, `power` returns w unreduced and the comparisons at algorithms.h:58 would see an unreduced value. `is_prime` only draws w <= n - 1.
- Algorithms.FindQAndK: requires n > 0, because `find_q_and_k(0)` never terminates. `is_prime` only calls it with n - 1 >= 252.
- Algorithms.IsPrime: requires an odd n above 251, which are the conditions `is_prime` asserts at algorithms.h:89-90.
- The witness range follows the code, [3, min(n - 1, 2^64 - 1)], not a range ending at n - 2. The trial-division table starts at 5 and does not include 3.
- Algorithms.SmallPrimesTable: states the table's size and bounds only. That its entries are prime and ascending is not proved, because the solver cannot evaluate symbolic indices into a 52-element literal.
- The Miller-Rabin theorem is not proved either: that a prime passes every round and a composite fails for most witnesses. The model proves soundness only: trial-division rejection means composite, and a passing round satisfies Fermat's condition.
- `modulo_multiply::modulus()` (algorithms.h:11) returns the member function instead of `modulus_`. It is never called and not modelled.
- `assert(write_)` (main.cpp:55) names a member that does not exist, so it compiles only when `NDEBUG` removes it. It is not modelled.
- Algorithms.ModuloMultiply: 1 is an identity of `modulo_multiply(m)` only on residues below m and only for m > 1. The contract states exactly that, not an identity on all values.

## Findings

| source | as written | input that shows it | evidently intended | confidence | as-written member | corrected member |
|---|---|---|---|---|---|---|
| GeneratePrimeNumbers/main.cpp:89-90 | `hardware_concurrency() - 1` in 32-bit unsigned arithmetic, then the span is divided by it | `hardware_concurrency()` == 1: division by zero throws. == 0 (count unknown): wraps to 2^32 - 1, the width is 0 and the partition loop never advances. >= 10002: the width is 0 too | at least one worker and at most one per number, so every range is non-empty | not executed | Search.NumbersPerThreadAsWritten, Search.NumbersPerThreadAsWrittenFails, Search.NumbersPerThreadAsWrittenZero | Search.WorkerCount, Search.WorkerCountGivesPositiveWidth |

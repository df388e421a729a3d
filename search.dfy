/**
 * The search driver: a result sink that counts the primes written against a
 * target, a worker that scans the odd numbers of one sub-range and writes the
 * probable primes it finds, and the orchestrator that splits the search
 * interval into consecutive sub-ranges of equal width and runs one worker per
 * sub-range.
 *
 * Workers run one after another, in range order, on a single sink. Each worker
 * draws its Miller-Rabin witnesses from a caller-supplied function from
 * candidate to witness sequence instead of a seeded random generator.
 */
module Search {
  import opened Arithmetic
  import opened Algorithms

  // ---------------------------------------------------------------------------
  // PrimesWriter: the result sink
  // ---------------------------------------------------------------------------

  /**
   * `PrimesWriter`: counts the primes written so far against the number
   * requested. `written` is the content of the output file, one prime per line.
   */
  class PrimesWriter {
    var primesWritten: int
    const primesToWrite: int
    ghost var written: seq<nat>

    /** The counter agrees with the number of lines written. */
    ghost predicate Valid()
      reads this
    {
      primesWritten == |written|
    }

    constructor (countPrimes: int)
      ensures Valid() && written == [] && primesToWrite == countPrimes
    {
      primesWritten := 0;
      primesToWrite := countPrimes;
      written := [];
    }

    /** `EnoughPrimes()`: the output already holds at least the requested number of primes. */
    function EnoughPrimes(): (enough: bool)
      requires Valid()
      reads this
      ensures enough <==> |written| >= primesToWrite
    {
      primesWritten >= primesToWrite
    }

    /**
     * `Write(prime)`: appends the prime to the output and counts it. Once the
     * target is reached it stays reached.
     */
    method Write(prime: nat)
      requires Valid()
      modifies this
      ensures Valid() && written == old(written) + [prime]
      ensures primesWritten == old(primesWritten) + 1
      ensures old(EnoughPrimes()) ==> EnoughPrimes()
    {
      written := written + [prime];
      primesWritten := primesWritten + 1;
    }
  }

  // ---------------------------------------------------------------------------
  // WritePrimes: the scan of one sub-range
  // ---------------------------------------------------------------------------

  /** The first candidate of a scan: from itself if odd, else from + 1. */
  function FirstCandidate(from: nat): (p: nat)
    ensures p % 2 == 1 && from <= p <= from + 1
  {
    if from % 2 == 0 then from + 1 else from
  }

  /**
   * The witnesses supplied for every candidate from `from` on are `CountChecks`
   * many and lie in the range that `is_prime` draws them from.
   */
  ghost predicate WitnessSource(from: nat, witnessesFor: nat -> seq<nat>)
    requires from > 0
  {
    forall p: nat :: from <= p ==>
      |witnessesFor(p)| == DefaultCountChecks && WitnessesInRange(p, witnessesFor(p))
  }

  /**
   * What a scan starting at candidate p writes, when `count` primes are already
   * written and `target` are wanted: every probable prime it meets, in order,
   * until p reaches `to` or the count reaches the target.
   */
  ghost function Scan(p: nat, to: nat, count: int, target: int, isPrime: nat -> bool): seq<nat>
    decreases (to as int) - p
  {
    if p >= to || count >= target then []
    else if isPrime(p) then [p] + Scan(p + 2, to, count + 1, target, isPrime)
    else Scan(p + 2, to, count, target, isPrime)
  }

  /** All probable primes among the odd numbers from p (inclusive) to `to` (exclusive), ascending. */
  ghost function ProbablePrimesIn(p: nat, to: nat, isPrime: nat -> bool): seq<nat>
    decreases (to as int) - p
  {
    if p >= to then []
    else (if isPrime(p) then [p] else []) + ProbablePrimesIn(p + 2, to, isPrime)
  }

  /** The verdict of `is_prime` on each candidate, with the witnesses drawn for it. */
  ghost function Verdict(witnessesFor: nat -> seq<nat>): nat -> bool {
    (p: nat) => p > 1 && IsProbablePrime(p, witnessesFor(p))
  }

  /** The first max(0, m) elements of s, or all of s when it is shorter. */
  function Take<T>(s: seq<T>, m: int): (t: seq<T>)
    ensures |t| == if m <= 0 then 0 else if m < |s| then m else |s|
    ensures forall i :: 0 <= i < |t| ==> t[i] == s[i]
  {
    if m <= 0 then [] else if m < |s| then s[..m] else s
  }

  /**
   * `WritePrimes`: the function object that scans one sub-range [from, to) and
   * writes its probable primes to the shared writer.
   */
  class WritePrimes {
    const writer: PrimesWriter
    const from: nat
    const to: nat
    /** The witnesses the worker's random generator draws for each candidate. */
    const witnessesFor: nat -> seq<nat>

    constructor (from: nat, to: nat, writer: PrimesWriter, witnessesFor: nat -> seq<nat>)
      ensures this.from == from && this.to == to && this.writer == writer
      ensures this.witnessesFor == witnessesFor
    {
      this.from := from;
      this.to := to;
      this.writer := writer;
      this.witnessesFor := witnessesFor;
    }

    /**
     * `operator()`: tests the odd numbers from `from` upwards while they are
     * below `to` and the writer wants more primes, and writes each probable
     * prime found while the writer still wants more.
     */
    method Run()
      requires from > 251 && WitnessSource(from, witnessesFor)
      requires writer.Valid()
      modifies writer
      ensures writer.Valid()
      ensures writer.written == old(writer.written)
        + Scan(FirstCandidate(from), to, old(writer.primesWritten), writer.primesToWrite, Verdict(witnessesFor))
    {
      var p := from;
      if p % 2 == 0 {
        p := p + 1;
      }
      ghost var verdict := Verdict(witnessesFor);
      ghost var target := writer.primesToWrite;
      ghost var whole := old(writer.written)
        + Scan(FirstCandidate(from), to, old(writer.primesWritten), target, verdict);

      while p < to && !writer.EnoughPrimes()
        invariant writer.Valid() && writer.primesToWrite == target
        invariant p % 2 == 1 && p > 251
        invariant whole == writer.written + Scan(p, to, writer.primesWritten, target, verdict)
        decreases (to as int) - p
      {
        var isPrime := IsPrime(p, witnessesFor(p));
        ghost var before := writer.written;
        if isPrime && !writer.EnoughPrimes() {
          writer.Write(p);
        }
        ScanStep(whole, before, writer.written, p, to, target, verdict, isPrime);
        ModAddMultiple(1, p, 2);
        p := p + 2;
      }
    }
  }

  /**
   * One step of the scan loop: after testing candidate p and writing it when it
   * is a probable prime and the target is not yet met, what remains to be
   * written is the scan from p + 2.
   */
  lemma ScanStep(whole: seq<nat>, before: seq<nat>, after: seq<nat>, p: nat, to: nat, target: int,
                 isPrime: nat -> bool, verdict: bool)
    requires p < to && |before| < target && verdict == isPrime(p)
    requires whole == before + Scan(p, to, |before|, target, isPrime)
    requires after == if verdict then before + [p] else before
    ensures whole == after + Scan(p + 2, to, |after|, target, isPrime)
  {
    var rest := Scan(p + 2, to, |after|, target, isPrime);
    if verdict {
      assert |after| == |before| + 1;
      assert Scan(p, to, |before|, target, isPrime) == [p] + rest;
      assert after + rest == before + ([p] + rest);
    } else {
      assert Scan(p, to, |before|, target, isPrime) == rest;
    }
  }

  /** Everything a scan writes is an odd verdict-approved number of its range. */
  lemma {:induction false} ScanSound(p: nat, to: nat, count: int, target: int, isPrime: nat -> bool)
    requires p % 2 == 1
    ensures forall i :: 0 <= i < |Scan(p, to, count, target, isPrime)| ==>
      var e := Scan(p, to, count, target, isPrime)[i];
      p <= e < to && e % 2 == 1 && isPrime(e)
    decreases (to as int) - p
  {
    if p < to && count < target {
      if isPrime(p) {
        ScanSound(p + 2, to, count + 1, target, isPrime);
      } else {
        ScanSound(p + 2, to, count, target, isPrime);
      }
    }
  }

  /** A scan writes its numbers in strictly increasing order. */
  lemma {:induction false} ScanIncreasing(p: nat, to: nat, count: int, target: int, isPrime: nat -> bool)
    requires p % 2 == 1
    ensures forall i, j :: 0 <= i < j < |Scan(p, to, count, target, isPrime)| ==>
      Scan(p, to, count, target, isPrime)[i] < Scan(p, to, count, target, isPrime)[j]
    decreases (to as int) - p
  {
    if p < to && count < target {
      if isPrime(p) {
        ScanIncreasing(p + 2, to, count + 1, target, isPrime);
        ScanSound(p + 2, to, count + 1, target, isPrime);
      } else {
        ScanIncreasing(p + 2, to, count, target, isPrime);
      }
    }
  }

  /**
   * A scan writes exactly the first target - count probable primes of its range
   * (or all of them when there are fewer): it stops as soon as the target is
   * reached or the range is exhausted.
   */
  lemma {:induction false} ScanTakesFirstPrimes(p: nat, to: nat, count: int, target: int, isPrime: nat -> bool)
    ensures Scan(p, to, count, target, isPrime) == Take(ProbablePrimesIn(p, to, isPrime), target - count)
    decreases (to as int) - p
  {
    if p < to && count < target {
      var rest := ProbablePrimesIn(p + 2, to, isPrime);
      if isPrime(p) {
        ScanTakesFirstPrimes(p + 2, to, count + 1, target, isPrime);
        var t := Take(rest, target - count - 1);
        assert Take([p] + rest, target - count) == [p] + t;
      } else {
        ScanTakesFirstPrimes(p + 2, to, count, target, isPrime);
        assert [] + rest == rest;
      }
    }
  }

  /** A scan that starts at or below the target never takes the count beyond it. */
  lemma CountNeverExceedsTarget(p: nat, to: nat, count: int, target: int, isPrime: nat -> bool)
    requires count <= target
    ensures count + |Scan(p, to, count, target, isPrime)| <= target
    ensures count + |Scan(p, to, count, target, isPrime)| == target
      || Scan(p, to, count, target, isPrime) == ProbablePrimesIn(p, to, isPrime)
  {
    ScanTakesFirstPrimes(p, to, count, target, isPrime);
  }

  /**
   * Scanning [a, d) equals scanning [a, b) and then, with the count carried
   * over, scanning [b, d): consecutive workers behave like one worker over the
   * union of their ranges.
   */
  lemma {:induction false} ScanSplit(p: nat, b: nat, d: nat, count: int, target: int, isPrime: nat -> bool)
    requires p % 2 == 1 && p <= FirstCandidate(b) && b <= d
    ensures var first := Scan(p, b, count, target, isPrime);
            Scan(p, d, count, target, isPrime)
              == first + Scan(FirstCandidate(b), d, count + |first|, target, isPrime)
    decreases (b as int) - p
  {
    if p < b && count < target {
      var c := if isPrime(p) then count + 1 else count;
      ScanSplit(p + 2, b, d, c, target, isPrime);
      var first := Scan(p + 2, b, c, target, isPrime);
      if isPrime(p) {
        assert [p] + first + Scan(FirstCandidate(b), d, c + |first|, target, isPrime)
          == [p] + (first + Scan(FirstCandidate(b), d, c + |first|, target, isPrime));
      }
    }
  }

  // ---------------------------------------------------------------------------
  // main: partition into sub-ranges and run one worker per sub-range
  // ---------------------------------------------------------------------------

  /** A half-open sub-range [from, to) handed to one worker. */
  datatype Range = Range(from: nat, to: nat)

  /** Consecutive ranges starting at lo: each range begins where the previous one ends. */
  ghost predicate Contiguous(lo: nat, ranges: seq<Range>) {
    (|ranges| > 0 ==> ranges[0].from == lo)
    && (forall i :: 0 <= i < |ranges| ==> ranges[i].from <= ranges[i].to)
    && (forall i :: 0 <= i < |ranges| - 1 ==> ranges[i].to == ranges[i + 1].from)
  }

  /** The number of ranges of width w needed to cover [lo, hi): ceil((hi - lo) / w). */
  function RangeCount(lo: nat, hi: nat, w: nat): nat
    requires w > 0
  {
    if hi <= lo then 0 else (hi - lo + w - 1) / w
  }

  /**
   * The ranges `main` cuts from `from` on, of width w each, while the start of
   * the next range is below hi.
   */
  function Cuts(from: nat, hi: nat, w: nat): seq<Range>
    requires w > 0
    decreases (hi as int) - from
  {
    if from >= hi then [] else [Range(from, from + w)] + Cuts(from + w, hi, w)
  }

  /**
   * The cut ranges are contiguous from `from`, each of width w and starting in
   * [from, hi); there are some exactly when from < hi, and the last reaches hi.
   */
  lemma {:induction false} CutsCover(from: nat, hi: nat, w: nat)
    requires w > 0
    ensures |Cuts(from, hi, w)| > 0 <==> from < hi
    ensures Contiguous(from, Cuts(from, hi, w))
    ensures forall i :: 0 <= i < |Cuts(from, hi, w)| ==>
      Cuts(from, hi, w)[i].to == Cuts(from, hi, w)[i].from + w && from <= Cuts(from, hi, w)[i].from < hi
    ensures |Cuts(from, hi, w)| > 0 ==> Cuts(from, hi, w)[|Cuts(from, hi, w)| - 1].to >= hi
    decreases (hi as int) - from
  {
    if from < hi {
      CutsCover(from + w, hi, w);
      var rest := Cuts(from + w, hi, w);
      var rs := Cuts(from, hi, w);
      assert forall i :: 1 <= i < |rs| ==> rs[i] == rest[i - 1];
    }
  }

  /** There are ceil((hi - from) / w) cut ranges. */
  lemma {:induction false} CutsCount(from: nat, hi: nat, w: nat)
    requires w > 0
    ensures |Cuts(from, hi, w)| == RangeCount(from, hi, w)
    decreases (hi as int) - from
  {
    if from < hi {
      CutsCount(from + w, hi, w);
      var y := hi - from - 1;
      if from + w < hi {
        var q, r := y / w, y % w;
        assert y + w == w * (q + 1) + r by {
          assert w * (q + 1) == w * q + w;
        }
        DivModUnique(y + w, w, q + 1, r);
      } else {
        DivModUnique(y + w, w, 1, y);
      }
    }
  }

  /**
   * The partition loop of `main`: from lo on, cut ranges of width
   * `numbersPerThread` while the start is below hi. The last range may extend
   * past hi when the width does not divide hi - lo.
   */
  method Partition(lo: nat, hi: nat, numbersPerThread: nat) returns (ranges: seq<Range>)
    requires numbersPerThread > 0
    ensures ranges == Cuts(lo, hi, numbersPerThread)
    ensures |ranges| == RangeCount(lo, hi, numbersPerThread)
    ensures |ranges| > 0 <==> lo < hi
    ensures Contiguous(lo, ranges)
    ensures forall i :: 0 <= i < |ranges| ==> ranges[i].to == ranges[i].from + numbersPerThread
    ensures forall i :: 0 <= i < |ranges| ==> lo <= ranges[i].from < hi
    ensures |ranges| > 0 ==> ranges[|ranges| - 1].to >= hi
  {
    ranges := [];
    var from := lo;
    while from < hi
      invariant ranges + Cuts(from, hi, numbersPerThread) == Cuts(lo, hi, numbersPerThread)
      decreases (hi as int) - from
    {
      var to := from + numbersPerThread;
      assert (ranges + [Range(from, to)]) + Cuts(to, hi, numbersPerThread)
        == ranges + ([Range(from, to)] + Cuts(to, hi, numbersPerThread));
      ranges := ranges + [Range(from, to)];
      from := to;
    }
    assert ranges + [] == ranges;
    CutsCover(lo, hi, numbersPerThread);
    CutsCount(lo, hi, numbersPerThread);
  }

  /** Contiguous ranges are pairwise disjoint: an earlier range ends before a later one starts. */
  lemma {:induction false} ContiguousDisjoint(lo: nat, ranges: seq<Range>, i: nat, j: nat)
    requires Contiguous(lo, ranges) && i < j < |ranges|
    ensures ranges[i].to <= ranges[j].from
    decreases j - i
  {
    if i + 1 < j {
      ContiguousDisjoint(lo, ranges, i + 1, j);
    }
  }

  /** Contiguous ranges from lo whose last range ends at or past hi cover every v in [lo, hi). */
  lemma {:induction false} ContiguousCovers(lo: nat, hi: nat, ranges: seq<Range>, v: nat)
    requires Contiguous(lo, ranges) && |ranges| > 0 && ranges[|ranges| - 1].to >= hi
    requires lo <= v < hi
    ensures exists i :: 0 <= i < |ranges| && ranges[i].from <= v < ranges[i].to
    decreases |ranges|
  {
    var last := |ranges| - 1;
    if v < ranges[last].from {
      ContiguousCovers(lo, ranges[last].from, ranges[..last], v);
      var i :| 0 <= i < last && ranges[..last][i].from <= v < ranges[..last][i].to;
      assert ranges[i].from <= v < ranges[i].to;
    } else {
      assert ranges[last].from <= v < ranges[last].to;
    }
  }

  /**
   * `main`, run sequentially: split [lo, hi) into ranges of width
   * (hi - lo) / workers, then run one worker per range, in order, on one
   * writer that wants `countPrimes` primes. The writer ends holding the first
   * `countPrimes` probable primes of the covered interval, in ascending order.
   */
  method SearchPrimes(lo: nat, hi: nat, workers: nat, countPrimes: int, witnessesFor: nat -> seq<nat>)
    returns (writer: PrimesWriter, ranges: seq<Range>)
    requires workers > 0 && lo + workers <= hi
    requires lo > 251 && WitnessSource(lo, witnessesFor)
    ensures writer.Valid() && writer.primesToWrite == countPrimes
    ensures ranges == Cuts(lo, hi, (hi - lo) / workers)
    ensures |ranges| > 0 && Contiguous(lo, ranges)
    ensures forall i :: 0 <= i < |ranges| ==> ranges[i].to == ranges[i].from + (hi - lo) / workers
    ensures hi <= ranges[|ranges| - 1].to < hi + (hi - lo) / workers
    ensures writer.written == Scan(FirstCandidate(lo), ranges[|ranges| - 1].to, 0, countPrimes, Verdict(witnessesFor))
  {
    DivAtLeastOne(hi - lo, workers);
    var numbersPerThread := (hi - lo) / workers;
    writer := new PrimesWriter(countPrimes);
    ranges := Partition(lo, hi, numbersPerThread);
    for i := 0 to |ranges|
      invariant writer.Valid() && writer.primesToWrite == countPrimes
      invariant writer.written
        == Scan(FirstCandidate(lo), if i == 0 then lo else ranges[i - 1].to, 0, countPrimes, Verdict(witnessesFor))
    {
      var range := ranges[i];
      assert range.from == if i == 0 then lo else ranges[i - 1].to;
      var worker := new WritePrimes(range.from, range.to, writer, witnessesFor);
      ScanSplit(FirstCandidate(lo), range.from, range.to, 0, countPrimes, Verdict(witnessesFor));
      worker.Run();
    }
  }

  // ---------------------------------------------------------------------------
  // main: the constants and the worker count
  // ---------------------------------------------------------------------------

  datatype Option<T> = None | Some(value: T)

  /** `CountBitsInBlock`: MIN_PRIME_NUMBER is 2^CountBitsInBlock + 1. */
  const CountBitsInBlock: nat := 2048

  /** MAX_PRIME_NUMBER - MIN_PRIME_NUMBER. */
  const PrimeSearchSpan: nat := 10000

  /** `countPrimeNumbers`: how many primes `main` asks the writer for. */
  const CountPrimeNumbers: nat := 10

  /** 2^32: `std::thread::hardware_concurrency()` returns a 32-bit `unsigned int`. */
  const UInt32Bound: nat := 0x1_0000_0000

  /**
   * MIN_PRIME_NUMBER for a block of `bits` bits: 2^bits + 1. It is odd, and it is
   * what `power(2, bits, std::multiplies)` + 1 computes.
   */
  function MinPrimeNumber(bits: nat): (m: nat)
    requires bits >= 1
    ensures m % 2 == 1
    ensures m == Repeat<int>(2, bits, Multiplies().apply) + 1
  {
    RepeatMultiplies(2, bits);
    PowTwo(bits);
    Pow(2, bits) + 1
  }

  /** From 8 bits on, and so for 2048 bits, the first candidate lies above the trial-division table. */
  lemma MinPrimeNumberAboveTable(bits: nat)
    requires bits >= 8
    ensures MinPrimeNumber(bits) > 251
  {
    PowAdd(2, 8, bits - 8);
    PowTwo(bits - 8);
    MulAtLeast(Pow(2, 8), Pow(2, bits - 8));
  }

  /**
   * The width `main` gives each worker, as written: the thread count is
   * hardware_concurrency() - 1 in 32-bit unsigned arithmetic, and dividing the
   * span by a zero thread count throws (None).
   */
  function NumbersPerThreadAsWritten(span: nat, hardwareConcurrency: nat): (width: Option<nat>)
    requires hardwareConcurrency < UInt32Bound
    ensures width.None? <==> hardwareConcurrency == 1
  {
    var threads := if hardwareConcurrency == 0 then UInt32Bound - 1 else hardwareConcurrency - 1;
    if threads == 0 then None else Some(span / threads)
  }

  /**
   * The width as written fails on three kinds of machine: with one hardware
   * thread the division throws; when the count is unknown (0) it wraps to
   * 2^32 - 1 and the width is 0; with more threads than numbers the width is 0
   * too.
   */
  lemma NumbersPerThreadAsWrittenFails()
    ensures NumbersPerThreadAsWritten(PrimeSearchSpan, 1).None?
    ensures NumbersPerThreadAsWritten(PrimeSearchSpan, 0) == Some(0)
    ensures NumbersPerThreadAsWritten(PrimeSearchSpan, PrimeSearchSpan + 2) == Some(0)
  {
  }

  /**
   * In general, for a span below 2^32 - 1, the width as written is 0 exactly
   * when the thread count is unknown (0) or exceeds the span by more than one.
   */
  lemma NumbersPerThreadAsWrittenZero(span: nat, hardwareConcurrency: nat)
    requires span < UInt32Bound - 1 && hardwareConcurrency < UInt32Bound
    ensures NumbersPerThreadAsWritten(span, hardwareConcurrency) == Some(0)
      <==> hardwareConcurrency == 0 || hardwareConcurrency > span + 1
  {
    if hardwareConcurrency == 0 {
      DivModUnique(span, UInt32Bound - 1, 0, span);
    } else if hardwareConcurrency > span + 1 {
      DivModUnique(span, hardwareConcurrency - 1, 0, span);
    } else if hardwareConcurrency >= 2 {
      DivAtLeastOne(span, hardwareConcurrency - 1);
    }
  }

  /**
   * The worker count as evidently intended: one worker per hardware thread
   * other than the main one, but at least one and no more than there are
   * numbers to scan.
   */
  function WorkerCount(span: nat, hardwareConcurrency: nat): (workers: nat)
    requires span > 0
    ensures 1 <= workers <= span
    ensures 2 <= hardwareConcurrency <= span + 1 ==> workers == hardwareConcurrency - 1
  {
    if hardwareConcurrency <= 1 then 1
    else if hardwareConcurrency - 1 > span then span
    else hardwareConcurrency - 1
  }

  /** With the corrected worker count every worker gets a non-empty range. */
  lemma WorkerCountGivesPositiveWidth(span: nat, hardwareConcurrency: nat)
    requires span > 0
    ensures span / WorkerCount(span, hardwareConcurrency) >= 1
  {
    DivAtLeastOne(span, WorkerCount(span, hardwareConcurrency));
  }

  /**
   * `main` with the corrected worker count: search [minPrime, minPrime + 10000)
   * for `CountPrimeNumbers` probable primes. MIN_PRIME_NUMBER (2^2048 + 1) is
   * passed in as `minPrime`.
   */
  method GeneratePrimes(minPrime: nat, hardwareConcurrency: nat, witnessesFor: nat -> seq<nat>)
    returns (writer: PrimesWriter, ranges: seq<Range>)
    requires minPrime > 251 && WitnessSource(minPrime, witnessesFor)
    ensures writer.Valid() && writer.primesToWrite == CountPrimeNumbers
    ensures ranges
      == Cuts(minPrime, minPrime + PrimeSearchSpan, PrimeSearchSpan / WorkerCount(PrimeSearchSpan, hardwareConcurrency))
    ensures |ranges| > 0 && Contiguous(minPrime, ranges)
    ensures minPrime + PrimeSearchSpan <= ranges[|ranges| - 1].to
      < minPrime + PrimeSearchSpan + PrimeSearchSpan / WorkerCount(PrimeSearchSpan, hardwareConcurrency)
    ensures writer.written
      == Scan(FirstCandidate(minPrime), ranges[|ranges| - 1].to, 0, CountPrimeNumbers, Verdict(witnessesFor))
  {
    var workers := WorkerCount(PrimeSearchSpan, hardwareConcurrency);
    writer, ranges := SearchPrimes(minPrime, minPrime + PrimeSearchSpan, workers, CountPrimeNumbers, witnessesFor);
  }
}

# ParallelForConsoleApp in Dafny

ParallelForConsoleApp counts the prime numbers in a range twice: once with a
sequential LINQ filter and once with `Parallel.ForEach` feeding a
`ConcurrentBag`. Then it compares the two timings. This project models the logic
behind those numbers:

- `primality.dfy` (module `Primality`) holds `IsPrime`. The trial-division test is a
  method with a loop. It is proved equal to `IsPrimeSpec`, the textbook definition:
  an integer of at least 2 with no divisor strictly between 1 and itself.
- `prime_lists.dfy` (module `PrimeLists`) holds the two filters:
  - `GetPrimeList` is the order-preserving filter `numbers.Where(IsPrime)`. It is a
    recursive function.
  - `GetPrimeListWithParallel` tests every number, collects the primes in a bag
    (a multiset) and hands them back through `ToList` in an order the bag chooses.
    That order is modelled by a nondeterministic choice. The method is proved to
    return the same multiset as the sequential filter.
- `candidates.dfy` (module `Candidates`) holds the candidate numbers that `Main`
  builds once: `Enumerable.Range(2, limit + 1)`, with `limit` a 32-bit `int`. It
  also holds the worked examples for the limits 1, 80 and 4,000,000.

`Enumerable.Range(2, limit + 1)` has `limit + 1` elements, so the candidates
run from 2 to `limit + 2`. For limit 1 they are `[2, 3]`, and both are prime
(`Candidates.CandidateNumbers`, `Candidates.LimitOne`).

## Model

| member | source | states |
|---|---|---|
| `Primality.IsPrime` | ParallelForConsoleApp/Program.cs:79-105 | The result is true exactly when `number` is prime by the textbook definition, as the doc comment at line 75 promises. The contract also names the separate cases: false below 2, true for 2, 3, 5 and 7, false for other even numbers. The loop invariant says `divisor` stays odd and at least 3, and that no odd number in `[3, divisor)` divides `number`. |
| `Primality.NoOddFactorBelowBound` | ParallelForConsoleApp/Program.cs:96-104 | Why the loop may stop at the square-root bound. If an odd `n` has no odd divisor from 3 up to a bound whose square exceeds `n`, then `n` is prime. |
| `Primality.OddFactorBelowBound` | ParallelForConsoleApp/Program.cs:96-102 | Any proper divisor of an odd `n` gives an odd divisor that is at least 3 and below the bound: either the divisor itself or its cofactor. |
| `Primality.SmallPrimes` | ParallelForConsoleApp/Program.cs:86-89 | The fast path is sound: 2, 3, 5 and 7 are prime. |
| `Primality.SmallPrimality` | ParallelForConsoleApp/Program.cs:91-102 | Below 121, a number is prime exactly when it is 2, 3, 5 or 7, or when it is divisible by none of them. |
| `Primality.SampleValues` | ParallelForConsoleApp/Program.cs:75-79 | 11, 13 and 97 are prime. 4, 6, 8, 9, 15 and 100 are not. |
| `PrimeLists.GetPrimeList` | ParallelForConsoleApp/Program.cs:52 | A value is in the result exactly when it is in the input and is prime. The result is no longer than the input. |
| `PrimeLists.GetPrimeListAppend` | ParallelForConsoleApp/Program.cs:52 | The filter distributes over concatenation, so the result keeps the primes in input order. |
| `PrimeLists.GetPrimeListCount` | ParallelForConsoleApp/Program.cs:52 | Each prime occurs in the result as often as in the input. A non-prime never occurs in it. |
| `PrimeLists.GetPrimeListPermutation` | ParallelForConsoleApp/Program.cs:52 | If two inputs are permutations of each other, their filtered results are permutations of each other. |
| `PrimeLists.GetPrimeListIdempotent` | ParallelForConsoleApp/Program.cs:52 | Filtering the result again changes nothing. |
| `PrimeLists.GetPrimeListIncreasing` | ParallelForConsoleApp/Program.cs:52 | A strictly increasing input gives a strictly increasing result. |
| `PrimeLists.GetPrimeListWithParallel` | ParallelForConsoleApp/Program.cs:59-72 | The result has the same multiset as `GetPrimeList(numbers)`. Only the order may differ. So it contains exactly the primes of the input, and no composite number. |
| `PrimeLists.ToList` | ParallelForConsoleApp/Program.cs:71 | The list holds each element of the bag exactly as often as the bag does. |
| `Candidates.Wrap` | ParallelForConsoleApp/Program.cs:20 | `limit + 1` is computed in unchecked 32-bit arithmetic. The result is the `int` congruent to the sum modulo 2^32, and it equals the sum when the sum fits. |
| `Candidates.Range` | ParallelForConsoleApp/Program.cs:20 | `Enumerable.Range(start, count)` succeeds exactly when `count >= 0` and `start + count - 1 <= int.MaxValue`. Otherwise it fails: with `NegativeCount` for a negative count, else with `PastIntMax`. On success it holds the `count` consecutive integers from `start`. |
| `Candidates.CandidateNumbers` | ParallelForConsoleApp/Program.cs:20 | The range exists exactly when `-1 <= limit <= int.MaxValue - 2`. Otherwise `Enumerable.Range` throws: for `limit == int.MaxValue`, because `limit + 1` wraps around to a negative count. When it exists, it holds `limit + 1` numbers with `numbers[i] == i + 2`, in strictly increasing order. |
| `Candidates.CandidatePrimes` | ParallelForConsoleApp/Program.cs:20-22 | The sequential result on the candidates is strictly increasing. It holds exactly the primes from 2 to `limit + 2`. |
| `Candidates.DefaultCandidates` | ParallelForConsoleApp/Program.cs:14-20 | With the default limit of 4,000,000, the range exists and holds 4,000,001 numbers. |
| `Candidates.LimitOne` | ParallelForConsoleApp/Program.cs:20-22 | Limit 1 gives the candidates `[2, 3]`, and the sequential filter keeps both. |
| `Candidates.PrimesThrough82` | ParallelForConsoleApp/Program.cs:14 | The primes from 2 to 82 are exactly the 22 primes below 80. |
| `Candidates.LimitEighty` | ParallelForConsoleApp/Program.cs:14-22 | Limit 80 (the alternative named at line 14) gives the candidates 2 to 82. The sequential result is exactly `[2, 3, 5, ..., 73, 79]`, the 22 primes below 80, in increasing order. |

## Left out

- `Main`'s console output, `Console.ReadLine` and the `Stopwatch` timings (Program.cs lines 21-44) are left out. They are I/O and wall-clock time, with no logic to state.
- The display-only samples `Take(20)` and `Where(n => n < 80).OrderBy(n => n)` are left out. So is `int.Parse` of the command-line argument, whose only failure is a runtime exception from the library. The model takes `limit` as any 32-bit `int`.
- The real concurrency of `Parallel.ForEach` and the thread safety of `ConcurrentBag` are left out. Numbers are tested one after another, and each prime is added to a multiset. Adding to a multiset is order-insensitive, so the processing order cannot change the bag. Only the order in which `ToList` returns the bag's elements is left open, and it is modelled by nondeterministic choice. Scheduling, partitioning and the propagation of a worker's exception are not modelled. The tester cannot throw.
- Primality.IsPrime: the loop bound `divisor <= Math.Sqrt(number)` is a floating-point comparison. It is modelled as the integer test `divisor * divisor <= number`. For every positive 32-bit `number` the two tests agree, because the square root of such a number as a double is exact enough. Floating point itself is not modelled.
- Primality.IsPrime: `number` is an unbounded integer rather than a 32-bit `int`. Every 32-bit input gives the same answer. Within that range `divisor` never exceeds 46,341, so `divisor += 2` cannot overflow.

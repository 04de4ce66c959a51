/** The candidate numbers Program.cs builds once in Main and hands to both
    filters: `Enumerable.Range(2, limit + 1)`, with `limit` a 32-bit `int`. */
module Candidates {
  import opened Primality
  import opened PrimeLists

  const IntMin: int := -0x8000_0000
  const IntMax: int := 0x7FFF_FFFF

  /** The limit Main uses when no argument is given. */
  const DefaultLimit: int := 4_000_000

  /** A value of C#'s 32-bit `int`. */
  predicate IsInt32(x: int)
  {
    IntMin <= x <= IntMax
  }

  /** C#'s unchecked `int` arithmetic: the 32-bit value congruent to `x`
      modulo 2^32. */
  function Wrap(x: int): (r: int)
    ensures IsInt32(r)
    ensures (x - r) % 0x1_0000_0000 == 0
    ensures IsInt32(x) ==> r == x
  {
    (x - IntMin) % 0x1_0000_0000 + IntMin
  }

  /** Why `Enumerable.Range` throws `ArgumentOutOfRangeException`. */
  datatype RangeError = NegativeCount | PastIntMax

  datatype Result<T> = Ok(value: T) | Err(error: RangeError)

  /** `Enumerable.Range(start, count)`: the `count` consecutive integers from
      `start`; it refuses a negative `count` and a last element beyond
      `int.MaxValue`. */
  function Range(start: int, count: int): (r: Result<seq<int>>)
    requires IsInt32(start) && IsInt32(count)
    ensures r.Ok? <==> count >= 0 && start + count - 1 <= IntMax
    ensures r.Err? ==> r.error == (if count < 0 then NegativeCount else PastIntMax)
    ensures r.Ok? ==> |r.value| == count
    ensures r.Ok? ==> forall i :: 0 <= i < |r.value| ==> r.value[i] == start + i
  {
    if count < 0 then Err(NegativeCount)
    else if start + count - 1 > IntMax then Err(PastIntMax)
    else Ok(seq(count, i => start + i))
  }

  /** Program.cs line 20: `Enumerable.Range(2, limit + 1)`, where `limit + 1`
      wraps around for `limit == int.MaxValue`. The range exists exactly for
      -1 <= limit <= int.MaxValue - 2 and then holds the `limit + 1` numbers
      2, 3, ..., limit + 2 in increasing order. */
  function CandidateNumbers(limit: int): (r: Result<seq<int>>)
    requires IsInt32(limit)
    ensures r.Ok? <==> -1 <= limit <= IntMax - 2
    ensures r.Ok? ==> |r.value| == limit + 1
    ensures r.Ok? ==> forall i :: 0 <= i < |r.value| ==> r.value[i] == i + 2
    ensures r.Ok? ==> StrictlyIncreasing(r.value)
  {
    Range(2, Wrap(limit + 1))
  }

  /** Both filters see the numbers 2 .. limit + 2; the sequential one returns
      exactly their primes, in increasing order, and the parallel one the
      same multiset (see GetPrimeListWithParallel). */
  lemma CandidatePrimes(limit: int)
    requires IsInt32(limit) && CandidateNumbers(limit).Ok?
    ensures StrictlyIncreasing(GetPrimeList(CandidateNumbers(limit).value))
    ensures forall x :: x in GetPrimeList(CandidateNumbers(limit).value) <==>
      2 <= x <= limit + 2 && IsPrimeSpec(x)
  {
    var numbers := CandidateNumbers(limit).value;
    GetPrimeListIncreasing(numbers);
    forall x | 2 <= x <= limit + 2
      ensures x in numbers
    {
      assert numbers[x - 2] == x;
    }
  }

  /** With the default limit the range exists and holds 4,000,001 numbers. */
  lemma DefaultCandidates()
    ensures CandidateNumbers(DefaultLimit).Ok?
    ensures |CandidateNumbers(DefaultLimit).value| == 4_000_001
  {
  }

  /** Limit 1 gives the candidates 2 and 3, both prime. */
  lemma LimitOne()
    ensures CandidateNumbers(1) == Ok([2, 3])
    ensures GetPrimeList([2, 3]) == [2, 3]
  {
    SmallPrimes();
    assert CandidateNumbers(1).value == [2, 3];
  }

  /** Every element of a strictly increasing sequence after the first
      exceeds the first, and only those are in its tail. */
  lemma IncreasingTail(s: seq<int>, x: int)
    requires StrictlyIncreasing(s) && s != []
    ensures x in s ==> s[0] <= x
    ensures x in s[1..] <==> x in s && x != s[0]
  {
    if x in s {
      var i :| 0 <= i < |s| && s[i] == x;
      assert i == 0 || s[0] < s[i];
    }
    if x in s[1..] {
      var i :| 0 <= i < |s| - 1 && s[1..][i] == x;
      assert s[0] < s[i + 1];
    }
    if x in s && x != s[0] {
      var i :| 0 <= i < |s| && s[i] == x;
      assert i != 0 && s[1..][i - 1] == x;
    }
  }

  /** Two strictly increasing sequences with the same elements are equal. */
  lemma {:induction false} IncreasingUnique(a: seq<int>, b: seq<int>)
    requires StrictlyIncreasing(a) && StrictlyIncreasing(b)
    requires forall x :: x in a <==> x in b
    ensures a == b
  {
    if a != [] {
      assert a[0] in a;
    }
    if b != [] {
      assert b[0] in b;
    }
    if a != [] && b != [] {
      IncreasingTail(a, b[0]);
      IncreasingTail(b, a[0]);
      forall x
        ensures x in a[1..] <==> x in b[1..]
      {
        IncreasingTail(a, x);
        IncreasingTail(b, x);
      }
      IncreasingUnique(a[1..], b[1..]);
    }
  }

  /** The primes from 2 to 21. */
  lemma PrimesFrom2To21(x: int)
    requires 2 <= x <= 21
    ensures IsPrimeSpec(x) <==>
      x == 2 || x == 3 || x == 5 || x == 7 || x == 11 || x == 13 || x == 17 || x == 19
  {
    SmallPrimality(x);
  }

  /** The primes from 22 to 41. */
  lemma PrimesFrom22To41(x: int)
    requires 22 <= x <= 41
    ensures IsPrimeSpec(x) <==> x == 23 || x == 29 || x == 31 || x == 37 || x == 41
  {
    SmallPrimality(x);
  }

  /** The primes from 42 to 61. */
  lemma PrimesFrom42To61(x: int)
    requires 42 <= x <= 61
    ensures IsPrimeSpec(x) <==> x == 43 || x == 47 || x == 53 || x == 59 || x == 61
  {
    SmallPrimality(x);
  }

  /** The primes from 62 to 82. */
  lemma PrimesFrom62To82(x: int)
    requires 62 <= x <= 82
    ensures IsPrimeSpec(x) <==> x == 67 || x == 71 || x == 73 || x == 79
  {
    SmallPrimality(x);
  }

  /** The primes from 2 to 82 are the 22 primes below 80. */
  lemma PrimesThrough82(x: int)
    ensures 2 <= x <= 82 && IsPrimeSpec(x) <==> x in PrimesBelowEighty()
  {
    if 2 <= x <= 21 {
      PrimesFrom2To21(x);
    } else if 22 <= x <= 41 {
      PrimesFrom22To41(x);
    } else if 42 <= x <= 61 {
      PrimesFrom42To61(x);
    } else if 62 <= x <= 82 {
      PrimesFrom62To82(x);
    }
  }

  /** The 22 primes below 80, in increasing order. */
  function PrimesBelowEighty(): (primes: seq<int>)
    ensures |primes| == 22 && StrictlyIncreasing(primes)
  {
    [2, 3, 5, 7, 11, 13, 17, 19, 23, 29, 31, 37, 41, 43, 47, 53, 59, 61, 67, 71, 73, 79]
  }

  /** Limit 80 gives the candidates 2 .. 82, whose primes are the 22 primes
      below 80, in increasing order. */
  lemma LimitEighty()
    ensures CandidateNumbers(80).Ok?
    ensures GetPrimeList(CandidateNumbers(80).value) == PrimesBelowEighty()
  {
    var primes := GetPrimeList(CandidateNumbers(80).value);
    CandidatePrimes(80);
    forall x
      ensures x in primes <==> x in PrimesBelowEighty()
    {
      PrimesThrough82(x);
    }
    IncreasingUnique(primes, PrimesBelowEighty());
  }
}

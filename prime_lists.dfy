/** The two list filters of Program.cs: GetPrimeList, the sequential LINQ
    filter, and GetPrimeListWithParallel, the fan-out into a bag whose
    order is unspecified. */
module PrimeLists {
  import opened Primality

  /** Every element is smaller than every element after it. */
  predicate StrictlyIncreasing(s: seq<int>)
  {
    forall i, j :: 0 <= i < j < |s| ==> s[i] < s[j]
  }

  /** Program.cs GetPrimeList: `numbers.Where(IsPrime).ToList()`, the primes
      of `numbers` in their input order. */
  function GetPrimeList(numbers: seq<int>): (primes: seq<int>)
    ensures forall x :: x in primes <==> x in numbers && IsPrimeSpec(x)
    ensures |primes| <= |numbers|
  {
    if numbers == [] then []
    else (if IsPrimeSpec(numbers[0]) then [numbers[0]] else []) + GetPrimeList(numbers[1..])
  }

  /** The filter distributes over concatenation: the primes of `a + b` are
      the primes of `a` followed by the primes of `b`, so the input order is
      kept. */
  lemma {:induction false} GetPrimeListAppend(a: seq<int>, b: seq<int>)
    ensures GetPrimeList(a + b) == GetPrimeList(a) + GetPrimeList(b)
  {
    if a == [] {
      assert a + b == b;
    } else {
      assert (a + b)[0] == a[0];
      assert (a + b)[1..] == a[1..] + b;
      GetPrimeListAppend(a[1..], b);
    }
  }

  /** Each prime occurs in the result exactly as often as in the input, and
      nothing else occurs in it. */
  lemma {:induction false} GetPrimeListCount(numbers: seq<int>, x: int)
    ensures multiset(GetPrimeList(numbers))[x] ==
      if IsPrimeSpec(x) then multiset(numbers)[x] else 0
  {
    if numbers != [] {
      GetPrimeListCount(numbers[1..], x);
      assert numbers == [numbers[0]] + numbers[1..];
    }
  }

  /** The multiset of the result depends only on the multiset of the input:
      filtering a permutation gives a permutation of the result. */
  lemma GetPrimeListPermutation(xs: seq<int>, ys: seq<int>)
    requires multiset(xs) == multiset(ys)
    ensures multiset(GetPrimeList(xs)) == multiset(GetPrimeList(ys))
  {
    forall x | true
      ensures multiset(GetPrimeList(xs))[x] == multiset(GetPrimeList(ys))[x]
    {
      GetPrimeListCount(xs, x);
      GetPrimeListCount(ys, x);
    }
  }

  /** Filtering twice is filtering once. */
  lemma {:induction false} GetPrimeListIdempotent(numbers: seq<int>)
    ensures GetPrimeList(GetPrimeList(numbers)) == GetPrimeList(numbers)
  {
    if numbers != [] {
      GetPrimeListIdempotent(numbers[1..]);
      var head := if IsPrimeSpec(numbers[0]) then [numbers[0]] else [];
      GetPrimeListAppend(head, GetPrimeList(numbers[1..]));
    }
  }

  /** An increasing input gives an increasing list of primes. */
  lemma {:induction false} GetPrimeListIncreasing(numbers: seq<int>)
    requires StrictlyIncreasing(numbers)
    ensures StrictlyIncreasing(GetPrimeList(numbers))
  {
    if numbers != [] {
      var rest := numbers[1..];
      GetPrimeListIncreasing(rest);
      var tail := GetPrimeList(rest);
      forall j | 0 <= j < |tail|
        ensures numbers[0] < tail[j]
      {
        assert tail[j] in tail;
        var i :| 0 <= i < |rest| && rest[i] == tail[j];
        assert numbers[i + 1] == rest[i];
      }
    }
  }

  /** Program.cs GetPrimeListWithParallel: every number is tested once and
      each prime is added to a ConcurrentBag, a multiset; `ToList` then
      hands the bag's elements back in an order the bag chooses, modelled
      by choosing any remaining element at each step. */
  method GetPrimeListWithParallel(numbers: seq<int>) returns (primes: seq<int>)
    ensures multiset(primes) == multiset(GetPrimeList(numbers))
    ensures forall x :: x in primes <==> x in numbers && IsPrimeSpec(x)
  {
    var bag: multiset<int> := multiset{};
    for k := 0 to |numbers|
      invariant bag == multiset(GetPrimeList(numbers[..k]))
    {
      var number := numbers[k];
      var isPrime := IsPrime(number);
      if isPrime {
        bag := bag + multiset{number};
      }
      assert numbers[..k + 1] == numbers[..k] + [number];
      GetPrimeListAppend(numbers[..k], [number]);
    }
    assert numbers[..|numbers|] == numbers;
    primes := ToList(bag);
    forall x
      ensures x in primes <==> x in GetPrimeList(numbers)
    {
      assert x in primes <==> x in multiset(primes);
      assert x in GetPrimeList(numbers) <==> x in multiset(GetPrimeList(numbers));
    }
  }

  /** A bag that is not empty has an element to hand out. */
  lemma NonEmptyBagHasElement(bag: multiset<int>)
    ensures bag != multiset{} ==> exists x :: x in bag
  {
    if forall x :: x !in bag {
      assert bag == multiset{};
    }
  }

  /** `ConcurrentBag.ToList`: the bag's elements, each as often as it occurs,
      in an order the bag chooses. */
  method ToList(bag: multiset<int>) returns (list: seq<int>)
    ensures multiset(list) == bag
  {
    list := [];
    var rest := bag;
    while rest != multiset{}
      invariant multiset(list) + rest == bag
      decreases |rest|
    {
      NonEmptyBagHasElement(rest);
      var x :| x in rest;
      list := list + [x];
      rest := rest - multiset{x};
    }
  }
}

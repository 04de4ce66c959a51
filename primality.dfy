/** The primality tester of Program.cs: IsPrime by trial division, proved
    against the textbook definition of a prime number. */
module Primality {

  /** `d` divides `n` exactly (for the positive operands used here C#'s
      truncating `%` and Dafny's Euclidean `%` agree). */
  predicate Divides(d: int, n: int)
  {
    d != 0 && n % d == 0
  }

  /** A prime is an integer of at least 2 with no divisor strictly between
      1 and itself. */
  predicate IsPrimeSpec(n: int)
  {
    n >= 2 && forall d :: 2 <= d < n ==> !Divides(d, n)
  }

  /** The parity of a product is the product of the parities. */
  lemma ProductParity(d: int, q: int)
    ensures (d * q) % 2 == (d % 2) * (q % 2)
  {
    var a, r := d / 2, d % 2;
    var b, s := q / 2, q % 2;
    assert d * q == 2 * (2 * a * b + a * s + b * r) + r * s;
  }

  /** Multiplication of naturals is monotonic in both operands. */
  lemma MulMonotonic(a: int, b: int, c: int, e: int)
    ensures 0 <= a <= b && 0 <= c <= e ==> a * c <= b * e
  {
    if 0 <= a <= b && 0 <= c <= e {
      assert a * c <= b * c;
      assert b * c <= b * e;
    }
  }

  /** A multiple of a positive `q` leaves no remainder on division by `q`. */
  lemma ModOfMultiple(q: int, d: int)
    requires q > 0
    ensures (q * d) % q == 0
  {
    var k, r := (q * d) / q, (q * d) % q;
    assert q * d == q * k + r;
    assert q * (d - k) == r;
    assert q * (k - d) == -r;
    MulMonotonic(q, q, 1, d - k);
    MulMonotonic(q, q, 1, k - d);
  }

  /** A proper divisor `d` of an odd `n` yields an odd divisor of `n` that is
      at least 3 and below any `bound` whose square exceeds `n`: `d` itself
      or its cofactor `n / d`. */
  lemma OddFactorBelowBound(n: int, d: int, bound: int)
    requires n >= 3 && n % 2 == 1 && 2 <= d < n
    requires bound >= 3 && bound * bound > n
    ensures Divides(d, n) ==>
      exists e :: 3 <= e < bound && e % 2 == 1 && Divides(e, n)
  {
    if Divides(d, n) {
      var q := n / d;
      assert n == d * q;
      assert q >= 0;
      assert d % 2 == 1 && q % 2 == 1 by {
        ProductParity(d, q);
      }
      assert q >= 3 by {
        MulMonotonic(d, d, q, 1);
      }
      if d < bound {
        assert Divides(d, n);
      } else {
        assert q < bound by {
          MulMonotonic(bound, d, bound, q);
        }
        assert Divides(q, n) by {
          assert n == q * d;
          ModOfMultiple(q, d);
        }
      }
    }
  }

  /** Trial division needs only the odd candidates below a bound whose square
      exceeds `n`. */
  lemma NoOddFactorBelowBound(n: int, bound: int)
    requires n >= 3 && n % 2 == 1
    requires bound >= 3 && bound * bound > n
    requires forall e :: 3 <= e < bound && e % 2 == 1 ==> !Divides(e, n)
    ensures IsPrimeSpec(n)
  {
    forall d | 2 <= d < n
      ensures !Divides(d, n)
    {
      OddFactorBelowBound(n, d, bound);
    }
  }

  /** A multiple of 9 is a multiple of 3. */
  lemma MultipleOfNine(n: int)
    ensures n % 3 != 0 ==> n % 9 != 0
  {
    if n % 9 == 0 {
      assert n == 3 * (3 * (n / 9));
    }
  }

  /** Program.cs IsPrime: rejects numbers below 2, accepts 2, 3, 5 and 7
      outright, rejects the other even numbers and then tries the odd
      divisors 3, 5, 7, ... while their square does not exceed `number`. */
  method IsPrime(number: int) returns (isPrime: bool)
    ensures isPrime <==> IsPrimeSpec(number)
    ensures number < 2 ==> !isPrime
    ensures number == 2 || number == 3 || number == 5 || number == 7 ==> isPrime
    ensures number > 2 && number % 2 == 0 ==> !isPrime
  {
    if number < 2 {
      return false;
    }
    if number == 2 || number == 3 || number == 5 || number == 7 {
      SmallPrimes();
      return true;
    }
    if number % 2 == 0 {
      assert Divides(2, number);
      return false;
    }
    var divisor := 3;
    while divisor * divisor <= number
      invariant divisor >= 3 && divisor % 2 == 1
      invariant forall d :: 3 <= d < divisor && d % 2 == 1 ==> !Divides(d, number)
      decreases number - divisor
    {
      assert divisor <= divisor * divisor;
      if number % divisor == 0 {
        assert Divides(divisor, number);
        return false;
      }
      divisor := divisor + 2;
    }
    NoOddFactorBelowBound(number, divisor);
    return true;
  }

  /** The fast path of IsPrime is sound: 2, 3, 5 and 7 are prime. */
  lemma SmallPrimes()
    ensures IsPrimeSpec(2) && IsPrimeSpec(3) && IsPrimeSpec(5) && IsPrimeSpec(7)
  {
    NoOddFactorBelowBound(3, 3);
    NoOddFactorBelowBound(5, 3);
    NoOddFactorBelowBound(7, 3);
  }

  /** For an `n` below 121 the only trial divisors needed are 2, 3, 5 and 7. */
  lemma SmallPrimality(n: int)
    requires 2 <= n < 121
    ensures IsPrimeSpec(n) <==>
      (n == 2 || n == 3 || n == 5 || n == 7 ||
       (n % 2 != 0 && n % 3 != 0 && n % 5 != 0 && n % 7 != 0))
  {
    if n == 2 || n == 3 || n == 5 || n == 7 {
      SmallPrimes();
    } else if n % 2 == 0 {
      assert Divides(2, n);
    } else if n % 3 == 0 {
      assert Divides(3, n);
    } else if n % 5 == 0 {
      assert Divides(5, n);
    } else if n % 7 == 0 {
      assert Divides(7, n);
    } else {
      MultipleOfNine(n);
      NoOddFactorBelowBound(n, 11);
    }
  }

  /** Sample values: 11, 13 and 97 are prime; 4, 6, 8, 9, 15 and 100 are not. */
  lemma SampleValues()
    ensures IsPrimeSpec(11) && IsPrimeSpec(13) && IsPrimeSpec(97)
    ensures !IsPrimeSpec(4) && !IsPrimeSpec(6) && !IsPrimeSpec(8)
    ensures !IsPrimeSpec(9) && !IsPrimeSpec(15) && !IsPrimeSpec(100)
  {
    SmallPrimality(11);
    SmallPrimality(13);
    SmallPrimality(97);
    assert Divides(2, 4) && Divides(2, 6) && Divides(2, 8);
    assert Divides(3, 9) && Divides(3, 15) && Divides(2, 100);
  }
}

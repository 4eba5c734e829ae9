/** Primality and the next-prime search used to advance the hotel's two base primes. */
module Primes {

  /** `n` is prime: at least 2 and without a divisor strictly between 1 and `n`. */
  predicate IsPrime(n: int)
  {
    n >= 2 && forall d :: 2 <= d < n ==> n % d != 0
  }

  /** `p` is the smallest prime strictly greater than `n`. */
  predicate IsNextPrime(n: int, p: int)
  {
    n < p && IsPrime(p) && forall q :: n < q < p ==> !IsPrime(q)
  }

  function Factorial(n: nat): (r: nat)
    ensures r >= 1
  {
    if n == 0 then 1 else n * Factorial(n - 1)
  }

  /** `b * x` grows with `x` for a non-negative factor `b`. */
  lemma MulMono(b: int, x: int, y: int)
    requires b >= 0 && x <= y
    ensures b * x <= b * y
  {
    assert b * y == b * x + b * (y - x);
  }

  /** Euclidean division is determined by any quotient and remainder that fit. */
  lemma DivModUnique(a: int, b: int, q: int, r: int)
    requires b > 0 && 0 <= r < b && a == b * q + r
    ensures a / b == q && a % b == r
  {
    var q', r' := a / b, a % b;
    assert a == b * q' + r';
    assert b * (q - q') == r' - r;
    if q - q' >= 1 { MulMono(b, 1, q - q'); }
    if q' - q >= 1 { MulMono(b, 1, q' - q); }
  }

  /** Divisibility is transitive. */
  lemma DividesTrans(a: int, b: int, c: int)
    requires a > 0 && b > 0
    requires b % a == 0 && c % b == 0
    ensures c % a == 0
  {
    var x := b / a;
    var y := c / b;
    assert b == a * x;
    assert c == b * y;
    assert c == a * (x * y);
    DivModUnique(c, a, x * y, 0);
  }

  /** Every factor from 1 to `n` divides `n!`. */
  lemma {:induction false} FactorialDivisible(n: nat, d: int)
    requires 1 <= d <= n
    ensures Factorial(n) % d == 0
  {
    var f := Factorial(n - 1);
    assert Factorial(n) == n * f;
    if d == n {
      DivModUnique(Factorial(n), n, f, 0);
    } else {
      FactorialDivisible(n - 1, d);
      var q := f / d;
      assert f == d * q;
      assert Factorial(n) == d * (q * n);
      DivModUnique(Factorial(n), d, q * n, 0);
    }
  }

  /** A number one above a multiple of `d >= 2` is not divisible by `d`. */
  lemma SuccessorOfMultiple(a: int, d: int)
    requires d >= 2 && a % d == 0
    ensures (a + 1) % d == 1
  {
    var q := a / d;
    assert a == d * q;
    DivModUnique(a + 1, d, q, 1);
  }

  /** The least divisor (at least 2) of a number that has one. */
  lemma LeastDivisor(n: int, d: int) returns (m: int)
    requires 2 <= d && n % d == 0 && n >= 2
    ensures 2 <= m <= d && n % m == 0
    ensures forall k :: 2 <= k < m ==> n % k != 0
  {
    m := 2;
    while n % m != 0
      invariant 2 <= m <= d
      invariant forall k :: 2 <= k < m ==> n % k != 0
      decreases d - m
    {
      m := m + 1;
    }
  }

  /** The least divisor of `n` (at least 2) is prime. */
  lemma LeastDivisorIsPrime(n: int, m: int)
    requires n >= 2 && 2 <= m && n % m == 0
    requires forall k :: 2 <= k < m ==> n % k != 0
    ensures IsPrime(m)
  {
    forall k | 2 <= k < m
      ensures m % k != 0
    {
      if m % k == 0 {
        DividesTrans(k, m, n);
      }
    }
  }

  /** There is a prime above every integer (Euclid): the least divisor of `n! + 1`. */
  lemma PrimeAbove(n: int) returns (p: int)
    ensures n < p && IsPrime(p)
  {
    if n < 2 {
      p := 2;
    } else {
      var f := Factorial(n) + 1;
      assert f % f == 0;
      p := LeastDivisor(f, f);
      LeastDivisorIsPrime(f, p);
      if p <= n {
        FactorialDivisible(n, p);
        SuccessorOfMultiple(Factorial(n), p);
      }
    }
  }

  /** A divisor times its cofactor gives back the number. */
  lemma DivExact(n: int, m: int)
    requires m > 0 && n % m == 0
    ensures n == m * (n / m)
  {
  }

  /** The cofactor of a proper divisor `m >= 2` of `n` lies in `[2, n)`. */
  lemma CofactorBounds(n: int, m: int, q: int)
    requires 2 <= m < n && n == m * q
    ensures 2 <= q < n
  {
    if q <= 1 {
      MulMono(m, q, 1);
    }
    MulMono(q, 2, m);
  }

  /** The least divisor `m` of `n` (other than 1 and `n`) satisfies `m * m <= n`. */
  lemma LeastDivisorSquare(n: int, m: int)
    requires 2 <= m < n && n % m == 0
    requires forall k :: 2 <= k < m ==> n % k != 0
    ensures m * m <= n
  {
    var q := n / m;
    DivExact(n, m);
    CofactorBounds(n, m, q);
    DivModUnique(n, q, m, 0);
    MulMono(m, m, q);
  }

  /** A positive divisor of a positive number is at most that number. */
  lemma DivisorAtMost(n: int, d: int)
    requires n > 0 && d > 0 && n % d == 0
    ensures d <= n
  {
    var q := n / d;
    DivExact(n, d);
    if q <= 0 {
      MulMono(d, q, 0);
    } else {
      MulMono(d, 1, q);
    }
  }

  /** A common divisor of `x` and `y` divides `x * m + y`. */
  lemma DividesCombination(g: int, x: int, y: int, m: int)
    requires g > 0 && x % g == 0 && y % g == 0
    ensures (x * m + y) % g == 0
  {
    var u, v := x / g, y / g;
    DivExact(x, g);
    DivExact(y, g);
    assert x * m == g * (u * m);
    assert x * m + y == g * (u * m + v);
    DivModUnique(x * m + y, g, u * m + v, 0);
  }

  /** Greatest common divisor, by Euclid's algorithm. */
  function Gcd(a: nat, b: nat): nat
    decreases b
  {
    if b == 0 then a else Gcd(b, a % b)
  }

  /** The greatest common divisor of two numbers, not both zero, is positive and divides both. */
  lemma {:induction false} GcdDivides(a: nat, b: nat)
    requires a > 0 || b > 0
    ensures Gcd(a, b) > 0 && a % Gcd(a, b) == 0 && b % Gcd(a, b) == 0
    decreases b
  {
    if b == 0 {
      DivModUnique(a, a, 1, 0);
      DivModUnique(0, a, 0, 0);
    } else {
      GcdDivides(b, a % b);
      assert a == b * (a / b) + a % b;
      DividesCombination(Gcd(b, a % b), b, a % b, a / b);
    }
  }

  /** Bezout's identity: the greatest common divisor is an integer combination of the two numbers. */
  lemma {:induction false} Bezout(a: nat, b: nat) returns (x: int, y: int)
    ensures x * a + y * b == Gcd(a, b)
    decreases b
  {
    if b == 0 {
      x, y := 1, 0;
    } else {
      var x', y' := Bezout(b, a % b);
      var q := a / b;
      assert a % b == a - b * q;
      assert y' * (a - b * q) == y' * a - (y' * q) * b;
      x, y := y', x' - y' * q;
    }
  }

  /** Euclid's lemma: a prime that divides a product and not its first factor divides the second. */
  lemma EuclidPrime(p: nat, a: nat, b: int)
    requires IsPrime(p) && (a * b) % p == 0 && a % p != 0
    ensures b % p == 0
  {
    GcdDivides(p, a);
    var g := Gcd(p, a);
    DivisorAtMost(p, g);
    assert g == 1;
    var x, y := Bezout(p, a);
    var k := (a * b) / p;
    DivExact(a * b, p);
    assert b * (x * p + y * a) == p * (b * x) + y * (a * b);
    assert y * (a * b) == p * (y * k);
    assert b == p * (b * x + y * k);
    DivModUnique(b, p, b * x + y * k, 0);
  }

  /** For odd `n >= 3`, trial division by the odd numbers `3 <= d` with `d * d <= n` decides primality. */
  lemma OddTrialDivision(n: int, i: int)
    requires n >= 3 && n % 2 == 1 && i >= 3
    requires i * i > n
    requires NoOddFactorBelow(n, i)
    ensures IsPrime(n)
  {
    if !IsPrime(n) {
      var d :| 2 <= d < n && n % d == 0;
      var m := LeastDivisor(n, d);
      LeastDivisorSquare(n, m);
      if m % 2 == 0 {
        DividesTrans(2, m, n);
      }
      if m >= i {
        MulMono(m, i, m);
        MulMono(i, i, m);
      }
    }
  }

  /** No odd number from 3 up to (not including) `i` divides `n`. */
  predicate NoOddFactorBelow(n: int, i: int)
  {
    forall d :: 3 <= d < i && d % 2 == 1 ==> n % d != 0
  }

  /** Trial division by odd numbers moves from `i` to `i + 2`: the even `i + 1` need not be tried. */
  lemma NextOddDivisor(n: int, i: int)
    requires i >= 3 && i % 2 == 1 && n % i != 0
    requires NoOddFactorBelow(n, i)
    ensures NoOddFactorBelow(n, i + 2)
  {
    DivModUnique(i + 1, 2, (i + 1) / 2, 0);
  }

  /** An even number above 2 is not prime. */
  lemma EvenNotPrime(n: int)
    requires n > 2 && n % 2 == 0
    ensures !IsPrime(n)
  {
    assert 2 <= 2 < n;
  }

  /** The odd-candidate branch of `find_next_prime`: tries the odd divisors
      `3, 5, ...` while their square does not exceed `n`, and stops at the first
      that divides `n`. */
  method OddHasNoFactor(n: int) returns (isPrime: bool)
    requires n >= 3 && n % 2 == 1
    ensures isPrime <==> IsPrime(n)
  {
    isPrime := true;
    var i := 3;
    while i * i <= n
      invariant i >= 3 && i % 2 == 1
      invariant NoOddFactorBelow(n, i)
      decreases n - i
    {
      MulMono(i, 3, i);
      if n % i == 0 {
        isPrime := false;
        break;
      }
      NextOddDivisor(n, i);
      i := i + 2;
    }
    if isPrime {
      OddTrialDivision(n, i);
    }
  }

  /** Models `find_next_prime`: tries `number + 1, number + 2, ...` and tests each
      candidate by trial division with odd divisors up to its square root. */
  method FindNextPrime(number: int) returns (p: int)
    ensures IsNextPrime(number, p)
  {
    ghost var bound := PrimeAbove(number);
    var nextNum := number + 1;
    while true
      invariant number < nextNum <= bound
      invariant forall q :: number < q < nextNum ==> !IsPrime(q)
      decreases bound - nextNum
    {
      var isCurrentNumPrime := true;
      if nextNum < 2 {
        isCurrentNumPrime := false;
      } else if nextNum == 2 {
        isCurrentNumPrime := true;
      } else if nextNum % 2 == 0 {
        isCurrentNumPrime := false;
        EvenNotPrime(nextNum);
      } else {
        isCurrentNumPrime := OddHasNoFactor(nextNum);
      }
      assert isCurrentNumPrime <==> IsPrime(nextNum);
      if isCurrentNumPrime {
        return nextNum;
      }
      nextNum := nextNum + 1;
    }
  }

  /** Advancing both bases keeps them in strictly increasing order. */
  lemma NextPrimeMonotone(a: int, b: int, p: int, q: int)
    requires a < b && IsPrime(b)
    requires IsNextPrime(a, p) && IsNextPrime(b, q)
    ensures p < q
  {
  }
}

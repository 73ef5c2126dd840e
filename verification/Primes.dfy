/** Divisibility and primes, as far as the scalar field needs them: there is a prime above every bound, and
    a prime that does not divide a number is coprime to it. */
module Primes {

  ghost predicate Divides(d: int, n: int) {
    exists k :: n == d * k
  }

  ghost predicate IsPrime(p: int) {
    2 <= p && forall d :: 2 <= d < p ==> !Divides(d, p)
  }

  lemma {:induction false} DividesMultiple(d: int, n: int, m: int)
    requires Divides(d, n)
    ensures Divides(d, n * m)
  {
    var k :| n == d * k;
    assert n * m == d * (k * m);
  }

  lemma {:induction false} DividesDifference(d: int, n: int, m: int)
    requires Divides(d, n) && Divides(d, m)
    ensures Divides(d, n - m) && Divides(d, n + m)
  {
    var k :| n == d * k;
    var j :| m == d * j;
    assert n - m == d * (k - j) && n + m == d * (k + j);
  }

  lemma {:induction false} DividesOne(d: int)
    requires Divides(d, 1) && 0 <= d
    ensures d == 1
  {
    var k :| 1 == d * k;
    assert d >= 2 ==> k != 0;
  }

  /** Quotient and remainder are unique: the one fact about `%` everything else goes through. */
  lemma {:induction false} RemainderUnique(x: int, d: int, q: int, r: int)
    requires 0 <= r < d && x == q * d + r
    ensures x % d == r && x / d == q
  {
    var e := x / d - q;
    assert x == d * (x / d) + x % d;
    assert d * e == r - x % d;
    assert e >= 1 ==> d * e >= d;
    assert e <= -1 ==> d * e <= -d;
  }

  lemma {:induction false} DividesIsRemainder(d: int, n: int)
    requires d > 0
    ensures Divides(d, n) <==> n % d == 0
  {
    if Divides(d, n) {
      var k :| n == d * k;
      RemainderUnique(n, d, k, 0);
    } else {
      assert n == d * (n / d) + n % d;
    }
  }

  function Factorial(n: nat): (f: int)
    ensures f >= 1
  {
    if n == 0 then 1 else n * Factorial(n - 1)
  }

  lemma {:induction false} DividesFactorial(d: int, n: nat)
    requires 1 <= d <= n
    ensures Divides(d, Factorial(n))
  {
    if d == n {
    } else {
      DividesFactorial(d, n - 1);
      DividesMultiple(d, Factorial(n - 1), n);
    }
  }

  function LeastDivisor(n: int, d: int): (p: int)
    requires 2 <= d <= n
    requires forall e :: 2 <= e < d ==> !Divides(e, n)
    ensures 2 <= p <= n && Divides(p, n) && IsPrime(p)
    decreases n - d
  {
    DividesIsRemainder(d, n);
    if n % d == 0 then
      LeastDivisorIsPrime(n, d);
      d
    else
      assert n % n == 0 by { RemainderUnique(n, n, 1, 0); }
      LeastDivisor(n, d + 1)
  }

  lemma {:induction false} LeastDivisorIsPrime(n: int, p: int)
    requires 2 <= p && Divides(p, n)
    requires forall e :: 2 <= e < p ==> !Divides(e, n)
    ensures IsPrime(p)
  {
    var k :| n == p * k;
    forall d | 2 <= d < p
      ensures !Divides(d, p)
    {
      if Divides(d, p) {
        DividesMultiple(d, p, k);
        assert false;
      }
    }
  }

  /** Euclid: a prime larger than `n`. */
  function PrimeAbove(n: nat): (p: int)
    ensures IsPrime(p) && p > n
  {
    var p := LeastDivisor(Factorial(n) + 1, 2);
    FactorOfSuccessorIsLarge(n, p);
    p
  }

  lemma {:induction false} FactorOfSuccessorIsLarge(n: nat, p: int)
    requires 2 <= p && Divides(p, Factorial(n) + 1)
    ensures p > n
  {
    if p <= n {
      DividesFactorial(p, n);
      DividesDifference(p, Factorial(n) + 1, Factorial(n));
      DividesOne(p);
      assert false;
    }
  }

  /** Extended Euclid: coefficients (s, t) for which s * a + t * b is the greatest common divisor. */
  function Bezout(a: nat, b: nat): (int, int)
    decreases b
  {
    if b == 0 then (1, 0)
    else
      var (s, t) := Bezout(b, a % b);
      (t, s - (a / b) * t)
  }

  lemma {:induction false} BezoutDivides(a: nat, b: nat)
    ensures var (s, t) := Bezout(a, b); var g := s * a + t * b;
            g >= 0 && Divides(g, a) && Divides(g, b)
    decreases b
  {
    if b == 0 {
      assert a == a * 1 && b == a * 0;
    } else {
      BezoutDivides(b, a % b);
      var (s, t) := Bezout(b, a % b);
      BezoutStep(a, b, s, t);
      DividesMultiple(s * b + t * (a % b), b, a / b);
      DividesDifference(s * b + t * (a % b), b * (a / b), a % b);
    }
  }

  lemma {:induction false} BezoutStep(a: nat, b: nat, s: int, t: int)
    requires b != 0
    ensures t * a + (s - (a / b) * t) * b == s * b + t * (a % b)
    ensures b * (a / b) + a % b == a
  {
    var q, r := a / b, a % b;
    assert a == b * q + r;
    assert t * (b * q + r) == t * (b * q) + t * r;
    assert (s - q * t) * b == s * b - (q * t) * b;
    assert t * (b * q) == (q * t) * b;
  }

  /** For a prime p and 0 < a < p the coefficients combine a and p to 1. */
  lemma {:induction false} PrimeIsCoprime(a: nat, p: nat)
    requires IsPrime(p) && 0 < a < p
    ensures var (s, t) := Bezout(a, p); s * a + t * p == 1
  {
    var (s, t) := Bezout(a, p);
    var g := s * a + t * p;
    BezoutDivides(a, p);
    var k :| a == g * k;
    assert g != 0;
    assert k >= 1;
    assert g <= a;
  }
}

/** The scalar field: integers modulo a prime that exceeds every participant index. */
module Scalars {
  import opened Primes

  const U32_LIMIT := 0x1_0000_0000

  type u32 = x: int | 0 <= x < U32_LIMIT

  type LargePrime = p: int | IsPrime(p) && p > U32_LIMIT witness PrimeAbove(U32_LIMIT)

  /** The order of the signing group. Nothing is known of it but its type, so every theorem holds for each
      prime above 2^32; the order in section 5.1 of RFC 8032 is one. */
  const ORDER: LargePrime

  type Scalar = x: int | 0 <= x < ORDER

  function Reduce(x: int): (r: Scalar)
    ensures 0 <= x < ORDER ==> r == x
  {
    ReduceFacts(x);
    x % ORDER
  }

  lemma {:induction false} ReduceFacts(x: int)
    ensures 0 <= x < ORDER ==> x % ORDER == x
    ensures Divides(ORDER, x - x % ORDER)
  {
    assert x - x % ORDER == ORDER * (x / ORDER);
    if 0 <= x < ORDER {
      RemainderUnique(x, ORDER, 0, x);
    }
  }

  /** Congruence modulo the group order. */
  ghost predicate Cong(a: int, b: int) {
    Reduce(a) == Reduce(b)
  }

  lemma {:induction false} CongIsDivides(a: int, b: int)
    ensures Cong(a, b) <==> Divides(ORDER, a - b)
  {
    ReduceFacts(a);
    ReduceFacts(b);
    if Cong(a, b) {
      DividesDifference(ORDER, a - Reduce(a), b - Reduce(b));
    }
    if Divides(ORDER, a - b) {
      DividesDifference(ORDER, a - b, b - Reduce(b));
      DividesDifference(ORDER, a - b + (b - Reduce(b)), a - Reduce(a));
      SmallMultiple(Reduce(a) - Reduce(b));
    }
  }

  lemma {:induction false} SmallMultiple(x: int)
    requires Divides(ORDER, x) && 0 - ORDER < x < ORDER
    ensures x == 0
  {
    var k :| x == ORDER * k;
    assert k >= 1 ==> ORDER * k >= ORDER;
    assert k <= -1 ==> ORDER * k <= 0 - ORDER;
  }

  lemma {:induction false} CongAdd(a: int, b: int, c: int, d: int)
    requires Cong(a, b) && Cong(c, d)
    ensures Cong(a + c, b + d) && Cong(a - c, b - d)
  {
    CongIsDivides(a, b);
    CongIsDivides(c, d);
    CongIsDivides(a + c, b + d);
    CongIsDivides(a - c, b - d);
    DividesDifference(ORDER, a - b, c - d);
    assert (a + c) - (b + d) == (a - b) + (c - d);
    assert (a - c) - (b - d) == (a - b) - (c - d);
  }

  lemma {:induction false} CongScale(a: int, b: int, c: int)
    requires Cong(a, b)
    ensures Cong(a * c, b * c) && Cong(c * a, c * b)
  {
    hide Reduce, Divides;
    CongIsDivides(a, b);
    CongIsDivides(a * c, b * c);
    DividesMultiple(ORDER, a - b, c);
    assert (a - b) * c == a * c - b * c;
    assert a * c == c * a && b * c == c * b;
  }

  lemma {:induction false} CongMul(a: int, b: int, c: int, d: int)
    requires Cong(a, b) && Cong(c, d)
    ensures Cong(a * c, b * d)
  {
    hide Reduce;
    CongScale(a, b, c);
    CongScale(c, d, b);
  }

  // The operations of the field.

  function Add(a: Scalar, b: Scalar): (r: Scalar)
    ensures Cong(r, a + b)
  {
    Reduce(a + b)
  }

  function Sub(a: Scalar, b: Scalar): (r: Scalar)
    ensures Cong(r, a - b)
  {
    Reduce(a - b)
  }

  function Mul(a: Scalar, b: Scalar): (r: Scalar)
    ensures Cong(r, a * b)
  {
    Reduce(a * b)
  }

  /** The multiplicative inverse; zero is sent to zero. */
  function Invert(a: Scalar): (r: Scalar)
    ensures a != 0 ==> Cong(a * r, 1)
    ensures a == 0 ==> r == 0
  {
    var (s, t) := Bezout(a, ORDER);
    InvertIsInverse(a);
    if a == 0 then 0 else Reduce(s)
  }

  lemma {:induction false} InvertIsInverse(a: Scalar)
    ensures a != 0 ==> Cong(a * Reduce(Bezout(a, ORDER).0), 1)
  {
    if a != 0 {
      var (s, t) := Bezout(a, ORDER);
      PrimeIsCoprime(a, ORDER);
      assert a * s - 1 == ORDER * (-t);
      CongIsDivides(a * s, 1);
      CongMul(a, a, Reduce(s), s);
    }
  }

  lemma {:induction false} NoZeroDivisors(a: int, b: int)
    requires Cong(a * b, 0)
    ensures Cong(a, 0) || Cong(b, 0)
  {
    hide Reduce;
    if Reduce(a) != 0 {
      var i := Invert(Reduce(a));
      CongScale(Reduce(a), a, i);
      CongScale(a * i, 1, b);
      CongScale(a * b, 0, i);
      Regroup(a, i, b);
    }
  }

  lemma {:induction false} Regroup(x: int, y: int, z: int)
    ensures x * y * z == z * y * x == x * (y * z) == (x * z) * y
  {
  }

  lemma {:induction false} Cancel(a: int, x: int, y: int)
    requires !Cong(a, 0) && Cong(a * x, a * y)
    ensures Cong(x, y)
  {
    hide Reduce;
    CongAdd(a * x, a * y, a * y, a * y);
    assert a * (x - y) == a * x - a * y;
    NoZeroDivisors(a, x - y);
    CongAdd(x - y, 0, y, y);
  }

  /** Integers closer together than the group order are congruent only when equal: so are participant indices. */
  lemma {:induction false} CongSmall(a: int, b: int)
    requires 0 - ORDER < a - b < ORDER && Cong(a, b)
    ensures a == b
  {
    CongIsDivides(a, b);
    SmallMultiple(a - b);
  }
}

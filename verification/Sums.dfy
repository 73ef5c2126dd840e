/** Finite sums of integers, and how they behave modulo the group order. */
module Sums {
  import opened Scalars

  function Sum(s: seq<int>): int {
    if s == [] then 0 else s[0] + Sum(s[1..])
  }

  /** The field sum that folding `Add` over a sequence of scalars yields. */
  function SumScalars(s: seq<Scalar>): (r: Scalar)
    ensures Cong(r, Sum(s))
  {
    if s == [] then 0
    else
      CongAdd(s[0], s[0], SumScalars(s[1..]), Sum(s[1..]));
      Add(s[0], SumScalars(s[1..]))
  }

  lemma {:induction false} SumLinear(a: seq<int>, b: seq<int>, k: int, c: seq<int>)
    requires |a| == |b| == |c|
    requires forall i :: 0 <= i < |c| ==> c[i] == a[i] + k * b[i]
    ensures Sum(c) == Sum(a) + k * Sum(b)
  {
    if c == [] {
    } else {
      SumLinear(a[1..], b[1..], k, c[1..]);
      assert k * (b[0] + Sum(b[1..])) == k * b[0] + k * Sum(b[1..]);
    }
  }

  lemma {:induction false} SumZero(a: seq<int>)
    requires forall i :: 0 <= i < |a| ==> a[i] == 0
    ensures Sum(a) == 0
  {
    if a == [] {
    } else {
      SumZero(a[1..]);
    }
  }

  lemma {:induction false} SumScale(a: seq<int>, k: int, b: seq<int>)
    requires |a| == |b|
    requires forall i :: 0 <= i < |a| ==> a[i] == k * b[i]
    ensures Sum(a) == k * Sum(b)
  {
    if a == [] {
    } else {
      SumScale(a[1..], k, b[1..]);
      assert k * (b[0] + Sum(b[1..])) == k * b[0] + k * Sum(b[1..]);
    }
  }

  lemma {:induction false} SumCong(a: seq<int>, b: seq<int>)
    requires |a| == |b|
    requires forall i :: 0 <= i < |a| ==> Cong(a[i], b[i])
    ensures Cong(Sum(a), Sum(b))
  {
    hide Reduce;
    if a == [] {
    } else {
      SumCong(a[1..], b[1..]);
      CongAdd(a[0], b[0], Sum(a[1..]), Sum(b[1..]));
    }
  }

  /** Termwise multiples, modulo the order. */
  lemma {:induction false} SumScaleCong(a: seq<int>, k: int, b: seq<int>)
    requires |a| == |b|
    requires forall i :: 0 <= i < |a| ==> Cong(a[i], k * b[i])
    ensures Cong(Sum(a), k * Sum(b))
  {
    hide Reduce;
    if a == [] {
    } else {
      SumScaleCong(a[1..], k, b[1..]);
      CongAdd(a[0], k * b[0], Sum(a[1..]), k * Sum(b[1..]));
      assert k * (b[0] + Sum(b[1..])) == k * b[0] + k * Sum(b[1..]);
    }
  }

  /** Termwise sums of three, modulo the order. */
  lemma {:induction false} SumThreeCong(z: seq<int>, a: seq<int>, b: seq<int>, c: seq<int>)
    requires |z| == |a| == |b| == |c|
    requires forall i :: 0 <= i < |z| ==> Cong(z[i], a[i] + b[i] + c[i])
    ensures Cong(Sum(z), Sum(a) + (Sum(b) + Sum(c)))
  {
    hide Reduce;
    var ab := seq(|a|, i requires 0 <= i < |a| => a[i] + 1 * b[i]);
    var abc := seq(|a|, i requires 0 <= i < |a| => ab[i] + 1 * c[i]);
    SumLinear(a, b, 1, ab);
    SumLinear(ab, c, 1, abc);
    SumCong(z, abc);
  }
}

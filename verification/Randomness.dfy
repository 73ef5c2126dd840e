/** What the drawn randomness can make of key generation and rotation: everything. Each list of polynomials is dealt
    for some tape, so no coefficient is fixed, shared or left out (crates/dkg/src/feldman.rs,
    crates/dkg/src/rotation.rs). */
module Randomness {
  import opened Core
  import opened Scalars
  import opened Primes
  import opened Polynomials
  import opened Lagrange
  import opened Feldman
  import opened Rotation
  import opened Quorums

  /** The tape that, from a position on, lists rows of w scalars one after the other. */
  function TapeListing(rows: seq<seq<Scalar>>, start: nat, w: nat): nat -> Scalar
    requires w >= 1 && forall i :: 0 <= i < |rows| ==> |rows[i]| == w
  {
    (m: nat) => if start <= m && (m - start) / w < |rows| then rows[(m - start) / w][(m - start) % w] else 0
  }

  lemma {:induction false} TapeLists(rows: seq<seq<Scalar>>, start: nat, w: nat, i: nat, k: nat)
    requires w >= 1 && forall j :: 0 <= j < |rows| ==> |rows[j]| == w
    requires i < |rows| && k < w
    ensures TapeListing(rows, start, w)(start + i * w + k) == rows[i][k]
  {
    RemainderUnique(i * w + k, w, i, k);
    assert i * w >= 0;
  }

  /** Key generation: any polynomials of t coefficients are dealt for some tape. */
  lemma {:induction false} EveryDealIsDrawn(polys: seq<Polynomial>, t: nat, start: nat) returns (tape: nat -> Scalar)
    requires t >= 1 && forall i :: 0 <= i < |polys| ==> |polys[i].coefficients| == t
    ensures DealerPolys(tape, start, t, |polys|) == polys
  {
    var rows := seq(|polys|, i requires 0 <= i < |polys| => polys[i].coefficients);
    tape := TapeListing(rows, start, t);
    forall i | 0 <= i < |polys|
      ensures DealerPolys(tape, start, t, |polys|)[i] == polys[i]
    {
      forall k | 0 <= k < t
        ensures Draws(tape, start + i * t, t)[k] == polys[i].coefficients[k]
      {
        TapeLists(rows, start, t, i, k);
      }
      assert Draws(tape, start + i * t, t) == polys[i].coefficients;
    }
  }

  /** Rotation: any polynomials of t coefficients with constant term zero are dealt for some tape. */
  lemma {:induction false} EveryZeroDealIsDrawn(polys: seq<Polynomial>, t: nat, start: nat)
      returns (tape: nat -> Scalar)
    requires t >= 1 && ZeroConstants(polys) && forall i :: 0 <= i < |polys| ==> |polys[i].coefficients| == t
    ensures ZeroPolys(tape, start, t, |polys|) == polys
  {
    var rows := seq(|polys|, i requires 0 <= i < |polys| => polys[i].coefficients[1..]);
    tape := if t == 1 then (m: nat) => 0 else TapeListing(rows, start, t - 1);
    forall i | 0 <= i < |polys|
      ensures ZeroPolys(tape, start, t, |polys|)[i] == polys[i]
    {
      forall k | 0 <= k < t - 1
        ensures Draws(tape, start + i * (t - 1), t - 1)[k] == polys[i].coefficients[1..][k]
      {
        TapeLists(rows, start, t - 1, i, k);
      }
      assert Draws(tape, start + i * (t - 1), t - 1) == polys[i].coefficients[1..];
      assert polys[i].coefficients == [0] + polys[i].coefficients[1..];
    }
  }

  /** The polynomial g from the first dealer, zero from the others. */
  function OneDealer(g: seq<Scalar>, n: nat): (polys: seq<Polynomial>)
    requires n >= 1
    ensures |polys| == n && forall i :: 0 <= i < n ==> |polys[i].coefficients| == |g|
  {
    [Polynomial(g)] + seq(n - 1, _ => Polynomial(seq(|g|, _ => 0)))
  }

  lemma {:induction false} SumOfZeroPolys(polys: seq<Polynomial>, x: int)
    requires forall i, k :: 0 <= i < |polys| && 0 <= k < |polys[i].coefficients| ==> polys[i].coefficients[k] == 0
    ensures Eval(SumPolys(polys), x) == 0
  {
    if polys == [] {
      EvalEmpty(x);
    } else {
      SumOfZeroPolys(polys[1..], x);
      EvalZero(polys[0].coefficients, x);
      EvalAddPoly(polys[0].coefficients, SumPolys(polys[1..]), x);
    }
  }

  lemma {:induction false} EvalZero(f: seq<int>, x: int)
    requires forall k :: 0 <= k < |f| ==> f[k] == 0
    ensures Eval(f, x) == 0
  {
    if f == [] {
    } else {
      EvalZero(f[1..], x);
    }
  }

  lemma {:induction false} OneDealerSum(g: seq<Scalar>, n: nat, x: int)
    requires n >= 1
    ensures Eval(SumPolys(OneDealer(g, n)), x) == Eval(g, x)
  {
    hide Eval;
    var polys := OneDealer(g, n);
    SumOfZeroPolys(polys[1..], x);
    EvalAddPoly(g, SumPolys(polys[1..]), x);
  }

  lemma {:induction false} SameValuesSameKeys(f: seq<int>, g: seq<int>, n: u32)
    requires forall x: u32 :: Eval(f, x) == Eval(g, x)
    ensures KeysOn(f, n) == KeysOn(g, n)
  {
    hide Eval, Reduce;
    assert VerificationSharesOn(f, n) == VerificationSharesOn(g, n);
  }

  /** Every sharing with t coefficients, so every group secret and every t shares, is the outcome of some ceremony. */
  lemma {:induction false} EverySharingIsDrawn(g: seq<Scalar>, n: u32, start: nat) returns (tape: nat -> Scalar)
    requires n >= 1 && |g| >= 1
    ensures KeysOn(SumPolys(DealerPolys(tape, start, |g|, n)), n) == KeysOn(g, n)
    ensures forall i :: 0 <= i < n ==>
      KeysOn(SumPolys(DealerPolys(tape, start, |g|, n)), n)[i].groupPublicKey == Times(G, g[0])
  {
    hide Reduce, Eval, SumPolys;
    tape := EveryDealIsDrawn(OneDealer(g, n), |g|, start);
    forall x: u32
      ensures Eval(SumPolys(OneDealer(g, n)), x) == Eval(g, x)
    {
      OneDealerSum(g, n, x);
    }
    SameValuesSameKeys(SumPolys(OneDealer(g, n)), g, n);
    EvalAtZero(g);
    TimesG(g[0]);
  }

  /** A rotation moves the sharing by any polynomial with constant term zero, for some tape. */
  lemma {:induction false} EveryMoveIsDrawn(f: seq<int>, z: seq<Scalar>, n: u32, start: nat)
      returns (tape: nat -> Scalar)
    requires n >= 1 && |z| >= 1 && z[0] == 0
    ensures RotateStep(KeysOn(f, n), ZeroPolys(tape, start, |z|, n)) == Ok(KeysOn(AddPoly(f, z), n))
  {
    hide Reduce, Eval, SumPolys, AddPoly, RotateStep;
    var polys := OneDealer(z, n);
    tape := EveryZeroDealIsDrawn(polys, |z|, start);
    RotationMovesPolynomial(f, n, polys);
    forall x: u32
      ensures Eval(AddPoly(f, SumPolys(polys)), x) == Eval(AddPoly(f, z), x)
    {
      OneDealerSum(z, n, x);
      EvalAddPoly(f, SumPolys(polys), x);
      EvalAddPoly(f, z, x);
    }
    SameValuesSameKeys(AddPoly(f, SumPolys(polys)), AddPoly(f, z), n);
  }

  /** The polynomial of t coefficients, constant term zero, with the given values at the given indices. */
  function Through(indices: seq<u32>, values: seq<int>, t: nat): (z: seq<Scalar>)
    requires |indices| == |values| < t
    ensures |z| == t
  {
    Interpolant([0] + indices, [0] + values) + seq(t - |indices| - 1, _ => 0)
  }

  lemma {:induction false} ThroughMeets(indices: seq<u32>, values: seq<int>, t: nat, k: nat)
    requires |indices| == |values| < t && Distinct(indices) && 0 !in indices && k < |indices|
    ensures Through(indices, values, t)[0] == 0
    ensures Cong(Eval(Through(indices, values, t), indices[k]), values[k])
  {
    hide Reduce, Eval, Interpolant;
    var xs, ys := [0] + indices, [0] + values;
    var h, zeros := Interpolant(xs, ys), t - |indices| - 1;
    IndicesDistinct(xs);
    InterpolantMeets(xs, ys);
    assert xs[0] == 0 && ys[0] == 0 && xs[k + 1] == indices[k] && ys[k + 1] == values[k];
    EvalAtZero(h);
    CongSmall(h[0], 0);
    assert Through(indices, values, t) == h + Constants(zeros, 0);
    EvalPadded(h, zeros, indices[k]);
  }

  /** Rotation refreshes shares: fewer than t participants can end up with any secrets at all, whatever they held. With
      t = 2 and up, no share is sure to stay what it was. */
  lemma {:induction false} EveryRefreshIsDrawn(f: seq<int>, n: u32, t: nat, start: nat, indices: seq<u32>,
                                               secrets: seq<Scalar>) returns (tape: nat -> Scalar)
    requires 1 <= |indices| == |secrets| < t && Distinct(indices)
    requires forall k :: 0 <= k < |indices| ==> 1 <= indices[k] <= n
    ensures var r := RotateStep(KeysOn(f, n), ZeroPolys(tape, start, t, n));
            r.Ok? && |r.value| == n && forall k :: 0 <= k < |indices| ==> r.value[indices[k] - 1].secret == secrets[k]
  {
    hide Reduce, Eval, AddPoly, RotateStep, Through;
    var values := seq(|indices|, k requires 0 <= k < |indices| => secrets[k] - Eval(f, indices[k]));
    var z := Through(indices, values, t);
    ThroughMeets(indices, values, t, 0);
    tape := EveryMoveIsDrawn(f, z, n, start);
    forall k | 0 <= k < |indices|
      ensures Reduce(Eval(AddPoly(f, z), indices[k])) == secrets[k]
    {
      ThroughMeets(indices, values, t, k);
      EvalAddPoly(f, z, indices[k]);
      CongAdd(Eval(f, indices[k]), Eval(f, indices[k]), Eval(z, indices[k]), values[k]);
    }
  }
}

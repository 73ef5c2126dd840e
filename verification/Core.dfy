/** The shared types (crates/core/src/types.rs, error.rs, scalar_ext.rs): bytes, points, key shares, errors and
    the random number generator. */
module Core {
  import opened Scalars
  import opened Sums

  type byte = b: int | 0 <= b < 0x100

  type Bytes = seq<byte>

  /** A Rust string as its UTF-8 bytes. The model uses one fact about UTF-8: byte 0xFF never occurs. */
  type Str = s: Bytes | 0xFF !in s

  type u64 = x: int | 0 <= x < 0x1_0000_0000_0000_0000

  datatype Option<+T> = None | Some(value: T)

  datatype Error =
    | InvalidThreshold(t: u32, n: u32)
    | InvalidShare(index: u32)
    | InvalidSignature
    | InsufficientShares(have: nat, need: nat)
    | ProgramError(message: Str)
    | ProgramFrozen(cid: Str)
    | Panic // an `unwrap` on nothing, or an index out of range

  datatype Result<+T> = Ok(value: T) | Err(error: Error)

  /** `to_le_bytes` of an integer of n bytes. */
  function LittleEndian(x: nat, n: nat): (b: Bytes)
    ensures |b| == n
  {
    if n == 0 then [] else [x % 0x100] + LittleEndian(x / 0x100, n - 1)
  }

  function FromLittleEndian(b: Bytes): nat {
    if b == [] then 0 else b[0] + 0x100 * FromLittleEndian(b[1..])
  }

  function Power256(n: nat): nat {
    if n == 0 then 1 else 0x100 * Power256(n - 1)
  }

  lemma {:induction false} LittleEndianRoundTrip(x: nat, n: nat)
    requires x < Power256(n)
    ensures FromLittleEndian(LittleEndian(x, n)) == x
  {
    if n == 0 {
    } else {
      LittleEndianRoundTrip(x / 0x100, n - 1);
      assert LittleEndian(x, n)[1..] == LittleEndian(x / 0x100, n - 1);
    }
  }

  // Points of the prime-order subgroup, each given by its discrete logarithm to the base point G.

  datatype Point = Point(log: Scalar)

  const G := Point(1)

  const IDENTITY := Point(0)

  function AddPoints(p: Point, q: Point): Point {
    Point(Add(p.log, q.log))
  }

  function Times(p: Point, k: Scalar): Point {
    Point(Mul(p.log, k))
  }

  lemma {:induction false} TimesG(k: Scalar)
    ensures Times(G, k) == Point(k)
  {
  }

  function SumPoints(ps: seq<Point>): Point {
    if ps == [] then IDENTITY else AddPoints(ps[0], SumPoints(ps[1..]))
  }

  function Logs(ps: seq<Point>): (s: seq<Scalar>)
    ensures |s| == |ps|
  {
    seq(|ps|, k requires 0 <= k < |ps| => ps[k].log)
  }

  lemma {:induction false} SumPointsLog(ps: seq<Point>)
    ensures SumPoints(ps).log == Reduce(Sum(Logs(ps)))
  {
    hide Reduce;
    if ps == [] {
    } else {
      SumPointsLog(ps[1..]);
      assert Logs(ps)[1..] == Logs(ps[1..]);
      CongAdd(ps[0].log, ps[0].log, SumPoints(ps[1..]).log, Sum(Logs(ps[1..])));
    }
  }

  datatype ThresholdConfig = ThresholdConfig(threshold: u32, total: u32) {
    static function New(threshold: u32, total: u32): (r: Result<ThresholdConfig>)
      ensures r.Ok? <==> 1 <= threshold <= total
      ensures r.Ok? ==> r.value.threshold == threshold && r.value.total == total
      ensures r.Err? ==> r.error == InvalidThreshold(threshold, total)
    {
      if threshold == 0 || threshold > total then Err(InvalidThreshold(threshold, total))
      else Ok(ThresholdConfig(threshold, total))
    }
  }

  datatype KeyShare = KeyShare(
    index: u32,
    secret: Scalar,
    groupPublicKey: Point,
    verificationShares: seq<(u32, Point)>)

  /** A random number generator: an arbitrary tape of scalars and how many have been drawn. */
  class Rng {
    const tape: nat -> Scalar
    var drawn: nat

    constructor (tape: nat -> Scalar)
      ensures this.tape == tape && drawn == 0
    {
      this.tape := tape;
      drawn := 0;
    }

    method RandomScalar() returns (s: Scalar)
      modifies this
      ensures s == tape(old(drawn)) && drawn == old(drawn) + 1
    {
      s := tape(drawn);
      drawn := drawn + 1;
    }
  }

  function Draws(tape: nat -> Scalar, start: nat, n: nat): (s: seq<Scalar>)
    ensures |s| == n
  {
    seq(n, k requires 0 <= k < n => tape(start + k))
  }
}

/** The base fee of EIP-1559 (header.ts `calcNextBaseFee`) over chains of blocks. */
module BaseFees {

  const ELASTICITY := 2
  const MAX_CHANGE_DENOMINATOR := 8

  function Max(a: int, b: int): int {
    if a > b then a else b
  }

  function GasTarget(gasLimit: nat): nat {
    gasLimit / ELASTICITY
  }

  /** The change in fee for a deviation from the gas target. */
  function Delta(baseFee: nat, deviation: nat, target: nat): nat
    requires target > 0
  {
    baseFee * deviation / target / MAX_CHANGE_DENOMINATOR
  }

  /** The base fee of the block after one with this fee, gas used and gas limit. */
  function NextBaseFee(baseFee: nat, gasUsed: nat, gasLimit: nat): nat
    requires GasTarget(gasLimit) > 0
  {
    var target := GasTarget(gasLimit);
    if target == gasUsed then baseFee
    else if gasUsed > target then Max(Delta(baseFee, gasUsed - target, target), 1) + baseFee
    else Max(baseFee - Delta(baseFee, target - gasUsed, target), 0)
  }

  lemma MulMono(f: nat, a: nat, b: nat)
    requires a <= b
    ensures f * a <= f * b
  {}

  lemma DivMono(a: nat, b: nat, d: nat)
    requires a <= b && d > 0
    ensures a / d <= b / d
  {
    var p, q := a / d, b / d;
    assert a == d * p + a % d && b == d * q + b % d;
    if q < p { MulMono(d, q + 1, p); }
  }

  lemma Quotient(x: nat, t: nat, q: nat)
    requires t > 0 && x == t * q
    ensures x / t == q
  {
    var p, r := x / t, x % t;
    assert x == t * p + r;
    if p < q { MulMono(t, p + 1, q); }
    if p > q { MulMono(t, q + 1, p); }
  }

  lemma DeltaMono(f: nat, a: nat, b: nat, t: nat)
    requires t > 0 && a <= b
    ensures Delta(f, a, t) <= Delta(f, b, t)
  {
    MulMono(f, a, b);
    DivMono(f * a, f * b, t);
    DivMono(f * a / t, f * b / t, MAX_CHANGE_DENOMINATOR);
  }

  lemma DeltaBound(f: nat, d: nat, t: nat)
    requires t > 0 && d <= t
    ensures Delta(f, d, t) <= f / MAX_CHANGE_DENOMINATOR
    ensures d == t ==> Delta(f, d, t) == f / MAX_CHANGE_DENOMINATOR
  {
    Quotient(f * t, t, f);
    DeltaMono(f, d, t, t);
  }

  /** Dividing by t and then by eight is rounding down once. */
  lemma TwiceDivided(x: nat, t: nat)
    requires t > 0
    ensures 8 * t * (x / t / 8) <= x < 8 * t * (x / t / 8 + 1)
  {
    var p := x / t;
    var d := p / 8;
    var s := p % 8;
    assert x == t * p + x % t && p == 8 * d + s;
    assert t * p == 8 * t * d + t * s by { Spread(t, d, s); }
    MulMono(t, s, 7);
    assert 8 * t * (d + 1) == 8 * t * d + 8 * t by { Spread(t, d, 8); }
  }

  lemma Spread(t: nat, d: nat, s: nat)
    ensures t * (8 * d + s) == 8 * t * d + t * s && 8 * t * (d + 1) == 8 * t * d + 8 * t
  {}

  /** The exact step, with the target t of half the gas limit: below it the fee drops by an eighth of its share
      of the deviation, rounded down; above it the fee rises by the same d, but by at least one. */
  lemma StepExact(baseFee: nat, gasUsed: nat, gasLimit: nat, t: nat) returns (d: nat)
    requires t > 0 && 2 * t <= gasLimit < 2 * t + 2
    ensures var next := NextBaseFee(baseFee, gasUsed, gasLimit);
      var deviation := if gasUsed < t then t - gasUsed else gasUsed - t;
      && 8 * t * d <= baseFee * deviation < 8 * t * (d + 1)
      && (gasUsed < t ==> next == baseFee - d)
      && (gasUsed == t ==> next == baseFee)
      && (gasUsed > t ==> next == baseFee + if d > 1 then d else 1)
  {
    hide Delta;
    var deviation := if gasUsed < t then t - gasUsed else gasUsed - t;
    assert GasTarget(gasLimit) == t;
    d := Delta(baseFee, deviation, t);
    DeltaExact(baseFee, deviation, t);
    if gasUsed < t { DeltaBound(baseFee, deviation, t); }
  }

  lemma DeltaExact(f: nat, deviation: nat, t: nat)
    requires t > 0
    ensures 8 * t * Delta(f, deviation, t) <= f * deviation < 8 * t * (Delta(f, deviation, t) + 1)
  {
    TwiceDivided(f * deviation, t);
  }

  /** Base fee 10^9 and gas limit 2 * 10^7, with 9 * 10^6 and with 11 * 10^6 gas used. */
  lemma StepSample()
    ensures NextBaseFee(1000000000, 9000000, 20000000) == 987500000
    ensures NextBaseFee(1000000000, 11000000, 20000000) == 1012500000
  {}

  /** One step moves the fee by at most an eighth, and up by at least one. */
  lemma StepBounds(baseFee: nat, gasUsed: nat, gasLimit: nat)
    requires GasTarget(gasLimit) > 0 && gasUsed <= 2 * GasTarget(gasLimit)
    ensures var next := NextBaseFee(baseFee, gasUsed, gasLimit);
      && baseFee - baseFee / 8 <= next <= baseFee + Max(1, baseFee / 8)
      && (gasUsed > GasTarget(gasLimit) ==> next > baseFee)
      && (gasUsed == GasTarget(gasLimit) ==> next == baseFee)
      && (gasUsed < GasTarget(gasLimit) ==> next <= baseFee)
  {
    hide Delta;
    var t := GasTarget(gasLimit);
    DeltaBound(baseFee, if gasUsed > t then gasUsed - t else t - gasUsed, t);
  }

  /** More gas used never gives a lower fee. */
  lemma StepMonotone(baseFee: nat, less: nat, more: nat, gasLimit: nat)
    requires GasTarget(gasLimit) > 0 && less <= more
    ensures NextBaseFee(baseFee, less, gasLimit) <= NextBaseFee(baseFee, more, gasLimit)
  {
    hide Delta;
    var t := GasTarget(gasLimit);
    if more < t {
      DeltaMono(baseFee, t - more, t - less, t);
    } else if t < less {
      DeltaMono(baseFee, less - t, more - t, t);
    }
  }

  // ---------- over a chain ----------

  /** What a block contributes to the fee of the next. */
  datatype Usage = Usage(gasUsed: nat, gasLimit: nat)

  ghost predicate Regular(u: Usage) {
    GasTarget(u.gasLimit) > 0 && u.gasUsed <= 2 * GasTarget(u.gasLimit)
  }

  ghost predicate AllRegular(blocks: seq<Usage>) {
    forall i :: 0 <= i < |blocks| ==> Regular(blocks[i])
  }

  function FeeAfter(baseFee: nat, blocks: seq<Usage>): nat
    requires AllRegular(blocks)
    decreases |blocks|
  {
    if blocks == [] then baseFee
    else
      assert Regular(blocks[0]) && forall i :: 0 <= i < |blocks| - 1 ==> blocks[1..][i] == blocks[i + 1];
      FeeAfter(NextBaseFee(baseFee, blocks[0].gasUsed, blocks[0].gasLimit), blocks[1..])
  }

  /** From a fee of at least 7, the fee never drops below 7, whatever the blocks use. */
  lemma {:induction false} NeverBelowSeven(baseFee: nat, blocks: seq<Usage>)
    requires AllRegular(blocks) && baseFee >= 7
    ensures FeeAfter(baseFee, blocks) >= 7
    decreases |blocks|
  {
    if blocks != [] {
      assert Regular(blocks[0]);
      StepBounds(baseFee, blocks[0].gasUsed, blocks[0].gasLimit);
      NeverBelowSeven(NextBaseFee(baseFee, blocks[0].gasUsed, blocks[0].gasLimit), blocks[1..]);
    }
  }

  /** Empty blocks bring the fee down to exactly 7, where it stays. */
  lemma {:induction false} EmptyBlocksReachSeven(baseFee: nat, blocks: seq<Usage>)
    requires AllRegular(blocks) && baseFee >= 7
    requires forall i :: 0 <= i < |blocks| ==> blocks[i].gasUsed == 0
    ensures |blocks| >= baseFee - 7 ==> FeeAfter(baseFee, blocks) == 7
    decreases |blocks|
  {
    hide Delta;
    if blocks != [] {
      assert Regular(blocks[0]);
      var t := GasTarget(blocks[0].gasLimit);
      DeltaBound(baseFee, t, t);
      EmptyBlocksReachSeven(NextBaseFee(baseFee, 0, blocks[0].gasLimit), blocks[1..]);
    }
  }

  /** Without a floor, seven is no stronger than any smaller fee: empty blocks keep those too. */
  lemma SmallFeesStay(baseFee: nat, gasLimit: nat)
    requires GasTarget(gasLimit) > 0
    ensures NextBaseFee(baseFee, 0, gasLimit) == baseFee <==> baseFee <= 7
  {
    hide Delta;
    DeltaBound(baseFee, GasTarget(gasLimit), GasTarget(gasLimit));
  }
}

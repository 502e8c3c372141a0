/**
 * `LunarConsensus`: the validator registry, the phase clock with its seed,
 * and the stake-and-phase-weighted leader selection.
 */
module Consensus {
  import opened Words
  import opened LunarModule

  datatype ConsensusError = InsufficientStake | InvalidValidator | ConsensusFailure

  /** An exact non-negative rational `num / den`, standing for the `f64` phase weight. */
  datatype Ratio = Ratio(num: nat, den: nat)

  /**
   * `calculate_phase_weight`: 2 at the new moon, 1 at the full moon, 3/2 in
   * every other phase. The weight is never below 1, never above the
   * new-moon weight, and is 1 exactly at the full moon.
   */
  function PhaseWeight(phase: LunarPhase): (w: Ratio)
    ensures 0 < w.den <= w.num <= 2 * w.den
    ensures w.num == w.den <==> phase == FullMoon
    ensures w.num == 2 * w.den <==> phase == NewMoon
    ensures phase != NewMoon && phase != FullMoon ==> 2 * w.num == 3 * w.den
  {
    match phase
    case NewMoon => Ratio(2, 1)
    case FullMoon => Ratio(1, 1)
    case _ => Ratio(3, 2)
  }

  /**
   * `calculate_weighted_stake`: a stake below twice the minimum is scaled up
   * by the weight, any other stake is scaled down by it, and the product is
   * truncated to a whole number.
   */
  function WeightedStake(stake: nat, minimumStake: nat, w: Ratio): (r: nat)
    requires 0 < w.den <= w.num
    ensures stake < 2 * minimumStake ==> r * w.den <= stake * w.num < (r + 1) * w.den
    ensures stake >= 2 * minimumStake ==> r * w.num <= stake * w.den < (r + 1) * w.num
    ensures stake < 2 * minimumStake ==> stake <= r
    ensures stake >= 2 * minimumStake ==> r <= stake
    ensures w.num == w.den ==> r == stake
  {
    if stake < 2 * minimumStake then Scale(stake, w.num, w.den) else Scale(stake, w.den, w.num)
  }

  /** `x * a / b` truncated, as the cast `(x as f64 * (a / b)) as u64` does for exact arithmetic. */
  function Scale(x: nat, a: nat, b: nat): (q: nat)
    requires b > 0
    ensures q * b <= x * a < (q + 1) * b
    ensures a >= b ==> x <= q
    ensures a <= b ==> q <= x
  {
    var q := x * a / b;
    assert q * b + x * a % b == x * a;
    MulMonotone(b, a, x);
    MulMonotone(a, b, x);
    MulMonotone(q + 1, x, b);
    MulMonotone(x + 1, q, b);
    q
  }

  /** Multiplication by a natural number preserves order. */
  lemma MulMonotone(u: nat, v: nat, c: nat)
    ensures u <= v ==> u * c <= v * c
  {
  }

  /** `order` lists the keys in `keys`, each exactly once: one possible HashMap iteration order. */
  ghost predicate IsEnumeration(order: seq<Bytes32>, keys: set<Bytes32>) {
    && (forall i, j :: 0 <= i < j < |order| ==> order[i] != order[j])
    && (forall k :: k in order <==> k in keys)
  }

  /** Weighted stake of the validator registered under `k`. */
  function WeightOf(vals: map<Bytes32, Validator>, k: Bytes32, minimumStake: nat, w: Ratio): nat
    requires k in vals && 0 < w.den <= w.num
  {
    WeightedStake(vals[k].stake, minimumStake, w)
  }

  /** Sum of the weighted stakes of the validators listed in `keys`, in that order. */
  function PrefixWeight(vals: map<Bytes32, Validator>, keys: seq<Bytes32>, minimumStake: nat, w: Ratio): nat
    requires forall k :: k in keys ==> k in vals
    requires 0 < w.den <= w.num
  {
    if keys == [] then 0
    else PrefixWeight(vals, keys[..|keys| - 1], minimumStake, w) + WeightOf(vals, keys[|keys| - 1], minimumStake, w)
  }

  /** Sum of the weighted stakes of the validators registered under a set of keys, in no order. */
  ghost function TotalOf(vals: map<Bytes32, Validator>, keys: set<Bytes32>, minimumStake: nat, w: Ratio): nat
    requires keys <= vals.Keys
    requires 0 < w.den <= w.num
    decreases |keys|
  {
    if keys == {} then 0
    else
      var k :| k in keys;
      WeightOf(vals, k, minimumStake, w) + TotalOf(vals, keys - {k}, minimumStake, w)
  }

  /** Any key can be taken out of the unordered sum first. */
  lemma {:induction false} TotalOfRemove(vals: map<Bytes32, Validator>, keys: set<Bytes32>, x: Bytes32, minimumStake: nat, w: Ratio)
    requires keys <= vals.Keys && x in keys
    requires 0 < w.den <= w.num
    ensures TotalOf(vals, keys, minimumStake, w)
         == WeightOf(vals, x, minimumStake, w) + TotalOf(vals, keys - {x}, minimumStake, w)
    decreases |keys|
  {
    var k :| k in keys && TotalOf(vals, keys, minimumStake, w)
                        == WeightOf(vals, k, minimumStake, w) + TotalOf(vals, keys - {k}, minimumStake, w);
    if k != x {
      TotalOfRemove(vals, keys - {k}, x, minimumStake, w);
      TotalOfRemove(vals, keys - {x}, k, minimumStake, w);
      assert keys - {k} - {x} == keys - {x} - {k};
    }
  }

  /** Summing along any enumeration of the keys gives the unordered sum: the total does not depend on the order. */
  lemma {:induction false} EnumerationTotal(vals: map<Bytes32, Validator>, order: seq<Bytes32>, keys: set<Bytes32>, minimumStake: nat, w: Ratio)
    requires keys <= vals.Keys && IsEnumeration(order, keys)
    requires 0 < w.den <= w.num
    ensures PrefixWeight(vals, order, minimumStake, w) == TotalOf(vals, keys, minimumStake, w)
    decreases |order|
  {
    if order == [] {
      assert forall k :: k !in keys;
    } else {
      var n := |order| - 1;
      var last := order[n];
      var rest := order[..n];
      forall k | k in rest ensures k in keys - {last} {
        var i :| 0 <= i < n && rest[i] == k;
        assert order[i] == k;
      }
      forall k | k in keys - {last} ensures k in rest {
        assert k in order;
        var i :| 0 <= i < |order| && order[i] == k;
        assert rest[i] == k;
      }
      assert IsEnumeration(rest, keys - {last});
      EnumerationTotal(vals, rest, keys - {last}, minimumStake, w);
      TotalOfRemove(vals, keys, last, minimumStake, w);
    }
  }

  /** Extending a listing by one key adds that validator's weighted stake. */
  lemma PrefixWeightStep(vals: map<Bytes32, Validator>, keys: seq<Bytes32>, i: nat, minimumStake: nat, w: Ratio)
    requires forall k :: k in keys ==> k in vals
    requires 0 < w.den <= w.num
    requires i < |keys|
    ensures PrefixWeight(vals, keys[..i + 1], minimumStake, w)
         == PrefixWeight(vals, keys[..i], minimumStake, w) + WeightOf(vals, keys[i], minimumStake, w)
  {
    assert keys[..i + 1][..i] == keys[..i];
  }

  /** Prefix sums never decrease along a listing. */
  lemma {:induction false} PrefixWeightMonotone(vals: map<Bytes32, Validator>, keys: seq<Bytes32>, i: nat, j: nat, minimumStake: nat, w: Ratio)
    requires forall k :: k in keys ==> k in vals
    requires 0 < w.den <= w.num
    requires i <= j <= |keys|
    ensures PrefixWeight(vals, keys[..i], minimumStake, w) <= PrefixWeight(vals, keys[..j], minimumStake, w)
    decreases j - i
  {
    if i < j {
      PrefixWeightStep(vals, keys, j - 1, minimumStake, w);
      PrefixWeightMonotone(vals, keys, i, j - 1, minimumStake, w);
    }
  }

  /**
   * For a fixed listing and draw there is at most one position whose
   * weight interval contains the draw: the leader is determined by the
   * listing, the stakes, the phase and the draw.
   */
  lemma LeaderPositionUnique(vals: map<Bytes32, Validator>, keys: seq<Bytes32>, draw: nat, i: nat, j: nat, minimumStake: nat, w: Ratio)
    requires forall k :: k in keys ==> k in vals
    requires 0 < w.den <= w.num
    requires i < |keys| && j < |keys|
    requires PrefixWeight(vals, keys[..i], minimumStake, w) <= draw < PrefixWeight(vals, keys[..i + 1], minimumStake, w)
    requires PrefixWeight(vals, keys[..j], minimumStake, w) <= draw < PrefixWeight(vals, keys[..j + 1], minimumStake, w)
    ensures i == j
  {
    if i < j {
      PrefixWeightMonotone(vals, keys, i + 1, j, minimumStake, w);
    } else if j < i {
      PrefixWeightMonotone(vals, keys, j + 1, i, minimumStake, w);
    }
  }

  class LunarConsensus {
    var validators: map<Bytes32, Validator>
    var currentPhase: LunarPhase
    var vrfSeed: Bytes32
    const minimumStake: U64

    /** Every registered validator is filed under its own key and meets the minimum stake. */
    ghost predicate Valid()
      reads this
    {
      forall k :: k in validators ==> validators[k].publicKey == k && validators[k].stake >= minimumStake
    }

    /** Total weighted stake of the registry in the current phase, independent of any order. */
    ghost function TotalWeightedStake(): nat
      reads this
    {
      TotalOf(validators, validators.Keys, minimumStake, PhaseWeight(currentPhase))
    }

    /** `LunarConsensus::new`: empty registry, new moon, all-zero seed. */
    constructor (minimumStake: U64)
      ensures Valid()
      ensures validators == map[] && currentPhase == NewMoon
      ensures vrfSeed == seq(32, _ => 0) && this.minimumStake == minimumStake
    {
      validators := map[];
      currentPhase := NewMoon;
      vrfSeed := seq(32, _ => 0);
      this.minimumStake := minimumStake;
    }

    /**
     * `register_validator`: rejects a stake below the minimum and leaves the
     * registry alone; otherwise files the validator under its key,
     * replacing any earlier record with that key.
     */
    method RegisterValidator(validator: Validator) returns (r: Outcome<ConsensusError>)
      requires Valid()
      modifies this`validators
      ensures Valid()
      ensures r == Fail(InsufficientStake) <==> validator.GetStake() < minimumStake
      ensures r.Fail? ==> r == Fail(InsufficientStake) && validators == old(validators)
      ensures r.Pass? ==> validators == old(validators)[validator.GetPublicKey() := validator]
    {
      if validator.GetStake() < minimumStake {
        return Fail(InsufficientStake);
      }
      validators := validators[validator.GetPublicKey() := validator];
      r := Pass;
    }

    /**
     * `update_phase`: the phase follows the block number; the seed is
     * replaced by `entropy` (the fresh random bytes) only at the start of
     * an 8-block cycle.
     */
    method UpdatePhase(blockNumber: U64, entropy: Bytes32)
      requires Valid()
      modifies this`currentPhase, this`vrfSeed
      ensures Valid()
      ensures currentPhase == FromBlockNumber(blockNumber)
      ensures blockNumber % 8 == 0 ==> vrfSeed == entropy
      ensures blockNumber % 8 != 0 ==> vrfSeed == old(vrfSeed)
    {
      currentPhase := FromBlockNumber(blockNumber);
      if blockNumber % 8 == 0 {
        vrfSeed := entropy;
      }
    }

    /**
     * `select_validator`, for the HashMap iteration order `order` and the
     * pseudorandom draw `randomValue`: walks the validators accumulating
     * weighted stake and returns the first one whose running total exceeds
     * the draw. There is no leader exactly when the draw reaches the total
     * weighted stake, whatever the order; a leader is registered, has
     * positive weight, and is the validator whose weight interval along
     * `order` contains the draw.
     */
    method SelectValidator(order: seq<Bytes32>, randomValue: U64) returns (leader: Option<Validator>)
      requires Valid()
      requires IsEnumeration(order, validators.Keys)
      requires validators != map[] ==> 2 * minimumStake <= MAX_U64
      requires TotalWeightedStake() <= MAX_U64
      ensures leader.None? <==> randomValue >= TotalWeightedStake()
      ensures validators == map[] ==> leader.None?
      ensures leader.Some? ==> leader.value.publicKey in validators && validators[leader.value.publicKey] == leader.value
      ensures leader.Some? ==> WeightedStake(leader.value.stake, minimumStake, PhaseWeight(currentPhase)) > 0
      ensures leader.Some? ==>
                (exists i :: 0 <= i < |order| && validators[order[i]] == leader.value &&
                   PrefixWeight(validators, order[..i], minimumStake, PhaseWeight(currentPhase)) <= randomValue &&
                   randomValue < PrefixWeight(validators, order[..i + 1], minimumStake, PhaseWeight(currentPhase)))
    {
      var phaseWeight := PhaseWeight(currentPhase);
      assert order[..|order|] == order;
      EnumerationTotal(validators, order, validators.Keys, minimumStake, phaseWeight);

      var totalWeightedStake: U64 := 0;
      for i := 0 to |order|
        invariant totalWeightedStake == PrefixWeight(validators, order[..i], minimumStake, phaseWeight)
      {
        PrefixWeightStep(validators, order, i, minimumStake, phaseWeight);
        PrefixWeightMonotone(validators, order, i + 1, |order|, minimumStake, phaseWeight);
        totalWeightedStake := totalWeightedStake + WeightedStake(validators[order[i]].GetStake(), minimumStake, phaseWeight);
      }

      var accumulator: U64 := 0;
      for i := 0 to |order|
        invariant accumulator == PrefixWeight(validators, order[..i], minimumStake, phaseWeight)
        invariant accumulator <= randomValue
      {
        PrefixWeightStep(validators, order, i, minimumStake, phaseWeight);
        PrefixWeightMonotone(validators, order, i + 1, |order|, minimumStake, phaseWeight);
        accumulator := accumulator + WeightedStake(validators[order[i]].GetStake(), minimumStake, phaseWeight);
        if randomValue < accumulator {
          assert validators[order[i]].publicKey == order[i];
          return Some(validators[order[i]]);
        }
      }
      if order != [] {
        assert order[0] in validators;
      }
      return None;
    }
  }
}

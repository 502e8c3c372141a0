/**
 * Concrete runs of the lunar consensus state: registration against the
 * minimum stake, the phase and seed updates, and leader selection on an
 * empty and on a one-validator registry.
 */
module ConsensusScenarios {
  import opened Words
  import opened LunarModule
  import opened Consensus

  /** With a minimum of 500, a stake of 1000 is registered and a stake of 100 is refused. */
  method RegistrationScenario() returns (c: LunarConsensus, r1: Outcome<ConsensusError>, r2: Outcome<ConsensusError>)
    ensures fresh(c) && c.Valid()
    ensures r1 == Pass && r2 == Fail(InsufficientStake)
    ensures c.validators == map[Filled(1) := NewValidator(1000, Filled(1))]
  {
    c := new LunarConsensus(500);
    r1 := c.RegisterValidator(NewValidator(1000, Filled(1)));
    r2 := c.RegisterValidator(NewValidator(100, Filled(2)));
  }

  /**
   * Block 0 starts a cycle: new moon, seed replaced. Block 4 is full moon
   * and keeps the seed. The phase weights are then 2 and 1.
   */
  method PhaseScenario(first: Bytes32, second: Bytes32) returns (c: LunarConsensus)
    ensures fresh(c) && c.Valid()
    ensures c.currentPhase == FullMoon && c.vrfSeed == first
    ensures PhaseWeight(NewMoon) == Ratio(2, 1) && PhaseWeight(c.currentPhase) == Ratio(1, 1)
  {
    c := new LunarConsensus(500);
    c.UpdatePhase(0, first);
    assert c.currentPhase == NewMoon && c.vrfSeed == first;
    c.UpdatePhase(4, second);
  }

  /** An empty registry has no leader, whatever the draw. */
  method EmptyRegistryScenario(randomValue: U64) returns (leader: Option<Validator>)
    ensures leader == None
  {
    var c := new LunarConsensus(500);
    assert IsEnumeration([], c.validators.Keys);
    EnumerationTotal(c.validators, [], c.validators.Keys, c.minimumStake, PhaseWeight(c.currentPhase));
    leader := c.SelectValidator([], randomValue);
  }

  /**
   * One validator of stake 1000 against a minimum of 500, at new moon: the
   * stake is at least twice the minimum, so its weight is 1000 / 2 = 500,
   * and it leads exactly for the draws below 500.
   */
  method SingleValidatorScenario(randomValue: U64) returns (leader: Option<Validator>)
    ensures randomValue < 500 ==> leader == Some(NewValidator(1000, Filled(1)))
    ensures randomValue >= 500 ==> leader == None
  {
    var c := new LunarConsensus(500);
    var v := NewValidator(1000, Filled(1));
    var r := c.RegisterValidator(v);
    assert c.validators == map[Filled(1) := v];
    var w := PhaseWeight(c.currentPhase);
    assert WeightedStake(1000, 500, w) == 500;
    assert PrefixWeight(c.validators, [Filled(1)], 500, w) == 500 by {
      assert [Filled(1)][..0] == [];
    }
    assert IsEnumeration([Filled(1)], c.validators.Keys);
    EnumerationTotal(c.validators, [Filled(1)], c.validators.Keys, c.minimumStake, w);
    leader := c.SelectValidator([Filled(1)], randomValue);
  }
}

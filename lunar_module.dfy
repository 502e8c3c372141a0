/** The eight lunar phases, the block-number-to-phase mapping and the validator record. */
module LunarModule {
  import opened Words

  datatype LunarPhase =
    | NewMoon
    | WaxingCrescent
    | FirstQuarter
    | WaxingGibbous
    | FullMoon
    | WaningGibbous
    | LastQuarter
    | WaningCrescent

  /** Position of a phase in the declaration order of the enum, 0 to 7. */
  function PhaseIndex(p: LunarPhase): (k: nat)
    ensures k < 8
  {
    match p
    case NewMoon => 0
    case WaxingCrescent => 1
    case FirstQuarter => 2
    case WaxingGibbous => 3
    case FullMoon => 4
    case WaningGibbous => 5
    case LastQuarter => 6
    case WaningCrescent => 7
  }

  /** `LunarPhase::from_block_number`: the phase whose index is the block number modulo 8. */
  function FromBlockNumber(blockNumber: U64): (p: LunarPhase)
    ensures PhaseIndex(p) == blockNumber % 8
  {
    match blockNumber % 8
    case 0 => NewMoon
    case 1 => WaxingCrescent
    case 2 => FirstQuarter
    case 3 => WaxingGibbous
    case 4 => FullMoon
    case 5 => WaningGibbous
    case 6 => LastQuarter
    case _ => WaningCrescent
  }

  /**
   * `LunarModule::calculate_lunar_phase`: the same mapping written with an
   * explicit arm for 7 and an `unreachable!()` default arm, which the
   * `assert false` shows is never taken.
   */
  function CalculateLunarPhase(blockNumber: U64): (p: LunarPhase)
    ensures p == FromBlockNumber(blockNumber)
  {
    match blockNumber % 8
    case 0 => NewMoon
    case 1 => WaxingCrescent
    case 2 => FirstQuarter
    case 3 => WaxingGibbous
    case 4 => FullMoon
    case 5 => WaningGibbous
    case 6 => LastQuarter
    case 7 => WaningCrescent
    case _ => assert false; NewMoon
  }

  /** Two phases with the same index are the same phase. */
  lemma PhaseIndexInjective(p: LunarPhase, q: LunarPhase)
    requires PhaseIndex(p) == PhaseIndex(q)
    ensures p == q
  {
  }

  /** Every phase is reached, by exactly the block numbers congruent to its index. */
  lemma FromBlockNumberExactly(blockNumber: U64, p: LunarPhase)
    ensures FromBlockNumber(blockNumber) == p <==> blockNumber % 8 == PhaseIndex(p)
  {
    if blockNumber % 8 == PhaseIndex(p) {
      PhaseIndexInjective(FromBlockNumber(blockNumber), p);
    }
  }

  /** The phase depends on the block number only through its residue modulo 8. */
  lemma FromBlockNumberPeriodic(blockNumber: U64)
    requires blockNumber + 8 <= MAX_U64
    ensures FromBlockNumber(blockNumber + 8) == FromBlockNumber(blockNumber)
  {
    PhaseIndexInjective(FromBlockNumber(blockNumber + 8), FromBlockNumber(blockNumber));
  }

  /** Block 0 opens a cycle at the new moon; block 4 is the full moon. */
  lemma NewAndFullMoonBlocks()
    ensures FromBlockNumber(0) == NewMoon
    ensures FromBlockNumber(4) == FullMoon
    ensures FromBlockNumber(8) == NewMoon
  {
  }

  /** `Validator`: a public key and the stake it has put up. */
  datatype Validator = Validator(publicKey: Bytes32, stake: U64)
  {
    /** `Validator::get_stake`. */
    function GetStake(): U64 { stake }

    /** `Validator::get_public_key`. */
    function GetPublicKey(): Bytes32 { publicKey }
  }

  /** `Validator::new`: the record reads back the stake and key it was built from. */
  function NewValidator(stake: U64, publicKey: Bytes32): (v: Validator)
    ensures v.GetStake() == stake && v.GetPublicKey() == publicKey
  {
    Validator(publicKey, stake)
  }
}

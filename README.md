# CoMoona core in Dafny

CoMoona is a small proof-of-stake blockchain prototype with a lunar theme.
This project models its three pieces of sequential logic and proves
properties of them.

- **The transaction pool** (`Mempool`, transaction_pool.dfy) is a bounded
  pool of pending transactions. It has three collections: `pending` (id to
  transaction), `orderedByFee` (the ids in ascending fee order) and
  `processed` (ids that may never be admitted again).
  - `add_transaction` runs four steps. It rejects a processed id. It
    compares a full pool's cheapest fee with the new fee. It evicts the
    cheapest entry when the new fee is higher. It inserts the new
    transaction at a binary-searched slot.
  - `remove_transaction` marks an id as processed unconditionally.
  - `get_best_transactions` reads from the high-fee end of the ordering.

  The pool is a class. Its `Valid()` invariant says four things: every
  transaction is filed under its own id; the ordering lists each pending id
  once, sorted by fee; no processed id is pending; the size stays within
  capacity. The value-level functions `Removed`, `Evicted`, `Inserted` and
  `TopPending` specify what the methods do, and lemmas about them carry the
  invariant.
- **The consensus state** (`Consensus`, consensus.dfy) holds three things:
  - a validator registry with a minimum stake (last write wins per public
    key);
  - the current lunar phase and its seed, renewed every 8 blocks;
  - leader selection. It sums the phase-weighted stakes, then walks the
    validators again until the running sum passes a pseudorandom draw.
- **The phase mapping and the validator record** (`LunarModule`,
  lunar_module.dfy). Both block-number-to-phase functions map the block
  number modulo 8 onto the eight phases. `Validator` is a public key and a
  stake.

`Words` (words.dfy) holds the `u64` and byte-array types and the
`Option`/`Result` wrappers. `PoolScenarios` and `ConsensusScenarios` work
through concrete runs, using only the operations' contracts. The runs are:
the repository's transaction test program, a pool of capacity 2, a pool of
capacity 0, a re-added pending id, registration, phase updates and leader
selection.

Inputs that the code takes from outside the model are parameters:
- The pseudorandom draw of `select_validator` (SHA-256 of the seed and the
  block number, fed to ChaCha20) is the parameter `randomValue`.
- The iteration order of the validator `HashMap` is the parameter `order`.
  It may be any duplicate-free listing of the registered keys, and every
  property holds for every such order.
- The fresh entropy bytes of `update_phase` are the parameter `entropy`.
- The clock reading of each of the test program's `create_transaction`
  calls is its own parameter (`now1` to `now4`).

Three more modelling choices matter:
- The `f64` phase weights are exact rationals: 2/1 at the new moon, 1/1 at
  the full moon, 3/2 otherwise. The final `as u64` cast is a floor.
- Running sums are unbounded naturals. Where the code could overflow, a
  precondition requires that the values fit in a `u64`.
- Re-adding an id that is still pending is not guarded against in the code.
  The model follows the code, which has three outcomes:
  - The pool is full and the fee is not above the head's: `PoolFull`.
  - The pool is full and the re-added id is itself the head: the id is
    evicted into `processed` and filed again. The ordering holds it once,
    and it is pending and processed at the same time
    (`PoolScenarios.ReAddedHeadScenario`).
  - Otherwise the add succeeds and the id is filed a second time in the
    ordering (`PoolScenarios.PendingIdReAddedScenario`).
  `AddTransaction` promises the invariant only when the id was not already
  pending, and both scenarios end in a state that breaks it.

A pool created with `max_pool_size == 0` admits its first transaction,
because its ordering is still empty when that transaction arrives. After
that it holds exactly one entry, and only a higher fee can replace it. The
model follows the code here (`Capacity`, `ZeroCapacityScenario`).

## Model

| member | source | states |
|---|---|---|
| `LunarModule.FromBlockNumber` | src/lunar_module.rs:18-29 | the phase returned has index `blockNumber % 8` in the order NewMoon, WaxingCrescent, … WaningCrescent |
| `LunarModule.FromBlockNumberExactly` | src/lunar_module.rs:19-28 | every phase `p` is returned for exactly the block numbers whose residue mod 8 is `p`'s index (both directions) |
| `LunarModule.FromBlockNumberPeriodic` | src/lunar_module.rs:19 | blocks `n` and `n + 8` have the same phase |
| `LunarModule.NewAndFullMoonBlocks` | src/lunar_module.rs:20-24 | block 0 is new moon, block 4 full moon, block 8 new moon again |
| `LunarModule.CalculateLunarPhase` | src/lunar_module.rs:126-138 | agrees with `FromBlockNumber` on every block number; its `unreachable!()` arm is proved dead |
| `LunarModule.NewValidator` | src/lunar_module.rs:40-50 | `get_stake` and `get_public_key` of `Validator::new(s, k)` read back `s` and `k` |
| `Consensus.PhaseWeight` | src/consensus.rs:61-67 | the weight lies between 1 and 2; it is 1 exactly at full moon, 2 exactly at new moon, and 3/2 in every other phase |
| `Consensus.WeightedStake` | src/consensus.rs:69-77 | below twice the minimum the result is the floor of stake × weight, otherwise the floor of stake ÷ weight; the first never shrinks the stake, the second never grows it, and weight 1 leaves it unchanged |
| `Consensus.Scale` | src/consensus.rs:76 | the truncating cast: `q` is the floor of `x·a/b`, at least `x` when `a ≥ b` and at most `x` when `a ≤ b` |
| `Consensus.EnumerationTotal` | src/consensus.rs:42-44 | the first loop's total over any iteration order equals the order-free sum over the registered keys |
| `Consensus.PrefixWeightMonotone` | src/consensus.rs:52-53 | the accumulator never decreases along the walk |
| `Consensus.LeaderPositionUnique` | src/consensus.rs:52-57 | for a fixed order and draw, at most one position's weight interval contains the draw, so the leader is determined |
| `Consensus.LunarConsensus.constructor` | src/consensus.rs:20-26 | `new(m)`: empty registry, new moon, all-zero seed, minimum stake `m` |
| `Consensus.LunarConsensus.RegisterValidator` | src/consensus.rs:28-35 | `InsufficientStake` exactly when stake < minimum, with the registry unchanged; otherwise the key maps to the validator and other keys are untouched; every registered stake stays ≥ the minimum |
| `Consensus.LunarConsensus.UpdatePhase` | src/consensus.rs:89-96 | the phase becomes `from_block_number(b)`; the seed becomes the fresh entropy when `b % 8 == 0` and is unchanged otherwise |
| `Consensus.LunarConsensus.SelectValidator` | src/consensus.rs:37-59 | no leader exactly when the draw ≥ the total weighted stake, for every order; none for an empty registry; a leader is registered under its key, has positive weight, and its prefix interval along `order` contains the draw; the state is read-only |
| `Mempool.Capacity` | src/transaction_pool.rs:46-54 | the most entries a valid pool holds: exactly `max_pool_size` when that is at least 1, and 1 for capacity 0 (at least 1 and at least `max_pool_size` in every case) |
| `Mempool.RemoveFirst` | src/transaction_pool.rs:87-89 | deleting the first occurrence shortens the ordering by one when the id occurs, and leaves it unchanged otherwise |
| `Mempool.RemoveFirstAt` | src/transaction_pool.rs:87-89 | deleting the first occurrence found at index `p` is `Vec::remove(p)` |
| `Mempool.Position` | src/transaction_pool.rs:87 | `position(...)` returns `None` exactly when the id is absent, and otherwise the index of its first occurrence |
| `Mempool.Removed` | src/transaction_pool.rs:86-92 | the id is no longer pending and is processed; every other pending entry is kept with its transaction; nothing leaves `processed` |
| `Mempool.RemovedKeepsInvariant` | src/transaction_pool.rs:86-92 | removal keeps the invariant, takes the id out of the ordering entirely, and shrinks `pending` by one exactly when the id was pending |
| `Mempool.Inserted` | src/transaction_pool.rs:57-60 | the new transaction is pending under its id and its id sits at the chosen slot of a one-longer ordering |
| `Mempool.InsertedKeepsInvariant` | src/transaction_pool.rs:57-60 | inserting a fresh id at a fee slot of a pool with room keeps the invariant and adds one entry |
| `Mempool.Evicted` | src/transaction_pool.rs:46-54 | a pool that is not full, or whose ordering is empty, is left as it is; otherwise the head id leaves the pending set, joins `processed`, and every other pending id stays |
| `Mempool.AdmitKeepsInvariant` | src/transaction_pool.rs:46-61 | evicting when full and then inserting a fresh id keeps the invariant; the size is unchanged after an eviction and one larger otherwise |
| `Mempool.FeeSlotUnique` | src/transaction_pool.rs:64-71 | when no pending fee equals the new fee, there is only one fee-ordered slot |
| `Mempool.TopPending` | src/transaction_pool.rs:77-83 | the iterator chain over ids read from the last: no longer than the ids, and made only of pending transactions |
| `Mempool.TopOf` | src/transaction_pool.rs:77-80 | what `get_best_transactions` returns: `TopPending` of the last `min(maxCount, len)` ids, never more than `maxCount` transactions |
| `Mempool.TopPendingAllPending` | src/transaction_pool.rs:81 | when every id is pending, `filter_map` drops nothing: the result is the ids reversed and looked up |
| `Mempool.TopOfAllPending` | src/transaction_pool.rs:77-83 | over a fully pending ordering, the top `maxCount` look-ups are exactly `min(maxCount, len)` long, highest position first |
| `Mempool.BestAreTop` | src/transaction_pool.rs:76-84 | reading a fee-sorted ordering from the top gives non-increasing fees, none below an unread fee |
| `Mempool.SortedBestAreTop` | src/transaction_pool.rs:76-84 | over a valid ordering, the result is the `min(maxCount, len)` highest-fee transactions in non-increasing fee order |
| `Mempool.DistinctListingSize` | src/transaction_pool.rs:17 | a duplicate-free listing of a set is as long as the set is large |
| `Mempool.OrderingSize` | src/transaction_pool.rs:16-17 | in a valid pool the ordering has exactly one entry per pending transaction |
| `Mempool.TakeFromTop` | src/transaction_pool.rs:77-83 | the loop computes `TopPending` of the last `min(maxCount, len)` ids, at most `maxCount` of them |
| `Mempool.TransactionPool.constructor` | src/transaction_pool.rs:31-38 | `new(m)`: empty collections, capacity `m`, invariant established |
| `Mempool.TransactionPool.FindFeePosition` | src/transaction_pool.rs:64-72 | on a fee-sorted ordering the slot is in `[0, len]`, with every fee before it ≤ the new fee and every fee from it on ≥ the new fee |
| `Mempool.TransactionPool.RemoveTransaction` | src/transaction_pool.rs:86-92 | the new state is `Removed(old, id)`, even for an id that was never pending; a valid pool stays valid |
| `Mempool.TransactionPool.AddTransaction` | src/transaction_pool.rs:40-62 | `AlreadyProcessed` exactly for a processed id; `PoolFull` exactly when the pool is full and its cheapest fee is ≥ the new one (so an equal fee is refused); no change on either error; on success the state is the evicted pool with the transaction inserted at a fee slot; `processed` only grows; the invariant and the size rule hold whenever the id was not pending |
| `Mempool.TransactionPool.GetBestTransactions` | src/transaction_pool.rs:76-84 | read-only; the result is `TopPending` of the top ids and at most `maxCount` long; in a valid pool it has as many entries as the smaller of `maxCount` and the number pending, the highest-fee ones, in non-increasing fee order |
| `PoolScenarios.AddWithRoom` | src/transaction_pool.rs:40-62 | a fresh id with a strictly separating fee, added to a pool with room, is admitted at exactly that slot |
| `PoolScenarios.AddEvicting` | src/transaction_pool.rs:46-61 | a fresh id with a higher fee than the cheapest entry of a full pool evicts that entry and takes its one fee slot |
| `PoolScenarios.RemoveHeadOfTwo` | src/transaction_pool.rs:86-92 | removing the first of two pending transactions leaves the second, and marks the first processed |
| `PoolScenarios.PoolOfTwo` | src/transaction_pool.rs:57-60 | two fresh transactions in increasing fee order fill the ordering in that order |
| `PoolScenarios.RefuseThenEvict` | src/transaction_pool.rs:46-53 | in a full pool of two, a fee ≤ the cheapest is refused with `PoolFull`, then a higher fee evicts the cheapest |
| `PoolScenarios.CapacityTwoScenario` | src/transaction_pool.rs:40-62 | fees 5 and 10 admitted, 3 refused as `PoolFull`, 20 evicts 5, the evicted id is refused as `AlreadyProcessed`, and the best single transaction has fee 20 |
| `PoolScenarios.PoolOfThree` | src/transaction_pool.rs:57-60 | fees added in the order low, high, medium end up ordered low, medium, high |
| `PoolScenarios.AddCheapest` | src/transaction_pool.rs:57-60 | a fourth, cheapest fee goes to the front while the pool has room |
| `PoolScenarios.TransactionTestScenario` | src/test/transaction_test.rs:46-122 | the test program's run: fees 5, 15, 10 admitted; the fee-3 transaction is admitted too, since the pool of 5 is not full; `best(2)` is the fee-15 then the fee-10 transaction |
| `PoolScenarios.ZeroCapacityScenario` | src/transaction_pool.rs:46-54 | capacity 0: the first add succeeds, a lower fee is `PoolFull`, a higher fee replaces the entry |
| `PoolScenarios.ReAddPending` | src/transaction_pool.rs:57-60 | re-adding a pending id succeeds, keeps one map entry with the newer transaction, files the id twice and breaks the invariant |
| `PoolScenarios.ReAddHead` | src/transaction_pool.rs:46-60 | in a full pool of capacity 1, re-adding the head's id with a higher fee succeeds; the id is filed once, pending and processed at once, and the invariant fails |
| `PoolScenarios.ReAddedHeadScenario` | src/transaction_pool.rs:40-60 | capacity 1 holding fee 5: re-adding the id at fee 4 is `PoolFull`, at fee 7 it succeeds |
| `PoolScenarios.RemoveStale` | src/transaction_pool.rs:76-92 | removing that id leaves a stale copy in the ordering, which `get_best_transactions` skips |
| `PoolScenarios.PendingIdReAddedScenario` | src/transaction_pool.rs:40-62 | both adds of the same id succeed, and after its removal the best transactions are empty |
| `ConsensusScenarios.RegistrationScenario` | src/consensus.rs:28-35 | with minimum 500, stake 1000 is registered and stake 100 is refused as `InsufficientStake` |
| `ConsensusScenarios.PhaseScenario` | src/consensus.rs:89-96 | block 0: new moon and the seed replaced; block 4: full moon and the seed kept; weights 2 and 1 |
| `ConsensusScenarios.EmptyRegistryScenario` | src/consensus.rs:37-59 | an empty registry has no leader for any draw |
| `ConsensusScenarios.SingleValidatorScenario` | src/consensus.rs:37-77 | one stake of 1000 with minimum 500 at new moon weighs 500; it leads exactly for draws below 500 |

## Left out

- `generate_random_value` (src/consensus.rs:79-86): SHA-256 and ChaCha20 are foreign cryptographic code. Their output is the parameter `randomValue` of `SelectValidator`, which therefore takes no block number.
- `ChaChaRng::from_entropy` in `update_phase`: the fresh seed is non-deterministic, so it is the parameter `entropy`.
- IEEE-754 arithmetic in `calculate_weighted_stake`, including rounding of products above 2^53 and the saturating `as u64` cast: weights are exact rationals and the cast is a floor.
- HashMap and HashSet hashing: they are Dafny maps and sets. The validator iteration order is the parameter `order`.
- SelectValidator: requires that twice the minimum stake fits in a `u64` and that the total weighted stake does too. The source multiplies and adds in `u64`, which panics in a debug build and wraps in a release build; neither is modelled.
- AddTransaction (Mempool.TransactionPool.AddTransaction): requires the pool invariant. Once a re-added pending id has broken it, later adds are not modelled. In that state the source can panic on the lookup of a head id that is no longer pending (src/transaction_pool.rs:49).
- FindFeePosition (Mempool.TransactionPool.FindFeePosition): when fees are equal, Rust's `binary_search_by_key` may return any matching index. The model returns one particular match and promises only a fee-ordered slot.
- GetBestTransactions (Mempool.TransactionPool.GetBestTransactions): sortedness and "highest fees" are promised only for a valid pool. For any other state only the exact `TopPending` result is stated.
- `usize` (pool capacity, `max_count`, positions) is an unbounded natural.
- `Transaction` field values are never checked by the code, and `PoolError::InvalidTransaction`, `ConsensusError::InvalidValidator` and `ConsensusError::ConsensusFailure` are never produced. They are declared and never returned.
- `LunarModule::new`, `calculate_hash`, `calculate_merkle_root` (SHA-256 and the system clock), the constant `generate_moondust`, and the `Header`, `Body`, `ValidatorInfo` and placeholder `Transaction` structures of src/lunar_module.rs: hashing, clock reading and plain aggregation with no statable behaviour.
- src/main.rs, src/lib.rs and the console output of src/test/transaction_test.rs. The test's "rejected as expected" message is not an assertion. Under the code the fee-3 transaction is admitted, and `TransactionTestScenario` shows that.

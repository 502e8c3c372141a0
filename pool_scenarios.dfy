/**
 * Concrete runs of the transaction pool: the run of the repository's
 * transaction test, a pool of capacity 2 through refusal and eviction, and
 * the two edge cases of the code (capacity 0, re-adding a pending id), each
 * derived from the operations' contracts alone.
 */
module PoolScenarios {
  import opened Words
  import opened Mempool

  /** The test program's `create_transaction`; the clock reading is the parameter `now`. */
  function Tx(b: Byte, amount: U64, fee: U64, now: U64): (tx: Transaction)
    ensures tx.id == Filled(b) && tx.fee == fee
  {
    Transaction(Filled(b), Filled(b), Filled(b + 1), amount, now, seq(64, _ => 0), fee)
  }

  /** `add_transaction` of a fresh id into a pool with room: admitted at the one slot its fee fits. */
  method AddWithRoom(pool: TransactionPool, tx: Transaction, ghost pos: nat) returns (r: Outcome<PoolError>)
    requires pool.Valid()
    requires tx.id !in pool.processed && tx.id !in pool.pending
    requires |pool.pending| < pool.maxPoolSize
    requires StrictFeeSlot(pool.orderedByFee, pool.pending, pos, tx.fee)
    modifies pool
    ensures r == Pass && pool.Valid()
    ensures pool.View() == Inserted(old(pool.View()), tx, pos)
  {
    ghost var before := pool.View();
    r := pool.AddTransaction(tx);
    assert Evicted(before, pool.maxPoolSize) == before;
    ghost var slot :| FeeSlot(before.ordered, before.pending, slot, tx.fee) && pool.View() == Inserted(before, tx, slot);
    FeeSlotUnique(before.ordered, before.pending, pos, slot, tx.fee);
  }

  /** `add_transaction` of a fresh id with a higher fee than the cheapest entry of a full pool: that entry is evicted. */
  method AddEvicting(pool: TransactionPool, tx: Transaction, ghost rest: PoolState, ghost pos: nat) returns (r: Outcome<PoolError>)
    requires pool.Valid()
    requires tx.id !in pool.processed && tx.id !in pool.pending
    requires |pool.pending| >= pool.maxPoolSize && pool.orderedByFee != []
    requires pool.pending[pool.orderedByFee[0]].fee < tx.fee
    requires rest == Removed(pool.View(), pool.orderedByFee[0])
    requires StrictFeeSlot(rest.ordered, rest.pending, pos, tx.fee)
    modifies pool
    ensures r == Pass && pool.Valid()
    ensures pool.View() == Inserted(rest, tx, pos)
  {
    ghost var before := pool.View();
    r := pool.AddTransaction(tx);
    assert Evicted(before, pool.maxPoolSize) == rest;
    ghost var slot :| FeeSlot(rest.ordered, rest.pending, slot, tx.fee) && pool.View() == Inserted(rest, tx, slot);
    FeeSlotUnique(rest.ordered, rest.pending, pos, slot, tx.fee);
  }

  /** Removing the first of two pending transactions. */
  lemma RemoveHeadOfTwo(a: Transaction, b: Transaction)
    requires a.id != b.id
    ensures Removed(PoolState(map[a.id := a, b.id := b], [a.id, b.id], {}), a.id)
         == PoolState(map[b.id := b], [b.id], {a.id})
  {
    assert map[a.id := a, b.id := b] - {a.id} == map[b.id := b];
  }

  /** A fresh pool of the given capacity holding `a` and the dearer `b`, in that order. */
  method PoolOfTwo(capacity: nat, a: Transaction, b: Transaction) returns (pool: TransactionPool, r1: Outcome<PoolError>, r2: Outcome<PoolError>)
    requires capacity >= 2
    requires a.id != b.id && a.fee < b.fee
    ensures fresh(pool) && pool.Valid() && pool.maxPoolSize == capacity
    ensures r1 == Pass && r2 == Pass
    ensures pool.View() == PoolState(map[a.id := a, b.id := b], [a.id, b.id], {})
  {
    pool := new TransactionPool(capacity);
    r1 := AddWithRoom(pool, a, 0);
    assert pool.View() == PoolState(map[a.id := a], [a.id], {});
    r2 := AddWithRoom(pool, b, 1);
  }

  /** In the full pool of `PoolOfTwo`, a cheaper `c` is refused and a dearer `d` evicts `a`. */
  method RefuseThenEvict(pool: TransactionPool, a: Transaction, b: Transaction, c: Transaction, d: Transaction)
      returns (r3: Outcome<PoolError>, r4: Outcome<PoolError>)
    requires pool.Valid() && pool.maxPoolSize == 2
    requires pool.View() == PoolState(map[a.id := a, b.id := b], [a.id, b.id], {})
    requires a.id != b.id && d.id != a.id && d.id != b.id
    requires c.fee <= a.fee && b.fee < d.fee
    modifies pool
    ensures r3 == Fail(PoolFull) && r4 == Pass && pool.Valid()
    ensures pool.View() == PoolState(map[b.id := b, d.id := d], [b.id, d.id], {a.id})
  {
    r3 := pool.AddTransaction(c);
    assert pool.View() == PoolState(map[a.id := a, b.id := b], [a.id, b.id], {});
    ghost var afterEviction := PoolState(map[b.id := b], [b.id], {a.id});
    RemoveHeadOfTwo(a, b);
    r4 := AddEvicting(pool, d, afterEviction, 1);
    assert pool.View() == Inserted(afterEviction, d, 1);
  }

  /**
   * A pool of capacity 2: fees 5 and 10 are admitted; fee 3 is refused as
   * the pool is full and its cheapest fee is 5; fee 20 evicts the fee-5
   * transaction; re-adding the evicted id is refused as processed; the best
   * single transaction is the fee-20 one.
   */
  method CapacityTwoScenario() returns (r1: Outcome<PoolError>, r2: Outcome<PoolError>, r3: Outcome<PoolError>,
                                        r4: Outcome<PoolError>, r5: Outcome<PoolError>, best: seq<Transaction>)
    ensures r1 == Pass && r2 == Pass && r3 == Fail(PoolFull) && r4 == Pass && r5 == Fail(AlreadyProcessed)
    ensures |best| == 1 && best[0].fee == 20
  {
    var a, b, c, d := Tx(1, 100, 5, 0), Tx(2, 100, 10, 0), Tx(3, 100, 3, 0), Tx(4, 100, 20, 0);
    assert Filled(2)[0] != Filled(1)[0] && Filled(4)[0] != Filled(1)[0] && Filled(4)[0] != Filled(2)[0];
    var pool;
    pool, r1, r2 := PoolOfTwo(2, a, b);
    r3, r4 := RefuseThenEvict(pool, a, b, c, d);
    r5 := pool.AddTransaction(a);
    best := pool.GetBestTransactions(1);
  }

  /** Three fresh transactions added to a pool of capacity 5, fees ordered `a` < `c` < `b`. */
  method PoolOfThree(a: Transaction, b: Transaction, c: Transaction) returns (pool: TransactionPool)
    requires a.id != b.id && a.id != c.id && b.id != c.id
    requires a.fee < c.fee < b.fee
    ensures fresh(pool) && pool.Valid() && pool.maxPoolSize == 5
    ensures pool.View() == PoolState(map[a.id := a, b.id := b, c.id := c], [a.id, c.id, b.id], {})
  {
    var r1, r2;
    pool, r1, r2 := PoolOfTwo(5, a, b);
    var r3 := AddWithRoom(pool, c, 1);
  }

  /** A fourth, cheapest transaction goes in front when the pool still has room. */
  method AddCheapest(pool: TransactionPool, a: Transaction, b: Transaction, c: Transaction, d: Transaction)
      returns (r: Outcome<PoolError>)
    requires pool.Valid() && pool.maxPoolSize == 5
    requires pool.View() == PoolState(map[a.id := a, b.id := b, c.id := c], [a.id, c.id, b.id], {})
    requires a.id != b.id && a.id != c.id && b.id != c.id
    requires d.id != a.id && d.id != b.id && d.id != c.id
    requires d.fee < a.fee < c.fee < b.fee
    modifies pool
    ensures r == Pass && pool.Valid()
    ensures pool.View() == PoolState(map[a.id := a, b.id := b, c.id := c, d.id := d], [d.id, a.id, c.id, b.id], {})
  {
    assert StrictFeeSlot(pool.orderedByFee, pool.pending, 0, d.fee) by {
      assert FeeOf(pool.pending, a.id) == a.fee;
      assert FeeOf(pool.pending, b.id) == b.fee;
      assert FeeOf(pool.pending, c.id) == c.fee;
    }
    r := AddWithRoom(pool, d, 0);
    assert pool.orderedByFee == [d.id, a.id, c.id, b.id];
  }

  /**
   * The repository's transaction test: a pool of size 5 admits the fees
   * 5, 15 and 10; the "overflow" transaction of fee 3 is admitted too, as
   * the pool is not full; the best two are the fee-15 and fee-10 ones, in
   * that order. Each transaction carries its own clock reading.
   */
  method TransactionTestScenario(now1: U64, now2: U64, now3: U64, now4: U64) returns (r4: Outcome<PoolError>, best: seq<Transaction>)
    ensures r4 == Pass
    ensures |best| == 2 && best[0] == Tx(2, 200, 15, now2) && best[1] == Tx(3, 150, 10, now3)
  {
    var t1, t2, t3 := Tx(1, 100, 5, now1), Tx(2, 200, 15, now2), Tx(3, 150, 10, now3);
    var overflow := Tx(4, 50, 3, now4);
    assert Filled(2)[0] != Filled(1)[0] && Filled(3)[0] != Filled(1)[0] && Filled(3)[0] != Filled(2)[0];
    assert Filled(4)[0] != Filled(1)[0] && Filled(4)[0] != Filled(2)[0] && Filled(4)[0] != Filled(3)[0];
    var pool := PoolOfThree(t1, t2, t3);
    r4 := AddCheapest(pool, t1, t2, t3, overflow);
    best := pool.GetBestTransactions(2);
  }

  /**
   * A pool of capacity 0: its ordering is empty, so the first transaction is
   * admitted; from then on it behaves as a pool of capacity 1 (a lower fee
   * is refused, a higher one replaces the entry).
   */
  method ZeroCapacityScenario() returns (r1: Outcome<PoolError>, r2: Outcome<PoolError>, r3: Outcome<PoolError>)
    ensures r1 == Pass && r2 == Fail(PoolFull) && r3 == Pass
  {
    var a, b, c := Tx(1, 100, 5, 0), Tx(2, 100, 3, 0), Tx(3, 100, 8, 0);
    assert Filled(3)[0] != Filled(1)[0];
    var pool := new TransactionPool(0);
    r1 := pool.AddTransaction(a);
    assert Evicted(PoolState(map[], [], {}), 0) == PoolState(map[], [], {});
    assert pool.View() == PoolState(map[a.id := a], [a.id], {});
    r2 := pool.AddTransaction(b);
    assert pool.View() == PoolState(map[a.id := a], [a.id], {});
    assert Removed(pool.View(), a.id) == PoolState(map[], [], {a.id}) by {
      assert map[a.id := a] - {a.id} == map[];
    }
    r3 := AddEvicting(pool, c, PoolState(map[], [], {a.id}), 0);
  }

  /**
   * Re-adding an id that is still pending (not guarded against), in a pool
   * with room: the add succeeds, the map keeps the newer transaction but
   * the ordering now holds the id twice, so the pool invariant no longer
   * holds.
   */
  method ReAddPending(pool: TransactionPool, a: Transaction, a2: Transaction) returns (r: Outcome<PoolError>)
    requires pool.Valid() && pool.maxPoolSize == 5
    requires pool.View() == PoolState(map[a.id := a], [a.id], {})
    requires a2.id == a.id && a.fee < a2.fee
    modifies pool
    ensures r == Pass && !pool.Valid()
    ensures pool.View() == PoolState(map[a.id := a2], [a.id, a.id], {})
  {
    ghost var one := pool.View();
    r := pool.AddTransaction(a2);
    assert Evicted(one, 5) == one;
    ghost var pos :| FeeSlot(one.ordered, one.pending, pos, a2.fee) && pool.View() == Inserted(one, a2, pos);
    assert pos == 1 by {
      assert FeeOf(one.pending, one.ordered[0]) == a.fee;
    }
    assert pool.View() == PoolState(map[a.id := a2], [a.id, a.id], {});
    assert !Distinct(pool.orderedByFee) by {
      assert pool.orderedByFee[0] == pool.orderedByFee[1];
    }
  }

  /**
   * Removing an id filed twice in the ordering drops one copy and the
   * pending entry; the stale copy left behind is skipped when the best
   * transactions are read.
   */
  method RemoveStale(pool: TransactionPool, a: Transaction, a2: Transaction) returns (best: seq<Transaction>)
    requires pool.View() == PoolState(map[a.id := a2], [a.id, a.id], {})
    modifies pool
    ensures pool.View() == PoolState(map[], [a.id], {a.id})
    ensures best == []
  {
    pool.RemoveTransaction(a.id);
    assert map[a.id := a2] - {a.id} == map[];
    best := pool.GetBestTransactions(1);
    assert TopPending([a.id], map[]) == [];
  }

  /**
   * A pending id added twice, then removed: a stale copy stays in the
   * ordering, and `get_best_transactions` skips it.
   */
  method PendingIdReAddedScenario() returns (r1: Outcome<PoolError>, r2: Outcome<PoolError>, best: seq<Transaction>)
    ensures r1 == Pass && r2 == Pass && best == []
  {
    var a, a2 := Tx(1, 100, 5, 0), Tx(1, 100, 7, 0);
    var pool := new TransactionPool(5);
    r1 := AddWithRoom(pool, a, 0);
    assert pool.View() == PoolState(map[a.id := a], [a.id], {});
    r2 := ReAddPending(pool, a, a2);
    best := RemoveStale(pool, a, a2);
  }

  /**
   * Re-adding the pending id at the head of a full pool with a higher fee:
   * the id is evicted into `processed` and admitted again, so the ordering
   * holds it once but it is both pending and processed, which breaks the
   * invariant's disjointness part.
   */
  method ReAddHead(pool: TransactionPool, a: Transaction, a2: Transaction) returns (r: Outcome<PoolError>)
    requires pool.Valid() && pool.maxPoolSize == 1
    requires pool.View() == PoolState(map[a.id := a], [a.id], {})
    requires a2.id == a.id && a.fee < a2.fee
    modifies pool
    ensures r == Pass && !pool.Valid()
    ensures pool.View() == PoolState(map[a.id := a2], [a.id], {a.id})
  {
    ghost var one := pool.View();
    ghost var empty := PoolState(map[], [], {a.id});
    assert Evicted(one, 1) == empty by {
      assert map[a.id := a] - {a.id} == map[];
    }
    r := pool.AddTransaction(a2);
    ghost var pos :| FeeSlot(empty.ordered, empty.pending, pos, a2.fee) && pool.View() == Inserted(empty, a2, pos);
    assert pool.View() == PoolState(map[a.id := a2], [a.id], {a.id});
    assert a.id in pool.processed && a.id in pool.pending.Keys;
  }

  /**
   * A pool of capacity 1 holding `a` at fee 5: re-adding its id at fee 4 is
   * refused as `PoolFull`; re-adding it at fee 7 succeeds and leaves the id
   * pending and processed at once, filed once in the ordering.
   */
  method ReAddedHeadScenario() returns (r1: Outcome<PoolError>, r2: Outcome<PoolError>, r3: Outcome<PoolError>)
    ensures r1 == Pass && r2 == Fail(PoolFull) && r3 == Pass
  {
    var a, cheaper, dearer := Tx(1, 100, 5, 0), Tx(1, 100, 4, 0), Tx(1, 100, 7, 0);
    var pool := new TransactionPool(1);
    r1 := AddWithRoom(pool, a, 0);
    assert pool.View() == PoolState(map[a.id := a], [a.id], {});
    r2 := pool.AddTransaction(cheaper);
    r3 := ReAddHead(pool, a, dearer);
  }
}

/**
 * `TransactionPool`: a bounded pool of pending transactions kept in
 * ascending fee order, with eviction of the cheapest entry and a permanent
 * record of every id that has left the pool.
 */
module Mempool {
  import opened Words

  datatype Transaction = Transaction(
    id: Bytes32,
    sender: Bytes32,
    receiver: Bytes32,
    amount: U64,
    timestamp: U64,
    signature: Bytes64,
    fee: U64)

  datatype PoolError = AlreadyProcessed | PoolFull | InvalidTransaction

  /** The three collections of a pool, as a value. */
  datatype PoolState = PoolState(
    pending: map<Bytes32, Transaction>,
    ordered: seq<Bytes32>,
    processed: set<Bytes32>)

  /** The fee `find_fee_position` sorts by: that of the pending transaction, or 0 for an id that is not pending. */
  function FeeOf(pending: map<Bytes32, Transaction>, id: Bytes32): nat {
    if id in pending then pending[id].fee else 0
  }

  ghost predicate SortedByFee(ids: seq<Bytes32>, pending: map<Bytes32, Transaction>) {
    forall i, j :: 0 <= i < j < |ids| ==> FeeOf(pending, ids[i]) <= FeeOf(pending, ids[j])
  }

  ghost predicate Distinct(ids: seq<Bytes32>) {
    forall i, j :: 0 <= i < j < |ids| ==> ids[i] != ids[j]
  }

  /** Inserting a transaction of fee `fee` at `pos` keeps `ids` in fee order. */
  ghost predicate FeeSlot(ids: seq<Bytes32>, pending: map<Bytes32, Transaction>, pos: nat, fee: nat) {
    && pos <= |ids|
    && (forall i :: 0 <= i < pos ==> FeeOf(pending, ids[i]) <= fee)
    && (forall i :: pos <= i < |ids| ==> fee <= FeeOf(pending, ids[i]))
  }

  /**
   * The most entries a pool of capacity `maxPoolSize` ever holds: a pool of
   * capacity 0 still admits one transaction, because its ordering is empty
   * when the first one arrives.
   */
  function Capacity(maxPoolSize: nat): (c: nat)
    ensures c >= 1 && c >= maxPoolSize
    ensures maxPoolSize >= 1 ==> c <= maxPoolSize
    ensures maxPoolSize == 0 ==> c == 1
  {
    if maxPoolSize == 0 then 1 else maxPoolSize
  }

  /** `ids` lists every key of `pending` exactly once, in non-decreasing fee order. */
  ghost predicate FeeOrdering(ids: seq<Bytes32>, pending: map<Bytes32, Transaction>) {
    && Distinct(ids)
    && (forall id :: id in ids <==> id in pending)
    && SortedByFee(ids, pending)
  }

  /** Every pending transaction is filed under its own id. */
  ghost predicate KeyedById(pending: map<Bytes32, Transaction>) {
    forall id :: id in pending ==> pending[id].id == id
  }

  /**
   * The pool invariant: pending transactions are filed under their ids;
   * the ordering lists the pending ids in fee order; no processed id is
   * pending; and the pool is within its capacity.
   */
  ghost predicate PoolInvariant(s: PoolState, maxPoolSize: nat) {
    && KeyedById(s.pending)
    && FeeOrdering(s.ordered, s.pending)
    && s.processed !! s.pending.Keys
    && |s.pending| <= Capacity(maxPoolSize)
  }

  /** `ids` with its first occurrence of `x` deleted (what `position` followed by `Vec::remove` does). */
  function RemoveFirst(ids: seq<Bytes32>, x: Bytes32): (r: seq<Bytes32>)
    ensures x in ids ==> |r| == |ids| - 1
    ensures x !in ids ==> r == ids
  {
    if ids == [] then []
    else if ids[0] == x then ids[1..]
    else [ids[0]] + RemoveFirst(ids[1..], x)
  }

  /** Deleting the first occurrence is cutting the sequence at its index. */
  lemma {:induction false} RemoveFirstAt(ids: seq<Bytes32>, x: Bytes32, p: nat)
    requires p < |ids| && ids[p] == x && x !in ids[..p]
    ensures RemoveFirst(ids, x) == ids[..p] + ids[p + 1..]
  {
    if p > 0 {
      assert ids[0] in ids[..p];
      assert ids[1..][..p - 1] == ids[1..p];
      assert x !in ids[1..][..p - 1];
      RemoveFirstAt(ids[1..], x, p - 1);
      assert ids[1..][p..] == ids[p + 1..];
      assert [ids[0]] + ids[1..p] == ids[..p];
    }
  }

  /** `remove_transaction` on a pool value: the id leaves `pending` and `ordered` and joins `processed`. */
  function Removed(s: PoolState, id: Bytes32): (t: PoolState)
    ensures id !in t.pending && id in t.processed
    ensures forall k :: k in t.pending <==> k in s.pending && k != id
    ensures forall k :: k in t.pending ==> t.pending[k] == s.pending[k]
    ensures s.processed <= t.processed
  {
    PoolState(s.pending - {id}, RemoveFirst(s.ordered, id), s.processed + {id})
  }

  /** `s` with `tx` admitted at position `pos` of the ordering. */
  function Inserted(s: PoolState, tx: Transaction, pos: nat): (t: PoolState)
    requires pos <= |s.ordered|
    ensures tx.id in t.pending && t.pending[tx.id] == tx
    ensures |t.ordered| == |s.ordered| + 1 && t.ordered[pos] == tx.id
  {
    PoolState(s.pending[tx.id := tx], s.ordered[..pos] + [tx.id] + s.ordered[pos..], s.processed)
  }

  /** The positions of `ids` after deleting index `p`. */
  lemma DeleteAtIndex(ids: seq<Bytes32>, p: nat)
    requires p < |ids|
    ensures |ids[..p] + ids[p + 1..]| == |ids| - 1
    ensures forall i :: 0 <= i < |ids| - 1 ==> (ids[..p] + ids[p + 1..])[i] == if i < p then ids[i] else ids[i + 1]
  {
  }

  /** Deleting an element of a duplicate-free sequence removes exactly that element. */
  lemma DeleteKeepsDistinct(ids: seq<Bytes32>, p: nat)
    requires p < |ids| && Distinct(ids)
    ensures Distinct(ids[..p] + ids[p + 1..])
    ensures forall k :: k in ids[..p] + ids[p + 1..] <==> k in ids && k != ids[p]
  {
    var d := ids[..p] + ids[p + 1..];
    DeleteAtIndex(ids, p);
    forall k ensures k in d <==> k in ids && k != ids[p] {
      if k in d {
        var i :| 0 <= i < |d| && d[i] == k;
        if i < p { assert ids[i] == k; } else { assert ids[i + 1] == k; }
      }
      if k in ids && k != ids[p] {
        var i :| 0 <= i < |ids| && ids[i] == k;
        if i < p { assert d[i] == k; } else { assert d[i - 1] == k; }
      }
    }
  }

  /** Deleting a pending id from the ordering and from `pending` keeps the rest in fee order. */
  lemma DeleteKeepsSorted(ids: seq<Bytes32>, pending: map<Bytes32, Transaction>, p: nat)
    requires p < |ids| && Distinct(ids) && SortedByFee(ids, pending)
    ensures SortedByFee(ids[..p] + ids[p + 1..], pending - {ids[p]})
  {
    var d := ids[..p] + ids[p + 1..];
    DeleteAtIndex(ids, p);
    DeleteKeepsDistinct(ids, p);
    forall i, j | 0 <= i < j < |d| ensures FeeOf(pending - {ids[p]}, d[i]) <= FeeOf(pending - {ids[p]}, d[j]) {
      var i' := if i < p then i else i + 1;
      var j' := if j < p then j else j + 1;
      assert d[i] == ids[i'] && d[j] == ids[j'] && i' < j';
      assert d[i] != ids[p] && d[j] != ids[p];
    }
  }

  /** Removing an id from the ordering and from `pending` keeps the fee ordering. */
  lemma RemovedKeepsOrdering(ids: seq<Bytes32>, pending: map<Bytes32, Transaction>, id: Bytes32)
    requires FeeOrdering(ids, pending)
    ensures FeeOrdering(RemoveFirst(ids, id), pending - {id})
    ensures id !in RemoveFirst(ids, id)
  {
    if id in ids {
      var p :| 0 <= p < |ids| && ids[p] == id;
      assert id !in ids[..p] by {
        forall i | 0 <= i < p ensures ids[..p][i] != id {
          assert ids[i] != ids[p];
        }
      }
      RemoveFirstAt(ids, id, p);
      DeleteKeepsDistinct(ids, p);
      DeleteKeepsSorted(ids, pending, p);
    } else {
      assert pending - {id} == pending;
    }
  }

  /** Removing an id shrinks `pending` by one exactly when the id was pending. */
  lemma RemovedPendingSize(s: PoolState, id: Bytes32)
    ensures |Removed(s, id).pending| == if id in s.pending then |s.pending| - 1 else |s.pending|
  {
    var t := Removed(s, id);
    if id in s.pending {
      assert t.pending.Keys == s.pending.Keys - {id};
    } else {
      assert t.pending.Keys == s.pending.Keys;
    }
  }

  /** Removing an id preserves the invariant, and removes it from the ordering entirely. */
  lemma RemovedKeepsInvariant(s: PoolState, maxPoolSize: nat, id: Bytes32)
    requires PoolInvariant(s, maxPoolSize)
    ensures PoolInvariant(Removed(s, id), maxPoolSize)
    ensures id !in Removed(s, id).ordered
    ensures |Removed(s, id).pending| == if id in s.pending then |s.pending| - 1 else |s.pending|
  {
    RemovedPendingSize(s, id);
    RemovedKeepsOrdering(s.ordered, s.pending, id);
  }

  /** The positions of `ids` after inserting `x` at `pos`. */
  lemma InsertAtIndex(ids: seq<Bytes32>, pos: nat, x: Bytes32)
    requires pos <= |ids|
    ensures |ids[..pos] + [x] + ids[pos..]| == |ids| + 1
    ensures forall i :: 0 <= i <= |ids| ==>
      (ids[..pos] + [x] + ids[pos..])[i] == if i < pos then ids[i] else if i == pos then x else ids[i - 1]
  {
  }

  /** Inserting a new element into a duplicate-free sequence keeps it duplicate-free. */
  lemma InsertKeepsDistinct(ids: seq<Bytes32>, pos: nat, x: Bytes32)
    requires pos <= |ids| && Distinct(ids) && x !in ids
    ensures Distinct(ids[..pos] + [x] + ids[pos..])
    ensures forall k :: k in ids[..pos] + [x] + ids[pos..] <==> k in ids || k == x
  {
    var n := ids[..pos] + [x] + ids[pos..];
    InsertAtIndex(ids, pos, x);
    forall i, j | 0 <= i < j < |n| ensures n[i] != n[j] {
      if i != pos && j != pos {
        var i' := if i < pos then i else i - 1;
        var j' := if j < pos then j else j - 1;
        assert n[i] == ids[i'] && n[j] == ids[j'] && i' < j';
      }
    }
    forall k | k in ids ensures k in n {
      var i :| 0 <= i < |ids| && ids[i] == k;
      if i < pos { assert n[i] == k; } else { assert n[i + 1] == k; }
    }
  }

  /** Inserting a new id at a fee slot keeps the ordering sorted by the updated fees. */
  lemma InsertKeepsSorted(ids: seq<Bytes32>, pending: map<Bytes32, Transaction>, pos: nat, tx: Transaction)
    requires SortedByFee(ids, pending) && tx.id !in ids
    requires FeeSlot(ids, pending, pos, tx.fee)
    ensures SortedByFee(ids[..pos] + [tx.id] + ids[pos..], pending[tx.id := tx])
  {
    var n := ids[..pos] + [tx.id] + ids[pos..];
    var pending' := pending[tx.id := tx];
    InsertAtIndex(ids, pos, tx.id);
    forall i, j | 0 <= i < j < |n| ensures FeeOf(pending', n[i]) <= FeeOf(pending', n[j]) {
      var i' := if i < pos then i else i - 1;
      var j' := if j < pos then j else j - 1;
      if i != pos { assert n[i] == ids[i'] && FeeOf(pending', n[i]) == FeeOf(pending, ids[i']); }
      if j != pos { assert n[j] == ids[j'] && FeeOf(pending', n[j]) == FeeOf(pending, ids[j']); }
    }
  }

  /**
   * Admitting a transaction whose id is neither pending nor processed, at a
   * fee-ordered slot and with room left, preserves the invariant and adds
   * exactly one pending entry.
   */
  lemma InsertedKeepsInvariant(s: PoolState, maxPoolSize: nat, tx: Transaction, pos: nat)
    requires PoolInvariant(s, maxPoolSize)
    requires tx.id !in s.pending && tx.id !in s.processed
    requires |s.pending| < Capacity(maxPoolSize)
    requires FeeSlot(s.ordered, s.pending, pos, tx.fee)
    ensures PoolInvariant(Inserted(s, tx, pos), maxPoolSize)
    ensures |Inserted(s, tx, pos).pending| == |s.pending| + 1
  {
    var t := Inserted(s, tx, pos);
    assert tx.id !in s.ordered;
    InsertKeepsDistinct(s.ordered, pos, tx.id);
    InsertKeepsSorted(s.ordered, s.pending, pos, tx);
    assert t.pending.Keys == s.pending.Keys + {tx.id};
  }

  /** A slot strictly between lower and higher fees: the only fee slot there is. */
  ghost predicate StrictFeeSlot(ids: seq<Bytes32>, pending: map<Bytes32, Transaction>, pos: nat, fee: nat) {
    && pos <= |ids|
    && (forall i :: 0 <= i < pos ==> FeeOf(pending, ids[i]) < fee)
    && (forall i :: pos <= i < |ids| ==> fee < FeeOf(pending, ids[i]))
  }

  /** When no pending fee equals the new fee, the insertion slot is unique. */
  lemma FeeSlotUnique(ids: seq<Bytes32>, pending: map<Bytes32, Transaction>, pos: nat, other: nat, fee: nat)
    requires StrictFeeSlot(ids, pending, pos, fee)
    requires FeeSlot(ids, pending, other, fee)
    ensures other == pos
  {
    // Each slot condition read at the other candidate's index; with the
    // strict condition at the same index, a second slot contradicts it.
    assert other < |ids| ==> fee <= FeeOf(pending, ids[other]);
    assert pos < |ids| ==> fee < FeeOf(pending, ids[pos]);
  }

  /**
   * The pool after the full-pool step of `add_transaction`: when the pool
   * holds `maxPoolSize` or more entries and its ordering is not empty, the
   * cheapest entry (the head of the ordering) is removed.
   */
  function Evicted(s: PoolState, maxPoolSize: nat): (t: PoolState)
    ensures |s.pending| < maxPoolSize || s.ordered == [] ==> t == s
    ensures |s.pending| >= maxPoolSize && s.ordered != [] ==>
              s.ordered[0] !in t.pending && s.ordered[0] in t.processed &&
              (forall k :: k in t.pending <==> k in s.pending && k != s.ordered[0])
  {
    if |s.pending| >= maxPoolSize && s.ordered != [] then Removed(s, s.ordered[0]) else s
  }

  /**
   * Admitting a transaction whose id is neither pending nor processed, after
   * the full-pool step, preserves the invariant; the pool grows by one
   * unless an entry was evicted, in which case its size is unchanged.
   */
  lemma AdmitKeepsInvariant(s: PoolState, maxPoolSize: nat, tx: Transaction, pos: nat)
    requires PoolInvariant(s, maxPoolSize)
    requires tx.id !in s.pending && tx.id !in s.processed
    requires FeeSlot(Evicted(s, maxPoolSize).ordered, Evicted(s, maxPoolSize).pending, pos, tx.fee)
    ensures PoolInvariant(Inserted(Evicted(s, maxPoolSize), tx, pos), maxPoolSize)
    ensures |Inserted(Evicted(s, maxPoolSize), tx, pos).pending|
         == if |s.pending| >= maxPoolSize && s.ordered != [] then |s.pending| else |s.pending| + 1
  {
    var e := Evicted(s, maxPoolSize);
    if |s.pending| >= maxPoolSize && s.ordered != [] {
      assert s.ordered[0] in s.pending;
      RemovedKeepsInvariant(s, maxPoolSize, s.ordered[0]);
    } else if s.ordered == [] {
      assert s.pending.Keys == {};
    }
    assert tx.id !in e.pending && tx.id !in e.processed;
    InsertedKeepsInvariant(e, maxPoolSize, tx, pos);
  }

  /** A duplicate-free listing of a set is as long as the set is large. */
  lemma {:induction false} DistinctListingSize(ids: seq<Bytes32>, keys: set<Bytes32>)
    requires Distinct(ids) && forall k :: k in ids <==> k in keys
    ensures |keys| == |ids|
    decreases |ids|
  {
    if ids == [] {
      assert forall k :: k !in keys;
    } else {
      var n := |ids| - 1;
      var last, rest := ids[n], ids[..n];
      forall k ensures k in rest <==> k in keys - {last} {
        if k in rest {
          var i :| 0 <= i < n && rest[i] == k;
          assert ids[i] == k && ids[i] != ids[n];
        }
        if k in keys - {last} {
          assert k in ids;
          var i :| 0 <= i < |ids| && ids[i] == k;
          assert i < n && rest[i] == k;
        }
      }
      DistinctListingSize(rest, keys - {last});
    }
  }

  /** In a valid pool the ordering has one entry per pending transaction. */
  lemma OrderingSize(s: PoolState, maxPoolSize: nat)
    requires PoolInvariant(s, maxPoolSize)
    ensures |s.ordered| == |s.pending|
  {
    assert forall k :: k in s.ordered <==> k in s.pending.Keys;
    DistinctListingSize(s.ordered, s.pending.Keys);
  }

  /**
   * Reading a fee-sorted ordering from its high end yields non-increasing
   * fees, none lower than a fee left unread.
   */
  lemma BestAreTop(ids: seq<Bytes32>, pending: map<Bytes32, Transaction>, best: seq<Transaction>)
    requires SortedByFee(ids, pending) && |best| <= |ids|
    requires forall j :: 0 <= j < |ids| ==> ids[j] in pending
    requires forall k :: 0 <= k < |best| ==> best[k] == pending[ids[|ids| - 1 - k]]
    ensures forall k, l :: 0 <= k < l < |best| ==> best[l].fee <= best[k].fee
    ensures forall k, j :: 0 <= k < |best| && 0 <= j < |ids| - |best| ==> pending[ids[j]].fee <= best[k].fee
  {
    var n := |ids|;
    forall k, l | 0 <= k < l < |best| ensures best[l].fee <= best[k].fee {
      assert FeeOf(pending, ids[n - 1 - l]) <= FeeOf(pending, ids[n - 1 - k]);
    }
    forall k, j | 0 <= k < |best| && 0 <= j < n - |best| ensures pending[ids[j]].fee <= best[k].fee {
      assert FeeOf(pending, ids[j]) <= FeeOf(pending, ids[n - 1 - k]);
    }
  }

  /**
   * The transactions named by `ids`, read from the last id to the first,
   * with the ids that are not pending left out.
   */
  function TopPending(ids: seq<Bytes32>, pending: map<Bytes32, Transaction>): (r: seq<Transaction>)
    ensures |r| <= |ids|
    ensures forall k :: 0 <= k < |r| ==> r[k] in pending.Values
  {
    if ids == [] then []
    else TopPending(ids[1..], pending) + (if ids[0] in pending then [pending[ids[0]]] else [])
  }

  /** What `get_best_transactions` returns: the pending transactions among the last `maxCount` ids, highest first. */
  function TopOf(ids: seq<Bytes32>, pending: map<Bytes32, Transaction>, maxCount: nat): (r: seq<Transaction>)
    ensures |r| <= maxCount
  {
    TopPending(ids[|ids| - (if maxCount < |ids| then maxCount else |ids|)..], pending)
  }

  /** When every id is pending nothing is left out: the result is `ids` reversed, looked up. */
  lemma {:induction false} TopPendingAllPending(ids: seq<Bytes32>, pending: map<Bytes32, Transaction>)
    requires forall j :: 0 <= j < |ids| ==> ids[j] in pending
    ensures |TopPending(ids, pending)| == |ids|
    ensures forall k :: 0 <= k < |ids| ==> TopPending(ids, pending)[k] == pending[ids[|ids| - 1 - k]]
  {
    if ids != [] {
      TopPendingAllPending(ids[1..], pending);
    }
  }

  /** Reading the top ids of a fully pending ordering looks each of them up, from the last down. */
  lemma TopOfAllPending(ids: seq<Bytes32>, pending: map<Bytes32, Transaction>, maxCount: nat)
    requires forall j :: 0 <= j < |ids| ==> ids[j] in pending
    ensures |TopOf(ids, pending, maxCount)| == if maxCount < |ids| then maxCount else |ids|
    ensures forall k :: 0 <= k < |TopOf(ids, pending, maxCount)| ==>
              TopOf(ids, pending, maxCount)[k] == pending[ids[|ids| - 1 - k]]
  {
    var n := |ids|;
    var t := if maxCount < n then maxCount else n;
    var top := ids[n - t..];
    assert forall j :: 0 <= j < |top| ==> top[j] in pending by {
      forall j | 0 <= j < |top| ensures top[j] in pending {
        assert top[j] == ids[n - t + j];
      }
    }
    TopPendingAllPending(top, pending);
    forall k | 0 <= k < t ensures TopOf(ids, pending, maxCount)[k] == pending[ids[n - 1 - k]] {
      assert top[t - 1 - k] == ids[n - 1 - k];
    }
  }

  /**
   * Over a fee-ordered, fully pending ordering (as in a valid pool), what
   * the iterator chain of `get_best_transactions` returns is the `maxCount`
   * highest-fee transactions (or all of them), from the highest fee down.
   */
  lemma SortedBestAreTop(ids: seq<Bytes32>, pending: map<Bytes32, Transaction>, maxCount: nat, best: seq<Transaction>)
    requires FeeOrdering(ids, pending)
    requires best == TopOf(ids, pending, maxCount)
    ensures |best| == if maxCount < |ids| then maxCount else |ids|
    ensures forall k :: 0 <= k < |best| ==> best[k] == pending[ids[|ids| - 1 - k]]
    ensures forall k, l :: 0 <= k < l < |best| ==> best[l].fee <= best[k].fee
    ensures forall k, j :: 0 <= k < |best| && 0 <= j < |ids| - |best| ==> pending[ids[j]].fee <= best[k].fee
  {
    assert forall j :: 0 <= j < |ids| ==> ids[j] in pending;
    TopOfAllPending(ids, pending, maxCount);
    BestAreTop(ids, pending, best);
  }


  /**
   * The iterator chain of `get_best_transactions`: walk `ids` from the end,
   * take at most `maxCount` of them, and keep the pending transactions they
   * name.
   */
  method TakeFromTop(ids: seq<Bytes32>, pending: map<Bytes32, Transaction>, maxCount: nat) returns (best: seq<Transaction>)
    ensures best == TopOf(ids, pending, maxCount)
    ensures |best| <= maxCount
  {
    best := [];
    var n := |ids|;
    var taken := 0;
    while taken < maxCount && taken < n
      invariant taken <= maxCount && taken <= n
      invariant best == TopPending(ids[n - taken..], pending)
    {
      var id := ids[n - 1 - taken];
      assert ids[n - (taken + 1)..][1..] == ids[n - taken..];
      if id in pending {
        best := best + [pending[id]];
      }
      taken := taken + 1;
    }
  }

  /** `iter().position(|id| id == x)`: the index of the first occurrence of `x`, if any. */
  method Position(ids: seq<Bytes32>, x: Bytes32) returns (p: Option<nat>)
    ensures p.None? <==> x !in ids
    ensures p.Some? ==> p.value < |ids| && ids[p.value] == x && x !in ids[..p.value]
  {
    var i := 0;
    while i < |ids|
      invariant 0 <= i <= |ids|
      invariant x !in ids[..i]
    {
      if ids[i] == x {
        return Some(i);
      }
      assert ids[..i + 1] == ids[..i] + [ids[i]];
      i := i + 1;
    }
    assert ids[..i] == ids;
    return None;
  }

  class TransactionPool {
    var pending: map<Bytes32, Transaction>
    var orderedByFee: seq<Bytes32>
    var processed: set<Bytes32>
    const maxPoolSize: nat

    function View(): PoolState
      reads this
    {
      PoolState(pending, orderedByFee, processed)
    }

    ghost predicate Valid()
      reads this
    {
      PoolInvariant(View(), maxPoolSize)
    }

    /** `TransactionPool::new`: an empty pool of the given capacity. */
    constructor (maxPoolSize: nat)
      ensures Valid() && this.maxPoolSize == maxPoolSize
      ensures pending == map[] && orderedByFee == [] && processed == {}
    {
      pending := map[];
      orderedByFee := [];
      processed := {};
      this.maxPoolSize := maxPoolSize;
    }

    /**
     * `find_fee_position`: binary search of the fee-ordered ids for a slot
     * where a transaction of fee `fee` can go without breaking the order.
     */
    method FindFeePosition(fee: U64) returns (pos: nat)
      requires SortedByFee(orderedByFee, pending)
      ensures FeeSlot(orderedByFee, pending, pos, fee)
    {
      var lo, hi := 0, |orderedByFee|;
      while lo < hi
        invariant 0 <= lo <= hi <= |orderedByFee|
        invariant forall i :: 0 <= i < lo ==> FeeOf(pending, orderedByFee[i]) < fee
        invariant forall i :: hi <= i < |orderedByFee| ==> fee < FeeOf(pending, orderedByFee[i])
      {
        var mid := lo + (hi - lo) / 2;
        var midFee := FeeOf(pending, orderedByFee[mid]);
        if midFee < fee {
          lo := mid + 1;
        } else if midFee > fee {
          hi := mid;
        } else {
          return mid;
        }
      }
      pos := lo;
    }

    /**
     * `remove_transaction`: drops the id from the ordering and from
     * `pending`, and marks it processed whether or not it was pending.
     */
    method RemoveTransaction(txId: Bytes32)
      modifies this`pending, this`orderedByFee, this`processed
      ensures View() == Removed(old(View()), txId)
      ensures old(Valid()) ==> Valid() && txId !in orderedByFee
    {
      ghost var before := View();
      var p := Position(orderedByFee, txId);
      if p.Some? {
        RemoveFirstAt(orderedByFee, txId, p.value);
        orderedByFee := orderedByFee[..p.value] + orderedByFee[p.value + 1..];
      }
      pending := pending - {txId};
      processed := processed + {txId};
      if PoolInvariant(before, maxPoolSize) {
        RemovedKeepsInvariant(before, maxPoolSize, txId);
      }
    }

    /**
     * `add_transaction`. A processed id is rejected. A full pool compares
     * the new fee with the cheapest pending one: an equal or lower fee is
     * rejected, a higher one evicts the cheapest entry into `processed`.
     * The transaction then goes into `pending` and into the ordering at a
     * fee-ordered slot. The invariant is kept whenever the id was not
     * already pending. Re-adding a pending id is not guarded against: a
     * full pool whose cheapest fee is at least the new one refuses it with
     * `PoolFull`; a full pool whose head is that same id evicts it into
     * `processed` and puts it back, so the id is pending and processed at
     * once; otherwise the id is filed a second time in the ordering.
     */
    method AddTransaction(tx: Transaction) returns (r: Outcome<PoolError>)
      requires Valid()
      modifies this`pending, this`orderedByFee, this`processed
      ensures r == Fail(AlreadyProcessed) <==> tx.id in old(processed)
      ensures r == Fail(PoolFull) <==>
                tx.id !in old(processed) && old(|pending|) >= maxPoolSize &&
                old(orderedByFee) != [] && old(pending[orderedByFee[0]].fee) >= tx.fee
      ensures r == Pass || r == Fail(AlreadyProcessed) || r == Fail(PoolFull)
      ensures r.Fail? ==> View() == old(View())
      ensures r.Pass? ==>
                exists pos :: FeeSlot(Evicted(old(View()), maxPoolSize).ordered, Evicted(old(View()), maxPoolSize).pending, pos, tx.fee) &&
                  View() == Inserted(Evicted(old(View()), maxPoolSize), tx, pos)
      ensures processed >= old(processed)
      ensures tx.id !in old(pending) ==> Valid()
      ensures tx.id !in old(pending) && r.Pass? ==>
                |pending| == if old(|pending|) >= maxPoolSize && old(orderedByFee) != []
                             then old(|pending|) else old(|pending|) + 1
    {
      ghost var start := View();
      if tx.id in processed {
        return Fail(AlreadyProcessed);
      }
      if |pending| >= maxPoolSize {
        if orderedByFee != [] {
          var lowestFeeId := orderedByFee[0];
          assert lowestFeeId in pending;
          if pending[lowestFeeId].fee >= tx.fee {
            return Fail(PoolFull);
          }
          RemoveTransaction(lowestFeeId);
        }
      }
      assert View() == Evicted(start, maxPoolSize);
      assert SortedByFee(orderedByFee, pending) by {
        if |start.pending| >= maxPoolSize && start.ordered != [] {
          RemovedKeepsInvariant(start, maxPoolSize, start.ordered[0]);
        }
      }
      var txId := tx.id;
      var insertPos := FindFeePosition(tx.fee);
      orderedByFee := orderedByFee[..insertPos] + [txId] + orderedByFee[insertPos..];
      pending := pending[txId := tx];
      assert View() == Inserted(Evicted(start, maxPoolSize), tx, insertPos);
      if tx.id !in start.pending {
        AdmitKeepsInvariant(start, maxPoolSize, tx, insertPos);
      }
      r := Pass;
    }

    /**
     * `get_best_transactions`: up to `maxCount` transactions read from the
     * high-fee end of the ordering, skipping ids that are not pending. In a
     * valid pool nothing is skipped, so the result is the `maxCount`
     * highest-fee transactions in non-increasing fee order.
     */
    method GetBestTransactions(maxCount: nat) returns (best: seq<Transaction>)
      ensures best == TopOf(orderedByFee, pending, maxCount)
      ensures |best| <= maxCount
      ensures Valid() ==> |best| == if maxCount < |orderedByFee| then maxCount else |orderedByFee|
      ensures Valid() ==> |best| == if maxCount < |pending| then maxCount else |pending|
      ensures Valid() ==> forall k :: 0 <= k < |best| ==> best[k] == pending[orderedByFee[|orderedByFee| - 1 - k]]
      ensures Valid() ==> forall k, l :: 0 <= k < l < |best| ==> best[l].fee <= best[k].fee
      ensures Valid() ==> forall k, j :: 0 <= k < |best| && 0 <= j < |orderedByFee| - |best| ==>
                pending[orderedByFee[j]].fee <= best[k].fee
    {
      best := TakeFromTop(orderedByFee, pending, maxCount);
      if Valid() {
        SortedBestAreTop(orderedByFee, pending, maxCount, best);
        OrderingSize(View(), maxPoolSize);
      }
    }
  }
}

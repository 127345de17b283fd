/** mempool.go, orderedTransactionsByFeeRate: the mempool's transactions kept in
    ascending order of fee rate, ties broken by ID. */
module FeeRateIndices {
  import opened Transactions

  predicate RatedLess(feeRate: (nat, nat) -> real, a: Transaction, b: Transaction) {
    var rateA, rateB := feeRate(a.fee, a.mass), feeRate(b.fee, b.mass);
    rateA < rateB || (rateA == rateB && a.id < b.id)
  }

  /** The rates of the list ascend, and transactions of one rate are listed by ascending ID. */
  ghost predicate RatesAscend(feeRate: (nat, nat) -> real, s: seq<Transaction>) {
    forall i, j :: 0 <= i < j < |s| ==>
      && feeRate(s[i].fee, s[i].mass) <= feeRate(s[j].fee, s[j].mass)
      && (feeRate(s[i].fee, s[i].mass) == feeRate(s[j].fee, s[j].mass) ==> s[i].id < s[j].id)
  }

  class FeeRateIndex {
    /** The rate computed from a fee and a mass. Nothing is assumed about it, so the
        rounding of a floating-point division is covered. */
    const feeRate: (nat, nat) -> real
    var txs: seq<Transaction>

    constructor (feeRate: (nat, nat) -> real)
      ensures this.feeRate == feeRate && txs == [] && Valid()
    {
      this.feeRate := feeRate;
      txs := [];
    }

    predicate Less(a: Transaction, b: Transaction) {
      RatedLess(feeRate, a, b)
    }

    /** Strictly ascending, so without duplicates. */
    ghost predicate Ascending(s: seq<Transaction>) {
      forall i, j :: 0 <= i < j < |s| ==> Less(s[i], s[j])
    }

    ghost predicate Valid()
      reads this
    {
      Ascending(txs)
    }

    lemma SortedByRate()
      requires Valid()
      ensures RatesAscend(feeRate, txs)
    {
      forall i, j | 0 <= i < j < |txs|
        ensures feeRate(txs[i].fee, txs[i].mass) <= feeRate(txs[j].fee, txs[j].mass)
        ensures feeRate(txs[i].fee, txs[i].mass) == feeRate(txs[j].fee, txs[j].mass) ==> txs[i].id < txs[j].id
      {
        assert Less(txs[i], txs[j]);
      }
    }

    /** What is below `tx` comes before slot `k`, and nothing else does. */
    ghost predicate SplitAt(s: seq<Transaction>, k: int, tx: Transaction) {
      && 0 <= k <= |s|
      && (forall i :: 0 <= i < k ==> Less(s[i], tx))
      && (forall i :: k <= i < |s| ==> !Less(s[i], tx))
    }

    lemma InsertKeepsAscending(s: seq<Transaction>, k: int, tx: Transaction)
      requires Ascending(s) && SplitAt(s, k, tx) && forall e :: e in s ==> e.id != tx.id
      ensures Ascending(s[..k] + [tx] + s[k..])
    {
      var t := s[..k] + [tx] + s[k..];
      forall i, j | 0 <= i < j < |t| ensures Less(t[i], t[j]) {
        assert t[i] == if i < k then s[i] else if i == k then tx else s[i - 1];
        assert t[j] == if j < k then s[j] else if j == k then tx else s[j - 1];
        if i == k {
          assert s[j - 1] in s && !Less(s[j - 1], tx);
        }
      }
    }

    lemma RemoveKeepsAscending(s: seq<Transaction>, k: int)
      requires Ascending(s) && 0 <= k < |s|
      ensures Ascending(s[..k] + s[k + 1..])
      ensures s[k] !in s[..k] + s[k + 1..]
      ensures multiset(s[..k] + s[k + 1..]) == multiset(s) - multiset{s[k]}
    {
      var t := s[..k] + s[k + 1..];
      assert forall i :: 0 <= i < |t| ==> t[i] == s[if i < k then i else i + 1];
      assert s == s[..k] + [s[k]] + s[k + 1..];
      assert forall i :: 0 <= i < |t| ==> Less(t[i], s[k]) || Less(s[k], t[i]);
    }

    /** A binary search for a listed transaction stops on it. */
    lemma SlotIsExact(s: seq<Transaction>, k: int, tx: Transaction)
      requires Ascending(s) && SplitAt(s, k, tx) && tx in s
      ensures k < |s| && s[k] == tx
    {
      var slot :| 0 <= slot < |s| && s[slot] == tx;
      assert !Less(tx, tx);
      assert k <= slot;
    }

    /** sort.Search with the comparison of findTxIndexInOrderedTransactionsByFeeRate:
        the slot that splits the list into what is below `tx` and what is not. */
    method FindTxIndex(tx: Transaction) returns (index: nat, status: Status)
      requires Valid()
      ensures status.Err? <==> tx.fee == 0 || tx.mass == 0
      ensures status.Ok? ==> SplitAt(txs, index, tx)
      ensures status.Ok? ==>
        forall i :: 0 <= i < |txs| && feeRate(txs[i].fee, txs[i].mass) != feeRate(tx.fee, tx.mass) ==>
          (i < index <==> feeRate(txs[i].fee, txs[i].mass) < feeRate(tx.fee, tx.mass))
    {
      if tx.fee == 0 || tx.mass == 0 {
        return 0, Err("expects a transaction with populated fee and mass");
      }
      var rate := feeRate(tx.fee, tx.mass);
      var lo, hi := 0, |txs|;
      while lo < hi
        invariant 0 <= lo <= hi <= |txs|
        invariant forall k :: 0 <= k < lo ==> Less(txs[k], tx)
        invariant forall k :: hi <= k < |txs| ==> !Less(txs[k], tx)
      {
        var mid := (lo + hi) / 2;
        var element := txs[mid];
        var elementRate := feeRate(element.fee, element.mass);
        if elementRate > rate || (elementRate == rate && tx.id <= element.id) {
          hi := mid;
        } else {
          lo := mid + 1;
        }
      }
      return lo, Ok;
    }

    method Add(tx: Transaction) returns (status: Status)
      requires Valid()
      modifies this
      ensures status.Ok? <==> tx.fee != 0 && tx.mass != 0
      ensures status.Err? ==> txs == old(txs)
      ensures status.Ok? ==> multiset(txs) == multiset(old(txs)) + multiset{tx}
      ensures (forall e :: e in old(txs) ==> e.id != tx.id) ==> Valid() && RatesAscend(feeRate, txs)
    {
      var index;
      index, status := FindTxIndex(tx);
      if status.Err? {
        return;
      }
      if forall e :: e in txs ==> e.id != tx.id {
        InsertKeepsAscending(txs, index, tx);
      }
      assert txs == txs[..index] + txs[index..];
      txs := txs[..index] + [tx] + txs[index..];
      if Valid() {
        SortedByRate();
      }
    }

    /** Fails only when the slot of `tx` is held by another transaction; a slot past
        the end would be an out-of-range access. */
    method Remove(tx: Transaction) returns (status: Status)
      requires Valid()
      requires tx.fee != 0 && tx.mass != 0 ==> exists k :: 0 <= k < |txs| && !Less(txs[k], tx)
      modifies this
      ensures Valid() && RatesAscend(feeRate, txs)
      ensures status.Err? ==> txs == old(txs)
      ensures tx in old(txs) && tx.fee != 0 && tx.mass != 0 ==>
        status.Ok? && multiset(txs) == multiset(old(txs)) - multiset{tx} && tx !in txs
    {
      var index;
      SortedByRate();
      index, status := FindTxIndex(tx);
      if status.Err? {
        return;
      }
      if tx in txs {
        SlotIsExact(txs, index, tx);
      }
      if txs[index].id != tx.id {
        return Err("couldn't find the transaction");
      }
      RemoveKeepsAscending(txs, index);
      txs := txs[..index] + txs[index + 1..];
      SortedByRate();
      return Ok;
    }
  }
}

/** What the mempool's redundant structures have to do with each other. `txs` are
    the transactions of the mempool, chained or not. */
module MempoolInvariant {
  import opened MempoolUtxoSets
  import opened Reachability
  import opened Redeemers
  import opened Transactions

  ghost predicate WellFormed(h: Hashing, txs: map<TxId, Transaction>) {
    forall id :: id in txs ==>
      && txs[id].id == id && h.Populated(txs[id])
      && Distinct(txs[id].inputs) && txs[id].fee > 0 && txs[id].mass > 0
  }

  /** Exactly the inputs of the mempool's transactions, each mapped to its spender. */
  ghost predicate SpendsExact(txs: map<TxId, Transaction>, spentBy: map<Outpoint, Transaction>) {
    && (forall id, op :: id in txs && op in txs[id].inputs ==> op in spentBy && spentBy[op] == txs[id])
    && (forall op :: op in spentBy ==>
          spentBy[op].id in txs && txs[spentBy[op].id] == spentBy[op] && op in spentBy[op].inputs)
  }

  /** Exactly the outputs the mempool's transactions create. */
  ghost predicate OutputsExact(txs: map<TxId, Transaction>, unspent: map<Outpoint, UTXOEntry>) {
    && (forall op :: op in unspent <==> op.txId in txs && op.index < |txs[op.txId].outputs|)
    && (forall op :: op in unspent ==> unspent[op] == PoolEntry(txs[op.txId].outputs[op.index]))
  }

  /** The list holds exactly the mempool's transactions. */
  ghost predicate ListExact(txs: map<TxId, Transaction>, ordered: seq<Transaction>) {
    forall tx :: tx in ordered <==> tx.id in txs && txs[tx.id] == tx
  }

  ghost predicate Core(h: Hashing, txs: map<TxId, Transaction>, spentBy: map<Outpoint, Transaction>,
                       unspent: map<Outpoint, UTXOEntry>, ordered: seq<Transaction>)
  {
    WellFormed(h, txs) && SpendsExact(txs, spentBy) && OutputsExact(txs, unspent) && ListExact(txs, ordered)
  }

  /** No two mempool transactions spend one outpoint. */
  lemma NoDoubleSpend(txs: map<TxId, Transaction>, spentBy: map<Outpoint, Transaction>, a: TxId, b: TxId, op: Outpoint)
    requires SpendsExact(txs, spentBy) && a in txs && b in txs && txs[a].id == a && txs[b].id == b
    requires op in txs[a].inputs && op in txs[b].inputs
    ensures a == b
  {
    assert spentBy[op] == txs[a] == txs[b];
  }

  lemma SpendsAdd(txs: map<TxId, Transaction>, spentBy: map<Outpoint, Transaction>, tx: Transaction)
    requires SpendsExact(txs, spentBy) && tx.id !in txs && forall op :: op in tx.inputs ==> op !in spentBy
    ensures SpendsExact(txs[tx.id := tx], spentBy + Spends(tx))
  {
  }

  lemma ListAdd(txs: map<TxId, Transaction>, ordered: seq<Transaction>,
  tx: Transaction, ordered': seq<Transaction>)
    requires ListExact(txs, ordered) && tx.id !in txs
    requires multiset(ordered') == multiset(ordered) + multiset{tx}
    ensures ListExact(txs[tx.id := tx], ordered')
  {
    forall e ensures e in ordered' <==> e in ordered || e == tx {
      assert e in ordered' <==> e in multiset(ordered');
      assert e in ordered <==> e in multiset(ordered);
    }
  }

  lemma CoreAdd(h: Hashing, txs: map<TxId, Transaction>, spentBy: map<Outpoint, Transaction>,
                unspent: map<Outpoint, UTXOEntry>, ordered: seq<Transaction>,
                tx: Transaction, ordered': seq<Transaction>)
    requires Core(h, txs, spentBy, unspent, ordered) && tx.id !in txs
    requires h.Populated(tx) && Distinct(tx.inputs) && tx.fee > 0 && tx.mass > 0
    requires forall op :: op in tx.inputs ==> op !in spentBy
    requires multiset(ordered') == multiset(ordered) + multiset{tx}
    ensures Core(h, txs[tx.id := tx], spentBy + Spends(tx), unspent + Creates(tx), ordered')
  {
    SpendsAdd(txs, spentBy, tx);
    ListAdd(txs, ordered, tx, ordered');
    assert WellFormed(h, txs[tx.id := tx]);
  }

  lemma SetsRemove(txs: map<TxId, Transaction>, spentBy: map<Outpoint, Transaction>,
                   unspent: map<Outpoint, UTXOEntry>, tx: Transaction)
    requires SpendsExact(txs, spentBy) && OutputsExact(txs, unspent) && tx.id in txs && txs[tx.id] == tx
    requires forall id :: id in txs ==> txs[id].id == id
    ensures SpendsExact(txs - {tx.id}, spentBy - Spends(tx).Keys)
    ensures OutputsExact(txs - {tx.id}, unspent - Creates(tx).Keys)
  {
  }

  lemma CoreRemove(h: Hashing, txs: map<TxId, Transaction>, spentBy: map<Outpoint, Transaction>,
                   unspent: map<Outpoint, UTXOEntry>, ordered: seq<Transaction>,
                   tx: Transaction, ordered': seq<Transaction>)
    requires Core(h, txs, spentBy, unspent, ordered) && tx.id in txs && txs[tx.id] == tx
    requires multiset(ordered') == multiset(ordered) - multiset{tx} && tx !in ordered'
    ensures Core(h, txs - {tx.id}, spentBy - Spends(tx).Keys, unspent - Creates(tx).Keys, ordered')
  {
    hide Spends, Creates;
    var txs' := txs - {tx.id};
    assert SpendsExact(txs', spentBy - Spends(tx).Keys) && OutputsExact(txs', unspent - Creates(tx).Keys) by {
      SetsRemove(txs, spentBy, unspent, tx);
    }
    assert ListExact(txs', ordered') by {
      forall e ensures e in ordered' <==> e.id in txs' && txs'[e.id] == e {
        assert e in ordered' <==> e in multiset(ordered');
        assert e in ordered <==> e in multiset(ordered);
      }
    }
  }

  /** Redeemers are hashed after what they redeem. */
  lemma RankRises(h: Hashing, txs: map<TxId, Transaction>, a: TxId, b: TxId)
    requires WellFormed(h, txs) && Reaches(RedeemEdges(txs), a, b)
    ensures a == b || h.rank(a) < h.rank(b)
  {
    ReachesStaysInside(RedeemEdges(txs), x => x == a || h.rank(a) < h.rank(x), a, b);
  }

  /** Once the closure of the redeemer of output `i` of `root` is removed, `root` is
      still there and nothing spends its first `i + 1` outputs. */
  lemma RedeemerGone(h: Hashing, before: map<TxId, Transaction>, root: TxId, i: nat,
                     stage: map<TxId, Transaction>, spentBy: map<Outpoint, Transaction>,
                     left: map<TxId, Transaction>, spentBy': map<Outpoint, Transaction>)
    requires WellFormed(h, stage) && SpendsExact(stage, spentBy) && SpendsExact(left, spentBy')
    requires root in before && root in stage && before[root] == stage[root]
    requires Pruning(before, root, stage - {root})
    requires i < |before[root].outputs| && Outpoint(root, i) in spentBy
    requires IsWithoutClosure(stage, spentBy[Outpoint(root, i)].id, left)
    requires forall op :: op in spentBy ==> !(op.txId == root && op.index < i)
    ensures root in left && Pruning(before, root, left - {root})
    ensures forall op :: op in spentBy' ==> !(op.txId == root && op.index < i + 1)
  {
    var redeemer := spentBy[Outpoint(root, i)].id;
    if Reaches(RedeemEdges(stage), redeemer, root) {
      RankRises(h, stage, redeemer, root);
      assert false;
    }
    assert Redeems(before, root, redeemer);
    PruningStep(before, root, stage - {root}, stage, redeemer, left - {root});
    ReachesSelf(RedeemEdges(stage), redeemer);
    SpendsShrink(stage, spentBy, left, spentBy');
  }

  lemma SpendsShrink(txs: map<TxId, Transaction>, spentBy: map<Outpoint, Transaction>,
                     left: map<TxId, Transaction>, spentBy': map<Outpoint, Transaction>)
    requires SpendsExact(txs, spentBy) && SpendsExact(left, spentBy') && SubMap(left, txs)
    ensures SubMap(spentBy', spentBy)
    ensures forall op :: op in spentBy && spentBy[op].id !in left ==> op !in spentBy'
  {
    forall op | op in spentBy' ensures op in spentBy && spentBy[op] == spentBy'[op] {
      assert op in txs[spentBy'[op].id].inputs;
    }
  }

  /** A transaction none of whose outputs is spent has no redeemer. */
  lemma NoRedeemer(txs: map<TxId, Transaction>, spentBy: map<Outpoint, Transaction>, root: TxId)
    requires SpendsExact(txs, spentBy) && root in txs
    requires forall op :: op in spentBy ==> !(op.txId == root && op.index < |txs[root].outputs|)
    ensures forall b :: b in txs ==> !Redeems(txs, root, b)
  {
    forall b, j | b in txs && 0 <= j < |txs[root].outputs| ensures Outpoint(root, j) !in txs[b].inputs {
    }
  }

  ghost predicate SharesInput(tx: Transaction, k: nat, other: Transaction)
    requires k <= |tx.inputs|
  {
    exists j :: 0 <= j < k && tx.inputs[j] in other.inputs
  }

  /** The transactions other than `tx` that spend one of its first `k` inputs. */
  ghost function DoubleSpenders(txs: map<TxId, Transaction>, tx: Transaction, k: nat): set<TxId>
    requires k <= |tx.inputs|
  {
    set id | id in txs && id != tx.id && SharesInput(tx, k, txs[id])
  }

  /** If anything spends one of the first `k` inputs of `tx`, it is `tx`. */
  ghost predicate OnlySelf(spentBy: map<Outpoint, Transaction>, tx: Transaction, k: nat)
    requires k <= |tx.inputs|
  {
    forall j :: 0 <= j < k && tx.inputs[j] in spentBy ==> spentBy[tx.inputs[j]].id == tx.id
  }

  lemma NoDoubleSpenderLeft(before: map<TxId, Transaction>, txs: map<TxId, Transaction>,
                            spentBy: map<Outpoint, Transaction>,
                            tx: Transaction, k: nat)
    requires SubMap(txs, before) && SpendsExact(txs, spentBy) && k <= |tx.inputs|
    requires forall id :: id in txs ==> txs[id].id == id
    requires OnlySelf(spentBy, tx, k)
    ensures forall s :: s in DoubleSpenders(before, tx, k) ==> s !in txs
  {
    forall s | s in DoubleSpenders(before, tx, k) ensures s !in txs {
      var j :| 0 <= j < k && tx.inputs[j] in before[s].inputs;
    }
  }

  /** What spends one of the first `k` inputs of `tx` is gone from `txs`, with its redeemers. */
  ghost predicate SpendersOut(before: map<TxId, Transaction>, tx: Transaction, k: nat,
                              txs: map<TxId, Transaction>, spentBy: map<Outpoint, Transaction>)
  {
    && k <= |tx.inputs|
    && IsWithoutClosureOf(before, DoubleSpenders(before, tx, k), txs)
    && OnlySelf(spentBy, tx, k)
  }

  lemma OnlySelfNext(spentBy: map<Outpoint, Transaction>, spentBy': map<Outpoint, Transaction>, tx: Transaction, k: nat)
    requires k < |tx.inputs| && OnlySelf(spentBy, tx, k) && SubMap(spentBy', spentBy)
    requires tx.inputs[k] in spentBy' ==> spentBy'[tx.inputs[k]].id == tx.id
    ensures OnlySelf(spentBy', tx, k + 1)
  {
  }

  lemma DoubleSpendersGrow(txs: map<TxId, Transaction>, tx: Transaction, k: nat)
    requires k < |tx.inputs|
    ensures DoubleSpenders(txs, tx, k) <= DoubleSpenders(txs, tx, k + 1)
  {
    forall id | id in txs && SharesInput(tx, k, txs[id]) ensures SharesInput(tx, k + 1, txs[id]) {
      var j :| 0 <= j < k && tx.inputs[j] in txs[id].inputs;
    }
  }

  lemma SpendersOutSame(before: map<TxId, Transaction>, tx: Transaction, k: nat,
                        txs: map<TxId, Transaction>, spentBy: map<Outpoint, Transaction>)
    requires SpendersOut(before, tx, k, txs, spentBy) && k < |tx.inputs|
    requires SpendsExact(txs, spentBy) && forall id :: id in txs ==> txs[id].id == id
    requires tx.inputs[k] in spentBy ==> spentBy[tx.inputs[k]].id == tx.id
    ensures SpendersOut(before, tx, k + 1, txs, spentBy)
  {
    OnlySelfNext(spentBy, spentBy, tx, k);
    DoubleSpendersGrow(before, tx, k);
    NoDoubleSpenderLeft(before, txs, spentBy, tx, k + 1);
    ClosureOfMoreSeeds(before, DoubleSpenders(before, tx, k), DoubleSpenders(before, tx, k + 1), txs);
  }

  lemma SpendersOutNext(before: map<TxId, Transaction>, tx: Transaction, k: nat,
                        txs: map<TxId, Transaction>, spentBy: map<Outpoint, Transaction>,
                        left: map<TxId, Transaction>, spentBy': map<Outpoint, Transaction>)
    requires SpendersOut(before, tx, k, txs, spentBy) && k < |tx.inputs|
    requires SpendsExact(txs, spentBy) && SpendsExact(left, spentBy') && forall id :: id in txs ==> txs[id].id == id
    requires tx.inputs[k] in spentBy && spentBy[tx.inputs[k]].id != tx.id
    requires IsWithoutClosure(txs, spentBy[tx.inputs[k]].id, left)
    ensures SpendersOut(before, tx, k + 1, left, spentBy')
  {
    var redeemer := spentBy[tx.inputs[k]].id;
    ClosureIsSmaller(txs, redeemer, left);
    SpendsShrink(txs, spentBy, left, spentBy');
    OnlySelfNext(spentBy, spentBy', tx, k);
    NoDoubleSpenderLeft(before, left, spentBy', tx, k + 1);
    SeedRemoved(before, tx, k, txs, redeemer, left);
  }

  lemma SeedRemoved(before: map<TxId, Transaction>, tx: Transaction, k: nat,
                    txs: map<TxId, Transaction>, redeemer: TxId, left: map<TxId, Transaction>)
    requires k < |tx.inputs| && IsWithoutClosureOf(before, DoubleSpenders(before, tx, k), txs)
    requires redeemer in txs && redeemer != tx.id && tx.inputs[k] in txs[redeemer].inputs
    requires IsWithoutClosure(txs, redeemer, left)
    requires forall s :: s in DoubleSpenders(before, tx, k + 1) ==> s !in left
    ensures IsWithoutClosureOf(before, DoubleSpenders(before, tx, k + 1), left)
  {
    ClosureStep(before, DoubleSpenders(before, tx, k), txs, redeemer, left);
    DoubleSpendersGrow(before, tx, k);
    assert SharesInput(tx, k + 1, before[redeemer]);
    ClosureOfMoreSeeds(before, DoubleSpenders(before, tx, k) + {redeemer}, DoubleSpenders(before, tx, k + 1), left);
  }
}

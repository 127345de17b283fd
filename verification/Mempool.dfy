/** mempool.go: the transaction mempool. */
module Mempools {
  import opened BlockProcessing
  import opened FeeRateIndices
  import opened MempoolInvariant
  import opened MempoolUtxoSets
  import opened OrphanPools
  import opened OrphanProcessing
  import opened Reachability
  import opened Redeemers
  import opened Transactions
  import opened TxChains
  import opened Validation

  /** What was there when a call began: the mempool's transactions, the orphans, the outpoints
      they spend, and the transactions consensus had accepted. */
  datatype Snapshot =
    Snapshot(txs: map<TxId, Transaction>, orphans: map<TxId, OrphanTx>, buckets: set<Outpoint>,
             accepted: seq<Transaction>)

  /** A transaction of `txs` that is not in `before` spends only what was accepted after the first `n`. */
  ghost predicate NewAreAccepted(before: map<TxId, Transaction>, txs: map<TxId, Transaction>,
                                 accepted: seq<Transaction>, n: nat)
  {
    forall id :: id in txs ==> (id in before && before[id] == txs[id]) || Inputs(txs[id]) <= SpentSince(accepted, n)
  }

  lemma NewAreAcceptedStep(before: map<TxId, Transaction>, txs: map<TxId, Transaction>, txs': map<TxId, Transaction>,
                           accepted: seq<Transaction>, accepted': seq<Transaction>, n: nat)
    requires NewAreAccepted(before, txs, accepted, n) && SubMap(txs', txs) && accepted <= accepted'
    ensures NewAreAccepted(before, txs', accepted', n)
  {
    SpentSinceGrows(accepted, accepted', n);
  }

  lemma NewAreAcceptedAdd(before: map<TxId, Transaction>, txs: map<TxId, Transaction>, txs': map<TxId, Transaction>,
                          accepted: seq<Transaction>, tx: Transaction, populated: Transaction, n: nat)
    requires NewAreAccepted(before, txs, accepted, n) && SubMap(txs', txs[tx.id := populated]) && n <= |accepted|
    requires populated.inputs == tx.inputs
    ensures NewAreAccepted(before, txs', accepted + [tx], n)
  {
    SpentSinceGrows(accepted, accepted + [tx], n);
    SpentSinceLast(accepted, tx, n);
  }

  /** What is newly spent was accepted. */
  lemma NewlySpentIsAccepted(before: map<TxId, Transaction>, spentBy: map<Outpoint, Transaction>,
                             txs: map<TxId, Transaction>, spentBy': map<Outpoint, Transaction>,
                             accepted: seq<Transaction>, n: nat)
    requires SpendsExact(before, spentBy) && SpendsExact(txs, spentBy') && NewAreAccepted(before, txs, accepted, n)
    ensures spentBy'.Keys <= spentBy.Keys + SpentSince(accepted, n)
  {
    forall op | op in spentBy' ensures op in spentBy || op in SpentSince(accepted, n) {
      var id := spentBy'[op].id;
      assert op in Inputs(txs[id]);
    }
  }

  /** Neither the transactions `mined` nor spenders of `done` are in the mempool, unless they spend
      what consensus accepted after the first `n`. */
  ghost predicate SpendsSettled(mined: set<TxId>, done: set<Outpoint>, txs: map<TxId, Transaction>,
                                spentBy: map<Outpoint, Transaction>, accepted: seq<Transaction>, n: nat)
  {
    && (forall id :: id in txs && id in mined ==> Inputs(txs[id]) <= SpentSince(accepted, n))
    && (forall op :: op in done && op in spentBy ==> op in SpentSince(accepted, n))
  }

  lemma WithoutMined(policy: Policy, txs: map<TxId, Transaction>, mined: set<TxId>)
    requires WithinBounds(policy, txs)
    ensures |txs - mined| <= |txs| && WithinBounds(policy, txs - mined)
    ensures forall id :: id in mined ==> id !in txs - mined
  {
    SubMapIsSmaller(txs - mined, txs);
  }

  lemma NothingSettled(mined: set<TxId>, txs: map<TxId, Transaction>, spentBy: map<Outpoint, Transaction>,
                       accepted: seq<Transaction>)
    requires forall id :: id in mined ==> id !in txs
    ensures SpendsSettled(mined, {}, txs, spentBy, accepted, |accepted|)
  {
  }

  lemma SettledAfterRemoval(mined: set<TxId>, done: set<Outpoint>, accepted: seq<Transaction>, n: nat, tx: Transaction,
                            txs: map<TxId, Transaction>, spentBy: map<Outpoint, Transaction>,
                            txs': map<TxId, Transaction>, spentBy': map<Outpoint, Transaction>)
    requires SpendsSettled(mined, done, txs, spentBy, accepted, n) && tx.id in mined
    requires SpendsExact(txs, spentBy) && SpendsExact(txs', spentBy') && SubMap(txs', txs)
    requires forall op :: op in tx.inputs && op in spentBy' ==> spentBy'[op].id == tx.id
    ensures SpendsSettled(mined, done + Inputs(tx), txs', spentBy', accepted, n)
  {
    SpendsShrink(txs, spentBy, txs', spentBy');
    forall op | op in Inputs(tx) && op in spentBy' ensures op in SpentSince(accepted, n) {
      assert op in Inputs(txs'[tx.id]);
    }
  }

  lemma SettledAfterAcceptance(mined: set<TxId>, done: set<Outpoint>, n: nat,
                               txs: map<TxId, Transaction>, spentBy: map<Outpoint, Transaction>,
                               accepted: seq<Transaction>,
                               txs': map<TxId, Transaction>, spentBy': map<Outpoint, Transaction>,
                               accepted': seq<Transaction>)
    requires SpendsSettled(mined, done, txs, spentBy, accepted, n) && n <= |accepted| && accepted <= accepted'
    requires SpendsExact(txs, spentBy) && SpendsExact(txs', spentBy')
    requires NewAreAccepted(txs, txs', accepted', |accepted|)
    ensures SpendsSettled(mined, done, txs', spentBy', accepted', n)
  {
    SpentSinceGrows(accepted, accepted', n);
    SpentSinceLonger(accepted', n, |accepted|);
    NewlySpentIsAccepted(txs, spentBy, txs', spentBy', accepted', |accepted|);
  }

  /** What ValidateAndInsertTransaction returns. */
  datatype InsertResult = Inserted | Orphaned | Refused | Broken

  lemma EnteredWithRoom(before: map<TxId, Transaction>, orphans: map<TxId, OrphanTx>, tx: Transaction,
                        mid: map<TxId, Transaction>, after: map<TxId, Transaction>)
    ensures tx.id !in before && mid == before[tx.id := tx] && |before| + |orphans| < TRANSACTION_LIMIT ==>
      && |mid| + |orphans| <= TRANSACTION_LIMIT
      && (SubMap(mid, after) ==> SubMap(before, after) && tx.id in after && after[tx.id] == tx)
  {
    assert tx.id !in before ==> before[tx.id := tx].Keys == before.Keys + {tx.id};
    assert mid == before[tx.id := tx] ==> tx.id in mid;
  }

  lemma MinedHolds(txs: seq<Transaction>, i: nat)
    requires i < |txs|
    ensures txs[i].id in IdsOf(txs)
  {
    assert txs[i] in txs;
  }

  lemma IdsOfNext(txs: seq<Transaction>, i: nat)
    requires 1 <= i < |txs|
    ensures IdsOf(txs[1..i + 1]) == IdsOf(txs[1..i]) + {txs[i].id}
  {
    assert txs[1..i + 1] == txs[1..i] + [txs[i]];
  }

  class Mempool {
    ghost const hashing: Hashing
    const utxoSet: MempoolUTXOSet
    const feeRates: FeeRateIndex
    const orphanPool: OrphanPool
    const consensus: Consensus
    const policy: Policy
    var pool: Descriptors
    var chainedTransactions: Descriptors
    var chainedTransactionByPreviousOutpoint: ByPrevious

    constructor (ghost hashing: Hashing, consensus: Consensus, policy: Policy,
                 feeRate: (nat, nat) -> real, maxOrphanTxs: int, now: int)
      requires consensus.Lawful(hashing) && policy.minRelayTxFee > 0
      ensures this.hashing == hashing && this.consensus == consensus && this.policy == policy
      ensures orphanPool.maxOrphanTxs == maxOrphanTxs && orphanPool.nextExpireScan == now + 300_000
      ensures feeRates.feeRate == feeRate
      ensures fresh(utxoSet) && fresh(feeRates) && fresh(orphanPool)
      ensures Valid() && OrphansApart() && ChainExact() && ChainComplete()
      ensures Txs() == map[] && orphanPool.orphans == map[]
    {
      hide Valid, OrphansApart, ChainExact, ChainComplete, PoolTxs;
      this.hashing, this.consensus, this.policy := hashing, consensus, policy;
      utxoSet := new MempoolUTXOSet();
      feeRates := new FeeRateIndex(feeRate);
      orphanPool := new OrphanPool(maxOrphanTxs, now);
      pool, chainedTransactions, chainedTransactionByPreviousOutpoint := map[], map[], map[];
      new;
      StartsValid();
    }

    lemma StartsValid()
      requires pool == map[] && chainedTransactions == map[] && chainedTransactionByPreviousOutpoint == map[]
      requires utxoSet.transactionByPreviousOutpoint == map[] && utxoSet.poolUnspentOutputs == map[]
      requires feeRates.txs == [] && orphanPool.Valid() && orphanPool.orphans == map[] && RulesValid()
      ensures Valid() && OrphansApart() && ChainExact() && ChainComplete() && Txs() == map[]
    {
    }

    /** The transactions of the mempool. */
    ghost function Txs(): map<TxId, Transaction>
      reads this
    {
      PoolTxs(pool, chainedTransactions)
    }

    /** What decides about transactions. */
    ghost function Deciding(): Rules {
      Rules(consensus.answers, policy, feeRates.feeRate)
    }

    /** The transactions and orphans at this moment. */
    ghost function Now(): Situation
      reads this, orphanPool, consensus
    {
      Situation(Txs(), orphanPool.orphans, consensus.calls, consensus.failures)
    }

    ghost predicate DescriptorsValid()
      reads this
    {
      && pool.Keys !! chainedTransactions.Keys
      && (forall id :: id in pool ==> pool[id].tx.id == id)
      && (forall id :: id in chainedTransactions ==> chainedTransactions[id].tx.id == id)
      && (forall op :: op in chainedTransactionByPreviousOutpoint ==>
            hashing.Populated(chainedTransactionByPreviousOutpoint[op].tx))
    }

    /** The invariant that every operation keeps, whatever a block contains. */
    ghost predicate CoreValid()
      reads this, utxoSet, feeRates
    {
      && DescriptorsValid()
      && Core(hashing, Txs(), utxoSet.transactionByPreviousOutpoint, utxoSet.poolUnspentOutputs, feeRates.txs)
      && feeRates.Valid()
    }

    /** The bookkeeping of chained transactions is exact. */
    ghost predicate ChainExact()
      reads this, chainedTransactions.Values
    {
      && Links(Txs(), chainedTransactions, chainedTransactionByPreviousOutpoint)
      && CountsExact(DepCounts(chainedTransactions), chainedTransactions, chainedTransactionByPreviousOutpoint)
    }

    /** Pool transactions have no mempool parents, and chained ones wait for all of theirs. */
    ghost predicate ChainComplete()
      reads this
    {
      ParentsRecorded(Txs(), PoolsNow())
    }

    method RemoveChainTransaction(tx: Transaction)
      modifies this`chainedTransactions, this`chainedTransactionByPreviousOutpoint
      ensures chainedTransactions == old(chainedTransactions) - {tx.id}
      ensures DepCounts(chainedTransactions) == old(DepCounts(chainedTransactions)) - {tx.id}
      ensures chainedTransactionByPreviousOutpoint
              == old(chainedTransactionByPreviousOutpoint) - set op | op in tx.inputs
    {
      chainedTransactions := chainedTransactions - {tx.id};
      for k := 0 to |tx.inputs|
        invariant chainedTransactions == old(chainedTransactions) - {tx.id}
        invariant chainedTransactionByPreviousOutpoint
                  == old(chainedTransactionByPreviousOutpoint) - set op | op in tx.inputs[..k]
      {
        assert tx.inputs[..k + 1] == tx.inputs[..k] + [tx.inputs[k]];
        chainedTransactionByPreviousOutpoint := chainedTransactionByPreviousOutpoint - {tx.inputs[k]};
      }
      assert tx.inputs[..|tx.inputs|] == tx.inputs;
    }

    method DeleteFromPools(id: TxId)
      modifies this`pool, this`chainedTransactions
      ensures pool == old(pool) - {id} && chainedTransactions == old(chainedTransactions) - {id}
      ensures DepCounts(chainedTransactions) == old(DepCounts(chainedTransactions)) - {id}
      ensures Txs() == old(Txs()) - {id}
      ensures old(DescriptorsValid()) ==> DescriptorsValid()
    {
      pool := pool - {id};
      chainedTransactions := chainedTransactions - {id};
    }

    /** Takes `tx` out of every structure; `txs` is the mempool it was part of. */
    lemma CanLeave(tx: Transaction, txs: map<TxId, Transaction>)
      requires Core(hashing, txs, utxoSet.transactionByPreviousOutpoint, utxoSet.poolUnspentOutputs, feeRates.txs)
      requires tx.id in txs && txs[tx.id] == tx
      ensures Distinct(tx.inputs) && utxoSet.InputsSpent(tx) && utxoSet.OutputsExist(tx)
    {
    }

    method CleanTransactionFromSets(tx: Transaction, ghost txs: map<TxId, Transaction>) returns (status: Status)
      requires Core(hashing, txs, utxoSet.transactionByPreviousOutpoint, utxoSet.poolUnspentOutputs, feeRates.txs)
      requires feeRates.Valid() && tx.id in txs && txs[tx.id] == tx
      modifies this`pool, this`chainedTransactions, utxoSet, feeRates
      ensures status.Ok?
      ensures Core(hashing, txs - {tx.id}, utxoSet.transactionByPreviousOutpoint, utxoSet.poolUnspentOutputs,
                   feeRates.txs)
      ensures feeRates.Valid()
      ensures pool == old(pool) - {tx.id} && chainedTransactions == old(chainedTransactions) - {tx.id}
      ensures DepCounts(chainedTransactions) == old(DepCounts(chainedTransactions)) - {tx.id}
      ensures Txs() == old(Txs()) - {tx.id}
      ensures old(DescriptorsValid()) ==> DescriptorsValid()
    {
      hide DepCounts;
      CanLeave(tx, txs);
      status := utxoSet.RemoveTx(tx);
      if status.Err? {
        return;
      }
      DeleteFromPools(tx.id);
      status := RemoveFromOrdered(tx, txs);
      CoreRemove(hashing, txs, old(utxoSet.transactionByPreviousOutpoint), old(utxoSet.poolUnspentOutputs),
                 old(feeRates.txs), tx, feeRates.txs);
    }

    method RemoveFromOrdered(tx: Transaction, ghost txs: map<TxId, Transaction>) returns (status: Status)
      requires feeRates.Valid() && ListExact(txs, feeRates.txs)
      requires tx.id in txs && txs[tx.id] == tx && tx.fee > 0 && tx.mass > 0
      modifies feeRates
      ensures status.Ok? && feeRates.Valid()
      ensures multiset(feeRates.txs) == multiset(old(feeRates.txs)) - multiset{tx} && tx !in feeRates.txs
    {
      assert tx in feeRates.txs;
      ghost var slot :| 0 <= slot < |feeRates.txs| && feeRates.txs[slot] == tx;
      assert !feeRates.Less(feeRates.txs[slot], tx);
      status := feeRates.Remove(tx);
    }

    /** Mempool transactions at least as deep as `id` in the spending order. */
    ghost function AtOrAbove(id: TxId): set<TxId>
      reads this
    {
      set x | x in Txs() && hashing.rank(x) >= hashing.rank(id)
    }

    /** The removal of `root` has come so far that the first `i` of its outputs are unspent. */
    ghost predicate RedeemersRemoved(before: map<TxId, Transaction>, root: TxId, i: nat)
      reads this, utxoSet, feeRates
    {
      && CoreValid()
      && root in before && root in Txs() && Txs()[root] == before[root]
      && Pruning(before, root, Txs() - {root})
      && forall op :: op in utxoSet.transactionByPreviousOutpoint ==> !(op.txId == root && op.index < i)
    }

    /** Removes `tx` and exactly the mempool transactions that transitively redeem it. */
    method RemoveTransactionAndItsChainedTransactions(tx: Transaction) returns (status: Status)
      requires CoreValid() && tx.id in Txs() && Txs()[tx.id] == tx
      modifies this`pool, this`chainedTransactions, this`chainedTransactionByPreviousOutpoint, utxoSet, feeRates
      ensures status.Ok?
      ensures CoreValid()
      ensures SubMap(pool, old(pool)) && SubMap(chainedTransactions, old(chainedTransactions))
      ensures IsWithoutClosure(old(Txs()), tx.id, Txs())
      ensures old(ChainExact()) ==> ChainExact()
      ensures old(ChainComplete()) ==> ChainComplete()
      decreases AtOrAbove(tx.id), 1
    {
      ghost var before := Txs();
      RedeemersRemovedInitially(tx.id);
      for i := 0 to |tx.outputs|
        invariant RedeemersRemoved(before, tx.id, i)
        invariant SubMap(pool, old(pool)) && SubMap(chainedTransactions, old(chainedTransactions))
        invariant AtOrAbove(tx.id) <= old(AtOrAbove(tx.id))
        invariant old(ChainExact()) ==> ChainExact()
        invariant old(ChainComplete()) ==> ChainComplete()
      {
        status := RemoveRedeemer(before, tx, i);
        if status.Err? {
          return;
        }
      }
      status := FinishRemoval(before, tx);
    }

    lemma RedeemersRemovedInitially(root: TxId)
      requires CoreValid() && root in Txs()
      ensures RedeemersRemoved(Txs(), root, 0)
    {
      PruningStarts(Txs(), root);
    }

    /** Removes what redeems output `i` of `tx`, if anything does. */
    method RemoveRedeemer(ghost before: map<TxId, Transaction>, tx: Transaction, i: nat) returns (status: Status)
      requires RedeemersRemoved(before, tx.id, i) && before[tx.id] == tx && i < |tx.outputs|
      modifies this`pool, this`chainedTransactions, this`chainedTransactionByPreviousOutpoint, utxoSet, feeRates
      ensures status.Ok?
      ensures RedeemersRemoved(before, tx.id, i + 1)
      ensures SubMap(pool, old(pool)) && SubMap(chainedTransactions, old(chainedTransactions))
      ensures AtOrAbove(tx.id) <= old(AtOrAbove(tx.id))
      ensures old(ChainExact()) ==> ChainExact()
      ensures old(ChainComplete()) ==> ChainComplete()
      decreases AtOrAbove(tx.id), 0
    {
      var prevOut := Outpoint(tx.id, i);
      if prevOut !in utxoSet.transactionByPreviousOutpoint {
        return Ok;
      }
      var redeemer := utxoSet.transactionByPreviousOutpoint[prevOut];
      ghost var stage, spentBy := Txs(), utxoSet.transactionByPreviousOutpoint;
      assert hashing.rank(tx.id) < hashing.rank(redeemer.id);
      assert tx.id in AtOrAbove(tx.id) - AtOrAbove(redeemer.id);
      status := RemoveTransactionAndItsChainedTransactions(redeemer);
      RedeemerGone(hashing, before, tx.id, i, stage, spentBy, Txs(), utxoSet.transactionByPreviousOutpoint);
    }

    /** The last step: nothing spends an output of `tx` any more. */
    method FinishRemoval(ghost before: map<TxId, Transaction>, tx: Transaction) returns (status: Status)
      requires RedeemersRemoved(before, tx.id, |tx.outputs|) && before[tx.id] == tx
      modifies this`pool, this`chainedTransactions, this`chainedTransactionByPreviousOutpoint, utxoSet, feeRates
      ensures status.Ok?
      ensures CoreValid()
      ensures pool == old(pool) - {tx.id} && chainedTransactions == old(chainedTransactions) - {tx.id}
      ensures IsWithoutClosure(before, tx.id, Txs())
      ensures old(ChainExact()) ==> ChainExact()
      ensures old(ChainComplete()) ==> ChainComplete()
    {
      NoRedeemer(Txs(), utxoSet.transactionByPreviousOutpoint, tx.id);
      status := RemoveLeaf(tx);
      PruningEnds(before, tx.id, Txs());
    }

    method RemoveLeaf(tx: Transaction) returns (status: Status)
      requires CoreValid() && tx.id in Txs() && Txs()[tx.id] == tx
      requires forall b :: b in Txs() ==> !Redeems(Txs(), tx.id, b)
      modifies this`pool, this`chainedTransactions, this`chainedTransactionByPreviousOutpoint, utxoSet, feeRates
      ensures status.Ok?
      ensures CoreValid() && Txs() == old(Txs()) - {tx.id}
      ensures pool == old(pool) - {tx.id} && chainedTransactions == old(chainedTransactions) - {tx.id}
      ensures old(ChainExact()) ==> ChainExact()
      ensures old(ChainComplete()) ==> ChainComplete()
    {
      hide Core, ParentsRecorded, ChainExact, DepCounts, WithoutRecords;
      LinksWithout(tx);
      CompleteWithout(tx);
      status := RemoveUnredeemed(tx);
      ExactNow();
    }

    lemma LinksWithout(tx: Transaction)
      requires CoreValid() && tx.id in Txs() && Txs()[tx.id] == tx
      requires forall b :: b in Txs() ==> !Redeems(Txs(), tx.id, b)
      ensures ChainExact() ==>
        var byPrev := WithoutRecords(chainedTransactions, chainedTransactionByPreviousOutpoint, tx);
        && Links(Txs() - {tx.id}, chainedTransactions - {tx.id}, byPrev)
        && CountsExact(DepCounts(chainedTransactions) - {tx.id}, chainedTransactions - {tx.id}, byPrev)
    {
      if ChainExact() {
        LinksAfterRemoval(Txs(), utxoSet.transactionByPreviousOutpoint, chainedTransactions,
                          chainedTransactionByPreviousOutpoint, tx);
        CountsAfterRemoval(DepCounts(chainedTransactions), chainedTransactions, chainedTransactionByPreviousOutpoint,
                           WithoutRecords(chainedTransactions, chainedTransactionByPreviousOutpoint, tx), tx.id);
      }
    }

    lemma CompleteWithout(tx: Transaction)
      requires CoreValid() && tx.id in Txs() && Txs()[tx.id] == tx
      ensures ChainComplete() ==>
        ParentsRecorded(Txs() - {tx.id},
                        Pools(pool - {tx.id}, chainedTransactions - {tx.id},
                              WithoutRecords(chainedTransactions, chainedTransactionByPreviousOutpoint, tx)))
    {
      hide ParentsRecorded, WithoutRecords, SpendsExact;
      if ChainComplete() {
        RecordedAfterRemoval(Txs(), utxoSet.transactionByPreviousOutpoint, PoolsNow(), tx);
      }
    }

    lemma ExactNow()
      ensures ChainExact() <==>
        && Links(Txs(), chainedTransactions, chainedTransactionByPreviousOutpoint)
        && CountsExact(DepCounts(chainedTransactions), chainedTransactions, chainedTransactionByPreviousOutpoint)
    {
    }

    method RemoveUnredeemed(tx: Transaction) returns (status: Status)
      requires CoreValid() && tx.id in Txs() && Txs()[tx.id] == tx
      modifies this`pool, this`chainedTransactions, this`chainedTransactionByPreviousOutpoint, utxoSet, feeRates
      ensures status.Ok?
      ensures CoreValid() && Txs() == old(Txs()) - {tx.id}
      ensures pool == old(pool) - {tx.id} && chainedTransactions == old(chainedTransactions) - {tx.id}
      ensures chainedTransactionByPreviousOutpoint
              == WithoutRecords(old(chainedTransactions), old(chainedTransactionByPreviousOutpoint), tx)
      ensures DepCounts(chainedTransactions) == old(DepCounts(chainedTransactions)) - {tx.id}
    {
      hide Core, WithoutRecords, PoolTxs;
      ghost var txs := Txs();
      RemoveIfChained(tx);
      assert chainedTransactions - {tx.id} == chainedTransactions;
      assert DepCounts(chainedTransactions) - {tx.id} == DepCounts(chainedTransactions);
      status := CleanTransactionFromSets(tx, txs);
    }

    method RemoveIfChained(tx: Transaction)
      modifies this`chainedTransactions, this`chainedTransactionByPreviousOutpoint
      ensures chainedTransactions == old(chainedTransactions) - {tx.id}
      ensures DepCounts(chainedTransactions) == old(DepCounts(chainedTransactions)) - {tx.id}
      ensures chainedTransactionByPreviousOutpoint
              == WithoutRecords(old(chainedTransactions), old(chainedTransactionByPreviousOutpoint), tx)
      ensures old(DescriptorsValid()) ==> DescriptorsValid() && Txs() - {tx.id} == old(Txs()) - {tx.id}
    {
      if tx.id in chainedTransactions {
        RemoveChainTransaction(tx);
      }
    }

    /** The inputs of `tx` that spend outputs of mempool transactions. */
    ghost predicate AreParents(tx: Transaction, parents: seq<Outpoint>)
      reads utxoSet
    {
      && Distinct(parents)
      && forall op :: op in parents <==> op in tx.inputs && op in utxoSet.poolUnspentOutputs
    }

    /** `tx` may enter: it is new, populated, and spends nothing a mempool transaction spends. */
    ghost predicate CanEnter(tx: Transaction)
      reads this, utxoSet
    {
      && tx.id !in Txs() && hashing.Populated(tx)
      && Distinct(tx.inputs) && tx.fee > 0 && tx.mass > 0
      && forall op :: op in tx.inputs ==> op !in utxoSet.transactionByPreviousOutpoint
    }

    method RecordParents(d: TxDescriptor, parents: seq<Outpoint>)
      modifies this`chainedTransactionByPreviousOutpoint
      ensures chainedTransactionByPreviousOutpoint
              == WithRecords(old(chainedTransactionByPreviousOutpoint), d, parents)
    {
      for k := 0 to |parents|
        invariant chainedTransactionByPreviousOutpoint
                  == WithRecords(old(chainedTransactionByPreviousOutpoint), d, parents[..k])
      {
        assert parents[..k + 1] == parents[..k] + [parents[k]];
        chainedTransactionByPreviousOutpoint := chainedTransactionByPreviousOutpoint[parents[k] := d];
      }
      assert parents[..|parents|] == parents;
    }

    /** Puts the descriptor into the pool, or with its records among the chained transactions. */
    method AddDescriptor(d: TxDescriptor, parents: seq<Outpoint>)
      requires DescriptorsValid() && hashing.Populated(d.tx) && d.tx.id !in Txs() && d.depCount == |parents|
      modifies this`pool, this`chainedTransactions, this`chainedTransactionByPreviousOutpoint
      ensures DescriptorsValid() && Txs() == old(Txs())[d.tx.id := d.tx]
      ensures pool == if parents == [] then old(pool)[d.tx.id := d] else old(pool)
      ensures chainedTransactions == ChainedWith(old(chainedTransactions), d, parents)
      ensures DepCounts(chainedTransactions) == CountsWith(old(DepCounts(chainedTransactions)), d, parents)
      ensures chainedTransactionByPreviousOutpoint
              == WithRecords(old(chainedTransactionByPreviousOutpoint), d, parents)
    {
      PoolTxsWith(pool, chainedTransactions, d);
      if |parents| == 0 {
        pool := pool[d.tx.id := d];
      } else {
        AddToChain(d, parents);
      }
    }

    method AddToChain(d: TxDescriptor, parents: seq<Outpoint>)
      requires d.tx.id !in chainedTransactions && hashing.Populated(d.tx)
      requires forall op :: op in chainedTransactionByPreviousOutpoint ==>
        hashing.Populated(chainedTransactionByPreviousOutpoint[op].tx)
      modifies this`chainedTransactions, this`chainedTransactionByPreviousOutpoint
      ensures chainedTransactions == old(chainedTransactions)[d.tx.id := d]
      ensures DepCounts(chainedTransactions) == old(DepCounts(chainedTransactions))[d.tx.id := d.depCount]
      ensures chainedTransactionByPreviousOutpoint == WithRecords(old(chainedTransactionByPreviousOutpoint), d, parents)
      ensures forall op :: op in chainedTransactionByPreviousOutpoint ==>
        hashing.Populated(chainedTransactionByPreviousOutpoint[op].tx)
    {
      AddChained(d);
      RecordParents(d, parents);
    }

    method AddChained(d: TxDescriptor)
      requires d.tx.id !in chainedTransactions
      modifies this`chainedTransactions
      ensures chainedTransactions == old(chainedTransactions)[d.tx.id := d]
      ensures DepCounts(chainedTransactions) == old(DepCounts(chainedTransactions))[d.tx.id := d.depCount]
    {
      chainedTransactions := chainedTransactions[d.tx.id := d];
    }

    /** Adds a validated transaction to every structure. */
    method AddTransaction(tx: Transaction, parentsInPool: seq<Outpoint>) returns (d: TxDescriptor, status: Status)
      requires CoreValid() && CanEnter(tx) && AreParents(tx, parentsInPool)
      modifies this`pool, this`chainedTransactions, this`chainedTransactionByPreviousOutpoint, utxoSet, feeRates
      ensures status.Ok? && fresh(d) && d.tx == tx
      ensures CoreValid() && Txs() == old(Txs())[tx.id := tx]
      ensures tx.id in pool <==> parentsInPool == []
      ensures old(ChainExact()) ==> ChainExact()
      ensures old(ChainComplete()) && Unredeemed(old(Txs()), tx) ==> ChainComplete()
      ensures old(ChainExact() && ChainComplete()) ==> (ChainComplete() <==> Unredeemed(old(Txs()), tx))
    {
      hide ParentsRecorded, Unredeemed, Core, Links, CountsExact, AreParents, PoolTxs;
      d := new TxDescriptor(tx, |parentsInPool|);
      assert DepCounts(chainedTransactions) == old(DepCounts(chainedTransactions));
      ChainWith(d, parentsInPool);
      CompleteWith(d, parentsInPool);
      AddDescriptor(d, parentsInPool);
      status := IndexTransaction(tx, old(Txs()));
    }

    lemma CompleteWith(d: TxDescriptor, parents: seq<Outpoint>)
      requires CoreValid() && CanEnter(d.tx) && AreParents(d.tx, parents)
      ensures ChainComplete() && Unredeemed(Txs(), d.tx) ==>
        ParentsRecorded(Txs()[d.tx.id := d.tx], PoolsWith(PoolsNow(), d, parents))
      ensures ChainExact() && ParentsRecorded(Txs()[d.tx.id := d.tx], PoolsWith(PoolsNow(), d, parents)) ==>
        Unredeemed(Txs(), d.tx)
    {
      hide ParentsRecorded, Unredeemed, PoolsWith, SpendsExact, CountsExact, ListExact;
      if ChainComplete() && Unredeemed(Txs(), d.tx) {
        RecordedIfUnredeemed(Txs(), PoolsNow(), d, parents);
      }
      if ChainExact() && ParentsRecorded(Txs()[d.tx.id := d.tx], PoolsWith(PoolsNow(), d, parents)) {
        UnredeemedIfRecorded(Txs(), PoolsNow(), d, parents);
      }
    }

    method IndexTransaction(tx: Transaction, ghost txs: map<TxId, Transaction>) returns (status: Status)
      requires Core(hashing, txs, utxoSet.transactionByPreviousOutpoint, utxoSet.poolUnspentOutputs, feeRates.txs)
      requires feeRates.Valid() && tx.id !in txs && hashing.Populated(tx)
      requires Distinct(tx.inputs) && tx.fee > 0 && tx.mass > 0
      requires forall op :: op in tx.inputs ==> op !in utxoSet.transactionByPreviousOutpoint
      modifies utxoSet, feeRates
      ensures status.Ok? && feeRates.Valid()
      ensures DepCounts(chainedTransactions) == old(DepCounts(chainedTransactions))
      ensures Core(hashing, txs[tx.id := tx], utxoSet.transactionByPreviousOutpoint, utxoSet.poolUnspentOutputs,
                   feeRates.txs)
    {
      status := utxoSet.AddTx(tx);
      if status.Err? {
        return;
      }
      status := feeRates.Add(tx);
      CoreAdd(hashing, txs, old(utxoSet.transactionByPreviousOutpoint), old(utxoSet.poolUnspentOutputs),
              old(feeRates.txs), tx, feeRates.txs);
    }

    lemma ChainWith(d: TxDescriptor, parents: seq<Outpoint>)
      requires CoreValid() && CanEnter(d.tx) && AreParents(d.tx, parents)
      ensures ChainExact() ==>
        var chained := ChainedWith(chainedTransactions, d, parents);
        var byPrev := WithRecords(chainedTransactionByPreviousOutpoint, d, parents);
        && Links(Txs()[d.tx.id := d.tx], chained, byPrev)
        && CountsExact(CountsWith(DepCounts(chainedTransactions), d, parents), chained, byPrev)
    {
      if ChainExact() {
        ChainAfterAddition(Txs(), utxoSet.transactionByPreviousOutpoint, utxoSet.poolUnspentOutputs,
                           DepCounts(chainedTransactions), chainedTransactions, chainedTransactionByPreviousOutpoint,
                           d, parents);
      }
    }

    ghost function PoolsNow(): Pools
      reads this
    {
      Pools(pool, chainedTransactions, chainedTransactionByPreviousOutpoint)
    }

    /** `before` was exact, and since then `gone` were mined and the records of `cut` dropped. */
    ghost predicate Mined(txs: map<TxId, Transaction>, before: Pools, cut: set<Outpoint>, gone: set<TxId>)
      reads this, before.chained.Values
    {
      ExactPools(txs, before) && MinedState(before, cut, gone, PoolsNow(), DepCounts(before.chained))
    }

    /** Moves a chained transaction to the pool under the descriptor that counted down to zero. */
    method Promote(d: TxDescriptor)
      requires DescriptorsValid() && hashing.Populated(d.tx)
      requires d.tx.id in chainedTransactions && hashing.Populated(chainedTransactions[d.tx.id].tx)
      modifies this`pool, this`chainedTransactions
      ensures DescriptorsValid() && Txs() == old(Txs())
      ensures pool == old(pool)[d.tx.id := d] && chainedTransactions == old(chainedTransactions) - {d.tx.id}
    {
      PoolTxsMoved(pool, chainedTransactions, d);
      chainedTransactions := chainedTransactions - {d.tx.id};
      pool := pool[d.tx.id := d];
    }

    /** One output of a mined transaction: whoever waited for it waits for one less. */
    method UpdateOutput(op: Outpoint, ghost txs: map<TxId, Transaction>, ghost before: Pools,
                        ghost cut: set<Outpoint>, ghost gone: set<TxId>)
      requires DescriptorsValid() && WellFormed(hashing, Txs())
      modifies this`pool, this`chainedTransactions, this`chainedTransactionByPreviousOutpoint
      modifies chainedTransactionByPreviousOutpoint.Values
      ensures DescriptorsValid() && Txs() == old(Txs())
      ensures chainedTransactionByPreviousOutpoint == old(chainedTransactionByPreviousOutpoint) - {op}
      ensures old(Mined(txs, before, cut, gone)) ==> Mined(txs, before, cut + {op}, gone)
    {
      hide MinedState, ExactPools, PoolTxs, DescriptorsValid, WellFormed;
      if op !in chainedTransactionByPreviousOutpoint {
        assert chainedTransactionByPreviousOutpoint - {op} == chainedTransactionByPreviousOutpoint;
        NothingDropped(before, cut, gone, PoolsNow(), DepCounts(before.chained), op);
        return;
      }
      var d := chainedTransactionByPreviousOutpoint[op];
      ghost var mined, counts := Mined(txs, before, cut, gone), DepCounts(before.chained);
      if mined {
        MinedStep(txs, before, cut, gone, PoolsNow(), counts, op);
        ChainedNamed(txs, before);
      }
      CountDown(d, before.chained);
      DropRecordOf(op, before.chained);
    }

    /** Drops a record whose descriptor was just counted down. */
    method DropRecordOf(op: Outpoint, ghost all: Descriptors)
      requires DescriptorsValid() && WellFormed(hashing, Txs()) && op in chainedTransactionByPreviousOutpoint
      modifies this`pool, this`chainedTransactions, this`chainedTransactionByPreviousOutpoint
      ensures DescriptorsValid() && Txs() == old(Txs())
      ensures PoolsNow() == DropRecord(old(PoolsNow()), op, old(chainedTransactionByPreviousOutpoint[op].depCount))
      ensures DepCounts(all) == old(DepCounts(all))
    {
      var d := chainedTransactionByPreviousOutpoint[op];
      if d.depCount == 0 {
        if d.tx.id in chainedTransactions {
          assert Txs()[d.tx.id] == chainedTransactions[d.tx.id].tx;
          Promote(d);
        }
      }
      chainedTransactionByPreviousOutpoint := chainedTransactionByPreviousOutpoint - {op};
    }

    /** Every transaction that waited for an output of the mined `tx` waits for it no longer. */
    method UpdateBlockTransactionChainedTransactions(tx: Transaction, ghost txs: map<TxId, Transaction>,
                                                     ghost before: Pools,
                                                     ghost cut: set<Outpoint>, ghost gone: set<TxId>)
      requires DescriptorsValid() && WellFormed(hashing, Txs())
      modifies this`pool, this`chainedTransactions, this`chainedTransactionByPreviousOutpoint
      modifies chainedTransactionByPreviousOutpoint.Values
      ensures DescriptorsValid() && Txs() == old(Txs())
      ensures SubMap(chainedTransactionByPreviousOutpoint, old(chainedTransactionByPreviousOutpoint))
      ensures old(Mined(txs, before, cut, gone)) ==> Mined(txs, before, cut + OutpointsOf(tx.id, |tx.outputs|), gone)
    {
      assert cut + OutpointsOf(tx.id, 0) == cut;
      for i := 0 to |tx.outputs|
        invariant DescriptorsValid() && Txs() == old(Txs())
        invariant SubMap(chainedTransactionByPreviousOutpoint, old(chainedTransactionByPreviousOutpoint))
        invariant old(Mined(txs, before, cut, gone)) ==> Mined(txs, before, cut + OutpointsOf(tx.id, i), gone)
      {
        UpdateOutput(Outpoint(tx.id, i), txs, before, cut + OutpointsOf(tx.id, i), gone);
        assert cut + OutpointsOf(tx.id, i) + {Outpoint(tx.id, i)} == cut + OutpointsOf(tx.id, i + 1);
      }
    }

    function FetchTxDesc(id: TxId): (d: TxDescriptor?)
      reads this
      ensures DescriptorsValid() ==> (id in Txs() <==> d != null) && (d != null ==> d.tx == Txs()[id] && d.tx.id == id)
    {
      if id in pool then pool[id] else if id in chainedTransactions then chainedTransactions[id] else null
    }

    /** A mined transaction leaves the mempool, and its redeemers stay. */
    method MineTransaction(tx: Transaction, ghost txs: map<TxId, Transaction>, ghost before: Pools,
                           ghost gone: set<TxId>)
      returns (status: Status)
      requires CoreValid() && tx.id in Txs() && Txs()[tx.id] == tx && SubMap(Txs(), txs)
      modifies this`pool, this`chainedTransactions, this`chainedTransactionByPreviousOutpoint, utxoSet, feeRates
      modifies chainedTransactionByPreviousOutpoint.Values
      ensures status.Ok?
      ensures CoreValid() && Txs() == old(Txs()) - {tx.id}
      ensures SubMap(chainedTransactionByPreviousOutpoint, old(chainedTransactionByPreviousOutpoint))
      ensures old(Mined(txs, before, CutBy(before, gone), gone)) ==>
        Mined(txs, before, CutBy(before, gone + {tx.id}), gone + {tx.id})
    {
      status := CleanMined(tx, txs, before, CutBy(before, gone), gone);
      if status.Err? {
        return;
      }
      UpdateBlockTransactionChainedTransactions(tx, txs, before, CutBy(before, gone), gone + {tx.id});
      CutByOutputs(tx, txs, before, gone);
    }

    lemma CutByOutputs(tx: Transaction, txs: map<TxId, Transaction>, before: Pools, gone: set<TxId>)
      requires tx.id in txs && txs[tx.id] == tx
      ensures Mined(txs, before, CutBy(before, gone) + OutpointsOf(tx.id, |tx.outputs|), gone + {tx.id}) ==>
        Mined(txs, before, CutBy(before, gone + {tx.id}), gone + {tx.id})
    {
      if Mined(txs, before, CutBy(before, gone) + OutpointsOf(tx.id, |tx.outputs|), gone + {tx.id}) {
        MinedCut(before, CutBy(before, gone) + OutpointsOf(tx.id, |tx.outputs|), CutBy(before, gone + {tx.id}),
                 gone + {tx.id}, PoolsNow(), DepCounts(before.chained));
      }
    }

    method CleanMined(tx: Transaction, ghost txs: map<TxId, Transaction>, ghost before: Pools,
                      ghost cut: set<Outpoint>, ghost gone: set<TxId>) returns (status: Status)
      requires CoreValid() && tx.id in Txs() && Txs()[tx.id] == tx
      modifies this`pool, this`chainedTransactions, utxoSet, feeRates
      ensures status.Ok?
      ensures CoreValid() && Txs() == old(Txs()) - {tx.id}
      ensures old(Mined(txs, before, cut, gone)) ==> Mined(txs, before, cut, gone + {tx.id})
    {
      hide MinedState, Core, ExactPools, DescriptorsValid, PoolTxs;
      ghost var counts := DepCounts(before.chained);
      if Mined(txs, before, cut, gone) {
        MinedWithout(before, cut, gone, PoolsNow(), counts, tx.id);
      }
      status := CleanTransactionFromSets(tx, Txs());
      assert DepCounts(before.chained) == counts by {
        assert forall id :: id in before.chained ==> before.chained[id].depCount == counts[id];
      }
    }

    /** The transactions `gone` of a block are handled; `exact` says whether the bookkeeping was exact before. */
    ghost predicate BlockProgress(txs: map<TxId, Transaction>, before: Pools, exact: bool, gone: set<TxId>)
      reads this, utxoSet, feeRates, before.chained.Values
    {
      && CoreValid() && Txs() == txs - gone && txs.Keys == before.pool.Keys + before.chained.Keys
      && SubMap(chainedTransactionByPreviousOutpoint, before.byPrev)
      && (exact ==> Mined(txs, before, CutBy(before, gone), gone))
    }

    lemma ProgressShrinks(txs: map<TxId, Transaction>, before: Pools, exact: bool, gone: set<TxId>)
      requires BlockProgress(txs, before, exact, gone)
      ensures chainedTransactionByPreviousOutpoint.Values <= before.byPrev.Values
    {
    }

    method RemoveMinedTransaction(id: TxId, ghost txs: map<TxId, Transaction>, ghost before: Pools,
                                  ghost exact: bool, ghost gone: set<TxId>) returns (status: Status)
      requires BlockProgress(txs, before, exact, gone)
      modifies this`pool, this`chainedTransactions, this`chainedTransactionByPreviousOutpoint, utxoSet, feeRates
      modifies chainedTransactionByPreviousOutpoint.Values
      ensures status.Ok?
      ensures BlockProgress(txs, before, exact, gone + {id})
    {
      assert txs - gone - {id} == txs - (gone + {id});
      var d := FetchTxDesc(id);
      if d == null {
        if exact {
          MinedStranger(txs, before, gone, PoolsNow(), DepCounts(before.chained), id);
        }
        return Ok;
      }
      status := MineTransaction(d.tx, txs, before, gone);
    }

    /** Takes the transactions of a block, the coinbase excepted, out of the mempool. A chained
        transaction moves to the pool exactly when it waits for nothing any more. Afterwards the
        bookkeeping of chained transactions is exact if and only if the block holds, for each of
        its transactions that was chained, every transaction it waited for. */
    method RemoveTransactionsFromPool(txs: seq<Transaction>) returns (status: Status)
      requires CoreValid() && |txs| > 0
      modifies this`pool, this`chainedTransactions, this`chainedTransactionByPreviousOutpoint, utxoSet, feeRates
      modifies chainedTransactionByPreviousOutpoint.Values
      ensures status.Ok?
      ensures CoreValid() && Txs() == old(Txs()) - IdsOf(txs[1..])
      ensures old(ChainExact()) ==>
        Mined(old(Txs()), old(PoolsNow()), CutBy(old(PoolsNow()), IdsOf(txs[1..])), IdsOf(txs[1..]))
      ensures old(ChainExact()) ==> (ChainExact() <==> BlockHoldsParents(old(PoolsNow()), IdsOf(txs[1..])))
      ensures old(ChainExact() && ChainComplete()) ==> ChainComplete()
    {
      ghost var exact, complete, before := ChainExact(), ChainComplete(), PoolsNow();
      ghost var spentBy := utxoSet.transactionByPreviousOutpoint;
      BlockStarts();
      status := RemoveMinedTransactions(txs, old(Txs()), before, exact);
      ExactIffBlockHoldsParents(old(Txs()), before, IdsOf(txs[1..]));
      if exact && complete {
        CompleteAfterBlock(old(Txs()), spentBy, before, IdsOf(txs[1..]));
      }
    }

    lemma CompleteAfterBlock(txs: map<TxId, Transaction>, spentBy: map<Outpoint, Transaction>, before: Pools,
                             mined: set<TxId>)
      requires Mined(txs, before, CutBy(before, mined), mined) && Txs() == txs - mined
      requires SpendsExact(txs, spentBy) && WellFormed(hashing, txs) && ParentsRecorded(txs, before)
      requires before.pool.Keys + before.chained.Keys == txs.Keys
      ensures ChainComplete()
    {
      hide ParentsRecorded, ExactPools, MinedState, SpendsExact;
      RecordedAfterBlock(txs, spentBy, before, mined, PoolsNow(), DepCounts(before.chained));
    }

    lemma BlockStarts()
      requires CoreValid()
      ensures BlockProgress(Txs(), PoolsNow(), ChainExact(), {})
    {
      assert Txs() - {} == Txs();
      if ChainExact() {
        MinedInitially(Txs(), PoolsNow(), DepCounts(chainedTransactions));
      }
    }

    method RemoveMinedTransactions(block: seq<Transaction>, ghost txs: map<TxId, Transaction>, ghost before: Pools,
                                   ghost exact: bool) returns (status: Status)
      requires BlockProgress(txs, before, exact, {}) && |block| > 0
      requires before.byPrev == chainedTransactionByPreviousOutpoint
      modifies this`pool, this`chainedTransactions, this`chainedTransactionByPreviousOutpoint, utxoSet, feeRates
      modifies chainedTransactionByPreviousOutpoint.Values
      ensures status.Ok?
      ensures BlockProgress(txs, before, exact, IdsOf(block[1..]))
    {
      hide BlockProgress;
      assert IdsOf(block[1..1]) == {};
      for i := 1 to |block|
        invariant BlockProgress(txs, before, exact, IdsOf(block[1..i]))
      {
        IdsOfNext(block, i);
        ProgressShrinks(txs, before, exact, IdsOf(block[1..i]));
        status := RemoveMinedTransaction(block[i].id, txs, before, exact, IdsOf(block[1..i]));
        if status.Err? {
          return;
        }
      }
      assert block[1..|block|] == block[1..];
      status := Ok;
    }

    lemma ExactIffBlockHoldsParents(txs: map<TxId, Transaction>, before: Pools, mined: set<TxId>)
      requires Txs() == txs - mined
      ensures Mined(txs, before, CutBy(before, mined), mined) ==> (ChainExact() <==> BlockHoldsParents(before, mined))
    {
      if Mined(txs, before, CutBy(before, mined), mined) {
        if BlockHoldsParents(before, mined) {
          ExactIfBlockHoldsParents(txs, before, mined);
        } else {
          StaleAfterBlock(txs, before, mined, PoolsNow(), DepCounts(before.chained));
        }
      }
    }

    lemma ExactIfBlockHoldsParents(txs: map<TxId, Transaction>, before: Pools, mined: set<TxId>)
      requires Txs() == txs - mined && BlockHoldsParents(before, mined)
      requires Mined(txs, before, CutBy(before, mined), mined)
      ensures ChainExact()
    {
      ExactAfterBlock(txs, before, mined, PoolsNow(), DepCounts(before.chained));
      DepCountsOfSome(chainedTransactions, before.chained);
    }

    /** The whole invariant, the disjointness of orphans and mempool excepted. */
    ghost predicate Valid()
      reads this, utxoSet, feeRates, orphanPool
    {
      CoreValid() && |Txs()| <= TRANSACTION_LIMIT && WithinBounds(policy, Txs()) && OrphansValid() && RulesValid()
    }

    ghost predicate OrphansValid()
      reads orphanPool
    {
      && orphanPool.Valid()
      && forall id :: id in orphanPool.orphans ==> hashing.Hashed(orphanPool.orphans[id].tx)
    }

    ghost predicate RulesValid() {
      consensus.Lawful(hashing) && policy.minRelayTxFee > 0
    }

    ghost predicate OrphansApart()
      reads this, orphanPool
    {
      forall id :: id in orphanPool.orphans ==> id !in Txs()
    }

    method EvictLeast() returns (status: Status, ghost least: TxId)
      requires CoreValid() && Txs() != map[]
      modifies this`pool, this`chainedTransactions, this`chainedTransactionByPreviousOutpoint, utxoSet, feeRates
      ensures status.Ok?
      ensures CoreValid() && IsLeast(feeRates.feeRate, old(Txs()), least) && IsWithoutClosure(old(Txs()), least, Txs())
      ensures old(ChainExact()) ==> ChainExact()
      ensures old(ChainComplete()) ==> ChainComplete()
    {
      ghost var some :| some in Txs();
      assert Txs()[some] in feeRates.txs;
      var tx := feeRates.txs[0];
      LeastIsFirst();
      least := tx.id;
      status := RemoveTransactionAndItsChainedTransactions(tx);
    }

    method EnforceTransactionLimit() returns (status: Status)
      requires CoreValid() && |Txs()| <= TRANSACTION_LIMIT + 1
      modifies this`pool, this`chainedTransactions, this`chainedTransactionByPreviousOutpoint, utxoSet, feeRates
      ensures status.Ok?
      ensures CoreValid() && |Txs()| <= TRANSACTION_LIMIT && WithinLimit(feeRates.feeRate, old(Txs()), Txs())
      ensures old(ChainExact()) ==> ChainExact()
      ensures old(ChainComplete()) ==> ChainComplete()
    {
      PoolTxsSize(pool, chainedTransactions);
      status := Ok;
      if |pool| + |chainedTransactions| > TRANSACTION_LIMIT {
        ghost var least;
        status, least := EvictLeast();
        ClosureIsSmaller(old(Txs()), least, Txs());
      }
    }

    lemma LeastIsFirst()
      requires CoreValid() && feeRates.txs != []
      ensures var least := feeRates.txs[0];
        IsLeast(feeRates.feeRate, Txs(), least.id) && Txs()[least.id] == least
    {
      var least := feeRates.txs[0];
      forall x | x in Txs() && x != least.id ensures RatedLess(feeRates.feeRate, least, Txs()[x]) {
        assert Txs()[x] in feeRates.txs;
        var k :| 0 <= k < |feeRates.txs| && feeRates.txs[k] == Txs()[x];
      }
    }

    /** The checks made before consensus is asked: not a duplicate, standard where that is
        asked for, and no input spent by a mempool transaction. */
    predicate PassesChecks(tx: Transaction, rejectDupOrphans: bool)
      reads this, utxoSet, orphanPool
    {
      && tx.id !in pool && tx.id !in chainedTransactions && !(rejectDupOrphans && tx.id in orphanPool.orphans)
      && (policy.acceptNonStd || policy.isStandard(tx))
      && forall op :: op in tx.inputs ==> op !in utxoSet.transactionByPreviousOutpoint
    }

    /** What consensus will say about `tx`, given the mempool outputs it spends. */
    ghost function VerdictOn(tx: Transaction): Verdict
      reads utxoSet, consensus
    {
      consensus.answers(consensus.calls, tx,
                        map op | op in tx.inputs && op in utxoSet.poolUnspentOutputs :: utxoSet.poolUnspentOutputs[op])
    }

    lemma NotThereYet(tx: Transaction)
      requires CoreValid() && tx.id !in Txs()
      requires forall op :: op in tx.inputs ==> op !in utxoSet.transactionByPreviousOutpoint
      ensures !utxoSet.CheckExists(tx)
    {
    }

    /** Consensus validation with the mempool outputs that `tx` spends filled in. The check for
        outputs of `tx` that the mempool already holds never fires. */
    method Ask(tx: Transaction) returns (known: bool, v: Verdict, parentsInPool: seq<Outpoint>)
      requires CoreValid() && tx.id !in Txs()
      requires forall op :: op in tx.inputs ==> op !in utxoSet.transactionByPreviousOutpoint
      modifies consensus
      ensures !known && v == old(VerdictOn(tx)) && consensus.calls == old(consensus.calls) + 1
      ensures Distinct(tx.inputs) ==> AreParents(tx, parentsInPool)
      ensures consensus.accepted == if v.Accepted? then old(consensus.accepted) + [tx] else old(consensus.accepted)
      ensures consensus.failures == old(consensus.failures) + (if v.InternalFailure? then 1 else 0)
      ensures DepCounts(chainedTransactions) == old(DepCounts(chainedTransactions))
    {
      hide CoreValid;
      NotThereYet(tx);
      known := utxoSet.CheckExists(tx);
      if known {
        return known, RuleViolation, [];
      }
      var entries;
      entries, parentsInPool := utxoSet.PopulateUTXOEntries(tx);
      assert entries == map op | op in tx.inputs && op in utxoSet.poolUnspentOutputs :: utxoSet.poolUnspentOutputs[op];
      v := consensus.Validate(tx, entries);
    }

    /** Accepts `tx` exactly when every check passes, and says what kept it out otherwise. */
    method MaybeAcceptTransaction(tx: Transaction, rejectDupOrphans: bool) returns (r: AcceptResult)
      requires Valid() && hashing.Hashed(tx)
      modifies this`pool, this`chainedTransactions, this`chainedTransactionByPreviousOutpoint, utxoSet, feeRates
      modifies consensus
      ensures Valid()
      ensures old(ChainExact()) ==> ChainExact()
      ensures old(ChainComplete()) && EntersUnredeemed(old(Txs()), r) ==> ChainComplete()
      ensures if old(PassesChecks(tx, rejectDupOrphans)) then IsOutcome(tx, old(VerdictOn(tx)), r) else r.Rejected?
      ensures if r.Added? then WithinLimit(feeRates.feeRate, old(Txs())[tx.id := r.tx], Txs()) else Txs() == old(Txs())
      ensures old(consensus.accepted) <= consensus.accepted
      ensures r.Added? ==> consensus.accepted == old(consensus.accepted) + [tx]
      ensures consensus.failures == old(consensus.failures) + (if r.Failed? then 1 else 0)
      ensures consensus.calls == old(consensus.calls) + if old(PassesChecks(tx, rejectDupOrphans)) then 1 else 0
    {
      hide IsOutcome, WithinLimit, WithinBounds, VerdictOn, ChainExact, Core, Concluded;
      if !PassesChecks(tx, rejectDupOrphans) {
        return Rejected;
      }
      r := ValidateAndEnter(tx);
      OutcomeMeans(tx, old(VerdictOn(tx)), r);
      if r.Added? {
        BoundsAfterEntry(Deciding(), old(Txs()), tx, old(VerdictOn(tx)), Txs());
      }
    }

    method ValidateAndEnter(tx: Transaction) returns (r: AcceptResult)
      requires CoreValid() && |Txs()| <= TRANSACTION_LIMIT && RulesValid()
      requires tx.id !in Txs() && hashing.Hashed(tx)
      requires forall op :: op in tx.inputs ==> op !in utxoSet.transactionByPreviousOutpoint
      modifies this`pool, this`chainedTransactions, this`chainedTransactionByPreviousOutpoint, utxoSet, feeRates
      modifies consensus
      ensures CoreValid() && |Txs()| <= TRANSACTION_LIMIT
      ensures old(ChainExact()) ==> ChainExact()
      ensures old(ChainComplete()) && EntersUnredeemed(old(Txs()), r) ==> ChainComplete()
      ensures IsOutcome(tx, old(VerdictOn(tx)), r) && consensus.calls == old(consensus.calls) + 1
      ensures if r.Added? then WithinLimit(feeRates.feeRate, old(Txs())[tx.id := r.tx], Txs()) else Txs() == old(Txs())
      ensures consensus.accepted
              == if old(VerdictOn(tx)).Accepted? then old(consensus.accepted) + [tx] else old(consensus.accepted)
      ensures consensus.failures == old(consensus.failures) + (if r.Failed? then 1 else 0)
    {
      hide IsOutcome, WithinLimit, ChainExact, Core;
      var known, v, parentsInPool := Ask(tx);
      if known {
        return Rejected;
      }
      r := Conclude(tx, v, parentsInPool);
      OutcomeMeans(tx, v, r);
    }

    lemma OutcomeMeans(tx: Transaction, v: Verdict, r: AcceptResult)
      requires IsOutcome(tx, v, r)
      ensures r == Concluded(policy, tx, v) && (r.Failed? <==> v.InternalFailure?)
      ensures r.Added? ==> v.Accepted? && r.tx == tx.(fee := v.fee, mass := v.mass)
    {
      hide PassesPolicy;
    }

    /** The result that a verdict on `tx` leads to. */
    ghost predicate IsOutcome(tx: Transaction, v: Verdict, r: AcceptResult) {
      && r == Concluded(policy, tx, v)
      && (r.Missing? ==> r.outpoints != [])
      && (r.Added? ==> hashing.Populated(r.tx))
    }

    /** What follows validation. */
    method Conclude(tx: Transaction, v: Verdict, parentsInPool: seq<Outpoint>) returns (r: AcceptResult)
      requires CoreValid() && |Txs()| <= TRANSACTION_LIMIT && RulesValid()
      requires tx.id !in Txs() && hashing.Hashed(tx) && LawfulVerdict(hashing, tx, v)
      requires forall op :: op in tx.inputs ==> op !in utxoSet.transactionByPreviousOutpoint
      requires Distinct(tx.inputs) ==> AreParents(tx, parentsInPool)
      modifies this`pool, this`chainedTransactions, this`chainedTransactionByPreviousOutpoint, utxoSet, feeRates
      ensures CoreValid() && |Txs()| <= TRANSACTION_LIMIT
      ensures old(ChainExact()) ==> ChainExact()
      ensures old(ChainComplete()) && EntersUnredeemed(old(Txs()), r) ==> ChainComplete()
      ensures IsOutcome(tx, v, r)
      ensures if r.Added? then WithinLimit(feeRates.feeRate, old(Txs())[tx.id := r.tx], Txs()) else Txs() == old(Txs())
    {
      hide ChainExact, ChainComplete, Core, WithinLimit, Unredeemed, PoolTxs;
      match v {
        case MissingOutpoints(outpoints) => return Missing(outpoints);
        case ImmatureSpend => return Rejected;
        case RuleViolation => return Rejected;
        case InternalFailure => return Failed;
        case Accepted(fee, mass) =>
          var populated := tx.(fee := fee, mass := mass);
          if !PassesPolicy(policy, populated) {
            return Rejected;
          }
          r := Enter(populated, parentsInPool);
      }
    }

    method Enter(tx: Transaction, parentsInPool: seq<Outpoint>) returns (r: AcceptResult)
      requires CoreValid() && |Txs()| <= TRANSACTION_LIMIT && CanEnter(tx) && AreParents(tx, parentsInPool)
      modifies this`pool, this`chainedTransactions, this`chainedTransactionByPreviousOutpoint, utxoSet, feeRates
      ensures CoreValid() && |Txs()| <= TRANSACTION_LIMIT
      ensures old(ChainExact()) ==> ChainExact()
      ensures old(ChainComplete()) && Unredeemed(old(Txs()), tx) ==> ChainComplete()
      ensures r == Added(tx) && WithinLimit(feeRates.feeRate, old(Txs())[tx.id := tx], Txs())
    {
      var d, status := AddTransaction(tx, parentsInPool);
      if status.Err? {
        return Failed;
      }
      status := EnforceTransactionLimit();
      if status.Err? {
        return Failed;
      }
      return Added(d.tx);
    }

    /** Removes exactly the transactions that spend an input of `tx`, `tx` itself excepted,
        with everything that transitively redeems them. */
    method RemoveDoubleSpends(tx: Transaction) returns (status: Status)
      requires CoreValid()
      modifies this`pool, this`chainedTransactions, this`chainedTransactionByPreviousOutpoint, utxoSet, feeRates
      ensures status.Ok?
      ensures CoreValid() && SubMap(Txs(), old(Txs()))
      ensures IsWithoutClosureOf(old(Txs()), DoubleSpenders(old(Txs()), tx, |tx.inputs|), Txs())
      ensures forall op :: op in tx.inputs && op in utxoSet.transactionByPreviousOutpoint ==>
        utxoSet.transactionByPreviousOutpoint[op].id == tx.id
      ensures old(ChainExact()) ==> ChainExact()
      ensures old(ChainComplete()) ==> ChainComplete()
    {
      ClosureStarts(Txs());
      for k := 0 to |tx.inputs|
        invariant DoubleSpendersGone(old(Txs()), tx, k)
        invariant old(ChainExact()) ==> ChainExact()
        invariant old(ChainComplete()) ==> ChainComplete()
      {
        status := RemoveDoubleSpender(tx, k, old(Txs()));
        if status.Err? {
          return;
        }
      }
      status := Ok;
    }

    ghost predicate DoubleSpendersGone(before: map<TxId, Transaction>, tx: Transaction, k: nat)
      reads this, utxoSet, feeRates
    {
      CoreValid() && SpendersOut(before, tx, k, Txs(), utxoSet.transactionByPreviousOutpoint)
    }

    method RemoveDoubleSpender(tx: Transaction, k: nat, ghost before: map<TxId, Transaction>) returns (status: Status)
      requires DoubleSpendersGone(before, tx, k) && k < |tx.inputs|
      modifies this`pool, this`chainedTransactions, this`chainedTransactionByPreviousOutpoint, utxoSet, feeRates
      ensures status.Ok?
      ensures DoubleSpendersGone(before, tx, k + 1)
      ensures old(ChainExact()) ==> ChainExact()
      ensures old(ChainComplete()) ==> ChainComplete()
    {
      var op := tx.inputs[k];
      ghost var txs, spentBy := Txs(), utxoSet.transactionByPreviousOutpoint;
      if op in utxoSet.transactionByPreviousOutpoint && utxoSet.transactionByPreviousOutpoint[op].id != tx.id {
        status := RemoveTransactionAndItsChainedTransactions(utxoSet.transactionByPreviousOutpoint[op]);
        SpendersOutNext(before, tx, k, txs, spentBy, Txs(), utxoSet.transactionByPreviousOutpoint);
      } else {
        status := Ok;
        SpendersOutSame(before, tx, k, txs, spentBy);
      }
    }

    ghost function TakeSnapshot(): Snapshot
      reads this, orphanPool, consensus
    {
      Snapshot(Txs(), orphanPool.orphans, orphanPool.orphansByPrev.Keys, consensus.accepted)
    }

    /** Since `s` orphans only went, and what is new to the mempool was accepted by consensus. */
    ghost predicate Since(s: Snapshot)
      reads this, orphanPool, consensus
    {
      && SubMap(orphanPool.orphans, s.orphans) && orphanPool.orphansByPrev.Keys <= s.buckets
      && s.accepted <= consensus.accepted
      && NewAreAccepted(s.txs, Txs(), consensus.accepted, |s.accepted|)
    }

    /** removeOrphan, with the invariants of the mempool. */
    method DropOrphan(tx: Transaction, removeRedeemers: bool)
      requires OrphansValid() && hashing.Hashed(tx)
      modifies orphanPool`orphans, orphanPool`orphansByPrev
      ensures OrphansValid() && SubMap(orphanPool.orphans, old(orphanPool.orphans)) && tx.id !in orphanPool.orphans
      ensures tx.id in old(orphanPool.orphans) ==> |orphanPool.orphans| < |old(orphanPool.orphans)|
      ensures orphanPool.orphansByPrev.Keys <= old(orphanPool.orphansByPrev.Keys)
      ensures !removeRedeemers ==> orphanPool.orphans == old(orphanPool.orphans) - {tx.id}
      ensures removeRedeemers && tx.id in old(orphanPool.orphans) ==>
        IsWithoutClosure(old(orphanPool.Txs()), tx.id, orphanPool.Txs())
      ensures DepCounts(chainedTransactions) == old(DepCounts(chainedTransactions))
    {
      ghost var txs, index := orphanPool.Txs(), orphanPool.orphansByPrev;
      orphanPool.RemoveOrphanAndRedeemers(tx, removeRedeemers);
      SubMapIsSmaller(orphanPool.orphans, old(orphanPool.orphans) - {tx.id});
      forall op | op in orphanPool.orphansByPrev ensures op in index {
        BucketsShrink(txs, index, orphanPool.Txs(), orphanPool.orphansByPrev, op);
      }
    }

    /** The checks and the verdict are those that the transactions alone determine. */
    lemma DecisionIs(tx: Transaction)
      requires CoreValid()
      ensures PassesChecks(tx, false) <==> Admissible(policy, Txs(), tx)
      ensures PassesChecks(tx, true) <==> Admissible(policy, Txs(), tx) && tx.id !in orphanPool.orphans
      ensures Decision(Deciding(), Txs(), consensus.calls, tx)
           == if PassesChecks(tx, false) then Concluded(policy, tx, VerdictOn(tx)) else Rejected
    {
      hide SpendsExact, OutputsExact, WellFormed, ListExact, IsSpent, EntriesFor, Concluded, PoolTxs;
      PoolTxsIds(pool, chainedTransactions);
      SpentByIndex(Txs(), utxoSet.transactionByPreviousOutpoint, tx);
      EntriesByIndex(Txs(), utxoSet.poolUnspentOutputs, tx);
    }

    /** maybeAcceptTransaction, seen from a snapshot. */
    method AcceptSince(tx: Transaction, rejectDupOrphans: bool, ghost s: Snapshot) returns (r: AcceptResult)
      requires Valid() && Since(s) && hashing.Hashed(tx)
      modifies this`pool, this`chainedTransactions, this`chainedTransactionByPreviousOutpoint, utxoSet, feeRates
      modifies consensus
      ensures Valid() && Since(s)
      ensures old(ChainExact()) ==> ChainExact()
      ensures old(ChainComplete()) && EntersUnredeemed(old(Txs()), r) ==> ChainComplete()
      ensures if old(PassesChecks(tx, rejectDupOrphans)) then IsOutcome(tx, old(VerdictOn(tx)), r) else r.Rejected?
      ensures if r.Added? then WithinLimit(feeRates.feeRate, old(Txs())[tx.id := r.tx], Txs()) else Txs() == old(Txs())
      ensures forall id :: id in Txs() ==> id in old(Txs()) || (id == tx.id && r.Added?)
      ensures consensus.calls == old(consensus.calls) + (if old(PassesChecks(tx, rejectDupOrphans)) then 1 else 0)
      ensures consensus.failures == old(consensus.failures) + (if r.Failed? then 1 else 0)
      ensures r.Added? && old(|Txs()| < TRANSACTION_LIMIT && tx.id !in Txs()) ==> Txs() == old(Txs())[tx.id := r.tx]
    {
      hide IsOutcome, WithinLimit, VerdictOn, ChainExact, PassesChecks, Core;
      r := MaybeAcceptTransaction(tx, rejectDupOrphans);
      if r.Added? {
        OutcomeMeans(tx, old(VerdictOn(tx)), r);
        WithinLimitShrinks(feeRates.feeRate, old(Txs())[tx.id := r.tx], Txs());
        NewAreAcceptedAdd(s.txs, old(Txs()), Txs(), old(consensus.accepted), tx, r.tx, |s.accepted|);
      } else {
        NewAreAcceptedStep(s.txs, old(Txs()), Txs(), old(consensus.accepted), consensus.accepted, |s.accepted|);
      }
    }

    /** The invariant between the steps of orphan processing. */
    ghost predicate Processing(s: Snapshot)
      reads this, utxoSet, feeRates, orphanPool, consensus
    {
      Valid() && OrphansApart() && Since(s)
    }

    /** One orphan whose input became available: what the rules decide about it happens to it. */
    method TryOrphan(tx: Transaction, ghost s: Snapshot) returns (r: AcceptResult)
      requires Processing(s) && hashing.Hashed(tx) && tx.id in orphanPool.orphans
      modifies this`pool, this`chainedTransactions, this`chainedTransactionByPreviousOutpoint, utxoSet, feeRates
      modifies consensus
      modifies orphanPool`orphans, orphanPool`orphansByPrev
      ensures Processing(s)
      ensures old(ChainExact()) ==> ChainExact()
      ensures old(ChainComplete()) && EntersUnredeemed(old(Txs()), r) ==> ChainComplete()
      ensures IsAttempt(Deciding(), old(Now()), tx, r, Now())
    {
      hide Processing, Valid, Since, AllApartBut, ChainExact, IsAttempt, Admissible, Decision, WithinLimit, PoolTxs,
        IsWithoutClosure, SubMap, TxsOf;
      ProcessingValid(s);
      r := AskAboutOrphan(tx, s);
      if r.Rejected? || r.Added? {
        DropTried(tx, r.Rejected?, s);
      } else {
        StillApart(tx, s);
      }
      AttemptHolds(old(Now()), tx, r);
    }

    lemma ProcessingValid(s: Snapshot)
      requires Processing(s)
      ensures Valid() && OrphansApart() && Since(s)
    {
    }

    lemma AttemptHolds(before: Situation, tx: Transaction, r: AcceptResult)
      requires r == Decision(Deciding(), before.txs, before.calls, tx)
      requires consensus.calls == before.calls + (if Admissible(policy, before.txs, tx) then 1 else 0)
      requires consensus.failures == before.failures + (if r.Failed? then 1 else 0)
      requires if r.Added? then WithinLimit(feeRates.feeRate, before.txs[tx.id := r.tx], Txs()) else Txs() == before.txs
      requires r.Added? ==> orphanPool.orphans == before.orphans - {tx.id}
      requires r.Rejected? ==>
        SubMap(orphanPool.orphans, before.orphans) && IsWithoutClosure(TxsOf(before.orphans), tx.id, orphanPool.Txs())
      requires r.Missing? || r.Failed? ==> orphanPool.orphans == before.orphans
      ensures IsAttempt(Deciding(), before, tx, r, Now())
    {
    }

    /** maybeAcceptTransaction for an orphan: the rules decide. */
    method AskAboutOrphan(tx: Transaction, ghost s: Snapshot) returns (r: AcceptResult)
      requires Processing(s) && hashing.Hashed(tx) && tx.id in orphanPool.orphans
      modifies this`pool, this`chainedTransactions, this`chainedTransactionByPreviousOutpoint, utxoSet, feeRates
      modifies consensus
      ensures Valid() && Since(s) && AllApartBut(tx.id) && (!r.Added? ==> tx.id !in Txs())
      ensures old(ChainExact()) ==> ChainExact()
      ensures old(ChainComplete()) && EntersUnredeemed(old(Txs()), r) ==> ChainComplete()
      ensures r == Decision(Deciding(), old(Txs()), old(consensus.calls), tx)
      ensures if r.Added? then WithinLimit(feeRates.feeRate, old(Txs())[tx.id := r.tx], Txs()) else Txs() == old(Txs())
      ensures consensus.calls == old(consensus.calls) + (if Admissible(policy, old(Txs()), tx) then 1 else 0)
      ensures consensus.failures == old(consensus.failures) + (if r.Failed? then 1 else 0)
    {
      hide PassesChecks, Admissible, Decision, Concluded, IsOutcome, WithinLimit, VerdictOn, ChainExact, Core;
      DecisionIs(tx);
      r := AcceptSince(tx, false, s);
      if old(PassesChecks(tx, false)) {
        OutcomeMeans(tx, old(VerdictOn(tx)), r);
      }
    }

    /** No orphan but `id` is in the mempool. */
    ghost predicate AllApartBut(id: TxId)
      reads this, orphanPool
    {
      forall x :: x in orphanPool.orphans && x != id ==> x !in Txs()
    }

    lemma StillApart(tx: Transaction, s: Snapshot)
      requires Valid() && Since(s) && AllApartBut(tx.id) && tx.id !in Txs()
      ensures Processing(s)
    {
    }

    /** An orphan that was accepted or found invalid leaves the orphans. */
    method DropTried(tx: Transaction, removeRedeemers: bool, ghost s: Snapshot)
      requires Valid() && Since(s) && AllApartBut(tx.id) && hashing.Hashed(tx) && tx.id in orphanPool.orphans
      modifies orphanPool`orphans, orphanPool`orphansByPrev
      ensures Processing(s) && SubMap(orphanPool.orphans, old(orphanPool.orphans))
      ensures old(ChainExact()) ==> ChainExact()
      ensures if removeRedeemers then IsWithoutClosure(old(orphanPool.Txs()), tx.id, orphanPool.Txs())
              else orphanPool.orphans == old(orphanPool.orphans) - {tx.id}
    {
      hide CoreValid, OrphansValid, IsWithoutClosure, PoolTxs, NewAreAccepted, DepCounts, TxsOf;
      DropOrphan(tx, removeRedeemers);
    }

    /** The state while the orphans of an output are tried: those tried so far miss something. */
    ghost predicate Visiting(before: Situation, s: Snapshot, missed: set<TxId>)
      reads this, utxoSet, feeRates, orphanPool, consensus
    {
      && Processing(s)
      && Now() == Asked(before, |missed|)
      && forall id :: id in missed ==> StillMisses(Deciding(), before, id, |missed|)
    }

    /** One of the orphans that wait for an output. */
    method VisitOrphan(tx: Transaction, ghost before: Situation, ghost missed: set<TxId>, ghost s: Snapshot)
      returns (r: AcceptResult)
      requires Visiting(before, s, missed) && tx.id !in missed
      requires tx.id in before.orphans && before.orphans[tx.id].tx == tx && hashing.Hashed(tx)
      modifies this`pool, this`chainedTransactions, this`chainedTransactionByPreviousOutpoint, utxoSet, feeRates
      modifies consensus
      modifies orphanPool`orphans, orphanPool`orphansByPrev
      ensures old(ChainExact()) ==> ChainExact()
      ensures old(ChainComplete()) && EntersUnredeemed(before.txs, r) ==> ChainComplete()
      ensures r.Missing? ==> Visiting(before, s, missed + {tx.id})
      ensures !r.Missing? ==> Processing(s) && IsAttempt(Deciding(), Asked(before, |missed|), tx, r, Now())
    {
      hide Processing, IsAttempt, StillMisses, Decision, ChainExact, PoolTxs;
      r := TryOrphan(tx, s);
      if r.Missing? {
        AttemptMisses(Deciding(), Asked(before, |missed|), tx, r, Now());
        MissesMore(Deciding(), before, missed, tx.id);
      }
    }

    /** The orphans that redeem one output, tried in an arbitrary order until one of them is
        accepted or found invalid. */
    method ProcessOutput(prevOut: Outpoint, ghost s: Snapshot)
      returns (failed: bool, accepted: seq<Transaction>, ghost look: Look)
      requires Processing(s)
      modifies this`pool, this`chainedTransactions, this`chainedTransactionByPreviousOutpoint, utxoSet, feeRates
      modifies consensus
      modifies orphanPool`orphans, orphanPool`orphansByPrev
      ensures Processing(s)
      ensures old(ChainExact()) ==> ChainExact()
      ensures old(ChainComplete()) && LookUnredeemed(look) ==> ChainComplete()
      ensures IsLook(Deciding(), look) && look.prevOut == prevOut && look.before == old(Now()) && look.after == Now()
      ensures failed == Fails(look) && accepted == AcceptedBy(look)
    {
      hide Processing, Visiting, ChainExact, AreWaiting, IsLook;
      ghost var before := Now();
      var bucket := if prevOut in orphanPool.orphansByPrev then orphanPool.orphansByPrev[prevOut] else map[];
      VisitStarts(prevOut, bucket, s);
      failed, accepted, look := TryWaiting(prevOut, bucket, before, s);
    }

    method TryWaiting(prevOut: Outpoint, bucket: map<TxId, Transaction>, ghost before: Situation, ghost s: Snapshot)
      returns (failed: bool, accepted: seq<Transaction>, ghost look: Look)
      requires Visiting(before, s, {}) && AreWaiting(prevOut, bucket, before)
      modifies this`pool, this`chainedTransactions, this`chainedTransactionByPreviousOutpoint, utxoSet, feeRates
      modifies consensus
      modifies orphanPool`orphans, orphanPool`orphansByPrev
      ensures Processing(s)
      ensures old(ChainExact()) ==> ChainExact()
      ensures old(ChainComplete()) && LookUnredeemed(look) ==> ChainComplete()
      ensures IsLook(Deciding(), look) && look.prevOut == prevOut && look.before == before && look.after == Now()
      ensures failed == Fails(look) && accepted == AcceptedBy(look)
    {
      hide Visiting, Processing, ChainExact, ChainComplete, IsAttempt, IsLook, Now, Unredeemed, StillMisses;
      var pending := bucket.Keys;
      assert bucket.Keys - pending == {};
      while pending != {}
        invariant pending <= bucket.Keys
        invariant Visiting(before, s, bucket.Keys - pending)
        invariant old(ChainExact()) ==> ChainExact()
        invariant old(ChainComplete()) ==> ChainComplete()
        decreases |pending|
      {
        var id :| id in pending;
        ghost var missed := bucket.Keys - pending;
        VisitingMissed(before, s, missed);
        var r := VisitOrphan(bucket[id], before, missed, s);
        if !r.Missing? {
          look := Look(prevOut, before, missed, Somebody(id, r), Now());
          LookSettles(Deciding(), look);
          return r.Failed?, AddedTxs(r), look;
        }
        pending := pending - {id};
        assert bucket.Keys - pending == missed + {id};
      }
      assert bucket.Keys - pending == bucket.Keys;
      look := Look(prevOut, before, bucket.Keys, Nobody, Now());
      VisitEnds(before, s, look);
      return false, [], look;
    }

    /** What waits for an output are the orphans that spend it. */
    ghost predicate AreWaiting(prevOut: Outpoint, bucket: map<TxId, Transaction>, before: Situation) {
      && bucket.Keys == WaitingFor(before.orphans, prevOut)
      && forall id :: id in bucket ==>
        bucket[id].id == id && before.orphans[id].tx == bucket[id] && hashing.Hashed(bucket[id])
    }

    lemma VisitStarts(prevOut: Outpoint, bucket: map<TxId, Transaction>, s: Snapshot)
      requires Processing(s)
      requires bucket == if prevOut in orphanPool.orphansByPrev then orphanPool.orphansByPrev[prevOut] else map[]
      ensures Visiting(Now(), s, {}) && AreWaiting(prevOut, bucket, Now())
    {
      forall id
        ensures id in bucket <==> id in WaitingFor(orphanPool.orphans, prevOut)
        ensures id in bucket ==>
          orphanPool.orphans[id].tx == bucket[id] && bucket[id].id == id && hashing.Hashed(bucket[id])
      {
        assert Listed(orphanPool.orphansByPrev, prevOut, id) <==> id in bucket;
      }
    }

    lemma VisitingMissed(before: Situation, s: Snapshot, missed: set<TxId>)
      requires Visiting(before, s, missed)
      ensures Processing(s) && forall id :: id in missed ==> StillMisses(Deciding(), before, id, |missed|)
    {
    }

    lemma VisitEnds(before: Situation, s: Snapshot, look: Look)
      requires Visiting(before, s, look.missed) && look.before == before && look.after == Now()
      requires look.missed == WaitingFor(before.orphans, look.prevOut) && look.outcome == Nobody
      ensures Processing(s) && IsLook(Deciding(), look)
    {
    }

    /** The orphans that redeem outputs of one transaction. */
    method ProcessItem(item: Transaction, ghost s: Snapshot)
      returns (failed: bool, accepted: seq<Transaction>, ghost looks: seq<Look>)
      requires Processing(s)
      modifies this`pool, this`chainedTransactions, this`chainedTransactionByPreviousOutpoint, utxoSet, feeRates
      modifies consensus
      modifies orphanPool`orphans, orphanPool`orphansByPrev
      ensures Processing(s)
      ensures old(ChainExact()) ==> ChainExact()
      ensures old(ChainComplete()) && LooksUnredeemed(looks) ==> ChainComplete()
      ensures IsItem(Deciding(), item, looks, old(Now()), Now())
      ensures failed == !NoFailure(looks) && accepted == AcceptedIn(looks)
    {
      hide *;
      failed, accepted, looks := false, [], [];
      UnredeemedNothing();
      ItemStarts(Deciding(), item, Now());
      for i := 0 to |item.outputs|
        invariant Processing(s)
        invariant old(ChainExact()) ==> ChainExact()
        invariant old(ChainComplete()) && LooksUnredeemed(looks) ==> ChainComplete()
        invariant |looks| == i && IsTrace(Deciding(), looks, old(Now()), Now())
        invariant PrevOuts(looks) == OutputsOf(item, i)
        invariant NoFailure(looks) && accepted == AcceptedIn(looks)
      {
        var more;
        ghost var look;
        failed, more, look := ProcessOutput(Outpoint(item.id, i), s);
        ItemMore(Deciding(), item, looks, old(Now()), look);
        UnredeemedMore(looks, look);
        accepted, looks := accepted + more, looks + [look];
        if failed {
          ItemEnds(Deciding(), item, looks, old(Now()), Now());
          return;
        }
      }
      ItemEnds(Deciding(), item, looks, old(Now()), Now());
    }

    method ClearSpenders(tx: Transaction)
      requires OrphansValid()
      modifies orphanPool`orphans, orphanPool`orphansByPrev
      ensures OrphansValid() && SubMap(orphanPool.orphans, old(orphanPool.orphans))
      ensures forall op :: op in tx.inputs ==> op !in orphanPool.orphansByPrev
      ensures orphanPool.orphansByPrev.Keys <= old(orphanPool.orphansByPrev.Keys)
      ensures IsWithoutClosureOf(old(orphanPool.Txs()), Spenders(old(orphanPool.Txs()), tx.inputs), orphanPool.Txs())
      ensures DepCounts(chainedTransactions) == old(DepCounts(chainedTransactions))
    {
      orphanPool.RemoveOrphanDoubleSpends(tx);
      SubMapIsSmaller(orphanPool.orphans, old(orphanPool.orphans));
    }

    /** removeOrphanDoubleSpends, with the invariants of the mempool. */
    method ClearDoubleSpend(tx: Transaction, ghost s: Snapshot)
      requires Processing(s)
      modifies orphanPool`orphans, orphanPool`orphansByPrev
      ensures Processing(s)
      ensures orphanPool.orphansByPrev.Keys <= old(orphanPool.orphansByPrev.Keys) - Inputs(tx)
      ensures IsCleared(Inputs(tx), old(orphanPool.orphans), orphanPool.orphans)
      ensures old(ChainExact()) ==> ChainExact()
    {
      hide IsWithoutClosureOf, SpendersOf, Spenders, CoreValid, ChainExact, NewAreAccepted, PoolTxs, TxsOf,
        WithinBounds, RulesValid;
      SpendersOfInputs(orphanPool.Txs(), tx);
      ClearSpenders(tx);
    }

    /** Removes exactly the orphans that spend an input of one of `txs`, with their redeemers. */
    method ClearDoubleSpends(txs: seq<Transaction>, ghost s: Snapshot)
      requires Processing(s)
      modifies orphanPool`orphans, orphanPool`orphansByPrev
      ensures Processing(s)
      ensures old(ChainExact()) ==> ChainExact()
      ensures orphanPool.orphansByPrev.Keys !! InputsOf(txs)
      ensures IsCleared(InputsOf(txs), old(orphanPool.orphans), orphanPool.orphans)
    {
      hide Processing, ChainExact, IsCleared, InputsOf;
      InputsOfAll(txs);
      ClearedNothing(orphanPool.orphans);
      for k := 0 to |txs|
        invariant Processing(s) && IsCleared(InputsOf(txs[..k]), old(orphanPool.orphans), orphanPool.orphans)
        invariant old(ChainExact()) ==> ChainExact()
        invariant orphanPool.orphansByPrev.Keys !! InputsOf(txs[..k])
      {
        InputsOfNext(txs, k);
        ghost var mid := orphanPool.orphans;
        ClearDoubleSpend(txs[k], s);
        ClearedMore(InputsOf(txs[..k]), Inputs(txs[k]), old(orphanPool.orphans), mid, orphanPool.orphans);
      }
    }

    /** Accepts orphans that depend on `acceptedTx`, and on those accepted. Every output of every
        one of them is looked up, in the order of acceptance. */
    method DrainOrphans(acceptedTx: Transaction, ghost s: Snapshot)
      returns (failed: bool, acceptedTxs: seq<Transaction>, ghost p: Pass)
      requires Processing(s)
      modifies this`pool, this`chainedTransactions, this`chainedTransactionByPreviousOutpoint, utxoSet, feeRates
      modifies consensus
      modifies orphanPool`orphans, orphanPool`orphansByPrev
      ensures Processing(s)
      ensures old(ChainExact()) ==> ChainExact()
      ensures old(ChainComplete()) && LooksUnredeemed(p.looks) ==> ChainComplete()
      ensures IsDrain(Deciding(), acceptedTx, p) && p.from == old(Now()) && p.drained == Now()
      ensures failed == !NoFailure(p.looks) && acceptedTxs == p.accepted
    {
      hide *;
      failed, acceptedTxs := false, [];
      p := Pass(Now(), [], [], Now());
      var processList := [acceptedTx];
      ghost var done: seq<Transaction> := [];
      DrainStarts(Deciding(), acceptedTx, Now());
      while processList != [] && !failed
        invariant Processing(s)
        invariant old(ChainExact()) ==> ChainExact()
        invariant old(ChainComplete()) && LooksUnredeemed(p.looks) ==> ChainComplete()
        invariant IsDraining(Deciding(), acceptedTx, p, done, processList) && p.from == old(Now()) && p.drained == Now()
        invariant failed == !NoFailure(p.looks) && acceptedTxs == p.accepted
        decreases 2 * |orphanPool.orphans| + |processList|
      {
        var more;
        ghost var looks;
        ProcessingNames(s);
        failed, more, looks := ProcessItem(processList[0], s);
        ProcessingNames(s);
        ItemShrinks(Deciding(), processList[0], looks, p.drained, Now());
        DrainMore(Deciding(), acceptedTx, p, done, processList, looks, Now());
        UnredeemedBoth(p.looks, looks);
        DrainedWith(p, looks, Now());
        p := WithItem(p, looks, Now());
        done := done + [processList[0]];
        acceptedTxs := acceptedTxs + more;
        processList := processList[1..] + more;
      }
      DrainEnds(Deciding(), acceptedTx, p, done, processList);
    }

    lemma ProcessingNames(s: Snapshot)
      requires Processing(s)
      ensures Named(Now().orphans) && Now().orphans == orphanPool.orphans
    {
    }

    /** Accepts orphans that depend on `acceptedTx`, and on those accepted, and then removes every
        orphan that spends what any of them spends. */
    method ProcessOrphans(acceptedTx: Transaction, ghost s: Snapshot)
      returns (failed: bool, acceptedTxs: seq<Transaction>, ghost p: Pass)
      requires Processing(s)
      modifies this`pool, this`chainedTransactions, this`chainedTransactionByPreviousOutpoint, utxoSet, feeRates
      modifies consensus
      modifies orphanPool`orphans, orphanPool`orphansByPrev
      ensures Processing(s)
      ensures old(ChainExact()) ==> ChainExact()
      ensures old(ChainComplete()) && LooksUnredeemed(p.looks) ==> ChainComplete()
      ensures IsProcessed(Deciding(), acceptedTx, p, Now()) && p.from == old(Now())
      ensures failed == !NoFailure(p.looks) && acceptedTxs == p.accepted
      ensures !failed ==> orphanPool.orphansByPrev.Keys !! InputsOf([acceptedTx] + acceptedTxs)
    {
      hide Processing, ChainExact, IsDrain, IsCleared, NoFailure, InputsOf;
      failed, acceptedTxs, p := DrainOrphans(acceptedTx, s);
      if !failed {
        ClearDoubleSpends([acceptedTx] + acceptedTxs, s);
      }
    }

    /** When the orphans are scanned next: a scan that was due sets it five minutes ahead. */
    ghost function NextScan(before: int, now: int, stored: bool): int {
      if stored && orphanPool.maxOrphanTxs > 0 && now > before then now + 300_000 else before
    }

    /** Stores `tx` as an orphan unless it is too large. */
    method MaybeAddOrphan(tx: Transaction, now: int) returns (stored: bool)
      requires OrphansValid() && OrphansApart() && hashing.Hashed(tx) && tx.id !in Txs() && tx.id !in orphanPool.orphans
      modifies orphanPool
      ensures OrphansValid() && OrphansApart()
      ensures stored <==> policy.serializedSize(tx) <= policy.maxOrphanTxSize
      ensures orphanPool.nextExpireScan == NextScan(old(orphanPool.nextExpireScan), now, stored)
      ensures stored && orphanPool.maxOrphanTxs > 0 ==>
        tx.id in orphanPool.orphans && orphanPool.orphans[tx.id].tx == tx
      ensures stored && orphanPool.maxOrphanTxs > 0 ==>
        IsStored(old(orphanPool.orphans), now, now > old(orphanPool.nextExpireScan), orphanPool.maxOrphanTxs, tx,
                 orphanPool.orphans)
      ensures !stored ==> orphanPool.orphans == old(orphanPool.orphans)
      ensures DepCounts(chainedTransactions) == old(DepCounts(chainedTransactions))
    {
      hide IsStored, PoolTxs, OrphanPool.Valid, Hashing.Hashed, SubMap, DepCounts;
      if policy.serializedSize(tx) > policy.maxOrphanTxSize {
        return false;
      }
      orphanPool.AddOrphan(tx, now);
      OrphansKept(old(orphanPool.orphans), tx);
      return true;
    }

    lemma OrphansKept(before: map<TxId, OrphanTx>, tx: Transaction)
      requires orphanPool.Valid() && hashing.Hashed(tx) && tx.id !in Txs() && tx.id !in before
      requires SubMap(orphanPool.orphans - {tx.id}, before)
      requires tx.id in orphanPool.orphans ==> orphanPool.orphans[tx.id].tx == tx
      requires forall id :: id in before ==> hashing.Hashed(before[id].tx) && id !in Txs()
      ensures OrphansValid() && OrphansApart()
    {
      hide PoolTxs, OrphanPool.Valid, Hashing.Hashed;
      forall id | id in orphanPool.orphans ensures hashing.Hashed(orphanPool.orphans[id].tx) && id !in Txs() {
        if id != tx.id {
          assert id in orphanPool.orphans - {tx.id};
        }
      }
    }

    /** What ValidateAndInsertTransaction comes to for a verdict on a transaction that passes the
        checks before validation; `broken` says that consensus failed. */
    ghost predicate IsInsertion(tx: Transaction, allowOrphan: bool, v: Verdict, broken: bool, r: InsertResult) {
      match Concluded(policy, tx, v)
      case Added(_) => r == if broken then Broken else Inserted
      case Missing(_) =>
        r == if allowOrphan && policy.serializedSize(tx) <= policy.maxOrphanTxSize then Orphaned else Refused
      case Rejected => r.Refused?
      case Failed => r.Broken?
    }

    /** With room for all orphans, an inserted transaction is there with all that was there before. */
    ghost predicate InsertedInto(before: map<TxId, Transaction>, tx: Transaction, v: Verdict)
      reads this
    {
      && v.Accepted? && SubMap(before, Txs())
      && tx.id in Txs() && Txs()[tx.id] == tx.(fee := v.fee, mass := v.mass)
    }

    /** A transaction that misses something is stored as an orphan, if orphans are allowed. */
    method KeepOrphan(tx: Transaction, allowOrphan: bool, now: int) returns (r: InsertResult)
      requires Valid() && OrphansApart() && hashing.Hashed(tx) && tx.id !in Txs() && tx.id !in orphanPool.orphans
      modifies orphanPool
      ensures Valid() && OrphansApart() && Txs() == old(Txs())
      ensures old(ChainExact()) ==> ChainExact()
      ensures r == if allowOrphan && policy.serializedSize(tx) <= policy.maxOrphanTxSize then Orphaned else Refused
      ensures orphanPool.nextExpireScan == NextScan(old(orphanPool.nextExpireScan), now, r.Orphaned?)
      ensures r.Orphaned? && orphanPool.maxOrphanTxs > 0 ==>
        IsStored(old(orphanPool.orphans), now, now > old(orphanPool.nextExpireScan), orphanPool.maxOrphanTxs, tx,
                 orphanPool.orphans)
      ensures r.Refused? ==> orphanPool.orphans == old(orphanPool.orphans)
    {
      r := Refused;
      if allowOrphan {
        var stored := MaybeAddOrphan(tx, now);
        r := if stored then Orphaned else Refused;
      }
    }

    /** The orphans are given their chance after `tx` was accepted. */
    method FollowAcceptance(tx: Transaction, ghost s: Snapshot) returns (failed: bool, ghost p: Pass)
      requires Processing(s)
      modifies this`pool, this`chainedTransactions, this`chainedTransactionByPreviousOutpoint, utxoSet, feeRates
      modifies consensus
      modifies orphanPool`orphans, orphanPool`orphansByPrev
      ensures Valid() && OrphansApart()
      ensures old(ChainExact()) ==> ChainExact()
      ensures old(ChainComplete()) && LooksUnredeemed(p.looks) ==> ChainComplete()
      ensures IsProcessed(Deciding(), tx, p, Now()) && p.from == old(Now())
      ensures consensus.failures == old(consensus.failures) + (if failed then 1 else 0)
      ensures !failed ==> orphanPool.orphansByPrev.Keys !! Inputs(tx)
      ensures HasRoom(old(Now())) ==> SubMap(old(Txs()), Txs())
      ensures orphanPool.nextExpireScan == old(orphanPool.nextExpireScan)
    {
      hide IsProcessed, InputsOf, NoFailure, WithinBounds, CoreValid, ChainExact, ChainComplete, LooksUnredeemed;
      ProcessingNames(s);
      var more;
      failed, more, p := ProcessOrphans(tx, s);
      ProcessedAdvances(Deciding(), tx, p, Now());
      InputsOfFirst(tx, more);
    }

    /** A transaction entered, and then the orphans were processed. */
    ghost predicate IsEntry(before: Situation, tx: Transaction, p: Pass)
      reads this, orphanPool, consensus
    {
      && p.from == before.(txs := p.from.txs, calls := before.calls + 1)
      && WithinLimit(feeRates.feeRate, before.txs[tx.id := tx], p.from.txs)
      && IsProcessed(Deciding(), tx, p, Now())
    }

    /** Whatever the transaction, the result is what checks, verdict, policy and orphan rules say; it is
        broken exactly when consensus failed. A transaction that enters is followed by its orphans. */
    method ValidateAndInsertTransaction(tx: Transaction, allowOrphan: bool, now: int)
      returns (r: InsertResult, ghost p: Pass)
      requires Valid() && OrphansApart() && hashing.Hashed(tx)
      modifies this`pool, this`chainedTransactions, this`chainedTransactionByPreviousOutpoint, utxoSet, feeRates
      modifies consensus
      modifies orphanPool
      ensures Valid() && OrphansApart()
      ensures old(ChainExact()) ==> ChainExact()
      ensures old(ChainComplete()) && LooksUnredeemed(p.looks)
        && (old(PassesChecks(tx, true)) ==> EntersUnredeemed(old(Txs()), Concluded(policy, tx, old(VerdictOn(tx)))))
        ==> ChainComplete()
      ensures r.Broken? <==> consensus.failures > old(consensus.failures)
      ensures orphanPool.nextExpireScan == NextScan(old(orphanPool.nextExpireScan), now, r.Orphaned?)
      ensures var v := old(VerdictOn(tx));
        old(PassesChecks(tx, true)) && v.Accepted? ==>
          (r.Refused? <==> OutOfBounds(policy, tx.(fee := v.fee, mass := v.mass)))
      ensures if old(PassesChecks(tx, true))
              then IsInsertion(tx, allowOrphan, old(VerdictOn(tx)), consensus.failures > old(consensus.failures), r)
              else r.Refused?
      ensures var result := Concluded(policy, tx, old(VerdictOn(tx)));
        if old(PassesChecks(tx, true)) && result.Added? then IsEntry(old(Now()), result.tx, p)
        else Txs() == old(Txs()) && (!r.Orphaned? ==> orphanPool.orphans == old(orphanPool.orphans))
      ensures r.Inserted? ==> orphanPool.orphansByPrev.Keys !! Inputs(tx)
      ensures r.Inserted? && old(|Txs()| + |orphanPool.orphans|) < TRANSACTION_LIMIT ==>
        InsertedInto(old(Txs()), tx, old(VerdictOn(tx)))
      ensures r.Orphaned? && orphanPool.maxOrphanTxs > 0 ==>
        IsStored(old(orphanPool.orphans), now, now > old(orphanPool.nextExpireScan), orphanPool.maxOrphanTxs, tx,
                 orphanPool.orphans)
    {
      hide IsInsertion, Finishes, IsOutcome, PassesChecks, Since, Processing, Valid, OrphansApart, ChainExact,
        IsEntry, IsProcessed, WithinLimit, VerdictOn, Concluded, PoolTxs;
      ghost var s, v, before := TakeSnapshot(), VerdictOn(tx), Now();
      SnapshotHolds();
      var result := BeginInsertion(tx, s);
      ghost var mid, midway := Txs(), Now();
      r, p := FinishInsertion(tx, allowOrphan, now, result, s);
      InsertionFollows(tx, allowOrphan, v, result, r);
      if v.Accepted? {
        AddedWithinBounds(policy, tx, v);
      }
      if result.Added? {
        EntryIs(before, midway, result.tx, p);
      }
      if r.Inserted? {
        EnteredWithRoom(s.txs, s.orphans, result.tx, mid, Txs());
      }
    }

    lemma EntryIs(before: Situation, mid: Situation, tx: Transaction, p: Pass)
      requires mid == before.(txs := mid.txs, calls := before.calls + 1) && p.from == mid
      requires WithinLimit(feeRates.feeRate, before.txs[tx.id := tx], mid.txs) && IsProcessed(Deciding(), tx, p, Now())
      ensures IsEntry(before, tx, p)
    {
    }

    lemma SnapshotHolds()
      ensures Since(TakeSnapshot())
    {
    }

    method BeginInsertion(tx: Transaction, ghost s: Snapshot) returns (result: AcceptResult)
      requires Valid() && OrphansApart() && Since(s) && hashing.Hashed(tx)
      modifies this`pool, this`chainedTransactions, this`chainedTransactionByPreviousOutpoint, utxoSet, feeRates
      modifies consensus
      ensures Processing(s)
      ensures old(ChainExact()) ==> ChainExact()
      ensures old(ChainComplete()) && EntersUnredeemed(old(Txs()), result) ==> ChainComplete()
      ensures if old(PassesChecks(tx, true)) then IsOutcome(tx, old(VerdictOn(tx)), result) else result.Rejected?
      ensures result.Missing? || result.Added? ==> tx.id !in old(Txs()) && tx.id !in orphanPool.orphans
      ensures !result.Added? ==> Txs() == old(Txs())
      ensures result.Added? && old(|Txs()|) < TRANSACTION_LIMIT ==> Txs() == old(Txs())[tx.id := result.tx]
      ensures result.Added? ==>
        WithinLimit(feeRates.feeRate, old(Txs())[result.tx.id := result.tx], Txs())
        && Now() == old(Now()).(txs := Txs(), calls := old(consensus.calls) + 1)
        && result.tx == tx.(fee := result.tx.fee, mass := result.tx.mass)
      ensures consensus.failures == old(consensus.failures) + (if result.Failed? then 1 else 0)
    {
      hide IsOutcome, WithinLimit, VerdictOn, ChainExact, Core, Since;
      ghost var passes, v := PassesChecks(tx, true), VerdictOn(tx);
      result := AcceptSince(tx, true, s);
      if passes {
        OutcomeMeans(tx, v, result);
      }
    }

    ghost predicate Finishes(tx: Transaction, allowOrphan: bool, result: AcceptResult, r: InsertResult) {
      match result
      case Rejected => r.Refused?
      case Failed => r.Broken?
      case Added(_) => r.Inserted? || r.Broken?
      case Missing(_) =>
        r == if allowOrphan && policy.serializedSize(tx) <= policy.maxOrphanTxSize then Orphaned else Refused
    }

    lemma InsertionFollows(tx: Transaction, allowOrphan: bool, v: Verdict, result: AcceptResult, r: InsertResult)
      requires Finishes(tx, allowOrphan, result, r)
      ensures IsOutcome(tx, v, result) ==>
        IsInsertion(tx, allowOrphan, v, r.Broken?, r) && result == Concluded(policy, tx, v)
      ensures result.Rejected? ==> r.Refused?
      ensures r.Inserted? ==>
        result.Added? && (IsOutcome(tx, v, result) ==> v.Accepted? && result.tx == tx.(fee := v.fee, mass := v.mass))
    {
    }

    /** What follows an attempt to accept a transaction. */
    method FinishInsertion(tx: Transaction, allowOrphan: bool, now: int, result: AcceptResult, ghost s: Snapshot)
      returns (r: InsertResult, ghost p: Pass)
      requires Processing(s) && hashing.Hashed(tx)
      requires result.Missing? ==> tx.id !in Txs() && tx.id !in orphanPool.orphans
      modifies this`pool, this`chainedTransactions, this`chainedTransactionByPreviousOutpoint, utxoSet, feeRates
      modifies consensus
      modifies orphanPool
      ensures Valid() && OrphansApart()
      ensures old(ChainExact()) ==> ChainExact()
      ensures old(ChainComplete()) && LooksUnredeemed(p.looks) ==> ChainComplete()
      ensures Finishes(tx, allowOrphan, result, r)
      ensures consensus.failures == old(consensus.failures) + (if r.Broken? && result.Added? then 1 else 0)
      ensures orphanPool.nextExpireScan == NextScan(old(orphanPool.nextExpireScan), now, r.Orphaned?)
      ensures result.Added? ==> IsProcessed(Deciding(), result.tx, p, Now()) && p.from == old(Now())
      ensures r.Inserted? ==> orphanPool.orphansByPrev.Keys !! Inputs(result.tx)
      ensures r.Inserted? && HasRoom(old(Now())) ==> SubMap(old(Txs()), Txs())
      ensures r.Orphaned? && orphanPool.maxOrphanTxs > 0 ==>
        IsStored(old(orphanPool.orphans), now, now > old(orphanPool.nextExpireScan), orphanPool.maxOrphanTxs, tx,
                 orphanPool.orphans)
      ensures !result.Added? ==> Txs() == old(Txs()) && (!r.Orphaned? ==> orphanPool.orphans == old(orphanPool.orphans))
    {
      hide IsProcessed, WithinBounds, IsStored, HasRoom, CoreValid, ChainExact, ChainComplete, LooksUnredeemed, PoolTxs;
      p := Pass(Now(), [], [], Now());
      match result {
        case Rejected => r := Refused;
        case Failed => r := Broken;
        case Added(acceptedTx) =>
          var failed;
          failed, p := FollowAcceptance(acceptedTx, s);
          r := if failed then Broken else Inserted;
        case Missing(_) => r := KeepOrphan(tx, allowOrphan, now);
      }
    }

    /** The state between two transactions of a block: `mined` are the block's transactions,
        `done` the outpoints whose spenders left the mempool and `cleared` those whose spenders
        left the orphans. */
    ghost predicate Settled(mined: set<TxId>, done: set<Outpoint>, cleared: set<Outpoint>, n: nat)
      reads this, utxoSet, feeRates, orphanPool, consensus
    {
      && Valid() && OrphansApart() && n <= |consensus.accepted|
      && SpendsSettled(mined, done, Txs(), utxoSet.transactionByPreviousOutpoint, consensus.accepted, n)
      && orphanPool.orphansByPrev.Keys !! cleared
    }

    /** The double spends of a block transaction leave the mempool, with their redeemers. */
    method SettleDoubleSpends(tx: Transaction, ghost mined: set<TxId>, ghost done: set<Outpoint>, ghost n: nat)
      returns (status: Status)
      requires Settled(mined, done, done, n) && tx.id in mined
      modifies this`pool, this`chainedTransactions, this`chainedTransactionByPreviousOutpoint, utxoSet, feeRates
      ensures status.Ok? && Settled(mined, done + Inputs(tx), done, n)
      ensures IsWithoutClosureOf(old(Txs()), DoubleSpenders(old(Txs()), tx, |tx.inputs|), Txs())
      ensures old(ChainExact()) ==> ChainExact()
      ensures old(ChainComplete()) ==> ChainComplete()
    {
      hide CoreValid, OrphansValid, WithinBounds, ChainExact, ChainComplete, IsWithoutClosureOf, PoolTxs, SpendsSettled;
      status := RemoveSpenders(tx, mined, done, n);
      BoundsKept(policy, Txs(), old(Txs()));
    }

    method RemoveSpenders(tx: Transaction, ghost mined: set<TxId>, ghost done: set<Outpoint>, ghost n: nat)
      returns (status: Status)
      requires CoreValid() && tx.id in mined
      requires SpendsSettled(mined, done, Txs(), utxoSet.transactionByPreviousOutpoint, consensus.accepted, n)
      modifies this`pool, this`chainedTransactions, this`chainedTransactionByPreviousOutpoint, utxoSet, feeRates
      ensures status.Ok?
      ensures CoreValid() && |Txs()| <= |old(Txs())| && SubMap(Txs(), old(Txs()))
      ensures IsWithoutClosureOf(old(Txs()), DoubleSpenders(old(Txs()), tx, |tx.inputs|), Txs())
      ensures SpendsSettled(mined, done + Inputs(tx), Txs(), utxoSet.transactionByPreviousOutpoint,
                            consensus.accepted, n)
      ensures old(ChainExact()) ==> ChainExact()
      ensures old(ChainComplete()) ==> ChainComplete()
    {
      status := RemoveDoubleSpends(tx);
      SettledAfterRemoval(mined, done, consensus.accepted, n, tx, old(Txs()),
                          old(utxoSet.transactionByPreviousOutpoint),
                          Txs(), utxoSet.transactionByPreviousOutpoint);
      SubMapIsSmaller(Txs(), old(Txs()));
    }

    /** A block transaction is no orphan any more. */
    method SettleOrphan(tx: Transaction, ghost mined: set<TxId>, ghost done: set<Outpoint>,
                        ghost cleared: set<Outpoint>, ghost n: nat)
      requires Settled(mined, done, cleared, n) && hashing.Hashed(tx)
      modifies orphanPool`orphans, orphanPool`orphansByPrev
      ensures Settled(mined, done, cleared, n) && orphanPool.orphans == old(orphanPool.orphans) - {tx.id}
      ensures old(ChainExact()) ==> ChainExact()
    {
      DropOrphan(tx, false);
    }

    /** The orphans that waited for a block transaction enter, and its double spends leave the orphans. */
    method AcceptOrphansOf(tx: Transaction, ghost mined: set<TxId>, ghost done: set<Outpoint>, ghost n: nat)
      returns (failed: bool, acceptedTxs: seq<Transaction>, ghost p: Pass)
      requires Settled(mined, done + Inputs(tx), done, n)
      modifies this`pool, this`chainedTransactions, this`chainedTransactionByPreviousOutpoint, utxoSet, feeRates
      modifies consensus
      modifies orphanPool`orphans, orphanPool`orphansByPrev
      ensures Valid() && OrphansApart()
      ensures !failed ==> Settled(mined, done + Inputs(tx), done + Inputs(tx), n)
      ensures old(ChainExact()) ==> ChainExact()
      ensures old(ChainComplete()) && LooksUnredeemed(p.looks) ==> ChainComplete()
      ensures IsProcessed(Deciding(), tx, p, Now()) && p.from == old(Now())
      ensures failed == !NoFailure(p.looks) && acceptedTxs == p.accepted
    {
      hide IsProcessed, NoFailure;
      failed, acceptedTxs, p := ProcessOrphans(tx, TakeSnapshot());
      InputsOfFirst(tx, acceptedTxs);
      SettledAfterAcceptance(mined, done + Inputs(tx), n, old(Txs()), old(utxoSet.transactionByPreviousOutpoint),
                             old(consensus.accepted), Txs(), utxoSet.transactionByPreviousOutpoint, consensus.accepted);
    }

    /** One transaction of a block, after the whole block left the mempool. */
    method SettleTransaction(tx: Transaction, ghost mined: set<TxId>, ghost done: set<Outpoint>, ghost n: nat)
      returns (failed: bool, acceptedTxs: seq<Transaction>, ghost step: BlockStep)
      requires Settled(mined, done, done, n) && hashing.Hashed(tx) && tx.id in mined
      modifies this`pool, this`chainedTransactions, this`chainedTransactionByPreviousOutpoint, utxoSet, feeRates
      modifies consensus
      modifies orphanPool`orphans, orphanPool`orphansByPrev
      ensures Valid() && OrphansApart()
      ensures !failed ==> Settled(mined, done + Inputs(tx), done + Inputs(tx), n)
      ensures old(ChainExact()) ==> ChainExact()
      ensures old(ChainComplete()) && LooksUnredeemed(step.p.looks) ==> ChainComplete()
      ensures IsBlockStep(Deciding(), step) && step.tx == tx && step.before == old(Now()) && step.after == Now()
      ensures failed == !NoFailure(step.p.looks) && acceptedTxs == step.p.accepted
    {
      hide Settled, Valid, OrphansApart, IsProcessed, NoFailure, LooksUnredeemed, IsWithoutClosureOf, ChainExact,
        ChainComplete, PoolTxs, Hashing.Hashed;
      ghost var before, p := Now(), Pass(Now(), [], [], Now());
      var status := SettleDoubleSpends(tx, mined, done, n);
      if status.Err? {
        return true, [], BlockStep(tx, before, p, Now());
      }
      SettleOrphan(tx, mined, done + Inputs(tx), done, n);
      failed, acceptedTxs, p := AcceptOrphansOf(tx, mined, done, n);
      step := BlockStep(tx, before, p, Now());
    }

    /** The block's transactions leave the mempool. */
    method BeginBlock(txs: seq<Transaction>) returns (status: Status)
      requires Valid() && OrphansApart() && |txs| > 0
      modifies this`pool, this`chainedTransactions, this`chainedTransactionByPreviousOutpoint, utxoSet, feeRates
      modifies chainedTransactionByPreviousOutpoint.Values
      ensures status.Ok?
      ensures Settled(IdsOf(txs[1..]), {}, {}, |consensus.accepted|) && Txs() == old(Txs()) - IdsOf(txs[1..])
      ensures old(ChainExact()) && BlockHoldsParents(old(PoolsNow()), IdsOf(txs[1..])) ==> ChainExact()
      ensures old(ChainExact() && ChainComplete()) ==> ChainComplete()
    {
      hide Settled, CoreValid, OrphansValid, WithinBounds, ChainExact, ChainComplete, Mined, BlockHoldsParents, IdsOf,
        PoolTxs;
      status := RemoveTransactionsFromPool(txs);
      SettlingStarts(old(Txs()), IdsOf(txs[1..]));
    }

    lemma SettlingStarts(txs: map<TxId, Transaction>, mined: set<TxId>)
      requires CoreValid() && OrphansValid() && RulesValid()
      requires Txs() == txs - mined && |txs| <= TRANSACTION_LIMIT && WithinBounds(policy, txs)
      requires forall id :: id in orphanPool.orphans ==> id !in txs
      ensures Settled(mined, {}, {}, |consensus.accepted|)
    {
      hide CoreValid, OrphansValid, RulesValid, PoolTxs, WithinBounds, SpendsSettled;
      WithoutMined(policy, txs, mined);
      NothingSettled(mined, Txs(), utxoSet.transactionByPreviousOutpoint, consensus.accepted);
    }

    /** Handles the transactions of a new block, the coinbase first. Whatever the block, the
        mempool stays valid. If the block holds the parents of its chained transactions, the
        bookkeeping of chained transactions stays exact. It fails exactly when consensus does. The
        steps tell what happens to the mempool and to the orphans, transaction by transaction.
        On success, nothing in the mempool and no orphan spends an outpoint that the block spends,
        unless consensus accepted such a spend meanwhile. */
    method HandleNewBlockTransactions(txs: seq<Transaction>)
      returns (failed: bool, acceptedTxs: seq<Transaction>, ghost steps: seq<BlockStep>)
      requires Valid() && OrphansApart() && |txs| > 0
      requires forall k :: 0 <= k < |txs| ==> hashing.Hashed(txs[k])
      modifies this`pool, this`chainedTransactions, this`chainedTransactionByPreviousOutpoint, utxoSet, feeRates
      modifies consensus
      modifies orphanPool`orphans, orphanPool`orphansByPrev, chainedTransactionByPreviousOutpoint.Values
      ensures Valid() && OrphansApart()
      ensures old(ChainExact()) && BlockHoldsParents(old(PoolsNow()), IdsOf(txs[1..])) ==> ChainExact()
      ensures old(ChainExact() && ChainComplete()) && StepsUnredeemed(steps) ==> ChainComplete()
      ensures IsBlockRun(Deciding(), txs[1..], steps, Without(old(Now()), IdsOf(txs[1..])), Now())
      ensures failed == !Succeed(steps) && acceptedTxs == (if failed then [] else AcceptedInBlock(steps))
      ensures failed <==> consensus.failures > old(consensus.failures)
      ensures !failed ==> |steps| == |txs| - 1
      ensures !failed ==> forall op :: op in InputsOf(txs[1..]) ==>
        && op !in orphanPool.orphansByPrev
        && (op in utxoSet.transactionByPreviousOutpoint ==>
              op in SpentSince(consensus.accepted, |old(consensus.accepted)|))
      ensures !failed ==> forall id :: id in IdsOf(txs[1..]) ==>
        && id !in orphanPool.orphans
        && (id in Txs() ==> Inputs(Txs()[id]) <= SpentSince(consensus.accepted, |old(consensus.accepted)|))
      ensures KeepsUnaffected(old(Now()), txs[1..], Now()) && KeepsSpared(old(Now()), txs[1..], steps, Now())
      ensures OnlyAdds(old(Txs()), AcceptedInBlock(steps), Txs())
      ensures forall tx :: tx in acceptedTxs ==> WasOrphan(old(orphanPool.orphans), tx)
    {
      hide Settled, Valid, OrphansApart, ChainExact, ChainComplete, StepsUnredeemed, IsBlockRun, Succeed, SpentSince,
        InputsOf, OnlyAdds, WasOrphan, AcceptedInBlock, KeepsUnaffected, KeepsSpared, IdsOf, BlockHoldsParents;
      ghost var before := Now();
      NowApart();
      var status := BeginBlock(txs);
      if status.Err? {
        return true, [], [];
      }
      failed, acceptedTxs, steps := SettleBlock(txs[1..], IdsOf(txs[1..]), |old(consensus.accepted)|);
      BlockKeeps(Deciding(), txs[1..], steps, before, Now());
      if !failed {
        SettledMeans(IdsOf(txs[1..]), InputsOf(txs[1..]), |old(consensus.accepted)|);
      }
    }

    /** The transactions of a block without the coinbase, one after another. */
    method SettleBlock(txs: seq<Transaction>, ghost mined: set<TxId>, ghost n: nat)
      returns (failed: bool, acceptedTxs: seq<Transaction>, ghost steps: seq<BlockStep>)
      requires Settled(mined, {}, {}, n) && mined == IdsOf(txs)
      requires forall k :: 0 <= k < |txs| ==> hashing.Hashed(txs[k])
      modifies this`pool, this`chainedTransactions, this`chainedTransactionByPreviousOutpoint, utxoSet, feeRates
      modifies consensus
      modifies orphanPool`orphans, orphanPool`orphansByPrev
      ensures Valid() && OrphansApart()
      ensures !failed ==> Settled(mined, InputsOf(txs), InputsOf(txs), n)
      ensures old(ChainExact()) ==> ChainExact()
      ensures old(ChainComplete()) && StepsUnredeemed(steps) ==> ChainComplete()
      ensures IsBlockRun(Deciding(), txs, steps, old(Now()), Now())
      ensures failed == !Succeed(steps) && acceptedTxs == (if failed then [] else AcceptedInBlock(steps))
      ensures !failed ==> |steps| == |txs|
    {
      hide *;
      failed, acceptedTxs, steps := false, [], [];
      InputsOfAll(txs);
      BlockRunStarts(Deciding(), txs, Now());
      for i := 0 to |txs|
        invariant Settled(mined, InputsOf(txs[..i]), InputsOf(txs[..i]), n)
        invariant old(ChainExact()) ==> ChainExact()
        invariant old(ChainComplete()) && StepsUnredeemed(steps) ==> ChainComplete()
        invariant |steps| == i && IsBlockRun(Deciding(), txs, steps, old(Now()), Now()) && Succeed(steps)
        invariant acceptedTxs == AcceptedInBlock(steps)
      {
        InputsOfNext(txs, i);
        MinedHolds(txs, i);
        var more;
        ghost var step;
        failed, more, step := SettleTransaction(txs[i], mined, InputsOf(txs[..i]), n);
        BlockRunMore(Deciding(), txs, steps, old(Now()), step);
        StepsUnredeemedMore(steps, step);
        steps := steps + [step];
        if failed {
          return true, [], steps;
        }
        acceptedTxs := acceptedTxs + more;
      }
      SettledIsValid(mined, InputsOf(txs), n);
      failed := false;
    }

    lemma NowApart()
      requires Valid() && OrphansApart()
      ensures Named(Now().orphans) && forall id :: id in Now().orphans ==> id !in Now().txs
    {
    }

    /** What it means for the mempool that a block is settled. */
    lemma SettledMeans(mined: set<TxId>, ops: set<Outpoint>, n: nat)
      requires Settled(mined, ops, ops, n)
      ensures forall op :: op in ops ==>
        && op !in orphanPool.orphansByPrev
        && (op in utxoSet.transactionByPreviousOutpoint ==> op in SpentSince(consensus.accepted, n))
      ensures forall id :: id in mined && id in Txs() ==> Inputs(Txs()[id]) <= SpentSince(consensus.accepted, n)
    {
    }


    lemma SettledIsValid(mined: set<TxId>, done: set<Outpoint>, n: nat)
      requires Settled(mined, done, done, n)
      ensures Valid() && OrphansApart()
    {
    }
  }
}

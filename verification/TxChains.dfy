/** mempool.go, chained transactions: accepted transactions that spend outputs of
    transactions still in the mempool, and the count of such outputs they wait for. */
module TxChains {
  import opened MempoolInvariant
  import opened MempoolUtxoSets
  import opened Transactions

  /** Shared by reference between the pools and the outpoint index, so that a count
      decremented through one is seen through the others. */
  class TxDescriptor {
    const tx: Transaction
    var depCount: int

    constructor (tx: Transaction, depCount: int)
      ensures this.tx == tx && this.depCount == depCount
    {
      this.tx, this.depCount := tx, depCount;
    }
  }

  type Descriptors = map<TxId, TxDescriptor>
  type ByPrevious = map<Outpoint, TxDescriptor>

  /** The transactions described by the two pools. */
  ghost function PoolTxs(pool: Descriptors, chained: Descriptors): map<TxId, Transaction> {
    map id | id in pool.Keys + chained.Keys :: if id in pool then pool[id].tx else chained[id].tx
  }

  lemma PoolTxsIds(pool: Descriptors, chained: Descriptors)
    ensures forall id :: id in PoolTxs(pool, chained) <==> id in pool || id in chained
  {
  }

  lemma PoolTxsSize(pool: Descriptors, chained: Descriptors)
    requires pool.Keys !! chained.Keys
    ensures |PoolTxs(pool, chained)| == |pool| + |chained|
  {
    assert PoolTxs(pool, chained).Keys == pool.Keys + chained.Keys;
  }

  lemma PoolTxsWith(pool: Descriptors, chained: Descriptors, d: TxDescriptor)
    requires d.tx.id !in pool && d.tx.id !in chained
    ensures PoolTxs(pool[d.tx.id := d], chained) == PoolTxs(pool, chained)[d.tx.id := d.tx]
    ensures PoolTxs(pool, chained[d.tx.id := d]) == PoolTxs(pool, chained)[d.tx.id := d.tx]
  {
  }

  lemma PoolTxsMoved(pool: Descriptors, chained: Descriptors, d: TxDescriptor)
    requires d.tx.id !in pool && d.tx.id in chained && chained[d.tx.id].tx == d.tx
    ensures PoolTxs(pool[d.tx.id := d], chained - {d.tx.id}) == PoolTxs(pool, chained)
  {
  }

  /** The outpoints that `d` is recorded under. */
  ghost function Entries(byPrev: ByPrevious, d: TxDescriptor): set<Outpoint> {
    set op | op in byPrev && byPrev[op] == d
  }

  /** Every record leads to a chained transaction that spends the outpoint, and the
      outpoint is created by a transaction of the mempool. */
  ghost predicate Links(txs: map<TxId, Transaction>, chained: Descriptors, byPrev: ByPrevious) {
    forall op :: op in byPrev ==>
      && byPrev[op].tx.id in chained && chained[byPrev[op].tx.id] == byPrev[op] && op in byPrev[op].tx.inputs
      && op.txId in txs && op.index < |txs[op.txId].outputs|
  }

  ghost function DepCounts(chained: Descriptors): map<TxId, int>
    reads chained.Values
  {
    map id | id in chained :: chained[id].depCount
  }

  /** Every chained transaction waits for as many outputs as it has records, and for at least one. */
  ghost predicate CountsExact(counts: map<TxId, int>, chained: Descriptors, byPrev: ByPrevious) {
    && counts.Keys == chained.Keys
    && forall id :: id in chained ==> counts[id] == |Entries(byPrev, chained[id])| > 0
  }

  lemma DepCountsOfSome(some: Descriptors, all: Descriptors)
    requires forall id :: id in some ==> id in all && some[id] == all[id]
    ensures DepCounts(some) == map id | id in some :: DepCounts(all)[id]
  {
  }

  method CountDown(d: TxDescriptor, ghost all: Descriptors)
    modifies d
    ensures d.depCount == old(d.depCount) - 1
    ensures d.tx.id in all && all[d.tx.id] == d && (forall id :: id in all ==> all[id].tx.id == id) ==>
      DepCounts(all) == old(DepCounts(all))[d.tx.id := old(d.depCount) - 1]
  {
    d.depCount := d.depCount - 1;
  }

  ghost predicate Describes(chained: Descriptors, txs: map<TxId, Transaction>) {
    forall id :: id in chained ==> id in txs && chained[id].tx == txs[id] && txs[id].id == id
  }

  /** The records once `tx` is removed after all its redeemers. */
  ghost function WithoutRecords(chained: Descriptors, byPrev: ByPrevious, tx: Transaction): ByPrevious {
    if tx.id in chained then byPrev - (set op | op in tx.inputs) else byPrev
  }

  lemma LinksAfterRemoval(txs: map<TxId, Transaction>, spentBy: map<Outpoint, Transaction>,
                          chained: Descriptors, byPrev: ByPrevious, tx: Transaction)
    requires SpendsExact(txs, spentBy) && Describes(chained, txs) && Links(txs, chained, byPrev)
    requires tx.id in txs && txs[tx.id] == tx && forall b :: b in txs ==> !Redeems(txs, tx.id, b)
    ensures Links(txs - {tx.id}, chained - {tx.id}, WithoutRecords(chained, byPrev, tx))
    ensures forall id :: id in chained && id != tx.id ==>
      Entries(WithoutRecords(chained, byPrev, tx), chained[id]) == Entries(byPrev, chained[id])
  {
    var byPrev' := WithoutRecords(chained, byPrev, tx);
    forall op | op in byPrev
      ensures op.txId != tx.id
      ensures op in byPrev' <==> byPrev[op].tx.id != tx.id
    {
      var id := byPrev[op].tx.id;
      assert !Redeems(txs, tx.id, id);
      if op in tx.inputs {
        NoDoubleSpend(txs, spentBy, tx.id, id, op);
      }
    }
  }

  lemma CountsAfterRemoval(counts: map<TxId, int>, chained: Descriptors, byPrev: ByPrevious,
                           byPrev': ByPrevious, removed: TxId)
    requires CountsExact(counts, chained, byPrev)
    requires forall id :: id in chained && id != removed ==>
      Entries(byPrev', chained[id]) == Entries(byPrev, chained[id])
    ensures CountsExact(counts - {removed}, chained - {removed}, byPrev')
  {
    var chained' := chained - {removed};
    forall id | id in chained' ensures counts[id] == |Entries(byPrev', chained'[id])| > 0 {
      assert chained'[id] == chained[id];
    }
  }

  lemma DistinctCount<T(!new)>(s: seq<T>)
    requires Distinct(s)
    ensures |(set x | x in s)| == |s|
  {
    if s != [] {
      var n := |s| - 1;
      DistinctCount(s[..n]);
      assert s == s[..n] + [s[n]];
      assert (set x | x in s) == (set x | x in s[..n]) + {s[n]};
    }
  }

  ghost function WithRecords(byPrev: ByPrevious, d: TxDescriptor, parents: seq<Outpoint>): ByPrevious {
    byPrev + map op | op in parents :: d
  }

  ghost function ChainedWith(chained: Descriptors, d: TxDescriptor, parents: seq<Outpoint>): Descriptors {
    if parents == [] then chained else chained[d.tx.id := d]
  }

  ghost function CountsWith(counts: map<TxId, int>, d: TxDescriptor, parents: seq<Outpoint>): map<TxId, int> {
    if parents == [] then counts else counts[d.tx.id := |parents|]
  }

  /** A record is for a spent outpoint. */
  lemma RecordedIsSpent(txs: map<TxId, Transaction>, spentBy: map<Outpoint, Transaction>,
                        chained: Descriptors, byPrev: ByPrevious, op: Outpoint)
    requires SpendsExact(txs, spentBy) && Describes(chained, txs) && Links(txs, chained, byPrev)
    ensures op in byPrev ==> op in spentBy
  {
    if op in byPrev {
      assert op in txs[byPrev[op].tx.id].inputs;
    }
  }

  lemma EntriesAfterAddition(byPrev: ByPrevious, d: TxDescriptor, parents: seq<Outpoint>)
    requires Distinct(parents) && forall op :: op in parents ==> op !in byPrev
    requires forall op :: op in byPrev ==> byPrev[op] != d
    ensures |Entries(WithRecords(byPrev, d, parents), d)| == |parents|
    ensures forall e: TxDescriptor :: e != d ==>
      Entries(WithRecords(byPrev, d, parents), e) == Entries(byPrev, e)
  {
    assert Entries(WithRecords(byPrev, d, parents), d) == set op | op in parents;
    DistinctCount(parents);
  }

  lemma CountsAfterAddition(counts: map<TxId, int>, chained: Descriptors, byPrev: ByPrevious,
                            d: TxDescriptor, parents: seq<Outpoint>)
    requires CountsExact(counts, chained, byPrev) && d.tx.id !in chained && parents != []
    requires forall id :: id in chained ==> chained[id] != d
    requires Distinct(parents) && forall op :: op in parents ==> op !in byPrev
    requires forall op :: op in byPrev ==> byPrev[op] != d
    ensures CountsExact(counts[d.tx.id := |parents|], chained[d.tx.id := d], WithRecords(byPrev, d, parents))
  {
    EntriesAfterAddition(byPrev, d, parents);
    var chained', byPrev' := chained[d.tx.id := d], WithRecords(byPrev, d, parents);
    forall id | id in chained && id != d.tx.id ensures counts[id] == |Entries(byPrev', chained'[id])| > 0 {
      assert chained'[id] == chained[id];
    }
  }

  /** Records added for a transaction new to the mempool. */
  lemma LinksAfterAddition(txs: map<TxId, Transaction>, unspent: map<Outpoint, UTXOEntry>,
                           chained: Descriptors, byPrev: ByPrevious, d: TxDescriptor, parents: seq<Outpoint>)
    requires OutputsExact(txs, unspent) && Describes(chained, txs) && Links(txs, chained, byPrev)
    requires d.tx.id !in txs && forall op :: op in parents ==> op !in byPrev
    requires forall op :: op in parents ==> op in d.tx.inputs && op in unspent
    ensures Links(txs[d.tx.id := d.tx], chained[d.tx.id := d], WithRecords(byPrev, d, parents))
  {
  }

  /** The chain bookkeeping after `d` entered with the given parents. */
  lemma ChainAfterAddition(txs: map<TxId, Transaction>, spentBy: map<Outpoint, Transaction>,
                           unspent: map<Outpoint, UTXOEntry>,
                           counts: map<TxId, int>, chained: Descriptors, byPrev: ByPrevious,
                           d: TxDescriptor, parents: seq<Outpoint>)
    requires SpendsExact(txs, spentBy) && OutputsExact(txs, unspent) && Describes(chained, txs)
    requires Links(txs, chained, byPrev) && CountsExact(counts, chained, byPrev)
    requires d.tx.id !in txs && Distinct(parents)
    requires forall op :: op in parents ==> op in d.tx.inputs && op in unspent && op !in spentBy
    ensures Links(txs[d.tx.id := d.tx], ChainedWith(chained, d, parents), WithRecords(byPrev, d, parents))
    ensures CountsExact(CountsWith(counts, d, parents), ChainedWith(chained, d, parents),
                        WithRecords(byPrev, d, parents))
  {
    RecordsAvoid(txs, spentBy, chained, byPrev, d, parents);
    if parents == [] {
      assert WithRecords(byPrev, d, parents) == byPrev;
    } else {
      LinksAfterAddition(txs, unspent, chained, byPrev, d, parents);
      CountsAfterAddition(counts, chained, byPrev, d, parents);
    }
  }

  lemma RecordsAvoid(txs: map<TxId, Transaction>, spentBy: map<Outpoint, Transaction>,
                     chained: Descriptors, byPrev: ByPrevious, d: TxDescriptor, parents: seq<Outpoint>)
    requires SpendsExact(txs, spentBy) && Describes(chained, txs) && Links(txs, chained, byPrev)
    requires d.tx.id !in txs && forall op :: op in parents ==> op !in spentBy
    ensures forall op :: op in parents ==> op !in byPrev
    ensures forall op :: op in byPrev ==> byPrev[op] != d
    ensures forall id :: id in chained ==> chained[id] != d
  {
    forall op | op in byPrev ensures op in spentBy {
      RecordedIsSpent(txs, spentBy, chained, byPrev, op);
    }
  }

  /** The pools as they were before a block arrived. */
  datatype Pools = Pools(pool: Descriptors, chained: Descriptors, byPrev: ByPrevious)

  /** The records are those before without `cut`, and every descriptor there was counts its own. */
  ghost predicate Counted(before: Pools, cut: set<Outpoint>, byPrev: ByPrevious, counts: map<TxId, int>) {
    && byPrev == before.byPrev - cut
    && counts.Keys == before.chained.Keys
    && (forall id :: id in before.chained ==> counts[id] == |Entries(byPrev, before.chained[id])|)
  }

  /** A transaction that was chained is in the pool from the moment it waits for nothing,
      and no earlier; the transactions `gone` are nowhere. */
  ghost predicate Placed(before: Pools, gone: set<TxId>, pool: Descriptors, chained: Descriptors,
                         counts: map<TxId, int>)
    requires counts.Keys == before.chained.Keys
  {
    && (forall id :: id in chained <==> id in before.chained && id !in gone && counts[id] != 0)
    && (forall id :: id in chained ==> chained[id] == before.chained[id])
    && (forall id :: id in pool <==> id !in gone && (id in before.pool || (id in before.chained && counts[id] == 0)))
    && (forall id :: id in pool ==> pool[id] == if id in before.pool then before.pool[id] else before.chained[id])
  }

  /** The pools after the transactions `gone` were mined and the records of the outpoints `cut` dropped. */
  ghost predicate MinedState(before: Pools, cut: set<Outpoint>, gone: set<TxId>, now: Pools, counts: map<TxId, int>) {
    Counted(before, cut, now.byPrev, counts) && Placed(before, gone, now.pool, now.chained, counts)
  }

  ghost predicate ExactPools(txs: map<TxId, Transaction>, before: Pools) {
    && before.pool.Keys !! before.chained.Keys
    && Describes(before.chained, txs) && Links(txs, before.chained, before.byPrev)
  }

  /** Dropping one record: the count goes down, and the last record moves its transaction to the pool. */
  ghost function DropRecord(now: Pools, op: Outpoint, waiting: int): Pools
    requires op in now.byPrev
  {
    var d := now.byPrev[op];
    var byPrev := now.byPrev - {op};
    if waiting == 0 && d.tx.id in now.chained
    then Pools(now.pool[d.tx.id := d], now.chained - {d.tx.id}, byPrev)
    else Pools(now.pool, now.chained, byPrev)
  }

  lemma EntriesWithout(byPrev: ByPrevious, op: Outpoint, d: TxDescriptor)
    requires op in byPrev
    ensures Entries(byPrev - {op}, d) == if byPrev[op] == d then Entries(byPrev, d) - {op} else Entries(byPrev, d)
  {
  }

  /** What dropping a record does to the counts of the transactions that were chained. */
  lemma CountsStep(before: Pools, cut: set<Outpoint>, byPrev: ByPrevious, counts: map<TxId, int>, op: Outpoint)
    requires forall id :: id in before.chained ==> before.chained[id].tx.id == id
    requires Counted(before, cut, byPrev, counts)
    requires op in byPrev && byPrev[op].tx.id in before.chained && before.chained[byPrev[op].tx.id] == byPrev[op]
    ensures var id := byPrev[op].tx.id;
      counts[id] > 0 && Counted(before, cut + {op}, byPrev - {op}, counts[id := counts[id] - 1])
  {
    var d := byPrev[op];
    assert byPrev - {op} == before.byPrev - (cut + {op});
    forall id | id in before.chained
      ensures |Entries(byPrev - {op}, before.chained[id])| == if id == d.tx.id then counts[id] - 1 else counts[id]
    {
      EntriesWithout(byPrev, op, before.chained[id]);
      assert op in Entries(byPrev, d);
    }
    assert op in Entries(byPrev, d);
  }

  lemma PlacedStep(before: Pools, gone: set<TxId>, now: Pools, counts: map<TxId, int>, op: Outpoint)
    requires before.pool.Keys !! before.chained.Keys
    requires counts.Keys == before.chained.Keys && Placed(before, gone, now.pool, now.chained, counts)
    requires op in now.byPrev && now.byPrev[op].tx.id in before.chained
    requires before.chained[now.byPrev[op].tx.id] == now.byPrev[op] && counts[now.byPrev[op].tx.id] > 0
    ensures var id := now.byPrev[op].tx.id;
      var now' := DropRecord(now, op, counts[id] - 1);
      Placed(before, gone, now'.pool, now'.chained, counts[id := counts[id] - 1])
  {
  }

  lemma MinedStep(txs: map<TxId, Transaction>, before: Pools, cut: set<Outpoint>, gone: set<TxId>,
                  now: Pools, counts: map<TxId, int>, op: Outpoint)
    requires ExactPools(txs, before) && MinedState(before, cut, gone, now, counts) && op in now.byPrev
    ensures var id := now.byPrev[op].tx.id;
      && id in before.chained && before.chained[id] == now.byPrev[op]
      && MinedState(before, cut + {op}, gone, DropRecord(now, op, counts[id] - 1), counts[id := counts[id] - 1])
  {
    assert op in before.byPrev && now.byPrev[op] == before.byPrev[op];
    CountsStep(before, cut, now.byPrev, counts, op);
    PlacedStep(before, gone, now, counts, op);
  }

  /** The records of outputs that `gone` created. */
  ghost function CutBy(before: Pools, gone: set<TxId>): set<Outpoint> {
    set op | op in before.byPrev && op.txId in gone
  }

  /** Taking a mined transaction out of the pools. */
  lemma MinedWithout(before: Pools, cut: set<Outpoint>, gone: set<TxId>, now: Pools, counts: map<TxId, int>, id: TxId)
    requires MinedState(before, cut, gone, now, counts)
    ensures MinedState(before, cut, gone + {id}, Pools(now.pool - {id}, now.chained - {id}, now.byPrev), counts)
  {
  }

  /** Only what is dropped from the records matters. */
  lemma ChainedNamed(txs: map<TxId, Transaction>, before: Pools)
    requires ExactPools(txs, before)
    ensures forall id :: id in before.chained ==> before.chained[id].tx.id == id
  {
  }

  /** An outpoint without a record may be counted as cut. */
  lemma NothingDropped(before: Pools, cut: set<Outpoint>, gone: set<TxId>, now: Pools, counts: map<TxId, int>,
                       op: Outpoint)
    requires op !in now.byPrev
    ensures MinedState(before, cut, gone, now, counts) ==> MinedState(before, cut + {op}, gone, now, counts)
  {
    hide Placed;
    assert before.byPrev - (cut + {op}) == before.byPrev - cut - {op};
    assert now.byPrev - {op} == now.byPrev;
  }

  lemma MinedCut(before: Pools, cut: set<Outpoint>, cut': set<Outpoint>, gone: set<TxId>, now: Pools,
                 counts: map<TxId, int>)
    requires MinedState(before, cut, gone, now, counts)
    requires forall op :: op in before.byPrev ==> (op in cut <==> op in cut')
    ensures MinedState(before, cut', gone, now, counts)
  {
    assert before.byPrev - cut == before.byPrev - cut';
  }

  /** A mined transaction that was not in the mempool changes nothing. */
  lemma MinedStranger(txs: map<TxId, Transaction>, before: Pools, gone: set<TxId>, now: Pools, counts: map<TxId, int>,
                      id: TxId)
    requires ExactPools(txs, before) && txs.Keys == before.pool.Keys + before.chained.Keys
    requires MinedState(before, CutBy(before, gone), gone, now, counts) && (id !in txs || id in gone)
    ensures MinedState(before, CutBy(before, gone + {id}), gone + {id}, now, counts)
  {
    MinedCut(before, CutBy(before, gone), CutBy(before, gone + {id}), gone, now, counts);
    PlacedStranger(before, gone, now.pool, now.chained, counts, id);
  }

  lemma PlacedStranger(before: Pools, gone: set<TxId>, pool: Descriptors, chained: Descriptors, counts: map<TxId, int>,
                       id: TxId)
    requires counts.Keys == before.chained.Keys && Placed(before, gone, pool, chained, counts)
    requires (id !in before.pool && id !in before.chained) || id in gone
    ensures Placed(before, gone + {id}, pool, chained, counts)
  {
  }

  lemma MinedInitially(txs: map<TxId, Transaction>, before: Pools, counts: map<TxId, int>)
    requires ExactPools(txs, before) && CountsExact(counts, before.chained, before.byPrev)
    ensures MinedState(before, CutBy(before, {}), {}, before, counts)
  {
    assert before.byPrev - CutBy(before, {}) == before.byPrev;
  }

  /** No transaction of the block that was chained waited for an output created outside the block. */
  ghost predicate BlockHoldsParents(before: Pools, mined: set<TxId>) {
    forall op :: op in before.byPrev && before.byPrev[op].tx.id in mined ==> op.txId in mined
  }

  lemma ExactAfterBlock(txs: map<TxId, Transaction>, before: Pools, mined: set<TxId>, now: Pools,
                        counts: map<TxId, int>)
    requires ExactPools(txs, before) && MinedState(before, CutBy(before, mined), mined, now, counts)
    requires BlockHoldsParents(before, mined)
    ensures Links(txs - mined, now.chained, now.byPrev)
    ensures CountsExact(map id | id in now.chained :: counts[id], now.chained, now.byPrev)
  {
    forall op | op in now.byPrev ensures now.byPrev[op].tx.id in now.chained {
      assert op in before.byPrev && op !in CutBy(before, mined);
      assert op in Entries(now.byPrev, now.byPrev[op]);
    }
  }

  lemma StaleAfterBlock(txs: map<TxId, Transaction>, before: Pools, mined: set<TxId>, now: Pools,
                        counts: map<TxId, int>)
    requires ExactPools(txs, before) && MinedState(before, CutBy(before, mined), mined, now, counts)
    requires !BlockHoldsParents(before, mined)
    ensures !Links(txs - mined, now.chained, now.byPrev)
  {
    var op :| op in before.byPrev && before.byPrev[op].tx.id in mined && op.txId !in mined;
    assert op in now.byPrev;
  }

  /** From exact records and counts, a child mined without the parent it waits for leaves its record
      behind; mined together with the parent, or after it, it does not. */
  lemma StaleExample(parent: TxDescriptor, child: TxDescriptor)
    requires parent.tx == Transaction(1, [], [TxOutput(5, ScriptPublicKey([], 0))], 1, 1)
    requires child.tx == Transaction(2, [Outpoint(1, 0)], [], 1, 1)
    ensures var txs, records := map[1 := parent.tx, 2 := child.tx], map[Outpoint(1, 0) := child];
      var before, now := Pools(map[1 := parent], map[2 := child], records), Pools(map[1 := parent], map[], records);
      && ExactPools(txs, before) && CountsExact(map[2 := 1], before.chained, before.byPrev)
      && MinedState(before, CutBy(before, {2}), {2}, now, map[2 := 1])
      && !Links(txs - {2}, now.chained, now.byPrev)
      && BlockHoldsParents(before, {1, 2}) && BlockHoldsParents(before, {1})
  {
    var records := map[Outpoint(1, 0) := child];
    var before, now := Pools(map[1 := parent], map[2 := child], records), Pools(map[1 := parent], map[], records);
    assert Outpoint(1, 0) in records;
    assert CutBy(before, {2}) == {};
    assert Entries(records, child) == {Outpoint(1, 0)};
    assert now.byPrev == before.byPrev - {};
  }

  // ----- parents in the mempool -----

  ghost predicate IsCreated(txs: map<TxId, Transaction>, op: Outpoint) {
    op.txId in txs && op.index < |txs[op.txId].outputs|
  }

  /** No transaction of the pool spends an output of a mempool transaction. */
  ghost predicate Parentless(txs: map<TxId, Transaction>, pool: set<TxId>) {
    forall id, op :: id in pool && id in txs && op in txs[id].inputs ==> !IsCreated(txs, op)
  }

  /** Every mempool output that a chained transaction spends is recorded. */
  ghost predicate WaitsRecorded(txs: map<TxId, Transaction>, chained: set<TxId>, byPrev: ByPrevious) {
    forall id, op :: id in chained && id in txs && op in txs[id].inputs && IsCreated(txs, op) ==> op in byPrev
  }

  /** Pool transactions have no mempool parents, and chained ones wait for all of theirs. */
  ghost predicate ParentsRecorded(txs: map<TxId, Transaction>, now: Pools) {
    Parentless(txs, now.pool.Keys) && WaitsRecorded(txs, now.chained.Keys, now.byPrev)
  }

  /** Nothing in the mempool redeems the new transaction. */
  ghost predicate Unredeemed(txs: map<TxId, Transaction>, tx: Transaction) {
    forall id :: id in txs ==> !Redeems(txs[tx.id := tx], tx.id, id)
  }

  /** The pools with a new transaction, which waits for its mempool parents. */
  ghost function PoolsWith(now: Pools, d: TxDescriptor, parents: seq<Outpoint>): Pools {
    Pools(if parents == [] then now.pool[d.tx.id := d] else now.pool,
          ChainedWith(now.chained, d, parents), WithRecords(now.byPrev, d, parents))
  }

  ghost predicate AreMempoolParents(txs: map<TxId, Transaction>, tx: Transaction, parents: seq<Outpoint>) {
    forall op :: op in parents <==> op in tx.inputs && IsCreated(txs, op)
  }

  /** Entry keeps the parents recorded if nothing in the mempool redeems the new transaction. */
  lemma RecordedIfUnredeemed(txs: map<TxId, Transaction>, now: Pools, d: TxDescriptor, parents: seq<Outpoint>)
    requires ParentsRecorded(txs, now) && now.pool.Keys + now.chained.Keys == txs.Keys
    requires d.tx.id !in txs && AreMempoolParents(txs, d.tx, parents)
    requires (forall op :: op in d.tx.inputs ==> op.txId != d.tx.id) && Unredeemed(txs, d.tx)
    ensures ParentsRecorded(txs[d.tx.id := d.tx], PoolsWith(now, d, parents))
  {
    var after, next := txs[d.tx.id := d.tx], PoolsWith(now, d, parents);
    forall id, op | id in after && op in after[id].inputs && IsCreated(after, op)
      ensures IsCreated(txs, op) && (id != d.tx.id ==> op in txs[id].inputs) && (id == d.tx.id ==> op in parents)
    {
      assert op == Outpoint(op.txId, op.index);
    }
  }

  /** And with records of mempool outputs only, it keeps them only then. */
  lemma UnredeemedIfRecorded(txs: map<TxId, Transaction>, now: Pools, d: TxDescriptor, parents: seq<Outpoint>)
    requires now.pool.Keys + now.chained.Keys == txs.Keys && d.tx.id !in txs
    requires AreMempoolParents(txs, d.tx, parents) && forall op :: op in now.byPrev ==> op.txId in txs
    requires ParentsRecorded(txs[d.tx.id := d.tx], PoolsWith(now, d, parents))
    ensures Unredeemed(txs, d.tx)
  {
    var after, next := txs[d.tx.id := d.tx], PoolsWith(now, d, parents);
    forall id, i | id in txs && 0 <= i < |d.tx.outputs| ensures Outpoint(d.tx.id, i) !in after[id].inputs {
      var op := Outpoint(d.tx.id, i);
      assert IsCreated(after, op) && op !in next.byPrev;
      assert id in next.pool || id in next.chained;
    }
  }

  /** Removal keeps them: the records of a removed transaction are for outputs that nothing else spends. */
  lemma RecordedAfterRemoval(txs: map<TxId, Transaction>, spentBy: map<Outpoint, Transaction>, now: Pools,
                             tx: Transaction)
    requires SpendsExact(txs, spentBy) && ParentsRecorded(txs, now) && tx.id in txs && txs[tx.id] == tx
    requires forall id :: id in txs ==> txs[id].id == id
    ensures ParentsRecorded(txs - {tx.id}, Pools(now.pool - {tx.id}, now.chained - {tx.id},
                                                 WithoutRecords(now.chained, now.byPrev, tx)))
  {
    var after := txs - {tx.id};
    forall id, op | id in after && op in after[id].inputs && IsCreated(after, op)
      ensures IsCreated(txs, op) && op in txs[id].inputs && op !in tx.inputs
    {
      if op in tx.inputs {
        NoDoubleSpend(txs, spentBy, id, tx.id, op);
      }
    }
  }

  /** Every block keeps them, for what was exact before: a transaction that moves to the pool waits for
      nothing, and all its mempool parents were recorded. */
  lemma RecordedAfterBlock(txs: map<TxId, Transaction>, spentBy: map<Outpoint, Transaction>, before: Pools,
                           mined: set<TxId>, now: Pools, counts: map<TxId, int>)
    requires SpendsExact(txs, spentBy) && ExactPools(txs, before) && ParentsRecorded(txs, before)
    requires (forall id :: id in txs ==> txs[id].id == id) && before.pool.Keys + before.chained.Keys == txs.Keys
    requires MinedState(before, CutBy(before, mined), mined, now, counts)
    ensures ParentsRecorded(txs - mined, now)
  {
    hide MinedState, Parentless, WaitsRecorded;
    var after := txs - mined;
    forall id, op | id in after && op in after[id].inputs && IsCreated(after, op)
      ensures id !in now.pool && op in now.byPrev
    {
      StillWaits(txs, spentBy, before, mined, now, counts, id, op);
    }
    RecordedWhenWaiting(after, now);
  }

  lemma RecordedWhenWaiting(txs: map<TxId, Transaction>, now: Pools)
    requires forall id, op :: id in txs && op in txs[id].inputs && IsCreated(txs, op) ==>
      id !in now.pool && op in now.byPrev
    ensures ParentsRecorded(txs, now)
  {
  }

  lemma StillWaits(txs: map<TxId, Transaction>, spentBy: map<Outpoint, Transaction>, before: Pools, mined: set<TxId>,
                   now: Pools, counts: map<TxId, int>, id: TxId, op: Outpoint)
    requires SpendsExact(txs, spentBy) && ExactPools(txs, before) && ParentsRecorded(txs, before)
    requires (forall x :: x in txs ==> txs[x].id == x) && before.pool.Keys + before.chained.Keys == txs.Keys
    requires MinedState(before, CutBy(before, mined), mined, now, counts)
    requires id in txs && id !in mined && op in txs[id].inputs && IsCreated(txs, op) && op.txId !in mined
    ensures id !in now.pool && op in now.byPrev
  {
    hide MinedState, CutBy;
    RecordOf(txs, spentBy, before, id, op);
    StillCounted(before, mined, now, counts, id, op);
  }

  lemma RecordOf(txs: map<TxId, Transaction>, spentBy: map<Outpoint, Transaction>, before: Pools, id: TxId,
                 op: Outpoint)
    requires SpendsExact(txs, spentBy) && ExactPools(txs, before) && ParentsRecorded(txs, before)
    requires (forall x :: x in txs ==> txs[x].id == x) && before.pool.Keys + before.chained.Keys == txs.Keys
    requires id in txs && op in txs[id].inputs && IsCreated(txs, op)
    ensures id in before.chained && id !in before.pool && op in before.byPrev && before.byPrev[op] == before.chained[id]
  {
    assert id in before.pool.Keys + before.chained.Keys;
    NoDoubleSpend(txs, spentBy, id, before.byPrev[op].tx.id, op);
  }

  lemma StillCounted(before: Pools, mined: set<TxId>, now: Pools, counts: map<TxId, int>, id: TxId, op: Outpoint)
    requires MinedState(before, CutBy(before, mined), mined, now, counts) && id in before.chained && id !in before.pool
    requires op in before.byPrev && before.byPrev[op] == before.chained[id] && op.txId !in mined
    ensures id !in now.pool && op in now.byPrev
  {
    assert op in Entries(now.byPrev, before.chained[id]);
  }

  /** A chained transaction that redeems one that enters later: 3 waits for 1 alone, and 2 enters. The
      pool has no mempool parents, but a wait is not recorded. */
  lemma RedeemedEntryExample(p: TxDescriptor, q: TxDescriptor, c: TxDescriptor)
    requires p.tx == Transaction(1, [], [TxOutput(5, ScriptPublicKey([], 0))], 1, 1)
    requires q.tx == Transaction(2, [], [TxOutput(5, ScriptPublicKey([], 0))], 1, 1)
    requires c.tx == Transaction(3, [Outpoint(1, 0), Outpoint(2, 0)], [], 1, 1)
    ensures var txs, start := map[1 := p.tx, 3 := c.tx], Pools(map[1 := p], map[3 := c], map[Outpoint(1, 0) := c]);
      var entered, before := txs[2 := q.tx], PoolsWith(start, q, []);
      && ParentsRecorded(txs, start) && !Unredeemed(txs, q.tx)
      && Parentless(entered, before.pool.Keys) && !ParentsRecorded(entered, before)
      && ExactPools(entered, before) && CountsExact(map[3 := 1], before.chained, before.byPrev)
  {
    var records := map[Outpoint(1, 0) := c];
    var txs, start := map[1 := p.tx, 3 := c.tx], Pools(map[1 := p], map[3 := c], records);
    var entered, before := txs[2 := q.tx], PoolsWith(start, q, []);
    assert before == Pools(map[1 := p, 2 := q], map[3 := c], records);
    assert Outpoint(2, 0) in c.tx.inputs && Redeems(entered, 2, 3);
    assert IsCreated(entered, Outpoint(2, 0)) && Outpoint(2, 0) !in records;
    assert Entries(records, c) == {Outpoint(1, 0)};
  }

  /** A block that holds 1, and so every parent its transactions wait for, then moves 3 to the pool
      although 2, which it redeems, is in the mempool. */
  lemma PromotedWithParentExample(p: TxDescriptor, q: TxDescriptor, c: TxDescriptor)
    requires p.tx == Transaction(1, [], [TxOutput(5, ScriptPublicKey([], 0))], 1, 1)
    requires q.tx == Transaction(2, [], [TxOutput(5, ScriptPublicKey([], 0))], 1, 1)
    requires c.tx == Transaction(3, [Outpoint(1, 0), Outpoint(2, 0)], [], 1, 1)
    ensures var txs := map[1 := p.tx, 2 := q.tx, 3 := c.tx];
      var before := Pools(map[1 := p, 2 := q], map[3 := c], map[Outpoint(1, 0) := c]);
      var now := Pools(map[2 := q, 3 := c], map[], map[]);
      && BlockHoldsParents(before, {1}) && MinedState(before, CutBy(before, {1}), {1}, now, map[3 := 0])
      && !Parentless(txs - {1}, now.pool.Keys)
  {
    var txs, records := map[1 := p.tx, 2 := q.tx, 3 := c.tx], map[Outpoint(1, 0) := c];
    var before := Pools(map[1 := p, 2 := q], map[3 := c], records);
    assert CutBy(before, {1}) == {Outpoint(1, 0)};
    assert records - {Outpoint(1, 0)} == map[] && Entries(map[], c) == {};
    assert Outpoint(2, 0) in c.tx.inputs && IsCreated(txs - {1}, Outpoint(2, 0)) && 3 in txs - {1};
  }
}

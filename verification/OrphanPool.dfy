/** mempool.go, the orphan transactions: transactions with missing inputs, and the
    index from an outpoint to the orphans that spend it. */
module OrphanPools {
  import opened Reachability
  import opened Redeemers
  import opened Transactions

  datatype OrphanTx = OrphanTx(tx: Transaction, expiration: int)

  type PrevIndex = map<Outpoint, map<TxId, Transaction>>

  const ORPHAN_TTL := 15 * 60 * 1000
  const ORPHAN_EXPIRE_SCAN_INTERVAL := 5 * 60 * 1000

  ghost predicate Listed(index: PrevIndex, op: Outpoint, id: TxId) {
    op in index && id in index[op]
  }

  /** `index` lists every transaction under each of its inputs, nothing else, and has
      no empty bucket. */
  ghost predicate IsInverse(txs: map<TxId, Transaction>, index: PrevIndex) {
    && (forall op, id :: Listed(index, op, id) <==> id in txs && op in txs[id].inputs)
    && (forall op, id :: Listed(index, op, id) ==> index[op][id] == txs[id])
    && (forall op :: op in index ==> exists id :: Listed(index, op, id))
  }

  /** `index` with `id` taken out of the buckets of `inputs`, and emptied buckets dropped. */
  ghost predicate IsUnindexed(before: PrevIndex, id: TxId, inputs: seq<Outpoint>, after: PrevIndex) {
    && (forall op, x :: Listed(after, op, x) <==> Listed(before, op, x) && !(x == id && op in inputs))
    && (forall op, x :: Listed(after, op, x) ==> after[op][x] == before[op][x])
    && (forall op :: op in after ==> exists x :: Listed(after, op, x))
  }

  /** `index` with `tx` put into the buckets of `inputs`. */
  ghost predicate IsIndexed(before: PrevIndex, tx: Transaction, inputs: seq<Outpoint>, after: PrevIndex) {
    && (forall op, x :: Listed(after, op, x) <==> Listed(before, op, x) || (x == tx.id && op in inputs))
    && (forall op, x :: Listed(after, op, x) ==>
                          after[op][x] == if x == tx.id && op in inputs then tx else before[op][x])
    && (forall op :: op in after ==> exists x :: Listed(after, op, x))
  }

  /** The bucket of `op` without `id`; a bucket that becomes empty goes altogether. */
  function DropFrom(index: PrevIndex, op: Outpoint, id: TxId): PrevIndex {
    if op !in index then index
    else if index[op] - {id} == map[] then index - {op}
    else index[op := index[op] - {id}]
  }

  lemma DropFromUnindexes(before: PrevIndex, id: TxId, inputs: seq<Outpoint>, k: nat, index: PrevIndex)
    requires k < |inputs| && IsUnindexed(before, id, inputs[..k], index)
    ensures IsUnindexed(before, id, inputs[..k + 1], DropFrom(index, inputs[k], id))
  {
    var op := inputs[k];
    var after := DropFrom(index, op, id);
    assert inputs[..k + 1] == inputs[..k] + [op];
    forall o, x ensures Listed(after, o, x) <==> Listed(index, o, x) && !(x == id && o == op) {
      if op in index {
        assert x in index[op] - {id} <==> x in index[op] && x != id;
      }
    }
    forall o | o in after ensures exists x :: Listed(after, o, x) {
      if o == op {
        var x :| x in after[o];
        assert Listed(after, o, x);
      } else {
        var x :| Listed(index, o, x);
        assert Listed(after, o, x);
      }
    }
  }

  lemma UnindexedIsInverse(txs: map<TxId, Transaction>, id: TxId, before: PrevIndex, after: PrevIndex)
    requires id in txs && IsInverse(txs, before) && IsUnindexed(before, id, txs[id].inputs, after)
    ensures IsInverse(txs - {id}, after)
  {
    forall op, x ensures Listed(after, op, x) <==> x in txs - {id} && op in txs[x].inputs {
    }
  }

  /** Fewer transactions leave no new bucket behind. */
  lemma BucketsShrink(txs: map<TxId, Transaction>, index: PrevIndex,
                      txs': map<TxId, Transaction>, index': PrevIndex, op: Outpoint)
    requires IsInverse(txs, index) && IsInverse(txs', index') && SubMap(txs', txs)
    ensures op in index' ==> op in index
  {
    if op in index' {
      var x :| Listed(index', op, x);
      assert Listed(index, op, x);
    }
  }

  lemma UnlistedRedeemNothing(before: map<TxId, Transaction>, id: TxId,
                              left: map<TxId, Transaction>, index: PrevIndex)
    requires id in before && SubMap(left, before) && IsInverse(left, index)
    requires forall op :: op in index ==> !(op.txId == id && op.index < |before[id].outputs|)
    ensures forall b :: b in left ==> !Redeems(before, id, b)
  {
    forall b, j | b in left && 0 <= j < |before[id].outputs| ensures Outpoint(id, j) !in before[b].inputs {
      assert !Listed(index, Outpoint(id, j), b);
    }
  }

  /** The bucket of `op` with `tx` in it. */
  function PutInto(index: PrevIndex, op: Outpoint, tx: Transaction): PrevIndex {
    index[op := (if op in index then index[op] else map[])[tx.id := tx]]
  }

  lemma PutIntoIndexes(before: PrevIndex, tx: Transaction, inputs: seq<Outpoint>, k: nat, index: PrevIndex)
    requires k < |inputs| && IsIndexed(before, tx, inputs[..k], index)
    ensures IsIndexed(before, tx, inputs[..k + 1], PutInto(index, inputs[k], tx))
  {
    var op := inputs[k];
    var after := PutInto(index, op, tx);
    assert inputs[..k + 1] == inputs[..k] + [op];
    forall o, x ensures Listed(after, o, x) <==> Listed(index, o, x) || (x == tx.id && o == op) {
    }
    forall o | o in after ensures exists x :: Listed(after, o, x) {
      if o == op {
        assert Listed(after, o, tx.id);
      } else {
        var x :| Listed(index, o, x);
        assert Listed(after, o, x);
      }
    }
  }

  lemma IndexedIsInverse(txs: map<TxId, Transaction>, tx: Transaction, before: PrevIndex, after: PrevIndex)
    requires IsInverse(txs, before) && IsIndexed(before, tx, tx.inputs, after)
    requires tx.id in txs ==> txs[tx.id].inputs == tx.inputs
    ensures IsInverse(txs[tx.id := tx], after)
  {
    var txs' := txs[tx.id := tx];
    forall op, x ensures Listed(after, op, x) <==> x in txs' && op in txs'[x].inputs {
    }
  }

  ghost predicate SpendsOne(tx: Transaction, ops: seq<Outpoint>) {
    exists k :: 0 <= k < |ops| && ops[k] in tx.inputs
  }

  /** The transactions that spend one of `ops`. */
  ghost function Spenders(txs: map<TxId, Transaction>, ops: seq<Outpoint>): set<TxId> {
    set id | id in txs && SpendsOne(txs[id], ops)
  }

  lemma NoSpenderLeft(before: map<TxId, Transaction>, txs: map<TxId, Transaction>, index: PrevIndex, ops: seq<Outpoint>)
    requires IsInverse(txs, index) && SubMap(txs, before) && forall j :: 0 <= j < |ops| ==> ops[j] !in index
    ensures forall s :: s in Spenders(before, ops) ==> s !in txs
  {
    forall s | s in Spenders(before, ops) ensures s !in txs {
      var k :| 0 <= k < |ops| && ops[k] in before[s].inputs;
      assert !Listed(index, ops[k], s);
    }
  }

  ghost function Expired(orphans: map<TxId, OrphanTx>, now: int): set<TxId> {
    set id | id in orphans && now > orphans[id].expiration
  }

  ghost function LiveOf(orphans: map<TxId, OrphanTx>, busy: set<TxId>): map<TxId, Transaction> {
    TxsOf(orphans) - busy
  }

  lemma LiveWithout(orphans: map<TxId, OrphanTx>, busy: set<TxId>, id: TxId)
    ensures LiveOf(orphans - {id}, busy) == LiveOf(orphans, busy + {id}) == LiveOf(orphans, busy) - {id}
  {
  }

  /** What a scan keeps: all but the expired orphans and what transitively redeems them. */
  ghost predicate IsScanned(before: map<TxId, OrphanTx>, now: int, scan: bool, kept: map<TxId, OrphanTx>) {
    if scan then SubMap(kept, before) && IsWithoutClosureOf(TxsOf(before), Expired(before, now), TxsOf(kept))
    else kept == before
  }

  /** At most one orphan is evicted, and only if there is no room for another one. */
  ghost predicate IsLimited(kept: map<TxId, OrphanTx>, maxOrphanTxs: int, limited: map<TxId, OrphanTx>) {
    if |kept| + 1 <= maxOrphanTxs then limited == kept else exists id :: id in kept && limited == kept - {id}
  }

  /** The orphans after one was stored. */
  ghost predicate IsStored(before: map<TxId, OrphanTx>, now: int, scan: bool, maxOrphanTxs: int, tx: Transaction,
                           after: map<TxId, OrphanTx>) {
    exists kept, limited ::
      && IsScanned(before, now, scan, kept)
      && IsLimited(kept, maxOrphanTxs, limited)
      && after == limited[tx.id := OrphanTx(tx, now + ORPHAN_TTL)]
  }

  ghost function TxsOf(orphans: map<TxId, OrphanTx>): map<TxId, Transaction> {
    map id | id in orphans :: orphans[id].tx
  }

  class OrphanPool {
    const maxOrphanTxs: int
    var orphans: map<TxId, OrphanTx>
    var orphansByPrev: PrevIndex
    var nextExpireScan: int

    constructor (maxOrphanTxs: int, now: int)
      ensures this.maxOrphanTxs == maxOrphanTxs && orphans == map[] && Valid()
      ensures nextExpireScan == now + 300_000
    {
      this.maxOrphanTxs := maxOrphanTxs;
      orphans, orphansByPrev := map[], map[];
      nextExpireScan := now + ORPHAN_EXPIRE_SCAN_INTERVAL;
    }

    ghost function Txs(): map<TxId, Transaction>
      reads this
    {
      TxsOf(orphans)
    }

    /** The orphans whose removal has not begun; `busy` are those further up the recursion. */
    ghost function Live(busy: set<TxId>): map<TxId, Transaction>
      reads this
    {
      LiveOf(orphans, busy)
    }

    ghost predicate Indexed()
      reads this
    {
      && IsInverse(Txs(), orphansByPrev)
      && forall id :: id in orphans ==> orphans[id].tx.id == id
    }

    ghost predicate Valid()
      reads this
    {
      Indexed() && |orphans| <= if maxOrphanTxs <= 0 then 0 else maxOrphanTxs
    }

    method Unindex(id: TxId, inputs: seq<Outpoint>)
      requires forall op :: op in orphansByPrev ==> exists x :: Listed(orphansByPrev, op, x)
      modifies this`orphansByPrev
      ensures IsUnindexed(old(orphansByPrev), id, inputs, orphansByPrev)
    {
      for k := 0 to |inputs|
        invariant IsUnindexed(old(orphansByPrev), id, inputs[..k], orphansByPrev)
      {
        DropFromUnindexes(old(orphansByPrev), id, inputs, k, orphansByPrev);
        orphansByPrev := DropFrom(orphansByPrev, inputs[k], id);
      }
      assert inputs[..|inputs|] == inputs;
    }

    /** The state inside a recursive removal: the index already forgot the `busy` orphans. */
    ghost predicate Removing(busy: set<TxId>)
      reads this
    {
      && busy <= orphans.Keys
      && IsInverse(Live(busy), orphansByPrev)
      && forall id :: id in orphans ==> orphans[id].tx.id == id
    }

    /** Removes an orphan and, if asked to, exactly the orphans that transitively redeem it.
        Nothing is assumed about cycles: index entries go before the recursion. */
    method RemoveOrphan(tx: Transaction, removeRedeemers: bool, ghost busy: set<TxId>)
      requires Removing(busy) && tx.id !in busy
      requires tx.id in orphans ==> |tx.outputs| == |orphans[tx.id].tx.outputs|
      modifies this`orphans, this`orphansByPrev
      ensures Removing(busy) && SubMap(orphans, old(orphans))
      ensures tx.id !in old(orphans) ==> orphans == old(orphans) && orphansByPrev == old(orphansByPrev)
      ensures !removeRedeemers ==> orphans == old(orphans) - {tx.id}
      ensures removeRedeemers && tx.id in old(orphans) ==>
        IsWithoutClosure(old(Live(busy)), tx.id, Live(busy))
      decreases orphans.Keys - busy, 0
    {
      if tx.id !in orphans {
        return;
      }
      var otx := orphans[tx.id];
      ghost var before := Live(busy);
      Unindex(tx.id, otx.tx.inputs);
      UnindexedIsInverse(before, tx.id, old(orphansByPrev), orphansByPrev);
      ghost var busy' := busy + {tx.id};
      LiveWithout(orphans, busy, tx.id);
      PruningStarts(before, tx.id);
      if removeRedeemers {
        RemoveRedeemers(tx.id, |tx.outputs|, before, busy');
      }
      ghost var left := Live(busy');
      LiveWithout(orphans, busy, tx.id);
      orphans := orphans - {tx.id};
      if removeRedeemers {
        UnlistedRedeemNothing(before, tx.id, left, orphansByPrev);
        PruningEnds(before, tx.id, left);
      }
    }

    /** The redeemers of the first `i` outputs of `id` are gone, with their own redeemers. */
    ghost predicate RedeemersGone(id: TxId, i: nat, before: map<TxId, Transaction>, busy: set<TxId>)
      reads this
    {
      && Removing(busy) && id in before && i <= |before[id].outputs|
      && Pruning(before, id, Live(busy))
      && forall op :: op in orphansByPrev ==> !(op.txId == id && op.index < i)
    }

    /** Removes every orphan that redeems one of the outputs of `id`, with its own redeemers. */
    method RemoveRedeemers(id: TxId, outputs: nat, ghost before: map<TxId, Transaction>, ghost busy: set<TxId>)
      requires RedeemersGone(id, 0, before, busy) && outputs == |before[id].outputs|
      modifies this`orphans, this`orphansByPrev
      ensures RedeemersGone(id, outputs, before, busy) && SubMap(orphans, old(orphans))
      decreases orphans.Keys - busy, 3
    {
      for i := 0 to outputs
        invariant RedeemersGone(id, i, before, busy) && SubMap(orphans, old(orphans))
      {
        RemoveBucket(id, i, before, busy);
      }
    }

    /** Removes every orphan that redeems output `i` of `id`. */
    method RemoveBucket(id: TxId, i: nat, ghost before: map<TxId, Transaction>, ghost busy: set<TxId>)
      requires RedeemersGone(id, i, before, busy) && i < |before[id].outputs|
      modifies this`orphans, this`orphansByPrev
      ensures RedeemersGone(id, i + 1, before, busy) && SubMap(orphans, old(orphans))
      decreases orphans.Keys - busy, 2
    {
      while Outpoint(id, i) in orphansByPrev
        invariant RedeemersGone(id, i, before, busy) && SubMap(orphans, old(orphans))
        decreases orphans.Keys - busy
      {
        RemoveOneRedeemer(id, i, before, busy);
      }
    }

    /** One turn of the iteration over the bucket of output `i`, in whatever order. */
    method RemoveOneRedeemer(id: TxId, i: nat, ghost before: map<TxId, Transaction>, ghost busy: set<TxId>)
      requires RedeemersGone(id, i, before, busy) && i < |before[id].outputs|
      requires Outpoint(id, i) in orphansByPrev
      modifies this`orphans, this`orphansByPrev
      ensures RedeemersGone(id, i, before, busy) && SubMap(orphans, old(orphans))
      ensures orphans.Keys - busy < old(orphans.Keys - busy)
      decreases orphans.Keys - busy, 1
    {
      var prevOut := Outpoint(id, i);
      ghost var live, index := Live(busy), orphansByPrev;
      ghost var some :| Listed(orphansByPrev, prevOut, some);
      var redeemer :| redeemer in orphansByPrev[prevOut];
      assert Listed(orphansByPrev, prevOut, redeemer);
      RemoveOrphan(orphansByPrev[prevOut][redeemer], true, busy);
      ReachesSelf(RedeemEdges(live), redeemer);
      PruningStep(before, id, live, live, redeemer, Live(busy));
      assert redeemer in live && redeemer !in orphans;
      assert redeemer in old(orphans.Keys - busy);
      forall op | op in orphansByPrev ensures op in index {
        BucketsShrink(live, index, Live(busy), orphansByPrev, op);
      }
    }

    /** removeOrphan as its callers see it. */
    method RemoveOrphanAndRedeemers(tx: Transaction, removeRedeemers: bool)
      requires Indexed()
      requires tx.id in orphans ==> |tx.outputs| == |orphans[tx.id].tx.outputs|
      modifies this`orphans, this`orphansByPrev
      ensures Indexed() && SubMap(orphans, old(orphans)) && tx.id !in orphans
      ensures tx.id !in old(orphans) ==> orphans == old(orphans)
      ensures !removeRedeemers ==> orphans == old(orphans) - {tx.id}
      ensures removeRedeemers && tx.id in old(orphans) ==> IsWithoutClosure(old(Txs()), tx.id, Txs())
    {
      assert Live({}) == Txs();
      RemoveOrphan(tx, removeRedeemers, {});
      assert Live({}) == Txs();
      ReachesSelf(RedeemEdges(old(Txs())), tx.id);
    }

    /** The orphan pool is `before` without what `seeds` reach. */
    ghost predicate Reduced(before: map<TxId, OrphanTx>, seeds: set<TxId>)
      reads this
    {
      && Indexed() && SubMap(orphans, before) && seeds <= before.Keys
      && IsWithoutClosureOf(TxsOf(before), seeds, Txs())
    }

    method RemoveSeed(id: TxId, ghost before: map<TxId, OrphanTx>, ghost seeds: set<TxId>)
      requires Reduced(before, seeds) && id in orphans
      modifies this`orphans, this`orphansByPrev
      ensures Reduced(before, seeds + {id})
      ensures id !in orphans && SubMap(orphans, old(orphans))
      ensures forall op :: op in orphansByPrev ==> op in old(orphansByPrev)
    {
      ghost var txs, index := Txs(), orphansByPrev;
      RemoveOrphanAndRedeemers(orphans[id].tx, true);
      ClosureStep(TxsOf(before), seeds, txs, id, Txs());
      forall op | op in orphansByPrev ensures op in index {
        BucketsShrink(txs, index, Txs(), orphansByPrev, op);
      }
    }

    /** Spenders of the first `k` outpoints are gone, with their redeemers. */
    ghost predicate SpendersGone(before: map<TxId, OrphanTx>, ops: seq<Outpoint>, k: nat, seeds: set<TxId>)
      reads this
    {
      && Reduced(before, seeds) && k <= |ops|
      && (forall s :: s in seeds ==> SpendsOne(before[s].tx, ops))
      && forall j :: 0 <= j < k ==> ops[j] !in orphansByPrev
    }

    /** Removes exactly the orphans that spend an input of `tx`, with their redeemers. */
    method RemoveOrphanDoubleSpends(tx: Transaction)
      requires Indexed()
      modifies this`orphans, this`orphansByPrev
      ensures Indexed() && SubMap(orphans, old(orphans))
      ensures forall op :: op in tx.inputs ==> op !in orphansByPrev
      ensures forall op :: op in orphansByPrev ==> op in old(orphansByPrev)
      ensures IsWithoutClosureOf(old(Txs()), Spenders(old(Txs()), tx.inputs), Txs())
    {
      ClosureStarts(Txs());
      ghost var seeds := {};
      for k := 0 to |tx.inputs|
        invariant SpendersGone(old(orphans), tx.inputs, k, seeds)
        invariant forall op :: op in orphansByPrev ==> op in old(orphansByPrev)
      {
        seeds := RemoveSpendersOf(tx.inputs, k, old(orphans), seeds);
      }
      NoSpenderLeft(old(Txs()), Txs(), orphansByPrev, tx.inputs);
      ClosureOfMoreSeeds(old(Txs()), seeds, Spenders(old(Txs()), tx.inputs), Txs());
    }

    method RemoveSpendersOf(ops: seq<Outpoint>, k: nat, ghost before: map<TxId, OrphanTx>, ghost seeds: set<TxId>)
      returns (ghost seeds': set<TxId>)
      requires SpendersGone(before, ops, k, seeds) && k < |ops|
      modifies this`orphans, this`orphansByPrev
      ensures SpendersGone(before, ops, k + 1, seeds')
      ensures forall o :: o in orphansByPrev ==> o in old(orphansByPrev)
    {
      seeds' := seeds;
      while ops[k] in orphansByPrev
        invariant SpendersGone(before, ops, k, seeds')
        invariant forall o :: o in orphansByPrev ==> o in old(orphansByPrev)
        decreases orphans.Keys
      {
        seeds' := RemoveOneSpender(ops, k, before, seeds');
      }
    }

    method RemoveOneSpender(ops: seq<Outpoint>, k: nat, ghost before: map<TxId, OrphanTx>, ghost seeds: set<TxId>)
      returns (ghost seeds': set<TxId>)
      requires SpendersGone(before, ops, k, seeds) && k < |ops| && ops[k] in orphansByPrev
      modifies this`orphans, this`orphansByPrev
      ensures SpendersGone(before, ops, k, seeds') && orphans.Keys < old(orphans.Keys)
      ensures forall o :: o in orphansByPrev ==> o in old(orphansByPrev)
    {
      ghost var some :| Listed(orphansByPrev, ops[k], some);
      var id :| id in orphansByPrev[ops[k]];
      assert Listed(orphansByPrev, ops[k], id);
      RemoveSeed(id, before, seeds);
      seeds' := seeds + {id};
    }

    /** The periodic scan: removes exactly the expired orphans and what transitively redeems them. */
    method ExpireOrphans(now: int)
      requires Indexed()
      modifies this
      ensures Indexed() && SubMap(orphans, old(orphans))
      ensures IsWithoutClosureOf(old(Txs()), Expired(old(orphans), now), Txs())
      ensures nextExpireScan == now + 300_000
    {
      ClosureStarts(Txs());
      ghost var seeds := {};
      var pending := orphans.Keys;
      while pending != {}
        invariant Reduced(old(orphans), seeds) && seeds <= Expired(old(orphans), now)
        invariant forall id :: id in orphans && id !in pending ==> orphans[id].expiration >= now
      {
        var id :| id in pending;
        pending := pending - {id};
        if id in orphans && now > orphans[id].expiration {
          RemoveSeed(id, old(orphans), seeds);
          seeds := seeds + {id};
        }
      }
      ClosureOfMoreSeeds(old(Txs()), seeds, Expired(old(orphans), now), Txs());
      nextExpireScan := now + ORPHAN_EXPIRE_SCAN_INTERVAL;
    }

    /** Makes room for one more orphan: by expiry, and failing that by dropping an arbitrary orphan. */
    method LimitNumOrphans(now: int) returns (ghost kept: map<TxId, OrphanTx>)
      requires Valid() && maxOrphanTxs > 0
      modifies this
      ensures Indexed() && SubMap(orphans, old(orphans)) && |orphans| + 1 <= maxOrphanTxs
      ensures IsScanned(old(orphans), now, now > old(nextExpireScan), kept) && IsLimited(kept, maxOrphanTxs, orphans)
      ensures nextExpireScan == if now > old(nextExpireScan) then now + 300_000 else old(nextExpireScan)
    {
      if now > nextExpireScan {
        ExpireOrphans(now);
        SubMapIsSmaller(orphans, old(orphans));
      }
      kept := orphans;
      if |orphans| + 1 <= maxOrphanTxs {
        return;
      }
      var id :| id in orphans;
      RemoveOrphanAndRedeemers(orphans[id].tx, false);
    }

    method IndexInputs(tx: Transaction)
      requires forall op :: op in orphansByPrev ==> exists x :: Listed(orphansByPrev, op, x)
      modifies this`orphansByPrev
      ensures IsIndexed(old(orphansByPrev), tx, tx.inputs, orphansByPrev)
    {
      for k := 0 to |tx.inputs|
        invariant IsIndexed(old(orphansByPrev), tx, tx.inputs[..k], orphansByPrev)
      {
        PutIntoIndexes(old(orphansByPrev), tx, tx.inputs, k, orphansByPrev);
        orphansByPrev := PutInto(orphansByPrev, tx.inputs[k], tx);
      }
      assert tx.inputs[..|tx.inputs|] == tx.inputs;
    }

    /** Stores an orphan within the limit; nothing is stored where none are allowed. */
    method AddOrphan(tx: Transaction, now: int)
      requires Valid() && (tx.id in orphans ==> orphans[tx.id].tx.inputs == tx.inputs)
      modifies this
      ensures Valid()
      ensures maxOrphanTxs > 0 ==> tx.id in orphans && orphans[tx.id] == OrphanTx(tx, now + 900_000)
      ensures nextExpireScan
           == if maxOrphanTxs > 0 && now > old(nextExpireScan) then now + 300_000 else old(nextExpireScan)
      ensures SubMap(orphans - {tx.id}, old(orphans))
      ensures if maxOrphanTxs > 0 then IsStored(old(orphans), now, now > old(nextExpireScan), maxOrphanTxs, tx, orphans)
              else orphans == old(orphans)
    {
      if maxOrphanTxs <= 0 {
        return;
      }
      ghost var kept := LimitNumOrphans(now);
      ghost var limited := orphans;
      ghost var txs, index := Txs(), orphansByPrev;
      orphans := orphans[tx.id := OrphanTx(tx, now + ORPHAN_TTL)];
      IndexInputs(tx);
      IndexedIsInverse(txs, tx, index, orphansByPrev);
      assert Txs() == txs[tx.id := tx];
    }
  }
}

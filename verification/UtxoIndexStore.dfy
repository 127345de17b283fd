/** domain/utxoindex/store.go: changes of the UTXO index are staged by script, and committed
    together. */
module UtxoIndexStores {
  import opened Failures
  import opened IndexDatabases
  import opened Options
  import opened Powers
  import opened Transactions
  import opened UtxoIndexCodec

  type Additions = map<KeyString, map<Outpoint, UTXOEntry>>
  type Removals = map<KeyString, set<Outpoint>>

  ghost function AddedSlots(toAdd: Additions): set<Slot> {
    set k, op | k in toAdd && op in toAdd[k] :: Slot(k, op)
  }

  ghost function AddedEntries(toAdd: Additions): Index {
    map s | s in AddedSlots(toAdd) :: toAdd[s.bucket][s.outpoint]
  }

  ghost function RemovedSlots(toRemove: Removals): set<Slot> {
    set k, op | k in toRemove && op in toRemove[k] :: Slot(k, op)
  }

  /** The index as it will be once the staged changes are committed. */
  ghost function View(index: Index, toAdd: Additions, toRemove: Removals): Index {
    (index - RemovedSlots(toRemove)) + AddedEntries(toAdd)
  }

  /** What is staged fits the index: only what is absent is added, only what is present is
      removed, and every entry lies under its own script. */
  ghost predicate Fits(index: Index, toAdd: Additions, toRemove: Removals) {
    && AddedSlots(toAdd) !! index.Keys
    && RemovedSlots(toRemove) <= index.Keys
    && (forall s :: s in index ==> SlotOf(s.outpoint, index[s]) == s)
    && (forall k :: k in toAdd ==> |k| >= 2)
    && (forall k :: k in toRemove ==> |k| >= 2)
  }

  // ----- staging one change -----

  function StageAddition(toAdd: Additions, s: Slot, entry: UTXOEntry): Additions {
    var bucket := if s.bucket in toAdd then toAdd[s.bucket] else map[];
    toAdd[s.bucket := bucket[s.outpoint := entry]]
  }

  function UnstageAddition(toAdd: Additions, s: Slot): Additions
    requires s.bucket in toAdd
  {
    toAdd[s.bucket := toAdd[s.bucket] - {s.outpoint}]
  }

  function StageRemoval(toRemove: Removals, s: Slot): Removals {
    var bucket := if s.bucket in toRemove then toRemove[s.bucket] else {};
    toRemove[s.bucket := bucket + {s.outpoint}]
  }

  function UnstageRemoval(toRemove: Removals, s: Slot): Removals
    requires s.bucket in toRemove
  {
    toRemove[s.bucket := toRemove[s.bucket] - {s.outpoint}]
  }

  lemma AdditionStaged(toAdd: Additions, s: Slot, entry: UTXOEntry)
    ensures AddedSlots(StageAddition(toAdd, s, entry)) == AddedSlots(toAdd) + {s}
    ensures AddedEntries(StageAddition(toAdd, s, entry)) == AddedEntries(toAdd)[s := entry]
  {
    var more := StageAddition(toAdd, s, entry);
    assert forall x :: x in AddedSlots(more) <==> x.bucket in more && x.outpoint in more[x.bucket];
    assert forall x :: x in AddedSlots(toAdd) <==> x.bucket in toAdd && x.outpoint in toAdd[x.bucket];
  }

  lemma AdditionUnstaged(toAdd: Additions, s: Slot)
    requires s in AddedSlots(toAdd)
    ensures AddedSlots(UnstageAddition(toAdd, s)) == AddedSlots(toAdd) - {s}
    ensures AddedEntries(UnstageAddition(toAdd, s)) == AddedEntries(toAdd) - {s}
  {
    var less := UnstageAddition(toAdd, s);
    assert forall x :: x in AddedSlots(less) <==> x.bucket in less && x.outpoint in less[x.bucket];
    assert forall x :: x in AddedSlots(toAdd) <==> x.bucket in toAdd && x.outpoint in toAdd[x.bucket];
  }

  lemma RemovalStaged(toRemove: Removals, s: Slot)
    ensures RemovedSlots(StageRemoval(toRemove, s)) == RemovedSlots(toRemove) + {s}
  {
    var more := StageRemoval(toRemove, s);
    assert forall x :: x in RemovedSlots(more) <==> x.bucket in more && x.outpoint in more[x.bucket];
    assert forall x :: x in RemovedSlots(toRemove) <==> x.bucket in toRemove && x.outpoint in toRemove[x.bucket];
  }

  lemma RemovalUnstaged(toRemove: Removals, s: Slot)
    requires s in RemovedSlots(toRemove)
    ensures RemovedSlots(UnstageRemoval(toRemove, s)) == RemovedSlots(toRemove) - {s}
  {
    var less := UnstageRemoval(toRemove, s);
    assert forall x :: x in RemovedSlots(less) <==> x.bucket in less && x.outpoint in less[x.bucket];
    assert forall x :: x in RemovedSlots(toRemove) <==> x.bucket in toRemove && x.outpoint in toRemove[x.bucket];
  }

  // ----- what one change does to the view -----

  datatype Staging = Staging(toAdd: Additions, toRemove: Removals)

  /** add: an outpoint that is being removed is no longer removed, and any other is added; None if
      it is being added already. */
  function Added(st: Staging, s: Slot, entry: UTXOEntry): Option<Staging> {
    if s.bucket in st.toRemove && s.outpoint in st.toRemove[s.bucket] then
      Some(st.(toRemove := UnstageRemoval(st.toRemove, s)))
    else if s.bucket in st.toAdd && s.outpoint in st.toAdd[s.bucket] then None
    else Some(st.(toAdd := StageAddition(st.toAdd, s, entry)))
  }

  /** remove: an outpoint that is being added is no longer added, and any other is removed; None
      if it is being removed already. */
  function Removed(st: Staging, s: Slot): Option<Staging> {
    if s.bucket in st.toAdd && s.outpoint in st.toAdd[s.bucket] then
      Some(st.(toAdd := UnstageAddition(st.toAdd, s)))
    else if s.bucket in st.toRemove && s.outpoint in st.toRemove[s.bucket] then None
    else Some(st.(toRemove := StageRemoval(st.toRemove, s)))
  }

  lemma AddedSlot(toAdd: Additions, s: Slot)
    ensures s in AddedSlots(toAdd) <==> s.bucket in toAdd && s.outpoint in toAdd[s.bucket]
    ensures AddedEntries(toAdd).Keys == AddedSlots(toAdd)
  {
  }

  lemma RemovedSlot(toRemove: Removals, s: Slot)
    ensures s in RemovedSlots(toRemove) <==> s.bucket in toRemove && s.outpoint in toRemove[s.bucket]
  {
  }

  lemma Overlay(index: Index, removed: set<Slot>, added: Index, s: Slot, entry: UTXOEntry)
    ensures (index - removed) + added[s := entry] == ((index - removed) + added)[s := entry]
    ensures s !in added ==> (index - (removed + {s})) + added == ((index - removed) + added) - {s}
    ensures s !in index ==> (index - removed) + (added - {s}) == ((index - removed) + added) - {s}
    ensures s in index && s !in added ==>
      (index - (removed - {s})) + added == ((index - removed) + added)[s := index[s]]
  {
  }

  /** Adding what is not in view succeeds. It brings the entry into view, unless the index still
      holds one in that place: then it is the old one that comes back. */
  lemma AddedView(index: Index, st: Staging, s: Slot, entry: UTXOEntry)
    requires Fits(index, st.toAdd, st.toRemove) && SlotOf(s.outpoint, entry) == s
    requires s !in View(index, st.toAdd, st.toRemove)
    ensures Added(st, s, entry).Some?
    ensures var after := Added(st, s, entry).value;
      Fits(index, after.toAdd, after.toRemove)
      && View(index, after.toAdd, after.toRemove)
         == View(index, st.toAdd, st.toRemove)[s := if s in index then index[s] else entry]
  {
    hide AddedSlots, AddedEntries, RemovedSlots;
    AddedSlot(st.toAdd, s);
    RemovedSlot(st.toRemove, s);
    Overlay(index, RemovedSlots(st.toRemove), AddedEntries(st.toAdd), s, entry);
    if s in RemovedSlots(st.toRemove) {
      RemovalUnstaged(st.toRemove, s);
    } else {
      AdditionStaged(st.toAdd, s, entry);
    }
  }

  /** Removing what is in view succeeds and takes it out of view. */
  lemma RemovedView(index: Index, st: Staging, s: Slot)
    requires Fits(index, st.toAdd, st.toRemove) && s in View(index, st.toAdd, st.toRemove) && |s.bucket| >= 2
    ensures Removed(st, s).Some?
    ensures var after := Removed(st, s).value;
      Fits(index, after.toAdd, after.toRemove)
      && View(index, after.toAdd, after.toRemove) == View(index, st.toAdd, st.toRemove) - {s}
  {
    hide AddedSlots, AddedEntries, RemovedSlots;
    AddedSlot(st.toAdd, s);
    RemovedSlot(st.toRemove, s);
    Overlay(index, RemovedSlots(st.toRemove), AddedEntries(st.toAdd), s, View(index, st.toAdd, st.toRemove)[s]);
    if s in AddedSlots(st.toAdd) {
      AdditionUnstaged(st.toAdd, s);
    } else {
      RemovalStaged(st.toRemove, s);
    }
  }

  // ----- what a commit writes -----

  /** The bucket a staged change is written to is the one it was staged for. */
  lemma BucketForKey(k: KeyString)
    requires |k| >= 2
    ensures BucketForScriptPublicKey(ConvertStringToScriptPublicKey(k)) == k
  {
    KeyStringRoundTrip(ConvertStringToScriptPublicKey(k), k);
  }

  function BucketForScriptPublicKey(key: ScriptPublicKey): KeyString {
    LittleEndian(key.version, 2) + key.script
  }

  ghost function SlotsIn(bucket: KeyString, outpoints: set<Outpoint>): set<Slot> {
    set op | op in outpoints :: Slot(bucket, op)
  }

  ghost function EntriesIn(bucket: KeyString, pairs: map<Outpoint, UTXOEntry>): Index {
    map op | op in pairs :: Slot(bucket, op) := pairs[op]
  }

  method DeleteBucket(transaction: DbTransaction, bucket: KeyString, outpoints: set<Outpoint>) returns (err: bool)
    modifies transaction, transaction.database`calls
    ensures !err ==>
      transaction.pending == old(transaction.pending.(index := transaction.pending.index - SlotsIn(bucket, outpoints)))
    ensures Reports(err, transaction.database.fails, old(transaction.database.calls), transaction.database.calls)
  {
    var remaining := outpoints;
    ReportsNothing(transaction.database.fails, transaction.database.calls);
    while remaining != {}
      invariant remaining <= outpoints
      invariant transaction.pending
        == old(transaction.pending.(index := transaction.pending.index - SlotsIn(bucket, outpoints - remaining)))
      invariant Reports(false, transaction.database.fails, old(transaction.database.calls), transaction.database.calls)
      decreases |remaining|
    {
      ghost var before := transaction.database.calls;
      var op :| op in remaining;
      err := transaction.Delete(Slot(bucket, op));
      ReportsThen(err, transaction.database.fails, old(transaction.database.calls), before, transaction.database.calls);
      if err {
        return;
      }
      assert SlotsIn(bucket, outpoints - (remaining - {op}))
          == SlotsIn(bucket, outpoints - remaining) + {Slot(bucket, op)};
      remaining := remaining - {op};
    }
    return false;
  }

  method PutBucket(transaction: DbTransaction, bucket: KeyString, pairs: map<Outpoint, UTXOEntry>) returns (err: bool)
    modifies transaction, transaction.database`calls
    ensures !err ==>
      transaction.pending == old(transaction.pending.(index := transaction.pending.index + EntriesIn(bucket, pairs)))
    ensures Reports(err, transaction.database.fails, old(transaction.database.calls), transaction.database.calls)
  {
    hide EntriesIn;
    var remaining := pairs.Keys;
    ReportsNothing(transaction.database.fails, transaction.database.calls);
    NoEntries(bucket);
    assert pairs - remaining == map[];
    while remaining != {}
      invariant remaining <= pairs.Keys
      invariant transaction.pending
        == old(transaction.pending.(index := transaction.pending.index + EntriesIn(bucket, pairs - remaining)))
      invariant Reports(false, transaction.database.fails, old(transaction.database.calls), transaction.database.calls)
      decreases |remaining|
    {
      ghost var before := transaction.database.calls;
      var op :| op in remaining;
      err := transaction.Put(Slot(bucket, op), pairs[op]);
      ReportsThen(err, transaction.database.fails, old(transaction.database.calls), before, transaction.database.calls);
      if err {
        return;
      }
      EntriesMore(bucket, pairs, remaining, op);
      PlusOne(old(transaction.pending.index), EntriesIn(bucket, pairs - remaining), Slot(bucket, op), pairs[op]);
      remaining := remaining - {op};
    }
    assert pairs - remaining == pairs;
    return false;
  }

  lemma NoEntries(bucket: KeyString)
    ensures EntriesIn(bucket, map[]) == map[]
  {
  }

  lemma PlusOne(a: Index, b: Index, s: Slot, entry: UTXOEntry)
    ensures (a + b)[s := entry] == a + b[s := entry]
  {
  }

  lemma EntriesMore(bucket: KeyString, pairs: map<Outpoint, UTXOEntry>, remaining: set<Outpoint>, op: Outpoint)
    requires op in remaining && remaining <= pairs.Keys
    ensures EntriesIn(bucket, pairs - (remaining - {op}))
         == EntriesIn(bucket, pairs - remaining)[Slot(bucket, op) := pairs[op]]
  {
    hide EntriesIn;
    var a, b := pairs - (remaining - {op}), pairs - remaining;
    forall s
      ensures s in EntriesIn(bucket, a) <==> s in EntriesIn(bucket, b)[Slot(bucket, op) := pairs[op]]
      ensures s in EntriesIn(bucket, a) ==>
        EntriesIn(bucket, a)[s] == EntriesIn(bucket, b)[Slot(bucket, op) := pairs[op]][s]
    {
      EntryIn(bucket, a, s);
      EntryIn(bucket, b, s);
    }
  }

  lemma RemovedSlotsMore(toRemove: Removals, remaining: set<KeyString>, k: KeyString)
    requires k in remaining && remaining <= toRemove.Keys
    ensures RemovedSlots(toRemove - (remaining - {k})) == RemovedSlots(toRemove - remaining) + SlotsIn(k, toRemove[k])
  {
    var a, b := toRemove - (remaining - {k}), toRemove - remaining;
    assert forall s :: s in RemovedSlots(a) <==> s.bucket in a && s.outpoint in a[s.bucket];
    assert forall s :: s in RemovedSlots(b) <==> s.bucket in b && s.outpoint in b[s.bucket];
    assert forall s :: s in SlotsIn(k, toRemove[k]) <==> s.bucket == k && s.outpoint in toRemove[k];
  }

  lemma EntryAdded(toAdd: Additions, s: Slot)
    ensures s in AddedEntries(toAdd) <==> s.bucket in toAdd && s.outpoint in toAdd[s.bucket]
    ensures s in AddedEntries(toAdd) ==> AddedEntries(toAdd)[s] == toAdd[s.bucket][s.outpoint]
  {
  }

  lemma EntryIn(bucket: KeyString, pairs: map<Outpoint, UTXOEntry>, s: Slot)
    ensures s in EntriesIn(bucket, pairs) <==> s.bucket == bucket && s.outpoint in pairs
    ensures s in EntriesIn(bucket, pairs) ==> EntriesIn(bucket, pairs)[s] == pairs[s.outpoint]
  {
  }

  lemma AddedEntriesMore(toAdd: Additions, remaining: set<KeyString>, k: KeyString)
    requires k in remaining && remaining <= toAdd.Keys
    ensures AddedEntries(toAdd - (remaining - {k})) == AddedEntries(toAdd - remaining) + EntriesIn(k, toAdd[k])
  {
    hide AddedEntries, EntriesIn;
    var a, b := toAdd - (remaining - {k}), toAdd - remaining;
    forall s
      ensures s in AddedEntries(a) <==> s in AddedEntries(b) + EntriesIn(k, toAdd[k])
      ensures s in AddedEntries(a) ==> AddedEntries(a)[s] == (AddedEntries(b) + EntriesIn(k, toAdd[k]))[s]
    {
      EntryAdded(a, s);
      EntryAdded(b, s);
      EntryIn(k, toAdd[k], s);
    }
  }

  lemma MinusUnion(index: Index, a: set<Slot>, b: set<Slot>)
    ensures index - a - b == index - (a + b)
  {
  }

  lemma PlusAssociates(a: Index, b: Index, c: Index)
    ensures a + b + c == a + (b + c)
  {
  }

  method DeleteStaged(transaction: DbTransaction, toRemove: Removals) returns (err: bool)
    requires forall k :: k in toRemove ==> |k| >= 2
    modifies transaction, transaction.database`calls
    ensures !err ==>
      transaction.pending == old(transaction.pending.(index := transaction.pending.index - RemovedSlots(toRemove)))
    ensures Reports(err, transaction.database.fails, old(transaction.database.calls), transaction.database.calls)
  {
    hide RemovedSlots, SlotsIn;
    var remaining := toRemove.Keys;
    ReportsNothing(transaction.database.fails, transaction.database.calls);
    NothingRemoved();
    assert toRemove - remaining == map[];
    while remaining != {}
      invariant remaining <= toRemove.Keys
      invariant transaction.pending
        == old(transaction.pending.(index := transaction.pending.index - RemovedSlots(toRemove - remaining)))
      invariant Reports(false, transaction.database.fails, old(transaction.database.calls), transaction.database.calls)
      decreases |remaining|
    {
      ghost var before := transaction.database.calls;
      var k :| k in remaining;
      BucketForKey(k);
      err := DeleteBucket(transaction, BucketForScriptPublicKey(ConvertStringToScriptPublicKey(k)), toRemove[k]);
      ReportsThen(err, transaction.database.fails, old(transaction.database.calls), before, transaction.database.calls);
      if err {
        return;
      }
      RemovedSlotsMore(toRemove, remaining, k);
      MinusUnion(old(transaction.pending.index), RemovedSlots(toRemove - remaining), SlotsIn(k, toRemove[k]));
      remaining := remaining - {k};
    }
    assert toRemove - remaining == toRemove;
    return false;
  }

  lemma NothingRemoved()
    ensures RemovedSlots(map[]) == {}
    ensures AddedEntries(map[]) == map[]
  {
  }

  method PutStaged(transaction: DbTransaction, toAdd: Additions) returns (err: bool)
    requires forall k :: k in toAdd ==> |k| >= 2
    modifies transaction, transaction.database`calls
    ensures !err ==>
      transaction.pending == old(transaction.pending.(index := transaction.pending.index + AddedEntries(toAdd)))
    ensures Reports(err, transaction.database.fails, old(transaction.database.calls), transaction.database.calls)
  {
    hide *;
    var remaining := toAdd.Keys;
    ReportsNothing(transaction.database.fails, transaction.database.calls);
    NothingRemoved();
    assert toAdd - remaining == map[];
    while remaining != {}
      invariant remaining <= toAdd.Keys
      invariant transaction.pending
        == old(transaction.pending.(index := transaction.pending.index + AddedEntries(toAdd - remaining)))
      invariant Reports(false, transaction.database.fails, old(transaction.database.calls), transaction.database.calls)
      decreases |remaining|
    {
      ghost var before := transaction.database.calls;
      var k :| k in remaining;
      BucketForKey(k);
      err := PutBucket(transaction, BucketForScriptPublicKey(ConvertStringToScriptPublicKey(k)), toAdd[k]);
      ReportsThen(err, transaction.database.fails, old(transaction.database.calls), before, transaction.database.calls);
      if err {
        return;
      }
      AddedEntriesMore(toAdd, remaining, k);
      PlusAssociates(old(transaction.pending.index), AddedEntries(toAdd - remaining), EntriesIn(k, toAdd[k]));
      remaining := remaining - {k};
    }
    assert toAdd - remaining == toAdd;
    return false;
  }

  /** Exactly the slots that came are added, with their entries, exactly those that went are removed,
      and the entries of all others are those there were. */
  ghost predicate IsDifference(before: Index, after: Index, added: Additions, removed: Removals) {
    && (forall s: Slot :: s.bucket in added && s.outpoint in added[s.bucket] <==> s in after && s !in before)
    && (forall s: Slot :: s in after && s !in before && s.bucket in added && s.outpoint in added[s.bucket] ==>
          added[s.bucket][s.outpoint] == after[s])
    && (forall s: Slot :: s.bucket in removed && s.outpoint in removed[s.bucket] <==> s in before && s !in after)
    && (forall s: Slot :: s in before && s in after ==> before[s] == after[s])
  }

  /** What is staged is the difference that a commit makes. */
  lemma StagedIsDifference(index: Index, toAdd: Additions, toRemove: Removals)
    requires Fits(index, toAdd, toRemove)
    ensures IsDifference(index, View(index, toAdd, toRemove), toAdd, toRemove)
  {
    hide AddedEntries, AddedSlots, RemovedSlots;
    var view := View(index, toAdd, toRemove);
    forall s: Slot
      ensures s.bucket in toAdd && s.outpoint in toAdd[s.bucket] <==> s in view && s !in index
      ensures s.bucket in toAdd && s.outpoint in toAdd[s.bucket] ==> s in view && toAdd[s.bucket][s.outpoint] == view[s]
      ensures s.bucket in toRemove && s.outpoint in toRemove[s.bucket] <==> s in index && s !in view
      ensures s in index && s in view ==> index[s] == view[s]
    {
      EntryAdded(toAdd, s);
      AddedSlot(toAdd, s);
      RemovedSlot(toRemove, s);
    }
  }

  /** A commit may delete and put in either order. */
  lemma CommitOrderIrrelevant(index: Index, toAdd: Additions, toRemove: Removals)
    requires Fits(index, toAdd, toRemove)
    ensures (index + AddedEntries(toAdd)) - RemovedSlots(toRemove) == View(index, toAdd, toRemove)
  {
    hide AddedEntries, AddedSlots, RemovedSlots;
    forall s
      ensures !(s in AddedEntries(toAdd) && s in RemovedSlots(toRemove))
    {
      EntryAdded(toAdd, s);
      AddedSlot(toAdd, s);
    }
  }

  // ----- the store -----

  class UtxoIndexStore {
    const database: Database
    var toAdd: Additions
    var toRemove: Removals
    var virtualParents: seq<Hash>

    constructor (database: Database)
      ensures this.database == database && toAdd == map[] && toRemove == map[] && virtualParents == []
    {
      this.database, toAdd, toRemove, virtualParents := database, map[], map[], [];
    }

    /** The index as it will be once the staged changes are committed. */
    ghost function Pending(): Index
      reads this, database
    {
      View(database.state.index, toAdd, toRemove)
    }

    ghost predicate StagingFits()
      reads this, database
    {
      Fits(database.state.index, toAdd, toRemove)
    }

    method Add(scriptPublicKey: ScriptPublicKey, outpoint: Outpoint, entry: UTXOEntry) returns (err: bool)
      modifies this
      ensures var after := Added(old(Staging(toAdd, toRemove)),
                                 Slot(ConvertScriptPublicKeyToString(scriptPublicKey), outpoint), entry);
        err == after.None? && (!err ==> Staging(toAdd, toRemove) == after.value)
      ensures virtualParents == old(virtualParents)
    {
      var key := ConvertScriptPublicKeyToString(scriptPublicKey);
      if key in toRemove && outpoint in toRemove[key] {
        toRemove := toRemove[key := toRemove[key] - {outpoint}];
        return false;
      }
      if key !in toAdd {
        toAdd := toAdd[key := map[]];
      }
      if outpoint in toAdd[key] {
        return true;
      }
      toAdd := toAdd[key := toAdd[key][outpoint := entry]];
      return false;
    }

    method Remove(scriptPublicKey: ScriptPublicKey, outpoint: Outpoint) returns (err: bool)
      modifies this
      ensures var after := Removed(old(Staging(toAdd, toRemove)),
                                   Slot(ConvertScriptPublicKeyToString(scriptPublicKey), outpoint));
        err == after.None? && (!err ==> Staging(toAdd, toRemove) == after.value)
      ensures virtualParents == old(virtualParents)
    {
      var key := ConvertScriptPublicKeyToString(scriptPublicKey);
      if key in toAdd && outpoint in toAdd[key] {
        toAdd := toAdd[key := toAdd[key] - {outpoint}];
        return false;
      }
      if key !in toRemove {
        toRemove := toRemove[key := {}];
      }
      if outpoint in toRemove[key] {
        return true;
      }
      toRemove := toRemove[key := toRemove[key] + {outpoint}];
      return false;
    }

    method UpdateVirtualParents(parents: seq<Hash>)
      modifies this`virtualParents
      ensures virtualParents == parents
    {
      virtualParents := parents;
    }

    method Discard()
      modifies this
      ensures toAdd == map[] && toRemove == map[] && virtualParents == []
    {
      toAdd, toRemove, virtualParents := map[], map[], [];
    }

    /** Everything staged is written at once together with the marker, or nothing is. */
    method Commit() returns (err: bool)
      requires StagingFits() && Addressable(virtualParents)
      modifies this, database
      ensures !err ==> database.state == old(DbState(Pending(), Some(Serialized(virtualParents))))
      ensures !err ==>
        database.history == old(database.history) + [database.state] && toAdd == map[] && toRemove == map[]
      ensures err ==> database.state == old(database.state) && database.history == old(database.history)
      ensures err ==> toAdd == old(toAdd) && toRemove == old(toRemove) && virtualParents == old(virtualParents)
      ensures Reports(err, database.fails, old(database.calls), database.calls)
    {
      var transaction;
      err, transaction := database.Begin();
      if err {
        return;
      }
      ghost var before := database.calls;
      err := DeleteStaged(transaction, toRemove);
      ReportsThen(err, database.fails, old(database.calls), before, database.calls);
      if err {
        return;
      }
      before := database.calls;
      err := PutStaged(transaction, toAdd);
      ReportsThen(err, database.fails, old(database.calls), before, database.calls);
      if err {
        return;
      }
      var bytes := SerializeHashes(virtualParents);
      before := database.calls;
      err := transaction.PutMarker(bytes[..]);
      ReportsThen(err, database.fails, old(database.calls), before, database.calls);
      if err {
        return;
      }
      before := database.calls;
      err := transaction.Commit();
      ReportsThen(err, database.fails, old(database.calls), before, database.calls);
      if err {
        return;
      }
      Discard();
    }

    /** There is a marker that holds no hashes. */
    ghost predicate BadMarker()
      reads database`state
    {
      database.state.marker.Some? && !Deserialized(database.state.marker.value).Hashes?
    }

    predicate IsAnythingStaged()
      reads this
    {
      |toAdd| > 0 || |toRemove| > 0
    }

    /** Writes entries one by one. Without a marker, no crash in between matters. */
    method AddAndCommitOutpointsWithoutTransaction(pairs: seq<(Outpoint, UTXOEntry)>,
                                                   ghost utxoOf: seq<Hash> -> VirtualSet)
      returns (err: bool)
      requires database.Recoverable(utxoOf) && database.state.marker.None?
      modifies database
      ensures database.Recoverable(utxoOf) && database.state.marker.None?
      ensures !err ==> database.state.index == WithPairs(old(database.state.index), pairs)
      ensures Reports(err, database.fails, old(database.calls), database.calls)
    {
      ReportsNothing(database.fails, database.calls);
      err := false;
      for k := 0 to |pairs|
        invariant database.Recoverable(utxoOf) && database.state.marker.None?
        invariant database.state.index == WithPairs(old(database.state.index), pairs[..k])
        invariant Reports(false, database.fails, old(database.calls), database.calls) && !err
      {
        var bucket := BucketForScriptPublicKey(pairs[k].1.scriptPublicKey);
        assert pairs[..k + 1][..k] == pairs[..k];
        ghost var before := database.calls;
        err := database.Put(Slot(bucket, pairs[k].0), pairs[k].1);
        ReportsThen(err, database.fails, old(database.calls), before, database.calls);
        if err {
          return;
        }
      }
      assert pairs[..|pairs|] == pairs;
    }

    method UpdateAndCommitVirtualParentsWithoutTransaction(parents: seq<Hash>) returns (err: bool)
      requires Addressable(parents)
      modifies database
      ensures err ==> database.state == old(database.state) && database.history == old(database.history)
      ensures !err ==> database.state == old(database.state).(marker := Some(Serialized(parents)))
      ensures !err ==> database.history == old(database.history) + [database.state]
      ensures Reports(err, database.fails, old(database.calls), database.calls)
    {
      var bytes := SerializeHashes(parents);
      err := database.PutMarker(bytes[..]);
    }

    /** The entries of a script, by outpoint. Refused while changes are staged; otherwise only the
        database can fail. */
    method GetUTXOOutpointEntryPairs(scriptPublicKey: ScriptPublicKey)
      returns (pairs: map<Outpoint, UTXOEntry>, err: bool)
      modifies database`calls
      ensures IsAnythingStaged() ==> err && database.calls == old(database.calls)
      ensures !IsAnythingStaged() ==> Reports(err, database.fails, old(database.calls), database.calls)
      ensures !err ==>
        forall op :: op in pairs <==> Slot(ConvertScriptPublicKeyToString(scriptPublicKey), op) in database.state.index
      ensures !err ==> forall op :: op in pairs ==>
        pairs[op] == database.state.index[Slot(ConvertScriptPublicKeyToString(scriptPublicKey), op)]
    {
      pairs := map[];
      if IsAnythingStaged() {
        return pairs, true;
      }
      var bucket := BucketForScriptPublicKey(scriptPublicKey);
      err := database.Access();
      if err {
        return;
      }
      var index := database.state.index;
      var cursor := set s | s in index && s.bucket == bucket;
      ghost var all := cursor;
      while cursor != {}
        invariant cursor <= all
        invariant forall op :: op in pairs <==> Slot(bucket, op) in all - cursor
        invariant forall op :: op in pairs ==> pairs[op] == index[Slot(bucket, op)]
        invariant Reports(false, database.fails, old(database.calls), database.calls) && !err
        decreases |cursor|
      {
        var s :| s in cursor;
        err := ReadItem(old(database.calls));
        if err {
          return;
        }
        pairs := pairs[s.outpoint := index[s]];
        cursor := cursor - {s};
      }
    }

    /** Reads the key and the value at a cursor. */
    method ReadItem(ghost start: nat) returns (err: bool)
      requires Reports(false, database.fails, start, database.calls)
      modifies database`calls
      ensures Reports(err, database.fails, start, database.calls)
    {
      ghost var before := database.calls;
      err := database.Access();
      ReportsThen(err, database.fails, start, before, database.calls);
      if err {
        return;
      }
      before := database.calls;
      err := database.Access();
      ReportsThen(err, database.fails, start, before, database.calls);
    }

    /** The virtual parents that the marker names, None if there is no marker. Refused while changes
        are staged; otherwise an error means that the database failed or that the marker is not one. */
    method GetVirtualParents() returns (parents: Option<seq<Hash>>, err: bool)
      requires database.state.marker.Some? ==> |database.state.marker.value| < WORD64 / 2
      modifies database`calls
      ensures IsAnythingStaged() ==> err && database.calls == old(database.calls)
      ensures BadMarker() ==> err
      ensures !IsAnythingStaged() && !BadMarker() ==> Reports(err, database.fails, old(database.calls), database.calls)
      ensures !err ==> (parents.None? <==> database.state.marker.None?)
      ensures !err && parents.Some? ==> Deserialized(database.state.marker.value) == Hashes(parents.value)
    {
      if IsAnythingStaged() {
        return None, true;
      }
      err := database.Access();
      if err {
        return None, true;
      }
      if database.state.marker.None? {
        return None, false;
      }
      var result := DeserializeHashes(database.state.marker.value);
      if !result.Hashes? {
        return None, true;
      }
      return Some(result.hashes), false;
    }

    /** Deletes the marker first, so that a crash later on is noticed. */
    method DeleteAll(ghost utxoOf: seq<Hash> -> VirtualSet) returns (err: bool)
      requires database.Recoverable(utxoOf)
      modifies database
      ensures database.Recoverable(utxoOf)
      ensures !err ==> database.state == DbState(map[], None)
      ensures Reports(err, database.fails, old(database.calls), database.calls)
    {
      err := database.DeleteMarker();
      if err {
        return;
      }
      ghost var before := database.calls;
      err := database.Access();
      ReportsThen(err, database.fails, old(database.calls), before, database.calls);
      if err {
        return;
      }
      var cursor := database.state.index.Keys;
      while cursor != {}
        invariant database.Recoverable(utxoOf) && database.state.marker.None? && database.state.index.Keys == cursor
        invariant Reports(false, database.fails, old(database.calls), database.calls) && !err
        decreases |cursor|
      {
        var s :| s in cursor;
        err := DeleteItem(s, utxoOf, old(database.calls));
        if err {
          return;
        }
        cursor := cursor - {s};
      }
    }

    /** Reads the key at a cursor and deletes it. */
    method DeleteItem(s: Slot, ghost utxoOf: seq<Hash> -> VirtualSet, ghost start: nat) returns (err: bool)
      requires database.Recoverable(utxoOf) && database.state.marker.None?
      requires Reports(false, database.fails, start, database.calls)
      modifies database
      ensures database.Recoverable(utxoOf) && database.state.marker.None?
      ensures !err ==> database.state.index == old(database.state.index) - {s}
      ensures Reports(err, database.fails, start, database.calls)
    {
      ghost var before := database.calls;
      err := database.Access();
      ReportsThen(err, database.fails, start, before, database.calls);
      if err {
        return;
      }
      before := database.calls;
      err := database.Delete(s);
      ReportsThen(err, database.fails, start, before, database.calls);
    }
  }

  /** The index after entries were written one after another. */
  ghost function WithPairs(index: Index, pairs: seq<(Outpoint, UTXOEntry)>): Index {
    if pairs == [] then index
    else
      var last := pairs[|pairs| - 1];
      WithPairs(index, pairs[..|pairs| - 1])[SlotOf(last.0, last.1) := last.1]
  }
}

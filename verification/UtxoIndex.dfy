/** domain/utxoindex/utxoindex.go: an index of the virtual UTXO set by script, kept up to date
    with the changes of the virtual block and rebuilt when it cannot be trusted. */
module UtxoIndices {
  import opened Failures
  import opened IndexDatabases
  import opened Options
  import opened Powers
  import opened Transactions
  import opened UtxoIndexCodec
  import opened UtxoIndexStores

  type Pair = (Outpoint, UTXOEntry)

  /** A change of the virtual UTXO set. */
  datatype UTXODiff = UTXODiff(toAdd: VirtualSet, toRemove: VirtualSet)

  /** The diff removes what is there, as it is there, and adds what is then absent. */
  ghost predicate Applicable(v: VirtualSet, diff: UTXODiff) {
    && (forall op :: op in diff.toRemove ==> op in v && v[op] == diff.toRemove[op])
    && (forall op :: op in diff.toAdd && op in v ==> op in diff.toRemove)
  }

  /** The diff removes outpoints that are there under the script it names, and adds what is then
      absent. */
  ghost predicate AppliesByScript(v: VirtualSet, diff: UTXODiff) {
    && (forall op :: op in diff.toRemove ==> op in v && v[op].scriptPublicKey == diff.toRemove[op].scriptPublicKey)
    && (forall op :: op in diff.toAdd && op in v ==> op in diff.toRemove)
  }

  ghost function Applied(v: VirtualSet, diff: UTXODiff): VirtualSet {
    (v - diff.toRemove.Keys) + diff.toAdd
  }

  // ----- the index follows one change -----

  lemma IndexesRemoval(index: Index, v: VirtualSet, op: Outpoint)
    requires Indexes(index, v) && op in v
    ensures SlotOf(op, v[op]) in index && Indexes(index - {SlotOf(op, v[op])}, v - {op})
  {
  }

  lemma IndexesAddition(index: Index, v: VirtualSet, op: Outpoint, entry: UTXOEntry)
    requires Indexes(index, v) && op !in v
    ensures SlotOf(op, entry) !in index && Indexes(index[SlotOf(op, entry) := entry], v[op := entry])
  {
  }

  /** What ends up in the index for an addition: where the stored index holds an entry of that
      outpoint and script, the addition only cancels its removal. */
  ghost function Recorded(index: Index, toAdd: VirtualSet): VirtualSet {
    map op | op in toAdd :: if SlotOf(op, toAdd[op]) in index then index[SlotOf(op, toAdd[op])] else toAdd[op]
  }

  /** No outpoint comes back under the script it is stored under with another entry. */
  ghost predicate KeepsEntries(index: Index, toAdd: VirtualSet) {
    forall op :: op in toAdd && SlotOf(op, toAdd[op]) in index ==> index[SlotOf(op, toAdd[op])] == toAdd[op]
  }

  lemma RecordedExactly(index: Index, toAdd: VirtualSet)
    ensures Recorded(index, toAdd) == toAdd <==> KeepsEntries(index, toAdd)
  {
    if Recorded(index, toAdd) == toAdd {
      forall op | op in toAdd && SlotOf(op, toAdd[op]) in index ensures index[SlotOf(op, toAdd[op])] == toAdd[op] {
        assert Recorded(index, toAdd)[op] == toAdd[op];
      }
    }
  }

  /** An outpoint that is removed and added again under one script keeps its entry. */
  ghost predicate ReaddsUnchanged(diff: UTXODiff) {
    forall op :: op in diff.toAdd && op in diff.toRemove ==>
      diff.toAdd[op].scriptPublicKey == diff.toRemove[op].scriptPublicKey ==> diff.toAdd[op] == diff.toRemove[op]
  }

  /** With nothing staged, the condition is about the diff alone. */
  lemma KeepsEntriesOfDiff(index: Index, v: VirtualSet, diff: UTXODiff)
    requires Indexes(index, v) && Applicable(v, diff)
    ensures KeepsEntries(index, diff.toAdd) <==> ReaddsUnchanged(diff)
  {
    forall op | op in diff.toAdd && SlotOf(op, diff.toAdd[op]) in index
      ensures op in diff.toRemove && diff.toAdd[op].scriptPublicKey == diff.toRemove[op].scriptPublicKey
      ensures index[SlotOf(op, diff.toAdd[op])] == diff.toRemove[op]
    {
      KeyStringInjective(diff.toAdd[op].scriptPublicKey, v[op].scriptPublicKey);
    }
    forall op | op in diff.toAdd && op in diff.toRemove
        && diff.toAdd[op].scriptPublicKey == diff.toRemove[op].scriptPublicKey
      ensures SlotOf(op, diff.toAdd[op]) in index
    {
      assert SlotOf(op, v[op]) in index;
    }
  }

  /** An outpoint that comes back with a later score keeps its old entry in the index. */
  lemma ReaddedEntryIsStale(op: Outpoint, script: ScriptPublicKey)
    ensures var before, after := UTXOEntry(1, script, 10, false), UTXOEntry(1, script, 20, false);
      var v, index := map[op := before], map[SlotOf(op, before) := before];
      var diff := UTXODiff(map[op := after], map[op := before]);
      && Indexes(index, v) && Applicable(v, diff)
      && Applied(v, diff)[op] == after && Recorded(index, diff.toAdd)[op] == before
  {
  }

  // ----- runs of changes -----

  /** The set that the index of `v` holds after a change: an outpoint that comes back under its script
      keeps its entry. */
  ghost function Stored(v: VirtualSet, diff: UTXODiff): VirtualSet {
    (v - diff.toRemove.Keys) + map op | op in diff.toAdd :: StoredEntry(v, op, diff.toAdd[op])
  }

  ghost function StoredEntry(v: VirtualSet, op: Outpoint, entry: UTXOEntry): UTXOEntry {
    if op in v && v[op].scriptPublicKey == entry.scriptPublicKey then v[op] else entry
  }

  lemma StoredResults(index: Index, v: VirtualSet, diff: UTXODiff)
    requires Indexes(index, v)
    ensures Resulting(index, v, diff) == Stored(v, diff)
  {
    forall op | op in diff.toAdd
      ensures Recorded(index, diff.toAdd)[op] == StoredEntry(v, op, diff.toAdd[op])
    {
      ScriptOfSlot(index, v, diff.toAdd[op].scriptPublicKey, op);
    }
  }

  /** Both sets hold the same outpoints under the same scripts. */
  ghost predicate SameScripts(v: VirtualSet, w: VirtualSet) {
    v.Keys == w.Keys && forall op :: op in v ==> v[op].scriptPublicKey == w[op].scriptPublicKey
  }

  /** What the index holds after a change has the outpoints and scripts of the changed set, and is
      the changed set exactly when the entries that come back are those there were. */
  lemma StoredFollows(v: VirtualSet, w: VirtualSet, diff: UTXODiff)
    requires SameScripts(v, w) && Applicable(w, diff)
    ensures AppliesByScript(v, diff) && SameScripts(Stored(v, diff), Applied(w, diff))
    ensures v == w ==> (Stored(v, diff) == Applied(w, diff) <==> ReaddsUnchanged(diff))
  {
    if v == w && Stored(v, diff) == Applied(w, diff) {
      forall op | op in diff.toAdd && op in diff.toRemove
          && diff.toAdd[op].scriptPublicKey == diff.toRemove[op].scriptPublicKey
        ensures diff.toAdd[op] == diff.toRemove[op]
      {
        assert Stored(v, diff)[op] == Applied(w, diff)[op];
      }
    }
  }

  ghost function AppliedAll(v: VirtualSet, diffs: seq<UTXODiff>): VirtualSet {
    if diffs == [] then v else Applied(AppliedAll(v, diffs[..|diffs| - 1]), diffs[|diffs| - 1])
  }

  ghost function StoredAll(v: VirtualSet, diffs: seq<UTXODiff>): VirtualSet {
    if diffs == [] then v else Stored(StoredAll(v, diffs[..|diffs| - 1]), diffs[|diffs| - 1])
  }

  /** Each diff applies to what the ones before it leave of `v`. */
  ghost predicate ApplicableAll(v: VirtualSet, diffs: seq<UTXODiff>) {
    forall k :: 0 <= k < |diffs| ==> Applicable(AppliedAll(v, diffs[..k]), diffs[k])
  }

  /** Over any run of changes, what the index holds has the outpoints and scripts of the virtual set;
      it is that set if no outpoint ever comes back with another entry. */
  lemma {:induction false} StoredAllFollows(v: VirtualSet, w: VirtualSet, diffs: seq<UTXODiff>)
    requires SameScripts(v, w) && ApplicableAll(w, diffs)
    ensures SameScripts(StoredAll(v, diffs), AppliedAll(w, diffs))
    ensures v == w && (forall k :: 0 <= k < |diffs| ==> ReaddsUnchanged(diffs[k])) ==>
      StoredAll(v, diffs) == AppliedAll(w, diffs)
    decreases |diffs|
  {
    hide Applicable, ReaddsUnchanged, SameScripts, Stored, Applied;
    if diffs != [] {
      var n := |diffs| - 1;
      assert forall k :: 0 <= k < n ==> diffs[..n][..k] == diffs[..k];
      StoredAllFollows(v, w, diffs[..n]);
      StoredFollows(StoredAll(v, diffs[..n]), AppliedAll(w, diffs[..n]), diffs[n]);
    }
  }

  // ----- consensus -----

  /** The virtual block as the index sees it. It may change between any two calls. */
  class VirtualConsensus {
    const parentsAt: nat -> seq<Hash>
    /** The UTXO set of virtual parents, in the order of the database. */
    const listOf: seq<Hash> -> seq<Pair>
    const fails: nat -> bool
    var calls: nat

    ghost predicate Lawful() {
      (forall n :: Addressable(parentsAt(n))) && forall parents :: DistinctOutpoints(listOf(parents))
    }

    /** The UTXO set of virtual parents. */
    ghost function UtxoOf(): seq<Hash> -> VirtualSet {
      (parents: seq<Hash>) => SetOf(listOf(parents))
    }

    /** The calls that fail, or that find other virtual parents than the expected ones. */
    ghost function Refusals(expected: seq<Hash>): nat -> bool {
      (n: nat) => fails(n) || parentsAt(n) != expected
    }

    method GetVirtualInfo() returns (parents: seq<Hash>, err: bool)
      requires Lawful()
      modifies this
      ensures calls == old(calls) + 1 && parents == parentsAt(old(calls)) && Addressable(parents)
      ensures Reports(err, fails, old(calls), calls) && Reports(err, Refusals(parents), old(calls), calls)
    {
      ReportsOne(fails, calls);
      parents, err := parentsAt(calls), fails(calls);
      ReportsOne(Refusals(parents), calls);
      calls := calls + 1;
    }

    /** At most `limit` pairs strictly behind `from`; an error if the virtual parents are not the
        expected ones any more, or if `from` is not there. */
    method GetVirtualUTXOs(expected: seq<Hash>, from: Option<Outpoint>, limit: nat) returns (page: seq<Pair>, err: bool)
      modifies this
      ensures calls == old(calls) + 1
      ensures from.None? || Position(listOf(expected), from.value) < |listOf(expected)| ==>
        Reports(err, Refusals(expected), old(calls), calls)
      ensures !err ==> from.None? || Position(listOf(expected), from.value) < |listOf(expected)|
      ensures !err ==>
        var start := if from.None? then 0 else Position(listOf(expected), from.value) + 1;
        page == Page(listOf(expected), start, limit)
    {
      ReportsOne(Refusals(expected), calls);
      err := fails(calls) || parentsAt(calls) != expected;
      calls := calls + 1;
      var list := listOf(expected);
      if from.Some? && Position(list, from.value) == |list| {
        err := true;
      }
      page := if err then [] else Page(list, if from.None? then 0 else Position(list, from.value) + 1, limit);
    }
  }

  ghost predicate DistinctOutpoints(list: seq<Pair>) {
    forall i, j :: 0 <= i < j < |list| ==> list[i].0 != list[j].0
  }

  /** Where an outpoint stands, or the length of the list. */
  function Position(list: seq<Pair>, op: Outpoint): (i: nat)
    ensures i <= |list| && (i < |list| ==> list[i].0 == op)
    ensures forall j :: 0 <= j < i ==> list[j].0 != op
    decreases |list|
  {
    if list == [] then 0
    else
      var i := Position(list[..|list| - 1], op);
      if i < |list| - 1 then i else if list[|list| - 1].0 == op then |list| - 1 else |list|
  }

  function Page(list: seq<Pair>, start: nat, limit: nat): seq<Pair>
    requires start <= |list|
  {
    if start + limit <= |list| then list[start..start + limit] else list[start..]
  }

  ghost function SetOf(list: seq<Pair>): VirtualSet {
    if list == [] then map[] else SetOf(list[..|list| - 1])[list[|list| - 1].0 := list[|list| - 1].1]
  }

  lemma {:induction false} SetOfOutpoints(list: seq<Pair>)
    ensures forall op :: op in SetOf(list) <==> exists i :: 0 <= i < |list| && list[i].0 == op
    decreases |list|
  {
    if list != [] {
      var n := |list| - 1;
      SetOfOutpoints(list[..n]);
      assert forall i :: 0 <= i < n ==> list[..n][i] == list[i];
    }
  }

  /** Written one by one into an empty index, a list gives the index of its set. */
  lemma {:induction false} WithPairsIndexes(list: seq<Pair>)
    requires DistinctOutpoints(list)
    ensures Indexes(WithPairs(map[], list), SetOf(list))
    decreases |list|
  {
    if list != [] {
      var n := |list| - 1;
      WithPairsIndexes(list[..n]);
      SetOfOutpoints(list[..n]);
      IndexesAddition(WithPairs(map[], list[..n]), SetOf(list[..n]), list[n].0, list[n].1);
    }
  }

  lemma NoPairs(index: Index)
    ensures WithPairs(index, []) == index
  {
  }

  lemma {:induction false} WithPairsConcat(index: Index, a: seq<Pair>, b: seq<Pair>)
    ensures WithPairs(WithPairs(index, a), b) == WithPairs(index, a + b)
    decreases |b|
  {
    if b == [] {
      assert a + b == a;
    } else {
      var n := |b| - 1;
      WithPairsConcat(index, a, b[..n]);
      assert (a + b)[..|a| + n] == a + b[..n];
    }
  }

  // ----- the index -----

  /** The staged changes that an update committed. */
  datatype UTXOChanges = UTXOChanges(added: Additions, removed: Removals)

  datatype BlockInsertionResult = BlockInsertionResult(virtualUTXODiff: UTXODiff, virtualParents: seq<Hash>)

  class UTXOIndex {
    const consensus: VirtualConsensus
    const store: UtxoIndexStore

    constructor (consensus: VirtualConsensus, database: Database)
      ensures this.consensus == consensus && fresh(store) && store.database == database
      ensures store.toAdd == map[] && store.toRemove == map[]
    {
      this.consensus := consensus;
      store := new UtxoIndexStore(database);
    }

    /** Once the staged changes are committed, the index holds the UTXO set `v`. */
    ghost predicate Follows(v: VirtualSet)
      reads store, store.database`state
    {
      FollowsWith(store.database.state.index, Staging(store.toAdd, store.toRemove), v)
    }

    method RemoveUTXOs(toRemove: VirtualSet, ghost v: VirtualSet) returns (err: bool)
      requires Follows(v)
      requires forall op :: op in toRemove ==> op in v && v[op].scriptPublicKey == toRemove[op].scriptPublicKey
      modifies store
      ensures !err && Follows(v - toRemove.Keys) && store.virtualParents == old(store.virtualParents)
    {
      hide FollowsWith, Removed;
      var remaining := toRemove.Keys;
      assert v - (toRemove.Keys - remaining) == v;
      while remaining != {}
        invariant remaining <= toRemove.Keys && Follows(v - (toRemove.Keys - remaining))
        invariant store.virtualParents == old(store.virtualParents)
        decreases |remaining|
      {
        var op :| op in remaining;
        RemoveFollows(store.database.state.index, Staging(store.toAdd, store.toRemove),
                      v - (toRemove.Keys - remaining), op);
        err := store.Remove(toRemove[op].scriptPublicKey, op);
        if err {
          return;
        }
        assert v - (toRemove.Keys - (remaining - {op})) == v - (toRemove.Keys - remaining) - {op};
        remaining := remaining - {op};
      }
      assert toRemove.Keys - remaining == toRemove.Keys;
      return false;
    }

    method AddUTXOs(toAdd: VirtualSet, ghost v: VirtualSet) returns (err: bool)
      requires Follows(v) && toAdd.Keys !! v.Keys
      modifies store
      ensures !err && Follows(v + Recorded(store.database.state.index, toAdd))
      ensures store.virtualParents == old(store.virtualParents)
    {
      hide FollowsWith, Added, Recorded, RecordedEntry;
      ghost var index := store.database.state.index;
      var remaining := toAdd.Keys;
      NothingRecorded(index, v);
      assert toAdd - remaining == map[];
      while remaining != {}
        invariant remaining <= toAdd.Keys && Follows(v + Recorded(index, toAdd - remaining))
        invariant store.virtualParents == old(store.virtualParents)
        decreases |remaining|
      {
        var op :| op in remaining;
        RecordedOutpoints(index, toAdd - remaining);
        AddFollows(index, Staging(store.toAdd, store.toRemove), v + Recorded(index, toAdd - remaining), op, toAdd[op]);
        err := store.Add(toAdd[op].scriptPublicKey, op, toAdd[op]);
        if err {
          return;
        }
        RecordedMore(index, v, toAdd, remaining, op);
        remaining := remaining - {op};
      }
      assert toAdd - remaining == toAdd;
      return false;
    }

    /** Takes over a change of the virtual UTXO set from `v`. Only the database can fail, and then
        the change stays staged. The index follows the changed set exactly when no outpoint comes
        back with another entry, and the changes reported are those made to the stored index. */
    method Update(insertion: BlockInsertionResult, ghost v: VirtualSet) returns (changes: UTXOChanges, err: bool)
      requires Follows(v) && AppliesByScript(v, insertion.virtualUTXODiff) && Addressable(insertion.virtualParents)
      modifies store, store.database
      ensures Follows(Resulting(old(store.database.state.index), v, insertion.virtualUTXODiff))
      ensures Follows(Applied(v, insertion.virtualUTXODiff)) <==>
        KeepsEntries(old(store.database.state.index), insertion.virtualUTXODiff.toAdd)
      ensures !err ==> store.database.state.marker == Some(Serialized(insertion.virtualParents))
      ensures !err ==>
        store.database.state.index == View(old(store.database.state.index), changes.added, changes.removed)
      ensures !err ==>
        IsDifference(old(store.database.state.index), store.database.state.index, changes.added, changes.removed)
      ensures !err ==>
        store.toAdd == map[] && store.toRemove == map[]
        && store.database.history == old(store.database.history) + [store.database.state]
      ensures err ==>
        store.database.state == old(store.database.state) && store.database.history == old(store.database.history)
      ensures old(store.database.Recoverable(consensus.UtxoOf()))
        && KeepsEntries(old(store.database.state.index), insertion.virtualUTXODiff.toAdd)
        && consensus.UtxoOf()(insertion.virtualParents) == Applied(v, insertion.virtualUTXODiff)
        ==> store.database.Recoverable(consensus.UtxoOf())
      ensures Reports(err, store.database.fails, old(store.database.calls), store.database.calls)
    {
      hide FollowsWith, Recorded, KeepsEntries, View, IsDifference, Fits, Coherent, VirtualConsensus.UtxoOf;
      ghost var index, diff := store.database.state.index, insertion.virtualUTXODiff;
      changes := UTXOChanges(map[], map[]);
      err := RemoveUTXOs(insertion.virtualUTXODiff.toRemove, v);
      if err {
        return;
      }
      err := AddUTXOs(insertion.virtualUTXODiff.toAdd, v - diff.toRemove.Keys);
      if err {
        return;
      }
      store.UpdateVirtualParents(insertion.virtualParents);
      changes := UTXOChanges(store.toAdd, store.toRemove);
      ghost var st, result := Staging(store.toAdd, store.toRemove), Resulting(index, v, diff);
      FollowsFits(index, st, result);
      FollowsExactly(index, index, st, v, diff);
      StagedIsDifference(index, store.toAdd, store.toRemove);
      err := store.Commit();
      if !err {
        FollowsCommitted(index, st, result);
        FollowsExactly(index, store.database.state.index, Staging(map[], map[]), v, diff);
        CommittedCoherent(consensus.UtxoOf(), store.database.state, insertion.virtualParents);
      }
    }

    /** Rebuilds the index from pages of the virtual UTXO set. Every state on the way is coherent,
        whatever fails and whether the virtual block changes meanwhile. It succeeds exactly when no
        call fails and consensus names the same virtual parents throughout; the marker then names
        them and the index holds their UTXO set. */
    method Reset() returns (err: bool, ghost parents: seq<Hash>)
      requires consensus.Lawful() && store.database.Recoverable(consensus.UtxoOf())
      modifies consensus, store.database
      ensures parents == consensus.parentsAt(old(consensus.calls)) && old(consensus.calls) <= consensus.calls
      ensures store.database.Recoverable(consensus.UtxoOf())
      ensures !err ==>
        old(consensus.calls) < consensus.calls && Marks(consensus.UtxoOf(), store.database.state, parents)
      ensures err <==>
        (AnyFails(store.database.fails, old(store.database.calls), store.database.calls)
        || AnyFails(consensus.Refusals(parents), old(consensus.calls), consensus.calls))
    {
      hide AnyFails, Coherent, WithPairs, Indexes, DistinctOutpoints, VirtualConsensus.UtxoOf,
        VirtualConsensus.Refusals;
      parents := consensus.parentsAt(consensus.calls);
      ghost var fails, start := store.database.fails, store.database.calls;
      ReportsNothing(consensus.Refusals(parents), consensus.calls);
      err := store.DeleteAll(consensus.UtxoOf());
      if err {
        return;
      }
      var virtualParents;
      virtualParents, err := consensus.GetVirtualInfo();
      if err {
        return;
      }
      err := WritePages(virtualParents, old(consensus.calls), start);
      if err {
        return;
      }
      ghost var before := store.database.calls;
      err := store.UpdateAndCommitVirtualParentsWithoutTransaction(virtualParents);
      ReportsThen(err, fails, start, before, store.database.calls);
      if !err {
        ListedMarks(consensus, store.database.state, virtualParents);
      }
    }

    method WritePages(virtualParents: seq<Hash>, ghost asked: nat, ghost start: nat) returns (err: bool)
      requires consensus.Lawful() && store.database.Recoverable(consensus.UtxoOf())
      requires store.database.state == DbState(map[], None)
      requires Reports(false, store.database.fails, start, store.database.calls)
      requires Reports(false, consensus.Refusals(virtualParents), asked, consensus.calls)
      modifies consensus, store.database
      ensures store.database.Recoverable(consensus.UtxoOf())
      ensures !err ==> store.database.state == DbState(WithPairs(map[], consensus.listOf(virtualParents)), None)
      ensures old(consensus.calls) <= consensus.calls && old(store.database.calls) <= store.database.calls
      ensures err <==>
        (AnyFails(store.database.fails, start, store.database.calls)
        || AnyFails(consensus.Refusals(virtualParents), asked, consensus.calls))
    {
      hide WithPairs, Coherent, Position, Page, DistinctOutpoints, AnyFails,
        VirtualConsensus.UtxoOf, VirtualConsensus.Refusals;
      ghost var list := consensus.listOf(virtualParents);
      NoPairs(map[]);
      assert list[..0] == [];
      var from: Option<Outpoint> := None;
      ghost var n := 0;
      while true
        invariant n <= |list| && store.database.Recoverable(consensus.UtxoOf())
        invariant store.database.state == DbState(WithPairs(map[], list[..n]), None)
        invariant from == if n == 0 then None else Some(list[n - 1].0)
        invariant Reports(false, store.database.fails, start, store.database.calls)
        invariant Reports(false, consensus.Refusals(virtualParents), asked, consensus.calls)
        invariant old(consensus.calls) <= consensus.calls && old(store.database.calls) <= store.database.calls
        decreases |list| - n
      {
        NextPage(list, from, n);
        var page;
        ghost var before, written := consensus.calls, store.database.calls;
        page, err := consensus.GetVirtualUTXOs(virtualParents, from, STEP);
        ReportsThen(err, consensus.Refusals(virtualParents), asked, before, consensus.calls);
        if err {
          return;
        }
        err := store.AddAndCommitOutpointsWithoutTransaction(page, consensus.UtxoOf());
        ReportsThen(err, store.database.fails, start, written, store.database.calls);
        if err {
          return;
        }
        WithPairsConcat(map[], list[..n], page);
        assert list[..n] + page == list[..n + |page|];
        n := n + |page|;
        if |page| < STEP {
          assert list[..n] == list;
          return;
        }
        from := Some(page[|page| - 1].0);
      }
    }

    /** Whether the marker names the present virtual parents. Only a failing call is an error. */
    method IsSynced() returns (synced: bool, err: bool, ghost parents: seq<Hash>)
      requires consensus.Lawful() && Coherent(consensus.UtxoOf(), store.database.state)
      modifies consensus, store.database`calls
      ensures parents == consensus.parentsAt(old(consensus.calls)) && old(consensus.calls) <= consensus.calls
      ensures old(store.database.calls) <= store.database.calls
      ensures !err ==> (synced <==> store.database.state.marker == Some(Serialized(parents)))
      ensures !err && synced ==>
        old(consensus.calls) < consensus.calls && Marks(consensus.UtxoOf(), store.database.state, parents)
      ensures !store.IsAnythingStaged() ==>
        (err <==>
        (AnyFails(store.database.fails, old(store.database.calls), store.database.calls)
        || AnyFails(consensus.fails, old(consensus.calls), consensus.calls)))
      ensures store.IsAnythingStaged() ==> err
    {
      hide AnyFails, Indexes, VirtualConsensus.UtxoOf;
      parents := consensus.parentsAt(consensus.calls);
      synced := false;
      ghost var marked: seq<Hash> := [];
      if store.database.state.marker.Some? {
        marked :| Marks(consensus.UtxoOf(), store.database.state, marked);
        MarkerLength(marked);
        HashesRoundTrip(marked, 0);
      }
      ReportsNothing(consensus.fails, consensus.calls);
      var stored;
      stored, err := store.GetVirtualParents();
      if err || stored.None? {
        return;
      }
      var virtualParents;
      virtualParents, err := consensus.GetVirtualInfo();
      if err {
        return;
      }
      synced := virtualParents == stored.value;
      MarkerLength(virtualParents);
      HashesRoundTrip(virtualParents, 0);
    }

    /** The UTXOs of a script. Refused while changes are staged; otherwise only the database can fail. */
    method UTXOs(scriptPublicKey: ScriptPublicKey, ghost v: VirtualSet)
      returns (pairs: map<Outpoint, UTXOEntry>, err: bool)
      requires Follows(v)
      modifies store.database`calls
      ensures store.IsAnythingStaged() ==> err
      ensures !store.IsAnythingStaged() ==>
        Reports(err, store.database.fails, old(store.database.calls), store.database.calls)
      ensures !err ==> pairs == map op | op in v && v[op].scriptPublicKey == scriptPublicKey :: v[op]
    {
      hide FollowsWith, AnyFails;
      pairs, err := store.GetUTXOOutpointEntryPairs(scriptPublicKey);
      if !err {
        assert store.toAdd == map[] && store.toRemove == map[];
        EntriesOfScript(store.database.state.index, v, scriptPublicKey, pairs);
      }
    }
  }

  lemma EntriesOfScript(index: Index, v: VirtualSet, scriptPublicKey: ScriptPublicKey, pairs: map<Outpoint, UTXOEntry>)
    requires FollowsWith(index, Staging(map[], map[]), v)
    requires forall op :: op in pairs <==> Slot(ConvertScriptPublicKeyToString(scriptPublicKey), op) in index
    requires forall op :: op in pairs ==> pairs[op] == index[Slot(ConvertScriptPublicKeyToString(scriptPublicKey), op)]
    ensures pairs == map op | op in v && v[op].scriptPublicKey == scriptPublicKey :: v[op]
  {
    ViewOfNothing(index);
    forall op
      ensures op in pairs <==> op in v && v[op].scriptPublicKey == scriptPublicKey
      ensures op in pairs ==> pairs[op] == v[op]
    {
      ScriptOfSlot(index, v, scriptPublicKey, op);
    }
  }

  lemma ListedMarks(consensus: VirtualConsensus, s: DbState, parents: seq<Hash>)
    requires consensus.Lawful() && Addressable(parents)
    requires s == DbState(WithPairs(map[], consensus.listOf(parents)), Some(Serialized(parents)))
    ensures Marks(consensus.UtxoOf(), s, parents) && Coherent(consensus.UtxoOf(), s)
  {
    WithPairsIndexes(consensus.listOf(parents));
    assert Marks(consensus.UtxoOf(), s, parents);
  }

  /** Starting up on any state that a crash may have left: on success the index holds the UTXO set
      of virtual parents that consensus named during the call, and the marker says so. An error
      means that a call failed or that consensus named other virtual parents meanwhile. */
  method New(consensus: VirtualConsensus, database: Database)
    returns (utxoIndex: UTXOIndex, err: bool, ghost parents: seq<Hash>)
    requires consensus.Lawful() && database.Recoverable(consensus.UtxoOf())
    modifies consensus, database
    ensures utxoIndex.consensus == consensus && utxoIndex.store.database == database
    ensures database.Recoverable(consensus.UtxoOf())
    ensures !err ==> Named(consensus, parents, old(consensus.calls))
    ensures !err ==> Marks(consensus.UtxoOf(), database.state, parents)
    ensures !err ==> utxoIndex.Follows(consensus.UtxoOf()(parents)) && !utxoIndex.store.IsAnythingStaged()
    ensures !err ==> !AnyFails(database.fails, old(database.calls), database.calls)
    ensures !err ==> !AnyFails(consensus.fails, old(consensus.calls), consensus.calls)
    ensures err ==>
      AnyFails(database.fails, old(database.calls), database.calls)
      || AnyFails(consensus.Refusals(parents), old(consensus.calls), consensus.calls)
  {
    hide Marks, Coherent, FollowsWith, VirtualConsensus.UtxoOf;
    utxoIndex := new UTXOIndex(consensus, database);
    var synced;
    synced, err, parents := utxoIndex.IsSynced();
    FailingIsRefused(consensus, parents, old(consensus.calls), consensus.calls);
    if err {
      return;
    }
    if !synced {
      ghost var before := consensus.calls;
      err, parents := utxoIndex.Reset();
      FailingIsRefused(consensus, parents, before, consensus.calls);
      if err {
        return;
      }
    }
    MarksFollows(consensus.UtxoOf(), database.state, parents);
  }

  lemma FailingIsRefused(consensus: VirtualConsensus, parents: seq<Hash>, from: nat, to: nat)
    ensures AnyFails(consensus.fails, from, to) ==> AnyFails(consensus.Refusals(parents), from, to)
  {
    forall n | from <= n < to && consensus.fails(n)
      ensures consensus.Refusals(parents)(n)
    {
    }
  }

  /** Consensus named these virtual parents at one of its calls from number `from` on. */
  ghost predicate Named(consensus: VirtualConsensus, parents: seq<Hash>, from: nat)
    reads consensus
  {
    exists n :: from <= n < consensus.calls && parents == consensus.parentsAt(n)
  }

  lemma MarksFollows(utxoOf: seq<Hash> -> VirtualSet, s: DbState, parents: seq<Hash>)
    requires Marks(utxoOf, s, parents)
    ensures FollowsWith(s.index, Staging(map[], map[]), utxoOf(parents))
  {
    ViewOfNothing(s.index);
  }

  /** A crash leaves the state after some write; starting up on it is as good as on any other. */
  method Restart(consensus: VirtualConsensus, fails: nat -> bool, left: DbState)
    returns (utxoIndex: UTXOIndex, err: bool, ghost parents: seq<Hash>)
    requires consensus.Lawful() && Coherent(consensus.UtxoOf(), left)
    modifies consensus
    ensures !err ==> Named(consensus, parents, old(consensus.calls))
    ensures !err ==> utxoIndex.Follows(consensus.UtxoOf()(parents)) && !utxoIndex.store.IsAnythingStaged()
    ensures utxoIndex.store.database.Recoverable(consensus.UtxoOf())
    ensures err ==>
      AnyFails(fails, 0, utxoIndex.store.database.calls)
      || AnyFails(consensus.Refusals(parents), old(consensus.calls), consensus.calls)
  {
    var database := new Database(fails, left);
    utxoIndex, err, parents := New(consensus, database);
  }

  const STEP := 1000

  lemma NextPage(list: seq<Pair>, from: Option<Outpoint>, n: nat)
    requires DistinctOutpoints(list) && n <= |list|
    requires from == if n == 0 then None else Some(list[n - 1].0)
    ensures from.Some? ==> Position(list, from.value) + 1 == n
    ensures n + |Page(list, n, STEP)| <= |list| && Page(list, n, STEP) == list[n..n + |Page(list, n, STEP)|]
    ensures |Page(list, n, STEP)| < STEP ==> n + |Page(list, n, STEP)| == |list|
  {
  }

  lemma MarkerLength(parents: seq<Hash>)
    requires Addressable(parents)
    ensures |Serialized(parents)| < WORD64 / 2
  {
  }

  lemma CommittedCoherent(utxoOf: seq<Hash> -> VirtualSet, s: DbState, parents: seq<Hash>)
    requires Addressable(parents) && s.marker == Some(Serialized(parents))
    ensures FollowsWith(s.index, Staging(map[], map[]), utxoOf(parents)) ==> Coherent(utxoOf, s)
  {
    ViewOfNothing(s.index);
    if FollowsWith(s.index, Staging(map[], map[]), utxoOf(parents)) {
      assert Marks(utxoOf, s, parents);
    }
  }

  lemma ScriptOfSlot(index: Index, v: VirtualSet, scriptPublicKey: ScriptPublicKey, op: Outpoint)
    requires Indexes(index, v)
    ensures Slot(ConvertScriptPublicKeyToString(scriptPublicKey), op) in index <==>
      op in v && v[op].scriptPublicKey == scriptPublicKey
  {
    var s := Slot(ConvertScriptPublicKeyToString(scriptPublicKey), op);
    if s in index {
      KeyStringInjective(scriptPublicKey, v[op].scriptPublicKey);
    }
  }

  /** The set that the index holds after a change of the set `v`. */
  ghost function Resulting(index: Index, v: VirtualSet, diff: UTXODiff): VirtualSet {
    (v - diff.toRemove.Keys) + Recorded(index, diff.toAdd)
  }

  lemma FollowsFits(index: Index, st: Staging, v: VirtualSet)
    requires FollowsWith(index, st, v)
    ensures Fits(index, st.toAdd, st.toRemove)
  {
  }

  lemma ViewOfNothing(index: Index)
    ensures View(index, map[], map[]) == index
    ensures AddedSlots(map[]) == {} && RemovedSlots(map[]) == {}
  {
    NothingRemoved();
  }

  lemma FollowsCommitted(index: Index, st: Staging, v: VirtualSet)
    requires FollowsWith(index, st, v)
    ensures FollowsWith(View(index, st.toAdd, st.toRemove), Staging(map[], map[]), v)
  {
    ViewOfNothing(View(index, st.toAdd, st.toRemove));
  }

  lemma FollowsExactly(index: Index, stored: Index, st: Staging, v: VirtualSet, diff: UTXODiff)
    requires FollowsWith(stored, st, Resulting(index, v, diff)) && AppliesByScript(v, diff)
    ensures FollowsWith(stored, st, Applied(v, diff)) <==> KeepsEntries(index, diff.toAdd)
  {
    hide Fits, View, Recorded, KeepsEntries;
    RecordedExactly(index, diff.toAdd);
    RecordedOutpoints(index, diff.toAdd);
    if FollowsWith(stored, st, Applied(v, diff)) {
      IndexesOne(View(stored, st.toAdd, st.toRemove), Resulting(index, v, diff), Applied(v, diff));
      forall op | op in diff.toAdd ensures Recorded(index, diff.toAdd)[op] == diff.toAdd[op] {
        assert Resulting(index, v, diff)[op] == Applied(v, diff)[op];
      }
      assert Recorded(index, diff.toAdd) == diff.toAdd;
    }
  }

  ghost predicate FollowsWith(index: Index, st: Staging, v: VirtualSet) {
    Fits(index, st.toAdd, st.toRemove) && Indexes(View(index, st.toAdd, st.toRemove), v)
  }

  lemma RemoveFollows(index: Index, st: Staging, v: VirtualSet, op: Outpoint)
    requires FollowsWith(index, st, v) && op in v
    ensures Removed(st, SlotOf(op, v[op])).Some? && FollowsWith(index, Removed(st, SlotOf(op, v[op])).value, v - {op})
  {
    hide View, Fits, Removed;
    IndexesRemoval(View(index, st.toAdd, st.toRemove), v, op);
    RemovedView(index, st, SlotOf(op, v[op]));
  }

  ghost function RecordedEntry(index: Index, op: Outpoint, entry: UTXOEntry): UTXOEntry {
    if SlotOf(op, entry) in index then index[SlotOf(op, entry)] else entry
  }

  lemma AddFollows(index: Index, st: Staging, v: VirtualSet, op: Outpoint, entry: UTXOEntry)
    requires FollowsWith(index, st, v) && op !in v
    ensures Added(st, SlotOf(op, entry), entry).Some?
    ensures FollowsWith(index, Added(st, SlotOf(op, entry), entry).value, v[op := RecordedEntry(index, op, entry)])
  {
    hide View, Added;
    var s, recorded := SlotOf(op, entry), RecordedEntry(index, op, entry);
    assert SlotOf(op, recorded) == s;
    IndexesAddition(View(index, st.toAdd, st.toRemove), v, op, recorded);
    AddedView(index, st, s, entry);
  }

  lemma RecordedOutpoints(index: Index, toAdd: VirtualSet)
    ensures Recorded(index, toAdd).Keys == toAdd.Keys
  {
  }

  lemma NothingRecorded(index: Index, v: VirtualSet)
    ensures v + Recorded(index, map[]) == v
  {
  }

  lemma RecordedMore(index: Index, v: VirtualSet, toAdd: VirtualSet, remaining: set<Outpoint>, op: Outpoint)
    requires op in remaining && remaining <= toAdd.Keys
    ensures v + Recorded(index, toAdd - (remaining - {op}))
         == (v + Recorded(index, toAdd - remaining))[op := RecordedEntry(index, op, toAdd[op])]
  {
  }
}

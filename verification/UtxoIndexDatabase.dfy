/** The database under the UTXO index: entries by script and outpoint, and the marker of the
    virtual parents they belong to. Single writes and transactions are atomic and may fail;
    a crash leaves the state after any of them. */
module IndexDatabases {
  import opened Failures
  import opened Options
  import opened Transactions
  import opened UtxoIndexCodec

  /** The virtual UTXO set. */
  type VirtualSet = map<Outpoint, UTXOEntry>

  /** A database key: the bucket of a script public key, and an outpoint in it. */
  datatype Slot = Slot(bucket: KeyString, outpoint: Outpoint)

  type Index = map<Slot, UTXOEntry>

  function SlotOf(outpoint: Outpoint, entry: UTXOEntry): Slot {
    Slot(ConvertScriptPublicKeyToString(entry.scriptPublicKey), outpoint)
  }

  /** The index holds the UTXO set, grouped by script, and nothing else. */
  ghost predicate Indexes(index: Index, v: VirtualSet) {
    && (forall op :: op in v ==> SlotOf(op, v[op]) in index && index[SlotOf(op, v[op])] == v[op])
    && (forall s :: s in index ==> s.outpoint in v && SlotOf(s.outpoint, v[s.outpoint]) == s)
  }

  lemma IndexesOne(index: Index, v: VirtualSet, w: VirtualSet)
    requires Indexes(index, v) && Indexes(index, w)
    ensures v == w
  {
    forall op | op in v ensures op in w && w[op] == v[op] {
      assert SlotOf(op, v[op]) in index;
    }
    forall op | op in w ensures op in v {
      assert SlotOf(op, w[op]) in index;
    }
  }

  datatype DbState = DbState(index: Index, marker: Option<seq<Byte>>)

  /** If there is a marker, the index holds the UTXO set of the virtual parents it names. */
  ghost predicate Coherent(utxoOf: seq<Hash> -> VirtualSet, s: DbState) {
    s.marker.Some? ==> exists parents :: Marks(utxoOf, s, parents)
  }

  ghost predicate Marks(utxoOf: seq<Hash> -> VirtualSet, s: DbState, parents: seq<Hash>) {
    Addressable(parents) && s.marker == Some(Serialized(parents)) && Indexes(s.index, utxoOf(parents))
  }

  class Database {
    const fails: nat -> bool
    var calls: nat
    var state: DbState
    /** Every state a crash may have left behind, the present one being the last. */
    ghost var history: seq<DbState>

    /** Whatever state a crash leaves, the index can be trusted or is seen not to be. */
    ghost predicate Recoverable(utxoOf: seq<Hash> -> VirtualSet)
      reads this
    {
      Coherent(utxoOf, state) && forall s :: s in history ==> Coherent(utxoOf, s)
    }

    /** Opening a database after a stop or a crash. */
    constructor (fails: nat -> bool, state: DbState)
      ensures this.fails == fails && this.state == state && history == [state]
    {
      this.fails, calls, this.state, history := fails, 0, state, [state];
    }

    /** A read, which may fail. */
    method Access() returns (err: bool)
      modifies this`calls
      ensures calls == old(calls) + 1 && Reports(err, fails, old(calls), calls)
    {
      ReportsOne(fails, calls);
      err := fails(calls);
      calls := calls + 1;
    }

    method Write(next: DbState) returns (err: bool)
      modifies this
      ensures if err then state == old(state) && history == old(history)
              else state == next && history == old(history) + [next]
      ensures calls == old(calls) + 1 && Reports(err, fails, old(calls), calls)
    {
      err := Access();
      if !err {
        state := next;
        history := history + [next];
      }
    }

    method Put(slot: Slot, entry: UTXOEntry) returns (err: bool)
      modifies this
      ensures if err then state == old(state) && history == old(history)
              else state == old(state.(index := state.index[slot := entry])) && history == old(history) + [state]
      ensures Reports(err, fails, old(calls), calls)
    {
      err := Write(state.(index := state.index[slot := entry]));
    }

    method Delete(slot: Slot) returns (err: bool)
      modifies this
      ensures if err then state == old(state) && history == old(history)
              else state == old(state.(index := state.index - {slot})) && history == old(history) + [state]
      ensures Reports(err, fails, old(calls), calls)
    {
      err := Write(state.(index := state.index - {slot}));
    }

    method PutMarker(bytes: seq<Byte>) returns (err: bool)
      modifies this
      ensures if err then state == old(state) && history == old(history)
              else state == old(state.(marker := Some(bytes))) && history == old(history) + [state]
      ensures Reports(err, fails, old(calls), calls)
    {
      err := Write(state.(marker := Some(bytes)));
    }

    method DeleteMarker() returns (err: bool)
      modifies this
      ensures if err then state == old(state) && history == old(history)
              else state == old(state.(marker := None)) && history == old(history) + [state]
      ensures Reports(err, fails, old(calls), calls)
    {
      err := Write(state.(marker := None));
    }

    method Begin() returns (err: bool, transaction: DbTransaction)
      modifies this`calls
      ensures fresh(transaction) && transaction.database == this && transaction.pending == state
      ensures Reports(err, fails, old(calls), calls)
    {
      err := Access();
      transaction := new DbTransaction(this);
    }
  }

  /** Writes that take effect together, or not at all. */
  class DbTransaction {
    const database: Database
    var pending: DbState

    constructor (database: Database)
      ensures this.database == database && pending == database.state
    {
      this.database, pending := database, database.state;
    }

    method Delete(slot: Slot) returns (err: bool)
      modifies this, database`calls
      ensures !err ==> pending == old(pending.(index := pending.index - {slot}))
      ensures Reports(err, database.fails, old(database.calls), database.calls)
    {
      err := database.Access();
      pending := pending.(index := pending.index - {slot});
    }

    method Put(slot: Slot, entry: UTXOEntry) returns (err: bool)
      modifies this, database`calls
      ensures !err ==> pending == old(pending.(index := pending.index[slot := entry]))
      ensures Reports(err, database.fails, old(database.calls), database.calls)
    {
      err := database.Access();
      pending := pending.(index := pending.index[slot := entry]);
    }

    method PutMarker(bytes: seq<Byte>) returns (err: bool)
      modifies this, database`calls
      ensures !err ==> pending == old(pending.(marker := Some(bytes)))
      ensures Reports(err, database.fails, old(database.calls), database.calls)
    {
      err := database.Access();
      pending := pending.(marker := Some(bytes));
    }

    method Commit() returns (err: bool)
      modifies database
      ensures if err then database.state == old(database.state) && database.history == old(database.history)
              else database.state == pending && database.history == old(database.history) + [pending]
      ensures Reports(err, database.fails, old(database.calls), database.calls)
    {
      err := database.Write(pending);
    }
  }
}

/** mempool_utxoset.go: which mempool transaction spends an outpoint, and the
    outputs that mempool transactions create. */
module MempoolUtxoSets {
  import opened Transactions

  const UNACCEPTED_DAA_SCORE: nat := 0xFFFF_FFFF_FFFF_FFFF

  function PoolEntry(output: TxOutput): UTXOEntry {
    UTXOEntry(output.value, output.scriptPublicKey, UNACCEPTED_DAA_SCORE, false)
  }

  /** The outpoints `tx` spends, mapped to their spender. */
  ghost function Spends(tx: Transaction): map<Outpoint, Transaction> {
    map op | op in tx.inputs :: tx
  }

  /** The outpoints of the first `n` outputs of a transaction. */
  ghost function OutpointsOf(id: TxId, n: nat): (s: set<Outpoint>)
    ensures forall op :: op in s <==> op.txId == id && op.index < n
  {
    set i | 0 <= i < n :: Outpoint(id, i)
  }

  /** The outpoints `tx` creates, mapped to their entries. */
  ghost function Creates(tx: Transaction): map<Outpoint, UTXOEntry> {
    map op | op in OutpointsOf(tx.id, |tx.outputs|) :: PoolEntry(tx.outputs[op.index])
  }

  class MempoolUTXOSet {
    var transactionByPreviousOutpoint: map<Outpoint, Transaction>
    var poolUnspentOutputs: map<Outpoint, UTXOEntry>

    constructor ()
      ensures transactionByPreviousOutpoint == map[] && poolUnspentOutputs == map[]
    {
      transactionByPreviousOutpoint, poolUnspentOutputs := map[], map[];
    }

    /** Gives every input that spends a mempool output its entry, and lists those inputs in order. */
    method PopulateUTXOEntries(tx: Transaction) returns (entries: map<Outpoint, UTXOEntry>,
                               parentsInPool: seq<Outpoint>)
      ensures entries.Keys == set op | op in tx.inputs && op in poolUnspentOutputs
      ensures forall op :: op in entries ==> entries[op] == poolUnspentOutputs[op]
      ensures forall op :: op in parentsInPool <==> op in entries
      ensures Distinct(tx.inputs) ==> Distinct(parentsInPool)
      ensures |parentsInPool| <= |tx.inputs|
    {
      entries, parentsInPool := map[], [];
      for k := 0 to |tx.inputs|
        invariant entries.Keys == set op | op in tx.inputs[..k] && op in poolUnspentOutputs
        invariant forall op :: op in entries ==> entries[op] == poolUnspentOutputs[op]
        invariant forall op :: op in parentsInPool <==> op in entries
        invariant Distinct(tx.inputs) ==> Distinct(parentsInPool)
        invariant |parentsInPool| <= k
      {
        var op := tx.inputs[k];
        assert tx.inputs[..k + 1] == tx.inputs[..k] + [op];
        if op in poolUnspentOutputs {
          entries := entries[op := poolUnspentOutputs[op]];
          parentsInPool := parentsInPool + [op];
        }
      }
      assert tx.inputs[..|tx.inputs|] == tx.inputs;
    }

    /** Whether `tx` double-spends inside the mempool or re-creates a mempool output. */
    predicate CheckExists(tx: Transaction)
      reads this
    {
      || (exists op :: op in tx.inputs && op in transactionByPreviousOutpoint)
      || (exists i :: 0 <= i < |tx.outputs| && Outpoint(tx.id, i) in poolUnspentOutputs)
    }

    ghost predicate InputsUnspent(tx: Transaction)
      reads this
    {
      Distinct(tx.inputs) && forall op :: op in tx.inputs ==> op !in transactionByPreviousOutpoint
    }

    ghost predicate OutputsNew(tx: Transaction)
      reads this
    {
      forall i :: 0 <= i < |tx.outputs| ==> Outpoint(tx.id, i) !in poolUnspentOutputs
    }

    /** The first loop of addTx. */
    method SpendInputs(tx: Transaction) returns (status: Status)
      modifies this`transactionByPreviousOutpoint
      ensures status.Ok? <==> old(InputsUnspent(tx))
      ensures status.Ok? ==> transactionByPreviousOutpoint == old(transactionByPreviousOutpoint) + Spends(tx)
    {
      for k := 0 to |tx.inputs|
        invariant transactionByPreviousOutpoint.Keys
                  == old(transactionByPreviousOutpoint.Keys) + set op | op in tx.inputs[..k]
        invariant forall op :: op in tx.inputs[..k] ==> transactionByPreviousOutpoint[op] == tx
        invariant forall op :: op in old(transactionByPreviousOutpoint) ==>
                    op !in tx.inputs[..k] && transactionByPreviousOutpoint[op] == old(transactionByPreviousOutpoint)[op]
        invariant Distinct(tx.inputs[..k])
      {
        var op := tx.inputs[k];
        assert tx.inputs[..k + 1] == tx.inputs[..k] + [op];
        if op in transactionByPreviousOutpoint {
          assert op in tx.inputs;
          return Err("outpoint is already used");
        }
        transactionByPreviousOutpoint := transactionByPreviousOutpoint[op := tx];
      }
      assert tx.inputs[..|tx.inputs|] == tx.inputs;
      return Ok;
    }

    /** The second loop of addTx. */
    method CreateOutputs(tx: Transaction) returns (status: Status)
      modifies this`poolUnspentOutputs
      ensures status.Ok? <==> old(OutputsNew(tx))
      ensures status.Ok? ==> poolUnspentOutputs == old(poolUnspentOutputs) + Creates(tx)
    {
      for i := 0 to |tx.outputs|
        invariant poolUnspentOutputs.Keys == old(poolUnspentOutputs.Keys) + OutpointsOf(tx.id, i)
        invariant forall op :: op in OutpointsOf(tx.id, i) ==> poolUnspentOutputs[op] == PoolEntry(tx.outputs[op.index])
        invariant forall op :: op in old(poolUnspentOutputs) ==>
                    op !in OutpointsOf(tx.id, i) && poolUnspentOutputs[op] == old(poolUnspentOutputs)[op]
      {
        var outpoint := Outpoint(tx.id, i);
        if outpoint in poolUnspentOutputs {
          return Err("outpoint already exists");
        }
        poolUnspentOutputs := poolUnspentOutputs[outpoint := PoolEntry(tx.outputs[i])];
      }
      return Ok;
    }

    method AddTx(tx: Transaction) returns (status: Status)
      modifies this
      ensures status.Ok? <==> old(InputsUnspent(tx) && OutputsNew(tx))
      ensures status.Ok? <==> Distinct(tx.inputs) && !old(CheckExists(tx))
      ensures status.Ok? ==>
        && transactionByPreviousOutpoint == old(transactionByPreviousOutpoint) + Spends(tx)
        && poolUnspentOutputs == old(poolUnspentOutputs) + Creates(tx)
    {
      status := SpendInputs(tx);
      if status.Ok? {
        status := CreateOutputs(tx);
      }
    }

    ghost predicate InputsSpent(tx: Transaction)
      reads this
    {
      Distinct(tx.inputs) && forall op :: op in tx.inputs ==> op in transactionByPreviousOutpoint
    }

    ghost predicate OutputsExist(tx: Transaction)
      reads this
    {
      forall i :: 0 <= i < |tx.outputs| ==> Outpoint(tx.id, i) in poolUnspentOutputs
    }

    /** The first loop of removeTx. */
    method UnspendInputs(tx: Transaction) returns (status: Status)
      modifies this`transactionByPreviousOutpoint
      ensures status.Ok? <==> old(InputsSpent(tx))
      ensures status.Ok? ==> transactionByPreviousOutpoint == old(transactionByPreviousOutpoint) - Spends(tx).Keys
    {
      for k := 0 to |tx.inputs|
        invariant transactionByPreviousOutpoint
                  == old(transactionByPreviousOutpoint) - set op | op in tx.inputs[..k]
        invariant Distinct(tx.inputs[..k])
        invariant forall op :: op in tx.inputs[..k] ==> op in old(transactionByPreviousOutpoint)
      {
        var op := tx.inputs[k];
        assert tx.inputs[..k + 1] == tx.inputs[..k] + [op];
        if op !in transactionByPreviousOutpoint {
          assert op in tx.inputs;
          return Err("outpoint doesn't exist");
        }
        transactionByPreviousOutpoint := transactionByPreviousOutpoint - {op};
      }
      assert tx.inputs[..|tx.inputs|] == tx.inputs;
      return Ok;
    }

    /** The second loop of removeTx. */
    method DropOutputs(tx: Transaction) returns (status: Status)
      modifies this`poolUnspentOutputs
      ensures status.Ok? <==> old(OutputsExist(tx))
      ensures status.Ok? ==> poolUnspentOutputs == old(poolUnspentOutputs) - Creates(tx).Keys
    {
      for i := 0 to |tx.outputs|
        invariant poolUnspentOutputs == old(poolUnspentOutputs) - OutpointsOf(tx.id, i)
        invariant OutpointsOf(tx.id, i) <= old(poolUnspentOutputs.Keys)
      {
        var outpoint := Outpoint(tx.id, i);
        if outpoint !in poolUnspentOutputs {
          return Err("outpoint doesn't exist");
        }
        poolUnspentOutputs := poolUnspentOutputs - {outpoint};
      }
      return Ok;
    }

    method RemoveTx(tx: Transaction) returns (status: Status)
      modifies this
      ensures status.Ok? <==> old(InputsSpent(tx) && OutputsExist(tx))
      ensures status.Ok? ==>
        && transactionByPreviousOutpoint == old(transactionByPreviousOutpoint) - Spends(tx).Keys
        && poolUnspentOutputs == old(poolUnspentOutputs) - Creates(tx).Keys
    {
      status := UnspendInputs(tx);
      if status.Ok? {
        status := DropOutputs(tx);
      }
    }
  }
}

/** Transactions, outpoints and the redeeming relation between transactions. */
module Transactions {

  /** A 256-bit hash read as a number; the byte-wise order of hashes is `<=`. */
  type TxId = nat

  datatype Outpoint = Outpoint(txId: TxId, index: nat)

  type Byte = x: nat | x < 256

  type Word16 = x: nat | x < 0x1_0000

  datatype ScriptPublicKey = ScriptPublicKey(script: seq<Byte>, version: Word16)

  datatype TxOutput = TxOutput(value: nat, scriptPublicKey: ScriptPublicKey)

  /** What is known of an output that is not spent. */
  datatype UTXOEntry = UTXOEntry(amount: nat, scriptPublicKey: ScriptPublicKey, blockDAAScore: nat, isCoinbase: bool)

  /** `fee` and `mass` are 0 until consensus validation populates them. */
  datatype Transaction =
    Transaction(id: TxId, inputs: seq<Outpoint>, outputs: seq<TxOutput>, fee: nat, mass: nat)

  /** The hash function, idealised: every ID names one transaction (`txOf`, with
      the fee and mass that validation computes), and a transaction can only spend
      outputs of transactions hashed before it (`rank`). */
  datatype Hashing = Hashing(txOf: TxId -> Transaction, rank: TxId -> nat)
  {
    /** `tx` is what its ID was hashed from; fee and mass are not hashed. */
    ghost predicate Hashed(tx: Transaction) {
      && txOf(tx.id).(fee := tx.fee, mass := tx.mass) == tx
      && forall op :: op in tx.inputs ==> rank(op.txId) < rank(tx.id)
    }

    ghost predicate Populated(tx: Transaction) {
      Hashed(tx) && txOf(tx.id) == tx
    }
  }

  ghost predicate Distinct<T(!new)>(s: seq<T>) {
    forall i, j :: 0 <= i < j < |s| ==> s[i] != s[j]
  }

  /** `b` spends one of the outputs of `a`. */
  ghost predicate Redeems(txs: map<TxId, Transaction>, a: TxId, b: TxId) {
    a in txs && b in txs && exists i :: 0 <= i < |txs[a].outputs| && Outpoint(a, i) in txs[b].inputs
  }

  ghost function RedeemEdges(txs: map<TxId, Transaction>): (TxId, TxId) -> bool {
    (a: TxId, b: TxId) => Redeems(txs, a, b)
  }

  ghost function Inputs(tx: Transaction): set<Outpoint> {
    set op | op in tx.inputs
  }

  /** The outpoints that any of `txs` spends. */
  ghost function InputsOf(txs: seq<Transaction>): set<Outpoint> {
    if txs == [] then {}
    else InputsOf(txs[..|txs| - 1]) + Inputs(txs[|txs| - 1])
  }

  lemma InputsOfNext(txs: seq<Transaction>, k: nat)
    requires k < |txs|
    ensures InputsOf(txs[..k + 1]) == InputsOf(txs[..k]) + Inputs(txs[k])
  {
    assert txs[..k + 1][..k] == txs[..k];
  }

  lemma InputsOfAll(txs: seq<Transaction>)
    ensures InputsOf(txs[..|txs|]) == InputsOf(txs) && InputsOf(txs[..0]) == {}
  {
    assert txs[..|txs|] == txs;
  }

  lemma InputsOfFirst(tx: Transaction, rest: seq<Transaction>)
    ensures Inputs(tx) <= InputsOf([tx] + rest)
  {
    InputsOfConcat([tx], rest);
    assert InputsOf([tx]) == Inputs(tx);
  }

  lemma InputsOfConcat(a: seq<Transaction>, b: seq<Transaction>)
    ensures InputsOf(a + b) == InputsOf(a) + InputsOf(b)
  {
    if b == [] {
      assert a + b == a;
    } else {
      InputsOfConcat(a, b[..|b| - 1]);
      assert (a + b)[..|a + b| - 1] == a + b[..|b| - 1];
    }
  }

  datatype Status = Ok | Err(reason: string)
}

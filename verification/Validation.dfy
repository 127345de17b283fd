/** Consensus validation and relay policy as the mempool sees them. Consensus is an
    oracle that may answer anything lawful at every call. */
module Validation {
  import opened MempoolUtxoSets
  import opened Powers
  import opened Transactions

  const MAX_SOMPI: nat := 21_000_000 * 100_000_000

  datatype Verdict =
    | Accepted(fee: nat, mass: nat)
    | MissingOutpoints(outpoints: seq<Outpoint>)
    | ImmatureSpend
    | RuleViolation
    | InternalFailure

  /** An accepted transaction has no duplicate inputs and gets the fee and mass its
      content determines, the mass being positive; a missing outpoint is named. */
  ghost predicate LawfulVerdict(h: Hashing, tx: Transaction, v: Verdict) {
    && (v.Accepted? ==> Distinct(tx.inputs) && v.mass > 0 && h.Populated(tx.(fee := v.fee, mass := v.mass)))
    && (v.MissingOutpoints? ==> v.outpoints != [])
  }

  class Consensus {
    const answers: (nat, Transaction, map<Outpoint, UTXOEntry>) -> Verdict
    var calls: nat
    /** The transactions accepted so far. */
    ghost var accepted: seq<Transaction>
    /** How many answers were internal failures. */
    ghost var failures: nat

    ghost predicate Lawful(h: Hashing) {
      forall n, tx, entries :: h.Hashed(tx) ==> LawfulVerdict(h, tx, answers(n, tx, entries))
    }

    constructor (answers: (nat, Transaction, map<Outpoint, UTXOEntry>) -> Verdict)
      ensures this.answers == answers && calls == 0 && accepted == []
    {
      this.answers := answers;
      calls, accepted, failures := 0, [], 0;
    }

    method Validate(tx: Transaction, entries: map<Outpoint, UTXOEntry>) returns (v: Verdict)
      modifies this
      ensures v == answers(old(calls), tx, entries) && calls == old(calls) + 1
      ensures accepted == if v.Accepted? then old(accepted) + [tx] else old(accepted)
      ensures failures == if v.InternalFailure? then old(failures) + 1 else old(failures)
    {
      v := answers(calls, tx, entries);
      failures := if v.InternalFailure? then failures + 1 else failures;
      calls := calls + 1;
      if v.Accepted? {
        accepted := accepted + [tx];
      }
    }
  }

  /** The outpoints spent by transactions accepted after the first `n`. */
  ghost function SpentSince(accepted: seq<Transaction>, n: nat): set<Outpoint> {
    set i, op | n <= i < |accepted| && op in accepted[i].inputs :: op
  }

  lemma SpentSinceGrows(before: seq<Transaction>, after: seq<Transaction>, n: nat)
    requires before <= after
    ensures SpentSince(before, n) <= SpentSince(after, n)
  {
    forall op | op in SpentSince(before, n) ensures op in SpentSince(after, n) {
      var i :| n <= i < |before| && op in before[i].inputs;
      assert op in after[i].inputs;
    }
  }

  lemma SpentSinceLonger(accepted: seq<Transaction>, n: nat, m: nat)
    requires n <= m
    ensures SpentSince(accepted, m) <= SpentSince(accepted, n)
  {
  }

  lemma SpentSinceLast(before: seq<Transaction>, tx: Transaction, n: nat)
    requires n <= |before|
    ensures Inputs(tx) <= SpentSince(before + [tx], n)
  {
    var after := before + [tx];
    forall op | op in tx.inputs ensures op in SpentSince(after, n) {
      assert op in after[|before|].inputs;
    }
  }

  datatype Policy = Policy(
    acceptNonStd: bool,
    maxOrphanTxSize: nat,
    minRelayTxFee: Word64,
    maxMassAcceptedByBlock: nat,
    serializedSize: Transaction -> nat,
    isStandard: Transaction -> bool,
    hasStandardInputs: Transaction -> bool)

  /** The checks made on the populated transaction. */
  predicate PassesPolicy(policy: Policy, tx: Transaction) {
    && tx.mass <= policy.maxMassAcceptedByBlock
    && (policy.acceptNonStd || policy.hasStandardInputs(tx))
    && tx.fee >= MinRequiredTxRelayFee(policy.serializedSize(tx), policy.minRelayTxFee)
  }

  /** The transaction is too heavy for a block, spends non-standard outputs that are not accepted, or
      pays less than its size requires. */
  ghost predicate OutOfBounds(policy: Policy, tx: Transaction) {
    || tx.mass > policy.maxMassAcceptedByBlock
    || (!policy.acceptNonStd && !policy.hasStandardInputs(tx))
    || tx.fee < MinRequiredTxRelayFee(policy.serializedSize(tx), policy.minRelayTxFee)
  }

  /** No transaction is out of bounds. */
  ghost predicate WithinBounds(policy: Policy, txs: map<TxId, Transaction>) {
    forall id :: id in txs ==> !OutOfBounds(policy, txs[id])
  }

  /** What remains of a number in a signed integer of 64 bits. */
  function Signed64(x: int): int {
    (x + WORD64 / 2) % WORD64 - WORD64 / 2
  }

  /** Division that rounds towards zero. */
  function Quotient(x: int, d: nat): int
    requires d > 0
  {
    if x >= 0 then x / d else -(-x / d)
  }

  /** calcMinRequiredTxRelayFee: the fee for the size in signed integers of 64 bits, never zero while
      the relay fee is not. */
  function MinRequiredTxRelayFee(size: nat, minRelayTxFee: Word64): (fee: nat)
    ensures fee <= MAX_SOMPI && (fee == 0 <==> minRelayTxFee == 0)
  {
    var scaled := Quotient(Signed64(size * minRelayTxFee), 1000);
    var minFee := if scaled == 0 && minRelayTxFee > 0 then Signed64(minRelayTxFee) else scaled;
    if minFee < 0 || minFee > MAX_SOMPI then MAX_SOMPI else minFee
  }

  /** The relay fee for every thousand bytes, the relay fee itself where that is nothing, and at most
      the maximum amount. */
  function RelayFeeOf(size: nat, minRelayTxFee: nat): nat {
    var scaled := size * minRelayTxFee / 1000;
    var fee := if scaled == 0 then minRelayTxFee else scaled;
    if fee > MAX_SOMPI then MAX_SOMPI else fee
  }

  lemma SignedFits(x: nat)
    ensures x < WORD64 / 2 ==> Signed64(x) == x
    ensures WORD64 / 2 <= x < WORD64 ==> Signed64(x) < 0
  {
  }

  /** The required fee is the relay fee for the size, for every size whose product with the relay fee
      stays within 63 bits. */
  lemma RelayFeeExact(size: nat, minRelayTxFee: Word64)
    requires size * minRelayTxFee < WORD64 / 2
    ensures MinRequiredTxRelayFee(size, minRelayTxFee) == RelayFeeOf(size, minRelayTxFee)
  {
    SignedFits(size * minRelayTxFee);
    SignedFits(minRelayTxFee);
  }

  /** What the required fee is for every size, where `product` is what 64 bits keep of the product as a
      signed number: nothing but the relay fee if it stays below a thousand either way, the maximum if it
      is negative otherwise. */
  lemma RelayFeeWrapped(size: nat, minRelayTxFee: Word64, product: int)
    requires -0x8000_0000_0000_0000 <= product < 0x8000_0000_0000_0000
    requires (size * minRelayTxFee - product) % 0x1_0000_0000_0000_0000 == 0
    ensures MinRequiredTxRelayFee(size, minRelayTxFee)
         == if -1000 < product < 1000 then AtMostAll(minRelayTxFee)
            else if product < 0 then 2_100_000_000_000_000
            else AtMostAll(product / 1000)
  {
    SignedIs(size * minRelayTxFee, product);
    SignedFits(minRelayTxFee);
  }

  lemma SignedIs(x: int, y: int)
    requires -0x8000_0000_0000_0000 <= y < 0x8000_0000_0000_0000 && (x - y) % 0x1_0000_0000_0000_0000 == 0
    ensures Signed64(x) == y
  {
    var k := (x - y) / WORD64;
    assert x + WORD64 / 2 == k * WORD64 + (y + WORD64 / 2);
  }

  /** At most the 21 million coins of 100 million sompi each. */
  ghost function AtMostAll(amount: nat): nat {
    if amount <= 2_100_000_000_000_000 then amount else 2_100_000_000_000_000
  }

  /** The relay fee that the mempool is made with. */
  const DEFAULT_MIN_RELAY_TX_FEE: Word64 := 1000

  /** With that fee, up to a size of 2^63 / 1000 bytes the required fee is one sompi for each byte, up to
      the maximum amount. */
  lemma OneSompiPerByte(size: nat)
    requires 0 < size <= (WORD64 / 2 - 1) / 1000
    ensures MinRequiredTxRelayFee(size, DEFAULT_MIN_RELAY_TX_FEE) == if size <= MAX_SOMPI then size else MAX_SOMPI
  {
    RelayFeeExact(size, DEFAULT_MIN_RELAY_TX_FEE);
    assert size * 1000 / 1000 == size;
  }
}

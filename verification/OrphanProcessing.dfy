/** mempool.go, what becomes of the orphans when a transaction is accepted: the steps of
    processOrphans and handleNewBlockTransactions, as relations between the transactions and the
    orphans of the mempool before and after. */
module OrphanProcessing {
  import opened FeeRateIndices
  import opened MempoolInvariant
  import opened MempoolUtxoSets
  import opened OrphanPools
  import opened Reachability
  import opened Redeemers
  import opened Transactions
  import opened TxChains
  import opened Validation

  const TRANSACTION_LIMIT := 1_000_000

  /** What maybeAcceptTransaction returns: the missing outpoints, the accepted transaction,
      a rule error, or any other error. */
  datatype AcceptResult =
    | Missing(outpoints: seq<Outpoint>)
    | Added(tx: Transaction)
    | Rejected
    | Failed

  /** What decides about transactions: consensus by the number of the call, the policy, the fee rate. */
  datatype Rules = Rules(
    answers: (nat, Transaction, map<Outpoint, UTXOEntry>) -> Verdict,
    policy: Policy,
    feeRate: (nat, nat) -> real)

  /** The transactions, the orphans, and how often consensus was asked and how often it failed. */
  datatype Situation = Situation(txs: map<TxId, Transaction>, orphans: map<TxId, OrphanTx>, calls: nat, failures: nat)

  // ----- the limit -----

  /** `least` has the least fee rate of `all`. */
  ghost predicate IsLeast(feeRate: (nat, nat) -> real, all: map<TxId, Transaction>, least: TxId) {
    && least in all
    && forall x :: x in all && x != least ==>
      var rate, other := feeRate(all[least].fee, all[least].mass), feeRate(all[x].fee, all[x].mass);
      rate < other || (rate == other && all[least].id < all[x].id)
  }

  /** The mempool `all`, cut down to the limit by dropping the transaction of least fee rate with its
      redeemers. */
  ghost predicate WithinLimit(feeRate: (nat, nat) -> real, all: map<TxId, Transaction>, kept: map<TxId, Transaction>) {
    if |all| <= 1_000_000 then kept == all
    else exists least :: IsLeast(feeRate, all, least) && IsWithoutClosure(all, least, kept)
  }

  lemma WithinLimitShrinks(feeRate: (nat, nat) -> real, all: map<TxId, Transaction>, kept: map<TxId, Transaction>)
    requires WithinLimit(feeRate, all, kept)
    ensures SubMap(kept, all) && (|all| <= TRANSACTION_LIMIT ==> kept == all)
  {
  }

  // ----- the decision about one transaction -----

  /** The entries of the mempool outputs that `tx` spends. */
  ghost function EntriesFor(txs: map<TxId, Transaction>, tx: Transaction): map<Outpoint, UTXOEntry> {
    map op | op in tx.inputs && op.txId in txs && op.index < |txs[op.txId].outputs| ::
      var output := txs[op.txId].outputs[op.index];
      UTXOEntry(output.value, output.scriptPublicKey, 0xFFFF_FFFF_FFFF_FFFF, false)
  }

  ghost predicate IsSpent(txs: map<TxId, Transaction>, op: Outpoint) {
    exists id :: id in txs && op in txs[id].inputs
  }

  /** The checks made before consensus is asked: not there yet, standard where that is asked for, and
      no input spent by a mempool transaction. */
  ghost predicate Admissible(policy: Policy, txs: map<TxId, Transaction>, tx: Transaction) {
    && tx.id !in txs
    && (policy.acceptNonStd || policy.isStandard(tx))
    && forall op :: op in tx.inputs ==> !IsSpent(txs, op)
  }

  /** What is decided about `tx` when consensus is asked for the `n`-th time. */
  ghost function Decision(rules: Rules, txs: map<TxId, Transaction>, n: nat, tx: Transaction): AcceptResult {
    if !Admissible(rules.policy, txs, tx) then Rejected
    else Concluded(rules.policy, tx, rules.answers(n, tx, EntriesFor(txs, tx)))
  }

  ghost function Concluded(policy: Policy, tx: Transaction, v: Verdict): AcceptResult {
    match v
    case Accepted(fee, mass) =>
      var populated := tx.(fee := fee, mass := mass);
      if PassesPolicy(policy, populated) then Added(populated) else Rejected
    case MissingOutpoints(outpoints) => Missing(outpoints)
    case ImmatureSpend => Rejected
    case RuleViolation => Rejected
    case InternalFailure => Failed
  }

  /** A transaction that consensus accepts is added if and only if it is within bounds. */
  lemma AddedWithinBounds(policy: Policy, tx: Transaction, v: Verdict)
    requires v.Accepted?
    ensures Concluded(policy, tx, v)
         == if OutOfBounds(policy, tx.(fee := v.fee, mass := v.mass)) then Rejected
            else Added(tx.(fee := v.fee, mass := v.mass))
  {
  }

  lemma BoundsKept(policy: Policy, txs: map<TxId, Transaction>, all: map<TxId, Transaction>)
    requires SubMap(txs, all) && WithinBounds(policy, all)
    ensures WithinBounds(policy, txs)
  {
    hide OutOfBounds;
  }

  /** Whatever is added, what is kept of the mempool is within bounds. */
  lemma BoundsAfterEntry(rules: Rules, before: map<TxId, Transaction>, tx: Transaction, v: Verdict,
                         after: map<TxId, Transaction>)
    requires WithinBounds(rules.policy, before) && Concluded(rules.policy, tx, v).Added?
    requires WithinLimit(rules.feeRate, before[tx.id := Concluded(rules.policy, tx, v).tx], after)
    ensures WithinBounds(rules.policy, after)
  {
    hide OutOfBounds, WithinLimit;
    AddedWithinBounds(rules.policy, tx, v);
    WithinLimitShrinks(rules.feeRate, before[tx.id := Concluded(rules.policy, tx, v).tx], after);
    BoundsKept(rules.policy, after, before[tx.id := Concluded(rules.policy, tx, v).tx]);
  }

  /** The index of the spent outpoints tells what is spent. */
  lemma SpentByIndex(txs: map<TxId, Transaction>, spentBy: map<Outpoint, Transaction>, tx: Transaction)
    requires SpendsExact(txs, spentBy)
    ensures (forall op :: op in tx.inputs ==> op !in spentBy) <==> (forall op :: op in tx.inputs ==> !IsSpent(txs, op))
  {
    forall op | op in tx.inputs ensures op in spentBy <==> IsSpent(txs, op) {
    }
  }

  /** The index of the outputs tells which entries are filled in. */
  lemma EntriesByIndex(txs: map<TxId, Transaction>, unspent: map<Outpoint, UTXOEntry>, tx: Transaction)
    requires OutputsExact(txs, unspent)
    ensures EntriesFor(txs, tx) == map op | op in tx.inputs && op in unspent :: unspent[op]
  {
  }

  ghost function Asked(s: Situation, n: nat): Situation {
    s.(calls := s.calls + n)
  }

  /** An orphan is decided about: it enters the mempool and leaves the orphans, leaves them with its
      redeemers as invalid, or stays. */
  ghost predicate IsAttempt(rules: Rules, before: Situation, tx: Transaction, r: AcceptResult, after: Situation) {
    && r == Decision(rules, before.txs, before.calls, tx)
    && after.calls == before.calls + (if Admissible(rules.policy, before.txs, tx) then 1 else 0)
    && after.failures == before.failures + (if r.Failed? then 1 else 0)
    && match r
       case Added(populated) =>
         && WithinLimit(rules.feeRate, before.txs[tx.id := populated], after.txs)
         && after.orphans == before.orphans - {tx.id}
       case Rejected =>
         && after.txs == before.txs
         && SubMap(after.orphans, before.orphans)
         && IsWithoutClosure(TxsOf(before.orphans), tx.id, TxsOf(after.orphans))
       case Missing(_) => after.txs == before.txs && after.orphans == before.orphans
       case Failed => after.txs == before.txs && after.orphans == before.orphans
  }

  // ----- the orphans that redeem one output -----

  /** The orphans that spend an outpoint. */
  ghost function WaitingFor(orphans: map<TxId, OrphanTx>, op: Outpoint): set<TxId> {
    set id | id in orphans && op in orphans[id].tx.inputs
  }

  /** The orphan that a look settles, and how. */
  datatype Outcome = Nobody | Somebody(id: TxId, r: AcceptResult)

  /** A look at the orphans that redeem `prevOut`: those in `missed` still miss something, and then one
      is settled, if any. */
  datatype Look = Look(prevOut: Outpoint, before: Situation, missed: set<TxId>, outcome: Outcome, after: Situation)

  ghost predicate StillMisses(rules: Rules, before: Situation, id: TxId, asked: nat) {
    && id in before.orphans
    && var tx := before.orphans[id].tx;
       exists n :: before.calls <= n < before.calls + asked && Decision(rules, before.txs, n, tx).Missing?
  }

  ghost predicate IsLook(rules: Rules, look: Look) {
    var waiting := WaitingFor(look.before.orphans, look.prevOut);
    && look.missed <= waiting
    && (forall id :: id in look.missed ==> StillMisses(rules, look.before, id, |look.missed|))
    && match look.outcome
       case Nobody => look.missed == waiting && look.after == Asked(look.before, |look.missed|)
       case Somebody(id, r) =>
         && id in waiting && id !in look.missed && !r.Missing?
         && IsAttempt(rules, Asked(look.before, |look.missed|), look.before.orphans[id].tx, r, look.after)
  }

  /** One more orphan that still misses something. */
  lemma MissesMore(rules: Rules, before: Situation, missed: set<TxId>, id: TxId)
    requires forall x :: x in missed ==> StillMisses(rules, before, x, |missed|)
    requires id in before.orphans && id !in missed
    requires Decision(rules, before.txs, before.calls + |missed|, before.orphans[id].tx).Missing?
    ensures forall x :: x in missed + {id} ==> StillMisses(rules, before, x, |missed + {id}|)
  {
    hide Decision;
    forall x | x in missed + {id} ensures StillMisses(rules, before, x, |missed + {id}|) {
      if x in missed {
        var n :| before.calls <= n < before.calls + |missed|
          && Decision(rules, before.txs, n, before.orphans[x].tx).Missing?;
      }
    }
  }

  ghost function AcceptedBy(look: Look): seq<Transaction> {
    if look.outcome.Somebody? then AddedTxs(look.outcome.r) else []
  }

  ghost predicate Fails(look: Look) {
    look.outcome.Somebody? && look.outcome.r.Failed?
  }

  // ----- who is passed over -----

  /** Consensus answers a question the same way whenever it is asked. */
  ghost predicate Steady(rules: Rules) {
    forall n, m, tx, entries :: rules.answers(n, tx, entries) == rules.answers(m, tx, entries)
  }

  ghost function Decided(rules: Rules, s: Situation, id: TxId): AcceptResult
    requires id in s.orphans
  {
    Decision(rules, s.txs, s.calls, s.orphans[id].tx)
  }

  ghost predicate IsAccepted(look: Look, o: TxId) {
    look.outcome.Somebody? && look.outcome.id == o && look.outcome.r.Added? && o !in look.after.orphans
  }

  /** A look at the orphans of an output in a situation. */
  ghost predicate Looks(rules: Rules, before: Situation, prevOut: Outpoint, look: Look) {
    IsLook(rules, look) && look.before == before && look.prevOut == prevOut
  }

  /** Every other orphan that redeems the output still misses something. */
  ghost predicate OthersMiss(rules: Rules, before: Situation, prevOut: Outpoint, o: TxId) {
    forall x :: x in WaitingFor(before.orphans, prevOut) && x != o ==> Decided(rules, before, x).Missing?
  }

  lemma SteadyDecision(rules: Rules, txs: map<TxId, Transaction>, n: nat, m: nat, tx: Transaction)
    requires Steady(rules)
    ensures Decision(rules, txs, n, tx) == Decision(rules, txs, m, tx)
  {
    hide Concluded, Admissible, EntriesFor;
  }

  /** A look settles nobody but an orphan that does not miss anything, and passes over nobody else. */
  lemma SettledDecides(rules: Rules, look: Look, o: TxId)
    requires IsLook(rules, look) && Steady(rules) && Named(look.before.orphans)
    requires o in WaitingFor(look.before.orphans, look.prevOut) && !Decided(rules, look.before, o).Missing?
    ensures look.outcome.Somebody? && look.outcome.id in WaitingFor(look.before.orphans, look.prevOut)
    ensures look.outcome.r == Decided(rules, look.before, look.outcome.id) && !look.outcome.r.Missing?
    ensures look.outcome.r.Added? ==> look.outcome.id !in look.after.orphans
  {
    hide Decision, Admissible, WithinLimit, IsWithoutClosure;
    forall x, n | x in look.before.orphans
      ensures Decision(rules, look.before.txs, n, look.before.orphans[x].tx) == Decided(rules, look.before, x)
    {
      SteadyDecision(rules, look.before.txs, n, look.before.calls, look.before.orphans[x].tx);
    }
  }

  lemma RatedTransitive(feeRate: (nat, nat) -> real, a: Transaction, b: Transaction, c: Transaction)
    requires RatedLess(feeRate, a, b) && RatedLess(feeRate, b, c)
    ensures RatedLess(feeRate, a, c)
  {
  }

  /** Of transactions with different IDs, one has the least fee rate. */
  lemma {:induction false} LeastExists(feeRate: (nat, nat) -> real, all: map<TxId, Transaction>)
    requires all != map[] && forall id :: id in all ==> all[id].id == id
    ensures exists least :: IsLeast(feeRate, all, least)
    decreases |all|
  {
    hide RatedLess;
    var x :| x in all;
    var rest := all - {x};
    assert rest.Keys == all.Keys - {x};
    if rest == map[] {
      forall y | y in all ensures y == x {
        assert y !in rest;
      }
      assert IsLeast(feeRate, all, x);
    } else {
      LeastExists(feeRate, rest);
      var least :| IsLeast(feeRate, rest, least);
      LeastOfMore(feeRate, all, x, least);
    }
  }

  lemma LeastOfMore(feeRate: (nat, nat) -> real, all: map<TxId, Transaction>, x: TxId, least: TxId)
    requires x in all && IsLeast(feeRate, all - {x}, least) && forall id :: id in all ==> all[id].id == id
    ensures exists y :: IsLeast(feeRate, all, y)
  {
    var rest := all - {x};
    assert forall y :: y in rest <==> y in all && y != x;
    RatedTotal(feeRate, all[x], all[least]);
    if RatedLess(feeRate, all[x], all[least]) {
      forall y | y in all && y != x ensures RatedLess(feeRate, all[x], all[y]) {
        assert y in rest;
        if y != least {
          RatedTransitive(feeRate, all[x], all[least], all[y]);
        }
      }
      assert IsLeast(feeRate, all, x);
    } else {
      forall y | y in all && y != least ensures RatedLess(feeRate, all[least], all[y]) {
        assert y == x || y in rest;
      }
      assert IsLeast(feeRate, all, least);
    }
  }

  lemma RatedTotal(feeRate: (nat, nat) -> real, a: Transaction, b: Transaction)
    requires a.id != b.id
    ensures RatedLess(feeRate, a, b) || RatedLess(feeRate, b, a)
  {
  }

  /** What a root and its redeemers leave. */
  ghost function Unreached(txs: map<TxId, Transaction>, root: TxId): map<TxId, Transaction> {
    map id | id in txs && !Reaches(RedeemEdges(txs), root, id) :: txs[id]
  }

  lemma LimitExists(feeRate: (nat, nat) -> real, all: map<TxId, Transaction>)
    requires forall id :: id in all ==> all[id].id == id
    ensures exists kept :: WithinLimit(feeRate, all, kept)
  {
    if |all| <= TRANSACTION_LIMIT {
      assert WithinLimit(feeRate, all, all);
    } else {
      LeastExists(feeRate, all);
      var least :| IsLeast(feeRate, all, least);
      assert IsWithoutClosure(all, least, Unreached(all, least));
      assert WithinLimit(feeRate, all, Unreached(all, least));
    }
  }

  /** Whatever is decided about an orphan can happen to it. */
  lemma AttemptExists(rules: Rules, before: Situation, x: TxId) returns (after: Situation)
    requires Named(before.orphans) && x in before.orphans && forall id :: id in before.txs ==> before.txs[id].id == id
    ensures IsAttempt(rules, before, before.orphans[x].tx, Decided(rules, before, x), after)
    ensures forall id :: id in after.txs ==> id in before.txs || id == x
  {
    hide Concluded, Admissible, EntriesFor, WithinLimit;
    var tx, r := before.orphans[x].tx, Decided(rules, before, x);
    after := before.(calls := before.calls + (if Admissible(rules.policy, before.txs, tx) then 1 else 0),
                     failures := before.failures + (if r.Failed? then 1 else 0));
    match r {
      case Added(populated) =>
        DecisionAdds(rules, before.txs, before.calls, tx);
        LimitExists(rules.feeRate, before.txs[x := populated]);
        var kept :| WithinLimit(rules.feeRate, before.txs[x := populated], kept);
        WithinLimitShrinks(rules.feeRate, before.txs[x := populated], kept);
        after := after.(txs := kept, orphans := before.orphans - {x});
      case Rejected =>
        var left := map id | id in before.orphans && !Reaches(RedeemEdges(TxsOf(before.orphans)), x, id) ::
          before.orphans[id];
        assert IsWithoutClosure(TxsOf(before.orphans), x, TxsOf(left));
        after := after.(orphans := left);
      case Missing(_) =>
      case Failed =>
    }
  }

  lemma DecisionAdds(rules: Rules, txs: map<TxId, Transaction>, n: nat, tx: Transaction)
    requires Decision(rules, txs, n, tx).Added?
    ensures Decision(rules, txs, n, tx).tx.id == tx.id && tx.id !in txs
  {
  }

  /** An orphan that does not miss anything may be tried first, and then the look passes over all others. */
  lemma PassedOver(rules: Rules, before: Situation, prevOut: Outpoint, x: TxId, o: TxId)
    requires Named(before.orphans) && forall id :: id in before.txs ==> before.txs[id].id == id
    requires x in WaitingFor(before.orphans, prevOut) && !Decided(rules, before, x).Missing?
    requires o != x && o !in before.txs
    ensures exists look :: Looks(rules, before, prevOut, look)
                           && look.outcome == Somebody(x, Decided(rules, before, x)) && o !in look.after.txs
  {
    hide IsAttempt;
    var after := AttemptExists(rules, before, x);
    assert Asked(before, 0) == before;
    var look := Look(prevOut, before, {}, Somebody(x, Decided(rules, before, x)), after);
    assert IsLook(rules, look);
  }

  /** An orphan that would be accepted when its output is looked up is accepted by every look, if and only
      if every other orphan that redeems the output still misses something. */
  lemma AcceptedExactly(rules: Rules, before: Situation, prevOut: Outpoint, o: TxId)
    requires Steady(rules) && Named(before.orphans) && forall id :: id in before.txs ==> before.txs[id].id == id
    requires o in WaitingFor(before.orphans, prevOut) && Decided(rules, before, o).Added?
    ensures (forall look :: Looks(rules, before, prevOut, look) ==> IsAccepted(look, o)) <==>
      OthersMiss(rules, before, prevOut, o)
  {
    hide IsLook, Decided;
    if OthersMiss(rules, before, prevOut, o) {
      forall look | Looks(rules, before, prevOut, look) ensures IsAccepted(look, o) {
        SettledDecides(rules, look, o);
      }
    } else {
      var x :| x in WaitingFor(before.orphans, prevOut) && x != o && !Decided(rules, before, x).Missing?;
      OrphanOutside(rules, before, o);
      PassedOver(rules, before, prevOut, x, o);
    }
  }

  // An orphan that breaks a rule and one that would be accepted, for one output.

  ghost const EXAMPLE_RULES := Rules(
    (n: nat, tx: Transaction, entries: map<Outpoint, UTXOEntry>) =>
      if tx.id == 1 then RuleViolation else Accepted(1, 1),
    Policy(true, 100, 0, 100, tx => 1, tx => true, tx => true),
    (fee: nat, mass: nat) => 0.0)

  ghost const EXAMPLE_BAD := Transaction(1, [Outpoint(0, 0)], [], 0, 0)
  ghost const EXAMPLE_GOOD := Transaction(2, [Outpoint(0, 0)], [], 0, 0)

  ghost const EXAMPLE :=
    Situation(map[], map[1 := OrphanTx(EXAMPLE_BAD, 0), 2 := OrphanTx(EXAMPLE_GOOD, 0)], 0, 0)

  /** Processing does not go on until no acceptable orphan is left: consensus is steady and would accept
      orphan 2, but a look may end with orphan 1. */
  lemma PassedOverExample()
    ensures Steady(EXAMPLE_RULES) && 2 in WaitingFor(EXAMPLE.orphans, Outpoint(0, 0))
    ensures Decided(EXAMPLE_RULES, EXAMPLE, 2).Added?
    ensures exists look :: Looks(EXAMPLE_RULES, EXAMPLE, Outpoint(0, 0), look) && !IsAccepted(look, 2)
  {
    assert Outpoint(0, 0) in EXAMPLE_BAD.inputs && Outpoint(0, 0) in EXAMPLE_GOOD.inputs;
    assert PassesPolicy(EXAMPLE_RULES.policy, EXAMPLE_GOOD.(fee := 1, mass := 1));
    assert Decided(EXAMPLE_RULES, EXAMPLE, 1).Rejected?;
    AcceptedExactly(EXAMPLE_RULES, EXAMPLE, Outpoint(0, 0), 2);
  }

  lemma OrphanOutside(rules: Rules, before: Situation, o: TxId)
    requires o in before.orphans && Named(before.orphans) && Decided(rules, before, o).Added?
    ensures o !in before.txs
  {
  }

  // ----- a run of looks -----

  function AddedTxs(r: AcceptResult): seq<Transaction> {
    if r.Added? then [r.tx] else []
  }

  lemma AttemptMisses(rules: Rules, before: Situation, tx: Transaction, r: AcceptResult, after: Situation)
    requires IsAttempt(rules, before, tx, r, after) && r.Missing?
    ensures after == Asked(before, 1) && Decision(rules, before.txs, before.calls, tx).Missing?
  {
  }

  /** A look that settles an orphan. */
  lemma LookSettles(rules: Rules, look: Look)
    requires look.outcome.Somebody? && !look.outcome.r.Missing?
    requires look.missed <= WaitingFor(look.before.orphans, look.prevOut)
    requires look.outcome.id in WaitingFor(look.before.orphans, look.prevOut) && look.outcome.id !in look.missed
    requires forall id :: id in look.missed ==> StillMisses(rules, look.before, id, |look.missed|)
    requires IsAttempt(rules, Asked(look.before, |look.missed|), look.before.orphans[look.outcome.id].tx,
                       look.outcome.r, look.after)
    ensures IsLook(rules, look)
    ensures Fails(look) == look.outcome.r.Failed? && AcceptedBy(look) == AddedTxs(look.outcome.r)
  {
  }

  // ----- whether what enters was redeemed before -----

  /** What is added, if anything, is not redeemed by what is there. */
  ghost predicate EntersUnredeemed(txs: map<TxId, Transaction>, r: AcceptResult) {
    r.Added? ==> Unredeemed(txs, r.tx)
  }

  ghost predicate LookUnredeemed(look: Look) {
    look.outcome.Somebody? ==> EntersUnredeemed(look.before.txs, look.outcome.r)
  }

  ghost predicate LooksUnredeemed(looks: seq<Look>) {
    forall k :: 0 <= k < |looks| ==> LookUnredeemed(looks[k])
  }

  lemma UnredeemedNothing()
    ensures LooksUnredeemed([])
  {
  }

  lemma UnredeemedMore(looks: seq<Look>, look: Look)
    ensures LooksUnredeemed(looks + [look]) <==> LooksUnredeemed(looks) && LookUnredeemed(look)
  {
    hide LookUnredeemed;
    var more := looks + [look];
    assert more[|looks|] == look && forall k :: 0 <= k < |looks| ==> more[k] == looks[k];
  }

  lemma UnredeemedBoth(a: seq<Look>, b: seq<Look>)
    ensures LooksUnredeemed(a + b) <==> LooksUnredeemed(a) && LooksUnredeemed(b)
  {
    hide LookUnredeemed;
    assert forall k :: 0 <= k < |a| ==> (a + b)[k] == a[k];
    assert forall k :: 0 <= k < |b| ==> (a + b)[|a| + k] == b[k];
  }

  /** The looks lead from one situation to the other, and none but the last fails. */
  ghost predicate IsTrace(rules: Rules, looks: seq<Look>, from: Situation, to: Situation) {
    if looks == [] then from == to
    else
      var n := |looks| - 1;
      IsLook(rules, looks[n]) && looks[n].after == to && NoFailure(looks[..n])
      && IsTrace(rules, looks[..n], from, looks[n].before)
  }

  ghost predicate NoFailure(looks: seq<Look>) {
    forall k :: 0 <= k < |looks| ==> !Fails(looks[k])
  }

  ghost function AcceptedIn(looks: seq<Look>): seq<Transaction> {
    if looks == [] then [] else AcceptedIn(looks[..|looks| - 1]) + AcceptedBy(looks[|looks| - 1])
  }

  ghost function PrevOuts(looks: seq<Look>): seq<Outpoint> {
    seq(|looks|, (k: nat) requires k < |looks| => looks[k].prevOut)
  }

  lemma TraceMore(rules: Rules, looks: seq<Look>, from: Situation, to: Situation, look: Look)
    requires IsTrace(rules, looks, from, to) && NoFailure(looks) && IsLook(rules, look) && look.before == to
    ensures IsTrace(rules, looks + [look], from, look.after)
    ensures AcceptedIn(looks + [look]) == AcceptedIn(looks) + AcceptedBy(look)
    ensures PrevOuts(looks + [look]) == PrevOuts(looks) + [look.prevOut]
    ensures NoFailure(looks + [look]) <==> !Fails(look)
  {
    hide IsLook, AcceptedBy, Fails;
    var more := looks + [look];
    assert more[..|looks|] == looks;
    assert more[|looks|] == look;
  }

  lemma NoLooks(rules: Rules, from: Situation, to: Situation)
    ensures PrevOuts([]) == [] && AcceptedIn([]) == [] && NoFailure([])
    ensures IsTrace(rules, [], from, to) <==> from == to
  {
  }

  lemma TraceEnds(rules: Rules, looks: seq<Look>, from: Situation, to: Situation)
    requires IsTrace(rules, looks, from, to) && looks != []
    ensures var n := |looks| - 1;
      && IsTrace(rules, looks[..n], from, looks[n].before) && NoFailure(looks[..n])
      && IsLook(rules, looks[n]) && looks[n].after == to
  {
    hide IsLook, NoFailure;
  }

  lemma Associates<T>(a: seq<T>, b: seq<T>, c: seq<T>)
    ensures a + b + c == a + (b + c)
  {
  }

  lemma {:induction false} TraceThen(rules: Rules, a: seq<Look>, b: seq<Look>, first: Situation, second: Situation,
                                     third: Situation)
    requires IsTrace(rules, a, first, second) && NoFailure(a) && IsTrace(rules, b, second, third)
    ensures IsTrace(rules, a + b, first, third)
    ensures AcceptedIn(a + b) == AcceptedIn(a) + AcceptedIn(b)
    ensures PrevOuts(a + b) == PrevOuts(a) + PrevOuts(b)
    ensures NoFailure(a + b) <==> NoFailure(b)
    decreases |b|
  {
    hide *;
    NoLooks(rules, second, third);
    if b == [] {
      assert a + b == a;
      assert AcceptedIn(a) + [] == AcceptedIn(a) && PrevOuts(a) + [] == PrevOuts(a);
    } else {
      var n := |b| - 1;
      TraceEnds(rules, b, second, third);
      TraceThen(rules, a, b[..n], first, second, b[n].before);
      TraceMore(rules, a + b[..n], first, b[n].before, b[n]);
      TraceMore(rules, b[..n], second, b[n].before, b[n]);
      assert b[..n] + [b[n]] == b;
      assert a + b[..n] + [b[n]] == a + b;
      Associates(AcceptedIn(a), AcceptedIn(b[..n]), AcceptedBy(b[n]));
      Associates(PrevOuts(a), PrevOuts(b[..n]), [b[n].prevOut]);
    }
  }

  // ----- what a run keeps -----

  /** The mempool would hold all orphans too, so that nothing is evicted for them. */
  ghost predicate HasRoom(s: Situation) {
    |s.txs| + |s.orphans| <= TRANSACTION_LIMIT
  }

  ghost predicate HoldsAll(txs: map<TxId, Transaction>, some: seq<Transaction>) {
    forall tx :: tx in some ==> tx.id in txs && txs[tx.id] == tx
  }

  ghost predicate Named(orphans: map<TxId, OrphanTx>) {
    forall id :: id in orphans ==> orphans[id].tx.id == id
  }

  /** `tx` was an orphan, but for the fee and mass that validation fills in. */
  ghost predicate WasOrphan(orphans: map<TxId, OrphanTx>, tx: Transaction) {
    tx.id in orphans && orphans[tx.id].tx.(fee := tx.fee, mass := tx.mass) == tx
  }

  /** Nothing enters but what is accepted. */
  ghost predicate OnlyAdds(before: map<TxId, Transaction>, accepted: seq<Transaction>, after: map<TxId, Transaction>) {
    forall id :: id in after ==>
      (id in before && after[id] == before[id]) || (after[id] in accepted && after[id].id == id)
  }

  /** Orphans only go, at least one for each accepted; what is accepted was an orphan, and nothing else
      enters; and with room for all orphans no transaction goes, and all that is accepted stays. */
  ghost predicate Advances(from: Situation, accepted: seq<Transaction>, to: Situation) {
    && OnlyAdds(from.txs, accepted, to.txs)
    && SubMap(to.orphans, from.orphans)
    && |to.orphans| + |accepted| <= |from.orphans|
    && (forall tx :: tx in accepted ==> WasOrphan(from.orphans, tx))
    && (HasRoom(from) ==> HasRoom(to) && SubMap(from.txs, to.txs) && HoldsAll(to.txs, accepted))
  }

  lemma AdvancesThen(first: Situation, a: seq<Transaction>, second: Situation, b: seq<Transaction>, third: Situation)
    requires Advances(first, a, second) && Advances(second, b, third)
    ensures Advances(first, a + b, third)
  {
  }

  lemma AttemptAdvances(rules: Rules, before: Situation, tx: Transaction, r: AcceptResult, after: Situation)
    requires IsAttempt(rules, before, tx, r, after) && !r.Missing?
    requires Named(before.orphans) && tx.id in before.orphans && before.orphans[tx.id].tx == tx
    ensures Advances(before, if r.Added? then [r.tx] else [], after)
  {
    hide Decision, Admissible, WithinLimit, IsWithoutClosure;
    SubMapIsSmaller(after.orphans, before.orphans);
    if r.Added? {
      AttemptEnters(rules, before, tx, r, after);
    }
  }

  lemma AttemptEnters(rules: Rules, before: Situation, tx: Transaction, r: AcceptResult, after: Situation)
    requires IsAttempt(rules, before, tx, r, after) && r.Added? && tx.id in before.orphans
    ensures r.tx == tx.(fee := r.tx.fee, mass := r.tx.mass)
    ensures |after.orphans| == |before.orphans| - 1 && SubMap(after.txs, before.txs[tx.id := r.tx])
    ensures |before.txs| < TRANSACTION_LIMIT ==>
      after.txs == before.txs[tx.id := r.tx] && tx.id !in before.txs && |after.txs| == |before.txs| + 1
  {
    hide IsSpent, EntriesFor, PassesPolicy, WithinLimit, SubMap;
    WithinLimitShrinks(rules.feeRate, before.txs[tx.id := r.tx], after.txs);
    assert (before.orphans - {tx.id}).Keys == before.orphans.Keys - {tx.id};
    assert before.txs[tx.id := r.tx].Keys == before.txs.Keys + {tx.id};
  }

  lemma LookAdvances(rules: Rules, look: Look)
    requires IsLook(rules, look) && Named(look.before.orphans)
    ensures Advances(look.before, AcceptedBy(look), look.after)
    ensures look.after.failures == look.before.failures + (if Fails(look) then 1 else 0)
    ensures forall tx :: tx in AcceptedBy(look) ==> look.prevOut in tx.inputs
  {
    hide IsAttempt, StillMisses;
    match look.outcome {
      case Nobody =>
      case Somebody(id, r) =>
        AttemptAdvances(rules, Asked(look.before, |look.missed|), look.before.orphans[id].tx, r, look.after);
        AttemptDecides(rules, Asked(look.before, |look.missed|), look.before.orphans[id].tx, r, look.after);
    }
  }

  lemma AttemptDecides(rules: Rules, before: Situation, tx: Transaction, r: AcceptResult, after: Situation)
    requires IsAttempt(rules, before, tx, r, after)
    ensures after.failures == before.failures + (if r.Failed? then 1 else 0)
    ensures r.Added? ==> r.tx == tx.(fee := r.tx.fee, mass := r.tx.mass)
  {
  }

  /** Each of `txs` spends one of the outpoints. */
  ghost predicate AllSpend(txs: seq<Transaction>, ops: seq<Outpoint>) {
    forall tx :: tx in txs ==> exists op :: op in ops && op in tx.inputs
  }

  /** What holds of a run of looks: it fails at most at its end, and what is accepted redeems the
      outputs looked at. */
  lemma {:induction false} TraceAdvances(rules: Rules, looks: seq<Look>, from: Situation, to: Situation)
    requires IsTrace(rules, looks, from, to) && Named(from.orphans)
    ensures Advances(from, AcceptedIn(looks), to) && Named(to.orphans)
    ensures to.failures == from.failures + (if NoFailure(looks) then 0 else 1)
    ensures AllSpend(AcceptedIn(looks), PrevOuts(looks))
    decreases |looks|
  {
    hide IsLook, AcceptedBy, Fails, HasRoom, WasOrphan, HoldsAll, PrevOuts;
    if looks == [] {
      NothingHeld(from.txs);
    } else {
      var n := |looks| - 1;
      TraceAdvances(rules, looks[..n], from, looks[n].before);
      LookAdvances(rules, looks[n]);
      AdvancesThen(from, AcceptedIn(looks[..n]), looks[n].before, AcceptedBy(looks[n]), to);
      assert forall k :: 0 <= k < n ==> looks[..n][k] == looks[k];
      SpendMore(looks);
    }
  }

  lemma {:induction false} SpendMore(looks: seq<Look>)
    requires looks != []
    requires var n := |looks| - 1;
      && AllSpend(AcceptedIn(looks[..n]), PrevOuts(looks[..n]))
      && forall tx :: tx in AcceptedBy(looks[n]) ==> looks[n].prevOut in tx.inputs
    ensures AllSpend(AcceptedIn(looks), PrevOuts(looks))
  {
    hide AcceptedBy, AllSpend;
    var n := |looks| - 1;
    assert PrevOuts(looks) == PrevOuts(looks[..n]) + [looks[n].prevOut];
    SpendOneMore(AcceptedIn(looks[..n]), AcceptedBy(looks[n]), PrevOuts(looks[..n]), looks[n].prevOut);
  }

  lemma SpendOneMore(txs: seq<Transaction>, more: seq<Transaction>, ops: seq<Outpoint>, op: Outpoint)
    requires AllSpend(txs, ops) && forall tx :: tx in more ==> op in tx.inputs
    ensures AllSpend(txs + more, ops + [op])
  {
    forall tx | tx in txs + more ensures exists spent :: spent in ops + [op] && spent in tx.inputs {
      if tx in txs {
        var spent :| spent in ops && spent in tx.inputs;
        assert spent in ops + [op];
      } else {
        assert op in ops + [op];
      }
    }
  }

  lemma NothingHeld(txs: map<TxId, Transaction>)
    ensures HoldsAll(txs, [])
  {
  }

  // ----- processOrphans -----

  /** The first `n` outputs of a transaction, in order. */
  ghost function OutputsOf(item: Transaction, n: nat): seq<Outpoint> {
    seq(n, (i: nat) => Outpoint(item.id, i))
  }

  ghost function OutputsOfAll(txs: seq<Transaction>): seq<Outpoint> {
    if txs == [] then []
    else OutputsOfAll(txs[..|txs| - 1]) + OutputsOf(txs[|txs| - 1], |txs[|txs| - 1].outputs|)
  }

  /** The looks at the outputs of one transaction, in order; a failure cuts them short. */
  ghost predicate IsItem(rules: Rules, item: Transaction, looks: seq<Look>, from: Situation, to: Situation) {
    && IsTrace(rules, looks, from, to)
    && |looks| <= |item.outputs|
    && PrevOuts(looks) == OutputsOf(item, |looks|)
    && (NoFailure(looks) ==> |looks| == |item.outputs|)
  }

  lemma ItemStarts(rules: Rules, item: Transaction, from: Situation)
    ensures IsTrace(rules, [], from, from) && PrevOuts([]) == OutputsOf(item, 0)
    ensures NoFailure([]) && AcceptedIn([]) == []
  {
  }

  lemma ItemEnds(rules: Rules, item: Transaction, looks: seq<Look>, from: Situation, to: Situation)
    requires IsTrace(rules, looks, from, to) && |looks| <= |item.outputs| && PrevOuts(looks) == OutputsOf(item, |looks|)
    requires NoFailure(looks) ==> |looks| == |item.outputs|
    ensures IsItem(rules, item, looks, from, to)
  {
  }

  lemma ItemShrinks(rules: Rules, item: Transaction, looks: seq<Look>, from: Situation, to: Situation)
    requires IsItem(rules, item, looks, from, to) && Named(from.orphans)
    ensures |to.orphans| + |AcceptedIn(looks)| <= |from.orphans|
  {
    TraceAdvances(rules, looks, from, to);
  }

  lemma ItemMore(rules: Rules, item: Transaction, looks: seq<Look>, from: Situation, look: Look)
    requires IsTrace(rules, looks, from, look.before) && NoFailure(looks) && PrevOuts(looks) == OutputsOf(item, |looks|)
    requires |looks| < |item.outputs| && IsLook(rules, look) && look.prevOut == Outpoint(item.id, |looks|)
    ensures IsTrace(rules, looks + [look], from, look.after)
    ensures PrevOuts(looks + [look]) == OutputsOf(item, |looks| + 1) && (NoFailure(looks + [look]) <==> !Fails(look))
    ensures AcceptedIn(looks + [look]) == AcceptedIn(looks) + AcceptedBy(look)
  {
    hide IsLook, IsTrace, AcceptedIn, AcceptedBy, Fails;
    TraceMore(rules, looks, from, look.before, look);
  }

  /** What processOrphans does: the looks, what they accept, and the situation they lead to. */
  datatype Pass = Pass(from: Situation, looks: seq<Look>, accepted: seq<Transaction>, drained: Situation)

  /** Every output of `first` and of all that is accepted is looked up, in the order of acceptance,
      unless a failure cuts it short. */
  ghost predicate IsDrain(rules: Rules, first: Transaction, p: Pass) {
    && IsTrace(rules, p.looks, p.from, p.drained)
    && p.accepted == AcceptedIn(p.looks)
    && PrevOuts(p.looks) <= OutputsOfAll([first] + p.accepted)
    && (NoFailure(p.looks) ==> PrevOuts(p.looks) == OutputsOfAll([first] + p.accepted))
  }

  /** On the way there: `done` were looked up, and `list` comes next. */
  ghost predicate IsDraining(rules: Rules, first: Transaction, p: Pass, done: seq<Transaction>,
                             list: seq<Transaction>) {
    && [first] + p.accepted == done + list
    && IsTrace(rules, p.looks, p.from, p.drained)
    && p.accepted == AcceptedIn(p.looks)
    && PrevOuts(p.looks) <= OutputsOfAll(done)
    && (NoFailure(p.looks) ==> PrevOuts(p.looks) == OutputsOfAll(done))
  }

  lemma DrainStarts(rules: Rules, first: Transaction, from: Situation)
    ensures IsDraining(rules, first, Pass(from, [], [], from), [], [first]) && NoFailure([])
  {
  }

  lemma ListMoves(first: Transaction, txs: seq<Transaction>, more: seq<Transaction>, done: seq<Transaction>,
                  list: seq<Transaction>)
    requires [first] + txs == done + list && list != []
    ensures [first] + (txs + more) == (done + [list[0]]) + (list[1..] + more)
  {
    assert [first] + (txs + more) == done + list + more;
  }

  lemma OutputsOfMore(txs: seq<Transaction>, tx: Transaction)
    ensures OutputsOfAll(txs + [tx]) == OutputsOfAll(txs) + OutputsOf(tx, |tx.outputs|)
  {
    assert (txs + [tx])[..|txs|] == txs;
  }

  lemma {:induction false} OutputsOfConcat(a: seq<Transaction>, b: seq<Transaction>)
    ensures OutputsOfAll(a) <= OutputsOfAll(a + b)
    decreases |b|
  {
    hide OutputsOf;
    if b == [] {
      assert a + b == a;
    } else {
      var n := |b| - 1;
      OutputsOfConcat(a, b[..n]);
      assert a + b == a + b[..n] + [b[n]];
      OutputsOfMore(a + b[..n], b[n]);
    }
  }

  /** The processing after the outputs of one more transaction were looked up. */
  ghost function WithItem(p: Pass, looks: seq<Look>, to: Situation): Pass {
    Pass(p.from, p.looks + looks, p.accepted + AcceptedIn(looks), to)
  }

  lemma DrainedWith(p: Pass, looks: seq<Look>, to: Situation)
    ensures var q := WithItem(p, looks, to);
      q.from == p.from && q.looks == p.looks + looks && q.accepted == p.accepted + AcceptedIn(looks) && q.drained == to
  {
  }

  lemma DrainMore(rules: Rules, first: Transaction, p: Pass, done: seq<Transaction>, list: seq<Transaction>,
                  looks: seq<Look>, to: Situation)
    requires IsDraining(rules, first, p, done, list) && NoFailure(p.looks) && list != []
    requires IsItem(rules, list[0], looks, p.drained, to)
    ensures IsDraining(rules, first, WithItem(p, looks, to), done + [list[0]], list[1..] + AcceptedIn(looks))
    ensures NoFailure(p.looks + looks) <==> NoFailure(looks)
  {
    hide IsTrace, AcceptedIn, NoFailure, PrevOuts, OutputsOfAll;
    TraceThen(rules, p.looks, looks, p.from, p.drained, to);
    ListMoves(first, p.accepted, AcceptedIn(looks), done, list);
    OutputsOfMore(done, list[0]);
    assert OutputsOf(list[0], |looks|) <= OutputsOf(list[0], |list[0].outputs|);
  }

  lemma DrainEnds(rules: Rules, first: Transaction, p: Pass, done: seq<Transaction>, list: seq<Transaction>)
    requires IsDraining(rules, first, p, done, list) && (list == [] || !NoFailure(p.looks))
    ensures IsDrain(rules, first, p)
  {
    hide IsTrace, AcceptedIn, NoFailure, PrevOuts, OutputsOfAll;
    OutputsOfConcat(done, list);
    if list == [] {
      assert done + list == done;
    }
  }

  ghost function SpendersOf(txs: map<TxId, Transaction>, ops: set<Outpoint>): set<TxId> {
    set id | id in txs && SpendsAny(txs[id], ops)
  }

  ghost predicate SpendsAny(tx: Transaction, ops: set<Outpoint>) {
    exists op :: op in ops && op in tx.inputs
  }

  /** Exactly the orphans that spend one of the outpoints are gone, with their redeemers. */
  ghost predicate IsCleared(ops: set<Outpoint>, before: map<TxId, OrphanTx>, after: map<TxId, OrphanTx>) {
    SubMap(after, before) && IsWithoutClosureOf(TxsOf(before), SpendersOf(TxsOf(before), ops), TxsOf(after))
  }

  /** The orphans that spend an input of `tx`, by either way of listing the inputs. */
  lemma SpendersOfInputs(txs: map<TxId, Transaction>, tx: Transaction)
    ensures Spenders(txs, tx.inputs) == SpendersOf(txs, Inputs(tx))
  {
    forall id | id in txs ensures SpendsOne(txs[id], tx.inputs) <==> SpendsAny(txs[id], Inputs(tx)) {
      if SpendsAny(txs[id], Inputs(tx)) {
        var op :| op in Inputs(tx) && op in txs[id].inputs;
        var k :| 0 <= k < |tx.inputs| && tx.inputs[k] == op;
      }
      if SpendsOne(txs[id], tx.inputs) {
        var k :| 0 <= k < |tx.inputs| && tx.inputs[k] in txs[id].inputs;
        assert tx.inputs[k] in Inputs(tx);
      }
    }
  }

  lemma ClearedNothing(orphans: map<TxId, OrphanTx>)
    ensures IsCleared({}, orphans, orphans)
  {
  }

  lemma ClearedMore(ops: set<Outpoint>, more: set<Outpoint>, before: map<TxId, OrphanTx>, mid: map<TxId, OrphanTx>,
                    after: map<TxId, OrphanTx>)
    requires IsCleared(ops, before, mid) && IsCleared(more, mid, after)
    ensures IsCleared(ops + more, before, after)
  {
    hide IsWithoutClosureOf, SpendersOf;
    var all, left, left' := TxsOf(before), TxsOf(mid), TxsOf(after);
    SpendersOfBoth(all, left, ops, more);
    ClosureThen(all, SpendersOf(all, ops), left, SpendersOf(left, more), left');
    forall s | s in SpendersOf(all, ops + more) ensures s !in left' {
      ClearedSpender(ops, before, mid, s);
      ClearedSpender(more, mid, after, s);
    }
    ClosureOfMoreSeeds(all, SpendersOf(all, ops) + SpendersOf(left, more), SpendersOf(all, ops + more), left');
  }

  lemma SpendersOfBoth(all: map<TxId, Transaction>, left: map<TxId, Transaction>, ops: set<Outpoint>,
                       more: set<Outpoint>)
    requires SubMap(left, all)
    ensures SpendersOf(left, more) <= left.Keys
    ensures SpendersOf(all, ops) + SpendersOf(left, more) <= SpendersOf(all, ops + more)
    ensures forall s :: s in SpendersOf(all, ops + more) && s in left ==>
      s in SpendersOf(all, ops) || s in SpendersOf(left, more)
  {
    forall tx: Transaction ensures SpendsAny(tx, ops + more) <==> SpendsAny(tx, ops) || SpendsAny(tx, more) {
      if SpendsAny(tx, ops) {
        var op :| op in ops && op in tx.inputs;
        assert op in ops + more;
      }
      if SpendsAny(tx, more) {
        var op :| op in more && op in tx.inputs;
        assert op in ops + more;
      }
    }
  }

  lemma ClearedSpender(ops: set<Outpoint>, before: map<TxId, OrphanTx>, after: map<TxId, OrphanTx>, s: TxId)
    requires IsCleared(ops, before, after)
    ensures s in SpendersOf(TxsOf(before), ops) ==> s !in TxsOf(after)
    ensures s in TxsOf(after) ==> s in TxsOf(before)
  {
    ReachesSelf(RedeemEdges(TxsOf(before)), s);
  }

  /** processOrphans: the looks, and then every orphan goes that spends what `first` or an accepted
      transaction spends. */
  ghost predicate IsProcessed(rules: Rules, first: Transaction, p: Pass, to: Situation) {
    && IsDrain(rules, first, p)
    && to == p.drained.(orphans := to.orphans)
    && if NoFailure(p.looks) then IsCleared(InputsOf([first] + p.accepted), p.drained.orphans, to.orphans)
       else to == p.drained
  }

  lemma ProcessedAdvances(rules: Rules, first: Transaction, p: Pass, to: Situation)
    requires IsProcessed(rules, first, p, to) && Named(p.from.orphans)
    ensures Advances(p.from, p.accepted, to)
    ensures to.failures == p.from.failures + (if NoFailure(p.looks) then 0 else 1)
    ensures AllSpend(p.accepted, OutputsOfAll([first] + p.accepted))
  {
    hide IsTrace, AcceptedIn, NoFailure, WasOrphan, HoldsAll, OutputsOfAll;
    TraceAdvances(rules, p.looks, p.from, p.drained);
    SubMapIsSmaller(to.orphans, p.drained.orphans);
    forall op | op in PrevOuts(p.looks) ensures op in OutputsOfAll([first] + p.accepted) {
    }
  }
}

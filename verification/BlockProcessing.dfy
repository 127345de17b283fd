/** mempool.go, handleNewBlockTransactions: what the transactions of a block do to the mempool and to
    the orphans, one after another, and what they leave alone. */
module BlockProcessing {
  import opened MempoolInvariant
  import opened OrphanPools
  import opened OrphanProcessing
  import opened Reachability
  import opened Redeemers
  import opened Transactions

  /** One transaction of a block: its double spends leave the mempool with their redeemers, it is no
      orphan any more, and the orphans are processed. */
  datatype BlockStep = BlockStep(tx: Transaction, before: Situation, p: Pass, after: Situation)

  ghost predicate IsBlockStep(rules: Rules, step: BlockStep) {
    var tx, before, from := step.tx, step.before, step.p.from;
    && from == before.(txs := from.txs, orphans := before.orphans - {tx.id})
    && IsWithoutClosureOf(before.txs, DoubleSpenders(before.txs, tx, |tx.inputs|), from.txs)
    && IsProcessed(rules, tx, step.p, step.after)
  }

  ghost predicate Succeed(steps: seq<BlockStep>) {
    forall k :: 0 <= k < |steps| ==> NoFailure(steps[k].p.looks)
  }

  /** The steps are those of the first transactions, lead from one situation to the other, and none but
      the last fails. */
  ghost predicate IsBlockRun(rules: Rules, txs: seq<Transaction>, steps: seq<BlockStep>, from: Situation,
                             to: Situation) {
    if steps == [] then from == to
    else
      var n := |steps| - 1;
      && n < |txs| && steps[n].tx == txs[n] && IsBlockStep(rules, steps[n]) && steps[n].after == to
      && Succeed(steps[..n]) && IsBlockRun(rules, txs, steps[..n], from, steps[n].before)
  }

  ghost function AcceptedInBlock(steps: seq<BlockStep>): seq<Transaction> {
    if steps == [] then [] else AcceptedInBlock(steps[..|steps| - 1]) + steps[|steps| - 1].p.accepted
  }

  lemma BlockRunMore(rules: Rules, txs: seq<Transaction>, steps: seq<BlockStep>, from: Situation, step: BlockStep)
    requires IsBlockRun(rules, txs, steps, from, step.before) && Succeed(steps)
    requires |steps| < |txs| && step.tx == txs[|steps|] && IsBlockStep(rules, step)
    ensures IsBlockRun(rules, txs, steps + [step], from, step.after)
    ensures AcceptedInBlock(steps + [step]) == AcceptedInBlock(steps) + step.p.accepted
    ensures Succeed(steps + [step]) <==> NoFailure(step.p.looks)
  {
    hide IsBlockStep, NoFailure;
    var more := steps + [step];
    assert more[..|steps|] == steps;
    assert more[|steps|] == step;
  }

  lemma BlockRunStarts(rules: Rules, txs: seq<Transaction>, from: Situation)
    ensures IsBlockRun(rules, txs, [], from, from) && Succeed([]) && AcceptedInBlock([]) == []
  {
  }

  ghost predicate StepsUnredeemed(steps: seq<BlockStep>) {
    forall k :: 0 <= k < |steps| ==> LooksUnredeemed(steps[k].p.looks)
  }

  lemma StepsUnredeemedMore(steps: seq<BlockStep>, step: BlockStep)
    ensures StepsUnredeemed([]) && (StepsUnredeemed(steps + [step]) <==>
                                    StepsUnredeemed(steps) && LooksUnredeemed(step.p.looks))
  {
    hide LooksUnredeemed;
    var more := steps + [step];
    assert more[|steps|] == step && forall k :: 0 <= k < |steps| ==> more[k] == steps[k];
  }

  // ----- what stays in the mempool -----

  /** Everything in `some` is in `all`, with the same inputs and outputs. */
  ghost predicate SameLinks(some: map<TxId, Transaction>, all: map<TxId, Transaction>) {
    forall id :: id in some ==> id in all && all[id].inputs == some[id].inputs && all[id].outputs == some[id].outputs
  }

  lemma LinksReach(some: map<TxId, Transaction>, all: map<TxId, Transaction>, a: TxId, b: TxId)
    requires SameLinks(some, all) && Reaches(RedeemEdges(some), a, b)
    ensures Reaches(RedeemEdges(all), a, b)
  {
    ReachesMore(RedeemEdges(some), RedeemEdges(all), a, b);
  }

  /** The transactions and the orphans together. */
  ghost function Everything(s: Situation): map<TxId, Transaction> {
    TxsOf(s.orphans) + s.txs
  }

  ghost predicate Within(s: Situation, all: map<TxId, Transaction>) {
    SameLinks(s.txs, all) && SameLinks(TxsOf(s.orphans), all) && Named(s.orphans)
  }

  /** `id` spends what a transaction of the block spends, and is not that transaction. */
  ghost predicate DoubleSpends(all: map<TxId, Transaction>, txs: seq<Transaction>, id: TxId) {
    id in all && exists k :: 0 <= k < |txs| && id != txs[k].id && SharesInput(txs[k], |txs[k].inputs|, all[id])
  }

  /** `x` neither double spends nor transitively redeems what does. */
  ghost predicate Unaffected(all: map<TxId, Transaction>, txs: seq<Transaction>, x: TxId) {
    forall d :: DoubleSpends(all, txs, d) ==> !Reaches(RedeemEdges(all), d, x)
  }

  lemma AdvancesWithin(from: Situation, accepted: seq<Transaction>, to: Situation, all: map<TxId, Transaction>)
    requires Advances(from, accepted, to) && Within(from, all)
    ensures Within(to, all)
  {
    hide HasRoom, HoldsAll;
    forall id | id in to.txs
      ensures id in all && all[id].inputs == to.txs[id].inputs && all[id].outputs == to.txs[id].outputs
    {
      if to.txs[id] in accepted {
        assert WasOrphan(from.orphans, to.txs[id]);
        assert id in TxsOf(from.orphans) || id in from.txs;
      }
    }
  }

  lemma CleanedKeeps(step: BlockStep, k: nat, txs: seq<Transaction>, all: map<TxId, Transaction>, x: TxId)
    requires k < |txs| && step.tx == txs[k] && SameLinks(step.before.txs, all)
    requires IsWithoutClosureOf(step.before.txs, DoubleSpenders(step.before.txs, step.tx, |step.tx.inputs|),
                                step.p.from.txs)
    requires x in step.before.txs && Unaffected(all, txs, x)
    ensures x in step.p.from.txs && step.p.from.txs[x] == step.before.txs[x]
  {
    forall d | d in DoubleSpenders(step.before.txs, step.tx, |step.tx.inputs|)
      ensures !Reaches(RedeemEdges(step.before.txs), d, x)
    {
      var j :| 0 <= j < |step.tx.inputs| && step.tx.inputs[j] in step.before.txs[d].inputs;
      assert SharesInput(txs[k], |txs[k].inputs|, all[d]);
      assert DoubleSpends(all, txs, d);
      if Reaches(RedeemEdges(step.before.txs), d, x) {
        LinksReach(step.before.txs, all, d, x);
      }
    }
  }

  lemma CleanedWithin(step: BlockStep, all: map<TxId, Transaction>)
    requires Within(step.before, all)
    requires step.p.from == step.before.(txs := step.p.from.txs, orphans := step.before.orphans - {step.tx.id})
    requires SubMap(step.p.from.txs, step.before.txs)
    ensures Within(step.p.from, all) && (HasRoom(step.before) ==> HasRoom(step.p.from))
  {
    SubMapIsSmaller(step.p.from.txs, step.before.txs);
    SubMapIsSmaller(step.p.from.orphans, step.before.orphans);
  }

  lemma StepKeeps(rules: Rules, txs: seq<Transaction>, step: BlockStep, k: nat, all: map<TxId, Transaction>)
    requires IsBlockStep(rules, step) && k < |txs| && step.tx == txs[k] && Within(step.before, all)
    ensures Within(step.after, all) && (HasRoom(step.before) ==> HasRoom(step.after))
    ensures HasRoom(step.before) ==> forall x :: x in step.before.txs && Unaffected(all, txs, x) ==>
      x in step.after.txs && step.after.txs[x] == step.before.txs[x]
    ensures OnlyAdds(step.before.txs, step.p.accepted, step.after.txs)
    ensures SubMap(step.after.orphans, step.before.orphans - {step.tx.id})
    ensures forall tx :: tx in step.p.accepted ==> WasOrphan(step.before.orphans, tx)
    ensures step.after.failures == step.before.failures + (if NoFailure(step.p.looks) then 0 else 1)
  {
    hide Within, IsProcessed, HasRoom, Unaffected, IsWithoutClosureOf, NoFailure;
    ClosureShrinks(step.before.txs, DoubleSpenders(step.before.txs, step.tx, |step.tx.inputs|), step.p.from.txs);
    CleanedWithin(step, all);
    WithinNamed(step.p.from, all);
    WithinNamed(step.before, all);
    ProcessedAdvances(rules, step.tx, step.p, step.after);
    AdvancesWithin(step.p.from, step.p.accepted, step.after, all);
    forall x | x in step.before.txs && Unaffected(all, txs, x)
      ensures x in step.p.from.txs && step.p.from.txs[x] == step.before.txs[x]
    {
      CleanedKeeps(step, k, txs, all, x);
    }
  }

  lemma WithinNamed(s: Situation, all: map<TxId, Transaction>)
    requires Within(s, all)
    ensures Named(s.orphans) && SameLinks(s.txs, all)
  {
  }

  lemma ClosureShrinks(before: map<TxId, Transaction>, seeds: set<TxId>, left: map<TxId, Transaction>)
    requires IsWithoutClosureOf(before, seeds, left)
    ensures SubMap(left, before)
  {
  }

  /** With room for all orphans, every transaction stays that neither double spends a transaction of
      the block nor transitively redeems what does; and nothing enters but what is accepted. */
  lemma {:induction false} RunKeeps(rules: Rules, txs: seq<Transaction>, steps: seq<BlockStep>, from: Situation,
                                    to: Situation, all: map<TxId, Transaction>)
    requires IsBlockRun(rules, txs, steps, from, to) && Within(from, all)
    ensures Within(to, all) && (HasRoom(from) ==> HasRoom(to))
    ensures HasRoom(from) ==>
      forall x :: x in from.txs && Unaffected(all, txs, x) ==> x in to.txs && to.txs[x] == from.txs[x]
    ensures OnlyAdds(from.txs, AcceptedInBlock(steps), to.txs)
    ensures SubMap(to.orphans, from.orphans) && forall k :: 0 <= k < |steps| ==> txs[k].id !in to.orphans
    ensures forall tx :: tx in AcceptedInBlock(steps) ==> WasOrphan(from.orphans, tx)
    ensures to.failures == from.failures + (if Succeed(steps) then 0 else 1)
    decreases |steps|
  {
    hide IsBlockStep, Within, HasRoom, Unaffected, NoFailure;
    if steps != [] {
      var n := |steps| - 1;
      RunKeeps(rules, txs, steps[..n], from, steps[n].before, all);
      StepKeeps(rules, txs, steps[n], n, all);
      assert forall k :: 0 <= k < n ==> steps[..n][k] == steps[k];
    }
  }

  // ----- which orphans stay -----

  /** The orphans that looks found invalid. */
  ghost function InvalidIn(looks: seq<Look>): set<TxId> {
    set k | 0 <= k < |looks| && looks[k].outcome.Somebody? && looks[k].outcome.r.Rejected? :: looks[k].outcome.id
  }

  /** An orphan is not reached from any of the `invalid` ones nor from those that spend one of `ops`. */
  ghost predicate Spared(orphans: map<TxId, OrphanTx>, invalid: set<TxId>, ops: set<Outpoint>, o: TxId) {
    forall d :: d in orphans && (d in invalid || SpendsAny(orphans[d].tx, ops)) ==>
      !Reaches(RedeemEdges(TxsOf(orphans)), d, o)
  }

  ghost predicate StaysIn(before: map<TxId, OrphanTx>, o: TxId, after: map<TxId, OrphanTx>) {
    o in before && o in after && after[o] == before[o]
  }

  ghost function IdsOf(txs: seq<Transaction>): set<TxId> {
    set tx | tx in txs :: tx.id
  }

  /** Fewer orphans, fewer invalid ones and fewer outpoints spare at least as many. */
  lemma SparedLess(orphans: map<TxId, OrphanTx>, invalid: set<TxId>, ops: set<Outpoint>, o: TxId,
                   fewer: map<TxId, OrphanTx>, invalid': set<TxId>, ops': set<Outpoint>)
    requires Spared(orphans, invalid, ops, o) && SubMap(fewer, orphans) && invalid' <= invalid && ops' <= ops
    ensures Spared(fewer, invalid', ops', o)
  {
    forall d | d in fewer && (d in invalid' || SpendsAny(fewer[d].tx, ops'))
      ensures !Reaches(RedeemEdges(TxsOf(fewer)), d, o)
    {
      if Reaches(RedeemEdges(TxsOf(fewer)), d, o) {
        LinksReach(TxsOf(fewer), TxsOf(orphans), d, o);
      }
    }
  }

  lemma LookSpares(rules: Rules, look: Look, o: TxId)
    requires IsLook(rules, look) && Named(look.before.orphans) && o in look.before.orphans
    requires Spared(look.before.orphans, InvalidIn([look]), {}, o)
    requires o !in IdsOf(AcceptedBy(look))
    ensures StaysIn(look.before.orphans, o, look.after.orphans)
  {
    match look.outcome {
      case Nobody =>
      case Somebody(id, r) =>
        AttemptSpares(rules, Asked(look.before, |look.missed|), id, r, look.after, o);
        if r.Added? {
          assert r.tx in AcceptedBy(look);
        }
        assert [look][0] == look;
    }
  }

  lemma AttemptSpares(rules: Rules, before: Situation, id: TxId, r: AcceptResult, after: Situation, o: TxId)
    requires Named(before.orphans) && id in before.orphans && o in before.orphans
    requires IsAttempt(rules, before, before.orphans[id].tx, r, after)
    ensures r.Added? ==> r.tx.id == id
    ensures StaysIn(before.orphans, o, after.orphans)
      || (r.Added? && o == id) || (r.Rejected? && Reaches(RedeemEdges(TxsOf(before.orphans)), id, o))
  {
    hide IsSpent, EntriesFor, WithinLimit;
    if r.Rejected? {
      assert o in TxsOf(before.orphans);
    }
  }

  lemma {:induction false} TraceSpares(rules: Rules, looks: seq<Look>, from: Situation, to: Situation, o: TxId)
    requires IsTrace(rules, looks, from, to) && Named(from.orphans) && o in from.orphans
    requires Spared(from.orphans, InvalidIn(looks), {}, o) && o !in IdsOf(AcceptedIn(looks))
    ensures StaysIn(from.orphans, o, to.orphans)
    decreases |looks|
  {
    hide IsLook, Spared;
    if looks != [] {
      var n := |looks| - 1;
      InvalidParts(looks);
      assert forall tx :: tx in AcceptedIn(looks) <==> tx in AcceptedIn(looks[..n]) || tx in AcceptedBy(looks[n]);
      SparedLess(from.orphans, InvalidIn(looks), {}, o, from.orphans, InvalidIn(looks[..n]), {});
      TraceSpares(rules, looks[..n], from, looks[n].before, o);
      TraceAdvances(rules, looks[..n], from, looks[n].before);
      SparedLess(from.orphans, InvalidIn(looks), {}, o, looks[n].before.orphans, InvalidIn([looks[n]]), {});
      LookSpares(rules, looks[n], o);
    }
  }

  lemma InvalidParts(looks: seq<Look>)
    requires looks != []
    ensures InvalidIn(looks[..|looks| - 1]) <= InvalidIn(looks) && InvalidIn([looks[|looks| - 1]]) <= InvalidIn(looks)
  {
    var n := |looks| - 1;
    assert forall k :: 0 <= k < n ==> looks[..n][k] == looks[k];
    assert [looks[n]][0] == looks[n];
  }

  lemma ClearedSpares(ops: set<Outpoint>, before: map<TxId, OrphanTx>, after: map<TxId, OrphanTx>, o: TxId)
    requires IsCleared(ops, before, after) && o in before && Spared(before, {}, ops, o)
    ensures StaysIn(before, o, after)
  {
    assert o in TxsOf(before);
    forall s | s in SpendersOf(TxsOf(before), ops) ensures !Reaches(RedeemEdges(TxsOf(before)), s, o) {
      assert SpendsAny(before[s].tx, ops);
    }
    assert o in TxsOf(after);
  }

  lemma ProcessedSpares(rules: Rules, first: Transaction, p: Pass, to: Situation, o: TxId)
    requires IsProcessed(rules, first, p, to) && Named(p.from.orphans) && o in p.from.orphans
    requires Spared(p.from.orphans, InvalidIn(p.looks), InputsOf([first] + p.accepted), o)
    requires o !in IdsOf(p.accepted)
    ensures StaysIn(p.from.orphans, o, to.orphans)
  {
    hide IsTrace, Spared, IsCleared;
    var ops := InputsOf([first] + p.accepted);
    SparedLess(p.from.orphans, InvalidIn(p.looks), ops, o, p.from.orphans, InvalidIn(p.looks), {});
    TraceSpares(rules, p.looks, p.from, p.drained, o);
    TraceAdvances(rules, p.looks, p.from, p.drained);
    if NoFailure(p.looks) {
      SparedLess(p.from.orphans, InvalidIn(p.looks), ops, o, p.drained.orphans, {}, ops);
      ClearedSpares(ops, p.drained.orphans, to.orphans, o);
    }
  }

  ghost function InvalidInBlock(steps: seq<BlockStep>): set<TxId> {
    if steps == [] then {} else InvalidInBlock(steps[..|steps| - 1]) + InvalidIn(steps[|steps| - 1].p.looks)
  }

  lemma {:induction false} RunSpares(rules: Rules, txs: seq<Transaction>, steps: seq<BlockStep>, from: Situation,
                                     to: Situation, o: TxId)
    requires IsBlockRun(rules, txs, steps, from, to) && Named(from.orphans) && o in from.orphans
    requires Spared(from.orphans, InvalidInBlock(steps), InputsOf(txs + AcceptedInBlock(steps)), o)
    requires o !in IdsOf(txs) && o !in IdsOf(AcceptedInBlock(steps))
    ensures StaysIn(from.orphans, o, to.orphans) && SubMap(to.orphans, from.orphans)
    decreases |steps|
  {
    hide IsBlockStep, Spared, InputsOf, Succeed;
    if steps != [] {
      var n := |steps| - 1;
      var step, fewer := steps[n], AcceptedInBlock(steps[..n]);
      InputsOfParts(txs, n, fewer, step.p.accepted);
      assert forall tx :: tx in AcceptedInBlock(steps) <==> tx in fewer || tx in step.p.accepted;
      SparedLess(from.orphans, InvalidInBlock(steps), InputsOf(txs + AcceptedInBlock(steps)), o,
                 from.orphans, InvalidInBlock(steps[..n]), InputsOf(txs + fewer));
      RunSpares(rules, txs, steps[..n], from, step.before, o);
      assert txs[n] in txs;
      StepSpares(rules, step, o, from.orphans, InvalidInBlock(steps), InputsOf(txs + AcceptedInBlock(steps)));
    }
  }

  lemma InputsOfParts(txs: seq<Transaction>, n: nat, fewer: seq<Transaction>, more: seq<Transaction>)
    requires n < |txs|
    ensures InputsOf(txs + fewer) <= InputsOf(txs + (fewer + more))
    ensures InputsOf([txs[n]] + more) <= InputsOf(txs + (fewer + more))
  {
    InputsOfConcat(txs, fewer + more);
    InputsOfConcat(fewer, more);
    InputsOfConcat(txs, fewer);
    InputsOfConcat([txs[n]], more);
    InputsOfConcat(txs[..n], [txs[n]]);
    InputsOfConcat(txs[..n + 1], txs[n + 1..]);
    assert txs[..n] + [txs[n]] == txs[..n + 1];
    assert txs[..n + 1] + txs[n + 1..] == txs;
  }

  lemma StepSpares(rules: Rules, step: BlockStep, o: TxId, orphans: map<TxId, OrphanTx>, invalid: set<TxId>,
                   ops: set<Outpoint>)
    requires IsBlockStep(rules, step) && Named(orphans) && SubMap(step.before.orphans, orphans)
    requires o in step.before.orphans && o != step.tx.id && o !in IdsOf(step.p.accepted)
    requires Spared(orphans, invalid, ops, o)
    requires InvalidIn(step.p.looks) <= invalid && InputsOf([step.tx] + step.p.accepted) <= ops
    ensures StaysIn(step.before.orphans, o, step.after.orphans) && SubMap(step.after.orphans, step.before.orphans)
  {
    hide IsProcessed, Spared, InputsOf, IsWithoutClosureOf, HasRoom, WasOrphan;
    SparedLess(orphans, invalid, ops, o, step.p.from.orphans, InvalidIn(step.p.looks),
               InputsOf([step.tx] + step.p.accepted));
    ProcessedSpares(rules, step.tx, step.p, step.after, o);
    ProcessedAdvances(rules, step.tx, step.p, step.after);
  }

  // ----- the whole block -----

  /** The transactions of the block have left the mempool. */
  ghost function Without(s: Situation, mined: set<TxId>): Situation {
    s.(txs := s.txs - mined)
  }

  /** With room for all orphans, every transaction stays that is not in the block, and neither double
      spends a transaction of the block nor transitively redeems what does. */
  ghost predicate KeepsUnaffected(before: Situation, txs: seq<Transaction>, to: Situation) {
    HasRoom(before) ==>
      forall x :: x in before.txs && x !in IdsOf(txs) && Unaffected(Everything(before), txs, x) ==>
        x in to.txs && to.txs[x] == before.txs[x]
  }

  ghost predicate IsSpared(before: Situation, txs: seq<Transaction>, steps: seq<BlockStep>, o: TxId) {
    && o in before.orphans
    && o !in IdsOf(txs) && o !in IdsOf(AcceptedInBlock(steps))
    && Spared(before.orphans, InvalidInBlock(steps), InputsOf(txs + AcceptedInBlock(steps)), o)
  }

  /** Every orphan stays that is not in the block, not accepted, and not reached from an orphan that was
      found invalid or that spends what the block or an accepted transaction spends. */
  ghost predicate KeepsSpared(before: Situation, txs: seq<Transaction>, steps: seq<BlockStep>, to: Situation) {
    forall o :: IsSpared(before, txs, steps, o) ==> StaysIn(before.orphans, o, to.orphans)
  }

  lemma MinedWithin(s: Situation, mined: set<TxId>)
    requires Named(s.orphans) && forall id :: id in s.orphans ==> id !in s.txs
    ensures Within(Without(s, mined), Everything(s)) && (HasRoom(s) ==> HasRoom(Without(s, mined)))
  {
    SubMapIsSmaller(s.txs - mined, s.txs);
  }

  /** What a block does to a mempool with the orphans apart: which transactions and which orphans stay,
      what enters, and whether it fails. */
  lemma BlockKeeps(rules: Rules, txs: seq<Transaction>, steps: seq<BlockStep>, before: Situation, to: Situation)
    requires Named(before.orphans) && forall id :: id in before.orphans ==> id !in before.txs
    requires IsBlockRun(rules, txs, steps, Without(before, IdsOf(txs)), to)
    ensures KeepsUnaffected(before, txs, to) && KeepsSpared(before, txs, steps, to)
    ensures OnlyAdds(before.txs, AcceptedInBlock(steps), to.txs)
    ensures forall tx :: tx in AcceptedInBlock(steps) ==> WasOrphan(before.orphans, tx)
    ensures |steps| == |txs| ==> forall id :: id in IdsOf(txs) ==> id !in to.orphans
    ensures to.failures == before.failures + (if Succeed(steps) then 0 else 1)
  {
    hide IsBlockRun, Within, HasRoom, Unaffected, Spared, Succeed, InputsOf, StaysIn, WasOrphan, AcceptedInBlock,
      InvalidInBlock, Everything;
    var from := Without(before, IdsOf(txs));
    MinedWithin(before, IdsOf(txs));
    RunKeeps(rules, txs, steps, from, to, Everything(before));
    forall o | IsSpared(before, txs, steps, o) ensures StaysIn(before.orphans, o, to.orphans) {
      RunSpares(rules, txs, steps, from, to, o);
    }
  }
}

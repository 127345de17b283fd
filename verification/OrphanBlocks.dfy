/** app/protocol/flowcontext/orphans.go: blocks that wait for their parents. Consensus is an
    oracle that may answer anything lawful at every call. */
module OrphanBlocks {
  import opened Reachability
  import Transactions

  const MAX_ORPHANS := 600

  type Hash = nat

  datatype Block = Block(hash: Hash, parents: seq<Hash>)

  /** A block that consensus knows is known by its header only, found invalid, or has a body. */
  datatype BlockStatus = HeaderOnly | Invalid | WithBody

  type Statuses = map<Hash, BlockStatus>

  predicate IsKnown(statuses: Statuses, h: Hash) {
    h in statuses && statuses[h] != HeaderOnly
  }

  predicate HasBody(statuses: Statuses, h: Hash) {
    h in statuses && statuses[h] == WithBody
  }

  ghost predicate ParentsKnown(statuses: Statuses, block: Block) {
    forall p :: p in block.parents ==> p in statuses && statuses[p] != HeaderOnly
  }

  ghost predicate ParentsHaveBodies(statuses: Statuses, block: Block) {
    forall p :: p in block.parents ==> HasBody(statuses, p)
  }

  ghost predicate HasParentIn(block: Block, hashes: set<Hash>) {
    exists p :: p in block.parents && p in hashes
  }

  // ----- consensus -----

  datatype Outcome = Inserted | RuleError | Failure

  /** What validating a block answers, and the statuses it leaves. */
  datatype Insertion = Insertion(outcome: Outcome, statuses: Statuses)

  /** No block gets a body but the inserted one. Bodies may go, by pruning. */
  ghost predicate LawfulInsertion(block: Block, before: Statuses, insertion: Insertion) {
    forall h :: HasBody(insertion.statuses, h) ==>
      HasBody(before, h) || (insertion.outcome.Inserted? && h == block.hash)
  }

  /** A block handed to consensus, with the statuses at that moment. */
  datatype Attempt = Attempt(block: Block, before: Statuses, outcome: Outcome)

  class Consensus {
    const insertions: (nat, Block, Statuses) -> Insertion
    const lookupFails: (nat, Hash) -> bool
    var calls: nat
    var statuses: Statuses
    ghost var attempts: seq<Attempt>
    /** How many calls have failed. */
    ghost var failures: nat

    ghost predicate Lawful() {
      forall n, block, before :: LawfulInsertion(block, before, insertions(n, block, before))
    }

    constructor (insertions: (nat, Block, Statuses) -> Insertion, lookupFails: (nat, Hash) -> bool, statuses: Statuses)
      ensures this.insertions == insertions && this.lookupFails == lookupFails && this.statuses == statuses
    {
      this.insertions, this.lookupFails, this.statuses := insertions, lookupFails, statuses;
      calls, attempts, failures := 0, [], 0;
    }

    /** Whether a block is known, or an error. */
    method GetBlockInfo(h: Hash) returns (known: bool, err: bool)
      modifies this`calls, this`failures
      ensures err == lookupFails(old(calls), h) && failures == Counted(old(failures), err)
      ensures !err ==> (known <==> h in statuses && statuses[h] != HeaderOnly)
    {
      err := lookupFails(calls, h);
      failures := Counted(failures, err);
      calls := calls + 1;
      known := IsKnown(statuses, h);
    }

    method ValidateAndInsertBlock(block: Block) returns (outcome: Outcome)
      requires Lawful()
      modifies this
      ensures LawfulInsertion(block, old(statuses), Insertion(outcome, statuses))
      ensures attempts == old(attempts) + [Attempt(block, old(statuses), outcome)]
      ensures failures == Counted(old(failures), outcome.Failure?)
    {
      var insertion := insertions(calls, block, statuses);
      calls := calls + 1;
      attempts := attempts + [Attempt(block, statuses, insertion.outcome)];
      statuses, outcome := insertion.statuses, insertion.outcome;
      failures := Counted(failures, outcome.Failure?);
    }
  }

  /** The number of failures after a call that did or did not fail. */
  ghost function Counted(failures: nat, err: bool): nat {
    if err then failures + 1 else failures
  }

  // ----- the history of one call of UnorphanBlocks -----

  ghost function Attempted(attempts: seq<Attempt>): set<Hash> {
    set a | a in attempts :: a.block.hash
  }

  ghost function InsertedBlocks(attempts: seq<Attempt>): seq<Block> {
    if attempts == [] then []
    else
      var last := attempts[|attempts| - 1];
      InsertedBlocks(attempts[..|attempts| - 1]) + if last.outcome.Inserted? then [last.block] else []
  }

  ghost function HashesOf(blocks: seq<Block>): set<Hash> {
    set b | b in blocks :: b.hash
  }

  /** Every block handed to consensus was an orphan, was handed over once, had only known parents
      at that moment, and is a child of the root or of a block inserted before. */
  ghost predicate Sound(orphans: map<Hash, Block>, root: Hash, attempts: seq<Attempt>) {
    attempts == [] ||
      var n := |attempts| - 1;
      && Sound(orphans, root, attempts[..n])
      && SoundNext(orphans, root, attempts[..n], attempts[n])
  }

  ghost predicate SoundNext(orphans: map<Hash, Block>, root: Hash, attempts: seq<Attempt>, next: Attempt) {
    && next.block.hash in orphans
    && orphans[next.block.hash] == next.block
    && next.block.hash !in Attempted(attempts)
    && ParentsKnown(next.before, next.block)
    && HasParentIn(next.block, {root} + HashesOf(InsertedBlocks(attempts)))
  }

  /** Whatever is handed to consensus has parents that are known with more than a header. */
  lemma {:induction false} SoundParents(orphans: map<Hash, Block>, root: Hash, attempts: seq<Attempt>)
    requires Sound(orphans, root, attempts)
    ensures forall k, p :: 0 <= k < |attempts| && p in attempts[k].block.parents ==>
      p in attempts[k].before && attempts[k].before[p] != HeaderOnly
    decreases |attempts|
  {
    if attempts != [] {
      var n := |attempts| - 1;
      SoundParents(orphans, root, attempts[..n]);
      assert forall k :: 0 <= k < n ==> attempts[..n][k] == attempts[k];
    }
  }

  /** No orphan outside the queue waits for nothing: if it is a child of the root or of an inserted
      block, one of its parents has no body. */
  ghost predicate Complete(orphans: map<Hash, Block>, statuses: Statuses, resolved: set<Hash>, queue: seq<Hash>) {
    forall h :: h in orphans && h !in queue && HasParentIn(orphans[h], resolved) ==>
      !ParentsHaveBodies(statuses, orphans[h])
  }

  /** The queue has no duplicates and holds orphans that are children of the root or of an inserted
      block. */
  ghost predicate QueueFits(orphans: map<Hash, Block>, resolved: set<Hash>, queue: seq<Hash>) {
    && Transactions.Distinct(queue)
    && forall h :: h in queue ==> h in orphans && HasParentIn(orphans[h], resolved)
  }

  // ----- one block leaves the queue -----

  lemma StillWaiting(orphans: map<Hash, Block>, statuses: Statuses, resolved: set<Hash>, queue: seq<Hash>)
    requires queue != [] && QueueFits(orphans, resolved, queue) && Complete(orphans, statuses, resolved, queue)
    requires !ParentsKnown(statuses, orphans[queue[0]])
    ensures QueueFits(orphans, resolved, queue[1..]) && Complete(orphans, statuses, resolved, queue[1..])
  {
    var h := queue[0];
    var p :| p in orphans[h].parents && !(p in statuses && statuses[p] != HeaderOnly);
    assert !HasBody(statuses, p);
    forall x | x in orphans && x !in queue[1..] && HasParentIn(orphans[x], resolved)
      ensures !ParentsHaveBodies(statuses, orphans[x])
    {
      if x != h {
        assert x !in queue;
      }
    }
  }

  lemma LeavesQueue(orphans: map<Hash, Block>, resolved: set<Hash>, queue: seq<Hash>)
    requires queue != [] && QueueFits(orphans, resolved, queue)
    ensures QueueFits(orphans - {queue[0]}, resolved, queue[1..])
  {
  }

  /** After an attempt, orphans that could be resolved now are children of the inserted block. */
  lemma CompleteAfterAttempt(orphans: map<Hash, Block>, before: Statuses, insertion: Insertion, resolved: set<Hash>,
                             queue: seq<Hash>)
    requires queue != [] && QueueFits(orphans, resolved, queue) && Complete(orphans, before, resolved, queue)
    requires orphans[queue[0]].hash == queue[0] && LawfulInsertion(orphans[queue[0]], before, insertion)
    ensures forall x ::
      (x in orphans - {queue[0]} && x !in queue[1..] && HasParentIn(orphans[x], resolved)
       && (insertion.outcome.Inserted? ==> queue[0] !in orphans[x].parents))
      ==> !ParentsHaveBodies(insertion.statuses, orphans[x])
  {
    var h := queue[0];
    forall x | x in orphans - {h} && x !in queue[1..] && HasParentIn(orphans[x], resolved)
        && (insertion.outcome.Inserted? ==> h !in orphans[x].parents)
      ensures !ParentsHaveBodies(insertion.statuses, orphans[x])
    {
      assert x !in queue;
      var p :| p in orphans[x].parents && !HasBody(before, p);
      assert !HasBody(insertion.statuses, p);
    }
  }

  /** The queue after an attempt, with the children of the block if it was inserted. */
  lemma AfterAttempt(orphans: map<Hash, Block>, before: Statuses, insertion: Insertion, resolved: set<Hash>,
                     queue: seq<Hash>, next: seq<Hash>)
    requires queue != [] && QueueFits(orphans, resolved, queue) && Complete(orphans, before, resolved, queue)
    requires orphans[queue[0]].hash == queue[0] && LawfulInsertion(orphans[queue[0]], before, insertion)
    requires if insertion.outcome.Inserted? then IsExtended(orphans - {queue[0]}, queue[0], queue[1..], next)
             else next == queue[1..]
    ensures var newResolved := if insertion.outcome.Inserted? then resolved + {queue[0]} else resolved;
      QueueFits(orphans - {queue[0]}, newResolved, next)
      && Complete(orphans - {queue[0]}, insertion.statuses, newResolved, next)
  {
    LeavesQueue(orphans, resolved, queue);
    CompleteAfterAttempt(orphans, before, insertion, resolved, queue);
    var rest := orphans - {queue[0]};
    if insertion.outcome.Inserted? {
      forall x | x in next ensures HasParentIn(rest[x], resolved + {queue[0]}) {
        if x in queue[1..] {
          var p :| p in rest[x].parents && p in resolved;
        }
      }
      forall x | x in rest && x !in next && HasParentIn(rest[x], resolved + {queue[0]})
        ensures !ParentsHaveBodies(insertion.statuses, rest[x])
      {
        assert queue[0] !in rest[x].parents && x !in queue[1..];
        var p :| p in rest[x].parents && p in resolved + {queue[0]};
        assert HasParentIn(orphans[x], resolved);
      }
    }
  }

  /** `next` is the queue with the orphans that are children of `h` added, each once. */
  ghost predicate IsExtended(orphans: map<Hash, Block>, h: Hash, queue: seq<Hash>, next: seq<Hash>) {
    && Transactions.Distinct(next)
    && queue <= next
    && forall x :: x in next <==> x in queue || (x in orphans && h in orphans[x].parents)
  }

  lemma SoundMore(orphans: map<Hash, Block>, root: Hash, attempts: seq<Attempt>, next: Attempt)
    requires Sound(orphans, root, attempts) && SoundNext(orphans, root, attempts, next)
    ensures Sound(orphans, root, attempts + [next])
    ensures Attempted(attempts + [next]) == Attempted(attempts) + {next.block.hash}
    ensures InsertedBlocks(attempts + [next])
         == InsertedBlocks(attempts) + if next.outcome.Inserted? then [next.block] else []
  {
    var more := attempts + [next];
    assert more[..|attempts|] == attempts;
    assert next in more;
    assert forall a :: a in more <==> a in attempts || a == next;
  }

  /** An orphan may be left whose parents are all known, if consensus found one of them invalid:
      `late` waits for `root` and `bad`, is looked at first, and `bad` turns out to be invalid. */
  lemma InvalidParentLeavesOrphan(root: Hash, bad: Block, late: Block)
    requires bad.parents == [root] && late.parents == [root, bad.hash]
    requires root != bad.hash && root != late.hash && bad.hash != late.hash
    ensures var orphans, before := map[bad.hash := bad, late.hash := late], map[root := WithBody];
      var after := before[bad.hash := Invalid];
      && QueueFits(orphans, {root}, [late.hash, bad.hash])
      && !ParentsKnown(before, late) && ParentsKnown(before, bad)
      && LawfulInsertion(bad, before, Insertion(RuleError, after))
      && Complete(orphans - {bad.hash}, after, {root}, []) && ParentsKnown(after, late)
  {
    var after := map[root := WithBody, bad.hash := Invalid];
    assert root in bad.parents && root in late.parents;
    assert bad.hash in late.parents && !HasBody(after, bad.hash);
  }

  // ----- the orphans of a node -----

  class FlowContext {
    const consensus: Consensus
    var orphans: map<Hash, Block>

    ghost predicate Valid()
      reads this
    {
      |orphans| <= MAX_ORPHANS && forall h :: h in orphans ==> orphans[h].hash == h
    }

    constructor (consensus: Consensus)
      ensures this.consensus == consensus && orphans == map[] && Valid()
    {
      this.consensus, orphans := consensus, map[];
    }

    /** Adds a block, and evicts some block if there are too many. */
    method AddOrphan(block: Block)
      requires Valid()
      modifies this
      ensures Valid()
      ensures var added := old(orphans)[block.hash := block];
        if |added| <= 600 then orphans == added
        else exists h :: h in added && orphans == added - {h}
    {
      orphans := orphans[block.hash := block];
      if |orphans| > MAX_ORPHANS {
        var h :| h in orphans;
        AddedIsLarger(old(orphans), block);
        RemovedIsSmaller(orphans, h);
        orphans := orphans - {h};
      }
    }

    method FindChildOrphansOfBlock(h: Hash) returns (children: seq<Hash>)
      ensures Transactions.Distinct(children)
      ensures forall x :: x in children <==> x in orphans && h in orphans[x].parents
    {
      children := [];
      var remaining := orphans.Keys;
      while remaining != {}
        invariant remaining <= orphans.Keys
        invariant Transactions.Distinct(children)
        invariant forall x :: x in children <==> x in orphans && x !in remaining && h in orphans[x].parents
        decreases |remaining|
      {
        var x :| x in remaining;
        remaining := remaining - {x};
        if h in orphans[x].parents {
          children := children + [x];
        }
      }
    }

    method AddChildOrphansToProcessQueue(h: Hash, queue: seq<Hash>) returns (next: seq<Hash>)
      requires Transactions.Distinct(queue)
      ensures IsExtended(orphans, h, queue, next)
    {
      var children := FindChildOrphansOfBlock(h);
      next := queue;
      for k := 0 to |children|
        invariant Transactions.Distinct(next) && queue <= next
        invariant forall x :: x in next <==> x in queue || x in children[..k]
      {
        if children[k] !in next {
          next := next + [children[k]];
        }
      }
    }

    method CanBeUnorphaned(block: Block) returns (can: bool, err: bool)
      modifies consensus`calls, consensus`failures
      ensures !err ==> (can <==> ParentsKnown(consensus.statuses, block))
      ensures consensus.failures == Counted(old(consensus.failures), err)
    {
      for k := 0 to |block.parents|
        invariant consensus.failures == old(consensus.failures)
        invariant forall j :: 0 <= j < k ==> IsKnown(consensus.statuses, block.parents[j])
      {
        var known, failed := consensus.GetBlockInfo(block.parents[k]);
        if failed {
          return false, true;
        }
        if !known {
          return false, false;
        }
      }
      return true, false;
    }

    /** unorphanBlock: takes an orphan out and hands it to consensus. A rule error is no error. */
    method UnorphanBlock(h: Hash) returns (outcome: Outcome)
      requires Valid() && consensus.Lawful() && h in orphans
      modifies this, consensus
      ensures orphans == old(orphans) - {h} && Valid()
      ensures LawfulInsertion(old(orphans[h]), old(consensus.statuses), Insertion(outcome, consensus.statuses))
      ensures consensus.attempts
           == old(consensus.attempts) + [Attempt(old(orphans[h]), old(consensus.statuses), outcome)]
      ensures consensus.failures == Counted(old(consensus.failures), outcome.Failure?)
    {
      var block := orphans[h];
      RemovedIsSmaller(orphans, h);
      orphans := orphans - {h};
      outcome := consensus.ValidateAndInsertBlock(block);
    }

    /** Where the loop of UnorphanBlocks stands, after the given attempts. */
    ghost predicate Progressed(orphansBefore: map<Hash, Block>, base: seq<Attempt>, root: Hash, attempts: seq<Attempt>)
      reads this, consensus`attempts
    {
      && Valid()
      && Sound(orphansBefore, root, attempts)
      && orphans == orphansBefore - Attempted(attempts)
      && consensus.attempts == base + attempts
    }

    ghost predicate QueueIs(root: Hash, attempts: seq<Attempt>, queue: seq<Hash>)
      reads this, consensus
    {
      && QueueFits(orphans, Resolved(root, attempts), queue)
      && Complete(orphans, consensus.statuses, Resolved(root, attempts), queue)
    }

    /** The first block of the queue has only known parents and is handed to consensus. */
    method AttemptFirst(queue: seq<Hash>, ghost orphansBefore: map<Hash, Block>, ghost base: seq<Attempt>,
                        ghost root: Hash, ghost attempts: seq<Attempt>)
      returns (next: seq<Hash>, inserted: seq<Block>, err: bool, ghost attempt: Attempt)
      requires consensus.Lawful() && queue != []
      requires Progressed(orphansBefore, base, root, attempts) && QueueIs(root, attempts, queue)
      requires ParentsKnown(consensus.statuses, orphans[queue[0]])
      modifies this, consensus
      ensures Progressed(orphansBefore, base, root, attempts + [attempt])
      ensures InsertedBlocks(attempts + [attempt]) == InsertedBlocks(attempts) + inserted
      ensures !err ==> QueueIs(root, attempts + [attempt], next)
      ensures consensus.failures == Counted(old(consensus.failures), err)
      ensures |orphans| < old(|orphans|)
    {
      hide Complete, Sound, InsertedBlocks, Attempted, HashesOf;
      var h := queue[0];
      var block := orphans[h];
      ghost var statuses := consensus.statuses;
      RemovedIsSmaller(orphans, h);
      var outcome := UnorphanBlock(h);
      attempt := Attempt(block, statuses, outcome);
      SoundMore(orphansBefore, root, attempts, attempt);
      RemovedMore(orphansBefore, Attempted(attempts), h);
      ResolvedMore(root, attempts, attempt);
      assert base + attempts + [attempt] == base + (attempts + [attempt]);
      next, inserted, err := queue[1..], [], outcome.Failure?;
      if outcome.Inserted? {
        inserted := [block];
        next := AddChildOrphansToProcessQueue(h, next);
      }
      AfterAttempt(old(orphans), statuses, Insertion(outcome, consensus.statuses), Resolved(root, attempts), queue,
                   next);
    }

    /** One turn of the loop of UnorphanBlocks. */
    method ProcessNext(queue: seq<Hash>, ghost orphansBefore: map<Hash, Block>, ghost base: seq<Attempt>,
                       ghost root: Hash, ghost attempts: seq<Attempt>)
      returns (next: seq<Hash>, inserted: seq<Block>, err: bool, ghost newAttempts: seq<Attempt>)
      requires consensus.Lawful() && queue != []
      requires Progressed(orphansBefore, base, root, attempts) && QueueIs(root, attempts, queue)
      modifies this, consensus
      ensures Progressed(orphansBefore, base, root, newAttempts)
      ensures InsertedBlocks(newAttempts) == InsertedBlocks(attempts) + inserted
      ensures !err ==> QueueIs(root, newAttempts, next)
      ensures consensus.failures == Counted(old(consensus.failures), err)
      ensures |orphans| < old(|orphans|) || (orphans == old(orphans) && |next| < |queue|)
    {
      hide Complete, Sound, InsertedBlocks;
      next, inserted, newAttempts := queue[1..], [], attempts;
      var can;
      can, err := CanBeUnorphaned(orphans[queue[0]]);
      if err {
        return;
      }
      if !can {
        StillWaiting(orphans, consensus.statuses, Resolved(root, attempts), queue);
        return;
      }
      ghost var attempt;
      next, inserted, err, attempt := AttemptFirst(queue, orphansBefore, base, root, attempts);
      newAttempts := attempts + [attempt];
    }

    /** Hands orphans to consensus that may have got their last missing parent with `rootBlock`.
        Without an error, no orphan is left that is a child of the root or of an inserted block and
        whose parents all have bodies. */
    method UnorphanBlocks(rootBlock: Block) returns (results: seq<Block>, err: bool, ghost attempts: seq<Attempt>)
      requires Valid() && consensus.Lawful()
      modifies this, consensus
      ensures Valid()
      ensures consensus.attempts == old(consensus.attempts) + attempts
      ensures Sound(old(orphans), rootBlock.hash, attempts)
      ensures orphans == old(orphans) - Attempted(attempts)
      ensures if err then results == [] else results == InsertedBlocks(attempts)
      ensures !err ==> Complete(orphans, consensus.statuses, Resolved(rootBlock.hash, attempts), [])
      ensures forall k, p :: 0 <= k < |attempts| && p in attempts[k].block.parents ==>
        p in attempts[k].before && attempts[k].before[p] != HeaderOnly
      ensures consensus.failures == Counted(old(consensus.failures), err)
    {
      hide Complete, Sound, InsertedBlocks, QueueFits;
      ghost var root, base := rootBlock.hash, consensus.attempts;
      attempts, results, err := [], [], false;
      var queue := AddChildOrphansToProcessQueue(rootBlock.hash, []);
      StartsWithChildren(orphans, consensus.statuses, root, queue);
      while queue != []
        invariant Progressed(old(orphans), base, root, attempts) && QueueIs(root, attempts, queue)
        invariant results == InsertedBlocks(attempts) && consensus.failures == old(consensus.failures) && !err
        decreases |orphans|, |queue|
      {
        var inserted;
        queue, inserted, err, attempts := ProcessNext(queue, old(orphans), base, root, attempts);
        if err {
          SoundParents(old(orphans), root, attempts);
          return [], true, attempts;
        }
        results := results + inserted;
      }
      SoundParents(old(orphans), root, attempts);
    }

    /** Queues the parents that were not queued before. */
    method QueueParents(parents: seq<Hash>, queue: seq<Hash>, added: set<Hash>)
      returns (newQueue: seq<Hash>, newAdded: set<Hash>)
      requires Transactions.Distinct(queue) && forall h :: h in queue ==> h in added
      ensures Transactions.Distinct(newQueue) && queue <= newQueue
      ensures forall h :: h in newAdded <==> h in added || h in parents
      ensures forall h :: h in newQueue <==> h in queue || (h in parents && h !in added)
      ensures newAdded != added || newQueue == queue
    {
      newQueue, newAdded := queue, added;
      for k := 0 to |parents|
        invariant Transactions.Distinct(newQueue) && queue <= newQueue
        invariant forall h :: h in newAdded <==> h in added || h in parents[..k]
        invariant forall h :: h in newQueue <==> h in queue || (h in parents[..k] && h !in added)
        invariant newAdded != added || newQueue == queue
      {
        if parents[k] !in newAdded {
          newQueue, newAdded := newQueue + [parents[k]], newAdded + {parents[k]};
        }
      }
    }

    /** The missing blocks that the parent links lead to from an orphan, through orphans. */
    method GetOrphanRoots(orphan: Hash) returns (roots: seq<Hash>, isOrphan: bool, err: bool)
      modifies consensus`calls, consensus`failures
      ensures orphan !in orphans ==> !isOrphan && !err && roots == []
      ensures orphan in orphans && !err ==> isOrphan && Transactions.Distinct(roots)
      ensures orphan in orphans && !err ==>
        forall h :: h in roots <==> IsMissingRoot(orphans, consensus.statuses, orphan, h)
      ensures consensus.failures == Counted(old(consensus.failures), err)
    {
      if orphan !in orphans {
        return [], false, false;
      }
      var queue, added := [orphan], {orphan};
      roots := [];
      ReachesSelf(ParentLinks(orphans), orphan);
      while queue != []
        invariant Explored(orphans, orphan, queue, added)
        invariant RootsAre(orphans, consensus.statuses, queue, added, roots)
        invariant consensus.failures == old(consensus.failures)
        decreases AllHashes(orphans, orphan) - added, |queue|
      {
        var current := queue[0];
        if current !in orphans {
          var known, failed := consensus.GetBlockInfo(current);
          if failed {
            return [], false, true;
          }
          RootsAfterLeaf(orphans, consensus.statuses, orphan, queue, added, roots);
          if !known {
            roots := roots + [current];
          }
          queue := queue[1..];
        } else {
          var newQueue, newAdded := QueueParents(orphans[current].parents, queue[1..], added);
          ExploredMore(orphans, consensus.statuses, orphan, queue, added, roots, newQueue, newAdded);
          queue, added := newQueue, newAdded;
        }
      }
      ExploredAll(orphans, consensus.statuses, orphan, added, roots);
      return roots, true, false;
    }
  }

  // ----- exploring the missing ancestors -----

  ghost function ParentLinks(orphans: map<Hash, Block>): (Hash, Hash) -> bool {
    (a: Hash, b: Hash) => a in orphans && b in orphans[a].parents
  }

  ghost predicate IsMissingRoot(orphans: map<Hash, Block>, statuses: Statuses, orphan: Hash, h: Hash) {
    && Reaches(ParentLinks(orphans), orphan, h)
    && h !in orphans
    && (h !in statuses || statuses[h] == HeaderOnly)
  }

  ghost function AllHashes(orphans: map<Hash, Block>, orphan: Hash): set<Hash> {
    {orphan} + set a, b | a in orphans && b in orphans[a].parents :: b
  }

  /** What was added is reached from the orphan, and what left the queue has its parents added. */
  ghost predicate Explored(orphans: map<Hash, Block>, orphan: Hash, queue: seq<Hash>, added: set<Hash>) {
    && orphan in added
    && added <= AllHashes(orphans, orphan)
    && Transactions.Distinct(queue)
    && (forall h :: h in queue ==> h in added)
    && (forall h :: h in added ==> Reaches(ParentLinks(orphans), orphan, h))
    && (forall a, b :: a in added && a !in queue && ParentLinks(orphans)(a, b) ==> b in added)
  }

  ghost predicate RootsAre(orphans: map<Hash, Block>, statuses: Statuses, queue: seq<Hash>, added: set<Hash>,
                           roots: seq<Hash>) {
    && Transactions.Distinct(roots)
    && forall h :: h in roots <==> h in added && h !in queue && h !in orphans && !IsKnown(statuses, h)
  }

  lemma RootsAfterLeaf(orphans: map<Hash, Block>, statuses: Statuses, orphan: Hash, queue: seq<Hash>, added: set<Hash>,
                       roots: seq<Hash>)
    requires queue != [] && queue[0] !in orphans
    requires Explored(orphans, orphan, queue, added) && RootsAre(orphans, statuses, queue, added, roots)
    ensures Explored(orphans, orphan, queue[1..], added)
    ensures RootsAre(orphans, statuses, queue[1..], added,
                     if IsKnown(statuses, queue[0]) then roots else roots + [queue[0]])
  {
    LeavesOnce(queue);
  }

  lemma LeavesOnce(queue: seq<Hash>)
    requires queue != [] && Transactions.Distinct(queue)
    ensures forall h :: h in queue <==> h == queue[0] || h in queue[1..]
    ensures queue[0] !in queue[1..] && Transactions.Distinct(queue[1..])
  {
  }

  lemma ExploredMore(orphans: map<Hash, Block>, statuses: Statuses, orphan: Hash, queue: seq<Hash>, added: set<Hash>,
                     roots: seq<Hash>, newQueue: seq<Hash>, newAdded: set<Hash>)
    requires queue != [] && queue[0] in orphans
    requires Explored(orphans, orphan, queue, added) && RootsAre(orphans, statuses, queue, added, roots)
    requires Transactions.Distinct(newQueue)
    requires forall h :: h in newAdded <==> h in added || h in orphans[queue[0]].parents
    requires forall h :: h in newQueue <==> h in queue[1..] || (h in orphans[queue[0]].parents && h !in added)
    ensures Explored(orphans, orphan, newQueue, newAdded) && RootsAre(orphans, statuses, newQueue, newAdded, roots)
  {
    var current := queue[0];
    LeavesOnce(queue);
    forall h | h in newAdded ensures Reaches(ParentLinks(orphans), orphan, h) {
      if h !in added {
        ReachesStep(ParentLinks(orphans), orphan, current, h);
      }
    }
  }

  lemma ExploredAll(orphans: map<Hash, Block>, statuses: Statuses, orphan: Hash, added: set<Hash>, roots: seq<Hash>)
    requires Explored(orphans, orphan, [], added) && RootsAre(orphans, statuses, [], added, roots)
    ensures forall h :: h in roots <==> IsMissingRoot(orphans, statuses, orphan, h)
  {
    forall h | IsMissingRoot(orphans, statuses, orphan, h) ensures h in roots {
      ReachesStaysInside(ParentLinks(orphans), (x: Hash) => x in added, orphan, h);
    }
  }

  lemma StartsWithChildren(orphans: map<Hash, Block>, statuses: Statuses, root: Hash, queue: seq<Hash>)
    requires IsExtended(orphans, root, [], queue)
    ensures Sound(orphans, root, []) && InsertedBlocks([]) == [] && orphans == orphans - Attempted([])
    ensures QueueFits(orphans, Resolved(root, []), queue) && Complete(orphans, statuses, Resolved(root, []), queue)
  {
  }

  /** The root and the blocks inserted so far. */
  ghost function Resolved(root: Hash, attempts: seq<Attempt>): set<Hash> {
    {root} + HashesOf(InsertedBlocks(attempts))
  }

  lemma ResolvedMore(root: Hash, attempts: seq<Attempt>, next: Attempt)
    ensures Resolved(root, attempts + [next])
         == if next.outcome.Inserted? then Resolved(root, attempts) + {next.block.hash} else Resolved(root, attempts)
  {
    assert (attempts + [next])[..|attempts|] == attempts;
    var blocks := InsertedBlocks(attempts);
    assert HashesOf(blocks + [next.block]) == HashesOf(blocks) + {next.block.hash} by {
      assert forall b :: b in blocks + [next.block] <==> b in blocks || b == next.block;
      assert next.block in blocks + [next.block];
    }
  }

  lemma RemovedMore(orphans: map<Hash, Block>, removed: set<Hash>, h: Hash)
    ensures orphans - removed - {h} == orphans - (removed + {h})
  {
  }

  lemma AddedIsLarger(orphans: map<Hash, Block>, block: Block)
    ensures |orphans[block.hash := block]| <= |orphans| + 1
  {
    assert orphans[block.hash := block].Keys == orphans.Keys + {block.hash};
  }

  lemma RemovedIsSmaller(orphans: map<Hash, Block>, h: Hash)
    requires h in orphans
    ensures |orphans - {h}| == |orphans| - 1
  {
    assert (orphans - {h}).Keys == orphans.Keys - {h};
  }
}

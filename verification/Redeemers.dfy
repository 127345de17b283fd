/** Removing a transaction together with everything that transitively redeems it,
    one redeemer at a time. Shared by the mempool and the orphan pool. */
module Redeemers {
  import opened Reachability
  import opened Transactions

  ghost predicate SubMap<K(!new), V>(small: map<K, V>, big: map<K, V>) {
    forall k :: k in small ==> k in big && small[k] == big[k]
  }

  /** `left` is `before` without `root` and without exactly the transactions that
      transitively redeem it. */
  ghost predicate IsWithoutClosure(before: map<TxId, Transaction>, root: TxId, left: map<TxId, Transaction>) {
    && SubMap(left, before)
    && forall x :: x in before ==> (x in left <==> !Reaches(RedeemEdges(before), root, x))
  }

  /** On the way there: all that is gone is reached from `root`, and nothing left
      redeems what is gone, `root` itself excepted. */
  ghost predicate Pruning(before: map<TxId, Transaction>, root: TxId, left: map<TxId, Transaction>) {
    && SubMap(left, before) && root !in left
    && (forall x :: x in before && x !in left ==> Reaches(RedeemEdges(before), root, x))
    && (forall a, b :: a in before && a !in left && a != root && b in left ==> !Redeems(before, a, b))
  }

  lemma PruningStarts(before: map<TxId, Transaction>, root: TxId)
    requires root in before
    ensures Pruning(before, root, before - {root})
  {
    ReachesSelf(RedeemEdges(before), root);
  }

  /** Removing the closure of a redeemer of `root`, computed in any stage `stage` in between. */
  lemma PruningStep(before: map<TxId, Transaction>, root: TxId, left: map<TxId, Transaction>,
                    stage: map<TxId, Transaction>, redeemer: TxId, left': map<TxId, Transaction>)
    requires Pruning(before, root, left) && Redeems(before, root, redeemer)
    requires SubMap(left, stage) && SubMap(stage, before) && SubMap(left', left)
    requires forall x :: x in left ==> (x in left' <==> !Reaches(RedeemEdges(stage), redeemer, x))
    ensures Pruning(before, root, left')
  {
    forall x | x in before && x !in left' ensures Reaches(RedeemEdges(before), root, x) {
      if x in left {
        ReachesFromSuccessor(RedeemEdges(before), RedeemEdges(stage), root, redeemer, x);
      }
    }
    forall a, b | a in before && a !in left' && a != root && b in left' ensures !Redeems(before, a, b) {
      if a in left && Redeems(before, a, b) {
        assert RedeemEdges(stage)(a, b);
        ReachesStep(RedeemEdges(stage), redeemer, a, b);
        assert false;
      }
    }
  }

  lemma PruningEnds(before: map<TxId, Transaction>, root: TxId, left: map<TxId, Transaction>)
    requires Pruning(before, root, left)
    requires forall b :: b in left ==> !Redeems(before, root, b)
    ensures IsWithoutClosure(before, root, left)
  {
    forall x | x in left ensures !Reaches(RedeemEdges(before), root, x) {
      if Reaches(RedeemEdges(before), root, x) {
        ReachesStaysInside(RedeemEdges(before), y => y !in left, root, x);
        assert false;
      }
    }
  }

  /** `left` is `before` without exactly what `seeds` reach. */
  ghost predicate IsWithoutClosureOf(before: map<TxId, Transaction>, seeds: set<TxId>, left: map<TxId, Transaction>) {
    && SubMap(left, before)
    && forall x :: x in before ==> (x in left <==> forall s :: s in seeds ==> !Reaches(RedeemEdges(before), s, x))
  }

  lemma GoneIsClosed(before: map<TxId, Transaction>, seeds: set<TxId>, left: map<TxId, Transaction>, a: TxId, b: TxId)
    requires IsWithoutClosureOf(before, seeds, left)
    requires a !in left && Redeems(before, a, b)
    ensures b !in left
  {
    var s :| s in seeds && Reaches(RedeemEdges(before), s, a);
    ReachesStep(RedeemEdges(before), s, a, b);
  }

  /** Whatever a removed transaction reaches is removed too. */
  lemma GoneReachesGone(before: map<TxId, Transaction>, seeds: set<TxId>, left: map<TxId, Transaction>, a: TxId,
                        b: TxId)
    requires IsWithoutClosureOf(before, seeds, left)
    requires a !in left && Reaches(RedeemEdges(before), a, b)
    ensures b !in left
  {
    forall x, y | x !in left && RedeemEdges(before)(x, y) ensures y !in left {
      GoneIsClosed(before, seeds, left, x, y);
    }
    ReachesStaysInside(RedeemEdges(before), x => x !in left, a, b);
  }

  lemma ClosureStarts(before: map<TxId, Transaction>)
    ensures IsWithoutClosureOf(before, {}, before)
  {
  }

  /** Removing one more closure, computed in what is left. */
  lemma ClosureStep(before: map<TxId, Transaction>, seeds: set<TxId>, left: map<TxId, Transaction>,
                    s: TxId, left': map<TxId, Transaction>)
    requires IsWithoutClosureOf(before, seeds, left) && s in left && IsWithoutClosure(left, s, left')
    ensures IsWithoutClosureOf(before, seeds + {s}, left')
  {
    ReachesSelf(RedeemEdges(left), s);
    forall x, y | x !in left' && RedeemEdges(before)(x, y) ensures y !in left' {
      if x !in left {
        GoneIsClosed(before, seeds, left, x, y);
      } else if y in left {
        assert RedeemEdges(left)(x, y);
        ReachesStep(RedeemEdges(left), s, x, y);
      }
    }
    forall x | x in before
      ensures x in left' <==> forall t :: t in seeds + {s} ==> !Reaches(RedeemEdges(before), t, x)
    {
      if x in left' {
        if Reaches(RedeemEdges(before), s, x) {
          ReachesStaysInside(RedeemEdges(before), y => y !in left', s, x);
          assert false;
        }
      } else if x in left {
        ReachesMore(RedeemEdges(left), RedeemEdges(before), s, x);
      }
    }
  }

  /** Seeds that are themselves gone change nothing. */
  lemma ClosureOfMoreSeeds(before: map<TxId, Transaction>, seeds: set<TxId>, seeds': set<TxId>,
                           left: map<TxId, Transaction>)
    requires IsWithoutClosureOf(before, seeds, left)
    requires seeds <= seeds' && forall s :: s in seeds' ==> s !in left
    ensures IsWithoutClosureOf(before, seeds', left)
  {
    forall x, s | x in left && s in seeds' ensures !Reaches(RedeemEdges(before), s, x) {
      if Reaches(RedeemEdges(before), s, x) {
        GoneReachesGone(before, seeds, left, s, x);
        assert false;
      }
    }
  }

  lemma GoneThenClosed(before: map<TxId, Transaction>, seeds: set<TxId>, left: map<TxId, Transaction>,
                       more: set<TxId>, left': map<TxId, Transaction>, a: TxId, b: TxId)
    requires IsWithoutClosureOf(before, seeds, left) && IsWithoutClosureOf(left, more, left')
    requires a !in left' && Redeems(before, a, b)
    ensures b !in left'
  {
    if a !in left {
      GoneIsClosed(before, seeds, left, a, b);
    } else if b in left {
      assert Redeems(left, a, b);
      GoneIsClosed(left, more, left', a, b);
    }
  }

  lemma KeptThenUnreached(before: map<TxId, Transaction>, seeds: set<TxId>, left: map<TxId, Transaction>,
                          more: set<TxId>, left': map<TxId, Transaction>, s: TxId, x: TxId)
    requires IsWithoutClosureOf(before, seeds, left) && IsWithoutClosureOf(left, more, left')
    requires s in more && s in left && x in left'
    ensures !Reaches(RedeemEdges(before), s, x)
  {
    ReachesSelf(RedeemEdges(left), s);
    assert s !in left';
    forall a, b | a !in left' && RedeemEdges(before)(a, b) ensures b !in left' {
      GoneThenClosed(before, seeds, left, more, left', a, b);
    }
    if Reaches(RedeemEdges(before), s, x) {
      ReachesStaysInside(RedeemEdges(before), y => y !in left', s, x);
      assert false;
    }
  }

  lemma GoneThenReached(before: map<TxId, Transaction>, left: map<TxId, Transaction>, more: set<TxId>,
                        left': map<TxId, Transaction>, x: TxId)
    requires SubMap(left, before) && IsWithoutClosureOf(left, more, left') && x in left && x !in left'
    ensures exists s :: s in more && Reaches(RedeemEdges(before), s, x)
  {
    var s :| s in more && Reaches(RedeemEdges(left), s, x);
    ReachesMore(RedeemEdges(left), RedeemEdges(before), s, x);
  }

  /** Removing the closures of two sets of seeds, the second computed in what the first left. */
  lemma ClosureThen(before: map<TxId, Transaction>, seeds: set<TxId>, left: map<TxId, Transaction>,
                    more: set<TxId>, left': map<TxId, Transaction>)
    requires IsWithoutClosureOf(before, seeds, left) && IsWithoutClosureOf(left, more, left') && more <= left.Keys
    ensures IsWithoutClosureOf(before, seeds + more, left')
  {
    forall x | x in before
      ensures x in left' <==> forall s :: s in seeds + more ==> !Reaches(RedeemEdges(before), s, x)
    {
      if x in left' {
        forall s | s in more ensures !Reaches(RedeemEdges(before), s, x) {
          KeptThenUnreached(before, seeds, left, more, left', s, x);
        }
      } else if x in left {
        GoneThenReached(before, left, more, left', x);
      }
    }
  }

  lemma SubMapIsSmaller<K(!new), V>(small: map<K, V>, big: map<K, V>)
    requires SubMap(small, big)
    ensures |small| <= |big|
    decreases small.Keys
  {
    if small != map[] {
      var k :| k in small;
      SubMapIsSmaller(small - {k}, big - {k});
    }
  }

  lemma ClosureIsSmaller(before: map<TxId, Transaction>, root: TxId, left: map<TxId, Transaction>)
    requires root in before && IsWithoutClosure(before, root, left)
    ensures root !in left && |left| < |before|
  {
    ReachesSelf(RedeemEdges(before), root);
    SubMapIsSmaller(left, before - {root});
  }
}

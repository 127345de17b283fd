/** domain/miningmanager/blocktemplatebuilder/txselection.go: drawing the transactions of a
    block at random, in proportion to their weights. Weights are real numbers, and the random
    draws are a parameter. */
module TxSelection {
  import opened Powers

  /** A candidate, with its weight and the range of draws that hit it. */
  class CandidateTx {
    const tx: nat
    const subnetwork: nat
    const mass: Word64
    const fee: Word64
    const txValue: real
    var p: real
    var start: real
    var end: real
    var isMarkedForDeletion: bool
  }

  const REBALANCE_THRESHOLD := 0.95

  ghost predicate Distinct(cs: seq<CandidateTx>) {
    forall i, j :: 0 <= i < j < |cs| ==> cs[i] != cs[j]
  }

  ghost function Marks(cs: seq<CandidateTx>): (marks: seq<bool>)
    reads cs`isMarkedForDeletion
    ensures |marks| == |cs| && forall k :: 0 <= k < |cs| ==> marks[k] == cs[k].isMarkedForDeletion
  {
    if cs == [] then [] else Marks(cs[..|cs| - 1]) + [cs[|cs| - 1].isMarkedForDeletion]
  }

  // ----- weights -----

  /** The sum of the first `k` weights. */
  ghost function Total(ws: seq<real>, k: nat): real
    requires k <= |ws|
  {
    if k == 0 then 0.0 else Total(ws, k - 1) + ws[k - 1]
  }

  /** The ranges of the candidates are `ws` wide and lie one after another. */
  ghost predicate Balanced(cs: seq<CandidateTx>, ws: seq<real>, totalP: real)
    reads cs`p, cs`start, cs`end
  {
    && |ws| == |cs|
    && totalP == Total(ws, |ws|)
    && forall k :: 0 <= k < |cs| ==> Ranged(cs[k], ws, k)
  }

  ghost predicate Ranged(c: CandidateTx, ws: seq<real>, k: nat)
    requires k < |ws|
    reads c`p, c`start, c`end
  {
    ws[k] >= 0.0 && c.p == ws[k] && c.start == Total(ws, k) && c.end == Total(ws, k) + ws[k]
  }

  /** The weights before ranges are assigned: at first the cubes of the values, later the weights
      the candidates have. */
  ghost function Weights(cs: seq<CandidateTx>, isFirstRun: bool): (ws: seq<real>)
    reads cs`p
    ensures |ws| == |cs| && forall k :: 0 <= k < |cs| ==> ws[k] == Weight(cs[k], isFirstRun)
  {
    if cs == [] then [] else Weights(cs[..|cs| - 1], isFirstRun) + [Weight(cs[|cs| - 1], isFirstRun)]
  }

  ghost function Weight(c: CandidateTx, isFirstRun: bool): real
    reads c`p
  {
    if isFirstRun then Cube(c.txValue) else c.p
  }

  function Cube(x: real): real {
    x * x * x
  }

  ghost function MarkedCount(marks: seq<bool>): nat {
    if marks == [] then 0
    else MarkedCount(marks[..|marks| - 1]) + if marks[|marks| - 1] then 1 else 0
  }

  /** The weight of the marked candidates. */
  ghost function MarkedTotal(ws: seq<real>, marks: seq<bool>): real
    requires |ws| == |marks|
  {
    if marks == [] then 0.0
    else MarkedTotal(ws[..|ws| - 1], marks[..|marks| - 1]) + if marks[|marks| - 1] then ws[|ws| - 1] else 0.0
  }

  lemma {:induction false} MarkOne(ws: seq<real>, marks: seq<bool>, i: nat)
    requires |ws| == |marks| && i < |marks| && !marks[i]
    ensures MarkedCount(marks[i := true]) == MarkedCount(marks) + 1
    ensures MarkedTotal(ws, marks[i := true]) == MarkedTotal(ws, marks) + ws[i]
    decreases |marks|
  {
    var n := |marks| - 1;
    if i == n {
      assert marks[i := true][..n] == marks[..n];
    } else {
      assert marks[i := true][..n] == marks[..n][i := true];
      MarkOne(ws[..n], marks[..n], i);
    }
  }

  lemma {:induction false} CountOfMarks(marks: seq<bool>)
    ensures MarkedCount(marks) <= |marks|
    ensures MarkedCount(marks) == |marks| <==> forall k :: 0 <= k < |marks| ==> marks[k]
    decreases |marks|
  {
    if marks != [] {
      var n := |marks| - 1;
      CountOfMarks(marks[..n]);
      assert forall k :: 0 <= k < n ==> marks[..n][k] == marks[k];
    }
  }

  lemma {:induction false} NothingMarked(ws: seq<real>, marks: seq<bool>)
    requires |ws| == |marks| && forall k :: 0 <= k < |marks| ==> !marks[k]
    ensures MarkedCount(marks) == 0 && MarkedTotal(ws, marks) == 0.0
    decreases |marks|
  {
    if marks != [] {
      var n := |marks| - 1;
      NothingMarked(ws[..n], marks[..n]);
    }
  }

  // ----- finding the candidate of a draw -----

  /** findTx: always stops, inside the list, on a candidate whose range holds the draw. */
  method FindTx(cs: seq<CandidateTx>, r: real, ghost ws: seq<real>, ghost totalP: real) returns (index: nat)
    requires cs != [] && Balanced(cs, ws, totalP) && 0.0 <= r <= totalP
    ensures index < |cs| && cs[index].start <= r <= cs[index].end
  {
    var min, max := 0, |cs| - 1;
    while true
      invariant 0 <= min <= max + 1 <= |cs|
      invariant min > 0 ==> Total(ws, min) < r
      invariant max < |cs| - 1 ==> Total(ws, max + 1) > r
      decreases max + 1 - min
    {
      assert min <= max;
      var i := (min + max) / 2;
      if cs[i].end < r {
        min := i + 1;
      } else if cs[i].start > r {
        max := i - 1;
      } else {
        return i;
      }
    }
  }

  // ----- rebalancing -----

  /** The candidates that are not marked, in their order. */
  ghost function Unmarked(cs: seq<CandidateTx>): (rest: seq<CandidateTx>)
    reads cs`isMarkedForDeletion
    ensures forall c :: c in rest ==> c in cs && !c.isMarkedForDeletion
    ensures forall c :: c in cs && !c.isMarkedForDeletion ==> c in rest
  {
    if cs == [] then []
    else
      var rest := Unmarked(cs[..|cs| - 1]);
      if cs[|cs| - 1].isMarkedForDeletion then rest else rest + [cs[|cs| - 1]]
  }

  lemma {:induction false} UnmarkedDistinct(cs: seq<CandidateTx>)
    requires Distinct(cs)
    ensures Distinct(Unmarked(cs))
    decreases |cs|
  {
    if cs != [] {
      var n := |cs| - 1;
      UnmarkedDistinct(cs[..n]);
      assert cs[n] !in cs[..n];
    }
  }

  method DropMarked(cs: seq<CandidateTx>) returns (rest: seq<CandidateTx>)
    ensures rest == Unmarked(cs)
  {
    rest := [];
    for k := 0 to |cs|
      invariant rest == Unmarked(cs[..k])
    {
      assert cs[..k + 1][..k] == cs[..k];
      if !cs[k].isMarkedForDeletion {
        rest := rest + [cs[k]];
      }
    }
    assert cs[..|cs|] == cs;
  }

  method AssignRange(c: CandidateTx, isFirstRun: bool, totalP: real, ghost ws: seq<real>, ghost k: nat)
    returns (newTotal: real)
    requires k < |ws| && ws[k] == Weight(c, isFirstRun) && ws[k] >= 0.0 && totalP == Total(ws, k)
    modifies c`p, c`start, c`end
    ensures Ranged(c, ws, k) && newTotal == Total(ws, k + 1)
  {
    if isFirstRun {
      c.p := Cube(c.txValue);
    }
    c.start := totalP;
    c.end := totalP + c.p;
    newTotal := totalP + c.p;
  }

  lemma CubePositive(x: real)
    requires x >= 0.0
    ensures Cube(x) >= 0.0
  {
  }

  ghost predicate RangedUpTo(cs: seq<CandidateTx>, ws: seq<real>, n: nat)
    requires n <= |cs| == |ws|
    reads cs`p, cs`start, cs`end
  {
    forall k :: 0 <= k < n ==> Ranged(cs[k], ws, k)
  }

  ghost predicate WaitingFrom(cs: seq<CandidateTx>, ws: seq<real>, n: nat, isFirstRun: bool)
    requires n <= |cs| == |ws|
    reads cs`p
  {
    forall k :: n <= k < |cs| ==> ws[k] >= 0.0 && ws[k] == Weight(cs[k], isFirstRun)
  }

  method AssignNext(cs: seq<CandidateTx>, isFirstRun: bool, totalP: real, n: nat, ghost ws: seq<real>)
    returns (newTotal: real)
    requires Distinct(cs) && n < |cs| == |ws|
    requires totalP == Total(ws, n) && RangedUpTo(cs, ws, n) && WaitingFrom(cs, ws, n, isFirstRun)
    modifies cs`p, cs`start, cs`end
    ensures newTotal == Total(ws, n + 1) && RangedUpTo(cs, ws, n + 1) && WaitingFrom(cs, ws, n + 1, isFirstRun)
  {
    var c := cs[n];
    assert forall k :: 0 <= k < |cs| && k != n ==> cs[k] != c;
    newTotal := AssignRange(c, isFirstRun, totalP, ws, n);
  }

  lemma WeightsWait(cs: seq<CandidateTx>, isFirstRun: bool)
    requires WeightsKnown(cs, isFirstRun)
    ensures WaitingFrom(cs, Weights(cs, isFirstRun), 0, isFirstRun)
  {
  }

  /** Every candidate gets a range as wide as its weight. */
  method AssignRanges(cs: seq<CandidateTx>, isFirstRun: bool, ghost ws: seq<real>) returns (totalP: real)
    requires Distinct(cs) && |ws| == |cs| && WaitingFrom(cs, ws, 0, isFirstRun)
    modifies cs`p, cs`start, cs`end
    ensures Balanced(cs, ws, totalP)
  {
    hide Distinct, Weight, Ranged;
    totalP := 0.0;
    var n := 0;
    while n < |cs|
      invariant n <= |cs|
      invariant totalP == Total(ws, n) && RangedUpTo(cs, ws, n) && WaitingFrom(cs, ws, n, isFirstRun)
    {
      totalP := AssignNext(cs, isFirstRun, totalP, n, ws);
      n := n + 1;
    }
  }

  ghost predicate WeightsKnown(cs: seq<CandidateTx>, isFirstRun: bool)
    reads cs`p
  {
    forall c :: c in cs ==> Weight(c, isFirstRun) >= 0.0
  }

  lemma WeightsKnownOfSome(all: seq<CandidateTx>, cs: seq<CandidateTx>, isFirstRun: bool)
    requires WeightsKnown(all, isFirstRun) && forall k :: 0 <= k < |cs| ==> cs[k] in all
    ensures WeightsKnown(cs, isFirstRun)
  {
  }

  /** rebalanceCandidates: the unmarked candidates, with their ranges one after another. */
  method RebalanceCandidates(candidates: seq<CandidateTx>, isFirstRun: bool)
    returns (cs: seq<CandidateTx>, totalP: real, ghost ws: seq<real>)
    requires Distinct(candidates) && WeightsKnown(candidates, isFirstRun)
    modifies candidates`p, candidates`start, candidates`end
    ensures cs == Unmarked(candidates) && Distinct(cs) && ws == old(Weights(cs, isFirstRun)) && Balanced(cs, ws, totalP)
  {
    hide Weights, Weight, Balanced, Distinct, WaitingFrom, Total;
    cs := DropMarked(candidates);
    UnmarkedDistinct(candidates);
    assert forall k :: 0 <= k < |cs| ==> cs[k] in candidates;
    ws := Weights(cs, isFirstRun);
    WeightsKnownOfSome(candidates, cs, isFirstRun);
    WeightsWait(cs, isFirstRun);
    totalP := AssignRanges(cs, isFirstRun, ws);
  }

  // ----- selection -----

  /** The candidates are laid out, and the marked ones among them are accounted for. */
  ghost predicate Accounted(cs: seq<CandidateTx>, ws: seq<real>, totalP: real, usedCount: nat, usedP: real)
    reads cs
  {
    && Distinct(cs)
    && Balanced(cs, ws, totalP)
    && usedCount == MarkedCount(Marks(cs))
    && usedP == MarkedTotal(ws, Marks(cs))
  }

  lemma FreshlyBalanced(cs: seq<CandidateTx>, ws: seq<real>, totalP: real)
    requires Distinct(cs) && Balanced(cs, ws, totalP) && forall c :: c in cs ==> !c.isMarkedForDeletion
    ensures Accounted(cs, ws, totalP, 0, 0.0)
  {
    NothingMarked(ws, Marks(cs));
  }

  lemma BalancedWeights(cs: seq<CandidateTx>, ws: seq<real>, totalP: real)
    requires Balanced(cs, ws, totalP)
    ensures WeightsKnown(cs, false)
  {
  }

  /** markCandidateTxForDeletion. */
  method MarkForDeletion(c: CandidateTx, usedCount: nat, usedP: real,
                         ghost cs: seq<CandidateTx>, ghost i: nat, ghost ws: seq<real>, ghost totalP: real)
    returns (newCount: nat, newP: real)
    requires Accounted(cs, ws, totalP, usedCount, usedP) && i < |cs| && cs[i] == c && !c.isMarkedForDeletion
    modifies c`isMarkedForDeletion
    ensures c.isMarkedForDeletion && Accounted(cs, ws, totalP, newCount, newP) && newCount == usedCount + 1
  {
    hide MarkedCount, MarkedTotal, Total;
    MarkOne(ws, Marks(cs), i);
    ghost var marks := Marks(cs);
    c.isMarkedForDeletion := true;
    assert Marks(cs) == marks[i := true];
    newCount := usedCount + 1;
    newP := usedP + c.p;
  }

  ghost function MassSum(cs: seq<CandidateTx>): nat {
    if cs == [] then 0 else MassSum(cs[..|cs| - 1]) + cs[|cs| - 1].mass
  }

  ghost function FeeSum(cs: seq<CandidateTx>): nat {
    if cs == [] then 0 else FeeSum(cs[..|cs| - 1]) + cs[|cs| - 1].fee
  }

  /** Of all candidates, exactly the selected ones and those marked before are marked; none is
      selected twice. */
  ghost predicate Tracked(all: seq<CandidateTx>, before: set<CandidateTx>, selected: seq<CandidateTx>)
    reads all`isMarkedForDeletion
  {
    && Distinct(selected)
    && (forall c :: c in selected ==> c in all && c !in before)
    && (forall c :: c in all ==> (c.isMarkedForDeletion <==> c in before || c in selected))
  }

  /** The candidates that were dropped are marked. */
  ghost predicate Covers(all: seq<CandidateTx>, cs: seq<CandidateTx>)
    reads all`isMarkedForDeletion
  {
    (forall c :: c in cs ==> c in all) && (forall c :: c in all ==> c in cs || c.isMarkedForDeletion)
  }

  lemma AllMarked(cs: seq<CandidateTx>)
    requires MarkedCount(Marks(cs)) >= |cs|
    ensures forall c :: c in cs ==> c.isMarkedForDeletion
  {
    var marks := Marks(cs);
    CountOfMarks(marks);
    forall c | c in cs ensures c.isMarkedForDeletion {
      var k :| 0 <= k < |cs| && cs[k] == c;
      assert marks[k];
    }
  }

  lemma DrawInRange(draw: real, totalP: real)
    requires 0.0 <= draw < 1.0 && totalP >= 0.0
    ensures 0.0 <= Point(draw, totalP) <= totalP
  {
    NoNegativeProduct(draw, totalP);
    NoNegativeProduct(1.0 - draw, totalP);
    LessThanWhole(draw, totalP);
  }

  lemma NoNegativeProduct(x: real, y: real)
    requires x >= 0.0 && y >= 0.0
    ensures x * y >= 0.0
  {
  }

  lemma LessThanWhole(x: real, y: real)
    ensures (1.0 - x) * y == y - x * y
  {
  }

  lemma {:induction false} TotalPositive(ws: seq<real>, k: nat)
    requires k <= |ws| && forall j :: 0 <= j < |ws| ==> ws[j] >= 0.0
    ensures Total(ws, k) >= 0.0
  {
    if k > 0 {
      TotalPositive(ws, k - 1);
    }
  }

  /** The weights are the cubes of the values. */
  ghost predicate Weighted(cs: seq<CandidateTx>, ws: seq<real>) {
    |ws| == |cs| && forall k :: 0 <= k < |cs| ==> ws[k] == Cube(cs[k].txValue)
  }

  lemma WeightsOfSome(cs: seq<CandidateTx>, ws: seq<real>, totalP: real, some: seq<CandidateTx>)
    requires Balanced(cs, ws, totalP) && forall c :: c in some ==> c in cs
    ensures Weighted(cs, ws) ==> Weighted(some, Weights(some, false))
  {
    if Weighted(cs, ws) {
      forall k | 0 <= k < |some| ensures Weights(some, false)[k] == Cube(some[k].txValue) {
        assert some[k] in some;
        var j :| 0 <= j < |cs| && cs[j] == some[k];
        assert Ranged(cs[j], ws, j);
      }
    }
  }

  lemma WeightsInitially(cs: seq<CandidateTx>)
    ensures Weighted(cs, Weights(cs, true))
  {
  }

  // ----- the layout of a draw, by what was hit before -----

  ghost function Cubes(cs: seq<CandidateTx>): seq<real> {
    seq(|cs|, (k: nat) requires k < |cs| => cs[k].txValue * cs[k].txValue * cs[k].txValue)
  }

  ghost function MarksOf(cs: seq<CandidateTx>, selected: seq<CandidateTx>): seq<bool> {
    seq(|cs|, (k: nat) requires k < |cs| => cs[k] in selected)
  }

  /** The candidates that are not selected, in their order. */
  ghost function Without(cs: seq<CandidateTx>, selected: seq<CandidateTx>): seq<CandidateTx> {
    if cs == [] then []
    else
      var rest := Without(cs[..|cs| - 1], selected);
      if cs[|cs| - 1] in selected then rest else rest + [cs[|cs| - 1]]
  }

  /** The selected candidates hold 0.95 of the weight. */
  ghost predicate IsDue(cs: seq<CandidateTx>, selected: seq<CandidateTx>) {
    MarkedTotal(Cubes(cs), MarksOf(cs, selected)) >= 0.95 * Total(Cubes(cs), |cs|)
  }

  ghost function Relaid(cs: seq<CandidateTx>, selected: seq<CandidateTx>): seq<CandidateTx> {
    if IsDue(cs, selected) then Without(cs, selected) else cs
  }

  /** The candidates laid out for the draw that comes after the given hits. */
  ghost function Layout(first: seq<CandidateTx>, hits: seq<CandidateTx>): seq<CandidateTx> {
    Relaid(LaidOut(first, hits), HitOnce(hits))
  }

  /** The candidates laid out for the last of the draws that gave the hits. */
  ghost function LaidOut(first: seq<CandidateTx>, hits: seq<CandidateTx>): seq<CandidateTx> {
    if hits == [] then first
    else Relaid(LaidOut(first, hits[..|hits| - 1]), HitOnce(hits[..|hits| - 1]))
  }

  /** The draw falls on the candidate when each gets a share in proportion to its weight. */
  ghost predicate FallsOn(cs: seq<CandidateTx>, draw: real, c: CandidateTx) {
    exists i :: 0 <= i < |cs| && cs[i] == c && InShare(Cubes(cs), i, draw)
  }

  ghost predicate InShare(ws: seq<real>, i: nat, draw: real)
    requires i < |ws|
  {
    Total(ws, i) <= draw * Total(ws, |ws|) <= Total(ws, i) + ws[i]
  }

  /** Every hit is where its draw falls in the layout of that moment. */
  ghost predicate Drawn(first: seq<CandidateTx>, draws: seq<real>, hits: seq<CandidateTx>) {
    |hits| <= |draws| && forall k :: 0 <= k < |hits| ==> FallsOn(Layout(first, hits[..k]), draws[k], hits[k])
  }

  /** The draw after the hits falls on a candidate without room. */
  ghost predicate DrawnWithoutRoom(first: seq<CandidateTx>, draws: seq<real>, hits: seq<CandidateTx>,
                                   blockMaxMass: nat) {
    && |hits| < |draws|
    && (exists c :: c in Layout(first, hits)
                    && FallsOn(Layout(first, hits), draws[|hits|], c)
                    && c !in HitOnce(hits)
                    && MassSum(HitOnce(hits)) + c.mass > blockMaxMass)
  }

  lemma DrawnMore(first: seq<CandidateTx>, draws: seq<real>, hits: seq<CandidateTx>, hit: CandidateTx)
    requires Drawn(first, draws, hits) && |hits| < |draws| && FallsOn(Layout(first, hits), draws[|hits|], hit)
    ensures Drawn(first, draws, hits + [hit])
    ensures LaidOut(first, hits + [hit]) == Layout(first, hits)
    ensures HitOnce(hits + [hit]) == WithHit(HitOnce(hits), hit)
  {
    hide Relaid, FallsOn, WithHit;
    var more := hits + [hit];
    assert more[..|hits|] == hits;
    forall k | 0 <= k < |more| ensures FallsOn(Layout(first, more[..k]), draws[k], more[k]) {
      if k < |hits| {
        assert more[..k] == hits[..k];
      }
    }
  }

  lemma WeightedCubes(cs: seq<CandidateTx>, ws: seq<real>)
    requires Weighted(cs, ws)
    ensures ws == Cubes(cs)
  {
    forall k | 0 <= k < |cs| ensures ws[k] == Cubes(cs)[k] {
      assert Cubes(cs)[k] == Cube(cs[k].txValue);
    }
  }

  lemma {:induction false} UnmarkedWithout(cs: seq<CandidateTx>, selected: seq<CandidateTx>)
    requires forall c :: c in cs ==> (c.isMarkedForDeletion <==> c in selected)
    ensures Unmarked(cs) == Without(cs, selected)
    decreases |cs|
  {
    if cs != [] {
      UnmarkedWithout(cs[..|cs| - 1], selected);
    }
  }

  /** The running sums of the loop decide about rebalancing as the weights of the selected do. */
  lemma RelaidByMarks(cs: seq<CandidateTx>, ws: seq<real>, totalP: real, usedCount: nat, usedP: real,
                      selected: seq<CandidateTx>)
    requires Accounted(cs, ws, totalP, usedCount, usedP) && Weighted(cs, ws)
    requires forall c :: c in cs ==> (c.isMarkedForDeletion <==> c in selected)
    ensures Relaid(cs, selected) == if usedP >= REBALANCE_THRESHOLD * totalP then Unmarked(cs) else cs
  {
    hide MarkedTotal, Total;
    WeightedCubes(cs, ws);
    UnmarkedWithout(cs, selected);
    assert Marks(cs) == MarksOf(cs, selected);
  }

  lemma SomeUnmarked(cs: seq<CandidateTx>)
    requires MarkedCount(Marks(cs)) < |cs|
    ensures Unmarked(cs) != []
  {
    hide *;
    var marks := Marks(cs);
    CountOfMarks(marks);
    var k :| 0 <= k < |marks| && !marks[k];
    assert cs[k] in Unmarked(cs);
  }

  method Rebalance(cs: seq<CandidateTx>, ghost totalP: real, ghost usedCount: nat, ghost usedP: real,
                   ghost ws: seq<real>, ghost all: seq<CandidateTx>)
    returns (newCs: seq<CandidateTx>, newTotal: real, ghost newWs: seq<real>)
    requires Accounted(cs, ws, totalP, usedCount, usedP) && Covers(all, cs)
    modifies cs`p, cs`start, cs`end
    ensures Accounted(newCs, newWs, newTotal, 0, 0.0) && Covers(all, newCs)
    ensures newCs == Unmarked(cs) && (usedCount < |cs| ==> newCs != [])
    ensures Weighted(cs, ws) ==> Weighted(newCs, newWs)
  {
    hide Balanced, Weighted, Weights, Distinct, MarkedCount, MarkedTotal, WeightsKnown;
    if usedCount < |cs| {
      SomeUnmarked(cs);
    }
    BalancedWeights(cs, ws, totalP);
    WeightsOfSome(cs, ws, totalP, Unmarked(cs));
    newCs, newTotal, newWs := RebalanceCandidates(cs, false);
    FreshlyBalanced(newCs, newWs, newTotal);
  }

  /** Rebalancing is due when the marked candidates hold 0.95 of the weight, so that a draw hits
      a marked candidate only within less than that. */
  method RebalanceIfDue(cs: seq<CandidateTx>, totalP: real, usedCount: nat, usedP: real,
                        ghost ws: seq<real>, ghost all: seq<CandidateTx>)
    returns (newCs: seq<CandidateTx>, newTotal: real, newCount: nat, newP: real, ghost newWs: seq<real>)
    requires Accounted(cs, ws, totalP, usedCount, usedP) && Covers(all, cs)
    modifies cs`p, cs`start, cs`end
    ensures Accounted(newCs, newWs, newTotal, newCount, newP) && Covers(all, newCs)
    ensures newCount == 0 || newP < REBALANCE_THRESHOLD * newTotal
    ensures newCs == if usedP >= REBALANCE_THRESHOLD * totalP then Unmarked(cs) else cs
    ensures usedCount < |cs| ==> newCs != []
    ensures Weighted(cs, ws) ==> Weighted(newCs, newWs)
  {
    if usedP >= REBALANCE_THRESHOLD * totalP {
      newCs, newTotal, newWs := Rebalance(cs, totalP, usedCount, usedP, ws, all);
      newCount, newP := 0, 0.0;
    } else {
      newCs, newTotal, newCount, newP, newWs := cs, totalP, usedCount, usedP, ws;
    }
  }

  /** Why selection stopped: every candidate is used, a drawn one does not fit, or there are no
      more draws to follow it further. */
  datatype Stop = AllUsed | BlockFull | OutOfDraws

  ghost predicate Totals(selected: seq<CandidateTx>, totalMass: nat, totalFees: nat, blockMaxMass: nat) {
    totalMass == MassSum(selected) <= blockMaxMass && totalFees == FeeSum(selected) % WORD64
  }

  /** Some candidate that is not selected has no room left. */
  ghost predicate NoRoom(all: seq<CandidateTx>, before: set<CandidateTx>, selected: seq<CandidateTx>,
                         blockMaxMass: nat) {
    exists c :: c in all && c !in before && c !in selected && MassSum(selected) + c.mass > blockMaxMass
  }

  ghost predicate AllTaken(all: seq<CandidateTx>, before: set<CandidateTx>, selected: seq<CandidateTx>) {
    forall c :: c in all ==> c in before || c in selected
  }

  /** The check for the mass limit in 64 bits is the check without a bound. */
  lemma MassCheck(totalMass: Word64, mass: Word64, blockMaxMass: Word64)
    requires totalMass <= blockMaxMass
    ensures var sum := (totalMass + mass) % WORD64;
      sum < totalMass || sum > blockMaxMass <==> totalMass + mass > blockMaxMass
  {
  }

  lemma TotalsOfNone(blockMaxMass: nat)
    ensures Totals([], 0, 0, blockMaxMass)
  {
  }

  /** Adds a candidate to the totals, in 64 bits, unless that exceeds the mass limit. */
  method Tally(c: CandidateTx, totalMass: Word64, totalFees: Word64, blockMaxMass: Word64,
               ghost selected: seq<CandidateTx>)
    returns (fits: bool, newMass: Word64, newFees: Word64)
    requires Totals(selected, totalMass, totalFees, blockMaxMass)
    ensures fits <==> MassSum(selected) + c.mass <= blockMaxMass
    ensures if fits then Totals(selected + [c], newMass, newFees, blockMaxMass)
            else newMass == totalMass && newFees == totalFees
  {
    MassCheck(totalMass, c.mass, blockMaxMass);
    SumOfMore(selected, c);
    var sum := (totalMass + c.mass) % WORD64;
    if sum < totalMass || sum > blockMaxMass {
      return false, totalMass, totalFees;
    }
    return true, sum, (totalFees + c.fee) % WORD64;
  }

  lemma RoomIsGone(all: seq<CandidateTx>, before: set<CandidateTx>, selected: seq<CandidateTx>, c: CandidateTx,
                   blockMaxMass: nat)
    requires Tracked(all, before, selected) && c in all && !c.isMarkedForDeletion
    requires MassSum(selected) + c.mass > blockMaxMass
    ensures NoRoom(all, before, selected, blockMaxMass)
  {
  }

  lemma SumOfMore(selected: seq<CandidateTx>, c: CandidateTx)
    ensures MassSum(selected + [c]) == MassSum(selected) + c.mass
    ensures FeeSum(selected + [c]) == FeeSum(selected) + c.fee
  {
    assert (selected + [c])[..|selected|] == selected;
  }

  method Take(c: CandidateTx, usedCount: nat, usedP: real,
              ghost cs: seq<CandidateTx>, ghost i: nat, ghost ws: seq<real>, ghost totalP: real,
              ghost all: seq<CandidateTx>, ghost before: set<CandidateTx>, ghost selected: seq<CandidateTx>)
    returns (newCount: nat, newP: real)
    requires Accounted(cs, ws, totalP, usedCount, usedP) && i < |cs| && cs[i] == c && !c.isMarkedForDeletion
    requires Tracked(all, before, selected) && Covers(all, cs)
    modifies c`isMarkedForDeletion
    ensures Accounted(cs, ws, totalP, newCount, newP)
    ensures Tracked(all, before, selected + [c]) && Covers(all, cs)
  {
    hide Accounted;
    newCount, newP := MarkForDeletion(c, usedCount, usedP, cs, i, ws, totalP);
  }

  lemma BalancedTotal(cs: seq<CandidateTx>, ws: seq<real>, totalP: real)
    requires Balanced(cs, ws, totalP)
    ensures totalP >= 0.0
  {
    forall k | 0 <= k < |ws| ensures ws[k] >= 0.0 {
      assert Ranged(cs[k], ws, k);
    }
    TotalPositive(ws, |ws|);
  }

  /** A draw from [0, 1) scaled to the total weight. */
  function Point(draw: real, totalP: real): real {
    draw * totalP
  }

  /** One draw: a candidate that was not drawn before, or a collision. */
  method Draw(cs: seq<CandidateTx>, draw: real, totalP: real, ghost ws: seq<real>) returns (i: nat)
    requires cs != [] && Balanced(cs, ws, totalP) && 0.0 <= draw < 1.0
    ensures i < |cs| && cs[i].start <= Point(draw, totalP) <= cs[i].end
  {
    BalancedTotal(cs, ws, totalP);
    DrawInRange(draw, totalP);
    i := FindTx(cs, Point(draw, totalP), ws, totalP);
  }

  /** The variables of the loop of selectTransactions. */
  datatype Progress = Progress(cs: seq<CandidateTx>, totalP: real, usedCount: nat, usedP: real,
                               selected: seq<CandidateTx>, totalMass: Word64, totalFees: Word64)

  ghost predicate Underway(s: Progress, ws: seq<real>, all: seq<CandidateTx>, before: set<CandidateTx>,
                           blockMaxMass: nat)
    reads all, s.cs
  {
    && Accounted(s.cs, ws, s.totalP, s.usedCount, s.usedP)
    && Covers(all, s.cs)
    && Tracked(all, before, s.selected)
    && Totals(s.selected, s.totalMass, s.totalFees, blockMaxMass)
    && Weighted(s.cs, ws)
    && (forall c :: c in s.cs ==> c !in before)
  }

  /** What is selected after a draw hit `c`. */
  ghost function WithHit(selected: seq<CandidateTx>, c: CandidateTx): seq<CandidateTx> {
    if c in selected then selected else selected + [c]
  }

  /** The candidates that were hit, each where it was hit first. */
  ghost function HitOnce(hits: seq<CandidateTx>): seq<CandidateTx> {
    if hits == [] then [] else WithHit(HitOnce(hits[..|hits| - 1]), hits[|hits| - 1])
  }

  /** Takes a drawn candidate if it fits into the block. */
  method TakeIfItFits(s: Progress, c: CandidateTx, blockMaxMass: Word64, ghost i: nat, ghost ws: seq<real>,
                      ghost all: seq<CandidateTx>, ghost before: set<CandidateTx>)
    returns (t: Progress, fits: bool)
    requires Underway(s, ws, all, before, blockMaxMass) && i < |s.cs| && s.cs[i] == c && !c.isMarkedForDeletion
    modifies c`isMarkedForDeletion
    ensures Underway(t, ws, all, before, blockMaxMass) && t.cs == s.cs && t.totalP == s.totalP
    ensures t.selected == if fits then s.selected + [c] else s.selected
    ensures fits <==> MassSum(s.selected) + c.mass <= blockMaxMass
    ensures !fits ==> NoRoom(all, before, t.selected, blockMaxMass)
  {
    var newMass, newFees, newCount, newP;
    fits, newMass, newFees := Tally(c, s.totalMass, s.totalFees, blockMaxMass, s.selected);
    if !fits {
      RoomIsGone(all, before, s.selected, c, blockMaxMass);
      t := s;
    } else {
      newCount, newP := Take(c, s.usedCount, s.usedP, s.cs, i, ws, s.totalP, all, before, s.selected);
      t := Progress(s.cs, s.totalP, newCount, newP, s.selected + [c], newMass, newFees);
    }
  }

  lemma RelaidInLoop(s: Progress, ws: seq<real>, all: seq<CandidateTx>, before: set<CandidateTx>, blockMaxMass: nat)
    requires Underway(s, ws, all, before, blockMaxMass)
    ensures Relaid(s.cs, s.selected)
         == if s.usedP >= REBALANCE_THRESHOLD * s.totalP then Unmarked(s.cs) else s.cs
  {
    hide Accounted, Relaid, Totals;
    RelaidByMarks(s.cs, ws, s.totalP, s.usedCount, s.usedP, s.selected);
  }

  /** Rebalances if that is due. */
  method Prepare(s: Progress, ghost ws: seq<real>, ghost all: seq<CandidateTx>, ghost before: set<CandidateTx>,
                 ghost blockMaxMass: nat)
    returns (t: Progress, ghost newWs: seq<real>)
    requires Underway(s, ws, all, before, blockMaxMass)
    modifies s.cs`p, s.cs`start, s.cs`end
    ensures Underway(t, newWs, all, before, blockMaxMass) && t.selected == s.selected
    ensures t.usedCount == 0 || t.usedP < REBALANCE_THRESHOLD * t.totalP
    ensures (s.usedCount < |s.cs| ==> t.cs != []) && forall k :: 0 <= k < |t.cs| ==> t.cs[k] in s.cs
    ensures t.cs == Relaid(s.cs, s.selected)
  {
    hide Accounted, Covers, Tracked, Totals, Weighted, Relaid;
    RelaidInLoop(s, ws, all, before, blockMaxMass);
    var cs, totalP, usedCount, usedP;
    cs, totalP, usedCount, usedP, newWs := RebalanceIfDue(s.cs, s.totalP, s.usedCount, s.usedP, ws, all);
    t := s.(cs := cs, totalP := totalP, usedCount := usedCount, usedP := usedP);
  }

  lemma DrawFalls(cs: seq<CandidateTx>, ws: seq<real>, totalP: real, i: nat, draw: real)
    requires Balanced(cs, ws, totalP) && Weighted(cs, ws) && i < |cs|
    requires cs[i].start <= Point(draw, totalP) <= cs[i].end
    ensures FallsOn(cs, draw, cs[i])
  {
    hide Total;
    WeightedCubes(cs, ws);
    assert Ranged(cs[i], ws, i);
    assert InShare(Cubes(cs), i, draw);
  }

  method DrawNext(s: Progress, draw: real, ghost ws: seq<real>, ghost all: seq<CandidateTx>,
                  ghost before: set<CandidateTx>, ghost blockMaxMass: nat)
    returns (i: nat)
    requires Underway(s, ws, all, before, blockMaxMass) && 0.0 <= draw < 1.0 && s.cs != []
    ensures i < |s.cs| && FallsOn(s.cs, draw, s.cs[i])
  {
    hide Point, FallsOn, Weighted, Balanced, Covers, Tracked, Totals;
    i := Draw(s.cs, draw, s.totalP, ws);
    DrawFalls(s.cs, ws, s.totalP, i, draw);
  }

  /** One turn of the loop, for one draw. It hits a candidate in whose range it falls. A candidate
      hit before changes nothing, and any other is selected unless it does not fit. Rebalancing
      always leaves a candidate here, so the program's test for an empty list never holds. */
  method Advance(s: Progress, draw: real, blockMaxMass: Word64, ghost ws: seq<real>,
                 ghost all: seq<CandidateTx>, ghost before: set<CandidateTx>)
    returns (t: Progress, ghost newWs: seq<real>, full: bool, ghost hit: CandidateTx)
    requires Underway(s, ws, all, before, blockMaxMass) && 0.0 <= draw < 1.0 && s.usedCount < |s.cs|
    modifies s.cs
    ensures Underway(t, newWs, all, before, blockMaxMass)
    ensures t.cs == Relaid(s.cs, s.selected) && hit in t.cs && FallsOn(t.cs, draw, hit)
    ensures t.selected == if full then s.selected else WithHit(s.selected, hit)
    ensures full <==> hit !in s.selected && MassSum(s.selected) + hit.mass > blockMaxMass
    ensures full ==> NoRoom(all, before, t.selected, blockMaxMass)
  {
    hide Underway, Relaid, FallsOn, NoRoom;
    t, newWs := Prepare(s, ws, all, before, blockMaxMass);
    var i := DrawNext(t, draw, newWs, all, before, blockMaxMass);
    hit := t.cs[i];
    t, full := Hit(t, i, blockMaxMass, newWs, all, before);
  }

  /** A hit is a collision, or a candidate to take. */
  method Hit(s: Progress, i: nat, blockMaxMass: Word64, ghost ws: seq<real>,
             ghost all: seq<CandidateTx>, ghost before: set<CandidateTx>)
    returns (t: Progress, full: bool)
    requires Underway(s, ws, all, before, blockMaxMass) && i < |s.cs|
    modifies s.cs`isMarkedForDeletion
    ensures Underway(t, ws, all, before, blockMaxMass) && t.cs == s.cs && t.totalP == s.totalP
    ensures t.selected == if full then s.selected else WithHit(s.selected, s.cs[i])
    ensures full <==> s.cs[i] !in s.selected && MassSum(s.selected) + s.cs[i].mass > blockMaxMass
    ensures full ==> NoRoom(all, before, t.selected, blockMaxMass)
  {
    MarkedIsSelected(s, ws, all, before, blockMaxMass, s.cs[i]);
    if s.cs[i].isMarkedForDeletion {
      return s, false;
    }
    var fits;
    t, fits := TakeIfItFits(s, s.cs[i], blockMaxMass, i, ws, all, before);
    full := !fits;
  }

  lemma MarkedIsSelected(s: Progress, ws: seq<real>, all: seq<CandidateTx>, before: set<CandidateTx>,
                         blockMaxMass: nat, c: CandidateTx)
    requires Underway(s, ws, all, before, blockMaxMass) && c in s.cs
    ensures c.isMarkedForDeletion <==> c in s.selected
  {
  }

  method Begin(candidates: seq<CandidateTx>, ghost before: set<CandidateTx>, ghost blockMaxMass: nat)
    returns (s: Progress, ghost ws: seq<real>)
    requires Distinct(candidates) && WeightsKnown(candidates, true) && Tracked(candidates, before, [])
    modifies candidates`p, candidates`start, candidates`end
    ensures Underway(s, ws, candidates, before, blockMaxMass) && s.selected == [] && s.cs == Unmarked(candidates)
  {
    var cs, totalP;
    WeightsInitially(Unmarked(candidates));
    cs, totalP, ws := RebalanceCandidates(candidates, true);
    FreshlyBalanced(cs, ws, totalP);
    TotalsOfNone(blockMaxMass);
    s := Progress(cs, totalP, 0, 0.0, [], 0, 0);
  }

  lemma WithinAll(s: Progress, ws: seq<real>, all: seq<CandidateTx>, before: set<CandidateTx>, blockMaxMass: nat)
    requires Underway(s, ws, all, before, blockMaxMass)
    ensures forall k :: 0 <= k < |s.cs| ==> s.cs[k] in all
  {
  }

  /** The loop of selectTransactions: every draw is used until nothing is left or something does
      not fit, and the candidates that were hit are selected. */
  method Run(start: Progress, blockMaxMass: Word64, draws: seq<real>, ghost startWs: seq<real>,
             ghost all: seq<CandidateTx>, ghost before: set<CandidateTx>)
    returns (s: Progress, ghost ws: seq<real>, full: bool, ghost hits: seq<CandidateTx>)
    requires Underway(start, startWs, all, before, blockMaxMass) && start.selected == []
    requires forall k :: 0 <= k < |draws| ==> 0.0 <= draws[k] < 1.0
    modifies all
    ensures Underway(s, ws, all, before, blockMaxMass) && s.selected == HitOnce(hits)
    ensures Drawn(start.cs, draws, hits)
    ensures full ==>
      NoRoom(all, before, s.selected, blockMaxMass) && DrawnWithoutRoom(start.cs, draws, hits, blockMaxMass)
    ensures !full && s.usedCount < |s.cs| ==> |hits| == |draws|
  {
    hide Underway, Relaid, FallsOn;
    s, ws, full, hits := start, startWs, false, [];
    var d := 0;
    while |s.cs| - s.usedCount > 0 && d < |draws| && !full
      invariant d <= |draws| && |hits| == if full then d - 1 else d
      invariant Underway(s, ws, all, before, blockMaxMass) && s.selected == HitOnce(hits)
      invariant Drawn(start.cs, draws, hits) && (!full ==> s.cs == LaidOut(start.cs, hits))
      invariant full ==>
        NoRoom(all, before, s.selected, blockMaxMass) && DrawnWithoutRoom(start.cs, draws, hits, blockMaxMass)
      decreases |draws| - d
    {
      WithinAll(s, ws, all, before, blockMaxMass);
      ghost var hit;
      s, ws, full, hit := Advance(s, draws[d], blockMaxMass, ws, all, before);
      if !full {
        DrawnMore(start.cs, draws, hits, hit);
        hits := hits + [hit];
      }
      d := d + 1;
    }
  }

  /** What the loop leaves behind, whenever it stops. */
  lemma UnderwayTallies(s: Progress, ws: seq<real>, all: seq<CandidateTx>, before: set<CandidateTx>, blockMaxMass: nat)
    requires Underway(s, ws, all, before, blockMaxMass)
    ensures Tracked(all, before, s.selected) && Totals(s.selected, s.totalMass, s.totalFees, blockMaxMass)
    ensures s.usedCount >= |s.cs| ==> AllTaken(all, before, s.selected)
  {
    hide Balanced, Weighted, Totals;
    if s.usedCount >= |s.cs| {
      AllMarked(s.cs);
    }
  }

  method PickCandidates(candidates: seq<CandidateTx>, blockMaxMass: Word64, draws: seq<real>,
                        ghost before: set<CandidateTx>)
    returns (s: Progress, stop: Stop, ghost hits: seq<CandidateTx>)
    requires Distinct(candidates) && WeightsKnown(candidates, true)
    requires forall k :: 0 <= k < |draws| ==> 0.0 <= draws[k] < 1.0
    requires Tracked(candidates, before, [])
    modifies candidates
    ensures Tracked(candidates, before, s.selected) && s.selected == HitOnce(hits)
    ensures Totals(s.selected, s.totalMass, s.totalFees, blockMaxMass)
    ensures stop.AllUsed? ==> AllTaken(candidates, before, s.selected)
    ensures stop.BlockFull? ==> NoRoom(candidates, before, s.selected, blockMaxMass)
    ensures stop.OutOfDraws? ==> |hits| == |draws|
    ensures Drawn(old(Unmarked(candidates)), draws, hits)
    ensures stop.BlockFull? ==> DrawnWithoutRoom(old(Unmarked(candidates)), draws, hits, blockMaxMass)
  {
    hide Drawn, DrawnWithoutRoom, Underway, HitOnce, Unmarked, Distinct, WeightsKnown, NoRoom, AllTaken;
    ghost var ws;
    var full;
    s, ws := Begin(candidates, before, blockMaxMass);
    s, ws, full, hits := Run(s, blockMaxMass, draws, ws, candidates, before);
    UnderwayTallies(s, ws, candidates, before, blockMaxMass);
    if full {
      stop := BlockFull;
    } else if |s.cs| - s.usedCount > 0 {
      stop := OutOfDraws;
    } else {
      stop := AllUsed;
    }
  }

  lemma WeightsAtFirst(cs: seq<CandidateTx>)
    requires forall c :: c in cs ==> c.txValue >= 0.0
    ensures WeightsKnown(cs, true)
  {
    forall c | c in cs ensures Weight(c, true) >= 0.0 {
      CubePositive(c.txValue);
    }
  }

  // ----- the result -----

  ghost predicate BySubnetwork(cs: seq<CandidateTx>) {
    forall i, j :: 0 <= i < j < |cs| ==> cs[i].subnetwork <= cs[j].subnetwork
  }

  lemma {:induction false} SumsConcat(a: seq<CandidateTx>, b: seq<CandidateTx>)
    ensures MassSum(a + b) == MassSum(a) + MassSum(b)
    ensures FeeSum(a + b) == FeeSum(a) + FeeSum(b)
    decreases |b|
  {
    if b == [] {
      assert a + b == a;
    } else {
      var n := |b| - 1;
      assert (a + b)[..|a| + n] == a + b[..n];
      SumsConcat(a, b[..n]);
    }
  }

  /** Inserts behind the last element that may stay before `c`. */
  method Insert(cs: seq<CandidateTx>, c: CandidateTx) returns (t: seq<CandidateTx>)
    requires BySubnetwork(cs) && Distinct(cs) && c !in cs
    ensures BySubnetwork(t) && Distinct(t) && (forall x :: x in t <==> x == c || x in cs)
    ensures MassSum(t) == MassSum(cs) + c.mass && FeeSum(t) == FeeSum(cs) + c.fee
  {
    hide MassSum, FeeSum, Distinct;
    var k := |cs|;
    while k > 0 && c.subnetwork < cs[k - 1].subnetwork
      invariant 0 <= k <= |cs| && forall j :: k <= j < |cs| ==> c.subnetwork <= cs[j].subnetwork
    {
      k := k - 1;
    }
    t := cs[..k] + [c] + cs[k..];
    InsertSums(cs, k, c);
    InsertMembers(cs, k, c);
    InsertOrder(cs, k, c);
  }

  lemma InsertOrder(cs: seq<CandidateTx>, k: nat, c: CandidateTx)
    requires Distinct(cs) && c !in cs && k <= |cs|
    ensures Distinct(cs[..k] + [c] + cs[k..])
  {
    var t := cs[..k] + [c] + cs[k..];
    forall i, j | 0 <= i < j < |t| ensures t[i] != t[j] {
      assert i < k ==> t[i] == cs[i];
      assert i > k ==> t[i] == cs[i - 1];
      assert j < k ==> t[j] == cs[j];
      assert j > k ==> t[j] == cs[j - 1];
    }
  }

  lemma InsertSums(cs: seq<CandidateTx>, k: nat, c: CandidateTx)
    requires k <= |cs|
    ensures MassSum(cs[..k] + [c] + cs[k..]) == MassSum(cs) + c.mass
    ensures FeeSum(cs[..k] + [c] + cs[k..]) == FeeSum(cs) + c.fee
  {
    assert cs == cs[..k] + cs[k..];
    SumsConcat(cs[..k], cs[k..]);
    SumsConcat(cs[..k] + [c], cs[k..]);
    SumOfMore(cs[..k], c);
  }

  lemma InsertMembers(cs: seq<CandidateTx>, k: nat, c: CandidateTx)
    requires k <= |cs|
    ensures forall x :: x in cs[..k] + [c] + cs[k..] <==> x == c || x in cs
  {
    assert cs == cs[..k] + cs[k..];
  }

  method SortBySubnetwork(cs: seq<CandidateTx>) returns (t: seq<CandidateTx>)
    requires Distinct(cs)
    ensures BySubnetwork(t) && Distinct(t) && (forall x :: x in t <==> x in cs)
    ensures MassSum(t) == MassSum(cs) && FeeSum(t) == FeeSum(cs)
  {
    t := [];
    for n := 0 to |cs|
      invariant BySubnetwork(t) && Distinct(t) && (forall x :: x in t <==> x in cs[..n])
      invariant MassSum(t) == MassSum(cs[..n]) && FeeSum(t) == FeeSum(cs[..n])
    {
      assert cs[..n + 1] == cs[..n] + [cs[n]];
      SumOfMore(cs[..n], cs[n]);
      t := Insert(t, cs[n]);
    }
    assert cs[..|cs|] == cs;
  }

  datatype SelectedTransactions = SelectedTransactions(
    selectedTxs: seq<nat>, txMasses: seq<Word64>, txFees: seq<Word64>, totalMass: Word64, totalFees: Word64)

  /** The columns of the result are those of the selected candidates, in order. */
  ghost predicate Lists(result: SelectedTransactions, order: seq<CandidateTx>) {
    && |result.selectedTxs| == |result.txMasses| == |result.txFees| == |order|
    && forall k :: 0 <= k < |order| ==>
      result.selectedTxs[k] == order[k].tx && result.txMasses[k] == order[k].mass && result.txFees[k] == order[k].fee
  }

  method Columns(order: seq<CandidateTx>, totalMass: Word64, totalFees: Word64) returns (result: SelectedTransactions)
    ensures Lists(result, order) && result.totalMass == totalMass && result.totalFees == totalFees
  {
    var txs, masses, fees := [], [], [];
    for n := 0 to |order|
      invariant Lists(SelectedTransactions(txs, masses, fees, totalMass, totalFees), order[..n])
    {
      txs, masses, fees := txs + [order[n].tx], masses + [order[n].mass], fees + [order[n].fee];
    }
    assert order[..|order|] == order;
    result := SelectedTransactions(txs, masses, fees, totalMass, totalFees);
  }

  /** selectTransactions: for every list of candidates and every run of draws, candidates are
      selected at most once, the totals are those of the selected ones, and nothing is left out
      except for want of room or of draws. `order` holds the selected candidates, and `hits` the
      candidates that were drawn. */
  method SelectTransactions(candidates: seq<CandidateTx>, blockMaxMass: Word64, draws: seq<real>)
    returns (result: SelectedTransactions, stop: Stop, ghost order: seq<CandidateTx>, ghost hits: seq<CandidateTx>)
    requires Distinct(candidates) && forall c :: c in candidates ==> c.txValue >= 0.0
    requires forall k :: 0 <= k < |draws| ==> 0.0 <= draws[k] < 1.0
    modifies candidates
    ensures Tracked(candidates, old(set c | c in candidates && c.isMarkedForDeletion), order)
    ensures Lists(result, order) && BySubnetwork(order)
    ensures (forall c :: c in order <==> c in HitOnce(hits)) && (stop.OutOfDraws? ==> |hits| == |draws|)
    ensures Totals(order, result.totalMass, result.totalFees, blockMaxMass)
    ensures stop.AllUsed? ==> AllTaken(candidates, old(set c | c in candidates && c.isMarkedForDeletion), order)
    ensures stop.BlockFull? ==>
      NoRoom(candidates, old(set c | c in candidates && c.isMarkedForDeletion), order, blockMaxMass)
    ensures Drawn(old(Unmarked(candidates)), draws, hits)
    ensures stop.BlockFull? ==> DrawnWithoutRoom(old(Unmarked(candidates)), draws, hits, blockMaxMass)
  {
    hide Drawn, DrawnWithoutRoom, HitOnce;
    ghost var before := set c | c in candidates && c.isMarkedForDeletion;
    WeightsAtFirst(candidates);
    var s;
    s, stop, hits := PickCandidates(candidates, blockMaxMass, draws, before);
    var sorted := SortBySubnetwork(s.selected);
    order := sorted;
    result := Columns(sorted, s.totalMass, s.totalFees);
  }
}

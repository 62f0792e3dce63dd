/**
 * The backward walk of `Solve2` in 2024/Day16.cs (lines 51-57): starting
 * from a queue of states, take a state out, record its cell, and put its
 * recorded predecessors in. The queue is a multiset from which any state
 * may be taken next; the cells recorded do not depend on the order.
 */
module Day16Walk {
  import opened Wrappers
  import opened Grid2D
  import opened Day16Paths
  import opened QueueWeight
  import opened Day16Search

  /** Each state of `ch` after the first is a recorded predecessor of the one before. */
  ghost predicate Chain(preds: Preds, ch: seq<Node>)
  {
    forall i | 0 <= i < |ch| - 1 :: HasPred(preds, ch[i], ch[i + 1])
  }

  /** `n` is reached from a state of `roots` by following predecessor sets. */
  ghost predicate Backward(preds: Preds, roots: multiset<Node>, n: Node)
  {
    exists ch {:trigger Chain(preds, ch)} :: |ch| >= 1 && roots[ch[0]] > 0 && ch[|ch| - 1] == n && Chain(preds, ch)
  }

  lemma BackwardRoot(preds: Preds, roots: multiset<Node>, n: Node)
    requires n in roots
    ensures Backward(preds, roots, n)
  {
    assert Chain(preds, [n]);
  }

  /** A recorded predecessor of a state reached backwards is reached backwards. */
  lemma BackwardStep(preds: Preds, roots: multiset<Node>, n: Node, p: Node)
    requires Backward(preds, roots, n) && HasPred(preds, n, p)
    ensures Backward(preds, roots, p)
  {
    var ch :| |ch| >= 1 && roots[ch[0]] > 0 && ch[|ch| - 1] == n && Chain(preds, ch);
    var ch' := ch + [p];
    forall i | 0 <= i < |ch'| - 1 ensures HasPred(preds, ch'[i], ch'[i + 1]) {
      if i < |ch| - 1 {
        assert ch'[i] == ch[i] && ch'[i + 1] == ch[i + 1];
      }
    }
    assert ch'[0] == ch[0] && ch'[|ch'| - 1] == p && Chain(preds, ch');
  }

  /** The cells of a set of states. */
  function Positions(s: set<Node>): set<Cell2D>
  {
    set n | n in s :: n.pos
  }

  /** Every queued state and every recorded predecessor is a key of `preds`. */
  ghost predicate Closed(preds: Preds, roots: multiset<Node>)
  {
    (forall n {:trigger roots[n]} | n in roots :: n in preds) &&
    (forall n, p | HasPred(preds, n, p) :: p in preds)
  }

  /**
   * The walk's invariant: `popped` holds the states taken out so far, whose
   * cells (with `end`) make up `result`; everything popped or queued is
   * reached backwards from `roots`; every root and every predecessor of a
   * popped state is popped or still queued.
   */
  ghost predicate WalkInv(preds: Preds, roots: multiset<Node>, end: Cell2D,
                          queue: multiset<Node>, popped: set<Node>, result: set<Cell2D>)
  {
    (forall n {:trigger queue[n]} | n in queue :: n in preds && Backward(preds, roots, n)) &&
    (forall n {:trigger n in popped} | n in popped :: Backward(preds, roots, n)) &&
    (forall n {:trigger roots[n]} | n in roots :: n in popped || n in queue) &&
    (forall n, p | n in popped && HasPred(preds, n, p) :: p in popped || p in queue) &&
    result == {end} + Positions(popped)
  }

  /** The cells the walk is meant to record: `end` and the cells of the states reached backwards. */
  ghost predicate WalkCells(preds: Preds, roots: multiset<Node>, end: Cell2D, cells: set<Cell2D>)
  {
    forall c :: c in cells <==> c == end || exists n :: Backward(preds, roots, n) && n.pos == c
  }

  lemma WalkInit(preds: Preds, roots: multiset<Node>, end: Cell2D)
    requires Closed(preds, roots)
    ensures WalkInv(preds, roots, end, roots, {}, {end})
  {
    forall n {:trigger roots[n]} | n in roots ensures Backward(preds, roots, n) {
      BackwardRoot(preds, roots, n);
    }
    assert Positions({}) == {};
  }

  /** Taking `current` out and putting its predecessors in keeps the invariant. */
  lemma WalkStep(preds: Preds, roots: multiset<Node>, end: Cell2D,
                 queue: multiset<Node>, popped: set<Node>, result: set<Cell2D>, current: Node)
    requires Closed(preds, roots) && WalkInv(preds, roots, end, queue, popped, result) && current in queue
    ensures WalkInv(preds, roots, end, queue - multiset{current} + multiset(preds[current]),
                    popped + {current}, result + {current.pos})
  {
    var queue' := queue - multiset{current} + multiset(preds[current]);
    StepQueued(preds, roots, queue, current);
    StepPopped(preds, roots, popped, current);
    StepCovered(preds, roots, queue, popped, current);
    assert Positions(popped + {current}) == Positions(popped) + {current.pos};
  }

  lemma StepQueued(preds: Preds, roots: multiset<Node>, queue: multiset<Node>, current: Node)
    requires Closed(preds, roots) && current in queue
    requires forall n {:trigger queue[n]} | n in queue :: n in preds && Backward(preds, roots, n)
    ensures var queue' := queue - multiset{current} + multiset(preds[current]);
            forall n {:trigger queue'[n]} | n in queue' :: n in preds && Backward(preds, roots, n)
  {
    var queue' := queue - multiset{current} + multiset(preds[current]);
    forall n {:trigger queue'[n]} | n in queue' ensures n in preds && Backward(preds, roots, n) {
      if n in preds[current] {
        assert HasPred(preds, current, n);
        BackwardStep(preds, roots, current, n);
      } else {
        assert queue[n] > 0;
      }
    }
  }

  lemma StepPopped(preds: Preds, roots: multiset<Node>, popped: set<Node>, current: Node)
    requires Backward(preds, roots, current)
    requires forall n {:trigger n in popped} | n in popped :: Backward(preds, roots, n)
    ensures forall n {:trigger n in popped + {current}} | n in popped + {current} :: Backward(preds, roots, n)
  {
  }

  lemma StepCovered(preds: Preds, roots: multiset<Node>, queue: multiset<Node>, popped: set<Node>, current: Node)
    requires current in queue && current in preds
    requires forall n {:trigger roots[n]} | n in roots :: n in popped || n in queue
    requires forall n, p | n in popped && HasPred(preds, n, p) :: p in popped || p in queue
    ensures var queue', popped' := queue - multiset{current} + multiset(preds[current]), popped + {current};
            (forall n {:trigger roots[n]} | n in roots :: n in popped' || n in queue') &&
            (forall n, p | n in popped' && HasPred(preds, n, p) :: p in popped' || p in queue')
  {
    var queue', popped' := queue - multiset{current} + multiset(preds[current]), popped + {current};
    forall n {:trigger roots[n]} | n in roots ensures n in popped' || n in queue' {
      if n != current && n !in popped {
        assert queue[n] > 0;
      }
    }
    forall n, p | n in popped' && HasPred(preds, n, p) ensures p in popped' || p in queue' {
      if n == current {
        assert p in preds[current];
      } else if p != current && p !in popped {
        assert queue[p] > 0;
      }
    }
  }

  /** Once the queue is empty every state reached backwards has been popped. */
  lemma {:induction false} ChainPopped(preds: Preds, roots: multiset<Node>, end: Cell2D,
                                       popped: set<Node>, result: set<Cell2D>, ch: seq<Node>, i: nat)
    requires WalkInv(preds, roots, end, multiset{}, popped, result)
    requires |ch| >= 1 && roots[ch[0]] > 0 && Chain(preds, ch) && i < |ch|
    ensures ch[i] in popped
    decreases i
  {
    if i == 0 {
      assert ch[0] in roots;
    } else {
      ChainPopped(preds, roots, end, popped, result, ch, i - 1);
      assert HasPred(preds, ch[i - 1], ch[i]);
    }
  }

  lemma WalkDone(preds: Preds, roots: multiset<Node>, end: Cell2D, popped: set<Node>, result: set<Cell2D>)
    requires WalkInv(preds, roots, end, multiset{}, popped, result)
    ensures WalkCells(preds, roots, end, result)
  {
    forall c ensures c in result <==> c == end || exists n :: Backward(preds, roots, n) && n.pos == c {
      if c in result && c != end {
        var n :| n in popped && n.pos == c;
        assert Backward(preds, roots, n);
      }
      if c != end && exists n :: Backward(preds, roots, n) && n.pos == c {
        var n :| Backward(preds, roots, n) && n.pos == c;
        BackwardPopped(preds, roots, end, popped, result, n);
        assert c in Positions(popped);
      }
    }
  }

  lemma BackwardPopped(preds: Preds, roots: multiset<Node>, end: Cell2D, popped: set<Node>, result: set<Cell2D>, n: Node)
    requires WalkInv(preds, roots, end, multiset{}, popped, result) && Backward(preds, roots, n)
    ensures n in popped
  {
    var ch :| |ch| >= 1 && roots[ch[0]] > 0 && ch[|ch| - 1] == n && Chain(preds, ch);
    ChainPopped(preds, roots, end, popped, result, ch, |ch| - 1);
  }

  // ---------------------------------------------------------------------
  // The walk as written

  /** `x` and `y` are recorded predecessors of each other. */
  ghost predicate Cycle(preds: Preds, x: Node, y: Node)
  {
    HasPred(preds, x, y) && HasPred(preds, y, x)
  }

  lemma CycleStep(preds: Preds, x: Node, y: Node, queue: multiset<Node>, current: Node)
    requires Cycle(preds, x, y) && (queue[x] > 0 || queue[y] > 0) && current in queue && current in preds
    ensures var queue' := queue - multiset{current} + multiset(preds[current]);
            queue'[x] > 0 || queue'[y] > 0
  {
    assert y in preds[x] && x in preds[y];
  }

  /**
   * Lines 51-57 as written, cut off after `fuel` iterations: `None` when
   * the queue is still not empty. When the walk ends, it has recorded the
   * cells reached backwards; when a root is one of two states that are
   * each other's predecessors, it never ends.
   */
  method WalkBounded(preds: Preds, roots: multiset<Node>, end: Cell2D, fuel: nat, ghost x: Node, ghost y: Node)
    returns (r: Option<set<Cell2D>>)
    requires Closed(preds, roots)
    ensures r.Some? ==> WalkCells(preds, roots, end, r.value)
    ensures Cycle(preds, x, y) && (roots[x] > 0 || roots[y] > 0) ==> r.None?
  {
    var result := {end};
    var queue := roots;
    ghost var popped: set<Node> := {};
    WalkInit(preds, roots, end);
    var steps := 0;
    while queue != multiset{} && steps < fuel
      invariant WalkInv(preds, roots, end, queue, popped, result)
      invariant Cycle(preds, x, y) && (roots[x] > 0 || roots[y] > 0) ==> queue[x] > 0 || queue[y] > 0
      decreases fuel - steps
    {
      var current :| current in queue;
      WalkStep(preds, roots, end, queue, popped, result, current);
      if Cycle(preds, x, y) && (roots[x] > 0 || roots[y] > 0) {
        CycleStep(preds, x, y, queue, current);
      }
      queue := queue - multiset{current};
      result := result + {current.pos};
      queue := queue + multiset(preds[current]);
      popped := popped + {current};
      steps := steps + 1;
    }
    if queue == multiset{} {
      WalkDone(preds, roots, end, popped, result);
      r := Some(result);
    } else {
      r := None;
    }
  }

  // ---------------------------------------------------------------------
  // The walk over tables whose predecessors are strictly cheaper

  /** Every recorded predecessor is strictly cheaper, costs are non-negative, and no state has more than four. */
  ghost predicate Descending(costs: Costs, preds: Preds, roots: multiset<Node>)
  {
    (forall n {:trigger roots[n]} | n in roots :: n in costs && costs[n] >= 0) &&
    (forall n, p | HasPred(preds, n, p) :: n in costs && p in costs && 0 <= costs[p] < costs[n]) &&
    (forall n | n in preds :: |preds[n]| <= 4)
  }

  /** The queue rank used to bound the walk: the state's cost. */
  function CostRank(costs: Costs): Node -> int
  {
    n => if n in costs then costs[n] else 0
  }

  /** Replacing `current` by its predecessors lowers the walk's measure and keeps every queued cost non-negative. */
  lemma WalkDecreases(costs: Costs, preds: Preds, roots: multiset<Node>, queue: multiset<Node>, current: Node)
    requires Descending(costs, preds, roots) && current in queue && current in preds
    requires forall n {:trigger queue[n]} | n in queue :: n in costs && costs[n] >= 0
    ensures var queue' := queue - multiset{current} + multiset(preds[current]);
            Weight(queue', CostRank(costs)) < Weight(queue, CostRank(costs)) &&
            forall n {:trigger queue'[n]} | n in queue' :: n in costs && costs[n] >= 0
  {
    var rank := CostRank(costs);
    var pushed := multiset(preds[current]);
    forall p {:trigger pushed[p]} | p in pushed ensures 0 <= rank(p) < rank(current) && p in costs {
      assert HasPred(preds, current, p);
    }
    WeightDecreases(queue, rank, current, pushed);
    var queue' := queue - multiset{current} + pushed;
    forall n {:trigger queue'[n]} | n in queue' ensures n in costs && costs[n] >= 0 {
      if n !in pushed {
        assert queue[n] > 0;
      }
    }
  }

  /**
   * Lines 51-57 over tables in which every predecessor is strictly cheaper:
   * the walk ends, and records `end` and exactly the cells reached
   * backwards from `roots`.
   */
  method Walk(ghost costs: Costs, preds: Preds, roots: multiset<Node>, end: Cell2D) returns (result: set<Cell2D>)
    requires Closed(preds, roots) && Descending(costs, preds, roots)
    ensures WalkCells(preds, roots, end, result)
  {
    result := {end};
    var queue := roots;
    ghost var popped: set<Node> := {};
    WalkInit(preds, roots, end);
    while queue != multiset{}
      invariant WalkInv(preds, roots, end, queue, popped, result)
      invariant forall n {:trigger queue[n]} | n in queue :: n in costs && costs[n] >= 0
      decreases Weight(queue, CostRank(costs))
    {
      var current :| current in queue;
      WalkStep(preds, roots, end, queue, popped, result, current);
      WalkDecreases(costs, preds, roots, queue, current);
      queue := queue - multiset{current};
      result := result + {current.pos};
      queue := queue + multiset(preds[current]);
      popped := popped + {current};
    }
    WalkDone(preds, roots, end, popped, result);
  }
}

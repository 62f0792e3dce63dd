/**
 * What `Solve2` in 2024/Day16.cs is meant to count: once the start keeps
 * cost 0, the cells reached backwards through the predecessor sets from
 * the cheapest end states, together with the end cell, are exactly the
 * cells that lie on some cheapest path from the start to the end cell.
 */
module Day16OptimalCells {
  import opened Grid2D
  import opened Day16Paths
  import opened Day16Search
  import opened Day16Optimality
  import opened Day16Walk

  /** A path from the start to a state on the end cell, facing any direction. */
  ghost predicate ToEnd(b: Board, start: Node, end: Cell2D, path: seq<Node>)
    requires Rectangular(b)
  {
    |path| >= 1 && path[0] == start && IsPath(b, path) && path[|path| - 1].pos == end
  }

  /** A cheapest path from the start to the end cell. */
  ghost predicate OptimalPath(b: Board, start: Node, end: Cell2D, path: seq<Node>)
    requires Rectangular(b)
  {
    ToEnd(b, start, end, path) &&
    forall q {:trigger ToEnd(b, start, end, q)} | ToEnd(b, start, end, q) :: PathCost(path) <= PathCost(q)
  }

  /** No path from the start to the end cell costs less than `m`. */
  ghost predicate LeastToEnd(b: Board, start: Node, end: Cell2D, m: int)
    requires Rectangular(b)
  {
    forall q {:trigger ToEnd(b, start, end, q)} | ToEnd(b, start, end, q) :: m <= PathCost(q)
  }

  /** Cell `c` lies on some cheapest path from the start to the end cell. */
  ghost predicate OnOptimalPath(b: Board, start: Node, end: Cell2D, c: Cell2D)
    requires Rectangular(b)
  {
    exists path: seq<Node>, i: int {:trigger OptimalPath(b, start, end, path), path[i]} |
      OptimalPath(b, start, end, path) && 0 <= i < |path| :: path[i].pos == c
  }

  /** The least recorded cost of the four states on the end cell (the `Min` of lines 22-24 and 38-40). */
  function EndCost(costs: Costs, end: Cell2D): (m: int)
    requires forall d: Heading :: Node(end, d) in costs
    ensures forall d: Heading :: m <= costs[Node(end, d)]
    ensures exists d: Heading :: costs[Node(end, d)] == m
  {
    var up, right, down, left := costs[Node(end, Up)], costs[Node(end, Right)], costs[Node(end, Down)], costs[Node(end, Left)];
    var m1 := if up <= right then up else right;
    var m2 := if m1 <= down then m1 else down;
    if m2 <= left then m2 else left
  }

  /** `n` is a predecessor of an end state of least cost: the states the queue is seeded with (lines 42-49). */
  ghost predicate IsRoot(costs: Costs, preds: Preds, end: Cell2D, n: Node)
    requires forall d: Heading :: Node(end, d) in costs
  {
    exists d: Heading :: costs[Node(end, d)] == EndCost(costs, end) && HasPred(preds, Node(end, d), n)
  }

  /** The walk's queue starts with exactly the roots (lines 42-49). */
  ghost predicate SeededFrom(costs: Costs, preds: Preds, end: Cell2D, roots: multiset<Node>)
    requires forall d: Heading :: Node(end, d) in costs
  {
    forall n {:trigger roots[n]} :: roots[n] > 0 <==> IsRoot(costs, preds, end, n)
  }

  /** The facts about the tables of a search whose start kept cost 0 that the proofs below use. */
  ghost predicate Solved(b: Board, start: Node, end: Cell2D, costs: Costs, preds: Preds, processed: set<Entry>)
    requires Rectangular(b)
  {
    Finalized(b, start, costs, preds, processed) && Settled(costs, processed) &&
    costs[start] == 0 && start.pos != end && (forall d: Heading :: Node(end, d) in costs)
  }

  /** The least end cost is at most the cost of every path to the end cell, and some path costs exactly that. */
  lemma EndCostIsOptimal(b: Board, start: Node, end: Cell2D, costs: Costs, preds: Preds, processed: set<Entry>)
    requires Rectangular(b) && Solved(b, start, end, costs, preds, processed) && EndCost(costs, end) < IntMax
    ensures LeastToEnd(b, start, end, EndCost(costs, end))
    ensures exists q :: ToEnd(b, start, end, q) && PathCost(q) == EndCost(costs, end)
  {
    var m := EndCost(costs, end);
    forall q | ToEnd(b, start, end, q) ensures m <= PathCost(q) {
      EndCostBelow(b, start, end, costs, preds, processed, q);
    }
    var d: Heading :| costs[Node(end, d)] == m;
    CostIsShortest(b, start, costs, preds, processed, Node(end, d));
    var q :| PathFromTo(b, start, q, Node(end, d)) && PathCost(q) == m;
    assert ToEnd(b, start, end, q);
  }

  lemma EndCostBelow(b: Board, start: Node, end: Cell2D, costs: Costs, preds: Preds, processed: set<Entry>, q: seq<Node>)
    requires Rectangular(b) && Solved(b, start, end, costs, preds, processed) && ToEnd(b, start, end, q)
    ensures EndCost(costs, end) <= PathCost(q)
  {
    var n := q[|q| - 1];
    CostBelowPaths(b, start, costs, preds, processed, q, n);
    assert n == Node(end, n.dir);
  }

  /** From `n` a cheapest end state is reached at the cost that remains after `costs[n]`. */
  ghost predicate ReachesEnd(b: Board, end: Cell2D, costs: Costs, n: Node)
    requires Rectangular(b) && forall d: Heading :: Node(end, d) in costs
  {
    n in costs && costs[n] <= EndCost(costs, end) &&
    exists d: Heading :: costs[Node(end, d)] == EndCost(costs, end) && Reach(b, n, Node(end, d), EndCost(costs, end) - costs[n])
  }

  /** Every state of a chain from a root reaches a cheapest end state at the remaining cost. */
  lemma {:induction false} ChainReachesEnd(b: Board, start: Node, end: Cell2D, costs: Costs, preds: Preds, processed: set<Entry>,
                                           roots: multiset<Node>, ch: seq<Node>, i: nat)
    requires Rectangular(b) && Solved(b, start, end, costs, preds, processed)
    requires SeededFrom(costs, preds, end, roots)
    requires |ch| >= 1 && roots[ch[0]] > 0 && Chain(preds, ch) && i < |ch|
    ensures ReachesEnd(b, end, costs, ch[i])
    decreases i
  {
    if i == 0 {
      assert IsRoot(costs, preds, end, ch[0]);
      RootReachesEnd(b, start, end, costs, preds, processed, ch[0]);
    } else {
      ChainReachesEnd(b, start, end, costs, preds, processed, roots, ch, i - 1);
      assert HasPred(preds, ch[i - 1], ch[i]);
      TightStep(b, start, end, costs, preds, processed, ch[i - 1], ch[i]);
      PredReachesEnd(b, end, costs, ch[i - 1], ch[i]);
    }
  }

  lemma RootReachesEnd(b: Board, start: Node, end: Cell2D, costs: Costs, preds: Preds, processed: set<Entry>, p: Node)
    requires Rectangular(b) && Solved(b, start, end, costs, preds, processed) && IsRoot(costs, preds, end, p)
    ensures ReachesEnd(b, end, costs, p)
  {
    var d: Heading :| costs[Node(end, d)] == EndCost(costs, end) && HasPred(preds, Node(end, d), p);
    TightStep(b, start, end, costs, preds, processed, Node(end, d), p);
    ReachStart(b, Node(end, d));
    ReachPrepend(b, p, Node(end, d), Node(end, d), 0);
  }

  /** A tight move into a state that reaches a cheapest end state keeps that property. */
  lemma PredReachesEnd(b: Board, end: Cell2D, costs: Costs, n: Node, p: Node)
    requires Rectangular(b) && (forall d: Heading :: Node(end, d) in costs) && n in costs && p in costs
    requires Adjacent(b, p.pos, n) && costs[p] + StepCost(p.dir, n.dir) == costs[n]
    requires ReachesEnd(b, end, costs, n)
    ensures ReachesEnd(b, end, costs, p)
  {
    var m := EndCost(costs, end);
    var d: Heading :| costs[Node(end, d)] == m && Reach(b, n, Node(end, d), m - costs[n]);
    ReachPrepend(b, p, n, Node(end, d), m - costs[n]);
  }

  /** A recorded predecessor is a tight move. */
  lemma TightStep(b: Board, start: Node, end: Cell2D, costs: Costs, preds: Preds, processed: set<Entry>, n: Node, p: Node)
    requires Rectangular(b) && Solved(b, start, end, costs, preds, processed) && HasPred(preds, n, p)
    ensures n in costs && p in costs && Adjacent(b, p.pos, n) && costs[p] + StepCost(p.dir, n.dir) == costs[n]
  {
    assert (p, costs[n] - StepCost(p.dir, n.dir)) in processed;
    PredsAreTightMoves(b, start, costs, preds, processed, n, p);
  }

  /** A state reached backwards lies on a cheapest path. */
  lemma BackwardOnOptimal(b: Board, start: Node, end: Cell2D, costs: Costs, preds: Preds, processed: set<Entry>,
                          roots: multiset<Node>, n: Node)
    requires Rectangular(b) && Solved(b, start, end, costs, preds, processed) && EndCost(costs, end) < IntMax
    requires SeededFrom(costs, preds, end, roots)
    requires Backward(preds, roots, n)
    ensures OnOptimalPath(b, start, end, n.pos)
  {
    var ch :| |ch| >= 1 && roots[ch[0]] > 0 && ch[|ch| - 1] == n && Chain(preds, ch);
    ChainOnOptimal(b, start, end, costs, preds, processed, roots, ch);
  }

  lemma ChainOnOptimal(b: Board, start: Node, end: Cell2D, costs: Costs, preds: Preds, processed: set<Entry>,
                       roots: multiset<Node>, ch: seq<Node>)
    requires Rectangular(b) && Solved(b, start, end, costs, preds, processed) && EndCost(costs, end) < IntMax
    requires SeededFrom(costs, preds, end, roots)
    requires |ch| >= 1 && roots[ch[0]] > 0 && Chain(preds, ch)
    ensures OnOptimalPath(b, start, end, ch[|ch| - 1].pos)
  {
    ChainReachesEnd(b, start, end, costs, preds, processed, roots, ch, |ch| - 1);
    ThroughOnOptimal(b, start, end, costs, preds, processed, ch[|ch| - 1]);
  }

  /** A state from which a cheapest end state is reached at the remaining cost lies on a cheapest path. */
  lemma ThroughOnOptimal(b: Board, start: Node, end: Cell2D, costs: Costs, preds: Preds, processed: set<Entry>,
                         n: Node)
    requires Rectangular(b) && Solved(b, start, end, costs, preds, processed) && EndCost(costs, end) < IntMax
    requires ReachesEnd(b, end, costs, n)
    ensures OnOptimalPath(b, start, end, n.pos)
  {
    var m := EndCost(costs, end);
    var d: Heading :| costs[Node(end, d)] == m && Reach(b, n, Node(end, d), m - costs[n]);
    assert Reach(b, start, n, costs[n]) by {
      assert (n, costs[n]) in processed;
    }
    assert LeastToEnd(b, start, end, m) by {
      EndCostIsOptimal(b, start, end, costs, preds, processed);
    }
    JoinThrough(b, start, end, m, n, Node(end, d), costs[n]);
  }

  /** A state reached from the start at cost `c`, from which the end cell is reached at the remaining `m - c`, lies on a cheapest path. */
  lemma JoinThrough(b: Board, start: Node, end: Cell2D, m: int, n: Node, t: Node, c: int)
    requires Rectangular(b) && LeastToEnd(b, start, end, m) && t.pos == end
    requires Reach(b, start, n, c) && Reach(b, n, t, m - c)
    ensures OnOptimalPath(b, start, end, n.pos)
  {
    var q :| PathFromTo(b, start, q, n) && PathCost(q) == c;
    var r :| PathFromTo(b, n, r, t) && PathCost(r) == m - c;
    JoinToEnd(b, start, end, q, r, t);
    OptimalByCost(b, start, end, m, q + r[1..]);
    OnOptimalAt(b, start, end, q + r[1..], |q| - 1);
  }

  /** A path from the start followed by a path from its last state to an end state is a path to the end cell. */
  lemma JoinToEnd(b: Board, start: Node, end: Cell2D, q: seq<Node>, r: seq<Node>, t: Node)
    requires Rectangular(b) && |q| >= 1 && |r| >= 1 && q[|q| - 1] == r[0] && t.pos == end
    requires PathFromTo(b, start, q, q[|q| - 1]) && PathFromTo(b, r[0], r, t)
    ensures ToEnd(b, start, end, q + r[1..]) && PathCost(q + r[1..]) == PathCost(q) + PathCost(r)
    ensures (q + r[1..])[|q| - 1] == q[|q| - 1]
  {
    JoinPaths(b, start, q, r, t);
  }

  /** Every state of a cheapest path names a cell on a cheapest path. */
  lemma OnOptimalAt(b: Board, start: Node, end: Cell2D, path: seq<Node>, i: nat)
    requires Rectangular(b) && OptimalPath(b, start, end, path) && i < |path|
    ensures OnOptimalPath(b, start, end, path[i].pos)
  {
  }

  /** A path to the end cell at the least cost of all such paths is a cheapest one. */
  lemma OptimalByCost(b: Board, start: Node, end: Cell2D, m: int, path: seq<Node>)
    requires Rectangular(b) && LeastToEnd(b, start, end, m)
    requires ToEnd(b, start, end, path) && PathCost(path) == m
    ensures OptimalPath(b, start, end, path)
  {
  }

  /** Along a cheapest path every prefix costs exactly the recorded cost of the state it ends in. */
  lemma TightPrefix(b: Board, start: Node, end: Cell2D, costs: Costs, preds: Preds, processed: set<Entry>,
                    path: seq<Node>, k: nat)
    requires Rectangular(b) && Solved(b, start, end, costs, preds, processed) && EndCost(costs, end) < IntMax
    requires OptimalPath(b, start, end, path) && k < |path|
    ensures path[k] in costs && costs[path[k]] == PathCost(path[..k + 1])
  {
    PrefixPath(b, start, path, k);
    CostBelowPaths(b, start, costs, preds, processed, path[..k + 1], path[k]);
    if costs[path[k]] < PathCost(path[..k + 1]) {
      PathCostSplit(path, k);
      assert PathCost(path) <= EndCost(costs, end) by {
        EndCostIsOptimal(b, start, end, costs, preds, processed);
      }
      CostIsShortest(b, start, costs, preds, processed, path[k]);
      var q :| PathFromTo(b, start, q, path[k]) && PathCost(q) == costs[path[k]];
      PrefixOfOptimal(b, start, end, path, k, q);
    }
  }

  /** The prefix of a cheapest path up to a state is a cheapest path to that state. */
  lemma PrefixOfOptimal(b: Board, start: Node, end: Cell2D, path: seq<Node>, k: nat, q: seq<Node>)
    requires Rectangular(b) && OptimalPath(b, start, end, path) && k < |path|
    requires PathFromTo(b, start, q, path[k])
    ensures PathCost(path[..k + 1]) <= PathCost(q)
  {
    PathCostSplit(path, k);
    SuffixPath(b, path, k);
    JoinToEnd(b, start, end, q, path[k..], path[|path| - 1]);
  }

  /** Every move along a cheapest path is a recorded predecessor. */
  lemma OptimalMoveRecorded(b: Board, start: Node, end: Cell2D, costs: Costs, preds: Preds, processed: set<Entry>,
                            path: seq<Node>, k: nat)
    requires Rectangular(b) && Solved(b, start, end, costs, preds, processed) && EndCost(costs, end) < IntMax
    requires OptimalPath(b, start, end, path) && k + 1 < |path|
    ensures HasPred(preds, path[k + 1], path[k])
  {
    TightPrefix(b, start, end, costs, preds, processed, path, k);
    TightPrefix(b, start, end, costs, preds, processed, path, k + 1);
    PrefixCostStep(path, k);
    assert Adjacent(b, path[k].pos, path[k + 1]);
    TightMoveRecorded(b, start, costs, preds, processed, path[k + 1], path[k]);
  }

  /** Every state of a cheapest path before its last is reached backwards from the roots. */
  lemma {:induction false} OptimalIsBackward(b: Board, start: Node, end: Cell2D, costs: Costs, preds: Preds, processed: set<Entry>,
                                             roots: multiset<Node>, path: seq<Node>, j: nat)
    requires Rectangular(b) && Solved(b, start, end, costs, preds, processed) && EndCost(costs, end) < IntMax
    requires SeededFrom(costs, preds, end, roots)
    requires OptimalPath(b, start, end, path) && j + 1 < |path|
    ensures Backward(preds, roots, path[j])
    decreases |path| - j
  {
    OptimalMoveRecorded(b, start, end, costs, preds, processed, path, j);
    if j + 2 == |path| {
      var last := path[j + 1];
      TightPrefix(b, start, end, costs, preds, processed, path, j + 1);
      assert path[..j + 2] == path;
      EndCostIsOptimal(b, start, end, costs, preds, processed);
      EndCostBelow(b, start, end, costs, preds, processed, path);
      assert last == Node(end, last.dir);
      assert IsRoot(costs, preds, end, path[j]);
      BackwardRoot(preds, roots, path[j]);
    } else {
      OptimalIsBackward(b, start, end, costs, preds, processed, roots, path, j + 1);
      BackwardStep(preds, roots, path[j + 1], path[j]);
    }
  }

  /**
   * The cells the walk records from the roots are exactly the cells on a
   * cheapest path from the start to the end cell, when that cell is
   * reachable below `int.MaxValue`.
   */
  lemma OptimalCells(b: Board, start: Node, end: Cell2D, costs: Costs, preds: Preds, processed: set<Entry>,
                     roots: multiset<Node>, cells: set<Cell2D>)
    requires Rectangular(b) && Solved(b, start, end, costs, preds, processed) && EndCost(costs, end) < IntMax
    requires SeededFrom(costs, preds, end, roots)
    requires WalkCells(preds, roots, end, cells)
    ensures forall c :: c in cells <==> OnOptimalPath(b, start, end, c)
  {
    forall c ensures c in cells <==> OnOptimalPath(b, start, end, c) {
      if c == end {
        EndOnOptimal(b, start, end, costs, preds, processed);
      } else if exists n :: Backward(preds, roots, n) && n.pos == c {
        var n :| Backward(preds, roots, n) && n.pos == c;
        BackwardOnOptimal(b, start, end, costs, preds, processed, roots, n);
      }
      if OnOptimalPath(b, start, end, c) && c != end {
        var path: seq<Node>, i: int :| OptimalPath(b, start, end, path) && 0 <= i < |path| && path[i].pos == c;
        OptimalIsBackward(b, start, end, costs, preds, processed, roots, path, i);
      }
    }
  }

  lemma EndOnOptimal(b: Board, start: Node, end: Cell2D, costs: Costs, preds: Preds, processed: set<Entry>)
    requires Rectangular(b) && Solved(b, start, end, costs, preds, processed) && EndCost(costs, end) < IntMax
    ensures OnOptimalPath(b, start, end, end)
  {
    EndCostIsOptimal(b, start, end, costs, preds, processed);
    var q: seq<Node> :| ToEnd(b, start, end, q) && PathCost(q) == EndCost(costs, end);
    OptimalByCost(b, start, end, EndCost(costs, end), q);
    OnOptimalAt(b, start, end, q, |q| - 1);
  }
}

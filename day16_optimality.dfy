/**
 * What the tables `GetShortestPaths` returns mean: a finite recorded cost
 * is the cost of a cheapest path from the start, and, once the start keeps
 * cost 0, the recorded predecessors of a state are exactly the moves into
 * it that lie on a cheapest path.
 */
module Day16Optimality {
  import opened Grid2D
  import opened Day16Paths
  import opened Day16Search

  /** The prefix of `path` through index `k + 1` costs one step more than the prefix through `k`. */
  lemma PrefixCostStep(path: seq<Node>, k: nat)
    requires k + 1 < |path|
    ensures PathCost(path[..k + 2]) == PathCost(path[..k + 1]) + StepCost(path[k].dir, path[k + 1].dir)
  {
    var q := path[..k + 2];
    assert q[..|q| - 1] == path[..k + 1];
  }

  /** The bound `AllRelaxed` gives for the move from processed entry `e` to `n`. */
  lemma RelaxedMove(b: Board, costs: Costs, preds: Preds, processed: set<Entry>, e: Entry, n: Node)
    requires Rectangular(b) && AllRelaxed(b, costs, preds, processed)
    requires e in processed && Adjacent(b, e.0.pos, n)
    ensures n in costs && n in preds && costs[n] <= e.1 + StepCost(e.0.dir, n.dir)
    ensures costs[n] == e.1 + StepCost(e.0.dir, n.dir) ==> e.0 in preds[n]
  {
  }

  /** State `n`, reached at cost `c`, was processed at a cost no higher, unless `c` is out of range. */
  ghost predicate Covered(processed: set<Entry>, n: Node, c: int)
  {
    c >= IntMax || exists c' :: (n, c') in processed && c' <= c
  }

  lemma {:induction false} PrefixCovered(b: Board, start: Node, costs: Costs, preds: Preds, processed: set<Entry>,
                                         path: seq<Node>, k: nat)
    requires Rectangular(b) && Finalized(b, start, costs, preds, processed)
    requires |path| >= 1 && path[0] == start && IsPath(b, path) && k < |path|
    ensures Covered(processed, path[k], PathCost(path[..k + 1]))
    decreases k
  {
    if k == 0 {
      assert path[..1] == [start];
      assert (start, 0) in processed;
    } else {
      PrefixCovered(b, start, costs, preds, processed, path, k - 1);
      PrefixCostStep(path, k - 1);
      CoveredStep(b, start, costs, preds, processed, path[k - 1], PathCost(path[..k]), path[k]);
    }
  }

  /** One more move keeps a path covered. */
  lemma CoveredStep(b: Board, start: Node, costs: Costs, preds: Preds, processed: set<Entry>, p: Node, c: int, n: Node)
    requires Rectangular(b) && Finalized(b, start, costs, preds, processed)
    requires Covered(processed, p, c) && Adjacent(b, p.pos, n)
    ensures Covered(processed, n, c + StepCost(p.dir, n.dir))
  {
    if c < IntMax {
      var c' :| (p, c') in processed && c' <= c;
      RelaxedMove(b, costs, preds, processed, (p, c'), n);
      if costs[n] < IntMax {
        assert (n, costs[n]) in processed;
      }
    }
  }

  /**
   * Optimality: the recorded cost of `n` is at most the cost of any path
   * to it from the start (of any path with at least one move when the
   * start's own cost was overwritten).
   */
  lemma CostBelowPaths(b: Board, start: Node, costs: Costs, preds: Preds, processed: set<Entry>,
                       path: seq<Node>, n: Node)
    requires Rectangular(b) && Finalized(b, start, costs, preds, processed)
    requires PathFromTo(b, start, path, n) && (|path| >= 2 || costs[start] == 0)
    ensures n in costs && costs[n] <= PathCost(path)
  {
    if |path| >= 2 {
      var k := |path| - 2;
      PrefixCovered(b, start, costs, preds, processed, path, k);
      PrefixCostStep(path, k);
      assert path[..k + 2] == path;
      var p := path[k];
      assert Adjacent(b, p.pos, n);
      var c := PathCost(path[..k + 1]);
      if c < IntMax {
        var c' :| (p, c') in processed && c' <= c;
        RelaxedMove(b, costs, preds, processed, (p, c'), n);
      }
    }
  }

  /**
   * A finite recorded cost is the cost of a cheapest path from the start:
   * some path reaches `n` at exactly that cost and none is cheaper.
   */
  lemma CostIsShortest(b: Board, start: Node, costs: Costs, preds: Preds, processed: set<Entry>, n: Node)
    requires Rectangular(b) && Finalized(b, start, costs, preds, processed)
    requires n in costs && costs[n] < IntMax
    ensures Reach(b, start, n, costs[n])
    ensures forall path | PathFromTo(b, start, path, n) && (|path| >= 2 || costs[start] == 0) :: costs[n] <= PathCost(path)
  {
    assert (n, costs[n]) in processed;
    forall path | PathFromTo(b, start, path, n) && (|path| >= 2 || costs[start] == 0)
      ensures costs[n] <= PathCost(path)
    {
      CostBelowPaths(b, start, costs, preds, processed, path, n);
    }
  }

  /** A move out of `p` that is tight for the final costs is recorded as a predecessor. */
  lemma TightMoveRecorded(b: Board, start: Node, costs: Costs, preds: Preds, processed: set<Entry>, n: Node, p: Node)
    requires Rectangular(b) && Finalized(b, start, costs, preds, processed)
    requires p in costs && Adjacent(b, p.pos, n) && n in costs
    requires costs[p] + StepCost(p.dir, n.dir) == costs[n]
    ensures HasPred(preds, n, p)
  {
    assert costs[p] < IntMax;
    RelaxedMove(b, costs, preds, processed, (p, costs[p]), n);
  }

  /**
   * With every processed entry final (the start kept at cost 0), `p` is a
   * recorded predecessor of `n` exactly when the move from `p` to `n` is
   * tight: `costs[p]` plus the step cost is `costs[n]`.
   */
  lemma PredsAreTightMoves(b: Board, start: Node, costs: Costs, preds: Preds, processed: set<Entry>, n: Node, p: Node)
    requires Rectangular(b) && Finalized(b, start, costs, preds, processed) && Settled(costs, processed)
    requires n in costs && p in costs
    ensures HasPred(preds, n, p) <==> Adjacent(b, p.pos, n) && costs[p] + StepCost(p.dir, n.dir) == costs[n]
  {
    if HasPred(preds, n, p) {
      assert (p, costs[n] - StepCost(p.dir, n.dir)) in processed;
    }
    if Adjacent(b, p.pos, n) && costs[p] + StepCost(p.dir, n.dir) == costs[n] {
      TightMoveRecorded(b, start, costs, preds, processed, n, p);
    }
  }
}

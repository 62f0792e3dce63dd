/**
 * A maze on which part two of 2024/Day16.cs, as written, never finishes.
 * The start cell lies between a dead-end cell to the west and the end cell
 * to the east. `GetShortestPaths` overwrites the start's cost 0 with
 * `int.MaxValue` (line 72), so turning round in the dead end and coming
 * back (cost 2002) is recorded as the start's cost, with the dead end as
 * its predecessor, while the dead end keeps the start as its own
 * predecessor. The end's cheapest state is seeded with the start, and the
 * walk of lines 51-57, which keeps no visited set, goes round the two for
 * ever. The intended answer is 2: the start and the end cell.
 */
module Day16Corner {
  import opened Grid2D
  import opened Day16Paths
  import opened Day16Search
  import opened Day16Optimality
  import opened Day16Walk
  import opened Day16OptimalCells

  /** `b` is the corner maze: a start between a dead end to the west and the end to the east. */
  predicate IsCornerMaze(b: Board)
  {
    |b| == 3 && b[0] == "#####" && b[1] == "#.SE#" && b[2] == "#####"
  }

  const CornerStart := Node(Cell2D(1, 2), Right)
  const CornerWest := Node(Cell2D(1, 1), Left)
  const CornerEnd := Cell2D(1, 3)

  /** The only open cells are the dead end, the start and the end; 'S' and 'E' each label one cell. */
  lemma CornerCells(b: Board, c: Cell2D)
    requires IsCornerMaze(b)
    ensures Rectangular(b)
    ensures Open(b, c) <==> c == Cell2D(1, 1) || c == Cell2D(1, 2) || c == Cell2D(1, 3)
    ensures InRange(b, c) && At(b, c) == 'S' <==> c == Cell2D(1, 2)
    ensures InRange(b, c) && At(b, c) == 'E' <==> c == Cell2D(1, 3)
  {
    assert Width(b) == 5;
  }

  /** A path whose first and last states face different ways makes at least one turn. */
  lemma {:induction false} TurnCost(path: seq<Node>)
    requires |path| >= 1 && path[0].dir != path[|path| - 1].dir
    ensures PathCost(path) >= 1001
    decreases |path|
  {
    var k := |path| - 1;
    if path[k - 1].dir == path[k].dir {
      var front := path[..k];
      assert front[0] == path[0] && front[k - 1] == path[k - 1];
      TurnCost(front);
    }
  }

  /** Every state of a path from the start stands on an open cell. */
  lemma PathOpen(b: Board, start: Node, path: seq<Node>, i: nat)
    requires Rectangular(b) && Open(b, start.pos) && |path| >= 1 && path[0] == start && IsPath(b, path) && i < |path|
    ensures Open(b, path[i].pos)
  {
    if i > 0 {
      assert Adjacent(b, path[i - 1].pos, path[i]);
    }
  }

  /** In the corner maze a path can only enter the dead end facing west. */
  lemma DeadEndFacesWest(b: Board, path: seq<Node>, k: nat)
    requires IsCornerMaze(b) && Rectangular(b)
    requires |path| >= 1 && path[0] == CornerStart && IsPath(b, path)
    requires 1 <= k < |path| && path[k].pos == CornerWest.pos
    ensures path[k].dir == Left
  {
    CornerCells(b, CornerStart.pos);
    PathOpen(b, CornerStart, path, k - 1);
    assert Adjacent(b, path[k - 1].pos, path[k]);
    CornerCells(b, path[k - 1].pos);
  }

  /** Leaving the start and coming back to it costs at least two turns. */
  lemma ReturnCost(b: Board, path: seq<Node>)
    requires IsCornerMaze(b) && Rectangular(b)
    requires PathFromTo(b, CornerStart, path, CornerStart) && |path| >= 2
    ensures PathCost(path) >= 2002
  {
    var k := |path| - 2;
    CornerCells(b, CornerStart.pos);
    PathOpen(b, CornerStart, path, k);
    assert Adjacent(b, path[k].pos, path[k + 1]);
    CornerCells(b, path[k].pos);
    DeadEndFacesWest(b, path, k);
    PathCostSplit(path, k);
    var front, back := path[..k + 1], path[k..];
    assert front[0] == CornerStart && front[|front| - 1] == path[k];
    assert back[0] == path[k] && back[|back| - 1] == CornerStart;
    TurnCost(front);
    TurnCost(back);
  }

  /** The dead end is reached at cost 1001, with the start recorded as its predecessor. */
  lemma CornerWestCost(b: Board, costs: Costs, preds: Preds, processed: set<Entry>)
    requires IsCornerMaze(b) && Rectangular(b)
    requires Finalized(b, CornerStart, costs, preds, processed)
    ensures CornerWest in costs && costs[CornerWest] == 1001 && HasPred(preds, CornerWest, CornerStart)
  {
    CornerCells(b, CornerWest.pos);
    RelaxedMove(b, costs, preds, processed, (CornerStart, 0), CornerWest);
    assert (CornerWest, costs[CornerWest]) in processed;
    var path :| PathFromTo(b, CornerStart, path, CornerWest) && PathCost(path) == costs[CornerWest];
    TurnCost(path);
  }

  /** With the start's cost overwritten, the start is recorded at cost 2002 with the dead end as predecessor. */
  lemma CornerStartCost(b: Board, costs: Costs, preds: Preds, processed: set<Entry>)
    requires IsCornerMaze(b) && Rectangular(b)
    requires Finalized(b, CornerStart, costs, preds, processed) && costs[CornerStart] >= 1
    ensures costs[CornerStart] == 2002 && HasPred(preds, CornerStart, CornerWest)
  {
    CornerWestCost(b, costs, preds, processed);
    CornerCells(b, CornerStart.pos);
    RelaxedMove(b, costs, preds, processed, (CornerWest, 1001), CornerStart);
    assert (CornerStart, costs[CornerStart]) in processed;
    var path :| PathFromTo(b, CornerStart, path, CornerStart) && PathCost(path) == costs[CornerStart];
    ReturnCost(b, path);
  }

  /** The east-facing end state costs 1, the least end cost, and has the start as predecessor. */
  lemma CornerEndCost(b: Board, costs: Costs, preds: Preds, processed: set<Entry>)
    requires IsCornerMaze(b) && Rectangular(b)
    requires Finalized(b, CornerStart, costs, preds, processed)
    ensures forall d: Heading :: Node(CornerEnd, d) in costs
    ensures IsRoot(costs, preds, CornerEnd, CornerStart)
  {
    CornerCells(b, CornerEnd);
    forall d: Heading ensures Node(CornerEnd, d) in costs && costs[Node(CornerEnd, d)] >= 1 {
      assert InDomain(b, CornerStart, Node(CornerEnd, d));
    }
    var east := Node(CornerEnd, Right);
    RelaxedMove(b, costs, preds, processed, (CornerStart, 0), east);
    assert costs[east] == 1 && HasPred(preds, east, CornerStart);
    assert EndCost(costs, CornerEnd) == 1;
  }

  /**
   * On the corner maze the tables `GetShortestPaths` returns record the
   * start and the dead end as each other's predecessors, and the start as
   * a predecessor of a cheapest end state.
   */
  lemma CornerTables(b: Board, costs: Costs, preds: Preds, processed: set<Entry>)
    requires IsCornerMaze(b) && Rectangular(b)
    requires Finalized(b, CornerStart, costs, preds, processed) && costs[CornerStart] >= 1
    ensures Cycle(preds, CornerStart, CornerWest)
    ensures forall d: Heading :: Node(CornerEnd, d) in costs
    ensures IsRoot(costs, preds, CornerEnd, CornerStart)
  {
    CornerWestCost(b, costs, preds, processed);
    CornerStartCost(b, costs, preds, processed);
    CornerEndCost(b, costs, preds, processed);
  }
}

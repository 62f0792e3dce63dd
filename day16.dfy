/**
 * Model of the two puzzle answers of 2024/Day16.cs: finding the start and
 * end cells, part one's least cost of reaching the end, and part two's
 * count of the cells on cheapest paths, both as written and with the start
 * keeping cost 0.
 */
module Day16 {
  import opened Wrappers
  import opened Grid2D
  import opened Day16Paths
  import opened Day16Search
  import opened Day16ShortestPaths
  import opened Day16Optimality
  import opened Day16Walk
  import opened Day16OptimalCells
  import opened Day16Corner

  // ---------------------------------------------------------------------
  // Start and end (lines 127-135)

  /** `c` is the one cell of `b` labelled `ch`. */
  ghost predicate OnlyCell(b: Board, ch: char, c: Cell2D)
    requires Rectangular(b)
  {
    InRange(b, c) && At(b, c) == ch && forall d | InRange(b, d) && At(b, d) == ch :: d == c
  }

  /**
   * The cell labelled `ch`, as `.Single()` over the labelled cells finds it:
   * `None` where `.Single()` throws, because there is no such cell or more
   * than one.
   */
  function FindSingle(b: Board, ch: char): (r: Option<Cell2D>)
    requires Rectangular(b)
    ensures forall c :: r == Some(c) <==> OnlyCell(b, ch, c)
  {
    var cs := CellsWhere(b, v => v == ch);
    SingleCell(b, ch, cs);
    if |cs| == 1 then Some(cs[0]) else None
  }

  lemma SingleCell(b: Board, ch: char, cs: seq<Cell2D>)
    requires Rectangular(b) && RowMajorSorted(cs)
    requires forall c :: c in cs <==> InRange(b, c) && At(b, c) == ch
    ensures forall c :: (|cs| == 1 && c == cs[0]) <==> OnlyCell(b, ch, c)
  {
    if |cs| >= 2 {
      assert RowMajorBefore(cs[0], cs[1]);
      assert cs[0] in cs && cs[1] in cs;
    }
    forall c | OnlyCell(b, ch, c) ensures |cs| == 1 && c == cs[0] {
      assert c in cs;
    }
  }

  function FindStartPosition(b: Board): (r: Option<Cell2D>)
    requires Rectangular(b)
    ensures forall c :: r == Some(c) <==> OnlyCell(b, 'S', c)
  {
    FindSingle(b, 'S')
  }

  function FindEndPosition(b: Board): (r: Option<Cell2D>)
    requires Rectangular(b)
    ensures forall c :: r == Some(c) <==> OnlyCell(b, 'E', c)
  {
    FindSingle(b, 'E')
  }

  /** The direction at position `k` of `Directions`. */
  function HeadingAt(k: nat): (d: Heading)
    requires k < 4
    ensures DirIndex(d) == k
  {
    if k == 0 then Up else if k == 1 then Right else if k == 2 then Down else Left
  }

  // ---------------------------------------------------------------------
  // Part one (lines 14-25)

  /**
   * `v` is the least cost of a path from `start` to the end cell: no path
   * costs less, and below `int.MaxValue` some path costs exactly `v`.
   */
  ghost predicate LeastCost(b: Board, start: Node, end: Cell2D, v: int)
    requires Rectangular(b)
  {
    LeastToEnd(b, start, end, v) && v <= IntMax &&
    (v < IntMax ==> exists q {:trigger ToEnd(b, start, end, q)} :: ToEnd(b, start, end, q) && PathCost(q) == v)
  }

  /** The four states on the end cell are table keys once the end is an open cell. */
  lemma EndStatesKnown(b: Board, start: Node, end: Cell2D, costs: Costs, preds: Preds, processed: set<Entry>)
    requires Rectangular(b) && Finalized(b, start, costs, preds, processed) && Open(b, end)
    ensures forall d: Heading :: Node(end, d) in costs && Node(end, d) in preds
  {
    forall d: Heading ensures Node(end, d) in costs && Node(end, d) in preds {
      assert InDomain(b, start, Node(end, d));
    }
  }

  /** The least end cost is part one's answer, whether or not the start kept cost 0. */
  lemma EndCostIsLeast(b: Board, start: Node, end: Cell2D, costs: Costs, preds: Preds, processed: set<Entry>)
    requires Rectangular(b) && Finalized(b, start, costs, preds, processed) && start.pos != end
    requires forall d: Heading :: Node(end, d) in costs
    ensures LeastCost(b, start, end, EndCost(costs, end))
  {
    var m := EndCost(costs, end);
    forall q | ToEnd(b, start, end, q) ensures m <= PathCost(q) {
      var n := q[|q| - 1];
      CostBelowPaths(b, start, costs, preds, processed, q, n);
      assert n == Node(end, n.dir);
    }
    var d: Heading :| costs[Node(end, d)] == m;
    assert m <= IntMax;
    if m < IntMax {
      CostIsShortest(b, start, costs, preds, processed, Node(end, d));
      var q :| PathFromTo(b, start, q, Node(end, d)) && PathCost(q) == m;
      assert ToEnd(b, start, end, q);
    }
  }

  /**
   * Part one: `None` where the grid cannot be built from the text or a
   * start or end cell is missing or repeated, else the least cost of
   * reaching the end.
   */
  method Solve1(input: string) returns (r: Option<int>)
    ensures r.None? <==> (TextBoard(input).None?
      || FindStartPosition(TextBoard(input).value).None? || FindEndPosition(TextBoard(input).value).None?)
    ensures r.Some? ==> var b := TextBoard(input).value;
      LeastCost(b, Node(FindStartPosition(b).value, Right), FindEndPosition(b).value, r.value)
  {
    var grid := TextBoard(input);
    if grid.None? {
      return None;
    }
    var b := grid.value;
    var s := FindStartPosition(b);
    var e := FindEndPosition(b);
    if s.None? || e.None? {
      return None;
    }
    var start, end := Node(s.value, Right), e.value;
    var costs, preds, processed := GetShortestPaths(b, start);
    EndStatesKnown(b, start, end, costs, preds, processed);
    EndCostIsLeast(b, start, end, costs, preds, processed);
    r := Some(EndCost(costs, end));
  }

  // ---------------------------------------------------------------------
  // Part two (lines 27-60)

  /** The seeding loop (lines 42-49): the predecessors of every end state of least cost. */
  method SeedQueue(costs: Costs, preds: Preds, end: Cell2D) returns (queue: multiset<Node>)
    requires forall d: Heading :: Node(end, d) in costs && Node(end, d) in preds
    ensures SeededFrom(costs, preds, end, queue)
  {
    var minCost := EndCost(costs, end);
    queue := multiset{};
    for k := 0 to 4
      invariant forall n {:trigger queue[n]} :: queue[n] > 0 <==>
        exists j | 0 <= j < k :: costs[Node(end, HeadingAt(j))] == minCost && n in preds[Node(end, HeadingAt(j))]
    {
      var direction := HeadingAt(k);
      if costs[Node(end, direction)] != minCost {
        continue;
      }
      queue := queue + multiset(preds[Node(end, direction)]);
    }
    forall n ensures queue[n] > 0 <==> IsRoot(costs, preds, end, n) {
      if IsRoot(costs, preds, end, n) {
        var d: Heading :| costs[Node(end, d)] == minCost && HasPred(preds, Node(end, d), n);
        assert HeadingAt(DirIndex(d)) == d;
      }
    }
  }

  /** Every seeded state and every recorded predecessor is a key of the predecessor table. */
  lemma TablesClosed(b: Board, start: Node, end: Cell2D, costs: Costs, preds: Preds, processed: set<Entry>,
                     roots: multiset<Node>)
    requires Rectangular(b) && Finalized(b, start, costs, preds, processed)
    requires (forall d: Heading :: Node(end, d) in costs) && SeededFrom(costs, preds, end, roots)
    ensures Closed(preds, roots)
  {
    forall n {:trigger roots[n]} | n in roots ensures n in preds {
      assert IsRoot(costs, preds, end, n);
      var d: Heading :| costs[Node(end, d)] == EndCost(costs, end) && HasPred(preds, Node(end, d), n);
      PredKnown(b, start, costs, preds, processed, Node(end, d), n);
    }
    forall n, p | HasPred(preds, n, p) ensures p in preds {
      PredKnown(b, start, costs, preds, processed, n, p);
    }
  }

  /**
   * The outcome of part two as written: a text the grid cannot be built
   * from, a start or end cell missing or repeated, a walk that has not
   * finished, or the count.
   */
  datatype Answer = BadGrid | MissingCell | Unfinished | Count(n: nat)

  /**
   * Part two as written, with the walk bounded by `fuel` steps. On the
   * corner maze it never finishes, however much fuel it is given.
   */
  method Solve2(input: string, fuel: nat) returns (r: Answer)
    ensures r == BadGrid <==> TextBoard(input).None?
    ensures r == MissingCell <==> (TextBoard(input).Some?
      && (FindStartPosition(TextBoard(input).value).None? || FindEndPosition(TextBoard(input).value).None?))
    ensures r.Count? ==> r.n >= 1
    ensures TextBoard(input).Some? && IsCornerMaze(TextBoard(input).value) ==> r == Unfinished
  {
    var grid := TextBoard(input);
    if grid.None? {
      return BadGrid;
    }
    var b := grid.value;
    var s := FindStartPosition(b);
    var e := FindEndPosition(b);
    CornerEndpoints(b);
    if s.None? || e.None? {
      return MissingCell;
    }
    var start, end := Node(s.value, Right), e.value;
    assert OnlyCell(b, 'S', start.pos) && OnlyCell(b, 'E', end);
    var costs, preds, processed := GetShortestPaths(b, start);
    EndStatesKnown(b, start, end, costs, preds, processed);
    var queue := SeedQueue(costs, preds, end);
    CornerSeeds(b, start, end, costs, preds, processed, queue);
    var walked := WalkBounded(preds, queue, end, fuel, CornerStart, CornerWest);
    if walked.None? {
      return Unfinished;
    }
    assert end in walked.value;
    r := Count(|walked.value|);
  }

  /** The corner maze has one start cell and one end cell. */
  lemma CornerEndpoints(b: Board)
    requires Rectangular(b)
    ensures IsCornerMaze(b) ==> FindStartPosition(b) == Some(CornerStart.pos) && FindEndPosition(b) == Some(CornerEnd)
  {
    if IsCornerMaze(b) {
      forall c ensures OnlyCell(b, 'S', c) <==> c == CornerStart.pos {
        CornerCells(b, c);
        forall d | InRange(b, d) ensures At(b, d) == 'S' <==> d == CornerStart.pos {
          CornerCells(b, d);
        }
      }
      forall c ensures OnlyCell(b, 'E', c) <==> c == CornerEnd {
        CornerCells(b, c);
        forall d | InRange(b, d) ensures At(b, d) == 'E' <==> d == CornerEnd {
          CornerCells(b, d);
        }
      }
    }
  }

  /** The walk may start from the seeded queue; on the corner maze that queue holds the start, which lies on a two-state predecessor cycle. */
  lemma CornerSeeds(b: Board, start: Node, end: Cell2D, costs: Costs, preds: Preds, processed: set<Entry>,
                    queue: multiset<Node>)
    requires Rectangular(b) && OnlyCell(b, 'S', start.pos) && start.dir == Right && OnlyCell(b, 'E', end)
    requires Finalized(b, start, costs, preds, processed) && (Open(b, start.pos) ==> costs[start] >= 1)
    requires (forall d: Heading :: Node(end, d) in costs) && SeededFrom(costs, preds, end, queue)
    ensures Closed(preds, queue)
    ensures IsCornerMaze(b) ==> Cycle(preds, CornerStart, CornerWest) && queue[CornerStart] > 0
  {
    TablesClosed(b, start, end, costs, preds, processed, queue);
    if IsCornerMaze(b) {
      CornerCells(b, start.pos);
      CornerCells(b, end);
      CornerTables(b, costs, preds, processed);
    }
  }

  /** With the start kept at cost 0, the tables let the walk from the seeded queue terminate. */
  lemma FixedTablesWalkable(b: Board, start: Node, end: Cell2D, costs: Costs, preds: Preds, processed: set<Entry>,
                            roots: multiset<Node>)
    requires Rectangular(b) && Finalized(b, start, costs, preds, processed) && Settled(costs, processed)
    requires (forall d: Heading :: Node(end, d) in costs) && SeededFrom(costs, preds, end, roots)
    ensures Closed(preds, roots) && Descending(costs, preds, roots)
  {
    TablesClosed(b, start, end, costs, preds, processed, roots);
    forall n {:trigger roots[n]} | n in roots ensures n in costs && costs[n] >= 0 {
      assert IsRoot(costs, preds, end, n);
      var d: Heading :| costs[Node(end, d)] == EndCost(costs, end) && HasPred(preds, Node(end, d), n);
      PredKnown(b, start, costs, preds, processed, Node(end, d), n);
    }
    forall n, p | HasPred(preds, n, p) ensures n in costs && p in costs && 0 <= costs[p] < costs[n] {
      PredKnown(b, start, costs, preds, processed, n, p);
      PredsAreTightMoves(b, start, costs, preds, processed, n, p);
    }
    forall n | n in preds ensures |preds[n]| <= 4 {
      PredsAtMostFour(b, start, costs, preds, processed, n);
    }
  }

  /** A recorded predecessor is itself a key of both tables. */
  lemma PredKnown(b: Board, start: Node, costs: Costs, preds: Preds, processed: set<Entry>, n: Node, p: Node)
    requires Rectangular(b) && Finalized(b, start, costs, preds, processed) && HasPred(preds, n, p)
    ensures n in costs && p in preds && p in costs && costs[p] >= 0
  {
    assert (p, costs[n] - StepCost(p.dir, n.dir)) in processed;
  }

  /** A state has at most four recorded predecessors: they all stand on the one cell a step behind it. */
  lemma PredsAtMostFour(b: Board, start: Node, costs: Costs, preds: Preds, processed: set<Entry>, n: Node)
    requires Rectangular(b) && Finalized(b, start, costs, preds, processed) && n in preds
    ensures |preds[n]| <= 4
  {
    var behind := Cell2D(n.pos.y - n.dir.y, n.pos.x - n.dir.x);
    var around := {Node(behind, Up), Node(behind, Right), Node(behind, Down), Node(behind, Left)};
    forall p | p in preds[n] ensures p in around {
      assert HasPred(preds, n, p);
      assert (p, costs[n] - StepCost(p.dir, n.dir)) in processed;
      assert p.pos == behind;
    }
    SubsetSize(preds[n], around);
  }

  lemma {:induction false} SubsetSize<T>(a: set<T>, c: set<T>)
    requires a <= c
    ensures |a| <= |c|
    decreases |c|
  {
    if a != {} {
      var x :| x in a;
      SubsetSize(a - {x}, c - {x});
    }
  }

  /** A path to the end cheaper than `int.MaxValue` makes the least end cost finite. */
  lemma ReachableEnd(b: Board, start: Node, end: Cell2D, costs: Costs, preds: Preds, processed: set<Entry>, q: seq<Node>)
    requires Rectangular(b) && Solved(b, start, end, costs, preds, processed)
    requires ToEnd(b, start, end, q) && PathCost(q) < IntMax
    ensures EndCost(costs, end) < IntMax
  {
    EndCostIsLeast(b, start, end, costs, preds, processed);
  }

  /**
   * Part two with the start kept at cost 0: `None` where a start or end
   * cell is missing or repeated; otherwise the number of cells in `cells`,
   * which, when the end can be reached below `int.MaxValue`, are exactly the
   * cells on some cheapest path from the start to the end.
   */
  method Solve2Fixed(input: string) returns (r: Option<nat>, ghost cells: set<Cell2D>)
    ensures r.None? <==> (TextBoard(input).None?
      || FindStartPosition(TextBoard(input).value).None? || FindEndPosition(TextBoard(input).value).None?)
    ensures r.Some? ==> r.value == |cells|
    ensures r.Some? ==> var b := TextBoard(input).value;
      var start, end := Node(FindStartPosition(b).value, Right), FindEndPosition(b).value;
      (exists q {:trigger ToEnd(b, start, end, q)} :: ToEnd(b, start, end, q) && PathCost(q) < IntMax) ==>
      forall c :: c in cells <==> OnOptimalPath(b, start, end, c)
  {
    var grid := TextBoard(input);
    if grid.None? {
      return None, {};
    }
    var b := grid.value;
    var s := FindStartPosition(b);
    var e := FindEndPosition(b);
    if s.None? || e.None? {
      return None, {};
    }
    var start, end := Node(s.value, Right), e.value;
    assert OnlyCell(b, 'S', start.pos) && OnlyCell(b, 'E', end);
    var costs, preds, processed := GetShortestPathsFixed(b, start);
    EndStatesKnown(b, start, end, costs, preds, processed);
    var queue := SeedQueue(costs, preds, end);
    FixedTablesWalkable(b, start, end, costs, preds, processed, queue);
    var result := Walk(costs, preds, queue, end);
    r, cells := Some(|result|), result;
    if exists q {:trigger ToEnd(b, start, end, q)} :: ToEnd(b, start, end, q) && PathCost(q) < IntMax {
      var q :| ToEnd(b, start, end, q) && PathCost(q) < IntMax;
      ReachableEnd(b, start, end, costs, preds, processed, q);
      OptimalCells(b, start, end, costs, preds, processed, queue, cells);
    }
  }
}

/**
 * Model of `GetShortestPaths` in 2024/Day16.cs: the initial cost and
 * predecessor tables, the relaxation of one popped state's neighbours, and
 * the priority-queue loop. The queue is a multiset of (state, cost)
 * entries from which an entry of least cost is taken; which one among
 * equal costs is unspecified. `processed` records, as ghost state, the
 * popped entries that were not discarded.
 */
module Day16Search {
  import opened Grid2D
  import opened Day16Paths

  type Costs = map<Node, int>
  type Preds = map<Node, set<Node>>
  type Entry = (Node, int)

  /** The states the tables hold: every open cell in every direction, and the start. */
  predicate InDomain(b: Board, start: Node, n: Node)
    requires Rectangular(b)
  {
    n == start || Open(b, n.pos)
  }

  // ---------------------------------------------------------------------
  // Initialization (lines 65-76)

  /** `FindOpenPositions` (lines 123-125): the cells that are not walls, in row-major order. */
  function FindOpenPositions(b: Board): (cs: seq<Cell2D>)
    requires Rectangular(b)
    ensures forall c {:trigger c in cs} :: c in cs <==> Open(b, c)
  {
    CellsWhere(b, v => v != '#')
  }

  /** The states of `cells`, each in the four directions: the `SelectMany` of line 72. */
  function StatesOf(cells: seq<Cell2D>): (ns: seq<Node>)
    ensures forall n {:trigger n in ns} :: n in ns <==> n.pos in cells
  {
    if |cells| == 0 then []
    else
      var c := cells[0];
      [Node(c, Up), Node(c, Right), Node(c, Down), Node(c, Left)] + StatesOf(cells[1..])
  }

  /**
   * The tables as the source builds them: `costs[start] = 0` first, then
   * every open cell in every direction gets `int.MaxValue` and an empty
   * predecessor set. When the start cell is open this overwrites the 0.
   */
  method InitTables(b: Board, start: Node) returns (costs: Costs, preds: Preds)
    requires Rectangular(b)
    ensures forall n :: n in costs <==> InDomain(b, start, n)
    ensures forall n :: n in preds <==> InDomain(b, start, n)
    ensures forall n | n in preds :: preds[n] == {}
    ensures forall n | n in costs && n != start :: costs[n] == IntMax
    ensures start in costs && costs[start] == if Open(b, start.pos) then IntMax else 0
  {
    var nodes := StatesOf(FindOpenPositions(b));
    costs, preds := FillTables(map[start := 0], map[start := {}], nodes);
  }

  /** The loop of lines 72-76: every state of `nodes` gets `int.MaxValue` and an empty predecessor set. */
  method FillTables(costs: Costs, preds: Preds, nodes: seq<Node>) returns (costs': Costs, preds': Preds)
    ensures costs'.Keys == costs.Keys + (set n | n in nodes) && preds'.Keys == preds.Keys + (set n | n in nodes)
    ensures forall n | n in costs' :: costs'[n] == if n in nodes then IntMax else costs[n]
    ensures forall n | n in preds' :: preds'[n] == if n in nodes then {} else preds[n]
  {
    costs', preds' := costs, preds;
    for i := 0 to |nodes|
      invariant costs'.Keys == costs.Keys + (set n | n in nodes[..i])
      invariant preds'.Keys == preds.Keys + (set n | n in nodes[..i])
      invariant forall n | n in costs' :: costs'[n] == if n in nodes[..i] then IntMax else costs[n]
      invariant forall n | n in preds' :: preds'[n] == if n in nodes[..i] then {} else preds[n]
    {
      assert nodes[..i + 1] == nodes[..i] + [nodes[i]];
      costs' := costs'[nodes[i] := IntMax];
      preds' := preds'[nodes[i] := {}];
    }
    assert nodes[..|nodes|] == nodes;
  }

  /** The evidently intended initialization: the start keeps cost 0. */
  method InitTablesFixed(b: Board, start: Node) returns (costs: Costs, preds: Preds)
    requires Rectangular(b)
    ensures forall n :: n in costs <==> InDomain(b, start, n)
    ensures forall n :: n in preds <==> InDomain(b, start, n)
    ensures forall n | n in preds :: preds[n] == {}
    ensures forall n | n in costs && n != start :: costs[n] == IntMax
    ensures start in costs && costs[start] == 0
  {
    costs, preds := InitTables(b, start);
    costs := costs[start := 0];
  }

  /** What both initializations guarantee and the search loop relies on. */
  ghost predicate Initialized(b: Board, start: Node, costs: Costs, preds: Preds)
    requires Rectangular(b)
  {
    (forall n :: n in costs <==> InDomain(b, start, n)) &&
    (forall n :: n in preds <==> InDomain(b, start, n)) &&
    (forall n | n in preds :: preds[n] == {}) &&
    (forall n | n in costs :: costs[n] == IntMax || (n == start && costs[n] == 0))
  }

  // ---------------------------------------------------------------------
  // Relaxing the neighbours of one popped state (lines 87-104)

  /**
   * One neighbour `n`, with cost `cn` and predecessors `pn`, relaxed from
   * `cur` popped at cost `c` (lines 93-103): a strictly cheaper cost
   * replaces the predecessor set by `{cur}`, an equal one adds `cur` to it,
   * both write the cost; a dearer one changes nothing.
   */
  ghost predicate Relaxed(cn: int, pn: set<Node>, cur: Node, c: int, n: Node, cn': int, pn': set<Node>)
  {
    var v := c + StepCost(cur.dir, n.dir);
    if cn < v then cn' == cn && pn' == pn
    else cn' == v && pn' == (if cn == v then pn + {cur} else {cur})
  }

  /** Same keys, and every state not in `moved` kept its cost and predecessors. */
  ghost predicate Frame(costs: Costs, preds: Preds, moved: set<Node>, costs': Costs, preds': Preds)
  {
    costs'.Keys == costs.Keys && preds'.Keys == preds.Keys &&
    (forall n | n in costs && n !in moved :: costs'[n] == costs[n]) &&
    (forall n | n in preds && n !in moved :: preds'[n] == preds[n])
  }

  /** Relaxing from `cur` changed no key and no state that is not a move out of `cur`. */
  ghost predicate Unmoved(b: Board, costs: Costs, preds: Preds, cur: Node, costs': Costs, preds': Preds)
    requires Rectangular(b)
  {
    costs'.Keys == costs.Keys && preds'.Keys == preds.Keys &&
    (forall n | n in costs && !Adjacent(b, cur.pos, n) :: costs'[n] == costs[n]) &&
    (forall n | n in preds && !Adjacent(b, cur.pos, n) :: preds'[n] == preds[n])
  }

  /** Every move out of `cur`, popped at cost `c`, went through one of the three cases of lines 93-103. */
  ghost predicate NeighboursRelaxed(b: Board, costs: Costs, preds: Preds, cur: Node, c: int, costs': Costs, preds': Preds)
    requires Rectangular(b)
  {
    forall n | Adjacent(b, cur.pos, n) ::
      n in costs && n in preds && n in costs' && n in preds' &&
      Relaxed(costs[n], preds[n], cur, c, n, costs'[n], preds'[n])
  }

  /** Exactly the moves whose cost was written are enqueued, at their new cost (line 102). */
  ghost predicate PushedExactly(b: Board, costs: Costs, cur: Node, c: int, pushed: multiset<Entry>)
    requires Rectangular(b)
  {
    (forall e {:trigger pushed[e]} :: e in pushed <==> Adjacent(b, cur.pos, e.0) && e.1 == c + StepCost(cur.dir, e.0.dir) && e.0 in costs && costs[e.0] >= e.1) &&
    |pushed| <= 4
  }

  /** The effect of relaxing the neighbours of `cur`, popped at cost `c`. */
  ghost predicate RelaxedFrom(b: Board, costs: Costs, preds: Preds, cur: Node, c: int,
                              costs': Costs, preds': Preds, pushed: multiset<Entry>)
    requires Rectangular(b)
  {
    Unmoved(b, costs, preds, cur, costs', preds') &&
    NeighboursRelaxed(b, costs, preds, cur, c, costs', preds') &&
    PushedExactly(b, costs, cur, c, pushed)
  }

  /** The body of the loop at lines 87-104 for one neighbour `next`. */
  method RelaxNeighbour(costs: Costs, preds: Preds, cur: Node, c: int, next: Node)
    returns (costs': Costs, preds': Preds, enqueued: bool)
    requires next in costs && next in preds
    ensures Frame(costs, preds, {next}, costs', preds')
    ensures Relaxed(costs[next], preds[next], cur, c, next, costs'[next], preds'[next])
    ensures enqueued <==> costs[next] >= c + StepCost(cur.dir, next.dir)
  {
    var newCost := if cur.dir == next.dir then c + 1 else c + 1001;
    costs', preds', enqueued := costs, preds, false;
    if costs[next] >= newCost {
      if costs[next] == newCost {
        preds' := preds[next := preds[next] + {cur}];
      } else {
        preds' := preds[next := {cur}];
      }
      costs' := costs[next := newCost];
      enqueued := true;
    }
  }

  /** The states of `done` are relaxed and enqueued as required; the others kept their entries. */
  ghost predicate RelaxedSet(costs: Costs, preds: Preds, cur: Node, c: int, done: set<Node>,
                             costs': Costs, preds': Preds, pushed: multiset<Entry>)
  {
    Frame(costs, preds, done, costs', preds') &&
    (forall n | n in done ::
       n in costs && n in preds && n in costs' && n in preds' &&
       Relaxed(costs[n], preds[n], cur, c, n, costs'[n], preds'[n])) &&
    (forall e {:trigger pushed[e]} :: e in pushed <==> e.0 in done && e.1 == c + StepCost(cur.dir, e.0.dir) && e.0 in costs && costs[e.0] >= e.1)
  }

  /** Relaxing one more state `next` outside `done` extends `RelaxedSet` to `done + {next}`. */
  lemma RelaxedSetStep(costs: Costs, preds: Preds, cur: Node, c: int, done: set<Node>,
                       costs': Costs, preds': Preds, pushed: multiset<Entry>, next: Node,
                       costs'': Costs, preds'': Preds, enqueued: bool)
    requires RelaxedSet(costs, preds, cur, c, done, costs', preds', pushed)
    requires next !in done && next in costs && next in preds
    requires Frame(costs', preds', {next}, costs'', preds'')
    requires Relaxed(costs'[next], preds'[next], cur, c, next, costs''[next], preds''[next])
    requires enqueued <==> costs'[next] >= c + StepCost(cur.dir, next.dir)
    ensures RelaxedSet(costs, preds, cur, c, done + {next}, costs'', preds'',
                       if enqueued then pushed + multiset{(next, c + StepCost(cur.dir, next.dir))} else pushed)
  {
  }

  /** The loop of lines 87-104 over a list of distinct neighbours. */
  method RelaxAll(costs: Costs, preds: Preds, cur: Node, c: int, ns: seq<Node>)
    returns (costs': Costs, preds': Preds, pushed: multiset<Entry>)
    requires forall j | 0 <= j < |ns| :: ns[j] in costs && ns[j] in preds
    requires forall i, j | 0 <= i < j < |ns| :: ns[i] != ns[j]
    ensures RelaxedSet(costs, preds, cur, c, (set n | n in ns), costs', preds', pushed)
    ensures |pushed| <= |ns|
  {
    costs', preds', pushed := costs, preds, multiset{};
    ghost var done: set<Node> := {};
    for i := 0 to |ns|
      invariant RelaxedSet(costs, preds, cur, c, done, costs', preds', pushed)
      invariant forall n | n in done :: n in ns
      invariant forall j | 0 <= j < i :: ns[j] in done
      invariant forall j | i <= j < |ns| :: ns[j] !in done
      invariant |pushed| <= i
    {
      var next := ns[i];
      var enqueued;
      ghost var c0, p0 := costs', preds';
      costs', preds', enqueued := RelaxNeighbour(costs', preds', cur, c, next);
      RelaxedSetStep(costs, preds, cur, c, done, c0, p0, pushed, next, costs', preds', enqueued);
      if enqueued {
        pushed := pushed + multiset{(next, c + StepCost(cur.dir, next.dir))};
      }
      done := done + {next};
    }
    assert done == set n | n in ns;
  }

  /** Relaxes every neighbour `NextNodes` yields for the popped state `cur`. */
  method Settle(b: Board, costs: Costs, preds: Preds, cur: Node, c: int)
    returns (costs': Costs, preds': Preds, pushed: multiset<Entry>)
    requires Rectangular(b)
    requires forall n | Adjacent(b, cur.pos, n) :: n in costs && n in preds
    ensures RelaxedFrom(b, costs, preds, cur, c, costs', preds', pushed)
  {
    var ns := NextNodes(b, cur.pos);
    forall i, j | 0 <= i < j < |ns| ensures ns[i] != ns[j] {
      assert DirIndex(ns[i].dir) < DirIndex(ns[j].dir);
    }
    costs', preds', pushed := RelaxAll(costs, preds, cur, c, ns);
  }

  // ---------------------------------------------------------------------
  // The loop invariant

  /** Table keys, and every cost in `[0, int.MaxValue]`, 0 only for the start. */
  ghost predicate Domain(b: Board, start: Node, costs: Costs, preds: Preds)
    requires Rectangular(b)
  {
    (forall n :: n in costs <==> InDomain(b, start, n)) &&
    (forall n :: n in preds <==> InDomain(b, start, n)) &&
    (forall n | n in costs :: 0 <= costs[n] <= IntMax && (1 <= costs[n] || n == start))
  }

  ghost predicate QueueOk(b: Board, start: Node, pq: multiset<Entry>)
    requires Rectangular(b)
  {
    forall e {:trigger pq[e]} | e in pq :: InDomain(b, start, e.0) && 0 <= e.1 <= IntMax
  }

  /** Every entry of `m` costs more than `c` and at most `bound`. */
  ghost predicate Dearer(m: multiset<Entry>, c: int, bound: int)
  {
    forall f {:trigger m[f]} | f in m :: c < f.1 <= bound
  }

  ghost predicate ProcessedOk(b: Board, start: Node, processed: set<Entry>)
    requires Rectangular(b)
  {
    forall e {:trigger e in processed} | e in processed :: InDomain(b, start, e.0) && 0 <= e.1 <= IntMax
  }

  /** `p` is recorded as a predecessor of `n`. */
  predicate HasPred(preds: Preds, n: Node, p: Node)
  {
    n in preds && p in preds[n]
  }

  /** Every recorded predecessor is a move from a processed entry that gives the recorded cost. */
  ghost predicate PredsJustified(b: Board, costs: Costs, preds: Preds, processed: set<Entry>)
    requires Rectangular(b)
  {
    forall n, p | HasPred(preds, n, p) ::
      n in costs && Adjacent(b, p.pos, n) && (p, costs[n] - StepCost(p.dir, n.dir)) in processed
  }

  /** Every move out of a processed entry has been relaxed, ties recorded. */
  ghost predicate AllRelaxed(b: Board, costs: Costs, preds: Preds, processed: set<Entry>)
    requires Rectangular(b)
  {
    forall e, n {:trigger Adjacent(b, e.0.pos, n)} | e in processed && Adjacent(b, e.0.pos, n) ::
      n in costs && n in preds && costs[n] <= e.1 + StepCost(e.0.dir, n.dir) &&
      (costs[n] == e.1 + StepCost(e.0.dir, n.dir) ==> e.0 in preds[n])
  }

  /** Every finite recorded cost is still queued or has been processed. */
  ghost predicate Pending(costs: Costs, pq: multiset<Entry>, processed: set<Entry>)
  {
    forall n | n in costs && costs[n] < IntMax :: (n, costs[n]) in pq || (n, costs[n]) in processed
  }

  /** Every queued or processed entry is the cost of some path from the start. */
  ghost predicate Witnessed(b: Board, start: Node, pq: multiset<Entry>, processed: set<Entry>)
    requires Rectangular(b)
  {
    (forall e {:trigger pq[e]} | e in pq :: Reach(b, start, e.0, e.1)) &&
    (forall e {:trigger e in processed} | e in processed :: Reach(b, start, e.0, e.1))
  }

  ghost predicate Seeded(start: Node, pq: multiset<Entry>, processed: set<Entry>)
  {
    (start, 0) in pq || (start, 0) in processed
  }

  ghost predicate Inv(b: Board, start: Node, costs: Costs, preds: Preds, pq: multiset<Entry>, processed: set<Entry>)
    requires Rectangular(b)
  {
    Domain(b, start, costs, preds) && QueueOk(b, start, pq) && ProcessedOk(b, start, processed) &&
    PredsJustified(b, costs, preds, processed) && AllRelaxed(b, costs, preds, processed) &&
    Pending(costs, pq, processed) && Seeded(start, pq, processed) && Witnessed(b, start, pq, processed)
  }

  /**
   * The start's entry as the initialization left it: cost 0 and no
   * predecessors when `zero`, otherwise a positive cost.
   */
  ghost predicate StartKept(zero: bool, start: Node, costs: Costs, preds: Preds)
  {
    start in costs && start in preds &&
    (if zero then costs[start] == 0 && preds[start] == {} else costs[start] >= 1)
  }

  /**
   * The order of a search whose start costs 0: every processed entry costs
   * at most `floor`, the cost of the last entry popped, and is its state's
   * recorded cost; every queued entry costs at least `floor` and at least
   * its state's recorded cost.
   */
  ghost predicate Ordered(floor: int, costs: Costs, pq: multiset<Entry>, processed: set<Entry>)
  {
    (forall e {:trigger e in processed} | e in processed :: e.1 <= floor && e.0 in costs && costs[e.0] == e.1) &&
    (forall f {:trigger pq[f]} | f in pq :: floor <= f.1 && f.0 in costs && costs[f.0] <= f.1)
  }

  /** Every processed entry is its state's final cost. */
  ghost predicate Settled(costs: Costs, processed: set<Entry>)
  {
    forall e {:trigger e in processed} | e in processed :: e.0 in costs && costs[e.0] == e.1
  }

  /** The state the search ends in. */
  ghost predicate Finalized(b: Board, start: Node, costs: Costs, preds: Preds, processed: set<Entry>)
    requires Rectangular(b)
  {
    Domain(b, start, costs, preds) && ProcessedOk(b, start, processed) &&
    PredsJustified(b, costs, preds, processed) && AllRelaxed(b, costs, preds, processed) &&
    (forall n | n in costs && costs[n] < IntMax :: (n, costs[n]) in processed) &&
    (start, 0) in processed &&
    (forall e {:trigger e in processed} | e in processed :: Reach(b, start, e.0, e.1))
  }
}

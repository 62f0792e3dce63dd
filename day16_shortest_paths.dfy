/**
 * The priority-queue loop of `GetShortestPaths` in 2024/Day16.cs
 * (lines 78-105) and the method itself, in the form written and with the
 * start cost kept at 0.
 */
module Day16ShortestPaths {
  import opened Grid2D
  import opened Day16Paths
  import opened QueueWeight
  import opened Day16Search
  import opened Day16SearchInvariant

  /** The rank of a queued entry: how far its cost is below `int.MaxValue`. */
  function EntryRank(e: Entry): int
  {
    IntMax - e.1
  }

  /** One iteration of the loop at lines 78-105: pop a cheapest entry, then drop or settle it. */
  method Step(b: Board, start: Node, ghost zero: bool, ghost floor: int, costs: Costs, preds: Preds,
              pq: multiset<Entry>, ghost processed: set<Entry>)
    returns (costs': Costs, preds': Preds, pq': multiset<Entry>, ghost processed': set<Entry>, ghost floor': int)
    requires Rectangular(b) && Inv(b, start, costs, preds, pq, processed) && pq != multiset{}
    requires StartKept(zero, start, costs, preds)
    requires zero ==> Ordered(floor, costs, pq, processed)
    ensures Inv(b, start, costs', preds', pq', processed') && StartKept(zero, start, costs', preds')
    ensures zero ==> Ordered(floor', costs', pq', processed')
    ensures Weight(pq', EntryRank) < Weight(pq, EntryRank)
  {
    ghost var least := MinEntry(pq);
    var e :| e in pq && forall f {:trigger pq[f]} | f in pq :: e.1 <= f.1;
    var current, currentCost := e.0, e.1;
    floor' := currentCost;
    if costs[current] < currentCost {
      InvDiscard(b, start, costs, preds, pq, processed, e);
      if zero {
        OrderedDiscard(floor, costs, pq, processed, e);
      }
      WeightRemove(pq, EntryRank, e);
      costs', preds', pq', processed' := costs, preds, pq - multiset{e}, processed;
    } else {
      AdjacentInDomain(b, start, costs, preds, current);
      var pushed;
      costs', preds', pushed := Settle(b, costs, preds, current, currentCost);
      InvSettle(b, zero, start, costs, preds, pq, processed, e, costs', preds', pushed);
      if zero {
        OrderedSettle(b, floor, costs, preds, pq, processed, e, costs', preds', pushed);
      }
      assert Below(pushed, EntryRank, EntryRank(e)) by {
        forall f {:trigger pushed[f]} | f in pushed ensures 0 <= EntryRank(f) < EntryRank(e) {
          assert e.1 < f.1 <= IntMax;
        }
      }
      WeightDecreases(pq, EntryRank, e, pushed);
      pq', processed' := pq - multiset{e} + pushed, processed + {e};
    }
  }

  /** The loop of lines 78-105 from the tables `InitTables` builds, seeded with the start at cost 0. */
  method Relaxation(b: Board, start: Node, costs0: Costs, preds0: Preds)
    returns (costs: Costs, preds: Preds, ghost processed: set<Entry>)
    requires Rectangular(b) && Initialized(b, start, costs0, preds0)
    ensures Finalized(b, start, costs, preds, processed)
    ensures StartKept(costs0[start] == 0, start, costs, preds)
    ensures costs0[start] == 0 ==> Settled(costs, processed)
  {
    costs, preds := costs0, preds0;
    var pq: multiset<Entry> := multiset{(start, 0)};
    processed := {};
    ghost var zero := costs0[start] == 0;
    ghost var floor := 0;
    InvInit(b, start, costs, preds);
    if zero {
      OrderedInit(start, costs);
    }
    while pq != multiset{}
      invariant Inv(b, start, costs, preds, pq, processed)
      invariant StartKept(zero, start, costs, preds)
      invariant zero ==> Ordered(floor, costs, pq, processed)
      decreases Weight(pq, EntryRank)
    {
      costs, preds, pq, processed, floor := Step(b, start, zero, floor, costs, preds, pq, processed);
    }
    InvDone(b, start, costs, preds, processed);
  }

  /** `GetShortestPaths(grid, start)` as written. */
  method GetShortestPaths(b: Board, start: Node) returns (costs: Costs, preds: Preds, ghost processed: set<Entry>)
    requires Rectangular(b)
    ensures Finalized(b, start, costs, preds, processed)
    ensures Open(b, start.pos) ==> costs[start] >= 1
  {
    var costs0, preds0 := InitTables(b, start);
    costs, preds, processed := Relaxation(b, start, costs0, preds0);
  }

  /** `GetShortestPaths` with the start cost kept at 0. */
  method GetShortestPathsFixed(b: Board, start: Node) returns (costs: Costs, preds: Preds, ghost processed: set<Entry>)
    requires Rectangular(b)
    ensures Finalized(b, start, costs, preds, processed)
    ensures costs[start] == 0 && preds[start] == {}
    ensures Settled(costs, processed)
  {
    var costs0, preds0 := InitTablesFixed(b, start);
    costs, preds, processed := Relaxation(b, start, costs0, preds0);
  }
}

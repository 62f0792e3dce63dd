/**
 * The invariant of the search loop in 2024/Day16.cs (lines 78-105) is
 * established by the initialization and kept by both branches of an
 * iteration: dropping a stale entry and settling a current one.
 */
module Day16SearchInvariant {
  import opened Grid2D
  import opened Day16Paths
  import opened QueueWeight
  import opened Day16Search

  lemma InvInit(b: Board, start: Node, costs: Costs, preds: Preds)
    requires Rectangular(b) && Initialized(b, start, costs, preds)
    ensures Inv(b, start, costs, preds, multiset{(start, 0)}, {})
    ensures StartKept(costs[start] == 0, start, costs, preds)
  {
    ReachStart(b, start);
  }

  lemma InvDone(b: Board, start: Node, costs: Costs, preds: Preds, processed: set<Entry>)
    requires Rectangular(b) && Inv(b, start, costs, preds, multiset{}, processed)
    ensures Finalized(b, start, costs, preds, processed)
  {
  }

  /** A popped entry dearer than its state's recorded cost is dropped (line 84). */
  lemma InvDiscard(b: Board, start: Node, costs: Costs, preds: Preds, pq: multiset<Entry>, processed: set<Entry>, e: Entry)
    requires Rectangular(b) && Inv(b, start, costs, preds, pq, processed)
    requires e in pq && e.0 in costs && costs[e.0] < e.1
    ensures Inv(b, start, costs, preds, pq - multiset{e}, processed)
  {
    var pq' := pq - multiset{e};
    forall n | n in costs && costs[n] < IntMax
      ensures (n, costs[n]) in pq' || (n, costs[n]) in processed
    {
      if (n, costs[n]) in pq {
        assert (n, costs[n]) != e;
      }
    }
    assert Seeded(start, pq', processed) by {
      if (start, 0) in pq {
        assert (start, 0) != e;
      }
    }
  }

  lemma AdjacentInDomain(b: Board, start: Node, costs: Costs, preds: Preds, cur: Node)
    requires Rectangular(b) && Domain(b, start, costs, preds)
    ensures forall n | Adjacent(b, cur.pos, n) :: n in costs && n in preds
  {
  }

  lemma SettleDomain(b: Board, start: Node, costs: Costs, preds: Preds, e: Entry,
                     costs': Costs, preds': Preds, pushed: multiset<Entry>)
    requires Rectangular(b) && Domain(b, start, costs, preds) && 0 <= e.1
    requires RelaxedFrom(b, costs, preds, e.0, e.1, costs', preds', pushed)
    ensures Domain(b, start, costs', preds')
    ensures QueueOk(b, start, pushed)
    ensures Dearer(pushed, e.1, IntMax)
  {
    forall n | n in costs'
      ensures 0 <= costs'[n] <= IntMax && (1 <= costs'[n] || n == start)
    {
      if Adjacent(b, e.0.pos, n) {
        assert Relaxed(costs[n], preds[n], e.0, e.1, n, costs'[n], preds'[n]);
      }
    }
    forall f {:trigger pushed[f]} | f in pushed
      ensures InDomain(b, start, f.0) && e.1 < f.1 <= IntMax
    {
      assert f.0 in costs && costs[f.0] >= f.1;
    }
  }

  /** One recorded predecessor of `n` stays justified after `e` is settled. */
  lemma PredStep(b: Board, processed: set<Entry>, e: Entry, n: Node, p: Node,
                 cn: int, pn: set<Node>, cn': int, pn': set<Node>)
    requires Rectangular(b)
    requires p in pn ==> Adjacent(b, p.pos, n) && (p, cn - StepCost(p.dir, n.dir)) in processed
    requires if Adjacent(b, e.0.pos, n) then Relaxed(cn, pn, e.0, e.1, n, cn', pn') else cn' == cn && pn' == pn
    requires p in pn'
    ensures Adjacent(b, p.pos, n) && (p, cn' - StepCost(p.dir, n.dir)) in processed + {e}
  {
  }

  /** A predecessor `p` recorded for `n` after `e` is settled is justified. */
  lemma PredAt(b: Board, costs: Costs, preds: Preds, processed: set<Entry>, e: Entry,
               costs': Costs, preds': Preds, n: Node, p: Node)
    requires Rectangular(b) && preds.Keys <= costs.Keys
    requires PredsJustified(b, costs, preds, processed)
    requires Unmoved(b, costs, preds, e.0, costs', preds')
    requires NeighboursRelaxed(b, costs, preds, e.0, e.1, costs', preds')
    requires HasPred(preds', n, p)
    ensures n in costs' && Adjacent(b, p.pos, n) && (p, costs'[n] - StepCost(p.dir, n.dir)) in processed + {e}
  {
    assert n in preds && n in costs;
    if p in preds[n] {
      assert HasPred(preds, n, p);
    }
    PredStep(b, processed, e, n, p, costs[n], preds[n], costs'[n], preds'[n]);
  }

  lemma SettlePreds(b: Board, costs: Costs, preds: Preds, processed: set<Entry>, e: Entry,
                    costs': Costs, preds': Preds)
    requires Rectangular(b) && preds.Keys <= costs.Keys
    requires PredsJustified(b, costs, preds, processed)
    requires Unmoved(b, costs, preds, e.0, costs', preds')
    requires NeighboursRelaxed(b, costs, preds, e.0, e.1, costs', preds')
    ensures PredsJustified(b, costs', preds', processed + {e})
  {
    forall n, p | HasPred(preds', n, p)
      ensures n in costs' && Adjacent(b, p.pos, n) && (p, costs'[n] - StepCost(p.dir, n.dir)) in processed + {e}
    {
      PredAt(b, costs, preds, processed, e, costs', preds', n, p);
    }
  }

  /** The move from processed entry `f` to `n` stays relaxed after `e` is settled. */
  lemma RelaxedStep(b: Board, f: Entry, e: Entry, n: Node, cn: int, pn: set<Node>, cn': int, pn': set<Node>)
    requires Rectangular(b) && Adjacent(b, f.0.pos, n)
    requires f != e ==> cn <= f.1 + StepCost(f.0.dir, n.dir) && (cn == f.1 + StepCost(f.0.dir, n.dir) ==> f.0 in pn)
    requires f == e ==> Adjacent(b, e.0.pos, n)
    requires if Adjacent(b, e.0.pos, n) then Relaxed(cn, pn, e.0, e.1, n, cn', pn') else cn' == cn && pn' == pn
    ensures cn' <= f.1 + StepCost(f.0.dir, n.dir) && (cn' == f.1 + StepCost(f.0.dir, n.dir) ==> f.0 in pn')
  {
  }

  /** The move from `f` to `n` is relaxed after `e` is settled. */
  lemma RelaxedAt(b: Board, costs: Costs, preds: Preds, processed: set<Entry>, e: Entry,
                  costs': Costs, preds': Preds, pushed: multiset<Entry>, f: Entry, n: Node)
    requires Rectangular(b)
    requires AllRelaxed(b, costs, preds, processed)
    requires RelaxedFrom(b, costs, preds, e.0, e.1, costs', preds', pushed)
    requires f in processed + {e} && Adjacent(b, f.0.pos, n)
    ensures n in costs' && n in preds' && costs'[n] <= f.1 + StepCost(f.0.dir, n.dir) &&
            (costs'[n] == f.1 + StepCost(f.0.dir, n.dir) ==> f.0 in preds'[n])
  {
    if f != e {
      assert f in processed;
    }
    RelaxedStep(b, f, e, n, costs[n], preds[n], costs'[n], preds'[n]);
  }

  lemma SettleRelaxed(b: Board, costs: Costs, preds: Preds, processed: set<Entry>, e: Entry,
                      costs': Costs, preds': Preds, pushed: multiset<Entry>)
    requires Rectangular(b)
    requires AllRelaxed(b, costs, preds, processed)
    requires RelaxedFrom(b, costs, preds, e.0, e.1, costs', preds', pushed)
    ensures AllRelaxed(b, costs', preds', processed + {e})
  {
    forall f, n | f in processed + {e} && Adjacent(b, f.0.pos, n)
      ensures n in costs' && n in preds' && costs'[n] <= f.1 + StepCost(f.0.dir, n.dir) &&
              (costs'[n] == f.1 + StepCost(f.0.dir, n.dir) ==> f.0 in preds'[n])
    {
      RelaxedAt(b, costs, preds, processed, e, costs', preds', pushed, f, n);
    }
  }

  lemma SettlePending(b: Board, costs: Costs, preds: Preds, pq: multiset<Entry>, processed: set<Entry>,
                      e: Entry, costs': Costs, preds': Preds, pushed: multiset<Entry>)
    requires Rectangular(b) && Pending(costs, pq, processed)
    requires RelaxedFrom(b, costs, preds, e.0, e.1, costs', preds', pushed)
    ensures Pending(costs', pq - multiset{e} + pushed, processed + {e})
  {
    var pq' := pq - multiset{e} + pushed;
    forall n | n in costs' && costs'[n] < IntMax
      ensures (n, costs'[n]) in pq' || (n, costs'[n]) in processed + {e}
    {
      if Adjacent(b, e.0.pos, n) && !(costs[n] < e.1 + StepCost(e.0.dir, n.dir)) {
        assert (n, costs'[n]) in pushed;
      } else {
        StillQueued(pq, e, pushed, (n, costs[n]));
      }
    }
  }

  /** An entry other than the popped one stays in the queue. */
  lemma StillQueued(pq: multiset<Entry>, e: Entry, pushed: multiset<Entry>, f: Entry)
    ensures f in pq && f != e ==> f in pq - multiset{e} + pushed
    ensures f in pq - multiset{e} + pushed ==> f in pq || f in pushed
  {
  }

  lemma SettleQueue(b: Board, start: Node, pq: multiset<Entry>, processed: set<Entry>, e: Entry, pushed: multiset<Entry>)
    requires Rectangular(b) && e in pq
    requires QueueOk(b, start, pq) && QueueOk(b, start, pushed) && Seeded(start, pq, processed)
    requires forall f {:trigger pushed[f]} | f in pushed :: Reach(b, start, f.0, f.1)
    requires Witnessed(b, start, pq, processed)
    ensures QueueOk(b, start, pq - multiset{e} + pushed)
    ensures Seeded(start, pq - multiset{e} + pushed, processed + {e})
    ensures Witnessed(b, start, pq - multiset{e} + pushed, processed + {e})
  {
    var pq' := pq - multiset{e} + pushed;
    forall f {:trigger pq'[f]} | f in pq' ensures InDomain(b, start, f.0) && 0 <= f.1 <= IntMax && Reach(b, start, f.0, f.1) {
      StillQueued(pq, e, pushed, f);
    }
    StillQueued(pq, e, pushed, (start, 0));
  }

  lemma SettleWitnessed(b: Board, start: Node, costs: Costs, preds: Preds, processed: set<Entry>,
                        e: Entry, costs': Costs, preds': Preds, pushed: multiset<Entry>)
    requires Rectangular(b) && Reach(b, start, e.0, e.1)
    requires RelaxedFrom(b, costs, preds, e.0, e.1, costs', preds', pushed)
    ensures forall f {:trigger pushed[f]} | f in pushed :: Reach(b, start, f.0, f.1)
  {
    forall f {:trigger pushed[f]} | f in pushed ensures Reach(b, start, f.0, f.1) {
      ReachStep(b, start, e.0, e.1, f.0);
    }
  }

  lemma SettleStart(b: Board, zero: bool, start: Node, costs: Costs, preds: Preds, e: Entry,
                    costs': Costs, preds': Preds, pushed: multiset<Entry>)
    requires Rectangular(b) && StartKept(zero, start, costs, preds) && 0 <= e.1
    requires RelaxedFrom(b, costs, preds, e.0, e.1, costs', preds', pushed)
    ensures StartKept(zero, start, costs', preds')
  {
  }

  /** The table half of the invariant after settling `e`. */
  lemma SettleTables(b: Board, start: Node, costs: Costs, preds: Preds, pq: multiset<Entry>, processed: set<Entry>,
                     e: Entry, costs': Costs, preds': Preds, pushed: multiset<Entry>)
    requires Rectangular(b) && Domain(b, start, costs, preds) && QueueOk(b, start, pq) && e in pq
    requires ProcessedOk(b, start, processed)
    requires PredsJustified(b, costs, preds, processed) && AllRelaxed(b, costs, preds, processed)
    requires RelaxedFrom(b, costs, preds, e.0, e.1, costs', preds', pushed)
    ensures Domain(b, start, costs', preds') && ProcessedOk(b, start, processed + {e})
    ensures PredsJustified(b, costs', preds', processed + {e}) && AllRelaxed(b, costs', preds', processed + {e})
    ensures QueueOk(b, start, pushed) && Dearer(pushed, e.1, IntMax)
  {
    SettleDomain(b, start, costs, preds, e, costs', preds', pushed);
    SettlePreds(b, costs, preds, processed, e, costs', preds');
    SettleRelaxed(b, costs, preds, processed, e, costs', preds', pushed);
  }

  lemma InvSettle(b: Board, zero: bool, start: Node, costs: Costs, preds: Preds, pq: multiset<Entry>, processed: set<Entry>,
                  e: Entry, costs': Costs, preds': Preds, pushed: multiset<Entry>)
    requires Rectangular(b) && Inv(b, start, costs, preds, pq, processed) && e in pq
    requires StartKept(zero, start, costs, preds)
    requires RelaxedFrom(b, costs, preds, e.0, e.1, costs', preds', pushed)
    ensures Inv(b, start, costs', preds', pq - multiset{e} + pushed, processed + {e})
    ensures StartKept(zero, start, costs', preds')
    ensures Dearer(pushed, e.1, IntMax)
  {
    SettleTables(b, start, costs, preds, pq, processed, e, costs', preds', pushed);
    SettlePending(b, costs, preds, pq, processed, e, costs', preds', pushed);
    SettleWitnessed(b, start, costs, preds, processed, e, costs', preds', pushed);
    SettleQueue(b, start, pq, processed, e, pushed);
    SettleStart(b, zero, start, costs, preds, e, costs', preds', pushed);
  }

  // ---------------------------------------------------------------------
  // The order of a search whose start costs 0

  lemma OrderedInit(start: Node, costs: Costs)
    requires start in costs && costs[start] == 0
    ensures Ordered(0, costs, multiset{(start, 0)}, {})
  {
    var pq := multiset{(start, 0)};
    forall f {:trigger pq[f]} | f in pq ensures 0 <= f.1 && f.0 in costs && costs[f.0] <= f.1 {
      assert f == (start, 0);
    }
  }

  /** Dropping a least entry keeps the order, the floor raised to its cost. */
  lemma OrderedDiscard(floor: int, costs: Costs, pq: multiset<Entry>, processed: set<Entry>, e: Entry)
    requires Ordered(floor, costs, pq, processed) && e in pq
    requires forall f {:trigger pq[f]} | f in pq :: e.1 <= f.1
    ensures Ordered(e.1, costs, pq - multiset{e}, processed)
  {
    var pq' := pq - multiset{e};
    forall f {:trigger pq'[f]} | f in pq' ensures e.1 <= f.1 && f.0 in costs && costs[f.0] <= f.1 {
      assert f in pq;
    }
  }

  /** Relaxing from `cur` never raises a recorded cost. */
  lemma CostsNeverRise(b: Board, costs: Costs, preds: Preds, cur: Node, c: int,
                       costs': Costs, preds': Preds, pushed: multiset<Entry>, n: Node)
    requires Rectangular(b) && RelaxedFrom(b, costs, preds, cur, c, costs', preds', pushed) && n in costs
    ensures n in costs' && costs'[n] <= costs[n]
  {
    if Adjacent(b, cur.pos, n) {
      assert Relaxed(costs[n], preds[n], cur, c, n, costs'[n], preds'[n]);
    }
  }

  /** A processed entry `f` no dearer than the popped `e` keeps its state's cost. */
  lemma ProcessedKept(b: Board, costs: Costs, preds: Preds, e: Entry,
                      costs': Costs, preds': Preds, pushed: multiset<Entry>, f: Entry)
    requires Rectangular(b) && RelaxedFrom(b, costs, preds, e.0, e.1, costs', preds', pushed)
    requires f.0 in costs && costs[f.0] == f.1 && f.1 <= e.1
    ensures f.0 in costs' && costs'[f.0] == f.1
  {
    if Adjacent(b, e.0.pos, f.0) {
      assert Relaxed(costs[f.0], preds[f.0], e.0, e.1, f.0, costs'[f.0], preds'[f.0]);
    }
  }

  /** Settling a least entry `e` keeps the order, the floor raised to its cost. */
  lemma OrderedSettle(b: Board, floor: int, costs: Costs, preds: Preds, pq: multiset<Entry>, processed: set<Entry>,
                      e: Entry, costs': Costs, preds': Preds, pushed: multiset<Entry>)
    requires Rectangular(b) && Ordered(floor, costs, pq, processed) && e in pq
    requires forall f {:trigger pq[f]} | f in pq :: e.1 <= f.1
    requires e.0 in costs && costs[e.0] >= e.1
    requires RelaxedFrom(b, costs, preds, e.0, e.1, costs', preds', pushed)
    ensures Ordered(e.1, costs', pq - multiset{e} + pushed, processed + {e})
  {
    var processed' := processed + {e};
    forall f {:trigger f in processed'} | f in processed'
      ensures f.1 <= e.1 && f.0 in costs' && costs'[f.0] == f.1
    {
      ProcessedKept(b, costs, preds, e, costs', preds', pushed, f);
    }
    var pq' := pq - multiset{e} + pushed;
    forall f {:trigger pq'[f]} | f in pq' ensures e.1 <= f.1 && f.0 in costs' && costs'[f.0] <= f.1 {
      StillQueued(pq, e, pushed, f);
      if f in pq {
        CostsNeverRise(b, costs, preds, e.0, e.1, costs', preds', pushed, f.0);
      } else {
        assert f in pushed;
        assert Relaxed(costs[f.0], preds[f.0], e.0, e.1, f.0, costs'[f.0], preds'[f.0]);
      }
    }
  }
}

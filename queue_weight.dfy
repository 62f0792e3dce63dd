/**
 * A termination measure for a queue loop that takes out one element and
 * puts back at most four of lower rank: the sum over the queued elements
 * of 5^rank. It serves the priority queue of the search (rank: distance
 * of the cost below `int.MaxValue`) and the backward walk (rank: cost).
 */
module QueueWeight {

  function Pow5(k: int): (p: nat)
    ensures p >= 1
  {
    if k <= 0 then 1 else 5 * Pow5(k - 1)
  }

  lemma {:induction false} Pow5Monotone(k: int, j: int)
    requires k <= j
    ensures Pow5(k) <= Pow5(j)
    decreases j - k
  {
    if k < j {
      Pow5Monotone(k, j - 1);
    }
  }

  /** The sum over the elements of `m` of 5^rank(e). */
  ghost function Weight<T>(m: multiset<T>, rank: T -> int): nat
    decreases |m|
  {
    if m == multiset{} then 0
    else
      var e :| e in m;
      Pow5(rank(e)) + Weight(m - multiset{e}, rank)
  }

  lemma {:induction false} WeightRemove<T>(m: multiset<T>, rank: T -> int, x: T)
    requires x in m
    ensures Weight(m, rank) == Pow5(rank(x)) + Weight(m - multiset{x}, rank)
    decreases |m|
  {
    var y :| y in m && Weight(m, rank) == Pow5(rank(y)) + Weight(m - multiset{y}, rank);
    if y != x {
      RemoveTwo(m, x, y);
      WeightRemove(m - multiset{y}, rank, x);
      WeightRemove(m - multiset{x}, rank, y);
    }
  }

  lemma RemoveTwo<T>(m: multiset<T>, x: T, y: T)
    requires x in m && y in m && x != y
    ensures x in m - multiset{y} && y in m - multiset{x}
    ensures m - multiset{y} - multiset{x} == m - multiset{x} - multiset{y}
    ensures |m - multiset{x}| < |m| && |m - multiset{y}| < |m|
  {
  }

  lemma {:induction false} WeightUnion<T>(m: multiset<T>, n: multiset<T>, rank: T -> int)
    ensures Weight(m + n, rank) == Weight(m, rank) + Weight(n, rank)
    decreases |n|
  {
    if n == multiset{} {
      assert m + n == m;
    } else {
      var x :| x in n;
      var n' := n - multiset{x};
      WeightUnion(m, n', rank);
      assert m + n' + multiset{x} == m + n;
      WeightRemove(m + n, rank, x);
      assert m + n - multiset{x} == m + n';
      WeightRemove(n, rank, x);
    }
  }

  lemma {:induction false} WeightBound<T>(m: multiset<T>, rank: T -> int, q: nat)
    requires forall e {:trigger m[e]} | e in m :: Pow5(rank(e)) <= q
    ensures Weight(m, rank) <= |m| * q
    decreases |m|
  {
    if m == multiset{} {
      assert |m| * q == 0;
    } else {
      var x :| x in m;
      var rest := m - multiset{x};
      WeightRemove(m, rank, x);
      WeightBound(rest, rank, q);
      assert |m| == |rest| + 1;
      MulSucc(|rest|, q);
    }
  }

  lemma MulSucc(a: nat, q: nat)
    ensures (a + 1) * q == a * q + q
  {
  }

  lemma MulMonotone(a: nat, b: nat, q: nat)
    requires a <= b
    ensures a * q <= b * q
  {
    assert b * q - a * q == (b - a) * q;
  }

  /** Every element of `m` has a rank in `[0, r)`. */
  ghost predicate Below<T>(m: multiset<T>, rank: T -> int, r: int)
  {
    forall f {:trigger m[f]} | f in m :: 0 <= rank(f) < r
  }

  /** Replacing an element by at most four of lower, non-negative rank lowers the weight. */
  lemma WeightDecreases<T>(pq: multiset<T>, rank: T -> int, e: T, pushed: multiset<T>)
    requires e in pq && |pushed| <= 4 && Below(pushed, rank, rank(e))
    ensures Weight(pq - multiset{e} + pushed, rank) < Weight(pq, rank)
  {
    WeightRemove(pq, rank, e);
    WeightUnion(pq - multiset{e}, pushed, rank);
    PushedWeight(pushed, rank, rank(e));
  }

  /** At most four elements of rank in `[0, r)` weigh less than one of rank `r`. */
  lemma PushedWeight<T>(pushed: multiset<T>, rank: T -> int, r: int)
    requires |pushed| <= 4 && Below(pushed, rank, r)
    ensures Weight(pushed, rank) < Pow5(r)
  {
    if pushed != multiset{} {
      var f :| f in pushed;
      assert r >= 1;
      var q := Pow5(r - 1);
      forall g {:trigger pushed[g]} | g in pushed ensures Pow5(rank(g)) <= q {
        Pow5Monotone(rank(g), r - 1);
      }
      WeightBound(pushed, rank, q);
      MulMonotone(|pushed|, 4, q);
    }
  }

  /** An entry of least cost in a non-empty queue. */
  ghost function MinEntry<T>(m: multiset<(T, int)>): (e: (T, int))
    requires m != multiset{}
    ensures e in m && forall f {:trigger m[f]} | f in m :: e.1 <= f.1
    decreases |m|
  {
    var x :| x in m;
    var rest := m - multiset{x};
    assert forall f {:trigger m[f]} | f in m && f != x :: f in rest;
    if rest == multiset{} then x
    else
      var y := MinEntry(rest);
      if x.1 < y.1 then x else y
  }
}

/**
 * Model of the state graph searched by 2024/Day16.cs: a state is a cell
 * together with the direction the reindeer faces, `NextNodes` gives the
 * moves out of a cell, and a straight step costs 1 while a step that
 * changes direction costs 1001. Paths and their costs are the reference
 * against which the search is proved.
 */
module Day16Paths {
  import opened Wrappers
  import opened Grid2D

  /** `int.MaxValue`, the "not reached" cost. */
  const IntMax: int := 0x7fff_ffff

  /**
   * A direction a state can face: one of the four unit moves. The source
   * types it as any `Vector2D`, but only ever builds a state from
   * `Vector2D.Directions` or from `Vector2D.Right`.
   */
  type Heading = v: Vector2D | v.IsDirection() witness Vector2D(0, 1)

  datatype Node = Node(pos: Cell2D, dir: Heading)

  /** The position of `d` in `Directions` (Up, Right, Down, Left). */
  function DirIndex(d: Heading): (k: nat)
    ensures k < 4 && Directions[k] == d
  {
    if d == Up then 0 else if d == Right then 1 else if d == Down then 2 else 3
  }

  /** A cell a step can land on: inside the grid and not a wall. */
  predicate Open(b: Board, c: Cell2D)
    requires Rectangular(b)
  {
    InRange(b, c) && At(b, c) != '#'
  }

  /** `n` is one of the moves `NextNodes` yields from cell `p`. */
  predicate Adjacent(b: Board, p: Cell2D, n: Node)
    requires Rectangular(b)
  {
    n.pos == p.Add(n.dir) && Open(b, n.pos)
  }

  /**
   * `NextNodes(grid, p)`: the open neighbours of `p`, each paired with the
   * direction moved, tried in the order Up, Right, Down, Left.
   */
  function NextNodes(b: Board, p: Cell2D): (ns: seq<Node>)
    requires Rectangular(b)
    ensures forall n :: n in ns <==> Adjacent(b, p, n)
    ensures forall i, j | 0 <= i < j < |ns| :: DirIndex(ns[i].dir) < DirIndex(ns[j].dir)
    ensures |ns| <= 4
  {
    NextNodesFrom(b, p, 0)
  }

  function NextNodesFrom(b: Board, p: Cell2D, k: nat): (ns: seq<Node>)
    requires Rectangular(b) && k <= 4
    ensures forall n :: n in ns <==> Adjacent(b, p, n) && DirIndex(n.dir) >= k
    ensures forall i, j | 0 <= i < j < |ns| :: DirIndex(ns[i].dir) < DirIndex(ns[j].dir)
    ensures forall i | 0 <= i < |ns| :: DirIndex(ns[i].dir) >= k
    ensures |ns| <= 4 - k
    decreases 4 - k
  {
    if k == 4 then []
    else
      var d: Heading := Directions[k];
      var c := p.Add(d);
      var head := if Open(b, c) then [Node(c, d)] else [];
      var rest := NextNodesFrom(b, p, k + 1);
      assert DirIndex(d) == k;
      assert forall n :: n in head <==> Adjacent(b, p, n) && DirIndex(n.dir) == k;
      head + rest
  }

  /** The cost of one step from a state facing `from` to a state facing `to`. */
  function StepCost(from: Heading, to: Heading): (s: int)
    ensures s == 1 || s == 1001
    ensures s == 1 <==> from == to
  {
    if from == to then 1 else 1001
  }

  // ---------------------------------------------------------------------
  // Paths

  /** Every consecutive pair of states is a move `NextNodes` allows. */
  ghost predicate IsPath(b: Board, path: seq<Node>)
    requires Rectangular(b)
  {
    forall i | 0 <= i < |path| - 1 :: Adjacent(b, path[i].pos, path[i + 1])
  }

  function PathCost(path: seq<Node>): (c: nat)
    ensures |path| >= 2 ==> c >= 1
  {
    if |path| <= 1 then 0
    else PathCost(path[..|path| - 1]) + StepCost(path[|path| - 2].dir, path[|path| - 1].dir)
  }

  /** `path` starts at `start` and ends at `n`. */
  ghost predicate PathFromTo(b: Board, start: Node, path: seq<Node>, n: Node)
    requires Rectangular(b)
  {
    |path| >= 1 && path[0] == start && path[|path| - 1] == n && IsPath(b, path)
  }

  /** Some path from `start` reaches `n` at cost exactly `c`. */
  ghost predicate Reach(b: Board, start: Node, n: Node, c: int)
    requires Rectangular(b)
  {
    exists path :: PathFromTo(b, start, path, n) && PathCost(path) == c
  }

  lemma ReachStart(b: Board, start: Node)
    requires Rectangular(b)
    ensures Reach(b, start, start, 0)
  {
    assert PathFromTo(b, start, [start], start);
  }

  lemma ExtendPath(b: Board, start: Node, path: seq<Node>, p: Node, n: Node)
    requires Rectangular(b)
    requires PathFromTo(b, start, path, p) && Adjacent(b, p.pos, n)
    ensures PathFromTo(b, start, path + [n], n)
    ensures PathCost(path + [n]) == PathCost(path) + StepCost(p.dir, n.dir)
  {
    var q := path + [n];
    assert q[..|q| - 1] == path;
  }

  /** One more move extends a reachable state's cost by the step cost. */
  lemma ReachStep(b: Board, start: Node, p: Node, c: int, n: Node)
    requires Rectangular(b)
    requires Reach(b, start, p, c) && Adjacent(b, p.pos, n)
    ensures Reach(b, start, n, c + StepCost(p.dir, n.dir))
  {
    var path :| PathFromTo(b, start, path, p) && PathCost(path) == c;
    ExtendPath(b, start, path, p, n);
  }

  /** The prefix of a path up to (and including) index `k`. */
  lemma PrefixPath(b: Board, start: Node, path: seq<Node>, k: nat)
    requires Rectangular(b) && |path| >= 1 && path[0] == start && IsPath(b, path) && k < |path|
    ensures PathFromTo(b, start, path[..k + 1], path[k])
  {
  }

  /** Extending a path by one state adds exactly one step to every longer prefix. */
  lemma {:induction false} PathCostAppend(p: seq<Node>, q: seq<Node>)
    requires |p| >= 1 && |q| >= 1
    ensures PathCost(p + q) == PathCost(p) + StepCost(p[|p| - 1].dir, q[0].dir) + PathCost(q)
    decreases |q|
  {
    if |q| == 1 {
      assert (p + q)[..|p + q| - 1] == p;
    } else {
      var q' := q[..|q| - 1];
      PathCostAppend(p, q');
      assert (p + q)[..|p + q| - 1] == p + q';
      assert q'[0] == q[0];
    }
  }

  /** Joining `q` to the tail of a path that starts where `q` ends gives a path. */
  lemma JoinIsPath(b: Board, q: seq<Node>, r: seq<Node>)
    requires Rectangular(b) && |q| >= 1 && |r| >= 1 && q[|q| - 1] == r[0]
    requires IsPath(b, q) && IsPath(b, r)
    ensures IsPath(b, q + r[1..])
  {
    var j := q + r[1..];
    forall k | 0 <= k < |j| - 1 ensures Adjacent(b, j[k].pos, j[k + 1]) {
      JoinStep(b, q, r, k);
    }
  }

  lemma JoinStep(b: Board, q: seq<Node>, r: seq<Node>, k: nat)
    requires Rectangular(b) && |q| >= 1 && |r| >= 1 && q[|q| - 1] == r[0]
    requires IsPath(b, q) && IsPath(b, r) && k < |q| + |r| - 2
    ensures Adjacent(b, (q + r[1..])[k].pos, (q + r[1..])[k + 1])
  {
    var j := q + r[1..];
    if k < |q| - 1 {
      assert j[k] == q[k] && j[k + 1] == q[k + 1];
    } else {
      var t := k - |q| + 1;
      assert j[k] == r[t] && j[k + 1] == r[t + 1];
    }
  }

  /** The cost of `q` joined to `r` (which starts where `q` ends) is the sum of their costs. */
  lemma JoinCost(q: seq<Node>, r: seq<Node>)
    requires |q| >= 1 && |r| >= 1 && q[|q| - 1] == r[0]
    ensures PathCost(q + r[1..]) == PathCost(q) + PathCost(r)
  {
    if |r| == 1 {
      assert q + r[1..] == q;
    } else {
      PathCostAppend(q, r[1..]);
      PathCostAppend([r[0]], r[1..]);
      assert [r[0]] + r[1..] == r;
    }
  }

  /** A path from `start` to `m` joined to a path from `m` to `n` is a path from `start` to `n`. */
  lemma JoinPaths(b: Board, start: Node, q: seq<Node>, r: seq<Node>, n: Node)
    requires Rectangular(b) && |q| >= 1 && |r| >= 1 && q[|q| - 1] == r[0]
    requires PathFromTo(b, start, q, q[|q| - 1]) && PathFromTo(b, r[0], r, n)
    ensures PathFromTo(b, start, q + r[1..], n)
    ensures PathCost(q + r[1..]) == PathCost(q) + PathCost(r)
  {
    JoinIsPath(b, q, r);
    JoinCost(q, r);
    if |r| == 1 {
      assert q + r[1..] == q;
    }
  }

  /** A move from `p` to `n` in front of a path from `n` reaches the same state at one more step's cost. */
  lemma ReachPrepend(b: Board, p: Node, n: Node, t: Node, c: int)
    requires Rectangular(b) && Adjacent(b, p.pos, n) && Reach(b, n, t, c)
    ensures Reach(b, p, t, StepCost(p.dir, n.dir) + c)
  {
    var r :| PathFromTo(b, n, r, t) && PathCost(r) == c;
    var q := [p, n];
    assert q[..1] == [p];
    JoinPaths(b, p, q, r, t);
  }

  /** The part of a path from index `i` on is a path from `path[i]`. */
  lemma SuffixPath(b: Board, path: seq<Node>, i: nat)
    requires Rectangular(b) && IsPath(b, path) && i < |path|
    ensures PathFromTo(b, path[i], path[i..], path[|path| - 1])
  {
    var s := path[i..];
    forall k | 0 <= k < |s| - 1 ensures Adjacent(b, s[k].pos, s[k + 1]) {
      assert s[k] == path[i + k] && s[k + 1] == path[i + k + 1];
    }
  }

  /** The cost of a path is the cost of its prefix to `i` plus the cost from `i`. */
  lemma PathCostSplit(path: seq<Node>, i: nat)
    requires i < |path|
    ensures PathCost(path) == PathCost(path[..i + 1]) + PathCost(path[i..])
  {
    JoinCost(path[..i + 1], path[i..]);
    assert path[..i + 1] + path[i..][1..] == path;
  }
}

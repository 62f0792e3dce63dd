/**
 * A disjoint-set forest over the elements `0 .. n - 1`: union by size,
 * path compression in `Find`, and a running count of components.
 *
 * The parent pointers are an `int` array. Pointer chasing terminates
 * because of a ghost rank: every non-root points to a node of strictly
 * higher rank, and every rank is at most a ghost bound. The rank is proof
 * bookkeeping only; the program never reads it.
 */
module UnionFindForest {

  function Max(a: nat, b: nat): nat { if a < b then b else a }

  /** `parent` is a forest on `0 .. |parent| - 1` and `rank` orders it. */
  ghost predicate Forest(parent: seq<int>, rank: seq<nat>, bound: nat)
  {
    |rank| == |parent| &&
    (forall i | 0 <= i < |parent| :: 0 <= parent[i] < |parent| && rank[i] <= bound) &&
    (forall i | 0 <= i < |parent| && parent[i] != i :: rank[i] < rank[parent[i]])
  }

  /** The root reached from `i` by following parent pointers. */
  ghost function RootIn(parent: seq<int>, rank: seq<nat>, bound: nat, i: int): (r: int)
    requires Forest(parent, rank, bound) && 0 <= i < |parent|
    ensures 0 <= r < |parent| && parent[r] == r
    ensures parent[i] == i ==> r == i
    decreases bound - rank[i]
  {
    if parent[i] == i then i else RootIn(parent, rank, bound, parent[i])
  }

  /** `i` lies on the path from `x` up to its root, both ends included. */
  ghost predicate OnPath(parent: seq<int>, rank: seq<nat>, bound: nat, x: int, i: int)
    requires Forest(parent, rank, bound) && 0 <= x < |parent|
    decreases bound - rank[x]
  {
    i == x || (parent[x] != x && OnPath(parent, rank, bound, parent[x], i))
  }

  /** The elements whose root is `r`: the component that `r` stands for. */
  ghost function MembersIn(parent: seq<int>, rank: seq<nat>, bound: nat, r: int): set<int>
    requires Forest(parent, rank, bound)
  {
    set i | 0 <= i < |parent| && RootIn(parent, rank, bound, i) == r
  }

  /** The roots, one per component. */
  ghost function RootsIn(parent: seq<int>): set<int>
  {
    set i | 0 <= i < |parent| && parent[i] == i
  }

  /**
   * `size` holds the size of each component at its root and 0 at every
   * other element.
   */
  ghost predicate Sized(parent: seq<int>, rank: seq<nat>, bound: nat, size: seq<int>)
    requires Forest(parent, rank, bound)
  {
    |size| == |parent| &&
    (forall i {:trigger size[i]} | 0 <= i < |parent| && parent[i] != i :: size[i] == 0) &&
    (forall r {:trigger MembersIn(parent, rank, bound, r)} | 0 <= r < |parent| && parent[r] == r :: size[r] == |MembersIn(parent, rank, bound, r)|)
  }

  /** Every element of the path from `x` has rank at least `x`'s and the same root. */
  lemma {:induction false} PathFacts(parent: seq<int>, rank: seq<nat>, bound: nat, x: int, i: int)
    requires Forest(parent, rank, bound) && 0 <= x < |parent| && OnPath(parent, rank, bound, x, i)
    ensures 0 <= i < |parent| && (i != x ==> rank[x] < rank[i])
    ensures RootIn(parent, rank, bound, i) == RootIn(parent, rank, bound, x)
    decreases bound - rank[x]
  {
    if i != x {
      PathFacts(parent, rank, bound, parent[x], i);
    }
  }

  /** The root of `x` ends the path from `x`. */
  lemma {:induction false} RootOnPath(parent: seq<int>, rank: seq<nat>, bound: nat, x: int)
    requires Forest(parent, rank, bound) && 0 <= x < |parent|
    ensures OnPath(parent, rank, bound, x, RootIn(parent, rank, bound, x))
    decreases bound - rank[x]
  {
    if parent[x] != x {
      RootOnPath(parent, rank, bound, parent[x]);
    }
  }

  /** Pointing `c` straight at its root keeps the forest ranked. */
  lemma RedirectForest(parent: seq<int>, rank: seq<nat>, bound: nat, c: int)
    requires Forest(parent, rank, bound) && 0 <= c < |parent|
    ensures Forest(parent[c := RootIn(parent, rank, bound, c)], rank, bound)
  {
    RootOnPath(parent, rank, bound, c);
    PathFacts(parent, rank, bound, c, RootIn(parent, rank, bound, c));
  }

  /** Pointing `c` straight at its root changes no element's root. */
  lemma {:induction false} RedirectRoot(parent: seq<int>, rank: seq<nat>, bound: nat, c: int, i: int)
    requires Forest(parent, rank, bound) && 0 <= c < |parent| && 0 <= i < |parent|
    requires Forest(parent[c := RootIn(parent, rank, bound, c)], rank, bound)
    ensures RootIn(parent[c := RootIn(parent, rank, bound, c)], rank, bound, i) == RootIn(parent, rank, bound, i)
    decreases bound - rank[i]
  {
    var r := RootIn(parent, rank, bound, c);
    var p := parent[c := r];
    if i == c {
      assert p[r] == r;
    } else if parent[i] != i {
      RedirectRoot(parent, rank, bound, c, parent[i]);
    }
  }

  /** The rank after linking root `gone` under root `keep`. */
  function LinkRank(rank: seq<nat>, keep: int, gone: int): seq<nat>
    requires 0 <= keep < |rank| && 0 <= gone < |rank|
  {
    rank[keep := Max(rank[keep], rank[gone] + 1)]
  }

  /** Linking two distinct roots keeps the forest ranked. */
  lemma LinkForest(parent: seq<int>, rank: seq<nat>, bound: nat, keep: int, gone: int)
    requires Forest(parent, rank, bound) && 0 <= keep < |parent| && 0 <= gone < |parent|
    requires keep != gone && parent[keep] == keep && parent[gone] == gone
    ensures Forest(parent[gone := keep], LinkRank(rank, keep, gone), Max(bound, rank[gone] + 1))
  {
  }

  /** After linking `gone` under `keep`, the members of `gone` have root `keep`; no other root changes. */
  lemma {:induction false} LinkRoot(parent: seq<int>, rank: seq<nat>, bound: nat, keep: int, gone: int, i: int)
    requires Forest(parent, rank, bound) && 0 <= keep < |parent| && 0 <= gone < |parent|
    requires keep != gone && parent[keep] == keep && parent[gone] == gone && 0 <= i < |parent|
    requires Forest(parent[gone := keep], LinkRank(rank, keep, gone), Max(bound, rank[gone] + 1))
    ensures RootIn(parent[gone := keep], LinkRank(rank, keep, gone), Max(bound, rank[gone] + 1), i)
         == if RootIn(parent, rank, bound, i) == gone then keep else RootIn(parent, rank, bound, i)
    decreases bound - rank[i]
  {
    var p := parent[gone := keep];
    if i == gone {
      assert p[keep] == keep;
    } else if parent[i] != i {
      LinkRoot(parent, rank, bound, keep, gone, parent[i]);
    }
  }

  /** Every element's root in `p` is its root in `parent`, with `gone` renamed to `keep`. */
  ghost predicate Relinked(p: seq<int>, rk: seq<nat>, bd: nat, parent: seq<int>, rank: seq<nat>, bound: nat, keep: int, gone: int)
    requires Forest(p, rk, bd) && Forest(parent, rank, bound) && |p| == |parent|
  {
    forall i | 0 <= i < |parent| ::
      RootIn(p, rk, bd, i) == if RootIn(parent, rank, bound, i) == gone then keep else RootIn(parent, rank, bound, i)
  }

  /** The component of `keep` after linking is the union of the two components. */
  lemma RelinkedKeep(p: seq<int>, rk: seq<nat>, bd: nat, parent: seq<int>, rank: seq<nat>, bound: nat, keep: int, gone: int)
    requires Forest(p, rk, bd) && Forest(parent, rank, bound) && |p| == |parent|
    requires Relinked(p, rk, bd, parent, rank, bound, keep, gone) && keep != gone
    ensures MembersIn(p, rk, bd, keep) == MembersIn(parent, rank, bound, keep) + MembersIn(parent, rank, bound, gone)
    ensures MembersIn(parent, rank, bound, keep) !! MembersIn(parent, rank, bound, gone)
  {
  }

  /** Every other component is unchanged by linking. */
  lemma RelinkedOther(p: seq<int>, rk: seq<nat>, bd: nat, parent: seq<int>, rank: seq<nat>, bound: nat, keep: int, gone: int, r: int)
    requires Forest(p, rk, bd) && Forest(parent, rank, bound) && |p| == |parent|
    requires Relinked(p, rk, bd, parent, rank, bound, keep, gone) && r != keep && r != gone
    ensures MembersIn(p, rk, bd, r) == MembersIn(parent, rank, bound, r)
  {
  }

  /** Linking root `gone` under root `keep` renames `gone`'s component to `keep`. */
  lemma LinkRelinked(parent: seq<int>, rank: seq<nat>, bound: nat, keep: int, gone: int)
    requires Forest(parent, rank, bound) && 0 <= keep < |parent| && 0 <= gone < |parent|
    requires keep != gone && parent[keep] == keep && parent[gone] == gone
    ensures Forest(parent[gone := keep], LinkRank(rank, keep, gone), Max(bound, rank[gone] + 1))
    ensures Relinked(parent[gone := keep], LinkRank(rank, keep, gone), Max(bound, rank[gone] + 1), parent, rank, bound, keep, gone)
  {
    LinkForest(parent, rank, bound, keep, gone);
    forall i | 0 <= i < |parent|
      ensures RootIn(parent[gone := keep], LinkRank(rank, keep, gone), Max(bound, rank[gone] + 1), i)
           == if RootIn(parent, rank, bound, i) == gone then keep else RootIn(parent, rank, bound, i)
    {
      LinkRoot(parent, rank, bound, keep, gone, i);
    }
  }

  /**
   * Sizes after linking: the surviving root's size is the sum, the absorbed
   * root's is 0, every other size is unchanged.
   */
  lemma LinkSized(p: seq<int>, rk: seq<nat>, bd: nat, parent: seq<int>, rank: seq<nat>, bound: nat, size: seq<int>,
                  keep: int, gone: int)
    requires Forest(parent, rank, bound) && Sized(parent, rank, bound, size)
    requires 0 <= keep < |parent| && 0 <= gone < |parent|
    requires keep != gone && parent[keep] == keep && parent[gone] == gone && p == parent[gone := keep]
    requires Forest(p, rk, bd) && Relinked(p, rk, bd, parent, rank, bound, keep, gone)
    ensures Sized(p, rk, bd, size[keep := size[keep] + size[gone]][gone := 0])
  {
    var s := size[keep := size[keep] + size[gone]][gone := 0];
    RelinkedKeep(p, rk, bd, parent, rank, bound, keep, gone);
    forall r | 0 <= r < |p| && p[r] == r && r != keep
      ensures s[r] == |MembersIn(p, rk, bd, r)|
    {
      RelinkedOther(p, rk, bd, parent, rank, bound, keep, gone, r);
    }
  }

  /** Linking two distinct roots removes exactly the absorbed one from the roots. */
  lemma LinkRoots(parent: seq<int>, keep: int, gone: int)
    requires 0 <= keep < |parent| && 0 <= gone < |parent| && keep != gone && parent[gone] == gone
    ensures RootsIn(parent[gone := keep]) == RootsIn(parent) - {gone}
    ensures |RootsIn(parent[gone := keep])| == |RootsIn(parent)| - 1
  {
    assert RootsIn(parent[gone := keep]) == RootsIn(parent) - {gone};
  }

  /** Sizes stay correct under any change of pointers that keeps every root. */
  lemma SameRootsSized(parent: seq<int>, rank: seq<nat>, bound: nat, parent': seq<int>, size: seq<int>)
    requires Forest(parent, rank, bound) && Forest(parent', rank, bound) && Sized(parent, rank, bound, size)
    requires forall i | 0 <= i < |parent| :: (parent'[i] == i <==> parent[i] == i)
    requires forall i | 0 <= i < |parent| :: RootIn(parent', rank, bound, i) == RootIn(parent, rank, bound, i)
    ensures Sized(parent', rank, bound, size)
  {
    forall r | 0 <= r < |parent'| && parent'[r] == r
      ensures size[r] == |MembersIn(parent', rank, bound, r)|
    {
      assert MembersIn(parent', rank, bound, r) == MembersIn(parent, rank, bound, r);
    }
  }

  /** When every element is its own root there are as many roots as elements. */
  lemma {:induction false} AllRootsSize(parent: seq<int>)
    requires forall i | 0 <= i < |parent| :: parent[i] == i
    ensures |RootsIn(parent)| == |parent|
  {
    if |parent| > 0 {
      var q := parent[..|parent| - 1];
      AllRootsSize(q);
      assert RootsIn(parent) == RootsIn(q) + {|q|};
    }
  }

  /** The invariant of `UnionFind` on its state: a ranked forest, correct sizes, one component per root. */
  ghost predicate Invariant(parent: seq<int>, size: seq<int>, rank: seq<nat>, bound: nat, components: int)
  {
    Forest(parent, rank, bound) && Sized(parent, rank, bound, size) && components == |RootsIn(parent)|
  }

  /** Linking root `gone` under root `keep`, as `Union` does, keeps the invariant. */
  lemma LinkInvariant(parent: seq<int>, size: seq<int>, rank: seq<nat>, bound: nat, components: int, keep: int, gone: int)
    requires Invariant(parent, size, rank, bound, components)
    requires 0 <= keep < |parent| && 0 <= gone < |parent| && keep != gone && parent[keep] == keep && parent[gone] == gone
    ensures Invariant(parent[gone := keep], size[keep := size[keep] + size[gone]][gone := 0],
                      LinkRank(rank, keep, gone), Max(bound, rank[gone] + 1), components - 1)
    ensures Relinked(parent[gone := keep], LinkRank(rank, keep, gone), Max(bound, rank[gone] + 1), parent, rank, bound, keep, gone)
  {
    LinkRelinked(parent, rank, bound, keep, gone);
    LinkSized(parent[gone := keep], LinkRank(rank, keep, gone), Max(bound, rank[gone] + 1), parent, rank, bound, size, keep, gone);
    LinkRoots(parent, keep, gone);
  }

  class UnionFind {
    /** `_root`: the parent of each element; a root is its own parent. */
    const parent: array<int>
    /** `_size`: a component's size at its root, 0 elsewhere. */
    const size: array<int>
    /** `_components`: the number of components. */
    var components: int
    ghost var rank: seq<nat>
    ghost var bound: nat

    ghost predicate Valid()
      reads this, parent, size
    {
      parent != size && size.Length == parent.Length && Invariant(parent[..], size[..], rank, bound, components)
    }

    /** The root of `i`'s component. */
    ghost function Root(i: int): (r: int)
      reads this, parent, size
      requires Valid() && 0 <= i < parent.Length
      ensures 0 <= r < parent.Length && parent[r] == r
    {
      RootIn(parent[..], rank, bound, i)
    }

    /** The elements of the component whose root is `r`. */
    ghost function Members(r: int): set<int>
      reads this, parent, size
      requires Valid()
    {
      MembersIn(parent[..], rank, bound, r)
    }

    /** Every element starts as its own root with size 1; there are `n` components. */
    constructor (n: nat)
      ensures Valid() && fresh(parent) && fresh(size) && parent.Length == n
      ensures components == n
      ensures forall i | 0 <= i < n :: Root(i) == i && size[i] == 1
    {
      var p := new int[n];
      var s := new int[n];
      for i := 0 to n
        invariant forall j | 0 <= j < i :: p[j] == j && s[j] == 1
      {
        p[i] := i;
        s[i] := 1;
      }
      parent, size := p, s;
      components := n;
      rank, bound := seq(n, _ => 0), 0;
      new;
      assert forall i | 0 <= i < n :: parent[..][i] == i;
      AllRootsSize(parent[..]);
      forall r | 0 <= r < n
        ensures MembersIn(parent[..], rank, bound, r) == {r}
      {
        assert forall i | 0 <= i < n :: RootIn(parent[..], rank, bound, i) == i;
      }
    }

    /**
     * The root of `x`'s component. Afterwards every element on the old
     * path from `x` points straight at it; no root and no component changes.
     */
    method Find(x: int) returns (r: int)
      requires Valid() && 0 <= x < parent.Length
      modifies parent
      ensures Valid() && rank == old(rank) && bound == old(bound)
      ensures r == old(Root(x)) && parent[r] == r
      ensures forall i | 0 <= i < parent.Length :: Root(i) == old(Root(i))
      ensures RootsIn(parent[..]) == old(RootsIn(parent[..]))
      ensures PathCompressed(parent[..], old(parent[..]), rank, bound, x, r)
    {
      ghost var p0 := parent[..];
      r := x;
      while r != parent[r]
        invariant parent[..] == p0
        invariant 0 <= r < parent.Length && OnPath(p0, rank, bound, x, r)
        decreases bound - rank[r]
      {
        PathFacts(p0, rank, bound, x, r);
        OnPathStep(p0, rank, bound, x, r);
        r := parent[r];
      }
      PathFacts(p0, rank, bound, x, r);
      var current := x;
      CompressStart(p0, rank, bound, x, r);
      while current != r
        invariant CompressedUpTo(parent[..], p0, rank, bound, x, r, current)
        decreases bound - rank[current]
      {
        CompressStep(parent[..], p0, rank, bound, x, r, current);
        var temp := parent[current];
        parent[current] := r;
        current := temp;
      }
      CompressEnd(parent[..], p0, rank, bound, x, r, size[..]);
    }

    /**
     * Merges the components of `x` and `y`. Nothing changes when they are
     * already one component. Otherwise the root with the smaller size goes
     * under the other (on a tie, `y`'s root goes under `x`'s), the surviving
     * root's size becomes the sum, the absorbed root's size becomes 0 and
     * there is one component fewer.
     */
    method Union(x: int, y: int)
      requires Valid() && 0 <= x < parent.Length && 0 <= y < parent.Length
      modifies this, parent, size
      ensures Valid()
      ensures old(Root(x)) == old(Root(y)) ==>
                components == old(components) && size[..] == old(size[..]) &&
                forall i | 0 <= i < parent.Length :: Root(i) == old(Root(i))
      ensures old(Root(x)) != old(Root(y)) ==>
                var rx, ry := old(Root(x)), old(Root(y));
                var keep := if old(size[rx]) < old(size[ry]) then ry else rx;
                var gone := if old(size[rx]) < old(size[ry]) then rx else ry;
                components == old(components) - 1 &&
                parent[gone] == keep &&
                size[keep] == old(size[rx]) + old(size[ry]) && size[gone] == 0 &&
                (forall i | 0 <= i < size.Length && i != keep && i != gone :: size[i] == old(size[i])) &&
                forall i | 0 <= i < parent.Length :: Root(i) == if old(Root(i)) == gone then keep else old(Root(i))
    {
      var rootX := Find(x);
      var rootY := Find(y);
      if rootX == rootY {
        return;
      }
      if size[rootX] < size[rootY] {
        Link(rootY, rootX);
      } else {
        Link(rootX, rootY);
      }
    }

    /** One branch of `Union`: root `gone` goes under root `keep`, which takes its size. */
    method Link(keep: int, gone: int)
      requires Valid() && 0 <= keep < parent.Length && 0 <= gone < parent.Length
      requires keep != gone && parent[keep] == keep && parent[gone] == gone
      modifies this, parent, size
      ensures Valid()
      ensures components == old(components) - 1 && parent[gone] == keep
      ensures size[keep] == old(size[keep]) + old(size[gone]) && size[gone] == 0
      ensures forall i | 0 <= i < size.Length && i != keep && i != gone :: size[i] == old(size[i])
      ensures forall i | 0 <= i < parent.Length :: Root(i) == if old(Root(i)) == gone then keep else old(Root(i))
    {
      ghost var p1, s1, r1, b1, c1 := parent[..], size[..], rank, bound, components;
      parent[gone] := keep;
      assert parent[..] == p1[gone := keep];
      size[keep] := size[keep] + size[gone];
      size[gone] := 0;
      assert size[..] == s1[keep := s1[keep] + s1[gone]][gone := 0];
      components := components - 1;
      rank, bound := LinkRank(r1, keep, gone), Max(b1, r1[gone] + 1);
      LinkInvariant(p1, s1, r1, b1, c1, keep, gone);
    }

    /** Whether `x` and `y` are in one component; no component changes. */
    method Connected(x: int, y: int) returns (b: bool)
      requires Valid() && 0 <= x < parent.Length && 0 <= y < parent.Length
      modifies parent
      ensures Valid() && rank == old(rank) && bound == old(bound)
      ensures b <==> old(Root(x)) == old(Root(y))
      ensures forall i | 0 <= i < parent.Length :: Root(i) == old(Root(i))
    {
      var rx := Find(x);
      var ry := Find(y);
      b := rx == ry;
    }

    /** The number of elements in `x`'s component; no component changes. */
    method ComponentSize(x: int) returns (s: int)
      requires Valid() && 0 <= x < parent.Length
      modifies parent
      ensures Valid() && rank == old(rank) && bound == old(bound)
      ensures forall i | 0 <= i < parent.Length :: Root(i) == old(Root(i))
      ensures s == |Members(Root(x))|
    {
      var r := Find(x);
      s := size[r];
    }

    /** The size at every root, 0 elsewhere. */
    function AllComponentSizes(): (s: seq<int>)
      reads this, parent, size
      requires Valid()
      ensures |s| == parent.Length
      ensures forall i | 0 <= i < |s| :: s[i] == if parent[i] == i then |Members(i)| else 0
    {
      size[..]
    }

    /** The number of components, one per root. */
    function Components(): (c: int)
      reads this, parent, size
      requires Valid()
      ensures c == |RootsIn(parent[..])|
    {
      components
    }
  }

  /**
   * A client: in a fresh structure of `n` elements, the unions
   * `Union(i, i + 1)` for every `i < k` join `0 .. k` into one component of
   * size `k + 1` under root 0, leaving `n - k` components.
   */
  method UnionChain(n: nat, k: nat) returns (chainSize: int, count: int)
    requires k < n
    ensures chainSize == k + 1 && count == n - k
  {
    var uf := new UnionFind(n);
    for i := 0 to k
      invariant fresh(uf) && fresh(uf.parent) && fresh(uf.size)
      invariant uf.Valid() && uf.parent.Length == n && uf.components == n - i
      invariant forall j | 0 <= j <= i :: uf.Root(j) == 0
      invariant forall j | i < j < n :: uf.Root(j) == j && uf.size[j] == 1
      invariant uf.size[0] == i + 1
    {
      uf.Union(i, i + 1);
    }
    chainSize := uf.ComponentSize(0);
    count := uf.Components();
  }

  /** The parent of an element of the path from `x` is on that path too. */
  lemma {:induction false} OnPathStep(parent: seq<int>, rank: seq<nat>, bound: nat, x: int, i: int)
    requires Forest(parent, rank, bound) && 0 <= x < |parent| && OnPath(parent, rank, bound, x, i)
    requires 0 <= i < |parent| && parent[i] != i
    ensures OnPath(parent, rank, bound, x, parent[i])
    decreases bound - rank[x]
  {
    if i != x {
      OnPathStep(parent, rank, bound, parent[x], i);
    }
  }

  /** `cur` is `p0` with every element of the path from `x` pointing straight at `r`. */
  ghost predicate PathCompressed(cur: seq<int>, p0: seq<int>, rank: seq<nat>, bound: nat, x: int, r: int)
    requires Forest(p0, rank, bound) && 0 <= x < |p0|
  {
    |cur| == |p0| && forall i | 0 <= i < |p0| :: cur[i] == if OnPath(p0, rank, bound, x, i) then r else p0[i]
  }

  /**
   * The state of the second loop of `Find`: the path from `x` is redirected
   * to `r` up to, but not including, `current`; every root is unchanged.
   */
  ghost predicate CompressedUpTo(cur: seq<int>, p0: seq<int>, rank: seq<nat>, bound: nat, x: int, r: int, current: int)
    requires Forest(p0, rank, bound) && 0 <= x < |p0|
  {
    |cur| == |p0| && 0 <= current < |p0| && OnPath(p0, rank, bound, x, current) && Forest(cur, rank, bound) &&
    (forall i | 0 <= i < |p0| :: RootIn(cur, rank, bound, i) == RootIn(p0, rank, bound, i)) &&
    (forall i | 0 <= i < |p0| ::
       cur[i] == if OnPath(p0, rank, bound, x, i) && !OnPath(p0, rank, bound, current, i) then r else p0[i])
  }

  lemma CompressStart(p0: seq<int>, rank: seq<nat>, bound: nat, x: int, r: int)
    requires Forest(p0, rank, bound) && 0 <= x < |p0|
    ensures CompressedUpTo(p0, p0, rank, bound, x, r, x)
  {
  }

  /**
   * One step of the second loop of `Find`: redirecting `current` as well
   * keeps the forest ranked and every root the same.
   */
  lemma CompressStep(cur: seq<int>, p0: seq<int>, rank: seq<nat>, bound: nat, x: int, r: int, current: int)
    requires Forest(p0, rank, bound) && 0 <= x < |p0| && CompressedUpTo(cur, p0, rank, bound, x, r, current)
    requires r == RootIn(p0, rank, bound, x) && current != r
    ensures cur[current] == p0[current] && p0[current] != current && rank[current] < rank[p0[current]]
    ensures CompressedUpTo(cur[current := r], p0, rank, bound, x, r, p0[current])
  {
    PathFacts(p0, rank, bound, x, current);
    assert OnPath(p0, rank, bound, current, current);
    OnPathStep(p0, rank, bound, x, current);
    RedirectForest(cur, rank, bound, current);
    forall i | 0 <= i < |p0|
      ensures RootIn(cur[current := r], rank, bound, i) == RootIn(p0, rank, bound, i)
    {
      RedirectRoot(cur, rank, bound, current, i);
    }
    if OnPath(p0, rank, bound, p0[current], current) {
      PathFacts(p0, rank, bound, p0[current], current);
    }
  }

  /**
   * The end of `Find`: the whole path from `x` points at `r`, the roots are
   * those of `p0`, and the sizes are still correct.
   */
  lemma CompressEnd(cur: seq<int>, p0: seq<int>, rank: seq<nat>, bound: nat, x: int, r: int, size: seq<int>)
    requires Forest(p0, rank, bound) && 0 <= x < |p0| && CompressedUpTo(cur, p0, rank, bound, x, r, r)
    requires r == RootIn(p0, rank, bound, x) && Sized(p0, rank, bound, size)
    ensures Forest(cur, rank, bound) && Sized(cur, rank, bound, size) && RootsIn(cur) == RootsIn(p0)
    ensures forall i | 0 <= i < |p0| :: RootIn(cur, rank, bound, i) == RootIn(p0, rank, bound, i)
    ensures PathCompressed(cur, p0, rank, bound, x, r)
  {
    forall i | 0 <= i < |p0|
      ensures cur[i] == if OnPath(p0, rank, bound, x, i) then r else p0[i]
      ensures cur[i] == i <==> p0[i] == i
    {
      if OnPath(p0, rank, bound, x, i) {
        PathFacts(p0, rank, bound, x, i);
      }
    }
    assert RootsIn(cur) == RootsIn(p0);
    SameRootsSized(p0, rank, bound, cur, size);
  }
}

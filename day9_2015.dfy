/**
 * Model of AdventOfCode/2015/Day9.cs: a table of distances between
 * places, stored in both directions, and the shortest and longest length
 * over every route that visits each place once.
 *
 * The input lines are taken already matched (`from to to = distance`);
 * the regular expression is not modelled. The `HashSet<string>` of places
 * is enumerated in the order places were first added. A missing edge
 * (`KeyNotFoundException`) is `None`.
 */
module Day9Of2015 {
  import opened Wrappers
  import Utils

  /** One matched input line. */
  datatype Line = Line(from: string, to: string, distance: int)

  /** `record Edge(From, To)`. */
  datatype Edge = Edge(from: string, to: string)

  const IntMax: int := 0x7FFF_FFFF
  const IntMin: int := -0x8000_0000

  // ---------------------------------------------------------------------
  // The edge table and the places.

  /** The table after the lines, each written in both directions, later lines overwriting earlier ones. */
  function Table(lines: seq<Line>): map<Edge, int>
  {
    if |lines| == 0 then map[]
    else
      var l := lines[|lines| - 1];
      Table(lines[..|lines| - 1])[Edge(l.from, l.to) := l.distance][Edge(l.to, l.from) := l.distance]
  }

  /** The places in the order `HashSet.Add` first meets them. */
  function Places(lines: seq<Line>): seq<string>
  {
    if |lines| == 0 then []
    else
      var l := lines[|lines| - 1];
      AddPlace(AddPlace(Places(lines[..|lines| - 1]), l.from), l.to)
  }

  function AddPlace(places: seq<string>, p: string): seq<string>
  {
    if p in places then places else places + [p]
  }

  /** The first loop of `Solve`: the symmetric edge table and the set of places. */
  method BuildGraph(lines: seq<Line>) returns (graph: map<Edge, int>, nodes: seq<string>)
    ensures graph == Table(lines) && nodes == Places(lines)
  {
    graph := map[];
    nodes := [];
    for i := 0 to |lines|
      invariant graph == Table(lines[..i]) && nodes == Places(lines[..i])
    {
      var item := lines[i];
      assert lines[..i + 1][..i] == lines[..i];
      graph := graph[Edge(item.from, item.to) := item.distance];
      graph := graph[Edge(item.to, item.from) := item.distance];
      if item.from !in nodes {
        nodes := nodes + [item.from];
      }
      if item.to !in nodes {
        nodes := nodes + [item.to];
      }
    }
    assert lines[..|lines|] == lines;
  }

  /** A line joins `a` and `b`, in either direction. */
  predicate Joins(l: Line, a: string, b: string)
  {
    (l.from == a && l.to == b) || (l.from == b && l.to == a)
  }

  /** The pair `a`, `b` has an entry exactly when some line joins them; the entry is the distance of the last such line. */
  lemma {:induction false} TableAt(lines: seq<Line>, a: string, b: string)
    ensures Edge(a, b) in Table(lines) <==> exists k | 0 <= k < |lines| :: Joins(lines[k], a, b)
    ensures Edge(a, b) in Table(lines) ==>
              exists k | 0 <= k < |lines| :: Joins(lines[k], a, b) && Table(lines)[Edge(a, b)] == lines[k].distance &&
                forall k' | k < k' < |lines| :: !Joins(lines[k'], a, b)
  {
    if |lines| > 0 {
      var init, l := lines[..|lines| - 1], lines[|lines| - 1];
      TableAt(init, a, b);
      if Joins(l, a, b) {
        assert Table(lines)[Edge(a, b)] == l.distance;
      } else {
        TableOther(lines, a, b);
        if Edge(a, b) in Table(init) {
          var k :| 0 <= k < |init| && Joins(init[k], a, b) && Table(init)[Edge(a, b)] == init[k].distance &&
                   forall k' | k < k' < |init| :: !Joins(init[k'], a, b);
          assert lines[k] == init[k];
          assert forall k' | k < k' < |lines| :: !Joins(lines[k'], a, b) by {
            forall k' | k < k' < |lines|
              ensures !Joins(lines[k'], a, b)
            {
              if k' < |init| {
                assert lines[k'] == init[k'];
              }
            }
          }
        }
        if exists k | 0 <= k < |lines| :: Joins(lines[k], a, b) {
          var k :| 0 <= k < |lines| && Joins(lines[k], a, b);
          assert init[k] == lines[k];
        }
      }
    }
  }

  /** The last line leaves every pair it does not join as it was. */
  lemma TableOther(lines: seq<Line>, a: string, b: string)
    requires |lines| > 0 && !Joins(lines[|lines| - 1], a, b)
    ensures var init := Table(lines[..|lines| - 1]);
            (Edge(a, b) in Table(lines) <==> Edge(a, b) in init) &&
            (Edge(a, b) in init ==> Table(lines)[Edge(a, b)] == init[Edge(a, b)])
  {
  }

  /** The table is symmetric: both directions are present together, with the same distance. */
  lemma {:induction false} TableSymmetric(lines: seq<Line>, a: string, b: string)
    ensures Edge(a, b) in Table(lines) <==> Edge(b, a) in Table(lines)
    ensures Edge(a, b) in Table(lines) ==> Table(lines)[Edge(a, b)] == Table(lines)[Edge(b, a)]
  {
    if |lines| > 0 {
      TableSymmetric(lines[..|lines| - 1], a, b);
    }
  }

  /** Every place the lines name is listed once. */
  lemma {:induction false} PlacesListed(lines: seq<Line>)
    ensures Utils.Distinct(Places(lines))
    ensures forall p :: p in Places(lines) <==> exists k | 0 <= k < |lines| :: p == lines[k].from || p == lines[k].to
  {
    if |lines| > 0 {
      var init, l := lines[..|lines| - 1], lines[|lines| - 1];
      PlacesListed(init);
      AddPlaceDistinct(Places(init), l.from);
      AddPlaceDistinct(AddPlace(Places(init), l.from), l.to);
      forall p
        ensures p in Places(lines) <==> exists k | 0 <= k < |lines| :: p == lines[k].from || p == lines[k].to
      {
        if exists k | 0 <= k < |init| :: p == init[k].from || p == init[k].to {
          var k :| 0 <= k < |init| && (p == init[k].from || p == init[k].to);
          assert lines[k] == init[k];
        }
        if exists k | 0 <= k < |lines| :: p == lines[k].from || p == lines[k].to {
          var k :| 0 <= k < |lines| && (p == lines[k].from || p == lines[k].to);
          if k < |init| {
            assert init[k] == lines[k];
          }
        }
      }
    }
  }

  lemma AddPlaceDistinct(places: seq<string>, p: string)
    requires Utils.Distinct(places)
    ensures Utils.Distinct(AddPlace(places, p))
    ensures forall q :: q in AddPlace(places, p) <==> q in places || q == p
  {
    if p !in places {
      Utils.DistinctAppend(places, [p]);
    }
  }

  // ---------------------------------------------------------------------
  // Route distances.

  function Plus(a: Option<int>, b: Option<int>): Option<int>
  {
    if a.Some? && b.Some? then Some(a.value + b.value) else None
  }

  function EdgeLength(graph: map<Edge, int>, a: string, b: string): Option<int>
  {
    if Edge(a, b) in graph then Some(graph[Edge(a, b)]) else None
  }

  /** The sum of the edges between consecutive stops; `None` if one of them is not in the table. */
  function RouteDistance(route: seq<string>, graph: map<Edge, int>): Option<int>
  {
    if |route| <= 1 then Some(0)
    else Plus(RouteDistance(route[..|route| - 1], graph), EdgeLength(graph, route[|route| - 2], route[|route| - 1]))
  }

  /** `GetDistance(route, graph)`. */
  method GetDistance(route: seq<string>, graph: map<Edge, int>) returns (r: Option<int>)
    ensures r == RouteDistance(route, graph)
  {
    var result := 0;
    var i := 0;
    while i < |route| - 1
      invariant |route| == 0 ==> i == 0 && result == 0
      invariant |route| >= 1 ==> 0 <= i < |route| && RouteDistance(route[..i + 1], graph) == Some(result)
    {
      var e := Edge(route[i], route[i + 1]);
      assert route[..i + 2][..i + 1] == route[..i + 1];
      if e !in graph {
        ghost var j := i + 2;
        NoneStaysNone(route, graph, j);
        return None;
      }
      result := result + graph[e];
      i := i + 1;
    }
    if |route| >= 1 {
      assert route[..i + 1] == route;
    }
    return Some(result);
  }

  /** Once a prefix misses an edge, so does every longer prefix. */
  lemma {:induction false} NoneStaysNone(route: seq<string>, graph: map<Edge, int>, j: nat)
    requires j <= |route| && RouteDistance(route[..j], graph).None?
    ensures RouteDistance(route, graph).None?
    decreases |route| - j
  {
    if j < |route| {
      assert route[..j + 1][..j] == route[..j];
      NoneStaysNone(route, graph, j + 1);
    } else {
      assert route[..j] == route;
    }
  }

  function Reverse(s: seq<string>): (r: seq<string>)
    ensures |r| == |s|
  {
    if |s| == 0 then [] else Reverse(s[1..]) + [s[0]]
  }

  lemma {:induction false} ReverseFirst(s: seq<string>)
    requires |s| >= 1
    ensures Reverse(s)[|s| - 1] == s[0] && Reverse(s)[0] == s[|s| - 1]
  {
    if |s| > 1 {
      ReverseFirst(s[1..]);
    }
  }

  /** Distance splits off the first stop as well as the last one. */
  lemma {:induction false} RouteDistanceFront(x: string, route: seq<string>, graph: map<Edge, int>)
    requires |route| >= 1
    ensures RouteDistance([x] + route, graph) == Plus(EdgeLength(graph, x, route[0]), RouteDistance(route, graph))
  {
    var s := [x] + route;
    if |route| > 1 {
      var init := route[..|route| - 1];
      assert s[..|s| - 1] == [x] + init;
      RouteDistanceFront(x, init, graph);
    } else {
      assert s[..|s| - 1] == [x];
    }
  }

  /** On a symmetric table a route and its reverse have the same distance. */
  lemma {:induction false} ReverseSameDistance(route: seq<string>, graph: map<Edge, int>)
    requires forall a, b :: EdgeLength(graph, a, b) == EdgeLength(graph, b, a)
    ensures RouteDistance(Reverse(route), graph) == RouteDistance(route, graph)
  {
    if |route| > 1 {
      var x, rest := route[0], route[1..];
      ReverseSameDistance(rest, graph);
      var rr := Reverse(rest);
      ReverseFirst(rest);
      assert Reverse(route) == rr + [x];
      assert (rr + [x])[..|rr|] == rr;
      assert EdgeLength(graph, rr[|rr| - 1], x) == EdgeLength(graph, x, rest[0]);
      assert route == [x] + rest;
      RouteDistanceFront(x, rest, graph);
    }
  }

  /** The table built from any lines is symmetric in the sense `ReverseSameDistance` needs. */
  lemma TableEdgesSymmetric(lines: seq<Line>)
    ensures forall a, b :: EdgeLength(Table(lines), a, b) == EdgeLength(Table(lines), b, a)
  {
    forall a, b
      ensures EdgeLength(Table(lines), a, b) == EdgeLength(Table(lines), b, a)
    {
      TableSymmetric(lines, a, b);
    }
  }

  // ---------------------------------------------------------------------
  // The minimum and the maximum.

  /** Every route over the places, as `Utils.Permute(nodes.ToList())` lists them. */
  function Routes(lines: seq<Line>): seq<seq<string>>
  {
    Utils.PermsFrom(Places(lines), 0, |Places(lines)| - 1)
  }

  /** The distance of every route in order; `None` as soon as one route misses an edge. */
  function Distances(routes: seq<seq<string>>, graph: map<Edge, int>): Option<seq<int>>
  {
    if |routes| == 0 then Some([])
    else
      var init, last := Distances(routes[..|routes| - 1], graph), RouteDistance(routes[|routes| - 1], graph);
      if init.Some? && last.Some? then Some(init.value + [last.value]) else None
  }

  /** `Distances` succeeds exactly when every route has a distance, and then lists those distances. */
  lemma {:induction false} DistancesAt(routes: seq<seq<string>>, graph: map<Edge, int>)
    ensures Distances(routes, graph).Some? <==> forall k | 0 <= k < |routes| :: RouteDistance(routes[k], graph).Some?
    ensures Distances(routes, graph).Some? ==>
              var ds := Distances(routes, graph).value;
              |ds| == |routes| && forall k | 0 <= k < |routes| :: RouteDistance(routes[k], graph) == Some(ds[k])
  {
    if |routes| > 0 {
      var init := routes[..|routes| - 1];
      DistancesAt(init, graph);
      assert forall k | 0 <= k < |init| :: init[k] == routes[k];
    }
  }

  /** A route without a distance leaves every longer list of routes without distances. */
  lemma {:induction false} DistancesNone(routes: seq<seq<string>>, graph: map<Edge, int>, j: nat)
    requires j <= |routes| && Distances(routes[..j], graph).None?
    ensures Distances(routes, graph).None?
    decreases |routes| - j
  {
    if j < |routes| {
      assert routes[..j + 1][..j] == routes[..j];
      DistancesNone(routes, graph, j + 1);
    } else {
      assert routes[..j] == routes;
    }
  }

  /** `(min, max)` after `Math.Min`/`Math.Max` over `ds` from `int.MaxValue`/`int.MinValue`. */
  predicate MinMax(ds: seq<int>, min: int, max: int)
  {
    min <= IntMax && IntMin <= max &&
    (forall k | 0 <= k < |ds| :: min <= ds[k] <= max) &&
    (min == IntMax || exists k | 0 <= k < |ds| :: ds[k] == min) &&
    (max == IntMin || exists k | 0 <= k < |ds| :: ds[k] == max)
  }

  lemma MinMaxAppend(ds: seq<int>, min: int, max: int, d: int)
    requires MinMax(ds, min, max)
    ensures MinMax(ds + [d], if d < min then d else min, if d > max then d else max)
  {
    var t := ds + [d];
    assert forall k | 0 <= k < |ds| :: t[k] == ds[k];
    assert t[|ds|] == d;
  }

  /** With at least one distance, the minimum is at most the maximum. */
  lemma MinAtMostMax(ds: seq<int>, min: int, max: int)
    requires MinMax(ds, min, max) && |ds| > 0
    ensures min <= max
  {
    assert min <= ds[0] <= max;
  }

  /** The `foreach` over the routes in `Solve`, with `GetDistance` for each. */
  method Extremes(routes: seq<seq<string>>, graph: map<Edge, int>) returns (r: Option<(int, int)>)
    ensures r.Some? <==> Distances(routes, graph).Some?
    ensures r.Some? ==> MinMax(Distances(routes, graph).value, r.value.0, r.value.1)
  {
    var min := IntMax;
    var max := IntMin;
    ghost var ds: seq<int> := [];
    for q := 0 to |routes|
      invariant Distances(routes[..q], graph) == Some(ds)
      invariant MinMax(ds, min, max)
    {
      var distance := GetDistance(routes[q], graph);
      assert routes[..q + 1][..q] == routes[..q];
      if distance.None? {
        DistancesNone(routes, graph, q + 1);
        return None;
      }
      MinMaxAppend(ds, min, max, distance.value);
      min := if distance.value < min then distance.value else min;
      max := if distance.value > max then distance.value else max;
      ds := ds + [distance.value];
    }
    assert routes[..|routes|] == routes;
    return Some((min, max));
  }

  /** `Solve(input)` on the matched lines: `None` where a route uses a pair with no line. */
  method Solve(lines: seq<Line>) returns (r: Option<(int, int)>)
    ensures r.Some? <==> Distances(Routes(lines), Table(lines)).Some?
    ensures r.Some? ==> MinMax(Distances(Routes(lines), Table(lines)).value, r.value.0, r.value.1)
  {
    var graph, nodes := BuildGraph(lines);
    var list := new string[|nodes|](i requires 0 <= i < |nodes| => nodes[i]);
    assert list[..] == nodes;
    var routes := Utils.Permutations(list);
    r := Extremes(routes, graph);
  }

  /**
   * For one or more places: `n!` routes, and the routes are exactly the
   * orderings of the places; each reversed route has the same distance.
   */
  lemma RoutesOf(lines: seq<Line>)
    ensures |Places(lines)| >= 1 ==> |Routes(lines)| == Utils.Factorial(|Places(lines)|)
    ensures forall route :: route in Routes(lines) <==> |Places(lines)| >= 1 && multiset(route) == multiset(Places(lines))
    ensures forall route :: RouteDistance(Reverse(route), Table(lines)) == RouteDistance(route, Table(lines))
  {
    Utils.PermutationsOf(Places(lines));
    forall route | |Places(lines)| >= 1 && multiset(route) == multiset(Places(lines))
      ensures route in Routes(lines)
    {
      Utils.PermutationsComplete(Places(lines), route);
    }
    TableEdgesSymmetric(lines);
    forall route
      ensures RouteDistance(Reverse(route), Table(lines)) == RouteDistance(route, Table(lines))
    {
      ReverseSameDistance(route, Table(lines));
    }
  }

  method Solve1(lines: seq<Line>) returns (r: Option<int>)
    ensures r.Some? <==> Distances(Routes(lines), Table(lines)).Some?
    ensures r.Some? ==> exists max :: MinMax(Distances(Routes(lines), Table(lines)).value, r.value, max)
  {
    var both := Solve(lines);
    r := if both.Some? then Some(both.value.0) else None;
  }

  method Solve2(lines: seq<Line>) returns (r: Option<int>)
    ensures r.Some? <==> Distances(Routes(lines), Table(lines)).Some?
    ensures r.Some? ==> exists min :: MinMax(Distances(Routes(lines), Table(lines)).value, min, r.value)
  {
    var both := Solve(lines);
    r := if both.Some? then Some(both.value.1) else None;
  }
}

/**
 * Model of 2024/Day8.cs: antennas are the non-`'.'` cells of a character
 * grid, grouped by their character. For every pair of antennas with the
 * same character, the points `p1 + (i + 1)(p1 - p2)` and
 * `p2 + (i + 1)(p2 - p1)` are antinodes while they stay inside the grid;
 * part 1 takes only `i = 0`, part 2 every `i` and also the two antennas.
 * The answer is the number of distinct antinodes.
 *
 * `int` arithmetic on coordinates is unbounded here. The dictionary's
 * value order is not modelled: the antinodes form a set, so `Collect`
 * takes the frequencies in any order.
 */
module Day8Of2024 {
  import opened Wrappers
  import opened Strings
  import Utils
  import Parser

  datatype Point = Point(y: int, x: int)

  /** `int.MaxValue`, the default `count` of the generators. */
  const IntMax: int := 0x7FFF_FFFF

  predicate InGrid(rows: int, cols: int, p: Point)
  {
    0 <= p.y < rows && 0 <= p.x < cols
  }

  /** `IsValid(matrix, p)`. */
  predicate IsValid(matrix: array2<char>, p: Point)
  {
    InGrid(matrix.Length0, matrix.Length1, p)
  }

  /** The point the generators compute for index `i`: `((i + 2) * p1 - (i + 1) * p2)` per coordinate. */
  function Antinode(p1: Point, p2: Point, i: int): Point
  {
    Point((i + 2) * p1.y - (i + 1) * p2.y, (i + 2) * p1.x - (i + 1) * p2.x)
  }

  /** Point `i` is `i + 1` steps of `p1 - p2` away from `p1`; index -1 gives `p1` and index -2 gives `p2`. */
  lemma AntinodeSteps(p1: Point, p2: Point, i: int)
    ensures Antinode(p1, p2, i) == Point(p1.y + (i + 1) * (p1.y - p2.y), p1.x + (i + 1) * (p1.x - p2.x))
    ensures Antinode(p1, p2, -1) == p1 && Antinode(p1, p2, -2) == p2
  {
  }

  // ---------------------------------------------------------------------
  // The generators.

  /** What a generator yields: points `0, 1, ...` of the line, stopping before the first one outside the grid. */
  predicate Walked(matrix: array2<char>, p1: Point, p2: Point, count: int, points: seq<Point>)
  {
    |points| <= (if count < 0 then 0 else count) &&
    (forall k | 0 <= k < |points| :: points[k] == Antinode(p1, p2, k) && IsValid(matrix, points[k])) &&
    (|points| < count ==> !IsValid(matrix, Antinode(p1, p2, |points|)))
  }

  /** `GetPointForDirection1(matrix, p1, p2, count)`: the points beyond `p1`, away from `p2`. */
  method GetPointForDirection1(matrix: array2<char>, p1: Point, p2: Point, count: int) returns (points: seq<Point>)
    ensures Walked(matrix, p1, p2, count, points)
  {
    points := [];
    var i := 0;
    while i < count
      invariant 0 <= i == |points| <= (if count < 0 then 0 else count)
      invariant forall k | 0 <= k < i :: points[k] == Antinode(p1, p2, k) && IsValid(matrix, points[k])
      decreases count - i
    {
      var point := Point((i + 2) * p1.y - (i + 1) * p2.y, (i + 2) * p1.x - (i + 1) * p2.x);
      if !IsValid(matrix, point) {
        return;
      }
      points := points + [point];
      i := i + 1;
    }
  }

  /** `GetPointForDirection2(matrix, p1, p2, count)`: the points beyond `p2`, away from `p1`. */
  method GetPointForDirection2(matrix: array2<char>, p1: Point, p2: Point, count: int) returns (points: seq<Point>)
    ensures Walked(matrix, p2, p1, count, points)
  {
    points := [];
    var i := 0;
    while i < count
      invariant 0 <= i == |points| <= (if count < 0 then 0 else count)
      invariant forall k | 0 <= k < i :: points[k] == Antinode(p2, p1, k) && IsValid(matrix, points[k])
      decreases count - i
    {
      var point := Point((i + 2) * p2.y - (i + 1) * p1.y, (i + 2) * p2.x - (i + 1) * p1.x);
      if !IsValid(matrix, point) {
        return;
      }
      points := points + [point];
      i := i + 1;
    }
  }

  /** Every point of the line among the first `count` that lies in the grid. */
  ghost function Ray(rows: int, cols: int, a: Point, b: Point, count: int): set<Point>
  {
    set k | 0 <= k < count && InGrid(rows, cols, Antinode(a, b, k)) :: Antinode(a, b, k)
  }

  /** `s * d` lies between `0` and `t * d` when `0 <= s <= t`. */
  lemma ScaleBetween(s: int, t: int, d: int)
    requires 0 <= s <= t
    ensures d >= 0 ==> 0 <= s * d <= t * d
    ensures d < 0 ==> t * d <= s * d <= 0
  {
    assert t * d - s * d == (t - s) * d;
  }

  /** One coordinate: inside `[0, n)` at step 0 and at step `t` means inside at every step in between. */
  lemma CoordinateBetween(a: int, d: int, s: int, t: int, n: int)
    requires 0 <= a < n && 0 <= a + t * d < n && 0 <= s <= t
    ensures 0 <= a + s * d < n
  {
    ScaleBetween(s, t, d);
  }

  /** A grid is convex along a line: between `a` (index -1) and a point inside, every point is inside. */
  lemma InGridBetween(rows: int, cols: int, a: Point, b: Point, j: int, k: int)
    requires InGrid(rows, cols, a) && 0 <= j <= k && InGrid(rows, cols, Antinode(a, b, k))
    ensures InGrid(rows, cols, Antinode(a, b, j))
  {
    AntinodeSteps(a, b, j);
    AntinodeSteps(a, b, k);
    CoordinateBetween(a.y, a.y - b.y, j + 1, k + 1, rows);
    CoordinateBetween(a.x, a.x - b.x, j + 1, k + 1, cols);
  }

  /** Stopping at the first point outside loses nothing: a generator started at an antenna yields its whole ray. */
  lemma WalkedIsRay(matrix: array2<char>, a: Point, b: Point, count: int, points: seq<Point>)
    requires Walked(matrix, a, b, count, points) && IsValid(matrix, a)
    ensures forall p :: p in points <==> p in Ray(matrix.Length0, matrix.Length1, a, b, count)
  {
    var rows, cols := matrix.Length0, matrix.Length1;
    forall p | p in Ray(rows, cols, a, b, count)
      ensures p in points
    {
      var k :| 0 <= k < count && InGrid(rows, cols, Antinode(a, b, k)) && p == Antinode(a, b, k);
      if k >= |points| {
        InGridBetween(rows, cols, a, b, |points|, k);
      }
      assert points[k] == p;
    }
    forall p | p in points
      ensures p in Ray(rows, cols, a, b, count)
    {
      var k :| 0 <= k < |points| && points[k] == p;
      assert p == Antinode(a, b, k);
    }
  }

  /** Part 1 (`count = 1`) yields at most one point per direction, so at most two antinodes per pair. */
  lemma SingleStepRay(rows: int, cols: int, a: Point, b: Point)
    ensures Ray(rows, cols, a, b, 1) <= {Antinode(a, b, 0)}
  {
  }

  // ---------------------------------------------------------------------
  // Grouping the antennas.

  /** The cells of row `y` left of column `x` holding `c`, left to right. */
  function RowCells(g: seq<string>, c: char, y: nat, x: nat): seq<Point>
    requires y < |g| && x <= |g[y]|
  {
    if x == 0 then [] else RowCells(g, c, y, x - 1) + if g[y][x - 1] == c then [Point(y, x - 1)] else []
  }

  /** The cells of the first `y` rows, up to the first row's width, holding `c`, in row-major order. */
  function GridCells(g: seq<string>, c: char, y: nat): seq<Point>
    requires 1 <= |g| && y <= |g| && Parser.NoShortRow(g)
  {
    if y == 0 then [] else GridCells(g, c, y - 1) + RowCells(g, c, y - 1, |g[0]|)
  }

  /** The cells holding `c` in row-major order before cell `(y, x)`. */
  function Before(g: seq<string>, c: char, y: nat, x: nat): seq<Point>
    requires y < |g| && x <= |g[0]| && Parser.NoShortRow(g)
  {
    GridCells(g, c, y) + RowCells(g, c, y, x)
  }

  /** `m` maps every character other than `'.'` of the first `y` rows to its cells, and holds no other key. */
  ghost predicate GroupsRows(m: map<char, seq<Point>>, g: seq<string>, y: nat)
    requires 1 <= |g| && y <= |g| && Parser.NoShortRow(g)
  {
    forall c :: (c in m <==> c != '.' && |GridCells(g, c, y)| > 0) && (c in m ==> m[c] == GridCells(g, c, y))
  }

  /** The same for every cell before `(y, x)`. */
  ghost predicate GroupsBefore(m: map<char, seq<Point>>, g: seq<string>, y: nat, x: nat)
    requires y < |g| && x <= |g[0]| && Parser.NoShortRow(g)
  {
    forall c :: (c in m <==> c != '.' && |Before(g, c, y, x)| > 0) && (c in m ==> m[c] == Before(g, c, y, x))
  }

  lemma RowBegins(m: map<char, seq<Point>>, g: seq<string>, y: nat)
    requires y < |g| && Parser.NoShortRow(g) && GroupsRows(m, g, y)
    ensures GroupsBefore(m, g, y, 0)
  {
    forall c
      ensures Before(g, c, y, 0) == GridCells(g, c, y)
    {
    }
  }

  lemma RowEnds(m: map<char, seq<Point>>, g: seq<string>, y: nat)
    requires y < |g| && Parser.NoShortRow(g) && GroupsBefore(m, g, y, |g[0]|)
    ensures GroupsRows(m, g, y + 1)
  {
  }

  /** One cell of the inner loop of `ToMap`: `'.'` is skipped, any other character gets the cell appended. */
  lemma GroupStep(m: map<char, seq<Point>>, m': map<char, seq<Point>>, g: seq<string>, y: nat, x: nat)
    requires y < |g| && x < |g[0]| && Parser.NoShortRow(g)
    requires GroupsBefore(m, g, y, x)
    requires g[y][x] == '.' ==> m' == m
    requires g[y][x] != '.' ==> m' == m[g[y][x] := (if g[y][x] in m then m[g[y][x]] else []) + [Point(y, x)]]
    ensures GroupsBefore(m', g, y, x + 1)
  {
    var v := g[y][x];
    forall c
      ensures (c in m' <==> c != '.' && |Before(g, c, y, x + 1)| > 0) && (c in m' ==> m'[c] == Before(g, c, y, x + 1))
    {
      assert Before(g, c, y, x + 1) == Before(g, c, y, x) + if v == c then [Point(y, x)] else [];
    }
  }

  /** `ToMap(matrix)` over the matrix read from the lines `g`: each character other than `'.'` maps to its cells. */
  method ToMap(matrix: array2<char>, ghost g: seq<string>) returns (m: map<char, seq<Point>>)
    requires 1 <= |g| && Parser.NoShortRow(g)
    requires matrix.Length0 == |g| && matrix.Length1 == |g[0]|
    requires forall y, x | 0 <= y < |g| && 0 <= x < |g[0]| :: matrix[y, x] == g[y][x]
    ensures forall c :: c in m <==> c != '.' && |GridCells(g, c, |g|)| > 0
    ensures forall c | c in m :: m[c] == GridCells(g, c, |g|)
  {
    m := map[];
    for y := 0 to matrix.Length0
      invariant GroupsRows(m, g, y)
    {
      m := GroupRow(matrix, m, g, y);
    }
  }

  /** The inner loop of `ToMap`, over the cells of row `y`. */
  method GroupRow(matrix: array2<char>, m: map<char, seq<Point>>, ghost g: seq<string>, y: nat)
      returns (m': map<char, seq<Point>>)
    requires 1 <= |g| && Parser.NoShortRow(g) && y < |g|
    requires matrix.Length0 == |g| && matrix.Length1 == |g[0]|
    requires forall y, x | 0 <= y < |g| && 0 <= x < |g[0]| :: matrix[y, x] == g[y][x]
    requires GroupsRows(m, g, y)
    ensures GroupsRows(m', g, y + 1)
  {
    m' := m;
    RowBegins(m', g, y);
    for x := 0 to matrix.Length1
      invariant GroupsBefore(m', g, y, x)
    {
      var value := matrix[y, x];
      if value == '.' {
        GroupStep(m', m', g, y, x);
        continue;
      }
      ghost var m0 := m';
      if value !in m' {
        m' := m'[value := []];
      }
      m' := m'[value := m'[value] + [Point(y, x)]];
      assert m' == m0[value := (if value in m0 then m0[value] else []) + [Point(y, x)]];
      GroupStep(m0, m', g, y, x);
    }
    RowEnds(m', g, y);
  }

  /** Cell `p` lies in the first `rows` rows and the first `w` columns of `g` and holds `c`. */
  predicate Holds(g: seq<string>, c: char, rows: int, w: int, p: Point)
  {
    0 <= p.y < rows && 0 <= p.x < w && p.y < |g| && p.x < |g[p.y]| && g[p.y][p.x] == c
  }

  lemma {:induction false} RowCellsAt(g: seq<string>, c: char, y: nat, x: nat, p: Point)
    requires y < |g| && x <= |g[y]|
    ensures p in RowCells(g, c, y, x) <==> p.y == y && Holds(g, c, y + 1, x, p)
  {
    if x > 0 {
      RowCellsAt(g, c, y, x - 1, p);
    }
  }

  lemma {:induction false} GridCellsSound(g: seq<string>, c: char, y: nat, p: Point)
    requires 1 <= |g| && y <= |g| && Parser.NoShortRow(g)
    ensures p in GridCells(g, c, y) ==> Holds(g, c, y, |g[0]|, p)
  {
    if y > 0 {
      var above, row := GridCells(g, c, y - 1), RowCells(g, c, y - 1, |g[0]|);
      GridCellsSound(g, c, y - 1, p);
      RowCellsAt(g, c, y - 1, |g[0]|, p);
      InEither(above, row, p);
    }
  }

  lemma {:induction false} GridCellsComplete(g: seq<string>, c: char, y: nat, p: Point)
    requires 1 <= |g| && y <= |g| && Parser.NoShortRow(g)
    requires Holds(g, c, y, |g[0]|, p)
    ensures p in GridCells(g, c, y)
  {
    var above, row := GridCells(g, c, y - 1), RowCells(g, c, y - 1, |g[0]|);
    if p.y < y - 1 {
      GridCellsComplete(g, c, y - 1, p);
      InLeft(above, row, p);
    } else {
      RowCellsAt(g, c, y - 1, |g[0]|, p);
      InRight(above, row, p);
    }
  }

  /** A cell is listed exactly when it lies in the first `y` rows within the width and holds `c`. */
  lemma GridCellsAt(g: seq<string>, c: char, y: nat, p: Point)
    requires 1 <= |g| && y <= |g| && Parser.NoShortRow(g)
    ensures p in GridCells(g, c, y) <==> Holds(g, c, y, |g[0]|, p)
  {
    GridCellsSound(g, c, y, p);
    if Holds(g, c, y, |g[0]|, p) {
      GridCellsComplete(g, c, y, p);
    }
  }

  lemma InEither(a: seq<Point>, b: seq<Point>, p: Point)
    ensures p in a + b ==> p in a || p in b
  {
  }

  lemma InLeft(a: seq<Point>, b: seq<Point>, p: Point)
    requires p in a
    ensures p in a + b
  {
  }

  lemma InRight(a: seq<Point>, b: seq<Point>, p: Point)
    requires p in b
    ensures p in a + b
  {
  }

  lemma {:induction false} RowCellsDistinct(g: seq<string>, c: char, y: nat, x: nat)
    requires y < |g| && x <= |g[y]|
    ensures Utils.Distinct(RowCells(g, c, y, x))
  {
    if x > 0 {
      RowCellsDistinct(g, c, y, x - 1);
      RowCellsAt(g, c, y, x - 1, Point(y, x - 1));
      Utils.DistinctAppend(RowCells(g, c, y, x - 1), if g[y][x - 1] == c then [Point(y, x - 1)] else []);
    }
  }

  /** The cells of row `y` come after the cells of the rows above it. */
  lemma RowAfterRows(g: seq<string>, c: char, y: nat, p: Point)
    requires 1 <= |g| && y < |g| && Parser.NoShortRow(g)
    requires p in RowCells(g, c, y, |g[0]|)
    ensures p !in GridCells(g, c, y)
  {
    RowCellsAt(g, c, y, |g[0]|, p);
    GridCellsSound(g, c, y, p);
  }

  /** No cell is listed twice. */
  lemma {:induction false} GridCellsDistinct(g: seq<string>, c: char, y: nat)
    requires 1 <= |g| && y <= |g| && Parser.NoShortRow(g)
    ensures Utils.Distinct(GridCells(g, c, y))
  {
    if y > 0 {
      var above, row := GridCells(g, c, y - 1), RowCells(g, c, y - 1, |g[0]|);
      GridCellsDistinct(g, c, y - 1);
      RowCellsDistinct(g, c, y - 1, |g[0]|);
      forall p | p in row
        ensures p !in above
      {
        RowAfterRows(g, c, y - 1, p);
      }
      Utils.DistinctAppend(above, row);
    }
  }

  // ---------------------------------------------------------------------
  // Building the set.

  /** What one pair adds: in part 2 the two antennas, then both generators' points. */
  ghost function PairAntinodes(rows: int, cols: int, a: Point, b: Point, count: int, withAntennas: bool): set<Point>
  {
    (if withAntennas then {a, b} else {}) + Ray(rows, cols, a, b, count) + Ray(rows, cols, b, a, count)
  }

  /** The union of `f` over a list of pairs. */
  ghost function UnionOver(pairs: seq<(Point, Point)>, f: (Point, Point) -> set<Point>): set<Point>
  {
    if |pairs| == 0 then {}
    else UnionOver(pairs[..|pairs| - 1], f) + f(pairs[|pairs| - 1].0, pairs[|pairs| - 1].1)
  }

  ghost function PairAntinodesOf(rows: int, cols: int, count: int, withAntennas: bool): (Point, Point) -> set<Point>
  {
    (a, b) => PairAntinodes(rows, cols, a, b, count, withAntennas)
  }

  /** What one frequency adds: the pairs of its cells as `Utils.Pairs` enumerates them. */
  ghost function FrequencyAntinodes(rows: int, cols: int, cells: seq<Point>, count: int, withAntennas: bool): set<Point>
  {
    UnionOver(Utils.PairsBelow(cells, |cells|), PairAntinodesOf(rows, cols, count, withAntennas))
  }

  /** `foreach (var a in points) result.Add(a)`. */
  method AddAll(result: set<Point>, points: seq<Point>) returns (r: set<Point>)
    ensures forall p :: p in r <==> p in result || p in points
  {
    r := result;
    for k := 0 to |points|
      invariant forall p :: p in r <==> p in result || p in points[..k]
    {
      r := r + {points[k]};
    }
    assert points[..|points|] == points;
  }

  /** The body of the loop over the pairs. */
  method PairStep(matrix: array2<char>, result: set<Point>, p1: Point, p2: Point, count: int, withAntennas: bool)
    returns (r: set<Point>)
    requires IsValid(matrix, p1) && IsValid(matrix, p2)
    ensures r == result + PairAntinodes(matrix.Length0, matrix.Length1, p1, p2, count, withAntennas)
  {
    r := result;
    if withAntennas {
      r := r + {p1};
      r := r + {p2};
    }
    var a1 := GetPointForDirection1(matrix, p1, p2, count);
    WalkedIsRay(matrix, p1, p2, count, a1);
    r := AddAll(r, a1);
    var a2 := GetPointForDirection2(matrix, p1, p2, count);
    WalkedIsRay(matrix, p2, p1, count, a2);
    r := AddAll(r, a2);
  }

  /** The loop over `Utils.Pairs(values)` for one frequency. */
  method FrequencyStep(matrix: array2<char>, result: set<Point>, values: seq<Point>, count: int, withAntennas: bool)
    returns (r: set<Point>)
    requires forall k | 0 <= k < |values| :: IsValid(matrix, values[k])
    ensures r == result + FrequencyAntinodes(matrix.Length0, matrix.Length1, values, count, withAntennas)
  {
    var pairs := Utils.Pairs(values);
    r := result;
    for q := 0 to |pairs|
      invariant r == result + UnionOver(pairs[..q], PairAntinodesOf(matrix.Length0, matrix.Length1, count, withAntennas))
    {
      Utils.PairsAreIndexPairs(values, |values|, q);
      var (p1, p2) := pairs[q];
      r := PairStep(matrix, r, p1, p2, count, withAntennas);
      assert pairs[..q + 1][..q] == pairs[..q];
    }
    assert pairs[..|pairs|] == pairs;
  }

  /** The loop over the dictionary's values, taken in any order. */
  method Collect(matrix: array2<char>, antennas: map<char, seq<Point>>, count: int, withAntennas: bool)
    returns (result: set<Point>)
    requires forall c | c in antennas :: forall k | 0 <= k < |antennas[c]| :: IsValid(matrix, antennas[c][k])
    ensures forall p :: p in result <==>
              exists c | c in antennas :: p in FrequencyAntinodes(matrix.Length0, matrix.Length1, antennas[c], count, withAntennas)
  {
    var rows, cols := matrix.Length0, matrix.Length1;
    result := {};
    var keys := antennas.Keys;
    while keys != {}
      invariant keys <= antennas.Keys
      invariant forall p :: p in result <==>
                  exists c | c in antennas && c !in keys :: p in FrequencyAntinodes(rows, cols, antennas[c], count, withAntennas)
      decreases keys
    {
      var c :| c in keys;
      result := FrequencyStep(matrix, result, antennas[c], count, withAntennas);
      keys := keys - {c};
    }
  }

  // ---------------------------------------------------------------------
  // What is counted.

  function Width(g: seq<string>): nat
  {
    if |g| == 0 then 0 else |g[0]|
  }

  /** The character of a grid cell, `'.'` outside the grid. */
  function CharAt(g: seq<string>, p: Point): char
  {
    if InGrid(|g|, Width(g), p) && p.x < |g[p.y]| then g[p.y][p.x] else '.'
  }

  /** The antennas: every cell within the grid not holding `'.'`. */
  ghost function AntennaSet(g: seq<string>): set<Point>
  {
    set y, x | 0 <= y < |g| && 0 <= x < Width(g) && CharAt(g, Point(y, x)) != '.' :: Point(y, x)
  }

  /** A point is an antenna exactly when it lies in the grid and does not hold `'.'`. */
  lemma AntennaSetAt(g: seq<string>, p: Point)
    ensures p in AntennaSet(g) <==> InGrid(|g|, Width(g), p) && CharAt(g, p) != '.'
  {
    if InGrid(|g|, Width(g), p) && CharAt(g, p) != '.' {
      assert p == Point(p.y, p.x);
    }
  }

  /** The antinodes of every pair of distinct antennas with the same character. */
  ghost function Antinodes(g: seq<string>, count: int, withAntennas: bool): set<Point>
  {
    set a, b, p | a in AntennaSet(g) && b in AntennaSet(g) &&
                  p in PairAntinodes(|g|, Width(g), a, b, count, withAntennas) &&
                  a != b && CharAt(g, a) == CharAt(g, b) :: p
  }

  /** The antinodes of one pair of distinct antennas with the same character are antinodes of the grid. */
  lemma InAntinodes(g: seq<string>, a: Point, b: Point, p: Point, count: int, withAntennas: bool)
    requires a in AntennaSet(g) && b in AntennaSet(g) && a != b && CharAt(g, a) == CharAt(g, b)
    requires p in PairAntinodes(|g|, Width(g), a, b, count, withAntennas)
    ensures p in Antinodes(g, count, withAntennas)
  {
  }

  /** Every antinode of the grid comes from such a pair. */
  lemma FromAntinodes(g: seq<string>, p: Point, count: int, withAntennas: bool) returns (a: Point, b: Point)
    requires p in Antinodes(g, count, withAntennas)
    ensures a in AntennaSet(g) && b in AntennaSet(g) && a != b && CharAt(g, a) == CharAt(g, b)
    ensures p in PairAntinodes(|g|, Width(g), a, b, count, withAntennas)
  {
    a, b :| a in AntennaSet(g) && b in AntennaSet(g) &&
            p in PairAntinodes(|g|, Width(g), a, b, count, withAntennas) &&
            a != b && CharAt(g, a) == CharAt(g, b);
  }

  /** A point is in a union over a list of pairs exactly when one of the pairs gives it. */
  lemma {:induction false} UnionOverAt(pairs: seq<(Point, Point)>, f: (Point, Point) -> set<Point>, p: Point)
    ensures p in UnionOver(pairs, f) <==> exists q | 0 <= q < |pairs| :: p in f(pairs[q].0, pairs[q].1)
  {
    if |pairs| > 0 {
      var init := pairs[..|pairs| - 1];
      UnionOverAt(init, f, p);
      if exists q | 0 <= q < |init| :: p in f(init[q].0, init[q].1) {
        var q :| 0 <= q < |init| && p in f(init[q].0, init[q].1);
        assert pairs[q] == init[q];
      }
    }
  }

  /** A point some pair of positions gives is in the union over the enumerated pairs. */
  lemma PairInUnion(cells: seq<Point>, f: (Point, Point) -> set<Point>, p: Point, i: nat, j: nat)
    requires i < j < |cells| && p in f(cells[i], cells[j])
    ensures p in UnionOver(Utils.PairsBelow(cells, |cells|), f)
  {
    var pairs := Utils.PairsBelow(cells, |cells|);
    Utils.PairAt(cells, i, j);
    var q := Utils.RowStart(|cells|, i) + j - i - 1;
    assert pairs[q] == (cells[i], cells[j]);
    UnionOverAt(pairs, f, p);
  }

  /** A point in the union over the enumerated pairs comes from two positions `i < j`. */
  lemma PairFromUnion(cells: seq<Point>, f: (Point, Point) -> set<Point>, p: Point) returns (i: nat, j: nat)
    requires p in UnionOver(Utils.PairsBelow(cells, |cells|), f)
    ensures i < j < |cells| && p in f(cells[i], cells[j])
  {
    var pairs := Utils.PairsBelow(cells, |cells|);
    UnionOverAt(pairs, f, p);
    var q :| 0 <= q < |pairs| && p in f(pairs[q].0, pairs[q].1);
    Utils.PairsAreIndexPairs(cells, |cells|, q);
    i, j :| 0 <= i < j < |cells| && pairs[q] == (cells[i], cells[j]);
  }

  /** Over the pairs `Utils.Pairs` enumerates, the union is over every two positions `i < j`. */
  lemma PairsUnionAt(cells: seq<Point>, f: (Point, Point) -> set<Point>, p: Point)
    ensures p in UnionOver(Utils.PairsBelow(cells, |cells|), f) <==>
            exists i, j | 0 <= i < j < |cells| :: p in f(cells[i], cells[j])
  {
    if p in UnionOver(Utils.PairsBelow(cells, |cells|), f) {
      var i, j := PairFromUnion(cells, f, p);
    }
    if exists i, j | 0 <= i < j < |cells| :: p in f(cells[i], cells[j]) {
      var i, j :| 0 <= i < j < |cells| && p in f(cells[i], cells[j]);
      PairInUnion(cells, f, p, i, j);
    }
  }

  /** A point comes from a frequency exactly when it comes from two of its cells. */
  lemma FrequencyAt(rows: int, cols: int, cells: seq<Point>, count: int, withAntennas: bool, p: Point)
    ensures p in FrequencyAntinodes(rows, cols, cells, count, withAntennas) <==>
            exists i, j | 0 <= i < j < |cells| :: p in PairAntinodes(rows, cols, cells[i], cells[j], count, withAntennas)
  {
    PairsUnionAt(cells, PairAntinodesOf(rows, cols, count, withAntennas), p);
  }

  /** Every antinode found through a frequency is an antinode of the grid. */
  lemma GroupedAreAntinodes(g: seq<string>, antennas: map<char, seq<Point>>, count: int, withAntennas: bool, p: Point, c: char)
    requires 1 <= |g| && Parser.NoShortRow(g)
    requires c in antennas && c != '.' && antennas[c] == GridCells(g, c, |g|)
    requires p in FrequencyAntinodes(|g|, Width(g), antennas[c], count, withAntennas)
    ensures p in Antinodes(g, count, withAntennas)
  {
    var rows, cols := |g|, Width(g);
    var cells := antennas[c];
    FrequencyAt(rows, cols, cells, count, withAntennas, p);
    var i, j :| 0 <= i < j < |cells| && p in PairAntinodes(rows, cols, cells[i], cells[j], count, withAntennas);
    var a, b := cells[i], cells[j];
    GridCellsAt(g, c, |g|, a);
    GridCellsAt(g, c, |g|, b);
    GridCellsDistinct(g, c, |g|);
    assert a != b;
    assert CharAt(g, a) == c && CharAt(g, b) == c;
    AntennaSetAt(g, a);
    AntennaSetAt(g, b);
    InAntinodes(g, a, b, p, count, withAntennas);
  }

  /** An antenna holds its own character, which is not `'.'`. */
  lemma AntennaHolds(g: seq<string>, a: Point)
    requires 1 <= |g| && a in AntennaSet(g)
    ensures CharAt(g, a) != '.' && Holds(g, CharAt(g, a), |g|, |g[0]|, a)
  {
    AntennaSetAt(g, a);
  }

  /** Two different cells of a frequency give their antinodes to it, in either order. */
  lemma PairInFrequency(rows: int, cols: int, cells: seq<Point>, count: int, withAntennas: bool, a: Point, b: Point, p: Point)
    requires a in cells && b in cells && a != b
    requires p in PairAntinodes(rows, cols, a, b, count, withAntennas)
    ensures p in FrequencyAntinodes(rows, cols, cells, count, withAntennas)
  {
    var i :| 0 <= i < |cells| && cells[i] == a;
    var j :| 0 <= j < |cells| && cells[j] == b;
    FrequencyAt(rows, cols, cells, count, withAntennas, p);
    if j < i {
      PairAntinodesSymmetric(rows, cols, a, b, count, withAntennas);
    }
  }

  lemma PairAntinodesSymmetric(rows: int, cols: int, a: Point, b: Point, count: int, withAntennas: bool)
    ensures PairAntinodes(rows, cols, a, b, count, withAntennas) == PairAntinodes(rows, cols, b, a, count, withAntennas)
  {
  }

  /** Every antinode of the grid is found through the frequency of its pair. */
  lemma AntinodesAreGrouped(g: seq<string>, antennas: map<char, seq<Point>>, count: int, withAntennas: bool, p: Point)
      returns (c: char)
    requires 1 <= |g| && Parser.NoShortRow(g)
    requires forall c :: c in antennas <==> c != '.' && |GridCells(g, c, |g|)| > 0
    requires forall c | c in antennas :: antennas[c] == GridCells(g, c, |g|)
    requires p in Antinodes(g, count, withAntennas)
    ensures c in antennas && p in FrequencyAntinodes(|g|, Width(g), antennas[c], count, withAntennas)
  {
    var a, b := FromAntinodes(g, p, count, withAntennas);
    c := CharAt(g, a);
    AntennaHolds(g, a);
    AntennaHolds(g, b);
    GridCellsAt(g, c, |g|, a);
    GridCellsAt(g, c, |g|, b);
    var cells := GridCells(g, c, |g|);
    PairInFrequency(|g|, Width(g), cells, count, withAntennas, a, b, p);
  }

  /** The grouped antennas' antinodes are exactly the antinodes of the grid. */
  lemma GroupedAntinodes(g: seq<string>, antennas: map<char, seq<Point>>, count: int, withAntennas: bool, p: Point)
    requires 1 <= |g| && Parser.NoShortRow(g)
    requires forall c :: c in antennas <==> c != '.' && |GridCells(g, c, |g|)| > 0
    requires forall c | c in antennas :: antennas[c] == GridCells(g, c, |g|)
    ensures (exists c | c in antennas :: p in FrequencyAntinodes(|g|, Width(g), antennas[c], count, withAntennas)) <==>
            p in Antinodes(g, count, withAntennas)
  {
    if exists c | c in antennas :: p in FrequencyAntinodes(|g|, Width(g), antennas[c], count, withAntennas) {
      var c :| c in antennas && p in FrequencyAntinodes(|g|, Width(g), antennas[c], count, withAntennas);
      GroupedAreAntinodes(g, antennas, count, withAntennas, p, c);
    }
    if p in Antinodes(g, count, withAntennas) {
      var c := AntinodesAreGrouped(g, antennas, count, withAntennas, p);
    }
  }

  /** `Solve1`/`Solve2`: `None` where the matrix cannot be read (a row shorter than the first). */
  method Solve(input: string, count: int, withAntennas: bool) returns (r: Option<nat>)
    ensures r.Some? <==> Parser.NoShortRow(Split(input, '\n'))
    ensures r.Some? ==> r.value == |Antinodes(Split(input, '\n'), count, withAntennas)|
  {
    ghost var g := Split(input, '\n');
    var parsed := Parser.ParseMatrix(input);
    if parsed.None? {
      return None;
    }
    var matrix := parsed.value;
    var antennas := ToMap(matrix, g);
    forall c | c in antennas
      ensures forall k | 0 <= k < |antennas[c]| :: IsValid(matrix, antennas[c][k])
    {
      forall k | 0 <= k < |antennas[c]|
        ensures IsValid(matrix, antennas[c][k])
      {
        GridCellsAt(g, c, |g|, antennas[c][k]);
      }
    }
    var result := Collect(matrix, antennas, count, withAntennas);
    forall p
      ensures p in result <==> p in Antinodes(g, count, withAntennas)
    {
      GroupedAntinodes(g, antennas, count, withAntennas, p);
    }
    assert result == Antinodes(g, count, withAntennas);
    return Some(|result|);
  }

  /** Part 1: one step on each side of every pair. */
  method Solve1(input: string) returns (r: Option<nat>)
    ensures r.Some? <==> Parser.NoShortRow(Split(input, '\n'))
    ensures r.Some? ==> r.value == |Antinodes(Split(input, '\n'), 1, false)|
  {
    r := Solve(input, 1, false);
  }

  /** Part 2: every step inside the grid, and the antennas of every pair. */
  method Solve2(input: string) returns (r: Option<nat>)
    ensures r.Some? <==> Parser.NoShortRow(Split(input, '\n'))
    ensures r.Some? ==> r.value == |Antinodes(Split(input, '\n'), IntMax, true)|
  {
    r := Solve(input, IntMax, true);
  }
}
